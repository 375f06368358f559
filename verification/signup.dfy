/**
 Signup validation (`validate_signup` in blog.py). The errors record is the
 Python dict the handler passes in: it arrives holding the escaped username
 and email, the validator resets four error entries to the empty string and
 then runs its checks in a fixed order, stopping at the first that fails and
 filling in only that check's message.
 */
module Signup {
  import opened Patterns
  import Html

  /** The dict that carries form values and error messages to the template. */
  type Errors = map<string, string>

  /** The four checks, in the order the validator runs them. */
  datatype Check = UsernameCheck | PasswordCheck | VerifyCheck | EmailCheck

  function Rank(c: Check): nat {
    match c
    case UsernameCheck => 0
    case PasswordCheck => 1
    case VerifyCheck => 2
    case EmailCheck => 3
  }

  function ErrorKey(c: Check): string {
    match c
    case UsernameCheck => "username_error"
    case PasswordCheck => "password_error"
    case VerifyCheck => "verify_error"
    case EmailCheck => "email_error"
  }

  function Message(c: Check): string {
    match c
    case UsernameCheck => "invalid username. try just letters and numbers"
    case PasswordCheck => "invalid password."
    case VerifyCheck => "password must match"
    case EmailCheck => "invalid email address"
  }

  const ErrorKeys: set<string> :=
    {"username_error", "password_error", "verify_error", "email_error"}

  /** Whether one check passes. The email is optional: an empty one passes. */
  predicate Passes(c: Check, username: string, password: string, verify: string, email: string) {
    match c
    case UsernameCheck => UserRe(username)
    case PasswordCheck => PassRe(password)
    case VerifyCheck => password == verify
    case EmailCheck => email == "" || EmailRe(email)
  }

  /** `c` fails and every check run before it passes. */
  predicate FirstFailing(c: Check, username: string, password: string, verify: string, email: string) {
    && !Passes(c, username, password, verify, email)
    && forall d :: Rank(d) < Rank(c) ==> Passes(d, username, password, verify, email)
  }

  /** The signup is acceptable: a valid username, a valid password typed the
      same twice, and either no email or a valid one. */
  predicate SignupValid(username: string, password: string, verify: string, email: string) {
    UserRe(username) && PassRe(password) && password == verify && (email == "" || EmailRe(email))
  }

  /** What the validator hands back: its verdict and the updated dict. */
  datatype SignupResult = SignupResult(valid: bool, errors: Errors)

  /** The dict the signup handler prepares before validating: the username
      and the email, HTML-escaped for re-display in the form. */
  function InitialErrors(username: string, email: string): (errors: Errors)
    ensures errors.Keys == {"username", "email"}
    ensures errors["username"] == Html.HtmlEscape(username)
    ensures errors["email"] == Html.HtmlEscape(email)
    ensures Html.DecodeBody(errors["username"]) == username
    ensures Html.DecodeBody(errors["email"]) == email
    ensures forall c :: c in "<>\"'" ==> c !in errors["username"] && c !in errors["email"]
  {
    Html.EscapeRoundTrip(username);
    Html.EscapeRoundTrip(email);
    map["username" := Html.HtmlEscape(username), "email" := Html.HtmlEscape(email)]
  }

  /** `ErrorKeys` is exactly the set of the checks' keys. */
  lemma ErrorKeysOfChecks()
    ensures forall c :: ErrorKey(c) in ErrorKeys
    ensures forall k :: k in ErrorKeys ==> exists c :: ErrorKey(c) == k
  {
    assert ErrorKey(UsernameCheck) == "username_error";
    assert ErrorKey(PasswordCheck) == "password_error";
    assert ErrorKey(VerifyCheck) == "verify_error";
    assert ErrorKey(EmailCheck) == "email_error";
  }

  lemma ErrorKeysDistinct(c: Check, d: Check)
    ensures ErrorKey(c) == ErrorKey(d) ==> c == d
  {
  }

  /** Every error entry present and empty. */
  predicate AllClear(errors: Errors) {
    forall c :: ErrorKey(c) in errors && errors[ErrorKey(c)] == ""
  }

  /** The first step of the validator: the four error entries reset. */
  function ClearErrors(errors: Errors): (cleared: Errors)
    ensures cleared.Keys == errors.Keys + ErrorKeys
    ensures forall k :: k in errors && k !in ErrorKeys ==> cleared[k] == errors[k]
    ensures AllClear(cleared)
  {
    errors["username_error" := ""]["password_error" := ""]["verify_error" := ""]["email_error" := ""]
  }

  /** A failing check's message written into the cleared dict. */
  function Report(cleared: Errors, c: Check): (r: SignupResult)
    requires AllClear(cleared)
    ensures !r.valid && r.errors.Keys == cleared.Keys
    ensures forall k :: k in cleared && k !in ErrorKeys ==> r.errors[k] == cleared[k]
    ensures r.errors[ErrorKey(c)] == Message(c)
    ensures forall d :: d != c ==> r.errors[ErrorKey(d)] == ""
  {
    forall d | d != c
      ensures ErrorKey(d) != ErrorKey(c)
    {
      ErrorKeysDistinct(c, d);
    }
    SignupResult(false, cleared[ErrorKey(c) := Message(c)])
  }

  /** `validate_signup(username, password, verify, email, errors)`. */
  function ValidateSignup(username: string, password: string, verify: string, email: string,
                          errors: Errors): (r: SignupResult)
    ensures r.errors.Keys == errors.Keys + ErrorKeys
    ensures forall k :: k in errors && k !in ErrorKeys ==> r.errors[k] == errors[k]
    ensures r.valid <==> SignupValid(username, password, verify, email)
    ensures r.valid ==> AllClear(r.errors)
    ensures !r.valid ==> exists c :: && FirstFailing(c, username, password, verify, email)
                                     && r.errors[ErrorKey(c)] == Message(c)
                                     && forall d :: d != c ==> r.errors[ErrorKey(d)] == ""
  {
    var cleared := ClearErrors(errors);
    if !UserRe(username) then
      assert FirstFailing(UsernameCheck, username, password, verify, email);
      Report(cleared, UsernameCheck)
    else if !PassRe(password) then
      assert FirstFailing(PasswordCheck, username, password, verify, email);
      Report(cleared, PasswordCheck)
    else if password != verify then
      assert FirstFailing(VerifyCheck, username, password, verify, email);
      Report(cleared, VerifyCheck)
    else if email != "" && !EmailRe(email) then
      assert FirstFailing(EmailCheck, username, password, verify, email);
      Report(cleared, EmailCheck)
    else
      SignupResult(true, cleared)
  }

  /** On a failed signup the one reported check is the first failing one:
      no other check's message ever appears, whatever else is wrong. */
  lemma OnlyFirstFailureReported(username: string, password: string, verify: string, email: string,
                                 errors: Errors, c: Check)
    requires FirstFailing(c, username, password, verify, email)
    ensures var r := ValidateSignup(username, password, verify, email, errors);
            && !r.valid
            && r.errors[ErrorKey(c)] == Message(c)
            && forall d :: d != c ==> r.errors[ErrorKey(d)] == ""
  {
    var r := ValidateSignup(username, password, verify, email, errors);
    var c' :| && FirstFailing(c', username, password, verify, email)
              && r.errors[ErrorKey(c')] == Message(c')
              && forall d :: d != c' ==> r.errors[ErrorKey(d)] == "";
    FirstFailingUnique(c, c', username, password, verify, email);
  }

  lemma FirstFailingUnique(c: Check, c': Check, username: string, password: string,
                           verify: string, email: string)
    requires FirstFailing(c, username, password, verify, email)
    requires FirstFailing(c', username, password, verify, email)
    ensures c == c'
  {
  }

  lemma NotAnEmail()
    ensures !EmailRe("not-an-email")
  {
    var e := "not-an-email";
    assert '@' !in e;
    assert e[|e| - 1] != '\n';
  }

  /** The example of a too-short username with an invalid email: the email
      is invalid, yet only the username error is reported. */
  lemma ShortUsernameHidesBadEmail(errors: Errors)
    ensures !EmailRe("not-an-email")
    ensures var r := ValidateSignup("ab", "validpass", "validpass", "not-an-email", errors);
            && !r.valid
            && r.errors["username_error"] == Message(UsernameCheck)
            && r.errors["password_error"] == ""
            && r.errors["verify_error"] == ""
            && r.errors["email_error"] == ""
  {
    NotAnEmail();
    assert !UserRe("ab");
    assert FirstFailing(UsernameCheck, "ab", "validpass", "validpass", "not-an-email");
    OnlyFirstFailureReported("ab", "validpass", "validpass", "not-an-email", errors, UsernameCheck);
    assert ErrorKey(PasswordCheck) == "password_error";
    assert ErrorKey(VerifyCheck) == "verify_error";
    assert ErrorKey(EmailCheck) == "email_error";
  }

  /** The signup handler's dict after a rejected username: the username error
      is the only message, and the escaped username and email it was
      prepared with are still there for the form. */
  lemma RejectedUsernameKeepsFormValues(username: string, password: string, verify: string,
                                        email: string)
    requires !UserRe(username)
    ensures var r := ValidateSignup(username, password, verify, email, InitialErrors(username, email));
            && !r.valid
            && r.errors.Keys == {"username", "email"} + ErrorKeys
            && r.errors["username_error"] == Message(UsernameCheck)
            && r.errors["password_error"] == ""
            && r.errors["verify_error"] == ""
            && r.errors["email_error"] == ""
            && r.errors["username"] == Html.HtmlEscape(username)
            && r.errors["email"] == Html.HtmlEscape(email)
            && Html.DecodeBody(r.errors["username"]) == username
            && Html.DecodeBody(r.errors["email"]) == email
  {
    var errors := InitialErrors(username, email);
    assert FirstFailing(UsernameCheck, username, password, verify, email);
    OnlyFirstFailureReported(username, password, verify, email, errors, UsernameCheck);
    assert ErrorKey(PasswordCheck) == "password_error";
    assert ErrorKey(VerifyCheck) == "verify_error";
    assert ErrorKey(EmailCheck) == "email_error";
    assert "username" !in ErrorKeys && "email" !in ErrorKeys;
  }

  /** The `$` allowance reaches the validator: a username and password that
      end in a newline are accepted as they stand. */
  lemma FinalNewlineSignup(errors: Errors)
    ensures ValidateSignup("abc\n", "abc\n", "abc\n", "", errors).valid
  {
    FinalNewlineAccepted();
  }
}
