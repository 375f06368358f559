/**
 The three signup patterns of blog.py, written as predicates over the
 characters of the input rather than through a regular-expression engine:

   USER_RE  = ^[a-zA-Z0-9_-]{3,20}$
   PASS_RE  = ^.{3,20}$
   EMAIL_RE = ^[\S]+@[\S]+\.[\S]+$

 All three are used with Python's `re.match`, where `$` matches at the very
 end of the input OR just before a newline that ends it. The model keeps that
 behaviour: each pattern accepts its core language and, in addition, any word
 of that language followed by one `\n`.
 */
module Patterns {
  import opened Text

  /** `re.match` of `^core$`: `$` also matches before one final newline. */
  predicate AnchoredMatch(core: string -> bool, s: string) {
    core(s) || (|s| > 0 && s[|s| - 1] == '\n' && core(s[..|s| - 1]))
  }

  /** The class `[a-zA-Z0-9_-]`: ASCII letters and digits, underscore, hyphen. */
  predicate IsUsernameChar(c: char) {
    'a' <= c <= 'z' || 'A' <= c <= 'Z' || '0' <= c <= '9' || c == '_' || c == '-'
  }

  predicate UsernameCore(s: string) {
    3 <= |s| <= 20 && forall i :: 0 <= i < |s| ==> IsUsernameChar(s[i])
  }

  /** `.` matches every character except the newline. */
  predicate PasswordCore(s: string) {
    3 <= |s| <= 20 && '\n' !in s
  }

  /** `[\S]+@[\S]+\.[\S]+`: no whitespace at all, an `@` after at least one
      character, and a `.` with at least one character between it and that
      `@` and at least one after it. The classes `[\S]` admit `@` and `.`
      too, so any such pair of positions will do. */
  predicate EmailCore(s: string) {
    && NoWhitespace(s)
    && exists i, j :: 0 < i && i + 1 < j < |s| - 1 && s[i] == '@' && s[j] == '.'
  }

  predicate UserRe(s: string) {
    AnchoredMatch(UsernameCore, s)
  }

  predicate PassRe(s: string) {
    AnchoredMatch(PasswordCore, s)
  }

  predicate EmailRe(s: string) {
    AnchoredMatch(EmailCore, s)
  }

  /** Every address the email pattern accepts splits as `local@domain.tld`
      with three non-empty parts free of whitespace. */
  lemma EmailParts(s: string) returns (local: string, domain: string, tld: string)
    requires EmailCore(s)
    ensures s == local + "@" + domain + "." + tld
    ensures local != "" && domain != "" && tld != ""
    ensures NoWhitespace(local) && NoWhitespace(domain) && NoWhitespace(tld)
  {
    var i, j :| 0 < i && i + 1 < j < |s| - 1 && s[i] == '@' && s[j] == '.';
    local, domain, tld := s[..i], s[i + 1..j], s[j + 1..];
    assert s == s[..i] + [s[i]] + s[i + 1..j] + [s[j]] + s[j + 1..];
  }

  /** Conversely, every such `local@domain.tld` is accepted. */
  lemma EmailFromParts(local: string, domain: string, tld: string)
    requires local != "" && domain != "" && tld != ""
    requires NoWhitespace(local) && NoWhitespace(domain) && NoWhitespace(tld)
    ensures EmailCore(local + "@" + domain + "." + tld)
  {
    var s := local + "@" + domain + "." + tld;
    var i, j := |local|, |local| + 1 + |domain|;
    assert s[i] == '@' && s[j] == '.';
    forall k | 0 <= k < |s|
      ensures !IsWhitespace(s[k])
    {
      if k < i {
        assert s[k] == local[k];
      } else if k == i || k == j {
      } else if k < j {
        assert s[k] == domain[k - i - 1];
      } else {
        assert s[k] == tld[k - j - 1];
      }
    }
  }

  /** A scan deciding the username core: length, then every character. */
  method MatchUsernameCore(s: string) returns (b: bool)
    ensures b == UsernameCore(s)
  {
    if |s| < 3 || |s| > 20 {
      return false;
    }
    var k := 0;
    while k < |s|
      invariant 0 <= k <= |s|
      invariant forall m :: 0 <= m < k ==> IsUsernameChar(s[m])
    {
      if !IsUsernameChar(s[k]) {
        return false;
      }
      k := k + 1;
    }
    return true;
  }

  /** A scan deciding the password core: length, then no newline. */
  method MatchPasswordCore(s: string) returns (b: bool)
    ensures b == PasswordCore(s)
  {
    if |s| < 3 || |s| > 20 {
      return false;
    }
    var k := 0;
    while k < |s|
      invariant 0 <= k <= |s|
      invariant '\n' !in s[..k]
    {
      if s[k] == '\n' {
        return false;
      }
      assert s[..k + 1] == s[..k] + [s[k]];
      k := k + 1;
    }
    assert s[..k] == s;
    return true;
  }

  /** `USER_RE.match(s)`, the final-newline allowance included. */
  method MatchUsername(s: string) returns (b: bool)
    ensures b == UserRe(s)
  {
    b := MatchUsernameCore(s);
    if !b && |s| > 0 && s[|s| - 1] == '\n' {
      b := MatchUsernameCore(s[..|s| - 1]);
    }
  }

  /** `PASS_RE.match(s)`, the final-newline allowance included. */
  method MatchPassword(s: string) returns (b: bool)
    ensures b == PassRe(s)
  {
    b := MatchPasswordCore(s);
    if !b && |s| > 0 && s[|s| - 1] == '\n' {
      b := MatchPasswordCore(s[..|s| - 1]);
    }
  }

  /** A single left-to-right scan deciding the email core: it tracks whether
      whitespace has been seen, the first `@` after position 0, and the last
      `.` before the final position. */
  method MatchEmailCore(s: string) returns (b: bool)
    ensures b == EmailCore(s)
  {
    var clean := true;
    var firstAt := -1;
    var lastDot := -1;
    var k := 0;
    while k < |s|
      invariant 0 <= k <= |s|
      invariant clean <==> forall m :: 0 <= m < k ==> !IsWhitespace(s[m])
      invariant firstAt == -1 ==> forall m :: 0 < m < k ==> s[m] != '@'
      invariant firstAt != -1 ==> 0 < firstAt < k && s[firstAt] == '@'
      invariant firstAt != -1 ==> forall m :: 0 < m < firstAt ==> s[m] != '@'
      invariant lastDot == -1 ==> forall m :: 0 <= m < k && m < |s| - 1 ==> s[m] != '.'
      invariant lastDot != -1 ==> 0 <= lastDot < k && lastDot < |s| - 1 && s[lastDot] == '.'
      invariant lastDot != -1 ==> forall m :: lastDot < m < k && m < |s| - 1 ==> s[m] != '.'
    {
      if IsWhitespace(s[k]) {
        clean := false;
      }
      if firstAt == -1 && 0 < k && s[k] == '@' {
        firstAt := k;
      }
      if k < |s| - 1 && s[k] == '.' {
        lastDot := k;
      }
      k := k + 1;
    }
    b := clean && firstAt != -1 && lastDot != -1 && firstAt + 1 < lastDot;
    if b {
      assert 0 < firstAt && firstAt + 1 < lastDot < |s| - 1 && s[firstAt] == '@' && s[lastDot] == '.';
    }
  }

  /** `EMAIL_RE.match(s)`, the final-newline allowance included. */
  method MatchEmail(s: string) returns (b: bool)
    ensures b == EmailRe(s)
  {
    b := MatchEmailCore(s);
    if !b && |s| > 0 && s[|s| - 1] == '\n' {
      b := MatchEmailCore(s[..|s| - 1]);
    }
  }

  /** The `$` allowance in action: a trailing newline does not stop any of the
      three patterns, although no core language contains a newline. */
  lemma FinalNewlineAccepted()
    ensures UserRe("abc\n") && !UsernameCore("abc\n")
    ensures PassRe("abc\n") && !PasswordCore("abc\n")
    ensures EmailRe("a@b.c\n") && !EmailCore("a@b.c\n")
  {
    assert "abc\n"[..3] == "abc";
    assert "a@b.c\n"[..5] == "a@b.c";
    assert "a@b.c"[1] == '@' && "a@b.c"[3] == '.';
    assert IsWhitespace("a@b.c\n"[5]);
  }

  /** Outside that allowance, an accepted username is 3 to 20 characters of
      the class, and an accepted password never holds a newline before its
      last character. */
  lemma AcceptedShapes(s: string)
    ensures UserRe(s) && (|s| == 0 || s[|s| - 1] != '\n') ==> UsernameCore(s)
    ensures PassRe(s) ==> 3 <= |s| <= 21 && '\n' !in s[..|s| - 1]
  {
  }
}
