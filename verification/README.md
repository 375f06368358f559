# Blog input validation and sanitising, in Dafny

This project models the pure parts of the blog controller
`homeworks/hw4/hw4_3/blog.py`: the checks and rewrites that signup fields,
post bodies, tags and comments go through before they reach the DAOs. Each
part becomes a pure function or predicate over strings (`seq<char>`). The
patterns, tags, escaping, body formatting and signup validation are each
stated against an independent description: an inverse, a reference
definition or an invariant. The comment guard is a plain three-way decision,
and its contract states each outcome and when it is taken.

- **Signup patterns** (`patterns.dfy`, module `Patterns`). `USER_RE`,
  `PASS_RE` and `EMAIL_RE` are written as predicates over characters, not
  through a regex engine. They are used with `re.match` and anchored by `^…$`.
  In Python, `$` matches at the end of the input and also just before a
  newline that ends it. The model REPRODUCES this: each pattern accepts its
  core language plus any word of it followed by one `\n`
  (`AnchoredMatch`). So `"abc\n"` is an acceptable username and password.
  The `.` of `PASS_RE` does not match a newline. A password is therefore
  3–20 characters without `\n` (apart from that final one), not "any
  characters". The email pattern becomes "no whitespace, an `@` after
  position 0, and a `.` at least two places after it and before the last
  character". A scanning method decides each pattern. A lemma pair shows
  that the email language is exactly the `local@domain.tld` shape.
- **Whitespace** (`text.dfy`, module `Text`). Python 3's `\s` is Unicode-aware.
  `IsWhitespace` fixes it to the table CPython uses for `str.isspace`:
  U+0009–U+000D, U+001C–U+0020, U+0085, U+00A0, U+1680, U+2000–U+200A,
  U+2028, U+2029, U+202F, U+205F and U+3000. The same module holds
  `str.split` on one character and `str.join`. Each is proved to be the
  inverse of the other.
- **Tags** (`tags.dfy`, module `Tags`). `extract_tags` deletes every
  whitespace character, splits on `,`, drops empty pieces and deduplicates.
  Its result is modelled as a set, because the tuple's order comes from
  Python set iteration. `ExtractTagsTuple` gives one possible tuple: every
  tag once, in an order left open.
- **Body formatting** (`html.dfy`, module `Html`). `html.escape(s,
  quote=True)` is modelled per character. It is proved equal to the standard
  library's five `str.replace` calls in order (`&` first). After escaping,
  each `\r\n` or lone `\n` is replaced by `<p>`, scanning left to right as
  `re.sub` does. `DecodeBody` reads a stored body back as text. The round
  trip returns the input with CR LF normalised to LF.
- **Signup validation** (`signup.dfy`, module `Signup`). The errors record is
  the Python dict (`map<string, string>`), so the lemmas can state that
  other keys stay untouched. The validator is ordered and short-circuiting.
  The lemmas prove that only the first failing check is ever reported.
- **Comment guard** (`comments.dfy`, module `Comments`). This is the decision
  in `post_new_comment`: post not found, form error with the entered values
  echoed back, or insert.

## Model

| member | source | states |
|---|---|---|
| Patterns.MatchUsernameCore | homeworks/hw4/hw4_3/blog.py:40 | a scan returns true exactly when the input is 3–20 characters, all from `[a-zA-Z0-9_-]` |
| Patterns.MatchPasswordCore | homeworks/hw4/hw4_3/blog.py:41 | a scan returns true exactly when the input is 3–20 characters, none of them a newline |
| Patterns.MatchUsername | homeworks/hw4/hw4_3/blog.py:341 | `USER_RE.match(username)` is decided exactly, including the allowance for one final newline |
| Patterns.MatchPassword | homeworks/hw4/hw4_3/blog.py:345 | `PASS_RE.match(password)` is decided exactly, including the allowance for one final newline |
| Patterns.MatchEmailCore | homeworks/hw4/hw4_3/blog.py:42 | a single scan returns true exactly when the input is in the core language of `[\S]+@[\S]+\.[\S]+` |
| Patterns.MatchEmail | homeworks/hw4/hw4_3/blog.py:351-352 | `EMAIL_RE.match(email)` is decided exactly, including the allowance for one final newline |
| Patterns.EmailParts | homeworks/hw4/hw4_3/blog.py:42 | every accepted core address is `local@domain.tld` with three non-empty parts free of whitespace |
| Patterns.EmailFromParts | homeworks/hw4/hw4_3/blog.py:42 | every `local@domain.tld` with three non-empty parts free of whitespace is accepted (converse of EmailParts) |
| Patterns.FinalNewlineAccepted | homeworks/hw4/hw4_3/blog.py:40-42 | all three patterns accept an input ending in `\n`, although no core language contains a newline |
| Patterns.AcceptedShapes | homeworks/hw4/hw4_3/blog.py:40-41 | a username accepted without a final newline is 3–20 class characters; an accepted password is 3–21 characters with no newline before its last one |
| Text.RemoveWhitespace | homeworks/hw4/hw4_3/blog.py:320-322 | the result holds no whitespace character, is no longer than the input and takes its characters from it |
| Text.RemoveWhitespaceConcat | homeworks/hw4/hw4_3/blog.py:322 | whitespace deletion commutes with concatenation |
| Text.RemoveWhitespaceNoop | homeworks/hw4/hw4_3/blog.py:322 | a string without whitespace comes out unchanged |
| Text.RemoveWhitespaceKeepsOthers | homeworks/hw4/hw4_3/blog.py:322 | every non-whitespace character keeps its number of occurrences |
| Text.Split | homeworks/hw4/hw4_3/blog.py:323 | there is one more piece than there are separators, no piece holds the separator, and every piece's characters come from the input |
| Text.JoinSplit | homeworks/hw4/hw4_3/blog.py:323 | joining the pieces of a split with the separator gives back the input |
| Text.SplitJoin | homeworks/hw4/hw4_3/blog.py:323 | splitting a join of separator-free pieces gives back those pieces, so the split is the only such decomposition |
| Tags.ExtractTags | homeworks/hw4/hw4_3/blog.py:314-327 | every extracted tag is non-empty and holds no whitespace and no comma |
| Tags.ExtractTagsTuple | homeworks/hw4/hw4_3/blog.py:326-327 | the returned tuple lists exactly the extracted tags, each once |
| Tags.ExtractTagsArePieces | homeworks/hw4/hw4_3/blog.py:320-326 | the tags are exactly the non-empty pieces of any comma-free decomposition of the input with whitespace deleted |
| Tags.NoTagsFromSeparators | homeworks/hw4/hw4_3/blog.py:320-326 | input made only of whitespace and commas yields no tag |
| Tags.ExtractTagsOfJoin | homeworks/hw4/hw4_3/blog.py:320-327 | well-formed tags joined by commas are extracted back as exactly their set |
| Tags.ExtractTagsIdempotent | homeworks/hw4/hw4_3/blog.py:320-327 | joining the extracted tags in any order with commas and extracting again gives the same set |
| Tags.ExtractTagsExample | homeworks/hw4/hw4_3/blog.py:320-327 | `"a, b ,a,"` yields `{"a", "b"}`: duplicates collapse and empty pieces vanish |
| Tags.EscapedTagsHoldNoMarkup | homeworks/hw4/hw4_3/blog.py:189-190 | tags extracted from the escaped field hold no `<`, `>`, `"` or `'` |
| Html.HtmlEscape | homeworks/hw4/hw4_3/blog.py:193 | escaped text holds no `<`, `>`, `"` or `'`, and its other characters come from the input or an entity |
| Html.EscapeIsStdlib | homeworks/hw4/hw4_3/blog.py:193 | the per-character escape equals `html.escape`'s five replacements in order |
| Html.EscapeRoundTrip | homeworks/hw4/hw4_3/blog.py:193 | decoding escaped text gives the original text back |
| Html.SubNewlines | homeworks/hw4/hw4_3/blog.py:196-197 | the substitution leaves no `\n` and introduces only the characters of `<p>` |
| Html.FormatBody | homeworks/hw4/hw4_3/blog.py:193-197 | a stored body holds no `\n`, `"` or `'` |
| Html.FormatBodyStep | homeworks/hw4/hw4_3/blog.py:193-197 | escape-then-substitute acts per input character: CR LF or a lone LF becomes one `<p>`, anything else its escape |
| Html.FormatBodyOnlyParagraphTags | homeworks/hw4/hw4_3/blog.py:193-197 | every `<` in a stored body opens an inserted `<p>` and every `>` closes one |
| Html.FormatBodyParagraphCount | homeworks/hw4/hw4_3/blog.py:196-197 | a stored body has exactly one `<` (one `<p>`) per LF of the input |
| Html.FormatBodyRoundTrip | homeworks/hw4/hw4_3/blog.py:193-197 | decoding a stored body gives the input back with CR LF normalised to LF |
| Signup.InitialErrors | homeworks/hw4/hw4_3/blog.py:282 | the prepared dict holds only `username` and `email`, each the `html.escape` of the entered value; neither holds `<`, `>`, `"` or `'`, and both decode back to the entered values |
| Signup.ErrorKeysOfChecks | homeworks/hw4/hw4_3/blog.py:336-339 | the four keys the validator resets are exactly the error keys of the four checks |
| Signup.ClearErrors | homeworks/hw4/hw4_3/blog.py:336-339 | the four error entries are present and empty, and every other entry is unchanged |
| Signup.Report | homeworks/hw4/hw4_3/blog.py:341-354 | a failing check's message is written to its own entry only; the other three error entries stay empty |
| Signup.ValidateSignup | homeworks/hw4/hw4_3/blog.py:330-355 | the result is true iff the username and password match their patterns, the verify field equals the password, and the email is empty or matches; when true, all four error entries are empty; when false, exactly the first failing check's entry holds its message; no key outside the four changes |
| Signup.OnlyFirstFailureReported | homeworks/hw4/hw4_3/blog.py:341-354 | whenever a check is the first failing one, it alone is reported, whatever else is wrong |
| Signup.ShortUsernameHidesBadEmail | homeworks/hw4/hw4_3/blog.py:341-354 | `("ab", "validpass", "validpass", "not-an-email")` reports only the username error, though the email is invalid |
| Signup.RejectedUsernameKeepsFormValues | homeworks/hw4/hw4_3/blog.py:282-343 | after a rejected username, the handler's dict holds the username message, three empty error entries, and the `html.escape` of the username and email as prepared, which decode back to the entered values |
| Signup.FinalNewlineSignup | homeworks/hw4/hw4_3/blog.py:340-355 | a username and a password that both end in `\n` pass validation |
| Comments.NewComment | homeworks/hw4/hw4_3/blog.py:116-138 | a missing post goes to the not-found page; a comment is inserted iff the post exists and both name and body are non-empty, and it is stored as entered; otherwise the form comes back with the entered values and the fixed message |

## Left out

- Routing, cookies, redirects performed by bottle, template rendering and the `print` calls (blog.py:45-310 outside the parts above) are HTTP plumbing. Redirect targets appear in the model only as strings.
- `userDAO`, `sessionDAO` and `blogPostDAO` are not part of this model. These cover password checks, session tokens, permalinks, post ordering and comment appending. The MongoDB connection and server start (blog.py:358-368) are left out too. `NewComment` decides whether `add_comment` is called and leaves the call itself out. The post is a type parameter the guard only passes on.
- `post_newpost`'s empty title/body check and its re-rendered form (blog.py:179-186) are request handling around the formatting. They are not modelled.
- A form field that is absent makes bottle's `forms.get` return `None`. The model takes every field as a string.
- The `\s` table is fixed as above rather than derived from a Unicode database. A Python build with a different Unicode version could differ on rare characters.
- `html.escape` belongs to Python's standard library, which is not part of this model. `HtmlEscape` and `StdlibEscape` follow its documented behaviour.
- `Tags.ExtractTagsTuple`: the order of the tuple is Python's set iteration order. The method leaves it open and states only contents and distinctness.
