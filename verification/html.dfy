/**
 HTML escaping (`html.escape(s, quote=True)` of Python's standard library) and
 the new-post body formatting of blog.py: escape the text, then turn each
 line break (`\r\n` or a lone `\n`) into `<p>`.
 */
module Html {
  import opened Text

  /** The escape of one character. The ampersand is escaped too, so every
      `&` of the output starts one of the five entities. */
  function EscapeChar(c: char): string {
    if c == '&' then "&amp;"
    else if c == '<' then "&lt;"
    else if c == '>' then "&gt;"
    else if c == '"' then "&quot;"
    else if c == '\'' then "&#x27;"
    else [c]
  }

  /** The characters the five entities are spelled with. */
  const EntityChars: set<char> :=
    {'&', 'a', 'm', 'p', ';', 'l', 't', 'g', 'q', 'u', 'o', '#', 'x', '2', '7'}

  /** An escaped character is either the character itself or spelled with
      entity characters. */
  lemma EscapeCharChars(c: char)
    ensures forall x :: x in EscapeChar(c) && x !in EntityChars ==> x == c
  {
  }

  /** `html.escape(s, quote=True)`, one character at a time. */
  function HtmlEscape(s: string): (r: string)
    ensures '<' !in r && '>' !in r && '"' !in r && '\'' !in r
    ensures forall c :: c in r && c !in EntityChars ==> c in s
    ensures |r| >= |s|
  {
    if |s| == 0 then ""
    else
      assert forall c :: c in s[1..] ==> c in s;
      EscapeCharChars(s[0]);
      EscapeChar(s[0]) + HtmlEscape(s[1..])
  }

  /** `s.replace(c, rep)` for a one-character `c`. */
  function ReplaceAll(s: string, c: char, rep: string): string {
    if |s| == 0 then ""
    else (if s[0] == c then rep else [s[0]]) + ReplaceAll(s[1..], c, rep)
  }

  /** `html.escape(s, quote=True)` as the standard library writes it: five
      replacements in turn, the ampersand first. */
  function StdlibEscape(s: string): string {
    var s1 := ReplaceAll(s, '&', "&amp;");
    var s2 := ReplaceAll(s1, '<', "&lt;");
    var s3 := ReplaceAll(s2, '>', "&gt;");
    var s4 := ReplaceAll(s3, '"', "&quot;");
    ReplaceAll(s4, '\'', "&#x27;")
  }

  lemma {:induction false} ReplaceAllConcat(a: string, b: string, c: char, rep: string)
    ensures ReplaceAll(a + b, c, rep) == ReplaceAll(a, c, rep) + ReplaceAll(b, c, rep)
  {
    if |a| == 0 {
      assert a + b == b;
    } else {
      assert (a + b)[0] == a[0];
      assert (a + b)[1..] == a[1..] + b;
      ReplaceAllConcat(a[1..], b, c, rep);
    }
  }

  lemma {:induction false} ReplaceAllAbsent(s: string, c: char, rep: string)
    requires c !in s
    ensures ReplaceAll(s, c, rep) == s
  {
    if |s| > 0 {
      ReplaceAllAbsent(s[1..], c, rep);
      assert s == [s[0]] + s[1..];
    }
  }

  lemma {:induction false} StdlibEscapeConcat(a: string, b: string)
    ensures StdlibEscape(a + b) == StdlibEscape(a) + StdlibEscape(b)
  {
    var a1, b1 := ReplaceAll(a, '&', "&amp;"), ReplaceAll(b, '&', "&amp;");
    ReplaceAllConcat(a, b, '&', "&amp;");
    var a2, b2 := ReplaceAll(a1, '<', "&lt;"), ReplaceAll(b1, '<', "&lt;");
    ReplaceAllConcat(a1, b1, '<', "&lt;");
    var a3, b3 := ReplaceAll(a2, '>', "&gt;"), ReplaceAll(b2, '>', "&gt;");
    ReplaceAllConcat(a2, b2, '>', "&gt;");
    var a4, b4 := ReplaceAll(a3, '"', "&quot;"), ReplaceAll(b3, '"', "&quot;");
    ReplaceAllConcat(a3, b3, '"', "&quot;");
    ReplaceAllConcat(a4, b4, '\'', "&#x27;");
  }

  lemma ReplaceAllOne(x: char, c: char, rep: string)
    ensures ReplaceAll([x], c, rep) == if x == c then rep else [x]
  {
    assert [x][1..] == "";
    assert rep + "" == rep;
    assert [x] + "" == [x];
  }

  /** The five sequential replacements act on one character exactly as the
      per-character escape does. */
  lemma StdlibEscapeChar(c: char)
    ensures StdlibEscape([c]) == EscapeChar(c)
  {
    if c == '&' {
      StdlibEscapeAmp();
    } else if c == '<' {
      StdlibEscapeLt();
    } else if c == '>' {
      StdlibEscapeGt();
    } else if c == '"' {
      StdlibEscapeQuot();
    } else if c == '\'' {
      StdlibEscapeApos();
    } else {
      StdlibEscapePlain(c);
    }
  }

  lemma StdlibEscapeAmp()
    ensures StdlibEscape("&") == "&amp;"
  {
    var e := "&amp;";
    ReplaceAllOne('&', '&', e);
    assert '<' !in e && '>' !in e && '"' !in e && '\'' !in e;
    ReplaceAllAbsent(e, '<', "&lt;");
    ReplaceAllAbsent(e, '>', "&gt;");
    ReplaceAllAbsent(e, '"', "&quot;");
    ReplaceAllAbsent(e, '\'', "&#x27;");
  }

  lemma StdlibEscapeLt()
    ensures StdlibEscape("<") == "&lt;"
  {
    ReplaceAllAbsent("<", '&', "&amp;");
    ReplaceAllOne('<', '<', "&lt;");
    var e := "&lt;";
    ReplaceAllAbsent(e, '>', "&gt;");
    ReplaceAllAbsent(e, '"', "&quot;");
    ReplaceAllAbsent(e, '\'', "&#x27;");
  }

  lemma StdlibEscapeGt()
    ensures StdlibEscape(">") == "&gt;"
  {
    ReplaceAllAbsent(">", '&', "&amp;");
    ReplaceAllAbsent(">", '<', "&lt;");
    ReplaceAllOne('>', '>', "&gt;");
    var e := "&gt;";
    ReplaceAllAbsent(e, '"', "&quot;");
    ReplaceAllAbsent(e, '\'', "&#x27;");
  }

  lemma StdlibEscapeQuot()
    ensures StdlibEscape("\"") == "&quot;"
  {
    ReplaceAllAbsent("\"", '&', "&amp;");
    ReplaceAllAbsent("\"", '<', "&lt;");
    ReplaceAllAbsent("\"", '>', "&gt;");
    ReplaceAllOne('"', '"', "&quot;");
    ReplaceAllAbsent("&quot;", '\'', "&#x27;");
  }

  lemma StdlibEscapeApos()
    ensures StdlibEscape("'") == "&#x27;"
  {
    ReplaceAllAbsent("'", '&', "&amp;");
    ReplaceAllAbsent("'", '<', "&lt;");
    ReplaceAllAbsent("'", '>', "&gt;");
    ReplaceAllAbsent("'", '"', "&quot;");
    ReplaceAllOne('\'', '\'', "&#x27;");
  }

  lemma StdlibEscapePlain(c: char)
    requires c !in "&<>\"'"
    ensures StdlibEscape([c]) == [c]
  {
    ReplaceAllAbsent([c], '&', "&amp;");
    ReplaceAllAbsent([c], '<', "&lt;");
    ReplaceAllAbsent([c], '>', "&gt;");
    ReplaceAllAbsent([c], '"', "&quot;");
    ReplaceAllAbsent([c], '\'', "&#x27;");
  }

  /** The per-character escape is the standard library's `html.escape`. */
  lemma {:induction false} EscapeIsStdlib(s: string)
    ensures HtmlEscape(s) == StdlibEscape(s)
  {
    if |s| > 0 {
      EscapeIsStdlib(s[1..]);
      StdlibEscapeChar(s[0]);
      StdlibEscapeConcat([s[0]], s[1..]);
      assert [s[0]] + s[1..] == s;
    }
  }

  predicate HasPrefix(s: string, p: string) {
    |p| <= |s| && s[..|p|] == p
  }

  /** Reads stored body HTML back as text: `<p>` is a line break and the five
      entities stand for their characters; everything else is itself. */
  function DecodeBody(h: string): string
    decreases |h|
  {
    if |h| == 0 then ""
    else if HasPrefix(h, "<p>") then "\n" + DecodeBody(h[3..])
    else if HasPrefix(h, "&amp;") then "&" + DecodeBody(h[5..])
    else if HasPrefix(h, "&lt;") then "<" + DecodeBody(h[4..])
    else if HasPrefix(h, "&gt;") then ">" + DecodeBody(h[4..])
    else if HasPrefix(h, "&quot;") then "\"" + DecodeBody(h[6..])
    else if HasPrefix(h, "&#x27;") then "'" + DecodeBody(h[6..])
    else [h[0]] + DecodeBody(h[1..])
  }

  lemma PrefixDiffers(h: string, p: string, k: nat)
    requires k < |p| && k < |h| && h[k] != p[k]
    ensures !HasPrefix(h, p)
  {
    if |p| <= |h| {
      assert h[..|p|][k] == h[k];
    }
  }

  lemma PrefixOfConcat(p: string, x: string)
    ensures HasPrefix(p + x, p) && (p + x)[|p|..] == x
  {
    assert (p + x)[..|p|] == p;
  }

  /** Decoding the escape of one character gives that character back,
      whatever follows it. */
  lemma DecodeEscapeChar(c: char, x: string)
    ensures DecodeBody(EscapeChar(c) + x) == [c] + DecodeBody(x)
  {
    var e := EscapeChar(c);
    var h := e + x;
    PrefixOfConcat(e, x);
    if c == '&' {
      PrefixDiffers(h, "<p>", 0);
    } else if c == '<' {
      PrefixDiffers(h, "<p>", 0);
      PrefixDiffers(h, "&amp;", 1);
    } else if c == '>' {
      PrefixDiffers(h, "<p>", 0);
      PrefixDiffers(h, "&amp;", 1);
      PrefixDiffers(h, "&lt;", 1);
    } else if c == '"' {
      PrefixDiffers(h, "<p>", 0);
      PrefixDiffers(h, "&amp;", 1);
      PrefixDiffers(h, "&lt;", 1);
      PrefixDiffers(h, "&gt;", 1);
    } else if c == '\'' {
      PrefixDiffers(h, "<p>", 0);
      PrefixDiffers(h, "&amp;", 1);
      PrefixDiffers(h, "&lt;", 1);
      PrefixDiffers(h, "&gt;", 1);
      PrefixDiffers(h, "&quot;", 1);
    } else {
      assert h[0] == c;
      PrefixDiffers(h, "<p>", 0);
      PrefixDiffers(h, "&amp;", 0);
      PrefixDiffers(h, "&lt;", 0);
      PrefixDiffers(h, "&gt;", 0);
      PrefixDiffers(h, "&quot;", 0);
      PrefixDiffers(h, "&#x27;", 0);
    }
  }

  /** Escaping loses nothing: decoding gives the original text back. */
  lemma {:induction false} EscapeRoundTrip(s: string)
    ensures DecodeBody(HtmlEscape(s)) == s
  {
    if |s| > 0 {
      EscapeRoundTrip(s[1..]);
      DecodeEscapeChar(s[0], HtmlEscape(s[1..]));
      assert [s[0]] + s[1..] == s;
    }
  }

  /** `re.sub('\r?\n', '<p>', s)`, scanning left to right: a CR directly
      before an LF is consumed with it; any other CR stays. */
  function SubNewlines(s: string): (r: string)
    ensures '\n' !in r
    ensures forall c :: c in r ==> c in s || c in "<p>"
  {
    if |s| == 0 then ""
    else
      assert forall c :: c in s[1..] ==> c in s;
      assert |s| > 1 ==> forall c :: c in s[2..] ==> c in s[1..];
      if s[0] == '\n' then "<p>" + SubNewlines(s[1..])
      else if s[0] == '\r' && |s| > 1 && s[1] == '\n' then "<p>" + SubNewlines(s[2..])
      else [s[0]] + SubNewlines(s[1..])
  }

  /** The stored body of a new post: escaped, then paragraph-broken. */
  function FormatBody(post: string): (r: string)
    ensures '\n' !in r && '"' !in r && '\'' !in r
  {
    SubNewlines(HtmlEscape(post))
  }

  lemma {:induction false} SubNewlinesCopies(u: string, x: string)
    requires '\n' !in u && '\r' !in u
    ensures SubNewlines(u + x) == u + SubNewlines(x)
  {
    if |u| > 0 {
      var h := u + x;
      assert h[0] == u[0];
      assert h[1..] == u[1..] + x;
      SubNewlinesCopies(u[1..], x);
      assert [u[0]] + u[1..] == u;
    } else {
      assert u + x == x;
    }
  }

  lemma SubNewlinesAfterCr(h: string)
    requires |h| > 0 && h[0] == '\r'
    ensures |h| > 1 && h[1] == '\n' ==> SubNewlines(h) == "<p>" + SubNewlines(h[2..])
    ensures !(|h| > 1 && h[1] == '\n') ==> SubNewlines(h) == "\r" + SubNewlines(h[1..])
  {
  }

  /** One step of the formatter on the raw text: a line break (CR LF or a
      lone LF) becomes `<p>`, any other character is escaped. */
  lemma FormatBodyStep(s: string)
    requires |s| > 0
    ensures FormatBody(s) ==
      if s[0] == '\n' then "<p>" + FormatBody(s[1..])
      else if s[0] == '\r' && |s| > 1 && s[1] == '\n' then "<p>" + FormatBody(s[2..])
      else EscapeChar(s[0]) + FormatBody(s[1..])
  {
    var t := HtmlEscape(s[1..]);
    var h := EscapeChar(s[0]) + t;
    assert HtmlEscape(s) == h;
    if s[0] == '\n' {
      assert h[0] == '\n' && h[1..] == t;
    } else if s[0] == '\r' {
      assert h[0] == '\r' && h[1..] == t;
      SubNewlinesAfterCr(h);
      if |s| > 1 {
        var t2 := HtmlEscape(s[2..]);
        assert s[1..][1..] == s[2..];
        assert t == EscapeChar(s[1]) + t2;
        if s[1] == '\n' {
          assert h[2..] == t2;
        } else {
          assert h[1] == EscapeChar(s[1])[0] != '\n';
        }
      } else {
        assert |h| == 1;
      }
    } else {
      SubNewlinesCopies(EscapeChar(s[0]), t);
    }
  }

  /** Markup characters in a stored body: every `<` opens a `<p>` and every
      `>` closes one. */
  predicate AnglesOnlyInParagraphs(r: string) {
    && (forall i :: 0 <= i < |r| && r[i] == '<' ==> i + 3 <= |r| && r[i..i + 3] == "<p>")
    && (forall i :: 0 <= i < |r| && r[i] == '>' ==> 2 <= i && r[i - 2..i + 1] == "<p>")
  }

  lemma AnglesConcat(a: string, b: string)
    requires AnglesOnlyInParagraphs(a) && AnglesOnlyInParagraphs(b)
    ensures AnglesOnlyInParagraphs(a + b)
  {
    var r := a + b;
    forall i | 0 <= i < |r| && r[i] == '<'
      ensures i + 3 <= |r| && r[i..i + 3] == "<p>"
    {
      if i < |a| {
        assert a[i] == '<';
        assert r[i..i + 3] == a[i..i + 3];
      } else {
        assert b[i - |a|] == '<';
        assert r[i..i + 3] == b[i - |a|..i - |a| + 3];
      }
    }
    forall i | 0 <= i < |r| && r[i] == '>'
      ensures 2 <= i && r[i - 2..i + 1] == "<p>"
    {
      if i < |a| {
        assert a[i] == '>';
        assert r[i - 2..i + 1] == a[i - 2..i + 1];
      } else {
        assert b[i - |a|] == '>';
        assert r[i - 2..i + 1] == b[i - |a| - 2..i - |a| + 1];
      }
    }
  }

  /** The only markup a stored body carries is the inserted `<p>`. */
  lemma {:induction false} FormatBodyOnlyParagraphTags(post: string)
    ensures AnglesOnlyInParagraphs(FormatBody(post))
  {
    if |post| > 0 {
      FormatBodyStep(post);
      var head: string;
      var tail: string;
      if post[0] == '\n' {
        head, tail := "<p>", post[1..];
      } else if post[0] == '\r' && |post| > 1 && post[1] == '\n' {
        head, tail := "<p>", post[2..];
      } else {
        head, tail := EscapeChar(post[0]), post[1..];
        assert '<' !in head && '>' !in head;
      }
      assert AnglesOnlyInParagraphs(head);
      FormatBodyOnlyParagraphTags(tail);
      AnglesConcat(head, FormatBody(tail));
    }
  }

  /** Each line break of the text — a CR LF pair or a lone LF — becomes
      exactly one `<p>`: the body has one `<` per LF of the input. */
  lemma {:induction false} FormatBodyParagraphCount(post: string)
    ensures Count('<', FormatBody(post)) == Count('\n', post)
  {
    if |post| > 0 {
      FormatBodyStep(post);
      if post[0] == '\n' {
        FormatBodyParagraphCount(post[1..]);
        CountConcat('<', "<p>", FormatBody(post[1..]));
      } else if post[0] == '\r' && |post| > 1 && post[1] == '\n' {
        FormatBodyParagraphCount(post[2..]);
        CountConcat('<', "<p>", FormatBody(post[2..]));
        assert post[1..][1..] == post[2..];
      } else {
        FormatBodyParagraphCount(post[1..]);
        CountConcat('<', EscapeChar(post[0]), FormatBody(post[1..]));
      }
    }
  }

  /** The text with every CR LF pair turned into a single LF. */
  function NormalizeNewlines(s: string): (r: string)
    ensures Count('\n', r) == Count('\n', s)
  {
    if |s| == 0 then ""
    else if |s| > 1 && s[0] == '\r' && s[1] == '\n' then
      assert s[1..][1..] == s[2..];
      "\n" + NormalizeNewlines(s[2..])
    else [s[0]] + NormalizeNewlines(s[1..])
  }

  /** Formatting loses only the difference between CR LF and LF: decoding a
      stored body gives the text back with line endings normalised. */
  lemma {:induction false} FormatBodyRoundTrip(post: string)
    ensures DecodeBody(FormatBody(post)) == NormalizeNewlines(post)
  {
    if |post| > 0 {
      FormatBodyStep(post);
      if post[0] == '\n' {
        FormatBodyRoundTrip(post[1..]);
        DecodeParagraph(FormatBody(post[1..]));
      } else if post[0] == '\r' && |post| > 1 && post[1] == '\n' {
        FormatBodyRoundTrip(post[2..]);
        DecodeParagraph(FormatBody(post[2..]));
      } else {
        FormatBodyRoundTrip(post[1..]);
        DecodeEscapeChar(post[0], FormatBody(post[1..]));
      }
    }
  }

  lemma DecodeParagraph(x: string)
    ensures DecodeBody("<p>" + x) == "\n" + DecodeBody(x)
  {
    PrefixOfConcat("<p>", x);
  }
}
