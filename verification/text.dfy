/**
 Character and string helpers shared by the blog's validators: Python's `\s`
 character class, deleting whitespace, `str.split` on one separator character
 and `str.join`.
 */
module Text {

  /** Python 3's `\s` in a str pattern (the same table as `str.isspace`):
      TAB..CR, the separators FS..US, SPACE, NEL, NO-BREAK SPACE, OGHAM SPACE
      MARK, EN QUAD..HAIR SPACE, LINE and PARAGRAPH SEPARATOR, NARROW NO-BREAK
      SPACE, MEDIUM MATHEMATICAL SPACE and IDEOGRAPHIC SPACE. */
  predicate IsWhitespace(c: char) {
    var n := c as int;
    || 0x09 <= n <= 0x0D
    || 0x1C <= n <= 0x20
    || n == 0x85 || n == 0xA0 || n == 0x1680
    || 0x2000 <= n <= 0x200A
    || n == 0x2028 || n == 0x2029 || n == 0x202F || n == 0x205F || n == 0x3000
  }

  predicate NoWhitespace(s: string) {
    forall i :: 0 <= i < |s| ==> !IsWhitespace(s[i])
  }

  /* Number of occurrences of `c` in `s`. */
  function Count(c: char, s: string): (n: nat)
    ensures n <= |s|
    ensures n == 0 <==> c !in s
  {
    if |s| == 0 then 0
    else
      assert c in s <==> s[0] == c || c in s[1..];
      (if s[0] == c then 1 else 0) + Count(c, s[1..])
  }

  lemma {:induction false} CountConcat(c: char, a: string, b: string)
    ensures Count(c, a + b) == Count(c, a) + Count(c, b)
  {
    if |a| == 0 {
      assert a + b == b;
    } else {
      assert (a + b)[1..] == a[1..] + b;
      CountConcat(c, a[1..], b);
    }
  }

  lemma {:induction false} CountUniform(c: char, s: string)
    requires forall i :: 0 <= i < |s| ==> s[i] == c
    ensures Count(c, s) == |s|
  {
    if |s| > 0 {
      CountUniform(c, s[1..]);
    }
  }

  /** `re.sub(r'\s', '', s)`: the string with every whitespace character
      deleted, wherever it stands. */
  function RemoveWhitespace(s: string): (r: string)
    ensures NoWhitespace(r)
    ensures |r| <= |s|
    ensures forall c :: c in r ==> c in s
  {
    if |s| == 0 then ""
    else if IsWhitespace(s[0]) then RemoveWhitespace(s[1..])
    else [s[0]] + RemoveWhitespace(s[1..])
  }

  /** Deleting whitespace works piecewise: it commutes with concatenation. */
  lemma {:induction false} RemoveWhitespaceConcat(a: string, b: string)
    ensures RemoveWhitespace(a + b) == RemoveWhitespace(a) + RemoveWhitespace(b)
  {
    if |a| == 0 {
      assert a + b == b;
    } else {
      assert (a + b)[0] == a[0];
      assert (a + b)[1..] == a[1..] + b;
      RemoveWhitespaceConcat(a[1..], b);
    }
  }

  /** A string without whitespace is left as it is. */
  lemma {:induction false} RemoveWhitespaceNoop(s: string)
    requires NoWhitespace(s)
    ensures RemoveWhitespace(s) == s
  {
    if |s| > 0 {
      assert NoWhitespace(s[1..]);
      RemoveWhitespaceNoop(s[1..]);
      assert s == [s[0]] + s[1..];
    }
  }

  /** Every non-whitespace character survives, as often as it occurred. */
  lemma {:induction false} RemoveWhitespaceKeepsOthers(c: char, s: string)
    requires !IsWhitespace(c)
    ensures Count(c, RemoveWhitespace(s)) == Count(c, s)
  {
    if |s| > 0 {
      RemoveWhitespaceKeepsOthers(c, s[1..]);
      if !IsWhitespace(s[0]) {
        CountConcat(c, [s[0]], RemoveWhitespace(s[1..]));
      }
    }
  }

  /** Python's `s.split(sep)`: the maximal runs between separators, so one
      more piece than there are separators, and `""` gives `[""]`. */
  function Split(s: string, sep: char): (r: seq<string>)
    ensures |r| == Count(sep, s) + 1
    ensures forall i :: 0 <= i < |r| ==> sep !in r[i]
    ensures forall i, c :: 0 <= i < |r| && c in r[i] ==> c in s
  {
    if |s| == 0 then [""]
    else
      var rest := Split(s[1..], sep);
      assert forall c :: c in s[1..] ==> c in s;
      if s[0] == sep then [""] + rest
      else [[s[0]] + rest[0]] + rest[1..]
  }

  /** Python's `sep.join(ps)`. */
  function Join(ps: seq<string>, sep: char): (r: string)
    ensures forall c :: c in r ==> c == sep || exists i :: 0 <= i < |ps| && c in ps[i]
  {
    if |ps| == 0 then ""
    else if |ps| == 1 then ps[0]
    else ps[0] + [sep] + Join(ps[1..], sep)
  }

  /** Joining the pieces of a split gives back the original string. */
  lemma {:induction false} JoinSplit(s: string, sep: char)
    ensures Join(Split(s, sep), sep) == s
  {
    if |s| > 0 {
      var rest := Split(s[1..], sep);
      JoinSplit(s[1..], sep);
      if s[0] == sep {
        assert ([""] + rest)[1..] == rest;
        assert s == [s[0]] + s[1..];
      } else {
        var r := [[s[0]] + rest[0]] + rest[1..];
        assert r[1..] == rest[1..];
        if |rest| > 1 {
          assert Join(rest, sep) == rest[0] + [sep] + Join(rest[1..], sep);
        }
        assert s == [s[0]] + s[1..];
      }
    }
  }

  /** Splitting a string that holds no separator gives that one piece. */
  lemma {:induction false} SplitWithoutSep(s: string, sep: char)
    requires sep !in s
    ensures Split(s, sep) == [s]
  {
    if |s| > 0 {
      SplitWithoutSep(s[1..], sep);
      assert s == [s[0]] + s[1..];
    }
  }

  /** A leading separator-free piece followed by a separator splits off as
      the first piece. */
  lemma {:induction false} SplitFirstPiece(p: string, sep: char, x: string)
    requires sep !in p
    ensures Split(p + [sep] + x, sep) == [p] + Split(x, sep)
  {
    var s := p + [sep] + x;
    if |p| == 0 {
      assert s[0] == sep && s[1..] == x;
    } else {
      assert s[0] == p[0];
      assert s[1..] == p[1..] + [sep] + x;
      SplitFirstPiece(p[1..], sep, x);
      assert [p[0]] + p[1..] == p;
    }
  }

  /** Splitting a join of separator-free pieces gives back the pieces. */
  lemma {:induction false} SplitJoin(ps: seq<string>, sep: char)
    requires |ps| > 0
    requires forall i :: 0 <= i < |ps| ==> sep !in ps[i]
    ensures Split(Join(ps, sep), sep) == ps
  {
    if |ps| == 1 {
      SplitWithoutSep(ps[0], sep);
    } else {
      SplitJoin(ps[1..], sep);
      SplitFirstPiece(ps[0], sep, Join(ps[1..], sep));
      assert [ps[0]] + ps[1..] == ps;
    }
  }
}
