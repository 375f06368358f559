/**
 Tag extraction for a new post (`extract_tags` in blog.py): every whitespace
 character is deleted, the rest is split on commas, empty pieces are dropped
 and duplicates collapse.
 */
module Tags {
  import opened Text
  import Html

  /** A well-formed tag: what `extract_tags` can produce. */
  predicate IsTag(t: string) {
    t != "" && NoWhitespace(t) && ',' !in t
  }

  /** The tags of a form field, as a set: the iteration order of the tuple the
      source returns comes from Python's set and carries no meaning. */
  function ExtractTags(tags: string): (r: set<string>)
    ensures forall t :: t in r ==> IsTag(t)
  {
    var nowhite := RemoveWhitespace(tags);
    var pieces := Split(nowhite, ',');
    assert forall t :: t in pieces ==> NoWhitespace(t) by {
      forall t | t in pieces
        ensures NoWhitespace(t)
      {
        var j :| 0 <= j < |pieces| && pieces[j] == t;
        forall i | 0 <= i < |t|
          ensures !IsWhitespace(t[i])
        {
          assert t[i] in pieces[j];
          assert t[i] in nowhite;
          var k :| 0 <= k < |nowhite| && nowhite[k] == t[i];
        }
      }
    }
    set t | t in pieces && t != ""
  }

  /** The tuple the source returns: each extracted tag exactly once, in an
      order the model leaves open. */
  method ExtractTagsTuple(tags: string) returns (r: seq<string>)
    ensures (set t | t in r) == ExtractTags(tags)
    ensures forall i, j :: 0 <= i < j < |r| ==> r[i] != r[j]
  {
    var rest := ExtractTags(tags);
    r := [];
    while rest != {}
      invariant (set t | t in r) + rest == ExtractTags(tags)
      invariant forall i :: 0 <= i < |r| ==> r[i] !in rest
      invariant forall i, j :: 0 <= i < j < |r| ==> r[i] != r[j]
      decreases |rest|
    {
      var t :| t in rest;
      r := r + [t];
      rest := rest - {t};
    }
  }

  /** The extracted set is exactly the non-empty pieces of ANY comma-free
      decomposition of the whitespace-free input: the split is the only one. */
  lemma {:induction false} ExtractTagsArePieces(tags: string, ps: seq<string>)
    requires |ps| > 0
    requires forall i :: 0 <= i < |ps| ==> ',' !in ps[i]
    requires Join(ps, ',') == RemoveWhitespace(tags)
    ensures ExtractTags(tags) == set t | t in ps && t != ""
  {
    SplitJoin(ps, ',');
  }

  /** Input made only of whitespace and commas yields no tag. */
  lemma NoTagsFromSeparators(tags: string)
    requires forall i :: 0 <= i < |tags| ==> IsWhitespace(tags[i]) || tags[i] == ','
    ensures ExtractTags(tags) == {}
  {
    var nowhite := RemoveWhitespace(tags);
    var pieces := Split(nowhite, ',');
    assert forall c :: c in nowhite ==> c == ',';
    forall t | t in pieces
      ensures t == ""
    {
      var j :| 0 <= j < |pieces| && pieces[j] == t;
      assert forall c :: c in t ==> c in nowhite;
      assert forall i :: 0 <= i < |t| ==> t[i] in t;
      CountUniform(',', t);
    }
  }

  /** Joining well-formed tags with commas and extracting again gives back
      exactly those tags. */
  lemma {:induction false} ExtractTagsOfJoin(ts: seq<string>)
    requires forall i :: 0 <= i < |ts| ==> IsTag(ts[i])
    ensures ExtractTags(Join(ts, ',')) == set t | t in ts
  {
    var joined := Join(ts, ',');
    forall i | 0 <= i < |joined|
      ensures !IsWhitespace(joined[i])
    {
      assert joined[i] in joined;
      if joined[i] != ',' {
        var k :| 0 <= k < |ts| && joined[i] in ts[k];
        var m :| 0 <= m < |ts[k]| && ts[k][m] == joined[i];
      }
    }
    RemoveWhitespaceNoop(joined);
    if |ts| == 0 {
      assert Split("", ',') == [""];
    } else {
      SplitJoin(ts, ',');
    }
  }

  /** Idempotence: rendering the extracted tags in any order (the tuple, say)
      joined by commas and extracting again gives the same set. */
  lemma ExtractTagsIdempotent(tags: string, ts: seq<string>)
    requires (set t | t in ts) == ExtractTags(tags)
    ensures ExtractTags(Join(ts, ',')) == ExtractTags(tags)
  {
    forall i | 0 <= i < |ts|
      ensures IsTag(ts[i])
    {
      assert ts[i] in (set t | t in ts);
    }
    ExtractTagsOfJoin(ts);
  }

  lemma ExampleWithoutWhitespace()
    ensures RemoveWhitespace("a, b ,a,") == "a,b,a,"
  {
    assert RemoveWhitespace(",") == ",";
    assert RemoveWhitespace("a,") == "a,";
    assert RemoveWhitespace(",a,") == ",a,";
    assert RemoveWhitespace(" ,a,") == ",a,";
    assert RemoveWhitespace("b ,a,") == "b,a,";
    assert RemoveWhitespace(" b ,a,") == "b,a,";
    assert RemoveWhitespace(", b ,a,") == ",b,a,";
  }

  lemma ExampleJoin()
    ensures Join(["a", "b", "a", ""], ',') == "a,b,a,"
  {
    var ps := ["a", "b", "a", ""];
    assert ps[1..] == ["b", "a", ""];
    assert ps[1..][1..] == ["a", ""];
    assert ps[1..][1..][1..] == [""];
  }

  lemma ExamplePieces()
    ensures (set t | t in ["a", "b", "a", ""] && t != "") == {"a", "b"}
  {
    var ps := ["a", "b", "a", ""];
    assert ps[0] == "a" && ps[1] == "b";
    forall t | t in ps && t != ""
      ensures t == "a" || t == "b"
    {
    }
  }

  /** Duplicates collapse and stray whitespace and empty pieces vanish. */
  lemma ExtractTagsExample()
    ensures ExtractTags("a, b ,a,") == {"a", "b"}
  {
    ExampleWithoutWhitespace();
    ExampleJoin();
    var ps := ["a", "b", "a", ""];
    assert forall i :: 0 <= i < |ps| ==> ',' !in ps[i];
    ExtractTagsArePieces("a, b ,a,", ps);
    ExamplePieces();
  }

  /** The handler escapes the tags field before extracting, so no tag carries
      a markup-significant character. */
  lemma EscapedTagsHoldNoMarkup(raw: string)
    ensures forall t :: t in ExtractTags(Html.HtmlEscape(raw)) ==>
              '<' !in t && '>' !in t && '"' !in t && '\'' !in t
  {
    var escaped := Html.HtmlEscape(raw);
    var nowhite := RemoveWhitespace(escaped);
    var pieces := Split(nowhite, ',');
    forall t, c | t in ExtractTags(escaped) && c in t
      ensures c != '<' && c != '>' && c != '"' && c != '\''
    {
      assert t in pieces;
      assert c in nowhite;
    }
  }
}
