/**
 * Parsing of the comma-separated `data-requisitos` attribute of a course
 * (script.js:24, 84, 97).  `Split` is JavaScript's `String.prototype.split(',')`,
 * `DropEmpty` is `.filter(Boolean)` on an array of strings, and `Parse` is the
 * composition used by the status derivation and by the missing-prerequisite
 * query.  Tokens are never trimmed.
 */
module Parsing {

  const Separator: char := ','

  /** A token produced by `Split` never contains the separator. */
  ghost predicate CommaFree(t: string) {
    Separator !in t
  }

  /** The inverse of `Split`: the tokens glued back with the separator between them. */
  function Join(ts: seq<string>): string
    requires |ts| > 0
  {
    if |ts| == 1 then ts[0] else ts[0] + [Separator] + Join(ts[1..])
  }

  /**
   * `s.split(',')`: the maximal comma-free pieces of `s`, in order.  There is
   * always at least one piece (`"".split(',')` is `[""]`) and gluing them back
   * gives `s`.
   */
  function Split(s: string): (r: seq<string>)
    ensures |r| > 0
    ensures forall t :: t in r ==> CommaFree(t)
    ensures Join(r) == s
  {
    if |s| == 0 then [""]
    else if s[0] == Separator then [""] + Split(s[1..])
    else
      var rest := Split(s[1..]);
      assert s == [s[0]] + s[1..];
      assert rest[0] in rest;
      assert CommaFree([s[0]] + rest[0]);
      [[s[0]] + rest[0]] + rest[1..]
  }

  /** `.filter(Boolean)`: the non-empty tokens, in their original order. */
  function DropEmpty(ts: seq<string>): (r: seq<string>)
    ensures forall t :: t in r <==> t in ts && t != ""
    ensures |r| <= |ts|
  {
    if ts == [] then []
    else if ts[0] == "" then DropEmpty(ts[1..])
    else [ts[0]] + DropEmpty(ts[1..])
  }

  /** `s.split(',').filter(Boolean)`. */
  function Parse(s: string): (r: seq<string>)
    ensures forall t :: t in r <==> t in Split(s) && t != ""
    ensures forall t :: t in r ==> t != "" && CommaFree(t)
  {
    DropEmpty(Split(s))
  }

  /** Splitting a comma-free prefix glued to the rest extends the first piece. */
  lemma {:induction false} SplitPrefix(t: string, s: string)
    requires CommaFree(t)
    ensures Split(t + s) == [t + Split(s)[0]] + Split(s)[1..]
  {
    if t == [] {
      assert t + s == s;
      assert t + Split(s)[0] == Split(s)[0];
      assert [t + Split(s)[0]] + Split(s)[1..] == Split(s);
    } else {
      assert (t + s)[0] == t[0];
      assert CommaFree(t[1..]) by { assert forall k :: 0 <= k < |t[1..]| ==> t[1..][k] == t[k + 1]; }
      assert (t + s)[1..] == t[1..] + s;
      SplitPrefix(t[1..], s);
      assert [t[0]] + (t[1..] + Split(s)[0]) == t + Split(s)[0];
    }
  }

  /** `Split` undoes `Join` on comma-free tokens: the two are a round trip. */
  lemma {:induction false} SplitJoin(ts: seq<string>)
    requires |ts| > 0
    requires forall i :: 0 <= i < |ts| ==> CommaFree(ts[i])
    ensures Split(Join(ts)) == ts
  {
    if |ts| == 1 {
      SplitPrefix(ts[0], "");
      assert ts[0] + "" == ts[0];
    } else {
      var tail := Join(ts[1..]);
      SplitJoin(ts[1..]);
      assert ts[0] + [Separator] + tail == ts[0] + ([Separator] + tail);
      SplitPrefix(ts[0], [Separator] + tail);
      assert ([Separator] + tail)[1..] == tail;
      assert Split([Separator] + tail) == [""] + ts[1..];
      assert ts[0] + "" == ts[0];
    }
  }

  /** `filter(Boolean)` keeps a list of non-empty tokens as it is. */
  lemma {:induction false} DropEmptyKeepsNonEmpty(ts: seq<string>)
    requires forall i :: 0 <= i < |ts| ==> ts[i] != ""
    ensures DropEmpty(ts) == ts
  {
    if ts != [] {
      DropEmptyKeepsNonEmpty(ts[1..]);
    }
  }

  /** `filter(Boolean)` on one token keeps it exactly when it is not empty. */
  lemma DropEmptySingle(t: string)
    ensures DropEmpty([t]) == if t == "" then [] else [t]
  {
    assert [t][1..] == [];
  }

  /**
   * `filter(Boolean)` distributes over concatenation; with `DropEmptySingle`
   * this fixes it as the order- and multiplicity-preserving filter.
   */
  lemma {:induction false} DropEmptyConcat(a: seq<string>, b: seq<string>)
    ensures DropEmpty(a + b) == DropEmpty(a) + DropEmpty(b)
  {
    if a == [] {
      assert a + b == b;
    } else {
      assert (a + b)[0] == a[0];
      assert (a + b)[1..] == a[1..] + b;
      DropEmptyConcat(a[1..], b);
      if a[0] == "" {
        assert DropEmpty(a + b) == DropEmpty(a[1..] + b);
      } else {
        assert DropEmpty(a + b) == [a[0]] + DropEmpty(a[1..] + b);
      }
    }
  }

  /**
   * A list of comma-free tokens written as an attribute is read back as its
   * non-empty tokens, in the same order and with the same repetitions; a list
   * of non-empty ids is read back as itself.
   */
  lemma ParseJoin(ts: seq<string>)
    requires |ts| > 0
    requires forall i :: 0 <= i < |ts| ==> CommaFree(ts[i])
    ensures Parse(Join(ts)) == DropEmpty(ts)
    ensures (forall i :: 0 <= i < |ts| ==> ts[i] != "") ==> Parse(Join(ts)) == ts
  {
    SplitJoin(ts);
    if forall i :: 0 <= i < |ts| ==> ts[i] != "" {
      DropEmptyKeepsNonEmpty(ts);
    }
  }

  /** Splitting a string made only of commas gives only empty tokens. */
  lemma {:induction false} SplitOnlyCommas(s: string)
    requires forall i :: 0 <= i < |s| ==> s[i] == Separator
    ensures forall i :: 0 <= i < |Split(s)| ==> Split(s)[i] == ""
  {
    if |s| > 0 {
      SplitOnlyCommas(s[1..]);
    }
  }

  /** `filter(Boolean)` on empty tokens only leaves nothing. */
  lemma {:induction false} DropEmptyAllEmpty(ts: seq<string>)
    requires forall i :: 0 <= i < |ts| ==> ts[i] == ""
    ensures DropEmpty(ts) == []
  {
    if ts != [] {
      DropEmptyAllEmpty(ts[1..]);
    }
  }

  /** An empty attribute, or one made only of commas, has no prerequisites. */
  lemma ParseOnlyCommas(s: string)
    requires forall i :: 0 <= i < |s| ==> s[i] == Separator
    ensures Parse(s) == []
  {
    SplitOnlyCommas(s);
    DropEmptyAllEmpty(Split(s));
  }
}
