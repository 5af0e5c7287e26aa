/** Searching and splitting strings on a single delimiter character, and regrouping
    concatenations. */
module Text {

  /** The position of the first occurrence of `c` in `s`. */
  function IndexOf(s: string, c: char): (i: nat)
    requires c in s
    ensures i < |s| && s[i] == c
    ensures c !in s[..i]
  {
    if s[0] == c then 0 else 1 + IndexOf(s[1..], c)
  }

  /** Splitting on every occurrence of `d`, as "strictly split" in the WHATWG Infra
      Standard: `k` delimiters give `k + 1` pieces, empty pieces included. */
  function SplitOn(s: string, d: char): (pieces: seq<string>)
    ensures |pieces| >= 1
    ensures forall k :: 0 <= k < |pieces| ==> d !in pieces[k]
    decreases |s|
  {
    if d in s then
      var i := IndexOf(s, d);
      [s[..i]] + SplitOn(s[i + 1..], d)
    else [s]
  }

  /** The first delimiter of `a + [d] + b` is the one placed after `a`. */
  lemma IndexOfAfterPrefix(a: string, d: char, b: string)
    requires d !in a
    ensures IndexOf(a + [d] + b, d) == |a|
  {
    var s := a + [d] + b;
    var i := IndexOf(s, d);
    assert s[|a|] == d;
  }

  /** Splitting undoes joining: a delimiter-free piece followed by `d` splits off first. */
  lemma SplitOnJoin(a: string, d: char, b: string)
    requires d !in a
    ensures SplitOn(a + [d] + b, d) == [a] + SplitOn(b, d)
  {
    var s := a + [d] + b;
    IndexOfAfterPrefix(a, d, b);
    assert s[..|a|] == a;
    assert s[|a| + 1..] == b;
  }

  /** A string free of `d` is a single piece. */
  lemma SplitOnNone(s: string, d: char)
    requires d !in s
    ensures SplitOn(s, d) == [s]
  {
  }

  /** Concatenation regrouped to the right. */
  lemma Regroup<T>(a: seq<T>, b: seq<T>, c: seq<T>, d: seq<T>)
    ensures a + b + c + d == a + (b + c + d)
  {
  }
}
