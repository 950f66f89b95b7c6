/**
  Facts about sequences, stated over an arbitrary element type so that the
  solver does not look into the elements when it uses them.
*/
module Sequences {
  lemma HeadOfAppend<T>(p: seq<T>, t: seq<T>)
    requires |p| > 0
    ensures (p + t)[0] == p[0] && (p + t)[1..] == p[1..] + t
  {
  }

  lemma AppendAssoc<T>(a: seq<T>, b: seq<T>, c: seq<T>)
    ensures a + (b + c) == (a + b) + c
  {
  }

  /** The slices of `p d t e q` around the infix `t`. */
  lemma InfixSlices<T>(p: seq<T>, d: T, t: seq<T>, e: T, q: seq<T>)
    ensures |p + [d] + t + [e] + q| == |p| + |t| + |q| + 2
    ensures (p + [d] + t + [e] + q)[..|p| + 1] == p + [d]
    ensures (p + [d] + t + [e] + q)[|p|] == d
    ensures (p + [d] + t + [e] + q)[|p| + 1..|p| + 1 + |t|] == t
    ensures (p + [d] + t + [e] + q)[|p| + 1 + |t|] == e
    ensures (p + [d] + t + [e] + q)[|p| + |t| + 2..] == q
  {
    var s := p + [d] + t + [e] + q;
    var a, b := p + [d], t + ([e] + q);
    assert s == a + b;
    assert s[|a|..] == b;
    assert s[|a|..|a| + |t|] == b[..|t|];
    assert s[|a| + |t| + 1..] == b[|t| + 1..];
  }

  /** The slices of `p d t` around the separator `d`. */
  lemma SuffixSlices<T>(p: seq<T>, d: T, t: seq<T>)
    ensures |p + [d] + t| == |p| + |t| + 1
    ensures (p + [d] + t)[..|p|] == p
    ensures (p + [d] + t)[|p|] == d
    ensures (p + [d] + t)[|p| + 1..] == t
  {
    var s := p + [d] + t;
    assert s == p + ([d] + t);
  }

  /** A prefix one longer is the prefix followed by the next element. */
  lemma TakeSnoc<T>(s: seq<T>, i: int)
    requires 0 <= i < |s|
    ensures s[..i + 1] == s[..i] + [s[i]]
  {
  }

  /** A non-empty slice is its first element followed by the rest. */
  lemma SliceCons<T>(s: seq<T>, i: int, j: int)
    requires 0 <= i < j <= |s|
    ensures s[i..j] == [s[i]] + s[i + 1..j]
  {
  }
}
