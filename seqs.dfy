/**
 * Sequence facts shared by the deduplication and the counters: how often a
 * value occurs, where it first occurs, and the distinct values in
 * first-seen order.
 */
module Seqs {

  /** Number of occurrences of `x` in `xs`. */
  function CountOf<T(==)>(xs: seq<T>, x: T): (c: nat)
    ensures c <= |xs|
    ensures c > 0 <==> x in xs
  {
    if xs == [] then 0
    else
      assert xs == xs[..|xs| - 1] + [xs[|xs| - 1]];
      CountOf(xs[..|xs| - 1], x) + (if xs[|xs| - 1] == x then 1 else 0)
  }

  lemma CountOfSnoc<T>(xs: seq<T>, y: T, x: T)
    ensures CountOf(xs + [y], x) == CountOf(xs, x) + (if y == x then 1 else 0)
  {
    assert (xs + [y])[..|xs|] == xs;
  }

  /** Taking one more element of `ys` after `xs` appends that element. */
  lemma AppendTakeSnoc<T>(xs: seq<T>, ys: seq<T>, j: nat)
    requires j < |ys|
    ensures xs + ys[..j + 1] == xs + ys[..j] + [ys[j]]
  {
    assert ys[..j + 1] == ys[..j] + [ys[j]];
  }

  /** Concatenation is associative. */
  lemma AppendAssoc<T>(a: seq<T>, b: seq<T>, c: seq<T>)
    ensures a + (b + c) == (a + b) + c
  {
  }

  /** Position of the first occurrence of `x`. */
  function IndexOf<T(==)>(xs: seq<T>, x: T): (i: nat)
    requires x in xs
    ensures i < |xs| && xs[i] == x
    ensures forall k :: 0 <= k < i ==> xs[k] != x
  {
    if xs[0] == x then 0 else 1 + IndexOf(xs[1..], x)
  }

  /** `j` is where the value `xs[j]` occurs for the first time. */
  predicate IsFirstOccurrence<T(==)>(xs: seq<T>, j: int)
  {
    0 <= j < |xs| && forall k :: 0 <= k < j ==> xs[k] != xs[j]
  }

  /** Positions of the first occurrence of every distinct value, in order:
      the rows a keep-first deduplication keeps. */
  function FirstIndices<T(==)>(xs: seq<T>): (r: seq<nat>)
    ensures forall p :: 0 <= p < |r| ==> IsFirstOccurrence(xs, r[p])
    ensures forall p, q :: 0 <= p < q < |r| ==> r[p] < r[q]
    ensures forall j :: IsFirstOccurrence(xs, j) ==> j in r
  {
    if xs == [] then []
    else
      var n := |xs| - 1;
      var pre := xs[..n];
      var p := FirstIndices(pre);
      assert forall j :: 0 <= j < n ==> (IsFirstOccurrence(pre, j) <==> IsFirstOccurrence(xs, j));
      if xs[n] in pre then
        assert !IsFirstOccurrence(xs, n) by {
          var k :| 0 <= k < n && pre[k] == xs[n];
        }
        p
      else
        p + [n]
  }

  lemma FirstIndicesSnoc<T>(xs: seq<T>, x: T)
    ensures FirstIndices(xs + [x]) == if x in xs then FirstIndices(xs) else FirstIndices(xs) + [|xs|]
  {
    var ys := xs + [x];
    assert ys[..|xs|] == xs;
    assert FirstIndices(ys) ==
      if ys[|xs|] in ys[..|xs|] then FirstIndices(ys[..|xs|]) else FirstIndices(ys[..|xs|]) + [|xs|];
  }

  /** The elements of `xs` at the positions `idx`. */
  function Select<T>(xs: seq<T>, idx: seq<nat>): (r: seq<T>)
    requires forall p :: 0 <= p < |idx| ==> idx[p] < |xs|
  {
    seq(|idx|, p requires 0 <= p < |idx| => xs[idx[p]])
  }

  /** The distinct values of `xs` in first-seen order. */
  function Distinct<T(==)>(xs: seq<T>): seq<T>
  {
    Select(xs, FirstIndices(xs))
  }

  lemma DistinctSnoc<T>(xs: seq<T>, x: T)
    ensures Distinct(xs + [x]) == if x in xs then Distinct(xs) else Distinct(xs) + [x]
  {
    FirstIndicesSnoc(xs, x);
    var f := FirstIndices(xs);
    assert forall p :: 0 <= p < |f| ==> (xs + [x])[f[p]] == xs[f[p]];
  }

  /** `Distinct` holds every value of `xs` exactly once, at the position
      given by the order of first occurrences. */
  lemma DistinctSpec<T>(xs: seq<T>)
    ensures |Distinct(xs)| == |FirstIndices(xs)|
    ensures forall x :: x in Distinct(xs) <==> x in xs
    ensures forall p, q :: 0 <= p < q < |Distinct(xs)| ==> Distinct(xs)[p] != Distinct(xs)[q]
    ensures forall p :: 0 <= p < |Distinct(xs)| ==> IndexOf(xs, Distinct(xs)[p]) == FirstIndices(xs)[p]
  {
    var f := FirstIndices(xs);
    var d := Distinct(xs);
    forall x | x in xs ensures x in d {
      var j := IndexOf(xs, x);
      assert IsFirstOccurrence(xs, j);
      var p :| 0 <= p < |f| && f[p] == j;
      assert d[p] == x;
    }
    forall p, q | 0 <= p < q < |d| ensures d[p] != d[q] {
      assert f[p] < f[q];
      assert IsFirstOccurrence(xs, f[q]);
    }
    forall p | 0 <= p < |d| ensures IndexOf(xs, d[p]) == f[p] {
      var i := IndexOf(xs, d[p]);
      assert IsFirstOccurrence(xs, f[p]);
      assert !(i < f[p]) && !(f[p] < i);
    }
  }

  /** Keeping first occurrences of a sequence without repeats keeps everything:
      deduplicating twice is deduplicating once. */
  lemma {:induction false} FirstIndicesOfDistinct<T>(xs: seq<T>)
    requires forall p, q :: 0 <= p < q < |xs| ==> xs[p] != xs[q]
    ensures FirstIndices(xs) == seq(|xs|, p => p)
  {
    if xs != [] {
      var n := |xs| - 1;
      FirstIndicesOfDistinct(xs[..n]);
      assert xs[n] !in xs[..n];
      FirstIndicesSnoc(xs[..n], xs[n]);
      assert xs[..n] + [xs[n]] == xs;
    }
  }
}
