/**
 * Ranking by a score, largest first, keeping ties in their original order:
 * what `Counter.most_common` does with counts (imdb/imdb.py:115, 122) and
 * one admissible outcome of `sort_values(..., ascending=False)` on means
 * (imdb/imdb.py:129), where NaN goes last.
 */
module Ranking {

  import opened Seqs

  /** A sort key: a number, or NaN. */
  datatype Score = NaN | Num(v: real)

  /** `a` ranks strictly higher than `b` in a descending sort with NaN last. */
  predicate Above(a: Score, b: Score)
  {
    match (a, b)
    case (Num(x), Num(y)) => x > y
    case (Num(_), NaN) => true
    case (NaN, _) => false
  }

  /** Position `i` comes before position `j`: higher score, or the same
      score and earlier. */
  predicate Before(sc: seq<Score>, i: nat, j: nat)
    requires i < |sc| && j < |sc|
  {
    Above(sc[i], sc[j]) || (sc[i] == sc[j] && i < j)
  }

  /** `o` lists positions of `sc` in ranking order. */
  predicate RankedBy(sc: seq<Score>, o: seq<nat>)
  {
    && (forall p :: 0 <= p < |o| ==> o[p] < |sc|)
    && (forall p, q :: 0 <= p < q < |o| ==> Before(sc, o[p], o[q]))
  }

  /** Put position `k`, later than every position in `o`, after all
      positions whose score is at least its own. */
  function Insert(sc: seq<Score>, k: nat, o: seq<nat>): (r: seq<nat>)
    requires k < |sc| && RankedBy(sc, o)
    requires forall p :: 0 <= p < |o| ==> o[p] < k
    ensures |r| == |o| + 1
    ensures forall i :: i in r <==> i == k || i in o
    ensures RankedBy(sc, r)
    decreases |o|
  {
    if o == [] || Above(sc[k], sc[o[0]]) then [k] + o
    else
      var rest := Insert(sc, k, o[1..]);
      assert forall i :: i in o[1..] ==> i in o;
      assert Before(sc, o[0], k);
      assert forall q :: 1 <= q < |o| ==> Before(sc, o[0], o[q]);
      assert forall p :: 0 <= p < |rest| ==> Before(sc, o[0], rest[p]) by {
        forall p | 0 <= p < |rest| ensures Before(sc, o[0], rest[p]) {
          assert rest[p] in rest;
          if rest[p] != k {
            var q :| 0 <= q < |o[1..]| && o[1..][q] == rest[p];
            assert o[q + 1] == rest[p];
          }
        }
      }
      [o[0]] + rest
  }

  /** Positions `0..m-1` of `sc` in ranking order (insertion sort). */
  function RankPrefix(sc: seq<Score>, m: nat): (o: seq<nat>)
    requires m <= |sc|
    ensures |o| == m
    ensures forall i :: i in o <==> 0 <= i < m
    ensures RankedBy(sc, o)
  {
    if m == 0 then []
    else
      var o := RankPrefix(sc, m - 1);
      assert forall p :: 0 <= p < |o| ==> o[p] in o;
      Insert(sc, m - 1, o)
  }

  /** Every position of `sc`, ranked. */
  function RankOrder(sc: seq<Score>): (o: seq<nat>)
  {
    RankPrefix(sc, |sc|)
  }

  /** The first `m` ranked positions: distinct, in ranking order, and every
      position left out ranks after the last one taken. */
  lemma RankOrderTop(sc: seq<Score>, m: nat)
    requires m <= |sc|
    ensures |RankOrder(sc)[..m]| == m
    ensures forall p :: 0 <= p < m ==> RankOrder(sc)[p] < |sc|
    ensures forall p, q :: 0 <= p < q < m ==> Before(sc, RankOrder(sc)[p], RankOrder(sc)[q])
    ensures forall i :: 0 <= i < |sc| && i !in RankOrder(sc)[..m] ==>
      m < |sc| && (m > 0 ==> Before(sc, RankOrder(sc)[m - 1], i))
  {
    var o := RankOrder(sc);
    forall i | 0 <= i < |sc| && i !in o[..m]
      ensures m < |sc| && (m > 0 ==> Before(sc, o[m - 1], i))
    {
      assert i in o;
      var q :| 0 <= q < |o| && o[q] == i;
      assert forall p :: 0 <= p < m ==> o[..m][p] == o[p];
    }
  }

  lemma BeforeIsStrict(sc: seq<Score>, i: nat, j: nat)
    requires i < |sc| && j < |sc| && Before(sc, i, j)
    ensures i != j && !Before(sc, j, i) && !Above(sc[j], sc[i])
  {
  }

  // ---------------------------------------------------------------- counting

  /** `Counter(xs).items()`: each distinct value, in first-seen order, with
      its number of occurrences. */
  function Tally<T(==)>(xs: seq<T>): (r: seq<(T, nat)>)
  {
    var d := Distinct(xs);
    seq(|d|, k requires 0 <= k < |d| => (d[k], CountOf(xs, d[k])))
  }

  function CountScores<T>(items: seq<(T, nat)>): seq<Score>
  {
    seq(|items|, k requires 0 <= k < |items| => Num(items[k].1 as real))
  }

  /** How many entries `most_common(n)` returns from `len` candidates. */
  function TakeCount(n: int, len: nat): nat
  {
    if n <= 0 then 0 else if n < len then n else len
  }

  /** How many rows `head(n)` keeps from `len`: a negative `n` drops the
      last `-n` rows. */
  function HeadCount(n: int, len: nat): nat
  {
    if n >= 0 then (if n < len then n else len)
    else if len + n > 0 then len + n else 0
  }

  /** `Counter.most_common(n)` on the counter whose items are `items`. */
  function MostCommon<T>(items: seq<(T, nat)>, n: int): seq<(T, nat)>
  {
    var o := RankOrder(CountScores(items));
    Select(items, o[..TakeCount(n, |items|)])
  }

  /** `most_common(n)` takes the first entries of the count ranking. */
  lemma MostCommonRanked<T>(items: seq<(T, nat)>, n: int)
    ensures |MostCommon(items, n)| == TakeCount(n, |items|)
    ensures forall p :: 0 <= p < |MostCommon(items, n)| ==>
      RankOrder(CountScores(items))[p] < |items| &&
      MostCommon(items, n)[p] == items[RankOrder(CountScores(items))[p]]
    ensures forall p, q :: 0 <= p < q < |MostCommon(items, n)| ==>
      var o := RankOrder(CountScores(items));
      items[o[p]].1 > items[o[q]].1 || (items[o[p]].1 == items[o[q]].1 && o[p] < o[q])
    ensures forall i :: 0 <= i < |items| && i !in RankOrder(CountScores(items))[..TakeCount(n, |items|)] ==>
      var o, m := RankOrder(CountScores(items)), TakeCount(n, |items|);
      m < |items| && (m > 0 ==> items[o[m - 1]].1 > items[i].1 || (items[o[m - 1]].1 == items[i].1 && o[m - 1] < i))
  {
    var sc := CountScores(items);
    RankOrderTop(sc, TakeCount(n, |items|));
  }

  lemma TallyAt<T>(xs: seq<T>, k: nat)
    requires k < |Distinct(xs)|
    ensures |Tally(xs)| == |Distinct(xs)|
    ensures Tally(xs)[k] == (Distinct(xs)[k], CountOf(xs, Distinct(xs)[k]))
  {
  }

  /** Each entry of `most_common(n)` is a value of `xs` with its true count. */
  lemma MostCommonOfTallyEntries<T>(xs: seq<T>, n: int)
    ensures |MostCommon(Tally(xs), n)| == TakeCount(n, |Distinct(xs)|)
    ensures forall p :: 0 <= p < |MostCommon(Tally(xs), n)| ==>
      MostCommon(Tally(xs), n)[p].0 in xs && MostCommon(Tally(xs), n)[p].1 == CountOf(xs, MostCommon(Tally(xs), n)[p].0)
  {
    var items := Tally(xs);
    var d := Distinct(xs);
    DistinctSpec(xs);
    MostCommonRanked(items, n);
    var o := RankOrder(CountScores(items));
    var r := MostCommon(items, n);
    forall p | 0 <= p < |r| ensures r[p].0 in xs && r[p].1 == CountOf(xs, r[p].0) {
      TallyAt(xs, o[p]);
      assert d[o[p]] in d;
    }
  }

  /** Counts descend, ties keep first-seen order, and no value repeats. */
  lemma MostCommonOfTallyOrder<T>(xs: seq<T>, n: int)
    ensures forall p, q :: 0 <= p < q < |MostCommon(Tally(xs), n)| ==>
      MostCommon(Tally(xs), n)[p].1 >= MostCommon(Tally(xs), n)[q].1
    ensures forall p, q :: 0 <= p < q < |MostCommon(Tally(xs), n)| && MostCommon(Tally(xs), n)[p].1 == MostCommon(Tally(xs), n)[q].1 ==>
      IndexOf(xs, MostCommon(Tally(xs), n)[p].0) < IndexOf(xs, MostCommon(Tally(xs), n)[q].0)
    ensures forall p, q :: 0 <= p < q < |MostCommon(Tally(xs), n)| ==>
      MostCommon(Tally(xs), n)[p].0 != MostCommon(Tally(xs), n)[q].0
  {
    forall p, q | 0 <= p < q < |MostCommon(Tally(xs), n)| {
      MostCommonOfTallyPair(xs, n, p, q);
    }
  }

  lemma MostCommonOfTallyPair<T>(xs: seq<T>, n: int, p: nat, q: nat)
    requires p < q < |MostCommon(Tally(xs), n)|
    ensures var r := MostCommon(Tally(xs), n);
      && r[p].1 >= r[q].1 && r[p].0 != r[q].0
      && (r[p].1 == r[q].1 ==> IndexOf(xs, r[p].0) < IndexOf(xs, r[q].0))
  {
    var items := Tally(xs);
    MostCommonRanked(items, n);
    var o := RankOrder(CountScores(items));
    assert MostCommon(items, n)[p] == items[o[p]] && MostCommon(items, n)[q] == items[o[q]];
    TallyPairOrder(xs, o[p], o[q]);
  }

  /** Two tally entries in count order hold different values, and on equal
      counts the earlier entry's value occurs first in `xs`. */
  lemma TallyPairOrder<T>(xs: seq<T>, i: nat, j: nat)
    requires i < |Tally(xs)| && j < |Tally(xs)|
    requires Tally(xs)[i].1 > Tally(xs)[j].1 || (Tally(xs)[i].1 == Tally(xs)[j].1 && i < j)
    ensures Tally(xs)[i].0 != Tally(xs)[j].0
    ensures Tally(xs)[i].1 == Tally(xs)[j].1 ==> IndexOf(xs, Tally(xs)[i].0) < IndexOf(xs, Tally(xs)[j].0)
  {
    var f := FirstIndices(xs);
    DistinctSpec(xs);
    TallyAt(xs, i);
    TallyAt(xs, j);
    if i < j {
      assert f[i] < f[j];
    } else {
      assert f[j] < f[i];
    }
  }

  /** The values `most_common(n)` leaves out: only when the result is full,
      and each ranks after the last entry returned. */
  lemma MostCommonOfTallyComplete<T>(xs: seq<T>, n: int, x: T)
    requires x in xs
    requires forall p :: 0 <= p < |MostCommon(Tally(xs), n)| ==> MostCommon(Tally(xs), n)[p].0 != x
    ensures |MostCommon(Tally(xs), n)| == (if n <= 0 then 0 else n)
    ensures var r := MostCommon(Tally(xs), n);
      |r| > 0 ==>
        || CountOf(xs, x) < r[|r| - 1].1
        || (CountOf(xs, x) == r[|r| - 1].1 && IndexOf(xs, r[|r| - 1].0) < IndexOf(xs, x))
  {
    var items := Tally(xs);
    var d := Distinct(xs);
    var f := FirstIndices(xs);
    DistinctSpec(xs);
    MostCommonRanked(items, n);
    var o := RankOrder(CountScores(items));
    var m := TakeCount(n, |items|);
    var r := MostCommon(items, n);
    var k := IndexOf(d, x);
    forall p | 0 <= p < m ensures o[..m][p] != k {
      TallyAt(xs, o[p]);
    }
    assert k !in o[..m];
    TallyAt(xs, k);
    if m > 0 {
      TallyAt(xs, o[m - 1]);
      if o[m - 1] < k {
        assert f[o[m - 1]] < f[k];
      }
    }
  }

  // ---------------------------------------------------------------- totals

  /** Sum of the counts of a list of `(value, count)` pairs. */
  function TotalCount<T>(items: seq<(T, nat)>): nat
  {
    if items == [] then 0 else TotalCount(items[..|items| - 1]) + items[|items| - 1].1
  }

  lemma {:induction false} TotalCountAppend<T>(a: seq<(T, nat)>, b: seq<(T, nat)>)
    ensures TotalCount(a + b) == TotalCount(a) + TotalCount(b)
    decreases |b|
  {
    if b == [] {
      assert a + b == a;
    } else {
      var n := |b| - 1;
      assert (a + b)[..|a + b| - 1] == a + b[..n];
      TotalCountAppend(a, b[..n]);
    }
  }

  /** Sum over `ds` of the number of occurrences in `xs`. */
  function SumOfCounts<T(==)>(xs: seq<T>, ds: seq<T>): nat
  {
    if ds == [] then 0 else SumOfCounts(xs, ds[..|ds| - 1]) + CountOf(xs, ds[|ds| - 1])
  }

  lemma {:induction false} SumOfCountsSnoc<T>(xs: seq<T>, x: T, ds: seq<T>)
    requires forall p, q :: 0 <= p < q < |ds| ==> ds[p] != ds[q]
    ensures SumOfCounts(xs + [x], ds) == SumOfCounts(xs, ds) + (if x in ds then 1 else 0)
  {
    if ds != [] {
      var n := |ds| - 1;
      SumOfCountsSnoc(xs, x, ds[..n]);
      CountOfSnoc(xs, x, ds[n]);
      assert x in ds <==> x in ds[..n] || x == ds[n] by {
        assert ds == ds[..n] + [ds[n]];
      }
      assert x in ds[..n] ==> x != ds[n];
    }
  }

  lemma {:induction false} TotalCountOfCounts<T>(xs: seq<T>, ds: seq<T>)
    ensures TotalCount(seq(|ds|, k requires 0 <= k < |ds| => (ds[k], CountOf(xs, ds[k])))) == SumOfCounts(xs, ds)
  {
    if ds != [] {
      var n := |ds| - 1;
      var t := seq(|ds|, k requires 0 <= k < |ds| => (ds[k], CountOf(xs, ds[k])));
      assert t[..n] == seq(n, k requires 0 <= k < n => (ds[..n][k], CountOf(xs, ds[..n][k])));
      TotalCountOfCounts(xs, ds[..n]);
    }
  }

  /** The counter's counts add up to the number of values counted. */
  lemma {:induction false} TallyTotal<T>(xs: seq<T>)
    ensures TotalCount(Tally(xs)) == |xs|
  {
    TotalCountOfCounts(xs, Distinct(xs));
    SumOfDistinctCounts(xs);
  }

  lemma {:induction false} SumOfDistinctCounts<T>(xs: seq<T>)
    ensures SumOfCounts(xs, Distinct(xs)) == |xs|
  {
    if xs != [] {
      var n := |xs| - 1;
      var pre, x := xs[..n], xs[n];
      assert pre + [x] == xs;
      SumOfDistinctCounts(pre);
      DistinctSnoc(pre, x);
      DistinctSpec(pre);
      DistinctSpec(xs);
      SumOfCountsSnoc(pre, x, Distinct(pre));
      if x !in pre {
        var d := Distinct(pre);
        assert Distinct(xs)[..|d|] == d;
        CountOfSnoc(pre, x, x);
        assert CountOf(pre, x) == 0;
      }
    }
  }

  /** Where `Insert` put the new position. */
  lemma {:induction false} InsertShape(sc: seq<Score>, k: nat, o: seq<nat>) returns (j: nat)
    requires k < |sc| && RankedBy(sc, o)
    requires forall p :: 0 <= p < |o| ==> o[p] < k
    ensures j <= |o| && Insert(sc, k, o) == o[..j] + [k] + o[j..]
    decreases |o|
  {
    if o == [] || Above(sc[k], sc[o[0]]) {
      j := 0;
    } else {
      var j' := InsertShape(sc, k, o[1..]);
      j := j' + 1;
      assert o[..j] == [o[0]] + o[1..][..j'];
      assert o[j..] == o[1..][j'..];
    }
  }

  lemma SelectAppend<T>(xs: seq<T>, a: seq<nat>, b: seq<nat>)
    requires forall p :: 0 <= p < |a| ==> a[p] < |xs|
    requires forall p :: 0 <= p < |b| ==> b[p] < |xs|
    ensures Select(xs, a + b) == Select(xs, a) + Select(xs, b)
  {
  }

  /** Inserting one position adds that entry's count to the total. */
  lemma InsertedTotal<T>(items: seq<(T, nat)>, a: seq<nat>, k: nat, b: seq<nat>)
    requires k < |items|
    requires forall p :: 0 <= p < |a| ==> a[p] < |items|
    requires forall p :: 0 <= p < |b| ==> b[p] < |items|
    ensures TotalCount(Select(items, a + [k] + b)) == TotalCount(Select(items, a + b)) + items[k].1
  {
    SelectAppend(items, a, [k] + b);
    SelectAppend(items, [k], b);
    SelectAppend(items, a, b);
    assert a + [k] + b == a + ([k] + b);
    var last: seq<(T, nat)> := [items[k]];
    assert last[..0] == [];
    assert Select(items, [k]) == last;
    TotalCountAppend(Select(items, a), last + Select(items, b));
    TotalCountAppend(last, Select(items, b));
    TotalCountAppend(Select(items, a), Select(items, b));
  }

  /** One step of `RankPrefix` inserts position `m - 1` somewhere. */
  lemma RankPrefixStep(sc: seq<Score>, m: nat) returns (a: seq<nat>, b: seq<nat>)
    requires 0 < m <= |sc|
    ensures RankPrefix(sc, m - 1) == a + b
    ensures RankPrefix(sc, m) == a + [m - 1] + b
    ensures forall p :: 0 <= p < |a| ==> a[p] < m - 1
    ensures forall p :: 0 <= p < |b| ==> b[p] < m - 1
  {
    var o := RankPrefix(sc, m - 1);
    assert forall p :: 0 <= p < |o| ==> o[p] < m - 1 by {
      forall p | 0 <= p < |o| ensures o[p] < m - 1 {
        assert o[p] in o;
      }
    }
    assert RankPrefix(sc, m) == Insert(sc, m - 1, o);
    var j := InsertShape(sc, m - 1, o);
    a, b := o[..j], o[j..];
    assert o == a + b;
  }

  /** Ranking only reorders: the ranked entries have the same total. */
  lemma {:induction false} RankPrefixTotal<T>(items: seq<(T, nat)>, sc: seq<Score>, m: nat)
    requires |sc| == |items| && m <= |items|
    ensures TotalCount(Select(items, RankPrefix(sc, m))) == TotalCount(items[..m])
  {
    if m > 0 {
      RankPrefixTotal(items, sc, m - 1);
      var a, b := RankPrefixStep(sc, m);
      InsertedTotal(items, a, m - 1, b);
      TotalCountLast(items[..m]);
      assert items[..m][..m - 1] == items[..m - 1];
    }
  }

  lemma TotalCountLast<T>(items: seq<(T, nat)>)
    requires items != []
    ensures TotalCount(items) == TotalCount(items[..|items| - 1]) + items[|items| - 1].1
  {
  }

  /** When `n` covers every distinct value, the counts `most_common(n)`
      returns add up to the number of values counted. */
  lemma MostCommonTotal<T>(xs: seq<T>, n: int)
    requires n >= |Distinct(xs)|
    ensures TotalCount(MostCommon(Tally(xs), n)) == |xs|
  {
    var items := Tally(xs);
    RankPrefixTotal(items, CountScores(items), |items|);
    assert items[..|items|] == items;
    var o := RankOrder(CountScores(items));
    assert o[..TakeCount(n, |items|)] == o;
    TallyTotal(xs);
  }
}
