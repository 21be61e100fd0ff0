/**
 * `drop_duplicates(subset=...)` followed by `reset_index(drop=True)`
 * (imdb/imdb.py:92-96): walk the rows once, keep a row when its key has not
 * been seen, and number the kept rows 0, 1, ... in their original order.
 * The kept rows are a sequence, so their positions are the new index.
 */
module Dedup {

  import opened Seqs

  /** Keep the first row of every key. `origin[p]` is the position, before
      renumbering, of the row that ends up at index `p`. */
  method DropDuplicates<R, K(==)>(rows: seq<R>, key: R -> K) returns (kept: seq<R>, origin: seq<nat>)
    ensures origin == FirstIndices(Keys(rows, key))
    ensures |kept| == |origin|
    ensures forall p :: 0 <= p < |origin| ==> origin[p] < |rows| && kept[p] == rows[origin[p]]
  {
    var keys := Keys(rows, key);
    var seen: set<K> := {};
    kept, origin := [], [];
    var i := 0;
    while i < |rows|
      invariant 0 <= i <= |rows|
      invariant Scanned(rows, keys, i, seen, kept, origin)
    {
      var k := keys[i];
      ScanStep(rows, keys, i, seen, kept, origin);
      if k !in seen {
        seen := seen + {k};
        kept := kept + [rows[i]];
        origin := origin + [i];
      }
      i := i + 1;
    }
    assert keys[..i] == keys;
  }

  /** The state of the scan after the first `i` rows: `origin` holds the
      first occurrences among them, `kept` their rows, `seen` their keys. */
  ghost predicate Scanned<R, K>(rows: seq<R>, keys: seq<K>, i: nat, seen: set<K>, kept: seq<R>, origin: seq<nat>)
    requires i <= |keys| == |rows|
  {
    && origin == FirstIndices(keys[..i])
    && |kept| == |origin|
    && (forall p :: 0 <= p < |origin| ==> origin[p] < i && kept[p] == rows[origin[p]])
    && seen == set p | 0 <= p < i :: keys[p]
  }

  /** One step of the scan: a key already seen leaves the state as it is,
      a new key keeps its row. */
  lemma ScanStep<R, K>(rows: seq<R>, keys: seq<K>, i: nat, seen: set<K>, kept: seq<R>, origin: seq<nat>)
    requires i < |keys| == |rows| && Scanned(rows, keys, i, seen, kept, origin)
    ensures keys[i] in seen ==> Scanned(rows, keys, i + 1, seen, kept, origin)
    ensures keys[i] !in seen ==> Scanned(rows, keys, i + 1, seen + {keys[i]}, kept + [rows[i]], origin + [i])
  {
    SeenStep(keys, i, seen);
    FirstIndicesStep(keys, i);
  }

  /** The key of every row. */
  function Keys<R, K>(rows: seq<R>, key: R -> K): (keys: seq<K>)
    ensures |keys| == |rows| && forall i :: 0 <= i < |rows| ==> keys[i] == key(rows[i])
  {
    seq(|rows|, i requires 0 <= i < |rows| => key(rows[i]))
  }

  /** The set of keys seen answers "seen before?" and grows by the new key. */
  lemma SeenStep<K>(keys: seq<K>, i: nat, seen: set<K>)
    requires i < |keys| && seen == set p | 0 <= p < i :: keys[p]
    ensures keys[i] in seen <==> keys[i] in keys[..i]
    ensures keys[i] in seen ==> seen == set p | 0 <= p < i + 1 :: keys[p]
    ensures keys[i] !in seen ==> seen + {keys[i]} == set p | 0 <= p < i + 1 :: keys[p]
  {
    if keys[i] in keys[..i] {
      var p :| 0 <= p < i && keys[..i][p] == keys[i];
      assert keys[p] == keys[i];
    }
    if keys[i] in seen {
      var p :| 0 <= p < i && keys[p] == keys[i];
      assert keys[..i][p] == keys[i];
    }
  }

  lemma FirstIndicesStep<K>(keys: seq<K>, i: nat)
    requires i < |keys|
    ensures FirstIndices(keys[..i + 1]) ==
      if keys[i] in keys[..i] then FirstIndices(keys[..i]) else FirstIndices(keys[..i]) + [i]
  {
    assert keys[..i + 1] == keys[..i] + [keys[i]];
    FirstIndicesSnoc(keys[..i], keys[i]);
  }

  /** What keeping the first occurrences means for the rows kept: an
      order-preserving selection, each row the first of its key, no key
      twice, and every key of the input present. */
  lemma KeptRows<R, K>(rows: seq<R>, key: R -> K, kept: seq<R>, origin: seq<nat>)
    requires origin == FirstIndices(Keys(rows, key))
    requires |kept| == |origin|
    requires forall p :: 0 <= p < |origin| ==> origin[p] < |rows| && kept[p] == rows[origin[p]]
    ensures forall p, q :: 0 <= p < q < |origin| ==> origin[p] < origin[q]
    ensures forall p :: 0 <= p < |origin| ==> forall j :: 0 <= j < origin[p] ==> key(rows[j]) != key(kept[p])
    ensures forall p, q :: 0 <= p < q < |kept| ==> key(kept[p]) != key(kept[q])
    ensures forall j :: 0 <= j < |rows| ==> exists p :: 0 <= p < |kept| && key(kept[p]) == key(rows[j])
  {
    var keys := Keys(rows, key);
    assert forall p :: 0 <= p < |origin| ==> IsFirstOccurrence(keys, origin[p]);
    KeptKeysDistinct(keys, origin);
    forall j | 0 <= j < |rows| ensures exists p :: 0 <= p < |kept| && key(kept[p]) == key(rows[j]) {
      var f := IndexOf(keys, keys[j]);
      assert IsFirstOccurrence(keys, f);
      var p :| 0 <= p < |origin| && origin[p] == f;
      assert key(kept[p]) == keys[f];
    }
  }

  /** The first occurrences of distinct keys carry distinct keys. */
  lemma KeptKeysDistinct<K>(keys: seq<K>, origin: seq<nat>)
    requires origin == FirstIndices(keys)
    ensures forall p, q :: 0 <= p < q < |origin| ==> keys[origin[p]] != keys[origin[q]]
  {
    forall p, q | 0 <= p < q < |origin| ensures keys[origin[p]] != keys[origin[q]] {
      assert IsFirstOccurrence(keys, origin[q]);
    }
  }

  /** Deduplicating the kept rows again keeps them all. */
  lemma DropDuplicatesIdempotent<R, K>(rows: seq<R>, key: R -> K)
    ensures var origin := FirstIndices(Keys(rows, key));
      var kept := Select(rows, origin);
      FirstIndices(Keys(kept, key)) == seq(|kept|, p => p)
  {
    var origin := FirstIndices(Keys(rows, key));
    var kept := Select(rows, origin);
    KeptRows(rows, key, kept, origin);
    FirstIndicesOfDistinct(Keys(kept, key));
  }
}
