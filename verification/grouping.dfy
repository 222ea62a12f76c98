/** Insertion-ordered maps (a JavaScript `Map`, a Python `dict`) as sequences of
    entries with distinct keys, and the two folds the query routes build with
    them: grouping rows by a key, and keeping the latest row per key. */
module Grouping {
  import opened Wrappers

  datatype Entry<V> = Entry(key: string, value: V)

  function Keys<V>(es: seq<Entry<V>>): (ks: seq<string>)
    ensures |ks| == |es|
    ensures forall i :: 0 <= i < |es| ==> ks[i] == es[i].key
  {
    seq(|es|, i requires 0 <= i < |es| => es[i].key)
  }

  predicate DistinctKeys<V>(es: seq<Entry<V>>)
  {
    forall i, j :: 0 <= i < j < |es| ==> es[i].key != es[j].key
  }

  predicate HasKey<V>(es: seq<Entry<V>>, k: string)
  {
    k in Keys(es)
  }

  /** The position of key `k`, or -1 when absent. */
  function IndexOf<V>(es: seq<Entry<V>>, k: string): (i: int)
    ensures -1 <= i < |es|
    ensures i >= 0 ==> es[i].key == k
    ensures i < 0 <==> !HasKey(es, k)
  {
    if |es| == 0 then -1
    else if es[|es| - 1].key == k then |es| - 1
    else IndexOf(es[..|es| - 1], k)
  }

  /** `map.get(k)`. */
  function Get<V>(es: seq<Entry<V>>, k: string): (r: Option<V>)
    ensures r.Some? <==> HasKey(es, k)
  {
    var i := IndexOf(es, k);
    if i < 0 then None else Some(es[i].value)
  }

  /** `map.set(k, v)`: an existing key keeps its position, a new key goes last. */
  function Set<V>(es: seq<Entry<V>>, k: string, v: V): (r: seq<Entry<V>>)
    requires DistinctKeys(es)
    ensures DistinctKeys(r)
    ensures HasKey(es, k) ==> Keys(r) == Keys(es)
    ensures !HasKey(es, k) ==> Keys(r) == Keys(es) + [k]
    ensures forall i :: 0 <= i < |r| ==> r[i].value == (if r[i].key == k then v else es[i].value)
  {
    var i := IndexOf(es, k);
    if i < 0 then es + [Entry(k, v)] else es[i := Entry(k, v)]
  }

  // ---------------------------------------------------------------------------
  // Grouping

  /** The entries that `keep` accepts, in order. */
  function Filter<V>(es: seq<Entry<V>>, keep: Entry<V> -> bool): (r: seq<Entry<V>>)
    ensures |r| <= |es|
    ensures forall i :: 0 <= i < |r| ==> r[i] in es && keep(r[i])
    ensures forall i :: 0 <= i < |es| && keep(es[i]) ==> es[i] in r
    ensures DistinctKeys(es) ==> DistinctKeys(r)
  {
    if |es| == 0 then []
    else
      var n := |es| - 1;
      var rest := Filter(es[..n], keep);
      if keep(es[n]) then
        assert es == es[..n] + [es[n]];
        FilterSnocDistinct(es, rest);
        rest + [es[n]]
      else
        assert es == es[..n] + [es[n]];
        rest
  }

  /** Kept entries of distinct-keyed entries, and then the last entry, still
      have distinct keys. */
  lemma FilterSnocDistinct<V>(es: seq<Entry<V>>, rest: seq<Entry<V>>)
    requires |es| > 0
    requires DistinctKeys(es[..|es| - 1]) ==> DistinctKeys(rest)
    requires forall i :: 0 <= i < |rest| ==> rest[i] in es[..|es| - 1]
    ensures DistinctKeys(es) ==> DistinctKeys(rest + [es[|es| - 1]])
  {
    var n := |es| - 1;
    if DistinctKeys(es) {
      assert DistinctKeys(es[..n]);
      forall i | 0 <= i < |rest| ensures rest[i].key != es[n].key {
        var m :| 0 <= m < n && es[..n][m] == rest[i];
        assert es[m] == rest[i];
      }
      var r := rest + [es[n]];
      forall i, j | 0 <= i < j < |r| ensures r[i].key != r[j].key {
        if j < |rest| {
          assert r[i] == rest[i] && r[j] == rest[j];
        }
      }
    }
  }

  /** `d.pop(k, None)`: the entries without key `k`. */
  function Remove<V>(es: seq<Entry<V>>, k: string): (r: seq<Entry<V>>)
    ensures |r| <= |es|
    ensures forall i :: 0 <= i < |r| ==> r[i] in es && r[i].key != k
    ensures forall i :: 0 <= i < |es| && es[i].key != k ==> es[i] in r
    ensures DistinctKeys(es) ==> DistinctKeys(r)
  {
    Filter(es, (e: Entry<V>) => e.key != k)
  }

  /** The rows whose key is `k`, in their original order. */
  function Select<T>(rows: seq<T>, key: T -> string, k: string): (r: seq<T>)
  {
    if |rows| == 0 then []
    else
      var rest := Select(rows[..|rows| - 1], key, k);
      if key(rows[|rows| - 1]) == k then rest + [rows[|rows| - 1]] else rest
  }

  /** The first row index with key `k`, or |rows| when there is none. */
  function FirstIndex<T>(rows: seq<T>, key: T -> string, k: string): (i: nat)
    ensures i <= |rows|
    ensures i < |rows| ==> key(rows[i]) == k
    ensures forall j :: 0 <= j < i ==> key(rows[j]) != k
  {
    if |rows| == 0 then 0
    else if key(rows[0]) == k then 0
    else 1 + FirstIndex(rows[1..], key, k)
  }

  /** The loop `if (!m.has(k)) m.set(k, []); m.get(k).push(row)` over all rows. */
  function GroupBy<T>(rows: seq<T>, key: T -> string): (g: seq<Entry<seq<T>>>)
    ensures DistinctKeys(g)
  {
    if |rows| == 0 then []
    else
      var g := GroupBy(rows[..|rows| - 1], key);
      var r := rows[|rows| - 1];
      var i := IndexOf(g, key(r));
      Set(g, key(r), if i < 0 then [r] else g[i].value + [r])
  }

  /** Every group holds exactly the rows with its key, in order, and is not
      empty; a key has a group exactly when some row carries it. */
  lemma {:induction false} GroupByGroups<T>(rows: seq<T>, key: T -> string)
    ensures forall i :: 0 <= i < |GroupBy(rows, key)| ==>
      GroupBy(rows, key)[i].value == Select(rows, key, GroupBy(rows, key)[i].key)
      && |GroupBy(rows, key)[i].value| > 0
    ensures forall k :: HasKey(GroupBy(rows, key), k) <==> FirstIndex(rows, key, k) < |rows|
  {
    if |rows| > 0 {
      var prefix := rows[..|rows| - 1];
      var g0 := GroupBy(prefix, key);
      var r := rows[|rows| - 1];
      assert rows == prefix + [r];
      GroupByGroups(prefix, key);
      var g := GroupBy(rows, key);
      forall i | 0 <= i < |g|
        ensures g[i].value == Select(rows, key, g[i].key) && |g[i].value| > 0
      {
        if g[i].key != key(r) {
          assert i < |g0| && g[i] == g0[i];
        } else if HasKey(g0, key(r)) {
          assert g0[IndexOf(g0, key(r))].key == g[i].key;
        } else {
          SelectEmpty(prefix, key, key(r));
        }
      }
      forall k
        ensures HasKey(g, k) <==> FirstIndex(rows, key, k) < |rows|
      {
        FirstIndexSnoc(prefix, key, k, r);
      }
    }
  }

  /** Selecting a key that occurs nowhere gives nothing. */
  lemma {:induction false} SelectEmpty<T>(rows: seq<T>, key: T -> string, k: string)
    requires FirstIndex(rows, key, k) == |rows|
    ensures Select(rows, key, k) == []
  {
    if |rows| > 0 {
      var prefix := rows[..|rows| - 1];
      FirstIndexSnoc(prefix, key, k, rows[|rows| - 1]);
      assert prefix + [rows[|rows| - 1]] == rows;
      SelectEmpty(prefix, key, k);
    }
  }

  /** In a map with distinct keys, looking up a key finds the entry holding it. */
  lemma GetFinds<V>(es: seq<Entry<V>>, k: string, g: int)
    requires DistinctKeys(es)
    requires 0 <= g < |es| && es[g].key == k
    ensures Get(es, k) == Some(es[g].value)
  {
    assert k in Keys(es);
  }

  /** `groups.get(k) || []` is exactly the rows carrying `k`, in order. */
  lemma GroupByGet<T>(rows: seq<T>, key: T -> string, k: string)
    ensures Get(GroupBy(rows, key), k).GetOr([]) == Select(rows, key, k)
  {
    var groups := GroupBy(rows, key);
    GroupByGroups(rows, key);
    if FirstIndex(rows, key, k) < |rows| {
      assert k in Keys(groups);
      var g :| 0 <= g < |groups| && Keys(groups)[g] == k;
      GetFinds(groups, k, g);
    } else {
      SelectEmpty(rows, key, k);
    }
  }

  /** The first occurrence of a key in `rows + [r]`: unchanged when it occurs in
      `rows`, otherwise the new last position when `r` carries it. */
  lemma {:induction false} FirstIndexSnoc<T>(rows: seq<T>, key: T -> string, k: string, r: T)
    ensures FirstIndex(rows, key, k) < |rows| ==> FirstIndex(rows + [r], key, k) == FirstIndex(rows, key, k)
    ensures FirstIndex(rows, key, k) == |rows| ==>
      FirstIndex(rows + [r], key, k) == (if key(r) == k then |rows| else |rows| + 1)
  {
    if |rows| > 0 {
      assert (rows + [r])[0] == rows[0];
      if key(rows[0]) != k {
        assert (rows + [r])[1..] == rows[1..] + [r];
        FirstIndexSnoc(rows[1..], key, k, r);
      }
    }
  }

  /** Keys listed in the order of their first occurrence in `rows`, all of them
      occurring. */
  predicate InFirstOccurrenceOrder<T>(rows: seq<T>, key: T -> string, ks: seq<string>)
  {
    (forall i :: 0 <= i < |ks| ==> FirstIndex(rows, key, ks[i]) < |rows|)
    && (forall i, j :: 0 <= i < j < |ks| ==> FirstIndex(rows, key, ks[i]) < FirstIndex(rows, key, ks[j]))
  }

  /** Groups appear in the order of their key's first occurrence. */
  lemma {:induction false} GroupByOrder<T>(rows: seq<T>, key: T -> string)
    ensures InFirstOccurrenceOrder(rows, key, Keys(GroupBy(rows, key)))
  {
    if |rows| > 0 {
      var prefix := rows[..|rows| - 1];
      var r := rows[|rows| - 1];
      assert rows == prefix + [r];
      GroupByOrder(prefix, key);
      GroupByOrderStep(prefix, key, r, rows);
    } else {
      assert GroupBy(rows, key) == [];
    }
  }

  lemma GroupByOrderStep<T>(prefix: seq<T>, key: T -> string, r: T, rows: seq<T>)
    requires rows == prefix + [r]
    requires InFirstOccurrenceOrder(prefix, key, Keys(GroupBy(prefix, key)))
    ensures InFirstOccurrenceOrder(rows, key, Keys(GroupBy(rows, key)))
  {
    assert rows[..|rows| - 1] == prefix;
    var g0 := GroupBy(prefix, key);
    var i := IndexOf(g0, key(r));
    assert GroupBy(rows, key) == Set(g0, key(r), if i < 0 then [r] else g0[i].value + [r]);
    GroupByHasKey(prefix, key, key(r));
    OrderSnoc(prefix, key, Keys(g0), r);
  }

  /** A key has a group exactly when some row carries it. */
  lemma GroupByHasKey<T>(rows: seq<T>, key: T -> string, k: string)
    ensures HasKey(GroupBy(rows, key), k) <==> FirstIndex(rows, key, k) < |rows|
  {
    GroupByGroups(rows, key);
  }

  lemma OrderSnoc<T>(rows: seq<T>, key: T -> string, ks: seq<string>, r: T)
    requires InFirstOccurrenceOrder(rows, key, ks)
    ensures InFirstOccurrenceOrder(rows + [r], key, ks)
    ensures FirstIndex(rows, key, key(r)) == |rows| ==>
      InFirstOccurrenceOrder(rows + [r], key, ks + [key(r)])
  {
    OrderSnocKeeps(rows, key, ks, r);
    if FirstIndex(rows, key, key(r)) == |rows| {
      FirstIndexSnoc(rows, key, key(r), r);
      OrderSnocNew(rows + [r], key, ks, key(r), |rows|);
    }
  }

  /** Appending a row moves no key's first occurrence. */
  lemma OrderSnocKeeps<T>(rows: seq<T>, key: T -> string, ks: seq<string>, r: T)
    requires InFirstOccurrenceOrder(rows, key, ks)
    ensures forall i :: 0 <= i < |ks| ==> FirstIndex(rows + [r], key, ks[i]) == FirstIndex(rows, key, ks[i]) < |rows|
  {
    forall i | 0 <= i < |ks|
      ensures FirstIndex(rows + [r], key, ks[i]) == FirstIndex(rows, key, ks[i]) < |rows|
    {
      FirstIndexSnoc(rows, key, ks[i], r);
    }
  }

  /** A key first occurring after every listed key may be listed last. */
  lemma OrderSnocNew<T>(rows: seq<T>, key: T -> string, ks: seq<string>, k: string, at: nat)
    requires InFirstOccurrenceOrder(rows, key, ks)
    requires forall i :: 0 <= i < |ks| ==> FirstIndex(rows, key, ks[i]) < at
    requires FirstIndex(rows, key, k) == at < |rows|
    ensures InFirstOccurrenceOrder(rows, key, ks + [k])
  {
    var ks' := ks + [k];
    forall i | 0 <= i < |ks'| ensures FirstIndex(rows, key, ks'[i]) < |rows| {
      if i < |ks| {
        assert ks'[i] == ks[i];
      }
    }
    forall i, j | 0 <= i < j < |ks'| ensures FirstIndex(rows, key, ks'[i]) < FirstIndex(rows, key, ks'[j]) {
      assert ks'[i] == ks[i];
      if j < |ks| {
        assert ks'[j] == ks[j];
      }
    }
  }

  // ---------------------------------------------------------------------------
  // Latest row per key

  /** The loop `if (!existing || ts(row) > ts(existing)) m.set(k, row)`: a row
      replaces the kept one only when its timestamp is strictly later. */
  function LatestBy<T>(rows: seq<T>, key: T -> string, ts: T -> int): (m: seq<Entry<T>>)
    ensures DistinctKeys(m)
  {
    if |rows| == 0 then []
    else
      var m := LatestBy(rows[..|rows| - 1], key, ts);
      var r := rows[|rows| - 1];
      var existing := Get(m, key(r));
      if existing.None? || ts(r) > ts(existing.value) then Set(m, key(r), r) else m
  }

  /** Row `i` is the latest row with key `k`: no row with that key is later,
      and every earlier one is strictly older. */
  predicate IsLatest<T>(rows: seq<T>, key: T -> string, ts: T -> int, k: string, i: int)
  {
    0 <= i < |rows| && key(rows[i]) == k
    && (forall j :: 0 <= j < |rows| && key(rows[j]) == k ==> ts(rows[j]) <= ts(rows[i]))
    && (forall j :: 0 <= j < i && key(rows[j]) == k ==> ts(rows[j]) < ts(rows[i]))
  }

  /** At most one row is the latest for a key. */
  lemma LatestIsUnique<T>(rows: seq<T>, key: T -> string, ts: T -> int, k: string, i: int, i': int)
    requires IsLatest(rows, key, ts, k, i) && IsLatest(rows, key, ts, k, i')
    ensures i == i'
  {
  }

  /** The kept map has the same keys, in the same order, as the grouping. */
  lemma {:induction false} LatestByKeys<T>(rows: seq<T>, key: T -> string, ts: T -> int)
    ensures Keys(LatestBy(rows, key, ts)) == Keys(GroupBy(rows, key))
  {
    if |rows| > 0 {
      LatestByKeys(rows[..|rows| - 1], key, ts);
    }
  }

  /** Every kept entry holds the latest row of its key. */
  ghost predicate KeptAreLatest<T>(rows: seq<T>, key: T -> string, ts: T -> int, kept: seq<Entry<T>>)
  {
    forall p :: 0 <= p < |kept| ==>
      exists i :: IsLatest(rows, key, ts, kept[p].key, i) && rows[i] == kept[p].value
  }

  /** For every key the kept row is its latest row, the earliest one on a tie. */
  lemma {:induction false} LatestByLatest<T>(rows: seq<T>, key: T -> string, ts: T -> int)
    ensures KeptAreLatest(rows, key, ts, LatestBy(rows, key, ts))
  {
    if |rows| > 0 {
      var prefix := rows[..|rows| - 1];
      var r := rows[|rows| - 1];
      assert rows == prefix + [r];
      LatestByLatest(prefix, key, ts);
      LatestByStep(prefix, key, ts, r, rows);
    } else {
      assert LatestBy(rows, key, ts) == [];
    }
  }

  lemma LatestByStep<T>(prefix: seq<T>, key: T -> string, ts: T -> int, r: T, rows: seq<T>)
    requires rows == prefix + [r]
    requires KeptAreLatest(prefix, key, ts, LatestBy(prefix, key, ts))
    ensures KeptAreLatest(rows, key, ts, LatestBy(rows, key, ts))
  {
    forall p | 0 <= p < |LatestBy(rows, key, ts)|
      ensures exists i :: IsLatest(rows, key, ts, LatestBy(rows, key, ts)[p].key, i)
                       && rows[i] == LatestBy(rows, key, ts)[p].value
    {
      LatestEntryStep(prefix, key, ts, r, rows, p);
    }
  }

  /** One entry of the kept map after one more row, from the entries before. */
  lemma LatestEntryStep<T>(prefix: seq<T>, key: T -> string, ts: T -> int, r: T, rows: seq<T>, p: int)
    requires rows == prefix + [r]
    requires KeptAreLatest(prefix, key, ts, LatestBy(prefix, key, ts))
    requires 0 <= p < |LatestBy(rows, key, ts)|
    ensures exists i :: IsLatest(rows, key, ts, LatestBy(rows, key, ts)[p].key, i)
                     && rows[i] == LatestBy(rows, key, ts)[p].value
  {
    assert rows[..|rows| - 1] == prefix && rows[|rows| - 1] == r;
    var m0 := LatestBy(prefix, key, ts);
    var m := LatestBy(rows, key, ts);
    var k := m[p].key;
    if k != key(r) {
      assert p < |m0| && m0[p] == m[p];
      var i :| IsLatest(prefix, key, ts, k, i) && prefix[i] == m[p].value;
      LatestSnocOther(prefix, key, ts, k, i, r);
    } else if !HasKey(m0, k) {
      LatestByKeys(prefix, key, ts);
      GroupByGroups(prefix, key);
      LatestSnocNew(prefix, key, ts, r);
    } else {
      var q := IndexOf(m0, k);
      var i :| IsLatest(prefix, key, ts, k, i) && prefix[i] == m0[q].value;
      LatestSnocSame(prefix, key, ts, i, r);
    }
  }

  lemma LatestSnocOther<T>(rows: seq<T>, key: T -> string, ts: T -> int, k: string, i: int, r: T)
    requires IsLatest(rows, key, ts, k, i) && key(r) != k
    ensures IsLatest(rows + [r], key, ts, k, i) && (rows + [r])[i] == rows[i]
  {
  }

  lemma LatestSnocNew<T>(rows: seq<T>, key: T -> string, ts: T -> int, r: T)
    requires FirstIndex(rows, key, key(r)) == |rows|
    ensures IsLatest(rows + [r], key, ts, key(r), |rows|) && (rows + [r])[|rows|] == r
  {
  }

  /** A later row with the kept key replaces it; an equal or older one does not. */
  lemma LatestSnocSame<T>(rows: seq<T>, key: T -> string, ts: T -> int, i: int, r: T)
    requires IsLatest(rows, key, ts, key(r), i)
    ensures ts(r) > ts(rows[i]) ==> IsLatest(rows + [r], key, ts, key(r), |rows|) && (rows + [r])[|rows|] == r
    ensures ts(r) <= ts(rows[i]) ==> IsLatest(rows + [r], key, ts, key(r), i) && (rows + [r])[i] == rows[i]
  {
  }
}
