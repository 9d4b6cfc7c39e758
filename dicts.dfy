/**
 * Python dictionaries with string keys. A dictionary is its list of entries
 * in insertion order; assigning to a key that is already present replaces the
 * value where it stands, assigning to a new key appends it.
 */
module Dicts {
  import opened Wrappers

  type Dict<V> = seq<(string, V)>

  /** The keys, in iteration order (`list(d)`). */
  function Keys<V>(d: Dict<V>): seq<string>
  {
    seq(|d|, i requires 0 <= i < |d| => d[i].0)
  }

  ghost predicate UniqueKeys<V>(d: Dict<V>)
  {
    forall i, j :: 0 <= i < j < |d| ==> d[i].0 != d[j].0
  }

  /** Position of the first entry with key `k`, or -1 when there is none. */
  function IndexOf<V>(d: Dict<V>, k: string): (i: int)
    ensures -1 <= i < |d|
    ensures i == -1 ==> forall j :: 0 <= j < |d| ==> d[j].0 != k
    ensures i >= 0 ==> d[i].0 == k && forall j :: 0 <= j < i ==> d[j].0 != k
  {
    if d == [] then -1
    else
      var i := IndexOf(d[..|d| - 1], k);
      if i >= 0 then i
      else if d[|d| - 1].0 == k then |d| - 1
      else -1
  }

  /** `d.get(k)`. */
  function Get<V>(d: Dict<V>, k: string): Option<V>
  {
    var i := IndexOf(d, k);
    if i < 0 then None else Some(d[i].1)
  }

  /** In a dictionary every entry is what a lookup of its key returns. */
  lemma GetEntry<V>(d: Dict<V>, i: nat)
    requires UniqueKeys(d) && i < |d|
    ensures Get(d, d[i].0) == Some(d[i].1)
  {
  }

  lemma SameKeysSameIndex<V>(d: Dict<V>, e: Dict<V>, k: string)
    requires |d| == |e| && forall j :: 0 <= j < |d| ==> d[j].0 == e[j].0
    ensures IndexOf(d, k) == IndexOf(e, k)
  {
  }

  /** `d[k] = v`. */
  function Put<V>(d: Dict<V>, k: string, v: V): (r: Dict<V>)
    ensures Get(r, k) == Some(v)
    ensures forall k' :: k' != k ==> Get(r, k') == Get(d, k')
    ensures Keys(r) == if k in Keys(d) then Keys(d) else Keys(d) + [k]
    ensures UniqueKeys(d) ==> UniqueKeys(r)
  {
    var i := IndexOf(d, k);
    if i < 0 then
      var r := d + [(k, v)];
      assert r[..|r| - 1] == d;
      assert k !in Keys(d);
      assert Keys(r) == Keys(d) + [k];
      r
    else
      var r := d[i := (k, v)];
      assert forall k' :: k' != k ==> IndexOf(r, k') == IndexOf(d, k') by {
        forall k' | k' != k ensures IndexOf(r, k') == IndexOf(d, k') {
          SameKeysSameIndex(r, d, k');
        }
      }
      assert Keys(d)[i] == k;
      assert Keys(r) == Keys(d);
      r
  }

  /**
   * The dictionary that assigning `entries` one after the other leaves,
   * starting from `{}`.
   */
  function Build<V>(entries: seq<(string, V)>): (d: Dict<V>)
    ensures UniqueKeys(d)
  {
    if entries == [] then []
    else
      var last := entries[|entries| - 1];
      Put(Build(entries[..|entries| - 1]), last.0, last.1)
  }

  /** Entry `i` is the last of `entries` that assigns key `k`. */
  ghost predicate LastAssigns<V>(entries: seq<(string, V)>, i: int, k: string)
  {
    0 <= i < |entries| && entries[i].0 == k && forall j :: i < j < |entries| ==> entries[j].0 != k
  }

  /** No entry assigns `k` exactly when no earlier entry does and the last one does not. */
  lemma UnassignedSnoc<V>(entries: seq<(string, V)>, init: seq<(string, V)>, k: string)
    requires entries != [] && init == entries[..|entries| - 1]
    ensures (forall i :: 0 <= i < |entries| ==> entries[i].0 != k)
            <==> (forall i :: 0 <= i < |init| ==> init[i].0 != k) && entries[|entries| - 1].0 != k
  {
    assert forall i :: 0 <= i < |init| ==> init[i] == entries[i];
  }

  /** The last assignment of `k` is the final entry, or else the last one before it. */
  lemma LastAssignsSnoc<V>(entries: seq<(string, V)>, k: string, i: int)
    requires entries != [] && LastAssigns(entries, i, k)
    ensures entries[|entries| - 1].0 == k ==> i == |entries| - 1
    ensures entries[|entries| - 1].0 != k ==> LastAssigns(entries[..|entries| - 1], i, k)
  {
    if entries[|entries| - 1].0 != k {
      assert entries[..|entries| - 1][i] == entries[i];
    }
  }

  /**
   * A key is present exactly when some entry assigned it, and it holds the
   * value of the last such entry.
   */
  lemma {:induction false} BuildLookup<V>(entries: seq<(string, V)>, k: string)
    ensures Get(Build(entries), k).None? <==> forall i :: 0 <= i < |entries| ==> entries[i].0 != k
    ensures forall i :: LastAssigns(entries, i, k) ==> Get(Build(entries), k) == Some(entries[i].1)
  {
    if entries != [] {
      var n := |entries| - 1;
      var init := entries[..n];
      var last := entries[n];
      BuildLookup(init, k);
      UnassignedSnoc(entries, init, k);
      assert Build(entries) == Put(Build(init), last.0, last.1);
      forall i | LastAssigns(entries, i, k)
        ensures Get(Build(entries), k) == Some(entries[i].1)
      {
        LastAssignsSnoc(entries, k, i);
      }
    }
  }
}
