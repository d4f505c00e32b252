/** TreeEntryComparer<K, V>: orders the (key, value) entries of a tree node by key alone. */
module TreeEntryComparer {
  import opened Comparers
  import ListExtensions

  function Compare<K, V>(keyComparer: Comparer<K>, x: (K, V), y: (K, V)): int
  {
    keyComparer(x.0, y.0)
  }

  /** The order of two entries is the order of their keys; their values play no part. */
  lemma CompareByKeyOnly<K, V>(keyComparer: Comparer<K>, x: (K, V), y: (K, V), v: V, w: V)
    ensures Compare(keyComparer, x, y) == keyComparer(x.0, y.0)
    ensures Compare(keyComparer, x, y) == Compare(keyComparer, (x.0, v), (y.0, w))
  {
  }

  /** The comparer over entries made from a comparer over keys. */
  function EntryComparer<K, V>(keyComparer: Comparer<K>): Comparer<(K, V)>
  {
    (x: (K, V), y: (K, V)) => Compare(keyComparer, x, y)
  }

  /** Entries whose keys are level compare as 0, whatever their values. */
  lemma EqualKeysCompareZero<K(!new), V>(keyComparer: Comparer<K>, k: K, v: V, w: V)
    requires IsComparer(keyComparer)
    ensures Compare(keyComparer, (k, v), (k, w)) == 0
  {
    Reflexive(keyComparer, k);
  }

  /** The comparer laws carry over from keys to entries. */
  lemma EntryComparerIsComparer<K(!new), V(!new)>(keyComparer: Comparer<K>)
    requires IsComparer(keyComparer)
    ensures IsComparer(EntryComparer<K, V>(keyComparer))
  {
    var e := EntryComparer<K, V>(keyComparer);
    forall a: (K, V), b: (K, V) ensures e(a, b) < 0 <==> e(b, a) > 0 {
      assert keyComparer(a.0, b.0) < 0 <==> keyComparer(b.0, a.0) > 0;
    }
    forall a: (K, V), b: (K, V), c: (K, V) ensures TransitiveAt(e, a, b, c) {
      Transitive(keyComparer, a.0, b.0, c.0);
    }
  }

  /** The keys of a list of entries, in order. */
  function Keys<K, V>(entries: seq<(K, V)>): (r: seq<K>)
    ensures |r| == |entries| && forall i | 0 <= i < |entries| :: r[i] == entries[i].0
  {
    seq(|entries|, i requires 0 <= i < |entries| => entries[i].0)
  }

  /** Searching entries for a probe entry is searching their keys for the probe's key. */
  lemma {:induction false} SearchByKey<K, V>(entries: seq<(K, V)>, probe: (K, V), keyComparer: Comparer<K>, lo: int, hi: int)
    requires 0 <= lo <= hi + 1 <= |entries|
    ensures ListExtensions.Search(entries, probe, EntryComparer(keyComparer), lo, hi)
         == ListExtensions.Search(Keys(entries), probe.0, keyComparer, lo, hi)
    decreases hi - lo
  {
    if lo <= hi {
      var i := lo + (hi - lo) / 2;
      assert EntryComparer(keyComparer)(entries[i], probe) == keyComparer(Keys(entries)[i], probe.0);
      SearchByKey(entries, probe, keyComparer, i + 1, hi);
      SearchByKey(entries, probe, keyComparer, lo, i - 1);
    }
  }

  lemma BinarySearchByKey<K, V>(entries: seq<(K, V)>, probe: (K, V), keyComparer: Comparer<K>)
    ensures ListExtensions.BinarySearch(entries, probe, EntryComparer(keyComparer))
         == ListExtensions.BinarySearch(Keys(entries), probe.0, keyComparer)
  {
    SearchByKey(entries, probe, keyComparer, 0, |entries| - 1);
  }
}
