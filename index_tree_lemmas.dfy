/**
 * IndexTreeLemmas: what IndexTree's operations do on a tree that is a single root leaf with
 * sorted entries (the tree as the manager creates it, and as it stays until the first split):
 * Insert keeps the entries sorted and Get then finds the key, a unique key is refused twice,
 * Get finds exactly the keys present, Delete(key) removes the first entry with the key, and
 * the scans of GetAll and GetExactMatch yield the entries in order from the place the search
 * points at.
 */
module IndexTreeLemmas {
  import opened Errors
  import opened Comparers
  import opened TreeArena
  import opened TreeNodes
  import opened TreeNodeLemmas
  import opened TreeEnumerators
  import opened TreeEnumeratorLemmas
  import opened TreeScanners
  import opened IndexTrees
  import ListExtensions
  import TreeEntryComparer
  import Bytes

  /** The tree is the root id alone: a leaf without a parent. */
  ghost predicate RootLeaf<K, V>(a: Arena<K, V>, id: nat)
  {
    a.root == Some(id) && id in a.heap && a.heap[id].IsLeaf() && a.heap[id].parentId == 0
  }

  /** Some entry has a key level with key. */
  ghost predicate HasKey<K, V>(entries: seq<(K, V)>, key: K, cmp: Comparer<K>)
  {
    exists j | 0 <= j < |entries| :: cmp(entries[j].0, key) == 0
  }

  /** On sorted entries the search by key hits exactly when the key is present. */
  lemma KeySearchHits<K(!new), V>(entries: seq<(K, V)>, key: K, cmp: Comparer<K>)
    requires IsComparer(cmp) && SortedEntries(entries, cmp)
    ensures KeySearch(entries, key, cmp) >= 0 <==> HasKey(entries, key, cmp)
  {
    var keys := TreeEntryComparer.Keys(entries);
    ListExtensions.BinarySearchFindsPresent(keys, key, cmp);
    if HasKey(entries, key, cmp) {
      var j :| 0 <= j < |entries| && cmp(entries[j].0, key) == 0;
      assert cmp(keys[j], key) == 0;
    }
  }

  /** FindNode at a root leaf stops there, at the search result. */
  lemma FindNodeAtRootLeaf<K, V>(a: Arena<K, V>, id: nat, key: K, dup: bool, cmp: Comparer<K>)
    requires RootLeaf(a, id)
    ensures FindNode(a, key, id, dup, cmp, |a.heap|) == Ok((id, KeySearch(a.heap[id].entries, key, cmp)))
  {
  }

  /** In unique mode, inserting a key the root leaf already holds is refused and changes nothing. */
  lemma InsertPresentKeyRefused<K(!new), V>(a: Arena<K, V>, id: nat, key: K, value: V, min: nat, cmp: Comparer<K>)
    requires RootLeaf(a, id) && IsComparer(cmp) && SortedEntries(a.heap[id].entries, cmp)
    requires HasKey(a.heap[id].entries, key, cmp)
    ensures InsertInto(a, key, value, false, min, cmp) == (Fail(TreeKeyExists), a)
  {
    FindNodeAtRootLeaf(a, id, key, false, cmp);
    KeySearchHits(a.heap[id].entries, key, cmp);
  }

  /**
   * Inserting into a root leaf with room to spare: the entry goes in at the search position,
   * the entries stay sorted, and no other node changes.
   */
  lemma InsertIntoRootLeaf<K(!new), V>(a: Arena<K, V>, id: nat, key: K, value: V, dup: bool, min: nat, cmp: Comparer<K>)
    requires RootLeaf(a, id) && IsComparer(cmp) && SortedEntries(a.heap[id].entries, cmp)
    requires dup || !HasKey(a.heap[id].entries, key, cmp)
    requires |a.heap[id].entries| < MaxEntries(min)
    ensures var (s, e) := InsertInto(a, key, value, dup, min, cmp);
      var E := a.heap[id].entries;
      var p := InsertIndex(KeySearch(E, key, cmp));
      s == Done && RootLeaf(e, id) && e.heap[id].entries == InsertAt(E, p, (key, value))
      && SortedEntries(e.heap[id].entries, cmp)
      && e.heap.Keys == a.heap.Keys && e.deleted == a.deleted
      && (forall i | i in a.heap && i != id :: e.heap[i] == a.heap[i])
  {
    var E := a.heap[id].entries;
    FindNodeAtRootLeaf(a, id, key, dup, cmp);
    KeySearchHits(E, key, cmp);
    InsertAsLeafKeepsOrder(a, id, key, value, cmp);
  }

  /** On a sorted root leaf, Get finds an entry exactly when one has the key. */
  lemma GetAtRootLeaf<K(!new), V>(a: Arena<K, V>, id: nat, key: K, dup: bool, cmp: Comparer<K>)
    requires RootLeaf(a, id) && IsComparer(cmp) && SortedEntries(a.heap[id].entries, cmp)
    ensures GetIn(a, key, dup, cmp).Ok?
    ensures GetIn(a, key, dup, cmp).value.Some? <==> HasKey(a.heap[id].entries, key, cmp)
  {
    FindNodeAtRootLeaf(a, id, key, dup, cmp);
    KeySearchHits(a.heap[id].entries, key, cmp);
  }

  /**
   * Insert then Get: after an insertion into a root leaf, Get finds the key; with unique keys
   * it finds exactly the entry inserted.
   */
  lemma InsertThenGet<K(!new), V>(a: Arena<K, V>, id: nat, key: K, value: V, dup: bool, min: nat, cmp: Comparer<K>)
    requires RootLeaf(a, id) && IsComparer(cmp) && SortedEntries(a.heap[id].entries, cmp)
    requires dup || !HasKey(a.heap[id].entries, key, cmp)
    requires |a.heap[id].entries| < MaxEntries(min)
    ensures var e := InsertInto(a, key, value, dup, min, cmp).1;
      GetIn(e, key, dup, cmp).Ok? && GetIn(e, key, dup, cmp).value.Some?
      && (!dup ==> GetIn(e, key, dup, cmp) == Ok(Some((key, value))))
  {
    InsertIntoRootLeaf(a, id, key, value, dup, min, cmp);
    var e := InsertInto(a, key, value, dup, min, cmp).1;
    var E := a.heap[id].entries;
    var p := InsertIndex(KeySearch(E, key, cmp));
    var E1 := e.heap[id].entries;
    Reflexive(cmp, key);
    assert E1[p] == (key, value);
    assert HasKey(E1, key, cmp);
    GetAtRootLeaf(e, id, key, dup, cmp);
    FindNodeAtRootLeaf(e, id, key, dup, cmp);
    if !dup {
      InsertedKeyAlone(E, p, key, value, cmp);
    }
  }

  /** A key inserted into entries that lack it is found at the insertion point and nowhere else. */
  lemma InsertedKeyAlone<K, V>(E: seq<(K, V)>, p: nat, key: K, value: V, cmp: Comparer<K>)
    requires p <= |E| && !HasKey(E, key, cmp)
    ensures forall k | 0 <= k < |E| + 1 && k != p :: cmp(InsertAt(E, p, (key, value))[k].0, key) != 0
  {
    InsertAtShifts(E, p, (key, value));
    var E1 := InsertAt(E, p, (key, value));
    forall k | 0 <= k < |E1| && k != p
      ensures cmp(E1[k].0, key) != 0
    {
      if k < p {
        assert E1[k] == E[k];
      } else {
        assert E1[k] == E[k - 1];
      }
    }
  }

  /**
   * Where a first-occurrence search leaves the ascending scan, on sorted keys: the keys before
   * it are below key and the keys from it on are not; the key there is level with key exactly
   * when the search hit.
   */
  lemma FirstSplit<T(!new)>(keys: seq<T>, key: T, cmp: Comparer<T>)
    requires IsComparer(cmp) && Sorted(keys, cmp)
    ensures var f := ListExtensions.FirstOccurrence(keys, key, cmp);
      var s := if f >= 0 then f else -f - 1;
      0 <= s <= |keys|
      && (forall j | 0 <= j < s :: cmp(keys[j], key) < 0)
      && (forall j | s <= j < |keys| :: cmp(keys[j], key) >= 0)
      && (s < |keys| ==> (cmp(keys[s], key) == 0 <==> f >= 0))
  {
    var m, n := ListExtensions.OccurrenceBounds(keys, key, cmp);
  }

  /**
   * Where a last-occurrence search leaves the descending scan, on sorted keys: the keys before
   * it are not above key and the keys from it on are above it.
   */
  lemma LastSplit<T(!new)>(keys: seq<T>, key: T, cmp: Comparer<T>)
    requires IsComparer(cmp) && Sorted(keys, cmp)
    ensures var l := ListExtensions.LastOccurrence(keys, key, cmp);
      var t := if l >= 0 then l + 1 else -l - 1;
      0 <= t <= |keys|
      && (forall j | 0 <= j < t :: cmp(keys[j], key) <= 0)
      && (forall j | t <= j < |keys| :: cmp(keys[j], key) > 0)
  {
    var m, n := ListExtensions.OccurrenceBounds(keys, key, cmp);
  }

  /** GetExactMatch at a root leaf: the start index comes from the occurrence search there. */
  lemma ExactStartAtRootLeaf<K, V>(a: Arena<K, V>, id: nat, key: K, ascending: bool, cmp: Comparer<K>)
    requires RootLeaf(a, id)
    ensures var r := OccurrenceSearch(a.heap[id].entries, key, ascending, cmp);
      ExactStart(a, key, ascending, cmp)
      == Ok((id, if ascending then (if r >= 0 then r else -r - 1) - 1 else if r >= 0 then r + 1 else -r - 1))
  {
  }

  /**
   * Delete(key) on a sorted root leaf in unique mode: with the key present, the first entry
   * holding it is removed and the answer is true; without it, nothing changes and the answer
   * is false.
   */
  lemma DeleteKeyAtRootLeaf<K(!new), V>(a: Arena<K, V>, id: nat, key: K, min: nat, cmp: Comparer<K>)
    requires RootLeaf(a, id) && IsComparer(cmp) && SortedEntries(a.heap[id].entries, cmp)
    ensures var (r, e) := DeleteKeyFrom(a, key, false, min, cmp);
      var E := a.heap[id].entries;
      var f := ListExtensions.FirstOccurrence(TreeEntryComparer.Keys(E), key, cmp);
      (HasKey(E, key, cmp) ==> 0 <= f < |E| && r == Ok(true) && e == Put(a, id, a.heap[id].(entries := RemoveAt(E, f))))
      && (!HasKey(E, key, cmp) ==> r == Ok(false) && e == a)
  {
    var E := a.heap[id].entries;
    var f := ListExtensions.FirstOccurrence(TreeEntryComparer.Keys(E), key, cmp);
    DeleteStartAtRootLeaf(a, id, key, cmp);
    if HasKey(E, key, cmp) {
      RemoveAtRootLeaf(a, id, f, min);
    }
  }

  /**
   * The step Delete(key) takes from GetExactMatch's start at a sorted root leaf: it yields an
   * entry level with key exactly when the key is present, and that entry is its first occurrence.
   */
  lemma DeleteStartAtRootLeaf<K(!new), V>(a: Arena<K, V>, id: nat, key: K, cmp: Comparer<K>)
    requires RootLeaf(a, id) && IsComparer(cmp) && SortedEntries(a.heap[id].entries, cmp)
    ensures var E := a.heap[id].entries;
      var f := ListExtensions.FirstOccurrence(TreeEntryComparer.Keys(E), key, cmp);
      ExactStart(a, key, true, cmp).Ok? && ExactStart(a, key, true, cmp).value.0 == id
      && var (m, q) := NextStep(a, Start(id, ExactStart(a, key, true, cmp).value.1), true);
      m.Ok?
      && (HasKey(E, key, cmp) <==> m.value && cmp(key, q.entry.value.0) == 0)
      && (HasKey(E, key, cmp) ==> 0 <= f < |E| && q.node == id && q.index == f)
  {
    var E := a.heap[id].entries;
    var keys := TreeEntryComparer.Keys(E);
    var f := ListExtensions.FirstOccurrence(keys, key, cmp);
    KeySearchHits(E, key, cmp);
    FirstSplit(keys, key, cmp);
    ExactStartAtRootLeaf(a, id, key, true, cmp);
    var s := if f >= 0 then f else -f - 1;
    HeapNotEmpty(a, id);
    if s < |E| {
      AscendInLeaf(a, Start(id, s - 1));
      assert cmp(keys[s], key) == 0 <==> cmp(key, E[s].0) == 0;
    }
  }

  /** Removing an entry from a root leaf takes it out and needs no rebalancing. */
  lemma RemoveAtRootLeaf<K, V>(a: Arena<K, V>, id: nat, i: nat, min: nat)
    requires RootLeaf(a, id) && i < |a.heap[id].entries|
    ensures Remove(a, id, i, min, |a.heap|)
      == (Done, Put(a, id, a.heap[id].(entries := RemoveAt(a.heap[id].entries, i))))
  {
  }

  /** On a root leaf the full scans start before the first entry and after the last. */
  lemma ScanStartsAtRootLeaf<K, V>(a: Arena<K, V>, id: nat)
    requires RootLeaf(a, id)
    ensures ScanStart(a, true) == Ok((id, -1))
    ensures ScanStart(a, false) == Ok((id, |a.heap[id].entries|))
  {
  }

  /**
   * GetAll on a root leaf: the ascending scan yields the entries in order and the descending
   * one yields them in reverse, and each then finishes.
   */
  lemma GetAllAtRootLeaf<K, V>(a: Arena<K, V>, id: nat)
    requires RootLeaf(a, id)
    ensures var E := a.heap[id].entries;
      var up := Walk(a, Start(id, -1), true, |E| + 1);
      var down := Walk(a, Start(id, |E|), false, |E| + 1);
      up.0 == Ok(E) && up.1.finished && down.0 == Ok(Bytes.Reverse(E)) && down.1.finished
  {
    var E := a.heap[id].entries;
    LeafWalkAscending(a, id, 0, None);
    LeafWalkDescending(a, id, |E|, None);
    assert E[0..] == E && E[..|E|] == E;
  }


  /** From the start GetExactMatch(key, true) computes at a root leaf, the scan runs to the end. */
  lemma AscendingScanFromExactStart<K, V>(a: Arena<K, V>, id: nat, key: K, cmp: Comparer<K>)
    requires RootLeaf(a, id)
    ensures var E := a.heap[id].entries;
      ExactStart(a, key, true, cmp).Ok? && ExactStart(a, key, true, cmp).value.0 == id
      && var s := ExactStart(a, key, true, cmp).value.1 + 1;
      0 <= s <= |E| && Walk(a, Start(id, s - 1), true, |E| - s + 1).0 == Ok(E[s..])
  {
    ExactStartAtRootLeaf(a, id, key, true, cmp);
    var s := ExactStart(a, key, true, cmp).value.1 + 1;
    LeafWalkAscending(a, id, s, None);
    assert Start<K, V>(id, s - 1) == Position(id, s as int - 1, None, false);
  }

  /** On sorted entries, the start GetExactMatch(key, true) computes separates the keys below key. */
  lemma AscendingExactStartSplits<K(!new), V>(a: Arena<K, V>, id: nat, key: K, cmp: Comparer<K>)
    requires RootLeaf(a, id) && IsComparer(cmp) && SortedEntries(a.heap[id].entries, cmp)
    ensures var E := a.heap[id].entries;
      ExactStart(a, key, true, cmp).Ok?
      && var s := ExactStart(a, key, true, cmp).value.1 + 1;
      (forall j | 0 <= j < s && j < |E| :: cmp(E[j].0, key) < 0)
      && (forall j | 0 <= s <= j < |E| :: cmp(E[j].0, key) >= 0)
  {
    FirstSplit(TreeEntryComparer.Keys(a.heap[id].entries), key, cmp);
    ExactStartAtRootLeaf(a, id, key, true, cmp);
  }

  /**
   * GetExactMatch(key, true) on a sorted root leaf yields, in order, exactly the entries whose
   * key is not below key: those before the start are below it, those from it on are not.
   */
  lemma ExactMatchAscendingAtRootLeaf<K(!new), V>(a: Arena<K, V>, id: nat, key: K, cmp: Comparer<K>)
    requires RootLeaf(a, id) && IsComparer(cmp) && SortedEntries(a.heap[id].entries, cmp)
    ensures var E := a.heap[id].entries;
      ExactStart(a, key, true, cmp).Ok? && ExactStart(a, key, true, cmp).value.0 == id
      && var s := ExactStart(a, key, true, cmp).value.1 + 1;
      0 <= s <= |E|
      && Walk(a, Start(id, s - 1), true, |E| - s + 1).0 == Ok(E[s..])
      && (forall j | 0 <= j < s :: cmp(E[j].0, key) < 0)
      && (forall j | s <= j < |E| :: cmp(E[j].0, key) >= 0)
  {
    AscendingScanFromExactStart(a, id, key, cmp);
    AscendingExactStartSplits(a, id, key, cmp);
  }

  /** From the start GetExactMatch(key, false) computes at a root leaf, the scan runs back to the first entry. */
  lemma DescendingScanFromExactStart<K, V>(a: Arena<K, V>, id: nat, key: K, cmp: Comparer<K>)
    requires RootLeaf(a, id)
    ensures var E := a.heap[id].entries;
      ExactStart(a, key, false, cmp).Ok? && ExactStart(a, key, false, cmp).value.0 == id
      && var t := ExactStart(a, key, false, cmp).value.1;
      0 <= t <= |E| && Walk(a, Start(id, t), false, t + 1).0 == Ok(Bytes.Reverse(E[..t]))
  {
    ExactStartAtRootLeaf(a, id, key, false, cmp);
    var t := ExactStart(a, key, false, cmp).value.1;
    LeafWalkDescending(a, id, t, None);
    assert Start<K, V>(id, t) == Position(id, t, None, false);
  }

  /** On sorted entries, the start GetExactMatch(key, false) computes separates the keys above key. */
  lemma DescendingExactStartSplits<K(!new), V>(a: Arena<K, V>, id: nat, key: K, cmp: Comparer<K>)
    requires RootLeaf(a, id) && IsComparer(cmp) && SortedEntries(a.heap[id].entries, cmp)
    ensures var E := a.heap[id].entries;
      ExactStart(a, key, false, cmp).Ok?
      && var t := ExactStart(a, key, false, cmp).value.1;
      (forall j | 0 <= j < t && j < |E| :: cmp(E[j].0, key) <= 0)
      && (forall j | 0 <= t <= j < |E| :: cmp(E[j].0, key) > 0)
  {
    LastSplit(TreeEntryComparer.Keys(a.heap[id].entries), key, cmp);
    ExactStartAtRootLeaf(a, id, key, false, cmp);
  }

  /**
   * GetExactMatch(key, false) on a sorted root leaf yields, from the last back to the first,
   * exactly the entries whose key is not above key.
   */
  lemma ExactMatchDescendingAtRootLeaf<K(!new), V>(a: Arena<K, V>, id: nat, key: K, cmp: Comparer<K>)
    requires RootLeaf(a, id) && IsComparer(cmp) && SortedEntries(a.heap[id].entries, cmp)
    ensures var E := a.heap[id].entries;
      ExactStart(a, key, false, cmp).Ok? && ExactStart(a, key, false, cmp).value.0 == id
      && var t := ExactStart(a, key, false, cmp).value.1;
      0 <= t <= |E|
      && Walk(a, Start(id, t), false, t + 1).0 == Ok(Bytes.Reverse(E[..t]))
      && (forall j | 0 <= j < t :: cmp(E[j].0, key) <= 0)
      && (forall j | t <= j < |E| :: cmp(E[j].0, key) > 0)
  {
    DescendingScanFromExactStart(a, id, key, cmp);
    DescendingExactStartSplits(a, id, key, cmp);
  }
}
