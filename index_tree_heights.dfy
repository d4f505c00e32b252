/**
 * IndexTreeHeights: IndexTree's Get and Insert, in unique-key mode, on a well-formed tree of any
 * height. Get finds an entry exactly when the tree holds the key; Insert refuses a key the tree
 * holds and changes nothing; an absent key whose leaf has room goes into that leaf, and the
 * tree then reads as before with the new entry at its place in key order, still sorted, so Get
 * finds exactly the entry inserted.
 */
module IndexTreeHeights {
  import opened Errors
  import opened Comparers
  import opened TreeArena
  import opened TreeNodes
  import opened TreeNodeLemmas
  import opened IndexTrees
  import opened IndexTreeLemmas
  import opened TreeShapes
  import opened TreePaths

  /** The leaf FindNode reaches for key from the root can take one more entry without splitting. */
  ghost predicate LeafHasRoom<K, V>(a: Arena<K, V>, key: K, min: nat, cmp: Comparer<K>)
  {
    a.root.Some? && a.root.value in a.heap
    && match FindNode(a, key, a.root.value, false, cmp, |a.heap|)
       case Ok(f) => |a.heap[f.0].entries| < MaxEntries(min)
       case Err(_) => false
  }

  /**
   * The search of a well-formed tree of height h that is a subtree (not the empty root leaf),
   * with fuel the number of node objects, which is enough.
   */
  lemma SearchTree<K(!new), V(!new)>(a: Arena<K, V>, h: nat, key: K, cmp: Comparer<K>)
    returns (before: seq<(K, V)>, after: seq<(K, V)>)
    requires WellFormed(a, h, cmp) && IsComparer(cmp) && Subtree(a, a.root.value, h)
    ensures Searched(a, a.root.value, h, key, cmp, FindNode(a, key, a.root.value, false, cmp, |a.heap|), before, after)
    ensures Contents(a, h) == Flat(a, a.root.value, h)
  {
    HeapHoldsSpine(a, a.root.value, h);
    before, after := SearchPath(a, a.root.value, h, key, cmp, |a.heap|);
  }

  /**
   * Get(key) on a well-formed tree succeeds, finds an entry exactly when the tree holds the
   * key, and what it finds is an entry of the tree.
   */
  lemma GetFindsContents<K(!new), V(!new)>(a: Arena<K, V>, h: nat, key: K, cmp: Comparer<K>)
    requires WellFormed(a, h, cmp) && IsComparer(cmp)
    ensures var g := GetIn(a, key, false, cmp);
      g.Ok? && (g.value.Some? <==> HasKey(Contents(a, h), key, cmp))
      && (g.value.Some? ==> g.value.value in Contents(a, h))
  {
    if Subtree(a, a.root.value, h) {
      var before, after := SearchTree(a, h, key, cmp);
    }
  }

  /** Insert(key, value) in unique mode refuses a key the tree holds and leaves the tree as it was. */
  lemma InsertPresentRefused<K(!new), V(!new)>(a: Arena<K, V>, h: nat, key: K, value: V, min: nat, cmp: Comparer<K>)
    requires WellFormed(a, h, cmp) && IsComparer(cmp) && HasKey(Contents(a, h), key, cmp)
    ensures InsertInto(a, key, value, false, min, cmp) == (Fail(TreeKeyExists), a)
  {
    if Subtree(a, a.root.value, h) {
      var before, after := SearchTree(a, h, key, cmp);
    }
  }

  /**
   * Insert(key, value) in unique mode of a key the tree lacks, when its leaf has room: the
   * insertion succeeds, the tree keeps its height and stays well formed, and its entries are
   * the old ones with the new entry at position p, every old entry before p below the key and
   * every one from p on above it.
   */
  lemma InsertAbsentKey<K(!new), V(!new)>(a: Arena<K, V>, h: nat, key: K, value: V, min: nat, cmp: Comparer<K>)
    returns (p: nat)
    requires WellFormed(a, h, cmp) && IsComparer(cmp) && !HasKey(Contents(a, h), key, cmp)
    requires LeafHasRoom(a, key, min, cmp)
    ensures var (s, e) := InsertInto(a, key, value, false, min, cmp);
      var c := Contents(a, h);
      s == Done && WellFormed(e, h, cmp) && p <= |c| && Contents(e, h) == InsertAt(c, p, (key, value))
      && KeysBelow(c[..p], key, cmp) && KeysAbove(c[p..], key, cmp)
  {
    var root := a.root.value;
    if Subtree(a, root, h) {
      var before, after := SearchTree(a, h, key, cmp);
      var (leaf, sr) := FindNode(a, key, root, false, cmp, |a.heap|).value;
      MissPlaces(a, key, value, min, cmp);
      p := InsertInLeaf(a, h, key, value, cmp, leaf, sr, before, after);
    } else {
      var E := a.heap[root].entries;
      assert FindNode(a, key, root, false, cmp, |a.heap|) == Ok((root, -1));
      assert InsertAt(E, 0, (key, value)) == [(key, value)];
      var e := InsertInto(a, key, value, false, min, cmp).1;
      assert e == Replace(a, root, [(key, value)]);
      assert Subtree(e, root, 0);
      p := 0;
    }
  }

  /**
   * The entry put at the miss point of the leaf a search ended at, between before and after:
   * the tree stays well formed and reads as before with the entry at its place in key order.
   */
  lemma InsertInLeaf<K(!new), V(!new)>(a: Arena<K, V>, h: nat, key: K, value: V, cmp: Comparer<K>,
                                       leaf: nat, sr: int, before: seq<(K, V)>, after: seq<(K, V)>)
    returns (p: nat)
    requires WellFormed(a, h, cmp) && IsComparer(cmp) && !HasKey(Contents(a, h), key, cmp)
    requires Subtree(a, a.root.value, h) && Contents(a, h) == Flat(a, a.root.value, h)
    requires sr < 0 && Between(a, a.root.value, h, key, cmp, leaf, sr, before, after)
    ensures var e := Replace(a, leaf, InsertAt(a.heap[leaf].entries, -sr - 1, (key, value)));
      var c := Contents(a, h);
      WellFormed(e, h, cmp) && p <= |c| && Contents(e, h) == InsertAt(c, p, (key, value))
      && KeysBelow(c[..p], key, cmp) && KeysAbove(c[p..], key, cmp)
  {
    var root := a.root.value;
    var c := Contents(a, h);
    var E := a.heap[leaf].entries;
    var i := -sr - 1;
    var E' := InsertAt(E, i, (key, value));
    var e := Replace(a, leaf, E');
    assert Subtree(e, root, h) && Flat(e, root, h) == before + E' + after;
    ReplaceKeepsTree(a, h, leaf, E');
    LeafSplits(E, key, cmp, c, before, after);
    p := InsertRegroups(c, before, E, after, i, (key, value));
    InsertGapSorted(c, p, key, value, cmp);
  }

  /** New entries for a node of the tree that keep it a subtree of height h keep it a tree of height h. */
  lemma ReplaceKeepsTree<K, V>(a: Arena<K, V>, h: nat, leaf: nat, E: seq<(K, V)>)
    requires Tree(a, h) && leaf in a.heap && Subtree(Replace(a, leaf, E), a.root.value, h)
    ensures Tree(Replace(a, leaf, E), h) && Contents(Replace(a, leaf, E), h) == Flat(Replace(a, leaf, E), a.root.value, h)
  {
    var e := Replace(a, leaf, E);
    assert e.heap[a.root.value].parentId == a.heap[a.root.value].parentId;
  }

  /** A miss at a leaf with room: Insert puts the entry at the miss point and changes nothing else. */
  lemma MissPlaces<K, V>(a: Arena<K, V>, key: K, value: V, min: nat, cmp: Comparer<K>)
    requires LeafHasRoom(a, key, min, cmp) && FindNode(a, key, a.root.value, false, cmp, |a.heap|).value.1 < 0
    ensures var (leaf, s) := FindNode(a, key, a.root.value, false, cmp, |a.heap|).value;
      InsertInto(a, key, value, false, min, cmp)
      == (Done, Replace(a, leaf, InsertAt(a.heap[leaf].entries, -s - 1, (key, value))))
  {
  }

  /** Inserting into the middle part of before, E, after at i inserts into the whole at |before| + i. */
  lemma InsertRegroups<T>(c: seq<T>, before: seq<T>, E: seq<T>, after: seq<T>, i: nat, x: T) returns (p: nat)
    requires c == before + E + after && i <= |E|
    ensures p == |before| + i && p <= |c|
    ensures before + InsertAt(E, i, x) + after == InsertAt(c, p, x)
    ensures c[..p] == before + E[..i] && c[p..] == E[i..] + after
  {
    p := |before| + i;
    assert c[..p] == before + E[..i];
    assert c[p..] == E[i..] + after;
  }

  /** The keys of E before the miss point are below key, those from it on above. */
  lemma LeafSplits<K(!new), V>(E: seq<(K, V)>, key: K, cmp: Comparer<K>, c: seq<(K, V)>, before: seq<(K, V)>, after: seq<(K, V)>)
    requires IsComparer(cmp) && SortedEntries(c, cmp) && c == before + E + after && !HasKey(c, key, cmp)
    requires KeySearch(E, key, cmp) < 0 && KeysBelow(before, key, cmp) && KeysAbove(after, key, cmp)
    ensures var i := -KeySearch(E, key, cmp) - 1;
      i <= |E| && KeysBelow(before + E[..i], key, cmp) && KeysAbove(E[i..] + after, key, cmp)
  {
    SortedSplit(before + E, after, cmp);
    SortedSplit(before, E, cmp);
    InsertIndexSplits(E, key, cmp);
    var i := -KeySearch(E, key, cmp) - 1;
    forall j | 0 <= j < |E| ensures cmp(E[j].0, key) != 0 {
      assert c[|before| + j] == E[j];
    }
    forall j | 0 <= j < |before + E[..i]| ensures cmp((before + E[..i])[j].0, key) < 0 {
      if j >= |before| {
        assert (before + E[..i])[j] == E[j - |before|];
      }
    }
    forall j | 0 <= j < |E[i..] + after| ensures cmp(key, (E[i..] + after)[j].0) < 0 {
      if j < |E| - i {
        assert (E[i..] + after)[j] == E[i + j];
        assert cmp(key, E[i + j].0) <= 0 && cmp(E[i + j].0, key) != 0;
      }
    }
  }

  /** A key strictly between the entries before p and those from p on keeps the entries sorted there. */
  lemma InsertGapSorted<K(!new), V>(c: seq<(K, V)>, p: nat, key: K, value: V, cmp: Comparer<K>)
    requires IsComparer(cmp) && SortedEntries(c, cmp) && p <= |c|
    requires KeysBelow(c[..p], key, cmp) && KeysAbove(c[p..], key, cmp)
    ensures SortedEntries(InsertAt(c, p, (key, value)), cmp)
  {
    forall j | 0 <= j < p ensures cmp(c[j].0, key) <= 0 {
      assert c[..p][j] == c[j];
    }
    forall j | p <= j < |c| ensures cmp(key, c[j].0) <= 0 {
      assert c[p..][j - p] == c[j];
    }
    InsertKeepsSorted(c, p, (key, value), cmp);
  }

  /** Inserting x holds key exactly when the entries held it or x has that key. */
  lemma HasKeyInsertAt<K, V>(c: seq<(K, V)>, p: nat, x: (K, V), key: K, cmp: Comparer<K>)
    requires p <= |c|
    ensures HasKey(InsertAt(c, p, x), key, cmp) <==> HasKey(c, key, cmp) || cmp(x.0, key) == 0
  {
    var c' := InsertAt(c, p, x);
    InsertAtShifts(c, p, x);
    if HasKey(c, key, cmp) {
      var j :| 0 <= j < |c| && cmp(c[j].0, key) == 0;
      if j >= p {
        assert c'[j + 1] == c[j];
      }
    }
    if HasKey(c', key, cmp) && cmp(x.0, key) != 0 {
      var j :| 0 <= j < |c'| && cmp(c'[j].0, key) == 0;
      if j > p {
        assert c[j - 1] == c'[j];
      }
    }
  }

  /**
   * Insert then Get on a well-formed tree in unique mode: after inserting a key the tree lacked,
   * into a leaf with room, Get finds exactly the entry inserted, and finds an entry for every
   * other key exactly when it did before.
   */
  lemma InsertThenGetAnyHeight<K(!new), V(!new)>(a: Arena<K, V>, h: nat, key: K, value: V, min: nat, cmp: Comparer<K>)
    requires WellFormed(a, h, cmp) && IsComparer(cmp) && !HasKey(Contents(a, h), key, cmp)
    requires LeafHasRoom(a, key, min, cmp)
    ensures var e := InsertInto(a, key, value, false, min, cmp).1;
      GetIn(e, key, false, cmp) == Ok(Some((key, value)))
    ensures var e := InsertInto(a, key, value, false, min, cmp).1;
      forall k | cmp(key, k) != 0 ::
        GetIn(e, k, false, cmp).Ok? && GetIn(a, k, false, cmp).Ok?
        && (GetIn(e, k, false, cmp).value.Some? <==> GetIn(a, k, false, cmp).value.Some?)
  {
    var p := InsertAbsentKey(a, h, key, value, min, cmp);
    var e := InsertInto(a, key, value, false, min, cmp).1;
    var c := Contents(a, h);
    var c' := Contents(e, h);
    Reflexive(cmp, key);
    assert c'[p] == (key, value);
    GetFindsContents(e, h, key, cmp);
    var x := GetIn(e, key, false, cmp).value.value;
    var j :| 0 <= j < |c'| && c'[j] == x;
    InsertAtShifts(c, p, (key, value));
    forall k | cmp(key, k) != 0
      ensures GetIn(e, k, false, cmp).Ok? && GetIn(a, k, false, cmp).Ok?
        && (GetIn(e, k, false, cmp).value.Some? <==> GetIn(a, k, false, cmp).value.Some?)
    {
      GetFindsContents(a, h, k, cmp);
      GetFindsContents(e, h, k, cmp);
      HasKeyInsertAt(c, p, (key, value), k, cmp);
    }
  }
}
