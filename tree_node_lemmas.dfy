/**
 * TreeNodeLemmas: what the node operations of TreeNodes do to a well-shaped part of a tree.
 *
 * Insertion keeps a node's keys sorted. Split divides an overflowing node around its middle
 * entry, which moves up. The rotations and the combination move entries and children across
 * a separator without changing their order; set side by side, the entries and child ids read
 * the same before and after.
 */
module TreeNodeLemmas {
  import opened Errors
  import opened Comparers
  import opened TreeArena
  import opened TreeNodes
  import ListExtensions
  import TreeEntryComparer

  /** The keys of a node's entries are sorted by cmp. */
  ghost predicate SortedEntries<K, V>(entries: seq<(K, V)>, cmp: Comparer<K>)
  {
    Sorted(TreeEntryComparer.Keys(entries), cmp)
  }

  /** IsLeaf and IsOverflow as the node manager's limits define them. */
  lemma LeafAndOverflow<K, V>(n: Node<K, V>, min: nat)
    requires min < 0x8000
    ensures n.IsLeaf() <==> |n.children| == 0
    ensures IsOverflow(n, min) <==> |n.entries| > 2 * min
  {
  }

  /**
   * The insertion index of a search of sorted entries splits them: every key before it is at
   * most the probe, every key from it on at least the probe.
   */
  lemma InsertIndexSplits<K(!new), V>(entries: seq<(K, V)>, key: K, cmp: Comparer<K>)
    requires IsComparer(cmp) && SortedEntries(entries, cmp)
    ensures var p := InsertIndex(KeySearch(entries, key, cmp));
      p <= |entries|
      && (forall j | 0 <= j < p :: cmp(entries[j].0, key) <= 0)
      && (forall j | p <= j < |entries| :: cmp(key, entries[j].0) <= 0)
  {
    var keys := TreeEntryComparer.Keys(entries);
    var s := KeySearch(entries, key, cmp);
    ListExtensions.BinarySearchFindsPresent(keys, key, cmp);
    if s >= 0 {
      assert cmp(keys[s], key) == 0;
      assert cmp(key, keys[s]) == 0 by {
        assert cmp(keys[s], key) < 0 <==> cmp(key, keys[s]) > 0;
        assert cmp(key, keys[s]) < 0 <==> cmp(keys[s], key) > 0;
      }
      forall j | 0 <= j < s ensures cmp(entries[j].0, key) <= 0 {
        assert cmp(keys[j], keys[s]) <= 0;
        Transitive(cmp, keys[j], keys[s], key);
      }
      forall j | s <= j < |entries| ensures cmp(key, entries[j].0) <= 0 {
        assert cmp(keys[s], keys[j]) <= 0;
        Transitive(cmp, key, keys[s], keys[j]);
      }
    } else {
      forall j | InsertIndex(s) <= j < |entries| ensures cmp(key, entries[j].0) <= 0 {
        assert cmp(keys[j], key) > 0;
      }
    }
  }

  /** Inserting a key where it splits a sorted list keeps the list sorted. */
  lemma InsertKeepsSorted<K(!new), V>(entries: seq<(K, V)>, p: nat, x: (K, V), cmp: Comparer<K>)
    requires IsComparer(cmp) && SortedEntries(entries, cmp) && p <= |entries|
    requires forall j | 0 <= j < p :: cmp(entries[j].0, x.0) <= 0
    requires forall j | p <= j < |entries| :: cmp(x.0, entries[j].0) <= 0
    ensures SortedEntries(InsertAt(entries, p, x), cmp)
  {
    var r := InsertAt(entries, p, x);
    InsertAtShifts(entries, p, x);
    var keys := TreeEntryComparer.Keys(entries);
    var rk := TreeEntryComparer.Keys(r);
    forall i, j | 0 <= i < j < |rk| ensures cmp(rk[i], rk[j]) <= 0 {
      if j < p {
        assert rk[i] == keys[i] && rk[j] == keys[j];
      } else if j == p {
        assert rk[i] == keys[i];
      } else if i < p {
        assert cmp(keys[i], x.0) <= 0 && cmp(x.0, keys[j - 1]) <= 0;
      } else if i == p {
        assert rk[j] == keys[j - 1];
      } else {
        assert rk[i] == keys[i - 1] && rk[j] == keys[j - 1];
      }
    }
  }

  /**
   * InsertAsLeaf at the insertion index of the key keeps a sorted leaf sorted; the entry goes
   * in there, the node keeps its children and parent, and no other node changes.
   */
  lemma InsertAsLeafKeepsOrder<K(!new), V>(a: Arena<K, V>, id: nat, key: K, value: V, cmp: Comparer<K>)
    requires id in a.heap && IsComparer(cmp) && SortedEntries(a.heap[id].entries, cmp)
    ensures var E := a.heap[id].entries;
      var p := InsertIndex(KeySearch(E, key, cmp));
      var (s, e) := InsertAsLeaf(a, id, key, value, p);
      s.Done? && e.heap[id].entries == InsertAt(E, p, (key, value)) && SortedEntries(e.heap[id].entries, cmp)
      && e.heap[id].children == a.heap[id].children && e.heap[id].parentId == a.heap[id].parentId
      && (forall i | i in a.heap && i != id :: e.heap[i] == a.heap[i])
  {
    var E := a.heap[id].entries;
    InsertIndexSplits(E, key, cmp);
    InsertKeepsSorted(E, InsertIndex(KeySearch(E, key, cmp)), (key, value), cmp);
  }

  /**
   * InsertAsParent on a node with one more child than entries: the entry goes in at its
   * insertion index p, left and right take children p and p + 1, the children after them
   * are the old children after p, and sorted keys stay sorted. When the child at p was
   * left, which is where a split child sits, right is inserted just after it.
   */
  lemma InsertAsParentPlacement<K(!new), V>(a: Arena<K, V>, id: nat, key: K, value: V, left: nat, right: nat,
                                            cmp: Comparer<K>)
    requires id in a.heap && IsComparer(cmp) && SortedEntries(a.heap[id].entries, cmp)
    requires |a.heap[id].children| == |a.heap[id].entries| + 1
    ensures var n := a.heap[id];
      var p := InsertIndex(KeySearch(n.entries, key, cmp));
      var (r, e) := InsertAsParent(a, id, key, value, left, right, cmp);
      r == Ok(p) && e.heap[id].entries == InsertAt(n.entries, p, (key, value))
      && SortedEntries(e.heap[id].entries, cmp)
      && e.heap[id].children == n.children[..p] + [left, right] + n.children[p + 1..]
      && (n.children[p] == left ==> e.heap[id].children == InsertAt(n.children, p + 1, right))
  {
    var n := a.heap[id];
    var p := InsertIndex(KeySearch(n.entries, key, cmp));
    InsertIndexSplits(n.entries, key, cmp);
    InsertKeepsSorted(n.entries, p, (key, value), cmp);
    var c := InsertAt(n.children, p, left);
    assert c[p + 1 := right] == n.children[..p] + [left, right] + n.children[p + 1..];
  }

  /** The child ids of a node are in the dictionary and are not the node itself. */
  ghost predicate ChildrenFound<K, V>(a: Arena<K, V>, id: nat)
    requires id in a.heap
  {
    forall k | 0 <= k < |a.heap[id].children| :: Held(a, a.heap[id].children[k]) && a.heap[id].children[k] != id
  }

  /** Children stay found when the dictionary only grows and the child list is the same. */
  lemma ChildrenStillFound<K, V>(a: Arena<K, V>, b: Arena<K, V>, x: nat)
    requires x in a.heap && x in b.heap && ChildrenFound(a, x)
    requires a.heap.Keys <= b.heap.Keys && b.deleted <= a.deleted && b.heap[x].children == a.heap[x].children
    ensures ChildrenFound(b, x)
  {
  }

  /** Inserting a found id other than the node itself into its children keeps them found. */
  lemma ChildrenFoundInsert<K, V>(a: Arena<K, V>, b: Arena<K, V>, x: nat, i: nat, y: nat)
    requires x in a.heap && x in b.heap && ChildrenFound(a, x) && i <= |a.heap[x].children|
    requires a.heap.Keys <= b.heap.Keys && b.deleted <= a.deleted && Held(b, y) && y != x
    requires b.heap[x].children == InsertAt(a.heap[x].children, i, y)
    ensures ChildrenFound(b, x)
  {
    var c := a.heap[x].children;
    var d := b.heap[x].children;
    InsertAtShifts(c, i, y);
    forall k | 0 <= k < |d| ensures Held(b, d[k]) && d[k] != x {
      if k < i {
        assert d[k] == c[k];
      } else if k > i {
        assert d[k] == c[k - 1];
      }
    }
  }

  /** A split hands over only children of the split node. */
  lemma MovedAreChildren<K, V>(n: Node<K, V>, h: nat, x: nat)
    requires x !in n.children
    ensures x !in Moved(n, h)
  {
  }

  /** The shape Split expects: 2h + 1 entries and, off a leaf, 2h + 2 found children. */
  ghost predicate SplitShape<K, V>(a: Arena<K, V>, id: nat, h: nat)
    requires id in a.heap
  {
    var n := a.heap[id];
    |n.entries| == 2 * h + 1 && (n.IsLeaf() || (|n.children| == 2 * h + 2 && ChildrenFound(a, id)))
  }

  /** The children a split of n around entry h hands to the new node. */
  ghost function Moved<K, V>(n: Node<K, V>, h: nat): seq<nat>
  {
    if n.IsLeaf() || |n.children| < h + 1 then [] else n.children[h + 1..]
  }

  /** What a split of n around entry h leaves in n: the entries before h and the children up to h. */
  ghost function Kept<K, V>(n: Node<K, V>, h: nat): Node<K, V>
  {
    n.(entries := if |n.entries| < h then n.entries else n.entries[..h],
       children := if n.IsLeaf() || |n.children| < h + 1 then n.children else n.children[..h + 1])
  }

  /** The ids the split of n around entry h hands over, as SplitOff computes them. */
  lemma LargeChildrenMoved<K, V>(n: Node<K, V>, h: nat)
    requires |n.entries| == 2 * h + 1 && (n.IsLeaf() || |n.children| == 2 * h + 2)
    ensures n.entries[h + 1..2 * h + 1] == n.entries[h + 1..]
    ensures (if n.IsLeaf() then [] else LargeChildren(n.children, h, h + 1)) == Moved(n, h)
  {
  }

  /**
   * The steps inside SplitOff on a node of SplitShape: the new node is created with the
   * larger half, and re-parenting its children succeeds, leaving the split node and the new
   * one as they were and re-parenting exactly the moved children.
   */
  lemma SplitOffSteps<K, V>(a: Arena<K, V>, id: nat, h: nat)
    requires Unused(a, a.counter) && id in a.heap && SplitShape(a, id, h)
    ensures var n := a.heap[id];
      var (large, a1) := Create(a, n.entries[h + 1..], Moved(n, h));
      var (s, a2) := Reparent(a1, Moved(n, h), large.id);
      s.Done? && a2.heap[id] == n && a2.heap[large.id] == large
      && a2.heap.Keys == a.heap.Keys + {large.id} && a2.deleted == a.deleted
      && a2.counter == a.counter + 1 && a2.root == a.root
      && forall i | i in a.heap && i != id ::
           a2.heap[i] == a.heap[i].(parentId := if i in Moved(n, h) then large.id else a.heap[i].parentId)
  {
    var n := a.heap[id];
    var moved := Moved(n, h);
    var (large, a1) := Create(a, n.entries[h + 1..], moved);
    MovedFound(a, id, h);
    assert forall k | 0 <= k < |moved| :: Held(a1, moved[k]) && moved[k] != large.id;
    ReparentEffect(a1, moved, large.id);
    assert id !in moved && large.id !in moved;
  }

  /** The children a split hands over are found, and none of them is the split node. */
  lemma MovedFound<K, V>(a: Arena<K, V>, id: nat, h: nat)
    requires id in a.heap && SplitShape(a, id, h)
    ensures var moved := Moved(a.heap[id], h);
      forall k | 0 <= k < |moved| :: Held(a, moved[k]) && moved[k] != id
  {
    var n := a.heap[id];
    var moved := Moved(n, h);
    if !n.IsLeaf() {
      assert forall k | 0 <= k < |moved| :: moved[k] == n.children[h + 1 + k];
    }
  }

  /**
   * Split's first half on a node of SplitShape: the new node, numbered by the counter, takes
   * the entries after the middle one and the children after the first h + 1; this node keeps
   * the rest.
   */
  lemma SplitOffShape<K, V>(a: Arena<K, V>, id: nat, h: nat)
    requires Unused(a, a.counter) && id in a.heap && SplitShape(a, id, h)
    ensures var n := a.heap[id];
      var (o, e) := SplitOff(a, id, h, h + 1);
      var large := a.counter;
      o == Ok((large, n.entries[h]))
      && e.heap[id] == Kept(n, h) && e.heap[large] == Node(large, 0, n.entries[h + 1..], Moved(n, h))
      && e.heap.Keys == a.heap.Keys + {large} && e.deleted == a.deleted
      && e.counter == a.counter + 1 && e.root == a.root
  {
    var n := a.heap[id];
    LargeChildrenMoved(n, h);
    SplitOffSteps(a, id, h);
  }

  /**
   * Split's first half re-parents exactly the moved children to the new node; every node but
   * the split one is otherwise left as it was.
   */
  lemma SplitOffFrame<K, V>(a: Arena<K, V>, id: nat, h: nat)
    requires Unused(a, a.counter) && id in a.heap && SplitShape(a, id, h)
    ensures var n := a.heap[id];
      var e := SplitOff(a, id, h, h + 1).1;
      forall i | i in a.heap && i != id ::
        e.heap[i] == a.heap[i].(parentId := if i in Moved(n, h) then a.counter else a.heap[i].parentId)
  {
    var n := a.heap[id];
    LargeChildrenMoved(n, h);
    SplitOffSteps(a, id, h);
  }


  /** Side by side with the middle entry, the two halves hold the old entries and children. */
  lemma SplitHalves<K, V>(n: Node<K, V>, h: nat)
    requires |n.entries| == 2 * h + 1 && (n.IsLeaf() || |n.children| == 2 * h + 2)
    ensures Kept(n, h).entries + [n.entries[h]] + n.entries[h + 1..] == n.entries
    ensures Kept(n, h).children + Moved(n, h) == n.children
    ensures |Kept(n, h).entries| == h && |n.entries[h + 1..]| == h
    ensures n.IsLeaf() || (|Kept(n, h).children| == h + 1 && |Moved(n, h)| == h + 1)
  {
    assert n.entries[..h] + [n.entries[h]] + n.entries[h + 1..] == n.entries;
    assert n.IsLeaf() || n.children[..h + 1] + n.children[h + 1..] == n.children;
  }

  /**
   * The rest of Split on a node without a parent: a new root, numbered by the counter, holds
   * the middle entry between the node and the new larger node, which both name it as their
   * parent. No other node changes.
   */
  lemma SplitUpAtRoot<K, V>(a: Arena<K, V>, id: nat, large: nat, middle: (K, V), min: nat, cmp: Comparer<K>, fuel: nat)
    requires a.counter !in a.heap && id in a.heap && large in a.heap && id != large && a.heap[id].parentId == 0
    ensures var (s, e) := SplitUp(a, id, large, middle, min, cmp, fuel);
      var root := a.counter;
      s == Done && e.root == Some(root) && e.deleted == a.deleted - {root} && e.counter == a.counter + 1
      && e.heap.Keys == a.heap.Keys + {root}
      && e.heap[root] == Node(root, 0, [middle], [id, large])
      && e.heap[id] == a.heap[id].(parentId := root) && e.heap[large] == a.heap[large].(parentId := root)
  {
    var (rt, a2) := CreateNewRoot(a, middle.0, middle.1, id, large);
    var a3 := SetParent(SetParent(a2, id, rt.id), large, rt.id);
    assert SplitUp(a, id, large, middle, min, cmp, fuel) == (Done, a3);
  }

  /** The rest of Split on a node without a parent changes no node but the two halves. */
  lemma SplitUpAtRootFrame<K, V>(a: Arena<K, V>, id: nat, large: nat, middle: (K, V), min: nat, cmp: Comparer<K>, fuel: nat)
    requires a.counter !in a.heap && id in a.heap && large in a.heap && id != large && a.heap[id].parentId == 0
    ensures var e := SplitUp(a, id, large, middle, min, cmp, fuel).1;
      forall i | i in a.heap && i != id && i != large :: e.heap[i] == a.heap[i]
  {
    var (rt, a2) := CreateNewRoot(a, middle.0, middle.1, id, large);
    var a3 := SetParent(SetParent(a2, id, rt.id), large, rt.id);
    assert SplitUp(a, id, large, middle, min, cmp, fuel) == (Done, a3);
  }

  /**
   * Split of a root of SplitShape: the new node takes the larger half and a new root, made
   * the manager's root, holds the middle entry between the two halves, which both name it as
   * their parent.
   */
  lemma SplitRoot<K, V>(a: Arena<K, V>, id: nat, min: nat, cmp: Comparer<K>, fuel: nat)
    requires Unused(a, a.counter) && Unused(a, a.counter + 1)
    requires id in a.heap && SplitShape(a, id, min) && a.heap[id].parentId == 0
    ensures var n := a.heap[id];
      var (r, e) := Split(a, id, min, cmp, fuel);
      var large := a.counter;
      var root := a.counter + 1;
      r == Ok(large) && e.root == Some(root) && e.deleted == a.deleted && e.counter == a.counter + 2
      && e.heap.Keys == a.heap.Keys + {large, root}
      && e.heap[root] == Node(root, 0, [n.entries[min]], [id, large])
  {
    SplitRootHalves(a, id, min, cmp, fuel);
  }

  /** The two halves of a root split by Split: both name the new root as their parent. */
  lemma SplitRootHalves<K, V>(a: Arena<K, V>, id: nat, min: nat, cmp: Comparer<K>, fuel: nat)
    requires Unused(a, a.counter) && Unused(a, a.counter + 1)
    requires id in a.heap && SplitShape(a, id, min) && a.heap[id].parentId == 0
    ensures var n := a.heap[id];
      var (r, e) := Split(a, id, min, cmp, fuel);
      var large := a.counter;
      var root := a.counter + 1;
      r == Ok(large) && e.root == Some(root) && e.deleted == a.deleted && e.counter == a.counter + 2
      && e.heap.Keys == a.heap.Keys + {large, root}
      && e.heap[root] == Node(root, 0, [n.entries[min]], [id, large])
      && e.heap[id] == Kept(n, min).(parentId := root)
      && e.heap[large] == Node(large, root, n.entries[min + 1..], Moved(n, min))
  {
    var n := a.heap[id];
    SplitOffShape(a, id, min);
    var (o, a1) := SplitOff(a, id, min, min + 1);
    SplitUpAtRoot(a1, id, a.counter, n.entries[min], min, cmp, fuel);
  }

  /** Split of a root re-parents the moved children to the new node and changes nothing else. */
  lemma SplitRootFrame<K, V>(a: Arena<K, V>, id: nat, min: nat, cmp: Comparer<K>, fuel: nat)
    requires Unused(a, a.counter) && Unused(a, a.counter + 1)
    requires id in a.heap && SplitShape(a, id, min) && a.heap[id].parentId == 0
    ensures var n := a.heap[id];
      var e := Split(a, id, min, cmp, fuel).1;
      forall i | i in a.heap && i != id ::
        e.heap[i] == a.heap[i].(parentId := if i in Moved(n, min) then a.counter else a.heap[i].parentId)
  {
    var n := a.heap[id];
    SplitOffShape(a, id, min);
    SplitOffFrame(a, id, min);
    var (o, a1) := SplitOff(a, id, min, min + 1);
    SplitUpAtRoot(a1, id, a.counter, n.entries[min], min, cmp, fuel);
    SplitUpAtRootFrame(a1, id, a.counter, n.entries[min], min, cmp, fuel);
  }

  /**
   * The parent P after it takes the middle entry of a split child: the entry at its insertion
   * index p and the new node right just after the child, at p + 1.
   */
  ghost function Promoted<K, V>(P: Node<K, V>, middle: (K, V), right: nat, cmp: Comparer<K>): Node<K, V>
  {
    var p := InsertIndex(KeySearch(P.entries, middle.0, cmp));
    if p <= |P.entries| && p + 1 <= |P.children|
    then P.(entries := InsertAt(P.entries, p, middle), children := InsertAt(P.children, p + 1, right))
    else P
  }

  /**
   * The rest of Split under a parent that has room: the parent takes the middle entry at its
   * insertion index p, with the node and the new larger node as children p and p + 1, and the
   * larger node names it as its parent. No other node changes.
   */
  lemma SplitUpIntoParent<K(!new), V>(a: Arena<K, V>, id: nat, large: nat, middle: (K, V), min: nat,
                                      cmp: Comparer<K>, fuel: nat)
    requires id in a.heap && large in a.heap && id != large && min < 0x8000 && IsComparer(cmp)
    requires var pid := a.heap[id].parentId;
      pid != 0 && Held(a, pid) && pid != large && SortedEntries(a.heap[pid].entries, cmp)
      && |a.heap[pid].children| == |a.heap[pid].entries| + 1 && |a.heap[pid].entries| < 2 * min
      && a.heap[pid].children[InsertIndex(KeySearch(a.heap[pid].entries, middle.0, cmp))] == id
    ensures var pid := a.heap[id].parentId;
      var P := a.heap[pid];
      var p := InsertIndex(KeySearch(P.entries, middle.0, cmp));
      var (s, e) := SplitUp(a, id, large, middle, min, cmp, fuel);
      s == Done && e.root == a.root && e.deleted == a.deleted && e.counter == a.counter
      && e.heap.Keys == a.heap.Keys
      && e.heap[pid] == Promoted(P, middle, large, cmp)
      && e.heap[pid].entries == InsertAt(P.entries, p, middle) && e.heap[pid].children == InsertAt(P.children, p + 1, large)
      && SortedEntries(e.heap[pid].entries, cmp)
      && e.heap[large] == a.heap[large].(parentId := pid)
      && forall i | i in a.heap && i != pid && i != large :: e.heap[i] == a.heap[i]
  {
    var pid := a.heap[id].parentId;
    InsertAsParentPlacement(a, pid, middle.0, middle.1, id, large, cmp);
    var (ins, a1) := InsertAsParent(a, pid, middle.0, middle.1, id, large, cmp);
    var a2 := SetParent(a1, large, pid);
    assert !IsOverflow(a2.heap[pid], min);
    assert SplitUp(a, id, large, middle, min, cmp, fuel) == (Done, a2);
  }

  /**
   * Split of a node of SplitShape under a parent that has room: the parent takes the middle
   * entry at its insertion index p, which sits just where the node is among the parent's
   * children, and the new node, numbered by the counter, follows the node there. The halves
   * are those of SplitOffShape and the larger one names the parent. Nothing else changes
   * but the parents of the moved children.
   */
  lemma SplitIntoParent<K(!new), V>(a: Arena<K, V>, id: nat, min: nat, cmp: Comparer<K>, fuel: nat)
    requires Unused(a, a.counter) && id in a.heap && SplitShape(a, id, min) && min < 0x8000 && IsComparer(cmp)
    requires var n := a.heap[id];
      var pid := n.parentId;
      pid != 0 && Held(a, pid) && pid != id && pid !in n.children
      && SortedEntries(a.heap[pid].entries, cmp)
      && |a.heap[pid].children| == |a.heap[pid].entries| + 1 && |a.heap[pid].entries| < 2 * min
      && a.heap[pid].children[InsertIndex(KeySearch(a.heap[pid].entries, n.entries[min].0, cmp))] == id
    ensures var n := a.heap[id];
      var pid := n.parentId;
      var P := a.heap[pid];
      var p := InsertIndex(KeySearch(P.entries, n.entries[min].0, cmp));
      var (r, e) := Split(a, id, min, cmp, fuel);
      var large := a.counter;
      r == Ok(large) && e.root == a.root && e.deleted == a.deleted && e.counter == a.counter + 1
      && e.heap.Keys == a.heap.Keys + {large}
      && e.heap[pid] == Promoted(P, n.entries[min], large, cmp)
      && e.heap[pid].entries == InsertAt(P.entries, p, n.entries[min]) && e.heap[pid].children == InsertAt(P.children, p + 1, large)
      && SortedEntries(e.heap[pid].entries, cmp)
      && e.heap[id] == Kept(n, min)
      && e.heap[large] == Node(large, pid, n.entries[min + 1..], Moved(n, min))
      && forall i | i in a.heap && i != id && i != pid ::
           e.heap[i] == a.heap[i].(parentId := if i in Moved(n, min) then large else a.heap[i].parentId)
  {
    var n := a.heap[id];
    var pid := n.parentId;
    SplitOffShape(a, id, min);
    SplitOffFrame(a, id, min);
    var (o, a1) := SplitOff(a, id, min, min + 1);
    MovedAreChildren(n, min, pid);
    assert a1.heap[pid] == a.heap[pid];
    SplitUpIntoParent(a1, id, a.counter, n.entries[min], min, cmp, fuel);
  }

  /**
   * The rest of Split under a full root parent: the parent takes the middle entry and the
   * larger node, overflows, and is split in turn as SplitRoot describes. Its larger half gets
   * the counter's id and a new root the next one; the new root holds the parent's middle
   * entry between the parent and its larger half.
   */
  lemma SplitUpIntoFullRoot<K(!new), V>(a: Arena<K, V>, id: nat, large: nat, middle: (K, V), min: nat,
                                        cmp: Comparer<K>, fuel: nat)
    requires id in a.heap && large in a.heap && id != large && 0 < min < 0x8000 && IsComparer(cmp) && fuel > 0
    requires Unused(a, a.counter) && Unused(a, a.counter + 1)
    requires var pid := a.heap[id].parentId;
      pid != 0 && Held(a, pid) && Held(a, large) && pid != large && a.heap[pid].parentId == 0
      && SortedEntries(a.heap[pid].entries, cmp) && ChildrenFound(a, pid)
      && |a.heap[pid].children| == |a.heap[pid].entries| + 1 && |a.heap[pid].entries| == 2 * min
      && a.heap[pid].children[InsertIndex(KeySearch(a.heap[pid].entries, middle.0, cmp))] == id
    ensures var pid := a.heap[id].parentId;
      var Q := Promoted(a.heap[pid], middle, large, cmp);
      RootGrown(SplitUp(a, id, large, middle, min, cmp, fuel), Q, pid, min, a.counter, a.heap.Keys, a.deleted)
      && SortedEntries(Q.entries, cmp)
  {
    var pid := a.heap[id].parentId;
    InsertAsParentPlacement(a, pid, middle.0, middle.1, id, large, cmp);
    var (ins, a1) := InsertAsParent(a, pid, middle.0, middle.1, id, large, cmp);
    var a2 := SetParent(a1, large, pid);
    assert IsOverflow(a2.heap[pid], min);
    var P := a.heap[pid];
    var p := InsertIndex(KeySearch(P.entries, middle.0, cmp));
    ChildrenFoundInsert(a, a2, pid, p + 1, large);
    SplitParentRoot(a2, pid, min, cmp, fuel - 1);
  }

  /**
   * The outcome of splitting a root n, whose id is id, in an arena with counter c, keys ks and
   * dropped ids ds: success, a new root c + 1 holding n's middle entry between id and the new
   * node c, both halves naming the new root, and nothing else added or dropped.
   */
  ghost predicate RootGrown<K, V>(r: (Status, Arena<K, V>), n: Node<K, V>, id: nat, min: nat, c: nat,
                                  ks: set<nat>, ds: set<nat>)
  {
    var (s, e) := r;
    s == Done && e.root == Some(c + 1) && e.counter == c + 2 && e.deleted == ds
    && e.heap.Keys == ks + {c, c + 1} && min < |n.entries| && id in ks
    && e.heap[c + 1] == Node(c + 1, 0, [n.entries[min]], [id, c])
    && e.heap[id].parentId == c + 1 && e.heap[c].parentId == c + 1
  }

  /** SplitRoot, seen through the Status that SplitUp reports. */
  lemma SplitParentRoot<K, V>(a: Arena<K, V>, id: nat, min: nat, cmp: Comparer<K>, fuel: nat)
    requires Unused(a, a.counter) && Unused(a, a.counter + 1)
    requires id in a.heap && SplitShape(a, id, min) && a.heap[id].parentId == 0
    ensures RootGrown(SplitParent(a, id, min, cmp, fuel), a.heap[id], id, min, a.counter, a.heap.Keys, a.deleted)
  {
    SplitRootHalves(a, id, min, cmp, fuel);
  }

  /**
   * Split of a node of SplitShape under a full root: the node splits as SplitOffShape says,
   * the root takes the middle entry and the new node and splits in turn, so the tree grows by
   * one level. The new node has the counter's id, the root's larger half the next and the new
   * root the one after.
   */
  lemma SplitIntoFullRoot<K(!new), V>(a: Arena<K, V>, id: nat, min: nat, cmp: Comparer<K>, fuel: nat)
    requires Unused(a, a.counter) && Unused(a, a.counter + 1) && Unused(a, a.counter + 2)
    requires id in a.heap && SplitShape(a, id, min) && 0 < min < 0x8000 && IsComparer(cmp) && fuel > 0
    requires var n := a.heap[id];
      var pid := n.parentId;
      pid != 0 && Held(a, pid) && pid != id && pid !in n.children && a.heap[pid].parentId == 0
      && SortedEntries(a.heap[pid].entries, cmp) && ChildrenFound(a, pid)
      && |a.heap[pid].children| == |a.heap[pid].entries| + 1 && |a.heap[pid].entries| == 2 * min
      && a.heap[pid].children[InsertIndex(KeySearch(a.heap[pid].entries, n.entries[min].0, cmp))] == id
    ensures var n := a.heap[id];
      var pid := n.parentId;
      var P := a.heap[pid];
      var Q := Promoted(P, n.entries[min], a.counter, cmp);
      var (r, e) := Split(a, id, min, cmp, fuel);
      var root := a.counter + 2;
      r == Ok(a.counter) && e.root == Some(root) && e.deleted == a.deleted && e.counter == a.counter + 3
      && e.heap.Keys == a.heap.Keys + {a.counter, a.counter + 1, root}
      && e.heap[root] == Node(root, 0, [Q.entries[min]], [pid, a.counter + 1])
      && e.heap[pid].parentId == root && e.heap[a.counter + 1].parentId == root
      && SortedEntries(Q.entries, cmp)
  {
    var n := a.heap[id];
    var pid := n.parentId;
    var c := a.counter;
    SplitOffIntoFullRoot(a, id, min, cmp, fuel);
    var (o, a1) := SplitOff(a, id, min, min + 1);
    var (s, e) := SplitUp(a1, id, c, n.entries[min], min, cmp, fuel);
    assert Split(a, id, min, cmp, fuel) == (Ok(c), e);
    assert a.heap.Keys + {c} + {c + 1, c + 2} == a.heap.Keys + {c, c + 1, c + 2};
  }

  /** The two halves of SplitIntoFullRoot: SplitOff, then SplitUp into the full root. */
  lemma SplitOffIntoFullRoot<K(!new), V>(a: Arena<K, V>, id: nat, min: nat, cmp: Comparer<K>, fuel: nat)
    requires Unused(a, a.counter) && Unused(a, a.counter + 1) && Unused(a, a.counter + 2)
    requires id in a.heap && SplitShape(a, id, min) && 0 < min < 0x8000 && IsComparer(cmp) && fuel > 0
    requires var n := a.heap[id];
      var pid := n.parentId;
      pid != 0 && Held(a, pid) && pid != id && pid !in n.children && a.heap[pid].parentId == 0
      && SortedEntries(a.heap[pid].entries, cmp) && ChildrenFound(a, pid)
      && |a.heap[pid].children| == |a.heap[pid].entries| + 1 && |a.heap[pid].entries| == 2 * min
      && a.heap[pid].children[InsertIndex(KeySearch(a.heap[pid].entries, n.entries[min].0, cmp))] == id
    ensures var n := a.heap[id];
      var pid := n.parentId;
      var c := a.counter;
      var Q := Promoted(a.heap[pid], n.entries[min], c, cmp);
      var (o, a1) := SplitOff(a, id, min, min + 1);
      o == Ok((c, n.entries[min])) && id in a1.heap && c in a1.heap && a1.heap[id].parentId == pid
      && a1.counter == c + 1 && a1.heap.Keys == a.heap.Keys + {c} && a1.deleted == a.deleted
      && RootGrown(SplitUp(a1, id, c, n.entries[min], min, cmp, fuel), Q, pid, min, c + 1, a1.heap.Keys, a1.deleted)
      && SortedEntries(Q.entries, cmp)
  {
    var n := a.heap[id];
    var pid := n.parentId;
    SplitOffShape(a, id, min);
    SplitOffFrame(a, id, min);
    var (o, a1) := SplitOff(a, id, min, min + 1);
    MovedAreChildren(n, min, pid);
    assert a1.heap[pid] == a.heap[pid];
    ChildrenStillFound(a, a1, pid);
    SplitUpIntoFullRoot(a1, id, a.counter, n.entries[min], min, cmp, fuel);
  }
}
