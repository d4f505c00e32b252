/**
 * TreeShapes: what a B-tree of any height looks like in the arena, and the sequence of entries
 * it holds in key order.
 *
 * A subtree of height 0 is a leaf with entries. A subtree of height h + 1 is an internal node
 * with one child more than it has entries, its children distinct, each a subtree of height h
 * whose parent id is this node. The entries of a subtree in order are those of its first
 * child, its first entry, those of its second child, and so on; a tree is well formed when
 * that sequence is sorted by key.
 */
module TreeShapes {
  import opened Comparers
  import opened TreeArena
  import opened TreeNodeLemmas

  /** The node id is the root of a B-tree of height h, every node of it held and not empty. */
  ghost predicate Subtree<K, V>(a: Arena<K, V>, id: nat, h: nat)
    decreases h
  {
    0 < id && Held(a, id) && !a.heap[id].IsEmpty()
    && var n := a.heap[id];
    if h == 0 then n.IsLeaf()
    else
      |n.children| == |n.entries| + 1
      && (forall i, j | 0 <= i < j < |n.children| :: n.children[i] != n.children[j])
      && forall i | 0 <= i < |n.children| :: Subtree(a, n.children[i], h - 1) && a.heap[n.children[i]].parentId == id
  }

  /** The entries of the subtree at id, in order. */
  ghost function Flat<K, V>(a: Arena<K, V>, id: nat, h: nat): (r: seq<(K, V)>)
    requires Subtree(a, id, h)
    ensures |r| > 0
    decreases h, 1, 0
  {
    if h == 0 then a.heap[id].entries else Inner(a, id, h - 1, |a.heap[id].children|)
  }

  /**
   * The entries of the first k children of the internal node id, in order, with the entry
   * between each two of them.
   */
  ghost function Inner<K, V>(a: Arena<K, V>, id: nat, h: nat, k: nat): (r: seq<(K, V)>)
    requires Subtree(a, id, h + 1) && 1 <= k <= |a.heap[id].children|
    ensures |r| > 0
    decreases h + 1, 0, k
  {
    var n := a.heap[id];
    if k == 1 then Flat(a, n.children[0], h)
    else Inner(a, id, h, k - 1) + [n.entries[k - 2]] + Flat(a, n.children[k - 1], h)
  }

  /** The entries of the first k children start with those of child 0 and end with those of child k - 1. */
  lemma {:induction false} InnerEnds<K, V>(a: Arena<K, V>, id: nat, h: nat, k: nat)
    requires Subtree(a, id, h + 1) && 1 <= k <= |a.heap[id].children|
    ensures var r := Inner(a, id, h, k);
      var first := Flat(a, a.heap[id].children[0], h);
      var last := Flat(a, a.heap[id].children[k - 1], h);
      r[0] == first[0] && r[|r| - 1] == last[|last| - 1]
    decreases k
  {
    if k > 1 {
      InnerEnds(a, id, h, k - 1);
    }
  }

  /** The leaf at the end of the first children below id. */
  ghost function FirstLeafOf<K, V>(a: Arena<K, V>, id: nat, h: nat): (r: nat)
    requires Subtree(a, id, h)
    ensures Subtree(a, r, 0)
    decreases h
  {
    if h == 0 then id else FirstLeafOf(a, a.heap[id].children[0], h - 1)
  }

  /** The leaf at the end of the last children below id. */
  ghost function LastLeafOf<K, V>(a: Arena<K, V>, id: nat, h: nat): (r: nat)
    requires Subtree(a, id, h)
    ensures Subtree(a, r, 0)
    decreases h
  {
    if h == 0 then id else LastLeafOf(a, a.heap[id].children[|a.heap[id].children| - 1], h - 1)
  }

  /**
   * The node manager's tree has height h: its root is a held id (ids start at 1) without a parent, and it is a
   * subtree of height h, or an empty leaf (the tree with no entries).
   */
  ghost predicate Tree<K, V>(a: Arena<K, V>, h: nat)
  {
    a.root.Some? && 0 < a.root.value && Held(a, a.root.value) && a.heap[a.root.value].parentId == 0
    && (Subtree(a, a.root.value, h) || (h == 0 && a.heap[a.root.value].IsLeaf() && a.heap[a.root.value].IsEmpty()))
  }

  /** The entries of the tree in order. */
  ghost function Contents<K, V>(a: Arena<K, V>, h: nat): (r: seq<(K, V)>)
    requires Tree(a, h)
  {
    if Subtree(a, a.root.value, h) then Flat(a, a.root.value, h) else []
  }

  /** The tree has height h and its entries are in key order. */
  ghost predicate WellFormed<K, V>(a: Arena<K, V>, h: nat, cmp: Comparer<K>)
  {
    Tree(a, h) && SortedEntries(Contents(a, h), cmp)
  }

  /** The first entry of a subtree is entry 0 of its first leaf. */
  lemma {:induction false} FlatStartsAtFirstLeaf<K, V>(a: Arena<K, V>, id: nat, h: nat)
    requires Subtree(a, id, h)
    ensures Flat(a, id, h)[0] == a.heap[FirstLeafOf(a, id, h)].entries[0]
    decreases h
  {
    if h > 0 {
      FlatStartsAtFirstLeaf(a, a.heap[id].children[0], h - 1);
      InnerEnds(a, id, h - 1, |a.heap[id].children|);
    }
  }

  /** The last entry of a subtree is the last entry of its last leaf. */
  lemma {:induction false} FlatEndsAtLastLeaf<K, V>(a: Arena<K, V>, id: nat, h: nat)
    requires Subtree(a, id, h)
    ensures var f := Flat(a, id, h); var e := a.heap[LastLeafOf(a, id, h)].entries;
      f[|f| - 1] == e[|e| - 1]
    decreases h
  {
    if h > 0 {
      var c := a.heap[id].children;
      FlatEndsAtLastLeaf(a, c[|c| - 1], h - 1);
      InnerEnds(a, id, h - 1, |c|);
    }
  }

  /** A node is a subtree of one height only. */
  lemma {:induction false} HeightUnique<K, V>(a: Arena<K, V>, id: nat, h: nat, g: nat)
    requires Subtree(a, id, h) && Subtree(a, id, g)
    ensures h == g
    decreases h
  {
    if h > 0 && g > 0 {
      HeightUnique(a, a.heap[id].children[0], h - 1, g - 1);
    }
  }

  /** The first children from id down to its first leaf: the node at i has height h - i. */
  ghost function Spine<K, V>(a: Arena<K, V>, id: nat, h: nat): (r: seq<nat>)
    requires Subtree(a, id, h)
    ensures |r| == h + 1
    ensures forall i | 0 <= i < |r| :: Subtree(a, r[i], h - i)
    decreases h
  {
    if h == 0 then [id] else [id] + Spine(a, a.heap[id].children[0], h - 1)
  }

  /** The elements of s. */
  function Elements(s: seq<nat>): (r: set<nat>)
  {
    set x | x in s
  }

  /** A sequence without repetitions has as many elements as its set. */
  lemma {:induction false} DistinctCardinality(s: seq<nat>)
    requires forall i, j | 0 <= i < j < |s| :: s[i] != s[j]
    ensures |Elements(s)| == |s|
  {
    if s != [] {
      DistinctCardinality(s[1..]);
      assert s[0] !in Elements(s[1..]) by {
        forall j | 0 <= j < |s[1..]| ensures s[1..][j] != s[0] {
          assert s[1..][j] == s[j + 1];
        }
      }
      assert Elements(s) == Elements(s[1..]) + {s[0]};
    }
  }

  /** A subset has at most as many elements. */
  lemma {:induction false} SubsetCardinality(A: set<nat>, B: set<nat>)
    requires A <= B
    ensures |A| <= |B|
    decreases |B|
  {
    if A != {} {
      var x :| x in A;
      SubsetCardinality(A - {x}, B - {x});
    }
  }

  /** A subtree of height h has at least h + 1 node objects, so the arena has that many. */
  lemma HeapHoldsSpine<K, V>(a: Arena<K, V>, id: nat, h: nat)
    requires Subtree(a, id, h)
    ensures |a.heap| >= h + 1
  {
    var s := Spine(a, id, h);
    forall i, j | 0 <= i < j < |s| ensures s[i] != s[j] {
      if s[i] == s[j] {
        HeightUnique(a, s[i], h - i, h - j);
      }
    }
    DistinctCardinality(s);
    SubsetCardinality(Elements(s), a.heap.Keys);
  }
}
