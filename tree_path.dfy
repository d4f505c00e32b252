/**
 * TreePaths: where FindNode's descent goes in a well-formed tree of any height, in unique-key
 * mode. At each internal node a miss sends the search to the one child whose entries lie
 * between the separators around the key, so the search either hits an entry of the tree or
 * ends at a leaf with every entry of the tree before that leaf below the key and every entry
 * after it above. Changing that leaf's entries changes the tree's entries at that place only.
 */
module TreePaths {
  import opened Errors
  import opened Comparers
  import opened TreeArena
  import opened TreeNodes
  import opened TreeNodeLemmas
  import opened IndexTrees
  import opened IndexTreeLemmas
  import opened TreeShapes
  import TreeEntryComparer

  /** Every key of s is strictly below key. */
  ghost predicate KeysBelow<K, V>(s: seq<(K, V)>, key: K, cmp: Comparer<K>)
  {
    forall i | 0 <= i < |s| :: cmp(s[i].0, key) < 0
  }

  /** Every key of s is strictly above key. */
  ghost predicate KeysAbove<K, V>(s: seq<(K, V)>, key: K, cmp: Comparer<K>)
  {
    forall i | 0 <= i < |s| :: cmp(key, s[i].0) < 0
  }

  /** Every key of s is at most every key of t. */
  ghost predicate Ordered<K, V>(s: seq<(K, V)>, t: seq<(K, V)>, cmp: Comparer<K>)
  {
    forall i, j | 0 <= i < |s| && 0 <= j < |t| :: cmp(s[i].0, t[j].0) <= 0
  }

  /** Two lists joined are sorted exactly when each is and the first's keys are at most the second's. */
  lemma SortedSplit<K, V>(s: seq<(K, V)>, t: seq<(K, V)>, cmp: Comparer<K>)
    ensures SortedEntries(s + t, cmp) <==> SortedEntries(s, cmp) && SortedEntries(t, cmp) && Ordered(s, t, cmp)
  {
    var k := TreeEntryComparer.Keys(s + t);
    var ks := TreeEntryComparer.Keys(s);
    var kt := TreeEntryComparer.Keys(t);
    if SortedEntries(s + t, cmp) {
      forall i, j | 0 <= i < j < |s| ensures cmp(ks[i], ks[j]) <= 0 {
        assert k[i] == ks[i] && k[j] == ks[j];
      }
      forall i, j | 0 <= i < j < |t| ensures cmp(kt[i], kt[j]) <= 0 {
        assert k[|s| + i] == kt[i] && k[|s| + j] == kt[j];
      }
      forall i, j | 0 <= i < |s| && 0 <= j < |t| ensures cmp(s[i].0, t[j].0) <= 0 {
        assert k[i] == s[i].0 && k[|s| + j] == t[j].0;
      }
    }
    if SortedEntries(s, cmp) && SortedEntries(t, cmp) && Ordered(s, t, cmp) {
      forall i, j | 0 <= i < j < |k| ensures cmp(k[i], k[j]) <= 0 {
        if j < |s| {
          assert k[i] == ks[i] && k[j] == ks[j];
        } else if i >= |s| {
          assert k[i] == kt[i - |s|] && k[j] == kt[j - |s|];
        } else {
          assert k[i] == s[i].0 && k[j] == t[j - |s|].0;
        }
      }
    }
  }

  /** A key none of the outer parts has is present in the whole exactly when it is in the middle. */
  lemma HasKeyMiddle<K(!new), V>(s: seq<(K, V)>, t: seq<(K, V)>, u: seq<(K, V)>, key: K, cmp: Comparer<K>)
    requires IsComparer(cmp) && KeysBelow(s, key, cmp) && KeysAbove(u, key, cmp)
    ensures HasKey(s + t + u, key, cmp) <==> HasKey(t, key, cmp)
  {
    HasKeyJoin(s + t, u, key, cmp);
    HasKeyJoin(s, t, key, cmp);
    NoKeyAbove(u, key, cmp);
  }

  /** Two lists joined have the key exactly when one of them has it. */
  lemma HasKeyJoin<K, V>(s: seq<(K, V)>, t: seq<(K, V)>, key: K, cmp: Comparer<K>)
    ensures HasKey(s + t, key, cmp) <==> HasKey(s, key, cmp) || HasKey(t, key, cmp)
  {
    var w := s + t;
    if HasKey(w, key, cmp) {
      var j :| 0 <= j < |w| && cmp(w[j].0, key) == 0;
      if j < |s| {
        assert s[j] == w[j];
      } else {
        assert t[j - |s|] == w[j];
      }
    }
    if HasKey(s, key, cmp) {
      var j :| 0 <= j < |s| && cmp(s[j].0, key) == 0;
      assert w[j] == s[j];
    }
    if HasKey(t, key, cmp) {
      var j :| 0 <= j < |t| && cmp(t[j].0, key) == 0;
      assert w[|s| + j] == t[j];
    }
  }

  /** Keys all above key leave the key out. */
  lemma NoKeyAbove<K(!new), V>(u: seq<(K, V)>, key: K, cmp: Comparer<K>)
    requires IsComparer(cmp) && KeysAbove(u, key, cmp)
    ensures !HasKey(u, key, cmp)
  {
    forall j | 0 <= j < |u| ensures cmp(u[j].0, key) != 0 {
      assert cmp(key, u[j].0) < 0;
    }
  }

  /** The id of the parent of id, 0 when id is not a node object. */
  ghost function Parent<K, V>(a: Arena<K, V>, id: nat): nat
  {
    if id in a.heap then a.heap[id].parentId else 0
  }

  /** The node n parent links above id. */
  ghost function Ancestor<K, V>(a: Arena<K, V>, id: nat, n: nat): nat
    decreases n
  {
    if n == 0 then id else Parent(a, Ancestor(a, id, n - 1))
  }

  /** The entries of the internal node id, of height h, before its child p: its first p children with their separators. */
  ghost function Before<K, V>(a: Arena<K, V>, id: nat, h: nat, p: nat): (r: seq<(K, V)>)
    requires h > 0 && Subtree(a, id, h) && p < |a.heap[id].children|
    ensures p > 0 ==> |r| > 0 && r[|r| - 1] == a.heap[id].entries[p - 1]
  {
    if p == 0 then [] else Inner(a, id, h - 1, p) + [a.heap[id].entries[p - 1]]
  }

  /** The entries of the internal node id, of height h, after its child p, up to its child k - 1. */
  ghost function Following<K, V>(a: Arena<K, V>, id: nat, h: nat, p: nat, k: nat): (r: seq<(K, V)>)
    requires h > 0 && Subtree(a, id, h) && p < k <= |a.heap[id].children|
    decreases k
  {
    if k == p + 1 then []
    else Following(a, id, h, p, k - 1) + [a.heap[id].entries[k - 2]] + Flat(a, a.heap[id].children[k - 1], h - 1)
  }

  /** The entries of the internal node id after its child p. */
  ghost function After<K, V>(a: Arena<K, V>, id: nat, h: nat, p: nat): (r: seq<(K, V)>)
    requires h > 0 && Subtree(a, id, h) && p < |a.heap[id].children|
    ensures p + 1 < |a.heap[id].children| ==> |r| > 0 && r[0] == a.heap[id].entries[p]
  {
    FollowingStarts(a, id, h, p, |a.heap[id].children|);
    Following(a, id, h, p, |a.heap[id].children|)
  }

  /** Past child p + 1, the entries after child p start with entry p. */
  lemma {:induction false} FollowingStarts<K, V>(a: Arena<K, V>, id: nat, h: nat, p: nat, k: nat)
    requires h > 0 && Subtree(a, id, h) && p < k <= |a.heap[id].children|
    ensures var r := Following(a, id, h, p, k); k > p + 1 ==> |r| > 0 && r[0] == a.heap[id].entries[p]
    decreases k
  {
    if k > p + 2 {
      FollowingStarts(a, id, h, p, k - 1);
    }
  }

  /** The first k children of id read as those before child p, child p, and those after it up to k - 1. */
  lemma {:induction false} Around<K, V>(a: Arena<K, V>, id: nat, h: nat, p: nat, k: nat)
    requires h > 0 && Subtree(a, id, h) && p < k <= |a.heap[id].children|
    ensures Inner(a, id, h - 1, k)
         == Before(a, id, h, p) + Flat(a, a.heap[id].children[p], h - 1) + Following(a, id, h, p, k)
    decreases k
  {
    if k > p + 1 {
      Around(a, id, h, p, k - 1);
    }
  }

  /** The subtree at id reads the entries before child p, child p's, and those after it. */
  lemma AroundChild<K, V>(a: Arena<K, V>, id: nat, h: nat, p: nat)
    requires h > 0 && Subtree(a, id, h) && p < |a.heap[id].children|
    ensures Subtree(a, a.heap[id].children[p], h - 1)
    ensures Flat(a, id, h) == Before(a, id, h, p) + Flat(a, a.heap[id].children[p], h - 1) + After(a, id, h, p)
  {
    Around(a, id, h, p, |a.heap[id].children|);
  }

  /**
   * Child p of the internal node id sits between the node's entries before it, all below key,
   * and those after it, all above.
   */
  ghost predicate Splits<K, V>(a: Arena<K, V>, id: nat, h: nat, p: nat, key: K, cmp: Comparer<K>)
    requires h > 0 && Subtree(a, id, h) && p < |a.heap[id].children|
  {
    Subtree(a, a.heap[id].children[p], h - 1)
    && Flat(a, id, h) == Before(a, id, h, p) + Flat(a, a.heap[id].children[p], h - 1) + After(a, id, h, p)
    && KeysBelow(Before(a, id, h, p), key, cmp) && KeysAbove(After(a, id, h, p), key, cmp)
  }

  /**
   * Sorted entries of the first k children put the node's first k - 1 entries in order, and
   * those entries at most the entries of child k - 1.
   */
  lemma {:induction false} InnerEntriesSorted<K(!new), V>(a: Arena<K, V>, id: nat, h: nat, k: nat, cmp: Comparer<K>)
    requires Subtree(a, id, h + 1) && 1 <= k <= |a.heap[id].children| && IsComparer(cmp)
    requires SortedEntries(Inner(a, id, h, k), cmp)
    ensures SortedEntries(a.heap[id].entries[..k - 1], cmp)
    ensures Ordered(a.heap[id].entries[..k - 1], Flat(a, a.heap[id].children[k - 1], h), cmp)
    decreases k
  {
    if k > 1 {
      var n := a.heap[id];
      var I := Inner(a, id, h, k - 1);
      var e := n.entries[k - 2];
      var F := Flat(a, n.children[k - 1], h);
      var prev := Flat(a, n.children[k - 2], h);
      var E := n.entries[..k - 2];
      assert Inner(a, id, h, k) == I + [e] + F;
      SortedSplit(I + [e], F, cmp);
      SortedSplit(I, [e], cmp);
      InnerEntriesSorted(a, id, h, k - 1, cmp);
      InnerEnds(a, id, h, k - 1);
      assert I[|I| - 1] == prev[|prev| - 1];
      SeparatorStep(I, e, F, E, cmp);
      TakeOneMore(n.entries, k - 2, k - 1);
    }
  }

  /** The first i + 1 elements are the first i and then element i. */
  lemma TakeOneMore<T>(s: seq<T>, i: nat, j: nat)
    requires i < |s| && j == i + 1
    ensures s[..j] == s[..i] + [s[i]]
  {
  }

  /**
   * Sorted I, e, F, with the keys of E at most the last of I: E and e stay sorted and at most
   * the keys of F.
   */
  lemma SeparatorStep<K(!new), V>(I: seq<(K, V)>, e: (K, V), F: seq<(K, V)>, E: seq<(K, V)>, cmp: Comparer<K>)
    requires IsComparer(cmp) && |I| > 0 && SortedEntries(I + [e] + F, cmp) && SortedEntries(E, cmp)
    requires forall i | 0 <= i < |E| :: cmp(E[i].0, I[|I| - 1].0) <= 0
    ensures SortedEntries(E + [e], cmp) && Ordered(E + [e], F, cmp)
  {
    SortedSplit(I + [e], F, cmp);
    SortedSplit(I, [e], cmp);
    assert Ordered(E, [e], cmp) by {
      forall i | 0 <= i < |E| ensures cmp(E[i].0, e.0) <= 0 {
        assert cmp(I[|I| - 1].0, [e][0].0) <= 0;
        Transitive(cmp, E[i].0, I[|I| - 1].0, e.0);
      }
    }
    SortedSplit(E, [e], cmp);
    assert Ordered(E + [e], F, cmp) by {
      forall i, j | 0 <= i < |E| + 1 && 0 <= j < |F| ensures cmp((E + [e])[i].0, F[j].0) <= 0 {
        assert cmp((I + [e])[|I|].0, F[j].0) <= 0;
        if i < |E| {
          assert cmp(E[i].0, e.0) <= 0;
          Transitive(cmp, E[i].0, e.0, F[j].0);
        }
      }
    }
  }

  /** The entries of a node of a subtree with sorted entries are sorted. */
  lemma NodeEntriesSorted<K(!new), V>(a: Arena<K, V>, id: nat, h: nat, cmp: Comparer<K>)
    requires Subtree(a, id, h) && IsComparer(cmp) && SortedEntries(Flat(a, id, h), cmp)
    ensures SortedEntries(a.heap[id].entries, cmp)
  {
    if h > 0 {
      var n := a.heap[id];
      InnerEntriesSorted(a, id, h - 1, |n.children|, cmp);
      assert n.entries[..|n.children| - 1] == n.entries;
    }
  }

  /**
   * Around child p of an internal node with sorted entries, where the node's entries before p
   * are below key and those from p on above it: child p splits the subtree at the key, and its
   * entries are sorted.
   */
  lemma AroundBounds<K(!new), V>(a: Arena<K, V>, id: nat, h: nat, p: nat, key: K, cmp: Comparer<K>)
    requires h > 0 && Subtree(a, id, h) && p < |a.heap[id].children| && IsComparer(cmp)
    requires SortedEntries(Flat(a, id, h), cmp)
    requires p > 0 ==> cmp(a.heap[id].entries[p - 1].0, key) < 0
    requires p < |a.heap[id].entries| ==> cmp(key, a.heap[id].entries[p].0) < 0
    ensures Splits(a, id, h, p, key, cmp) && SortedEntries(Flat(a, a.heap[id].children[p], h - 1), cmp)
  {
    var c := a.heap[id].children;
    AroundChild(a, id, h, p);
    var B := Before(a, id, h, p);
    var M := Flat(a, c[p], h - 1);
    var F := After(a, id, h, p);
    SortedSplit(B + M, F, cmp);
    SortedSplit(B, M, cmp);
    BeforeBelow(B, key, cmp);
    AfterAbove(F, key, cmp);
  }

  /** Sorted entries whose last key is below key are all below it. */
  lemma BeforeBelow<K(!new), V>(B: seq<(K, V)>, key: K, cmp: Comparer<K>)
    requires IsComparer(cmp) && SortedEntries(B, cmp) && (|B| > 0 ==> cmp(B[|B| - 1].0, key) < 0)
    ensures KeysBelow(B, key, cmp)
  {
    forall i | 0 <= i < |B| ensures cmp(B[i].0, key) < 0 {
      if i < |B| - 1 {
        assert cmp(TreeEntryComparer.Keys(B)[i], TreeEntryComparer.Keys(B)[|B| - 1]) <= 0;
      }
      StrictTransitive(cmp, B[i].0, B[|B| - 1].0, key);
    }
  }

  /** Sorted entries whose first key is above key are all above it. */
  lemma AfterAbove<K(!new), V>(F: seq<(K, V)>, key: K, cmp: Comparer<K>)
    requires IsComparer(cmp) && SortedEntries(F, cmp) && (|F| > 0 ==> cmp(key, F[0].0) < 0)
    ensures KeysAbove(F, key, cmp)
  {
    forall i | 0 <= i < |F| ensures cmp(key, F[i].0) < 0 {
      if i > 0 {
        assert cmp(TreeEntryComparer.Keys(F)[0], TreeEntryComparer.Keys(F)[i]) <= 0;
      }
      StrictTransitive(cmp, key, F[0].0, F[i].0);
    }
  }

  /** The arena with the entries of node id replaced by E. */
  ghost function Replace<K, V>(a: Arena<K, V>, id: nat, E: seq<(K, V)>): (r: Arena<K, V>)
    requires id in a.heap
    ensures r.heap.Keys == a.heap.Keys && r.deleted == a.deleted && r.root == a.root
    ensures r.heap[id] == a.heap[id].(entries := E)
    ensures forall y | y in a.heap && y != id :: r.heap[y] == a.heap[y]
  {
    Put(a, id, a.heap[id].(entries := E))
  }

  /** Two arenas that agree on node id and its first k children read the same over those children. */
  lemma {:induction false} InnerSame<K, V>(a: Arena<K, V>, b: Arena<K, V>, id: nat, h: nat, k: nat)
    requires Subtree(a, id, h + 1) && Subtree(b, id, h + 1) && b.heap[id] == a.heap[id]
    requires 1 <= k <= |a.heap[id].children|
    requires forall i | 0 <= i < k :: Flat(b, a.heap[id].children[i], h) == Flat(a, a.heap[id].children[i], h)
    ensures Inner(b, id, h, k) == Inner(a, id, h, k)
    decreases k
  {
    if k > 1 {
      var c := a.heap[id].children;
      InnerSame(a, b, id, h, k - 1);
      assert Flat(b, c[k - 1], h) == Flat(a, c[k - 1], h);
    }
  }

  /** Two arenas that agree on the children of id after p read the same after child p. */
  lemma {:induction false} FollowingSame<K, V>(a: Arena<K, V>, b: Arena<K, V>, id: nat, g: nat, p: nat, k: nat)
    requires Subtree(a, id, g + 1) && Subtree(b, id, g + 1) && b.heap[id] == a.heap[id]
    requires p < k <= |a.heap[id].children|
    requires forall i | p < i < k :: Flat(b, a.heap[id].children[i], g) == Flat(a, a.heap[id].children[i], g)
    ensures Following(b, id, g + 1, p, k) == Following(a, id, g + 1, p, k)
    decreases k
  {
    if k > p + 1 {
      var c := a.heap[id].children;
      FollowingSame(a, b, id, g, p, k - 1);
      assert Flat(b, c[k - 1], g) == Flat(a, c[k - 1], g);
    }
  }

  /** Child i of a subtree of height h is a subtree of height h - 1. */
  lemma ChildSubtree<K, V>(a: Arena<K, V>, id: nat, h: nat, i: nat)
    requires h > 0 && Subtree(a, id, h) && i < |a.heap[id].children|
    ensures Subtree(a, a.heap[id].children[i], h - 1) && a.heap[a.heap[id].children[i]].parentId == id
  {
  }

  /** The entries after child p up to child k - 1, with child k - 1 the last of them. */
  lemma FollowingStep<K, V>(a: Arena<K, V>, id: nat, h: nat, p: nat, k: nat) returns (x: nat)
    requires h > 0 && Subtree(a, id, h) && p + 1 < k <= |a.heap[id].children|
    ensures x == a.heap[id].children[k - 1] && Subtree(a, x, h - 1)
    ensures Following(a, id, h, p, k) == Following(a, id, h, p, k - 1) + [a.heap[id].entries[k - 2]] + Flat(a, x, h - 1)
  {
    x := a.heap[id].children[k - 1];
  }

  /** Changing the entries of a leaf leaves every subtree that does not hold it as it was. */
  lemma {:induction false} FlatFrame<K, V>(a: Arena<K, V>, leaf: nat, E: seq<(K, V)>, id: nat, h: nat)
    requires Subtree(a, id, h) && Subtree(a, leaf, 0) && |E| > 0 && Ancestor(a, leaf, h) != id
    ensures Subtree(Replace(a, leaf, E), id, h) && Flat(Replace(a, leaf, E), id, h) == Flat(a, id, h)
    decreases h
  {
    var b := Replace(a, leaf, E);
    if h > 0 {
      var c := a.heap[id].children;
      assert id != leaf;
      forall i | 0 <= i < |c|
        ensures Subtree(b, c[i], h - 1) && Flat(b, c[i], h - 1) == Flat(a, c[i], h - 1) && b.heap[c[i]].parentId == id
      {
        assert Ancestor(a, leaf, h - 1) != c[i];
        FlatFrame(a, leaf, E, c[i], h - 1);
      }
      assert Subtree(b, id, h);
      InnerSame(a, b, id, h - 1, |c|);
    }
  }

  /**
   * Child p of id holds the leaf, and changing the leaf's entries to E makes child p read
   * mid: then id reads the entries before child p, mid, and the entries after it.
   */
  lemma ReplaceBelow<K, V>(a: Arena<K, V>, id: nat, h: nat, p: nat, leaf: nat, E: seq<(K, V)>, mid: seq<(K, V)>)
    requires h > 0 && Subtree(a, id, h) && p < |a.heap[id].children| && Subtree(a, leaf, 0) && |E| > 0
    requires Ancestor(a, leaf, h - 1) == a.heap[id].children[p]
    requires Subtree(Replace(a, leaf, E), a.heap[id].children[p], h - 1)
    requires Flat(Replace(a, leaf, E), a.heap[id].children[p], h - 1) == mid
    ensures Subtree(Replace(a, leaf, E), id, h)
    ensures Flat(Replace(a, leaf, E), id, h) == Before(a, id, h, p) + mid + After(a, id, h, p)
  {
    var b := Replace(a, leaf, E);
    ReplaceKeepsShape(a, id, h, p, leaf, E);
    AroundChild(b, id, h, p);
    BeforeSame(a, b, id, h, p);
    AfterSame(a, b, id, h, p);
  }

  /** Two arenas that agree on node id and its children before p read the same before child p. */
  lemma BeforeSame<K, V>(a: Arena<K, V>, b: Arena<K, V>, id: nat, h: nat, p: nat)
    requires h > 0 && Subtree(a, id, h) && Subtree(b, id, h) && b.heap[id] == a.heap[id]
    requires p < |a.heap[id].children|
    requires forall i | 0 <= i < p :: Flat(b, a.heap[id].children[i], h - 1) == Flat(a, a.heap[id].children[i], h - 1)
    ensures Before(b, id, h, p) == Before(a, id, h, p)
  {
    if p > 0 {
      InnerSame(a, b, id, h - 1, p);
    }
  }

  /** Two arenas that agree on node id and its children after p read the same after child p. */
  lemma AfterSame<K, V>(a: Arena<K, V>, b: Arena<K, V>, id: nat, h: nat, p: nat)
    requires h > 0 && Subtree(a, id, h) && Subtree(b, id, h) && b.heap[id] == a.heap[id]
    requires p < |a.heap[id].children|
    requires forall i | p < i < |a.heap[id].children| :: Flat(b, a.heap[id].children[i], h - 1) == Flat(a, a.heap[id].children[i], h - 1)
    ensures After(b, id, h, p) == After(a, id, h, p)
  {
    FollowingSame(a, b, id, h - 1, p, |a.heap[id].children|);
  }

  /**
   * Changing the entries of a leaf below child p keeps id a subtree, and every other child
   * reads as before.
   */
  lemma ReplaceKeepsShape<K, V>(a: Arena<K, V>, id: nat, h: nat, p: nat, leaf: nat, E: seq<(K, V)>)
    requires h > 0 && Subtree(a, id, h) && p < |a.heap[id].children| && Subtree(a, leaf, 0) && |E| > 0
    requires Ancestor(a, leaf, h - 1) == a.heap[id].children[p]
    requires Subtree(Replace(a, leaf, E), a.heap[id].children[p], h - 1)
    ensures Subtree(Replace(a, leaf, E), id, h) && Replace(a, leaf, E).heap[id] == a.heap[id]
    ensures forall i | 0 <= i < |a.heap[id].children| && i != p ::
      Flat(Replace(a, leaf, E), a.heap[id].children[i], h - 1) == Flat(a, a.heap[id].children[i], h - 1)
  {
    var b := Replace(a, leaf, E);
    var c := a.heap[id].children;
    assert id != leaf by {
      assert !a.heap[id].IsLeaf();
    }
    forall i | 0 <= i < |c|
      ensures Subtree(b, c[i], h - 1) && b.heap[c[i]].parentId == id
      ensures i != p ==> Flat(b, c[i], h - 1) == Flat(a, c[i], h - 1)
    {
      if i != p {
        FlatFrame(a, leaf, E, c[i], h - 1);
      }
    }
  }

  /**
   * The search ended at the leaf with result s: the leaf is in the subtree, the subtree reads
   * before, the leaf's entries, after, with before below key and after above it, and giving
   * the leaf any nonempty entries makes the subtree read before, those entries, after.
   */
  ghost predicate Between<K(!new), V(!new)>(a: Arena<K, V>, id: nat, h: nat, key: K, cmp: Comparer<K>, leaf: nat, s: int,
                                            before: seq<(K, V)>, after: seq<(K, V)>)
    requires Subtree(a, id, h)
  {
    Located(a, id, h, key, cmp, leaf, s, before, after) && Replaceable(a, id, h, leaf, before, after)
  }

  /** The leaf sits in the subtree between before, below key, and after, above it. */
  ghost predicate Located<K, V>(a: Arena<K, V>, id: nat, h: nat, key: K, cmp: Comparer<K>, leaf: nat, s: int,
                                before: seq<(K, V)>, after: seq<(K, V)>)
    requires Subtree(a, id, h)
  {
    Subtree(a, leaf, 0) && Ancestor(a, leaf, h) == id && s == KeySearch(a.heap[leaf].entries, key, cmp)
    && Flat(a, id, h) == before + a.heap[leaf].entries + after
    && KeysBelow(before, key, cmp) && KeysAbove(after, key, cmp)
  }

  /** Giving the leaf any nonempty entries E makes the subtree read before, E, after. */
  ghost predicate Replaceable<K(!new), V(!new)>(a: Arena<K, V>, id: nat, h: nat, leaf: nat, before: seq<(K, V)>, after: seq<(K, V)>)
    requires leaf in a.heap
  {
    forall E {:trigger Replace(a, leaf, E)} | |E| > 0 ::
      Subtree(Replace(a, leaf, E), id, h) && Flat(Replace(a, leaf, E), id, h) == before + E + after
  }

  /**
   * FindNode in unique mode on a subtree with sorted entries succeeds; it hits exactly when
   * the subtree has the key, at an entry of the subtree, and on a miss ends at a leaf between
   * the entries below the key and those above it.
   */
  lemma {:induction false} SearchPath<K(!new), V(!new)>(a: Arena<K, V>, id: nat, h: nat, key: K, cmp: Comparer<K>, fuel: nat)
    returns (before: seq<(K, V)>, after: seq<(K, V)>)
    requires Subtree(a, id, h) && IsComparer(cmp) && SortedEntries(Flat(a, id, h), cmp) && fuel >= h
    ensures Searched(a, id, h, key, cmp, FindNode(a, key, id, false, cmp, fuel), before, after)
    decreases h, 1
  {
    before, after := [], [];
    if h == 0 {
      NodeEntriesSorted(a, id, h, cmp);
      SearchLeaf(a, id, key, cmp, fuel);
    } else if KeySearch(a.heap[id].entries, key, cmp) >= 0 {
      SearchHit(a, id, h, key, cmp, fuel);
    } else {
      before, after := SearchMiss(a, id, h, key, cmp, fuel);
    }
  }

  /** A miss at an internal node: the search goes on in the child the miss points at. */
  lemma {:induction false} SearchMiss<K(!new), V(!new)>(a: Arena<K, V>, id: nat, h: nat, key: K, cmp: Comparer<K>, fuel: nat)
    returns (before: seq<(K, V)>, after: seq<(K, V)>)
    requires h > 0 && Subtree(a, id, h) && IsComparer(cmp) && SortedEntries(Flat(a, id, h), cmp) && fuel >= h
    requires KeySearch(a.heap[id].entries, key, cmp) < 0
    ensures Searched(a, id, h, key, cmp, FindNode(a, key, id, false, cmp, fuel), before, after)
    decreases h, 0
  {
    var p := MissStep(a, id, h, key, cmp);
    var b', a' := SearchPath(a, a.heap[id].children[p], h - 1, key, cmp, fuel - 1);
    before, after := SearchUp(a, id, h, key, cmp, fuel, p, b', a');
  }

  /** The search of child p, the child a miss at id sends it to, is the search of id. */
  lemma SearchUp<K(!new), V(!new)>(a: Arena<K, V>, id: nat, h: nat, key: K, cmp: Comparer<K>, fuel: nat, p: nat,
                                   b: seq<(K, V)>, f: seq<(K, V)>)
    returns (before: seq<(K, V)>, after: seq<(K, V)>)
    requires h > 0 && Subtree(a, id, h) && fuel >= h
    requires KeySearch(a.heap[id].entries, key, cmp) < 0
    requires p == -KeySearch(a.heap[id].entries, key, cmp) - 1 && p < |a.heap[id].children|
    requires Splits(a, id, h, p, key, cmp)
    requires HasKey(Flat(a, id, h), key, cmp) <==> HasKey(Flat(a, a.heap[id].children[p], h - 1), key, cmp)
    requires Searched(a, a.heap[id].children[p], h - 1, key, cmp, FindNode(a, key, a.heap[id].children[p], false, cmp, fuel - 1), b, f)
    ensures Searched(a, id, h, key, cmp, FindNode(a, key, id, false, cmp, fuel), before, after)
  {
    var c := a.heap[id].children;
    MissDescends(a, id, h, key, cmp, fuel);
    var r := FindNode(a, key, c[p], false, cmp, fuel - 1);
    before, after := [], [];
    if r.value.1 >= 0 {
      InChild(a, id, h, p, a.heap[r.value.0].entries[r.value.1]);
    } else {
      before, after := Before(a, id, h, p) + b, f + After(a, id, h, p);
      BetweenUp(a, id, h, p, key, cmp, r.value.0, r.value.1, b, f);
    }
  }

  /**
   * The result r of a search of the subtree at id: it succeeded, it hit exactly when the
   * subtree has the key and then at one of its entries, and a miss sits between before and
   * after.
   */
  ghost predicate Searched<K(!new), V(!new)>(a: Arena<K, V>, id: nat, h: nat, key: K, cmp: Comparer<K>,
                                             r: Result<(nat, int)>, before: seq<(K, V)>, after: seq<(K, V)>)
    requires Subtree(a, id, h)
  {
    r.Ok? && r.value.0 in a.heap && r.value.1 < |a.heap[r.value.0].entries|
    && (r.value.1 >= 0 <==> HasKey(Flat(a, id, h), key, cmp))
    && (r.value.1 >= 0 ==> a.heap[r.value.0].entries[r.value.1] in Flat(a, id, h))
    && (r.value.1 < 0 ==> Between(a, id, h, key, cmp, r.value.0, r.value.1, before, after))
  }

  /** At a leaf the search ends there, at the leaf's search result. */
  lemma SearchLeaf<K(!new), V(!new)>(a: Arena<K, V>, id: nat, key: K, cmp: Comparer<K>, fuel: nat)
    requires Subtree(a, id, 0) && IsComparer(cmp) && SortedEntries(a.heap[id].entries, cmp)
    ensures Searched(a, id, 0, key, cmp, FindNode(a, key, id, false, cmp, fuel), [], [])
  {
    var E := a.heap[id].entries;
    KeySearchHits(E, key, cmp);
    if KeySearch(E, key, cmp) < 0 {
      assert Located(a, id, 0, key, cmp, id, KeySearch(E, key, cmp), [], []) by {
        assert Flat(a, id, 0) == [] + E + [];
      }
      forall E' | |E'| > 0
        ensures Subtree(Replace(a, id, E'), id, 0) && Flat(Replace(a, id, E'), id, 0) == [] + E' + []
      {
        assert [] + E' + [] == E';
      }
    } else {
      assert E[KeySearch(E, key, cmp)] in Flat(a, id, 0);
    }
  }

  /** A hit at an internal node ends the search there, at an entry of the subtree. */
  lemma SearchHit<K(!new), V(!new)>(a: Arena<K, V>, id: nat, h: nat, key: K, cmp: Comparer<K>, fuel: nat)
    requires h > 0 && Subtree(a, id, h) && KeySearch(a.heap[id].entries, key, cmp) >= 0
    ensures Searched(a, id, h, key, cmp, FindNode(a, key, id, false, cmp, fuel), [], [])
  {
    var s := KeySearch(a.heap[id].entries, key, cmp);
    var x := a.heap[id].entries[s];
    AroundBoundsHit(a, id, h, s);
    var f := Flat(a, id, h);
    var j :| 0 <= j < |f| && f[j] == x;
    assert cmp(f[j].0, key) == 0;
  }

  /** A miss at an internal node sends FindNode on to the child at the insertion point. */
  lemma MissDescends<K, V>(a: Arena<K, V>, id: nat, h: nat, key: K, cmp: Comparer<K>, fuel: nat)
    requires h > 0 && Subtree(a, id, h) && fuel >= h && KeySearch(a.heap[id].entries, key, cmp) < 0
    ensures var p := -KeySearch(a.heap[id].entries, key, cmp) - 1;
      var c := a.heap[id].children;
      p < |c| && c[p] in a.heap
      && FindNode(a, key, id, false, cmp, fuel) == FindNode(a, key, c[p], false, cmp, fuel - 1)
  {
  }

  /**
   * The child p at the insertion point of a miss at an internal node of a subtree with sorted
   * entries splits the subtree at the key, so the subtree has the key exactly when the child
   * does.
   */
  lemma MissStep<K(!new), V>(a: Arena<K, V>, id: nat, h: nat, key: K, cmp: Comparer<K>) returns (p: nat)
    requires h > 0 && Subtree(a, id, h) && IsComparer(cmp) && SortedEntries(Flat(a, id, h), cmp)
    requires KeySearch(a.heap[id].entries, key, cmp) < 0
    ensures p == -KeySearch(a.heap[id].entries, key, cmp) - 1 && p < |a.heap[id].children|
    ensures Splits(a, id, h, p, key, cmp) && SortedEntries(Flat(a, a.heap[id].children[p], h - 1), cmp)
    ensures HasKey(Flat(a, id, h), key, cmp) <==> HasKey(Flat(a, a.heap[id].children[p], h - 1), key, cmp)
  {
    p := MissPoint(a, id, h, key, cmp);
    AroundBounds(a, id, h, p, key, cmp);
    HasKeyMiddle(Before(a, id, h, p), Flat(a, a.heap[id].children[p], h - 1), After(a, id, h, p), key, cmp);
  }

  /** The insertion point of a miss: the node's entries before it are below the key, the others above. */
  lemma MissPoint<K(!new), V>(a: Arena<K, V>, id: nat, h: nat, key: K, cmp: Comparer<K>) returns (p: nat)
    requires h > 0 && Subtree(a, id, h) && IsComparer(cmp) && SortedEntries(Flat(a, id, h), cmp)
    requires KeySearch(a.heap[id].entries, key, cmp) < 0
    ensures p == -KeySearch(a.heap[id].entries, key, cmp) - 1 && p < |a.heap[id].children|
    ensures p > 0 ==> cmp(a.heap[id].entries[p - 1].0, key) < 0
    ensures p < |a.heap[id].entries| ==> cmp(key, a.heap[id].entries[p].0) < 0
  {
    var E := a.heap[id].entries;
    NodeEntriesSorted(a, id, h, cmp);
    p := MissBounds(E, key, cmp);
  }

  /** On sorted entries without the key, the insertion point has the smaller keys before it and the larger from it on. */
  lemma MissBounds<K(!new), V>(E: seq<(K, V)>, key: K, cmp: Comparer<K>) returns (p: nat)
    requires IsComparer(cmp) && SortedEntries(E, cmp) && KeySearch(E, key, cmp) < 0
    ensures p == -KeySearch(E, key, cmp) - 1 && p <= |E|
    ensures p > 0 ==> cmp(E[p - 1].0, key) < 0
    ensures p < |E| ==> cmp(key, E[p].0) < 0
  {
    var s := KeySearch(E, key, cmp);
    p := -s - 1;
    KeySearchHits(E, key, cmp);
    InsertIndexSplits(E, key, cmp);
    if p > 0 {
      assert cmp(E[p - 1].0, key) != 0;
    }
    if p < |E| {
      assert cmp(E[p].0, key) != 0;
    }
  }

  /** An entry of child p is an entry of id. */
  lemma InChild<K, V>(a: Arena<K, V>, id: nat, h: nat, p: nat, x: (K, V))
    requires h > 0 && Subtree(a, id, h) && p < |a.heap[id].children| && x in Flat(a, a.heap[id].children[p], h - 1)
    ensures x in Flat(a, id, h)
  {
    AroundChild(a, id, h, p);
  }

  /** A hit at entry s of an internal node is an entry of its subtree. */
  lemma AroundBoundsHit<K, V>(a: Arena<K, V>, id: nat, h: nat, s: nat)
    requires h > 0 && Subtree(a, id, h) && s < |a.heap[id].entries|
    ensures a.heap[id].entries[s] in Flat(a, id, h)
  {
    var c := a.heap[id].children;
    AroundChild(a, id, h, s);
    var F := After(a, id, h, s);
    var pre := Before(a, id, h, s) + Flat(a, c[s], h - 1);
    assert Flat(a, id, h)[|pre|] == F[0];
  }

  /** The search sits between before and after in child p: then it sits in id, with the outer parts added. */
  lemma BetweenUp<K(!new), V(!new)>(a: Arena<K, V>, id: nat, h: nat, p: nat, key: K, cmp: Comparer<K>, leaf: nat, s: int,
                                    before: seq<(K, V)>, after: seq<(K, V)>)
    requires h > 0 && Subtree(a, id, h) && p < |a.heap[id].children| && Splits(a, id, h, p, key, cmp)
    requires Between(a, a.heap[id].children[p], h - 1, key, cmp, leaf, s, before, after)
    ensures Between(a, id, h, key, cmp, leaf, s, Before(a, id, h, p) + before, after + After(a, id, h, p))
  {
    LocatedUp(a, id, h, p, key, cmp, leaf, s, before, after);
    ReplaceableUp(a, id, h, p, leaf, before, after);
  }

  lemma LocatedUp<K, V>(a: Arena<K, V>, id: nat, h: nat, p: nat, key: K, cmp: Comparer<K>, leaf: nat, s: int,
                        before: seq<(K, V)>, after: seq<(K, V)>)
    requires h > 0 && Subtree(a, id, h) && p < |a.heap[id].children| && Splits(a, id, h, p, key, cmp)
    requires Located(a, a.heap[id].children[p], h - 1, key, cmp, leaf, s, before, after)
    ensures Located(a, id, h, key, cmp, leaf, s, Before(a, id, h, p) + before, after + After(a, id, h, p))
  {
    var B := Before(a, id, h, p);
    var F := After(a, id, h, p);
    assert Ancestor(a, leaf, h) == id;
    Regroup(B, before, a.heap[leaf].entries, after, F);
    BelowJoin(B, before, key, cmp);
    AboveJoin(after, F, key, cmp);
  }

  lemma ReplaceableUp<K(!new), V(!new)>(a: Arena<K, V>, id: nat, h: nat, p: nat, leaf: nat, before: seq<(K, V)>, after: seq<(K, V)>)
    requires h > 0 && Subtree(a, id, h) && p < |a.heap[id].children|
    requires Subtree(a, a.heap[id].children[p], h - 1) && Subtree(a, leaf, 0) && Ancestor(a, leaf, h - 1) == a.heap[id].children[p]
    requires Replaceable(a, a.heap[id].children[p], h - 1, leaf, before, after)
    ensures Replaceable(a, id, h, leaf, Before(a, id, h, p) + before, after + After(a, id, h, p))
  {
    var c := a.heap[id].children;
    var B := Before(a, id, h, p);
    var F := After(a, id, h, p);
    forall E | |E| > 0
      ensures Subtree(Replace(a, leaf, E), id, h) && Flat(Replace(a, leaf, E), id, h) == B + before + E + (after + F)
    {
      ReplaceBelow(a, id, h, p, leaf, E, before + E + after);
      Regroup(B, before, E, after, F);
    }
  }

  /** Regrouping five joined lists. */
  lemma Regroup<T>(s: seq<T>, t: seq<T>, u: seq<T>, v: seq<T>, w: seq<T>)
    ensures s + (t + u + v) + w == s + t + u + (v + w)
  {
  }

  lemma BelowJoin<K, V>(s: seq<(K, V)>, t: seq<(K, V)>, key: K, cmp: Comparer<K>)
    requires KeysBelow(s, key, cmp) && KeysBelow(t, key, cmp)
    ensures KeysBelow(s + t, key, cmp)
  {
    forall i | 0 <= i < |s + t| ensures cmp((s + t)[i].0, key) < 0 {
      if i >= |s| {
        assert (s + t)[i] == t[i - |s|];
      }
    }
  }

  lemma AboveJoin<K, V>(s: seq<(K, V)>, t: seq<(K, V)>, key: K, cmp: Comparer<K>)
    requires KeysAbove(s, key, cmp) && KeysAbove(t, key, cmp)
    ensures KeysAbove(s + t, key, cmp)
  {
    forall i | 0 <= i < |s + t| ensures cmp(key, (s + t)[i].0) < 0 {
      if i >= |s| {
        assert (s + t)[i] == t[i - |s|];
      }
    }
  }

}
