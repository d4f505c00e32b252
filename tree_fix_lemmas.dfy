/**
 * TreeFixLemmas: what the repairs after a removal do. A rotation moves one entry through the
 * parent's separator and, off a leaf, one child across; the combination pulls the separator
 * down between two siblings. Read left to right across the separator, the entries and the
 * child ids are the same before and after.
 */
module TreeFixLemmas {
  import opened Errors
  import opened TreeArena
  import opened TreeNodes
  import opened TreeNodeLemmas

  /** Three distinct nodes: this one, its sibling and their parent. */
  ghost predicate Trio<K, V>(a: Arena<K, V>, id: nat, sibling: nat, parent: nat)
  {
    id in a.heap && sibling in a.heap && parent in a.heap
    && id != sibling && id != parent && sibling != parent
  }

  /**
   * FixByRotateLeft with the separator i in range: this node appends the separator, which
   * becomes the right sibling's first entry, and the sibling loses that entry. Read across,
   * the entries are unchanged.
   */
  lemma RotateLeftEntries<K, V>(a: Arena<K, V>, id: nat, i: nat, right: nat, parent: nat, min: nat)
    requires Trio(a, id, right, parent) && |a.heap[right].entries| > min
    ensures var P := a.heap[parent];
      var (s, e) := RotateLeft(a, id, i, right, parent, min);
      i >= |P.entries| ==> s == Fail(ArgumentOutOfRange) && e == a
    ensures var N := a.heap[id];
      var R := a.heap[right];
      var P := a.heap[parent];
      var e := RotateLeft(a, id, i, right, parent, min).1;
      i < |P.entries| ==>
        e.heap[id].entries == N.entries + [P.entries[i]]
        && e.heap[parent].entries == P.entries[i := R.entries[0]]
        && e.heap[right].entries == R.entries[1..]
        && e.heap[id].entries + [e.heap[parent].entries[i]] + e.heap[right].entries
           == N.entries + [P.entries[i]] + R.entries
  {
    var R := a.heap[right];
    var N := a.heap[id];
    var P := a.heap[parent];
    if i < |P.entries| {
      assert [R.entries[0]] + R.entries[1..] == R.entries;
      assert N.entries + [P.entries[i]] + [R.entries[0]] + R.entries[1..] == N.entries + [P.entries[i]] + R.entries;
    }
  }

  /**
   * The children in the same rotation: off a leaf sibling, its first child moves to the end
   * of this node's children and names this node as its parent; a leaf sibling moves none.
   * The rotation fails only when the dictionary no longer holds that child.
   */
  lemma RotateLeftChildren<K, V>(a: Arena<K, V>, id: nat, i: nat, right: nat, parent: nat, min: nat)
    requires Trio(a, id, right, parent) && |a.heap[right].entries| > min && i < |a.heap[parent].entries|
    requires a.heap[right].IsLeaf() || a.heap[right].children[0] !in {id, right, parent}
    ensures var N := a.heap[id];
      var R := a.heap[right];
      var (s, e) := RotateLeft(a, id, i, right, parent, min);
      (s == Done <==> R.IsLeaf() || Held(a, R.children[0]))
      && (R.IsLeaf() ==> e.heap[id].children == N.children && e.heap[right].children == R.children)
      && (!R.IsLeaf() && s == Done ==>
            var c := R.children[0];
            e.heap[id].children == N.children + [c] && e.heap[right].children == R.children[1..]
            && e.heap[c] == a.heap[c].(parentId := id)
            && e.heap[id].children + e.heap[right].children == N.children + R.children)
      && e.heap[parent].children == a.heap[parent].children
  {
    var R := a.heap[right];
    var N := a.heap[id];
    if !R.IsLeaf() {
      assert N.children + [R.children[0]] + R.children[1..] == N.children + R.children;
    }
  }

  /** The rotation touches only this node, its sibling, the parent and the child it moves. */
  lemma RotateLeftFrame<K, V>(a: Arena<K, V>, id: nat, i: nat, right: nat, parent: nat, min: nat)
    requires Trio(a, id, right, parent) && |a.heap[right].entries| > min
    ensures var R := a.heap[right];
      var e := RotateLeft(a, id, i, right, parent, min).1;
      forall j | j in a.heap && j != id && j != right && j != parent && (R.IsLeaf() || j != R.children[0]) ::
        e.heap[j] == a.heap[j]
  {
  }

  /**
   * FixByRotateRight with the separator i - 1 in range: this node takes the separator in
   * front, the separator becomes the left sibling's last entry, and the sibling loses that
   * entry. Read across, the entries are unchanged.
   */
  lemma RotateRightEntries<K, V>(a: Arena<K, V>, id: nat, i: nat, left: nat, parent: nat, min: nat)
    requires Trio(a, id, left, parent) && |a.heap[left].entries| > min && i >= 1
    ensures var P := a.heap[parent];
      var (s, e) := RotateRight(a, id, i, left, parent, min);
      i - 1 >= |P.entries| ==> s == Fail(ArgumentOutOfRange) && e == a
    ensures var N := a.heap[id];
      var L := a.heap[left].entries;
      var P := a.heap[parent];
      var e := RotateRight(a, id, i, left, parent, min).1;
      i - 1 < |P.entries| ==>
        e.heap[id].entries == [P.entries[i - 1]] + N.entries
        && e.heap[parent].entries == P.entries[i - 1 := L[|L| - 1]]
        && e.heap[left].entries == L[..|L| - 1]
        && e.heap[left].entries + [e.heap[parent].entries[i - 1]] + e.heap[id].entries
           == L + [P.entries[i - 1]] + N.entries
  {
    var L := a.heap[left].entries;
    var N := a.heap[id];
    var P := a.heap[parent];
    if i - 1 < |P.entries| {
      assert L[..|L| - 1] + [L[|L| - 1]] == L;
      assert L[..|L| - 1] + [L[|L| - 1]] + ([P.entries[i - 1]] + N.entries) == L + [P.entries[i - 1]] + N.entries;
    }
  }

  /**
   * The children in the same rotation: off a leaf sibling, its last child moves to the front
   * of this node's children and names this node as its parent; a leaf sibling moves none.
   */
  lemma RotateRightChildren<K, V>(a: Arena<K, V>, id: nat, i: nat, left: nat, parent: nat, min: nat)
    requires Trio(a, id, left, parent) && |a.heap[left].entries| > min && 1 <= i <= |a.heap[parent].entries|
    requires var L := a.heap[left].children; |L| == 0 || L[|L| - 1] !in {id, left, parent}
    ensures var N := a.heap[id];
      var L := a.heap[left].children;
      var (s, e) := RotateRight(a, id, i, left, parent, min);
      (s == Done <==> |L| == 0 || Held(a, L[|L| - 1]))
      && (|L| == 0 ==> e.heap[id].children == N.children && e.heap[left].children == L)
      && (|L| > 0 && s == Done ==>
            var c := L[|L| - 1];
            e.heap[id].children == [c] + N.children && e.heap[left].children == L[..|L| - 1]
            && e.heap[c] == a.heap[c].(parentId := id)
            && e.heap[left].children + e.heap[id].children == L + N.children)
      && e.heap[parent].children == a.heap[parent].children
  {
    var L := a.heap[left].children;
    var N := a.heap[id];
    if |L| > 0 {
      assert L[..|L| - 1] + ([L[|L| - 1]] + N.children) == L + N.children;
    }
  }

  /** The rotation touches only this node, its sibling, the parent and the child it moves. */
  lemma RotateRightFrame<K, V>(a: Arena<K, V>, id: nat, i: nat, left: nat, parent: nat, min: nat)
    requires Trio(a, id, left, parent) && |a.heap[left].entries| > min && i >= 1
    ensures var L := a.heap[left].children;
      var e := RotateRight(a, id, i, left, parent, min).1;
      forall j | j in a.heap && j != id && j != left && j != parent && (|L| == 0 || j != L[|L| - 1]) ::
        e.heap[j] == a.heap[j]
  {
  }

  /** The heap with the nodes ids name given parent p. */
  ghost function Reparented<K, V>(a: Arena<K, V>, ids: seq<nat>, p: nat): map<nat, Node<K, V>>
  {
    map j | j in a.heap :: if j in ids then a.heap[j].(parentId := p) else a.heap[j]
  }

  /**
   * The tree FixByCombine(t, left, right, parent) builds before it looks at the parent again,
   * stated on its own: left holds its entries, the separator t and right's entries, and its
   * children followed by right's; right's children name left as their parent; the parent
   * drops entry t and child t + 1; right leaves the dictionary.
   */
  ghost function Merged<K, V>(a: Arena<K, V>, t: nat, left: nat, right: nat, parent: nat): Arena<K, V>
    requires left in a.heap && right in a.heap && parent in a.heap
    requires t < |a.heap[parent].entries| && t + 1 < |a.heap[parent].children|
  {
    var L := a.heap[left];
    var R := a.heap[right];
    var P := a.heap[parent];
    var moved := Reparented(a, R.children, left);
    var heap := moved[left := L.(entries := L.entries + [P.entries[t]] + R.entries, children := L.children + R.children)]
                     [parent := P.(entries := RemoveAt(P.entries, t), children := RemoveAt(P.children, t + 1))];
    Arena(heap, a.deleted + {right}, a.counter, if a.root == Some(right) then None else a.root)
  }

  /**
   * The moves of FixByCombine, with the separator and the child after it in range and
   * right's children held, build exactly Merged.
   */
  lemma CombineDownMerges<K, V>(a: Arena<K, V>, t: nat, left: nat, right: nat, parent: nat)
    requires Trio(a, left, right, parent) && ChildrenFound(a, right)
    requires left !in a.heap[right].children && parent !in a.heap[right].children
    requires t < |a.heap[parent].entries| && t + 1 < |a.heap[parent].children|
    ensures CombineDown(a, t, left, right, parent) == (Done, Merged(a, t, left, right, parent))
  {
    var L := a.heap[left];
    var R := a.heap[right];
    var P := a.heap[parent];
    var a1 := Put(a, left, L.(entries := L.entries + [P.entries[t]]));
    var a2 := Put(a1, left, a1.heap[left].(entries := a1.heap[left].entries + a1.heap[right].entries));
    var a3 := Put(a2, left, a2.heap[left].(children := a2.heap[left].children + a2.heap[right].children));
    var L3 := L.(entries := L.entries + [P.entries[t]] + R.entries, children := L.children + R.children);
    assert a3.heap[right] == R && a3.heap[parent] == P;
    assert a3 == a.(heap := a.heap[left := L3]);
    var moved := Reparented(a, R.children, left);
    ReparentedHeap(a, a3, R.children, left, parent, L3, moved);
    var a4 := a.(heap := moved[left := L3]);
    var a5 := Put(a4, parent, a4.heap[parent].(entries := RemoveAt(a4.heap[parent].entries, t)));
    var a6 := Put(a5, parent, a5.heap[parent].(children := RemoveAt(a5.heap[parent].children, t + 1)));
    MergedFromMoved(a, t, left, right, parent, L3, moved);
    assert CombineDown(a, t, left, right, parent) == (Done, Delete(a6, right));
  }

  /** The last moves of FixByCombine, from the heap with right's children moved and left joined. */
  lemma MergedFromMoved<K, V>(a: Arena<K, V>, t: nat, left: nat, right: nat, parent: nat, L3: Node<K, V>,
                              moved: map<nat, Node<K, V>>)
    requires left in a.heap && right in a.heap && parent in a.heap && parent != left
    requires t < |a.heap[parent].entries| && t + 1 < |a.heap[parent].children|
    requires moved == Reparented(a, a.heap[right].children, left) && moved[left := L3][parent] == a.heap[parent]
    requires L3 == a.heap[left].(entries := a.heap[left].entries + [a.heap[parent].entries[t]] + a.heap[right].entries,
                                 children := a.heap[left].children + a.heap[right].children)
    ensures var a4 := a.(heap := moved[left := L3]);
      var a5 := Put(a4, parent, a4.heap[parent].(entries := RemoveAt(a4.heap[parent].entries, t)));
      var a6 := Put(a5, parent, a5.heap[parent].(children := RemoveAt(a5.heap[parent].children, t + 1)));
      Delete(a6, right) == Merged(a, t, left, right, parent)
  {
    var P := a.heap[parent];
    var h4 := moved[left := L3];
    var P5 := P.(entries := RemoveAt(P.entries, t));
    var Pf := P.(entries := RemoveAt(P.entries, t), children := RemoveAt(P.children, t + 1));
    var a4 := a.(heap := h4);
    var a5 := Put(a4, parent, a4.heap[parent].(entries := RemoveAt(a4.heap[parent].entries, t)));
    assert a5.heap == h4[parent := P5];
    var a6 := Put(a5, parent, a5.heap[parent].(children := RemoveAt(a5.heap[parent].children, t + 1)));
    assert a6.heap == h4[parent := Pf];
  }

  /**
   * Reparent of right's children after left has been replaced: it succeeds, and the heap is the
   * moved map with left replaced.
   */
  lemma ReparentedHeap<K, V>(a: Arena<K, V>, a3: Arena<K, V>, ids: seq<nat>, left: nat, parent: nat,
                             L3: Node<K, V>, moved: map<nat, Node<K, V>>)
    requires left in a.heap && left !in ids && parent !in ids && a3 == a.(heap := a.heap[left := L3])
    requires forall k | 0 <= k < |ids| :: Held(a, ids[k])
    requires moved == Reparented(a, ids, left)
    ensures Reparent(a3, ids, left) == (Done, a.(heap := moved[left := L3]))
    ensures parent in a.heap ==> moved[left := L3][parent] == a3.heap[parent]
  {
    ReparentEffect(a3, ids, left);
    var (s, a4) := Reparent(a3, ids, left);
    forall i | i in a4.heap
      ensures a4.heap[i] == moved[left := L3][i]
    {
      if i != left && i in ids {
        assert a4.heap[i] == a.heap[i].(parentId := left);
      }
    }
    assert a4.heap == moved[left := L3];
  }

  /**
   * FixByCombine, with the separator and the child after it in range and right's children
   * held: the tree becomes Merged; then an emptied root parent gives way to left, which
   * becomes the root with no parent, a parent below the minimum is fixed in turn, and any
   * other parent is left as it is.
   */
  lemma CombineMerges<K, V>(a: Arena<K, V>, t: nat, left: nat, right: nat, parent: nat, min: nat, fuel: nat)
    requires Trio(a, left, right, parent) && ChildrenFound(a, right)
    requires left !in a.heap[right].children && parent !in a.heap[right].children
    requires t < |a.heap[parent].entries| && t + 1 < |a.heap[parent].children|
    ensures var P := a.heap[parent];
      var M := Merged(a, t, left, right, parent);
      Combine(a, t, left, right, parent, min, fuel)
        == if P.parentId == 0 && |P.entries| == 1 then (Done, Delete(MakeRoot(SetParent(M, left, 0), left), parent))
           else if P.parentId != 0 && |P.entries| - 1 < min then
             if fuel == 0 then (Fail(NonTermination), M) else FixNode(M, parent, min, fuel - 1)
           else (Done, M)
  {
    CombineDownMerges(a, t, left, right, parent);
  }

  /**
   * FixByCombine fails with ArgumentOutOfRange, changing nothing, when the separator is out
   * of range, and with Argument when the dictionary lacks one of right's children.
   */
  lemma CombineErrors<K, V>(a: Arena<K, V>, t: nat, left: nat, right: nat, parent: nat, min: nat, fuel: nat)
    requires Trio(a, left, right, parent)
    ensures t >= |a.heap[parent].entries| ==> Combine(a, t, left, right, parent, min, fuel) == (Fail(ArgumentOutOfRange), a)
    ensures var R := a.heap[right];
      t < |a.heap[parent].entries| && (exists k | 0 <= k < |R.children| :: !Held(a, R.children[k]))
      ==> Combine(a, t, left, right, parent, min, fuel).0 == Fail(Argument)
  {
    var L := a.heap[left];
    var R := a.heap[right];
    var P := a.heap[parent];
    if t < |P.entries| {
      var a1 := Put(a, left, L.(entries := L.entries + [P.entries[t]]));
      var a2 := Put(a1, left, a1.heap[left].(entries := a1.heap[left].entries + a1.heap[right].entries));
      var a3 := Put(a2, left, a2.heap[left].(children := a2.heap[left].children + a2.heap[right].children));
      assert a3.heap[right] == R;
      ReparentEffect(a3, R.children, left);
    }
  }

  /**
   * Removal from a leaf that stays at or above the minimum, or from a root leaf, drops the
   * entry and changes nothing else.
   */
  lemma RemoveFromLeafNoFix<K, V>(a: Arena<K, V>, id: nat, index: nat, min: nat, fuel: nat)
    requires id in a.heap && index < |a.heap[id].entries|
    requires |a.heap[id].entries| > min || a.heap[id].parentId == 0
    ensures var n := a.heap[id];
      var (s, e) := RemoveFromLeaf(a, id, index, min, fuel);
      s == Done && e.heap[id].entries == RemoveAt(n.entries, index)
      && e.heap[id] == n.(entries := e.heap[id].entries)
      && e.deleted == a.deleted && e.root == a.root
      && forall j | j in a.heap && j != id :: e.heap[j] == a.heap[j]
  {
  }

  /**
   * A non-root leaf at the minimum whose right sibling, a leaf, can spare an entry is
   * refilled by a left rotation: it ends with min entries, the ones it kept followed by the
   * separator, which the sibling's first entry replaces.
   */
  lemma RemoveFromLeafRefills<K, V>(a: Arena<K, V>, id: nat, index: nat, min: nat, fuel: nat, i: nat)
    requires id in a.heap && a.heap[id].IsLeaf() && index < |a.heap[id].entries| == min
    requires IndexInParent(a, id) == Ok(i)
    requires var P := a.heap[a.heap[id].parentId];
      a.heap[id].parentId !in {0, id} && i < |P.entries| && i + 1 < |P.children|
      && Held(a, P.children[i + 1]) && P.children[i + 1] != id && P.children[i + 1] != a.heap[id].parentId
      && a.heap[P.children[i + 1]].IsLeaf() && |a.heap[P.children[i + 1]].entries| > min
    ensures var n := a.heap[id];
      var p := n.parentId;
      var P := a.heap[p];
      var R := a.heap[P.children[i + 1]];
      var (s, e) := RemoveFromLeaf(a, id, index, min, fuel);
      s == Done && e.heap[id].entries == RemoveAt(n.entries, index) + [P.entries[i]]
      && |e.heap[id].entries| == min
      && e.heap[p].entries == P.entries[i := R.entries[0]]
      && e.heap[P.children[i + 1]].entries == R.entries[1..]
  {
    var n := a.heap[id];
    var p := n.parentId;
    var right := a.heap[p].children[i + 1];
    var a1 := Put(a, id, n.(entries := RemoveAt(n.entries, index)));
    assert IndexInParent(a1, id) == Ok(i);
    assert RightSibling(a1, p, i) == Ok(Some(right));
    RotateLeftEntries(a1, id, i, right, p, min);
    RotateLeftChildren(a1, id, i, right, p, min);
    assert RemoveFromLeaf(a, id, index, min, fuel) == RotateLeft(a1, id, i, right, p, min);
  }

  /**
   * Remove on an internal node: the entry at index is replaced by the last entry of the leaf
   * FindLargest reaches from child index, and that leaf, when it can spare an entry, loses
   * its last one. Nothing else changes.
   */
  lemma RemoveTakesPredecessor<K, V>(a: Arena<K, V>, id: nat, index: nat, min: nat, fuel: nat, leaf: nat)
    requires id in a.heap && !a.heap[id].IsLeaf() && index < |a.heap[id].entries| && index < |a.heap[id].children|
    requires Held(a, a.heap[id].children[index])
    requires FindLargest(a, a.heap[id].children[index], fuel).Ok?
    requires FindLargest(a, a.heap[id].children[index], fuel).value.0 == leaf && leaf != id
    requires |a.heap[leaf].entries| > min
    ensures var n := a.heap[id];
      var L := a.heap[leaf].entries;
      var (s, e) := Remove(a, id, index, min, fuel);
      s == Done && e.heap[id] == n.(entries := n.entries[index := L[|L| - 1]])
      && e.heap[leaf] == a.heap[leaf].(entries := L[..|L| - 1])
      && e.deleted == a.deleted && e.root == a.root
      && forall j | j in a.heap && j != id && j != leaf :: e.heap[j] == a.heap[j]
  {
    var n := a.heap[id];
    var L := a.heap[leaf].entries;
    var a1 := Put(a, id, n.(entries := n.entries[index := L[|L| - 1]]));
    RemoveFromLeafNoFix(a1, leaf, |L| - 1, min, fuel);
    assert RemoveAt(L, |L| - 1) == L[..|L| - 1];
  }
}
