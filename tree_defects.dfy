/**
 * TreeDefects: three places where TreeNode as written departs from what its comments and its
 * callers describe, each next to the corrected behaviour that TreeNodes models.
 *
 * - Split copies halfCount child ids into an array of halfCount + 1, so the larger node's last
 *   child id is 0, and re-parenting it asks the node manager for node 0.
 * - Split, when the parent overflows, splits this node again instead of the parent; this node
 *   has only halfCount entries left, so reading its middle entry is out of range.
 * - Remove on a leaf returns early exactly when the node has fallen below the minimum, and
 *   fixes the node when it has not.
 */
module TreeDefects {
  import opened Errors
  import opened Comparers
  import opened TreeArena
  import opened TreeNodes
  import opened TreeNodeLemmas

  /**
   * Split as written copies halfCount child ids, not halfCount + 1 (SplitOff with count h):
   * the larger node's child list ends in id 0, which no node has, and the split of any
   * internal node of the expected shape fails where it re-parents it.
   */
  lemma SplitCopiesTooFewChildren<K, V>(a: Arena<K, V>, id: nat, h: nat)
    requires id in a.heap && 0 < a.counter && !Held(a, 0)
    requires |a.heap[id].entries| == 2 * h + 1 && |a.heap[id].children| == 2 * h + 2
    ensures var c := a.heap[id].children;
      LargeChildren(c, h, h) == c[h + 1..2 * h + 1] + [0]
    ensures SplitOff(a, id, h, h).0 == Err(Argument)
  {
    var n := a.heap[id];
    var lc := LargeChildren(n.children, h, h);
    assert lc == n.children[h + 1..2 * h + 1] + [0] by {
      assert lc[..h] == n.children[h + 1..2 * h + 1] && lc[h] == 0 && lc == lc[..h] + [lc[h]];
    }
    var (large, a1) := Create(a, n.entries[h + 1..2 * h + 1], lc);
    assert !Held(a1, lc[h]);
    ReparentRefusesMissing(a1, lc, large.id, h);
    assert SplitOff(a, id, h, h) == MoveLarge(a, id, h, n.entries[h], n.entries[h + 1..2 * h + 1], lc, false);
  }

  /** Re-parenting stops with an ArgumentException at the first id the dictionary does not hold. */
  lemma {:induction false} ReparentRefusesMissing<K, V>(a: Arena<K, V>, ids: seq<nat>, parent: nat, k: nat)
    requires k < |ids| && !Held(a, ids[k])
    ensures Reparent(a, ids, parent).0 == Fail(Argument)
    decreases |ids|
  {
    if Held(a, ids[0]) {
      assert ids[1..][k - 1] == ids[k];
      ReparentRefusesMissing(SetParent(a, ids[0], parent), ids[1..], parent, k - 1);
    }
  }

  /**
   * Split as written: the larger node gets halfCount child ids, and a parent that
   * overflows after taking the middle entry is not split; this node is split again.
   */
  function SplitAsWritten<K, V>(a: Arena<K, V>, id: nat, min: nat, cmp: Comparer<K>, fuel: nat): (r: (Result<nat>, Arena<K, V>))
    requires id in a.heap
    ensures a.heap.Keys <= r.1.heap.Keys
    decreases fuel, 1
  {
    var (o, a1) := SplitOff(a, id, min, min);
    if o.Err? then (Err(o.error), a1)
    else
      var (s, a2) := SplitUpAsWritten(a1, id, o.value.0, o.value.1, min, cmp, fuel);
      (if s.Fail? then Err(s.error) else Ok(o.value.0), a2)
  }

  /** SplitUp with its last call as written: Split() on this node, not on the parent. */
  function SplitUpAsWritten<K, V>(a: Arena<K, V>, id: nat, large: nat, middle: (K, V), min: nat, cmp: Comparer<K>,
                                  fuel: nat): (r: (Status, Arena<K, V>))
    requires id in a.heap && large in a.heap
    ensures a.heap.Keys <= r.1.heap.Keys
    decreases fuel, 0
  {
    var pid := a.heap[id].parentId;
    if pid == 0 then
      var (root, a1) := CreateNewRoot(a, middle.0, middle.1, id, large);
      (Done, SetParent(SetParent(a1, id, root.id), large, root.id))
    else if !Held(a, pid) then (Fail(Argument), a)
    else
      var (ins, a1) := InsertAsParent(a, pid, middle.0, middle.1, id, large, cmp);
      if ins.Err? then (Fail(ins.error), a1)
      else
        var a2 := SetParent(a1, large, pid);
        if !IsOverflow(a2.heap[pid], min) then (Done, a2)
        else if fuel == 0 then (Fail(NonTermination), a2)
        else
          var (s, a3) := SplitAsWritten(a2, id, min, cmp, fuel - 1);
          (if s.Err? then Fail(s.error) else Done, a3)
  }

  /**
   * Under a full parent, the second split as written reads the middle entry of a node that
   * has just kept only min entries, which is out of range; the parent that took the middle
   * entry is left overflowing.
   */
  lemma SplitUpAsWrittenResplitsChild<K(!new), V>(a: Arena<K, V>, id: nat, large: nat, middle: (K, V), min: nat,
                                                   cmp: Comparer<K>, fuel: nat)
    requires id in a.heap && large in a.heap && id != large && min < 0x8000 && IsComparer(cmp) && fuel > 0
    requires |a.heap[id].entries| == min
    requires var pid := a.heap[id].parentId;
      pid != 0 && Held(a, pid) && pid != large && pid != id && SortedEntries(a.heap[pid].entries, cmp)
      && |a.heap[pid].children| == |a.heap[pid].entries| + 1 && |a.heap[pid].entries| == 2 * min
      && a.heap[pid].children[InsertIndex(KeySearch(a.heap[pid].entries, middle.0, cmp))] == id
    ensures var pid := a.heap[id].parentId;
      var (s, e) := SplitUpAsWritten(a, id, large, middle, min, cmp, fuel);
      s == Fail(ArgumentOutOfRange) && e.heap[pid] == Promoted(a.heap[pid], middle, large, cmp)
      && IsOverflow(e.heap[pid], min)
  {
    var pid := a.heap[id].parentId;
    InsertAsParentPlacement(a, pid, middle.0, middle.1, id, large, cmp);
    var (ins, a1) := InsertAsParent(a, pid, middle.0, middle.1, id, large, cmp);
    var a2 := SetParent(a1, large, pid);
    assert IsOverflow(a2.heap[pid], min);
    assert a2.heap[id] == a.heap[id];
    assert SplitAsWritten(a2, id, min, cmp, fuel - 1) == (Err(ArgumentOutOfRange), a2);
  }

  /**
   * So the split as written of a leaf under a full parent fails with an out-of-range index
   * after the new node has been created and the parent has overflowed.
   */
  lemma SplitAsWrittenUnderFullParent<K(!new), V>(a: Arena<K, V>, id: nat, min: nat, cmp: Comparer<K>, fuel: nat)
    requires Unused(a, a.counter) && id in a.heap && a.heap[id].IsLeaf() && |a.heap[id].entries| == 2 * min + 1
    requires min < 0x8000 && IsComparer(cmp) && fuel > 0
    requires var n := a.heap[id];
      var pid := n.parentId;
      pid != 0 && Held(a, pid) && pid != id && SortedEntries(a.heap[pid].entries, cmp)
      && |a.heap[pid].children| == |a.heap[pid].entries| + 1 && |a.heap[pid].entries| == 2 * min
      && a.heap[pid].children[InsertIndex(KeySearch(a.heap[pid].entries, n.entries[min].0, cmp))] == id
    ensures var (r, e) := SplitAsWritten(a, id, min, cmp, fuel);
      r == Err(ArgumentOutOfRange) && a.counter in e.heap && IsOverflow(e.heap[a.heap[id].parentId], min)
  {
    var n := a.heap[id];
    var pid := n.parentId;
    SplitOffShape(a, id, min);
    SplitOffFrame(a, id, min);
    assert SplitOff(a, id, min, min) == SplitOff(a, id, min, min + 1);
    var (o, a1) := SplitOff(a, id, min, min);
    assert a1.heap[pid] == a.heap[pid];
    SplitUpAsWrittenResplitsChild(a1, id, a.counter, n.entries[min], min, cmp, fuel);
  }

  /**
   * Remove on a leaf as written: it returns when the node has fallen below the
   * minimum or has no parent, and fixes it otherwise.
   */
  function RemoveFromLeafAsWritten<K, V>(a: Arena<K, V>, id: nat, index: nat, min: nat, fuel: nat): (r: (Status, Arena<K, V>))
    requires id in a.heap && index < |a.heap[id].entries|
    ensures r.1.heap.Keys == a.heap.Keys
  {
    var n := a.heap[id];
    var a1 := Put(a, id, n.(entries := RemoveAt(n.entries, index)));
    if |n.entries| - 1 < min || n.parentId == 0 then (Done, a1)
    else FixNode(a1, id, min, fuel)
  }

  /**
   * A non-root leaf at the minimum keeps min - 1 entries after a removal as written, and no
   * sibling is consulted; one above the minimum is fixed although it does not need it.
   */
  lemma RemoveAsWrittenLeavesUnderflow<K, V>(a: Arena<K, V>, id: nat, index: nat, min: nat, fuel: nat)
    requires id in a.heap && index < |a.heap[id].entries| && a.heap[id].parentId != 0
    ensures var n := a.heap[id];
      var a1 := Put(a, id, n.(entries := RemoveAt(n.entries, index)));
      var (s, e) := RemoveFromLeafAsWritten(a, id, index, min, fuel);
      (|n.entries| == min ==> s == Done && e == a1 && |e.heap[id].entries| < min)
      && (|n.entries| > min ==> (s, e) == FixNode(a1, id, min, fuel))
  {
  }
}
