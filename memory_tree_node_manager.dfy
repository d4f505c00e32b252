/**
 * MemoryTreeNodeManagers: the node manager that keeps the B-tree in memory, and the methods of
 * TreeNode carried out on the nodes it holds.
 *
 * The manager's state is the arena of TreeArena: every node object created (`heap`), the ids
 * its dictionary has dropped (`deleted`), the id counter and the root. Each method changes
 * that state step by step as the source does, and its postcondition says that the outcome and
 * the new state are those the matching function of TreeArena or TreeNodes gives for the old
 * state; the properties of those functions are proved beside them.
 *
 * MarkAsChanged and Save do nothing in this manager, so the node methods leave their calls out.
 */
module MemoryTreeNodeManagers {
  import opened Errors
  import opened Comparers
  import opened TreeArena
  import TreeNodes

  /** Every element of a run of zeros is 0. */
  lemma {:induction false} ZerosAreZero(n: nat)
    ensures forall j | 0 <= j < n :: TreeNodes.Zeros(n)[j] == 0
  {
    if n > 0 {
      ZerosAreZero(n - 1);
      assert TreeNodes.Zeros(n) == TreeNodes.Zeros(n - 1) + [0];
    }
  }

  class MemoryTreeNodeManager<K, V> {
    /** The node objects created so far, by id. */
    var heap: map<nat, Node<K, V>>
    /** The ids the dictionary no longer holds. */
    var deleted: set<nat>
    var idCounter: nat
    var rootNode: Option<nat>
    const minEntriesPerNode: nat
    const keyComparer: Comparer<K>

    /** The manager's fields as an arena. */
    function State(): Arena<K, V>
      reads this
    {
      Arena(heap, deleted, idCounter, rootNode)
    }

    /** The constructor: an empty dictionary, the counter at 1, and an empty root made by Create. */
    constructor(minEntriesPerNode: nat, keyComparer: Comparer<K>)
      requires minEntriesPerNode < 0x1_0000
      ensures State() == Initial() && Consistent(State())
      ensures this.minEntriesPerNode == minEntriesPerNode && this.keyComparer == keyComparer
    {
      this.minEntriesPerNode := minEntriesPerNode;
      this.keyComparer := keyComparer;
      heap := map[];
      deleted := {};
      idCounter := 1;
      rootNode := None;
      new;
      var root := Create([], []);
      rootNode := Some(root.id);
    }

    /** Create: a node with the next id and parent 0, entered in the dictionary. */
    method Create(entries: seq<(K, V)>, childrenIds: seq<nat>) returns (n: Node<K, V>)
      modifies this
      ensures (n, State()) == TreeArena.Create(old(State()), entries, childrenIds)
    {
      n := Node(idCounter, 0, entries, childrenIds);
      idCounter := idCounter + 1;
      heap := heap[n.id := n];
      deleted := deleted - {n.id};
    }

    /** Find: the node the dictionary holds for id, or ArgumentException. */
    method Find(id: nat) returns (r: Result<Node<K, V>>)
      ensures r == TreeArena.Find(State(), id)
    {
      if id !in heap || id in deleted {
        return Err(Argument);
      }
      return Ok(heap[id]);
    }

    /** CreateNewRoot: a node holding (key, value) between left and right, made the root. */
    method CreateNewRoot(key: K, value: V, left: nat, right: nat) returns (n: Node<K, V>)
      modifies this
      ensures (n, State()) == TreeArena.CreateNewRoot(old(State()), key, value, left, right)
    {
      n := Create([(key, value)], [left, right]);
      MakeRoot(n.id);
    }

    /** MakeRoot: the root becomes the given node. */
    method MakeRoot(id: nat)
      modifies this
      ensures State() == TreeArena.MakeRoot(old(State()), id)
    {
      rootNode := Some(id);
    }

    /** Delete: the root is cleared if it was this node, and the dictionary drops it. */
    method Delete(id: nat)
      modifies this
      ensures State() == TreeArena.Delete(old(State()), id)
    {
      if rootNode == Some(id) {
        rootNode := None;
      }
      deleted := deleted + {id};
    }

    /** The ParentId setter of a node. */
    method SetParentId(id: nat, parent: nat)
      requires id in heap
      modifies this
      ensures State() == SetParent(old(State()), id, parent)
    {
      heap := heap[id := heap[id].(parentId := parent)];
    }

    /** TreeNode.InsertAsLeaf: List.Insert into the entries. */
    method InsertAsLeaf(id: nat, key: K, value: V, index: int) returns (s: Status)
      requires id in heap
      modifies this
      ensures (s, State()) == TreeNodes.InsertAsLeaf(old(State()), id, key, value, index)
    {
      var n := heap[id];
      if index < 0 || index > |n.entries| {
        return Fail(ArgumentOutOfRange);
      }
      heap := heap[id := n.(entries := TreeNodes.InsertAt(n.entries, index, (key, value)))];
      return Done;
    }

    /** TreeNode.InsertAsParent: the entry at its search position p, left at p, right at p + 1. */
    method InsertAsParent(id: nat, key: K, value: V, left: nat, right: nat) returns (r: Result<nat>)
      requires id in heap
      modifies this
      ensures (r, State()) == TreeNodes.InsertAsParent(old(State()), id, key, value, left, right, keyComparer)
    {
      var n := heap[id];
      ghost var a := State();
      var p := TreeNodes.InsertIndex(TreeNodes.KeySearch(n.entries, key, keyComparer));
      var n1 := n.(entries := TreeNodes.InsertAt(n.entries, p, (key, value)));
      heap := heap[id := n1];
      if p > |n.children| {
        return Err(ArgumentOutOfRange);
      }
      var c := TreeNodes.InsertAt(n.children, p, left);
      if p + 1 >= |c| {
        heap := heap[id := n1.(children := c)];
        assert State() == Put(a, id, n1.(children := c));
        return Err(ArgumentOutOfRange);
      }
      heap := heap[id := n1.(children := c[p + 1 := right])];
      assert State() == Put(a, id, n1.(children := c[p + 1 := right]));
      return Ok(p);
    }

    /** The loops that look up each moved child and set its ParentId (Split, FixByCombine). */
    method Reparent(ids: seq<nat>, parent: nat) returns (s: Status)
      modifies this
      ensures (s, State()) == TreeNodes.Reparent(old(State()), ids, parent)
    {
      var i := 0;
      while i < |ids|
        invariant 0 <= i <= |ids|
        invariant TreeNodes.Reparent(old(State()), ids, parent) == TreeNodes.Reparent(State(), ids[i..], parent)
      {
        var child := Find(ids[i]);
        if child.Err? {
          return Fail(Argument);
        }
        assert ids[i..][1..] == ids[i + 1..];
        SetParentId(ids[i], parent);
        i := i + 1;
      }
      return Done;
    }

    /** The copy of count child ids from position h + 1 into a fresh array of h + 1 ids. */
    static method CopyChildren(children: seq<nat>, h: nat, count: nat) returns (buffer: array<nat>)
      requires count <= h + 1 && h + 1 + count <= |children|
      ensures fresh(buffer) && buffer[..] == TreeNodes.LargeChildren(children, h, count)
    {
      buffer := new nat[h + 1](_ => 0);
      var k := 0;
      while k < count
        invariant 0 <= k <= count && buffer.Length == h + 1
        invariant forall j | 0 <= j < h + 1 :: buffer[j] == if j < k then children[h + 1 + j] else 0
      {
        buffer[k] := children[h + 1 + k];
        k := k + 1;
      }
      ZerosAreZero(h + 1 - count);
      assert buffer[..] == TreeNodes.LargeChildren(children, h, count);
    }

    /**
     * The first half of Split: the middle entry, the larger entries and count child ids copied
     * out, the new node created and its children re-parented, and this node cut back.
     */
    method SplitOff(id: nat, h: nat, count: nat) returns (r: Result<(nat, (K, V))>)
      requires id in heap && count <= h + 1
      modifies this
      ensures (r, State()) == TreeNodes.SplitOff(old(State()), id, h, count)
    {
      var n := heap[id];
      if h >= |n.entries| {
        return Err(ArgumentOutOfRange);
      }
      var middle := n.entries[h];
      if |n.entries| - (h + 1) < h {
        return Err(Argument);
      }
      var largeEntries := n.entries[h + 1..2 * h + 1];
      var largeChildren: seq<nat> := [];
      if !n.IsLeaf() {
        if |n.children| - (h + 1) < count {
          return Err(Argument);
        }
        var buffer := CopyChildren(n.children, h, count);
        largeChildren := buffer[..];
      }
      r := MoveLarge(id, h, middle, largeEntries, largeChildren, n.IsLeaf());
    }

    /** The rest of SplitOff: the new node created, its children re-parented, this node cut back. */
    method MoveLarge(id: nat, h: nat, middle: (K, V), largeEntries: seq<(K, V)>, largeChildren: seq<nat>, leaf: bool)
      returns (r: Result<(nat, (K, V))>)
      requires id in heap && h <= |heap[id].entries| && h <= |largeEntries|
      requires !leaf ==> h + 1 <= |heap[id].children| && h + 1 <= |largeChildren|
      modifies this
      ensures (r, State()) == TreeNodes.MoveLarge(old(State()), id, h, middle, largeEntries, largeChildren, leaf)
    {
      var large := Create(largeEntries, largeChildren);
      ghost var a1 := State();
      var s := Reparent(largeChildren, large.id);
      TreeNodes.ReparentEffect(a1, largeChildren, large.id);
      if s.Fail? {
        return Err(s.error);
      }
      var m := heap[id];
      heap := heap[id := m.(entries := m.entries[..h], children := if leaf then m.children else m.children[..h + 1])];
      return Ok((large.id, middle));
    }

    /** TreeNode.Split(), with the overflowing parent split in turn; returns the new node's id. */
    method Split(id: nat, fuel: nat) returns (r: Result<nat>)
      requires id in heap
      modifies this
      ensures (r, State()) == TreeNodes.Split(old(State()), id, minEntriesPerNode, keyComparer, fuel)
      decreases fuel, 1
    {
      var o := SplitOff(id, minEntriesPerNode, minEntriesPerNode + 1);
      if o.Err? {
        return Err(o.error);
      }
      var s := SplitUp(id, o.value.0, o.value.1, fuel);
      r := if s.Fail? then Err(s.error) else Ok(o.value.0);
    }

    /** The second half of Split: the middle entry goes to a new root or to the parent. */
    method SplitUp(id: nat, large: nat, middle: (K, V), fuel: nat) returns (s: Status)
      requires id in heap && large in heap
      modifies this
      ensures (s, State()) == TreeNodes.SplitUp(old(State()), id, large, middle, minEntriesPerNode, keyComparer, fuel)
      decreases fuel, 0
    {
      var pid := heap[id].parentId;
      if pid == 0 {
        s := SplitToNewRoot(id, large, middle, fuel);
        return;
      }
      var parent := Find(pid);
      if parent.Err? {
        return Fail(Argument);
      }
      var ins := InsertAsParent(pid, middle.0, middle.1, id, large);
      if ins.Err? {
        return Fail(ins.error);
      }
      SetParentId(large, pid);
      if !IsOverflow(heap[pid], minEntriesPerNode) {
        return Done;
      }
      if fuel == 0 {
        return Fail(NonTermination);
      }
      s := SplitParent(pid, fuel - 1);
    }

    /** SplitUp with no parent: a new root over the two halves. */
    method SplitToNewRoot(id: nat, large: nat, middle: (K, V), fuel: nat) returns (s: Status)
      requires id in heap && large in heap && heap[id].parentId == 0
      modifies this
      ensures (s, State()) == TreeNodes.SplitUp(old(State()), id, large, middle, minEntriesPerNode, keyComparer, fuel)
    {
      var root := CreateNewRoot(middle.0, middle.1, id, large);
      SetParentId(id, root.id);
      SetParentId(large, root.id);
      return Done;
    }

    /** The split of a parent that overflowed after taking the middle entry. */
    method SplitParent(pid: nat, fuel: nat) returns (s: Status)
      requires pid in heap
      modifies this
      ensures (s, State()) == TreeNodes.SplitParent(old(State()), pid, minEntriesPerNode, keyComparer, fuel)
      decreases fuel, 2
    {
      var r := Split(pid, fuel);
      s := if r.Err? then Fail(r.error) else Done;
    }

    /** TreeNode.FindLargest: the leaf reached through the last children, and its last index. */
    method FindLargest(id: nat, fuel: nat) returns (r: Result<(nat, int)>)
      requires id in heap
      ensures r == TreeNodes.FindLargest(State(), id, fuel)
      decreases fuel
    {
      var n := heap[id];
      if n.IsLeaf() {
        return Ok((id, |n.entries| - 1));
      }
      var c := n.children[|n.children| - 1];
      var rightMost := Find(c);
      if rightMost.Err? {
        return Err(Argument);
      }
      if fuel == 0 {
        return Err(NonTermination);
      }
      r := FindLargest(c, fuel - 1);
    }

    /** TreeNode.FindSmallest: the leaf reached through the first children, and index 0. */
    method FindSmallest(id: nat, fuel: nat) returns (r: Result<(nat, int)>)
      requires id in heap
      ensures r == TreeNodes.FindSmallest(State(), id, fuel)
      decreases fuel
    {
      var n := heap[id];
      if n.IsLeaf() {
        return Ok((id, 0));
      }
      var c := n.children[0];
      var leftMost := Find(c);
      if leftMost.Err? {
        return Err(Argument);
      }
      if fuel == 0 {
        return Err(NonTermination);
      }
      r := FindSmallest(c, fuel - 1);
    }

    /** TreeNode.IndexInParent: the loop over the parent's child ids. */
    method IndexInParent(id: nat) returns (r: Result<nat>)
      requires id in heap
      ensures r == TreeNodes.IndexInParent(State(), id)
    {
      var parent := Find(heap[id].parentId);
      if parent.Err? {
        return Err(Argument);
      }
      var siblings := parent.value.children;
      var i := 0;
      while i < |siblings|
        invariant 0 <= i <= |siblings|
        invariant forall k | 0 <= k < i :: siblings[k] != id
      {
        if siblings[i] == id {
          return Ok(i);
        }
        i := i + 1;
      }
      return Err(Generic);
    }

    /** GetRightSibling: the parent's child after position i, or none. */
    method GetRightSibling(parent: nat, i: nat) returns (r: Result<Option<nat>>)
      requires parent in heap
      ensures r == TreeNodes.RightSibling(State(), parent, i)
    {
      var c := heap[parent].children;
      if i + 1 < |c| {
        var sibling := Find(c[i + 1]);
        if sibling.Err? {
          return Err(Argument);
        }
        return Ok(Some(c[i + 1]));
      }
      return Ok(None);
    }

    /** GetLeftSibling: the parent's child before position i, or none. */
    method GetLeftSibling(parent: nat, i: nat) returns (r: Result<Option<nat>>)
      requires parent in heap
      ensures r == TreeNodes.LeftSibling(State(), parent, i)
    {
      var c := heap[parent].children;
      if i >= 1 {
        if i - 1 >= |c| {
          return Err(ArgumentOutOfRange);
        }
        var sibling := Find(c[i - 1]);
        if sibling.Err? {
          return Err(Argument);
        }
        return Ok(Some(c[i - 1]));
      }
      return Ok(None);
    }

    /** FixByRotateLeft, taken: the separator comes down, the right sibling's first entry goes up. */
    method RotateLeft(id: nat, i: nat, right: nat, parent: nat) returns (s: Status)
      requires id in heap && right in heap && parent in heap && |heap[right].entries| > minEntriesPerNode
      modifies this
      ensures (s, State()) == TreeNodes.RotateLeft(old(State()), id, i, right, parent, minEntriesPerNode)
    {
      if i >= |heap[parent].entries| {
        return Fail(ArgumentOutOfRange);
      }
      ShiftLeft(id, i, right, parent);
      s := MoveFirstChild(id, right);
    }

    /** The entries of a left rotation. */
    method ShiftLeft(id: nat, i: nat, right: nat, parent: nat)
      requires id in heap && right in heap && parent in heap
      requires i < |heap[parent].entries| && |heap[right].entries| > 0
      modifies this
      ensures State() == TreeNodes.ShiftLeft(old(State()), id, i, right, parent)
    {
      var separator := heap[parent].entries[i];
      heap := heap[id := heap[id].(entries := heap[id].entries + [separator])];
      var first := heap[right].entries[0];
      heap := heap[parent := heap[parent].(entries := heap[parent].entries[i := first])];
      heap := heap[right := heap[right].(entries := heap[right].entries[1..])];
    }

    /** The children of a left rotation: the right sibling's first child, re-parented, moves over. */
    method MoveFirstChild(id: nat, right: nat) returns (s: Status)
      requires id in heap && right in heap
      modifies this
      ensures (s, State()) == TreeNodes.MoveFirstChild(old(State()), id, right)
    {
      if heap[right].IsLeaf() {
        return Done;
      }
      var c := heap[right].children[0];
      var firstChild := Find(c);
      if firstChild.Err? {
        return Fail(Argument);
      }
      heap := heap[c := heap[c].(parentId := id)];
      heap := heap[id := heap[id].(children := heap[id].children + [c])];
      heap := heap[right := heap[right].(children := heap[right].children[1..])];
      return Done;
    }

    /** FixByRotateRight, taken: the mirror image through separator i - 1 and the left sibling. */
    method RotateRight(id: nat, i: nat, left: nat, parent: nat) returns (s: Status)
      requires id in heap && left in heap && parent in heap && i >= 1 && |heap[left].entries| > minEntriesPerNode
      modifies this
      ensures (s, State()) == TreeNodes.RotateRight(old(State()), id, i, left, parent, minEntriesPerNode)
    {
      if i - 1 >= |heap[parent].entries| {
        return Fail(ArgumentOutOfRange);
      }
      ShiftRight(id, i, left, parent);
      s := MoveLastChild(id, left);
    }

    /** The entries of a right rotation. */
    method ShiftRight(id: nat, i: nat, left: nat, parent: nat)
      requires id in heap && left in heap && parent in heap
      requires 1 <= i <= |heap[parent].entries| && |heap[left].entries| > 0
      modifies this
      ensures State() == TreeNodes.ShiftRight(old(State()), id, i, left, parent)
    {
      var separator := heap[parent].entries[i - 1];
      heap := heap[id := heap[id].(entries := [separator] + heap[id].entries)];
      var leftEntries := heap[left].entries;
      heap := heap[parent := heap[parent].(entries := heap[parent].entries[i - 1 := leftEntries[|leftEntries| - 1]])];
      leftEntries := heap[left].entries;
      heap := heap[left := heap[left].(entries := leftEntries[..|leftEntries| - 1])];
    }

    /** The children of a right rotation: the left sibling's last child, re-parented, moves over. */
    method MoveLastChild(id: nat, left: nat) returns (s: Status)
      requires id in heap && left in heap
      modifies this
      ensures (s, State()) == TreeNodes.MoveLastChild(old(State()), id, left)
    {
      if heap[left].IsLeaf() {
        return Done;
      }
      var leftChildIds := heap[left].children;
      var c := leftChildIds[|leftChildIds| - 1];
      var lastChild := Find(c);
      if lastChild.Err? {
        return Fail(Argument);
      }
      heap := heap[c := heap[c].(parentId := id)];
      heap := heap[id := heap[id].(children := [c] + heap[id].children)];
      leftChildIds := heap[left].children;
      heap := heap[left := heap[left].(children := leftChildIds[..|leftChildIds| - 1])];
      return Done;
    }

    /** TreeNode.FixNode: rotate from the right, else from the left, else combine. */
    method FixNode(id: nat, fuel: nat) returns (s: Status)
      requires id in heap
      modifies this
      ensures (s, State()) == TreeNodes.FixNode(old(State()), id, minEntriesPerNode, fuel)
      decreases fuel, 2
    {
      var ip := IndexInParent(id);
      if ip.Err? {
        return Fail(ip.error);
      }
      var i := ip.value;
      var p := heap[id].parentId;
      var rs := GetRightSibling(p, i);
      if rs.Err? {
        return Fail(rs.error);
      }
      if rs.value.Some? && |heap[rs.value.value].entries| > minEntriesPerNode {
        s := RotateLeft(id, i, rs.value.value, p);
        return;
      }
      var ls := GetLeftSibling(p, i);
      if ls.Err? {
        return Fail(ls.error);
      }
      if ls.value.Some? && |heap[ls.value.value].entries| > minEntriesPerNode {
        s := RotateRight(id, i, ls.value.value, p);
        return;
      }
      if rs.value.Some? {
        s := Combine(i, id, rs.value.value, p, fuel);
      } else if ls.value.Some? {
        s := Combine(i - 1, ls.value.value, id, p, fuel);
      } else {
        s := Fail(NullReference);
      }
    }

    /** FixByCombine: merge right into left through separator t, then look at the parent. */
    method Combine(t: nat, left: nat, right: nat, parent: nat, fuel: nat) returns (s: Status)
      requires left in heap && right in heap && parent in heap
      modifies this
      ensures (s, State()) == TreeNodes.Combine(old(State()), t, left, right, parent, minEntriesPerNode, fuel)
      decreases fuel, 1
    {
      s := CombineDown(t, left, right, parent);
      s := CombineThen(s, left, parent, fuel);
    }

    /** The end of FixByCombine: an emptied root is replaced, a parent below the minimum fixed. */
    method CombineThen(moved: Status, left: nat, parent: nat, fuel: nat) returns (s: Status)
      requires left in heap && parent in heap
      modifies this
      ensures (s, State()) == TreeNodes.CombineThen(old(State()), moved, left, parent, minEntriesPerNode, fuel)
      decreases fuel, 0
    {
      if moved.Fail? {
        return moved;
      }
      var Q := heap[parent];
      if Q.parentId == 0 && |Q.entries| == 0 {
        ReplaceRoot(left, parent);
        return Done;
      } else if Q.parentId != 0 && |Q.entries| < minEntriesPerNode {
        if fuel == 0 {
          return Fail(NonTermination);
        }
        s := FixNode(parent, fuel - 1);
      } else {
        return Done;
      }
    }

    /** An emptied root parent gives way to left, which has no parent from now on. */
    method ReplaceRoot(left: nat, parent: nat)
      requires left in heap
      modifies this
      ensures State() == TreeArena.Delete(TreeArena.MakeRoot(SetParent(old(State()), left, 0), left), parent)
    {
      heap := heap[left := heap[left].(parentId := 0)];
      MakeRoot(left);
      Delete(parent);
    }

    /** The moves of FixByCombine, before it looks at the parent again. */
    method CombineDown(t: nat, left: nat, right: nat, parent: nat) returns (s: Status)
      requires left in heap && right in heap && parent in heap
      modifies this
      ensures (s, State()) == TreeNodes.CombineDown(old(State()), t, left, right, parent)
    {
      var P := heap[parent];
      if t >= |P.entries| {
        return Fail(ArgumentOutOfRange);
      }
      heap := heap[left := heap[left].(entries := heap[left].entries + [P.entries[t]])];
      heap := heap[left := heap[left].(entries := heap[left].entries + heap[right].entries)];
      heap := heap[left := heap[left].(children := heap[left].children + heap[right].children)];
      s := Reparent(heap[right].children, left);
      if s.Fail? {
        return;
      }
      if t >= |heap[parent].entries| {
        return Fail(ArgumentOutOfRange);
      }
      heap := heap[parent := heap[parent].(entries := TreeNodes.RemoveAt(heap[parent].entries, t))];
      if t + 1 >= |heap[parent].children| {
        return Fail(ArgumentOutOfRange);
      }
      heap := heap[parent := heap[parent].(children := TreeNodes.RemoveAt(heap[parent].children, t + 1))];
      Delete(right);
      return Done;
    }

    /** Remove on a leaf: the entry goes, and a non-root node below the minimum is fixed. */
    method RemoveFromLeaf(id: nat, index: nat, fuel: nat) returns (s: Status)
      requires id in heap && index < |heap[id].entries|
      modifies this
      ensures (s, State()) == TreeNodes.RemoveFromLeaf(old(State()), id, index, minEntriesPerNode, fuel)
    {
      var n := heap[id];
      heap := heap[id := n.(entries := TreeNodes.RemoveAt(n.entries, index))];
      if |n.entries| - 1 >= minEntriesPerNode || n.parentId == 0 {
        return Done;
      }
      s := FixNode(id, fuel);
    }

    /** TreeNode.Remove(index): a leaf loses the entry; an internal node takes its predecessor. */
    method Remove(id: nat, index: int, fuel: nat) returns (s: Status)
      requires id in heap
      modifies this
      ensures (s, State()) == TreeNodes.Remove(old(State()), id, index, minEntriesPerNode, fuel)
    {
      var n := heap[id];
      if index < 0 || index >= |n.entries| {
        return Fail(ArgumentOutOfRange);
      }
      if n.IsLeaf() {
        s := RemoveFromLeaf(id, index, fuel);
        return;
      }
      if index >= |n.children| {
        return Fail(ArgumentOutOfRange);
      }
      var leftTree := Find(n.children[index]);
      if leftTree.Err? {
        return Fail(Argument);
      }
      var fl := FindLargest(n.children[index], fuel);
      if fl.Err? {
        return Fail(fl.error);
      }
      var (leaf, li) := fl.value;
      if li < 0 {
        return Fail(ArgumentOutOfRange);
      }
      heap := heap[id := n.(entries := n.entries[index := heap[leaf].entries[li]])];
      s := RemoveFromLeaf(leaf, li, fuel);
    }
  }
}
