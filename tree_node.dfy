/**
 * TreeNodes: what the methods of TreeNode<K, V> do to the arena, as functions of the arena
 * before the call. Each function reads a node's fields from the arena at the moment the source
 * reads them, so a list the source changed a few lines earlier is seen changed, and returns
 * the arena as the source leaves it, with the exception that interrupts it, if any.
 *
 * `min` is the node manager's MinEntriesPerNode and `cmp` its key comparer. The recursions that
 * the source runs up or down the tree (a split that splits the parent, a fix that fixes the
 * parent, the search for the largest entry) take a fuel argument; running out of it is
 * reported as NonTermination.
 */
module TreeNodes {
  import opened Errors
  import opened Comparers
  import opened TreeArena
  import ListExtensions
  import TreeEntryComparer

  /** List<T>.Insert(i, x). */
  function InsertAt<T>(s: seq<T>, i: nat, x: T): (r: seq<T>)
    requires i <= |s|
    ensures |r| == |s| + 1 && r[i] == x
  {
    s[..i] + [x] + s[i..]
  }

  /** InsertAt leaves the elements before i in place and moves those from i on up by one. */
  lemma InsertAtShifts<T>(s: seq<T>, i: nat, x: T)
    requires i <= |s|
    ensures forall k | 0 <= k < i :: InsertAt(s, i, x)[k] == s[k]
    ensures forall k | i < k <= |s| :: InsertAt(s, i, x)[k] == s[k - 1]
  {
  }

  /** List<T>.RemoveAt(i). */
  function RemoveAt<T>(s: seq<T>, i: nat): (r: seq<T>)
    requires i < |s|
    ensures |r| == |s| - 1
    ensures forall k | 0 <= k < i :: r[k] == s[k]
    ensures forall k | i <= k < |r| :: r[k] == s[k + 1]
  {
    s[..i] + s[i + 1..]
  }

  /** The first position of x in s, or -1: the loop of IndexInParent. */
  function IndexOf(s: seq<nat>, x: nat): (r: int)
    ensures -1 <= r < |s|
    ensures r >= 0 ==> s[r] == x && forall k | 0 <= k < r :: s[k] != x
    ensures r < 0 ==> forall k | 0 <= k < |s| :: s[k] != x
  {
    if |s| == 0 then -1
    else if s[0] == x then 0
    else
      var i := IndexOf(s[1..], x);
      if i < 0 then -1 else i + 1
  }

  /**
   * TreeNode.BinarySearch(key): List<T>.BinarySearch of the entries for (key, default(V)) by
   * the entry comparer, which is the search of the keys for key
   * (TreeEntryComparer.BinarySearchByKey).
   */
  function KeySearch<K, V>(entries: seq<(K, V)>, key: K, cmp: Comparer<K>): (r: int)
    ensures -|entries| - 1 <= r < |entries|
    ensures r >= 0 ==> cmp(entries[r].0, key) == 0
  {
    ListExtensions.BinarySearch(TreeEntryComparer.Keys(entries), key, cmp)
  }

  /** The position InsertAsParent inserts at: a hit, or the complement of a miss. */
  function InsertIndex(search: int): nat
  {
    if search < 0 then -search - 1 else search
  }

  /** TreeNode.InsertAsLeaf(key, value, index): List.Insert into the entries. */
  function InsertAsLeaf<K, V>(a: Arena<K, V>, id: nat, key: K, value: V, index: int): (r: (Status, Arena<K, V>))
    requires id in a.heap
    ensures r.1.heap.Keys == a.heap.Keys && r.1.deleted == a.deleted
    ensures r.0.Done? <==> 0 <= index <= |a.heap[id].entries|
    ensures r.0.Fail? ==> r.0.error == ArgumentOutOfRange && r.1 == a
    ensures r.0.Done? ==> r.1 == Put(a, id, a.heap[id].(entries := InsertAt(a.heap[id].entries, index, (key, value))))
  {
    var n := a.heap[id];
    if index < 0 || index > |n.entries| then (Fail(ArgumentOutOfRange), a)
    else (Done, Put(a, id, n.(entries := InsertAt(n.entries, index, (key, value)))))
  }

  /**
   * TreeNode.InsertAsParent(key, value, left, right): the entry goes in at its search
   * position p, left is inserted at children[p] and right then overwrites children[p + 1].
   * Returns p.
   */
  function InsertAsParent<K, V>(a: Arena<K, V>, id: nat, key: K, value: V, left: nat, right: nat,
                                cmp: Comparer<K>): (r: (Result<nat>, Arena<K, V>))
    requires id in a.heap
    ensures r.1.heap.Keys == a.heap.Keys && r.1.deleted == a.deleted
    ensures r.1.counter == a.counter && r.1.root == a.root
    ensures r.1.heap[id].parentId == a.heap[id].parentId
    decreases 0
  {
    var n := a.heap[id];
    var p := InsertIndex(KeySearch(n.entries, key, cmp));
    var n1 := n.(entries := InsertAt(n.entries, p, (key, value)));
    if p > |n.children| then (Err(ArgumentOutOfRange), Put(a, id, n1))
    else
      var c := InsertAt(n.children, p, left);
      if p + 1 >= |c| then (Err(ArgumentOutOfRange), Put(a, id, n1.(children := c)))
      else (Ok(p), Put(a, id, n1.(children := c[p + 1 := right])))
  }

  /** A run of n zero ids. */
  function Zeros(n: nat): (r: seq<nat>)
    ensures |r| == n && (n > 0 ==> r[n - 1] == 0)
  {
    if n == 0 then [] else Zeros(n - 1) + [0]
  }

  /**
   * The larger child ids of a split: Split copies count ids from position h + 1 into an
   * array of h + 1 slots, whose uncopied slots stay 0.
   */
  function LargeChildren(children: seq<nat>, h: nat, count: nat): (r: seq<nat>)
    requires count <= h + 1 && h + 1 + count <= |children|
    ensures |r| == h + 1 && r[..count] == children[h + 1..h + 1 + count]
    ensures count <= h ==> r[h] == 0
  {
    children[h + 1..h + 1 + count] + Zeros(h + 1 - count)
  }

  /** Each id in ids found and its ParentId set to parent, in order: the re-parenting loops. */
  function Reparent<K, V>(a: Arena<K, V>, ids: seq<nat>, parent: nat): (r: (Status, Arena<K, V>))
    ensures r.1.heap.Keys == a.heap.Keys && r.1.deleted == a.deleted
    ensures r.1.counter == a.counter && r.1.root == a.root
    ensures r.0.Fail? ==> r.0.error == Argument
    decreases |ids|
  {
    if |ids| == 0 then (Done, a)
    else if !Held(a, ids[0]) then (Fail(Argument), a)
    else
      var a1 := SetParent(a, ids[0], parent);
      Reparent(a1, ids[1..], parent)
  }

  /**
   * Reparent succeeds exactly when the dictionary holds every id, and then the listed nodes,
   * and only they, name parent as their parent. Whether it succeeds or not, it changes nothing
   * but parent ids.
   */
  lemma {:induction false} ReparentEffect<K, V>(a: Arena<K, V>, ids: seq<nat>, parent: nat)
    ensures var (s, e) := Reparent(a, ids, parent);
      (s.Done? <==> forall k | 0 <= k < |ids| :: Held(a, ids[k]))
      && (s.Done? ==> forall i | i in a.heap ::
            e.heap[i] == a.heap[i].(parentId := if i in ids then parent else a.heap[i].parentId))
      && (forall i | i in a.heap :: e.heap[i] == a.heap[i].(parentId := e.heap[i].parentId))
    decreases |ids|
  {
    if |ids| > 0 && Held(a, ids[0]) {
      var a1 := SetParent(a, ids[0], parent);
      ReparentEffect(a1, ids[1..], parent);
      assert forall k | 1 <= k < |ids| :: ids[k] == ids[1..][k - 1];
      assert forall k | 0 <= k < |ids[1..]| :: ids[1..][k] == ids[k + 1];
      assert forall i :: i in ids <==> i == ids[0] || i in ids[1..];
    }
  }

  /**
   * Split, first half: the middle entry and the larger half move out. A new node gets
   * entries [h + 1, 2h + 1) and, off a leaf, the ids LargeChildren(children, h, count); those
   * children are re-parented to it; this node keeps entries [0, h) and children [0, h + 1).
   * Returns the new node's id and the middle entry.
   */
  function SplitOff<K, V>(a: Arena<K, V>, id: nat, h: nat, count: nat): (r: (Result<(nat, (K, V))>, Arena<K, V>))
    requires id in a.heap && count <= h + 1
    ensures a.heap.Keys <= r.1.heap.Keys && id in r.1.heap
    ensures r.1.root == a.root
    ensures r.0.Ok? ==> r.0.value.0 in r.1.heap && r.0.value.0 == a.counter
  {
    var n := a.heap[id];
    if h >= |n.entries| then (Err(ArgumentOutOfRange), a)
    else if |n.entries| - (h + 1) < h then (Err(Argument), a)
    else if !n.IsLeaf() && |n.children| - (h + 1) < count then (Err(Argument), a)
    else
      var largeChildren := if n.IsLeaf() then [] else LargeChildren(n.children, h, count);
      MoveLarge(a, id, h, n.entries[h], n.entries[h + 1..2 * h + 1], largeChildren, n.IsLeaf())
  }

  /**
   * The rest of Split's first half, once the larger half is copied out: a new node made of
   * it, its children re-parented to it, and this node cut back to h entries and, off a leaf,
   * h + 1 children.
   */
  function MoveLarge<K, V>(a: Arena<K, V>, id: nat, h: nat, middle: (K, V), largeEntries: seq<(K, V)>,
                           largeChildren: seq<nat>, leaf: bool): (r: (Result<(nat, (K, V))>, Arena<K, V>))
    requires id in a.heap && h <= |a.heap[id].entries| && h <= |largeEntries|
    requires !leaf ==> h + 1 <= |a.heap[id].children| && h + 1 <= |largeChildren|
    ensures a.heap.Keys <= r.1.heap.Keys && id in r.1.heap
    ensures r.1.root == a.root
    ensures r.0.Ok? ==> r.0.value.0 in r.1.heap && r.0.value.0 == a.counter
  {
    var (large, a1) := Create(a, largeEntries, largeChildren);
    var (s, a2) := Reparent(a1, largeChildren, large.id);
    ReparentEffect(a1, largeChildren, large.id);
    if s.Fail? then (Err(s.error), a2)
    else
      var m := a2.heap[id];
      var kept := m.(entries := m.entries[..h], children := if leaf then m.children else m.children[..h + 1]);
      (Ok((large.id, middle)), Put(a2, id, kept))
  }

  /**
   * TreeNode.Split(): split off the larger half, then give the middle entry to a new root
   * (when there is no parent) or to the parent, splitting the parent in turn if that makes it
   * overflow. Returns the id of the new, larger, node.
   */
  function Split<K, V>(a: Arena<K, V>, id: nat, min: nat, cmp: Comparer<K>, fuel: nat): (r: (Result<nat>, Arena<K, V>))
    requires id in a.heap
    ensures a.heap.Keys <= r.1.heap.Keys
    ensures RootCreated(a) ==> RootCreated(r.1)
    decreases fuel, 1
  {
    var (o, a1) := SplitOff(a, id, min, min + 1);
    if o.Err? then (Err(o.error), a1)
    else
      var (s, a2) := SplitUp(a1, id, o.value.0, o.value.1, min, cmp, fuel);
      (if s.Fail? then Err(s.error) else Ok(o.value.0), a2)
  }

  /** Split, second half, as intended: the middle entry goes up and an overflowing parent splits. */
  function SplitUp<K, V>(a: Arena<K, V>, id: nat, large: nat, middle: (K, V), min: nat, cmp: Comparer<K>,
                         fuel: nat): (r: (Status, Arena<K, V>))
    requires id in a.heap && large in a.heap
    ensures a.heap.Keys <= r.1.heap.Keys
    ensures RootCreated(a) ==> RootCreated(r.1)
    decreases fuel, 0
  {
    var pid := a.heap[id].parentId;
    if pid == 0 then
      var (root, a1) := CreateNewRoot(a, middle.0, middle.1, id, large);
      (Done, SetParent(SetParent(a1, id, root.id), large, root.id))
    else if !Held(a, pid) then (Fail(Argument), a)
    else
      var (ins, a1) := InsertAsParent(a, pid, middle.0, middle.1, id, large, cmp);
      if ins.Err? then (Fail(ins.error), a1)
      else
        var a2 := SetParent(a1, large, pid);
        if !IsOverflow(a2.heap[pid], min) then (Done, a2)
        else if fuel == 0 then (Fail(NonTermination), a2)
        else
          SplitParent(a2, pid, min, cmp, fuel - 1)
  }

  /** The parent that overflowed after taking the middle entry is split in turn. */
  function SplitParent<K, V>(a: Arena<K, V>, pid: nat, min: nat, cmp: Comparer<K>, fuel: nat): (r: (Status, Arena<K, V>))
    requires pid in a.heap
    ensures a.heap.Keys <= r.1.heap.Keys
    ensures RootCreated(a) ==> RootCreated(r.1)
    decreases fuel, 2
  {
    var (s, a1) := Split(a, pid, min, cmp, fuel);
    (if s.Err? then Fail(s.error) else Done, a1)
  }

  /** TreeNode.FindLargest: down the last children to a leaf, and that leaf's last index. */
  function FindLargest<K, V>(a: Arena<K, V>, id: nat, fuel: nat): (r: Result<(nat, int)>)
    requires id in a.heap
    ensures r.Ok? ==> r.value.0 in a.heap && a.heap[r.value.0].IsLeaf()
                      && r.value.1 == |a.heap[r.value.0].entries| - 1
    ensures r.Err? ==> r.error == Argument || r.error == NonTermination
    decreases fuel
  {
    var n := a.heap[id];
    if n.IsLeaf() then Ok((id, |n.entries| - 1))
    else
      var c := n.children[|n.children| - 1];
      if !Held(a, c) then Err(Argument)
      else if fuel == 0 then Err(NonTermination)
      else FindLargest(a, c, fuel - 1)
  }

  /** TreeNode.FindSmallest: down the first children to a leaf, and index 0. */
  function FindSmallest<K, V>(a: Arena<K, V>, id: nat, fuel: nat): (r: Result<(nat, int)>)
    requires id in a.heap
    ensures r.Ok? ==> r.value.0 in a.heap && a.heap[r.value.0].IsLeaf() && r.value.1 == 0
    ensures r.Err? ==> r.error == Argument || r.error == NonTermination
    decreases fuel
  {
    var n := a.heap[id];
    if n.IsLeaf() then Ok((id, 0))
    else
      var c := n.children[0];
      if !Held(a, c) then Err(Argument)
      else if fuel == 0 then Err(NonTermination)
      else FindSmallest(a, c, fuel - 1)
  }

  /** TreeNode.IndexInParent: the position of this node among its parent's children. */
  function IndexInParent<K, V>(a: Arena<K, V>, id: nat): (r: Result<nat>)
    requires id in a.heap
    ensures r.Ok? <==> Held(a, a.heap[id].parentId) && id in a.heap[a.heap[id].parentId].children
    ensures r.Ok? ==> var c := a.heap[a.heap[id].parentId].children;
      r.value < |c| && c[r.value] == id && forall k | 0 <= k < r.value :: c[k] != id
    ensures r.Err? ==> r.error == (if Held(a, a.heap[id].parentId) then Generic else Argument)
  {
    var pid := a.heap[id].parentId;
    if !Held(a, pid) then Err(Argument)
    else
      var i := IndexOf(a.heap[pid].children, id);
      if i < 0 then Err(Generic) else Ok(i)
  }

  /** GetRightSibling: the child after position i of the parent, if there is one. */
  function RightSibling<K, V>(a: Arena<K, V>, parent: nat, i: nat): (r: Result<Option<nat>>)
    requires parent in a.heap
    ensures r.Ok? && r.value.Some? ==> Held(a, r.value.value)
  {
    var c := a.heap[parent].children;
    if i + 1 < |c| then
      if Held(a, c[i + 1]) then Ok(Some(c[i + 1])) else Err(Argument)
    else Ok(None)
  }

  /** GetLeftSibling: the child before position i of the parent, if there is one. */
  function LeftSibling<K, V>(a: Arena<K, V>, parent: nat, i: nat): (r: Result<Option<nat>>)
    requires parent in a.heap
    ensures r.Ok? && r.value.Some? ==> Held(a, r.value.value) && i >= 1
  {
    var c := a.heap[parent].children;
    if i >= 1 && i - 1 < |c| then
      if Held(a, c[i - 1]) then Ok(Some(c[i - 1])) else Err(Argument)
    else if i >= 1 then Err(ArgumentOutOfRange)
    else Ok(None)
  }

  /**
   * FixByRotateLeft, taken: this node gains the parent's separator i, the separator becomes
   * the right sibling's first entry, and the sibling's first child, if any, moves over.
   */
  function RotateLeft<K, V>(a: Arena<K, V>, id: nat, i: nat, right: nat, parent: nat, min: nat): (r: (Status, Arena<K, V>))
    requires id in a.heap && right in a.heap && parent in a.heap
    requires |a.heap[right].entries| > min
    ensures r.1.heap.Keys == a.heap.Keys && r.1.deleted == a.deleted && r.1.root == a.root
  {
    if i >= |a.heap[parent].entries| then (Fail(ArgumentOutOfRange), a)
    else MoveFirstChild(ShiftLeft(a, id, i, right, parent), id, right)
  }

  /** The entries of a left rotation: the separator down, the sibling's first entry up. */
  function ShiftLeft<K, V>(a: Arena<K, V>, id: nat, i: nat, right: nat, parent: nat): (r: Arena<K, V>)
    requires id in a.heap && right in a.heap && parent in a.heap
    requires i < |a.heap[parent].entries| && |a.heap[right].entries| > 0
    ensures r.heap.Keys == a.heap.Keys && r.deleted == a.deleted && r.root == a.root && r.counter == a.counter
  {
    var P := a.heap[parent];
    var a1 := Put(a, id, a.heap[id].(entries := a.heap[id].entries + [P.entries[i]]));
    var first := a1.heap[right].entries[0];
    var a2 := Put(a1, parent, a1.heap[parent].(entries := a1.heap[parent].entries[i := first]));
    Put(a2, right, a2.heap[right].(entries := a2.heap[right].entries[1..]))
  }

  /** The children of a left rotation: the sibling's first child, if any, moves over. */
  function MoveFirstChild<K, V>(a: Arena<K, V>, id: nat, right: nat): (r: (Status, Arena<K, V>))
    requires id in a.heap && right in a.heap
    ensures r.1.heap.Keys == a.heap.Keys && r.1.deleted == a.deleted && r.1.root == a.root
  {
    if a.heap[right].IsLeaf() then (Done, a)
    else
      var c := a.heap[right].children[0];
      if !Held(a, c) then (Fail(Argument), a)
      else
        var a4 := SetParent(a, c, id);
        var a5 := Put(a4, id, a4.heap[id].(children := a4.heap[id].children + [c]));
        (Done, Put(a5, right, a5.heap[right].(children := a5.heap[right].children[1..])))
  }

  /**
   * FixByRotateRight, taken: this node gains the parent's separator i - 1 in front, the
   * separator becomes the left sibling's last entry, and the sibling's last child, if any,
   * moves over.
   */
  function RotateRight<K, V>(a: Arena<K, V>, id: nat, i: nat, left: nat, parent: nat, min: nat): (r: (Status, Arena<K, V>))
    requires id in a.heap && left in a.heap && parent in a.heap && i >= 1
    requires |a.heap[left].entries| > min
    ensures r.1.heap.Keys == a.heap.Keys && r.1.deleted == a.deleted && r.1.root == a.root
  {
    if i - 1 >= |a.heap[parent].entries| then (Fail(ArgumentOutOfRange), a)
    else MoveLastChild(ShiftRight(a, id, i, left, parent), id, left)
  }

  /** The entries of a right rotation: the separator down, the sibling's last entry up. */
  function ShiftRight<K, V>(a: Arena<K, V>, id: nat, i: nat, left: nat, parent: nat): (r: Arena<K, V>)
    requires id in a.heap && left in a.heap && parent in a.heap
    requires 1 <= i <= |a.heap[parent].entries| && |a.heap[left].entries| > 0
    ensures r.heap.Keys == a.heap.Keys && r.deleted == a.deleted && r.root == a.root && r.counter == a.counter
  {
    var P := a.heap[parent];
    var a1 := Put(a, id, a.heap[id].(entries := [P.entries[i - 1]] + a.heap[id].entries));
    var le := a1.heap[left].entries;
    var a2 := Put(a1, parent, a1.heap[parent].(entries := a1.heap[parent].entries[i - 1 := le[|le| - 1]]));
    var le2 := a2.heap[left].entries;
    Put(a2, left, a2.heap[left].(entries := le2[..|le2| - 1]))
  }

  /** The children of a right rotation: the sibling's last child, if any, moves over. */
  function MoveLastChild<K, V>(a: Arena<K, V>, id: nat, left: nat): (r: (Status, Arena<K, V>))
    requires id in a.heap && left in a.heap
    ensures r.1.heap.Keys == a.heap.Keys && r.1.deleted == a.deleted && r.1.root == a.root
  {
    if a.heap[left].IsLeaf() then (Done, a)
    else
      var lc := a.heap[left].children;
      var c := lc[|lc| - 1];
      if !Held(a, c) then (Fail(Argument), a)
      else
        var a4 := SetParent(a, c, id);
        var a5 := Put(a4, id, a4.heap[id].(children := [c] + a4.heap[id].children));
        var lc5 := a5.heap[left].children;
        (Done, Put(a5, left, a5.heap[left].(children := lc5[..|lc5| - 1])))
  }

  /**
   * FixNode: rotate from the right sibling if it can spare an entry, else from the left one,
   * else combine with the right sibling (or, lacking one, the left).
   */
  function FixNode<K, V>(a: Arena<K, V>, id: nat, min: nat, fuel: nat): (r: (Status, Arena<K, V>))
    requires id in a.heap
    ensures r.1.heap.Keys == a.heap.Keys
    ensures RootCreated(a) ==> RootCreated(r.1)
    decreases fuel, 2
  {
    var ip := IndexInParent(a, id);
    if ip.Err? then (Fail(ip.error), a)
    else
      var i := ip.value;
      var p := a.heap[id].parentId;
      var rs := RightSibling(a, p, i);
      if rs.Err? then (Fail(rs.error), a)
      else if rs.value.Some? && |a.heap[rs.value.value].entries| > min then RotateLeft(a, id, i, rs.value.value, p, min)
      else
        var ls := LeftSibling(a, p, i);
        if ls.Err? then (Fail(ls.error), a)
        else if ls.value.Some? && |a.heap[ls.value.value].entries| > min then RotateRight(a, id, i, ls.value.value, p, min)
        else if rs.value.Some? then Combine(a, i, id, rs.value.value, p, min, fuel)
        else if ls.value.Some? then Combine(a, i - 1, ls.value.value, id, p, min, fuel)
        else (Fail(NullReference), a)
  }

  /**
   * FixByCombine(t, left, right, parent): left takes the separator t and everything right
   * holds, right's children are re-parented to left, the parent drops the separator and the
   * child after it, and right is deleted. An emptied root gives way to left; a parent that
   * falls below the minimum is fixed in turn.
   */
  function Combine<K, V>(a: Arena<K, V>, t: nat, left: nat, right: nat, parent: nat, min: nat, fuel: nat): (r: (Status, Arena<K, V>))
    requires left in a.heap && right in a.heap && parent in a.heap
    ensures r.1.heap.Keys == a.heap.Keys
    ensures RootCreated(a) ==> RootCreated(r.1)
    decreases fuel, 1
  {
    var (s, a7) := CombineDown(a, t, left, right, parent);
    CombineThen(a7, s, left, parent, min, fuel)
  }

  /** FixByCombine after the moves: the parent is looked at again. */
  function CombineThen<K, V>(a: Arena<K, V>, s: Status, left: nat, parent: nat, min: nat, fuel: nat): (r: (Status, Arena<K, V>))
    requires left in a.heap && parent in a.heap
    ensures r.1.heap.Keys == a.heap.Keys
    ensures RootCreated(a) ==> RootCreated(r.1)
    decreases fuel, 0
  {
    if s.Fail? then (s, a)
    else
      var Q := a.heap[parent];
      if Q.parentId == 0 && |Q.entries| == 0 then
        (Done, Delete(MakeRoot(SetParent(a, left, 0), left), parent))
      else if Q.parentId != 0 && |Q.entries| < min then
        if fuel == 0 then (Fail(NonTermination), a) else FixNode(a, parent, min, fuel - 1)
      else (Done, a)
  }

  /** The moves of FixByCombine, before it looks at the parent again. */
  function CombineDown<K, V>(a: Arena<K, V>, t: nat, left: nat, right: nat, parent: nat): (r: (Status, Arena<K, V>))
    requires left in a.heap && right in a.heap && parent in a.heap
    ensures r.1.heap.Keys == a.heap.Keys
    ensures RootCreated(a) ==> RootCreated(r.1)
  {
    var P := a.heap[parent];
    if t >= |P.entries| then (Fail(ArgumentOutOfRange), a)
    else
      var a1 := Put(a, left, a.heap[left].(entries := a.heap[left].entries + [P.entries[t]]));
      var a2 := Put(a1, left, a1.heap[left].(entries := a1.heap[left].entries + a1.heap[right].entries));
      var a3 := Put(a2, left, a2.heap[left].(children := a2.heap[left].children + a2.heap[right].children));
      var (s, a4) := Reparent(a3, a3.heap[right].children, left);
      if s.Fail? then (s, a4)
      else if t >= |a4.heap[parent].entries| then (Fail(ArgumentOutOfRange), a4)
      else
        var a5 := Put(a4, parent, a4.heap[parent].(entries := RemoveAt(a4.heap[parent].entries, t)));
        if t + 1 >= |a5.heap[parent].children| then (Fail(ArgumentOutOfRange), a5)
        else
          var a6 := Put(a5, parent, a5.heap[parent].(children := RemoveAt(a5.heap[parent].children, t + 1)));
          (Done, Delete(a6, right))
  }

  /**
   * Remove on a leaf, as the comment in its body describes it: the entry goes,
   * and a node left below the minimum that has a parent is fixed.
   */
  function RemoveFromLeaf<K, V>(a: Arena<K, V>, id: nat, index: nat, min: nat, fuel: nat): (r: (Status, Arena<K, V>))
    requires id in a.heap && index < |a.heap[id].entries|
    ensures r.1.heap.Keys == a.heap.Keys
    ensures RootCreated(a) ==> RootCreated(r.1)
  {
    var n := a.heap[id];
    var a1 := Put(a, id, n.(entries := RemoveAt(n.entries, index)));
    if |n.entries| - 1 >= min || n.parentId == 0 then (Done, a1)
    else FixNode(a1, id, min, fuel)
  }

  /**
   * TreeNode.Remove(index): out of range is an ArgumentOutOfRangeException; a leaf loses the
   * entry; an internal node takes the largest entry of the subtree left of it in its place
   * and that entry is removed from its leaf.
   */
  function Remove<K, V>(a: Arena<K, V>, id: nat, index: int, min: nat, fuel: nat): (r: (Status, Arena<K, V>))
    requires id in a.heap
    ensures r.1.heap.Keys == a.heap.Keys
    ensures RootCreated(a) ==> RootCreated(r.1)
    ensures (index < 0 || index >= |a.heap[id].entries|) ==> r == (Fail(ArgumentOutOfRange), a)
  {
    var n := a.heap[id];
    if index < 0 || index >= |n.entries| then (Fail(ArgumentOutOfRange), a)
    else if n.IsLeaf() then RemoveFromLeaf(a, id, index, min, fuel)
    else if index >= |n.children| then (Fail(ArgumentOutOfRange), a)
    else if !Held(a, n.children[index]) then (Fail(Argument), a)
    else
      var fl := FindLargest(a, n.children[index], fuel);
      if fl.Err? then (Fail(fl.error), a)
      else
        var (leaf, li) := fl.value;
        if li < 0 then (Fail(ArgumentOutOfRange), a)
        else
          var a1 := Put(a, id, n.(entries := n.entries[index := a.heap[leaf].entries[li]]));
          RemoveFromLeaf(a1, leaf, li, min, fuel)
  }
}
