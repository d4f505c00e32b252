/**
 * IndexTrees: IndexTree<K, V>, the B-tree index over a node manager. Lookups (FindNode,
 * FindNodeIterative, Get) and the start points of scans are functions of the manager's arena;
 * Insert and the two Delete overloads change the tree through the manager's node operations,
 * and each of them is written once as a function of the arena before the call (what it
 * returns and the arena after it) and once as a method of the IndexTree class proved to
 * agree with that function.
 *
 * The source's recursions and loops over the tree have no bound; here every descent is
 * bounded by the number of node objects, as in TreeEnumerators, and ends in NonTermination
 * past it.
 */
module IndexTrees {
  import opened Errors
  import opened Comparers
  import opened TreeArena
  import opened TreeNodes
  import opened MemoryTreeNodeManagers
  import opened TreeEnumerators
  import opened TreeScanners
  import ListExtensions
  import TreeEntryComparer

  /** nodeManager.RootNode: NullReferenceException on the first member access when there is none. */
  function Root<K, V>(a: Arena<K, V>): (r: Result<nat>)
    requires RootCreated(a)
    ensures r.Ok? <==> a.root.Some?
    ensures r.Ok? ==> r.value in a.heap && a.root == Some(r.value)
    ensures r.Err? ==> r.error == NullReference
  {
    if a.root.None? then Err(NullReference) else Ok(a.root.value)
  }

  /** TreeNode.GetChildNode(i): the child id at i, found in the manager's dictionary. */
  function ChildAt<K, V>(a: Arena<K, V>, id: nat, i: int): (r: Result<nat>)
    requires id in a.heap
    ensures r.Ok? <==> 0 <= i < |a.heap[id].children| && Held(a, a.heap[id].children[i])
    ensures r.Ok? ==> r.value == a.heap[id].children[i] && r.value in a.heap
    ensures r.Err? ==> r.error == (if 0 <= i < |a.heap[id].children| then Argument else ArgumentOutOfRange)
  {
    var c := a.heap[id].children;
    if i < 0 || i >= |c| then Err(ArgumentOutOfRange)
    else if !Held(a, c[i]) then Err(Argument)
    else Ok(c[i])
  }

  /**
   * FindNode(key, node, ref insertIndex): the node and index where key is or would go. A node
   * without entries answers ~0; a hit answers its index, except that with duplicate keys an
   * internal node sends the search on to the child at the hit; a miss descends to the child at
   * the insertion point, and at a leaf answers the complemented insertion point.
   */
  function FindNode<K, V>(a: Arena<K, V>, key: K, id: nat, dup: bool, cmp: Comparer<K>, fuel: nat): (r: Result<(nat, int)>)
    requires id in a.heap
    ensures r.Ok? ==> r.value.0 in a.heap
    ensures r.Ok? && r.value.1 >= 0 ==>
      r.value.1 < |a.heap[r.value.0].entries| && cmp(a.heap[r.value.0].entries[r.value.1].0, key) == 0
      && (dup ==> a.heap[r.value.0].IsLeaf())
    ensures r.Ok? && r.value.1 < 0 ==>
      -r.value.1 - 1 <= |a.heap[r.value.0].entries| && (a.heap[r.value.0].IsLeaf() || a.heap[r.value.0].IsEmpty())
    ensures r.Err? ==> r.error in {Argument, ArgumentOutOfRange, NonTermination}
    decreases fuel
  {
    var n := a.heap[id];
    if n.IsEmpty() then Ok((id, -1))
    else
      var s := KeySearch(n.entries, key, cmp);
      if s >= 0 && !(dup && !n.IsLeaf()) then Ok((id, s))
      else if s < 0 && n.IsLeaf() then Ok((id, s))
      else
        match ChildAt(a, id, if s >= 0 then s else -s - 1)
        case Err(e) => Err(e)
        case Ok(c) => if fuel == 0 then Err(NonTermination) else FindNode(a, key, c, dup, cmp, fuel - 1)
  }

  /**
   * TreeNode.BinarySearch(key, firstOccurrence): BinarySearchFirst or BinarySearchLast of the
   * entries by the entry comparer, which compares keys only, so it is the search of the keys.
   */
  function OccurrenceSearch<K, V>(entries: seq<(K, V)>, key: K, first: bool, cmp: Comparer<K>): (r: int)
    ensures var keys := TreeEntryComparer.Keys(entries);
      if first then ListExtensions.IsFirstOccurrence(keys, key, cmp, r)
      else ListExtensions.IsLastOccurrence(keys, key, cmp, r)
    ensures -|entries| - 1 <= r < |entries|
  {
    var keys := TreeEntryComparer.Keys(entries);
    if first then ListExtensions.FirstOccurrence(keys, key, cmp) else ListExtensions.LastOccurrence(keys, key, cmp)
  }

  /**
   * FindNodeIterative(key, node, includeEqual, ref startIndex): the leaf holding the first
   * (includeEqual) or last occurrence of key. An internal hit goes on to the child at the hit
   * (first) or after it (last); a miss goes to the child at the insertion point.
   */
  function FindNodeIterative<K, V>(a: Arena<K, V>, key: K, id: nat, includeEqual: bool, cmp: Comparer<K>, fuel: nat): (r: Result<(nat, int)>)
    requires id in a.heap
    ensures r.Ok? ==> r.value.0 in a.heap
    ensures r.Ok? ==> var n := a.heap[r.value.0];
      (n.IsEmpty() && r.value.1 == -1)
      || (n.IsLeaf() && r.value.1 == OccurrenceSearch(n.entries, key, includeEqual, cmp))
    ensures r.Err? ==> r.error in {Argument, ArgumentOutOfRange, NonTermination}
    decreases fuel
  {
    var n := a.heap[id];
    if n.IsEmpty() then Ok((id, -1))
    else
      var s := OccurrenceSearch(n.entries, key, includeEqual, cmp);
      if n.IsLeaf() then Ok((id, s))
      else
        match ChildAt(a, id, if s >= 0 then s + (if includeEqual then 0 else 1) else -s - 1)
        case Err(e) => Err(e)
        case Ok(c) => if fuel == 0 then Err(NonTermination) else FindNodeIterative(a, key, c, includeEqual, cmp, fuel - 1)
  }

  /** FindFirstNode: down the first children from the root to a leaf, with start index -1. */
  function FirstNode<K, V>(a: Arena<K, V>): (r: Result<(nat, int)>)
    requires RootCreated(a)
    ensures r.Ok? ==> r.value.0 in a.heap && a.heap[r.value.0].IsLeaf() && r.value.1 == -1
    ensures r.Ok? ==> a.root.Some? && FindSmallest(a, a.root.value, |a.heap|) == Ok((r.value.0, 0))
    ensures a.root.None? ==> r == Err(NullReference)
  {
    match Root(a)
    case Err(e) => Err(e)
    case Ok(root) =>
      match FindSmallest(a, root, |a.heap|)
      case Err(e) => Err(e)
      case Ok(found) => Ok((found.0, -1))
  }

  /** FindLastNode: down the last children from the root to a leaf, with start index EntryCount. */
  function LastNode<K, V>(a: Arena<K, V>): (r: Result<(nat, int)>)
    requires RootCreated(a)
    ensures r.Ok? ==> r.value.0 in a.heap && a.heap[r.value.0].IsLeaf() && r.value.1 == |a.heap[r.value.0].entries|
    ensures r.Ok? ==> a.root.Some? && FindLargest(a, a.root.value, |a.heap|) == Ok((r.value.0, r.value.1 - 1))
    ensures a.root.None? ==> r == Err(NullReference)
  {
    match Root(a)
    case Err(e) => Err(e)
    case Ok(root) =>
      match FindLargest(a, root, |a.heap|)
      case Err(e) => Err(e)
      case Ok(found) => Ok((found.0, found.1 + 1))
  }

  /** The start of a full scan: the first node for an ascending scan, the last for a descending one. */
  function ScanStart<K, V>(a: Arena<K, V>, ascending: bool): (r: Result<(nat, int)>)
    requires RootCreated(a)
    ensures r.Ok? ==> r.value.0 in a.heap
  {
    if ascending then FirstNode(a) else LastNode(a)
  }

  /**
   * The start of GetExactMatch: FindNodeIterative from the root for the first (ascending) or
   * last occurrence, then just before the first entry not below key (ascending) or just after
   * the last entry not above it (descending).
   */
  function ExactStart<K, V>(a: Arena<K, V>, key: K, ascending: bool, cmp: Comparer<K>): (r: Result<(nat, int)>)
    requires RootCreated(a)
    ensures r.Ok? ==> r.value.0 in a.heap
    ensures r.Ok? ==> var n := a.heap[r.value.0];
      if ascending then -1 <= r.value.1 < |n.entries| else 0 <= r.value.1 <= |n.entries|
  {
    match Root(a)
    case Err(e) => Err(e)
    case Ok(root) =>
      match FindNodeIterative(a, key, root, ascending, cmp, |a.heap|)
      case Err(e) => Err(e)
      case Ok(found) =>
        var (node, index) := found;
        if ascending then Ok((node, (if index >= 0 then index else -index - 1) - 1))
        else Ok((node, if index >= 0 then index + 1 else -index - 1))
  }

  /**
   * Insert(key, value): FindNode from the root; in unique mode a hit is TreeKeyExistsException
   * before anything changes; otherwise the entry goes into the node found at the hit or the
   * insertion point, and a node that then overflows is split.
   */
  function InsertInto<K, V>(a: Arena<K, V>, key: K, value: V, dup: bool, min: nat, cmp: Comparer<K>): (r: (Status, Arena<K, V>))
    requires RootCreated(a)
    ensures RootCreated(r.1) && a.heap.Keys <= r.1.heap.Keys
    ensures a.root.None? ==> r == (Fail(NullReference), a)
  {
    match Root(a)
    case Err(e) => (Fail(e), a)
    case Ok(root) =>
      match FindNode(a, key, root, dup, cmp, |a.heap|)
      case Err(e) => (Fail(e), a)
      case Ok(found) =>
        var (leaf, index) := found;
        if index >= 0 && !dup then (Fail(TreeKeyExists), a)
        else PlaceEntry(a, leaf, key, value, if index >= 0 then index else -index - 1, min, cmp)
  }

  /** The second half of Insert: InsertAsLeaf at index, then Split if the node overflows. */
  function PlaceEntry<K, V>(a: Arena<K, V>, id: nat, key: K, value: V, index: int, min: nat, cmp: Comparer<K>): (r: (Status, Arena<K, V>))
    requires RootCreated(a) && id in a.heap
    ensures RootCreated(r.1) && a.heap.Keys <= r.1.heap.Keys
    ensures !(0 <= index <= |a.heap[id].entries|) ==> r == (Fail(ArgumentOutOfRange), a)
    ensures 0 <= index <= |a.heap[id].entries| && |a.heap[id].entries| < MaxEntries(min) ==>
      r == (Done, Put(a, id, a.heap[id].(entries := InsertAt(a.heap[id].entries, index, (key, value)))))
  {
    var (s, a1) := InsertAsLeaf(a, id, key, value, index);
    if s.Fail? then (s, a1)
    else if !IsOverflow(a1.heap[id], min) then (Done, a1)
    else
      var (split, a2) := Split(a1, id, min, cmp, |a1.heap|);
      (if split.Err? then Fail(split.error) else Done, a2)
  }

  /** Get(key): the entry at the index FindNode answers when it is a hit, else null. */
  function GetIn<K, V>(a: Arena<K, V>, key: K, dup: bool, cmp: Comparer<K>): (r: Result<Option<(K, V)>>)
    requires RootCreated(a)
    ensures r.Ok? && r.value.Some? ==> cmp(r.value.value.0, key) == 0
    ensures a.root.None? ==> r == Err(NullReference)
  {
    match Root(a)
    case Err(e) => Err(e)
    case Ok(root) =>
      match FindNode(a, key, root, dup, cmp, |a.heap|)
      case Err(e) => Err(e)
      case Ok(found) =>
        if found.1 >= 0 then Ok(Some(a.heap[found.0].entries[found.1])) else Ok(None)
  }

  /**
   * Delete(key), for unique keys: the first step of the ascending exact-match scan; when it
   * yields an entry with an equal key, that entry is removed from its node and the answer is
   * true, else nothing changes and the answer is false.
   */
  function DeleteKeyFrom<K, V>(a: Arena<K, V>, key: K, dup: bool, min: nat, cmp: Comparer<K>): (r: (Result<bool>, Arena<K, V>))
    requires RootCreated(a)
    ensures RootCreated(r.1) && r.1.heap.Keys == a.heap.Keys
    ensures r.0 == Ok(false) ==> r.1 == a
    ensures dup ==> r == (Err(InvalidOperation), a)
  {
    if dup then (Err(InvalidOperation), a)
    else
      match ExactStart(a, key, true, cmp)
      case Err(e) => (Err(e), a)
      case Ok(start) =>
        var (m, q) := NextStep(a, Start(start.0, start.1), true);
        if m.Err? then (Err(m.error), a)
        else if !m.value || cmp(key, q.entry.value.0) != 0 then (Ok(false), a)
        else
          var (s, a1) := Remove(a, q.node, q.index, min, |a.heap|);
          (if s.Fail? then Err(s.error) else Ok(true), a1)
  }

  /**
   * The inner loop of Delete(key, value): MoveNext until the scan ends or passes key (no match),
   * or yields an entry whose value the value comparer finds level with value (a match there).
   * The steps are bounded by a count, and NonTermination is reported past it.
   */
  function ScanForMatch<K, V>(a: Arena<K, V>, p: Position<K, V>, key: K, value: V, cmp: Comparer<K>, vcmp: Comparer<V>,
                              steps: nat): (r: Result<Option<Position<K, V>>>)
    requires p.node in a.heap
    ensures r.Ok? && r.value.Some? ==> var q := r.value.value;
      Yields(a, q) && cmp(q.entry.value.0, key) <= 0 && vcmp(q.entry.value.1, value) == 0
    decreases steps
  {
    if steps == 0 then Err(NonTermination)
    else
      var (m, q) := NextStep(a, p, true);
      if m.Err? then Err(m.error)
      else if !m.value then Ok(None)
      else if cmp(q.entry.value.0, key) > 0 then Ok(None)
      else if vcmp(q.entry.value.1, value) == 0 then Ok(Some(q))
      else ScanForMatch(a, q, key, value, cmp, vcmp, steps - 1)
  }

  /** One round of Delete(key, value): a new ascending exact-match scan for key, searched for a match. */
  function RoundMatch<K, V>(a: Arena<K, V>, key: K, value: V, cmp: Comparer<K>, vcmp: Comparer<V>, steps: nat): (r: Result<Option<Position<K, V>>>)
    requires RootCreated(a)
    ensures r.Ok? && r.value.Some? ==> var q := r.value.value;
      Yields(a, q) && cmp(q.entry.value.0, key) <= 0 && vcmp(q.entry.value.1, value) == 0
  {
    match ExactStart(a, key, true, cmp)
    case Err(e) => Err(e)
    case Ok(start) => ScanForMatch(a, Start(start.0, start.1), key, value, cmp, vcmp, steps)
  }

  /** A round and its removal: false when the scan finds no match, true once the match is removed. */
  function RemoveMatch<K, V>(a: Arena<K, V>, key: K, value: V, min: nat, cmp: Comparer<K>, vcmp: Comparer<V>, steps: nat): (r: (Result<bool>, Arena<K, V>))
    requires RootCreated(a)
    ensures RootCreated(r.1) && r.1.heap.Keys == a.heap.Keys
    ensures r.0 == Ok(false) ==> r.1 == a
  {
    match RoundMatch(a, key, value, cmp, vcmp, steps)
    case Err(e) => (Err(e), a)
    case Ok(found) =>
      if found.None? then (Ok(false), a)
      else
        var (s, a1) := Remove(a, found.value.node, found.value.index, min, |a.heap|);
        (if s.Fail? then Err(s.error) else Ok(true), a1)
  }

  /**
   * The outer loop of Delete(key, value): a new exact-match scan per round; each match found is
   * removed and the scan starts again, until a scan finds none. The rounds are bounded by a
   * count, and NonTermination is reported past it. deletedSoFar is isDeleted.
   */
  function DeleteRounds<K, V>(a: Arena<K, V>, key: K, value: V, min: nat, cmp: Comparer<K>, vcmp: Comparer<V>,
                              rounds: nat, steps: nat, deletedSoFar: bool): (r: (Result<bool>, Arena<K, V>))
    requires RootCreated(a)
    ensures RootCreated(r.1) && r.1.heap.Keys == a.heap.Keys
    ensures r.0 == Ok(false) ==> r.1 == a && !deletedSoFar
    ensures deletedSoFar && r.0.Ok? ==> r.0.value
    decreases rounds, 1
  {
    AfterRound(a, RemoveMatch(a, key, value, min, cmp, vcmp, steps), key, value, min, cmp, vcmp, rounds, steps, deletedSoFar)
  }

  /** The outer loop after the round m on a: stop on an error or no match, else go on from m's arena. */
  function AfterRound<K, V>(a: Arena<K, V>, m: (Result<bool>, Arena<K, V>), key: K, value: V, min: nat, cmp: Comparer<K>,
                            vcmp: Comparer<V>, rounds: nat, steps: nat, deletedSoFar: bool): (r: (Result<bool>, Arena<K, V>))
    requires RootCreated(a) && RootCreated(m.1) && m.1.heap.Keys == a.heap.Keys
    ensures RootCreated(r.1) && r.1.heap.Keys == a.heap.Keys
    ensures r.0 == Ok(false) ==> r.1 == a && !deletedSoFar
    ensures deletedSoFar && r.0.Ok? ==> r.0.value
    decreases rounds, 0
  {
    if m.0.Err? then (Err(m.0.error), m.1)
    else if !m.0.value then (Ok(deletedSoFar), a)
    else if rounds == 0 then (Err(NonTermination), m.1)
    else DeleteRounds(m.1, key, value, min, cmp, vcmp, rounds - 1, steps, true)
  }

  /** After a round m that removed a match, Delete(key, value) goes on from m's arena with one round fewer. */
  lemma NextRound<K, V>(a: Arena<K, V>, m: (Result<bool>, Arena<K, V>), key: K, value: V, min: nat, cmp: Comparer<K>,
                        vcmp: Comparer<V>, rounds: nat, next: nat, steps: nat, deletedSoFar: bool)
    requires RootCreated(a) && rounds == next + 1
    requires m == RemoveMatch(a, key, value, min, cmp, vcmp, steps) && m.0 == Ok(true)
    ensures DeleteRounds(a, key, value, min, cmp, vcmp, rounds, steps, deletedSoFar)
      == DeleteRounds(m.1, key, value, min, cmp, vcmp, next, steps, true)
  {
    assert DeleteRounds(a, key, value, min, cmp, vcmp, rounds, steps, deletedSoFar)
      == AfterRound(a, m, key, value, min, cmp, vcmp, rounds, steps, deletedSoFar);
    GoOnAfterRound(a, m, key, value, min, cmp, vcmp, rounds, next, steps, deletedSoFar);
  }

  /** After a round that removed a match and with rounds left, the loop goes on from its arena. */
  lemma GoOnAfterRound<K, V>(a: Arena<K, V>, m: (Result<bool>, Arena<K, V>), key: K, value: V, min: nat, cmp: Comparer<K>,
                             vcmp: Comparer<V>, rounds: nat, next: nat, steps: nat, deletedSoFar: bool)
    requires RootCreated(a) && RootCreated(m.1) && m.1.heap.Keys == a.heap.Keys
    requires rounds == next + 1 && m.0 == Ok(true)
    ensures AfterRound(a, m, key, value, min, cmp, vcmp, rounds, steps, deletedSoFar)
      == DeleteRounds(m.1, key, value, min, cmp, vcmp, next, steps, true)
  {
  }

  /** Delete(key, value, valueComparer), for duplicate keys: InvalidOperationException in unique mode. */
  function DeleteMatchingFrom<K, V>(a: Arena<K, V>, key: K, value: V, dup: bool, min: nat, cmp: Comparer<K>, vcmp: Comparer<V>,
                                rounds: nat, steps: nat): (r: (Result<bool>, Arena<K, V>))
    requires RootCreated(a)
    ensures RootCreated(r.1) && r.1.heap.Keys == a.heap.Keys
    ensures !dup ==> r == (Err(InvalidOperation), a)
    ensures r.0 == Ok(false) ==> r.1 == a
  {
    if !dup then (Err(InvalidOperation), a)
    else DeleteRounds(a, key, value, min, cmp, vcmp, rounds, steps, false)
  }

  /** What GetOptionMatch returns: a plain scanner when there is no matcher, a match scanner otherwise. */
  datatype Scan<!K, V> = Plain(scanner: TreeScanner<K, V>) | Matching(matchScanner: TreeMatchScanner<K, V>)

  class IndexTree<K, V> {
    const nodeManager: MemoryTreeNodeManager<K, V>
    const allowDuplicateKeys: bool

    constructor(nodeManager: MemoryTreeNodeManager<K, V>, allowDuplicateKeys: bool)
      ensures this.nodeManager == nodeManager && this.allowDuplicateKeys == allowDuplicateKeys
    {
      this.nodeManager := nodeManager;
      this.allowDuplicateKeys := allowDuplicateKeys;
    }

    /** The constructor with its null check: ArgumentNullException for a null manager. */
    static method New(nodeManager: MemoryTreeNodeManager?<K, V>, allowDuplicateKeys: bool) returns (r: Result<IndexTree<K, V>>)
      ensures r.Err? <==> nodeManager == null
      ensures r.Err? ==> r.error == ArgumentNull
      ensures r.Ok? ==> fresh(r.value) && r.value.nodeManager == nodeManager && r.value.allowDuplicateKeys == allowDuplicateKeys
    {
      if nodeManager == null {
        return Err(ArgumentNull);
      }
      var t := new IndexTree(nodeManager, allowDuplicateKeys);
      return Ok(t);
    }

    /** FindFirstNode: the loop down the first children. */
    method FindFirstNode() returns (r: Result<(nat, int)>)
      requires RootCreated(nodeManager.State())
      ensures r == FirstNode(nodeManager.State())
    {
      ghost var a := nodeManager.State();
      if nodeManager.rootNode.None? {
        return Err(NullReference);
      }
      var node := nodeManager.rootNode.value;
      var fuel: nat := |nodeManager.heap|;
      while true
        invariant node in a.heap
        invariant FindSmallest(a, node, fuel) == FindSmallest(a, a.root.value, |a.heap|)
        decreases fuel
      {
        var n := nodeManager.heap[node];
        if n.IsLeaf() {
          break;
        }
        var child := nodeManager.Find(n.children[0]);
        if child.Err? {
          return Err(child.error);
        }
        if fuel == 0 {
          return Err(NonTermination);
        }
        node := n.children[0];
        fuel := fuel - 1;
      }
      return Ok((node, -1));
    }

    /** FindLastNode: the loop down the last children, taking each node's entry count as the index. */
    method FindLastNode() returns (r: Result<(nat, int)>)
      requires RootCreated(nodeManager.State())
      ensures r == LastNode(nodeManager.State())
    {
      ghost var a := nodeManager.State();
      if nodeManager.rootNode.None? {
        return Err(NullReference);
      }
      var node := nodeManager.rootNode.value;
      var fuel: nat := |nodeManager.heap|;
      var index := 0;
      while true
        invariant node in a.heap
        invariant FindLargest(a, node, fuel) == FindLargest(a, a.root.value, |a.heap|)
        decreases fuel
      {
        var n := nodeManager.heap[node];
        index := |n.entries|;
        if n.IsLeaf() {
          break;
        }
        var child := nodeManager.Find(n.children[|n.children| - 1]);
        if child.Err? {
          return Err(child.error);
        }
        if fuel == 0 {
          return Err(NonTermination);
        }
        node := n.children[|n.children| - 1];
        fuel := fuel - 1;
      }
      return Ok((node, index));
    }

    /** GetAll(ascending): a scanner from the first or the last node. */
    method GetAll(ascending: bool) returns (r: Result<TreeScanner<K, V>>)
      requires RootCreated(nodeManager.State())
      ensures r.Ok? <==> ScanStart(nodeManager.State(), ascending).Ok?
      ensures r.Err? ==> r.error == ScanStart(nodeManager.State(), ascending).error
      ensures r.Ok? ==> var start := ScanStart(nodeManager.State(), ascending).value;
        r.value == TreeScanner(nodeManager, start.0, start.1, ascending)
    {
      var start;
      if ascending {
        start := FindFirstNode();
      } else {
        start := FindLastNode();
      }
      if start.Err? {
        return Err(start.error);
      }
      r := NewTreeScanner(nodeManager, Some(start.value.0), start.value.1, ascending);
    }

    /** GetOptionMatch(ascending, matcher): GetAll without a matcher, else a match scanner from the same start. */
    method GetOptionMatch(ascending: bool, matcher: Option<K -> bool>) returns (r: Result<Scan<K, V>>)
      requires RootCreated(nodeManager.State())
      ensures r.Ok? <==> ScanStart(nodeManager.State(), ascending).Ok?
      ensures r.Err? ==> r.error == ScanStart(nodeManager.State(), ascending).error
      ensures r.Ok? ==> var start := ScanStart(nodeManager.State(), ascending).value;
        r.value == if matcher.None? then Plain(TreeScanner(nodeManager, start.0, start.1, ascending))
                   else Matching(TreeMatchScanner(nodeManager, start.0, start.1, matcher, ascending))
    {
      if matcher.None? {
        var all := GetAll(ascending);
        if all.Err? {
          return Err(all.error);
        }
        return Ok(Plain(all.value));
      }
      var start;
      if ascending {
        start := FindFirstNode();
      } else {
        start := FindLastNode();
      }
      if start.Err? {
        return Err(start.error);
      }
      // The start node is found, and the manager is this tree's, so the scanner's null checks pass.
      return Ok(Matching(TreeMatchScanner(nodeManager, start.value.0, start.value.1, matcher, ascending)));
    }

    /** GetExactMatch(key, ascending): a scanner from the exact-match start in that direction. */
    method GetExactMatch(key: K, ascending: bool) returns (r: Result<TreeScanner<K, V>>)
      requires RootCreated(nodeManager.State())
      ensures r.Ok? <==> ExactStart(nodeManager.State(), key, ascending, nodeManager.keyComparer).Ok?
      ensures r.Err? ==> r.error == ExactStart(nodeManager.State(), key, ascending, nodeManager.keyComparer).error
      ensures r.Ok? ==> var start := ExactStart(nodeManager.State(), key, ascending, nodeManager.keyComparer).value;
        r.value == TreeScanner(nodeManager, start.0, start.1, ascending)
    {
      var start := ExactStart(nodeManager.State(), key, ascending, nodeManager.keyComparer);
      if start.Err? {
        return Err(start.error);
      }
      r := NewTreeScanner(nodeManager, Some(start.value.0), start.value.1, ascending);
    }

    /** Get(key). */
    method Get(key: K) returns (r: Result<Option<(K, V)>>)
      requires RootCreated(nodeManager.State())
      ensures r == GetIn(nodeManager.State(), key, allowDuplicateKeys, nodeManager.keyComparer)
    {
      if nodeManager.rootNode.None? {
        return Err(NullReference);
      }
      var found := FindNode(nodeManager.State(), key, nodeManager.rootNode.value, allowDuplicateKeys,
                            nodeManager.keyComparer, |nodeManager.heap|);
      if found.Err? {
        return Err(found.error);
      }
      var (node, index) := found.value;
      if index >= 0 {
        return Ok(Some(nodeManager.heap[node].entries[index]));
      }
      return Ok(None);
    }

    /** Insert(key, value); the manager's Save does nothing in memory and is left out. */
    method Insert(key: K, value: V) returns (s: Status)
      requires RootCreated(nodeManager.State())
      modifies nodeManager
      ensures (s, nodeManager.State()) == InsertInto(old(nodeManager.State()), key, value, allowDuplicateKeys,
                                                            nodeManager.minEntriesPerNode, nodeManager.keyComparer)
    {
      if nodeManager.rootNode.None? {
        return Fail(NullReference);
      }
      var found := FindNode(nodeManager.State(), key, nodeManager.rootNode.value, allowDuplicateKeys,
                            nodeManager.keyComparer, |nodeManager.heap|);
      if found.Err? {
        return Fail(found.error);
      }
      var (leaf, index) := found.value;
      if index >= 0 && !allowDuplicateKeys {
        return Fail(TreeKeyExists);
      }
      s := AddToNode(leaf, key, value, if index >= 0 then index else -index - 1);
    }

    /** The second half of Insert: the entry goes in, and an overflowing node is split. */
    method AddToNode(id: nat, key: K, value: V, index: int) returns (s: Status)
      requires RootCreated(nodeManager.State()) && id in nodeManager.heap
      modifies nodeManager
      ensures (s, nodeManager.State()) == PlaceEntry(old(nodeManager.State()), id, key, value, index,
                                                               nodeManager.minEntriesPerNode, nodeManager.keyComparer)
    {
      s := nodeManager.InsertAsLeaf(id, key, value, index);
      if s.Fail? {
        return;
      }
      if !IsOverflow(nodeManager.heap[id], nodeManager.minEntriesPerNode) {
        return Done;
      }
      var split := nodeManager.Split(id, |nodeManager.heap|);
      s := if split.Err? then Fail(split.error) else Done;
    }

    /** Delete(key), for unique keys. */
    method DeleteKey(key: K) returns (r: Result<bool>)
      requires RootCreated(nodeManager.State())
      modifies nodeManager
      ensures (r, nodeManager.State()) == DeleteKeyFrom(old(nodeManager.State()), key, allowDuplicateKeys,
                                                               nodeManager.minEntriesPerNode, nodeManager.keyComparer)
    {
      if allowDuplicateKeys {
        return Err(InvalidOperation);
      }
      var scanner := GetExactMatch(key, true);
      if scanner.Err? {
        return Err(scanner.error);
      }
      var enumerator := GetEnumerator(scanner.value);
      var more := enumerator.MoveNext();
      if more.Err? {
        return Err(more.error);
      }
      if !more.value || nodeManager.keyComparer(key, enumerator.curEntry.value.0) != 0 {
        return Ok(false);
      }
      var s := nodeManager.Remove(enumerator.curNode, enumerator.curIndex, |nodeManager.heap|);
      r := if s.Fail? then Err(s.error) else Ok(true);
    }

    /**
     * One round of Delete(key, value): a new exact-match enumerator, moved on until it ends,
     * passes key, or stands on an entry whose value is level with value.
     */
    method FindMatch(key: K, value: V, valueComparer: Comparer<V>, steps: nat) returns (r: Result<Option<Position<K, V>>>)
      requires RootCreated(nodeManager.State())
      ensures r == RoundMatch(nodeManager.State(), key, value, nodeManager.keyComparer, valueComparer, steps)
    {
      ghost var a := nodeManager.State();
      var scanner := GetExactMatch(key, true);
      if scanner.Err? {
        return Err(scanner.error);
      }
      var enumerator := GetEnumerator(scanner.value);
      var k := steps;
      while true
        invariant nodeManager.State() == a && enumerator.nodeManager == nodeManager && enumerator.ascending
        invariant enumerator.curNode in a.heap
        invariant ScanForMatch(a, enumerator.Current(), key, value, nodeManager.keyComparer, valueComparer, k)
               == RoundMatch(a, key, value, nodeManager.keyComparer, valueComparer, steps)
        decreases k
      {
        if k == 0 {
          return Err(NonTermination);
        }
        var more := enumerator.MoveNext();
        if more.Err? {
          return Err(more.error);
        }
        if !more.value || nodeManager.keyComparer(enumerator.curEntry.value.0, key) > 0 {
          return Ok(None);
        }
        if valueComparer(enumerator.curEntry.value.1, value) == 0 {
          return Ok(Some(enumerator.Current()));
        }
        k := k - 1;
      }
    }

    /** A round of Delete(key, value) with its removal. */
    method RemoveMatchRound(key: K, value: V, valueComparer: Comparer<V>, steps: nat) returns (r: Result<bool>)
      requires RootCreated(nodeManager.State())
      modifies nodeManager
      ensures (r, nodeManager.State()) == RemoveMatch(old(nodeManager.State()), key, value, nodeManager.minEntriesPerNode,
                                                      nodeManager.keyComparer, valueComparer, steps)
    {
      var found := FindMatch(key, value, valueComparer, steps);
      if found.Err? {
        return Err(found.error);
      }
      if found.value.None? {
        return Ok(false);
      }
      var q := found.value.value;
      var s := nodeManager.Remove(q.node, q.index, |nodeManager.heap|);
      r := if s.Fail? then Err(s.error) else Ok(true);
    }

    /**
     * Delete(key, value, valueComparer), for duplicate keys, with at most rounds + 1 scans of at
     * most steps calls of MoveNext each.
     */
    method DeleteMatching(key: K, value: V, valueComparer: Comparer<V>, rounds: nat, steps: nat) returns (r: Result<bool>)
      requires RootCreated(nodeManager.State())
      modifies nodeManager
      ensures (r, nodeManager.State()) == DeleteMatchingFrom(old(nodeManager.State()), key, value, allowDuplicateKeys,
          nodeManager.minEntriesPerNode, nodeManager.keyComparer, valueComparer, rounds, steps)
    {
      if !allowDuplicateKeys {
        return Err(InvalidOperation);
      }
      ghost var goal := DeleteMatchingFrom(nodeManager.State(), key, value, allowDuplicateKeys,
          nodeManager.minEntriesPerNode, nodeManager.keyComparer, valueComparer, rounds, steps);
      var isDeleted := false;
      var left := rounds;
      var more := true;
      r := Ok(false);
      while more
        invariant more ==> RootCreated(nodeManager.State())
        invariant more ==> DeleteRounds(nodeManager.State(), key, value, nodeManager.minEntriesPerNode,
                                           nodeManager.keyComparer, valueComparer, left, steps, isDeleted) == goal
        invariant !more ==> (r, nodeManager.State()) == goal
        decreases left, if more then 1 else 0
      {
        ghost var a := nodeManager.State();
        var m := RemoveMatchRound(key, value, valueComparer, steps);
        if m.Err? {
          r, more := Err(m.error), false;
        } else if !m.value {
          r, more := Ok(isDeleted), false;
        } else if left == 0 {
          r, more := Err(NonTermination), false;
        } else {
          ghost var (l0, d0) := (left, isDeleted);
          isDeleted, left := true, left - 1;
          NextRound(a, (m, nodeManager.State()), key, value, nodeManager.minEntriesPerNode, nodeManager.keyComparer,
                    valueComparer, l0, left, steps, d0);
        }
      }
    }
  }
}
