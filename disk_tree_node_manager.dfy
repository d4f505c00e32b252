/**
 * DiskTreeNodeManagers: the node manager that keeps the B-tree in a RecordStorage. Each node
 * is the record whose id is the node's id, holding the node's serialization; record 1 holds
 * the id of the root node as a little-endian uint32.
 *
 * Nodes are values here. The source hands out TreeNode objects and keeps them in three
 * tables: dirtyNodes (the nodes to write back on Save), weakNodes (weak references to every
 * node created or loaded, consulted by Find) and strongNodes (a queue that keeps the most
 * recent nodes alive). The model keeps the node each table refers to, and a node handed
 * back to the manager (MarkAsChanged, MakeRoot, Delete) is the current state of the object
 * with that id. No garbage collector is modelled: every weak reference stays alive, so the
 * weak table is a plain cache and strongNodes only holds ids.
 *
 * Every method changes the state step by step as the source does, and its postcondition
 * ties the outcome and the new state to a function of the old state; lemmas about those
 * functions follow the class.
 */
module DiskTreeNodeManagers {
  import opened Errors
  import opened Bytes
  import opened Comparers
  import opened TreeArena
  import opened Serializers
  import opened DiskTreeNodeSerializers
  import opened RecordSpec
  import opened RecordStore
  import RecordBlocks
  import LittleEndian
  import TreeEntryComparer

  /** DiskTreeNodeManager.MinEntriesPerNode. */
  const MinEntriesPerNode: nat := 36
  /** The strong queue is trimmed once it holds this many nodes. */
  const MaxStrongNodes: nat := 200
  /** The weak table is swept on every call of OnNodeInitialized after this many. */
  const WeakNodeCleanThreshold: int := 1000

  /** DiskTreeNodeManager.MaxEntriesPerNode, the ushort (ushort)(MinEntriesPerNode * 2). */
  function MaxEntriesPerNode(): (r: nat)
    ensures r == 2 * MinEntriesPerNode && r == MaxEntries(MinEntriesPerNode)
  {
    (MinEntriesPerNode * 2) % 0x1_0000
  }

  /** The content of record 1: LittleEndian.GetBytes of the root's id. */
  function RootRecord(id: uint32): (r: seq<byte>)
    ensures |r| == 4 && ReadU32(r, 0) == Ok(id)
  {
    Pow256Values();
    FromLEToLE(id, 4);
    var r := LittleEndian.GetBytesUInt32(id, true);
    assert r[0..4] == r;
    r
  }

  /** The bytes a node serializes to, or none when it cannot be serialized. */
  function Serialized<K, V>(s: NodeSerializer<K, V>, n: Node<K, V>): seq<byte>
  {
    if Encode(s, n).Ok? then Encode(s, n).value else []
  }

  /** The id of a node plays no part in its serialization. */
  lemma EncodeIgnoresId<K, V>(s: NodeSerializer<K, V>, n: Node<K, V>, id: nat)
    ensures Encode(s, n.(id := id)) == Encode(s, n)
    ensures Serialized(s, n.(id := id)) == Serialized(s, n)
  {
    assert Header(n.(id := id)) == Header(n);
    assert Image(s, n.(id := id)) == Image(s, n);
  }

  /** What Create's callback returns for the record it is given: the serialization of the new node. */
  function NodeData<K, V>(s: NodeSerializer<K, V>, entries: seq<(K, V)>, children: seq<nat>): (f: uint32 -> seq<byte>)
    ensures forall id: uint32 :: f(id) == Serialized(s, Node(id, 0, entries, children))
  {
    id => Serialized(s, Node(id, 0, entries, children))
  }

  /** The key and value serializers keep to the widths they announce. */
  ghost predicate Widths<K(!new), V(!new)>(s: NodeSerializer<K, V>)
  {
    s.keySerializer.isFixedSize ==> ExactWidth(s.keySerializer) && ExactWidth(s.valueSerializer)
  }

  /** A node an actual TreeNode can be: uint ids, array lengths, keys that fit an array. */
  ghost predicate Fits<K, V>(s: NodeSerializer<K, V>, n: Node<K, V>)
  {
    Storable(n) && (!s.keySerializer.isFixedSize ==> KeyBytesFit(s, n.entries))
  }

  /** Room in the store for a record of these bytes: a .NET array, and uint block ids. */
  ghost predicate Room(d: seq<RecordBlocks.Image>, data: seq<byte>)
  {
    |data| <= MaxArrayLength && |d| + |data| + 2 < RecordBlocks.MaxBlocks
  }

  /** Every node a table holds is held under its own id. */
  ghost predicate Keyed<K, V>(m: map<nat, Node<K, V>>)
  {
    forall id | id in m :: m[id].id == id
  }

  /** The weak and strong tables and the cleanup counter. */
  datatype Tracking<K, V> = Tracking(weak: map<nat, Node<K, V>>, strong: seq<nat>, counter: int)

  /** The ids the weak table still reaches, when `alive` tells which references are alive. */
  function Sweep<K, V>(weak: map<nat, Node<K, V>>, alive: nat -> bool): (r: map<nat, Node<K, V>>)
    ensures forall id :: id in r <==> id in weak && alive(id)
    ensures forall id | id in r :: r[id] == weak[id]
  {
    map id | id in weak && alive(id) :: weak[id]
  }

  /** No collector is modelled: every weak reference is alive. */
  function AllAlive(id: nat): bool
  {
    true
  }

  /** The strong queue after the trim: only the most recent half once it is full. */
  function Trimmed(q: seq<nat>): (r: seq<nat>)
    ensures |r| < MaxStrongNodes && |r| <= |q| && (0 < |q| ==> 0 < |r|)
    ensures r == q[|q| - |r|..]
    ensures |q| < MaxStrongNodes ==> r == q
  {
    if |q| >= MaxStrongNodes then q[|q| - MaxStrongNodes / 2..] else q
  }

  /**
   * OnNodeInitialized(node): the weak table gets the node (ArgumentException when it already
   * holds the id, as Dictionary.Add throws), the strong queue gets it and is trimmed when
   * full, and on the call after every 1000 the weak table is swept of dead references.
   */
  function Initialized<K, V>(t: Tracking<K, V>, n: Node<K, V>): (r: (Status, Tracking<K, V>))
    ensures r.0 == Fail(Argument) <==> n.id in t.weak
    ensures r.0 == Fail(Argument) ==> r.1 == t
    ensures r.0.Done? ==> r.1.weak == t.weak[n.id := n] && |r.1.strong| < MaxStrongNodes
    ensures Keyed(t.weak) ==> Keyed(r.1.weak)
    ensures r.0.Done? && 0 <= t.counter ==> 0 <= r.1.counter
    ensures r.0.Done? ==> r.1.counter == if t.counter >= WeakNodeCleanThreshold then 0 else t.counter + 1
  {
    if n.id in t.weak then (Fail(Argument), t)
    else
      var weak := t.weak[n.id := n];
      var strong := Trimmed(t.strong + [n.id]);
      if t.counter >= WeakNodeCleanThreshold then (Done, Tracking(Sweep(weak, AllAlive), strong, 0))
      else (Done, Tracking(weak, strong, t.counter + 1))
  }

  /** A newly initialized node is the most recent entry of the strong queue. */
  lemma Enqueued<K, V>(t: Tracking<K, V>, n: Node<K, V>)
    requires Initialized(t, n).0.Done?
    ensures var q := Initialized(t, n).1.strong; 0 < |q| && q[|q| - 1] == n.id
  {
    var q := t.strong + [n.id];
    assert q[|q| - 1] == n.id;
  }

  /** Dictionary.Remove on the insertion order of the dirty table. */
  function Remove(order: seq<nat>, id: nat): (r: seq<nat>)
    ensures forall x :: x in r <==> x in order && x != id
    ensures id !in order ==> r == order
  {
    if order == [] then []
    else if order[0] == id then Remove(order[1..], id)
    else [order[0]] + Remove(order[1..], id)
  }

  ghost predicate Distinct(order: seq<nat>)
  {
    forall i, j | 0 <= i < j < |order| :: order[i] != order[j]
  }

  /** Removing an id from a list without repeats leaves one without repeats. */
  lemma {:induction false} RemoveDistinct(order: seq<nat>, id: nat)
    ensures Distinct(order) ==> Distinct(Remove(order, id))
  {
    if order != [] && Distinct(order) {
      assert Distinct(order[1..]);
      RemoveDistinct(order[1..], id);
      if order[0] != id {
        var r := Remove(order[1..], id);
        assert order[0] !in order[1..];
        assert order[0] !in r;
        assert forall j | 0 < j < |[order[0]] + r| :: ([order[0]] + r)[j] == r[j - 1];
      }
    }
  }

  /** The order lists the keys of the table, each once. */
  ghost predicate Lists<K, V>(m: map<nat, Node<K, V>>, order: seq<nat>)
  {
    Distinct(order) && (forall k | 0 <= k < |order| :: order[k] in m) && (forall id | id in m :: id in order)
  }

  /**
   * MarkAsChanged(node): the dirty table gains the node when it does not hold its id yet. A
   * node it holds is the same object, so the table then shows the node's new state.
   */
  function Marked<K, V>(m: map<nat, Node<K, V>>, order: seq<nat>, n: Node<K, V>): (r: (map<nat, Node<K, V>>, seq<nat>))
    ensures r.0 == m[n.id := n]
    ensures n.id in m ==> r.1 == order
    ensures n.id !in m ==> r.1 == order + [n.id]
    ensures Lists(m, order) ==> Lists(r.0, r.1)
  {
    (m[n.id := n], if n.id in m then order else order + [n.id])
  }

  /** Delete's `dirtyNodes.Remove(id)`. */
  function Unmarked<K, V>(m: map<nat, Node<K, V>>, order: seq<nat>, id: nat): (r: (map<nat, Node<K, V>>, seq<nat>))
    ensures id !in r.0 && id !in r.1
    ensures forall x | x != id :: (x in r.0 <==> x in m) && (x in r.1 <==> x in order)
    ensures forall x | x in r.0 :: r.0[x] == m[x]
    ensures Lists(m, order) ==> Lists(r.0, r.1)
  {
    RemoveDistinct(order, id);
    (m - {id}, Remove(order, id))
  }

  /** The dirty nodes in the order Save visits them. */
  function InOrder<K, V>(m: map<nat, Node<K, V>>, order: seq<nat>): (r: seq<Node<K, V>>)
    requires forall k | 0 <= k < |order| :: order[k] in m
    ensures |r| == |order| && forall k | 0 <= k < |order| :: r[k] == m[order[k]]
  {
    if order == [] then [] else [m[order[0]]] + InOrder(m, order[1..])
  }

  /** The dirty nodes from position i on: the one at i, then the rest. */
  lemma InOrderStep<K, V>(m: map<nat, Node<K, V>>, order: seq<nat>, i: nat)
    requires i < |order| && forall k | 0 <= k < |order| :: order[k] in m
    ensures InOrder(m, order[i..]) == [m[order[i]]] + InOrder(m, order[i + 1..])
  {
    assert order[i..][1..] == order[i + 1..];
  }

  /** Save's first step: the serializer's bytes for the first node, then its Update. */
  lemma SaveStep<K, V>(d: seq<RecordBlocks.Image>, cs: nat, aligned: bool, s: NodeSerializer<K, V>, nodes: seq<Node<K, V>>)
    requires 0 < cs < 0x8000_0000 && Sized(d, cs) && nodes != []
    requires Bounded(s, nodes) && |d| + Budget(s, nodes) < RecordBlocks.MaxBlocks
    ensures var n, rest := nodes[0], nodes[1..];
      Bounded(s, rest) && |Serialized(s, n)| <= MaxArrayLength
      && Budget(s, nodes) == |Serialized(s, n)| + 2 + Budget(s, rest)
      && (Encode(s, n).Err? ==> SaveSpec(d, cs, aligned, s, nodes) == (Fail(Encode(s, n).error), d))
      && (Encode(s, n).Ok? ==>
            var (st, e) := UpdateSpec(d, cs, aligned, n.id, Encode(s, n).value);
            |e| + Budget(s, rest) < RecordBlocks.MaxBlocks
            && SaveSpec(d, cs, aligned, s, nodes) == if st.Fail? then (st, e) else SaveSpec(e, cs, aligned, s, rest))
  {
    assert forall k | 0 <= k < |nodes[1..]| :: nodes[1..][k] == nodes[k + 1];
  }

  /** The largest number of blocks Save can add: each Update grows the store by its data and two. */
  function Budget<K, V>(s: NodeSerializer<K, V>, nodes: seq<Node<K, V>>): nat
  {
    if nodes == [] then 0 else |Serialized(s, nodes[0])| + 2 + Budget(s, nodes[1..])
  }

  /** Every node of the list leaves a serialization short enough for a .NET array. */
  ghost predicate Bounded<K, V>(s: NodeSerializer<K, V>, nodes: seq<Node<K, V>>)
  {
    forall k | 0 <= k < |nodes| :: |Serialized(s, nodes[k])| <= MaxArrayLength
  }

  /**
   * Save's loop: Update of each node's record with its serialization, in order; the first
   * exception, from the serializer or from Update, ends it.
   */
  ghost function SaveSpec<K, V>(d: seq<RecordBlocks.Image>, cs: nat, aligned: bool, s: NodeSerializer<K, V>, nodes: seq<Node<K, V>>)
    : (r: (Status, seq<RecordBlocks.Image>))
    requires 0 < cs < 0x8000_0000 && Sized(d, cs) && Bounded(s, nodes) && |d| + Budget(s, nodes) < RecordBlocks.MaxBlocks
    ensures |d| <= |r.1| <= |d| + Budget(s, nodes) && Sized(r.1, cs)
    decreases |nodes|
  {
    if nodes == [] then (Done, d)
    else match Encode(s, nodes[0])
      case Err(e) => (Fail(e), d)
      case Ok(data) =>
        var (st, e) := UpdateSpec(d, cs, aligned, nodes[0].id, data);
        if st.Fail? then (st, e)
        else SaveSpec(e, cs, aligned, s, nodes[1..])
  }

  /**
   * Create(entries, childrenIds): RecordStorage.Create allocates the first block, and its
   * callback makes the node with that id and parent 0, registers it (OnNodeInitialized) and
   * serializes it; its bytes are then stored in the record. An exception in the callback
   * leaves the block allocated and nothing stored.
   */
  ghost function CreateOutcome<K, V>(d: seq<RecordBlocks.Image>, cs: nat, aligned: bool, s: NodeSerializer<K, V>, t: Tracking<K, V>,
                                     entries: seq<(K, V)>, children: seq<nat>): (r: (Result<Node<K, V>>, seq<RecordBlocks.Image>, Tracking<K, V>))
    requires 0 < cs < 0x8000_0000 && Sized(d, cs) && Room(d, Serialized(s, Node(0, 0, entries, children)))
    ensures Sized(r.1, cs) && |d| <= |r.1| <= |d| + |Serialized(s, Node(0, 0, entries, children))| + 2
    ensures r.0.Ok? ==> 0 < r.0.value.id < |r.1| && r.0.value == Node(r.0.value.id, 0, entries, children)
    ensures r.0.Ok? ==> Encode(s, r.0.value).Ok? && r.1 == CreateSpec(d, cs, aligned, NodeData(s, entries, children)).1
    ensures r.0.Ok? ==> CreateSpec(d, cs, aligned, NodeData(s, entries, children)).0 == Ok(r.0.value.id)
    ensures r.0.Ok? ==> r.2 == Initialized(t, r.0.value).1
  {
    var (a, e) := AllocateSpec(d, cs, aligned);
    if a.Err? then (Err(a.error), e, t)
    else
      var n := Node(a.value, 0, entries, children);
      var (st, t') := Initialized(t, n);
      if st.Fail? then (Err(st.error), e, t)
      else
        EncodeIgnoresId(s, Node(0, 0, entries, children), a.value);
        match Encode(s, n)
        case Err(x) => (Err(x), e, t')
        case Ok(data) =>
          var (c, e2) := StoreSpec(e, cs, aligned, a.value, data);
          (if c.Err? then Err(c.error) else Ok(n), e2, t')
  }

  /** The node record `id` holds: none when there is no such record. */
  ghost function Load<K, V>(d: seq<RecordBlocks.Image>, cs: nat, s: NodeSerializer<K, V>, id: uint32): (r: Result<Option<Node<K, V>>>)
    requires Sized(d, cs)
    ensures r.Ok? && r.value.Some? ==> r.value.value.id == id
    ensures FindSpec(d, cs, id) == Ok(None) ==> r == Ok(None)
  {
    match FindSpec(d, cs, id)
    case Err(e) => Err(e)
    case Ok(None) => Ok(None)
    case Ok(Some(data)) =>
      match Decode(s, id, data)
      case Err(e) => Err(e)
      case Ok(n) => Ok(Some(n))
  }

  /**
   * Find(id): the node the weak table holds for id, else the node loaded from record id, which
   * is then registered; null when the record does not exist.
   */
  ghost function FindOutcome<K, V>(d: seq<RecordBlocks.Image>, cs: nat, s: NodeSerializer<K, V>, t: Tracking<K, V>, id: uint32)
    : (r: (Result<Option<Node<K, V>>>, Tracking<K, V>))
    requires Sized(d, cs)
    ensures id in t.weak ==> r == (Ok(Some(t.weak[id])), t)
    ensures id !in t.weak ==> r.0 == Load(d, cs, s, id)
    ensures r.0.Ok? && r.0.value.Some? ==> id in r.1.weak && r.1.weak[id] == r.0.value.value
  {
    if id in t.weak then (Ok(Some(t.weak[id])), t)
    else match Load(d, cs, s, id)
      case Err(e) => (Err(e), t)
      case Ok(None) => (Ok(None), t)
      case Ok(Some(n)) => (Ok(Some(n)), Initialized(t, n).1)
  }

  /**
   * The constructor's search for the root: the node whose id record 1 holds, when there is a
   * record 1; otherwise CreateFirstRoot, which writes record 1 as the bytes of 2 and creates an
   * empty node.
   */
  ghost function BootOutcome<K, V>(d: seq<RecordBlocks.Image>, cs: nat, aligned: bool, s: NodeSerializer<K, V>, t: Tracking<K, V>)
    : (r: (Result<Option<Node<K, V>>>, seq<RecordBlocks.Image>, Tracking<K, V>))
    requires 0 < cs < 0x8000_0000 && Sized(d, cs) && |d| + 32 < RecordBlocks.MaxBlocks
    ensures FindSpec(d, cs, 1).Ok? && FindSpec(d, cs, 1).value.Some? ==>
      var data := FindSpec(d, cs, 1).value.value;
      r.1 == d && (ReadU32(data, 0).Err? ==> r.0 == Err(ReadU32(data, 0).error))
      && (ReadU32(data, 0).Ok? ==> (r.0, r.2) == FindOutcome(d, cs, s, t, ReadU32(data, 0).value))
    ensures FindSpec(d, cs, 1) == Ok(None) ==>
      var (first, e) := CreateSpec(d, cs, aligned, _ => RootRecord(2));
      (first.Err? ==> r == (Err(first.error), e, t))
      && (first.Ok? ==> r.0.Ok? ==> r.0.value.Some? && r.0.value.value.entries == [] && r.0.value.value.children == [])
  {
    match FindSpec(d, cs, 1)
    case Err(e) => (Err(e), d, t)
    case Ok(Some(data)) => var (n, t') := RootFromRecord(d, cs, s, t, data); (n, d, t')
    case Ok(None) => FirstRootOutcome(d, cs, aligned, s, t)
  }

  /** The root when record 1 exists: Find of the id its first four bytes hold. */
  ghost function RootFromRecord<K, V>(d: seq<RecordBlocks.Image>, cs: nat, s: NodeSerializer<K, V>, t: Tracking<K, V>, data: seq<byte>)
    : (r: (Result<Option<Node<K, V>>>, Tracking<K, V>))
    requires Sized(d, cs)
    ensures ReadU32(data, 0).Err? ==> r == (Err(ReadU32(data, 0).error), t)
    ensures ReadU32(data, 0).Ok? ==> r == FindOutcome(d, cs, s, t, ReadU32(data, 0).value)
  {
    match ReadU32(data, 0)
    case Err(e) => (Err(e), t)
    case Ok(id) => FindOutcome(d, cs, s, t, id)
  }

  /** CreateFirstRoot's outcome: record 1 holding the bytes of 2, then an empty node. */
  ghost function FirstRootOutcome<K, V>(d: seq<RecordBlocks.Image>, cs: nat, aligned: bool, s: NodeSerializer<K, V>, t: Tracking<K, V>)
    : (r: (Result<Option<Node<K, V>>>, seq<RecordBlocks.Image>, Tracking<K, V>))
    requires 0 < cs < 0x8000_0000 && Sized(d, cs) && |d| + 32 < RecordBlocks.MaxBlocks
    ensures Sized(r.1, cs) && |d| <= |r.1|
    ensures var (first, e) := CreateSpec(d, cs, aligned, _ => RootRecord(2));
      (first.Err? ==> r == (Err(first.error), e, t))
      && (first.Ok? ==> r.0.Ok? ==> r.0.value.Some? && r.0.value.value.entries == [] && r.0.value.value.children == [])
  {
    var (first, e) := CreateSpec(d, cs, aligned, _ => RootRecord(2));
    if first.Err? then (Err(first.error), e, t)
    else
      EmptyNodeSmall(s);
      var (c, e2, t') := CreateOutcome(e, cs, aligned, s, t, [], []);
      (if c.Err? then Err(c.error) else Ok(Some(c.value)), e2, t')
  }

  /** An empty node serializes to its 12-byte header, or to nothing. */
  lemma EmptyNodeSmall<K, V>(s: NodeSerializer<K, V>)
    ensures |Serialized(s, Node(0, 0, [], []))| <= 12
  {
    var n: Node<K, V> := Node(0, 0, [], []);
    assert Image(s, n) == Header(n) + [] + [];
  }

  class DiskTreeNodeManager<K(!new), V(!new)> {
    const recordStorage: RecordStorage
    const serializer: NodeSerializer<K, V>
    const keyComparer: Comparer<K>
    const entryComparer: Comparer<(K, V)>
    /** The nodes to write back on Save, by id, and the order they were added in. */
    var dirtyNodes: map<nat, Node<K, V>>
    var dirtyOrder: seq<nat>
    /** The node every weak reference points to, by id. */
    var weakNodes: map<nat, Node<K, V>>
    /** The ids of the nodes the strong queue holds, oldest first. */
    var strongNodes: seq<nat>
    var cleanupCounter: int
    var rootNode: Option<Node<K, V>>

    ghost predicate Valid()
      reads this`dirtyNodes, this`dirtyOrder, this`weakNodes, this`cleanupCounter, recordStorage
    {
      recordStorage.Valid() && Widths(serializer) && DirtyValid() && Keyed(weakNodes) && 0 <= cleanupCounter
    }

    /** The dirty table holds each node under its id, in the order listed, and each can be saved. */
    ghost predicate DirtyValid()
      reads this`dirtyNodes, this`dirtyOrder
    {
      Lists(dirtyNodes, dirtyOrder)
      && forall id | id in dirtyNodes :: dirtyNodes[id].id == id && Fits(serializer, dirtyNodes[id])
    }

    /** The weak and strong tables and the counter, together. */
    function Tracked(): Tracking<K, V>
      reads this`weakNodes, this`strongNodes, this`cleanupCounter
    {
      Tracking(weakNodes, strongNodes, cleanupCounter)
    }

    /** The fields as the constructor sets them up, before it looks for the root. */
    constructor Init(recordStorage: RecordStorage, serializer: NodeSerializer<K, V>, keyComparer: Comparer<K>)
      requires recordStorage.Valid() && Widths(serializer)
      ensures Valid() && Tracked() == Tracking(map[], [], 0) && dirtyNodes == map[] && dirtyOrder == [] && rootNode == None
      ensures this.recordStorage == recordStorage && this.serializer == serializer && this.keyComparer == keyComparer
      ensures entryComparer == TreeEntryComparer.EntryComparer(keyComparer)
    {
      this.recordStorage := recordStorage;
      this.serializer := serializer;
      this.keyComparer := keyComparer;
      entryComparer := TreeEntryComparer.EntryComparer(keyComparer);
      dirtyNodes, dirtyOrder := map[], [];
      weakNodes, strongNodes, cleanupCounter := map[], [], 0;
      rootNode := None;
    }

    /**
     * new DiskTreeNodeManager(keySerializer, valueSerializer, recordStorage, keyComparer):
     * ArgumentNullException for a missing record storage, then for a missing key or value
     * serializer (from the node serializer's constructor); then the root is found or created.
     */
    static method New(keySerializer: Option<Serializer<K>>, valueSerializer: Option<Serializer<V>>,
                      recordStorage: RecordStorage?, keyComparer: Comparer<K>) returns (r: Result<DiskTreeNodeManager<K, V>>)
      requires recordStorage != null ==> recordStorage.Valid() && |recordStorage.disk| + 32 < RecordBlocks.MaxBlocks
      requires keySerializer.Some? && valueSerializer.Some? ==> Widths(NodeSerializer(keySerializer.value, valueSerializer.value))
      modifies recordStorage
      ensures recordStorage == null ==> r == Err(ArgumentNull)
      ensures recordStorage != null && (keySerializer.None? || valueSerializer.None?) ==>
        r == Err(ArgumentNull) && recordStorage.disk == old(recordStorage.disk)
      ensures recordStorage != null && keySerializer.Some? && valueSerializer.Some? ==>
        var s := NodeSerializer(keySerializer.value, valueSerializer.value);
        var (root, e, t) := BootOutcome(old(recordStorage.disk), recordStorage.contentSize, recordStorage.aligned, s, Tracking(map[], [], 0));
        recordStorage.disk == e
        && (root.Err? ==> r == Err(root.error))
        && (root.Ok? ==> r.Ok? && fresh(r.value) && r.value.Valid() && r.value.recordStorage == recordStorage
                         && r.value.serializer == s && r.value.keyComparer == keyComparer
                         && r.value.rootNode == root.value && r.value.Tracked() == t
                         && r.value.dirtyNodes == map[])
    {
      if recordStorage == null {
        return Err(ArgumentNull);
      }
      var s := NewNodeSerializer(keySerializer, valueSerializer);
      if s.Err? {
        return Err(s.error);
      }
      var m := new DiskTreeNodeManager.Init(recordStorage, s.value, keyComparer);
      var found := m.FindOrCreateRoot();
      if found.Fail? {
        return Err(found.error);
      }
      return Ok(m);
    }

    /** The constructor's last step: the root from record 1, or CreateFirstRoot. */
    method FindOrCreateRoot() returns (st: Status)
      requires Valid() && Tracked() == Tracking(map[], [], 0) && dirtyNodes == map[] && rootNode == None
      requires |recordStorage.disk| + 32 < RecordBlocks.MaxBlocks
      modifies this`weakNodes, this`strongNodes, this`cleanupCounter, this`rootNode, recordStorage
      ensures Valid() && dirtyNodes == map[]
      ensures var (root, e, t) := BootOutcome(old(recordStorage.disk), recordStorage.contentSize, recordStorage.aligned, serializer,
                                               Tracking(map[], [], 0));
        recordStorage.disk == e && Tracked() == t
        && (root.Err? ==> st == Fail(root.error)) && (root.Ok? ==> st == Done && rootNode == root.value)
    {
      var root := FindRoot();
      if root.Err? {
        return Fail(root.error);
      }
      rootNode := root.value;
      return Done;
    }

    /** The search for the root, as BootOutcome describes it. */
    method FindRoot() returns (r: Result<Option<Node<K, V>>>)
      requires Valid() && |recordStorage.disk| + 32 < RecordBlocks.MaxBlocks
      modifies this`weakNodes, this`strongNodes, this`cleanupCounter, recordStorage
      ensures Valid()
      ensures (r, recordStorage.disk, Tracked())
        == BootOutcome(old(recordStorage.disk), recordStorage.contentSize, recordStorage.aligned, serializer, old(Tracked()))
    {
      var firstData := recordStorage.Find(1);
      if firstData.Err? {
        return Err(firstData.error);
      }
      if firstData.value.Some? {
        r := RootFromData(firstData.value.value);
      } else {
        r := CreateFirstRoot();
      }
    }

    /** The root when record 1 exists, as RootFromRecord describes it. */
    method RootFromData(data: seq<byte>) returns (r: Result<Option<Node<K, V>>>)
      requires Valid()
      modifies this`weakNodes, this`strongNodes, this`cleanupCounter
      ensures Valid()
      ensures (r, Tracked()) == RootFromRecord(recordStorage.disk, recordStorage.contentSize, serializer, old(Tracked()), data)
    {
      var id := ReadU32(data, 0);
      if id.Err? {
        return Err(id.error);
      }
      r := Find(id.value);
    }

    /**
     * CreateFirstRoot: record 1 is created holding the bytes of 2, where the root node is meant
     * to go, and then an empty node is created. The id Create returns for record 1 is ignored.
     */
    method CreateFirstRoot() returns (r: Result<Option<Node<K, V>>>)
      requires Valid() && |recordStorage.disk| + 32 < RecordBlocks.MaxBlocks
      modifies this`weakNodes, this`strongNodes, this`cleanupCounter, recordStorage
      ensures Valid()
      ensures (r, recordStorage.disk, Tracked())
        == FirstRootOutcome(old(recordStorage.disk), recordStorage.contentSize, recordStorage.aligned, serializer, old(Tracked()))
    {
      var first := recordStorage.CreateFrom(RootRecord(2));
      if first.Err? {
        return Err(first.error);
      }
      EmptyNodeSmall(serializer);
      var c := Create([], []);
      r := if c.Err? then Err(c.error) else Ok(Some(c.value));
    }

    /** Create(entries, childrenIds), as CreateOutcome describes it. */
    method Create(entries: seq<(K, V)>, childrenIds: seq<nat>) returns (r: Result<Node<K, V>>)
      requires Valid() && Fits(serializer, Node(0, 0, entries, childrenIds))
      requires Room(recordStorage.disk, Serialized(serializer, Node(0, 0, entries, childrenIds)))
      modifies this`weakNodes, this`strongNodes, this`cleanupCounter, recordStorage
      ensures Valid()
      ensures (r, recordStorage.disk, Tracked())
        == CreateOutcome(old(recordStorage.disk), recordStorage.contentSize, recordStorage.aligned, serializer, old(Tracked()),
                         entries, childrenIds)
    {
      ghost var n0 := Node(0, 0, entries, childrenIds);
      var a := recordStorage.AllocateBlock();
      if a.Err? {
        return Err(a.error);
      }
      // The callback: the node gets the id of the block just allocated.
      var node := Node(a.value, 0, entries, childrenIds);
      var st := OnNodeInitialized(node);
      if st.Fail? {
        return Err(st.error);
      }
      EncodeIgnoresId(serializer, n0, a.value);
      var data := Serialize(serializer, node);
      if data.Err? {
        return Err(data.error);
      }
      var c := recordStorage.Store(a.value, data.value);
      if c.Err? {
        return Err(c.error);
      }
      return Ok(node);
    }

    /** Find(id), as FindOutcome describes it; the record storage is only read. */
    method Find(id: uint32) returns (r: Result<Option<Node<K, V>>>)
      requires Valid()
      modifies this`weakNodes, this`strongNodes, this`cleanupCounter
      ensures Valid()
      ensures (r, Tracked()) == FindOutcome(recordStorage.disk, recordStorage.contentSize, serializer, old(Tracked()), id)
    {
      if id in weakNodes {
        return Ok(Some(weakNodes[id]));
      }
      r := LoadNode(id);
      if r.Ok? && r.value.Some? {
        // The id is not in the weak table, so registering the node cannot fail.
        Register(r.value.value);
      }
    }

    /** Find's read of a node it does not hold: the record, deserialized. */
    method LoadNode(id: uint32) returns (r: Result<Option<Node<K, V>>>)
      requires Valid()
      ensures r == Load(recordStorage.disk, recordStorage.contentSize, serializer, id)
    {
      var data := recordStorage.Find(id);
      if data.Err? {
        return Err(data.error);
      }
      if data.value.None? {
        return Ok(None);
      }
      var node := Deserialize(serializer, id, data.value.value);
      if node.Err? {
        return Err(node.error);
      }
      return Ok(Some(node.value));
    }

    /** OnNodeInitialized for a node whose id the weak table does not hold. */
    method Register(node: Node<K, V>)
      requires Valid() && node.id !in weakNodes
      modifies this`weakNodes, this`strongNodes, this`cleanupCounter
      ensures Valid() && Tracked() == Initialized(old(Tracked()), node).1
    {
      var st := OnNodeInitialized(node);
    }

    /** MakeRoot(node): the root is the node, and record 1 is overwritten with its id. */
    method MakeRoot(node: Node<K, V>) returns (s: Status)
      requires Valid() && node.id < 0x1_0000_0000 && |recordStorage.disk| + 5 < RecordBlocks.MaxBlocks
      modifies this`rootNode, recordStorage
      ensures Valid() && rootNode == Some(node)
      ensures (s, recordStorage.disk)
        == UpdateSpec(old(recordStorage.disk), recordStorage.contentSize, recordStorage.aligned, 1, RootRecord(node.id))
    {
      rootNode := Some(node);
      s := recordStorage.Update(1, RootRecord(node.id));
    }

    /**
     * CreateNewRoot(key, value, leftNodeId, rightNodeId): a node with the one entry and the two
     * children, made the root; the result is the root.
     */
    method CreateNewRoot(key: K, value: V, leftNodeId: uint32, rightNodeId: uint32) returns (r: Result<Node<K, V>>)
      requires Valid() && Fits(serializer, Node(0, 0, [(key, value)], [leftNodeId, rightNodeId]))
      requires var data := Serialized(serializer, Node(0, 0, [(key, value)], [leftNodeId, rightNodeId]));
        Room(recordStorage.disk, data) && |recordStorage.disk| + |data| + 7 < RecordBlocks.MaxBlocks
      modifies this`weakNodes, this`strongNodes, this`cleanupCounter, this`rootNode, recordStorage
      ensures Valid()
      ensures var (c, e, t) := CreateOutcome(old(recordStorage.disk), recordStorage.contentSize, recordStorage.aligned, serializer,
                                             old(Tracked()), [(key, value)], [leftNodeId, rightNodeId]);
        Tracked() == t
        && (c.Err? ==> r == c && recordStorage.disk == e && rootNode == old(rootNode))
        && (c.Ok? ==>
              c.value.id < 0x1_0000_0000 && rootNode == Some(c.value)
              && var (u, e2) := UpdateSpec(e, recordStorage.contentSize, recordStorage.aligned, 1, RootRecord(c.value.id));
                 recordStorage.disk == e2 && r == (if u.Fail? then Err(u.error) else Ok(c.value)))
    {
      var node := Create([(key, value)], [leftNodeId, rightNodeId]);
      if node.Err? {
        return node;
      }
      var s := MakeRoot(node.value);
      if s.Fail? {
        return Err(s.error);
      }
      return Ok(rootNode.value);
    }

    /**
     * MarkAsChanged(node): the dirty table gains the node (Marked). The weak table refers to the
     * same object, so it shows the node's new state too.
     */
    method MarkAsChanged(node: Node<K, V>)
      requires Valid() && Fits(serializer, node)
      modifies this`dirtyNodes, this`dirtyOrder, this`weakNodes
      ensures Valid() && (dirtyNodes, dirtyOrder) == Marked(old(dirtyNodes), old(dirtyOrder), node)
      ensures weakNodes == if node.id in old(weakNodes) then old(weakNodes)[node.id := node] else old(weakNodes)
    {
      ghost var marked := Marked(dirtyNodes, dirtyOrder, node);
      if node.id !in dirtyNodes {
        dirtyOrder := dirtyOrder + [node.id];
      }
      dirtyNodes := dirtyNodes[node.id := node];
      if node.id in weakNodes {
        weakNodes := weakNodes[node.id := node];
      }
    }

    /**
     * Delete(node): the root is cleared when it is this node, the record is deleted, and then
     * the node leaves the dirty table. The weak table keeps it.
     */
    method Delete(node: Node<K, V>) returns (s: Status)
      requires Valid()
      modifies this`rootNode, this`dirtyNodes, this`dirtyOrder, recordStorage
      ensures Valid()
      ensures rootNode == if old(rootNode).Some? && old(rootNode).value.id == node.id then None else old(rootNode)
      ensures (s, recordStorage.disk) == DeleteSpec(old(recordStorage.disk), recordStorage.contentSize, recordStorage.aligned, node.id)
      ensures s.Done? ==> (dirtyNodes, dirtyOrder) == Unmarked(old(dirtyNodes), old(dirtyOrder), node.id)
      ensures s.Fail? ==> dirtyNodes == old(dirtyNodes) && dirtyOrder == old(dirtyOrder)
    {
      if rootNode.Some? && rootNode.value.id == node.id {
        rootNode := None;
      }
      s := recordStorage.Delete(node.id);
      if s.Done? {
        Forget(node.id);
      }
    }

    /** Delete's `dirtyNodes.Remove(id)`, as Unmarked describes it. */
    method Forget(id: nat)
      requires DirtyValid()
      modifies this`dirtyNodes, this`dirtyOrder
      ensures (dirtyNodes, dirtyOrder) == Unmarked(old(dirtyNodes), old(dirtyOrder), id)
      ensures Lists(dirtyNodes, dirtyOrder)
      ensures DirtyValid()
    {
      if id in dirtyNodes {
        dirtyNodes, dirtyOrder := dirtyNodes - {id}, Remove(dirtyOrder, id);
      } else {
        assert dirtyNodes - {id} == dirtyNodes;
      }
    }

    /**
     * Save: Update of every dirty node's record with its serialization, in the dirty table's
     * order, and then the table is cleared. An exception leaves the table as it was.
     */
    method Save() returns (s: Status)
      requires Valid() && Bounded(serializer, InOrder(dirtyNodes, dirtyOrder))
      requires |recordStorage.disk| + Budget(serializer, InOrder(dirtyNodes, dirtyOrder)) < RecordBlocks.MaxBlocks
      modifies this`dirtyNodes, this`dirtyOrder, recordStorage
      ensures Valid()
      ensures (s, recordStorage.disk) == SaveSpec(old(recordStorage.disk), recordStorage.contentSize, recordStorage.aligned,
                                                  serializer, InOrder(old(dirtyNodes), old(dirtyOrder)))
      ensures s.Done? ==> dirtyNodes == map[] && dirtyOrder == []
      ensures s.Fail? ==> dirtyNodes == old(dirtyNodes) && dirtyOrder == old(dirtyOrder)
    {
      var nodes := InOrder(dirtyNodes, dirtyOrder);
      assert forall k | 0 <= k < |nodes| :: Fits(serializer, nodes[k]);
      s := WriteAll(nodes);
      if s.Done? {
        Clear();
      } else {
        assert DirtyValid();
      }
    }

    /** The end of Save: the dirty table is emptied. */
    method Clear()
      requires recordStorage.Valid() && Widths(serializer) && Keyed(weakNodes) && 0 <= cleanupCounter
      modifies this`dirtyNodes, this`dirtyOrder
      ensures Valid() && dirtyNodes == map[] && dirtyOrder == []
    {
      dirtyNodes, dirtyOrder := map[], [];
    }

    /** Save's loop over the values of the dirty table: WriteBack of each, until one fails. */
    method WriteAll(nodes: seq<Node<K, V>>) returns (s: Status)
      requires recordStorage.Valid() && Widths(serializer) && forall k | 0 <= k < |nodes| :: Fits(serializer, nodes[k])
      requires Bounded(serializer, nodes) && |recordStorage.disk| + Budget(serializer, nodes) < RecordBlocks.MaxBlocks
      modifies recordStorage
      ensures recordStorage.Valid()
      ensures (s, recordStorage.disk) == SaveSpec(old(recordStorage.disk), recordStorage.contentSize, recordStorage.aligned, serializer, nodes)
    {
      ghost var goal := SaveSpec(recordStorage.disk, recordStorage.contentSize, recordStorage.aligned, serializer, nodes);
      var i := 0;
      assert nodes[0..] == nodes;
      while i < |nodes|
        invariant 0 <= i <= |nodes| && Pending(nodes[i..], goal)
      {
        var st := WriteNext(nodes, i, goal);
        if st.Fail? {
          return st;
        }
        i := i + 1;
      }
      return Done;
    }

    /** Save's loop with the nodes rest still to write: saving them gives goal. */
    ghost predicate Pending(rest: seq<Node<K, V>>, goal: (Status, seq<RecordBlocks.Image>))
      reads this, recordStorage
    {
      recordStorage.Valid() && Bounded(serializer, rest)
      && |recordStorage.disk| + Budget(serializer, rest) < RecordBlocks.MaxBlocks
      && SaveSpec(recordStorage.disk, recordStorage.contentSize, recordStorage.aligned, serializer, rest) == goal
    }

    /** The step of Save's loop at position i: what is left to save shrinks by one node. */
    method WriteNext(nodes: seq<Node<K, V>>, i: nat, ghost goal: (Status, seq<RecordBlocks.Image>)) returns (st: Status)
      requires i < |nodes| && Widths(serializer) && Fits(serializer, nodes[i]) && Pending(nodes[i..], goal)
      modifies recordStorage
      ensures recordStorage.Valid()
      ensures st.Fail? ==> (st, recordStorage.disk) == goal
      ensures st.Done? ==> Pending(nodes[i + 1..], goal)
    {
      assert nodes[i..][0] == nodes[i] && nodes[i..][1..] == nodes[i + 1..];
      SaveStep(recordStorage.disk, recordStorage.contentSize, recordStorage.aligned, serializer, nodes[i..]);
      st := WriteBack(nodes[i]);
    }

    /** One node of Save: its serialization, then the Update of its record. */
    method WriteBack(node: Node<K, V>) returns (st: Status)
      requires recordStorage.Valid() && Widths(serializer) && Fits(serializer, node)
      requires Room(recordStorage.disk, Serialized(serializer, node))
      modifies recordStorage
      ensures recordStorage.Valid()
      ensures (st, recordStorage.disk)
        == match Encode(serializer, node)
           case Err(e) => (Fail(e), old(recordStorage.disk))
           case Ok(data) => UpdateSpec(old(recordStorage.disk), recordStorage.contentSize, recordStorage.aligned, node.id, data)
    {
      var data := Serialize(serializer, node);
      if data.Err? {
        return Fail(data.error);
      }
      st := recordStorage.Update(node.id, data.value);
    }

    /** OnNodeInitialized(node), as Initialized describes it. */
    method OnNodeInitialized(node: Node<K, V>) returns (s: Status)
      modifies this`weakNodes, this`strongNodes, this`cleanupCounter
      ensures (s, Tracked()) == Initialized(old(Tracked()), node)
    {
      ghost var t := Tracked();
      if node.id in weakNodes {
        return Fail(Argument);
      }
      weakNodes := weakNodes[node.id := node];
      strongNodes := strongNodes + [node.id];
      TrimStrongNodes();
      if cleanupCounter >= WeakNodeCleanThreshold {
        cleanupCounter := 0;
        SweepWeakNodes();
      } else {
        cleanupCounter := cleanupCounter + 1;
      }
      s := Done;
      assert Tracked() == Initialized(t, node).1;
    }

    /** A full strong queue is dequeued until half of it is left. */
    method TrimStrongNodes()
      modifies this`strongNodes
      ensures strongNodes == Trimmed(old(strongNodes))
    {
      if |strongNodes| >= MaxStrongNodes {
        ghost var q := strongNodes;
        while |strongNodes| > MaxStrongNodes / 2
          invariant MaxStrongNodes / 2 <= |strongNodes| <= |q| && strongNodes == q[|q| - |strongNodes|..]
        {
          strongNodes := strongNodes[1..];
        }
      }
    }

    /** The sweep of the weak table: collect the ids of dead references, then remove them. */
    method SweepWeakNodes()
      modifies this`weakNodes
      ensures weakNodes == Sweep(old(weakNodes), AllAlive)
    {
      var deleteIds: set<nat> := {};
      var keys := weakNodes.Keys;
      while keys != {}
        invariant keys <= weakNodes.Keys && weakNodes == old(weakNodes)
        invariant forall id :: id in deleteIds <==> id in weakNodes.Keys - keys && !AllAlive(id)
        decreases keys
      {
        var id :| id in keys;
        if !AllAlive(id) {
          deleteIds := deleteIds + {id};
        }
        keys := keys - {id};
      }
      weakNodes := weakNodes - deleteIds;
    }
  }
}
