/**
 * TreeArena: the state behind the B-tree. A TreeNode is a value here (its id, its parent's id,
 * its entries and its child ids), and the tree is an arena of such values keyed by id.
 *
 * The arena keeps every node object a node manager ever created (`heap`), and apart from it the
 * ids that MemoryTreeNodeManager's dictionary no longer holds (`deleted`); Find consults the
 * dictionary. A deleted node leaves the dictionary but a caller that still holds it can read and
 * change its fields, as the source's object references can. The counter is the next id to hand out and the root is the
 * node manager's rootNode, which Delete can set to null.
 */
module TreeArena {
  import opened Errors

  /** The fields of a TreeNode<K, V>: id, parentId (0 for none), entries and childrenIds. */
  datatype Node<K, V> = Node(id: nat, parentId: nat, entries: seq<(K, V)>, children: seq<nat>)
  {
    /** TreeNode.IsLeaf: the node has no child ids. */
    predicate IsLeaf() { |children| == 0 }

    /** TreeNode.IsEmpty: the node has no entries. */
    predicate IsEmpty() { |entries| == 0 }
  }

  /** MaxEntriesPerNode: twice MinEntriesPerNode, cast back to ushort. */
  function MaxEntries(min: nat): (r: nat)
    ensures r < 0x1_0000
    ensures min < 0x8000 ==> r == 2 * min
  {
    (min * 2) % 0x1_0000
  }

  /** TreeNode.IsOverflow: more entries than MaxEntriesPerNode. */
  predicate IsOverflow<K, V>(n: Node<K, V>, min: nat)
  {
    |n.entries| > MaxEntries(min)
  }

  /**
   * The node objects created so far, the ids the manager's dictionary has dropped, its id
   * counter and its root. The dictionary holds exactly the created ids that are not dropped.
   */
  datatype Arena<K, V> = Arena(heap: map<nat, Node<K, V>>, deleted: set<nat>, counter: nat, root: Option<nat>)

  /** The dictionary of MemoryTreeNodeManager holds id. */
  predicate Held<K, V>(a: Arena<K, V>, id: nat)
  {
    id in a.heap && id !in a.deleted
  }

  /**
   * What the node manager keeps true: every object knows its own id, ids are handed out from 1
   * below the counter, only created ids leave the dictionary, and the root is a created object.
   */
  predicate Consistent<K, V>(a: Arena<K, V>)
  {
    0 < a.counter
    && (forall i | i in a.heap :: a.heap[i].id == i && 0 < i < a.counter)
    && a.deleted <= a.heap.Keys
    && RootCreated(a)
  }

  /** The root, when there is one, is a node object that has been created. */
  predicate RootCreated<K, V>(a: Arena<K, V>)
  {
    a.root.Some? ==> a.root.value in a.heap
  }

  /** Writing a node's changed fields back to its object. */
  function Put<K, V>(a: Arena<K, V>, id: nat, n: Node<K, V>): (r: Arena<K, V>)
    requires id in a.heap
    ensures r.heap.Keys == a.heap.Keys && r.heap[id] == n
    ensures r.deleted == a.deleted && r.counter == a.counter && r.root == a.root
  {
    a.(heap := a.heap[id := n])
  }

  /** The ParentId setter. */
  function SetParent<K, V>(a: Arena<K, V>, id: nat, parent: nat): (r: Arena<K, V>)
    requires id in a.heap
    ensures r.heap.Keys == a.heap.Keys && r.heap[id] == a.heap[id].(parentId := parent)
    ensures r.deleted == a.deleted && r.counter == a.counter && r.root == a.root
  {
    Put(a, id, a.heap[id].(parentId := parent))
  }

  /** The manager right after its constructor: the empty root with id 1, and the counter at 2. */
  function Initial<K, V>(): (r: Arena<K, V>)
    ensures Consistent(r) && Held(r, 1) && r.root == Some(1)
  {
    Arena(map[1 := Node(1, 0, [], [])], {}, 2, Some(1))
  }

  /**
   * MemoryTreeNodeManager.Create: a node with the next id, no parent and the given lists, which
   * the dictionary then maps its id to.
   */
  function Create<K, V>(a: Arena<K, V>, entries: seq<(K, V)>, children: seq<nat>): (r: (Node<K, V>, Arena<K, V>))
    ensures r.0.id == a.counter && r.1.counter == a.counter + 1 && r.1.root == a.root
    ensures r.1.heap == a.heap[r.0.id := r.0] && r.1.deleted == a.deleted - {r.0.id}
    ensures r.0.parentId == 0 && r.0.entries == entries && r.0.children == children
  {
    var n := Node(a.counter, 0, entries, children);
    (n, a.(heap := a.heap[n.id := n], deleted := a.deleted - {n.id}, counter := a.counter + 1))
  }

  /** MemoryTreeNodeManager.Find: the node the dictionary holds for id; ArgumentException otherwise. */
  function Find<K, V>(a: Arena<K, V>, id: nat): (r: Result<Node<K, V>>)
    ensures r.Ok? <==> Held(a, id)
    ensures r.Ok? ==> r.value == a.heap[id]
    ensures r.Err? ==> r.error == Argument
  {
    if Held(a, id) then Ok(a.heap[id]) else Err(Argument)
  }

  /** MemoryTreeNodeManager.MakeRoot. */
  function MakeRoot<K, V>(a: Arena<K, V>, id: nat): (r: Arena<K, V>)
    ensures r.root == Some(id) && r.heap == a.heap && r.deleted == a.deleted && r.counter == a.counter
  {
    a.(root := Some(id))
  }

  /**
   * MemoryTreeNodeManager.CreateNewRoot: a new node holding the single entry (key, value)
   * between the children left and right, made the root.
   */
  function CreateNewRoot<K, V>(a: Arena<K, V>, key: K, value: V, left: nat, right: nat): (r: (Node<K, V>, Arena<K, V>))
    ensures r.0.id == a.counter && r.1.root == Some(r.0.id)
    ensures r.0.entries == [(key, value)] && r.0.children == [left, right] && r.0.parentId == 0
    ensures r.1.heap == a.heap[r.0.id := r.0] && r.1.deleted == a.deleted - {r.0.id} && r.1.counter == a.counter + 1
  {
    var (n, a1) := Create(a, [(key, value)], [left, right]);
    (n, MakeRoot(a1, n.id))
  }

  /** MemoryTreeNodeManager.Delete: out of the dictionary, and no longer the root if it was. */
  function Delete<K, V>(a: Arena<K, V>, id: nat): (r: Arena<K, V>)
    ensures r.heap == a.heap && r.counter == a.counter && r.deleted == a.deleted + {id}
    ensures r.root == (if a.root == Some(id) then None else a.root)
  {
    a.(deleted := a.deleted + {id}, root := if a.root == Some(id) then None else a.root)
  }

  /**
   * After Create, Find of the new id gives the new node back, with parent 0, and every node
   * the dictionary held before is found unchanged.
   */
  lemma CreateThenFind<K, V>(a: Arena<K, V>, entries: seq<(K, V)>, children: seq<nat>, id: nat)
    requires Consistent(a)
    ensures var (n, e) := Create(a, entries, children);
      Find(e, n.id) == Ok(n) && n.parentId == 0 && n.id !in a.heap && Consistent(e)
      && (id != n.id ==> Find(e, id) == Find(a, id))
  {
  }

  /** Ids are handed out one after another: two creations in a row give ids n and n + 1. */
  lemma CreateIdsIncrease<K, V>(a: Arena<K, V>, e1: seq<(K, V)>, c1: seq<nat>, e2: seq<(K, V)>, c2: seq<nat>)
    requires Consistent(a)
    ensures var (n1, b) := Create(a, e1, c1);
      var (n2, _) := Create(b, e2, c2);
      n1.id == a.counter && n2.id == n1.id + 1
  {
  }

  /** The constructor's root is node 1, and the first node created after it is node 2. */
  lemma InitialRoot<K, V>(entries: seq<(K, V)>, children: seq<nat>)
    ensures Find(Initial<K, V>(), 1) == Ok(Node(1, 0, [], [])) && Initial<K, V>().root == Some(1)
    ensures Create(Initial<K, V>(), entries, children).0.id == 2
  {
  }

  /** The id j names no object, dropped or not: Create may hand it out. */
  predicate Unused<K, V>(a: Arena<K, V>, j: nat)
  {
    j !in a.heap && j !in a.deleted
  }

  /** In a consistent arena no id from the counter on is used. */
  lemma ConsistentFresh<K, V>(a: Arena<K, V>)
    requires Consistent(a)
    ensures forall j: nat | j >= a.counter :: Unused(a, j)
  {
  }

  /** After Delete the dictionary no longer finds the node, and finds every other node as before. */
  lemma DeleteThenFind<K, V>(a: Arena<K, V>, id: nat, other: nat)
    requires Consistent(a)
    ensures Find(Delete(a, id), id) == Err(Argument)
    ensures other != id ==> Find(Delete(a, id), other) == Find(a, other)
  {
  }
}
