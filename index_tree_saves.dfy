/**
 * IndexTreeSaves: IndexTree over a disk node manager, where a changed node reaches its record
 * only when the manager's Save writes the dirty table back. The state is the tree in memory,
 * the ids in the dirty table, and each node's record as it was last written.
 *
 * The node operations report every node they change to the manager (MarkAsChanged, and the
 * ParentId setter), and the manager's Delete drops a node from the dirty table and deletes its
 * record. Track sums that up for one operation: the nodes that differ afterwards are dirty, and
 * the records of the nodes it deleted are gone. Save then writes every dirty node as it is.
 *
 * Insert and Delete(key, value) end with Save; Delete(key) returns without it, so what it
 * removed stays only in memory until some later operation saves.
 */
module IndexTreeSaves {
  import opened Errors
  import opened Comparers
  import opened TreeArena
  import opened TreeNodes
  import opened TreeNodeLemmas
  import opened IndexTrees
  import opened IndexTreeLemmas
  import ListExtensions
  import TreeEntryComparer

  /** The tree in memory, the dirty table's ids, and the node records as last saved. */
  datatype Persisted<K, V> = Persisted(memory: Arena<K, V>, dirty: set<nat>, stored: map<nat, Node<K, V>>)

  /** Every node the manager holds is dirty or has a record equal to it. */
  ghost predicate InStep<K, V>(p: Persisted<K, V>)
  {
    forall id | Held(p.memory, id) :: id in p.dirty || (id in p.stored && p.stored[id] == p.memory.heap[id])
  }

  /** Nothing waits to be saved, and every node the manager holds has a record equal to it. */
  ghost predicate Synced<K, V>(p: Persisted<K, V>)
  {
    p.dirty == {} && forall id | Held(p.memory, id) :: id in p.stored && p.stored[id] == p.memory.heap[id]
  }

  /** The nodes of a that are new, newly held, or different from what p's tree had under their id. */
  ghost function Changed<K, V>(p: Persisted<K, V>, a: Arena<K, V>): (r: set<nat>)
    ensures forall id | id in a.heap && Held(p.memory, id) && p.memory.heap[id] == a.heap[id] :: id !in r
    ensures forall id | id in a.heap && !(Held(p.memory, id) && p.memory.heap[id] == a.heap[id]) :: id in r
  {
    set id | id in a.heap && !(Held(p.memory, id) && p.memory.heap[id] == a.heap[id])
  }

  /**
   * One tree operation that took p's tree to a: the nodes it changed join the dirty table, and
   * the nodes it deleted leave the dirty table and lose their records.
   */
  ghost function Track<K, V>(p: Persisted<K, V>, a: Arena<K, V>): (r: Persisted<K, V>)
    ensures r.memory == a
    ensures forall id :: id in r.dirty <==> (id in p.dirty || id in Changed(p, a)) && id !in a.deleted
    ensures forall id :: id in r.stored <==> id in p.stored && id !in a.deleted
    ensures forall id | id in r.stored :: r.stored[id] == p.stored[id]
  {
    Persisted(a, (p.dirty + Changed(p, a)) - a.deleted, map id | id in p.stored && id !in a.deleted :: p.stored[id])
  }

  /** DiskTreeNodeManager.Save: every dirty node is written to its record, and the dirty table is cleared. */
  ghost function Save<K, V>(q: Persisted<K, V>): (r: Persisted<K, V>)
    ensures r.memory == q.memory && r.dirty == {}
    ensures forall id | id in q.dirty && id in q.memory.heap :: id in r.stored && r.stored[id] == q.memory.heap[id]
    ensures forall id | !(id in q.dirty && id in q.memory.heap) :: (id in r.stored <==> id in q.stored)
    ensures forall id | id in q.stored && !(id in q.dirty && id in q.memory.heap) :: r.stored[id] == q.stored[id]
  {
    var written := q.dirty * q.memory.heap.Keys;
    Persisted(q.memory, {}, map id | id in q.stored.Keys + written :: if id in written then q.memory.heap[id] else q.stored[id])
  }

  /** Whatever an operation does to the tree, Track keeps every held node dirty or recorded as it is. */
  lemma TrackKeepsStep<K, V>(p: Persisted<K, V>, a: Arena<K, V>)
    requires InStep(p)
    ensures InStep(Track(p, a))
  {
    var r := Track(p, a);
    forall id | Held(a, id)
      ensures id in r.dirty || (id in r.stored && r.stored[id] == a.heap[id])
    {
      if id !in Changed(p, a) {
        assert Held(p.memory, id) && p.memory.heap[id] == a.heap[id];
      }
    }
  }

  /** Save brings every tree whose held nodes are dirty or recorded into step with its records. */
  lemma SaveSyncs<K, V>(q: Persisted<K, V>)
    requires InStep(q)
    ensures Synced(Save(q))
  {
    var r := Save(q);
    forall id | Held(q.memory, id)
      ensures id in r.stored && r.stored[id] == q.memory.heap[id]
    {
      if !(id in q.dirty) {
        assert id in q.stored && q.stored[id] == q.memory.heap[id];
      }
    }
  }

  /** A tree in step with its records is one whose held nodes are dirty or recorded. */
  lemma SyncedInStep<K, V>(p: Persisted<K, V>)
    requires Synced(p)
    ensures InStep(p)
  {
  }

  /** Insert(key, value) over the disk manager: the tree operation, then Save unless it threw. */
  ghost function InsertSaved<K, V>(p: Persisted<K, V>, key: K, value: V, dup: bool, min: nat, cmp: Comparer<K>)
    : (r: (Status, Persisted<K, V>))
    requires RootCreated(p.memory)
    ensures r.1.memory == InsertInto(p.memory, key, value, dup, min, cmp).1
    ensures r.0 == InsertInto(p.memory, key, value, dup, min, cmp).0
    ensures r.0.Done? ==> r.1.dirty == {}
  {
    var (s, a) := InsertInto(p.memory, key, value, dup, min, cmp);
    var q := Track(p, a);
    if s.Fail? then (s, q) else (s, Save(q))
  }

  /** Delete(key, value) over the disk manager: the rounds of removal, then Save unless one threw. */
  ghost function DeleteMatchingSaved<K, V>(p: Persisted<K, V>, key: K, value: V, dup: bool, min: nat, cmp: Comparer<K>,
                                           vcmp: Comparer<V>, rounds: nat, steps: nat): (r: (Result<bool>, Persisted<K, V>))
    requires RootCreated(p.memory)
    ensures r.1.memory == DeleteMatchingFrom(p.memory, key, value, dup, min, cmp, vcmp, rounds, steps).1
    ensures r.0 == DeleteMatchingFrom(p.memory, key, value, dup, min, cmp, vcmp, rounds, steps).0
    ensures r.0.Ok? ==> r.1.dirty == {}
  {
    var (d, a) := DeleteMatchingFrom(p.memory, key, value, dup, min, cmp, vcmp, rounds, steps);
    var q := Track(p, a);
    if d.Err? then (d, q) else (d, Save(q))
  }

  /** Delete(key) over the disk manager as written: the removal, and no Save. */
  ghost function DeleteKeyAsWritten<K, V>(p: Persisted<K, V>, key: K, dup: bool, min: nat, cmp: Comparer<K>)
    : (r: (Result<bool>, Persisted<K, V>))
    requires RootCreated(p.memory)
    ensures r.1.memory == DeleteKeyFrom(p.memory, key, dup, min, cmp).1
    ensures r.0 == DeleteKeyFrom(p.memory, key, dup, min, cmp).0
    ensures r.1.dirty >= p.dirty - r.1.memory.deleted
  {
    var (d, a) := DeleteKeyFrom(p.memory, key, dup, min, cmp);
    (d, Track(p, a))
  }

  /** Delete(key) with the Save the other two operations end with: the removal, then Save unless it threw. */
  ghost function DeleteKeySaved<K, V>(p: Persisted<K, V>, key: K, dup: bool, min: nat, cmp: Comparer<K>)
    : (r: (Result<bool>, Persisted<K, V>))
    requires RootCreated(p.memory)
    ensures r.1.memory == DeleteKeyFrom(p.memory, key, dup, min, cmp).1
    ensures r.0 == DeleteKeyFrom(p.memory, key, dup, min, cmp).0
    ensures r.0.Ok? ==> r.1.dirty == {}
  {
    var (d, q) := DeleteKeyAsWritten(p, key, dup, min, cmp);
    if d.Err? then (d, q) else (d, Save(q))
  }

  /** Insert and Delete(key, value) that return normally leave the records in step with the tree. */
  lemma SavingOperationsSync<K, V>(p: Persisted<K, V>, key: K, value: V, dup: bool, min: nat, cmp: Comparer<K>,
                                   vcmp: Comparer<V>, rounds: nat, steps: nat)
    requires RootCreated(p.memory) && InStep(p)
    ensures var (s, q) := InsertSaved(p, key, value, dup, min, cmp);
      InStep(q) && (s.Done? ==> Synced(q))
    ensures var (d, q) := DeleteMatchingSaved(p, key, value, dup, min, cmp, vcmp, rounds, steps);
      InStep(q) && (d.Ok? ==> Synced(q))
  {
    var (s, a) := InsertInto(p.memory, key, value, dup, min, cmp);
    TrackKeepsStep(p, a);
    SaveSyncs(Track(p, a));
    SyncedInStep(Save(Track(p, a)));
    var (d, b) := DeleteMatchingFrom(p.memory, key, value, dup, min, cmp, vcmp, rounds, steps);
    TrackKeepsStep(p, b);
    SaveSyncs(Track(p, b));
    SyncedInStep(Save(Track(p, b)));
  }

  /**
   * Delete(key) as written keeps every held node dirty or recorded, so the next Save of some
   * later operation brings the records into step; with the Save added, it does so itself.
   */
  lemma DeleteKeyKeepsStep<K, V>(p: Persisted<K, V>, key: K, dup: bool, min: nat, cmp: Comparer<K>)
    requires RootCreated(p.memory) && InStep(p)
    ensures InStep(DeleteKeyAsWritten(p, key, dup, min, cmp).1)
    ensures var (d, q) := DeleteKeySaved(p, key, dup, min, cmp);
      InStep(q) && (d.Ok? ==> Synced(q))
  {
    var (d, a) := DeleteKeyFrom(p.memory, key, dup, min, cmp);
    TrackKeepsStep(p, a);
    SaveSyncs(Track(p, a));
    SyncedInStep(Save(Track(p, a)));
  }

  /**
   * Delete(key) as written, on a synced tree that is a sorted root leaf holding key: it answers
   * true and takes the entry out in memory, but the root's record still holds the old entries,
   * key among them, so a manager that loads the tree from the records finds the key again.
   * Delete(key) with the Save writes the root without that entry.
   */
  lemma DeleteKeyAsWrittenLeavesStaleRecord<K(!new), V>(p: Persisted<K, V>, id: nat, key: K, min: nat, cmp: Comparer<K>)
    requires Synced(p) && RootLeaf(p.memory, id) && Held(p.memory, id)
    requires IsComparer(cmp) && SortedEntries(p.memory.heap[id].entries, cmp) && HasKey(p.memory.heap[id].entries, key, cmp)
    ensures var (r, q) := DeleteKeyAsWritten(p, key, false, min, cmp);
      r == Ok(true) && !Synced(q) && id in q.dirty
      && id in q.stored && q.stored[id] == p.memory.heap[id] && HasKey(q.stored[id].entries, key, cmp)
      && |q.memory.heap[id].entries| == |p.memory.heap[id].entries| - 1
    ensures var (r, q) := DeleteKeySaved(p, key, false, min, cmp);
      r == Ok(true) && Synced(q) && q.stored[id] == q.memory.heap[id]
      && |q.stored[id].entries| == |p.memory.heap[id].entries| - 1
  {
    var a := p.memory;
    var E := a.heap[id].entries;
    DeleteKeyAtRootLeaf(a, id, key, min, cmp);
    var f := ListExtensions.FirstOccurrence(TreeEntryComparer.Keys(E), key, cmp);
    var e := Put(a, id, a.heap[id].(entries := RemoveAt(E, f)));
    assert e.heap[id] != a.heap[id] by {
      assert |e.heap[id].entries| != |E|;
    }
    assert Held(e, id);
    var q := Track(p, e);
    assert id in Changed(p, e);
    assert !Synced(q) by {
      assert Held(q.memory, id) && q.stored[id] != q.memory.heap[id];
    }
    SyncedInStep(p);
    DeleteKeyKeepsStep(p, key, false, min, cmp);
  }
}
