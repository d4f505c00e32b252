/**
 * DiskTreeNodeManagerLemmas: what the outcomes of DiskTreeNodeManager's operations promise
 * together: a created node is found again, both through the weak table and from its record;
 * marking a node twice is marking it once; a deleted node is not written back; and a fresh
 * store puts the root id in record 1.
 */
module DiskTreeNodeManagerLemmas {
  import opened Errors
  import opened Bytes
  import opened TreeArena
  import opened DiskTreeNodeSerializers
  import opened RecordSpec
  import opened RecordBlocks
  import opened RecordLemmas
  import opened DiskTreeNodeManagers

  /** NodeData offers, for every id, a record the store has room for. */
  lemma NodeDataProvided<K, V>(d: seq<Image>, s: NodeSerializer<K, V>, entries: seq<(K, V)>, children: seq<nat>)
    requires Room(d, Serialized(s, Node(0, 0, entries, children)))
    ensures Provides(d, NodeData(s, entries, children))
  {
    var n0: Node<K, V> := Node(0, 0, entries, children);
    forall id: uint32
      ensures |NodeData(s, entries, children)(id)| == |Serialized(s, n0)|
    {
      EncodeIgnoresId(s, n0, id as nat);
      assert n0.(id := id as nat) == Node(id as nat, 0, entries, children);
    }
  }

  /**
   * A node Create returns is read back from its record: Find of its id yields its bytes, and
   * the serializer turns them into the same node.
   */
  lemma CreateThenLoad<K(!new), V(!new)>(d: seq<Image>, cs: nat, aligned: bool, s: NodeSerializer<K, V>, t: Tracking<K, V>,
                                         entries: seq<(K, V)>, children: seq<nat>, F: seq<nat>)
    requires 0 < cs < 0x8000_0000 && Sized(d, cs) && Room(d, Serialized(s, Node(0, 0, entries, children)))
    requires |d| == 0 || FreeChain(d, F)
    requires Faithful(s) && Fits(s, Node(0, 0, entries, children))
    requires |Serialized(s, Node(0, 0, entries, children))| <= MaxRecordSize
    ensures var (c, e, _) := CreateOutcome(d, cs, aligned, s, t, entries, children);
      c.Ok? ==> c.value.id < 0x1_0000_0000 && Load(e, cs, s, c.value.id as uint32) == Ok(Some(c.value))
  {
    var (c, e, _) := CreateOutcome(d, cs, aligned, s, t, entries, children);
    if c.Ok? {
      var n := c.value;
      var provider := NodeData(s, entries, children);
      NodeDataProvided(d, s, entries, children);
      RecordLemmas.CreateThenFind(d, cs, aligned, provider, F);
      var id := n.id as uint32;
      EncodeIgnoresId(s, Node(0, 0, entries, children), n.id);
      assert provider(id) == Serialized(s, n) == Encode(s, n).value;
      assert FindSpec(e, cs, n.id) == Ok(Some(Encode(s, n).value));
      SerializeRoundTrip(s, id, n);
      assert n.(id := n.id) == n;
    }
  }

  /** A node Create returns is in the weak table, so Find hands it back without reading. */
  lemma CreateThenFindCached<K, V>(d: seq<Image>, cs: nat, aligned: bool, s: NodeSerializer<K, V>, t: Tracking<K, V>,
                                   entries: seq<(K, V)>, children: seq<nat>)
    requires 0 < cs < 0x8000_0000 && Sized(d, cs) && Room(d, Serialized(s, Node(0, 0, entries, children)))
    ensures var (c, e, t') := CreateOutcome(d, cs, aligned, s, t, entries, children);
      c.Ok? ==> c.value.id < 0x1_0000_0000
                && FindOutcome(e, cs, s, t', c.value.id as uint32) == (Ok(Some(c.value)), t')
  {
    var (c, e, t') := CreateOutcome(d, cs, aligned, s, t, entries, children);
    if c.Ok? {
      var n := c.value;
      var (st, t2) := Initialized(t, n);
      assert n.id in t2.weak && t2.weak[n.id] == n;
    }
  }

  /** Marking a node changed a second time changes nothing more. */
  lemma MarkedIdempotent<K, V>(m: map<nat, Node<K, V>>, order: seq<nat>, n: Node<K, V>)
    ensures var (m', order') := Marked(m, order, n); Marked(m', order', n) == (m', order')
  {
    var (m', order') := Marked(m, order, n);
    assert m'[n.id := n] == m';
  }

  /** After Delete has taken a node out of the dirty table, Save does not write it back. */
  lemma UnmarkedNotSaved<K, V>(m: map<nat, Node<K, V>>, order: seq<nat>, id: nat)
    requires Lists(m, order) && Keyed(m)
    ensures var (m', order') := Unmarked(m, order, id);
      Lists(m', order') && forall k | 0 <= k < |order'| :: InOrder(m', order')[k].id != id
  {
    var (m', order') := Unmarked(m, order, id);
    forall k | 0 <= k < |order'|
      ensures InOrder(m', order')[k].id != id
    {
      assert order'[k] in order' && order'[k] in m';
      assert m'[order'[k]] == m[order'[k]];
    }
  }

  /** A node marked for the first time is saved after every node marked before it. */
  lemma MarkedSavedLast<K, V>(m: map<nat, Node<K, V>>, order: seq<nat>, n: Node<K, V>)
    requires Lists(m, order) && n.id !in m
    ensures var (m', order') := Marked(m, order, n);
      var saved := InOrder(m', order');
      |saved| == |order| + 1 && saved[|order|] == n
      && forall k | 0 <= k < |order| :: saved[k] == m[order[k]]
  {
    var (m', order') := Marked(m, order, n);
    assert order'[|order|] == n.id;
    forall k | 0 <= k < |order|
      ensures InOrder(m', order')[k] == m[order[k]]
    {
      assert order'[k] == order[k] && order[k] != n.id;
    }
  }

  /** On an empty store the first record created, the root record, gets id 1. */
  lemma FirstRecordIsOne(cs: nat, data: seq<byte>)
    requires 0 < cs < 0x8000_0000 && |data| <= MaxArrayLength
    ensures CreateSpec([], cs, true, _ => data).0 == Ok(1)
  {
    FirstAllocation(cs);
    var e := [ZeroImage(cs), ZeroImage(cs)];
    assert Sized(e, cs);
    var provider: uint32 -> seq<byte> := _ => data;
    assert Provides([], provider);
    var ids, F' := CreateStores([], cs, true, provider, [0]);
  }

  /**
   * The constructor on an empty store: record 1 is the first record, so it is where Find looks
   * for the root the next time the store is opened.
   */
  lemma BootOnEmptyStore<K, V>(cs: nat, s: NodeSerializer<K, V>)
    requires 0 < cs < 0x8000_0000
    ensures var (first, e) := CreateSpec([], cs, true, _ => RootRecord(2));
      first == Ok(1)
      && BootOutcome([], cs, true, s, Tracking(map[], [], 0)) == FirstRootOutcome([], cs, true, s, Tracking(map[], [], 0))
  {
    FirstRecordIsOne(cs, RootRecord(2));
    assert FindSpec([], cs, 1) == Ok(None);
  }
}
