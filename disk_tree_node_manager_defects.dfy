/**
 * DiskTreeNodeManagerDefects: two places where OnNodeInitialized does not do what its
 * comments say, each written as the code has it beside the intended behaviour (Sweep and
 * Trimmed in DiskTreeNodeManagers, which the model uses).
 */
module DiskTreeNodeManagerDefects {
  import opened TreeArena
  import opened DiskTreeNodeManagers

  /**
   * The sweep as written: TryGetValue succeeds for a reference that is still alive, and those
   * are the ids collected for removal, so the table keeps only the dead references.
   */
  function SweepAsWritten<K, V>(weak: map<nat, Node<K, V>>, alive: nat -> bool): (r: map<nat, Node<K, V>>)
    ensures forall id :: id in r <==> id in weak && !alive(id)
  {
    map id | id in weak && !alive(id) :: weak[id]
  }

  /** The two sweeps split the table: what one keeps the other removes. */
  lemma SweepsPartition<K, V>(weak: map<nat, Node<K, V>>, alive: nat -> bool)
    ensures SweepAsWritten(weak, alive).Keys !! Sweep(weak, alive).Keys
    ensures SweepAsWritten(weak, alive).Keys + Sweep(weak, alive).Keys == weak.Keys
  {
  }

  /** With one live node cached, the sweep as written forgets it; the intended sweep keeps it. */
  lemma SweepAsWrittenDropsLiveNode<K, V>(n: Node<K, V>)
    requires n.id == 1
    ensures SweepAsWritten(map[1 := n], AllAlive) == map[]
    ensures Sweep(map[1 := n], AllAlive) == map[1 := n]
  {
    assert 1 in Sweep(map[1 := n], AllAlive);
  }

  /**
   * How many nodes the trim loop as written dequeues from a queue of c: the loop counter starts
   * at half the maximum and is compared with the count, which shrinks with every dequeue.
   */
  function AsWrittenDropped(c: nat): (k: nat)
    ensures c > MaxStrongNodes / 2 ==> MaxStrongNodes / 2 + k >= c - k && MaxStrongNodes / 2 + (k - 1) < c - (k - 1)
    ensures c <= MaxStrongNodes / 2 ==> k == 0
  {
    if c <= MaxStrongNodes / 2 then 0 else (c - (MaxStrongNodes / 2 - 1)) / 2
  }

  /** The trim loop as written, on the queue it is given. */
  method TrimAsWritten(q: seq<nat>) returns (r: seq<nat>)
    ensures r == q[AsWrittenDropped(|q|)..]
  {
    r := q;
    var i := MaxStrongNodes / 2;
    while i < |r|
      invariant MaxStrongNodes / 2 <= i && i - MaxStrongNodes / 2 <= AsWrittenDropped(|q|)
      invariant r == q[i - MaxStrongNodes / 2..]
      decreases |r| - i
    {
      r := r[1..];
      i := i + 1;
    }
  }

  /**
   * Once the queue is full (200 nodes) the loop as written leaves 150 of them, where the
   * intended trim leaves the most recent 100.
   */
  lemma TrimAsWrittenKeepsThreeQuarters(q: seq<nat>)
    requires |q| == MaxStrongNodes
    ensures |q[AsWrittenDropped(|q|)..]| == 150
    ensures |Trimmed(q)| == 100 && Trimmed(q) == q[100..]
  {
  }
}
