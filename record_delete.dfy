/**
 * RecordDelete: what RecordStorage.Delete does to a stored record, proved about RecordSpec.
 *
 * Delete walks the record's chain and appends each block to the end of the free chain, flagging
 * it deleted. Afterwards Find no longer sees the record, GetDeletedId lists its blocks after the
 * blocks that were free already, and the next allocation hands out its last block.
 */
module RecordDelete {
  import opened Bytes
  import opened Errors
  import opened Storage
  import opened RecordBlocks
  import opened RecordSpec
  import opened RecordLemmas

  /** The blocks that hold a record form a chain. */
  lemma {:induction false} HeldChain(d: seq<Image>, cs: nat, ids: seq<nat>, rem: nat)
    requires Held(d, cs, ids, rem).Some?
    ensures IsChain(d, ids)
    decreases |ids|
  {
    var n := Min(cs, rem);
    if n < rem {
      HeldChain(d, cs, ids[1..], rem - n);
      ChainCons(d, ids[0], ids[1..]);
      assert [ids[0]] + ids[1..] == ids;
    }
  }

  /** No block of ids is on the free chain F. */
  ghost predicate Apart(ids: seq<nat>, F: seq<nat>)
  {
    forall k | 0 <= k < |ids| :: ids[k] !in F
  }

  /** The store once block b is linked after block last and its NextBlockId is cleared. */
  function Linked(d: seq<Image>, last: nat, b: nat): (e: seq<Image>)
    requires last < |d| < MaxBlocks && b < |d|
    ensures |e| == |d|
  {
    SetHeader(SetHeader(SetHeader(d, last, NextBlockId, b), b, PreviousBlockId, last), b, NextBlockId, 0)
  }

  /**
   * MarkAsReusable(b) on a store with free chain F: b is one of the two blocks
   * GetSpaceTrackerBlock hands back exactly when it is one of the last two of F. A block of F
   * before those has been disposed, and only the last block's NextBlockId is written; any
   * other block is linked after the last block.
   */
  lemma MarkOutcome(d: seq<Image>, cs: nat, aligned: bool, F: seq<nat>, b: nat)
    requires 0 < |d| < MaxBlocks && FreeChain(d, F) && b < |d|
    ensures var last := F[|F| - 1];
      var tracked := b == last || (|F| > 1 && b == F[|F| - 2]);
      (Tracked(d, cs, aligned, b) <==> tracked)
      && MarkSpec(d, cs, aligned, b)
         == if b in F && !tracked then (Err(ObjectDisposed), SetHeader(d, last, NextBlockId, b))
            else (Ok(NextId(d, b)), Linked(d, last, b))
  {
    FindFreeChain(d, cs, aligned, F);
    TrackerIsFreeChainEnd(d, cs, aligned, F);
    ChainDistinct(d, F);
    var last := F[|F| - 1];
    if b == last || (|F| > 1 && b == F[|F| - 2]) {
      assert |F| > 1 ==> b !in F[..|F| - 2];
    } else if b in F {
      var k :| 0 <= k < |F| && F[k] == b;
      assert F[..|F| - 2][k] == b;
    }
  }

  /**
   * MarkAsReusable(b) on a block off the free chain: b is linked after the last free block
   * and ends the free chain, and what b's NextBlockId named before is returned.
   */
  lemma MarkStep(d: seq<Image>, cs: nat, aligned: bool, F: seq<nat>, b: nat)
    requires 0 < |d| < MaxBlocks && FreeChain(d, F) && b < |d| && b !in F
    ensures var (m, e) := MarkSpec(d, cs, aligned, b);
      var last := F[|F| - 1];
      m == Ok(NextId(d, b)) && |e| == |d|
      && e[b] == d[b].(previousBlockId := last, nextBlockId := 0)
      && e[last] == d[last].(nextBlockId := b)
      && (forall i | 0 <= i < |d| && i != b && i != last :: e[i] == d[i])
      && FreeChain(e, F + [b])
    ensures !Tracked(d, cs, aligned, b)
  {
    MarkOutcome(d, cs, aligned, F, b);
    ChainDistinct(d, F);
    var last := F[|F| - 1];
    var e := Linked(d, last, b);
    var G := F + [b];
    assert last != b;
    assert NextId(e, b) == 0;
    assert NextId(e, last) == b;
    forall k | 0 <= k < |F| - 1
      ensures NextId(e, F[k]) == NextId(d, F[k])
    {
      assert F[k] != last && F[k] != b;
    }
    assert forall k | 0 <= k < |F| :: G[k] == F[k];
  }

  /**
   * The rest of a chain apart from the free chain is still a chain apart from the free chain
   * with the first block appended, once blocks off the free chain other than the first keep
   * their NextBlockId.
   */
  lemma ChainRest(d: seq<Image>, e: seq<Image>, ids: seq<nat>, F: seq<nat>)
    requires IsChain(d, ids) && |ids| > 1 && Apart(ids, F) && |e| == |d|
    requires forall i | 0 <= i < |d| && i !in F && i != ids[0] :: e[i] == d[i]
    ensures IsChain(e, ids[1..]) && Apart(ids[1..], F + [ids[0]])
  {
    var tail := ids[1..];
    ChainDistinct(d, ids);
    ChainTail(d, ids);
    forall k | 0 <= k < |tail|
      ensures tail[k] < |e| && e[tail[k]].nextBlockId == d[tail[k]].nextBlockId
    {
      assert tail[k] == ids[k + 1] && ids[k + 1] != ids[0];
    }
    ChainFrame(d, e, tail);
    forall k | 0 <= k < |tail|
      ensures tail[k] !in F + [ids[0]]
    {
      assert tail[k] == ids[k + 1] && ids[k + 1] != ids[0];
    }
  }

  /**
   * One pass of Delete's loop on the first block of a chain apart from the free chain: the
   * block ends the free chain, flagged deleted, and Delete goes on with the rest of the chain,
   * which is still a chain, apart from the longer free chain.
   */
  lemma DeleteStep(d: seq<Image>, cs: nat, aligned: bool, ids: seq<nat>, F: seq<nat>, fuel: nat,
                   r: (Status, seq<Image>)) returns (e: seq<Image>)
    requires 0 < |d| < MaxBlocks && IsChain(d, ids) && FreeChain(d, F) && Apart(ids, F)
    requires r == DeleteFrom(d, cs, aligned, ids[0], fuel)
    ensures |e| == |d| && FreeChain(e, F + [ids[0]]) && e[ids[0]].isDeleted == 1
    ensures forall k | 0 <= k < |F| :: e[F[k]] == d[F[k]].(nextBlockId := e[F[k]].nextBlockId)
    ensures forall i | 0 <= i < |d| && i !in F && i != ids[0] :: e[i] == d[i]
    ensures |ids| == 1 ==> r == (Done, e)
    ensures |ids| > 1 ==> IsChain(e, ids[1..]) && Apart(ids[1..], F + [ids[0]])
                          && r == DeleteNext(e, cs, aligned, ids[1], fuel)
  {
    var cur := ids[0];
    MarkStep(d, cs, aligned, F, cur);
    var e0 := MarkSpec(d, cs, aligned, cur).1;
    e := SetHeader(e0, cur, IsDeleted, 1);
    var G := F + [cur];
    FreeChainKept(e0, e, G);
    ChainEnd(d, ids);
    assert forall k | 0 <= k < |F| :: F[k] != cur;
    if |ids| > 1 {
      ChainRest(d, e, ids, F);
    }
  }


  /** What the first pass and the rest of Delete's loop do to a chain, put together. */
  lemma DeleteCons(d: seq<Image>, e1: seq<Image>, e: seq<Image>, ids: seq<nat>, F: seq<nat>)
    requires |ids| > 1 && |e1| == |d| && |e| == |d| && ids[0] < |d| && ids[0] !in F && FreeChain(d, F)
    requires e1[ids[0]].isDeleted == 1
    requires forall k | 0 <= k < |F| :: e1[F[k]] == d[F[k]].(nextBlockId := e1[F[k]].nextBlockId)
    requires forall i | 0 <= i < |d| && i !in F && i != ids[0] :: e1[i] == d[i]
    requires FreeChain(e, (F + [ids[0]]) + ids[1..])
    requires forall k | 0 <= k < |ids[1..]| :: ids[1..][k] < |e| && e[ids[1..][k]].isDeleted == 1
    requires forall k | 0 <= k < |F + [ids[0]]| ::
               e[(F + [ids[0]])[k]] == e1[(F + [ids[0]])[k]].(nextBlockId := e[(F + [ids[0]])[k]].nextBlockId)
    requires forall i | 0 <= i < |e1| && i !in F + [ids[0]] && i !in ids[1..] :: e[i] == e1[i]
    ensures FreeChain(e, F + ids)
    ensures forall k | 0 <= k < |ids| :: ids[k] < |e| && e[ids[k]].isDeleted == 1
    ensures forall k | 0 <= k < |F| :: e[F[k]] == d[F[k]].(nextBlockId := e[F[k]].nextBlockId)
    ensures forall i | 0 <= i < |d| && i !in F && i !in ids :: e[i] == d[i]
  {
    var cur, tail, G := ids[0], ids[1..], F + [ids[0]];
    assert G + tail == F + ids by {
      assert [cur] + tail == ids;
    }
    assert e[cur].isDeleted == 1 by {
      assert G[|F|] == cur;
    }
    assert forall k | 1 <= k < |ids| :: ids[k] == tail[k - 1];
    forall k | 0 <= k < |F|
      ensures e[F[k]] == d[F[k]].(nextBlockId := e[F[k]].nextBlockId)
    {
      assert G[k] == F[k];
    }
    forall i | 0 <= i < |d| && i !in F && i !in ids
      ensures e[i] == d[i]
    {
      assert i !in tail && i != cur;
    }
  }

  /**
   * The loop of Delete over a chain apart from the free chain, with enough fuel: every block
   * of the chain is appended to the free chain, in order, and flagged deleted. A free block
   * keeps all but its NextBlockId, and a block on neither chain is left as it was.
   */
  lemma {:induction false} DeleteChain(d: seq<Image>, cs: nat, aligned: bool, ids: seq<nat>, F: seq<nat>, fuel: nat,
                                       r: (Status, seq<Image>))
    requires 0 < |d| < MaxBlocks && IsChain(d, ids) && FreeChain(d, F) && Apart(ids, F)
    requires |ids| <= fuel && r == DeleteNext(d, cs, aligned, ids[0], fuel)
    ensures r.0.Done? && |r.1| == |d| && FreeChain(r.1, F + ids)
    ensures forall k | 0 <= k < |ids| :: ids[k] < |r.1| && r.1[ids[k]].isDeleted == 1
    ensures forall k | 0 <= k < |F| :: r.1[F[k]] == d[F[k]].(nextBlockId := r.1[F[k]].nextBlockId)
    ensures forall i | 0 <= i < |d| && i !in F && i !in ids :: r.1[i] == d[i]
    decreases fuel, 1
  {
    var cur := ids[0];
    assert cur != 0 by {
      assert F[0] == 0;
    }
    if |ids| == 1 {
      assert r == DeleteFrom(d, cs, aligned, cur, fuel - 1);
      var e1 := DeleteStep(d, cs, aligned, ids, F, fuel - 1, r);
      assert ids == [cur];
    } else {
      DeleteMore(d, cs, aligned, ids, F, fuel, r);
    }
  }

  /** DeleteChain when the chain goes on past its first block. */
  lemma {:induction false} DeleteMore(d: seq<Image>, cs: nat, aligned: bool, ids: seq<nat>, F: seq<nat>, fuel: nat,
                                      r: (Status, seq<Image>))
    requires 0 < |d| < MaxBlocks && IsChain(d, ids) && FreeChain(d, F) && Apart(ids, F) && |ids| > 1
    requires |ids| <= fuel && r == DeleteNext(d, cs, aligned, ids[0], fuel) && ids[0] != 0
    ensures r.0.Done? && |r.1| == |d| && FreeChain(r.1, F + ids)
    ensures forall k | 0 <= k < |ids| :: ids[k] < |r.1| && r.1[ids[k]].isDeleted == 1
    ensures forall k | 0 <= k < |F| :: r.1[F[k]] == d[F[k]].(nextBlockId := r.1[F[k]].nextBlockId)
    ensures forall i | 0 <= i < |d| && i !in F && i !in ids :: r.1[i] == d[i]
    decreases fuel, 0
  {
    var cur := ids[0];
    assert r == DeleteFrom(d, cs, aligned, cur, fuel - 1);
    var e1 := DeleteStep(d, cs, aligned, ids, F, fuel - 1, r);
    assert ids[1..][0] == ids[1];
    DeleteChain(e1, cs, aligned, ids[1..], F + [cur], fuel - 1, r);
    DeleteCons(d, e1, r.1, ids, F);
  }

  /**
   * RecordStorage.Delete(id) on a stored record apart from the free chain: it completes, the
   * record's blocks, in order, end the free chain and are flagged deleted, and no block on
   * neither chain changes.
   */
  lemma DeleteRecord(d: seq<Image>, cs: nat, aligned: bool, id: nat, ids: seq<nat>, data: seq<byte>, F: seq<nat>)
    requires |d| < MaxBlocks && Stores(d, cs, id, ids, data) && FreeChain(d, F) && Apart(ids, F)
    ensures var (s, e) := DeleteSpec(d, cs, aligned, id);
      s.Done? && |e| == |d| && FreeChain(e, F + ids)
      && (forall k | 0 <= k < |ids| :: ids[k] < |e| && e[ids[k]].isDeleted == 1)
      && (forall i | 0 <= i < |d| && i !in F && i !in ids :: e[i] == d[i])
  {
    HeldChain(d, cs, ids, |data|);
    ChainLength(d, ids);
    var r := DeleteSpec(d, cs, aligned, id);
    assert r == DeleteNext(d, cs, aligned, id, |d| + 1);
    DeleteChain(d, cs, aligned, ids, F, |d| + 1, r);
  }

  /**
   * After Delete(id), Find(id) returns null, GetDeletedId lists the record's blocks after the
   * blocks that were free already, and the next allocation reuses the record's last block.
   */
  lemma DeleteThenFind(d: seq<Image>, cs: nat, aligned: bool, id: nat, ids: seq<nat>, data: seq<byte>, F: seq<nat>)
    requires |d| < MaxBlocks && Sized(d, cs) && Stores(d, cs, id, ids, data) && FreeChain(d, F) && Apart(ids, F)
    ensures var (s, e) := DeleteSpec(d, cs, aligned, id);
      FindSpec(e, cs, id) == Ok(None)
      && DeletedIdsSpec(e, cs, aligned) == (Ok(F[1..] + ids), e)
      && AllocateSpec(e, cs, aligned).0 == Ok(ids[|ids| - 1])
  {
    DeleteRecord(d, cs, aligned, id, ids, data, F);
    var e := DeleteSpec(d, cs, aligned, id).1;
    assert e[ids[0]].isDeleted == 1;
    TrackerIsFreeChainEnd(e, cs, aligned, F + ids);
    assert (F + ids)[1..] == F[1..] + ids;
    AllocateFromFreeChain(e, cs, aligned, F + ids);
  }
  /**
   * Delete(b) of a block already on the free chain throws ObjectDisposedException: BlockStorage
   * hands MarkAsReusable the very block object Delete holds. When b is one of the chain's last
   * two blocks, it is linked as usual and then disposed by MarkAsReusable's using statements,
   * so flagging it deleted throws; otherwise GetSpaceTrackerBlock has disposed it, and only the
   * last block's NextBlockId, now b, is written. Either way b is not flagged deleted.
   */
  lemma DeleteFreeBlockThrows(d: seq<Image>, cs: nat, aligned: bool, F: seq<nat>, b: nat)
    requires 0 < |d| < MaxBlocks && FreeChain(d, F) && b in F
    ensures var (s, e) := DeleteSpec(d, cs, aligned, b);
      var last := F[|F| - 1];
      var tracked := b == last || (|F| > 1 && b == F[|F| - 2]);
      s == Fail(ObjectDisposed) && b < |d| == |e| && e[b].isDeleted == d[b].isDeleted
      && (tracked ==> e[b] == d[b].(previousBlockId := last, nextBlockId := 0)
                      && (b != last ==> e[last] == d[last].(nextBlockId := b))
                      && forall i | 0 <= i < |d| && i != b && i != last :: e[i] == d[i])
      && (!tracked ==> e == d[last := d[last].(nextBlockId := b)])
  {
    var k :| 0 <= k < |F| && F[k] == b;
    MarkOutcome(d, cs, aligned, F, b);
    ChainDistinct(d, F);
    var r := DeleteSpec(d, cs, aligned, b);
    assert r == DeleteFrom(d, cs, aligned, b, |d|);
  }

  /** Delete(0) on a store with a free chain throws ObjectDisposedException: block 0 heads it. */
  lemma DeleteZeroThrows(d: seq<Image>, cs: nat, aligned: bool, F: seq<nat>)
    requires 0 < |d| < MaxBlocks && FreeChain(d, F)
    ensures DeleteSpec(d, cs, aligned, 0).0 == Fail(ObjectDisposed)
  {
    DeleteFreeBlockThrows(d, cs, aligned, F, F[0]);
  }

  /** Deleting a stored record a second time throws ObjectDisposedException. */
  lemma DeleteTwiceThrows(d: seq<Image>, cs: nat, aligned: bool, id: nat, ids: seq<nat>, data: seq<byte>, F: seq<nat>)
    requires |d| < MaxBlocks && Stores(d, cs, id, ids, data) && FreeChain(d, F) && Apart(ids, F)
    ensures DeleteSpec(DeleteSpec(d, cs, aligned, id).1, cs, aligned, id).0 == Fail(ObjectDisposed)
  {
    DeleteRecord(d, cs, aligned, id, ids, data, F);
    var e := DeleteSpec(d, cs, aligned, id).1;
    assert (F + ids)[|F|] == id;
    DeleteFreeBlockThrows(e, cs, aligned, F + ids, id);
  }
}
