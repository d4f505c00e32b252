/**
 * RecordLemmas: what RecordStorage promises, proved about the functions of RecordSpec.
 *
 * The store keeps a free chain as record 0: the chain of blocks from block 0. FreeChain(d, F)
 * says F is that chain. Allocation takes its last block (LIFO), deletion appends to it, and a
 * record written by Create is read back whole by Find.
 */
module RecordLemmas {
  import opened Bytes
  import opened Errors
  import opened Storage
  import opened RecordBlocks
  import opened RecordSpec

  /** F is the free chain of store d: the chain from block 0. */
  ghost predicate FreeChain(d: seq<Image>, F: seq<nat>)
  {
    IsChain(d, F) && F[0] == 0
  }

  /** FindBlocks(id) on a non-empty store returns exactly the chain from id, when there is one. */
  lemma FindBlocksChain(d: seq<Image>, cs: nat, aligned: bool, id: nat)
    requires |d| > 0
    ensures var (r, e) := FindBlocksSpec(d, cs, aligned, id);
      e == d
      && (r.Ok? ==> IsChain(d, r.value) && r.value[0] == id && (id > 0 ==> NoneDeleted(d, r.value)))
    ensures forall ids | IsChain(d, ids) && ids[0] == id && (id > 0 ==> NoneDeleted(d, ids)) ::
      FindBlocksSpec(d, cs, aligned, id).0 == Ok(ids)
  {
    var r := WalkFrom(d, id, id > 0, [], |d|);
    if r.Ok? {
      WalkSound(d, id, id > 0, [], |d|);
      assert r.value[0..] == r.value;
    }
    forall ids | IsChain(d, ids) && ids[0] == id && (id > 0 ==> NoneDeleted(d, ids))
      ensures FindBlocksSpec(d, cs, aligned, id).0 == Ok(ids)
    {
      ChainLength(d, ids);
      WalkComplete(d, ids, id > 0, [], |d|);
      assert [] + ids == ids;
    }
  }

  /** On a non-empty store FindBlocks(0) is the free chain. */
  lemma FindFreeChain(d: seq<Image>, cs: nat, aligned: bool, F: seq<nat>)
    requires |d| > 0 && FreeChain(d, F)
    ensures FindBlocksSpec(d, cs, aligned, 0) == (Ok(F), d)
  {
    FindBlocksChain(d, cs, aligned, 0);
  }

  /** The free chain ends at block 0 exactly when it is block 0 alone. */
  lemma FreeChainEnd(d: seq<Image>, F: seq<nat>)
    requires FreeChain(d, F)
    ensures F[|F| - 1] == 0 <==> |F| == 1
  {
    ChainDistinct(d, F);
  }

  /**
   * GetSpaceTrackerBlock finds the last block of the free chain and the block before it, and
   * GetDeletedId lists the free chain after block 0.
   */
  lemma TrackerIsFreeChainEnd(d: seq<Image>, cs: nat, aligned: bool, F: seq<nat>)
    requires |d| > 0 && FreeChain(d, F)
    ensures TrackerSpec(d, cs, aligned) == (Ok((F[|F| - 1], if |F| > 1 then Some(F[|F| - 2]) else None)), d)
    ensures DeletedIdsSpec(d, cs, aligned) == (Ok(F[1..]), d)
  {
    FindFreeChain(d, cs, aligned, F);
  }

  /**
   * AllocateBlock with a free chain longer than block 0 takes its last block: the block before
   * it becomes the end of the chain, and the block taken comes back with all five headers zero.
   */
  lemma AllocateFromFreeChain(d: seq<Image>, cs: nat, aligned: bool, F: seq<nat>)
    requires |d| > 0 && FreeChain(d, F) && |F| > 1
    ensures var (r, e) := AllocateSpec(d, cs, aligned);
      var last, second := F[|F| - 1], F[|F| - 2];
      r == Ok(last) && |e| == |d|
      && e[last] == Recycled(d[last]) && e[second] == d[second].(nextBlockId := 0)
      && (forall i | 0 <= i < |d| && i != last && i != second :: e[i] == d[i])
      && FreeChain(e, F[..|F| - 1])
  {
    AllocateLast(d, cs, aligned, F);
    var e := AllocateSpec(d, cs, aligned).1;
    var last, second := F[|F| - 1], F[|F| - 2];
    ChainDistinct(d, F);
    assert forall k | 0 <= k < |F| - 2 :: F[k] != last && F[k] != second;
    ChainCut(d, e, F);
  }

  /** What AllocateBlock does to the blocks when the free chain has a block after block 0. */
  lemma AllocateLast(d: seq<Image>, cs: nat, aligned: bool, F: seq<nat>)
    requires |d| > 0 && FreeChain(d, F) && |F| > 1
    ensures var (r, e) := AllocateSpec(d, cs, aligned);
      var last, second := F[|F| - 1], F[|F| - 2];
      r == Ok(last) && |e| == |d| && last != 0
      && e[last] == Recycled(d[last]) && e[second] == d[second].(nextBlockId := 0)
      && (forall i | 0 <= i < |d| && i != last && i != second :: e[i] == d[i])
  {
    TrackerIsFreeChainEnd(d, cs, aligned, F);
    FreeChainEnd(d, F);
    ChainDistinct(d, F);
  }

  /**
   * AllocateBlock with block 0 alone on the free chain creates a new block at the end of the
   * store, and the free chain stays as it was.
   */
  lemma AllocateFresh(d: seq<Image>, cs: nat, aligned: bool, F: seq<nat>)
    requires |d| > 0 && FreeChain(d, F) && |F| == 1
    ensures AllocateSpec(d, cs, aligned) == CreateNewSpec(d, cs, aligned)
    ensures FreeChain(AllocateSpec(d, cs, aligned).1, F)
  {
    TrackerIsFreeChainEnd(d, cs, aligned, F);
    ChainFrame(d, AllocateSpec(d, cs, aligned).1, F);
  }

  /**
   * On an empty stream, the first allocation makes block 0 to head the free chain and then a
   * new block 1: the first record a store hands out is record 1.
   */
  lemma FirstAllocation(cs: nat)
    ensures AllocateSpec([], cs, true) == (Ok(1), [ZeroImage(cs), ZeroImage(cs)])
  {
    var d := [ZeroImage(cs)];
    assert CreateNewSpec([], cs, true) == (Ok(0), d) by {
      assert [] + [ZeroImage(cs)] == d;
    }
    assert FindBlocksSpec([], cs, true, 0) == (Ok([0]), d);
    assert TrackerSpec([], cs, true) == (Ok((0, None)), d);
    assert TryGetSpec([], cs, true) == (Ok(None), d);
    assert d + [ZeroImage(cs)] == [ZeroImage(cs), ZeroImage(cs)];
  }

  /**
   * The bytes the blocks `ids` hold as the rest of a record with `rem` bytes still to come,
   * when they are laid out the way Create and Update leave a record: each block holds the next
   * min(cs, rem) bytes and says so in BlockContentLength; each but the last names the next as
   * its NextBlockId and is named as that block's PreviousBlockId; the last names no next block.
   * None when the blocks are not laid out so.
   */
  ghost function Held(d: seq<Image>, cs: nat, ids: seq<nat>, rem: nat): Option<seq<byte>>
    decreases |ids|
  {
    if |ids| == 0 || ids[0] >= |d| then None
    else
      var n := Min(cs, rem);
      var b := d[ids[0]];
      if b.blockContentLength != n || n > |b.content| then None
      else if n < rem then
        if |ids| > 1 && ids[1] != 0 && ids[1] < |d| && NextId(d, ids[0]) == ids[1] && d[ids[1]].previousBlockId == ids[0] then
          match Held(d, cs, ids[1..], rem - n)
          case Some(rest) => Some(b.content[..n] + rest)
          case None => None
        else None
      else if |ids| == 1 && NextId(d, ids[0]) == 0 then Some(b.content[..n])
      else None
  }

  /** The blocks `ids` hold data[from..], laid out as Held describes. */
  ghost predicate Holds(d: seq<Image>, cs: nat, ids: seq<nat>, data: seq<byte>, from: nat)
  {
    from <= |data| && Held(d, cs, ids, |data| - from) == Some(data[from..])
  }

  /** Record id is stored with content data in the blocks ids, headed by block id. */
  ghost predicate Stores(d: seq<Image>, cs: nat, id: nat, ids: seq<nat>, data: seq<byte>)
  {
    Holds(d, cs, ids, data, 0) && ids[0] == id && id != 0
    && d[id].recordLength == |data| && d[id].previousBlockId == 0 && d[id].isDeleted != 1
  }

  /** A laid-out chain is no longer than the bytes it holds, plus one. */
  lemma {:induction false} HeldLength(d: seq<Image>, cs: nat, ids: seq<nat>, rem: nat)
    requires 0 < cs && Held(d, cs, ids, rem).Some?
    ensures |ids| <= rem + 1
    decreases |ids|
  {
    var n := Min(cs, rem);
    if n < rem {
      HeldLength(d, cs, ids[1..], rem - n);
    }
  }

  /** What Held says of the first block of a chain holding data[from..]. */
  lemma HeldHead(d: seq<Image>, cs: nat, ids: seq<nat>, data: seq<byte>, from: nat)
    requires Holds(d, cs, ids, data, from)
    ensures var n := Min(cs, |data| - from);
      |ids| > 0 && ids[0] < |d| && d[ids[0]].blockContentLength == n && n <= |d[ids[0]].content|
      && d[ids[0]].content[..n] == data[from..from + n]
      && (from + n < |data| ==>
            |ids| > 1 && ids[1] != 0 && ids[1] < |d| && NextId(d, ids[0]) == ids[1]
            && d[ids[1]].previousBlockId == ids[0] && Holds(d, cs, ids[1..], data, from + n))
      && (from + n >= |data| ==> |ids| == 1 && NextId(d, ids[0]) == 0)
  {
    var n := Min(cs, |data| - from);
    var chunk := d[ids[0]].content[..n];
    if from + n < |data| {
      var rest := Held(d, cs, ids[1..], |data| - from - n).value;
      assert chunk + rest == data[from..];
      assert data[from..][..n] == data[from..from + n] && (chunk + rest)[..n] == chunk;
      assert data[from..][n..] == data[from + n..] && (chunk + rest)[n..] == rest;
    }
  }

  /** A block holding the next chunk and linked both ways to a chain holding the rest heads a chain holding it all. */
  lemma HoldsCons(d: seq<Image>, cs: nat, cur: nat, ids: seq<nat>, data: seq<byte>, written: nat)
    requires cur < |d| && written <= |data|
    requires var n := Min(cs, |data| - written);
      written + n < |data| && Holds(d, cs, ids, data, written + n) && ids[0] != 0
      && NextId(d, cur) == ids[0] && d[ids[0]].previousBlockId == cur
      && d[cur].blockContentLength == n && n <= |d[cur].content| && d[cur].content[..n] == data[written..written + n]
    ensures Holds(d, cs, [cur] + ids, data, written)
  {
    var n := Min(cs, |data| - written);
    HeldHead(d, cs, ids, data, written + n);
    assert ([cur] + ids)[1..] == ids;
    assert data[written..written + n] + data[written + n..] == data[written..];
  }

  /** A single block holding the last chunk holds it. */
  lemma HoldsLast(d: seq<Image>, cs: nat, cur: nat, data: seq<byte>, written: nat)
    requires cur < |d| && written <= |data|
    requires var n := Min(cs, |data| - written);
      written + n >= |data| && NextId(d, cur) == 0
      && d[cur].blockContentLength == n && n <= |d[cur].content| && d[cur].content[..n] == data[written..written + n]
    ensures Holds(d, cs, [cur], data, written)
  {
    assert data[written..written + Min(cs, |data| - written)] == data[written..];
  }

  /**
   * The loop of Find over a held chain, with the bytes before `from` already in the buffer,
   * fills the rest of the buffer with the bytes the chain holds.
   */
  lemma {:induction false} ReadHeld(d: seq<Image>, cs: nat, ids: seq<nat>, data: seq<byte>, from: nat,
                                    buffer: seq<byte>, fuel: nat)
    requires 0 < cs < 0x8000_0000 && Sized(d, cs) && Holds(d, cs, ids, data, from)
    requires |buffer| == |data| && buffer[..from] == data[..from] && |ids| <= fuel + 1
    ensures ReadFrom(d, cs, ids[0], buffer, from, fuel) == Ok(data)
    decreases |ids|
  {
    HeldHead(d, cs, ids, data, from);
    var n := Min(cs, |data| - from);
    var b := d[ids[0]];
    assert TruncateToInt32(b.blockContentLength) == n;
    var filled := Splice(buffer, from, b.content[..n]);
    assert filled[..from + n] == data[..from + n] by {
      forall i | 0 <= i < from + n
        ensures filled[i] == data[i]
      {
        if i < from {
          assert buffer[..from][i] == data[..from][i];
        } else {
          assert filled[from..from + n][i - from] == data[from..from + n][i - from];
        }
      }
    }
    if from + n < |data| {
      ReadHeld(d, cs, ids[1..], data, from + n, filled, fuel - 1);
    } else {
      assert filled == filled[..from + n] && data == data[..from + n];
    }
  }

  /** Find returns the content of a stored record. */
  lemma FindStored(d: seq<Image>, cs: nat, id: nat, ids: seq<nat>, data: seq<byte>)
    requires 0 < cs < 0x8000_0000 && Sized(d, cs) && Stores(d, cs, id, ids, data)
    requires |data| <= MaxRecordSize
    ensures FindSpec(d, cs, id) == Ok(Some(data))
  {
    HeldLength(d, cs, ids, |data|);
    var fuel := ReadFuel(|d|, |data|);
    assert |data| + 1 <= fuel;
    ReadHeld(d, cs, ids, data, 0, Zeros(|data|), fuel);
  }

  /** A block whose five headers are all zero, as AllocateBlock hands it out. */
  ghost predicate Blank(b: Image)
  {
    b.nextBlockId == 0 && b.previousBlockId == 0 && b.recordLength == 0
    && b.blockContentLength == 0 && b.isDeleted == 0
  }

  /**
   * AllocateBlock on a store with a free chain: it succeeds unless it must create a block on a
   * misaligned stream; the block it returns is blank, off what is left of the free chain, and
   * either on the old free chain or new; and no block off the free chain changes.
   */
  lemma AllocateStep(d: seq<Image>, cs: nat, aligned: bool, F: seq<nat>) returns (F': seq<nat>)
    requires |d| > 0 && FreeChain(d, F)
    ensures var (r, e) := AllocateSpec(d, cs, aligned);
      (aligned || |F| > 1 ==> r.Ok?)
      && (r.Ok? ==>
            var b := r.value;
            (b == |d| || b in F) && b !in F' && Blank(e[b])
            && FreeChain(e, F') && F' <= F
            && (forall i | 0 <= i < |d| && i !in F :: e[i] == d[i]))
  {
    if |F| > 1 {
      AllocateFromFreeChain(d, cs, aligned, F);
      F' := F[..|F| - 1];
      ChainDistinct(d, F);
      assert forall k | 0 <= k < |F'| :: F'[k] != F[|F| - 1];
    } else {
      AllocateFresh(d, cs, aligned, F);
      F' := F;
      assert forall k | 0 <= k < |F| :: F[k] < |d|;
    }
  }

  /** A chain off the blocks a store change touches is a chain after it. */
  lemma FreeChainKept(d: seq<Image>, e: seq<Image>, F: seq<nat>)
    requires FreeChain(d, F) && |d| <= |e|
    requires forall i | 0 <= i < |d| && i in F :: e[i].nextBlockId == d[i].nextBlockId
    ensures FreeChain(e, F)
  {
    assert forall k | 0 <= k < |F| :: F[k] < |d| && F[k] in F;
    ChainFrame(d, e, F);
  }

  /** The first step of Fill writes the chunk and its length to block cur only. */
  lemma FillChunk(d: seq<Image>, cs: nat, cur: nat, data: seq<byte>, written: nat)
    requires 0 < cs < 0x8000_0000 && Sized(d, cs) && cur < |d| && written < |data|
    ensures var n := Min(cs, |data| - written);
      var e := SetHeader(WriteContent(d, cur, data[written..written + n]), cur, BlockContentLength, n);
      |e| == |d| && Sized(e, cs) && (forall i | 0 <= i < |d| && i != cur :: e[i] == d[i])
      && e[cur].content[..n] == data[written..written + n] && e[cur].blockContentLength == n
      && e[cur] == d[cur].(content := e[cur].content, blockContentLength := n)
  {
    var n := Min(cs, |data| - written);
    var chunk := data[written..written + n];
    SpliceInside(d[cur].content, 0, chunk, 0, n);
    assert Splice(d[cur].content, 0, chunk)[..n] == chunk;
  }

  /** Fill links block cur to the blank block nb it allocated, touching the two only. */
  lemma FillLink(e: seq<Image>, cs: nat, cur: nat, nb: nat, F: seq<nat>)
    requires Sized(e, cs) && cur < |e| && nb < |e| < MaxBlocks && nb != cur && Blank(e[nb])
    requires FreeChain(e, F) && cur !in F && nb !in F
    ensures var e' := SetHeader(SetHeader(e, nb, PreviousBlockId, cur), cur, NextBlockId, nb);
      |e'| == |e| && Sized(e', cs) && FreeChain(e', F) && NextId(e', nb) == 0 && NextId(e', cur) == nb
      && e'[nb].previousBlockId == cur && e'[cur] == e[cur].(nextBlockId := nb)
      && (forall i | 0 <= i < |e| && i != cur && i != nb :: e'[i] == e[i])
  {
    var e' := SetHeader(SetHeader(e, nb, PreviousBlockId, cur), cur, NextBlockId, nb);
    FreeChainKept(e, e', F);
  }

  /**
   * The allocating half of a pass of Fill's loop: allocate nb off the free chain and link it
   * after cur. Fill then goes on from nb; when allocation fails, which it can only on a
   * misaligned stream, Fill fails.
   */
  lemma FillNextStep(d: seq<Image>, cs: nat, aligned: bool, cur: nat, data: seq<byte>, written: nat, F: seq<nat>,
                     r: (Status, seq<Image>))
    returns (ok: bool, nb: nat, e: seq<Image>, F': seq<nat>)
    requires 0 < cs < 0x8000_0000 && Sized(d, cs) && cur < |d| && written < |data|
    requires |d| + 1 + (|data| - written) < MaxBlocks
    requires r == FillNext(d, cs, aligned, cur, data, written)
    requires FreeChain(d, F) && cur !in F
    ensures aligned ==> ok
    ensures !ok ==> r.0.Fail?
    ensures ok ==>
            Sized(e, cs) && |d| <= |e| <= |d| + 1 && nb < |e| && nb != cur && nb != 0
            && (nb == |d| || nb in F) && nb !in F' && cur !in F' && FreeChain(e, F') && F' <= F
            && NextId(e, nb) == 0 && NextId(e, cur) == nb && e[nb].previousBlockId == cur
            && e[cur] == d[cur].(nextBlockId := nb)
            && (forall i | 0 <= i < |d| && i !in F && i != cur :: e[i] == d[i])
            && r == Fill(e, cs, aligned, nb, data, written)
  {
    F' := AllocateStep(d, cs, aligned, F);
    var (a, e3) := AllocateSpec(d, cs, aligned);
    ok, nb, e := a.Ok?, 0, d;
    if a.Ok? {
      nb := a.value;
      assert cur !in F' by {
        assert forall k | 0 <= k < |F'| :: F'[k] == F[k];
      }
      FillLink(e3, cs, cur, nb, F');
      e := SetHeader(SetHeader(e3, nb, PreviousBlockId, cur), cur, NextBlockId, nb);
    }
  }

  /**
   * What a pass of Fill's loop leaves of d in e: cur holds the pass's chunk and links to nb,
   * which links back, and no block off the free chain F other than cur changed.
   */
  ghost predicate Linked(d: seq<Image>, e: seq<Image>, cs: nat, cur: nat, nb: nat, data: seq<byte>, written: nat, F: seq<nat>)
    requires cs < 0x8000_0000 && written < |data|
  {
    var n := Min(cs, |data| - written);
    cur < |d| <= |e| && nb < |e| && nb != cur && nb != 0 && (nb == |d| || nb in F)
    && NextId(e, cur) == nb && e[nb].previousBlockId == cur
    && e[cur] == d[cur].(content := e[cur].content, blockContentLength := n, nextBlockId := nb)
    && n <= |e[cur].content| && e[cur].content[..n] == data[written..written + n]
    && (forall i | 0 <= i < |d| && i !in F && i != cur :: e[i] == d[i])
  }

  /** One pass of Fill's loop that does not finish the data: write the chunk to cur, then allocate and link nb. */
  lemma FillStep(d: seq<Image>, cs: nat, aligned: bool, cur: nat, data: seq<byte>, written: nat, F: seq<nat>,
                 r: (Status, seq<Image>))
    returns (ok: bool, nb: nat, e: seq<Image>, F': seq<nat>)
    requires 0 < cs < 0x8000_0000 && Sized(d, cs) && cur < |d| && written + Min(cs, |data| - written) < |data|
    requires |d| + (|data| - written) < MaxBlocks
    requires r == Fill(d, cs, aligned, cur, data, written)
    requires FreeChain(d, F) && cur !in F
    ensures var n := Min(cs, |data| - written);
      (aligned ==> ok)
      && (!ok ==> r.0.Fail?)
      && (ok ==>
            Sized(e, cs) && |d| <= |e| <= |d| + 1 && nb < |e| && nb != cur && nb != 0
            && (nb == |d| || nb in F) && nb !in F' && cur !in F' && FreeChain(e, F') && F' <= F
            && NextId(e, nb) == 0 && Linked(d, e, cs, cur, nb, data, written, F)
            && r == Fill(e, cs, aligned, nb, data, written + n))
  {
    var n := Min(cs, |data| - written);
    FillChunk(d, cs, cur, data, written);
    var e2 := SetHeader(WriteContent(d, cur, data[written..written + n]), cur, BlockContentLength, n);
    FreeChainKept(d, e2, F);
    ok, nb, e, F' := FillNextStep(e2, cs, aligned, cur, data, written + n, F, r);
  }


  /** The last chunk of a record fills the current block and ends the chain there. */
  lemma FillLast(d: seq<Image>, cs: nat, aligned: bool, cur: nat, data: seq<byte>, written: nat, F: seq<nat>,
                 r: (Status, seq<Image>))
    requires 0 < cs < 0x8000_0000 && Sized(d, cs) && cur < |d| && written < |data|
    requires written + Min(cs, |data| - written) >= |data| && |d| + (|data| - written) < MaxBlocks
    requires r == Fill(d, cs, aligned, cur, data, written)
    requires FreeChain(d, F) && cur !in F && NextId(d, cur) == 0
    ensures r.0.Done? && Holds(r.1, cs, [cur], data, written) && FreeChain(r.1, F)
            && (forall i | 0 <= i < |d| && i != cur :: r.1[i] == d[i])
            && r.1[cur].previousBlockId == d[cur].previousBlockId
            && r.1[cur].recordLength == d[cur].recordLength && r.1[cur].isDeleted == d[cur].isDeleted
  {
    var n := Min(cs, |data| - written);
    FillChunk(d, cs, cur, data, written);
    var e2 := SetHeader(WriteContent(d, cur, data[written..written + n]), cur, BlockContentLength, n);
    FreeChainKept(d, e2, F);
    assert NextId(e2, cur) == NextId(d, cur);
    HoldsLast(e2, cs, cur, data, written);
  }

  /**
   * What Fill keeps of d in e: no block off the free chain F other than cur changes, and
   * cur keeps the headers Fill does not write.
   */
  ghost predicate Kept(d: seq<Image>, e: seq<Image>, F: seq<nat>, cur: nat)
  {
    cur < |d| <= |e|
    && (forall i | 0 <= i < |d| && i !in F && i != cur :: e[i] == d[i])
    && e[cur].previousBlockId == d[cur].previousBlockId
    && e[cur].recordLength == d[cur].recordLength && e[cur].isDeleted == d[cur].isDeleted
  }

  /** Block cur, linked to the chain from nb that holds the rest of the data, holds the data from its chunk on. */
  lemma FillCons(d: seq<Image>, e5: seq<Image>, e: seq<Image>, cs: nat, cur: nat, nb: nat, ids: seq<nat>,
                 data: seq<byte>, written: nat, F: seq<nat>, F1: seq<nat>, F2: seq<nat>)
    requires 0 < cs < 0x8000_0000 && Sized(e5, cs) && |e5| <= |e|
    requires written + Min(cs, |data| - written) < |data|
    requires Linked(d, e5, cs, cur, nb, data, written, F) && cur !in F1 && F1 <= F
    requires Holds(e, cs, ids, data, written + Min(cs, |data| - written)) && ids[0] == nb && F2 <= F1
    requires Kept(e5, e, F1, nb)
    ensures Holds(e, cs, [cur] + ids, data, written) && F2 <= F && Kept(d, e, F, cur)
  {
    assert e[cur] == e5[cur];
    HoldsCons(e, cs, cur, ids, data, written);
    forall i | 0 <= i < |d| && i !in F && i != cur
      ensures e[i] == d[i]
    {
      assert i != nb && i !in F1;
    }
  }

  /** On an aligned stream the loop of Create(dataProvider) always finishes. */
  lemma {:induction false} FillSucceeds(d: seq<Image>, cs: nat, cur: nat, data: seq<byte>, written: nat, F: seq<nat>)
    requires 0 < cs < 0x8000_0000 && Sized(d, cs) && cur < |d| && written < |data|
    requires |d| + (|data| - written) < MaxBlocks
    requires FreeChain(d, F) && cur !in F
    ensures Fill(d, cs, true, cur, data, written).0.Done?
    decreases |data| - written
  {
    var n := Min(cs, |data| - written);
    if written + n < |data| {
      var nb, e5, F1 := FillAdvances(d, cs, cur, data, written, F);
      FillSucceeds(e5, cs, nb, data, written + n, F1);
    }
  }

  /** On an aligned stream a pass of Fill's loop that does not finish the data goes on from a block off the free chain. */
  lemma FillAdvances(d: seq<Image>, cs: nat, cur: nat, data: seq<byte>, written: nat, F: seq<nat>)
    returns (nb: nat, e5: seq<Image>, F1: seq<nat>)
    requires 0 < cs < 0x8000_0000 && Sized(d, cs) && cur < |d| && written + Min(cs, |data| - written) < |data|
    requires |d| + (|data| - written) < MaxBlocks
    requires FreeChain(d, F) && cur !in F
    ensures var n := Min(cs, |data| - written);
      Sized(e5, cs) && nb < |e5| <= |d| + 1 && FreeChain(e5, F1) && nb !in F1
      && Fill(d, cs, true, cur, data, written) == Fill(e5, cs, true, nb, data, written + n)
  {
    var ok;
    ok, nb, e5, F1 := FillStep(d, cs, true, cur, data, written, F, Fill(d, cs, true, cur, data, written));
  }

  /**
   * When the loop of Create(dataProvider) from a block cur that is off the free chain and
   * ends no chain finishes, it leaves data[written..] held by a chain from cur and keeps the
   * free chain a chain. Around it, no block off the free chain other than cur changes, and cur keeps the headers
   * Fill does not write.
   */
  lemma {:induction false} FillHolds(d: seq<Image>, cs: nat, aligned: bool, cur: nat, data: seq<byte>,
                                     written: nat, F: seq<nat>, r: (Status, seq<Image>)) returns (ids: seq<nat>, F': seq<nat>)
    requires 0 < cs < 0x8000_0000 && Sized(d, cs) && cur < |d| && written < |data|
    requires |d| + (|data| - written) < MaxBlocks
    requires r == Fill(d, cs, aligned, cur, data, written) && r.0.Done?
    requires FreeChain(d, F) && cur !in F && NextId(d, cur) == 0
    ensures Holds(r.1, cs, ids, data, written) && ids[0] == cur && FreeChain(r.1, F') && F' <= F
    ensures Kept(d, r.1, F, cur)
    decreases |data| - written, 2
  {
    ids, F' := [cur], F;
    if written + Min(cs, |data| - written) >= |data| {
      FillLast(d, cs, aligned, cur, data, written, F, r);
    } else {
      ids, F' := FillMore(d, cs, aligned, cur, data, written, F, r);
    }
  }

  /** FillHolds when the data goes on past the block cur. */
  lemma {:induction false} FillMore(d: seq<Image>, cs: nat, aligned: bool, cur: nat, data: seq<byte>,
                                    written: nat, F: seq<nat>, r: (Status, seq<Image>)) returns (ids: seq<nat>, F': seq<nat>)
    requires 0 < cs < 0x8000_0000 && Sized(d, cs) && cur < |d| && written + Min(cs, |data| - written) < |data|
    requires |d| + (|data| - written) < MaxBlocks
    requires r == Fill(d, cs, aligned, cur, data, written) && r.0.Done?
    requires FreeChain(d, F) && cur !in F && NextId(d, cur) == 0
    ensures Holds(r.1, cs, ids, data, written) && ids[0] == cur && FreeChain(r.1, F') && F' <= F
    ensures Kept(d, r.1, F, cur)
    decreases |data| - written, 1
  {
    var ok, nb, e5, F1 := FillStep(d, cs, aligned, cur, data, written, F, r);
    ids, F' := FillLinked(d, e5, cs, aligned, cur, nb, data, written, F, F1, r);
  }

  /** FillMore once block cur is written and linked to nb: the rest of the loop fills the chain from nb. */
  lemma {:induction false} FillLinked(d: seq<Image>, e5: seq<Image>, cs: nat, aligned: bool, cur: nat, nb: nat,
                                      data: seq<byte>, written: nat, F: seq<nat>, F1: seq<nat>, r: (Status, seq<Image>))
    returns (ids: seq<nat>, F': seq<nat>)
    requires 0 < cs < 0x8000_0000 && written + Min(cs, |data| - written) < |data|
    requires |d| + (|data| - written) < MaxBlocks && r.0.Done?
    requires Sized(e5, cs) && |e5| <= |d| + 1 && nb !in F1 && cur !in F1 && FreeChain(e5, F1) && F1 <= F
    requires nb < |e5| && NextId(e5, nb) == 0 && Linked(d, e5, cs, cur, nb, data, written, F)
    requires r == Fill(e5, cs, aligned, nb, data, written + Min(cs, |data| - written))
    ensures Holds(r.1, cs, ids, data, written) && ids[0] == cur && FreeChain(r.1, F') && F' <= F
    ensures Kept(d, r.1, F, cur)
    decreases |data| - written, 0
  {
    var next := written + Min(cs, |data| - written);
    var ids1, F2 := FillHolds(e5, cs, aligned, nb, data, next, F1, r);
    ids, F' := [cur] + ids1, F2;
    FillCons(d, e5, r.1, cs, cur, nb, ids1, data, written, F, F1, F2);
  }

  /**
   * The second half of Create(dataProvider): a blank block id off the free chain, given the
   * record length and filled with data, stores data as record id, unless the stream is
   * misaligned and a later allocation fails.
   */
  lemma StoreFresh(e: seq<Image>, cs: nat, aligned: bool, id: nat, data: seq<byte>, F: seq<nat>)
    returns (ids: seq<nat>, F': seq<nat>)
    requires 0 < cs < 0x8000_0000 && Sized(e, cs) && 0 < id < |e| && Blank(e[id])
    requires |e| + |data| < MaxBlocks && FreeChain(e, F) && id !in F
    ensures var e1 := SetHeader(e, id, RecordLength, |data|);
      var (s, e2) := if |data| == 0 then (Done, e1) else Fill(e1, cs, aligned, id, data, 0);
      (aligned ==> s.Done?)
      && (s.Done? ==>
            Sized(e2, cs) && Stores(e2, cs, id, ids, data) && FreeChain(e2, F') && id !in F' && F' <= F
            && (forall i | 0 <= i < |e| && i !in F && i != id :: e2[i] == e[i]))
  {
    var e1 := SetHeader(e, id, RecordLength, |data|);
    FreeChainKept(e, e1, F);
    ids, F' := [id], F;
    if |data| == 0 {
      HoldsLast(e1, cs, id, data, 0);
    } else {
      var r := Fill(e1, cs, aligned, id, data, 0);
      assert NextId(e1, id) == 0;
      if aligned {
        FillSucceeds(e1, cs, id, data, 0, F);
      }
      if r.0.Done? {
        ids, F' := FillHolds(e1, cs, aligned, id, data, 0, F, r);
      }
    }
  }

  /**
   * RecordStorage.Create(dataProvider) on a store whose free list is a chain: on an aligned
   * stream it succeeds, and the record it returns holds exactly the provider's data for its
   * id, headed by a block with no previous block. The free list stays a chain without the
   * record's first block, and no block outside the free list changes.
   */
  lemma CreateStores(d: seq<Image>, cs: nat, aligned: bool, provider: uint32 -> seq<byte>, F: seq<nat>)
    returns (ids: seq<nat>, F': seq<nat>)
    requires 0 < cs < 0x8000_0000 && Sized(d, cs) && Provides(d, provider)
    requires |d| == 0 || FreeChain(d, F)
    ensures var (r, e) := CreateSpec(d, cs, aligned, provider);
      (aligned ==> r.Ok?)
      && (r.Ok? ==>
            Sized(e, cs) && Stores(e, cs, r.value, ids, provider(r.value as uint32)) && FreeChain(e, F')
            && r.value !in F' && (forall i | 0 <= i < |d| && i !in F :: e[i] == d[i]))
  {
    ids, F' := [], [0];
    var (a, e) := AllocateSpec(d, cs, aligned);
    var F1 := AllocateAny(d, cs, aligned, F);
    if a.Ok? {
      ids, F' := StoreFresh(e, cs, aligned, a.value, provider(a.value as uint32), F1);
    }
  }

  /**
   * The first half of Create(dataProvider): on an empty stream or one whose free list is a
   * chain, the allocation succeeds on an aligned stream and hands out a blank block off the
   * free chain it leaves, changing no block outside the free list.
   */
  lemma AllocateAny(d: seq<Image>, cs: nat, aligned: bool, F: seq<nat>) returns (F1: seq<nat>)
    requires |d| == 0 || FreeChain(d, F)
    ensures var (a, e) := AllocateSpec(d, cs, aligned);
      (aligned ==> a.Ok?)
      && (a.Ok? ==>
            Blank(e[a.value]) && FreeChain(e, F1) && a.value !in F1
            && (forall i | 0 <= i < |d| && i !in F :: i !in F1 && i != a.value && e[i] == d[i]))
  {
    var (a, e) := AllocateSpec(d, cs, aligned);
    F1 := [0];
    if |d| == 0 {
      if aligned {
        FirstAllocation(cs);
        assert IsChain(e, [0]);
      }
    } else {
      F1 := AllocateStep(d, cs, aligned, F);
    }
  }

  /** A record Create(dataProvider) stores is found again with the same bytes by Find. */
  lemma CreateThenFind(d: seq<Image>, cs: nat, aligned: bool, provider: uint32 -> seq<byte>, F: seq<nat>)
    requires 0 < cs < 0x8000_0000 && Sized(d, cs) && Provides(d, provider)
    requires |d| == 0 || FreeChain(d, F)
    ensures var (r, e) := CreateSpec(d, cs, aligned, provider);
      r.Ok? && |provider(r.value as uint32)| <= MaxRecordSize ==> FindSpec(e, cs, r.value) == Ok(Some(provider(r.value as uint32)))
  {
    var ids, F' := CreateStores(d, cs, aligned, provider, F);
    var (r, e) := CreateSpec(d, cs, aligned, provider);
    if r.Ok? && |provider(r.value as uint32)| <= MaxRecordSize {
      FindStored(e, cs, r.value, ids, provider(r.value as uint32));
    }
  }
}
