/**
 * RecordStore: the RecordStorage class itself, on the block images of RecordBlocks. Each method
 * follows the source step by step, reading and writing headers and content one call at a time,
 * and is proved to leave the store, and to return, what the RecordSpec function of the same
 * operation says.
 *
 * MarkAsReusable is the corrected one (it reads the block's NextBlockId before clearing it);
 * RecordDefects models it as written.
 */
module RecordStore {
  import opened Bytes
  import opened Errors
  import opened Storage
  import opened RecordBlocks
  import opened RecordSpec

  /** A pass of Update's loop, as UpdateStep gives it, is the first step of UpdateFrom. */
  lemma UpdateFromPass(d: seq<Image>, cs: nat, aligned: bool, blocks: seq<nat>, data: seq<byte>,
                       written: nat, used: nat, prev: Option<nat>, r: (Result<nat>, seq<nat>, seq<Image>))
    requires 0 < cs < 0x8000_0000 && Sized(d, cs) && written < |data| <= MaxArrayLength
    requires 0 < |d| && |d| + (|data| - written) < MaxBlocks
    requires forall k | 0 <= k < |blocks| :: blocks[k] < |d|
    requires prev.Some? ==> prev.value < |d|
    requires r == UpdateStep(d, cs, aligned, blocks, data, written, prev)
    ensures r.0.Err? ==> (Fail(r.0.error), r.2) == UpdateFrom(d, cs, aligned, blocks, data, written, used, prev)
    ensures r.0.Ok? ==> var written' := written + Min(cs, |data| - written);
                        0 < |r.2| && |r.2| + (|data| - written') < MaxBlocks && r.0.value < |r.2|
                        && (forall k | 0 <= k < |r.1| :: r.1[k] < |r.2|)
                        && UpdateFrom(d, cs, aligned, blocks, data, written, used, prev)
                           == UpdateFrom(r.2, cs, aligned, r.1, data, written', used + 1, Some(r.0.value))
  {
    assert UpdateFrom(d, cs, aligned, blocks, data, written, used, prev)
           == UpdateNext(d, cs, aligned, blocks, data, written, used, prev);
  }

  class RecordStorage {
    /** The blocks of the underlying BlockStorage, by id. */
    var disk: seq<Image>
    /** BlockStorage.BlockContentSize. */
    const contentSize: nat
    /** Whether the stream length is a whole number of blocks (else CreateNew throws). */
    const aligned: bool

    ghost predicate Valid()
      reads this
    {
      0 < contentSize < 0x8000_0000 && Sized(disk, contentSize) && |disk| < MaxBlocks
    }

    constructor Init(blockContentSize: nat, isAligned: bool, blocks: seq<Image>)
      requires 0 < blockContentSize < 0x8000_0000 && Sized(blocks, blockContentSize) && |blocks| < MaxBlocks
      ensures Valid() && contentSize == blockContentSize && aligned == isAligned && disk == blocks
    {
      contentSize, aligned, disk := blockContentSize, isAligned, blocks;
    }

    /**
     * new RecordStorage(blockStorage): refused with an ArgumentException when the block header
     * has less room than the five 8-byte header fields.
     */
    static method Open(blockHeaderSize: int, blockContentSize: nat, isAligned: bool, blocks: seq<Image>)
      returns (r: Result<RecordStorage>)
      requires 0 < blockContentSize < 0x8000_0000 && Sized(blocks, blockContentSize) && |blocks| < MaxBlocks
      ensures r.Err? <==> blockHeaderSize < TotalHeaderSize
      ensures r.Err? ==> r.error == Argument
      ensures r.Ok? ==> fresh(r.value) && r.value.Valid() && r.value.disk == blocks
                        && r.value.contentSize == blockContentSize && r.value.aligned == isAligned
    {
      if blockHeaderSize < TotalHeaderSize {
        return Err(Argument);
      }
      var s := new RecordStorage.Init(blockContentSize, isAligned, blocks);
      return Ok(s);
    }

    /** BlockStorage.CreateNew, on the images. */
    method CreateNew() returns (r: Result<nat>)
      requires Valid() && |disk| + 1 < MaxBlocks
      modifies this
      ensures (r, disk) == CreateNewSpec(old(disk), contentSize, aligned) && Valid()
    {
      if !aligned {
        return Err(DataMisaligned);
      }
      r := Ok(|disk|);
      disk := disk + [ZeroImage(contentSize)];
    }

    /** FindBlocks(recordId): the chain of blocks from recordId, following NextBlockId. */
    method FindBlocks(recordId: nat) returns (r: Result<seq<nat>>)
      requires Valid()
      modifies this
      ensures (r, disk) == FindBlocksSpec(old(disk), contentSize, aligned, recordId) && Valid()
    {
      if recordId == 0 && |disk| == 0 {
        var c := CreateNew();
        if c.Err? {
          return Err(c.error);
        }
        return Ok([0]);
      }
      var cur: nat, blocks: seq<nat>, fuel: nat := recordId, [], |disk|;
      ghost var goal := WalkFrom(disk, recordId, recordId > 0, [], |disk|);
      while true
        invariant WalkFrom(disk, cur, recordId > 0, blocks, fuel) == goal
        decreases fuel
      {
        if cur >= |disk| {
          return Err(Generic);
        }
        if recordId > 0 && disk[cur].isDeleted == 1 {
          return Err(InvalidData);
        }
        if fuel == 0 {
          return Err(NonTermination);
        }
        blocks := blocks + [cur];
        var next := NextId(disk, cur);
        if next == 0 {
          return Ok(blocks);
        }
        cur, fuel := next as nat, fuel - 1;
      }
    }

    /**
     * GetSpaceTrackerBlock: the last two blocks of the free chain, the second possibly absent,
     * and the blocks of the chain it disposes, the others.
     */
    method GetSpaceTrackerBlock() returns (r: Result<(nat, Option<nat>)>, disposed: seq<nat>)
      requires Valid()
      modifies this
      ensures (r, disk) == TrackerSpec(old(disk), contentSize, aligned) && Valid()
      ensures disposed == TrackerDisposed(old(disk), contentSize, aligned)
    {
      var f := FindBlocks(0);
      if f.Err? {
        return Err(f.error), [];
      }
      var blocks := f.value;
      var last := blocks[|blocks| - 1];
      var secondLast := if |blocks| > 1 then Some(blocks[|blocks| - 2]) else None;
      disposed := if |blocks| > 1 then blocks[..|blocks| - 2] else [];
      return Ok((last, secondLast)), disposed;
    }

    /** TryGetReusableBlock: detach the last block of the free chain unless it is block 0. */
    method TryGetReusableBlock() returns (r: Result<Option<nat>>)
      requires Valid()
      modifies this
      ensures (r, disk) == TryGetSpec(old(disk), contentSize, aligned) && Valid()
    {
      var t, _ := GetSpaceTrackerBlock();
      if t.Err? {
        return Err(t.error);
      }
      var (last, secondLast) := t.value;
      if last == 0 {
        return Ok(None);
      }
      disk := SetHeader(disk, secondLast.value, NextBlockId, 0);
      disk := SetHeader(disk, last, PreviousBlockId, 0);
      return Ok(Some(last));
    }

    /** AllocateBlock: a recycled block with all five headers zeroed, or a new block. */
    method AllocateBlock() returns (r: Result<nat>)
      requires Valid() && |disk| + 1 < MaxBlocks
      modifies this
      ensures (r, disk) == AllocateSpec(old(disk), contentSize, aligned) && Valid()
    {
      var t := TryGetReusableBlock();
      if t.Err? {
        return Err(t.error);
      }
      if t.value.None? {
        r := CreateNew();
        return;
      }
      var id := t.value.value;
      ghost var e := disk;
      disk := SetHeader(disk, id, BlockContentLength, 0);
      disk := SetHeader(disk, id, IsDeleted, 0);
      disk := SetHeader(disk, id, NextBlockId, 0);
      disk := SetHeader(disk, id, PreviousBlockId, 0);
      disk := SetHeader(disk, id, RecordLength, 0);
      assert disk == e[id := Recycled(e[id])];
      return Ok(id);
    }

    /**
     * MarkAsReusable(block, out nextBlockId): link block b after the last block of the free
     * chain and return the NextBlockId b had, read before it is cleared. `gone` says whether
     * b was one of the two blocks the using statements dispose on the way out.
     */
    method MarkAsReusable(b: nat) returns (r: Result<uint32>, gone: bool)
      requires Valid() && b < |disk|
      modifies this
      ensures (r, disk) == MarkSpec(old(disk), contentSize, aligned, b) && Valid()
      ensures gone <==> r.Ok? && Tracked(old(disk), contentSize, aligned, b)
    {
      var t, disposed := GetSpaceTrackerBlock();
      if t.Err? {
        return Err(t.error), false;
      }
      var (last, secondLast) := t.value;
      var next := NextId(disk, b);
      disk := SetHeader(disk, last, NextBlockId, b);
      if b in disposed {
        return Err(ObjectDisposed), false;
      }
      disk := SetHeader(disk, b, PreviousBlockId, last);
      disk := SetHeader(disk, b, NextBlockId, 0);
      return Ok(next), b == last || secondLast == Some(b);
    }

    /** Create(): a record of one new block, the stream grown by it. */
    method CreateEmpty() returns (r: Result<nat>)
      requires Valid() && |disk| + 1 < MaxBlocks
      modifies this
      ensures (r, disk) == CreateEmptySpec(old(disk), contentSize, aligned) && Valid()
    {
      r := CreateNew();
    }

    /** Create(nextBlockId, prevBlockId, recordLength, blockContentSize, isDeleted). */
    method CreateWithHeaders(next: int64, prev: int64, length: int64, contentLength: int64, deleted: int64)
      returns (r: Result<nat>)
      requires Valid() && |disk| + 1 < MaxBlocks
      modifies this
      ensures (r, disk) == CreateWithHeadersSpec(old(disk), contentSize, aligned, next, prev, length, contentLength, deleted)
      ensures Valid()
    {
      r := CreateNew();
      if r.Err? {
        return;
      }
      var id := r.value;
      ghost var e := disk;
      disk := SetHeader(disk, id, NextBlockId, next);
      disk := SetHeader(disk, id, PreviousBlockId, prev);
      disk := SetHeader(disk, id, RecordLength, length);
      disk := SetHeader(disk, id, BlockContentLength, contentLength);
      disk := SetHeader(disk, id, IsDeleted, deleted);
      assert disk == old(disk) + [Image(next, prev, length, contentLength, deleted, Zeros(contentSize))];
    }

    /**
     * The second half of a pass of Create's loop, once `written` bytes are stored and data
     * remains: allocate the next block and link it after block cur.
     */
    method LinkNext(cur: nat, data: seq<byte>, written: nat) returns (s: Status, next: nat)
      requires Valid() && cur < |disk| && written < |data| && |disk| + 1 + (|data| - written) < MaxBlocks
      modifies this
      ensures Valid()
      ensures s.Done? ==> next < |disk| && |disk| + (|data| - written) < MaxBlocks
                          && FillNext(old(disk), contentSize, aligned, cur, data, written)
                             == Fill(disk, contentSize, aligned, next, data, written)
      ensures s.Fail? ==> (s, disk) == FillNext(old(disk), contentSize, aligned, cur, data, written)
    {
      var a := AllocateBlock();
      if a.Err? {
        return Fail(a.error), 0;
      }
      next := a.value;
      disk := SetHeader(disk, next, PreviousBlockId, cur);
      disk := SetHeader(disk, cur, NextBlockId, next);
      s := Done;
    }

    /**
     * One pass of Create's loop on block cur with `written` bytes stored: write as much of the
     * rest as the block holds and, while data remains, go on to a newly linked block.
     */
    method FillPass(cur: nat, data: seq<byte>, written: nat) returns (s: Status, more: bool, next: nat, written': nat)
      requires Valid() && cur < |disk| && written < |data| && |disk| + (|data| - written) < MaxBlocks
      modifies this
      ensures Valid()
      ensures more ==> s.Done? && next < |disk| && written < written' < |data| && |disk| + (|data| - written') < MaxBlocks
                       && Fill(old(disk), contentSize, aligned, cur, data, written)
                          == Fill(disk, contentSize, aligned, next, data, written')
      ensures !more ==> (s, disk) == Fill(old(disk), contentSize, aligned, cur, data, written)
    {
      var n := Min(contentSize, |data| - written);
      disk := WriteContent(disk, cur, data[written..written + n]);
      disk := SetHeader(disk, cur, BlockContentLength, n);
      written' := written + n;
      if written' >= |data| {
        assert Fill(old(disk), contentSize, aligned, cur, data, written) == (Done, disk);
        return Done, false, 0, written';
      }
      assert Fill(old(disk), contentSize, aligned, cur, data, written) == FillNext(disk, contentSize, aligned, cur, data, written');
      s, next := LinkNext(cur, data, written');
      more := s.Done?;
    }

    /**
     * The loop of Create(dataProvider) from block cur with `written` bytes stored: write a
     * chunk into the block and, while data remains, allocate the next block and link the two.
     */
    method FillChain(cur: nat, data: seq<byte>, written: nat) returns (s: Status)
      requires Valid() && cur < |disk| && written < |data| && |disk| + (|data| - written) < MaxBlocks
      modifies this
      ensures (s, disk) == Fill(old(disk), contentSize, aligned, cur, data, written) && Valid()
    {
      var block: nat, done: nat := cur, written;
      ghost var goal := Fill(disk, contentSize, aligned, cur, data, written);
      while true
        invariant Valid() && block < |disk| && done < |data| && |disk| + (|data| - done) < MaxBlocks
        invariant Fill(disk, contentSize, aligned, block, data, done) == goal
        decreases |data| - done
      {
        var more;
        s, more, block, done := FillPass(block, data, done);
        if !more {
          return;
        }
      }
    }

    /**
     * Create(dataProvider): allocate the first block, ask the provider for the data of its id,
     * record the length and fill the chain.
     */
    method Create(provider: uint32 -> seq<byte>) returns (r: Result<nat>)
      requires Valid() && Provides(disk, provider)
      modifies this
      ensures (r, disk) == CreateSpec(old(disk), contentSize, aligned, provider) && Valid()
    {
      var a := AllocateBlock();
      if a.Err? {
        return Err(a.error);
      }
      var id := a.value;
      r := Store(id, provider(id as uint32));
    }

    /** The rest of Create once the provider has given the data of the new record `id`. */
    method Store(id: nat, data: seq<byte>) returns (r: Result<nat>)
      requires Valid() && id < |disk| && |data| <= MaxArrayLength && |disk| + |data| < MaxBlocks
      modifies this
      ensures (r, disk) == StoreSpec(old(disk), contentSize, aligned, id, data) && Valid()
    {
      disk := SetHeader(disk, id, RecordLength, |data|);
      if |data| == 0 {
        return Ok(id);
      }
      var s := FillChain(id, data, 0);
      r := if s.Fail? then Err(s.error) else Ok(id);
    }

    /** Create(data): the record whose provider always returns data. */
    method CreateFrom(data: seq<byte>) returns (r: Result<nat>)
      requires Valid() && Provides(disk, _ => data)
      modifies this
      ensures (r, disk) == CreateSpec(old(disk), contentSize, aligned, _ => data) && Valid()
    {
      r := Create(_ => data);
    }

    /**
     * Delete(recordId): recycle every block of the record in turn, flagging it deleted. A
     * missing first block is a null block handed to MarkAsReusable.
     */
    method Delete(recordId: nat) returns (s: Status)
      requires Valid()
      modifies this
      ensures (s, disk) == DeleteSpec(old(disk), contentSize, aligned, recordId) && Valid()
    {
      if recordId >= |disk| {
        var t, _ := GetSpaceTrackerBlock();
        return if t.Err? then Fail(t.error) else Fail(NullReference);
      }
      var cur: nat, fuel: nat := recordId, |disk|;
      ghost var goal := DeleteFrom(disk, contentSize, aligned, recordId, |disk|);
      ghost var size := |disk|;
      while true
        invariant Valid() && |disk| == size && cur < |disk|
        invariant DeleteFrom(disk, contentSize, aligned, cur, fuel) == goal
        decreases fuel
      {
        var m, gone := MarkAsReusable(cur);
        if m.Err? {
          return Fail(m.error);
        }
        if gone {
          // curBlock.SetHeader on a disposed block
          return Fail(ObjectDisposed);
        }
        disk := SetHeader(disk, cur, IsDeleted, 1);
        var next := m.value as nat;
        if next == 0 {
          return Done;
        }
        if next >= |disk| {
          return Fail(InvalidData);
        }
        if fuel == 0 {
          return Fail(NonTermination);
        }
        cur, fuel := next, fuel - 1;
      }
    }

    /**
     * Find(recordId): null for record 0, a missing block, a deleted block and a continuation
     * block; otherwise the record's bytes, gathered block by block.
     */
    method Find(recordId: nat) returns (r: Result<Option<seq<byte>>>)
      requires Valid()
      ensures r == FindSpec(disk, contentSize, recordId)
    {
      if recordId == 0 || recordId >= |disk| {
        return Ok(None);
      }
      if disk[recordId].isDeleted == 1 || disk[recordId].previousBlockId != 0 {
        return Ok(None);
      }
      var total := disk[recordId].recordLength;
      if total > MaxRecordSize {
        return Err(NotSupported);
      }
      if total < 0 {
        return Err(Overflow);
      }
      var bytes, bytesRead: nat, cur: nat, fuel: nat := Zeros(total as nat), 0, recordId, ReadFuel(|disk|, total as nat);
      ghost var goal := ReadFrom(disk, contentSize, recordId, bytes, 0, fuel);
      while true
        invariant cur < |disk| && ReadFrom(disk, contentSize, cur, bytes, bytesRead, fuel) == goal
        decreases fuel
      {
        var size := TruncateToInt32(disk[cur].blockContentLength);
        if size > contentSize {
          return Err(InvalidData);
        }
        if size < 0 || bytesRead + size > |bytes| {
          return Err(ArgumentOutOfRange);
        }
        bytes := Splice(bytes, bytesRead, disk[cur].content[..size]);
        bytesRead := bytesRead + size;
        var next := NextId(disk, cur) as nat;
        if next == 0 {
          return Ok(Some(bytes));
        }
        if next >= |disk| {
          return Err(InvalidData);
        }
        if fuel == 0 {
          return Err(NonTermination);
        }
        cur, fuel := next, fuel - 1;
      }
    }

    /** GetDeletedId: the ids of the free chain after block 0. */
    method GetDeletedId() returns (r: Result<seq<nat>>)
      requires Valid()
      modifies this
      ensures (r, disk) == DeletedIdsSpec(old(disk), contentSize, aligned) && Valid()
    {
      var f := FindBlocks(0);
      if f.Err? {
        return Err(f.error);
      }
      var blocks := f.value;
      var ids: seq<nat> := [];
      for i := 1 to |blocks|
        invariant ids == blocks[1..i]
      {
        ids := ids + [blocks[i]];
      }
      assert blocks[1..|blocks|] == blocks[1..];
      return Ok(ids);
    }

    /** The block Update writes the chunk numbered inx to: the chain's own, or a new one. */
    method PickTarget(blocks: seq<nat>, inx: nat) returns (r: Result<nat>)
      requires Valid() && 0 < |disk| && |disk| + 1 < MaxBlocks
      requires forall k | 0 <= k < |blocks| :: blocks[k] < |disk|
      modifies this
      ensures (r, disk) == UpdateTarget(old(disk), contentSize, aligned, blocks, inx) && Valid()
    {
      if inx < |blocks| {
        return Ok(blocks[inx]);
      }
      r := AllocateBlock();
    }

    /**
     * Update's writes to block target: link it after prev, write the chunk, set its length,
     * end the chain there and, on the first block, set the record length.
     */
    method WriteBlock(target: nat, prev: Option<nat>, data: seq<byte>, written: nat, n: nat)
      requires Valid() && target < |disk| && (prev.Some? ==> prev.value < |disk|)
      requires written + n <= |data| <= MaxArrayLength && n <= contentSize
      modifies this
      ensures disk == UpdateBlock(old(disk), contentSize, target, prev, data, written, n) && Valid()
    {
      if prev.Some? {
        disk := SetHeader(disk, prev.value, NextBlockId, target);
        disk := SetHeader(disk, target, PreviousBlockId, prev.value);
      }
      disk := WriteContent(disk, target, data[written..written + n]);
      disk := SetHeader(disk, target, BlockContentLength, n);
      disk := SetHeader(disk, target, NextBlockId, 0);
      if written == 0 {
        disk := SetHeader(disk, target, RecordLength, |data|);
      }
    }

    /**
     * One pass of Update's loop: pick the block for the chunk at `written`, allocating one past
     * the end of the chain, link it after prev and write the chunk, ending the chain there.
     */
    method UpdatePass(blocks: seq<nat>, data: seq<byte>, written: nat, prev: Option<nat>)
      returns (r: Result<nat>, blocks': seq<nat>)
      requires Valid() && written < |data| <= MaxArrayLength && 0 < |disk| && |disk| + 1 < MaxBlocks
      requires forall k | 0 <= k < |blocks| :: blocks[k] < |disk|
      requires prev.Some? ==> prev.value < |disk|
      modifies this
      ensures (r, blocks', disk) == UpdateStep(old(disk), contentSize, aligned, blocks, data, written, prev) && Valid()
    {
      var n := Min(contentSize, |data| - written);
      var inx := written / contentSize;
      r := PickTarget(blocks, inx);
      if r.Err? {
        return r, blocks;
      }
      blocks' := if inx < |blocks| then blocks else blocks + [r.value];
      WriteBlock(r.value, prev, data, written, n);
    }

    /**
     * The state of Update's loop: `written` bytes of data stored in `used` blocks of chain, the
     * last of them prev, and the rest of the loop ends in goal.
     */
    ghost predicate Resumes(chain: seq<nat>, data: seq<byte>, written: nat, used: nat, prev: Option<nat>,
                            goal: (Status, seq<Image>))
      reads this
    {
      Valid() && written <= |data| <= MaxArrayLength && 0 < |disk| && |disk| + (|data| - written) < MaxBlocks
      && (forall k | 0 <= k < |chain| :: chain[k] < |disk|)
      && (prev.Some? ==> prev.value < |disk|)
      && UpdateFrom(disk, contentSize, aligned, chain, data, written, used, prev) == goal
    }

    /** The loop of Update over the record's chain `blocks`, then the delete of what is left. */
    method UpdateChain(blocks: seq<nat>, data: seq<byte>) returns (s: Status)
      requires Valid() && |data| <= MaxArrayLength && 0 < |disk| && |disk| + |data| < MaxBlocks
      requires forall k | 0 <= k < |blocks| :: blocks[k] < |disk|
      modifies this
      ensures (s, disk) == UpdateFrom(old(disk), contentSize, aligned, blocks, data, 0, 0, None) && Valid()
    {
      var chain: seq<nat>, written: nat, used: nat, prev: Option<nat> := blocks, 0, 0, None;
      ghost var goal := UpdateFrom(disk, contentSize, aligned, blocks, data, 0, 0, None);
      while written < |data|
        invariant Resumes(chain, data, written, used, prev, goal)
        decreases |data| - written
      {
        var a, chain' := ChainPass(chain, data, written, used, prev, goal);
        if a.Err? {
          return Fail(a.error);
        }
        chain, used, written, prev := chain', used + 1, written + Min(contentSize, |data| - written), Some(a.value);
      }
      s := DeleteUnused(chain, data, used, prev);
    }

    /** UpdatePass, and where it leaves the rest of Update's loop. */
    method ChainPass(chain: seq<nat>, data: seq<byte>, written: nat, used: nat, prev: Option<nat>,
                     ghost goal: (Status, seq<Image>))
      returns (r: Result<nat>, chain': seq<nat>)
      requires Resumes(chain, data, written, used, prev, goal) && written < |data|
      modifies this
      ensures r.Err? ==> (Fail(r.error), disk) == goal && Valid()
      ensures r.Ok? ==> Resumes(chain', data, written + Min(contentSize, |data| - written), used + 1, Some(r.value), goal)
    {
      ghost var before := disk;
      r, chain' := UpdatePass(chain, data, written, prev);
      UpdateFromPass(before, contentSize, aligned, chain, data, written, used, prev, (r, chain', disk));
    }

    /** The end of Update: the first block of the old chain that no chunk used is deleted. */
    method DeleteUnused(chain: seq<nat>, data: seq<byte>, used: nat, prev: Option<nat>) returns (s: Status)
      requires Valid() && |data| <= MaxArrayLength && 0 < |disk|
      requires forall k | 0 <= k < |chain| :: chain[k] < |disk|
      requires prev.Some? ==> prev.value < |disk|
      modifies this
      ensures (s, disk) == UpdateFrom(old(disk), contentSize, aligned, chain, data, |data|, used, prev) && Valid()
    {
      if used < |chain| {
        s := Delete(chain[used]);
        return;
      }
      return Done;
    }

    /**
     * Update(recordId, data): write data over the record's chain in order, allocating past its
     * end, then delete what is left of the old chain.
     */
    method Update(recordId: nat, data: seq<byte>) returns (s: Status)
      requires Valid() && |data| <= MaxArrayLength && |disk| + |data| + 1 < MaxBlocks
      modifies this
      ensures (s, disk) == UpdateSpec(old(disk), contentSize, aligned, recordId, data) && Valid()
    {
      var f := FindBlocks(recordId);
      if f.Err? {
        return Fail(f.error);
      }
      s := UpdateChain(f.value, data);
    }
  }
}
