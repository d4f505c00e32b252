/**
 * RecordSpec: what each RecordStorage operation does to the store, as functions of the block
 * images before it. Each returns the operation's outcome together with the images after it,
 * because several of them change the store even when they end in an exception (block 0 is
 * created on first use, a loop may have written some blocks before it throws).
 *
 * The store is `d`, the sequence of block images (block id = index); `cs` is the block content
 * size and `aligned` whether the stream length is a whole number of blocks, without which
 * BlockStorage.CreateNew throws.
 */
module RecordSpec {
  import opened Bytes
  import opened Errors
  import opened Storage
  import opened RecordBlocks

  /** RecordStorage.MaxRecordSize: Find refuses records longer than 1 GiB. */
  const MaxRecordSize := 1024 * 1024 * 1024

  /** Int32.MaxValue, the largest length of a .NET byte array. */
  const MaxArrayLength := 0x7FFF_FFFF

  /** Every block holds cs content bytes past its header. */
  ghost predicate Sized(d: seq<Image>, cs: nat)
  {
    forall i | 0 <= i < |d| :: |d[i].content| == cs
  }

  /** Block.SetHeader on block id. */
  function SetHeader(d: seq<Image>, id: nat, field: nat, value: int64): (e: seq<Image>)
    requires id < |d| && field < CachedHeaderCount
    ensures |e| == |d|
  {
    d[id := d[id].WithHeader(field, value)]
  }

  /** Block.Write(bytes, 0, 0, |bytes|) on block id: the first |bytes| content bytes replaced. */
  function WriteContent(d: seq<Image>, id: nat, bytes: seq<byte>): (e: seq<Image>)
    requires id < |d| && |bytes| <= |d[id].content|
    ensures |e| == |d|
  {
    d[id := d[id].(content := Splice(d[id].content, 0, bytes))]
  }

  /** A recycled block as AllocateBlock leaves it: all five headers zero, the content kept. */
  function Recycled(b: Image): Image
  {
    b.(nextBlockId := 0, previousBlockId := 0, recordLength := 0, blockContentLength := 0, isDeleted := 0)
  }

  /** BlockStorage.CreateNew: a zeroed block appended, or DataMisaligned on a ragged stream. */
  function CreateNewSpec(d: seq<Image>, cs: nat, aligned: bool): (r: (Result<nat>, seq<Image>))
    ensures r.0.Ok? <==> aligned
    ensures r.0.Ok? ==> r.0.value == |d| && r.1 == d + [ZeroImage(cs)]
    ensures r.0.Err? ==> r.0.error == DataMisaligned && r.1 == d
  {
    var id: nat := |d|;
    if aligned then (Ok(id), d + [ZeroImage(cs)]) else (Err(DataMisaligned), d)
  }

  /**
   * RecordStorage.FindBlocks(id): the chain from block id. Looking for record 0 on an empty
   * store first creates block 0; other records must not meet a block flagged deleted.
   */
  ghost function FindBlocksSpec(d: seq<Image>, cs: nat, aligned: bool, id: nat): (r: (Result<seq<nat>>, seq<Image>))
    ensures (|d| > 0 || id != 0 ==> r.1 == d) && |r.1| <= |d| + 1 && (Sized(d, cs) ==> Sized(r.1, cs))
    ensures r.0.Ok? ==> |r.0.value| > 0 && r.0.value[0] == id
    ensures r.0.Ok? ==> forall k | 0 <= k < |r.0.value| :: r.0.value[k] < |r.1|
  {
    if id == 0 && |d| == 0 then
      var (c, e) := CreateNewSpec(d, cs, aligned);
      if c.Err? then (Err(c.error), e) else (Ok([0]), e)
    else (WalkFrom(d, id, id > 0, [], |d|), d)
  }

  /**
   * RecordStorage.GetSpaceTrackerBlock: the last block of the free chain and, when the chain
   * has more than block 0, the block before it.
   */
  ghost function TrackerSpec(d: seq<Image>, cs: nat, aligned: bool): (r: (Result<(nat, Option<nat>)>, seq<Image>))
    ensures (|d| > 0 ==> r.1 == d) && |r.1| <= |d| + 1 && (Sized(d, cs) ==> Sized(r.1, cs))
    ensures r.0.Ok? ==> r.0.value.0 < |r.1| && (r.0.value.1.Some? ==> r.0.value.1.value < |r.1|)
    ensures r.0.Ok? && r.0.value.1.None? ==> r.0.value.0 == 0
  {
    var (f, e) := FindBlocksSpec(d, cs, aligned, 0);
    if f.Err? then (Err(f.error), e)
    else
      // FindBlocks never returns an empty list, so its empty-list check never throws.
      var ids := f.value;
      (Ok((ids[|ids| - 1], if |ids| > 1 then Some(ids[|ids| - 2]) else None)), e)
  }

  /**
   * RecordStorage.TryGetReusableBlock: detach the last block of the free chain, unless that is
   * block 0; None is the `false` return.
   */
  ghost function TryGetSpec(d: seq<Image>, cs: nat, aligned: bool): (r: (Result<Option<nat>>, seq<Image>))
    ensures (|d| > 0 ==> |r.1| == |d|) && |r.1| <= |d| + 1 && (Sized(d, cs) ==> Sized(r.1, cs))
    ensures r.0.Ok? && r.0.value.Some? ==> 0 < r.0.value.value < |r.1|
  {
    var (t, e) := TrackerSpec(d, cs, aligned);
    if t.Err? then (Err(t.error), e)
    else
      var (last, second) := t.value;
      if last == 0 then (Ok(None), e)
      else
        // A free chain that ends elsewhere than block 0 has a block before its last.
        var e1 := SetHeader(e, second.value, NextBlockId, 0);
        (Ok(Some(last)), SetHeader(e1, last, PreviousBlockId, 0))
  }

  /**
   * RecordStorage.AllocateBlock: the block TryGetReusableBlock detached, with its headers
   * zeroed, or a new block.
   */
  ghost function AllocateSpec(d: seq<Image>, cs: nat, aligned: bool): (r: (Result<nat>, seq<Image>))
    ensures |d| <= |r.1| <= |d| + 2 && (|d| > 0 ==> |r.1| <= |d| + 1) && (Sized(d, cs) ==> Sized(r.1, cs))
    ensures r.0.Ok? ==> 0 < r.0.value < |r.1|
  {
    var (t, e) := TryGetSpec(d, cs, aligned);
    if t.Err? then (Err(t.error), e)
    else if t.value.None? then CreateNewSpec(e, cs, aligned)
    else (Ok(t.value.value), e[t.value.value := Recycled(e[t.value.value])])
  }

  /**
   * The blocks GetSpaceTrackerBlock disposes before it returns: every block of the free chain
   * but the last two, which it hands back. BlockStorage.Find returns a block that is already
   * open as the same object, so a caller holding one of these blocks sees it disposed.
   */
  ghost function TrackerDisposed(d: seq<Image>, cs: nat, aligned: bool): (r: seq<nat>)
    ensures FindBlocksSpec(d, cs, aligned, 0).0.Err? ==> r == []
    ensures forall k | 0 <= k < |r| :: r[k] in FindBlocksSpec(d, cs, aligned, 0).0.value
  {
    var f := FindBlocksSpec(d, cs, aligned, 0).0;
    if f.Err? || |f.value| < 2 then [] else f.value[..|f.value| - 2]
  }

  /**
   * Whether block b is one of the two blocks GetSpaceTrackerBlock hands to MarkAsReusable,
   * whose using statements dispose them, and b with them, when it returns.
   */
  ghost predicate Tracked(d: seq<Image>, cs: nat, aligned: bool, b: nat)
  {
    var t := TrackerSpec(d, cs, aligned).0;
    t.Ok? && (t.value.0 == b || t.value.1 == Some(b))
  }

  /**
   * RecordStorage.MarkAsReusable(block, out nextBlockId), with its order of clearing and reading
   * corrected: block b is appended after the last block of the free chain, its NextBlockId is
   * cleared, and the NextBlockId it had before is returned. When GetSpaceTrackerBlock has
   * disposed b, the last block is linked to b and the first SetHeader on b throws.
   */
  ghost function MarkSpec(d: seq<Image>, cs: nat, aligned: bool, b: nat): (r: (Result<uint32>, seq<Image>))
    requires b < |d| < MaxBlocks
    ensures |r.1| == |d| && (Sized(d, cs) ==> Sized(r.1, cs))
  {
    var (t, e) := TrackerSpec(d, cs, aligned);
    if t.Err? then (Err(t.error), e)
    else
        var last := t.value.0;
        var next := NextId(e, b);
        var e1 := SetHeader(e, last, NextBlockId, b);
        if b in TrackerDisposed(d, cs, aligned) then (Err(ObjectDisposed), e1)
        else
          var e2 := SetHeader(e1, b, PreviousBlockId, last);
          (Ok(next), SetHeader(e2, b, NextBlockId, 0))
  }

  /**
   * The loop of RecordStorage.Delete from block cur: recycle the block, flag it deleted and go
   * on to the block it named. A block already on the free chain is disposed by MarkAsReusable,
   * and Delete throws ObjectDisposedException. `fuel` bounds the number of blocks visited
   * after cur.
   */
  ghost function DeleteFrom(d: seq<Image>, cs: nat, aligned: bool, cur: nat, fuel: nat): (r: (Status, seq<Image>))
    requires cur < |d| < MaxBlocks
    ensures |r.1| == |d| && (Sized(d, cs) ==> Sized(r.1, cs))
    decreases fuel, 1
  {
    var (m, e) := MarkSpec(d, cs, aligned, cur);
    if m.Err? then (Fail(m.error), e)
    // MarkAsReusable disposed cur on its way out, so flagging it deleted throws.
    else if Tracked(d, cs, aligned, cur) then (Fail(ObjectDisposed), e)
    else DeleteNext(SetHeader(e, cur, IsDeleted, 1), cs, aligned, m.value, fuel)
  }

  /** The end of a pass of Delete's loop: stop at block id 0, or go on to block next. */
  ghost function DeleteNext(d: seq<Image>, cs: nat, aligned: bool, next: nat, fuel: nat): (r: (Status, seq<Image>))
    requires |d| < MaxBlocks
    ensures |r.1| == |d| && (Sized(d, cs) ==> Sized(r.1, cs))
    decreases fuel, 0
  {
    if next == 0 then (Done, d)
    else if next >= |d| then (Fail(InvalidData), d)
    else if fuel == 0 then (Fail(NonTermination), d)
    else DeleteFrom(d, cs, aligned, next, fuel - 1)
  }

  /**
   * RecordStorage.Delete(id). When there is no block id, MarkAsReusable is handed null: it
   * still looks up the free chain, then dereferences the null block.
   */
  ghost function DeleteSpec(d: seq<Image>, cs: nat, aligned: bool, id: nat): (r: (Status, seq<Image>))
    requires |d| < MaxBlocks
    ensures |d| <= |r.1| <= |d| + 1 && (Sized(d, cs) ==> Sized(r.1, cs))
  {
    if id < |d| then DeleteFrom(d, cs, aligned, id, |d|)
    else
      var (t, e) := TrackerSpec(d, cs, aligned);
      (if t.Err? then Fail(t.error) else Fail(NullReference), e)
  }

  /**
   * The loop of RecordStorage.Find from block cur, with `bytesRead` bytes of `buffer` filled:
   * copy the block's BlockContentLength bytes, then follow NextBlockId. `fuel` bounds the number
   * of blocks read after the first.
   */
  ghost function ReadFrom(d: seq<Image>, cs: nat, cur: nat, buffer: seq<byte>, bytesRead: nat, fuel: nat): Result<seq<byte>>
    requires cur < |d| && Sized(d, cs)
    decreases fuel
  {
    var size := TruncateToInt32(d[cur].blockContentLength);
    if size > cs then Err(InvalidData)
    else if size < 0 || bytesRead + size > |buffer| then Err(ArgumentOutOfRange)
    else
      var filled := Splice(buffer, bytesRead, d[cur].content[..size]);
      var next := NextId(d, cur);
      if next == 0 then Ok(filled)
      else if next >= |d| then Err(InvalidData)
      else if fuel == 0 then Err(NonTermination)
      else ReadFrom(d, cs, next, filled, bytesRead + size, fuel - 1)
  }

  /**
   * The number of blocks Find may read of a record of `total` bytes before the model calls its
   * loop endless: a loop that ends reads at most `total` blocks that add bytes, and between two
   * of them at most |d| blocks that add none (more would revisit a block in the same state).
   */
  function ReadFuel(blocks: nat, total: nat): nat
  {
    (blocks + 1) * (total + 1)
  }

  /**
   * RecordStorage.Find(id): None for record 0, a missing block, a block flagged deleted and a
   * block that continues another record; otherwise the bytes its chain holds.
   */
  ghost function FindSpec(d: seq<Image>, cs: nat, id: nat): Result<Option<seq<byte>>>
    requires Sized(d, cs)
  {
    if id == 0 || id >= |d| then Ok(None)
    else if d[id].isDeleted == 1 || d[id].previousBlockId != 0 then Ok(None)
    else
      var total := d[id].recordLength;
      if total > MaxRecordSize then Err(NotSupported)
      // new byte[total] with a negative total
      else if total < 0 then Err(Overflow)
      else
        match ReadFrom(d, cs, id, Zeros(total), 0, ReadFuel(|d|, total))
        case Ok(bytes) => Ok(Some(bytes))
        case Err(e) => Err(e)
  }

  /** RecordStorage.GetDeletedId: the free chain after block 0. */
  ghost function DeletedIdsSpec(d: seq<Image>, cs: nat, aligned: bool): (r: (Result<seq<nat>>, seq<Image>))
  {
    var (f, e) := FindBlocksSpec(d, cs, aligned, 0);
    if f.Err? then (Err(f.error), e) else (Ok(f.value[1..]), e)
  }

  /** RecordStorage.Create(): a new block, taken from the stream and not from the free chain. */
  function CreateEmptySpec(d: seq<Image>, cs: nat, aligned: bool): (r: (Result<nat>, seq<Image>))
  {
    CreateNewSpec(d, cs, aligned)
  }

  /** RecordStorage.Create with five header values: a new block carrying them. */
  function CreateWithHeadersSpec(d: seq<Image>, cs: nat, aligned: bool, next: int64, prev: int64,
                                 length: int64, contentLength: int64, deleted: int64): (r: (Result<nat>, seq<Image>))
  {
    var id: nat := |d|;
    if !aligned then (Err(DataMisaligned), d)
    else (Ok(id), d + [Image(next, prev, length, contentLength, deleted, Zeros(cs))])
  }

  /**
   * The loop of RecordStorage.Create(dataProvider) from block cur, with `written` bytes of data
   * stored: fill the block, and while data remains, allocate the next block and link the two.
   */
  ghost function Fill(d: seq<Image>, cs: nat, aligned: bool, cur: nat, data: seq<byte>, written: nat): (r: (Status, seq<Image>))
    requires 0 < cs < 0x8000_0000 && Sized(d, cs) && cur < |d| && written < |data|
    requires |d| + (|data| - written) < MaxBlocks
    ensures |d| <= |r.1| <= |d| + (|data| - written) && Sized(r.1, cs)
    decreases |data| - written, 0
  {
    var n := Min(cs, |data| - written);
    var e1 := WriteContent(d, cur, data[written..written + n]);
    var e2 := SetHeader(e1, cur, BlockContentLength, n);
    if written + n >= |data| then (Done, e2)
    else FillNext(e2, cs, aligned, cur, data, written + n)
  }

  /** The second half of a pass of Fill's loop: allocate the next block, link it after cur, go on. */
  ghost function FillNext(d: seq<Image>, cs: nat, aligned: bool, cur: nat, data: seq<byte>, written: nat): (r: (Status, seq<Image>))
    requires 0 < cs < 0x8000_0000 && Sized(d, cs) && cur < |d| && written < |data|
    requires |d| + 1 + (|data| - written) < MaxBlocks
    ensures |d| <= |r.1| <= |d| + 1 + (|data| - written) && Sized(r.1, cs)
    decreases |data| - written, 1
  {
    var (a, e3) := AllocateSpec(d, cs, aligned);
    if a.Err? then (Fail(a.error), e3)
    else
      var next := a.value;
      var e4 := SetHeader(e3, next, PreviousBlockId, cur);
      var e5 := SetHeader(e4, cur, NextBlockId, next);
      Fill(e5, cs, aligned, next, data, written)
  }


  /** Every data provider the source can call returns an array .NET can allocate. */
  ghost predicate Provides(d: seq<Image>, provider: uint32 -> seq<byte>)
  {
    |d| + 2 < MaxBlocks
    && forall id: uint32 :: |provider(id)| <= MaxArrayLength && |d| + |provider(id)| + 2 < MaxBlocks
  }

  /**
   * What Create does once the provider has given the data of the new record `id`: record the
   * length in the first block and, for data that is not empty, fill the chain from there.
   */
  ghost function StoreSpec(d: seq<Image>, cs: nat, aligned: bool, id: nat, data: seq<byte>): (r: (Result<nat>, seq<Image>))
    requires 0 < cs < 0x8000_0000 && Sized(d, cs) && id < |d| && |data| <= MaxArrayLength && |d| + |data| < MaxBlocks
    ensures Sized(r.1, cs) && |d| <= |r.1| <= |d| + |data|
    ensures r.0.Ok? ==> r.0.value == id
  {
    var e1 := SetHeader(d, id, RecordLength, |data|);
    if |data| == 0 then (Ok(id), e1)
    else
      var (s, e2) := Fill(e1, cs, aligned, id, data, 0);
      (if s.Fail? then Err(s.error) else Ok(id), e2)
  }

  /**
   * RecordStorage.Create(dataProvider): allocate the first block, ask the provider for the
   * data of that id, record its length and fill the chain.
   */
  ghost function CreateSpec(d: seq<Image>, cs: nat, aligned: bool, provider: uint32 -> seq<byte>): (r: (Result<nat>, seq<Image>))
    requires 0 < cs < 0x8000_0000 && Sized(d, cs) && Provides(d, provider)
    ensures Sized(r.1, cs) && |d| <= |r.1|
    ensures r.0.Ok? ==> 0 < r.0.value < |d| + 2 && r.0.value < |r.1| <= |d| + |provider(r.0.value as uint32)| + 2
  {
    var (a, e) := AllocateSpec(d, cs, aligned);
    if a.Err? then (Err(a.error), e)
    else StoreSpec(e, cs, aligned, a.value, provider(a.value))
  }

  /** The block Update writes chunk `inx` to: the chain's own, or a newly allocated one. */
  ghost function UpdateTarget(d: seq<Image>, cs: nat, aligned: bool, blocks: seq<nat>, inx: nat): (r: (Result<nat>, seq<Image>))
    requires forall k | 0 <= k < |blocks| :: blocks[k] < |d|
    ensures |d| <= |r.1| && (|d| > 0 ==> |r.1| <= |d| + 1) && (Sized(d, cs) ==> Sized(r.1, cs))
    ensures r.0.Ok? ==> r.0.value < |r.1|
  {
    if inx < |blocks| then (Ok(blocks[inx]), d) else AllocateSpec(d, cs, aligned)
  }

  /**
   * One pass of Update's loop on block `target`: link it after `prev`, write the chunk, set its
   * BlockContentLength, end the chain there and, on the first block, set RecordLength.
   */
  function UpdateBlock(d: seq<Image>, cs: nat, target: nat, prev: Option<nat>, data: seq<byte>, written: nat, n: nat): (e: seq<Image>)
    requires target < |d| < MaxBlocks && (prev.Some? ==> prev.value < |d|)
    requires written + n <= |data| <= MaxArrayLength && n <= |d[target].content|
    ensures |e| == |d| && (forall i | 0 <= i < |d| && i != target && (prev.None? || i != prev.value) :: e[i] == d[i])
    ensures Sized(d, cs) ==> Sized(e, cs)
  {
    var e2 := if prev.Some? then SetHeader(SetHeader(d, prev.value, NextBlockId, target), target, PreviousBlockId, prev.value)
              else d;
    var e3 := WriteContent(e2, target, data[written..written + n]);
    var e4 := SetHeader(e3, target, BlockContentLength, n);
    var e5 := SetHeader(e4, target, NextBlockId, 0);
    if written == 0 then SetHeader(e5, target, RecordLength, |data|) else e5
  }

  /**
   * One whole pass of Update's loop: pick the block for the next chunk, extending the chain
   * when it is exhausted, and write that chunk to it. Returns the block written and the chain.
   */
  ghost function UpdateStep(d: seq<Image>, cs: nat, aligned: bool, blocks: seq<nat>, data: seq<byte>,
                            written: nat, prev: Option<nat>): (r: (Result<nat>, seq<nat>, seq<Image>))
    requires 0 < cs < 0x8000_0000 && Sized(d, cs) && written < |data| <= MaxArrayLength
    requires 0 < |d| < MaxBlocks - 1
    requires forall k | 0 <= k < |blocks| :: blocks[k] < |d|
    requires prev.Some? ==> prev.value < |d|
    ensures |d| <= |r.2| <= |d| + 1 && Sized(r.2, cs)
    ensures r.0.Ok? ==> r.0.value < |r.2| && forall k | 0 <= k < |r.1| :: r.1[k] < |r.2|
  {
    var n := Min(cs, |data| - written);
    var (a, e0) := UpdateTarget(d, cs, aligned, blocks, written / cs);
    if a.Err? then (Err(a.error), blocks, e0)
    else
      var target := a.value;
      var blocks' := if written / cs < |blocks| then blocks else blocks + [target];
      (Ok(target), blocks', UpdateBlock(e0, cs, target, prev, data, written, n))
  }

  /**
   * The loop of RecordStorage.Update over the chain `blocks` of the record, with `written` bytes
   * of data stored in `used` blocks, the last of them `prev`. Past the end of the chain it
   * allocates; at the end it deletes what is left of the old chain.
   */
  ghost function UpdateFrom(d: seq<Image>, cs: nat, aligned: bool, blocks: seq<nat>, data: seq<byte>,
                            written: nat, used: nat, prev: Option<nat>): (r: (Status, seq<Image>))
    requires 0 < cs < 0x8000_0000 && Sized(d, cs) && written <= |data| <= MaxArrayLength
    requires 0 < |d| && |d| + (|data| - written) < MaxBlocks
    requires forall k | 0 <= k < |blocks| :: blocks[k] < |d|
    requires prev.Some? ==> prev.value < |d|
    ensures |d| <= |r.1| <= |d| + (|data| - written) + 1 && Sized(r.1, cs)
    decreases |data| - written, 1
  {
    if written < |data| then UpdateNext(d, cs, aligned, blocks, data, written, used, prev)
    else if used < |blocks| then DeleteSpec(d, cs, aligned, blocks[used])
    else (Done, d)
  }

  /** A pass of Update's loop, then the rest of the loop. */
  ghost function UpdateNext(d: seq<Image>, cs: nat, aligned: bool, blocks: seq<nat>, data: seq<byte>,
                            written: nat, used: nat, prev: Option<nat>): (r: (Status, seq<Image>))
    requires 0 < cs < 0x8000_0000 && Sized(d, cs) && written < |data| <= MaxArrayLength
    requires 0 < |d| && |d| + (|data| - written) < MaxBlocks
    requires forall k | 0 <= k < |blocks| :: blocks[k] < |d|
    requires prev.Some? ==> prev.value < |d|
    ensures |d| <= |r.1| <= |d| + (|data| - written) + 1 && Sized(r.1, cs)
    decreases |data| - written, 0
  {
    var (a, blocks', e) := UpdateStep(d, cs, aligned, blocks, data, written, prev);
    if a.Err? then (Fail(a.error), e)
    else UpdateFrom(e, cs, aligned, blocks', data, written + Min(cs, |data| - written), used + 1, Some(a.value))
  }

  /** RecordStorage.Update(id, data): rewrite the record's chain with data. */
  ghost function UpdateSpec(d: seq<Image>, cs: nat, aligned: bool, id: nat, data: seq<byte>): (r: (Status, seq<Image>))
    requires 0 < cs < 0x8000_0000 && Sized(d, cs) && |data| <= MaxArrayLength && |d| + |data| + 1 < MaxBlocks
    ensures |d| <= |r.1| <= |d| + |data| + 2 && Sized(r.1, cs)
  {
    var (f, e) := FindBlocksSpec(d, cs, aligned, id);
    if f.Err? then (Fail(f.error), e)
    else UpdateFrom(e, cs, aligned, f.value, data, 0, 0, None)
  }
}
