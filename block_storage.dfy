/**
 * Storage: the block layer. A BlockStorage cuts a stream into blocks of blockSize bytes; block
 * `id` occupies [id * blockSize, (id + 1) * blockSize). A Block keeps its first disk sector in
 * memory: header writes, and content writes that land in that sector, change only the
 * in-memory copy until the block is disposed, while the rest of the block is read from and
 * written to the stream directly.
 *
 * What a block holds, as its readers see it, is its View: the in-memory first sector followed
 * by the rest of the block from the stream. Every block operation is specified against the
 * View, and disposing a block leaves its View in the stream.
 */
module Storage {
  import opened Bytes
  import opened Errors
  import opened BufferHelper

  const MaxDiskSectorSize := 4096
  const MinDiskSectorSize := 128

  /** The header fields every block reserves, by index; each field is eight bytes. */
  const NextBlockId := 0
  const PreviousBlockId := 1
  const RecordLength := 2
  const BlockContentLength := 3
  const IsDeleted := 4
  const TotalHeaderSize := 8 * 5

  /** The number of header fields a block caches. */
  const CachedHeaderCount := 5

  function Min(a: int, b: int): int { if a < b then a else b }
  function Max(a: int, b: int): int { if a < b then b else a }

  /**
   * The bytes of the block of `size` bytes at `offset` in stream `s` when its first |first|
   * bytes are replaced by the in-memory sector `first`.
   */
  function BlockBytes(first: seq<byte>, s: seq<byte>, offset: nat, size: nat): (r: seq<byte>)
    requires |first| <= size && offset + size <= |s|
    ensures |r| == size
  {
    seq(size, i requires 0 <= i < size => if i < |first| then first[i] else s[offset + i])
  }

  /** Inside the sector the block reads the sector. */
  lemma BlockBytesHead(first: seq<byte>, s: seq<byte>, offset: nat, size: nat, lo: nat, hi: nat)
    requires |first| <= size && offset + size <= |s| && lo <= hi <= |first|
    ensures BlockBytes(first, s, offset, size)[lo..hi] == first[lo..hi]
  {
    var r := BlockBytes(first, s, offset, size);
    assert forall i | lo <= i < hi :: r[i] == first[i];
  }

  /** Past the sector the block reads the stream. */
  lemma BlockBytesTail(first: seq<byte>, s: seq<byte>, offset: nat, size: nat, lo: nat, hi: nat)
    requires |first| <= size && offset + size <= |s| && |first| <= lo <= hi <= size
    ensures BlockBytes(first, s, offset, size)[lo..hi] == s[offset + lo..offset + hi]
  {
    var r := BlockBytes(first, s, offset, size);
    assert forall i | lo <= i < hi :: r[i] == s[offset + i];
  }

  /** A write into the sector is a write into the block. */
  lemma BlockBytesSectorWrite(first: seq<byte>, s: seq<byte>, offset: nat, size: nat, at: nat, bytes: seq<byte>)
    requires |first| <= size && offset + size <= |s| && at + |bytes| <= |first|
    ensures BlockBytes(Splice(first, at, bytes), s, offset, size)
         == Splice(BlockBytes(first, s, offset, size), at, bytes)
  {
    var l := BlockBytes(Splice(first, at, bytes), s, offset, size);
    var r := Splice(BlockBytes(first, s, offset, size), at, bytes);
    assert forall i | 0 <= i < size :: l[i] == r[i];
  }

  /** A write into the stream past the sector is a write into the block. */
  lemma BlockBytesStreamWrite(first: seq<byte>, s: seq<byte>, offset: nat, size: nat, at: nat, bytes: seq<byte>)
    requires |first| <= size && offset + size <= |s|
    requires offset + |first| <= at && at + |bytes| <= offset + size
    ensures BlockBytes(first, Splice(s, at, bytes), offset, size)
         == Splice(BlockBytes(first, s, offset, size), at - offset, bytes)
  {
    var l := BlockBytes(first, Splice(s, at, bytes), offset, size);
    var r := Splice(BlockBytes(first, s, offset, size), at - offset, bytes);
    assert forall i | 0 <= i < size :: l[i] == r[i];
  }

  /** A sector equal to the stream's bytes changes nothing. */
  lemma BlockBytesClean(first: seq<byte>, s: seq<byte>, offset: nat, size: nat)
    requires |first| <= size && offset + size <= |s| && first == s[offset..offset + |first|]
    ensures BlockBytes(first, s, offset, size) == s[offset..offset + size]
  {
    var r := BlockBytes(first, s, offset, size);
    assert forall i | 0 <= i < size :: r[i] == s[offset + i];
  }

  /** Writing the sector back to the stream leaves the block's bytes in the stream. */
  lemma BlockBytesFlushed(first: seq<byte>, s: seq<byte>, offset: nat, size: nat)
    requires |first| <= size && offset + size <= |s|
    ensures Splice(s, offset, first)[offset..offset + size] == BlockBytes(first, s, offset, size)
  {
    var l := Splice(s, offset, first)[offset..offset + size];
    var r := BlockBytes(first, s, offset, size);
    assert forall i | 0 <= i < size :: l[i] == r[i];
  }

  /**
   * The loop of Block.Read past the first sector: Stream.Read of `length` bytes from position
   * `position` into `buffer`, at most `chunk` bytes at a time; the stream is taken to deliver
   * every byte it is asked for.
   */
  method ReadChunks(stream: seq<byte>, position: nat, buffer: array<byte>, bufferOffset: nat, length: nat, chunk: nat)
    requires position + length <= |stream| && bufferOffset + length <= buffer.Length && chunk > 0
    modifies buffer
    ensures buffer[..] == Splice(old(buffer[..]), bufferOffset, stream[position..position + length])
  {
    ghost var buf0 := buffer[..];
    var read := 0;
    while read < length
      invariant 0 <= read <= length
      invariant buffer[..] == Splice(buf0, bufferOffset, stream[position..position + read])
    {
      var copyLength := Min(chunk, length - read);
      BlockCopy(stream, position + read, buffer, read + bufferOffset, copyLength);
      SpliceConsecutive(buf0, bufferOffset, read + bufferOffset, stream, position, position + read, position + read + copyLength);
      read := read + copyLength;
    }
  }

  class BlockStorage {
    var stream: seq<byte>
    const blockSize: int
    const blockHeaderSize: int
    const blockContentSize: int
    const diskSectorSize: int
    /** The blocks handed out and not yet disposed, by id. */
    var blocks: map<uint32, Block>
    /** Every block this storage handed out, with its arrays. */
    ghost var Repr: set<object>

    /** The sizes the constructor establishes. */
    ghost predicate Sizes()
    {
      blockHeaderSize < blockSize && MinDiskSectorSize <= blockSize
      && blockContentSize == blockSize - blockHeaderSize
      && diskSectorSize == (if blockSize < MaxDiskSectorSize then MinDiskSectorSize else MaxDiskSectorSize)
    }

    /**
     * The stream position where block `id` starts, id * blockSize, written as repeated addition
     * so that reasoning about positions stays linear.
     */
    function Offset(id: nat): (r: int)
      ensures blockSize >= 0 ==> r >= 0
    {
      if id == 0 then 0 else Offset(id - 1) + blockSize
    }

    lemma {:induction false} OffsetIsProduct(id: nat)
      ensures Offset(id) == id * blockSize
    {
      if id > 0 {
        OffsetIsProduct(id - 1);
      }
    }

    /** Blocks with smaller ids lie wholly before blocks with larger ones. */
    lemma {:induction false} OffsetMono(i: nat, j: nat)
      requires Sizes() && i < j
      ensures Offset(i) + blockSize <= Offset(j)
    {
      if i + 1 < j {
        OffsetMono(i, j - 1);
      }
    }

    /** Distinct blocks occupy disjoint ranges. */
    lemma BlocksDisjoint(i: nat, j: nat)
      requires Sizes() && i != j
      ensures Offset(i) + blockSize <= Offset(j) || Offset(j) + blockSize <= Offset(i)
    {
      if i < j { OffsetMono(i, j); } else { OffsetMono(j, i); }
    }

    /**
     * A registered block: it belongs here under its own id, is not disposed, lies inside the
     * stream, agrees with the stream unless its sector is dirty, and its cache is right.
     */
    ghost predicate BlockValid(id: uint32)
      reads this, Repr
      requires Sizes() && id in blocks
    {
      var b := blocks[id];
      b in Repr && b.firstSector in Repr && b.cachedHeaders in Repr
      && b.storage == this && b.id == id && !b.disposed
      && b.firstSector.Length == diskSectorSize && b.cachedHeaders.Length == CachedHeaderCount
      && Offset(id) + blockSize <= |stream|
      && (!b.dirty ==> b.firstSector[..] == stream[Offset(id)..Offset(id) + diskSectorSize])
      && b.CacheValidFor(b.firstSector[..])
    }

    ghost predicate Valid()
      reads this, Repr
    {
      Sizes()
      && (forall id {:trigger BlockValid(id)} | id in blocks :: BlockValid(id))
      && (forall i, j | i in blocks && j in blocks && i != j ::
            blocks[i].firstSector != blocks[j].firstSector
            && blocks[i].cachedHeaders != blocks[j].cachedHeaders)
    }

    /**
     * The constructor's argument checks: the header must be smaller than the block, and the block
     * at least one minimal disk sector.
     */
    static method New(stream: seq<byte>, blockSize: int, blockHeaderSize: int) returns (r: Result<BlockStorage>)
      ensures blockHeaderSize >= blockSize ==> r == Err(Argument)
      ensures blockHeaderSize < blockSize < MinDiskSectorSize ==> r == Err(Argument)
      ensures blockHeaderSize < blockSize && MinDiskSectorSize <= blockSize ==>
        r.Ok? && fresh(r.value) && r.value.Valid() && r.value.blocks == map[]
        && r.value.stream == stream && r.value.blockSize == blockSize
        && r.value.blockHeaderSize == blockHeaderSize
    {
      if blockHeaderSize >= blockSize {
        return Err(Argument);
      }
      if blockSize < MinDiskSectorSize {
        return Err(Argument);
      }
      var s := new BlockStorage(stream, blockSize, blockHeaderSize);
      return Ok(s);
    }

    constructor(stream: seq<byte>, blockSize: int, blockHeaderSize: int)
      requires blockHeaderSize < blockSize && MinDiskSectorSize <= blockSize
      ensures Valid() && blocks == map[] && this.stream == stream
      ensures this.blockSize == blockSize && this.blockHeaderSize == blockHeaderSize
      ensures blockContentSize == blockSize - blockHeaderSize
      ensures diskSectorSize == if blockSize < MaxDiskSectorSize then MinDiskSectorSize else MaxDiskSectorSize
    {
      this.stream := stream;
      this.blockSize := blockSize;
      this.blockHeaderSize := blockHeaderSize;
      this.blockContentSize := blockSize - blockHeaderSize;
      this.diskSectorSize := if blockSize < MaxDiskSectorSize then MinDiskSectorSize else MaxDiskSectorSize;
      this.blocks := map[];
      this.Repr := {};
    }

    /** BlockStorage.OnBlockInitialized: register a block under its id. */
    method OnBlockInitialized(block: Block)
      modifies this`blocks
      ensures blocks == old(blocks)[block.id := block]
    {
      blocks := blocks[block.id := block];
    }

    /** BlockStorage.OnBlockDisposed: forget a block. */
    method OnBlockDisposed(block: Block)
      modifies this`blocks
      ensures blocks == old(blocks) - {block.id}
    {
      blocks := blocks - {block.id};
    }

    /**
     * BlockStorage.Find: the registered block of that id if there is one; otherwise null when the
     * stream does not hold the whole block, and otherwise a new block over the stream's bytes.
     */
    method Find(blockId: uint32) returns (b: Block?)
      requires Valid()
      modifies this`blocks, this`Repr
      ensures Valid() && stream == old(stream) && old(Repr) <= Repr && fresh(Repr - old(Repr))
      ensures blockId in old(blocks) ==> b == old(blocks)[blockId] && blocks == old(blocks)
      ensures blockId !in old(blocks) && Offset(blockId) + blockSize > |stream| ==>
        b == null && blocks == old(blocks)
      ensures blockId !in old(blocks) && Offset(blockId) + blockSize <= |stream| ==>
        b != null && fresh(b) && blocks == old(blocks)[blockId := b] && !b.dirty
        && b.Viewable() && b.View() == stream[Offset(blockId)..Offset(blockId) + blockSize]
      ensures b != null ==> b.Usable() && !b.disposed && b.id == blockId && b.storage == this
    {
      if blockId in blocks {
        assert BlockValid(blockId);
        return blocks[blockId];
      }
      var blockPosition := Offset(blockId);
      if blockPosition + blockSize > |stream| {
        return null;
      }
      b := Load(blockId);
    }

    /** Find for an id that is not registered and whose block the stream holds. */
    method Load(blockId: uint32) returns (b: Block)
      requires Valid() && blockId !in blocks && Offset(blockId) + blockSize <= |stream|
      modifies this`blocks, this`Repr
      ensures Valid() && old(Repr) <= Repr && fresh(Repr - old(Repr))
      ensures fresh(b) && blocks == old(blocks)[blockId := b] && !b.dirty
      ensures b.Usable() && !b.disposed && b.id == blockId && b.storage == this
      ensures b.Viewable() && b.View() == stream[Offset(blockId)..Offset(blockId) + blockSize]
    {
      var firstSector := new byte[diskSectorSize];
      BlockCopy(stream, Offset(blockId), firstSector, 0, diskSectorSize);
      b := Adopt(blockId, firstSector);
    }

    /**
     * The common end of Find and CreateNew: a new block over a first sector that holds what the
     * stream holds, registered under its id.
     */
    method Adopt(blockId: uint32, firstSector: array<byte>) returns (b: Block)
      requires Valid() && blockId !in blocks && firstSector !in Repr
      requires firstSector.Length == diskSectorSize && Offset(blockId) + blockSize <= |stream|
      requires firstSector[..] == stream[Offset(blockId)..Offset(blockId) + diskSectorSize]
      modifies this`blocks, this`Repr
      ensures Valid() && fresh(b) && fresh(b.cachedHeaders) && b.firstSector == firstSector
      ensures Repr == old(Repr) + {b, firstSector, b.cachedHeaders}
      ensures blocks == old(blocks)[blockId := b] && !b.dirty
      ensures b.Usable() && !b.disposed && b.id == blockId && b.storage == this
      ensures b.Viewable() && b.View() == stream[Offset(blockId)..Offset(blockId) + blockSize]
    {
      b := new Block(this, blockId, firstSector);
      forall id | id in blocks
        ensures BlockValid(id)
      {
        assert old(BlockValid(id));
      }
      Register(b);
      BlockBytesClean(firstSector[..], stream, Offset(blockId), blockSize);
    }

    /**
     * BlockStorage.CreateNew: extend a block-aligned stream by one zeroed block and hand out a
     * block for it; a stream whose length is not a multiple of the block size is rejected.
     */
    method CreateNew() returns (r: Result<Block>)
      requires Valid() && |stream| / blockSize < 0x1_0000_0000
      modifies this`blocks, this`stream, this`Repr
      ensures Valid() && old(Repr) <= Repr && fresh(Repr - old(Repr))
      ensures |old(stream)| % blockSize != 0 ==> r == Err(DataMisaligned) && unchanged(this)
      ensures |old(stream)| % blockSize == 0 ==>
        r.Ok? && fresh(r.value) && r.value.id as int == |old(stream)| / blockSize
        && stream == old(stream) + Zeros(blockSize)
        && blocks == old(blocks)[r.value.id := r.value]
        && r.value.Usable() && !r.value.disposed && r.value.storage == this
        && r.value.Viewable() && r.value.View() == Zeros(blockSize)
    {
      if |stream| % blockSize != 0 {
        return Err(DataMisaligned);
      }
      var blockId: uint32 := |stream| / blockSize;
      EndOffset(|stream|);
      if blockId in blocks {
        RegisteredInside(blockId);
        assert false;
      }
      var b := AppendBlock(blockId);
      return Ok(b);
    }

    /** A block-aligned length is where the block numbered length / blockSize starts. */
    lemma EndOffset(n: nat)
      requires Sizes() && n % blockSize == 0
      ensures Offset(n / blockSize) == n
    {
      OffsetIsProduct(n / blockSize);
    }

    /** The body of CreateNew once the new id is known: grow the stream and register the block. */
    method AppendBlock(blockId: uint32) returns (b: Block)
      requires Valid() && Offset(blockId) == |stream| && blockId !in blocks
      modifies this`blocks, this`stream, this`Repr
      ensures Valid() && old(Repr) <= Repr && fresh(Repr - old(Repr)) && fresh(b) && b.id == blockId
      ensures stream == old(stream) + Zeros(blockSize) && blocks == old(blocks)[blockId := b]
      ensures b.Usable() && !b.disposed && b.storage == this && b.Viewable() && b.View() == Zeros(blockSize)
    {
      Grow();
      var firstSector := new byte[diskSectorSize](_ => 0);
      assert firstSector[..] == Zeros(diskSectorSize);
      assert stream[Offset(blockId)..Offset(blockId) + diskSectorSize] == Zeros(diskSectorSize);
      b := Adopt(blockId, firstSector);
      assert stream[Offset(blockId)..Offset(blockId) + blockSize] == Zeros(blockSize);
    }

    /** Stream.SetLength past the end: the stream grows by zeros. */
    method Grow()
      requires Valid()
      modifies this`stream
      ensures Valid() && stream == old(stream) + Zeros(blockSize)
    {
      ghost var s0 := stream;
      stream := stream + Zeros(blockSize);
      forall id | id in blocks
        ensures BlockValid(id)
      {
        assert old(BlockValid(id));
        assert stream[Offset(id)..Offset(id) + diskSectorSize] == s0[Offset(id)..Offset(id) + diskSectorSize];
        BlockKept(id);
      }
    }

    /** Registering a new clean block whose first sector is what the stream holds keeps Valid. */
    method Register(b: Block)
      requires Valid() && b.id !in blocks && b !in Repr && b.firstSector !in Repr && b.cachedHeaders !in Repr
      requires b.storage == this && !b.disposed && !b.dirty
      requires b.firstSector.Length == diskSectorSize && b.cachedHeaders.Length == CachedHeaderCount
      requires forall f | 0 <= f < CachedHeaderCount :: b.cachedHeaders[f] == None
      requires Offset(b.id) + blockSize <= |stream|
      requires b.firstSector[..] == stream[Offset(b.id)..Offset(b.id) + diskSectorSize]
      modifies this`blocks, this`Repr
      ensures Valid() && blocks == old(blocks)[b.id := b] && BlockValid(b.id)
      ensures Repr == old(Repr) + {b, b.firstSector, b.cachedHeaders}
    {
      ghost var b0 := blocks;
      OnBlockInitialized(b);
      Repr := Repr + {b, b.firstSector, b.cachedHeaders};
      forall j | j in b0
        ensures b0[j].firstSector != b.firstSector && b0[j].cachedHeaders != b.cachedHeaders
      {
        assert old(BlockValid(j));
      }
      forall id | id in blocks
        ensures BlockValid(id)
      {
        if id != b.id {
          assert old(BlockValid(id));
        }
      }
    }

    /** Forgetting a registered block keeps the others valid. */
    method Unregister(b: Block)
      requires Valid() && b.Registered()
      modifies this`blocks
      ensures Valid() && blocks == old(blocks) - {b.id}
    {
      OnBlockDisposed(b);
      forall id | id in blocks
        ensures BlockValid(id)
      {
        assert old(BlockValid(id));
      }
    }

    /**
     * A registered block stays valid across a change that leaves the block, its arrays and the
     * stream bytes of its first sector as they were.
     */
    twostate lemma BlockKept(id: uint32)
      requires Sizes() && id in old(blocks) && old(BlockValid(id)) && old(Repr) <= Repr
      requires id in blocks && blocks[id] == old(blocks[id])
      requires unchanged(blocks[id], blocks[id].firstSector, blocks[id].cachedHeaders)
      requires Offset(id) + blockSize <= |stream|
      requires stream[Offset(id)..Offset(id) + diskSectorSize] == old(stream[Offset(id)..Offset(id) + diskSectorSize])
      ensures BlockValid(id)
    {
      var b := blocks[id];
      assert b.firstSector[..] == old(b.firstSector[..]);
      assert b.CacheValidFor(b.firstSector[..]) == old(b.CacheValidFor(b.firstSector[..]));
    }

    /** A registered block lies inside the stream. */
    lemma RegisteredInside(id: uint32)
      requires Valid() && id in blocks
      ensures Offset(id) + blockSize <= |stream|
    {
      assert BlockValid(id);
    }

    /** Record a header value in a registered block's cache. */
    method SetCache(b: Block, field: nat, value: Option<int64>)
      requires Valid() && b.storage == this && b.Registered() && BlockValid(b.id)
      requires field < CachedHeaderCount
      requires value.Some? && field < blockHeaderSize / 8 ==> value.value == ReadInt64(b.firstSector[..], 8 * field)
      modifies b.cachedHeaders
      ensures Valid() && b.cachedHeaders[field] == value
      ensures forall f | 0 <= f < b.cachedHeaders.Length && f != field :: b.cachedHeaders[f] == old(b.cachedHeaders[f])
    {
      b.cachedHeaders[field] := value;
      assert BlockValid(b.id) by {
        assert old(BlockValid(b.id));
        assert b.firstSector[..] == old(b.firstSector[..]);
      }
      CacheWriteKeeps(b);
    }

    /** A write to one block's cache leaves every other registered block valid. */
    twostate lemma CacheWriteKeeps(b: Block)
      requires old(Valid()) && b.storage == this && old(b.Registered())
      requires unchanged(this) && unchanged(Repr - {b.cachedHeaders})
      ensures forall id | id in blocks && id != b.id :: BlockValid(id)
    {
      forall id | id in blocks && id != b.id
        ensures BlockValid(id)
      {
        assert old(BlockValid(id));
        assert blocks[id].cachedHeaders != b.cachedHeaders;
        BlockKept(id);
      }
    }

    /**
     * Buffer.BlockCopy into a registered block's first sector, which marks the sector dirty. The
     * cache must hold for the new sector content.
     */
    method WriteSector(b: Block, dstOffset: nat, bytes: seq<byte>)
      requires Valid() && b.storage == this && b.Registered() && BlockValid(b.id)
      requires dstOffset + |bytes| <= diskSectorSize
      requires b.CacheValidFor(Splice(b.firstSector[..], dstOffset, bytes))
      modifies b.firstSector, b`dirty
      ensures Valid() && b.dirty
      ensures b.firstSector[..] == Splice(old(b.firstSector[..]), dstOffset, bytes)
    {
      BlockCopy(bytes, 0, b.firstSector, dstOffset, |bytes|);
      assert bytes[0..|bytes|] == bytes;
      b.dirty := true;
      forall id | id in blocks
        ensures BlockValid(id)
      {
        if id != b.id {
          assert old(BlockValid(id));
          assert blocks[id].firstSector != b.firstSector;
          BlockKept(id);
        }
      }
    }

    /** Stream.Write beyond the first sector of a registered block. */
    method WriteStream(b: Block, position: int, bytes: seq<byte>)
      requires Valid() && b.storage == this && b.Registered() && BlockValid(b.id)
      requires Offset(b.id) + diskSectorSize <= position && position + |bytes| <= Offset(b.id) + blockSize
      modifies this`stream
      ensures Valid() && BlockValid(b.id) && stream == Splice(old(stream), position, bytes)
    {
      ghost var s0 := stream;
      stream := Splice(stream, position, bytes);
      forall id | id in blocks
        ensures BlockValid(id)
      {
        assert old(BlockValid(id));
        if id != b.id {
          BlocksDisjoint(id, b.id);
        }
        SpliceOutside(s0, position, bytes, Offset(id), Offset(id) + diskSectorSize);
        BlockKept(id);
      }
    }

    /** The loop of Block.Write past the first sector: one Stream.Write of at most a sector at a time. */
    method WriteChunks(b: Block, position: nat, bytes: seq<byte>)
      requires Valid() && b.storage == this && b.Registered() && BlockValid(b.id)
      requires Offset(b.id) + diskSectorSize <= position && position + |bytes| <= Offset(b.id) + blockSize
      modifies this`stream
      ensures Valid() && BlockValid(b.id) && stream == Splice(old(stream), position, bytes)
    {
      ghost var s0 := stream;
      var curWrite := 0;
      while curWrite < |bytes|
        invariant 0 <= curWrite <= |bytes| && Valid() && BlockValid(b.id)
        invariant stream == Splice(s0, position, bytes[0..curWrite])
      {
        curWrite := WriteChunk(b, position, bytes, curWrite, s0);
      }
      assert bytes[0..|bytes|] == bytes;
    }

    /** One turn of that loop: the next sector's worth of bytes after the curWrite already written. */
    method WriteChunk(b: Block, position: nat, bytes: seq<byte>, curWrite: nat, ghost s0: seq<byte>) returns (next: nat)
      requires Valid() && b.storage == this && b.Registered() && BlockValid(b.id)
      requires Offset(b.id) + diskSectorSize <= position && position + |bytes| <= Offset(b.id) + blockSize
      requires curWrite < |bytes| && |s0| == |stream| && stream == Splice(s0, position, bytes[0..curWrite])
      modifies this`stream
      ensures curWrite < next <= |bytes| && Valid() && BlockValid(b.id)
      ensures stream == Splice(s0, position, bytes[0..next])
    {
      var toWrite := Min(diskSectorSize, |bytes| - curWrite);
      ghost var s1 := stream;
      next := curWrite + toWrite;
      WriteStream(b, position + curWrite, bytes[curWrite..next]);
      SpliceExtend(s0, s1, stream, position, bytes, curWrite, next);
    }

    /** Stream.Write of a registered block's first sector at the block's start. */
    method FlushSector(b: Block)
      requires Valid() && b.storage == this && b.Registered() && BlockValid(b.id)
      modifies this`stream, b`dirty
      ensures Valid() && !b.dirty && stream == Splice(old(stream), Offset(b.id), b.firstSector[..])
    {
      ghost var s0 := stream;
      stream := Splice(stream, Offset(b.id), b.firstSector[..]);
      b.dirty := false;
      forall id | id in blocks
        ensures BlockValid(id)
      {
        assert old(BlockValid(id));
        if id != b.id {
          BlocksDisjoint(id, b.id);
          SpliceOutside(s0, Offset(b.id), b.firstSector[..], Offset(id), Offset(id) + diskSectorSize);
          BlockKept(id);
        }
      }
    }
  }

  class Block {
    const storage: BlockStorage
    const id: uint32
    const firstSector: array<byte>
    /** The five reserved header fields, read lazily. */
    const cachedHeaders: array<Option<int64>>
    var dirty: bool
    var disposed: bool

    /** Every cached header agrees with the header bytes of `content`. */
    ghost predicate CacheValidFor(content: seq<byte>)
      reads cachedHeaders
    {
      forall f | 0 <= f < cachedHeaders.Length && f < storage.blockHeaderSize / 8
                 && 8 * f + 8 <= |content| && cachedHeaders[f].Some? ::
        cachedHeaders[f].value == ReadInt64(content, 8 * f)
    }

    ghost predicate Registered()
      reads storage
    {
      id in storage.blocks && storage.blocks[id] == this
    }

    /** The sizes View needs. */
    ghost predicate Viewable()
      reads storage`stream
    {
      storage.Sizes() && firstSector.Length == storage.diskSectorSize
      && storage.Offset(id) + storage.blockSize <= |storage.stream|
    }

    /** A block whose storage is valid, and which is registered there unless it is disposed. */
    ghost predicate Usable()
      reads this, storage, storage.Repr
    {
      storage.Valid() && (disposed || (Registered() && storage.BlockValid(id) && Viewable()))
    }

    /** The block's bytes as its readers see them: the in-memory sector, then the stream. */
    ghost function View(): (r: seq<byte>)
      reads storage`stream, firstSector
      requires Viewable()
      ensures |r| == storage.blockSize
    {
      BlockBytes(firstSector[..], storage.stream, storage.Offset(id), storage.blockSize)
    }

    constructor(storage: BlockStorage, id: uint32, firstSector: array<byte>)
      ensures this.storage == storage && this.id == id && this.firstSector == firstSector
      ensures fresh(cachedHeaders) && cachedHeaders.Length == CachedHeaderCount
      ensures forall f | 0 <= f < CachedHeaderCount :: cachedHeaders[f] == None
      ensures !dirty && !disposed
    {
      this.storage := storage;
      this.id := id;
      this.firstSector := firstSector;
      this.cachedHeaders := new Option<int64>[CachedHeaderCount](_ => None);
      this.dirty := false;
      this.disposed := false;
    }

    /** A header read from the sector is read from the View. */
    lemma HeaderInView(field: nat)
      requires Viewable() && 8 * field + 8 <= storage.diskSectorSize
      ensures ReadInt64(firstSector[..], 8 * field) == ReadInt64(View(), 8 * field)
    {
      BlockBytesHead(firstSector[..], storage.stream, storage.Offset(id), storage.blockSize, 8 * field, 8 * field + 8);
    }

    /**
     * Block.GetHeader: the eight-byte header `field` of the View, served from the cache for the
     * reserved fields. A disposed block, a negative field and a field past the header fail.
     */
    method GetHeader(field: int) returns (r: Result<int64>)
      requires Usable()
      modifies cachedHeaders
      ensures Usable()
      ensures disposed ==> r == Err(ObjectDisposed)
      ensures !disposed && field < 0 ==> r == Err(IndexOutOfRange)
      ensures !disposed && 0 <= field
              && (field >= storage.blockHeaderSize / 8 || 8 * field + 8 > storage.diskSectorSize) ==>
        r == Err(Argument)
      ensures !disposed && 0 <= field < storage.blockHeaderSize / 8 && 8 * field + 8 <= storage.diskSectorSize ==>
        r == Ok(ReadInt64(View(), 8 * field))
    {
      if disposed {
        return Err(ObjectDisposed);
      }
      if field < 0 {
        return Err(IndexOutOfRange);
      }
      if field >= storage.blockHeaderSize / 8 {
        return Err(Argument);
      }
      if field < cachedHeaders.Length {
        var v := CachedHeader(field);
        return Ok(v);
      }
      // BufferHelper.ReadInt64 copies eight bytes, which must lie inside the sector.
      if field * 8 + 8 > firstSector.Length {
        return Err(Argument);
      }
      HeaderInView(field);
      return Ok(ReadInt64(firstSector[..], field * 8));
    }

    /** A reserved header, read through the cache, which is filled on first use. */
    method CachedHeader(field: nat) returns (v: int64)
      requires Usable() && !disposed && field < CachedHeaderCount && field < storage.blockHeaderSize / 8
      modifies cachedHeaders
      ensures Usable() && v == ReadInt64(View(), 8 * field)
    {
      if cachedHeaders[field] == None {
        var read := ReadInt64(firstSector[..], 8 * field);
        storage.SetCache(this, field, Some(read));
      }
      HeaderInView(field);
      v := cachedHeaders[field].value;
    }

    /**
     * Block.SetHeader: write `value` as header `field` into the sector, which becomes dirty. There
     * is no upper bound against the header size; the write only has to fit the sector.
     */
    method SetHeader(field: int, value: int64) returns (s: Status)
      requires Usable()
      modifies cachedHeaders, firstSector, this`dirty
      ensures Usable()
      ensures disposed ==> s == Fail(ObjectDisposed)
      ensures !disposed && field < 0 ==> s == Fail(IndexOutOfRange)
      ensures !disposed && 0 <= field && 8 * field + 8 > storage.diskSectorSize ==> s == Fail(Argument)
      ensures s.Done? <==> !disposed && 0 <= field && 8 * field + 8 <= storage.diskSectorSize
      ensures s.Fail? ==> firstSector[..] == old(firstSector[..]) && dirty == old(dirty)
      ensures s.Done? ==> dirty && View() == Splice(old(View()), 8 * field, Int64Bytes(value))
    {
      if disposed {
        return Fail(ObjectDisposed);
      }
      if field < 0 {
        return Fail(IndexOutOfRange);
      }
      // BufferHelper.WriteBuffer copies eight bytes, which must lie inside the sector.
      if field * 8 + 8 > firstSector.Length {
        return Fail(Argument);
      }
      WriteHeader(field, value);
      return Done;
    }

    /** The write SetHeader performs once its checks have passed. */
    method WriteHeader(field: nat, value: int64)
      requires Usable() && !disposed && 8 * field + 8 <= storage.diskSectorSize
      modifies cachedHeaders, firstSector, this`dirty
      ensures Usable() && dirty && View() == Splice(old(View()), 8 * field, Int64Bytes(value))
    {
      ghost var first0 := firstSector[..];
      var bytes := Int64Bytes(value);
      // The cache entry is dropped while the sector is rewritten and then set, so that the cache
      // agrees with the sector at every step.
      if field < cachedHeaders.Length {
        storage.SetCache(this, field, None);
      }
      CacheAfterWrite(field, bytes);
      storage.WriteSector(this, 8 * field, bytes);
      if field < cachedHeaders.Length {
        ReadInt64AfterWrite(first0, 8 * field, value);
        storage.SetCache(this, field, Some(value));
      }
      BlockBytesSectorWrite(first0, storage.stream, storage.Offset(id), storage.blockSize, 8 * field, bytes);
    }

    /** Overwriting a header whose cache entry is empty keeps the other cache entries right. */
    lemma CacheAfterWrite(field: nat, bytes: seq<byte>)
      requires CacheValidFor(firstSector[..]) && |bytes| == 8 && 8 * field + 8 <= firstSector.Length
      requires field < cachedHeaders.Length ==> cachedHeaders[field] == None
      ensures CacheValidFor(Splice(firstSector[..], 8 * field, bytes))
    {
      var first := firstSector[..];
      forall f | 0 <= f < cachedHeaders.Length && f < storage.blockHeaderSize / 8
                 && 8 * f + 8 <= |first| && cachedHeaders[f].Some?
        ensures cachedHeaders[f].value == ReadInt64(Splice(first, 8 * field, bytes), 8 * f)
      {
        assert f != field;
        assert 8 * f + 8 <= 8 * field || 8 * field + 8 <= 8 * f;
        ReadInt64Disjoint(first, 8 * field, bytes, 8 * f);
      }
    }

    /** The checks Block.Read makes, together with those of the copies it performs. */
    function ReadCheck(bufferLength: int, bufferOffset: int, readOffset: int, length: int): Status
      reads this
    {
      var h := storage.blockHeaderSize;
      var sector := storage.diskSectorSize;
      if disposed then Fail(ObjectDisposed)
      else if length < 0 || length + readOffset > storage.blockContentSize then Fail(ArgumentOutOfRange)
      else if length + bufferOffset > bufferLength then Fail(ArgumentOutOfRange)
      // Buffer.BlockCopy from the sector rejects a negative offset on either side.
      else if h + readOffset < sector && (h + readOffset < 0 || bufferOffset < 0) then Fail(ArgumentOutOfRange)
      // Stream.Read rejects a negative buffer offset.
      else if sector <= h + readOffset && 0 < length && bufferOffset < 0 then Fail(ArgumentOutOfRange)
      else Done
    }

    /**
     * Block.Read: copy `length` bytes of content starting at `readOffset` into `buffer` at
     * `bufferOffset`; the bytes come from the sector as far as it reaches and from the stream,
     * in chunks of at most one sector, after it.
     */
    method Read(buffer: array<byte>, bufferOffset: int, readOffset: int, length: int) returns (s: Status)
      requires Usable() && buffer !in storage.Repr
      modifies buffer
      ensures Usable()
      ensures s == ReadCheck(buffer.Length, bufferOffset, readOffset, length)
      ensures s.Done? && 0 < length ==>
        0 <= bufferOffset && bufferOffset + length <= buffer.Length
        && 0 <= storage.blockHeaderSize + readOffset
        && storage.blockHeaderSize + readOffset + length <= storage.blockSize
        && buffer[..] == Splice(old(buffer[..]), bufferOffset,
             View()[storage.blockHeaderSize + readOffset..storage.blockHeaderSize + readOffset + length])
      ensures !(s.Done? && 0 < length) ==> buffer[..] == old(buffer[..])
    {
      if disposed {
        return Fail(ObjectDisposed);
      }
      var contentSize := storage.blockContentSize;
      if length < 0 || length + readOffset > contentSize {
        return Fail(ArgumentOutOfRange);
      }
      if length + bufferOffset > buffer.Length {
        return Fail(ArgumentOutOfRange);
      }
      var headerSize := storage.blockHeaderSize;
      var sectorSize := storage.diskSectorSize;
      var readFromFirst := headerSize + readOffset < sectorSize;
      if readFromFirst {
        if headerSize + readOffset < 0 || bufferOffset < 0 {
          return Fail(ArgumentOutOfRange);
        }
      } else if 0 < length && bufferOffset < 0 {
        return Fail(ArgumentOutOfRange);
      }
      if length == 0 {
        return Done;
      }
      ReadContent(buffer, bufferOffset, headerSize + readOffset, length);
      return Done;
    }

    /** The copying part of Read, once the checks have passed. */
    method ReadContent(buffer: array<byte>, bufferOffset: nat, start: nat, length: nat)
      requires Usable() && !disposed && buffer !in storage.Repr && buffer != firstSector
      requires bufferOffset + length <= buffer.Length && start + length <= storage.blockSize
      modifies buffer
      ensures Usable()
      ensures buffer[..] == Splice(old(buffer[..]), bufferOffset, View()[start..start + length])
    {
      if start < storage.diskSectorSize {
        ReadFromSector(buffer, bufferOffset, start, start + length);
      } else {
        ReadStream(buffer, bufferOffset, start, start + length);
      }
    }

    /** A read that starts in the first sector: the sector part, then the stream part. */
    method ReadFromSector(buffer: array<byte>, bufferOffset: nat, start: nat, end: nat)
      requires Usable() && !disposed && buffer !in storage.Repr && buffer != firstSector
      requires start < storage.diskSectorSize && start <= end <= storage.blockSize
      requires bufferOffset + (end - start) <= buffer.Length
      modifies buffer
      ensures Usable()
      ensures buffer[..] == Splice(old(buffer[..]), bufferOffset, View()[start..end])
    {
      var copyLength := Min(storage.diskSectorSize - start, end - start);
      ghost var v := View();
      ghost var buf0 := buffer[..];
      CopyFromSector(buffer, bufferOffset, start, copyLength);
      ReadStream(buffer, bufferOffset + copyLength, start + copyLength, end);
      assert View() == v;
      SpliceConsecutive(buf0, bufferOffset, bufferOffset + copyLength, v, start, start + copyLength, end);
    }

    /** Buffer.BlockCopy out of the first sector. */
    method CopyFromSector(buffer: array<byte>, bufferOffset: nat, start: nat, count: nat)
      requires Usable() && !disposed && buffer !in storage.Repr && buffer != firstSector
      requires start + count <= storage.diskSectorSize && bufferOffset + count <= buffer.Length
      modifies buffer
      ensures Usable() && Viewable() && View() == old(View())
      ensures buffer[..] == Splice(old(buffer[..]), bufferOffset, View()[start..start + count])
    {
      BlockBytesHead(firstSector[..], storage.stream, storage.Offset(id), storage.blockSize, start, start + count);
      BlockCopy(firstSector[..], start, buffer, bufferOffset, count);
    }

    /** Read's bytes past the first sector, [start, end) of the block, come from the stream. */
    method ReadStream(buffer: array<byte>, bufferOffset: nat, start: nat, end: nat)
      requires Usable() && !disposed && buffer !in storage.Repr && buffer != firstSector
      requires start <= end <= storage.blockSize && bufferOffset + (end - start) <= buffer.Length
      requires start < end ==> storage.diskSectorSize <= start
      modifies buffer
      ensures Usable() && Viewable() && View() == old(View())
      ensures buffer[..] == Splice(old(buffer[..]), bufferOffset, View()[start..end])
    {
      var offset := storage.Offset(id);
      ReadChunks(storage.stream, offset + start, buffer, bufferOffset, end - start, storage.diskSectorSize);
      if start < end {
        BlockBytesTail(firstSector[..], storage.stream, offset, storage.blockSize, start, end);
      }
    }

    /** The checks Block.Write makes, together with those of the sector copy it performs. */
    function WriteCheck(bufferLength: int, bufferOffset: int, writeOffset: int, length: int): (r: Status)
      reads this`disposed
      ensures r.Done? ==>
        && !disposed && 0 <= writeOffset && writeOffset + length <= storage.blockContentSize
        && 0 <= bufferOffset && bufferOffset + length <= bufferLength
        && (storage.blockHeaderSize + writeOffset < storage.diskSectorSize ==>
              0 <= length && 0 <= storage.blockHeaderSize + writeOffset)
    {
      var h := storage.blockHeaderSize;
      if disposed then Fail(ObjectDisposed)
      else if writeOffset < 0 || writeOffset + length > storage.blockContentSize then Fail(ArgumentOutOfRange)
      else if bufferOffset < 0 || bufferOffset + length > bufferLength then Fail(ArgumentOutOfRange)
      // Buffer.BlockCopy into the sector rejects a negative count or offset.
      else if h + writeOffset < storage.diskSectorSize && (length < 0 || h + writeOffset < 0) then Fail(ArgumentOutOfRange)
      else Done
    }

    /**
     * Block.Write: copy `length` bytes of `buffer` from `bufferOffset` into the content at
     * `writeOffset`. The part that lands in the first sector changes the in-memory sector and
     * makes it dirty; the rest goes to the stream at once, at most one sector per Stream.Write.
     */
    method Write(buffer: seq<byte>, bufferOffset: int, writeOffset: int, length: int) returns (s: Status)
      requires Usable()
      modifies firstSector, this`dirty, storage`stream
      ensures Usable()
      ensures s == WriteCheck(|buffer|, bufferOffset, writeOffset, length)
      ensures s.Done? && 0 <= length ==>
        0 <= bufferOffset && bufferOffset + length <= |buffer|
        && 0 <= storage.blockHeaderSize + writeOffset
        && storage.blockHeaderSize + writeOffset + length <= storage.blockSize
        && View() == Splice(old(View()), storage.blockHeaderSize + writeOffset, buffer[bufferOffset..bufferOffset + length])
        && dirty == (old(dirty) || storage.blockHeaderSize + writeOffset < storage.diskSectorSize)
      ensures s.Done? && 0 <= length && storage.blockHeaderSize + writeOffset + length > storage.diskSectorSize ==>
        var start := storage.blockHeaderSize + writeOffset;
        var skipped := Max(0, storage.diskSectorSize - start);
        storage.stream == Splice(old(storage.stream), storage.Offset(id) + Max(storage.diskSectorSize, start),
          buffer[bufferOffset + skipped..bufferOffset + length])
      ensures !(s.Done? && 0 <= length && storage.blockHeaderSize + writeOffset + length > storage.diskSectorSize) ==>
        storage.stream == old(storage.stream)
      ensures !(s.Done? && 0 <= length) ==> firstSector[..] == old(firstSector[..]) && dirty == old(dirty)
    {
      // The argument checks, in the source's order, then the copy.
      s := WriteCheck(|buffer|, bufferOffset, writeOffset, length);
      // A write past the sector whose end lies before its start writes nothing.
      if s.Done? && length >= 0 {
        var start := storage.blockHeaderSize + writeOffset;
        assert storage.blockHeaderSize <= start && start + length <= storage.blockSize;
        WriteContent(buffer, bufferOffset, start, length);
      }
    }

    /** The writing part of Write, once the checks have passed; `start` is the block position. */
    method WriteContent(buffer: seq<byte>, bufferOffset: nat, start: nat, length: nat)
      requires Usable() && !disposed && bufferOffset + length <= |buffer|
      requires storage.blockHeaderSize <= start && start + length <= storage.blockSize
      modifies firstSector, this`dirty, storage`stream
      ensures Usable() && Viewable()
      ensures View() == Splice(old(View()), start, buffer[bufferOffset..bufferOffset + length])
      ensures dirty == (old(dirty) || start < storage.diskSectorSize)
      ensures start + length > storage.diskSectorSize ==>
        var skipped := Max(0, storage.diskSectorSize - start);
        storage.stream == Splice(old(storage.stream), storage.Offset(id) + Max(storage.diskSectorSize, start),
          buffer[bufferOffset + skipped..bufferOffset + length])
      ensures start + length <= storage.diskSectorSize ==> storage.stream == old(storage.stream)
    {
      var sectorSize := storage.diskSectorSize;
      if start < sectorSize {
        WriteFromSector(buffer, bufferOffset, start, length);
      } else if start + length > sectorSize {
        WriteBeyond(buffer, bufferOffset, start, length);
      } else {
        // An empty write at the sector's end touches neither the sector nor the stream.
        assert buffer[bufferOffset..bufferOffset + length] == [];
        assert Splice(View(), start, []) == View();
      }
    }

    /** WriteContent for a write that begins past the first sector. */
    method WriteBeyond(buffer: seq<byte>, bufferOffset: nat, start: nat, length: nat)
      requires Usable() && !disposed && bufferOffset + length <= |buffer|
      requires storage.diskSectorSize <= start && start + length <= storage.blockSize
      modifies storage`stream
      ensures Usable()
      ensures View() == Splice(old(View()), start, buffer[bufferOffset..bufferOffset + length])
      ensures var skipped := Max(0, storage.diskSectorSize - start);
        storage.stream == Splice(old(storage.stream), storage.Offset(id) + Max(storage.diskSectorSize, start),
          buffer[bufferOffset + skipped..bufferOffset + length])
    {
      ghost var skipped := Max(0, storage.diskSectorSize - start);
      assert skipped == 0 && Max(storage.diskSectorSize, start) == start;
      assert buffer[bufferOffset + skipped..bufferOffset + length] == buffer[bufferOffset..bufferOffset + length];
      WriteToStream(buffer, bufferOffset, bufferOffset + length, start);
    }

    /** WriteContent for a write that begins in the first sector. */
    method WriteFromSector(buffer: seq<byte>, bufferOffset: nat, start: nat, length: nat)
      requires Usable() && !disposed && bufferOffset + length <= |buffer|
      requires storage.blockHeaderSize <= start < storage.diskSectorSize && start + length <= storage.blockSize
      modifies firstSector, this`dirty, storage`stream
      ensures Usable()
      ensures View() == Splice(old(View()), start, buffer[bufferOffset..bufferOffset + length])
      ensures dirty == (old(dirty) || start < storage.diskSectorSize)
      ensures start + length > storage.diskSectorSize ==>
        var skipped := Max(0, storage.diskSectorSize - start);
        storage.stream == Splice(old(storage.stream), storage.Offset(id) + Max(storage.diskSectorSize, start),
          buffer[bufferOffset + skipped..bufferOffset + length])
      ensures start + length <= storage.diskSectorSize ==> storage.stream == old(storage.stream)
    {
      var sectorSize := storage.diskSectorSize;
      if start + length <= sectorSize {
        WriteToSector(buffer, bufferOffset, start, length);
      } else {
        ghost var skipped := Max(0, sectorSize - start);
        assert skipped == sectorSize - start && Max(sectorSize, start) == sectorSize;
        WriteAcross(buffer, bufferOffset, start, length);
      }
    }

    /** A write that begins in the first sector and ends past it. */
    method WriteAcross(buffer: seq<byte>, bufferOffset: nat, start: nat, length: nat)
      requires Usable() && !disposed && bufferOffset + length <= |buffer|
      requires storage.blockHeaderSize <= start < storage.diskSectorSize < start + length <= storage.blockSize
      modifies firstSector, this`dirty, storage`stream
      ensures Usable() && dirty
      ensures View() == Splice(old(View()), start, buffer[bufferOffset..bufferOffset + length])
      ensures storage.stream == Splice(old(storage.stream), storage.Offset(id) + storage.diskSectorSize,
        buffer[bufferOffset + (storage.diskSectorSize - start)..bufferOffset + length])
    {
      ghost var v := View();
      // The bytes already written to the sector are skipped in the buffer and in the block.
      WriteToSector(buffer, bufferOffset, start, storage.diskSectorSize - start);
      WriteRest(buffer, bufferOffset, start, length, v);
    }

    /** The second half of WriteAcross: the bytes past the first sector go to the stream. */
    method WriteRest(buffer: seq<byte>, bufferOffset: nat, start: nat, length: nat, ghost v: seq<byte>)
      requires Usable() && !disposed && bufferOffset + length <= |buffer|
      requires storage.blockHeaderSize <= start < storage.diskSectorSize < start + length <= storage.blockSize
      requires |v| == storage.blockSize
      requires View() == Splice(v, start, buffer[bufferOffset..bufferOffset + (storage.diskSectorSize - start)])
      modifies storage`stream
      ensures Usable()
      ensures View() == Splice(v, start, buffer[bufferOffset..bufferOffset + length])
      ensures storage.stream == Splice(old(storage.stream), storage.Offset(id) + storage.diskSectorSize,
        buffer[bufferOffset + (storage.diskSectorSize - start)..bufferOffset + length])
    {
      var from := bufferOffset + (storage.diskSectorSize - start);
      var offset := storage.Offset(id);
      ghost var s0 := storage.stream;
      storage.WriteChunks(this, offset + storage.diskSectorSize, buffer[from..bufferOffset + length]);
      RestWriteView(v, s0, start, buffer, bufferOffset, from, bufferOffset + length);
    }

    /** The bytes past the first sector, written after those inside it, complete one splice of the block's bytes. */
    lemma RestWriteView(v: seq<byte>, s0: seq<byte>, start: nat, buffer: seq<byte>, bufferOffset: nat, from: nat, end: nat)
      requires Viewable() && |v| == storage.blockSize && storage.Offset(id) + storage.blockSize <= |s0|
      requires bufferOffset <= from <= end <= |buffer| && start < storage.diskSectorSize
      requires from == bufferOffset + (storage.diskSectorSize - start) && start + (end - bufferOffset) <= storage.blockSize
      requires BlockBytes(firstSector[..], s0, storage.Offset(id), storage.blockSize) == Splice(v, start, buffer[bufferOffset..from])
      requires storage.stream == Splice(s0, storage.Offset(id) + storage.diskSectorSize, buffer[from..end])
      ensures View() == Splice(v, start, buffer[bufferOffset..end])
    {
      var v1 := BlockBytes(firstSector[..], s0, storage.Offset(id), storage.blockSize);
      StreamWriteView(storage.diskSectorSize, buffer[from..end], s0, v1);
      SplicesChain(v, v1, View(), start, storage.diskSectorSize, buffer, bufferOffset, from, end);
    }

    /** Two splices of consecutive parts of a buffer at consecutive places are one splice. */
    static lemma SplicesChain(v: seq<byte>, v1: seq<byte>, v2: seq<byte>, start: nat, at: nat,
                              buffer: seq<byte>, bufferOffset: nat, from: nat, end: nat)
      requires bufferOffset <= from <= end <= |buffer| && at == start + (from - bufferOffset) && start + (end - bufferOffset) <= |v|
      requires v1 == Splice(v, start, buffer[bufferOffset..bufferOffset + (at - start)])
      requires v2 == Splice(v1, at, buffer[from..end])
      ensures v2 == Splice(v, start, buffer[bufferOffset..end])
    {
      SpliceConsecutive(v, start, at, buffer, bufferOffset, from, end);
    }

    /** Buffer.BlockCopy into the first sector, past the header. */
    method WriteToSector(buffer: seq<byte>, bufferOffset: nat, start: nat, count: nat)
      requires Usable() && !disposed && bufferOffset + count <= |buffer|
      requires storage.blockHeaderSize <= start && start + count <= storage.diskSectorSize
      modifies firstSector, this`dirty
      ensures Usable() && dirty && storage.stream == old(storage.stream)
      ensures View() == Splice(old(View()), start, buffer[bufferOffset..bufferOffset + count])
    {
      ghost var first0 := firstSector[..];
      var bytes := buffer[bufferOffset..bufferOffset + count];
      ContentWriteKeepsCache(start, bytes);
      storage.WriteSector(this, start, bytes);
      BlockBytesSectorWrite(first0, storage.stream, storage.Offset(id), storage.blockSize, start, bytes);
    }

    /** Content writes lie past the header, so they leave every cached header right. */
    lemma ContentWriteKeepsCache(start: nat, bytes: seq<byte>)
      requires CacheValidFor(firstSector[..]) && storage.blockHeaderSize <= start
      requires start + |bytes| <= firstSector.Length
      ensures CacheValidFor(Splice(firstSector[..], start, bytes))
    {
      var first := firstSector[..];
      forall f | 0 <= f < cachedHeaders.Length && f < storage.blockHeaderSize / 8
                 && 8 * f + 8 <= |first| && cachedHeaders[f].Some?
        ensures cachedHeaders[f].value == ReadInt64(Splice(first, start, bytes), 8 * f)
      {
        assert 8 * f + 8 <= start;
        ReadInt64Disjoint(first, start, bytes, 8 * f);
      }
    }

    /** The loop of Write past the first sector: at most one sector per Stream.Write. */
    method WriteToStream(buffer: seq<byte>, from: nat, to: nat, start: nat)
      requires Usable() && !disposed && from <= to <= |buffer|
      requires storage.diskSectorSize <= start && start + (to - from) <= storage.blockSize
      modifies storage`stream
      ensures Usable() && Viewable()
      ensures storage.stream == Splice(old(storage.stream), storage.Offset(id) + start, buffer[from..to])
      ensures View() == Splice(old(View()), start, buffer[from..to])
    {
      var offset := storage.Offset(id);
      ghost var s0, v0 := storage.stream, View();
      storage.WriteChunks(this, offset + start, buffer[from..to]);
      StreamWriteView(start, buffer[from..to], s0, v0);
    }

    /** Bytes written to the stream past the first sector show in the block's bytes at the same place. */
    lemma StreamWriteView(start: nat, bytes: seq<byte>, s0: seq<byte>, v0: seq<byte>)
      requires Viewable() && storage.Offset(id) + storage.blockSize <= |s0|
      requires v0 == BlockBytes(firstSector[..], s0, storage.Offset(id), storage.blockSize)
      requires storage.diskSectorSize <= start && start + |bytes| <= storage.blockSize
      requires storage.stream == Splice(s0, storage.Offset(id) + start, bytes)
      ensures View() == Splice(v0, start, bytes)
    {
      BlockBytesStreamWrite(firstSector[..], s0, storage.Offset(id), storage.blockSize, storage.Offset(id) + start, bytes);
    }

    /**
     * Block.Dispose: a dirty first sector is written back to the stream and the block leaves the
     * storage's table. The source raises the disposed flag before the write-back; nothing in
     * between observes it, so here it is raised last.
     */
    method Dispose()
      requires Usable()
      modifies this`disposed, this`dirty, storage`stream, storage`blocks
      ensures Usable() && disposed
      ensures old(disposed) ==>
        dirty == old(dirty) && storage.stream == old(storage.stream) && storage.blocks == old(storage.blocks)
      ensures !old(disposed) ==>
        !dirty && storage.blocks == old(storage.blocks) - {id}
        && storage.stream == (if old(dirty) then Splice(old(storage.stream), storage.Offset(id), firstSector[..])
                              else old(storage.stream))
        && storage.Offset(id) + storage.blockSize <= |storage.stream|
        && storage.stream[storage.Offset(id)..storage.Offset(id) + storage.blockSize] == old(View())
    {
      if disposed {
        return;
      }
      WriteBack();
      storage.Unregister(this);
      label unregistered:
      disposed := true;
      forall j | j in storage.blocks
        ensures storage.BlockValid(j)
      {
        assert old@unregistered(storage.BlockValid(j));
      }
    }

    /** The write-back of Dispose: a dirty sector goes to the stream, and the block is clean. */
    method WriteBack()
      requires Usable() && !disposed
      modifies this`dirty, storage`stream
      ensures Usable() && !dirty
      ensures storage.stream == (if old(dirty) then Splice(old(storage.stream), storage.Offset(id), firstSector[..])
                                 else old(storage.stream))
      ensures storage.stream[storage.Offset(id)..storage.Offset(id) + storage.blockSize] == old(View())
    {
      var offset := storage.Offset(id);
      if dirty {
        BlockBytesFlushed(firstSector[..], storage.stream, offset, storage.blockSize);
        storage.FlushSector(this);
      } else {
        BlockBytesClean(firstSector[..], storage.stream, offset, storage.blockSize);
      }
    }
  }
}
