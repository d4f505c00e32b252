/**
 * StorageDefects: Block.Read and Block.Write as the source writes them, on values, next to the
 * behaviour Storage.Block.Read and Storage.Block.Write model. Each pair comes with an input on
 * which the two differ and the condition under which they agree.
 */
module StorageDefects {
  import opened Bytes
  import opened Errors
  import opened Storage

  /**
   * The bytes Block.Read delivers as written. It decides whether the read starts in the first
   * sector by comparing contentSize + readOffset, not headerSize + readOffset, with the sector
   * size; for every block whose content is at least a sector long the answer is "no", and the
   * bytes come from the stream even where the in-memory sector holds newer ones. `first` is the
   * in-memory first sector; None is the exception Buffer.BlockCopy throws for a negative count.
   */
  function ReadAsWritten(first: seq<byte>, stream: seq<byte>, blockOffset: nat, headerSize: nat,
                         contentSize: nat, readOffset: nat, length: nat): Option<seq<byte>>
    requires |first| <= headerSize + contentSize && readOffset + length <= contentSize
    requires blockOffset + headerSize + contentSize <= |stream|
  {
    var sectorSize := |first|;
    var readFromFirst := contentSize + readOffset < sectorSize;
    if readFromFirst && headerSize + readOffset > sectorSize then None
    else
      var copied := if readFromFirst then Min(sectorSize - headerSize - readOffset, length) else 0;
      var position := if readFromFirst then blockOffset + sectorSize else blockOffset + headerSize + readOffset;
      var fromFirst := if readFromFirst then first[headerSize + readOffset..headerSize + readOffset + copied] else [];
      Some(fromFirst + stream[position..position + (length - copied)])
  }

  /**
   * On a clean block, whose in-memory sector equals its bytes in the stream, the read as
   * written delivers what a block's readers see (Storage.Block.View): the defect is invisible
   * until the first sector is changed in memory. (The read as written can also throw where
   * the intended one does not: when it wrongly starts in the sector past the sector's end.)
   */
  lemma ReadAsWrittenOnCleanBlock(first: seq<byte>, stream: seq<byte>, blockOffset: nat, headerSize: nat,
                                  contentSize: nat, readOffset: nat, length: nat)
    requires headerSize <= |first| <= headerSize + contentSize && readOffset + length <= contentSize
    requires blockOffset + headerSize + contentSize <= |stream|
    requires first == stream[blockOffset..blockOffset + |first|]
    ensures var r := ReadAsWritten(first, stream, blockOffset, headerSize, contentSize, readOffset, length);
      r.Some? ==> r.value == (BlockBytes(first, stream, blockOffset, headerSize + contentSize)
                [headerSize + readOffset..headerSize + readOffset + length])
  {
    var r := ReadAsWritten(first, stream, blockOffset, headerSize, contentSize, readOffset, length);
    if r.None? {
      return;
    }
    var size := headerSize + contentSize;
    var view := BlockBytes(first, stream, blockOffset, size);
    var lo := headerSize + readOffset;
    assert forall i | 0 <= i < size :: view[i] == stream[blockOffset + i];
    assert r.value == view[lo..lo + length] by {
      forall i | 0 <= i < length
        ensures r.value[i] == view[lo + i]
      {
      }
    }
  }

  /**
   * A 256-byte block with a 40-byte header (so 128-byte sectors) over a zeroed stream, whose
   * in-memory sector holds a 1 at the first content byte: the read as written returns [0], the
   * block's content begins with 1.
   */
  lemma ReadDefectExample()
    ensures var first := seq(128, i => if i == 40 then 1 else 0);
      ReadAsWritten(first, Zeros(256), 0, 40, 216, 0, 1) == Some([0])
      && BlockBytes(first, Zeros(256), 0, 256)[40..41] == [1]
  {
    var first: seq<byte> := seq(128, i => if i == 40 then 1 else 0);
    var r := ReadAsWritten(first, Zeros(256), 0, 40, 216, 0, 1);
    assert r.value == [0] by {
      assert r.value == Zeros(256)[40..41];
    }
    assert BlockBytes(first, Zeros(256), 0, 256)[40..41] == [first[40]];
  }

  /**
   * The loop of Block.Write past the first sector as written: the chunk at `cur` is taken from
   * the buffer at from + cur and goes to the stream at position + cur. A chunk that does not lie
   * inside the buffer makes Stream.Write throw after the earlier chunks were written (false).
   */
  function WriteChunksAsWritten(stream: seq<byte>, position: nat, buffer: seq<byte>, from: nat,
                                count: nat, chunk: nat, cur: nat): (r: (seq<byte>, bool))
    requires chunk > 0 && cur <= count && position + count <= |stream|
    ensures |r.0| == |stream|
    decreases count - cur
  {
    if cur == count then (stream, true)
    else
      var toWrite := Min(chunk, count - cur);
      if from + cur + toWrite > |buffer| then (stream, false)
      else
        WriteChunksAsWritten(Splice(stream, position + cur, buffer[from + cur..from + cur + toWrite]),
          position, buffer, from, count, chunk, cur + toWrite)
  }

  /** Splicing nothing changes nothing. */
  lemma SpliceEmpty(s: seq<byte>, offset: nat)
    requires offset <= |s|
    ensures Splice(s, offset, []) == s
  {
    var r := Splice(s, offset, []);
    assert forall i | 0 <= i < |s| :: r[i] == s[i];
  }

  /** When every chunk lies in the buffer, the chunked writes are one write of the whole range. */
  lemma {:induction false} WriteChunksAsWrittenWrites(stream: seq<byte>, position: nat, buffer: seq<byte>,
                                                      from: nat, count: nat, chunk: nat, cur: nat)
    requires chunk > 0 && cur <= count && position + count <= |stream| && from + count <= |buffer|
    ensures WriteChunksAsWritten(stream, position, buffer, from, count, chunk, cur)
      == (Splice(stream, position + cur, buffer[from + cur..from + count]), true)
    decreases count - cur
  {
    if cur == count {
      SpliceEmpty(stream, position + cur);
    } else {
      var toWrite := Min(chunk, count - cur);
      var next := Splice(stream, position + cur, buffer[from + cur..from + cur + toWrite]);
      WriteChunksAsWrittenWrites(next, position, buffer, from, count, chunk, cur + toWrite);
      SpliceConsecutive(stream, position + cur, position + (cur + toWrite), buffer,
        from + cur, from + cur + toWrite, from + count);
    }
  }

  /**
   * The stream part of Block.Write as written, once its checks have passed and the write reaches
   * past the first sector: after skipping the bytes that went to the sector it takes the rest
   * from the buffer at the adjusted writeOffset, ignoring bufferOffset.
   */
  function StreamWriteAsWritten(stream: seq<byte>, blockOffset: nat, headerSize: nat, sectorSize: nat,
                                buffer: seq<byte>, bufferOffset: nat, writeOffset: nat, length: nat): (seq<byte>, bool)
    requires sectorSize > 0 && headerSize + writeOffset + length > sectorSize
    requires blockOffset + headerSize + writeOffset + length <= |stream|
  {
    var written := sectorSize - headerSize - writeOffset;
    var writeFrom: nat := if written > 0 then writeOffset + written else writeOffset;
    var rest: nat := if written > 0 then length - written else length;
    WriteChunksAsWritten(stream, blockOffset + Max(sectorSize, headerSize + writeOffset), buffer,
      writeFrom, rest, sectorSize, 0)
  }

  /**
   * When the buffer offset equals the write offset, the write as written does what
   * Storage.Block.Write states: the bytes past the sector reach the stream right after it.
   */
  lemma StreamWriteAsWrittenWhenOffsetsAgree(stream: seq<byte>, blockOffset: nat, headerSize: nat, sectorSize: nat,
                                             buffer: seq<byte>, bufferOffset: nat, writeOffset: nat, length: nat)
    requires sectorSize > 0 && headerSize + writeOffset + length > sectorSize
    requires blockOffset + headerSize + writeOffset + length <= |stream|
    requires bufferOffset + length <= |buffer| && bufferOffset == writeOffset
    ensures var skipped := Max(0, sectorSize - headerSize - writeOffset);
      StreamWriteAsWritten(stream, blockOffset, headerSize, sectorSize, buffer, bufferOffset, writeOffset, length)
        == (Splice(stream, blockOffset + Max(sectorSize, headerSize + writeOffset),
              buffer[bufferOffset + skipped..bufferOffset + length]), true)
  {
    var skipped := Max(0, sectorSize - headerSize - writeOffset);
    WriteChunksAsWrittenWrites(stream, blockOffset + Max(sectorSize, headerSize + writeOffset), buffer,
      writeOffset + skipped, length - skipped, sectorSize, 0);
  }

  /**
   * A 256-byte block with a 40-byte header, written from offset 0 with 200 bytes taken from
   * position 100 of a 300-byte buffer whose last 112 bytes are 1 and the others 0: the stream
   * should receive buffer[188..300], all ones, right after the sector, but the write as written
   * takes buffer[88..200] and puts a 0 there.
   */
  lemma StreamWriteDefectExample()
    ensures var buffer := Zeros(188) + seq(112, _ => 1);
      StreamWriteAsWritten(Zeros(256), 0, 40, 128, buffer, 100, 0, 200).0[128] == 0
      && Splice(Zeros(256), 128, buffer[188..300])[128] == 1
  {
    var buffer: seq<byte> := Zeros(188) + seq(112, _ => 1);
    WriteChunksAsWrittenWrites(Zeros(256), 128, buffer, 88, 112, 128, 0);
    assert Splice(Zeros(256), 128, buffer[88..200])[128] == buffer[88];
    assert Splice(Zeros(256), 128, buffer[188..300])[128] == buffer[188];
  }
}
