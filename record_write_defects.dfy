/**
 * RecordWriteDefects: what the Block.Write defect does to records. RecordStorage writes every
 * chunk of a record with Block.Write(data, written, 0, n): from the record's data at the bytes
 * already written, to the start of the block's content. Block.Write as written takes the part
 * past the first sector from the buffer at the write offset, ignoring the buffer offset, so a
 * chunk after the first whose end lies past the first sector gets the record's leading bytes
 * there. RecordSpec (and RecordLemmas.CreateThenFind) model the write as intended; the lemmas
 * here say when the two agree: always for the first block of a record, and for every block
 * when the block size is the disk sector size, which are the block sizes 128 and 4096.
 */
module RecordWriteDefects {
  import opened Bytes
  import opened Storage
  import opened StorageDefects

  /** The first-sector size BlockStorage takes for a block size. */
  function SectorSizeFor(blockSize: int): (r: int)
    ensures r == MinDiskSectorSize || r == MaxDiskSectorSize
    ensures blockSize < MaxDiskSectorSize <==> r == MinDiskSectorSize
  {
    if blockSize < MaxDiskSectorSize then MinDiskSectorSize else MaxDiskSectorSize
  }

  /**
   * Every block's content lies in its first sector exactly for the block sizes 128 and 4096:
   * then no write reaches the stream part the defect is in.
   */
  lemma ContentInFirstSector(blockSize: int, headerSize: nat)
    requires MinDiskSectorSize <= blockSize && headerSize < blockSize
    ensures blockSize <= SectorSizeFor(blockSize) <==> blockSize == MinDiskSectorSize || blockSize == MaxDiskSectorSize
  {
  }

  /**
   * Block.Write(data, written, 0, n) as written on a block's bytes `view` (header, then
   * content): the bytes that fit go to the first sector, the rest through the stream part as
   * written. False when a Stream.Write throws on the way.
   */
  function ChunkWriteAsWritten(view: seq<byte>, headerSize: nat, sectorSize: nat, data: seq<byte>,
                               written: nat, n: nat): (r: (seq<byte>, bool))
    requires headerSize <= sectorSize && 0 < sectorSize && headerSize + n <= |view| && written + n <= |data|
    ensures |r.0| == |view|
    ensures headerSize + n <= sectorSize ==> r == (Splice(view, headerSize, data[written..written + n]), true)
  {
    var inSector := Min(sectorSize - headerSize, n);
    var first := Splice(view, headerSize, data[written..written + inSector]);
    if headerSize + n > sectorSize then StreamWriteAsWritten(first, 0, headerSize, sectorSize, data, written, 0, n)
    else (first, true)
  }

  /** The first chunk of a record, written from the start of its data, lands as intended. */
  lemma FirstChunkAsIntended(view: seq<byte>, headerSize: nat, sectorSize: nat, data: seq<byte>, n: nat)
    requires headerSize <= sectorSize && 0 < sectorSize && headerSize + n <= |view| && n <= |data|
    ensures ChunkWriteAsWritten(view, headerSize, sectorSize, data, 0, n) == (Splice(view, headerSize, data[0..n]), true)
  {
    if headerSize + n > sectorSize {
      var inSector := sectorSize - headerSize;
      var first := Splice(view, headerSize, data[0..inSector]);
      StreamWriteAsWrittenWhenOffsetsAgree(first, 0, headerSize, sectorSize, data, 0, 0, n);
      SpliceConsecutive(view, headerSize, sectorSize, data, 0, inSector, n);
    }
  }

  /**
   * A later chunk whose end lies past the first sector: as written, the block's bytes past the
   * sector receive the record's data from sectorSize - headerSize on, where the bytes from
   * written + sectorSize - headerSize on belong.
   */
  lemma LaterChunkAsWritten(view: seq<byte>, headerSize: nat, sectorSize: nat, data: seq<byte>, written: nat, n: nat)
    requires headerSize < sectorSize && headerSize + n <= |view| && written + n <= |data|
    requires headerSize + n > sectorSize
    ensures var r := ChunkWriteAsWritten(view, headerSize, sectorSize, data, written, n);
      r.1 && r.0[..sectorSize] == Splice(view, headerSize, data[written..written + n])[..sectorSize]
      && r.0[sectorSize..headerSize + n] == data[sectorSize - headerSize..n]
      && Splice(view, headerSize, data[written..written + n])[sectorSize..headerSize + n]
         == data[written + (sectorSize - headerSize)..written + n]
  {
    var inSector := sectorSize - headerSize;
    var chunk := data[written..written + n];
    var first := Splice(view, headerSize, data[written..written + inSector]);
    WriteChunksAsWrittenWrites(first, sectorSize, data, inSector, n - inSector, sectorSize, 0);
    var r := Splice(first, sectorSize, data[inSector..n]);
    var whole := Splice(view, headerSize, chunk);
    assert r[..sectorSize] == whole[..sectorSize] by {
      forall i | 0 <= i < sectorSize
        ensures r[i] == whole[i]
      {
        if headerSize <= i {
          assert first[headerSize..headerSize + inSector][i - headerSize] == data[written + (i - headerSize)];
          assert whole[headerSize..headerSize + n][i - headerSize] == chunk[i - headerSize];
        }
      }
    }
    assert whole[sectorSize..headerSize + n] == chunk[inSector..n] by {
      forall i | sectorSize <= i < headerSize + n
        ensures whole[i] == chunk[i - headerSize]
      {
        assert whole[headerSize..headerSize + n][i - headerSize] == chunk[i - headerSize];
      }
    }
  }

  /**
   * A 316-byte record in 256-byte blocks (40-byte header, 128-byte sectors, 216 bytes of
   * content per block) whose last 12 bytes are 1 and the others 0: its second chunk is the 100
   * bytes from 216, and as written the block receives 0 at byte 128 of the block, where the
   * record's byte 304, a 1, belongs.
   */
  lemma SecondChunkExample(view: seq<byte>)
    requires |view| == 256
    ensures var data := Zeros(304) + seq(12, _ => 1);
      var n := Min(216, |data| - 216);
      n == 100
      && ChunkWriteAsWritten(view, 40, 128, data, 216, n).0[128] == 0
      && Splice(view, 40, data[216..316])[128] == 1
  {
    var data: seq<byte> := Zeros(304) + seq(12, _ => 1);
    LaterChunkAsWritten(view, 40, 128, data, 216, 100);
    var r := ChunkWriteAsWritten(view, 40, 128, data, 216, 100);
    assert r.0[128..140][0] == data[88..100][0];
    assert Splice(view, 40, data[216..316])[128..140][0] == data[304..316][0];
  }
}
