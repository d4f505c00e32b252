/**
 * BufferHelper: fixed-width little-endian reads from, and writes into, a byte array at an offset.
 * Every LittleEndian conversion used here gives the same bytes and values on hosts of either
 * byte order (ReadersHostIndependent and the GetBytes contracts), so the helpers are stated for
 * the little-endian host and hold on both.
 */
module BufferHelper {
  import opened Bytes
  import LittleEndian
  import Guids

  /**
   * Buffer.BlockCopy(src, srcOffset, dst, dstOffset, count), copying byte by byte. The source
   * is a value, so an overlapping copy within one array behaves as the library's does.
   */
  method BlockCopy(src: seq<byte>, srcOffset: nat, dst: array<byte>, dstOffset: nat, count: nat)
    requires srcOffset + count <= |src| && dstOffset + count <= dst.Length
    modifies dst
    ensures dst[..] == Splice(old(dst[..]), dstOffset, src[srcOffset..srcOffset + count])
  {
    ghost var before := dst[..];
    for i := 0 to count
      invariant dst[..] == Splice(before, dstOffset, src[srcOffset..srcOffset + i])
    {
      dst[dstOffset + i] := src[srcOffset + i];
      assert src[srcOffset..srcOffset + i + 1] == src[srcOffset..srcOffset + i] + [src[srcOffset + i]];
    }
  }

  function ReadGuid(buffer: seq<byte>, offset: nat): (g: Guids.Guid)
    requires offset + 16 <= |buffer|
    ensures Guids.ToByteArray(g) == buffer[offset..offset + 16]
  {
    Guids.FromByteArray(buffer[offset..offset + 16])
  }

  function ReadInt32(buffer: seq<byte>, offset: nat): (r: int32)
    requires offset + 4 <= |buffer|
    ensures r == Signed(FromLE(buffer[offset..offset + 4]), 4)
  {
    var bytes := buffer[offset..offset + 4];
    assert bytes[..4] == bytes;
    LittleEndian.GetInt32(bytes, true)
  }

  function ReadUInt32(buffer: seq<byte>, offset: nat): (r: uint32)
    requires offset + 4 <= |buffer|
    ensures r == FromLE(buffer[offset..offset + 4])
  {
    var bytes := buffer[offset..offset + 4];
    assert bytes[..4] == bytes;
    LittleEndian.GetUInt32(bytes, true)
  }

  function ReadInt64(buffer: seq<byte>, offset: nat): (r: int64)
    requires offset + 8 <= |buffer|
    ensures r == Signed(FromLE(buffer[offset..offset + 8]), 8)
  {
    var bytes := buffer[offset..offset + 8];
    assert bytes[..8] == bytes;
    LittleEndian.GetInt64(bytes, true)
  }

  function ReadUInt64(buffer: seq<byte>, offset: nat): (r: uint64)
    requires offset + 8 <= |buffer|
    ensures r == FromLE(buffer[offset..offset + 8])
  {
    var bytes := buffer[offset..offset + 8];
    assert bytes[..8] == bytes;
    LittleEndian.GetUInt64(bytes, true)
  }

  /** The bytes WriteBuffer(int) copies: LittleEndian.GetBytes(value), on either host. */
  function Int32Bytes(value: int32): (r: seq<byte>)
    ensures |r| == 4
    ensures forall host: bool :: r == LittleEndian.GetBytesInt32(value, host)
  {
    LittleEndian.GetBytesInt32(value, true)
  }

  function UInt32Bytes(value: uint32): (r: seq<byte>)
    ensures |r| == 4
    ensures forall host: bool :: r == LittleEndian.GetBytesUInt32(value, host)
  {
    LittleEndian.GetBytesUInt32(value, true)
  }

  function Int64Bytes(value: int64): (r: seq<byte>)
    ensures |r| == 8
    ensures forall host: bool :: r == LittleEndian.GetBytesInt64(value, host)
  {
    LittleEndian.GetBytesInt64(value, true)
  }

  function UInt64Bytes(value: uint64): (r: seq<byte>)
    ensures |r| == 8
    ensures forall host: bool :: r == LittleEndian.GetBytesUInt64(value, host)
  {
    LittleEndian.GetBytesUInt64(value, true)
  }

  method WriteBufferInt32(value: int32, buffer: array<byte>, offset: nat)
    requires offset + 4 <= buffer.Length
    modifies buffer
    ensures buffer[..] == Splice(old(buffer[..]), offset, Int32Bytes(value))
  {
    var bytes := LittleEndian.GetBytesInt32(value, true);
    BlockCopy(bytes, 0, buffer, offset, 4);
  }

  method WriteBufferUInt32(value: uint32, buffer: array<byte>, offset: nat)
    requires offset + 4 <= buffer.Length
    modifies buffer
    ensures buffer[..] == Splice(old(buffer[..]), offset, UInt32Bytes(value))
  {
    var bytes := LittleEndian.GetBytesUInt32(value, true);
    BlockCopy(bytes, 0, buffer, offset, 4);
  }

  method WriteBufferInt64(value: int64, buffer: array<byte>, offset: nat)
    requires offset + 8 <= buffer.Length
    modifies buffer
    ensures buffer[..] == Splice(old(buffer[..]), offset, Int64Bytes(value))
  {
    var bytes := LittleEndian.GetBytesInt64(value, true);
    BlockCopy(bytes, 0, buffer, offset, 8);
  }

  method WriteBufferUInt64(value: uint64, buffer: array<byte>, offset: nat)
    requires offset + 8 <= buffer.Length
    modifies buffer
    ensures buffer[..] == Splice(old(buffer[..]), offset, UInt64Bytes(value))
  {
    var bytes := LittleEndian.GetBytesUInt64(value, true);
    BlockCopy(bytes, 0, buffer, offset, 8);
  }

  /** A read at the offset of a write returns the written value; the other bytes are untouched. */
  lemma ReadInt32AfterWrite(buffer: seq<byte>, offset: nat, value: int32)
    requires offset + 4 <= |buffer|
    ensures ReadInt32(Splice(buffer, offset, Int32Bytes(value)), offset) == value
  {
    LittleEndian.Int32RoundTrip(value, true, true);
  }

  lemma ReadUInt32AfterWrite(buffer: seq<byte>, offset: nat, value: uint32)
    requires offset + 4 <= |buffer|
    ensures ReadUInt32(Splice(buffer, offset, UInt32Bytes(value)), offset) == value
  {
    LittleEndian.UInt32RoundTrip(value, true, true);
  }

  lemma ReadInt64AfterWrite(buffer: seq<byte>, offset: nat, value: int64)
    requires offset + 8 <= |buffer|
    ensures ReadInt64(Splice(buffer, offset, Int64Bytes(value)), offset) == value
  {
    LittleEndian.Int64RoundTrip(value, true, true);
  }

  lemma ReadUInt64AfterWrite(buffer: seq<byte>, offset: nat, value: uint64)
    requires offset + 8 <= |buffer|
    ensures ReadUInt64(Splice(buffer, offset, UInt64Bytes(value)), offset) == value
  {
    LittleEndian.UInt64RoundTrip(value, true, true);
  }

  /** A read of eight bytes that do not meet the written range returns what it returned before. */
  lemma ReadInt64Disjoint(buffer: seq<byte>, offset: nat, bytes: seq<byte>, other: nat)
    requires offset + |bytes| <= |buffer| && other + 8 <= |buffer|
    requires other + 8 <= offset || offset + |bytes| <= other
    ensures ReadInt64(Splice(buffer, offset, bytes), other) == ReadInt64(buffer, other)
  {
    SpliceOutside(buffer, offset, bytes, other, other + 8);
  }

  /** Reading inside a window of a buffer is reading the buffer at the shifted offset. */
  lemma ReadInt64Window(buffer: seq<byte>, base: nat, n: nat, offset: nat)
    requires base + n <= |buffer| && offset + 8 <= n
    ensures ReadInt64(buffer[base..base + n], offset) == ReadInt64(buffer, base + offset)
  {
    var w := buffer[base..base + n][offset..offset + 8];
    assert forall i | 0 <= i < 8 :: w[i] == buffer[base + offset + i];
    assert w == buffer[base + offset..base + offset + 8];
  }
}
