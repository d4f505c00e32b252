/**
 * The key and value serializers: ISerializer<T> as a record of its two properties and two
 * conversions, and the four serializers of the library (uint, int, Guid, string).
 */
module Serializers {
  import opened Bytes
  import opened Errors
  import BufferHelper
  import Guids
  import Utf8

  /** ISerializer<T>: IsFixedSize, Length, Serialize(value) and Deserialize(data, offset, length). */
  datatype Serializer<!T> = Serializer(
    isFixedSize: bool,
    length: int,
    serialize: T -> seq<byte>,
    deserialize: (seq<byte>, int, int) -> Result<T>)

  /**
   * What a node serializer relies on: a fixed-size serializer produces exactly `length` bytes,
   * and deserializing a serialization found anywhere inside a larger buffer gives the value back.
   */
  ghost predicate Sound<T(!new)>(s: Serializer<T>)
  {
    (forall x :: s.isFixedSize ==> |s.serialize(x)| == s.length) &&
    (forall x, pre, post {:trigger s.deserialize(pre + s.serialize(x) + post, |pre|, |s.serialize(x)|)} ::
       s.deserialize(pre + s.serialize(x) + post, |pre|, |s.serialize(x)|) == Ok(x))
  }

  /** Buffer.BlockCopy's argument checks for reading count bytes at offset. */
  function CopyCheck(data: seq<byte>, offset: int, count: nat): (r: Option<Exception>)
    ensures r == None <==> 0 <= offset && offset + count <= |data|
  {
    if offset < 0 then Some(ArgumentOutOfRange)
    else if offset + count > |data| then Some(Argument)
    else None
  }

  // UintSerializer

  function UintSerialize(value: uint32): (r: seq<byte>)
    ensures r == ToLE(value, 4)
  {
    BufferHelper.UInt32Bytes(value)
  }

  /** Reads the four bytes at offset; the length argument is not used. */
  function UintDeserialize(data: seq<byte>, offset: int, length: int): (r: Result<uint32>)
    ensures r.Ok? <==> 0 <= offset && offset + 4 <= |data|
    ensures r.Ok? ==> r.value == FromLE(data[offset..offset + 4])
  {
    match CopyCheck(data, offset, 4)
    case Some(e) => Err(e)
    case None => Ok(BufferHelper.ReadUInt32(data, offset))
  }

  const UintSerializer: Serializer<uint32> := Serializer(true, 4, UintSerialize, UintDeserialize)

  lemma UintRoundTrip(x: uint32, pre: seq<byte>, post: seq<byte>)
    ensures UintDeserialize(pre + UintSerialize(x) + post, |pre|, 4) == Ok(x)
  {
    var data := pre + UintSerialize(x) + post;
    assert data[|pre|..|pre| + 4] == UintSerialize(x);
    Pow256Values();
    FromLEToLE(x, 4);
  }

  lemma UintSound()
    ensures Sound(UintSerializer)
  {
    forall x: uint32, pre: seq<byte>, post: seq<byte>
      ensures UintSerializer.deserialize(pre + UintSerializer.serialize(x) + post, |pre|, |UintSerializer.serialize(x)|) == Ok(x)
    {
      UintRoundTrip(x, pre, post);
    }
  }

  // IntSerializer

  function IntSerialize(value: int32): (r: seq<byte>)
    ensures r == ToLE(Unsigned(value, 4), 4)
  {
    BufferHelper.Int32Bytes(value)
  }

  /** Reads the four bytes at offset as a two's-complement value; the length is not used. */
  function IntDeserialize(data: seq<byte>, offset: int, length: int): (r: Result<int32>)
    ensures r.Ok? <==> 0 <= offset && offset + 4 <= |data|
    ensures r.Ok? ==> r.value == Signed(FromLE(data[offset..offset + 4]), 4)
  {
    match CopyCheck(data, offset, 4)
    case Some(e) => Err(e)
    case None => Ok(BufferHelper.ReadInt32(data, offset))
  }

  const IntSerializer: Serializer<int32> := Serializer(true, 4, IntSerialize, IntDeserialize)

  lemma IntRoundTrip(x: int32, pre: seq<byte>, post: seq<byte>)
    ensures IntDeserialize(pre + IntSerialize(x) + post, |pre|, 4) == Ok(x)
  {
    var data := pre + IntSerialize(x) + post;
    assert data[|pre|..|pre| + 4] == IntSerialize(x);
    Pow256Values();
    FromLEToLE(Unsigned(x, 4), 4);
    SignedUnsigned(x, 4);
  }

  lemma IntSound()
    ensures Sound(IntSerializer)
  {
    forall x: int32, pre: seq<byte>, post: seq<byte>
      ensures IntSerializer.deserialize(pre + IntSerializer.serialize(x) + post, |pre|, |IntSerializer.serialize(x)|) == Ok(x)
    {
      IntRoundTrip(x, pre, post);
    }
  }

  // GuidSerializer

  function GuidSerialize(value: Guids.Guid): (r: seq<byte>)
    ensures |r| == 16
  {
    Guids.ToByteArray(value)
  }

  /** Rejects a length other than 16, then reads the sixteen bytes at offset. */
  function GuidDeserialize(data: seq<byte>, offset: int, length: int): (r: Result<Guids.Guid>)
    ensures length != 16 ==> r == Err(Argument)
    ensures r.Ok? <==> length == 16 && 0 <= offset && offset + 16 <= |data|
    ensures r.Ok? ==> Guids.ToByteArray(r.value) == data[offset..offset + 16]
  {
    if length != 16 then Err(Argument)
    else match CopyCheck(data, offset, 16)
      case Some(e) => Err(e)
      case None => Ok(BufferHelper.ReadGuid(data, offset))
  }

  const GuidSerializer: Serializer<Guids.Guid> := Serializer(true, 16, GuidSerialize, GuidDeserialize)

  lemma GuidRoundTrip(x: Guids.Guid, pre: seq<byte>, post: seq<byte>)
    ensures GuidDeserialize(pre + GuidSerialize(x) + post, |pre|, 16) == Ok(x)
  {
    var data := pre + GuidSerialize(x) + post;
    assert data[|pre|..|pre| + 16] == GuidSerialize(x);
    Guids.FromToByteArray(x);
  }

  lemma GuidSound()
    ensures Sound(GuidSerializer)
  {
    forall x: Guids.Guid, pre: seq<byte>, post: seq<byte>
      ensures GuidSerializer.deserialize(pre + GuidSerializer.serialize(x) + post, |pre|, |GuidSerializer.serialize(x)|) == Ok(x)
    {
      GuidRoundTrip(x, pre, post);
    }
  }

  // StringSerializer

  /** The largest UTF-8 length whose serialization, with its int length prefix, fits a byte array. */
  const MaxStringBytes := 0x7FFF_FFFF - 4

  /** The serialized form: the UTF-8 byte count as four little-endian bytes, then the bytes. */
  function StringBytes(value: string): (r: seq<byte>)
    ensures |r| == 4 + |Utf8.Encode(value)|
    ensures r[4..] == Utf8.Encode(value)
  {
    ToLE(|Utf8.Encode(value)|, 4) + Utf8.Encode(value)
  }

  /** Serialize: writes the length at 0 and copies the encoded bytes after it, into a new array. */
  method StringSerialize(value: string) returns (r: seq<byte>)
    requires |Utf8.Encode(value)| <= MaxStringBytes
    ensures r == StringBytes(value)
    ensures FromLE(r[..4]) == |Utf8.Encode(value)|
  {
    var data := Utf8.Encode(value);
    var length := |data|;
    var buffer := new byte[4 + length];
    BufferHelper.WriteBufferInt32(length, buffer, 0);
    BufferHelper.BlockCopy(data, 0, buffer, 4, length);
    r := buffer[..];
    Pow256Values();
    assert r[..4] == ToLE(length, 4) && r[4..] == data;
    FromLEToLE(length, 4);
  }

  /** Decodes the bytes [offset + 4, offset + length): the stored length prefix is not read. */
  function StringDeserialize(data: seq<byte>, offset: int, length: int): (r: Result<string>)
    ensures r.Ok? <==> 0 <= offset + 4 && 4 <= length && offset + length <= |data|
    ensures r.Ok? ==> r.value == Utf8.Decode(data[offset + 4..offset + length])
  {
    if offset + 4 < 0 || length - 4 < 0 || offset + length > |data| then Err(ArgumentOutOfRange)
    else Ok(Utf8.Decode(data[offset + 4..offset + length]))
  }

  const StringSerializer: Serializer<string> := Serializer(false, 0, StringBytes, StringDeserialize)

  lemma StringRoundTrip(x: string, pre: seq<byte>, post: seq<byte>)
    ensures StringDeserialize(pre + StringBytes(x) + post, |pre|, |StringBytes(x)|) == Ok(x)
  {
    var data := pre + StringBytes(x) + post;
    assert data[|pre| + 4..|pre| + |StringBytes(x)|] == Utf8.Encode(x);
    Utf8.DecodeEncode(x);
  }

  lemma StringSound()
    ensures Sound(StringSerializer)
  {
    forall x: string, pre: seq<byte>, post: seq<byte>
      ensures StringSerializer.deserialize(pre + StringSerializer.serialize(x) + post, |pre|, |StringSerializer.serialize(x)|) == Ok(x)
    {
      StringRoundTrip(x, pre, post);
    }
  }
}
