/**
 * LittleEndian: conversion of the integer types to and from little-endian byte arrays on a
 * host of either byte order. The host's order is the parameter `isLittleEndian`, standing for
 * BitConverter.IsLittleEndian; BitConverter itself is modelled by NativeBytes and NativeValue.
 */
module LittleEndian {
  import opened Bytes

  /** BitConverter.GetBytes: the n-byte pattern u in the host's byte order. */
  function NativeBytes(u: nat, n: nat, isLittleEndian: bool): (r: seq<byte>)
    ensures |r| == n
  {
    if isLittleEndian then ToLE(u, n) else Reverse(ToLE(u, n))
  }

  /** BitConverter.ToUInt32/ToUInt64 at offset 0: the first n bytes read in the host's order. */
  function NativeValue(bytes: seq<byte>, n: nat, isLittleEndian: bool): (r: nat)
    requires n <= |bytes|
    ensures r < Pow256(n)
  {
    if isLittleEndian then FromLE(bytes[..n]) else FromLE(Reverse(bytes[..n]))
  }

  /** The shared shape of the four GetBytes overloads: native bytes, reversed on a big-endian host. */
  function GetBytes(u: nat, n: nat, isLittleEndian: bool): (r: seq<byte>)
    ensures r == ToLE(u, n)
  {
    var bytes := NativeBytes(u, n, isLittleEndian);
    if !isLittleEndian then ReverseReverse(ToLE(u, n)); Reverse(bytes) else bytes
  }

  /**
   * The shared shape of the four Get* readers: on a big-endian host the WHOLE array is
   * reversed before its first n bytes are read, so a longer array is read from its end.
   */
  function GetValue(bytes: seq<byte>, n: nat, isLittleEndian: bool): (r: nat)
    requires n <= |bytes|
    ensures isLittleEndian ==> r == FromLE(bytes[..n])
    ensures !isLittleEndian ==> r == FromLE(bytes[|bytes| - n..])
  {
    if isLittleEndian then
      NativeValue(bytes, n, true)
    else
      var newBytes := Reverse(bytes);
      assert Reverse(newBytes[..n]) == bytes[|bytes| - n..];
      NativeValue(newBytes, n, false)
  }

  function GetBytesInt32(value: int32, isLittleEndian: bool): (r: seq<byte>)
    ensures |r| == 4 && r == ToLE(Unsigned(value, 4), 4)
  {
    Pow256Values();
    GetBytes(Unsigned(value, 4), 4, isLittleEndian)
  }

  function GetBytesUInt32(value: uint32, isLittleEndian: bool): (r: seq<byte>)
    ensures |r| == 4 && r == ToLE(value, 4)
  {
    GetBytes(value, 4, isLittleEndian)
  }

  function GetBytesInt64(value: int64, isLittleEndian: bool): (r: seq<byte>)
    ensures |r| == 8 && r == ToLE(Unsigned(value, 8), 8)
  {
    Pow256Values();
    GetBytes(Unsigned(value, 8), 8, isLittleEndian)
  }

  function GetBytesUInt64(value: uint64, isLittleEndian: bool): (r: seq<byte>)
    ensures |r| == 8 && r == ToLE(value, 8)
  {
    GetBytes(value, 8, isLittleEndian)
  }

  function GetInt32(bytes: seq<byte>, isLittleEndian: bool): (r: int32)
    requires |bytes| >= 4
    ensures isLittleEndian ==> r == Signed(FromLE(bytes[..4]), 4)
    ensures !isLittleEndian ==> r == Signed(FromLE(bytes[|bytes| - 4..]), 4)
  {
    Pow256Values();
    Signed(GetValue(bytes, 4, isLittleEndian), 4)
  }

  function GetUInt32(bytes: seq<byte>, isLittleEndian: bool): (r: uint32)
    requires |bytes| >= 4
    ensures isLittleEndian ==> r == FromLE(bytes[..4])
    ensures !isLittleEndian ==> r == FromLE(bytes[|bytes| - 4..])
  {
    Pow256Values();
    GetValue(bytes, 4, isLittleEndian)
  }

  function GetInt64(bytes: seq<byte>, isLittleEndian: bool): (r: int64)
    requires |bytes| >= 8
    ensures isLittleEndian ==> r == Signed(FromLE(bytes[..8]), 8)
    ensures !isLittleEndian ==> r == Signed(FromLE(bytes[|bytes| - 8..]), 8)
  {
    Pow256Values();
    Signed(GetValue(bytes, 8, isLittleEndian), 8)
  }

  function GetUInt64(bytes: seq<byte>, isLittleEndian: bool): (r: uint64)
    requires |bytes| >= 8
    ensures isLittleEndian ==> r == FromLE(bytes[..8])
    ensures !isLittleEndian ==> r == FromLE(bytes[|bytes| - 8..])
  {
    Pow256Values();
    GetValue(bytes, 8, isLittleEndian)
  }

  /** Reading back what was written gives the value, whatever the byte order of either host. */
  lemma Int32RoundTrip(x: int32, writer: bool, reader: bool)
    ensures GetInt32(GetBytesInt32(x, writer), reader) == x
  {
    Pow256Values();
    var b := GetBytesInt32(x, writer);
    assert b[..4] == b[|b| - 4..] == b;
    FromLEToLE(Unsigned(x, 4), 4);
    SignedUnsigned(x, 4);
  }

  lemma UInt32RoundTrip(x: uint32, writer: bool, reader: bool)
    ensures GetUInt32(GetBytesUInt32(x, writer), reader) == x
  {
    Pow256Values();
    var b := GetBytesUInt32(x, writer);
    assert b[..4] == b[|b| - 4..] == b;
    FromLEToLE(x, 4);
  }

  lemma Int64RoundTrip(x: int64, writer: bool, reader: bool)
    ensures GetInt64(GetBytesInt64(x, writer), reader) == x
  {
    Pow256Values();
    var b := GetBytesInt64(x, writer);
    assert b[..8] == b[|b| - 8..] == b;
    FromLEToLE(Unsigned(x, 8), 8);
    SignedUnsigned(x, 8);
  }

  lemma UInt64RoundTrip(x: uint64, writer: bool, reader: bool)
    ensures GetUInt64(GetBytesUInt64(x, writer), reader) == x
  {
    Pow256Values();
    var b := GetBytesUInt64(x, writer);
    assert b[..8] == b[|b| - 8..] == b;
    FromLEToLE(x, 8);
  }

  /** On an array of exactly the value's width, both branches of the readers agree. */
  lemma ReadersHostIndependent(bytes: seq<byte>)
    ensures |bytes| == 4 ==> GetInt32(bytes, true) == GetInt32(bytes, false)
    ensures |bytes| == 4 ==> GetUInt32(bytes, true) == GetUInt32(bytes, false)
    ensures |bytes| == 8 ==> GetInt64(bytes, true) == GetInt64(bytes, false)
    ensures |bytes| == 8 ==> GetUInt64(bytes, true) == GetUInt64(bytes, false)
  {
    assert bytes[..|bytes|] == bytes[|bytes| - |bytes|..] == bytes;
  }

  /** On a longer array the two hosts read different bytes: [1,0,0,0,0] reads 1 or 0. */
  lemma ReadersDependOnHostForLongerArrays()
    ensures GetUInt32([1, 0, 0, 0, 0], true) == 1
    ensures GetUInt32([1, 0, 0, 0, 0], false) == 0
  {
    var b: seq<byte> := [1, 0, 0, 0, 0];
    assert b[..4] == [1, 0, 0, 0];
    assert b[|b| - 4..] == [0, 0, 0, 0];
    assert FromLE([0, 0, 0, 0]) == 0 by {
      assert [0, 0, 0, 0][1..] == [0, 0, 0];
      assert [0, 0, 0][1..] == [0, 0];
      assert [0, 0][1..] == [0];
      assert [0][1..] == [];
    }
    assert FromLE([1, 0, 0, 0]) == 1 by {
      assert [1, 0, 0, 0][1..] == [0, 0, 0];
      assert [0, 0, 0][1..] == [0, 0];
      assert [0, 0][1..] == [0];
      assert [0][1..] == [];
    }
  }
}
