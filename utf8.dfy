/**
 * Encoding.UTF8: the encoding of RFC 3629 between strings (sequences of Unicode scalar values)
 * and bytes. Decoding replaces each maximal ill-formed subpart by U+FFFD, as section 3.9 of
 * The Unicode Standard recommends.
 */
module Utf8 {
  import opened Bytes

  const Replacement: char := 0xFFFD as char

  /** The one- to four-byte encoding of a scalar value. */
  function EncodeChar(c: char): (r: seq<byte>)
    ensures 1 <= |r| <= 4
  {
    var n := c as int;
    if n < 0x80 then [n]
    else if n < 0x800 then [0xC0 + n / 64, 0x80 + n % 64]
    else if n < 0x1_0000 then [0xE0 + n / 4096, 0x80 + n / 64 % 64, 0x80 + n % 64]
    else [0xF0 + n / 262144, 0x80 + n / 4096 % 64, 0x80 + n / 64 % 64, 0x80 + n % 64]
  }

  function Encode(s: string): (r: seq<byte>)
    ensures |s| <= |r| <= 4 * |s|
  {
    if s == [] then [] else EncodeChar(s[0]) + Encode(s[1..])
  }

  predicate IsContinuation(b: byte) { 0x80 <= b < 0xC0 }

  /** The number of bytes announced by a lead byte, 0 for a byte that cannot start a character. */
  function SequenceLength(b0: byte): nat
  {
    if b0 < 0x80 then 1
    else if 0xC2 <= b0 < 0xE0 then 2
    else if 0xE0 <= b0 < 0xF0 then 3
    else if 0xF0 <= b0 < 0xF5 then 4
    else 0
  }

  /** The range the second byte must fall in after lead byte b0 (Table 3-7 of The Unicode Standard). */
  predicate SecondByteOk(b0: byte, b1: byte)
  {
    if b0 == 0xE0 then 0xA0 <= b1 < 0xC0
    else if b0 == 0xED then 0x80 <= b1 < 0xA0
    else if b0 == 0xF0 then 0x90 <= b1 < 0xC0
    else if b0 == 0xF4 then 0x80 <= b1 < 0x90
    else IsContinuation(b1)
  }

  /** The first character of s and the number of bytes it takes. */
  function DecodeOne(s: seq<byte>): (r: (char, nat))
    requires |s| > 0
    ensures 1 <= r.1 <= |s|
  {
    var b0 := s[0];
    var len := SequenceLength(b0);
    if len == 1 then (b0 as char, 1)
    else if len == 0 || |s| < 2 || !SecondByteOk(b0, s[1]) then (Replacement, 1)
    else if len == 2 then (Scalar2(b0, s[1]) as char, 2)
    else if |s| < 3 || !IsContinuation(s[2]) then (Replacement, 2)
    else if len == 3 then (Scalar3(b0, s[1], s[2]) as char, 3)
    else if |s| < 4 || !IsContinuation(s[3]) then (Replacement, 3)
    else (Scalar4(b0, s[1], s[2], s[3]) as char, 4)
  }

  /** The scalar value of a well-formed two-, three- or four-byte sequence. */
  function Scalar2(b0: byte, b1: byte): (n: int)
    requires 0xC2 <= b0 < 0xE0 && 0x80 <= b1 < 0xC0
    ensures 0x80 <= n < 0x800
  {
    (b0 as int - 0xC0) * 64 + (b1 as int - 0x80)
  }

  function Scalar3(b0: byte, b1: byte, b2: byte): (n: int)
    requires 0xE0 <= b0 < 0xF0 && SecondByteOk(b0, b1) && IsContinuation(b2)
    ensures 0x800 <= n < 0xD800 || 0xE000 <= n < 0x1_0000
  {
    (b0 as int - 0xE0) * 4096 + (b1 as int - 0x80) * 64 + (b2 as int - 0x80)
  }

  function Scalar4(b0: byte, b1: byte, b2: byte, b3: byte): (n: int)
    requires 0xF0 <= b0 < 0xF5 && SecondByteOk(b0, b1) && IsContinuation(b2) && IsContinuation(b3)
    ensures 0x1_0000 <= n < 0x11_0000
  {
    (b0 as int - 0xF0) * 262144 + (b1 as int - 0x80) * 4096 + (b2 as int - 0x80) * 64 + (b3 as int - 0x80)
  }

  function Decode(s: seq<byte>): (r: string)
    ensures |r| <= |s|
    decreases |s|
  {
    if s == [] then [] else
      var (c, k) := DecodeOne(s);
      [c] + Decode(s[k..])
  }

  lemma Digits2(n: int)
    requires 0x80 <= n < 0x800
    ensures 0xC2 <= 0xC0 + n / 64 < 0xE0 && 0 <= n % 64 < 64
    ensures Scalar2(0xC0 + n / 64, 0x80 + n % 64) == n
  {
  }

  lemma Digits3(n: int)
    requires 0x800 <= n < 0xD800 || 0xE000 <= n < 0x1_0000
    ensures 0xE0 <= 0xE0 + n / 4096 < 0xF0
    ensures SecondByteOk(0xE0 + n / 4096, 0x80 + n / 64 % 64) && IsContinuation(0x80 + n % 64)
    ensures Scalar3(0xE0 + n / 4096, 0x80 + n / 64 % 64, 0x80 + n % 64) == n
  {
    var a, b, c := n / 4096, n / 64 % 64, n % 64;
    assert n / 64 == a * 64 + b;
    assert n == a * 4096 + b * 64 + c;
  }

  lemma Digits4(n: int)
    requires 0x1_0000 <= n < 0x11_0000
    ensures 0xF0 <= 0xF0 + n / 262144 < 0xF5
    ensures SecondByteOk(0xF0 + n / 262144, 0x80 + n / 4096 % 64)
    ensures IsContinuation(0x80 + n / 64 % 64) && IsContinuation(0x80 + n % 64)
    ensures Scalar4(0xF0 + n / 262144, 0x80 + n / 4096 % 64, 0x80 + n / 64 % 64, 0x80 + n % 64) == n
  {
    var a, b, c, d := n / 262144, n / 4096 % 64, n / 64 % 64, n % 64;
    assert n / 4096 == a * 64 + b;
    assert n / 64 == (a * 64 + b) * 64 + c;
    assert n == a * 262144 + b * 4096 + c * 64 + d;
  }

  lemma DecodeOneEncodeChar(c: char, rest: seq<byte>)
    ensures DecodeOne(EncodeChar(c) + rest) == (c, |EncodeChar(c)|)
  {
    var n := c as int;
    var s := EncodeChar(c) + rest;
    if n < 0x80 {
    } else if n < 0x800 {
      Digits2(n);
      assert s[0] == 0xC0 + n / 64 && s[1] == 0x80 + n % 64;
    } else if n < 0x1_0000 {
      Digits3(n);
      assert s[0] == 0xE0 + n / 4096 && s[1] == 0x80 + n / 64 % 64 && s[2] == 0x80 + n % 64;
    } else {
      Digits4(n);
      assert s[0] == 0xF0 + n / 262144 && s[1] == 0x80 + n / 4096 % 64;
      assert s[2] == 0x80 + n / 64 % 64 && s[3] == 0x80 + n % 64;
    }
  }

  /** Decoding an encoding gives the string back. */
  lemma {:induction false} DecodeEncode(s: string)
    ensures Decode(Encode(s)) == s
  {
    if s != [] {
      var e := Encode(s);
      assert e == EncodeChar(s[0]) + Encode(s[1..]);
      DecodeOneEncodeChar(s[0], Encode(s[1..]));
      assert e[|EncodeChar(s[0])|..] == Encode(s[1..]);
      DecodeEncode(s[1..]);
    }
  }

  /** The encoding of a concatenation is the concatenation of the encodings. */
  lemma {:induction false} EncodeAppend(s: string, t: string)
    ensures Encode(s + t) == Encode(s) + Encode(t)
  {
    if s != [] {
      assert (s + t)[1..] == s[1..] + t;
      EncodeAppend(s[1..], t);
    } else {
      assert s + t == t;
    }
  }
}
