/** Bytes, fixed-width integers and the little-endian digit view shared by every codec. */
module Bytes {

  type byte = x: int | 0 <= x < 256

  /** The .NET integer types that appear in the storage formats. */
  type int32 = x: int | -0x8000_0000 <= x < 0x8000_0000
  type uint32 = x: int | 0 <= x < 0x1_0000_0000
  type int64 = x: int | -0x8000_0000_0000_0000 <= x < 0x8000_0000_0000_0000
  type uint64 = x: int | 0 <= x < 0x1_0000_0000_0000_0000

  function Pow256(n: nat): (r: nat)
    ensures r >= 1
  {
    if n == 0 then 1 else 256 * Pow256(n - 1)
  }

  lemma Pow256Values()
    ensures Pow256(4) == 0x1_0000_0000
    ensures Pow256(8) == 0x1_0000_0000_0000_0000
  {
    assert Pow256(2) == 65536;
    assert Pow256(4) == Pow256(2) * Pow256(2) by {
      assert Pow256(4) == 256 * (256 * Pow256(2));
    }
    assert Pow256(8) == Pow256(4) * Pow256(4) by {
      assert Pow256(8) == 256 * (256 * (256 * (256 * Pow256(4))));
    }
  }

  /** The n least significant base-256 digits of v, least significant first. */
  function ToLE(v: nat, n: nat): (r: seq<byte>)
    ensures |r| == n
  {
    if n == 0 then [] else [v % 256] + ToLE(v / 256, n - 1)
  }

  /** The number whose base-256 digits, least significant first, are s. */
  function FromLE(s: seq<byte>): (r: nat)
    ensures r < Pow256(|s|)
  {
    if s == [] then 0 else s[0] + 256 * FromLE(s[1..])
  }

  lemma {:induction false} FromLEToLE(v: nat, n: nat)
    requires v < Pow256(n)
    ensures FromLE(ToLE(v, n)) == v
  {
    if n > 0 {
      FromLEToLE(v / 256, n - 1);
      assert ToLE(v, n)[1..] == ToLE(v / 256, n - 1);
    }
  }

  lemma {:induction false} ToLEFromLE(s: seq<byte>)
    ensures ToLE(FromLE(s), |s|) == s
  {
    if s != [] {
      ToLEFromLE(s[1..]);
      assert (s[0] + 256 * FromLE(s[1..])) / 256 == FromLE(s[1..]);
    }
  }

  /** Two digit strings of the same width are equal exactly when their values are. */
  lemma FromLEInjective(s: seq<byte>, t: seq<byte>)
    requires |s| == |t| && FromLE(s) == FromLE(t)
    ensures s == t
  {
    ToLEFromLE(s);
    ToLEFromLE(t);
  }

  /** Half the range of n bytes: the bound of the signed values. */
  function Half(n: nat): int
  {
    Pow256(n) / 2
  }

  /** Two's complement: the unsigned pattern of a signed value of n bytes. */
  function Unsigned(x: int, n: nat): (r: nat)
    requires -Half(n) <= x < Half(n)
    ensures r < Pow256(n)
    ensures (x >= 0 ==> r == x) && (x < 0 ==> r == x + Pow256(n))
  {
    if x < 0 then x + Pow256(n) else x
  }

  /** Two's complement: the signed value of an unsigned pattern of n bytes. */
  function Signed(u: nat, n: nat): (r: int)
    requires n > 0 && u < Pow256(n)
    ensures -Half(n) <= r < Half(n)
    ensures Unsigned(r, n) == u
  {
    HalfTwice(n);
    if u >= Pow256(n) / 2 then u - Pow256(n) else u
  }

  /** For a positive width the signed range is half of the unsigned one. */
  lemma HalfTwice(n: nat)
    requires n > 0
    ensures 2 * Half(n) == Pow256(n)
  {
    var p := Pow256(n - 1);
    assert Pow256(n) == 256 * p;
    assert Half(n) == 128 * p;
  }

  lemma SignedUnsigned(x: int, n: nat)
    requires n > 0 && -Half(n) <= x < Half(n)
    ensures Signed(Unsigned(x, n), n) == x
  {
    HalfTwice(n);
  }

  function Reverse<T>(s: seq<T>): (r: seq<T>)
    ensures |r| == |s|
    ensures forall i | 0 <= i < |s| :: r[i] == s[|s| - 1 - i]
  {
    if s == [] then [] else Reverse(s[1..]) + [s[0]]
  }

  lemma ReverseReverse<T>(s: seq<T>)
    ensures Reverse(Reverse(s)) == s
  {
    assert forall i | 0 <= i < |s| :: Reverse(Reverse(s))[i] == s[i];
  }

  /** C#'s unchecked conversion of a 64-bit value to uint: keep the low 32 bits. */
  function TruncateToUInt32(x: int): (r: uint32)
    ensures 0 <= x < 0x1_0000_0000 ==> r == x
  {
    x % 0x1_0000_0000
  }

  /** C#'s unchecked conversion of a 64-bit value to int: keep the low 32 bits, signed. */
  function TruncateToInt32(x: int): (r: int32)
    ensures -0x8000_0000 <= x < 0x8000_0000 ==> r == x
  {
    var u := x % 0x1_0000_0000;
    if u >= 0x8000_0000 then u - 0x1_0000_0000 else u
  }

  /** s with the bytes at [offset, offset + |bytes|) replaced by bytes: what a block copy leaves. */
  function Splice<T>(s: seq<T>, offset: nat, bytes: seq<T>): (r: seq<T>)
    requires offset + |bytes| <= |s|
    ensures |r| == |s|
    ensures r[offset..offset + |bytes|] == bytes
    ensures forall i | 0 <= i < |s| && !(offset <= i < offset + |bytes|) :: r[i] == s[i]
  {
    seq(|s|, i requires 0 <= i < |s| => if offset <= i < offset + |bytes| then bytes[i - offset] else s[i])
  }

  /** A range that does not meet the spliced range reads as before. */
  lemma SpliceOutside<T>(s: seq<T>, offset: nat, bytes: seq<T>, lo: nat, hi: nat)
    requires offset + |bytes| <= |s| && lo <= hi <= |s|
    requires hi <= offset || offset + |bytes| <= lo
    ensures Splice(s, offset, bytes)[lo..hi] == s[lo..hi]
  {
    var r := Splice(s, offset, bytes);
    assert forall i | lo <= i < hi :: r[i] == s[i];
  }

  /** A range inside the spliced range reads the corresponding part of the new bytes. */
  lemma SpliceInside<T>(s: seq<T>, offset: nat, bytes: seq<T>, lo: nat, hi: nat)
    requires offset + |bytes| <= |s| && offset <= lo <= hi <= offset + |bytes|
    ensures Splice(s, offset, bytes)[lo..hi] == bytes[lo - offset..hi - offset]
  {
    var r := Splice(s, offset, bytes);
    assert forall i | lo <= i < hi :: r[i] == bytes[i - offset];
  }

  /** Two adjacent splices are one splice of the concatenated bytes. */
  lemma SpliceAdjacent<T>(s: seq<T>, offset: nat, x: seq<T>, y: seq<T>)
    requires offset + |x| + |y| <= |s|
    ensures Splice(Splice(s, offset, x), offset + |x|, y) == Splice(s, offset, x + y)
  {
    var l := Splice(Splice(s, offset, x), offset + |x|, y);
    var r := Splice(s, offset, x + y);
    assert forall i | 0 <= i < |s| :: l[i] == r[i];
  }

  /** Splicing two consecutive slices of v is splicing their union. */
  lemma SpliceConsecutive<T>(s: seq<T>, offset: nat, middle: nat, v: seq<T>, a: nat, b: nat, c: nat)
    requires a <= b <= c <= |v| && offset + (c - a) <= |s| && middle == offset + (b - a)
    ensures Splice(Splice(s, offset, v[a..b]), middle, v[b..c]) == Splice(s, offset, v[a..c])
  {
    SpliceAdjacent(s, offset, v[a..b], v[b..c]);
    assert v[a..b] + v[b..c] == v[a..c];
  }

  /** A splice of the first b bytes of v, then of the bytes up to c right after them, is a splice of the first c. */
  lemma SpliceExtend<T>(s0: seq<T>, s1: seq<T>, s2: seq<T>, offset: nat, v: seq<T>, b: nat, c: nat)
    requires b <= c <= |v| && offset + c <= |s0|
    requires s1 == Splice(s0, offset, v[0..b]) && s2 == Splice(s1, offset + b, v[b..c])
    ensures s2 == Splice(s0, offset, v[0..c])
  {
    SpliceConsecutive(s0, offset, offset + b, v, 0, b, c);
  }

  /** A splice inside the window [base, base + n) is a splice of the window. */
  lemma SpliceWindow<T>(s: seq<T>, base: nat, n: nat, offset: nat, bytes: seq<T>)
    requires base + n <= |s| && offset + |bytes| <= n
    ensures Splice(s, base + offset, bytes)[base..base + n] == Splice(s[base..base + n], offset, bytes)
  {
    var l := Splice(s, base + offset, bytes)[base..base + n];
    var r := Splice(s[base..base + n], offset, bytes);
    assert forall i | 0 <= i < n :: l[i] == r[i];
  }

  function Zeros(n: nat): (r: seq<byte>)
    ensures |r| == n && forall i | 0 <= i < n :: r[i] == 0
  {
    seq(n, _ => 0)
  }
}
