/**
 * Java's fixed-width integers and the byte-level helpers of the identifier codec:
 * big-endian two's-complement conversion (what java.nio.ByteBuffer does with
 * putInt/putLong and getInt/getLong), sign extension of a byte, the `>> 4` shift,
 * bitwise OR on longs, and the byte-array copy loop.
 */
module Bytes {

  /** The bit pattern of one Java byte, read as an unsigned number. */
  type Byte = b: int | 0 <= b < 0x100

  /** Java `int`. */
  type Int32 = x: int | -0x8000_0000 <= x < 0x8000_0000

  /** Java `long`. */
  type Int64 = x: int | -0x8000_0000_0000_0000 <= x < 0x8000_0000_0000_0000

  const Two32: nat := 0x1_0000_0000
  const Two64: nat := 0x1_0000_0000_0000_0000

  /** 256 to the power n: the number of distinct n-byte patterns. */
  function Pow256(n: nat): (p: nat)
    ensures p >= 1
    ensures n >= 1 ==> p >= 256
  {
    if n == 0 then 1 else 256 * Pow256(n - 1)
  }

  lemma Pow256Values()
    ensures Pow256(4) == Two32
    ensures Pow256(8) == Two64
  {
    assert Pow256(1) == 0x100;
    assert Pow256(2) == 0x1_0000;
    assert Pow256(3) == 0x100_0000;
    assert Pow256(4) == 0x1_0000_0000;
    assert Pow256(5) == 0x100_0000_0000;
    assert Pow256(6) == 0x1_0000_0000_0000;
    assert Pow256(7) == 0x100_0000_0000_0000;
  }

  /** n zero bytes: a freshly allocated `new byte[n]`. */
  function Zeros(n: nat): (s: seq<Byte>)
    ensures |s| == n
    ensures forall i :: 0 <= i < n ==> s[i] == 0
  {
    seq(n, _ => 0)
  }

  /** The low n bytes of u, most significant byte first. */
  function ToBytes(u: nat, n: nat): (s: seq<Byte>)
    ensures |s| == n
    ensures n >= 1 ==> s[n - 1] == u % 256
  {
    if n == 0 then [] else ToBytes(u / 256, n - 1) + [u % 256]
  }

  /** The unsigned number that s spells, most significant byte first. */
  function FromBytes(s: seq<Byte>): (u: nat)
    ensures u < Pow256(|s|)
  {
    if |s| == 0 then 0 else FromBytes(s[..|s| - 1]) * 256 + s[|s| - 1]
  }

  /** Reading back the bytes written for u gives u, when u fits in n bytes. */
  lemma {:induction false} FromBytesToBytes(u: nat, n: nat)
    requires u < Pow256(n)
    ensures FromBytes(ToBytes(u, n)) == u
  {
    if n > 0 {
      var s := ToBytes(u, n);
      assert s[..n - 1] == ToBytes(u / 256, n - 1);
      FromBytesToBytes(u / 256, n - 1);
    }
  }

  /** Writing back the number read from s gives s. */
  lemma {:induction false} ToBytesFromBytes(s: seq<Byte>)
    ensures ToBytes(FromBytes(s), |s|) == s
  {
    if |s| > 0 {
      var p := s[..|s| - 1];
      ToBytesFromBytes(p);
      var u := FromBytes(s);
      assert u / 256 == FromBytes(p);
      assert u % 256 == s[|s| - 1];
      assert s == p + [s[|s| - 1]];
    }
  }

  /** Reading a concatenation: the first part supplies the high-order bytes. */
  lemma {:induction false} FromBytesAppend(a: seq<Byte>, b: seq<Byte>)
    ensures FromBytes(a + b) == FromBytes(a) * Pow256(|b|) + FromBytes(b)
  {
    if |b| == 0 {
      assert a + b == a;
    } else {
      var b' := b[..|b| - 1];
      var x := b[|b| - 1];
      assert (a + b)[..|a + b| - 1] == a + b';
      FromBytesAppend(a, b');
      ShiftByte(FromBytes(a), Pow256(|b'|), FromBytes(b'), x);
    }
  }

  lemma ShiftByte(hi: int, p: int, lo: int, x: int)
    ensures (hi * p + lo) * 256 + x == hi * (256 * p) + (lo * 256 + x)
  {
  }

  /** The n-byte two's-complement pattern of a value v that fits in n bytes. */
  function Unsigned(v: int, n: nat): (u: nat)
    requires -(Pow256(n) as int) <= 2 * v < Pow256(n)
    ensures u < Pow256(n)
  {
    if v < 0 then v + Pow256(n) else v
  }

  /** Java's value of the two's-complement pattern u of n bytes. */
  function Signed(u: nat, n: nat): (v: int)
    requires u < Pow256(n)
    ensures -(Pow256(n) as int) <= 2 * v < Pow256(n)
  {
    if 2 * u < Pow256(n) then u else u - Pow256(n)
  }

  /** convertToBytesUsingByteBuffer(int): the four big-endian bytes of v. */
  function IntBytes(v: Int32): (s: seq<Byte>)
    ensures |s| == 4
  {
    Pow256Values();
    ToBytes(Unsigned(v, 4), 4)
  }

  /** convertToBytesUsingByteBuffer(long): the eight big-endian bytes of v. */
  function LongBytes(v: Int64): (s: seq<Byte>)
    ensures |s| == 8
  {
    Pow256Values();
    ToBytes(Unsigned(v, 8), 8)
  }

  /** ByteBuffer.getInt at a position: the int whose big-endian bytes start there. */
  function GetInt(buffer: seq<Byte>, offset: nat): Int32
    requires offset + 4 <= |buffer|
  {
    Pow256Values();
    Signed(FromBytes(buffer[offset..offset + 4]), 4)
  }

  /** ByteBuffer.getLong at a position: the long whose big-endian bytes start there. */
  function GetLong(buffer: seq<Byte>, offset: nat): Int64
    requires offset + 8 <= |buffer|
  {
    Pow256Values();
    Signed(FromBytes(buffer[offset..offset + 8]), 8)
  }

  /** Two's-complement round trip: reading the n bytes written for v gives v back. */
  lemma SignedUnsigned(v: int, n: nat)
    requires -(Pow256(n) as int) <= 2 * v < Pow256(n)
    ensures Signed(Unsigned(v, n), n) == v
  {
  }

  lemma UnsignedSigned(u: nat, n: nat)
    requires u < Pow256(n)
    ensures Unsigned(Signed(u, n), n) == u
  {
  }

  /** getInt reads back what putInt wrote. */
  lemma GetIntBytes(v: Int32)
    ensures GetInt(IntBytes(v), 0) == v
  {
    Pow256Values();
    FromBytesToBytes(Unsigned(v, 4), 4);
    assert IntBytes(v)[0..4] == IntBytes(v);
    SignedUnsigned(v, 4);
  }

  /** putInt writes back the bytes getInt read. */
  lemma IntBytesGet(buffer: seq<Byte>, offset: nat)
    requires offset + 4 <= |buffer|
    ensures IntBytes(GetInt(buffer, offset)) == buffer[offset..offset + 4]
  {
    Pow256Values();
    var s := buffer[offset..offset + 4];
    UnsignedSigned(FromBytes(s), 4);
    ToBytesFromBytes(s);
  }

  /** getLong reads back what putLong wrote. */
  lemma GetLongBytes(v: Int64)
    ensures GetLong(LongBytes(v), 0) == v
  {
    Pow256Values();
    FromBytesToBytes(Unsigned(v, 8), 8);
    assert LongBytes(v)[0..8] == LongBytes(v);
    SignedUnsigned(v, 8);
  }

  /** putLong writes back the bytes getLong read. */
  lemma LongBytesGet(buffer: seq<Byte>, offset: nat)
    requires offset + 8 <= |buffer|
    ensures LongBytes(GetLong(buffer, offset)) == buffer[offset..offset + 8]
  {
    Pow256Values();
    var s := buffer[offset..offset + 8];
    UnsignedSigned(FromBytes(s), 8);
    ToBytesFromBytes(s);
  }

  /** getInt at an offset where putInt's bytes for v sit reads v. */
  lemma GetIntAt(buffer: seq<Byte>, offset: nat, v: Int32)
    requires offset + 4 <= |buffer| && buffer[offset..offset + 4] == IntBytes(v)
    ensures GetInt(buffer, offset) == v
  {
    GetIntBytes(v);
    assert IntBytes(v)[0..4] == IntBytes(v);
  }

  /** getLong at an offset where putLong's bytes for v sit reads v. */
  lemma GetLongAt(buffer: seq<Byte>, offset: nat, v: Int64)
    requires offset + 8 <= |buffer| && buffer[offset..offset + 8] == LongBytes(v)
    ensures GetLong(buffer, offset) == v
  {
    GetLongBytes(v);
    assert LongBytes(v)[0..8] == LongBytes(v);
  }

  /** The leading byte decides the sign: a two's-complement pattern is negative
      exactly when the high bit of its most significant byte is set. */
  lemma SignBit(s: seq<Byte>)
    requires |s| >= 1
    ensures Signed(FromBytes(s), |s|) < 0 <==> s[0] >= 0x80
  {
    var rest := s[1..];
    assert s == [s[0]] + rest;
    FromBytesAppend([s[0]], rest);
    assert FromBytes([s[0]]) == s[0] by {
      assert [s[0]][..0] == [];
    }
    var p := Pow256(|rest|);
    assert Pow256(|s|) == 256 * p;
    var u := FromBytes(s);
    assert u == s[0] * p + FromBytes(rest);
    if s[0] >= 0x80 {
      Monotone(0x80, s[0], p);
    } else {
      Monotone(s[0] + 1, 0x80, p);
    }
  }

  lemma Monotone(a: int, b: int, p: nat)
    requires a <= b
    ensures a * p <= b * p
  {
  }

  /** The leading byte of an int's pattern is at least 0x80 exactly when the int is negative. */
  lemma IntSignBit(v: Int32)
    ensures IntBytes(v)[0] >= 0x80 <==> v < 0
  {
    GetIntBytes(v);
    assert IntBytes(v)[0..4] == IntBytes(v);
    SignBit(IntBytes(v));
  }

  /** Reading an int whose leading byte has its high bit set gives a negative number. */
  lemma GetIntSign(buffer: seq<Byte>, offset: nat)
    requires offset + 4 <= |buffer|
    ensures GetInt(buffer, offset) < 0 <==> buffer[offset] >= 0x80
  {
    SignBit(buffer[offset..offset + 4]);
  }

  /** Java's value of a byte, -128..127, as it is sign-extended when promoted to int. */
  function SignedByte(b: Byte): (v: int)
    ensures -0x80 <= v < 0x80
    ensures (v - b) % 0x100 == 0
  {
    if b < 0x80 then b else b - 0x100
  }

  /** `b >> 4` on a Java byte: the arithmetic shift of its sign-extended value,
      which is the high nibble of b read as a signed four-bit number. */
  function ShiftRight4(b: Byte): (t: int)
    ensures -8 <= t <= 7
    ensures t == (if b / 16 < 8 then b / 16 else b / 16 - 16)
  {
    SignedByte(b) / 16
  }

  /** Math.abs on an int. */
  function Abs(x: int): (a: nat)
    ensures a == x || a == -x
  {
    if x < 0 then -x else x
  }

  /** 2 to the power n. */
  function Pow2(n: nat): (p: nat)
    ensures p >= 1
  {
    if n == 0 then 1 else 2 * Pow2(n - 1)
  }

  /** The bitwise OR of the low n bits of a and b. */
  function OrBits(a: nat, b: nat, n: nat): (c: nat)
    ensures c < Pow2(n)
  {
    if n == 0 then 0
    else 2 * OrBits(a / 2, b / 2, n - 1) + (if a % 2 == 1 || b % 2 == 1 then 1 else 0)
  }

  /** OR with zero keeps the low n bits. */
  lemma {:induction false} OrBitsZero(a: nat, n: nat)
    requires a < Pow2(n)
    ensures OrBits(a, 0, n) == a
    ensures OrBits(0, a, n) == a
  {
    if n > 0 {
      OrBitsZero(a / 2, n - 1);
    }
  }

  /** OR with all ones gives all ones. */
  lemma {:induction false} OrBitsOnes(a: nat, n: nat)
    ensures OrBits(a, Pow2(n) - 1, n) == Pow2(n) - 1
    ensures OrBits(Pow2(n) - 1, a, n) == Pow2(n) - 1
  {
    if n > 0 {
      assert (Pow2(n) - 1) / 2 == Pow2(n - 1) - 1;
      assert (Pow2(n) - 1) % 2 == 1;
      OrBitsOnes(a / 2, n - 1);
    }
  }

  /** The bitwise OR of two bytes. */
  function OrByte(a: Byte, b: Byte): (c: Byte)
    ensures b == 0 ==> c == a
    ensures a == 0 ==> c == b
    ensures a == 0xFF || b == 0xFF ==> c == 0xFF
  {
    assert Pow2(8) == 0x100;
    OrBitsZero(a, 8);
    OrBitsZero(b, 8);
    OrBitsOnes(a, 8);
    OrBitsOnes(b, 8);
    OrBits(a, b, 8)
  }

  /** The bitwise OR of two equally long byte strings, byte by byte. */
  function OrBytes(a: seq<Byte>, b: seq<Byte>): (c: seq<Byte>)
    requires |a| == |b|
    ensures |c| == |a|
    ensures forall i :: 0 <= i < |a| ==> c[i] == OrByte(a[i], b[i])
  {
    if |a| == 0 then [] else OrBytes(a[..|a| - 1], b[..|b| - 1]) + [OrByte(a[|a| - 1], b[|b| - 1])]
  }

  /** `x | y` on two longs: the OR of their two's-complement patterns. */
  function Or64(x: Int64, y: Int64): (z: Int64)
    ensures LongBytes(z) == OrBytes(LongBytes(x), LongBytes(y))
  {
    var s := OrBytes(LongBytes(x), LongBytes(y));
    assert s[0..8] == s;
    LongBytesGet(s, 0);
    GetLong(s, 0)
  }

  /** `x << 32` on a long: the low four bytes move up and zeros fill in below. */
  function ShiftLeft32(x: Int64): (z: Int64)
    ensures LongBytes(z) == LongBytes(x)[4..] + Zeros(4)
  {
    var s := LongBytes(x)[4..] + Zeros(4);
    assert s[0..8] == s;
    LongBytesGet(s, 0);
    GetLong(s, 0)
  }

  /** The four bytes that sign extension puts in front of an int widened to a long. */
  function Extension(v: Int32): (e: seq<Byte>)
    ensures |e| == 4
  {
    if v < 0 then [0xFF, 0xFF, 0xFF, 0xFF] else Zeros(4)
  }

  /** Widening an int to a long keeps its four bytes and sign-extends in front of them. */
  lemma LongBytesOfInt(v: Int32)
    ensures LongBytes(v) == Extension(v) + IntBytes(v)
  {
    Pow256Values();
    var s := Extension(v) + IntBytes(v);
    FromBytesAppend(Extension(v), IntBytes(v));
    FromBytesToBytes(Unsigned(v, 4), 4);
    if v < 0 {
      FromBytesToBytes(0xFFFF_FFFF, 4);
      assert ToBytes(0xFFFF_FFFF, 4) == [0xFF, 0xFF, 0xFF, 0xFF];
    } else {
      FromBytesToBytes(0, 4);
      assert ToBytes(0, 4) == Zeros(4);
    }
    assert s[0..8] == s;
    assert GetLong(s, 0) == v;
    LongBytesGet(s, 0);
  }

  /** blockCopy(src, srcOffset, dst, dstOffset, count) as a value: dst with count
      bytes of src, starting at srcOffset, laid over it starting at dstOffset. */
  function BlockCopy(src: seq<Byte>, srcOffset: nat, dst: seq<Byte>, dstOffset: nat, count: nat): (r: seq<Byte>)
    requires srcOffset + count <= |src| && dstOffset + count <= |dst|
    ensures |r| == |dst|
    ensures forall i :: dstOffset <= i < dstOffset + count ==> r[i] == src[srcOffset + (i - dstOffset)]
    ensures forall i :: 0 <= i < |dst| && !(dstOffset <= i < dstOffset + count) ==> r[i] == dst[i]
  {
    dst[..dstOffset] + src[srcOffset..srcOffset + count] + dst[dstOffset + count..]
  }

  /** The copy loop of blockCopy, one byte per iteration; it computes BlockCopy. */
  method BlockCopyLoop(src: seq<Byte>, srcOffset: nat, dst: seq<Byte>, dstOffset: nat, count: nat)
    returns (r: seq<Byte>)
    requires srcOffset + count <= |src| && dstOffset + count <= |dst|
    ensures r == BlockCopy(src, srcOffset, dst, dstOffset, count)
  {
    r := dst;
    var stop := srcOffset + count;
    var d := dstOffset;
    var i := srcOffset;
    while i < stop
      invariant srcOffset <= i <= stop
      invariant d == dstOffset + (i - srcOffset)
      invariant |r| == |dst|
      invariant forall j :: dstOffset <= j < d ==> r[j] == src[srcOffset + (j - dstOffset)]
      invariant forall j :: 0 <= j < |dst| && !(dstOffset <= j < d) ==> r[j] == dst[j]
    {
      r := r[d := src[i]];
      d := d + 1;
      i := i + 1;
    }
    var expected := BlockCopy(src, srcOffset, dst, dstOffset, count);
    assert forall j :: 0 <= j < |r| ==> r[j] == expected[j];
  }
}
