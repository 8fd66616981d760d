/**
 * Byte-level helpers used by the discovery codec: big-endian unsigned and
 * two's-complement values of byte strings (what java.nio.ByteBuffer's
 * getInt/getShort/putInt compute), and a write buffer whose cursor advances
 * on each put.
 */
module Bytes {
  import opened Arith

  /** An octet, seen as its unsigned value. */
  type Byte = b: int | 0 <= b < 256

  /** Java's `int` and `short`. */
  type Int32 = x: int | -0x8000_0000 <= x < 0x8000_0000
  type Int16 = x: int | -0x8000 <= x < 0x8000

  function Pow256(n: nat): (p: nat)
    ensures p >= 1
  {
    if n == 0 then 1 else 256 * Pow256(n - 1)
  }

  /** Half of 256^n: the first value whose n-byte encoding has its sign bit set. */
  function Half(n: nat): (h: int)
    requires n >= 1
    ensures h > 0 && 2 * h == Pow256(n)
  {
    128 * Pow256(n - 1)
  }

  /** The big-endian unsigned value of `bs`. */
  function Unsigned(bs: seq<Byte>): nat
  {
    if bs == [] then 0 else Unsigned(bs[..|bs| - 1]) * 256 + bs[|bs| - 1]
  }

  /** The `n` low-order bytes of `u`, most significant first. */
  function FixedBytes(u: nat, n: nat): (r: seq<Byte>)
    ensures |r| == n
  {
    if n == 0 then [] else FixedBytes(u / 256, n - 1) + [u % 256]
  }

  /** The big-endian two's-complement value of `bs` (the top bit of bs[0] is the sign). */
  function Signed(bs: seq<Byte>): int
  {
    if bs != [] && bs[0] >= 128 then Unsigned(bs) - Pow256(|bs|) else Unsigned(bs)
  }

  lemma {:induction false} UnsignedBound(bs: seq<Byte>)
    ensures Unsigned(bs) < Pow256(|bs|)
  {
    if bs != [] {
      UnsignedBound(bs[..|bs| - 1]);
    }
  }

  /** The leading byte weighs 256^(n-1); the rest is below that weight. */
  lemma {:induction false} UnsignedFront(bs: seq<Byte>)
    requires |bs| >= 1
    ensures Unsigned(bs) == bs[0] * Pow256(|bs| - 1) + Unsigned(bs[1..])
    ensures Unsigned(bs[1..]) < Pow256(|bs| - 1)
  {
    UnsignedBound(bs[1..]);
    if |bs| == 1 {
      assert bs[..0] == [] && bs[1..] == [];
    } else {
      var init := bs[..|bs| - 1];
      UnsignedFront(init);
      assert init[0] == bs[0];
      assert bs[1..][..|bs| - 2] == init[1..];
      var last := bs[|bs| - 1];
      assert Unsigned(bs[1..]) == Unsigned(init[1..]) * 256 + last;
      Regroup(bs[0], Pow256(|bs| - 2), Unsigned(init[1..]), last);
    }
  }

  lemma Regroup(a: int, p: int, x: int, c: int)
    ensures (a * p + x) * 256 + c == a * (256 * p) + (x * 256 + c)
  {
  }

  /** The sign bit of an n-byte string is set exactly when its value reaches Half(n). */
  lemma SignBit(bs: seq<Byte>)
    requires |bs| >= 1
    ensures bs[0] >= 128 <==> Unsigned(bs) >= Half(|bs|)
  {
    UnsignedFront(bs);
    var p := Pow256(|bs| - 1);
    assert Half(|bs|) == 128 * p;
    SignBitArith(bs[0], p, Unsigned(bs[1..]));
  }

  lemma SignBitArith(a: int, p: int, r: int)
    requires 0 <= a < 256 && p > 0 && 0 <= r < p
    ensures a >= 128 <==> a * p + r >= 128 * p
  {
    if a >= 128 {
      MulMonotone(128, a, p);
    } else {
      MulMonotone(a + 1, 128, p);
      assert (a + 1) * p == a * p + p;
    }
  }

  /** Reading back the bytes of a value gives the value. */
  lemma {:induction false} FixedBytesUnsigned(u: nat, n: nat)
    requires u < Pow256(n)
    ensures Unsigned(FixedBytes(u, n)) == u
  {
    if n > 0 {
      FixedBytesUnsigned(u / 256, n - 1);
      var r := FixedBytes(u, n);
      assert r[..n - 1] == FixedBytes(u / 256, n - 1);
    }
  }

  /** Writing out the value of a byte string gives the byte string back. */
  lemma {:induction false} UnsignedFixedBytes(bs: seq<Byte>)
    ensures FixedBytes(Unsigned(bs), |bs|) == bs
  {
    if bs != [] {
      var init := bs[..|bs| - 1];
      UnsignedFixedBytes(init);
      var u := Unsigned(bs);
      DivUnique(u, 256, Unsigned(init), bs[|bs| - 1]);
      assert bs == init + [bs[|bs| - 1]];
    }
  }

  /** A two's-complement value lies in the range of its width. */
  lemma SignedRange(bs: seq<Byte>)
    requires |bs| >= 1
    ensures -Half(|bs|) <= Signed(bs) < Half(|bs|)
  {
    UnsignedBound(bs);
    SignBit(bs);
  }

  /** The bytes of a two's-complement value are that value modulo 256^n, written out. */
  lemma SignedBytes(bs: seq<Byte>)
    ensures FixedBytes(Signed(bs) % Pow256(|bs|), |bs|) == bs
  {
    UnsignedBound(bs);
    UnsignedFixedBytes(bs);
    var p := Pow256(|bs|);
    if bs != [] && bs[0] >= 128 {
      DivUnique(Signed(bs), p, -1, Unsigned(bs));
    } else {
      DivUnique(Signed(bs), p, 0, Unsigned(bs));
    }
  }

  /** Writing out x modulo 256^n and reading it back as two's complement gives x. */
  lemma SignedOfBytes(x: int, n: nat)
    requires n >= 1 && -Half(n) <= x < Half(n)
    ensures Signed(FixedBytes(x % Pow256(n), n)) == x
  {
    var p := Pow256(n);
    var u := x % p;
    if x < 0 {
      DivUnique(x, p, -1, x + p);
    } else {
      DivUnique(x, p, 0, x);
    }
    var bs := FixedBytes(u, n);
    FixedBytesUnsigned(u, n);
    SignBit(bs);
  }

  /** Two byte strings of one width with equal two's-complement values are equal. */
  lemma SignedInjective(a: seq<Byte>, b: seq<Byte>)
    requires |a| == |b| && Signed(a) == Signed(b)
    ensures a == b
  {
    SignedBytes(a);
    SignedBytes(b);
  }

  /** ByteBuffer.getInt at `offset`: a signed big-endian 32-bit value. */
  function ReadInt32(data: seq<Byte>, offset: nat): Int32
    requires offset + 4 <= |data|
  {
    assert Half(4) == 0x8000_0000;
    SignedRange(data[offset..offset + 4]);
    Signed(data[offset..offset + 4])
  }

  /** ByteBuffer.getShort at `offset`: a signed big-endian 16-bit value. */
  function ReadInt16(data: seq<Byte>, offset: nat): Int16
    requires offset + 2 <= |data|
  {
    assert Half(2) == 0x8000;
    SignedRange(data[offset..offset + 2]);
    Signed(data[offset..offset + 2])
  }

  /** The four bytes ByteBuffer.putInt writes for `x`, most significant first. */
  function Int32Bytes(x: Int32): seq<Byte>
  {
    FixedBytes(x % 0x1_0000_0000, 4)
  }

  /** The two bytes ByteBuffer.putShort writes for `x`, most significant first. */
  function Int16Bytes(x: Int16): seq<Byte>
  {
    FixedBytes(x % 0x1_0000, 2)
  }

  /** getInt reads back what putInt wrote. */
  lemma ReadInt32Bytes(x: Int32)
    ensures |Int32Bytes(x)| == 4 && ReadInt32(Int32Bytes(x), 0) == x
  {
    assert Pow256(4) == 0x1_0000_0000;
    SignedOfBytes(x, 4);
    assert Int32Bytes(x)[0..4] == Int32Bytes(x);
  }

  /** putInt writes back the bytes getInt read: the two are inverse on 4-byte strings. */
  lemma Int32BytesRead(data: seq<Byte>, offset: nat)
    requires offset + 4 <= |data|
    ensures Int32Bytes(ReadInt32(data, offset)) == data[offset..offset + 4]
  {
    assert Pow256(4) == 0x1_0000_0000;
    SignedBytes(data[offset..offset + 4]);
  }

  /** A 32-bit word equals a constant exactly when its four bytes are that constant's bytes. */
  lemma ReadInt32Matches(data: seq<Byte>, offset: nat, x: Int32)
    requires offset + 4 <= |data|
    ensures ReadInt32(data, offset) == x <==> data[offset..offset + 4] == Int32Bytes(x)
  {
    Int32BytesRead(data, offset);
    ReadInt32Bytes(x);
    assert Int32Bytes(x)[0..4] == Int32Bytes(x);
  }

  /** putShort writes back the bytes getShort read. */
  lemma Int16BytesRead(data: seq<Byte>, offset: nat)
    requires offset + 2 <= |data|
    ensures Int16Bytes(ReadInt16(data, offset)) == data[offset..offset + 2]
  {
    assert Pow256(2) == 0x1_0000;
    SignedBytes(data[offset..offset + 2]);
  }

  /** A 16-bit value equals a constant exactly when its two bytes are that constant's bytes. */
  lemma ReadInt16Matches(data: seq<Byte>, offset: nat, x: Int16)
    requires offset + 2 <= |data|
    ensures ReadInt16(data, offset) == x <==> data[offset..offset + 2] == Int16Bytes(x)
  {
    Int16BytesRead(data, offset);
    ReadInt16Bytes(x);
    assert Int16Bytes(x)[0..2] == Int16Bytes(x);
  }

  /** getShort reads back what putShort wrote. */
  lemma ReadInt16Bytes(x: Int16)
    ensures |Int16Bytes(x)| == 2 && ReadInt16(Int16Bytes(x), 0) == x
  {
    assert Pow256(2) == 0x1_0000;
    SignedOfBytes(x, 2);
    assert Int16Bytes(x)[0..2] == Int16Bytes(x);
  }

  /**
   * BigInteger.valueOf(x).toByteArray(): the shortest big-endian
   * two's-complement encoding of x (one byte for -128..127, and one more
   * byte for each further factor of 256).
   */
  function MinimalBytes(x: int): (r: seq<Byte>)
    ensures |r| >= 1
    decreases if x < 0 then -x else x
  {
    if -128 <= x < 128 then [x % 256]
    else
      assert x < -1 ==> -(x / 256) < -x;
      MinimalBytes(x / 256) + [x % 256]
  }

  /** Appending a byte shifts the two's-complement value by one byte. */
  lemma SignedAppend(a: seq<Byte>, b: Byte)
    requires |a| >= 1
    ensures Signed(a + [b]) == Signed(a) * 256 + b
  {
    assert (a + [b])[..|a|] == a;
    assert (a + [b])[0] == a[0];
  }

  /** The minimal encoding of x reads back as x. */
  lemma {:induction false} MinimalBytesValue(x: int)
    ensures Signed(MinimalBytes(x)) == x
    decreases if x < 0 then -x else x
  {
    if -128 <= x < 128 {
      var r := MinimalBytes(x);
      assert r[..0] == [];
      assert Unsigned(r) == r[0] && Pow256(1) == 256;
      if x < 0 {
        DivUnique(x, 256, -1, x + 256);
      } else {
        DivUnique(x, 256, 0, x);
      }
    } else {
      assert x < -1 ==> -(x / 256) < -x;
      MinimalBytesValue(x / 256);
      SignedAppend(MinimalBytes(x / 256), x % 256);
    }
  }

  /** The minimal encoding fits in n bytes exactly when x is in the n-byte range. */
  lemma {:induction false} MinimalBytesLength(x: int, n: nat)
    requires n >= 1
    ensures |MinimalBytes(x)| <= n <==> -Half(n) <= x < Half(n)
    decreases n
  {
    assert Half(1) == 128;
    if n > 1 && !(-128 <= x < 128) {
      MinimalBytesLength(x / 256, n - 1);
      var h := Half(n - 1);
      assert Half(n) == 256 * h;
      assert x == (x / 256) * 256 + x % 256;
    } else if n > 1 {
      assert Half(n) == 256 * Half(n - 1);
    }
  }

  /** No shorter byte string encodes x: the encoding is minimal. */
  lemma MinimalBytesIsShortest(x: int, bs: seq<Byte>)
    requires 1 <= |bs| && Signed(bs) == x
    ensures |MinimalBytes(x)| <= |bs|
  {
    SignedRange(bs);
    MinimalBytesLength(x, |bs|);
  }

  /** A minimal encoding as wide as a fixed-width one is that fixed-width one. */
  lemma MinimalBytesFixed(x: int, n: nat)
    requires n >= 1 && -Half(n) <= x < Half(n) && |MinimalBytes(x)| == n
    ensures MinimalBytes(x) == FixedBytes(x % Pow256(n), n)
  {
    MinimalBytesValue(x);
    SignedOfBytes(x, n);
    SignedInjective(MinimalBytes(x), FixedBytes(x % Pow256(n), n));
  }

  /**
   * A heap buffer with a write cursor, as java.nio.ByteBuffer.allocate
   * creates one; putInt writes at the cursor and advances it.
   */
  class ByteBuffer {
    const data: array<Byte>
    var position: nat

    ghost predicate Valid()
      reads this
    {
      position <= data.Length
    }

    /** ByteBuffer.allocate: a zero-filled buffer with its cursor at 0. */
    constructor Allocate(capacity: nat)
      ensures Valid() && fresh(data) && position == 0
      ensures data[..] == seq(capacity, _ => 0)
    {
      data := new Byte[capacity](_ => 0);
      position := 0;
    }

    /** ByteBuffer.putInt: writes x big-endian at the cursor and advances it by four. */
    method PutInt(x: Int32)
      requires Valid() && position + 4 <= data.Length
      modifies this`position, data
      ensures Valid() && position == old(position) + 4
      ensures data[..] == old(data[..position]) + Int32Bytes(x) + old(data[position + 4..])
    {
      var b := Int32Bytes(x);
      data[position] := b[0];
      data[position + 1] := b[1];
      data[position + 2] := b[2];
      data[position + 3] := b[3];
      position := position + 4;
    }
  }
}
