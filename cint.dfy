/**
 * The C integer types the three programs use, as bounded integers, and the
 * little-endian byte layout that `memcpy` and `fwrite` give them on the
 * target (an ARM Raspberry Pi, a little-endian host).
 */
module CInt {

  type Byte = x: int | 0 <= x < 0x100
  type UInt16 = x: int | 0 <= x < 0x1_0000
  type UInt32 = x: int | 0 <= x < 0x1_0000_0000
  type UInt64 = x: int | 0 <= x < 0x1_0000_0000_0000_0000
  type Int16 = x: int | -0x8000 <= x < 0x8000
  type Int32 = x: int | -0x8000_0000 <= x < 0x8000_0000

  const INT32_MAX: Int32 := 0x7FFF_FFFF

  /** 256 to the power n: the number of values an n-byte unsigned integer holds. */
  function Pow256(n: nat): (p: nat)
    ensures p > 0
  {
    if n == 0 then 1 else 0x100 * Pow256(n - 1)
  }

  lemma Pow256Values()
    ensures Pow256(2) == 0x1_0000
    ensures Pow256(4) == 0x1_0000_0000
    ensures Pow256(5) == 0x100_0000_0000
    ensures Pow256(8) == 0x1_0000_0000_0000_0000
  {
  }

  /** The unsigned value of a little-endian byte string: the sum of bs[i] * 256^i. */
  function FromLE(bs: seq<Byte>): (x: nat)
    ensures x < Pow256(|bs|)
  {
    if bs == [] then 0 else bs[0] + 0x100 * FromLE(bs[1..])
  }

  /** The n bytes of x, least significant first. */
  function ToLE(x: nat, n: nat): (bs: seq<Byte>)
    requires x < Pow256(n)
    ensures |bs| == n
    ensures FromLE(bs) == x
  {
    if n == 0 then []
    else
      assert x / 0x100 < Pow256(n - 1);
      [x % 0x100] + ToLE(x / 0x100, n - 1)
  }

  /** No two byte strings of one length have the same value: ToLE undoes FromLE. */
  lemma {:induction false} ToLEFromLE(bs: seq<Byte>)
    ensures ToLE(FromLE(bs), |bs|) == bs
  {
    if bs != [] {
      var rest := FromLE(bs[1..]);
      assert (bs[0] + 0x100 * rest) % 0x100 == bs[0];
      assert (bs[0] + 0x100 * rest) / 0x100 == rest;
      ToLEFromLE(bs[1..]);
    }
  }

  /** An int32 stored in four bytes: its two's-complement bit pattern. */
  function AsUnsigned32(x: Int32): (u: UInt32)
    ensures AsSigned32(u) == x
  {
    if x < 0 then x + 0x1_0000_0000 else x
  }

  /** The int32 whose two's-complement bit pattern is u. */
  function AsSigned32(u: UInt32): (x: Int32)
  {
    if u < 0x8000_0000 then u else u - 0x1_0000_0000
  }

  lemma Signed32Injective(u: UInt32)
    ensures AsUnsigned32(AsSigned32(u)) == u
  {
  }

  /** An int16 stored in two bytes: its two's-complement bit pattern. */
  function AsUnsigned16(x: Int16): (u: UInt16)
    ensures AsSigned16(u) == x
  {
    if x < 0 then x + 0x1_0000 else x
  }

  /** The int16 whose two's-complement bit pattern is u. */
  function AsSigned16(u: UInt16): (x: Int16)
  {
    if u < 0x8000 then u else u - 0x1_0000
  }

  lemma Signed16Injective(u: UInt16)
    ensures AsUnsigned16(AsSigned16(u)) == u
  {
  }

  /** The little-endian int32 stored in four bytes, as `memcpy` into an int32 reads it. */
  function Int32FromLE(bs: seq<Byte>): (x: Int32)
    requires |bs| == 4
    ensures ToLE(AsUnsigned32(x), 4) == bs
  {
    Pow256Values();
    ToLEFromLE(bs);
    AsSigned32(FromLE(bs))
  }

  /** The four bytes `memcpy` copies out of an int32. */
  function Int32ToLE(x: Int32): (bs: seq<Byte>)
    ensures |bs| == 4
    ensures Int32FromLE(bs) == x
  {
    Pow256Values();
    ToLE(AsUnsigned32(x), 4)
  }

  /** `memcpy(&dst[dstOff], &src[srcOff], n)` between two distinct arrays. */
  method MemCpy(dst: array<Byte>, dstOff: nat, src: array<Byte>, srcOff: nat, n: nat)
    requires dst != src
    requires dstOff + n <= dst.Length && srcOff + n <= src.Length
    modifies dst
    ensures forall i :: dstOff <= i < dstOff + n ==> dst[i] == src[srcOff + (i - dstOff)]
    ensures forall i :: 0 <= i < dst.Length && !(dstOff <= i < dstOff + n) ==> dst[i] == old(dst[i])
  {
    forall i | dstOff <= i < dstOff + n {
      dst[i] := src[srcOff + (i - dstOff)];
    }
  }
}
