/**
 * Assembly of a DW1000 40-bit time-stamp into a 64-bit value. The driver
 * delivers the time-stamp register as five bytes, least significant first;
 * the helpers fold them from the top byte down, shifting the accumulator
 * left by eight bits and or-ing the next byte in.
 */
module Timestamp {
  import opened CInt

  const TS_BYTES := 5

  /** `ts <<= 8` on a uint64: the shift drops what leaves the 64 bits. */
  function ShiftLeft8(ts: UInt64): (r: UInt64)
    ensures r % 0x100 == 0
    ensures ts < 0x100_0000_0000_0000 ==> r == ts * 0x100
  {
    var p := ts * 0x100;
    assert p % 0x1_0000_0000_0000_0000 == p - (p / 0x1_0000_0000_0000_0000) * 0x1_0000_0000_0000_0000;
    p % 0x1_0000_0000_0000_0000
  }

  /**
   * `ts |= b` after the shift: or-ing a byte into a 64-bit value whose low
   * eight bits are clear gives the same value as adding it, so the fold may
   * add the byte.
   */
  lemma OrIntoClearByte(x: bv64, b: bv64)
    requires x & 0xFF == 0 && b < 0x100
    ensures x | b == x + b
  {
  }

  /** The five bytes of a time-stamp weighted by their place value, written out. */
  function Weighted(t: seq<Byte>): int
    requires |t| == TS_BYTES
  {
    t[0] as int + 0x100 * (t[1] as int) + 0x1_0000 * (t[2] as int) + 0x100_0000 * (t[3] as int) + 0x1_0000_0000 * (t[4] as int)
  }

  lemma FromLEIsWeightedSum(t: seq<Byte>)
    requires |t| == TS_BYTES
    ensures FromLE(t) == Weighted(t)
  {
    var t1, t2, t3, t4 := t[1..], t[2..], t[3..], t[4..];
    assert t1[1..] == t2 && t2[1..] == t3 && t3[1..] == t4 && t4[1..] == [];
    assert FromLE(t4) == t[4];
    assert FromLE(t3) == t[3] + 0x100 * (t[4] as int);
    assert FromLE(t2) == t[2] + 0x100 * (t[3] as int) + 0x1_0000 * (t[4] as int);
    assert FromLE(t1) == t[1] + 0x100 * (t[2] as int) + 0x1_0000 * (t[3] as int) + 0x100_0000 * (t[4] as int);
  }

  /**
   * The fold of the time-stamp bytes `tsTab` (as the driver's read of the
   * RX, TX or system time register returns them) into a uint64. The shift
   * leaves the low eight bits zero, so or-ing in a byte adds it.
   */
  method AssembleU64(tsTab: seq<Byte>) returns (ts: UInt64)
    requires |tsTab| == TS_BYTES
    ensures ts == FromLE(tsTab)
    ensures ts == Weighted(tsTab)
    ensures ts < 0x100_0000_0000
  {
    Pow256Values();
    FromLEIsWeightedSum(tsTab);
    ts := 0;
    var i := 4;
    while i >= 0
      invariant -1 <= i <= 4
      invariant ts == FromLE(tsTab[i + 1..])
    {
      assert ts < Pow256(|tsTab[i + 1..]|) <= Pow256(4);
      ts := ShiftLeft8(ts);
      ts := ts + tsTab[i];
      assert tsTab[i..][1..] == tsTab[i + 1..];
      i := i - 1;
    }
    assert tsTab[0..] == tsTab;
  }
}
