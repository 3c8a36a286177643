/**
 * The time-stamp beacon transmitter: one 12-byte frame whose bytes 2..9
 * carry the wall-clock time `time_now` as a little-endian uint64. The
 * clock reading is an input.
 */
module Dw1000Tx {
  import opened CInt

  /** Byte offset of the sequence number. */
  const BLINK_FRAME_SN_IDX := 1

  /** Byte offset of the time-stamp. */
  const TS_IDX := 2

  const BEACON_LEN := 12

  /** The frame as first set up: type byte 0xAB, then zeros. */
  const INITIAL_BEACON: seq<Byte> := [0xAB, 0, 0, 0, 0, 0, 0, 0, 0, 0, 0, 0]

  /** The sequence number the beacon carries; it starts at 0 and nothing changes it. */
  const SEQUENCE_NUM: Byte := 0

  /**
   * The beacon sent for the clock reading `timeNow`: type 0xAB, the sequence
   * number, the eight bytes of `timeNow`, and two zero bytes the radio
   * replaces with the frame check-sum.
   */
  function BeaconFrame(timeNow: UInt64): (frame: seq<Byte>)
    ensures |frame| == BEACON_LEN
    ensures frame[0] == 0xAB && frame[BLINK_FRAME_SN_IDX] == 0
    ensures FromLE(frame[TS_IDX..TS_IDX + 8]) == timeNow
    ensures frame[TS_IDX + 8..] == [0, 0]
  {
    Pow256Values();
    var frame := [0xAB, SEQUENCE_NUM] + ToLE(timeNow, 8) + [0, 0];
    assert frame[TS_IDX..TS_IDX + 8] == ToLE(timeNow, 8);
    frame
  }

  /** The clock reading can be read back from the beacon: the frame determines it. */
  lemma BeaconFrameInjective(t1: UInt64, t2: UInt64)
    requires BeaconFrame(t1) == BeaconFrame(t2)
    ensures t1 == t2
  {
    var f := BeaconFrame(t1);
    assert FromLE(f[TS_IDX..TS_IDX + 8]) == t2;
  }

  /**
   * The transmitter's loop. Its counter `sampleTime` starts at 0 and the
   * test is `sampleTime < 1`, so the body runs once: it copies the clock
   * reading into bytes 2..9, then the sequence number into byte 1, and hands
   * the frame to the driver. Returns the frames sent.
   */
  method SendBeacons(timeNow: UInt64) returns (sent: seq<seq<Byte>>)
    ensures sent == [BeaconFrame(timeNow)]
  {
    Pow256Values();
    var txMsg := new Byte[BEACON_LEN] (i requires 0 <= i < BEACON_LEN => INITIAL_BEACON[i]);
    var sequenceNum := SEQUENCE_NUM;
    var sampleTime := 0;
    sent := [];
    while sampleTime < 1
      invariant 0 <= sampleTime <= 1
      invariant sampleTime == 0 ==> sent == [] && txMsg[..] == INITIAL_BEACON
      invariant sampleTime == 1 ==> sent == [BeaconFrame(timeNow)]
    {
      sampleTime := sampleTime + 1;
      var timeBytes := ToLE(timeNow, 8);
      forall j | TS_IDX <= j < TS_IDX + 8 {
        txMsg[j] := timeBytes[j - TS_IDX];
      }
      txMsg[BLINK_FRAME_SN_IDX] := sequenceNum;
      var frame := BeaconFrame(timeNow);
      assert forall j :: 0 <= j < BEACON_LEN ==> txMsg[j] == frame[j];
      assert txMsg[..] == frame;
      sent := sent + [txMsg[..]];
    }
  }
}
