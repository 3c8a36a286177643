/**
 * The radar transmitter: a 12-byte frame whose sequence byte goes up by one
 * (modulo 256) and whose bytes 6..9 carry the running frame count, sent once
 * per pass until the requested number of frames is out.
 */
module RadarTx {
  import opened CInt
  import RadarRx
  import CaptureRecord

  /** Byte offset of the sequence number. */
  const RADAR_FRAME_SN_IDX := 1

  /** Byte offset of the frame count. */
  const RADAR_FRAME_DATA_IDX := 6

  const RADAR_FRAME_LEN := 12

  /** The frame as first set up: frame type 0xC5, sequence 0, "DECA", then zeros. */
  const INITIAL_FRAME: seq<Byte> := [0xC5, 0, 'D' as int, 'E' as int, 'C' as int, 'A' as int, 0, 0, 0, 0, 0, 0]

  /**
   * The frame handed to the driver when the count is `count`. The last two
   * bytes stay zero: the radio replaces them with the frame check-sum.
   */
  function RadarFrame(count: Int32): (frame: seq<Byte>)
    ensures |frame| == RADAR_FRAME_LEN
    ensures frame[0] == 0xC5 && frame[2..6] == INITIAL_FRAME[2..6] && frame[10..] == [0, 0]
    ensures frame[RADAR_FRAME_SN_IDX] == count % 0x100
    ensures frame[RADAR_FRAME_DATA_IDX..RADAR_FRAME_DATA_IDX + 4] == Int32ToLE(count)
  {
    var bytes := Int32ToLE(count);
    seq(RADAR_FRAME_LEN, j requires 0 <= j < RADAR_FRAME_LEN =>
      if j == RADAR_FRAME_SN_IDX then count % 0x100
      else if RADAR_FRAME_DATA_IDX <= j < RADAR_FRAME_DATA_IDX + 4 then bytes[j - RADAR_FRAME_DATA_IDX]
      else INITIAL_FRAME[j])
  }

  /** The frames of passes 1..n, in order: pass k sends count k. */
  function TxFrames(n: nat): (frames: seq<seq<Byte>>)
    requires n <= INT32_MAX
    ensures |frames| == n
  {
    seq(n, k requires 0 <= k < n => RadarFrame(k + 1))
  }

  /**
   * The frame is short enough for the receiver (12 <= 24), and the count
   * the receiver takes from it is the count it was sent with, whatever
   * check-sum the radio put in bytes 10..11.
   */
  lemma ReceiverReadsSentCount(count: Int32, rxData: seq<Byte>)
    requires |rxData| >= RADAR_FRAME_LEN && rxData[..RADAR_FRAME_LEN - 2] == RadarFrame(count)[..RADAR_FRAME_LEN - 2]
    ensures RADAR_FRAME_LEN <= RadarRx.RX_BUF_LEN
    ensures RadarRx.FrameCountOf(RadarRx.ReceivedBuffer(rxData, RADAR_FRAME_LEN)) == count
  {
    var rx := RadarRx.ReceivedBuffer(rxData, RADAR_FRAME_LEN);
    var frame := RadarFrame(count);
    assert rx[RADAR_FRAME_DATA_IDX..RADAR_FRAME_DATA_IDX + 4] == rxData[RADAR_FRAME_DATA_IDX..RADAR_FRAME_DATA_IDX + 4]
        == frame[RADAR_FRAME_DATA_IDX..RADAR_FRAME_DATA_IDX + 4] == Int32ToLE(count);
  }

  /**
   * A radar frame received whole (RX_FINFO gives 12 bytes, the last two of
   * them the radio's check-sum) is captured: the
   * receiver counts it and, when the file opens, files a record under the
   * count the transmitter sent, carrying that count as its message number.
   */
  lemma RadarFrameCaptured(s: RadarRx.RxState, ev: RadarRx.RxEvent, count: Int32)
    requires RadarRx.WellFormed(ev) && ev.GoodFrame? && s.frameCount < INT32_MAX
    requires RadarRx.FrameLen(ev.finfo) == RADAR_FRAME_LEN
    requires ev.rxData[..RADAR_FRAME_LEN - 2] == RadarFrame(count)[..RADAR_FRAME_LEN - 2]
    ensures RadarRx.RxStep(s, ev).frameCount == s.frameCount + 1
    ensures ev.openOk ==> count in RadarRx.RxStep(s, ev).files
    ensures ev.openOk ==> CaptureRecord.DecodeRecord(RadarRx.RxStep(s, ev).files[count]).Some?
    ensures ev.openOk ==> CaptureRecord.DecodeRecord(RadarRx.RxStep(s, ev).files[count]).value.msgNo == count
  {
    ReceiverReadsSentCount(count, ev.rxData);
  }

  /** Sending one more frame extends the sequence by the frame of the next count. */
  lemma TxFramesExtend(n: nat)
    requires n < INT32_MAX
    ensures TxFrames(n + 1) == TxFrames(n) + [RadarFrame(n + 1)]
  {
    var a, b := TxFrames(n + 1), TxFrames(n) + [RadarFrame(n + 1)];
    assert forall k :: 0 <= k < n + 1 ==> a[k] == b[k];
  }

  /** Adding one modulo 256 to count - 1 modulo 256 gives count modulo 256. */
  lemma SequenceByteStep(count: int)
    ensures ((count - 1) % 0x100 + 1) % 0x100 == count % 0x100
  {
  }

  /**
   * The per-pass update of the frame buffer: the sequence byte goes up by one
   * modulo 256 and the new count is copied into bytes 6..9.
   */
  method UpdateFrame(txMsg: array<Byte>, frameCount: Int32)
    requires frameCount > 0 && txMsg.Length == RADAR_FRAME_LEN
    requires txMsg[..] == RadarFrame(frameCount - 1)
    modifies txMsg
    ensures txMsg[..] == RadarFrame(frameCount)
  {
    ghost var before := txMsg[..];
    txMsg[RADAR_FRAME_SN_IDX] := (txMsg[RADAR_FRAME_SN_IDX] as int + 1) % 0x100;
    SequenceByteStep(frameCount);
    var countBytes := Int32ToLE(frameCount);
    forall j | RADAR_FRAME_DATA_IDX <= j < RADAR_FRAME_DATA_IDX + 4 {
      txMsg[j] := countBytes[j - RADAR_FRAME_DATA_IDX];
    }
    ghost var after := RadarFrame(frameCount);
    forall j | 0 <= j < RADAR_FRAME_LEN
      ensures txMsg[j] == after[j]
    {
      if j == RADAR_FRAME_SN_IDX {
        assert after[j] == frameCount % 0x100;
      } else if RADAR_FRAME_DATA_IDX <= j < RADAR_FRAME_DATA_IDX + 4 {
        assert after[j] == countBytes[j - RADAR_FRAME_DATA_IDX];
      } else {
        assert txMsg[j] == before[j] == INITIAL_FRAME[j] == after[j];
      }
    }
    assert txMsg[..] == after;
  }

  /**
   * The transmitter's main loop, run for at most `passes` passes (the run is
   * stopped from outside after that). Each pass adds one to the count and
   * then applies the exit test `maxFrameCount > 0 && frameCount > maxFrameCount`.
   * Returns the frames handed to the driver and whether the exit test ended
   * the loop. A positive maximum sends exactly frames 1..maxFrameCount; a
   * maximum of 0 or less (the default -1 when no count is given) never ends
   * the loop.
   */
  method TransmitLoop(maxFrameCount: Int32, passes: nat) returns (sent: seq<seq<Byte>>, stopped: bool)
    requires passes <= INT32_MAX
    ensures stopped <==> maxFrameCount > 0 && passes > maxFrameCount
    ensures stopped ==> sent == TxFrames(maxFrameCount)
    ensures !stopped ==> sent == TxFrames(passes)
  {
    var txMsg := new Byte[RADAR_FRAME_LEN] (i requires 0 <= i < RADAR_FRAME_LEN => INITIAL_FRAME[i]);
    var frameCount: Int32 := 0;
    var pass := 0;
    sent, stopped := [], false;
    assert txMsg[..] == RadarFrame(0);
    while pass < passes
      invariant 0 <= pass <= passes && frameCount == pass
      invariant maxFrameCount > 0 ==> pass <= maxFrameCount
      invariant txMsg[..] == RadarFrame(frameCount)
      invariant sent == TxFrames(pass)
    {
      pass := pass + 1;
      frameCount := frameCount + 1;
      if maxFrameCount > 0 && frameCount > maxFrameCount {
        stopped := true;
        break;
      }
      UpdateFrame(txMsg, frameCount);
      TxFramesExtend(pass - 1);
      sent := sent + [txMsg[..]];
    }
  }
}
