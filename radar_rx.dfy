/**
 * The receive loop of the radar receiver: wait for a frame, keep it when it
 * fits the local receive buffer, read the frame counter the transmitter put
 * in it, read the CIR, count the frame and save a capture record; stop once
 * the requested number of frames has been counted.
 *
 * The driver's outcomes are inputs: one RxEvent per pass of the loop, in
 * order. A finite list of events stands for a run that is stopped from
 * outside after that many passes.
 */
module RadarRx {
  import opened CInt
  import opened CaptureRecord
  import CirReadout
  import Timestamp

  /** Size of the local receive buffer. */
  const RX_BUF_LEN := 24

  /** Byte offset of the frame counter inside a radar frame. */
  const RADAR_FRAME_DATA_IDX := 6

  /** Bytes of CIR data read per frame. */
  const CIR_BYTES := 4 * CIR_SAMPLES

  /** Bytes in the DW1000's own receive buffer, which a frame length of up to 1023 indexes. */
  const RX_DEVICE_BUF := 1024

  /**
   * What one pass of the loop gets from the outside world. A good frame
   * brings the RX_FINFO register, the device's receive buffer, the five
   * RX time-stamp bytes, the accumulator, the dummy byte of each accumulator
   * read, and whether `fopen` of the record file succeeds. An RX error
   * brings nothing.
   */
  datatype RxEvent =
    | GoodFrame(finfo: UInt32, rxData: seq<Byte>, rxStamp: seq<Byte>, acc: seq<Byte>,
                accJunk: nat -> Byte, openOk: bool)
    | RxError

  predicate WellFormed(ev: RxEvent)
  {
    ev.GoodFrame? ==>
      |ev.rxData| == RX_DEVICE_BUF && |ev.rxStamp| == Timestamp.TS_BYTES && |ev.acc| == CIR_BYTES
  }

  /** The frame length field of RX_FINFO: the register masked with 0x3FF. */
  function FrameLen(finfo: UInt32): (n: nat)
    ensures n < RX_DEVICE_BUF
  {
    finfo % 0x400
  }

  /** A good frame is captured only when its length fits the local receive buffer. */
  predicate Accepted(ev: RxEvent)
  {
    ev.GoodFrame? && FrameLen(ev.finfo) <= RX_BUF_LEN
  }

  /**
   * The local receive buffer after it is cleared and the first frameLen
   * bytes of the frame are read into it.
   */
  function ReceivedBuffer(rxData: seq<Byte>, frameLen: nat): (rx: seq<Byte>)
    requires frameLen <= RX_BUF_LEN && frameLen <= |rxData|
    ensures |rx| == RX_BUF_LEN
    ensures forall i :: 0 <= i < frameLen ==> rx[i] == rxData[i]
    ensures forall i :: frameLen <= i < RX_BUF_LEN ==> rx[i] == 0
  {
    rxData[..frameLen] + seq(RX_BUF_LEN - frameLen, _ => 0)
  }

  /** The frame counter carried by a frame: the int32 whose little-endian bytes are rx[6..10). */
  function FrameCountOf(rx: seq<Byte>): (count: Int32)
    requires |rx| >= RADAR_FRAME_DATA_IDX + 4
    ensures Int32ToLE(count) == rx[RADAR_FRAME_DATA_IDX..RADAR_FRAME_DATA_IDX + 4]
  {
    Int32FromLE(rx[RADAR_FRAME_DATA_IDX..RADAR_FRAME_DATA_IDX + 4])
  }

  /** The loop's exit test, made at the top of every pass. */
  predicate ShouldStop(frameCount: Int32, maxFrameCount: Int32)
  {
    maxFrameCount > 0 && frameCount >= maxFrameCount
  }

  /** The state the loop carries from pass to pass: the frame count and the record files, by frame number. */
  datatype RxState = RxState(frameCount: Int32, files: map<Int32, seq<Byte>>)

  /**
   * One pass of the loop after the exit test. An RX error or a frame too
   * long for the receive buffer changes nothing. A captured frame adds one
   * to the count whether or not its file can be opened, and when it can,
   * the file named by the frame's counter now holds a record that reads
   * back as that counter, the RX time-stamp and the CIR bytes that
   * copyCIRToBuffer leaves: the as-written read-out of the accumulator.
   */
  function RxStep(s: RxState, ev: RxEvent): (t: RxState)
    requires WellFormed(ev) && s.frameCount < INT32_MAX
    ensures !Accepted(ev) ==> t == s
    ensures Accepted(ev) ==> t.frameCount == s.frameCount + 1
    ensures Accepted(ev) && !ev.openOk ==> t.files == s.files
    ensures Accepted(ev) && ev.openOk ==>
              var current := FrameCountOf(ReceivedBuffer(ev.rxData, FrameLen(ev.finfo)));
              && t.files.Keys == s.files.Keys + {current}
              && (forall n :: n in s.files && n != current ==> t.files[n] == s.files[n])
              && DecodeRecord(t.files[current]).Some?
              && DecodeRecord(t.files[current]).value.msgNo == current
              && DecodeRecord(t.files[current]).value.timestamp == FromLE(ev.rxStamp)
              && EncodeSamples(DecodeRecord(t.files[current]).value.cir) == CirReadout.AsWrittenReadout(ev.acc, CIR_BYTES)
  {
    if !Accepted(ev) then s
    else
      Pow256Values();
      var current := FrameCountOf(ReceivedBuffer(ev.rxData, FrameLen(ev.finfo)));
      var cirBytes := CirReadout.AsWrittenReadout(ev.acc, CIR_BYTES);
      var cir := DecodeSamples(cirBytes);
      SamplesBytesRoundTrip(cirBytes);
      var file := SaveCIRToFile(ev.openOk, current, FromLE(ev.rxStamp), cir);
      RxState(s.frameCount + 1, if file.Some? then s.files[current := file.value] else s.files)
  }

  /** Number of events in the list that are captured frames. */
  function AcceptedCount(events: seq<RxEvent>): (n: nat)
    ensures n <= |events|
  {
    if events == [] then 0
    else (if Accepted(events[0]) then 1 else 0) + AcceptedCount(events[1..])
  }

  /**
   * The loop from state s over the events, until the exit test holds or the
   * events run out; the second component says whether the exit test ended it.
   */
  function RxRun(s: RxState, maxFrameCount: Int32, events: seq<RxEvent>): (r: (RxState, bool))
    requires forall i :: 0 <= i < |events| ==> WellFormed(events[i])
    requires 0 <= s.frameCount && s.frameCount + |events| <= INT32_MAX
    ensures s.frameCount <= r.0.frameCount <= s.frameCount + |events|
    ensures r.1 ==> ShouldStop(r.0.frameCount, maxFrameCount)
    decreases |events|
  {
    if ShouldStop(s.frameCount, maxFrameCount) then (s, true)
    else if events == [] then (s, false)
    else RxRun(RxStep(s, events[0]), maxFrameCount, events[1..])
  }

  /**
   * With a positive maximum the count never passes it and the loop ends
   * exactly when the count reaches it; without one (0 or the default -1) the
   * loop never ends by itself. A run that does not end by itself has
   * counted every captured frame.
   */
  lemma {:induction false} RxRunCounts(s: RxState, maxFrameCount: Int32, events: seq<RxEvent>)
    requires forall i :: 0 <= i < |events| ==> WellFormed(events[i])
    requires 0 <= s.frameCount && s.frameCount + |events| <= INT32_MAX
    requires maxFrameCount > 0 ==> s.frameCount <= maxFrameCount
    ensures var (t, stopped) := RxRun(s, maxFrameCount, events);
            && s.frameCount <= t.frameCount <= s.frameCount + |events|
            && (maxFrameCount > 0 ==> t.frameCount <= maxFrameCount)
            && (stopped <==> maxFrameCount > 0 && t.frameCount == maxFrameCount)
            && (!stopped ==> t.frameCount == s.frameCount + AcceptedCount(events))
    decreases |events|
  {
    if !ShouldStop(s.frameCount, maxFrameCount) && events != [] {
      var s' := RxStep(s, events[0]);
      assert forall i :: 0 <= i < |events[1..]| ==> WellFormed(events[1..][i]);
      RxRunCounts(s', maxFrameCount, events[1..]);
    }
  }

  /**
   * One pass of the receiver's main loop after the exit test: clear both
   * buffers, then, for a good frame that fits, read it into rxBuffer, take
   * its frame counter, assemble the RX time-stamp, read the CIR into
   * cirBuffer with copyCIRToBuffer as written (CirReadout.CopyCIRToBuffer),
   * count the frame and save the record. The new state is RxStep of the old.
   */
  method CapturePass(rxBuffer: array<Byte>, cirBuffer: array<Byte>, s: RxState, ev: RxEvent) returns (t: RxState)
    requires rxBuffer.Length == RX_BUF_LEN && cirBuffer.Length == CIR_BYTES && rxBuffer != cirBuffer
    requires WellFormed(ev) && s.frameCount < INT32_MAX
    modifies rxBuffer, cirBuffer
    ensures t == RxStep(s, ev)
  {
    var frameCount: Int32 := s.frameCount;
    var files: map<Int32, seq<Byte>> := s.files;
    forall k | 0 <= k < rxBuffer.Length {
      rxBuffer[k] := 0;
    }
    forall k | 0 <= k < cirBuffer.Length {
      cirBuffer[k] := 0;
    }
    if ev.GoodFrame? {
      // RX_FINFO masked with 0x3FF: its low ten bits
      var frameLen := ev.finfo % 0x400;
      if frameLen <= RX_BUF_LEN {
        forall k | 0 <= k < frameLen {
          rxBuffer[k] := ev.rxData[k];
        }
        assert rxBuffer[..] == ReceivedBuffer(ev.rxData, frameLen);
        var current: Int32 := Int32FromLE(rxBuffer[RADAR_FRAME_DATA_IDX..RADAR_FRAME_DATA_IDX + 4]);
        var rxTimestamp := Timestamp.AssembleU64(ev.rxStamp);
        var requests := CirReadout.CopyCIRToBuffer(cirBuffer, CIR_BYTES, ev.acc, ev.accJunk);
        assert cirBuffer[..] == cirBuffer[..CIR_BYTES] == CirReadout.AsWrittenReadout(ev.acc, CIR_BYTES);
        frameCount := frameCount + 1;
        var file := SaveCIRToFile(ev.openOk, current, rxTimestamp, DecodeSamples(cirBuffer[..]));
        if file.Some? {
          var bytes: seq<Byte> := file.value;
          files := files[current := bytes];
        }
      }
    }
    t := RxState(frameCount, files);
  }

  /**
   * The receiver's main loop over the driver outcomes `events`, starting from
   * a count of 0 and no files. It returns the frame count, the record files
   * written and whether the loop ended by its exit test.
   */
  method ReceiveLoop(maxFrameCount: Int32, events: seq<RxEvent>)
    returns (frameCount: Int32, files: map<Int32, seq<Byte>>, stopped: bool)
    requires forall i :: 0 <= i < |events| ==> WellFormed(events[i])
    requires |events| <= INT32_MAX
    ensures (RxState(frameCount, files), stopped) == RxRun(RxState(0, map[]), maxFrameCount, events)
  {
    var rxBuffer := new Byte[RX_BUF_LEN];
    var cirBuffer := new Byte[CIR_BYTES];
    var state := RxState(0, map[]);
    stopped := false;
    var i := 0;
    while true
      invariant fresh(rxBuffer) && rxBuffer.Length == RX_BUF_LEN
      invariant fresh(cirBuffer) && cirBuffer.Length == CIR_BYTES
      invariant 0 <= i <= |events| && 0 <= state.frameCount <= i
      invariant RxRun(state, maxFrameCount, events[i..]) == RxRun(RxState(0, map[]), maxFrameCount, events)
      decreases |events| - i
    {
      if maxFrameCount > 0 && state.frameCount >= maxFrameCount {
        stopped := true;
        break;
      }
      if i == |events| {
        break;
      }
      assert events[i..][1..] == events[i + 1..];
      state := CapturePass(rxBuffer, cirBuffer, state, events[i]);
      i := i + 1;
    }
    frameCount, files := state.frameCount, state.files;
  }

  /**
   * The record of a captured frame misses accumulator bytes: when the
   * accumulator byte at the end of the first chunk is not zero, the samples
   * the file holds are not the accumulator's.
   */
  lemma CapturedRecordDropsChunkEnd(s: RxState, ev: RxEvent)
    requires WellFormed(ev) && s.frameCount < INT32_MAX && Accepted(ev) && ev.openOk
    requires ev.acc[CirReadout.ACC_CHUNK - 1] != 0
    ensures var current := FrameCountOf(ReceivedBuffer(ev.rxData, FrameLen(ev.finfo)));
            EncodeSamples(DecodeRecord(RxStep(s, ev).files[current]).value.cir) != ev.acc
  {
    CirReadout.AsWrittenDropsChunkEnds(ev.acc, CIR_BYTES, CirReadout.ACC_CHUNK - 1);
    assert ev.acc[..CIR_BYTES] == ev.acc;
  }
}
