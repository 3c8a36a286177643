/**
 * The capture record the receiver writes to one file per frame: the message
 * number as an int32, the RX time-stamp as a uint64, then the CIR samples as
 * (real, imaginary) int16 pairs, all in the host's little-endian layout,
 * with no length field, padding or separator.
 */
module CaptureRecord {
  import opened CInt

  datatype Option<T> = None | Some(value: T)

  /** Number of accumulator samples in the 64 MHz PRF mode. */
  const CIR_SAMPLES := 1016

  /** Bytes of a record: 4 for the message number, 8 for the time-stamp, 4 per sample. */
  const RECORD_BYTES := 4 + 8 + 4 * CIR_SAMPLES

  /** One tap of the channel impulse response (`struct cir_struct`). */
  datatype Sample = Sample(re: Int16, im: Int16)

  datatype Record = Record(msgNo: Int32, timestamp: UInt64, cir: seq<Sample>)

  /** The four bytes of one sample in memory: real part, then imaginary part. */
  function EncodeSample(s: Sample): (bs: seq<Byte>)
    ensures |bs| == 4
  {
    Pow256Values();
    ToLE(AsUnsigned16(s.re), 2) + ToLE(AsUnsigned16(s.im), 2)
  }

  /** The sample that four bytes of memory hold, read as a `struct cir_struct`. */
  function DecodeSample(bs: seq<Byte>): (s: Sample)
    requires |bs| == 4
    ensures EncodeSample(s) == bs
  {
    Pow256Values();
    var re, im := FromLE(bs[..2]), FromLE(bs[2..]);
    ToLEFromLE(bs[..2]);
    ToLEFromLE(bs[2..]);
    assert bs == bs[..2] + bs[2..];
    Sample(AsSigned16(re), AsSigned16(im))
  }

  lemma SampleRoundTrip(s: Sample)
    ensures DecodeSample(EncodeSample(s)) == s
  {
    Pow256Values();
    var bs := EncodeSample(s);
    assert bs[..2] == ToLE(AsUnsigned16(s.re), 2);
    assert bs[2..] == ToLE(AsUnsigned16(s.im), 2);
  }

  /** The bytes of an array of samples, in order. */
  function EncodeSamples(cir: seq<Sample>): (bs: seq<Byte>)
    ensures |bs| == 4 * |cir|
  {
    if cir == [] then [] else EncodeSample(cir[0]) + EncodeSamples(cir[1..])
  }

  /** A byte buffer read as an array of samples (the cast of the CIR byte buffer to `struct cir_struct *`). */
  function DecodeSamples(bs: seq<Byte>): (cir: seq<Sample>)
    requires |bs| % 4 == 0
    ensures 4 * |cir| == |bs|
  {
    if bs == [] then [] else [DecodeSample(bs[..4])] + DecodeSamples(bs[4..])
  }

  lemma {:induction false} SamplesRoundTrip(cir: seq<Sample>)
    ensures DecodeSamples(EncodeSamples(cir)) == cir
  {
    if cir != [] {
      var bs := EncodeSamples(cir);
      assert bs[..4] == EncodeSample(cir[0]);
      assert bs[4..] == EncodeSamples(cir[1..]);
      SampleRoundTrip(cir[0]);
      SamplesRoundTrip(cir[1..]);
    }
  }

  /** Writing out the samples a byte buffer holds writes exactly that buffer. */
  lemma {:induction false} SamplesBytesRoundTrip(bs: seq<Byte>)
    requires |bs| % 4 == 0
    ensures EncodeSamples(DecodeSamples(bs)) == bs
  {
    if bs != [] {
      var cir := DecodeSamples(bs);
      assert cir[0] == DecodeSample(bs[..4]);
      assert cir[1..] == DecodeSamples(bs[4..]);
      SamplesBytesRoundTrip(bs[4..]);
      assert bs == bs[..4] + bs[4..];
    }
  }

  /** The record's bytes: message number, time-stamp, samples. */
  function EncodeRecord(r: Record): (bs: seq<Byte>)
    ensures |bs| == 12 + 4 * |r.cir|
  {
    Pow256Values();
    Int32ToLE(r.msgNo) + ToLE(r.timestamp, 8) + EncodeSamples(r.cir)
  }

  /** Reading a record file back by the fixed layout; a file of any other size is not a record. */
  function DecodeRecord(bs: seq<Byte>): (r: Option<Record>)
    ensures r.Some? <==> |bs| == RECORD_BYTES
    ensures r.Some? ==> |r.value.cir| == CIR_SAMPLES
  {
    Pow256Values();
    if |bs| != RECORD_BYTES then None
    else Some(Record(Int32FromLE(bs[..4]), FromLE(bs[4..12]), DecodeSamples(bs[12..])))
  }

  /** Reading back a written record gives the message number, time-stamp and samples written. */
  lemma RecordRoundTrip(r: Record)
    requires |r.cir| == CIR_SAMPLES
    ensures DecodeRecord(EncodeRecord(r)) == Some(r)
  {
    Pow256Values();
    var bs := EncodeRecord(r);
    assert bs[..4] == Int32ToLE(r.msgNo);
    assert bs[4..12] == ToLE(r.timestamp, 8);
    assert bs[12..] == EncodeSamples(r.cir);
    SamplesRoundTrip(r.cir);
  }

  /** Every file of record size is the encoding of the record read from it. */
  lemma RecordBytesRoundTrip(bs: seq<Byte>)
    requires |bs| == RECORD_BYTES
    ensures EncodeRecord(DecodeRecord(bs).value) == bs
  {
    var r := DecodeRecord(bs).value;
    assert Int32ToLE(r.msgNo) == bs[..4];
    assert ToLE(r.timestamp, 8) == bs[4..12] by {
      Pow256Values();
      ToLEFromLE(bs[4..12]);
    }
    assert EncodeSamples(r.cir) == bs[12..] by {
      SamplesBytesRoundTrip(bs[12..]);
    }
    assert bs == bs[..4] + bs[4..12] + bs[12..];
  }

  /**
   * saveCIRToFile as the bytes it leaves on disk: nothing when the file
   * cannot be opened (`openOk` is the outcome of `fopen`), otherwise a file
   * of exactly RECORD_BYTES bytes that reads back as the message number,
   * time-stamp and samples given.
   */
  function SaveCIRToFile(openOk: bool, msgNo: Int32, rxTimestamp: UInt64, cir: seq<Sample>): (file: Option<seq<Byte>>)
    requires |cir| == CIR_SAMPLES
    ensures file.None? <==> !openOk
    ensures file.Some? ==> |file.value| == RECORD_BYTES
    ensures file.Some? ==> DecodeRecord(file.value) == Some(Record(msgNo, rxTimestamp, cir))
  {
    if !openOk then None
    else
      RecordRoundTrip(Record(msgNo, rxTimestamp, cir));
      Some(EncodeRecord(Record(msgNo, rxTimestamp, cir)))
  }

  /** Frame number -1 and an all-ones 40-bit time-stamp survive the record unchanged. */
  lemma ExtremeValuesRoundTrip(cir: seq<Sample>)
    requires |cir| == CIR_SAMPLES
    ensures DecodeRecord(EncodeRecord(Record(-1, 0xFF_FFFF_FFFF, cir))) == Some(Record(-1, 0xFF_FFFF_FFFF, cir))
  {
    RecordRoundTrip(Record(-1, 0xFF_FFFF_FFFF, cir));
  }
}
