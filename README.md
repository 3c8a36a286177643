# DW1000 radar capture on the Raspberry Pi: a Dafny model

The repository has three small programs built on the DW1000 UWB radio
driver:

- `radar_tx` sends a numbered 12-byte frame over and over.
- `radar_rx` receives those frames. For each one it reads the channel
  impulse response (CIR) out of the radio's accumulator and writes one
  binary capture record per frame.
- `dw1000_tx` sends a single beacon frame carrying the wall-clock time.

This project models the logic of those programs that can be stated on its
own. Module by module:

- `CInt`: the C integer types (`uint8`, `uint16`, `uint32`, `uint64`,
  `int16`, `int32`) as bounded integers, plus the little-endian layout that
  `memcpy` and `fwrite` give them. The target is a little-endian ARM host,
  and the model assumes that.
- `CirReadout`: `copyCIRToBuffer`, the chunked read-out of the accumulator.
  The driver call `dwt_readaccdata(buf, n, off)` is the method
  `ReadAccData`. It writes a dummy first byte, then the n−1 accumulator
  bytes `acc[off..off+n-1)`.
  - The loop asks for 64 bytes per read and the last read asks for exactly
    what remains. For the 4064-byte CIR that makes 63 reads of 64 bytes and a
    last read of 32 bytes, since 4064 is not a multiple of 64.
  - Each read asks for the payload size only, not the payload plus the dummy
    byte. So the last byte of every chunk is the zero the scratch buffer was
    cleared with (see Findings). `CopyCIRToBuffer` models the loop as
    written, and `CopyCIRToBufferFixed` is the version with one more byte per
    read.
- `CaptureRecord`: `saveCIRToFile`, as the bytes the file receives. The
  record is the message number (int32), the RX time-stamp (uint64), then
  1016 `(real, imaginary)` int16 samples: 4076 bytes. A decoder reads it
  back.
- `Timestamp`: the five-byte fold of a 40-bit time-stamp into a uint64.
- `RadarRx`: the receive loop.
  - A step function `RxStep` covers one pass: the length check, the frame
    counter, the count and the saved file.
  - A good frame that fits the buffer is counted before its file is saved,
    so a failed `fopen` still increments the count (`src/radar_rx.c:202-210`).
  - The CIR is read with `copyCIRToBuffer` as written, so the saved record
    holds the as-written read-out, with every chunk-end byte zero.
  - `RxRun` is the whole loop.
  - The imperative loop `ReceiveLoop` is proved equal to `RxRun`.
- `RadarTx`: the radar frame and the transmit loop with its stop rule.
- `Dw1000Tx`: the beacon frame and its one-pass loop.

`Timestamp.AssembleU64` models each of the identical time-stamp helpers:

- `get_rx_timestamp_u64`, at `src/radar_rx.c:350-362`;
- `get_tx_timestamp_u64`, at `src/radar_rx.c:326-338` and `src/dw1000_tx.c:151-163`;
- `get_system_timestamp_u64`, at `src/radar_rx.c:373-384` and `src/dw1000_tx.c:174-186`.

They differ only in the driver call that fills the five bytes. Here those
five bytes are the argument.

The driver's outcomes are inputs. Each pass of the receive loop gets one
`RxEvent`. A good frame carries these parts:

- the RX_FINFO register;
- the device receive buffer;
- the five time-stamp bytes;
- the accumulator;
- the dummy bytes;
- whether `fopen` succeeds.

An RX error carries nothing. Loops that never end in the source run here
over a finite list of events, or a finite number of passes. That list or
count stands for the run being stopped from outside.

## Model

| member | source | states |
|---|---|---|
| CInt.Int32FromLE | src/radar_rx.c:190 | the int32 that `memcpy` reads from four bytes is the one whose two's-complement little-endian bytes are those four bytes |
| CInt.Int32ToLE | src/radar_tx.c:120 | the four bytes `memcpy` copies out of an int32 read back as that int32 |
| CInt.ToLEFromLE | src/radar_rx.c:303-309 | writing out the little-endian value of a byte string gives back the same bytes |
| CInt.Signed32Injective | src/radar_rx.c:190 | reading an int32 back from its bit pattern and storing it again gives the same pattern: the second direction of the two's-complement bijection that AsUnsigned32's contract starts |
| CInt.Signed16Injective | src/radar_rx.c:55-58 | the same second direction for the int16 parts of a sample |
| CInt.MemCpy | src/radar_rx.c:280 | `memcpy` between two buffers sets exactly the n target bytes to the source bytes and changes nothing else |
| CirReadout.ReadAccData | src/radar_rx.c:391-393 | the accumulator read writes a dummy first byte, then the accumulator bytes from the offset, and nothing past n |
| CirReadout.ChunkPlanShape | src/radar_rx.c:265-288 | the loop makes max(1, ceil(len/64)) requests; request k is at offset 64·k and is at most 64 bytes; all but the last are exactly 64; the last is exactly len − 64·(reads−1) |
| CirReadout.ChunkPlanTiles | src/radar_rx.c:280-287 | every byte below len lies in chunk i/64; any byte a chunk covers is below len and belongs to no other chunk: the chunks tile [0, len) |
| CirReadout.ChunkOwnsByte | src/radar_rx.c:285-287 | a byte covered by chunk k lies below len, and k is its index divided by 64 |
| CirReadout.FullAccumulatorPlan | src/radar_rx.c:195 | reading the 4064-byte CIR takes 64 requests, and the last is 32 bytes at offset 4032 |
| CirReadout.AsWrittenReadout | src/radar_rx.c:266-280 | the as-written read-out has len bytes; what each byte is, is stated by AsWrittenPerChunk below and tied to the loop by CopyCIRToBuffer |
| CirReadout.AsWrittenPerChunk | src/radar_rx.c:266-280 | inside each chunk, every byte but the last is the accumulator byte, and the last byte is the zero from the memset |
| CirReadout.CopyCIRToBuffer | src/radar_rx.c:258-289 | the loop as written issues exactly the planned requests, fills buffer[0..len) with the as-written read-out, and leaves the rest of the buffer unchanged |
| CirReadout.CopyCIRToBufferFixed | src/radar_rx.c:258-289 | the corrected read-out makes the same chunks, each one byte longer, and leaves buffer[0..len) equal to acc[0..len) whatever the dummy bytes are |
| CirReadout.AsWrittenDropsChunkEnds | src/radar_rx.c:278-280 | if any accumulator byte at a chunk end is non-zero, the read-out as written differs from the accumulator |
| CirReadout.FullAccumulatorCounterexample | src/radar_rx.c:195 | with an all-0xFF accumulator, byte 63 of the CIR read-out is 0 instead of 0xFF |
| CaptureRecord.DecodeSample | src/radar_rx.c:55-58 | four bytes read as a `cir_struct` give the sample whose bytes they are |
| CaptureRecord.SampleRoundTrip | src/radar_rx.c:55-58 | a sample written as its two int16s reads back unchanged, including negative parts |
| CaptureRecord.EncodeSamples | src/radar_rx.c:309 | an array of samples takes 4 bytes per sample |
| CaptureRecord.DecodeSamples | src/radar_rx.c:116 | a byte buffer cast to `cir_struct *` holds one sample per 4 bytes |
| CaptureRecord.SamplesRoundTrip | src/radar_rx.c:309 | samples written out read back as the same samples |
| CaptureRecord.SamplesBytesRoundTrip | src/radar_rx.c:116 | writing out the samples a CIR buffer holds writes exactly that buffer |
| CaptureRecord.EncodeRecord | src/radar_rx.c:303-309 | a record is 12 bytes plus 4 per sample |
| CaptureRecord.DecodeRecord | src/radar_rx.c:303-309 | a file reads as a record exactly when it is 4076 bytes long, and then it has 1016 samples |
| CaptureRecord.RecordRoundTrip | src/radar_rx.c:303-309 | a written record reads back as the same message number, time-stamp and samples |
| CaptureRecord.RecordBytesRoundTrip | src/radar_rx.c:303-309 | every 4076-byte file is the encoding of the record read from it |
| CaptureRecord.SaveCIRToFile | src/radar_rx.c:291-314 | an open failure leaves no file; otherwise the file is exactly 4076 bytes and reads back as the message number, time-stamp and samples given |
| CaptureRecord.ExtremeValuesRoundTrip | src/radar_rx.c:303-306 | message number −1 and time-stamp 0xFF_FFFF_FFFF come back from a record without change of sign or truncation |
| Timestamp.FromLEIsWeightedSum | src/radar_rx.c:350-362 | the little-endian value of five bytes is Σ ts_tab[i]·256^i |
| Timestamp.ShiftLeft8 | src/radar_rx.c:358 | `ts <<= 8` on a uint64 leaves the low eight bits clear, and below 2^56 it multiplies by 256 with no loss |
| Timestamp.OrIntoClearByte | src/radar_rx.c:359 | or-ing a byte into a 64-bit value whose low eight bits are clear equals adding it, which is why the fold adds each byte |
| Timestamp.AssembleU64 | src/radar_rx.c:350-362 | the shift-and-or fold returns Σ ts_tab[i]·256^i, which is below 2^40 |
| RadarRx.FrameLen | src/radar_rx.c:186 | the frame length is RX_FINFO masked to 10 bits, so it is below 1024 |
| RadarRx.ReceivedBuffer | src/radar_rx.c:163-188 | the receive buffer is 24 bytes: the first frame_len bytes are the frame, and the rest are the zeros from the memset |
| RadarRx.FrameCountOf | src/radar_rx.c:190 | the frame counter is the int32 whose little-endian bytes are rx_buffer[6..10) |
| RadarRx.RxStep | src/radar_rx.c:181-212 | an RX error or a frame longer than 24 bytes changes nothing; any other good frame adds exactly 1 to the count, even when the file does not open; when it opens, only the file named by the frame counter changes, and that file reads back as that counter, the RX time-stamp and the as-written CIR read-out of the accumulator |
| RadarRx.RxRun | src/radar_rx.c:151-156 | the count never falls and rises by at most one per event, and a run that ends by the exit test ends with the test (ShouldStop) true |
| RadarRx.CapturedRecordDropsChunkEnd | src/radar_rx.c:195-210 | when the accumulator byte at the end of the first chunk is non-zero, the record a captured frame leaves does not hold the accumulator |
| RadarRx.RxRunCounts | src/radar_rx.c:151-156 | with a positive maximum the count never exceeds it, and the loop stops exactly when the count reaches it; with 0 or −1 it never stops by itself, and the count is the number of accepted frames (the exit test is ShouldStop, `max_frame_count > 0 && frame_count >= max_frame_count`) |
| RadarRx.CapturePass | src/radar_rx.c:160-212 | one pass of the loop, on the receive and CIR buffers in place and with the as-written CIR read-out, gives the state RxStep gives |
| RadarRx.ReceiveLoop | src/radar_rx.c:151-249 | the loop returns the count, the files and whether the stop test ended it, all as RxRun gives them from count 0 and no files |
| RadarTx.RadarFrame | src/radar_tx.c:117-120 | the frame is 12 bytes; byte 0 is 0xC5; bytes 2..5 are "DECA"; bytes 10..11 are zero; byte 1 is count mod 256; bytes 6..9 are the count as a little-endian int32 |
| RadarTx.ReceiverReadsSentCount | src/radar_tx.c:120 | the 12-byte frame fits the receiver's 24-byte buffer, and the receiver reads from it the count it was sent with, whatever check-sum the radio put in bytes 10..11 |
| RadarTx.RadarFrameCaptured | src/radar_tx.c:117-120 | a radar frame received whole, whatever check-sum fills bytes 10..11, is counted and, when the file opens, is filed under the sent count with that count as its message number |
| RadarTx.TxFramesExtend | src/radar_tx.c:107-120 | each further pass appends the frame of the next count |
| RadarTx.UpdateFrame | src/radar_tx.c:117-120 | raising the sequence byte and copying in the new count turns the previous count's frame into the new count's frame |
| RadarTx.TransmitLoop | src/radar_tx.c:107-112 | the loop stops exactly when the maximum is positive and more passes than the maximum are made; a positive maximum sends exactly the frames of counts 1..max; 0 or −1 sends one frame per pass and never stops |
| Dw1000Tx.BeaconFrame | src/dw1000_tx.c:83-115 | the beacon is 12 bytes: 0xAB, sequence byte 0, time_now as 8 little-endian bytes, then two zero bytes |
| Dw1000Tx.BeaconFrameInjective | src/dw1000_tx.c:114 | different clock readings give different beacons, so the time can be read back from bytes 2..9 |
| Dw1000Tx.SendBeacons | src/dw1000_tx.c:106-115 | the `sampletime` loop runs once and sends exactly one frame, the beacon of the clock reading |

## Left out

- Hardware bring-up and radio configuration are not modelled: `hardware_init`, `reset_DW1000`, the SPI rate switches, `dwt_initialise`, `dwt_configure` and `dwt_setleds`. They are driver calls with no visible effect on the logic.
- The busy-wait polling of the status register is not modelled. Its outcome (good frame or RX error, frame sent) is an input. Clearing the status register and `dwt_rxreset` are left out with it.
- `fopen`, `fwrite` and `fclose` are not modelled as effects, and neither is `printf`. The model keeps the bytes the record file receives, plus the open-failure branch. A short write is not modelled.
- `time(NULL)` and `sleep_ms` are not modelled: the clock reading is a parameter.
- Command-line parsing with `sscanf` is not modelled. The maximum frame count is a parameter, where −1 is the value used when no count is given. The file name that `snprintf` builds is not modelled: files are keyed by frame counter.
- `dwt_readdiagnostics` is not modelled (its result is unused), nor is the commented-out first-path code.
- The `malloc` failure path of the CIR buffer is not modelled.
- The driver's transmit calls (`dwt_writetxdata`, `dwt_writetxfctrl`, `dwt_starttx`) are not modelled. They appear as the frame appended to the list of frames sent.
- RadarRx.ReceiveLoop: does not model signed overflow of `frame_count`. The events list is at most INT32_MAX long, so the count stays within int32. The increment past INT32_MAX is undefined behaviour in C.
- RadarTx.TransmitLoop: does not model signed overflow of `frame_count`. The number of passes is at most INT32_MAX for the same reason.
- Host byte order is fixed as little-endian.
- The value of the two-byte frame check-sum that the radio appends is not modelled. The transmitted frames keep the two zero bytes reserved for it, and the receiver lemmas hold whatever the received check-sum is.

## Findings

| source | as written | input that shows it | evidently intended | confidence | as-written member | corrected member |
|---|---|---|---|---|---|---|
| src/radar_rx.c:278-280 | each chunk requests `toRead` bytes, of which the first is the dummy byte, and then copies `toRead` bytes from `buf[1]`, so the last byte copied is the zero from the memset at line 266 and the accumulator byte at each chunk end is never read | an accumulator of 4064 bytes all 0xFF: byte 63 of the read-out is 0 (and likewise every 64th byte and the last) | request `toRead + 1` bytes so that the copy carries the whole chunk and buffer[0..len) equals the accumulator | not executed | CirReadout.FullAccumulatorCounterexample | CirReadout.CopyCIRToBufferFixed |

The receive loop (`RadarRx.CapturePass`) keeps the read-out as written, so
the records it saves show the defect (`RadarRx.CapturedRecordDropsChunkEnd`).
Calling `CirReadout.CopyCIRToBufferFixed` there instead, with the same buffer
and length, would leave `cir_buffer` equal to the accumulator.
