/**
 * Chunked read-out of the DW1000 accumulator (the channel impulse response)
 * into a contiguous buffer. The driver moves at most ACC_CHUNK bytes per
 * request, and the first byte of every accumulator read is a dummy byte that
 * must be discarded.
 */
module CirReadout {
  import opened CInt

  /** Largest number of payload bytes one request moves. */
  const ACC_CHUNK := 64

  /** One call of the driver's accumulator read: `size` bytes starting at device offset `offset`. */
  datatype AccRead = AccRead(offset: nat, size: nat)

  /**
   * The model of the driver's accumulator read `dwt_readaccdata(buf, n, off)`:
   * it writes n bytes into buf[0..n); buf[0] is a dummy byte (here `junk`,
   * which may be anything) and buf[1..n) are accumulator bytes
   * acc[off..off + n - 1). It writes nothing else.
   */
  method ReadAccData(buf: array<Byte>, n: nat, off: nat, acc: seq<Byte>, junk: Byte)
    requires n <= buf.Length
    requires n == 0 || off + n - 1 <= |acc|
    modifies buf
    ensures n > 0 ==> buf[0] == junk
    ensures forall j :: 1 <= j < n ==> buf[j] == acc[off + j - 1]
    ensures forall j :: n <= j < buf.Length ==> buf[j] == old(buf[j])
  {
    if n > 0 {
      buf[0] := junk;
      forall j | 1 <= j < n {
        buf[j] := acc[off + j - 1];
      }
    }
  }

  // ---------------------------------------------------------------------
  // The request plan: which chunks the loop asks for.

  /**
   * The payload chunks the read-out loop works through when `len` bytes
   * remain and the next one starts at `loc`: full chunks while more than
   * ACC_CHUNK bytes remain, then one chunk of exactly the rest.
   */
  function ChunkPlan(len: nat, loc: nat): (plan: seq<AccRead>)
    decreases len
  {
    if len > ACC_CHUNK then [AccRead(loc, ACC_CHUNK)] + ChunkPlan(len - ACC_CHUNK, loc + ACC_CHUNK)
    else [AccRead(loc, len)]
  }

  /** The number of device reads: one per started chunk, and one even when len is 0. */
  function NumReads(len: nat): nat
  {
    if len == 0 then 1 else (len + ACC_CHUNK - 1) / ACC_CHUNK
  }

  /** Byte `i` lies inside the chunk `c`. */
  predicate InChunk(c: AccRead, i: int)
  {
    c.offset <= i < c.offset + c.size
  }

  /** The index of the chunk that covers byte i. */
  function ChunkOf(i: int): int
  {
    i / ACC_CHUNK
  }

  /**
   * The plan issues NumReads(len) requests; the k-th starts ACC_CHUNK * k
   * after the first; each asks for at most ACC_CHUNK bytes, all but the last
   * exactly ACC_CHUNK, and the last exactly what is left.
   */
  lemma {:induction false} ChunkPlanShape(len: nat, loc: nat)
    ensures |ChunkPlan(len, loc)| == NumReads(len)
    ensures forall k :: 0 <= k < |ChunkPlan(len, loc)| ==>
              ChunkPlan(len, loc)[k].offset == loc + ACC_CHUNK * k &&
              ChunkPlan(len, loc)[k].size <= ACC_CHUNK
    ensures forall k :: 0 <= k < |ChunkPlan(len, loc)| - 1 ==> ChunkPlan(len, loc)[k].size == ACC_CHUNK
    ensures ChunkPlan(len, loc)[|ChunkPlan(len, loc)| - 1].size == len - ACC_CHUNK * (NumReads(len) - 1)
    decreases len
  {
    if len > ACC_CHUNK {
      var rest := ChunkPlan(len - ACC_CHUNK, loc + ACC_CHUNK);
      ChunkPlanShape(len - ACC_CHUNK, loc + ACC_CHUNK);
      assert ChunkPlan(len, loc) == [AccRead(loc, ACC_CHUNK)] + rest;
      assert NumReads(len) == NumReads(len - ACC_CHUNK) + 1;
      forall k | 1 <= k < |ChunkPlan(len, loc)|
        ensures ChunkPlan(len, loc)[k] == rest[k - 1]
      {
      }
    }
  }

  /**
   * The chunks tile [0, len) exactly: every byte below len is covered by the
   * chunk ChunkOf(i), and a byte covered by chunk k lies below len and has
   * k == i / ACC_CHUNK, so no two chunks overlap and none reaches past len.
   */
  lemma ChunkPlanTiles(len: nat)
    ensures forall i :: 0 <= i < len ==>
              ChunkOf(i) < |ChunkPlan(len, 0)| && InChunk(ChunkPlan(len, 0)[ChunkOf(i)], i)
    ensures forall k, i :: 0 <= k < |ChunkPlan(len, 0)| && InChunk(ChunkPlan(len, 0)[k], i) ==>
              0 <= i < len && k == i / ACC_CHUNK
  {
    var plan := ChunkPlan(len, 0);
    ChunkPlanShape(len, 0);
    var n := |plan|;
    forall i | 0 <= i < len
      ensures ChunkOf(i) < n && InChunk(plan[ChunkOf(i)], i)
    {
      var k := i / ACC_CHUNK;
      assert ACC_CHUNK * k <= i < ACC_CHUNK * k + ACC_CHUNK;
    }
    forall k, i | 0 <= k < n && InChunk(plan[k], i)
      ensures 0 <= i < len && k == i / ACC_CHUNK
    {
      ChunkOwnsByte(len, k, i);
    }
  }

  lemma ChunkOwnsByte(len: nat, k: nat, i: int)
    requires k < |ChunkPlan(len, 0)| && InChunk(ChunkPlan(len, 0)[k], i)
    ensures 0 <= i < len && k == i / ACC_CHUNK
  {
    var plan := ChunkPlan(len, 0);
    ChunkPlanShape(len, 0);
    var n := |plan|;
    assert plan[k].offset == ACC_CHUNK * k && plan[k].size <= ACC_CHUNK;
    assert ACC_CHUNK * k <= i < ACC_CHUNK * k + ACC_CHUNK;
    assert plan[n - 1].size == len - ACC_CHUNK * (n - 1);
    if k < n - 1 {
      assert ACC_CHUNK * (k + 1) <= ACC_CHUNK * (n - 1) <= len;
    }
  }

  /**
   * The full accumulator of the 64 MHz PRF mode, 4064 bytes, takes 64 reads:
   * 63 full ones and a last one of 32 bytes at offset 4032.
   */
  lemma FullAccumulatorPlan()
    ensures |ChunkPlan(4064, 0)| == 64
    ensures ChunkPlan(4064, 0)[63] == AccRead(4032, 32)
  {
    ChunkPlanShape(4064, 0);
  }

  // ---------------------------------------------------------------------
  // The read-out as the source writes it.

  /**
   * Byte i of a len-byte read-out is the last byte of its chunk: the last
   * byte of a full chunk, or the very last byte.
   */
  predicate IsChunkEnd(len: nat, i: nat)
  {
    i % ACC_CHUNK == ACC_CHUNK - 1 || i + 1 == len
  }

  /**
   * What the source's read-out leaves in buffer[0..len): each chunk requests
   * only its payload size, so after the dummy byte it gets one accumulator
   * byte too few, and the byte it copies last is the zero the scratch
   * buffer was cleared with.
   */
  function AsWrittenReadout(acc: seq<Byte>, len: nat): (r: seq<Byte>)
    requires len <= |acc|
    ensures |r| == len
  {
    seq(len, i requires 0 <= i < len => if IsChunkEnd(len, i) then 0 else acc[i])
  }

  /**
   * Chunk by chunk: inside the chunk at offset loc with size toRead, bytes
   * loc + j for j < toRead - 1 are accumulator bytes, and byte
   * loc + toRead - 1 is zero.
   */
  lemma AsWrittenPerChunk(acc: seq<Byte>, len: nat, k: nat, j: nat)
    requires len <= |acc|
    requires k < |ChunkPlan(len, 0)| && j < ChunkPlan(len, 0)[k].size
    ensures var c := ChunkPlan(len, 0)[k];
            c.offset + j < len &&
            AsWrittenReadout(acc, len)[c.offset + j] == if j + 1 == c.size then 0 else acc[c.offset + j]
  {
    ChunkPlanShape(len, 0);
    ChunkPlanTiles(len);
    var c := ChunkPlan(len, 0)[k];
    assert InChunk(c, c.offset + j);
    assert (c.offset + j) % ACC_CHUNK == j;
  }

  /**
   * copyCIRToBuffer as written: it fills buffer[0..len) chunk by chunk,
   * issuing exactly the requests of ChunkPlan(len, 0), through a scratch
   * buffer cleared before every request, and leaves the rest of buffer
   * alone. The bytes it leaves are AsWrittenReadout(acc, len). `acc` is the
   * accumulator memory and `junk(k)` the dummy byte of the k-th read.
   */
  method CopyCIRToBuffer(buffer: array<Byte>, len: UInt16, acc: seq<Byte>, junk: nat -> Byte)
    returns (requests: seq<AccRead>)
    requires len <= buffer.Length && len <= |acc|
    modifies buffer
    ensures requests == ChunkPlan(len, 0)
    ensures buffer[..len] == AsWrittenReadout(acc, len)
    ensures buffer[len..] == old(buffer[len..])
  {
    var loc: nat := 0;
    var remaining: nat := len;
    var toRead: nat := 0;
    var lastRead := false;
    var buf := new Byte[ACC_CHUNK + 1];
    ghost var want := AsWrittenReadout(acc, len);
    requests := [];
    while true
      invariant fresh(buf) && buf.Length == ACC_CHUNK + 1
      invariant loc + remaining == len && loc % ACC_CHUNK == 0
      invariant requests + ChunkPlan(remaining, loc) == ChunkPlan(len, 0)
      invariant forall i :: 0 <= i < loc ==> buffer[i] == want[i]
      invariant forall i :: loc <= i < buffer.Length ==> buffer[i] == old(buffer[i])
      decreases remaining
    {
      forall i | 0 <= i < buf.Length {
        buf[i] := 0;
      }
      if remaining > ACC_CHUNK {
        toRead := ACC_CHUNK;
      } else {
        toRead := remaining;
        lastRead := true;
      }
      ReadAccData(buf, toRead, loc, acc, junk(|requests|));
      requests := requests + [AccRead(loc, toRead)];
      MemCpy(buffer, loc, buf, 1, toRead);
      forall i | loc <= i < loc + toRead
        ensures buffer[i] == want[i]
      {
        assert i % ACC_CHUNK == i - loc;
      }
      if lastRead {
        assert buffer[..len] == want;
        break;
      }
      assert ChunkPlan(remaining, loc) == [AccRead(loc, ACC_CHUNK)] + ChunkPlan(remaining - ACC_CHUNK, loc + ACC_CHUNK);
      remaining := remaining - toRead;
      loc := loc + toRead;
    }
  }

  // ---------------------------------------------------------------------
  // The read-out as intended.

  /** Each payload chunk requested together with its leading dummy byte. */
  function WithDummy(plan: seq<AccRead>): (requests: seq<AccRead>)
    ensures |requests| == |plan|
  {
    seq(|plan|, k requires 0 <= k < |plan| => AccRead(plan[k].offset, plan[k].size + 1))
  }

  /** One more chunk adds one more request, one byte longer. */
  lemma WithDummyExtend(plan: seq<AccRead>, c: AccRead)
    ensures WithDummy(plan + [c]) == WithDummy(plan) + [AccRead(c.offset, c.size + 1)]
  {
    var a, b := WithDummy(plan + [c]), WithDummy(plan) + [AccRead(c.offset, c.size + 1)];
    assert forall k :: 0 <= k < |a| ==> a[k] == b[k];
  }

  /**
   * One chunk of the corrected read-out: clear the scratch buffer, request
   * toRead + 1 bytes at loc (the dummy byte and the payload) and copy the
   * payload to buffer[loc..loc + toRead).
   */
  method ReadChunkFixed(buffer: array<Byte>, buf: array<Byte>, loc: nat, toRead: nat, acc: seq<Byte>, junk: Byte)
    requires buf != buffer && buf.Length == ACC_CHUNK + 1 && toRead <= ACC_CHUNK
    requires loc + toRead <= buffer.Length && loc + toRead <= |acc|
    modifies buffer, buf
    ensures forall i :: loc <= i < loc + toRead ==> buffer[i] == acc[i]
    ensures forall i :: 0 <= i < buffer.Length && !(loc <= i < loc + toRead) ==> buffer[i] == old(buffer[i])
  {
    forall i | 0 <= i < buf.Length {
      buf[i] := 0;
    }
    ReadAccData(buf, toRead + 1, loc, acc, junk);
    MemCpy(buffer, loc, buf, 1, toRead);
  }

  /**
   * The read-out with each request one byte longer than its payload, so that
   * after the dummy byte it carries the whole chunk: the same chunks at the
   * same offsets, and buffer[0..len) becomes exactly acc[0..len), whatever
   * the dummy bytes are.
   */
  method CopyCIRToBufferFixed(buffer: array<Byte>, len: UInt16, acc: seq<Byte>, junk: nat -> Byte)
    returns (requests: seq<AccRead>)
    requires len <= buffer.Length && len <= |acc|
    modifies buffer
    ensures requests == WithDummy(ChunkPlan(len, 0))
    ensures buffer[..len] == acc[..len]
    ensures buffer[len..] == old(buffer[len..])
  {
    var loc: nat := 0;
    var remaining: nat := len;
    var toRead: nat := 0;
    var lastRead := false;
    var buf := new Byte[ACC_CHUNK + 1];
    ghost var chunks: seq<AccRead> := [];
    requests := [];
    while true
      invariant fresh(buf) && buf.Length == ACC_CHUNK + 1
      invariant loc + remaining == len
      invariant chunks + ChunkPlan(remaining, loc) == ChunkPlan(len, 0)
      invariant requests == WithDummy(chunks)
      invariant buffer[..loc] == acc[..loc]
      invariant buffer[loc..] == old(buffer[loc..])
      decreases remaining
    {
      if remaining > ACC_CHUNK {
        toRead := ACC_CHUNK;
      } else {
        toRead := remaining;
        lastRead := true;
      }
      ReadChunkFixed(buffer, buf, loc, toRead, acc, junk(|requests|));
      assert buffer[..loc + toRead] == acc[..loc + toRead];
      assert buffer[loc + toRead..] == old(buffer[loc + toRead..]);
      WithDummyExtend(chunks, AccRead(loc, toRead));
      chunks := chunks + [AccRead(loc, toRead)];
      requests := requests + [AccRead(loc, toRead + 1)];
      if lastRead {
        assert chunks == ChunkPlan(len, 0);
        break;
      }
      assert ChunkPlan(remaining, loc) == [AccRead(loc, ACC_CHUNK)] + ChunkPlan(remaining - ACC_CHUNK, loc + ACC_CHUNK);
      remaining := remaining - toRead;
      loc := loc + toRead;
    }
  }

  // ---------------------------------------------------------------------
  // The difference between the two.

  /**
   * The source's read-out differs from the accumulator whenever the
   * accumulator byte at some chunk end is not zero.
   */
  lemma {:induction false} AsWrittenDropsChunkEnds(acc: seq<Byte>, len: nat, i: nat)
    requires len <= |acc| && i < len && IsChunkEnd(len, i) && acc[i] != 0
    ensures AsWrittenReadout(acc, len) != acc[..len]
  {
    assert AsWrittenReadout(acc, len)[i] == 0 != acc[..len][i];
  }

  /**
   * The source's read-out of a full 64 MHz PRF accumulator whose bytes are all
   * 0xFF: byte 63, the end of the first chunk, comes out 0 instead of 0xFF.
   */
  lemma FullAccumulatorCounterexample()
    ensures var acc := seq(4064, _ => 0xFF);
            AsWrittenReadout(acc, 4064)[63] == 0 && acc[63] == 0xFF &&
            AsWrittenReadout(acc, 4064) != acc
  {
    var acc: seq<Byte> := seq(4064, _ => 0xFF);
    AsWrittenDropsChunkEnds(acc, 4064, 63);
    assert acc[..4064] == acc;
  }
}
