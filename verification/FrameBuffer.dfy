/** The daemon's frame buffer: `Buffer` over the ring machine. */
module FrameBuffer {
  import opened Bytes
  import opened Rings
  import opened SpscRing
  import opened RingStores
  import Leb128

  /** Kept free by `bytesAvailable`. */
  const SLACK := 200
  const APC_DATA: byte := 3
  /** The frame type byte; a body no longer than this is not sent. */
  const FRAME_HEADER_SIZE := 1
  const LENGTH_SIZE := 4
  /** Response type, length and frame type. */
  const MAX_FRAME_HEADER_SIZE := 1 + LENGTH_SIZE + FRAME_HEADER_SIZE

  function Tag(includeType: bool): seq<byte> {
    if includeType then [APC_DATA] else []
  }

  /** Power of two, as the constructor insists. */
  predicate IsPowerOfTwo(n: nat) {
    n == 1 || (n > 1 && n % 2 == 0 && IsPowerOfTwo(n / 2))
  }

  class Buffer {
    const buf: array<byte>
    const includeType: bool
    var readPos: nat
    var writePos: nat
    var commitPos: nat
    var isDone: bool
    /** Posts made so far on the sender's semaphore and on the producer's own. */
    var readerPosts: nat
    var writerPosts: nat

    ghost predicate InRange()
      reads this
    {
      readPos < buf.Length && writePos < buf.Length && commitPos < buf.Length
    }

    /** The ring this buffer is in: published bytes from readPos, open bytes from commitPos. */
    ghost function AsRing(): Ring
      requires InRange()
      reads this, buf
    {
      Ring(buf[..], readPos, Dist(readPos, commitPos, buf.Length), Dist(commitPos, writePos, buf.Length))
    }

    ghost predicate Valid()
      reads this, buf
    {
      8192 < buf.Length < INT32_LIMIT && InRange() && AsRing().Ok(SLACK)
    }

    ghost predicate Fits(n: nat)
      requires InRange()
      reads this, buf
    {
      AsRing().used + AsRing().claimed + n + SLACK <= buf.Length
    }

    /** The bytes written since the last commit. */
    ghost function Open(): seq<byte>
      requires Valid()
      reads this, buf
    {
      AsRing().Open(AsRing().claimed)
    }

    /** The bytes committed and not yet sent. */
    ghost function Pending(): seq<byte>
      requires Valid()
      reads this, buf
    {
      AsRing().Rest(0)
    }

    constructor (size: nat, includeType: bool)
      requires 8192 < size < INT32_LIMIT && IsPowerOfTwo(size)
      ensures Valid() && buf.Length == size && this.includeType == includeType && !isDone
      ensures Pending() == [] && Open() == [] && readerPosts == writerPosts == 0
      ensures fresh(buf)
    {
      buf := new byte[size];
      this.includeType := includeType;
      readPos, writePos, commitPos, isDone := 0, 0, 0, false;
      readerPosts, writerPosts := 0, 0;
    }

    lemma Spans()
      requires Valid()
      ensures Dist(readPos, writePos, buf.Length) == AsRing().used + AsRing().claimed
      ensures AsRing().Commit() == commitPos && Wrap(commitPos + AsRing().claimed, buf.Length) == writePos
    {
      DistAdd(readPos, AsRing().used, AsRing().claimed, buf.Length);
    }

    /** The largest write that keeps 200 cells free. */
    method BytesAvailable() returns (n: nat)
      requires Valid()
      ensures Fits(n) && !Fits(n + 1)
    {
      Spans();
      var filled := writePos - readPos;
      if filled < 0 { filled := filled + buf.Length; }
      var remaining := buf.Length - filled - SLACK;
      n := if remaining > 0 then remaining else 0;
    }

    /** The most that fits without passing the end of the array. */
    method ContiguousSpaceAvailable() returns (n: nat)
      requires Valid()
      ensures Fits(n) && writePos + n <= buf.Length
      ensures !Fits(n + 1) || writePos + n == buf.Length
      ensures n > 0 <==> Fits(1)
    {
      n := BytesAvailable();
      if buf.Length - writePos <= n {
        n := buf.Length - writePos;
      }
    }

    /** `packInt` and `packInt64`. */
    method PackInt(x: int)
      requires Valid() && Fits(|Leb128.Pack(x)|)
      modifies this`writePos, buf
      ensures Valid() && AsRing() == Append(old(AsRing()), Leb128.Pack(x), SLACK)
    {
      ghost var r, data := AsRing(), Leb128.Pack(x);
      Spans();
      var packed;
      writePos, packed := Leb128.PackInto(buf, writePos, x, true);
      AppendPositions(r, data);
    }

    /** Stores from an index on, around the ring, moving no position. */
    method WriteDirect(index: nat, data: seq<byte>)
      requires Valid() && index < buf.Length && |data| <= buf.Length
      modifies buf
      ensures Valid() && buf[..] == Put(old(buf[..]), index, data)
    {
      ghost var was := buf[..];
      var i := 0;
      while i < |data|
        invariant 0 <= i <= |data|
        invariant buf[..] == Put(was, index, data[..i])
      {
        PutSnoc(was, index, data, i);
        buf[Wrap(index + i, buf.Length)] := data[i];
        i := i + 1;
      }
      assert data[..|data|] == data;
    }

    method WriteBytes(data: seq<byte>)
      requires Valid() && Fits(|data|)
      modifies this`writePos, buf
      ensures Valid() && AsRing() == Append(old(AsRing()), data, SLACK)
    {
      hide Slice, Dist, Put;
      ghost var r := AsRing();
      Spans();
      AppendPositions(r, data);
      WriteDirect(writePos, data);
      writePos := Wrap(writePos + |data|, buf.Length);
    }

    /** A length, then the bytes. */
    method WriteString(str: seq<byte>)
      requires Valid() && Fits(|Leb128.Pack(|str|)| + |str|)
      modifies this`writePos, buf
      ensures Valid() && AsRing() == Append(Append(old(AsRing()), Leb128.Pack(|str|), SLACK), str, SLACK)
    {
      PackInt(|str|);
      WriteBytes(str);
    }

    /** Skips over bytes that were, or will be, stored there some other way. */
    method AdvanceWrite(bytes: nat)
      requires Valid() && Fits(bytes)
      modifies this`writePos
      ensures Valid() && AsRing() == old(AsRing()).(claimed := old(AsRing().claimed) + bytes)
    {
      ghost var r := AsRing();
      Spans();
      Positions(r, bytes);
      writePos := Wrap(writePos + bytes, buf.Length);
    }

    /** The tag and the frame type, around four bytes left for the length. */
    method BeginFrame(frameType: byte)
      requires Valid() && commitPos == writePos && frameType < 64
      requires Fits(|Tag(includeType)| + LENGTH_SIZE + FRAME_HEADER_SIZE)
      modifies this`writePos, buf
      ensures Valid() && AsRing() == FrameBegun(old(AsRing()), includeType, [frameType])
    {
      assert Leb128.Pack(APC_DATA) == [APC_DATA] && Leb128.Pack(frameType) == [frameType];
      if includeType { PackInt(APC_DATA); } else { AppendNothing(AsRing()); }
      AdvanceWrite(LENGTH_SIZE);
      PackInt(frameType);
    }

    /** The tag, the length to come, and a frame made elsewhere. */
    method WriteRawFrame(frame: seq<byte>)
      requires Valid() && commitPos == writePos && Fits(|Tag(includeType)| + LENGTH_SIZE + |frame|)
      modifies this`writePos, buf
      ensures Valid() && AsRing() == FrameBegun(old(AsRing()), includeType, frame)
    {
      assert Leb128.Pack(APC_DATA) == [APC_DATA];
      if includeType { PackInt(APC_DATA); } else { AppendNothing(AsRing()); }
      AdvanceWrite(LENGTH_SIZE);
      WriteBytes(frame);
    }

    method AbortFrame()
      requires Valid()
      modifies this`writePos
      ensures Valid() && AsRing() == old(AsRing()).(claimed := 0)
    {
      writePos := commitPos;
    }

    method OpenLength() returns (length: nat)
      requires Valid()
      ensures length == AsRing().claimed
    {
      var filled := writePos - commitPos;
      length := if filled < 0 then filled + buf.Length else filled;
    }

    /** Fills in the length and commits, or drops a frame that holds nothing but its type. */
    method EndFrame()
      requires Valid() && AsRing().claimed >= |Tag(includeType)| + LENGTH_SIZE
      modifies this`writePos, this`commitPos, buf
      ensures Valid() && AsRing() == FrameEnded(old(AsRing()), includeType)
    {
      hide Put, Slice, LE32, FrameEnded, Dist, Wrap;
      var filled := OpenLength();
      EndedRing(AsRing(), includeType);
      Spans();
      var typeLength := if includeType then 1 else 0;
      var length := filled - typeLength - LENGTH_SIZE;
      if length <= FRAME_HEADER_SIZE {
        AbortFrame();
        return;
      }
      WriteDirect(Wrap(commitPos + typeLength, buf.Length), LE32(length));
      CommitOpen();
    }

    /** The release of the commit position to the consumer. */
    method CommitOpen()
      requires Valid()
      modifies this`commitPos
      ensures Valid() && commitPos == writePos && AsRing() == Published(old(AsRing()), old(AsRing().claimed), SLACK)
    {
      CommitPositions(AsRing());
      Spans();
      commitPos := writePos;
    }

    /**
     * The consumer's call with nothing interleaved: everything committed goes
     * out, in the two halves either side of the end of the array, its room is
     * released, and the producer is told if there was any.
     */
    method Write() returns (done: bool, sent: seq<byte>)
      requires Valid()
      modifies this`readPos, this`writerPosts
      ensures Valid() && done == isDone
      ensures writerPosts == old(writerPosts) + if sent == [] then 0 else 1
      ensures sent == old(Pending()) && AsRing() == Released(old(AsRing()), old(AsRing().used), SLACK)
    {
      ghost var r := AsRing();
      done := isDone;
      ReleasePositions(r);
      SliceHalves(buf[..], readPos, r.used);
      if commitPos == readPos {
        return done, [];
      }
      var length1, length2 := commitPos - readPos, 0;
      if length1 < 0 {
        length1, length2 := buf.Length - readPos, commitPos;
      }
      sent := buf[readPos..readPos + length1] + buf[..length2];
      readPos := commitPos;
      writerPosts := writerPosts + 1;
    }

    /** Wakes the sender exactly when there is something to send. */
    method Flush()
      requires Valid()
      modifies this`readerPosts
      ensures Valid() && AsRing() == old(AsRing())
      ensures readerPosts == old(readerPosts) + if Pending() == [] then 0 else 1
    {
      ReleasePositions(AsRing());
      assert |Pending()| == AsRing().used;
      if commitPos != readPos { readerPosts := readerPosts + 1; }
    }

    /** The open frame takes three quarters of the buffer or more. */
    method NeedsFlush() returns (needs: bool)
      requires Valid()
      ensures needs == (AsRing().claimed >= buf.Length * 3 / 4)
    {
      var filled := OpenLength();
      needs := filled >= buf.Length * 3 / 4;
    }

    method SetDone()
      requires Valid()
      modifies this`isDone, this`readerPosts
      ensures Valid() && isDone && AsRing() == old(AsRing()) && readerPosts == old(readerPosts) + 1
    {
      isDone := true;
      readerPosts := readerPosts + 1;
    }
  }

  /** A frame opened: tag, four bytes of whatever the ring held, then the start of the body. */
  function FrameBegun(r: Ring, includeType: bool, body: seq<byte>): Ring
    requires r.Ok(SLACK) && r.claimed == 0
    requires r.used + |Tag(includeType)| + LENGTH_SIZE + |body| + SLACK <= |r.buf|
  {
    var tagged := Append(r, Tag(includeType), SLACK);
    Append(tagged.(claimed := tagged.claimed + LENGTH_SIZE), body, SLACK)
  }

  /** The body of the frame being built. */
  function BodyOf(r: Ring, includeType: bool): seq<byte>
    requires r.Ok(SLACK) && |Tag(includeType)| + LENGTH_SIZE <= r.claimed
  {
    r.Open(r.claimed)[|Tag(includeType)| + LENGTH_SIZE..]
  }

  function FrameEnded(r: Ring, includeType: bool): Ring
    requires r.Ok(SLACK) && |Tag(includeType)| + LENGTH_SIZE <= r.claimed && |r.buf| < INT32_LIMIT
  {
    var length := |BodyOf(r, includeType)|;
    if length <= FRAME_HEADER_SIZE then r.(claimed := 0)
    else Published(StoreAll(r, |Tag(includeType)|, LE32(length), SLACK), r.claimed, SLACK)
  }

  /** What ending a frame leaves, cell by cell. */
  lemma EndedRing(r: Ring, includeType: bool)
    requires r.Ok(SLACK) && |Tag(includeType)| + LENGTH_SIZE <= r.claimed && |r.buf| < INT32_LIMIT
    ensures var length := r.claimed - |Tag(includeType)| - LENGTH_SIZE;
            FrameEnded(r, includeType) == if length <= FRAME_HEADER_SIZE then r.(claimed := 0)
              else Ring(Put(r.buf, Wrap(r.Commit() + |Tag(includeType)|, |r.buf|), LE32(length)), r.read, r.used + r.claimed, 0)
  {
    hide Put, LE32;
  }

  lemma AppendNothing(r: Ring)
    requires r.Ok(SLACK)
    ensures Append(r, [], SLACK) == r
  {
  }

  lemma Positions(r: Ring, more: nat)
    requires r.Ok(SLACK) && r.used + r.claimed + more + SLACK <= |r.buf|
    ensures Dist(r.read, r.Commit(), |r.buf|) == r.used
    ensures Dist(r.Commit(), Wrap(Wrap(r.Commit() + r.claimed, |r.buf|) + more, |r.buf|), |r.buf|) == r.claimed + more
  {
    hide Wrap, Dist, Put, Slice;
    DistAdd(r.Commit(), r.claimed, more, |r.buf|);
    DistAdd(r.read, r.used, 0, |r.buf|);
  }

  lemma CommitPositions(r: Ring)
    requires r.Ok(SLACK)
    ensures Dist(r.read, Wrap(r.Commit() + r.claimed, |r.buf|), |r.buf|) == r.used + r.claimed
  {
    hide Wrap, Dist, Put, Slice;
    DistAdd(r.read, r.used, r.claimed, |r.buf|);
  }

  lemma ReleasePositions(r: Ring)
    requires r.Ok(SLACK)
    ensures r.Commit() == Wrap(r.read + r.used, |r.buf|) && Dist(r.read, r.Commit(), |r.buf|) == r.used
  {
    DistAdd(r.read, r.used, 0, |r.buf|);
  }

  /** Moving the write position past the data accounts for it. */
  lemma AppendPositions(r: Ring, data: seq<byte>)
    requires r.Ok(SLACK) && r.used + r.claimed + |data| + SLACK <= |r.buf|
    ensures var n, c := |r.buf|, r.Commit();
            && Dist(r.read, c, n) == r.used
            && Dist(c, Wrap(Wrap(c + r.claimed, n) + |data|, n), n) == r.claimed + |data|
    ensures Append(r, data, SLACK).Ok(SLACK)
    ensures Append(r, data, SLACK) == Ring(Put(r.buf, Wrap(r.Commit() + r.claimed, |r.buf|), data), r.read, r.used, r.claimed + |data|)
  {
    hide Wrap, Dist, Put, Slice;
    DistAdd(r.Commit(), r.claimed, |data|, |r.buf|);
    DistAdd(r.read, r.used, 0, |r.buf|);
  }
}
