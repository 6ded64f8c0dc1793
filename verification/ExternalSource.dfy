/**
 * Copying what external connections send into EXTERNAL frames.
 *
 * A transfer is modelled from the point where its wait for room has ended.
 * What `read` answers is an input.
 */
module ExternalSource {
  import opened Bytes
  import opened Rings
  import opened SpscRing
  import opened RingStores
  import opened Records
  import opened FrameBuffer
  import opened FrameStream
  import opened Leb128
  import opened Options

  const EXTERNAL: byte := 10
  /** `waitFor` returns once more than this is available. */
  const WAITED_FOR := MAX_FRAME_HEADER_SIZE + 2 * MAXSIZE_PACK32

  /** What the other end of a connection has for a read: bytes, nothing yet, or no more. */
  datatype Reading = Data(bytes: seq<byte>) | TryAgain | NoMore

  function DataBody(fd: int, data: seq<byte>): seq<byte> { [EXTERNAL] + Pack(fd) + data }

  function CloseBody(fd: int): seq<byte> { [EXTERNAL] + Pack(-1) + Pack(fd) }

  // ---- Frames in the ring ----

  lemma AppendDataHolds(r: Ring, body: seq<byte>, data: seq<byte>, typed: bool)
    requires r.Ok(SLACK) && Holds(r, body, 0, typed) && r.used + r.claimed + |data| + SLACK <= |r.buf|
    ensures var t := Append(r, data, SLACK); t.Ok(SLACK) && Holds(t, body + data, 0, typed) && t.Rest(0) == r.Rest(0)
  {
    hide Wrap, Put, Slice;
    AppendOpen(r, data, SLACK);
    var open := r.Open(r.claimed);
    assert (open + data)[Head(typed)..] == open[Head(typed)..] + data;
    assert (open + data)[..|Tag(typed)|] == open[..|Tag(typed)|];
  }

  lemma BegunHolds(r: Ring, typed: bool, frameType: byte)
    requires r.Ok(SLACK) && r.claimed == 0 && r.used + Head(typed) + 1 + SLACK <= |r.buf| < INT32_LIMIT
    ensures var t := FrameBegun(r, typed, [frameType]); t.Ok(SLACK) && Holds(t, [frameType], 0, typed) && t.Rest(0) == r.Rest(0)
  {
    hide Wrap, Put, Slice;
    BeginHolds(r, typed);
    AppendOpen(r, Tag(typed), SLACK);
    var t := Append(r, Tag(typed), SLACK).(claimed := Head(typed));
    AppendDataHolds(t, [], [frameType], typed);
    assert [] + [frameType] == [frameType];
  }

  /** Ending a frame with a body publishes its encoding after whatever was pending. */
  lemma EndedPublishes(r: Ring, body: seq<byte>, typed: bool)
    requires r.Ok(SLACK) && Holds(r, body, 0, typed) && FRAME_HEADER_SIZE < |body| < INT32_LIMIT
    ensures var t := FrameEnded(r, typed);
            t.Ok(SLACK) && t.claimed == 0 && t.Rest(0) == r.Rest(0) + Encode(Record(Tag(typed), body))
  {
    hide Wrap, Put, Slice;
    var length, open := LE32(|body|), r.Open(r.claimed);
    StoreAllOpen(r, |Tag(typed)|, length, SLACK);
    StoreAllRest(r, |Tag(typed)|, length, SLACK, 0);
    SliceSplit(r.buf, r.Commit(), |Tag(typed)|, r.claimed - |Tag(typed)|);
    assert r.Open(|Tag(typed)|) == open[..|Tag(typed)|] == Tag(typed);
    assert length[..0] == [];
    var t := StoreAll(r, |Tag(typed)|, length, SLACK);
    assert t.Open(r.claimed) == Encode(Record(Tag(typed), body));
    PublishExtends(t, r.claimed, SLACK, 0);
  }

  // ---- One transfer ----

  /** The bytes of a read, stored where the write position points. */
  method StoreRead(buffer: Buffer, data: seq<byte>)
    requires buffer.Valid() && buffer.Fits(|data|) && buffer.writePos + |data| <= buffer.buf.Length
    modifies buffer`writePos, buffer.buf
    ensures buffer.Valid() && buffer.AsRing() == Append(old(buffer.AsRing()), data, SLACK)
  {
    hide Slice, Dist, Put;
    ghost var r := buffer.AsRing();
    buffer.Spans();
    AppendPositions(r, data);
    buffer.WriteDirect(buffer.writePos, data);
    buffer.AdvanceWrite(|data|);
  }

  method BeginExternal(buffer: Buffer, first: int)
    requires buffer.Valid() && buffer.commitPos == buffer.writePos && IsInt32(first)
    requires buffer.Fits(MAX_FRAME_HEADER_SIZE + |Pack(first)|)
    modifies buffer`writePos, buffer.buf
    ensures buffer.Valid() && buffer.commitPos == old(buffer.commitPos)
    ensures Holds(buffer.AsRing(), [EXTERNAL] + Pack(first), 0, buffer.includeType)
    ensures buffer.Pending() == old(buffer.Pending()) && buffer.AsRing().used == old(buffer.AsRing().used)
  {
    hide Wrap, Put, Slice, Pack;
    BegunHolds(buffer.AsRing(), buffer.includeType, EXTERNAL);
    buffer.BeginFrame(EXTERNAL);
    AppendDataHolds(buffer.AsRing(), [EXTERNAL], Pack(first), buffer.includeType);
    buffer.PackInt(first);
  }

  /**
   * One read into one frame.  A read always asks for at least one byte; a data
   * frame and a frame that reports a closed connection both fit in the room
   * waited for; a read with nothing to take leaves no trace.
   */
  method Transfer(buffer: Buffer, fd: nat, reading: Reading) returns (more: bool, asked: nat, taken: nat)
    requires buffer.Valid() && buffer.commitPos == buffer.writePos && IsInt32(fd) && buffer.Fits(WAITED_FOR + 1)
    requires reading.Data? ==> reading.bytes != []
    modifies buffer`writePos, buffer`commitPos, buffer.buf
    ensures buffer.Valid() && buffer.commitPos == buffer.writePos
    ensures asked > 0 && more == reading.Data?
    ensures match reading
            case Data(bytes) =>
              && 0 < taken == (if |bytes| < asked then |bytes| else asked) && |DataBody(fd, bytes[..taken])| < INT32_LIMIT
              && buffer.Pending() == old(buffer.Pending()) + Encode(Record(Tag(buffer.includeType), DataBody(fd, bytes[..taken])))
            case TryAgain => buffer.Pending() == old(buffer.Pending())
            case NoMore =>
              && |CloseBody(fd)| < INT32_LIMIT
              && buffer.Pending() == old(buffer.Pending()) + Encode(Record(Tag(buffer.includeType), CloseBody(fd)))
  {
    hide Wrap, Put, Slice, Pack;
    PackSizes(fd);
    PackSizes(-1);
    BeginExternal(buffer, fd);
    asked := buffer.ContiguousSpaceAvailable();
    match reading
    case Data(bytes) =>
      taken := if |bytes| < asked then |bytes| else asked;
      StoreAndEnd(buffer, [EXTERNAL] + Pack(fd), bytes[..taken]);
      more := true;
    case TryAgain =>
      buffer.AbortFrame();
      more, taken := false, 0;
    case NoMore =>
      buffer.AbortFrame();
      ReportClosed(buffer, fd);
      more, taken := false, 0;
  }

  method ReportClosed(buffer: Buffer, fd: nat)
    requires buffer.Valid() && buffer.commitPos == buffer.writePos && IsInt32(fd) && buffer.Fits(WAITED_FOR)
    modifies buffer`writePos, buffer`commitPos, buffer.buf
    ensures buffer.Valid() && buffer.commitPos == buffer.writePos && |CloseBody(fd)| < INT32_LIMIT
    ensures buffer.Pending() == old(buffer.Pending()) + Encode(Record(Tag(buffer.includeType), CloseBody(fd)))
  {
    hide Wrap, Put, Slice, Pack;
    PackSizes(fd);
    PackSizes(-1);
    BeginExternal(buffer, -1);
    AppendDataHolds(buffer.AsRing(), [EXTERNAL] + Pack(-1), Pack(fd), buffer.includeType);
    buffer.PackInt(fd);
    EndedPublishes(buffer.AsRing(), CloseBody(fd), buffer.includeType);
    buffer.EndFrame();
  }

  method StoreAndEnd(buffer: Buffer, ghost prefix: seq<byte>, data: seq<byte>)
    requires buffer.Valid() && buffer.Fits(|data|) && buffer.writePos + |data| <= buffer.buf.Length
    requires Holds(buffer.AsRing(), prefix, 0, buffer.includeType) && prefix != [] && data != []
    modifies buffer`writePos, buffer`commitPos, buffer.buf
    ensures buffer.Valid() && buffer.commitPos == buffer.writePos && |prefix + data| < INT32_LIMIT
    ensures buffer.Pending() == old(buffer.Pending()) + Encode(Record(Tag(buffer.includeType), prefix + data))
  {
    hide Wrap, Put, Slice;
    AppendDataHolds(buffer.AsRing(), prefix, data, buffer.includeType);
    StoreRead(buffer, data);
    EndedPublishes(buffer.AsRing(), prefix + data, buffer.includeType);
    buffer.EndFrame();
  }

  // ---- What a reader of the frames recovers ----

  /** A transfer that left a frame: data taken from a connection, or the end of one. */
  datatype Event = Got(fd: nat, data: seq<byte>) | Closed(fd: nat)

  /** What `Transfer` leaves. */
  predicate Plausible(e: Event) {
    IsInt32(e.fd) && (e.Got? ==> e.data != [] && |DataBody(e.fd, e.data)| < INT32_LIMIT)
  }

  predicate AllPlausible(events: seq<Event>) { forall i :: 0 <= i < |events| ==> Plausible(events[i]) }

  function BodyFor(e: Event): seq<byte> {
    match e
    case Got(fd, data) => DataBody(fd, data)
    case Closed(fd) => CloseBody(fd)
  }

  /** The frames the transfers leave, in order. */
  function FramesFor(events: seq<Event>, typed: bool): (fs: seq<Record>)
    ensures |fs| == |events|
  {
    seq(|events|, i requires 0 <= i < |events| => Record(Tag(typed), BodyFor(events[i])))
  }

  /** The bytes taken from one connection, in order. */
  function TakenFrom(events: seq<Event>, fd: nat): seq<byte> {
    if events == [] then []
    else (if events[0].Got? && events[0].fd == fd then events[0].data else []) + TakenFrom(events[1..], fd)
  }

  /** What one EXTERNAL body says about one connection: the bytes after its fd, if the fd is that one. */
  function Extract(body: seq<byte>, fd: nat): seq<byte> {
    if body == [] || body[0] != EXTERNAL then []
    else
      match Unpack(body[1..], 32)
      case None => []
      case Some(field) => if field.0 == fd && field.1 <= |body| - 1 then body[1 + field.1..] else []
  }

  function Collect(frames: seq<Record>, fd: nat): seq<byte> {
    if frames == [] then [] else Extract(frames[0].body, fd) + Collect(frames[1..], fd)
  }

  /** The connection that one EXTERNAL body reports closed, if it is such a report. */
  function ClosedBy(body: seq<byte>): seq<int> {
    if body == [] || body[0] != EXTERNAL then []
    else
      match Unpack(body[1..], 32)
      case None => []
      case Some(first) =>
        if first.0 != -1 || first.1 > |body| - 1 then []
        else match Unpack(body[1 + first.1..], 32)
          case None => []
          case Some(fd) => [fd.0]
  }

  /** The connections reported closed, in order. */
  function Closes(frames: seq<Record>): seq<int> {
    if frames == [] then [] else ClosedBy(frames[0].body) + Closes(frames[1..])
  }

  /** The connections the transfers found closed, in order. */
  function ClosedIn(events: seq<Event>): seq<int> {
    if events == [] then [] else (if events[0].Closed? then [events[0].fd] else []) + ClosedIn(events[1..])
  }

  lemma ClosedBody(e: Event)
    requires Plausible(e)
    ensures ClosedBy(BodyFor(e)) == if e.Closed? then [e.fd] else []
  {
    hide Pack, Unpack;
    var first, rest := if e.Got? then e.fd else -1, if e.Got? then e.data else Pack(e.fd);
    assert BodyFor(e)[1..] == Pack(first) + rest;
    UnpackPack(first, rest);
    assert BodyFor(e)[1 + |Pack(first)|..] == rest;
    if e.Closed? {
      UnpackPack(e.fd, []);
      assert Pack(e.fd) + [] == Pack(e.fd);
    }
  }

  lemma {:induction false} ClosesAll(events: seq<Event>, typed: bool)
    requires AllPlausible(events)
    ensures Closes(FramesFor(events, typed)) == ClosedIn(events)
  {
    hide ClosedBy, BodyFor;
    if events != [] {
      ClosedBody(events[0]);
      assert FramesFor(events, typed)[1..] == FramesFor(events[1..], typed);
      ClosesAll(events[1..], typed);
    }
  }

  lemma {:induction false} ClosesPrefix(some: seq<Record>, all: seq<Record>)
    requires some <= all
    ensures Closes(some) <= Closes(all)
  {
    hide ClosedBy;
    if some != [] {
      assert some[0] == all[0];
      ClosesPrefix(some[1..], all[1..]);
    }
  }

  lemma ExtractBody(e: Event, fd: nat)
    requires Plausible(e)
    ensures Extract(BodyFor(e), fd) == if e.Got? && e.fd == fd then e.data else []
  {
    hide Pack, Unpack;
    var first, rest := if e.Got? then e.fd else -1, if e.Got? then e.data else Pack(e.fd);
    assert BodyFor(e)[1..] == Pack(first) + rest;
    UnpackPack(first, rest);
    assert BodyFor(e)[1 + |Pack(first)|..] == rest;
  }

  lemma {:induction false} CollectAll(events: seq<Event>, typed: bool, fd: nat)
    requires AllPlausible(events)
    ensures Collect(FramesFor(events, typed), fd) == TakenFrom(events, fd)
  {
    hide Extract, BodyFor;
    if events != [] {
      ExtractBody(events[0], fd);
      assert FramesFor(events, typed)[1..] == FramesFor(events[1..], typed);
      CollectAll(events[1..], typed, fd);
    }
  }

  lemma {:induction false} CollectPrefix(some: seq<Record>, all: seq<Record>, fd: nat)
    requires some <= all
    ensures Collect(some, fd) <= Collect(all, fd)
  {
    hide Extract;
    if some != [] {
      assert some[0] == all[0];
      CollectPrefix(some[1..], all[1..], fd);
    }
  }

  /** Frames of plausible transfers are always short enough to be sent. */
  lemma FramesEncodable(events: seq<Event>, typed: bool)
    requires AllPlausible(events)
    ensures AllEncodable(FramesFor(events, typed), |Tag(typed)|) && Sendable(FramesFor(events, typed), typed)
  {
    hide Pack;
    forall i | 0 <= i < |events| ensures FRAME_HEADER_SIZE < |BodyFor(events[i])| < INT32_LIMIT {
      PackSizes(events[i].fd);
      PackSizes(-1);
    }
  }

  /**
   * For any sequence of transfers over any connections, a reader of any prefix
   * of the byte stream collects, per connection, a prefix of the bytes read
   * from it in order, and all of them from the whole stream; likewise the
   * connections reported closed.
   */
  lemma EachConnectionInOrder(events: seq<Event>, typed: bool, stream: seq<byte>, fd: nat)
    requires AllPlausible(events)
    requires stream <= StreamFor(events, typed)
    ensures Collect(Parse(stream, |Tag(typed)|), fd) <= TakenFrom(events, fd)
    ensures stream == StreamFor(events, typed) ==> Collect(Parse(stream, |Tag(typed)|), fd) == TakenFrom(events, fd)
    ensures Closes(Parse(stream, |Tag(typed)|)) <= ClosedIn(events)
    ensures stream == StreamFor(events, typed) ==> Closes(Parse(stream, |Tag(typed)|)) == ClosedIn(events)
  {
    hide Parse, Collect, TakenFrom, Encodings, Flatten, Closes, ClosedIn;
    FramesEncodable(events, typed);
    ParseStream(FramesFor(events, typed), stream, |Tag(typed)|);
    CollectAll(events, typed, fd);
    CollectPrefix(Parse(stream, |Tag(typed)|), FramesFor(events, typed), fd);
    ClosesAll(events, typed);
    ClosesPrefix(Parse(stream, |Tag(typed)|), FramesFor(events, typed));
  }

  /** The bytes the transfers leave, in order. */
  function StreamFor(events: seq<Event>, typed: bool): seq<byte>
    requires AllPlausible(events)
  {
    FramesEncodable(events, typed);
    Flatten(Encodings(FramesFor(events, typed), |Tag(typed)|))
  }

  lemma StreamSnoc(events: seq<Event>, e: Event, typed: bool)
    requires AllPlausible(events) && Plausible(e) && |BodyFor(e)| < INT32_LIMIT
    ensures AllPlausible(events + [e])
    ensures StreamFor(events + [e], typed) == StreamFor(events, typed) + Encode(Record(Tag(typed), BodyFor(e)))
  {
    hide Flatten, BodyFor, Plausible;
    FramesEncodable(events, typed);
    FramesEncodable(events + [e], typed);
    var r := Record(Tag(typed), BodyFor(e));
    assert FramesFor(events + [e], typed) == FramesFor(events, typed) + [r];
    EncodingsSnoc(FramesFor(events, typed), r, |Tag(typed)|);
    FlattenSnoc(Encodings(FramesFor(events, typed), |Tag(typed)|), Encode(r));
  }

  // ---- Any number of transfers ----

  /** One readable connection: what it has, and whether the sender drains the buffer first. */
  datatype Turn = Turn(fd: nat, reading: Reading, drain: bool)

  predicate TurnOk(turn: Turn) { IsInt32(turn.fd) && (turn.reading.Data? ==> turn.reading.bytes != []) }

  /** What a transfer may leave: part of the data from its front, the end of the connection, or nothing. */
  predicate Answers(turn: Turn, e: Option<Event>) {
    match turn.reading
    case Data(bytes) => e.Some? && e.value.Got? && e.value.fd == turn.fd && [] < e.value.data <= bytes
    case TryAgain => e.None?
    case NoMore => e == Some(Closed(turn.fd))
  }

  function Left(outcomes: seq<Option<Event>>): seq<Event> {
    if outcomes == [] then []
    else Left(outcomes[..|outcomes| - 1]) + match outcomes[|outcomes| - 1] case None => [] case Some(e) => [e]
  }

  /** One turn: the sender drains the buffer when asked to, or when there is no room and the transfer waits. */
  method TakeTurn(buffer: Buffer, turn: Turn) returns (sent: seq<byte>, outcome: Option<Event>)
    requires buffer.Valid() && buffer.commitPos == buffer.writePos && TurnOk(turn)
    modifies buffer`readPos, buffer`writePos, buffer`commitPos, buffer`writerPosts, buffer.buf
    ensures buffer.Valid() && buffer.commitPos == buffer.writePos && Answers(turn, outcome)
    ensures outcome.Some? ==> Plausible(outcome.value) && |BodyFor(outcome.value)| < INT32_LIMIT
    ensures sent + buffer.Pending() == old(buffer.Pending()) +
      if outcome.None? then [] else Encode(Record(Tag(buffer.includeType), BodyFor(outcome.value)))
  {
    hide Wrap, Put, Slice, Pack, Encode;
    sent := [];
    var available := buffer.BytesAvailable();
    if turn.drain || available <= WAITED_FOR {
      var done;
      done, sent := buffer.Write();
      assert buffer.Pending() == [];
    }
    assert buffer.Fits(WAITED_FOR + 1);
    ghost var middle := buffer.Pending();
    assert sent + middle == old(buffer.Pending());
    var more, asked, taken := Transfer(buffer, turn.fd, turn.reading);
    match turn.reading
    case Data(bytes) =>
      outcome := Some(Got(turn.fd, bytes[..taken]));
      Reassociate(sent, middle, Encode(Record(Tag(buffer.includeType), BodyFor(outcome.value))));
    case TryAgain => outcome := None;
    case NoMore =>
      outcome := Some(Closed(turn.fd));
      Reassociate(sent, middle, Encode(Record(Tag(buffer.includeType), BodyFor(outcome.value))));
  }

  /**
   * Any number of transfers over any connections, with the sender draining in
   * between: what was sent and what is pending is the stream of the frames
   * left, so a reader of what was sent has a prefix of each connection's bytes.
   */
  method TransferAll(buffer: Buffer, script: seq<Turn>) returns (sent: seq<byte>, outcomes: seq<Option<Event>>)
    requires buffer.Valid() && buffer.commitPos == buffer.writePos && buffer.Pending() == []
    requires forall i :: 0 <= i < |script| ==> TurnOk(script[i])
    modifies buffer`readPos, buffer`writePos, buffer`commitPos, buffer`writerPosts, buffer.buf
    ensures buffer.Valid() && |outcomes| == |script| && forall i :: 0 <= i < |script| ==> Answers(script[i], outcomes[i])
    ensures AllPlausible(Left(outcomes)) && sent + buffer.Pending() == StreamFor(Left(outcomes), buffer.includeType)
    ensures forall fd: nat :: Collect(Parse(sent, |Tag(buffer.includeType)|), fd) <= TakenFrom(Left(outcomes), fd)
  {
    hide Wrap, Put, Slice, Pack, Answers, Plausible, BodyFor, TakenFrom, Collect, Parse, StreamFor, Left, Encode;
    sent, outcomes := [], [];
    NothingSent(buffer.includeType);
    for i := 0 to |script|
      invariant buffer.Valid() && buffer.commitPos == buffer.writePos
      invariant |outcomes| == i && forall k :: 0 <= k < i ==> Answers(script[k], outcomes[k])
      invariant AllPlausible(Left(outcomes)) && sent + buffer.Pending() == StreamFor(Left(outcomes), buffer.includeType)
    {
      ghost var before, pending, typed := sent, buffer.Pending(), buffer.includeType;
      var more, outcome := TakeTurn(buffer, script[i]);
      ghost var events := Left(outcomes);
      LeftSnoc(outcomes, outcome);
      if outcome.Some? {
        StreamSnoc(events, outcome.value, typed);
      } else {
        assert events + [] == events && StreamFor(events, typed) + [] == StreamFor(events, typed);
      }
      Carried(before, pending, more, buffer.Pending(),
              if outcome.None? then [] else Encode(Record(Tag(typed), BodyFor(outcome.value))));
      sent, outcomes := sent + more, outcomes + [outcome];
    }
    forall fd: nat ensures Collect(Parse(sent, |Tag(buffer.includeType)|), fd) <= TakenFrom(Left(outcomes), fd) {
      EachConnectionInOrder(Left(outcomes), buffer.includeType, sent, fd);
    }
  }

  lemma LeftSnoc(outcomes: seq<Option<Event>>, outcome: Option<Event>)
    ensures Left(outcomes + [outcome]) == Left(outcomes) + if outcome.None? then [] else [outcome.value]
  {
    assert (outcomes + [outcome])[..|outcomes|] == outcomes;
  }

  lemma NothingSent(typed: bool)
    ensures AllPlausible(Left([])) && StreamFor(Left([]), typed) == []
  {
  }

  lemma Carried(sent: seq<byte>, pending: seq<byte>, more: seq<byte>, left: seq<byte>, frame: seq<byte>)
    requires more + left == pending + frame
    ensures (sent + more) + left == (sent + pending) + frame
  {
    assert (sent + more) + left == sent + (more + left);
    assert (sent + pending) + frame == sent + (pending + frame);
  }
}
