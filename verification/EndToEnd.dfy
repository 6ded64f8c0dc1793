/** What reaches the host: counters, external connections and annotations, each from the code that makes them. */
module EndToEnd {
  import opened Bytes
  import opened Records
  import opened FrameBuffer
  import opened FrameStream
  import opened Options
  import opened Annotations
  import opened AnnotationReader
  import opened Delivery
  import AnnotateStream
  import AnnotateTorn
  import BlockCounter
  import Drain
  import E = ExternalSource
  import Leb128

  function Bodies(frames: seq<Record>): (bs: seq<seq<byte>>)
    ensures |bs| == |frames|
  {
    seq(|frames|, i requires 0 <= i < |frames| => frames[i].body)
  }

  // ---- Counters ----

  /** Every frame of the compressor starts with its type. */
  lemma CounterBodies(c: BlockCounter.Consumer, typed: bool)
    requires BlockCounter.Sent(c).Some?
    ensures Of(RecordsOf(BlockCounter.Sent(c).value, typed), BlockCounter.BLOCK_COUNTER) == RecordsOf(BlockCounter.Sent(c).value, typed)
  {
    hide Of;
    OfAll(RecordsOf(BlockCounter.Sent(c).value, typed), BlockCounter.BLOCK_COUNTER);
  }

  /**
   * The producer of one of any number of sources makes, access by access, the
   * frames of the compressor, and no other source ends counter frames.  Whatever
   * else happens, once the sender has left, the counter frames in the host's
   * parse of the connection read back as exactly the accepted messages in order.
   */
  lemma CountersReachHost(calls: seq<BlockCounter.Call>, sizes: seq<nat>, events: seq<Drain.Event>, typed: bool,
                          d: Drain.Capture, i: nat)
    requires forall k :: 0 <= k < |calls| ==> BlockCounter.Typed(calls[k].m)
    requires BlockCounter.OrdinaryKeys(BlockCounter.SendAll(BlockCounter.FRESH, calls).1)
    requires Drain.SizesOk(sizes) && Drain.Happens(Drain.Begun(sizes), events, typed, d) && d.sender.Exited? && i < |sizes|
    requires OnlySource(d, i, BlockCounter.BLOCK_COUNTER)
    requires var sent := BlockCounter.Sent(BlockCounter.SendAll(BlockCounter.FRESH, calls).0);
             sent.Some? && Produced(events, i) == AllAccesses(sent.value)
    ensures var accepted := BlockCounter.SendAll(BlockCounter.FRESH, calls).1;
            BlockCounter.ReadFrames(Bodies(Of(Parse(d.wire, |Tag(typed)|), BlockCounter.BLOCK_COUNTER))) == Some(accepted)
  {
    hide BlockCounter.SendAll, BlockCounter.Sent, BlockCounter.ReadFrames, Drain.Happens, Parse, AllAccesses, Produced, Of;
    var c := BlockCounter.SendAll(BlockCounter.FRESH, calls).0;
    var bodies := BlockCounter.Sent(c).value;
    RunAdvances(Drain.Begun(sizes), events, typed, d, i);
    SourceEnds(sizes, events, typed, d, i, bodies);
    KindReachesHost(sizes, events, typed, d, i, BlockCounter.BLOCK_COUNTER);
    CounterBodies(c, typed);
    assert Bodies(RecordsOf(bodies, typed)) == bodies;
    BlockCounter.DecodesToAccepted(calls);
  }

  // ---- External connections ----

  /** One transfer: the connection it reads, and what it leaves. */
  datatype Attempt = Attempt(fd: nat, outcome: Option<E.Event>)

  predicate AttemptOk(x: Attempt) {
    IsInt32(x.fd) && (x.outcome.Some? ==> x.outcome.value.fd == x.fd && E.Plausible(x.outcome.value))
  }

  predicate AllOk(xs: seq<Attempt>) { forall k :: 0 <= k < |xs| ==> AttemptOk(xs[k]) }

  /** The frame begun before the read, with the connection's number. */
  function Opened(fd: nat): seq<Access> { [Begin] + Puts([E.EXTERNAL] + Leb128.Pack(fd)) }

  /** The accesses of one transfer: a frame ended, or dropped, or dropped and followed by the report of the end. */
  function AttemptAccesses(x: Attempt): seq<Access> {
    match x.outcome
    case None => Opened(x.fd) + [Drop]
    case Some(Got(_, data)) => FrameAccesses(E.DataBody(x.fd, data))
    case Some(Closed(_)) => Opened(x.fd) + [Drop] + FrameAccesses(E.CloseBody(x.fd))
  }

  function AllAttempts(xs: seq<Attempt>): seq<Access> {
    if xs == [] then [] else AttemptAccesses(xs[0]) + AllAttempts(xs[1..])
  }

  /** What the transfers leave, in order. */
  function EventsOf(xs: seq<Attempt>): seq<E.Event> {
    if xs == [] then []
    else (match xs[0].outcome case None => [] case Some(e) => [e]) + EventsOf(xs[1..])
  }

  lemma {:induction false} EventsPlausible(xs: seq<Attempt>)
    requires AllOk(xs)
    ensures E.AllPlausible(EventsOf(xs))
  {
    hide E.Plausible;
    if xs != [] { EventsPlausible(xs[1..]); }
  }

  lemma DroppedAdvances(fd: nat, frames: seq<Record>, typed: bool)
    ensures AdvanceAll(Progress(NoFrame, frames), Opened(fd) + [Drop], typed) == Progress(NoFrame, frames)
  {
    hide Puts;
    var p, body := Progress(NoFrame, frames), [E.EXTERNAL] + Leb128.Pack(fd);
    AdvanceConcat(p, [Begin] + Puts(body), [Drop], typed);
    AdvanceConcat(p, [Begin], Puts(body), typed);
    assert [Begin][1..] == [] && [Drop][1..] == [];
    PutsAdvance([], body, frames, typed);
  }

  lemma AttemptAdvances(x: Attempt, frames: seq<Record>, typed: bool)
    requires AttemptOk(x)
    ensures AdvanceAll(Progress(NoFrame, frames), AttemptAccesses(x), typed)
         == Progress(NoFrame, frames + match x.outcome case None => [] case Some(e) => [Record(Tag(typed), E.BodyFor(e))])
  {
    hide Opened, FrameAccesses, AdvanceAll, E.DataBody, E.CloseBody;
    DroppedAdvances(x.fd, frames, typed);
    match x.outcome
    case None => assert frames + [] == frames;
    case Some(Got(_, data)) => FrameAdvances(E.DataBody(x.fd, data), frames, typed);
    case Some(Closed(_)) =>
      AdvanceConcat(Progress(NoFrame, frames), Opened(x.fd) + [Drop], FrameAccesses(E.CloseBody(x.fd)), typed);
      FrameAdvances(E.CloseBody(x.fd), frames, typed);
  }

  lemma {:induction false} AttemptsAdvance(xs: seq<Attempt>, frames: seq<Record>, typed: bool)
    requires AllOk(xs)
    ensures AdvanceAll(Progress(NoFrame, frames), AllAttempts(xs), typed)
         == Progress(NoFrame, frames + E.FramesFor(EventsOf(xs), typed))
    decreases |xs|
  {
    hide AttemptAccesses, AttemptOk, E.BodyFor;
    if xs == [] {
      assert frames + E.FramesFor(EventsOf(xs), typed) == frames;
    } else {
      var left := match xs[0].outcome case None => [] case Some(e) => [Record(Tag(typed), E.BodyFor(e))];
      AdvanceConcat(Progress(NoFrame, frames), AttemptAccesses(xs[0]), AllAttempts(xs[1..]), typed);
      AttemptAdvances(xs[0], frames, typed);
      AttemptsAdvance(xs[1..], frames + left, typed);
      assert (frames + left) + E.FramesFor(EventsOf(xs[1..]), typed) == frames + E.FramesFor(EventsOf(xs), typed);
    }
  }

  /** Frames are only added. */
  lemma {:induction false} AdvanceGrows(p: Progress, accesses: seq<Access>, typed: bool)
    ensures p.frames <= AdvanceAll(p, accesses, typed).frames
    decreases |accesses|
  {
    if accesses != [] { AdvanceGrows(Advance(p, accesses[0], typed), accesses[1..], typed); }
  }

  /** A source whose producer makes these transfers, or is still at it, has ended the front of their frames. */
  lemma TransfersEnd(sizes: seq<nat>, events: seq<Drain.Event>, typed: bool, d: Drain.Capture, i: nat, xs: seq<Attempt>)
    requires Drain.Happens(Drain.Begun(sizes), events, typed, d) && i < |sizes| && AllOk(xs) && Produced(events, i) <= AllAttempts(xs)
    ensures i < |d.sources| && d.sources[i].f.frames <= E.FramesFor(EventsOf(xs), typed)
    ensures Produced(events, i) == AllAttempts(xs) ==> d.sources[i].f.frames == E.FramesFor(EventsOf(xs), typed)
  {
    hide Drain.Happens, AdvanceAll, AllAttempts, Produced, AttemptOk;
    RunAdvances(Drain.Begun(sizes), events, typed, d, i);
    var done, p := Produced(events, i), Progress(NoFrame, []);
    var rest := AllAttempts(xs)[|done|..];
    assert done + rest == AllAttempts(xs);
    AttemptsAdvance(xs, [], typed);
    assert [] + E.FramesFor(EventsOf(xs), typed) == E.FramesFor(EventsOf(xs), typed);
    AdvanceConcat(p, done, rest, typed);
    AdvanceGrows(AdvanceAll(p, done, typed), rest, typed);
  }

  /** A reader of EXTERNAL frames passes over all others. */
  lemma {:induction false} CollectOf(frames: seq<Record>, fd: nat)
    ensures E.Collect(frames, fd) == E.Collect(Of(frames, E.EXTERNAL), fd)
  {
    hide Leb128.Unpack;
    if frames != [] {
      CollectOf(frames[1..], fd);
      if IsOf(frames[0], E.EXTERNAL) {
        assert Of(frames, E.EXTERNAL)[1..] == Of(frames[1..], E.EXTERNAL);
      } else {
        assert E.Extract(frames[0].body, fd) == [] && Of(frames, E.EXTERNAL) == Of(frames[1..], E.EXTERNAL);
      }
    }
  }

  lemma {:induction false} ClosesOf(frames: seq<Record>)
    ensures E.Closes(frames) == E.Closes(Of(frames, E.EXTERNAL))
  {
    hide Leb128.Unpack;
    if frames != [] {
      ClosesOf(frames[1..]);
      if IsOf(frames[0], E.EXTERNAL) {
        assert Of(frames, E.EXTERNAL)[1..] == Of(frames[1..], E.EXTERNAL);
      } else {
        assert E.ClosedBy(frames[0].body) == [] && Of(frames, E.EXTERNAL) == Of(frames[1..], E.EXTERNAL);
      }
    }
  }

  /**
   * The producer of one of any number of sources copies external connections,
   * access by access, and no other source ends EXTERNAL frames.  In every
   * interleaving with the other sources and the sender, what the host collects
   * for each connection is the front of what was read from it, in order, and
   * all of it once the transfers are over and the sender has left; likewise the
   * connections it is told were closed.
   */
  lemma ConnectionsReachHost(xs: seq<Attempt>, sizes: seq<nat>, events: seq<Drain.Event>, typed: bool,
                             d: Drain.Capture, i: nat, fd: nat)
    requires AllOk(xs) && Produced(events, i) <= AllAttempts(xs)
    requires Drain.SizesOk(sizes) && Drain.Happens(Drain.Begun(sizes), events, typed, d) && i < |sizes|
    requires OnlySource(d, i, E.EXTERNAL)
    ensures E.Collect(Parse(d.wire, |Tag(typed)|), fd) <= E.TakenFrom(EventsOf(xs), fd)
    ensures Produced(events, i) == AllAttempts(xs) && d.sender.Exited? ==>
              E.Collect(Parse(d.wire, |Tag(typed)|), fd) == E.TakenFrom(EventsOf(xs), fd)
    ensures E.Closes(Parse(d.wire, |Tag(typed)|)) <= E.ClosedIn(EventsOf(xs))
    ensures Produced(events, i) == AllAttempts(xs) && d.sender.Exited? ==>
              E.Closes(Parse(d.wire, |Tag(typed)|)) == E.ClosedIn(EventsOf(xs))
  {
    hide Drain.Happens, Parse, AllAttempts, Produced, Of, E.Collect, E.TakenFrom, AttemptOk, OnlySource, E.Closes, E.ClosedIn;
    TransfersEnd(sizes, events, typed, d, i, xs);
    KindReachesHost(sizes, events, typed, d, i, E.EXTERNAL);
    var host, frames, all := Parse(d.wire, |Tag(typed)|), d.sources[i].f.frames, E.FramesFor(EventsOf(xs), typed);
    CollectOf(host, fd);
    CollectOf(frames, fd);
    E.CollectPrefix(Of(host, E.EXTERNAL), Of(frames, E.EXTERNAL), fd);
    E.CollectPrefix(frames, all, fd);
    EventsPlausible(xs);
    E.CollectAll(EventsOf(xs), typed, fd);
    ClosesOf(host);
    ClosesOf(frames);
    E.ClosesPrefix(Of(host, E.EXTERNAL), Of(frames, E.EXTERNAL));
    E.ClosesPrefix(frames, all);
    E.ClosesAll(EventsOf(xs), typed);
  }

  lemma {:induction false} RunsConcat(f: Stream, a: seq<Access>, g: Stream, b: seq<Access>, typed: bool, h: Stream)
    requires Runs(f, a, typed, g) && Runs(g, b, typed, h)
    ensures Runs(f, a + b, typed, h)
    decreases |a|
  {
    hide Allowed, Do;
    if a == [] {
      assert a + b == b;
    } else {
      RunsConcat(Do(f, a[0], typed), a[1..], g, b, typed, h);
      assert (a + b)[1..] == a[1..] + b;
    }
  }

  /** With room for it, a frame of this body can be made, and is then the last one ended. */
  lemma FrameRuns(f: Stream, body: seq<byte>, typed: bool) returns (g: Stream)
    requires FrameStream.Inv(f, typed) && f.phase.NoFrame? && FRAME_HEADER_SIZE < |body|
    requires f.s.ring.used + FrameStream.Head(typed) + |body| + SLACK <= |f.s.ring.buf|
    ensures Runs(f, FrameAccesses(body), typed, g) && FrameStream.Inv(g, typed) && g.phase.NoFrame?
    ensures g.frames == f.frames + [Record(Tag(typed), body)]
  {
    hide Runs, FrameStream.Inv, Puts, FrameBegun;
    assert f.s.ring.Ok(SLACK) && f.s.ring.claimed == 0 by { QuietRing(f, typed); }
    BeginIsRun(f, body, typed);
    var m := f.(s := f.s.(ring := FrameBegun(f.s.ring, typed, body)), phase := Building(body));
    FrameStream.RunKeepsInv(f, [Begin] + Puts(body), typed, m);
    EndIsRun(m, typed);
    var ends := seq(LENGTH_SIZE, _ => Patch) + [Commit];
    g :| Runs(m, ends, typed, g) && g.phase.NoFrame? && g.frames == m.frames + [Record(Tag(typed), body)];
    FrameStream.RunKeepsInv(m, ends, typed, g);
    RunsConcat(f, [Begin] + Puts(body), m, ends, typed, g);
    assert ends == [Patch, Patch, Patch, Patch, Commit];
  }

  lemma QuietRing(f: Stream, typed: bool)
    requires FrameStream.Inv(f, typed) && f.phase.NoFrame?
    ensures f.s.ring.Ok(SLACK) && f.s.ring.claimed == 0
  {
    hide Flatten;
  }

  /** With nothing in between, a frame begun and dropped leaves no trace. */
  lemma DroppedRuns(f: Stream, fd: nat, typed: bool) returns (g: Stream)
    requires FrameStream.Inv(f, typed) && f.phase.NoFrame? && IsInt32(fd)
    requires f.s.ring.used + E.WAITED_FOR + SLACK <= |f.s.ring.buf|
    ensures Runs(f, Opened(fd) + [Drop], typed, g) && FrameStream.Inv(g, typed) && g.phase.NoFrame?
    ensures g.frames == f.frames && g.s.ring.used == f.s.ring.used && |g.s.ring.buf| == |f.s.ring.buf|
  {
    hide Runs, FrameStream.Inv, Puts;
    assert f.s.ring.Ok(SLACK) && f.s.ring.claimed == 0 by { QuietRing(f, typed); }
    Leb128.PackSizes(fd);
    var body := [E.EXTERNAL] + Leb128.Pack(fd);
    BeginIsRun(f, body, typed);
    var m := f.(s := f.s.(ring := FrameBegun(f.s.ring, typed, body)), phase := Building(body));
    FrameStream.RunKeepsInv(f, Opened(fd), typed, m);
    assert m.s.ring.Ok(SLACK) by { RingOk(m, typed); }
    FrameStream.RunsSnoc(f, Opened(fd), Drop, typed, m);
    g := Do(m, Drop, typed);
    FrameStream.RunKeepsInv(f, Opened(fd) + [Drop], typed, g);
  }

  lemma RingOk(f: Stream, typed: bool)
    requires FrameStream.Inv(f, typed)
    ensures f.s.ring.Ok(SLACK)
  {
    hide Flatten;
  }

  /**
   * The accesses of a transfer can be taken in the room it waits for and its
   * data, and end what it leaves.
   */
  lemma AttemptRuns(f: Stream, x: Attempt, typed: bool) returns (g: Stream)
    requires FrameStream.Inv(f, typed) && f.phase.NoFrame? && AttemptOk(x)
    requires f.s.ring.used + E.WAITED_FOR + SLACK + (if x.outcome.Some? && x.outcome.value.Got? then |x.outcome.value.data| else 0) <= |f.s.ring.buf|
    ensures Runs(f, AttemptAccesses(x), typed, g) && FrameStream.Inv(g, typed) && g.phase.NoFrame?
    ensures g.frames == f.frames + match x.outcome case None => [] case Some(e) => [Record(Tag(typed), E.BodyFor(e))]
  {
    hide Runs, FrameStream.Inv, Opened, FrameAccesses, Leb128.Pack;
    Leb128.PackSizes(x.fd);
    Leb128.PackSizes(-1);
    match x.outcome
    case None => g := DroppedRuns(f, x.fd, typed);
    case Some(Got(_, data)) => g := FrameRuns(f, E.DataBody(x.fd, data), typed);
    case Some(Closed(_)) =>
      var m := DroppedRuns(f, x.fd, typed);
      g := FrameRuns(m, E.CloseBody(x.fd), typed);
      RunsConcat(f, Opened(x.fd) + [Drop], m, FrameAccesses(E.CloseBody(x.fd)), typed, g);
  }

  // ---- Annotations ----

  /** A connection reads back, record by record, as annotations in order from one of them on. */
  ghost predicate ReadsBack(carried: seq<byte>, notes: seq<Annotation>, from: nat) {
    var rs := Parse(carried, 1);
    && from + |rs| <= |notes|
    && forall i :: 0 <= i < |rs| ==>
         |rs[i].tag| == 1 && ReadMessage(rs[i].tag[0], rs[i].body) == Some(Normal(notes[from + i]))
  }

  predicate AllAccepted(notes: seq<Annotation>) { forall i :: 0 <= i < |notes| ==> AnnotateStream.Accepted(notes[i]) }

  lemma MessagesEncode(notes: seq<Annotation>)
    requires AllAccepted(notes)
    ensures AllEncodable(MessagesOf(notes), 1) && AnnotateStream.Messages(notes) == Encodings(MessagesOf(notes), 1)
  {
    hide AnnotateStream.Message, Payload, Mark, AnnotateStream.Accepted, Encode;
    forall i | 0 <= i < |notes|
      ensures Encodable(AsRecord(notes[i]), 1) && AnnotateStream.Message(notes[i]) == Encode(AsRecord(notes[i]))
    {
      AnnotateTorn.MessageEncodes(notes[i]);
    }
  }

  lemma WholeReadsBack(notes: seq<Annotation>, carried: seq<byte>, from: nat)
    requires AllAccepted(notes) && (forall i :: 0 <= i < |notes| ==> Sane(notes[i]))
    requires AnnotateStream.Whole(carried, AnnotateStream.Messages(notes), from)
    ensures ReadsBack(carried, notes, from)
  {
    hide Parse, ReadMessage, Normal, Sane, Mark, Payload, AnnotateStream.Messages, AllAccepted;
    MessagesEncode(notes);
    AnnotateStream.WholeParses(carried, MessagesOf(notes), from);
    var rs := Parse(carried, 1);
    forall i | 0 <= i < |rs|
      ensures |rs[i].tag| == 1 && ReadMessage(rs[i].tag[0], rs[i].body) == Some(Normal(notes[from + i]))
    {
      assert rs[i] == MessagesOf(notes)[from..][i] == AsRecord(notes[from + i]);
      MessageRoundTrip(notes[from + i]);
    }
  }

  predicate Asked(a: Annotation, family: iset<Annotation>) { a in family && AnnotateStream.Accepted(a) }

  /** A thread publishes only what its client was asked to write. */
  ghost predicate FromFamily(t: AnnotateStream.Thread, family: iset<Annotation>) {
    && (forall i :: 0 <= i < |t.notes| ==> Asked(t.notes[i], family))
    && (t.builder.Writing? ==> Asked(t.builder.a, family))
  }

  lemma ActFromFamily(t: AnnotateStream.Thread, act: AnnotateStream.Act, family: iset<Annotation>)
    requires FromFamily(t, family) && AnnotateStream.Allowed(t, act) && (act.Wait? ==> act.a in family)
    ensures FromFamily(AnnotateStream.Do(t, act), family)
  {
    hide AnnotateStream.Message, Reservation;
  }

  lemma {:induction false} RunFromFamily(threads: seq<AnnotateStream.Thread>, events: seq<AnnotateStream.Event>,
                                         end: seq<AnnotateStream.Thread>, descriptors: set<int>, family: iset<Annotation>)
    requires forall i :: 0 <= i < |threads| ==> FromFamily(threads[i], family)
    requires AnnotateStream.Runs(threads, events, end) && AnnotateStream.AllWithin(events, descriptors, family)
    ensures forall i :: 0 <= i < |end| ==> FromFamily(end[i], family)
    decreases |events|
  {
    hide AnnotateStream.Do, AnnotateStream.Allowed;
    if events != [] {
      var e := events[0];
      if e.Event? {
        hide FromFamily;
        ActFromFamily(threads[e.thread], e.act, family);
      }
      RunFromFamily(AnnotateStream.Happen(threads, e), events[1..], end, descriptors, family);
    }
  }

  /**
   * In every run of a client that is safe, whatever any connection of any
   * thread carried, now or before, reads back as annotations that the thread
   * published, in order from one of them on.
   */
  lemma AnnotationsReachHost(events: seq<AnnotateStream.Event>, end: seq<AnnotateStream.Thread>,
                             descriptors: set<int>, family: iset<Annotation>, i: nat)
    requires AnnotateStream.Runs([], events, end) && AnnotateStream.AllWithin(events, descriptors, family)
    requires AnnotateTorn.Safe(descriptors, family) && (forall a :: a in family ==> Sane(a)) && i < |end|
    ensures ReadsBack(end[i].carried, end[i].notes, end[i].base)
    ensures forall k :: 0 <= k < |end[i].past| ==> ReadsBack(end[i].past[k].carried, end[i].notes, end[i].past[k].from)
  {
    hide AnnotateStream.Runs, AnnotateTorn.Safe, Sane, ReadsBack, AnnotateStream.Whole, AnnotateStream.Kept,
      AnnotateStream.Messages, AnnotateStream.Accepted;
    RunFromFamily([], events, end, descriptors, family);
    AnnotateTorn.SafeIsFaithful(events, end, descriptors, family);
    var t := end[i];
    assert AnnotateStream.Faithful(t);
    WholeReadsBack(t.notes, t.carried, t.base);
    forall k | 0 <= k < |t.past| ensures ReadsBack(t.past[k].carried, t.notes, t.past[k].from) {
      WholeReadsBack(t.notes, t.past[k].carried, t.past[k].from);
    }
  }
}
