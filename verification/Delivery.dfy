/** What a source's producer ends, and what the host has of it: any source, any frames, every run. */
module Delivery {
  import opened Bytes
  import opened Records
  import opened FrameBuffer
  import opened FrameStream
  import Drain

  // ---- What a source ends, from what it does to its buffer ----

  /** The accesses of one source's producer, in order. */
  function Produced(events: seq<Drain.Event>, i: nat): seq<Access> {
    if events == [] then []
    else (if events[0].Produce? && events[0].source == i then [events[0].access] else []) + Produced(events[1..], i)
  }

  lemma OneProduced(e: Drain.Event, i: nat)
    ensures Produced([e], i) == if e.Produce? && e.source == i then [e.access] else []
  {
    assert [e][1..] == [] && Produced([], i) == [];
  }

  lemma ProducedCons(events: seq<Drain.Event>, i: nat)
    requires events != []
    ensures Produced(events, i) == Produced([events[0]], i) + Produced(events[1..], i)
  {
    OneProduced(events[0], i);
  }

  lemma NothingProduced(p: Progress, i: nat, typed: bool)
    ensures AdvanceAll(p, Produced([], i), typed) == p
  {
  }

  datatype Progress = Progress(phase: Phase, frames: seq<Record>)

  /** What an access does to the frame being built and to the frames ended, whatever the ring holds. */
  function Advance(p: Progress, a: Access, typed: bool): Progress {
    match a
    case Begin => p.(phase := Building([]))
    case PutByte(b) => if p.phase.Building? then p.(phase := Building(p.phase.body + [b])) else p
    case Patch =>
      if p.phase.NoFrame? then p
      else p.(phase := Patching(p.phase.body, (if p.phase.Building? then 0 else p.phase.patched) + 1))
    case Commit => if p.phase.Patching? then Progress(NoFrame, p.frames + [Record(Tag(typed), p.phase.body)]) else p
    case Drop => p.(phase := NoFrame)
    case Consume(_) => p
  }

  function AdvanceAll(p: Progress, accesses: seq<Access>, typed: bool): Progress
    decreases |accesses|
  {
    if accesses == [] then p else AdvanceAll(Advance(p, accesses[0], typed), accesses[1..], typed)
  }

  lemma {:induction false} AdvanceConcat(p: Progress, a: seq<Access>, b: seq<Access>, typed: bool)
    ensures AdvanceAll(p, a + b, typed) == AdvanceAll(AdvanceAll(p, a, typed), b, typed)
    decreases |a|
  {
    hide Advance;
    if a == [] {
      assert a + b == b;
    } else {
      assert (a + b)[1..] == a[1..] + b;
      AdvanceConcat(Advance(p, a[0], typed), a[1..], b, typed);
    }
  }

  function ProgressOf(f: Stream): Progress { Progress(f.phase, f.frames) }

  lemma AccessAdvances(f: Stream, a: Access, typed: bool)
    requires Allowed(f, a, typed)
    ensures ProgressOf(Do(f, a, typed)) == Advance(ProgressOf(f), a, typed)
  {
  }

  /** Other sources and the sender leave a source's frames alone. */
  lemma EventAdvances(c: Drain.Capture, e: Drain.Event, typed: bool, i: nat)
    requires Drain.CanHappen(c, e, typed) && i < |c.sources|
    ensures var d := Drain.Happen(c, e, typed);
            && |d.sources| == |c.sources|
            && ProgressOf(d.sources[i].f) == AdvanceAll(ProgressOf(c.sources[i].f), Produced([e], i), typed)
  {
    hide Do, Allowed;
    OneProduced(e, i);
    match e
    case Produce(j, a) =>
      AccessAdvances(c.sources[j].f, a, typed);
      if j == i { assert [a][1..] == []; }
    case LoadCommit => AccessAdvances(c.sources[c.sender.at].f, Consume(Drain.SpscRing.Load), typed);
    case Chunk(n) => AccessAdvances(c.sources[c.sender.at].f, Consume(Drain.SpscRing.Send(n)), typed);
    case Finish =>
      var f := c.sources[c.sender.at].f;
      AccessAdvances(f, Consume(Drain.SpscRing.Release(f.s.cons.ahead)), typed);
    case _ =>
  }

  /** So the frames of a source are decided by its producer's accesses alone, in every run. */
  lemma {:induction false} RunAdvances(c: Drain.Capture, events: seq<Drain.Event>, typed: bool, d: Drain.Capture, i: nat)
    requires Drain.Happens(c, events, typed, d) && i < |c.sources|
    ensures |d.sources| == |c.sources|
    ensures ProgressOf(d.sources[i].f) == AdvanceAll(ProgressOf(c.sources[i].f), Produced(events, i), typed)
    decreases |events|
  {
    hide Drain.CanHappen, Drain.Happen, Advance, AdvanceAll, Produced, ProgressOf;
    if events == [] {
      NothingProduced(ProgressOf(c.sources[i].f), i, typed);
    } else {
      var e, m := events[0], Drain.Happen(c, events[0], typed);
      EventAdvances(c, e, typed, i);
      RunAdvances(m, events[1..], typed, d, i);
      ProducedCons(events, i);
      AdvanceConcat(ProgressOf(c.sources[i].f), Produced([e], i), Produced(events[1..], i), typed);
    }
  }

  /** The accesses by which `beginFrame`, the appends and `endFrame` make one frame. */
  function FrameAccesses(body: seq<byte>): seq<Access> {
    [Begin] + Puts(body) + [Patch, Patch, Patch, Patch, Commit]
  }

  function AllAccesses(bodies: seq<seq<byte>>): seq<Access> {
    if bodies == [] then [] else FrameAccesses(bodies[0]) + AllAccesses(bodies[1..])
  }

  lemma {:induction false} PutsAdvance(front: seq<byte>, body: seq<byte>, frames: seq<Record>, typed: bool)
    ensures AdvanceAll(Progress(Building(front), frames), Puts(body), typed) == Progress(Building(front + body), frames)
    decreases |body|
  {
    if body == [] {
      assert front + body == front;
    } else {
      assert Puts(body)[1..] == Puts(body[1..]);
      PutsAdvance(front + [body[0]], body[1..], frames, typed);
      assert (front + [body[0]]) + body[1..] == front + body;
    }
  }

  lemma FrameAdvances(body: seq<byte>, frames: seq<Record>, typed: bool)
    ensures AdvanceAll(Progress(NoFrame, frames), FrameAccesses(body), typed)
         == Progress(NoFrame, frames + [Record(Tag(typed), body)])
  {
    hide Puts;
    var p, tail := Progress(NoFrame, frames), [Patch, Patch, Patch, Patch, Commit];
    AdvanceConcat(p, [Begin] + Puts(body), tail, typed);
    AdvanceConcat(p, [Begin], Puts(body), typed);
    assert [Begin][1..] == [];
    PutsAdvance([], body, frames, typed);
    assert [] + body == body;
    TailAdvances(body, frames, typed);
  }

  lemma TailAdvances(body: seq<byte>, frames: seq<Record>, typed: bool)
    ensures AdvanceAll(Progress(Building(body), frames), [Patch, Patch, Patch, Patch, Commit], typed)
         == Progress(NoFrame, frames + [Record(Tag(typed), body)])
  {
    var p1 := Progress(Patching(body, 1), frames);
    var p2 := Progress(Patching(body, 2), frames);
    var p3 := Progress(Patching(body, 3), frames);
    var p4 := Progress(Patching(body, 4), frames);
    var t1 := [Patch, Patch, Patch, Commit];
    var t2 := [Patch, Patch, Commit];
    var t3 := [Patch, Commit];
    var t4 := [Commit];
    assert [Patch, Patch, Patch, Patch, Commit][1..] == t1 && t1[1..] == t2 && t2[1..] == t3 && t3[1..] == t4 && t4[1..] == [];
    assert AdvanceAll(p4, t4, typed) == AdvanceAll(Advance(p4, Commit, typed), [], typed);
    assert AdvanceAll(p3, t3, typed) == AdvanceAll(p4, t4, typed);
    assert AdvanceAll(p2, t2, typed) == AdvanceAll(p3, t3, typed);
    assert AdvanceAll(p1, t1, typed) == AdvanceAll(p2, t2, typed);
  }

  function RecordsOf(bodies: seq<seq<byte>>, typed: bool): (rs: seq<Record>)
    ensures |rs| == |bodies|
  {
    seq(|bodies|, i requires 0 <= i < |bodies| => Record(Tag(typed), bodies[i]))
  }

  lemma {:induction false} FramesAdvance(bodies: seq<seq<byte>>, frames: seq<Record>, typed: bool)
    ensures AdvanceAll(Progress(NoFrame, frames), AllAccesses(bodies), typed)
         == Progress(NoFrame, frames + RecordsOf(bodies, typed))
    decreases |bodies|
  {
    hide FrameAccesses;
    if bodies == [] {
      assert frames + RecordsOf(bodies, typed) == frames;
    } else {
      var r := Record(Tag(typed), bodies[0]);
      AdvanceConcat(Progress(NoFrame, frames), FrameAccesses(bodies[0]), AllAccesses(bodies[1..]), typed);
      FrameAdvances(bodies[0], frames, typed);
      FramesAdvance(bodies[1..], frames + [r], typed);
      assert (frames + [r]) + RecordsOf(bodies[1..], typed) == frames + RecordsOf(bodies, typed);
    }
  }

  /** A source whose producer makes frames of these bodies has ended exactly those frames. */
  lemma SourceEnds(sizes: seq<nat>, events: seq<Drain.Event>, typed: bool, d: Drain.Capture, i: nat, bodies: seq<seq<byte>>)
    requires Drain.Happens(Drain.Begun(sizes), events, typed, d) && i < |d.sources| && Produced(events, i) == AllAccesses(bodies)
    requires |d.sources| == |sizes|
    ensures d.sources[i].f.frames == RecordsOf(bodies, typed)
  {
    hide Drain.Happens, AdvanceAll, AllAccesses;
    RunAdvances(Drain.Begun(sizes), events, typed, d, i);
    FramesAdvance(bodies, [], typed);
    assert [] + RecordsOf(bodies, typed) == RecordsOf(bodies, typed);
  }

  // ---- Frames of one kind, picked by their type ----

  predicate IsOf(r: Record, kind: byte) { r.body != [] && r.body[0] == kind }

  /** The frames whose type byte is this one, in order. */
  function Of(frames: seq<Record>, kind: byte): seq<Record> {
    if frames == [] then [] else (if IsOf(frames[0], kind) then [frames[0]] else []) + Of(frames[1..], kind)
  }

  lemma {:induction false} OfConcat(a: seq<Record>, b: seq<Record>, kind: byte)
    ensures Of(a + b, kind) == Of(a, kind) + Of(b, kind)
    decreases |a|
  {
    if a == [] {
      assert a + b == b;
    } else {
      assert (a + b)[1..] == a[1..] + b;
      OfConcat(a[1..], b, kind);
    }
  }

  lemma OfPrefix(a: seq<Record>, b: seq<Record>, kind: byte)
    requires a <= b
    ensures Of(a, kind) <= Of(b, kind)
  {
    hide Of;
    assert a + b[|a|..] == b;
    OfConcat(a, b[|a|..], kind);
  }

  lemma {:induction false} OfAll(frames: seq<Record>, kind: byte)
    requires forall k :: 0 <= k < |frames| ==> IsOf(frames[k], kind)
    ensures Of(frames, kind) == frames
  {
    if frames != [] { OfAll(frames[1..], kind); }
  }

  /** No source but one ends frames of a kind. */
  ghost predicate OnlySource(c: Drain.Capture, i: nat, kind: byte) {
    forall j :: 0 <= j < |c.sources| && j != i ==> Of(c.sources[j].f.frames, kind) == []
  }

  /** The log names sources that there are. */
  ghost predicate Named(c: Drain.Capture) { forall k :: 0 <= k < |c.log| ==> c.log[k].0 < |c.sources| }

  lemma {:induction false} RunNames(c: Drain.Capture, events: seq<Drain.Event>, typed: bool, d: Drain.Capture)
    requires Named(c) && Drain.Happens(c, events, typed, d)
    ensures Named(d)
    decreases |events|
  {
    hide Do, Allowed, Drain.EncodedBytes;
    if events != [] { RunNames(Drain.Happen(c, events[0], typed), events[1..], typed, d); }
  }

  /** When no other source has logged any, those of a kind in the log are those of the one source. */
  lemma {:induction false} OfLog(log: seq<(nat, Record)>, n: nat, i: nat, kind: byte)
    requires forall k :: 0 <= k < |log| ==> log[k].0 < n
    requires forall j :: 0 <= j < n && j != i ==> Of(Drain.Project(log, j), kind) == []
    ensures Of(Drain.Logged(log), kind) == Of(Drain.Project(log, i), kind)
    decreases |log|
  {
    hide Of;
    if log == [] {
      assert Drain.Logged(log) == [] && Drain.Project(log, i) == [];
    } else {
      var front, last := log[..|log| - 1], log[|log| - 1];
      forall j | 0 <= j < n && j != i ensures Of(Drain.Project(front, j), kind) == [] {
        OfConcat(Drain.Project(front, j), if last.0 == j then [last.1] else [], kind);
        assert Of(Drain.Project(log, j), kind) == [];
      }
      OfNone(kind);
      OfConcat(Drain.Project(front, i), if last.0 == i then [last.1] else [], kind);
      if last.0 != i {
        OfConcat(Drain.Project(front, last.0), [last.1], kind);
        assert Of(Drain.Project(log, last.0), kind) == [];
      }
      OfLog(front, n, i, kind);
      assert Drain.Logged(log) == Drain.Logged(front) + [last.1];
      OfConcat(Drain.Logged(front), [last.1], kind);
    }
  }

  lemma OfNone(kind: byte)
    ensures Of([], kind) == []
  {
  }

  /** What is logged of each source, and what is under way, is the front of what it ended. */
  lemma LoggedOf(d: Drain.Capture, typed: bool, i: nat, kind: byte)
    requires Drain.Inv(d, typed) && Named(d) && i < |d.sources| && OnlySource(d, i, kind)
    ensures Of(Drain.Logged(d.log), kind) == Of(Drain.Project(d.log, i), kind)
    ensures Of(Drain.Logged(d.log) + Drain.UnderWay(d, typed), kind) <= Of(d.sources[i].f.frames, kind)
  {
    hide Of, Drain.SourceInv, Drain.WireInv, Drain.PassInv, Drain.Project, Drain.Logged;
    forall j | 0 <= j < |d.sources| && j != i ensures Of(Drain.Project(d.log, j), kind) == [] {
      assert Drain.Each(d, j, typed);
      SentIsPrefix(d.sources[j], typed, Drain.PartOf(d, j));
      OfPrefix(Drain.Project(d.log, j), d.sources[j].f.frames, kind);
    }
    OfLog(d.log, |d.sources|, i, kind);
    OfConcat(Drain.Logged(d.log), Drain.UnderWay(d, typed), kind);
    assert Drain.Each(d, i, typed);
    var fr := d.sources[i].f.frames;
    SentIsPrefix(d.sources[i], typed, Drain.PartOf(d, i));
    var sent := d.sources[i].sent;
    OfConcat(fr[..sent], fr[sent..], kind);
    assert fr[..sent] + fr[sent..] == fr;
    if d.sender.Exited? {
      OfNone(kind);
      assert Of(Drain.EndOfCapture(typed), kind) == [] by { EndIsNone(typed, kind); }
    } else if Drain.Current(d) && d.sender.at != i {
      var other := d.sources[d.sender.at];
      assert Drain.Each(d, d.sender.at, typed);
      SentIsPrefix(other, typed, Drain.PartOf(d, d.sender.at));
      OfConcat(other.f.frames[..other.sent], other.f.frames[other.sent..], kind);
      assert other.f.frames[..other.sent] + other.f.frames[other.sent..] == other.f.frames;
    } else {
      OfNone(kind);
    }
  }

  lemma SentIsPrefix(src: Drain.Source, typed: bool, part: seq<byte>)
    requires Drain.SourceInv(src, typed, part)
    ensures src.sent <= |src.f.frames|
  {
  }

  lemma EndIsNone(typed: bool, kind: byte)
    ensures Of(Drain.EndOfCapture(typed), kind) == []
  {
  }

  /**
   * One connection carries the frames of every source.  When only one source
   * ends frames of a kind, then in every run the frames of that kind that the
   * host has parsed are the front of that source's, and all of them once the
   * sender has left.
   */
  lemma KindReachesHost(sizes: seq<nat>, events: seq<Drain.Event>, typed: bool, d: Drain.Capture, i: nat, kind: byte)
    requires Drain.SizesOk(sizes) && Drain.Happens(Drain.Begun(sizes), events, typed, d)
    requires i < |d.sources| && OnlySource(d, i, kind)
    ensures Of(Parse(d.wire, |Tag(typed)|), kind) <= Of(d.sources[i].f.frames, kind)
    ensures d.sender.Exited? ==> Of(Parse(d.wire, |Tag(typed)|), kind) == Of(d.sources[i].f.frames, kind)
  {
    hide Of, Parse, Drain.Happens, Drain.Inv, Drain.Project, Drain.Logged;
    Drain.BegunInv(sizes, typed);
    Drain.RunKeepsInv(Drain.Begun(sizes), events, typed, d);
    RunNames(Drain.Begun(sizes), events, typed, d);
    Drain.HostHas(d, typed);
    LoggedOf(d, typed, i, kind);
    OfPrefix(Parse(d.wire, |Tag(typed)|), Drain.Logged(d.log) + Drain.UnderWay(d, typed), kind);
    if d.sender.Exited? {
      Drain.ExitDeliversAll(sizes, events, typed, d);
      OfConcat(Drain.Logged(d.log), Drain.EndOfCapture(typed), kind);
      EndIsNone(typed, kind);
    }
  }
}
