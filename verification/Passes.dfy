/**
 * What a pass of the sender delivers: whatever each source had committed before
 * it was polled, done or not; and that a posted semaphore is enough for it.
 */
module Passes {
  import opened Bytes
  import opened Records
  import opened FrameBuffer
  import opened Drain
  import Rings
  import S = SpscRing
  import F = FrameStream

  /** In the pass under way, the commit position of source i has not been loaded yet. */
  predicate NotYetPolled(c: Capture, i: nat)
    requires i < |c.sources|
  {
    match c.sender
    case Scanning(n, _) => n <= i
    case Polling(at, _, _) => at < i || (at == i && c.sources[i].f.s.cons.Idle?)
    case _ => false
  }

  /** The first k frames of source i are committed, loaded or logged, depending on how far the pass is. */
  predicate OnTheWay(c: Capture, i: nat, k: nat)
    requires i < |c.sources|
  {
    var src := c.sources[i];
    if NotYetPolled(c, i) then k <= |src.f.frames|
    else if c.sender.Polling? && c.sender.at == i then src.f.s.cons.Sending? && k <= src.f.s.cons.upto
    else c.sender != Waiting && k <= src.sent
  }

  lemma ProduceOnTheWay(c: Capture, j: nat, a: F.Access, typed: bool, i: nat, k: nat)
    requires Drain.Inv(c, typed) && CanHappen(c, Produce(j, a), typed) && i < |c.sources| && OnTheWay(c, i, k)
    ensures OnTheWay(Happen(c, Produce(j, a), typed), i, k)
  {
    hide F.Inv, F.Do, F.Allowed, EncodedBytes, Project, WireInv, PassInv, WakeInv;
    assert Each(c, j, typed);
    ProducerFrame(c.sources[j].f, a, typed);
  }

  lemma LoadOnTheWay(c: Capture, typed: bool, i: nat, k: nat)
    requires Drain.Inv(c, typed) && CanHappen(c, LoadCommit, typed) && i < |c.sources| && OnTheWay(c, i, k)
    ensures OnTheWay(Happen(c, LoadCommit, typed), i, k)
  {
    hide F.Inv, F.Do, F.Allowed, EncodedBytes, Project, WireInv, WakeInv;
    var src := c.sources[c.sender.at];
    assert Each(c, c.sender.at, typed);
    ConsumerFrame(src.f, S.Load, typed);
    MessagesAreFrames(src.f, typed);
    if src.f.s.ring.used == 0 {
      AllSent(src, typed);
      assert |src.f.frames[..src.sent]| == src.sent;
    }
  }

  lemma ChunkOnTheWay(c: Capture, n: nat, typed: bool, i: nat, k: nat)
    requires Drain.Inv(c, typed) && CanHappen(c, Chunk(n), typed) && i < |c.sources| && OnTheWay(c, i, k)
    ensures OnTheWay(Happen(c, Chunk(n), typed), i, k)
  {
    hide F.Inv, F.Do, EncodedBytes, Project, WireInv, PassInv, WakeInv, Rings.Slice;
    assert Each(c, c.sender.at, typed);
    ConsumerFrame(c.sources[c.sender.at].f, S.Send(n), typed);
  }

  /** No event but the end of the pass loses any of them. */
  lemma EventOnTheWay(c: Capture, e: Event, typed: bool, i: nat, k: nat)
    requires Drain.Inv(c, typed) && CanHappen(c, e, typed) && !e.EndPass? && i < |c.sources| && OnTheWay(c, i, k)
    ensures var d := Happen(c, e, typed); |d.sources| == |c.sources| && OnTheWay(d, i, k)
  {
    hide F.Inv, F.Do, F.Allowed, EncodedBytes, Project, WireInv, WakeInv, Each;
    match e
    case Produce(j, a) => ProduceOnTheWay(c, j, a, typed, i, k);
    case LoadCommit => LoadOnTheWay(c, typed, i, k);
    case Chunk(n) => ChunkOnTheWay(c, n, typed, i, k);
    case LoadDone =>
      assert i == c.sender.next ==> c.sources[i].f.s.cons.Idle? by { assert Each(c, c.sender.next, typed); LoadsIdle(c, typed); }
    case _ =>
  }

  lemma LoadsIdle(c: Capture, typed: bool)
    requires Drain.Inv(c, typed) && c.sender.Scanning? && c.sender.next < |c.sources|
    ensures c.sources[c.sender.next].f.s.cons.Idle?
  {
    hide F.Inv, EncodedBytes, Project, WireInv, WakeInv;
    assert Each(c, c.sender.next, typed);
  }

  predicate WithinPass(events: seq<Event>) { forall j :: 0 <= j < |events| ==> !events[j].EndPass? }

  lemma {:induction false} RunOnTheWay(c: Capture, events: seq<Event>, typed: bool, d: Capture, i: nat, k: nat)
    requires Drain.Inv(c, typed) && Happens(c, events, typed, d) && WithinPass(events) && i < |c.sources| && OnTheWay(c, i, k)
    ensures Drain.Inv(d, typed) && |d.sources| == |c.sources| && OnTheWay(d, i, k)
    decreases |events|
  {
    hide Drain.Inv, CanHappen, Happen, OnTheWay;
    if events != [] {
      EventOnTheWay(c, events[0], typed, i, k);
      EventKeepsInv(c, events[0], typed);
      RunOnTheWay(Happen(c, events[0], typed), events[1..], typed, d, i, k);
    }
  }

  lemma {:induction false} FramesGrow(c: Capture, events: seq<Event>, typed: bool, d: Capture, i: nat)
    requires Drain.Inv(c, typed) && Happens(c, events, typed, d) && i < |c.sources|
    ensures |d.sources| == |c.sources| && c.sources[i].f.frames <= d.sources[i].f.frames
    decreases |events|
  {
    hide Drain.Inv, CanHappen, Happen;
    if events != [] {
      EventGrows(c, events[0], typed, i);
      EventKeepsInv(c, events[0], typed);
      FramesGrow(Happen(c, events[0], typed), events[1..], typed, d, i);
    }
  }

  lemma EventGrows(c: Capture, e: Event, typed: bool, i: nat)
    requires Drain.Inv(c, typed) && CanHappen(c, e, typed) && i < |c.sources|
    ensures var d := Happen(c, e, typed); |d.sources| == |c.sources| && c.sources[i].f.frames <= d.sources[i].f.frames
  {
    hide F.Inv, EncodedBytes, Project, WireInv, PassInv, WakeInv, Each;
    match e
    case Produce(j, a) => assert c.sources[j].f.frames <= F.Do(c.sources[j].f, a, typed).frames;
    case _ =>
  }

  /** What has been logged of source i, and so reached the host, starts with these frames. */
  ghost predicate Delivers(d: Capture, typed: bool, i: nat, frames: seq<Record>) {
    && frames <= Project(d.log, i)
    && Parse(d.wire, |Tag(typed)|) == Logged(d.log) + if d.sender.Exited? then EndOfCapture(typed) else []
  }

  /** At the end of a pass everything that was on the way is logged and with the host. */
  lemma PassEnds(c: Capture, d: Capture, typed: bool, i: nat, frames: seq<Record>)
    requires Drain.Inv(c, typed) && CanHappen(c, EndPass, typed) && i < |c.sources|
    requires frames <= c.sources[i].f.frames && OnTheWay(c, i, |frames|)
    requires d == Happen(c, EndPass, typed)
    ensures Drain.Inv(d, typed) && Delivers(d, typed, i, frames)
  {
    hide F.Inv, EncodedBytes, Project, WireInv, WakeInv, Parse, Logged;
    assert Each(c, i, typed);
    EventKeepsInv(c, EndPass, typed);
    HostHas(d, typed);
    assert frames == c.sources[i].f.frames[..|frames|];
  }

  /**
   * A pass, from any point of it to its end, with anything the sources do
   * meanwhile: of every source not polled yet at that point, done or not, all
   * frames committed by then are logged and parsed by the host at the end.
   */
  lemma PassDelivers(sizes: seq<nat>, before: seq<Event>, c: Capture, events: seq<Event>, m: Capture, typed: bool, i: nat)
    requires SizesOk(sizes) && Happens(Begun(sizes), before, typed, c) && i < |c.sources| && NotYetPolled(c, i)
    requires Happens(c, events, typed, m) && WithinPass(events) && CanHappen(m, EndPass, typed)
    ensures Delivers(Happen(m, EndPass, typed), typed, i, c.sources[i].f.frames)
  {
    hide Drain.Inv, Happens, Happen, Delivers;
    BegunInv(sizes, typed);
    Drain.RunKeepsInv(Begun(sizes), before, typed, c);
    var k := |c.sources[i].f.frames|;
    RunOnTheWay(c, events, typed, m, i, k);
    FramesGrow(c, events, typed, m, i);
    PassEnds(m, Happen(m, EndPass, typed), typed, i, c.sources[i].f.frames);
  }

  /** A pass that begins has not polled any source, so it delivers all that was committed when the sender woke. */
  lemma WakePollsAll(c: Capture, typed: bool, i: nat)
    requires CanHappen(c, Wake, typed) && i < |c.sources|
    ensures var d := Happen(c, Wake, typed); d.sources == c.sources && NotYetPolled(d, i)
  {
  }

  // ---- A post is enough ----

  predicate InPass(c: Capture) { c.sender.Scanning? || c.sender.Polling? }

  /** In a pass the sender can always go on. */
  lemma PassGoesOn(d: Capture, typed: bool)
    requires Drain.Inv(d, typed) && InPass(d)
    ensures SenderEvent(Next(d)) && CanHappen(d, Next(d), typed)
  {
    hide F.Inv, EncodedBytes, Project, WireInv, WakeInv, Each;
    if d.sender.Polling? { PollGoesOn(d, typed); }
  }

  /** Each of its events but the last leaves less of the pass. */
  lemma PassComesCloser(d: Capture, typed: bool)
    requires Drain.Inv(d, typed) && InPass(d) && CanHappen(d, Next(d), typed) && SenderEvent(Next(d)) && !Next(d).EndPass?
    ensures var e := Happen(d, Next(d), typed);
            InPass(e) && |e.sources| == |d.sources| && PassLeft(e) < PassLeft(d) && e.sem == d.sem
  {
    hide F.Inv, EncodedBytes, Project, WireInv, WakeInv, F.Allowed, F.Do;
    if d.sender.Polling? {
      PollComesCloser(d, typed);
    } else {
      LoadsIdle(d, typed);
    }
  }

  lemma PassLeftPositive(d: Capture, typed: bool)
    requires Drain.Inv(d, typed) && InPass(d)
    ensures 1 <= PassLeft(d) <= 4 * |d.sources| + 1
  {
    hide F.Inv, EncodedBytes, Project, WireInv, WakeInv, Each;
  }

  /** The rest of a pass by the sender alone, up to its end. */
  lemma {:induction false} PassRuns(d: Capture, typed: bool, left: nat) returns (events: seq<Event>, e: Capture)
    requires Drain.Inv(d, typed) && InPass(d) && PassLeft(d) <= left + 1
    ensures |events| <= left && (forall j :: 0 <= j < |events| ==> SenderEvent(events[j])) && WithinPass(events)
    ensures Happens(d, events, typed, e) && Drain.Inv(e, typed) && CanHappen(e, EndPass, typed)
    ensures e.sem == d.sem && |e.sources| == |d.sources|
    decreases left
  {
    hide Drain.Inv, CanHappen, Happen, Next, PassLeft;
    PassGoesOn(d, typed);
    PassLeftPositive(d, typed);
    if Next(d) == EndPass {
      events, e := [], d;
    } else {
      PassComesCloser(d, typed);
      EventKeepsInv(d, Next(d), typed);
      PassLeftPositive(Happen(d, Next(d), typed), typed);
      var rest;
      rest, e := PassRuns(Happen(d, Next(d), typed), typed, left - 1);
      events := [Next(d)] + rest;
      assert events[1..] == rest;
    }
  }

  lemma {:induction false} HappensConcat(c: Capture, a: seq<Event>, m: Capture, b: seq<Event>, typed: bool, d: Capture)
    requires Happens(c, a, typed, m) && Happens(m, b, typed, d)
    ensures Happens(c, a + b, typed, d)
    decreases |a|
  {
    hide CanHappen, Happen;
    if a == [] {
      assert a + b == b;
    } else {
      HappensConcat(Happen(c, a[0], typed), a[1..], m, b, typed, d);
      assert (a + b)[1..] == a[1..] + b;
    }
  }

  lemma OneHappens(c: Capture, e: Event, typed: bool)
    requires CanHappen(c, e, typed)
    ensures Happens(c, [e], typed, Happen(c, e, typed))
  {
    hide CanHappen, Happen;
    assert [e][1..] == [];
  }

  /** A whole pass by the sender alone delivers whatever was committed when it woke. */
  lemma WholePass(d: Capture, typed: bool) returns (events: seq<Event>, e: Capture)
    requires Drain.Inv(d, typed) && d.sender.Waiting? && d.sem > 0
    ensures |events| <= 4 * |d.sources| + 2 && (forall j :: 0 <= j < |events| ==> SenderEvent(events[j]))
    ensures Happens(d, events, typed, e) && Drain.Inv(e, typed) && |e.sources| == |d.sources|
    ensures forall i :: 0 <= i < |d.sources| ==> Delivers(e, typed, i, d.sources[i].f.frames)
  {
    hide Drain.Inv, Happens, Delivers, EncodedBytes;
    var w := Happen(d, Wake, typed);
    EventKeepsInv(d, Wake, typed);
    PassLeftPositive(w, typed);
    var mid, m := PassRuns(w, typed, 4 * |d.sources|);
    e := Happen(m, EndPass, typed);
    EventKeepsInv(m, EndPass, typed);
    OneHappens(d, Wake, typed);
    OneHappens(m, EndPass, typed);
    HappensConcat(d, [Wake], w, mid, typed, m);
    HappensConcat(d, [Wake] + mid, m, [EndPass], typed, e);
    events := [Wake] + mid + [EndPass];
    forall i | 0 <= i < |d.sources| ensures Delivers(e, typed, i, d.sources[i].f.frames) {
      RunOnTheWay(w, mid, typed, m, i, |w.sources[i].f.frames|);
      FramesGrow(w, mid, typed, m, i);
      PassEnds(m, e, typed, i, d.sources[i].f.frames);
    }
  }

  lemma ExitedDelivers(e: Capture, typed: bool, i: nat)
    requires Drain.Inv(e, typed) && e.sender.Exited? && i < |e.sources|
    ensures Delivers(e, typed, i, e.sources[i].f.frames)
  {
    hide F.Inv, EncodedBytes, Project, WireInv, WakeInv, Parse, Logged;
    assert Each(e, i, typed) && Drained(e.sources[i]);
    AllSent(e.sources[i], typed);
    HostHas(e, typed);
  }

  /**
   * In every reachable state with a post on its semaphore, the sender alone
   * gives the host everything that every source, done or not, has committed by
   * now, within eight events per source and three more: it ends the pass under
   * way and makes another.
   */
  lemma PostDelivers(sizes: seq<nat>, before: seq<Event>, d: Capture, typed: bool) returns (events: seq<Event>, e: Capture)
    requires SizesOk(sizes) && Happens(Begun(sizes), before, typed, d) && d.sem > 0
    ensures |events| <= 8 * |d.sources| + 3 && (forall j :: 0 <= j < |events| ==> SenderEvent(events[j]))
    ensures Happens(d, events, typed, e) && |e.sources| == |d.sources|
    ensures forall i :: 0 <= i < |d.sources| ==> Delivers(e, typed, i, d.sources[i].f.frames)
  {
    hide Drain.Inv, Happens, Delivers, EncodedBytes;
    BegunInv(sizes, typed);
    Drain.RunKeepsInv(Begun(sizes), before, typed, d);
    var first, m := FinishPass(d, typed);
    if m.sender.Exited? {
      events, e := first, m;
      forall i | 0 <= i < |d.sources| ensures Delivers(e, typed, i, d.sources[i].f.frames) {
        FramesGrow(d, first, typed, m, i);
        ExitedDelivers(m, typed, i);
        DeliversLess(m, typed, i, m.sources[i].f.frames, d.sources[i].f.frames);
      }
    } else {
      var second;
      second, e := WholePass(m, typed);
      HappensConcat(d, first, m, second, typed, e);
      events := first + second;
      forall i | 0 <= i < |d.sources| ensures Delivers(e, typed, i, d.sources[i].f.frames) {
        FramesGrow(d, first, typed, m, i);
        DeliversLess(e, typed, i, m.sources[i].f.frames, d.sources[i].f.frames);
      }
    }
  }

  lemma DeliversLess(d: Capture, typed: bool, i: nat, more: seq<Record>, less: seq<Record>)
    requires Delivers(d, typed, i, more) && less <= more
    ensures Delivers(d, typed, i, less)
  {
  }

  /** The pass under way, if any, is brought to its end. */
  lemma FinishPass(d: Capture, typed: bool) returns (events: seq<Event>, e: Capture)
    requires Drain.Inv(d, typed)
    ensures |events| <= 4 * |d.sources| + 1 && (forall j :: 0 <= j < |events| ==> SenderEvent(events[j]))
    ensures Happens(d, events, typed, e) && Drain.Inv(e, typed) && |e.sources| == |d.sources|
    ensures (e.sender.Waiting? || e.sender.Exited?) && e.sem == d.sem
  {
    hide Drain.Inv, Happens, EncodedBytes;
    if InPass(d) {
      PassLeftPositive(d, typed);
      var mid, m := PassRuns(d, typed, 4 * |d.sources|);
      e := Happen(m, EndPass, typed);
      EventKeepsInv(m, EndPass, typed);
      OneHappens(m, EndPass, typed);
      HappensConcat(d, mid, m, [EndPass], typed, e);
      events := mid + [EndPass];
    } else {
      events, e := [], d;
      NoneHappens(d, typed);
    }
  }

  lemma NoneHappens(d: Capture, typed: bool)
    ensures Happens(d, [], typed, d)
  {
  }

  /** So a flush, at any moment before the sender has left, is enough for all that has been committed. */
  lemma FlushDelivers(sizes: seq<nat>, before: seq<Event>, d: Capture, typed: bool) returns (events: seq<Event>, e: Capture)
    requires SizesOk(sizes) && Happens(Begun(sizes), before, typed, d)
    ensures |events| <= 8 * |d.sources| + 3 && (forall j :: 0 <= j < |events| ==> SenderEvent(events[j]))
    ensures Happens(d, [Flush] + events, typed, e) && |e.sources| == |d.sources|
    ensures forall i :: 0 <= i < |d.sources| ==> Delivers(e, typed, i, d.sources[i].f.frames)
  {
    hide Happens, Delivers, EncodedBytes;
    var f := Happen(d, Flush, typed);
    OneHappens(d, Flush, typed);
    HappensConcat(Begun(sizes), before, d, [Flush], typed, f);
    events, e := PostDelivers(sizes, before + [Flush], f, typed);
    HappensConcat(d, [Flush], f, events, typed, e);
  }
}
