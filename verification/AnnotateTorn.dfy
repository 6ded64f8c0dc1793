/**
 * When the annotation client is sound, exactly, and what goes wrong otherwise.
 *
 * Stopping does not close descriptor zero, so a message half sent is followed
 * by others on the same connection.  A counter definition that outgrows its
 * reservation runs over the read position, and a whole ring of bytes is lost.
 */
module AnnotateTorn {
  import opened Bytes
  import opened Rings
  import opened Records
  import opened Annotations
  import AnnotateRing
  import opened AnnotateStream
  import opened AnnotateRepeat

  /** Some run of one annotating thread with the sender leads here. */
  ghost predicate Reachable(t: Thread, descriptors: set<int>, family: iset<Annotation>) {
    exists events :: Runs([], events, [t]) && AllWithin(events, descriptors, family)
  }

  lemma {:induction false} RunsSnoc(threads: seq<Thread>, events: seq<Event>, mid: seq<Thread>, e: Event)
    requires Runs(threads, events, mid) && CanHappen(mid, e)
    ensures Runs(threads, events + [e], Happen(mid, e))
    decreases |events|
  {
    hide CanHappen, Happen;
    if events == [] {
      assert [e][1..] == [];
    } else {
      RunsSnoc(Happen(threads, events[0]), events[1..], mid, e);
      assert (events + [e])[1..] == events[1..] + [e];
    }
  }

  lemma ReachStep(t: Thread, act: Act, descriptors: set<int>, family: iset<Annotation>)
    requires Reachable(t, descriptors, family) && Allowed(t, act) && Within(Event(0, act), descriptors, family)
    ensures Reachable(Do(t, act), descriptors, family)
  {
    hide Do, Allowed, Within;
    var events :| Runs([], events, [t]) && AllWithin(events, descriptors, family);
    RunsSnoc([], events, [t], Event(0, act));
    assert Happen([t], Event(0, act)) == [Do(t, act)];
    assert AllWithin(events + [Event(0, act)], descriptors, family);
  }

  lemma ReachFresh(descriptors: set<int>, family: iset<Annotation>)
    ensures Reachable(Fresh(), descriptors, family)
  {
    hide Fresh;
    assert Happen([], NewThread) == [Fresh()];
    RunsSnoc([], [], [], NewThread);
    assert [] + [NewThread] == [NewThread];
    assert AllWithin([NewThread], descriptors, family);
  }

  lemma ReachMore(t: Thread, descriptors: set<int>, family: iset<Annotation>, more: set<int>, others: iset<Annotation>)
    requires Reachable(t, descriptors, family) && descriptors <= more && family <= others
    ensures Reachable(t, more, others)
  {
    var events :| Runs([], events, [t]) && AllWithin(events, descriptors, family);
    hide Runs;
    assert AllWithin(events, more, others);
  }

  // ---- Writing and sending ----

  lemma {:induction false} StoreRest(t: Thread, descriptors: set<int>, family: iset<Annotation>) returns (u: Thread)
    requires Reachable(t, descriptors, family) && t.InRange() && Placed(t) && t.builder.Writing?
    ensures Reachable(u, descriptors, family) && u.InRange() && Placed(u)
    ensures u == t.(buf := u.buf, builder := Writing(t.builder.a, |Message(t.builder.a)|))
    ensures Inv(t) ==> Inv(u)
    decreases |Message(t.builder.a)| - t.builder.done
  {
    hide Reachable, Inv, Message, Payload, Wrap, Offset, Accepted, Dist;
    if t.builder.done == |Message(t.builder.a)| {
      u := t;
    } else {
      ReachStep(t, Store, descriptors, family);
      StorePlaces(t);
      var t1 := Do(t, Store);
      if Inv(t) { ActKeepsInv(t, Store); }
      u := StoreRest(t1, descriptors, family);
    }
  }

  /** A builder whose wait has ended writes its message, over whatever is there. */
  lemma WriteMessage(t: Thread, a: Annotation, descriptors: set<int>, family: iset<Annotation>) returns (u: Thread)
    requires Reachable(t, descriptors, family) && a in family && Allowed(t, Wait(a))
    ensures Reachable(u, descriptors, family) && u.InRange() && |Message(a)| < SIZE
    ensures u == t.(buf := u.buf, write := Wrap(t.write + |Message(a)|, SIZE), notes := t.notes + [a])
    ensures Slice(u.buf, t.write, |Message(a)|) == Message(a)
    ensures Inv(t) && FitsNow(t, Wait(a)) ==> Inv(u)
  {
    hide Reachable, Inv, Message, Payload, Wrap, Offset, Slice, Dist, FitsNow, Reservation;
    OutgrowsMeans(a);
    ReachStep(t, Wait(a), descriptors, family);
    var t1 := Do(t, Wait(a));
    if Inv(t) && FitsNow(t, Wait(a)) { ActKeepsInv(t, Wait(a)); }
    var t2 := StoreRest(t1, descriptors, family);
    ReachStep(t2, Publish, descriptors, family);
    StoredIsMessage(t2);
    u := Do(t2, Publish);
    if Inv(t2) { assert FitsNow(t2, Publish) by { PublishFits(t2); } ActKeepsInv(t2, Publish); }
  }

  lemma PublishFits(t: Thread)
    requires t.InRange()
    ensures FitsNow(t, Publish)
  {
  }

  /** The sender loads the write position and sends the front of what is there. */
  lemma SendFront(t: Thread, count: nat, descriptors: set<int>, family: iset<Annotation>) returns (u: Thread)
    requires Reachable(t, descriptors, family) && t.InRange() && t.sender.Idle? && t.fd >= 0 && count <= t.Used()
    ensures Reachable(u, descriptors, family) && u.InRange()
    ensures u == t.(carried := t.carried + Slice(t.buf, t.read, count), sender := Loaded(t.Used(), |t.notes|, count))
    ensures Inv(t) ==> Inv(u)
  {
    hide Reachable, Inv, Slice, Dist;
    ReachStep(t, LoadPos, descriptors, family);
    var t1 := Do(t, LoadPos);
    if Inv(t) { ActKeepsInv(t, LoadPos); }
    ReachStep(t1, SendSome(count), descriptors, family);
    u := Do(t1, SendSome(count));
    if Inv(t1) { ActKeepsInv(t1, SendSome(count)); }
  }

  /** It releases what it sent and turns to another thread. */
  lemma ReleaseFront(t: Thread, descriptors: set<int>, family: iset<Annotation>) returns (u: Thread)
    requires Reachable(t, descriptors, family) && t.InRange() && t.sender.Loaded?
    ensures Reachable(u, descriptors, family) && u.InRange()
    ensures u == t.(read := Wrap(t.read + t.sender.progress, SIZE), sender := Idle)
    ensures Inv(t) ==> Inv(u)
  {
    hide Reachable, Inv, Slice, Dist, Wrap;
    ReachStep(t, ReleaseSome, descriptors, family);
    u := Do(t, ReleaseSome);
    if Inv(t) { ActKeepsInv(t, ReleaseSome); }
    if u.sender.Loaded? {
      var t1 := u;
      ReachStep(t1, Forget, descriptors, family);
      u := Do(t1, Forget);
      if Inv(t1) { ActKeepsInv(t1, Forget); }
    }
  }

  // ---- Descriptor zero ----

  /** Every message the client writes has a marker that is not zero, and a zero as its fifth byte. */
  lemma FifthByte(a: Annotation)
    requires Accepted(a)
    ensures HEADER <= |Message(a)| < SIZE && Message(a)[0] != 0 && Message(a)[4] == 0
  {
    hide Payload, Reservation, Outgrows;
    OutgrowsMeans(a);
    var n := |Payload(a)|;
    assert Message(a)[4] == LE32(n % 0x1_0000_0000)[3] == n / 0x100_0000 == 0;
  }

  /** Four bytes of a message, then its first byte again, is no prefix of such messages from any point on. */
  lemma TornPrefix(m: seq<byte>, from: nat)
    requires HEADER <= |m| && m[0] != 0 && m[4] == 0
    ensures !Whole(m[..4] + [m[0]], [m, m], from)
  {
    var all, c := [m, m], m[..4] + [m[0]];
    assert all[0..] == all && all[1..] == [m] && all[2..] == [];
    assert Flatten([m]) == m + Flatten([]) == m;
    assert Flatten(all) == m + Flatten(all[1..]);
    if from <= 2 {
      var f := Flatten(all[from..]);
      assert from < 2 ==> f[4] == m[4];
      assert from == 2 ==> f == [];
      assert c[4] == m[0];
    }
  }

  lemma Twice(a: Annotation)
    ensures Messages([a, a]) == [Message(a), Message(a)]
  {
    hide Message, Payload;
  }

  lemma Connected(fd: int, descriptors: set<int>, family: iset<Annotation>) returns (t: Thread)
    requires fd >= 0 && fd in descriptors
    ensures Reachable(t, descriptors, family) && t == Fresh().(fd := fd) && t.InRange() && t.Used() == 0
    ensures fd > 0 ==> Inv(t)
  {
    hide Reachable, Inv;
    ReachFresh(descriptors, family);
    FreshInv();
    ReachStep(Fresh(), Connect(fd), descriptors, family);
    t := Do(Fresh(), Connect(fd));
    if fd > 0 { ActKeepsInv(Fresh(), Connect(fd)); }
  }

  /** A send fails: what is left is dropped, and descriptor zero stays open. */
  lemma DropRest(t: Thread, descriptors: set<int>, family: iset<Annotation>) returns (u: Thread)
    requires Reachable(t, descriptors, family) && t.InRange() && t.sender.Idle? && t.fd == 0
    ensures Reachable(u, descriptors, family) && u.InRange() && u == t.(read := t.write, base := |t.notes|)
  {
    hide Reachable;
    ReachStep(t, LoadPos, descriptors, family);
    var t1 := Do(t, LoadPos);
    ReachStep(t1, DropAll, descriptors, family);
    u := Do(t1, DropAll);
  }

  /** One message into an empty ring, and its first bytes out again. */
  lemma WriteAndSend(t: Thread, a: Annotation, count: nat, descriptors: set<int>, family: iset<Annotation>) returns (u: Thread)
    requires Reachable(t, descriptors, family) && a in family && Accepted(a)
    requires t.InRange() && t.Used() == 0 && t.builder.Free? && t.sender.Idle? && t.fd >= 0 && count <= |Message(a)|
    ensures Reachable(u, descriptors, family) && u.InRange()
    ensures u.notes == t.notes + [a] && u.carried == t.carried + Message(a)[..count]
    ensures u.base == t.base && u.fd == t.fd && u.builder.Free? && u.sender.Idle?
  {
    hide Reachable, Message, Payload, Reservation, Slice, Inv;
    FifthByte(a);
    var t1 := WriteMessage(t, a, descriptors, family);
    var t2 := SendFront(t1, count, descriptors, family);
    SliceSplit(t1.buf, t1.read, count, |Message(a)| - count);
    assert Slice(t1.buf, t1.read, count) == Message(a)[..count];
    u := ReleaseFront(t2, descriptors, family);
  }

  /**
   * Any message the client writes, written twice: four bytes of the first are
   * sent, the rest is dropped, and the first byte of the second follows on the
   * same connection.  What the connection carried is then no prefix of the
   * messages from any point on.
   */
  lemma ZeroTears(a: Annotation) returns (t: Thread)
    requires Accepted(a)
    ensures Reachable(t, {0}, iset{a}) && t.notes == [a, a] && t.carried == Message(a)[..4] + [Message(a)[0]]
    ensures forall from :: !Whole(t.carried, Messages(t.notes), from)
  {
    hide Reachable, Message, Payload, Reservation, Whole, Inv;
    FifthByte(a);
    var t0 := Connected(0, {0}, iset{a});
    var t1 := WriteAndSend(t0, a, 4, {0}, iset{a});
    var t2 := DropRest(t1, {0}, iset{a});
    t := WriteAndSend(t2, a, 1, {0}, iset{a});
    assert Message(a)[..1] == [Message(a)[0]];
    assert t.notes == [a, a] && Messages(t.notes) == [Message(a), Message(a)] by { Twice(a); }
    assert t.carried == Message(a)[..4] + [Message(a)[0]];
    forall from: nat ensures !Whole(t.carried, Messages(t.notes), from) { TornPrefix(Message(a), from); }
  }

  // ---- A counter that outgrows its reservation ----

  /** By at most an eighth of the ring. */
  lemma SmallExcess(a: Annotation)
    requires Accepted(a)
    ensures |Message(a)| <= Reservation(a) + SIZE / 8
  {
    hide Payload, Spare;
    if a.Counter? {
      CounterFits(a);
      AnnotateRing.ActivityRoomAtLeast(a.definition.activities);
    } else {
      hide Reservation;
      BuilderFits(a);
    }
  }

  /** Connected, with nothing under way and nothing dropped. */
  ghost predicate Resting(t: Thread, descriptors: set<int>, family: iset<Annotation>) {
    Reachable(t, descriptors, family) && Inv(t) && t.fd > 0 && t.builder.Free? && t.sender.Idle? && t.base == 0
  }

  /** Copies of the counter, and sends, bring the ring to where the room reserved is free and the message does not fit. */
  lemma {:induction false} Fill(t: Thread, a: Annotation, descriptors: set<int>, family: iset<Annotation>) returns (u: Thread)
    requires Resting(t, descriptors, family) && a in family && Accepted(a) && Outgrows(a) && AllSay(t.notes, Message(a))
    ensures Resting(u, descriptors, family) && u.fd == t.fd && AllSay(u.notes, Message(a))
    ensures u.Used() + Reservation(a) + SLACK <= SIZE < u.Used() + |Message(a)| + SLACK
    decreases SIZE - t.Used()
  {
    hide Reachable, Inv, Message, Payload, Reservation, Wrap, Dist, Slice, Outgrows;
    assert t.InRange() by { InvInRange(t); }
    OutgrowsMeans(a);
    if t.Used() + |Message(a)| + SLACK <= SIZE {
      var t1 := WriteMessage(t, a, descriptors, family);
      PublishedPositions(t.read, t.write, |Message(a)|);
      u := Fill(t1, a, descriptors, family);
    } else if t.Used() + Reservation(a) + SLACK <= SIZE {
      u := t;
    } else {
      var count := t.Used() + Reservation(a) + SLACK - SIZE;
      var t1 := SendFront(t, count, descriptors, family);
      AnnotateRing.ReleasedPositions(t.read, t.write, count, SIZE);
      u := ReleaseFront(t1, descriptors, family);
    }
  }

  lemma InvInRange(t: Thread)
    requires Inv(t)
    ensures t.InRange()
  {
    hide Placed, AsState, PastWhole;
  }

  /** The counter written there: what waits in the ring is a whole ring less than it should be. */
  lemma Overrun(t: Thread, a: Annotation, descriptors: set<int>, family: iset<Annotation>) returns (u: Thread)
    requires Resting(t, descriptors, family) && a in family && Accepted(a)
    requires t.Used() + Reservation(a) + SLACK <= SIZE < t.Used() + |Message(a)| + SLACK
    ensures Reachable(u, descriptors, family) && u.InRange() && u == t.(buf := u.buf, write := u.write, notes := t.notes + [a])
    ensures u.Used() == t.Used() + |Message(a)| - SIZE
    ensures |t.carried| + t.Used() == |Flatten(Messages(t.notes))|
  {
    hide Reachable, Inv, Message, Payload, Messages, Reservation, Slice, Flatten;
    InvInRange(t);
    u := WriteMessage(t, a, descriptors, family);
    InvFaithful(t);
    assert Messages(t.notes)[0..] == Messages(t.notes);
  }

  lemma MessagesLength(notes: seq<Annotation>, a: Annotation)
    ensures Flatten(Messages(notes + [a])) == Flatten(Messages(notes)) + Message(a)
  {
    hide Message, Payload, Messages, Flatten;
    MessagesSnoc(notes, a);
    FlattenSnoc(Messages(notes), Message(a));
  }

  /**
   * Any counter that outgrows its reservation, on any descriptor above zero:
   * copies of it and sends lead to an open connection that has lost bytes.
   */
  lemma OverrunLoses(fd: int, a: Annotation) returns (t: Thread)
    requires fd > 0 && Accepted(a) && Outgrows(a)
    ensures Reachable(t, {fd}, iset{a}) && t.fd == fd && !Kept(t)
  {
    hide Reachable, Inv, Message, Payload, Messages, Reservation, Slice, Flatten, Outgrows;
    var t0 := Connected(fd, {fd}, iset{a});
    var t1 := Fill(t0, a, {fd}, iset{a});
    t := Overrun(t1, a, {fd}, iset{a});
    MessagesLength(t1.notes, a);
    assert Messages(t.notes)[0..] == Messages(t.notes);
  }

  /** Of two different messages, at most one comes next in a stream. */
  lemma OneComesNext(a: Annotation, b: Annotation, s: seq<byte>)
    requires Accepted(a) && Accepted(b) && Message(a) <= s && Message(b) <= s
    ensures Message(a) == Message(b)
  {
    hide Message, Accepted, Payload, Parse, Encode;
    MessageEncodes(a);
    MessageEncodes(b);
    var restA, restB := s[|Message(a)|..], s[|Message(b)|..];
    assert s == Message(a) + restA && s == Message(b) + restB;
    ParseFirst(AsRecord(a), restA, 1);
    ParseFirst(AsRecord(b), restB, 1);
    assert AsRecord(a) == Parse(s, 1)[0] == AsRecord(b);
  }

  lemma MessageEncodes(a: Annotation)
    requires Accepted(a)
    ensures Encodable(AsRecord(a), 1) && Message(a) == Encode(AsRecord(a))
  {
    hide Payload, Reservation, Outgrows;
    OutgrowsMeans(a);
  }

  /** After the overrun another message is written, and everything in the ring is sent. */
  lemma SendAfter(t: Thread, x: Annotation, descriptors: set<int>, family: iset<Annotation>) returns (u: Thread, middle: seq<byte>)
    requires Reachable(t, descriptors, family) && x in family && Accepted(x)
    requires t.InRange() && t.builder.Free? && t.sender.Idle? && t.fd >= 0 && t.Used() < SIZE / 8
    ensures Reachable(u, descriptors, family) && u.notes == t.notes + [x] && u.base == t.base && u.past == t.past
    ensures |middle| == t.Used() && u.carried == t.carried + middle + Message(x)
  {
    hide Reachable, Inv, Message, Payload, Reservation, Slice, Wrap, Dist;
    SmallExcess(x);
    var t1 := WriteMessage(t, x, descriptors, family);
    PublishedPositions(t.read, t.write, |Message(x)|);
    u := SendFront(t1, t1.Used(), descriptors, family);
    SliceSplit(t1.buf, t1.read, t.Used(), |Message(x)|);
    assert Wrap(t1.read + t.Used(), SIZE) == t.write by { DistMeans(t); }
    middle := Slice(t1.buf, t1.read, t.Used());
    assert t.carried + (middle + Message(x)) == t.carried + middle + Message(x);
  }

  lemma DistMeans(t: Thread)
    requires t.InRange()
    ensures Wrap(t.read + t.Used(), SIZE) == t.write
  {
  }

  /** What comes next on a whole connection is what comes next in the stream of messages. */
  lemma NextOnWire(front: seq<byte>, x: seq<byte>, stream: seq<byte>)
    requires front + x <= stream + x && |front| + |x| <= |stream|
    ensures x <= stream[|front|..]
  {
    assert forall i {:trigger x[i]} :: 0 <= i < |x| ==> x[i] == (front + x)[|front| + i] == (stream + x)[|front| + i] == stream[|front| + i];
  }

  /**
   * A counter has been written over the read position: the stream of messages
   * is a whole ring further than what was sent and what waits in the ring.
   */
  ghost predicate Overran(t: Thread, a: Annotation, descriptors: set<int>, family: iset<Annotation>) {
    && Reachable(t, descriptors, family) && t.InRange() && t.builder.Free? && t.sender.Idle? && t.fd > 0 && t.base == 0
    && t.Used() < SIZE / 8 && |t.carried| + t.Used() + SIZE == |Flatten(Messages(t.notes))|
    && AllSay(t.notes, Message(a))
  }

  lemma ReachOverrun(fd: int, a: Annotation, family: iset<Annotation>) returns (t: Thread)
    requires fd > 0 && a in family && Accepted(a) && Outgrows(a)
    ensures Overran(t, a, {fd}, family)
  {
    hide Reachable, Inv, Message, Payload, Messages, Reservation, Slice, Flatten, Outgrows, Wrap, Dist;
    var t0 := Connected(fd, {fd}, family);
    var t1 := Fill(t0, a, {fd}, family);
    SmallExcess(a);
    t := Overrun(t1, a, {fd}, family);
    MessagesLength(t1.notes, a);
  }

  /** Unless it is what comes next in the stream, the next message tears the connection. */
  lemma NextTears(t: Thread, a: Annotation, x: Annotation, descriptors: set<int>, family: iset<Annotation>) returns (u: Thread)
    requires Overran(t, a, descriptors, family) && x in family && Accepted(x)
    requires !(Message(x) <= Flatten(Messages(t.notes))[|t.carried| + t.Used()..])
    ensures Reachable(u, descriptors, family) && !Whole(u.carried, Messages(u.notes), u.base)
  {
    hide Reachable, Inv, Message, Payload, Messages, Reservation, Slice, Flatten, Outgrows, Wrap, Dist;
    var middle;
    u, middle := SendAfter(t, x, descriptors, family);
    MessagesLength(t.notes, x);
    OutgrowsMeans(x);
    if Whole(u.carried, Messages(u.notes), u.base) {
      assert Messages(u.notes)[0..] == Messages(u.notes);
      NextOnWire(t.carried + middle, Message(x), Flatten(Messages(t.notes)));
    }
  }

  /**
   * Any counter that outgrows its reservation, and any other message, on any
   * descriptor above zero: a run that writes nothing else, after which the
   * connection carries what is no prefix of the messages it was given.
   */
  lemma OverrunTears(fd: int, a: Annotation, b: Annotation) returns (t: Thread)
    requires fd > 0 && Accepted(a) && Outgrows(a) && Accepted(b) && Message(a) != Message(b)
    ensures Reachable(t, {fd}, iset{a, b}) && !Whole(t.carried, Messages(t.notes), t.base)
  {
    hide Reachable, Message, Payload, Messages, Flatten, Outgrows, Whole, Accepted;
    var t1 := ReachOverrun(fd, a, iset{a, b});
    var rest := Flatten(Messages(t1.notes))[|t1.carried| + t1.Used()..];
    if Message(a) <= rest && Message(b) <= rest { OneComesNext(a, b, rest); }
    t := NextTears(t1, a, if Message(a) <= rest then b else a, {fd}, iset{a, b});
  }

  /** So do copies of the counter alone, unless they leave no seam around the ring. */
  lemma SeamTears(fd: int, a: Annotation) returns (t: Thread)
    requires fd > 0 && Accepted(a) && Outgrows(a) && !Seamless(Message(a))
    ensures Reachable(t, {fd}, iset{a}) && !Whole(t.carried, Messages(t.notes), t.base)
  {
    hide Reachable, Message, Payload, Messages, Flatten, Outgrows, Whole, Accepted, Seamless;
    var t1 := ReachOverrun(fd, a, iset{a});
    FifthByte(a);
    var at := |t1.carried| + t1.Used();
    if Message(a) <= Flatten(Messages(t1.notes))[at..] { RoundIsSeamless(t1.notes, Message(a), at); }
    t := NextTears(t1, a, a, {fd}, iset{a});
  }

  /** Such a counter, with a marker, on any descriptor above zero. */
  lemma CounterAndMarkerTear(fd: int) returns (a: Annotation, b: Annotation, t: Thread)
    requires fd > 0
    ensures a.Counter? && Accepted(a) && b.Marker?
    ensures Reachable(t, {fd}, iset{a, b}) && !Whole(t.carried, Messages(t.notes), t.base)
  {
    hide Reachable, Whole, Payload;
    a := CounterOutgrows();
    b := Marker(0, []);
    OutgrowsMeans(a);
    assert Message(a)[0] != Message(b)[0];
    hide Message, Payload;
    t := OverrunTears(fd, a, b);
  }

  // ---- Exactly when the client is sound ----

  /** No connect of the client gives it a connection. */
  predicate NeverConnects(descriptors: set<int>) { forall fd :: fd in descriptors ==> fd < 0 }

  /** Every annotation is refused. */
  ghost predicate WritesNothing(family: iset<Annotation>) { forall a :: a in family ==> !Accepted(a) }

  /** No connections, nothing to write, or neither descriptor zero nor a counter that outgrows its reservation. */
  ghost predicate Safe(descriptors: set<int>, family: iset<Annotation>) {
    NeverConnects(descriptors) || WritesNothing(family) || (0 !in descriptors && NoneOutgrows(family))
  }

  /** One message without a seam is all the client writes: whole copies of it may be lost, which no connection shows. */
  ghost predicate Unseen(descriptors: set<int>, family: iset<Annotation>) {
    0 !in descriptors && exists m :: Seamless(m) && OnlyWrites(family, m)
  }

  /** What holds of a thread that was never connected. */
  ghost predicate Unconnected(t: Thread) {
    && t.fd < 0 && t.carried == [] && t.past == [] && t.base <= |t.notes|
    && (t.sender.Loaded? ==> t.sender.upto <= |t.notes|)
  }

  /** What holds of a thread that never wrote. */
  ghost predicate Unwritten(t: Thread) {
    && t.InRange() && t.builder.Free? && t.notes == [] && t.base == 0 && t.read == t.write && t.carried == []
    && (t.sender.Loaded? ==> t.sender.ahead == 0 && t.sender.upto == 0)
    && forall i :: 0 <= i < |t.past| ==> t.past[i] == Past([], 0)
  }

  lemma UnconnectedStays(t: Thread, act: Act)
    requires Unconnected(t) && Allowed(t, act) && (act.Connect? ==> act.fd < 0)
    ensures Unconnected(Do(t, act))
  {
    hide Wrap, Slice, Dist, Message, Payload, Reservation;
  }

  lemma UnwrittenStays(t: Thread, act: Act)
    requires Unwritten(t) && Allowed(t, act) && !act.Wait?
    ensures Unwritten(Do(t, act))
  {
    hide Message, Payload, Reservation;
  }

  ghost predicate AllUnconnected(threads: seq<Thread>) { forall i :: 0 <= i < |threads| ==> Unconnected(threads[i]) }

  ghost predicate AllUnwritten(threads: seq<Thread>) { forall i :: 0 <= i < |threads| ==> Unwritten(threads[i]) }

  lemma {:induction false} NeverConnected(threads: seq<Thread>, events: seq<Event>, end: seq<Thread>,
                                          descriptors: set<int>, family: iset<Annotation>)
    requires AllUnconnected(threads) && Runs(threads, events, end)
    requires AllWithin(events, descriptors, family) && NeverConnects(descriptors)
    ensures AllUnconnected(end)
    decreases |events|
  {
    hide Do, Allowed;
    if events != [] {
      if events[0].Event? {
        hide Unconnected;
        UnconnectedStays(threads[events[0].thread], events[0].act);
      }
      NeverConnected(Happen(threads, events[0]), events[1..], end, descriptors, family);
    }
  }

  lemma {:induction false} NeverWritten(threads: seq<Thread>, events: seq<Event>, end: seq<Thread>,
                                        descriptors: set<int>, family: iset<Annotation>)
    requires AllUnwritten(threads) && Runs(threads, events, end)
    requires AllWithin(events, descriptors, family) && WritesNothing(family)
    ensures AllUnwritten(end)
    decreases |events|
  {
    hide Do, Accepted;
    if events != [] {
      if events[0].Event? {
        hide Unwritten;
        UnwrittenStays(threads[events[0].thread], events[0].act);
      }
      NeverWritten(Happen(threads, events[0]), events[1..], end, descriptors, family);
    }
  }

  lemma NothingFaithful(t: Thread)
    requires Unconnected(t) || Unwritten(t)
    ensures Faithful(t)
  {
    hide Message, Payload;
    assert Messages(t.notes)[t.base..] == [] || t.base < |t.notes|;
  }

  ghost predicate AllFaithful(threads: seq<Thread>) { forall i :: 0 <= i < |threads| ==> Faithful(threads[i]) }

  ghost predicate AllSound(threads: seq<Thread>) { forall i :: 0 <= i < |threads| ==> Sound(threads[i]) }

  lemma SafeIsFaithful(events: seq<Event>, end: seq<Thread>, descriptors: set<int>, family: iset<Annotation>)
    requires Runs([], events, end) && AllWithin(events, descriptors, family) && Safe(descriptors, family)
    ensures AllFaithful(end)
  {
    hide Runs, AllWithin, Unconnected, Unwritten, Faithful, NoneOutgrows;
    if NeverConnects(descriptors) {
      NeverConnected([], events, end, descriptors, family);
      forall i | 0 <= i < |end| ensures Faithful(end[i]) { NothingFaithful(end[i]); }
    } else if WritesNothing(family) {
      NeverWritten([], events, end, descriptors, family);
      forall i | 0 <= i < |end| ensures Faithful(end[i]) { NothingFaithful(end[i]); }
    } else {
      EveryInterleaving(events, end, descriptors, family);
    }
  }

  /** Outside the condition, some run ends with a torn connection or an open one that has lost bytes. */
  lemma UnsafeLoses(descriptors: set<int>, family: iset<Annotation>) returns (t: Thread)
    requires !Safe(descriptors, family)
    ensures Reachable(t, descriptors, family) && !Faithful(t)
  {
    hide Reachable, Whole, Kept, Message, Payload, Outgrows, Accepted;
    if 0 in descriptors {
      var a :| a in family && Accepted(a);
      t := ZeroTears(a);
      ReachMore(t, {0}, iset{a}, descriptors, family);
    } else {
      var fd :| fd in descriptors && fd >= 0;
      var a :| a in family && Accepted(a) && Outgrows(a);
      t := OverrunLoses(fd, a);
      ReachMore(t, {fd}, iset{a}, descriptors, family);
    }
  }

  /** And, where the loss can be seen, with a torn one. */
  lemma UnsafeTears(descriptors: set<int>, family: iset<Annotation>) returns (t: Thread)
    requires !Safe(descriptors, family) && !Unseen(descriptors, family)
    ensures Reachable(t, descriptors, family) && !Sound(t)
  {
    hide Reachable, Whole, Kept, Message, Payload, Outgrows, Accepted, Seamless;
    if 0 in descriptors {
      var a :| a in family && Accepted(a);
      t := ZeroTears(a);
      ReachMore(t, {0}, iset{a}, descriptors, family);
    } else {
      var fd :| fd in descriptors && fd >= 0;
      var a :| a in family && Accepted(a) && Outgrows(a);
      if OnlyWrites(family, Message(a)) {
        t := SeamTears(fd, a);
        ReachMore(t, {fd}, iset{a}, descriptors, family);
      } else {
        var b :| b in family && Accepted(b) && Message(b) != Message(a);
        t := OverrunTears(fd, a, b);
        ReachMore(t, {fd}, iset{a, b}, descriptors, family);
      }
    }
  }

  ghost predicate AlwaysFaithful(descriptors: set<int>, family: iset<Annotation>) {
    forall events, end :: Runs([], events, end) && AllWithin(events, descriptors, family) ==> AllFaithful(end)
  }

  ghost predicate AlwaysSound(descriptors: set<int>, family: iset<Annotation>) {
    forall events, end :: Runs([], events, end) && AllWithin(events, descriptors, family) ==> AllSound(end)
  }

  /**
   * Given the descriptors a connect may return and the annotations the client
   * is asked to write: in every run all connections are whole and an open one
   * loses nothing, if and only if there is no connection, nothing to write, or
   * neither descriptor zero nor a counter that outgrows its reservation.
   */
  lemma FaithfulExactly(descriptors: set<int>, family: iset<Annotation>)
    ensures AlwaysFaithful(descriptors, family) <==> Safe(descriptors, family)
  {
    hide Runs, AllWithin, Faithful, Safe;
    if Safe(descriptors, family) {
      forall events, end | Runs([], events, end) && AllWithin(events, descriptors, family) ensures AllFaithful(end) {
        SafeIsFaithful(events, end, descriptors, family);
      }
    } else {
      var t := UnsafeLoses(descriptors, family);
      var events :| Runs([], events, [t]) && AllWithin(events, descriptors, family);
      assert [t][0] == t && !AllFaithful([t]);
    }
  }

  /** In every run all connections are whole, if and only if that condition holds or what is lost cannot be seen. */
  lemma SoundExactly(descriptors: set<int>, family: iset<Annotation>)
    ensures AlwaysSound(descriptors, family) <==> Safe(descriptors, family) || Unseen(descriptors, family)
  {
    hide Runs, AllWithin, Sound, Safe, Seamless, OnlyWrites, Kept;
    if Safe(descriptors, family) {
      forall events, end | Runs([], events, end) && AllWithin(events, descriptors, family) ensures AllSound(end) {
        SafeIsFaithful(events, end, descriptors, family);
      }
    } else if Unseen(descriptors, family) {
      var m :| Seamless(m) && OnlyWrites(family, m);
      forall events, end | Runs([], events, end) && AllWithin(events, descriptors, family) ensures AllSound(end) {
        SeamlessSound(events, end, descriptors, family, m);
      }
    } else {
      var t := UnsafeTears(descriptors, family);
      var events :| Runs([], events, [t]) && AllWithin(events, descriptors, family);
      assert [t][0] == t && !AllSound([t]);
    }
  }
}
