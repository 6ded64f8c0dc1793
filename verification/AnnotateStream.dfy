/**
 * The annotation client: one ring per annotating thread, one sender for all of
 * them, and connections that come and go.
 *
 * A builder waits until the room it reserves is free, stores its message byte
 * by byte past the write position, whether or not it fits there, and then moves
 * the write position.  The sender loads that position, sends and releases in
 * steps of any size, and forgets what it loaded when it turns to the next
 * thread.  When a connect or a send fails, capturing stops: each ring is
 * emptied up to the write position loaded then, and the connection is closed if
 * its descriptor is greater than zero.
 */
module AnnotateStream {
  import opened Bytes
  import opened Rings
  import opened Records
  import opened Annotations
  import AnnotateRing
  import S = SpscRing

  const SIZE := AnnotateRing.SIZE
  const SLACK := AnnotateRing.SLACK

  // ---- Messages ----

  function Message(a: Annotation): (m: seq<byte>)
    ensures |m| == HEADER + |Payload(a)|
  {
    [Mark(a)] + LE32(|Payload(a)| % 0x1_0000_0000) + Payload(a)
  }

  function Messages(notes: seq<Annotation>): (ms: seq<seq<byte>>)
    ensures |ms| == |notes|
  {
    seq(|notes|, i requires 0 <= i < |notes| => Message(notes[i]))
  }

  /** Anything that reserves more is refused. */
  predicate Accepted(a: Annotation) { Reservation(a) <= SIZE / 2 }

  /** A counter definition whose terminators take more than its integers leave. */
  predicate Outgrows(a: Annotation) { a.Counter? && |a.definition.activities| > Spare(a.definition) }

  lemma OutgrowsMeans(a: Annotation)
    ensures Outgrows(a) <==> |Message(a)| > Reservation(a)
    ensures Accepted(a) ==> |Message(a)| < SIZE && Message(a) == Encode(AsRecord(a))
  {
    hide Payload, Reservation, Spare, LE32;
    if a.Counter? { CounterFits(a); } else { BuilderFits(a); }
    if Accepted(a) { AnnotateRing.MessageBelowSize(a); }
  }

  lemma MessagesSnoc(notes: seq<Annotation>, a: Annotation)
    ensures Messages(notes + [a]) == Messages(notes) + [Message(a)]
  {
    hide Message, Payload;
  }

  // ---- One thread ----

  /** `done` counts the bytes stored. */
  datatype Builder = Free | Writing(a: Annotation, done: nat)

  /** `ahead` is the distance to the position loaded, `upto` the messages published then, `progress` the bytes sent since. */
  datatype Sender = Idle | Loaded(ahead: nat, upto: nat, progress: nat)

  /** A connection that was closed: what it carried after its handshake, and the first message it could carry. */
  datatype Past = Past(carried: seq<byte>, from: nat)

  /**
   * `notes` lists every annotation published, `base` the first one not dropped
   * before it could be sent.  `fd` is negative without a connection.
   */
  datatype Thread = Thread(buf: seq<byte>, read: nat, write: nat, builder: Builder, sender: Sender,
                           notes: seq<Annotation>, base: nat, fd: int, carried: seq<byte>, past: seq<Past>) {
    predicate InRange() {
      |buf| == SIZE && read < SIZE && write < SIZE && (sender.Loaded? ==> sender.progress <= sender.ahead < SIZE)
    }

    function Used(): (n: nat)
      requires InRange()
    {
      Dist(read, write, SIZE)
    }

    function Progress(): nat { if sender.Idle? then 0 else sender.progress }
  }

  datatype Act =
    | Wait(a: Annotation)
    | Store
    | Publish
    | LoadPos
    | SendSome(count: nat)
    | ReleaseSome
    | Forget
    | Connect(fd: int)
    | DropAll

  /** Where the next byte of a message of n bytes goes: marker, payload, then the size. */
  function Offset(i: nat, n: nat): (k: nat)
    requires HEADER <= n && i < n
    ensures k < n
  {
    if i == 0 then 0 else if i <= n - HEADER then i + 4 else i - (n - HEADER)
  }

  /** When the byte at an offset is stored. */
  function When(k: nat, n: nat): (i: nat)
    requires HEADER <= n && k < n
    ensures i < n && Offset(i, n) == k
  {
    if k == 0 then 0 else if k >= HEADER then k - 4 else k + (n - HEADER)
  }

  predicate Allowed(t: Thread, act: Act) {
    t.InRange() &&
    match act
    case Wait(a) => t.builder.Free? && Accepted(a) && t.Used() + Reservation(a) + SLACK <= SIZE
    case Store => t.builder.Writing? && t.builder.done < |Message(t.builder.a)| <= SIZE
    case Publish => t.builder.Writing? && t.builder.done == |Message(t.builder.a)| <= SIZE
    case LoadPos => t.sender.Idle?
    case SendSome(n) => t.fd >= 0 && t.sender.Loaded? && t.sender.progress + n <= t.sender.ahead
    case ReleaseSome => t.sender.Loaded?
    case Forget => t.sender.Loaded? && t.sender.progress == 0
    case Connect(_) => t.fd < 0
    case DropAll => t.sender.Loaded? && t.sender.progress == 0
  }

  /** `read_pos = write_pos`, and the descriptor closed when it is greater than zero. */
  function Dropped(t: Thread): Thread
    requires t.InRange() && t.sender.Loaded?
  {
    var u := t.(read := Wrap(t.read + t.sender.ahead, SIZE), base := t.sender.upto, sender := Idle);
    if t.fd > 0 then u.(fd := -1, carried := [], past := t.past + [Past(t.carried, t.base)]) else u
  }

  function Do(t: Thread, act: Act): Thread
    requires Allowed(t, act)
  {
    match act
    case Wait(a) => t.(builder := Writing(a, 0))
    case Store =>
      var m, i := Message(t.builder.a), t.builder.done;
      var k := Offset(i, |m|);
      t.(buf := t.buf[Wrap(t.write + k, SIZE) := m[k]], builder := t.builder.(done := i + 1))
    case Publish =>
      t.(write := Wrap(t.write + t.builder.done, SIZE), builder := Free, notes := t.notes + [t.builder.a])
    case LoadPos => t.(sender := Loaded(t.Used(), |t.notes|, 0))
    case SendSome(n) =>
      t.(carried := t.carried + Slice(t.buf, Wrap(t.read + t.sender.progress, SIZE), n),
         sender := t.sender.(progress := t.sender.progress + n))
    case ReleaseSome =>
      var p := t.sender.progress;
      t.(read := Wrap(t.read + p, SIZE),
         sender := if p == t.sender.ahead then Idle else Loaded(t.sender.ahead - p, t.sender.upto, 0))
    case Forget => t.(sender := Idle)
    case Connect(fd) => t.(fd := if fd < 0 then -1 else fd, carried := [])
    case DropAll => Dropped(t)
  }

  // ---- What connections carry ----

  /** What a connection carries is a prefix of whole messages, from the start of one. */
  ghost predicate Whole(carried: seq<byte>, all: seq<seq<byte>>, from: nat) {
    from <= |all| && carried <= Flatten(all[from..])
  }

  lemma WholeGrows(carried: seq<byte>, all: seq<seq<byte>>, from: nat, m: seq<byte>)
    requires Whole(carried, all, from)
    ensures Whole(carried, all + [m], from)
  {
    assert (all + [m])[from..] == all[from..] + [m];
    FlattenSnoc(all[from..], m);
  }

  /** Everything a thread's connections carried, now and before, is whole. */
  ghost predicate Sound(t: Thread) {
    Whole(t.carried, Messages(t.notes), t.base) && PastWhole(t.past, t.notes)
  }

  ghost predicate PastWhole(past: seq<Past>, notes: seq<Annotation>) {
    forall i :: 0 <= i < |past| ==> Whole(past[i].carried, Messages(notes), past[i].from)
  }

  /** Nothing published is lost: what the connection carried and what waits in the ring is every message. */
  ghost predicate Kept(t: Thread) {
    && t.InRange() && t.base <= |t.notes| && t.Progress() <= t.Used()
    && t.carried + Slice(t.buf, Wrap(t.read + t.Progress(), SIZE), t.Used() - t.Progress()) == Flatten(Messages(t.notes)[t.base..])
  }

  /** The connections are whole, and an open one loses nothing. */
  ghost predicate Faithful(t: Thread) {
    Sound(t) && (t.fd >= 0 ==> Kept(t))
  }

  // ---- While messages fit ----

  /** What a message claims: the room waited for, or what it takes. */
  function Claimed(b: Builder): nat {
    if b.Free? then 0 else if Outgrows(b.a) then |Message(b.a)| else Reservation(b.a)
  }

  predicate Ordered(t: Thread) {
    t.InRange() && t.base <= |t.notes| && (t.sender.Loaded? ==> t.base <= t.sender.upto)
  }

  function AsRing(t: Thread): S.Ring
    requires t.InRange()
  {
    S.Ring(t.buf, t.read, t.Used(), Claimed(t.builder))
  }

  function AsConsumer(sender: Sender, base: nat): S.Consumer
    requires sender.Loaded? ==> base <= sender.upto
  {
    if sender.Idle? then S.Idle else S.Sending(sender.ahead, sender.upto - base, sender.progress)
  }

  /** The ring machine's view of the thread. */
  function AsState(t: Thread): S.State
    requires Ordered(t)
  {
    S.State(AsRing(t), Messages(t.notes)[t.base..], t.carried, AsConsumer(t.sender, t.base))
  }

  /** The bytes a builder has stored are those of its message. */
  predicate Placed(t: Thread)
    requires t.InRange()
  {
    t.builder.Writing? ==>
      var m, done := Message(t.builder.a), t.builder.done;
      && Accepted(t.builder.a) && done <= |m| < SIZE
      && forall i :: 0 <= i < done ==> t.buf[Wrap(t.write + Offset(i, |m|), SIZE)] == m[Offset(i, |m|)]
  }

  /** Nothing is on the wire while there is no connection. */
  ghost predicate Inv(t: Thread) {
    && Ordered(t) && Placed(t)
    && S.Inv(AsState(t), SLACK)
    && t.fd != 0 && (t.fd < 0 ==> t.carried == [])
    && PastWhole(t.past, t.notes)
  }

  /** A builder starts only when its message fits in what is free. */
  predicate FitsNow(t: Thread, act: Act)
    requires t.InRange()
  {
    act.Wait? ==> t.Used() + |Message(act.a)| + SLACK <= SIZE
  }

  lemma StillPlaced(t: Thread, u: Thread)
    requires t.InRange() && Placed(t) && u.InRange() && t.buf == u.buf && t.write == u.write && t.builder == u.builder
    ensures Placed(u)
  {
    hide Wrap, Message, Payload, Offset, Accepted;
  }

  lemma InvRing(t: Thread)
    requires Inv(t)
    ensures AsRing(t).Ok(SLACK) && AsRing(t).Commit() == t.write
    ensures t.sender.Loaded? ==> t.sender.ahead <= t.Used() && t.sender.upto <= |t.notes|
  {
    hide Slice, Message, Payload, Reservation, Outgrows, Messages, Flatten, Placed, PastWhole;
  }

  lemma WaitKeepsInv(t: Thread, a: Annotation)
    requires Inv(t) && Allowed(t, Wait(a)) && FitsNow(t, Wait(a))
    ensures Inv(Do(t, Wait(a)))
  {
    hide Wrap, Slice, Dist, Message, Payload, Messages, Reservation, Outgrows, S.Inv, PastWhole;
    InvRing(t);
    OutgrowsMeans(a);
    var s, u := AsState(t), Do(t, Wait(a));
    S.StepKeepsInv(s, S.Claim(Claimed(u.builder)), SLACK);
    assert AsState(u) == S.Apply(s, S.Claim(Claimed(u.builder)), SLACK);
  }

  lemma OffsetsApart(i: nat, j: nat, w: nat, n: nat)
    requires HEADER <= n < SIZE && i < j < n && w < SIZE
    ensures Wrap(w + Offset(i, n), SIZE) != Wrap(w + Offset(j, n), SIZE)
  {
  }

  lemma StorePlaces(t: Thread)
    requires t.InRange() && Placed(t) && Allowed(t, Store)
    ensures Do(t, Store).InRange() && Placed(Do(t, Store))
  {
    hide Wrap, Slice, Dist, Message, Payload, Offset;
    var m, done := Message(t.builder.a), t.builder.done;
    forall i | 0 <= i < done ensures Wrap(t.write + Offset(i, |m|), SIZE) != Wrap(t.write + Offset(done, |m|), SIZE) {
      OffsetsApart(i, done, t.write, |m|);
    }
  }

  lemma StoreKeepsInv(t: Thread)
    requires Inv(t) && Allowed(t, Store)
    ensures Inv(Do(t, Store))
  {
    hide Wrap, Slice, Dist, Message, Payload, Messages, Reservation, Outgrows, S.Inv, PastWhole, Placed, Offset;
    InvRing(t);
    StorePlaces(t);
    ClaimCovers(t.builder);
    var s, u, m := AsState(t), Do(t, Store), Message(t.builder.a);
    var k := Offset(t.builder.done, |m|);
    S.StepKeepsInv(s, S.Store(k, m[k]), SLACK);
    assert AsState(u) == S.Apply(s, S.Store(k, m[k]), SLACK);
  }

  /** Once all is stored, the bytes past the write position are the message. */
  lemma StoredIsMessage(t: Thread)
    requires t.InRange() && Placed(t) && Allowed(t, Publish)
    ensures Slice(t.buf, t.write, t.builder.done) == Message(t.builder.a)
  {
    hide Wrap, Dist, Message, Payload, Offset;
    var m := Message(t.builder.a);
    forall k | 0 <= k < |m| ensures t.buf[Wrap(t.write + k, SIZE)] == m[k] {
      assert Offset(When(k, |m|), |m|) == k;
    }
  }

  lemma PublishedPositions(read: nat, write: nat, n: nat)
    requires read < SIZE && write < SIZE && Dist(read, write, SIZE) + n < SIZE
    ensures Dist(read, Wrap(write + n, SIZE), SIZE) == Dist(read, write, SIZE) + n
  {
  }

  lemma PastGrows(past: seq<Past>, notes: seq<Annotation>, a: Annotation)
    requires PastWhole(past, notes)
    ensures PastWhole(past, notes + [a])
  {
    hide Whole, Messages, Message, Payload;
    MessagesSnoc(notes, a);
    forall i | 0 <= i < |past| ensures Whole(past[i].carried, Messages(notes + [a]), past[i].from) {
      WholeGrows(past[i].carried, Messages(notes), past[i].from, Message(a));
    }
  }

  lemma NothingPlaced(t: Thread)
    requires t.InRange() && t.builder.Free?
    ensures Placed(t)
  {
  }

  lemma ClaimCovers(b: Builder)
    requires b.Writing?
    ensures |Message(b.a)| <= Claimed(b) && Reservation(b.a) <= Claimed(b)
  {
    hide Message, Payload, Reservation, Outgrows;
    OutgrowsMeans(b.a);
  }

  lemma PublishApplies(t: Thread)
    requires Ordered(t) && Allowed(t, Publish) && AsRing(t).Ok(SLACK) && AsRing(t).Commit() == t.write
    requires Slice(t.buf, t.write, t.builder.done) == Message(t.builder.a)
    ensures Ordered(Do(t, Publish)) && S.Enabled(AsState(t), S.Publish(t.builder.done), SLACK)
    ensures AsState(Do(t, Publish)) == S.Apply(AsState(t), S.Publish(t.builder.done), SLACK)
  {
    hide Wrap, Slice, Dist, Message, Payload, Messages, Reservation, Claimed;
    var a, all := t.builder.a, Messages(t.notes);
    ClaimCovers(t.builder);
    assert Claimed(Free) == 0 by { NoClaim(); }
    PublishedPositions(t.read, t.write, t.builder.done);
    MessagesSnoc(t.notes, a);
    assert (all + [Message(a)])[t.base..] == all[t.base..] + [Message(a)];
  }

  lemma NoClaim()
    ensures Claimed(Free) == 0
  {
  }

  lemma PublishKeepsInv(t: Thread)
    requires Inv(t) && Allowed(t, Publish)
    ensures Inv(Do(t, Publish))
  {
    hide Wrap, Slice, Dist, Message, Payload, Messages, Reservation, Outgrows, S.Inv, PastWhole, Placed, Claimed;
    InvRing(t);
    StoredIsMessage(t);
    PublishApplies(t);
    PastGrows(t.past, t.notes, t.builder.a);
    S.StepKeepsInv(AsState(t), S.Publish(t.builder.done), SLACK);
    NothingPlaced(Do(t, Publish));
  }

  lemma LoadKeepsInv(t: Thread)
    requires Inv(t) && Allowed(t, LoadPos)
    ensures Inv(Do(t, LoadPos))
  {
    hide Wrap, Slice, Dist, Message, Payload, Messages, Claimed, S.Inv, PastWhole, Placed;
    InvRing(t);
    StillPlaced(t, Do(t, LoadPos));
    assert AsState(Do(t, LoadPos)) == S.Apply(AsState(t), S.Load, SLACK);
    S.StepKeepsInv(AsState(t), S.Load, SLACK);
  }

  lemma SendKeepsInv(t: Thread, n: nat)
    requires Inv(t) && Allowed(t, SendSome(n))
    ensures Inv(Do(t, SendSome(n)))
  {
    hide Wrap, Slice, Dist, Message, Payload, Messages, Claimed, S.Inv, PastWhole, Placed;
    InvRing(t);
    StillPlaced(t, Do(t, SendSome(n)));
    assert AsState(Do(t, SendSome(n))) == S.Apply(AsState(t), S.Send(n), SLACK);
    S.StepKeepsInv(AsState(t), S.Send(n), SLACK);
  }

  lemma ReleaseApplies(t: Thread)
    requires Ordered(t) && Allowed(t, ReleaseSome) && AsRing(t).Ok(SLACK) && t.sender.ahead <= t.Used()
    ensures Ordered(Do(t, ReleaseSome)) && S.Enabled(AsState(t), S.Release(t.sender.progress), SLACK)
    ensures AsState(Do(t, ReleaseSome)) == S.Apply(AsState(t), S.Release(t.sender.progress), SLACK)
  {
    hide Wrap, Slice, Dist, Messages, Claimed;
    AnnotateRing.ReleasedPositions(t.read, t.write, t.sender.progress, SIZE);
  }

  lemma ReleaseKeepsInv(t: Thread)
    requires Inv(t) && Allowed(t, ReleaseSome)
    ensures Inv(Do(t, ReleaseSome))
  {
    hide Wrap, Slice, Dist, Message, Payload, Messages, Claimed, S.Inv, PastWhole, Placed;
    InvRing(t);
    ReleaseApplies(t);
    StillPlaced(t, Do(t, ReleaseSome));
    S.StepKeepsInv(AsState(t), S.Release(t.sender.progress), SLACK);
  }

  /** The current connection is whole at every moment, and nothing is lost. */
  lemma InvFaithful(t: Thread)
    requires Inv(t)
    ensures Faithful(t)
  {
    hide Wrap, Slice, Flatten, Dist, Message, Payload, Messages, Claimed;
  }

  lemma DropApplies(t: Thread)
    requires Ordered(t) && Allowed(t, DropAll) && AsRing(t).Ok(SLACK) && t.sender.ahead <= t.Used() && t.sender.upto <= |t.notes|
    requires t.fd != 0 && (t.fd < 0 ==> t.carried == [])
    ensures Ordered(Do(t, DropAll)) && S.Enabled(AsState(t), S.Skip, SLACK)
    ensures AsState(Do(t, DropAll)) == S.Apply(AsState(t), S.Skip, SLACK)
  {
    hide Wrap, Slice, Dist, Messages, Claimed;
    AnnotateRing.ReleasedPositions(t.read, t.write, t.sender.ahead, SIZE);
    var all := Messages(t.notes);
    assert all[t.base..][t.sender.upto - t.base..] == all[t.sender.upto..];
  }

  lemma DropKeepsInv(t: Thread)
    requires Inv(t) && Allowed(t, DropAll)
    ensures Inv(Do(t, DropAll))
  {
    hide Wrap, Slice, Dist, Message, Payload, Messages, Claimed, S.Inv, Placed, Whole, Kept;
    InvRing(t);
    InvFaithful(t);
    DropApplies(t);
    StillPlaced(t, Do(t, DropAll));
    S.StepKeepsInv(AsState(t), S.Skip, SLACK);
  }

  lemma ForgetKeepsInv(t: Thread)
    requires Inv(t) && Allowed(t, Forget)
    ensures Inv(Do(t, Forget))
  {
    hide Wrap, Slice, Dist, Message, Payload, Messages, Claimed, Flatten, Placed, PastWhole;
    StillPlaced(t, Do(t, Forget));
  }

  lemma ConnectKeepsInv(t: Thread, fd: int)
    requires Inv(t) && Allowed(t, Connect(fd)) && fd != 0
    ensures Inv(Do(t, Connect(fd)))
  {
    hide Wrap, Slice, Dist, Message, Payload, Messages, Claimed, S.Inv, Placed, PastWhole;
    StillPlaced(t, Do(t, Connect(fd)));
  }

  /**
   * While each message fits when its builder starts, and no connection is on
   * descriptor zero, every act of builder and sender keeps the invariant.
   */
  lemma ActKeepsInv(t: Thread, act: Act)
    requires Inv(t) && Allowed(t, act) && act != Connect(0) && FitsNow(t, act)
    ensures Inv(Do(t, act))
  {
    hide Inv, Do, Allowed, FitsNow;
    match act
    case Wait(a) => WaitKeepsInv(t, a);
    case Store => StoreKeepsInv(t);
    case Publish => PublishKeepsInv(t);
    case LoadPos => LoadKeepsInv(t);
    case SendSome(n) => SendKeepsInv(t, n);
    case ReleaseSome => ReleaseKeepsInv(t);
    case Forget => ForgetKeepsInv(t);
    case Connect(fd) => ConnectKeepsInv(t, fd);
    case DropAll => DropKeepsInv(t);
  }

  // ---- All threads ----

  datatype Event = NewThread | Event(thread: nat, act: Act)

  predicate CanHappen(threads: seq<Thread>, e: Event) {
    e.Event? ==> e.thread < |threads| && Allowed(threads[e.thread], e.act)
  }

  function Fresh(): Thread { Thread(seq(SIZE, _ => 0), 0, 0, Free, Idle, [], 0, -1, [], []) }

  function Happen(threads: seq<Thread>, e: Event): seq<Thread>
    requires CanHappen(threads, e)
  {
    match e
    case NewThread => threads + [Fresh()]
    case Event(i, act) => threads[i := Do(threads[i], act)]
  }

  ghost predicate Runs(threads: seq<Thread>, events: seq<Event>, end: seq<Thread>)
    decreases |events|
  {
    if events == [] then end == threads
    else CanHappen(threads, events[0]) && Runs(Happen(threads, events[0]), events[1..], end)
  }

  /** Connects of the run return one of these descriptors, and its builders write annotations of this class. */
  predicate Within(e: Event, descriptors: set<int>, family: iset<Annotation>) {
    e.Event? ==> (e.act.Connect? ==> e.act.fd in descriptors) && (e.act.Wait? ==> e.act.a in family)
  }

  predicate AllWithin(events: seq<Event>, descriptors: set<int>, family: iset<Annotation>) {
    forall i :: 0 <= i < |events| ==> Within(events[i], descriptors, family)
  }

  ghost predicate AllInv(threads: seq<Thread>) { forall i :: 0 <= i < |threads| ==> Inv(threads[i]) }

  lemma FreshInv()
    ensures Inv(Fresh())
  {
    S.StartInv(SIZE, SLACK);
    assert AsState(Fresh()) == S.Start(SIZE);
  }

  /** No annotation of the class that the client writes outgrows its reservation. */
  ghost predicate NoneOutgrows(family: iset<Annotation>) {
    forall a :: a in family && Accepted(a) ==> !Outgrows(a)
  }

  lemma RoomFits(t: Thread, act: Act)
    requires Allowed(t, act) && (act.Wait? ==> !Outgrows(act.a))
    ensures FitsNow(t, act)
  {
    hide Message, Payload, Outgrows, Reservation;
    if act.Wait? { OutgrowsMeans(act.a); }
  }

  lemma {:induction false} RunKeepsInv(threads: seq<Thread>, events: seq<Event>, end: seq<Thread>,
                                       descriptors: set<int>, family: iset<Annotation>)
    requires AllInv(threads) && Runs(threads, events, end) && AllWithin(events, descriptors, family)
    requires 0 !in descriptors && NoneOutgrows(family)
    ensures AllInv(end)
    decreases |events|
  {
    hide Inv, Do, Fresh, Outgrows, FitsNow;
    if events != [] {
      var e := events[0];
      if e.Event? {
        assert e.act.Wait? ==> Accepted(e.act.a);
        RoomFits(threads[e.thread], e.act);
        hide Allowed;
        ActKeepsInv(threads[e.thread], e.act);
      } else {
        FreshInv();
      }
      RunKeepsInv(Happen(threads, e), events[1..], end, descriptors, family);
    }
  }

  /**
   * In every interleaving of any number of annotating threads with the sender,
   * with short sends, failures and reconnects, each connection carries a prefix
   * of whole messages of its thread, in the order published and starting at
   * the start of one, and an open one loses nothing; unless a connection was
   * given descriptor zero, or a counter that outgrows its reservation was written.
   */
  lemma EveryInterleaving(events: seq<Event>, end: seq<Thread>, descriptors: set<int>, family: iset<Annotation>)
    requires Runs([], events, end) && AllWithin(events, descriptors, family)
    requires 0 !in descriptors && NoneOutgrows(family)
    ensures forall i :: 0 <= i < |end| ==> Faithful(end[i])
  {
    hide Inv, Runs, Faithful;
    RunKeepsInv([], events, end, descriptors, family);
    forall i | 0 <= i < |end| ensures Faithful(end[i]) { InvFaithful(end[i]); }
  }

  /** A reader of a connection gets whole records of the thread, in order and from one point on. */
  lemma WholeParses(carried: seq<byte>, records: seq<Record>, from: nat)
    requires AllEncodable(records, 1) && Whole(carried, Encodings(records, 1), from)
    ensures Parse(carried, 1) <= records[from..]
  {
    hide Parse, Flatten;
    assert Encodings(records, 1)[from..] == Encodings(records[from..], 1);
    ParseStream(records[from..], carried, 1);
  }
}
