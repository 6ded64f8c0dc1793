/**
 * A client that writes one message over and over.
 *
 * When the message fits around the ring without a seam, every cell always holds
 * the same byte, so even an overrun shows nowhere: whole copies are lost.
 */
module AnnotateRepeat {
  import opened Bytes
  import opened Rings
  import opened Annotations
  import opened AnnotateStream

  /** The bytes of a message repeated for ever. */
  function Cell(m: seq<byte>, i: nat): byte
    requires m != []
  {
    if i < |m| then m[i] else Cell(m, i - |m|)
  }

  /** Going once around the ring leads back to the same place in the message. */
  predicate Seamless(m: seq<byte>) {
    m != [] && forall i {:trigger m[i]} :: 0 <= i < |m| ==> Cell(m, i + SIZE) == m[i]
  }

  /** The bytes of k copies. */
  function Length(m: seq<byte>, k: nat): nat { if k == 0 then 0 else Length(m, k - 1) + |m| }

  /** The position in the ring after so many bytes. */
  function Around(x: nat): (p: nat)
    ensures p < SIZE && p <= x
  {
    if x < SIZE then x else Around(x - SIZE)
  }

  lemma {:induction false} AroundAdds(x: nat, k: nat)
    requires k < SIZE
    ensures Wrap(Around(x) + k, SIZE) == Around(x + k)
    decreases x
  {
    if x >= SIZE { AroundAdds(x - SIZE, k); }
  }

  lemma {:induction false} AroundDist(x: nat, y: nat)
    requires x <= y
    ensures x + Dist(Around(x), Around(y), SIZE) <= y && Around(x + Dist(Around(x), Around(y), SIZE)) == Around(y)
    decreases y
  {
    if y - x >= SIZE {
      AroundDist(x, y - SIZE);
    } else if x >= SIZE {
      AroundDist(x - SIZE, y - SIZE);
    }
  }

  lemma {:induction false} CellCopies(m: seq<byte>, k: nat, i: nat)
    requires m != []
    ensures Cell(m, Length(m, k) + i) == Cell(m, i)
    decreases k
  {
    if k > 0 { CellCopies(m, k - 1, i); }
  }

  lemma {:induction false} CellAround(m: seq<byte>, i: nat)
    requires m != [] && Seamless(m)
    ensures Cell(m, i + SIZE) == Cell(m, i)
    decreases i
  {
    if i >= |m| { CellAround(m, i - |m|); }
  }

  lemma {:induction false} CellWraps(m: seq<byte>, i: nat)
    requires m != [] && Seamless(m)
    ensures Cell(m, Around(i)) == Cell(m, i)
    decreases i
  {
    hide Seamless, Cell;
    if i >= SIZE {
      CellWraps(m, i - SIZE);
      CellAround(m, i - SIZE);
    }
  }

  lemma CellFirst(m: seq<byte>, k: nat)
    requires k < |m|
    ensures Cell(m, k) == m[k]
  {
  }

  lemma CellStep(m: seq<byte>, i: nat)
    requires m != []
    ensures Cell(m, i) == if i < |m| then m[i] else Cell(m, i - |m|)
  {
  }

  lemma {:induction false} LengthSplit(m: seq<byte>, j: nat, k: nat)
    requires j <= k
    ensures Length(m, k) == Length(m, j) + Length(m, k - j)
    decreases j
  {
    if j > 0 {
      LengthSplit(m, j - 1, k);
      LengthFront(m, k - j + 1);
    }
  }

  lemma LengthFront(m: seq<byte>, k: nat)
    requires k > 0
    ensures Length(m, k) == Length(m, k - 1) + |m|
  {
  }

  predicate AllSay(notes: seq<Annotation>, m: seq<byte>) {
    forall i :: 0 <= i < |notes| ==> Message(notes[i]) == m
  }

  lemma {:induction false} CopyAt(ms: seq<seq<byte>>, m: seq<byte>, i: nat)
    requires m != [] && forall k :: 0 <= k < |ms| ==> ms[k] == m
    ensures |Flatten(ms)| == Length(m, |ms|)
    ensures i < Length(m, |ms|) ==> Flatten(ms)[i] == Cell(m, i)
    decreases |ms|
  {
    hide Cell;
    if ms != [] {
      CopyAt(ms[1..], m, if i >= |m| then i - |m| else 0);
      CellStep(m, i);
    }
  }

  lemma CopiesAt(notes: seq<Annotation>, m: seq<byte>, i: nat)
    requires AllSay(notes, m) && m != []
    ensures |Flatten(Messages(notes))| == Length(m, |notes|)
    ensures i < Length(m, |notes|) ==> Flatten(Messages(notes))[i] == Cell(m, i)
  {
    hide Message, Payload, Reservation, Flatten, Cell, Length;
    CopyAt(Messages(notes), m, i);
  }

  /** A prefix of the message repeated, no longer than the copies there are, is whole. */
  lemma CopiesWhole(carried: seq<byte>, notes: seq<Annotation>, from: nat, m: seq<byte>)
    requires AllSay(notes, m) && m != [] && from <= |notes| && Length(m, from) + |carried| <= Length(m, |notes|)
    requires Agrees(carried, m, |carried|)
    ensures Whole(carried, Messages(notes), from)
  {
    hide Message, Payload, Reservation, Flatten, Cell, Length;
    var rest := notes[from..];
    LengthSplit(m, from, |notes|);
    CopiesAt(rest, m, 0);
    assert Messages(notes)[from..] == Messages(rest);
    forall i | 0 <= i < |carried| ensures carried[i] == Flatten(Messages(rest))[i] { CopiesAt(rest, m, i); }
  }

  // ---- The invariant ----

  /** The first bytes are those of the message repeated. */
  predicate Agrees(s: seq<byte>, m: seq<byte>, limit: nat)
    requires m != []
  {
    forall i :: 0 <= i < |s| && i < limit ==> s[i] == Cell(m, i)
  }

  lemma AgreesAt(s: seq<byte>, m: seq<byte>, limit: nat, i: nat)
    requires m != [] && Agrees(s, m, limit) && i < |s| && i < limit
    ensures s[i] == Cell(m, i)
  {
    hide Cell;
  }

  lemma NothingAgrees(m: seq<byte>)
    requires m != []
    ensures Agrees([], m, 0)
  {
  }

  lemma AgreesWith(s: seq<byte>, m: seq<byte>, limit: nat, i: nat, b: byte)
    requires m != [] && Agrees(s, m, limit) && i < |s| && b == Cell(m, i)
    ensures Agrees(s[i := b], m, limit)
  {
    hide Cell;
  }

  /** How far the reader is: copies before the connection, and bytes on it. */
  function ReadTo(t: Thread, m: seq<byte>): nat
    requires t.Progress() <= |t.carried|
  {
    Length(m, t.base) + |t.carried| - t.Progress()
  }

  function WrittenTo(t: Thread, m: seq<byte>): nat { Length(m, |t.notes|) }

  ghost predicate Written(t: Thread, m: seq<byte>)
    requires m != []
  {
    && t.InRange() && Placed(t) && AllSay(t.notes, m)
    && (t.builder.Writing? ==> Message(t.builder.a) == m)
    && t.write == Around(WrittenTo(t, m))
    && Agrees(t.buf, m, WrittenTo(t, m))
  }

  ghost predicate Carries(t: Thread, m: seq<byte>)
    requires m != []
  {
    && t.InRange() && t.base <= |t.notes| && t.Progress() <= |t.carried|
    && t.read == Around(ReadTo(t, m)) && ReadTo(t, m) <= WrittenTo(t, m)
    && (t.sender.Loaded? ==>
          && t.sender.upto <= |t.notes| && ReadTo(t, m) + t.sender.ahead <= Length(m, t.sender.upto)
          && Around(ReadTo(t, m) + t.sender.ahead) == Around(Length(m, t.sender.upto)))
    && t.fd != 0 && (t.fd < 0 ==> t.carried == [])
    && Agrees(t.carried, m, |t.carried|)
    && PastWhole(t.past, t.notes)
  }

  ghost predicate Repeats(t: Thread, m: seq<byte>)
    requires m != []
  {
    Written(t, m) && Carries(t, m)
  }

  lemma WaitRepeats(t: Thread, a: Annotation, m: seq<byte>)
    requires m != [] && Repeats(t, m) && Allowed(t, Wait(a)) && Message(a) == m
    ensures Repeats(Do(t, Wait(a)), m)
  {
    hide Agrees, Message, Payload, Reservation, Cell, PastWhole, Dist, Offset, Around, Length, Wrap;
    OutgrowsMeans(a);
  }

  /** A byte goes where the same byte belongs. */
  lemma StoreFits(t: Thread, m: seq<byte>, k: nat)
    requires m != [] && Seamless(m) && Written(t, m) && k < |m| < SIZE
    ensures m[k] == Cell(m, Wrap(t.write + k, SIZE))
  {
    hide Agrees, Message, Payload, Reservation, Cell, Dist, Offset, Placed, Seamless, Around, Length, Wrap;
    CellFirst(m, k);
    CellCopies(m, |t.notes|, k);
    AroundAdds(WrittenTo(t, m), k);
    CellWraps(m, WrittenTo(t, m) + k);
  }

  lemma StoreRepeats(t: Thread, m: seq<byte>)
    requires m != [] && Seamless(m) && Repeats(t, m) && Allowed(t, Store)
    ensures Repeats(Do(t, Store), m)
  {
    hide Agrees, Message, Payload, Reservation, Cell, PastWhole, Dist, Offset, Placed, Seamless, Around, Length, Wrap;
    assert |m| < SIZE by { MessageFits(t); }
    StorePlaces(t);
    var k := Offset(t.builder.done, |m|);
    StoreFits(t, m, k);
    AgreesWith(t.buf, m, WrittenTo(t, m), Wrap(t.write + k, SIZE), m[k]);
  }

  lemma MessageFits(t: Thread)
    requires t.InRange() && Placed(t) && t.builder.Writing?
    ensures |Message(t.builder.a)| < SIZE
  {
  }

  lemma PublishWrites(t: Thread, m: seq<byte>)
    requires m != [] && Seamless(m) && Written(t, m) && Allowed(t, Publish)
    ensures Written(Do(t, Publish), m)
  {
    hide Message, Payload, Reservation, Cell, Dist, Placed, Offset, Slice, Seamless, Around, Wrap;
    var u, T := Do(t, Publish), WrittenTo(t, m);
    MessageFits(t);
    NothingPlaced(u);
    AroundAdds(T, |m|);
    StoredIsMessage(t);
    forall i | 0 <= i < SIZE && T <= i < T + |m| ensures u.buf[i] == Cell(m, i) {
      var k := i - T;
      SliceAt(t.buf, t.write, |m|);
      assert Slice(t.buf, t.write, |m|)[k] == t.buf[Wrap(t.write + k, SIZE)] == m[k];
      AroundAdds(T, k);
      assert Around(i) == i by { AroundSmall(i); }
      StoreFits(t, m, k);
    }
  }

  lemma AroundSmall(i: nat)
    requires i < SIZE
    ensures Around(i) == i
  {
  }

  lemma PublishRepeats(t: Thread, m: seq<byte>)
    requires m != [] && Seamless(m) && Repeats(t, m) && Allowed(t, Publish)
    ensures Repeats(Do(t, Publish), m)
  {
    hide Agrees, Message, Payload, Reservation, Cell, PastWhole, Dist, Placed, Offset, Seamless, Around, Wrap;
    PublishWrites(t, m);
    PastGrows(t.past, t.notes, t.builder.a);
  }

  lemma LoadRepeats(t: Thread, m: seq<byte>)
    requires m != [] && Repeats(t, m) && Allowed(t, LoadPos)
    ensures Repeats(Do(t, LoadPos), m)
  {
    hide Agrees, Message, Payload, Reservation, Cell, PastWhole, Dist, Placed, Offset, Around, Wrap, Length;
    StillPlaced(t, Do(t, LoadPos));
    AroundDist(ReadTo(t, m), WrittenTo(t, m));
  }

  /** Cells that were written hold the message repeated, from wherever one reads. */
  lemma WrittenCell(buf: seq<byte>, m: seq<byte>, limit: nat, at: nat, k: nat)
    requires m != [] && Seamless(m) && |buf| == SIZE && Agrees(buf, m, limit) && k < SIZE && at + k < limit
    ensures buf[Wrap(Around(at) + k, SIZE)] == Cell(m, at + k)
  {
    hide Cell, Around, Seamless, Wrap, Agrees;
    AroundAdds(at, k);
    AgreesAt(buf, m, limit, Around(at + k));
    CellWraps(m, at + k);
  }

  lemma WrittenSlice(buf: seq<byte>, m: seq<byte>, limit: nat, at: nat, p: nat, n: nat, j: nat)
    requires m != [] && Seamless(m) && |buf| == SIZE && Agrees(buf, m, limit) && p + n <= SIZE && at + p + n <= limit && j < n
    ensures Slice(buf, Wrap(Around(at) + p, SIZE), n)[j] == Cell(m, at + p + j)
  {
    hide Cell, Around, Seamless, Wrap, Agrees, Slice;
    WrittenCell(buf, m, limit, at, p + j);
    SliceAt(buf, Wrap(Around(at) + p, SIZE), n);
    WrapWrap(Around(at), p, j, SIZE);
  }

  lemma ChunkBounds(t: Thread, m: seq<byte>, n: nat)
    requires m != [] && Repeats(t, m) && Allowed(t, SendSome(n))
    ensures |t.buf| == SIZE && Agrees(t.buf, m, WrittenTo(t, m)) && t.Progress() <= |t.carried| && t.read == Around(ReadTo(t, m))
    ensures t.sender.progress + n <= SIZE && ReadTo(t, m) + t.sender.progress + n <= WrittenTo(t, m)
  {
    hide Message, Payload, Reservation, Cell, Dist, Around, Length, Slice, Wrap, Agrees, PastWhole, Placed, AllSay;
    LengthSplit(m, t.sender.upto, |t.notes|);
  }

  /** Read p bytes further, the cells continue what c bytes after so many copies have come to. */
  lemma NextStretch(buf: seq<byte>, m: seq<byte>, limit: nat, copies: nat, c: nat, p: nat, n: nat, j: nat)
    requires m != [] && Seamless(m) && |buf| == SIZE && Agrees(buf, m, limit)
    requires p <= c && p + n <= SIZE && Length(m, copies) + c + n <= limit && j < n
    ensures Slice(buf, Wrap(Around(Length(m, copies) + c - p) + p, SIZE), n)[j] == Cell(m, c + j)
  {
    hide Cell, Around, Length, Slice, Seamless, Wrap, Agrees;
    var at := Length(m, copies) + c - p;
    WrittenSlice(buf, m, limit, at, p, n, j);
    CellCopies(m, copies, c + j);
    assert at + p + j == Length(m, copies) + (c + j);
  }

  /** What is sent is the next stretch of the message repeated. */
  lemma ChunkRepeats(t: Thread, m: seq<byte>, n: nat, j: nat)
    requires m != [] && Seamless(m) && Repeats(t, m) && Allowed(t, SendSome(n)) && j < n
    ensures Slice(t.buf, Wrap(t.read + t.sender.progress, SIZE), n)[j] == Cell(m, |t.carried| + j)
  {
    hide Message, Payload, Reservation, Cell, Dist, Around, Length, Slice, Seamless, Wrap, Agrees, Repeats;
    ChunkBounds(t, m, n);
    NextStretch(t.buf, m, WrittenTo(t, m), t.base, |t.carried|, t.sender.progress, n, j);
  }

  lemma AgreesOn(front: seq<byte>, more: seq<byte>, m: seq<byte>)
    requires m != [] && Agrees(front, m, |front|) && forall j :: 0 <= j < |more| ==> more[j] == Cell(m, |front| + j)
    ensures Agrees(front + more, m, |front + more|)
  {
    hide Cell;
  }

  lemma SendAgrees(t: Thread, m: seq<byte>, n: nat)
    requires m != [] && Seamless(m) && Repeats(t, m) && Allowed(t, SendSome(n))
    ensures var carried := Do(t, SendSome(n)).carried; |carried| == |t.carried| + n && Agrees(carried, m, |carried|)
  {
    hide Message, Payload, Reservation, Cell, Dist, Slice, Seamless, Wrap, Agrees, Written, PastWhole, Around, Length;
    var chunk := Slice(t.buf, Wrap(t.read + t.sender.progress, SIZE), n);
    forall j | 0 <= j < n ensures chunk[j] == Cell(m, |t.carried| + j) { ChunkRepeats(t, m, n, j); }
    AgreesOn(t.carried, chunk, m);
  }

  lemma SendRepeats(t: Thread, m: seq<byte>, n: nat)
    requires m != [] && Seamless(m) && Repeats(t, m) && Allowed(t, SendSome(n))
    ensures Repeats(Do(t, SendSome(n)), m)
  {
    hide Message, Payload, Reservation, Cell, PastWhole, Dist, Placed, Around, Length, Slice, Seamless, Wrap, Agrees, AllSay;
    StillPlaced(t, Do(t, SendSome(n)));
    SendAgrees(t, m, n);
  }

  lemma ReleaseRepeats(t: Thread, m: seq<byte>)
    requires m != [] && Repeats(t, m) && Allowed(t, ReleaseSome)
    ensures Repeats(Do(t, ReleaseSome), m)
  {
    hide Agrees, Message, Payload, Reservation, Cell, PastWhole, Dist, Placed, Offset, Around, Length, Wrap;
    StillPlaced(t, Do(t, ReleaseSome));
    AroundAdds(ReadTo(t, m), t.sender.progress);
    LengthSplit(m, t.sender.upto, |t.notes|);
  }

  lemma ForgetRepeats(t: Thread, m: seq<byte>)
    requires m != [] && Repeats(t, m) && Allowed(t, Forget)
    ensures Repeats(Do(t, Forget), m)
  {
    hide Agrees, Message, Payload, Reservation, Cell, PastWhole, Dist, Placed, Offset, Around, Length, Wrap;
    StillPlaced(t, Do(t, Forget));
  }

  lemma ConnectRepeats(t: Thread, fd: int, m: seq<byte>)
    requires m != [] && Repeats(t, m) && Allowed(t, Connect(fd)) && fd != 0
    ensures Repeats(Do(t, Connect(fd)), m)
  {
    hide Message, Payload, Reservation, Cell, PastWhole, Dist, Placed, Offset, Around, Length, Wrap;
    StillPlaced(t, Do(t, Connect(fd)));
  }

  lemma RepeatsSound(t: Thread, m: seq<byte>)
    requires m != [] && Repeats(t, m)
    ensures Sound(t)
  {
    hide Agrees, Message, Payload, Reservation, Cell, PastWhole, Dist, Placed, Offset, Around, Length, Wrap, Whole;
    if t.sender.Loaded? { LengthSplit(m, t.sender.upto, |t.notes|); }
    CopiesWhole(t.carried, t.notes, t.base, m);
  }

  lemma DropRepeats(t: Thread, m: seq<byte>)
    requires m != [] && Repeats(t, m) && Allowed(t, DropAll)
    ensures Repeats(Do(t, DropAll), m)
  {
    hide Agrees, Message, Payload, Reservation, Cell, Dist, Placed, Offset, Around, Length, Wrap, Whole;
    StillPlaced(t, Do(t, DropAll));
    RepeatsSound(t, m);
    assert Agrees([], m, 0) by { NothingAgrees(m); }
    AroundAdds(ReadTo(t, m), t.sender.ahead);
    LengthSplit(m, t.sender.upto, |t.notes|);
  }

  lemma ActRepeats(t: Thread, act: Act, m: seq<byte>)
    requires m != [] && Seamless(m) && Repeats(t, m) && Allowed(t, act) && act != Connect(0) && (act.Wait? ==> Message(act.a) == m)
    ensures Repeats(Do(t, act), m)
  {
    hide Repeats, Do, Allowed, Message, Seamless;
    match act
    case Wait(a) => WaitRepeats(t, a, m);
    case Store => StoreRepeats(t, m);
    case Publish => PublishRepeats(t, m);
    case LoadPos => LoadRepeats(t, m);
    case SendSome(n) => SendRepeats(t, m, n);
    case ReleaseSome => ReleaseRepeats(t, m);
    case Forget => ForgetRepeats(t, m);
    case Connect(fd) => ConnectRepeats(t, fd, m);
    case DropAll => DropRepeats(t, m);
  }

  // ---- All threads ----

  /** The one message the client writes. */
  ghost predicate OnlyWrites(family: iset<Annotation>, m: seq<byte>) {
    forall a :: a in family && Accepted(a) ==> Message(a) == m
  }

  ghost predicate AllRepeat(threads: seq<Thread>, m: seq<byte>)
    requires m != []
  {
    forall i :: 0 <= i < |threads| ==> Repeats(threads[i], m)
  }

  lemma FreshRepeats(m: seq<byte>)
    requires m != []
    ensures Repeats(Fresh(), m)
  {
  }

  lemma {:induction false} RunRepeats(threads: seq<Thread>, events: seq<Event>, end: seq<Thread>,
                                      descriptors: set<int>, family: iset<Annotation>, m: seq<byte>)
    requires m != [] && Seamless(m) && AllRepeat(threads, m) && Runs(threads, events, end) && AllWithin(events, descriptors, family)
    requires 0 !in descriptors && OnlyWrites(family, m)
    ensures AllRepeat(end, m)
    decreases |events|
  {
    hide Repeats, Do, Fresh, Message, Seamless;
    if events != [] {
      var e := events[0];
      if e.Event? {
        assert e.act.Wait? ==> Accepted(e.act.a);
        ActRepeats(threads[e.thread], e.act, m);
      } else {
        FreshRepeats(m);
      }
      RunRepeats(Happen(threads, e), events[1..], end, descriptors, family, m);
    }
  }

  /** A message without a seam that is all the client writes: its connections are whole, whatever is lost. */
  lemma SeamlessSound(events: seq<Event>, end: seq<Thread>, descriptors: set<int>, family: iset<Annotation>, m: seq<byte>)
    requires Runs([], events, end) && AllWithin(events, descriptors, family)
    requires 0 !in descriptors && OnlyWrites(family, m) && Seamless(m)
    ensures forall i :: 0 <= i < |end| ==> Sound(end[i])
  {
    hide Repeats, Runs, Sound, Cell;
    RunRepeats([], events, end, descriptors, family, m);
    forall i | 0 <= i < |end| ensures Sound(end[i]) { RepeatsSound(end[i], m); }
  }

  // ---- Seams ----

  lemma {:induction false} PeriodExtends(m: seq<byte>, at: nat, i: nat)
    requires m != [] && forall j {:trigger m[j]} :: 0 <= j < |m| ==> Cell(m, at + j) == m[j]
    ensures Cell(m, at + i) == Cell(m, i)
    decreases i
  {
    if i < |m| {
      assert m[i] == Cell(m, at + i);
    } else {
      PeriodExtends(m, at, i - |m|);
    }
  }

  /** Copies that come round to the start of one a ring before their end have no seam. */
  lemma RoundIsSeamless(notes: seq<Annotation>, m: seq<byte>, at: nat)
    requires AllSay(notes, m) && 0 < |m| <= SIZE && at + SIZE == |Flatten(Messages(notes))| && m <= Flatten(Messages(notes))[at..]
    ensures Seamless(m)
  {
    hide Message, Payload, Reservation, Cell, Length, Flatten, Messages;
    var stream := Flatten(Messages(notes));
    forall j | 0 <= j < |m| ensures Cell(m, at + j) == m[j] {
      CopiesAt(notes, m, at + j);
      assert stream[at..][j] == m[j];
    }
    CopiesAt(notes, m, 0);
    forall i | 0 <= i < |m| ensures Cell(m, i + SIZE) == m[i] {
      PeriodExtends(m, at, i + SIZE);
      CellCopies(m, |notes|, i);
      CellFirst(m, i);
    }
  }
}
