/**
 * The frame protocol over the ring, one shared access at a time.
 *
 * The producer opens a frame, appends its body byte by byte, patches the four
 * length bytes one by one and only then commits; or it drops the frame.  The
 * consumer may take any of its own steps in between.  `frames` records, apart
 * from any ring, the bodies ended so far.
 */
module FrameStream {
  import opened Bytes
  import opened Rings
  import opened SpscRing
  import opened RingStores
  import opened Records
  import opened FrameBuffer

  datatype Phase = NoFrame | Building(body: seq<byte>) | Patching(body: seq<byte>, patched: nat)

  datatype Stream = Stream(s: State, phase: Phase, frames: seq<Record>)

  datatype Access =
    | Begin
    | PutByte(b: byte)
    | Patch
    | Commit
    | Drop
    | Consume(step: Step)

  /** Where the body starts in an open frame. */
  function Head(typed: bool): nat { |Tag(typed)| + LENGTH_SIZE }

  function LengthByte(body: seq<byte>, k: nat): byte
    requires k < LENGTH_SIZE && |body| < INT32_LIMIT
  {
    LE32(|body|)[k]
  }

  predicate Allowed(f: Stream, a: Access, typed: bool) {
    var r := f.s.ring;
    r.Ok(SLACK) &&
    match a
    case Begin => f.phase.NoFrame? && r.used + Head(typed) + SLACK <= |r.buf|
    case PutByte(b) => f.phase.Building? && r.used + r.claimed + 1 + SLACK <= |r.buf|
    case Patch =>
      || (f.phase.Building? && FRAME_HEADER_SIZE < |f.phase.body| < INT32_LIMIT && |Tag(typed)| < r.claimed)
      || (f.phase.Patching? && f.phase.patched < LENGTH_SIZE && |f.phase.body| < INT32_LIMIT
          && |Tag(typed)| + f.phase.patched < r.claimed)
    case Commit => f.phase.Patching? && f.phase.patched == LENGTH_SIZE
    case Drop => f.phase.Building?
    case Consume(step) => (step.Load? || step.Send? || step.Release?) && Enabled(f.s, step, SLACK)
  }

  function Do(f: Stream, a: Access, typed: bool): Stream
    requires Allowed(f, a, typed)
  {
    var r := f.s.ring;
    match a
    case Begin =>
      var tagged := Append(r.(claimed := 0), Tag(typed), SLACK);
      f.(s := f.s.(ring := tagged.(claimed := Head(typed))), phase := Building([]))
    case PutByte(b) =>
      f.(s := f.s.(ring := Append(r, [b], SLACK)), phase := Building(f.phase.body + [b]))
    case Patch =>
      var k := if f.phase.Building? then 0 else f.phase.patched;
      f.(s := f.s.(ring := StoreAll(r, |Tag(typed)| + k, [LengthByte(f.phase.body, k)], SLACK)),
         phase := Patching(f.phase.body, k + 1))
    case Commit =>
      f.(s := Apply(f.s, Publish(r.claimed), SLACK), phase := NoFrame,
         frames := f.frames + [Record(Tag(typed), f.phase.body)])
    case Drop => f.(s := Apply(f.s, Abandon, SLACK), phase := NoFrame)
    case Consume(step) => f.(s := Apply(f.s, step, SLACK))
  }

  /** The open bytes are the tag, the length bytes patched so far, and the body. */
  ghost predicate Shape(r: Ring, phase: Phase, typed: bool)
    requires r.read < |r.buf| && r.used <= |r.buf| && r.claimed <= |r.buf|
  {
    match phase
    case NoFrame => r.claimed == 0
    case Building(body) => Holds(r, body, 0, typed)
    case Patching(body, k) => k <= LENGTH_SIZE && FRAME_HEADER_SIZE < |body| && Holds(r, body, k, typed)
  }

  ghost predicate Holds(r: Ring, body: seq<byte>, k: nat, typed: bool)
    requires r.read < |r.buf| && r.used <= |r.buf| && r.claimed <= |r.buf| && k <= LENGTH_SIZE
  {
    && r.claimed == Head(typed) + |body|
    && |r.buf| < INT32_LIMIT
    && r.Open(r.claimed)[..|Tag(typed)| + k] == Tag(typed) + LE32(|body|)[..k]
    && r.Open(r.claimed)[Head(typed)..] == body
  }

  /** Everything published is the encoding of the frames ended with a body, in order. */
  ghost predicate Inv(f: Stream, typed: bool) {
    && SpscRing.Inv(f.s, SLACK)
    && |f.s.ring.buf| < INT32_LIMIT
    && Shape(f.s.ring, f.phase, typed)
    && Sendable(f.frames, typed)
    && f.s.msgs == Encodings(f.frames, |Tag(typed)|)
  }

  predicate Sendable(frames: seq<Record>, typed: bool) {
    forall i :: 0 <= i < |frames| ==>
      frames[i].tag == Tag(typed) && FRAME_HEADER_SIZE < |frames[i].body| < INT32_LIMIT
  }

  lemma AppendHolds(r: Ring, body: seq<byte>, b: byte, typed: bool)
    requires r.Ok(SLACK) && Holds(r, body, 0, typed) && r.used + r.claimed + 1 + SLACK <= |r.buf|
    ensures Holds(Append(r, [b], SLACK), body + [b], 0, typed)
  {
    hide Wrap, Put, Slice;
    AppendOpen(r, [b], SLACK);
    var open := r.Open(r.claimed);
    assert (open + [b])[Head(typed)..] == open[Head(typed)..] + [b];
    assert (open + [b])[..|Tag(typed)|] == open[..|Tag(typed)|];
  }

  lemma PatchHolds(r: Ring, body: seq<byte>, k: nat, typed: bool)
    requires r.Ok(SLACK) && k < LENGTH_SIZE && |body| < INT32_LIMIT && Holds(r, body, k, typed)
    ensures Holds(StoreAll(r, |Tag(typed)| + k, [LengthByte(body, k)], SLACK), body, k + 1, typed)
  {
    hide Wrap, Put, Slice;
    var at, b := |Tag(typed)| + k, LengthByte(body, k);
    StoreAllOpen(r, at, [b], SLACK);
    SliceSplit(r.buf, r.Commit(), at, r.claimed - at);
    var open := r.Open(r.claimed);
    var after := open[..at] + [b] + open[at + 1..];
    assert r.Open(at) == open[..at];
    assert after[Head(typed)..] == open[Head(typed)..];
    assert after[..at + 1] == open[..at] + [b];
    assert LE32(|body|)[..k + 1] == LE32(|body|)[..k] + [b];
  }

  lemma BeginHolds(r: Ring, typed: bool)
    requires r.Ok(SLACK) && r.claimed == 0 && r.used + Head(typed) + SLACK <= |r.buf| < INT32_LIMIT
    ensures Holds(Append(r, Tag(typed), SLACK).(claimed := Head(typed)), [], 0, typed)
  {
    hide Wrap, Put, Slice;
    AppendOpen(r, Tag(typed), SLACK);
    var t := Append(r, Tag(typed), SLACK);
    SliceSplit(t.buf, t.Commit(), |Tag(typed)|, LENGTH_SIZE);
    assert r.Open(0) == [];
    assert LE32(0)[..0] == [];
  }

  /** A patched frame, read from the commit position, is the encoding of its record. */
  lemma PatchedIsEncoding(r: Ring, body: seq<byte>, typed: bool)
    requires r.Ok(SLACK) && Holds(r, body, LENGTH_SIZE, typed)
    ensures r.Open(r.claimed) == Encode(Record(Tag(typed), body))
  {
    hide Wrap, Put, Slice;
    var open := r.Open(r.claimed);
    assert open == open[..Head(typed)] + open[Head(typed)..];
    assert LE32(|body|)[..LENGTH_SIZE] == LE32(|body|);
  }

  /** The producer's stores before a commit keep the ring invariant. */
  lemma ProducerKeepsRing(s: State, t: Ring)
    requires SpscRing.Inv(s, SLACK) && t.Ok(SLACK) && t.read == s.ring.read && t.used == s.ring.used
    requires forall from: nat {:trigger t.Rest(from)} :: from <= t.used ==> t.Rest(from) == s.ring.Rest(from)
    ensures SpscRing.Inv(s.(ring := t), SLACK)
  {
    hide Wrap, Put, Slice, Flatten;
  }

  lemma AppendKeepsRing(s: State, data: seq<byte>, claimed: nat)
    requires SpscRing.Inv(s, SLACK) && s.ring.used + s.ring.claimed + |data| + SLACK <= |s.ring.buf|
    requires s.ring.used + claimed + SLACK <= |s.ring.buf|
    ensures SpscRing.Inv(s.(ring := Append(s.ring, data, SLACK).(claimed := claimed)), SLACK)
  {
    hide Wrap, Put, Slice, Flatten;
    var g, t := s.ring.(claimed := s.ring.claimed + |data|), Append(s.ring, data, SLACK).(claimed := claimed);
    forall from: nat {:trigger t.Rest(from)} | from <= t.used ensures t.Rest(from) == s.ring.Rest(from) {
      StoreAllRest(g, s.ring.claimed, data, SLACK, from);
    }
    ProducerKeepsRing(s, t);
  }

  lemma PatchKeepsRing(s: State, offset: nat, b: byte)
    requires SpscRing.Inv(s, SLACK) && offset < s.ring.claimed
    ensures SpscRing.Inv(s.(ring := StoreAll(s.ring, offset, [b], SLACK)), SLACK)
  {
    hide Wrap, Put, Slice, Flatten;
    var t := StoreAll(s.ring, offset, [b], SLACK);
    forall from: nat {:trigger t.Rest(from)} | from <= t.used ensures t.Rest(from) == s.ring.Rest(from) {
      StoreAllRest(s.ring, offset, [b], SLACK, from);
    }
    ProducerKeepsRing(s, t);
  }

  /** Giving room back does not move the commit position. */
  lemma ConsumerKeepsShape(f: Stream, step: Step, typed: bool)
    requires Inv(f, typed) && Allowed(f, Consume(step), typed)
    ensures Shape(Apply(f.s, step, SLACK).ring, f.phase, typed)
  {
    hide Wrap, Put, Slice, Flatten;
    if step.Release? {
      WrapWrap(f.s.ring.read, step.count, f.s.ring.used - step.count, |f.s.ring.buf|);
      assert Released(f.s.ring, step.count, SLACK).Commit() == f.s.ring.Commit();
    }
  }

  lemma CommitKeepsInv(f: Stream, typed: bool)
    requires Inv(f, typed) && Allowed(f, Commit, typed)
    ensures Inv(Do(f, Commit, typed), typed)
  {
    hide Wrap, Put, Slice, Flatten;
    var rec := Record(Tag(typed), f.phase.body);
    StepKeepsInv(f.s, Publish(f.s.ring.claimed), SLACK);
    PatchedIsEncoding(f.s.ring, f.phase.body, typed);
    EncodingsSnoc(f.frames, rec, |Tag(typed)|);
  }

  lemma BeginKeepsInv(f: Stream, typed: bool)
    requires Inv(f, typed) && Allowed(f, Begin, typed)
    ensures Inv(Do(f, Begin, typed), typed)
  {
    hide Wrap, Put, Slice, Flatten;
    assert f.s.ring.(claimed := 0) == f.s.ring;
    AppendKeepsRing(f.s, Tag(typed), Head(typed));
    BeginHolds(f.s.ring, typed);
  }

  lemma PutKeepsInv(f: Stream, b: byte, typed: bool)
    requires Inv(f, typed) && Allowed(f, PutByte(b), typed)
    ensures Inv(Do(f, PutByte(b), typed), typed)
  {
    hide Wrap, Put, Slice, Flatten;
    AppendKeepsRing(f.s, [b], f.s.ring.claimed + 1);
    AppendHolds(f.s.ring, f.phase.body, b, typed);
  }

  lemma PatchKeepsInv(f: Stream, typed: bool)
    requires Inv(f, typed) && Allowed(f, Patch, typed)
    ensures Inv(Do(f, Patch, typed), typed)
  {
    hide Wrap, Put, Slice, Flatten;
    var k := if f.phase.Building? then 0 else f.phase.patched;
    PatchKeepsRing(f.s, |Tag(typed)| + k, LengthByte(f.phase.body, k));
    PatchHolds(f.s.ring, f.phase.body, k, typed);
  }

  lemma ConsumeKeepsInv(f: Stream, step: Step, typed: bool)
    requires Inv(f, typed) && Allowed(f, Consume(step), typed)
    ensures Inv(Do(f, Consume(step), typed), typed)
  {
    hide Wrap, Put, Slice, Flatten;
    StepKeepsInv(f.s, step, SLACK);
    ConsumerKeepsShape(f, step, typed);
  }

  lemma DropKeepsInv(f: Stream, typed: bool)
    requires Inv(f, typed) && Allowed(f, Drop, typed)
    ensures Inv(Do(f, Drop, typed), typed)
  {
    hide Wrap, Put, Slice, Flatten;
    StepKeepsInv(f.s, Abandon, SLACK);
  }

  /** Every shared access of either side keeps the protocol. */
  lemma AccessKeepsInv(f: Stream, a: Access, typed: bool)
    requires Inv(f, typed) && Allowed(f, a, typed)
    ensures Inv(Do(f, a, typed), typed)
  {
    hide Inv, Allowed, Do;
    match a
    case Begin => BeginKeepsInv(f, typed);
    case PutByte(b) => PutKeepsInv(f, b, typed);
    case Patch => PatchKeepsInv(f, typed);
    case Commit => CommitKeepsInv(f, typed);
    case Drop => DropKeepsInv(f, typed);
    case Consume(step) => ConsumeKeepsInv(f, step, typed);
  }

  ghost predicate Runs(f: Stream, accesses: seq<Access>, typed: bool, g: Stream)
    decreases |accesses|
  {
    if accesses == [] then f == g
    else Allowed(f, accesses[0], typed) && Runs(Do(f, accesses[0], typed), accesses[1..], typed, g)
  }

  function Start(size: nat): Stream {
    Stream(SpscRing.Start(size), NoFrame, [])
  }

  lemma {:induction false} RunKeepsInv(f: Stream, accesses: seq<Access>, typed: bool, g: Stream)
    requires Inv(f, typed) && Runs(f, accesses, typed, g)
    ensures Inv(g, typed)
    decreases |accesses|
  {
    hide Wrap, Put, Slice, Flatten, Inv, Allowed, Do;
    if accesses != [] {
      AccessKeepsInv(f, accesses[0], typed);
      RunKeepsInv(Do(f, accesses[0], typed), accesses[1..], typed, g);
    }
  }

  /**
   * In every interleaving, what is on the wire followed by what waits in the
   * ring is the in-order encoding of exactly the frames ended with a body.  A
   * host that parses the wire gets a prefix of those frames, and all of them
   * once the ring is empty; dropped frames leave no trace.
   */
  lemma EveryInterleaving(size: nat, accesses: seq<Access>, typed: bool, g: Stream)
    requires 8192 < size < INT32_LIMIT && Runs(Start(size), accesses, typed, g)
    ensures Sendable(g.frames, typed) && SpscRing.Inv(g.s, SLACK)
    ensures g.s.wire + g.s.ring.Rest(g.s.Progress()) == Flatten(Encodings(g.frames, |Tag(typed)|))
    ensures Parse(g.s.wire, |Tag(typed)|) <= g.frames
    ensures g.s.cons.Idle? && g.s.ring.read == g.s.ring.Commit() ==> Parse(g.s.wire, |Tag(typed)|) == g.frames
  {
    SpscRing.StartInv(size, SLACK);
    RunKeepsInv(Start(size), accesses, typed, g);
    Delivered(g, typed);
  }

  lemma Delivered(g: Stream, typed: bool)
    requires Inv(g, typed)
    ensures g.s.wire + g.s.ring.Rest(g.s.Progress()) == Flatten(Encodings(g.frames, |Tag(typed)|))
    ensures Parse(g.s.wire, |Tag(typed)|) <= g.frames
    ensures g.s.cons.Idle? && g.s.ring.read == g.s.ring.Commit() ==> Parse(g.s.wire, |Tag(typed)|) == g.frames
  {
    hide Put, Slice, Flatten, Parse, Encodings;
    EveryRun(g.s, [], SLACK, g.s);
    ParseStream(g.frames, g.s.wire, |Tag(typed)|);
  }

  // ---- The methods of Buffer, as runs of accesses ----

  lemma {:induction false} RunsSnoc(f: Stream, accesses: seq<Access>, last: Access, typed: bool, g: Stream)
    requires Runs(f, accesses, typed, g) && Allowed(g, last, typed)
    ensures Runs(f, accesses + [last], typed, Do(g, last, typed))
    decreases |accesses|
  {
    hide Allowed, Do;
    if accesses == [] {
      assert [last][1..] == [];
    } else {
      RunsSnoc(Do(f, accesses[0], typed), accesses[1..], last, typed, g);
      assert (accesses + [last])[1..] == accesses[1..] + [last];
    }
  }

  function Puts(data: seq<byte>): seq<Access> {
    seq(|data|, i requires 0 <= i < |data| => PutByte(data[i]))
  }

  /** `packInt`, `packInt64`, `writeBytes`, `writeString`. */
  lemma {:induction false} AppendIsRun(f: Stream, data: seq<byte>, typed: bool)
    requires f.phase.Building? && f.s.ring.Ok(SLACK)
    requires f.s.ring.used + f.s.ring.claimed + |data| + SLACK <= |f.s.ring.buf|
    ensures Runs(f, Puts(data), typed,
                 f.(s := f.s.(ring := Append(f.s.ring, data, SLACK)), phase := Building(f.phase.body + data)))
    decreases |data|
  {
    hide Wrap, Put, Slice;
    if data == [] {
      AppendNothing(f.s.ring);
      assert f.phase.body + [] == f.phase.body;
    } else {
      var front, b := data[..|data| - 1], data[|data| - 1];
      AppendIsRun(f, front, typed);
      var g := f.(s := f.s.(ring := Append(f.s.ring, front, SLACK)), phase := Building(f.phase.body + front));
      RunsSnoc(f, Puts(front), PutByte(b), typed, g);
      AppendOne(f.s.ring, data, SLACK);
      assert Puts(front) + [PutByte(b)] == Puts(data);
      assert front + [b] == data;
      assert (f.phase.body + front) + [b] == f.phase.body + data;
    }
  }

  /** `beginFrame` and `writeRawFrame`. */
  lemma BeginIsRun(f: Stream, body: seq<byte>, typed: bool)
    requires f.phase.NoFrame? && f.s.ring.Ok(SLACK) && f.s.ring.claimed == 0
    requires f.s.ring.used + Head(typed) + |body| + SLACK <= |f.s.ring.buf|
    ensures Runs(f, [Begin] + Puts(body), typed,
                 f.(s := f.s.(ring := FrameBegun(f.s.ring, typed, body)), phase := Building(body)))
  {
    hide Wrap, Put, Slice;
    var g := Do(f, Begin, typed);
    assert f.s.ring.(claimed := 0) == f.s.ring;
    AppendIsRun(g, body, typed);
    assert [] + body == body;
    assert ([Begin] + Puts(body))[1..] == Puts(body);
  }

  /** The four patches of `endFrame`, one length byte at a time. */
  lemma {:induction false} PatchesAreRun(f: Stream, k: nat, typed: bool)
    requires f.phase.Building? && f.s.ring.Ok(SLACK) && FRAME_HEADER_SIZE < |f.phase.body| < INT32_LIMIT
    requires f.s.ring.claimed == Head(typed) + |f.phase.body| && 0 < k <= LENGTH_SIZE
    ensures var ring := StoreAll(f.s.ring, |Tag(typed)|, LE32(|f.phase.body|)[..k], SLACK);
            Runs(f, seq(k, _ => Patch), typed, f.(s := f.s.(ring := ring), phase := Patching(f.phase.body, k)))
    decreases k
  {
    hide Wrap, Put, Slice;
    var length := LE32(|f.phase.body|);
    StoreAllOne(f.s.ring, |Tag(typed)|, length[..k], SLACK);
    assert length[..k][..k - 1] == length[..k - 1];
    if k == 1 {
      assert StoreAll(f.s.ring, |Tag(typed)|, [], SLACK) == f.s.ring by { NoStores(f.s.ring, |Tag(typed)|, SLACK); }
      assert seq(1, _ => Patch) == [] + [Patch];
      RunsSnoc(f, [], Patch, typed, f);
    } else {
      PatchesAreRun(f, k - 1, typed);
      var g := f.(s := f.s.(ring := StoreAll(f.s.ring, |Tag(typed)|, length[..k - 1], SLACK)),
                  phase := Patching(f.phase.body, k - 1));
      RunsSnoc(f, seq(k - 1, _ => Patch), Patch, typed, g);
      assert seq(k, _ => Patch) == seq(k - 1, _ => Patch) + [Patch];
    }
  }

  /** `endFrame`: a body is committed as a new last frame, a bare frame type is dropped. */
  lemma EndIsRun(f: Stream, typed: bool)
    requires Inv(f, typed) && f.phase.Building?
    ensures var kept := |f.phase.body| > FRAME_HEADER_SIZE;
            var accesses := if kept then seq(LENGTH_SIZE, _ => Patch) + [Commit] else [Drop];
            exists g :: Runs(f, accesses, typed, g) && g.s.ring == FrameEnded(f.s.ring, typed) && g.phase.NoFrame?
              && g.frames == if kept then f.frames + [Record(Tag(typed), f.phase.body)] else f.frames
  {
    hide Wrap, Put, Slice, Flatten;
    var body := f.phase.body;
    if |body| > FRAME_HEADER_SIZE {
      PatchesAreRun(f, LENGTH_SIZE, typed);
      assert LE32(|body|)[..LENGTH_SIZE] == LE32(|body|);
      var g := f.(s := f.s.(ring := StoreAll(f.s.ring, |Tag(typed)|, LE32(|body|), SLACK)), phase := Patching(body, LENGTH_SIZE));
      RunsSnoc(f, seq(LENGTH_SIZE, _ => Patch), Commit, typed, g);
      assert Do(g, Commit, typed).s.ring == FrameEnded(f.s.ring, typed);
    } else {
      RunsSnoc(f, [], Drop, typed, f);
      assert [] + [Drop] == [Drop];
      assert Do(f, Drop, typed).s.ring == FrameEnded(f.s.ring, typed);
    }
  }
}
