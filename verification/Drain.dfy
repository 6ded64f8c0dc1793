/**
 * The sender thread draining every source, as a state machine.
 *
 * Any number of buffer-backed sources run beside one sender.  The sender waits
 * on a semaphore, then for each source loads the done flag, loads the commit
 * position, hands over the committed bytes in chunks and releases them; it
 * leaves once one pass found every source done.
 */
module Drain {
  import opened Bytes
  import opened Rings
  import opened SpscRing
  import opened Records
  import opened FrameBuffer
  import opened FrameStream

  /** `sent` counts the frames whose bytes have been released; `posted` is the post that follows the done flag. */
  datatype Source = Source(f: Stream, isDone: bool, posted: bool, sent: nat)

  datatype Sender =
    | Waiting
    | Scanning(next: nat, allDone: bool)
    | Polling(at: nat, allDone: bool, done: bool)
    | Exited

  /** `log` lists the frames released, with their source; `part` is what the current send has put on the wire. */
  datatype Capture = Capture(sources: seq<Source>, sem: nat, sender: Sender, wire: seq<byte>,
                             log: seq<(nat, Record)>, part: seq<byte>)

  datatype Event =
    | Produce(source: nat, access: Access)
    | MarkDone(source: nat)
    | PostDone(source: nat)
    | Flush
    | Wake
    | LoadDone
    | LoadCommit
    | Chunk(count: nat)
    | Finish
    | EndPass

  predicate CanHappen(c: Capture, e: Event, typed: bool) {
    match e
    case Produce(i, a) => i < |c.sources| && !c.sources[i].isDone && !a.Consume? && Allowed(c.sources[i].f, a, typed)
    case MarkDone(i) => i < |c.sources| && !c.sources[i].isDone
    case PostDone(i) => i < |c.sources| && c.sources[i].isDone && !c.sources[i].posted
    case Flush => true
    case Wake => c.sender.Waiting? && c.sem > 0
    case LoadDone => c.sender.Scanning? && c.sender.next < |c.sources|
    case LoadCommit => Current(c) && c.sources[c.sender.at].f.s.cons.Idle?
                       && Allowed(c.sources[c.sender.at].f, Consume(Load), typed)
    case Chunk(n) => Current(c) && Allowed(c.sources[c.sender.at].f, Consume(Send(n)), typed)
    case Finish => Current(c) && c.sources[c.sender.at].f.s.cons.Sending?
                   && c.sources[c.sender.at].f.s.cons.progress == c.sources[c.sender.at].f.s.cons.ahead
                   && c.sources[c.sender.at].sent <= c.sources[c.sender.at].f.s.cons.upto <= |c.sources[c.sender.at].f.frames|
                   && Allowed(c.sources[c.sender.at].f, Consume(Release(c.sources[c.sender.at].f.s.cons.ahead)), typed)
    case EndPass => c.sender.Scanning? && c.sender.next == |c.sources|
  }

  predicate Current(c: Capture) {
    c.sender.Polling? && c.sender.at < |c.sources|
  }

  function Tagged(i: nat, frames: seq<Record>): seq<(nat, Record)> {
    seq(|frames|, k requires 0 <= k < |frames| => (i, frames[k]))
  }

  /** An empty `APC_DATA` response ends a remote capture; a local one has no such mark. */
  function EndOfCapture(typed: bool): seq<Record> {
    if typed then [Record(Tag(true), [])] else []
  }

  function Happen(c: Capture, e: Event, typed: bool): Capture
    requires CanHappen(c, e, typed)
  {
    match e
    case Produce(i, a) => c.(sources := c.sources[i := c.sources[i].(f := Do(c.sources[i].f, a, typed))])
    case MarkDone(i) => c.(sources := c.sources[i := c.sources[i].(isDone := true)])
    case PostDone(i) => c.(sources := c.sources[i := c.sources[i].(posted := true)], sem := c.sem + 1)
    case Flush => c.(sem := c.sem + 1)
    case Wake => c.(sem := c.sem - 1, sender := Scanning(0, true))
    case LoadDone => c.(sender := Polling(c.sender.next, c.sender.allDone, c.sources[c.sender.next].isDone))
    case LoadCommit =>
      var src := c.sources[c.sender.at];
      if src.f.s.ring.used == 0 then c.(sender := Scanning(c.sender.at + 1, c.sender.allDone && c.sender.done))
      else c.(sources := c.sources[c.sender.at := src.(f := Do(src.f, Consume(Load), typed))])
    case Chunk(n) =>
      var src := c.sources[c.sender.at];
      var g := Do(src.f, Consume(Send(n)), typed);
      var bytes := g.s.wire[|src.f.s.wire|..];
      c.(sources := c.sources[c.sender.at := src.(f := g)], wire := c.wire + bytes, part := c.part + bytes)
    case Finish =>
      var src := c.sources[c.sender.at];
      var upto := src.f.s.cons.upto;
      c.(sources := c.sources[c.sender.at := src.(f := Do(src.f, Consume(Release(src.f.s.cons.ahead)), typed), sent := upto)],
         sender := Scanning(c.sender.at + 1, c.sender.allDone && c.sender.done),
         log := c.log + Tagged(c.sender.at, src.f.frames[src.sent..upto]), part := [])
    case EndPass =>
      if c.sender.allDone then c.(sender := Exited, wire := c.wire + EncodedBytes(EndOfCapture(typed), typed))
      else c.(sender := Waiting)
  }

  function EncodedBytes(rs: seq<Record>, typed: bool): seq<byte>
    requires AllEncodable(rs, |Tag(typed)|)
  {
    Flatten(Encodings(rs, |Tag(typed)|))
  }

  function Logged(log: seq<(nat, Record)>): seq<Record> {
    seq(|log|, k requires 0 <= k < |log| => log[k].1)
  }

  /** The frames of source i in the log, in order. */
  function Project(log: seq<(nat, Record)>, i: nat): seq<Record> {
    if log == [] then []
    else Project(log[..|log| - 1], i) + if log[|log| - 1].0 == i then [log[|log| - 1].1] else []
  }

  predicate Drained(src: Source) {
    src.isDone && src.f.s.cons.Idle? && src.f.s.ring.used == 0
  }

  /** One source: its protocol holds, and what it put on the wire is its first `sent` frames, then the part under way. */
  ghost predicate SourceInv(src: Source, typed: bool, part: seq<byte>) {
    && FrameStream.Inv(src.f, typed)
    && (src.posted ==> src.isDone)
    && src.sent <= |src.f.frames|
    && (src.f.s.cons.Sending? ==> src.sent <= src.f.s.cons.upto)
    && src.f.s.wire == EncodedBytes(src.f.frames[..src.sent], typed) + part
  }

  ghost predicate WireInv(c: Capture, typed: bool) {
    && AllEncodable(Logged(c.log), |Tag(typed)|)
    && c.wire == EncodedBytes(Logged(c.log), typed)
             + (if c.sender.Exited? then EncodedBytes(EndOfCapture(typed), typed) else c.part)
    && (!c.sender.Polling? ==> c.part == [])
  }

  /** What the pass so far has established: sources already polled and found done are empty for good. */
  ghost predicate PassInv(c: Capture) {
    match c.sender
    case Waiting => true
    case Scanning(n, all) => n <= |c.sources| && (all ==> forall j :: 0 <= j < n ==> Drained(c.sources[j]))
    case Polling(i, all, done) =>
      && i < |c.sources|
      && (all ==> forall j :: 0 <= j < i ==> Drained(c.sources[j]))
      && (done ==> c.sources[i].isDone)
      && (done && c.sources[i].f.s.cons.Sending? ==> c.sources[i].f.s.cons.ahead == c.sources[i].f.s.ring.used)
    case Exited => forall j :: 0 <= j < |c.sources| ==> Drained(c.sources[j])
  }

  predicate AllPosted(c: Capture) {
    forall i :: 0 <= i < |c.sources| ==> c.sources[i].posted
  }

  /** With every done flag posted and no post left to take, the pass under way is one that will exit. */
  ghost predicate WakeInv(c: Capture) {
    c.sem == 0 && AllPosted(c) ==>
      match c.sender
      case Waiting => false
      case Scanning(_, all) => all
      case Polling(_, all, done) => all && done
      case Exited => true
  }

  ghost predicate Inv(c: Capture, typed: bool) {
    && |c.sources| > 0
    && (forall i :: 0 <= i < |c.sources| ==> Each(c, i, typed))
    && WireInv(c, typed)
    && PassInv(c)
    && WakeInv(c)
  }

  function PartOf(c: Capture, i: nat): seq<byte> {
    if c.sender.Polling? && c.sender.at == i then c.part else []
  }

  /** Only the source being polled has a send under way; before its load it has put nothing on the wire. */
  predicate Quiet(c: Capture, i: nat)
    requires i < |c.sources|
  {
    if c.sources[i].f.s.cons.Idle? then PartOf(c, i) == [] else c.sender.Polling? && c.sender.at == i
  }

  /** What holds of source i: the log holds, of its frames, exactly those sent. */
  ghost predicate Each(c: Capture, i: nat, typed: bool)
    requires i < |c.sources|
  {
    && SourceInv(c.sources[i], typed, PartOf(c, i))
    && Quiet(c, i)
    && Project(c.log, i) == c.sources[i].f.frames[..c.sources[i].sent]
  }

  // ---- What one access does to one source ----

  /** The producer never touches the consumer's side, and frames are only added. */
  lemma ProducerFrame(f: Stream, a: Access, typed: bool)
    requires FrameStream.Inv(f, typed) && Allowed(f, a, typed) && !a.Consume?
    ensures var g := Do(f, a, typed);
            FrameStream.Inv(g, typed) && g.s.wire == f.s.wire && g.s.cons == f.s.cons && f.frames <= g.frames
  {
    AccessKeepsInv(f, a, typed);
  }

  lemma ConsumerFrame(f: Stream, step: Step, typed: bool)
    requires FrameStream.Inv(f, typed) && Allowed(f, Consume(step), typed)
    ensures var g := Do(f, Consume(step), typed);
            FrameStream.Inv(g, typed) && g.frames == f.frames && g.s == Apply(f.s, step, SLACK)
  {
    AccessKeepsInv(f, Consume(step), typed);
  }

  lemma EncodedConcat(a: seq<Record>, b: seq<Record>, typed: bool)
    requires AllEncodable(a, |Tag(typed)|) && AllEncodable(b, |Tag(typed)|)
    ensures EncodedBytes(a + b, typed) == EncodedBytes(a, typed) + EncodedBytes(b, typed)
  {
    assert Encodings(a + b, |Tag(typed)|) == Encodings(a, |Tag(typed)|) + Encodings(b, |Tag(typed)|);
    FlattenConcat(Encodings(a, |Tag(typed)|), Encodings(b, |Tag(typed)|));
  }

  /** When a send is complete, the part on the wire is exactly the frames published before the load. */
  lemma SendCompletes(src: Source, typed: bool, part: seq<byte>)
    requires SourceInv(src, typed, part) && src.f.s.cons.Sending? && src.f.s.cons.progress == src.f.s.cons.ahead
    ensures src.f.s.cons.upto <= |src.f.frames|
    ensures part == EncodedBytes(src.f.frames[src.sent..src.f.s.cons.upto], typed)
    ensures src.f.s.wire == EncodedBytes(src.f.frames[..src.f.s.cons.upto], typed)
  {
    hide Flatten, Slice;
    var s, upto, fr := src.f.s, src.f.s.cons.upto, src.f.frames;
    FlattenSplit(s.msgs, upto);
    assert s.msgs[..upto] == Encodings(fr[..upto], |Tag(typed)|);
    CancelTail(Flatten(s.msgs[..upto]), s.wire, Flatten(s.msgs[upto..]));
    EncodedConcat(fr[..src.sent], fr[src.sent..upto], typed);
    assert fr[..src.sent] + fr[src.sent..upto] == fr[..upto];
    CancelHead(EncodedBytes(fr[..src.sent], typed), part, EncodedBytes(fr[src.sent..upto], typed));
  }

  lemma CancelTail(a: seq<byte>, b: seq<byte>, t: seq<byte>)
    requires a + t == b + t
    ensures a == b
  {
    assert |a + t| == |a| + |t| && |b + t| == |b| + |t|;
    assert a == (a + t)[..|a|] && b == (b + t)[..|b|];
  }

  lemma CancelHead(h: seq<byte>, a: seq<byte>, b: seq<byte>)
    requires h + a == h + b
    ensures a == b
  {
    assert a == (h + a)[|h|..] && b == (h + b)[|h|..];
  }

  lemma {:induction false} ProjectTagged(log: seq<(nat, Record)>, j: nat, frames: seq<Record>, i: nat)
    ensures Project(log + Tagged(j, frames), i) == Project(log, i) + if i == j then frames else []
    decreases |frames|
  {
    if frames == [] {
      assert log + Tagged(j, frames) == log;
    } else {
      var front, last := frames[..|frames| - 1], frames[|frames| - 1];
      var whole := log + Tagged(j, frames);
      assert whole[..|whole| - 1] == log + Tagged(j, front) && whole[|whole| - 1] == (j, last);
      ProjectTagged(log, j, front, i);
      assert front + [last] == frames;
    }
  }

  // ---- Every event keeps the invariant ----

  lemma ProduceKeeps(c: Capture, i: nat, a: Access, typed: bool)
    requires Inv(c, typed) && CanHappen(c, Produce(i, a), typed)
    ensures Inv(Happen(c, Produce(i, a), typed), typed)
  {
    hide FrameStream.Inv, Do, Allowed, EncodedBytes, Project;
    var src, d := c.sources[i], Happen(c, Produce(i, a), typed);
    assert Each(c, i, typed);
    ProducerFrame(src.f, a, typed);
    assert d.sources[i].f.frames[..src.sent] == src.f.frames[..src.sent];
    forall j | 0 <= j < |d.sources| ensures Each(d, j, typed) { assert Each(c, j, typed); }
  }

  lemma MarkDoneKeeps(c: Capture, i: nat, typed: bool)
    requires Inv(c, typed) && CanHappen(c, MarkDone(i), typed)
    ensures Inv(Happen(c, MarkDone(i), typed), typed)
  {
    hide FrameStream.Inv, EncodedBytes, Project;
    var d := Happen(c, MarkDone(i), typed);
    forall j | 0 <= j < |d.sources| ensures Each(d, j, typed) { assert Each(c, j, typed); }
    assert Each(c, i, typed);
    assert !d.sources[i].posted;
  }

  lemma PostDoneKeeps(c: Capture, i: nat, typed: bool)
    requires Inv(c, typed) && CanHappen(c, PostDone(i), typed)
    ensures Inv(Happen(c, PostDone(i), typed), typed)
  {
    hide FrameStream.Inv, EncodedBytes, Project;
    var d := Happen(c, PostDone(i), typed);
    forall j | 0 <= j < |d.sources| ensures Each(d, j, typed) { assert Each(c, j, typed); }
  }

  lemma PassStarts(c: Capture, e: Event, typed: bool)
    requires Inv(c, typed) && CanHappen(c, e, typed) && (e.Flush? || e.Wake?)
    ensures Inv(Happen(c, e, typed), typed)
  {
    hide FrameStream.Inv, EncodedBytes, Project;
    var d := Happen(c, e, typed);
    forall j | 0 <= j < |d.sources| ensures Each(d, j, typed) { assert Each(c, j, typed); }
  }

  lemma LoadDoneKeeps(c: Capture, typed: bool)
    requires Inv(c, typed) && CanHappen(c, LoadDone, typed)
    ensures Inv(Happen(c, LoadDone, typed), typed)
  {
    hide FrameStream.Inv, EncodedBytes, Project;
    var d := Happen(c, LoadDone, typed);
    forall j | 0 <= j < |d.sources| ensures Each(d, j, typed) { assert Each(c, j, typed); }
    assert Each(c, c.sender.next, typed);
  }

  lemma EndPassKeeps(c: Capture, typed: bool)
    requires Inv(c, typed) && CanHappen(c, EndPass, typed)
    ensures Inv(Happen(c, EndPass, typed), typed)
  {
    hide FrameStream.Inv, EncodedBytes, Project;
    var d := Happen(c, EndPass, typed);
    forall j | 0 <= j < |d.sources| ensures Each(d, j, typed) { assert Each(c, j, typed); }
    assert c.wire == EncodedBytes(Logged(c.log), typed);
  }

  lemma LoadCommitKeeps(c: Capture, typed: bool)
    requires Inv(c, typed) && CanHappen(c, LoadCommit, typed)
    ensures Inv(Happen(c, LoadCommit, typed), typed)
  {
    hide FrameStream.Inv, EncodedBytes, Project, Slice, Do, Allowed;
    var i, d := c.sender.at, Happen(c, LoadCommit, typed);
    assert Each(c, i, typed);
    ConsumerFrame(c.sources[i].f, Load, typed);
    MessagesAreFrames(c.sources[i].f, typed);
    SamePosts(c, d);
    forall j | 0 <= j < |d.sources| ensures Each(d, j, typed) { assert Each(c, j, typed); }
  }

  lemma SamePosts(c: Capture, d: Capture)
    requires |c.sources| == |d.sources|
    requires forall i :: 0 <= i < |c.sources| ==> c.sources[i].posted == d.sources[i].posted
    ensures AllPosted(c) == AllPosted(d)
  {
    if AllPosted(d) {
      forall i | 0 <= i < |c.sources| ensures c.sources[i].posted { assert d.sources[i].posted; }
    }
  }

  lemma MessagesAreFrames(f: Stream, typed: bool)
    requires FrameStream.Inv(f, typed)
    ensures |f.s.msgs| == |f.frames| && AllEncodable(f.frames, |Tag(typed)|)
  {
  }

  lemma ChunkKeeps(c: Capture, n: nat, typed: bool)
    requires Inv(c, typed) && CanHappen(c, Chunk(n), typed)
    ensures Inv(Happen(c, Chunk(n), typed), typed)
  {
    hide FrameStream.Inv, EncodedBytes, Slice, Project, Do;
    var i, d := c.sender.at, Happen(c, Chunk(n), typed);
    var src := c.sources[i];
    assert Each(c, i, typed);
    ConsumerFrame(src.f, Send(n), typed);
    MessagesAreFrames(src.f, typed);
    var bytes := d.sources[i].f.s.wire[|src.f.s.wire|..];
    assert d.sources[i].f.s.wire == src.f.s.wire + bytes;
    Reassociate(EncodedBytes(src.f.frames[..src.sent], typed), c.part, bytes);
    Reassociate(EncodedBytes(Logged(c.log), typed), c.part, bytes);
    SamePosts(c, d);
    forall j | 0 <= j < |d.sources| ensures Each(d, j, typed) { assert Each(c, j, typed); }
  }

  lemma SliceEncodable(rs: seq<Record>, a: nat, b: nat, tagLength: nat)
    requires a <= b <= |rs| && AllEncodable(rs, tagLength)
    ensures AllEncodable(rs[a..b], tagLength)
  {
  }

  /** The source being polled has had another batch logged; the others are as before. */
  lemma FinishEach(c: Capture, typed: bool, j: nat)
    requires Inv(c, typed) && CanHappen(c, Finish, typed) && j < |c.sources|
    ensures var d := Happen(c, Finish, typed); |d.sources| == |c.sources| && Each(d, j, typed)
  {
    hide FrameStream.Inv, EncodedBytes, Slice, Project, Flatten, Do, Allowed, Wrap, WireInv, WakeInv;
    var i := c.sender.at;
    var src := c.sources[i];
    var upto, fr := src.f.s.cons.upto, src.f.frames;
    var batch := fr[src.sent..upto];
    assert Each(c, i, typed) && Each(c, j, typed);
    ConsumerFrame(src.f, Release(src.f.s.cons.ahead), typed);
    SendCompletes(src, typed, c.part);
    MessagesAreFrames(src.f, typed);
    ProjectTagged(c.log, i, batch, j);
    assert fr[..src.sent] + batch == fr[..upto];
  }

  lemma FinishKeeps(c: Capture, typed: bool)
    requires Inv(c, typed) && CanHappen(c, Finish, typed)
    ensures Inv(Happen(c, Finish, typed), typed)
  {
    hide FrameStream.Inv, EncodedBytes, Slice, Project, Flatten, Do, Allowed, Wrap;
    var i, d := c.sender.at, Happen(c, Finish, typed);
    var src := c.sources[i];
    var batch := src.f.frames[src.sent..src.f.s.cons.upto];
    assert Each(c, i, typed);
    ConsumerFrame(src.f, Release(src.f.s.cons.ahead), typed);
    SendCompletes(src, typed, c.part);
    MessagesAreFrames(src.f, typed);
    SliceEncodable(src.f.frames, src.sent, src.f.s.cons.upto, |Tag(typed)|);
    assert Logged(d.log) == Logged(c.log) + batch;
    EncodedConcat(Logged(c.log), batch, typed);
    SamePosts(c, d);
    forall j | 0 <= j < |d.sources| ensures Each(d, j, typed) { FinishEach(c, typed, j); }
  }

  lemma EventKeepsInv(c: Capture, e: Event, typed: bool)
    requires Inv(c, typed) && CanHappen(c, e, typed)
    ensures Inv(Happen(c, e, typed), typed)
  {
    hide Inv;
    match e
    case Produce(i, a) => ProduceKeeps(c, i, a, typed);
    case MarkDone(i) => MarkDoneKeeps(c, i, typed);
    case PostDone(i) => PostDoneKeeps(c, i, typed);
    case Flush => PassStarts(c, e, typed);
    case Wake => PassStarts(c, e, typed);
    case LoadDone => LoadDoneKeeps(c, typed);
    case LoadCommit => LoadCommitKeeps(c, typed);
    case Chunk(n) => ChunkKeeps(c, n, typed);
    case Finish => FinishKeeps(c, typed);
    case EndPass => EndPassKeeps(c, typed);
  }

  // ---- The theorems ----

  ghost predicate Happens(c: Capture, events: seq<Event>, typed: bool, d: Capture)
    decreases |events|
  {
    if events == [] then c == d
    else CanHappen(c, events[0], typed) && Happens(Happen(c, events[0], typed), events[1..], typed, d)
  }

  /** One source per buffer size. */
  function Begun(sizes: seq<nat>): Capture {
    Capture(seq(|sizes|, i requires 0 <= i < |sizes| => NewSource(sizes[i])), 0, Waiting, [], [], [])
  }

  function NewSource(size: nat): Source { Source(FrameStream.Start(size), false, false, 0) }

  predicate SizesOk(sizes: seq<nat>) {
    |sizes| > 0 && forall i :: 0 <= i < |sizes| ==> 8192 < sizes[i] < INT32_LIMIT
  }

  lemma NewSourceInv(size: nat, typed: bool)
    requires 8192 < size < INT32_LIMIT
    ensures SourceInv(NewSource(size), typed, [])
  {
    hide Slice;
    SpscRing.StartInv(size, SLACK);
    assert EncodedBytes([], typed) == [];
    assert NewSource(size).f.frames[..0] == [];
  }

  lemma BegunInv(sizes: seq<nat>, typed: bool)
    requires SizesOk(sizes)
    ensures Inv(Begun(sizes), typed)
  {
    hide SourceInv;
    var c := Begun(sizes);
    forall i | 0 <= i < |c.sources| ensures Each(c, i, typed) { NewSourceInv(sizes[i], typed); }
    assert !c.sources[0].posted;
    assert EncodedBytes([], typed) == [];
    assert Logged(c.log) == [];
  }

  lemma {:induction false} RunKeepsInv(c: Capture, events: seq<Event>, typed: bool, d: Capture)
    requires Inv(c, typed) && Happens(c, events, typed, d)
    ensures Inv(d, typed)
    decreases |events|
  {
    hide Inv, CanHappen, Happen;
    if events != [] {
      EventKeepsInv(c, events[0], typed);
      RunKeepsInv(Happen(c, events[0], typed), events[1..], typed, d);
    }
  }

  /**
   * The sender leaves only when nothing was left behind.  In every run, once it
   * has exited every source is done and empty, the log holds each source's
   * frames complete and in order, and the host parses the one connection into
   * exactly that log followed by the end-of-capture mark.
   */
  lemma ExitDeliversAll(sizes: seq<nat>, events: seq<Event>, typed: bool, d: Capture)
    requires SizesOk(sizes)
    requires Happens(Begun(sizes), events, typed, d) && d.sender.Exited?
    ensures forall i :: 0 <= i < |d.sources| ==>
              d.sources[i].isDone && d.sources[i].f.s.ring.used == 0 && Project(d.log, i) == d.sources[i].f.frames
    ensures Parse(d.wire, |Tag(typed)|) == Logged(d.log) + EndOfCapture(typed)
  {
    hide Slice, Flatten, Parse, Project, EncodedBytes, FrameStream.Inv;
    BegunInv(sizes, typed);
    RunKeepsInv(Begun(sizes), events, typed, d);
    forall i | 0 <= i < |d.sources|
      ensures Project(d.log, i) == d.sources[i].f.frames
    {
      assert Each(d, i, typed) && Drained(d.sources[i]);
      AllSent(d.sources[i], typed);
    }
    HostHas(d, typed);
  }

  /** What the host may have whole of the send under way. */
  function UnderWay(c: Capture, typed: bool): seq<Record> {
    if c.sender.Exited? then EndOfCapture(typed)
    else if Current(c) && c.sources[c.sender.at].sent <= |c.sources[c.sender.at].f.frames|
    then c.sources[c.sender.at].f.frames[c.sources[c.sender.at].sent..]
    else []
  }

  /** At every moment the host has the log and some of the frames under way, and between sends all of that. */
  lemma HostHas(c: Capture, typed: bool)
    requires Inv(c, typed)
    ensures Parse(c.wire, |Tag(typed)|) <= Logged(c.log) + UnderWay(c, typed)
    ensures !c.sender.Polling? ==> Parse(c.wire, |Tag(typed)|) == Logged(c.log) + UnderWay(c, typed)
  {
    hide Slice, Flatten, Parse, Project, FrameStream.Inv, EncodedBytes;
    var logged, more := Logged(c.log), UnderWay(c, typed);
    var part := if c.sender.Exited? then EncodedBytes(EndOfCapture(typed), typed) else c.part;
    if Current(c) {
      assert Each(c, c.sender.at, typed);
      PartUnderWay(c.sources[c.sender.at], typed, c.part);
    } else if !c.sender.Exited? {
      assert part == [] && more == [] && EncodedBytes(more, typed) == [] by { NoneEncoded(typed); }
    }
    EncodedConcat(logged, more, typed);
    assert EncodedBytes(logged, typed) + part <= EncodedBytes(logged, typed) + EncodedBytes(more, typed);
    StreamParses(logged + more, c.wire, typed);
  }

  lemma NoneEncoded(typed: bool)
    ensures EncodedBytes([], typed) == []
  {
  }

  lemma StreamParses(rs: seq<Record>, s: seq<byte>, typed: bool)
    requires AllEncodable(rs, |Tag(typed)|) && s <= EncodedBytes(rs, typed)
    ensures Parse(s, |Tag(typed)|) <= rs && (s == EncodedBytes(rs, typed) ==> Parse(s, |Tag(typed)|) == rs)
  {
    hide Parse, Flatten;
    ParseStream(rs, s, |Tag(typed)|);
  }

  /** The part on the wire is the front of the frames not yet logged. */
  lemma PartUnderWay(src: Source, typed: bool, part: seq<byte>)
    requires SourceInv(src, typed, part)
    ensures AllEncodable(src.f.frames, |Tag(typed)|) && part <= EncodedBytes(src.f.frames[src.sent..], typed)
  {
    hide Slice, Flatten;
    var fr := src.f.frames;
    EveryRun(src.f.s, [], SLACK, src.f.s);
    EncodedConcat(fr[..src.sent], fr[src.sent..], typed);
    assert fr[..src.sent] + fr[src.sent..] == fr;
    var front := EncodedBytes(fr[..src.sent], typed);
    assert front + part <= front + EncodedBytes(fr[src.sent..], typed);
    assert part == (front + part)[|front|..];
  }

  /** A source whose ring is empty has had every frame logged. */
  lemma AllSent(src: Source, typed: bool)
    requires SourceInv(src, typed, []) && src.f.s.cons.Idle? && src.f.s.ring.used == 0
    ensures src.f.frames[..src.sent] == src.f.frames
  {
    hide Slice;
    var fr := src.f.frames;
    EveryRun(src.f.s, [], SLACK, src.f.s);
    EncodedConcat(fr[..src.sent], fr[src.sent..], typed);
    assert fr[..src.sent] + fr[src.sent..] == fr;
    EncodedSize(fr[src.sent..], typed);
  }

  lemma EncodedSize(rs: seq<Record>, typed: bool)
    requires AllEncodable(rs, |Tag(typed)|)
    ensures rs != [] ==> |EncodedBytes(rs, typed)| >= LENGTH_SIZE
  {
    if rs != [] { assert Encodings(rs, |Tag(typed)|)[0] == Encode(rs[0]); }
  }

  /**
   * No lost wake-up.  In every reachable state the sender can take a step
   * unless it has exited or waits on an empty semaphore; and that wait cannot
   * happen once every source has posted its done flag.
   */
  lemma SenderNotStuck(sizes: seq<nat>, events: seq<Event>, typed: bool, d: Capture)
    requires SizesOk(sizes) && Happens(Begun(sizes), events, typed, d)
    ensures d.sender.Exited? || (d.sender.Waiting? && d.sem == 0) || exists e :: SenderEvent(e) && CanHappen(d, e, typed)
    ensures AllPosted(d) ==> !(d.sender.Waiting? && d.sem == 0)
  {
    hide Slice, Flatten, Project, EncodedBytes, FrameStream.Inv, Happens;
    BegunInv(sizes, typed);
    RunKeepsInv(Begun(sizes), events, typed, d);
    if d.sender.Waiting? && d.sem > 0 {
      assert SenderEvent(Wake) && CanHappen(d, Wake, typed);
    } else if d.sender.Scanning? {
      var e := if d.sender.next < |d.sources| then LoadDone else EndPass;
      assert SenderEvent(e) && CanHappen(d, e, typed);
    } else if d.sender.Polling? {
      assert Each(d, d.sender.at, typed);
      PollGoesOn(d, typed);
      var e := NextPoll(d.sources[d.sender.at]);
      assert SenderEvent(e) && CanHappen(d, e, typed);
    }
  }

  predicate SenderEvent(e: Event) {
    e.Wake? || e.LoadDone? || e.LoadCommit? || e.Chunk? || e.Finish? || e.EndPass?
  }

  /** What the sender does next when it polls: the whole of what it loaded in one chunk. */
  function NextPoll(src: Source): Event {
    if src.f.s.cons.Idle? then LoadCommit
    else if src.f.s.cons.progress == src.f.s.cons.ahead then Finish
    else if src.f.s.cons.progress < src.f.s.cons.ahead then Chunk(src.f.s.cons.ahead - src.f.s.cons.progress)
    else Flush
  }

  lemma PollGoesOn(d: Capture, typed: bool)
    requires Inv(d, typed) && d.sender.Polling?
    ensures var e := NextPoll(d.sources[d.sender.at]); SenderEvent(e) && CanHappen(d, e, typed)
  {
    hide Slice, Flatten, Project, EncodedBytes;
    var src := d.sources[d.sender.at];
    assert Each(d, d.sender.at, typed);
    MessagesAreFrames(src.f, typed);
  }

  // ---- The sender does leave ----

  /** What the sender does next, with a chunk as long as it can be. */
  function Next(d: Capture): Event {
    match d.sender
    case Waiting => Wake
    case Scanning(n, _) => if n < |d.sources| then LoadDone else EndPass
    case Polling(i, _, _) => if i < |d.sources| then NextPoll(d.sources[i]) else Flush
    case Exited => Flush
  }

  lemma NextCanHappen(d: Capture, typed: bool)
    requires Inv(d, typed) && AllPosted(d) && !d.sender.Exited?
    ensures SenderEvent(Next(d)) && CanHappen(d, Next(d), typed)
  {
    hide Slice, Flatten, Project, EncodedBytes, FrameStream.Inv;
    if d.sender.Polling? {
      PollGoesOn(d, typed);
      assert d.sender.at < |d.sources|;
    }
  }

  /** The pass under way is one that will exit. */
  predicate WillExit(d: Capture) {
    match d.sender
    case Waiting => true
    case Scanning(_, all) => all
    case Polling(_, all, done) => all && done
    case Exited => true
  }

  /** The events left in the pass under way. */
  function PassLeft(d: Capture): int {
    var n := |d.sources|;
    match d.sender
    case Waiting => 4 * n + 2
    case Scanning(k, _) => 4 * (n - k) + 1
    case Polling(i, _, _) =>
      if i >= n then 0
      else
        var cons := d.sources[i].f.s.cons;
        4 * (n - i) - if cons.Idle? then 0 else if cons.progress == cons.ahead then 2 else 1
    case Exited => 0
  }

  /** The events left before the sender leaves: this pass, and one more unless this one exits. */
  function EventsLeft(d: Capture): int {
    PassLeft(d) + if WillExit(d) then 0 else 4 * |d.sources| + 2
  }

  lemma EventsLeftBound(d: Capture, typed: bool)
    requires Inv(d, typed)
    ensures 0 <= EventsLeft(d) <= 8 * |d.sources| + 3 && (!d.sender.Exited? ==> EventsLeft(d) > 0)
  {
    hide Slice, Flatten, Project, EncodedBytes, FrameStream.Inv, Each, WireInv;
  }

  /** An event of the source being polled leaves less of the pass, and the same verdict on it. */
  lemma PollComesCloser(d: Capture, typed: bool)
    requires Inv(d, typed) && Current(d) && SenderEvent(Next(d)) && CanHappen(d, Next(d), typed)
    ensures var e := Happen(d, Next(d), typed);
            |e.sources| == |d.sources| && PassLeft(e) < PassLeft(d) && WillExit(e) == WillExit(d)
    ensures forall i :: 0 <= i < |d.sources| ==> Happen(d, Next(d), typed).sources[i].posted == d.sources[i].posted
  {
    hide Slice, Flatten, Project, EncodedBytes, FrameStream.Inv, WireInv, WakeInv, Allowed, Do;
    var src := d.sources[d.sender.at];
    assert Each(d, d.sender.at, typed);
    match Next(d)
    case LoadCommit => ConsumerFrame(src.f, Load, typed);
    case Chunk(n) => ConsumerFrame(src.f, Send(n), typed);
    case Finish =>
  }

  /** Every event brings the sender closer. */
  lemma NextComesCloser(d: Capture, typed: bool)
    requires Inv(d, typed) && AllPosted(d) && !d.sender.Exited? && SenderEvent(Next(d)) && CanHappen(d, Next(d), typed)
    ensures var e := Happen(d, Next(d), typed);
            AllPosted(e) && |e.sources| == |d.sources| && EventsLeft(e) < EventsLeft(d)
  {
    hide Slice, Flatten, Project, EncodedBytes, FrameStream.Inv, WireInv, Allowed, Do;
    var e := Happen(d, Next(d), typed);
    match d.sender
    case Waiting =>
    case Scanning(n, _) => if n < |d.sources| { assert Each(d, n, typed) && d.sources[n].posted; }
    case Polling(i, _, _) =>
      PollComesCloser(d, typed);
      SamePosts(d, e);
  }

  lemma {:induction false} SenderRuns(d: Capture, typed: bool, left: nat) returns (events: seq<Event>, e: Capture)
    requires Inv(d, typed) && AllPosted(d) && EventsLeft(d) <= left
    ensures |events| <= left && (forall i :: 0 <= i < |events| ==> SenderEvent(events[i]))
    ensures Happens(d, events, typed, e) && e.sender.Exited?
    decreases left
  {
    hide Inv, CanHappen, Happen, AllPosted, Next, EventsLeft;
    EventsLeftBound(d, typed);
    if d.sender.Exited? {
      events, e := [], d;
    } else {
      NextCanHappen(d, typed);
      NextComesCloser(d, typed);
      var m := Happen(d, Next(d), typed);
      EventKeepsInv(d, Next(d), typed);
      var rest;
      rest, e := SenderRuns(m, typed, left - 1);
      events := [Next(d)] + rest;
      assert events[1..] == rest;
    }
  }

  /**
   * Once every source has posted its done flag, the sender on its own leaves
   * within eight events per source and three more: it finishes the pass under
   * way and needs at most one other.
   */
  lemma SenderLeaves(sizes: seq<nat>, events: seq<Event>, typed: bool, d: Capture) returns (rest: seq<Event>, e: Capture)
    requires SizesOk(sizes) && Happens(Begun(sizes), events, typed, d) && AllPosted(d)
    ensures |rest| <= 8 * |d.sources| + 3 && (forall i :: 0 <= i < |rest| ==> SenderEvent(rest[i]))
    ensures Happens(d, rest, typed, e) && e.sender.Exited?
  {
    hide Inv, Happens, EventsLeft, AllPosted;
    BegunInv(sizes, typed);
    RunKeepsInv(Begun(sizes), events, typed, d);
    EventsLeftBound(d, typed);
    rest, e := SenderRuns(d, typed, 8 * |d.sources| + 3);
  }
}
