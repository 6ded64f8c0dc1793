/**
 * A byte ring between one producer and one consumer, as a state machine.
 *
 * Both `Buffer` in the daemon and the per-thread ring of the annotation client
 * have this shape.  The producer claims room beyond the commit position, stores
 * bytes there in any order, and publishes a message by moving the commit
 * position.  The consumer loads the commit position, hands bytes to a
 * transport in chunks of any size, and gives the room back by moving the read
 * position.  Every step is one access to shared state, so runs of the machine
 * are the interleavings of the two sides.
 *
 * Only the read position is kept as a position.  The others are kept as their
 * distances from it, which is how both sides use them.
 */
module SpscRing {
  import opened Bytes
  import opened Rings

  /** `used` bytes are published and not released; the producer may store in the `claimed` cells after them. */
  datatype Ring = Ring(buf: seq<byte>, read: nat, used: nat, claimed: nat) {

    /** At least `slack` cells stay free, so a full ring is never taken for an empty one. */
    predicate Ok(slack: nat) {
      0 < slack && read < |buf| && used + claimed + slack <= |buf|
    }

    function Commit(): nat
      requires read < |buf| && used <= |buf|
    {
      Wrap(read + used, |buf|)
    }

    /** The bytes from offset `from` past the read position up to the commit position. */
    function Rest(from: nat): seq<byte>
      requires read < |buf| && from <= used <= |buf|
    {
      Slice(buf, Wrap(read + from, |buf|), used - from)
    }

    /** The first n bytes past the commit position. */
    function Open(n: nat): seq<byte>
      requires read < |buf| && used <= |buf| && n <= |buf|
    {
      Slice(buf, Commit(), n)
    }
  }

  /** `ahead` is the distance to the commit position loaded, `upto` the messages published then, `progress` the bytes handed over since. */
  datatype Consumer = Idle | Sending(ahead: nat, upto: nat, progress: nat)

  datatype State = State(ring: Ring, msgs: seq<seq<byte>>, wire: seq<byte>, cons: Consumer) {
    function Progress(): nat {
      if cons.Idle? then 0 else cons.progress
    }
  }

  datatype Step =
    | Claim(size: nat)
    | Store(offset: nat, value: byte)
    | Publish(length: nat)
    | Abandon
    | Load
    | Send(count: nat)
    | Release(count: nat)
    | Skip

  predicate Enabled(s: State, step: Step, slack: nat) {
    match step
    case Claim(n) => s.ring.claimed <= n && s.ring.used + n + slack <= |s.ring.buf|
    case Store(k, b) => k < s.ring.claimed
    case Publish(n) => n <= s.ring.claimed
    case Abandon => true
    case Load => s.cons.Idle?
    case Send(n) => s.cons.Sending? && s.cons.progress + n <= s.cons.ahead <= s.ring.used
    case Release(n) => s.cons.Sending? && n <= s.cons.progress <= s.cons.ahead <= s.ring.used
    case Skip => s.cons.Sending? && s.cons.ahead <= s.ring.used && s.cons.upto <= |s.msgs|
  }

  function Released(r: Ring, count: nat, slack: nat): Ring
    requires r.Ok(slack) && count <= r.used
  {
    r.(read := Wrap(r.read + count, |r.buf|), used := r.used - count)
  }

  function Published(r: Ring, length: nat, slack: nat): Ring
    requires r.Ok(slack) && length <= r.claimed
  {
    r.(used := r.used + length, claimed := 0)
  }

  function Stored(r: Ring, k: nat, b: byte, slack: nat): Ring
    requires r.Ok(slack) && k < r.claimed
  {
    r.(buf := r.buf[Wrap(r.Commit() + k, |r.buf|) := b])
  }

  /**
   * `Release` keeps the rest of the loaded stretch; when none is left the
   * consumer is idle again.  `Skip` drops what was loaded and starts a fresh
   * transport: it will carry what was published after the load.
   */
  function Apply(s: State, step: Step, slack: nat): State
    requires s.ring.Ok(slack) && Enabled(s, step, slack)
  {
    var r, n := s.ring, |s.ring.buf|;
    match step
    case Claim(size) => s.(ring := r.(claimed := size))
    case Store(k, b) => s.(ring := Stored(r, k, b, slack))
    case Publish(length) =>
      s.(ring := Published(r, length, slack), msgs := s.msgs + [r.Open(length)])
    case Abandon => s.(ring := r.(claimed := 0))
    case Load => s.(cons := Sending(r.used, |s.msgs|, 0))
    case Send(count) =>
      s.(wire := s.wire + Slice(r.buf, Wrap(r.read + s.cons.progress, n), count),
         cons := s.cons.(progress := s.cons.progress + count))
    case Release(count) =>
      s.(ring := Released(r, count, slack),
         cons := if count == s.cons.ahead then Idle
                 else Sending(s.cons.ahead - count, s.cons.upto, s.cons.progress - count))
    case Skip =>
      s.(ring := Released(r, s.cons.ahead, slack),
         msgs := s.msgs[s.cons.upto..], wire := [], cons := Idle)
  }

  /**
   * What is on the wire, then what the ring holds past it, is every message
   * published; and the loaded position is the end of message `upto`.
   */
  ghost predicate Inv(s: State, slack: nat) {
    && s.ring.Ok(slack)
    && Loaded(s.ring, s.msgs, s.cons)
    && Conserved(s.ring, s.msgs, s.wire, s.Progress())
  }

  ghost predicate Conserved(r: Ring, msgs: seq<seq<byte>>, wire: seq<byte>, progress: nat)
    requires r.read < |r.buf| && r.used <= |r.buf|
  {
    progress <= r.used && Flatten(msgs) == wire + r.Rest(progress)
  }

  ghost predicate Loaded(r: Ring, msgs: seq<seq<byte>>, cons: Consumer)
    requires r.read < |r.buf| && r.used <= |r.buf|
  {
    cons.Sending? ==>
      && cons.progress <= cons.ahead <= r.used
      && cons.upto <= |msgs|
      && Flatten(msgs[cons.upto..]) == r.Rest(cons.ahead)
  }

  /** A store past the commit position changes nothing between the read and commit positions. */
  lemma StoreMissesPublished(r: Ring, k: nat, b: byte, slack: nat, from: nat)
    requires r.Ok(slack) && k < r.claimed && from <= r.used
    ensures Stored(r, k, b, slack).Rest(from) == r.Rest(from)
  {
    var n := |r.buf|;
    WrapWrap(r.read, from, r.used - from + k, n);
    WrapWrap(r.read, r.used, k, n);
    SliceStore(r.buf, Wrap(r.read + from, n), r.used - from, r.used - from + k, b);
  }

  /** Publishing appends the open bytes to whatever tail of the ring one looks at. */
  lemma PublishExtends(r: Ring, length: nat, slack: nat, from: nat)
    requires r.Ok(slack) && length <= r.claimed && from <= r.used
    ensures Published(r, length, slack).Rest(from) == r.Rest(from) + r.Open(length)
  {
    SliceSplit(r.buf, Wrap(r.read + from, |r.buf|), r.used - from, length);
    WrapWrap(r.read, from, r.used - from, |r.buf|);
  }

  lemma RestSplit(r: Ring, from: nat, count: nat, slack: nat)
    requires r.Ok(slack) && from + count <= r.used
    ensures r.Rest(from) == Slice(r.buf, Wrap(r.read + from, |r.buf|), count) + r.Rest(from + count)
  {
    SliceSplit(r.buf, Wrap(r.read + from, |r.buf|), count, r.used - from - count);
    WrapWrap(r.read, from, count, |r.buf|);
  }

  lemma ReleaseKeepsRest(r: Ring, count: nat, slack: nat, from: nat)
    requires r.Ok(slack) && count <= from <= r.used
    ensures Released(r, count, slack).Rest(from - count) == r.Rest(from)
  {
    WrapWrap(r.read, count, from - count, |r.buf|);
  }

  lemma StoreKeepsInv(s: State, k: nat, b: byte, slack: nat)
    requires Inv(s, slack) && Enabled(s, Store(k, b), slack)
    ensures Inv(Apply(s, Store(k, b), slack), slack)
  {
    StoreMissesPublished(s.ring, k, b, slack, s.Progress());
    if s.cons.Sending? { StoreMissesPublished(s.ring, k, b, slack, s.cons.ahead); }
  }

  lemma PublishKeepsInv(s: State, length: nat, slack: nat)
    requires Inv(s, slack) && Enabled(s, Publish(length), slack)
    ensures Inv(Apply(s, Publish(length), slack), slack)
  {
    PublishConserves(s.ring, s.msgs, s.wire, s.Progress(), length, slack);
    if s.cons.Sending? { PublishKeepsLoaded(s.ring, s.msgs, s.cons, length, slack); }
  }

  lemma PublishConserves(r: Ring, msgs: seq<seq<byte>>, wire: seq<byte>, p: nat, length: nat, slack: nat)
    requires r.Ok(slack) && Conserved(r, msgs, wire, p) && length <= r.claimed
    ensures Conserved(Published(r, length, slack), msgs + [r.Open(length)], wire, p)
  {
    var m := r.Open(length);
    FlattenSnoc(msgs, m);
    PublishExtends(r, length, slack, p);
    assert wire + (r.Rest(p) + m) == (wire + r.Rest(p)) + m;
  }

  lemma PublishKeepsLoaded(r: Ring, msgs: seq<seq<byte>>, cons: Consumer, length: nat, slack: nat)
    requires r.Ok(slack) && cons.Sending? && Loaded(r, msgs, cons) && length <= r.claimed
    ensures Loaded(Published(r, length, slack), msgs + [r.Open(length)], cons)
  {
    var m := r.Open(length);
    PublishExtends(r, length, slack, cons.ahead);
    assert (msgs + [m])[cons.upto..] == msgs[cons.upto..] + [m];
    FlattenSnoc(msgs[cons.upto..], m);
  }

  lemma SendKeepsInv(s: State, count: nat, slack: nat)
    requires Inv(s, slack) && Enabled(s, Send(count), slack)
    ensures Inv(Apply(s, Send(count), slack), slack)
  {
    SendConserves(s.ring, s.msgs, s.wire, s.cons.progress, count, slack);
  }

  lemma SendConserves(r: Ring, msgs: seq<seq<byte>>, wire: seq<byte>, p: nat, count: nat, slack: nat)
    requires r.Ok(slack) && Conserved(r, msgs, wire, p) && p + count <= r.used
    ensures Conserved(r, msgs, wire + Slice(r.buf, Wrap(r.read + p, |r.buf|), count), p + count)
  {
    var chunk := Slice(r.buf, Wrap(r.read + p, |r.buf|), count);
    RestSplit(r, p, count, slack);
    assert (wire + chunk) + r.Rest(p + count) == wire + (chunk + r.Rest(p + count));
  }

  lemma ReleaseKeepsInv(s: State, count: nat, slack: nat)
    requires Inv(s, slack) && Enabled(s, Release(count), slack)
    ensures Inv(Apply(s, Release(count), slack), slack)
  {
    ReleaseKeepsRest(s.ring, count, slack, s.cons.progress);
    ReleaseKeepsRest(s.ring, count, slack, s.cons.ahead);
  }

  lemma LoadKeepsInv(s: State, slack: nat)
    requires Inv(s, slack) && Enabled(s, Load, slack)
    ensures Inv(Apply(s, Load, slack), slack)
  {
    assert s.msgs[|s.msgs|..] == [];
  }

  lemma SkipKeepsInv(s: State, slack: nat)
    requires Inv(s, slack) && Enabled(s, Skip, slack)
    ensures Inv(Apply(s, Skip, slack), slack)
  {
    ReleaseKeepsRest(s.ring, s.cons.ahead, slack, s.cons.ahead);
  }

  lemma ClaimKeepsInv(s: State, size: nat, slack: nat)
    requires Inv(s, slack) && Enabled(s, Claim(size), slack)
    ensures Inv(Apply(s, Claim(size), slack), slack)
  {
  }

  lemma AbandonKeepsInv(s: State, slack: nat)
    requires Inv(s, slack)
    ensures Inv(Apply(s, Abandon, slack), slack)
  {
  }

  /** Every access by either side keeps the invariant. */
  lemma StepKeepsInv(s: State, step: Step, slack: nat)
    requires Inv(s, slack) && Enabled(s, step, slack)
    ensures Inv(Apply(s, step, slack), slack)
  {
    match step
    case Claim(size) => ClaimKeepsInv(s, size, slack);
    case Store(k, b) => StoreKeepsInv(s, k, b, slack);
    case Publish(length) => PublishKeepsInv(s, length, slack);
    case Abandon => AbandonKeepsInv(s, slack);
    case Load => LoadKeepsInv(s, slack);
    case Send(count) => SendKeepsInv(s, count, slack);
    case Release(count) => ReleaseKeepsInv(s, count, slack);
    case Skip => SkipKeepsInv(s, slack);
  }

  /** `t` is reached from `s` by taking `steps`, each enabled when taken. */
  ghost predicate Runs(s: State, steps: seq<Step>, slack: nat, t: State)
    decreases |steps|
  {
    if steps == [] then s == t
    else s.ring.Ok(slack) && Enabled(s, steps[0], slack) && Runs(Apply(s, steps[0], slack), steps[1..], slack, t)
  }

  function Start(size: nat): State {
    State(Ring(seq(size, _ => 0), 0, 0, 0), [], [], Idle)
  }

  /**
   * Ring safety over every interleaving: in each reachable state at least
   * `slack` cells are free, so equal positions mean empty, and the bytes handed
   * over followed by those still held are the published messages in order.
   */
  lemma {:induction false} EveryRun(s: State, steps: seq<Step>, slack: nat, t: State)
    requires Inv(s, slack) && Runs(s, steps, slack, t)
    ensures Inv(t, slack)
    ensures t.ring.read == t.ring.Commit() <==> t.ring.used == 0
    ensures t.wire <= Flatten(t.msgs)
    ensures t.cons.Idle? && t.ring.read == t.ring.Commit() ==> t.wire == Flatten(t.msgs)
    decreases |steps|
  {
    if steps != [] {
      StepKeepsInv(s, steps[0], slack);
      EveryRun(Apply(s, steps[0], slack), steps[1..], slack, t);
    }
  }

  lemma StartInv(size: nat, slack: nat)
    requires 0 < slack <= size
    ensures Inv(Start(size), slack)
  {
    assert Start(size).ring.Rest(0) == [];
  }
}
