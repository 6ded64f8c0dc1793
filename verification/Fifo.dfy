/**
 * The FIFO between a producer that fills blocks of up to `single` bytes in place
 * and a consumer that takes whatever is ready in one piece.  A block that
 * crosses the wrap threshold is left whole: its end becomes the ragged end, and
 * writing resumes at the front.
 *
 * Each method is one step, except that the producer's write is split where it
 * blocks: it publishes its block, then waits until the FIFO is not full.
 */
module Fifo {
  import opened Bytes
  import opened Options

  datatype State = State(
    single: nat,
    threshold: nat,
    buf: seq<byte>,
    write: nat,
    read: nat,
    readCommit: nat,
    raggedEnd: nat,
    end: bool
  ) {
    predicate Ok() {
      && single < threshold && |buf| == threshold + single
      && read < threshold && write < threshold
      && (raggedEnd == 0 ==> read <= write)
      && (raggedEnd != 0 ==> threshold <= raggedEnd <= |buf| && write <= read)
      && read <= readCommit <= ReadEnd()
      && (readCommit >= threshold ==> readCommit == raggedEnd)
    }

    /** Where the bytes that can be read in one piece end. */
    function ReadEnd(): nat { if raggedEnd != 0 then raggedEnd else write }

    function Filled(): int { write - read + raggedEnd }

    predicate IsEmpty() { read == write && raggedEnd == 0 }

    predicate WillFill(additional: int) {
      if write > read then Filled() + additional >= threshold
      else Filled() + additional >= threshold - single
    }

    predicate IsFull() { WillFill(0) }

    /** What was written and not yet released, oldest first. */
    function Unread(): seq<byte>
      requires Ok()
    {
      if raggedEnd == 0 then buf[read..write] else buf[read..raggedEnd] + buf[..write]
    }

    /** The cells that hold unread bytes. */
    predicate Occupied(i: nat) {
      if raggedEnd == 0 then read <= i < write else read <= i < raggedEnd || i < write
    }
  }

  // ---- The methods ----

  function Fresh(single: nat, threshold: nat): State {
    State(single, threshold, seq(threshold + single, _ => 0), 0, 0, 0, 0, false)
  }

  function Size(length: int): nat { if length <= 0 then 0 else length }

  /** A write up to the point where it waits: a length of zero or less ends the stream. */
  function Advance(f: State, length: int): State {
    var w := f.write + Size(length);
    if w >= f.threshold then f.(raggedEnd := w, write := 0, end := f.end || length <= 0)
    else f.(write := w, end := f.end || length <= 0)
  }

  /** The length handed to the consumer, if there is data or the stream has ended. */
  function Take(f: State): Option<(State, int)> {
    if f.IsEmpty() && !f.end then None
    else Some((f.(readCommit := f.ReadEnd()), f.ReadEnd() - f.read))
  }

  function Release(f: State): State {
    if f.readCommit >= f.threshold then f.(read := 0, readCommit := 0, raggedEnd := 0) else f.(read := f.readCommit)
  }

  // ---- Every run ----

  /** `held` is what the consumer saw at its last read and has not released. */
  datatype System = System(f: State, waiting: bool, held: seq<byte>, written: seq<byte>, released: seq<byte>)

  datatype Step = Store(k: nat, b: byte) | Publish(length: int) | Resume | Read | Free

  predicate Allowed(s: System, step: Step) {
    match step
    case Store(k, _) => !s.waiting && k < s.f.single
    case Publish(length) => !s.waiting && length <= s.f.single
    case Resume => s.waiting && !s.f.IsFull()
    case Read => true
    case Free => true
  }

  predicate Inv(s: System) {
    && s.f.Ok()
    && (!s.waiting ==> !s.f.IsFull())
    && s.held == s.f.buf[s.f.read..s.f.readCommit]
    && s.written == s.released + s.f.Unread()
  }

  function Apply(s: System, step: Step): System
    requires Inv(s) && Allowed(s, step)
  {
    match step
    case Store(k, b) =>
      RoomToWrite(s.f);
      s.(f := s.f.(buf := s.f.buf[s.f.write + k := b]))
    case Publish(length) =>
      RoomToWrite(s.f);
      var block := s.f.buf[s.f.write..s.f.write + Size(length)];
      s.(f := Advance(s.f, length), waiting := true, written := s.written + block)
    case Resume => s.(waiting := false)
    case Read =>
      (match Take(s.f)
       case None => s
       case Some(r) => s.(f := r.0, held := s.f.buf[s.f.read..s.f.ReadEnd()]))
    case Free => s.(f := Release(s.f), held := [], released := s.released + s.held)
  }

  /** The write pointer of a FIFO that is not full has a whole block of cells, none of them unread. */
  lemma RoomToWrite(f: State)
    requires f.Ok() && !f.IsFull()
    ensures f.write + f.single <= |f.buf|
    ensures forall i :: f.write <= i < f.write + f.single ==> !f.Occupied(i)
    ensures f.raggedEnd != 0 ==> f.write + f.single < f.read
  {
  }

  /** The free cells in one piece at the write pointer. */
  function Gap(f: State): int { if f.raggedEnd != 0 then f.read - f.write else |f.buf| - f.write }

  /**
   * Full is not the same as having less than a block in one piece.  A FIFO
   * without a ragged end is never full; with one it is full exactly when the
   * gap is at most a block plus what the last block reaches past the threshold.
   */
  lemma FullExactly(f: State)
    requires f.Ok()
    ensures f.IsFull() <==> f.raggedEnd != 0 && Gap(f) <= f.single + (f.raggedEnd - f.threshold)
    ensures Gap(f) < f.single ==> f.IsFull()
    ensures f.IsFull() && Gap(f) >= f.single <==> f.raggedEnd != 0 && f.single <= Gap(f) <= f.single + (f.raggedEnd - f.threshold)
  {
  }

  /** The two ways in which the forecast is wrong: a write that wraps, and a first write that does not. */
  predicate Misjudged(f: State, length: nat) {
    && f.raggedEnd == 0
    && (if f.write > f.read
        then f.write + length >= f.threshold && f.threshold - f.single <= f.Filled() + length < f.threshold
        else f.write + length < f.threshold && f.threshold - f.single <= length)
  }

  /** Asking whether a write will fill the FIFO forecasts what the write leaves, except in exactly those two cases. */
  lemma ForecastExactly(f: State, length: nat)
    requires f.Ok() && !f.IsFull() && 0 < length <= f.single
    ensures f.WillFill(length) == Advance(f, length).IsFull() <==> !Misjudged(f, length)
  {
    RoomToWrite(f);
  }

  /** Once everything is released the FIFO is not full. */
  lemma DrainedNotFull(f: State)
    requires f.Ok() && f.Unread() == []
    ensures !f.IsFull() && f.IsEmpty()
  {
    assert |f.Unread()| == 0;
  }

  lemma StoreKeeps(f: State, k: nat, b: byte)
    requires f.Ok() && !f.IsFull() && k < f.single
    ensures f.write + k < |f.buf|
    ensures var g := f.(buf := f.buf[f.write + k := b]);
            g.Ok() && !g.IsFull() && g.Unread() == f.Unread() && g.buf[g.read..g.readCommit] == f.buf[f.read..f.readCommit]
  {
    RoomToWrite(f);
    var g := f.(buf := f.buf[f.write + k := b]);
    assert g.buf[..g.write] == f.buf[..f.write];
    assert g.buf[g.read..g.ReadEnd()] == f.buf[f.read..f.ReadEnd()];
    assert g.buf[g.read..g.readCommit] == f.buf[f.read..f.readCommit];
  }

  lemma AdvanceOk(f: State, length: int)
    requires f.Ok() && !f.IsFull() && length <= f.single
    ensures Advance(f, length).Ok()
  {
    RoomToWrite(f);
  }

  lemma Cut(b: seq<byte>, i: nat, j: nat, k: nat)
    requires i <= j <= k <= |b|
    ensures b[i..k] == b[i..j] + b[j..k]
  {
  }

  lemma AdvanceFlat(f: State, length: int)
    requires f.Ok() && f.raggedEnd == 0 && f.write + Size(length) <= |f.buf| && Advance(f, length).Ok()
    ensures Advance(f, length).Unread() == f.Unread() + f.buf[f.write..f.write + Size(length)]
  {
    var w := f.write + Size(length);
    Cut(f.buf, f.read, f.write, w);
    if w >= f.threshold { assert f.buf[f.read..w] + f.buf[..0] == f.buf[f.read..w]; }
  }

  lemma AdvanceRagged(f: State, length: int)
    requires f.Ok() && f.raggedEnd != 0 && f.write + Size(length) < f.threshold && Advance(f, length).Ok()
    ensures Advance(f, length).Unread() == f.Unread() + f.buf[f.write..f.write + Size(length)]
  {
    var w := f.write + Size(length);
    Cut(f.buf, 0, f.write, w);
    var front, tail, block := f.buf[f.read..f.raggedEnd], f.buf[..f.write], f.buf[f.write..w];
    assert f.buf[..w] == tail + block;
    assert front + (tail + block) == (front + tail) + block;
  }

  lemma AdvanceKeeps(f: State, length: int)
    requires f.Ok() && !f.IsFull() && length <= f.single
    ensures f.write + f.single <= |f.buf| && Advance(f, length).Ok()
    ensures Advance(f, length).Unread() == f.Unread() + f.buf[f.write..f.write + Size(length)]
  {
    RoomToWrite(f);
    AdvanceOk(f, length);
    hide State.IsFull, State.Unread, Advance;
    if f.raggedEnd != 0 { AdvanceRagged(f, length); } else { AdvanceFlat(f, length); }
  }

  lemma ReleaseKeeps(f: State)
    requires f.Ok()
    ensures Release(f).Ok() && (!f.IsFull() ==> !Release(f).IsFull())
    ensures f.Unread() == f.buf[f.read..f.readCommit] + Release(f).Unread()
  {
    var g := Release(f);
    if f.readCommit < f.threshold {
      assert f.buf[f.read..f.ReadEnd()] == f.buf[f.read..f.readCommit] + f.buf[f.readCommit..f.ReadEnd()];
    } else {
      assert g.buf[0..g.write] == f.buf[..f.write];
    }
  }

  lemma PublishIs(s: System, length: int)
    requires Inv(s) && Allowed(s, Publish(length))
    ensures s.f.write + Size(length) <= |s.f.buf|
    ensures var block := s.f.buf[s.f.write..s.f.write + Size(length)];
            Apply(s, Publish(length)) == System(Advance(s.f, length), true, s.held, s.written + block, s.released)
  {
    RoomToWrite(s.f);
    hide State.Unread, State.Ok, State.IsFull, Advance;
  }

  lemma PublishKeepsInv(s: System, length: int)
    requires Inv(s) && Allowed(s, Publish(length))
    ensures Inv(Apply(s, Publish(length)))
  {
    hide Apply, State.Unread, State.Ok, State.IsFull, Advance, Size;
    PublishIs(s, length);
    AdvanceKeeps(s.f, length);
    AdvanceHolds(s.f, length);
    var block := s.f.buf[s.f.write..s.f.write + Size(length)];
    assert (s.released + s.f.Unread()) + block == s.released + (s.f.Unread() + block);
  }

  lemma AdvanceHolds(f: State, length: int)
    requires f.Ok() && !f.IsFull() && length <= f.single
    ensures var g := Advance(f, length); g.buf == f.buf && g.read == f.read && g.readCommit == f.readCommit
  {
  }

  lemma FreeKeepsInv(s: System)
    requires Inv(s)
    ensures Inv(Apply(s, Free))
  {
    ReleaseKeeps(s.f);
    ReleaseHolds(s.f);
    hide State.Unread, State.Ok, State.IsFull, Release;
    var g := Release(s.f);
    assert g.buf[g.read..g.readCommit] == [];
    assert s.released + (s.held + g.Unread()) == (s.released + s.held) + g.Unread();
  }

  lemma ReleaseHolds(f: State)
    requires f.Ok()
    ensures var g := Release(f); g.read == g.readCommit <= |g.buf|
  {
  }

  lemma TakeKeeps(f: State)
    requires f.Ok() && Take(f).Some?
    ensures var (g, length) := Take(f).value;
            && g.Ok() && g.Unread() == f.Unread() && (g.IsFull() <==> f.IsFull())
            && g.buf == f.buf && g.read == f.read && g.readCommit == f.ReadEnd()
            && length == g.readCommit - g.read >= 0
  {
    var g := f.(readCommit := f.ReadEnd());
    assert g.Ok();
  }

  lemma ReadKeepsInv(s: System)
    requires Inv(s)
    ensures Inv(Apply(s, Read))
  {
    if Take(s.f).Some? { TakeKeeps(s.f); }
    hide State.Unread, State.Ok, State.IsFull, Take;
  }

  lemma StoreKeepsInv(s: System, k: nat, b: byte)
    requires Inv(s) && Allowed(s, Store(k, b))
    ensures Inv(Apply(s, Store(k, b)))
  {
    StoreKeeps(s.f, k, b);
    hide State.Unread, State.Ok, State.IsFull;
  }

  lemma StepKeepsInv(s: System, step: Step)
    requires Inv(s) && Allowed(s, step)
    ensures Inv(Apply(s, step))
  {
    match step
    case Store(k, b) => StoreKeepsInv(s, k, b);
    case Publish(length) => PublishKeepsInv(s, length);
    case Resume =>
    case Read => ReadKeepsInv(s);
    case Free => FreeKeepsInv(s);
  }

  ghost predicate Runs(s: System, steps: seq<Step>, t: System)
    requires Inv(s)
    decreases |steps|
  {
    if steps == [] then t == s
    else
      && Allowed(s, steps[0])
      && (StepKeepsInv(s, steps[0]); Runs(Apply(s, steps[0]), steps[1..], t))
  }

  function Start(single: nat, threshold: nat): System { System(Fresh(single, threshold), false, [], [], []) }

  lemma StartInv(single: nat, threshold: nat)
    requires single < threshold
    ensures Inv(Start(single, threshold))
  {
  }

  lemma {:induction false} RunKeepsInv(s: System, steps: seq<Step>, t: System)
    requires Inv(s) && Runs(s, steps, t)
    ensures Inv(t)
    decreases |steps|
  {
    if steps != [] {
      StepKeepsInv(s, steps[0]);
      RunKeepsInv(Apply(s, steps[0]), steps[1..], t);
    }
  }

  /**
   * In every run, with blocks of up to `single` bytes and any order of reads
   * and releases: what was released, followed by what is unread, is exactly
   * what was written; what the consumer holds is still the next part of it; a
   * producer that is not waiting has a whole block of free cells.
   */
  lemma EveryRun(single: nat, threshold: nat, steps: seq<Step>, t: System)
    requires single < threshold
    requires (StartInv(single, threshold); Runs(Start(single, threshold), steps, t))
    ensures t.f.Ok() && t.written == t.released + t.f.Unread()
    ensures t.released <= t.written && t.released + t.held <= t.written
    ensures !t.waiting ==> t.f.write + t.f.single <= |t.f.buf| && forall i :: t.f.write <= i < t.f.write + t.f.single ==> !t.f.Occupied(i)
  {
    StartInv(single, threshold);
    RunKeepsInv(Start(single, threshold), steps, t);
    if !t.waiting { RoomToWrite(t.f); }
    HeldIsFront(t.f);
    Prepended(t.released, t.held, t.f.Unread());
  }

  lemma Prepended(a: seq<byte>, b: seq<byte>, c: seq<byte>)
    requires b <= c
    ensures a <= a + c && a + b <= a + c
  {
    assert a + c == (a + b) + c[|b|..];
  }

  /** What a read handed out is the front of what is unread. */
  lemma HeldIsFront(f: State)
    requires f.Ok()
    ensures f.buf[f.read..f.readCommit] <= f.Unread()
  {
    Cut(f.buf, f.read, f.readCommit, f.ReadEnd());
  }

  /** Some run leads here. */
  ghost predicate Reachable(single: nat, threshold: nat, t: System)
    requires single < threshold
  {
    StartInv(single, threshold);
    exists steps :: Runs(Start(single, threshold), steps, t)
  }

  lemma {:induction false} RunsSnoc(s: System, steps: seq<Step>, t: System, last: Step)
    requires Inv(s) && Runs(s, steps, t) && Inv(t) && Allowed(t, last)
    ensures Runs(s, steps + [last], Apply(t, last))
    decreases |steps|
  {
    hide Inv, Allowed, Apply;
    if steps == [] {
      StepKeepsInv(t, last);
      assert [last][1..] == [];
    } else {
      StepKeepsInv(s, steps[0]);
      RunsSnoc(Apply(s, steps[0]), steps[1..], t, last);
      assert (steps + [last])[1..] == steps[1..] + [last];
    }
  }

  lemma ReachStep(single: nat, threshold: nat, t: System, step: Step)
    requires single < threshold && Reachable(single, threshold, t) && Inv(t) && Allowed(t, step)
    ensures Inv(Apply(t, step)) && Reachable(single, threshold, Apply(t, step))
  {
    hide Inv, Allowed, Apply, Start;
    StartInv(single, threshold);
    var steps :| Runs(Start(single, threshold), steps, t);
    RunsSnoc(Start(single, threshold), steps, t, step);
    StepKeepsInv(t, step);
  }

  /** A block written at `at`, the rest of the FIFO empty, taken and released. */
  lemma WriteAndDrain(t: System, at: nat) returns (u: System)
    requires Reachable(4, 10, t) && Inv(t) && !t.waiting && at <= 4
    requires t.f.(buf := []) == State(4, 10, [], at, at, at, 0, false)
    ensures Reachable(4, 10, u) && Inv(u) && !u.waiting
    ensures u.f.(buf := []) == State(4, 10, [], at + 4, at + 4, at + 4, 0, false)
  {
    hide Reachable;
    ReachStep(4, 10, t, Publish(4));
    var t1 := Apply(t, Publish(4));
    ReachStep(4, 10, t1, Resume);
    var t2 := Apply(t1, Resume);
    ReachStep(4, 10, t2, Read);
    var t3 := Apply(t2, Read);
    ReachStep(4, 10, t3, Free);
    u := Apply(t3, Free);
  }

  /** With blocks of 4 and a threshold of 10, a run that leaves the FIFO full with 7 free cells in one piece. */
  lemma FullWithRoom() returns (t: System)
    ensures Reachable(4, 10, t) && t.f.Ok() && t.f.IsFull() && Gap(t.f) == 7
  {
    hide Reachable;
    var t0 := Start(4, 10);
    assert Reachable(4, 10, t0) by { StartReachable(); }
    var t1 := WriteAndDrain(t0, 0);
    var t2 := WriteAndDrain(t1, 4);
    ReachStep(4, 10, t2, Publish(1));
    var t3 := Apply(t2, Publish(1));
    ReachStep(4, 10, t3, Resume);
    var t4 := Apply(t3, Resume);
    ReachStep(4, 10, t4, Publish(4));
    var t5 := Apply(t4, Publish(4));
    ReachStep(4, 10, t5, Resume);
    var t6 := Apply(t5, Resume);
    ReachStep(4, 10, t6, Publish(1));
    t := Apply(t6, Publish(1));
  }

  /** Both wrong forecasts happen: a full FIFO not foreseen, and a foreseen one that is not full. */
  lemma ForecastWrong() returns (t: System)
    ensures Reachable(4, 10, t) && t.f.Ok() && !t.f.IsFull() && !t.f.WillFill(3) && Advance(t.f, 3).IsFull()
    ensures var f := Start(4, 6).f; f.Ok() && !f.IsFull() && f.WillFill(2) && !Advance(f, 2).IsFull()
  {
    hide Reachable;
    StartReachable();
    var t0 := WriteAndDrain(Start(4, 10), 0);
    ReachStep(4, 10, t0, Publish(4));
    var t1 := Apply(t0, Publish(4));
    ReachStep(4, 10, t1, Resume);
    t := Apply(t1, Resume);
  }

  lemma StartReachable()
    ensures Reachable(4, 10, Start(4, 10)) && Inv(Start(4, 10))
  {
    StartInv(4, 10);
    hide Inv, Start;
    assert Runs(Start(4, 10), [], Start(4, 10));
  }

  /** A write of zero bytes or less was among the steps. */
  ghost predicate Ended(steps: seq<Step>) { exists i :: 0 <= i < |steps| && IsEnd(steps[i]) }

  predicate IsEnd(step: Step) { step.Publish? && step.length <= 0 }

  lemma {:induction false} RunEnds(s: System, steps: seq<Step>, t: System)
    requires Inv(s) && Runs(s, steps, t)
    ensures t.f.end <==> s.f.end || Ended(steps)
    decreases |steps|
  {
    hide Inv, State.Unread;
    if steps != [] {
      StepKeepsInv(s, steps[0]);
      RunEnds(Apply(s, steps[0]), steps[1..], t);
      if Ended(steps[1..]) {
        var i :| 0 <= i < |steps[1..]| && IsEnd(steps[1..][i]);
        assert IsEnd(steps[i + 1]);
      }
      if i :| 0 <= i < |steps| && IsEnd(steps[i]) && i > 0 { assert IsEnd(steps[1..][i - 1]); }
      assert Apply(s, steps[0]).f.end == (s.f.end || IsEnd(steps[0]));
    }
  }

  /**
   * In every run a read is given nothing at all exactly when everything written
   * has been released and no write has ended the stream, and zero bytes exactly
   * when everything has been released and one has.
   */
  lemma ReadAnswers(single: nat, threshold: nat, steps: seq<Step>, t: System)
    requires single < threshold && Inv(Start(single, threshold)) && Runs(Start(single, threshold), steps, t)
    ensures Take(t.f).None? <==> t.written == t.released && !Ended(steps)
    ensures Take(t.f).Some? && Take(t.f).value.1 == 0 <==> t.written == t.released && Ended(steps)
  {
    RunKeepsInv(Start(single, threshold), steps, t);
    RunEnds(Start(single, threshold), steps, t);
    assert t.written == t.released <==> t.f.Unread() == [] by { assert |t.written| == |t.released| + |t.f.Unread()|; }
  }

  function Round(s: System): System
    requires Inv(s)
  {
    StepKeepsInv(s, Read);
    Apply(Apply(s, Read), Free)
  }

  lemma RoundLeaves(f: State)
    requires f.Ok()
    ensures var g := Release(if Take(f).Some? then Take(f).value.0 else f);
            g.raggedEnd == 0 && (f.raggedEnd == 0 ==> g.IsEmpty())
  {
  }

  lemma RoundKeepsInv(s: System)
    requires Inv(s)
    ensures var t := Round(s);
            Inv(t) && t.written == s.written && t.f.raggedEnd == 0 && (s.f.raggedEnd == 0 ==> t.f.IsEmpty())
  {
    ReadKeepsInv(s);
    FreeKeepsInv(Apply(s, Read));
    RoundLeaves(s.f);
    hide Inv, Take, Release, State.IsEmpty;
  }

  /** Two read-and-release rounds with nothing written in between empty the FIFO and let the producer go on. */
  lemma TwoRoundsDrain(s: System)
    requires Inv(s)
    ensures Inv(Round(s)) && Inv(Round(Round(s)))
    ensures var t := Round(Round(s)); t.f.Unread() == [] && t.released == s.written && !t.f.IsFull()
  {
    hide Round;
    RoundKeepsInv(s);
    RoundKeepsInv(Round(s));
    DrainedNotFull(Round(Round(s)).f);
  }

  // ---- The FIFO in place ----

  class Fifo {
    const single: nat
    const threshold: nat
    var write: nat
    var read: nat
    var readCommit: nat
    var raggedEnd: nat
    var end: bool
    const buf: array<byte>

    ghost function AsState(): State
      reads this, buf
    {
      State(single, threshold, buf[..], write, read, readCommit, raggedEnd, end)
    }

    constructor (single: nat, threshold: nat)
      ensures AsState() == Fresh(single, threshold) && fresh(buf)
    {
      this.single, this.threshold := single, threshold;
      buf := new byte[threshold + single](_ => 0);
      write, read, readCommit, raggedEnd, end := 0, 0, 0, 0, false;
      new;
      assert buf[..] == seq(threshold + single, _ => 0);
    }

    predicate WillFill(additional: int)
      reads this
      ensures WillFill(additional) == AsState().WillFill(additional)
      ensures AsState().Ok() && additional == 0 ==>
        (WillFill(additional) <==> raggedEnd != 0 && read - write <= single + (raggedEnd - threshold))
    {
      var filled := write - read + raggedEnd;
      if write > read then !(filled + additional < threshold) else !(filled + additional < threshold - single)
    }

    /** Publishes a block and returns where the next one goes, which is safe to fill once `full` is false. */
    method Write(size: int) returns (position: nat, full: bool)
      requires AsState().Ok() && !AsState().IsFull() && size <= single
      modifies this
      ensures AsState() == Advance(old(AsState()), size) && AsState().Ok()
      ensures position == write && full == AsState().IsFull()
      ensures AsState().Unread() == old(AsState().Unread()) + old(buf[write..])[..Size(size)]
    {
      ghost var f := AsState();
      AdvanceKeeps(f, size);
      hide State.Unread, State.Ok, State.WillFill;
      var length := size;
      if length <= 0 {
        length := 0;
        end := true;
      }
      write := write + length;
      if write >= threshold {
        raggedEnd := write;
        write := 0;
      }
      assert AsState() == Advance(f, size);
      assert buf[..][f.write..f.write + Size(size)] == f.buf[f.write..][..Size(size)];
      position, full := write, WillFill(0);
    }

    /** Gives the consumer everything that lies in one piece; null when there is nothing and more may come. */
    method Read() returns (found: bool, position: nat, length: int)
      requires AsState().Ok()
      modifies this`readCommit
      ensures found == Take(old(AsState())).Some?
      ensures found ==> AsState() == Take(old(AsState())).value.0 && position == read && 0 <= length <= |AsState().Unread()|
      ensures found ==> length == (if raggedEnd != 0 then raggedEnd else write) - read
      ensures found ==> position + length <= buf.Length && buf[position..position + length] == old(AsState().Unread())[..length]
      ensures !found ==> AsState() == old(AsState()) && AsState().Unread() == []
    {
      ghost var f := AsState();
      if read == write && raggedEnd == 0 && !end { return false, 0, 0; }
      TakeKeeps(f);
      readCommit := if raggedEnd != 0 then raggedEnd else write;
      found, position, length := true, read, readCommit - read;
      assert f.Unread()[..length] == f.buf[read..readCommit];
    }

    /** Frees what the last read handed out. */
    method ReleaseRead()
      requires AsState().Ok()
      modifies this
      ensures AsState() == Release(old(AsState())) && AsState().Ok()
      ensures old(AsState().Unread()) == old(buf[read..readCommit]) + AsState().Unread()
    {
      ReleaseKeeps(AsState());
      read := readCommit;
      if read >= threshold { raggedEnd, read, readCommit := 0, 0, 0; }
    }
  }
}
