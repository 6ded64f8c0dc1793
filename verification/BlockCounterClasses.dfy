/** The compressor's objects, each method proved against the functions of BlockCounter. */
module BlockCounterClasses {
  import opened Bytes
  import FrameBuffer
  import opened Leb128
  import opened Options
  import opened BlockCounter

  /** `CommitTimeChecker`: due when forced, or when the rate is set and its next time has come. */
  class CommitTimeChecker {
    const commitRate: nat
    var nextCommit: nat

    constructor (rate: nat)
      ensures commitRate == rate && nextCommit == rate
    {
      commitRate, nextCommit := rate, rate;
    }

    method Check(time: nat, force: bool) returns (due: bool)
      modifies this
      ensures (due, nextCommit) == Checked(commitRate, old(nextCommit), time, force)
    {
      if force || (commitRate > 0 && time >= nextCommit) {
        nextCommit := (time + commitRate) % UINT64_SIZE;
        return true;
      } else {
        return false;
      }
    }
  }

  function Checked(rate: nat, next: nat, time: nat, force: bool): (bool, nat) {
    if force || (rate > 0 && time >= next) then (true, (time + rate) % UINT64_SIZE) else (false, next)
  }

  /** The times at which unforced checks at `times` commit. */
  function Commits(rate: nat, next: nat, times: seq<nat>): seq<nat>
    decreases |times|
  {
    if times == [] then []
    else
      var (due, next') := Checked(rate, next, times[0], false);
      (if due then [times[0]] else []) + Commits(rate, next', times[1..])
  }

  /** An unforced commit waits for the next commit time: a whole rate after the last one, unless that sum wrapped. */
  lemma {:induction false} CommitSpacing(rate: nat, next: nat, times: seq<nat>, i: nat)
    requires i < |Commits(rate, next, times)|
    ensures var cs := Commits(rate, next, times);
            && cs[i] >= (if i == 0 then next else (cs[i - 1] + rate) % UINT64_SIZE)
            && (i > 0 && cs[i - 1] + rate < UINT64_SIZE ==> cs[i] - cs[i - 1] >= rate)
    decreases |times|
  {
    if times != [] {
      var (due, next') := Checked(rate, next, times[0], false);
      if !due {
        CommitSpacing(rate, next', times[1..], i);
      } else if i > 0 {
        CommitSpacing(rate, next', times[1..], i - 1);
      }
    }
  }

  /**
   * After a commit at `time`, forced or not, every later unforced commit is a
   * whole rate away if and only if the sum of time and rate does not wrap; when
   * it does, a check at the same time commits again.
   */
  lemma SpacingExactly(rate: nat, next: nat, time: nat, force: bool)
    requires rate < UINT64_SIZE && time < UINT64_SIZE && Checked(rate, next, time, force).0
    ensures (forall later :: time <= later < UINT64_SIZE && Checked(rate, Checked(rate, next, time, force).1, later, false).0
               ==> later >= time + rate) <==> time + rate < UINT64_SIZE
  {
    var next' := Checked(rate, next, time, force).1;
    if time + rate >= UINT64_SIZE {
      assert next' == time + rate - UINT64_SIZE <= time;
      assert Checked(rate, next', time, false).0;
    }
  }

  /** The next commit time after unforced checks at these times. */
  function NextAfter(rate: nat, next: nat, times: seq<nat>): nat
    decreases |times|
  {
    if times == [] then next else NextAfter(rate, Checked(rate, next, times[0], false).1, times[1..])
  }

  lemma {:induction false} QuietKeepsNext(rate: nat, next: nat, times: seq<nat>)
    requires Commits(rate, next, times) == []
    ensures NextAfter(rate, next, times) == next
    decreases |times|
  {
    if times != [] { QuietKeepsNext(rate, next, times[1..]); }
  }

  /**
   * After a commit at `time`, forced or not, and any checks that did not commit,
   * an unforced check commits if and only if the rate is set and the time has
   * reached that of the last commit plus the rate, in 64 bits; and before any
   * commit, if and only if it has reached the rate.
   */
  lemma DueExactly(rate: nat, next: nat, time: nat, force: bool, quiet: seq<nat>, later: nat)
    requires Checked(rate, next, time, force).0 && Commits(rate, Checked(rate, next, time, force).1, quiet) == []
    ensures Checked(rate, NextAfter(rate, Checked(rate, next, time, force).1, quiet), later, false).0
         <==> rate > 0 && later >= (time + rate) % UINT64_SIZE
    ensures Commits(rate, rate, quiet) == [] ==> (Checked(rate, NextAfter(rate, rate, quiet), later, false).0 <==> rate > 0 && later >= rate)
  {
    QuietKeepsNext(rate, Checked(rate, next, time, force).1, quiet);
    if Commits(rate, rate, quiet) == [] { QuietKeepsNext(rate, rate, quiet); }
  }

  /** `BlockCounterFrameBuilder` with the raw builder it fills: the open frame's body and the bodies ended. */
  class FrameBuilder {
    var isFrameStarted: bool
    var open: seq<byte>
    var frames: seq<seq<byte>>
    /** How often the raw builder was told to flush. */
    var flushes: nat
    const checker: CommitTimeChecker?
    ghost var model: Builder

    ghost predicate Valid()
      reads this
    {
      && TypedFrames(model.ended) && frames == FrameBodies(model.ended)
      && isFrameStarted == model.current.Some?
      && (isFrameStarted ==> TypedItems(model.current.value) && open == FrameBody(model.current.value))
      && (!isFrameStarted ==> open == [])
    }

    constructor (checker: CommitTimeChecker?)
      ensures Valid() && model == Builder(None, []) && this.checker == checker && flushes == 0
    {
      isFrameStarted, open, frames, flushes, model := false, [], [], 0, Builder(None, []);
      this.checker := checker;
    }

    method EnsureFrameStarted(available: int) returns (started: bool)
      requires Valid()
      modifies this
      ensures Valid()
      ensures started <==> old(isFrameStarted) || available >= FrameBuffer.MAX_FRAME_HEADER_SIZE + MAXSIZE_PACK32
      ensures model == if started && old(model).current.None? then old(model).(current := Some([])) else old(model)
      ensures started == isFrameStarted && flushes == old(flushes)
    {
      if isFrameStarted { return true; }
      if available < FrameBuffer.MAX_FRAME_HEADER_SIZE + MAXSIZE_PACK32 { return false; }
      open := [BLOCK_COUNTER] + Pack(0);
      isFrameStarted := true;
      model := model.(current := Some([]));
      assert open == FrameBody([]);
      return true;
    }

    /** `eventHeader`, `eventCore`, `eventTid` and `event64`: a key and a number, if there is room. */
    method Event(x: Item, room: Room) returns (ok: bool)
      requires Valid() && TypedItem(x)
      modifies this
      ensures Valid() && (model, ok) == Emit(old(model), x, room) && flushes == old(flushes)
    {
      var started := EnsureFrameStarted(room.start);
      if !started || room.item < ItemRoom(x) { return false; }
      ghost var items := model.current.value;
      open := open + Pack(ItemKey(x));
      open := open + Pack(ItemNumber(x));
      FrameBodySnoc(items, x);
      model := model.(current := Some(items + [x]));
      return true;
    }

    method EndFrame() returns (ended: bool)
      requires Valid()
      modifies this
      ensures Valid() && model == BlockCounter.EndFrame(old(model)) && ended == old(isFrameStarted) && flushes == old(flushes)
    {
      ended := isFrameStarted;
      if ended {
        frames := frames + [open];
        model := Builder(None, model.ended + [model.current.value]);
        isFrameStarted, open := false, [];
      }
    }

    /** Ends the frame, if one is open, and has the raw builder flush. */
    method Flush() returns (ended: bool)
      requires Valid()
      modifies this
      ensures Valid() && model == BlockCounter.EndFrame(old(model)) && ended == old(isFrameStarted)
      ensures flushes == old(flushes) + 1
    {
      ended := EndFrame();
      flushes := flushes + 1;
    }

    /** Whether the checker will find a frame due. */
    ghost predicate Due(time: nat, force: bool)
      reads checker
    {
      checker != null && Checked(checker.commitRate, checker.nextCommit, time, force).0
    }

    /** Ends the frame when the checker finds it due; `force` is what `needsFlush` says. */
    method Check(time: nat, force: bool) returns (ended: bool)
      requires Valid()
      modifies this, checker
      ensures Valid()
      ensures ended ==> old(isFrameStarted) && model == BlockCounter.EndFrame(old(model))
      ensures !ended ==> model == old(model)
      ensures ended <==> old(isFrameStarted && Due(time, force))
      ensures flushes == old(flushes) + if old(Due(time, force)) then 1 else 0
    {
      ended := false;
      if checker != null {
        var due := checker.Check(time, force);
        if due { ended := Flush(); }
      }
    }
  }

  lemma {:induction false} ItemsBytesSnoc(xs: seq<Item>, x: Item)
    requires TypedItems(xs) && TypedItem(x)
    ensures TypedItems(xs + [x]) && ItemsBytes(xs + [x]) == ItemsBytes(xs) + ItemBytes(x)
    decreases |xs|
  {
    var ys := xs + [x];
    if xs == [] {
      assert ys == [x] && ys[1..] == [];
    } else {
      assert ys[1..] == xs[1..] + [x];
      ItemsBytesSnoc(xs[1..], x);
    }
  }

  lemma FrameBodySnoc(xs: seq<Item>, x: Item)
    requires TypedItems(xs) && TypedItem(x)
    ensures TypedItems(xs + [x]) && FrameBody(xs + [x]) == FrameBody(xs) + Pack(ItemKey(x)) + Pack(ItemNumber(x))
  {
    hide Pack;
    ItemsBytesSnoc(xs, x);
  }

  class MessageConsumer {
    const builder: FrameBuilder
    var lastEventTime: int
    var lastEventCore: int
    var lastEventTid: int

    ghost function Model(): Consumer
      reads this, builder
    {
      Consumer(lastEventTime, lastEventCore, lastEventTid, builder.model)
    }

    constructor (builder: FrameBuilder)
      ensures this.builder == builder && lastEventTime == INVALID_TIME && lastEventCore == 0 && lastEventTid == 0
    {
      this.builder := builder;
      lastEventTime, lastEventCore, lastEventTid := INVALID_TIME, 0, 0;
    }

    method WriteTime(m: Message, room: Room) returns (ok: bool)
      requires builder.Valid() && Typed(m)
      modifies this, builder
      ensures builder.Valid() && (Model(), ok) == SetTime(old(Model()), m, room)
    {
      ok := true;
      if lastEventTime != m.time || lastEventTime == INVALID_TIME {
        ok := builder.Event(Time(m.time), room);
        if !ok { return; }
        lastEventTime := m.time;
        lastEventTid := 0;
      }
    }

    method WriteCore(m: Message, room: Room) returns (ok: bool)
      requires builder.Valid() && Typed(m)
      modifies this, builder
      ensures builder.Valid() && (Model(), ok) == SetCore(old(Model()), m, room)
    {
      ok := true;
      if lastEventCore != m.core {
        ok := builder.Event(Core(m.core), room);
        if !ok { return; }
        lastEventCore := m.core;
      }
    }

    method WriteTid(m: Message, room: Room) returns (ok: bool)
      requires builder.Valid() && Typed(m)
      modifies this, builder
      ensures builder.Valid() && (Model(), ok) == SetTid(old(Model()), m, room)
    {
      ok := true;
      if lastEventTid != m.tid {
        ok := builder.Event(Tid(m.tid), room);
        if !ok { return; }
        lastEventTid := m.tid;
      }
    }

    method WriteValue(m: Message, room: Room, force: bool) returns (ok: bool)
      requires builder.Valid() && Typed(m)
      modifies this, builder, builder.checker
      ensures builder.Valid() && (Model(), ok) == SetValue(old(Model()), m, room, old(builder.Due(m.time, force)))
    {
      ok := builder.Event(Value(m.key, m.value), room);
      if !ok { return; }
      var ended := builder.Check(m.time, force);
      if ended {
        lastEventTime := INVALID_TIME;
        lastEventCore := 0;
        lastEventTid := 0;
      }
    }

    /** The whole effect of a call is that of Send, whose runs decode to the messages accepted. */
    method ThreadCounterMessage(m: Message, rooms: Rooms, force: bool) returns (ok: bool)
      requires builder.Valid() && Typed(m)
      modifies this, builder, builder.checker
      ensures builder.Valid() && (Model(), ok) == Send(old(Model()), m, rooms, old(builder.Due(m.time, force)))
    {
      hide SetTime, SetCore, SetTid, SetValue, Checked;
      ok := WriteTime(m, rooms.time);
      if !ok { return; }
      ok := WriteCore(m, rooms.core);
      if !ok { return; }
      ok := WriteTid(m, rooms.tid);
      if !ok { return; }
      ok := WriteValue(m, rooms.value, force);
    }
  }
}
