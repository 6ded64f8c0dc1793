/**
 * One core's PMU: the sampler of that core initialises, starts and stops it,
 * while any number of threads enable and disable sampling.
 *
 * Each step is one shared access.  The sampler's call is cut at every atomic
 * load, store and compare-and-swap and at every PMU command; the results of
 * the PMU driver and of the header are inputs of its steps.
 */
module Pmu {
  import opened Options

  datatype Target = Uninitialized | ShouldStart | ShouldStop | Started | Stopped

  datatype InitState = NotInit | Initializing | Initialized

  datatype Command = Start | Stop

  /** Where the sampler is.  `current` is its copy of the core's state. */
  datatype Pc =
    | Idle
    | Loop(current: Target)
    | InitLoop(current: Target, seen: InitState)
    | Match(current: Target)
    | PmuInit(current: Target)
    | WriteSettings(current: Target)
    | MarkInit(current: Target)
    | MarkNotInit
    | MarkUninitialized
    | CheckInit(current: Target)
    | Change(current: Target)
    | Issue(command: Command)
    | Returned(state: Target)
    | Write(counters: nat)

  /** An enable or disable call: its copy of a state it has to change, or its result. */
  datatype Change = Trying(current: Target, start: bool) | Answered(ok: bool, start: bool)

  datatype Core = Core(
    maxCounters: nat,
    state: Target,
    init: InitState,
    counters: nat,
    header: Option<nat>,
    issued: Option<Command>,
    pc: Pc,
    changes: seq<Change>,
    records: seq<nat>
  )

  predicate Pending(t: Target) { t == ShouldStart || t == ShouldStop }

  predicate Settled(t: Target) { t == Started || t == Stopped }

  /** What a sample turns a pending state into, and the command that goes with it. */
  function Goal(t: Target): Target { if t == ShouldStart then Started else Stopped }

  function CommandFor(t: Target): Command { if t == ShouldStart then Start else Stop }

  // ---- The sampler ----

  /** What the outside world answers at the sampler's next step; `sampled` unless the sample comes too soon after the last. */
  datatype Answer = Answer(spurious: bool, found: bool, setup: int, stored: bool, sampled: bool)

  function SamplerStep(c: Core, a: Answer): Core {
    match c.pc
    case Idle => c.(pc := Loop(c.state))
    case Loop(current) =>
      if Pending(current) then c.(pc := InitLoop(current, c.init)) else c.(pc := Returned(current))
    case InitLoop(current, seen) =>
      (match seen
       case Initializing => c.(pc := Returned(current))
       case Initialized => c.(pc := CheckInit(current))
       case NotInit =>
         // The loop repeats when the exchange succeeds and leaves when it fails.
         if c.init == NotInit && !a.spurious then c.(init := Initializing) else c.(pc := Match(current)))
    case Match(current) => c.(pc := if a.found then PmuInit(current) else MarkNotInit)
    case PmuInit(current) =>
      if a.setup < 0 then c.(pc := MarkNotInit)
      else c.(counters := if a.setup < c.maxCounters then a.setup else c.maxCounters, pc := WriteSettings(current))
    case WriteSettings(current) =>
      if !a.stored || c.header.GetOr(0) > 0 then c.(pc := MarkNotInit)
      else c.(header := Some(c.counters), pc := MarkInit(current))
    case MarkInit(current) => c.(init := Initialized, pc := CheckInit(current))
    case MarkNotInit => c.(init := NotInit, pc := MarkUninitialized)
    case MarkUninitialized => c.(state := Uninitialized, pc := Returned(Uninitialized))
    case CheckInit(current) => c.(pc := if c.init == Initialized then Change(current) else Returned(current))
    case Change(current) =>
      if c.state == current then c.(state := Goal(current), pc := Issue(CommandFor(current)))
      else c.(pc := Loop(c.state))
    case Issue(command) => c.(issued := Some(command), pc := Returned(if command == Start then Started else Stopped))
    case Returned(state) =>
      if state == Started && c.counters > 0 && a.sampled then c.(pc := Write(c.counters)) else c.(pc := Idle)
    case Write(counters) => c.(records := c.records + [counters], pc := Idle)
  }

  // ---- Enable and disable ----

  /** Whether the state must change, is already as wanted, or cannot change. */
  datatype Verdict = MustChange | AsWanted | Invalid

  function Wanted(current: Target, start: bool): Verdict {
    if start then
      (if current == ShouldStart || current == Started then AsWanted else MustChange)
    else if current == ShouldStart || current == Started then MustChange
    else if current == Uninitialized then Invalid
    else AsWanted
  }

  function Aim(start: bool): Target { if start then ShouldStart else ShouldStop }

  /** What a call does with the state it has just seen. */
  function Decide(seen: Target, start: bool): Change {
    match Wanted(seen, start)
    case AsWanted => Answered(true, start)
    case Invalid => Answered(false, start)
    case MustChange => Trying(seen, start)
  }

  function ChangeStep(c: Core, i: nat): Core
    requires i < |c.changes|
  {
    match c.changes[i]
    case Answered(_, _) => c
    case Trying(current, start) =>
      if c.state == current then c.(state := Aim(start), changes := c.changes[i := Answered(true, start)])
      else c.(changes := c.changes[i := Decide(c.state, start)])
  }

  // ---- Every interleaving ----

  datatype Step = Sample(answer: Answer) | Ask(start: bool) | Turn(call: nat)

  predicate Allowed(c: Core, step: Step) { step.Turn? ==> step.call < |c.changes| }

  function Apply(c: Core, step: Step): Core
    requires Allowed(c, step)
  {
    match step
    case Sample(a) => SamplerStep(c, a)
    case Ask(start) => c.(changes := c.changes + [Decide(c.state, start)])
    case Turn(i) => ChangeStep(c, i)
  }

  function Fresh(maxCounters: nat): Core {
    Core(maxCounters, Uninitialized, NotInit, 0, None, None, Idle, [], [])
  }

  /** The last command issued is the one the settled state stands for. */
  predicate Agrees(c: Core) {
    (c.state == Started ==> c.issued == Some(Start)) && (c.state == Stopped ==> c.issued == Some(Stop))
  }

  /** What holds at each control point of the sampler. */
  predicate PcOk(c: Core) {
    match c.pc
    case Loop(_) => true
    case InitLoop(current, seen) =>
      && Pending(current) && seen != Initializing
      && (seen == Initialized <==> c.init == Initialized) && (c.init == Initializing ==> seen == NotInit)
    case Match(current) => Pending(current) && c.init != Initialized
    case PmuInit(current) => Pending(current) && c.init != Initialized
    case WriteSettings(current) => Pending(current) && c.init != Initialized
    case MarkInit(current) => Pending(current) && c.init != Initialized && c.header == Some(c.counters)
    case MarkNotInit => c.init != Initialized
    case MarkUninitialized => c.init != Initialized
    case CheckInit(current) => Pending(current) && c.init == Initialized
    case Change(current) => Pending(current) && c.init == Initialized
    case Issue(command) => c.init == Initialized
    case Returned(state) => state == Started ==> c.init == Initialized
    case Write(n) => c.init == Initialized && n == c.counters > 0
    case Idle => true
  }

  /** Between settling the state and issuing the command only that command is due. */
  predicate Commanded(c: Core) {
    if c.pc.Issue? then Settled(c.state) ==> c.state == (if c.pc.command == Start then Started else Stopped)
    else Agrees(c)
  }

  predicate Inv(c: Core) {
    && PcOk(c)
    && Commanded(c)
    && (Settled(c.state) ==> c.init == Initialized)
    && (c.pc.Loop? && Settled(c.pc.current) ==> c.init == Initialized)
    && (c.init == Initializing ==> !(c.pc.Idle? || c.pc.Loop? || c.pc.Returned? || c.pc.MarkUninitialized?))
    && (c.init == Initialized ==> c.header == Some(c.counters))
    && (forall i :: 0 <= i < |c.records| ==> c.header == Some(c.records[i]) && c.records[i] > 0)
    && (c.records != [] ==> c.init == Initialized)
  }

  /** The sampler is between looking at the initialisation state and settling it. */
  predicate InInit(pc: Pc) {
    pc.InitLoop? || pc.Match? || pc.PmuInit? || pc.WriteSettings? || pc.MarkInit? || pc.MarkNotInit? || pc.MarkUninitialized?
  }

  lemma InitKeepsInv(c: Core, a: Answer)
    requires Inv(c) && InInit(c.pc)
    ensures Inv(SamplerStep(c, a))
  {
  }

  lemma RestKeepsInv(c: Core, a: Answer)
    requires Inv(c) && !InInit(c.pc)
    ensures Inv(SamplerStep(c, a))
  {
  }

  lemma ChangeKeepsInv(c: Core, i: nat)
    requires Inv(c) && i < |c.changes|
    ensures Inv(ChangeStep(c, i))
  {
  }

  /** Once initialised, a core stays initialised, with the same counters in its header. */
  lemma StepKeepsInv(c: Core, step: Step)
    requires Inv(c) && Allowed(c, step)
    ensures Inv(Apply(c, step))
    ensures c.init == Initialized ==> Apply(c, step).init == Initialized && Apply(c, step).header == c.header
  {
    match step
    case Sample(a) => if InInit(c.pc) { InitKeepsInv(c, a); } else { RestKeepsInv(c, a); }
    case Ask(_) =>
    case Turn(i) => ChangeKeepsInv(c, i);
  }

  ghost predicate Runs(c: Core, steps: seq<Step>, d: Core)
    decreases |steps|
  {
    if steps == [] then d == c else Allowed(c, steps[0]) && Runs(Apply(c, steps[0]), steps[1..], d)
  }

  lemma {:induction false} RunKeepsInv(c: Core, steps: seq<Step>, d: Core)
    requires Inv(c) && Runs(c, steps, d)
    ensures Inv(d) && (c.init == Initialized ==> d.init == Initialized && d.header == c.header)
    decreases |steps|
  {
    if steps != [] {
      StepKeepsInv(c, steps[0]);
      RunKeepsInv(Apply(c, steps[0]), steps[1..], d);
    }
  }

  /**
   * In every interleaving: a started or stopped core is initialised and stays
   * so; whenever the sampler is not running, started or stopped is what the
   * last PMU command said; every sample record was written after the core's
   * settings reached the header and has as many counters as they have.
   */
  lemma EveryInterleaving(maxCounters: nat, before: seq<Step>, c: Core, after: seq<Step>, d: Core)
    requires Runs(Fresh(maxCounters), before, c) && Runs(c, after, d)
    ensures Settled(c.state) ==> c.init == Initialized && d.init == Initialized && d.header == c.header
    ensures c.pc.Idle? ==> Agrees(c)
    ensures forall i :: 0 <= i < |c.records| ==> c.header == Some(c.records[i]) && c.records[i] > 0
    ensures c.pc.Write? ==> c.header == Some(c.pc.counters)
  {
    RunKeepsInv(Fresh(maxCounters), before, c);
    RunKeepsInv(c, after, d);
  }

  // ---- A sample on its own ----

  function Sampling(c: Core, a: Answer, n: nat): Core
    decreases n
  {
    if n == 0 then c else Sampling(SamplerStep(c, a), a, n - 1)
  }

  /** The driver and the header accept the settings, or have done so before. */
  predicate Accepts(c: Core, a: Answer) {
    c.init == Initialized || (a.found && a.setup >= 0 && a.stored && c.header.GetOr(0) == 0)
  }

  /** From the initialisation check to the return of the sampler's transition. */
  lemma ChangeReturns(c: Core, a: Answer)
    requires c.pc == CheckInit(c.state) && Pending(c.state) && c.init == Initialized
    ensures var d := Sampling(c, a, 3);
            && d.pc == Returned(Goal(c.state)) && d.state == Goal(c.state) && d.issued == Some(CommandFor(c.state))
            && d.init == Initialized && d.counters == c.counters && d.records == c.records
  {
    var c1 := SamplerStep(c, a);
    var c2 := SamplerStep(c1, a);
    assert Sampling(c, a, 3) == Sampling(c1, a, 2) == Sampling(c2, a, 1) == Sampling(SamplerStep(c2, a), a, 0);
  }

  /** From finding the core uninitialised to the initialisation check. */
  lemma InitReturns(c: Core, a: Answer)
    requires c.pc == Match(c.state) && Pending(c.state) && Accepts(c, a) && c.init != Initialized
    ensures var d := Sampling(c, a, 4);
            && d.pc == CheckInit(c.state) && d.state == c.state && d.init == Initialized
            && d.counters == (if a.setup < c.maxCounters then a.setup else c.maxCounters) && d.records == c.records
  {
    var c1 := SamplerStep(c, a);
    var c2 := SamplerStep(c1, a);
    var c3 := SamplerStep(c2, a);
    assert Sampling(c, a, 4) == Sampling(c1, a, 3) == Sampling(c2, a, 2) == Sampling(c3, a, 1) == Sampling(SamplerStep(c3, a), a, 0);
  }

  lemma {:induction false} SamplingAdds(c: Core, a: Answer, m: nat, n: nat)
    ensures Sampling(c, a, m + n) == Sampling(Sampling(c, a, m), a, n)
    decreases m
  {
    if m > 0 { SamplingAdds(SamplerStep(c, a), a, m - 1, n); }
  }

  /**
   * Left alone, a sample on a core that should start or stop initialises it if
   * need be, settles the state and issues the matching command, in at most
   * eleven steps, however the initialisation loop's exchange behaves.
   */
  lemma SampleSettles(c: Core, a: Answer) returns (n: nat)
    requires Inv(c) && c.pc == Idle && Pending(c.state) && Accepts(c, a)
    ensures n <= 11
    ensures var d := Sampling(c, a, n);
            && d.init == Initialized
            && (c.state == ShouldStart ==> d.pc == Returned(Started) && d.state == Started && d.issued == Some(Start))
            && (c.state == ShouldStop ==> d.pc == Returned(Stopped) && d.state == Stopped && d.issued == Some(Stop))
            && d.records == c.records
            && d.counters == (if c.init == Initialized then c.counters else if a.setup < c.maxCounters then a.setup else c.maxCounters)
  {
    var c1 := SamplerStep(c, a);
    var c2 := SamplerStep(c1, a);
    var c3 := SamplerStep(c2, a);
    assert Sampling(c, a, 3) == Sampling(c1, a, 2) == Sampling(c2, a, 1) == Sampling(c3, a, 0);
    n := 6;
    var m := c3;
    if c.init != Initialized {
      n := 10;
      if c3.pc.InitLoop? {
        m := SamplerStep(c3, a);
        n := 11;
        SamplingAdds(c, a, 3, 1);
        assert Sampling(c3, a, 1) == Sampling(m, a, 0);
      }
      InitReturns(m, a);
      SamplingAdds(c, a, n - 7, 4);
      m := Sampling(m, a, 4);
    }
    ChangeReturns(m, a);
    SamplingAdds(c, a, n - 3, 3);
  }

  /** A driver or a header that does not accept them: the core is left uninitialised. */
  lemma SampleFails(c: Core, a: Answer) returns (n: nat)
    requires Inv(c) && c.pc == Idle && Pending(c.state) && !Accepts(c, a)
    ensures n <= 9
    ensures var d := Sampling(c, a, n);
            && d.pc == Returned(Uninitialized) && d.state == Uninitialized && d.init == NotInit
            && d.records == c.records && d.issued == c.issued
  {
    var c1 := SamplerStep(c, a);
    var c2 := SamplerStep(c1, a);
    var c3 := SamplerStep(c2, a);
    assert Sampling(c, a, 3) == Sampling(c1, a, 2) == Sampling(c2, a, 1) == Sampling(c3, a, 0);
    n := 3;
    var m := c3;
    if c3.pc.InitLoop? {
      m := SamplerStep(c3, a);
      n := 4;
      SamplingAdds(c, a, 3, 1);
      assert Sampling(c3, a, 1) == Sampling(m, a, 0);
    }
    var k := MatchFails(m, a);
    SamplingAdds(c, a, n, k);
    n := n + k;
  }

  lemma MatchFails(c: Core, a: Answer) returns (n: nat)
    requires c.pc == Match(c.state) && !Accepts(c, a)
    ensures n <= 5
    ensures var d := Sampling(c, a, n);
            && d.pc == Returned(Uninitialized) && d.state == Uninitialized && d.init == NotInit
            && d.records == c.records && d.issued == c.issued
  {
    var c1 := SamplerStep(c, a);
    var c2 := SamplerStep(c1, a);
    var c3 := SamplerStep(c2, a);
    var c4 := SamplerStep(c3, a);
    var c5 := SamplerStep(c4, a);
    assert Sampling(c, a, 3) == Sampling(c1, a, 2) == Sampling(c2, a, 1) == Sampling(c3, a, 0);
    assert Sampling(c, a, 4) == Sampling(c1, a, 3) == Sampling(c2, a, 2) == Sampling(c3, a, 1) == Sampling(c4, a, 0);
    assert Sampling(c, a, 5) == Sampling(c1, a, 4) == Sampling(c2, a, 3) == Sampling(c3, a, 2) == Sampling(c4, a, 1) == Sampling(c5, a, 0);
    n := if !a.found then 3 else if a.setup < 0 then 4 else 5;
  }

  /** From the return of the transition: a record if the core is started and there is something to record. */
  lemma RecordWritten(c: Core, a: Answer) returns (n: nat)
    requires c.pc == Returned(c.state)
    ensures n <= 2
    ensures Sampling(c, a, n)
         == c.(pc := Idle, records := c.records + if c.state == Started && c.counters > 0 && a.sampled then [c.counters] else [])
  {
    var c1 := SamplerStep(c, a);
    var c2 := SamplerStep(c1, a);
    assert Sampling(c, a, 1) == Sampling(c1, a, 0);
    assert Sampling(c, a, 2) == Sampling(c1, a, 1) == Sampling(c2, a, 0);
    if c1.pc.Idle? {
      assert c.records + [] == c.records;
      n := 1;
    } else {
      n := 2;
    }
  }

  /** What an undisturbed sample makes of a core. */
  predicate Sampled(c: Core, a: Answer, d: Core) {
    && d.pc == Idle
    && match c.state {
         case ShouldStart => if Accepts(c, a) then d.state == Started && d.issued == Some(Start) else d.state == Uninitialized && d.issued == c.issued
         case ShouldStop => if Accepts(c, a) then d.state == Stopped && d.issued == Some(Stop) else d.state == Uninitialized && d.issued == c.issued
         case _ => d.state == c.state && d.issued == c.issued && d.counters == c.counters
       }
    && (Pending(c.state) && Accepts(c, a) ==>
          d.counters == if c.init == Initialized then c.counters else if a.setup < c.maxCounters then a.setup else c.maxCounters)
    && d.records == c.records + if d.state == Started && d.counters > 0 && a.sampled then [d.counters] else []
  }

  /**
   * Left alone, every sample returns within thirteen steps.  It settles a core
   * that should start or stop when the driver and the header accept it, with
   * the matching command, and leaves it uninitialised otherwise; and it writes
   * exactly one record when the core is then started, has counters and the
   * sample is not skipped for coming too soon, and none otherwise.
   */
  lemma SampleAlone(c: Core, a: Answer) returns (n: nat)
    requires Inv(c) && c.pc == Idle
    ensures n <= 13 && Sampled(c, a, Sampling(c, a, n))
  {
    var k: nat;
    if !Pending(c.state) {
      var c1 := SamplerStep(c, a);
      var c2 := SamplerStep(c1, a);
      assert Sampling(c, a, 2) == Sampling(c1, a, 1) == Sampling(c2, a, 0);
      k := 2;
    } else if Accepts(c, a) {
      k := SampleSettles(c, a);
    } else {
      k := SampleFails(c, a);
    }
    var m := RecordWritten(Sampling(c, a, k), a);
    SamplingAdds(c, a, k, m);
    n := k + m;
  }

  // ---- Enabling and disabling ----

  predicate Starting(t: Target) { t == ShouldStart || t == Started }

  predicate Stopping(t: Target) { t == ShouldStop || t == Stopped }

  /** Calls under way have a state to change, and enabling has never been refused. */
  predicate Answers(c: Core) {
    forall i :: 0 <= i < |c.changes| ==>
      match c.changes[i]
      case Trying(current, start) => if start then !Starting(current) else Starting(current)
      case Answered(ok, start) => start ==> ok
  }

  /** A call answers at this step. */
  predicate AnswersNow(c: Core, d: Core, i: nat) {
    i < |d.changes| && d.changes[i].Answered? && (i < |c.changes| ==> c.changes[i].Trying?)
  }

  /** What an answer says about the core at the access that gives it. */
  predicate AnswerTrue(c: Core, d: Core, i: nat)
    requires i < |d.changes| && d.changes[i].Answered?
  {
    if d.changes[i].start then d.changes[i].ok && Starting(d.state)
    else if d.changes[i].ok then c.state != Uninitialized && Stopping(d.state)
    else c.state == d.state == Uninitialized
  }

  lemma StepAnswers(c: Core, step: Step)
    requires Answers(c) && Allowed(c, step)
    ensures var d := Apply(c, step);
            && Answers(d)
            && (forall i :: AnswersNow(c, d, i) ==> AnswerTrue(c, d, i))
            && (!step.Sample? && d.state != c.state ==> exists i :: AnswersNow(c, d, i))
  {
    var d := Apply(c, step);
    if step.Turn? && d.state != c.state { assert AnswersNow(c, d, step.call); }
  }

  lemma {:induction false} RunAnswers(c: Core, steps: seq<Step>, d: Core)
    requires Answers(c) && Runs(c, steps, d)
    ensures Answers(d)
    decreases |steps|
  {
    if steps != [] {
      StepAnswers(c, steps[0]);
      RunAnswers(Apply(c, steps[0]), steps[1..], d);
    }
  }

  /**
   * In every run: enabling always succeeds, and at the access that answers it
   * the core is to be started or started.  Disabling succeeds exactly when the
   * state seen is not the uninitialised one, and the core is then to be stopped
   * or stopped; when it fails nothing has changed.  A call changes the state
   * only when it answers.
   */
  lemma EveryAnswer(maxCounters: nat, before: seq<Step>, c: Core, step: Step)
    requires Runs(Fresh(maxCounters), before, c) && Allowed(c, step)
    ensures var d := Apply(c, step);
            && (forall i :: 0 <= i < |c.changes| && c.changes[i].Answered? && c.changes[i].start ==> c.changes[i].ok)
            && (forall i :: AnswersNow(c, d, i) ==> AnswerTrue(c, d, i))
            && (!step.Sample? && d.state != c.state ==> exists i :: AnswersNow(c, d, i))
  {
    RunAnswers(Fresh(maxCounters), before, c);
    StepAnswers(c, step);
  }

  /** A call on its own: the load, and one exchange if the state has to change. */
  function AskAlone(c: Core, start: bool): Core {
    var d := Apply(c, Ask(start));
    if d.changes[|c.changes|].Trying? then Apply(d, Turn(|c.changes|)) else d
  }

  lemma AskAnswers(c: Core, start: bool)
    requires Inv(c) && c.pc == Idle
    ensures var d := AskAlone(c, start);
            && |d.changes| == |c.changes| + 1 && d.changes[|c.changes|] == Answered(start || c.state != Uninitialized, start)
            && Inv(d) && d == c.(state := d.state, changes := d.changes)
            && (if start then Starting(d.state) else if c.state == Uninitialized then d.state == Uninitialized else Stopping(d.state))
  {
    var d := Apply(c, Ask(start));
    StepKeepsInv(c, Ask(start));
    if d.changes[|c.changes|].Trying? { StepKeepsInv(d, Turn(|c.changes|)); }
  }

  /**
   * Enabling, then an undisturbed sample that the driver and the header accept:
   * the core is started, the last command is the one to start, and exactly one
   * record is written if there are counters and it is not skipped.  Disabling an
   * initialised core, then such a sample: it is stopped and nothing is written.
   */
  lemma AskThenSample(maxCounters: nat, before: seq<Step>, c: Core, start: bool, a: Answer) returns (n: nat)
    requires Runs(Fresh(maxCounters), before, c) && c.pc == Idle && Accepts(c, a) && (!start ==> c.state != Uninitialized)
    ensures n <= 13
    ensures var d := Sampling(AskAlone(c, start), a, n);
            && d.pc == Idle && d.state == (if start then Started else Stopped) && d.issued == Some(if start then Start else Stop)
            && d.records == c.records + if start && d.counters > 0 && a.sampled then [d.counters] else []
  {
    RunKeepsInv(Fresh(maxCounters), before, c);
    AskAnswers(c, start);
    n := SampleAlone(AskAlone(c, start), a);
  }
}
