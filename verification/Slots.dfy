/**
 * Raising the header's last timestamp and adding task and mmap records to it,
 * from any number of concurrent calls.  A compare-and-swap loop raises the
 * timestamp; another claims a slot, which is then filled in.
 *
 * A call is one execution of a function that does either.  Each step is one
 * access of one call to the header, the filling of a claimed slot being one; a
 * weak compare-and-swap may fail although the value matches.
 */
module Slots {
  import opened Options

  /**
   * What a call does: a task record claims a slot and raises the timestamp, an
   * mmap record raises it before claiming as well, and every other record only
   * raises it.
   */
  datatype Kind = Task | Mmap | Other

  datatype Entry = Entry(kind: Kind, table: nat, timestamp: nat, payload: int)

  /** `filled` is the slot filled in before this raising of the timestamp, if any. */
  datatype Pc =
    | LoadStamp(filled: Option<nat>)
    | Stamp(current: nat, filled: Option<nat>)
    | LoadCount
    | Claim(index: nat)
    | Fill(slot: nat)
    | Done(slot: nat)
    | Refused
    | Updated

  datatype Call = Call(entry: Entry, pc: Pc)

  /** `claims` lists the calls that took a slot, in order. */
  datatype Table = Table(count: nat, max: nat, records: map<nat, Entry>, claims: seq<nat>)

  /** `completed` lists the timestamps of the updates that have left their loop. */
  datatype Header = Header(tables: seq<Table>, last: nat, calls: seq<Call>, completed: seq<nat>)

  datatype Step = Begin(entry: Entry) | Turn(call: nat, spurious: bool)

  predicate Returned(pc: Pc) { pc.Done? || pc.Refused? || pc.Updated? }

  predicate Allowed(h: Header, step: Step) {
    match step
    case Begin(entry) => entry.table < |h.tables|
    case Turn(i, _) => i < |h.calls| && !Returned(h.calls[i].pc) && h.calls[i].entry.table < |h.tables|
  }

  /** The next control point after the timestamp loop. */
  function AfterStamp(entry: Entry, filled: Option<nat>): Pc {
    match filled
    case Some(slot) => Done(slot)
    case None => if entry.kind == Mmap then LoadCount else Updated
  }

  function Apply(h: Header, step: Step): Header
    requires Allowed(h, step)
  {
    match step
    case Begin(entry) => h.(calls := h.calls + [Call(entry, if entry.kind == Task then LoadCount else LoadStamp(None))])
    case Turn(i, spurious) =>
      var entry, t := h.calls[i].entry, h.tables[h.calls[i].entry.table];
      match h.calls[i].pc
      case LoadStamp(filled) => Goto(h, i, Stamp(h.last, filled))
      case Stamp(current, filled) =>
        if current >= entry.timestamp then Complete(h, i, filled)
        else if h.last == current && !spurious then Complete(h.(last := entry.timestamp), i, filled)
        else Goto(h, i, Stamp(h.last, filled))
      case LoadCount => Goto(h, i, Claim(t.count))
      case Claim(index) =>
        if index >= t.max then Goto(h, i, Refused)
        else if t.count == index && !spurious then
          SetTable(Goto(h, i, Fill(index)), entry.table, t.(count := index + 1, claims := t.claims + [i]))
        else Goto(h, i, Claim(t.count))
      case Fill(slot) =>
        SetTable(Goto(h, i, LoadStamp(Some(slot))), entry.table, t.(records := t.records[slot := entry]))
      case _ => h
  }

  /** The timestamp loop ends. */
  function Complete(h: Header, i: nat, filled: Option<nat>): Header
    requires i < |h.calls|
  {
    var entry := h.calls[i].entry;
    Goto(h, i, AfterStamp(entry, filled)).(completed := h.completed + [entry.timestamp])
  }

  function Goto(h: Header, i: nat, pc: Pc): Header
    requires i < |h.calls|
  {
    h.(calls := h.calls[i := h.calls[i].(pc := pc)])
  }

  function SetTable(h: Header, k: nat, t: Table): Header
    requires k < |h.tables|
  {
    h.(tables := h.tables[k := t])
  }

  // ---- What every step keeps ----

  /** Every slot below the count was claimed once. */
  predicate TableOk(h: Header, k: nat)
    requires k < |h.tables|
  {
    var t := h.tables[k];
    && t.count == |t.claims| <= t.max
    && (forall slot :: slot in t.records ==> slot < t.count)
  }

  predicate Owns(t: Table, slot: nat, call: nat) { slot < |t.claims| && t.claims[slot] == call }

  /** The slot is this call's and holds its record. */
  predicate Holds(t: Table, slot: nat, call: nat, entry: Entry) {
    Owns(t, slot, call) && slot in t.records && t.records[slot] == entry
  }

  /** The call has completed an update. */
  predicate HasStamped(c: Call) {
    match c.pc
    case LoadStamp(filled) => c.entry.kind == Mmap && filled.Some?
    case Stamp(_, filled) => c.entry.kind == Mmap && filled.Some?
    case Done(_) => true
    case Updated => true
    case _ => c.entry.kind == Mmap
  }

  predicate CallOk(h: Header, i: nat)
    requires i < |h.calls|
  {
    var entry := h.calls[i].entry;
    && entry.table < |h.tables|
    && (HasStamped(h.calls[i]) ==> entry.timestamp in h.completed)
    && var t := h.tables[entry.table];
       match h.calls[i].pc
       case LoadStamp(filled) => filled.Some? ==> Holds(t, filled.value, i, entry)
       case Stamp(current, filled) => current <= h.last && (filled.Some? ==> Holds(t, filled.value, i, entry))
       case LoadCount => true
       case Claim(index) => index <= t.count
       case Fill(slot) => Owns(t, slot, i) && slot !in t.records
       case Done(slot) => Holds(t, slot, i, entry)
       case Refused => t.count == t.max
       case Updated => true
  }

  predicate Inv(h: Header) {
    && (forall x :: x in h.completed ==> x <= h.last)
    && (forall k :: 0 <= k < |h.tables| ==> TableOk(h, k))
    && (forall i :: 0 <= i < |h.calls| ==> CallOk(h, i))
  }

  /** What a step of call i may do to a table: claim the next slot, or fill a slot of its own. */
  predicate TableGrows(a: Table, b: Table, i: nat) {
    && b.max == a.max && a.count <= b.count && a.claims <= b.claims
    && (forall slot :: slot in a.records ==> slot in b.records && b.records[slot] == a.records[slot])
    && (forall slot :: slot in b.records && slot !in a.records ==> Owns(a, slot, i))
  }

  predicate Grows(a: Header, b: Header, i: nat) {
    && a.last <= b.last && a.completed <= b.completed && |a.tables| == |b.tables|
    && forall k :: 0 <= k < |a.tables| ==> TableGrows(a.tables[k], b.tables[k], i)
  }

  lemma OthersKept(a: Header, b: Header, i: nat, j: nat)
    requires Grows(a, b, i) && j < |a.calls| && j < |b.calls| && i != j && b.calls[j] == a.calls[j]
    requires CallOk(a, j) && forall k :: 0 <= k < |b.tables| ==> TableOk(b, k)
    ensures CallOk(b, j)
  {
    var k := a.calls[j].entry.table;
    assert TableGrows(a.tables[k], b.tables[k], i) && TableOk(b, k);
  }

  lemma TurnGrows(h: Header, i: nat, spurious: bool)
    requires Inv(h) && Allowed(h, Turn(i, spurious))
    ensures Grows(h, Apply(h, Turn(i, spurious)), i)
  {
    assert CallOk(h, i) && TableOk(h, h.calls[i].entry.table);
  }

  lemma TurnKeepsTables(h: Header, i: nat, spurious: bool, k: nat)
    requires Inv(h) && Allowed(h, Turn(i, spurious)) && k < |h.tables|
    ensures var g := Apply(h, Turn(i, spurious)); |g.tables| == |h.tables| && TableOk(g, k)
  {
    assert CallOk(h, i) && TableOk(h, k) && TableOk(h, h.calls[i].entry.table);
  }

  lemma TurnKeepsCall(h: Header, i: nat, spurious: bool)
    requires Inv(h) && Allowed(h, Turn(i, spurious))
    ensures CallOk(Apply(h, Turn(i, spurious)), i)
  {
    assert CallOk(h, i) && TableOk(h, h.calls[i].entry.table);
  }

  /** An update leaves its loop only with the timestamp at least its own. */
  lemma TurnKeepsCompleted(h: Header, i: nat, spurious: bool)
    requires Inv(h) && Allowed(h, Turn(i, spurious))
    ensures var g := Apply(h, Turn(i, spurious)); forall x :: x in g.completed ==> x <= g.last
  {
    assert CallOk(h, i);
    var g, stamp := Apply(h, Turn(i, spurious)), h.calls[i].entry.timestamp;
    assert g.completed == h.completed || g.completed == h.completed + [stamp];
    assert forall x :: x in h.completed + [stamp] ==> x in h.completed || x == stamp;
  }

  lemma StepKeepsInv(h: Header, step: Step)
    requires Inv(h) && Allowed(h, step)
    ensures Inv(Apply(h, step)) && h.last <= Apply(h, step).last
  {
    var g := Apply(h, step);
    match step
    case Begin(entry) =>
      forall k | 0 <= k < |g.tables| ensures TableOk(g, k) { assert TableOk(h, k); }
      forall i | 0 <= i < |g.calls| ensures CallOk(g, i) {
        if i < |h.calls| { assert CallOk(h, i) && g.calls[i] == h.calls[i]; }
      }
    case Turn(i, spurious) =>
      TurnGrows(h, i, spurious);
      TurnKeepsCompleted(h, i, spurious);
      forall k | 0 <= k < |g.tables| ensures TableOk(g, k) { TurnKeepsTables(h, i, spurious, k); }
      forall j | 0 <= j < |g.calls| ensures CallOk(g, j) {
        if j == i { TurnKeepsCall(h, i, spurious); } else { OthersKept(h, g, i, j); }
      }
  }

  // ---- Every run ----

  ghost predicate Runs(h: Header, steps: seq<Step>, g: Header)
    decreases |steps|
  {
    if steps == [] then g == h
    else Allowed(h, steps[0]) && Runs(Apply(h, steps[0]), steps[1..], g)
  }

  predicate Empty(t: Table) { t.count == 0 && t.claims == [] && t.records == map[] }

  predicate Initial(h: Header) {
    h.calls == [] && h.completed == [] && forall k :: 0 <= k < |h.tables| ==> Empty(h.tables[k])
  }

  lemma {:induction false} RunKeepsInv(h: Header, steps: seq<Step>, g: Header)
    requires Inv(h) && Runs(h, steps, g)
    ensures Inv(g) && h.last <= g.last
    decreases |steps|
  {
    if steps != [] {
      StepKeepsInv(h, steps[0]);
      RunKeepsInv(Apply(h, steps[0]), steps[1..], g);
    }
  }

  /** Two successful additions to one table have different slots. */
  predicate DistinctSlots(h: Header, i: nat, j: nat)
    requires i < |h.calls| && j < |h.calls|
  {
    var a, b := h.calls[i], h.calls[j];
    i != j && a.pc.Done? && b.pc.Done? && a.entry.table == b.entry.table ==> a.pc.slot != b.pc.slot
  }

  predicate Recorded(h: Header, i: nat)
    requires i < |h.calls|
  {
    var entry := h.calls[i].entry;
    && entry.table < |h.tables|
    && var t := h.tables[entry.table];
       match h.calls[i].pc
       case Done(slot) => slot < t.count && slot in t.records && t.records[slot] == entry && entry.timestamp in h.completed
       case Refused => t.count == t.max && (entry.kind == Mmap ==> entry.timestamp in h.completed)
       case Updated => entry.timestamp in h.completed
       case _ => true
  }

  /**
   * From a header with empty tables, in every interleaving of the calls' steps
   * and of spurious failures: counts equal the slots claimed and never pass
   * the maximum, a call is refused only when its table is full, successful
   * calls have distinct slots that keep their own records, and the last
   * timestamp is at least that of every update completed.  A call that returned
   * has completed one, except a task record refused a slot.
   */
  lemma EveryInterleaving(h: Header, steps: seq<Step>, g: Header)
    requires Initial(h) && Runs(h, steps, g)
    ensures forall k :: 0 <= k < |g.tables| ==> g.tables[k].count == |g.tables[k].claims| <= g.tables[k].max
    ensures forall i, j :: 0 <= i < |g.calls| && 0 <= j < |g.calls| ==> DistinctSlots(g, i, j)
    ensures forall i :: 0 <= i < |g.calls| ==> Recorded(g, i)
    ensures forall x :: x in g.completed ==> x <= g.last
  {
    RunKeepsInv(h, steps, g);
    forall k | 0 <= k < |g.tables| ensures g.tables[k].count == |g.tables[k].claims| <= g.tables[k].max { assert TableOk(g, k); }
    forall i | 0 <= i < |g.calls| ensures Recorded(g, i) { assert CallOk(g, i) && TableOk(g, g.calls[i].entry.table); }
    forall i, j | 0 <= i < |g.calls| && 0 <= j < |g.calls| ensures DistinctSlots(g, i, j) { assert CallOk(g, i) && CallOk(g, j); }
  }

  /** The last timestamp never decreases, from any point of a run to any later one. */
  lemma Monotone(h: Header, before: seq<Step>, m: Header, after: seq<Step>, g: Header)
    requires Initial(h) && Runs(h, before, m) && Runs(m, after, g)
    ensures m.last <= g.last
  {
    RunKeepsInv(h, before, m);
    RunKeepsInv(m, after, g);
  }

  /** It is only ever raised to the timestamp of some call. */
  predicate FromSomeCall(h: Header, first: nat) {
    h.last == first || exists i :: 0 <= i < |h.calls| && h.calls[i].entry.timestamp == h.last
  }

  lemma {:induction false} LastIsSomeCalls(h: Header, steps: seq<Step>, g: Header, first: nat)
    requires FromSomeCall(h, first) && Runs(h, steps, g)
    ensures FromSomeCall(g, first)
    decreases |steps|
  {
    if steps != [] {
      var m := Apply(h, steps[0]);
      assert FromSomeCall(m, first) by {
        assert forall i :: 0 <= i < |h.calls| ==> m.calls[i].entry == h.calls[i].entry;
        if h.last != first {
          var i :| 0 <= i < |h.calls| && h.calls[i].entry.timestamp == h.last;
          assert m.calls[i].entry.timestamp == h.last;
        }
        if m.last != h.last { assert m.calls[steps[0].call].entry.timestamp == m.last; }
      }
      LastIsSomeCalls(m, steps[1..], g, first);
    }
  }

  // ---- A call on its own ----

  /** Each kind of call is only where its function takes it. */
  predicate OnItsWay(c: Call) {
    match c.pc
    case LoadStamp(filled) => if filled.Some? then c.entry.kind != Other else c.entry.kind != Task
    case Stamp(_, filled) => if filled.Some? then c.entry.kind != Other else c.entry.kind != Task
    case Updated => c.entry.kind == Other
    case _ => c.entry.kind != Other
  }

  predicate AllOnTheirWay(h: Header) { forall i :: 0 <= i < |h.calls| ==> OnItsWay(h.calls[i]) }

  lemma {:induction false} RunOnItsWay(h: Header, steps: seq<Step>, g: Header)
    requires AllOnTheirWay(h) && Runs(h, steps, g)
    ensures AllOnTheirWay(g)
    decreases |steps|
  {
    if steps != [] { RunOnItsWay(Apply(h, steps[0]), steps[1..], g); }
  }

  /** The turns a call still needs when nobody else takes one. */
  function Left(h: Header, i: nat): nat
    requires i < |h.calls| && h.calls[i].entry.table < |h.tables|
  {
    var entry, t := h.calls[i].entry, h.tables[h.calls[i].entry.table];
    var claiming := if entry.kind == Mmap then 5 else 0;
    match h.calls[i].pc
    case LoadStamp(filled) => 2 + if filled.Some? then 0 else claiming
    case Stamp(current, filled) =>
      (if current >= entry.timestamp || h.last == current then 1 else 2) + if filled.Some? then 0 else claiming
    case LoadCount => 5
    case Claim(index) => if index >= t.max then 1 else if t.count == index then 4 else 5
    case Fill(_) => 3
    case _ => 0
  }

  /** The call has a slot already. */
  predicate HasSlot(pc: Pc) {
    pc.Fill? || pc.Done? || ((pc.LoadStamp? || pc.Stamp?) && pc.filled.Some?)
  }

  /** What a call will return if nobody else takes a turn. */
  predicate WillGet(h: Header, i: nat)
    requires i < |h.calls| && h.calls[i].entry.table < |h.tables|
  {
    var t := h.tables[h.calls[i].entry.table];
    h.calls[i].entry.kind != Other && (HasSlot(h.calls[i].pc) || (!h.calls[i].pc.Refused? && t.count < t.max))
  }

  /** Each turn of its own brings it closer, and does not change what it will get. */
  lemma TurnComesCloser(h: Header, i: nat)
    requires Inv(h) && Allowed(h, Turn(i, false)) && OnItsWay(h.calls[i])
    ensures var g := Apply(h, Turn(i, false));
            && i < |g.calls| && g.calls[i].entry == h.calls[i].entry && |g.tables| == |h.tables|
            && Left(g, i) < Left(h, i) && WillGet(g, i) == WillGet(h, i) && OnItsWay(g.calls[i])
  {
    assert CallOk(h, i) && TableOk(h, h.calls[i].entry.table);
  }

  lemma {:induction false} AloneReturns(h: Header, i: nat) returns (steps: seq<Step>, g: Header)
    requires Inv(h) && i < |h.calls| && OnItsWay(h.calls[i]) && h.calls[i].entry.table < |h.tables|
    ensures |steps| <= Left(h, i) && (forall k :: 0 <= k < |steps| ==> steps[k] == Turn(i, false)) && Runs(h, steps, g)
    ensures i < |g.calls| && g.calls[i].entry == h.calls[i].entry && Returned(g.calls[i].pc)
    ensures (g.calls[i].pc.Done? <==> WillGet(h, i)) && (g.calls[i].pc.Updated? <==> h.calls[i].entry.kind == Other)
    decreases Left(h, i)
  {
    if Returned(h.calls[i].pc) {
      steps, g := [], h;
    } else {
      TurnComesCloser(h, i);
      StepKeepsInv(h, Turn(i, false));
      hide Apply, WillGet, Left, Inv;
      var rest;
      rest, g := AloneReturns(Apply(h, Turn(i, false)), i);
      steps := [Turn(i, false)] + rest;
      assert steps[1..] == rest;
    }
  }

  /**
   * In every reachable state, a call under way that is left alone returns
   * within seven turns: with a slot if it has one or its table has room,
   * refused if it does not, or updated if it claims none.
   */
  lemma CallReturns(h: Header, before: seq<Step>, m: Header, i: nat) returns (steps: seq<Step>, g: Header)
    requires Initial(h) && Runs(h, before, m) && i < |m.calls|
    ensures |steps| <= 7 && (forall k :: 0 <= k < |steps| ==> steps[k] == Turn(i, false)) && Runs(m, steps, g)
    ensures i < |g.calls| && Returned(g.calls[i].pc) && m.calls[i].entry.table < |m.tables|
    ensures var t, kind := m.tables[m.calls[i].entry.table], m.calls[i].entry.kind;
            && (g.calls[i].pc.Updated? <==> kind == Other)
            && (g.calls[i].pc.Done? <==> kind != Other && (HasSlot(m.calls[i].pc) || (!m.calls[i].pc.Refused? && t.count < t.max)))
  {
    RunKeepsInv(h, before, m);
    RunOnItsWay(h, before, m);
    assert CallOk(m, i) && OnItsWay(m.calls[i]);
    steps, g := AloneReturns(m, i);
  }
}
