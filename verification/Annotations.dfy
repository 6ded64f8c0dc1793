/**
 * The annotations of the client, as the fields their builders write and the
 * room their builders reserve first.
 *
 * Strings are byte sequences, a null pointer being the empty one.  `time` is
 * what the clock returned.
 */
module Annotations {
  import opened Bytes
  import opened Leb128
  import opened Records

  const SIZE_COLOR := 4
  const MAXSIZE_PACK_INT := 5
  const MAXSIZE_PACK_LONG := 10
  /** The marker byte and the size. */
  const HEADER := 1 + 4
  const THREAD_BUFFER_SIZE := 65536

  datatype Field = Int(x: int) | Long(x: int) | Color(color: nat) | Text(text: seq<byte>) | Null

  function FieldBytes(f: Field): seq<byte> {
    match f
    case Int(x) => Pack(AsInt32(x))
    case Long(x) => Pack(AsInt64(x))
    case Color(c) => [c / 0x100 % 0x100, c / 0x1_0000 % 0x100, c / 0x100_0000 % 0x100, c % 0x100]
    case Text(text) => text
    case Null => [0]
  }

  datatype CounterDefinition = CounterDefinition(
    id: int,
    perCpu: int,
    counterClass: int,
    display: int,
    modifier: int,
    seriesComposition: int,
    renderingType: int,
    averageSelection: int,
    averageCores: int,
    percentage: int,
    cores: int,
    color: nat,
    activities: seq<(seq<byte>, nat)>,
    title: seq<byte>,
    name: seq<byte>,
    units: seq<byte>,
    description: seq<byte>
  )

  datatype Annotation =
    | Str(time: int, channel: int, text: seq<byte>)
    | Colored(time: int, channel: int, color: nat, text: seq<byte>)
    | NameChannel(time: int, channel: int, group: int, text: seq<byte>)
    | NameGroup(time: int, group: int, text: seq<byte>)
    | Marker(time: int, text: seq<byte>)
    | MarkerColor(time: int, color: nat, text: seq<byte>)
    | Counter(definition: CounterDefinition)
    | CounterValue(time: int, core: int, id: int, value: int)
    | ActivitySwitch(time: int, core: int, id: int, activity: int, tid: int)
    | CamTrack(view: int, track: int, parent: int, text: seq<byte>)
    | CamJob(view: int, job: int, text: seq<byte>, track: int, time: int, duration: int, color: nat, primary: int, dependencies: seq<int>)
    | CamJobStart(view: int, job: int, text: seq<byte>, track: int, time: int, color: nat)
    | CamJobSetDeps(view: int, job: int, time: int, primary: int, dependencies: seq<int>)
    | CamJobStop(view: int, job: int, time: int)
    | CamViewName(view: int, text: seq<byte>)

  function Mark(a: Annotation): byte {
    match a
    case Str(_, _, _) => 0x01
    case Colored(_, _, _, _) => 0x02
    case NameChannel(_, _, _, _) => 0x03
    case NameGroup(_, _, _) => 0x04
    case Marker(_, _) => 0x06
    case MarkerColor(_, _, _) => 0x07
    case Counter(_) => 0x08
    case CounterValue(_, _, _, _) => 0x09
    case ActivitySwitch(_, _, _, _, _) => 0x0a
    case CamTrack(_, _, _, _) => 0x0b
    case CamJob(_, _, _, _, _, _, _, _, _) => 0x0c
    case CamViewName(_, _) => 0x0d
    case CamJobStart(_, _, _, _, _, _) => 0x0e
    case CamJobSetDeps(_, _, _, _, _) => 0x0f
    case CamJobStop(_, _, _) => 0x10
  }

  function Dependencies(xs: seq<int>): (fs: seq<Field>)
    ensures |fs| == |xs|
  {
    seq(|xs|, i requires 0 <= i < |xs| => Int(xs[i]))
  }

  function Activities(xs: seq<(seq<byte>, nat)>): seq<Field> {
    if xs == [] then [] else [Text(xs[0].0), Null, Color(xs[0].1)] + Activities(xs[1..])
  }

  /** The twelve integers of a counter definition, in order. */
  function CounterInts(c: CounterDefinition): seq<Field> {
    [Int(c.id), Int(c.perCpu), Int(c.counterClass), Int(c.display), Int(c.modifier), Int(c.seriesComposition),
     Int(c.renderingType), Int(c.averageSelection), Int(c.averageCores), Int(c.percentage), Int(|c.activities|), Int(c.cores)]
  }

  function CounterNames(c: CounterDefinition): seq<Field> {
    [Text(c.title), Null, Text(c.name), Null, Text(c.units), Null, Text(c.description)]
  }

  /** What each builder writes after the marker and the size, in order. */
  function Fields(a: Annotation): seq<Field> {
    match a
    case Str(time, channel, text) => [Long(time), Int(channel), Text(text)]
    case Colored(time, channel, color, text) => [Long(time), Int(channel), Color(color), Text(text)]
    case NameChannel(time, channel, group, text) => [Long(time), Int(channel), Int(group), Text(text)]
    case NameGroup(time, group, text) => [Long(time), Int(group), Text(text)]
    case Marker(time, text) => [Long(time), Text(text)]
    case MarkerColor(time, color, text) => [Long(time), Color(color), Text(text)]
    case Counter(c) => CounterInts(c) + [Color(c.color)] + Activities(c.activities) + CounterNames(c)
    case CounterValue(time, core, id, value) => [Long(time), Int(core), Int(id), Long(value)]
    case ActivitySwitch(time, core, id, activity, tid) => [Long(time), Int(core), Int(id), Int(activity), Int(tid)]
    case CamTrack(view, track, parent, text) => [Int(view), Int(track), Int(parent), Text(text)]
    case CamJob(view, job, text, track, time, duration, color, primary, dependencies) =>
      [Int(view), Int(job), Int(track), Long(time), Long(duration), Color(color), Int(primary), Int(|dependencies|)]
      + Dependencies(dependencies) + [Text(text)]
    case CamJobStart(view, job, text, track, time, color) =>
      [Int(view), Int(job), Int(track), Long(time), Color(color), Text(text)]
    case CamJobSetDeps(view, job, time, primary, dependencies) =>
      [Int(view), Int(job), Long(time), Int(primary), Int(|dependencies|)] + Dependencies(dependencies)
    case CamJobStop(view, job, time) => [Int(view), Int(job), Long(time)]
    case CamViewName(view, text) => [Int(view), Text(text)]
  }

  function ActivityRoom(xs: seq<(seq<byte>, nat)>): nat {
    if xs == [] then 0 else |xs[0].0| + SIZE_COLOR + ActivityRoom(xs[1..])
  }

  /** The bytes each builder waits for. */
  function Reservation(a: Annotation): nat {
    match a
    case Str(_, _, text) => HEADER + MAXSIZE_PACK_LONG + MAXSIZE_PACK_INT + |text|
    case Colored(_, _, _, text) => HEADER + MAXSIZE_PACK_LONG + MAXSIZE_PACK_INT + SIZE_COLOR + |text|
    case NameChannel(_, _, _, text) => HEADER + MAXSIZE_PACK_LONG + 2 * MAXSIZE_PACK_INT + |text|
    case NameGroup(_, _, text) => HEADER + MAXSIZE_PACK_LONG + MAXSIZE_PACK_INT + |text|
    case Marker(_, text) => HEADER + MAXSIZE_PACK_LONG + |text|
    case MarkerColor(_, _, text) => HEADER + MAXSIZE_PACK_LONG + SIZE_COLOR + |text|
    case Counter(c) =>
      HEADER + 12 * MAXSIZE_PACK_INT + SIZE_COLOR + ActivityRoom(c.activities)
      + |c.title| + 1 + |c.name| + 1 + |c.units| + 1 + |c.description|
    case CounterValue(_, _, _, _) => HEADER + 2 * MAXSIZE_PACK_LONG + 2 * MAXSIZE_PACK_INT
    case ActivitySwitch(_, _, _, _, _) => HEADER + MAXSIZE_PACK_LONG + 4 * MAXSIZE_PACK_INT
    case CamTrack(_, _, _, text) => HEADER + 3 * MAXSIZE_PACK_INT + |text|
    case CamJob(_, _, text, _, _, _, _, _, dependencies) =>
      HEADER + 5 * MAXSIZE_PACK_INT + 2 * MAXSIZE_PACK_LONG + SIZE_COLOR + |dependencies| * MAXSIZE_PACK_INT + |text|
    case CamJobStart(_, _, text, _, _, _) => HEADER + 3 * MAXSIZE_PACK_INT + MAXSIZE_PACK_LONG + SIZE_COLOR + |text|
    case CamJobSetDeps(_, _, _, _, dependencies) =>
      HEADER + 4 * MAXSIZE_PACK_INT + MAXSIZE_PACK_LONG + |dependencies| * MAXSIZE_PACK_INT
    case CamJobStop(_, _, _) => HEADER + 2 * MAXSIZE_PACK_INT + MAXSIZE_PACK_LONG
    case CamViewName(_, text) => HEADER + MAXSIZE_PACK_INT + |text|
  }

  // ---- The bytes ----

  function FieldsBytes(fs: seq<Field>): (ss: seq<seq<byte>>)
    ensures |ss| == |fs|
  {
    seq(|fs|, i requires 0 <= i < |fs| => FieldBytes(fs[i]))
  }

  function PayloadOf(fs: seq<Field>): seq<byte> { Flatten(FieldsBytes(fs)) }

  function Payload(a: Annotation): seq<byte> { PayloadOf(Fields(a)) }

  /** The message a builder makes: marker, payload length, payload. */
  function AsRecord(a: Annotation): Record { Record([Mark(a)], Payload(a)) }

  function MessagesOf(annotations: seq<Annotation>): (rs: seq<Record>)
    ensures |rs| == |annotations|
  {
    seq(|annotations|, i requires 0 <= i < |annotations| => AsRecord(annotations[i]))
  }

  lemma PayloadConcat(fs: seq<Field>, gs: seq<Field>)
    ensures PayloadOf(fs + gs) == PayloadOf(fs) + PayloadOf(gs)
  {
    assert FieldsBytes(fs + gs) == FieldsBytes(fs) + FieldsBytes(gs);
    FlattenConcat(FieldsBytes(fs), FieldsBytes(gs));
  }

  // ---- Room ----

  /** The most a field can take. */
  function Room(f: Field): nat {
    match f
    case Int(_) => MAXSIZE_PACK_INT
    case Long(_) => MAXSIZE_PACK_LONG
    case Color(_) => SIZE_COLOR
    case Text(text) => |text|
    case Null => 1
  }

  function Sum(ns: seq<nat>): nat { if ns == [] then 0 else ns[0] + Sum(ns[1..]) }

  function Rooms(fs: seq<Field>): (ns: seq<nat>)
    ensures |ns| == |fs|
  {
    seq(|fs|, i requires 0 <= i < |fs| => Room(fs[i]))
  }

  function TotalRoom(fs: seq<Field>): nat { Sum(Rooms(fs)) }

  lemma {:induction false} SumConcat(a: seq<nat>, b: seq<nat>)
    ensures Sum(a + b) == Sum(a) + Sum(b)
  {
    if a == [] {
      assert a + b == b;
    } else {
      assert (a + b)[1..] == a[1..] + b;
      SumConcat(a[1..], b);
    }
  }

  lemma RoomConcat(fs: seq<Field>, gs: seq<Field>)
    ensures TotalRoom(fs + gs) == TotalRoom(fs) + TotalRoom(gs)
  {
    assert Rooms(fs + gs) == Rooms(fs) + Rooms(gs);
    SumConcat(Rooms(fs), Rooms(gs));
  }

  function At(ns: seq<nat>, i: nat): nat { if i < |ns| then ns[i] else 0 }

  function Drop(ns: seq<nat>, i: nat): seq<nat> { if i < |ns| then ns[i..] else [] }

  lemma SumDrop(ns: seq<nat>, i: nat)
    ensures Sum(Drop(ns, i)) == At(ns, i) + Sum(Drop(ns, i + 1))
  {
    if i < |ns| { assert ns[i..][1..] == ns[i + 1..]; }
    if i + 1 == |ns| { assert ns[i + 1..] == []; }
  }

  lemma SumFour(ns: seq<nat>, i: nat)
    ensures Sum(Drop(ns, i)) == At(ns, i) + At(ns, i + 1) + At(ns, i + 2) + At(ns, i + 3) + Sum(Drop(ns, i + 4))
  {
    hide Sum, At, Drop;
    SumDrop(ns, i);
    SumDrop(ns, i + 1);
    SumDrop(ns, i + 2);
    SumDrop(ns, i + 3);
  }

  lemma SumEight(ns: seq<nat>)
    requires |ns| <= 8
    ensures Sum(ns) == At(ns, 0) + At(ns, 1) + At(ns, 2) + At(ns, 3) + At(ns, 4) + At(ns, 5) + At(ns, 6) + At(ns, 7)
  {
    hide Sum, At;
    assert Drop(ns, 0) == ns && Drop(ns, 8) == [] && Sum([]) == 0 by { ZeroSum(); }
    SumFour(ns, 0);
    SumFour(ns, 4);
  }

  lemma ZeroSum()
    ensures Sum([]) == 0
  {
  }

  lemma {:induction false} FitsRoom(fs: seq<Field>)
    ensures |PayloadOf(fs)| <= TotalRoom(fs)
  {
    if fs != [] {
      assert FieldsBytes(fs)[1..] == FieldsBytes(fs[1..]) && Rooms(fs)[1..] == Rooms(fs[1..]);
      FitsRoom(fs[1..]);
      if fs[0].Int? { PackSizes(AsInt32(fs[0].x)); }
      if fs[0].Long? { PackSizes(AsInt64(fs[0].x)); }
    }
  }

  lemma {:induction false} IntsRoom(fs: seq<Field>)
    requires forall i :: 0 <= i < |fs| ==> fs[i].Int?
    ensures TotalRoom(fs) == |fs| * MAXSIZE_PACK_INT
  {
    if fs != [] {
      assert Rooms(fs)[1..] == Rooms(fs[1..]);
      IntsRoom(fs[1..]);
    }
  }

  function Lengths(ss: seq<seq<byte>>): (ns: seq<nat>)
    ensures |ns| == |ss|
  {
    seq(|ss|, i requires 0 <= i < |ss| => |ss[i]|)
  }

  lemma {:induction false} FlattenLength(ss: seq<seq<byte>>)
    ensures |Flatten(ss)| == Sum(Lengths(ss))
  {
    if ss != [] {
      assert Lengths(ss)[1..] == Lengths(ss[1..]);
      FlattenLength(ss[1..]);
    }
  }

  /** Each activity has a terminator that no reservation counts. */
  lemma {:induction false} ActivityBytes(xs: seq<(seq<byte>, nat)>)
    ensures |PayloadOf(Activities(xs))| == ActivityRoom(xs) + |xs|
  {
    if xs != [] {
      var first := [Text(xs[0].0), Null, Color(xs[0].1)];
      PayloadConcat(first, Activities(xs[1..]));
      ActivityBytes(xs[1..]);
      FlattenLength(FieldsBytes(first));
      SumEight(Lengths(FieldsBytes(first)));
    }
  }

  lemma NamesBytes(c: CounterDefinition)
    ensures |PayloadOf(CounterNames(c))| == |c.title| + 1 + |c.name| + 1 + |c.units| + 1 + |c.description|
  {
    hide Sum, Flatten;
    FlattenLength(FieldsBytes(CounterNames(c)));
    SumEight(Lengths(FieldsBytes(CounterNames(c))));
  }

  lemma FewFieldsRoom(fs: seq<Field>)
    requires |fs| <= 8
    ensures var ns := Rooms(fs);
            TotalRoom(fs) == At(ns, 0) + At(ns, 1) + At(ns, 2) + At(ns, 3) + At(ns, 4) + At(ns, 5) + At(ns, 6) + At(ns, 7)
  {
    hide Sum;
    SumEight(Rooms(fs));
  }

  lemma JobRoom(a: Annotation)
    requires a.CamJob? || a.CamJobSetDeps?
    ensures HEADER + TotalRoom(Fields(a)) == Reservation(a)
  {
    hide TotalRoom;
    var ds := Dependencies(a.dependencies);
    IntsRoom(ds);
    var head := if a.CamJob?
      then [Int(a.view), Int(a.job), Int(a.track), Long(a.time), Long(a.duration), Color(a.color), Int(a.primary), Int(|a.dependencies|)]
      else [Int(a.view), Int(a.job), Long(a.time), Int(a.primary), Int(|a.dependencies|)];
    FewFieldsRoom(head);
    RoomConcat(head, ds);
    if a.CamJob? {
      RoomConcat(head + ds, [Text(a.text)]);
      FewFieldsRoom([Text(a.text)]);
    }
  }

  lemma PlainRoom(a: Annotation)
    requires !a.CamJob? && !a.CamJobSetDeps? && !a.Counter?
    ensures HEADER + TotalRoom(Fields(a)) == Reservation(a)
  {
    hide TotalRoom;
    FewFieldsRoom(Fields(a));
  }

  /** Every builder but the counter definition writes at most what it reserved. */
  lemma BuilderFits(a: Annotation)
    requires !a.Counter?
    ensures HEADER + |Payload(a)| <= Reservation(a)
  {
    hide Fields, Reservation, TotalRoom, PayloadOf;
    if a.CamJob? || a.CamJobSetDeps? { JobRoom(a); } else { PlainRoom(a); }
    FitsRoom(Fields(a));
  }

  /** The room reserved for the twelve integers that they do not take. */
  function Spare(c: CounterDefinition): (r: nat)
  {
    SpareNotNegative(c);
    12 * MAXSIZE_PACK_INT - |PayloadOf(CounterInts(c))|
  }

  lemma SpareNotNegative(c: CounterDefinition)
    ensures |PayloadOf(CounterInts(c))| <= 12 * MAXSIZE_PACK_INT
  {
    hide PayloadOf, TotalRoom;
    FitsRoom(CounterInts(c));
    IntsRoom(CounterInts(c));
  }

  /**
   * The counter definition writes more than it reserved exactly when it has
   * more activities than its integers leave bytes unused, and then by at most
   * one byte per activity.
   */
  lemma CounterFits(a: Annotation)
    requires a.Counter?
    ensures var c := a.definition;
            && HEADER + |Payload(a)| == Reservation(a) + |c.activities| - Spare(c)
            && (HEADER + |Payload(a)| <= Reservation(a) <==> |c.activities| <= Spare(c))
            && HEADER + |Payload(a)| <= Reservation(a) + |c.activities|
  {
    hide PayloadOf, CounterInts, CounterNames, Activities;
    var c := a.definition;
    var ints, color, activities, names := CounterInts(c), [Color(c.color)], Activities(c.activities), CounterNames(c);
    PayloadConcat(ints, color);
    PayloadConcat(ints + color, activities);
    PayloadConcat(ints + color + activities, names);
    ActivityBytes(c.activities);
    NamesBytes(c);
    OneColor(c.color);
  }

  lemma OneColor(color: nat)
    ensures |PayloadOf([Color(color)])| == SIZE_COLOR
  {
    assert Flatten(FieldsBytes([Color(color)])) == FieldBytes(Color(color)) + Flatten([]);
  }

  lemma {:induction false} WideInts(fs: seq<Field>)
    requires forall i :: 0 <= i < |fs| ==> fs[i] == Int(INT32_LIMIT - 1)
    ensures |PayloadOf(fs)| == 5 * |fs|
  {
    if fs != [] {
      assert FieldsBytes(fs)[1..] == FieldsBytes(fs[1..]);
      WideInts(fs[1..]);
      Pow2Values();
      PackLength(INT32_LIMIT - 1, 4);
      PackLength(INT32_LIMIT - 1, 5);
    }
  }

  lemma FiveActivities(xs: seq<(seq<byte>, nat)>)
    requires |xs| == 5 && forall i :: 0 <= i < 5 ==> xs[i].0 == []
    ensures ActivityRoom(xs) == 5 * SIZE_COLOR
  {
    assert ActivityRoom(xs[1..]) == SIZE_COLOR + ActivityRoom(xs[2..]) by { assert xs[1..][1..] == xs[2..]; }
    assert ActivityRoom(xs[2..]) == SIZE_COLOR + ActivityRoom(xs[3..]) by { assert xs[2..][1..] == xs[3..]; }
    assert ActivityRoom(xs[3..]) == SIZE_COLOR + ActivityRoom(xs[4..]) by { assert xs[3..][1..] == xs[4..]; }
    assert ActivityRoom(xs[4..]) == SIZE_COLOR + ActivityRoom([]) by { assert xs[4..][1..] == []; }
  }

  /** A counter with wide integers and five activities outgrows its reservation, which is small. */
  lemma CounterOutgrows() returns (a: Annotation)
    ensures a.Counter? && HEADER + |Payload(a)| > Reservation(a) && Reservation(a) <= THREAD_BUFFER_SIZE / 2
  {
    var x := INT32_LIMIT - 1;
    var c := CounterDefinition(x, x, x, x, x, x, x, x, x, x, x, 0, seq(5, _ => ([], 0)), [], [], [], []);
    a := Counter(c);
    CounterFits(a);
    var ten, five, last := seq(10, _ => Int(x)), [Int(5)], [Int(x)];
    WideInts(ten);
    WideInts(last);
    assert CounterInts(c) == (ten + five) + last;
    PayloadConcat(ten, five);
    PayloadConcat(ten + five, last);
    assert Pack(5) == [5];
    FiveActivities(c.activities);
    assert Flatten(FieldsBytes(five)) == FieldBytes(Int(5)) + Flatten([]);
  }
}
