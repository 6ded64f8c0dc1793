/**
 * Reading an annotation message back.  The reader knows only the marker and
 * the payload; it is what a host needs for the messages to be unambiguous.
 */
module AnnotationReader {
  import opened Bytes
  import opened Leb128
  import opened Options
  import opened Annotations

  /** Integers as they arrive: cut to the width they were sent with. */
  function NormalInts(xs: seq<int>): (r: seq<int>)
    ensures |r| == |xs|
  {
    seq(|xs|, i requires 0 <= i < |xs| => AsInt32(xs[i]))
  }

  function Normal(a: Annotation): Annotation {
    match a
    case Str(time, channel, text) => Str(AsInt64(time), AsInt32(channel), text)
    case Colored(time, channel, color, text) => Colored(AsInt64(time), AsInt32(channel), color, text)
    case NameChannel(time, channel, group, text) => NameChannel(AsInt64(time), AsInt32(channel), AsInt32(group), text)
    case NameGroup(time, group, text) => NameGroup(AsInt64(time), AsInt32(group), text)
    case Marker(time, text) => Marker(AsInt64(time), text)
    case MarkerColor(time, color, text) => MarkerColor(AsInt64(time), color, text)
    case Counter(c) =>
      Counter(CounterDefinition(AsInt32(c.id), AsInt32(c.perCpu), AsInt32(c.counterClass), AsInt32(c.display), AsInt32(c.modifier),
                                AsInt32(c.seriesComposition), AsInt32(c.renderingType), AsInt32(c.averageSelection),
                                AsInt32(c.averageCores), AsInt32(c.percentage), AsInt32(c.cores), c.color, c.activities,
                                c.title, c.name, c.units, c.description))
    case CounterValue(time, core, id, value) => CounterValue(AsInt64(time), AsInt32(core), AsInt32(id), AsInt64(value))
    case ActivitySwitch(time, core, id, activity, tid) =>
      ActivitySwitch(AsInt64(time), AsInt32(core), AsInt32(id), AsInt32(activity), AsInt32(tid))
    case CamTrack(view, track, parent, text) => CamTrack(AsInt32(view), AsInt32(track), AsInt32(parent), text)
    case CamJob(view, job, text, track, time, duration, color, primary, dependencies) =>
      CamJob(AsInt32(view), AsInt32(job), text, AsInt32(track), AsInt64(time), AsInt64(duration), color, AsInt32(primary),
             NormalInts(dependencies))
    case CamJobStart(view, job, text, track, time, color) =>
      CamJobStart(AsInt32(view), AsInt32(job), text, AsInt32(track), AsInt64(time), color)
    case CamJobSetDeps(view, job, time, primary, dependencies) =>
      CamJobSetDeps(AsInt32(view), AsInt32(job), AsInt64(time), AsInt32(primary), NormalInts(dependencies))
    case CamJobStop(view, job, time) => CamJobStop(AsInt32(view), AsInt32(job), AsInt64(time))
    case CamViewName(view, text) => CamViewName(AsInt32(view), text)
  }

  // ---- One field at a time ----

  datatype Kind = AnInt | ALong | AColor

  /** Reads numbers of the given kinds, in order; what is left follows. */
  function ReadNumbers(kinds: seq<Kind>, s: seq<byte>): (r: Option<(seq<int>, seq<byte>)>)
    ensures r.Some? ==> |r.value.0| == |kinds|
    decreases |kinds|
  {
    if kinds == [] then Some(([], s))
    else
      match ReadNumber(kinds[0], s)
      case None => None
      case Some(first) =>
        match ReadNumbers(kinds[1..], first.1)
        case None => None
        case Some(rest) => Some(([first.0] + rest.0, rest.1))
  }

  function ReadNumber(kind: Kind, s: seq<byte>): Option<(int, seq<byte>)> {
    match kind
    case AnInt => ReadPacked(s, 32)
    case ALong => ReadPacked(s, 64)
    case AColor => if |s| < 4 then None else Some((ColorOf(s), s[4..]))
  }

  function ReadPacked(s: seq<byte>, width: nat): Option<(int, seq<byte>)>
    requires width == 32 || width == 64
  {
    match Unpack(s, width)
    case None => None
    case Some(field) => if field.1 > |s| then None else Some((field.0, s[field.1..]))
  }

  function ColorOf(s: seq<byte>): nat
    requires |s| >= 4
  {
    (s[3] as int) + 0x100 * (s[0] as int) + 0x1_0000 * (s[1] as int) + 0x100_0000 * (s[2] as int)
  }

  /** Text up to a null, and what follows the null. */
  function ReadText(s: seq<byte>): Option<(seq<byte>, seq<byte>)> {
    if s == [] then None
    else if s[0] == 0 then Some(([], s[1..]))
    else
      match ReadText(s[1..])
      case None => None
      case Some(r) => Some(([s[0]] + r.0, r.1))
  }

  predicate NoNull(text: seq<byte>) { 0 !in text }

  lemma {:induction false} ReadTextBack(text: seq<byte>, rest: seq<byte>)
    requires NoNull(text)
    ensures ReadText(text + ([0] + rest)) == Some((text, rest))
  {
    var s := text + ([0] + rest);
    if text == [] {
      assert s[1..] == rest;
    } else {
      assert s[1..] == text[1..] + ([0] + rest);
      assert text[0] in text;
      forall b | b in text[1..] ensures b != 0 { assert b in text; }
      ReadTextBack(text[1..], rest);
      assert [text[0]] + text[1..] == text;
    }
  }

  /** The number a field carries, as it arrives. */
  function Carried(f: Field): int
    requires Numeric(f)
  {
    match f
    case Int(x) => AsInt32(x)
    case Long(x) => AsInt64(x)
    case Color(c) => c
  }

  function KindOf(f: Field): Kind
    requires Numeric(f)
  {
    match f
    case Int(_) => AnInt
    case Long(_) => ALong
    case Color(_) => AColor
  }

  predicate Numeric(f: Field) { !f.Text? && !f.Null? && (f.Color? ==> f.color < 0x1_0000_0000) }

  lemma ReadPackedBack(x: int, width: nat, rest: seq<byte>)
    requires (width == 32 && IsInt32(x)) || (width == 64 && IsInt64(x))
    ensures ReadPacked(Pack(x) + rest, width) == Some((x, rest))
  {
    hide Pack, Unpack;
    UnpackPack(x, rest);
    assert (Pack(x) + rest)[|Pack(x)|..] == rest;
  }

  lemma ColorValue(c: nat)
    requires c < 0x1_0000_0000
    ensures ColorOf(FieldBytes(Color(c))) == c
  {
    LE32RoundTrip(c);
    assert c / 0x100_0000 < 0x100;
  }

  lemma ColorBack(c: nat, rest: seq<byte>)
    requires c < 0x1_0000_0000
    ensures ReadNumber(AColor, FieldBytes(Color(c)) + rest) == Some((c, rest))
  {
    ColorValue(c);
    FourFirst(FieldBytes(Color(c)), rest);
  }

  lemma FourFirst(s: seq<byte>, rest: seq<byte>)
    requires |s| == 4
    ensures ColorOf(s + rest) == ColorOf(s) && (s + rest)[4..] == rest
  {
  }

  lemma ReadNumberBack(f: Field, rest: seq<byte>)
    requires Numeric(f)
    ensures ReadNumber(KindOf(f), FieldBytes(f) + rest) == Some((Carried(f), rest))
  {
    hide ReadPacked, ColorOf, Pack;
    match f
    case Int(x) => ReadPackedBack(AsInt32(x), 32, rest);
    case Long(x) => ReadPackedBack(AsInt64(x), 64, rest);
    case Color(c) => ColorBack(c, rest);
  }

  function Kinds(fs: seq<Field>): seq<Kind>
    requires AllNumeric(fs)
  {
    seq(|fs|, i requires 0 <= i < |fs| => KindOf(fs[i]))
  }

  function AllCarried(fs: seq<Field>): seq<int>
    requires AllNumeric(fs)
  {
    seq(|fs|, i requires 0 <= i < |fs| => Carried(fs[i]))
  }

  lemma {:induction false} ReadNumbersBack(fs: seq<Field>, rest: seq<byte>)
    requires AllNumeric(fs)
    ensures ReadNumbers(Kinds(fs), PayloadOf(fs) + rest) == Some((AllCarried(fs), rest))
    decreases |fs|
  {
    hide ReadNumber, FieldBytes, KindOf, Carried;
    if fs == [] {
      assert PayloadOf(fs) + rest == rest;
    } else {
      assert FieldsBytes(fs)[1..] == FieldsBytes(fs[1..]);
      var tail := PayloadOf(fs[1..]) + rest;
      assert PayloadOf(fs) + rest == FieldBytes(fs[0]) + tail;
      ReadNumberBack(fs[0], tail);
      ReadNumbersBack(fs[1..], rest);
      assert Kinds(fs)[0] == KindOf(fs[0]) && Kinds(fs)[1..] == Kinds(fs[1..]);
      assert AllCarried(fs) == [Carried(fs[0])] + AllCarried(fs[1..]);
    }
  }

  // ---- Lists ----

  function ReadInts(count: nat, s: seq<byte>): Option<(seq<int>, seq<byte>)> {
    ReadNumbers(seq(count, _ => AnInt), s)
  }

  function ReadActivities(count: nat, s: seq<byte>): Option<(seq<(seq<byte>, nat)>, seq<byte>)>
    decreases count
  {
    if count == 0 then Some(([], s))
    else
      match ReadText(s)
      case None => None
      case Some(text) =>
        match ReadNumber(AColor, text.1)
        case None => None
        case Some(color) =>
          if color.0 < 0 then None
          else
            match ReadActivities(count - 1, color.1)
            case None => None
            case Some(rest) => Some(([(text.0, color.0)] + rest.0, rest.1))
  }

  predicate ActivityOk(x: (seq<byte>, nat)) { NoNull(x.0) && x.1 < 0x1_0000_0000 }

  lemma {:induction false} ReadActivitiesBack(xs: seq<(seq<byte>, nat)>, rest: seq<byte>)
    requires forall i :: 0 <= i < |xs| ==> ActivityOk(xs[i])
    ensures ReadActivities(|xs|, PayloadOf(Activities(xs)) + rest) == Some((xs, rest))
    decreases |xs|
  {
    hide ReadText, ReadNumber, FieldBytes;
    if xs == [] {
      assert PayloadOf(Activities(xs)) + rest == rest;
    } else {
      var tail := PayloadOf(Activities(xs[1..])) + rest;
      OneActivity(xs[0], Activities(xs[1..]), rest);
      ReadTextBack(xs[0].0, FieldBytes(Color(xs[0].1)) + tail);
      ColorBack(xs[0].1, tail);
      ReadActivitiesBack(xs[1..], rest);
      assert [xs[0]] + xs[1..] == xs;
    }
  }

  /** An activity is its text, a null and its colour. */
  lemma OneActivity(x: (seq<byte>, nat), fs: seq<Field>, rest: seq<byte>)
    ensures PayloadOf([Text(x.0), Null, Color(x.1)] + fs) + rest
         == x.0 + ([0] + (FieldBytes(Color(x.1)) + (PayloadOf(fs) + rest)))
  {
    PayloadCons(Color(x.1), fs);
    PayloadCons(Null, [Color(x.1)] + fs);
    PayloadCons(Text(x.0), [Null] + ([Color(x.1)] + fs));
    assert [Text(x.0), Null, Color(x.1)] + fs == [Text(x.0)] + ([Null] + ([Color(x.1)] + fs));
  }

  lemma PayloadCons(f: Field, fs: seq<Field>)
    ensures PayloadOf([f] + fs) == FieldBytes(f) + PayloadOf(fs)
  {
    assert FieldsBytes([f] + fs)[1..] == FieldsBytes(fs);
  }

  // ---- Whole messages ----

  /** The numbers each kind of message starts with. */
  function HeadKinds(mark: byte): seq<Kind> {
    match mark
    case 0x01 => [ALong, AnInt]
    case 0x02 => [ALong, AnInt, AColor]
    case 0x03 => [ALong, AnInt, AnInt]
    case 0x04 => [ALong, AnInt]
    case 0x06 => [ALong]
    case 0x07 => [ALong, AColor]
    case 0x08 => [AnInt, AnInt, AnInt, AnInt, AnInt, AnInt, AnInt, AnInt, AnInt, AnInt, AnInt, AnInt, AColor]
    case 0x09 => [ALong, AnInt, AnInt, ALong]
    case 0x0a => [ALong, AnInt, AnInt, AnInt, AnInt]
    case 0x0b => [AnInt, AnInt, AnInt]
    case 0x0c => [AnInt, AnInt, AnInt, ALong, ALong, AColor, AnInt, AnInt]
    case 0x0d => [AnInt]
    case 0x0e => [AnInt, AnInt, AnInt, ALong, AColor]
    case 0x0f => [AnInt, AnInt, ALong, AnInt, AnInt]
    case 0x10 => [AnInt, AnInt, ALong]
    case _ => []
  }

  function ToNat(x: int): nat { if x < 0 then 0 else x }

  function ReadCounter(n: seq<int>, s: seq<byte>): Option<Annotation>
    requires |n| == 13
  {
    match ReadActivities(ToNat(n[10]), s)
    case None => None
    case Some(activities) =>
      match ReadText(activities.1)
      case None => None
      case Some(title) =>
        match ReadText(title.1)
        case None => None
        case Some(name) =>
          match ReadText(name.1)
          case None => None
          case Some(units) =>
            Some(Counter(CounterDefinition(n[0], n[1], n[2], n[3], n[4], n[5], n[6], n[7], n[8], n[9], n[11], ToNat(n[12]),
                                           activities.0, title.0, name.0, units.0, units.1)))
  }

  function ReadRest(mark: byte, n: seq<int>, s: seq<byte>): Option<Annotation>
    requires |n| == |HeadKinds(mark)|
  {
    match mark
    case 0x01 => Some(Str(n[0], n[1], s))
    case 0x02 => Some(Colored(n[0], n[1], ToNat(n[2]), s))
    case 0x03 => Some(NameChannel(n[0], n[1], n[2], s))
    case 0x04 => Some(NameGroup(n[0], n[1], s))
    case 0x06 => Some(Marker(n[0], s))
    case 0x07 => Some(MarkerColor(n[0], ToNat(n[1]), s))
    case 0x08 => ReadCounter(n, s)
    case 0x09 => if s == [] then Some(CounterValue(n[0], n[1], n[2], n[3])) else None
    case 0x0a => if s == [] then Some(ActivitySwitch(n[0], n[1], n[2], n[3], n[4])) else None
    case 0x0b => Some(CamTrack(n[0], n[1], n[2], s))
    case 0x0c =>
      (match ReadInts(ToNat(n[7]), s)
       case None => None
       case Some(ds) => Some(CamJob(n[0], n[1], ds.1, n[2], n[3], n[4], ToNat(n[5]), n[6], ds.0)))
    case 0x0d => Some(CamViewName(n[0], s))
    case 0x0e => Some(CamJobStart(n[0], n[1], s, n[2], n[3], ToNat(n[4])))
    case 0x0f =>
      (match ReadInts(ToNat(n[4]), s)
       case None => None
       case Some(ds) => if ds.1 == [] then Some(CamJobSetDeps(n[0], n[1], n[2], n[3], ds.0)) else None)
    case 0x10 => if s == [] then Some(CamJobStop(n[0], n[1], n[2])) else None
    case _ => None
  }

  function ReadMessage(mark: byte, payload: seq<byte>): Option<Annotation> {
    match ReadNumbers(HeadKinds(mark), payload)
    case None => None
    case Some(head) => ReadRest(mark, head.0, head.1)
  }

  /** What the client's parameters are: 32-bit colours, lists that an int can count, terminated strings. */
  predicate Sane(a: Annotation) {
    && (a.Colored? || a.MarkerColor? || a.CamJob? || a.CamJobStart? ==> a.color < 0x1_0000_0000)
    && (a.CamJob? || a.CamJobSetDeps? ==> |a.dependencies| < INT32_LIMIT)
    && (a.Counter? ==> SaneCounter(a.definition))
  }

  predicate SaneCounter(c: CounterDefinition) {
    && c.color < 0x1_0000_0000 && |c.activities| < INT32_LIMIT
    && NoNull(c.title) && NoNull(c.name) && NoNull(c.units)
    && forall i :: 0 <= i < |c.activities| ==> ActivityOk(c.activities[i])
  }

  /** The leading numbers of a message, and what follows them. */
  function Head(a: Annotation): seq<Field> {
    match a
    case Str(time, channel, _) => [Long(time), Int(channel)]
    case Colored(time, channel, color, _) => [Long(time), Int(channel), Color(color)]
    case NameChannel(time, channel, group, _) => [Long(time), Int(channel), Int(group)]
    case NameGroup(time, group, _) => [Long(time), Int(group)]
    case Marker(time, _) => [Long(time)]
    case MarkerColor(time, color, _) => [Long(time), Color(color)]
    case Counter(c) => CounterInts(c) + [Color(c.color)]
    case CounterValue(time, core, id, value) => [Long(time), Int(core), Int(id), Long(value)]
    case ActivitySwitch(time, core, id, activity, tid) => [Long(time), Int(core), Int(id), Int(activity), Int(tid)]
    case CamTrack(view, track, parent, _) => [Int(view), Int(track), Int(parent)]
    case CamJob(view, job, _, track, time, duration, color, primary, dependencies) =>
      [Int(view), Int(job), Int(track), Long(time), Long(duration), Color(color), Int(primary), Int(|dependencies|)]
    case CamJobStart(view, job, _, track, time, color) => [Int(view), Int(job), Int(track), Long(time), Color(color)]
    case CamJobSetDeps(view, job, time, primary, dependencies) =>
      [Int(view), Int(job), Long(time), Int(primary), Int(|dependencies|)]
    case CamJobStop(view, job, time) => [Int(view), Int(job), Long(time)]
    case CamViewName(view, _) => [Int(view)]
  }

  function Tail(a: Annotation): seq<Field> {
    match a
    case Counter(c) => Activities(c.activities) + CounterNames(c)
    case CounterValue(_, _, _, _) => []
    case ActivitySwitch(_, _, _, _, _) => []
    case CamJob(_, _, text, _, _, _, _, _, dependencies) => Dependencies(dependencies) + [Text(text)]
    case CamJobSetDeps(_, _, _, _, dependencies) => Dependencies(dependencies)
    case CamJobStop(_, _, _) => []
    case _ => [Text(a.text)]
  }

  lemma HeadAndTail(a: Annotation)
    ensures Payload(a) == PayloadOf(Head(a)) + PayloadOf(Tail(a))
  {
    hide PayloadOf, Activities, Dependencies, CounterInts, CounterNames;
    PayloadConcat(Head(a), Tail(a));
    assert Fields(a) == Head(a) + Tail(a);
  }

  predicate AllNumeric(fs: seq<Field>) { forall i :: 0 <= i < |fs| ==> Numeric(fs[i]) }

  lemma CounterHead(c: CounterDefinition)
    requires c.color < 0x1_0000_0000
    ensures var fs := CounterInts(c) + [Color(c.color)]; AllNumeric(fs) && Kinds(fs) == HeadKinds(0x08)
  {
    var fs := CounterInts(c) + [Color(c.color)];
    assert |fs| == 13 && forall i :: 0 <= i < 12 ==> fs[i].Int?;
  }

  lemma HeadIsNumeric(a: Annotation)
    requires Sane(a)
    ensures AllNumeric(Head(a)) && Kinds(Head(a)) == HeadKinds(Mark(a))
  {
    if a.Counter? { CounterHead(a.definition); }
  }

  /** Reading a message back needs only what follows its leading numbers. */
  lemma ReadHead(a: Annotation)
    requires Sane(a)
    ensures AllNumeric(Head(a))
    ensures |Head(a)| == |HeadKinds(Mark(a))|
    ensures ReadMessage(Mark(a), Payload(a)) == ReadRest(Mark(a), AllCarried(Head(a)), PayloadOf(Tail(a)))
  {
    hide Sane, Head, Tail, HeadKinds, ReadRest, PayloadOf, Payload, Mark;
    HeadIsNumeric(a);
    HeadAndTail(a);
    ReadNumbersBack(Head(a), PayloadOf(Tail(a)));
  }

  lemma TextAlone(text: seq<byte>)
    ensures PayloadOf([Text(text)]) == text
  {
    assert Flatten(FieldsBytes([Text(text)])) == text + Flatten([]);
  }

  lemma PlainRoundTrip(a: Annotation)
    requires Sane(a) && !a.Counter? && !a.CamJob? && !a.CamJobSetDeps?
    ensures ReadMessage(Mark(a), Payload(a)) == Some(Normal(a))
  {
    hide ReadMessage, Payload, PayloadOf, Sane;
    ReadHead(a);
    assert PayloadOf([]) == [] by { NoPayload(); }
    if Tail(a) != [] { TextAlone(a.text); }
    PlainRest(a);
  }

  lemma NoPayload()
    ensures PayloadOf([]) == []
  {
  }

  lemma PlainRest(a: Annotation)
    requires Sane(a) && !a.Counter? && !a.CamJob? && !a.CamJobSetDeps?
    ensures AllNumeric(Head(a)) && |Head(a)| == |HeadKinds(Mark(a))|
    ensures ReadRest(Mark(a), AllCarried(Head(a)), if Tail(a) == [] then [] else a.text) == Some(Normal(a))
  {
    hide AsInt32, AsInt64;
    HeadIsNumeric(a);
  }

  lemma DependenciesBack(xs: seq<int>, rest: seq<byte>)
    ensures ReadInts(|xs|, PayloadOf(Dependencies(xs)) + rest) == Some((NormalInts(xs), rest))
  {
    hide ReadNumbers, PayloadOf;
    var fs := Dependencies(xs);
    assert AllNumeric(fs);
    ReadNumbersBack(fs, rest);
    assert Kinds(fs) == seq(|xs|, _ => AnInt);
    assert AllCarried(fs) == NormalInts(xs);
  }

  lemma JobRoundTrip(a: Annotation)
    requires Sane(a) && (a.CamJob? || a.CamJobSetDeps?)
    ensures ReadMessage(Mark(a), Payload(a)) == Some(Normal(a))
  {
    hide ReadMessage, Payload, PayloadOf, ReadInts, Dependencies, NormalInts;
    ReadHead(a);
    var ds := Dependencies(a.dependencies);
    if a.CamJob? {
      TextAlone(a.text);
      PayloadConcat(ds, [Text(a.text)]);
      DependenciesBack(a.dependencies, a.text);
    } else {
      DependenciesBack(a.dependencies, []);
      assert PayloadOf(ds) + [] == PayloadOf(ds);
    }
  }

  lemma NamesAre(c: CounterDefinition)
    ensures PayloadOf(CounterNames(c)) == c.title + ([0] + (c.name + ([0] + (c.units + ([0] + c.description)))))
  {
    hide PayloadOf;
    TextAlone(c.description);
    var f6 := [Text(c.description)];
    PayloadCons(Null, f6);
    PayloadCons(Text(c.units), [Null] + f6);
    PayloadCons(Null, [Text(c.units)] + ([Null] + f6));
    PayloadCons(Text(c.name), [Null] + ([Text(c.units)] + ([Null] + f6)));
    PayloadCons(Null, [Text(c.name)] + ([Null] + ([Text(c.units)] + ([Null] + f6))));
    PayloadCons(Text(c.title), [Null] + ([Text(c.name)] + ([Null] + ([Text(c.units)] + ([Null] + f6)))));
    assert CounterNames(c) == [Text(c.title)] + ([Null] + ([Text(c.name)] + ([Null] + ([Text(c.units)] + ([Null] + f6)))));
  }

  lemma CounterRest(c: CounterDefinition)
    requires SaneCounter(c)
    ensures var fs := CounterInts(c) + [Color(c.color)];
            AllNumeric(fs) && ReadCounter(AllCarried(fs), PayloadOf(Tail(Counter(c)))) == Some(Normal(Counter(c)))
  {
    hide PayloadOf, ReadText, ReadActivities, Activities, CounterNames, AsInt32;
    CounterHead(c);
    PayloadConcat(Activities(c.activities), CounterNames(c));
    ReadActivitiesBack(c.activities, PayloadOf(CounterNames(c)));
    NamesAre(c);
    ReadTextBack(c.title, c.name + ([0] + (c.units + ([0] + c.description))));
    ReadTextBack(c.name, c.units + ([0] + c.description));
    ReadTextBack(c.units, c.description);
    CountArrives(|c.activities|);
  }

  lemma CountArrives(n: nat)
    requires n < INT32_LIMIT
    ensures ToNat(AsInt32(n)) == n
  {
  }

  /** Every message reads back as the annotation it was made from, its integers cut to their widths. */
  lemma MessageRoundTrip(a: Annotation)
    requires Sane(a)
    ensures ReadMessage(Mark(a), Payload(a)) == Some(Normal(a))
  {
    if a.Counter? {
      ReadHead(a);
      CounterRest(a.definition);
    } else if a.CamJob? || a.CamJobSetDeps? {
      JobRoundTrip(a);
    } else {
      PlainRoundTrip(a);
    }
  }
}
