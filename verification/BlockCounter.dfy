/**
 * The counter compressor: `BlockCounterMessageConsumer` over
 * `BlockCounterFrameBuilder`.
 *
 * A message is sent as up to four items; the time, core and tid items are left
 * out while unchanged.  Frames split whenever the builder commits, and a reader
 * starts each frame afresh.  The bytes available at each check are inputs,
 * since the ring's consumer may free room at any moment.
 */
module BlockCounter {
  import opened Bytes
  import FrameBuffer
  import opened Leb128
  import opened Options

  const BLOCK_COUNTER: byte := 5
  const UINT64_SIZE := 0x1_0000_0000_0000_0000
  /** The time that stands for no time; a message may carry it all the same. */
  const INVALID_TIME := UINT64_SIZE - 1

  datatype Message = Message(time: int, core: int, tid: int, key: int, value: int)

  /** What the C++ types of `threadCounterMessage` admit. */
  predicate Typed(m: Message) {
    0 <= m.time < UINT64_SIZE && IsInt32(m.core) && IsInt32(m.tid) && IsInt32(m.key) && IsInt64(m.value)
  }

  /** Keys 0, 1 and 2 mark a timestamp, a tid and a core. */
  predicate Reserved(key: int) { 0 <= key <= 2 }

  datatype Item = Time(time: int) | Tid(tid: int) | Core(core: int) | Value(key: int, value: int)

  predicate TypedItem(x: Item) {
    match x
    case Time(t) => 0 <= t < UINT64_SIZE
    case Tid(t) => IsInt32(t)
    case Core(c) => IsInt32(c)
    case Value(k, v) => IsInt32(k) && IsInt64(v)
  }

  function ItemKey(x: Item): int {
    match x
    case Time(_) => 0
    case Tid(_) => 1
    case Core(_) => 2
    case Value(k, _) => k
  }

  /** `packInt64(uint64_t)` packs the word as signed. */
  function ItemNumber(x: Item): int
    requires TypedItem(x)
  {
    match x
    case Time(t) => Signed(t, 64)
    case Tid(t) => t
    case Core(c) => c
    case Value(_, v) => v
  }

  function ItemBytes(x: Item): seq<byte>
    requires TypedItem(x)
  {
    Pack(ItemKey(x)) + Pack(ItemNumber(x))
  }

  /** What each call checks for before it packs an item. */
  function ItemRoom(x: Item): nat {
    if x.Time? || x.Value? then MAXSIZE_PACK32 + MAXSIZE_PACK64 else 2 * MAXSIZE_PACK32
  }

  /** The check covers what is then packed. */
  lemma ItemFits(x: Item)
    requires TypedItem(x)
    ensures |ItemBytes(x)| <= ItemRoom(x)
  {
    PackSizes(ItemKey(x));
    PackSizes(ItemNumber(x));
  }

  // ---- The reader ----

  datatype Reader = Reader(time: Option<int>, core: int, tid: int)

  /** The items of s read from the state d; None when s is not a list of items, or a value comes before any time. */
  function ReadItems(s: seq<byte>, d: Reader): Option<seq<Message>>
    decreases |s|
  {
    if s == [] then Some([])
    else match Unpack(s, 32)
      case None => None
      case Some((key, n)) =>
        var width := if key == 1 || key == 2 then 32 else 64;
        match Unpack(s[n..], width)
        case None => None
        case Some((v, k)) =>
          var rest := s[n + k..];
          if key == 0 then ReadItems(rest, Reader(Some(v % UINT64_SIZE), d.core, 0))
          else if key == 1 then ReadItems(rest, d.(tid := v))
          else if key == 2 then ReadItems(rest, d.(core := v))
          else if d.time.None? then None
          else
            match ReadItems(rest, d)
            case None => None
            case Some(ms) => Some([Message(d.time.value, d.core, d.tid, key, v)] + ms)
  }

  /** A frame: its type, the core it starts on, then items, with no time and tid 0. */
  function ReadFrame(body: seq<byte>): Option<seq<Message>> {
    if body == [] || body[0] != BLOCK_COUNTER then None
    else match Unpack(body[1..], 32)
      case None => None
      case Some((core, n)) => ReadItems(body[1 + n..], Reader(None, core, 0))
  }

  function ReadFrames(bodies: seq<seq<byte>>): Option<seq<Message>> {
    if bodies == [] then Some([])
    else match (ReadFrame(bodies[0]), ReadFrames(bodies[1..]))
      case (Some(a), Some(b)) => Some(a + b)
      case _ => None
  }

  // ---- The builder and the consumer ----

  /** What `bytesAvailable` returns to the check for a new frame and to the check for the item. */
  datatype Room = Room(start: int, item: int)

  /** The items of the frame being built, if any, and those of the frames ended. */
  datatype Builder = Builder(current: Option<seq<Item>>, ended: seq<seq<Item>>)

  function Emit(b: Builder, x: Item, room: Room): (Builder, bool) {
    if b.current.None? && room.start < FrameBuffer.MAX_FRAME_HEADER_SIZE + MAXSIZE_PACK32 then (b, false)
    else
      var items := if b.current.None? then [] else b.current.value;
      if room.item < ItemRoom(x) then (b.(current := Some(items)), false)
      else (b.(current := Some(items + [x])), true)
  }

  function EndFrame(b: Builder): Builder {
    if b.current.None? then b else Builder(None, b.ended + [b.current.value])
  }

  /** The last time, core and tid written in the current frame. */
  datatype Consumer = Consumer(time: int, core: int, tid: int, b: Builder)

  datatype Rooms = Rooms(time: Room, core: Room, tid: Room, value: Room)

  function SetTime(c: Consumer, m: Message, room: Room): (Consumer, bool) {
    if c.time != m.time || c.time == INVALID_TIME then
      var (b, ok) := Emit(c.b, Time(m.time), room);
      if ok then (Consumer(m.time, c.core, 0, b), true) else (c.(b := b), false)
    else (c, true)
  }

  function SetCore(c: Consumer, m: Message, room: Room): (Consumer, bool) {
    if c.core != m.core then
      var (b, ok) := Emit(c.b, Core(m.core), room);
      if ok then (c.(core := m.core, b := b), true) else (c.(b := b), false)
    else (c, true)
  }

  function SetTid(c: Consumer, m: Message, room: Room): (Consumer, bool) {
    if c.tid != m.tid then
      var (b, ok) := Emit(c.b, Tid(m.tid), room);
      if ok then (c.(tid := m.tid, b := b), true) else (c.(b := b), false)
    else (c, true)
  }

  /** `check` found the frame due, and ends it: a new frame resets everything. */
  function Commit(c: Consumer): Consumer {
    if c.b.current.None? then c else Consumer(INVALID_TIME, 0, 0, EndFrame(c.b))
  }

  /** `threadCounterMessage`; false when some item found no room, leaving behind the items before it. */
  function Send(c: Consumer, m: Message, rooms: Rooms, due: bool): (Consumer, bool) {
    var (c1, ok1) := SetTime(c, m, rooms.time);
    if !ok1 then (c1, false) else
    var (c2, ok2) := SetCore(c1, m, rooms.core);
    if !ok2 then (c2, false) else
    var (c3, ok3) := SetTid(c2, m, rooms.tid);
    if !ok3 then (c3, false) else
    SetValue(c3, m, rooms.value, due)
  }

  function SetValue(c: Consumer, m: Message, room: Room, due: bool): (Consumer, bool) {
    var (b, ok) := Emit(c.b, Value(m.key, m.value), room);
    if !ok then (c.(b := b), false) else (if due then Commit(c.(b := b)) else c.(b := b), true)
  }

  datatype Call = Call(m: Message, rooms: Rooms, due: bool)

  function SendAll(c: Consumer, calls: seq<Call>): (Consumer, seq<Message>)
    decreases |calls|
  {
    if calls == [] then (c, [])
    else
      var (front, last) := (calls[..|calls| - 1], calls[|calls| - 1]);
      var (c1, accepted) := SendAll(c, front);
      var (c2, ok) := Send(c1, last.m, last.rooms, last.due);
      (c2, if ok then accepted + [last.m] else accepted)
  }

  const FRESH := Consumer(INVALID_TIME, 0, 0, Builder(None, []))

  // ---- Bytes of frames ----

  predicate TypedItems(xs: seq<Item>) { forall i :: 0 <= i < |xs| ==> TypedItem(xs[i]) }

  function ItemsBytes(xs: seq<Item>): seq<byte>
    requires TypedItems(xs)
  {
    if xs == [] then [] else ItemBytes(xs[0]) + ItemsBytes(xs[1..])
  }

  function FrameBody(xs: seq<Item>): seq<byte>
    requires TypedItems(xs)
  {
    [BLOCK_COUNTER] + Pack(0) + ItemsBytes(xs)
  }

  predicate TypedFrames(fs: seq<seq<Item>>) { forall i :: 0 <= i < |fs| ==> TypedItems(fs[i]) }

  function FrameBodies(fs: seq<seq<Item>>): seq<seq<byte>>
    requires TypedFrames(fs)
  {
    seq(|fs|, i requires 0 <= i < |fs| => FrameBody(fs[i]))
  }

  // ---- What a list of items means ----

  function Step(d: Reader, x: Item): Reader {
    match x
    case Time(t) => Reader(Some(t), d.core, 0)
    case Tid(t) => d.(tid := t)
    case Core(c) => d.(core := c)
    case Value(_, _) => d
  }

  function After(xs: seq<Item>, d: Reader): Reader {
    if xs == [] then d else Step(After(xs[..|xs| - 1], d), xs[|xs| - 1])
  }

  function Messages(xs: seq<Item>, d: Reader): seq<Message> {
    if xs == [] then []
    else
      var (front, x) := (xs[..|xs| - 1], xs[|xs| - 1]);
      var before := After(front, d);
      Messages(front, d) + match x
                           case Value(k, v) => [Message(before.time.GetOr(INVALID_TIME), before.core, before.tid, k, v)]
                           case _ => []
  }

  const START := Reader(None, 0, 0)

  /** Typed items in which every value comes after a time. */
  ghost predicate Timed(xs: seq<Item>, d: Reader) {
    && TypedItems(xs)
    && forall i :: 0 <= i < |xs| && xs[i].Value? ==> After(xs[..i], d).time.Some?
  }

  predicate Ordinary(xs: seq<Item>) {
    forall i :: 0 <= i < |xs| && xs[i].Value? ==> !Reserved(xs[i].key)
  }

  /** The two fields of an item come off the front of whatever follows. */
  lemma ItemFields(x: Item, rest: seq<byte>)
    requires TypedItem(x)
    ensures var s, n, width := ItemBytes(x) + rest, |Pack(ItemKey(x))|, if x.Tid? || x.Core? then 32 else 64;
            && Unpack(s, 32) == Some((ItemKey(x), n))
            && Unpack(s[n..], width) == Some((ItemNumber(x), |ItemBytes(x)| - n))
            && s[|ItemBytes(x)|..] == rest
  {
    hide Pack, Unpack;
    var k, n := Pack(ItemKey(x)), Pack(ItemNumber(x));
    var s := ItemBytes(x) + rest;
    assert s == k + (n + rest);
    UnpackPack(ItemKey(x), n + rest);
    UnpackPack(ItemNumber(x), rest);
    assert s[|k|..] == n + rest;
    if x.Time? { SignedRoundTrip(x.time); }
  }

  lemma ReadOne(x: Item, rest: seq<byte>, d: Reader)
    requires TypedItem(x) && (x.Value? ==> !Reserved(x.key) && d.time.Some?)
    ensures ReadItems(ItemBytes(x) + rest, d)
         == match ReadItems(rest, Step(d, x))
            case None => None
            case Some(ms) => Some(Messages([x], d) + ms)
  {
    hide Pack, Unpack;
    ItemFields(x, rest);
    OneItem(x, d);
    var tail := ReadItems(rest, Step(d, x));
    if tail.Some? { assert [] + tail.value == tail.value; }
    match x
    case Time(t) => SignedRoundTrip(t);
    case Tid(_) => assert ReadItems(ItemBytes(x) + rest, d) == tail;
    case Core(_) => assert ReadItems(ItemBytes(x) + rest, d) == tail;
    case Value(_, _) =>
  }

  lemma OneItem(x: Item, d: Reader)
    ensures x.Value? ==> Messages([x], d) == [Message(d.time.GetOr(INVALID_TIME), d.core, d.tid, x.key, x.value)]
    ensures !x.Value? ==> Messages([x], d) == []
  {
    assert [x][..0] == [];
  }

  lemma SignedRoundTrip(t: int)
    requires 0 <= t < UINT64_SIZE
    ensures IsInt64(Signed(t, 64)) && Signed(t, 64) % UINT64_SIZE == t
  {
  }

  lemma {:induction false} MeaningCons(x: Item, xs: seq<Item>, d: Reader)
    ensures After([x] + xs, d) == After(xs, Step(d, x))
    ensures Messages([x] + xs, d) == Messages([x], d) + Messages(xs, Step(d, x))
    decreases |xs|
  {
    assert [x][..0] == [];
    assert After([x], d) == Step(After([], d), x);
    if xs == [] {
      assert [x] + xs == [x];
    } else {
      var whole := [x] + xs;
      assert whole[..|whole| - 1] == [x] + xs[..|xs| - 1];
      MeaningCons(x, xs[..|xs| - 1], d);
    }
  }

  lemma {:induction false} ReadItemsMeans(xs: seq<Item>, d: Reader)
    requires Timed(xs, d) && Ordinary(xs)
    ensures ReadItems(ItemsBytes(xs), d) == Some(Messages(xs, d))
    decreases |xs|
  {
    if xs != [] {
      var x, tail, e := xs[0], xs[1..], Step(d, xs[0]);
      assert xs[..0] == [];
      forall i | 0 <= i < |tail| && tail[i].Value? ensures After(tail[..i], e).time.Some? {
        assert tail[i] == xs[i + 1] && xs[..i + 1] == [x] + tail[..i];
        MeaningCons(x, tail[..i], d);
      }
      ReadItemsMeans(tail, e);
      ReadOne(x, ItemsBytes(tail), d);
      MeaningCons(x, tail, d);
      assert [x] + tail == xs;
    }
  }

  lemma ReadFrameMeans(xs: seq<Item>)
    requires Timed(xs, START) && Ordinary(xs)
    ensures ReadFrame(FrameBody(xs)) == Some(Messages(xs, START))
  {
    var body := FrameBody(xs);
    assert body[1..] == Pack(0) + ItemsBytes(xs);
    UnpackPack(0, ItemsBytes(xs));
    assert body[1 + |Pack(0)|..] == ItemsBytes(xs);
    ReadItemsMeans(xs, START);
  }

  function AllMessages(fs: seq<seq<Item>>): seq<Message> {
    if fs == [] then [] else Messages(fs[0], START) + AllMessages(fs[1..])
  }

  lemma {:induction false} AllMessagesSnoc(fs: seq<seq<Item>>, f: seq<Item>)
    ensures AllMessages(fs + [f]) == AllMessages(fs) + Messages(f, START)
    decreases |fs|
  {
    if fs == [] {
      assert fs + [f] == [f] && [f][1..] == [];
    } else {
      assert (fs + [f])[1..] == fs[1..] + [f];
      AllMessagesSnoc(fs[1..], f);
    }
  }

  lemma {:induction false} ReadFramesMeans(fs: seq<seq<Item>>)
    requires TypedFrames(fs) && forall i :: 0 <= i < |fs| ==> Timed(fs[i], START) && Ordinary(fs[i])
    ensures ReadFrames(FrameBodies(fs)) == Some(AllMessages(fs))
    decreases |fs|
  {
    hide ReadFrame, FrameBody, Messages, Timed, Ordinary;
    if fs != [] {
      ReadFrameMeans(fs[0]);
      ReadFramesMeans(fs[1..]);
      assert FrameBodies(fs)[1..] == FrameBodies(fs[1..]);
    }
  }

  // ---- The invariant of the compressor ----

  function CurrentItems(c: Consumer): seq<Item> { c.b.current.GetOr([]) }

  /**
   * What a reader of the current frame knows agrees with what the consumer
   * remembers writing, and the accepted messages are what the frames mean.
   */
  ghost predicate Tracks(c: Consumer, accepted: seq<Message>) {
    && (forall i :: 0 <= i < |c.b.ended| ==> Timed(c.b.ended[i], START))
    && Timed(CurrentItems(c), START)
    && accepted == AllMessages(c.b.ended) + Messages(CurrentItems(c), START)
    && InStep(c, After(CurrentItems(c), START))
  }

  predicate InStep(c: Consumer, d: Reader) {
    d.core == c.core && d.tid == c.tid && d.time.GetOr(INVALID_TIME) == c.time
  }

  /** An item other than a value adds no message. */
  lemma ItemTracks(c: Consumer, accepted: seq<Message>, x: Item, room: Room)
    requires Tracks(c, accepted) && TypedItem(x) && !x.Value?
    ensures var (b, ok) := Emit(c.b, x, room);
            if ok then Tracks(Consumer(if x.Time? then x.time else c.time, if x.Core? then x.core else c.core,
                                       if x.Time? then 0 else if x.Tid? then x.tid else c.tid, b), accepted)
            else Tracks(c.(b := b), accepted)
  {
    TimedSnoc(CurrentItems(c), x);
  }

  lemma TimedSnoc(xs: seq<Item>, x: Item)
    requires Timed(xs, START) && TypedItem(x) && (x.Value? ==> After(xs, START).time.Some?)
    ensures Timed(xs + [x], START)
    ensures After(xs + [x], START) == Step(After(xs, START), x)
    ensures !x.Value? ==> Messages(xs + [x], START) == Messages(xs, START)
    ensures x.Value? ==> var d := After(xs, START);
              Messages(xs + [x], START) == Messages(xs, START) + [Message(d.time.value, d.core, d.tid, x.key, x.value)]
  {
    var ys := xs + [x];
    assert ys[..|ys| - 1] == xs;
    forall i | 0 <= i < |ys| && ys[i].Value? ensures After(ys[..i], START).time.Some? {
      if i < |xs| { assert ys[..i] == xs[..i]; }
    }
  }

  lemma ValueTracks(c: Consumer, accepted: seq<Message>, m: Message, room: Room)
    requires Tracks(c, accepted) && Typed(m)
    requires After(CurrentItems(c), START) == Reader(Some(m.time), m.core, m.tid)
    ensures var (b, ok) := Emit(c.b, Value(m.key, m.value), room);
            Tracks(c.(b := b), if ok then accepted + [m] else accepted)
  {
    TimedSnoc(CurrentItems(c), Value(m.key, m.value));
  }

  lemma CommitTracks(c: Consumer, accepted: seq<Message>)
    requires Tracks(c, accepted)
    ensures Tracks(Commit(c), accepted)
  {
    if c.b.current.Some? {
      AllMessagesSnoc(c.b.ended, c.b.current.value);
      assert Messages([], START) == [] && AllMessages(EndFrame(c.b).ended) + [] == accepted;
    }
  }

  /** One call keeps track, whether it is accepted, refused part way or ends the frame. */
  lemma SendTracks(c: Consumer, accepted: seq<Message>, m: Message, rooms: Rooms, due: bool)
    requires Tracks(c, accepted) && Typed(m)
    ensures var (c', ok) := Send(c, m, rooms, due);
            Tracks(c', if ok then accepted + [m] else accepted)
  {
    hide Tracks, Emit, Messages, AllMessages, Timed;
    var (c1, ok1) := SetTime(c, m, rooms.time);
    SetTimeTracks(c, accepted, m, rooms.time);
    if ok1 {
      var (c2, ok2) := SetCore(c1, m, rooms.core);
      SetCoreTracks(c1, accepted, m, rooms.core);
      if ok2 {
        var (c3, ok3) := SetTid(c2, m, rooms.tid);
        SetTidTracks(c2, accepted, m, rooms.tid);
        if ok3 {
          ValueTracks(c3, accepted, m, rooms.value);
          var (b, ok4) := Emit(c3.b, Value(m.key, m.value), rooms.value);
          if ok4 && due { CommitTracks(c3.(b := b), accepted + [m]); }
        }
      }
    }
  }

  lemma SetTimeTracks(c: Consumer, accepted: seq<Message>, m: Message, room: Room)
    requires Tracks(c, accepted) && Typed(m)
    ensures var (c', ok) := SetTime(c, m, room);
            Tracks(c', accepted) && (ok ==> After(CurrentItems(c'), START).time == Some(m.time))
  {
    ItemTracks(c, accepted, Time(m.time), room);
    TimedSnoc(CurrentItems(c), Time(m.time));
  }

  lemma SetCoreTracks(c: Consumer, accepted: seq<Message>, m: Message, room: Room)
    requires Tracks(c, accepted) && Typed(m)
    ensures var (c', ok) := SetCore(c, m, room);
            Tracks(c', accepted)
            && (ok ==> var d := After(CurrentItems(c'), START);
                  d.core == m.core && d.time == After(CurrentItems(c), START).time)
  {
    ItemTracks(c, accepted, Core(m.core), room);
    TimedSnoc(CurrentItems(c), Core(m.core));
  }

  lemma SetTidTracks(c: Consumer, accepted: seq<Message>, m: Message, room: Room)
    requires Tracks(c, accepted) && Typed(m)
    ensures var (c', ok) := SetTid(c, m, room);
            Tracks(c', accepted)
            && (ok ==> var d := After(CurrentItems(c'), START);
                  d.tid == m.tid && d.core == After(CurrentItems(c), START).core && d.time == After(CurrentItems(c), START).time)
  {
    ItemTracks(c, accepted, Tid(m.tid), room);
    TimedSnoc(CurrentItems(c), Tid(m.tid));
  }

  lemma {:induction false} SendAllTracks(calls: seq<Call>)
    requires forall i :: 0 <= i < |calls| ==> Typed(calls[i].m)
    ensures var (c, accepted) := SendAll(FRESH, calls); Tracks(c, accepted)
    decreases |calls|
  {
    hide Tracks, Send;
    if calls == [] {
      assert Tracks(FRESH, []) by { FreshTracks(); }
    } else {
      var (front, last) := (calls[..|calls| - 1], calls[|calls| - 1]);
      SendAllTracks(front);
      var (c, accepted) := SendAll(FRESH, front);
      SendTracks(c, accepted, last.m, last.rooms, last.due);
    }
  }

  lemma FreshTracks()
    ensures Tracks(FRESH, [])
  {
  }

  lemma EndedFrames(c: Consumer, accepted: seq<Message>)
    requires Tracks(c, accepted)
    ensures var fs := EndFrame(c.b).ended;
            && (forall i :: 0 <= i < |fs| ==> Timed(fs[i], START)) && TypedFrames(fs)
            && AllMessages(fs) == accepted
  {
    if c.b.current.Some? { AllMessagesSnoc(c.b.ended, c.b.current.value); }
  }

  /** The bodies of all frames once the last one is ended. */
  function Sent(c: Consumer): Option<seq<seq<byte>>> {
    var fs := EndFrame(c.b).ended;
    if TypedFrames(fs) then Some(FrameBodies(fs)) else None
  }

  /**
   * Whatever the room at each check and wherever frames split, reading the
   * frames gives exactly the accepted messages in order, provided no accepted
   * key is reserved: those refused leave nothing, and what was left out because
   * unchanged is put back.  With a reserved key among them it never does.
   */
  lemma DecodesToAccepted(calls: seq<Call>)
    requires forall i :: 0 <= i < |calls| ==> Typed(calls[i].m)
    ensures var (c, accepted) := SendAll(FRESH, calls);
            Sent(c).Some? && (ReadFrames(Sent(c).value) == Some(accepted) <==> OrdinaryKeys(accepted))
  {
    hide ReadFrames, Timed, Messages, FrameBodies, AllMessages, Tracks, Ordinary;
    var (c, accepted) := SendAll(FRESH, calls);
    SendAllTracks(calls);
    EndedFrames(c, accepted);
    var fs := EndFrame(c.b).ended;
    KeysOfFrames(fs);
    if OrdinaryKeys(accepted) {
      ReadFramesMeans(fs);
    } else {
      FramesCount(fs);
    }
  }

  const AMPLE := Room(100, 100)

  /** With room for everything, the builder takes a message whatever its key. */
  lemma AcceptsAnyKey(m: Message)
    ensures SendAll(FRESH, [Call(m, Rooms(AMPLE, AMPLE, AMPLE, AMPLE), false)]).1 == [m]
  {
    var calls := [Call(m, Rooms(AMPLE, AMPLE, AMPLE, AMPLE), false)];
    assert calls[..0] == [];
    assert SendAll(FRESH, []) == (FRESH, []);
    assert Send(FRESH, m, calls[0].rooms, false).1;
    assert [] + [m] == [m];
  }

  /** So every message with a reserved key is accepted and read back as something else, or not at all. */
  lemma ReservedKeyLost(m: Message)
    requires Typed(m) && Reserved(m.key)
    ensures var (c, accepted) := SendAll(FRESH, [Call(m, Rooms(AMPLE, AMPLE, AMPLE, AMPLE), false)]);
            accepted == [m] && Sent(c).Some? && ReadFrames(Sent(c).value) != Some(accepted)
  {
    hide SendAll, ReadFrames, Sent;
    AcceptsAnyKey(m);
    assert [m][0] == m && !OrdinaryKeys([m]);
    DecodesToAccepted([Call(m, Rooms(AMPLE, AMPLE, AMPLE, AMPLE), false)]);
  }

  predicate OrdinaryKeys(ms: seq<Message>) {
    forall i :: 0 <= i < |ms| ==> !Reserved(ms[i].key)
  }

  function CountOrdinary(ms: seq<Message>): (n: nat)
    ensures n <= |ms|
    ensures n == |ms| <==> OrdinaryKeys(ms)
  {
    if ms == [] then 0
    else CountOrdinary(ms[..|ms| - 1]) + if Reserved(ms[|ms| - 1].key) then 0 else 1
  }

  lemma {:induction false} CountConcat(a: seq<Message>, b: seq<Message>)
    ensures CountOrdinary(a + b) == CountOrdinary(a) + CountOrdinary(b)
    decreases |b|
  {
    if b == [] {
      assert a + b == a;
    } else {
      assert (a + b)[..|a + b| - 1] == a + b[..|b| - 1];
      CountConcat(a, b[..|b| - 1]);
    }
  }

  lemma OrdinaryConcat(a: seq<Message>, b: seq<Message>)
    ensures OrdinaryKeys(a + b) <==> OrdinaryKeys(a) && OrdinaryKeys(b)
  {
    CountConcat(a, b);
    assert CountOrdinary(a) <= |a| && CountOrdinary(b) <= |b|;
  }

  lemma {:induction false} KeysOfItems(xs: seq<Item>, d: Reader)
    ensures OrdinaryKeys(Messages(xs, d)) <==> Ordinary(xs)
    decreases |xs|
  {
    if xs != [] {
      var front, x := xs[..|xs| - 1], xs[|xs| - 1];
      KeysOfItems(front, d);
      assert xs == front + [x];
      OneItem(x, After(front, d));
      assert Messages(xs, d) == Messages(front, d) + Messages([x], After(front, d));
      OrdinaryConcat(Messages(front, d), Messages([x], After(front, d)));
      OrdinarySnoc(front, x);
      if x.Value? { assert Messages([x], After(front, d))[0].key == x.key; }
    }
  }

  lemma OrdinarySnoc(front: seq<Item>, x: Item)
    ensures Ordinary(front + [x]) <==> Ordinary(front) && (x.Value? ==> !Reserved(x.key))
  {
    var xs := front + [x];
    if Ordinary(xs) {
      forall i | 0 <= i < |front| && front[i].Value? ensures !Reserved(front[i].key) { assert xs[i] == front[i]; }
      assert xs[|front|] == x;
    }
  }

  lemma {:induction false} KeysOfFrames(fs: seq<seq<Item>>)
    ensures OrdinaryKeys(AllMessages(fs)) <==> forall i :: 0 <= i < |fs| ==> Ordinary(fs[i])
    decreases |fs|
  {
    hide Messages, Ordinary, OrdinaryKeys;
    if fs == [] {
      assert CountOrdinary([]) == 0;
    } else {
      KeysOfItems(fs[0], START);
      KeysOfFrames(fs[1..]);
      OrdinaryConcat(Messages(fs[0], START), AllMessages(fs[1..]));
      if forall i :: 0 <= i < |fs[1..]| ==> Ordinary(fs[1..][i]) {
        forall i | 1 <= i < |fs| ensures Ordinary(fs[i]) { assert fs[i] == fs[1..][i - 1]; }
      }
    }
  }

  /** A reader finds no more messages than there are values with an ordinary key, whatever its state. */
  lemma {:induction false} ItemsCount(xs: seq<Item>, d: Reader, e: Reader)
    requires TypedItems(xs)
    ensures match ReadItems(ItemsBytes(xs), d)
            case None => true
            case Some(ms) => |ms| <= CountOrdinary(Messages(xs, e))
    decreases |xs|, 0
  {
    hide ReadItems, Messages, CountOrdinary, ItemBytes, Step;
    if xs == [] {
      NoItems(d);
    } else {
      var x, tail := xs[0], xs[1..];
      assert [x] + tail == xs;
      MeaningCons(x, tail, e);
      CountConcat(Messages([x], e), Messages(tail, Step(e, x)));
      OneCount(x, e);
      ItemCount(x, tail, d, Step(e, x));
    }
  }

  lemma NoItems(d: Reader)
    ensures ReadItems([], d) == Some([])
  {
  }

  lemma OneCount(x: Item, e: Reader)
    ensures CountOrdinary(Messages([x], e)) == if x.Value? && !Reserved(x.key) then 1 else 0
  {
    OneItem(x, e);
  }

  lemma ItemCount(x: Item, tail: seq<Item>, d: Reader, e: Reader)
    requires TypedItem(x) && TypedItems(tail)
    ensures match ReadItems(ItemBytes(x) + ItemsBytes(tail), d)
            case None => true
            case Some(ms) => |ms| <= CountOrdinary(Messages(tail, e)) + if x.Value? && !Reserved(x.key) then 1 else 0
    decreases |tail|, 1
  {
    hide Pack, Unpack, Messages;
    var rest := ItemsBytes(tail);
    ItemFields(x, rest);
    ItemEnds(x, rest);
    var s, n := ItemBytes(x) + rest, |Pack(ItemKey(x))|;
    var v := Unpack(s[n..], if ItemKey(x) == 1 || ItemKey(x) == 2 then 32 else 64);
    if v.Some? {
      assert s[n + v.value.1..] == rest;
      var d' := if ItemKey(x) == 0 then Reader(Some(v.value.0 % UINT64_SIZE), d.core, 0)
                else if ItemKey(x) == 1 then d.(tid := v.value.0)
                else if ItemKey(x) == 2 then d.(core := v.value.0) else d;
      ItemsCount(tail, d', e);
    }
  }

  /** Whatever width the number is read with, a reader that accepts it stops at its end. */
  lemma ItemEnds(x: Item, rest: seq<byte>)
    requires TypedItem(x)
    ensures var s, n := ItemBytes(x) + rest, |Pack(ItemKey(x))|;
            forall width | width == 32 || width == 64 ::
              Unpack(s[n..], width).Some? ==> Unpack(s[n..], width).value.1 == |ItemBytes(x)| - n
  {
    hide Pack;
    var number := Pack(ItemNumber(x));
    PackMeans(ItemNumber(x));
    FieldLengthOf(number, rest);
    assert (ItemBytes(x) + rest)[|Pack(ItemKey(x))|..] == number + rest;
  }

  lemma {:induction false} FramesCount(fs: seq<seq<Item>>)
    requires TypedFrames(fs)
    ensures match ReadFrames(FrameBodies(fs))
            case None => true
            case Some(ms) => |ms| <= CountOrdinary(AllMessages(fs))
    decreases |fs|
  {
    hide ReadFrame, Messages, FrameBody;
    if fs != [] {
      FramesCount(fs[1..]);
      assert FrameBodies(fs)[1..] == FrameBodies(fs[1..]);
      FrameCount(fs[0]);
      CountConcat(Messages(fs[0], START), AllMessages(fs[1..]));
    }
  }

  lemma FrameCount(xs: seq<Item>)
    requires TypedItems(xs)
    ensures match ReadFrame(FrameBody(xs))
            case None => true
            case Some(ms) => |ms| <= CountOrdinary(Messages(xs, START))
  {
    hide Pack, Unpack, Messages;
    var body := FrameBody(xs);
    assert body[1..] == Pack(0) + ItemsBytes(xs);
    UnpackPack(0, ItemsBytes(xs));
    assert body[1 + |Pack(0)|..] == ItemsBytes(xs);
    ItemsCount(xs, Reader(None, 0, 0), START);
  }
}
