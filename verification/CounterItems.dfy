/**
 * Exactly when the compressor takes a message, and exactly what it then writes,
 * both from the items of the frame so far.
 */
module CounterItems {
  import opened FrameBuffer
  import opened Leb128
  import opened Options
  import opened BlockCounter

  /** A time is written unless it is the last one in this frame; the time that stands for none always is. */
  predicate NeedsTime(items: seq<Item>, m: Message) {
    After(items, START).time != Some(m.time) || m.time == INVALID_TIME
  }

  /** A core is written when it differs from the last one in this frame, which starts on core 0. */
  predicate NeedsCore(items: seq<Item>, m: Message) { After(items, START).core != m.core }

  /** A tid is written when it differs from the last one since the last time, 0 if there is none. */
  predicate NeedsTid(items: seq<Item>, m: Message) {
    m.tid != if NeedsTime(items, m) then 0 else After(items, START).tid
  }

  /** What a message adds to a frame. */
  function Needed(items: seq<Item>, m: Message): seq<Item> {
    (if NeedsTime(items, m) then [Time(m.time)] else [])
    + (if NeedsCore(items, m) then [Core(m.core)] else [])
    + (if NeedsTid(items, m) then [Tid(m.tid)] else [])
    + [Value(m.key, m.value)]
  }

  /** Each item needed finds its room, and a new frame room for its header. */
  predicate HasRoom(current: Option<seq<Item>>, m: Message, rooms: Rooms) {
    var items := current.GetOr([]);
    && (current.None? ==> rooms.time.start >= MAX_FRAME_HEADER_SIZE + MAXSIZE_PACK32)
    && (NeedsTime(items, m) ==> rooms.time.item >= MAXSIZE_PACK32 + MAXSIZE_PACK64)
    && (NeedsCore(items, m) ==> rooms.core.item >= 2 * MAXSIZE_PACK32)
    && (NeedsTid(items, m) ==> rooms.tid.item >= 2 * MAXSIZE_PACK32)
    && rooms.value.item >= MAXSIZE_PACK32 + MAXSIZE_PACK64
  }

  /**
   * A call accepted adds exactly the items needed, and ends the frame if it is
   * due; one refused leaves some of them, and no ended frame changes.
   */
  predicate Writes(before: Builder, m: Message, due: bool, after: Builder, ok: bool) {
    var items := before.current.GetOr([]);
    var all := items + Needed(items, m);
    if ok then after == if due then Builder(None, before.ended + [all]) else Builder(Some(all), before.ended)
    else after.ended == before.ended && items <= after.current.GetOr([]) < all
  }

  /** The items one by one, and all at once. */
  lemma Joined(items: seq<Item>, time: seq<Item>, core: seq<Item>, tid: seq<Item>, value: Item)
    ensures var all := items + (time + core + tid + [value]);
            && items + time + core + tid + [value] == all
            && items < all && items + time < all && items + time + core < all && items + time + core + tid < all
            && items <= items + time && items <= items + time + core && items <= items + time + core + tid
  {
    assert items + time + core + tid + [value] == items + (time + core + tid + [value]);
  }

  // ---- The three items that may be left out ----

  lemma TimeRoom(c: Consumer, m: Message, room: Room)
    requires InStep(c, After(CurrentItems(c), START))
    ensures var (c', ok) := SetTime(c, m, room);
            && (ok <==> && (c.b.current.None? ==> room.start >= MAX_FRAME_HEADER_SIZE + MAXSIZE_PACK32)
                        && (NeedsTime(CurrentItems(c), m) ==> room.item >= MAXSIZE_PACK32 + MAXSIZE_PACK64))
            && c'.core == c.core && (ok ==> c'.b.current.Some? && c'.tid == if NeedsTime(CurrentItems(c), m) then 0 else c.tid)
  {
    hide After;
    if c.b.current.None? { assert After([], START) == START by { NothingYet(); } }
  }

  lemma TimeItems(c: Consumer, m: Message, room: Room)
    requires InStep(c, After(CurrentItems(c), START))
    ensures var (c', ok) := SetTime(c, m, room);
            var items := CurrentItems(c);
            CurrentItems(c') == items + (if ok && NeedsTime(items, m) then [Time(m.time)] else []) && c'.b.ended == c.b.ended
  {
    hide After;
  }

  lemma CoreRoom(c: Consumer, m: Message, room: Room)
    requires c.b.current.Some?
    ensures var (c', ok) := SetCore(c, m, room);
            (ok <==> (c.core != m.core ==> room.item >= 2 * MAXSIZE_PACK32)) && c'.tid == c.tid && c'.b.current.Some?
  {
  }

  lemma CoreItems(c: Consumer, m: Message, room: Room)
    requires c.b.current.Some?
    ensures var (c', ok) := SetCore(c, m, room);
            CurrentItems(c') == CurrentItems(c) + (if ok && c.core != m.core then [Core(m.core)] else []) && c'.b.ended == c.b.ended
  {
  }

  lemma TidRoom(c: Consumer, m: Message, room: Room)
    requires c.b.current.Some?
    ensures var (c', ok) := SetTid(c, m, room);
            (ok <==> (c.tid != m.tid ==> room.item >= 2 * MAXSIZE_PACK32)) && c'.b.current.Some?
  {
  }

  lemma TidItems(c: Consumer, m: Message, room: Room)
    requires c.b.current.Some?
    ensures var (c', ok) := SetTid(c, m, room);
            CurrentItems(c') == CurrentItems(c) + (if ok && c.tid != m.tid then [Tid(m.tid)] else []) && c'.b.ended == c.b.ended
  {
  }

  lemma RoomDecides(c: Consumer, m: Message, rooms: Rooms, due: bool)
    requires InStep(c, After(CurrentItems(c), START))
    ensures Send(c, m, rooms, due).1 <==> HasRoom(c.b.current, m, rooms)
  {
    hide After, SetTime, SetCore, SetTid, NeedsTime;
    TimeRoom(c, m, rooms.time);
    var (c1, ok1) := SetTime(c, m, rooms.time);
    if ok1 {
      CoreRoom(c1, m, rooms.core);
      var (c2, ok2) := SetCore(c1, m, rooms.core);
      if ok2 { TidRoom(c2, m, rooms.tid); }
    }
  }

  lemma ItemsWritten(c: Consumer, m: Message, rooms: Rooms, due: bool)
    requires InStep(c, After(CurrentItems(c), START))
    ensures var (c', ok) := Send(c, m, rooms, due); Writes(c.b, m, due, c'.b, ok)
  {
    hide After, SetTime, SetCore, SetTid, NeedsTime;
    var items := CurrentItems(c);
    var time := if NeedsTime(items, m) then [Time(m.time)] else [];
    var core := if NeedsCore(items, m) then [Core(m.core)] else [];
    var tid := if NeedsTid(items, m) then [Tid(m.tid)] else [];
    Joined(items, time, core, tid, Value(m.key, m.value));
    var (c1, ok1) := SetTime(c, m, rooms.time);
    TimeRoom(c, m, rooms.time);
    TimeItems(c, m, rooms.time);
    if !ok1 { return; }
    var (c2, ok2) := SetCore(c1, m, rooms.core);
    CoreRoom(c1, m, rooms.core);
    CoreItems(c1, m, rooms.core);
    if !ok2 { return; }
    var (c3, ok3) := SetTid(c2, m, rooms.tid);
    assert CurrentItems(c2) == items + time + core;
    TidRoom(c2, m, rooms.tid);
    TidItems(c2, m, rooms.tid);
    if !ok3 { return; }
    assert CurrentItems(c3) == items + time + core + tid;
  }

  lemma TracksInStep(c: Consumer, accepted: seq<Message>)
    requires Tracks(c, accepted)
    ensures InStep(c, After(CurrentItems(c), START))
  {
  }

  lemma NothingYet()
    ensures After([], START) == START
  {
  }

  /**
   * After any sequence of calls, with any room at each check: the next message
   * is accepted if and only if every item it needs finds its room, and then
   * exactly those items are added.
   */
  lemma AcceptsExactly(calls: seq<Call>, m: Message, rooms: Rooms, due: bool)
    requires (forall i :: 0 <= i < |calls| ==> Typed(calls[i].m)) && Typed(m)
    ensures var c := SendAll(FRESH, calls).0;
            var (c', ok) := Send(c, m, rooms, due);
            && (ok <==> HasRoom(c.b.current, m, rooms)) && Writes(c.b, m, due, c'.b, ok)
  {
    hide SendAll, Send, Tracks, HasRoom, Writes;
    SendAllTracks(calls);
    var (c, accepted) := SendAll(FRESH, calls);
    assert InStep(c, After(CurrentItems(c), START)) by { TracksInStep(c, accepted); }
    RoomDecides(c, m, rooms, due);
    ItemsWritten(c, m, rooms, due);
  }

  predicate AmpleRoom(room: Room) {
    room.start >= MAX_FRAME_HEADER_SIZE + MAXSIZE_PACK32 && room.item >= MAXSIZE_PACK32 + MAXSIZE_PACK64
  }

  predicate Ample(rooms: Rooms) {
    AmpleRoom(rooms.time) && AmpleRoom(rooms.core) && AmpleRoom(rooms.tid) && AmpleRoom(rooms.value)
  }

  function MessagesOf(calls: seq<Call>): (ms: seq<Message>)
    ensures |ms| == |calls|
  {
    seq(|calls|, i requires 0 <= i < |calls| => calls[i].m)
  }

  /** With ample room nothing is ever refused, wherever frames end. */
  lemma {:induction false} AmpleAcceptsAll(calls: seq<Call>)
    requires forall i :: 0 <= i < |calls| ==> Typed(calls[i].m) && Ample(calls[i].rooms)
    ensures SendAll(FRESH, calls).1 == MessagesOf(calls)
    decreases |calls|
  {
    hide Send, NeedsTime, NeedsCore, NeedsTid;
    if calls != [] {
      var front, last := calls[..|calls| - 1], calls[|calls| - 1];
      AmpleAcceptsAll(front);
      AcceptsExactly(front, last.m, last.rooms, last.due);
      assert MessagesOf(calls) == MessagesOf(front) + [last.m];
    }
  }
}
