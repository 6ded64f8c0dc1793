/** The annotation client's ring of one thread, in place: writing a message and sending what is there. */
module AnnotateRing {
  import opened Bytes
  import opened Rings
  import opened SpscRing
  import opened RingStores
  import opened Leb128
  import opened Records
  import opened Annotations

  /** One cell stays free, so that equal positions mean an empty ring. */
  const SLACK := 1
  const SIZE := THREAD_BUFFER_SIZE
  /** Where the size is patched in, past the marker. */
  const SIZE_AT := 1

  /** The ring with a whole message stored in the room claimed for it: marker, payload, then the size. */
  function MessageStored(r: Ring, mark: byte, payload: seq<byte>): Ring
    requires r.Ok(SLACK) && HEADER + |payload| <= r.claimed && |payload| < 0x1_0000_0000
  {
    var marked := StoreAll(r, 0, [mark], SLACK);
    var filled := StoreAll(marked, HEADER, payload, SLACK);
    StoreAll(filled, SIZE_AT, LE32(|payload|), SLACK)
  }

  /** Read from the commit position, it is the encoding of the record. */
  lemma MessageOpen(r: Ring, mark: byte, payload: seq<byte>)
    requires r.Ok(SLACK) && HEADER + |payload| <= r.claimed && |payload| < 0x1_0000_0000
    ensures var t := MessageStored(r, mark, payload);
            && t.Open(HEADER + |payload|) == Encode(Record([mark], payload))
            && t.Rest(0) == r.Rest(0)
  {
    hide Wrap, Put, Slice, LE32;
    var n := HEADER + |payload|;
    var marked := StoreAll(r, 0, [mark], SLACK);
    var filled := StoreAll(marked, HEADER, payload, SLACK);
    var t := StoreAll(filled, SIZE_AT, LE32(|payload|), SLACK);
    StoreAllOpen(r, 0, [mark], SLACK);
    StoreAllOpen(marked, HEADER, payload, SLACK);
    StoreAllOpen(filled, SIZE_AT, LE32(|payload|), SLACK);
    StoreAllRest(r, 0, [mark], SLACK, 0);
    StoreAllRest(marked, HEADER, payload, SLACK, 0);
    StoreAllRest(filled, SIZE_AT, LE32(|payload|), SLACK, 0);
    OpenFront(marked, HEADER);
    OpenFront(filled, SIZE_AT);
    OpenFront(t, n);
    assert marked.Open(r.claimed)[..1] == [mark];
    assert filled.Open(r.claimed)[..1] == marked.Open(r.claimed)[..1];
    assert filled.Open(r.claimed)[HEADER..n] == payload;
    assert filled.Open(r.claimed)[HEADER..][..|payload|] == payload;
    assert t.Open(r.claimed)[..n] == [mark] + LE32(|payload|) + payload;
  }

  lemma OpenFront(r: Ring, n: nat)
    requires r.Ok(SLACK) && n <= r.claimed
    ensures r.Open(n) == r.Open(r.claimed)[..n]
  {
    hide Wrap, Put, Slice;
    SliceSplit(r.buf, r.Commit(), n, r.claimed - n);
  }

  /** The stores of one message, byte by byte. */
  function MessageSteps(claim: nat, mark: byte, payload: seq<byte>): seq<Step>
    requires |payload| < 0x1_0000_0000
  {
    [Claim(claim)] + StoreSteps(0, [mark]) + StoreSteps(HEADER, payload) + StoreSteps(SIZE_AT, LE32(|payload|))
    + [Publish(HEADER + |payload|)]
  }

  lemma {:induction false} RunsConcat(s: State, a: seq<Step>, m: State, b: seq<Step>, t: State)
    requires Runs(s, a, SLACK, m) && Runs(m, b, SLACK, t)
    ensures Runs(s, a + b, SLACK, t)
    decreases |a|
  {
    hide Enabled, Apply;
    if a == [] {
      assert a + b == b;
    } else {
      RunsConcat(Apply(s, a[0], SLACK), a[1..], m, b, t);
      assert (a + b)[1..] == a[1..] + b;
    }
  }

  /**
   * Writing a message is a run of the ring machine that publishes exactly its
   * encoding, whatever the sender does between any two of its stores.
   */
  lemma MessageIsRun(s: State, claim: nat, mark: byte, payload: seq<byte>)
    requires s.ring.Ok(SLACK) && s.ring.claimed == 0 && s.ring.used + claim + SLACK <= |s.ring.buf|
    requires HEADER + |payload| <= claim && |payload| < 0x1_0000_0000
    ensures var ring := Published(MessageStored(s.ring.(claimed := claim), mark, payload), HEADER + |payload|, SLACK);
            Runs(s, MessageSteps(claim, mark, payload), SLACK,
                 s.(ring := ring, msgs := s.msgs + [Encode(Record([mark], payload))]))
  {
    hide Wrap, Put, Slice, LE32;
    var s1 := s.(ring := s.ring.(claimed := claim));
    var s2 := s1.(ring := StoreAll(s1.ring, 0, [mark], SLACK));
    var s3 := s2.(ring := StoreAll(s2.ring, HEADER, payload, SLACK));
    var s4 := s3.(ring := StoreAll(s3.ring, SIZE_AT, LE32(|payload|), SLACK));
    OneStep(s, Claim(claim));
    StoreAllRuns(s1, 0, [mark], SLACK);
    StoreAllRuns(s2, HEADER, payload, SLACK);
    StoreAllRuns(s3, SIZE_AT, LE32(|payload|), SLACK);
    hide Runs;
    MessageOpen(s1.ring, mark, payload);
    OneStep(s4, Publish(HEADER + |payload|));
    RunsConcat(s, [Claim(claim)], s1, StoreSteps(0, [mark]), s2);
    RunsConcat(s, [Claim(claim)] + StoreSteps(0, [mark]), s2, StoreSteps(HEADER, payload), s3);
    RunsConcat(s, [Claim(claim)] + StoreSteps(0, [mark]) + StoreSteps(HEADER, payload), s3, StoreSteps(SIZE_AT, LE32(|payload|)), s4);
    RunsConcat(s, [Claim(claim)] + StoreSteps(0, [mark]) + StoreSteps(HEADER, payload) + StoreSteps(SIZE_AT, LE32(|payload|)), s4,
               [Publish(HEADER + |payload|)], Apply(s4, Publish(HEADER + |payload|), SLACK));
  }

  lemma OneStep(s: State, step: Step)
    requires s.ring.Ok(SLACK) && Enabled(s, step, SLACK)
    ensures Runs(s, [step], SLACK, Apply(s, step, SLACK))
  {
    hide Enabled, Apply;
    assert [step][1..] == [];
  }

  lemma PayloadStep(fs: seq<Field>, i: nat)
    requires i < |fs|
    ensures PayloadOf(fs[..i + 1]) == PayloadOf(fs[..i]) + FieldBytes(fs[i])
    ensures |PayloadOf(fs[..i + 1])| <= |PayloadOf(fs)|
  {
    PayloadConcat(fs[..i], [fs[i]]);
    assert fs[..i + 1] == fs[..i] + [fs[i]];
    PayloadConcat(fs[..i + 1], fs[i + 1..]);
    assert fs == fs[..i + 1] + fs[i + 1..];
    assert FieldsBytes([fs[i]]) == [FieldBytes(fs[i])];
    assert Flatten([FieldBytes(fs[i])]) == FieldBytes(fs[i]);
  }

  // ---- In place ----

  lemma {:induction false} ActivityRoomAtLeast(xs: seq<(seq<byte>, nat)>)
    ensures ActivityRoom(xs) >= SIZE_COLOR * |xs|
  {
    if xs != [] { ActivityRoomAtLeast(xs[1..]); }
  }

  /** A message that reserved at most half the ring never takes the whole of it. */
  lemma MessageBelowSize(a: Annotation)
    requires Reservation(a) <= SIZE / 2
    ensures HEADER + |Payload(a)| < SIZE
  {
    hide Payload, Spare;
    if a.Counter? {
      CounterFits(a);
      ActivityRoomAtLeast(a.definition.activities);
    } else {
      hide Reservation;
      BuilderFits(a);
    }
  }

  /**
   * The room a builder waits for suffices, unless it is a counter with more
   * activities than spare bytes; then it does not when only that room is free.
   */
  lemma RoomSuffices(a: Annotation, used: nat)
    requires used + Reservation(a) + SLACK <= SIZE
    ensures (!a.Counter? || |a.definition.activities| <= Spare(a.definition)) ==> used + HEADER + |Payload(a)| + SLACK <= SIZE
    ensures used + Reservation(a) + SLACK == SIZE && a.Counter? && |a.definition.activities| > Spare(a.definition)
      ==> used + HEADER + |Payload(a)| + SLACK > SIZE
  {
    hide Payload, Spare, Reservation;
    if a.Counter? { CounterFits(a); } else { BuilderFits(a); }
  }

  class ThreadRing {
    const buf: array<byte>
    var readPos: nat
    var writePos: nat

    ghost predicate Valid()
      reads this
    {
      buf.Length == SIZE && readPos < SIZE && writePos < SIZE
    }

    ghost function AsRing(): Ring
      requires Valid()
      reads this, buf
    {
      Ring(buf[..], readPos, Dist(readPos, writePos, SIZE), 0)
    }

    constructor ()
      ensures Valid() && fresh(buf) && AsRing().used == 0
    {
      buf := new byte[SIZE];
      readPos, writePos := 0, 0;
    }

    method Free() returns (n: nat)
      requires Valid()
      ensures n + AsRing().used == SIZE - 1
    {
      var d := readPos - writePos - 1;
      n := if d < 0 then d + SIZE else d;
    }

    method Used() returns (n: nat)
      requires Valid()
      ensures n == AsRing().used
    {
      var d := writePos - readPos;
      n := if d < 0 then d + SIZE else d;
    }

    method WriteByte(pos: nat, b: byte) returns (newPos: nat, count: nat)
      requires Valid() && pos < SIZE
      modifies buf
      ensures buf[..] == Put(old(buf[..]), pos, [b]) && newPos == Wrap(pos + 1, SIZE) && count == 1
    {
      PutOne(buf[..], pos, b);
      buf[pos] := b;
      newPos, count := Wrap(pos + 1, SIZE), 1;
    }

    /** Four bytes stored one by one around the ring: a size, or a colour. */
    method WriteFour(pos: nat, data: seq<byte>) returns (newPos: nat, count: nat)
      requires Valid() && pos < SIZE && |data| == 4
      modifies buf
      ensures buf[..] == Put(old(buf[..]), pos, data) && newPos == Wrap(pos + 4, SIZE) && count == 4
    {
      for k := 0 to 4
        invariant buf[..] == Put(old(buf[..]), pos, data[..k])
      {
        PutSnoc(old(buf[..]), pos, data, k);
        buf[Wrap(pos + k, SIZE)] := data[k];
      }
      assert data[..4] == data;
      newPos, count := Wrap(pos + 4, SIZE), 4;
    }

    /** Copies in one piece, or in two around the end of the ring. */
    method WriteBytes(pos: nat, data: seq<byte>) returns (newPos: nat, count: nat)
      requires Valid() && pos < SIZE && |data| <= SIZE
      modifies buf
      ensures buf[..] == Put(old(buf[..]), pos, data) && newPos == Wrap(pos + |data|, SIZE) && count == |data|
    {
      var first := if pos + |data| <= SIZE then |data| else SIZE - pos;
      forall i | 0 <= i < first { buf[pos + i] := data[i]; }
      forall i | first <= i < |data| { buf[i - first] := data[i]; }
      PutHalves(old(buf[..]), pos, data, first, buf[..]);
      newPos, count := Wrap(pos + |data|, SIZE), |data|;
    }

    method WriteField(pos: nat, f: Field) returns (newPos: nat, count: nat)
      requires Valid() && pos < SIZE && |FieldBytes(f)| <= SIZE
      modifies buf
      ensures buf[..] == Put(old(buf[..]), pos, FieldBytes(f))
      ensures newPos == Wrap(pos + |FieldBytes(f)|, SIZE) && count == |FieldBytes(f)|
    {
      hide Put, Wrap, Pack;
      match f
      case Int(x) => newPos, count := PackInto(buf, pos, AsInt32(x), true);
      case Long(x) => newPos, count := PackInto(buf, pos, AsInt64(x), true);
      case Color(_) => newPos, count := WriteFour(pos, FieldBytes(f));
      case Text(text) => newPos, count := WriteBytes(pos, text);
      case Null => newPos, count := WriteByte(pos, 0);
    }

    /** The fields of one message, each where the last one ended. */
    method WriteFields(start: nat, fields: seq<Field>) returns (pos: nat, length: nat)
      requires Valid() && start < SIZE && |PayloadOf(fields)| <= SIZE
      modifies buf
      ensures buf[..] == Put(old(buf[..]), start, PayloadOf(fields))
      ensures length == |PayloadOf(fields)| && pos == Wrap(start + length, SIZE)
    {
      hide Put, Wrap, FieldBytes, PayloadOf;
      assert PayloadOf(fields[..0]) == [] && Put(buf[..], start, []) == buf[..] && Wrap(start + 0, SIZE) == start by {
        NothingPut(buf[..], start, fields);
      }
      pos, length := start, 0;
      for i := 0 to |fields|
        invariant length == |PayloadOf(fields[..i])| <= SIZE
        invariant pos == Wrap(start + length, SIZE)
        invariant buf[..] == Put(old(buf[..]), start, PayloadOf(fields[..i]))
      {
        PayloadStep(fields, i);
        PutConcat(old(buf[..]), start, PayloadOf(fields[..i]), FieldBytes(fields[i]));
        WrapWrap(start, length, |FieldBytes(fields[i])|, SIZE);
        var count;
        pos, count := WriteField(pos, fields[i]);
        length := length + count;
      }
      assert fields[..|fields|] == fields;
    }

    /**
     * A builder, once its wait for room has ended.  A message that reserved
     * more than half the ring is not written at all.  Any other is published
     * whole, its size field being the length of its payload, provided it fits
     * in what is free; a counter that outgrows both its reservation and that
     * runs over the read position, and what was pending is lost.
     */
    method Annotate(a: Annotation) returns (written: bool)
      requires Valid() && Reservation(a) < 0x1_0000_0000
      requires Reservation(a) <= SIZE / 2 ==> AsRing().used + Reservation(a) + SLACK <= SIZE
      modifies this`writePos, buf
      ensures Valid() && readPos == old(readPos) && written == (Reservation(a) <= SIZE / 2)
      ensures !written ==> AsRing() == old(AsRing())
      ensures written ==> HEADER + |Payload(a)| < SIZE
      ensures written && old(AsRing().used) + HEADER + |Payload(a)| + SLACK <= SIZE ==>
        AsRing().Rest(0) == old(AsRing().Rest(0)) + Encode(AsRecord(a))
      ensures written && old(AsRing().used) + HEADER + |Payload(a)| + SLACK > SIZE ==>
        AsRing().used == old(AsRing().used) + HEADER + |Payload(a)| - SIZE
    {
      hide Put, Wrap, Dist, Slice, LE32, Reservation, PayloadOf, Fields;
      written := Reservation(a) <= SIZE / 2;
      if !written { return; }
      MessageBelowSize(a);
      ghost var used, n := AsRing().used, HEADER + |Payload(a)|;
      ghost var r := AsRing().(claimed := if used + n + SLACK <= SIZE then n else 0);
      MessagePositions(readPos, used, writePos, |Payload(a)|, SIZE);
      var at, sizePos, length, count;
      at, count := WriteByte(writePos, Mark(a));
      sizePos := at;
      at := Wrap(at + 4, SIZE);
      at, length := WriteFields(at, Fields(a));
      sizePos, count := WriteFour(sizePos, LE32(length));
      if used + n + SLACK <= SIZE {
        MessagePlaced(r, writePos, Wrap(writePos + HEADER, SIZE), Wrap(writePos + SIZE_AT, SIZE), Mark(a), Payload(a));
      }
      writePos := at;
    }

    /** One send of what lies in one piece from the read position on, and the release of what it took. */
    method SendPiece(asked: nat, answer: int) returns (ok: bool, sent: seq<byte>)
      requires Valid() && asked <= AsRing().used && readPos + asked <= SIZE && answer <= asked
      modifies this`readPos
      ensures Valid() && ok == (answer >= 0) && |sent| == (if ok then answer else 0)
      ensures readPos == Wrap(old(readPos) + |sent|, SIZE) && AsRing().used == old(AsRing().used) - |sent|
      ensures old(AsRing().Rest(0)) == sent + AsRing().Rest(0)
    {
      hide Slice, Put;
      if answer <= 0 {
        assert Wrap(readPos + 0, SIZE) == readPos && [] + AsRing().Rest(0) == AsRing().Rest(0);
        return answer == 0, [];
      }
      TakeFront(AsRing(), answer);
      ReleasedPositions(readPos, writePos, answer, SIZE);
      ok, sent := true, buf[readPos..readPos + answer];
      readPos := Wrap(readPos + answer, SIZE);
    }

    /**
     * `gator_send` up to a write position loaded before, with what each send
     * answered: whatever goes out is the front of what was published, and it
     * alone is released.
     */
    method Send(loaded: nat, first: int, second: int, ghost ahead: nat) returns (ok: bool, sent: seq<byte>)
      requires Valid() && 0 < ahead <= AsRing().used && loaded == Wrap(readPos + ahead, SIZE)
      requires first <= if loaded > readPos then loaded - readPos else SIZE - readPos
      requires second <= loaded
      modifies this`readPos
      ensures Valid() && |sent| <= ahead && AsRing().used == old(AsRing().used) - |sent|
      ensures old(AsRing().Rest(0)) == sent + AsRing().Rest(0)
      ensures var again := loaded <= old(readPos) && first == SIZE - old(readPos);
              && ok == (first >= 0 && (again ==> second >= 0))
              && |sent| == (if first < 0 then 0 else first) + if again && second > 0 then second else 0
    {
      hide Slice, Put;
      if loaded > readPos {
        ok, sent := SendPiece(loaded - readPos, first);
      } else {
        var toEnd := SIZE - readPos;
        ok, sent := SendPiece(toEnd, first);
        if ok && first == toEnd {
          var more;
          ok, more := SendPiece(loaded, second);
          assert sent + (more + AsRing().Rest(0)) == (sent + more) + AsRing().Rest(0);
          sent := sent + more;
        }
      }
    }
  }

  /** Taking bytes that lie in one piece from the front of the ring. */
  lemma TakeFront(r: Ring, count: nat)
    requires r.Ok(SLACK) && count <= r.used && r.read + count <= |r.buf|
    ensures r.Rest(0) == r.buf[r.read..r.read + count] + Released(r, count, SLACK).Rest(0)
  {
    hide Slice, Put;
    RestSplit(r, 0, count, SLACK);
    SliceHalves(r.buf, r.read, count);
    ReleaseKeepsRest(r, count, SLACK, count);
  }

  lemma ReleasedPositions(read: nat, write: nat, count: nat, n: nat)
    requires read < n && write < n && count <= Dist(read, write, n)
    ensures Dist(Wrap(read + count, n), write, n) == Dist(read, write, n) - count
  {
  }

  lemma NothingPut(b: seq<byte>, start: nat, fields: seq<Field>)
    requires start < |b|
    ensures PayloadOf(fields[..0]) == [] && Put(b, start, []) == b && Wrap(start + 0, |b|) == start
  {
    assert FieldsBytes(fields[..0]) == [];
  }

  /** The positions the builder computes, as distances from the message's start. */
  lemma MessagePositions(read: nat, used: nat, w: nat, length: nat, n: nat)
    requires read < n && w < n && used == Dist(read, w, n) && HEADER + length < n
    ensures var at, total := Wrap(Wrap(w + 1, n) + 4, n), used + HEADER + length;
            && Wrap(w + 0, n) == w == Wrap(read + used, n) && at == Wrap(w + HEADER, n)
            && Dist(read, Wrap(at + length, n), n) == if total < n then total else total - n
  {
  }

  /** Stored at those positions and published, the message follows whatever was pending. */
  lemma MessagePlaced(r: Ring, w: nat, at: nat, sizeAt: nat, mark: byte, payload: seq<byte>)
    requires r.Ok(SLACK) && HEADER + |payload| <= r.claimed && |payload| < 0x1_0000_0000
    requires w == Wrap(r.Commit() + 0, |r.buf|) && sizeAt == Wrap(r.Commit() + SIZE_AT, |r.buf|) && at == Wrap(r.Commit() + HEADER, |r.buf|)
    ensures var b := Put(Put(Put(r.buf, w, [mark]), at, payload), sizeAt, LE32(|payload|));
            Ring(b, r.read, r.used + HEADER + |payload|, 0).Rest(0) == r.Rest(0) + Encode(Record([mark], payload))
  {
    hide Put, Slice, LE32, Wrap;
    MessageOpen(r, mark, payload);
    PublishExtends(MessageStored(r, mark, payload), HEADER + |payload|, SLACK, 0);
  }
}
