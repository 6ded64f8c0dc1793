/**
 * Reading a text file through a fixed buffer and passing it on in chunks that
 * end at a newline.  The partial line after a chunk is moved to the front of
 * the buffer.
 *
 * The file is a byte sequence and the reads are a script: each entry is a
 * failed read or the most a short read delivers.  The done flag is seen when
 * the script ends.
 */
module Kallsyms {
  import opened Bytes

  const BUFFER_SIZE := 4096
  const NEWLINE: byte := 10

  datatype Read = Failed | Short(most: nat)

  datatype Outcome = EndOfFile | Stopped | NoSpace | ReadFailed | NotEmptyAtEnd | WouldOverlap

  /** What a read at `position` delivers: at least one byte, unless the file has ended. */
  function Delivered(file: seq<byte>, position: nat, most: nat, room: nat): (n: nat)
    requires position <= |file| && room > 0
    ensures n <= room && position + n <= |file|
    ensures n == 0 <==> position == |file|
  {
    var wanted := if most == 0 then 1 else if most > room then room else most;
    if position + wanted > |file| then |file| - position else wanted
  }

  /** One past the last newline, or 0. */
  function LineEnd(s: seq<byte>): (n: nat)
    ensures n <= |s|
    ensures n > 0 ==> s[n - 1] == NEWLINE
    ensures NEWLINE !in s[n..]
  {
    if s == [] then 0
    else if s[|s| - 1] == NEWLINE then |s|
    else
      var n := LineEnd(s[..|s| - 1]);
      assert s[n..] == s[..|s| - 1][n..] + [s[|s| - 1]];
      n
  }

  /** The consumer is given a C string. */
  function UpToNull(s: seq<byte>): seq<byte> {
    if s == [] || s[0] == 0 then [] else [s[0]] + UpToNull(s[1..])
  }

  datatype Lines = None | Some(chunk: seq<byte>, rest: seq<byte>) | Refused(chunk: seq<byte>)

  /**
   * The buffer cut after its last newline.  The complete lines are passed on
   * even when the rest is then found too long to be moved.
   */
  function Split(s: seq<byte>): Lines {
    var k := LineEnd(s);
    if k == 0 then None
    else if |s| - k + 1 >= k then Refused(UpToNull(s[..k]))
    else Some(UpToNull(s[..k]), s[k..])
  }

  type Result = (seq<seq<byte>>, Outcome)

  function Cons(chunk: seq<byte>, r: Result): Result { ([chunk] + r.0, r.1) }

  /** The chunks and the outcome, with `pending` at the front of the buffer. */
  function Rechunk(file: seq<byte>, position: nat, pending: seq<byte>, script: seq<Read>): Result
    requires position <= |file| && |pending| < BUFFER_SIZE
    decreases |script|, 0
  {
    if script == [] then ([], Stopped)
    else if |pending| == BUFFER_SIZE - 1 then ([], NoSpace)
    else if script[0].Failed? then ([], ReadFailed)
    else
      var n := Delivered(file, position, script[0].most, BUFFER_SIZE - 1 - |pending|);
      if n == 0 then ([], if pending == [] then EndOfFile else NotEmptyAtEnd)
      else AfterRead(file, position + n, pending + file[position..position + n], script[1..])
  }

  function AfterRead(file: seq<byte>, position: nat, s: seq<byte>, script: seq<Read>): Result
    requires position <= |file| && |s| < BUFFER_SIZE
    decreases |script|, 1
  {
    match Split(s)
    case None => Rechunk(file, position, s, script)
    case Refused(chunk) => ([chunk], WouldOverlap)
    case Some(chunk, rest) => Cons(chunk, Rechunk(file, position, rest, script))
  }

  lemma {:induction false} UpToNullWhole(s: seq<byte>)
    requires 0 !in s
    ensures UpToNull(s) == s
  {
    if s != [] {
      assert s[0] in s;
      forall b | b in s[1..] ensures b != 0 { assert b in s; }
      UpToNullWhole(s[1..]);
    }
  }

  predicate EndsLine(chunk: seq<byte>) { chunk != [] && chunk[|chunk| - 1] == NEWLINE }

  /** What the chunks and the outcome say about the bytes from `pending` on and about the reads. */
  ghost predicate Explains(text: seq<byte>, script: seq<Read>, r: Result) {
    && (forall chunk :: chunk in r.0 ==> EndsLine(chunk))
    && Flatten(r.0) <= text
    && (r.1 == EndOfFile ==> Flatten(r.0) == text)
    && (r.1 == NotEmptyAtEnd ==> |Flatten(r.0)| < |text| && NEWLINE !in text[|Flatten(r.0)|..])
    && (r.1 == NoSpace ==> NoNewline(text, |Flatten(r.0)|, BUFFER_SIZE - 1))
    && (r.1 == WouldOverlap ==> LongRest(text, r.0))
    && (r.1 == ReadFailed ==> exists i :: 0 <= i < |script| && script[i].Failed?)
  }

  /** The next n bytes from `from` on have no newline among them. */
  predicate NoNewline(text: seq<byte>, from: nat, n: nat) { from + n <= |text| && NEWLINE !in text[from..from + n] }

  /** What follows the last chunk runs on without a newline for as long as that chunk, less one. */
  ghost predicate LongRest(text: seq<byte>, chunks: seq<seq<byte>>) {
    chunks != [] && exists n: nat :: NoNewline(text, |Flatten(chunks)|, n) && n + 1 >= |chunks[|chunks| - 1]|
  }

  lemma SplitMeans(s: seq<byte>)
    requires 0 !in s
    ensures match Split(s)
            case None => NEWLINE !in s
            case Refused(chunk) => EndsLine(chunk) && chunk <= s && NEWLINE !in s[|chunk|..] && |s| - |chunk| + 1 >= |chunk|
            case Some(chunk, rest) => EndsLine(chunk) && s == chunk + rest && NEWLINE !in rest
  {
    var k := LineEnd(s);
    assert s[0..] == s && s == s[..k] + s[k..];
    UpToNullWhole(s[..k]);
  }

  /** The next turn ends the reading: no turn, no space, a failed read or the end of the file. */
  predicate Ends(file: seq<byte>, position: nat, pending: seq<byte>, script: seq<Read>)
    requires position <= |file| && |pending| < BUFFER_SIZE
  {
    script == [] || |pending| == BUFFER_SIZE - 1 || script[0].Failed? || position == |file|
  }

  lemma EndExplains(file: seq<byte>, position: nat, pending: seq<byte>, script: seq<Read>)
    requires position <= |file| && |pending| < BUFFER_SIZE && NEWLINE !in pending && Ends(file, position, pending, script)
    ensures Explains(pending + file[position..], script, Rechunk(file, position, pending, script))
  {
    var text, r := pending + file[position..], Rechunk(file, position, pending, script);
    assert r.0 == [] && Flatten([]) == [];
    assert text[0..0 + |pending|] == pending;
    if r.1 == ReadFailed { assert script[0].Failed?; }
    if position == |file| { assert text == pending && text[0..] == text; }
  }

  lemma {:induction false} RechunkExplains(file: seq<byte>, position: nat, pending: seq<byte>, script: seq<Read>)
    requires position <= |file| && |pending| < BUFFER_SIZE && NEWLINE !in pending
    requires 0 !in pending && 0 !in file
    ensures Explains(pending + file[position..], script, Rechunk(file, position, pending, script))
    decreases |script|, 0
  {
    hide Explains, Delivered, AfterRead;
    if Ends(file, position, pending, script) {
      EndExplains(file, position, pending, script);
    } else {
      var n := Delivered(file, position, script[0].most, BUFFER_SIZE - 1 - |pending|);
      var s := pending + file[position..position + n];
      AfterReadExplains(file, position + n, s, script[1..]);
      assert s + file[position + n..] == pending + file[position..];
      MoreScript(pending + file[position..], script, AfterRead(file, position + n, s, script[1..]));
    }
  }

  lemma {:induction false} AfterReadExplains(file: seq<byte>, position: nat, s: seq<byte>, script: seq<Read>)
    requires position <= |file| && |s| < BUFFER_SIZE && 0 !in s && 0 !in file
    ensures Explains(s + file[position..], script, AfterRead(file, position, s, script))
    decreases |script|, 1
  {
    hide Split, Rechunk;
    SplitMeans(s);
    match Split(s)
    case None => RechunkExplains(file, position, s, script);
    case Refused(chunk) =>
      assert Flatten([chunk]) == chunk;
      assert (s + file[position..])[|chunk|..|s|] == s[|chunk|..];
      assert NoNewline(s + file[position..], |chunk|, |s| - |chunk|);
    case Some(chunk, rest) =>
      assert 0 !in rest;
      RechunkExplains(file, position, rest, script);
      Prepend(chunk, rest + file[position..], script, Rechunk(file, position, rest, script));
      assert chunk + (rest + file[position..]) == s + file[position..];
  }

  lemma MoreScript(text: seq<byte>, script: seq<Read>, r: Result)
    requires script != [] && Explains(text, script[1..], r)
    ensures Explains(text, script, r)
  {
    if r.1 == ReadFailed {
      var i :| 0 <= i < |script[1..]| && script[1..][i].Failed?;
      assert script[i + 1].Failed?;
    }
  }

  lemma Prepend(chunk: seq<byte>, text: seq<byte>, script: seq<Read>, r: Result)
    requires EndsLine(chunk) && Explains(text, script, r)
    ensures Explains(chunk + text, script, Cons(chunk, r))
  {
    var all, whole, n := [chunk] + r.0, chunk + text, |Flatten(r.0)|;
    assert all[1..] == r.0;
    assert Flatten(all) == chunk + Flatten(r.0);
    assert whole[|chunk| + n..] == text[n..];
    forall k: nat | NoNewline(text, n, k) ensures NoNewline(whole, |chunk| + n, k) {
      assert whole[|chunk| + n..|chunk| + n + k] == text[n..n + k];
    }
    if r.1 == WouldOverlap {
      var k: nat :| NoNewline(text, n, k) && k + 1 >= |r.0[|r.0| - 1]|;
      assert NoNewline(whole, |Flatten(all)|, k) && all[|all| - 1] == r.0[|r.0| - 1];
    }
  }

  /**
   * For every pattern of short reads of a file without nulls: every chunk ends
   * in a newline and together they are a prefix of the file, all of it when
   * the reader returns at the end of the file.  A report of a non-empty buffer
   * means the file's last line is unfinished, one of no space a line of at
   * least 4095 bytes, one of an overlap that the last chunk is followed by a
   * line at least as long, less one byte, and one of a failed read that a read
   * failed.
   */
  lemma EveryReadPattern(file: seq<byte>, script: seq<Read>)
    requires 0 !in file
    ensures Explains(file, script, Rechunk(file, 0, [], script))
  {
    RechunkExplains(file, 0, [], script);
    assert [] + file[0..] == file;
  }

  /** The copy of the rest, from just past its first byte, would overlap its target. */
  predicate Overlaps(s: seq<byte>) {
    var n := |s| - LineEnd(s) - 1;
    n > 0 && 1 + n > LineEnd(s) + 1
  }

  /** The overlap test catches every overlap, and also refuses three lengths of rest that do not overlap. */
  lemma OverlapTest(s: seq<byte>)
    requires LineEnd(s) > 0
    ensures Overlaps(s) ==> Split(s).Refused?
    ensures Split(s).Refused? && !Overlaps(s) <==> LineEnd(s) - 1 <= |s| - LineEnd(s) <= LineEnd(s) + 1
    ensures Rechunk([NEWLINE], 0, [], [Short(1)]) == ([[NEWLINE]], WouldOverlap) && !Overlaps([NEWLINE])
  {
    assert [] + [NEWLINE][0..0 + 1] == [NEWLINE];
    assert [NEWLINE][..1] == [NEWLINE];
    UpToNullWhole([NEWLINE]);
  }

  /** memcpy within one buffer: the ranges must not overlap. */
  method CopyApart(buf: array<byte>, target: nat, source: nat, n: nat)
    requires target + n <= source && source + n <= buf.Length
    modifies buf
    ensures buf[..target] == old(buf[..target])
    ensures buf[target..target + n] == old(buf[source..source + n])
  {
    for i := 0 to n
      invariant buf[..target] == old(buf[..target])
      invariant buf[target..target + i] == old(buf[source..source + i])
      invariant buf[target + i..] == old(buf[target + i..])
    {
      assert buf[source + i] == buf[target + i..][source - target];
      buf[target + i] := buf[source + i];
    }
  }

  /** The bytes of a read, placed after the pending ones. */
  method Fill(buf: array<byte>, pos: nat, data: seq<byte>)
    requires pos + |data| <= buf.Length
    modifies buf
    ensures buf[..pos + |data|] == old(buf[..pos]) + data
  {
    for i := 0 to |data|
      invariant buf[..pos + i] == old(buf[..pos]) + data[..i]
    {
      buf[pos + i] := data[i];
      assert buf[..pos + i + 1] == buf[..pos + i] + [data[i]];
    }
  }

  /** The scan from the end for the last newline. */
  method LastNewline(buf: array<byte>, pos: nat) returns (newline: int)
    requires pos <= buf.Length
    ensures newline == LineEnd(buf[..pos]) - 1
    ensures newline < 0 ==> Split(buf[..pos]) == None
  {
    newline := pos - 1;
    while newline >= 0 && buf[newline] != NEWLINE
      invariant -1 <= newline < pos
      invariant LineEnd(buf[..pos]) == LineEnd(buf[..newline + 1])
    {
      assert buf[..newline + 1][..newline] == buf[..newline];
      newline := newline - 1;
    }
  }

  /** Moves the partial line after the last newline behind its first byte, which is at the front already. */
  method MoveRest(buf: array<byte>, pos: nat, newline: nat) returns (left: nat)
    requires newline < pos < buf.Length && pos - newline < newline + 1
    modifies buf
    ensures left == pos - (newline + 1)
    ensures buf[..left] == if left == 0 then [] else [old(buf[0])] + old(buf[newline + 2..pos])
  {
    left := pos - (newline + 1);
    if pos - newline - 2 > 0 {
      CopyApart(buf, 1, newline + 2, pos - newline - 2);
      assert buf[..left] == buf[..1] + buf[1..left];
    }
  }

  lemma SplitAt(s: seq<byte>, k: nat)
    requires k == LineEnd(s) && 0 < k
    ensures Split(s) == if |s| - k + 1 >= k then Refused(UpToNull(s[..k])) else Some(UpToNull(s[..k]), s[k..])
  {
  }

  /** Passes the complete lines on and moves the rest to the front, leaving `left` bytes. */
  method PassLines(buf: array<byte>, pos: nat, newline: nat) returns (chunk: seq<byte>, refused: bool, left: nat)
    requires newline < pos < buf.Length && newline + 1 == LineEnd(buf[..pos])
    modifies buf
    ensures match old(Split(buf[..pos]))
            case None => false
            case Refused(c) => refused && chunk == c
            case Some(c, rest) => !refused && chunk == c && left == |rest| && left < pos && buf[..left] == rest
  {
    hide LineEnd, UpToNull, Split;
    ghost var s := buf[..pos];
    SplitAt(s, newline + 1);
    var was := buf[newline + 1];
    buf[newline + 1] := 0;
    assert buf[..newline + 1] == s[..newline + 1];
    chunk := UpToNull(buf[..newline + 1]);
    buf[0] := was;
    ghost var rest := s[newline + 1..];
    assert rest != [] ==> rest == [was] + buf[newline + 2..pos];
    refused, left := pos - newline >= newline + 1, 0;
    if !refused { left := MoveRest(buf, pos, newline); }
  }

  /** What the next turn does, when it does not end the reading, and what it answers when it does. */
  lemma NextTurn(file: seq<byte>, position: nat, pending: seq<byte>, script: seq<Read>)
    requires position <= |file| && |pending| < BUFFER_SIZE
    ensures !Ends(file, position, pending, script) ==>
      var n := Delivered(file, position, script[0].most, BUFFER_SIZE - 1 - |pending|);
      Rechunk(file, position, pending, script) == AfterRead(file, position + n, pending + file[position..position + n], script[1..])
    ensures Ends(file, position, pending, script) ==>
      Rechunk(file, position, pending, script) == ([],
        if script == [] then Stopped else if |pending| == BUFFER_SIZE - 1 then NoSpace
        else if script[0].Failed? then ReadFailed else if pending == [] then EndOfFile else NotEmptyAtEnd)
  {
    hide AfterRead;
  }

  method ReadKallsyms(file: seq<byte>, script: seq<Read>) returns (chunks: seq<seq<byte>>, outcome: Outcome)
    ensures (chunks, outcome) == Rechunk(file, 0, [], script)
  {
    hide Split, LineEnd, Delivered, Rechunk, UpToNull;
    var buf := new byte[BUFFER_SIZE](_ => 0);
    var pos: nat, position: nat, turn := 0, 0, 0;
    chunks := [];
    assert script[0..] == script && buf[..0] == [];
    ghost var all := Rechunk(file, 0, [], script);
    while turn < |script|
      invariant turn <= |script| && position <= |file| && pos < BUFFER_SIZE
      invariant var rest := Rechunk(file, position, buf[..pos], script[turn..]);
                all.0 == chunks + rest.0 && all.1 == rest.1
    {
      NextTurn(file, position, buf[..pos], script[turn..]);
      assert chunks + [] == chunks;
      if BUFFER_SIZE - pos - 1 == 0 { return chunks, NoSpace; }
      if script[turn].Failed? { return chunks, ReadFailed; }
      var n := Delivered(file, position, script[turn].most, BUFFER_SIZE - 1 - pos);
      if n == 0 { return chunks, if pos != 0 then NotEmptyAtEnd else EndOfFile; }
      Fill(buf, pos, file[position..position + n]);
      pos, position := pos + n, position + n;
      assert script[turn..][1..] == script[turn + 1..];
      turn := turn + 1;
      var newline := LastNewline(buf, pos);
      if newline >= 0 {
        var chunk, refused, left := PassLines(buf, pos, newline);
        ghost var before := chunks;
        chunks := chunks + [chunk];
        if refused { return chunks, WouldOverlap; }
        pos := left;
        ghost var rest := Rechunk(file, position, buf[..pos], script[turn..]);
        assert (before + [chunk]) + rest.0 == before + ([chunk] + rest.0);
      }
    }
    NextTurn(file, position, buf[..pos], script[turn..]);
    assert script[turn..] == [] && chunks + [] == chunks;
    return chunks, Stopped;
  }
}
