/**
 * Exactly how the reading of a text file ends and what it has passed on by
 * then, from the file and the reads alone; and when it gets to the end.
 */
module KallsymsReads {
  import opened Bytes
  import opened Kallsyms

  /** One past the last newline among the first p bytes of the file. */
  function Passed(file: seq<byte>, p: nat): (n: nat)
    requires p <= |file|
    ensures n <= p
  {
    LineEnd(file[..p])
  }

  /** What the buffer has left once it holds the bytes after that. */
  function RoomAt(file: seq<byte>, p: nat): int
    requires p <= |file|
  {
    BUFFER_SIZE - 1 - (p - Passed(file, p))
  }

  /** The bytes delivered by the first k reads, as long as they find room. */
  function At(file: seq<byte>, script: seq<Read>, k: nat): (p: nat)
    requires k <= |script|
    ensures p <= |file|
  {
    if k == 0 then 0
    else
      var p := At(file, script, k - 1);
      if script[k - 1].Failed? || RoomAt(file, p) <= 0 then p
      else p + Delivered(file, p, script[k - 1].most, RoomAt(file, p))
  }

  /** After a read from p to q the lines completed are not longer than what follows them: the copy is refused. */
  predicate Refuses(file: seq<byte>, p: nat, q: nat)
    requires p <= q <= |file|
  {
    Passed(file, q) > Passed(file, p) && q - Passed(file, q) + 1 >= Passed(file, q) - Passed(file, p)
  }

  lemma AtGrows(file: seq<byte>, script: seq<Read>, k: nat)
    requires k < |script|
    ensures At(file, script, k) <= At(file, script, k + 1)
  {
  }

  /** Read k finds room, does not fail, is not at the end of the file, and what it leaves can be moved. */
  predicate Goes(file: seq<byte>, script: seq<Read>, k: nat)
    requires k < |script|
  {
    AtGrows(file, script, k);
    var p := At(file, script, k);
    RoomAt(file, p) > 0 && script[k].Short? && p < |file| && !Refuses(file, p, At(file, script, k + 1))
  }

  predicate AllGo(file: seq<byte>, script: seq<Read>, k: nat)
    requires k <= |script|
  {
    forall j :: 0 <= j < k ==> Goes(file, script, j)
  }

  /** How the reading ends at read k, and what has been passed on since `start`. */
  predicate EndsAt(file: seq<byte>, script: seq<Read>, k: nat, start: nat, r: Result)
    requires k <= |script|
  {
    var p := At(file, script, k);
    if k == |script| then r.1 == Stopped && Between(file, start, Passed(file, p), r.0)
    else if RoomAt(file, p) <= 0 then r.1 == NoSpace && Between(file, start, Passed(file, p), r.0)
    else if script[k].Failed? then r.1 == ReadFailed && Between(file, start, Passed(file, p), r.0)
    else if p == |file| then
      r.1 == (if Passed(file, p) == p then EndOfFile else NotEmptyAtEnd) && Between(file, start, Passed(file, p), r.0)
    else
      AtGrows(file, script, k);
      var q := At(file, script, k + 1);
      Refuses(file, p, q) && r.1 == WouldOverlap && Between(file, start, Passed(file, q), r.0)
  }

  predicate Between(file: seq<byte>, start: nat, end: nat, chunks: seq<seq<byte>>) {
    start <= end <= |file| && Flatten(chunks) == file[start..end]
  }

  lemma {:induction false} LineEndConcat(a: seq<byte>, b: seq<byte>)
    ensures LineEnd(a + b) == if LineEnd(b) > 0 then |a| + LineEnd(b) else LineEnd(a)
    decreases |b|
  {
    if b == [] {
      assert a + b == a;
    } else {
      assert (a + b)[..|a + b| - 1] == a + b[..|b| - 1];
      LineEndConcat(a, b[..|b| - 1]);
    }
  }

  lemma {:induction false} NoLineEnd(s: seq<byte>)
    requires NEWLINE !in s
    ensures LineEnd(s) == 0
  {
    if s != [] {
      assert s[|s| - 1] in s;
      NoLineEnd(s[..|s| - 1]);
    }
  }

  /** What was passed on ends in a newline, and nothing after it has one. */
  lemma PassedSplits(file: seq<byte>, p: nat)
    requires p <= |file|
    ensures var l := Passed(file, p);
            && NEWLINE !in file[l..p] && Passed(file, l) == l && (l > 0 ==> file[l - 1] == NEWLINE)
  {
    hide LineEnd;
    var l := Passed(file, p);
    assert file[..p][l..] == file[l..p];
    assert file[..p] == file[..l] + file[l..p];
    LineEndConcat(file[..l], file[l..p]);
    NoLineEnd(file[l..p]);
  }

  /** What the buffer holds after a read from p to q, and where its last newline is. */
  lemma BufferAfter(file: seq<byte>, p: nat, q: nat)
    requires p <= q <= |file|
    ensures var s := file[Passed(file, p)..q];
            Passed(file, q) == Passed(file, p) + LineEnd(s) && s == file[Passed(file, p)..p] + file[p..q]
  {
    hide LineEnd;
    var l := Passed(file, p);
    PassedSplits(file, p);
    assert file[..q] == file[..l] + file[l..q] && file[l..q] == file[l..p] + file[p..q];
    LineEndConcat(file[..l], file[l..q]);
  }

  lemma NextAt(file: seq<byte>, script: seq<Read>, j: nat)
    requires j < |script| && script[j].Short? && RoomAt(file, At(file, script, j)) > 0
    ensures var p := At(file, script, j);
            At(file, script, j + 1) == p + Delivered(file, p, script[j].most, RoomAt(file, p))
  {
  }

  /** The turn at read j, when it does not end the reading. */
  lemma TurnAt(file: seq<byte>, script: seq<Read>, j: nat)
    requires j < |script| && RoomAt(file, At(file, script, j)) > 0 && script[j].Short? && At(file, script, j) < |file|
    ensures var p, q := At(file, script, j), At(file, script, j + 1);
            p <= q && Rechunk(file, p, file[Passed(file, p)..p], script[j..]) == AfterRead(file, q, file[Passed(file, p)..q], script[j + 1..])
  {
    hide LineEnd, Delivered, AfterRead, Passed, At, Rechunk;
    var p := At(file, script, j);
    var pending := file[Passed(file, p)..p];
    NextTurn(file, p, pending, script[j..]);
    NextAt(file, script, j);
    BufferAfter(file, p, At(file, script, j + 1));
    assert script[j..][1..] == script[j + 1..];
  }

  lemma {:induction false} RechunkEnds(file: seq<byte>, script: seq<Read>, j: nat) returns (k: nat)
    requires 0 !in file && j <= |script| && AllGo(file, script, j)
    requires RoomAt(file, At(file, script, j)) >= 0
    ensures j <= k <= |script| && AllGo(file, script, k)
    ensures var p := At(file, script, j);
            EndsAt(file, script, k, Passed(file, p), Rechunk(file, p, file[Passed(file, p)..p], script[j..]))
    decreases |script| - j, 1
  {
    hide LineEnd, Delivered, AfterRead, Passed, Refuses, At, Rechunk, Goes;
    var p := At(file, script, j);
    var pending := file[Passed(file, p)..p];
    if j < |script| && RoomAt(file, p) > 0 && script[j].Short? && p < |file| {
      TurnAt(file, script, j);
      k := ReadEnds(file, script, j);
    } else {
      k := j;
      NextTurn(file, p, pending, script[j..]);
      assert Flatten([]) == [] == file[Passed(file, p)..Passed(file, p)];
    }
  }

  /** How the buffer is cut after the read. */
  lemma CutAfter(file: seq<byte>, p: nat, q: nat)
    requires p <= q <= |file| && 0 !in file
    ensures var l, m := Passed(file, p), Passed(file, q);
            && l <= m
            && Split(file[l..q]) == if m == l then None
                                    else if Refuses(file, p, q) then Refused(file[l..m])
                                    else Some(file[l..m], file[m..q])
  {
    hide LineEnd, UpToNull;
    BufferAfter(file, p, q);
    var l, m, s := Passed(file, p), Passed(file, q), file[Passed(file, p)..q];
    assert s[..m - l] == file[l..m] && s[m - l..] == file[m..q];
    UpToNullWhole(file[l..m]);
    if m > l { SplitAt(s, m - l); }
  }

  lemma {:induction false} ReadEnds(file: seq<byte>, script: seq<Read>, j: nat) returns (k: nat)
    requires 0 !in file && j < |script| && AllGo(file, script, j)
    requires RoomAt(file, At(file, script, j)) > 0 && script[j].Short? && At(file, script, j) < |file|
    ensures j <= k <= |script| && AllGo(file, script, k)
    ensures var p, q := At(file, script, j), At(file, script, j + 1);
            p <= q && EndsAt(file, script, k, Passed(file, p), AfterRead(file, q, file[Passed(file, p)..q], script[j + 1..]))
    decreases |script| - j, 0
  {
    hide LineEnd, Delivered, Split, Rechunk, At, Passed, Refuses;
    var p, q := At(file, script, j), At(file, script, j + 1);
    AtGrows(file, script, j);
    NextAt(file, script, j);
    BufferAfter(file, p, q);
    CutAfter(file, p, q);
    var l, m := Passed(file, p), Passed(file, q);
    if Refuses(file, p, q) {
      k := j;
      assert Flatten([file[l..m]]) == file[l..m];
      assert m > l by { RefusesLines(file, p, q); }
    } else {
      assert Goes(file, script, j);
      k := RechunkEnds(file, script, j + 1);
      if m > l { PassOn(file, script, k, l, m, Rechunk(file, q, file[m..q], script[j + 1..])); }
    }
  }

  lemma RefusesLines(file: seq<byte>, p: nat, q: nat)
    requires p <= q <= |file| && Refuses(file, p, q)
    ensures Passed(file, q) > Passed(file, p)
  {
  }

  /** Lines passed on in front of the rest. */
  lemma PassOn(file: seq<byte>, script: seq<Read>, k: nat, start: nat, next: nat, r: Result)
    requires k <= |script| && start <= next <= |file| && EndsAt(file, script, k, next, r)
    ensures EndsAt(file, script, k, start, Cons(file[start..next], r))
  {
    hide LineEnd, Passed, Refuses, At;
    var all := [file[start..next]] + r.0;
    assert all[1..] == r.0;
    assert Flatten(all) == file[start..next] + Flatten(r.0);
    forall end: nat | Between(file, next, end, r.0) ensures Between(file, start, end, all) {
      assert file[start..next] + file[next..end] == file[start..end];
    }
  }

  /** Read k, the first that does not go, decides the outcome; without one the reading stops with the script. */
  ghost predicate Exactly(file: seq<byte>, script: seq<Read>, r: Result) {
    exists k :: 0 <= k <= |script| && AllGo(file, script, k) && EndsAt(file, script, k, 0, r)
  }

  /**
   * For every file without nulls and every pattern of reads, the outcome is
   * decided by the first read that finds no room, fails, meets the end of the
   * file or leaves too much to be moved, and what has been passed on is all up
   * to the last newline delivered.  The reading stops, as told, if and only if
   * every read goes.
   */
  lemma OutcomeExactly(file: seq<byte>, script: seq<Read>)
    requires 0 !in file
    ensures var r := Rechunk(file, 0, [], script);
            Exactly(file, script, r) && (r.1 == Stopped <==> AllGo(file, script, |script|))
  {
    hide LineEnd, Rechunk, Refuses;
    assert At(file, script, 0) == 0 && script[0..] == script && file[0..0] == [];
    var k := RechunkEnds(file, script, 0);
    if k < |script| { assert !Goes(file, script, k); }
  }

  // ---- Getting to the end ----

  /** Each read that goes delivers a byte at least. */
  lemma {:induction false} GoingAdvances(file: seq<byte>, script: seq<Read>, k: nat)
    requires k <= |script| && AllGo(file, script, k)
    ensures k <= At(file, script, k)
    decreases k
  {
    hide LineEnd, Refuses;
    if k > 0 {
      assert Goes(file, script, k - 1);
      GoingAdvances(file, script, k - 1);
    }
  }

  /** No read of the script fails, finds no room or leaves too much to be moved. */
  ghost predicate NoTrouble(file: seq<byte>, script: seq<Read>) {
    forall k :: 0 <= k < |script| ==> script[k].Short? && RoomAt(file, At(file, script, k)) > 0 && NotRefused(file, script, k)
  }

  predicate NotRefused(file: seq<byte>, script: seq<Read>, k: nat)
    requires k < |script|
  {
    AtGrows(file, script, k);
    !Refuses(file, At(file, script, k), At(file, script, k + 1))
  }

  /** Then, with more reads than bytes, all of a file that ends in a newline is passed on and the end is reported. */
  lemma Complete(file: seq<byte>, script: seq<Read>)
    requires 0 !in file && |script| > |file| && NoTrouble(file, script) && Passed(file, |file|) == |file|
    ensures var r := Rechunk(file, 0, [], script); r.1 == EndOfFile && Flatten(r.0) == file
  {
    hide LineEnd, Rechunk, Refuses, Passed;
    OutcomeExactly(file, script);
    var r := Rechunk(file, 0, [], script);
    var k :| 0 <= k <= |script| && AllGo(file, script, k) && EndsAt(file, script, k, 0, r);
    GoingAdvances(file, script, k);
    assert k < |script| && NotRefused(file, script, k);
    assert file[0..|file|] == file;
  }

  const MAX_LINE := 2046

  /** Lines of one to 2046 characters, each ended by a newline. */
  ghost predicate Lined(file: seq<byte>) {
    && (file != [] ==> file[|file| - 1] == NEWLINE)
    && (forall i :: 0 <= i < |file| ==> !EmptyLine(file, i))
    && (forall from: nat, n: nat :: NoNewline(file, from, n) ==> n <= MAX_LINE)
  }

  predicate EmptyLine(file: seq<byte>, i: nat)
    requires i < |file|
  {
    file[i] == NEWLINE && (i == 0 || file[i - 1] == NEWLINE)
  }

  /** Every read asks for as much as fits and gets it, or the rest of the file. */
  predicate FullReads(script: seq<Read>) { forall k :: 0 <= k < |script| ==> script[k].Short? && script[k].most >= BUFFER_SIZE }

  lemma ShortRest(file: seq<byte>, p: nat)
    requires Lined(file) && p <= |file|
    ensures p - Passed(file, p) <= MAX_LINE
  {
    hide LineEnd, Passed;
    PassedSplits(file, p);
    assert NoNewline(file, Passed(file, p), p - Passed(file, p));
  }

  lemma PassedAll(file: seq<byte>)
    requires Lined(file)
    ensures Passed(file, |file|) == |file|
  {
    assert file[..|file|] == file;
  }

  lemma FullNotRefused(file: seq<byte>, script: seq<Read>, k: nat)
    requires Lined(file) && FullReads(script) && k < |script|
    ensures RoomAt(file, At(file, script, k)) > 0 && NotRefused(file, script, k)
  {
    hide LineEnd, Passed, At;
    AtGrows(file, script, k);
    var p, q := At(file, script, k), At(file, script, k + 1);
    ShortRest(file, p);
    ShortRest(file, q);
    NextAt(file, script, k);
    if q == |file| {
      PassedAll(file);
      var l := Passed(file, p);
      PassedSplits(file, p);
      assert l < |file| ==> !EmptyLine(file, l);
    }
  }

  /**
   * A file of lines of one to 2046 characters, read with full reads, is passed
   * on whole and its end reported.
   */
  lemma FullReadsComplete(file: seq<byte>, script: seq<Read>)
    requires 0 !in file && Lined(file) && FullReads(script) && |script| > |file|
    ensures var r := Rechunk(file, 0, [], script); r.1 == EndOfFile && Flatten(r.0) == file
  {
    hide LineEnd, Rechunk, Lined, At;
    PassedAll(file);
    forall k | 0 <= k < |script|
      ensures script[k].Short? && RoomAt(file, At(file, script, k)) > 0 && NotRefused(file, script, k)
    {
      FullNotRefused(file, script, k);
    }
    Complete(file, script);
  }
}
