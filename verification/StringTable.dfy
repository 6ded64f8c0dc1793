/**
 * The agent's string table: an append-only list of null-terminated strings,
 * searched before anything is added.  Each insert is one atomic step.
 */
module StringTable {
  import opened Bytes
  import opened Options
  import opened StringSearch

  const TABLE_LENGTH := 1024

  // ---- Insertion ----

  /** A table every insert keeps: within its bounds and ended by a terminator. */
  predicate TableOk(t: seq<byte>) {
    |t| <= TABLE_LENGTH && (t != [] ==> t[|t| - 1] == 0)
  }

  predicate Fits(t: seq<byte>, n: nat) { |t| + n + 1 <= TABLE_LENGTH }

  /** The string as inserted: a null pointer is the empty string, and max_length cuts the rest off. */
  function Cut(str: Option<seq<byte>>, maxLength: nat): seq<byte> {
    var s := str.GetOr([]);
    if |s| > maxLength then s[..maxLength] else s
  }

  /** What an insert leaves: the table, the offset returned and the length of the prefix it names. */
  datatype Insertion = Inserted(table: seq<byte>, offset: nat, length: nat) | Corrupted(table: seq<byte>)

  /** The shorter length tried next, when a prefix of length n is neither in the table nor fits. */
  function Shorter(t: seq<byte>, n: nat, longest: nat): (r: nat)
    requires |t| <= TABLE_LENGTH && !Fits(t, n) && longest <= n && n > 0
    ensures r < n
  {
    Max(if TABLE_LENGTH > |t| then TABLE_LENGTH - |t| - 1 else 0, if n > longest then longest else longest - 1)
  }

  /** The insert loop, for the prefix of length n. */
  function InsertPrefix(t: seq<byte>, s: seq<byte>, n: nat): Insertion
    requires |t| <= TABLE_LENGTH && n <= |s|
    decreases n
  {
    match Search(t, s[..n], 0, 0)
    case Found(offset) => Inserted(t, offset, n)
    case Missing(longest) =>
      if Fits(t, n) then Inserted(t + Terminated(s[..n]), |t|, n)
      else if n == 0 then Corrupted(t[TABLE_LENGTH - 1 := 0])
      else InsertPrefix(t, s, Shorter(t, n, longest))
  }

  function Insert(t: seq<byte>, s: seq<byte>): Insertion
    requires |t| <= TABLE_LENGTH
  {
    InsertPrefix(t, s, |s|)
  }

  // ---- What each insert keeps ----

  /** The empty string is always found in a terminated table. */
  lemma {:induction false} EmptyFound(t: seq<byte>, s: seq<byte>, offset: nat, longest: nat)
    requires s == [] && offset < |t| && t[|t| - 1] == 0
    ensures Search(t, s, offset, longest).Found?
    decreases |t| - offset
  {
    assert Terminated(s)[0] == 0;
    var m := Matched(t, s, offset, 0);
    if m == 0 { EmptyFound(t, s, offset + 1, Max(longest, 0)); }
  }

  /** So a prefix that is missing and does not fit has a shorter one: the corrupted branch is not taken. */
  lemma MissingNotEmpty(t: seq<byte>, s: seq<byte>)
    requires TableOk(t) && Search(t, s, 0, 0).Missing? && !Fits(t, |s|)
    ensures |s| > 0
  {
    if s == [] { EmptyFound(t, s, 0, 0); }
  }

  /** The table only grows, and the offset returned names the stored prefix. */
  predicate Names(t: seq<byte>, s: seq<byte>, n: nat, r: Insertion) {
    && r.Inserted?
    && TableOk(r.table)
    && r.length <= n <= |s|
    && (r.table == t || r.table == t + Terminated(s[..r.length]))
    && Occurs(r.table, s[..r.length], r.offset)
    && (Fits(t, n) ==> r.length == n)
  }

  lemma {:induction false} PrefixNamed(t: seq<byte>, s: seq<byte>, n: nat)
    requires TableOk(t) && n <= |s|
    ensures Names(t, s, n, InsertPrefix(t, s, n))
    decreases n
  {
    SearchFinds(t, s[..n], 0, 0);
    match Search(t, s[..n], 0, 0)
    case Found(_) =>
    case Missing(longest) =>
      if Fits(t, n) {
        var u := t + Terminated(s[..n]);
        assert u[|t|..|t| + n + 1] == Terminated(s[..n]);
      } else {
        MissingNotEmpty(t, s[..n]);
        PrefixNamed(t, s, Shorter(t, n, longest));
      }
  }

  // ---- Truncation keeps the longest prefix ----

  /** The prefix of length k neither fits nor is anywhere in the table. */
  ghost predicate Absent(t: seq<byte>, s: seq<byte>, k: nat)
    requires k <= |s|
  {
    !Fits(t, k) && forall p: nat :: !Occurs(t, s[..k], p)
  }

  /** Nothing between the length tried next and n is in the table or fits. */
  lemma NothingBetween(t: seq<byte>, s: seq<byte>, n: nat, k: nat)
    requires |t| <= TABLE_LENGTH && 0 < n <= |s| && !Fits(t, n) && !TripleStart(s[..n])
    requires Search(t, s[..n], 0, 0).Missing?
    requires Shorter(t, n, Search(t, s[..n], 0, 0).longest) < k <= n
    ensures Absent(t, s, k)
  {
    hide Search, Matched, Naive, Occurs;
    SearchFromIsNaive(t, s[..n], 0, 0);
    forall p: nat ensures !Occurs(t, s[..k], p) {
      NaiveMeans(t, s[..n], 0, 0, p);
      OccursAtLeast(t, s, n, k, p);
    }
  }

  ghost predicate Longest(t: seq<byte>, s: seq<byte>, r: Insertion) {
    && r.Inserted?
    && r.length <= |s|
    && (forall k :: r.length < k <= |s| ==> Absent(t, s, k))
    && (forall p: nat :: p < r.offset ==> !Occurs(t, s[..r.length], p))
    && (r.table != t ==> forall p: nat :: !Occurs(t, s[..r.length], p))
  }

  lemma {:induction false} PrefixLongest(t: seq<byte>, s: seq<byte>, n: nat)
    requires TableOk(t) && n <= |s| && (n < 3 || !TripleStart(s))
    requires forall k :: n < k <= |s| ==> Absent(t, s, k)
    ensures Longest(t, s, InsertPrefix(t, s, n))
    decreases n
  {
    var z := s[..n];
    SearchFromIsNaive(t, z, 0, 0);
    forall p: nat ensures match Naive(t, z, 0, 0)
                          case Found(o) => p < o ==> !Occurs(t, z, p)
                          case Missing(_) => !Occurs(t, z, p)
    {
      NaiveMeans(t, z, 0, 0, p);
    }
    match Search(t, z, 0, 0)
    case Found(_) =>
    case Missing(longest) =>
      if !Fits(t, n) {
        MissingNotEmpty(t, z);
        var n' := Shorter(t, n, longest);
        forall k | n' < k <= |s| ensures Absent(t, s, k) {
          if k <= n { NothingBetween(t, s, n, k); }
        }
        PrefixLongest(t, s, n');
      }
  }

  /**
   * An insert stores or finds the longest prefix that is already in the table,
   * terminated, or fits in what is left of it, at the least offset it has
   * there; nothing is added when it was there already.
   */
  lemma InsertLongest(t: seq<byte>, s: seq<byte>)
    requires TableOk(t) && !TripleStart(s)
    ensures Longest(t, s, Insert(t, s))
  {
    PrefixLongest(t, s, |s|);
  }

  // ---- Every sequence of inserts ----

  datatype Request = Request(str: Option<seq<byte>>, maxLength: nat)

  function Wanted(request: Request): seq<byte> { Cut(request.str, request.maxLength) }

  /** What one insert of a run saw and answered: the table before it, the offset, the length of the prefix. */
  datatype Answer = Answer(seen: seq<byte>, offset: nat, length: nat)

  datatype Run = Run(table: seq<byte>, answers: seq<Answer>)

  /** The final table and what each insert returned; None once an insert finds the table corrupted. */
  function InsertAll(t: seq<byte>, requests: seq<Request>): Option<Run>
    requires |t| <= TABLE_LENGTH
    decreases |requests|
  {
    if requests == [] then Some(Run(t, []))
    else
      match Insert(t, Wanted(requests[0]))
      case Corrupted(_) => None
      case Inserted(u, offset, length) =>
        if |u| > TABLE_LENGTH then None
        else match InsertAll(u, requests[1..])
          case None => None
          case Some(rest) => Some(Run(rest.table, [Answer(t, offset, length)] + rest.answers))
  }

  function Least(a: nat, b: nat): nat { if a < b then a else b }

  /**
   * The offset names, in the table t, a null-terminated prefix of the string
   * given, of the length given and no longer than the maximum; and all of the
   * string that the maximum allows when that fitted in the table seen.  A null
   * pointer stands for the empty string.
   */
  predicate NamesPrefix(t: seq<byte>, request: Request, seen: seq<byte>, offset: nat, length: nat) {
    var s := request.str.GetOr([]);
    && length <= |s| && length <= request.maxLength
    && Occurs(t, s[..length], offset)
    && (Fits(seen, Least(|s|, request.maxLength)) ==> length == Least(|s|, request.maxLength))
  }

  /** An answer that still holds in the final table t. */
  predicate Kept(t: seq<byte>, request: Request, answer: Answer) {
    answer.seen <= t && NamesPrefix(t, request, answer.seen, answer.offset, answer.length)
  }

  /** Prefixes of the string cut are prefixes of the string given. */
  lemma CutPrefix(request: Request, length: nat)
    requires length <= |Wanted(request)|
    ensures var s := request.str.GetOr([]);
            && |Wanted(request)| == Least(|s|, request.maxLength)
            && Wanted(request)[..length] == s[..length]
  {
  }

  /**
   * Each insert succeeds, keeps the table terminated and within its bounds,
   * adds at most the prefix it names, and names the whole string when it fits.
   */
  lemma InsertNamed(t: seq<byte>, s: seq<byte>)
    requires TableOk(t)
    ensures Names(t, s, |s|, Insert(t, s))
  {
    PrefixNamed(t, s, |s|);
  }

  lemma InsertNamesPrefix(t: seq<byte>, request: Request)
    requires TableOk(t)
    ensures var r := Insert(t, Wanted(request));
            && r.Inserted? && TableOk(r.table) && NamesPrefix(r.table, request, t, r.offset, r.length)
            && (r.table == t || r.table == t + Terminated(request.str.GetOr([])[..r.length]))
  {
    hide Occurs, Wanted, Insert, Terminated;
    InsertNamed(t, Wanted(request));
    CutPrefix(request, Insert(t, Wanted(request)).length);
  }

  lemma KeptLater(t: seq<byte>, u: seq<byte>, v: seq<byte>, request: Request, offset: nat, length: nat)
    requires var s := Wanted(request); Names(t, s, |s|, Inserted(u, offset, length))
    requires u <= v
    ensures t <= v && Kept(v, request, Answer(t, offset, length))
  {
    hide Occurs, Wanted;
    OccursLater(u, v, Wanted(request)[..length], offset);
    CutPrefix(request, length);
  }

  lemma {:induction false} EveryInsertKept(t: seq<byte>, requests: seq<Request>)
    requires TableOk(t)
    ensures var r := InsertAll(t, requests);
            && r.Some?
            && TableOk(r.value.table) && t <= r.value.table
            && |r.value.answers| == |requests|
            && forall i :: 0 <= i < |requests| ==> Kept(r.value.table, requests[i], r.value.answers[i])
    decreases |requests|
  {
    hide Insert, Kept, Wanted, Fits, Occurs, Terminated;
    if requests != [] {
      var s := Wanted(requests[0]);
      InsertNamed(t, s);
      var u := Insert(t, s);
      EveryInsertKept(u.table, requests[1..]);
      var rest, r := InsertAll(u.table, requests[1..]).value, InsertAll(t, requests).value;
      KeptLater(t, u.table, rest.table, requests[0], u.offset, u.length);
      forall i | 0 <= i < |requests| ensures Kept(r.table, requests[i], r.answers[i]) {
        if i > 0 { assert requests[i] == requests[1..][i - 1] && r.answers[i] == rest.answers[i - 1]; }
      }
    }
  }

  /** The table an insert of a run sees is the one the inserts before it leave. */
  lemma {:induction false} SeenIsBefore(t: seq<byte>, requests: seq<Request>, i: nat)
    requires TableOk(t) && i < |requests|
    ensures var r, before := InsertAll(t, requests), InsertAll(t, requests[..i]);
            r.Some? && before.Some? && i < |r.value.answers| && r.value.answers[i].seen == before.value.table
    decreases |requests|
  {
    hide Insert, Wanted, Fits, Occurs, Terminated;
    EveryInsertKept(t, requests);
    EveryInsertKept(t, requests[..i]);
    if i > 0 {
      InsertNamed(t, Wanted(requests[0]));
      SeenIsBefore(Insert(t, Wanted(requests[0])).table, requests[1..], i - 1);
      assert requests[..i][0] == requests[0] && requests[..i][1..] == requests[1..][..i - 1];
    }
  }

  /**
   * From the empty table, every sequence of inserts succeeds, keeps the table
   * within its bounds, and leaves every offset ever returned naming a
   * null-terminated prefix of its own string, no longer than its maximum, and
   * as long as that allows when it fitted in the table that the inserts before
   * it had left.
   */
  lemma EveryRun(requests: seq<Request>)
    ensures var r := InsertAll([], requests);
            && r.Some?
            && |r.value.table| <= TABLE_LENGTH
            && |r.value.answers| == |requests|
            && (forall i :: 0 <= i < |requests| ==> Kept(r.value.table, requests[i], r.value.answers[i]))
            && (forall i :: 0 <= i < |requests| ==> SawPrefix(requests, i, r.value.answers[i].seen))
  {
    hide InsertAll, Kept;
    EveryInsertKept([], requests);
    var r := InsertAll([], requests);
    forall i | 0 <= i < |requests| ensures SawPrefix(requests, i, r.value.answers[i].seen) { SeenIsBefore([], requests, i); }
  }

  predicate SawPrefix(requests: seq<Request>, i: nat, seen: seq<byte>)
    requires i <= |requests|
  {
    var before := InsertAll([], requests[..i]);
    before.Some? && before.value.table == seen
  }

  // ---- The table in place ----

  lemma {:induction false} RestartSnoc(s: seq<byte>, j: nat, m: nat, r: nat)
    requires 0 < j <= m < |s| && r > 0
    ensures var d := Restart(s, j, m, r); Restart(s, j, m + 1, r) == if d == 1 && s[0] == s[m] then m else d
    decreases m - j
  {
    if j < m { RestartSnoc(s, j + 1, m, if r == 1 && s[0] == s[j] then j else r); }
  }

  class Table {
    var bytes: array<byte>
    var length: nat

    ghost predicate Valid()
      reads this
    {
      bytes.Length == TABLE_LENGTH && length <= TABLE_LENGTH
    }

    ghost function Contents(): seq<byte>
      requires Valid()
      reads this, bytes
    {
      bytes[..length]
    }

    constructor ()
      ensures Valid() && fresh(bytes) && Contents() == []
    {
      bytes := new byte[TABLE_LENGTH](_ => 0);
      length := 0;
    }

    /** One pass of the inner loop: how much of s matches at `offset`, and where to resume. */
    method MatchAt(s: seq<byte>, offset: nat, longestBefore: nat) returns (failed: bool, resume: nat, longest: nat)
      requires Valid() && IsCString(s) && offset < length
      ensures var m := Matched(Contents(), s, offset, 0);
              && failed == (m <= |s|)
              && longest == Max(longestBefore, m)
              && (failed ==> resume == offset + Jump(s, m))
    {
      resume, longest, failed := offset + 1, longestBefore, false;
      var k := 0;
      ghost var t := Contents();
      while k <= |s| && !failed
        invariant k <= |s| + 1
        invariant Matched(t, s, offset, 0) == if failed then k else Matched(t, s, offset, k)
        invariant longest == Max(longestBefore, k)
        invariant failed ==> k <= |s|
        invariant k <= |s| ==> resume == offset + Restart(s, 1, k, 1)
        decreases |s| + 1 - k, !failed
      {
        var c := if k < |s| then s[k] else 0;
        if offset + k >= length || bytes[offset + k] != c {
          failed := true;
        } else {
          longest := Max(longest, k + 1);
          if k > 0 && resume == offset + 1 && s[0] == c { resume := offset + k; }
          if 0 < k < |s| { RestartSnoc(s, 1, k, 1); }
          k := k + 1;
        }
      }
    }

    method Find(s: seq<byte>) returns (r: Outcome)
      requires Valid() && IsCString(s)
      ensures r == Search(Contents(), s, 0, 0)
    {
      var offset, longest := 0, 0;
      ghost var t := Contents();
      while offset < length
        invariant Search(t, s, 0, 0) == Search(t, s, offset, longest)
        decreases length - offset
      {
        var failed, resume, most := MatchAt(s, offset, longest);
        if !failed { return Found(offset); }
        offset, longest := resume, most;
      }
      return Missing(longest);
    }

    method Append(s: seq<byte>)
      requires Valid() && Fits(Contents(), |s|)
      modifies this, bytes
      ensures Valid() && bytes == old(bytes)
      ensures Contents() == old(Contents()) + Terminated(s)
    {
      var from := length;
      length := from + |s| + 1;
      for k := 0 to |s|
        invariant Valid() && bytes == old(bytes) && length == from + |s| + 1
        invariant bytes[..from + k] == old(bytes[..from]) + s[..k]
      {
        bytes[from + k] := s[k];
        assert bytes[..from + k + 1] == bytes[..from + k] + [s[k]];
        assert s[..k + 1] == s[..k] + [s[k]];
      }
      bytes[from + |s|] := 0;
      assert s[..|s|] == s;
      assert bytes[..from + |s| + 1] == bytes[..from + |s|] + [0];
    }

    /** The length of the string, or the maximum if that is less. */
    method CutLength(s: seq<byte>, maxLength: nat) returns (n: nat)
      ensures n == Least(|s|, maxLength)
    {
      n := 0;
      while n < |s| && n != maxLength
        invariant n <= |s| && n <= maxLength
      {
        n := n + 1;
      }
    }

    /**
     * Returns the offset; the new contents are those of the specification.  In
     * a terminated table the offset names a prefix of the string within the
     * maximum, and at most that prefix is added.
     */
    method InsertString(str: Option<seq<byte>>, maxLength: nat) returns (offset: nat, ghost stored: nat)
      requires Valid() && IsCString(str.GetOr([]))
      modifies this, bytes
      ensures Valid() && bytes == old(bytes)
      ensures TableOk(old(Contents())) ==>
        && TableOk(Contents()) && NamesPrefix(Contents(), Request(str, maxLength), old(Contents()), offset, stored)
        && (Contents() == old(Contents()) || Contents() == old(Contents()) + Terminated(str.GetOr([])[..stored]))
      ensures match Insert(old(Contents()), Cut(str, maxLength))
              case Inserted(t, o, _) => Contents() == t && offset == o
              case Corrupted(t) => Contents() == t && offset == TABLE_LENGTH - 1
    {
      var s := str.GetOr([]);
      hide Search, Terminated, Occurs, NamesPrefix, TableOk;
      var n: nat := CutLength(s, maxLength);
      ghost var t, z := Contents(), Cut(str, maxLength);
      assert z == s[..n];
      stored := match Insert(t, z) case Inserted(_, _, length) => length case Corrupted(_) => 0;
      if TableOk(t) { InsertNamesPrefix(t, Request(str, maxLength)); }
      while true
        invariant Valid() && bytes == old(bytes) && Contents() == t && n <= |z|
        invariant InsertPrefix(t, z, |z|) == InsertPrefix(t, z, n)
        decreases n
      {
        assert z[..n] == s[..n];
        var found := Find(s[..n]);
        if found.Found? { return found.offset, stored; }
        if length + n + 1 > TABLE_LENGTH {
          if n == 0 || length > TABLE_LENGTH {
            bytes[TABLE_LENGTH - 1] := 0;
            length := TABLE_LENGTH;
            return TABLE_LENGTH - 1, stored;
          }
          var available := if TABLE_LENGTH > length then TABLE_LENGTH - length - 1 else 0;
          n := Max(available, if n > found.longest then found.longest else found.longest - 1);
        } else {
          var from := length;
          Append(s[..n]);
          return from, stored;
        }
      }
    }
  }
}
