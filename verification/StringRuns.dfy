/**
 * Exactly which strings the string table keeps the longest prefix of, in every
 * table that inserts can leave.  What decides it is how many characters the
 * string starts with that equal its first.
 */
module StringRuns {
  import opened Bytes
  import opened Options
  import opened StringSearch
  import opened StringTable

  /** How many characters from k on equal the first. */
  function RunFrom(s: seq<byte>, k: nat): (r: nat)
    requires k <= |s|
    ensures k <= r <= |s|
    ensures r < |s| ==> s[r] != s[0]
    decreases |s| - k
  {
    if k < |s| && s[k] == s[0] then RunFrom(s, k + 1) else k
  }

  function RunLength(s: seq<byte>): nat { RunFrom(s, 0) }

  lemma {:induction false} RunFromEqual(s: seq<byte>, k: nat, j: nat)
    requires k <= |s| && k <= j < RunFrom(s, k)
    ensures s[j] == s[0]
    decreases |s| - k
  {
    if k < j { RunFromEqual(s, k + 1, j); }
  }

  lemma RunEqual(s: seq<byte>, j: nat)
    requires j < RunLength(s)
    ensures s[j] == s[0]
  {
    RunFromEqual(s, 0, j);
  }

  lemma TripleIsRun(s: seq<byte>)
    ensures TripleStart(s) <==> RunLength(s) >= 3
  {
    if RunLength(s) >= 3 {
      RunEqual(s, 1);
      RunEqual(s, 2);
    }
  }

  /** The strings some prefix of which a table can hold unseen. */
  predicate Trapped(s: seq<byte>) { 3 <= RunLength(s) <= TABLE_LENGTH - 2 }

  /** Inserts of C strings into an empty table lead to t. */
  ghost predicate Reachable(t: seq<byte>) {
    exists requests: seq<Request> :: InsertAll([], requests).Some? && InsertAll([], requests).value.table == t
                       && forall i :: 0 <= i < |requests| ==> IsCString(requests[i].str.GetOr([]))
  }

  lemma ReachableOk(t: seq<byte>)
    requires Reachable(t)
    ensures TableOk(t)
  {
    var requests :| InsertAll([], requests).Some? && InsertAll([], requests).value.table == t;
    EveryInsertKept([], requests);
  }

  // ---- A table that hides a prefix ----

  function Repeat(b: byte, n: nat): (s: seq<byte>)
    ensures |s| == n
    ensures forall i :: 0 <= i < n ==> s[i] == b
  {
    if n == 0 then [] else Repeat(b, n - 1) + [b]
  }

  /** One more copy of the first character than the string starts with, and nothing after it or a filler of another. */
  function Hiding(a: byte, run: nat, filler: seq<byte>): seq<byte> {
    Terminated(Repeat(a, run + 1)) + if filler == [] then [] else Terminated(filler)
  }

  /** A character other than the terminator and a. */
  function OtherThan(a: byte): (c: byte)
    ensures c != a && c != 0
  {
    if a == 1 then 2 else 1
  }

  function Filler(a: byte, run: nat): seq<byte>
    requires run <= TABLE_LENGTH - 2
  {
    Repeat(OtherThan(a), if run <= TABLE_LENGTH - 3 then TABLE_LENGTH - 3 - run else 0)
  }

  function HidingTable(a: byte, run: nat): seq<byte>
    requires run <= TABLE_LENGTH - 2
  {
    Hiding(a, run, Filler(a, run))
  }

  /** Where the first character is, and what follows its run. */
  lemma HidingCells(a: byte, run: nat, p: nat)
    requires a != 0 && run <= TABLE_LENGTH - 2 && p < |HidingTable(a, run)|
    ensures var t := HidingTable(a, run);
            (t[p] == a <==> p <= run) && run + 1 < |t| && t[run + 1] == 0
  {
    var t, f := HidingTable(a, run), Filler(a, run);
    if p > run + 1 && p < |t| - 1 { assert t[p] == f[p - run - 2]; }
  }

  lemma HidingSize(a: byte, run: nat)
    requires run <= TABLE_LENGTH - 2
    ensures TABLE_LENGTH - 1 <= |HidingTable(a, run)| <= TABLE_LENGTH
  {
  }

  /** The filler is nowhere in the table before it is inserted. */
  lemma FillerMissing(a: byte, run: nat)
    requires a != 0 && run <= TABLE_LENGTH - 2 && Filler(a, run) != []
    ensures Search(Terminated(Repeat(a, run + 1)), Filler(a, run), 0, 0).Missing?
  {
    var t, f := Terminated(Repeat(a, run + 1)), Filler(a, run);
    forall p: nat | p < |t| ensures Matched(t, f, p, 0) <= |f| {
      if Matched(t, f, p, 0) > 0 { MatchedAt(t, f, p, 0); }
    }
    SearchMisses(t, f, 0, 0);
  }

  function Whole(s: seq<byte>): Request { Request(Some(s), |s|) }

  lemma FirstInsert(s: seq<byte>)
    requires |s| < TABLE_LENGTH
    ensures Insert([], s) == Inserted(Terminated(s), 0, |s|)
  {
    assert s[..|s|] == s;
    assert [] + Terminated(s) == Terminated(s);
  }

  /** The table the search goes wrong on is the one a first insert leaves. */
  lemma TrapReachable(s: seq<byte>)
    requires IsCString(s) && 0 < |s| <= TABLE_LENGTH - 2
    ensures Insert([], [s[0]] + s) == Inserted(Trap(s), 0, |s| + 1) && Reachable(Trap(s))
  {
    var z := [s[0]] + s;
    FirstInsert(z);
    var requests := [Whole(z)];
    assert requests[1..] == [];
    assert InsertAll(Trap(s), []) == Some(Run(Trap(s), []));
    assert InsertAll([], requests).value.table == Trap(s);
    forall b | b in z ensures b != 0 { assert b == s[0] || b in s; }
  }

  lemma HidingReachable(a: byte, run: nat)
    requires a != 0 && run <= TABLE_LENGTH - 2
    ensures Reachable(HidingTable(a, run))
  {
    var z, f, t := Repeat(a, run + 1), Filler(a, run), HidingTable(a, run);
    FirstInsert(z);
    var u := Terminated(z);
    var first := Whole(z);
    if f == [] {
      var requests := [first];
      assert requests[1..] == [] && u == t;
      assert InsertAll(u, []) == Some(Run(u, []));
      assert InsertAll([], requests).value.table == t;
    } else {
      FillerMissing(a, run);
      assert f[..|f|] == f;
      assert Insert(u, f) == Inserted(t, |u|, |f|);
      var requests := [first, Whole(f)];
      assert requests[1..] == [Whole(f)] && requests[1..][1..] == [];
      assert InsertAll(t, []) == Some(Run(t, []));
      assert InsertAll(u, requests[1..]).value.table == t;
      assert InsertAll([], requests).value.table == t;
    }
  }

  /** An insert names a prefix that its search finds or that fits. */
  lemma {:induction false} InsertFindsOrFits(t: seq<byte>, s: seq<byte>, n: nat)
    requires |t| <= TABLE_LENGTH && n <= |s|
    ensures var r := InsertPrefix(t, s, n);
            r.Inserted? ==> r.length <= n && (Search(t, s[..r.length], 0, 0).Found? || Fits(t, r.length))
    decreases n
  {
    hide Search;
    match Search(t, s[..n], 0, 0)
    case Found(_) =>
    case Missing(longest) => if !Fits(t, n) && n > 0 { InsertFindsOrFits(t, s, Shorter(t, n, longest)); }
  }

  /** The run itself is in the hiding table, behind one more copy of its character, and the search jumps over it. */
  lemma RunHidden(s: seq<byte>)
    requires IsCString(s) && Trapped(s)
    ensures var t, z := HidingTable(s[0], RunLength(s)), s[..RunLength(s)];
            Occurs(t, z, 1) && Search(t, z, 0, 0).Missing?
  {
    hide Search, HidingTable, Matched, Occurs, Jump;
    var r := RunLength(s);
    var t, z := HidingTable(s[0], r), s[..r];
    assert s[0] in s;
    HidingSize(s[0], r);
    forall j: nat | j < r ensures z[j] == s[0] { RunEqual(s, j); }
    forall p: nat | p < |t| ensures t[p] == s[0] <==> p <= r { HidingCells(s[0], r, p); }
    HidingCells(s[0], r, 0);
    forall j: nat | j <= r ensures Same(t, z, 1, j) {}
    OccursSame(t, z, 1);
    forall j: nat | j < 3 ensures Same(t, z, 0, j) {}
    AtLeast(t, z, 0, 3);
    var m := Matched(t, z, 0, 0);
    if m == r + 1 { MatchedAt(t, z, 0, r); }
    JumpValue(z, m);
    assert z[2] == z[0];
    forall p: nat | 2 <= p < |t| ensures Matched(t, z, p, 0) <= r {
      if Matched(t, z, p, 0) == r + 1 { MatchedAt(t, z, p, r - 1); }
    }
    SearchMisses(t, z, 2, Max(0, m));
    FirstStep(t, z);
  }

  lemma FirstStep(t: seq<byte>, z: seq<byte>)
    requires t != [] && Matched(t, z, 0, 0) <= |z|
    ensures var m := Matched(t, z, 0, 0); Search(t, z, 0, 0) == Search(t, z, 0 + Jump(z, m), Max(0, m))
  {
  }

  /** No longer prefix is in the hiding table. */
  lemma NothingLonger(s: seq<byte>, n: nat, p: nat)
    requires IsCString(s) && Trapped(s) && RunLength(s) < n <= |s|
    ensures !Occurs(HidingTable(s[0], RunLength(s)), s[..n], p)
  {
    hide HidingTable, Occurs;
    var r := RunLength(s);
    var t, z := HidingTable(s[0], r), s[..n];
    assert s[0] in s && s[r] in s;
    OccursSame(t, z, p);
    if Occurs(t, z, p) {
      RunEqual(s, r - 1);
      assert Same(t, z, p, r - 1);
      assert Same(t, z, p, r);
      HidingCells(s[0], r, p + (r - 1));
      HidingCells(s[0], r, p + r);
    }
  }

  /** So an insert into the hiding table keeps less of the string than the table holds. */
  lemma HidingLoses(s: seq<byte>)
    requires IsCString(s) && Trapped(s)
    ensures var t := HidingTable(s[0], RunLength(s)); Reachable(t) && |t| <= TABLE_LENGTH && !Longest(t, s, Insert(t, s))
  {
    hide HidingTable, Occurs, Search, Reachable, InsertPrefix;
    var r := RunLength(s);
    var t := HidingTable(s[0], r);
    assert s[0] in s;
    HidingReachable(s[0], r);
    HidingSize(s[0], r);
    InsertFindsOrFits(t, s, |s|);
    RunHidden(s);
    var i := Insert(t, s);
    if i.Inserted? {
      SearchFinds(t, s[..i.length], 0, 0);
      if i.length > r { NothingLonger(s, i.length, Search(t, s[..i.length], 0, 0).offset); }
      assert !Absent(t, s, r);
    }
  }

  // ---- Strings of one character for longer than the table ----

  /** As much of z as a table can hold is one character. */
  predicate OneCharacter(z: seq<byte>) {
    |z| > 0 && forall j :: 0 <= j < |z| && j < TABLE_LENGTH - 1 ==> z[j] == z[0]
  }

  /** A run of a's starts here. */
  predicate Starts(t: seq<byte>, a: byte, p: nat) { 0 < p <= |t| ==> t[p - 1] != a }

  /** A match holds no terminator but the last, so it ends before the table does. */
  lemma MatchEnds(t: seq<byte>, z: seq<byte>, p: nat)
    requires TableOk(t) && IsCString(z)
    ensures var m := Matched(t, z, p, 0); (0 < m <= |z| ==> p + m < |t|) && (m == |z| + 1 ==> p + |z| < |t|)
  {
    hide Matched;
    var m := Matched(t, z, p, 0);
    if 0 < m <= |z| {
      MatchedAt(t, z, p, m - 1);
      assert z[m - 1] in z;
    }
    if m == |z| + 1 { MatchedAt(t, z, p, |z|); }
  }

  function Capped(t: seq<byte>, z: seq<byte>, p: nat): nat {
    var m := Matched(t, z, p, 0);
    if m > |z| then |z| else m
  }

  /** In a run, the next offset matches no more. */
  lemma NextMatchesLess(t: seq<byte>, z: seq<byte>, offset: nat)
    requires TableOk(t) && IsCString(z) && OneCharacter(z) && 0 < Matched(t, z, offset, 0) <= |z|
    ensures Capped(t, z, offset + 1) <= Matched(t, z, offset, 0)
  {
    hide Matched;
    var c := Capped(t, z, offset + 1);
    var n := if c < |z| then c + 1 else |z|;
    MatchEnds(t, z, offset + 1);
    forall j: nat | j < n ensures Same(t, z, offset, j) {
      if j == 0 {
        MatchedAt(t, z, offset, 0);
      } else {
        MatchedAt(t, z, offset + 1, j - 1);
        assert z[j] == z[0] == z[j - 1];
      }
    }
    AtLeast(t, z, offset, n);
  }

  /**
   * On such a string the search visits the start of every run: it reports the
   * first start where the string is, or the longest match at any offset.
   */
  lemma {:induction false} RunSearch(t: seq<byte>, z: seq<byte>, offset: nat, longest: nat, p: nat)
    requires TableOk(t) && IsCString(z) && OneCharacter(z) && offset <= p
    ensures match Search(t, z, offset, longest)
            case Found(o) => p < o && Starts(t, z[0], p) ==> !Occurs(t, z, p)
            case Missing(l) => l >= longest && Capped(t, z, p) <= l && (Starts(t, z[0], p) ==> !Occurs(t, z, p))
    decreases |t| - offset
  {
    hide Matched, Jump, Occurs;
    OccursMatched(t, z, p);
    if offset >= |t| {
      MatchEnds(t, z, p);
    } else {
      var m := Matched(t, z, offset, 0);
      if m <= |z| {
        var next := offset + Jump(z, m);
        RunSearch(t, z, next, Max(longest, m), if p < next then next else p);
        if offset < p < next { RunSkips(t, z, offset); }
      }
    }
  }

  /** The search skips at most one offset, inside a run. */
  lemma RunSkips(t: seq<byte>, z: seq<byte>, offset: nat)
    requires TableOk(t) && IsCString(z) && OneCharacter(z) && Matched(t, z, offset, 0) <= |z|
    requires Jump(z, Matched(t, z, offset, 0)) > 1
    ensures Jump(z, Matched(t, z, offset, 0)) == 2
    ensures Capped(t, z, offset + 1) <= Matched(t, z, offset, 0) && !Starts(t, z[0], offset + 1)
  {
    hide Matched, Jump;
    var m := Matched(t, z, offset, 0);
    JumpValue(z, m);
    assert z[2] == z[0];
    MatchedAt(t, z, offset, 0);
    NextMatchesLess(t, z, offset);
  }

  /** The string starts with more equal characters than the table has room for. */
  predicate LongRun(s: seq<byte>) { IsCString(s) && RunLength(s) > TABLE_LENGTH - 2 }

  lemma PrefixOneCharacter(s: seq<byte>, n: nat)
    requires LongRun(s) && 0 < n <= |s|
    ensures OneCharacter(s[..n]) && IsCString(s[..n])
  {
    forall j | 0 <= j < n && j < TABLE_LENGTH - 1 ensures s[..n][j] == s[..n][0] { RunEqual(s, j); }
    forall b | b in s[..n] ensures b != 0 { assert b in s; }
  }

  /** An occurrence inside a run is the end of one of the next longer prefix. */
  lemma OccursBefore(t: seq<byte>, s: seq<byte>, n: nat, p: nat)
    requires TableOk(t) && LongRun(s) && 0 < n <= |s| && Occurs(t, s[..n], p) && 0 < p && t[p - 1] == s[0]
    ensures n + 1 <= |s| && Occurs(t, s[..n + 1], p - 1)
  {
    hide Occurs;
    OccursSame(t, s[..n], p);
    assert Same(t, s[..n], p, n);
    var z, q := s[..n + 1], p - 1;
    forall j: nat | j <= n + 1 ensures Same(t, z, q, j) {
      if 0 < j {
        assert Same(t, s[..n], p, j - 1);
        if j <= n {
          RunEqual(s, j);
          RunEqual(s, j - 1);
        }
      }
    }
    OccursSame(t, z, q);
  }

  /** With no longer prefix in the table, a prefix is there only where a run starts. */
  lemma OnlyAtStarts(t: seq<byte>, s: seq<byte>, n: nat, p: nat)
    requires TableOk(t) && LongRun(s) && 0 < n <= |s| && Occurs(t, s[..n], p)
    requires forall k :: n < k <= |s| ==> Absent(t, s, k)
    ensures Starts(t, s[0], p)
  {
    if n < |s| { assert Absent(t, s, n + 1); }
    hide Occurs;
    if 0 < p <= |t| && t[p - 1] == s[0] { OccursBefore(t, s, n, p); }
  }

  lemma LongNothingBetween(t: seq<byte>, s: seq<byte>, n: nat, k: nat)
    requires TableOk(t) && LongRun(s) && 0 < n <= |s| && !Fits(t, n)
    requires forall j :: n < j <= |s| ==> Absent(t, s, j)
    requires Search(t, s[..n], 0, 0).Missing?
    requires Shorter(t, n, Search(t, s[..n], 0, 0).longest) < k <= n
    ensures Absent(t, s, k)
  {
    hide Search, Occurs, Matched, LongRun, TableOk, Starts;
    PrefixOneCharacter(s, n);
    forall p: nat ensures !Occurs(t, s[..k], p) {
      RunSearch(t, s[..n], 0, 0, p);
      OccursAtLeast(t, s, n, k, p);
      if k == n && Occurs(t, s[..n], p) { OnlyAtStarts(t, s, n, p); }
    }
  }

  lemma {:induction false} LongPrefixLongest(t: seq<byte>, s: seq<byte>, n: nat)
    requires TableOk(t) && LongRun(s) && n <= |s|
    requires forall k :: n < k <= |s| ==> Absent(t, s, k)
    ensures Longest(t, s, InsertPrefix(t, s, n))
    decreases n
  {
    hide Search, Occurs, LongRun, Starts, Absent;
    if n < 3 {
      PrefixLongest(t, s, n);
    } else {
      var z := s[..n];
      PrefixOneCharacter(s, n);
      forall p: nat ensures match Search(t, z, 0, 0)
                            case Found(o) => p < o ==> !Occurs(t, z, p)
                            case Missing(_) => !Occurs(t, z, p)
      {
        RunSearch(t, z, 0, 0, p);
        if Occurs(t, z, p) { OnlyAtStarts(t, s, n, p); }
      }
      match Search(t, z, 0, 0)
      case Found(_) =>
      case Missing(longest) =>
        if !Fits(t, n) {
          var n' := Shorter(t, n, longest);
          forall k | n' < k <= |s| ensures Absent(t, s, k) {
            if k <= n { LongNothingBetween(t, s, n, k); }
          }
          LongPrefixLongest(t, s, n');
        }
    }
  }

  /**
   * In every table that inserts can leave, inserting s keeps its longest prefix
   * that is there or fits, if and only if s does not start with between three
   * and 1022 equal characters.
   */
  lemma InsertLongestExactly(s: seq<byte>)
    requires IsCString(s)
    ensures (forall t: seq<byte> :: Reachable(t) && |t| <= TABLE_LENGTH ==> Longest(t, s, Insert(t, s))) <==> !Trapped(s)
  {
    hide Reachable, Longest, Insert;
    if Trapped(s) {
      HidingLoses(s);
    } else {
      forall t: seq<byte> | Reachable(t) && |t| <= TABLE_LENGTH ensures Longest(t, s, Insert(t, s)) {
        ReachableOk(t);
        TripleIsRun(s);
        if TripleStart(s) { LongInsertLongest(t, s); } else { InsertLongest(t, s); }
      }
    }
  }

  lemma LongInsertLongest(t: seq<byte>, s: seq<byte>)
    requires TableOk(t) && LongRun(s)
    ensures Longest(t, s, Insert(t, s))
  {
    LongPrefixLongest(t, s, |s|);
  }
}
