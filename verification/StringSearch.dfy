/**
 * The search of the agent's string table.  A table is the bytes in use, a
 * string a byte sequence without its terminator.  After a partial match the
 * search resumes at the next matched character that equals the first.
 */
module StringSearch {
  import opened Bytes

  /** A C string: no null inside. */
  predicate IsCString(s: seq<byte>) { 0 !in s }

  function Terminated(s: seq<byte>): seq<byte> { s + [0] }

  /** s, with its terminator, is in the table at `offset`. */
  predicate Occurs(t: seq<byte>, s: seq<byte>, offset: nat) {
    offset + |s| + 1 <= |t| && t[offset..offset + |s| + 1] == Terminated(s)
  }

  // ---- The search as the code does it ----

  /** The character to match: the terminator is forced as the last one. */
  function CharAt(s: seq<byte>, k: nat): byte { if k < |s| then s[k] else 0 }

  predicate Same(t: seq<byte>, s: seq<byte>, offset: nat, k: nat) {
    offset + k < |t| && t[offset + k] == CharAt(s, k)
  }

  /** How many characters of s and its terminator match from `offset`, counting from character k. */
  function Matched(t: seq<byte>, s: seq<byte>, offset: nat, k: nat): (m: nat)
    requires k <= |s| + 1
    ensures k <= m <= |s| + 1
    ensures m <= |s| ==> !Same(t, s, offset, m)
    decreases |s| + 1 - k
  {
    if k <= |s| && Same(t, s, offset, k) then Matched(t, s, offset, k + 1) else k
  }

  /** The restart rule over matched characters j, j + 1, ..., m - 1, with `r` the distance chosen so far. */
  function Restart(s: seq<byte>, j: nat, m: nat, r: nat): (d: nat)
    requires 0 < j && m <= |s| && r > 0
    ensures d > 0
    decreases m - j
  {
    if j >= m then r else Restart(s, j + 1, m, if r == 1 && s[0] == s[j] then j else r)
  }

  /** Where the search resumes after matching m characters, none of them the terminator. */
  function Jump(s: seq<byte>, m: nat): (d: nat)
    requires m <= |s|
    ensures d > 0
  {
    Restart(s, 1, m, 1)
  }

  function Max(a: nat, b: nat): nat { if a > b then a else b }

  datatype Outcome = Found(offset: nat) | Missing(longest: nat)

  /** The loop over table offsets, carrying the longest match so far. */
  function Search(t: seq<byte>, s: seq<byte>, offset: nat, longest: nat): (r: Outcome)
    ensures r.Missing? ==> r.longest <= Max(longest, |s|)
    decreases |t| - offset
  {
    if offset >= |t| then Missing(longest)
    else
      var m := Matched(t, s, offset, 0);
      if m == |s| + 1 then Found(offset)
      else Search(t, s, offset + Jump(s, m), Max(longest, m))
  }

  // ---- The search it stands for ----

  /** The first offset of s, or the longest match anywhere. */
  function Naive(t: seq<byte>, s: seq<byte>, offset: nat, longest: nat): Outcome
    decreases |t| - offset
  {
    if offset >= |t| then Missing(longest)
    else
      var m := Matched(t, s, offset, 0);
      if m == |s| + 1 then Found(offset) else Naive(t, s, offset + 1, Max(longest, m))
  }

  // ---- Matches ----

  lemma {:induction false} MatchedFrom(t: seq<byte>, s: seq<byte>, offset: nat, k: nat, j: nat)
    requires k <= |s| + 1 && k <= j < Matched(t, s, offset, k)
    ensures Same(t, s, offset, j)
    decreases |s| + 1 - k
  {
    if k < j { MatchedFrom(t, s, offset, k + 1, j); }
  }

  lemma MatchedAt(t: seq<byte>, s: seq<byte>, offset: nat, j: nat)
    requires j < Matched(t, s, offset, 0)
    ensures Same(t, s, offset, j)
  {
    MatchedFrom(t, s, offset, 0, j);
  }

  lemma {:induction false} AtLeastFrom(t: seq<byte>, s: seq<byte>, offset: nat, k: nat, n: nat)
    requires k <= n <= |s| + 1
    requires forall j: nat :: k <= j < n ==> Same(t, s, offset, j)
    ensures Matched(t, s, offset, k) >= n
    decreases n - k
  {
    if k < n {
      assert Same(t, s, offset, k);
      AtLeastFrom(t, s, offset, k + 1, n);
    }
  }

  lemma AtLeast(t: seq<byte>, s: seq<byte>, offset: nat, n: nat)
    requires n <= |s| + 1
    requires forall j: nat :: j < n ==> Same(t, s, offset, j)
    ensures Matched(t, s, offset, 0) >= n
  {
    AtLeastFrom(t, s, offset, 0, n);
  }

  lemma OccursSame(t: seq<byte>, s: seq<byte>, offset: nat)
    ensures Occurs(t, s, offset) <==> forall j: nat :: j <= |s| ==> Same(t, s, offset, j)
  {
    if Occurs(t, s, offset) {
      forall j: nat | j <= |s| ensures Same(t, s, offset, j) {
        assert t[offset + j] == t[offset..offset + |s| + 1][j] == Terminated(s)[j];
      }
    }
    if forall j: nat :: j <= |s| ==> Same(t, s, offset, j) {
      assert Same(t, s, offset, |s|);
      var u, z := t[offset..offset + |s| + 1], Terminated(s);
      forall j: nat | j <= |s| ensures u[j] == z[j] { assert Same(t, s, offset, j); }
      assert u == z;
    }
  }

  lemma OccursMatched(t: seq<byte>, s: seq<byte>, offset: nat)
    ensures Occurs(t, s, offset) <==> Matched(t, s, offset, 0) == |s| + 1
  {
    hide Occurs, Same;
    OccursSame(t, s, offset);
    if Matched(t, s, offset, 0) == |s| + 1 {
      forall j: nat | j <= |s| ensures Same(t, s, offset, j) { MatchedAt(t, s, offset, j); }
    }
    if Occurs(t, s, offset) { AtLeast(t, s, offset, |s| + 1); }
  }

  /** An occurrence of a prefix matches that many characters of the whole. */
  lemma OccursAtLeast(t: seq<byte>, s: seq<byte>, n: nat, k: nat, p: nat)
    requires k <= n <= |s|
    ensures Occurs(t, s[..k], p) ==> Matched(t, s[..n], p, 0) >= k
  {
    hide Occurs;
    if Occurs(t, s[..k], p) {
      OccursSame(t, s[..k], p);
      forall j: nat | j < k ensures Same(t, s[..n], p, j) { assert Same(t, s[..k], p, j); }
      AtLeast(t, s[..n], p, k);
    }
  }

  lemma OccursLater(t: seq<byte>, u: seq<byte>, s: seq<byte>, offset: nat)
    requires t <= u && Occurs(t, s, offset)
    ensures Occurs(u, s, offset)
  {
    assert u[offset..offset + |s| + 1] == t[offset..offset + |s| + 1];
  }

  lemma {:induction false} SearchFinds(t: seq<byte>, s: seq<byte>, offset: nat, longest: nat)
    ensures var r := Search(t, s, offset, longest); r.Found? ==> Occurs(t, s, r.offset)
    decreases |t| - offset
  {
    hide Occurs, Matched, Jump;
    if offset < |t| {
      OccursMatched(t, s, offset);
      var m := Matched(t, s, offset, 0);
      if m <= |s| { SearchFinds(t, s, offset + Jump(s, m), Max(longest, m)); }
    }
  }

  /** A search that meets no whole match finds none. */
  lemma {:induction false} SearchMisses(t: seq<byte>, s: seq<byte>, offset: nat, longest: nat)
    requires forall p: nat :: offset <= p < |t| ==> Matched(t, s, p, 0) <= |s|
    ensures Search(t, s, offset, longest).Missing?
    decreases |t| - offset
  {
    hide Matched, Jump;
    if offset < |t| {
      var m := Matched(t, s, offset, 0);
      SearchMisses(t, s, offset + Jump(s, m), Max(longest, m));
    }
  }

  // ---- The restart rule ----

  /** The strings on which the restart rule can jump over an occurrence. */
  predicate TripleStart(s: seq<byte>) { |s| >= 3 && s[0] == s[1] == s[2] }

  lemma {:induction false} RestartValue(s: seq<byte>, j: nat, m: nat, r: nat)
    requires 0 < j && m <= |s| && r > 0
    ensures var d := Restart(s, j, m, r);
            if r != 1 then d == r
            else (d == 1 || (Max(j, 2) <= d < m && s[d] == s[0]))
                 && forall q :: Max(j, 2) <= q < m && (d == 1 || q < d) ==> s[q] != s[0]
    decreases m - j
  {
    if j < m { RestartValue(s, j + 1, m, if r == 1 && s[0] == s[j] then j else r); }
  }

  /** The jump goes to the next matched character, past the second, equal to the first. */
  lemma JumpValue(s: seq<byte>, m: nat)
    requires m <= |s|
    ensures var d := Jump(s, m);
            (d == 1 || (2 <= d < m && s[d] == s[0]))
            && forall q :: 2 <= q < m && (d == 1 || q < d) ==> s[q] != s[0]
  {
    RestartValue(s, 1, m, 1);
  }

  /** Offsets jumped over match no more than the offset jumped from, unless the string starts with three equal characters. */
  lemma JumpedOver(t: seq<byte>, s: seq<byte>, offset: nat, q: nat)
    requires !TripleStart(s)
    requires var m := Matched(t, s, offset, 0); m <= |s| && 0 < q < Jump(s, m)
    ensures Matched(t, s, offset + q, 0) <= Matched(t, s, offset, 0) <= |s|
  {
    hide Matched, Jump;
    var m, n := Matched(t, s, offset, 0), Matched(t, s, offset + q, 0);
    JumpValue(s, m);
    MatchedAt(t, s, offset, q);
    if n > 0 { MatchedAt(t, s, offset + q, 0); }
    if n > 1 {
      MatchedAt(t, s, offset + q, 1);
      MatchedAt(t, s, offset, 2);
    }
  }

  /** Stepping one offset at a time over a stretch of short matches changes nothing. */
  lemma {:induction false} NaiveSkips(t: seq<byte>, s: seq<byte>, offset: nat, stop: nat, longest: nat)
    requires offset <= stop
    requires forall p: nat :: offset <= p < stop ==> Matched(t, s, p, 0) <= |s| && Matched(t, s, p, 0) <= longest
    ensures Naive(t, s, offset, longest) == Naive(t, s, stop, longest)
    decreases stop - offset
  {
    hide Matched;
    if offset < stop { NaiveSkips(t, s, offset + 1, stop, longest); }
  }

  /** So the naive search can make the same jump. */
  lemma NaiveJumps(t: seq<byte>, s: seq<byte>, offset: nat, longest: nat)
    requires !TripleStart(s) && offset < |t| && Matched(t, s, offset, 0) <= |s|
    ensures var m := Matched(t, s, offset, 0);
            Naive(t, s, offset, longest) == Naive(t, s, offset + Jump(s, m), Max(longest, m))
  {
    hide Matched, Jump, TripleStart;
    var m := Matched(t, s, offset, 0);
    var stop, most := offset + Jump(s, m), Max(longest, m);
    forall p: nat | offset + 1 <= p < stop ensures Matched(t, s, p, 0) <= |s| && Matched(t, s, p, 0) <= most {
      JumpedOver(t, s, offset, p - offset);
      assert offset + (p - offset) == p;
    }
    NaiveSkips(t, s, offset + 1, stop, most);
  }

  lemma {:induction false} SearchFromIsNaive(t: seq<byte>, s: seq<byte>, offset: nat, longest: nat)
    requires !TripleStart(s)
    ensures Search(t, s, offset, longest) == Naive(t, s, offset, longest)
    decreases |t| - offset
  {
    hide Matched, Jump, TripleStart;
    if offset < |t| {
      var m := Matched(t, s, offset, 0);
      if m <= |s| {
        NaiveJumps(t, s, offset, longest);
        SearchFromIsNaive(t, s, offset + Jump(s, m), Max(longest, m));
      }
    }
  }

  /** The naive search reports the first occurrence, or the longest match at any offset. */
  lemma {:induction false} NaiveMeans(t: seq<byte>, s: seq<byte>, offset: nat, longest: nat, p: nat)
    requires offset <= p
    ensures match Naive(t, s, offset, longest)
            case Found(o) => offset <= o && Occurs(t, s, o) && (p < o ==> !Occurs(t, s, p))
            case Missing(l) => l >= longest && l >= Matched(t, s, p, 0) && !Occurs(t, s, p)
    decreases |t| - offset
  {
    hide Occurs;
    OccursMatched(t, s, p);
    if offset < |t| {
      var m := Matched(t, s, offset, 0);
      OccursMatched(t, s, offset);
      if m <= |s| { NaiveMeans(t, s, offset + 1, Max(longest, m), if p > offset then p else offset + 1); }
    } else {
      assert !Same(t, s, p, 0);
    }
  }

  // ---- Where it goes wrong ----

  /** The table that holds only s behind one more copy of its first character. */
  function Trap(s: seq<byte>): seq<byte>
    requires |s| > 0
  {
    Terminated([s[0]] + s)
  }

  lemma TrapSame(s: seq<byte>)
    requires IsCString(s) && TripleStart(s)
    ensures var t := Trap(s); !Same(t, s, 0, |s|) && forall j: nat :: j < 3 ==> Same(t, s, 0, j)
  {
    var t := Trap(s);
    assert t[|s|] == s[|s| - 1] && s[|s| - 1] in s;
    assert t[0] == s[0] && t[1] == s[0] && t[2] == s[1];
  }

  /** At offset 0 the trap matches at least three characters and not all; the search resumes at offset 2. */
  lemma TrapFirst(s: seq<byte>)
    requires IsCString(s) && TripleStart(s)
    ensures var m := Matched(Trap(s), s, 0, 0); 3 <= m <= |s| && Jump(s, m) == 2
  {
    hide Matched, Jump, Same;
    var t, m := Trap(s), Matched(Trap(s), s, 0, 0);
    TrapSame(s);
    AtLeast(t, s, 0, 3);
    if m == |s| + 1 { MatchedAt(t, s, 0, |s|); }
    JumpValue(s, m);
    assert s[2] == s[0];
  }

  lemma TrapMisses(s: seq<byte>)
    requires IsCString(s) && TripleStart(s)
    ensures Occurs(Trap(s), s, 1) && Naive(Trap(s), s, 0, 0) == Found(1)
    ensures Search(Trap(s), s, 0, 0).Missing?
  {
    hide Matched, Jump;
    var t, m := Trap(s), Matched(Trap(s), s, 0, 0);
    TrapFirst(s);
    assert t[1..1 + |s| + 1] == Terminated(s);
    OccursMatched(t, s, 1);
    forall p: nat | 2 <= p < |t| ensures Matched(t, s, p, 0) <= |s| {
      if Matched(t, s, p, 0) == |s| + 1 { MatchedAt(t, s, p, |s|); }
    }
    SearchMisses(t, s, 2, Max(0, m));
  }

  /**
   * The accelerated search is the naive one, for every table, exactly when the
   * string does not start with three equal characters.
   */
  lemma SearchIsNaive(s: seq<byte>)
    requires IsCString(s)
    ensures (forall t: seq<byte> :: Search(t, s, 0, 0) == Naive(t, s, 0, 0)) <==> !TripleStart(s)
  {
    hide Search, Naive, TripleStart;
    if TripleStart(s) {
      TrapMisses(s);
    } else {
      forall t: seq<byte> ensures Search(t, s, 0, 0) == Naive(t, s, 0, 0) { SearchFromIsNaive(t, s, 0, 0); }
    }
  }
}
