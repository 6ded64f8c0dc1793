/**
 * Filling in missing CPU ids: first from the MIDR map and from clusters known
 * to have one id, then, in place, from the siblings in the same cluster.
 */
module Topology {
  import opened Bytes

  const ID_MASK := 0xfffff

  /** The low twenty bits of an id (two's complement for a negative one). */
  function Low(id: int): (r: nat)
    ensures r <= ID_MASK
  {
    id % (ID_MASK + 1)
  }

  predicate Unknown(id: int) { Low(id) == 0 || Low(id) == ID_MASK }

  /** What is known about the machine: ids per CPU, the cluster of each CPU, ids per cluster. */
  datatype Facts = Facts(midr: map<nat, nat>, cluster: map<nat, nat>, clusterIds: map<nat, set<nat>>)

  /** Every CPU with a cluster is one of the CPUs being filled in. */
  predicate InRange(facts: Facts, n: nat) { forall cpu :: cpu in facts.cluster ==> cpu < n }

  lemma OnlyOne(s: set<nat>, id: nat)
    requires id in s
    ensures |s| == 1 <==> s == {id}
  {
    if |s| == 1 { assert |s - {id}| == 0; }
  }

  // ---- First pass ----

  ghost predicate HasMidr(facts: Facts, cpu: nat) {
    || cpu in facts.midr
    || (cpu in facts.cluster && facts.cluster[cpu] in facts.clusterIds && |facts.clusterIds[facts.cluster[cpu]]| == 1)
  }

  ghost function MidrId(facts: Facts, cpu: nat): int
    requires HasMidr(facts, cpu)
  {
    if cpu in facts.midr then AsInt32(facts.midr[cpu])
    else
      var id :| id in facts.clusterIds[facts.cluster[cpu]];
      AsInt32(id)
  }

  ghost function FirstPass(facts: Facts, ids: seq<int>): (r: seq<int>)
    ensures |r| == |ids|
    ensures forall cpu :: 0 <= cpu < |ids| ==> r[cpu] == if HasMidr(facts, cpu) then MidrId(facts, cpu) else ids[cpu]
  {
    seq(|ids|, cpu requires 0 <= cpu < |ids| => if HasMidr(facts, cpu) then MidrId(facts, cpu) else ids[cpu])
  }

  // ---- Second pass ----

  predicate KnownIn(facts: Facts, ids: seq<int>, c: nat, cpu: nat) {
    cpu < |ids| && cpu in facts.cluster && facts.cluster[cpu] == c && !Unknown(ids[cpu])
  }

  /** The distinct ids known in a cluster. */
  ghost function Known(facts: Facts, ids: seq<int>, c: nat): set<nat> {
    set cpu | cpu in facts.cluster && KnownIn(facts, ids, c, cpu) :: Low(ids[cpu])
  }

  /** An unknown CPU whose cluster has exactly one known id. */
  ghost predicate Fillable(facts: Facts, ids: seq<int>, cpu: nat)
    requires cpu < |ids|
  {
    Unknown(ids[cpu]) && cpu in facts.cluster && |Known(facts, ids, facts.cluster[cpu])| == 1
  }

  /** Such a CPU receives that id; any other keeps its own. */
  ghost function Filled(facts: Facts, ids: seq<int>, cpu: nat): int
    requires cpu < |ids|
  {
    if Fillable(facts, ids, cpu) then
      var id :| id in Known(facts, ids, facts.cluster[cpu]);
      id
    else ids[cpu]
  }

  /** Every CPU at once, each from the ids before the pass. */
  ghost function FillAll(facts: Facts, ids: seq<int>): (r: seq<int>)
    ensures |r| == |ids|
    ensures forall cpu :: 0 <= cpu < |ids| ==> r[cpu] == Filled(facts, ids, cpu)
  {
    seq(|ids|, cpu requires 0 <= cpu < |ids| => Filled(facts, ids, cpu))
  }

  predicate Within(order: seq<nat>, n: nat) { forall k :: 0 <= k < |order| ==> order[k] < n }

  /** One CPU after another, each from the ids as they are by then. */
  ghost function Scan(facts: Facts, ids: seq<int>, order: seq<nat>): seq<int>
    requires Within(order, |ids|)
    decreases |order|
  {
    if order == [] then ids
    else Scan(facts, ids[order[0] := Filled(facts, ids, order[0])], order[1..])
  }

  ghost function Update(facts: Facts, ids: seq<int>): seq<int> { FillAll(facts, FirstPass(facts, ids)) }

  lemma FilledIs(facts: Facts, ids: seq<int>, cpu: nat)
    requires cpu < |ids| && Fillable(facts, ids, cpu)
    ensures var id := Filled(facts, ids, cpu);
            0 <= id == Low(id) && !Unknown(id) && Known(facts, ids, facts.cluster[cpu]) == {id}
  {
    var c, id := facts.cluster[cpu], Filled(facts, ids, cpu);
    OnlyOne(Known(facts, ids, c), id);
    var source :| source in facts.cluster && KnownIn(facts, ids, c, source) && id == Low(ids[source]);
  }

  /** Each CPU has its old id or the one it would be given. */
  ghost predicate Mixed(facts: Facts, a: seq<int>, b: seq<int>) {
    |a| == |b| && forall cpu :: 0 <= cpu < |a| ==> b[cpu] == a[cpu] || b[cpu] == Filled(facts, a, cpu)
  }

  /** Filling some CPUs in changes no cluster's known ids. */
  lemma KnownSame(facts: Facts, a: seq<int>, b: seq<int>, c: nat)
    requires Mixed(facts, a, b)
    ensures Known(facts, b, c) == Known(facts, a, c)
  {
    forall id | id in Known(facts, a, c) ensures id in Known(facts, b, c) {
      var cpu :| cpu in facts.cluster && KnownIn(facts, a, c, cpu) && id == Low(a[cpu]);
      assert Filled(facts, a, cpu) == a[cpu];
      assert KnownIn(facts, b, c, cpu);
    }
    forall id | id in Known(facts, b, c) ensures id in Known(facts, a, c) {
      var cpu :| cpu in facts.cluster && KnownIn(facts, b, c, cpu) && id == Low(b[cpu]);
      if b[cpu] == a[cpu] {
        assert KnownIn(facts, a, c, cpu);
      } else {
        FilledIs(facts, a, cpu);
      }
    }
  }

  /** So a CPU filled in later receives what it would have received at the start. */
  lemma FilledSame(facts: Facts, a: seq<int>, b: seq<int>, cpu: nat)
    requires Mixed(facts, a, b) && cpu < |a|
    ensures Filled(facts, b, cpu) == Filled(facts, a, cpu)
  {
    if cpu in facts.cluster { KnownSame(facts, a, b, facts.cluster[cpu]); }
    if Fillable(facts, a, cpu) {
      FilledIs(facts, a, cpu);
      if Fillable(facts, b, cpu) { FilledIs(facts, b, cpu); }
    }
  }

  lemma {:induction false} ScanFrom(facts: Facts, a: seq<int>, b: seq<int>, order: seq<nat>)
    requires Mixed(facts, a, b) && Within(order, |a|)
    ensures var r := Scan(facts, b, order);
            |r| == |a| && forall cpu :: 0 <= cpu < |a| ==> r[cpu] == if cpu in order then Filled(facts, a, cpu) else b[cpu]
    decreases |order|
  {
    if order != [] {
      FilledSame(facts, a, b, order[0]);
      var b' := b[order[0] := Filled(facts, b, order[0])];
      ScanFrom(facts, a, b', order[1..]);
      assert forall cpu :: cpu in order <==> cpu == order[0] || cpu in order[1..];
    }
  }

  /**
   * Visiting the CPUs in any order, any number of times each, gives what
   * filling them all at once gives, as long as each is visited.
   */
  lemma AnyOrder(facts: Facts, ids: seq<int>, order: seq<nat>)
    requires Within(order, |ids|) && forall cpu: nat :: cpu < |ids| ==> cpu in order
    ensures Scan(facts, ids, order) == FillAll(facts, ids)
  {
    ScanFrom(facts, ids, ids, order);
    var r, f := Scan(facts, ids, order), FillAll(facts, ids);
    assert forall cpu :: 0 <= cpu < |ids| ==> r[cpu] == f[cpu];
  }

  /** Running the whole update a second time changes nothing. */
  lemma SecondRun(facts: Facts, ids: seq<int>)
    ensures Update(facts, Update(facts, ids)) == Update(facts, ids)
  {
    var a := FirstPass(facts, ids);
    var b := FillAll(facts, a);
    var c := FirstPass(facts, b);
    forall cpu | 0 <= cpu < |a| ensures c[cpu] == a[cpu] || c[cpu] == Filled(facts, a, cpu) {
      assert b[cpu] == Filled(facts, a, cpu);
    }
    assert Mixed(facts, a, c);
    var r := FillAll(facts, c);
    forall cpu | 0 <= cpu < |a| ensures r[cpu] == b[cpu] { FilledSame(facts, a, c, cpu); }
    assert r == b;
  }

  // ---- The answer for each CPU ----

  /** The cluster of the CPU is known to have this id only. */
  predicate ClusterHas(facts: Facts, cpu: nat, id: nat) {
    cpu in facts.cluster && facts.cluster[cpu] in facts.clusterIds && facts.clusterIds[facts.cluster[cpu]] == {id}
  }

  /** What the maps say of a CPU: its own id if it has one, else that of its cluster, else what was there. */
  ghost predicate Told(facts: Facts, before: int, cpu: nat, id: int) {
    if cpu in facts.midr then id == AsInt32(facts.midr[cpu])
    else if exists x: nat :: ClusterHas(facts, cpu, x) then exists x: nat :: ClusterHas(facts, cpu, x) && id == AsInt32(x)
    else id == before
  }

  /** Some CPU of the cluster is known, and all that are known have this id. */
  ghost predicate SiblingsHave(facts: Facts, told: seq<int>, cpu: nat, id: nat) {
    && cpu in facts.cluster
    && (exists s :: s in facts.cluster && KnownIn(facts, told, facts.cluster[cpu], s))
    && (forall s :: s in facts.cluster && KnownIn(facts, told, facts.cluster[cpu], s) ==> Low(told[s]) == id)
  }

  lemma FirstPassTold(facts: Facts, ids: seq<int>, cpu: nat)
    requires cpu < |ids|
    ensures Told(facts, ids[cpu], cpu, FirstPass(facts, ids)[cpu])
  {
    hide AsInt32;
    if cpu !in facts.midr && HasMidr(facts, cpu) {
      var all := facts.clusterIds[facts.cluster[cpu]];
      var id :| id in all && MidrId(facts, cpu) == AsInt32(id);
      OnlyOne(all, id);
      assert ClusterHas(facts, cpu, id);
    }
  }

  lemma ToldOnce(facts: Facts, before: int, cpu: nat, a: int, b: int)
    requires Told(facts, before, cpu, a) && Told(facts, before, cpu, b)
    ensures a == b
  {
    hide AsInt32;
    if cpu !in facts.midr && exists x: nat :: ClusterHas(facts, cpu, x) {
      var x: nat :| ClusterHas(facts, cpu, x) && a == AsInt32(x);
      var y: nat :| ClusterHas(facts, cpu, y) && b == AsInt32(y);
      assert x in {y};
    }
  }

  lemma KnownOne(facts: Facts, told: seq<int>, cpu: nat, id: nat)
    requires cpu in facts.cluster
    ensures SiblingsHave(facts, told, cpu, id) <==> Known(facts, told, facts.cluster[cpu]) == {id}
  {
    var known, c := Known(facts, told, facts.cluster[cpu]), facts.cluster[cpu];
    if SiblingsHave(facts, told, cpu, id) {
      var s :| s in facts.cluster && KnownIn(facts, told, c, s);
      assert Low(told[s]) in known;
      assert forall x :: x in known ==> x == id;
    } else if known == {id} {
      assert id in known;
      forall s | s in facts.cluster && KnownIn(facts, told, c, s) ensures Low(told[s]) == id { assert Low(told[s]) in known; }
    }
  }

  /**
   * Each CPU ends with what the maps say of it when that is a known id; else
   * with the one id its siblings have, and otherwise as the maps left it.
   */
  lemma UpdateAnswers(facts: Facts, ids: seq<int>, told: seq<int>, cpu: nat)
    requires |told| == |ids| && cpu < |ids| && forall k :: 0 <= k < |ids| ==> Told(facts, ids[k], k, told[k])
    ensures |Update(facts, ids)| == |ids|
    ensures var r := Update(facts, ids)[cpu];
            && (!Unknown(told[cpu]) ==> r == told[cpu])
            && (Unknown(told[cpu]) ==> forall id :: SiblingsHave(facts, told, cpu, id) ==> r == id)
            && (Unknown(told[cpu]) && !(exists id :: SiblingsHave(facts, told, cpu, id)) ==> r == told[cpu])
  {
    hide Told, SiblingsHave;
    var a := FirstPass(facts, ids);
    forall k | 0 <= k < |ids| ensures a[k] == told[k] {
      FirstPassTold(facts, ids, k);
      ToldOnce(facts, ids[k], k, a[k], told[k]);
    }
    assert a == told;
    SiblingsDecide(facts, told, cpu);
  }

  lemma SiblingsDecide(facts: Facts, told: seq<int>, cpu: nat)
    requires cpu < |told|
    ensures Unknown(told[cpu]) ==> forall id :: SiblingsHave(facts, told, cpu, id) ==> Filled(facts, told, cpu) == id
    ensures Unknown(told[cpu]) && !(exists id :: SiblingsHave(facts, told, cpu, id)) ==> Filled(facts, told, cpu) == told[cpu]
  {
    if Fillable(facts, told, cpu) {
      FilledIs(facts, told, cpu);
      KnownOne(facts, told, cpu, Filled(facts, told, cpu));
    }
    forall id | SiblingsHave(facts, told, cpu, id) && Unknown(told[cpu]) ensures Filled(facts, told, cpu) == id {
      KnownOne(facts, told, cpu, id);
      OnlyOne(Known(facts, told, facts.cluster[cpu]), id);
    }
  }

  // ---- In place ----

  /** The distinct known ids among the siblings of one CPU. */
  method SiblingIds(facts: Facts, ids: array<int>, siblings: set<nat>, cpu: nat) returns (found: set<nat>)
    requires cpu < ids.Length && Unknown(ids[cpu]) && cpu in facts.cluster && InRange(facts, ids.Length)
    requires siblings == set s | s in facts.cluster && facts.cluster[s] == facts.cluster[cpu]
    ensures found == Known(facts, ids[..], facts.cluster[cpu])
  {
    found := {};
    var left := siblings;
    while left != {}
      invariant left <= siblings
      invariant found == set s | s in siblings && s !in left && !Unknown(ids[s]) :: Low(ids[s])
      decreases left
    {
      var sibling :| sibling in left;
      if cpu != sibling && !Unknown(ids[sibling]) { found := found + {Low(ids[sibling])}; }
      left := left - {sibling};
    }
    var c := facts.cluster[cpu];
    assert forall s :: s in siblings <==> s in facts.cluster && facts.cluster[s] == c;
    assert forall s :: s in facts.cluster && KnownIn(facts, ids[..], c, s) <==> s in siblings && !Unknown(ids[s]);
  }

  method Reverse(cluster: map<nat, nat>) returns (cpus: map<nat, set<nat>>)
    ensures forall c :: c in cpus <==> exists cpu :: cpu in cluster && cluster[cpu] == c
    ensures forall c :: c in cpus ==> cpus[c] == set cpu | cpu in cluster && cluster[cpu] == c
  {
    cpus := map[];
    var left := cluster.Keys;
    while left != {}
      invariant left <= cluster.Keys
      invariant forall c :: c in cpus <==> exists cpu :: cpu in cluster && cpu !in left && cluster[cpu] == c
      invariant forall c :: c in cpus ==> cpus[c] == set cpu | cpu in cluster && cpu !in left && cluster[cpu] == c
      decreases left
    {
      var cpu :| cpu in left;
      var c := cluster[cpu];
      cpus := cpus[c := (if c in cpus then cpus[c] else {}) + {cpu}];
      left := left - {cpu};
    }
  }

  method FirstPassInPlace(facts: Facts, ids: array<int>)
    modifies ids
    ensures ids[..] == FirstPass(facts, old(ids[..]))
  {
    hide AsInt32;
    ghost var before := ids[..];
    ghost var a := FirstPass(facts, before);
    for cpu := 0 to ids.Length
      invariant forall k :: 0 <= k < cpu ==> ids[k] == a[k]
      invariant forall k :: cpu <= k < ids.Length ==> ids[k] == before[k]
    {
      if cpu in facts.midr {
        ids[cpu] := AsInt32(facts.midr[cpu]);
      } else if cpu in facts.cluster && facts.cluster[cpu] in facts.clusterIds {
        var clusterIds := facts.clusterIds[facts.cluster[cpu]];
        if |clusterIds| == 1 {
          var id :| id in clusterIds;
          OnlyOne(clusterIds, id);
          ids[cpu] := AsInt32(id);
        }
      }
      assert ids[cpu] == a[cpu];
    }
  }

  /** The id one CPU is left with, given the ids as they are. */
  method FillOne(facts: Facts, ids: array<int>, cpus: map<nat, set<nat>>, cpu: nat) returns (id: int)
    requires InRange(facts, ids.Length) && cpu < ids.Length
    requires cpu in facts.cluster ==> facts.cluster[cpu] in cpus
    requires forall c :: c in cpus ==> cpus[c] == set s | s in facts.cluster && facts.cluster[s] == c
    ensures id == Filled(facts, ids[..], cpu)
  {
    id := ids[cpu];
    if Unknown(ids[cpu]) && cpu in facts.cluster {
      var found := SiblingIds(facts, ids, cpus[facts.cluster[cpu]], cpu);
      if |found| == 1 {
        var only :| only in found;
        OnlyOne(found, only);
        FilledIs(facts, ids[..], cpu);
        id := only;
      }
    }
  }

  method UpdateCpuIds(facts: Facts, ids: array<int>)
    requires InRange(facts, ids.Length)
    modifies ids
    ensures ids[..] == Update(facts, old(ids[..]))
  {
    hide Filled;
    FirstPassInPlace(facts, ids);
    ghost var a := ids[..];
    var cpus := Reverse(facts.cluster);
    ghost var f := FillAll(facts, a);
    for cpu := 0 to ids.Length
      invariant forall k :: 0 <= k < cpu ==> ids[k] == f[k]
      invariant forall k :: cpu <= k < ids.Length ==> ids[k] == a[k]
    {
      assert Mixed(facts, a, ids[..]);
      FilledSame(facts, a, ids[..], cpu);
      var id := FillOne(facts, ids, cpus, cpu);
      ids[cpu] := id;
    }
  }
}
