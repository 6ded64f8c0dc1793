/** Registering PMU families and finding the family of a core. */
module PmuFamilies {
  import opened Options

  const CPUID_MASK: bv32 := 0xff00_fff0

  datatype Family = Family(midr: bv32, events: seq<bv32>, cores: seq<bv8>)

  // ---- Core sets ----

  function Bit(b: nat): bv8
    requires b < 8
  {
    match b
    case 0 => 1
    case 1 => 2
    case 2 => 4
    case 3 => 8
    case 4 => 16
    case 5 => 32
    case 6 => 64
    case _ => 128
  }

  /** A core outside the set's bytes is not in it. */
  predicate IsSet(cores: seq<bv8>, core: nat) {
    core / 8 < |cores| && (cores[core / 8] & Bit(core % 8)) != 0
  }

  ghost predicate Share(a: seq<bv8>, b: seq<bv8>) { exists core: nat :: IsSet(a, core) && IsSet(b, core) }

  lemma SomeBit(z: bv8) returns (b: nat)
    requires z != 0
    ensures b < 8 && z & Bit(b) != 0
  {
    b := if z & 1 != 0 then 0 else if z & 2 != 0 then 1 else if z & 4 != 0 then 2 else if z & 8 != 0 then 3
         else if z & 16 != 0 then 4 else if z & 32 != 0 then 5 else if z & 64 != 0 then 6 else 7;
  }

  lemma AndBit(x: bv8, y: bv8, m: bv8)
    requires m in {1, 2, 4, 8, 16, 32, 64, 128}
    ensures (x & y) & m != 0 <==> x & m != 0 && y & m != 0
    ensures (x & y) & m != 0 ==> x & y != 0
  {
  }

  lemma SetBit(cores: seq<bv8>, d: nat, bit: nat)
    requires d < |cores| && bit < 8
    ensures IsSet(cores, 8 * d + bit) <==> cores[d] & Bit(bit) != 0
  {
    hide Bit;
    assert (8 * d + bit) / 8 == d && (8 * d + bit) % 8 == bit;
  }

  lemma CoreBit(cores: seq<bv8>, core: nat) returns (d: nat, bit: nat)
    ensures core == 8 * d + bit && bit < 8 && (IsSet(cores, core) ==> d < |cores|)
  {
    hide Bit;
    d, bit := core / 8, core % 8;
  }

  /** The byte by byte test finds a common core exactly when there is one. */
  lemma ShareByte(a: seq<bv8>, b: seq<bv8>)
    requires |a| == |b|
    ensures Share(a, b) <==> exists d :: 0 <= d < |a| && a[d] & b[d] != 0
  {
    hide IsSet, Bit;
    if d: nat :| d < |a| && a[d] & b[d] != 0 {
      var bit := SomeBit(a[d] & b[d]);
      BitMask(bit);
      AndBit(a[d], b[d], Bit(bit));
      SetBit(a, d, bit);
      SetBit(b, d, bit);
    }
    if core: nat :| IsSet(a, core) && IsSet(b, core) {
      var d, bit := CoreBit(a, core);
      BitMask(bit);
      SetBit(a, d, bit);
      SetBit(b, d, bit);
      AndBit(a[d], b[d], Bit(bit));
    }
  }

  lemma BitMask(b: nat)
    requires b < 8
    ensures Bit(b) in {1, 2, 4, 8, 16, 32, 64, 128}
  {
  }

  // ---- Registering ----

  /** Families of the same MIDR never share a core. */
  ghost predicate Disjoint(families: seq<Family>) {
    forall i, j :: 0 <= i < j < |families| && families[i].midr == families[j].midr ==> !Share(families[i].cores, families[j].cores)
  }

  ghost predicate Clashes(families: seq<Family>, midr: bv32, cores: seq<bv8>) {
    exists i :: 0 <= i < |families| && families[i].midr == midr && Share(families[i].cores, cores)
  }

  method Overlap(a: seq<bv8>, b: seq<bv8>) returns (overlap: bool)
    requires |a| == |b|
    ensures overlap == Share(a, b)
  {
    hide Share;
    ShareByte(a, b);
    for d := 0 to |a|
      invariant forall k :: 0 <= k < d ==> a[k] & b[k] == 0
    {
      if a[d] & b[d] != 0 { return true; }
    }
    return false;
  }

  function AllCores(setLength: nat): (cores: seq<bv8>)
    ensures |cores| == setLength
  {
    seq(setLength, _ => 0xff)
  }

  class Settings {
    const maxFamilies: nat
    const maxEvents: nat
    const setLength: nat
    var families: seq<Family>
    var started: bool

    ghost predicate Valid()
      reads this
    {
      && |families| <= maxFamilies
      && (forall i :: 0 <= i < |families| ==> |families[i].cores| == setLength && |families[i].events| <= maxEvents)
      && Disjoint(families)
    }

    constructor (maxFamilies: nat, maxEvents: nat, setLength: nat)
      ensures Valid() && families == [] && !started
      ensures this.maxFamilies == maxFamilies && this.maxEvents == maxEvents && this.setLength == setLength
    {
      this.maxFamilies, this.maxEvents, this.setLength := maxFamilies, maxEvents, setLength;
      families, started := [], false;
    }

    /**
     * Succeeds exactly when sampling has not started, there is room, and no
     * family of the same MIDR shares a core; then the family is added with as
     * many events as fit, and all cores when none were given.
     */
    method InitializeFamily(midr: bv32, events: seq<bv32>, allowed: Option<seq<bv8>>) returns (ok: bool)
      requires Valid() && (allowed.Some? ==> |allowed.value| == setLength)
      modifies this`families
      ensures Valid()
      ensures var cores := allowed.GetOr(AllCores(setLength));
              && ok == (!started && |old(families)| < maxFamilies && !Clashes(old(families), midr, cores))
              && families == if ok then old(families) + [Family(midr, Cut(events, maxEvents), cores)] else old(families)
      ensures ok ==> var kept := families[|families| - 1].events;
              kept <= events && |kept| == if |events| < maxEvents then |events| else maxEvents
    {
      var cores := allowed.GetOr(AllCores(setLength));
      hide Share, IsSet;
      if started || |families| >= maxFamilies { return false; }
      for p := 0 to |families|
        invariant families == old(families)
        invariant forall i :: 0 <= i < p ==> families[i].midr == midr ==> !Share(families[i].cores, cores)
      {
        if families[p].midr == midr {
          var overlap := Overlap(families[p].cores, cores);
          if overlap {
            assert Clashes(families, midr, cores);
            return false;
          }
        }
      }
      families := families + [Family(midr, Cut(events, maxEvents), cores)];
      return true;
    }

    /** The first family that matches the processor and allows the core. */
    method FindFamily(midr: bv32, core: nat) returns (index: nat)
      ensures index <= |families|
      ensures forall i :: 0 <= i < index ==> !Matches(families[i], midr, core)
      ensures index < |families| ==> Matches(families[index], midr, core)
    {
      index := 0;
      while index < |families| && !Matches(families[index], midr, core)
        invariant index <= |families|
        invariant forall i :: 0 <= i < index ==> !Matches(families[i], midr, core)
      {
        index := index + 1;
      }
    }
  }

  function Cut(events: seq<bv32>, max: nat): seq<bv32> { if |events| > max then events[..max] else events }

  function CpuId(midr: bv32): bv32 { midr & CPUID_MASK }

  predicate Matches(f: Family, midr: bv32, core: nat) {
    CpuId(f.midr) == CpuId(midr) && IsSet(f.cores, core)
  }

  lemma NotShared(a: seq<bv8>, b: seq<bv8>, core: nat)
    requires !Share(a, b)
    ensures !(IsSet(a, core) && IsSet(b, core))
  {
  }

  /** Two families that differ only in MIDR bits the lookup ignores, both with this core. */
  ghost predicate Twins(families: seq<Family>, core: nat, i: nat, j: nat)
    requires i < |families| && j < |families|
  {
    && families[i].midr != families[j].midr && CpuId(families[i].midr) == CpuId(families[j].midr)
    && IsSet(families[i].cores, core) && IsSet(families[j].cores, core)
  }

  /**
   * The settings are meant to hold at most one family per core.  Registration
   * compares whole MIDRs and the lookup only their CPU id, so a core has two
   * matching families exactly when two were registered for it whose MIDRs
   * differ in the ignored bits alone.
   */
  lemma OneFamilyPerCore(families: seq<Family>, core: nat, i: nat, j: nat)
    requires Disjoint(families) && i < j < |families|
    ensures (exists midr :: Matches(families[i], midr, core) && Matches(families[j], midr, core)) <==> Twins(families, core, i, j)
  {
    hide IsSet, CpuId;
    if midr :| Matches(families[i], midr, core) && Matches(families[j], midr, core) {
      if families[i].midr == families[j].midr { NotShared(families[i].cores, families[j].cores, core); }
    }
    if Twins(families, core, i, j) {
      assert Matches(families[i], families[i].midr, core) && Matches(families[j], families[i].midr, core);
    }
  }

  /** Two revisions of one processor, both allowed on every core, are registered one after the other. */
  method RegisterTwins() returns (settings: Settings)
    ensures fresh(settings) && settings.Valid() && |settings.families| == 2
    ensures Twins(settings.families, 0, 0, 1)
  {
    settings := new Settings(2, 6, 1);
    var first := settings.InitializeFamily(0x410f_d030, [], None);
    var second := settings.InitializeFamily(0x411f_d034, [], None);
    assert AllCores(1) == [0xff];
    assert IsSet([0xff], 0) by { assert (0xff as bv8) & Bit(0) != 0; }
  }
}
