/** Stretches of stores past the commit position, and that they are runs of the ring machine. */
module RingStores {
  import opened Bytes
  import opened Rings
  import opened SpscRing

  /** The ring after storing data at consecutive offsets past the commit position. */
  function StoreAll(r: Ring, offset: nat, data: seq<byte>, slack: nat): Ring
    requires r.Ok(slack) && offset + |data| <= r.claimed
  {
    r.(buf := Put(r.buf, Wrap(r.Commit() + offset, |r.buf|), data))
  }

  /** Read from the commit position, the stores replace exactly their own stretch. */
  lemma StoreAllOpen(r: Ring, offset: nat, data: seq<byte>, slack: nat)
    requires r.Ok(slack) && offset + |data| <= r.claimed
    ensures StoreAll(r, offset, data, slack).Open(r.claimed)
         == r.Open(offset) + data + r.Open(r.claimed)[offset + |data|..]
  {
    hide Wrap, Put, Slice;
    var c, after := r.Commit(), offset + |data|;
    PutMiddle(r.buf, c, Wrap(c + offset, |r.buf|), Wrap(c + after, |r.buf|), offset, data, r.claimed - after);
    SliceSplit(r.buf, c, after, r.claimed - after);
  }

  /** Published bytes are not touched. */
  lemma StoreAllRest(r: Ring, offset: nat, data: seq<byte>, slack: nat, from: nat)
    requires r.Ok(slack) && offset + |data| <= r.claimed && from <= r.used
    ensures StoreAll(r, offset, data, slack).Rest(from) == r.Rest(from)
  {
    var n, c := |r.buf|, r.Commit();
    var w := Wrap(c + offset, n);
    var skip := n - offset - r.used + from;
    assert Wrap(w + skip, n) == Wrap(r.read + from, n);
    PutElsewhere(r.buf, w, data, skip, r.used - from);
  }

  /** Room for further bytes, then data stored in it: what every append does. */
  function Append(r: Ring, data: seq<byte>, slack: nat): Ring
    requires r.Ok(slack) && r.used + r.claimed + |data| + slack <= |r.buf|
  {
    StoreAll(r.(claimed := r.claimed + |data|), r.claimed, data, slack)
  }

  lemma AppendOpen(r: Ring, data: seq<byte>, slack: nat)
    requires r.Ok(slack) && r.used + r.claimed + |data| + slack <= |r.buf|
    ensures var t := Append(r, data, slack);
            && t.Ok(slack) && t.Open(t.claimed) == r.Open(r.claimed) + data && t.Rest(0) == r.Rest(0)
  {
    hide Wrap, Put, Slice;
    var g := r.(claimed := r.claimed + |data|);
    StoreAllOpen(g, r.claimed, data, slack);
    StoreAllRest(g, r.claimed, data, slack, 0);
  }

  function StoreSteps(offset: nat, data: seq<byte>): seq<Step> {
    seq(|data|, k requires 0 <= k < |data| => Store(offset + k, data[k]))
  }

  lemma {:induction false} RunsSnoc(s: State, steps: seq<Step>, last: Step, slack: nat, t: State)
    requires Runs(s, steps, slack, t) && t.ring.Ok(slack) && Enabled(t, last, slack)
    ensures Runs(s, steps + [last], slack, Apply(t, last, slack))
    decreases |steps|
  {
    if steps == [] {
      assert [last][1..] == [];
    } else {
      RunsSnoc(Apply(s, steps[0], slack), steps[1..], last, slack, t);
      assert (steps + [last])[1..] == steps[1..] + [last];
    }
  }

  lemma RunsCons(s: State, first: Step, steps: seq<Step>, slack: nat, t: State)
    requires s.ring.Ok(slack) && Enabled(s, first, slack) && Runs(Apply(s, first, slack), steps, slack, t)
    ensures Runs(s, [first] + steps, slack, t)
  {
    assert ([first] + steps)[1..] == steps;
  }

  /** One more store of a stretch is one store of the machine. */
  lemma StoreAllLast(r: Ring, offset: nat, data: seq<byte>, slack: nat)
    requires r.Ok(slack) && 0 < |data| && offset + |data| <= r.claimed
    ensures var k := |data| - 1;
            StoreAll(r, offset, data, slack) == Stored(StoreAll(r, offset, data[..k], slack), offset + k, data[k], slack)
  {
    WrapWrap(r.Commit(), offset, |data| - 1, |r.buf|);
  }

  /** The last byte of a stretch can be stored on its own. */
  lemma StoreAllOne(r: Ring, offset: nat, data: seq<byte>, slack: nat)
    requires r.Ok(slack) && 0 < |data| && offset + |data| <= r.claimed
    ensures StoreAll(r, offset, data, slack)
         == StoreAll(StoreAll(r, offset, data[..|data| - 1], slack), offset + (|data| - 1), [data[|data| - 1]], slack)
  {
    WrapWrap(r.Commit(), offset, |data| - 1, |r.buf|);
    var front := StoreAll(r, offset, data[..|data| - 1], slack);
    PutOne(front.buf, Wrap(r.Commit() + (offset + (|data| - 1)), |r.buf|), data[|data| - 1]);
  }

  lemma AppendOne(r: Ring, data: seq<byte>, slack: nat)
    requires r.Ok(slack) && 0 < |data| && r.used + r.claimed + |data| + slack <= |r.buf|
    ensures Append(r, data, slack) == Append(Append(r, data[..|data| - 1], slack), [data[|data| - 1]], slack)
  {
    hide Wrap, Put, Slice;
    StoreAllOne(r.(claimed := r.claimed + |data|), r.claimed, data, slack);
  }

  /** Each stretch of stores is a run of single stores, so anything may happen between two of them. */
  lemma {:induction false} StoreAllRuns(s: State, offset: nat, data: seq<byte>, slack: nat)
    requires s.ring.Ok(slack) && offset + |data| <= s.ring.claimed
    ensures Runs(s, StoreSteps(offset, data), slack, s.(ring := StoreAll(s.ring, offset, data, slack)))
    decreases |data|
  {
    hide Put, Slice, Wrap, Runs;
    if data == [] {
      assert StoreSteps(offset, data) == [];
      NoRuns(s, slack);
      assert StoreAll(s.ring, offset, data, slack) == s.ring by { NoStores(s.ring, offset, slack); }
    } else {
      var k := |data| - 1;
      StoreAllRuns(s, offset, data[..k], slack);
      RunsSnoc(s, StoreSteps(offset, data[..k]), Store(offset + k, data[k]), slack,
               s.(ring := StoreAll(s.ring, offset, data[..k], slack)));
      assert StoreSteps(offset, data[..k]) + [Store(offset + k, data[k])] == StoreSteps(offset, data);
      StoreAllLast(s.ring, offset, data, slack);
    }
  }

  lemma NoRuns(s: State, slack: nat)
    ensures Runs(s, [], slack, s)
  {
  }

  lemma NoStores(r: Ring, offset: nat, slack: nat)
    requires r.Ok(slack) && offset <= r.claimed
    ensures StoreAll(r, offset, [], slack) == r
  {
  }

  /** An append is a claim followed by single stores. */
  lemma AppendRuns(s: State, data: seq<byte>, slack: nat)
    requires s.ring.Ok(slack) && s.ring.used + s.ring.claimed + |data| + slack <= |s.ring.buf|
    ensures Runs(s, [Claim(s.ring.claimed + |data|)] + StoreSteps(s.ring.claimed, data), slack,
                 s.(ring := Append(s.ring, data, slack)))
  {
    var first := Claim(s.ring.claimed + |data|);
    var g, t := Apply(s, first, slack), s.(ring := Append(s.ring, data, slack));
    assert Runs(g, StoreSteps(s.ring.claimed, data), slack, t) by {
      StoreAllRuns(g, s.ring.claimed, data, slack);
    }
    RunsCons(s, first, StoreSteps(s.ring.claimed, data), slack, t);
  }
}
