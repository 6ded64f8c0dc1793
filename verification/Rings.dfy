/** Positions and stretches of bytes in a ring whose size is a power of two. */
module Rings {
  import opened Bytes

  /** `p & (n - 1)` for a position p below 2n. */
  function Wrap(p: nat, n: nat): (r: nat)
    requires 0 < n && p < 2 * n
    ensures r < n
  {
    if p < n then p else p - n
  }

  /** Bytes from position a forward to position b: a difference, plus n when negative. */
  function Dist(a: nat, b: nat, n: nat): (d: nat)
    requires a < n && b < n
    ensures d < n && Wrap(a + d, n) == b
  {
    if a <= b then b - a else b - a + n
  }

  /** Moving on by a, then by b. */
  lemma WrapWrap(p: nat, a: nat, b: nat, n: nat)
    requires p < n && a + b <= n
    ensures Wrap(Wrap(p + a, n) + b, n) == Wrap(p + (a + b), n)
  {
  }

  /** Distances from a add up while they stay below n. */
  lemma DistAdd(a: nat, d: nat, k: nat, n: nat)
    requires a < n && d + k < n
    ensures Dist(a, Wrap(a + d, n), n) == d
    ensures Dist(a, Wrap(Wrap(a + d, n) + k, n), n) == d + k
    ensures Dist(Wrap(a + d, n), Wrap(a + (d + k), n), n) == k
  {
  }

  /** The `length` bytes found from `pos` on, reading around the end of the ring. */
  function Slice(buf: seq<byte>, pos: nat, length: nat): (s: seq<byte>)
    requires pos < |buf| && length <= |buf|
    ensures |s| == length
  {
    seq(length, k requires 0 <= k < length => buf[Wrap(pos + k, |buf|)])
  }

  lemma SliceAt(buf: seq<byte>, pos: nat, length: nat)
    requires pos < |buf| && length <= |buf|
    ensures forall k {:trigger Slice(buf, pos, length)[k]} :: 0 <= k < length ==>
              Slice(buf, pos, length)[k] == buf[Wrap(pos + k, |buf|)]
  {
  }

  /** The two halves the consumers hand over: up to the end of the ring, then from its start. */
  lemma SliceHalves(buf: seq<byte>, pos: nat, length: nat)
    requires pos < |buf| && length <= |buf|
    ensures pos + length <= |buf| ==> Slice(buf, pos, length) == buf[pos..pos + length]
    ensures pos + length > |buf| ==> Slice(buf, pos, length) == buf[pos..] + buf[..pos + length - |buf|]
  {
    SliceAt(buf, pos, length);
  }

  lemma SliceSplit(buf: seq<byte>, pos: nat, a: nat, b: nat)
    requires pos < |buf| && a + b <= |buf|
    ensures Slice(buf, pos, a + b) == Slice(buf, pos, a) + Slice(buf, Wrap(pos + a, |buf|), b)
  {
    SliceAt(buf, pos, a + b);
    SliceAt(buf, pos, a);
    SliceAt(buf, Wrap(pos + a, |buf|), b);
    assert forall k {:trigger Slice(buf, Wrap(pos + a, |buf|), b)[k]} :: 0 <= k < b ==>
        Slice(buf, Wrap(pos + a, |buf|), b)[k] == Slice(buf, pos, a + b)[a + k];
  }

  /** A store k bytes past `pos` changes only byte k of what is read from `pos`. */
  lemma SliceStore(buf: seq<byte>, pos: nat, length: nat, k: nat, b: byte)
    requires pos < |buf| && length <= |buf| && k < |buf|
    ensures Slice(buf[Wrap(pos + k, |buf|) := b], pos, length)
         == if k < length then Slice(buf, pos, length)[k := b] else Slice(buf, pos, length)
  {
    SliceAt(buf, pos, length);
    SliceAt(buf[Wrap(pos + k, |buf|) := b], pos, length);
  }

  /** The ring after data is stored byte by byte from `pos` on. */
  function Put(buf: seq<byte>, pos: nat, data: seq<byte>): (r: seq<byte>)
    requires pos < |buf| && |data| <= |buf|
    ensures |r| == |buf|
    decreases |data|
  {
    if data == [] then buf
    else
      var k := |data| - 1;
      Put(buf, pos, data[..k])[Wrap(pos + k, |buf|) := data[k]]
  }

  lemma PutSnoc(buf: seq<byte>, pos: nat, data: seq<byte>, k: nat)
    requires pos < |buf| && k < |data| <= |buf|
    ensures Put(buf, pos, data[..k + 1]) == Put(buf, pos, data[..k])[Wrap(pos + k, |buf|) := data[k]]
  {
    assert data[..k + 1][..k] == data[..k];
  }

  lemma PutOne(buf: seq<byte>, pos: nat, b: byte)
    requires pos < |buf|
    ensures Put(buf, pos, [b]) == buf[pos := b]
  {
    assert [b][..0] == [];
    assert Put(buf, pos, []) == buf;
  }

  /** Which cells change, and to what. */
  lemma {:induction false} PutCell(buf: seq<byte>, pos: nat, data: seq<byte>, j: nat)
    requires pos < |buf| && |data| <= |buf| && j < |buf|
    ensures Put(buf, pos, data)[Wrap(pos + j, |buf|)] == if j < |data| then data[j] else buf[Wrap(pos + j, |buf|)]
    decreases |data|
  {
    if data != [] { PutCell(buf, pos, data[..|data| - 1], j); }
  }

  /** Read back around the ring, the data is there. */
  lemma PutSlice(buf: seq<byte>, pos: nat, data: seq<byte>)
    requires pos < |buf| && |data| <= |buf|
    ensures Slice(Put(buf, pos, data), pos, |data|) == data
  {
    var t := Put(buf, pos, data);
    forall j | 0 <= j < |data| ensures Slice(t, pos, |data|)[j] == data[j] {
      PutCell(buf, pos, data, j);
    }
  }

  /** A stretch that the data does not reach reads as before. */
  lemma {:induction false} PutElsewhere(buf: seq<byte>, pos: nat, data: seq<byte>, skip: nat, length: nat)
    requires pos < |buf| && |data| <= skip && skip + length <= |buf|
    ensures Slice(Put(buf, pos, data), Wrap(pos + skip, |buf|), length) == Slice(buf, Wrap(pos + skip, |buf|), length)
    decreases |data|
  {
    var t, q := Put(buf, pos, data), Wrap(pos + skip, |buf|);
    forall j | 0 <= j < length ensures Slice(t, q, length)[j] == Slice(buf, q, length)[j] {
      WrapWrap(pos, skip, j, |buf|);
      PutCell(buf, pos, data, skip + j);
    }
  }

  lemma WrapAround(p: nat, a: nat, n: nat)
    requires p < n && a <= n
    ensures Wrap(Wrap(p + a, n) + (n - a), n) == p
  {
  }

  lemma PutBefore(buf: seq<byte>, pos: nat, w: nat, offset: nat, data: seq<byte>)
    requires pos < |buf| && offset + |data| <= |buf| && w == Wrap(pos + offset, |buf|)
    ensures Slice(Put(buf, w, data), pos, offset) == Slice(buf, pos, offset)
  {
    hide *;
    WrapAround(pos, offset, |buf|);
    PutElsewhere(buf, w, data, |buf| - offset, offset);
  }

  lemma PutAfter(buf: seq<byte>, pos: nat, w: nat, q: nat, offset: nat, data: seq<byte>, rest: nat)
    requires pos < |buf| && offset + |data| + rest <= |buf|
    requires w == Wrap(pos + offset, |buf|) && q == Wrap(pos + (offset + |data|), |buf|)
    ensures Slice(Put(buf, w, data), q, rest) == Slice(buf, q, rest)
  {
    hide *;
    WrapWrap(pos, offset, |data|, |buf|);
    PutElsewhere(buf, w, data, |data|, rest);
  }

  /** Data put `offset` bytes past `pos` replaces exactly its own stretch of what is read from `pos`. */
  lemma PutMiddle(buf: seq<byte>, pos: nat, w: nat, q: nat, offset: nat, data: seq<byte>, rest: nat)
    requires pos < |buf| && offset + |data| + rest <= |buf|
    requires w == Wrap(pos + offset, |buf|) && q == Wrap(pos + (offset + |data|), |buf|)
    ensures Slice(Put(buf, w, data), pos, offset + |data| + rest)
         == Slice(buf, pos, offset) + data + Slice(buf, q, rest)
  {
    hide *;
    var t := Put(buf, w, data);
    PutBefore(buf, pos, w, offset, data);
    SliceSplit(t, pos, offset, |data|);
    PutSlice(buf, w, data);
    PutAfter(buf, pos, w, q, offset, data, rest);
    SliceSplit(t, pos, offset + |data|, rest);
  }

  /** Data put in two pieces, the second where the first ended. */
  lemma {:induction false} PutConcat(buf: seq<byte>, pos: nat, a: seq<byte>, b: seq<byte>)
    requires pos < |buf| && |a| + |b| <= |buf|
    ensures Put(Put(buf, pos, a), Wrap(pos + |a|, |buf|), b) == Put(buf, pos, a + b)
    decreases |b|
  {
    if b == [] {
      assert a + b == a;
    } else {
      var k := |b| - 1;
      PutConcat(buf, pos, a, b[..k]);
      WrapWrap(pos, |a|, k, |buf|);
      assert (a + b)[..|a| + k] == a + b[..k];
    }
  }

  /** The two copies that store data: up to the end of the ring, then from its start. */
  lemma PutHalves(buf: seq<byte>, pos: nat, data: seq<byte>, first: nat, after: seq<byte>)
    requires pos < |buf| == |after| && |data| <= |buf|
    requires first == if pos + |data| <= |buf| then |data| else |buf| - pos
    requires forall i :: 0 <= i < first ==> after[pos + i] == data[i]
    requires forall i :: first <= i < |data| ==> after[i - first] == data[i]
    requires forall c :: |data| - first <= c < pos || pos + first <= c < |buf| ==> after[c] == buf[c]
    ensures after == Put(buf, pos, data)
  {
    hide Put;
    var t := Put(buf, pos, data);
    forall c | 0 <= c < |buf| ensures t[c] == after[c] {
      PutCell(buf, pos, data, Dist(pos, c, |buf|));
      if pos <= c < pos + first {
        assert after[pos + (c - pos)] == data[c - pos];
      } else if c < |data| - first {
        assert after[(c + first) - first] == data[c + first];
      }
    }
  }
}
