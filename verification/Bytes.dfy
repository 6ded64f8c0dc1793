/** Byte sequences shared by every part of the model. */
module Bytes {

  type byte = b: int | 0 <= b < 256

  const INT32_LIMIT := 0x8000_0000
  const INT64_LIMIT := 0x8000_0000_0000_0000

  predicate IsInt32(x: int) { -INT32_LIMIT <= x < INT32_LIMIT }

  predicate IsInt64(x: int) { -INT64_LIMIT <= x < INT64_LIMIT }

  // ---- Words ----

  function Modulus(width: nat): int
    requires width == 32 || width == 64
  {
    if width == 32 then 0x1_0000_0000 else 0x1_0000_0000_0000_0000
  }

  /** Keeps the low `width` bits and reads them as a two's-complement word. */
  function Truncate(v: int, width: nat): (r: int)
    requires width == 32 || width == 64
    ensures -(Modulus(width) / 2) <= r < Modulus(width) / 2
  {
    Signed(v % Modulus(width), width)
  }

  /** A word of `width` bits read as two's complement. */
  function Signed(word: int, width: nat): (r: int)
    requires (width == 32 || width == 64) && 0 <= word < Modulus(width)
    ensures -(Modulus(width) / 2) <= r < Modulus(width) / 2
  {
    if word < Modulus(width) / 2 then word else word - Modulus(width)
  }

  lemma TruncateFits(x: int)
    ensures IsInt32(x) ==> Truncate(x, 32) == x
    ensures IsInt64(x) ==> Truncate(x, 64) == x
  {
  }

  /** A value passed as a signed integer of 32 or 64 bits. */
  function AsInt32(x: int): (r: int)
    ensures IsInt32(r) && (IsInt32(x) ==> r == x)
  {
    TruncateFits(x);
    Truncate(x, 32)
  }

  function AsInt64(x: int): (r: int)
    ensures IsInt64(r) && (IsInt64(x) ==> r == x)
  {
    TruncateFits(x);
    Truncate(x, 64)
  }

  // ---- Byte strings ----

  /** Concatenation of a list of byte strings, in order. */
  function Flatten(ss: seq<seq<byte>>): seq<byte> {
    if ss == [] then [] else ss[0] + Flatten(ss[1..])
  }

  lemma {:induction false} FlattenConcat(a: seq<seq<byte>>, b: seq<seq<byte>>)
    ensures Flatten(a + b) == Flatten(a) + Flatten(b)
  {
    if a == [] {
      assert a + b == b;
    } else {
      assert (a + b)[1..] == a[1..] + b;
      FlattenConcat(a[1..], b);
    }
  }

  lemma FlattenSnoc(a: seq<seq<byte>>, m: seq<byte>)
    ensures Flatten(a + [m]) == Flatten(a) + m
  {
    FlattenConcat(a, [m]);
    assert Flatten([m]) == m;
  }

  lemma FlattenSplit(a: seq<seq<byte>>, k: nat)
    requires k <= |a|
    ensures Flatten(a) == Flatten(a[..k]) + Flatten(a[k..])
  {
    hide Flatten;
    assert a[..k] + a[k..] == a;
    FlattenConcat(a[..k], a[k..]);
  }

  lemma Reassociate(a: seq<byte>, b: seq<byte>, c: seq<byte>)
    ensures (a + b) + c == a + (b + c)
  {
  }

  /** The four little-endian bytes of a 32-bit word (`writeLEInt`). */
  function LE32(n: nat): (s: seq<byte>)
    requires n < 0x1_0000_0000
    ensures |s| == 4
  {
    [n % 256, n / 0x100 % 256, n / 0x1_0000 % 256, n / 0x100_0000]
  }

  /** The word read back by `readLEInt`. */
  function FromLE32(s: seq<byte>): nat
    requires |s| == 4
  {
    (s[0] as int) + 0x100 * (s[1] as int) + 0x1_0000 * (s[2] as int) + 0x100_0000 * (s[3] as int)
  }

  lemma LE32RoundTrip(n: nat)
    requires n < 0x1_0000_0000
    ensures FromLE32(LE32(n)) == n
  {
    assert n / 0x1_0000 == n / 0x100 / 256;
    assert n / 0x100_0000 == n / 0x1_0000 / 256;
  }
}
