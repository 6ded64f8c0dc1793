/**
 * Signed LEB128 packing, as in section 7.6 of the DWARF Debugging Information
 * Format Version 5.  Low-order seven bits and the arithmetic shift are written
 * as Euclidean remainder and quotient by 128, which is what they are on
 * two's-complement words; bytes are taken as unsigned.
 */
module Leb128 {
  import opened Bytes
  import opened Options
  import opened Rings

  const MAXSIZE_PACK32 := 5
  const MAXSIZE_PACK64 := 10

  /** The sequence of bytes the packing loop emits. */
  function Pack(x: int): (s: seq<byte>)
    ensures |s| > 0
    decreases if x < 0 then -x else x
  {
    var b, rest := x % 128, x / 128;
    if (rest == 0 && b < 64) || (rest == -1 && b >= 64) then [b] else [b + 128] + Pack(rest)
  }

  /** Number of distinct values in `bits` bits. */
  function Pow2(bits: nat): (p: int)
    ensures p > 0
  {
    if bits == 0 then 1 else 2 * Pow2(bits - 1)
  }

  lemma Pow2Add7(k: nat)
    ensures Pow2(k + 7) == 128 * Pow2(k)
  {
    assert Pow2(k + 7) == 2 * Pow2(k + 6) == 4 * Pow2(k + 5) == 8 * Pow2(k + 4);
    assert Pow2(k + 4) == 2 * Pow2(k + 3) == 4 * Pow2(k + 2) == 8 * Pow2(k + 1);
  }

  // ---- What a signed LEB128 string means, independently of any encoder ----

  /** All bytes but the last carry the continuation bit. */
  predicate WellFormed(s: seq<byte>) {
    && |s| > 0
    && s[|s| - 1] < 128
    && forall i :: 0 <= i < |s| - 1 ==> s[i] >= 128
  }

  /** The integer a well-formed string denotes: seven bits per byte, sign in bit 6 of the last. */
  function Meaning(s: seq<byte>): int
    requires WellFormed(s)
  {
    if |s| == 1 then (if s[0] < 64 then s[0] else s[0] - 128)
    else (s[0] - 128) + 128 * Meaning(s[1..])
  }

  lemma {:induction false} PackMeans(x: int)
    ensures WellFormed(Pack(x)) && Meaning(Pack(x)) == x
    decreases if x < 0 then -x else x
  {
    var b, rest := x % 128, x / 128;
    if !((rest == 0 && b < 64) || (rest == -1 && b >= 64)) {
      PackMeans(rest);
      assert Pack(x)[1..] == Pack(rest);
    }
  }

  /** A well-formed string of n bytes denotes a value of 7n bits. */
  lemma {:induction false} MeaningRange(s: seq<byte>)
    requires WellFormed(s)
    ensures -Pow2(7 * |s| - 1) <= Meaning(s) < Pow2(7 * |s| - 1)
  {
    if |s| == 1 {
      Pow2Add7(0); assert Pow2(7) == 2 * Pow2(6);
    } else {
      MeaningRange(s[1..]);
      Pow2Add7(7 * |s| - 8);
    }
  }

  /** The number of bytes is exactly decided by the magnitude. */
  lemma {:induction false} PackLength(x: int, n: nat)
    requires n > 0
    ensures |Pack(x)| <= n <==> -Pow2(7 * n - 1) <= x < Pow2(7 * n - 1)
    decreases n
  {
    hide Meaning, WellFormed;
    PackMeans(x);
    MeaningRange(Pack(x));
    var b, rest := x % 128, x / 128;
    if |Pack(x)| <= n {
      Pow2Monotone(7 * |Pack(x)| - 1, 7 * n - 1);
    }
    Pow2Add7(0); assert Pow2(7) == 2 * Pow2(6);
    if n > 1 {
      PackLength(rest, n - 1);
      Pow2Add7(7 * n - 8);
    }
  }

  lemma {:induction false} Pow2Monotone(a: nat, b: nat)
    requires a <= b
    ensures Pow2(a) <= Pow2(b)
    decreases b
  {
    if a < b { Pow2Monotone(a, b - 1); }
  }

  /** No well-formed string that means x is shorter, and of that length there is only one. */
  lemma {:induction false} PackShortest(x: int, s: seq<byte>)
    requires WellFormed(s) && Meaning(s) == x
    ensures |Pack(x)| <= |s|
    ensures |Pack(x)| == |s| ==> Pack(x) == s
  {
    MeaningRange(s);
    PackLength(x, |s|);
    PackMeans(x);
    if |Pack(x)| == |s| { SameLengthUnique(Pack(x), s); }
  }

  lemma {:induction false} SameLengthUnique(s: seq<byte>, t: seq<byte>)
    requires WellFormed(s) && WellFormed(t) && |s| == |t| && Meaning(s) == Meaning(t)
    ensures s == t
  {
    if |s| > 1 {
      assert s[0] == t[0] by {
        assert (s[0] - t[0]) == 128 * (Meaning(t[1..]) - Meaning(s[1..]));
      }
      SameLengthUnique(s[1..], t[1..]);
      assert s == [s[0]] + s[1..] && t == [t[0]] + t[1..];
    }
  }

  lemma Pow2Values()
    ensures Pow2(31) == INT32_LIMIT && Pow2(32) == 2 * INT32_LIMIT
    ensures Pow2(63) == INT64_LIMIT && Pow2(64) == 2 * INT64_LIMIT
    ensures Pow2(34) == 8 * INT32_LIMIT && Pow2(69) == 64 * INT64_LIMIT
  {
    Pow2Add7(0); Pow2Add7(7); Pow2Add7(14); Pow2Add7(21); Pow2Add7(28); Pow2Add7(35);
    Pow2Add7(42); Pow2Add7(49); Pow2Add7(56); Pow2Add7(24); Pow2Add7(17); Pow2Add7(10); Pow2Add7(3);
    assert Pow2(0) == 1 && Pow2(3) == 8;
    assert Pow2(31) == INT32_LIMIT;
    assert Pow2(32) == 2 * Pow2(31) && Pow2(34) == 4 * Pow2(32);
    assert Pow2(63) == INT64_LIMIT;
    assert Pow2(64) == 2 * Pow2(63);
    Pow2Add7(62);
    assert Pow2(63) == 2 * Pow2(62);
  }

  /** `MAXSIZE_PACK32` and `MAXSIZE_PACK64` bound what `packInt` and `packInt64` write. */
  lemma PackSizes(x: int)
    ensures IsInt32(x) ==> 1 <= |Pack(x)| <= MAXSIZE_PACK32
    ensures IsInt64(x) ==> 1 <= |Pack(x)| <= MAXSIZE_PACK64
  {
    Pow2Values();
    PackLength(x, 5);
    PackLength(x, 10);
  }

  // ---- Unpacking ----

  /** Length of the field at the front of s, zero when no byte ends one. */
  function FieldLength(s: seq<byte>): (n: nat)
    ensures n <= |s|
    ensures n > 0 ==> WellFormed(s[..n])
    ensures n == 0 ==> forall i :: 0 <= i < |s| ==> s[i] >= 128
  {
    if s == [] then 0
    else if s[0] < 128 then 1
    else
      var n := FieldLength(s[1..]);
      if n == 0 then 0
      else
        assert s[..n + 1] == [s[0]] + s[1..][..n];
        n + 1
  }

  /**
   * The value and length of the field at the front of s.  There is none when
   * the input ends first, or when a byte would be shifted by the width of the
   * result or more, which C++ leaves undefined.
   */
  function Unpack(s: seq<byte>, width: nat): (r: Option<(int, nat)>)
    requires width == 32 || width == 64
    ensures r.Some? ==> 0 < r.value.1 <= |s|
  {
    var n := FieldLength(s);
    if n == 0 || 7 * (n - 1) >= width then None else Some((Truncate(Meaning(s[..n]), width), n))
  }

  lemma {:induction false} FieldLengthOf(f: seq<byte>, rest: seq<byte>)
    requires WellFormed(f)
    ensures FieldLength(f + rest) == |f| && (f + rest)[..|f|] == f
  {
    if |f| > 1 {
      assert (f + rest)[1..] == f[1..] + rest;
      FieldLengthOf(f[1..], rest);
    }
  }

  /** Every int32 and int64 is read back from whatever follows it. */
  lemma UnpackPack(x: int, rest: seq<byte>)
    ensures IsInt32(x) ==> Unpack(Pack(x) + rest, 32) == Some((x, |Pack(x)|))
    ensures IsInt64(x) ==> Unpack(Pack(x) + rest, 64) == Some((x, |Pack(x)|))
  {
    PackMeans(x);
    PackSizes(x);
    FieldLengthOf(Pack(x), rest);
    TruncateFits(x);
  }

  /** No packed value is a proper prefix of another, so no two differ in the same place. */
  lemma PackPrefixFree(x: int, y: int)
    requires Pack(x) <= Pack(y)
    ensures x == y
  {
    PackMeans(x);
    PackMeans(y);
    var rest := Pack(y)[|Pack(x)|..];
    assert Pack(y) == Pack(x) + rest;
    FieldLengthOf(Pack(x), rest);
    FieldLengthOf(Pack(y), []);
    assert Pack(y) + [] == Pack(y);
  }

  function PackAll(xs: seq<int>): seq<byte> {
    if xs == [] then [] else Pack(xs[0]) + PackAll(xs[1..])
  }

  function UnpackAll(s: seq<byte>, width: nat): Option<seq<int>>
    requires width == 32 || width == 64
    decreases |s|
  {
    if s == [] then Some([])
    else match Unpack(s, width)
      case None => None
      case Some((v, n)) =>
        match UnpackAll(s[n..], width)
        case None => None
        case Some(vs) => Some([v] + vs)
  }

  /** Any concatenation of packed values decodes, and only to what was packed. */
  lemma {:induction false} UnpackAllPackAll(xs: seq<int>, width: nat)
    requires width == 32 || width == 64
    requires forall i :: 0 <= i < |xs| ==> if width == 32 then IsInt32(xs[i]) else IsInt64(xs[i])
    ensures UnpackAll(PackAll(xs), width) == Some(xs)
  {
    if xs != [] {
      var rest := PackAll(xs[1..]);
      UnpackPack(xs[0], rest);
      UnpackAllPackAll(xs[1..], width);
      assert PackAll(xs)[|Pack(xs[0])|..] == rest;
      assert [xs[0]] + xs[1..] == xs;
    }
  }

  // ---- The loops ----

  /**
   * `packInt` and `packInt64`, in a ring (mask `length - 1`) or in a linear
   * buffer (mask -1).  Either way the bytes are those of Pack, and nothing else
   * changes.
   */
  method PackInto(buf: array<byte>, writePos: nat, x: int, ring: bool) returns (newPos: nat, packed: nat)
    requires writePos < buf.Length && |Pack(x)| <= buf.Length
    requires !ring ==> writePos + |Pack(x)| <= buf.Length
    modifies buf
    ensures packed == |Pack(x)|
    ensures newPos == if ring then Wrap(writePos + packed, buf.Length) else writePos + packed
    ensures buf[..] == Put(old(buf[..]), writePos, Pack(x))
  {
    packed := 0;
    var more, v := true, x;
    ghost var s := Pack(x);
    while more
      invariant 0 <= packed <= |s|
      invariant if more then packed < |s| && s[packed..] == Pack(v) else packed == |s|
      invariant buf[..] == Put(old(buf[..]), writePos, s[..packed])
      decreases |s| - packed, more
    {
      var b := v % 128;
      ghost var was := v;
      v := v / 128;
      if (v == 0 && b < 64) || (v == -1 && b >= 64) {
        more := false;
      } else {
        b := b + 128;
      }
      assert s[packed] == Pack(was)[0] == b;
      assert s[packed + 1..] == Pack(was)[1..];
      PutSnoc(old(buf[..]), writePos, s, packed);
      buf[Wrap(writePos + packed, buf.Length)] := b;
      packed := packed + 1;
    }
    assert s[..packed] == s;
    newPos := if ring then Wrap(writePos + packed, buf.Length) else writePos + packed;
  }

  /** Unsigned sum of the seven-bit groups of s. */
  ghost function Groups(s: seq<byte>): int {
    if s == [] then 0 else Groups(s[..|s| - 1]) + (s[|s| - 1] % 128) * Pow2(7 * (|s| - 1))
  }

  lemma {:induction false} GroupsCons(s: seq<byte>)
    requires |s| > 0
    ensures Groups(s) == s[0] % 128 + 128 * Groups(s[1..])
  {
    if |s| == 1 {
      assert s[..0] == [];
      assert Groups(s) == Groups([]) + (s[0] % 128) * Pow2(0);
    } else {
      var front, last := s[..|s| - 1], s[|s| - 1] % 128;
      GroupsCons(front);
      assert s[1..][..|s| - 2] == front[1..];
      Pow2Add7(7 * (|s| - 2));
      var p := Pow2(7 * (|s| - 2));
      assert last * (128 * p) == 128 * (last * p);
    }
  }

  lemma {:induction false} GroupsMeaning(s: seq<byte>)
    requires WellFormed(s)
    ensures Meaning(s) == Groups(s) - (if s[|s| - 1] >= 64 then Pow2(7 * |s|) else 0)
    ensures 0 <= Groups(s) < Pow2(7 * |s|)
  {
    GroupsCons(s);
    Pow2Add7(7 * |s| - 7);
    if |s| > 1 { GroupsMeaning(s[1..]); }
  }

  /** One turn of the loop: or in the next seven bits, in a word of `width` bits. */
  function AddGroup(acc: int, b: byte, shift: nat, width: nat): int
    requires width == 32 || width == 64
  {
    (acc + (b % 128) * Pow2(shift)) % Modulus(width)
  }

  /** The sign extension after the loop. */
  function Extend(acc: int, b: byte, shift: nat, width: nat): int
    requires width == 32 || width == 64
  {
    if shift < width && b >= 64 then (acc - Pow2(shift)) % Modulus(width) else acc
  }

  /** What the loop knows after n bytes of s. */
  ghost predicate Scanned(s: seq<byte>, n: nat, acc: int, width: nat)
    requires width == 32 || width == 64
  {
    && n <= |s|
    && acc == Groups(s[..n]) % Modulus(width)
    && (forall i :: 0 <= i < n - 1 ==> s[i] >= 128)
    && (n > 0 ==> 7 * (n - 1) < width)
  }

  lemma ScanStep(s: seq<byte>, n: nat, acc: int, width: nat)
    requires (width == 32 || width == 64) && Scanned(s, n, acc, width)
    requires n < |s| && 7 * n < width && (n > 0 ==> s[n - 1] >= 128)
    ensures Scanned(s, n + 1, AddGroup(acc, s[n], 7 * n, width), width)
  {
    assert s[..n + 1][..n] == s[..n];
    AddMod(Groups(s[..n]), (s[n] % 128) * Pow2(7 * n), width);
  }

  lemma ScanEnd(s: seq<byte>, n: nat, acc: int, width: nat)
    requires (width == 32 || width == 64) && Scanned(s, n, acc, width)
    requires n > 0 && s[n - 1] < 128
    ensures 0 <= Extend(acc, s[n - 1], 7 * n, width) < Modulus(width)
    ensures Unpack(s, width) == Some((Signed(Extend(acc, s[n - 1], 7 * n, width), width), n))
  {
    var f := s[..n];
    assert f + s[n..] == s;
    FieldLengthOf(f, s[n..]);
    GroupsMeaning(f);
    SignExtension(Groups(f), n, width);
  }

  /** `unpackInt` and `unpackInt64`: the accumulated groups, sign-extended, are the meaning of the field. */
  method UnpackFrom(buf: seq<byte>, readPos: nat, width: nat) returns (value: Option<int>, newPos: nat)
    requires readPos <= |buf| && (width == 32 || width == 64)
    ensures match Unpack(buf[readPos..], width)
            case None => value == None
            case Some((v, n)) => value == Some(v) && newPos == readPos + n
  {
    newPos := readPos;
    var shift, acc, b := 0, 0, 255;
    ghost var s := buf[readPos..];
    while b >= 128
      invariant readPos <= newPos <= |buf| && shift == 7 * (newPos - readPos)
      invariant Scanned(s, newPos - readPos, acc, width)
      invariant b == if newPos == readPos then 255 else s[newPos - readPos - 1]
      decreases |buf| - newPos, b
    {
      if newPos == |buf| || shift >= width {
        NoField(s, newPos - readPos);
        return None, newPos;
      }
      b := buf[newPos];
      ScanStep(s, newPos - readPos, acc, width);
      acc := AddGroup(acc, b, shift, width);
      newPos := newPos + 1;
      shift := shift + 7;
    }
    ScanEnd(s, newPos - readPos, acc, width);
    value := Some(Signed(Extend(acc, b, shift, width), width));
  }

  lemma {:induction false} NoField(s: seq<byte>, n: nat)
    requires n <= |s| && forall i :: 0 <= i < n ==> s[i] >= 128
    ensures FieldLength(s) == 0 || FieldLength(s) > n
  {
    if n > 0 && FieldLength(s[1..]) > 0 { NoField(s[1..], n - 1); }
  }

  lemma AddMod(a: int, b: int, width: nat)
    requires width == 32 || width == 64
    ensures (a % Modulus(width) + b) % Modulus(width) == (a + b) % Modulus(width)
  {
  }

  lemma MulMod(a: int, q: int, width: nat)
    requires width == 32 || width == 64
    ensures (a + q * Modulus(width)) % Modulus(width) == a % Modulus(width)
  {
    if width == 32 {
      assert (a + q * 0x1_0000_0000) % 0x1_0000_0000 == a % 0x1_0000_0000;
    }
  }

  /** Past the width, the sign term is a multiple of the modulus; below it, it is what `-(1 << shift)` adds. */
  lemma SignExtension(g: int, n: nat, width: nat)
    requires n > 0 && (width == 32 || width == 64) && 0 <= g
    ensures 7 * n < width ==> (g % Modulus(width) - Pow2(7 * n)) % Modulus(width) == (g - Pow2(7 * n)) % Modulus(width)
    ensures 7 * n >= width ==> (g - Pow2(7 * n)) % Modulus(width) == g % Modulus(width)
  {
    var m := Modulus(width);
    Pow2Values();
    assert m == Pow2(width);
    AddMod(g, -Pow2(7 * n), width);
    if 7 * n >= width {
      Pow2Split(width, 7 * n - width);
      MulMod(g, -Pow2(7 * n - width), width);
    }
  }

  lemma {:induction false} Pow2Split(a: nat, b: nat)
    ensures Pow2(a + b) == Pow2(b) * Pow2(a)
  {
    if b > 0 { Pow2Split(a, b - 1); }
  }
}
