/**
 * Length-prefixed records: a tag of fixed length, four little-endian length
 * bytes, then the body.  The daemon's frames have a response-type byte or no
 * tag; the annotation client's messages have a marker byte.
 */
module Records {
  import opened Bytes

  datatype Record = Record(tag: seq<byte>, body: seq<byte>)

  predicate Encodable(r: Record, tagLength: nat) {
    |r.tag| == tagLength && |r.body| < 0x1_0000_0000
  }

  predicate AllEncodable(rs: seq<Record>, tagLength: nat) {
    forall i :: 0 <= i < |rs| ==> Encodable(rs[i], tagLength)
  }

  function Encode(r: Record): seq<byte>
    requires |r.body| < 0x1_0000_0000
  {
    r.tag + LE32(|r.body|) + r.body
  }

  function Encodings(rs: seq<Record>, tagLength: nat): (ss: seq<seq<byte>>)
    requires AllEncodable(rs, tagLength)
    ensures |ss| == |rs|
  {
    seq(|rs|, i requires 0 <= i < |rs| => Encode(rs[i]))
  }

  /** The bytes of the first record of s, or zero when s holds only part of one. */
  function FirstLength(s: seq<byte>, tagLength: nat): nat {
    if |s| < tagLength + 4 then 0
    else
      var n := FromLE32(s[tagLength..tagLength + 4]);
      if |s| < tagLength + 4 + n then 0 else tagLength + 4 + n
  }

  /** The whole records at the front of s, in order. */
  function Parse(s: seq<byte>, tagLength: nat): seq<Record> {
    var n := FirstLength(s, tagLength);
    if n == 0 then [] else [Record(s[..tagLength], s[tagLength + 4..n])] + Parse(s[n..], tagLength)
  }

  lemma ParseFirst(r: Record, rest: seq<byte>, tagLength: nat)
    requires Encodable(r, tagLength)
    ensures Parse(Encode(r) + rest, tagLength) == [r] + Parse(rest, tagLength)
  {
    var s := Encode(r) + rest;
    assert s[tagLength..tagLength + 4] == LE32(|r.body|);
    LE32RoundTrip(|r.body|);
    assert s[..tagLength] == r.tag && s[tagLength + 4..|Encode(r)|] == r.body && s[|Encode(r)|..] == rest;
  }

  /** A proper prefix of one encoded record holds no whole record. */
  lemma ParsePartial(r: Record, s: seq<byte>, tagLength: nat)
    requires Encodable(r, tagLength) && s <= Encode(r) && |s| < |Encode(r)|
    ensures Parse(s, tagLength) == []
  {
    if |s| >= tagLength + 4 {
      assert s[tagLength..tagLength + 4] == Encode(r)[tagLength..tagLength + 4] == LE32(|r.body|);
      LE32RoundTrip(|r.body|);
    }
  }

  /**
   * A stream cut anywhere parses to the records it holds whole: never torn,
   * reordered or invented; and the uncut stream parses to all of them.
   */
  lemma {:induction false} ParseStream(rs: seq<Record>, s: seq<byte>, tagLength: nat)
    requires AllEncodable(rs, tagLength) && s <= Flatten(Encodings(rs, tagLength))
    ensures Parse(s, tagLength) <= rs
    ensures s == Flatten(Encodings(rs, tagLength)) ==> Parse(s, tagLength) == rs
    decreases |rs|
  {
    if rs != [] {
      var first, tail := Encode(rs[0]), Encodings(rs[1..], tagLength);
      assert Encodings(rs, tagLength) == [first] + tail;
      assert Flatten(Encodings(rs, tagLength)) == first + Flatten(tail);
      if |s| < |first| {
        ParsePartial(rs[0], s, tagLength);
      } else {
        var rest := s[|first|..];
        assert s == first + rest;
        ParseFirst(rs[0], rest, tagLength);
        ParseStream(rs[1..], rest, tagLength);
        assert rs == [rs[0]] + rs[1..];
      }
    }
  }

  lemma EncodingsSnoc(rs: seq<Record>, r: Record, tagLength: nat)
    requires AllEncodable(rs, tagLength) && Encodable(r, tagLength)
    ensures Encodings(rs + [r], tagLength) == Encodings(rs, tagLength) + [Encode(r)]
  {
  }
}
