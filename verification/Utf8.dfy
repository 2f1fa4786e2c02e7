/** UTF-8 as section 3 of RFC 3629 defines it, decoded the way a Go `range` over a string does:
    a byte that starts no well-formed sequence yields the replacement character and one step. */
module Utf8 {
  import opened Bytes

  const REPLACEMENT: int := 0xFFFD

  predicate IsScalar(r: int) {
    0 <= r < 0xD800 || 0xE000 <= r < 0x110000
  }

  predicate AllScalar(rs: seq<int>) {
    forall i :: 0 <= i < |rs| ==> IsScalar(rs[i])
  }

  predicate IsContinuation(b: byte) {
    0x80 <= b < 0xC0
  }

  function Encode(r: int): (s: bytes)
    requires IsScalar(r)
    ensures 1 <= |s| <= 4 && !IsContinuation(s[0])
    ensures forall i :: 0 < i < |s| ==> IsContinuation(s[i])
    ensures r < 0x80 ==> s == [r]
    ensures r >= 0x80 ==> forall i :: 0 <= i < |s| ==> s[i] >= 0x80
  {
    if r < 0x80 then [r]
    else if r < 0x800 then [0xC0 + r / 64, 0x80 + r % 64]
    else if r < 0x10000 then [0xE0 + r / 4096, 0x80 + r / 64 % 64, 0x80 + r % 64]
    else [0xF0 + r / 262144, 0x80 + r / 4096 % 64, 0x80 + r / 64 % 64, 0x80 + r % 64]
  }

  datatype Decoded = Decoded(value: int, width: nat)

  /** The second byte's range is narrower after some first bytes, which excludes overlong forms,
      surrogates and values past the last code point. */
  predicate IsSecond(first: byte, b: byte) {
    && (if first == 0xE0 then 0xA0 else if first == 0xF0 then 0x90 else 0x80) <= b
    && b <= (if first == 0xED then 0x9F else if first == 0xF4 then 0x8F else 0xBF)
  }

  /** The bits a continuation byte carries. */
  function Payload(b: byte): int {
    b - 0x80
  }

  function Decode(s: bytes): (d: Decoded)
    requires s != []
    ensures 1 <= d.width <= |s| && IsScalar(d.value)
    ensures d.value < 0x80 ==> d.width == 1 && s[0] == d.value
  {
    var b: int := s[0];
    if b < 0x80 then Decoded(b, 1)
    else if 0xC2 <= b <= 0xDF && |s| >= 2 && IsContinuation(s[1]) then
      Decoded((b - 0xC0) * 64 + Payload(s[1]), 2)
    else if 0xE0 <= b <= 0xEF && |s| >= 3 && IsSecond(b, s[1]) && IsContinuation(s[2]) then
      Decoded((b - 0xE0) * 4096 + Payload(s[1]) * 64 + Payload(s[2]), 3)
    else if 0xF0 <= b <= 0xF4 && |s| >= 4 && IsSecond(b, s[1])
            && IsContinuation(s[2]) && IsContinuation(s[3]) then
      Decoded((b - 0xF0) * 262144 + Payload(s[1]) * 4096 + Payload(s[2]) * 64 + Payload(s[3]), 4)
    else Decoded(REPLACEMENT, 1)
  }

  function EncodeAll(rs: seq<int>): bytes
    requires AllScalar(rs)
  {
    if rs == [] then [] else Encode(rs[0]) + EncodeAll(rs[1..])
  }

  function DecodeAll(s: bytes): (rs: seq<int>)
    ensures AllScalar(rs)
  {
    if s == [] then [] else [Decode(s).value] + DecodeAll(s[Decode(s).width..])
  }

  /** A byte string is well-formed when it is the encoding of some code points. */
  ghost predicate IsWellFormed(s: bytes) {
    exists rs :: AllScalar(rs) && s == EncodeAll(rs)
  }

  lemma DecodeOfEncode(r: int, rest: bytes)
    requires IsScalar(r)
    ensures Decode(Encode(r) + rest) == Decoded(r, |Encode(r)|)
  {
    SixBitGroups(r);
    if 0x80 <= r < 0x10000 {
      DecodeOfTwoOrThree(r, rest);
    } else if 0x10000 <= r {
      DecodeOfFour(r, rest);
    }
  }

  lemma DecodeOfTwoOrThree(r: int, rest: bytes)
    requires IsScalar(r) && 0x80 <= r < 0x10000
    ensures Decode(Encode(r) + rest) == Decoded(r, |Encode(r)|)
  {
    var s := Encode(r) + rest;
    SixBitGroups(r);
    if r < 0x800 {
      assert s[0] == 0xC0 + r / 64 && s[1] == 0x80 + r % 64;
    } else {
      assert s[0] == 0xE0 + r / 4096 && s[1] == 0x80 + r / 64 % 64 && s[2] == 0x80 + r % 64;
    }
  }

  lemma DecodeOfFour(r: int, rest: bytes)
    requires IsScalar(r) && 0x10000 <= r
    ensures Decode(Encode(r) + rest) == Decoded(r, |Encode(r)|)
  {
    var s := Encode(r) + rest;
    SixBitGroups(r);
    assert s[0] == 0xF0 + r / 262144 && s[1] == 0x80 + r / 4096 % 64
           && s[2] == 0x80 + r / 64 % 64 && s[3] == 0x80 + r % 64;
  }

  lemma SixBitGroups(r: int)
    requires 0 <= r
    ensures r == r / 64 * 64 + r % 64
    ensures r / 64 == r / 4096 * 64 + r / 64 % 64
    ensures r / 4096 == r / 262144 * 64 + r / 4096 % 64
  {
    assert r / 64 / 64 == r / 4096;
    assert r / 4096 / 64 == r / 262144;
  }

  /** Decoding undoes encoding. */
  lemma {:induction false} DecodeAllOfEncodeAll(rs: seq<int>)
    requires AllScalar(rs)
    ensures DecodeAll(EncodeAll(rs)) == rs
  {
    if rs != [] {
      var s := EncodeAll(rs);
      DecodeOfEncode(rs[0], EncodeAll(rs[1..]));
      assert s[|Encode(rs[0])|..] == EncodeAll(rs[1..]);
      DecodeAllOfEncodeAll(rs[1..]);
    }
  }

  lemma {:induction false} EncodeAllAppend(a: seq<int>, b: seq<int>)
    requires AllScalar(a) && AllScalar(b)
    ensures AllScalar(a + b) && EncodeAll(a + b) == EncodeAll(a) + EncodeAll(b)
  {
    hide Encode;
    if a == [] {
      assert a + b == b;
    } else {
      EncodeAllAppend(a[1..], b);
      assert (a + b)[0] == a[0] && (a + b)[1..] == a[1..] + b;
      assert EncodeAll(a + b) == Encode(a[0]) + (EncodeAll(a[1..]) + EncodeAll(b));
    }
  }

  lemma EncodeAllOne(r: int)
    requires IsScalar(r)
    ensures EncodeAll([r]) == Encode(r)
  {
    assert EncodeAll([r]) == Encode(r) + EncodeAll([]);
  }

  lemma EncodeAllSnoc(rs: seq<int>, r: int)
    requires AllScalar(rs) && IsScalar(r)
    ensures AllScalar(rs + [r]) && EncodeAll(rs + [r]) == EncodeAll(rs) + Encode(r)
  {
    hide Encode;
    EncodeAllAppend(rs, [r]);
    EncodeAllOne(r);
  }

  lemma {:induction false} EncodeAllLength(rs: seq<int>)
    requires AllScalar(rs)
    ensures |rs| <= |EncodeAll(rs)|
    ensures rs != [] ==> EncodeAll(rs) != [] && !IsContinuation(EncodeAll(rs)[0])
  {
    if rs != [] {
      EncodeAllLength(rs[1..]);
    }
  }

  /** An ASCII byte is part of no longer sequence, so what comes before it is decoded without it. */
  lemma DecodeBeforeAscii(a: bytes, rest: bytes)
    requires a != [] && rest != [] && rest[0] < 0x80
    ensures Decode(a + rest) == Decode(a)
  {
    var s := a + rest;
    assert forall i :: 0 <= i < |a| ==> s[i] == a[i];
    assert s[|a|] == rest[0];
  }

  lemma {:induction false} DecodeAllAroundAscii(a: bytes, x: byte, b: bytes)
    requires x < 0x80
    ensures DecodeAll(a + [x] + b) == DecodeAll(a) + [x] + DecodeAll(b)
  {
    hide Decode;
    var s := a + [x] + b;
    assert s == a + ([x] + b);
    if a == [] {
      assert s == [x] + b && s[1..] == b;
      AsciiDecodes(x, b);
    } else {
      DecodeBeforeAscii(a, [x] + b);
      var w := Decode(a).width;
      assert s[w..] == a[w..] + [x] + b;
      DecodeAllAroundAscii(a[w..], x, b);
    }
  }

  lemma AsciiDecodes(x: byte, b: bytes)
    requires x < 0x80
    ensures Decode([x] + b) == Decoded(x, 1)
  {
  }

  /** The examples of section 7 of RFC 3629: "A<NOT IDENTICAL TO><ALPHA>." and U+233B4. */
  lemma ExamplesOfTheStandard()
    ensures Encode(0x41) == [0x41] && Encode(0x2262) == [0xE2, 0x89, 0xA2]
    ensures Encode(0x0391) == [0xCE, 0x91] && Encode(0x233B4) == [0xF0, 0xA3, 0x8E, 0xB4]
  {
  }

  /** Byte strings in the order of their first difference. */
  predicate IsBefore(a: bytes, b: bytes) {
    b != [] && (a == [] || a[0] < b[0] || (a[0] == b[0] && IsBefore(a[1..], b[1..])))
  }

  /** Encodings are in the order of their code points (section 1 of RFC 3629). */
  lemma EncodingKeepsOrder(r: int, q: int)
    requires IsScalar(r) && IsScalar(q) && r < q
    ensures IsBefore(Encode(r), Encode(q))
  {
    FirstByte(r);
    FirstByte(q);
    if 0x80 <= r && q < 0x800 {
      TwoKeepOrder(r, q);
    } else if 0x800 <= r && q < 0x10000 {
      ThreeKeepOrder(r, q);
    } else if 0x10000 <= r {
      FourKeepOrder(r, q);
    }
  }

  /** The first byte tells the length. */
  lemma FirstByte(r: int)
    requires IsScalar(r)
    ensures var b := Encode(r)[0];
            && (r < 0x80 ==> b == r) && (0x80 <= r < 0x800 ==> 0xC0 <= b < 0xE0)
            && (0x800 <= r < 0x10000 ==> 0xE0 <= b < 0xF0) && (0x10000 <= r ==> 0xF0 <= b < 0xF8)
  {
    if 0x80 <= r < 0x800 {
      assert Encode(r)[0] == 0xC0 + r / 64;
    } else if 0x800 <= r < 0x10000 {
      assert Encode(r)[0] == 0xE0 + r / 4096;
    } else if 0x10000 <= r {
      assert Encode(r)[0] == 0xF0 + r / 262144;
    }
  }

  lemma TwoKeepOrder(r: int, q: int)
    requires 0x80 <= r < q < 0x800
    ensures IsBefore(Encode(r), Encode(q))
  {
    assert Encode(r)[1..] == [0x80 + r % 64] && Encode(q)[1..] == [0x80 + q % 64];
  }

  lemma ThreeKeepOrder(r: int, q: int)
    requires 0x800 <= r < q < 0x10000 && IsScalar(r) && IsScalar(q)
    ensures IsBefore(Encode(r), Encode(q))
  {
    SixBitGroups(r);
    SixBitGroups(q);
    var a: bytes, b: bytes := [0x80 + r / 64 % 64, 0x80 + r % 64], [0x80 + q / 64 % 64, 0x80 + q % 64];
    assert Encode(r)[0] == 0xE0 + r / 4096 && Encode(q)[0] == 0xE0 + q / 4096;
    assert Encode(r)[1..] == a && Encode(q)[1..] == b;
    assert a[1..] == [0x80 + r % 64] && b[1..] == [0x80 + q % 64];
    assert r / 4096 == q / 4096 ==> IsBefore(a, b);
  }

  lemma FourKeepOrder(r: int, q: int)
    requires 0x10000 <= r < q < 0x110000
    ensures IsBefore(Encode(r), Encode(q))
  {
    SixBitGroups(r);
    SixBitGroups(q);
    var a: bytes, b: bytes := [0x80 + r / 4096 % 64, 0x80 + r / 64 % 64, 0x80 + r % 64],
                              [0x80 + q / 4096 % 64, 0x80 + q / 64 % 64, 0x80 + q % 64];
    assert Encode(r)[0] == 0xF0 + r / 262144 && Encode(q)[0] == 0xF0 + q / 262144;
    assert Encode(r)[1..] == a && Encode(q)[1..] == b;
    var c: bytes, d: bytes := [0x80 + r / 64 % 64, 0x80 + r % 64], [0x80 + q / 64 % 64, 0x80 + q % 64];
    assert a[1..] == c && b[1..] == d;
    assert c[1..] == [0x80 + r % 64] && d[1..] == [0x80 + q % 64];
    assert r / 4096 == q / 4096 ==> IsBefore(c, d);
    assert r / 262144 == q / 262144 ==> IsBefore(a, b);
  }
}
