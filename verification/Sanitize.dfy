/** Hardening of untrusted text before it reaches a telnet command line
    (sanitize/sanitize.go). */
module Sanitize {
  import opened Bytes
  import opened Utf8
  import opened Unicode

  const MAX_NAME_LEN: int := 64
  const MAX_MESSAGE_LEN: int := 1000

  /** The table of printable code points is a parameter: all that is used of it is that a
      printable code point is no control character, and that the only printable white space is
      the ASCII space. */
  type Table = int -> bool

  predicate IsControl(r: int) {
    0 <= r < 0x20 || 0x7F <= r < 0xA0
  }

  ghost predicate IsPrintTable(isPrint: Table) {
    forall r {:trigger isPrint(r)} :: isPrint(r) ==> !IsControl(r) && (IsSpace(r) ==> r == 0x20)
  }

  // ----- the specification, on code points -----

  /** A code point the filter writes as it is. */
  predicate Kept(isPrint: Table, r: int) {
    r != REPLACEMENT && !IsControl(r) && (isPrint(r) || r == 0x20)
  }

  function FilterOne(isPrint: Table, r: int): seq<int> {
    if r == 0x0A || r == 0x0D then [0x20]
    else if r == 0x12 || r == REPLACEMENT || IsControl(r) || (!isPrint(r) && r != 0x20) then []
    else [r]
  }

  function Filter(isPrint: Table, rs: seq<int>): (out: seq<int>)
    ensures AllScalar(rs) ==> AllScalar(out)
  {
    if rs == [] then [] else FilterOne(isPrint, rs[0]) + Filter(isPrint, rs[1..])
  }

  /** Drops every space that follows a space; `wasSpace` tells what came before `rs`. */
  function Collapse(rs: seq<int>, wasSpace: bool): (out: seq<int>)
    ensures AllScalar(rs) ==> AllScalar(out)
  {
    if rs == [] then []
    else if rs[0] == 0x20 && wasSpace then Collapse(rs[1..], true)
    else [rs[0]] + Collapse(rs[1..], rs[0] == 0x20)
  }

  function TrimLeft(rs: seq<int>): (out: seq<int>)
    ensures AllScalar(rs) ==> AllScalar(out)
  {
    if rs != [] && IsSpace(rs[0]) then TrimLeft(rs[1..]) else rs
  }

  function TrimRight(rs: seq<int>): (out: seq<int>)
    ensures AllScalar(rs) ==> AllScalar(out)
  {
    if rs != [] && IsSpace(rs[|rs| - 1]) then TrimRight(rs[..|rs| - 1]) else rs
  }

  function Tidy(isPrint: Table, rs: seq<int>): (out: seq<int>)
    ensures AllScalar(rs) ==> AllScalar(out)
  {
    TrimRight(TrimLeft(Collapse(Filter(isPrint, rs), false)))
  }

  predicate HasDoubleSpace(s: bytes) {
    exists i :: 0 <= i < |s| - 1 && s[i] == 0x20 && s[i + 1] == 0x20
  }

  function CollapsedBytes(s: bytes): bytes {
    if HasDoubleSpace(s) then EncodeAll(Collapse(DecodeAll(s), false)) else s
  }

  /** `strings.TrimSpace` on well-formed text. */
  function TrimmedBytes(s: bytes): bytes {
    EncodeAll(TrimRight(TrimLeft(DecodeAll(s))))
  }

  /** The last position at or before `k` that starts a rune. */
  function RuneStartBefore(s: bytes, k: nat): (j: nat)
    requires k < |s|
    ensures j <= k
    ensures forall i :: j < i <= k ==> IsContinuation(s[i])
    ensures j == 0 || !IsContinuation(s[j])
  {
    if k > 0 && IsContinuation(s[k]) then RuneStartBefore(s, k - 1) else k
  }

  function Truncated(s: bytes, max: int): bytes {
    if max <= 0 || |s| <= max then s else s[..RuneStartBefore(s, max)]
  }

  function TelnetLineOf(isPrint: Table, s: bytes, max: int): bytes {
    Truncated(TrimmedBytes(CollapsedBytes(EncodeAll(Filter(isPrint, DecodeAll(s))))), max)
  }

  function MessageOf(isPrint: Table, s: bytes): bytes {
    TelnetLineOf(isPrint, s, MAX_MESSAGE_LEN)
  }

  predicate IsNameRune(r: int) {
    || 0x61 <= r <= 0x7A || 0x41 <= r <= 0x5A || 0x30 <= r <= 0x39
    || r == 0x5F || r == 0x2D || r == 0x2E || r == 0x27
  }

  function NameRunes(rs: seq<int>): (out: bytes)
    ensures forall i :: 0 <= i < |out| ==> IsNameRune(out[i])
  {
    if rs == [] then []
    else (if IsNameRune(rs[0]) then [rs[0]] else []) + NameRunes(rs[1..])
  }

  function NameOf(s: bytes): bytes {
    Truncated(NameRunes(DecodeAll(s)), MAX_NAME_LEN)
  }

  predicate IsSafeTelnetLine(s: bytes) {
    0x0D !in s && 0x0A !in s && 0 !in s && |s| <= 8192
  }

  // ----- the algorithms -----

  method CollapseSpaces(s: bytes) returns (out: bytes)
    ensures out == CollapsedBytes(s)
  {
    if !HasDoubleSpace(s) {
      return s;
    }
    out := [];
    var wasSpace, rs := false, DecodeAll(s);
    for i := 0 to |rs|
      invariant wasSpace == (i > 0 && rs[i - 1] == 0x20)
      invariant out == EncodeAll(Collapse(rs[..i], false))
    {
      EncodedCollapseStep(rs, i);
      if rs[i] == 0x20 {
        if wasSpace {
          continue;
        }
        wasSpace := true;
      } else {
        wasSpace := false;
      }
      out := out + Encode(rs[i]);
    }
    assert rs[..|rs|] == rs;
  }

  lemma {:induction false} CollapseSnoc(rs: seq<int>, wasSpace: bool, r: int)
    ensures var before := if rs == [] then wasSpace else rs[|rs| - 1] == 0x20;
            Collapse(rs + [r], wasSpace)
            == Collapse(rs, wasSpace) + if r == 0x20 && before then [] else [r]
  {
    if rs == [] {
      assert Collapse([r][1..], r == 0x20) == [];
    } else {
      assert (rs + [r])[1..] == rs[1..] + [r];
      CollapseSnoc(rs[1..], rs[0] == 0x20, r);
    }
  }

  lemma EncodedCollapseStep(rs: seq<int>, i: nat)
    requires AllScalar(rs) && i < |rs|
    ensures EncodeAll(Collapse(rs[..i + 1], false))
            == EncodeAll(Collapse(rs[..i], false))
               + if rs[i] == 0x20 && i > 0 && rs[i - 1] == 0x20 then [] else Encode(rs[i])
  {
    assert rs[..i + 1] == rs[..i] + [rs[i]];
    CollapseSnoc(rs[..i], false, rs[i]);
    var before := Collapse(rs[..i], false);
    EncodeAllSnoc(before, rs[i]);
    assert before + [] == before && EncodeAll(before) + [] == EncodeAll(before);
  }

  method Truncate(s: bytes, max: int) returns (out: bytes)
    ensures out == Truncated(s, max)
  {
    if max <= 0 || |s| <= max {
      return s;
    }
    var k := max;
    while k > 0 && IsContinuation(s[k])
      invariant 0 <= k <= max
      invariant RuneStartBefore(s, k) == RuneStartBefore(s, max)
    {
      k := k - 1;
    }
    return s[..k];
  }

  lemma {:induction false} FilterAppend(isPrint: Table, a: seq<int>, b: seq<int>)
    ensures Filter(isPrint, a + b) == Filter(isPrint, a) + Filter(isPrint, b)
  {
    if a == [] {
      assert a + b == b;
    } else {
      assert (a + b)[1..] == a[1..] + b;
      FilterAppend(isPrint, a[1..], b);
    }
  }

  lemma EncodedFilterStep(isPrint: Table, rs: seq<int>, i: nat)
    requires AllScalar(rs) && i < |rs|
    ensures EncodeAll(Filter(isPrint, rs[..i + 1]))
            == EncodeAll(Filter(isPrint, rs[..i]))
               + (if FilterOne(isPrint, rs[i]) == [] then []
                  else Encode(FilterOne(isPrint, rs[i])[0]))
  {
    var one := FilterOne(isPrint, rs[i]);
    assert rs[..i + 1] == rs[..i] + [rs[i]];
    FilterAppend(isPrint, rs[..i], [rs[i]]);
    assert Filter(isPrint, [rs[i]]) == one;
    EncodeAllAppend(Filter(isPrint, rs[..i]), one);
    if one != [] {
      EncodeAllOne(one[0]);
    }
  }

  method TelnetLine(isPrint: Table, s: bytes, max: int) returns (out: bytes)
    ensures out == TelnetLineOf(isPrint, s, max)
  {
    var b: bytes, rs := [], DecodeAll(s);
    for i := 0 to |rs|
      invariant b == EncodeAll(Filter(isPrint, rs[..i]))
    {
      var r := rs[i];
      EncodedFilterStep(isPrint, rs, i);
      if r == 0x0A || r == 0x0D {
        b := b + Encode(0x20);
      } else if r == 0x12 {
      } else if r == REPLACEMENT {
      } else if IsControl(r) {
      } else if !isPrint(r) && r != 0x20 {
      } else {
        b := b + Encode(r);
      }
    }
    assert rs[..|rs|] == rs;
    b := CollapseSpaces(b);
    out := Truncate(TrimmedBytes(b), max);
  }

  lemma {:induction false} NameRunesSnoc(rs: seq<int>, r: int)
    ensures NameRunes(rs + [r]) == NameRunes(rs) + if IsNameRune(r) then [r] else []
  {
    if rs == [] {
      assert NameRunes([r][1..]) == [];
    } else {
      assert (rs + [r])[1..] == rs[1..] + [r];
      NameRunesSnoc(rs[1..], r);
    }
  }

  method Name(s: bytes) returns (out: bytes)
    ensures out == NameOf(s)
  {
    var b: bytes, rs := [], DecodeAll(s);
    for i := 0 to |rs|
      invariant b == NameRunes(rs[..i])
    {
      NameRunesSnoc(rs[..i], rs[i]);
      assert rs[..i + 1] == rs[..i] + [rs[i]];
      if IsNameRune(rs[i]) {
        b := b + [rs[i]];
      }
    }
    assert rs[..|rs|] == rs;
    out := Truncate(b, MAX_NAME_LEN);
  }

  // ----- what truncation keeps -----

  /** Cutting well-formed text keeps the longest prefix of whole code points that fits. */
  lemma {:induction false} TruncationKeepsWholeRunes(rs: seq<int>, max: int) returns (k: nat)
    requires AllScalar(rs) && max > 0
    ensures k <= |rs| && Truncated(EncodeAll(rs), max) == EncodeAll(rs[..k])
    ensures |EncodeAll(rs[..k])| <= max
    ensures k < |rs| ==> |EncodeAll(rs[..k + 1])| > max
  {
    hide Encode, EncodeAll;
    if |EncodeAll(rs)| <= max {
      k := |rs|;
      assert rs[..k] == rs;
    } else {
      NothingToEncode();
      var e := Encode(rs[0]);
      if max <= |e| {
        k := if max < |e| then 0 else 1;
        FirstOfMany(rs, max);
      } else {
        EncodeAllFirst(rs);
        var j := TruncationKeepsWholeRunes(rs[1..], max - |e|);
        k := j + 1;
        MoreThanOneFits(rs, max, j);
      }
    }
  }

  lemma NothingToEncode()
    ensures EncodeAll([]) == []
  {
  }

  lemma EncodeAllFirst(rs: seq<int>)
    requires AllScalar(rs) && rs != []
    ensures EncodeAll(rs) == Encode(rs[0]) + EncodeAll(rs[1..])
  {
    hide Encode;
  }

  /** No more than the first code point fits. */
  lemma FirstOfMany(rs: seq<int>, max: int)
    requires AllScalar(rs) && |EncodeAll(rs)| > max > 0 && rs != [] && max <= |Encode(rs[0])|
    ensures var k := if max < |Encode(rs[0])| then 0 else 1;
            && k <= |rs| && Truncated(EncodeAll(rs), max) == EncodeAll(rs[..k])
            && |EncodeAll(rs[..k])| <= max && (k < |rs| ==> |EncodeAll(rs[..k + 1])| > max)
  {
    hide Encode, EncodeAll, Truncated;
    assert rs[..1] == [rs[0]] && rs[..0] == [];
    EncodeAllOne(rs[0]);
    EncodeAllFirst(rs);
    NothingToEncode();
    if max < |Encode(rs[0])| {
      FirstIsTooLong(rs[0], EncodeAll(rs[1..]), max);
    } else {
      EncodeAllLength(rs[1..]);
      NotEmpty(rs[0]);
      CutAfterFirst(Encode(rs[0]), EncodeAll(rs[1..]));
      if |rs| > 1 {
        EncodeAllLength(rs[1..2]);
        EncodePrefix(rs, 1);
        assert rs[1..][..1] == rs[1..2];
      }
    }
  }

  lemma FirstIsTooLong(r: int, rest: bytes, max: nat)
    requires IsScalar(r) && max < |Encode(r)| && 0 < max
    ensures Truncated(Encode(r) + rest, max) == []
  {
    BackToStart(Encode(r) + rest, max);
  }

  lemma {:induction false} BackToStart(s: bytes, k: nat)
    requires k < |s| && forall i :: 0 < i <= k ==> IsContinuation(s[i])
    ensures RuneStartBefore(s, k) == 0
  {
    if k > 0 {
      BackToStart(s, k - 1);
    }
  }

  /** After the first code point the rest is cut on its own. */
  lemma MoreThanOneFits(rs: seq<int>, max: int, j: nat)
    requires AllScalar(rs) && rs != [] && |EncodeAll(rs)| > max > |Encode(rs[0])| && j <= |rs| - 1
    requires Truncated(EncodeAll(rs[1..]), max - |Encode(rs[0])|) == EncodeAll(rs[1..][..j])
    requires |EncodeAll(rs[1..][..j])| <= max - |Encode(rs[0])|
    requires j < |rs| - 1 ==> |EncodeAll(rs[1..][..j + 1])| > max - |Encode(rs[0])|
    ensures Truncated(EncodeAll(rs), max) == EncodeAll(rs[..j + 1]) && |EncodeAll(rs[..j + 1])| <= max
    ensures j + 1 < |rs| ==> |EncodeAll(rs[..j + 2])| > max
  {
    hide Encode, EncodeAll, RuneStartBefore;
    var e, rest := Encode(rs[0]), EncodeAll(rs[1..]);
    EncodeAllFirst(rs);
    EncodeAllLength(rs[1..]);
    NothingToEncode();
    NotEmpty(rs[0]);
    CutInRest(e, rest, max - |e|);
    EncodePrefix(rs, j);
    if j + 1 < |rs| {
      EncodePrefix(rs, j + 1);
    }
  }

  lemma NotEmpty(r: int)
    requires IsScalar(r)
    ensures Encode(r) != []
  {
  }

  lemma CutAfterFirst(e: bytes, rest: bytes)
    requires e != [] && rest != [] && !IsContinuation(rest[0])
    ensures Truncated(e + rest, |e|) == e
  {
    assert (e + rest)[|e|] == rest[0];
  }

  lemma CutInRest(e: bytes, rest: bytes, max: nat)
    requires e != [] && 0 < max < |rest| && !IsContinuation(rest[0])
    ensures Truncated(e + rest, |e| + max) == e + Truncated(rest, max)
  {
    BackThroughPrefix(e, rest, max);
  }

  lemma EncodePrefix(rs: seq<int>, j: nat)
    requires AllScalar(rs) && j < |rs|
    ensures EncodeAll(rs[..j + 1]) == Encode(rs[0]) + EncodeAll(rs[1..][..j])
  {
    hide Encode;
    assert rs[..j + 1][1..] == rs[1..][..j];
  }

  lemma {:induction false} BackThroughPrefix(e: bytes, rest: bytes, k: nat)
    requires k < |rest| && e != [] && !IsContinuation(rest[0])
    ensures RuneStartBefore(e + rest, |e| + k) == |e| + RuneStartBefore(rest, k)
  {
    if k > 0 && IsContinuation(rest[k]) {
      BackThroughPrefix(e, rest, k - 1);
    }
  }
}
