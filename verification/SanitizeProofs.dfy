/** What sanitizing promises: safe well-formed output, and a fixpoint the echo guard relies on. */
module SanitizeProofs {
  import opened Bytes
  import opened Utf8
  import opened Sanitize
  import opened Unicode

  // ----- the byte pipeline is the code point pipeline -----

  /** No space follows a space; `wasSpace` tells what came before `rs`. */
  predicate SingleSpaced(rs: seq<int>, wasSpace: bool) {
    rs != [] ==> !(wasSpace && rs[0] == 0x20) && SingleSpaced(rs[1..], rs[0] == 0x20)
  }

  lemma {:induction false} SingleSpacedIsKept(rs: seq<int>, wasSpace: bool)
    requires SingleSpaced(rs, wasSpace)
    ensures Collapse(rs, wasSpace) == rs
  {
    if rs != [] {
      SingleSpacedIsKept(rs[1..], rs[0] == 0x20);
    }
  }

  lemma {:induction false} NoDoubleSpaceBytes(rs: seq<int>, wasSpace: bool)
    requires AllScalar(rs) && !HasDoubleSpace(EncodeAll(rs))
    requires wasSpace ==> rs == [] || rs[0] != 0x20
    ensures SingleSpaced(rs, wasSpace)
  {
    if rs != [] {
      var s, rest := EncodeAll(rs), EncodeAll(rs[1..]);
      var n := |Encode(rs[0])|;
      forall i | 0 <= i < |rest| - 1 ensures !(rest[i] == 0x20 && rest[i + 1] == 0x20) {
        assert s[n + i] == rest[i] && s[n + i + 1] == rest[i + 1];
      }
      assert |rs| > 1 ==> s[n] == rest[0] == EncodeAll(rs[1..])[0];
      assert |rs| > 1 && rs[1] == 0x20 ==> rest[0] == 0x20;
      assert rs[0] == 0x20 ==> n == 1 && s[0] == 0x20;
      NoDoubleSpaceBytes(rs[1..], rs[0] == 0x20);
    }
  }

  lemma CollapsedBytesOnRunes(rs: seq<int>)
    requires AllScalar(rs)
    ensures CollapsedBytes(EncodeAll(rs)) == EncodeAll(Collapse(rs, false))
  {
    DecodeAllOfEncodeAll(rs);
    if !HasDoubleSpace(EncodeAll(rs)) {
      NoDoubleSpaceBytes(rs, false);
      SingleSpacedIsKept(rs, false);
    }
  }

  lemma LineOnRunes(isPrint: Table, s: bytes, max: int)
    ensures TelnetLineOf(isPrint, s, max)
            == Truncated(EncodeAll(Tidy(isPrint, DecodeAll(s))), max)
  {
    var rs := Filter(isPrint, DecodeAll(s));
    CollapsedBytesOnRunes(rs);
    DecodeAllOfEncodeAll(Collapse(rs, false));
  }

  // ----- the shape of a tidied line -----

  ghost predicate AllKept(isPrint: Table, rs: seq<int>) {
    forall i :: 0 <= i < |rs| ==> Kept(isPrint, rs[i])
  }

  /** A line as truncation may leave it: clean but for one possible trailing space. */
  ghost predicate AlmostClean(isPrint: Table, rs: seq<int>) {
    AllKept(isPrint, rs) && SingleSpaced(rs, false) && (rs != [] ==> rs[0] != 0x20)
  }

  ghost predicate EndsWithSpace(rs: seq<int>) {
    rs != [] && rs[|rs| - 1] == 0x20
  }

  lemma {:induction false} FilterKeeps(isPrint: Table, rs: seq<int>)
    ensures AllKept(isPrint, Filter(isPrint, rs))
    ensures AllKept(isPrint, rs) ==> Filter(isPrint, rs) == rs
  {
    if rs != [] {
      FilterKeeps(isPrint, rs[1..]);
    }
  }

  lemma {:induction false} CollapseIsSingleSpaced(isPrint: Table, rs: seq<int>, wasSpace: bool)
    ensures SingleSpaced(Collapse(rs, wasSpace), wasSpace)
    ensures AllKept(isPrint, rs) ==> AllKept(isPrint, Collapse(rs, wasSpace))
  {
    if rs != [] {
      if rs[0] == 0x20 && wasSpace {
        CollapseIsSingleSpaced(isPrint, rs[1..], true);
      } else {
        CollapseIsSingleSpaced(isPrint, rs[1..], rs[0] == 0x20);
        assert Collapse(rs, wasSpace)[1..] == Collapse(rs[1..], rs[0] == 0x20);
      }
    }
  }

  lemma {:induction false} PrefixIsSingleSpaced(rs: seq<int>, wasSpace: bool, k: nat)
    requires SingleSpaced(rs, wasSpace) && k <= |rs|
    ensures SingleSpaced(rs[..k], wasSpace)
  {
    if k > 0 {
      PrefixIsSingleSpaced(rs[1..], rs[0] == 0x20, k - 1);
      assert rs[..k][1..] == rs[1..][..k - 1];
    }
  }

  lemma {:induction false} NoNeighbourSpaces(rs: seq<int>, wasSpace: bool, i: nat)
    requires SingleSpaced(rs, wasSpace) && i + 1 < |rs|
    ensures !(rs[i] == 0x20 && rs[i + 1] == 0x20)
  {
    if i > 0 {
      NoNeighbourSpaces(rs[1..], rs[0] == 0x20, i - 1);
    }
  }

  lemma {:induction false} TrimLeftIsClean(isPrint: Table, rs: seq<int>, wasSpace: bool)
    requires IsPrintTable(isPrint) && AllKept(isPrint, rs) && SingleSpaced(rs, wasSpace)
    ensures AlmostClean(isPrint, TrimLeft(rs))
    ensures rs != [] && rs[0] != 0x20 ==> TrimLeft(rs) == rs
  {
    if rs != [] && IsSpace(rs[0]) {
      TrimLeftIsClean(isPrint, rs[1..], rs[0] == 0x20);
    } else if rs != [] {
    }
  }

  /** Trimming the right end of an almost clean line drops its one trailing space. */
  lemma TrimRightOfAlmostClean(isPrint: Table, rs: seq<int>)
    requires IsPrintTable(isPrint) && AlmostClean(isPrint, rs)
    ensures TrimRight(rs) == if EndsWithSpace(rs) then rs[..|rs| - 1] else rs
    ensures AlmostClean(isPrint, TrimRight(rs)) && !EndsWithSpace(TrimRight(rs))
  {
    if EndsWithSpace(rs) {
      var cut := rs[..|rs| - 1];
      PrefixIsSingleSpaced(rs, false, |cut|);
      assert cut != [];
      NoNeighbourSpaces(rs, false, |rs| - 2);
      assert Kept(isPrint, rs[|rs| - 2]) && !IsSpace(cut[|cut| - 1]);
      assert TrimRight(cut) == cut;
    } else if rs != [] {
      assert Kept(isPrint, rs[|rs| - 1]);
    }
  }

  lemma TidyIsClean(isPrint: Table, rs: seq<int>)
    requires IsPrintTable(isPrint)
    ensures AlmostClean(isPrint, Tidy(isPrint, rs)) && !EndsWithSpace(Tidy(isPrint, rs))
  {
    var f := Filter(isPrint, rs);
    FilterKeeps(isPrint, rs);
    CollapseIsSingleSpaced(isPrint, f, false);
    TrimLeftIsClean(isPrint, Collapse(f, false), false);
    TrimRightOfAlmostClean(isPrint, TrimLeft(Collapse(f, false)));
  }

  lemma TidyOfAlmostClean(isPrint: Table, rs: seq<int>)
    requires IsPrintTable(isPrint) && AlmostClean(isPrint, rs)
    ensures Tidy(isPrint, rs) == if EndsWithSpace(rs) then rs[..|rs| - 1] else rs
  {
    FilterKeeps(isPrint, rs);
    SingleSpacedIsKept(rs, false);
    TrimLeftIsClean(isPrint, rs, false);
    TrimRightOfAlmostClean(isPrint, rs);
  }

  /** One pass yields the encoding of an almost clean line that fits the limit. */
  lemma PassIsAlmostClean(isPrint: Table, s: bytes, max: int) returns (rs: seq<int>)
    requires IsPrintTable(isPrint)
    ensures AllScalar(rs) && TelnetLineOf(isPrint, s, max) == EncodeAll(rs)
    ensures AlmostClean(isPrint, rs)
    ensures max > 0 ==> |EncodeAll(rs)| <= max
    ensures max <= 0 ==> !EndsWithSpace(rs)
  {
    var whole := Tidy(isPrint, DecodeAll(s));
    LineOnRunes(isPrint, s, max);
    TidyIsClean(isPrint, DecodeAll(s));
    if max <= 0 {
      rs := whole;
    } else {
      var k := TruncationKeepsWholeRunes(whole, max);
      rs := whole[..k];
      PrefixIsSingleSpaced(whole, false, k);
    }
  }

  lemma {:induction false} EncodedLengthOfPrefix(rs: seq<int>, k: nat)
    requires AllScalar(rs) && k <= |rs|
    ensures |EncodeAll(rs[..k])| <= |EncodeAll(rs)|
    ensures k < |rs| ==> EncodeAll(rs[..k]) != EncodeAll(rs)
  {
    EncodeAllAppend(rs[..k], rs[k..]);
    EncodeAllLength(rs[k..]);
    assert rs[..k] + rs[k..] == rs;
  }

  /** A further pass over an almost clean line drops its trailing space and nothing else. */
  lemma NextPass(isPrint: Table, rs: seq<int>, max: int)
    requires IsPrintTable(isPrint) && AllScalar(rs) && AlmostClean(isPrint, rs)
    requires max > 0 ==> |EncodeAll(rs)| <= max
    ensures var cut := if EndsWithSpace(rs) then rs[..|rs| - 1] else rs;
            TelnetLineOf(isPrint, EncodeAll(rs), max) == EncodeAll(cut)
  {
    var cut := if EndsWithSpace(rs) then rs[..|rs| - 1] else rs;
    LineOnRunes(isPrint, EncodeAll(rs), max);
    DecodeAllOfEncodeAll(rs);
    TidyOfAlmostClean(isPrint, rs);
    assert cut == rs[..|cut|];
    EncodedLengthOfPrefix(rs, |cut|);
    assert Truncated(EncodeAll(cut), max) == EncodeAll(cut);
  }

  // ----- the promises -----

  lemma LastByteIsSpace(rs: seq<int>)
    requires AllScalar(rs) && rs != []
    ensures EncodeAll(rs) != []
    ensures EndsWithSpace(rs) <==> EncodeAll(rs)[|EncodeAll(rs)| - 1] == 0x20
  {
    var last := rs[|rs| - 1];
    assert rs == rs[..|rs| - 1] + [last];
    EncodeAllSnoc(rs[..|rs| - 1], last);
    var e := Encode(last);
    assert EncodeAll(rs)[|EncodeAll(rs)| - 1] == e[|e| - 1];
  }

  /** Any byte string, well-formed or not, becomes well-formed UTF-8 within the limit holding no
      control character, no replacement character and nothing unprintable. */
  lemma LineIsSafe(isPrint: Table, s: bytes, max: int)
    requires IsPrintTable(isPrint)
    ensures IsWellFormed(TelnetLineOf(isPrint, s, max))
    ensures max > 0 ==> |TelnetLineOf(isPrint, s, max)| <= max
    ensures AllKept(isPrint, DecodeAll(TelnetLineOf(isPrint, s, max)))
    ensures forall r :: r in DecodeAll(TelnetLineOf(isPrint, s, max)) ==>
              r == 0x20 || (isPrint(r) && 0x20 < r && !(0x7F <= r < 0xA0) && r != 0xFFFD)
  {
    var rs := PassIsAlmostClean(isPrint, s, max);
    DecodeAllOfEncodeAll(rs);
    forall r | r in rs ensures r == 0x20 || (isPrint(r) && 0x20 < r && !(0x7F <= r < 0xA0) && r != 0xFFFD) {
      assert Kept(isPrint, r);
    }
  }

  // ----- nothing else is lost -----

  /** The printable code points that are no white space, in order. */
  function Visible(isPrint: Table, rs: seq<int>): seq<int> {
    if rs == [] then []
    else
      (if isPrint(rs[0]) && rs[0] != 0x20 && rs[0] != 0xFFFD then [rs[0]] else []) + Visible(isPrint, rs[1..])
  }

  lemma {:induction false} VisibleAppend(isPrint: Table, a: seq<int>, b: seq<int>)
    ensures Visible(isPrint, a + b) == Visible(isPrint, a) + Visible(isPrint, b)
  {
    if a == [] {
      assert a + b == b;
    } else {
      assert (a + b)[1..] == a[1..] + b;
      VisibleAppend(isPrint, a[1..], b);
    }
  }

  lemma VisibleOne(isPrint: Table, r: int)
    ensures Visible(isPrint, [r]) == if isPrint(r) && r != 0x20 && r != 0xFFFD then [r] else []
  {
    assert [r][1..] == [];
  }

  lemma {:induction false} VisibleOfFilter(isPrint: Table, rs: seq<int>)
    requires IsPrintTable(isPrint)
    ensures Visible(isPrint, Filter(isPrint, rs)) == Visible(isPrint, rs)
  {
    if rs != [] {
      var one := FilterOne(isPrint, rs[0]);
      VisibleOfFilter(isPrint, rs[1..]);
      VisibleAppend(isPrint, one, Filter(isPrint, rs[1..]));
      VisibleOne(isPrint, rs[0]);
      VisibleOne(isPrint, 0x20);
    }
  }

  lemma {:induction false} VisibleOfCollapse(isPrint: Table, rs: seq<int>, wasSpace: bool)
    ensures Visible(isPrint, Collapse(rs, wasSpace)) == Visible(isPrint, rs)
  {
    if rs != [] {
      VisibleOfCollapse(isPrint, rs[1..], rs[0] == 0x20);
      if !(rs[0] == 0x20 && wasSpace) {
        assert Collapse(rs, wasSpace)[1..] == Collapse(rs[1..], rs[0] == 0x20);
      }
    }
  }

  lemma {:induction false} VisibleOfTrimLeft(isPrint: Table, rs: seq<int>)
    requires IsPrintTable(isPrint)
    ensures Visible(isPrint, TrimLeft(rs)) == Visible(isPrint, rs)
  {
    if rs != [] && IsSpace(rs[0]) {
      VisibleOfTrimLeft(isPrint, rs[1..]);
      assert !(isPrint(rs[0]) && rs[0] != 0x20);
    }
  }

  lemma {:induction false} VisibleOfTrimRight(isPrint: Table, rs: seq<int>)
    requires IsPrintTable(isPrint)
    ensures Visible(isPrint, TrimRight(rs)) == Visible(isPrint, rs)
  {
    if rs != [] && IsSpace(rs[|rs| - 1]) {
      var n := |rs| - 1;
      VisibleOfTrimRight(isPrint, rs[..n]);
      assert rs == rs[..n] + [rs[n]];
      VisibleAppend(isPrint, rs[..n], [rs[n]]);
      VisibleOne(isPrint, rs[n]);
      assert !(isPrint(rs[n]) && rs[n] != 0x20);
    }
  }

  /** Without a limit a sanitized line shows what its input showed: every printable character that
      is no white space stays, in order. With one it is cut after that. */
  lemma NothingVisibleIsLost(isPrint: Table, s: bytes, max: int)
    requires IsPrintTable(isPrint)
    ensures var whole := TelnetLineOf(isPrint, s, 0);
            && Visible(isPrint, DecodeAll(whole)) == Visible(isPrint, DecodeAll(s))
            && TelnetLineOf(isPrint, s, max) == Truncated(whole, max)
  {
    hide DecodeAll, EncodeAll, Filter, Collapse, TrimLeft, TrimRight;
    var rs := DecodeAll(s);
    LineOnRunes(isPrint, s, max);
    LineOnRunes(isPrint, s, 0);
    DecodeAllOfEncodeAll(Tidy(isPrint, rs));
    VisibleOfFilter(isPrint, rs);
    VisibleOfCollapse(isPrint, Filter(isPrint, rs), false);
    VisibleOfTrimLeft(isPrint, Collapse(Filter(isPrint, rs), false));
    VisibleOfTrimRight(isPrint, TrimLeft(Collapse(Filter(isPrint, rs), false)));
  }

  lemma {:induction false} KeptBytes(isPrint: Table, rs: seq<int>, i: nat)
    requires AllScalar(rs) && AllKept(isPrint, rs) && i < |EncodeAll(rs)|
    ensures EncodeAll(rs)[i] >= 0x20
  {
    var e := Encode(rs[0]);
    assert Kept(isPrint, rs[0]);
    if i >= |e| {
      KeptBytes(isPrint, rs[1..], i - |e|);
    }
  }

  lemma MessageIsSafeTelnetLine(isPrint: Table, s: bytes)
    requires IsPrintTable(isPrint)
    ensures IsSafeTelnetLine(MessageOf(isPrint, s)) && |MessageOf(isPrint, s)| <= 1000
  {
    var out := MessageOf(isPrint, s);
    var rs := PassIsAlmostClean(isPrint, s, MAX_MESSAGE_LEN);
    forall i | 0 <= i < |out| ensures out[i] >= 0x20 {
      KeptBytes(isPrint, rs, i);
    }
  }

  /** One pass is a fixpoint exactly when truncation left no trailing space. */
  lemma {:induction false} OnePassFallsShortExactly(isPrint: Table, s: bytes, max: int)
    requires IsPrintTable(isPrint)
    ensures var once := TelnetLineOf(isPrint, s, max);
            TelnetLineOf(isPrint, once, max) == once
            <==> !(once != [] && once[|once| - 1] == 0x20)
  {
    var rs := PassIsAlmostClean(isPrint, s, max);
    NextPass(isPrint, rs, max);
    if rs != [] {
      LastByteIsSpace(rs);
      EncodedLengthOfPrefix(rs, |rs| - 1);
    }
  }

  /** Two passes always reach the fixpoint. */
  lemma TwoPassesSuffice(isPrint: Table, s: bytes, max: int)
    requires IsPrintTable(isPrint)
    ensures var twice := TelnetLineOf(isPrint, TelnetLineOf(isPrint, s, max), max);
            TelnetLineOf(isPrint, twice, max) == twice
  {
    hide TelnetLineOf, EncodeAll;
    var rs := PassIsAlmostClean(isPrint, s, max);
    NextPass(isPrint, rs, max);
    if EndsWithSpace(rs) {
      var cut := rs[..|rs| - 1];
      TrimRightOfAlmostClean(isPrint, rs);
      EncodedLengthOfPrefix(rs, |cut|);
      NextPass(isPrint, cut, max);
    }
  }

  lemma {:induction false} NameBytesDecode(s: bytes)
    requires forall i :: 0 <= i < |s| ==> IsNameRune(s[i])
    ensures NameRunes(DecodeAll(s)) == s
  {
    if s != [] {
      NameBytesDecode(s[1..]);
    }
  }

  /** Names need one pass, hold only name characters and fit their limit. */
  lemma NameOnePassSuffices(s: bytes)
    ensures NameOf(NameOf(s)) == NameOf(s)
    ensures |NameOf(s)| <= 64
    ensures forall i :: 0 <= i < |NameOf(s)| ==> IsNameRune(NameOf(s)[i])
  {
    NameBytesDecode(NameOf(s));
  }

  /** Up to the limit of 64, a text of name characters stays as it is. */
  lemma PureNameIsKept(s: bytes)
    requires |s| <= 64 && forall i :: 0 <= i < |s| ==> IsNameRune(s[i])
    ensures NameOf(s) == s
  {
    NameBytesDecode(s);
  }

  /** The characters of a name: ASCII letters and digits, and _ - . ' */
  lemma NameCharacters(b: byte)
    requires b < 0x80
    ensures NameOf([b]) == if 'a' as int <= b <= 'z' as int || 'A' as int <= b <= 'Z' as int
                              || '0' as int <= b <= '9' as int || b == '_' as int || b == '-' as int
                              || b == '.' as int || b == '\'' as int
                           then [b] else []
  {
    AsciiEncodesAsItself([b]);
    hide DecodeAll;
    var rs: seq<int> := [b];
    assert rs[1..] == [] && NameRunes([]) == [];
    assert NameRunes(rs) == (if IsNameRune(b) then [b] else []) + NameRunes([]);
  }

  lemma {:induction false} AsciiEncodesAsItself(rs: bytes)
    requires forall i :: 0 <= i < |rs| ==> rs[i] < 0x80
    ensures AllScalar(rs) && EncodeAll(rs) == rs && DecodeAll(rs) == rs
  {
    if rs != [] {
      AsciiEncodesAsItself(rs[1..]);
    }
  }

  /** A concrete line one pass does not settle: at limit 2, "a b" becomes "a " and then "a". */
  lemma OnePassCanFallShort(isPrint: Table)
    requires IsPrintTable(isPrint) && isPrint(0x61) && isPrint(0x62)
    ensures TelnetLineOf(isPrint, [0x61, 0x20, 0x62], 2) == [0x61, 0x20]
    ensures TelnetLineOf(isPrint, [0x61, 0x20], 2) == [0x61]
  {
    hide TelnetLineOf, Tidy, EncodeAll, DecodeAll;
    var line: bytes, cut: bytes := [0x61, 0x20, 0x62], [0x61, 0x20];
    assert line[1..] == [0x20, 0x62] && [0x20, 0x62][1..] == [0x62] && cut[1..] == [0x20];
    AsciiEncodesAsItself(line);
    LineOnRunes(isPrint, line, 2);
    TidyOfAlmostClean(isPrint, line);
    assert Truncated(line, 2) == cut;
    AsciiEncodesAsItself(cut);
    AsciiEncodesAsItself([0x61]);
    assert cut[..1] == [0x61];
    NextPass(isPrint, cut, 2);
  }

  // ----- the echo key -----

  /** A line's identity on the agent: its name and its message with a zero byte between. */
  function EchoKey(name: bytes, message: bytes): bytes {
    name + [0] + message
  }

  /** Sanitized names hold no zero byte, so the key determines both parts. */
  lemma EchoKeyIsInjective(n1: bytes, m1: bytes, n2: bytes, m2: bytes)
    requires EchoKey(NameOf(n1), m1) == EchoKey(NameOf(n2), m2)
    ensures NameOf(n1) == NameOf(n2) && m1 == m2
  {
    NameOnePassSuffices(n1);
    NameOnePassSuffices(n2);
    var a, b := NameOf(n1), NameOf(n2);
    var key := EchoKey(a, m1);
    assert key[|a|] == 0 && EchoKey(b, m2)[|b|] == 0;
    assert forall i :: 0 <= i < |a| ==> key[i] == a[i];
    assert forall i :: 0 <= i < |b| ==> key[i] == b[i];
    assert key[..|a|] == a && key[..|b|] == b;
    assert key[|a| + 1..] == m1 && key[|b| + 1..] == m2;
  }

  /** After the hub's pass and the agent's pass, a third pass leaves the key as it is. */
  lemma SettledKeyStays(isPrint: Table, name: bytes, message: bytes)
    requires IsPrintTable(isPrint)
    ensures var n, m := NameOf(NameOf(name)), MessageOf(isPrint, MessageOf(isPrint, message));
            EchoKey(NameOf(n), MessageOf(isPrint, m)) == EchoKey(n, m)
  {
    NameOnePassSuffices(name);
    TwoPassesSuffice(isPrint, message, MAX_MESSAGE_LEN);
  }

  /** A line break counts as a space, wherever it stands and whatever is around it. */
  lemma LineBreakIsASpace(isPrint: Table, a: bytes, b: bytes, max: int)
    ensures TelnetLineOf(isPrint, a + [0x0A] + b, max) == TelnetLineOf(isPrint, a + [0x20] + b, max)
    ensures TelnetLineOf(isPrint, a + [0x0D] + b, max) == TelnetLineOf(isPrint, a + [0x20] + b, max)
  {
    hide EncodeAll, DecodeAll, CollapsedBytes, TrimmedBytes, Truncated;
    FilterAround(isPrint, a, 0x0A, b);
    FilterAround(isPrint, a, 0x0D, b);
    FilterAround(isPrint, a, 0x20, b);
  }

  lemma FilterAround(isPrint: Table, a: bytes, x: byte, b: bytes)
    requires x < 0x80
    ensures Filter(isPrint, DecodeAll(a + [x] + b))
            == Filter(isPrint, DecodeAll(a)) + FilterOne(isPrint, x) + Filter(isPrint, DecodeAll(b))
  {
    hide DecodeAll, FilterOne;
    DecodeAllAroundAscii(a, x, b);
    FilterAppend(isPrint, DecodeAll(a) + [x as int], DecodeAll(b));
    FilterAppend(isPrint, DecodeAll(a), [x as int]);
    FilterSingle(isPrint, x);
  }

  lemma FilterSingle(isPrint: Table, r: int)
    ensures Filter(isPrint, [r]) == FilterOne(isPrint, r)
  {
    assert [r][1..] == [] && Filter(isPrint, []) == [];
  }

  lemma PartedIsSingleSpaced(x: int, y: int)
    requires x != 0x20 && y != 0x20
    ensures SingleSpaced([x, 0x20, y], false)
  {
    var s := [x, 0x20, y];
    assert SingleSpaced([], false);
    assert [y][1..] == [] && SingleSpaced([y], true);
    assert [0x20, y][1..] == [y] && SingleSpaced([0x20, y], false);
    assert s[1..] == [0x20, y];
  }

  /** Between two printed characters it stays one. */
  lemma LineBreakParts(isPrint: Table, x: byte, y: byte)
    requires IsPrintTable(isPrint) && 0x21 <= x < 0x7F && 0x21 <= y < 0x7F && isPrint(x) && isPrint(y)
    ensures TelnetLineOf(isPrint, [x, 0x0A, y], 0) == [x, 0x20, y]
  {
    hide TelnetLineOf, EncodeAll, DecodeAll, SingleSpaced;
    var s: bytes := [x, 0x20, y];
    assert [x] + [0x0A] + [y] == [x, 0x0A, y] && [x] + [0x20] + [y] == s;
    LineBreakIsASpace(isPrint, [x], [y], 0);
    AsciiEncodesAsItself(s);
    PartedIsSingleSpaced(x, y);
    NextPass(isPrint, s, 0);
  }
}
