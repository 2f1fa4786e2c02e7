/** What the telnet reader makes of a line before it is matched (telnet/telnet_msg.go), and what
    sanitizing can still do to it then. */
module TelnetText {
  import opened Bytes
  import opened Utf8
  import opened Sanitize
  import opened SanitizeProofs
  import opened Unicode

  /** "&PCT;", which stands for a percent sign on the console. */
  const ESCAPE: bytes := [0x26, 0x50, 0x43, 0x54, 0x3B]

  predicate StartsEscaped(s: bytes) {
    |s| >= 5 && s[..5] == ESCAPE
  }

  /** Every "&PCT;" replaced by "%", from left to right. */
  function Unescaped(s: bytes): bytes {
    if s == [] then []
    else if StartsEscaped(s) then [0x25] + Unescaped(s[5..])
    else [s[0]] + Unescaped(s[1..])
  }

  predicate HasEscape(s: bytes) {
    exists i :: 0 <= i < |s| && StartsEscaped(s[i..])
  }

  /** Replacing changes nothing without an escape and shortens the text with one. */
  lemma {:induction false} UnescapingShortensExactly(s: bytes)
    ensures |Unescaped(s)| <= |s|
    ensures HasEscape(s) ==> |Unescaped(s)| < |s|
    ensures !HasEscape(s) ==> Unescaped(s) == s
  {
    if s != [] {
      assert s[0..] == s;
      if StartsEscaped(s) {
        UnescapingShortensExactly(s[5..]);
      } else {
        UnescapingShortensExactly(s[1..]);
        forall i | 0 <= i < |s[1..]| ensures s[1..][i..] == s[i + 1..] {
        }
        if HasEscape(s) {
          var i :| 0 <= i < |s| && StartsEscaped(s[i..]);
          assert StartsEscaped(s[1..][i - 1..]);
        }
        if HasEscape(s[1..]) {
          var i :| 0 <= i < |s[1..]| && StartsEscaped(s[1..][i..]);
          assert StartsEscaped(s[i + 1..]);
        }
      }
    }
  }

  // ----- sanitizing never lengthens -----

  /** A decoded code point other than the replacement character encodes in the bytes it took. */
  lemma EncodedAsRead(s: bytes)
    requires s != [] && Decode(s).value != REPLACEMENT
    ensures |Encode(Decode(s).value)| == Decode(s).width
  {
  }

  lemma {:induction false} FilteringShortens(isPrint: Table, s: bytes)
    ensures |EncodeAll(Filter(isPrint, DecodeAll(s)))| <= |s|
  {
    if s != [] {
      var d := Decode(s);
      var rest := DecodeAll(s[d.width..]);
      var one := FilterOne(isPrint, d.value);
      FilteringShortens(isPrint, s[d.width..]);
      assert DecodeAll(s)[1..] == rest;
      EncodeAllAppend(one, Filter(isPrint, rest));
      if one != [] {
        EncodeAllOne(one[0]);
        if one[0] == d.value {
          EncodedAsRead(s);
        }
      }
    }
  }

  lemma {:induction false} CollapsingShortens(rs: seq<int>, wasSpace: bool)
    requires AllScalar(rs)
    ensures |EncodeAll(Collapse(rs, wasSpace))| <= |EncodeAll(rs)|
  {
    hide Encode;
    if rs != [] {
      CollapsingShortens(rs[1..], rs[0] == 0x20);
      if !(rs[0] == 0x20 && wasSpace) {
        EncodeAllAppend([rs[0]], Collapse(rs[1..], rs[0] == 0x20));
        EncodeAllOne(rs[0]);
      }
    }
  }

  lemma {:induction false} TrimmingLeftShortens(rs: seq<int>)
    requires AllScalar(rs)
    ensures |EncodeAll(TrimLeft(rs))| <= |EncodeAll(rs)|
  {
    hide Encode;
    if rs != [] && IsSpace(rs[0]) {
      TrimmingLeftShortens(rs[1..]);
    }
  }

  lemma {:induction false} TrimmingRightShortens(rs: seq<int>)
    requires AllScalar(rs)
    ensures |EncodeAll(TrimRight(rs))| <= |EncodeAll(rs)|
  {
    hide Encode;
    if rs != [] && IsSpace(rs[|rs| - 1]) {
      TrimmingRightShortens(rs[..|rs| - 1]);
      EncodedLengthOfPrefix(rs, |rs| - 1);
    }
  }

  /** A sanitized line is no longer than what it was made from. */
  lemma SanitizingShortens(isPrint: Table, s: bytes, max: int)
    ensures |TelnetLineOf(isPrint, s, max)| <= |s|
  {
    hide EncodeAll, Filter, Collapse, TrimLeft, TrimRight;
    LineOnRunes(isPrint, s, max);
    var f := Filter(isPrint, DecodeAll(s));
    FilteringShortens(isPrint, s);
    CollapsingShortens(f, false);
    TrimmingLeftShortens(Collapse(f, false));
    TrimmingRightShortens(TrimLeft(Collapse(f, false)));
  }

  /** Short printable ASCII text without spaces is left as it is. */
  lemma AsciiIsSettled(isPrint: Table, s: bytes)
    requires IsPrintTable(isPrint) && |s| <= 1000
    requires forall i :: 0 <= i < |s| ==> 0x21 <= s[i] < 0x7F && isPrint(s[i])
    ensures MessageOf(isPrint, s) == s
  {
    hide TelnetLineOf, EncodeAll, DecodeAll;
    AsciiEncodesAsItself(s);
    NoSpaceIsSingleSpaced(s, false);
    NextPass(isPrint, s, MAX_MESSAGE_LEN);
  }

  lemma {:induction false} NoSpaceIsSingleSpaced(rs: seq<int>, wasSpace: bool)
    requires forall i :: 0 <= i < |rs| ==> rs[i] != 0x20
    ensures SingleSpaced(rs, wasSpace)
  {
    if rs != [] {
      NoSpaceIsSingleSpaced(rs[1..], rs[0] == 0x20);
    }
  }
}
