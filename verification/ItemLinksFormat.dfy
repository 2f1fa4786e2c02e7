/** What a single item link is rewritten into, byte by byte (telnet/telnet_msg.go). */
module ItemLinksFormat {
  import opened Bytes
  import opened Utf8
  import opened ItemLinks
  import opened ItemLinksEnd
  import Unicode
  import opened Wrappers

  // ----- numbers -----

  predicate IsHexDigit(b: byte) {
    0x30 <= b <= 0x39 || 0x41 <= b <= 0x46
  }

  /** The digit of a value below sixteen. */
  function HexDigit(d: nat): byte
    requires d < 16
  {
    if d < 10 then 0x30 + d else 0x41 + (d - 10)
  }

  /** The last `width` hexadecimal digits of `n`. */
  function Hex(n: nat, width: nat): bytes {
    if width == 0 then [] else Hex(n / 16, width - 1) + [HexDigit(n % 16)]
  }

  function Pow16(k: nat): nat {
    if k == 0 then 1 else 16 * Pow16(k - 1)
  }

  /** An item id written in hexadecimal is read as what it is. */
  lemma {:induction false} HexReadsBack(n: nat, width: nat)
    requires n < Pow16(width)
    ensures HexValue(Hex(n, width)) == Some(n) && |Hex(n, width)| == width
  {
    if width > 0 {
      HexReadsBack(n / 16, width - 1);
      assert Hex(n, width)[..width - 1] == Hex(n / 16, width - 1);
    }
  }

  lemma {:induction false} HexExactly(s: bytes)
    ensures HexValue(s).Some? <==> forall i :: 0 <= i < |s| ==> IsHexDigit(s[i])
  {
    if s != [] {
      HexExactly(s[..|s| - 1]);
      assert forall i :: 0 <= i < |s| - 1 ==> s[..|s| - 1][i] == s[i];
    }
  }

  /** An item id is its hexadecimal value, at most the largest 64-bit integer, and 0 when it is no
      hexadecimal number. */
  lemma ItemIdExactly(n: nat, width: nat, s: bytes)
    requires n < Pow16(width)
    ensures ItemId(Hex(n, width)) == if n > 9_223_372_036_854_775_807 then 9_223_372_036_854_775_807 else n
    ensures (exists i :: 0 <= i < |s| && !IsHexDigit(s[i])) ==> ItemId(s) == 0
  {
    HexReadsBack(n, width);
    HexExactly(s);
  }

  function DecimalValue(s: bytes): int {
    if s == [] then 0 else DecimalValue(s[..|s| - 1]) * 10 + (s[|s| - 1] as int - 0x30)
  }

  /** A number is shown in decimal, without leading zeros. */
  lemma {:induction false} DecimalReadsBack(n: nat)
    ensures Decimal(n) != [] && DecimalValue(Decimal(n)) == n
    ensures n > 0 ==> Decimal(n)[0] != 0x30
    ensures forall i :: 0 <= i < |Decimal(n)| ==> 0x30 <= Decimal(n)[i] <= 0x39
  {
    var s := Decimal(n);
    if n >= 10 {
      DecimalReadsBack(n / 10);
      assert s[..|s| - 1] == Decimal(n / 10);
    } else {
      assert s[..0] == [];
    }
  }

  // ----- a message with one pair of delimiters -----

  /** The characters of an item name; parentheses only where the format allows them. */
  predicate IsNameCharacter(hasParens: bool, c: char) {
    || '0' <= c <= '9' || 'A' <= c <= 'Z' || 'a' <= c <= 'z' || c in "+-'`:.,!?* " || (hasParens && c in "()")
  }

  lemma NameCharacters(shape: Shape, b: byte)
    ensures IsNameByte(shape, b) <==> IsNameCharacter(shape.hasParens, b as char)
  {
  }

  /** The text between two delimiters makes a link of this format. */
  ghost predicate Fits(shape: Shape, inner: bytes) {
    && shape.idLength + shape.skipLength < |inner|
    && (forall i :: 0 <= i < shape.idLength + shape.skipLength ==>
          '0' <= inner[i] as char <= '9' || 'A' <= inner[i] as char <= 'Z')
    && (forall i :: shape.idLength + shape.skipLength <= i < |inner| ==>
          IsNameCharacter(shape.hasParens, inner[i] as char))
  }

  function Message(a: bytes, inner: bytes, b: bytes): bytes {
    a + ([LINK] + inner + [LINK]) + b
  }

  lemma MessageAt(a: bytes, inner: bytes, b: bytes)
    requires LINK !in a && LINK !in inner && LINK !in b
    ensures var s, end := Message(a, inner, b), |a| + 1 + |inner|;
            && |s| == end + 1 + |b| && s[|a|] == LINK && s[end] == LINK
            && (forall q :: 0 <= q < |inner| ==> s[|a| + 1 + q] == inner[q])
            && (forall q :: 0 <= q < |s| && s[q] == LINK ==> q == |a| || q == end)
            && s[..|a|] == a && s[end + 1..] == b && s[|a| + 1..end] == inner
  {
    var s := Message(a, inner, b);
    assert forall q :: 0 <= q < |a| ==> s[q] == a[q];
    assert forall q :: |a| + 2 + |inner| <= q < |s| ==> s[q] == b[q - |a| - 2 - |inner|];
  }

  lemma {:induction false} NameEndsAt(shape: Shape, s: bytes, k: nat, end: nat)
    requires k <= end < |s| && !IsNameByte(shape, s[end])
    ensures NameEnd(shape, s, k) == end <==> forall i :: k <= i < end ==> IsNameByte(shape, s[i])
    ensures NameEnd(shape, s, k) <= end
    decreases end - k
  {
    if k < end && IsNameByte(shape, s[k]) {
      NameEndsAt(shape, s, k + 1, end);
    }
  }

  /** Between the two delimiters stands the only link there can be. */
  lemma LinkOfMessage(shape: Shape, a: bytes, inner: bytes, b: bytes, i: nat)
    requires LINK !in a && LINK !in inner && LINK !in b && i < |Message(a, inner, b)|
    ensures IsLinkAt(shape, Message(a, inner, b), i) <==> i == |a| && Fits(shape, inner)
    ensures i == |a| && Fits(shape, inner) ==> LinkEnd(shape, Message(a, inner, b), i) == |a| + 1 + |inner|
  {
    var s, end := Message(a, inner, b), |a| + 1 + |inner|;
    MessageAt(a, inner, b);
    hide Message;
    if i == |a| && NameStart(shape, i) <= end {
      NameEndsAt(shape, s, NameStart(shape, i), end);
      InnerFits(shape, s, |a|, inner);
    }
  }

  lemma InnerFits(shape: Shape, s: bytes, at: nat, inner: bytes)
    requires at + 1 + |inner| < |s| && forall q :: 0 <= q < |inner| ==> s[at + 1 + q] == inner[q]
    requires NameStart(shape, at) <= at + 1 + |inner|
    ensures Fits(shape, inner)
            <==> && NameStart(shape, at) < at + 1 + |inner|
                 && (forall k :: at < k < NameStart(shape, at) ==> IsDigitOrUpper(s[k]))
                 && (forall k :: NameStart(shape, at) <= k < at + 1 + |inner| ==> IsNameByte(shape, s[k]))
  {
    var n := shape.idLength + shape.skipLength;
    assert NameStart(shape, at) == at + 1 + n;
    assert forall k :: at < k <= at + |inner| ==> s[k] == inner[k - at - 1];
    forall b: byte ensures IsNameByte(shape, b) <==> IsNameCharacter(shape.hasParens, b as char) {
      NameCharacters(shape, b);
    }
    hide IsNameByte, IsNameCharacter;
    if forall k :: at < k < NameStart(shape, at) ==> IsDigitOrUpper(s[k]) {
      forall i | 0 <= i < n ensures IsDigitOrUpper(inner[i]) {
        assert IsDigitOrUpper(s[at + 1 + i]) && s[at + 1 + i] == inner[i];
      }
    }
    if forall k :: NameStart(shape, at) <= k < at + 1 + |inner| ==> IsNameByte(shape, s[k]) {
      forall i | n <= i < |inner| ensures IsNameByte(shape, inner[i]) {
        assert s[at + 1 + i] == inner[i];
      }
    }
  }

  /** The format that decides: the longest that fits, and a configured one when none does. An item
      number takes nine or six digits, and 68, 50 or 39 characters are skipped after it. */
  ghost function Chosen(cfg: Config, inner: bytes): Option<Shape> {
    if Fits(Shape(9, 68, true), inner) then Some(Shape(9, 68, true))
    else if Fits(Shape(6, 50, true), inner) then Some(Shape(6, 50, true))
    else if Fits(Shape(6, 39, true), inner) then Some(Shape(6, 39, true))
    else if cfg.custom.Some? && Fits(cfg.custom.value, inner) then cfg.custom
    else None
  }

  lemma FoundInMessage(shape: Shape, a: bytes, inner: bytes, b: bytes)
    requires LINK !in a && LINK !in inner && LINK !in b
    ensures FindFrom(shape, Message(a, inner, b), 0) == if Fits(shape, inner) then Some(|a|) else None
  {
    var s := Message(a, inner, b);
    forall i: nat | i < |s| ensures IsLinkAt(shape, s, i) <==> i == |a| && Fits(shape, inner) {
      LinkOfMessage(shape, a, inner, b, i);
    }
    MessageAt(a, inner, b);
    hide IsLinkAt, Message, Fits;
    if Fits(shape, inner) {
      assert IsLinkAt(shape, s, |a|);
    }
  }

  /** Text in brackets or not, as the configuration says. */
  function Url(cfg: Config, id: nat): bytes {
    if cfg.isLinksEmbedded then cfg.itemUrl + Decimal(id) else ['<' as byte] + cfg.itemUrl + Decimal(id) + ['>' as byte]
  }

  /** "URL (name)" or, for an unknown item or without a URL, "*name* " in the legacy style, and
      "[name](URL)" otherwise. */
  function Text(cfg: Config, id: nat, name: bytes): bytes {
    if !cfg.isLegacyLinks then ['[' as byte] + name + [']' as byte, '(' as byte] + Url(cfg, id) + [')' as byte]
    else if id > 0 && cfg.itemUrl != [] then Url(cfg, id) + [' ' as byte, '(' as byte] + name + [')' as byte]
    else ['*' as byte] + name + ['*' as byte, ' ' as byte]
  }

  /** A link, alone in a message, is replaced by the text for its item, which its first digits
      name, and white space goes at both ends. Without a format that fits nothing is replaced. */
  lemma OneLinkIsRewritten(cfg: Config, a: bytes, inner: bytes, b: bytes)
    requires LINK !in a && LINK !in inner && LINK !in b
    ensures Chosen(cfg, inner).None? ==> Rewritten(cfg, Message(a, inner, b)).None?
    ensures Chosen(cfg, inner).Some? ==>
              var shape := Chosen(cfg, inner).value;
              && shape.idLength + shape.skipLength <= |inner|
              && var id, name := ItemId(inner[..shape.idLength]), inner[shape.idLength + shape.skipLength..];
                 Rewritten(cfg, Message(a, inner, b)) == Some(TrimSpace(a + Text(cfg, id, name) + b))
  {
    hide FindFrom, Replaced, Text, Fits, Message, IsLinkAt, TrimSpace, ItemId;
    FoundInMessage(LINK71, a, inner, b);
    FoundInMessage(LINK50, a, inner, b);
    FoundInMessage(LINK39, a, inner, b);
    if cfg.custom.Some? {
      FoundInMessage(cfg.custom.value, a, inner, b);
    }
    if Chosen(cfg, inner).Some? {
      ReplacedAlone(cfg, Chosen(cfg, inner).value, a, inner, b);
    }
  }

  lemma ReplacedAlone(cfg: Config, shape: Shape, a: bytes, inner: bytes, b: bytes)
    requires LINK !in a && LINK !in inner && LINK !in b && Fits(shape, inner)
    ensures shape.idLength + shape.skipLength <= |inner|
    ensures var s, f := Message(a, inner, b), Found(shape, |a|);
            && f.at < |s| && IsLinkAt(shape, s, f.at)
            && var id, name := ItemId(inner[..shape.idLength]), inner[shape.idLength + shape.skipLength..];
               Replaced(cfg, s, f) == TrimSpace(a + Text(cfg, id, name) + b)
  {
    hide Message, Fits, TrimSpace, ItemId, IsLinkAt, NameEnd, NameStart, Rendered, Text, LinkEnd, Replaced;
    var s, at, n, end := Message(a, inner, b), |a|, shape.idLength + shape.skipLength, |a| + 1 + |inner|;
    PartsOfLink(shape, a, inner, b);
    LinkOfMessage(shape, a, inner, b, at);
    var before, digits, name, after := s[..at], s[at + 1..at + 1 + shape.idLength], s[at + 1 + n..end], s[end + 1..];
    assert before == a && digits == inner[..shape.idLength] && name == inner[n..] && after == b;
    TextIsRendered(cfg, ItemId(digits), name);
    ReplacedParts(cfg, s, Found(shape, at), end);
    assert Replaced(cfg, s, Found(shape, at)) == TrimSpace(before + Rendered(cfg, ItemId(digits), name) + after);
  }

  lemma ReplacedParts(cfg: Config, s: bytes, f: Found, end: nat)
    requires f.at < |s| && IsLinkAt(f.shape, s, f.at) && LinkEnd(f.shape, s, f.at) == end
    ensures f.at + 1 + f.shape.idLength <= NameStart(f.shape, f.at) <= end < |s|
    ensures Replaced(cfg, s, f)
            == TrimSpace(s[..f.at] + Rendered(cfg, ItemId(s[f.at + 1..f.at + 1 + f.shape.idLength]),
                                              s[NameStart(f.shape, f.at)..end]) + s[end + 1..])
  {
    hide TrimSpace, ItemId, Rendered;
  }

  lemma TextIsRendered(cfg: Config, id: nat, name: bytes)
    ensures Rendered(cfg, id, name) == Text(cfg, id, name)
  {
    hide Decimal;
    ShownIsUrl(cfg, id);
  }

  lemma ShownIsUrl(cfg: Config, id: nat)
    ensures Shown(cfg, id) == Url(cfg, id)
  {
    assert [0x3C] + (cfg.itemUrl + Decimal(id)) + [0x3E] == [0x3C] + cfg.itemUrl + Decimal(id) + [0x3E];
  }

  lemma PartsOfLink(shape: Shape, a: bytes, inner: bytes, b: bytes)
    requires LINK !in a && LINK !in inner && LINK !in b && Fits(shape, inner)
    ensures var s, n := Message(a, inner, b), shape.idLength + shape.skipLength;
            && n < |inner| && |a| + 1 + |inner| < |s|
            && s[..|a|] == a && s[|a| + 1 + |inner| + 1..] == b
            && NameStart(shape, |a|) == |a| + 1 + n
            && s[|a| + 1..|a| + 1 + shape.idLength] == inner[..shape.idLength]
            && s[NameStart(shape, |a|)..|a| + 1 + |inner|] == inner[n..]
  {
    MessageAt(a, inner, b);
  }

  // ----- white space -----

  ghost predicate AllSpace(s: bytes) {
    forall r :: r in DecodeAll(s) ==> Unicode.IsSpace(r)
  }

  /** A whole sequence is decoded without what follows it. */
  lemma DecodePrefix(s: bytes, k: nat)
    requires s != [] && Decode(s).value != REPLACEMENT && Decode(s).width <= k <= |s|
    ensures Decode(s[..k]) == Decode(s)
  {
  }

  lemma {:induction false} LeftIsSpace(s: bytes) returns (x: nat)
    ensures x <= |s| && TrimLeft(s) == s[x..] && AllSpace(s[..x])
    ensures x < |s| ==> !Unicode.IsSpace(Decode(s[x..]).value)
  {
    hide Decode, Unicode.IsSpace, AllSpace;
    if s != [] && Unicode.IsSpace(Decode(s).value) {
      var w := Decode(s).width;
      var y := LeftIsSpace(s[w..]);
      x := w + y;
      assert s[w..][y..] == s[x..];
      assert s[..x][w..] == s[w..][..y];
      SpaceIsNoReplacement(s);
      DecodePrefix(s, x);
      OneMoreSpace(s[..x]);
    } else {
      x := 0;
      assert s[0..] == s && s[..0] == [];
      NoSpace();
    }
  }

  lemma SpaceIsNoReplacement(s: bytes)
    requires s != [] && Unicode.IsSpace(Decode(s).value)
    ensures Decode(s).value != REPLACEMENT
  {
    hide Decode;
  }

  lemma NoSpace()
    ensures AllSpace([])
  {
  }

  lemma OneMoreSpace(s: bytes)
    requires s != [] && Unicode.IsSpace(Decode(s).value) && AllSpace(s[Decode(s).width..])
    ensures AllSpace(s)
  {
    hide Decode, Unicode.IsSpace;
    assert DecodeAll(s) == [Decode(s).value] + DecodeAll(s[Decode(s).width..]);
  }

  lemma {:induction false} RightIsSpace(s: bytes) returns (y: nat)
    ensures y <= |s| && TrimRight(s) == s[..y] && AllSpace(s[y..]) && TrailingSpace(s[..y]) == 0
  {
    hide Decode, Unicode.IsSpace, AllSpace, TrailingSpace;
    var w := TrailingSpace(s);
    if w > 0 {
      var cut, e := s[..|s| - w], s[|s| - w..];
      y := RightIsSpace(cut);
      SpaceAtTheEnd(s);
      assert s[y..] == cut[y..] + e && cut[..y] == s[..y];
      SpacesAppend(cut[y..], e);
    } else {
      y := |s|;
      assert s[..y] == s && s[y..] == [];
      NoSpace();
    }
  }

  lemma SpaceAtTheEnd(s: bytes)
    requires TrailingSpace(s) > 0
    ensures var e := s[|s| - TrailingSpace(s)..];
            Decode(e).width == |e| && Unicode.IsSpace(Decode(e).value)
  {
  }

  lemma {:induction false} SpacesAppend(a: bytes, e: bytes)
    requires AllSpace(a) && e != [] && Decode(e).width == |e| && Unicode.IsSpace(Decode(e).value)
    ensures AllSpace(a + e)
  {
    hide Decode, Unicode.IsSpace, AllSpace;
    if a == [] {
      assert a + e == e && e[|e|..] == [];
      NoSpace();
      OneMoreSpace(e);
    } else {
      var w := Decode(a).width;
      FirstIsSpace(a);
      WholeStaysWhole(a, e);
      assert (a + e)[w..] == a[w..] + e;
      SpacesAppend(a[w..], e);
      OneMoreSpace(a + e);
    }
  }

  lemma FirstIsSpace(a: bytes)
    requires a != [] && AllSpace(a)
    ensures Unicode.IsSpace(Decode(a).value) && Decode(a).value != REPLACEMENT && AllSpace(a[Decode(a).width..])
  {
    hide Decode;
    assert DecodeAll(a)[0] == Decode(a).value;
    assert forall r :: r in DecodeAll(a[Decode(a).width..]) ==> r in DecodeAll(a);
  }

  lemma WholeStaysWhole(a: bytes, e: bytes)
    requires a != [] && Decode(a).value != REPLACEMENT
    ensures Decode(a + e) == Decode(a) && (a + e)[..|a|] == a
  {
  }

  /** Trimming takes away white space only, and all of it at either end. */
  lemma TrimmedExactly(s: bytes) returns (x: nat, y: nat)
    ensures x <= y <= |s| && TrimSpace(s) == s[x..y] && AllSpace(s[..x]) && AllSpace(s[y..])
    ensures x < |s| ==> !Unicode.IsSpace(Decode(s[x..]).value)
    ensures TrailingSpace(s[x..y]) == 0
  {
    hide TrimLeft, TrimRight, TrailingSpace, AllSpace;
    x := LeftIsSpace(s);
    var n := RightIsSpace(s[x..]);
    y := x + n;
    assert s[x..][..n] == s[x..y] && s[x..][n..] == s[y..];
  }
}
