/** Rewriting of in-game item links into readable text (telnet/telnet_msg.go). */
module ItemLinks {
  import opened Bytes
  import opened Utf8
  import Unicode
  import opened Wrappers

  const LINK: byte := 0x12

  /** A link format: after the delimiter an item id and a run to skip, both of fixed length, then
      a name and the closing delimiter. */
  datatype Shape = Shape(idLength: nat, skipLength: nat, hasParens: bool)

  const LINK71 := Shape(9, 68, true)
  const LINK50 := Shape(6, 50, true)
  const LINK39 := Shape(6, 39, true)

  datatype Config = Config(
    itemUrl: bytes, isLegacyLinks: bool, isLinksEmbedded: bool, custom: Option<Shape>)

  predicate IsDigitOrUpper(b: byte) {
    0x30 <= b <= 0x39 || 0x41 <= b <= 0x5A
  }

  predicate IsNameByte(shape: Shape, b: byte) {
    || IsDigitOrUpper(b) || 0x61 <= b <= 0x7A || b == 0x2B || (shape.hasParens && (b == 0x28 || b == 0x29))
    || b == 0x2D || b == 0x27 || b == 0x60 || b == 0x3A || b == 0x2E || b == 0x2C || b == 0x21
    || b == 0x3F || b == 0x2A || b == 0x20
  }

  /** Where the run of name bytes starting at `k` ends. */
  function NameEnd(shape: Shape, s: bytes, k: nat): (e: nat)
    requires k <= |s|
    ensures k <= e <= |s|
    ensures forall i :: k <= i < e ==> IsNameByte(shape, s[i])
    ensures e < |s| ==> !IsNameByte(shape, s[e])
    decreases |s| - k
  {
    if k < |s| && IsNameByte(shape, s[k]) then NameEnd(shape, s, k + 1) else k
  }

  function NameStart(shape: Shape, i: nat): nat {
    i + 1 + shape.idLength + shape.skipLength
  }

  /** A link of this format starts at `i`. */
  predicate IsLinkAt(shape: Shape, s: bytes, i: nat) {
    && NameStart(shape, i) < |s| && s[i] == LINK
    && (forall k :: i < k < NameStart(shape, i) ==> IsDigitOrUpper(s[k]))
    && var e := NameEnd(shape, s, NameStart(shape, i));
       NameStart(shape, i) < e < |s| && s[e] == LINK
  }

  predicate HasLink(shape: Shape, s: bytes) {
    exists i :: 0 <= i < |s| && IsLinkAt(shape, s, i)
  }

  /** The leftmost link of this format at or after `i`. */
  function FindFrom(shape: Shape, s: bytes, i: nat): (r: Option<nat>)
    requires i <= |s|
    ensures r.Some? ==> r.value < |s| && IsLinkAt(shape, s, r.value)
    ensures r.None? ==> forall k :: i <= k < |s| ==> !IsLinkAt(shape, s, k)
    decreases |s| - i
  {
    if i == |s| then None
    else if IsLinkAt(shape, s, i) then Some(i)
    else FindFrom(shape, s, i + 1)
  }

  datatype Found = Found(shape: Shape, at: nat)

  /** The link to rewrite next: the longest format that occurs decides, its leftmost link goes
      first, and a configured format is tried when none of the known ones occurs. */
  function Find(cfg: Config, s: bytes): (r: Option<Found>)
    ensures r.Some? ==> r.value.at < |s| && IsLinkAt(r.value.shape, s, r.value.at)
    ensures r.None? ==> forall shape {:trigger HasLink(shape, s)} :: IsConfigured(cfg, shape) ==> !HasLink(shape, s)
  {
    var f71, f50, f39 := FindFrom(LINK71, s, 0), FindFrom(LINK50, s, 0), FindFrom(LINK39, s, 0);
    if f71.Some? then Some(Found(LINK71, f71.value))
    else if f50.Some? then Some(Found(LINK50, f50.value))
    else if f39.Some? then Some(Found(LINK39, f39.value))
    else if cfg.custom.None? then None
    else
      var c := FindFrom(cfg.custom.value, s, 0);
      if c.Some? then Some(Found(cfg.custom.value, c.value)) else None
  }

  predicate IsConfigured(cfg: Config, shape: Shape) {
    shape == LINK71 || shape == LINK50 || shape == LINK39 || cfg.custom == Some(shape)
  }

  // ----- what replaces a link -----

  const MAX_INT64: nat := 0x7FFF_FFFF_FFFF_FFFF

  /** The item id read as hexadecimal: 0 when it holds another letter, capped at 64 bits. */
  function HexValue(s: bytes): Option<nat> {
    if s == [] then Some(0)
    else
      var high, b := HexValue(s[..|s| - 1]), s[|s| - 1];
      if high.None? then None
      else if 0x30 <= b <= 0x39 then Some(high.value * 16 + (b - 0x30))
      else if 0x41 <= b <= 0x46 then Some(high.value * 16 + (b - 0x37))
      else None
  }

  function ItemId(s: bytes): nat {
    match HexValue(s)
    case None => 0
    case Some(n) => if n > MAX_INT64 then MAX_INT64 else n
  }

  function Decimal(n: nat): (s: bytes)
    ensures forall i :: 0 <= i < |s| ==> 0x30 <= s[i] <= 0x39
  {
    if n < 10 then [0x30 + n] else Decimal(n / 10) + [0x30 + n % 10]
  }

  /** The item URL and id, with or without angle brackets around them. */
  function Shown(cfg: Config, id: nat): bytes {
    if cfg.isLinksEmbedded then cfg.itemUrl + Decimal(id)
    else [0x3C] + (cfg.itemUrl + Decimal(id)) + [0x3E]
  }

  /** "<url id> (name)" or "*name* " in the legacy style, "[name](<url id>)" otherwise; the
      embedded variants leave out the angle brackets. */
  function Rendered(cfg: Config, id: nat, name: bytes): bytes {
    if cfg.isLegacyLinks then
      if id > 0 && cfg.itemUrl != [] then Shown(cfg, id) + [0x20, 0x28] + name + [0x29]
      else [0x2A] + name + [0x2A, 0x20]
    else [0x5B] + name + [0x5D, 0x28] + Shown(cfg, id) + [0x29]
  }

  function TrimLeft(s: bytes): bytes {
    if s != [] && Unicode.IsSpace(Decode(s).value) then TrimLeft(s[Decode(s).width..]) else s
  }

  /** The width of the white space rune that ends `s`, or 0. */
  function TrailingSpace(s: bytes): (w: nat)
    ensures w <= |s|
  {
    var n := |s|;
    if n >= 1 && s[n - 1] < 0x80 && Unicode.IsSpace(s[n - 1]) then 1
    else if n >= 2 && Decode(s[n - 2..]).width == 2 && Unicode.IsSpace(Decode(s[n - 2..]).value) then 2
    else if n >= 3 && Decode(s[n - 3..]).width == 3 && Unicode.IsSpace(Decode(s[n - 3..]).value) then 3
    else 0
  }

  function TrimRight(s: bytes): bytes {
    if TrailingSpace(s) > 0 then TrimRight(s[..|s| - TrailingSpace(s)]) else s
  }

  /** `strings.TrimSpace` on any byte string. */
  function TrimSpace(s: bytes): bytes {
    TrimRight(TrimLeft(s))
  }

  /** The message with the found link replaced. */
  function Replaced(cfg: Config, s: bytes, f: Found): bytes
    requires f.at < |s| && IsLinkAt(f.shape, s, f.at)
  {
    var start := NameStart(f.shape, f.at);
    var end := NameEnd(f.shape, s, start);
    var id := ItemId(s[f.at + 1..f.at + 1 + f.shape.idLength]);
    TrimSpace(s[..f.at] + Rendered(cfg, id, s[start..end]) + s[end + 1..])
  }

  function Rewritten(cfg: Config, s: bytes): Option<bytes> {
    match Find(cfg, s)
    case None => None
    case Some(f) => Some(Replaced(cfg, s, f))
  }

  // ----- counting delimiters -----

  function Links(s: bytes): nat {
    multiset(s)[LINK]
  }

  lemma LinksAppend(a: bytes, b: bytes)
    ensures Links(a + b) == Links(a) + Links(b)
  {
  }

  lemma NoLinks(s: bytes)
    requires LINK !in s
    ensures Links(s) == 0
  {
  }

  lemma {:induction false} TrimLeftKeepsLinks(s: bytes)
    ensures Links(TrimLeft(s)) == Links(s)
  {
    if s != [] && Unicode.IsSpace(Decode(s).value) {
      var w := Decode(s).width;
      SpaceRuneHasNoLink(s);
      assert s == s[..w] + s[w..];
      LinksAppend(s[..w], s[w..]);
      NoLinks(s[..w]);
      TrimLeftKeepsLinks(s[w..]);
    }
  }

  /** A delimiter or a visible ASCII character. Trimming takes none of them away. */
  predicate IsSolid(b: byte) {
    b == LINK || 0x21 <= b <= 0x7E
  }

  lemma SpaceRuneHasNoLink(s: bytes)
    requires s != [] && Unicode.IsSpace(Decode(s).value)
    ensures LINK !in s[..Decode(s).width]
    ensures forall i :: 0 <= i < Decode(s).width ==> !IsSolid(s[i])
  {
  }

  lemma {:induction false} TrimRightKeepsLinks(s: bytes)
    ensures Links(TrimRight(s)) == Links(s)
  {
    var w := TrailingSpace(s);
    if w > 0 {
      var cut, tail := s[..|s| - w], s[|s| - w..];
      TrailingSpaceHasNoLink(s);
      assert s == cut + tail;
      LinksAppend(cut, tail);
      NoLinks(tail);
      TrimRightKeepsLinks(cut);
    }
  }

  lemma TrailingSpaceHasNoLink(s: bytes)
    ensures LINK !in s[|s| - TrailingSpace(s)..]
    ensures forall i :: |s| - TrailingSpace(s) <= i < |s| ==> !IsSolid(s[i])
  {
    var n, w := |s|, TrailingSpace(s);
    if w >= 2 {
      SpaceRuneHasNoLink(s[n - w..]);
      assert s[n - w..][..w] == s[n - w..];
    }
  }

  lemma LinksAppend3(a: bytes, b: bytes, c: bytes)
    ensures Links(a + b + c) == Links(a) + Links(b) + Links(c)
  {
    hide Links;
    LinksAppend(a + b, c);
    LinksAppend(a, b);
  }

  lemma ShownLinks(cfg: Config, id: nat)
    ensures Links(Shown(cfg, id)) == Links(cfg.itemUrl)
  {
    hide Links, Decimal;
    NoLinks(Decimal(id));
    LinksAppend(cfg.itemUrl, Decimal(id));
    NoLinks([0x3C]);
    NoLinks([0x3E]);
    LinksAppend3([0x3C], cfg.itemUrl + Decimal(id), [0x3E]);
  }

  lemma RenderedLinks(cfg: Config, id: nat, name: bytes)
    requires LINK !in name
    ensures Links(Rendered(cfg, id, name)) <= Links(cfg.itemUrl)
    ensures !cfg.isLegacyLinks ==> Links(Rendered(cfg, id, name)) == Links(cfg.itemUrl)
  {
    hide Links, Shown;
    ShownLinks(cfg, id);
    NoLinks(name);
    if !cfg.isLegacyLinks {
      NoLinks([0x5B] + name + [0x5D, 0x28]);
      NoLinks([0x29]);
      LinksAppend3([0x5B] + name + [0x5D, 0x28], Shown(cfg, id), [0x29]);
    } else if id > 0 && cfg.itemUrl != [] {
      var tail := [0x20, 0x28] + name + [0x29];
      NoLinks(tail);
      LinksAppend(Shown(cfg, id), tail);
      assert Shown(cfg, id) + [0x20, 0x28] + name + [0x29] == Shown(cfg, id) + tail;
    } else {
      NoLinks([0x2A] + name + [0x2A, 0x20]);
    }
  }

  lemma LinksOfMatch(s: bytes, at: nat, end: nat)
    requires at < end < |s| && s[at] == LINK && s[end] == LINK && LINK !in s[at + 1..end]
    ensures Links(s) == Links(s[..at]) + 2 + Links(s[end + 1..])
  {
    var link := [LINK] + s[at + 1..end] + [LINK];
    assert s == s[..at] + link + s[end + 1..];
    LinksAppend3(s[..at], link, s[end + 1..]);
    LinksAppend3([LINK], s[at + 1..end], [LINK]);
    NoLinks(s[at + 1..end]);
    assert Links([LINK]) == 1;
  }

  /** Each rewrite removes the two delimiters of its link and adds those of the item URL. */
  lemma RewriteRemovesTwo(cfg: Config, s: bytes)
    requires Rewritten(cfg, s).Some?
    ensures Links(s) >= 2
    ensures Links(Rewritten(cfg, s).value) <= Links(s) - 2 + Links(cfg.itemUrl)
    ensures Links(cfg.itemUrl) == 0 ==> Links(Rewritten(cfg, s).value) == Links(s) - 2
  {
    hide Links, Rendered, Find, TrimLeft, TrimRight;
    var f := Find(cfg, s).value;
    var start := NameStart(f.shape, f.at);
    var end := NameEnd(f.shape, s, start);
    var id := ItemId(s[f.at + 1..f.at + 1 + f.shape.idLength]);
    InsideHasNoLink(f.shape, s, f.at);
    LinksOfMatch(s, f.at, end);
    var r := Rendered(cfg, id, s[start..end]);
    RenderedLinks(cfg, id, s[start..end]);
    var t := s[..f.at] + r + s[end + 1..];
    LinksAppend3(s[..f.at], r, s[end + 1..]);
    TrimLeftKeepsLinks(t);
    TrimRightKeepsLinks(TrimLeft(t));
    assert Rewritten(cfg, s).value == TrimSpace(t);
  }

  lemma InsideHasNoLink(shape: Shape, s: bytes, at: nat)
    requires at < |s| && IsLinkAt(shape, s, at)
    ensures var end := NameEnd(shape, s, NameStart(shape, at));
            LINK !in s[at + 1..end] && LINK !in s[NameStart(shape, at)..end]
  {
  }

  // ----- the recursion -----

  function Step(cfg: Config, s: bytes): bytes {
    match Rewritten(cfg, s)
    case None => s
    case Some(t) => t
  }

  function Steps(cfg: Config, s: bytes, n: nat): bytes
    decreases n
  {
    if n == 0 then s else Steps(cfg, Step(cfg, s), n - 1)
  }

  /** After some number of rewrites nothing is left to rewrite. */
  ghost predicate Ends(cfg: Config, s: bytes) {
    exists n :: Rewritten(cfg, Steps(cfg, s, n)).None?
  }

  /** As long as the item URL holds fewer than two delimiters their number falls with every
      rewrite, so the recursion ends. */
  lemma {:induction false} FewDelimitersEnd(cfg: Config, s: bytes) returns (n: nat)
    requires Links(cfg.itemUrl) < 2
    ensures Rewritten(cfg, Steps(cfg, s, n)).None?
    decreases Links(s)
  {
    hide Rewritten, Links;
    if Rewritten(cfg, s).None? {
      n := 0;
    } else {
      RewriteRemovesTwo(cfg, s);
      var k := FewDelimitersEnd(cfg, Step(cfg, s));
      n := k + 1;
    }
  }

  ghost predicate IsFirstEnd(cfg: Config, s: bytes, n: nat) {
    && Rewritten(cfg, Steps(cfg, s, n)).None?
    && forall k: nat :: k < n ==> Rewritten(cfg, Steps(cfg, s, k)).Some?
  }

  lemma {:induction false} FirstEnd(cfg: Config, s: bytes, n: nat) returns (k: nat)
    requires Rewritten(cfg, Steps(cfg, s, n)).None?
    ensures IsFirstEnd(cfg, s, k)
    decreases n
  {
    hide Rewritten, Steps;
    if forall j: nat :: j < n ==> Rewritten(cfg, Steps(cfg, s, j)).Some? {
      k := n;
    } else {
      var j: nat :| j < n && Rewritten(cfg, Steps(cfg, s, j)).None?;
      k := FirstEnd(cfg, s, j);
    }
  }

  lemma SomeFirstEnd(cfg: Config, s: bytes)
    requires Ends(cfg, s)
    ensures exists n :: IsFirstEnd(cfg, s, n)
  {
    var n :| Rewritten(cfg, Steps(cfg, s, n)).None?;
    var k := FirstEnd(cfg, s, n);
  }

  ghost function StepsToEnd(cfg: Config, s: bytes): (n: nat)
    requires Ends(cfg, s)
    ensures IsFirstEnd(cfg, s, n)
  {
    SomeFirstEnd(cfg, s);
    var n :| IsFirstEnd(cfg, s, n);
    n
  }

  /** A rewrite is one step nearer to the end. */
  lemma StepIsNearer(cfg: Config, s: bytes)
    requires Ends(cfg, s) && Rewritten(cfg, s).Some?
    ensures Ends(cfg, Rewritten(cfg, s).value)
    ensures StepsToEnd(cfg, Rewritten(cfg, s).value) < StepsToEnd(cfg, s)
  {
    hide Rewritten;
    var n, t := StepsToEnd(cfg, s), Rewritten(cfg, s).value;
    assert n > 0 && Steps(cfg, s, n) == Steps(cfg, t, n - 1);
    var m := StepsToEnd(cfg, t);
  }

  /** Rewrites until no link is left, whenever that comes to an end. */
  function Converted(cfg: Config, s: bytes): bytes
    requires Ends(cfg, s)
    decreases StepsToEnd(cfg, s)
  {
    if Rewritten(cfg, s).None? then s
    else
      StepIsNearer(cfg, s);
      Converted(cfg, Rewritten(cfg, s).value)
  }

  function Rewrites(cfg: Config, s: bytes): nat
    requires Ends(cfg, s)
    decreases StepsToEnd(cfg, s)
  {
    if Rewritten(cfg, s).None? then 0
    else
      StepIsNearer(cfg, s);
      1 + Rewrites(cfg, Rewritten(cfg, s).value)
  }

  /** The result holds no link of any format in use. */
  lemma {:induction false} NoLinkIsLeft(cfg: Config, s: bytes, shape: Shape)
    requires Ends(cfg, s) && IsConfigured(cfg, shape)
    ensures !HasLink(shape, Converted(cfg, s))
    decreases StepsToEnd(cfg, s)
  {
    hide Ends, Replaced;
    if Rewritten(cfg, s).Some? {
      StepIsNearer(cfg, s);
      NoLinkIsLeft(cfg, Rewritten(cfg, s).value, shape);
    }
  }

  lemma {:induction false} ConvertedIsSettled(cfg: Config, s: bytes)
    requires Ends(cfg, s)
    ensures Rewritten(cfg, Converted(cfg, s)).None?
    decreases StepsToEnd(cfg, s)
  {
    hide Ends, Rewritten;
    if Rewritten(cfg, s).Some? {
      StepIsNearer(cfg, s);
      ConvertedIsSettled(cfg, Rewritten(cfg, s).value);
    }
  }

  /** Applying the conversion again changes nothing. */
  lemma ConvertingTwiceIsOnce(cfg: Config, s: bytes)
    requires Ends(cfg, s)
    ensures Ends(cfg, Converted(cfg, s)) && Converted(cfg, Converted(cfg, s)) == Converted(cfg, s)
  {
    hide Rewritten;
    ConvertedIsSettled(cfg, s);
    assert Steps(cfg, Converted(cfg, s), 0) == Converted(cfg, s);
  }

  /** With a plain item URL every rewrite takes away exactly two delimiters, and all others stay. */
  lemma {:induction false} DelimitersLeft(cfg: Config, s: bytes)
    requires Links(cfg.itemUrl) == 0
    ensures Ends(cfg, s) && Links(Converted(cfg, s)) == Links(s) - 2 * Rewrites(cfg, s)
    decreases Links(s)
  {
    hide Rewritten, Links;
    var n := FewDelimitersEnd(cfg, s);
    if Rewritten(cfg, s).Some? {
      RewriteRemovesTwo(cfg, s);
      DelimitersLeft(cfg, Rewritten(cfg, s).value);
    }
  }
}
