/** Exactly when rewriting ends in the legacy style (telnet/telnet_msg.go), where a link to an unknown
    item leaves its name alone and only a known item brings in the URL.

Between fences a copy of the URL is rewritten as it would be on its own. So rewriting ends on every
message if and only if the URL, rewritten on its own, never shows an item.
*/
module ItemLinksLegacy {
  import opened Bytes
  import opened ItemLinks
  import opened ItemLinksEnd
  import opened Wrappers

  // ----- one rewrite before trimming -----

  /** `f` is a link of `s`. */
  predicate IsIn(s: bytes, f: Found) {
    f.at < |s| && IsLinkAt(f.shape, s, f.at)
  }

  function IdOf(s: bytes, f: Found): nat
    requires IsIn(s, f)
  {
    ItemId(s[f.at + 1..f.at + 1 + f.shape.idLength])
  }

  function NameOf(s: bytes, f: Found): bytes
    requires IsIn(s, f)
  {
    s[NameStart(f.shape, f.at)..LinkEnd(f.shape, s, f.at)]
  }

  function Raw(cfg: Config, s: bytes, f: Found): bytes
    requires IsIn(s, f)
  {
    s[..f.at] + Rendered(cfg, IdOf(s, f), NameOf(s, f)) + s[LinkEnd(f.shape, s, f.at) + 1..]
  }

  lemma TrimmedRaw(cfg: Config, s: bytes)
    ensures Find(cfg, s).Some? ==>
              var f := Find(cfg, s).value;
              && IsIn(s, f) && Rewritten(cfg, s) == Some(Replaced(cfg, s, f))
              && Replaced(cfg, s, f) == TrimSpace(Raw(cfg, s, f))
    ensures Find(cfg, s).None? ==> Rewritten(cfg, s).None?
  {
    hide Find, TrimSpace, Rendered;
  }

  // ----- links in a part of a message -----

  lemma {:induction false} FirstLink(shape: Shape, s: bytes, i: nat, at: nat)
    requires i <= at < |s| && IsLinkAt(shape, s, at) && forall k :: i <= k < at ==> !IsLinkAt(shape, s, k)
    ensures FindFrom(shape, s, i) == Some(at)
    decreases at - i
  {
    if i < at {
      FirstLink(shape, s, i + 1, at);
    }
  }

  lemma {:induction false} FoundFirst(shape: Shape, s: bytes, i: nat)
    requires i <= |s|
    ensures FindFrom(shape, s, i).Some? ==>
              i <= FindFrom(shape, s, i).value
              && forall k :: i <= k < FindFrom(shape, s, i).value ==> !IsLinkAt(shape, s, k)
    decreases |s| - i
  {
    hide IsLinkAt;
    if i < |s| && !IsLinkAt(shape, s, i) {
      FoundFirst(shape, s, i + 1);
    }
  }

  /** A link of a part is one of the whole. */
  lemma LinkOfPart(shape: Shape, a: bytes, c: bytes, b: bytes, i: nat)
    requires i < |c| && IsLinkAt(shape, c, i)
    ensures IsLinkAt(shape, a + c + b, |a| + i)
    ensures LinkEnd(shape, a + c + b, |a| + i) == |a| + LinkEnd(shape, c, i)
  {
    hide IsLinkAt, LinkEnd;
    LinkBounds(shape, c, i);
    SameLink(shape, c, a + c + b, i, |a| + i);
  }

  /** A link of the whole that lies in a part is one of the part. */
  lemma LinkInPart(shape: Shape, a: bytes, c: bytes, b: bytes, i: nat)
    requires |a| <= i && IsLinkAt(shape, a + c + b, i) && LinkEnd(shape, a + c + b, i) < |a| + |c|
    ensures IsLinkAt(shape, c, i - |a|) && LinkEnd(shape, c, i - |a|) == LinkEnd(shape, a + c + b, i) - |a|
  {
    hide IsLinkAt, LinkEnd;
    var s := a + c + b;
    LinkBounds(shape, s, i);
    assert forall q :: |a| <= q < |a| + |c| ==> s[q] == c[q - |a|];
    SameLink(shape, s, c, i, i - |a|);
  }

  lemma FindInPart(shape: Shape, a: bytes, c: bytes, b: bytes)
    ensures FindFrom(shape, a + c + b, 0).None? ==> FindFrom(shape, c, 0).None?
    ensures FindFrom(shape, a + c + b, 0).Some? ==>
              var at := FindFrom(shape, a + c + b, 0).value;
              |a| <= at && LinkEnd(shape, a + c + b, at) < |a| + |c| ==> FindFrom(shape, c, 0) == Some(at - |a|)
  {
    hide IsLinkAt, LinkEnd;
    var s := a + c + b;
    FoundFirst(shape, s, 0);
    var found := FindFrom(shape, c, 0);
    if found.Some? {
      LinkOfPart(shape, a, c, b, found.value);
    }
    if FindFrom(shape, s, 0).Some? {
      var at := FindFrom(shape, s, 0).value;
      if |a| <= at && LinkEnd(shape, s, at) < |a| + |c| {
        LinkInPart(shape, a, c, b, at);
        LinkBounds(shape, c, at - |a|);
        forall k | 0 <= k < at - |a| ensures !IsLinkAt(shape, c, k) {
          if IsLinkAt(shape, c, k) {
            LinkOfPart(shape, a, c, b, k);
          }
        }
        FirstLink(shape, c, 0, at - |a|);
      }
    }
  }

  /** When the link to rewrite next lies in a part, it is the one to rewrite next in the part. */
  lemma FoundInPart(cfg: Config, a: bytes, c: bytes, b: bytes)
    ensures Find(cfg, a + c + b).None? ==> Find(cfg, c).None?
    ensures Find(cfg, a + c + b).Some? ==>
              var f := Find(cfg, a + c + b).value;
              IsIn(a + c + b, f)
              && (|a| <= f.at && LinkEnd(f.shape, a + c + b, f.at) < |a| + |c| ==>
                    Find(cfg, c) == Some(f.(at := f.at - |a|)))
  {
    hide FindFrom, IsLinkAt, LinkEnd;
    FindInPart(LINK71, a, c, b);
    FindInPart(LINK50, a, c, b);
    FindInPart(LINK39, a, c, b);
    if cfg.custom.Some? {
      FindInPart(cfg.custom.value, a, c, b);
    }
  }

  /** Rewriting it changes that part only. */
  lemma RawOfPart(cfg: Config, a: bytes, c: bytes, b: bytes, f: Found)
    requires IsIn(a + c + b, f) && |a| <= f.at && LinkEnd(f.shape, a + c + b, f.at) < |a| + |c|
    ensures var g := f.(at := f.at - |a|);
            && IsIn(c, g) && IdOf(c, g) == IdOf(a + c + b, f)
            && Raw(cfg, a + c + b, f) == a + Raw(cfg, c, g) + b
  {
    hide Rendered, ItemId;
    var s, g := a + c + b, f.(at := f.at - |a|);
    LinkInPart(f.shape, a, c, b, f.at);
    LinkRange(f.shape, c, g.at);
    LinkRange(f.shape, s, f.at);
    var end := LinkEnd(f.shape, c, g.at);
    hide LinkEnd, IsLinkAt, NameStart;
    SliceOfPart(a, c, b, g.at + 1, g.at + 1 + f.shape.idLength);
    SliceOfPart(a, c, b, NameStart(f.shape, g.at), end);
    SameStart(f.shape, |a|, g.at);
    AroundPart(a, c, b, g.at, Rendered(cfg, IdOf(c, g), NameOf(c, g)), end + 1);
  }

  lemma SameStart(shape: Shape, d: nat, i: nat)
    ensures NameStart(shape, d + i) == d + NameStart(shape, i)
  {
  }

  lemma SliceOfPart(a: bytes, c: bytes, b: bytes, i: nat, j: nat)
    requires i <= j <= |c|
    ensures (a + c + b)[|a| + i..|a| + j] == c[i..j]
  {
  }

  lemma AroundPart(a: bytes, c: bytes, b: bytes, i: nat, r: bytes, j: nat)
    requires i <= |c| && j <= |c|
    ensures (a + c + b)[..|a| + i] + r + (a + c + b)[|a| + j..] == a + (c[..i] + r + c[j..]) + b
  {
    assert (a + c + b)[..|a| + i] == a + c[..i] && (a + c + b)[|a| + j..] == c[j..] + b;
  }

  lemma LinkRange(shape: Shape, s: bytes, i: nat)
    requires IsLinkAt(shape, s, i)
    ensures i + 1 + shape.idLength <= NameStart(shape, i) <= LinkEnd(shape, s, i) < |s|
  {
  }

  // ----- a text that never shows an item -----

  /** Rewriting the text never meets a link that brings in the URL: in the legacy style the link of
      a known item. Every link met before takes two delimiters away. */
  predicate ShowsNothing(cfg: Config, s: bytes)
    decreases Links(s)
  {
    TrimmedRaw(cfg, s);
    match Find(cfg, s)
    case None => true
    case Some(f) =>
      !IsShown(cfg, IdOf(s, f))
      && (UnknownRemovesTwo(cfg, s, f); ShowsNothing(cfg, Replaced(cfg, s, f)))
  }

  lemma UnknownRemovesTwo(cfg: Config, s: bytes, f: Found)
    requires IsIn(s, f) && !IsShown(cfg, IdOf(s, f))
    ensures Links(Raw(cfg, s, f)) == Links(Replaced(cfg, s, f)) == Links(s) - 2
  {
    hide Links, TrimLeft, TrimRight, ItemId;
    var end := LinkEnd(f.shape, s, f.at);
    LinkBounds(f.shape, s, f.at);
    InsideHasNoLink(f.shape, s, f.at);
    LinksOfMatch(s, f.at, end);
    var r := Rendered(cfg, IdOf(s, f), NameOf(s, f));
    assert r == [0x2A] + NameOf(s, f) + [0x2A, 0x20];
    NoLinks(r);
    LinksAppend3(s[..f.at], r, s[end + 1..]);
    var t := Raw(cfg, s, f);
    TrimLeftKeepsLinks(t);
    TrimRightKeepsLinks(TrimLeft(t));
  }

  lemma LinkInside(s: bytes, l: bytes, r: bytes, f: Found)
    requires LINK !in l && LINK !in r && IsIn(l + s + r, f)
    ensures |l| <= f.at && LinkEnd(f.shape, l + s + r, f.at) < |l| + |s|
  {
    hide LinkEnd, IsLinkAt;
    LinkBounds(f.shape, l + s + r, f.at);
  }

  /** Text without delimiters around makes no difference. */
  lemma {:induction false} PaddingShowsNothing(cfg: Config, l: bytes, s: bytes, r: bytes)
    requires LINK !in l && LINK !in r
    ensures ShowsNothing(cfg, l + s + r) <==> ShowsNothing(cfg, s)
    decreases Links(s), 1
  {
    hide Find, Links, Raw, IdOf, LinkEnd, IsLinkAt, IsShown, TrimSpace, Replaced;
    var t := l + s + r;
    FoundInPart(cfg, l, s, r);
    if Find(cfg, t).Some? {
      var f := Find(cfg, t).value;
      LinkInside(s, l, r, f);
      RawOfPart(cfg, l, s, r, f);
      var g := f.(at := f.at - |l|);
      if !IsShown(cfg, IdOf(s, g)) {
        UnknownRemovesTwo(cfg, s, g);
        UnknownRemovesTwo(cfg, t, f);
        TrimmedRaw(cfg, s);
        TrimmedRaw(cfg, t);
        PaddingShowsNothing(cfg, l, Raw(cfg, s, g), r);
        TrimmingShowsNothing(cfg, Raw(cfg, s, g));
        NoLinks(l);
        NoLinks(r);
        LinksAppend3(l, s, r);
        TrimmingShowsNothing(cfg, Raw(cfg, t, f));
      }
    }
  }

  lemma {:induction false} TrimmingShowsNothing(cfg: Config, s: bytes)
    ensures ShowsNothing(cfg, TrimSpace(s)) <==> ShowsNothing(cfg, s)
    decreases Links(s), 2
  {
    var x, y := TrimIsSlice(s);
    assert s == s[..x] + s[x..y] + s[y..];
    hide TrimSpace, ShowsNothing, Links;
    NoLinks(s[..x]);
    NoLinks(s[y..]);
    LinksAppend3(s[..x], s[x..y], s[y..]);
    PaddingShowsNothing(cfg, s[..x], s[x..y], s[y..]);
  }

  // ----- copies of the URL between fences -----

  predicate IsVisibleFence(b: byte) {
    IsFence(b) && 0x21 <= b <= 0x7E
  }

  /** No link crosses either end, and trimming cuts neither off. */
  predicate IsGuarded(t: bytes) {
    |t| >= 2 && IsVisibleFence(t[0]) && IsVisibleFence(t[|t| - 1])
  }

  /** The delimiters of the URL stand between fences of its own. */
  ghost predicate IsEnclosed(u: bytes, i: nat, j: nat) {
    i < j < |u| && IsGuarded(u[i..j + 1]) && LINK !in u[..i] && LINK !in u[j + 1..]
  }

  /** A replacement puts the URL between fences, or its delimiters stand between fences anyway. */
  ghost predicate IsClosedUrl(cfg: Config) {
    !cfg.isLinksEmbedded || exists i: nat, j: nat :: IsEnclosed(cfg.itemUrl, i, j)
  }

  lemma BracketsGuard(s: bytes)
    ensures IsGuarded([0x3C] + s + [0x3E])
  {
  }

  /** A replacement that shows the URL, with a guarded part that holds the delimiters. */
  lemma ShownIsGuarded(cfg: Config, id: nat, name: bytes) returns (x: bytes, t: bytes, y: bytes)
    requires cfg.isLegacyLinks && IsShown(cfg, id) && IsClosedUrl(cfg) && LINK !in name
    ensures Rendered(cfg, id, name) == x + t + y && LINK !in x && LINK !in y && IsGuarded(t)
    ensures ShowsNothing(cfg, t) <==> ShowsNothing(cfg, cfg.itemUrl)
  {
    hide ShowsNothing, Decimal, HexValue, IsGuarded;
    var u, number, tail := cfg.itemUrl, Decimal(id), [0x20, 0x28] + name + [0x29];
    assert Rendered(cfg, id, name) == Shown(cfg, id) + tail;
    if cfg.isLinksEmbedded {
      var i: nat, j: nat :| IsEnclosed(u, i, j);
      x, t, y := u[..i], u[i..j + 1], u[j + 1..] + number + tail;
      assert u == u[..i] + t + u[j + 1..];
      assert u + number + tail == x + t + y;
      PaddingShowsNothing(cfg, u[..i], t, u[j + 1..]);
    } else {
      x, t, y := [], [0x3C] + (u + number) + [0x3E], tail;
      BracketsGuard(u + number);
      assert t == [0x3C] + u + (number + [0x3E]);
      PaddingShowsNothing(cfg, [0x3C], u, number + [0x3E]);
    }
  }

  /** A link lies beside a guarded part or strictly inside. */
  lemma BesideOrInside(a: bytes, t: bytes, b: bytes, f: Found)
    requires IsGuarded(t) && IsIn(a + t + b, f)
    ensures var end := LinkEnd(f.shape, a + t + b, f.at);
            end < |a| || f.at >= |a| + |t| || (|a| < f.at && end < |a| + |t| - 1)
  {
    hide IsLinkAt, LinkEnd;
    var s := a + t + b;
    LinkBounds(f.shape, s, f.at);
    var end, first, last := LinkEnd(f.shape, s, f.at), |a|, |a| + |t| - 1;
    assert s[first] == t[0] && s[last] == t[|t| - 1];
    if f.at < first < end {
      InsideLink(f.shape, s, f.at, first);
    }
    if f.at < last < end {
      InsideLink(f.shape, s, f.at, last);
    }
  }

  lemma TrimmedAround(a: bytes, t: bytes, b: bytes) returns (a': bytes, b': bytes)
    requires IsGuarded(t)
    ensures TrimSpace(a + t + b) == a' + t + b'
    ensures Links(a') == Links(a) && Links(b') == Links(b)
  {
    hide TrimSpace, Links, IsVisibleFence;
    var s := a + t + b;
    var x, y := TrimIsSlice(s);
    GuardsAreSolid(t);
    assert s[|a|] == t[0] && s[|a| + |t| - 1] == t[|t| - 1];
    a', b' := a[x..], b[..y - |a| - |t|];
    assert s[x..y] == a' + t + b';
    forall q | 0 <= q < x ensures a[q] != LINK {
      assert s[q] == a[q];
    }
    forall q | |b'| <= q < |b| ensures b[q] != LINK {
      assert s[|a| + |t| + q] == b[q];
    }
    hide IsGuarded;
    CutOffLinks(a, x);
    CutOffLinks(b, |b'|);
  }

  lemma GuardsAreSolid(t: bytes)
    requires IsGuarded(t)
    ensures IsSolid(t[0]) && IsSolid(t[|t| - 1])
  {
  }

  lemma CutOffLinks(s: bytes, k: nat)
    requires k <= |s|
    ensures (forall q :: 0 <= q < k ==> s[q] != LINK) ==> Links(s[k..]) == Links(s)
    ensures (forall q :: k <= q < |s| ==> s[q] != LINK) ==> Links(s[..k]) == Links(s)
  {
    hide Links;
    assert s == s[..k] + s[k..];
    LinksAppend(s[..k], s[k..]);
    if LINK !in s[..k] {
      NoLinks(s[..k]);
    }
    if LINK !in s[k..] {
      NoLinks(s[k..]);
    }
  }

  /** Rewriting an unknown item inside leaves a guarded text guarded, and what it will show. */
  lemma UnknownStaysGuarded(cfg: Config, t: bytes)
    requires IsGuarded(t) && Find(cfg, t).Some?
    ensures var f := Find(cfg, t).value;
            IsIn(t, f) && (!IsShown(cfg, IdOf(t, f)) ==>
              IsGuarded(Raw(cfg, t, f)) && (ShowsNothing(cfg, Raw(cfg, t, f)) <==> ShowsNothing(cfg, t)))
  {
    hide Find, IdOf, LinkEnd, IsLinkAt, TrimSpace, Replaced, Rendered;
    TrimmedRaw(cfg, t);
    var f := Find(cfg, t).value;
    LinkBounds(f.shape, t, f.at);
    if !IsShown(cfg, IdOf(t, f)) {
      var raw, end := Raw(cfg, t, f), LinkEnd(f.shape, t, f.at);
      assert raw[0] == t[0] && raw[|raw| - 1] == t[|t| - 1];
      TrimmingShowsNothing(cfg, raw);
    }
  }

  // ----- a URL that shows an item -----

  /** One rewrite of a message with a guarded part that will show an item leaves another one. */
  lemma CopyComesBack(cfg: Config, a: bytes, t: bytes, b: bytes) returns (a': bytes, t': bytes, b': bytes)
    requires cfg.isLegacyLinks && IsClosedUrl(cfg) && !ShowsNothing(cfg, cfg.itemUrl)
    requires IsGuarded(t) && !ShowsNothing(cfg, t)
    ensures Rewritten(cfg, a + t + b) == Some(a' + t' + b')
    ensures IsGuarded(t') && !ShowsNothing(cfg, t')
  {
    hide Find, IdOf, LinkEnd, IsLinkAt, TrimSpace, Replaced, Rendered, IsGuarded, Raw, IsShown, IsClosedUrl;
    var s := a + t + b;
    FoundInPart(cfg, a, t, b);
    TrimmedRaw(cfg, s);
    var f := Find(cfg, s).value;
    BesideOrInside(a, t, b, f);
    var end := LinkEnd(f.shape, s, f.at);
    var left, right;
    LinkBounds(f.shape, s, f.at);
    if end < |a| {
      assert s == [] + a + (t + b);
      RawOfPart(cfg, [], a, t + b, f);
      left, t', right := Raw(cfg, a, f.(at := f.at - 0)), t, b;
      assert [] + left + (t + b) == left + t + b;
    } else if f.at >= |a| + |t| {
      assert s == (a + t) + b + [];
      RawOfPart(cfg, a + t, b, [], f);
      left, t', right := a, t, Raw(cfg, b, f.(at := f.at - |a + t|));
      assert (a + t) + right + [] == a + t + right;
    } else {
      RawOfPart(cfg, a, t, b, f);
      var g := f.(at := f.at - |a|);
      UnknownStaysGuarded(cfg, t);
      if IsShown(cfg, IdOf(t, g)) {
        var x, u, y := ShownInside(cfg, t, g);
        left, t', right := a + x, u, y + b;
        assert a + (x + u + y) + b == left + t' + right;
      } else {
        left, t', right := a, Raw(cfg, t, g), b;
      }
    }
    a', b' := TrimmedAround(left, t', right);
  }

  lemma ShownInside(cfg: Config, s: bytes, f: Found) returns (x: bytes, u: bytes, y: bytes)
    requires cfg.isLegacyLinks && IsClosedUrl(cfg) && IsIn(s, f) && IsShown(cfg, IdOf(s, f))
    ensures Raw(cfg, s, f) == x + u + y && IsGuarded(u)
    ensures ShowsNothing(cfg, u) <==> ShowsNothing(cfg, cfg.itemUrl)
    ensures Links(x) + Links(y) == Links(s) - 2
  {
    hide IdOf, Rendered, IsGuarded, ShowsNothing, Links, IsClosedUrl, IsShown;
    InsideHasNoLink(f.shape, s, f.at);
    LinkBounds(f.shape, s, f.at);
    var end := LinkEnd(f.shape, s, f.at);
    LinksOfMatch(s, f.at, end);
    var p, u', q := ShownIsGuarded(cfg, IdOf(s, f), NameOf(s, f));
    hide LinkEnd, IsLinkAt;
    x, u, y := s[..f.at] + p, u', q + s[end + 1..];
    assert s[..f.at] + (p + u + q) + s[end + 1..] == x + u + y;
    NoLinks(p);
    NoLinks(q);
    LinksAppend(s[..f.at], p);
    LinksAppend(q, s[end + 1..]);
  }

  lemma {:induction false} ShowingUrlNeverEnds(cfg: Config, a: bytes, t: bytes, b: bytes, n: nat)
    requires cfg.isLegacyLinks && IsClosedUrl(cfg) && !ShowsNothing(cfg, cfg.itemUrl)
    requires IsGuarded(t) && !ShowsNothing(cfg, t)
    ensures Rewritten(cfg, Steps(cfg, a + t + b, n)).Some?
    decreases n
  {
    hide Rewritten, ShowsNothing, IsGuarded, IsClosedUrl;
    var a', t', b' := CopyComesBack(cfg, a, t, b);
    if n > 0 {
      ShowingUrlNeverEnds(cfg, a', t', b', n - 1);
    }
  }

  // ----- a URL that shows nothing -----

  /** A message in parts. */
  function Flat(p: seq<bytes>): bytes {
    if p == [] then [] else p[0] + Flat(p[1..])
  }

  lemma {:induction false} FlatAppend(p: seq<bytes>, q: seq<bytes>)
    ensures Flat(p + q) == Flat(p) + Flat(q)
  {
    if p == [] {
      assert p + q == q;
    } else {
      FlatAppend(p[1..], q);
      assert (p + q)[1..] == p[1..] + q && (p + q)[0] == p[0];
      assert (p[0] + Flat(p[1..])) + Flat(q) == p[0] + (Flat(p[1..]) + Flat(q));
    }
  }

  lemma FlatOne(s: bytes)
    ensures Flat([s]) == s
  {
    assert [s][1..] == [];
  }

  lemma FlatParts(l: seq<bytes>, s: bytes, r: seq<bytes>)
    ensures Flat(l + [s] + r) == Flat(l) + s + Flat(r)
  {
    hide Flat;
    FlatAppend(l + [s], r);
    FlatAppend(l, [s]);
    FlatOne(s);
  }

  lemma FlatAround(p: seq<bytes>, j: nat)
    requires j < |p|
    ensures Flat(p) == Flat(p[..j]) + p[j] + Flat(p[j + 1..])
  {
    hide Flat;
    FlatParts(p[..j], p[j], p[j + 1..]);
    InPlace(p, j);
  }

  lemma InPlace<T>(p: seq<T>, j: nat)
    requires j < |p|
    ensures p[..j] + [p[j]] + p[j + 1..] == p
  {
  }

  /** The message's own text and copies of the URL, in turn. */
  ghost predicate IsInTurn(cfg: Config, p: seq<bytes>) {
    |p| % 2 == 1 && forall i :: 0 <= i < |p| && i % 2 == 1 ==> IsCopy(cfg, p[i])
  }

  predicate IsCopy(cfg: Config, t: bytes) {
    IsGuarded(t) && ShowsNothing(cfg, t)
  }

  /** The delimiters outside the copies. */
  function OwnLinks(p: seq<bytes>, isOwn: bool): nat {
    if p == [] then 0 else (if isOwn then Links(p[0]) else 0) + OwnLinks(p[1..], !isOwn)
  }

  lemma {:induction false} OwnLinksAppend(p: seq<bytes>, q: seq<bytes>, isOwn: bool)
    ensures OwnLinks(p + q, isOwn) == OwnLinks(p, isOwn) + OwnLinks(q, isOwn == (|p| % 2 == 0))
  {
    if p == [] {
      assert p + q == q;
    } else {
      OwnLinksAppend(p[1..], q, !isOwn);
      assert (p + q)[1..] == p[1..] + q;
    }
  }

  /** The part that a link lies in. */
  lemma {:induction false} PartOfLink(cfg: Config, p: seq<bytes>, f: Found) returns (j: nat)
    requires IsInTurn(cfg, p) && IsIn(Flat(p), f)
    ensures j < |p| && |Flat(p[..j])| <= f.at && LinkEnd(f.shape, Flat(p), f.at) < |Flat(p[..j])| + |p[j]|
  {
    hide IsLinkAt, LinkEnd, IsGuarded, ShowsNothing;
    LinkBounds(f.shape, Flat(p), f.at);
    if |p| == 1 {
      FlatOne(p[0]);
      assert p == [p[0]];
      j := 0;
    } else {
      var a, t, rest := p[0], p[1], p[2..];
      var b := Flat(rest);
      FlatAround(p, 1);
      FlatOne(a);
      assert p[..1] == [a] && IsCopy(cfg, t);
      BesideOrInside(a, t, b, f);
      if LinkEnd(f.shape, Flat(p), f.at) < |a| {
        j := 0;
      } else if f.at < |a| + |t| {
        j := 1;
      } else {
        assert a + t + b == (a + t) + b + [];
        LinkInPart(f.shape, a + t, b, [], f.at);
        assert IsInTurn(cfg, rest);
        var k := PartOfLink(cfg, rest, f.(at := f.at - |a + t|));
        j := k + 2;
        FlatAppend([a, t], rest[..k]);
        FlatAppend([a], [t]);
        FlatOne(t);
        assert p[..j] == [a, t] + rest[..k] && [a, t] == [a] + [t];
      }
    }
  }

  lemma MiddleIsGuarded(cfg: Config, p: seq<bytes>)
    requires IsInTurn(cfg, p) && |p| > 1
    ensures IsGuarded(Flat(p[1..|p| - 1]))
  {
    hide ShowsNothing;
    var m := p[1..|p| - 1];
    assert IsCopy(cfg, m[0]) && IsCopy(cfg, m[|m| - 1]);
    FlatAround(m, |m| - 1);
    FlatAround(m, 0);
    assert m[|m|..] == [];
    var s := Flat(m);
    assert s == m[0] + Flat(m[1..]);
    assert s[0] == m[0][0];
    assert s[|s| - 1] == m[|m| - 1][|m[|m| - 1]| - 1];
  }

  /** Trimming takes nothing but white space from the first and the last part. */
  lemma TrimmedParts(cfg: Config, p: seq<bytes>) returns (q: seq<bytes>)
    requires IsInTurn(cfg, p)
    ensures IsInTurn(cfg, q) && TrimSpace(Flat(p)) == Flat(q)
    ensures OwnLinks(q, true) == OwnLinks(p, true)
  {
    hide TrimLeft, TrimRight, IsCopy, IsGuarded, Links, Flat;
    if |p| == 1 {
      FlatOne(p[0]);
      q := [TrimSpace(p[0])];
      FlatOne(q[0]);
      assert p == [p[0]];
      TrimLeftKeepsLinks(p[0]);
      TrimRightKeepsLinks(TrimLeft(p[0]));
    } else {
      hide TrimSpace, OwnLinks;
      var last := |p| - 1;
      var mid := p[1..last];
      MiddleIsGuarded(cfg, p);
      assert p == [p[0]] + mid + [p[last]];
      FlatThree(p[0], mid, p[last]);
      var a, b := TrimmedAround(p[0], Flat(mid), p[last]);
      q := [a] + mid + [b];
      FlatThree(a, mid, b);
      OwnThree(p[0], mid, p[last]);
      OwnThree(a, mid, b);
      assert forall i :: 0 < i < last ==> q[i] == p[i];
    }
  }

  lemma FlatThree(a: bytes, mid: seq<bytes>, b: bytes)
    ensures Flat([a] + mid + [b]) == a + Flat(mid) + b
  {
    FlatAppend([a] + mid, [b]);
    FlatAppend([a], mid);
    FlatOne(a);
    FlatOne(b);
  }

  lemma OwnThree(a: bytes, mid: seq<bytes>, b: bytes)
    requires |mid| % 2 == 1
    ensures OwnLinks([a] + mid + [b], true) == Links(a) + OwnLinks(mid, false) + Links(b)
  {
    hide Links, OwnLinks;
    OwnLinksAppend([a] + mid, [b], true);
    OwnLinksAppend([a], mid, true);
    OwnOfText(a);
    OwnOfText(b);
  }

  /** A part in its place. */
  lemma OwnAround(p: seq<bytes>, j: nat, mid: seq<bytes>)
    requires j < |p| && |mid| % 2 == 1
    ensures var q := p[..j] + mid + p[j + 1..];
            && Flat(q) == Flat(p[..j]) + Flat(mid) + Flat(p[j + 1..])
            && OwnLinks(q, true) == OwnLinks(p[..j], true) + OwnLinks(mid, j % 2 == 0)
                                    + OwnLinks(p[j + 1..], j % 2 == 1)
  {
    hide Flat, OwnLinks;
    FlatAppend(p[..j] + mid, p[j + 1..]);
    FlatAppend(p[..j], mid);
    OwnLinksAppend(p[..j] + mid, p[j + 1..], true);
    OwnLinksAppend(p[..j], mid, true);
  }

  /** What one rewrite puts in the place of the part it falls in. */
  lemma RewrittenPart(cfg: Config, p: seq<bytes>, j: nat, g: Found) returns (mid: seq<bytes>)
    requires cfg.isLegacyLinks && IsClosedUrl(cfg) && ShowsNothing(cfg, cfg.itemUrl)
    requires IsInTurn(cfg, p) && j < |p| && Find(cfg, p[j]) == Some(g) && IsIn(p[j], g)
    ensures |mid| % 2 == 1 && Flat(mid) == Raw(cfg, p[j], g)
    ensures IsInTurn(cfg, p[..j] + mid + p[j + 1..])
    ensures j % 2 == 0 ==> OwnLinks(mid, true) < OwnLinks([p[j]], true)
    ensures j % 2 == 1 ==> |mid| == 1 && Links(Flat(mid)) < Links(p[j])
  {
    hide ShowsNothing, Raw, IsGuarded, IsIn, IdOf, Find, Links, IsClosedUrl, IsShown;
    var s := p[j];
    if IsShown(cfg, IdOf(s, g)) {
      assert j % 2 == 0 by {
        if j % 2 == 1 {
          assert IsCopy(cfg, s);
          CopyMeetsNoItem(cfg, s);
        }
      }
      var x, u, y := ShownInside(cfg, s, g);
      mid := [x, u, y];
      assert mid == [x] + [u] + [y];
      FlatThree(x, [u], y);
      FlatOne(u);
      OwnThree(x, [u], y);
      OwnOfCopy(u);
      OwnOfText(s);
    } else {
      UnknownRemovesTwo(cfg, s, g);
      mid := [Raw(cfg, s, g)];
      FlatOne(mid[0]);
      OwnOfText(mid[0]);
      OwnOfText(s);
      if j % 2 == 1 {
        assert IsCopy(cfg, s);
        UnknownStaysGuarded(cfg, s);
      }
    }
    InTurnAround(cfg, p, j, mid);
  }

  lemma CopyMeetsNoItem(cfg: Config, s: bytes)
    requires ShowsNothing(cfg, s) && Find(cfg, s).Some?
    ensures IsIn(s, Find(cfg, s).value) && !IsShown(cfg, IdOf(s, Find(cfg, s).value))
  {
    hide IsShown, IdOf, Replaced;
  }

  lemma InTurnAround(cfg: Config, p: seq<bytes>, j: nat, mid: seq<bytes>)
    requires IsInTurn(cfg, p) && j < |p| && (|mid| == 1 || |mid| == 3)
    requires j % 2 == 1 ==> |mid| == 1 && IsCopy(cfg, mid[0])
    requires |mid| == 3 ==> IsCopy(cfg, mid[1])
    ensures IsInTurn(cfg, p[..j] + mid + p[j + 1..])
  {
    hide IsCopy;
    var q := p[..j] + mid + p[j + 1..];
    forall i | 0 <= i < |q| && i % 2 == 1 ensures IsCopy(cfg, q[i]) {
      if i < j {
        assert q[i] == p[i];
      } else if i < j + |mid| {
        assert q[i] == mid[i - j];
      } else {
        assert q[i] == p[i - |mid| + 1];
      }
    }
  }

  /** One rewrite, with the parts it leaves: fewer delimiters of the message's own, or as many and
      fewer in the copies. */
  lemma RewrittenInTurn(cfg: Config, p: seq<bytes>) returns (q: seq<bytes>)
    requires cfg.isLegacyLinks && IsClosedUrl(cfg) && ShowsNothing(cfg, cfg.itemUrl)
    requires IsInTurn(cfg, p) && Rewritten(cfg, Flat(p)).Some?
    ensures IsInTurn(cfg, q) && Rewritten(cfg, Flat(p)) == Some(Flat(q))
    ensures OwnLinks(q, true) < OwnLinks(p, true)
            || (OwnLinks(q, true) == OwnLinks(p, true) && Links(Flat(q)) < Links(Flat(p)))
  {
    hide ShowsNothing, Raw, IsIn, Find, Replaced, IsClosedUrl, IsInTurn, Flat, OwnLinks, LinkEnd, Links, TrimSpace;
    var s := Flat(p);
    TrimmedRaw(cfg, s);
    var f := Find(cfg, s).value;
    var j := PartOfLink(cfg, p, f);
    var a, c, b := Flat(p[..j]), p[j], Flat(p[j + 1..]);
    FlatAround(p, j);
    FoundInPart(cfg, a, c, b);
    RawOfPart(cfg, a, c, b, f);
    var mid := RewrittenPart(cfg, p, j, f.(at := f.at - |a|));
    var t := p[..j] + mid + p[j + 1..];
    OwnAround(p, j, mid);
    OwnAround(p, j, [c]);
    assert p[..j] + [c] + p[j + 1..] == p;
    q := TrimmedParts(cfg, t);
    TrimKeepsLinks(Flat(t));
    LinksAppend3(a, Flat(mid), b);
    LinksAppend3(a, c, b);
    if j % 2 == 1 {
      OwnOfCopy(mid[0]);
      OwnOfCopy(c);
      assert mid == [mid[0]];
    }
  }

  lemma OwnOfText(s: bytes)
    ensures OwnLinks([s], true) == Links(s)
  {
    hide Links;
    assert [s][1..] == [];
  }

  lemma OwnOfCopy(s: bytes)
    ensures OwnLinks([s], false) == 0
  {
    assert [s][1..] == [];
  }

  lemma TrimKeepsLinks(s: bytes)
    ensures Links(TrimSpace(s)) == Links(s)
  {
    hide Links;
    TrimLeftKeepsLinks(s);
    TrimRightKeepsLinks(TrimLeft(s));
  }

  lemma {:induction false} EndsInTurn(cfg: Config, p: seq<bytes>) returns (n: nat)
    requires cfg.isLegacyLinks && IsClosedUrl(cfg) && ShowsNothing(cfg, cfg.itemUrl) && IsInTurn(cfg, p)
    ensures Rewritten(cfg, Steps(cfg, Flat(p), n)).None?
    decreases OwnLinks(p, true), Links(Flat(p))
  {
    hide Rewritten, ShowsNothing, IsClosedUrl, IsInTurn, Flat, OwnLinks, Links;
    if Rewritten(cfg, Flat(p)).None? {
      n := 0;
    } else {
      var q := RewrittenInTurn(cfg, p);
      var k := EndsInTurn(cfg, q);
      n := k + 1;
    }
  }

  // ----- the condition -----

  /** Outside the legacy style, and in it when the URL stands between fences, rewriting ends on
      every message if and only if the URL rewritten on its own never brings itself in. */
  lemma EndsUnlessUrlShowsItem(cfg: Config)
    requires !cfg.isLegacyLinks || IsClosedUrl(cfg) || Links(cfg.itemUrl) < 2
    ensures (forall s :: Ends(cfg, s)) <==> ShowsNothing(cfg, cfg.itemUrl)
  {
    hide Rewritten, ShowsNothing, IsClosedUrl, Links, Flat;
    if !cfg.isLegacyLinks {
      EndsExactly(cfg);
      UrlIsAlwaysShown(cfg, cfg.itemUrl);
    } else if Links(cfg.itemUrl) < 2 {
      forall s ensures Ends(cfg, s) {
        var n := FewDelimitersEnd(cfg, s);
      }
      FewShowNothing(cfg, cfg.itemUrl);
    } else if ShowsNothing(cfg, cfg.itemUrl) {
      forall s ensures Ends(cfg, s) {
        FlatOne(s);
        var n := EndsInTurn(cfg, [s]);
      }
    } else {
      var t := [0x3C] + cfg.itemUrl + [0x3E];
      PaddingShowsNothing(cfg, [0x3C], cfg.itemUrl, [0x3E]);
      BracketsGuard(cfg.itemUrl);
      assert [] + t + [] == t;
      forall n: nat ensures Rewritten(cfg, Steps(cfg, t, n)).Some? {
        ShowingUrlNeverEnds(cfg, [], t, [], n);
      }
      assert !Ends(cfg, t);
    }
  }

  lemma UrlIsAlwaysShown(cfg: Config, s: bytes)
    requires !cfg.isLegacyLinks
    ensures ShowsNothing(cfg, s) <==> Rewritten(cfg, s).None?
  {
    hide Find, Replaced, IdOf;
    TrimmedRaw(cfg, s);
  }

  lemma FewShowNothing(cfg: Config, s: bytes)
    requires Links(s) < 2
    ensures ShowsNothing(cfg, s)
  {
    hide Find, Replaced, IdOf, Links;
    TrimmedRaw(cfg, s);
    if Find(cfg, s).Some? {
      RewriteRemovesTwo(cfg, s);
    }
  }
}
