/** Exactly when rewriting item links comes to an end (telnet/telnet_msg.go).

A rewrite puts a copy of the item URL into the message. The number of delimiters need not fall
then, but those that came with the message do, as long as the URL itself is nothing to rewrite and
no link can begin before a copy of it and end inside.
*/
module ItemLinksEnd {
  import opened Bytes
  import opened Utf8
  import opened ItemLinks
  import Unicode
  import opened Wrappers

  /** A byte that stands in no link of any format. */
  predicate IsFence(b: byte) {
    b != LINK && !IsNameByte(Shape(0, 0, true), b)
  }

  // ----- links and trimming, inside a longer text -----

  /** Where the link at `i` closes. */
  function LinkEnd(shape: Shape, s: bytes, i: nat): nat
    requires IsLinkAt(shape, s, i)
  {
    NameEnd(shape, s, NameStart(shape, i))
  }

  /** The same bytes read at another place: if `b` holds at `j` what `a` holds at `i`, up to a byte
      that ends the name, the name ends alike. */
  lemma {:induction false} SameNameEnd(shape: Shape, a: bytes, b: bytes, i: nat, j: nat)
    requires i <= |a| && j <= |b|
    requires var e := NameEnd(shape, a, i);
             e < |a| && j + e - i < |b| && forall q :: i <= q <= e ==> a[q] == b[j + q - i]
    ensures NameEnd(shape, b, j) == j + NameEnd(shape, a, i) - i
    decreases |a| - i
  {
    if IsNameByte(shape, a[i]) {
      SameNameEnd(shape, a, b, i + 1, j + 1);
    }
  }

  lemma SameLink(shape: Shape, a: bytes, b: bytes, i: nat, j: nat)
    requires IsLinkAt(shape, a, i)
    requires var e := LinkEnd(shape, a, i);
             j + e - i < |b| && forall q :: i <= q <= e ==> a[q] == b[j + q - i]
    ensures IsLinkAt(shape, b, j) && LinkEnd(shape, b, j) == j + LinkEnd(shape, a, i) - i
  {
    SameNameEnd(shape, a, b, NameStart(shape, i), NameStart(shape, j));
    assert b[j] == a[i];
    forall k | j < k < NameStart(shape, j) ensures IsDigitOrUpper(b[k]) {
      assert b[k] == a[i + k - j];
    }
  }

  /** Between its delimiters a link holds no fence and no delimiter. */
  lemma InsideLink(shape: Shape, s: bytes, i: nat, q: nat)
    requires IsLinkAt(shape, s, i) && i < q < LinkEnd(shape, s, i)
    ensures !IsFence(s[q]) && s[q] != LINK
  {
  }

  lemma {:induction false} TrimLeftIsSuffix(s: bytes) returns (x: nat)
    ensures x <= |s| && TrimLeft(s) == s[x..] && forall q :: 0 <= q < x ==> !IsSolid(s[q])
  {
    if s != [] && Unicode.IsSpace(Decode(s).value) {
      var w := Decode(s).width;
      SpaceRuneHasNoLink(s);
      var y := TrimLeftIsSuffix(s[w..]);
      x := w + y;
      assert forall q :: w <= q < x ==> s[q] == s[w..][q - w];
    } else {
      x := 0;
    }
  }

  lemma {:induction false} TrimRightIsPrefix(s: bytes) returns (y: nat)
    ensures y <= |s| && TrimRight(s) == s[..y] && forall q :: y <= q < |s| ==> !IsSolid(s[q])
  {
    hide TrailingSpace;
    var w := TrailingSpace(s);
    if w > 0 {
      TrailingSpaceHasNoLink(s);
      y := TrimRightIsPrefix(s[..|s| - w]);
      assert forall q :: y <= q < |s| - w ==> s[q] == s[..|s| - w][q];
    } else {
      y := |s|;
    }
  }

  /** Trimming keeps a slice that holds every delimiter and all that is visible. */
  lemma TrimIsSlice(s: bytes) returns (x: nat, y: nat)
    ensures x <= y <= |s| && TrimSpace(s) == s[x..y]
    ensures forall q :: 0 <= q < |s| && IsSolid(s[q]) ==> x <= q < y
    ensures forall q :: 0 <= q < |s| && s[q] == LINK ==> x <= q < y
  {
    hide TrimLeft, TrimRight;
    x := TrimLeftIsSuffix(s);
    var n := TrimRightIsPrefix(s[x..]);
    y := x + n;
    assert s[x..][..n] == s[x..y];
    assert forall q :: y <= q < |s| ==> s[q] == s[x..][q - x];
  }

  // ----- what a rewrite puts in -----

  /** The URL is shown: always outside the legacy style, and there only for a known item. */
  predicate IsShown(cfg: Config, id: nat) {
    !cfg.isLegacyLinks || (id > 0 && cfg.itemUrl != [])
  }

  /** What stands before and after the item URL in a replacement. */
  function Before(cfg: Config, id: nat, name: bytes): bytes {
    (if !IsShown(cfg, id) then [0x2A] + name + [0x2A, 0x20]
     else if cfg.isLegacyLinks then []
     else [0x5B] + name + [0x5D, 0x28])
    + if !IsShown(cfg, id) || cfg.isLinksEmbedded then [] else [0x3C]
  }

  function Behind(cfg: Config, id: nat, name: bytes): bytes {
    if !IsShown(cfg, id) then []
    else
      Decimal(id) + (if cfg.isLinksEmbedded then [] else [0x3E])
      + if cfg.isLegacyLinks then [0x20, 0x28] + name + [0x29] else [0x29]
  }

  function Inserted(cfg: Config, id: nat): bytes {
    if IsShown(cfg, id) then cfg.itemUrl else []
  }

  /** A message with the stretch from `at` to `end` replaced. */
  function Spliced(s: bytes, at: nat, end: nat, before: bytes, u: bytes, behind: bytes): bytes
    requires at <= end < |s|
  {
    s[..at] + before + u + behind + s[end + 1..]
  }

  ghost predicate HasFence(s: bytes) {
    exists f :: 0 <= f < |s| && IsFence(s[f])
  }

  /** No link can begin before a copy of the URL and end inside: a fence is put before it, or it
      has one before its first delimiter. */
  ghost predicate IsFencedUrl(cfg: Config) {
    || !cfg.isLegacyLinks || !cfg.isLinksEmbedded
    || forall k :: 0 <= k < |cfg.itemUrl| && cfg.itemUrl[k] == LINK ==> HasFence(cfg.itemUrl[..k])
  }

  /** Every delimiter of `u` has a fence before it, in `before` or in `u`. */
  ghost predicate IsBehindFence(before: bytes, u: bytes) {
    forall k :: 0 <= k < |u| && u[k] == LINK ==> HasFence(before) || HasFence(u[..k])
  }

  lemma RewriteIsSplice(cfg: Config, s: bytes)
    returns (f: Found, before: bytes, u: bytes, behind: bytes, x: nat, y: nat)
    requires Rewritten(cfg, s).Some?
    ensures Find(cfg, s) == Some(f)
    ensures f.at < |s| && IsLinkAt(f.shape, s, f.at) && IsConfigured(cfg, f.shape)
    ensures f.at <= LinkEnd(f.shape, s, f.at) < |s|
    ensures LINK !in before && LINK !in behind
    ensures (u == cfg.itemUrl || u == []) && (!cfg.isLegacyLinks ==> u == cfg.itemUrl)
    ensures NameStart(f.shape, f.at) < |s|
            && (IsShown(cfg, ItemId(s[f.at + 1..f.at + 1 + f.shape.idLength])) ==> u == cfg.itemUrl)
    ensures IsFencedUrl(cfg) ==> IsBehindFence(before, u)
    ensures var t := Spliced(s, f.at, LinkEnd(f.shape, s, f.at), before, u, behind);
            && x <= y <= |t| && Rewritten(cfg, s).value == t[x..y]
            && forall q :: 0 <= q < |t| && t[q] == LINK ==> x <= q < y
  {
    hide NameEnd, Find, TrimSpace, Rendered, ItemId, Before, Behind, Inserted, IsLinkAt, IsFencedUrl, IsBehindFence;
    f := Find(cfg, s).value;
    FoundIsConfigured(cfg, s);
    var start := NameStart(f.shape, f.at);
    var end := LinkEnd(f.shape, s, f.at);
    LinkBounds(f.shape, s, f.at);
    var id := ItemId(s[f.at + 1..f.at + 1 + f.shape.idLength]);
    var name := s[start..end];
    InsideHasNoLink(f.shape, s, f.at);
    before, u, behind := Before(cfg, id, name), Inserted(cfg, id), Behind(cfg, id, name);
    var t := Spliced(s, f.at, end, before, u, behind);
    RenderedAround(cfg, id, name);
    InsertedIsFenced(cfg, id, name);
    assert s[..f.at] + Rendered(cfg, id, name) + s[end + 1..] == t;
    x, y := TrimIsSlice(t);
  }

  lemma FoundIsConfigured(cfg: Config, s: bytes)
    requires Find(cfg, s).Some?
    ensures IsConfigured(cfg, Find(cfg, s).value.shape)
  {
    hide FindFrom;
  }

  lemma RenderedAround(cfg: Config, id: nat, name: bytes)
    ensures Rendered(cfg, id, name) == Before(cfg, id, name) + Inserted(cfg, id) + Behind(cfg, id, name)
    ensures LINK !in name ==> LINK !in Before(cfg, id, name) && LINK !in Behind(cfg, id, name)
  {
    hide Decimal;
    if !IsShown(cfg, id) {
      assert Before(cfg, id, name) + [] + [] == [0x2A] + name + [0x2A, 0x20];
    } else {
      ShownAround(cfg, id, name);
    }
  }

  lemma ShownAround(cfg: Config, id: nat, name: bytes)
    requires IsShown(cfg, id)
    ensures Rendered(cfg, id, name) == Before(cfg, id, name) + cfg.itemUrl + Behind(cfg, id, name)
  {
    hide Decimal;
    var number := Decimal(id);
    if cfg.isLegacyLinks {
      var tail := [0x20, 0x28] + name + [0x29];
      assert Shown(cfg, id) + [0x20, 0x28] + name + [0x29] == Shown(cfg, id) + tail;
    }
  }

  lemma InsertedIsFenced(cfg: Config, id: nat, name: bytes)
    ensures Inserted(cfg, id) == cfg.itemUrl || Inserted(cfg, id) == []
    ensures IsShown(cfg, id) ==> Inserted(cfg, id) == cfg.itemUrl
    ensures !cfg.isLegacyLinks ==> Inserted(cfg, id) == cfg.itemUrl
    ensures IsFencedUrl(cfg) ==> IsBehindFence(Before(cfg, id, name), Inserted(cfg, id))
  {
    var before := Before(cfg, id, name);
    if IsShown(cfg, id) && !cfg.isLegacyLinks {
      assert before[0] == 0x5B;
    } else if IsShown(cfg, id) && !cfg.isLinksEmbedded {
      assert before[0] == 0x3C;
    }
  }

  // ----- a URL with a link in it -----

  lemma UrlLinkComesBack(cfg: Config, s: bytes, shape: Shape, k: nat)
    requires !cfg.isLegacyLinks && Rewritten(cfg, s).Some?
    requires IsLinkAt(shape, cfg.itemUrl, k)
    ensures HasLink(shape, Rewritten(cfg, s).value)
  {
    hide IsLinkAt, LinkEnd, Rewritten, IsFencedUrl, IsBehindFence;
    var f, before, u, behind, x, y := RewriteIsSplice(cfg, s);
    LinkBounds(shape, u, k);
    var e := LinkEnd(shape, u, k);
    var at := f.at + |before|;
    LinkBounds(f.shape, s, f.at);
    var t := Spliced(s, f.at, LinkEnd(f.shape, s, f.at), before, u, behind);
    PartsAt(s[..f.at], before, u, behind, s[LinkEnd(f.shape, s, f.at) + 1..]);
    hide Spliced;
    assert t[at + k] == u[k] == LINK && t[at + e] == u[e] == LINK;
    var w := t[x..y];
    assert forall q :: k <= q <= e ==> w[at + q - x] == u[q];
    SameLink(shape, u, w, k, at + k - x);
  }

  lemma LinkBounds(shape: Shape, s: bytes, i: nat)
    requires IsLinkAt(shape, s, i)
    ensures i < LinkEnd(shape, s, i) < |s| && s[i] == LINK && s[LinkEnd(shape, s, i)] == LINK
  {
  }

  lemma LinkMeansRewriting(cfg: Config, s: bytes, shape: Shape)
    requires IsConfigured(cfg, shape) && HasLink(shape, s)
    ensures Rewritten(cfg, s).Some?
  {
  }

  /** When the URL holds a link, a message with a link is rewritten for ever. */
  lemma {:induction false} LinkInUrlNeverEnds(cfg: Config, s: bytes, shape: Shape, k: nat, n: nat)
    requires !cfg.isLegacyLinks && IsConfigured(cfg, shape) && IsLinkAt(shape, cfg.itemUrl, k)
    requires Rewritten(cfg, s).Some?
    ensures Rewritten(cfg, Steps(cfg, s, n)).Some?
    decreases n
  {
    hide Rewritten, IsLinkAt;
    if n > 0 {
      UrlLinkComesBack(cfg, s, shape, k);
      LinkMeansRewriting(cfg, Step(cfg, s), shape);
      LinkInUrlNeverEnds(cfg, Step(cfg, s), shape, k, n - 1);
    }
  }

  // ----- a URL without a link in it -----

  /** A fence lies strictly between `i` and `j`. No link crosses one. */
  ghost predicate IsFenced(s: bytes, i: int, j: int) {
    exists q :: 0 <= q < |s| && i < q < j && IsFence(s[q])
  }

  ghost predicate IsRun(m: seq<int>, i: nat, j: nat)
    requires i <= j < |m|
  {
    forall q :: i <= q <= j ==> m[q] == m[i] + q - i
  }

  /** Bytes of one run of the URL, or a fence in between. */
  ghost predicate IsApart(s: bytes, m: seq<int>, i: nat, j: nat)
    requires i < j < |m|
  {
    (m[i] >= 0 && IsRun(m, i, j)) || IsFenced(s, i, j)
  }

  ghost predicate IsCopied(u: bytes, s: bytes, m: seq<int>) {
    |s| == |m| && forall i :: 0 <= i < |m| && m[i] >= 0 ==> m[i] < |u| && s[i] == u[m[i]]
  }

  /** A fence stands before every delimiter of the URL, after all delimiters but those of the same
      run. */
  ghost predicate IsSeparated(s: bytes, m: seq<int>)
    requires |s| == |m|
  {
    forall i, j :: 0 <= i < j < |m| && m[j] >= 0 && s[i] == LINK && s[j] == LINK ==> IsApart(s, m, i, j)
  }

  /** `m` tells where each byte comes from: below 0 for the message, otherwise its index in the
      URL. Bytes of the URL stand in runs as in the URL. */
  ghost predicate IsMarked(u: bytes, s: bytes, m: seq<int>) {
    IsCopied(u, s, m) && IsSeparated(s, m)
  }

  /** The delimiters that came with the message. */
  function Own(s: bytes, m: seq<int>): nat
    requires |s| == |m|
  {
    if s == [] then 0 else (if s[0] == LINK && m[0] < 0 then 1 else 0) + Own(s[1..], m[1..])
  }

  lemma {:induction false} OwnAppend(a: bytes, am: seq<int>, b: bytes, bm: seq<int>)
    requires |a| == |am| && |b| == |bm|
    ensures Own(a + b, am + bm) == Own(a, am) + Own(b, bm)
  {
    if a == [] {
      assert a + b == b && am + bm == bm;
    } else {
      assert (a + b)[1..] == a[1..] + b && (am + bm)[1..] == am[1..] + bm;
      OwnAppend(a[1..], am[1..], b, bm);
    }
  }

  lemma {:induction false} NoOwn(s: bytes, m: seq<int>)
    requires |s| == |m| && forall i :: 0 <= i < |s| ==> s[i] != LINK || m[i] >= 0
    ensures Own(s, m) == 0
  {
    if s != [] {
      NoOwn(s[1..], m[1..]);
    }
  }

  /** When the URL holds no link, the closing delimiter of a link is the message's own. */
  lemma ClosingIsOwn(cfg: Config, shape: Shape, s: bytes, m: seq<int>, i: nat)
    requires IsMarked(cfg.itemUrl, s, m) && IsLinkAt(shape, s, i) && !HasLink(shape, cfg.itemUrl)
    ensures m[LinkEnd(shape, s, i)] < 0
  {
    hide IsLinkAt, LinkEnd;
    LinkBounds(shape, s, i);
    var e := LinkEnd(shape, s, i);
    if m[e] >= 0 {
      NotFenced(shape, s, i);
      assert IsApart(s, m, i, e);
      SameLink(shape, s, cfg.itemUrl, i, m[i]);
      assert false;
    }
  }

  lemma NotFenced(shape: Shape, s: bytes, i: nat)
    requires IsLinkAt(shape, s, i)
    ensures !IsFenced(s, i, LinkEnd(shape, s, i))
  {
    hide IsLinkAt, LinkEnd;
    LinkBounds(shape, s, i);
    forall q | i < q < LinkEnd(shape, s, i) ensures !IsFence(s[q]) {
      InsideLink(shape, s, i, q);
    }
  }

  function Copied(n: nat): seq<int> {
    seq(n, k => k)
  }

  function Plain(n: nat): seq<int> {
    seq(n, _ => -1)
  }

  /** The marks after a replacement. */
  function SplicedMarks(m: seq<int>, at: nat, end: nat, before: bytes, u: bytes, behind: bytes): seq<int>
    requires at <= end < |m|
  {
    m[..at] + Plain(|before|) + Copied(|u|) + Plain(|behind|) + m[end + 1..]
  }

  /** What holds between two places holds between the places the stretch was moved to. */
  lemma SameStretch(s: bytes, m: seq<int>, t: bytes, n: seq<int>, i: nat, j: nat, d: int)
    requires |s| == |m| && |t| == |n| && i < j < |t| && 0 <= i + d && j + d < |s|
    requires forall q :: i <= q <= j ==> t[q] == s[q + d] && n[q] == m[q + d]
    requires IsApart(s, m, i + d, j + d)
    ensures IsApart(t, n, i, j)
  {
    if IsFenced(s, i + d, j + d) {
      var q :| 0 <= q < |s| && i + d < q < j + d && IsFence(s[q]);
      assert IsFence(t[q - d]);
    } else {
      forall q | i <= q <= j ensures n[q] == n[i] + q - i {
        assert m[q + d] == m[i + d] + (q + d) - (i + d);
      }
    }
  }

  /** A replacement seen place by place: the left of the message, `before` from `at` on, the URL
      from `first` on, `behind` from `last` on, and the right of the message from `rest` on, moved
      by `shift`. A fence stands before every delimiter of the URL. */
  ghost predicate IsLaidOut(u: bytes, s: bytes, m: seq<int>, t: bytes, n: seq<int>, at: nat, first: nat,
                            last: nat, rest: nat, shift: int)
  {
    && |s| == |m| && |t| == |n| == |s| - shift
    && at <= first <= last <= rest <= |t| && last <= first + |u| && 0 <= rest + shift && at <= |s|
    && (forall q :: 0 <= q < at ==> t[q] == s[q] && n[q] == m[q])
    && (forall q :: at <= q < first ==> t[q] != LINK && n[q] < 0)
    && (forall q :: first <= q < last ==> t[q] == u[q - first] && n[q] == q - first)
    && (forall q :: first <= q < last && t[q] == LINK ==> IsFenced(t, at - 1, q))
    && (forall q :: last <= q < rest ==> t[q] != LINK && n[q] < 0)
    && (forall q :: rest <= q < |t| ==> t[q] == s[q + shift] && n[q] == m[q + shift])
  }

  /** A sequence of five parts, place by place. */
  lemma PartsAt<T>(a: seq<T>, b: seq<T>, c: seq<T>, d: seq<T>, e: seq<T>)
    ensures var t := a + b + c + d + e;
            var first := |a| + |b|;
            var rest := first + |c| + |d|;
            && |t| == rest + |e|
            && (forall q :: 0 <= q < |a| ==> t[q] == a[q])
            && (forall q :: |a| <= q < first ==> t[q] == b[q - |a|])
            && (forall q :: first <= q < first + |c| ==> t[q] == c[q - first])
            && (forall q :: first + |c| <= q < rest ==> t[q] == d[q - first - |c|])
            && (forall q :: rest <= q < |t| ==> t[q] == e[q - rest])
  {
  }

  lemma CopyIsFenced(t: bytes, at: nat, first: nat, before: bytes, u: bytes)
    requires first == at + |before| && first + |u| <= |t| && IsBehindFence(before, u)
    requires forall q :: at <= q < first ==> t[q] == before[q - at]
    requires forall q :: first <= q < first + |u| ==> t[q] == u[q - first]
    ensures forall q :: first <= q < first + |u| && t[q] == LINK ==> IsFenced(t, at - 1, q)
  {
    forall q | first <= q < first + |u| && t[q] == LINK ensures IsFenced(t, at - 1, q) {
      if HasFence(before) {
        var f :| 0 <= f < |before| && IsFence(before[f]);
        assert t[at + f] == before[f] && IsFence(t[at + f]);
      } else {
        var f :| 0 <= f < q - first && IsFence(u[..q - first][f]);
        assert t[first + f] == u[f] && IsFence(t[first + f]);
      }
    }
  }

  lemma SpliceIsLaidOut(url: bytes, s: bytes, m: seq<int>, at: nat, end: nat, before: bytes, u: bytes, behind: bytes)
    requires |s| == |m| && at < end < |s| && LINK !in before && LINK !in behind
    requires u <= url && IsBehindFence(before, u)
    ensures var first := at + |before|;
            var rest := first + |u| + |behind|;
            IsLaidOut(url, s, m, Spliced(s, at, end, before, u, behind),
                      SplicedMarks(m, at, end, before, u, behind), at, first, first + |u|, rest, end + 1 - rest)
  {
    hide IsFenced, IsBehindFence;
    var t, n := Spliced(s, at, end, before, u, behind), SplicedMarks(m, at, end, before, u, behind);
    PartsAt(s[..at], before, u, behind, s[end + 1..]);
    PartsAt(m[..at], Plain(|before|), Copied(|u|), Plain(|behind|), m[end + 1..]);
    hide Spliced, SplicedMarks;
    CopyIsFenced(t, at, at + |before|, before, u);
  }

  lemma LaidOutIsCopied(u: bytes, s: bytes, m: seq<int>, t: bytes, n: seq<int>, at: nat, first: nat,
                        last: nat, rest: nat, shift: int)
    requires IsLaidOut(u, s, m, t, n, at, first, last, rest, shift) && IsCopied(u, s, m)
    ensures IsCopied(u, t, n)
  {
  }

  lemma PairAfterSplice(u: bytes, s: bytes, m: seq<int>, t: bytes, n: seq<int>, at: nat, first: nat,
                        last: nat, rest: nat, shift: int, i: nat, j: nat)
    requires IsLaidOut(u, s, m, t, n, at, first, last, rest, shift) && IsMarked(u, s, m)
    requires at < rest + shift - 1 < |s| && s[rest + shift - 1] == LINK && m[rest + shift - 1] < 0
    requires i < j < |n| && n[j] >= 0 && t[i] == LINK && t[j] == LINK
    ensures IsApart(t, n, i, j)
  {
    var end := rest + shift - 1;
    if j < at {
      assert IsApart(s, m, i, j);
      SameStretch(s, m, t, n, i, j, 0);
    } else if i < at && j < last {
      var q :| 0 <= q < |t| && at - 1 < q < j && IsFence(t[q]);
      assert i < q;
    } else if j < last {
      assert IsRun(n, i, j);
    } else if i < rest {
      assert m[j + shift] >= 0 && IsApart(s, m, end, j + shift);
      var q :| 0 <= q < |s| && end < q < j + shift && IsFence(s[q]);
      assert IsFence(t[q - shift]);
    } else {
      assert IsApart(s, m, i + shift, j + shift);
      SameStretch(s, m, t, n, i, j, shift);
    }
  }

  lemma SpliceKeepsMarks(url: bytes, s: bytes, m: seq<int>, at: nat, end: nat, before: bytes, u: bytes, behind: bytes)
    requires IsMarked(url, s, m) && at < end < |s| && s[end] == LINK && m[end] < 0
    requires LINK !in before && LINK !in behind && u <= url && IsBehindFence(before, u)
    ensures IsMarked(url, Spliced(s, at, end, before, u, behind), SplicedMarks(m, at, end, before, u, behind))
  {
    hide Spliced, SplicedMarks, IsApart, IsCopied, IsLaidOut, IsBehindFence;
    CopiedLength(url, s, m);
    var t, n := Spliced(s, at, end, before, u, behind), SplicedMarks(m, at, end, before, u, behind);
    var first := at + |before|;
    var rest := first + |u| + |behind|;
    SpliceIsLaidOut(url, s, m, at, end, before, u, behind);
    LaidOutIsCopied(url, s, m, t, n, at, first, first + |u|, rest, end + 1 - rest);
    CopiedLength(url, t, n);
    forall i: nat, j: nat | i < j < |n| && n[j] >= 0 && t[i] == LINK && t[j] == LINK
      ensures IsApart(t, n, i, j)
    {
      PairAfterSplice(url, s, m, t, n, at, first, first + |u|, rest, end + 1 - rest, i, j);
    }
  }

  lemma SliceKeepsMarks(u: bytes, s: bytes, m: seq<int>, x: nat, y: nat)
    requires IsMarked(u, s, m) && x <= y <= |s|
    ensures IsMarked(u, s[x..y], m[x..y])
  {
    hide IsApart;
    var t, n := s[x..y], m[x..y];
    forall i: nat, j: nat | i < j < |n| && n[j] >= 0 && t[i] == LINK && t[j] == LINK ensures IsApart(t, n, i, j) {
      assert IsApart(s, m, i + x, j + x);
      SameStretch(s, m, t, n, i, j, x);
    }
  }

  lemma SliceOwns(s: bytes, m: seq<int>, x: nat, y: nat)
    requires |s| == |m| && x <= y <= |s|
    ensures Own(s[x..y], m[x..y]) <= Own(s, m)
  {
    hide Own;
    OwnAppend(s[..x], m[..x], s[x..y], m[x..y]);
    OwnAppend(s[..y], m[..y], s[y..], m[y..]);
    assert s[..x] + s[x..y] == s[..y] && m[..x] + m[x..y] == m[..y];
    assert s[..y] + s[y..] == s && m[..y] + m[y..] == m;
  }

  /** A replacement brings no delimiter of the message's own, and takes the closing one away. */
  lemma SpliceOwnsLess(s: bytes, m: seq<int>, at: nat, end: nat, before: bytes, u: bytes, behind: bytes)
    requires |s| == |m| && at < end < |s| && s[end] == LINK && m[end] < 0
    requires LINK !in before && LINK !in behind
    ensures Own(Spliced(s, at, end, before, u, behind), SplicedMarks(m, at, end, before, u, behind)) < Own(s, m)
  {
    hide Own;
    var mid := before + u + behind;
    var marks := Plain(|before|) + Copied(|u|) + Plain(|behind|);
    NoOwn(mid, marks);
    OwnOfMiddle(s[..at], m[..at], mid, marks, s[end + 1..], m[end + 1..]);
    assert Spliced(s, at, end, before, u, behind) == s[..at] + mid + s[end + 1..];
    assert SplicedMarks(m, at, end, before, u, behind) == m[..at] + marks + m[end + 1..];
    OwnAroundClosing(s, m, at, end);
  }

  lemma OwnAroundClosing(s: bytes, m: seq<int>, at: nat, end: nat)
    requires |s| == |m| && at < end < |s| && s[end] == LINK && m[end] < 0
    ensures Own(s[..at], m[..at]) + Own(s[end + 1..], m[end + 1..]) < Own(s, m)
  {
    OwnOne(s[end], m[end]);
    hide Own;
    var a, am, c, cm := s[..end], m[..end], s[end + 1..], m[end + 1..];
    OwnOfMiddle(a, am, [s[end]], [m[end]], c, cm);
    assert s == a + [s[end]] + c && m == am + [m[end]] + cm;
    SliceOwns(a, am, 0, at);
    assert a[0..at] == s[..at] && am[0..at] == m[..at];
  }

  lemma OwnOne(b: byte, mark: int)
    requires b == LINK && mark < 0
    ensures Own([b], [mark]) == 1
  {
    assert Own([b][1..], [mark][1..]) == 0;
  }

  lemma OwnOfMiddle(a: bytes, am: seq<int>, b: bytes, bm: seq<int>, c: bytes, cm: seq<int>)
    requires |a| == |am| && |b| == |bm| && |c| == |cm|
    ensures Own(a + b + c, am + bm + cm) == Own(a, am) + Own(b, bm) + Own(c, cm)
  {
    OwnAppend(a + b, am + bm, c, cm);
    OwnAppend(a, am, b, bm);
  }

  /** The item URL holds no link of any format in use. */
  ghost predicate IsPlainUrl(cfg: Config) {
    forall shape {:trigger HasLink(shape, cfg.itemUrl)} ::
      IsConfigured(cfg, shape) ==> !HasLink(shape, cfg.itemUrl)
  }

  /** One rewrite, with the marks it leaves. */
  lemma RewriteOwnsLess(cfg: Config, s: bytes, m: seq<int>) returns (n: seq<int>)
    requires IsFencedUrl(cfg) && IsMarked(cfg.itemUrl, s, m) && Rewritten(cfg, s).Some?
    requires IsPlainUrl(cfg)
    ensures IsMarked(cfg.itemUrl, Rewritten(cfg, s).value, n)
    ensures |n| == |Rewritten(cfg, s).value| && Own(Rewritten(cfg, s).value, n) < Own(s, m)
  {
    hide Rewritten, IsLinkAt, LinkEnd, IsCopied, IsSeparated, HasLink, Spliced, SplicedMarks;
    hide IsFencedUrl, IsBehindFence;
    var f, before, u, behind, x, y := RewriteIsSplice(cfg, s);
    var url, end := cfg.itemUrl, LinkEnd(f.shape, s, f.at);
    LinkBounds(f.shape, s, f.at);
    CopiedLength(url, s, m);
    ClosingIsOwn(cfg, f.shape, s, m, f.at);
    var t, all := Spliced(s, f.at, end, before, u, behind), SplicedMarks(m, f.at, end, before, u, behind);
    SpliceKeepsMarks(url, s, m, f.at, end, before, u, behind);
    SpliceOwnsLess(s, m, f.at, end, before, u, behind);
    CopiedLength(url, t, all);
    n := all[x..y];
    SliceKeepsMarks(url, t, all, x, y);
    SliceOwns(t, all, x, y);
  }

  lemma CopiedLength(u: bytes, s: bytes, m: seq<int>)
    requires IsCopied(u, s, m)
    ensures |s| == |m|
  {
  }

  lemma {:induction false} EndsWhenMarked(cfg: Config, s: bytes, m: seq<int>) returns (n: nat)
    requires IsFencedUrl(cfg) && IsMarked(cfg.itemUrl, s, m) && |s| == |m|
    requires IsPlainUrl(cfg)
    ensures Rewritten(cfg, Steps(cfg, s, n)).None?
    decreases Own(s, m)
  {
    hide Rewritten, IsMarked, IsFencedUrl;
    if Rewritten(cfg, s).None? {
      n := 0;
    } else {
      var marks := RewriteOwnsLess(cfg, s, m);
      var k := EndsWhenMarked(cfg, Step(cfg, s), marks);
      n := k + 1;
    }
  }

  // ----- the condition -----

  /** In every style, rewriting ends on every message when the item URL holds no link and no link
      can begin before a copy of it and end inside. A URL with a slash before any delimiter, as in
      "http://", meets the second condition everywhere. */
  lemma PlainFencedUrlEnds(cfg: Config, s: bytes)
    requires IsFencedUrl(cfg) && IsPlainUrl(cfg)
    ensures Ends(cfg, s)
  {
    hide Rewritten, IsFencedUrl;
    var m := Plain(|s|);
    assert IsMarked(cfg.itemUrl, s, m);
    var n := EndsWhenMarked(cfg, s, m);
  }

  /** Outside the legacy style rewriting ends on every message if and only if the item URL itself
      holds nothing to rewrite. */
  lemma EndsExactly(cfg: Config)
    requires !cfg.isLegacyLinks
    ensures (forall s :: Ends(cfg, s)) <==> Rewritten(cfg, cfg.itemUrl).None?
  {
    hide Find, Replaced;
    if Rewritten(cfg, cfg.itemUrl).None? {
      forall s ensures Ends(cfg, s) {
        PlainFencedUrlEnds(cfg, s);
      }
    } else {
      var f := Find(cfg, cfg.itemUrl).value;
      FoundIsConfigured(cfg, cfg.itemUrl);
      forall n: nat ensures Rewritten(cfg, Steps(cfg, cfg.itemUrl, n)).Some? {
        LinkInUrlNeverEnds(cfg, cfg.itemUrl, f.shape, f.at, n);
      }
      assert !Ends(cfg, cfg.itemUrl);
    }
  }

  // ----- the legacy style with a link in the URL -----

  /** A link to item 1, named "A", in the oldest format. */
  function KnownItem(): bytes {
    [LINK] + [0x30, 0x30, 0x30, 0x30, 0x30, 0x31] + seq(39, _ => 0x30) + [0x41] + [LINK]
  }

  lemma OnlyLink(a: bytes, b: bytes, shape: Shape, i: nat)
    requires LINK !in a && LINK !in b && (shape == LINK71 || shape == LINK50 || shape == LINK39)
    requires i < |a + KnownItem() + b|
    ensures IsLinkAt(shape, a + KnownItem() + b, i) <==> shape == LINK39 && i == |a|
  {
    var item := KnownItem();
    var s := a + item + b;
    assert |item| == 48 && forall q :: 0 <= q < 48 ==> s[|a| + q] == item[q];
    assert forall q :: |a| + 48 <= q < |s| ==> s[q] == b[q - |a| - 48];
    if s[i] == LINK {
      if i == |a| {
        assert s[i + 47] == LINK;
        if shape == LINK39 {
          assert NameEnd(shape, s, i + 46) == i + 47 by {
            assert s[i + 46] == 0x41 && s[i + 47] == LINK && NameEnd(shape, s, i + 47) == i + 47;
          }
        }
      } else {
        assert i == |a| + 47;
      }
    }
  }

  lemma KnownItemIsFound(cfg: Config, a: bytes, b: bytes)
    requires LINK !in a && LINK !in b
    ensures var s := a + KnownItem() + b;
            && Find(cfg, s) == Some(Found(LINK39, |a|)) && LinkEnd(LINK39, s, |a|) == |a| + 47
            && ItemId(s[|a| + 1..|a| + 7]) == 1
  {
    var s := a + KnownItem() + b;
    forall i: nat | i < |s|
      ensures !IsLinkAt(LINK71, s, i) && !IsLinkAt(LINK50, s, i) && (IsLinkAt(LINK39, s, i) <==> i == |a|)
    {
      OnlyLink(a, b, LINK71, i);
      OnlyLink(a, b, LINK50, i);
      OnlyLink(a, b, LINK39, i);
    }
    assert |s| >= |a| + 48;
    KnownItemEnds(a, b);
    hide IsLinkAt, LinkEnd;
    assert FindFrom(LINK71, s, 0).None? && FindFrom(LINK50, s, 0).None?;
    assert IsLinkAt(LINK39, s, |a|);
    assert FindFrom(LINK39, s, 0) == Some(|a|);
    assert s[|a| + 1..|a| + 7] == [0x30, 0x30, 0x30, 0x30, 0x30, 0x31];
    KnownItemIsOne();
  }

  lemma KnownItemEnds(a: bytes, b: bytes)
    ensures var s := a + KnownItem() + b;
            IsLinkAt(LINK39, s, |a|) ==> LinkEnd(LINK39, s, |a|) == |a| + 47
  {
    var s, item := a + KnownItem() + b, KnownItem();
    assert forall q :: 0 <= q < 48 ==> s[|a| + q] == item[q];
    assert s[|a| + 46] == 0x41 && s[|a| + 47] == LINK && NameEnd(LINK39, s, |a| + 47) == |a| + 47;
  }

  lemma KnownItemIsOne()
    ensures ItemId([0x30, 0x30, 0x30, 0x30, 0x30, 0x31]) == 1
  {
    var z: byte := 0x30;
    assert [z][..0] == [] && [z, z][..1] == [z] && [z, z, z][..2] == [z, z];
    assert [z, z, z, z][..3] == [z, z, z] && [z, z, z, z, z][..4] == [z, z, z, z];
    assert [z, z, z, z, z, 0x31][..5] == [z, z, z, z, z];
    assert HexValue([z]) == Some(0) && HexValue([z, z]) == Some(0);
    assert HexValue([z, z, z]) == Some(0) && HexValue([z, z, z, z]) == Some(0);
  }

  lemma LegacyLinkComesBack(cfg: Config, a: bytes, b: bytes) returns (a': bytes, b': bytes)
    requires cfg.isLegacyLinks && cfg.itemUrl == KnownItem() && LINK !in a && LINK !in b
    ensures LINK !in a' && LINK !in b'
    ensures Rewritten(cfg, a + KnownItem() + b) == Some(a' + KnownItem() + b')
  {
    hide Find, IsLinkAt, LinkEnd, Replaced, IsFencedUrl, IsBehindFence, ItemId;
    var s := a + KnownItem() + b;
    KnownItemIsFound(cfg, a, b);
    var f, before, u, behind, x, y := RewriteIsSplice(cfg, s);
    assert s[..|a|] == a && s[|a| + 48..] == b;
    var left, right := a + before, behind + b;
    var t := left + u + right;
    assert t == Spliced(s, |a|, |a| + 47, before, u, behind);
    assert KnownItem()[0] == LINK && KnownItem()[47] == LINK;
    assert t[|left|] == LINK && t[|left| + 47] == LINK;
    a', b' := left[x..], right[..y - |left| - 48];
    assert t[x..y] == a' + u + b';
  }

  /** Failing input for the legacy style, embedded or not: with the link of a known item as its
      URL, that link is rewritten for ever. */
  lemma {:induction false} LegacyLinkNeverEnds(cfg: Config, a: bytes, b: bytes, n: nat)
    requires cfg.isLegacyLinks && cfg.itemUrl == KnownItem() && LINK !in a && LINK !in b
    ensures Rewritten(cfg, Steps(cfg, a + KnownItem() + b, n)).Some?
    decreases n
  {
    hide Rewritten;
    var a', b' := LegacyLinkComesBack(cfg, a, b);
    if n > 0 {
      LegacyLinkNeverEnds(cfg, a', b', n - 1);
    }
  }
}
