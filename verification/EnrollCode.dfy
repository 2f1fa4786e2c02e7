/** Enrollment codes as people type them (relay/enroll.go). Text is a sequence of characters; the
    case mapping is a parameter of which only what a Unicode upper-casing does to the code alphabet
    and to white space is used. */
module EnrollCode {
  import Unicode

  const LENGTH: nat := 12

  type Upper = char -> char

  predicate InAlphabet(c: char) {
    ('0' <= c <= '9' || 'A' <= c <= 'Z') && c != 'I' && c != 'L' && c != 'O' && c != 'U'
  }

  predicate IsSpace(c: char) {
    Unicode.IsSpace(c as int)
  }

  ghost predicate IsUpper(upper: Upper) {
    forall c {:trigger upper(c)} :: InAlphabet(c) || IsSpace(c) || c == '-' ==> upper(c) == c
  }

  /** What one upper-cased character contributes. */
  function NormalizeOne(c: char): string {
    if c == '-' || c == ' ' || c == '\t' then ""
    else if c == 'O' then "0"
    else if c == 'I' || c == 'L' then "1"
    else if c == 'U' then "V"
    else if InAlphabet(c) then [c]
    else ""
  }

  function NormalizeAll(upper: Upper, s: string): string {
    if s == "" then ""
    else NormalizeAll(upper, s[..|s| - 1]) + NormalizeOne(upper(s[|s| - 1]))
  }

  function TrimLeft(s: string): string {
    if s != "" && IsSpace(s[0]) then TrimLeft(s[1..]) else s
  }

  function TrimRight(s: string): string {
    if s != "" && IsSpace(s[|s| - 1]) then TrimRight(s[..|s| - 1]) else s
  }

  function Normalized(upper: Upper, s: string): string {
    NormalizeAll(upper, TrimRight(TrimLeft(s)))
  }

  /** Groups of four with a dash before each but the first. */
  function Grouped(s: string): string {
    if s == "" then ""
    else
      var n := |s| - 1;
      Grouped(s[..n]) + (if n > 0 && n % 4 == 0 then "-" else "") + [s[n]]
  }

  function Formatted(upper: Upper, code: string): string {
    Grouped(Normalized(upper, code))
  }

  predicate IsWellFormed(upper: Upper, code: string) {
    |Normalized(upper, code)| == LENGTH
  }

  method NormalizeEnrollCode(upper: Upper, code: string) returns (b: string)
    ensures b == Normalized(upper, code)
  {
    b := "";
    var s := TrimRight(TrimLeft(code));
    for i := 0 to |s|
      invariant b == NormalizeAll(upper, s[..i])
    {
      var r := upper(s[i]);
      assert s[..i + 1][..i] == s[..i];
      if r == '-' || r == ' ' || r == '\t' {
        continue;
      } else if r == 'O' {
        b := b + "0";
      } else if r == 'I' || r == 'L' {
        b := b + "1";
      } else if r == 'U' {
        b := b + "V";
      } else if InAlphabet(r) {
        b := b + [r];
      }
    }
    assert s[..|s|] == s;
  }

  method FormatEnrollCode(upper: Upper, code: string) returns (b: string)
    ensures b == Formatted(upper, code)
  {
    var s := NormalizeEnrollCode(upper, code);
    b := "";
    for i := 0 to |s|
      invariant b == Grouped(s[..i])
    {
      assert s[..i + 1][..i] == s[..i];
      if i > 0 && i % 4 == 0 {
        b := b + "-";
      }
      b := b + [s[i]];
    }
    assert s[..|s|] == s;
  }

  lemma NormalizeSnoc(upper: Upper, s: string, c: char)
    ensures NormalizeAll(upper, s + [c]) == NormalizeAll(upper, s) + NormalizeOne(upper(c))
  {
    assert (s + [c])[..|s|] == s;
  }

  lemma EmptyStandsForNothing(upper: Upper)
    ensures NormalizeAll(upper, "") == ""
  {
  }

  lemma {:induction false} NormalizeAppend(upper: Upper, a: string, b: string)
    ensures NormalizeAll(upper, a + b) == NormalizeAll(upper, a) + NormalizeAll(upper, b)
  {
    hide NormalizeAll, NormalizeOne;
    if b == "" {
      EmptyStandsForNothing(upper);
      assert a + b == a && NormalizeAll(upper, a) + "" == NormalizeAll(upper, a);
    } else {
      var t, c := b[..|b| - 1], b[|b| - 1];
      NormalizeAppend(upper, a, t);
      assert b == t + [c] && a + b == (a + t) + [c];
      NormalizeSnoc(upper, a + t, c);
      NormalizeSnoc(upper, t, c);
    }
  }

  lemma OneCharacter(upper: Upper, c: char)
    ensures NormalizeAll(upper, [c]) == NormalizeOne(upper(c))
  {
    assert [c][..0] == "";
  }

  lemma SpaceStandsForNothing(upper: Upper, c: char)
    requires IsUpper(upper) && IsSpace(c)
    ensures NormalizeOne(upper(c)) == ""
  {
  }

  lemma {:induction false} TrimLeftIsNoChange(upper: Upper, s: string)
    requires IsUpper(upper)
    ensures NormalizeAll(upper, TrimLeft(s)) == NormalizeAll(upper, s)
  {
    if s != "" && IsSpace(s[0]) {
      hide NormalizeAll, NormalizeOne;
      assert s == [s[0]] + s[1..];
      NormalizeAppend(upper, [s[0]], s[1..]);
      OneCharacter(upper, s[0]);
      SpaceStandsForNothing(upper, s[0]);
      TrimLeftIsNoChange(upper, s[1..]);
    }
  }

  lemma {:induction false} TrimRightIsNoChange(upper: Upper, s: string)
    requires IsUpper(upper)
    ensures NormalizeAll(upper, TrimRight(s)) == NormalizeAll(upper, s)
  {
    if s != "" && IsSpace(s[|s| - 1]) {
      hide NormalizeAll, NormalizeOne;
      var t, c := s[..|s| - 1], s[|s| - 1];
      assert s == t + [c];
      NormalizeSnoc(upper, t, c);
      SpaceStandsForNothing(upper, c);
      TrimRightIsNoChange(upper, t);
    }
  }

  lemma TrimmingIsNoChange(upper: Upper, s: string)
    requires IsUpper(upper)
    ensures Normalized(upper, s) == NormalizeAll(upper, s)
  {
    TrimLeftIsNoChange(upper, s);
    TrimRightIsNoChange(upper, TrimLeft(s));
  }

  /** Spelling is free piece by piece: what a typed text stands for is what its pieces stand for,
      so anything that stands for nothing (dashes, spaces, stray characters) may go anywhere. */
  lemma SpellingIsFree(upper: Upper, a: string, filler: string, b: string)
    requires IsUpper(upper) && Normalized(upper, filler) == ""
    ensures Normalized(upper, a + filler + b) == Normalized(upper, a) + Normalized(upper, b)
    ensures Normalized(upper, a + filler + b) == Normalized(upper, a + b)
  {
    hide NormalizeAll, Normalized;
    TrimmingIsNoChange(upper, a + filler + b);
    TrimmingIsNoChange(upper, a);
    TrimmingIsNoChange(upper, b);
    TrimmingIsNoChange(upper, filler);
    TrimmingIsNoChange(upper, a + b);
    NormalizeAppend(upper, a + filler, b);
    NormalizeAppend(upper, a, filler);
    NormalizeAppend(upper, a, b);
  }

  /** Case and the look-alikes people mix up are free character by character: texts whose upper-cased
      characters stand for the same, as 'o', 'O' and '0' do, stand for the same code. */
  lemma {:induction false} LookAlikesAreFree(upper: Upper, a: string, b: string)
    requires IsUpper(upper) && |a| == |b|
    requires forall i :: 0 <= i < |a| ==> NormalizeOne(upper(a[i])) == NormalizeOne(upper(b[i]))
    ensures Normalized(upper, a) == Normalized(upper, b)
  {
    hide Normalized, NormalizeOne;
    TrimmingIsNoChange(upper, a);
    TrimmingIsNoChange(upper, b);
    AlikeNormalizeAlike(upper, a, b);
  }

  lemma {:induction false} AlikeNormalizeAlike(upper: Upper, a: string, b: string)
    requires |a| == |b|
    requires forall i :: 0 <= i < |a| ==> NormalizeOne(upper(a[i])) == NormalizeOne(upper(b[i]))
    ensures NormalizeAll(upper, a) == NormalizeAll(upper, b)
  {
    if a != "" {
      AlikeNormalizeAlike(upper, a[..|a| - 1], b[..|b| - 1]);
    }
  }

  predicate IsLetterOrDigit(c: char) {
    '0' <= c <= '9' || 'A' <= c <= 'Z' || 'a' <= c <= 'z'
  }

  function Raised(c: char): char {
    if 'a' <= c <= 'z' then c - 'a' + 'A' else c
  }

  /** What upper-casing does to letters and digits. */
  ghost predicate RaisesLetters(upper: Upper) {
    forall c :: IsLetterOrDigit(c) ==> upper(c) == Raised(c)
  }

  /** Characters that people mix up when they read a code aloud or type it: o, O and 0, i, l, I, L
      and 1, u, U, v and V, and otherwise the two cases of a letter. */
  predicate AreAlike(c: char, d: char) {
    var x, y := Raised(c), Raised(d);
    || x == y
    || ((x == 'O' || x == '0') && (y == 'O' || y == '0'))
    || ((x == 'I' || x == 'L' || x == '1') && (y == 'I' || y == 'L' || y == '1'))
    || ((x == 'U' || x == 'V') && (y == 'U' || y == 'V'))
  }

  lemma AlikeExactly(upper: Upper, c: char, d: char)
    requires IsUpper(upper) && RaisesLetters(upper) && IsLetterOrDigit(c) && IsLetterOrDigit(d)
    ensures |NormalizeOne(upper(c))| == 1
    ensures NormalizeOne(upper(c)) == NormalizeOne(upper(d)) <==> AreAlike(c, d)
  {
  }

  /** Texts of letters and digits stand for the same code if and only if they are as long and hold
      the same letter or a look-alike at every place. */
  lemma {:induction false} SameCodeExactly(upper: Upper, a: string, b: string)
    requires IsUpper(upper) && RaisesLetters(upper)
    requires forall i :: 0 <= i < |a| ==> IsLetterOrDigit(a[i])
    requires forall i :: 0 <= i < |b| ==> IsLetterOrDigit(b[i])
    ensures |Normalized(upper, a)| == |a|
    ensures Normalized(upper, a) == Normalized(upper, b)
            <==> |a| == |b| && forall i :: 0 <= i < |a| ==> AreAlike(a[i], b[i])
  {
    hide Normalized, NormalizeAll, NormalizeOne, AreAlike, IsLetterOrDigit, IsUpper, RaisesLetters;
    TrimmingIsNoChange(upper, a);
    TrimmingIsNoChange(upper, b);
    forall i | 0 <= i < |a| ensures |NormalizeOne(upper(a[i]))| == 1 {
      AlikeExactly(upper, a[i], a[i]);
    }
    forall i | 0 <= i < |b| ensures |NormalizeOne(upper(b[i]))| == 1 {
      AlikeExactly(upper, b[i], b[i]);
    }
    OneByOne(upper, a);
    OneByOne(upper, b);
    forall i | 0 <= i < |a| && i < |b|
      ensures AreAlike(a[i], b[i]) <==> NormalizeAll(upper, a)[i] == NormalizeAll(upper, b)[i]
    {
      AlikeExactly(upper, a[i], b[i]);
    }
    if |a| == |b| && forall i :: 0 <= i < |a| ==> AreAlike(a[i], b[i]) {
      LookAlikesAreFree(upper, a, b);
    }
  }

  lemma {:induction false} OneByOne(upper: Upper, s: string)
    requires forall i :: 0 <= i < |s| ==> |NormalizeOne(upper(s[i]))| == 1
    ensures |NormalizeAll(upper, s)| == |s|
    ensures forall i :: 0 <= i < |s| ==> [NormalizeAll(upper, s)[i]] == NormalizeOne(upper(s[i]))
  {
    hide NormalizeOne;
    if s != "" {
      OneByOne(upper, s[..|s| - 1]);
    }
  }

  /** One more character of the alphabet, with or without a dash before it. */
  lemma OneMoreKept(upper: Upper, s: string, dash: string, c: char)
    requires IsUpper(upper) && InAlphabet(c) && (dash == "" || dash == "-")
    ensures NormalizeAll(upper, s + dash + [c]) == NormalizeAll(upper, s) + [c]
  {
    hide NormalizeAll;
    NormalizeAppend(upper, s + dash, [c]);
    NormalizeAppend(upper, s, dash);
    OneCharacter(upper, c);
    assert upper('-') == '-';
    if dash == "" {
      assert s + dash == s;
    } else {
      OneCharacter(upper, '-');
      assert NormalizeAll(upper, s) + "" == NormalizeAll(upper, s);
    }
  }

  ghost predicate AllInAlphabet(s: string) {
    forall i :: 0 <= i < |s| ==> InAlphabet(s[i])
  }

  lemma GroupedSnoc(s: string)
    requires s != ""
    ensures var n := |s| - 1;
            Grouped(s) == Grouped(s[..n]) + (if n > 0 && n % 4 == 0 then "-" else "") + [s[n]]
  {
  }

  lemma {:induction false} AlphabetIsKept(upper: Upper, s: string)
    requires IsUpper(upper) && AllInAlphabet(s)
    ensures NormalizeAll(upper, s) == s && NormalizeAll(upper, Grouped(s)) == s
  {
    if s != "" {
      hide NormalizeAll, NormalizeOne, Grouped, InAlphabet;
      var n := |s| - 1;
      var t := s[..n];
      AlphabetIsKept(upper, t);
      GroupedSnoc(s);
      OneMoreKept(upper, t, "", s[n]);
      OneMoreKept(upper, Grouped(t), if n > 0 && n % 4 == 0 then "-" else "", s[n]);
      assert t + "" == t && s == t + [s[n]];
    }
  }

  /** A normalized code holds characters of the code alphabet only. */
  lemma {:induction false} NormalizedIsInAlphabet(upper: Upper, s: string)
    ensures AllInAlphabet(NormalizeAll(upper, s))
  {
    if s != "" {
      NormalizedIsInAlphabet(upper, s[..|s| - 1]);
    }
  }

  /** Normalizing twice is normalizing once, and a formatted code normalizes to what it shows. */
  lemma NormalizedIsStable(upper: Upper, code: string)
    requires IsUpper(upper)
    ensures Normalized(upper, Normalized(upper, code)) == Normalized(upper, code)
    ensures Normalized(upper, Formatted(upper, code)) == Normalized(upper, code)
    ensures IsWellFormed(upper, Formatted(upper, code)) <==> IsWellFormed(upper, code)
  {
    var n := Normalized(upper, code);
    NormalizedIsInAlphabet(upper, TrimRight(TrimLeft(code)));
    AlphabetIsKept(upper, n);
    TrimmingIsNoChange(upper, n);
    TrimmingIsNoChange(upper, Grouped(n));
  }

  /** A displayed code has its characters in order, with a dash before every fourth but the first. */
  lemma {:induction false} GroupedExactly(s: string)
    ensures s != "" ==> |Grouped(s)| == |s| + (|s| - 1) / 4
    ensures s == "" ==> Grouped(s) == ""
    ensures forall i :: 0 <= i < |s| ==> i + i / 4 < |Grouped(s)| && Grouped(s)[i + i / 4] == s[i]
    ensures forall i :: 0 < i < |s| && i % 4 == 0 ==> Grouped(s)[i + i / 4 - 1] == '-'
  {
    if s != "" {
      var n := |s| - 1;
      var t := s[..n];
      GroupedExactly(t);
      GroupedSnoc(s);
      hide Grouped;
      var g := Grouped(s);
      assert forall k :: 0 <= k < |Grouped(t)| ==> g[k] == Grouped(t)[k];
      assert n > 0 && n % 4 == 0 ==> (n - 1) / 4 == n / 4 - 1;
      assert n % 4 != 0 ==> (n - 1) / 4 == n / 4;
      assert |g| == |s| + (|s| - 1) / 4 && g[|g| - 1] == s[n];
      forall i | 0 <= i < |s| ensures i + i / 4 < |g| && g[i + i / 4] == s[i] {
        assert i < n ==> t[i] == s[i];
      }
    }
  }
}
