/** The trigger that feeds the relay, `(\w+) says ooc, '(.*)'` (setup/hub.go, telnet/telnet_msg.go):
    what it captures of a line of the game, and what becomes of the key of an echo. */
module OocTrigger {
  import opened Bytes
  import opened Agent
  import opened Sanitize
  import opened SanitizeProofs
  import opened Utf8
  import opened TelnetText
  import ItemLinks
  import opened Wrappers

  const NEWLINE: byte := 0x0A
  const QUOTE: byte := 0x27

  /** " says ooc, '" */
  const SAYS: bytes := [0x20, 0x73, 0x61, 0x79, 0x73, 0x20, 0x6F, 0x6F, 0x63, 0x2C, 0x20, 0x27]

  /** What the pattern `\w` matches. */
  predicate IsWordByte(b: byte) {
    0x30 <= b <= 0x39 || 0x41 <= b <= 0x5A || 0x61 <= b <= 0x7A || b == 0x5F
  }

  /** What the pattern `\w+` matches as a whole. */
  predicate IsWord(s: bytes) {
    s != [] && forall i :: 0 <= i < |s| ==> IsWordByte(s[i])
  }

  /** How many word bytes a text starts with. */
  function WordRun(s: bytes): (n: nat)
    ensures n <= |s|
  {
    if s != [] && IsWordByte(s[0]) then 1 + WordRun(s[1..]) else 0
  }

  predicate StartsSays(s: bytes) {
    |s| >= |SAYS| && s[..|SAYS|] == SAYS
  }

  /** What `(.*)'` captures at the start of a text: everything up to the last quote of its line. */
  function UpToQuote(s: bytes): Option<bytes> {
    if s == [] || s[0] == NEWLINE then None
    else
      match UpToQuote(s[1..])
      case Some(rest) => Some([s[0]] + rest)
      case None => if s[0] == QUOTE then Some([]) else None
  }

  /** The match at the start of a text. No shorter run of word bytes is followed by a space. */
  function CapturedHere(s: bytes): Option<Line> {
    var n := WordRun(s);
    if n == 0 || !StartsSays(s[n..]) then None
    else
      match UpToQuote(s[n + |SAYS|..])
      case Some(message) => Some(Line(s[..n], message))
      case None => None
  }

  /** The leftmost match. */
  function Captured(s: bytes): Option<Line> {
    if s == [] then None
    else if CapturedHere(s).Some? then CapturedHere(s)
    else Captured(s[1..])
  }

  /** The line that the reader hands to the agent, if any. */
  function Read(text: bytes): Option<Line> {
    Captured(Unescaped(text))
  }

  /** What the game prints when the line is said. */
  function Printed(l: Line): bytes {
    l.name + SAYS + l.message + [QUOTE, NEWLINE]
  }

  /** What comes back of a line that the game prints. */
  function Heard(l: Line): Option<Line> {
    Read(Printed(l))
  }

  // ----- what the trigger captures -----

  lemma {:induction false} WordRunOf(s: bytes)
    ensures forall i :: 0 <= i < WordRun(s) ==> IsWordByte(s[i])
    ensures WordRun(s) < |s| ==> !IsWordByte(s[WordRun(s)])
  {
    if s != [] && IsWordByte(s[0]) {
      WordRunOf(s[1..]);
    }
  }

  lemma SaysAt(s: bytes, i: nat, k: nat)
    requires i <= |s| && k < |SAYS| && StartsSays(s[i..])
    ensures i + k < |s| && s[i + k] == SAYS[k]
  {
    assert s[i..][..|SAYS|][k] == s[i + k];
  }

  /** A captured name is a word. */
  lemma {:induction false} CapturedIsWord(s: bytes)
    ensures Captured(s).Some? ==> IsWord(Captured(s).value.name)
  {
    hide UpToQuote, StartsSays;
    if s != [] {
      WordRunOf(s);
      CapturedIsWord(s[1..]);
    }
  }

  lemma {:induction false} UpToTheLastQuote(m: bytes)
    requires NEWLINE !in m
    ensures UpToQuote(m + [QUOTE, NEWLINE]) == Some(m)
  {
    var s := m + [QUOTE, NEWLINE];
    if m == [] {
      assert s[1..] == [NEWLINE];
    } else {
      UpToTheLastQuote(m[1..]);
      assert s[1..] == m[1..] + [QUOTE, NEWLINE];
      assert m == [m[0]] + m[1..];
    }
  }

  /** Nothing is captured from a part that no word of a line is followed by " says ooc, '" in. */
  lemma {:induction false} NothingIsCaptured(head: bytes, t: bytes)
    requires head != [] ==> !IsWordByte(head[|head| - 1])
    requires forall i :: 0 < i < |head| && IsWordByte(head[i - 1]) ==> !StartsSays((head + t)[i..])
    ensures Captured(head + t) == Captured(t)
  {
    hide StartsSays, UpToQuote;
    var s := head + t;
    if head == [] {
      assert s == t;
    } else {
      WordRunOf(s);
      assert s[1..] == head[1..] + t;
      forall i | 0 < i < |head[1..]| && IsWordByte(head[1..][i - 1])
        ensures !StartsSays((head[1..] + t)[i..])
      {
        assert s[1..][i..] == s[i + 1..];
      }
      NothingIsCaptured(head[1..], t);
      var n := WordRun(s);
      assert s[|head| - 1] == head[|head| - 1];
      assert n > 0 ==> s[n - 1] == head[n - 1];
    }
  }

  /** A word before " says ooc, '" is captured with the whole message. */
  lemma WordIsCaptured(word: bytes, m: bytes)
    requires IsWord(word) && NEWLINE !in m
    ensures Captured(Printed(Line(word, m))) == Some(Line(word, m))
  {
    hide UpToQuote;
    var s, n := Printed(Line(word, m)), |word|;
    WordRunOf(s);
    assert s[n] == SAYS[0];
    assert s[..n] == word && s[n..][..|SAYS|] == SAYS && s[n + |SAYS|..] == m + [QUOTE, NEWLINE];
    assert forall i :: 0 <= i < n ==> s[i] == word[i];
    UpToTheLastQuote(m);
  }

  /** Names, unlike texts, hold no spaces. */
  predicate IsSpaceless(s: bytes) {
    0x20 !in s
  }

  /** Of a name that ends in a word the longest word at its end is captured. */
  lemma LastWordIsCaptured(front: bytes, word: bytes, m: bytes)
    requires IsSpaceless(front) && (front != [] ==> !IsWordByte(front[|front| - 1]))
    requires IsWord(word) && NEWLINE !in m
    ensures Captured(Printed(Line(front + word, m))) == Some(Line(word, m))
  {
    var t := Printed(Line(word, m));
    assert Printed(Line(front + word, m)) == front + t;
    forall i | 0 < i < |front| ensures !StartsSays((front + t)[i..]) {
      if StartsSays((front + t)[i..]) {
        SaysAt(front + t, i, 0);
      }
    }
    hide Captured;
    NothingIsCaptured(front, t);
    WordIsCaptured(word, m);
  }

  lemma SpacesOfSays(j: int)
    ensures |SAYS| == 12 && SAYS[0] == 0x20 && SAYS[1] == 0x73
    ensures 0 < j < |SAYS| && SAYS[j] == 0x20 && IsWordByte(SAYS[j - 1]) ==> j + 1 < |SAYS| && SAYS[j + 1] != 0x73
  {
  }

  lemma SaysInHead(name: bytes, t: bytes, i: nat)
    requires IsSpaceless(name) && 0 < i < |name + SAYS| && IsWordByte((name + SAYS)[i - 1])
    requires name != [] ==> !IsWordByte(name[|name| - 1])
    ensures !StartsSays((name + SAYS + t)[i..])
  {
    var s := name + SAYS + t;
    hide StartsSays, SAYS;
    assert forall k :: 0 <= k < |SAYS| ==> s[|name| + k] == SAYS[k];
    SpacesOfSays(i - |name|);
    if StartsSays(s[i..]) {
      SaysAt(s, i, 0);
      SaysAt(s, i, 1);
    }
  }

  /** Of a name that does not end in a word nothing is captured, only what the message itself may
      say as a line. */
  lemma OnlyTheMessageIsCaptured(name: bytes, m: bytes)
    requires IsSpaceless(name) && (name != [] ==> !IsWordByte(name[|name| - 1]))
    ensures Captured(Printed(Line(name, m))) == Captured(m + [QUOTE, NEWLINE])
  {
    var head, t := name + SAYS, m + [QUOTE, NEWLINE];
    assert Printed(Line(name, m)) == head + t;
    hide Captured, Printed;
    forall i | 0 < i < |head| && IsWordByte(head[i - 1]) ensures !StartsSays((head + t)[i..]) {
      SaysInHead(name, t, i);
    }
    NothingIsCaptured(head, t);
  }

  // ----- reading -----

  lemma UnescapedNothing()
    ensures Unescaped([]) == []
  {
  }

  lemma UnescapedStep(s: bytes)
    requires s != []
    ensures StartsEscaped(s) ==> |s| >= 5 && s[0] == 0x26 && Unescaped(s) == [0x25] + Unescaped(s[5..])
    ensures !StartsEscaped(s) ==> Unescaped(s) == [s[0]] + Unescaped(s[1..])
  {
    if StartsEscaped(s) {
      assert s[0] == s[..5][0];
    }
  }

  lemma {:induction false} UnescapedAfter(s: bytes, t: bytes)
    requires 0x26 !in s
    ensures Unescaped(s + t) == s + Unescaped(t)
  {
    hide Unescaped, StartsEscaped;
    if s == [] {
      assert s + t == t;
    } else {
      UnescapedAfter(s[1..], t);
      UnescapedStep(s + t);
      assert (s + t)[1..] == s[1..] + t;
    }
  }

  lemma {:induction false} UnescapedBefore(m: bytes)
    ensures Unescaped(m + [QUOTE, NEWLINE]) == Unescaped(m) + [QUOTE, NEWLINE]
  {
    var s := m + [QUOTE, NEWLINE];
    hide Unescaped, StartsEscaped;
    if m == [] {
      UnescapedAfter([QUOTE, NEWLINE], []);
      assert s == [QUOTE, NEWLINE] + [];
      UnescapedNothing();
    } else {
      StartsEscapedBefore(m);
      UnescapedStep(m);
      UnescapedStep(s);
      if StartsEscaped(m) {
        UnescapedBefore(m[5..]);
        assert s[5..] == m[5..] + [QUOTE, NEWLINE];
      } else {
        UnescapedBefore(m[1..]);
        assert s[1..] == m[1..] + [QUOTE, NEWLINE];
      }
    }
  }

  lemma StartsEscapedBefore(m: bytes)
    ensures StartsEscaped(m + [QUOTE, NEWLINE]) == StartsEscaped(m)
    ensures StartsEscaped(m) ==> |m| >= 5
  {
    var s := m + [QUOTE, NEWLINE];
    if |m| >= 5 {
      assert s[..5] == m[..5];
    } else if |s| >= 5 {
      assert s[..5][4] == s[4];
    }
  }

  lemma {:induction false} UnescapedBytes(m: bytes)
    ensures forall b :: b in Unescaped(m) ==> b in m || b == 0x25
  {
    if m != [] {
      UnescapedBytes(m[1..]);
      if StartsEscaped(m) {
        UnescapedBytes(m[5..]);
      }
    }
  }

  lemma UnescapedPrinted(l: Line)
    requires 0x26 !in l.name
    ensures Unescaped(Printed(l)) == Printed(Line(l.name, Unescaped(l.message)))
  {
    hide Unescaped;
    var before := l.name + SAYS;
    assert Printed(l) == before + (l.message + [QUOTE, NEWLINE]);
    UnescapedAfter(before, l.message + [QUOTE, NEWLINE]);
    UnescapedBefore(l.message);
    assert before + (Unescaped(l.message) + [QUOTE, NEWLINE]) == Printed(Line(l.name, Unescaped(l.message)));
  }

  lemma NameBytes(name: bytes)
    requires NameOf(name) == name
    ensures IsSpaceless(name) && 0x26 !in name
  {
    hide NameOf;
    NameOnePassSuffices(name);
  }

  /** The longest word at the end of a text, if any. */
  function LastWord(s: bytes): bytes {
    if s != [] && IsWordByte(s[|s| - 1]) then LastWord(s[..|s| - 1]) + [s[|s| - 1]] else []
  }

  lemma {:induction false} LastWordParts(s: bytes) returns (front: bytes)
    ensures s == front + LastWord(s) && (front != [] ==> !IsWordByte(front[|front| - 1]))
    ensures LastWord(s) == [] || IsWord(LastWord(s))
  {
    front := s;
    if s != [] && IsWordByte(s[|s| - 1]) {
      front := LastWordParts(s[..|s| - 1]);
      assert s == s[..|s| - 1] + [s[|s| - 1]];
    }
  }

  /** The longest word at the end of the name comes back, with the message as the reader leaves
      it. Without one the line is lost, or a line that its message quotes comes back instead. */
  lemma HeardExactly(l: Line)
    requires NameOf(l.name) == l.name && NEWLINE !in l.message
    ensures Heard(l)
            == if LastWord(l.name) != [] then Some(Line(LastWord(l.name), Unescaped(l.message)))
               else Read(l.message + [QUOTE, NEWLINE])
  {
    hide Unescaped, Captured, Printed, NameOf, IsWord;
    NameBytes(l.name);
    UnescapedPrinted(l);
    UnescapedBytes(l.message);
    var front := LastWordParts(l.name);
    var word := LastWord(l.name);
    if word != [] {
      LastWordIsCaptured(front, word, Unescaped(l.message));
    } else {
      assert front + word == front;
      UnescapedBefore(l.message);
      OnlyTheMessageIsCaptured(l.name, Unescaped(l.message));
    }
  }

  lemma {:induction false} LastWordIsLast(front: bytes, word: bytes)
    requires front != [] ==> !IsWordByte(front[|front| - 1])
    requires forall i :: 0 <= i < |word| ==> IsWordByte(word[i])
    ensures LastWord(front + word) == word
  {
    var s := front + word;
    if word == [] {
      assert s == front;
    } else {
      var last := |word| - 1;
      LastWordIsLast(front, word[..last]);
      assert s[..|s| - 1] == front + word[..last] && word == word[..last] + [word[last]];
    }
  }

  lemma LastWordOfWord(s: bytes)
    requires IsWord(s)
    ensures LastWord(s) == s != []
  {
    LastWordIsLast([], s);
    assert [] + s == s;
  }

  /** A prompt in front of a line, which holds no word, changes nothing of what is read. */
  lemma PromptIsSkipped(prompt: bytes, text: bytes)
    requires forall i :: 0 <= i < |prompt| ==> !IsWordByte(prompt[i]) && prompt[i] != 0x26
    ensures Read(prompt + text) == Read(text)
  {
    hide Captured, Unescaped;
    UnescapedAfter(prompt, text);
    NothingIsCaptured(prompt, Unescaped(text));
  }

  // ----- the key of an echo -----

  /** The echo of a line has the key that is remembered for it. */
  predicate IsRecognized(isPrint: Table, l: Line) {
    Heard(l).Some? && Key(Clean(isPrint, Heard(l).value)) == Key(l)
  }

  /** When its name is a word and it holds no "&PCT;", a line comes back as it was. */
  lemma ComesBackUnchanged(isPrint: Table, l: Line)
    requires IsPrintTable(isPrint) && Clean(isPrint, l) == l
    requires IsWord(l.name) && !HasEscape(l.message)
    ensures Heard(l) == Some(l)
  {
    hide MessageOf, Unescaped, HasEscape, NameOf, Heard, IsWord;
    MessageIsSafeTelnetLine(isPrint, l.message);
    UnescapingShortensExactly(l.message);
    LastWordOfWord(l.name);
    HeardExactly(l);
  }

  /** Sanitizing a captured name leaves a word. */
  lemma CleanedWord(word: bytes)
    requires IsWord(word)
    ensures IsWord(NameOf(word))
  {
    NameBytesDecode(word);
  }

  /** The key of an injected line is the key of its echo, as read and published again, if and only
      if the name is a word and the message holds no "&PCT;". */
  lemma EchoIsRecognizedExactly(isPrint: Table, l: Line)
    requires IsPrintTable(isPrint) && Clean(isPrint, l) == l
    ensures IsRecognized(isPrint, l) <==> IsWord(l.name) && !HasEscape(l.message)
  {
    hide TelnetLineOf, Unescaped, HasEscape, NameOf, Captured, IsWord, Printed;
    MessageIsSafeTelnetLine(isPrint, l.message);
    UnescapingShortensExactly(l.message);
    SanitizingShortens(isPrint, Unescaped(l.message), MAX_MESSAGE_LEN);
    if IsWord(l.name) {
      LastWordOfWord(l.name);
      HeardExactly(l);
    }
    if IsRecognized(isPrint, l) {
      var heard := Heard(l).value;
      CapturedIsWord(Unescaped(Printed(l)));
      CleanedWord(heard.name);
      EchoKeyIsInjective(heard.name, MessageOf(isPrint, heard.message), l.name, l.message);
    }
  }

  /** After the hub's pass and the agent's pass, the remembered key is the key of the echo, as
      read and published again, under the same condition on what was injected. */
  lemma EchoKeySurvivesTheRoundTrip(isPrint: Table, l: Line)
    requires IsPrintTable(isPrint)
    ensures var injected := Clean(isPrint, Clean(isPrint, l));
            IsRecognized(isPrint, injected) <==> IsWord(injected.name) && !HasEscape(injected.message)
  {
    hide TelnetLineOf, HasEscape, NameOf, IsWord, IsRecognized;
    NameOnePassSuffices(l.name);
    TwoPassesSuffice(isPrint, l.message, MAX_MESSAGE_LEN);
    EchoIsRecognizedExactly(isPrint, Clean(isPrint, Clean(isPrint, l)));
  }

  /** No item link delimiter is in a settled line, so link rewriting, which the reader does first,
      leaves its echo alone. */
  lemma SettledIsNotRewritten(isPrint: Table, cfg: ItemLinks.Config, l: Line)
    requires IsPrintTable(isPrint) && Clean(isPrint, l) == l
    ensures ItemLinks.Rewritten(cfg, Printed(l)).None?
  {
    hide ItemLinks.Replaced, TelnetLineOf, NameOf;
    NameOnePassSuffices(l.name);
    var rs := PassIsAlmostClean(isPrint, l.message, MAX_MESSAGE_LEN);
    forall i | 0 <= i < |l.message| ensures l.message[i] != ItemLinks.LINK {
      KeptBytes(isPrint, rs, i);
    }
    assert ItemLinks.LINK !in Printed(l);
  }

  // ----- two lines that come back changed -----

  const PERCENT_TYPED := Line([0x41], [0x61] + ESCAPE)
  const PERCENT_HEARD := Line([0x41], [0x61, 0x25])

  /** "O'Brien" and "Brien", who say "hi". */
  const OBRIEN_SAYS := Line([0x4F, 0x27, 0x42, 0x72, 0x69, 0x65, 0x6E], [0x68, 0x69])
  const BRIEN_SAYS := Line([0x42, 0x72, 0x69, 0x65, 0x6E], [0x68, 0x69])

  /** A percent sign typed on Discord: "a&PCT;" is injected and "a%" comes back. */
  lemma PercentComesBackDifferent(isPrint: Table)
    requires IsPrintTable(isPrint)
    requires forall r :: 0x21 <= r < 0x7F ==> isPrint(r)
    ensures Clean(isPrint, PERCENT_TYPED) == PERCENT_TYPED && Clean(isPrint, PERCENT_HEARD) == PERCENT_HEARD
    ensures Heard(PERCENT_TYPED) == Some(PERCENT_HEARD)
  {
    hide MessageOf, Heard, LastWord, DecodeAll, NameRunes;
    NameBytesDecode(PERCENT_TYPED.name);
    EscapeIsHeard();
    AsciiIsSettled(isPrint, PERCENT_TYPED.message);
    AsciiIsSettled(isPrint, PERCENT_HEARD.message);
    LastWordOfWord(PERCENT_TYPED.name);
    HeardExactly(PERCENT_TYPED);
  }

  lemma EscapeIsHeard()
    ensures Unescaped([0x61] + ESCAPE) == [0x61, 0x25]
  {
    var m: bytes := [0x61] + ESCAPE;
    assert m[1..] == ESCAPE && ESCAPE[5..] == [] && ESCAPE[..5] == ESCAPE;
    assert Unescaped(ESCAPE) == [0x25] + Unescaped([]);
    assert m[0] == 0x61 && !StartsEscaped(m);
  }

  lemma BrienIsHeard()
    requires NameOf(OBRIEN_SAYS.name) == OBRIEN_SAYS.name
    ensures Heard(OBRIEN_SAYS) == Some(BRIEN_SAYS)
  {
    hide Heard, Unescaped, NameOf, LastWord;
    var m := OBRIEN_SAYS.message;
    UnescapedAfter(m, []);
    UnescapedNothing();
    assert m + [] == m;
    HeardExactly(OBRIEN_SAYS);
    LastWordIsLast([0x4F, 0x27], BRIEN_SAYS.name);
    assert [0x4F, 0x27] + BRIEN_SAYS.name == OBRIEN_SAYS.name;
  }

  /** A name with an apostrophe: "O'Brien" is injected and "Brien" comes back. */
  lemma ApostropheComesBackDifferent(isPrint: Table)
    requires IsPrintTable(isPrint)
    requires forall r :: 0x21 <= r < 0x7F ==> isPrint(r)
    ensures Clean(isPrint, OBRIEN_SAYS) == OBRIEN_SAYS && Clean(isPrint, BRIEN_SAYS) == BRIEN_SAYS
    ensures Heard(OBRIEN_SAYS) == Some(BRIEN_SAYS)
  {
    hide MessageOf, Heard, DecodeAll, NameRunes;
    NameBytesDecode(OBRIEN_SAYS.name);
    NameBytesDecode(BRIEN_SAYS.name);
    AsciiIsSettled(isPrint, OBRIEN_SAYS.message);
    BrienIsHeard();
  }
}
