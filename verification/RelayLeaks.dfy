/** What happens to a line that an echo does not bring back as it went in (telnet/telnet_msg.go,
    agent/echo.go). */
module RelayLeaks {
  import opened Bytes
  import opened Router
  import opened Agent
  import opened RelaySystem
  import opened TelnetText
  import opened OocTrigger
  import EchoCache
  import Hub
  import Sanitize
  import SanitizeProofs
  import SeenCache
  import opened Wrappers

  /** The echo of an injected line is reported, as if a player had said it. */
  predicate Leaks(isPrint: Sanitize.Table, c: EchoCache.Echoes, now: int, l: Line) {
    Heard(l).Some? && Reports(isPrint, c, now, Heard(l).value)
  }

  /** An injected line that nobody else says leaks if and only if something is heard of it, and its
      name is no word or it holds "&PCT;". `c` is the cache after the injection. A name with a word
      at its end is always heard. */
  lemma EchoLeaksExactly(isPrint: Sanitize.Table, c: EchoCache.Echoes, l: Line, now: int)
    requires Sanitize.IsPrintTable(isPrint) && Clean(isPrint, l) == l && !IsBlank(l)
    requires Key(l) in c.expiry && now < c.expiry[Key(l)]
    requires Heard(l).Some? ==> forall key :: key in c.expiry && key != Key(l) ==>
                                                key != Key(Clean(isPrint, Heard(l).value))
    ensures Leaks(isPrint, c, now, l)
            <==> && Heard(l).Some? && !IsBlank(Clean(isPrint, Heard(l).value))
                 && (HasEscape(l.message) || !IsWord(l.name))
    ensures IsWordByte(l.name[|l.name| - 1]) ==> Heard(l).Some?
  {
    hide Sanitize.NameOf, Sanitize.MessageOf, HasEscape, Heard, IsWord;
    SanitizeProofs.MessageIsSafeTelnetLine(isPrint, l.message);
    EchoIsRecognizedExactly(isPrint, l);
    HeardExactly(l);
  }

  // ----- whole runs -----

  const OOC: bytes := [0x6F, 0x6F, 0x63]

  /** A line from Discord, as the hub publishes it. */
  function FromDiscord(l: Line): Event {
    Event("1", ORIGIN_DISCORD, OOC, l.name, l.message, 0)
  }

  function Ooc(): seq<Channel> {
    [Channel(OOC, true, true, "")]
  }

  function OneServer(): map<string, seq<Inbound>> {
    map["k" := [Inbound(OOC, true)]]
  }

  /** Published once, injected once and echoed at once. */
  function Leak(l: Line): seq<Action> {
    [FromHub(FromDiscord(l)), Route(0, ["k"], SeenCache.Call("1", 0, 0), None), Send(0, false),
     Deliver("k", Some([]), 0), Echo("k", 0, OOC, "2")]
  }

  lemma SettledIsValid(isPrint: Sanitize.Table, l: Line)
    requires Sanitize.IsPrintTable(isPrint) && Clean(isPrint, l) == l && !IsBlank(l)
    ensures IsValid(FromDiscord(l))
  {
    hide Sanitize.NameOf, Sanitize.TelnetLineOf;
    SanitizeProofs.NameOnePassSuffices(l.name);
    SanitizeProofs.LineIsSafe(isPrint, l.message, Sanitize.MAX_MESSAGE_LEN);
  }

  /** The hub takes the line and plans it for the one server. */
  lemma HubPlansIt(isPrint: Sanitize.Table, s: State, l: Line)
    requires Sanitize.IsPrintTable(isPrint) && Clean(isPrint, l) == l && !IsBlank(l)
    requires s.channels == Ooc() && s.seen == SeenCache.Fresh(30_000_000_000, 0) && s.inFlight == []
    ensures var said := Said(ORIGIN_DISCORD, l);
            var t := Next(isPrint, Next(isPrint, s, Leak(l)[0]), Leak(l)[1]);
            && t.inFlight == [Sending(said, OOC, FromDiscord(l).(hop := 1), ["k"])]
            && t.peers == s.peers && t.now == s.now
            && t.spoken == s.spoken + multiset{said} && t.forwarded == s.forwarded + multiset{said}
  {
    hide Sanitize.NameOf, Sanitize.MessageOf, Decide, SeenCache.IsDuplicate, SeenCache.After;
    var said := Said(ORIGIN_DISCORD, l);
    var t := Next(isPrint, s, Leak(l)[0]);
    assert Hub.Received(isPrint, FromDiscord(l)) == FromDiscord(l);
    assert [] + [Arrived(said, OOC, FromDiscord(l))] == [Arrived(said, OOC, FromDiscord(l))];
    assert t.inFlight == [Arrived(said, OOC, FromDiscord(l))];
    assert (set key | key in ["k"]) == {"k"};
    SettledIsValid(isPrint, l);
    RouterPlansIt(l);
  }

  lemma RouterPlansIt(l: Line)
    requires IsValid(FromDiscord(l))
    ensures Decide(SeenCache.Fresh(30_000_000_000, 0), Ooc(), FromDiscord(l), ["k"], SeenCache.Call("1", 0, 0), None)
            == Plan(None, ["k"])
  {
    assert ["k"][..0] == [] && Others([], ORIGIN_DISCORD) == [];
    assert Others(["k"], ORIGIN_DISCORD) == ["k"];
    assert FindChannel(Ooc(), OOC) == Some(Ooc()[0]);
  }

  /** The agent injects it, and reports what it hears. */
  lemma AgentReportsIt(isPrint: Sanitize.Table, s: State, l: Line, heard: Line)
    requires Clean(isPrint, l) == l && !IsBlank(l) && Heard(l) == Some(heard)
    requires Clean(isPrint, heard) == heard && !IsBlank(heard) && l != heard
    requires s.inFlight == [Sending(Said(ORIGIN_DISCORD, l), OOC, FromDiscord(l).(hop := 1), ["k"])]
    requires s.now == 0 && s.peers == map["k" := NewPeer(OneServer()["k"])]
    ensures var t := Next(isPrint, Next(isPrint, Next(isPrint, s, Leak(l)[2]), Leak(l)[3]), Leak(l)[4]);
            t.spoken == s.spoken && t.forwarded == s.forwarded + multiset{Said("k", heard)}
  {
    hide Sanitize.NameOf, Sanitize.MessageOf, Heard, Key;
    var p := s.peers["k"];
    var r := Relay(Said(ORIGIN_DISCORD, l), OOC, FromDiscord(l).(hop := 1));
    var t := Next(isPrint, s, Leak(l)[2]);
    assert [] + [r] == [r];
    assert t.peers["k"] == p.(down := [r]);
    var u := Next(isPrint, t, Leak(l)[3]);
    assert Incoming(isPrint, "k", t.peers["k"], Some([])) == Some(l);
    var q := u.peers["k"];
    assert q.owed == [Owed(l, 0)];
    assert q.echo == EchoCache.Remembered(p.echo, Key(l), 0, 0);
    assert EchoCache.Live(p.echo.expiry, 0) == map[];
    assert q.echo.expiry.Keys == {Key(l)};
    CleanIsNamed(isPrint, l);
    CleanIsNamed(isPrint, heard);
    if Key(heard) == Key(l) {
      SameKeySameLine(l, heard);
    }
    assert Reports(isPrint, q.echo, 0, heard);
  }

  /** A line from Discord that comes back changed, published once and injected once, makes the
      agent report a line that nobody said. Every other condition is kept: the echo is at once,
      nothing else is owed and the cache is empty. */
  lemma ChangedIsMultiplied(isPrint: Sanitize.Table, l: Line, heard: Line)
    requires Sanitize.IsPrintTable(isPrint) && Clean(isPrint, l) == l && !IsBlank(l) && Heard(l) == Some(heard)
    requires Clean(isPrint, heard) == heard && !IsBlank(heard) && l != heard
    ensures var s := Run(isPrint, Start(0, Ooc(), OneServer()), Leak(l));
            s.forwarded[Said("k", heard)] == 1 && s.spoken[Said("k", heard)] == 0
  {
    hide Next, Clean, Heard, Key;
    var s, ops := Start(0, Ooc(), OneServer()), Leak(l);
    assert ops[..5] == ops && ops[..5][..4] == ops[..4] && ops[..4][..3] == ops[..3] && ops[..3][..2] == ops[..2];
    assert ops[..2][..1] == ops[..1] && ops[..1][..0] == [];
    assert s.peers == map["k" := NewPeer(OneServer()["k"])];
    HubPlansIt(isPrint, s, l);
    AgentReportsIt(isPrint, Next(isPrint, Next(isPrint, s, ops[0]), ops[1]), l, heard);
    assert Run(isPrint, s, ops[..1]) == Next(isPrint, s, ops[0]);
    assert Run(isPrint, s, ops[..2]) == Next(isPrint, Run(isPrint, s, ops[..1]), ops[1]);
    assert Run(isPrint, s, ops[..3]) == Next(isPrint, Run(isPrint, s, ops[..2]), ops[2]);
    assert Run(isPrint, s, ops[..4]) == Next(isPrint, Run(isPrint, s, ops[..3]), ops[3]);
    assert Run(isPrint, s, ops) == Next(isPrint, Run(isPrint, s, ops[..4]), ops[4]);
  }

  /** A percent sign typed on Discord. */
  lemma PercentIsMultiplied(isPrint: Sanitize.Table)
    requires Sanitize.IsPrintTable(isPrint) && forall r :: 0x21 <= r < 0x7F ==> isPrint(r)
    ensures var s := Run(isPrint, Start(0, Ooc(), OneServer()), Leak(PERCENT_TYPED));
            s.forwarded[Said("k", PERCENT_HEARD)] == 1 && s.spoken[Said("k", PERCENT_HEARD)] == 0
  {
    hide Run, Clean, Heard;
    PercentComesBackDifferent(isPrint);
    ChangedIsMultiplied(isPrint, PERCENT_TYPED, PERCENT_HEARD);
  }

  /** A name with an apostrophe. */
  lemma ApostropheIsMultiplied(isPrint: Sanitize.Table)
    requires Sanitize.IsPrintTable(isPrint) && forall r :: 0x21 <= r < 0x7F ==> isPrint(r)
    ensures var s := Run(isPrint, Start(0, Ooc(), OneServer()), Leak(OBRIEN_SAYS));
            s.forwarded[Said("k", BRIEN_SAYS)] == 1 && s.spoken[Said("k", BRIEN_SAYS)] == 0
  {
    hide Run, Clean, Heard;
    ApostropheComesBackDifferent(isPrint);
    ChangedIsMultiplied(isPrint, OBRIEN_SAYS, BRIEN_SAYS);
  }
}
