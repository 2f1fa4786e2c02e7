/** The whole relay: players, game servers that echo what is injected into them, agents, the links
    and the hub, whose publishing is interleaved with everything else (agent/agent.go,
    agent/echo.go, telnet/telnet_msg.go, hub/hub.go, hub/router.go).

An echo that an agent reports gets a new identifier and hop 0, so neither of the hub's loop guards
can tell it from chat. Only the agents' echo caches keep a line from being multiplied, and the
theorems below say what they achieve over whole runs.
*/
module RelaySystem {
  import opened Bytes
  import opened Router
  import opened Agent
  import EchoCache
  import Hub
  import Sanitize
  import SanitizeProofs
  import SeenCache
  import SendQueue
  import OocTrigger
  import TelnetText
  import opened Wrappers

  /** A line with the server it was said on. */
  datatype Said = Said(server: string, line: Line)

  /** An event on a link, with the line it stands for and the channel, both as the first agent
      reported them. */
  datatype Relay = Relay(said: Said, channel: bytes, event: Event)

  /** An injected line whose echo the game has not produced yet. */
  datatype Owed = Owed(line: Line, at: int)

  /** An injected line, with the one it stands for and its channel. */
  datatype Printed = Printed(said: Said, channel: bytes, line: Line)

  /** A game server with its agent. `up` is the agent's queue towards the hub, `down` the queue of
      its session on the hub, `printed` what has been injected into the game, in order. */
  datatype Peer = Peer(
    channels: seq<Inbound>, echo: EchoCache.Echoes, owed: seq<Owed>,
    up: seq<Relay>, down: seq<Relay>, printed: seq<Printed>)

  /** A publish in progress on the hub: sanitized and on its way to the router, or being sent to
      the targets that are left. */
  datatype Publishing =
    | Arrived(said: Said, channel: bytes, event: Event)
    | Sending(said: Said, channel: bytes, frame: Event, targets: seq<string>)
    | Ended

  /** `spoken` is what players said, `forwarded` what was reported to the hub and `routed` what the
      hub's router accepted, each with its number of times. */
  datatype State = State(
    now: int, channels: seq<Channel>, seen: SeenCache.Seen, peers: map<string, Peer>,
    inFlight: seq<Publishing>,
    spoken: multiset<Said>, forwarded: multiset<Said>, routed: multiset<Said>)

  /** `text` is any line of the game that nobody injected, `connected` the listing of sessions a
      publish took at some time before it is routed, and `isGone` tells that a target's session had
      left when its turn came. */
  datatype Action =
    | Tick(now: int)
    | Speak(key: string, channel: bytes, text: bytes, id: string)
    | Echo(key: string, i: nat, channel: bytes, id: string)
    | LoseEcho(key: string, i: nat)
    | Arrive(key: string, limited: bool)
    | FromHub(event: Event)
    | Route(publish: nat, connected: seq<string>, call: SeenCache.Call, rendered: Option<string>)
    | Send(publish: nat, isGone: bool)
    | Deliver(key: string, command: Option<bytes>, later: int)
    | LoseUp(key: string)
    | LoseDown(key: string)
    | SetChannels(channels: seq<Channel>)

  function NewPeer(channels: seq<Inbound>): Peer {
    Peer(channels, EchoCache.Fresh(15_000_000_000), [], [], [], [])
  }

  /** What was printed, as it was said. */
  function Prints(printed: seq<Printed>): multiset<Said> {
    if printed == [] then multiset{}
    else Prints(printed[..|printed| - 1]) + multiset{printed[|printed| - 1].said}
  }

  function Start(now: int, channels: seq<Channel>, inbound: map<string, seq<Inbound>>): State {
    State(now, channels, SeenCache.Fresh(30_000_000_000, now),
          map key | key in inbound :: NewPeer(inbound[key]), [], multiset{}, multiset{}, multiset{})
  }

  /** A queue after one more entry, shedding its oldest when full. */
  function Queued(q: seq<Relay>, r: Relay, capacity: nat): seq<Relay> {
    SendQueue.Newest(q + [r], capacity)
  }

  // ----- an agent's steps -----

  function AfterPublish(isPrint: Sanitize.Table, key: string, p: Peer, now: int, channel: bytes,
                        raw: Line, id: string): Peer {
    var l := Clean(isPrint, raw);
    var q := p.(echo := AfterLookup(isPrint, p.echo, raw));
    if !Reports(isPrint, p.echo, now, raw) then q
    else
      var report := Relay(Said(key, l), channel, Reported(key, id, channel, l));
      q.(up := Queued(q.up, report, 512))
  }

  function Without(owed: seq<Owed>, i: nat): seq<Owed>
    requires i < |owed|
  {
    owed[..i] + owed[i + 1..]
  }

  function Incoming(isPrint: Sanitize.Table, key: string, p: Peer, command: Option<bytes>): Option<Line>
    requires p.down != []
  {
    Injected(isPrint, key, p.channels, p.down[0].event, command)
  }

  function AfterInject(isPrint: Sanitize.Table, key: string, p: Peer, command: Option<bytes>,
                       now: int, later: int): Peer
    requires p.down != []
  {
    var q := p.(down := p.down[1..]);
    match Incoming(isPrint, key, p, command)
    case None => q
    case Some(l) =>
      q.(echo := EchoCache.Remembered(p.echo, Key(l), now, later),
         owed := p.owed + [Owed(l, later)],
         printed := p.printed + [Printed(p.down[0].said, p.down[0].channel, l)])
  }

  // ----- the hub's steps -----

  function Queue(p: Peer, r: Relay): Peer {
    p.(down := Queued(p.down, r, 256))
  }

  /** Each key once. */
  ghost predicate IsListing(connected: seq<string>) {
    multiset(connected) == multiset(set key | key in connected)
  }

  function Routed(s: State, a: Action): State
    requires a.Route? && a.publish < |s.inFlight| && s.inFlight[a.publish].Arrived?
  {
    var p := s.inFlight[a.publish];
    var plan := Decide(s.seen, s.channels, p.event, a.connected, a.call, a.rendered);
    var t := s.(seen := SeenAfter(s.seen, p.event, a.call));
    if plan.Refused? then t.(inFlight := s.inFlight[a.publish := Ended])
    else
      t.(inFlight := s.inFlight[a.publish := Sending(p.said, p.channel, Hub.Relayed(p.event), plan.targets)],
         routed := s.routed + multiset{p.said})
  }

  function SentOn(s: State, a: Action): State
    requires a.Send? && a.publish < |s.inFlight|
    requires s.inFlight[a.publish].Sending? && s.inFlight[a.publish].targets != []
  {
    var p := s.inFlight[a.publish];
    var key := p.targets[0];
    var t := s.(inFlight := s.inFlight[a.publish := p.(targets := p.targets[1..])]);
    if a.isGone || key !in s.peers then t
    else t.(peers := s.peers[key := Queue(s.peers[key], Relay(p.said, p.channel, p.frame))])
  }

  // ----- the machine -----

  ghost predicate IsEnabled(s: State, a: Action) {
    match a
    case Tick(now) => s.now <= now
    case Speak(key, _, _, _) => key in s.peers
    case Echo(key, i, _, _) => key in s.peers && i < |s.peers[key].owed|
    case LoseEcho(key, i) => key in s.peers && i < |s.peers[key].owed|
    case Arrive(key, _) => key in s.peers && s.peers[key].up != []
    case FromHub(_) => true
    case Route(i, connected, _, _) => i < |s.inFlight| && s.inFlight[i].Arrived? && IsListing(connected)
    case Send(i, _) => i < |s.inFlight| && s.inFlight[i].Sending? && s.inFlight[i].targets != []
    case Deliver(key, _, later) => key in s.peers && s.peers[key].down != [] && s.now <= later
    case LoseUp(key) => key in s.peers && s.peers[key].up != []
    case LoseDown(key) => key in s.peers
    case SetChannels(_) => true
  }

  function Spoken(isPrint: Sanitize.Table, key: string, raw: Line): multiset<Said> {
    var l := Clean(isPrint, raw);
    if IsBlank(l) then multiset{} else multiset{Said(key, l)}
  }

  function Forwarded(isPrint: Sanitize.Table, key: string, p: Peer, now: int, raw: Line): multiset<Said> {
    if Reports(isPrint, p.echo, now, raw) then multiset{Said(key, Clean(isPrint, raw))} else multiset{}
  }

  /** One step of somebody. A step that is not enabled leaves the state alone. */
  ghost function Next(isPrint: Sanitize.Table, s: State, a: Action): State {
    if !IsEnabled(s, a) then s
    else
      match a
      case Tick(now) => s.(now := now)
      case Speak(key, channel, text, id) =>
        var p, heard := s.peers[key], OocTrigger.Read(text);
        if heard.None? then s
        else
          var raw := heard.value;
          s.(peers := s.peers[key := AfterPublish(isPrint, key, p, s.now, channel, raw, id)],
             spoken := s.spoken + Spoken(isPrint, key, raw),
             forwarded := s.forwarded + Forwarded(isPrint, key, p, s.now, raw))
      case Echo(key, i, channel, id) =>
        var p, heard := s.peers[key], OocTrigger.Heard(s.peers[key].owed[i].line);
        var q := p.(owed := Without(p.owed, i));
        if heard.None? then s.(peers := s.peers[key := q])
        else
          var raw := heard.value;
          s.(peers := s.peers[key := AfterPublish(isPrint, key, q, s.now, channel, raw, id)],
             forwarded := s.forwarded + Forwarded(isPrint, key, p, s.now, raw))
      case LoseEcho(key, i) =>
        var p := s.peers[key];
        s.(peers := s.peers[key := p.(owed := Without(p.owed, i))])
      case Arrive(key, limited) =>
        var p := s.peers[key];
        var t := s.(peers := s.peers[key := p.(up := p.up[1..])]);
        if limited then t
        else
          var event := Hub.Received(isPrint, p.up[0].event.(origin := key));
          t.(inFlight := s.inFlight + [Arrived(p.up[0].said, p.up[0].channel, event)])
      case FromHub(e) =>
        var said := Said(e.origin, LineOf(e));
        s.(inFlight := s.inFlight + [Arrived(said, e.channel, Hub.Received(isPrint, e))],
           spoken := s.spoken + multiset{said}, forwarded := s.forwarded + multiset{said})
      case Route(_, _, _, _) => Routed(s, a)
      case Send(_, _) => SentOn(s, a)
      case Deliver(key, command, later) =>
        var p := s.peers[key];
        s.(now := later,
           peers := s.peers[key := AfterInject(isPrint, key, p, command, s.now, later)])
      case LoseUp(key) =>
        var p := s.peers[key];
        s.(peers := s.peers[key := p.(up := p.up[1..])])
      case LoseDown(key) => s.(peers := s.peers[key := s.peers[key].(down := [])])
      case SetChannels(channels) => s.(channels := channels)
  }

  ghost function Run(isPrint: Sanitize.Table, s: State, actions: seq<Action>): State {
    if actions == [] then s
    else Next(isPrint, Run(isPrint, s, actions[..|actions| - 1]), actions[|actions| - 1])
  }

  function LineOf(e: Event): Line {
    Line(e.name, e.message)
  }

  // ----- what the games have to keep to -----

  /** At time `t` every echo still to come can be recognized. */
  ghost predicate InTime(p: Peer, t: int) {
    forall i :: 0 <= i < |p.owed| ==> t < p.owed[i].at + p.echo.ttl
  }

  ghost predicate IsOwed(p: Peer, l: Line) {
    exists i :: 0 <= i < |p.owed| && p.owed[i].line == l
  }

  /** The trigger captures the whole name and the reader leaves the message alone. */
  ghost predicate ComesBack(l: Line) {
    OocTrigger.IsWord(l.name) && !TelnetText.HasEscape(l.message)
  }

  /** A line may be injected when its echo comes back as it went in, no echo of the same line is
      owed, and the cache is not about to be dropped for its size. */
  ghost predicate MayInject(p: Peer, now: int, l: Line) {
    ComesBack(l) && !IsOwed(p, l) && !EchoCache.Floods(p.echo, now)
  }

  /** Echoes come back before their suppression lapses or not at all, and only lines that may be
      injected are. */
  ghost predicate KeepsUp(isPrint: Sanitize.Table, s: State, a: Action) {
    match a
    case Tick(now) => forall key :: key in s.peers ==> InTime(s.peers[key], now)
    case Deliver(key, command, later) =>
      && (forall k :: k in s.peers ==> InTime(s.peers[k], later))
      && (IsEnabled(s, a) ==>
            var l := Incoming(isPrint, key, s.peers[key], command);
            l.Some? ==> MayInject(s.peers[key], s.now, l.value))
    case _ => true
  }

  ghost predicate AllKeepUp(isPrint: Sanitize.Table, s: State, actions: seq<Action>) {
    forall i :: 0 <= i < |actions| ==> KeepsUp(isPrint, Run(isPrint, s, actions[..i]), actions[i])
  }

  /** Every injected line is echoed exactly once: no echo goes missing. */
  ghost predicate AllEchoed(actions: seq<Action>) {
    forall i :: 0 <= i < |actions| ==> !actions[i].LoseEcho?
  }

  // ----- one agent against its game -----

  /** One more sanitizing pass over the line changes nothing, and neither does the reader. */
  ghost predicate IsSettled(isPrint: Sanitize.Table, l: Line) {
    Clean(isPrint, l) == l && !IsBlank(l) && OocTrigger.Heard(l) == Some(l)
  }

  /** Sanitizing the line once settles it. */
  ghost predicate Settles(isPrint: Sanitize.Table, l: Line) {
    Clean(isPrint, Clean(isPrint, l)) == Clean(isPrint, l)
  }

  ghost predicate HoldsFor(p: Peer, key: bytes) {
    exists i :: 0 <= i < |p.owed| && Key(p.owed[i].line) == key
  }

  /** An owed line's entry, if the cache still holds it, carries its deadline. When no echo has
      gone missing (`exact`), the cache holds nothing else. */
  ghost predicate Guarded(isPrint: Sanitize.Table, p: Peer, now: int, exact: bool) {
    && p.echo.ttl == 15_000_000_000 && p.echo.limit == 4096
    && InTime(p, now)
    && (forall i :: 0 <= i < |p.owed| ==> IsSettled(isPrint, p.owed[i].line))
    && (forall i, j :: 0 <= i < j < |p.owed| ==> p.owed[i].line != p.owed[j].line)
    && (forall i :: 0 <= i < |p.owed| && Key(p.owed[i].line) in p.echo.expiry ==>
          p.echo.expiry[Key(p.owed[i].line)] == p.owed[i].at + p.echo.ttl)
    && (exact ==> forall key :: key in p.echo.expiry ==> HoldsFor(p, key))
    && (forall r :: r in p.down ==> Settles(isPrint, LineOf(r.event)))
  }

  /** The entry for an owed line has been used up by a player who said the same. */
  ghost predicate IsBorrowed(p: Peer, l: Line) {
    IsOwed(p, l) && Key(l) !in p.echo.expiry
  }

  function One(b: bool): nat {
    if b then 1 else 0
  }

  /** Reports never exceed what is due, and meet it when no echo has gone missing. */
  predicate Covers(reported: int, due: int, exact: bool) {
    reported <= due && (exact ==> reported == due)
  }

  predicate IsNamed(l: Line) {
    Sanitize.NameOf(l.name) == l.name
  }

  lemma SameKeySameLine(a: Line, b: Line)
    requires IsNamed(a) && IsNamed(b) && Key(a) == Key(b)
    ensures a == b
  {
    hide Sanitize.NameOf;
    SanitizeProofs.EchoKeyIsInjective(a.name, a.message, b.name, b.message);
  }

  lemma CleanIsNamed(isPrint: Sanitize.Table, l: Line)
    ensures IsNamed(Clean(isPrint, l))
  {
    hide Sanitize.NameOf, Sanitize.MessageOf;
    SanitizeProofs.NameOnePassSuffices(l.name);
  }

  lemma SettledIsNamed(isPrint: Sanitize.Table, l: Line)
    requires IsSettled(isPrint, l)
    ensures IsNamed(l) && Clean(isPrint, l) == l && !IsBlank(l) && OocTrigger.Heard(l) == Some(l)
  {
    CleanIsNamed(isPrint, l);
  }

  lemma OwedIsNamed(isPrint: Sanitize.Table, p: Peer, now: int, exact: bool, l: Line)
    requires Guarded(isPrint, p, now, exact) && IsOwed(p, l)
    ensures IsNamed(l)
  {
    hide Clean, Settles, Key;
    var i :| 0 <= i < |p.owed| && p.owed[i].line == l;
    SettledIsNamed(isPrint, l);
  }

  lemma OwedIsSettled(isPrint: Sanitize.Table, p: Peer, now: int, exact: bool, i: nat)
    requires Guarded(isPrint, p, now, exact) && i < |p.owed|
    ensures IsSettled(isPrint, p.owed[i].line)
  {
    hide Clean, Key;
  }

  /** The entry of an owed line is live, so the line is reported exactly when its entry is gone. */
  lemma OwedIsReportedExactly(isPrint: Sanitize.Table, p: Peer, now: int, exact: bool, i: nat)
    requires Guarded(isPrint, p, now, exact) && i < |p.owed|
    ensures var l := p.owed[i].line;
            && OocTrigger.Heard(l) == Some(l)
            && (Reports(isPrint, p.echo, now, l) <==> Key(l) !in p.echo.expiry)
  {
    hide Clean, Key, Settles;
    OwedIsSettled(isPrint, p, now, exact, i);
    SettledIsNamed(isPrint, p.owed[i].line);
  }

  /** When no echo has gone missing, every entry is held for an owed line. */
  lemma HeldIsOwed(isPrint: Sanitize.Table, p: Peer, now: int, l: Line)
    requires Guarded(isPrint, p, now, true) && IsNamed(l) && Key(l) in p.echo.expiry
    ensures IsOwed(p, l)
  {
    hide Key, Clean, Settles, IsSettled;
    assert HoldsFor(p, Key(l));
    var i :| 0 <= i < |p.owed| && Key(p.owed[i].line) == Key(l);
    OwedIsSettled(isPrint, p, now, true, i);
    SettledIsNamed(isPrint, p.owed[i].line);
    SameKeySameLine(p.owed[i].line, l);
  }

  /** Publishing touches the cache at one key only, and nothing else that is guarded. */
  lemma PublishStaysGuarded(isPrint: Sanitize.Table, key: string, p: Peer, now: int, exact: bool,
                            channel: bytes, raw: Line, id: string)
    requires Guarded(isPrint, p, now, exact)
    ensures Guarded(isPrint, AfterPublish(isPrint, key, p, now, channel, raw, id), now, exact)
  {
    hide Clean, Key, IsSettled, Settles, Reports, Queued;
    var q := AfterPublish(isPrint, key, p, now, channel, raw, id);
    forall k | exact && k in q.echo.expiry ensures HoldsFor(q, k) {
      assert HoldsFor(p, k);
    }
  }

  /** A player's line is reported, or takes over the entry of the same line that is owed, or falls
      to an entry whose echo has gone missing. */
  lemma SpeakingBalances(isPrint: Sanitize.Table, key: string, p: Peer, now: int, exact: bool,
                         channel: bytes, raw: Line, id: string, l: Line)
    requires Guarded(isPrint, p, now, exact)
    ensures var q := AfterPublish(isPrint, key, p, now, channel, raw, id);
            Covers(One(IsBorrowed(q, l)) + Forwarded(isPrint, key, p, now, raw)[Said(key, l)],
                   One(IsBorrowed(p, l)) + Spoken(isPrint, key, raw)[Said(key, l)], exact)
  {
    hide Clean, Key, Settles, IsSettled, Queued;
    var c := Clean(isPrint, raw);
    var q := AfterPublish(isPrint, key, p, now, channel, raw, id);
    CleanIsNamed(isPrint, raw);
    assert IsOwed(q, l) == IsOwed(p, l);
    if IsOwed(p, l) {
      OwedIsNamed(isPrint, p, now, exact, l);
      if Key(l) == Key(c) {
        SameKeySameLine(l, c);
      }
    }
    if exact && !IsBlank(c) && Key(c) in p.echo.expiry {
      HeldIsOwed(isPrint, p, now, c);
    }
    if IsOwed(p, c) && Key(c) in p.echo.expiry {
      var i :| 0 <= i < |p.owed| && p.owed[i].line == c;
      assert p.echo.expiry[Key(p.owed[i].line)] == p.owed[i].at + p.echo.ttl;
    }
  }

  /** An echo uses up its entry, or is reported in place of the line that used it. */
  lemma EchoBalances(isPrint: Sanitize.Table, key: string, p: Peer, now: int, exact: bool, i: nat,
                     channel: bytes, id: string, l: Line)
    requires Guarded(isPrint, p, now, exact) && i < |p.owed|
    ensures var raw := p.owed[i].line;
            var q := AfterPublish(isPrint, key, p.(owed := Without(p.owed, i)), now, channel, raw, id);
            One(IsBorrowed(q, l)) + Forwarded(isPrint, key, p, now, raw)[Said(key, l)]
            == One(IsBorrowed(p, l))
  {
    hide Clean, Key, Settles, Reports, Queued, OocTrigger.Heard;
    var line := p.owed[i].line;
    OwedIsSettled(isPrint, p, now, exact, i);
    SettledIsNamed(isPrint, line);
    hide IsSettled;
    OwedIsReportedExactly(isPrint, p, now, exact, i);
    OwedWithout(p, i, l);
    assert IsOwed(p, line);
    if IsOwed(p, l) && Key(l) == Key(line) {
      OwedIsNamed(isPrint, p, now, exact, l);
      SameKeySameLine(l, line);
    }
  }

  lemma OwedWithout(p: Peer, i: nat, l: Line)
    requires i < |p.owed|
    requires forall j, k :: 0 <= j < k < |p.owed| ==> p.owed[j].line != p.owed[k].line
    ensures IsOwed(p.(owed := Without(p.owed, i)), l) <==> IsOwed(p, l) && l != p.owed[i].line
  {
    var q := p.(owed := Without(p.owed, i));
    assert forall j :: 0 <= j < i ==> q.owed[j] == p.owed[j];
    assert forall j :: i <= j < |q.owed| ==> q.owed[j] == p.owed[j + 1];
    if IsOwed(p, l) && l != p.owed[i].line {
      var j :| 0 <= j < |p.owed| && p.owed[j].line == l;
      assert q.owed[if j < i then j else j - 1].line == l;
    }
  }

  lemma RestAt(owed: seq<Owed>, i: nat, j: nat)
    requires i < |owed|
    ensures |Without(owed, i)| == |owed| - 1
    ensures j < |owed| - 1 ==> Without(owed, i)[j] == owed[if j < i then j else j + 1]
  {
  }

  /** An echo that is no longer owed, with its entry gone or left behind. */
  lemma EndedStaysGuarded(isPrint: Sanitize.Table, p: Peer, now: int, exact: bool, i: nat, q: Peer)
    requires Guarded(isPrint, p, now, exact) && i < |p.owed|
    requires q.owed == Without(p.owed, i) && q.down == p.down
    requires q.echo == EchoCache.Consumed(p.echo, Key(p.owed[i].line)) || (!exact && q.echo == p.echo)
    ensures Guarded(isPrint, q, now, exact)
  {
    hide Key, Settles, IsSettled, Without;
    forall j | 0 <= j < |q.owed|
      ensures now < q.owed[j].at + q.echo.ttl && IsSettled(isPrint, q.owed[j].line)
      ensures Key(q.owed[j].line) in q.echo.expiry ==>
                q.echo.expiry[Key(q.owed[j].line)] == q.owed[j].at + q.echo.ttl
    {
      RestAt(p.owed, i, j);
    }
    forall j, k | 0 <= j < k < |q.owed| ensures q.owed[j].line != q.owed[k].line {
      RestAt(p.owed, i, j);
      RestAt(p.owed, i, k);
    }
    forall k | exact && k in q.echo.expiry ensures HoldsFor(q, k) {
      assert HoldsFor(p, k);
      var j :| 0 <= j < |p.owed| && Key(p.owed[j].line) == k;
      assert j != i;
      RestAt(p.owed, i, if j < i then j else j - 1);
    }
  }

  lemma EchoStaysGuarded(isPrint: Sanitize.Table, key: string, p: Peer, now: int, exact: bool, i: nat,
                         channel: bytes, id: string)
    requires Guarded(isPrint, p, now, exact) && i < |p.owed|
    ensures var raw := p.owed[i].line;
            var q := AfterPublish(isPrint, key, p.(owed := Without(p.owed, i)), now, channel, raw, id);
            Guarded(isPrint, q, now, exact)
  {
    hide Key, Settles, Queued, Guarded, Reports, Clean, OocTrigger.Heard;
    OwedIsSettled(isPrint, p, now, exact, i);
    SettledIsNamed(isPrint, p.owed[i].line);
    var raw := p.owed[i].line;
    EndedStaysGuarded(isPrint, p, now, exact, i,
                      AfterPublish(isPrint, key, p.(owed := Without(p.owed, i)), now, channel, raw, id));
  }

  // ----- injections -----

  lemma {:induction false} FewKeys(p: Peer, keys: set<bytes>, n: nat)
    requires n <= |p.owed|
    requires forall key :: key in keys ==> exists i :: 0 <= i < n && Key(p.owed[i].line) == key
    ensures |keys| <= n
  {
    hide Key;
    if n == 0 {
      assert keys == {};
    } else {
      var last := Key(p.owed[n - 1].line);
      FewKeys(p, keys - {last}, n - 1);
    }
  }

  /** While no echo has gone missing, the cache is not dropped as long as at most 4096 are owed. */
  lemma FewOwedNeverFlood(isPrint: Sanitize.Table, p: Peer, now: int)
    requires Guarded(isPrint, p, now, true) && |p.owed| <= 4096
    ensures !EchoCache.Floods(p.echo, now)
  {
    hide Key, Clean, Settles, IsSettled;
    forall k | k in p.echo.expiry ensures exists i :: 0 <= i < |p.owed| && Key(p.owed[i].line) == k {
      assert HoldsFor(p, k);
    }
    FewKeys(p, EchoCache.Live(p.echo.expiry, now).Keys, |p.owed|);
  }

  /** Remembering sets its own entry and leaves those of owed lines, which are live, alone. */
  lemma RememberingKeepsOwed(isPrint: Sanitize.Table, p: Peer, now: int, exact: bool, l: Line, later: int, k: bytes)
    requires Guarded(isPrint, p, now, exact) && !EchoCache.Floods(p.echo, now)
    ensures var t := EchoCache.Remembered(p.echo, Key(l), now, later).expiry;
            && Key(l) in t && t[Key(l)] == later + p.echo.ttl
            && (k != Key(l) && k in t ==> k in p.echo.expiry && t[k] == p.echo.expiry[k])
            && (k != Key(l) && HoldsFor(p, k) ==> (k in t <==> k in p.echo.expiry))
  {
    hide Key, Clean, Settles, IsSettled;
    if HoldsFor(p, k) {
      var i :| 0 <= i < |p.owed| && Key(p.owed[i].line) == k;
    }
  }

  lemma InjectStaysGuarded(isPrint: Sanitize.Table, key: string, p: Peer, command: Option<bytes>,
                           now: int, exact: bool, later: int)
    requires Sanitize.IsPrintTable(isPrint) && Guarded(isPrint, p, now, exact) && p.down != [] && InTime(p, later)
    requires var l := Incoming(isPrint, key, p, command); l.Some? ==> MayInject(p, now, l.value)
    ensures Guarded(isPrint, AfterInject(isPrint, key, p, command, now, later), later, exact)
  {
    hide Key, EchoCache.Remembered, EchoCache.Floods, ComesBack, OocTrigger.Heard;
    var incoming := Incoming(isPrint, key, p, command);
    var q := AfterInject(isPrint, key, p, command, now, later);
    if incoming.Some? {
      InjectedIsSettled(isPrint, key, p, command);
      hide Clean, Incoming, IsSettled, Settles;
      var l := incoming.value;
      RememberedStaysGuarded(isPrint, p, now, exact, l, later, q);
    } else {
      hide Clean, IsSettled, Settles;
      forall k | exact && k in q.echo.expiry ensures HoldsFor(q, k) {
        assert HoldsFor(p, k);
      }
    }
  }

  lemma InjectedIsSettled(isPrint: Sanitize.Table, key: string, p: Peer, command: Option<bytes>)
    requires Sanitize.IsPrintTable(isPrint) && p.down != [] && Settles(isPrint, LineOf(p.down[0].event))
    requires var l := Incoming(isPrint, key, p, command); l.Some? && ComesBack(l.value)
    ensures IsSettled(isPrint, Incoming(isPrint, key, p, command).value)
  {
    hide Sanitize.NameOf, Sanitize.MessageOf, OocTrigger.Heard, OocTrigger.IsWord, TelnetText.HasEscape;
    hide Sanitize.IsPrintTable;
    OocTrigger.ComesBackUnchanged(isPrint, Incoming(isPrint, key, p, command).value);
  }

  lemma RememberedStaysGuarded(isPrint: Sanitize.Table, p: Peer, now: int, exact: bool, l: Line,
                               later: int, q: Peer)
    requires Guarded(isPrint, p, now, exact) && InTime(p, later) && !EchoCache.Floods(p.echo, now)
    requires IsSettled(isPrint, l) && !IsOwed(p, l)
    requires q.echo == EchoCache.Remembered(p.echo, Key(l), now, later)
    requires q.owed == p.owed + [Owed(l, later)] && forall r :: r in q.down ==> r in p.down
    ensures Guarded(isPrint, q, later, exact)
  {
    hide Key, Clean, Settles, IsSettled, EchoCache.Remembered, EchoCache.Floods;
    var n := |p.owed|;
    assert q.owed[n] == Owed(l, later) && forall j :: 0 <= j < n ==> q.owed[j] == p.owed[j];
    RememberedKeepsTtl(p.echo, Key(l), now, later);
    SettledIsNamed(isPrint, l);
    RememberingKeepsOwed(isPrint, p, now, exact, l, later, Key(l));
    forall j | 0 <= j < n && Key(p.owed[j].line) in q.echo.expiry
      ensures q.echo.expiry[Key(p.owed[j].line)] == p.owed[j].at + p.echo.ttl
    {
      OwedIsSettled(isPrint, p, now, exact, j);
      SettledIsNamed(isPrint, p.owed[j].line);
      if Key(p.owed[j].line) == Key(l) {
        SameKeySameLine(p.owed[j].line, l);
      }
      RememberingKeepsOwed(isPrint, p, now, exact, l, later, Key(p.owed[j].line));
    }
    forall k | exact && k in q.echo.expiry ensures HoldsFor(q, k) {
      if k != Key(l) {
        RememberingKeepsOwed(isPrint, p, now, exact, l, later, k);
        assert HoldsFor(p, k);
        var j :| 0 <= j < n && Key(p.owed[j].line) == k;
        assert q.owed[j] == p.owed[j];
      }
    }
  }

  lemma RememberedKeepsTtl(s: EchoCache.Echoes, key: bytes, now: int, later: int)
    ensures var t := EchoCache.Remembered(s, key, now, later); t == s.(expiry := t.expiry)
  {
  }

  /** Injecting a line that is not owed borrows nothing. */
  lemma InjectBorrowsNothing(isPrint: Sanitize.Table, key: string, p: Peer, command: Option<bytes>,
                             now: int, exact: bool, later: int, l: Line)
    requires Guarded(isPrint, p, now, exact) && p.down != []
    requires var c := Incoming(isPrint, key, p, command); c.Some? ==> MayInject(p, now, c.value)
    ensures IsBorrowed(AfterInject(isPrint, key, p, command, now, later), l) <==> IsBorrowed(p, l)
  {
    hide Key, EchoCache.Remembered, EchoCache.Floods, ComesBack, Clean, IsSettled, Settles;
    var incoming := Incoming(isPrint, key, p, command);
    var q := AfterInject(isPrint, key, p, command, now, later);
    if incoming.Some? {
      var c := incoming.value;
      IncomingIsNamed(isPrint, key, p, command);
      assert q.owed[|p.owed|] == Owed(c, later);
      assert forall j :: 0 <= j < |p.owed| ==> q.owed[j] == p.owed[j];
      RememberingKeepsOwed(isPrint, p, now, exact, c, later, Key(l));
      if IsOwed(p, l) {
        OwedIsNamed(isPrint, p, now, exact, l);
        var i :| 0 <= i < |p.owed| && p.owed[i].line == l;
        assert HoldsFor(p, Key(l));
        if Key(l) == Key(c) {
          SameKeySameLine(l, c);
        }
      }
    }
  }

  lemma IncomingIsNamed(isPrint: Sanitize.Table, key: string, p: Peer, command: Option<bytes>)
    requires p.down != [] && Incoming(isPrint, key, p, command).Some?
    ensures IsNamed(Incoming(isPrint, key, p, command).value)
  {
    CleanIsNamed(isPrint, LineOf(p.down[0].event));
  }

  // ----- the books of the whole system -----

  /** How many entries of a queue stand for `x`. */
  function Count(q: seq<Relay>, x: Said): nat {
    if q == [] then 0 else One(q[0].said == x) + Count(q[1..], x)
  }

  lemma {:induction false} CountAppend(a: seq<Relay>, b: seq<Relay>, x: Said)
    ensures Count(a + b, x) == Count(a, x) + Count(b, x)
  {
    if a == [] {
      assert a + b == b;
    } else {
      assert (a + b)[1..] == a[1..] + b;
      CountAppend(a[1..], b, x);
    }
  }

  /** A full queue sheds entries and makes none up. */
  lemma QueueingShedsOnly(q: seq<Relay>, r: Relay, capacity: nat, x: Said)
    ensures Count(Queued(q, r, capacity), x) <= Count(q, x) + One(r.said == x)
  {
    var all := q + [r];
    var k := |all| - |Queued(q, r, capacity)|;
    assert Queued(q, r, capacity) == all[k..];
    hide Queued;
    CountAppend(q, [r], x);
    assert Count([r][1..], x) == 0;
    CountAppend(all[..k], all[k..], x);
    assert all == all[..k] + all[k..];
  }

  lemma QueuedElements(q: seq<Relay>, r: Relay, capacity: nat, e: Relay)
    requires e in Queued(q, r, capacity)
    ensures e == r || e in q
  {
    var all := q + [r];
    assert e in all;
  }

  function IsWaiting(p: Publishing, x: Said): bool {
    p.Arrived? && p.said == x
  }

  /** How many publishes of `x` the router has not decided on. */
  function Waits(q: seq<Publishing>, x: Said): nat {
    if q == [] then 0 else Waits(q[..|q| - 1], x) + One(IsWaiting(q[|q| - 1], x))
  }

  function Brings(p: Publishing, key: string, x: Said): nat {
    if p.Sending? && p.said == x then multiset(p.targets)[key] else 0
  }

  /** How many copies of `x` are still to be queued for `key`. */
  function Coming(q: seq<Publishing>, key: string, x: Said): nat {
    if q == [] then 0 else Coming(q[..|q| - 1], key, x) + Brings(q[|q| - 1], key, x)
  }

  lemma {:induction false} ProgressWaits(q: seq<Publishing>, i: nat, p: Publishing, x: Said)
    requires i < |q|
    ensures Waits(q[i := p], x) + One(IsWaiting(q[i], x)) == Waits(q, x) + One(IsWaiting(p, x))
  {
    var last := |q| - 1;
    if i < last {
      ProgressWaits(q[..last], i, p, x);
      assert q[i := p][..last] == q[..last][i := p];
    } else {
      assert q[i := p][..last] == q[..last];
    }
  }

  lemma {:induction false} ProgressComing(q: seq<Publishing>, i: nat, p: Publishing, key: string, x: Said)
    requires i < |q|
    ensures Coming(q[i := p], key, x) + Brings(q[i], key, x) == Coming(q, key, x) + Brings(p, key, x)
  {
    hide Brings;
    var last := |q| - 1;
    if i < last {
      ProgressComing(q[..last], i, p, key, x);
      assert q[i := p][..last] == q[..last][i := p];
    } else {
      assert q[i := p][..last] == q[..last];
    }
  }

  lemma ArrivalCounts(q: seq<Publishing>, said: Said, channel: bytes, event: Event, key: string, x: Said)
    ensures Waits(q + [Arrived(said, channel, event)], x) == Waits(q, x) + One(said == x)
    ensures Coming(q + [Arrived(said, channel, event)], key, x) == Coming(q, key, x)
  {
    assert (q + [Arrived(said, channel, event)])[..|q|] == q;
  }

  /** Every report of a line is due to a player who said it, except that an echo may be owed in
      its place. */
  ghost predicate IsBalanced(s: State, x: Said, exact: bool) {
    Covers(s.forwarded[x] + One(x.server in s.peers && IsBorrowed(s.peers[x.server], x.line)), s.spoken[x], exact)
  }

  function UpQueue(s: State, x: Said): seq<Relay> {
    if x.server in s.peers then s.peers[x.server].up else []
  }

  /** What was reported is queued, lost, on its way to the router or routed, once each. */
  ghost predicate IsAccounted(s: State, x: Said) {
    s.routed[x] + Waits(s.inFlight, x) + Count(UpQueue(s, x), x) <= s.forwarded[x]
  }

  /** What was routed is on its way to a game, lost or printed, once each. */
  ghost predicate IsDelivered(s: State, key: string, x: Said)
    requires key in s.peers
  {
    Prints(s.peers[key].printed)[x] + Count(s.peers[key].down, x) + Coming(s.inFlight, key, x) <= s.routed[x]
  }

  ghost predicate IsOf(isPrint: Sanitize.Table, e: Event, said: Said) {
    e.origin == said.server && Settles(isPrint, LineOf(e))
  }

  ghost predicate PublishOk(isPrint: Sanitize.Table, p: Publishing) {
    match p
    case Arrived(said, _, event) => IsOf(isPrint, event, said)
    case Sending(said, _, frame, _) => IsOf(isPrint, frame, said)
    case Ended => true
  }

  ghost predicate PeerOk(isPrint: Sanitize.Table, key: string, p: Peer, now: int, exact: bool) {
    && Guarded(isPrint, p, now, exact)
    && (forall r :: r in p.up ==> r.said.server == key)
    && (forall r :: r in p.down ==> r.event.origin == r.said.server)
    && (forall x :: x in p.printed ==> x.said.server != key)
  }

  ghost predicate Inv(isPrint: Sanitize.Table, s: State, exact: bool) {
    && (forall key :: key in s.peers ==> PeerOk(isPrint, key, s.peers[key], s.now, exact))
    && (forall key, x :: key in s.peers ==> IsDelivered(s, key, x))
    && (forall x :: IsAccounted(s, x))
    && (forall x :: IsBalanced(s, x, exact))
    && (forall i :: 0 <= i < |s.inFlight| ==> PublishOk(isPrint, s.inFlight[i]))
  }

  lemma StartInv(isPrint: Sanitize.Table, now: int, channels: seq<Channel>,
                 inbound: map<string, seq<Inbound>>, exact: bool)
    ensures Inv(isPrint, Start(now, channels, inbound), exact)
  {
  }

  lemma PeerLater(isPrint: Sanitize.Table, key: string, p: Peer, now: int, later: int, exact: bool)
    requires PeerOk(isPrint, key, p, now, exact) && InTime(p, later)
    ensures PeerOk(isPrint, key, p, later, exact)
  {
    hide Key, Clean, IsSettled, Settles;
  }

  lemma InTimeNow(isPrint: Sanitize.Table, s: State, exact: bool)
    requires Inv(isPrint, s, exact)
    ensures forall k :: k in s.peers ==> InTime(s.peers[k], s.now)
  {
    hide IsAccounted, IsBalanced, IsDelivered, PublishOk;
    forall k | k in s.peers ensures InTime(s.peers[k], s.now) {
      assert PeerOk(isPrint, k, s.peers[k], s.now, exact);
    }
  }

  /** A step of one peer that keeps the books of its agent and its game. */
  lemma LocalStep(isPrint: Sanitize.Table, s: State, t: State, key: string, exact: bool)
    requires Inv(isPrint, s, exact) && key in s.peers && t.peers.Keys == s.peers.Keys
    requires forall k :: k in s.peers && k != key ==> t.peers[k] == s.peers[k]
    requires forall k :: k in s.peers && k != key ==> InTime(s.peers[k], t.now)
    requires t.routed == s.routed && t.inFlight == s.inFlight
    requires forall x: Said :: x.server != key ==> t.forwarded[x] == s.forwarded[x] && t.spoken[x] == s.spoken[x]
    requires PeerOk(isPrint, key, t.peers[key], t.now, exact)
    requires forall x :: IsDelivered(t, key, x)
    requires forall l :: IsAccounted(t, Said(key, l)) && IsBalanced(t, Said(key, l), exact)
    ensures Inv(isPrint, t, exact)
  {
    hide PeerOk, IsBorrowed, Count, Waits, Coming, InTime, PublishOk, Covers;
    forall k | k in t.peers ensures PeerOk(isPrint, k, t.peers[k], t.now, exact) {
      if k != key {
        PeerLater(isPrint, k, s.peers[k], s.now, t.now, exact);
      }
    }
    forall k, x | k in t.peers ensures IsDelivered(t, k, x) {
      assert IsDelivered(s, k, x);
    }
    forall x ensures IsAccounted(t, x) && IsBalanced(t, x, exact) {
      if x.server == key {
        assert x == Said(key, x.line);
      } else {
        assert IsAccounted(s, x) && IsBalanced(s, x, exact);
      }
    }
  }

  // ----- an agent's steps keep the books -----

  /** Publishing queues a report as it counts it. `q` is the peer as it publishes. */
  lemma ReportingIsAccounted(isPrint: Sanitize.Table, s: State, t: State, key: string, q: Peer,
                             channel: bytes, raw: Line, id: string, x: Said)
    requires key in s.peers && q == s.peers[key].(owed := q.owed)
    requires t == s.(peers := s.peers[key := AfterPublish(isPrint, key, q, s.now, channel, raw, id)],
                     spoken := t.spoken, forwarded := s.forwarded + Forwarded(isPrint, key, q, s.now, raw))
    requires IsAccounted(s, x) && IsDelivered(s, key, x)
    ensures IsAccounted(t, x) && IsDelivered(t, key, x)
  {
    hide Clean, Key, Queued, Reports, AfterLookup, Count, Waits, Coming;
    if Reports(isPrint, q.echo, s.now, raw) {
      var l := Clean(isPrint, raw);
      QueueingShedsOnly(q.up, Relay(Said(key, l), channel, Reported(key, id, channel, l)), 512, x);
    }
  }

  lemma ReportingKeepsPeer(isPrint: Sanitize.Table, key: string, p: Peer, q: Peer, now: int, exact: bool,
                           channel: bytes, raw: Line, id: string)
    requires PeerOk(isPrint, key, p, now, exact) && q == p.(owed := q.owed)
    requires Guarded(isPrint, AfterPublish(isPrint, key, q, now, channel, raw, id), now, exact)
    ensures PeerOk(isPrint, key, AfterPublish(isPrint, key, q, now, channel, raw, id), now, exact)
  {
    hide Guarded, Clean, Key, Queued, Reports, AfterLookup;
    var t := AfterPublish(isPrint, key, q, now, channel, raw, id);
    var l := Clean(isPrint, raw);
    forall r | r in t.up ensures r.said.server == key {
      if Reports(isPrint, q.echo, now, raw) {
        QueuedElements(q.up, Relay(Said(key, l), channel, Reported(key, id, channel, l)), 512, r);
      }
    }
  }

  lemma SpeakKeepsInv(isPrint: Sanitize.Table, s: State, a: Action, exact: bool)
    requires Inv(isPrint, s, exact) && a.Speak? && IsEnabled(s, a)
    ensures Inv(isPrint, Next(isPrint, s, a), exact)
  {
    hide Guarded, IsBorrowed, Clean, Key, AfterPublish, InTime, IsAccounted, IsDelivered, OocTrigger.Read, PublishOk;
    if OocTrigger.Read(a.text).None? {
      return;
    }
    var p, t, raw := s.peers[a.key], Next(isPrint, s, a), OocTrigger.Read(a.text).value;
    assert PeerOk(isPrint, a.key, p, s.now, exact);
    PublishStaysGuarded(isPrint, a.key, p, s.now, exact, a.channel, raw, a.id);
    ReportingKeepsPeer(isPrint, a.key, p, p, s.now, exact, a.channel, raw, a.id);
    hide PeerOk;
    forall x ensures IsAccounted(t, x) && IsDelivered(t, a.key, x) {
      ReportingIsAccounted(isPrint, s, t, a.key, p, a.channel, raw, a.id, x);
    }
    forall l ensures IsBalanced(t, Said(a.key, l), exact) {
      assert IsBalanced(s, Said(a.key, l), exact);
      SpeakingBalances(isPrint, a.key, p, s.now, exact, a.channel, raw, a.id, l);
    }
    InTimeNow(isPrint, s, exact);
    LocalStep(isPrint, s, t, a.key, exact);
  }

  lemma EchoKeepsInv(isPrint: Sanitize.Table, s: State, a: Action, exact: bool)
    requires Inv(isPrint, s, exact) && a.Echo? && IsEnabled(s, a)
    ensures Inv(isPrint, Next(isPrint, s, a), exact)
  {
    hide Guarded, IsBorrowed, Clean, Key, AfterPublish, InTime, IsAccounted, IsDelivered, PublishOk, Without;
    hide OocTrigger.Heard;
    var p, t := s.peers[a.key], Next(isPrint, s, a);
    var q, raw := p.(owed := Without(p.owed, a.i)), p.owed[a.i].line;
    assert PeerOk(isPrint, a.key, p, s.now, exact);
    OwedIsReportedExactly(isPrint, p, s.now, exact, a.i);
    EchoStaysGuarded(isPrint, a.key, p, s.now, exact, a.i, a.channel, a.id);
    ReportingKeepsPeer(isPrint, a.key, p, q, s.now, exact, a.channel, raw, a.id);
    hide PeerOk;
    forall x ensures IsAccounted(t, x) && IsDelivered(t, a.key, x) {
      ReportingIsAccounted(isPrint, s, t, a.key, q, a.channel, raw, a.id, x);
    }
    forall l ensures IsBalanced(t, Said(a.key, l), exact) {
      assert IsBalanced(s, Said(a.key, l), exact);
      EchoBalances(isPrint, a.key, p, s.now, exact, a.i, a.channel, a.id, l);
    }
    InTimeNow(isPrint, s, exact);
    LocalStep(isPrint, s, t, a.key, exact);
  }

  /** An echo that goes missing leaves at most an entry behind, which can only swallow a line. */
  lemma LoseEchoKeepsInv(isPrint: Sanitize.Table, s: State, a: Action)
    requires Inv(isPrint, s, false) && a.LoseEcho? && IsEnabled(s, a)
    ensures Inv(isPrint, Next(isPrint, s, a), false)
  {
    hide Guarded, Key, InTime, PublishOk, Without, Count, Waits, Coming;
    hide AfterPublish, AfterInject, Clean, OocTrigger.Heard, OocTrigger.Read;
    var p, t := s.peers[a.key], Next(isPrint, s, a);
    assert PeerOk(isPrint, a.key, p, s.now, false);
    EndedStaysGuarded(isPrint, p, s.now, false, a.i, t.peers[a.key]);
    forall x ensures IsDelivered(t, a.key, x) {
      assert IsDelivered(s, a.key, x);
    }
    forall l ensures IsAccounted(t, Said(a.key, l)) && IsBalanced(t, Said(a.key, l), false) {
      assert IsAccounted(s, Said(a.key, l)) && IsBalanced(s, Said(a.key, l), false);
      OwedAreDistinct(isPrint, p, s.now, false);
      OwedWithout(p, a.i, l);
    }
    InTimeNow(isPrint, s, false);
    LocalStep(isPrint, s, t, a.key, false);
  }

  lemma OwedAreDistinct(isPrint: Sanitize.Table, p: Peer, now: int, exact: bool)
    requires Guarded(isPrint, p, now, exact)
    ensures forall i, j :: 0 <= i < j < |p.owed| ==> p.owed[i].line != p.owed[j].line
  {
    hide Key, Clean;
  }

  lemma DeliverKeepsInv(isPrint: Sanitize.Table, s: State, a: Action, exact: bool)
    requires Sanitize.IsPrintTable(isPrint) && Inv(isPrint, s, exact)
    requires a.Deliver? && IsEnabled(s, a) && KeepsUp(isPrint, s, a)
    ensures Inv(isPrint, Next(isPrint, s, a), exact)
  {
    hide Guarded, IsBorrowed, AfterInject, Incoming, MayInject, IsAccounted, IsDelivered, PublishOk, InTime;
    hide Sanitize.IsPrintTable;
    var p, t := s.peers[a.key], Next(isPrint, s, a);
    assert PeerOk(isPrint, a.key, p, s.now, exact);
    InjectStaysGuarded(isPrint, a.key, p, a.command, s.now, exact, a.later);
    InjectingKeepsPeer(isPrint, a.key, p, a.command, s.now, exact, a.later);
    hide PeerOk;
    forall x ensures IsAccounted(t, x) && IsDelivered(t, a.key, x) {
      InjectingIsAccounted(isPrint, s, t, a, x);
    }
    forall l ensures IsBalanced(t, Said(a.key, l), exact) {
      assert IsBalanced(s, Said(a.key, l), exact);
      InjectBorrowsNothing(isPrint, a.key, p, a.command, s.now, exact, a.later, l);
    }
    LocalStep(isPrint, s, t, a.key, exact);
  }

  lemma InjectingKeepsPeer(isPrint: Sanitize.Table, key: string, p: Peer, command: Option<bytes>,
                           now: int, exact: bool, later: int)
    requires PeerOk(isPrint, key, p, now, exact) && p.down != []
    requires Guarded(isPrint, AfterInject(isPrint, key, p, command, now, later), later, exact)
    ensures PeerOk(isPrint, key, AfterInject(isPrint, key, p, command, now, later), later, exact)
  {
    hide Guarded, EchoCache.Remembered, Clean, Key;
    assert p.down[0] in p.down;
  }

  /** An injection moves an entry of the session's queue into the game. */
  lemma InjectingIsAccounted(isPrint: Sanitize.Table, s: State, t: State, a: Action, x: Said)
    requires a.Deliver? && IsEnabled(s, a) && t == Next(isPrint, s, a)
    requires IsAccounted(s, x) && IsDelivered(s, a.key, x)
    ensures IsAccounted(t, x) && IsDelivered(t, a.key, x)
  {
    hide EchoCache.Remembered, Clean, Key, Waits, Coming;
    var p := s.peers[a.key];
    assert Count(p.down, x) == One(p.down[0].said == x) + Count(p.down[1..], x);
  }

  lemma LossKeepsInv(isPrint: Sanitize.Table, s: State, a: Action, exact: bool)
    requires Inv(isPrint, s, exact) && (a.LoseUp? || a.LoseDown?) && IsEnabled(s, a)
    ensures Inv(isPrint, Next(isPrint, s, a), exact)
  {
    hide Guarded, PublishOk, InTime, IsBorrowed, IsAccounted, IsBalanced, IsDelivered;
    var p, t := s.peers[a.key], Next(isPrint, s, a);
    var q := t.peers[a.key];
    assert PeerOk(isPrint, a.key, p, s.now, exact);
    SamePeerGuarded(isPrint, p, q, s.now, exact);
    assert PeerOk(isPrint, a.key, q, t.now, exact);
    hide PeerOk;
    forall x ensures IsDelivered(t, a.key, x) && IsAccounted(t, x) && IsBalanced(t, x, exact) {
      assert IsDelivered(s, a.key, x) && IsAccounted(s, x) && IsBalanced(s, x, exact);
      LosingIsAccounted(s, t, a.key, x, exact);
    }
    InTimeNow(isPrint, s, exact);
    LocalStep(isPrint, s, t, a.key, exact);
  }

  /** A queue that lost entries is still accounted for. */
  lemma LosingIsAccounted(s: State, t: State, key: string, x: Said, exact: bool)
    requires key in s.peers && key in t.peers
    requires t == s.(peers := t.peers) && t.peers == s.peers[key := t.peers[key]]
    requires IsDelivered(s, key, x) && IsAccounted(s, x) && IsBalanced(s, x, exact)
    requires var p, q := s.peers[key], t.peers[key];
             && ((p.up != [] && q == p.(up := p.up[1..])) || q == p.(down := []))
             && (forall l :: IsBorrowed(q, l) == IsBorrowed(p, l))
    ensures IsDelivered(t, key, x) && IsAccounted(t, x) && IsBalanced(t, x, exact)
  {
    hide Waits, Coming, IsBorrowed, Covers;
    var p := s.peers[key];
    assert p.up != [] ==> Count(p.up[1..], x) <= Count(p.up, x);
  }

  lemma SamePeerGuarded(isPrint: Sanitize.Table, p: Peer, q: Peer, now: int, exact: bool)
    requires Guarded(isPrint, p, now, exact) && q.owed == p.owed && q.echo == p.echo
    requires forall r :: r in q.down ==> r in p.down || Settles(isPrint, LineOf(r.event))
    ensures Guarded(isPrint, q, now, exact)
    ensures forall l :: IsBorrowed(q, l) == IsBorrowed(p, l)
  {
    hide Key, Clean, IsSettled, Settles;
    forall k | exact && k in q.echo.expiry ensures HoldsFor(q, k) {
      assert HoldsFor(p, k);
    }
    forall l ensures IsOwed(q, l) == IsOwed(p, l) {
    }
  }

  // ----- the hub's steps keep the books -----

  lemma ReceivedSettles(isPrint: Sanitize.Table, e: Event, said: Said)
    requires Sanitize.IsPrintTable(isPrint) && e.origin == said.server
    ensures IsOf(isPrint, Hub.Received(isPrint, e), said)
  {
    hide Sanitize.NameOf, Sanitize.TelnetLineOf;
    SanitizeProofs.NameOnePassSuffices(e.name);
    SanitizeProofs.TwoPassesSuffice(isPrint, e.message, Sanitize.MAX_MESSAGE_LEN);
  }

  /** A publish that has just arrived at the hub. Its report is taken off the agent's queue, or
      counted, in the same step. */
  lemma ArrivalKeepsInv(isPrint: Sanitize.Table, s: State, t: State, said: Said, channel: bytes, event: Event,
                        exact: bool)
    requires Inv(isPrint, s, exact) && IsOf(isPrint, event, said)
    requires t == s.(inFlight := s.inFlight + [Arrived(said, channel, event)],
                     spoken := t.spoken, forwarded := t.forwarded)
    requires forall x :: IsBalanced(t, x, exact)
    requires forall x :: s.routed[x] + Waits(s.inFlight, x) + One(said == x) + Count(UpQueue(s, x), x) <= t.forwarded[x]
    ensures Inv(isPrint, t, exact)
  {
    hide PeerOk, IsOf, Count, Waits, Coming, IsBalanced, UpQueue;
    forall key, x | key in t.peers ensures IsDelivered(t, key, x) {
      assert IsDelivered(s, key, x);
      ArrivalCounts(s.inFlight, said, channel, event, key, x);
    }
    forall x ensures IsAccounted(t, x) {
      ArrivalCounts(s.inFlight, said, channel, event, "", x);
      assert UpQueue(t, x) == UpQueue(s, x) by { UpQueueOfPeers(s, t, x); }
    }
  }

  lemma UpQueueOfPeers(s: State, t: State, x: Said)
    requires s.peers == t.peers
    ensures UpQueue(s, x) == UpQueue(t, x)
  {
  }

  lemma ArriveKeepsInv(isPrint: Sanitize.Table, s: State, a: Action, exact: bool)
    requires Sanitize.IsPrintTable(isPrint) && Inv(isPrint, s, exact) && a.Arrive? && IsEnabled(s, a)
    ensures Inv(isPrint, Next(isPrint, s, a), exact)
  {
    hide Sanitize.IsPrintTable, Hub.Received, Inv, Waits, IsBalanced, IsOf, Count, UpQueue;
    var p := s.peers[a.key];
    var t, u := Next(isPrint, s, LoseUp(a.key)), Next(isPrint, s, a);
    LossKeepsInv(isPrint, s, LoseUp(a.key), exact);
    if a.limited {
      assert u == t;
    } else {
      var said, channel := p.up[0].said, p.up[0].channel;
      var e := p.up[0].event.(origin := a.key);
      var event := Hub.Received(isPrint, e);
      FirstReport(isPrint, s, a.key, exact);
      ReceivedSettles(isPrint, e, said);
      assert u == t.(inFlight := t.inFlight + [Arrived(said, channel, event)]);
      BalancedAlike(t, u, exact);
      ArrivalKeepsInv(isPrint, t, u, said, channel, event, exact);
    }
  }

  lemma BalancedAlike(s: State, t: State, exact: bool)
    requires s.peers == t.peers && s.spoken == t.spoken && s.forwarded == t.forwarded
    requires forall x :: IsBalanced(s, x, exact)
    ensures forall x :: IsBalanced(t, x, exact)
  {
    hide IsBorrowed, Covers;
    forall x ensures IsBalanced(t, x, exact) {
      assert IsBalanced(s, x, exact);
    }
  }

  /** Taking the first report leaves room for it on the hub. */
  lemma FirstReport(isPrint: Sanitize.Table, s: State, key: string, exact: bool)
    requires Inv(isPrint, s, exact) && key in s.peers && s.peers[key].up != []
    ensures s.peers[key].up[0].said.server == key
    ensures var said := s.peers[key].up[0].said;
            var t := Next(isPrint, s, LoseUp(key));
            forall x :: t.routed[x] + Waits(t.inFlight, x) + One(said == x) + Count(UpQueue(t, x), x) <= t.forwarded[x]
    ensures var t := Next(isPrint, s, LoseUp(key)); forall x :: IsBalanced(t, x, exact)
  {
    hide Guarded, Waits, PublishOk, IsDelivered;
    var p, t := s.peers[key], Next(isPrint, s, LoseUp(key));
    assert PeerOk(isPrint, key, p, s.now, exact) && p.up[0] in p.up;
    forall x
      ensures t.routed[x] + Waits(t.inFlight, x) + One(p.up[0].said == x) + Count(UpQueue(t, x), x) <= t.forwarded[x]
    {
      assert IsAccounted(s, x);
      if x.server == key {
        assert Count(p.up, x) == One(p.up[0].said == x) + Count(p.up[1..], x);
      }
    }
    hide Inv;
    LossKeepsInv(isPrint, s, LoseUp(key), exact);
    BalancedIn(isPrint, t, exact);
  }

  lemma BalancedIn(isPrint: Sanitize.Table, s: State, exact: bool)
    requires Inv(isPrint, s, exact)
    ensures forall x :: IsBalanced(s, x, exact) && IsAccounted(s, x)
  {
    hide IsBalanced, IsAccounted, PeerOk, IsDelivered;
  }

  lemma FromHubKeepsInv(isPrint: Sanitize.Table, s: State, a: Action, exact: bool)
    requires Sanitize.IsPrintTable(isPrint) && Inv(isPrint, s, exact) && a.FromHub?
    ensures Inv(isPrint, Next(isPrint, s, a), exact)
  {
    hide Sanitize.IsPrintTable, Hub.Received, Inv, Waits, Count, IsBorrowed, UpQueue;
    var said, t := Said(a.event.origin, LineOf(a.event)), Next(isPrint, s, a);
    ReceivedSettles(isPrint, a.event, said);
    BalancedIn(isPrint, s, exact);
    forall x ensures IsBalanced(t, x, exact) {
      assert IsBalanced(s, x, exact);
    }
    forall x ensures s.routed[x] + Waits(s.inFlight, x) + One(said == x) + Count(UpQueue(s, x), x) <= t.forwarded[x] {
      assert IsAccounted(s, x);
    }
    ArrivalKeepsInv(isPrint, s, t, said, a.event.channel, Hub.Received(isPrint, a.event), exact);
  }

  /** A listing names each key at most once, so a plan does too. */
  lemma PlannedAtMostOnce(connected: seq<string>, origin: string, key: string)
    requires IsListing(connected)
    ensures multiset(Others(connected, origin))[key] <= 1
  {
    OthersExactly(connected, origin, key);
  }

  lemma RouteKeepsInv(isPrint: Sanitize.Table, s: State, a: Action, exact: bool)
    requires Inv(isPrint, s, exact) && a.Route? && IsEnabled(s, a)
    ensures Inv(isPrint, Next(isPrint, s, a), exact)
  {
    hide PeerOk, IsBorrowed, Waits, Coming, Decide, SeenAfter, Settles, IsListing;
    var t, p := Routed(s, a), s.inFlight[a.publish];
    var slot := t.inFlight[a.publish];
    assert PublishOk(isPrint, p);
    forall x ensures IsAccounted(t, x) && IsBalanced(t, x, exact) {
      assert IsAccounted(s, x) && IsBalanced(s, x, exact);
      ProgressWaits(s.inFlight, a.publish, slot, x);
      assert UpQueue(t, x) == UpQueue(s, x);
    }
    forall key, x | key in t.peers ensures IsDelivered(t, key, x) {
      assert IsDelivered(s, key, x);
      ProgressComing(s.inFlight, a.publish, slot, key, x);
      PlanTargets(s, a, p, key);
    }
    forall i | 0 <= i < |t.inFlight| ensures PublishOk(isPrint, t.inFlight[i]) {
      assert PublishOk(isPrint, s.inFlight[i]);
    }
  }

  lemma PlanTargets(s: State, a: Action, p: Publishing, key: string)
    requires a.Route? && p.Arrived? && IsListing(a.connected)
    ensures var plan := Decide(s.seen, s.channels, p.event, a.connected, a.call, a.rendered);
            plan.Plan? ==> multiset(plan.targets)[key] <= 1
  {
    hide IsValid, SeenCache.IsDuplicate, FindChannel, IsMirrored, IsListing, Others;
    PlannedAtMostOnce(a.connected, p.event.origin, key);
  }

  lemma SendKeepsInv(isPrint: Sanitize.Table, s: State, a: Action, exact: bool)
    requires Inv(isPrint, s, exact) && a.Send? && IsEnabled(s, a)
    ensures Inv(isPrint, Next(isPrint, s, a), exact)
  {
    hide PeerOk, IsBorrowed, IsOf, IsAccounted, IsBalanced, IsDelivered, Queue;
    var t, p := SentOn(s, a), s.inFlight[a.publish];
    assert PublishOk(isPrint, p);
    forall key | key in t.peers
      ensures PeerOk(isPrint, key, t.peers[key], t.now, exact)
      ensures forall l :: IsBorrowed(t.peers[key], l) == IsBorrowed(s.peers[key], l)
    {
      QueueKeepsPeer(isPrint, key, s.peers[key], s.now, exact, Relay(p.said, p.channel, p.frame));
    }
    forall x ensures IsAccounted(t, x) && IsBalanced(t, x, exact) {
      assert IsAccounted(s, x) && IsBalanced(s, x, exact);
      SendingIsAccounted(s, t, a, x, exact);
    }
    forall key, x | key in t.peers ensures IsDelivered(t, key, x) {
      assert IsDelivered(s, key, x);
      SendingDelivers(s, t, a, key, x);
    }
    forall i | 0 <= i < |t.inFlight| ensures PublishOk(isPrint, t.inFlight[i]) {
      assert PublishOk(isPrint, s.inFlight[i]);
    }
  }

  lemma SendingIsAccounted(s: State, t: State, a: Action, x: Said, exact: bool)
    requires a.Send? && IsEnabled(s, a) && t == SentOn(s, a)
    requires IsAccounted(s, x) && IsBalanced(s, x, exact)
    requires forall key :: key in s.peers ==> forall l :: IsBorrowed(t.peers[key], l) == IsBorrowed(s.peers[key], l)
    ensures IsAccounted(t, x) && IsBalanced(t, x, exact)
  {
    hide Waits, Count, Covers, IsBorrowed, Queued;
    ProgressWaits(s.inFlight, a.publish, t.inFlight[a.publish], x);
  }

  /** One copy less to come is one more in the queue, or lost. */
  lemma SendingDelivers(s: State, t: State, a: Action, key: string, x: Said)
    requires a.Send? && IsEnabled(s, a) && t == SentOn(s, a) && key in s.peers
    requires IsDelivered(s, key, x)
    ensures IsDelivered(t, key, x)
  {
    hide Coming, Count, Queued;
    var p := s.inFlight[a.publish];
    ProgressComing(s.inFlight, a.publish, t.inFlight[a.publish], key, x);
    assert p.targets == [p.targets[0]] + p.targets[1..];
    QueueingShedsOnly(s.peers[key].down, Relay(p.said, p.channel, p.frame), 256, x);
  }

  /** A peer that gets a relayed entry stays as it must be. */
  lemma QueueKeepsPeer(isPrint: Sanitize.Table, key: string, p: Peer, now: int, exact: bool, r: Relay)
    requires PeerOk(isPrint, key, p, now, exact) && IsOf(isPrint, r.event, r.said)
    ensures PeerOk(isPrint, key, Queue(p, r), now, exact)
    ensures forall l :: IsBorrowed(Queue(p, r), l) == IsBorrowed(p, l)
  {
    hide Guarded, IsBorrowed, Settles, Queued;
    forall e | e in Queue(p, r).down ensures e == r || e in p.down {
      QueuedElements(p.down, r, 256, e);
    }
    SamePeerGuarded(isPrint, p, Queue(p, r), now, exact);
  }

  lemma TickKeepsInv(isPrint: Sanitize.Table, s: State, a: Action, exact: bool)
    requires Inv(isPrint, s, exact) && a.Tick? && IsEnabled(s, a) && KeepsUp(isPrint, s, a)
    ensures Inv(isPrint, Next(isPrint, s, a), exact)
  {
    hide PeerOk, IsBorrowed, Count, Waits, Coming, PublishOk, Covers;
    var t := Next(isPrint, s, a);
    forall k | k in t.peers ensures PeerOk(isPrint, k, t.peers[k], t.now, exact) {
      PeerLater(isPrint, k, s.peers[k], s.now, t.now, exact);
    }
    SameBooks(isPrint, s, t, exact);
  }

  /** The books do not depend on the clock, the router's filter and its table. */
  lemma SameBooks(isPrint: Sanitize.Table, s: State, t: State, exact: bool)
    requires Inv(isPrint, s, exact) && t == s.(now := t.now, seen := t.seen, channels := t.channels)
    requires forall k :: k in t.peers ==> PeerOk(isPrint, k, t.peers[k], t.now, exact)
    ensures Inv(isPrint, t, exact)
  {
    hide PeerOk, IsBorrowed, Count, Waits, Coming, PublishOk, Covers;
    forall k, x | k in t.peers ensures IsDelivered(t, k, x) {
      assert IsDelivered(s, k, x);
    }
    forall x ensures IsAccounted(t, x) && IsBalanced(t, x, exact) {
      assert IsAccounted(s, x) && IsBalanced(s, x, exact);
      assert UpQueue(t, x) == UpQueue(s, x);
    }
  }

  lemma NextKeepsInv(isPrint: Sanitize.Table, s: State, a: Action, exact: bool)
    requires Sanitize.IsPrintTable(isPrint) && Inv(isPrint, s, exact) && KeepsUp(isPrint, s, a)
    requires exact ==> !a.LoseEcho?
    ensures Inv(isPrint, Next(isPrint, s, a), exact)
  {
    hide Inv, KeepsUp, Sanitize.IsPrintTable;
    if IsEnabled(s, a) {
      match a
      case Tick(_) => TickKeepsInv(isPrint, s, a, exact);
      case Speak(_, _, _, _) => SpeakKeepsInv(isPrint, s, a, exact);
      case Echo(_, _, _, _) => EchoKeepsInv(isPrint, s, a, exact);
      case LoseEcho(_, _) => LoseEchoKeepsInv(isPrint, s, a);
      case Arrive(_, _) => ArriveKeepsInv(isPrint, s, a, exact);
      case FromHub(_) => FromHubKeepsInv(isPrint, s, a, exact);
      case Route(_, _, _, _) => RouteKeepsInv(isPrint, s, a, exact);
      case Send(_, _) => SendKeepsInv(isPrint, s, a, exact);
      case Deliver(_, _, _) => DeliverKeepsInv(isPrint, s, a, exact);
      case LoseUp(_) => LossKeepsInv(isPrint, s, a, exact);
      case LoseDown(_) => LossKeepsInv(isPrint, s, a, exact);
      case SetChannels(channels) => ChannelsKeepInv(isPrint, s, channels, exact);
    }
  }

  lemma ChannelsKeepInv(isPrint: Sanitize.Table, s: State, channels: seq<Channel>, exact: bool)
    requires Inv(isPrint, s, exact)
    ensures Inv(isPrint, s.(channels := channels), exact)
  {
    hide PeerOk, IsDelivered, IsAccounted, IsBalanced, PublishOk;
    SameBooks(isPrint, s, s.(channels := channels), exact);
  }

  lemma {:induction false} RunKeepsInv(isPrint: Sanitize.Table, s: State, actions: seq<Action>, exact: bool)
    requires Sanitize.IsPrintTable(isPrint) && Inv(isPrint, s, exact) && AllKeepUp(isPrint, s, actions)
    requires exact ==> AllEchoed(actions)
    ensures Inv(isPrint, Run(isPrint, s, actions), exact)
  {
    hide Inv, KeepsUp, Next, Sanitize.IsPrintTable;
    if actions != [] {
      var last := |actions| - 1;
      assert forall i :: 0 <= i < last ==> actions[..last][..i] == actions[..i];
      RunKeepsInv(isPrint, s, actions[..last], exact);
      NextKeepsInv(isPrint, Run(isPrint, s, actions[..last]), actions[last], exact);
    }
  }

  // ----- the guarantees -----

  /** When every injected line is echoed, the agents report exactly as many copies of each line as
      their players said, but for one that a player and an owed echo may still share: when no echo
      of the line is owed, they are equal. */
  lemma {:induction false} ReportedIsWhatWasSaid(isPrint: Sanitize.Table, now: int, channels: seq<Channel>,
                              inbound: map<string, seq<Inbound>>, actions: seq<Action>, x: Said)
    requires Sanitize.IsPrintTable(isPrint) && AllKeepUp(isPrint, Start(now, channels, inbound), actions)
    requires AllEchoed(actions)
    ensures var s := Run(isPrint, Start(now, channels, inbound), actions);
            && s.forwarded[x] <= s.spoken[x] <= s.forwarded[x] + 1
            && (!(x.server in s.peers && IsOwed(s.peers[x.server], x.line)) ==> s.forwarded[x] == s.spoken[x])
  {
    hide Next, KeepsUp, Sanitize.IsPrintTable, PeerOk;
    var s := Start(now, channels, inbound);
    StartInv(isPrint, now, channels, inbound, true);
    RunKeepsInv(isPrint, s, actions, true);
    assert IsBalanced(Run(isPrint, s, actions), x, true);
  }

  /** No amplification: whatever queues, links and echoes lose, the hub routes no line more often
      than it was said, and no game prints a line of another server more often than that, nor any
      of its own. */
  lemma {:induction false} NoAmplification(isPrint: Sanitize.Table, now: int, channels: seq<Channel>,
                        inbound: map<string, seq<Inbound>>, actions: seq<Action>)
    requires Sanitize.IsPrintTable(isPrint) && AllKeepUp(isPrint, Start(now, channels, inbound), actions)
    ensures var s := Run(isPrint, Start(now, channels, inbound), actions);
            && s.routed <= s.forwarded <= s.spoken
            && |s.routed| <= |s.spoken|
            && (forall key :: key in s.peers ==>
                  && Prints(s.peers[key].printed) <= s.spoken
                  && forall x :: x in s.peers[key].printed ==> x.said.server != key)
  {
    hide Next, KeepsUp, Guarded, IsBorrowed, Sanitize.IsPrintTable, AllKeepUp, Count, Waits, Coming;
    StartInv(isPrint, now, channels, inbound, false);
    RunKeepsInv(isPrint, Start(now, channels, inbound), actions, false);
    var s := Run(isPrint, Start(now, channels, inbound), actions);
    forall x ensures s.routed[x] <= s.forwarded[x] <= s.spoken[x] {
      assert IsBalanced(s, x, false) && IsAccounted(s, x);
    }
    SubsetIsSmaller(s.routed, s.spoken);
    forall key | key in s.peers
      ensures Prints(s.peers[key].printed) <= s.spoken
              && forall x :: x in s.peers[key].printed ==> x.said.server != key
    {
      assert PeerOk(isPrint, key, s.peers[key], s.now, false);
      forall x ensures Prints(s.peers[key].printed)[x] <= s.spoken[x] {
        assert IsDelivered(s, key, x) && s.routed[x] <= s.spoken[x];
      }
    }
  }

  lemma SubsetIsSmaller<T>(a: multiset<T>, b: multiset<T>)
    requires a <= b
    ensures |a| <= |b|
  {
    assert b == a + (b - a);
  }
}
