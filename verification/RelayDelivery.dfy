/** A line said on one server is printed on another: what each step of the relay passes on to the next
    (agent/agent.go, hub/hub.go). */
module RelayDelivery {
  import opened Bytes
  import opened Router
  import opened Agent
  import opened RelaySystem
  import Hub
  import OocTrigger
  import Sanitize
  import SanitizeProofs
  import SeenCache
  import opened Wrappers

  /** A player at `key` says something, the report arrives, is routed on the listing of the two
      servers, sent to `other` and injected there. */
  function Journey(key: string, other: string, channel: bytes, text: bytes, id: string, call: SeenCache.Call,
                   rendered: Option<string>, command: bytes, later: int): seq<Action>
  {
    [Speak(key, channel, text, id), Arrive(key, false), Route(0, [key, other], call, rendered), Send(0, false),
     Deliver(other, Some(command), later)]
  }

  /** Nothing is on its way between the two servers. */
  predicate IsQuiet(s: State, key: string, other: string) {
    && key != other && key in s.peers && other in s.peers && s.inFlight == []
    && s.peers[key].up == [] && s.peers[other].down == []
  }

  /** The event as it reaches the router: sanitized by the agent and by the hub. */
  function OnHub(isPrint: Sanitize.Table, key: string, channel: bytes, raw: Line, id: string): Event {
    Event(id, key, channel, Sanitize.NameOf(raw.name),
          Sanitize.MessageOf(isPrint, Sanitize.MessageOf(isPrint, raw.message)), 0)
  }

  lemma SpeakingQueues(isPrint: Sanitize.Table, s: State, key: string, channel: bytes, text: bytes, id: string,
                       raw: Line)
    requires key in s.peers && s.peers[key].up == [] && OocTrigger.Read(text) == Some(raw)
    requires Reports(isPrint, s.peers[key].echo, s.now, raw)
    ensures var t, said := Next(isPrint, s, Speak(key, channel, text, id)), Said(key, Clean(isPrint, raw));
            && t.peers.Keys == s.peers.Keys && (forall k :: k in s.peers && k != key ==> t.peers[k] == s.peers[k])
            && t.peers[key].up == [Relay(said, channel, Reported(key, id, channel, Clean(isPrint, raw)))]
            && t.inFlight == s.inFlight && t.seen == s.seen && t.channels == s.channels && t.now == s.now
            && t.spoken == s.spoken + multiset{said} && t.forwarded == s.forwarded + multiset{said}
  {
    hide Clean, OocTrigger.Read, Key;
    var report := Relay(Said(key, Clean(isPrint, raw)), channel, Reported(key, id, channel, Clean(isPrint, raw)));
    assert [] + [report] == [report];
  }

  lemma ArrivingReaches(isPrint: Sanitize.Table, s: State, key: string, raw: Line, channel: bytes, id: string)
    requires key in s.peers && s.inFlight == []
    requires s.peers[key].up
             == [Relay(Said(key, Clean(isPrint, raw)), channel, Reported(key, id, channel, Clean(isPrint, raw)))]
    ensures var t := Next(isPrint, s, Arrive(key, false));
            && t.peers.Keys == s.peers.Keys && (forall k :: k in s.peers && k != key ==> t.peers[k] == s.peers[k])
            && t.inFlight == [Arrived(Said(key, Clean(isPrint, raw)), channel, OnHub(isPrint, key, channel, raw, id))]
            && t.seen == s.seen && t.channels == s.channels && t.now == s.now
  {
    hide Sanitize.NameOf, Sanitize.MessageOf;
    SanitizeProofs.NameOnePassSuffices(raw.name);
    var event := OnHub(isPrint, key, channel, raw, id);
    assert Hub.Received(isPrint, s.peers[key].up[0].event.(origin := key)) == event;
    assert [] + [Arrived(Said(key, Clean(isPrint, raw)), channel, event)]
           == [Arrived(Said(key, Clean(isPrint, raw)), channel, event)];
  }

  lemma RoutingPlans(isPrint: Sanitize.Table, s: State, key: string, other: string, said: Said, channel: bytes,
                     e: Event, i: nat, call: SeenCache.Call, rendered: Option<string>)
    requires s.inFlight == [Arrived(said, channel, e)] && key != other && e.origin == key
    requires IsAcceptable(s.seen, s.channels, e, call, rendered) && IsFirstOfName(s.channels, i, e.channel)
    requires s.channels[i].isCrossServer
    ensures var t := Next(isPrint, s, Route(0, [key, other], call, rendered));
            && t.inFlight == [Sending(said, channel, e.(hop := 1), [other])]
            && t.peers == s.peers && t.now == s.now
  {
    hide Decide, SeenAfter, IsAcceptable, IsFirstOfName;
    var plan := Decide(s.seen, s.channels, e, [key, other], call, rendered);
    AcceptedMeansFirstHopIf(s.seen, s.channels, e, [key, other], call, rendered);
    forall k ensures multiset(plan.targets)[k] == multiset([other])[k] {
      TargetsExactly(s.seen, s.channels, e, [key, other], call, rendered, i, k);
    }
    OnlyOne(plan.targets, other);
    assert multiset([key, other]) == multiset(set k | k in [key, other]) by {
      assert (set k | k in [key, other]) == {key, other};
    }
  }

  lemma AcceptedMeansFirstHopIf(seen: SeenCache.Seen, channels: seq<Channel>, e: Event, connected: seq<string>,
                                call: SeenCache.Call, rendered: Option<string>)
    requires IsAcceptable(seen, channels, e, call, rendered)
    ensures Decide(seen, channels, e, connected, call, rendered).Plan? && e.hop == 0
  {
    hide Decide;
    AcceptedExactly(seen, channels, e, connected, call, rendered);
  }

  lemma OnlyOne(t: seq<string>, x: string)
    requires forall k :: multiset(t)[k] == multiset([x])[k]
    ensures t == [x]
  {
    assert multiset(t) == multiset([x]);
    assert |t| == |multiset(t)| == 1;
    assert t[0] in multiset(t);
  }

  lemma SendingQueues(isPrint: Sanitize.Table, s: State, other: string, said: Said, channel: bytes, frame: Event)
    requires s.inFlight == [Sending(said, channel, frame, [other])] && other in s.peers && s.peers[other].down == []
    ensures var t := Next(isPrint, s, Send(0, false));
            && other in t.peers && t.peers[other] == s.peers[other].(down := [Relay(said, channel, frame)])
            && t.now == s.now
  {
    assert [] + [Relay(said, channel, frame)] == [Relay(said, channel, frame)];
  }

  /** One more line has been printed at `other`. */
  ghost predicate HasPrinted(t: State, other: string, before: seq<Printed>, x: Printed) {
    other in t.peers && t.peers[other].printed == before + [x]
  }

  lemma DeliveringPrints(isPrint: Sanitize.Table, s: State, other: string, p: Peer, said: Said, channel: bytes,
                         frame: Event, command: bytes, later: int)
    requires other in s.peers && s.peers[other] == p && p.down == [Relay(said, channel, frame)] && s.now <= later
    requires frame.origin != other && IsOpened(p.channels, frame.channel) && Sanitize.IsSafeTelnetLine(command)
    requires IsSettledText(isPrint, frame)
    ensures HasPrinted(Next(isPrint, s, Deliver(other, Some(command), later)), other, p.printed,
                       Printed(said, channel, Line(frame.name, frame.message)))
  {
    hide Sanitize.NameOf, Sanitize.MessageOf, IsOpen, IsOpened, Sanitize.IsSafeTelnetLine, Key;
    OpenExactly(p.channels, frame.channel);
    assert Incoming(isPrint, other, p, Some(command)) == Some(Line(frame.name, frame.message));
  }

  predicate IsSettledText(isPrint: Sanitize.Table, e: Event) {
    && Sanitize.NameOf(e.name) == e.name && e.name != []
    && Sanitize.MessageOf(isPrint, e.message) == e.message && e.message != []
  }

  /** A line that an agent reports, on a channel that links servers and is open on the other one, is
      printed there once: its name sanitized and its message sanitized twice. */
  lemma {:induction false} LineIsDelivered(
      isPrint: Sanitize.Table, s: State, key: string, other: string, channel: bytes, text: bytes, id: string, raw: Line,
      i: nat, call: SeenCache.Call, rendered: Option<string>, command: bytes, later: int)
    requires Sanitize.IsPrintTable(isPrint) && IsQuiet(s, key, other) && s.now <= later
    requires OocTrigger.Read(text) == Some(raw) && Reports(isPrint, s.peers[key].echo, s.now, raw)
    requires IsAcceptable(s.seen, s.channels, OnHub(isPrint, key, channel, raw, id), call, rendered)
    requires IsFirstOfName(s.channels, i, channel) && s.channels[i].isCrossServer
    requires IsOpened(s.peers[other].channels, channel) && Sanitize.IsSafeTelnetLine(command)
    ensures HasPrinted(Run(isPrint, s, Journey(key, other, channel, text, id, call, rendered, command, later)), other,
                       s.peers[other].printed,
                       Printed(Said(key, Clean(isPrint, raw)), channel,
                               Line(Sanitize.NameOf(raw.name),
                                    Sanitize.MessageOf(isPrint, Sanitize.MessageOf(isPrint, raw.message)))))
  {
    hide Next, Sanitize.NameOf, Sanitize.MessageOf, IsAcceptable, IsFirstOfName, IsOpened, Sanitize.IsSafeTelnetLine;
    hide Reports, OocTrigger.Read, Sanitize.IsPrintTable, IsSettledText, HasPrinted, Clean;
    var ops := Journey(key, other, channel, text, id, call, rendered, command, later);
    var e, said, p := OnHub(isPrint, key, channel, raw, id), Said(key, Clean(isPrint, raw)), s.peers[other];
    assert ops[..5] == ops && ops[..5][..4] == ops[..4] && ops[..4][..3] == ops[..3] && ops[..3][..2] == ops[..2];
    assert ops[..2][..1] == ops[..1] && ops[..1][..0] == [];
    SpeakingQueues(isPrint, s, key, channel, text, id, raw);
    var s1 := Run(isPrint, s, ops[..1]);
    assert Run(isPrint, s, []) == s;
    assert s1 == Next(isPrint, s, ops[0]);
    ArrivingReaches(isPrint, s1, key, raw, channel, id);
    var s2 := Run(isPrint, s, ops[..2]);
    assert s2 == Next(isPrint, s1, ops[1]);
    RoutingPlans(isPrint, s2, key, other, said, channel, e, i, call, rendered);
    var s3 := Run(isPrint, s, ops[..3]);
    assert s3 == Next(isPrint, s2, ops[2]);
    SendingQueues(isPrint, s3, other, said, channel, e.(hop := 1));
    var s4 := Run(isPrint, s, ops[..4]);
    assert s4 == Next(isPrint, s3, ops[3]);
    SettledOnHub(isPrint, key, channel, raw, id, s.seen, s.channels, call, rendered);
    var q := p.(down := [Relay(said, channel, e.(hop := 1))]);
    DeliveringPrints(isPrint, s4, other, q, said, channel, e.(hop := 1), command, later);
    assert Run(isPrint, s, ops) == Next(isPrint, s4, ops[4]);
  }

  lemma SettledOnHub(isPrint: Sanitize.Table, key: string, channel: bytes, raw: Line, id: string,
                     seen: SeenCache.Seen, channels: seq<Channel>, call: SeenCache.Call, rendered: Option<string>)
    requires Sanitize.IsPrintTable(isPrint)
    requires IsAcceptable(seen, channels, OnHub(isPrint, key, channel, raw, id), call, rendered)
    ensures var e := OnHub(isPrint, key, channel, raw, id);
            IsSettledText(isPrint, e) && IsSettledText(isPrint, e.(hop := 1))
  {
    hide Sanitize.NameOf, Sanitize.TelnetLineOf, Sanitize.IsPrintTable;
    SanitizeProofs.NameOnePassSuffices(raw.name);
    SanitizeProofs.TwoPassesSuffice(isPrint, raw.message, Sanitize.MAX_MESSAGE_LEN);
  }
}
