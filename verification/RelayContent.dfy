/** What travels is what was said: the books of the relay count lines, and here every event they
    count is shown to carry its line, channel and origin (agent/agent.go, hub/hub.go). */
module RelayContent {
  import opened Bytes
  import opened Router
  import opened Agent
  import opened RelaySystem
  import Hub
  import OocTrigger
  import Sanitize
  import SanitizeProofs
  import opened Wrappers

  /** A report carries the reported line, under the identity of its server. */
  ghost predicate IsReport(key: string, r: Relay) {
    && r.said.server == key && r.event.origin == key && r.event.channel == r.channel && r.event.hop == 0
    && r.event.name == r.said.line.name && r.event.message == r.said.line.message
  }

  /** On the hub an event carries the line as the hub sanitized it. */
  ghost predicate Carries(isPrint: Sanitize.Table, said: Said, channel: bytes, e: Event) {
    && e.origin == said.server && e.channel == channel
    && e.name == Sanitize.NameOf(said.line.name) && e.message == Sanitize.MessageOf(isPrint, said.line.message)
  }

  /** What is injected is the line as the hub and the agent sanitized it, said on another server,
      on a channel that is open here. */
  ghost predicate IsInjection(isPrint: Sanitize.Table, key: string, p: Peer, x: Printed) {
    && x.said.server != key && IsOpen(p.channels, x.channel)
    && x.line.name == Sanitize.NameOf(x.said.line.name)
    && x.line.message == Sanitize.MessageOf(isPrint, Sanitize.MessageOf(isPrint, x.said.line.message))
    && x.line.name != [] && x.line.message != []
  }

  ghost predicate PeerTells(isPrint: Sanitize.Table, key: string, p: Peer) {
    && (forall r :: r in p.up ==> IsReport(key, r))
    && (forall r :: r in p.down ==> Carries(isPrint, r.said, r.channel, r.event) && r.event.hop == 1)
    && (forall x :: x in p.printed ==> IsInjection(isPrint, key, p, x))
    && (forall o :: o in p.owed ==> exists x :: x in p.printed && x.line == o.line)
  }

  ghost predicate PublishTells(isPrint: Sanitize.Table, p: Publishing) {
    match p
    case Arrived(said, channel, event) => Carries(isPrint, said, channel, event)
    case Sending(said, channel, frame, _) => Carries(isPrint, said, channel, frame) && frame.hop == 1
    case Ended => true
  }

  ghost predicate Tells(isPrint: Sanitize.Table, s: State) {
    && (forall key :: key in s.peers ==> PeerTells(isPrint, key, s.peers[key]))
    && (forall i :: 0 <= i < |s.inFlight| ==> PublishTells(isPrint, s.inFlight[i]))
  }

  // ----- every step keeps it -----

  /** What an agent queues is the line it read, sanitized, on the channel it was read for. */
  lemma PublishingTells(isPrint: Sanitize.Table, key: string, p: Peer, q: Peer, now: int, channel: bytes, raw: Line,
                        id: string)
    requires PeerTells(isPrint, key, p) && q == p.(owed := q.owed) && forall o :: o in q.owed ==> o in p.owed
    ensures PeerTells(isPrint, key, AfterPublish(isPrint, key, q, now, channel, raw, id))
  {
    hide Sanitize.NameOf, Sanitize.MessageOf, Reports, AfterLookup, IsInjection, Carries, Queued;
    var t, l := AfterPublish(isPrint, key, q, now, channel, raw, id), Clean(isPrint, raw);
    var report := Relay(Said(key, l), channel, Reported(key, id, channel, l));
    forall r | r in t.up ensures IsReport(key, r) {
      if Reports(isPrint, q.echo, now, raw) {
        QueuedElements(q.up, report, 512, r);
      }
    }
    forall x | x in t.printed ensures IsInjection(isPrint, key, t, x) {
      SamePlaceInjection(isPrint, key, p, t, x);
    }
  }

  lemma WithoutIsLess(owed: seq<Owed>, i: nat)
    requires i < |owed|
    ensures forall o :: o in Without(owed, i) ==> o in owed
  {
  }

  /** A report on its way from an agent: the hub stamps the identity it knows and sanitizes. */
  lemma ArrivingTells(isPrint: Sanitize.Table, key: string, r: Relay)
    requires IsReport(key, r)
    ensures Carries(isPrint, r.said, r.channel, Hub.Received(isPrint, r.event.(origin := key)))
  {
    hide Sanitize.NameOf, Sanitize.MessageOf;
  }

  lemma FromHubTells(isPrint: Sanitize.Table, e: Event)
    ensures Carries(isPrint, Said(e.origin, LineOf(e)), e.channel, Hub.Received(isPrint, e))
  {
    hide Sanitize.NameOf, Sanitize.MessageOf;
  }

  lemma InjectingTells(isPrint: Sanitize.Table, key: string, p: Peer, command: Option<bytes>, now: int, later: int)
    requires PeerTells(isPrint, key, p) && p.down != []
    ensures PeerTells(isPrint, key, AfterInject(isPrint, key, p, command, now, later))
  {
    hide Sanitize.NameOf, Sanitize.MessageOf, IsOpen;
    var q := AfterInject(isPrint, key, p, command, now, later);
    var r := p.down[0];
    assert r in p.down;
    if Incoming(isPrint, key, p, command).Some? {
      var x := Printed(r.said, r.channel, Incoming(isPrint, key, p, command).value);
      SanitizeProofs.NameOnePassSuffices(r.said.line.name);
      assert IsInjection(isPrint, key, p, x);
      assert q.printed == p.printed + [x] && q.printed[|p.printed|] == x;
      hide IsInjection, Carries, IsReport;
      forall o | o in q.owed ensures exists y :: y in q.printed && y.line == o.line {
        if o in p.owed {
          var y :| y in p.printed && y.line == o.line;
          assert y in q.printed;
        } else {
          assert x in q.printed && x.line == o.line;
        }
      }
    }
  }

  lemma PeerStepTells(isPrint: Sanitize.Table, s: State, a: Action)
    requires Tells(isPrint, s) && IsEnabled(s, a)
    requires a.Speak? || a.Echo? || a.LoseEcho? || a.Deliver? || a.LoseUp? || a.LoseDown?
    ensures Tells(isPrint, Next(isPrint, s, a))
  {
    hide PeerTells, PublishTells, AfterPublish, AfterInject, OocTrigger.Read, OocTrigger.Heard, Without;
    var p, t := s.peers[a.key], Next(isPrint, s, a);
    assert PeerTells(isPrint, a.key, p);
    match a
    case Speak(key, channel, text, id) =>
      if OocTrigger.Read(text).Some? {
        PublishingTells(isPrint, key, p, p, s.now, channel, OocTrigger.Read(text).value, id);
      }
    case Echo(key, i, channel, id) =>
      WithoutIsLess(p.owed, i);
      var heard, q := OocTrigger.Heard(p.owed[i].line), p.(owed := Without(p.owed, i));
      if heard.Some? {
        PublishingTells(isPrint, key, p, q, s.now, channel, heard.value, id);
      } else {
        FewerTell(isPrint, key, p, q);
      }
    case LoseEcho(key, i) =>
      WithoutIsLess(p.owed, i);
      FewerTell(isPrint, key, p, p.(owed := Without(p.owed, i)));
    case Deliver(key, command, later) => InjectingTells(isPrint, key, p, command, s.now, later);
    case LoseUp(key) => FewerTell(isPrint, key, p, p.(up := p.up[1..]));
    case LoseDown(key) => FewerTell(isPrint, key, p, p.(down := []));
  }

  lemma FewerTell(isPrint: Sanitize.Table, key: string, p: Peer, q: Peer)
    requires PeerTells(isPrint, key, p) && q == p.(up := q.up, down := q.down, owed := q.owed)
    requires forall r :: r in q.up ==> r in p.up
    requires forall r :: r in q.down ==> r in p.down
    requires forall o :: o in q.owed ==> o in p.owed
    ensures PeerTells(isPrint, key, q)
  {
    hide IsReport, Carries, IsInjection;
    forall x | x in q.printed ensures IsInjection(isPrint, key, q, x) {
      SamePlaceInjection(isPrint, key, p, q, x);
    }
  }

  lemma SamePlaceInjection(isPrint: Sanitize.Table, key: string, p: Peer, q: Peer, x: Printed)
    requires IsInjection(isPrint, key, p, x) && q.channels == p.channels
    ensures IsInjection(isPrint, key, q, x)
  {
  }

  lemma HubStepTells(isPrint: Sanitize.Table, s: State, a: Action)
    requires Tells(isPrint, s) && IsEnabled(s, a) && (a.Arrive? || a.FromHub? || a.Route? || a.Send?)
    ensures Tells(isPrint, Next(isPrint, s, a))
  {
    hide Tells, Next, IsEnabled;
    match a
    case Arrive(_, _) => ArriveTells(isPrint, s, a);
    case FromHub(_) => ArriveTells(isPrint, s, a);
    case Route(_, _, _, _) => RouteTells(isPrint, s, a);
    case Send(_, _) => SendTells(isPrint, s, a);
  }

  lemma ArriveTells(isPrint: Sanitize.Table, s: State, a: Action)
    requires Tells(isPrint, s) && IsEnabled(s, a) && (a.Arrive? || a.FromHub?)
    ensures Tells(isPrint, Next(isPrint, s, a))
  {
    hide PeerTells, Carries, Hub.Received;
    if a.Arrive? {
      var p := s.peers[a.key];
      assert PeerTells(isPrint, a.key, p);
      FewerTell(isPrint, a.key, p, p.(up := p.up[1..]));
      FirstTells(isPrint, a.key, p);
      ArrivingTells(isPrint, a.key, p.up[0]);
    } else {
      FromHubTells(isPrint, a.event);
    }
  }

  lemma RouteTells(isPrint: Sanitize.Table, s: State, a: Action)
    requires Tells(isPrint, s) && IsEnabled(s, a) && a.Route?
    ensures Tells(isPrint, Next(isPrint, s, a))
  {
    hide PeerTells, Carries, Decide, SeenAfter, IsListing;
    var p := s.inFlight[a.publish];
    assert PublishTells(isPrint, p);
    if Decide(s.seen, s.channels, p.event, a.connected, a.call, a.rendered).Plan? {
      AcceptedMeansFirstHop(s.seen, s.channels, p.event, a.connected, a.call, a.rendered);
      RelayedCarries(isPrint, p.said, p.channel, p.event);
    }
  }

  lemma SendTells(isPrint: Sanitize.Table, s: State, a: Action)
    requires Tells(isPrint, s) && IsEnabled(s, a) && a.Send?
    ensures Tells(isPrint, Next(isPrint, s, a))
  {
    hide PeerTells, Carries;
    var p := s.inFlight[a.publish];
    assert PublishTells(isPrint, p);
    var key := p.targets[0];
    if key in s.peers {
      assert PeerTells(isPrint, key, s.peers[key]);
      QueueTells(isPrint, key, s.peers[key], Relay(p.said, p.channel, p.frame));
    }
  }

  lemma FirstTells(isPrint: Sanitize.Table, key: string, p: Peer)
    requires PeerTells(isPrint, key, p) && p.up != []
    ensures IsReport(key, p.up[0])
  {
    assert p.up[0] in p.up;
  }

  lemma RelayedCarries(isPrint: Sanitize.Table, said: Said, channel: bytes, e: Event)
    requires Carries(isPrint, said, channel, e)
    ensures Carries(isPrint, said, channel, Hub.Relayed(e)) && Hub.Relayed(e).hop == e.hop + 1
  {
    hide Sanitize.NameOf, Sanitize.MessageOf;
  }

  lemma QueueTells(isPrint: Sanitize.Table, key: string, p: Peer, r: Relay)
    requires PeerTells(isPrint, key, p) && Carries(isPrint, r.said, r.channel, r.event) && r.event.hop == 1
    ensures PeerTells(isPrint, key, Queue(p, r))
  {
    hide IsReport, Carries, Queued;
    var q := Queue(p, r);
    forall e | e in q.down ensures Carries(isPrint, e.said, e.channel, e.event) && e.event.hop == 1 {
      QueuedElements(p.down, r, 256, e);
    }
    hide IsInjection;
    forall x | x in q.printed ensures IsInjection(isPrint, key, q, x) {
      SamePlaceInjection(isPrint, key, p, q, x);
    }
  }

  lemma NextTells(isPrint: Sanitize.Table, s: State, a: Action)
    requires Tells(isPrint, s)
    ensures Tells(isPrint, Next(isPrint, s, a))
  {
    hide PeerTells, PublishTells;
    if IsEnabled(s, a) {
      if a.Speak? || a.Echo? || a.LoseEcho? || a.Deliver? || a.LoseUp? || a.LoseDown? {
        PeerStepTells(isPrint, s, a);
      } else if a.Arrive? || a.FromHub? || a.Route? || a.Send? {
        HubStepTells(isPrint, s, a);
      }
    }
  }

  lemma {:induction false} RunTells(isPrint: Sanitize.Table, s: State, actions: seq<Action>)
    requires Tells(isPrint, s)
    ensures Tells(isPrint, Run(isPrint, s, actions))
  {
    hide Tells, Next;
    if actions != [] {
      RunTells(isPrint, s, actions[..|actions| - 1]);
      NextTells(isPrint, Run(isPrint, s, actions[..|actions| - 1]), actions[|actions| - 1]);
    }
  }

  // ----- the guarantee -----

  /** Over every run, with no condition on echoes: every report on its way to the hub holds the
      line, channel and server it stands for; every event on the hub and every frame on its way to
      an agent holds that line as the hub sanitized it; and every line printed in a game is that
      line sanitized once more, said on another server, on a channel open there. */
  lemma {:induction false} WhatTravelsIsWhatWasSaid(isPrint: Sanitize.Table, now: int, channels: seq<Channel>,
                                 inbound: map<string, seq<Inbound>>, actions: seq<Action>)
    ensures Tells(isPrint, Run(isPrint, Start(now, channels, inbound), actions))
  {
    hide Tells, Next;
    NothingToTell(isPrint, now, channels, inbound);
    RunTells(isPrint, Start(now, channels, inbound), actions);
  }

  lemma NothingToTell(isPrint: Sanitize.Table, now: int, channels: seq<Channel>, inbound: map<string, seq<Inbound>>)
    ensures Tells(isPrint, Start(now, channels, inbound))
  {
  }
}
