/** The hub with every session's reader, the hub's own listeners, reconnects and replaced sessions
    interleaved: each action below is one step under a lock (hub/hub.go). */
module HubRuns {
  import opened Router
  import opened Hub
  import SeenCache
  import Sanitize
  import opened Wrappers

  type Sid = nat
  type Pid = nat

  /** A publish in progress. `sender` is the session it came from, or None for the hub's own
      listeners. */
  datatype Publishing =
    | Arrived(sender: Option<Sid>, event: Event)
    | Listed(sender: Option<Sid>, event: Event, connected: seq<string>)
    | Sending(sender: Option<Sid>, frame: Event, targets: seq<string>)

  datatype Delivery = Delivery(sender: Option<Sid>, frame: Event)

  /** `keyOf` is the identity each session authenticated as; `sent` is everything ever handed to
      a session's queue; `accepted` is every event that passed the router. */
  datatype State = State(
    channels: seq<Channel>, seen: SeenCache.Seen, sessions: map<string, Sid>,
    keyOf: map<Sid, string>, inFlight: map<Pid, Publishing>,
    sent: map<Sid, seq<Delivery>>, accepted: set<Event>)

  datatype Action =
    | Authenticate(sid: Sid, key: string)
    | Add(sid: Sid)
    | Remove(sid: Sid)
    | FromAgent(pid: Pid, sid: Sid, event: Event)
    | FromHub(pid: Pid, event: Event)
    | ListKeys(pid: Pid, keys: seq<string>)
    | Route(pid: Pid, first: int, second: int, rendered: Option<string>)
    | SendNext(pid: Pid)
    | SetChannels(channels: seq<Channel>)

  function Start(channels: seq<Channel>, now: int): State {
    State(channels, SeenCache.Fresh(30_000_000_000, now), map[], map[], map[], map[], {})
  }

  function SentTo(s: State, sid: Sid): seq<Delivery> {
    if sid in s.sent then s.sent[sid] else []
  }

  function Routed(s: State, a: Action, p: Publishing): State
    requires a.Route? && p.Listed?
  {
    var call := SeenCache.Call(p.event.id, a.first, a.second);
    var plan := Decide(s.seen, s.channels, p.event, p.connected, call, a.rendered);
    s.(seen := SeenAfter(s.seen, p.event, call),
       accepted := if plan.Plan? then s.accepted + {p.event} else s.accepted,
       inFlight := if plan.Plan? then
                     s.inFlight[a.pid := Sending(p.sender, Relayed(p.event), plan.targets)]
                   else s.inFlight - {a.pid})
  }

  function SentOn(s: State, pid: Pid, p: Publishing): State
    requires p.Sending?
  {
    if p.targets == [] then s.(inFlight := s.inFlight - {pid})
    else
      var t := s.(inFlight := s.inFlight[pid := p.(targets := p.targets[1..])]);
      var key := p.targets[0];
      if key !in s.sessions then t
      else
        var sid := s.sessions[key];
        t.(sent := s.sent[sid := SentTo(s, sid) + [Delivery(p.sender, p.frame)]])
  }

  /** The steps. One that is not enabled leaves the state alone. */
  function Next(isPrint: Sanitize.Table, s: State, a: Action): State {
    match a
    case Authenticate(sid, key) => if sid in s.keyOf then s else s.(keyOf := s.keyOf[sid := key])
    case Add(sid) =>
      if sid !in s.keyOf then s else s.(sessions := s.sessions[s.keyOf[sid] := sid])
    case Remove(sid) =>
      if sid in s.keyOf && s.keyOf[sid] in s.sessions && s.sessions[s.keyOf[sid]] == sid then
        s.(sessions := s.sessions - {s.keyOf[sid]})
      else s
    case FromAgent(pid, sid, event) =>
      if pid in s.inFlight || sid !in s.keyOf then s
      else
        var stamped := Received(isPrint, event.(origin := s.keyOf[sid]));
        s.(inFlight := s.inFlight[pid := Arrived(Some(sid), stamped)])
    case FromHub(pid, event) =>
      if pid in s.inFlight then s
      else s.(inFlight := s.inFlight[pid := Arrived(None, Received(isPrint, event))])
    case ListKeys(pid, keys) =>
      if pid in s.inFlight && s.inFlight[pid].Arrived? && multiset(keys) == multiset(s.sessions.Keys) then
        var p := s.inFlight[pid];
        s.(inFlight := s.inFlight[pid := Listed(p.sender, p.event, keys)])
      else s
    case Route(pid, first, second, rendered) =>
      if pid in s.inFlight && s.inFlight[pid].Listed? then Routed(s, a, s.inFlight[pid]) else s
    case SendNext(pid) =>
      if pid in s.inFlight && s.inFlight[pid].Sending? then SentOn(s, pid, s.inFlight[pid]) else s
    case SetChannels(channels) => s.(channels := channels)
  }

  ghost function Run(isPrint: Sanitize.Table, s: State, actions: seq<Action>): State {
    if actions == [] then s
    else Next(isPrint, Run(isPrint, s, actions[..|actions| - 1]), actions[|actions| - 1])
  }

  // ----- what every step keeps -----

  /** An event comes from the session it claims to come from. */
  ghost predicate IsFrom(s: State, sender: Option<Sid>, event: Event) {
    sender.Some? ==> sender.value in s.keyOf && event.origin == s.keyOf[sender.value]
  }

  /** A frame the hub may send: one hop on from an accepted event that had made none. */
  ghost predicate IsRelay(s: State, frame: Event) {
    frame.hop == 1 && frame.(hop := 0) in s.accepted
  }

  ghost predicate PublishingOk(s: State, p: Publishing) {
    match p
    case Arrived(sender, event) => IsFrom(s, sender, event)
    case Listed(sender, event, connected) => IsFrom(s, sender, event)
    case Sending(sender, frame, targets) =>
      IsFrom(s, sender, frame) && IsRelay(s, frame) && frame.origin !in targets
  }

  ghost predicate DeliveryOk(s: State, sid: Sid, d: Delivery) {
    && sid in s.keyOf && IsFrom(s, d.sender, d.frame) && IsRelay(s, d.frame)
    && d.frame.origin != s.keyOf[sid]
  }

  ghost predicate Inv(s: State) {
    && (forall k :: k in s.sessions ==> s.sessions[k] in s.keyOf && s.keyOf[s.sessions[k]] == k)
    && (forall pid :: pid in s.inFlight ==> PublishingOk(s, s.inFlight[pid]))
    && (forall sid, i :: sid in s.sent && 0 <= i < |s.sent[sid]| ==> DeliveryOk(s, sid, s.sent[sid][i]))
    && (forall e :: e in s.accepted ==> e.hop == 0)
  }

  lemma RoutedKeepsInv(s: State, a: Action)
    requires Inv(s) && a.Route? && a.pid in s.inFlight && s.inFlight[a.pid].Listed?
    ensures Inv(Routed(s, a, s.inFlight[a.pid]))
  {
    hide Decide, SeenAfter;
    var p := s.inFlight[a.pid];
    var t := Routed(s, a, p);
    var call := SeenCache.Call(p.event.id, a.first, a.second);
    var plan := Decide(s.seen, s.channels, p.event, p.connected, call, a.rendered);
    if plan.Plan? {
      AcceptedMeansFirstHop(s.seen, s.channels, p.event, p.connected, call, a.rendered);
      assert Relayed(p.event).(hop := 0) == p.event;
    }
    forall pid | pid in t.inFlight ensures PublishingOk(t, t.inFlight[pid]) {
      if pid != a.pid {
        assert PublishingOk(s, s.inFlight[pid]);
      }
    }
    forall sid, i | sid in t.sent && 0 <= i < |t.sent[sid]| ensures DeliveryOk(t, sid, t.sent[sid][i]) {
      assert DeliveryOk(s, sid, s.sent[sid][i]);
    }
  }

  lemma SentOnKeepsInv(s: State, pid: Pid)
    requires Inv(s) && pid in s.inFlight && s.inFlight[pid].Sending?
    ensures Inv(SentOn(s, pid, s.inFlight[pid]))
  {
    var p := s.inFlight[pid];
    var t := SentOn(s, pid, p);
    forall q | q in t.inFlight ensures PublishingOk(t, t.inFlight[q]) {
      assert PublishingOk(s, s.inFlight[q]);
    }
    forall sid, i | sid in t.sent && 0 <= i < |t.sent[sid]| ensures DeliveryOk(t, sid, t.sent[sid][i]) {
      if i < |SentTo(s, sid)| {
        assert DeliveryOk(s, sid, s.sent[sid][i]);
      } else {
        assert p.targets[0] in p.targets;
      }
    }
  }

  /** Nobody's identity is taken away and no accepted event is forgotten. */
  ghost predicate Grows(s: State, t: State) {
    s.accepted <= t.accepted && forall sid :: sid in s.keyOf ==> sid in t.keyOf && t.keyOf[sid] == s.keyOf[sid]
  }

  lemma PublishingStaysOk(s: State, t: State, p: Publishing)
    requires Grows(s, t) && PublishingOk(s, p)
    ensures PublishingOk(t, p)
  {
  }

  lemma DeliveryStaysOk(s: State, t: State, sid: Sid, d: Delivery)
    requires Grows(s, t) && DeliveryOk(s, sid, d)
    ensures DeliveryOk(t, sid, d)
  {
  }

  lemma ArrivalIsOk(isPrint: Sanitize.Table, s: State, sid: Sid, event: Event)
    requires sid in s.keyOf
    ensures PublishingOk(s, Arrived(Some(sid), Received(isPrint, event.(origin := s.keyOf[sid]))))
  {
    ReceivedKeepsOrigin(isPrint, event, s.keyOf[sid]);
  }

  /** Steps that add identities, sessions or channels. */
  lemma SessionStepKeepsInv(isPrint: Sanitize.Table, s: State, a: Action)
    requires Inv(s) && (a.Authenticate? || a.Add? || a.Remove? || a.SetChannels?)
    ensures Inv(Next(isPrint, s, a))
  {
    hide PublishingOk, DeliveryOk;
    var t := Next(isPrint, s, a);
    forall pid | pid in t.inFlight ensures PublishingOk(t, t.inFlight[pid]) {
      PublishingStaysOk(s, t, s.inFlight[pid]);
    }
    forall sid, i | sid in t.sent && 0 <= i < |t.sent[sid]| ensures DeliveryOk(t, sid, t.sent[sid][i]) {
      DeliveryStaysOk(s, t, sid, s.sent[sid][i]);
    }
  }

  /** Steps that begin a publish or list the sessions for it. */
  lemma ArrivalStepKeepsInv(isPrint: Sanitize.Table, s: State, a: Action)
    requires Inv(s) && (a.FromAgent? || a.FromHub? || a.ListKeys?)
    ensures Inv(Next(isPrint, s, a))
  {
    hide Received, PublishingOk, DeliveryOk;
    var t := Next(isPrint, s, a);
    if a.FromAgent? && a.sid in s.keyOf {
      ArrivalIsOk(isPrint, s, a.sid, a.event);
    } else if a.FromHub? {
      HubArrivalIsOk(isPrint, s, a.event);
    } else if a.ListKeys? && a.pid in s.inFlight && s.inFlight[a.pid].Arrived? {
      ListingStaysOk(s, s.inFlight[a.pid], a.keys);
    }
    assert t == s.(inFlight := t.inFlight);
    forall pid | pid in t.inFlight ensures PublishingOk(t, t.inFlight[pid]) {
      assert PublishingOk(s, t.inFlight[pid]);
      PublishingStaysOk(s, t, t.inFlight[pid]);
    }
    forall sid, i | sid in t.sent && 0 <= i < |t.sent[sid]| ensures DeliveryOk(t, sid, t.sent[sid][i]) {
      DeliveryStaysOk(s, t, sid, s.sent[sid][i]);
    }
  }

  lemma HubArrivalIsOk(isPrint: Sanitize.Table, s: State, event: Event)
    ensures PublishingOk(s, Arrived(None, Received(isPrint, event)))
  {
  }

  lemma ListingStaysOk(s: State, p: Publishing, keys: seq<string>)
    requires p.Arrived? && PublishingOk(s, p)
    ensures PublishingOk(s, Listed(p.sender, p.event, keys))
  {
  }

  lemma ReceivedKeepsOrigin(isPrint: Sanitize.Table, e: Event, origin: string)
    ensures Received(isPrint, e.(origin := origin)).origin == origin
  {
  }

  lemma NextKeepsInv(isPrint: Sanitize.Table, s: State, a: Action)
    requires Inv(s)
    ensures Inv(Next(isPrint, s, a))
  {
    match a
    case Route(pid, _, _, _) =>
      if pid in s.inFlight && s.inFlight[pid].Listed? {
        RoutedKeepsInv(s, a);
      }
    case SendNext(pid) =>
      if pid in s.inFlight && s.inFlight[pid].Sending? {
        SentOnKeepsInv(s, pid);
      }
    case Authenticate(_, _) => SessionStepKeepsInv(isPrint, s, a);
    case Add(_) => SessionStepKeepsInv(isPrint, s, a);
    case Remove(_) => SessionStepKeepsInv(isPrint, s, a);
    case SetChannels(_) => SessionStepKeepsInv(isPrint, s, a);
    case _ => ArrivalStepKeepsInv(isPrint, s, a);
  }

  lemma {:induction false} RunKeepsInv(isPrint: Sanitize.Table, s: State, actions: seq<Action>)
    requires Inv(s)
    ensures Inv(Run(isPrint, s, actions))
  {
    hide Next, Inv;
    if actions != [] {
      RunKeepsInv(isPrint, s, actions[..|actions| - 1]);
      NextKeepsInv(isPrint, Run(isPrint, s, actions[..|actions| - 1]), actions[|actions| - 1]);
    }
  }

  // ----- the guarantees -----

  /** The session stored under a key is one that authenticated as that key. */
  lemma {:induction false} SessionsAreAuthenticated(isPrint: Sanitize.Table, channels: seq<Channel>, now: int,
                                 actions: seq<Action>, key: string)
    ensures var s := Run(isPrint, Start(channels, now), actions);
            key in s.sessions ==> s.sessions[key] in s.keyOf && s.keyOf[s.sessions[key]] == key
  {
    RunKeepsInv(isPrint, Start(channels, now), actions);
  }

  /** No frame made from an event that a session of some key sent is ever queued to any session
      of that key, even when sessions are replaced between listing and sending. */
  lemma {:induction false} NeverBackToItsOrigin(isPrint: Sanitize.Table, channels: seq<Channel>, now: int,
                             actions: seq<Action>, sid: Sid, i: nat)
    requires var s := Run(isPrint, Start(channels, now), actions); i < |SentTo(s, sid)|
    ensures var s := Run(isPrint, Start(channels, now), actions);
            var d := SentTo(s, sid)[i];
            sid in s.keyOf && d.frame.origin != s.keyOf[sid]
            && (d.sender.Some? ==>
                  d.sender.value in s.keyOf && d.frame.origin == s.keyOf[d.sender.value]
                  && s.keyOf[d.sender.value] != s.keyOf[sid])
  {
    RunKeepsInv(isPrint, Start(channels, now), actions);
    var s := Run(isPrint, Start(channels, now), actions);
    assert DeliveryOk(s, sid, s.sent[sid][i]);
  }

  /** Every frame the hub emits has hop exactly 1 and comes from an accepted event with hop 0. */
  lemma {:induction false} EmittedHopIsOne(isPrint: Sanitize.Table, channels: seq<Channel>, now: int,
                        actions: seq<Action>, sid: Sid, i: nat)
    requires var s := Run(isPrint, Start(channels, now), actions); i < |SentTo(s, sid)|
    ensures var s := Run(isPrint, Start(channels, now), actions);
            IsRelay(s, SentTo(s, sid)[i].frame)
  {
    RunKeepsInv(isPrint, Start(channels, now), actions);
    var s := Run(isPrint, Start(channels, now), actions);
    assert DeliveryOk(s, sid, s.sent[sid][i]);
  }

  /** A copy of an emitted frame that comes back as it is, is refused at any later time and by any
      state of the duplicate filter, even one that has forgotten its identifier. */
  lemma {:induction false} ReturnedCopyIsRefused(isPrint: Sanitize.Table, channels: seq<Channel>, now: int,
                              actions: seq<Action>, sid: Sid, i: nat, origin: string,
                              seen: SeenCache.Seen, later: seq<Channel>, connected: seq<string>,
                              call: SeenCache.Call, rendered: Option<string>)
    requires var s := Run(isPrint, Start(channels, now), actions); i < |SentTo(s, sid)|
    ensures var s := Run(isPrint, Start(channels, now), actions);
            var back := Received(isPrint, SentTo(s, sid)[i].frame.(origin := origin));
            Decide(seen, later, back, connected, call, rendered).Refused?
  {
    hide Decide;
    EmittedHopIsOne(isPrint, channels, now, actions, sid, i);
    var s := Run(isPrint, Start(channels, now), actions);
    var back := Received(isPrint, SentTo(s, sid)[i].frame.(origin := origin));
    if Decide(seen, later, back, connected, call, rendered).Plan? {
      AcceptedMeansFirstHop(seen, later, back, connected, call, rendered);
      assert false;
    }
  }

  /** A late removal of a session that has been replaced leaves the newer one in place, and a
      removal of the current one takes only it away. */
  lemma LateRemovalKeepsTheNewer(isPrint: Sanitize.Table, s: State, stale: Sid, key: string)
    requires Inv(s) && key in s.sessions
    ensures s.sessions[key] != stale ==> var t := Next(isPrint, s, Remove(stale));
                                        key in t.sessions && t.sessions[key] == s.sessions[key]
    ensures s.sessions[key] == stale ==> Next(isPrint, s, Remove(stale)).sessions == s.sessions - {key}
  {
  }

  // ----- nobody is left out -----

  /** The publish is about to send to `key`. */
  predicate IsTurnOf(s: State, pid: Pid, key: string) {
    pid in s.inFlight && s.inFlight[pid].Sending? && s.inFlight[pid].targets != []
    && s.inFlight[pid].targets[0] == key
  }

  /** The publish has nothing left to send. */
  predicate IsOver(s: State, pid: Pid) {
    pid in s.inFlight ==> s.inFlight[pid].Sending? && s.inFlight[pid].targets == []
  }

  /** In step `n` of a run it is the turn of `key`, and if a session has the key then, it gets `d`. */
  ghost predicate HandsOver(isPrint: Sanitize.Table, s: State, actions: seq<Action>, n: nat, pid: Pid,
                            key: string, d: Delivery)
    requires n < |actions|
  {
    var before, after := Run(isPrint, s, actions[..n]), Run(isPrint, s, actions[..n + 1]);
    && actions[n] == SendNext(pid) && IsTurnOf(before, pid, key)
    && (key in before.sessions ==>
          SentTo(after, before.sessions[key]) == SentTo(before, before.sessions[key]) + [d])
  }

  /** Only its own steps move a publish that is sending. */
  lemma OthersLeaveSendingAlone(isPrint: Sanitize.Table, s: State, a: Action, pid: Pid)
    requires pid in s.inFlight && s.inFlight[pid].Sending? && a != SendNext(pid)
    ensures var t := Next(isPrint, s, a); pid in t.inFlight && t.inFlight[pid] == s.inFlight[pid]
  {
    hide Decide, SeenAfter, Received, Routed, SentOn;
    if a.Route? && a.pid in s.inFlight && s.inFlight[a.pid].Listed? {
      RoutedElsewhere(s, a, pid);
    } else if a.SendNext? && a.pid in s.inFlight && s.inFlight[a.pid].Sending? {
      SentElsewhere(s, a.pid, pid);
    }
  }

  lemma RoutedElsewhere(s: State, a: Action, pid: Pid)
    requires a.Route? && a.pid in s.inFlight && s.inFlight[a.pid].Listed? && pid in s.inFlight && pid != a.pid
    ensures var t := Routed(s, a, s.inFlight[a.pid]); pid in t.inFlight && t.inFlight[pid] == s.inFlight[pid]
  {
    hide Decide, SeenAfter;
  }

  lemma SentElsewhere(s: State, sending: Pid, pid: Pid)
    requires sending in s.inFlight && s.inFlight[sending].Sending? && pid in s.inFlight && pid != sending
    ensures var t := SentOn(s, sending, s.inFlight[sending]); pid in t.inFlight && t.inFlight[pid] == s.inFlight[pid]
  {
  }

  /** Some step was the turn of the target `k`, or the publish has not come to it yet. */
  lemma {:induction false} TurnComes(isPrint: Sanitize.Table, s: State, actions: seq<Action>, pid: Pid, k: nat)
    returns (n: nat, j: nat)
    requires pid in s.inFlight && s.inFlight[pid].Sending? && k < |s.inFlight[pid].targets|
    ensures var p, t := s.inFlight[pid], Run(isPrint, s, actions);
            || (n < |actions| && HandsOver(isPrint, s, actions, n, pid, p.targets[k], Delivery(p.sender, p.frame)))
            || (j <= k && pid in t.inFlight && t.inFlight[pid] == p.(targets := p.targets[j..]))
  {
    var p := s.inFlight[pid];
    n, j := 0, 0;
    if actions != [] {
      hide Next, HandsOver;
      var last := |actions| - 1;
      var rest, a := actions[..last], actions[last];
      n, j := TurnComes(isPrint, s, rest, pid, k);
      var d := Delivery(p.sender, p.frame);
      if n < last && HandsOver(isPrint, s, rest, n, pid, p.targets[k], d) {
        SameTurn(isPrint, s, actions, last, n, pid, p.targets[k], d);
      } else {
        var b := Run(isPrint, s, rest);
        if a != SendNext(pid) {
          OthersLeaveSendingAlone(isPrint, b, a, pid);
        } else {
          TakesTurn(isPrint, b, pid);
          if j == k {
            n := last;
            assert actions[..last + 1] == actions;
            ThisTurn(isPrint, s, actions, pid, p.targets[k], d);
          } else {
            j := j + 1;
            assert p.targets[j - 1..][1..] == p.targets[j..];
          }
        }
      }
    } else {
      assert p.targets[0..] == p.targets;
    }
  }

  lemma SameTurn(isPrint: Sanitize.Table, s: State, actions: seq<Action>, m: nat, n: nat, pid: Pid, key: string,
                 d: Delivery)
    requires n < m <= |actions| && HandsOver(isPrint, s, actions[..m], n, pid, key, d)
    ensures HandsOver(isPrint, s, actions, n, pid, key, d)
  {
    assert actions[..m][..n] == actions[..n] && actions[..m][..n + 1] == actions[..n + 1];
  }

  lemma TakesTurn(isPrint: Sanitize.Table, s: State, pid: Pid)
    requires pid in s.inFlight && s.inFlight[pid].Sending? && s.inFlight[pid].targets != []
    ensures var p, t := s.inFlight[pid], Next(isPrint, s, SendNext(pid));
            && pid in t.inFlight && t.inFlight[pid] == p.(targets := p.targets[1..])
            && var key := p.targets[0];
               key in s.sessions ==>
                 SentTo(t, s.sessions[key]) == SentTo(s, s.sessions[key]) + [Delivery(p.sender, p.frame)]
  {
  }

  lemma ThisTurn(isPrint: Sanitize.Table, s: State, actions: seq<Action>, pid: Pid, key: string, d: Delivery)
    requires actions != [] && actions[|actions| - 1] == SendNext(pid)
    requires IsTurnOf(Run(isPrint, s, actions[..|actions| - 1]), pid, key)
    requires var p := Run(isPrint, s, actions[..|actions| - 1]).inFlight[pid]; d == Delivery(p.sender, p.frame)
    ensures HandsOver(isPrint, s, actions, |actions| - 1, pid, key, d)
  {
    hide Next;
    TakesTurn(isPrint, Run(isPrint, s, actions[..|actions| - 1]), pid);
    assert actions[..|actions|] == actions;
  }

  /** An event that the router accepts on a channel that links servers, or that comes from Discord,
      is handed, one hop on, to every key that was listed for it but its origin, if that key has a
      session when its turn comes. The origin is the key of the session that sent it. */
  lemma {:induction false} AcceptedReachesEveryOther(isPrint: Sanitize.Table, channels: seq<Channel>, now: int,
                                  before: seq<Action>, route: Action, after: seq<Action>, i: nat, key: string)
    returns (n: nat)
    requires var s := Run(isPrint, Start(channels, now), before);
             && route.Route? && route.pid in s.inFlight && s.inFlight[route.pid].Listed?
             && var p := s.inFlight[route.pid];
                && IsAcceptable(s.seen, s.channels, p.event,
                                SeenCache.Call(p.event.id, route.first, route.second), route.rendered)
                && IsFirstOfName(s.channels, i, p.event.channel)
                && (s.channels[i].isCrossServer || p.event.origin == "discord")
                && key in p.connected && key != p.event.origin
                && IsOver(Run(isPrint, Next(isPrint, s, route), after), route.pid)
    ensures var s := Run(isPrint, Start(channels, now), before);
            var p := s.inFlight[route.pid];
            && n < |after|
            && HandsOver(isPrint, Next(isPrint, s, route), after, n, route.pid, key,
                         Delivery(p.sender, p.event.(hop := 1)))
            && (p.sender.Some? ==> p.sender.value in s.keyOf && p.event.origin == s.keyOf[p.sender.value])
  {
    hide Decide, SeenAfter, IsAcceptable, HandsOver, IsFirstOfName;
    var s := Run(isPrint, Start(channels, now), before);
    var p := s.inFlight[route.pid];
    var call := SeenCache.Call(p.event.id, route.first, route.second);
    RunKeepsInv(isPrint, Start(channels, now), before);
    assert PublishingOk(s, p);
    TargetsExactly(s.seen, s.channels, p.event, p.connected, call, route.rendered, i, key);
    AcceptedMeansFirstHop(s.seen, s.channels, p.event, p.connected, call, route.rendered);
    var targets := Decide(s.seen, s.channels, p.event, p.connected, call, route.rendered).targets;
    var k: nat :| k < |targets| && targets[k] == key;
    var j;
    n, j := TurnComes(isPrint, Next(isPrint, s, route), after, route.pid, k);
  }
}
