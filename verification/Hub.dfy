/** The hub's sessions and its fan-out, one operation at a time (hub/hub.go). */
module Hub {
  import opened Router
  import SeenCache
  import Sanitize
  import SendQueue
  import opened Wrappers

  class Session {
    const serverKey: string
    const queue: SendQueue.Outbound<Event>

    /** `serverKey` is the identity that authenticated. */
    constructor (serverKey: string, capacity: nat)
      requires capacity >= 1
      ensures this.serverKey == serverKey && fresh(queue) && queue.Valid()
    {
      this.serverKey := serverKey;
      queue := new SendQueue.Outbound(capacity);
    }
  }

  /** An event as the hub routes it: sanitized on arrival. */
  function Received(isPrint: Sanitize.Table, e: Event): Event {
    e.(name := Sanitize.NameOf(e.name), message := Sanitize.MessageOf(isPrint, e.message))
  }

  /** An event as the hub sends it on. */
  function Relayed(e: Event): Event {
    e.(hop := e.hop + 1)
  }

  class Hub {
    var sessions: map<string, Session>
    const routes: Routes
    const isPrint: Sanitize.Table

    /** Every session is stored under the key it authenticated as, with a queue of its own. */
    ghost predicate Valid()
      reads this, set k | k in sessions :: sessions[k].queue
    {
      && (forall k :: k in sessions ==> sessions[k].serverKey == k && sessions[k].queue.Valid())
      && (forall k, l :: k in sessions && l in sessions && k != l ==>
            sessions[k].queue != sessions[l].queue)
    }

    constructor (routes: Routes, isPrint: Sanitize.Table)
      ensures Valid() && sessions == map[] && this.routes == routes && this.isPrint == isPrint
    {
      sessions := map[];
      this.routes := routes;
      this.isPrint := isPrint;
    }

    /** One session per server key: a newer one replaces and closes the older. */
    method AddSession(s: Session)
      requires Valid() && s.queue.Valid()
      requires forall k :: k in sessions ==> sessions[k].queue != s.queue
      modifies this`sessions,
               if s.serverKey in sessions then {sessions[s.serverKey].queue} else {}
      ensures Valid() && sessions == old(sessions)[s.serverKey := s]
      ensures s.serverKey in old(sessions) ==> old(sessions)[s.serverKey].queue.done
    {
      if s.serverKey in sessions {
        sessions[s.serverKey].queue.Close();
      }
      sessions := sessions[s.serverKey := s];
    }

    /** Removes a session only while it is still the current one for its key. */
    method RemoveSession(s: Session)
      requires Valid()
      modifies this`sessions
      ensures Valid()
      ensures sessions == if s in old(sessions).Values then old(sessions) - {s.serverKey}
                          else old(sessions)
    {
      if s.serverKey in sessions && sessions[s.serverKey] == s {
        sessions := sessions - {s.serverKey};
      }
    }

    method ConnectedKeys() returns (keys: seq<string>)
      ensures multiset(keys) == multiset(sessions.Keys)
    {
      keys := [];
      var left := sessions.Keys;
      while left != {}
        invariant left <= sessions.Keys
        invariant multiset(keys) + multiset(left) == multiset(sessions.Keys)
        decreases left
      {
        var key :| key in left;
        assert multiset(left) == multiset(left - {key}) + multiset{key};
        left := left - {key};
        keys := keys + [key];
      }
    }

    /** A frame from an agent: identity comes from the session, not from the frame. */
    method OnEvent(s: Session, e: Event, first: int, second: int, rendered: Option<string>)
      returns (plan: Outcome)
      requires Valid()
      modifies routes.seen, set k | k in sessions :: sessions[k].queue
      ensures Valid() && sessions == old(sessions)
      ensures plan.Plan? ==> s.serverKey !in plan.targets && e.hop == 0
      ensures forall k :: k in sessions ==>
                QueuedIf(sessions[k].queue, plan.Plan? && k in plan.targets,
                         Relayed(Received(isPrint, e.(origin := s.serverKey))))
      ensures IsPlanned(old(routes.seen.State()), Received(isPrint, e.(origin := s.serverKey)),
                        SeenCache.Call(e.id, first, second), rendered, plan)
      ensures routes.seen.State() == SeenAfter(old(routes.seen.State()), Received(isPrint, e.(origin := s.serverKey)),
                                               SeenCache.Call(e.id, first, second))
    {
      plan := Publish(e.(origin := s.serverKey), first, second, rendered);
    }

    method Receive(e: Event) returns (event: Event)
      ensures event == Received(isPrint, e)
      ensures event == e.(name := event.name, message := event.message)
    {
      var name := Sanitize.Name(e.name);
      var message := Sanitize.TelnetLine(isPrint, e.message, Sanitize.MAX_MESSAGE_LEN);
      event := e.(name := name, message := message);
    }

    /** The router's decision for an event that has been sanitized. */
    method Plan(event: Event, first: int, second: int, rendered: Option<string>) returns (plan: Outcome)
      modifies routes.seen
      ensures IsPlanned(old(routes.seen.State()), event, SeenCache.Call(event.id, first, second), rendered, plan)
      ensures routes.seen.State() == SeenAfter(old(routes.seen.State()), event,
                                               SeenCache.Call(event.id, first, second))
      ensures plan.Plan? ==> event.origin !in plan.targets && event.hop == 0 && Distinct(plan.targets)
    {
      hide Decide, SeenAfter;
      var connected := ConnectedKeys();
      ghost var seen, call := routes.seen.State(), SeenCache.Call(event.id, first, second);
      plan := routes.Route(event, connected, first, second, rendered);
      if plan.Plan? {
        AcceptedMeansFirstHop(seen, routes.channels, event, connected, call, rendered);
        PlannedOnce(seen, routes.channels, event, connected, call, rendered, sessions.Keys);
      }
    }

    /** Routes an event and queues it, one hop further, to every target still connected. */
    method Publish(e: Event, first: int, second: int, rendered: Option<string>)
      returns (plan: Outcome)
      requires Valid()
      modifies routes.seen, set k | k in sessions :: sessions[k].queue
      ensures Valid() && sessions == old(sessions)
      ensures plan.Plan? ==> e.origin !in plan.targets && e.hop == 0
      ensures forall k :: k in sessions ==>
                QueuedIf(sessions[k].queue, plan.Plan? && k in plan.targets, Relayed(Received(isPrint, e)))
      ensures IsPlanned(old(routes.seen.State()), Received(isPrint, e), SeenCache.Call(e.id, first, second),
                        rendered, plan)
      ensures routes.seen.State() == SeenAfter(old(routes.seen.State()), Received(isPrint, e),
                                               SeenCache.Call(e.id, first, second))
    {
      hide Received, SeenAfter, SendQueue.Newest, IsPlanned;
      var event := Receive(e);
      plan := Plan(event, first, second, rendered);
      if plan.Refused? {
        return;
      }
      FanOut(event.(hop := event.hop + 1), plan.targets);
    }

    /** Queues one frame to every target that still has a session. */
    method FanOut(frame: Event, targets: seq<string>)
      requires Valid() && Distinct(targets)
      modifies set k | k in sessions :: sessions[k].queue
      ensures Valid() && unchanged(routes, routes.seen)
      ensures forall k :: k in sessions ==> QueuedIf(sessions[k].queue, k in targets, frame)
    {
      hide SendQueue.Newest;
      for i := 0 to |targets|
        invariant Valid() && unchanged(routes, routes.seen)
        invariant forall k :: k in sessions ==> QueuedIf(sessions[k].queue, k in targets[..i], frame)
      {
        var key := targets[i];
        assert forall k :: k in targets[..i + 1] <==> k in targets[..i] || k == key;
        if key in sessions {
          assert key !in targets[..i] && QueuedIf(sessions[key].queue, false, frame);
          SendTo(key, frame);
        }
      }
      assert targets[..|targets|] == targets;
    }

    /** Queues a frame to one session and to no other. */
    method SendTo(key: string, frame: Event)
      requires Valid() && key in sessions
      modifies sessions[key].queue
      ensures Valid() && unchanged(routes, routes.seen)
      ensures QueuedIf(sessions[key].queue, true, frame)
      ensures forall k :: k in sessions && k != key ==> unchanged(sessions[k].queue)
    {
      hide SendQueue.Newest;
      var q := sessions[key].queue;
      q.Send(frame);
      assert sessions[key].queue == q && q.Valid();
    }

    /** The router's decision on the keys that are connected, in some order. */
    ghost predicate IsPlanned(seen: SeenCache.Seen, event: Event, call: SeenCache.Call, rendered: Option<string>,
                              plan: Outcome)
      reads this, routes
    {
      exists connected :: multiset(connected) == multiset(sessions.Keys) &&
                          plan == Decide(seen, routes.channels, event, connected, call, rendered)
    }

    /** What became of a queue when a frame was or was not addressed to it. */
    twostate predicate QueuedIf(q: SendQueue.Outbound<Event>, addressed: bool, frame: Event)
      reads q
    {
      && q.done == old(q.done)
      && q.out == (if addressed && !q.done then SendQueue.Newest(old(q.out) + [frame], q.capacity)
                   else old(q.out))
      && (!addressed ==> q.dropped == old(q.dropped))
    }
  }

  predicate Distinct(t: seq<string>) {
    forall i, j :: 0 <= i < j < |t| ==> t[i] != t[j]
  }

  lemma TargetsAreDistinct(connected: seq<string>, origin: string, keys: set<string>)
    requires multiset(connected) == multiset(keys)
    ensures Distinct(Others(connected, origin))
  {
    var t := Others(connected, origin);
    forall i, j | 0 <= i < j < |t| ensures t[i] != t[j] {
      OthersExactly(connected, origin, t[i]);
      if t[i] == t[j] {
        TwiceMeansTwo(t, i, j);
      }
    }
  }

  lemma PlannedOnce(seen: SeenCache.Seen, channels: seq<Channel>, e: Event, connected: seq<string>,
                    call: SeenCache.Call, rendered: Option<string>, keys: set<string>)
    requires multiset(connected) == multiset(keys)
    requires Decide(seen, channels, e, connected, call, rendered).Plan?
    ensures Distinct(Decide(seen, channels, e, connected, call, rendered).targets)
  {
    TargetsAreDistinct(connected, e.origin, keys);
  }

  lemma TwiceMeansTwo(t: seq<string>, i: nat, j: nat)
    requires i < j < |t| && t[i] == t[j]
    ensures multiset(t)[t[i]] >= 2
  {
    assert t == t[..i] + [t[i]] + t[i + 1..j] + [t[j]] + t[j + 1..];
  }
}
