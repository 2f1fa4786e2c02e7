/** A true rolling window of event times (guard/limiter.go). */
module Window {

  /** The events later than `cutoff`, given events in time order. */
  function Trimmed(events: seq<int>, cutoff: int): (r: seq<int>)
    ensures |r| <= |events|
  {
    if events != [] && events[0] <= cutoff then Trimmed(events[1..], cutoff) else events
  }

  function After(events: seq<int>, period: int, limit: int, now: int): seq<int> {
    var kept := Trimmed(events, now - period);
    if |kept| >= limit then kept else kept + [now]
  }

  predicate Allows(events: seq<int>, period: int, limit: int, now: int) {
    |Trimmed(events, now - period)| < limit
  }

  function WaitFor(events: seq<int>, period: int, now: int): int {
    if events == [] || events[0] + period - now < 0 then 0 else events[0] + period - now
  }

  class RollingWindow {
    const period: int
    var events: seq<int>

    constructor (period: int)
      ensures this.period == period && events == []
    {
      this.period := period;
      events := [];
    }

    method Trim(now: int)
      modifies this`events
      ensures events == Trimmed(old(events), now - period)
    {
      var cutoff := now - period;
      var keep := 0;
      while keep < |events|
        invariant 0 <= keep <= |events|
        invariant Trimmed(events[keep..], cutoff) == Trimmed(events, cutoff)
      {
        if events[keep] > cutoff {
          break;
        }
        keep := keep + 1;
      }
      if keep > 0 {
        events := events[keep..];
      }
    }

    method Allow(limit: int, now: int) returns (ok: bool)
      modifies this`events
      ensures events == After(old(events), period, limit, now)
      ensures ok == Allows(old(events), period, limit, now)
    {
      Trim(now);
      if |events| >= limit {
        return false;
      }
      events := events + [now];
      return true;
    }

    method RetryAfter(now: int) returns (wait: int)
      ensures wait == WaitFor(events, period, now)
    {
      if events == [] {
        return 0;
      }
      var remaining := events[0] + period - now;
      if remaining < 0 {
        return 0;
      }
      return remaining;
    }

    method IsIdle(now: int) returns (idle: bool)
      modifies this`events
      ensures events == Trimmed(old(events), now - period)
      ensures idle == (events == [])
    {
      Trim(now);
      idle := events == [];
    }
  }

  // ----- the window against the full log of what it let through -----

  ghost predicate Sorted(events: seq<int>) {
    forall i, j :: 0 <= i < j < |events| ==> events[i] <= events[j]
  }

  /** Trimming time-ordered events keeps exactly the later ones. */
  lemma {:induction false} TrimmedKeepsTheLater(events: seq<int>, cutoff: int)
    requires Sorted(events)
    ensures var n := |events| - |Trimmed(events, cutoff)|;
            && Trimmed(events, cutoff) == events[n..]
            && (forall i :: 0 <= i < n ==> events[i] <= cutoff)
            && (forall i :: n <= i < |events| ==> events[i] > cutoff)
  {
    if events != [] && events[0] <= cutoff {
      TrimmedKeepsTheLater(events[1..], cutoff);
      assert forall i :: 0 < i < |events| ==> events[i] == events[1..][i - 1];
    }
  }

  lemma {:induction false} TrimmedTwice(events: seq<int>, cutoff: int, later: int)
    requires cutoff <= later
    ensures Trimmed(Trimmed(events, cutoff), later) == Trimmed(events, later)
  {
    if events != [] && events[0] <= cutoff {
      TrimmedTwice(events[1..], cutoff, later);
    }
  }

  lemma {:induction false} TrimmedAppend(events: seq<int>, cutoff: int, now: int)
    requires Sorted(events + [now]) && now > cutoff
    ensures Trimmed(events + [now], cutoff) == Trimmed(events, cutoff) + [now]
  {
    if events != [] && events[0] <= cutoff {
      assert (events + [now])[1..] == events[1..] + [now];
      TrimmedAppend(events[1..], cutoff, now);
    } else if events == [] {
      assert [] + [now] == [now];
    }
  }

  /** No more than `limit` admissions inside one period. */
  ghost predicate Spaced(log: seq<int>, period: int, limit: int) {
    forall i, j :: 0 <= i < j < |log| && j - i >= limit ==> log[j] - log[i] >= period
  }

  /** The stored events agree with the log of all admissions on what is still recent. */
  ghost predicate Tracks(events: seq<int>, log: seq<int>, period: int, limit: int, now: int) {
    && Sorted(log) && (log != [] ==> log[|log| - 1] <= now)
    && Trimmed(events, now - period) == Trimmed(log, now - period)
    && Spaced(log, period, limit)
  }

  lemma TracksLater(events: seq<int>, log: seq<int>, period: int, limit: int, now: int, later: int)
    requires Tracks(events, log, period, limit, now) && now <= later
    ensures Tracks(events, log, period, limit, later)
    ensures Tracks(Trimmed(events, later - period), log, period, limit, later)
  {
    hide Trimmed, Spaced;
    TrimmedTwice(events, now - period, later - period);
    TrimmedTwice(log, now - period, later - period);
    TrimmedTwice(events, later - period, later - period);
  }

  lemma SpacedAppend(log: seq<int>, period: int, limit: int, now: int)
    requires limit > 0 && Spaced(log, period, limit) && Sorted(log)
    requires |Trimmed(log, now - period)| < limit
    ensures Spaced(log + [now], period, limit)
  {
    TrimmedKeepsTheLater(log, now - period);
  }

  lemma SortedAppend(log: seq<int>, now: int)
    requires Sorted(log) && (log != [] ==> log[|log| - 1] <= now)
    ensures Sorted(log + [now])
  {
  }

  /** One attempt passes exactly when fewer than `limit` admissions are recent, and the log then
      grows by it. */
  lemma AllowTracks(events: seq<int>, log: seq<int>, period: int, limit: int, now: int)
    requires Tracks(events, log, period, limit, now) && period > 0 && limit > 0
    ensures Allows(events, period, limit, now) <==> |Trimmed(log, now - period)| < limit
    ensures Tracks(After(events, period, limit, now),
                   if Allows(events, period, limit, now) then log + [now] else log,
                   period, limit, now)
  {
    hide Trimmed, Sorted, Spaced;
    var kept := Trimmed(events, now - period);
    TrimmedTwice(events, now - period, now - period);
    if |kept| < limit {
      SpacedAppend(log, period, limit, now);
      AppendKeepsRecent(log, now - period, now);
    }
  }

  lemma AppendKeepsRecent(log: seq<int>, cutoff: int, now: int)
    requires Sorted(log) && (log != [] ==> log[|log| - 1] <= now) && now > cutoff
    ensures Sorted(log + [now])
    ensures Trimmed(Trimmed(log, cutoff) + [now], cutoff) == Trimmed(log + [now], cutoff)
  {
    var kept := Trimmed(log, cutoff);
    TrimmedTwice(log, cutoff, cutoff);
    TrimmedKeepsTheLater(log, cutoff);
    SortedAppend(log, now);
    TrimmedAppend(log, cutoff, now);
    SortedAppend(kept, now);
    TrimmedAppend(kept, cutoff, now);
  }

  /** How many events are later than `cutoff`. */
  function Later(events: seq<int>, cutoff: int): nat {
    if events == [] then 0 else Later(events[..|events| - 1], cutoff) + if events[|events| - 1] > cutoff then 1 else 0
  }

  lemma {:induction false} LaterThan(events: seq<int>, cutoff: int, n: nat)
    requires n <= |events|
    requires forall i :: 0 <= i < n ==> events[i] <= cutoff
    requires forall i :: n <= i < |events| ==> events[i] > cutoff
    ensures Later(events, cutoff) == |events| - n
  {
    if events != [] {
      LaterThan(events[..|events| - 1], cutoff, if n == |events| then n - 1 else n);
    }
  }

  /** Trimming counts what is later. */
  lemma TrimmedCounts(events: seq<int>, cutoff: int)
    requires Sorted(events)
    ensures |Trimmed(events, cutoff)| == Later(events, cutoff)
  {
    TrimmedKeepsTheLater(events, cutoff);
    LaterThan(events, cutoff, |events| - |Trimmed(events, cutoff)|);
  }

  /** Fewer than the last events are later exactly when the first of them is not. */
  lemma FirstToAge(log: seq<int>, first: nat, cutoff: int)
    requires Sorted(log) && first < |log|
    ensures Later(log, cutoff) < |log| - first <==> log[first] <= cutoff
  {
    hide Trimmed;
    TrimmedCounts(log, cutoff);
    TrimmedKeepsTheLater(log, cutoff);
  }

  /** A refusal leaves exactly as many events as the limit, the last ones of the log. */
  lemma RefusedIsFull(events: seq<int>, log: seq<int>, period: int, limit: int, now: int)
    requires Tracks(events, log, period, limit, now) && period > 0 && limit > 0
    requires !Allows(events, period, limit, now)
    ensures var kept := After(events, period, limit, now);
            |kept| == limit <= |log| && kept[0] == log[|log| - limit]
  {
    TrimmedKeepsTheLater(log, now - period);
    hide Trimmed;
    var kept := Trimmed(log, now - period);
    var first := |log| - |kept|;
    assert kept[0] == log[first];
    var last := |log| - 1;
    var span := log[last] - log[first];
    assert last - first >= limit ==> span >= period;
  }

  /** After a refusal there is room again, with nothing admitted meanwhile, from the end of the
      reported time on and not before. */
  lemma WaitingExactly(events: seq<int>, log: seq<int>, period: int, limit: int, now: int,
                       asked: int, later: int)
    requires Tracks(events, log, period, limit, now) && period > 0 && limit > 0
    requires !Allows(events, period, limit, now) && now <= asked <= later
    ensures Later(log, later - period) < limit
            <==> later >= asked + WaitFor(After(events, period, limit, now), period, asked)
    ensures 0 <= WaitFor(After(events, period, limit, now), period, asked)
  {
    hide After, Allows, Later, Spaced;
    RefusedIsFull(events, log, period, limit, now);
    FirstToAge(log, |log| - limit, later - period);
  }

  /** At any later time the trimmed events allow what the full log of admissions allows. */
  lemma AllowedByLog(events: seq<int>, log: seq<int>, period: int, limit: int, now: int, later: int)
    requires Tracks(events, log, period, limit, now) && now <= later && period > 0 && limit > 0
    ensures Allows(events, period, limit, later) <==> Later(log, later - period) < limit
  {
    hide Trimmed, Spaced, Later;
    TracksLater(events, log, period, limit, now, later);
    AllowTracks(events, log, period, limit, later);
    TrimmedCounts(log, later - period);
  }
}
