/** The hub's duplicate filter: event identifiers kept in two generations (hub/router.go).

The filter never stores when an identifier was recorded. The lemmas below connect it to a
history that does, and read the promises of the filter off that history.
*/
module SeenCache {

  /** What the filter stores. Times are nanoseconds. */
  datatype Seen = Seen(window: nat, current: set<string>, previous: set<string>, rotateAt: int)

  /** One call under the lock, with the two clock readings it may take. */
  datatype Call = Call(id: string, first: int, second: int)

  /** The filter as built at time `now`. */
  function Fresh(window: nat, now: int): Seen {
    Seen(window, {}, {}, now + window)
  }

  /** A call rotates when the deadline has strictly passed. */
  predicate Rotates(s: Seen, c: Call) {
    c.id != "" && c.first > s.rotateAt
  }

  function Rotated(s: Seen, c: Call): Seen {
    if Rotates(s, c) then Seen(s.window, {}, s.current, c.second + s.window) else s
  }

  predicate IsDuplicate(s: Seen, c: Call) {
    c.id != "" && (c.id in Rotated(s, c).current || c.id in Rotated(s, c).previous)
  }

  function After(s: Seen, c: Call): Seen {
    var t := Rotated(s, c);
    if c.id == "" || IsDuplicate(s, c) then t else t.(current := t.current + {c.id})
  }

  class Cache {
    const window: nat
    var current: set<string>
    var previous: set<string>
    var rotateAt: int

    ghost function State(): Seen
      reads this
    {
      Seen(window, current, previous, rotateAt)
    }

    constructor (window: nat, now: int)
      ensures State() == Fresh(window, now)
    {
      this.window := window;
      current, previous := {}, {};
      rotateAt := now + window;
    }

    /** Records `id` and reports whether it had been recorded already. */
    method SeenBefore(id: string, first: int, second: int) returns (seen: bool)
      modifies this
      ensures State() == After(old(State()), Call(id, first, second))
      ensures seen == IsDuplicate(old(State()), Call(id, first, second))
    {
      if id == "" {
        return false;
      }
      if first > rotateAt {
        previous := current;
        current := {};
        rotateAt := second + window;
      }
      if id in current || id in previous {
        return true;
      }
      current := current + {id};
      return false;
    }
  }

  // ----- the timestamped history the filter stands for -----

  /** Every identifier ever answered fresh with the latest time it was, and when the two
      generations began. */
  datatype History = History(previousFrom: int, currentFrom: int, recorded: map<string, int>)

  /** The reading at which a call records its identifier. */
  function Stamp(s: Seen, c: Call): int {
    if Rotates(s, c) then c.second else c.first
  }

  ghost function Recorded(s: Seen, h: History, c: Call): History {
    var g := if Rotates(s, c) then History(h.currentFrom, c.second, h.recorded) else h;
    if c.id == "" || IsDuplicate(s, c) then g else g.(recorded := g.recorded[c.id := Stamp(s, c)])
  }

  /** The filter holds exactly the identifiers recorded since its older generation began, and
      the stamps inside one generation span no more than one window. */
  ghost predicate Refines(s: Seen, h: History, now: int) {
    && h.currentFrom <= now
    && s.rotateAt == h.currentFrom + s.window
    && h.previousFrom + s.window < h.currentFrom
    && (forall id :: id in s.current <==> id in h.recorded && h.recorded[id] >= h.currentFrom)
    && (forall id :: id in s.previous <==>
          id in h.recorded && h.previousFrom <= h.recorded[id] < h.currentFrom)
    && (forall id :: id in s.current ==> h.recorded[id] <= h.currentFrom + s.window)
    && (forall id :: id in s.previous ==> h.recorded[id] <= h.previousFrom + s.window)
    && (forall id :: id in h.recorded ==> id != "" && h.recorded[id] <= now)
  }

  ghost function Begin(window: nat, now: int): History {
    History(now - window - 1, now, map[])
  }

  lemma FreshRefines(window: nat, now: int)
    ensures Refines(Fresh(window, now), Begin(window, now), now)
  {
  }

  /** One call keeps the correspondence, and its answer is the one the history gives: a
      duplicate is an identifier recorded since the older generation began. */
  lemma CallRefines(s: Seen, h: History, now: int, c: Call)
    requires Refines(s, h, now)
    requires now <= c.first <= c.second
    ensures Refines(After(s, c), Recorded(s, h, c), c.second)
    ensures var h' := Recorded(s, h, c);
            IsDuplicate(s, c) <==>
            c.id in h.recorded && h.recorded[c.id] >= h'.previousFrom
    ensures c.id != "" && !IsDuplicate(s, c) && c.id in h.recorded
            ==> h.recorded[c.id] + s.window < Stamp(s, c)
  {
    var s', h' := After(s, c), Recorded(s, h, c);
    if Rotates(s, c) {
      assert forall id :: id in s.current ==> h.recorded[id] <= s.rotateAt < c.first;
      assert forall id :: id in h.recorded ==> h.recorded[id] < c.second;
    }
  }

  // ----- runs -----

  /** Calls made one after another on a clock that never goes backwards. The lock makes every
      interleaving of callers such a sequence. */
  ghost predicate InOrder(from: int, calls: seq<Call>) {
    && (forall i :: 0 <= i < |calls| ==> from <= calls[i].first <= calls[i].second)
    && (forall i, j :: 0 <= i < j < |calls| ==> calls[i].second <= calls[j].first)
  }

  ghost function Run(s: Seen, calls: seq<Call>): Seen {
    if calls == [] then s else After(Run(s, calls[..|calls| - 1]), calls[|calls| - 1])
  }

  /** Call `i` of the run answered "not seen" and recorded its identifier. */
  ghost predicate AnswersFresh(s: Seen, calls: seq<Call>, i: nat)
    requires i < |calls|
  {
    calls[i].id != "" && !IsDuplicate(Run(s, calls[..i]), calls[i])
  }

  ghost function StampAt(s: Seen, calls: seq<Call>, i: nat): int
    requires i < |calls|
  {
    Stamp(Run(s, calls[..i]), calls[i])
  }

  ghost function RunHistory(s: Seen, h: History, calls: seq<Call>): History {
    if calls == [] then h
    else
      var rest := calls[..|calls| - 1];
      Recorded(Run(s, rest), RunHistory(s, h, rest), calls[|calls| - 1])
  }

  ghost function Clock(from: int, calls: seq<Call>): int {
    if calls == [] then from else calls[|calls| - 1].second
  }

  lemma {:induction false} RunRefines(window: nat, from: int, calls: seq<Call>)
    requires InOrder(from, calls)
    ensures Refines(Run(Fresh(window, from), calls),
                    RunHistory(Fresh(window, from), Begin(window, from), calls),
                    Clock(from, calls))
    ensures Run(Fresh(window, from), calls).window == window
  {
    if calls == [] {
      FreshRefines(window, from);
    } else {
      var rest := calls[..|calls| - 1];
      RunRefines(window, from, rest);
      CallRefines(Run(Fresh(window, from), rest),
                  RunHistory(Fresh(window, from), Begin(window, from), rest),
                  Clock(from, rest), calls[|calls| - 1]);
    }
  }

  /** Any two identifiers held by the same generation were recorded at most one window apart. */
  lemma GenerationsSpanOneWindow(window: nat, from: int, calls: seq<Call>, x: string, y: string)
    requires InOrder(from, calls)
    requires var s := Run(Fresh(window, from), calls);
             (x in s.current && y in s.current) || (x in s.previous && y in s.previous)
    ensures var h := RunHistory(Fresh(window, from), Begin(window, from), calls).recorded;
            x in h && y in h && h[x] - h[y] <= window
  {
    RunRefines(window, from, calls);
  }

  lemma {:induction false} RecordedStays(window: nat, from: int, calls: seq<Call>, i: nat)
    requires InOrder(from, calls)
    requires i < |calls| && AnswersFresh(Fresh(window, from), calls, i)
    ensures var h := RunHistory(Fresh(window, from), Begin(window, from), calls).recorded;
            calls[i].id in h && h[calls[i].id] >= StampAt(Fresh(window, from), calls, i)
  {
    hide Refines;
    var last := |calls| - 1;
    var rest := calls[..last];
    assert calls[..i] == rest[..i];
    if i < last {
      assert rest[i] == calls[i];
      RecordedStays(window, from, rest, i);
      RunRefines(window, from, rest);
    } else {
      assert rest == calls[..i];
    }
  }

  /** Two "not seen" answers for the same identifier are more than one window apart. */
  lemma FreshAnswersAreAWindowApart(window: nat, from: int, calls: seq<Call>, i: nat, j: nat)
    requires InOrder(from, calls)
    requires i < j < |calls| && calls[i].id == calls[j].id
    requires AnswersFresh(Fresh(window, from), calls, i)
    requires AnswersFresh(Fresh(window, from), calls, j)
    ensures StampAt(Fresh(window, from), calls, j)
            > StampAt(Fresh(window, from), calls, i) + window
  {
    var before := calls[..j];
    assert before[..i] == calls[..i] && before[i] == calls[i];
    RecordedStays(window, from, before, i);
    RunRefines(window, from, before);
    CallRefines(Run(Fresh(window, from), before),
                RunHistory(Fresh(window, from), Begin(window, from), before),
                Clock(from, before), calls[j]);
  }

  lemma {:induction false} RecordedByACall(window: nat, from: int, calls: seq<Call>, id: string)
    returns (i: nat)
    requires InOrder(from, calls)
    requires id in RunHistory(Fresh(window, from), Begin(window, from), calls).recorded
    ensures i < |calls| && calls[i].id == id && AnswersFresh(Fresh(window, from), calls, i)
    ensures RunHistory(Fresh(window, from), Begin(window, from), calls).recorded[id]
            == StampAt(Fresh(window, from), calls, i)
  {
    var last := |calls| - 1;
    var rest := calls[..last];
    if calls[last].id == id && AnswersFresh(Fresh(window, from), calls, last) {
      i := last;
    } else {
      i := RecordedByACall(window, from, rest, id);
      assert rest[..i] == calls[..i];
    }
  }

  /** A "seen" answer always follows an earlier recording of the same identifier. */
  lemma SeenMeansRecorded(window: nat, from: int, calls: seq<Call>, j: nat) returns (i: nat)
    requires InOrder(from, calls)
    requires j < |calls| && calls[j].id != "" && !AnswersFresh(Fresh(window, from), calls, j)
    ensures i < j && calls[i].id == calls[j].id && AnswersFresh(Fresh(window, from), calls, i)
  {
    var before := calls[..j];
    RunRefines(window, from, before);
    CallRefines(Run(Fresh(window, from), before),
                RunHistory(Fresh(window, from), Begin(window, from), before),
                Clock(from, before), calls[j]);
    i := RecordedByACall(window, from, before, calls[j].id);
    assert before[..i] == calls[..i];
  }
}
