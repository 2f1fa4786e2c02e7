/** Enrollment codes over whole runs, with any number of handles on the file (hub/enroll.go). */
module EnrollRuns {
  import opened SharedFile
  import opened Enroll
  import EnrollCode
  import opened Wrappers

  datatype World = World(file: File<Entry>, handles: map<nat, Handle<Entry>>, used: set<int>)

  datatype Step = Open(id: nat, now: int) | Do(id: nat, op: Op, io: Option<int>)

  /** The readings of one step, in order; revoking reads no clock. */
  predicate IsTimed(step: Step, now: int) {
    if step.Open? then now <= step.now
    else
      match step.op
      case Create(_, _, _, _, _, prune, at) => now <= prune <= at
      case Redeem(_, _, prune, check, again) => now <= prune <= check <= again
      case Pending(prune) => now <= prune
      case Revoke(_) => true
  }

  function Last(step: Step, now: int): int {
    if step.Open? then step.now
    else
      match step.op
      case Create(_, _, _, _, _, _, at) => at
      case Redeem(_, _, _, _, again) => again
      case Pending(prune) => prune
      case Revoke(_) => now
  }

  function Opened(f: File<Entry>): Handle<Entry> {
    if f.Present? then Handle(f.content, Some(f.modTime)) else Handle(map[], None)
  }

  function Next(w: World, step: Step): World {
    match step
    case Open(id, _) => w.(handles := w.handles[id := Opened(w.file)])
    case Do(id, op, io) =>
      if id !in w.handles then w
      else
        var o := Perform(w.handles[id], w.file, op, io);
        World(o.file, w.handles[id := o.handle],
              if io.Some? then w.used + {io.value} else w.used)
  }

  ghost function Run(steps: seq<Step>): World {
    if steps == [] then World(Missing, map[], {})
    else Next(Run(steps[..|steps| - 1]), steps[|steps| - 1])
  }

  ghost function Clock(steps: seq<Step>): int {
    if steps == [] then 0 else Last(steps[|steps| - 1], Clock(steps[..|steps| - 1]))
  }

  /** What the last operation of a run answered. */
  ghost function AnswerOf(w: World, step: Step): Answer {
    if step.Do? && step.id in w.handles then Perform(w.handles[step.id], w.file, step.op, step.io).answer
    else Malformed
  }

  /** The entry under which `id` was issued by this run, as it was then. */
  ghost function IssuedAs(steps: seq<Step>, id: string): Option<Entry> {
    if steps == [] then None
    else
      var rest, step := steps[..|steps| - 1], steps[|steps| - 1];
      if AnswerOf(Run(rest), step).Issued? && step.op.Create? && step.op.id == id then Some(EntryOf(step.op))
      else IssuedAs(rest, id)
  }

  /** Well-formed presentations that matched nothing since `id` was issued. */
  ghost function Misses(steps: seq<Step>, id: string): nat {
    if IssuedAs(steps, id).None? then 0
    else
      var rest, step := steps[..|steps| - 1], steps[|steps| - 1];
      Misses(rest, id)
      + if IssuedAs(rest, id).Some? && AnswerOf(Run(rest), step) == NotRecognized then 1 else 0
  }

  /** The code was redeemed, found lapsed or revoked. */
  ghost predicate IsSpent(steps: seq<Step>, id: string) {
    steps != [] &&
    var rest, step := steps[..|steps| - 1], steps[|steps| - 1];
    var answer := AnswerOf(Run(rest), step);
    || IsSpent(rest, id)
    || (answer.Redeemed? && answer.id == id) || (answer.Lapsed? && answer.id == id)
    || (answer.Revoked? && step.op == Revoke(id))
  }

  /** A successful write gets a modification time never used before, the clock never goes
      backwards, identifiers and codes are fresh, and a presented code is matched as it must. */
  ghost predicate Plausible(steps: seq<Step>) {
    steps != [] ==>
      var rest, step := steps[..|steps| - 1], steps[|steps| - 1];
      var w := Run(rest);
      && Plausible(rest) && IsTimed(step, Clock(rest))
      && (step.Do? ==>
            && (step.io.Some? ==> step.io.value !in w.used)
            && (step.op.Create? ==> IsFresh(rest, step.op.id, step.op.code))
            && (step.op.Redeem? && step.id in w.handles && |step.op.code| == EnrollCode.LENGTH ==>
                  IsPick(Live(Refreshed(w.handles[step.id], w.file).entries, step.op.prune),
                         step.op.code, step.op.pick)))
  }

  ghost predicate AllSaved(steps: seq<Step>) {
    forall i :: 0 <= i < |steps| && steps[i].Do? ==> steps[i].io.Some?
  }

  /** Moreover every write succeeds. */
  ghost predicate Orderly(steps: seq<Step>) {
    Plausible(steps) && AllSaved(steps)
  }

  /** Neither the identifier nor the code has been issued before. */
  ghost predicate IsFresh(steps: seq<Step>, id: string, code: string) {
    && |code| == EnrollCode.LENGTH
    && IssuedAs(steps, id).None?
    && forall other :: IssuedAs(steps, other).Some? ==> IssuedAs(steps, other).value.code != code
  }

  // ----- what every step keeps -----

  /** The file holds only codes issued and not spent, each charged once per miss; and every such
      code that can still be used. */
  ghost predicate Accurate(content: Codes, steps: seq<Step>, now: int) {
    && (forall id :: id in content ==>
          && IssuedAs(steps, id).Some? && !IsSpent(steps, id)
          && content[id] == IssuedAs(steps, id).value.(attempts := Misses(steps, id)))
    && (forall id :: IsUsable(steps, id, now) ==> id in content)
  }

  /** Issued, not spent, not past its expiry and not missed too often. */
  ghost predicate IsUsable(steps: seq<Step>, id: string, now: int) {
    && IssuedAs(steps, id).Some? && !IsSpent(steps, id)
    && Unix(now) <= IssuedAs(steps, id).value.expiresAt
    && Misses(steps, id) < 5
  }

  /** A handle that has seen the file as it is holds its content, except that it may have pruned
      codes that have expired. */
  ghost predicate Mirrors(h: Handle<Entry>, f: File<Entry>, now: int) {
    && (f.Missing? ==> h.entries == map[] && h.loaded.None?)
    && (f.Present? && h.loaded == Some(f.modTime) ==>
          && (forall id :: id in h.entries ==> id in f.content && h.entries[id] == f.content[id])
          && (forall id :: id in f.content && id !in h.entries ==> IsExpired(f.content[id], now)))
  }

  ghost predicate HandlesOk(w: World, now: int) {
    && (w.file.Present? ==> w.file.modTime in w.used)
    && (forall id :: id in w.handles ==>
          && Mirrors(w.handles[id], w.file, now)
          && (w.handles[id].loaded.Some? ==> w.handles[id].loaded.value in w.used))
  }

  ghost function Content(w: World): Codes {
    if w.file.Present? then w.file.content else map[]
  }

  lemma ExpiredStays(e: Entry, now: int, later: int)
    requires IsExpired(e, now) && now <= later
    ensures IsExpired(e, later)
  {
  }

  lemma MirrorsLater(h: Handle<Entry>, f: File<Entry>, now: int, later: int)
    requires Mirrors(h, f, now) && now <= later
    ensures Mirrors(h, f, later)
  {
    if f.Present? && h.loaded == Some(f.modTime) {
      forall id | id in f.content && id !in h.entries ensures IsExpired(f.content[id], later) {
        ExpiredStays(f.content[id], now, later);
      }
    }
  }

  /** Refreshing and pruning gives every handle the same codes: the file's live ones. */
  lemma PrunedHandlesAgree(h: Handle<Entry>, f: File<Entry>, now: int, prune: int)
    requires Mirrors(h, f, now) && now <= prune
    ensures Live(Refreshed(h, f).entries, prune)
            == Live(if f.Present? then f.content else map[], prune)
  {
    MirrorsLater(h, f, now, prune);
  }

  ghost predicate Inv(steps: seq<Step>) {
    && Accurate(Content(Run(steps)), steps, Clock(steps))
    && HandlesOk(Run(steps), Clock(steps))
    && (forall id :: IsSpent(steps, id) ==> IssuedAs(steps, id).Some?)
  }

  ghost predicate SameCodes(steps: seq<Step>, rest: seq<Step>) {
    forall id :: IssuedAs(steps, id) == IssuedAs(rest, id) && Misses(steps, id) == Misses(rest, id)
                 && (IsSpent(rest, id) ==> IsSpent(steps, id))
  }

  /** A step that only drops codes from the file, each of them expired or spent by it. */
  lemma DroppingStaysAccurate(steps: seq<Step>, rest: seq<Step>, before: Codes, after: Codes, now: int, later: int)
    requires Accurate(before, rest, now) && now <= later && SameCodes(steps, rest)
    requires forall id :: id in after ==> id in before && after[id] == before[id] && !IsSpent(steps, id)
    requires forall id :: id in before && id !in after ==> IsExpired(before[id], later) || IsSpent(steps, id)
    ensures Accurate(after, steps, later)
  {
    forall id | IsUsable(steps, id, later) ensures id in after {
      assert IsUsable(rest, id, now);
      assert id in before;
    }
  }

  lemma WriteKeepsHandles(w: World, id: nat, m: Codes, mtime: int, now: int, later: int)
    requires HandlesOk(w, now) && now <= later && mtime !in w.used
    ensures HandlesOk(World(Present(m, mtime), w.handles[id := Handle(m, Some(mtime))], w.used + {mtime}), later)
  {
  }

  lemma RefreshKeepsHandles(w: World, id: nat, h: Handle<Entry>, used: set<int>, now: int, later: int)
    requires HandlesOk(w, now) && now <= later && w.used <= used
    requires Mirrors(h, w.file, later) && (h.loaded.Some? ==> h.loaded.value in used)
    ensures HandlesOk(World(w.file, w.handles[id := h], used), later)
  {
    forall other | other in w.handles ensures Mirrors(w.handles[other], w.file, later) {
      MirrorsLater(w.handles[other], w.file, now, later);
    }
  }

  /** The world a step starts from, and the codes its handle sees live in it. */
  lemma StartOfStep(rest: seq<Step>, id: nat, prune: int) returns (m: Codes)
    requires Inv(rest) && id in Run(rest).handles && Clock(rest) <= prune
    ensures var w := Run(rest);
            m == Live(Content(w), prune) == Live(Refreshed(w.handles[id], w.file).entries, prune)
  {
    var w := Run(rest);
    PrunedHandlesAgree(w.handles[id], w.file, Clock(rest), prune);
    m := Live(Content(w), prune);
  }

  lemma CreateKeepsInv(steps: seq<Step>)
    requires steps != [] && Orderly(steps) && Inv(steps[..|steps| - 1])
    requires var step := steps[|steps| - 1];
             step.Do? && step.op.Create? && step.id in Run(steps[..|steps| - 1]).handles
             && step.op.serverKey != "" && step.op.serverKey != "discord"
    ensures Inv(steps)
  {
    hide HandlesOk, Mirrors;
    var n := |steps| - 1;
    var rest, step := steps[..n], steps[n];
    var w, op, now := Run(rest), step.op, Clock(rest);
    var m := StartOfStep(rest, step.id, op.prune);
    WriteKeepsHandles(w, step.id, m[op.id := EntryOf(op)], step.io.value, now, op.now);
    var after := m[op.id := EntryOf(op)];
    assert AnswerOf(w, step) == Issued(op.code);
    forall id | id in after
      ensures IssuedAs(steps, id).Some? && !IsSpent(steps, id)
              && after[id] == IssuedAs(steps, id).value.(attempts := Misses(steps, id))
    {
      assert id == op.id ==> IssuedAs(rest, id).None?;
    }
    forall id | IsUsable(steps, id, op.now) ensures id in after {
      if id != op.id {
        assert IsUsable(rest, id, now);
        assert id in Content(w);
      }
    }
  }

  /** What a step spends was in the file. */
  lemma SpentIsHeld(rest: seq<Step>, step: Step, id: string)
    requires Inv(rest)
    requires var answer := AnswerOf(Run(rest), step);
             || (answer.Redeemed? && answer.id == id) || (answer.Lapsed? && answer.id == id)
             || (answer.Revoked? && step.op == Revoke(id))
    ensures id in Content(Run(rest))
  {
    hide Run, Clock, Accurate, IssuedAs, IsSpent, Unix;
    var w := Run(rest);
    assert Mirrors(w.handles[step.id], w.file, Clock(rest));
  }

  /** A presented code that matches is dropped, redeemed or lapsed. */
  lemma HitKeepsInv(steps: seq<Step>)
    requires steps != [] && Orderly(steps) && Inv(steps[..|steps| - 1])
    requires var step := steps[|steps| - 1];
             step.Do? && step.op.Redeem? && step.id in Run(steps[..|steps| - 1]).handles
             && |step.op.code| == EnrollCode.LENGTH && step.op.pick.Some?
    ensures Inv(steps)
  {
    hide HandlesOk, Mirrors;
    var n := |steps| - 1;
    var rest, step := steps[..n], steps[n];
    var w, op, now := Run(rest), step.op, Clock(rest);
    var m := StartOfStep(rest, step.id, op.prune);
    var before, id := Content(w), op.pick.value;
    WriteKeepsHandles(w, step.id, m - {id}, step.io.value, now, op.again);
    assert SameCodes(steps, rest);
    LiveDropsExpired(before, op.prune, op.again);
    DroppingStaysAccurate(steps, rest, before, m - {id}, now, op.again);
    SpentIsHeld(rest, step, id);
  }

  /** One that matches nothing is charged to every code. */
  lemma MissKeepsInv(steps: seq<Step>)
    requires steps != [] && Orderly(steps) && Inv(steps[..|steps| - 1])
    requires var step := steps[|steps| - 1];
             step.Do? && step.op.Redeem? && step.id in Run(steps[..|steps| - 1]).handles
             && |step.op.code| == EnrollCode.LENGTH && step.op.pick.None?
    ensures Inv(steps)
  {
    hide HandlesOk, Mirrors;
    var n := |steps| - 1;
    var rest, step := steps[..n], steps[n];
    var w, op, now := Run(rest), step.op, Clock(rest);
    var m := StartOfStep(rest, step.id, op.prune);
    var after := Live(Charged(m), op.again);
    WriteKeepsHandles(w, step.id, after, step.io.value, now, op.again);
    assert AnswerOf(w, step) == NotRecognized;
    ChargingStaysAccurate(steps, rest, Content(w), now, op.prune, op.again);
  }

  lemma ChargingStaysAccurate(steps: seq<Step>, rest: seq<Step>, before: Codes, now: int, prune: int, again: int)
    requires Accurate(before, rest, now) && now <= prune <= again
    requires forall id :: IssuedAs(steps, id) == IssuedAs(rest, id) && IsSpent(steps, id) == IsSpent(rest, id)
    requires forall id :: IssuedAs(rest, id).Some? ==> Misses(steps, id) == Misses(rest, id) + 1
    ensures Accurate(Live(Charged(Live(before, prune)), again), steps, again)
  {
    hide IssuedAs, IsSpent, Misses;
    forall id | IsUsable(steps, id, again) ensures id in Live(Charged(Live(before, prune)), again) {
      assert IsUsable(rest, id, now);
      assert id in before;
    }
  }

  lemma RedeemKeepsInv(steps: seq<Step>)
    requires steps != [] && Orderly(steps) && Inv(steps[..|steps| - 1])
    requires var step := steps[|steps| - 1];
             step.Do? && step.op.Redeem? && step.id in Run(steps[..|steps| - 1]).handles
             && |step.op.code| == EnrollCode.LENGTH
    ensures Inv(steps)
  {
    hide Inv, Orderly, Run;
    if steps[|steps| - 1].op.pick.Some? { HitKeepsInv(steps); } else { MissKeepsInv(steps); }
  }

  lemma LiveDropsExpired(m: Codes, now: int, later: int)
    requires now <= later
    ensures forall id :: id in m && id !in Live(m, now) ==> IsExpired(m[id], later)
  {
  }

  lemma RevokeKeepsInv(steps: seq<Step>)
    requires steps != [] && Orderly(steps) && Inv(steps[..|steps| - 1])
    requires var step := steps[|steps| - 1];
             step.Do? && step.op.Revoke? && step.id in Run(steps[..|steps| - 1]).handles
             && AnswerOf(Run(steps[..|steps| - 1]), step).Revoked?
    ensures Inv(steps)
  {
    var n := |steps| - 1;
    var rest, step := steps[..n], steps[n];
    var w, now := Run(rest), Clock(rest);
    var after := Refreshed(w.handles[step.id], w.file).entries - {step.op.id};
    WriteKeepsHandles(w, step.id, after, step.io.value, now, now);
    SpentIsHeld(rest, step, step.op.id);
    assert SameCodes(steps, rest);
    DroppingStaysAccurate(steps, rest, Content(w), after, now, now);
  }

  /** Every other step writes nothing: opening, listing, refusals. */
  lemma QuietKeepsInv(steps: seq<Step>)
    requires steps != [] && Orderly(steps) && Inv(steps[..|steps| - 1])
    requires var rest, step := steps[..|steps| - 1], steps[|steps| - 1];
             var answer := AnswerOf(Run(rest), step);
             && Next(Run(rest), step).file == Run(rest).file
             && !answer.Issued? && !answer.NotRecognized? && !answer.Redeemed? && !answer.Lapsed?
             && !answer.Revoked?
    ensures Inv(steps)
  {
    var n := |steps| - 1;
    var rest, step := steps[..n], steps[n];
    var w, now, later := Run(rest), Clock(rest), Clock(steps);
    assert SameCodes(steps, rest);
    DroppingStaysAccurate(steps, rest, Content(w), Content(w), now, later);
    if step.Open? {
      RefreshKeepsHandles(w, step.id, Opened(w.file), w.used, now, later);
    } else if step.id in w.handles {
      var h := w.handles[step.id];
      MirrorsLater(h, w.file, now, later);
      var t := Next(w, step).handles[step.id];
      QuietHandle(h, w.file, step.op, step.io, later);
      RefreshKeepsHandles(w, step.id, t, w.used + {step.io.value}, now, later);
    } else {
      forall other | other in w.handles ensures Mirrors(w.handles[other], w.file, later) {
        MirrorsLater(w.handles[other], w.file, now, later);
      }
    }
  }

  lemma QuietHandle(h: Handle<Entry>, f: File<Entry>, op: Op, io: Option<int>, later: int)
    requires Mirrors(h, f, later) && io.Some? && Perform(h, f, op, io).file == f
    requires op.Pending? ==> op.prune <= later
    requires var answer := Perform(h, f, op, io).answer;
             !answer.Issued? && !answer.NotRecognized? && !answer.Redeemed? && !answer.Lapsed?
             && !answer.Revoked?
    ensures var t := Perform(h, f, op, io).handle;
            Mirrors(t, f, later) && (t.loaded == h.loaded || (f.Present? && t.loaded == Some(f.modTime)))
  {
    if op.Pending? {
      LiveDropsExpired(Refreshed(h, f).entries, op.prune, later);
    }
  }

  lemma StepKeepsInv(steps: seq<Step>)
    requires steps != [] && Orderly(steps) && Inv(steps[..|steps| - 1])
    ensures Inv(steps)
  {
    var rest, step := steps[..|steps| - 1], steps[|steps| - 1];
    var w := Run(rest);
    if step.Open? || step.id !in w.handles {
      QuietKeepsInv(steps);
    } else {
      match step.op
      case Create(_, _, serverKey, _, _, _, _) =>
        if serverKey == "" || serverKey == "discord" { QuietKeepsInv(steps); } else { CreateKeepsInv(steps); }
      case Redeem(code, _, _, _, _) =>
        if |code| != EnrollCode.LENGTH { QuietKeepsInv(steps); } else { RedeemKeepsInv(steps); }
      case Pending(_) => QuietKeepsInv(steps);
      case Revoke(_) =>
        if AnswerOf(w, step).Revoked? { RevokeKeepsInv(steps); } else { QuietKeepsInv(steps); }
    }
  }

  lemma {:induction false} RunKeepsInv(steps: seq<Step>)
    requires Orderly(steps)
    ensures Inv(steps)
  {
    if steps != [] {
      RunKeepsInv(steps[..|steps| - 1]);
      StepKeepsInv(steps);
    }
  }

  // ----- the promises -----

  /** No two identifiers were issued for one code. */
  lemma {:induction false} CodesAreDistinct(steps: seq<Step>, x: string, y: string)
    requires Plausible(steps) && IssuedAs(steps, x).Some? && IssuedAs(steps, y).Some?
    requires IssuedAs(steps, x).value.code == IssuedAs(steps, y).value.code
    ensures x == y
  {
    var rest := steps[..|steps| - 1];
    if IssuedAs(rest, x).Some? && IssuedAs(rest, y).Some? {
      CodesAreDistinct(rest, x, y);
    }
  }

  lemma {:induction false} SpentStaysSpent(steps: seq<Step>, i: nat, id: string)
    requires i <= |steps| && IsSpent(steps[..i], id)
    ensures IsSpent(steps, id)
  {
    if i < |steps| {
      var rest := steps[..|steps| - 1];
      assert rest[..i] == steps[..i];
      SpentStaysSpent(rest, i, id);
    } else {
      assert steps[..i] == steps;
    }
  }

  lemma {:induction false} PlausiblePrefix(steps: seq<Step>, i: nat)
    requires i <= |steps| && Plausible(steps)
    ensures Plausible(steps[..i])
  {
    if i < |steps| {
      var rest := steps[..|steps| - 1];
      assert rest[..i] == steps[..i];
      PlausiblePrefix(rest, i);
    } else {
      assert steps[..i] == steps;
    }
  }

  /** Step `i` of the run issued a code. */
  ghost predicate IsIssue(steps: seq<Step>, i: nat) {
    i < |steps| && steps[i].Do? && steps[i].op.Create?
    && AnswerOf(Run(steps[..i]), steps[i]) == Issued(steps[i].op.code)
  }

  /** The last second of a code issued by `op`: its time to live, or fifteen minutes. */
  function LastSecond(op: Op): int
    requires op.Create?
  {
    (op.now + if op.ttl <= 0 then 900_000_000_000 else op.ttl) / 1_000_000_000
  }

  /** The entry holds what it was created for. */
  predicate IsFor(e: Entry, op: Op)
    requires op.Create?
  {
    && e.code == op.code && e.serverKey == op.serverKey && e.expiresAt == LastSecond(op)
    && e.shortName == if op.shortName == "" then op.serverKey else op.shortName
  }

  /** What is issued comes from a step that created it. */
  lemma {:induction false} IssuedByCreate(steps: seq<Step>, id: string) returns (i: nat)
    requires IssuedAs(steps, id).Some?
    ensures IsIssue(steps, i) && steps[i].op.id == id && IsFor(IssuedAs(steps, id).value, steps[i].op)
  {
    var last := |steps| - 1;
    var rest := steps[..last];
    if AnswerOf(Run(rest), steps[last]).Issued? && steps[last].op.Create? && steps[last].op.id == id {
      i := last;
    } else {
      i := IssuedByCreate(rest, id);
      assert rest[..i] == steps[..i];
    }
  }

  /** And a step that creates a code issues it, once and for all. */
  lemma {:induction false} CreateIssues(steps: seq<Step>, i: nat)
    requires Plausible(steps) && IsIssue(steps, i)
    ensures IssuedAs(steps, steps[i].op.id).Some? && IsFor(IssuedAs(steps, steps[i].op.id).value, steps[i].op)
  {
    var first := steps[..i + 1];
    assert first[..|first| - 1] == steps[..i] && first[|first| - 1] == steps[i];
    IssuedStays(steps, i + 1, steps[i].op.id);
  }

  /** What a successful redemption means: the code presented was issued by an earlier step, its
      identifier is unspent, its last second is not over and it was missed fewer than five times;
      and the server is the one that step named. */
  lemma RedeemedMeansUsable(steps: seq<Step>, step: Step, id: string, e: Entry) returns (i: nat)
    requires Orderly(steps + [step]) && AnswerOf(Run(steps), step) == Redeemed(id, e)
    ensures step.Do? && step.op.Redeem? && IsUsable(steps, id, step.op.check)
    ensures IsIssue(steps, i)
    ensures var op := steps[i].op;
            && op.id == id && op.code == step.op.code && op.serverKey == e.serverKey
            && e.shortName == (if op.shortName == "" then op.serverKey else op.shortName)
            && step.op.check / 1_000_000_000 <= LastSecond(op)
    ensures !IsSpent(steps, id) && Misses(steps, id) < 5
  {
    hide IsSpent, Misses, Run;
    assert (steps + [step])[..|steps|] == steps;
    RunKeepsInv(steps);
    var m := StartOfStep(steps, step.id, step.op.prune);
    assert IssuedAs(steps, id).Some?;
    i := IssuedByCreate(steps, id);
  }

  lemma {:induction false} IssuedStays(steps: seq<Step>, i: nat, id: string)
    requires i <= |steps| && Plausible(steps) && IssuedAs(steps[..i], id).Some?
    ensures IssuedAs(steps, id) == IssuedAs(steps[..i], id)
  {
    if i < |steps| {
      var rest := steps[..|steps| - 1];
      assert rest[..i] == steps[..i];
      IssuedStays(rest, i, id);
    } else {
      assert steps[..i] == steps;
    }
  }

  /** Until then any spelling that normalizes to the code, such as its display form, redeems
      through any handle to the server that the issuing step named. */
  lemma UsableCodeRedeems(steps: seq<Step>, i: nat, step: Step, upper: EnrollCode.Upper, typed: string)
    requires Orderly(steps + [step]) && step.Do? && step.op.Redeem? && step.id in Run(steps).handles
    requires IsIssue(steps, i) && !IsSpent(steps, steps[i].op.id) && Misses(steps, steps[i].op.id) < 5
    requires step.op.check / 1_000_000_000 <= LastSecond(steps[i].op)
    requires EnrollCode.IsUpper(upper) && EnrollCode.AllInAlphabet(steps[i].op.code)
             && (EnrollCode.Normalized(upper, typed) == EnrollCode.Normalized(upper, steps[i].op.code)
                 || typed == EnrollCode.Formatted(upper, steps[i].op.code))
    requires step.op.code == EnrollCode.Normalized(upper, typed)
    ensures var op, answer := steps[i].op, AnswerOf(Run(steps), step);
            answer.Redeemed? && answer.id == op.id && answer.entry.serverKey == op.serverKey
            && answer.entry.shortName == if op.shortName == "" then op.serverKey else op.shortName
  {
    var op := steps[i].op;
    hide IsSpent, Misses, Run, IssuedAs;
    assert (steps + [step])[..|steps|] == steps;
    RunKeepsInv(steps);
    CreateIssues(steps, i);
    EnrollCode.AlphabetIsKept(upper, op.code);
    EnrollCode.TrimmingIsNoChange(upper, op.code);
    EnrollCode.NormalizedIsStable(upper, op.code);
    IssuedLength(steps, op.id);
    var m := StartOfStep(steps, step.id, step.op.prune);
    assert Unix(step.op.prune) <= Unix(step.op.check);
    assert IsUsable(steps, op.id, Clock(steps));
    assert op.id in m && m[op.id].code == op.code;
    var other := step.op.pick.value;
    CodesAreDistinct(steps, op.id, other);
  }

  /** Listing through any handle shows exactly the codes that can still be used. */
  lemma PendingIsUsable(steps: seq<Step>, step: Step, id: string)
    requires Orderly(steps + [step]) && step.Do? && step.op.Pending? && step.id in Run(steps).handles
    ensures var answer := AnswerOf(Run(steps), step);
            answer.Listed? && (id in answer.codes <==> IsUsable(steps, id, step.op.prune))
  {
    hide IssuedAs, IsSpent, Misses, Run;
    assert (steps + [step])[..|steps|] == steps;
    RunKeepsInv(steps);
    var m := StartOfStep(steps, step.id, step.op.prune);
    assert Unix(Clock(steps)) <= Unix(step.op.prune);
    if IsUsable(steps, id, step.op.prune) {
      assert IsUsable(steps, id, Clock(steps));
    }
  }

  /** A text of another length than twelve is refused at once: nothing is charged or saved. */
  lemma MalformedChargesNothing(h: Handle<Entry>, f: File<Entry>, op: Op, io: Option<int>)
    requires op.Redeem? && |op.code| != 12
    ensures Perform(h, f, op, io) == Outcome(h, f, Malformed)
  {
  }

  /** What creating and redeeming save is swept: no code is past its last second or out of
      attempts. */
  lemma SavedCodesAreLive(h: Handle<Entry>, f: File<Entry>, op: Op, io: Option<int>, id: string)
    requires (op.Create? && op.id != id) || (op.Redeem? && op.prune <= op.again)
    requires var t := Perform(h, f, op, io).file; t != f && t.Present? && id in t.content
    ensures var e := Perform(h, f, op, io).file.content[id];
            op.prune / 1_000_000_000 <= e.expiresAt && e.attempts < 5
  {
  }

  lemma {:induction false} IssuedLength(steps: seq<Step>, id: string)
    requires Orderly(steps) && IssuedAs(steps, id).Some?
    ensures |IssuedAs(steps, id).value.code| == EnrollCode.LENGTH
  {
    var rest := steps[..|steps| - 1];
    if IssuedAs(rest, id).Some? {
      IssuedLength(rest, id);
    }
  }
}
