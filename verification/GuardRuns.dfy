/** What the abuse controls guarantee over whole runs, any addresses and sweeps interleaved. */
module GuardRuns {
  import Window
  import opened Guard
  import opened Time

  datatype Op =
    | Connect(ip: string, agents: int, t: Readings)
    | Fail(ip: string, now: int)
    | Succeed(ip: string, now: int)
    | Lift(ip: string, now: int)

  function First(op: Op): int {
    if op.Connect? then op.t.sweep else op.now
  }

  function Last(op: Op): int {
    if op.Connect? then op.t.retry else op.now
  }

  predicate WellTimed(op: Op) {
    op.Connect? ==> Ordered(op.t)
  }

  function Apply(g: State, op: Op): State {
    match op
    case Connect(ip, agents, t) => AfterConnect(g, ip, agents, t)
    case Fail(ip, now) => AfterFailure(g, ip, now)
    case Succeed(ip, now) => AfterSuccess(g, ip)
    case Lift(ip, now) => AfterUnban(g, ip)
  }

  /** One operation after another on a clock that never goes backwards. */
  ghost predicate InOrder(from: int, ops: seq<Op>) {
    && (forall i :: 0 <= i < |ops| ==> WellTimed(ops[i]) && from <= First(ops[i]))
    && (forall i, j :: 0 <= i < j < |ops| ==> Last(ops[i]) <= First(ops[j]))
  }

  ghost function Run(g: State, ops: seq<Op>): State {
    if ops == [] then g else Apply(Run(g, ops[..|ops| - 1]), ops[|ops| - 1])
  }

  ghost function Clock(from: int, ops: seq<Op>): int {
    if ops == [] then from else Last(ops[|ops| - 1])
  }

  lemma {:induction false} RunKeepsLimits(g: State, ops: seq<Op>)
    ensures Run(g, ops).limits == g.limits
  {
    if ops != [] {
      RunKeepsLimits(g, ops[..|ops| - 1]);
    }
  }

  // ----- connection rate -----

  ghost predicate AdmitsAt(g: State, op: Op, ip: string) {
    op.Connect? && op.ip == ip && Decide(g, ip, op.agents, op.t).Admitted?
  }

  /** When connections from `ip` were admitted, in order. */
  ghost function Admissions(g: State, ops: seq<Op>, ip: string): seq<int> {
    if ops == [] then []
    else
      var rest, op := ops[..|ops| - 1], ops[|ops| - 1];
      Grown(Admissions(g, rest, ip), Run(g, rest), op, ip)
  }

  ghost function Grown(log: seq<int>, g: State, op: Op, ip: string): seq<int> {
    if AdmitsAt(g, op, ip) then log + [op.t.admit] else log
  }

  ghost predicate Tracked(g: State, log: seq<int>, ip: string, now: int) {
    g.limits.perMinute > 0 && Window.Tracks(WindowOf(g, ip), log, MINUTE, g.limits.perMinute, now)
  }

  lemma SweepTracks(g: State, log: seq<int>, ip: string, now: int, later: int)
    requires Tracked(g, log, ip, now) && now <= later
    ensures Tracked(Swept(g, later), log, ip, later)
  {
    Window.TracksLater(WindowOf(g, ip), log, MINUTE, g.limits.perMinute, now, later);
    assert WindowOf(Swept(g, later), ip) ==
           if SweepIsDue(g, later) then Window.Trimmed(WindowOf(g, ip), later - MINUTE)
           else WindowOf(g, ip);
  }

  lemma ApplyTracks(g: State, log: seq<int>, ip: string, now: int, op: Op)
    requires Tracked(g, log, ip, now) && WellTimed(op) && now <= First(op)
    ensures Tracked(Apply(g, op), Grown(log, g, op, ip), ip, Last(op))
  {
    hide Window.Tracks, Window.Trimmed;
    assert op.Connect? ==>
      (Decide(g, op.ip, op.agents, op.t).Admitted?
       <==> ReachesRate(g, op.ip, op.agents, op.t) && PassesRate(g, op.ip, op.t));
    if op.Connect? {
      SweepTracks(g, log, ip, now, op.t.sweep);
      var s := Swept(g, op.t.sweep);
      Window.TracksLater(WindowOf(s, ip), log, MINUTE, s.limits.perMinute, op.t.sweep, op.t.admit);
      var grown := Grown(log, g, op, ip);
      if op.ip == ip && ReachesRate(g, ip, op.agents, op.t) {
        Window.AllowTracks(WindowOf(s, ip), log, MINUTE, s.limits.perMinute, op.t.admit);
      }
      Window.TracksLater(WindowOf(Apply(g, op), ip), grown, MINUTE, s.limits.perMinute,
                         op.t.admit, op.t.retry);
    } else {
      Window.TracksLater(WindowOf(g, ip), log, MINUTE, g.limits.perMinute, now, op.now);
    }
  }

  lemma {:induction false} RunTracks(limits: Limits, from: int, ops: seq<Op>, ip: string)
    requires limits.perMinute > 0 && InOrder(from, ops)
    ensures var g := Fresh(limits, from);
            Tracked(Run(g, ops), Admissions(g, ops, ip), ip, Clock(from, ops))
  {
    hide Tracked, Apply, Grown;
    var g := Fresh(limits, from);
    if ops == [] {
      FreshTracked(limits, from, ip);
    } else {
      var rest := ops[..|ops| - 1];
      RunTracks(limits, from, rest, ip);
      ApplyTracks(Run(g, rest), Admissions(g, rest, ip), ip, Clock(from, rest), ops[|ops| - 1]);
    }
  }

  lemma FreshTracked(limits: Limits, from: int, ip: string)
    requires limits.perMinute > 0
    ensures Tracked(Fresh(limits, from), [], ip, from)
  {
  }

  /** The admissions later than one minute before `now`. */
  ghost function InLastMinute(log: seq<int>, now: int): nat {
    Window.Later(log, now - 60_000_000_000)
  }

  /** A connection passes the rate check exactly when fewer than the limit were admitted from its
      address in the last minute, whatever was swept meanwhile. */
  lemma PassesRateExactly(limits: Limits, from: int, ops: seq<Op>, op: Op)
    requires limits.perMinute > 0 && InOrder(from, ops + [op]) && op.Connect?
    ensures var g := Fresh(limits, from);
            PassesRate(Run(g, ops), op.ip, op.t)
            <==> InLastMinute(Admissions(g, ops, op.ip), op.t.admit) < limits.perMinute
  {
    hide Decide, Apply, Grown, Tracked, PassesRate, Admissions, InLastMinute;
    var g := Run(Fresh(limits, from), ops);
    InOrderPrefix(from, ops, op);
    RunTracks(limits, from, ops, op.ip);
    RunKeepsLimits(Fresh(limits, from), ops);
    RateByLog(g, Admissions(Fresh(limits, from), ops, op.ip), op.ip, op.t, Clock(from, ops));
  }

  /** The rate check counts what was admitted in the last minute. */
  lemma RateByLog(g: State, log: seq<int>, ip: string, t: Readings, now: int)
    requires Tracked(g, log, ip, now) && Ordered(t) && now <= t.sweep
    ensures PassesRate(g, ip, t) <==> InLastMinute(log, t.admit) < g.limits.perMinute
  {
    SweepTracks(g, log, ip, now, t.sweep);
    var s := Swept(g, t.sweep);
    hide Swept, Window.Tracks, Window.Later, Window.Allows;
    Window.AllowedByLog(WindowOf(s, ip), log, MINUTE, g.limits.perMinute, t.sweep, t.admit);
  }

  /** Sweeping drops no ban that is still in force. */
  lemma SweepKeepsBlocks(g: State, ip: string, sweep: int, now: int)
    requires sweep <= now
    ensures var s := Swept(g, sweep);
            && (ip in s.bans && now < s.bans[ip] <==> ip in g.bans && now < g.bans[ip])
            && (IsBannedAt(s, ip, now) <==> IsBannedAt(g, ip, now))
            && (ip in s.bans ==> s.bans[ip] == g.bans[ip])
  {
  }

  /** A sweep, when a minute has passed since the last one, leaves no ban that has ended, no record
      older than twenty minutes and no window that is empty or holds more than the last minute. */
  lemma SweepLeavesNothingOld(g: State, ip: string, now: int)
    requires now - g.lastSweep >= 60_000_000_000 && Window.Sorted(WindowOf(g, ip))
    ensures var s := Swept(g, now);
            && s.lastSweep == now
            && (ip in s.bans ==> now <= s.bans[ip])
            && (ip in s.failures ==> now - s.failures[ip].firstAt <= 1_200_000_000_000)
            && (ip in s.conns ==>
                  s.conns[ip] != []
                  && forall i :: 0 <= i < |s.conns[ip]| ==> s.conns[ip][i] > now - 60_000_000_000)
  {
    Window.TrimmedKeepsTheLater(WindowOf(g, ip), now - MINUTE);
  }

  /** Once lifted a ban is gone, from the listing and from the verdicts. */
  lemma LiftedBanIsGone(g: State, ip: string, at: int, c: Op)
    requires c.Connect? && c.ip == ip
    ensures var h := Apply(g, Lift(ip, at)); var v := Decide(h, ip, c.agents, c.t);
            !IsBannedAt(h, ip, c.t.ban) && ip !in h.failures && (v.Rejected? ==> v.reason != Banned)
  {
  }

  /** Every verdict, with the first reason there is: the allowlist, a ban in force, a full hub, too
      many admissions in the last minute. */
  lemma VerdictExactly(limits: Limits, from: int, ops: seq<Op>, op: Op)
    requires InOrder(from, ops + [op]) && op.Connect?
    ensures var g := Run(Fresh(limits, from), ops);
            var v := Decide(g, op.ip, op.agents, op.t);
            var isAllowed := limits.isAllowed(op.ip);
            var isBanned := op.ip in g.bans && op.t.ban < g.bans[op.ip];
            var isFull := limits.maxAgents > 0 && op.agents >= limits.maxAgents;
            var isTooMany :=
              limits.perMinute > 0
              && InLastMinute(Admissions(Fresh(limits, from), ops, op.ip), op.t.admit) >= limits.perMinute;
            && (v == Rejected(NotAllowed, 0) <==> !isAllowed)
            && (v.Rejected? && v.reason == Banned <==> isAllowed && isBanned)
            && (v.Rejected? && v.reason == Banned ==> v.retryAfter == g.bans[op.ip] - op.t.left)
            && (v == Rejected(Full, 0) <==> isAllowed && !isBanned && isFull)
            && (v.Rejected? && v.reason == TooMany <==> isAllowed && !isBanned && !isFull && isTooMany)
            && (v.Admitted? <==> isAllowed && !isBanned && !isFull && !isTooMany)
  {
    hide Swept, PassesRate, AfterRate, Apply, Admissions, InLastMinute;
    var g := Run(Fresh(limits, from), ops);
    InOrderPrefix(from, ops, op);
    RunKeepsLimits(Fresh(limits, from), ops);
    SweepKeepsLimits(g, op.t.sweep);
    SweepKeepsBlocks(g, op.ip, op.t.sweep, op.t.ban);
    if limits.perMinute > 0 {
      PassesRateExactly(limits, from, ops, op);
    }
  }

  lemma SweepKeepsLimits(g: State, now: int)
    ensures Swept(g, now).limits == g.limits
  {
  }

  lemma InOrderPrefix(from: int, ops: seq<Op>, op: Op)
    requires InOrder(from, ops + [op])
    ensures InOrder(from, ops) && WellTimed(op) && Clock(from, ops) <= First(op)
  {
    var all := ops + [op];
    assert forall i :: 0 <= i < |ops| ==> all[i] == ops[i];
    assert all[|ops|] == op;
  }

  /** No span shorter than a minute holds more admissions from one address than the limit. */
  lemma RateLimitHolds(limits: Limits, from: int, ops: seq<Op>, ip: string, i: nat, j: nat)
    requires limits.perMinute > 0 && InOrder(from, ops)
    requires var log := Admissions(Fresh(limits, from), ops, ip);
             j < |log| && i + limits.perMinute <= j
    ensures var log := Admissions(Fresh(limits, from), ops, ip);
            log[j] - log[i] >= MINUTE
  {
    RunTracks(limits, from, ops, ip);
    RunKeepsLimits(Fresh(limits, from), ops);
  }

  // ----- bans last -----

  ghost predicate BansAt(g: State, op: Op, ip: string) {
    op.Fail? && op.ip == ip && CausesBan(g, ip, op.now)
  }

  /** Nothing in the run bans `ip` afresh or lifts its ban. */
  ghost predicate LeavesBanAlone(g: State, ops: seq<Op>, ip: string) {
    forall i :: 0 <= i < |ops| ==>
      !BansAt(Run(g, ops[..i]), ops[i], ip) && !(ops[i].Lift? && ops[i].ip == ip)
  }

  lemma LeavesBanAlonePrefix(g: State, ops: seq<Op>, ip: string)
    requires LeavesBanAlone(g, ops, ip) && ops != []
    ensures LeavesBanAlone(g, ops[..|ops| - 1], ip)
  {
    var rest := ops[..|ops| - 1];
    forall i | 0 <= i < |rest|
      ensures !BansAt(Run(g, rest[..i]), rest[i], ip) && !(rest[i].Lift? && rest[i].ip == ip)
    {
      assert rest[..i] == ops[..i] && rest[i] == ops[i];
    }
  }

  /** Until it ends the ban is held, and if one is held at all it is that one. */
  lemma {:induction false} BanStays(g: State, from: int, ops: seq<Op>, ip: string)
    requires ip in g.bans && InOrder(from, ops) && LeavesBanAlone(g, ops, ip)
    ensures Clock(from, ops) <= g.bans[ip] ==> ip in Run(g, ops).bans
    ensures ip in Run(g, ops).bans ==> Run(g, ops).bans[ip] == g.bans[ip]
  {
    hide Apply, BansAt;
    if ops != [] {
      var rest, last := ops[..|ops| - 1], ops[|ops| - 1];
      LeavesBanAlonePrefix(g, ops, ip);
      assert Clock(from, rest) <= Clock(from, ops);
      assert !BansAt(Run(g, ops[..|ops| - 1]), last, ip) && WellTimed(last);
      BanStays(g, from, rest, ip);
      BanStaysOnce(Run(g, rest), last, ip);
    }
  }

  lemma BanStaysOnce(g: State, op: Op, ip: string)
    requires WellTimed(op) && !BansAt(g, op, ip) && !(op.Lift? && op.ip == ip)
    ensures ip in g.bans && Last(op) <= g.bans[ip] ==> ip in Apply(g, op).bans
    ensures ip in Apply(g, op).bans ==> ip in g.bans && Apply(g, op).bans[ip] == g.bans[ip]
  {
  }

  /** A ban refuses every connection from its address until its end and none from then on,
      whatever sweeps, successes and other failures happen meanwhile; only Unban or a newer ban
      changes that. */
  lemma BanRefusesUntilItsEnd(g: State, ban: Op, ops: seq<Op>, c: Op)
    requires ban.Fail? && CausesBan(g, ban.ip, ban.now)
    requires InOrder(ban.now, ops + [c]) && LeavesBanAlone(Apply(g, ban), ops, ban.ip)
    requires c.Connect? && c.ip == ban.ip && g.limits.isAllowed(c.ip)
    ensures var k := CountingRecord(g, ban.ip, ban.now).offences + 1;
            var v := Decide(Run(Apply(g, ban), ops), c.ip, c.agents, c.t);
            v.Rejected? && v.reason == Banned
            <==> c.t.ban < ban.now + BanLength(g.limits.banDuration as int, k)
  {
    var banned := Apply(g, ban);
    InOrderPrefix(ban.now, ops, c);
    BanStays(banned, ban.now, ops, ban.ip);
    RunKeepsLimits(banned, ops);
    SweepKeepsBlocks(Run(banned, ops), c.ip, c.t.sweep, c.t.ban);
  }

  /** The two readings of a ban differ at one instant only: its very end. */
  lemma BanReadingsAgreeExactly(g: State, ip: string, now: int)
    ensures (IsBannedAt(g, ip, now) <==> IsBlocked(g, ip, now))
            <==> !(ip in g.bans && g.bans[ip] == now)
  {
  }

  // ----- waiting as told is enough -----

  /** What the hub puts in the Retry-After header. */
  function HeaderSeconds(wait: int): int {
    wait / SECOND + 1
  }

  /** The rounded-up seconds are never short. */
  lemma HeaderCoversTheWait(wait: int)
    ensures HeaderSeconds(wait) * SECOND > wait
  {
  }

  /** Nobody at `ip` tries anything. */
  ghost predicate Quiet(ops: seq<Op>, ip: string) {
    forall i :: 0 <= i < |ops| ==> !((ops[i].Connect? || ops[i].Fail?) && ops[i].ip == ip)
  }

  lemma {:induction false} QuietKeeps(g: State, from: int, ops: seq<Op>, log: seq<int>, ip: string)
    requires InOrder(from, ops) && Quiet(ops, ip) && Tracked(g, log, ip, from)
    ensures Tracked(Run(g, ops), log, ip, Clock(from, ops))
    ensures ip in Run(g, ops).bans ==> ip in g.bans && Run(g, ops).bans[ip] == g.bans[ip]
  {
    if ops != [] {
      var rest := ops[..|ops| - 1];
      QuietKeeps(g, from, rest, log, ip);
      ApplyTracks(Run(g, rest), log, ip, Clock(from, rest), ops[|ops| - 1]);
    }
  }

  /** An address refused for its rate that comes back, with nothing tried in between, is let in
      from the end of the reported wait on, and not before, unless the hub is then full. */
  lemma WaitingAfterRateRefusal(limits: Limits, from: int, ops: seq<Op>, c: Op, quiet: seq<Op>, d: Op)
    requires limits.perMinute > 0 && InOrder(from, ops + [c])
    requires c.Connect? && d.Connect? && c.ip == d.ip
    requires var v := Decide(Run(Fresh(limits, from), ops), c.ip, c.agents, c.t);
             v.Rejected? && v.reason == TooMany
    requires Quiet(quiet, c.ip) && InOrder(c.t.retry, quiet + [d])
    ensures var g := Run(Fresh(limits, from), ops);
            var wait := Decide(g, c.ip, c.agents, c.t).retryAfter;
            var v := Decide(Run(Apply(g, c), quiet), d.ip, d.agents, d.t);
            && 0 <= wait
            && if limits.maxAgents > 0 && d.agents >= limits.maxAgents then v == Rejected(Full, 0)
               else if d.t.admit >= c.t.retry + wait then v == Admitted
               else v.Rejected? && v.reason == TooMany
  {
    hide Tracked, Apply, Decide, Swept, InLastMinute;
    var g := Run(Fresh(limits, from), ops);
    var log := Admissions(Fresh(limits, from), ops, c.ip);
    InOrderPrefix(from, ops, c);
    InOrderPrefix(c.t.retry, quiet, d);
    RunTracks(limits, from, ops, c.ip);
    RunKeepsLimits(Fresh(limits, from), ops);
    RefusedLeavesLog(g, log, c, Clock(from, ops));
    QuietKeeps(Apply(g, c), c.t.retry, quiet, log, c.ip);
    RunKeepsLimits(Apply(g, c), quiet);
    ClockGoesOn(c.t.retry, quiet, d);
    RefusedThenRecent(g, log, c, Clock(from, ops), d.t.admit);
    DecidedByLog(Run(Apply(g, c), quiet), log, d, Clock(c.t.retry, quiet));
  }

  lemma ClockGoesOn(from: int, ops: seq<Op>, op: Op)
    requires InOrder(from, ops + [op])
    ensures from <= Clock(from, ops)
  {
    if ops != [] {
      assert (ops + [op])[|ops| - 1] == ops[|ops| - 1];
    }
  }

  /** The seconds told in the Retry-After header, rounded up, are enough. */
  lemma WaitingOutTheHeader(limits: Limits, from: int, ops: seq<Op>, c: Op, quiet: seq<Op>, d: Op)
    requires limits.perMinute > 0 && InOrder(from, ops + [c])
    requires c.Connect? && d.Connect? && c.ip == d.ip
    requires var v := Decide(Run(Fresh(limits, from), ops), c.ip, c.agents, c.t);
             && v.Rejected? && v.reason == TooMany && v.retryAfter > 0
             && d.t.sweep >= c.t.retry + HeaderSeconds(v.retryAfter) * 1_000_000_000
    requires Quiet(quiet, c.ip) && InOrder(c.t.retry, quiet + [d])
    ensures var v := Decide(Run(Apply(Run(Fresh(limits, from), ops), c), quiet), d.ip, d.agents, d.t);
            v == if limits.maxAgents > 0 && d.agents >= limits.maxAgents then Rejected(Full, 0) else Admitted
  {
    hide Decide, Apply, Quiet;
    HeaderCoversTheWait(Decide(Run(Fresh(limits, from), ops), c.ip, c.agents, c.t).retryAfter);
    InOrderPrefix(c.t.retry, quiet, d);
    WaitingAfterRateRefusal(limits, from, ops, c, quiet, d);
  }

  /** A rate refusal adds no admission and shows the address allowed and not blocked. */
  lemma RefusedLeavesLog(g: State, log: seq<int>, c: Op, now: int)
    requires c.Connect? && WellTimed(c) && Tracked(g, log, c.ip, now) && now <= c.t.sweep
    requires Decide(g, c.ip, c.agents, c.t).Rejected?
             && Decide(g, c.ip, c.agents, c.t).reason == TooMany
    ensures Tracked(Apply(g, c), log, c.ip, c.t.retry) && g.limits.isAllowed(c.ip)
    ensures Apply(g, c).limits == g.limits
    ensures IsFree(Apply(g, c), c.ip, c.t.ban)
  {
    ApplyTracks(g, log, c.ip, now, c);
    assert !AdmitsAt(g, c, c.ip);
  }

  predicate IsFree(g: State, ip: string, now: int) {
    ip in g.bans ==> g.bans[ip] <= now
  }

  lemma DecidedByLog(h: State, log: seq<int>, d: Op, now: int)
    requires d.Connect? && WellTimed(d) && Tracked(h, log, d.ip, now) && now <= d.t.sweep
    requires h.limits.isAllowed(d.ip) && IsFree(h, d.ip, d.t.ban)
    ensures var v := Decide(h, d.ip, d.agents, d.t);
            if h.limits.maxAgents > 0 && d.agents >= h.limits.maxAgents then v == Rejected(Full, 0)
            else if InLastMinute(log, d.t.admit) < h.limits.perMinute then v == Admitted
            else v.Rejected? && v.reason == TooMany
  {
    hide PassesRate, AfterRate, InLastMinute, Window.Tracks;
    RateByLog(h, log, d.ip, d.t, now);
  }

  lemma RefusedThenRecent(g: State, log: seq<int>, c: Op, now: int, later: int)
    requires c.Connect? && WellTimed(c) && Tracked(g, log, c.ip, now) && now <= c.t.sweep
    requires Decide(g, c.ip, c.agents, c.t).Rejected?
             && Decide(g, c.ip, c.agents, c.t).reason == TooMany
    requires later >= c.t.retry
    ensures var wait := Decide(g, c.ip, c.agents, c.t).retryAfter;
            0 <= wait && (InLastMinute(log, later) < g.limits.perMinute <==> later >= c.t.retry + wait)
  {
    var s := Swept(g, c.t.sweep);
    SweepTracks(g, log, c.ip, now, c.t.sweep);
    Window.TracksLater(WindowOf(s, c.ip), log, MINUTE, g.limits.perMinute, c.t.sweep, c.t.admit);
    Window.WaitingExactly(WindowOf(s, c.ip), log, MINUTE, g.limits.perMinute, c.t.admit,
                          c.t.retry, later);
  }

  /** An address refused for its ban is no longer refused for it after the reported wait. */
  lemma WaitingOutABan(g: State, c: Op, quiet: seq<Op>, d: Op)
    requires c.Connect? && d.Connect? && c.ip == d.ip && WellTimed(c)
    requires Decide(g, c.ip, c.agents, c.t).Rejected?
             && Decide(g, c.ip, c.agents, c.t).reason == Banned
    requires Quiet(quiet, c.ip) && InOrder(c.t.retry, quiet + [d])
    requires d.t.sweep >= c.t.left + Decide(g, c.ip, c.agents, c.t).retryAfter
    ensures var v := Decide(Run(Apply(g, c), quiet), d.ip, d.agents, d.t);
            v.Rejected? ==> v.reason != Banned
  {
    InOrderPrefix(c.t.retry, quiet, d);
    QuietKeepsBan(Apply(g, c), quiet, c.ip);
  }

  lemma {:induction false} QuietKeepsBan(g: State, ops: seq<Op>, ip: string)
    requires Quiet(ops, ip)
    ensures ip in Run(g, ops).bans ==> ip in g.bans && Run(g, ops).bans[ip] == g.bans[ip]
  {
    if ops != [] {
      QuietKeepsBan(g, ops[..|ops| - 1], ip);
    }
  }
}
