/** When failed credentials lead to a ban, and how long bans get, over whole runs. */
module GuardFailures {
  import opened Guard
  import opened GuardRuns
  import opened Time

  /** How many failures of `ip` a run records. */
  ghost function Failures(ops: seq<Op>, ip: string): nat {
    if ops == [] then 0
    else
      var op := ops[|ops| - 1];
      Failures(ops[..|ops| - 1], ip) + if op.Fail? && op.ip == ip then 1 else 0
  }

  ghost predicate Clears(op: Op, ip: string) {
    (op.Succeed? || op.Lift?) && op.ip == ip
  }

  /** A record never holds as many failures as lead to a ban. */
  ghost predicate Counting(g: State) {
    forall ip :: ip in g.failures ==> 0 <= g.failures[ip].count < g.limits.failuresBeforeBan
  }

  lemma ApplyKeepsCounting(g: State, op: Op)
    requires Counting(g) && g.limits.failuresBeforeBan > 0
    ensures Counting(Apply(g, op))
  {
  }

  lemma {:induction false} RunCounts(limits: Limits, from: int, ops: seq<Op>)
    requires limits.failuresBeforeBan > 0
    ensures Counting(Run(Fresh(limits, from), ops))
  {
    if ops != [] {
      RunCounts(limits, from, ops[..|ops| - 1]);
      RunKeepsLimits(Fresh(limits, from), ops[..|ops| - 1]);
      ApplyKeepsCounting(Run(Fresh(limits, from), ops[..|ops| - 1]), ops[|ops| - 1]);
    }
  }

  // ----- enough failures force a ban -----

  /** `ops` lies inside the ten minutes from `from` on. */
  ghost predicate WithinWindow(from: int, ops: seq<Op>) {
    forall i :: 0 <= i < |ops| ==> Last(ops[i]) <= from + 600_000_000_000
  }

  /** After `m` failures without a ban: either the record that was open at the start still counts
      them all, or a record opened since lost fewer than a ban's worth. */
  ghost predicate Quota(g: State, ip: string, from: int, m: nat) {
    var n := g.limits.failuresBeforeBan;
    if ip !in g.failures then m <= n - 1
    else
      var r := g.failures[ip];
      0 <= r.count < n && (m <= r.count || (r.firstAt >= from && m <= n - 1 + r.count))
  }

  lemma ApplyKeepsQuota(g: State, op: Op, ip: string, from: int, m: nat)
    requires g.limits.failuresBeforeBan > 0 && Quota(g, ip, from, m)
    requires WellTimed(op) && from <= First(op) && Last(op) <= from + 600_000_000_000
    requires !Clears(op, ip) && !BansAt(g, op, ip)
    ensures Quota(Apply(g, op), ip, from, m + if op.Fail? && op.ip == ip then 1 else 0)
  {
  }

  lemma {:induction false} NoBanMeansFewFailures(g: State, from: int, ops: seq<Op>, ip: string)
    requires g.limits.failuresBeforeBan > 0 && Counting(g)
    requires InOrder(from, ops) && WithinWindow(from, ops)
    requires forall i :: 0 <= i < |ops| ==> !Clears(ops[i], ip) && !BansAt(Run(g, ops[..i]), ops[i], ip)
    ensures Quota(Run(g, ops), ip, from, Failures(ops, ip))
  {
    if ops != [] {
      var rest := ops[..|ops| - 1];
      forall i | 0 <= i < |rest| ensures !BansAt(Run(g, rest[..i]), rest[i], ip) {
        assert rest[..i] == ops[..i] && rest[i] == ops[i];
      }
      NoBanMeansFewFailures(g, from, rest, ip);
      RunKeepsLimits(g, rest);
      ApplyKeepsQuota(Run(g, rest), ops[|ops| - 1], ip, from, Failures(rest, ip));
    }
  }

  /** 2N-1 failures from one address inside a failure window, with no success and no Unban, force
      a ban, wherever in a run they come and whatever else happens in between. */
  lemma EnoughFailuresForceABan(limits: Limits, start: int, before: seq<Op>, from: int,
                                ops: seq<Op>, ip: string) returns (i: nat)
    requires limits.failuresBeforeBan > 0
    requires InOrder(from, ops) && WithinWindow(from, ops)
    requires forall i :: 0 <= i < |ops| ==> !Clears(ops[i], ip)
    requires Failures(ops, ip) >= 2 * limits.failuresBeforeBan - 1
    ensures i < |ops| && BansAt(Run(Run(Fresh(limits, start), before), ops[..i]), ops[i], ip)
  {
    var g := Run(Fresh(limits, start), before);
    RunCounts(limits, start, before);
    RunKeepsLimits(Fresh(limits, start), before);
    if forall i :: 0 <= i < |ops| ==> !BansAt(Run(g, ops[..i]), ops[i], ip) {
      NoBanMeansFewFailures(g, from, ops, ip);
      RunKeepsLimits(g, ops);
      assert false;
    } else {
      i :| 0 <= i < |ops| && BansAt(Run(g, ops[..i]), ops[i], ip);
    }
  }

  // ----- a ban needs enough failures -----

  /** The part of a run a record counts: exactly `count` failures of `ip`, none before
      `firstAt`, and nothing that would have cleared them. */
  ghost predicate Streak(ops: seq<Op>, ip: string, count: int, firstAt: int) {
    && Failures(ops, ip) == count
    && (forall i :: 0 <= i < |ops| ==>
          !Clears(ops[i], ip) && (ops[i].Fail? && ops[i].ip == ip ==> ops[i].now >= firstAt))
  }

  lemma StreakGrows(ops: seq<Op>, op: Op, ip: string, count: int, firstAt: int)
    requires Streak(ops, ip, count, firstAt) && !Clears(op, ip)
    requires op.Fail? && op.ip == ip ==> op.now >= firstAt
    ensures Streak(ops + [op], ip, count + (if op.Fail? && op.ip == ip then 1 else 0), firstAt)
  {
    assert (ops + [op])[..|ops|] == ops;
  }

  lemma StreakOfOne(op: Op, ip: string, firstAt: int)
    requires op.Fail? && op.ip == ip && op.now >= firstAt
    ensures Streak([op], ip, 1, firstAt)
  {
    assert [op][..0] == [];
  }

  /** A record with failures in it either starts with this operation or carries on. */
  lemma RecordStep(g: State, op: Op, ip: string, now: int)
    requires g.limits.failuresBeforeBan > 0 && Counting(g) && now <= First(op) && WellTimed(op)
    requires ip in g.failures ==> g.failures[ip].firstAt <= now
    requires ip in Apply(g, op).failures
    ensures var r := Apply(g, op).failures[ip];
            && r.firstAt <= Last(op)
            && (r.count > 0 ==>
                  || (op.Fail? && op.ip == ip && r.count == 1 && r.firstAt <= op.now)
                  || (&& ip in g.failures && g.failures[ip].count > 0 && !Clears(op, ip)
                      && r.firstAt == g.failures[ip].firstAt
                      && r.count == g.failures[ip].count + if op.Fail? && op.ip == ip then 1 else 0))
  {
  }

  lemma {:induction false} RecordCountsAStreak(limits: Limits, from: int, ops: seq<Op>, ip: string)
    returns (j: nat)
    requires limits.failuresBeforeBan > 0 && InOrder(from, ops)
    requires ip in Run(Fresh(limits, from), ops).failures
    ensures var r := Run(Fresh(limits, from), ops).failures[ip];
            && r.firstAt <= Clock(from, ops)
            && (r.count > 0 ==> j <= |ops| && Streak(ops[j..], ip, r.count, r.firstAt))
  {
    hide Apply, Streak;
    var last := |ops| - 1;
    var rest, op := ops[..last], ops[last];
    var g := Run(Fresh(limits, from), rest);
    j := last;
    RunKeepsLimits(Fresh(limits, from), rest);
    RunCounts(limits, from, rest);
    if ip in g.failures {
      j := RecordCountsAStreak(limits, from, rest, ip);
    }
    RecordStep(g, op, ip, Clock(from, rest));
    var r := Apply(g, op).failures[ip];
    if r.count > 0 {
      if op.Fail? && op.ip == ip && r.count == 1 {
        j := last;
        StreakOfOne(op, ip, r.firstAt);
        assert ops[j..] == [op];
      } else {
        StreakGrows(rest[j..], op, ip, g.failures[ip].count, r.firstAt);
        assert ops[j..] == rest[j..] + [op];
      }
    }
  }

  /** A ban is only ever set by the N-th of N failures of its address within one failure window,
      with no success and no Unban between them. */
  lemma {:induction false} BanNeedsFailures(limits: Limits, from: int, ops: seq<Op>, op: Op, ip: string)
    returns (j: nat)
    requires InOrder(from, ops + [op]) && BansAt(Run(Fresh(limits, from), ops), op, ip)
    ensures j <= |ops|
    ensures Streak((ops + [op])[j..], ip, limits.failuresBeforeBan, op.now - 600_000_000_000)
  {
    var g := Run(Fresh(limits, from), ops);
    InOrderPrefix(from, ops, op);
    RunKeepsLimits(Fresh(limits, from), ops);
    RunCounts(limits, from, ops);
    var r := CountingRecord(g, ip, op.now);
    assert r.count + 1 == limits.failuresBeforeBan;
    if r.count == 0 {
      j := |ops|;
      StreakOfOne(op, ip, op.now - 600_000_000_000);
      assert (ops + [op])[j..] == [op];
    } else {
      j := RecordCountsAStreak(limits, from, ops, ip);
      StreakGrows(ops[j..], op, ip, r.count, r.firstAt);
      assert (ops + [op])[j..] == ops[j..] + [op];
      assert r.firstAt >= op.now - 600_000_000_000;
    }
  }

  // ----- escalation -----

  /** Some connection attempt in the run swept more than twenty minutes after `at`. */
  ghost predicate SweptAfter(g: State, ops: seq<Op>, at: int) {
    ops != [] &&
    var rest, op := ops[..|ops| - 1], ops[|ops| - 1];
    || SweptAfter(g, rest, at)
    || (op.Connect? && op.t.sweep - Run(g, rest).lastSweep >= 60_000_000_000 && op.t.sweep - at > 1_200_000_000_000)
  }

  /** Nothing in the run but sweeps can touch the record of `ip`. */
  ghost predicate LeavesRecordAlone(ops: seq<Op>, ip: string) {
    forall i :: 0 <= i < |ops| ==> !Clears(ops[i], ip) && !(ops[i].Fail? && ops[i].ip == ip)
  }

  /** A failure record that nobody touches survives exactly until an attempt sweeps more than twenty
      minutes after its first failure. */
  lemma {:induction false} RecordSurvivesExactly(g: State, ops: seq<Op>, ip: string)
    requires ip in g.failures && LeavesRecordAlone(ops, ip)
    ensures ip in Run(g, ops).failures <==> !SweptAfter(g, ops, g.failures[ip].firstAt)
    ensures ip in Run(g, ops).failures ==> Run(g, ops).failures[ip] == g.failures[ip]
  {
    if ops != [] {
      RecordSurvivesExactly(g, ops[..|ops| - 1], ip);
    }
  }

  /** The record of `ip` was forgotten at some time: an attempt from anywhere swept more than
      twenty minutes after the record began. Failures in between may have begun it anew. */
  ghost predicate Forgotten(g: State, ops: seq<Op>, ip: string) {
    ops != [] &&
    var rest, op := ops[..|ops| - 1], ops[|ops| - 1];
    var h := Run(g, rest);
    || Forgotten(g, rest, ip)
    || (op.Connect? && op.t.sweep - h.lastSweep >= 60_000_000_000 && ip in h.failures
        && op.t.sweep - h.failures[ip].firstAt > 1_200_000_000_000)
  }

  /** Nothing in the run clears the record of `ip` or bans it. Its failures may be counted. */
  ghost predicate StaysUnbanned(g: State, ops: seq<Op>, ip: string) {
    forall i :: 0 <= i < |ops| ==> !Clears(ops[i], ip) && !BansAt(Run(g, ops[..i]), ops[i], ip)
  }

  /** Offences count as long as the record is not forgotten, and are gone once it was. */
  lemma {:induction false} OffencesLastUntilForgotten(g: State, ops: seq<Op>, ip: string)
    requires ip in g.failures && StaysUnbanned(g, ops, ip)
    ensures !Forgotten(g, ops, ip) ==> ip in Run(g, ops).failures
    ensures ip in Run(g, ops).failures ==>
              Run(g, ops).failures[ip].offences == if Forgotten(g, ops, ip) then 0 else g.failures[ip].offences
  {
    hide Apply, BansAt;
    if ops != [] {
      var rest := ops[..|ops| - 1];
      forall i | 0 <= i < |rest| ensures !BansAt(Run(g, rest[..i]), rest[i], ip) {
        assert rest[..i] == ops[..i] && rest[i] == ops[i];
      }
      OffencesLastUntilForgotten(g, rest, ip);
      OffencesStep(Run(g, rest), ops[|ops| - 1], ip);
    }
  }

  lemma OffencesStep(g: State, op: Op, ip: string)
    requires !Clears(op, ip) && !BansAt(g, op, ip)
    ensures var forgets := op.Connect? && op.t.sweep - g.lastSweep >= 60_000_000_000 && ip in g.failures
                           && op.t.sweep - g.failures[ip].firstAt > 1_200_000_000_000;
            && (ip in g.failures ==> (ip in Apply(g, op).failures <==> !forgets))
            && (ip in Apply(g, op).failures ==>
                  Apply(g, op).failures[ip].offences == if ip in g.failures then g.failures[ip].offences else 0)
  {
  }

  /** After its k-th ban an address's next ban, however many failures it takes, is the (k+1)-th if
      its record was never forgotten in between, and the first otherwise. */
  lemma EscalationIsRememberedExactly(g: State, ban: Op, ops: seq<Op>, next: Op)
    requires ban.Fail? && CausesBan(g, ban.ip, ban.now)
    requires StaysUnbanned(Apply(g, ban), ops, ban.ip)
    requires BansAt(Run(Apply(g, ban), ops), next, ban.ip)
    ensures var k := CountingRecord(g, ban.ip, ban.now).offences + 1;
            var which := if Forgotten(Apply(g, ban), ops, ban.ip) then 1 else k + 1;
            && Apply(Run(Apply(g, ban), ops), next).failures[ban.ip].offences == which
            && Apply(Run(Apply(g, ban), ops), next).bans[ban.ip]
               == next.now + BanLength(g.limits.banDuration as int, which)
  {
    OffencesLastUntilForgotten(Apply(g, ban), ops, ban.ip);
    RunKeepsLimits(Apply(g, ban), ops);
  }

  // ----- a run in which escalation fails -----

  ghost function FailTimes(n: nat, ip: string, now: int): seq<Op> {
    if n == 0 then [] else FailTimes(n - 1, ip, now) + [Fail(ip, now)]
  }

  function Counted(g: State, ip: string, r: Record, n: int): State {
    g.(failures := g.failures[ip := Record(n, r.firstAt, r.offences)])
  }

  function Banned(g: State, ip: string, now: int, k: nat): State
    requires k >= 1
  {
    g.(failures := g.failures[ip := Record(0, now, k)],
       bans := g.bans[ip := now + BanLength(g.limits.banDuration as int, k)])
  }

  /** A failure that meets a record with `n` in it. */
  lemma FailureMeetsRecord(g: State, h: State, ip: string, now: int, n: nat)
    requires g.limits.failuresBeforeBan > n
    requires ip in g.failures ==> g.failures[ip].count == 0 && g.failures[ip].firstAt <= now
    requires var r := CountingRecord(g, ip, now); h == if n == 0 then g else Counted(g, ip, r, n)
    ensures var r := CountingRecord(g, ip, now);
            AfterFailure(h, ip, now)
            == if n + 1 < g.limits.failuresBeforeBan then Counted(g, ip, r, n + 1)
               else Banned(g, ip, now, r.offences + 1)
  {
    hide BanLength;
    var r := CountingRecord(g, ip, now);
    assert CountingRecord(h, ip, now) == Record(n, r.firstAt, r.offences);
    var x, y := Record(n + 1, r.firstAt, r.offences), Record(0, now, r.offences + 1);
    assert n > 0 ==> h.failures[ip := x] == g.failures[ip := x] && h.failures[ip := y] == g.failures[ip := y];
  }

  /** Fewer failures at one instant than make a ban are counted. */
  lemma {:induction false} FailuresCount(g: State, n: nat, ip: string, now: int)
    requires 0 < n < g.limits.failuresBeforeBan
    requires ip in g.failures ==> g.failures[ip].count == 0 && g.failures[ip].firstAt <= now
    ensures Run(g, FailTimes(n, ip, now)) == Counted(g, ip, CountingRecord(g, ip, now), n)
  {
    hide Run, FailTimes, AfterFailure, Counted, CountingRecord;
    OneMoreFailure(g, n - 1, ip, now);
    NoFailures(g, ip, now);
    if n > 1 {
      FailuresCount(g, n - 1, ip, now);
    }
    FailureMeetsRecord(g, Run(g, FailTimes(n - 1, ip, now)), ip, now, n - 1);
  }

  lemma OneMoreFailure(g: State, n: nat, ip: string, now: int)
    ensures Run(g, FailTimes(n + 1, ip, now)) == AfterFailure(Run(g, FailTimes(n, ip, now)), ip, now)
  {
    var ops := FailTimes(n + 1, ip, now);
    assert ops[..|ops| - 1] == FailTimes(n, ip, now);
  }

  /** As many as the threshold make the record's next ban. */
  lemma FailuresBan(g: State, ip: string, now: int)
    requires g.limits.failuresBeforeBan > 0
    requires ip in g.failures ==> g.failures[ip].count == 0 && g.failures[ip].firstAt <= now
    ensures var k := CountingRecord(g, ip, now).offences + 1;
            Run(g, FailTimes(g.limits.failuresBeforeBan, ip, now)) == Banned(g, ip, now, k)
  {
    hide Run, FailTimes, AfterFailure, Counted, CountingRecord, BanLength;
    var n := g.limits.failuresBeforeBan;
    OneMoreFailure(g, n - 1, ip, now);
    NoFailures(g, ip, now);
    if n > 1 {
      FailuresCount(g, n - 1, ip, now);
    }
    FailureMeetsRecord(g, Run(g, FailTimes(n - 1, ip, now)), ip, now, n - 1);
  }

  lemma NoFailures(g: State, ip: string, now: int)
    ensures Run(g, FailTimes(0, ip, now)) == g
  {
  }

  lemma {:induction false} RunAppend(g: State, a: seq<Op>, b: seq<Op>)
    ensures Run(g, a + b) == Run(Run(g, a), b)
  {
    if b == [] {
      assert a + b == a;
    } else {
      assert (a + b)[..|a + b| - 1] == a + b[..|b| - 1];
      RunAppend(g, a, b[..|b| - 1]);
    }
  }

  /** For every threshold, waiting out a second ban of thirty minutes starts over at the first
      length, although each repeat offence is meant to double the ban. */
  lemma WaitingOutForgetsOffences(limits: Limits, ip: string, other: string)
    requires limits.failuresBeforeBan > 0 && limits.banDuration as int == 15 * MINUTE
    ensures var n := limits.failuresBeforeBan;
            Run(Fresh(limits, 0), FailTimes(n, ip, 0) + FailTimes(n, ip, 1)).bans == map[ip := 1 + 30 * MINUTE]
    ensures var n, t := limits.failuresBeforeBan, 31 * MINUTE;
            var waited := FailTimes(n, ip, 0) + FailTimes(n, ip, 1) + [Connect(other, 0, Readings(t, t, t, t, t))];
            Run(Fresh(limits, 0), waited + FailTimes(n, ip, t)).bans == map[ip := t + 15 * MINUTE]
  {
    hide Run, FailTimes, BanLength, Swept;
    var g, n, t := Fresh(limits, 0), limits.failuresBeforeBan, 31 * MINUTE;
    var c := Connect(other, 0, Readings(t, t, t, t, t));
    FailuresBan(g, ip, 0);
    var once := Run(g, FailTimes(n, ip, 0));
    FailuresBan(once, ip, 1);
    RunAppend(g, FailTimes(n, ip, 0), FailTimes(n, ip, 1));
    var twice := Run(once, FailTimes(n, ip, 1));
    FirstTwoLengths();
    RunAppend(g, FailTimes(n, ip, 0) + FailTimes(n, ip, 1), [c]);
    var swept := Run(twice, [c]);
    SweepForgetsAll(twice, c, ip, t);
    FailuresBan(swept, ip, t);
    RunAppend(g, FailTimes(n, ip, 0) + FailTimes(n, ip, 1) + [c], FailTimes(n, ip, t));
  }

  lemma FirstTwoLengths()
    ensures BanLength(15 * MINUTE, 1) == 15 * MINUTE && BanLength(15 * MINUTE, 2) == 30 * MINUTE
  {
    assert Pow2(0) == 1 && Pow2(1) == 2;
  }

  lemma SweepForgetsAll(g: State, c: Op, ip: string, t: int)
    requires c.Connect? && c.t.sweep == t && t >= g.lastSweep + SWEEP_EVERY
    requires g.failures.Keys == {ip} && t - g.failures[ip].firstAt > 1_200_000_000_000
    requires g.bans.Keys == {ip} && g.bans[ip] < t
    ensures var h := Run(g, [c]); h.failures == map[] && h.bans == map[] && h.limits == g.limits
  {
    assert [c][..0] == [] && Run(g, [c]) == Apply(g, c);
  }
}
