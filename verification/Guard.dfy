/** The hub's abuse controls: connection rate, failed credentials and escalating bans
    (guard/guard.go). Times are nanoseconds. */
module Guard {
  import Window
  import opened Time

  newtype int64 = x: int | -0x8000_0000_0000_0000 <= x < 0x8000_0000_0000_0000

  const FAILURE_WINDOW: int := 10 * MINUTE
  const MAX_BAN: int := 24 * 60 * MINUTE
  const SWEEP_EVERY: int := MINUTE

  /** `isAllowed` stands for the allowlist. */
  datatype Limits = Limits(
    maxAgents: int, perMinute: int, failuresBeforeBan: int, banDuration: int64,
    isAllowed: string -> bool)

  datatype Record = Record(count: int, firstAt: int, offences: nat)

  datatype State = State(
    limits: Limits, conns: map<string, seq<int>>, failures: map<string, Record>,
    bans: map<string, int>, lastSweep: int)

  datatype Reason = NotAllowed | Banned | Full | TooMany

  datatype Verdict = Admitted | Rejected(reason: Reason, retryAfter: int)

  /** The clock readings one AllowConnection may take, in order. */
  datatype Readings = Readings(sweep: int, ban: int, left: int, admit: int, retry: int)

  predicate Ordered(t: Readings) {
    t.sweep <= t.ban <= t.left <= t.admit <= t.retry
  }

  // ----- the specification -----

  function Fresh(limits: Limits, now: int): State {
    State(limits, map[], map[], map[], now)
  }

  function LiveBans(bans: map<string, int>, now: int): map<string, int> {
    map ip | ip in bans && now <= bans[ip] :: bans[ip]
  }

  function LiveFailures(failures: map<string, Record>, now: int): map<string, Record> {
    map ip | ip in failures && now - failures[ip].firstAt <= FAILURE_WINDOW * 2 :: failures[ip]
  }

  function LiveConns(conns: map<string, seq<int>>, now: int): map<string, seq<int>> {
    map ip | ip in conns && Window.Trimmed(conns[ip], now - MINUTE) != []
      :: Window.Trimmed(conns[ip], now - MINUTE)
  }

  predicate SweepIsDue(g: State, now: int) {
    now - g.lastSweep >= SWEEP_EVERY
  }

  function Swept(g: State, now: int): State {
    if !SweepIsDue(g, now) then g
    else State(g.limits, LiveConns(g.conns, now), LiveFailures(g.failures, now),
               LiveBans(g.bans, now), now)
  }

  function WindowOf(g: State, ip: string): seq<int> {
    if ip in g.conns then g.conns[ip] else []
  }

  predicate IsBlocked(g: State, ip: string, now: int) {
    ip in g.bans && now < g.bans[ip]
  }

  predicate IsFull(g: State, agents: int) {
    g.limits.maxAgents > 0 && agents >= g.limits.maxAgents
  }

  /** The attempt gets as far as the rate check. */
  predicate ReachesRate(g: State, ip: string, agents: int, t: Readings) {
    var s := Swept(g, t.sweep);
    s.limits.isAllowed(ip) && !IsBlocked(s, ip, t.ban) && !IsFull(s, agents)
    && s.limits.perMinute > 0
  }

  predicate PassesRate(g: State, ip: string, t: Readings) {
    var s := Swept(g, t.sweep);
    Window.Allows(WindowOf(s, ip), MINUTE, s.limits.perMinute, t.admit)
  }

  function AfterRate(g: State, ip: string, t: Readings): seq<int> {
    var s := Swept(g, t.sweep);
    Window.After(WindowOf(s, ip), MINUTE, s.limits.perMinute, t.admit)
  }

  function Decide(g: State, ip: string, agents: int, t: Readings): Verdict {
    var s := Swept(g, t.sweep);
    if !s.limits.isAllowed(ip) then Rejected(NotAllowed, 0)
    else if IsBlocked(s, ip, t.ban) then Rejected(Banned, s.bans[ip] - t.left)
    else if IsFull(s, agents) then Rejected(Full, 0)
    else if s.limits.perMinute > 0 && !PassesRate(g, ip, t) then
      Rejected(TooMany, Window.WaitFor(AfterRate(g, ip, t), MINUTE, t.retry))
    else Admitted
  }

  function AfterConnect(g: State, ip: string, agents: int, t: Readings): State {
    var s := Swept(g, t.sweep);
    if ReachesRate(g, ip, agents, t) then s.(conns := s.conns[ip := AfterRate(g, ip, t)]) else s
  }

  function Pow2(n: nat): int {
    if n == 0 then 1 else 2 * Pow2(n - 1)
  }

  /** The length of a record's k-th ban: the configured length doubled each time, up to a day. */
  function BanLength(base: int, k: nat): int
    requires k >= 1
  {
    var first := if base <= 0 then 15 * MINUTE else base;
    if first * Pow2(k - 1) > MAX_BAN then MAX_BAN else first * Pow2(k - 1)
  }

  /** The record a failure is counted in: the old one, or a new one once it is out of date. */
  function CountingRecord(g: State, ip: string, now: int): Record {
    if ip !in g.failures then Record(0, now, 0)
    else if now - g.failures[ip].firstAt > FAILURE_WINDOW then
      Record(0, now, g.failures[ip].offences)
    else g.failures[ip]
  }

  predicate CausesBan(g: State, ip: string, now: int) {
    g.limits.failuresBeforeBan > 0
    && CountingRecord(g, ip, now).count + 1 >= g.limits.failuresBeforeBan
  }

  function AfterFailure(g: State, ip: string, now: int): State {
    var r := CountingRecord(g, ip, now);
    if g.limits.failuresBeforeBan <= 0 then g
    else if !CausesBan(g, ip, now) then
      g.(failures := g.failures[ip := r.(count := r.count + 1)])
    else
      var k := r.offences + 1;
      g.(failures := g.failures[ip := Record(0, now, k)],
         bans := g.bans[ip := now + BanLength(g.limits.banDuration as int, k)])
  }

  function AfterSuccess(g: State, ip: string): State {
    g.(failures := g.failures - {ip})
  }

  function AfterUnban(g: State, ip: string): State {
    g.(bans := g.bans - {ip}, failures := g.failures - {ip})
  }

  predicate IsBannedAt(g: State, ip: string, now: int) {
    ip in g.bans && now <= g.bans[ip]
  }

  // ----- the algorithms -----

  lemma {:induction false} Pow2Grows(m: nat, n: nat)
    requires m <= n
    ensures 1 <= Pow2(m) <= Pow2(n)
  {
    if m < n {
      Pow2Grows(m, n - 1);
    } else if n > 0 {
      Pow2Grows(n - 1, n - 1);
    }
  }

  lemma ScaledPow2Grows(first: int, m: nat, n: nat)
    requires first > 0 && m <= n
    ensures first <= first * Pow2(m) <= first * Pow2(n)
  {
    Pow2Grows(0, m);
    Pow2Grows(m, n);
  }

  /** The first ban has the configured length, fifteen minutes by default, and every further one
      twice the length of the one before, up to a day. */
  lemma BanLengths(base: int, k: nat)
    requires k >= 1
    ensures var first := if base <= 0 then 900_000_000_000 else base;
            BanLength(base, 1) == if first > 86_400_000_000_000 then 86_400_000_000_000 else first
    ensures var twice := 2 * BanLength(base, k);
            BanLength(base, k + 1) == if twice > 86_400_000_000_000 then 86_400_000_000_000 else twice
  {
    var first := if base <= 0 then 15 * MINUTE else base;
    assert first * Pow2(k) == 2 * (first * Pow2(k - 1));
    assert first * Pow2(0) == first;
  }

  /** The doubling loop. No intermediate value leaves the range of a 64-bit duration. */
  method BanDuration(base: int64, offences: nat) returns (duration: int64)
    requires offences >= 1
    ensures duration as int == BanLength(base as int, offences)
  {
    duration := base;
    if duration <= 0 {
      duration := (15 * MINUTE) as int64;
    }
    ghost var first := duration as int;
    var i: nat := 1;
    while i < offences && duration < MAX_BAN as int64
      invariant 1 <= i <= offences && duration > 0
      invariant duration as int == first * Pow2(i - 1)
    {
      assert first * Pow2(i) == 2 * (first * Pow2(i - 1));
      duration := duration * 2;
      i := i + 1;
    }
    ScaledPow2Grows(first, i - 1, offences - 1);
    if duration > MAX_BAN as int64 {
      duration := MAX_BAN as int64;
    }
  }

  class Controls {
    const limits: Limits
    var conns: map<string, seq<int>>
    var failures: map<string, Record>
    var bans: map<string, int>
    var lastSweep: int

    ghost function Now(): State
      reads this
    {
      State(limits, conns, failures, bans, lastSweep)
    }

    constructor (limits: Limits, now: int)
      ensures Now() == Fresh(limits, now)
    {
      this.limits := limits;
      conns, failures, bans := map[], map[], map[];
      lastSweep := now;
    }

    method SweepBans(now: int)
      modifies this`bans
      ensures bans == LiveBans(old(bans), now)
    {
      var unvisited := bans.Keys;
      while unvisited != {}
        invariant unvisited <= old(bans).Keys
        invariant bans == map ip | ip in old(bans) && (ip in unvisited || now <= old(bans)[ip])
                                   :: old(bans)[ip]
        decreases unvisited
      {
        var ip :| ip in unvisited;
        if now > bans[ip] {
          bans := bans - {ip};
        }
        unvisited := unvisited - {ip};
      }
    }

    method SweepFailures(now: int)
      modifies this`failures
      ensures failures == LiveFailures(old(failures), now)
    {
      var unvisited := failures.Keys;
      while unvisited != {}
        invariant unvisited <= old(failures).Keys
        invariant failures == map ip | ip in old(failures)
                                       && (ip in unvisited
                                           || now - old(failures)[ip].firstAt <= FAILURE_WINDOW * 2)
                                       :: old(failures)[ip]
        decreases unvisited
      {
        var ip :| ip in unvisited;
        if now - failures[ip].firstAt > FAILURE_WINDOW * 2 {
          failures := failures - {ip};
        }
        unvisited := unvisited - {ip};
      }
    }

    method SweepConns(now: int)
      modifies this`conns
      ensures conns == LiveConns(old(conns), now)
    {
      ghost var was := conns;
      var unvisited := conns.Keys;
      while unvisited != {}
        invariant unvisited <= was.Keys
        invariant forall ip :: ip in conns <==>
                    ip in was && (ip in unvisited || Window.Trimmed(was[ip], now - MINUTE) != [])
        invariant forall ip :: ip in conns ==>
                    conns[ip] == if ip in unvisited then was[ip]
                                 else Window.Trimmed(was[ip], now - MINUTE)
        decreases unvisited
      {
        var ip :| ip in unvisited;
        var trimmed := Window.Trimmed(conns[ip], now - MINUTE);
        if trimmed == [] {
          conns := conns - {ip};
        } else {
          conns := conns[ip := trimmed];
        }
        unvisited := unvisited - {ip};
      }
    }

    method Sweep(now: int)
      modifies this
      ensures Now() == Swept(old(Now()), now)
    {
      if now - lastSweep < SWEEP_EVERY {
        return;
      }
      lastSweep := now;
      SweepBans(now);
      SweepFailures(now);
      SweepConns(now);
    }

    method AllowConnection(ip: string, agents: int, t: Readings) returns (v: Verdict)
      requires Ordered(t)
      modifies this
      ensures Now() == AfterConnect(old(Now()), ip, agents, t)
      ensures v == Decide(old(Now()), ip, agents, t)
    {
      Sweep(t.sweep);
      if !limits.isAllowed(ip) {
        return Rejected(NotAllowed, 0);
      }
      if ip in bans && t.ban < bans[ip] {
        return Rejected(Banned, bans[ip] - t.left);
      }
      if limits.maxAgents > 0 && agents >= limits.maxAgents {
        return Rejected(Full, 0);
      }
      if limits.perMinute > 0 {
        var w := new Window.RollingWindow(MINUTE);
        if ip in conns {
          w.events := conns[ip];
        }
        var ok := w.Allow(limits.perMinute, t.admit);
        conns := conns[ip := w.events];
        if !ok {
          var wait := w.RetryAfter(t.retry);
          return Rejected(TooMany, wait);
        }
      }
      return Admitted;
    }

    method RecordAuthFailure(ip: string, now: int)
      modifies this
      ensures Now() == AfterFailure(old(Now()), ip, now)
    {
      if limits.failuresBeforeBan <= 0 {
        return;
      }
      var record: Record;
      if ip !in failures || now - failures[ip].firstAt > FAILURE_WINDOW {
        var offences := 0;
        if ip in failures {
          offences := failures[ip].offences;
        }
        record := Record(0, now, offences);
      } else {
        record := failures[ip];
      }
      record := record.(count := record.count + 1);
      if record.count < limits.failuresBeforeBan {
        failures := failures[ip := record];
        return;
      }
      record := Record(0, now, record.offences + 1);
      failures := failures[ip := record];
      var duration := BanDuration(limits.banDuration, record.offences);
      bans := bans[ip := now + duration as int];
    }

    method RecordAuthSuccess(ip: string)
      modifies this
      ensures Now() == AfterSuccess(old(Now()), ip)
    {
      failures := failures - {ip};
    }

    method IsBanned(ip: string, now: int) returns (banned: bool, until: int)
      ensures banned == IsBannedAt(Now(), ip, now)
      ensures banned ==> until == bans[ip]
    {
      if ip !in bans || now > bans[ip] {
        return false, 0;
      }
      return true, bans[ip];
    }

    method Unban(ip: string)
      modifies this
      ensures Now() == AfterUnban(old(Now()), ip)
    {
      bans := bans - {ip};
      failures := failures - {ip};
    }
  }
}
