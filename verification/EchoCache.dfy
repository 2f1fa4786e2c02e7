/** The agent's guard against relaying back a line it injected itself (agent/echo.go). */
module EchoCache {
  import opened Bytes

  /** Keys of injected lines with the time their suppression lapses. */
  datatype Echoes = Echoes(ttl: int, limit: nat, expiry: map<bytes, int>)

  function Fresh(ttl: int): Echoes {
    Echoes(if ttl <= 0 then 10_000_000_000 else ttl, 4096, map[])
  }

  function Live(expiry: map<bytes, int>, now: int): map<bytes, int> {
    map key | key in expiry && now <= expiry[key] :: expiry[key]
  }

  /** More unexpired entries than the limit: the whole cache is dropped. */
  predicate Floods(s: Echoes, now: int) {
    |Live(s.expiry, now)| > s.limit
  }

  function Pruned(s: Echoes, now: int): Echoes {
    s.(expiry := if Floods(s, now) then map[] else Live(s.expiry, now))
  }

  function Remembered(s: Echoes, key: bytes, pruneAt: int, now: int): Echoes {
    var t := Pruned(s, pruneAt);
    t.(expiry := t.expiry[key := now + t.ttl])
  }

  predicate Suppresses(s: Echoes, key: bytes, now: int) {
    key in s.expiry && now < s.expiry[key]
  }

  function Consumed(s: Echoes, key: bytes): Echoes {
    s.(expiry := s.expiry - {key})
  }

  class Cache {
    const ttl: int
    const limit: nat
    var expiry: map<bytes, int>

    ghost function State(): Echoes
      reads this
    {
      Echoes(ttl, limit, expiry)
    }

    constructor (ttl: int)
      ensures State() == Fresh(ttl)
    {
      this.ttl := if ttl <= 0 then 10_000_000_000 else ttl;
      limit := 4096;
      expiry := map[];
    }

    /** Drops expired entries, visiting them in any order, and everything when too many stay. */
    method Prune(now: int)
      modifies this
      ensures State() == Pruned(old(State()), now)
    {
      var unvisited := expiry.Keys;
      while unvisited != {}
        invariant unvisited <= old(expiry).Keys
        invariant expiry == map key | key in old(expiry) && (key in unvisited || now <= old(expiry)[key])
                                      :: old(expiry)[key]
        decreases unvisited
      {
        var key :| key in unvisited;
        if now > expiry[key] {
          expiry := expiry - {key};
        }
        unvisited := unvisited - {key};
      }
      assert expiry == Live(old(expiry), now);
      if |expiry| > limit {
        expiry := map[];
      }
    }

    /** Records that a line with this key was injected. */
    method Remember(key: bytes, pruneAt: int, now: int)
      modifies this
      ensures State() == Remembered(old(State()), key, pruneAt, now)
    {
      Prune(pruneAt);
      expiry := expiry[key := now + ttl];
    }

    /** Reports whether the key was injected recently, and uses the entry up. */
    method IsEcho(key: bytes, now: int) returns (echo: bool)
      modifies this
      ensures State() == Consumed(old(State()), key)
      ensures echo == Suppresses(old(State()), key, now)
    {
      if key !in expiry {
        assert expiry - {key} == expiry;
        return false;
      }
      var deadline := expiry[key];
      expiry := expiry - {key};
      return now < deadline;
    }
  }

  // ----- runs -----

  datatype Op =
    | Remember(key: bytes, pruneAt: int, now: int)
    | IsEcho(key: bytes, now: int)

  function Apply(s: Echoes, op: Op): Echoes {
    match op
    case Remember(key, pruneAt, now) => Remembered(s, key, pruneAt, now)
    case IsEcho(key, now) => Consumed(s, key)
  }

  function First(op: Op): int {
    if op.Remember? then op.pruneAt else op.now
  }

  ghost predicate InOrder(ops: seq<Op>) {
    && (forall i :: 0 <= i < |ops| ==> First(ops[i]) <= ops[i].now)
    && (forall i, j :: 0 <= i < j < |ops| ==> ops[i].now <= First(ops[j]))
  }

  ghost function Run(s: Echoes, ops: seq<Op>): Echoes {
    if ops == [] then s else Apply(Run(s, ops[..|ops| - 1]), ops[|ops| - 1])
  }

  /** Operation `i` is a lookup that found and used up a live entry. */
  ghost predicate SuppressesAt(s: Echoes, ops: seq<Op>, i: nat)
    requires i < |ops|
  {
    ops[i].IsEcho? && Suppresses(Run(s, ops[..i]), ops[i].key, ops[i].now)
  }

  ghost predicate FloodsAt(s: Echoes, ops: seq<Op>, i: nat)
    requires i < |ops|
  {
    ops[i].Remember?
    && var held := Run(s, ops[..i]).expiry;
       |set key | key in held && ops[i].pruneAt <= held[key]| > 4096
  }

  ghost function Injections(ops: seq<Op>, key: bytes): nat {
    if ops == [] then 0
    else
      var last := ops[|ops| - 1];
      Injections(ops[..|ops| - 1], key) + if last.Remember? && last.key == key then 1 else 0
  }

  ghost function Suppressions(s: Echoes, ops: seq<Op>, key: bytes): nat {
    if ops == [] then 0
    else
      Suppressions(s, ops[..|ops| - 1], key)
      + if ops[|ops| - 1].key == key && SuppressesAt(s, ops, |ops| - 1) then 1 else 0
  }

  /** Per key, suppressions never exceed remembered injections: an entry still held stands for
      an injection whose suppression is yet to come. */
  lemma {:induction false} SuppressionsNeverExceedInjections(ttl: int, ops: seq<Op>, key: bytes)
    ensures Suppressions(Fresh(ttl), ops, key)
            + (if key in Run(Fresh(ttl), ops).expiry then 1 else 0)
            <= Injections(ops, key)
  {
    if ops != [] {
      SuppressionsNeverExceedInjections(ttl, ops[..|ops| - 1], key);
    }
  }

  /** The position of the injection of `key` that is still waiting for its echo: no later
      operation has touched the key and no flood has cleared the cache. -1 when there is none. */
  ghost function Waiting(s: Echoes, ops: seq<Op>, key: bytes): (i: int)
    ensures -1 <= i < |ops|
    ensures i >= 0 ==> ops[i].Remember? && ops[i].key == key
  {
    if ops == [] then -1
    else
      var last := |ops| - 1;
      if ops[last].key == key then (if ops[last].Remember? then last else -1)
      else if FloodsAt(s, ops, last) then -1
      else Waiting(s, ops[..last], key)
  }

  lemma {:induction false} RunKeepsTtl(ttl: int, ops: seq<Op>)
    ensures Run(Fresh(ttl), ops).ttl == Fresh(ttl).ttl && Run(Fresh(ttl), ops).limit == 4096
  {
    if ops != [] {
      RunKeepsTtl(ttl, ops[..|ops| - 1]);
    }
  }

  /** The cache holds exactly the waiting injections, except that one past its deadline may have
      been pruned already. */
  ghost predicate HoldsWaiting(s: Echoes, ops: seq<Op>, key: bytes, i: int, expiry: map<bytes, int>, now: int)
    requires -1 <= i < |ops|
  {
    && (key in expiry ==> i >= 0 && expiry[key] == ops[i].now + s.ttl)
    && (i >= 0 && now < ops[i].now + s.ttl ==> key in expiry)
  }

  lemma {:induction false} HeldExactly(ttl: int, ops: seq<Op>, key: bytes, now: int)
    requires InOrder(ops)
    requires forall k :: 0 <= k < |ops| ==> ops[k].now <= now
    ensures var s := Fresh(ttl);
            HoldsWaiting(s, ops, key, Waiting(s, ops, key), Run(s, ops).expiry, now)
  {
    if ops != [] {
      var last := |ops| - 1;
      var rest := ops[..last];
      RunKeepsTtl(ttl, rest);
      HeldExactly(ttl, rest, key, now);
    }
  }

  /** Exactly when a lookup suppresses: an injection of its key is waiting and was made less than
      one TTL ago. */
  lemma SuppressedExactly(ttl: int, ops: seq<Op>, j: nat)
    requires InOrder(ops) && j < |ops| && ops[j].IsEcho?
    ensures var i := Waiting(Fresh(ttl), ops[..j], ops[j].key);
            SuppressesAt(Fresh(ttl), ops, j) <==>
            i >= 0 && ops[i].now <= ops[j].now < ops[i].now + if ttl <= 0 then 10_000_000_000 else ttl
  {
    HeldExactly(ttl, ops[..j], ops[j].key, ops[j].now);
  }

  // ----- what a map of keys cannot count -----

  ghost function Times(n: nat, op: Op): seq<Op> {
    seq(n, _ => op)
  }

  lemma {:induction false} RememberedTimes(ttl: int, key: bytes, n: nat, now: int)
    requires n > 0
    ensures Run(Fresh(ttl), Times(n, Remember(key, now, now)))
            == Fresh(ttl).(expiry := map[key := now + Fresh(ttl).ttl])
    ensures Suppressions(Fresh(ttl), Times(n, Remember(key, now, now)), key) == 0
  {
    var op := Remember(key, now, now);
    assert Times(n, op)[..n - 1] == Times(n - 1, op);
    if n > 1 {
      RememberedTimes(ttl, key, n - 1, now);
    } else {
      assert Live(map[], now) == map[];
    }
    var before := Run(Fresh(ttl), Times(n - 1, op));
    assert Live(before.expiry, now).Keys <= {key};
    CardinalityOfSubset(Live(before.expiry, now).Keys, {key});
  }

  lemma {:induction false} CardinalityOfSubset<T>(a: set<T>, b: set<T>)
    requires a <= b
    ensures |a| <= |b|
  {
    if a != {} {
      var x :| x in a;
      CardinalityOfSubset(a - {x}, b - {x});
    }
  }

  lemma OneMoreLookup(s: Echoes, ops: seq<Op>, key: bytes, now: int)
    ensures var all := ops + [IsEcho(key, now)];
            && Run(s, all) == Consumed(Run(s, ops), key)
            && Suppressions(s, all, key)
               == Suppressions(s, ops, key) + (if Suppresses(Run(s, ops), key, now) then 1 else 0)
  {
    var all := ops + [IsEcho(key, now)];
    assert all[..|all| - 1] == ops;
  }

  /** Looking one key up `m` times when it is held live suppresses the first time only. */
  lemma {:induction false} LookedUpTimes(ttl: int, ops: seq<Op>, key: bytes, m: nat, now: int)
    requires Suppresses(Run(Fresh(ttl), ops), key, now)
    ensures var all := ops + Times(m, IsEcho(key, now));
            && Suppressions(Fresh(ttl), all, key)
               == Suppressions(Fresh(ttl), ops, key) + (if m > 0 then 1 else 0)
            && (key in Run(Fresh(ttl), all).expiry <==> m == 0)
            && (m == 0 ==> Run(Fresh(ttl), all) == Run(Fresh(ttl), ops))
  {
    hide Run, Suppressions;
    var op := IsEcho(key, now);
    var all := ops + Times(m, op);
    if m == 0 {
      assert all == ops;
    } else {
      var rest := ops + Times(m - 1, op);
      LookedUpTimes(ttl, ops, key, m - 1, now);
      assert all == rest + [op];
      OneMoreLookup(Fresh(ttl), rest, key, now);
    }
  }

  /** `n` identical injections outstanding together give one suppression, so when all of them
      come back in time `n - 1` copies pass although nobody said them. */
  lemma TwinsLeak(ttl: int, key: bytes, n: nat, now: int)
    requires n > 0
    ensures var ops := Times(n, Remember(key, now, now)) + Times(n, IsEcho(key, now));
            Suppressions(Fresh(ttl), ops, key) == 1
  {
    RememberedTimes(ttl, key, n, now);
    LookedUpTimes(ttl, Times(n, Remember(key, now, now)), key, n, now);
  }
}
