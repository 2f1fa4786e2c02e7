/** The token bucket that caps one agent's message rate (guard/limiter.go). */
module Limiter {
  import opened Time

  /** Times are nanoseconds; tokens are real, as rounding is not modelled. */
  datatype Bucket = Bucket(ratePerSecond: real, burst: real, tokens: real, last: int, dropped: nat)

  function New(ratePerSecond: real, burst: int, now: int): Bucket {
    var b := (if burst < 1 then 1 else burst) as real;
    Bucket(ratePerSecond, b, b, now, 0)
  }

  /** Tokens that come back in `elapsed` nanoseconds. */
  function Earns(ratePerSecond: real, elapsed: int): real {
    elapsed as real / SECOND as real * ratePerSecond
  }

  function Earned(b: Bucket, now: int): real {
    Earns(b.ratePerSecond, now - b.last)
  }

  function Refilled(b: Bucket, now: int): real {
    if b.tokens + Earned(b, now) > b.burst then b.burst else b.tokens + Earned(b, now)
  }

  predicate Allows(b: Bucket, now: int) {
    b.ratePerSecond <= 0.0 || Refilled(b, now) >= 1.0
  }

  function After(b: Bucket, now: int): Bucket {
    if b.ratePerSecond <= 0.0 then b
    else if Allows(b, now) then b.(last := now, tokens := Refilled(b, now) - 1.0)
    else b.(last := now, tokens := Refilled(b, now), dropped := b.dropped + 1)
  }

  class TokenBucket {
    const ratePerSecond: real
    const burst: real
    var tokens: real
    var last: int
    var dropped: nat

    ghost function State(): Bucket
      reads this
    {
      Bucket(ratePerSecond, burst, tokens, last, dropped)
    }

    constructor (ratePerSecond: real, burst: int, now: int)
      ensures State() == New(ratePerSecond, burst, now)
    {
      var b := if burst < 1 then 1 else burst;
      this.ratePerSecond := ratePerSecond;
      this.burst := b as real;
      tokens := b as real;
      last := now;
      dropped := 0;
    }

    /** Uses up a token, reporting whether one was available. */
    method Allow(now: int) returns (ok: bool)
      modifies this
      ensures State() == After(old(State()), now)
      ensures ok == Allows(old(State()), now)
    {
      if ratePerSecond <= 0.0 {
        return true;
      }
      var elapsed := (now - last) as real / SECOND as real;
      last := now;
      tokens := tokens + elapsed * ratePerSecond;
      if tokens > burst {
        tokens := burst;
      }
      if tokens < 1.0 {
        dropped := dropped + 1;
        return false;
      }
      tokens := tokens - 1.0;
      return true;
    }
  }

  // ----- runs -----

  ghost predicate InOrder(from: int, times: seq<int>) {
    && (forall i :: 0 <= i < |times| ==> from <= times[i])
    && (forall i, j :: 0 <= i < j < |times| ==> times[i] <= times[j])
  }

  /** The bucket after a run of calls. */
  ghost function Run(b: Bucket, times: seq<int>): Bucket
    decreases |times|
  {
    if times == [] then b else Run(After(b, times[0]), times[1..])
  }

  /** How many calls of a run were admitted. */
  ghost function Admitted(b: Bucket, times: seq<int>): nat
    decreases |times|
  {
    if times == [] then 0
    else (if Allows(b, times[0]) then 1 else 0) + Admitted(After(b, times[0]), times[1..])
  }

  ghost function Answers(b: Bucket, times: seq<int>): (r: seq<bool>)
    ensures |r| == |times|
    decreases |times|
  {
    if times == [] then [] else [Allows(b, times[0])] + Answers(After(b, times[0]), times[1..])
  }

  ghost predicate Sound(b: Bucket) {
    b.ratePerSecond > 0.0 && b.burst >= 1.0 && 0.0 <= b.tokens <= b.burst
  }

  lemma EarnsAdds(rate: real, x: int, y: int)
    requires rate > 0.0 && 0 <= x && 0 <= y
    ensures 0.0 <= Earns(rate, x) && Earns(rate, 0) == 0.0
    ensures Earns(rate, x + y) == Earns(rate, x) + Earns(rate, y)
  {
    var a, b := x as real / SECOND as real, y as real / SECOND as real;
    assert (x + y) as real / SECOND as real == a + b;
    assert (a + b) * rate == a * rate + b * rate;
  }

  lemma AfterIsSound(b: Bucket, now: int)
    requires Sound(b) && b.last <= now
    ensures Sound(After(b, now)) && After(b, now).last == now
    ensures After(b, now).burst == b.burst && After(b, now).ratePerSecond == b.ratePerSecond
    ensures After(b, now).tokens + (if Allows(b, now) then 1.0 else 0.0) == Refilled(b, now)
  {
    hide Earns;
    EarnsAdds(b.ratePerSecond, now - b.last, 0);
  }

  /** Tokens never leave 0..burst. */
  lemma {:induction false} TokensStayInRange(b: Bucket, times: seq<int>)
    requires Sound(b) && InOrder(b.last, times)
    ensures Sound(Run(b, times)) && Run(b, times).burst == b.burst
    decreases |times|
  {
    hide Earns;
    if times != [] {
      AfterIsSound(b, times[0]);
      TokensStayInRange(After(b, times[0]), times[1..]);
    }
  }

  /** What is admitted is paid for by the tokens held and those earned meanwhile. */
  lemma {:induction false} AdmittedIsPaidFor(b: Bucket, times: seq<int>, end: int)
    requires Sound(b) && InOrder(b.last, times) && b.last <= end
    requires forall i :: 0 <= i < |times| ==> times[i] <= end
    ensures Admitted(b, times) as real <= b.tokens + Earned(b, end)
    decreases |times|
  {
    hide Earns;
    EarnsAdds(b.ratePerSecond, end - b.last, 0);
    if times != [] {
      var c := After(b, times[0]);
      AfterIsSound(b, times[0]);
      AdmittedIsPaidFor(c, times[1..], end);
      EarnsAdds(b.ratePerSecond, times[0] - b.last, end - times[0]);
    }
  }

  lemma AdmittedFrom(c: Bucket, during: seq<int>)
    requires Sound(c) && InOrder(c.last, during) && during != []
    ensures Admitted(c, during) as real
            <= c.burst + Earns(c.ratePerSecond, during[|during| - 1] - during[0])
  {
    hide Earns;
    var d := After(c, during[0]);
    AfterIsSound(c, during[0]);
    AdmittedIsPaidFor(d, during[1..], during[|during| - 1]);
  }

  /** In tokens and nanoseconds. */
  lemma EarnsPerSecond(rate: real, elapsed: int)
    ensures Earns(rate, elapsed) * 1_000_000_000.0 == rate * elapsed as real
  {
    var x := elapsed as real / 1_000_000_000.0;
    assert x * 1_000_000_000.0 == elapsed as real;
    assert x * rate * 1_000_000_000.0 == rate * (x * 1_000_000_000.0);
  }

  /** `n` calls inside `elapsed` nanoseconds are no more than the burst and the rate allow. */
  ghost predicate IsWithin(n: nat, ratePerSecond: real, burst: int, elapsed: int) {
    n as real * 1_000_000_000.0
    <= (if burst < 1 then 1 else burst) as real * 1_000_000_000.0 + ratePerSecond * elapsed as real
  }

  lemma WithinTokens(n: nat, ratePerSecond: real, burst: int, elapsed: int)
    ensures IsWithin(n, ratePerSecond, burst, elapsed)
            <==> n as real <= (if burst < 1 then 1 else burst) as real + Earns(ratePerSecond, elapsed)
  {
    EarnsPerSecond(ratePerSecond, elapsed);
  }

  /** Anywhere inside a run of a limiter, the calls admitted from time s to time t number at
      most burst + rate * (t - s), however the calls before them went. */
  lemma AdmittedBetween(ratePerSecond: real, burst: int, from: int, before: seq<int>, during: seq<int>)
    requires ratePerSecond > 0.0 && InOrder(from, before + during) && during != []
    ensures IsWithin(Admitted(Run(New(ratePerSecond, burst, from), before), during), ratePerSecond, burst,
                     during[|during| - 1] - during[0])
  {
    hide Earns, IsWithin;
    var b := New(ratePerSecond, burst, from);
    Split(from, before, during);
    TokensStayInRange(b, before);
    RunKeepsRateAndClock(b, before);
    AdmittedFrom(Run(b, before), during);
    WithinTokens(Admitted(Run(b, before), during), ratePerSecond, burst, during[|during| - 1] - during[0]);
  }

  lemma Split(from: int, before: seq<int>, during: seq<int>)
    requires InOrder(from, before + during)
    ensures InOrder(from, before)
    ensures InOrder(if before == [] then from else before[|before| - 1], during)
  {
    var all := before + during;
    assert forall i :: 0 <= i < |before| ==> all[i] == before[i];
    assert forall i :: 0 <= i < |during| ==> all[|before| + i] == during[i];
  }

  lemma {:induction false} RunKeepsRateAndClock(b: Bucket, times: seq<int>)
    requires Sound(b) && InOrder(b.last, times)
    ensures Run(b, times).ratePerSecond == b.ratePerSecond
    ensures Run(b, times).last == if times == [] then b.last else times[|times| - 1]
    decreases |times|
  {
    hide Earns;
    if times != [] {
      AfterIsSound(b, times[0]);
      RunKeepsRateAndClock(After(b, times[0]), times[1..]);
    }
  }

  // ----- exactly which calls are admitted -----

  lemma {:induction false} RunSnoc(b: Bucket, times: seq<int>, t: int)
    ensures Run(b, times + [t]) == After(Run(b, times), t)
    ensures Admitted(b, times + [t]) == Admitted(b, times) + if Allows(Run(b, times), t) then 1 else 0
    decreases |times|
  {
    hide After, Allows;
    if times == [] {
      assert [] + [t] == [t] && [t][1..] == [];
    } else {
      assert (times + [t])[1..] == times[1..] + [t];
      RunSnoc(After(b, times[0]), times[1..], t);
    }
  }

  /** How many calls of a run were admitted from the `i`-th on. */
  ghost function AdmittedSince(b: Bucket, times: seq<int>, i: nat): nat
    requires i <= |times|
  {
    Admitted(Run(b, times[..i]), times[i..])
  }

  lemma SinceSnoc(b: Bucket, times: seq<int>, t: int, i: nat)
    requires i <= |times|
    ensures AdmittedSince(b, times + [t], i)
            == AdmittedSince(b, times, i) + if Allows(Run(b, times), t) then 1 else 0
  {
    hide After, Allows, Admitted;
    var all := times + [t];
    assert all[..i] == times[..i] && all[i..] == times[i..] + [t];
    RunSnoc(Run(b, times[..i]), times[i..], t);
    RunAppend(b, times[..i], times[i..]);
    assert times[..i] + times[i..] == times;
  }

  lemma {:induction false} RunAppend(b: Bucket, first: seq<int>, second: seq<int>)
    ensures Run(b, first + second) == Run(Run(b, first), second)
    decreases |first|
  {
    hide After;
    if first == [] {
      assert [] + second == second;
    } else {
      assert (first + second)[1..] == first[1..] + second;
      RunAppend(After(b, first[0]), first[1..], second);
    }
  }

  lemma InOrderParts(from: int, times: seq<int>, t: int)
    requires InOrder(from, times + [t])
    ensures InOrder(from, times) && from <= t
    ensures forall i :: 0 <= i < |times| ==> times[i] <= t
  {
    var all := times + [t];
    assert forall i :: 0 <= i < |times| ==> all[i] == times[i];
    assert all[|times|] == t;
  }

  lemma NextLevel(c: Bucket, last: int, t: int, x: real)
    requires Sound(c) && c.last <= last <= t
    ensures var a := if Allows(c, last) then 1.0 else 0.0;
            Refilled(After(c, last), t) >= x
            <==> x <= c.burst && Refilled(c, last) >= x + a - Earns(c.ratePerSecond, t - last)
  {
    hide Earns;
    AfterIsSound(c, last);
  }

  /** The bucket holds `x` tokens at time `t` exactly when every span that ends then, taken from a
      call on, leaves room for that many. */
  lemma {:induction false} LevelExactly(b: Bucket, times: seq<int>, t: int, x: real)
    requires Sound(b) && b.tokens == b.burst && InOrder(b.last, times + [t])
    ensures Refilled(Run(b, times), t) >= x
            <==> && x <= b.burst
                 && forall i :: 0 <= i < |times| ==>
                      AdmittedSince(b, times, i) as real + x <= b.burst + Earns(b.ratePerSecond, t - times[i])
    decreases |times|
  {
    hide Earns, Allows, After, AdmittedSince, Refilled, Run, Sound, InOrder;
    InOrderParts(b.last, times, t);
    if times == [] {
      FullLevel(b, t, x);
    } else {
      var n := |times| - 1;
      var rest, last := times[..n], times[n];
      assert times == rest + [last];
      InOrderParts(b.last, rest, last);
      TokensStayInRange(b, rest);
      RunKeepsRateAndClock(b, rest);
      var c := Run(b, rest);
      RunSnoc(b, rest, last);
      var a := if Allows(c, last) then 1 else 0;
      NextLevel(c, last, t, x);
      LevelExactly(b, rest, last, x + a as real - Earns(b.ratePerSecond, t - last));
      RateOfSound(b);
      OneMoreSince(b, rest, last, t, x, a);
    }
  }

  lemma RateOfSound(b: Bucket)
    requires Sound(b)
    ensures b.ratePerSecond > 0.0
  {
  }

  lemma FullLevel(b: Bucket, t: int, x: real)
    requires Sound(b) && b.tokens == b.burst && b.last <= t
    ensures Refilled(Run(b, []), t) >= x <==> x <= b.burst
  {
    hide Earns;
    EarnsAdds(b.ratePerSecond, t - b.last, 0);
  }

  /** The spans of a run against those of the run with one more call. */
  lemma OneMoreSince(b: Bucket, rest: seq<int>, last: int, t: int, x: real, a: int)
    requires b.ratePerSecond > 0.0 && last <= t && forall i :: 0 <= i < |rest| ==> rest[i] <= last
    requires a == if Allows(Run(b, rest), last) then 1 else 0
    ensures var times := rest + [last];
            var y := x + a as real - Earns(b.ratePerSecond, t - last);
            (forall i :: 0 <= i < |times| ==>
               AdmittedSince(b, times, i) as real + x <= b.burst + Earns(b.ratePerSecond, t - times[i]))
            <==> y <= b.burst
                 && forall i :: 0 <= i < |rest| ==>
                      AdmittedSince(b, rest, i) as real + y <= b.burst + Earns(b.ratePerSecond, last - rest[i])
  {
    hide Earns, Allows, After, AdmittedSince;
    var times := rest + [last];
    forall i | 0 <= i < |rest|
      ensures AdmittedSince(b, times, i) == AdmittedSince(b, rest, i) + a
      ensures Earns(b.ratePerSecond, t - times[i])
              == Earns(b.ratePerSecond, last - rest[i]) + Earns(b.ratePerSecond, t - last)
    {
      SinceSnoc(b, rest, last, i);
      EarnsAdds(b.ratePerSecond, last - rest[i], t - last);
    }
    SinceSnoc(b, rest, last, |rest|);
    NothingSince(b, rest);
    assert times[|rest|] == last;
    var y := x + a as real - Earns(b.ratePerSecond, t - last);
    if y <= b.burst && forall i :: 0 <= i < |rest| ==>
         AdmittedSince(b, rest, i) as real + y <= b.burst + Earns(b.ratePerSecond, last - rest[i])
    {
      forall i | 0 <= i < |times|
        ensures AdmittedSince(b, times, i) as real + x <= b.burst + Earns(b.ratePerSecond, t - times[i])
      {
        if i < |rest| {
          assert AdmittedSince(b, rest, i) as real + y <= b.burst + Earns(b.ratePerSecond, last - rest[i]);
        }
      }
    }
  }

  lemma NothingSince(b: Bucket, times: seq<int>)
    ensures AdmittedSince(b, times, |times|) == 0
  {
    assert times[|times|..] == [];
  }

  /** A call is admitted if and only if it breaks the bound of no span: for every call before it,
      what was admitted from that call on, with this one, is within the burst and the rate. */
  lemma {:induction false} AdmittedExactly(ratePerSecond: real, burst: int, from: int, before: seq<int>, t: int)
    requires ratePerSecond > 0.0 && InOrder(from, before + [t])
    ensures var b := New(ratePerSecond, burst, from);
            Allows(Run(b, before), t)
            <==> forall i :: 0 <= i < |before| ==>
                   IsWithin(AdmittedSince(b, before, i) + 1, ratePerSecond, burst, t - before[i])
  {
    hide Earns, AdmittedSince, IsWithin, Run;
    var b := New(ratePerSecond, burst, from);
    LevelExactly(b, before, t, 1.0);
    assert InOrder(from, before) by {
      assert forall i :: 0 <= i < |before| ==> (before + [t])[i] == before[i];
    }
    RunKeepsRateAndClock(b, before);
    forall i | 0 <= i < |before|
      ensures IsWithin(AdmittedSince(b, before, i) + 1, ratePerSecond, burst, t - before[i])
              <==> AdmittedSince(b, before, i) as real + 1.0 <= b.burst + Earns(ratePerSecond, t - before[i])
    {
      WithinTokens(AdmittedSince(b, before, i) + 1, ratePerSecond, burst, t - before[i]);
    }
  }

  lemma {:induction false} AdmittedAtMostAll(b: Bucket, times: seq<int>)
    ensures Admitted(b, times) <= |times|
    decreases |times|
  {
    if times != [] {
      AdmittedAtMostAll(After(b, times[0]), times[1..]);
    }
  }

  lemma FewAreWithin(n: nat, ratePerSecond: real, burst: int, elapsed: int)
    requires n <= (if burst < 1 then 1 else burst) && ratePerSecond > 0.0 && 0 <= elapsed
    ensures IsWithin(n, ratePerSecond, burst, elapsed)
  {
  }

  /** A new limiter admits as many calls as its burst, and any call that comes at least the time
      of one token after the one before it. */
  lemma EarlyAndSpacedAreAdmitted(ratePerSecond: real, burst: int, from: int, before: seq<int>, t: int)
    requires ratePerSecond > 0.0 && InOrder(from, before + [t])
    requires || |before| < (if burst < 1 then 1 else burst)
             || ratePerSecond * (t - before[|before| - 1]) as real >= 1_000_000_000.0
    ensures Allows(Run(New(ratePerSecond, burst, from), before), t)
  {
    var b, n := New(ratePerSecond, burst, from), |before|;
    hide Earns, IsWithin, AdmittedSince, Run, InOrder;
    InOrderParts(from, before, t);
    if n < (if burst < 1 then 1 else burst) {
      forall i | 0 <= i < n
        ensures IsWithin(AdmittedSince(b, before, i) + 1, ratePerSecond, burst, t - before[i])
      {
        SinceAtMostAll(b, before, i);
        FewAreWithin(AdmittedSince(b, before, i) + 1, ratePerSecond, burst, t - before[i]);
      }
      AdmittedExactly(ratePerSecond, burst, from, before, t);
    } else {
      TokensStayInRange(b, before);
      RunKeepsRateAndClock(b, before);
      EarnsPerSecond(ratePerSecond, t - before[n - 1]);
    }
  }

  lemma SinceAtMostAll(b: Bucket, times: seq<int>, i: nat)
    requires i <= |times|
    ensures AdmittedSince(b, times, i) <= |times|
  {
    AdmittedAtMostAll(Run(b, times[..i]), times[i..]);
  }

  /** Without a positive rate nothing is refused. */
  lemma {:induction false} NoRateAdmitsAll(ratePerSecond: real, burst: int, from: int, times: seq<int>)
    requires ratePerSecond <= 0.0
    ensures Admitted(New(ratePerSecond, burst, from), times) == |times|
    decreases |times|
  {
    if times != [] {
      var b := New(ratePerSecond, burst, from);
      assert After(b, times[0]) == b && Allows(b, times[0]);
      NoRateAdmitsAll(ratePerSecond, burst, from, times[1..]);
    }
  }

  /** Every refusal is counted. */
  lemma {:induction false} DroppedCountsRefusals(b: Bucket, times: seq<int>)
    ensures Run(b, times).dropped + Admitted(b, times) == b.dropped + |times|
    decreases |times|
  {
    hide Refilled;
    if times != [] {
      DroppedCountsRefusals(After(b, times[0]), times[1..]);
    }
  }

  // ----- refused calls leave no trace -----

  /** Two buckets that will answer alike from `now` on. */
  ghost predicate Alike(b: Bucket, c: Bucket, now: int) {
    && Sound(b) && Sound(c) && b.last <= now && c.last <= now
    && b.ratePerSecond == c.ratePerSecond && b.burst == c.burst
    && b.tokens + Earned(b, now) == c.tokens + Earned(c, now)
  }

  lemma AlikeLater(b: Bucket, c: Bucket, now: int, later: int)
    requires Alike(b, c, now) && now <= later
    ensures Alike(b, c, later)
  {
    hide Earns;
    EarnsAdds(b.ratePerSecond, now - b.last, later - now);
    EarnsAdds(c.ratePerSecond, now - c.last, later - now);
  }

  lemma {:induction false} AlikeAnswerAlike(b: Bucket, c: Bucket, times: seq<int>, now: int)
    requires Alike(b, c, now) && InOrder(now, times)
    ensures Answers(b, times) == Answers(c, times)
    decreases |times|
  {
    hide Earns;
    EarnsAdds(b.ratePerSecond, 0, 0);
    if times != [] {
      AlikeLater(b, c, now, times[0]);
      AfterIsSound(b, times[0]);
      AfterIsSound(c, times[0]);
      var b', c' := After(b, times[0]), After(c, times[0]);
      AlikeAnswerAlike(b', c', times[1..], times[0]);
    }
  }

  /** Deleting a refused call from a run changes no later answer. */
  lemma {:induction false} RefusedCallLeavesNoTrace(b: Bucket, now: int, later: seq<int>)
    requires Sound(b) && b.last <= now && InOrder(now, later)
    requires !Allows(b, now)
    ensures Answers(After(b, now), later) == Answers(b, later)
  {
    hide Earns;
    EarnsAdds(b.ratePerSecond, 0, 0);
    AfterIsSound(b, now);
    AlikeAnswerAlike(After(b, now), b, later, now);
  }

  /** Stated on whole runs: all answers but the refused one stay as they were. */
  lemma {:induction false} DeletingARefusedCall(b: Bucket, times: seq<int>, k: nat)
    requires Sound(b) && InOrder(b.last, times) && k < |times| && !Answers(b, times)[k]
    ensures Answers(b, times[..k] + times[k + 1..])
            == Answers(b, times)[..k] + Answers(b, times)[k + 1..]
    decreases |times|
  {
    hide Earns, Allows, After, Refilled, Answers;
    var rest := times[1..];
    AfterIsSound(b, times[0]);
    AnswersPeel(b, times);
    var cut := times[..k] + times[k + 1..];
    if k == 0 {
      RefusedCallLeavesNoTrace(b, times[0], rest);
      assert cut == rest;
    } else {
      var c, shorter := After(b, times[0]), rest[..k - 1] + rest[k..];
      DeletingARefusedCall(c, rest, k - 1);
      assert cut == [times[0]] + shorter && cut[1..] == shorter;
      AnswersPeel(b, cut);
      CutInTail(Answers(b, times), k);
    }
  }

  lemma CutInTail(answers: seq<bool>, k: nat)
    requires 0 < k < |answers|
    ensures answers[..k] + answers[k + 1..] == [answers[0]] + (answers[1..][..k - 1] + answers[1..][k..])
  {
  }

  lemma AnswersPeel(b: Bucket, times: seq<int>)
    requires times != []
    ensures Answers(b, times) == [Allows(b, times[0])] + Answers(After(b, times[0]), times[1..])
    ensures Answers(b, times)[1..] == Answers(After(b, times[0]), times[1..])
  {
  }
}
