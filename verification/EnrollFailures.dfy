/** Enrollment codes when saving may fail (hub/enroll.go): what a run promises then, and what a miss
    that was not saved is still worth. */
module EnrollFailures {
  import opened SharedFile
  import opened Enroll
  import opened EnrollRuns
  import EnrollCode
  import opened Wrappers

  /** Misses since `id` was issued that were saved. */
  ghost function SavedMisses(steps: seq<Step>, id: string): nat {
    if IssuedAs(steps, id).None? then 0
    else
      var rest, step := steps[..|steps| - 1], steps[|steps| - 1];
      SavedMisses(rest, id)
      + if IssuedAs(rest, id).Some? && AnswerOf(Run(rest), step) == NotRecognized && step.io.Some? then 1 else 0
  }

  // ----- what every step keeps -----

  /** The same codes or fewer, charged as often or more often. */
  ghost predicate IsBelow(m: Codes, c: Codes) {
    forall id :: id in m ==>
      && id in c && m[id] == c[id].(attempts := m[id].attempts)
      && c[id].attempts <= m[id].attempts
  }

  /** What a handle holds when it does not have to read the file again: no more than the file. */
  ghost predicate Sees(h: Handle<Entry>, f: File<Entry>) {
    && (f.Missing? ==> h.entries == map[] && h.loaded.None?)
    && (f.Present? && h.loaded == Some(f.modTime) ==> IsBelow(h.entries, f.content))
  }

  ghost predicate AllSee(w: World) {
    && (w.file.Present? ==> w.file.modTime in w.used)
    && (forall id :: id in w.handles ==>
          && Sees(w.handles[id], w.file)
          && (w.handles[id].loaded.Some? ==> w.handles[id].loaded.value in w.used))
  }

  /** A code in the file was issued, is charged with every saved miss, and is not spent unless it
      had lapsed. */
  ghost predicate IsAccounted(e: Entry, steps: seq<Step>, id: string, now: int) {
    && IssuedAs(steps, id).Some? && e == IssuedAs(steps, id).value.(attempts := e.attempts)
    && SavedMisses(steps, id) <= e.attempts
    && (IsSpent(steps, id) ==> Unix(now) > e.expiresAt)
  }

  ghost predicate AllAccounted(content: Codes, steps: seq<Step>, now: int) {
    forall id :: id in content ==> IsAccounted(content[id], steps, id, now)
  }

  ghost predicate InvWithFailures(steps: seq<Step>) {
    && AllSee(Run(steps)) && AllAccounted(Content(Run(steps)), steps, Clock(steps))
    && (forall id :: IsSpent(steps, id) ==> IssuedAs(steps, id).Some?)
  }

  lemma RefreshedIsBelow(w: World, id: nat)
    requires AllSee(w) && id in w.handles
    ensures IsBelow(Refreshed(w.handles[id], w.file).entries, Content(w))
  {
    assert Sees(w.handles[id], w.file);
  }

  /** What one operation leaves, whether or not it is saved. */
  lemma PerformKeepsSight(w: World, step: Step)
    requires AllSee(w) && step.Do? && step.id in w.handles && (step.io.Some? ==> step.io.value !in w.used)
    requires step.op.Create? ==> step.op.id !in Content(w)
    ensures AllSee(Next(w, step))
  {
    var h, f, t := w.handles[step.id], w.file, Next(w, step);
    RefreshedIsBelow(w, step.id);
    forall id | id in t.handles && id != step.id ensures Sees(t.handles[id], t.file) {
      assert Sees(w.handles[id], w.file);
    }
    assert Sees(h, f);
    HandleSees(h, f, step.op, step.io);
  }

  lemma HandleSees(h: Handle<Entry>, f: File<Entry>, op: Op, io: Option<int>)
    requires Sees(h, f) && IsBelow(Refreshed(h, f).entries, if f.Present? then f.content else map[])
    requires op.Create? ==> op.id !in (if f.Present? then f.content else map[])
    ensures var o := Perform(h, f, op, io);
            && Sees(o.handle, o.file)
            && (o.file == f || (io.Some? && o.file.Present? && o.file.modTime == io.value))
            && (o.handle.loaded.Some? ==>
                  || o.handle.loaded == h.loaded || o.handle.loaded == io
                  || (f.Present? && o.handle.loaded.value == f.modTime))
  {
  }

  // ----- the codes in the file -----

  /** What an operation makes of one code of the file. */
  lemma CodeAfter(h: Handle<Entry>, f: File<Entry>, op: Op, io: Option<int>, id: string)
    requires Sees(h, f) && IsBelow(Refreshed(h, f).entries, if f.Present? then f.content else map[])
    requires op.Redeem? && |op.code| == EnrollCode.LENGTH ==>
               IsPick(Live(Refreshed(h, f).entries, op.prune), op.code, op.pick)
    requires var o := Perform(h, f, op, io); o.file.Present? && id in o.file.content
    requires !(op.Create? && op.id == id && Perform(h, f, op, io).answer.Issued?)
    ensures var o := Perform(h, f, op, io);
            var e := o.file.content[id];
            && f.Present? && id in f.content && e == f.content[id].(attempts := e.attempts)
            && f.content[id].attempts + (if o.answer == NotRecognized && io.Some? then 1 else 0) <= e.attempts
            && !(o.answer.Redeemed? && o.answer.id == id) && !(o.answer.Revoked? && op == Revoke(id))
            && (o.answer.Lapsed? && o.answer.id == id ==> op.Redeem? && Unix(op.check) > e.expiresAt)
  {
  }

  /** A code that a step neither issues nor spends, charged with the step's miss if it is one that
      was saved. */
  lemma OldCodeStaysAccounted(e: Entry, was: Entry, steps: seq<Step>, id: string, now: int, later: int)
    requires steps != [] && now <= later && e == was.(attempts := e.attempts)
    requires var rest, step := steps[..|steps| - 1], steps[|steps| - 1];
             var answer := AnswerOf(Run(rest), step);
             && IsAccounted(was, rest, id, now)
             && !(answer.Issued? && step.op.Create? && step.op.id == id)
             && was.attempts + (if answer == NotRecognized && step.io.Some? then 1 else 0) <= e.attempts
             && !(answer.Redeemed? && answer.id == id) && !(answer.Revoked? && step.op == Revoke(id))
             && (answer.Lapsed? && answer.id == id ==> Unix(later) > e.expiresAt)
    ensures IsAccounted(e, steps, id, later)
  {
    hide AnswerOf, Run;
    assert Unix(now) <= Unix(later);
    assert IssuedAs(steps, id) == IssuedAs(steps[..|steps| - 1], id);
    assert SavedMisses(steps, id) <= e.attempts;
    assert IsSpent(steps, id) ==> Unix(later) > e.expiresAt;
  }

  lemma NewCodeIsAccounted(steps: seq<Step>, id: string)
    requires steps != [] && Plausible(steps) && InvWithFailures(steps[..|steps| - 1])
    requires var rest, step := steps[..|steps| - 1], steps[|steps| - 1];
             step.Do? && step.op.Create? && step.op.id == id && AnswerOf(Run(rest), step).Issued?
    ensures id in Content(Run(steps)) && IsAccounted(Content(Run(steps))[id], steps, id, Clock(steps))
  {
    hide AllSee, AllAccounted, Perform;
    var rest, step := steps[..|steps| - 1], steps[|steps| - 1];
    var w := Run(rest);
    IssuedIsSaved(w.handles[step.id], w.file, step.op, step.io);
    assert IssuedAs(rest, id).None? && !IsSpent(rest, id);
    assert IssuedAs(steps, id) == Some(EntryOf(step.op)) && SavedMisses(rest, id) == 0;
    assert SavedMisses(steps, id) == 0 && !IsSpent(steps, id);
  }

  /** A code that is in the file after a step is accounted for. */
  lemma CodeStaysAccounted(steps: seq<Step>, id: string)
    requires steps != [] && Plausible(steps) && InvWithFailures(steps[..|steps| - 1])
    requires id in Content(Run(steps))
    ensures IsAccounted(Content(Run(steps))[id], steps, id, Clock(steps))
  {
    hide IsBelow, AllSee, Perform, IsAccounted, IssuedAs, IsSpent, Sees, IsFresh;
    var rest, step := steps[..|steps| - 1], steps[|steps| - 1];
    var w := Run(rest);
    if step.Do? && step.id in w.handles {
      RefreshedIsBelow(w, step.id);
      HandleSeesItsFile(w, step.id);
      if step.op.Create? && step.op.id == id && AnswerOf(w, step).Issued? {
        NewCodeIsAccounted(steps, id);
      } else {
        CodeAfter(w.handles[step.id], w.file, step.op, step.io, id);
        var e := Content(Run(steps))[id];
        OldCodeStaysAccounted(e, Content(w)[id], steps, id, Clock(rest), Clock(steps));
      }
    } else {
      var e := Content(w)[id];
      OldCodeStaysAccounted(e, e, steps, id, Clock(rest), Clock(steps));
    }
  }

  lemma HandleSeesItsFile(w: World, id: nat)
    requires AllSee(w) && id in w.handles
    ensures Sees(w.handles[id], w.file)
  {
  }

  lemma IssuedIsSaved(h: Handle<Entry>, f: File<Entry>, op: Op, io: Option<int>)
    requires op.Create? && Perform(h, f, op, io).answer.Issued?
    ensures var t := Perform(h, f, op, io).file;
            t.Present? && op.id in t.content && t.content[op.id] == EntryOf(op)
  {
  }

  /** What a step spends was in the file. */
  lemma SpentWasHeld(steps: seq<Step>, id: string)
    requires steps != [] && InvWithFailures(steps[..|steps| - 1])
    requires IsSpent(steps, id)
    ensures IssuedAs(steps, id).Some?
  {
    var rest, step := steps[..|steps| - 1], steps[|steps| - 1];
    var w := Run(rest);
    if !IsSpent(rest, id) {
      RefreshedIsBelow(w, step.id);
      assert id in Content(w);
    }
  }

  lemma StepKeepsInvWithFailures(steps: seq<Step>)
    requires steps != [] && Plausible(steps) && InvWithFailures(steps[..|steps| - 1])
    ensures InvWithFailures(steps)
  {
    hide IsAccounted, IsBelow, Sees, Perform, IsSpent, IssuedAs, AnswerOf;
    var rest, step := steps[..|steps| - 1], steps[|steps| - 1];
    var w := Run(rest);
    if step.Do? && step.id in w.handles {
      if step.op.Create? && step.op.id in Content(w) {
        HeldWasIssued(rest, step.op.id);
      }
      PerformKeepsSight(w, step);
    } else if step.Open? {
      OpeningKeepsSight(w, step.id);
    }
    forall id | id in Content(Run(steps)) ensures IsAccounted(Content(Run(steps))[id], steps, id, Clock(steps)) {
      CodeStaysAccounted(steps, id);
    }
    forall id | IsSpent(steps, id) ensures IssuedAs(steps, id).Some? {
      SpentWasHeld(steps, id);
    }
  }

  lemma HeldWasIssued(steps: seq<Step>, id: string)
    requires InvWithFailures(steps) && id in Content(Run(steps))
    ensures IssuedAs(steps, id).Some?
  {
    assert IsAccounted(Content(Run(steps))[id], steps, id, Clock(steps));
  }

  lemma OpeningKeepsSight(w: World, id: nat)
    requires AllSee(w)
    ensures AllSee(w.(handles := w.handles[id := Opened(w.file)]))
  {
  }

  lemma {:induction false} RunKeepsInvWithFailures(steps: seq<Step>)
    requires Plausible(steps)
    ensures InvWithFailures(steps)
  {
    if steps != [] {
      hide InvWithFailures, IsPick, IsFresh;
      RunKeepsInvWithFailures(steps[..|steps| - 1]);
      StepKeepsInvWithFailures(steps);
    }
  }

  // ----- what is still promised -----

  /** A success means the code presented was issued under that identifier for that server, is not
      spent, not past its expiry and has fewer than five saved misses, whatever could not be saved. */
  lemma RedeemedMeansUnspent(steps: seq<Step>, step: Step, id: string, e: Entry) returns (i: nat)
    requires Plausible(steps + [step]) && AnswerOf(Run(steps), step) == Redeemed(id, e)
    ensures step.Do? && step.op.Redeem? && step.io.Some?
    ensures IssuedAs(steps, id).Some? && step.op.code == IssuedAs(steps, id).value.code
    ensures IsIssue(steps, i)
    ensures var op := steps[i].op;
            && op.id == id && op.code == step.op.code && op.serverKey == e.serverKey
            && e.shortName == (if op.shortName == "" then op.serverKey else op.shortName)
            && step.op.check / 1_000_000_000 <= LastSecond(op)
    ensures !IsSpent(steps, id)
    ensures SavedMisses(steps, id) < 5
  {
    hide IssuedAs, IsSpent, SavedMisses, Run;
    assert (steps + [step])[..|steps|] == steps;
    RunKeepsInvWithFailures(steps);
    var w := Run(steps);
    RefreshedIsBelow(w, step.id);
    assert IsAccounted(Content(w)[id], steps, id, Clock(steps));
    i := IssuedByCreate(steps, id);
  }

  lemma RedeemingSpends(rest: seq<Step>, step: Step)
    requires AnswerOf(Run(rest), step).Redeemed?
    ensures IsSpent(rest + [step], AnswerOf(Run(rest), step).id)
  {
    hide AnswerOf, Run;
    assert (rest + [step])[..|rest|] == rest;
  }

  /** A code succeeds at most once, whichever handles it is presented to and whatever could not be
      saved. */
  lemma RedeemedAtMostOnce(steps: seq<Step>, i: nat, j: nat)
    requires Plausible(steps) && i < j < |steps|
    requires AnswerOf(Run(steps[..i]), steps[i]).Redeemed? && AnswerOf(Run(steps[..j]), steps[j]).Redeemed?
    ensures steps[i].op.code != steps[j].op.code
  {
    hide AnswerOf, IsSpent, Plausible, Run, IssuedAs, Misses, Unix;
    var first, second := AnswerOf(Run(steps[..i]), steps[i]), AnswerOf(Run(steps[..j]), steps[j]);
    PlausiblePrefix(steps, i + 1);
    PlausiblePrefix(steps, j + 1);
    PlausiblePrefix(steps, j);
    assert steps[..i + 1] == steps[..i] + [steps[i]] && steps[..j + 1] == steps[..j] + [steps[j]];
    var a := RedeemedMeansUnspent(steps[..i], steps[i], first.id, first.entry);
    var b := RedeemedMeansUnspent(steps[..j], steps[j], second.id, second.entry);
    RedeemingSpends(steps[..i], steps[i]);
    assert steps[..j][..i + 1] == steps[..i + 1] && steps[..j][..i] == steps[..i];
    SpentStaysSpent(steps[..j], i + 1, first.id);
    IssuedStays(steps[..j], i, first.id);
    if steps[i].op.code == steps[j].op.code {
      CodesAreDistinct(steps[..j], first.id, second.id);
      assert false;
    }
  }

  // ----- what an unsaved miss is worth -----

  /** Presentations through one handle that match nothing and cannot be saved. */
  predicate AreUnsavedMisses(misses: seq<Step>, h: nat) {
    forall k :: 0 <= k < |misses| ==> IsUnsavedMiss(misses[k], h)
  }

  predicate IsUnsavedMiss(step: Step, h: nat) {
    && step.Do? && step.id == h && step.io.None?
    && step.op.Redeem? && |step.op.code| == EnrollCode.LENGTH && step.op.pick.None?
  }

  /** A usable code is held by every handle that refreshes, with its misses. */
  lemma UsableIsHeld(steps: seq<Step>, id: string, h: nat, later: int)
    requires Orderly(steps) && IsUsable(steps, id, later) && Clock(steps) <= later && h in Run(steps).handles
    ensures var m := Refreshed(Run(steps).handles[h], Run(steps).file).entries;
            id in m && m[id] == IssuedAs(steps, id).value.(attempts := Misses(steps, id))
  {
    hide IssuedAs, IsSpent, Misses, Run, Orderly, Clock;
    RunKeepsInv(steps);
    var w := Run(steps);
    assert Unix(Clock(steps)) <= Unix(later);
    assert IsUsable(steps, id, Clock(steps));
    assert Mirrors(w.handles[h], w.file, Clock(steps));
  }

  /** An unsaved miss charges the codes of its own handle only. */
  lemma OneUnsavedMiss(w: World, step: Step, id: string, e: Entry, later: int)
    requires step.Do? && IsUnsavedMiss(step, step.id) && step.id in w.handles
    requires step.op.prune <= step.op.again <= later && Unix(later) <= e.expiresAt
    requires var m := Refreshed(w.handles[step.id], w.file).entries;
             (id in m <==> e.attempts < 5) && (id in m ==> m[id] == e)
    ensures var t := Next(w, step);
            var m := Refreshed(t.handles[step.id], t.file).entries;
            && t.file == w.file && t.handles.Keys == w.handles.Keys
            && (forall g :: g in w.handles && g != step.id ==> t.handles[g] == w.handles[g])
            && (id in m <==> e.attempts + 1 < 5)
            && (id in m ==> m[id] == e.(attempts := e.attempts + 1))
  {
    assert Unix(step.op.prune) <= Unix(later) && Unix(step.op.again) <= Unix(later);
  }

  lemma {:induction false} AfterUnsavedMisses(steps: seq<Step>, misses: seq<Step>, h: nat, id: string, later: int)
    requires Orderly(steps) && Plausible(steps + misses) && AreUnsavedMisses(misses, h)
    requires h in Run(steps).handles && IsUsable(steps, id, later) && Clock(steps + misses) <= later
    ensures var was, w := Run(steps), Run(steps + misses);
            && w.file == was.file && w.handles.Keys == was.handles.Keys
            && (forall g :: g in was.handles && g != h ==> w.handles[g] == was.handles[g])
            && var m, n := Refreshed(w.handles[h], w.file).entries, Misses(steps, id) + |misses|;
               && (id in m <==> n < 5)
               && (id in m ==> m[id] == IssuedAs(steps, id).value.(attempts := n))
    ensures IssuedAs(steps + misses, id) == IssuedAs(steps, id)
    ensures Misses(steps + misses, id) == Misses(steps, id) + |misses|
  {
    hide Orderly, IsPick, IsFresh, Refreshed;
    if misses == [] {
      assert steps + misses == steps;
      UsableIsHeld(steps, id, h, later);
    } else {
      var n := |misses| - 1;
      var rest, step, all := steps + misses[..n], misses[n], steps + misses;
      assert all[..|all| - 1] == rest && all[|all| - 1] == step;
      AfterUnsavedMisses(steps, misses[..n], h, id, later);
      assert IsUnsavedMiss(step, h);
      hide Run, IssuedAs, Misses;
      OneUnsavedMiss(Run(rest), step, id, IssuedAs(steps, id).value.(attempts := Misses(rest, id)), later);
      MissIsCounted(rest, step, id);
    }
  }

  lemma MissIsCounted(rest: seq<Step>, step: Step, id: string)
    requires IsUnsavedMiss(step, step.id) && step.id in Run(rest).handles && IssuedAs(rest, id).Some?
    ensures Run(rest + [step]) == Next(Run(rest), step)
    ensures IssuedAs(rest + [step], id) == IssuedAs(rest, id)
    ensures Misses(rest + [step], id) == Misses(rest, id) + 1
  {
    assert (rest + [step])[..|rest|] == rest;
  }

  /** When misses through one handle cannot be saved, the code they were meant to wear out redeems
      afterwards if and only if it is presented to another handle or was missed fewer than five
      times in all. */
  lemma UnsavedMissesCountExactly(steps: seq<Step>, misses: seq<Step>, redeem: Step, h: nat, id: string)
    requires Orderly(steps) && Plausible(steps + misses + [redeem])
    requires AreUnsavedMisses(misses, h) && h in Run(steps).handles
    requires redeem.Do? && redeem.op.Redeem? && redeem.io.Some? && redeem.id in Run(steps).handles
    requires IsUsable(steps, id, redeem.op.check) && redeem.op.code == IssuedAs(steps, id).value.code
    ensures Misses(steps + misses, id) == Misses(steps, id) + |misses|
    ensures AnswerOf(Run(steps + misses), redeem).Redeemed?
            <==> redeem.id != h || Misses(steps + misses, id) < 5
  {
    hide Run, IssuedAs, Misses, IsSpent, Clock, Orderly, SavedMisses, IsFresh;
    var all := steps + misses;
    assert (all + [redeem])[..|all|] == all;
    AfterUnsavedMisses(steps, misses, h, id, redeem.op.check);
    IssuedLength(steps, id);
    if redeem.id != h {
      ClockGoesOn(steps, misses);
      UsableIsHeld(steps, id, redeem.id, redeem.op.check);
    }
    RunKeepsInvWithFailures(all);
    PresentedIsPicked(all, redeem, id);
  }

  lemma {:induction false} ClockGoesOn(steps: seq<Step>, more: seq<Step>)
    requires Plausible(steps + more)
    ensures Clock(steps) <= Clock(steps + more)
  {
    if more == [] {
      assert steps + more == steps;
    } else {
      var all := steps + more;
      assert all[..|all| - 1] == steps + more[..|more| - 1];
      ClockGoesOn(steps, more[..|more| - 1]);
    }
  }

  /** A code is redeemed exactly when its entry is live for the handle it is presented to. */
  lemma PresentedIsPicked(steps: seq<Step>, step: Step, id: string)
    requires Plausible(steps + [step]) && InvWithFailures(steps)
    requires step.Do? && step.op.Redeem? && step.io.Some? && step.id in Run(steps).handles
    requires IssuedAs(steps, id).Some? && step.op.code == IssuedAs(steps, id).value.code
    requires |step.op.code| == EnrollCode.LENGTH && Unix(step.op.check) <= IssuedAs(steps, id).value.expiresAt
    ensures var w := Run(steps);
            AnswerOf(w, step).Redeemed?
            <==> id in Live(Refreshed(w.handles[step.id], w.file).entries, step.op.prune)
  {
    hide IssuedAs, IsSpent, SavedMisses, Run, Clock, IsFresh;
    assert (steps + [step])[..|steps|] == steps;
    var w := Run(steps);
    var m := Live(Refreshed(w.handles[step.id], w.file).entries, step.op.prune);
    RefreshedIsBelow(w, step.id);
    if step.op.pick.Some? {
      var other := step.op.pick.value;
      assert IsAccounted(Content(w)[other], steps, other, Clock(steps));
      CodesAreDistinct(steps, id, other);
    }
  }
}
