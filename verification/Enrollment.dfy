/** Exchanging an enrollment code for a token: one agent, the code store, the roster and the
    guard together (hub/hub.go). */
module Enrollment {
  import opened SharedFile
  import Enroll
  import EnrollCode
  import Guard
  import Roster
  import opened Wrappers

  datatype Reply =
    | Rejected
    | NotAdded(why: Roster.Why)
    | Enrolled(key: string, token: string)
    | Undelivered

  /** What the exchange depends on: the clock readings, the fresh token, the modification time each
      write gets and whether the token reaches the agent. */
  datatype Circumstances = Circumstances(
    ip: string, prune: int, check: int, again: int, now: int, token: string,
    ioCode: Option<int>, ioAdd: Option<int>, ioRemove: Option<int>, isDelivered: bool)

  function AddOf(e: Enroll.Entry, c: Circumstances): Roster.Op {
    Roster.Add(e.serverKey, e.shortName, c.token, c.now)
  }

  /** The reply once a code has been redeemed, on the roster `m`. */
  function ReplyOf(m: Roster.Agents, e: Enroll.Entry, c: Circumstances): Reply {
    match Roster.Refusal(m, AddOf(e, c))
    case Some(why) => NotAdded(why)
    case None =>
      if c.ioAdd.None? then NotAdded(Roster.SaveFailed)
      else if c.isDelivered then Enrolled(e.serverKey, c.token)
      else Undelivered
  }

  /** What becomes of the roster: the server is added, and removed again when its token could not
      be delivered. */
  function RosterAfter(h: Handle<Roster.Entry>, f: File<Roster.Entry>, e: Enroll.Entry, c: Circumstances)
    : Roster.Outcome
  {
    var added := Roster.Perform(h, f, AddOf(e, c), c.ioAdd);
    if added.answer.Failed? || c.isDelivered then added
    else Roster.Perform(added.handle, added.file, Roster.Remove(e.serverKey), c.ioRemove)
  }

  class Desk {
    const enroll: Enroll.EnrollStore
    const roster: Roster.AgentRoster
    const guard: Guard.Controls

    /** Three things that share no state. */
    ghost predicate Valid() {
      var parts: seq<object> := [enroll, enroll.disk, roster, roster.disk, guard];
      forall i, j :: 0 <= i < j < |parts| ==> parts[i] != parts[j]
    }

    constructor (enroll: Enroll.EnrollStore, roster: Roster.AgentRoster, guard: Guard.Controls)
      ensures this.enroll == enroll && this.roster == roster && this.guard == guard
    {
      this.enroll, this.roster, this.guard := enroll, roster, guard;
    }

    method HandleEnroll(upper: EnrollCode.Upper, typed: string, c: Circumstances)
      returns (reply: Reply, answer: Enroll.Answer, pick: Option<string>)
      requires Valid()
      modifies enroll, enroll.disk, roster, roster.disk, guard
      ensures var code := EnrollCode.Normalized(upper, typed);
              && (|code| == EnrollCode.LENGTH ==>
                    Enroll.IsPick(Enroll.Live(Refreshed(old(enroll.State()), old(enroll.disk.file)).entries, c.prune),
                                  code, pick))
              && enroll.Performed(old(enroll.State()), old(enroll.disk.file),
                                  Enroll.Redeem(code, pick, c.prune, c.check, c.again), c.ioCode, answer)
      ensures !answer.Redeemed? ==>
                && reply == Rejected
                && guard.Now() == Guard.AfterFailure(old(guard.Now()), c.ip, c.now)
                && roster.State() == old(roster.State()) && roster.disk.file == old(roster.disk.file)
      ensures answer.Redeemed? ==>
                && reply == ReplyOf(Refreshed(old(roster.State()), old(roster.disk.file)).entries, answer.entry, c)
                && guard.Now() == old(guard.Now())
                && var after := RosterAfter(old(roster.State()), old(roster.disk.file), answer.entry, c);
                   roster.State() == after.handle && roster.disk.file == after.file
    {
      answer, pick := enroll.RedeemCode(upper, typed, c.prune, c.check, c.again, c.ioCode);
      hide Enroll.Perform, Enroll.IsPick, EnrollCode.Normalized, Guard.AfterFailure;
      if !answer.Redeemed? {
        guard.RecordAuthFailure(c.ip, c.now);
        return Rejected, answer, pick;
      }
      var entry := answer.entry;
      var added := roster.AddAgent(entry.serverKey, entry.shortName, c.token, c.now, c.ioAdd);
      if added.Failed? {
        return NotAdded(added.why), answer, pick;
      }
      if !c.isDelivered {
        var removed := roster.RemoveAgent(entry.serverKey, c.ioRemove);
        return Undelivered, answer, pick;
      }
      return Enrolled(entry.serverKey, added.token), answer, pick;
    }
  }

  /** Every reply once a code has been redeemed: the server key must be possible and new, the roster
      has to be written and the token has to arrive. */
  lemma RepliesExactly(m: Roster.Agents, e: Enroll.Entry, c: Circumstances)
    ensures ReplyOf(m, e, c)
            == if e.serverKey == "" then NotAdded(Roster.EmptyKey)
               else if e.serverKey == "discord" then NotAdded(Roster.Reserved)
               else if e.serverKey in m then NotAdded(Roster.Exists)
               else if c.ioAdd.None? then NotAdded(Roster.SaveFailed)
               else if c.isDelivered then Enrolled(e.serverKey, c.token)
               else Undelivered
  {
  }

  /** Only a delivered token leaves its server in the roster; whatever else the reply, memory is as
      it was before, and so is the file unless the second write of a rollback failed. A server key
      that can be nobody's is refused before the file is looked at. */
  lemma OnlyDeliveryStays(h: Handle<Roster.Entry>, f: File<Roster.Entry>, e: Enroll.Entry, c: Circumstances)
    requires Coherent(h, f) && (h.loaded.None? ==> h.entries == map[])
    ensures var m := Refreshed(h, f).entries;
            var after := RosterAfter(h, f, e, c);
            && (ReplyOf(m, e, c).Enrolled? ==> after.handle.entries == Roster.Effect(m, AddOf(e, c)))
            && (ReplyOf(m, e, c).Undelivered? ==> after.handle.entries == m)
            && (ReplyOf(m, e, c).NotAdded? ==>
                  after.file == f
                  && after.handle.entries == if Roster.IsMalformed(AddOf(e, c)) then h.entries else m)
            && (after.file.Present? && after.file.content == m <==>
                !ReplyOf(m, e, c).Enrolled? && (ReplyOf(m, e, c).Undelivered? ==> c.ioRemove.Some?))
  {
    var m := Refreshed(h, f).entries;
    RefreshSeesTheFile(h, f);
    if ReplyOf(m, e, c).Enrolled? || ReplyOf(m, e, c).Undelivered? {
      assert e.serverKey in Roster.Effect(m, AddOf(e, c)) && e.serverKey !in m;
      assert Roster.Effect(m, AddOf(e, c)) - {e.serverKey} == m;
    }
  }

  /** A redeemed code is gone from the store: presenting it again, whatever became of the token,
      finds nothing. */
  lemma RedeemedCodeIsGone(h: Handle<Enroll.Entry>, f: File<Enroll.Entry>, code: string, pick: Option<string>,
                           c: Circumstances, later: int, again: Option<string>)
    requires var o := Enroll.Perform(h, f, Enroll.Redeem(code, pick, c.prune, c.check, c.again), c.ioCode);
             && o.answer.Redeemed? && Enroll.IsPick(Enroll.Live(Refreshed(h, f).entries, c.prune), code, pick)
             && Enroll.IsPick(Enroll.Live(o.handle.entries, later), code, again)
    requires var m := Refreshed(h, f).entries;
             forall a, b | a in m && b in m :: m[a].code == m[b].code ==> a == b
    ensures again.None?
  {
  }

  /** A delivered token logs its holder in as the server the code was for, and nothing else about
      who may connect has changed. */
  lemma DeliveredTokenLogsIn(m: Roster.Agents, e: Enroll.Entry, c: Circumstances, token: string, r: Roster.Login)
    requires ReplyOf(m, e, c).Enrolled?
    requires c.token != "" && forall k :: k in m ==> m[k].token != c.token
    requires Roster.IsLogin(Roster.Effect(m, AddOf(e, c)), token, r)
    ensures token == c.token ==> r == Roster.Accepted(e.serverKey)
    ensures Roster.Effect(m, AddOf(e, c))[e.serverKey].shortName
            == if e.shortName == "" then e.serverKey else e.shortName
    ensures token != c.token ==> Roster.IsLogin(m, token, r)
  {
    var after := Roster.Effect(m, AddOf(e, c));
    assert after[e.serverKey].token == c.token;
    assert forall k :: k in m ==> k in after && after[k] == m[k];
  }
}
