/** The hub's outstanding enrollment codes (hub/enroll.go). A code's hash is ideal, so an entry
    holds the normalized code itself. Times are nanoseconds, expiries whole seconds. */
module Enroll {
  import opened SharedFile
  import EnrollCode
  import opened Wrappers
  import opened Time

  const MAX_ATTEMPTS: nat := 5
  const DEFAULT_TTL: int := 15 * 60 * SECOND

  datatype Entry = Entry(
    code: string, serverKey: string, shortName: string, expiresAt: int, createdAt: int, attempts: nat)

  type Codes = map<string, Entry>

  function Unix(now: int): int {
    now / SECOND
  }

  predicate IsExpired(e: Entry, now: int) {
    Unix(now) > e.expiresAt || e.attempts >= MAX_ATTEMPTS
  }

  function Live(m: Codes, now: int): Codes {
    map id | id in m && !IsExpired(m[id], now) :: m[id]
  }

  function Charged(m: Codes): Codes {
    map id | id in m :: m[id].(attempts := m[id].attempts + 1)
  }

  /** An operation with its clock readings. `pick` is the entry a presented code was found to
      match. */
  datatype Op =
    | Create(id: string, code: string, serverKey: string, shortName: string, ttl: int, prune: int, now: int)
    | Redeem(code: string, pick: Option<string>, prune: int, check: int, again: int)
    | Pending(prune: int)
    | Revoke(id: string)

  datatype Answer =
    | Issued(code: string)
    | Redeemed(id: string, entry: Entry)
    | Listed(codes: Codes)
    | Revoked
    | EmptyKey | Reserved | Malformed | Lapsed(id: string) | NotRecognized | NotPending | SaveFailed

  datatype Outcome = Outcome(handle: Handle<Entry>, file: File<Entry>, answer: Answer)

  /** Saving `m` through a handle: with no modification time the write fails. */
  function Saved(h: Handle<Entry>, m: Codes, f: File<Entry>, io: Option<int>, answer: Answer, failed: Answer): Outcome {
    if io.Some? then Outcome(Handle(m, io), Present(m, io.value), answer)
    else Outcome(h.(entries := m), f, failed)
  }

  function EntryOf(op: Op): Entry
    requires op.Create?
  {
    Entry(op.code, op.serverKey, if op.shortName == "" then op.serverKey else op.shortName,
          Unix(op.now + if op.ttl <= 0 then DEFAULT_TTL else op.ttl), Unix(op.now), 0)
  }

  /** A found entry is one whose code was presented; none is found only when none matches. */
  predicate IsPick(m: Codes, code: string, pick: Option<string>) {
    match pick
    case Some(id) => id in m && m[id].code == code
    case None => forall id :: id in m ==> m[id].code != code
  }

  /** What an operation does through one handle. `op.code` of a Redeem is already normalized. */
  function Perform(h: Handle<Entry>, f: File<Entry>, op: Op, io: Option<int>): Outcome {
    var r := Refreshed(h, f);
    match op
    case Create(id, code, serverKey, shortName, ttl, prune, now) =>
      if serverKey == "" then Outcome(h, f, EmptyKey)
      else if serverKey == "discord" then Outcome(h, f, Reserved)
      else
        var m := Live(r.entries, prune);
        if io.None? then Outcome(r.(entries := m - {id}), f, SaveFailed)
        else Saved(r, m[id := EntryOf(op)], f, io, Issued(code), SaveFailed)
    case Redeem(code, pick, prune, check, again) =>
      if |code| != EnrollCode.LENGTH then Outcome(h, f, Malformed)
      else
        var m := Live(r.entries, prune);
        (match pick
         case Some(id) =>
           if id !in m then Outcome(h, f, NotRecognized)
           else if IsExpired(m[id], check) then Saved(r, m - {id}, f, io, Lapsed(id), Lapsed(id))
           else Saved(r, m - {id}, f, io, Redeemed(id, m[id]), SaveFailed)
         case None => Saved(r, Live(Charged(m), again), f, io, NotRecognized, NotRecognized))
    case Pending(prune) =>
      var m := Live(r.entries, prune);
      Outcome(r.(entries := m), f, Listed(m))
    case Revoke(id) =>
      if id !in r.entries then Outcome(r, f, NotPending)
      else Saved(r, r.entries - {id}, f, io, Revoked, SaveFailed)
  }

  class EnrollStore {
    var entries: Codes
    var loadedModTime: Option<int>
    const disk: Disk<Entry>

    ghost function State(): Handle<Entry>
      reads this
    {
      Handle(entries, loadedModTime)
    }

    ghost predicate Performed(was: Handle<Entry>, file: File<Entry>, op: Op, io: Option<int>, answer: Answer)
      reads this, disk
    {
      Outcome(State(), disk.file, answer) == Perform(was, file, op, io)
    }

    constructor (disk: Disk<Entry>)
      ensures this.disk == disk
      ensures State() == if disk.file.Missing? then Handle(map[], None)
                         else Handle(disk.file.content, Some(disk.file.modTime))
    {
      this.disk := disk;
      entries := map[];
      loadedModTime := None;
      new;
      Load();
    }

    method Load()
      modifies this
      ensures State() == if disk.file.Missing? then old(State())
                         else Handle(disk.file.content, Some(disk.file.modTime))
    {
      if disk.file.Missing? {
        return;
      }
      entries := disk.file.content;
      loadedModTime := Some(disk.file.modTime);
    }

    method Refresh()
      modifies this
      ensures State() == Refreshed(old(State()), disk.file)
    {
      if disk.file.Missing? {
        return;
      }
      if loadedModTime == Some(disk.file.modTime) {
        return;
      }
      Load();
    }

    method Save(io: Option<int>) returns (ok: bool)
      modifies this`loadedModTime, disk
      ensures ok == io.Some?
      ensures disk.file == if ok then Present(entries, io.value) else old(disk.file)
      ensures loadedModTime == if ok then io else old(loadedModTime)
    {
      ok := disk.Write(entries, io);
      if ok {
        loadedModTime := io;
      }
    }

    method Prune(now: int)
      modifies this`entries
      ensures entries == Live(old(entries), now)
    {
      var unvisited := entries.Keys;
      while unvisited != {}
        invariant unvisited <= old(entries).Keys
        invariant entries == map id | id in old(entries)
                                      && (id in unvisited || !IsExpired(old(entries)[id], now))
                                      :: old(entries)[id]
        decreases unvisited
      {
        var id :| id in unvisited;
        if IsExpired(entries[id], now) {
          entries := entries - {id};
        }
        unvisited := unvisited - {id};
      }
    }

    method CreateCode(op: Op, io: Option<int>) returns (answer: Answer)
      requires op.Create?
      modifies this, disk
      ensures Performed(old(State()), old(disk.file), op, io, answer)
      ensures answer.Issued? <==> op.serverKey != "" && op.serverKey != "discord" && io.Some?
      ensures answer.Issued? ==>
                && answer.code == op.code && op.id in entries
                && var e := entries[op.id];
                   && e.code == op.code && e.serverKey == op.serverKey && e.attempts == 0
                   && e.shortName == (if op.shortName == "" then op.serverKey else op.shortName)
                   && e.expiresAt
                      == (op.now + if op.ttl <= 0 then 900_000_000_000 else op.ttl) / 1_000_000_000
                   && e.createdAt == op.now / 1_000_000_000
    {
      if op.serverKey == "" {
        return EmptyKey;
      }
      if op.serverKey == "discord" {
        return Reserved;
      }
      var shortName := if op.shortName == "" then op.serverKey else op.shortName;
      var ttl := if op.ttl <= 0 then DEFAULT_TTL else op.ttl;
      Refresh();
      Prune(op.prune);
      ghost var before := entries;
      var entry := Entry(op.code, op.serverKey, shortName, Unix(op.now + ttl), Unix(op.now), 0);
      entries := entries[op.id := entry];
      var ok := Save(io);
      if !ok {
        entries := entries - {op.id};
        assert entries == before - {op.id};
        return SaveFailed;
      }
      return Issued(op.code);
    }

    /** Finds the entry whose code was presented, trying them in any order. */
    method Find(code: string) returns (pick: Option<string>)
      ensures IsPick(entries, code, pick)
    {
      var left := entries.Keys;
      while left != {}
        invariant left <= entries.Keys
        invariant forall id :: id in entries && id !in left ==> entries[id].code != code
        decreases left
      {
        var id :| id in left;
        if entries[id].code == code {
          return Some(id);
        }
        left := left - {id};
      }
      return None;
    }

    /** Charges an attempt against every outstanding code. */
    method ChargeAll()
      modifies this`entries
      ensures entries == Charged(old(entries))
    {
      ghost var was := entries;
      var left := entries.Keys;
      while left != {}
        invariant left <= was.Keys && entries.Keys == was.Keys
        invariant forall id :: id in was ==>
                    entries[id] == if id in left then was[id]
                                   else was[id].(attempts := was[id].attempts + 1)
        decreases left
      {
        var id :| id in left;
        entries := entries[id := entries[id].(attempts := entries[id].attempts + 1)];
        left := left - {id};
      }
    }

    method RedeemCode(upper: EnrollCode.Upper, typed: string, prune: int, check: int, again: int, io: Option<int>)
      returns (answer: Answer, pick: Option<string>)
      modifies this, disk
      ensures var code := EnrollCode.Normalized(upper, typed);
              && (|code| == EnrollCode.LENGTH ==>
                    IsPick(Live(Refreshed(old(State()), old(disk.file)).entries, prune), code, pick))
              && Performed(old(State()), old(disk.file), Redeem(code, pick, prune, check, again), io, answer)
    {
      var code := EnrollCode.NormalizeEnrollCode(upper, typed);
      pick := None;
      if |code| != EnrollCode.LENGTH {
        return Malformed, None;
      }
      Refresh();
      Prune(prune);
      pick := Find(code);
      if pick.Some? {
        var id := pick.value;
        var entry := entries[id];
        entries := entries - {id};
        var ok := Save(io);
        if IsExpired(entry, check) {
          return Lapsed(id), pick;
        }
        if !ok {
          return SaveFailed, pick;
        }
        return Redeemed(id, entry), pick;
      }
      ChargeAll();
      Prune(again);
      var ok := Save(io);
      return NotRecognized, pick;
    }

    method ListPending(prune: int) returns (codes: Codes)
      modifies this
      ensures Performed(old(State()), disk.file, Pending(prune), None, Listed(codes))
    {
      Refresh();
      Prune(prune);
      codes := entries;
    }

    method RevokeCode(id: string, io: Option<int>) returns (answer: Answer)
      modifies this, disk
      ensures Performed(old(State()), old(disk.file), Revoke(id), io, answer)
    {
      Refresh();
      if id !in entries {
        return NotPending;
      }
      entries := entries - {id};
      var ok := Save(io);
      return if ok then Revoked else SaveFailed;
    }
  }
}
