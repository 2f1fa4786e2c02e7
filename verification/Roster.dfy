/** The hub's record of which agents may connect (hub/roster.go). A token's hash is ideal: it
    verifies exactly the token it was made from, so an entry holds the token itself. Server keys
    are as sanitize.ServerKey leaves them. */
module Roster {
  import opened SharedFile
  import opened Wrappers

  datatype Entry = Entry(
    shortName: string, token: string, isDisabled: bool, createdAt: int, lastSeenAt: int)

  type Agents = map<string, Entry>

  datatype Op =
    | Add(key: string, shortName: string, token: string, now: int)
    | Rotate(key: string, token: string)
    | Remove(key: string)
    | SetEnabled(key: string, isEnabled: bool)
    | Rename(key: string, shortName: string)
    | MarkSeen(key: string, now: int)

  datatype Why = EmptyKey | Reserved | Exists | NotFound | SaveFailed | Silent

  datatype Answer = Done(token: string) | Failed(why: Why)

  // ----- one shared map -----

  function Refusal(m: Agents, op: Op): Option<Why> {
    match op
    case Add(key, _, _, _) =>
      if key == "" then Some(EmptyKey)
      else if key == "discord" then Some(Reserved)
      else if key in m then Some(Exists)
      else None
    case MarkSeen(key, _) => if key in m then None else Some(Silent)
    case _ => if op.key in m then None else Some(NotFound)
  }

  function Effect(m: Agents, op: Op): Agents {
    if Refusal(m, op).Some? then m
    else
      match op
      case Add(key, shortName, token, now) =>
        m[key := Entry(if shortName == "" then key else shortName, token, false, now, 0)]
      case Rotate(key, token) => m[key := m[key].(token := token)]
      case Remove(key) => m - {key}
      case SetEnabled(key, isEnabled) => m[key := m[key].(isDisabled := !isEnabled)]
      case Rename(key, shortName) => m[key := m[key].(shortName := shortName)]
      case MarkSeen(key, now) => m[key := m[key].(lastSeenAt := now)]
  }

  function Reply(m: Agents, op: Op): Answer {
    match Refusal(m, op)
    case Some(why) => Failed(why)
    case None => Done(if op.Add? || op.Rotate? then op.token else "")
  }

  // ----- one handle on the file -----

  datatype Outcome = Outcome(handle: Handle<Entry>, file: File<Entry>, answer: Answer)

  /** Operations that put memory back when the file could not be written. */
  predicate RollsBack(op: Op) {
    op.Add? || op.Rotate? || op.Rename?
  }

  /** Refused before the file is looked at. */
  predicate IsMalformed(op: Op) {
    op.Add? && (op.key == "" || op.key == "discord")
  }

  /** What an operation does through one handle. `io` is the modification time its write gets,
      or None when the write fails. */
  function Perform(h: Handle<Entry>, f: File<Entry>, op: Op, io: Option<int>): Outcome {
    var r := if IsMalformed(op) then h else Refreshed(h, f);
    var m := r.entries;
    if Refusal(m, op).Some? then Outcome(r, f, Reply(m, op))
    else if io.Some? then
      Outcome(Handle(Effect(m, op), io), Present(Effect(m, op), io.value), Reply(m, op))
    else
      Outcome(if RollsBack(op) then r else r.(entries := Effect(m, op)), f,
              if op.MarkSeen? then Reply(m, op) else Failed(SaveFailed))
  }

  datatype Login = NoToken | NotRecognized | Disabled(key: string) | Accepted(key: string)

  /** The result a login must have on a map of agents. */
  ghost predicate IsLogin(m: Agents, token: string, r: Login) {
    match r
    case NoToken => token == ""
    case NotRecognized => token != "" && forall k :: k in m ==> m[k].token != token
    case Disabled(key) => token != "" && key in m && m[key].token == token && m[key].isDisabled
    case Accepted(key) => token != "" && key in m && m[key].token == token && !m[key].isDisabled
  }

  class AgentRoster {
    var entries: Agents
    var loadedModTime: Option<int>
    const disk: Disk<Entry>

    ghost function State(): Handle<Entry>
      reads this
    {
      Handle(entries, loadedModTime)
    }

    /** Opens the roster, writing an empty file when there is none. */
    constructor (disk: Disk<Entry>, io: Option<int>)
      modifies disk
      ensures this.disk == disk
      ensures old(disk.file).Present? ==>
                disk.file == old(disk.file)
                && State() == Handle(disk.file.content, Some(disk.file.modTime))
      ensures old(disk.file).Missing? && io.Some? ==>
                disk.file == Present(map[], io.value) && State() == Handle(map[], io)
    {
      this.disk := disk;
      entries := map[];
      loadedModTime := None;
      new;
      Load();
      if loadedModTime.None? {
        var ok := Save(io);
      }
    }

    method Load()
      modifies this
      ensures State() == if disk.file.Missing? then old(State())
                         else Handle(disk.file.content, Some(disk.file.modTime))
    {
      if disk.file.Missing? {
        return;
      }
      entries := disk.file.content;
      loadedModTime := Some(disk.file.modTime);
    }

    method Refresh()
      modifies this
      ensures State() == Refreshed(old(State()), disk.file)
    {
      if disk.file.Missing? {
        return;
      }
      if loadedModTime == Some(disk.file.modTime) {
        return;
      }
      Load();
    }

    method Save(io: Option<int>) returns (ok: bool)
      modifies this`loadedModTime, disk
      ensures ok == io.Some?
      ensures disk.file == if ok then Present(entries, io.value) else old(disk.file)
      ensures loadedModTime == if ok then io else old(loadedModTime)
    {
      ok := disk.Write(entries, io);
      if ok {
        loadedModTime := io;
      }
    }

    ghost predicate Performed(was: Handle<Entry>, file: File<Entry>, op: Op, io: Option<int>, answer: Answer)
      reads this, disk
    {
      Outcome(State(), disk.file, answer) == Perform(was, file, op, io)
    }

    method AddAgent(key: string, shortName: string, token: string, now: int, io: Option<int>)
      returns (answer: Answer)
      modifies this, disk
      ensures Performed(old(State()), old(disk.file), Add(key, shortName, token, now), io, answer)
    {
      if key == "" {
        return Failed(EmptyKey);
      }
      if key == "discord" {
        return Failed(Reserved);
      }
      var name := if shortName == "" then key else shortName;
      Refresh();
      if key in entries {
        return Failed(Exists);
      }
      ghost var before := entries;
      entries := entries[key := Entry(name, token, false, now, 0)];
      var ok := Save(io);
      if !ok {
        entries := entries - {key};
        assert entries == before;
        return Failed(SaveFailed);
      }
      return Done(token);
    }

    method RotateToken(key: string, token: string, io: Option<int>) returns (answer: Answer)
      modifies this, disk
      ensures Performed(old(State()), old(disk.file), Rotate(key, token), io, answer)
    {
      Refresh();
      if key !in entries {
        return Failed(NotFound);
      }
      ghost var before := entries;
      var previous := entries[key].token;
      entries := entries[key := entries[key].(token := token)];
      var ok := Save(io);
      if !ok {
        entries := entries[key := entries[key].(token := previous)];
        assert entries == before;
        return Failed(SaveFailed);
      }
      return Done(token);
    }

    method RemoveAgent(key: string, io: Option<int>) returns (answer: Answer)
      modifies this, disk
      ensures Performed(old(State()), old(disk.file), Remove(key), io, answer)
    {
      Refresh();
      if key !in entries {
        return Failed(NotFound);
      }
      entries := entries - {key};
      var ok := Save(io);
      return if ok then Done("") else Failed(SaveFailed);
    }

    method Enable(key: string, isEnabled: bool, io: Option<int>) returns (answer: Answer)
      modifies this, disk
      ensures Performed(old(State()), old(disk.file), SetEnabled(key, isEnabled), io, answer)
    {
      Refresh();
      if key !in entries {
        return Failed(NotFound);
      }
      entries := entries[key := entries[key].(isDisabled := !isEnabled)];
      var ok := Save(io);
      return if ok then Done("") else Failed(SaveFailed);
    }

    method RenameAgent(key: string, shortName: string, io: Option<int>) returns (answer: Answer)
      modifies this, disk
      ensures Performed(old(State()), old(disk.file), Rename(key, shortName), io, answer)
    {
      Refresh();
      if key !in entries {
        return Failed(NotFound);
      }
      ghost var before := entries;
      var previous := entries[key].shortName;
      entries := entries[key := entries[key].(shortName := shortName)];
      var ok := Save(io);
      if !ok {
        entries := entries[key := entries[key].(shortName := previous)];
        assert entries == before;
        return Failed(SaveFailed);
      }
      return Done("");
    }

    method Seen(key: string, now: int, io: Option<int>)
      modifies this, disk
      ensures exists answer :: Performed(old(State()), old(disk.file), MarkSeen(key, now), io, answer)
    {
      Refresh();
      if key !in entries {
        assert Performed(old(State()), old(disk.file), MarkSeen(key, now), io, Failed(Silent));
        return;
      }
      entries := entries[key := entries[key].(lastSeenAt := now)];
      var ok := Save(io);
      assert Performed(old(State()), old(disk.file), MarkSeen(key, now), io, Done(""));
    }

    /** Resolves a token to the agent it belongs to, trying the claimed key first and the other
        entries in any order. */
    method Authenticate(claimed: string, token: string) returns (r: Login)
      modifies this
      ensures IsLogin(entries, token, r)
      ensures token != "" && claimed in entries && entries[claimed].token == token ==>
                r == if entries[claimed].isDisabled then Disabled(claimed) else Accepted(claimed)
      ensures State() == if token == "" then old(State()) else Refreshed(old(State()), disk.file)
    {
      if token == "" {
        return NoToken;
      }
      Refresh();
      var candidates: seq<string> := [];
      if claimed in entries {
        candidates := [claimed];
      }
      var left := entries.Keys;
      while left != {}
        invariant left <= entries.Keys
        invariant forall k :: k in candidates ==> k in entries
        invariant claimed in entries ==> candidates != [] && candidates[0] == claimed
        invariant forall k :: k in entries && k !in left ==> k in candidates
        decreases left
      {
        var key :| key in left;
        left := left - {key};
        if key != claimed {
          candidates := candidates + [key];
        }
      }
      for i := 0 to |candidates|
        invariant forall j :: 0 <= j < i ==> entries[candidates[j]].token != token
      {
        var key := candidates[i];
        if entries[key].token != token {
          continue;
        }
        if entries[key].isDisabled {
          return Disabled(key);
        }
        return Accepted(key);
      }
      return NotRecognized;
    }
  }
}
