/** Many handles on one roster file behave as one shared map, and a token logs in exactly as the
    last thing done about it says (hub/roster.go). */
module RosterRuns {
  import opened SharedFile
  import opened Roster
  import opened Wrappers

  // ----- any number of handles refine one map -----

  /** The file, the handles that processes hold on it, and every modification time used. */
  datatype World = World(file: File<Entry>, handles: map<nat, Handle<Entry>>, used: set<int>)

  datatype Step =
    | Open(id: nat, io: Option<int>)
    | Do(id: nat, op: Op, io: Option<int>)

  /** Opening reads the file, or writes an empty one when there is none. */
  function Opened(f: File<Entry>, io: Option<int>): (Handle<Entry>, File<Entry>) {
    if f.Present? then (Handle(f.content, Some(f.modTime)), f)
    else if io.Some? then (Handle(map[], io), Present(map[], io.value))
    else (Handle(map[], None), f)
  }

  function Next(w: World, step: Step): World {
    var used := if step.io.Some? then w.used + {step.io.value} else w.used;
    match step
    case Open(id, io) =>
      var (h, f) := Opened(w.file, io);
      World(f, w.handles[id := h], used)
    case Do(id, op, io) =>
      if id !in w.handles then w
      else
        var o := Perform(w.handles[id], w.file, op, io);
        World(o.file, w.handles[id := o.handle], used)
  }

  ghost function Run(steps: seq<Step>): World {
    if steps == [] then World(Missing, map[], {})
    else Next(Run(steps[..|steps| - 1]), steps[|steps| - 1])
  }

  /** Every write succeeds and gets a modification time never used before. */
  ghost predicate Orderly(steps: seq<Step>) {
    steps != [] ==>
      var rest, step := steps[..|steps| - 1], steps[|steps| - 1];
      Orderly(rest) && step.io.Some? && step.io.value !in Run(rest).used
  }

  /** The same operations on one map, ignoring which handle each went through. */
  ghost function Shared(steps: seq<Step>): Agents {
    if steps == [] then map[]
    else
      var rest, step := steps[..|steps| - 1], steps[|steps| - 1];
      if step.Do? && step.id in Run(rest).handles then Effect(Shared(rest), step.op) else Shared(rest)
  }

  ghost predicate Agrees(w: World, m: Agents) {
    && (w.file.Missing? ==> w.handles == map[] && m == map[])
    && (w.file.Present? ==> w.file.content == m && w.file.modTime in w.used)
    && (forall id :: id in w.handles ==>
          Coherent(w.handles[id], w.file) && w.handles[id].loaded.Some?
          && w.handles[id].loaded.value in w.used)
  }

  lemma StepAgrees(w: World, m: Agents, step: Step)
    requires Agrees(w, m) && step.io.Some? && step.io.value !in w.used
    ensures Agrees(Next(w, step),
                   if step.Do? && step.id in w.handles then Effect(m, step.op) else m)
    ensures step.Do? && step.id in w.handles ==>
              Perform(w.handles[step.id], w.file, step.op, step.io).answer == Reply(m, step.op)
  {
    if step.Do? && step.id in w.handles {
      RefreshSeesTheFile(w.handles[step.id], w.file);
      if IsMalformed(step.op) {
        assert Refusal(m, step.op).Some?;
      }
    }
  }

  lemma {:induction false} RunAgrees(steps: seq<Step>)
    requires Orderly(steps)
    ensures Agrees(Run(steps), Shared(steps))
  {
    hide Next, Effect, Agrees;
    if steps == [] {
      NothingAgrees();
    } else {
      var rest := steps[..|steps| - 1];
      RunAgrees(rest);
      StepAgrees(Run(rest), Shared(rest), steps[|steps| - 1]);
    }
  }

  lemma NothingAgrees()
    ensures Agrees(World(Missing, map[], {}), map[])
  {
  }

  /** In every reachable run, each operation through any handle answers and acts like the same
      operation on one shared map, so no update made through one handle is lost by another. */
  lemma HandlesActAsOneMap(steps: seq<Step>, id: nat, op: Op, mtime: int)
    requires Orderly(steps) && id in Run(steps).handles && mtime !in Run(steps).used
    ensures var o := Perform(Run(steps).handles[id], Run(steps).file, op, Some(mtime));
            && o.answer == Reply(Shared(steps), op)
            && o.file.Present? && o.file.content == Effect(Shared(steps), op)
            && (!IsMalformed(op) ==> o.handle.entries == Effect(Shared(steps), op))
  {
    RunAgrees(steps);
    StepAgrees(Run(steps), Shared(steps), Do(id, op, Some(mtime)));
  }

  // ----- what a failed write breaks, exactly -----

  /** When the file cannot be written, the operation leaves memory agreeing with the file exactly
      when it rolls back or had nothing to change. Otherwise the handle goes on answering from
      what was never saved, since the file's modification time has not changed. */
  lemma FailedWriteStaysCoherentExactly(h: Handle<Entry>, f: File<Entry>, op: Op)
    requires Coherent(h, f)
    ensures var o := Perform(h, f, op, None);
            Coherent(o.handle, o.file) <==>
              op.Add? || op.Rotate? || op.Rename? || Effect(f.content, op) == f.content
    ensures Perform(h, f, op, None).file == f
    ensures Perform(h, f, op, None).answer.Done? ==> op.MarkSeen?
    ensures Refusal(f.content, op).None? && !op.MarkSeen? ==> Perform(h, f, op, None).answer == Failed(SaveFailed)
  {
    RefreshSeesTheFile(h, f);
  }

  /** For instance a removal that could not be saved. */
  lemma UnsavedRemovalDiverges(key: string, e: Entry)
    ensures var f := Present(map[key := e], 1);
            var o := Perform(Handle(f.content, Some(1)), f, Remove(key), None);
            && o.answer == Failed(SaveFailed)
            && Perform(o.handle, o.file, Remove(key), Some(2)).answer == Failed(NotFound)
            && key in o.file.content
  {
  }

  // ----- tokens -----

  /** Whether the operations leave `key` in the roster. */
  ghost predicate IsPresent(ops: seq<Op>, key: string) {
    ops != [] &&
    var rest, op := ops[..|ops| - 1], ops[|ops| - 1];
    if op.key != key || IsMalformed(op) then IsPresent(rest, key)
    else op.Add? || (IsPresent(rest, key) && !op.Remove?)
  }

  /** The last token issued to `key`, if it is in the roster. */
  ghost function LatestToken(ops: seq<Op>, key: string): string {
    if ops == [] then ""
    else
      var rest, op := ops[..|ops| - 1], ops[|ops| - 1];
      if op.key == key && !IsMalformed(op)
         && (if op.Add? then !IsPresent(rest, key) else op.Rotate? && IsPresent(rest, key))
      then op.token
      else LatestToken(rest, key)
  }

  /** Whether `key` was last enabled: an added agent is, until it is disabled. */
  ghost predicate IsEnabled(ops: seq<Op>, key: string) {
    ops != [] &&
    var rest, op := ops[..|ops| - 1], ops[|ops| - 1];
    if op.key == key && op.Add? && !IsMalformed(op) && !IsPresent(rest, key) then true
    else if op.key == key && op.SetEnabled? && IsPresent(rest, key) then op.isEnabled
    else IsEnabled(rest, key)
  }

  /** The operation adds `key` after `ops`. */
  ghost predicate Adds(ops: seq<Op>, op: Op, key: string) {
    op.Add? && op.key == key && key != "" && key != "discord" && !IsPresent(ops, key)
  }

  /** The display name last given to `key`: its own key when it was added without one. */
  ghost function LatestName(ops: seq<Op>, key: string): string {
    if ops == [] then ""
    else
      var rest, op := ops[..|ops| - 1], ops[|ops| - 1];
      if Adds(rest, op, key) then (if op.shortName == "" then key else op.shortName)
      else if op.Rename? && op.key == key && IsPresent(rest, key) then op.shortName
      else LatestName(rest, key)
  }

  /** When `key` was last noted to have connected since it was added, or 0. */
  ghost function LastSeen(ops: seq<Op>, key: string): int {
    if ops == [] then 0
    else
      var rest, op := ops[..|ops| - 1], ops[|ops| - 1];
      if Adds(rest, op, key) then 0
      else if op.MarkSeen? && op.key == key && IsPresent(rest, key) then op.now
      else LastSeen(rest, key)
  }

  /** When `key` was last added. */
  ghost function AddedAt(ops: seq<Op>, key: string): int {
    if ops == [] then 0
    else
      var rest, op := ops[..|ops| - 1], ops[|ops| - 1];
      if Adds(rest, op, key) then op.now else AddedAt(rest, key)
  }

  /** Tokens are fresh: no two operations carry the same one, and none is empty. */
  ghost predicate FreshTokens(ops: seq<Op>) {
    && (forall i :: 0 <= i < |ops| && (ops[i].Add? || ops[i].Rotate?) ==> ops[i].token != "")
    && (forall i, j | 0 <= i < j < |ops| && (ops[i].Add? || ops[i].Rotate?) ::
          (ops[j].Add? || ops[j].Rotate?) ==> ops[i].token != ops[j].token)
  }

  ghost function After(ops: seq<Op>): Agents {
    if ops == [] then map[] else Effect(After(ops[..|ops| - 1]), ops[|ops| - 1])
  }

  lemma {:induction false} MapTellsTheHistory(ops: seq<Op>, key: string)
    ensures key in After(ops) <==> IsPresent(ops, key)
    ensures key in After(ops) ==>
              After(ops)[key].token == LatestToken(ops, key)
              && (After(ops)[key].isDisabled <==> !IsEnabled(ops, key))
              && After(ops)[key].shortName == LatestName(ops, key)
              && After(ops)[key].lastSeenAt == LastSeen(ops, key)
              && After(ops)[key].createdAt == AddedAt(ops, key)
  {
    if ops != [] {
      MapTellsTheHistory(ops[..|ops| - 1], key);
    }
  }

  /** Every answer: an addition yields its token unless the key is empty, reserved or taken, any
      other operation succeeds for the keys that are present. */
  lemma RepliesExactly(ops: seq<Op>, op: Op)
    ensures Reply(After(ops), op)
            == if op.Add? then
                 if op.key == "" then Failed(EmptyKey)
                 else if op.key == "discord" then Failed(Reserved)
                 else if IsPresent(ops, op.key) then Failed(Exists)
                 else Done(op.token)
               else if !IsPresent(ops, op.key) then Failed(if op.MarkSeen? then Silent else NotFound)
               else Done(if op.Rotate? then op.token else "")
  {
    MapTellsTheHistory(ops, op.key);
  }

  /** A token held by an entry was issued by some operation to that very key. */
  lemma {:induction false} TokenWasIssued(ops: seq<Op>, key: string) returns (i: nat)
    requires key in After(ops)
    ensures i < |ops| && (ops[i].Add? || ops[i].Rotate?)
    ensures ops[i].key == key && ops[i].token == After(ops)[key].token
  {
    var rest, op := ops[..|ops| - 1], ops[|ops| - 1];
    if op.key == key && (op.Add? || op.Rotate?) && Refusal(After(rest), op).None? {
      i := |ops| - 1;
    } else {
      i := TokenWasIssued(rest, key);
    }
  }

  /** With fresh tokens a login has one possible result, the same for every claimed key and every
      order of trying the entries: a token is accepted as k exactly when it is the latest issued
      to k, k is still in the roster and k is enabled. */
  lemma TokenAcceptedExactly(ops: seq<Op>, token: string, r: Login, key: string)
    requires FreshTokens(ops) && token != "" && IsLogin(After(ops), token, r)
    ensures r == Accepted(key) <==>
            IsPresent(ops, key) && IsEnabled(ops, key) && token == LatestToken(ops, key)
    ensures r == Disabled(key) <==>
            IsPresent(ops, key) && !IsEnabled(ops, key) && token == LatestToken(ops, key)
  {
    MapTellsTheHistory(ops, key);
    if !r.NotRecognized? && key in After(ops) && After(ops)[key].token == token {
      var i := TokenWasIssued(ops, key);
      var j := TokenWasIssued(ops, r.key);
      assert i == j;
    }
  }

  /** The roster operations of a run, in order. */
  ghost function Operations(steps: seq<Step>): seq<Op> {
    if steps == [] then []
    else
      var rest, step := steps[..|steps| - 1], steps[|steps| - 1];
      Operations(rest) + if step.Do? && step.id in Run(rest).handles then [step.op] else []
  }

  lemma {:induction false} SharedIsAfter(steps: seq<Step>)
    ensures Shared(steps) == After(Operations(steps))
  {
    hide Next, Run, Effect;
    if steps != [] {
      var rest := steps[..|steps| - 1];
      SharedIsAfter(rest);
      var ops := Operations(steps);
      if ops != Operations(rest) {
        assert ops[..|ops| - 1] == Operations(rest);
      }
    }
  }

  /** The same through any handle of a run: what Authenticate finds there is decided by the
      history of all handles together. */
  lemma LoginThroughAnyHandle(steps: seq<Step>, id: nat, token: string, r: Login, key: string)
    requires Orderly(steps) && id in Run(steps).handles && FreshTokens(Operations(steps))
    requires token != "" && IsLogin(Refreshed(Run(steps).handles[id], Run(steps).file).entries, token, r)
    ensures var ops := Operations(steps);
            r == Accepted(key) <==>
            IsPresent(ops, key) && IsEnabled(ops, key) && token == LatestToken(ops, key)
  {
    RunAgrees(steps);
    RefreshSeesTheFile(Run(steps).handles[id], Run(steps).file);
    SharedIsAfter(steps);
    TokenAcceptedExactly(Operations(steps), token, r, key);
  }
}
