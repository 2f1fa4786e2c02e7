/** What a migration promises an operator (config/migrate.go). */
module MigrateProofs {
  import opened Migrate
  import opened Wrappers

  /** The current name of a file with an old one. */
  function Renewed(l: Loc): Loc
    requires l.base in LEGACY
  {
    Loc(l.dir, LEGACY[l.base])
  }

  /** An entry kept where it was, or a file moved to its current name, which was free. */
  ghost predicate IsKept(fs: Files, t: Files, l: Loc)
    requires l in fs
  {
    || (l in t && t[l] == fs[l])
    || (IsFile(fs, l) && l.base in LEGACY && l !in t
        && Renewed(l) !in fs && Renewed(l) in t && t[Renewed(l)] == fs[l])
  }

  ghost predicate IsCarried(fs: Files, t: Files) {
    && (forall l :: l in fs ==> IsKept(fs, t, l))
    && (forall l :: l in t && l !in fs ==> l.base in PREVIOUS && Loc(l.dir, PREVIOUS[l.base]) !in t)
  }

  lemma MovedIsCarried(fs: Files, l: Loc)
    requires l.base in LEGACY && !IsBlocked(fs, l, Renewed(l))
    ensures IsCarried(fs, MovedOver(fs, l, Renewed(l)))
  {
    hide LEGACY, PREVIOUS;
    NamesAreDistinct();
  }

  lemma SweptIsCarried(fs: Files, home: string)
    requires !SweepFails(fs, home)
    ensures IsCarried(fs, Swept(fs, home, LEGACY.Keys))
  {
    PartlySweptIsCarried(fs, home, LEGACY.Keys);
  }

  lemma PartlySweptIsCarried(fs: Files, home: string, names: set<string>)
    requires names <= LEGACY.Keys && Unblocked(fs, home, names)
    ensures IsCarried(fs, Swept(fs, home, names))
  {
    hide LEGACY, PREVIOUS;
    NamesAreDistinct();
    var t := Swept(fs, home, names);
    forall l | l in fs ensures IsKept(fs, t, l) {
      if l.dir == home && l.base in names && Sweeps(fs, home, l.base) {
        assert !IsBlocked(fs, l, Renewed(l));
        assert Origin(fs, home, names, Renewed(l)) == Some(l);
      }
    }
  }

  lemma CarriedTwice(fs: Files, t: Files, u: Files)
    requires IsCarried(fs, t) && IsCarried(t, u)
    ensures IsCarried(fs, u)
  {
    hide LEGACY, PREVIOUS;
    NamesAreDistinct();
    forall l | l in fs ensures IsKept(fs, u, l) {
      assert IsKept(fs, t, l);
      if l in t {
        assert IsKept(t, u, l);
      } else {
        assert IsKept(t, u, Renewed(l));
      }
    }
  }

  lemma {:induction false} FieldsAreCarried(where: Resolver, fs: Files, fields: seq<Field>)
    requires FieldsMoved(where, fs, fields).Some?
    ensures IsCarried(fs, FieldsMoved(where, fs, fields).value)
  {
    hide LEGACY, PREVIOUS;
    if fields != [] {
      var last := |fields| - 1;
      FieldsAreCarried(where, fs, fields[..last]);
      var t := FieldsMoved(where, fs, fields[..last]).value;
      if IsLegacy(fields[last]) {
        MovedIsCarried(t, Place(where, fields[last]));
        CarriedTwice(fs, t, FieldsMoved(where, fs, fields).value);
      }
    }
  }

  // ----- which file is the configuration -----

  /** The file that is read as the configuration, before anything moves. */
  function ConfigSource(fs: Files, path: Loc): Loc {
    if IsFile(fs, path) then path else Loc(path.dir, LEGACY_CONFIG)
  }

  /** Nothing to migrate: neither a current nor an old configuration. */
  predicate IsFirstRun(fs: Files, path: Loc) {
    !IsFile(fs, ConfigSource(fs, path))
  }

  lemma StartOfMigration(where: Resolver, fs: Files, path: Loc)
    requires Migration(where, fs, path).Done? && !IsFirstRun(fs, path)
    ensures var start := ConfigFound(fs, path).files;
            && IsFile(start, path) && start[path].Settings? && start[path] == fs[ConfigSource(fs, path)]
            && FieldsMoved(where, start, start[path].config.fields).Some?
            && !SweepFails(FieldsMoved(where, start, start[path].config.fields).value, path.dir)
  {
    hide LEGACY, PREVIOUS, FieldsMoved;
  }

  // ----- the guarantees -----

  /** No file but the configuration is lost, changed or overwritten: it stays, or moves to its
      current name, which nothing had. */
  lemma {:induction false} EveryFileIsKept(where: Resolver, fs: Files, path: Loc, l: Loc)
    requires Migration(where, fs, path).Done?
    requires l in fs && l != path && l != ConfigSource(fs, path)
    ensures IsKept(fs, Migration(where, fs, path).files, l)
  {
    hide LEGACY, PREVIOUS, FieldsMoved, Swept, NewFields, SweepReports, SweepFails;
    if !IsFirstRun(fs, path) {
      NamesAreDistinct();
      StartOfMigration(where, fs, path);
      var start := ConfigFound(fs, path).files;
      var t := FieldsMoved(where, start, start[path].config.fields).value;
      FieldsAreCarried(where, start, start[path].config.fields);
      SweptIsCarried(t, path.dir);
      var u := Swept(t, path.dir, LEGACY.Keys);
      CarriedTwice(start, t, u);
      assert IsKept(start, u, l);
    }
  }

  /** A migration that fails half way has lost, changed and overwritten nothing either. */
  lemma FailureLosesNothing(where: Resolver, fs: Files, path: Loc, t: Files, l: Loc)
    requires IsPartial(where, fs, path, t)
    requires l in fs && l != path && l != ConfigSource(fs, path)
    ensures IsKept(fs, t, l)
  {
    hide LEGACY, PREVIOUS, FieldsMoved, Swept;
    var found := ConfigFound(fs, path);
    if found.Done? && found.files[path].Settings? {
      NamesAreDistinct();
      var start := found.files;
      var fields := start[path].config.fields;
      PartIsCarried(where, start, fields, path.dir, t);
      assert IsKept(start, t, l);
    }
  }

  lemma PartIsCarried(where: Resolver, start: Files, fields: seq<Field>, home: string, t: Files)
    requires match FieldsMoved(where, start, fields)
             case None => IsPartlyMoved(where, start, fields, t)
             case Some(moved) => IsPartlySwept(moved, home, t)
    ensures IsCarried(start, t)
  {
    hide LEGACY, PREVIOUS, FieldsMoved, Swept, IsCarried;
    match FieldsMoved(where, start, fields)
    case None =>
      var i :| 0 <= i <= |fields| && FieldsMoved(where, start, fields[..i]) == Some(t);
      FieldsAreCarried(where, start, fields[..i]);
    case Some(moved) =>
      var names :| names <= LEGACY.Keys && Unblocked(moved, home, names) && t == Swept(moved, home, names);
      FieldsAreCarried(where, start, fields);
      PartlySweptIsCarried(moved, home, names);
      CarriedTwice(start, moved, t);
  }

  /** Only settings with an exact old name change, and only in their last part. */
  lemma {:induction false} NewFieldAt(fields: seq<Field>, i: nat)
    requires i < |fields|
    ensures |NewFields(fields)| == |fields| && NewFields(fields)[i] == NewField(fields[i])
    ensures !IsLegacy(fields[i]) ==> NewFields(fields)[i] == fields[i]
  {
    hide LEGACY;
    var last := |fields| - 1;
    if last > 0 {
      NewFieldAt(fields[..last], if i < last then i else 0);
    }
  }

  /** The configuration itself lies under an old data name whose current name is free, and holds
      nothing that would have it saved again. */
  predicate IsSweptAway(fs: Files, path: Loc)
    requires !IsFirstRun(fs, path)
  {
    && path.base in LEGACY && !IsFile(fs, Renewed(path))
    && fs[ConfigSource(fs, path)].Settings?
    && var fields := fs[ConfigSource(fs, path)].config.fields; NewFields(fields) == fields
  }

  /** Afterwards the configuration is at its path, and is the old one with the new names in it and
      all else as the operator left it, unless it was swept away, and then it has moved. */
  lemma {:induction false} ConfigIsUpdatedExactly(where: Resolver, fs: Files, path: Loc)
    requires Migration(where, fs, path).Done? && !IsFirstRun(fs, path)
    ensures var cfg := fs[ConfigSource(fs, path)].config;
            var t := Migration(where, fs, path).files;
            && (path in t <==> !IsSweptAway(fs, path))
            && (path in t ==> t[path] == Settings(cfg.(fields := NewFields(cfg.fields))))
            && (path !in t ==> Renewed(path) in t && t[Renewed(path)] == Settings(cfg))
  {
    hide LEGACY, PREVIOUS, FieldsMoved, Swept, NewFields, SweepReports, SweepFails, Moves;
    NamesAreDistinct();
    StartOfMigration(where, fs, path);
    var start := ConfigFound(fs, path).files;
    var cfg := start[path].config;
    var t := FieldsMoved(where, start, cfg.fields).value;
    var u := Swept(t, path.dir, LEGACY.Keys);
    FieldsAreCarried(where, start, cfg.fields);
    SweptIsCarried(t, path.dir);
    CarriedTwice(start, t, u);
    assert IsKept(start, u, path);
    StartLeavesRenewed(fs, path);
    if NewFields(cfg.fields) == cfg.fields {
      CurrentFieldsMoveNothing(where, start, cfg.fields);
      if path.base in LEGACY {
        SweptFrom(start, path);
      }
    }
  }

  /** The search for the configuration leaves the current name of its path alone. */
  lemma StartLeavesRenewed(fs: Files, path: Loc)
    requires !IsFirstRun(fs, path) && ConfigFound(fs, path).Done?
    ensures path.base in LEGACY ==> (IsFile(ConfigFound(fs, path).files, Renewed(path)) <==> IsFile(fs, Renewed(path)))
  {
    hide LEGACY, PREVIOUS;
    NamesAreDistinct();
  }

  /** A file in the directory of a sweep leaves exactly when it has an old name whose current name
      is free. */
  lemma SweptFrom(fs: Files, l: Loc)
    requires IsFile(fs, l) && l.base in LEGACY
    ensures l in Swept(fs, l.dir, LEGACY.Keys) <==> IsFile(fs, Renewed(l))
  {
    hide LEGACY, PREVIOUS;
    NamesAreDistinct();
  }

  lemma {:induction false} CurrentFieldsMoveNothing(where: Resolver, fs: Files, fields: seq<Field>)
    requires NewFields(fields) == fields
    ensures FieldsMoved(where, fs, fields) == Some(fs)
  {
    NewFieldsAreCurrent(where, fs, fields);
  }

  /** An old file has a current one beside it wherever the fields pointed, so none is left to move. */
  ghost predicate IsSettledAt(fs: Files, l: Loc) {
    l.base in LEGACY && !Moves(fs, l, Renewed(l))
  }

  lemma MovingSettles(fs: Files, l: Loc, k: Loc)
    requires l.base in LEGACY && k.base in LEGACY
    ensures IsSettledAt(MovedOver(fs, l, Renewed(l)), l)
    ensures IsSettledAt(fs, k) ==> IsSettledAt(MovedOver(fs, l, Renewed(l)), k)
  {
    hide LEGACY, PREVIOUS;
    NamesAreDistinct();
  }

  lemma {:induction false} FieldsAreSettled(where: Resolver, fs: Files, fields: seq<Field>, i: nat)
    requires FieldsMoved(where, fs, fields).Some? && i < |fields| && IsLegacy(fields[i])
    ensures IsSettledAt(FieldsMoved(where, fs, fields).value, Place(where, fields[i]))
  {
    hide LEGACY, PREVIOUS, IsSettledAt, MovedOver;
    var last := |fields| - 1;
    var t := FieldsMoved(where, fs, fields[..last]).value;
    if IsLegacy(fields[last]) {
      MovingSettles(t, Place(where, fields[last]), Place(where, fields[i]));
    }
    if i < last {
      FieldsAreSettled(where, fs, fields[..last], i);
    }
  }

  lemma SweepSettles(fs: Files, home: string, k: Loc)
    requires k.base in LEGACY
    ensures k.dir == home ==> IsSettledAt(Swept(fs, home, LEGACY.Keys), k)
    ensures IsSettledAt(fs, k) ==> IsSettledAt(Swept(fs, home, LEGACY.Keys), k)
  {
    hide LEGACY, PREVIOUS;
    NamesAreDistinct();
  }

  /** Every setting that named a file names one afterwards, and the same one unless a file with
      the current name was there already. */
  lemma {:induction false} FieldsStillResolve(where: Resolver, fs: Files, path: Loc, i: nat)
    requires Migration(where, fs, path).Done? && !IsFirstRun(fs, path)
    requires var fields := fs[ConfigSource(fs, path)].config.fields;
             && i < |fields| && fields[i].Ref? && IsFile(fs, Place(where, fields[i]))
             && Place(where, fields[i]) != path && Place(where, fields[i]) != ConfigSource(fs, path)
    ensures var f := fs[ConfigSource(fs, path)].config.fields[i];
            var t := Migration(where, fs, path).files;
            && IsFile(t, Place(where, NewField(f)))
            && (Place(where, NewField(f)) !in fs && Place(where, NewField(f)) != path ==>
                  t[Place(where, NewField(f))] == fs[Place(where, f)])
  {
    hide LEGACY, PREVIOUS, FieldsMoved, Swept, NewFields, SweepReports, SweepFails;
    StartOfMigration(where, fs, path);
    var start := ConfigFound(fs, path).files;
    var cfg := start[path].config;
    var f := cfg.fields[i];
    var t := FieldsMoved(where, start, cfg.fields).value;
    EveryFileIsKept(where, fs, path, Place(where, f));
    if IsLegacy(f) {
      NamesAreDistinct();
      FieldsAreSettled(where, start, cfg.fields, i);
      SweepSettles(t, path.dir, Place(where, f));
      FieldsAreCarried(where, start, cfg.fields);
      SweptIsCarried(t, path.dir);
      var u := Swept(t, path.dir, LEGACY.Keys);
      CarriedTwice(start, t, u);
      var n := Place(where, NewField(f));
      assert n == Renewed(Place(where, f)) && Loc(n.dir, PREVIOUS[n.base]) == Place(where, f);
      assert n in u && n !in start ==> Place(where, f) !in u;
    }
  }

  // ----- a second run -----

  lemma {:induction false} NewFieldsAreCurrent(where: Resolver, fs: Files, fields: seq<Field>)
    ensures FieldsMoved(where, fs, NewFields(fields)) == Some(fs)
    ensures NewFields(NewFields(fields)) == NewFields(fields)
  {
    if fields != [] {
      hide LEGACY, PREVIOUS;
      NamesAreDistinct();
      var last := |fields| - 1;
      NewFieldsAreCurrent(where, fs, fields[..last]);
      var renewed := NewFields(fields);
      assert renewed[..|renewed| - 1] == NewFields(fields[..last]);
    }
  }

  /** Files under old names whose current names are taken make a sweep do nothing. */
  lemma NothingToSweep(fs: Files, home: string)
    requires forall k :: k in LEGACY ==> IsSettledAt(fs, Loc(home, k))
    ensures !SweepFails(fs, home) && Swept(fs, home, LEGACY.Keys) == fs && SweepReports(fs, home) == {}
  {
    hide LEGACY, PREVIOUS;
    assert forall k :: k in LEGACY ==> IsSettledAt(fs, Loc(home, k)) && !Sweeps(fs, home, k);
  }

  /** Saving the configuration brings back nothing to move. */
  lemma SavingSettlesNothing(fs: Files, path: Loc, cfg: Config, k: Loc)
    requires IsSettledAt(fs, k) && (k == path ==> IsFile(fs, Renewed(k)))
    ensures IsSettledAt(fs[path := Settings(cfg)], k)
  {
    hide LEGACY, PREVIOUS;
    NamesAreDistinct();
  }

  /** The second run finds no configuration of its own: the first swept it away and left an old
      one lying beside it. */
  predicate HasAnotherToFind(fs: Files, path: Loc) {
    && !IsFirstRun(fs, path) && IsSweptAway(fs, path)
    && IsFile(fs, path) && IsFile(fs, Loc(path.dir, LEGACY_CONFIG))
  }

  /** A second run succeeds, changes nothing and has nothing to report, if and only if it has no
      other configuration to find. */
  lemma {:induction false} SecondRunDoesNothing(where: Resolver, fs: Files, path: Loc)
    requires Migration(where, fs, path).Done?
    ensures var t := Migration(where, fs, path).files;
            Migration(where, t, path) == Done(t, {}) <==> !HasAnotherToFind(fs, path)
  {
    hide LEGACY, PREVIOUS, FieldsMoved, Swept, NewFields, SweepReports, SweepFails, IsSettledAt, IsSweptAway;
    if !IsFirstRun(fs, path) {
      ConfigIsUpdatedExactly(where, fs, path);
      if path in Migration(where, fs, path).files {
        RunOnUpdatedDoesNothing(where, fs, path);
      } else {
        SweptAwayKeepsOther(where, fs, path);
      }
    }
  }

  lemma RunOnUpdatedDoesNothing(where: Resolver, fs: Files, path: Loc)
    requires Migration(where, fs, path).Done? && !IsFirstRun(fs, path)
    requires path in Migration(where, fs, path).files
    ensures var t := Migration(where, fs, path).files; Migration(where, t, path) == Done(t, {})
  {
    hide LEGACY, PREVIOUS, FieldsMoved, Swept, NewFields, SweepReports, SweepFails, IsSettledAt, IsSweptAway;
    var done := Migration(where, fs, path).files;
    ConfigIsUpdatedExactly(where, fs, path);
    var cfg := fs[ConfigSource(fs, path)].config;
    NewFieldsAreCurrent(where, done, cfg.fields);
    forall k | k in LEGACY ensures IsSettledAt(done, Loc(path.dir, k)) {
      DoneIsSettled(where, fs, path, k);
    }
    NothingToSweep(done, path.dir);
  }

  /** After a migration no file under an old name in the directory is left to move. */
  lemma DoneIsSettled(where: Resolver, fs: Files, path: Loc, k: string)
    requires Migration(where, fs, path).Done? && !IsFirstRun(fs, path) && k in LEGACY
    ensures IsSettledAt(Migration(where, fs, path).files, Loc(path.dir, k))
  {
    hide LEGACY, PREVIOUS, FieldsMoved, Swept, NewFields, SweepReports, SweepFails, IsSettledAt;
    StartOfMigration(where, fs, path);
    var start := ConfigFound(fs, path).files;
    var cfg := start[path].config;
    var t := FieldsMoved(where, start, cfg.fields).value;
    var u := Swept(t, path.dir, LEGACY.Keys);
    SweepSettles(t, path.dir, Loc(path.dir, k));
    if NewFields(cfg.fields) != cfg.fields {
      SweptConfigIsRenewed(where, start, path);
      SavingSettlesNothing(u, path, cfg.(fields := NewFields(cfg.fields)), Loc(path.dir, k));
    }
  }

  /** Under its own name or the current one, the configuration is there before it is saved. */
  lemma SweptConfigIsRenewed(where: Resolver, start: Files, path: Loc)
    requires IsFile(start, path) && start[path].Settings?
    requires var t := FieldsMoved(where, start, start[path].config.fields);
             t.Some? && !SweepFails(t.value, path.dir)
    ensures var t := FieldsMoved(where, start, start[path].config.fields).value;
            path.base in LEGACY ==> IsFile(Swept(t, path.dir, LEGACY.Keys), Renewed(path))
  {
    hide LEGACY, PREVIOUS, FieldsMoved, Swept, SweepFails;
    var fields := start[path].config.fields;
    var t := FieldsMoved(where, start, fields).value;
    FieldsAreCarried(where, start, fields);
    SweptIsCarried(t, path.dir);
    CarriedTwice(start, t, Swept(t, path.dir, LEGACY.Keys));
    assert IsKept(start, Swept(t, path.dir, LEGACY.Keys), path);
    if path.base in LEGACY {
      SweepSettles(t, path.dir, path);
    }
  }

  /** When the configuration was swept away, another one under the old name is found exactly when
      it lay beside it. */
  lemma SweptAwayKeepsOther(where: Resolver, fs: Files, path: Loc)
    requires Migration(where, fs, path).Done? && !IsFirstRun(fs, path)
    requires path !in Migration(where, fs, path).files
    ensures var t, other := Migration(where, fs, path).files, Loc(path.dir, LEGACY_CONFIG);
            && (IsFile(t, other) <==> IsFile(fs, path) && IsFile(fs, other))
            && (IsFile(t, other) ==> t[other] == fs[other])
  {
    hide LEGACY, PREVIOUS, FieldsMoved, Swept, NewFields, SweepReports, SweepFails;
    NamesAreDistinct();
    StartOfMigration(where, fs, path);
    var start := ConfigFound(fs, path).files;
    var cfg := start[path].config;
    var t := FieldsMoved(where, start, cfg.fields).value;
    var u := Swept(t, path.dir, LEGACY.Keys);
    var other := Loc(path.dir, LEGACY_CONFIG);
    FieldsAreCarried(where, start, cfg.fields);
    SweptIsCarried(t, path.dir);
    CarriedTwice(start, t, u);
    if other in start {
      assert IsKept(start, u, other);
    }
  }

  /** That second run, if it can finish, puts the other configuration in the place of the one that
      the first swept away, which stays under the current name. */
  lemma SecondRunTakesTheOther(where: Resolver, fs: Files, path: Loc)
    requires Migration(where, fs, path).Done? && HasAnotherToFind(fs, path)
    ensures var t, other := Migration(where, fs, path).files, Loc(path.dir, LEGACY_CONFIG);
            Migration(where, t, path).Done? ==>
              var u := Migration(where, t, path).files;
              && path !in t && other in t && t[other] == fs[other] && fs[other].Settings?
              && path in u && u[path] == Settings(fs[other].config.(fields := NewFields(fs[other].config.fields)))
              && Renewed(path) in u && u[Renewed(path)] == fs[path]
  {
    hide LEGACY, PREVIOUS, FieldsMoved, Swept, NewFields, SweepReports, SweepFails;
    var t, other := Migration(where, fs, path).files, Loc(path.dir, LEGACY_CONFIG);
    NamesAreDistinct();
    ConfigIsUpdatedExactly(where, fs, path);
    SweptAwayKeepsOther(where, fs, path);
    if Migration(where, t, path).Done? {
      ConfigIsUpdatedExactly(where, t, path);
      EveryFileIsKept(where, t, path, Renewed(path));
    }
  }

  /** Without a directory in the way and with no file named in the configuration, a migration of
      what it finds succeeds and changes no entry to a directory. */
  lemma NothingInTheWay(where: Resolver, fs: Files, path: Loc)
    requires forall l :: l in fs ==> fs[l].Settings? && fs[l].config.fields == []
    ensures Migration(where, fs, path).Done?
    ensures var t := Migration(where, fs, path).files;
            forall l :: l in t ==> t[l].Settings? && t[l].config.fields == []
  {
    hide LEGACY, PREVIOUS;
    var start := ConfigFound(fs, path).files;
    assert NewFields([]) == [] && FieldsMoved(where, start, []) == Some(start);
  }

  /** A configuration kept under an old data name, with nothing to update in it and a forgotten
      old configuration beside it: the first run moves it away from its path, and the second puts
      the forgotten one in its place. */
  lemma ConfigUnderAnOldNameIsLost(where: Resolver, mine: string, forgotten: string)
    ensures var path, other := Loc("d", "talkeq_users.txt"), Loc("d", LEGACY_CONFIG);
            var fs := map[path := Settings(Config([], mine)), other := Settings(Config([], forgotten))];
            var once := Migration(where, fs, path);
            && HasAnotherToFind(fs, path) && once.Done? && path !in once.files
            && var twice := Migration(where, once.files, path);
               twice.Done? && path in twice.files && twice.files[path] == Settings(Config([], forgotten))
  {
    var path, other := Loc("d", "talkeq_users.txt"), Loc("d", LEGACY_CONFIG);
    var fs := map[path := Settings(Config([], mine)), other := Settings(Config([], forgotten))];
    assert path.base in LEGACY;
    hide LEGACY, PREVIOUS, Migration;
    NamesAreDistinct();
    assert NewFields([]) == [] && HasAnotherToFind(fs, path);
    NothingInTheWay(where, fs, path);
    NothingInTheWay(where, Migration(where, fs, path).files, path);
    SecondRunTakesTheOther(where, fs, path);
  }

  // ----- what is reported -----

  /** What the operator is told: the configuration was found under its old name; a data file of the
      configuration's directory, not yet moved for a setting, gets its current name; an old name
      stood in the configuration. */
  lemma ReportsExactly(where: Resolver, fs: Files, path: Loc, k: string)
    requires Migration(where, fs, path).Done? && !IsFirstRun(fs, path)
    ensures var reports := Migration(where, fs, path).reports;
            var start := ConfigFound(fs, path).files;
            var fields := fs[ConfigSource(fs, path)].config.fields;
            && fs[ConfigSource(fs, path)].Settings?
            && (RenamedConfig in reports <==> !IsFile(fs, path))
            && (UpdatedConfig in reports <==> exists i :: 0 <= i < |fields| && IsLegacy(fields[i]))
            && FieldsMoved(where, start, fields).Some?
            && var t := FieldsMoved(where, start, fields).value;
               (RenamedData(k) in reports <==>
                  k in LEGACY && IsFile(t, Loc(path.dir, k)) && !IsFile(t, Loc(path.dir, LEGACY[k])))
  {
    hide LEGACY, PREVIOUS, FieldsMoved, NewFields, Swept, SweepFails;
    StartOfMigration(where, fs, path);
    ChangedExactly(fs[ConfigSource(fs, path)].config.fields);
  }

  lemma {:induction false} ChangedExactly(fields: seq<Field>)
    ensures NewFields(fields) != fields <==> exists i :: 0 <= i < |fields| && IsLegacy(fields[i])
    ensures |NewFields(fields)| == |fields|
  {
    hide LEGACY, PREVIOUS;
    NamesAreDistinct();
    if fields != [] {
      var n := |fields| - 1;
      ChangedExactly(fields[..n]);
      assert fields == fields[..n] + [fields[n]];
      assert forall i :: 0 <= i < n ==> fields[..n][i] == fields[i];
    }
  }
}
