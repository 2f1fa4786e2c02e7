/** Moving an installation from the old file names to the current ones at startup
    (config/migrate.go). */
module Migrate {
  import opened Wrappers

  /** A file's place: a directory and a name in it. */
  datatype Loc = Loc(dir: string, base: string)

  /** A setting that names a file: nothing, or a name below a parent as the operator wrote it. */
  datatype Field = Unset | Ref(parent: string, base: string)

  /** The settings that name files, in the order they are migrated, and everything else. */
  datatype Config = Config(fields: seq<Field>, rest: string)

  datatype Entry = Folder | Data(content: string) | Settings(config: Config)

  type Files = map<Loc, Entry>

  /** Which directory a parent denotes. The empty parent is the configuration's own directory. */
  type Resolver = string -> string

  datatype Report = RenamedConfig | RenamedData(legacy: string) | UpdatedConfig

  const LEGACY_CONFIG: string := "talkeq.conf"

  const LEGACY: map<string, string> := map[
    "talkeq_agents.json" := "modern-eq-chat-agents.json",
    "talkeq_enroll.json" := "modern-eq-chat-enroll.json",
    "talkeq_users.txt" := "modern-eq-chat-users.txt",
    "talkeq_guilds.txt" := "modern-eq-chat-guilds.txt",
    "talkeq_register.toml" := "modern-eq-chat-register.toml",
    "talkeq_hub_cert.pem" := "modern-eq-chat-cert.pem",
    "talkeq_hub_key.pem" := "modern-eq-chat-key.pem"]

  /** The same table read backwards. */
  const PREVIOUS: map<string, string> := map[
    "modern-eq-chat-agents.json" := "talkeq_agents.json",
    "modern-eq-chat-enroll.json" := "talkeq_enroll.json",
    "modern-eq-chat-users.txt" := "talkeq_users.txt",
    "modern-eq-chat-guilds.txt" := "talkeq_guilds.txt",
    "modern-eq-chat-register.toml" := "talkeq_register.toml",
    "modern-eq-chat-cert.pem" := "talkeq_hub_cert.pem",
    "modern-eq-chat-key.pem" := "talkeq_hub_key.pem"]

  predicate IsFile(fs: Files, l: Loc) {
    l in fs && fs[l] != Folder
  }

  predicate Moves(fs: Files, from: Loc, to: Loc) {
    IsFile(fs, from) && !IsFile(fs, to)
  }

  /** A file cannot be renamed onto a directory. */
  predicate IsBlocked(fs: Files, from: Loc, to: Loc) {
    Moves(fs, from, to) && to in fs
  }

  function Renamed(fs: Files, from: Loc, to: Loc): Files
    requires from in fs
  {
    map l | l in fs.Keys + {to} && l != from :: if l == to then fs[from] else fs[l]
  }

  function MovedOver(fs: Files, from: Loc, to: Loc): Files {
    if Moves(fs, from, to) then Renamed(fs, from, to) else fs
  }

  // ----- the specification -----

  predicate IsLegacy(f: Field) {
    f.Ref? && f.base in LEGACY
  }

  function Place(where: Resolver, f: Field): Loc
    requires f.Ref?
  {
    Loc(where(f.parent), f.base)
  }

  /** The directory the operator wrote stays; only an exact old name is replaced. */
  function NewField(f: Field): Field {
    if IsLegacy(f) then Ref(f.parent, LEGACY[f.base]) else f
  }

  function NewFields(fields: seq<Field>): seq<Field> {
    if fields == [] then [] else NewFields(fields[..|fields| - 1]) + [NewField(fields[|fields| - 1])]
  }

  function FieldMoved(where: Resolver, fs: Files, f: Field): Option<Files> {
    if !IsLegacy(f) then Some(fs)
    else if IsBlocked(fs, Place(where, f), Place(where, NewField(f))) then None
    else Some(MovedOver(fs, Place(where, f), Place(where, NewField(f))))
  }

  function FieldsMoved(where: Resolver, fs: Files, fields: seq<Field>): Option<Files> {
    if fields == [] then Some(fs)
    else
      match FieldsMoved(where, fs, fields[..|fields| - 1])
      case None => None
      case Some(t) => FieldMoved(where, t, fields[|fields| - 1])
  }

  predicate Sweeps(fs: Files, home: string, legacy: string)
    requires legacy in LEGACY
  {
    Moves(fs, Loc(home, legacy), Loc(home, LEGACY[legacy]))
  }

  predicate SweepFails(fs: Files, home: string) {
    exists legacy :: legacy in LEGACY && IsBlocked(fs, Loc(home, legacy), Loc(home, LEGACY[legacy]))
  }

  /** Where the entry at `l` was before the old names of `names` moved, each decided on the files
      as they were. No order is involved. */
  function Origin(fs: Files, home: string, names: set<string>, l: Loc): Option<Loc> {
    if l.dir == home && l.base in names && l.base in LEGACY && Sweeps(fs, home, l.base) then None
    else if l.dir == home && l.base in PREVIOUS && PREVIOUS[l.base] in names
            && PREVIOUS[l.base] in LEGACY && Sweeps(fs, home, PREVIOUS[l.base])
    then Some(Loc(home, PREVIOUS[l.base]))
    else if l in fs then Some(l)
    else None
  }

  function Swept(fs: Files, home: string, names: set<string>): Files {
    map l | l in fs.Keys + (set base | base in PREVIOUS :: Loc(home, base)) && Origin(fs, home, names, l).Some?
      :: fs[Origin(fs, home, names, l).value]
  }

  datatype Outcome = Failed | Done(files: Files, reports: set<Report>)

  function ConfigFound(fs: Files, path: Loc): Outcome {
    var legacy := Loc(path.dir, LEGACY_CONFIG);
    if !Moves(fs, legacy, path) then Done(fs, {})
    else if path in fs then Failed
    else Done(Renamed(fs, legacy, path), {RenamedConfig})
  }

  function SweepReports(fs: Files, home: string): set<Report> {
    set legacy | legacy in LEGACY && Sweeps(fs, home, legacy) :: RenamedData(legacy)
  }

  /** What a migration leaves behind. */
  function Migration(where: Resolver, fs: Files, path: Loc): Outcome {
    match ConfigFound(fs, path)
    case Failed => Failed
    case Done(start, found) =>
      if !IsFile(start, path) then Done(start, found)
      else if !start[path].Settings? then Failed
      else
        var cfg := start[path].config;
        match FieldsMoved(where, start, cfg.fields)
        case None => Failed
        case Some(t) =>
          if SweepFails(t, path.dir) then Failed
          else
            var u := Swept(t, path.dir, LEGACY.Keys);
            var reports := found + SweepReports(t, path.dir);
            if NewFields(cfg.fields) == cfg.fields then Done(u, reports)
            else Done(u[path := Settings(cfg.(fields := NewFields(cfg.fields)))], reports + {UpdatedConfig})
  }

  // ----- what a failed migration leaves behind -----

  ghost predicate Unblocked(fs: Files, home: string, names: set<string>) {
    forall legacy :: legacy in names && legacy in LEGACY ==>
      !IsBlocked(fs, Loc(home, legacy), Loc(home, LEGACY[legacy]))
  }

  /** Some of the names have been moved. */
  ghost predicate IsPartlySwept(fs: Files, home: string, t: Files) {
    exists names :: names <= LEGACY.Keys && Unblocked(fs, home, names) && t == Swept(fs, home, names)
  }

  /** Some of the fields have been migrated. */
  ghost predicate IsPartlyMoved(where: Resolver, fs: Files, fields: seq<Field>, t: Files) {
    exists i :: 0 <= i <= |fields| && FieldsMoved(where, fs, fields[..i]) == Some(t)
  }

  /** The migration stopped somewhere, before anything was saved. */
  ghost predicate IsPartial(where: Resolver, fs: Files, path: Loc, t: Files) {
    match ConfigFound(fs, path)
    case Failed => t == fs
    case Done(start, _) =>
      IsFile(start, path)
      && if !start[path].Settings? then t == start
         else
           var fields := start[path].config.fields;
           match FieldsMoved(where, start, fields)
           case None => IsPartlyMoved(where, start, fields, t)
           case Some(moved) => IsPartlySwept(moved, path.dir, t)
  }

  // ----- the algorithm -----

  class Installation {
    const where: Resolver
    var files: Files

    constructor (where: Resolver, files: Files)
      ensures this.where == where && this.files == files
    {
      this.where, this.files := where, files;
    }

    method FileExists(l: Loc) returns (b: bool)
      ensures b == IsFile(files, l)
    {
      b := l in files && files[l] != Folder;
    }

    method Rename(from: Loc, to: Loc) returns (ok: bool)
      requires IsFile(files, from) && !IsFile(files, to)
      modifies this`files
      ensures ok == (to !in old(files))
      ensures files == if ok then Renamed(old(files), from, to) else old(files)
    {
      if to in files {
        return false;
      }
      files := files[to := files[from]] - {from};
      return true;
    }

    /** Renames one referenced file and returns its new name. */
    method MigrateDataFile(value: Field) returns (ok: bool, renamed: Field)
      modifies this`files
      ensures ok == FieldMoved(where, old(files), value).Some?
      ensures ok ==> files == FieldMoved(where, old(files), value).value && renamed == NewField(value)
      ensures !ok ==> files == old(files)
    {
      if value.Unset? || value.base !in LEGACY {
        return true, value;
      }
      renamed := Ref(value.parent, LEGACY[value.base]);
      var oldPlace, newPlace := Place(where, value), Place(where, renamed);
      var isOld := FileExists(oldPlace);
      var isNew := FileExists(newPlace);
      if isOld && !isNew {
        ok := Rename(oldPlace, newPlace);
        return ok, renamed;
      }
      return true, renamed;
    }

    /** Moves what lies under an old name in the directory, taking the names in any order. */
    method Sweep(home: string) returns (ok: bool, reports: seq<Report>)
      modifies this`files
      ensures ok == !SweepFails(old(files), home)
      ensures ok ==> files == Swept(old(files), home, LEGACY.Keys)
      ensures !ok ==> IsPartlySwept(old(files), home, files)
      ensures ok ==> multiset(reports) == multiset(SweepReports(old(files), home))
    {
      hide LEGACY, PREVIOUS, Swept, Renamed;
      reports := [];
      var left := LEGACY.Keys;
      NothingSwept(files, home);
      while left != {}
        invariant left <= LEGACY.Keys
        invariant files == Swept(old(files), home, LEGACY.Keys - left)
        invariant Unblocked(old(files), home, LEGACY.Keys - left)
        invariant multiset(reports) == multiset(ReportsOf(old(files), home, LEGACY.Keys - left))
        decreases left
      {
        var legacy :| legacy in left;
        var done := LEGACY.Keys - left;
        left := left - {legacy};
        assert LEGACY.Keys - left == done + {legacy};
        SweepOneMore(old(files), home, done, legacy);
        ReportOneMore(old(files), home, done, legacy);
        assert Unblocked(old(files), home, done);
        var from, to := Loc(home, legacy), Loc(home, LEGACY[legacy]);
        var isOld := FileExists(from);
        var isNew := FileExists(to);
        if !isOld || isNew {
          continue;
        }
        ok := Rename(from, to);
        if !ok {
          return;
        }
        reports := reports + [RenamedData(legacy)];
      }
      assert LEGACY.Keys - left == LEGACY.Keys;
      assert ReportsOf(old(files), home, LEGACY.Keys) == SweepReports(old(files), home);
      ok := true;
    }

    /** The configuration itself, only when there is no current one. */
    method RenameConfig(path: Loc) returns (ok: bool, reports: seq<Report>)
      modifies this`files
      ensures var found := ConfigFound(old(files), path);
              && ok == found.Done?
              && (!ok ==> files == old(files))
              && (ok ==> files == found.files && multiset(reports) == multiset(found.reports))
    {
      reports := [];
      var current := FileExists(path);
      if !current {
        var legacy := Loc(path.dir, LEGACY_CONFIG);
        var isOld := FileExists(legacy);
        if isOld {
          ok := Rename(legacy, path);
          return ok, [RenamedConfig];
        }
      }
      return true, reports;
    }

    method MigrateFields(fields: seq<Field>) returns (ok: bool, renamed: seq<Field>, changed: bool)
      modifies this`files
      ensures ok == FieldsMoved(where, old(files), fields).Some?
      ensures ok ==> files == FieldsMoved(where, old(files), fields).value
      ensures ok ==> renamed == NewFields(fields) && changed == (renamed != fields)
      ensures !ok ==> IsPartlyMoved(where, old(files), fields, files)
    {
      hide FieldMoved, NewField;
      renamed, changed := [], false;
      for i := 0 to |fields|
        invariant FieldsMoved(where, old(files), fields[..i]) == Some(files)
        invariant renamed == NewFields(fields[..i])
        invariant changed == (renamed != fields[..i])
      {
        assert fields[..i + 1][..i] == fields[..i];
        var value;
        ok, value := MigrateDataFile(fields[i]);
        if !ok {
          assert FieldsMoved(where, old(files), fields[..i]) == Some(files);
          FailedStaysFailed(where, old(files), fields, i + 1);
          return;
        }
        if value != fields[i] {
          changed := true;
        }
        assert fields[..i + 1] == fields[..i] + [fields[i]];
        SnocDiffers(renamed, fields[..i], value, fields[i]);
        renamed := renamed + [value];
      }
      assert fields[..|fields|] == fields;
      ok := true;
    }

    method Migrate(path: Loc) returns (ok: bool, reports: seq<Report>)
      modifies this`files
      ensures ok == Migration(where, old(files), path).Done?
      ensures ok ==> files == Migration(where, old(files), path).files
      ensures ok ==> multiset(reports) == multiset(Migration(where, old(files), path).reports)
      ensures !ok ==> IsPartial(where, old(files), path, files)
    {
      hide LEGACY, PREVIOUS, Swept, Renamed, FieldsMoved, NewFields, SweepReports, SweepFails;
      hide IsPartlyMoved, IsPartlySwept;
      ok, reports := RenameConfig(path);
      if !ok {
        return;
      }
      var current := FileExists(path);
      if !current {
        return;
      }
      if !files[path].Settings? {
        return false, reports;
      }
      var cfg, fields, changed := files[path].config, [], false;
      ok, fields, changed := MigrateFields(cfg.fields);
      if !ok {
        return;
      }
      SweepReportsAreNew(files, path.dir);
      var swept;
      ok, swept := Sweep(path.dir);
      reports := reports + swept;
      if !ok {
        return;
      }
      if changed {
        files := files[path := Settings(cfg.(fields := fields))];
        reports := reports + [UpdatedConfig];
      }
    }
  }

  lemma SnocDiffers<T>(s: seq<T>, t: seq<T>, x: T, y: T)
    ensures s + [x] != t + [y] <==> s != t || x != y
  {
    if s + [x] == t + [y] {
      assert (s + [x])[..|s|] == s && (t + [y])[..|t|] == t;
      assert (s + [x])[|s|] == x && (t + [y])[|t|] == y;
    }
  }

  function ReportsOf(fs: Files, home: string, names: set<string>): set<Report> {
    set legacy | legacy in names && legacy in LEGACY && Sweeps(fs, home, legacy) :: RenamedData(legacy)
  }

  lemma ReportOneMore(fs: Files, home: string, names: set<string>, legacy: string)
    requires legacy in LEGACY && legacy !in names
    ensures multiset(ReportsOf(fs, home, names + {legacy}))
            == multiset(ReportsOf(fs, home, names))
               + if Sweeps(fs, home, legacy) then multiset{RenamedData(legacy)} else multiset{}
  {
    var before := ReportsOf(fs, home, names);
    assert ReportsOf(fs, home, names + {legacy})
        == before + if Sweeps(fs, home, legacy) then {RenamedData(legacy)} else {};
    assert RenamedData(legacy) !in before;
  }

  lemma SweepReportsAreNew(fs: Files, home: string)
    ensures RenamedConfig !in SweepReports(fs, home) && UpdatedConfig !in SweepReports(fs, home)
  {
  }

  lemma {:induction false} FailedStaysFailed(where: Resolver, fs: Files, fields: seq<Field>, i: nat)
    requires i <= |fields| && FieldsMoved(where, fs, fields[..i]).None?
    ensures FieldsMoved(where, fs, fields).None?
  {
    if i == |fields| {
      assert fields[..i] == fields;
    } else {
      assert fields[..|fields| - 1][..i] == fields[..i];
      FailedStaysFailed(where, fs, fields[..|fields| - 1], i);
    }
  }

  // ----- names -----

  lemma OldNamesStartWithT()
    ensures forall k :: k in LEGACY ==> |k| > 0 && k[0] == 't'
  {
  }

  lemma CurrentNamesStartWithM()
    ensures forall c :: c in PREVIOUS ==> |c| > 0 && c[0] == 'm'
  {
  }

  lemma TablesAreInverse()
    ensures forall k :: k in LEGACY ==> LEGACY[k] in PREVIOUS && PREVIOUS[LEGACY[k]] == k
    ensures forall c :: c in PREVIOUS ==> PREVIOUS[c] in LEGACY && LEGACY[PREVIOUS[c]] == c
  {
    assert "modern-eq-chat-agents.json"[15] == 'a' && "modern-eq-chat-enroll.json"[15] == 'e';
    assert "talkeq_agents.json"[7] == 'a' && "talkeq_enroll.json"[7] == 'e' && "talkeq_hub_key.pem"[7] == 'h';
  }

  /** The two tables are inverse and no current name is an old one. */
  lemma NamesAreDistinct()
    ensures forall k :: k in LEGACY ==> LEGACY[k] in PREVIOUS && PREVIOUS[LEGACY[k]] == k && LEGACY[k] !in LEGACY
    ensures forall c :: c in PREVIOUS ==> PREVIOUS[c] in LEGACY && LEGACY[PREVIOUS[c]] == c
    ensures LEGACY_CONFIG !in LEGACY && LEGACY_CONFIG !in PREVIOUS
  {
    assert LEGACY_CONFIG !in LEGACY;
    hide LEGACY, PREVIOUS;
    OldNamesStartWithT();
    CurrentNamesStartWithM();
    TablesAreInverse();
  }

  /** Only the prefix of a name changes. */
  ghost predicate IsRenaming(previous: string, current: string, rest: string) {
    (previous == "talkeq_" + rest || previous == "talkeq_hub_" + rest) && current == "modern-eq-chat-" + rest
  }

  lemma TextFilesAreRenamed()
    ensures IsRenaming("talkeq_users.txt", "modern-eq-chat-users.txt", "users.txt")
    ensures IsRenaming("talkeq_guilds.txt", "modern-eq-chat-guilds.txt", "guilds.txt")
  {
  }

  lemma StoresAreRenamed()
    ensures IsRenaming("talkeq_agents.json", "modern-eq-chat-agents.json", "agents.json")
    ensures IsRenaming("talkeq_enroll.json", "modern-eq-chat-enroll.json", "enroll.json")
  {
  }

  lemma KeysAreRenamed()
    ensures IsRenaming("talkeq_hub_cert.pem", "modern-eq-chat-cert.pem", "cert.pem")
    ensures IsRenaming("talkeq_hub_key.pem", "modern-eq-chat-key.pem", "key.pem")
  {
  }

  lemma RegisterIsRenamed()
    ensures IsRenaming("talkeq_register.toml", "modern-eq-chat-register.toml", "register.toml")
  {
  }

  /** Seven kinds of files are renamed, each to the name of its own kind. */
  lemma KindsStay(k: string)
    requires k in LEGACY
    ensures exists rest :: IsRenaming(k, LEGACY[k], rest)
  {
    TextFilesAreRenamed();
    StoresAreRenamed();
    KeysAreRenamed();
    RegisterIsRenamed();
    hide IsRenaming;
  }

  lemma NothingSwept(fs: Files, home: string)
    ensures Swept(fs, home, LEGACY.Keys - LEGACY.Keys) == fs
  {
  }

  /** What a name's move depends on is not touched by the moves of the others. */
  lemma SweepLeavesOthers(fs: Files, home: string, names: set<string>, legacy: string)
    requires legacy in LEGACY && legacy !in names
    ensures var t := Swept(fs, home, names);
            var from, to := Loc(home, legacy), Loc(home, LEGACY[legacy]);
            && (from in t <==> from in fs) && (from in t ==> t[from] == fs[from])
            && (to in t <==> to in fs) && (to in t ==> t[to] == fs[to])
  {
    hide LEGACY, PREVIOUS;
    NamesAreDistinct();
  }

  lemma OriginOneMore(fs: Files, home: string, names: set<string>, legacy: string, l: Loc)
    requires legacy in LEGACY && legacy !in names
    ensures var from, to := Loc(home, legacy), Loc(home, LEGACY[legacy]);
            Origin(fs, home, names + {legacy}, l)
            == if !Sweeps(fs, home, legacy) then Origin(fs, home, names, l)
               else if l == from then None
               else if l == to then Some(from)
               else Origin(fs, home, names, l)
  {
    hide LEGACY, PREVIOUS, Moves;
    NamesAreDistinct();
  }

  /** One more name moves as it would have moved alone. */
  lemma SweepOneMore(fs: Files, home: string, names: set<string>, legacy: string)
    requires legacy in LEGACY && legacy !in names
    ensures var t := Swept(fs, home, names);
            var from, to := Loc(home, legacy), Loc(home, LEGACY[legacy]);
            && (from in t <==> from in fs) && (from in t ==> t[from] == fs[from])
            && (to in t <==> to in fs) && (to in t ==> t[to] == fs[to])
            && (Moves(t, from, to) ==> Renamed(t, from, to) == Swept(fs, home, names + {legacy}))
            && (!Moves(t, from, to) ==> t == Swept(fs, home, names + {legacy}))
  {
    hide LEGACY, PREVIOUS, Origin;
    NamesAreDistinct();
    SweepLeavesOthers(fs, home, names, legacy);
    var from, to, both := Loc(home, legacy), Loc(home, LEGACY[legacy]), names + {legacy};
    forall l
      ensures Origin(fs, home, both, l)
              == if !Sweeps(fs, home, legacy) then Origin(fs, home, names, l)
                 else if l == from then None
                 else if l == to then Some(from)
                 else Origin(fs, home, names, l)
    {
      OriginOneMore(fs, home, names, legacy, l);
    }
  }
}
