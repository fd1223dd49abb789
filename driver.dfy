/**
 * The reconciliation and job driver (the `_` arm of `main` in src/main.rs): for each
 * bridge, the declared packages are split by whether they are installed, a job list
 * is picked from the command, and every package of every job is taken through the
 * bridge, the store and the record table; a failure skips that package only, except in
 * a reinstall. At the end the load path is rebuilt from the records.
 */
module Driver {
  import opened Wrappers
  import opened Files
  import Db
  import Input
  import Fs
  import Bridge

  /** The command given on the command line, as far as the driver looks at it. */
  datatype Command = Build(update: bool) | Rebuild | Update(packages: Option<seq<string>>)

  datatype Job = Install | Update | Remove | Reinstall

  /** A bridge with the packages declared for it. */
  datatype BridgeGroup = BridgeGroup(name: string, pkgs: seq<Input.PkgDeclaration>)

  function DeclNames(decls: seq<Input.PkgDeclaration>): (r: seq<string>)
    ensures |r| == |decls| && forall i | 0 <= i < |decls| :: r[i] == decls[i].name
  {
    seq(|decls|, i requires 0 <= i < |decls| => decls[i].name)
  }

  // ---------------------------------------------------------------------------
  // filter_pkgs_by_statuses
  // ---------------------------------------------------------------------------

  /** The three lists a bridge's packages are split into. */
  datatype Statuses = Statuses(
    installedInInput: seq<Input.PkgDeclaration>,
    notInstalledInInput: seq<Input.PkgDeclaration>,
    installedNotInInput: seq<Input.PkgDeclaration>)

  /** The declarations whose name is among `names`, in declaration order. */
  function DeclsNamed(decls: seq<Input.PkgDeclaration>, names: seq<string>): seq<Input.PkgDeclaration>
    decreases |decls|
  {
    if decls == [] then []
    else (if decls[0].name in names then [decls[0]] else []) + DeclsNamed(decls[1..], names)
  }

  /** The names of the installed packages that are not declared. */
  function UndeclaredNames(pkgs: seq<Db.Pkg>, inputs: seq<string>): seq<string>
    decreases |pkgs|
  {
    if pkgs == [] then []
    else (if pkgs[0].name !in inputs then [pkgs[0].name] else []) + UndeclaredNames(pkgs[1..], inputs)
  }

  /** The installed packages named in `names` whose record belongs to `bridgeName`, as declarations. */
  function OwnedBy(rows: seq<Db.Row>, pkgs: seq<Db.Pkg>, names: seq<string>, bridgeName: string): seq<Input.PkgDeclaration>
    decreases |pkgs|
  {
    if pkgs == [] then []
    else
      (if pkgs[0].name in names && Db.BridgeOf(rows, pkgs[0].name) == Ok(bridgeName)
       then [Db.ToPkgDeclarationWithEmptyAttributes(pkgs[0])] else []) +
      OwnedBy(rows, pkgs[1..], names, bridgeName)
  }

  /**
   * filter_pkgs_by_statuses: read every record, the installed and the missing names
   * among `inputs`, and the names installed but not declared; split the declarations
   * by the first two, and keep the undeclared records of this bridge.
   */
  function FilterPkgsByStatuses(rows: seq<Db.Row>, inputs: seq<string>, decls: seq<Input.PkgDeclaration>, bridgeName: string): Result<Statuses, Db.DbError> {
    var all := Db.DecodeFrom([], rows);
    if all.Err? then Err(all.error)
    else
      var installedNames := Db.Installed(rows, inputs);
      var notInstalledNames := Db.NotIn(all.value, inputs);
      var undeclared := UndeclaredNames(all.value, inputs);
      Ok(Statuses(
        DeclsNamed(decls, installedNames),
        DeclsNamed(decls, notInstalledNames),
        OwnedBy(rows, all.value, undeclared, bridgeName)))
  }

  /** Reference: the declarations that have (`has`) or lack a record, in declaration order. */
  function WithRecord(decls: seq<Input.PkgDeclaration>, rows: seq<Db.Row>, has: bool): seq<Input.PkgDeclaration>
    decreases |decls|
  {
    if decls == [] then []
    else (if Db.HasName(rows, decls[0].name) == has then [decls[0]] else []) + WithRecord(decls[1..], rows, has)
  }

  /**
   * Reference: the records not declared in `inputs` and stored by `bridgeName`, in
   * table order, each as a declaration with the recorded path as input.
   */
  function Orphans(rows: seq<Db.Row>, inputs: seq<string>, bridgeName: string): seq<Input.PkgDeclaration>
    decreases |rows|
  {
    if rows == [] then []
    else
      (if rows[0].name !in inputs && rows[0].bridge == bridgeName
       then [Input.PkgDeclaration(rows[0].name, rows[0].path, map[])] else []) +
      Orphans(rows[1..], inputs, bridgeName)
  }

  /** Every declaration lands in exactly one of the two lists, each keeping declaration order. */
  lemma {:induction false} WithRecordPartition(decls: seq<Input.PkgDeclaration>, rows: seq<Db.Row>)
    ensures multiset(WithRecord(decls, rows, true)) + multiset(WithRecord(decls, rows, false)) == multiset(decls)
    ensures forall d :: d in WithRecord(decls, rows, true) <==> d in decls && Db.HasName(rows, d.name)
    ensures forall d :: d in WithRecord(decls, rows, false) <==> d in decls && !Db.HasName(rows, d.name)
    decreases |decls|
  {
    if decls != [] {
      WithRecordPartition(decls[1..], rows);
      assert decls == [decls[0]] + decls[1..];
    }
  }

  lemma {:induction false} DeclsNamedWithRecord(decls: seq<Input.PkgDeclaration>, names: seq<string>, rows: seq<Db.Row>, has: bool)
    requires forall i | 0 <= i < |decls| :: decls[i].name in names <==> Db.HasName(rows, decls[i].name) == has
    ensures DeclsNamed(decls, names) == WithRecord(decls, rows, has)
    decreases |decls|
  {
    if decls != [] {
      assert forall i | 0 <= i < |decls[1..]| :: decls[1..][i] == decls[i + 1];
      DeclsNamedWithRecord(decls[1..], names, rows, has);
    }
  }

  lemma {:induction false} UndeclaredNamesExact(pkgs: seq<Db.Pkg>, inputs: seq<string>, p: Db.Pkg)
    requires p in pkgs
    ensures p.name in UndeclaredNames(pkgs, inputs) <==> p.name !in inputs
    decreases |pkgs|
  {
    if pkgs[0] != p {
      UndeclaredNamesExact(pkgs[1..], inputs, p);
    }
    assert forall n | n in UndeclaredNames(pkgs, inputs) :: n !in inputs by {
      UndeclaredNamesNotDeclared(pkgs, inputs);
    }
  }

  lemma {:induction false} UndeclaredNamesNotDeclared(pkgs: seq<Db.Pkg>, inputs: seq<string>)
    ensures forall n | n in UndeclaredNames(pkgs, inputs) :: n !in inputs
    decreases |pkgs|
  {
    if pkgs != [] {
      UndeclaredNamesNotDeclared(pkgs[1..], inputs);
    }
  }

  lemma {:induction false} OwnedByOrphans(table: seq<Db.Row>, rs: seq<Db.Row>, ps: seq<Db.Pkg>, names: seq<string>, inputs: seq<string>, bridgeName: string)
    requires |rs| == |ps|
    requires forall i | 0 <= i < |rs| :: ps[i].name == rs[i].name && ps[i].path == rs[i].path
    requires forall i | 0 <= i < |rs| :: Db.BridgeOf(table, rs[i].name) == Ok(rs[i].bridge)
    requires forall i | 0 <= i < |rs| :: ps[i].name in names <==> ps[i].name !in inputs
    ensures OwnedBy(table, ps, names, bridgeName) == Orphans(rs, inputs, bridgeName)
    decreases |rs|
  {
    if rs != [] {
      assert forall i | 0 <= i < |rs[1..]| :: rs[1..][i] == rs[i + 1] && ps[1..][i] == ps[i + 1];
      OwnedByOrphans(table, rs[1..], ps[1..], names, inputs, bridgeName);
    }
  }

  /**
   * The split of one bridge's declarations. The read fails only when a record does not
   * decode. Otherwise installed-in-input holds the declarations that have a record,
   * not-installed-in-input those that lack one, both in declaration order. The
   * installed-not-in-input list holds exactly the records that this bridge stored and
   * that are not declared, in table order, each with the recorded path as input and
   * no attributes.
   */
  lemma FilterPkgsByStatusesExact(rows: seq<Db.Row>, decls: seq<Input.PkgDeclaration>, bridgeName: string)
    requires Db.UniqueNames(rows)
    ensures FilterPkgsByStatuses(rows, DeclNames(decls), decls, bridgeName).Ok? <==> Db.DecodeFrom([], rows).Ok?
    ensures var r := FilterPkgsByStatuses(rows, DeclNames(decls), decls, bridgeName);
      r.Ok? ==>
        && r.value.installedInInput == WithRecord(decls, rows, true)
        && r.value.notInstalledInInput == WithRecord(decls, rows, false)
        && r.value.installedNotInInput == Orphans(rows, DeclNames(decls), bridgeName)
  {
    if Db.DecodeFrom([], rows).Ok? {
      SplitDecls(rows, decls);
      SplitOrphans(rows, DeclNames(decls), bridgeName);
    }
  }

  lemma SplitDecls(rows: seq<Db.Row>, decls: seq<Input.PkgDeclaration>)
    requires Db.DecodeFrom([], rows).Ok?
    ensures DeclsNamed(decls, Db.Installed(rows, DeclNames(decls))) == WithRecord(decls, rows, true)
    ensures DeclsNamed(decls, Db.NotIn(Db.DecodeFrom([], rows).value, DeclNames(decls))) == WithRecord(decls, rows, false)
  {
    var inputs := DeclNames(decls);
    Db.InstalledNotInstalledPartition(rows, inputs);
    assert forall i | 0 <= i < |decls| :: decls[i].name in inputs;
    DeclsNamedWithRecord(decls, Db.Installed(rows, inputs), rows, true);
    DeclsNamedWithRecord(decls, Db.NotIn(Db.DecodeFrom([], rows).value, inputs), rows, false);
  }

  lemma SplitOrphans(rows: seq<Db.Row>, inputs: seq<string>, bridgeName: string)
    requires Db.UniqueNames(rows) && Db.DecodeFrom([], rows).Ok?
    ensures var all := Db.DecodeFrom([], rows).value;
      OwnedBy(rows, all, UndeclaredNames(all, inputs), bridgeName) == Orphans(rows, inputs, bridgeName)
  {
    var all := Db.DecodeFrom([], rows).value;
    Db.DecodeFromShape([], rows);
    forall i | 0 <= i < |rows|
      ensures all[i].name == rows[i].name && all[i].path == rows[i].path
      ensures Db.BridgeOf(rows, rows[i].name) == Ok(rows[i].bridge)
      ensures all[i].name in UndeclaredNames(all, inputs) <==> all[i].name !in inputs
    {
      assert Db.DecodeRow(rows[i]) == Ok(all[i]);
      Db.BridgeOfRow(rows, i);
      UndeclaredNamesExact(all, inputs, all[i]);
    }
    OwnedByOrphans(rows, rows, all, UndeclaredNames(all, inputs), inputs, bridgeName);
  }

  /** The bridge of an installed package is always found, so the lookup's `expect` never panics. */
  lemma OwnerAlwaysFound(rows: seq<Db.Row>, p: Db.Pkg)
    requires Db.DecodeFrom([], rows).Ok? && p in Db.DecodeFrom([], rows).value
    ensures Db.BridgeOf(rows, p.name).Ok?
  {
    Db.DecodedNames([], rows, p.name);
    assert Db.Carries(Db.DecodeFrom([], rows).value, p.name);
  }

  // ---------------------------------------------------------------------------
  // Job selection
  // ---------------------------------------------------------------------------

  /** The jobs run for each bridge, in order. */
  function JobsFor(cmd: Command): seq<Job> {
    match cmd
    case Build(update) => (if update then [Job.Update] else []) + [Install, Remove]
    case Rebuild => [Install, Remove, Reinstall]
    case Update(_) => [Job.Update]
  }

  /**
   * Install and remove run for build and rebuild, never for update; update runs for
   * `build --update` and for update, and then first; reinstall only for rebuild, and
   * last; install always comes before remove, and no job runs twice.
   */
  lemma JobsForOrder(cmd: Command)
    ensures Install in JobsFor(cmd) <==> !cmd.Update?
    ensures Remove in JobsFor(cmd) <==> !cmd.Update?
    ensures Job.Update in JobsFor(cmd) <==> (cmd.Build? && cmd.update) || cmd.Update?
    ensures Job.Update in JobsFor(cmd) ==> JobsFor(cmd)[0] == Job.Update
    ensures Reinstall in JobsFor(cmd) <==> cmd.Rebuild?
    ensures Reinstall in JobsFor(cmd) ==> JobsFor(cmd)[|JobsFor(cmd)| - 1] == Reinstall
    ensures forall i, j | 0 <= i < j < |JobsFor(cmd)| :: JobsFor(cmd)[i] != JobsFor(cmd)[j]
    ensures forall i, j | 0 <= i < |JobsFor(cmd)| && 0 <= j < |JobsFor(cmd)| ::
      JobsFor(cmd)[i] == Install && JobsFor(cmd)[j] == Remove ==> i < j
  {
  }

  /** The packages an update works on: narrowed to the listed names when update was given a list. */
  function UpdateSet(cmd: Command, installed: seq<Input.PkgDeclaration>): seq<Input.PkgDeclaration> {
    if cmd.Update? && cmd.packages.Some? then DeclsNamed(installed, cmd.packages.value) else installed
  }

  /**
   * Narrowing keeps exactly the installed declarations whose name is listed, each as
   * often as before and in the same relative order (it is a filter).
   */
  lemma {:induction false} DeclsNamedExact(decls: seq<Input.PkgDeclaration>, names: seq<string>)
    ensures forall d :: d in DeclsNamed(decls, names) <==> d in decls && d.name in names
    ensures multiset(DeclsNamed(decls, names)) <= multiset(decls)
    ensures |DeclsNamed(decls, names)| <= |decls|
    decreases |decls|
  {
    if decls != [] {
      DeclsNamedExact(decls[1..], names);
      assert decls == [decls[0]] + decls[1..];
    }
  }

  /** The narrowing loop of the update command (a `for_each` that pushes the listed packages). */
  method NarrowUpdates(installed: seq<Input.PkgDeclaration>, packages: seq<string>) returns (r: seq<Input.PkgDeclaration>)
    ensures r == DeclsNamed(installed, packages)
  {
    r := [];
    var i := 0;
    while i < |installed|
      invariant 0 <= i <= |installed|
      invariant r + DeclsNamed(installed[i..], packages) == DeclsNamed(installed, packages)
    {
      assert installed[i..][0] == installed[i] && installed[i..][1..] == installed[i + 1..];
      if installed[i].name in packages {
        r := r + [installed[i]];
      }
      i := i + 1;
    }
    assert installed[i..] == [];
    assert r + [] == r;
  }

  /** The packages a job walks. */
  function PkgsFor(job: Job, s: Statuses, updates: seq<Input.PkgDeclaration>): seq<Input.PkgDeclaration> {
    match job
    case Install => s.notInstalledInInput
    case Update => updates
    case Remove => s.installedNotInInput
    case Reinstall => updates
  }

  // ---------------------------------------------------------------------------
  // The per-package steps
  // ---------------------------------------------------------------------------

  /** What the driver works with: the Lua runtime, the loaded bridges, and the two directories. */
  datatype Context = Context(runtime: Bridge.Runtime, bridges: seq<Bridge.Bridge>, targetDir: string, loadPath: string)

  /** Why a run ended early. */
  datatype Stop =
    | Aborted(error: Bridge.BridgeError)
    /** The version index panic of a bridge's package conversion: the process ends. */
    | Panicked
    | FilterFailed(dbError: Db.DbError)
    | LinkFailed(fsError: Fs.FsError)

  /** The disk, the record table and the two counters as the run goes on, and why it stopped, if it did. */
  datatype Tally = Tally(files: FileSystem, rows: seq<Db.Row>, installed: nat, removed: nat, stop: Option<Stop>)

  /** A bridge error that ends the run: the version panic, or any other error where the driver returns it. */
  function Ending(e: Bridge.BridgeError): Stop {
    if e == Bridge.VersionIndexPanic then Panicked else Aborted(e)
  }

  /**
   * The tail of an install, update or reinstall once the bridge returned a package:
   * store it under the bridge, for an update delete the old record, then record it; a
   * failure skips the package, and only full success counts it.
   */
  function AddSpec(ctx: Context, job: Job, bridgeName: string, pkg: Db.Pkg, t: Tally): Tally {
    var stored := Fs.Store(t.files, ctx.targetDir, Some(bridgeName), [pkg]);
    if stored.result.Err? then t.(files := stored.files)
    else
      var p := stored.pkgs[0];
      var rows := if job == Job.Update then Db.DeleteAll(t.rows, [p.name]) else t.rows;
      var ins := Db.Insert(rows, [p], bridgeName);
      if ins.1.Err? then t.(files := stored.files, rows := ins.0)
      else t.(files := stored.files, rows := ins.0, installed := t.installed + 1)
  }

  /** The outcome of an install or update call: a panic ends the run, another error skips the package. */
  function Added(ctx: Context, job: Job, bridgeName: string, c: Bridge.Called<Db.Pkg>, t: Tally): Tally {
    if c.result.Err? then
      (if c.result.error == Bridge.VersionIndexPanic then t.(files := c.files, stop := Some(Panicked))
       else t.(files := c.files))
    else AddSpec(ctx, job, bridgeName, c.result.value, t.(files := c.files))
  }

  /** One package of one job. */
  function PkgStep(ctx: Context, job: Job, bridgeName: string, decl: Input.PkgDeclaration, t: Tally): Tally {
    match job
    case Install =>
      Added(ctx, job, bridgeName, Bridge.InstallSpec(ctx.runtime, ctx.bridges, bridgeName, decl, t.files), t)
    case Update =>
      Added(ctx, job, bridgeName, Bridge.UpdateSpec(ctx.runtime, ctx.bridges, t.rows, bridgeName, decl, t.files), t)
    case Remove =>
      var c := Bridge.RemoveSpec(ctx.runtime, ctx.bridges, t.rows, bridgeName, decl, t.files);
      if c.result.Err? || !c.result.value then t.(files := c.files)
      else
        var rm := Fs.RemoveCorrected(c.files, t.rows, [decl.name]);
        if rm.result.Err? then t.(files := rm.files)
        else t.(files := rm.files, rows := Db.DeleteAll(t.rows, [decl.name]), removed := t.removed + 1)
    case Reinstall =>
      var c := Bridge.InstallSpec(ctx.runtime, ctx.bridges, bridgeName, decl, t.files);
      if c.result.Err? then t.(files := c.files, stop := Some(Ending(c.result.error)))
      else
        var d := Bridge.RemoveSpec(ctx.runtime, ctx.bridges, t.rows, bridgeName, decl, c.files);
        if d.result.Err? then t.(files := d.files, stop := Some(Aborted(d.result.error)))
        else AddSpec(ctx, job, bridgeName, c.result.value, t.(files := d.files, rows := Db.DeleteAll(t.rows, [decl.name])))
  }

  /** The packages of one job, in order, until the run stops. */
  function RunPkgs(ctx: Context, job: Job, bridgeName: string, pkgs: seq<Input.PkgDeclaration>, t: Tally): Tally
    decreases |pkgs|
  {
    if pkgs == [] || t.stop.Some? then t
    else RunPkgs(ctx, job, bridgeName, pkgs[1..], PkgStep(ctx, job, bridgeName, pkgs[0], t))
  }

  /** The jobs of one bridge, in order. */
  function RunJobs(ctx: Context, bridgeName: string, s: Statuses, updates: seq<Input.PkgDeclaration>, jobs: seq<Job>, t: Tally): Tally
    decreases |jobs|
  {
    if jobs == [] || t.stop.Some? then t
    else RunJobs(ctx, bridgeName, s, updates, jobs[1..], RunPkgs(ctx, jobs[0], bridgeName, PkgsFor(jobs[0], s, updates), t))
  }

  /** One bridge: split its packages against the current records, then run the jobs of the command. */
  function RunBridge(ctx: Context, cmd: Command, g: BridgeGroup, t: Tally): Tally {
    var f := FilterPkgsByStatuses(t.rows, DeclNames(g.pkgs), g.pkgs, g.name);
    if f.Err? then t.(stop := Some(FilterFailed(f.error)))
    else RunJobs(ctx, g.name, f.value, UpdateSet(cmd, f.value.installedInInput), JobsFor(cmd), t)
  }

  /** The bridges, in input order, until the run stops. */
  function RunBridges(ctx: Context, cmd: Command, groups: seq<BridgeGroup>, t: Tally): Tally
    decreases |groups|
  {
    if groups == [] || t.stop.Some? then t
    else RunBridges(ctx, cmd, groups[1..], RunBridge(ctx, cmd, groups[0], t))
  }

  /** The whole run: every bridge, then the load path is rebuilt from the records. */
  function RunAll(ctx: Context, cmd: Command, groups: seq<BridgeGroup>, files: FileSystem, rows: seq<Db.Row>): Tally {
    var t := RunBridges(ctx, cmd, groups, Tally(files, rows, 0, 0, None));
    if t.stop.Some? then t
    else
      var l := Fs.LinkWith(t.files, ctx.loadPath, t.rows, true);
      if l.result.Err? then t.(files := l.files, stop := Some(LinkFailed(l.result.error)))
      else t.(files := l.files)
  }

  // ---------------------------------------------------------------------------
  // What a step does
  // ---------------------------------------------------------------------------

  /**
   * A package is counted as installed exactly when the store and the insert both
   * succeed; it is then stored at `target_dir/bridge/name`, and the record table is the
   * previous one (for an update with the old record already deleted) with the stored
   * package's record, owned by the bridge, appended. Nothing else changes the counters,
   * and a run never stops here.
   */
  lemma AddSpecCounts(ctx: Context, job: Job, bridgeName: string, pkg: Db.Pkg, t: Tally)
    ensures var o := AddSpec(ctx, job, bridgeName, pkg, t);
      o.removed == t.removed && o.stop == t.stop && (o.installed == t.installed || o.installed == t.installed + 1)
    ensures var o := AddSpec(ctx, job, bridgeName, pkg, t);
      var stored := Fs.Store(t.files, ctx.targetDir, Some(bridgeName), [pkg]);
      var before := if job == Job.Update then Db.DeleteAll(t.rows, [pkg.name]) else t.rows;
      o.installed == t.installed + 1 <==>
        stored.result.Ok? && !Db.HasName(before, pkg.name)
    ensures var o := AddSpec(ctx, job, bridgeName, pkg, t);
      var stored := Fs.Store(t.files, ctx.targetDir, Some(bridgeName), [pkg]);
      var before := if job == Job.Update then Db.DeleteAll(t.rows, [pkg.name]) else t.rows;
      o.installed == t.installed + 1 ==>
        && stored.pkgs[0].name == pkg.name
        && stored.pkgs[0].path == Fs.StoreTarget(ctx.targetDir, Some(bridgeName), pkg.name)
        && o.rows == before + [Db.EncodeRow(stored.pkgs[0], bridgeName)]
    ensures var o := AddSpec(ctx, job, bridgeName, pkg, t);
      o.installed == t.installed && job != Job.Update ==> o.rows == t.rows
  {
    var stored := Fs.Store(t.files, ctx.targetDir, Some(bridgeName), [pkg]);
    if stored.result.Ok? {
      StoreSingle(t.files, ctx.targetDir, Some(bridgeName), pkg);
      var p := stored.pkgs[0];
      var before := if job == Job.Update then Db.DeleteAll(t.rows, [pkg.name]) else t.rows;
      InsertSingle(before, p, bridgeName);
    }
  }

  /** Storing a single package: on success the slot holds it relocated to its store target. */
  lemma StoreSingle(files: FileSystem, targetDir: string, bridge: Option<string>, pkg: Db.Pkg)
    ensures var stored := Fs.Store(files, targetDir, bridge, [pkg]);
      stored.result.Ok? ==> stored.pkgs == [Fs.Relocated(pkg, Fs.StoreTarget(targetDir, bridge, pkg.name))]
  {
    var stored := Fs.Store(files, targetDir, bridge, [pkg]);
    if stored.result.Ok? {
      var made := if Exists(files, targetDir) then Ok(files) else CreateDirAll(files, targetDir);
      var k := Fs.StoreFromStops(made.value, targetDir, bridge, [], [pkg]);
      assert [pkg][..1] == [pkg] && [pkg][1..] == [];
      assert Fs.StoredAll(targetDir, bridge, [pkg])[0] == Fs.Relocated(pkg, Fs.StoreTarget(targetDir, bridge, pkg.name));
    }
  }

  /** Inserting a single package: refused when its name is present, else its row is appended. */
  lemma InsertSingle(rows: seq<Db.Row>, p: Db.Pkg, bridge: string)
    ensures Db.Insert(rows, [p], bridge) ==
      if Db.HasName(rows, p.name) then (rows, Err(Db.ConstraintViolation(p.name)))
      else (rows + [Db.EncodeRow(p, bridge)], Ok(()))
  {
    assert [p][1..] == [];
  }

  /**
   * An update deletes the old record before it inserts the new one: when it is
   * counted, the package's record is the last row and the only one with its name.
   */
  lemma UpdateReplacesRecord(ctx: Context, bridgeName: string, pkg: Db.Pkg, t: Tally)
    requires Db.UniqueNames(t.rows)
    ensures var o := AddSpec(ctx, Job.Update, bridgeName, pkg, t);
      o.installed == t.installed + 1
      <==> Fs.Store(t.files, ctx.targetDir, Some(bridgeName), [pkg]).result.Ok?
    ensures var o := AddSpec(ctx, Job.Update, bridgeName, pkg, t);
      o.installed == t.installed + 1 ==>
        Db.UniqueNames(o.rows) && Db.BridgeOf(o.rows, pkg.name) == Ok(bridgeName)
  {
    AddSpecCounts(ctx, Job.Update, bridgeName, pkg, t);
    var before := Db.DeleteAll(t.rows, [pkg.name]);
    Db.DeleteAllExact(t.rows, [pkg.name]);
    var o := AddSpec(ctx, Job.Update, bridgeName, pkg, t);
    if o.installed == t.installed + 1 {
      var stored := Fs.Store(t.files, ctx.targetDir, Some(bridgeName), [pkg]);
      var row := Db.EncodeRow(stored.pkgs[0], bridgeName);
      Db.KeepUnique(t.rows, [pkg.name]);
      Db.DeleteIsKeep(t.rows, pkg.name);
      assert Db.UniqueNames(o.rows) by {
        assert o.rows == before + [row];
        forall i | 0 <= i < |before| ensures before[i].name != row.name {
          assert before[i] in before;
        }
      }
      Db.BridgeOfRow(o.rows, |o.rows| - 1);
    }
  }

  /**
   * A failed install or update call skips the package: nothing is counted and the
   * record table is untouched; only the version panic stops the run.
   */
  lemma FailedCallSkips(ctx: Context, job: Job, bridgeName: string, c: Bridge.Called<Db.Pkg>, t: Tally)
    requires c.result.Err? && t.stop.None?
    ensures var o := Added(ctx, job, bridgeName, c, t);
      o.rows == t.rows && o.installed == t.installed && o.removed == t.removed && o.files == c.files
    ensures Added(ctx, job, bridgeName, c, t).stop.Some? <==> c.result.error == Bridge.VersionIndexPanic
  {
  }

  /**
   * A remove is counted exactly when the bridge answers true and clearing the stored
   * copy succeeds; then exactly the package's record is deleted. A bridge error or a
   * false answer leaves the records and the counters as they were, and never stops
   * the run.
   */
  lemma RemoveStep(ctx: Context, bridgeName: string, decl: Input.PkgDeclaration, t: Tally)
    requires t.stop.None?
    ensures var o := PkgStep(ctx, Remove, bridgeName, decl, t);
      o.stop.None? && o.installed == t.installed && (o.removed == t.removed || o.removed == t.removed + 1)
    ensures var o := PkgStep(ctx, Remove, bridgeName, decl, t);
      var c := Bridge.RemoveSpec(ctx.runtime, ctx.bridges, t.rows, bridgeName, decl, t.files);
      o.removed == t.removed + 1 <==>
        c.result == Ok(true) && Fs.RemoveCorrected(c.files, t.rows, [decl.name]).result.Ok?
    ensures var o := PkgStep(ctx, Remove, bridgeName, decl, t);
      o.removed == t.removed + 1 ==>
        !Db.HasName(o.rows, decl.name) && (forall row | row in t.rows && row.name != decl.name :: row in o.rows)
    ensures var o := PkgStep(ctx, Remove, bridgeName, decl, t);
      o.removed == t.removed ==> o.rows == t.rows
  {
    Db.DeleteAllExact(t.rows, [decl.name]);
  }

  /** A reinstall whose install or remove call fails ends the whole run. */
  lemma ReinstallAborts(ctx: Context, bridgeName: string, decl: Input.PkgDeclaration, t: Tally)
    ensures var c := Bridge.InstallSpec(ctx.runtime, ctx.bridges, bridgeName, decl, t.files);
      c.result.Err? ==> PkgStep(ctx, Reinstall, bridgeName, decl, t).stop.Some?
    ensures var c := Bridge.InstallSpec(ctx.runtime, ctx.bridges, bridgeName, decl, t.files);
      c.result.Ok? && Bridge.RemoveSpec(ctx.runtime, ctx.bridges, t.rows, bridgeName, decl, c.files).result.Err? ==>
        PkgStep(ctx, Reinstall, bridgeName, decl, t).stop ==
          Some(Aborted(Bridge.RemoveSpec(ctx.runtime, ctx.bridges, t.rows, bridgeName, decl, c.files).result.error))
  {
  }

  /**
   * Within a job each package moves a counter by at most one, install, update and
   * reinstall only the installed counter, remove only the removed one.
   */
  lemma {:induction false} RunPkgsCounts(ctx: Context, job: Job, bridgeName: string, pkgs: seq<Input.PkgDeclaration>, t: Tally)
    ensures var o := RunPkgs(ctx, job, bridgeName, pkgs, t);
      t.installed <= o.installed && t.removed <= o.removed &&
      (o.installed - t.installed) + (o.removed - t.removed) <= |pkgs|
    ensures var o := RunPkgs(ctx, job, bridgeName, pkgs, t);
      job == Remove ==> o.installed == t.installed
    ensures var o := RunPkgs(ctx, job, bridgeName, pkgs, t);
      job != Remove ==> o.removed == t.removed
    decreases |pkgs|
  {
    if pkgs != [] && t.stop.None? {
      var s := PkgStep(ctx, job, bridgeName, pkgs[0], t);
      StepCounts(ctx, job, bridgeName, pkgs[0], t);
      RunPkgsCounts(ctx, job, bridgeName, pkgs[1..], s);
    }
  }

  lemma StepCounts(ctx: Context, job: Job, bridgeName: string, decl: Input.PkgDeclaration, t: Tally)
    ensures var o := PkgStep(ctx, job, bridgeName, decl, t);
      t.installed <= o.installed && t.removed <= o.removed &&
      (o.installed - t.installed) + (o.removed - t.removed) <= 1 &&
      (job == Remove ==> o.installed == t.installed) && (job != Remove ==> o.removed == t.removed)
  {
    match job
    case Install =>
      var c := Bridge.InstallSpec(ctx.runtime, ctx.bridges, bridgeName, decl, t.files);
      if c.result.Ok? {
        AddSpecCounts(ctx, job, bridgeName, c.result.value, t.(files := c.files));
      }
    case Update =>
      var c := Bridge.UpdateSpec(ctx.runtime, ctx.bridges, t.rows, bridgeName, decl, t.files);
      if c.result.Ok? {
        AddSpecCounts(ctx, job, bridgeName, c.result.value, t.(files := c.files));
      }
    case Remove =>
    case Reinstall =>
      var c := Bridge.InstallSpec(ctx.runtime, ctx.bridges, bridgeName, decl, t.files);
      if c.result.Ok? {
        var d := Bridge.RemoveSpec(ctx.runtime, ctx.bridges, t.rows, bridgeName, decl, c.files);
        if d.result.Ok? {
          AddSpecCounts(ctx, job, bridgeName, c.result.value, t.(files := d.files, rows := Db.DeleteAll(t.rows, [decl.name])));
        }
      }
  }

  // ---------------------------------------------------------------------------
  // The driver
  // ---------------------------------------------------------------------------

  /** The record table, the materializer and the bridge layer share one table and one disk. */
  predicate Wired(db: Db.Db, fs: Fs.Fs, api: Bridge.BridgeApi) {
    fs.db == db && api.db == db && api.disk == fs.disk
  }

  function ContextOf(fs: Fs.Fs, api: Bridge.BridgeApi): Context {
    Context(api.runtime, api.bridges, fs.targetDir, fs.loadPath)
  }

  /** Store a package the bridge returned, delete the old record for an update, and record it. */
  method AddPkg(job: Job, bridgeName: string, pkg: Db.Pkg, db: Db.Db, fs: Fs.Fs, api: Bridge.BridgeApi, t: Tally)
    returns (installed: nat)
    requires Wired(db, fs, api) && db.Valid()
    requires t.files == fs.disk.files && t.rows == db.rows
    modifies db, fs.disk
    ensures db.Valid()
    ensures var o := AddSpec(ContextOf(fs, api), job, bridgeName, pkg, t);
      fs.disk.files == o.files && db.rows == o.rows && installed == o.installed
  {
    var slot := new Db.Pkg[1] [pkg];
    assert slot[..] == [pkg];
    var stored := fs.StoreOrOverwrite(slot, Some(bridgeName));
    if stored.Err? {
      return t.installed;
    }
    var p := slot[0];
    if job == Job.Update {
      db.RemovePkgs([p.name]);
    }
    var inserted := db.InstallBridgePkgs([p], bridgeName);
    if inserted.Err? {
      return t.installed;
    }
    installed := t.installed + 1;
  }

  /** One package of one job: the bridge call, then storing and recording, or removing. */
  method StepPkg(job: Job, bridgeName: string, decl: Input.PkgDeclaration, db: Db.Db, fs: Fs.Fs, api: Bridge.BridgeApi, t: Tally)
    returns (o: Tally)
    requires Wired(db, fs, api) && db.Valid()
    requires t.files == fs.disk.files && t.rows == db.rows && t.stop.None?
    modifies db, fs.disk
    ensures db.Valid()
    ensures o == PkgStep(ContextOf(fs, api), job, bridgeName, decl, t)
    ensures o.files == fs.disk.files && o.rows == db.rows
  {
    match job {
      case Install =>
        var pkg := api.Install(bridgeName, decl);
        o := AddedPkg(job, bridgeName, pkg, db, fs, api, t.(files := fs.disk.files));
      case Update =>
        var pkg := api.Update(bridgeName, decl);
        o := AddedPkg(job, bridgeName, pkg, db, fs, api, t.(files := fs.disk.files));
      case Remove =>
        o := RemovePkg(bridgeName, decl, db, fs, api, t);
      case Reinstall =>
        o := ReinstallPkg(bridgeName, decl, db, fs, api, t);
    }
  }

  /** A package of a remove job: the bridge's remove, then the stored copy and the record. */
  method RemovePkg(bridgeName: string, decl: Input.PkgDeclaration, db: Db.Db, fs: Fs.Fs, api: Bridge.BridgeApi, t: Tally)
    returns (o: Tally)
    requires Wired(db, fs, api) && db.Valid()
    requires t.files == fs.disk.files && t.rows == db.rows && t.stop.None?
    modifies db, fs.disk
    ensures db.Valid()
    ensures o == PkgStep(ContextOf(fs, api), Remove, bridgeName, decl, t)
    ensures o.files == fs.disk.files && o.rows == db.rows
  {
    var answer := api.Remove(bridgeName, decl);
    if answer.Err? || !answer.value {
      return t.(files := fs.disk.files);
    }
    var cleared := fs.RemovePkgsCorrected([decl.name]);
    if cleared.Err? {
      return t.(files := fs.disk.files);
    }
    db.RemovePkgs([decl.name]);
    o := t.(files := fs.disk.files, rows := db.rows, removed := t.removed + 1);
  }

  /** A package of a reinstall job: install, remove, delete the record, then store and record. */
  method ReinstallPkg(bridgeName: string, decl: Input.PkgDeclaration, db: Db.Db, fs: Fs.Fs, api: Bridge.BridgeApi, t: Tally)
    returns (o: Tally)
    requires Wired(db, fs, api) && db.Valid()
    requires t.files == fs.disk.files && t.rows == db.rows && t.stop.None?
    modifies db, fs.disk
    ensures db.Valid()
    ensures o == PkgStep(ContextOf(fs, api), Reinstall, bridgeName, decl, t)
    ensures o.files == fs.disk.files && o.rows == db.rows
  {
    var pkg := api.Install(bridgeName, decl);
    if pkg.Err? {
      return t.(files := fs.disk.files, stop := Some(Ending(pkg.error)));
    }
    var answer := api.Remove(bridgeName, decl);
    if answer.Err? {
      return t.(files := fs.disk.files, stop := Some(Aborted(answer.error)));
    }
    // a failure to delete the record is only reported
    db.RemovePkgs([decl.name]);
    var installed := AddPkg(Reinstall, bridgeName, pkg.value, db, fs, api, t.(files := fs.disk.files, rows := db.rows));
    o := t.(files := fs.disk.files, rows := db.rows, installed := installed);
  }

  /** What follows an install or update call. */
  method AddedPkg(job: Job, bridgeName: string, pkg: Result<Db.Pkg, Bridge.BridgeError>, db: Db.Db, fs: Fs.Fs, api: Bridge.BridgeApi, t: Tally)
    returns (o: Tally)
    requires Wired(db, fs, api) && db.Valid()
    requires t.files == fs.disk.files && t.rows == db.rows
    modifies db, fs.disk
    ensures db.Valid()
    ensures o == Added(ContextOf(fs, api), job, bridgeName, Bridge.Called(t.files, pkg), t)
    ensures o.files == fs.disk.files && o.rows == db.rows
  {
    if pkg.Err? {
      if pkg.error == Bridge.VersionIndexPanic {
        return t.(stop := Some(Panicked));
      }
      return t;
    }
    var installed := AddPkg(job, bridgeName, pkg.value, db, fs, api, t);
    o := t.(files := fs.disk.files, rows := db.rows, installed := installed);
  }

  /** The packages of one job. */
  method RunJob(job: Job, bridgeName: string, pkgs: seq<Input.PkgDeclaration>, db: Db.Db, fs: Fs.Fs, api: Bridge.BridgeApi, t: Tally)
    returns (o: Tally)
    requires Wired(db, fs, api) && db.Valid()
    requires t.files == fs.disk.files && t.rows == db.rows && t.stop.None?
    modifies db, fs.disk
    ensures db.Valid()
    ensures o == RunPkgs(ContextOf(fs, api), job, bridgeName, pkgs, t)
    ensures o.files == fs.disk.files && o.rows == db.rows
  {
    ghost var ctx := ContextOf(fs, api);
    o := t;
    var i := 0;
    while i < |pkgs|
      invariant 0 <= i <= |pkgs|
      invariant db.Valid() && o.files == fs.disk.files && o.rows == db.rows
      invariant RunPkgs(ctx, job, bridgeName, pkgs[i..], o) == RunPkgs(ctx, job, bridgeName, pkgs, t)
      invariant o.stop.None?
    {
      ghost var before := o;
      o := StepPkg(job, bridgeName, pkgs[i], db, fs, api, o);
      assert RunPkgs(ctx, job, bridgeName, pkgs[i..], before) == RunPkgs(ctx, job, bridgeName, pkgs[i + 1..], o) by {
        assert pkgs[i..][0] == pkgs[i] && pkgs[i..][1..] == pkgs[i + 1..];
      }
      if o.stop.Some? {
        assert RunPkgs(ctx, job, bridgeName, pkgs[i + 1..], o) == o;
        return;
      }
      i := i + 1;
    }
    assert pkgs[i..] == [];
  }

  /** One bridge: split its packages, pick the jobs, and run them in order. */
  method RunBridgeGroup(cmd: Command, g: BridgeGroup, db: Db.Db, fs: Fs.Fs, api: Bridge.BridgeApi, t: Tally)
    returns (o: Tally)
    requires Wired(db, fs, api) && db.Valid()
    requires t.files == fs.disk.files && t.rows == db.rows && t.stop.None?
    modifies db, fs.disk
    ensures db.Valid()
    ensures o == RunBridge(ContextOf(fs, api), cmd, g, t)
    ensures o.files == fs.disk.files && o.rows == db.rows
  {
    var statuses := FilterPkgsByStatuses(db.rows, DeclNames(g.pkgs), g.pkgs, g.name);
    if statuses.Err? {
      return t.(stop := Some(FilterFailed(statuses.error)));
    }
    var jobs, updates := SelectJobs(cmd, statuses.value.installedInInput);
    o := RunJobList(g.name, statuses.value, updates, jobs, db, fs, api, t);
  }

  /** The job list of the command, and the packages an update works on. */
  method SelectJobs(cmd: Command, installed: seq<Input.PkgDeclaration>) returns (jobs: seq<Job>, updates: seq<Input.PkgDeclaration>)
    ensures jobs == JobsFor(cmd) && updates == UpdateSet(cmd, installed)
  {
    updates := installed;
    jobs := [];
    match cmd {
      case Build(update) =>
        if update {
          jobs := jobs + [Job.Update];
        }
        jobs := jobs + [Install];
        jobs := jobs + [Remove];
      case Rebuild =>
        jobs := jobs + [Install];
        jobs := jobs + [Remove];
        jobs := jobs + [Reinstall];
      case Update(packages) =>
        if packages.Some? {
          updates := NarrowUpdates(updates, packages.value);
        }
        jobs := jobs + [Job.Update];
    }
  }

  /** The jobs of one bridge in order; a job without packages is skipped. */
  method RunJobList(bridgeName: string, s: Statuses, updates: seq<Input.PkgDeclaration>, jobs: seq<Job>,
                    db: Db.Db, fs: Fs.Fs, api: Bridge.BridgeApi, t: Tally)
    returns (o: Tally)
    requires Wired(db, fs, api) && db.Valid()
    requires t.files == fs.disk.files && t.rows == db.rows && t.stop.None?
    modifies db, fs.disk
    ensures db.Valid()
    ensures o == RunJobs(ContextOf(fs, api), bridgeName, s, updates, jobs, t)
    ensures o.files == fs.disk.files && o.rows == db.rows
  {
    ghost var ctx := ContextOf(fs, api);
    o := t;
    var i := 0;
    while i < |jobs|
      invariant 0 <= i <= |jobs|
      invariant db.Valid() && o.files == fs.disk.files && o.rows == db.rows
      invariant RunJobs(ctx, bridgeName, s, updates, jobs[i..], o) == RunJobs(ctx, bridgeName, s, updates, jobs, t)
      invariant o.stop.None?
    {
      ghost var before := o;
      var pkgs := PkgsFor(jobs[i], s, updates);
      if |pkgs| > 0 {
        o := RunJob(jobs[i], bridgeName, pkgs, db, fs, api, o);
      }
      assert RunJobs(ctx, bridgeName, s, updates, jobs[i..], before) == RunJobs(ctx, bridgeName, s, updates, jobs[i + 1..], o) by {
        assert jobs[i..][0] == jobs[i] && jobs[i..][1..] == jobs[i + 1..];
      }
      if o.stop.Some? {
        assert RunJobs(ctx, bridgeName, s, updates, jobs[i + 1..], o) == o;
        return;
      }
      i := i + 1;
    }
    assert jobs[i..] == [];
  }

  /**
   * The `_` arm of main: every bridge in order, then the load path rebuilt from the
   * records; the two counters are what the summary prints.
   */
  method Run(cmd: Command, groups: seq<BridgeGroup>, db: Db.Db, fs: Fs.Fs, api: Bridge.BridgeApi)
    returns (o: Tally)
    requires Wired(db, fs, api) && db.Valid()
    modifies db, fs.disk
    ensures db.Valid()
    ensures o == RunAll(ContextOf(fs, api), cmd, groups, old(fs.disk.files), old(db.rows))
    ensures o.files == fs.disk.files && o.rows == db.rows
  {
    o := RunGroups(cmd, groups, db, fs, api, Tally(fs.disk.files, db.rows, 0, 0, None));
    if o.stop.Some? {
      return;
    }
    var linked := fs.LinkCorrected();
    if linked.Err? {
      return o.(files := fs.disk.files, stop := Some(LinkFailed(linked.error)));
    }
    o := o.(files := fs.disk.files);
  }

  /** Every bridge in input order, until the run stops. */
  method RunGroups(cmd: Command, groups: seq<BridgeGroup>, db: Db.Db, fs: Fs.Fs, api: Bridge.BridgeApi, t: Tally)
    returns (o: Tally)
    requires Wired(db, fs, api) && db.Valid()
    requires t.files == fs.disk.files && t.rows == db.rows && t.stop.None?
    modifies db, fs.disk
    ensures db.Valid()
    ensures o == RunBridges(ContextOf(fs, api), cmd, groups, t)
    ensures o.files == fs.disk.files && o.rows == db.rows
  {
    ghost var ctx := ContextOf(fs, api);
    o := t;
    var i := 0;
    while i < |groups|
      invariant 0 <= i <= |groups|
      invariant db.Valid() && o.files == fs.disk.files && o.rows == db.rows
      invariant RunBridges(ctx, cmd, groups[i..], o) == RunBridges(ctx, cmd, groups, t)
      invariant o.stop.None?
    {
      ghost var before := o;
      o := RunBridgeGroup(cmd, groups[i], db, fs, api, o);
      assert RunBridges(ctx, cmd, groups[i..], before) == RunBridges(ctx, cmd, groups[i + 1..], o) by {
        assert groups[i..][0] == groups[i] && groups[i..][1..] == groups[i + 1..];
      }
      if o.stop.Some? {
        assert RunBridges(ctx, cmd, groups[i + 1..], o) == o;
        return;
      }
      i := i + 1;
    }
    assert groups[i..] == [];
  }
}
