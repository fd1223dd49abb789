/**
 * The materializer (src/fs.rs): moving what a bridge produced into the target
 * directory, removing stored packages, and rebuilding the link farm in the load path
 * from the record table. The disk is a shared `Disk` object whose `files` map the
 * methods update; the record table is the same `Db` object the driver writes.
 */
module Fs {
  import opened Wrappers
  import opened Strings
  import opened Files
  import Db

  datatype FsError = Io(io: IoError) | LoadPathIsFile | Query(db: Db.DbError)

  /** The machine's filesystem, shared by the materializer, the bridges and the driver. */
  class Disk {
    var files: FileSystem

    constructor (files: FileSystem)
      ensures this.files == files
    {
      this.files := files;
    }
  }

  /** The filesystem after a call whose failure is ignored (`let _ = ...`). */
  function OrKeep(r: Result<FileSystem, IoError>, fs: FileSystem): FileSystem {
    if r.Ok? then r.value else fs
  }

  // ---------------------------------------------------------------------------
  // store_or_overwrite
  // ---------------------------------------------------------------------------

  /** `target_dir.join(bridge.unwrap_or(""))`: the directory a bridge's packages go to. */
  function StoreDir(targetDir: string, bridge: Option<string>): string {
    Join(targetDir, bridge.GetOr(""))
  }

  /** Where a package called `name` is stored. */
  function StoreTarget(targetDir: string, bridge: Option<string>, name: string): string {
    Join(StoreDir(targetDir, bridge), name)
  }

  /** Clearing the way: a directory (or a link to one) goes with `remove_dir_all`, anything else with `remove_file`. */
  function Clear(fs: FileSystem, target: string): Result<FileSystem, IoError> {
    if IsDir(fs, target) then RemoveDirAll(fs, target) else RemoveFile(fs, target)
  }

  /** The package record after its move to `target`: new path, entry point rewritten. */
  function Relocated(p: Db.Pkg, target: string): Db.Pkg {
    match p.pkgType
    case SingleExecutable => p.(path := target)
    case Directory(ep) => p.(path := target, pkgType := Db.Directory(ReplaceAll(ep, p.path, target)))
  }

  /** The disk after one step, and the step's outcome. */
  datatype Step = Step(files: FileSystem, result: Result<Db.Pkg, FsError>)

  /** One iteration of the store loop for package `p`. */
  function StoreOne(fs: FileSystem, targetDir: string, bridge: Option<string>, p: Db.Pkg): Step {
    var dir := StoreDir(targetDir, bridge);
    var made := if Exists(fs, dir) then Ok(fs) else CreateDirAll(fs, dir);
    if made.Err? then Step(fs, Err(Io(made.error)))
    else
      var target := Join(dir, p.name);
      var cleared := if Exists(made.value, target) then Clear(made.value, target) else Ok(made.value);
      if cleared.Err? then Step(made.value, Err(Io(cleared.error)))
      else
        var moved := Rename(cleared.value, p.path, target);
        if moved.Err? then Step(cleared.value, Err(Io(moved.error)))
        else Step(moved.value, Ok(Relocated(p, target)))
  }

  /** The disk, the package slice and the outcome after a whole call. */
  datatype Outcome = Outcome(files: FileSystem, pkgs: seq<Db.Pkg>, result: Result<(), FsError>)

  /** The store loop over `todo`, with `done` already moved; the first failure stops it. */
  function StoreFrom(fs: FileSystem, targetDir: string, bridge: Option<string>, done: seq<Db.Pkg>, todo: seq<Db.Pkg>): (o: Outcome)
    ensures |o.pkgs| == |done| + |todo|
    decreases |todo|
  {
    if todo == [] then Outcome(fs, done, Ok(()))
    else
      var s := StoreOne(fs, targetDir, bridge, todo[0]);
      if s.result.Err? then Outcome(s.files, done + todo, Err(s.result.error))
      else StoreFrom(s.files, targetDir, bridge, done + [s.result.value], todo[1..])
  }

  /** The spec of `StoreOrOverwrite`: make the target directory if missing, then the loop. */
  function Store(fs: FileSystem, targetDir: string, bridge: Option<string>, pkgs: seq<Db.Pkg>): (o: Outcome)
    ensures |o.pkgs| == |pkgs|
  {
    var made := if Exists(fs, targetDir) then Ok(fs) else CreateDirAll(fs, targetDir);
    if made.Err? then Outcome(fs, pkgs, Err(Io(made.error)))
    else StoreFrom(made.value, targetDir, bridge, [], pkgs)
  }

  /**
   * A stored package keeps its name and version and gets the path
   * `target_dir/bridge/name`; the entry that was at its old path is now at that target
   * (whatever was there before is gone), and nothing is left at the old path.
   */
  lemma StoreOneMoves(fs: FileSystem, targetDir: string, bridge: Option<string>, p: Db.Pkg)
    requires StoreOne(fs, targetDir, bridge, p).result.Ok?
    ensures var q := StoreOne(fs, targetDir, bridge, p).result.value;
      q.name == p.name && q.version == p.version && q.path == StoreTarget(targetDir, bridge, p.name)
    ensures var s := StoreOne(fs, targetDir, bridge, p);
      StoreTarget(targetDir, bridge, p.name) in s.files &&
      (p.path in fs ==> s.files[StoreTarget(targetDir, bridge, p.name)] == fs[p.path])
    ensures var s := StoreOne(fs, targetDir, bridge, p);
      p.path != StoreTarget(targetDir, bridge, p.name) ==> p.path !in s.files
  {
    var dir := StoreDir(targetDir, bridge);
    var made := if Exists(fs, dir) then Ok(fs) else CreateDirAll(fs, dir);
    var target := Join(dir, p.name);
    var cleared := if Exists(made.value, target) then Clear(made.value, target) else Ok(made.value);
    assert SubMap(cleared.value, made.value);
    assert SubMap(fs, made.value);
    RenameMoves(cleared.value, p.path, target);
  }

  /**
   * A single executable stays one; a directory package whose entry point is its old
   * path followed by `rest` (in which the old path does not occur again) gets the
   * entry point `target + rest`: the entry point keeps its place inside the package.
   */
  lemma StoreOneEntryPoint(fs: FileSystem, targetDir: string, bridge: Option<string>, p: Db.Pkg, rest: string)
    requires StoreOne(fs, targetDir, bridge, p).result.Ok?
    ensures p.pkgType.SingleExecutable? ==>
      StoreOne(fs, targetDir, bridge, p).result.value.pkgType == Db.SingleExecutable
    ensures p.pkgType == Db.Directory(p.path + rest) && p.path != [] && NoOccurrence(p.path, rest) ==>
      StoreOne(fs, targetDir, bridge, p).result.value.pkgType ==
        Db.Directory(StoreTarget(targetDir, bridge, p.name) + rest)
  {
    if p.pkgType == Db.Directory(p.path + rest) && p.path != [] && NoOccurrence(p.path, rest) {
      RelocatePrefix(p.path, rest, StoreTarget(targetDir, bridge, p.name));
    }
  }

  /** Every package of `ps` as it is after its move. */
  function StoredAll(targetDir: string, bridge: Option<string>, ps: seq<Db.Pkg>): (r: seq<Db.Pkg>)
    ensures |r| == |ps|
    decreases |ps|
  {
    if ps == [] then [] else [Relocated(ps[0], StoreTarget(targetDir, bridge, ps[0].name))] + StoredAll(targetDir, bridge, ps[1..])
  }

  /**
   * The store loop stops at the first failure: the first `k` packages have been moved
   * to their targets, the rest are untouched, and the call succeeds exactly when `k`
   * is all of them.
   */
  lemma {:induction false} StoreFromStops(fs: FileSystem, targetDir: string, bridge: Option<string>, done: seq<Db.Pkg>, todo: seq<Db.Pkg>)
    returns (k: nat)
    ensures k <= |todo|
    ensures StoreFrom(fs, targetDir, bridge, done, todo).pkgs == done + StoredAll(targetDir, bridge, todo[..k]) + todo[k..]
    ensures StoreFrom(fs, targetDir, bridge, done, todo).result.Ok? <==> k == |todo|
    decreases |todo|
  {
    if todo == [] {
      k := 0;
    } else {
      var s := StoreOne(fs, targetDir, bridge, todo[0]);
      if s.result.Err? {
        k := 0;
        assert todo[..0] == [] && todo[0..] == todo;
        assert done + [] == done;
      } else {
        var v := s.result.value;
        assert v == Relocated(todo[0], StoreTarget(targetDir, bridge, todo[0].name)) by {
          StoreOneResult(fs, targetDir, bridge, todo[0]);
        }
        var done' := done + [v];
        assert StoreFrom(fs, targetDir, bridge, done, todo) == StoreFrom(s.files, targetDir, bridge, done', todo[1..]);
        var k' := StoreFromStops(s.files, targetDir, bridge, done', todo[1..]);
        k := k' + 1;
        var moved := StoredAll(targetDir, bridge, todo[1..][..k']);
        assert StoredAll(targetDir, bridge, todo[..k]) == [v] + moved by {
          assert todo[1..][..k'] == todo[..k][1..];
          assert todo[..k][0] == todo[0];
        }
        assert todo[1..][k'..] == todo[k..];
        ConsRegroup(done, v, moved, todo[k..]);
      }
    }
  }

  lemma ConsRegroup<T>(a: seq<T>, x: T, m: seq<T>, t: seq<T>)
    ensures a + [x] + m + t == a + ([x] + m) + t
  {
  }

  /** A successful step yields the package as relocated to its store target. */
  lemma StoreOneResult(fs: FileSystem, targetDir: string, bridge: Option<string>, p: Db.Pkg)
    requires StoreOne(fs, targetDir, bridge, p).result.Ok?
    ensures StoreOne(fs, targetDir, bridge, p).result.value == Relocated(p, StoreTarget(targetDir, bridge, p.name))
  {
  }

  // ---------------------------------------------------------------------------
  // remove_pkgs
  // ---------------------------------------------------------------------------

  /** The disk after a removal loop and its outcome (was anything removed?). */
  datatype Removal = Removal(files: FileSystem, result: Result<bool, FsError>)

  /** The removal loop over target paths: clear each that exists; `removed` records whether any did. */
  function RemoveTargets(fs: FileSystem, targets: seq<string>, removed: bool): Removal
    decreases |targets|
  {
    if targets == [] then Removal(fs, Ok(removed))
    else if Exists(fs, targets[0]) then
      var cleared := Clear(fs, targets[0]);
      if cleared.Err? then Removal(fs, Err(Io(cleared.error)))
      else RemoveTargets(cleared.value, targets[1..], true)
    else RemoveTargets(fs, targets[1..], removed)
  }

  /** Some target path exists on the disk. */
  predicate AnyExists(fs: FileSystem, targets: seq<string>) {
    exists i | 0 <= i < |targets| :: Exists(fs, targets[i])
  }

  /**
   * The flag returned is true exactly when at least one target existed beforehand
   * (or the flag was already set); when it is false the disk is unchanged.
   */
  lemma {:induction false} RemoveTargetsReports(fs: FileSystem, targets: seq<string>, removed: bool)
    requires RemoveTargets(fs, targets, removed).result.Ok?
    ensures RemoveTargets(fs, targets, removed).result.value <==> removed || AnyExists(fs, targets)
    ensures !RemoveTargets(fs, targets, removed).result.value ==> RemoveTargets(fs, targets, removed).files == fs
    decreases |targets|
  {
    if targets != [] {
      if Exists(fs, targets[0]) {
        var cleared := Clear(fs, targets[0]);
        RemoveTargetsReports(cleared.value, targets[1..], true);
      } else {
        RemoveTargetsReports(fs, targets[1..], removed);
        if AnyExists(fs, targets) {
          var i :| 0 <= i < |targets| && Exists(fs, targets[i]);
          assert targets[1..][i - 1] == targets[i];
        }
        if AnyExists(fs, targets[1..]) {
          var i :| 0 <= i < |targets[1..]| && Exists(fs, targets[1..][i]);
          assert targets[i + 1] == targets[1..][i];
        }
      }
    }
  }

  /** The removal loop only ever deletes entries. */
  lemma {:induction false} RemoveTargetsShrinks(fs: FileSystem, targets: seq<string>, removed: bool)
    ensures SubMap(RemoveTargets(fs, targets, removed).files, fs)
    decreases |targets|
  {
    if targets != [] && Exists(fs, targets[0]) {
      var cleared := Clear(fs, targets[0]);
      if cleared.Ok? {
        RemoveTargetsShrinks(cleared.value, targets[1..], true);
      }
    } else if targets != [] {
      RemoveTargetsShrinks(fs, targets[1..], removed);
    }
  }

  /** After a successful removal loop no target path exists any more. */
  lemma {:induction false} RemoveTargetsClears(fs: FileSystem, targets: seq<string>, removed: bool)
    requires RemoveTargets(fs, targets, removed).result.Ok?
    ensures forall i | 0 <= i < |targets| :: !Exists(RemoveTargets(fs, targets, removed).files, targets[i])
    decreases |targets|
  {
    if targets != [] {
      var after := RemoveTargets(fs, targets, removed).files;
      var next := if Exists(fs, targets[0]) then Clear(fs, targets[0]).value else fs;
      assert after == RemoveTargets(next, targets[1..], Exists(fs, targets[0]) || removed).files;
      RemoveTargetsClears(next, targets[1..], Exists(fs, targets[0]) || removed);
      RemoveTargetsShrinks(next, targets[1..], Exists(fs, targets[0]) || removed);
      assert !Exists(next, targets[0]);
      ExistsSubMap(after, next, targets[0]);
      forall i | 1 <= i < |targets|
        ensures !Exists(after, targets[i])
      {
        assert targets[1..][i - 1] == targets[i];
      }
    }
  }

  /** `target_dir.join(name)` for every package: the paths `remove_pkgs` clears as written. */
  function NameTargets(targetDir: string, pkgs: seq<Db.Pkg>): (r: seq<string>)
    ensures |r| == |pkgs|
    ensures forall i | 0 <= i < |pkgs| :: r[i] == Join(targetDir, pkgs[i].name)
  {
    seq(|pkgs|, i requires 0 <= i < |pkgs| => Join(targetDir, pkgs[i].name))
  }

  /** The recorded path of every package: the paths the corrected removal clears. */
  function PathTargets(pkgs: seq<Db.Pkg>): (r: seq<string>)
    ensures |r| == |pkgs|
    ensures forall i | 0 <= i < |pkgs| :: r[i] == pkgs[i].path
  {
    seq(|pkgs|, i requires 0 <= i < |pkgs| => pkgs[i].path)
  }

  /** `get_pkgs_by_name`: nothing for no names, else the named rows decoded in table order. */
  function ByName(rows: seq<Db.Row>, names: seq<string>): Result<seq<Db.Pkg>, Db.DbError> {
    if names == [] then Ok([]) else Db.DecodeFrom([], Db.Selected(rows, names))
  }

  /** The spec of `RemovePkgs` as written: look the names up, then clear `target_dir/name`. */
  function RemoveAsWritten(fs: FileSystem, rows: seq<Db.Row>, targetDir: string, names: seq<string>): Removal {
    var pkgs := ByName(rows, names);
    if pkgs.Err? then Removal(fs, Err(Query(pkgs.error)))
    else RemoveTargets(fs, NameTargets(targetDir, pkgs.value), false)
  }

  /** The corrected removal: clear the path recorded for each named package. */
  function RemoveCorrected(fs: FileSystem, rows: seq<Db.Row>, names: seq<string>): Removal {
    var pkgs := ByName(rows, names);
    if pkgs.Err? then Removal(fs, Err(Query(pkgs.error)))
    else RemoveTargets(fs, PathTargets(pkgs.value), false)
  }

  /**
   * The store/remove mismatch: a package stored for bridge `cargo` lives at
   * `/opt/pkgs/cargo/ripgrep` and is recorded with that path, but removal as written
   * looks at `/opt/pkgs/ripgrep`; with nothing there it reports `false` and leaves
   * the disk, and with it the stored copy, as it was.
   */
  lemma RemoveMissesStoredCopy(fs: FileSystem, p: Db.Pkg)
    requires p.name == "ripgrep" && Db.StorableVersion(p.version)
    requires "/opt/pkgs/cargo/ripgrep" in fs && "/opt/pkgs/ripgrep" !in fs
    ensures StoreTarget("/opt/pkgs", Some("cargo"), "ripgrep") == "/opt/pkgs/cargo/ripgrep"
    ensures RemoveAsWritten(fs, [Db.EncodeRow(p, "cargo")], "/opt/pkgs", ["ripgrep"]) == Removal(fs, Ok(false))
  {
    ByNameSingle(p, "cargo");
    var targets := NameTargets("/opt/pkgs", [p]);
    assert Join("/opt/pkgs", "ripgrep") == "/opt/pkgs/ripgrep";
    assert targets == ["/opt/pkgs/ripgrep"];
    assert !Exists(fs, "/opt/pkgs/ripgrep");
    assert RemoveTargets(fs, targets, false) == RemoveTargets(fs, targets[1..], false);
    assert targets[1..] == [];
  }

  /**
   * Worse: a package named like a bridge. `cargo` installed through bridge `nix` is
   * stored at `/opt/pkgs/nix/cargo`, but removal as written clears `/opt/pkgs/cargo`,
   * the whole store directory of bridge `cargo`, and reports success.
   */
  lemma RemoveWipesBridgeStore(p: Db.Pkg)
    requires p.name == "cargo" && Db.StorableVersion(p.version)
    ensures StoreTarget("/opt/pkgs", Some("nix"), "cargo") == "/opt/pkgs/nix/cargo"
    ensures RemoveAsWritten(map["/opt/pkgs/cargo" := Dir, "/opt/pkgs/cargo/ripgrep" := File],
                            [Db.EncodeRow(p, "nix")], "/opt/pkgs", ["cargo"]) == Removal(map[], Ok(true))
  {
    var fs: FileSystem := map["/opt/pkgs/cargo" := Dir, "/opt/pkgs/cargo/ripgrep" := File];
    ByNameSingle(p, "nix");
    var targets := NameTargets("/opt/pkgs", [p]);
    assert Join("/opt/pkgs", "cargo") == "/opt/pkgs/cargo";
    assert targets == ["/opt/pkgs/cargo"];
    assert Resolve(fs, "/opt/pkgs/cargo", MAX_SYMLINK_HOPS) == Some(Dir);
    var gone := RemoveDirAll(fs, "/opt/pkgs/cargo");
    assert Within("/opt/pkgs/cargo", "/opt/pkgs/cargo/ripgrep") by {
      assert "/opt/pkgs/cargo" + "/" <= "/opt/pkgs/cargo/ripgrep";
    }
    assert "/opt/pkgs/cargo/ripgrep" !in gone.value;
    assert gone.value.Keys <= fs.Keys - {"/opt/pkgs/cargo", "/opt/pkgs/cargo/ripgrep"};
    assert gone.value == map[];
    assert RemoveTargets(fs, targets, false) == RemoveTargets(map[], targets[1..], true);
    assert targets[1..] == [];
  }

  /** As written, a plain file at the load path makes linking fail with `remove_dir_all`'s error. */
  lemma LinkAsWrittenFailsOnFile(fs: FileSystem, loadPath: string, rows: seq<Db.Row>)
    requires Db.DecodeFrom([], rows).Ok?
    requires loadPath in fs && fs[loadPath] == File
    ensures LinkWith(fs, loadPath, rows, false) == Linked(fs, Err(Io(NotADirectory(loadPath))))
  {
  }

  /** The lookup by name finds the one package a single row records. */
  lemma ByNameSingle(p: Db.Pkg, bridge: string)
    requires Db.StorableVersion(p.version)
    ensures ByName([Db.EncodeRow(p, bridge)], [p.name]) == Ok([p])
  {
    var rows := [Db.EncodeRow(p, bridge)];
    Db.RowRoundTrip(p, bridge);
    assert Db.Selected(rows, [p.name]) == rows by {
      Db.SelectedCons(rows, [p.name]);
      assert rows[1..] == [];
    }
    Db.DecodeFromCons([], rows[0], []);
    assert [rows[0]] + [] == rows;
    assert Db.DecodeFrom([p], []) == Ok([p]);
    assert [] + [p] == [p];
  }

  /**
   * The corrected removal clears the recorded path of every named package, which for
   * a package the driver stored and recorded is its store target, and it reports
   * whether any of them existed.
   */
  lemma RemoveCorrectedClears(fs: FileSystem, rows: seq<Db.Row>, names: seq<string>)
    requires RemoveCorrected(fs, rows, names).result.Ok?
    ensures var pkgs := ByName(rows, names).value;
      forall p | p in pkgs :: !Exists(RemoveCorrected(fs, rows, names).files, p.path)
    ensures var pkgs := ByName(rows, names).value;
      RemoveCorrected(fs, rows, names).result.value <==> AnyExists(fs, PathTargets(pkgs))
  {
    var pkgs := ByName(rows, names).value;
    RemoveTargetsClears(fs, PathTargets(pkgs), false);
    RemoveTargetsReports(fs, PathTargets(pkgs), false);
    forall p | p in pkgs
      ensures !Exists(RemoveCorrected(fs, rows, names).files, p.path)
    {
      var i :| 0 <= i < |pkgs| && pkgs[i] == p;
      assert PathTargets(pkgs)[i] == p.path;
    }
  }

  // ---------------------------------------------------------------------------
  // link
  // ---------------------------------------------------------------------------

  /** What `load_path/name` should point at: the path, or the entry point of a directory package. */
  function LinkSource(p: Db.Pkg): string {
    match p.pkgType
    case SingleExecutable => p.path
    case Directory(ep) => ep
  }

  function LinkTarget(loadPath: string, p: Db.Pkg): string {
    Join(loadPath, p.name)
  }

  /** The disk after a link step and its outcome. */
  datatype Linked = Linked(files: FileSystem, result: Result<(), FsError>)

  /** The link loop: remove what exists at each target, then make the link; the first failure stops it. */
  function LinkFrom(fs: FileSystem, loadPath: string, pkgs: seq<Db.Pkg>): Linked
    decreases |pkgs|
  {
    if pkgs == [] then Linked(fs, Ok(()))
    else
      var target := LinkTarget(loadPath, pkgs[0]);
      var cleared := if Exists(fs, target) then RemoveFile(fs, target) else Ok(fs);
      if cleared.Err? then Linked(fs, Err(Io(cleared.error)))
      else
        var made := MakeSymlink(cleared.value, LinkSource(pkgs[0]), target);
        if made.Err? then Linked(cleared.value, Err(Io(made.error)))
        else LinkFrom(made.value, loadPath, pkgs[1..])
  }

  /** No later package links to the same target as package `i`. */
  predicate LastAtTarget(loadPath: string, pkgs: seq<Db.Pkg>, i: int)
    requires 0 <= i < |pkgs|
  {
    forall j | i < j < |pkgs| :: LinkTarget(loadPath, pkgs[j]) != LinkTarget(loadPath, pkgs[i])
  }

  /** No package of `pkgs` links to `q`. */
  predicate Untargeted(loadPath: string, pkgs: seq<Db.Pkg>, q: string) {
    forall j | 0 <= j < |pkgs| :: LinkTarget(loadPath, pkgs[j]) != q
  }

  /** The link loop leaves every path that is not one of its targets as it was. */
  lemma {:induction false} LinkFromFrame(fs: FileSystem, loadPath: string, pkgs: seq<Db.Pkg>, q: string)
    requires LinkFrom(fs, loadPath, pkgs).result.Ok?
    requires Untargeted(loadPath, pkgs, q)
    ensures q in fs <==> q in LinkFrom(fs, loadPath, pkgs).files
    ensures q in fs ==> LinkFrom(fs, loadPath, pkgs).files[q] == fs[q]
    decreases |pkgs|
  {
    if pkgs != [] {
      var target := LinkTarget(loadPath, pkgs[0]);
      var cleared := if Exists(fs, target) then RemoveFile(fs, target) else Ok(fs);
      var made := MakeSymlink(cleared.value, LinkSource(pkgs[0]), target);
      assert target != q;
      assert Untargeted(loadPath, pkgs[1..], q) by {
        forall j | 0 <= j < |pkgs[1..]| ensures LinkTarget(loadPath, pkgs[1..][j]) != q {
          assert pkgs[1..][j] == pkgs[j + 1];
        }
      }
      LinkFromFrame(made.value, loadPath, pkgs[1..], q);
    }
  }

  /**
   * After a successful link loop, the target of every package (the last one, when
   * several share a target) is a symbolic link to its path or entry point.
   */
  lemma {:induction false} LinkFromLinks(fs: FileSystem, loadPath: string, pkgs: seq<Db.Pkg>)
    requires LinkFrom(fs, loadPath, pkgs).result.Ok?
    ensures forall i | 0 <= i < |pkgs| && LastAtTarget(loadPath, pkgs, i) ::
      LinkTarget(loadPath, pkgs[i]) in LinkFrom(fs, loadPath, pkgs).files &&
      LinkFrom(fs, loadPath, pkgs).files[LinkTarget(loadPath, pkgs[i])] == Symlink(LinkSource(pkgs[i]))
    decreases |pkgs|
  {
    if pkgs != [] {
      var target := LinkTarget(loadPath, pkgs[0]);
      var cleared := if Exists(fs, target) then RemoveFile(fs, target) else Ok(fs);
      var made := MakeSymlink(cleared.value, LinkSource(pkgs[0]), target);
      var after := LinkFrom(fs, loadPath, pkgs).files;
      assert after == LinkFrom(made.value, loadPath, pkgs[1..]).files;
      LinkFromLinks(made.value, loadPath, pkgs[1..]);
      forall i | 0 <= i < |pkgs| && LastAtTarget(loadPath, pkgs, i)
        ensures LinkTarget(loadPath, pkgs[i]) in after && after[LinkTarget(loadPath, pkgs[i])] == Symlink(LinkSource(pkgs[i]))
      {
        if i == 0 {
          assert Untargeted(loadPath, pkgs[1..], target) by {
            forall j | 0 <= j < |pkgs[1..]| ensures LinkTarget(loadPath, pkgs[1..][j]) != target {
              assert pkgs[1..][j] == pkgs[j + 1];
            }
          }
          LinkFromFrame(made.value, loadPath, pkgs[1..], target);
        } else {
          assert pkgs[1..][i - 1] == pkgs[i];
          assert LastAtTarget(loadPath, pkgs[1..], i - 1) by {
            forall j | i - 1 < j < |pkgs[1..]|
              ensures LinkTarget(loadPath, pkgs[1..][j]) != LinkTarget(loadPath, pkgs[1..][i - 1])
            {
              assert pkgs[1..][j] == pkgs[j + 1];
            }
          }
        }
      }
    }
  }

  /**
   * Preparing the load path as written: create it if missing; refuse an existing
   * directory (`LoadPathIsFile`); otherwise `remove_dir_all` it and create it again.
   * `remove_dir_all` refuses a plain file, so that case fails with an I/O error, and
   * only a symbolic link to a non-directory is replaced. Once removed, nothing is left
   * at the path, so creating it again cannot fail in this model.
   */
  function PrepareAsWritten(fs: FileSystem, loadPath: string): Linked {
    if !Exists(fs, loadPath) then
      var made := CreateDirAll(fs, loadPath);
      if made.Err? then Linked(fs, Err(Io(made.error))) else Linked(made.value, Ok(()))
    else if !IsDir(fs, loadPath) then
      var gone := RemoveDirAll(fs, loadPath);
      if gone.Err? then Linked(fs, Err(Io(gone.error)))
      else Linked(CreateDirAll(gone.value, loadPath).value, Ok(()))
    else Linked(fs, Err(LoadPathIsFile))
  }

  /** Preparing the load path as intended: create it if missing, refuse a non-directory, empty an existing directory. */
  function PrepareCorrected(fs: FileSystem, loadPath: string): Linked {
    if !Exists(fs, loadPath) then
      var made := CreateDirAll(fs, loadPath);
      if made.Err? then Linked(fs, Err(Io(made.error))) else Linked(made.value, Ok(()))
    else if !IsDir(fs, loadPath) then Linked(fs, Err(LoadPathIsFile))
    else
      var gone := RemoveDirAll(fs, loadPath);
      if gone.Err? then Linked(fs, Err(Io(gone.error)))
      else Linked(CreateDirAll(gone.value, loadPath).value, Ok(()))
  }

  /** Read every record, prepare the load path, then link each record. */
  function LinkWith(fs: FileSystem, loadPath: string, rows: seq<Db.Row>, corrected: bool): Linked {
    var pkgs := Db.DecodeFrom([], rows);
    if pkgs.Err? then Linked(fs, Err(Query(pkgs.error)))
    else
      var prep := if corrected then PrepareCorrected(fs, loadPath) else PrepareAsWritten(fs, loadPath);
      if prep.result.Err? then prep else LinkFrom(prep.files, loadPath, pkgs.value)
  }

  /**
   * As written, linking refuses a load path that is an existing directory, and the
   * materializer's constructor has just made it one: whenever that creation succeeded,
   * linking fails with `LoadPathIsFile` and changes nothing.
   */
  lemma LinkAsWrittenRefusesDirectory(fs0: FileSystem, targetDir: string, loadPath: string, rows: seq<Db.Row>)
    requires Db.DecodeFrom([], rows).Ok?
    requires CreateDirAll(OrKeep(CreateDirAll(fs0, targetDir), fs0), loadPath).Ok?
    ensures var fs := OrKeep(CreateDirAll(OrKeep(CreateDirAll(fs0, targetDir), fs0), loadPath), OrKeep(CreateDirAll(fs0, targetDir), fs0));
      LinkWith(fs, loadPath, rows, false) == Linked(fs, Err(LoadPathIsFile))
  {
  }

  /**
   * The corrected preparation accepts an existing directory and empties it: afterwards
   * the load path is a directory and nothing lies below it.
   */
  lemma PrepareCorrectedEmptiesDirectory(fs: FileSystem, loadPath: string)
    requires loadPath in fs && fs[loadPath] == Dir
    ensures PrepareCorrected(fs, loadPath).result.Ok?
    ensures IsDir(PrepareCorrected(fs, loadPath).files, loadPath)
    ensures forall q | q in PrepareCorrected(fs, loadPath).files :: q == loadPath || !Within(loadPath, q)
  {
    assert Resolve(fs, loadPath, MAX_SYMLINK_HOPS) == Some(Dir);
    var gone := RemoveDirAll(fs, loadPath);
    assert loadPath !in gone.value;
  }

  /** No record name is an absolute path. */
  predicate RelativeNames(rows: seq<Db.Row>) {
    forall i | 0 <= i < |rows| :: !(|rows[i].name| > 0 && rows[i].name[0] == '/')
  }

  /**
   * After a successful corrected link, every record (names being unique and
   * relative) has `load_path/name` pointing at its path or entry point.
   */
  lemma LinkCorrectedLinksAll(fs: FileSystem, loadPath: string, rows: seq<Db.Row>)
    requires Db.UniqueNames(rows) && RelativeNames(rows)
    requires LinkWith(fs, loadPath, rows, true).result.Ok?
    ensures forall p | p in Db.DecodeFrom([], rows).value ::
      LinkTarget(loadPath, p) in LinkWith(fs, loadPath, rows, true).files &&
      LinkWith(fs, loadPath, rows, true).files[LinkTarget(loadPath, p)] == Symlink(LinkSource(p))
  {
    var pkgs := Db.DecodeFrom([], rows).value;
    var prep := PrepareCorrected(fs, loadPath);
    var after := LinkWith(fs, loadPath, rows, true);
    assert prep.result.Ok? && after == LinkFrom(prep.files, loadPath, pkgs);
    LinkFromLinks(prep.files, loadPath, pkgs);
    assert DistinctTargets(loadPath, pkgs) by {
      DecodedDistinctTargets(loadPath, rows);
    }
    forall p | p in pkgs
      ensures LinkTarget(loadPath, p) in after.files && after.files[LinkTarget(loadPath, p)] == Symlink(LinkSource(p))
    {
      var i :| 0 <= i < |pkgs| && pkgs[i] == p;
      assert LastAtTarget(loadPath, pkgs, i);
    }
  }

  /** No two packages link to the same target. */
  predicate DistinctTargets(loadPath: string, pkgs: seq<Db.Pkg>) {
    forall i, j | 0 <= i < j < |pkgs| :: LinkTarget(loadPath, pkgs[j]) != LinkTarget(loadPath, pkgs[i])
  }

  /** Records with unique, relative names read back as packages with distinct link targets. */
  lemma DecodedDistinctTargets(loadPath: string, rows: seq<Db.Row>)
    requires Db.UniqueNames(rows) && RelativeNames(rows)
    requires Db.DecodeFrom([], rows).Ok?
    ensures DistinctTargets(loadPath, Db.DecodeFrom([], rows).value)
  {
    var pkgs := Db.DecodeFrom([], rows).value;
    Db.DecodeFromShape([], rows);
    forall i, j | 0 <= i < j < |pkgs|
      ensures LinkTarget(loadPath, pkgs[j]) != LinkTarget(loadPath, pkgs[i])
    {
      assert Db.DecodeRow(rows[i]) == Ok(pkgs[i]) && Db.DecodeRow(rows[j]) == Ok(pkgs[j]);
      if LinkTarget(loadPath, pkgs[j]) == LinkTarget(loadPath, pkgs[i]) {
        JoinInjective(loadPath, pkgs[j].name, pkgs[i].name);
      }
    }
  }

  // ---------------------------------------------------------------------------
  // The materializer
  // ---------------------------------------------------------------------------

  class Fs {
    const targetDir: string
    const loadPath: string
    const db: Db.Db
    const disk: Disk

    /** Fs::new: both directories are created, a failure to create either is ignored. */
    constructor (targetDir: string, loadPath: string, db: Db.Db, disk: Disk)
      modifies disk
      ensures this.targetDir == targetDir && this.loadPath == loadPath && this.db == db && this.disk == disk
      ensures var made := OrKeep(CreateDirAll(old(disk.files), targetDir), old(disk.files));
        disk.files == OrKeep(CreateDirAll(made, loadPath), made)
    {
      this.targetDir := targetDir;
      this.loadPath := loadPath;
      this.db := db;
      this.disk := disk;
      new;
      var made := CreateDirAll(disk.files, targetDir);
      if made.Ok? {
        disk.files := made.value;
      }
      made := CreateDirAll(disk.files, loadPath);
      if made.Ok? {
        disk.files := made.value;
      }
    }

    /**
     * store_or_overwrite: each package in turn is moved to `target_dir/bridge/name`,
     * replacing what was there, and its slot is updated to the moved package; the
     * first failure stops the loop.
     */
    method StoreOrOverwrite(pkgs: array<Db.Pkg>, bridge: Option<string>) returns (r: Result<(), FsError>)
      modifies disk, pkgs
      ensures var o := Store(old(disk.files), targetDir, bridge, old(pkgs[..]));
        disk.files == o.files && pkgs[..] == o.pkgs && r == o.result
    {
      if !Exists(disk.files, targetDir) {
        var made := CreateDirAll(disk.files, targetDir);
        if made.Err? {
          return Err(Io(made.error));
        }
        disk.files := made.value;
      }
      r := StoreLoop(pkgs, bridge);
    }

    /** The loop of store_or_overwrite, once the target directory exists. */
    method StoreLoop(pkgs: array<Db.Pkg>, bridge: Option<string>) returns (r: Result<(), FsError>)
      modifies disk, pkgs
      ensures var o := StoreFrom(old(disk.files), targetDir, bridge, [], old(pkgs[..]));
        disk.files == o.files && pkgs[..] == o.pkgs && r == o.result
    {
      ghost var orig := pkgs[..];
      var i := 0;
      while i < pkgs.Length
        invariant 0 <= i <= pkgs.Length
        invariant pkgs[i..] == orig[i..]
        invariant StoreFrom(disk.files, targetDir, bridge, pkgs[..i], orig[i..]) ==
          StoreFrom(old(disk.files), targetDir, bridge, [], orig)
      {
        ghost var done := pkgs[..i];
        assert orig[i..][0] == pkgs[i] && orig[i..][1..] == orig[i + 1..];
        var stored := StoreEach(pkgs[i], bridge);
        if stored.Err? {
          assert done + orig[i..] == pkgs[..];
          return Err(stored.error);
        }
        pkgs[i] := stored.value;
        assert pkgs[..i + 1] == done + [stored.value];
        i := i + 1;
      }
      assert pkgs[..i] == pkgs[..];
      r := Ok(());
    }

    /** One iteration of the store loop: the package moved, or the failure that stops the loop. */
    method StoreEach(pkg: Db.Pkg, bridge: Option<string>) returns (r: Result<Db.Pkg, FsError>)
      modifies disk
      ensures StoreOne(old(disk.files), targetDir, bridge, pkg) == Step(disk.files, r)
    {
      var dir := Join(targetDir, bridge.GetOr(""));
      if !Exists(disk.files, dir) {
        var made := CreateDirAll(disk.files, dir);
        if made.Err? {
          return Err(Io(made.error));
        }
        disk.files := made.value;
      }
      var target := Join(dir, pkg.name);
      if Exists(disk.files, target) {
        var cleared := Clear(disk.files, target);
        if cleared.Err? {
          return Err(Io(cleared.error));
        }
        disk.files := cleared.value;
      }
      var moved := Rename(disk.files, pkg.path, target);
      if moved.Err? {
        return Err(Io(moved.error));
      }
      disk.files := moved.value;
      var relocated := pkg;
      if pkg.pkgType.Directory? {
        var entryPoint := ReplaceAll(pkg.pkgType.entryPoint, pkg.path, target);
        relocated := relocated.(pkgType := Db.Directory(entryPoint));
      }
      relocated := relocated.(path := target);
      r := Ok(relocated);
    }

    /**
     * remove_pkgs as written: the named records are read, and `target_dir/name` is
     * cleared for each that exists; the flag says whether any did.
     */
    method RemovePkgs(names: seq<string>) returns (r: Result<bool, FsError>)
      modifies disk
      ensures var o := RemoveAsWritten(old(disk.files), db.rows, targetDir, names);
        disk.files == o.files && r == o.result
    {
      var pkgs := db.GetPkgsByName(names);
      if pkgs.Err? {
        return Err(Query(pkgs.error));
      }
      var targets := seq(|pkgs.value|, i requires 0 <= i < |pkgs.value| => Join(targetDir, pkgs.value[i].name));
      r := ClearTargets(targets);
    }

    /** The corrected removal: the recorded path of each named package is cleared. */
    method RemovePkgsCorrected(names: seq<string>) returns (r: Result<bool, FsError>)
      modifies disk
      ensures var o := RemoveCorrected(old(disk.files), db.rows, names);
        disk.files == o.files && r == o.result
    {
      var pkgs := db.GetPkgsByName(names);
      if pkgs.Err? {
        return Err(Query(pkgs.error));
      }
      var targets := seq(|pkgs.value|, i requires 0 <= i < |pkgs.value| => pkgs.value[i].path);
      r := ClearTargets(targets);
    }

    /** The removal loop shared by both versions of remove_pkgs. */
    method ClearTargets(targets: seq<string>) returns (r: Result<bool, FsError>)
      modifies disk
      ensures var o := RemoveTargets(old(disk.files), targets, false);
        disk.files == o.files && r == o.result
    {
      var removed := false;
      var i := 0;
      while i < |targets|
        invariant 0 <= i <= |targets|
        invariant RemoveTargets(disk.files, targets[i..], removed) == RemoveTargets(old(disk.files), targets, false)
      {
        assert targets[i..][0] == targets[i] && targets[i..][1..] == targets[i + 1..];
        if Exists(disk.files, targets[i]) {
          var cleared := Clear(disk.files, targets[i]);
          if cleared.Err? {
            return Err(Io(cleared.error));
          }
          disk.files := cleared.value;
          removed := true;
        }
        i := i + 1;
      }
      r := Ok(removed);
    }

    /**
     * link as written: read every record, prepare the load path (refusing an existing
     * directory), then link `load_path/name` for each record.
     */
    method Link() returns (r: Result<(), FsError>)
      modifies disk
      ensures var o := LinkWith(old(disk.files), loadPath, db.rows, false);
        disk.files == o.files && r == o.result
    {
      var pkgs := db.GetPkgs();
      if pkgs.Err? {
        return Err(Query(pkgs.error));
      }
      if !Exists(disk.files, loadPath) {
        var made := CreateDirAll(disk.files, loadPath);
        if made.Err? {
          return Err(Io(made.error));
        }
        disk.files := made.value;
      } else if !IsDir(disk.files, loadPath) {
        var gone := RemoveDirAll(disk.files, loadPath);
        if gone.Err? {
          return Err(Io(gone.error));
        }
        disk.files := gone.value;
        // nothing is left at the load path, so creating it cannot fail
        var made := CreateDirAll(disk.files, loadPath);
        disk.files := made.value;
      } else {
        return Err(LoadPathIsFile);
      }
      r := LinkEach(pkgs.value);
    }

    /** The corrected link: an existing directory is emptied and refilled; anything else there is refused. */
    method LinkCorrected() returns (r: Result<(), FsError>)
      modifies disk
      ensures var o := LinkWith(old(disk.files), loadPath, db.rows, true);
        disk.files == o.files && r == o.result
    {
      var pkgs := db.GetPkgs();
      if pkgs.Err? {
        return Err(Query(pkgs.error));
      }
      if !Exists(disk.files, loadPath) {
        var made := CreateDirAll(disk.files, loadPath);
        if made.Err? {
          return Err(Io(made.error));
        }
        disk.files := made.value;
      } else if !IsDir(disk.files, loadPath) {
        return Err(LoadPathIsFile);
      } else {
        var gone := RemoveDirAll(disk.files, loadPath);
        if gone.Err? {
          return Err(Io(gone.error));
        }
        disk.files := gone.value;
        // nothing is left at the load path, so creating it cannot fail
        var made := CreateDirAll(disk.files, loadPath);
        disk.files := made.value;
      }
      r := LinkEach(pkgs.value);
    }

    /** The link loop shared by both versions of link. */
    method LinkEach(pkgs: seq<Db.Pkg>) returns (r: Result<(), FsError>)
      modifies disk
      ensures var o := LinkFrom(old(disk.files), loadPath, pkgs);
        disk.files == o.files && r == o.result
    {
      var i := 0;
      while i < |pkgs|
        invariant 0 <= i <= |pkgs|
        invariant LinkFrom(disk.files, loadPath, pkgs[i..]) == LinkFrom(old(disk.files), loadPath, pkgs)
      {
        assert pkgs[i..][0] == pkgs[i] && pkgs[i..][1..] == pkgs[i + 1..];
        var target := Join(loadPath, pkgs[i].name);
        if Exists(disk.files, target) {
          var cleared := RemoveFile(disk.files, target);
          if cleared.Err? {
            return Err(Io(cleared.error));
          }
          disk.files := cleared.value;
        }
        var source := match pkgs[i].pkgType
          case SingleExecutable => pkgs[i].path
          case Directory(ep) => ep;
        var made := MakeSymlink(disk.files, source, target);
        if made.Err? {
          return Err(Io(made.error));
        }
        disk.files := made.value;
        i := i + 1;
      }
      r := Ok(());
    }
  }
}
