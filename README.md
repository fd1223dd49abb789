# pkg — a verified model of the reconciliation engine

`pkg` is a declarative package manager. The user lists packages in `*.kdl` input files,
grouped under *bridge* nodes. A bridge is a Lua script (`<bridge-set>/<name>/main.lua`)
whose returned table holds an `install` function and, optionally, `remove` and `update`.
On `build`, `rebuild` or `update`, the program does the following:
- it reads its KDL configuration;
- it collects the declarations;
- it loads only the bridges the inputs name;
- for each bridge, it compares the declarations with the SQLite record table and runs
  the jobs the command calls for;
- it moves each produced package into `target_dir/<bridge>/<name>` and records it;
- it removes what is no longer declared;
- it rebuilds a link farm `load_path/<name>` for every record.

This project models that core in Dafny and proves what the code promises about it. It has
one module per source file:

| module | source | form |
|---|---|---|
| `Config` | `src/config.rs` | functions over a KDL node tree; `GetAndStoreChildren` returns the extended map |
| `Input` | `src/input.rs` | loop methods (`DetectPkgKdlFiles`, `ParseAttributes`, `ParsePkg`, `ParseBridges`), each proved equal to a recursive specification function |
| `Db` | `src/db.rs` | class `Db` holding the record table as a `seq<Row>`, keyed by name; pure version and type codecs |
| `Bridge` | `src/bridge.rs` | class `BridgeApi`; the Lua runtime is an oracle (`Runtime`) |
| `Fs` | `src/fs.rs` | class `Fs` over a `Disk` object whose `files` map the methods update |
| `Driver` | `src/main.rs` | `filter_pkgs_by_statuses` as functions, and the job driver as methods over the `Db`, `Fs` and `BridgeApi` objects |

There are also helper modules:
- `Files` models the std::fs calls the code makes over a path → `File | Dir | Symlink` map.
- `Kdl` and `DirTree` model parsed documents and `read_dir` walks as trees.
- `Strings` models the string and path helpers (`split`, `replace`, `Path::join`,
  `file_stem`, `extension`).

Facts about the code that shape the model:
- There is no subprocess, environment-variable or sentinel plugin protocol. Bridges are
  in-process Lua functions.
- `main.rs` reads `bridge.pkgs` from `input::Bridge`, which has only a `name`. The driver
  therefore takes bridge groups `BridgeGroup(name, pkgs)`.
- `rebuild` runs Install, Remove, Reinstall, in that order.
- The version split in `convert_lua_table_to_pkg` indexes `[0..2]` without a check. Fewer
  than three pieces panics, and the model ends the run (`Stop.Panicked`). Extra pieces
  are dropped.

## Model

| member | source | states |
|---|---|---|
| `Db.DecodeVersion` | src/db.rs:226-229 | a version cell reads back exactly when it splits on `.` into three pieces, and no piece then holds a `.` |
| `Db.VersionRoundTrip` | src/db.rs:174-177 | writing `first.second.third` and reading it back returns the same version iff no cell contains `.` |
| `Db.VersionColumnCanonical` | src/db.rs:226-229 | any version column that reads back is exactly the text written for the version read |
| `Db.DecodeType` | src/db.rs:232-236 | only the tags `SingleExecutable` and `Directory` decode; any other tag is refused |
| `Db.TypeRoundTrip` | src/db.rs:179-189 | tag and entry point decode back to the package type; an executable's entry-point column is its path |
| `Db.EncodeRow` | src/db.rs:184-199 | the row carries the package's name and path and the owning bridge |
| `Db.DecodeRow` | src/db.rs:238-247 | a decoded row keeps name and path; a malformed version or tag is `InvalidQuery` |
| `Db.RowRoundTrip` | src/db.rs:170-199 | a stored package reads back unchanged iff its version cells contain no `.` |
| `Db.InsertUnique` | src/db.rs:57-65 | inserting keeps the primary key: names stay unique |
| `Db.InsertSucceeds` | src/db.rs:170-203 | a batch insert succeeds iff no name is taken or repeated, and then appends the encoded rows in order |
| `Db.InsertStops` | src/db.rs:191-199 | a failing batch stops at the first clashing package `k`: the rows before `k` stay inserted and the error names `k` |
| `Db.DeleteAllKeepsOthers` | src/db.rs:205-213 | deleting by names keeps every other row, in order |
| `Db.DeleteAbsentNoop` | src/db.rs:205-213 | deleting names that have no record changes nothing and is no error |
| `Db.DeleteAllExact` | src/db.rs:205-213 | a row survives iff it was there and its name is not listed |
| `Db.KeepUnique` | src/db.rs:205-213 | deleting keeps names unique |
| `Db.DecodeFromShape` | src/db.rs:215-257 | reading all records succeeds iff every row decodes, and gives one package per row, in table order |
| `Db.BridgeOf` | src/db.rs:140-151 | the owner lookup fails with `QueryReturnedNoRows` exactly when no record has the name |
| `Db.BridgeOfRow` | src/db.rs:140-151 | with unique names, the lookup returns the bridge stored in that record |
| `Db.Db.constructor` | src/db.rs:55-66 | a newly created table has no records, so the primary key holds |
| `Db.Db.InstallBridgePkgs` | src/db.rs:170-203 | the table and result are those of the batch insert (see `InsertSucceeds`, `InsertStops`), and names stay unique |
| `Db.Db.RemovePkgs` | src/db.rs:205-213 | the table becomes the old one without the named rows |
| `Db.Db.GetPkgs` | src/db.rs:215-257 | returns every record decoded, in table order, or the first decoding error |
| `Db.Db.GetPkgsByName` | src/db.rs:259-311 | an empty list gives `[]`; otherwise exactly the decoded records whose name is listed (taken in table order, see Left out) |
| `Db.Db.WhichPkgsAreInstalled` | src/db.rs:155-168 | returns the listed names that have a record, in input order |
| `Db.Db.WhichPkgsAreNotInstalled` | src/db.rs:361-378 | returns the listed names no decoded record carries, in input order; a read error is passed on |
| `Db.Db.GetPkgBridgeByName` | src/db.rs:140-151 | returns the owner lookup `BridgeOf` |
| `Db.DeleteRows` | src/db.rs:205-213 | the loop deleting one name returns the table without that name's rows |
| `Db.SelectedExact` | src/db.rs:259-311 | a row is selected iff it is in the table and its name is listed |
| `Db.InstallThenInstalled` | src/test/db.rs:21-29 | after a successful batch insert, asking which of those names are installed returns them all, in input order |
| `Db.InstallThenBridge` | src/db.rs:140-151 | after a successful insert, each inserted name's owner is the bridge given |
| `Db.DecodedNames` | src/db.rs:215-257 | a name is carried by a decoded package iff a record has it |
| `Db.InstalledNotInstalledPartition` | src/db.rs:155-168 | installed and not-installed split the input names: together they are the input as a multiset, decided by whether a record exists |
| `Db.RemoveScenario` | src/test/db.rs:62-78 | insert pkg1, pkg2; read both back; delete pkg2 leaves pkg1; delete both leaves nothing |
| `Bridge.GetString` | src/bridge.rs:296-305 | a table key reads as a string unless missing or boolean; numbers are shown as text |
| `Bridge.MainLuaPathsExact` | src/bridge.rs:114-125 | a path is listed iff it is `<set>/<dir>/main.lua` for a subdirectory holding a `main.lua` file |
| `Bridge.GetBridgesPaths` | src/bridge.rs:99-128 | a missing set is `BridgeSetNotFound`; a non-directory is `BridgeSetPathAreNotADirectory`; otherwise the `main.lua` paths in directory order |
| `Bridge.BridgeNameOfMainLua` | src/bridge.rs:138-145 | for any set path, the name taken from `<set>/<dir>/main.lua` is the file stem of `<dir>` |
| `Bridge.LoadOne` | src/bridge.rs:137-240 | an unnamed path is `MissingMainDotLuaFile`; an unneeded one is skipped; a needed one that cannot be read is `Io`, one that yields no table is `BridgeMissingReturnTable`, and it is `BridgeMissingFunction(p, "install")` exactly when the table has no `install`; otherwise the bridge keeps `install`, and each of remove and update is the default exactly when the table lacks it |
| `Bridge.BridgesFromLoaded` | src/bridge.rs:137-240 | every loaded bridge is the one some listed path loads to |
| `Bridge.GetBridges` | src/bridge.rs:130-244 | the loading loop equals the specification `BridgesFrom` |
| `Bridge.BridgesFromNames` | src/bridge.rs:147-149 | the loaded bridges are exactly the needed candidates, in path order |
| `Bridge.NeededNamesNeeded` | src/bridge.rs:147-149 | every loaded bridge is a needed one |
| `Bridge.GetBridge` | src/bridge.rs:246-257 | the lookup fails with `BridgeNotFound(target)` iff no bridge has that name; otherwise it returns a bridge of that name |
| `Bridge.GetBridgeFirst` | src/bridge.rs:246-257 | the lookup returns the first bridge with that name |
| `Bridge.AbsentBridgeNotFound` | src/bridge.rs:250-253 | a needed bridge that was not loaded is only reported when looked up, as `BridgeNotFound` |
| `Bridge.AttributesTable` | src/bridge.rs:283-290 | the Lua table has exactly the attribute keys |
| `Bridge.FillTable` | src/bridge.rs:283-290 | the filling loop gives the base table overridden by every attribute |
| `Bridge.ParseAttributesTable` | src/bridge.rs:259-293 | options hold the attribute keys plus `pkg_path`; an attribute overrides `pkg_path`; no record gives `MissingPkgPath`; a read error gives `DbError` |
| `Bridge.BridgeApi.Options` | src/bridge.rs:259-293 | the options are those `ParseAttributes` specifies over the current records |
| `Bridge.ConvertLuaTableToPkg` | src/bridge.rs:295-331 | `pkg_name`, `pkg_version` and `pkg_path` are checked in that order with their own errors; `entry_point` present iff `Directory` |
| `Bridge.ConvertVersion` | src/bridge.rs:312-321 | fewer than three pieces panics; with three, the version re-encodes to the text; with more, the text is the version followed by the dropped pieces |
| `Bridge.ConvertedPkgStorable` | src/bridge.rs:312-321 | a converted package's version has no `.` in any cell, so it survives the record store unchanged |
| `Bridge.DefaultsDelete` | src/bridge.rs:166-193 | the default remove deletes the file at `pkg_path` and answers true; the default update deletes it, then returns install's result on the same input and options |
| `Bridge.DefaultRemoveDeletesRecordedPath` | src/bridge.rs:380-393 | removing through a bridge without its own remove deletes the recorded path and answers true |
| `Bridge.NewBridgeApi` | src/bridge.rs:334-352 | fails exactly when listing the bridge set or loading a needed bridge fails, with that error; otherwise a fresh API holding exactly the bridges `LoadBridges` gives |
| `Bridge.LoadedBridgesSound` | src/bridge.rs:339-342 | every bridge loaded at start-up is needed, and is what the `main.lua` of one directory of the bridge set loads to |
| `Bridge.BridgeApi.constructor` | src/bridge.rs:346-351 | the API holds the given bridges, runtime, record table and disk |
| `Bridge.BridgeApi.Install` | src/bridge.rs:354-378 | disk and result are those of `InstallSpec`: find the bridge, call install with the attribute table, convert the table |
| `Bridge.BridgeApi.Remove` | src/bridge.rs:380-393 | disk and result are those of `RemoveSpec`: options from the record, then the bridge's or the default remove |
| `Bridge.BridgeApi.Update` | src/bridge.rs:395-407 | disk and result are those of `UpdateSpec`: options from the record, the bridge's or the default update, then conversion |
| `Input.ToI64` | src/input.rs:114 | the `as i64` cast wraps into the signed 64-bit range, keeps the value modulo 2^64, and leaves in-range values unchanged |
| `Input.PkgKdlFileByName` | src/input.rs:74-83 | a file is an input iff its name ends in `.kdl` ignoring ASCII case and does not start with `.` |
| `Input.DetectPkgKdlFiles` | src/input.rs:68-89 | the directory walk returns `KdlFiles`: input files in directory order, with subdirectories expanded in place |
| `Input.DetectEntry` | src/input.rs:72-86 | one directory entry yields its own path if it is an input file, the recursive result if it is a directory, and nothing otherwise |
| `Input.KdlFilesAreInputs` | src/input.rs:74-86 | when entry names are plain components, every path found lies under the walked directory and its last component is a non-hidden `.kdl` name |
| `Input.KdlFilesComplete` | src/input.rs:74-86 | every input file, at any depth, is found |
| `Input.Classify` | src/input.rs:111-121 | strings, integers (cast to i64), bools and floats are kept; anything else is `UnSupportedAttributeType` |
| `Input.ParseAttributes` | src/input.rs:103-127 | the attribute loop returns `Attributes(node)` |
| `Input.AttributesFromShape` | src/input.rs:106-123 | parsing succeeds iff every entry is named and of a supported type; the keys are the entry names |
| `Input.AttributesFromLastWins` | src/input.rs:123 | for a repeated key, the value of its last entry is kept |
| `Input.AttributesFromUntouched` | src/input.rs:123 | keys no entry names keep their earlier value |
| `Input.AttributesLastWins` | src/input.rs:106-123 | the first entry is skipped; attributes succeed iff the other entries are named and supported, and the last entry for a key wins |
| `Input.AttributesKeys` | src/input.rs:106-123 | the attribute keys are the names of all entries but the first |
| `Input.ParseDecl` | src/input.rs:137-150 | no first entry is `MissingField`; a non-string first entry is `InvalidAttribute`; otherwise the name, the input and the attributes come from the node |
| `Input.ParsePkg` | src/input.rs:129-167 | the declaration loop returns `PkgsFromDocs` |
| `Input.ChildrenResult` | src/input.rs:136-162 | one bridge's children append their declarations in order and keep names unique |
| `Input.BridgesResult` | src/input.rs:133-163 | a document's bridges append their children's declarations in order and keep names unique |
| `Input.DocsResult` | src/input.rs:132-164 | all documents append in document, bridge and child order, with unique names |
| `Input.ParsedPkgsOrderAndUnique` | src/input.rs:132-166 | parsed declarations follow document, bridge and child order, one per package node, with unique names |
| `Input.ChildrenSucceed` | src/input.rs:152-161 | with parseable nodes and fresh names, one bridge's children parse without error |
| `Input.BridgesSucceed` | src/input.rs:133-163 | with children present, parseable and distinct, a document parses without error |
| `Input.DocsSucceed` | src/input.rs:132-164 | with children present, parseable and distinct, all documents parse without error |
| `Input.ParsePkgSucceedsIffDistinct` | src/input.rs:152-161 | when every node parses, parsing succeeds iff no package name repeats anywhere |
| `Input.BridgeWithoutChildren` | src/input.rs:134 | a bridge node with no children is `MissingField` |
| `Input.ParseBridges` | src/input.rs:169-186 | the loop returns `DedupFrom` over the bridge node names |
| `Input.FirstOccurrencesSameNames` | src/input.rs:172-183 | first-occurrence deduplication keeps exactly the names present |
| `Input.DedupMatchesFirstOccurrences` | src/input.rs:174-181 | the dedup loop equals first-occurrence order |
| `Input.FirstOccurrencesDistinct` | src/input.rs:172-183 | first occurrences are pairwise distinct |
| `Input.ParsedBridgesFirstOccurrence` | src/input.rs:169-186 | parsed bridges are the node names' first occurrences: distinct, and a bridge is listed iff a node has its name |
| `Input.ParseInputsKdl` | src/input.rs:91-101 | all documents are read in path order, or the error names the first unreadable path |
| `Input.Load` | src/input.rs:189-201 | succeeds iff every file found reads and `parse_pkg` succeeds on the documents; the error is the first unreadable file's, else `parse_pkg`'s; on success the set holds the given path, the parsed packages and the deduplicated bridge names |
| `Config.ExpandHomeCases` | src/config.rs:89-103 | `~/rest` becomes HOME joined with `rest`; USERPROFILE is used when HOME is unset; with neither, and for any other path (a bare `~` and `~user/x` included), the path is kept |
| `Config.GetAndStoreChildren` | src/config.rs:69-83 | a missing section or one without children is `MissingValue(key)`; otherwise the map gains the key and keeps the others |
| `Config.GetNodeValueAsString` | src/config.rs:106-128 | a missing node or first entry is `MissingValue(name)`; success means the first entry was a string, then home-expanded |
| `Config.LoadConfigNodeErrors` | src/config.rs:57-63 | a missing `config` node and an empty one are reported first, with their own messages |
| `Config.LoadSectionOrder` | src/config.rs:85-87 | `inputs`, `output` and `db` are required in that order; with all three the fields are read |
| `Config.ReadFieldsMapping` | src/config.rs:132-146 | the config is built iff all five values read; the fields map from `inputs.path`, `inputs.bridges-set`, `output.target-dir`, `output.load-path`, `db.path`; the first failing value's error is returned |
| `Config.AssembleMapping` | src/config.rs:132-146 | the field-by-field `?` chain succeeds iff all five succeed and returns the first error otherwise |
| `Fs.Disk.constructor` | src/fs.rs:28-39 | the disk holds the given entries |
| `Fs.Fs.constructor` | src/fs.rs:28-39 | target dir and load path are attempted with `create_dir_all`, and failures are ignored |
| `Fs.StoreOneMoves` | src/fs.rs:83-99 | after a store the package's path is `target_dir/bridge/name`, the moved entry is there, and nothing is left at the old path |
| `Fs.StoreOneEntryPoint` | src/fs.rs:101-109 | an executable stays an executable; a directory's entry point under the old path is rebased under the target |
| `Fs.StoreOneResult` | src/fs.rs:101-111 | the stored package is the input with path and entry point relocated to the target |
| `Fs.StoreFromStops` | src/fs.rs:82-112 | the loop stops at the first failure `k`: packages before `k` are relocated, the rest unchanged, and success iff none failed |
| `Fs.Fs.StoreOrOverwrite` | src/fs.rs:73-115 | disk, the packages array and the result are those of `Store` |
| `Fs.Fs.StoreLoop` | src/fs.rs:82-112 | the in-place loop over the array equals `StoreFrom` |
| `Fs.Fs.StoreEach` | src/fs.rs:83-111 | one package: clear the target, rename, rebase the entry point, as `StoreOne` says |
| `Fs.RemoveTargetsReports` | src/fs.rs:121-137 | the flag is true iff some target existed; when false the disk is unchanged |
| `Fs.RemoveTargetsShrinks` | src/fs.rs:125-136 | removal only takes entries away |
| `Fs.RemoveTargetsClears` | src/fs.rs:128-135 | after a successful removal no target exists |
| `Fs.Fs.RemovePkgs` | src/fs.rs:117-137 | disk and flag are those of clearing `target_dir/name` for each recorded name |
| `Fs.Fs.ClearTargets` | src/fs.rs:125-136 | the removal loop equals `RemoveTargets` |
| `Fs.RemoveMissesStoredCopy` | src/fs.rs:126 | a package stored under bridge `cargo` is not found by removal as written, which answers false and leaves it on disk |
| `Fs.RemoveWipesBridgeStore` | src/fs.rs:126 | as written, removing package `cargo` stored under bridge `nix` clears `target_dir/cargo`, bridge `cargo`'s whole store directory, and answers true |
| `Fs.RemoveCorrectedClears` | src/fs.rs:117-137 | corrected removal clears each recorded path and answers true iff one existed |
| `Fs.Fs.RemovePkgsCorrected` | src/fs.rs:117-137 | disk and flag are those of `RemoveCorrected` |
| `Fs.LinkFromFrame` | src/fs.rs:53-68 | linking leaves every non-target path as it was |
| `Fs.LinkFromLinks` | src/fs.rs:53-68 | after linking, the last record per target has `load_path/name` pointing at its path or entry point |
| `Fs.LinkAsWrittenRefusesDirectory` | src/fs.rs:44-51 | as written, link fails with `LoadPathIsFile` whenever the constructor made the load path |
| `Fs.LinkAsWrittenFailsOnFile` | src/fs.rs:46-48 | as written, a plain file at the load path makes link fail with `remove_dir_all`'s `NotADirectory` and change nothing |
| `Fs.PrepareCorrectedEmptiesDirectory` | src/fs.rs:44-51 | the corrected preparation empties an existing load-path directory and succeeds |
| `Fs.LinkCorrectedLinksAll` | src/fs.rs:53-68 | after a corrected link, every record's `load_path/name` is a link to its path or entry point |
| `Fs.DecodedDistinctTargets` | src/fs.rs:54 | unique relative names give distinct link targets |
| `Fs.Fs.Link` | src/fs.rs:41-71 | disk and result are those of `LinkWith` as written |
| `Fs.Fs.LinkCorrected` | src/fs.rs:41-71 | disk and result are those of `LinkWith` with the load-path branch corrected |
| `Fs.Fs.LinkEach` | src/fs.rs:53-68 | the link loop equals `LinkFrom` |
| `Files.RemoveFile` | src/fs.rs:95 | `remove_file` succeeds iff a non-directory is there, removes only it |
| `Files.RemoveDirAll` | src/fs.rs:93 | `remove_dir_all` refuses a plain file, removes a link itself, and a directory with everything below it |
| `Files.CreateDirAll` | src/fs.rs:79 | `create_dir_all` succeeds iff the path is a directory or absent, and leaves a directory there |
| `Files.RenameMoves` | src/fs.rs:99 | a successful rename puts the source's entry at the destination, empties the source, and leaves other paths |
| `Files.MakeSymlink` | src/fs.rs:62-65 | `symlink` succeeds iff nothing is at the link path, and adds only that link |
| `Strings.Split` | src/db.rs:226-229 | `split` gives at least one piece, none containing the separator |
| `Strings.SplitJoinWith` | src/db.rs:174-177 | splitting a join of separator-free pieces returns the pieces |
| `Strings.JoinWithSplit` | src/bridge.rs:312-315 | joining the pieces of a split returns the text |
| `Strings.RelocatePrefix` | src/fs.rs:107 | replacing an old prefix that does not recur gives the new prefix and the same rest |
| `Strings.ReplaceAllNoOccurrence` | src/fs.rs:107 | replacement leaves text without the pattern unchanged |
| `Strings.Join` | src/fs.rs:83-89 | `Path::join`: an absolute component replaces the base |
| `Strings.JoinEndsWith` | src/fs.rs:83-89 | a joined path ends with the component; a relative component extends the base by at most one separator |
| `Strings.JoinInjective` | src/fs.rs:89 | under one base, equal joins of relative components mean equal components |
| `Strings.JoinLastComponent` | src/bridge.rs:120 | a plain component joined under a non-empty base is the last component: the last `/` sits just before it |
| `Strings.JoinPlain` | src/input.rs:72 | a plain component joined under any base extends a non-empty base and is the last component of the result |
| `Strings.LastIndexAfter` | src/bridge.rs:138-141 | the last separator of `a + [c] + b`, with `c` not in `b`, is at `|a|` |
| `Strings.LastIndex` | src/bridge.rs:138-145 | the last position of the character, or -1 when absent |
| `Strings.StemExtension` | src/input.rs:75 | a name with an extension is its stem, a dot, and the extension |
| `Kdl.Get` | src/config.rs:57-59 | `KdlDocument::get` returns the first node with the name, or none |
| `DirTree.Lookup` | src/bridge.rs:120-123 | a directory has an entry of that name iff the lookup finds it |
| `Driver.WithRecordPartition` | src/main.rs:481-503 | each declaration is in exactly one of installed-in-input and not-installed-in-input, decided by whether its name has a record |
| `Driver.DeclsNamedWithRecord` | src/main.rs:489-503 | filtering declarations by a name list that marks records is the record-based split |
| `Driver.UndeclaredNamesExact` | src/main.rs:483-487 | a recorded name is undeclared iff it is not among the inputs |
| `Driver.UndeclaredNamesNotDeclared` | src/main.rs:483-487 | no undeclared name is an input |
| `Driver.OwnedByOrphans` | src/main.rs:505-515 | the owner filter over decoded records equals the reference `Orphans` |
| `Driver.FilterPkgsByStatusesExact` | src/main.rs:469-521 | the three lists are the declarations with a record, those without, and (in record order) the undeclared records this bridge owns with empty attributes and `input = path` |
| `Driver.SplitDecls` | src/main.rs:481-503 | the two declaration filters equal the record-based split |
| `Driver.SplitOrphans` | src/main.rs:483-515 | the installed-not-in-input list equals `Orphans` |
| `Driver.OwnerAlwaysFound` | src/main.rs:509-511 | the owner lookup for a decoded record never fails, so the `expect` never fires |
| `Driver.JobsForOrder` | src/main.rs:163-187 | build gives [Update?] Install, Remove; rebuild gives Install, Remove, Reinstall; update gives Update; no job repeats |
| `Driver.DeclsNamedExact` | src/main.rs:174-184 | narrowing keeps exactly the installed declarations whose name is listed, as a sub-multiset |
| `Driver.NarrowUpdates` | src/main.rs:175-183 | the narrowing loop equals `DeclsNamed` |
| `Driver.SelectJobs` | src/main.rs:163-187 | jobs and the update set are those `JobsFor` and `UpdateSet` give |
| `Driver.AddSpecCounts` | src/main.rs:267-319 | a package counts as installed iff store and insert succeed; it is then stored under the bridge and recorded there |
| `Driver.UpdateReplacesRecord` | src/main.rs:286-317 | an update deletes the old record before inserting, so it counts iff the store succeeds, and the record is then owned by the bridge |
| `Driver.FailedCallSkips` | src/main.rs:257-265 | a failed bridge call changes no record and no counter; only the version panic stops the run |
| `Driver.RemoveStep` | src/main.rs:320-365 | a removal counts iff the bridge answers true and the files go; the record is then deleted; otherwise records are unchanged |
| `Driver.ReinstallAborts` | src/main.rs:229-240 | in a reinstall an install error or a remove error stops the whole run |
| `Driver.RunPkgsCounts` | src/main.rs:217-369 | each package raises at most one counter; remove jobs never count installs; other jobs never count removals |
| `Driver.StepCounts` | src/main.rs:225-366 | a single step raises at most one counter, the one its job allows |
| `Driver.AddPkg` | src/main.rs:267-319 | store, delete and insert steps on the objects equal `AddSpec` |
| `Driver.StepPkg` | src/main.rs:225-366 | one package on the objects equals `PkgStep` |
| `Driver.RemovePkg` | src/main.rs:320-365 | the remove step on the objects equals `PkgStep` for `Remove` |
| `Driver.ReinstallPkg` | src/main.rs:229-254 | the reinstall step on the objects equals `PkgStep` for `Reinstall` |
| `Driver.AddedPkg` | src/main.rs:257-319 | the tail after a bridge call equals `Added` |
| `Driver.RunJob` | src/main.rs:217-369 | the package loop equals `RunPkgs` |
| `Driver.RunJobList` | src/main.rs:196-370 | the job loop equals `RunJobs` |
| `Driver.RunBridgeGroup` | src/main.rs:143-370 | one bridge equals `RunBridge`: filter, choose jobs and the update set, run them |
| `Driver.RunGroups` | src/main.rs:143-371 | the bridge loop equals `RunBridges` |
| `Driver.Run` | src/main.rs:126-384 | the whole run equals `RunAll`: all bridges, then the link farm unless the run stopped |

## Left out

- **Privilege and terminal I/O.** Privilege elevation, sudo prompting and re-exec,
  config-directory discovery, progress bars and printing are terminal and process I/O.
  This covers src/main.rs:22-35, 58-64, 388-467 and 524-567.
- **Start-up wiring.** src/main.rs:37-57 loads the config, opens the record table, loads
  the inputs, takes the input bridges' names as the needed bridges, and builds the bridge
  layer and the materializer. Each step is modelled (`Config.Load`, `Db.Db.constructor`,
  `Input.Load`, `Bridge.NewBridgeApi`, `Fs.Fs.constructor`), but no member chains them.
  `Driver.Run` starts from objects already built.
- **Bridge.NewBridgeApi** takes the record table and the Lua runtime as arguments.
  `BridgeApi::new` opens its own connection with `Db::new` (src/bridge.rs:344), whose
  failure is not modelled, and keeps `needed_bridges`, which nothing reads afterwards.
- **Fs.Fs.constructor** takes the shared record table as an argument. `Fs::new` opens its
  own connection with `Db::new(db_path).unwrap()` (src/fs.rs:29), which panics when the
  open fails; that panic is not modelled.
- **Other commands.** The Clean, Link, Info and Docs commands (src/main.rs:66-125) are
  not modelled. Link reuses `Fs.Link`.
- **Summary counters.** The summary line prints the two counters. The model returns them
  in `Tally`.
- **The Lua runtime.** This covers evaluating `main.lua`, mlua calls and conversions, and
  the `print` override writing to log files (src/bridge.rs:151-155, 195-229).
  - Bridge functions are oracles in `Bridge.Runtime` that take the disk and return a new
    disk and a table or an error.
  - `main.lua` reading and evaluation are function parameters of `GetBridges`.
- **SQL and rusqlite.** SQL text and rusqlite are left out (src/db.rs:55-94, 109-121).
  - The table is a `seq<Row>` of text cells in insertion order.
  - A query error is not modelled, except a row that fails to decode.
  - `GET_PKGS_BY_NAMES` (src/db.rs:75-77) has no `ORDER BY`, so SQLite fixes no order
    for `get_pkgs_by_name`. The model returns the records in table order.
- **`Db::get_bridges` and `Db::get_pkgs_by_bridge`** (src/db.rs:123-138, 313-359) are
  not used by the modelled core.
- **KDL parsing** (src/input.rs:95-98, src/config.rs:53-55) is a foreign library.
  Documents are trees; reading a file is a parameter.
- **Floats.** Float attribute values are carried as their text and never reasoned about.
- **`read_dir` order** is platform-defined. The model takes the order of a directory-tree
  value. Directory walks happen over that tree, not over the modelled disk.
- **Walk errors.** An error from `read_dir` or from one of its entries in the inputs walk
  (src/input.rs:70-71) is not modelled. Nor is an `IoError` from `read_dir`, an entry or
  `file_type` in the bridge-set walk (src/bridge.rs:108-119). Both walks succeed on any tree.
- **Symbolic links in walks.** The tree's `File | Dir | Other` kinds are what the caller
  builds, and each walk sees links differently:
  - `detect_pkg_kdl_files` follows links (`is_file`, `is_dir`, src/input.rs:74, 84). A
    link counts as the kind of its target.
  - `get_bridges_paths` asks `DirEntry::file_type` (src/bridge.rs:117), which does not
    follow links, so a link to a directory is not a bridge directory. Its `main.lua`
    check (`exists() && is_file()`, src/bridge.rs:121) follows links, so a link to a
    file counts as `File` there.
  - The model does not derive these kinds from the modelled disk.
- **Paths** are plain text. There is no `.`/`..` normalisation, parent directories are
  not tracked, and `create_dir_all` creates only the named path.
- **HashMap order.** Rust's `HashMap` iteration order is not modelled.
  `Bridge.FillTable` picks keys in an arbitrary order, and the result is proved
  independent of it.
- **Db.ToPkgDeclarationWithEmptyAttributes** (src/db.rs:99-105) is used through
  `Driver.Orphans` and stated by `Driver.FilterPkgsByStatusesExact`, so it has no contract
  of its own.
- **Config.ExpandHome** is stated through `Config.ExpandHomeCases`. `Path::join` with an
  absolute remainder replaces the home directory, as `Strings.Join` states.
- **Config.Load** is stated through `Config.LoadConfigNodeErrors`,
  `Config.LoadSectionOrder` and `Config.ReadFieldsMapping`. Reading the file and the
  `InvalidPath` source span are not modelled.
- **Driver.Run** links with the corrected `Fs.Fs.LinkCorrected`. As written, the link
  fails whenever the constructor created the load path (see Findings), and the process exits with status 1
  there (src/main.rs:556-566). That as-written failure is stated only by
  `Fs.LinkAsWrittenRefusesDirectory`. The driver's `Stop.LinkFailed` covers the errors
  the corrected link can still return.
- **Driver.RemovePkg** removes files with the corrected `Fs.Fs.RemovePkgsCorrected`,
  which clears the recorded path (see Findings). `Fs.Fs.RemovePkgs` keeps the as-written
  behaviour.
- **Driver.ReinstallPkg**: the reinstall's record deletion (src/main.rs:242-251) cannot
  fail in the model, because SQL errors are not modelled. The source's
  print-and-continue path for that failure is therefore absent.
- **Db.Db.constructor** models `Db::new` on a new database file. An existing database
  is a `Db` object whose `rows` hold its records.
- **Bridge.ConvertVersion** models the index panic on fewer than three version pieces as
  the error `VersionIndexPanic`. The driver turns it into `Stop.Panicked` rather than a
  process abort.
- **Db.InstallBridgePkgs** does not model SQLite I/O failures. Its only error is the
  primary-key violation.

## Findings

| source | as written | input that shows it | evidently intended | confidence | as-written member | corrected member |
|---|---|---|---|---|---|---|
| src/fs.rs:44-51 | link refuses an existing directory at the load path (`LoadPathIsFile`), replaces a symbolic link to a non-directory, and fails with an I/O error on a plain file | `Fs::new` has just created `load_path` as a directory, so `link` fails whenever that creation succeeded | refuse (or replace) a non-directory, and clear and reuse an existing directory | not executed | `Fs.LinkAsWrittenRefusesDirectory` | `Fs.PrepareCorrectedEmptiesDirectory` |
| src/fs.rs:126 | removal looks at `target_dir/name` | package `ripgrep` stored for bridge `cargo` lives at `/opt/pkgs/cargo/ripgrep`, but removal checks `/opt/pkgs/ripgrep`, answers false and leaves the stored copy; package `cargo` stored for bridge `nix` makes removal clear `/opt/pkgs/cargo`, bridge `cargo`'s whole store directory (`Fs.RemoveWipesBridgeStore`) | remove the stored path recorded for the package | not executed | `Fs.RemoveMissesStoredCopy` | `Fs.RemoveCorrectedClears` |
