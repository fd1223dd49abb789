/**
 * The bridge layer (src/bridge.rs): finding the bridges (directories holding a
 * `main.lua`) in the bridge set, loading the needed ones, and calling their
 * install/remove/update functions. Evaluating Lua is not modelled: reading a
 * `main.lua`, evaluating it into a table, and running a bridge's own functions are
 * oracles given as parameters. The default remove and update that the program
 * supplies itself are modelled.
 */
module Bridge {
  import opened Wrappers
  import opened Strings
  import opened Files
  import Fs
  import Db
  import Input
  import DirTree

  /** A Lua value as the program puts it in or reads it from a table; a float is carried as its text. */
  datatype LuaValue = LStr(s: string) | LInt(i: int) | LNum(shown: string) | LBool(b: bool)

  type LuaTable = map<string, LuaValue>

  /** Why a Lua call failed. */
  datatype LuaError = Raised(message: string) | Conversion(key: string) | External(io: IoError)

  datatype BridgeError =
    | Lua(lua: LuaError)
    | Io(path: string)
    | MissingMainDotLuaFile
    | BridgeNotFound(name: string)
    | BridgeSetNotFound(path: string)
    | BridgeSetPathAreNotADirectory(path: string)
    | BridgeMissingReturnTable(path: string)
    | BridgeMissingFunction(path: string, fname: string)
    | MissingPkgName
    | MissingPkgVersion
    | MissingPkgPath
    | DbError
    /** `pkg_version[1]` or `pkg_version[2]` out of bounds: a panic that ends the process. */
    | VersionIndexPanic

  const MAIN_LUA: string := "main.lua"

  /** `table.get::<String>(key)`: a string, or a number in its decimal text; anything else fails. */
  function GetString(t: LuaTable, key: string): (r: Option<string>)
    ensures r.Some? <==> key in t && !t[key].LBool?
    ensures key in t && t[key].LStr? ==> r == Some(t[key].s)
  {
    if key !in t then None
    else
      match t[key]
      case LStr(s) => Some(s)
      case LInt(i) => Some(IntToDecimal(i))
      case LNum(shown) => Some(shown)
      case LBool(_) => None
  }

  // ---------------------------------------------------------------------------
  // get_bridges_paths
  // ---------------------------------------------------------------------------

  /** A sub-directory holding a regular file `main.lua` is a bridge. */
  predicate IsBridgeDir(e: DirTree.Entry) {
    e.kind.Dir? && DirTree.Lookup(e.kind.entries, MAIN_LUA) == Some(DirTree.File)
  }

  /** The `main.lua` paths of the bridges among `entries`, in `read_dir` order. */
  function MainLuaPaths(setPath: string, entries: seq<DirTree.Entry>): seq<string>
    decreases |entries|
  {
    if entries == [] then []
    else
      (if IsBridgeDir(entries[0]) then [Join(Join(setPath, entries[0].name), MAIN_LUA)] else []) +
      MainLuaPaths(setPath, entries[1..])
  }

  /**
   * A path is listed exactly when it is the `main.lua` of some entry that is a bridge
   * directory.
   */
  lemma {:induction false} MainLuaPathsExact(setPath: string, entries: seq<DirTree.Entry>, p: string)
    ensures p in MainLuaPaths(setPath, entries) <==>
      exists i | 0 <= i < |entries| :: IsBridgeDir(entries[i]) && p == Join(Join(setPath, entries[i].name), MAIN_LUA)
    decreases |entries|
  {
    if entries != [] {
      MainLuaPathsExact(setPath, entries[1..], p);
      if exists i | 0 <= i < |entries| :: IsBridgeDir(entries[i]) && p == Join(Join(setPath, entries[i].name), MAIN_LUA) {
        var i :| 0 <= i < |entries| && IsBridgeDir(entries[i]) && p == Join(Join(setPath, entries[i].name), MAIN_LUA);
        if i > 0 {
          assert entries[1..][i - 1] == entries[i];
        }
      }
      if exists i | 0 <= i < |entries[1..]| :: IsBridgeDir(entries[1..][i]) && p == Join(Join(setPath, entries[1..][i].name), MAIN_LUA) {
        var i :| 0 <= i < |entries[1..]| && IsBridgeDir(entries[1..][i]) && p == Join(Join(setPath, entries[1..][i].name), MAIN_LUA);
        assert entries[i + 1] == entries[1..][i];
      }
    }
  }

  /**
   * get_bridges_paths: `set` is what the bridge set path resolves to (None when it
   * does not exist). A missing path and a path that is not a directory are refused;
   * otherwise the `main.lua` of every sub-directory that has one is listed.
   */
  method GetBridgesPaths(setPath: string, bridgeSet: Option<DirTree.Kind>) returns (r: Result<seq<string>, BridgeError>)
    ensures bridgeSet.None? ==> r == Err(BridgeSetNotFound(setPath))
    ensures bridgeSet.Some? && !bridgeSet.value.Dir? ==> r == Err(BridgeSetPathAreNotADirectory(setPath))
    ensures bridgeSet.Some? && bridgeSet.value.Dir? ==> r == Ok(MainLuaPaths(setPath, bridgeSet.value.entries))
  {
    if bridgeSet.None? {
      return Err(BridgeSetNotFound(setPath));
    }
    if !bridgeSet.value.Dir? {
      return Err(BridgeSetPathAreNotADirectory(setPath));
    }
    var entries := bridgeSet.value.entries;
    var paths: seq<string> := [];
    var i := 0;
    while i < |entries|
      invariant 0 <= i <= |entries|
      invariant paths + MainLuaPaths(setPath, entries[i..]) == MainLuaPaths(setPath, entries)
    {
      assert entries[i..][0] == entries[i] && entries[i..][1..] == entries[i + 1..];
      var file := entries[i];
      if file.kind.Dir? {
        var mainLua := Join(Join(setPath, file.name), MAIN_LUA);
        if DirTree.Lookup(file.kind.entries, MAIN_LUA) == Some(DirTree.File) {
          paths := paths + [mainLua];
        }
      }
      i := i + 1;
    }
    assert entries[i..] == [];
    assert paths + [] == paths;
    r := Ok(paths);
  }

  // ---------------------------------------------------------------------------
  // get_bridges
  // ---------------------------------------------------------------------------

  /** The file name of the directory holding `p`, without extension (`parent().file_stem()`). */
  function BridgeName(p: string): Option<string> {
    var i := LastIndex(p, '/');
    if i < 0 then None
    else
      var dir := p[..i];
      var dirName := dir[LastIndex(dir, '/') + 1..];
      if dirName == [] || dirName == ".." then None else Some(FileStem(dirName))
  }

  /**
   * A bridge is named after its directory: the `main.lua` listed for a directory
   * entry `name` (plain, not `..`) under any set path belongs to the bridge
   * `FileStem(name)`.
   */
  lemma BridgeNameOfMainLua(setPath: string, name: string)
    requires name != [] && name != ".." && '/' !in name
    ensures BridgeName(Join(Join(setPath, name), MAIN_LUA)) == Some(FileStem(name))
  {
    JoinPlain(setPath, name);
    MainLuaUnder(Join(setPath, name));
  }

  /** `main.lua` joined under a directory path: its last `/` ends the directory. */
  lemma MainLuaUnder(dir: string)
    requires dir != [] && dir[|dir| - 1] != '/'
    ensures LastIndex(Join(dir, MAIN_LUA), '/') == |dir|
    ensures Join(dir, MAIN_LUA)[..|dir|] == dir
  {
    var r := Join(dir, MAIN_LUA);
    assert r == dir + ['/'] + MAIN_LUA;
    assert '/' !in MAIN_LUA;
    LastIndexAfter(dir, MAIN_LUA, '/');
  }

  /** The table a `main.lua` evaluates to: the functions stored under the three keys, if any. */
  datatype BridgeTable = BridgeTable(install: Option<nat>, remove: Option<nat>, update: Option<nat>)

  /** A remove or update function: the bridge's own (a Lua function), or the program's default. */
  datatype Hook = Script(id: nat) | Default

  /** A loaded bridge: its name, its install function, and its remove and update hooks. */
  datatype Bridge = Bridge(name: string, install: nat, remove: Hook, update: Hook)

  /** The bridge built from a table with an install function; missing remove and update fall back to the defaults. */
  function MakeBridge(name: string, install: nat, t: BridgeTable): Bridge {
    Bridge(name, install,
      if t.remove.Some? then Script(t.remove.value) else Default,
      if t.update.Some? then Script(t.update.value) else Default)
  }

  /**
   * The bridge loaded from one `main.lua` path, None when its name is not needed; a
   * path without a bridge name, an unreadable file, a chunk that yields no table and
   * a table without install fail the whole load.
   */
  function LoadOne(p: string, needed: seq<string>, read: string -> Option<string>, eval: string -> Option<BridgeTable>): (r: Result<Option<Bridge>, BridgeError>)
    ensures BridgeName(p).None? ==> r == Err(MissingMainDotLuaFile)
    ensures r.Ok? ==> BridgeName(p).Some? && (r.value.Some? <==> BridgeName(p).value in needed)
    ensures r.Ok? && r.value.Some? ==> r.value.value.name == BridgeName(p).value
    ensures BridgeName(p).Some? && BridgeName(p).value in needed ==>
      && (read(p).None? ==> r == Err(Io(p)))
      && (read(p).Some? && eval(read(p).value).None? ==> r == Err(BridgeMissingReturnTable(p)))
    ensures BridgeName(p).Some? && BridgeName(p).value in needed && read(p).Some? && eval(read(p).value).Some? ==>
      var t := eval(read(p).value).value;
      && (r == Err(BridgeMissingFunction(p, "install")) <==> t.install.None?)
      && (t.install.Some? ==> r.Ok? && r.value.Some?)
    ensures r.Ok? && r.value.Some? ==>
      && read(p).Some? && eval(read(p).value).Some?
      && var t := eval(read(p).value).value;
      && t.install == Some(r.value.value.install)
      && (r.value.value.remove == Default <==> t.remove.None?)
      && (r.value.value.update == Default <==> t.update.None?)
      && (t.remove.Some? ==> r.value.value.remove == Script(t.remove.value))
      && (t.update.Some? ==> r.value.value.update == Script(t.update.value))
  {
    var name := BridgeName(p);
    if name.None? then Err(MissingMainDotLuaFile)
    else if name.value !in needed then Ok(None)
    else
      var code := read(p);
      if code.None? then Err(Io(p))
      else
        var t := eval(code.value);
        if t.None? then Err(BridgeMissingReturnTable(p))
        else if t.value.install.None? then Err(BridgeMissingFunction(p, "install"))
        else Ok(Some(MakeBridge(name.value, t.value.install.value, t.value)))
  }

  /** The spec of `GetBridges`: every path in order, the first failure stopping the load. */
  function BridgesFrom(acc: seq<Bridge>, paths: seq<string>, needed: seq<string>, read: string -> Option<string>, eval: string -> Option<BridgeTable>): Result<seq<Bridge>, BridgeError>
    decreases |paths|
  {
    if paths == [] then Ok(acc)
    else
      var one := LoadOne(paths[0], needed, read, eval);
      if one.Err? then Err(one.error)
      else BridgesFrom(acc + (if one.value.Some? then [one.value.value] else []), paths[1..], needed, read, eval)
  }

  /** get_bridges: load the bridges of the listed paths whose names are needed. */
  method GetBridges(paths: seq<string>, needed: seq<string>, read: string -> Option<string>, eval: string -> Option<BridgeTable>)
    returns (r: Result<seq<Bridge>, BridgeError>)
    ensures r == BridgesFrom([], paths, needed, read, eval)
  {
    var bridges: seq<Bridge> := [];
    var i := 0;
    while i < |paths|
      invariant 0 <= i <= |paths|
      invariant BridgesFrom(bridges, paths[i..], needed, read, eval) == BridgesFrom([], paths, needed, read, eval)
    {
      assert paths[i..][0] == paths[i] && paths[i..][1..] == paths[i + 1..];
      var path := paths[i];
      var name := BridgeName(path);
      if name.None? {
        return Err(MissingMainDotLuaFile);
      }
      if name.value in needed {
        var code := read(path);
        if code.None? {
          return Err(Io(path));
        }
        var table := eval(code.value);
        if table.None? {
          return Err(BridgeMissingReturnTable(path));
        }
        if table.value.install.None? {
          return Err(BridgeMissingFunction(path, "install"));
        }
        var remove := if table.value.remove.Some? then Script(table.value.remove.value) else Default;
        var update := if table.value.update.Some? then Script(table.value.update.value) else Default;
        var bridge := Bridge(name.value, table.value.install.value, remove, update);
        assert LoadOne(path, needed, read, eval) == Ok(Some(bridge));
        bridges := bridges + [bridge];
      } else {
        assert LoadOne(path, needed, read, eval) == Ok(None);
        assert bridges + [] == bridges;
      }
      i := i + 1;
    }
    r := Ok(bridges);
  }

  /** The needed bridge names of `paths`, in order. */
  function NeededNames(paths: seq<string>, needed: seq<string>): seq<string>
    decreases |paths|
  {
    if paths == [] then []
    else
      var n := BridgeName(paths[0]);
      (if n.Some? && n.value in needed then [n.value] else []) + NeededNames(paths[1..], needed)
  }

  function NamesOf(bridges: seq<Bridge>): (r: seq<string>)
    ensures |r| == |bridges| && forall i | 0 <= i < |bridges| :: r[i] == bridges[i].name
  {
    seq(|bridges|, i requires 0 <= i < |bridges| => bridges[i].name)
  }

  lemma NamesOfAppend(a: seq<Bridge>, b: seq<Bridge>)
    ensures NamesOf(a + b) == NamesOf(a) + NamesOf(b)
  {
  }

  /**
   * A successful load holds one bridge per listed path whose name is needed, in path
   * order, and nothing else: unneeded bridges are skipped, and a needed bridge with no
   * path is simply absent.
   */
  lemma {:induction false} BridgesFromNames(acc: seq<Bridge>, paths: seq<string>, needed: seq<string>, read: string -> Option<string>, eval: string -> Option<BridgeTable>)
    requires BridgesFrom(acc, paths, needed, read, eval).Ok?
    ensures NamesOf(BridgesFrom(acc, paths, needed, read, eval).value) == NamesOf(acc) + NeededNames(paths, needed)
    decreases |paths|
  {
    if paths == [] {
      assert NamesOf(acc) + [] == NamesOf(acc);
    } else {
      var one := LoadOne(paths[0], needed, read, eval);
      var added := if one.value.Some? then [one.value.value] else [];
      var head := if one.value.Some? then [one.value.value.name] else [];
      var acc' := acc + added;
      var tail := NeededNames(paths[1..], needed);
      assert BridgesFrom(acc, paths, needed, read, eval) == BridgesFrom(acc', paths[1..], needed, read, eval);
      BridgesFromNames(acc', paths[1..], needed, read, eval);
      assert NamesOf(acc') == NamesOf(acc) + head by {
        NamesOfAppend(acc, added);
        assert NamesOf(added) == head;
      }
      assert NeededNames(paths, needed) == head + tail;
      ConcatAssoc(NamesOf(acc), head, tail);
    }
  }

  /**
   * Every loaded bridge is the one `LoadOne` builds for some listed path, so it has
   * that table's install function and falls back to a default exactly where the
   * table lacks `remove` or `update`.
   */
  lemma {:induction false} BridgesFromLoaded(acc: seq<Bridge>, paths: seq<string>, needed: seq<string>, read: string -> Option<string>, eval: string -> Option<BridgeTable>, b: Bridge)
    requires BridgesFrom(acc, paths, needed, read, eval).Ok?
    requires b in BridgesFrom(acc, paths, needed, read, eval).value
    ensures b in acc || exists i :: 0 <= i < |paths| && LoadOne(paths[i], needed, read, eval) == Ok(Some(b))
    decreases |paths|
  {
    if paths != [] {
      var one := LoadOne(paths[0], needed, read, eval);
      var acc' := acc + (if one.value.Some? then [one.value.value] else []);
      BridgesFromLoaded(acc', paths[1..], needed, read, eval, b);
      if b in acc' && b !in acc {
        assert LoadOne(paths[0], needed, read, eval) == Ok(Some(b));
      } else if b !in acc' {
        var i :| 0 <= i < |paths[1..]| && LoadOne(paths[1..][i], needed, read, eval) == Ok(Some(b));
        assert paths[1..][i] == paths[i + 1];
      }
    }
  }

  /** Every loaded bridge has a needed name. */
  lemma {:induction false} NeededNamesNeeded(paths: seq<string>, needed: seq<string>)
    ensures forall n | n in NeededNames(paths, needed) :: n in needed
    decreases |paths|
  {
    if paths != [] {
      NeededNamesNeeded(paths[1..], needed);
    }
  }

  // ---------------------------------------------------------------------------
  // get_bridge
  // ---------------------------------------------------------------------------

  /** get_bridge: the first bridge with the name, or `BridgeNotFound`. */
  function GetBridge(bridges: seq<Bridge>, target: string): (r: Result<Bridge, BridgeError>)
    ensures r.Err? <==> target !in NamesOf(bridges)
    ensures r.Err? ==> r.error == BridgeNotFound(target)
    ensures r.Ok? ==> r.value in bridges && r.value.name == target
    decreases |bridges|
  {
    if bridges == [] then Err(BridgeNotFound(target))
    else if bridges[0].name == target then Ok(bridges[0])
    else
      assert NamesOf(bridges) == [bridges[0].name] + NamesOf(bridges[1..]);
      GetBridge(bridges[1..], target)
  }

  /** Of several bridges with the same name, the first one is used. */
  lemma {:induction false} GetBridgeFirst(bridges: seq<Bridge>, target: string, i: nat)
    requires i < |bridges| && bridges[i].name == target
    requires forall j | 0 <= j < i :: bridges[j].name != target
    ensures GetBridge(bridges, target) == Ok(bridges[i])
    decreases i
  {
    if i > 0 {
      assert bridges[0].name != target;
      assert forall j | 0 <= j < i - 1 :: bridges[1..][j] == bridges[j + 1];
      GetBridgeFirst(bridges[1..], target, i - 1);
    }
  }

  /**
   * A needed bridge whose directory is missing from the bridge set does not fail the
   * load; it is reported only when it is looked up.
   */
  lemma AbsentBridgeNotFound(paths: seq<string>, needed: seq<string>, read: string -> Option<string>, eval: string -> Option<BridgeTable>, name: string)
    requires BridgesFrom([], paths, needed, read, eval).Ok?
    requires name !in NeededNames(paths, needed)
    ensures GetBridge(BridgesFrom([], paths, needed, read, eval).value, name) == Err(BridgeNotFound(name))
  {
    BridgesFromNames([], paths, needed, read, eval);
    assert NamesOf([]) == [];
    assert [] + NeededNames(paths, needed) == NeededNames(paths, needed);
  }

  // ---------------------------------------------------------------------------
  // Tables passed to the bridge functions
  // ---------------------------------------------------------------------------

  function ToLua(v: Input.AttributeValue): LuaValue {
    match v
    case String(s) => LStr(s)
    case Integer(i) => LInt(i)
    case Float(shown) => LNum(shown)
    case Boolean(b) => LBool(b)
  }

  /** The attributes as a Lua table, key by key. */
  function AttributesTable(attrs: map<string, Input.AttributeValue>): (t: LuaTable)
    ensures t.Keys == attrs.Keys
  {
    map k | k in attrs :: ToLua(attrs[k])
  }

  /**
   * Filling a fresh table from the attribute map, whose iteration order is
   * unspecified: keys are taken in any order, and since they are distinct the
   * result is the same table.
   */
  method FillTable(base: LuaTable, attrs: map<string, Input.AttributeValue>) returns (t: LuaTable)
    ensures t == base + AttributesTable(attrs)
  {
    t := base;
    var todo := attrs.Keys;
    while todo != {}
      invariant todo <= attrs.Keys
      invariant forall k | k in t :: k in base || k in attrs.Keys
      invariant forall k | k in attrs.Keys && k !in todo :: k in t && t[k] == ToLua(attrs[k])
      invariant forall k | k in base && (k !in attrs.Keys || k in todo) :: k in t && t[k] == base[k]
      invariant forall k | k in t && k in todo :: k in base && t[k] == base[k]
      decreases todo
    {
      var key :| key in todo;
      t := t[key := ToLua(attrs[key])];
      todo := todo - {key};
    }
    assert t == base + AttributesTable(attrs);
  }

  /**
   * parse_attributes: `pkg_path` is the recorded path of the first record with the
   * package's name, then every attribute is set, so an attribute `pkg_path` wins.
   */
  function ParseAttributes(rows: seq<Db.Row>, attrs: map<string, Input.AttributeValue>, name: string): Result<LuaTable, BridgeError> {
    var pkgs := Fs.ByName(rows, [name]);
    if pkgs.Err? then Err(DbError)
    else if pkgs.value == [] then Err(MissingPkgPath)
    else Ok(map["pkg_path" := LStr(pkgs.value[0].path)] + AttributesTable(attrs))
  }

  /**
   * The table handed to remove and update: exactly the attribute keys plus
   * `pkg_path`, each attribute as given, and `pkg_path` the recorded path unless an
   * attribute overrides it; with no record the call fails with `MissingPkgPath`.
   */
  lemma ParseAttributesTable(rows: seq<Db.Row>, attrs: map<string, Input.AttributeValue>, name: string)
    ensures var r := ParseAttributes(rows, attrs, name);
      r.Ok? ==> (r.value.Keys == attrs.Keys + {"pkg_path"} &&
        (forall k | k in attrs :: r.value[k] == ToLua(attrs[k])) &&
        ("pkg_path" !in attrs ==> r.value["pkg_path"] == LStr(Fs.ByName(rows, [name]).value[0].path)))
    ensures Fs.ByName(rows, [name]).Ok? ==>
      (ParseAttributes(rows, attrs, name) == Err(MissingPkgPath) <==> Fs.ByName(rows, [name]).value == [])
    ensures Fs.ByName(rows, [name]).Err? ==> ParseAttributes(rows, attrs, name) == Err(DbError)
  {
  }

  // ---------------------------------------------------------------------------
  // convert_lua_table_to_pkg
  // ---------------------------------------------------------------------------

  /**
   * The package a bridge returned: `pkg_name`, `pkg_version` and `pkg_path` are
   * required in that order; an `entry_point` makes it a directory package. The
   * version is cut at `.`; fewer than three pieces is an out-of-bounds panic, pieces
   * after the third are dropped.
   */
  function ConvertLuaTableToPkg(t: LuaTable): (r: Result<Db.Pkg, BridgeError>)
    ensures GetString(t, "pkg_name").None? ==> r == Err(MissingPkgName)
    ensures GetString(t, "pkg_name").Some? && GetString(t, "pkg_version").None? ==> r == Err(MissingPkgVersion)
    ensures GetString(t, "pkg_name").Some? && GetString(t, "pkg_version").Some? && GetString(t, "pkg_path").None? ==>
      r == Err(MissingPkgPath)
    ensures r.Ok? ==> r.value.name == GetString(t, "pkg_name").value && r.value.path == GetString(t, "pkg_path").value
    ensures r.Ok? ==> (r.value.pkgType.Directory? <==> GetString(t, "entry_point").Some?)
    ensures r.Ok? && r.value.pkgType.Directory? ==> r.value.pkgType.entryPoint == GetString(t, "entry_point").value
  {
    var name := GetString(t, "pkg_name");
    if name.None? then Err(MissingPkgName)
    else
      var version := GetString(t, "pkg_version");
      if version.None? then Err(MissingPkgVersion)
      else
        var path := GetString(t, "pkg_path");
        if path.None? then Err(MissingPkgPath)
        else
          var entryPoint := GetString(t, "entry_point");
          var pkgType := if entryPoint.Some? then Db.Directory(entryPoint.value) else Db.SingleExecutable;
          var cells := Split(version.value, '.');
          if |cells| < 3 then Err(VersionIndexPanic)
          else Ok(Db.Pkg(name.value, Db.Version(cells[0], cells[1], cells[2]), path.value, pkgType))
  }

  lemma {:induction false} JoinWithSplitAt(parts: seq<string>, k: nat, sep: char)
    requires 1 <= k < |parts|
    ensures JoinWith(parts, sep) == JoinWith(parts[..k], sep) + [sep] + JoinWith(parts[k..], sep)
    decreases k
  {
    if k > 1 {
      JoinWithSplitAt(parts[1..], k - 1, sep);
      assert parts[1..][..k - 1] == parts[..k][1..];
      assert parts[1..][k - 1..] == parts[k..];
      assert parts[..k][0] == parts[0];
    } else {
      assert parts[..1] == [parts[0]];
      assert parts[1..] == parts[k..];
    }
  }

  /**
   * The version read from a bridge is a prefix of the text it returned: the whole text
   * when it has exactly three pieces, else the first three pieces followed by `.` and
   * the dropped rest. A version text with fewer than three pieces panics.
   */
  lemma ConvertVersion(t: LuaTable)
    requires GetString(t, "pkg_name").Some? && GetString(t, "pkg_version").Some? && GetString(t, "pkg_path").Some?
    ensures var s := GetString(t, "pkg_version").value;
      |Split(s, '.')| < 3 <==> ConvertLuaTableToPkg(t) == Err(VersionIndexPanic)
    ensures var s := GetString(t, "pkg_version").value;
      ConvertLuaTableToPkg(t).Ok? && |Split(s, '.')| == 3 ==> Db.EncodeVersion(ConvertLuaTableToPkg(t).value.version) == s
    ensures var s := GetString(t, "pkg_version").value;
      ConvertLuaTableToPkg(t).Ok? && |Split(s, '.')| > 3 ==>
        s == Db.EncodeVersion(ConvertLuaTableToPkg(t).value.version) + "." + JoinWith(Split(s, '.')[3..], '.')
  {
    var s := GetString(t, "pkg_version").value;
    var cells := Split(s, '.');
    JoinWithSplit(s, '.');
    if |cells| >= 3 {
      assert cells[..3] == [cells[0], cells[1], cells[2]];
      if |cells| == 3 {
        assert cells == cells[..3];
      }
      if |cells| > 3 {
        JoinWithSplitAt(cells, 3, '.');
      }
    }
  }

  /** A package a bridge returned always survives the record table: it reads back as itself. */
  lemma ConvertedPkgStorable(t: LuaTable, bridge: string)
    requires ConvertLuaTableToPkg(t).Ok?
    ensures Db.StorableVersion(ConvertLuaTableToPkg(t).value.version)
    ensures Db.DecodeRow(Db.EncodeRow(ConvertLuaTableToPkg(t).value, bridge)) == Ok(ConvertLuaTableToPkg(t).value)
  {
    Db.RowRoundTrip(ConvertLuaTableToPkg(t).value, bridge);
  }

  // ---------------------------------------------------------------------------
  // Calling the bridge functions
  // ---------------------------------------------------------------------------

  /**
   * The Lua runtime as an oracle: calling the bridge function `id` with an input and
   * an options table may change the disk and yields a table or a boolean, or raises.
   */
  datatype Runtime = Runtime(
    callTable: (nat, string, LuaTable, FileSystem) -> (FileSystem, Result<LuaTable, LuaError>),
    callBool: (nat, string, LuaTable, FileSystem) -> (FileSystem, Result<bool, LuaError>))

  /** The disk after a call and what the call gave back. */
  datatype Called<T> = Called(files: FileSystem, result: Result<T, BridgeError>)

  /** The default remove: delete the file at `pkg_path` and answer true. */
  function DefaultRemove(opts: LuaTable, fs: FileSystem): Called<bool> {
    var path := GetString(opts, "pkg_path");
    if path.None? then Called(fs, Err(Lua(Conversion("pkg_path"))))
    else
      var gone := RemoveFile(fs, path.value);
      if gone.Err? then Called(fs, Err(Lua(External(gone.error))))
      else Called(gone.value, Ok(true))
  }

  /** The default update: delete the file at `pkg_path`, then install with the same input and options. */
  function DefaultUpdate(rt: Runtime, install: nat, input: string, opts: LuaTable, fs: FileSystem): Called<LuaTable> {
    var path := GetString(opts, "pkg_path");
    if path.None? then Called(fs, Err(Lua(Conversion("pkg_path"))))
    else
      var gone := RemoveFile(fs, path.value);
      if gone.Err? then Called(fs, Err(Lua(External(gone.error))))
      else
        var out := rt.callTable(install, input, opts, gone.value);
        Called(out.0, if out.1.Err? then Err(Lua(out.1.error)) else Ok(out.1.value))
  }

  /**
   * With a `pkg_path` naming a file (or link), the default remove deletes exactly
   * that entry and answers true; the default update deletes it and returns whatever
   * install returns on the remaining disk for the same input and options.
   */
  lemma DefaultsDelete(rt: Runtime, install: nat, input: string, opts: LuaTable, fs: FileSystem)
    requires "pkg_path" in opts && opts["pkg_path"].LStr?
    requires opts["pkg_path"].s in fs && fs[opts["pkg_path"].s] != Dir
    ensures DefaultRemove(opts, fs) == Called(fs - {opts["pkg_path"].s}, Ok(true))
    ensures var out := rt.callTable(install, input, opts, fs - {opts["pkg_path"].s});
      DefaultUpdate(rt, install, input, opts, fs) ==
        Called(out.0, if out.1.Err? then Err(Lua(out.1.error)) else Ok(out.1.value))
  {
  }

  /** Remove through a hook: the bridge's own function, or the default. */
  function CallRemove(rt: Runtime, hook: Hook, input: string, opts: LuaTable, fs: FileSystem): Called<bool> {
    match hook
    case Script(id) =>
      var out := rt.callBool(id, input, opts, fs);
      Called(out.0, if out.1.Err? then Err(Lua(out.1.error)) else Ok(out.1.value))
    case Default => DefaultRemove(opts, fs)
  }

  /** Update through a hook: the bridge's own function, or the default. */
  function CallUpdate(rt: Runtime, b: Bridge, input: string, opts: LuaTable, fs: FileSystem): Called<LuaTable> {
    match b.update
    case Script(id) =>
      var out := rt.callTable(id, input, opts, fs);
      Called(out.0, if out.1.Err? then Err(Lua(out.1.error)) else Ok(out.1.value))
    case Default => DefaultUpdate(rt, b.install, input, opts, fs)
  }

  /** The spec of `BridgeApi.Install`. */
  function InstallSpec(rt: Runtime, bridges: seq<Bridge>, bridgeName: string, decl: Input.PkgDeclaration, fs: FileSystem): Called<Db.Pkg> {
    var b := GetBridge(bridges, bridgeName);
    if b.Err? then Called(fs, Err(b.error))
    else
      var out := rt.callTable(b.value.install, decl.input, AttributesTable(decl.attributes), fs);
      if out.1.Err? then Called(out.0, Err(Lua(out.1.error)))
      else Called(out.0, ConvertLuaTableToPkg(out.1.value))
  }

  /** The spec of `BridgeApi.Remove`. */
  function RemoveSpec(rt: Runtime, bridges: seq<Bridge>, rows: seq<Db.Row>, bridgeName: string, decl: Input.PkgDeclaration, fs: FileSystem): Called<bool> {
    var b := GetBridge(bridges, bridgeName);
    if b.Err? then Called(fs, Err(b.error))
    else
      var opts := ParseAttributes(rows, decl.attributes, decl.name);
      if opts.Err? then Called(fs, Err(opts.error))
      else CallRemove(rt, b.value.remove, decl.input, opts.value, fs)
  }

  /** The spec of `BridgeApi.Update`. */
  function UpdateSpec(rt: Runtime, bridges: seq<Bridge>, rows: seq<Db.Row>, bridgeName: string, decl: Input.PkgDeclaration, fs: FileSystem): Called<Db.Pkg> {
    var b := GetBridge(bridges, bridgeName);
    if b.Err? then Called(fs, Err(b.error))
    else
      var opts := ParseAttributes(rows, decl.attributes, decl.name);
      if opts.Err? then Called(fs, Err(opts.error))
      else
        var out := CallUpdate(rt, b.value, decl.input, opts.value, fs);
        if out.result.Err? then Called(out.files, Err(out.result.error))
        else Called(out.files, ConvertLuaTableToPkg(out.result.value))
  }

  /**
   * Removing a recorded package that carries no `pkg_path` attribute through a bridge
   * without its own remove deletes the file at the path the record holds, and
   * answers true.
   */
  lemma DefaultRemoveDeletesRecordedPath(rt: Runtime, bridges: seq<Bridge>, rows: seq<Db.Row>, bridgeName: string, decl: Input.PkgDeclaration, fs: FileSystem)
    requires GetBridge(bridges, bridgeName).Ok? && GetBridge(bridges, bridgeName).value.remove == Default
    requires "pkg_path" !in decl.attributes
    requires Fs.ByName(rows, [decl.name]).Ok? && Fs.ByName(rows, [decl.name]).value != []
    requires var path := Fs.ByName(rows, [decl.name]).value[0].path; path in fs && fs[path] != Dir
    ensures RemoveSpec(rt, bridges, rows, bridgeName, decl, fs) ==
      Called(fs - {Fs.ByName(rows, [decl.name]).value[0].path}, Ok(true))
  {
    ParseAttributesTable(rows, decl.attributes, decl.name);
    var opts := ParseAttributes(rows, decl.attributes, decl.name).value;
    DefaultsDelete(rt, 0, decl.input, opts, fs);
  }

  /**
   * What `BridgeApi::new` loads: the `main.lua` paths of the bridge set, then the
   * needed bridges among them; the first error stops it.
   */
  function LoadBridges(setPath: string, bridgeSet: Option<DirTree.Kind>, needed: seq<string>,
                       read: string -> Option<string>, eval: string -> Option<BridgeTable>): Result<seq<Bridge>, BridgeError> {
    if bridgeSet.None? then Err(BridgeSetNotFound(setPath))
    else if !bridgeSet.value.Dir? then Err(BridgeSetPathAreNotADirectory(setPath))
    else BridgesFrom([], MainLuaPaths(setPath, bridgeSet.value.entries), needed, read, eval)
  }

  /**
   * Every bridge loaded at start-up is needed, and is what the `main.lua` of one
   * directory of the bridge set loads to.
   */
  lemma LoadedBridgesSound(setPath: string, bridgeSet: Option<DirTree.Kind>, needed: seq<string>,
                           read: string -> Option<string>, eval: string -> Option<BridgeTable>, b: Bridge)
    requires LoadBridges(setPath, bridgeSet, needed, read, eval).Ok?
    requires b in LoadBridges(setPath, bridgeSet, needed, read, eval).value
    ensures bridgeSet.Some? && bridgeSet.value.Dir?
    ensures b.name in needed
    ensures exists i | 0 <= i < |bridgeSet.value.entries| ::
      && IsBridgeDir(bridgeSet.value.entries[i])
      && LoadOne(Join(Join(setPath, bridgeSet.value.entries[i].name), MAIN_LUA), needed, read, eval) == Ok(Some(b))
  {
    var entries := bridgeSet.value.entries;
    var paths := MainLuaPaths(setPath, entries);
    BridgesFromLoaded([], paths, needed, read, eval, b);
    var k :| 0 <= k < |paths| && LoadOne(paths[k], needed, read, eval) == Ok(Some(b));
    MainLuaPathsExact(setPath, entries, paths[k]);
  }

  /**
   * BridgeApi::new: lists the bridge set, loads the needed bridges, and wraps them
   * with the runtime, the record table and the disk; either loading error is passed on.
   */
  method NewBridgeApi(setPath: string, bridgeSet: Option<DirTree.Kind>, needed: seq<string>,
                      read: string -> Option<string>, eval: string -> Option<BridgeTable>,
                      runtime: Runtime, db: Db.Db, disk: Fs.Disk) returns (r: Result<BridgeApi, BridgeError>)
    ensures r.Err? <==> LoadBridges(setPath, bridgeSet, needed, read, eval).Err?
    ensures r.Err? ==> r.error == LoadBridges(setPath, bridgeSet, needed, read, eval).error
    ensures r.Ok? ==> fresh(r.value) && r.value.bridges == LoadBridges(setPath, bridgeSet, needed, read, eval).value
    ensures r.Ok? ==> r.value.runtime == runtime && r.value.db == db && r.value.disk == disk
  {
    var paths := GetBridgesPaths(setPath, bridgeSet);
    if paths.Err? {
      return Err(paths.error);
    }
    var bridges := GetBridges(paths.value, needed, read, eval);
    if bridges.Err? {
      return Err(bridges.error);
    }
    var api := new BridgeApi(bridges.value, runtime, db, disk);
    r := Ok(api);
  }

  /** The bridges, the Lua runtime, the record table and the disk the bridge functions work on. */
  class BridgeApi {
    const bridges: seq<Bridge>
    const runtime: Runtime
    const db: Db.Db
    const disk: Fs.Disk

    constructor (bridges: seq<Bridge>, runtime: Runtime, db: Db.Db, disk: Fs.Disk)
      ensures this.bridges == bridges && this.runtime == runtime && this.db == db && this.disk == disk
    {
      this.bridges := bridges;
      this.runtime := runtime;
      this.db := db;
      this.disk := disk;
    }

    /** install: call the bridge's install with the input and the attributes as a table, and read the package back. */
    method Install(bridgeName: string, decl: Input.PkgDeclaration) returns (r: Result<Db.Pkg, BridgeError>)
      modifies disk
      ensures var c := InstallSpec(runtime, bridges, bridgeName, decl, old(disk.files));
        disk.files == c.files && r == c.result
    {
      var bridge := GetBridge(bridges, bridgeName);
      if bridge.Err? {
        return Err(bridge.error);
      }
      var table := FillTable(map[], decl.attributes);
      assert map[] + AttributesTable(decl.attributes) == AttributesTable(decl.attributes);
      var out := runtime.callTable(bridge.value.install, decl.input, table, disk.files);
      disk.files := out.0;
      if out.1.Err? {
        return Err(Lua(out.1.error));
      }
      r := ConvertLuaTableToPkg(out.1.value);
    }

    /** remove: call the bridge's remove (or the default) with the input and the recorded path and attributes. */
    method Remove(bridgeName: string, decl: Input.PkgDeclaration) returns (r: Result<bool, BridgeError>)
      modifies disk
      ensures var c := RemoveSpec(runtime, bridges, db.rows, bridgeName, decl, old(disk.files));
        disk.files == c.files && r == c.result
    {
      var bridge := GetBridge(bridges, bridgeName);
      if bridge.Err? {
        return Err(bridge.error);
      }
      var opts := Options(decl);
      if opts.Err? {
        return Err(opts.error);
      }
      var out := CallRemove(runtime, bridge.value.remove, decl.input, opts.value, disk.files);
      disk.files := out.files;
      r := out.result;
    }

    /** update: call the bridge's update (or the default) and read the package back. */
    method Update(bridgeName: string, decl: Input.PkgDeclaration) returns (r: Result<Db.Pkg, BridgeError>)
      modifies disk
      ensures var c := UpdateSpec(runtime, bridges, db.rows, bridgeName, decl, old(disk.files));
        disk.files == c.files && r == c.result
    {
      var bridge := GetBridge(bridges, bridgeName);
      if bridge.Err? {
        return Err(bridge.error);
      }
      var opts := Options(decl);
      if opts.Err? {
        return Err(opts.error);
      }
      var out := CallUpdate(runtime, bridge.value, decl.input, opts.value, disk.files);
      disk.files := out.files;
      if out.result.Err? {
        return Err(out.result.error);
      }
      r := ConvertLuaTableToPkg(out.result.value);
    }

    /** parse_attributes: the recorded path of the package, then its attributes. */
    method Options(decl: Input.PkgDeclaration) returns (r: Result<LuaTable, BridgeError>)
      ensures r == ParseAttributes(db.rows, decl.attributes, decl.name)
    {
      var pkgs := db.GetPkgsByName([decl.name]);
      if pkgs.Err? {
        return Err(DbError);
      }
      if pkgs.value == [] {
        return Err(MissingPkgPath);
      }
      var table := FillTable(map["pkg_path" := LStr(pkgs.value[0].path)], decl.attributes);
      r := Ok(table);
    }
  }
}
