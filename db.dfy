/**
 * The package record store (src/db.rs): one table keyed by package name holding the
 * encoded version, path, type tag, entry point and owning bridge of every installed
 * package. The table is a sequence of rows in insertion (rowid) order whose names
 * are pairwise distinct, which is what the primary key guarantees.
 */
module Db {
  import opened Wrappers
  import opened Strings
  import Input

  datatype PkgType = SingleExecutable | Directory(entryPoint: string)

  datatype Version = Version(first: string, second: string, third: string)

  datatype Pkg = Pkg(name: string, version: Version, path: string, pkgType: PkgType)

  /** One row of the `packages` table; every column is TEXT. */
  datatype Row = Row(name: string, version: string, path: string, pkgType: string, entryPoint: string, bridge: string)

  datatype DbError =
    | ConstraintViolation(name: string)  // the primary key refused a second row with this name
    | InvalidQuery                       // a stored row could not be decoded
    | QueryReturnedNoRows

  const SINGLE_EXECUTABLE_TAG: string := "SingleExecutable"
  const DIRECTORY_TAG: string := "Directory"

  // ---------------------------------------------------------------------------
  // Version and type encoding
  // ---------------------------------------------------------------------------

  /** The version column: `first.second.third`. */
  function EncodeVersion(v: Version): string {
    JoinWith([v.first, v.second, v.third], '.')
  }

  /** Reading the version column back: split on `.`, exactly three pieces or nothing. */
  function DecodeVersion(s: string): (r: Option<Version>)
    ensures r.Some? <==> |Split(s, '.')| == 3
    ensures r.Some? ==> '.' !in r.value.first && '.' !in r.value.second && '.' !in r.value.third
  {
    var parts := Split(s, '.');
    if |parts| != 3 then None else Some(Version(parts[0], parts[1], parts[2]))
  }

  /** A version survives the table exactly when none of its cells contains a `.`. */
  lemma VersionRoundTrip(v: Version)
    ensures DecodeVersion(EncodeVersion(v)) == Some(v) <==>
      '.' !in v.first && '.' !in v.second && '.' !in v.third
  {
    var parts := [v.first, v.second, v.third];
    if '.' !in v.first && '.' !in v.second && '.' !in v.third {
      SplitJoinWith(parts, '.');
    }
  }

  /** Every version column that decodes is the encoding of what it decodes to. */
  lemma VersionColumnCanonical(s: string)
    requires DecodeVersion(s).Some?
    ensures EncodeVersion(DecodeVersion(s).value) == s
  {
    var parts := Split(s, '.');
    JoinWithSplit(s, '.');
    assert [parts[0], parts[1], parts[2]] == parts;
  }

  /** The type tag column and the entry point column written for a package. */
  function EncodeType(t: PkgType, path: string): (string, string) {
    match t
    case SingleExecutable => (SINGLE_EXECUTABLE_TAG, path)
    case Directory(ep) => (DIRECTORY_TAG, ep)
  }

  /** Reading the type back from its tag and entry point columns; any other tag is refused. */
  function DecodeType(tag: string, entryPoint: string): (r: Option<PkgType>)
    ensures r.Some? <==> tag == SINGLE_EXECUTABLE_TAG || tag == DIRECTORY_TAG
  {
    if tag == SINGLE_EXECUTABLE_TAG then Some(SingleExecutable)
    else if tag == DIRECTORY_TAG then Some(Directory(entryPoint))
    else None
  }

  /** The type always survives the table; a single executable stores its path as entry point. */
  lemma TypeRoundTrip(t: PkgType, path: string)
    ensures DecodeType(EncodeType(t, path).0, EncodeType(t, path).1) == Some(t)
    ensures t.SingleExecutable? ==> EncodeType(t, path).1 == path
  {
  }

  /** The row install_bridge_pkgs writes for `p` on behalf of `bridge`. */
  function EncodeRow(p: Pkg, bridge: string): (r: Row)
    ensures r.name == p.name && r.path == p.path && r.bridge == bridge
  {
    var (tag, entryPoint) := EncodeType(p.pkgType, p.path);
    Row(p.name, EncodeVersion(p.version), p.path, tag, entryPoint, bridge)
  }

  /** A package read back from a row; the version is checked before the type tag. */
  function DecodeRow(row: Row): (r: Result<Pkg, DbError>)
    ensures r.Ok? ==> r.value.name == row.name && r.value.path == row.path
    ensures r.Err? ==> r.error == InvalidQuery
  {
    match DecodeVersion(row.version)
    case None => Err(InvalidQuery)
    case Some(v) =>
      match DecodeType(row.pkgType, row.entryPoint)
      case None => Err(InvalidQuery)
      case Some(t) => Ok(Pkg(row.name, v, row.path, t))
  }

  /**
   * to_pkg_declaration_with_empty_attributes: a record that is no longer declared, as a
   * declaration whose input is the recorded path; its attributes are not kept.
   */
  function ToPkgDeclarationWithEmptyAttributes(p: Pkg): Input.PkgDeclaration {
    Input.PkgDeclaration(p.name, p.path, map[])
  }

  /** Version cells free of `.`, the only condition under which a package survives storing. */
  predicate StorableVersion(v: Version) {
    '.' !in v.first && '.' !in v.second && '.' !in v.third
  }

  /** A stored package reads back as itself exactly when its version is storable. */
  lemma RowRoundTrip(p: Pkg, bridge: string)
    ensures DecodeRow(EncodeRow(p, bridge)) == Ok(p) <==> StorableVersion(p.version)
  {
    VersionRoundTrip(p.version);
    TypeRoundTrip(p.pkgType, p.path);
  }

  // ---------------------------------------------------------------------------
  // The table as values
  // ---------------------------------------------------------------------------

  predicate HasName(rows: seq<Row>, name: string) {
    exists i :: 0 <= i < |rows| && rows[i].name == name
  }

  /** The primary key: no two rows share a name. */
  predicate UniqueNames(rows: seq<Row>) {
    forall i, j :: 0 <= i < j < |rows| ==> rows[i].name != rows[j].name
  }

  /**
   * The spec of `InstallBridgePkgs`: rows are inserted one by one; the first package
   * whose name is already present stops the batch with the rows before it kept.
   */
  function Insert(rows: seq<Row>, pkgs: seq<Pkg>, bridge: string): (seq<Row>, Result<(), DbError>)
    decreases |pkgs|
  {
    if pkgs == [] then (rows, Ok(()))
    else if HasName(rows, pkgs[0].name) then (rows, Err(ConstraintViolation(pkgs[0].name)))
    else Insert(rows + [EncodeRow(pkgs[0], bridge)], pkgs[1..], bridge)
  }

  function EncodeRows(pkgs: seq<Pkg>, bridge: string): (r: seq<Row>)
    ensures |r| == |pkgs| && forall i :: 0 <= i < |pkgs| ==> r[i] == EncodeRow(pkgs[i], bridge)
  {
    seq(|pkgs|, i requires 0 <= i < |pkgs| => EncodeRow(pkgs[i], bridge))
  }

  /** The package names are pairwise distinct and none is in `rows`. */
  predicate InsertableNames(rows: seq<Row>, pkgs: seq<Pkg>) {
    && (forall i :: 0 <= i < |pkgs| ==> !HasName(rows, pkgs[i].name))
    && (forall i, j :: 0 <= i < j < |pkgs| ==> pkgs[i].name != pkgs[j].name)
  }

  lemma HasNameSnoc(rows: seq<Row>, row: Row, n: string)
    ensures HasName(rows + [row], n) <==> HasName(rows, n) || row.name == n
  {
    if HasName(rows + [row], n) {
      var i :| 0 <= i < |rows + [row]| && (rows + [row])[i].name == n;
      if i < |rows| {
        assert rows[i] == (rows + [row])[i];
      }
    }
    if HasName(rows, n) {
      var i :| 0 <= i < |rows| && rows[i].name == n;
      assert (rows + [row])[i] == rows[i];
    }
    assert (rows + [row])[|rows|] == row;
  }

  /** Inserting `p` first and then the rest is insertable exactly when the whole batch is. */
  lemma InsertableCons(rows: seq<Row>, p: Pkg, ps: seq<Pkg>, bridge: string)
    ensures InsertableNames(rows, [p] + ps) <==>
      !HasName(rows, p.name) && InsertableNames(rows + [EncodeRow(p, bridge)], ps)
  {
    var all := [p] + ps;
    var next := rows + [EncodeRow(p, bridge)];
    assert all[0] == p;
    assert forall i :: 0 <= i < |ps| ==> all[i + 1] == ps[i];
    forall n ensures HasName(next, n) <==> HasName(rows, n) || p.name == n {
      HasNameSnoc(rows, EncodeRow(p, bridge), n);
    }
    if InsertableNames(rows, all) {
      forall i | 0 <= i < |ps| ensures !HasName(next, ps[i].name) {
        assert all[0].name != all[i + 1].name;
        assert !HasName(rows, all[i + 1].name);
      }
      forall i, j | 0 <= i < j < |ps| ensures ps[i].name != ps[j].name {
        assert all[i + 1].name != all[j + 1].name;
      }
    }
    if !HasName(rows, p.name) && InsertableNames(next, ps) {
      forall i | 0 <= i < |all| ensures !HasName(rows, all[i].name) {
        if i > 0 {
          assert !HasName(next, ps[i - 1].name);
        }
      }
      forall i, j | 0 <= i < j < |all| ensures all[i].name != all[j].name {
        assert !HasName(next, ps[j - 1].name);
        if i > 0 {
          assert ps[i - 1].name != ps[j - 1].name;
        }
      }
    }
  }

  /** Inserting keeps the primary key. */
  lemma {:induction false} InsertUnique(rows: seq<Row>, pkgs: seq<Pkg>, bridge: string)
    requires UniqueNames(rows)
    ensures UniqueNames(Insert(rows, pkgs, bridge).0)
    decreases |pkgs|
  {
    if pkgs != [] && !HasName(rows, pkgs[0].name) {
      var row := EncodeRow(pkgs[0], bridge);
      var next := rows + [row];
      assert UniqueNames(next) by {
        forall i | 0 <= i < |rows| ensures next[i].name != row.name {
          assert rows[i].name != pkgs[0].name;
        }
      }
      InsertUnique(next, pkgs[1..], bridge);
    }
  }

  /** A batch succeeds exactly when its names are fresh and distinct, and then appends one row per package. */
  lemma {:induction false} InsertSucceeds(rows: seq<Row>, pkgs: seq<Pkg>, bridge: string)
    ensures Insert(rows, pkgs, bridge).1.Ok? <==> InsertableNames(rows, pkgs)
    ensures Insert(rows, pkgs, bridge).1.Ok? ==> Insert(rows, pkgs, bridge).0 == rows + EncodeRows(pkgs, bridge)
    decreases |pkgs|
  {
    if pkgs == [] {
      assert rows + EncodeRows(pkgs, bridge) == rows;
    } else if HasName(rows, pkgs[0].name) {
      assert !InsertableNames(rows, pkgs);
    } else {
      var tail := pkgs[1..];
      var next := rows + [EncodeRow(pkgs[0], bridge)];
      assert InsertableNames(rows, pkgs) <==> InsertableNames(next, tail) by {
        assert pkgs == [pkgs[0]] + tail;
        InsertableCons(rows, pkgs[0], tail, bridge);
      }
      InsertSucceeds(next, tail, bridge);
      EncodeRowsCons(rows, pkgs, bridge);
    }
  }

  /** Encoding the first package and then the rest appends the same rows as encoding all. */
  lemma EncodeRowsCons(rows: seq<Row>, pkgs: seq<Pkg>, bridge: string)
    requires pkgs != []
    ensures (rows + [EncodeRow(pkgs[0], bridge)]) + EncodeRows(pkgs[1..], bridge) == rows + EncodeRows(pkgs, bridge)
  {
    var head := [EncodeRow(pkgs[0], bridge)];
    var all, tail := EncodeRows(pkgs, bridge), EncodeRows(pkgs[1..], bridge);
    forall i | 0 <= i < |all|
      ensures all[i] == (head + tail)[i]
    {
      if i > 0 {
        assert pkgs[1..][i - 1] == pkgs[i];
      }
    }
    assert all == head + tail;
    assert (rows + head) + tail == rows + (head + tail);
  }

  /**
   * No transaction: a failing batch stops at the first package `k` whose name is
   * taken, by an existing row or an earlier package of the batch, and the rows for
   * `pkgs[..k]` stay inserted.
   */
  lemma {:induction false} InsertStops(rows: seq<Row>, pkgs: seq<Pkg>, bridge: string) returns (k: nat)
    requires Insert(rows, pkgs, bridge).1.Err?
    ensures k < |pkgs| && InsertableNames(rows, pkgs[..k])
    ensures Insert(rows, pkgs, bridge).0 == rows + EncodeRows(pkgs[..k], bridge)
    ensures HasName(Insert(rows, pkgs, bridge).0, pkgs[k].name)
    ensures Insert(rows, pkgs, bridge).1.error == ConstraintViolation(pkgs[k].name)
    decreases |pkgs|
  {
    if HasName(rows, pkgs[0].name) {
      k := 0;
      assert pkgs[..0] == [];
      assert rows + EncodeRows(pkgs[..0], bridge) == rows;
    } else {
      var next := rows + [EncodeRow(pkgs[0], bridge)];
      var tail := pkgs[1..];
      var j := InsertStops(next, tail, bridge);
      k := j + 1;
      var prefix := pkgs[..k];
      assert prefix[0] == pkgs[0] && prefix[1..] == tail[..j];
      assert InsertableNames(rows, prefix) by {
        assert prefix == [pkgs[0]] + tail[..j];
        InsertableCons(rows, pkgs[0], tail[..j], bridge);
      }
      EncodeRowsCons(rows, prefix, bridge);
      assert pkgs[k] == tail[j];
    }
  }

  /** A row with the name is deleted; the others keep their order. */
  function Delete(rows: seq<Row>, name: string): (r: seq<Row>)
    ensures |r| <= |rows|
    decreases |rows|
  {
    if rows == [] then []
    else (if rows[0].name == name then [] else [rows[0]]) + Delete(rows[1..], name)
  }

  /** The spec of `RemovePkgs`: one DELETE per name, in order. */
  function DeleteAll(rows: seq<Row>, names: seq<string>): seq<Row>
    decreases |names|
  {
    if names == [] then rows else DeleteAll(Delete(rows, names[0]), names[1..])
  }

  /** A reference definition: the rows whose name is not among `names`, in table order. */
  function Keep(rows: seq<Row>, names: seq<string>): (r: seq<Row>)
    ensures forall i :: 0 <= i < |r| ==> r[i] in rows && r[i].name !in names
    decreases |rows|
  {
    if rows == [] then []
    else (if rows[0].name in names then [] else [rows[0]]) + Keep(rows[1..], names)
  }

  lemma {:induction false} DeleteIsKeep(rows: seq<Row>, name: string)
    ensures Delete(rows, name) == Keep(rows, [name])
    decreases |rows|
  {
    if rows != [] {
      DeleteIsKeep(rows[1..], name);
    }
  }

  lemma {:induction false} KeepKeep(rows: seq<Row>, a: seq<string>, b: seq<string>)
    ensures Keep(Keep(rows, a), b) == Keep(rows, a + b)
    decreases |rows|
  {
    if rows != [] {
      KeepKeep(rows[1..], a, b);
      var head := if rows[0].name in a then [] else [rows[0]];
      assert Keep(rows, a) == head + Keep(rows[1..], a);
      KeepAppend(head, Keep(rows[1..], a), b);
    }
  }

  lemma {:induction false} KeepAppend(x: seq<Row>, y: seq<Row>, names: seq<string>)
    ensures Keep(x + y, names) == Keep(x, names) + Keep(y, names)
    decreases |x|
  {
    if x == [] {
      assert x + y == y;
    } else {
      assert (x + y)[1..] == x[1..] + y;
      KeepAppend(x[1..], y, names);
    }
  }

  lemma KeepNone(rows: seq<Row>)
    ensures Keep(rows, []) == rows
  {
    if rows != [] {
      KeepNone(rows[1..]);
    }
  }

  /**
   * remove_pkgs deletes exactly the named records: what is left is every other row,
   * unchanged and in its order. Names that match no row change nothing.
   */
  lemma {:induction false} DeleteAllKeepsOthers(rows: seq<Row>, names: seq<string>)
    ensures DeleteAll(rows, names) == Keep(rows, names)
    decreases |names|
  {
    if names == [] {
      KeepNone(rows);
    } else {
      DeleteIsKeep(rows, names[0]);
      DeleteAllKeepsOthers(Delete(rows, names[0]), names[1..]);
      KeepKeep(rows, [names[0]], names[1..]);
      assert [names[0]] + names[1..] == names;
    }
  }

  lemma {:induction false} KeepAbsent(rows: seq<Row>, names: seq<string>)
    requires forall i :: 0 <= i < |rows| ==> rows[i].name !in names
    ensures Keep(rows, names) == rows
    decreases |rows|
  {
    if rows != [] {
      KeepAbsent(rows[1..], names);
    }
  }

  /** Deleting names none of which is stored leaves the table as it was. */
  lemma DeleteAbsentNoop(rows: seq<Row>, names: seq<string>)
    requires forall n :: n in names ==> !HasName(rows, n)
    ensures DeleteAll(rows, names) == rows
  {
    DeleteAllKeepsOthers(rows, names);
    KeepAbsent(rows, names);
  }

  lemma {:induction false} KeepMembers(rows: seq<Row>, names: seq<string>, row: Row)
    ensures row in Keep(rows, names) <==> row in rows && row.name !in names
    decreases |rows|
  {
    if rows != [] {
      KeepMembers(rows[1..], names, row);
      assert rows == [rows[0]] + rows[1..];
    }
  }

  /** After remove_pkgs no row carries a removed name, and every other row is still there. */
  lemma DeleteAllExact(rows: seq<Row>, names: seq<string>)
    ensures forall row :: row in DeleteAll(rows, names) <==> row in rows && row.name !in names
  {
    DeleteAllKeepsOthers(rows, names);
    forall row ensures row in Keep(rows, names) <==> row in rows && row.name !in names {
      KeepMembers(rows, names, row);
    }
  }

  /** The spec of `GetPkgs`: every row decoded in table order; the first bad row fails the read. */
  function DecodeFrom(acc: seq<Pkg>, rows: seq<Row>): Result<seq<Pkg>, DbError>
    decreases |rows|
  {
    if rows == [] then Ok(acc)
    else
      match DecodeRow(rows[0])
      case Err(e) => Err(e)
      case Ok(p) => DecodeFrom(acc + [p], rows[1..])
  }

  /** A read succeeds exactly when every row decodes, and then lists them in table order. */
  lemma {:induction false} DecodeFromShape(acc: seq<Pkg>, rows: seq<Row>)
    ensures DecodeFrom(acc, rows).Ok? <==> forall i :: 0 <= i < |rows| ==> DecodeRow(rows[i]).Ok?
    ensures DecodeFrom(acc, rows).Ok? ==>
      var ps := DecodeFrom(acc, rows).value;
      |ps| == |acc| + |rows| && ps[..|acc|] == acc &&
      forall i :: 0 <= i < |rows| ==> DecodeRow(rows[i]) == Ok(ps[|acc| + i])
    decreases |rows|
  {
    if rows != [] {
      assert forall i :: 1 <= i < |rows| ==> rows[1..][i - 1] == rows[i];
      if DecodeRow(rows[0]).Ok? {
        var acc' := acc + [DecodeRow(rows[0]).value];
        DecodeFromShape(acc', rows[1..]);
        if DecodeFrom(acc, rows).Ok? {
          var ps := DecodeFrom(acc, rows).value;
          assert ps[..|acc'|] == acc';
          assert ps[..|acc|] == acc'[..|acc|];
        }
      }
    }
  }

  /** The names among `names` that have a row, in the order given: the spec of `WhichPkgsAreInstalled`. */
  function Installed(rows: seq<Row>, names: seq<string>): seq<string>
    decreases |names|
  {
    if names == [] then []
    else (if HasName(rows, names[0]) then [names[0]] else []) + Installed(rows, names[1..])
  }

  /** Some package of `pkgs` has the name. */
  predicate Carries(pkgs: seq<Pkg>, name: string) {
    exists p :: p in pkgs && p.name == name
  }

  /** The names among `names` that no decoded package carries: the spec of `WhichPkgsAreNotInstalled`. */
  function NotIn(pkgs: seq<Pkg>, names: seq<string>): seq<string>
    decreases |names|
  {
    if names == [] then []
    else (if Carries(pkgs, names[0]) then [] else [names[0]]) + NotIn(pkgs, names[1..])
  }

  /** The rows whose name is among `names`, in table order. */
  function Selected(rows: seq<Row>, names: seq<string>): (r: seq<Row>)
    ensures forall i :: 0 <= i < |r| ==> r[i] in rows && r[i].name in names
    decreases |rows|
  {
    if rows == [] then []
    else (if rows[0].name in names then [rows[0]] else []) + Selected(rows[1..], names)
  }

  /** The bridge column of the row with the name: the spec of `GetPkgBridgeByName`. */
  function BridgeOf(rows: seq<Row>, name: string): (r: Result<string, DbError>)
    ensures r.Err? <==> !HasName(rows, name)
    ensures r.Err? ==> r.error == QueryReturnedNoRows
    decreases |rows|
  {
    if rows == [] then Err(QueryReturnedNoRows)
    else if rows[0].name == name then Ok(rows[0].bridge)
    else
      var r := BridgeOf(rows[1..], name);
      assert HasName(rows[1..], name) ==> HasName(rows, name) by {
        if HasName(rows[1..], name) {
          var i :| 0 <= i < |rows[1..]| && rows[1..][i].name == name;
          assert rows[i + 1].name == name;
        }
      }
      assert HasName(rows, name) ==> HasName(rows[1..], name) by {
        if HasName(rows, name) {
          var i :| 0 <= i < |rows| && rows[i].name == name;
          assert rows[1..][i - 1].name == name;
        }
      }
      r
  }

  lemma {:induction false} BridgeOfRow(rows: seq<Row>, k: nat)
    requires UniqueNames(rows) && k < |rows|
    ensures BridgeOf(rows, rows[k].name) == Ok(rows[k].bridge)
    decreases |rows|
  {
    if k > 0 {
      assert rows[0].name != rows[k].name;
      assert rows[1..][k - 1] == rows[k];
      BridgeOfRow(rows[1..], k - 1);
    }
  }

  // ---------------------------------------------------------------------------
  // The store
  // ---------------------------------------------------------------------------

  class Db {
    var rows: seq<Row>

    ghost predicate Valid()
      reads this
    {
      UniqueNames(rows)
    }

    /** Db::new on a fresh database file: an empty table. */
    constructor ()
      ensures Valid() && rows == []
    {
      rows := [];
    }

    method InstallBridgePkgs(pkgs: seq<Pkg>, bridge: string) returns (r: Result<(), DbError>)
      requires Valid()
      modifies this
      ensures Valid()
      ensures (rows, r) == Insert(old(rows), pkgs, bridge)
    {
      var i := 0;
      while i < |pkgs|
        invariant 0 <= i <= |pkgs|
        invariant Valid()
        invariant Insert(rows, pkgs[i..], bridge) == Insert(old(rows), pkgs, bridge)
      {
        var pkg := pkgs[i];
        assert pkgs[i..][1..] == pkgs[i + 1..];
        if HasName(rows, pkg.name) {
          return Err(ConstraintViolation(pkg.name));
        }
        var row := EncodeRow(pkg, bridge);
        assert UniqueNames(rows + [row]) by {
          forall j | 0 <= j < |rows| ensures rows[j].name != row.name {
          }
        }
        rows := rows + [row];
        i := i + 1;
      }
      r := Ok(());
    }

    method RemovePkgs(names: seq<string>)
      requires Valid()
      modifies this
      ensures Valid()
      ensures rows == DeleteAll(old(rows), names)
    {
      var i := 0;
      while i < |names|
        invariant 0 <= i <= |names|
        invariant Valid()
        invariant DeleteAll(rows, names[i..]) == DeleteAll(old(rows), names)
      {
        assert names[i..][1..] == names[i + 1..];
        DeleteIsKeep(rows, names[i]);
        KeepUnique(rows, [names[i]]);
        rows := DeleteRows(rows, names[i]);
        i := i + 1;
      }
    }

    method GetPkgs() returns (r: Result<seq<Pkg>, DbError>)
      ensures r == DecodeFrom([], rows)
    {
      var pkgs: seq<Pkg> := [];
      var i := 0;
      while i < |rows|
        invariant 0 <= i <= |rows|
        invariant DecodeFrom(pkgs, rows[i..]) == DecodeFrom([], rows)
      {
        assert rows[i..][1..] == rows[i + 1..];
        var pkg := DecodeRow(rows[i]);
        if pkg.Err? {
          return Err(pkg.error);
        }
        pkgs := pkgs + [pkg.value];
        i := i + 1;
      }
      r := Ok(pkgs);
    }

    method GetPkgsByName(names: seq<string>) returns (r: Result<seq<Pkg>, DbError>)
      ensures names == [] ==> r == Ok([])
      ensures names != [] ==> r == DecodeFrom([], Selected(rows, names))
    {
      if names == [] {
        return Ok([]);
      }
      var pkgs: seq<Pkg> := [];
      var i := 0;
      while i < |rows|
        invariant 0 <= i <= |rows|
        invariant DecodeFrom(pkgs, Selected(rows[i..], names)) == DecodeFrom([], Selected(rows, names))
      {
        var row := rows[i];
        var rest := Selected(rows[i + 1..], names);
        assert Selected(rows[i..], names) == (if row.name in names then [row] else []) + rest by {
          SelectedCons(rows[i..], names);
          assert rows[i..][0] == row && rows[i..][1..] == rows[i + 1..];
        }
        if row.name in names {
          DecodeFromCons(pkgs, row, rest);
          var pkg := DecodeRow(row);
          if pkg.Err? {
            return Err(pkg.error);
          }
          pkgs := pkgs + [pkg.value];
        } else {
          assert [] + rest == rest;
        }
        i := i + 1;
      }
      r := Ok(pkgs);
    }

    method WhichPkgsAreInstalled(names: seq<string>) returns (r: seq<string>)
      ensures r == Installed(rows, names)
    {
      r := [];
      var i := 0;
      while i < |names|
        invariant 0 <= i <= |names|
        invariant r + Installed(rows, names[i..]) == Installed(rows, names)
      {
        assert names[i..][1..] == names[i + 1..];
        if HasName(rows, names[i]) {
          r := r + [names[i]];
        }
        i := i + 1;
      }
    }

    method WhichPkgsAreNotInstalled(names: seq<string>) returns (r: Result<seq<string>, DbError>)
      ensures DecodeFrom([], rows).Err? ==> r == Err(DecodeFrom([], rows).error)
      ensures DecodeFrom([], rows).Ok? ==> r == Ok(NotIn(DecodeFrom([], rows).value, names))
    {
      var installed := GetPkgs();
      if installed.Err? {
        return Err(installed.error);
      }
      var pkgs := installed.value;
      var missing: seq<string> := [];
      var i := 0;
      while i < |names|
        invariant 0 <= i <= |names|
        invariant missing + NotIn(pkgs, names[i..]) == NotIn(pkgs, names)
      {
        ghost var rest := NotIn(pkgs, names[i + 1..]);
        ghost var before := missing;
        assert NotIn(pkgs, names[i..]) == (if Carries(pkgs, names[i]) then [] else [names[i]]) + rest by {
          assert names[i..][0] == names[i] && names[i..][1..] == names[i + 1..];
        }
        if !Carries(pkgs, names[i]) {
          missing := missing + [names[i]];
          assert before + ([names[i]] + rest) == missing + rest;
        } else {
          assert [] + rest == rest;
        }
        i := i + 1;
      }
      assert names[i..] == [];
      assert missing + [] == missing;
      r := Ok(missing);
    }

    method GetPkgBridgeByName(name: string) returns (r: Result<string, DbError>)
      ensures r == BridgeOf(rows, name)
    {
      var i := 0;
      while i < |rows|
        invariant 0 <= i <= |rows|
        invariant BridgeOf(rows[i..], name) == BridgeOf(rows, name)
      {
        assert rows[i..][1..] == rows[i + 1..];
        if rows[i].name == name {
          return Ok(rows[i].bridge);
        }
        i := i + 1;
      }
      r := Err(QueryReturnedNoRows);
    }
  }

  lemma SelectedCons(rows: seq<Row>, names: seq<string>)
    requires rows != []
    ensures Selected(rows, names) == (if rows[0].name in names then [rows[0]] else []) + Selected(rows[1..], names)
  {
  }

  lemma DecodeFromCons(acc: seq<Pkg>, row: Row, rest: seq<Row>)
    ensures DecodeRow(row).Err? ==> DecodeFrom(acc, [row] + rest) == Err(DecodeRow(row).error)
    ensures DecodeRow(row).Ok? ==> DecodeFrom(acc, [row] + rest) == DecodeFrom(acc + [DecodeRow(row).value], rest)
  {
    assert ([row] + rest)[0] == row && ([row] + rest)[1..] == rest;
  }

  /** One `DELETE ... WHERE name = ?` statement. */
  method DeleteRows(rows: seq<Row>, name: string) returns (kept: seq<Row>)
    ensures kept == Delete(rows, name)
  {
    kept := [];
    var j := 0;
    while j < |rows|
      invariant 0 <= j <= |rows|
      invariant kept + Delete(rows[j..], name) == Delete(rows, name)
    {
      assert rows[j..][1..] == rows[j + 1..];
      if rows[j].name != name {
        kept := kept + [rows[j]];
      }
      j := j + 1;
    }
  }

  lemma {:induction false} KeepUnique(rows: seq<Row>, names: seq<string>)
    requires UniqueNames(rows)
    ensures UniqueNames(Keep(rows, names))
    decreases |rows|
  {
    if rows != [] {
      KeepUnique(rows[1..], names);
      var rest := Keep(rows[1..], names);
      forall i | 0 <= i < |rest| ensures rest[i].name != rows[0].name {
        var j :| 0 <= j < |rows[1..]| && rows[1..][j] == rest[i];
        assert rows[j + 1] == rest[i];
      }
    }
  }

  // ---------------------------------------------------------------------------
  // Properties relating the operations
  // ---------------------------------------------------------------------------

  function NamesOf(pkgs: seq<Pkg>): (r: seq<string>)
    ensures |r| == |pkgs| && forall i :: 0 <= i < |pkgs| ==> r[i] == pkgs[i].name
  {
    seq(|pkgs|, i requires 0 <= i < |pkgs| => pkgs[i].name)
  }

  lemma {:induction false} InstalledAll(rows: seq<Row>, names: seq<string>)
    requires forall n :: n in names ==> HasName(rows, n)
    ensures Installed(rows, names) == names
    decreases |names|
  {
    if names != [] {
      InstalledAll(rows, names[1..]);
    }
  }

  /**
   * After a successful install_bridge_pkgs, which_pkgs_are_installed on the installed
   * names returns all of them in the order given.
   */
  lemma InstallThenInstalled(rows: seq<Row>, pkgs: seq<Pkg>, bridge: string)
    requires UniqueNames(rows)
    requires Insert(rows, pkgs, bridge).1.Ok?
    ensures Installed(Insert(rows, pkgs, bridge).0, NamesOf(pkgs)) == NamesOf(pkgs)
  {
    InsertSucceeds(rows, pkgs, bridge);
    var rows' := Insert(rows, pkgs, bridge).0;
    forall n | n in NamesOf(pkgs) ensures HasName(rows', n) {
      var i :| 0 <= i < |pkgs| && NamesOf(pkgs)[i] == n;
      assert rows'[|rows| + i] == EncodeRow(pkgs[i], bridge);
    }
    InstalledAll(rows', NamesOf(pkgs));
  }

  /** get_pkg_bridge_by_name returns the bridge each package of a successful batch was stored under. */
  lemma InstallThenBridge(rows: seq<Row>, pkgs: seq<Pkg>, bridge: string, k: nat)
    requires UniqueNames(rows)
    requires Insert(rows, pkgs, bridge).1.Ok? && k < |pkgs|
    ensures BridgeOf(Insert(rows, pkgs, bridge).0, pkgs[k].name) == Ok(bridge)
  {
    InsertSucceeds(rows, pkgs, bridge);
    InsertUnique(rows, pkgs, bridge);
    var encoded := EncodeRows(pkgs, bridge);
    var rows' := rows + encoded;
    assert rows' == Insert(rows, pkgs, bridge).0;
    assert rows'[|rows| + k] == encoded[k] == EncodeRow(pkgs[k], bridge);
    BridgeOfRow(rows', |rows| + k);
  }

  lemma {:induction false} DecodedNames(acc: seq<Pkg>, rows: seq<Row>, n: string)
    requires DecodeFrom(acc, rows).Ok?
    ensures Carries(DecodeFrom(acc, rows).value, n) <==> Carries(acc, n) || HasName(rows, n)
    decreases |rows|
  {
    if rows != [] {
      var p0 := DecodeRow(rows[0]).value;
      DecodedNames(acc + [p0], rows[1..], n);
      if HasName(rows, n) {
        var i :| 0 <= i < |rows| && rows[i].name == n;
        if i > 0 { assert rows[1..][i - 1].name == n; }
        else { assert p0 in acc + [p0]; }
      }
      if HasName(rows[1..], n) {
        var i :| 0 <= i < |rows[1..]| && rows[1..][i].name == n;
        assert rows[i + 1].name == n;
      }
      if Carries(acc + [p0], n) {
        var p :| p in acc + [p0] && p.name == n;
        if p !in acc { assert rows[0].name == n; }
      }
    }
  }

  lemma PartitionFilters(rows: seq<Row>, pkgs: seq<Pkg>, names: seq<string>)
    requires forall n :: Carries(pkgs, n) <==> HasName(rows, n)
    ensures multiset(Installed(rows, names)) + multiset(NotIn(pkgs, names)) == multiset(names)
    ensures forall n :: n in Installed(rows, names) <==> n in names && HasName(rows, n)
    ensures forall n :: n in NotIn(pkgs, names) <==> n in names && !HasName(rows, n)
  {
    PartitionCounts(rows, pkgs, names);
    forall n ensures n in Installed(rows, names) <==> n in names && HasName(rows, n) {
      InstalledMembers(rows, names, n);
    }
    forall n ensures n in NotIn(pkgs, names) <==> n in names && !HasName(rows, n) {
      NotInMembers(pkgs, names, n);
    }
  }

  lemma {:induction false} PartitionCounts(rows: seq<Row>, pkgs: seq<Pkg>, names: seq<string>)
    requires forall n :: Carries(pkgs, n) <==> HasName(rows, n)
    ensures multiset(Installed(rows, names)) + multiset(NotIn(pkgs, names)) == multiset(names)
    decreases |names|
  {
    if names != [] {
      var h, t := names[0], names[1..];
      PartitionCounts(rows, pkgs, t);
      assert names == [h] + t;
      var hit := if HasName(rows, h) then [h] else [];
      var miss := if Carries(pkgs, h) then [] else [h];
      assert multiset(hit) + multiset(miss) == multiset{h};
    }
  }

  lemma {:induction false} InstalledMembers(rows: seq<Row>, names: seq<string>, n: string)
    ensures n in Installed(rows, names) <==> n in names && HasName(rows, n)
    decreases |names|
  {
    if names != [] {
      InstalledMembers(rows, names[1..], n);
      assert names == [names[0]] + names[1..];
    }
  }

  lemma {:induction false} NotInMembers(pkgs: seq<Pkg>, names: seq<string>, n: string)
    ensures n in NotIn(pkgs, names) <==> n in names && !Carries(pkgs, n)
    decreases |names|
  {
    if names != [] {
      NotInMembers(pkgs, names[1..], n);
      assert names == [names[0]] + names[1..];
    }
  }

  /**
   * which_pkgs_are_installed and which_pkgs_are_not_installed split the names given:
   * together they hold each name as often as the input does, a name lands in the first
   * exactly when a record has it, and each list keeps the input order (both are filters).
   */
  lemma InstalledNotInstalledPartition(rows: seq<Row>, names: seq<string>)
    requires DecodeFrom([], rows).Ok?
    ensures var missing := NotIn(DecodeFrom([], rows).value, names);
      && multiset(Installed(rows, names)) + multiset(missing) == multiset(names)
      && (forall n :: n in Installed(rows, names) <==> n in names && HasName(rows, n))
      && (forall n :: n in missing <==> n in names && !HasName(rows, n))
  {
    var pkgs := DecodeFrom([], rows).value;
    forall n ensures Carries(pkgs, n) <==> HasName(rows, n) {
      DecodedNames([], rows, n);
    }
    PartitionFilters(rows, pkgs, names);
  }

  /**
   * get_pkgs_by_name on a non-empty list reads exactly the records whose name is listed:
   * every package it returns has a listed name, and every listed record is returned.
   */
  lemma {:induction false} SelectedExact(rows: seq<Row>, names: seq<string>, row: Row)
    ensures row in Selected(rows, names) <==> row in rows && row.name in names
    decreases |rows|
  {
    if rows != [] {
      SelectedExact(rows[1..], names, row);
      assert rows == [rows[0]] + rows[1..];
    }
  }

  /** The table after the two steps of src/test/db.rs remove_pkgs, on concrete rows. */
  lemma RemoveScenario()
    ensures var v := Version("1", "2", "3");
      var p1 := Pkg("pkg1", v, "some/path", SingleExecutable);
      var p2 := Pkg("pkg2", v, "some/path", SingleExecutable);
      var (rows, res) := Insert([], [p1, p2], "bridge");
      && res.Ok?
      && DecodeFrom([], rows) == Ok([p1, p2])
      && DecodeFrom([], DeleteAll(rows, ["pkg2"])) == Ok([p1])
      && DeleteAll(DeleteAll(rows, ["pkg2"]), ["pkg1", "pkg2"]) == []
  {
    var v := Version("1", "2", "3");
    var p1 := Pkg("pkg1", v, "some/path", SingleExecutable);
    var p2 := Pkg("pkg2", v, "some/path", SingleExecutable);
    assert p1.name != p2.name by {
      assert p1.name[3] != p2.name[3];
    }
    InsertPair(p1, p2, "bridge");
    assert StorableVersion(v);
    RowRoundTrip(p1, "bridge");
    RowRoundTrip(p2, "bridge");
    DecodePair(EncodeRow(p1, "bridge"), EncodeRow(p2, "bridge"), p1, p2);
    DeletePair(EncodeRow(p1, "bridge"), EncodeRow(p2, "bridge"));
  }

  lemma InsertPair(p1: Pkg, p2: Pkg, bridge: string)
    requires p1.name != p2.name
    ensures Insert([], [p1, p2], bridge).1.Ok?
    ensures Insert([], [p1, p2], bridge).0 == [EncodeRow(p1, bridge), EncodeRow(p2, bridge)]
  {
    InsertSucceeds([], [p1, p2], bridge);
    assert !HasName([], p1.name) && !HasName([], p2.name);
    assert InsertableNames([], [p1, p2]);
    assert EncodeRows([p1, p2], bridge) == [EncodeRow(p1, bridge), EncodeRow(p2, bridge)];
    assert [] + EncodeRows([p1, p2], bridge) == EncodeRows([p1, p2], bridge);
  }

  lemma DecodePair(r1: Row, r2: Row, p1: Pkg, p2: Pkg)
    requires DecodeRow(r1) == Ok(p1) && DecodeRow(r2) == Ok(p2)
    ensures DecodeFrom([], [r1, r2]) == Ok([p1, p2]) && DecodeFrom([], [r1]) == Ok([p1])
  {
    assert [r1, r2] == [r1] + [r2] && [r2] == [r2] + [] && [r1] == [r1] + [];
    DecodeFromCons([], r1, [r2]);
    DecodeFromCons([p1], r2, []);
    DecodeFromCons([], r1, []);
    assert [] + [p1] == [p1] && [p1] + [p2] == [p1, p2];
  }

  lemma DeletePair(r1: Row, r2: Row)
    requires r1.name != r2.name
    ensures DeleteAll([r1, r2], [r2.name]) == [r1]
    ensures DeleteAll([r1], [r1.name, r2.name]) == []
  {
    DeleteAllKeepsOthers([r1, r2], [r2.name]);
    assert [r1, r2][1..] == [r2];
    assert Keep([r2], [r2.name]) == [];
    DeleteAllKeepsOthers([r1], [r1.name, r2.name]);
  }
}
