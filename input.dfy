/**
 * Assembly of the declared packages from the input KDL documents (src/input.rs):
 * which files are inputs, how a package node becomes a `PkgDeclaration`, the
 * duplicate-name check, and the de-duplicated list of bridge names.
 */
module Input {
  import opened Wrappers
  import opened Strings
  import Kdl
  import DirTree

  const I64_MIN: int := -0x8000_0000_0000_0000
  const TWO_POW_64: int := 0x1_0000_0000_0000_0000

  /** `x as i64` on a KDL integer: two's-complement wrap-around to 64 bits. */
  function ToI64(i: int): (r: int)
    ensures I64_MIN <= r < I64_MIN + TWO_POW_64
    ensures (r - i) % TWO_POW_64 == 0
    ensures I64_MIN <= i < I64_MIN + TWO_POW_64 ==> r == i
  {
    (i - I64_MIN) % TWO_POW_64 + I64_MIN
  }

  /** An attribute value; a float is carried only as its text. */
  datatype AttributeValue = String(s: string) | Integer(i: int) | Float(shown: string) | Boolean(b: bool)

  datatype PkgDeclaration = PkgDeclaration(name: string, input: string, attributes: map<string, AttributeValue>)

  datatype Bridge = Bridge(name: string)

  datatype InputError =
    | MissingField
    | InvalidAttribute
    | UnSupportedAttributeType(value: Kdl.Value)
    | DuplicatePkgDeclaration(name: string)
    | Unreadable(path: string)

  // ---------------------------------------------------------------------------
  // detect_pkg_kdl_files
  // ---------------------------------------------------------------------------

  /** A regular file is an input when its extension is `kdl` in any case and it is not hidden. */
  predicate IsPkgKdlFile(name: string) {
    && Extension(name).Some?
    && EqIgnoreAsciiCase(Extension(name).value, "kdl")
    && !(['.'] <= name)
  }

  lemma AsciiLowerDot(c: char)
    ensures AsciiLower(c) == '.' <==> c == '.'
  {
  }

  lemma EqIgnoreAsciiCaseCons(c: char, a: string, b: string)
    requires EqIgnoreAsciiCase(a, b)
    ensures EqIgnoreAsciiCase([c] + a, [c] + b)
  {
    assert forall j :: 1 <= j <= |a| ==> ([c] + a)[j] == a[j - 1] && ([c] + b)[j] == b[j - 1];
  }

  lemma PkgKdlFileHasSuffix(name: string)
    requires IsPkgKdlFile(name)
    ensures |name| >= 4 && name[0] != '.' && EqIgnoreAsciiCase(name[|name| - 4..], ".kdl")
  {
    var n := |name|;
    var i := LastIndex(name, '.');
    var e := name[i + 1..];
    assert n == i + 4;
    assert name[n - 4..] == ['.'] + e;
    EqIgnoreAsciiCaseCons('.', e, "kdl");
    assert ['.'] + "kdl" == ".kdl";
  }

  lemma PkgKdlFileFromSuffix(name: string)
    requires |name| >= 4 && name[0] != '.' && EqIgnoreAsciiCase(name[|name| - 4..], ".kdl")
    ensures IsPkgKdlFile(name)
  {
    var n := |name|;
    var suffix := name[n - 4..];
    assert name[n - 4] == '.' by {
      AsciiLowerDot(suffix[0]);
    }
    forall j | n - 4 < j < n
      ensures name[j] != '.'
    {
      AsciiLowerDot(name[j]);
      assert name[j] == suffix[j - (n - 4)];
    }
    var i := LastIndex(name, '.');
    assert i == n - 4 by {
      forall j | i < j < n
        ensures name[j] != '.'
      {
        assert name[j] == name[i + 1..][j - (i + 1)];
      }
    }
    var e := name[i + 1..];
    forall j | 0 <= j < 3
      ensures AsciiLower(e[j]) == AsciiLower("kdl"[j])
    {
      assert e[j] == suffix[j + 1];
    }
  }

  /** The filter is the same as: not hidden, and the name ends in `.kdl` in any case. */
  lemma PkgKdlFileByName(name: string)
    ensures IsPkgKdlFile(name) <==>
      |name| >= 4 && name[0] != '.' && EqIgnoreAsciiCase(name[|name| - 4..], ".kdl")
  {
    if IsPkgKdlFile(name) {
      PkgKdlFileHasSuffix(name);
    }
    if |name| >= 4 && name[0] != '.' && EqIgnoreAsciiCase(name[|name| - 4..], ".kdl") {
      PkgKdlFileFromSuffix(name);
    }
  }

  /** The input files one directory entry contributes: itself, or what lies below it. */
  function EntryFiles(dir: string, e: DirTree.Entry): seq<string>
    decreases e
  {
    match e.kind
    case File => if IsPkgKdlFile(e.name) then [Join(dir, e.name)] else []
    case Dir(sub) => KdlFiles(Join(dir, e.name), sub)
    case Other => []
  }

  /** The input files below `dir`, in walk order: the spec of `DetectPkgKdlFiles`. */
  function KdlFiles(dir: string, entries: seq<DirTree.Entry>): seq<string>
    decreases entries
  {
    if entries == [] then []
    else EntryFiles(dir, entries[0]) + KdlFiles(dir, entries[1..])
  }

  /**
   * Walks a directory: keeps each regular file that passes `IsPkgKdlFile` and
   * descends into each sub-directory, in `read_dir` order.
   */
  method DetectPkgKdlFiles(dir: string, entries: seq<DirTree.Entry>) returns (r: seq<string>)
    ensures r == KdlFiles(dir, entries)
    decreases entries
  {
    r := [];
    var i := 0;
    assert entries[0..] == entries;
    while i < |entries|
      invariant 0 <= i <= |entries|
      invariant r + KdlFiles(dir, entries[i..]) == KdlFiles(dir, entries)
    {
      ghost var rest := KdlFiles(dir, entries[i + 1..]);
      ghost var before := r;
      assert KdlFiles(dir, entries[i..]) == EntryFiles(dir, entries[i]) + rest by {
        assert entries[i..][0] == entries[i];
        assert entries[i..][1..] == entries[i + 1..];
      }
      var here := DetectEntry(dir, entries[i]);
      r := r + here;
      ConcatAssoc(before, here, rest);
      i := i + 1;
    }
    assert r + [] == r;
  }

  /** One entry of the walk: a regular file that passes the filter, or a sub-directory's walk. */
  method DetectEntry(dir: string, entry: DirTree.Entry) returns (here: seq<string>)
    ensures here == EntryFiles(dir, entry)
    decreases entry
  {
    var path := Join(dir, entry.name);
    here := [];
    match entry.kind {
      case File =>
        if IsPkgKdlFile(entry.name) {
          here := [path];
        }
      case Dir(sub) =>
        here := DetectPkgKdlFiles(path, sub);
      case Other =>
    }
  }

  /**
   * Every path the walk returns lies under the walked directory, and its last
   * component is an input file name.
   */
  lemma KdlFilesAreInputs(dir: string, entries: seq<DirTree.Entry>, p: string)
    requires DirTree.PlainNames(entries)
    requires p in KdlFiles(dir, entries)
    ensures dir != [] ==> dir <= p
    ensures IsPkgKdlFile(p[LastIndex(p, '/') + 1..])
  {
    if dir != [] {
      KdlFilesUnder(dir, entries, p);
    }
    KdlFilesNamed(dir, entries, p);
  }

  /** A path the walk returns starts with the walked directory. */
  lemma {:induction false} KdlFilesUnder(dir: string, entries: seq<DirTree.Entry>, p: string)
    requires DirTree.PlainNames(entries)
    requires p in KdlFiles(dir, entries)
    requires dir != []
    ensures dir <= p
    decreases entries
  {
    var e := entries[0];
    assert e.name != [] && '/' !in e.name && DirTree.PlainNames(entries[1..]);
    assert KdlFiles(dir, entries) == EntryFiles(dir, e) + KdlFiles(dir, entries[1..]);
    if p in KdlFiles(dir, entries[1..]) {
      KdlFilesUnder(dir, entries[1..], p);
    } else {
      var sub := Join(dir, e.name);
      JoinPlain(dir, e.name);
      if e.kind.Dir? {
        assert DirTree.PlainNames(e.kind.entries);
        assert p in KdlFiles(sub, e.kind.entries);
        KdlFilesUnder(sub, e.kind.entries, p);
        PrefixTrans(dir, sub, p);
      } else {
        assert e.kind.File? && p in EntryFiles(dir, e);
        assert p == sub;
      }
    }
  }

  /** A prefix of a prefix is a prefix. */
  lemma PrefixTrans(a: string, b: string, c: string)
    requires a <= b && b <= c
    ensures a <= c
  {
    assert c[..|a|] == b[..|a|];
  }

  /** The last component of a path the walk returns is an input file name. */
  lemma {:induction false} KdlFilesNamed(dir: string, entries: seq<DirTree.Entry>, p: string)
    requires DirTree.PlainNames(entries)
    requires p in KdlFiles(dir, entries)
    ensures IsPkgKdlFile(p[LastIndex(p, '/') + 1..])
    decreases entries
  {
    var e := entries[0];
    assert e.name != [] && '/' !in e.name && DirTree.PlainNames(entries[1..]);
    assert KdlFiles(dir, entries) == EntryFiles(dir, e) + KdlFiles(dir, entries[1..]);
    if p in KdlFiles(dir, entries[1..]) {
      KdlFilesNamed(dir, entries[1..], p);
    } else if e.kind.Dir? {
      assert DirTree.PlainNames(e.kind.entries);
      assert p in KdlFiles(Join(dir, e.name), e.kind.entries);
      KdlFilesNamed(Join(dir, e.name), e.kind.entries, p);
    } else {
      assert e.kind.File? && p in EntryFiles(dir, e);
      FileNamed(dir, e, p);
    }
  }

  /** A regular file the walk keeps directly in `dir` has an input file name as its last component. */
  lemma FileNamed(dir: string, e: DirTree.Entry, p: string)
    requires e.kind.File? && e.name != [] && '/' !in e.name
    requires p in EntryFiles(dir, e)
    ensures IsPkgKdlFile(p[LastIndex(p, '/') + 1..])
  {
    JoinPlain(dir, e.name);
  }

  /**
   * Nothing is missed: an input file directly in the walked directory is returned,
   * and so is every input file the walk of a sub-directory finds.
   */
  lemma {:induction false} KdlFilesComplete(dir: string, entries: seq<DirTree.Entry>, k: nat)
    requires k < |entries|
    ensures entries[k].kind.File? && IsPkgKdlFile(entries[k].name) ==>
      Join(dir, entries[k].name) in KdlFiles(dir, entries)
    ensures entries[k].kind.Dir? ==>
      forall p :: p in KdlFiles(Join(dir, entries[k].name), entries[k].kind.entries) ==> p in KdlFiles(dir, entries)
    decreases entries
  {
    var head := EntryFiles(dir, entries[0]);
    var rest := KdlFiles(dir, entries[1..]);
    assert KdlFiles(dir, entries) == head + rest;
    if k > 0 {
      assert entries[1..][k - 1] == entries[k];
      KdlFilesComplete(dir, entries[1..], k - 1);
      assert forall p :: p in rest ==> p in head + rest;
    } else if entries[0].kind.Dir? {
      assert forall p :: p in head ==> p in head + rest;
    }
  }

  // ---------------------------------------------------------------------------
  // parse_attributes
  // ---------------------------------------------------------------------------

  /** How one entry value becomes an attribute; anything that is not string, integer, bool or float is refused. */
  function Classify(v: Kdl.Value): (r: Result<AttributeValue, InputError>)
    ensures r.Err? <==> v.Null?
    ensures r.Err? ==> r.error == UnSupportedAttributeType(v)
    ensures v.Str? ==> r == Ok(String(v.s))
    ensures v.Int? ==> r == Ok(Integer(ToI64(v.i)))
  {
    match v
    case Str(s) => Ok(String(s))
    case Int(i) => Ok(Integer(ToI64(i)))
    case Bool(b) => Ok(Boolean(b))
    case Float(shown) => Ok(Float(shown))
    case Null => Err(UnSupportedAttributeType(v))
  }

  /** Adds the entries `es` to `acc` left to right, a later key overwriting an earlier one. */
  function AttributesFrom(acc: map<string, AttributeValue>, es: seq<Kdl.Entry>): Result<map<string, AttributeValue>, InputError>
    decreases |es|
  {
    if es == [] then Ok(acc)
    else if es[0].name.None? then Err(MissingField)
    else
      match Classify(es[0].value)
      case Err(e) => Err(e)
      case Ok(v) => AttributesFrom(acc[es[0].name.value := v], es[1..])
  }

  /** The entries after the first (`.skip(1)`). */
  function AfterFirst(es: seq<Kdl.Entry>): seq<Kdl.Entry> {
    if es == [] then [] else es[1..]
  }

  /** The attributes of a package node: every entry but the first, which is the input. */
  function Attributes(node: Kdl.Node): Result<map<string, AttributeValue>, InputError> {
    AttributesFrom(map[], AfterFirst(node.entries))
  }

  method ParseAttributes(node: Kdl.Node) returns (r: Result<map<string, AttributeValue>, InputError>)
    ensures r == Attributes(node)
  {
    var attributes: map<string, AttributeValue> := map[];
    var es := AfterFirst(node.entries);
    var i := 0;
    while i < |es|
      invariant 0 <= i <= |es|
      invariant AttributesFrom(attributes, es[i..]) == Attributes(node)
    {
      var entry := es[i];
      assert es[i..][1..] == es[i + 1..];
      if entry.name.None? {
        return Err(MissingField);
      }
      var value := Classify(entry.value);
      if value.Err? {
        return Err(value.error);
      }
      attributes := attributes[entry.name.value := value.value];
      i := i + 1;
    }
    r := Ok(attributes);
  }

  /** Every entry of `es` is named and has a supported value. */
  predicate AllNamedAndSupported(es: seq<Kdl.Entry>) {
    forall j :: 0 <= j < |es| ==> es[j].name.Some? && !es[j].value.Null?
  }

  /** The names of the entries of `es`. */
  function NamesIn(es: seq<Kdl.Entry>): set<string> {
    set j | 0 <= j < |es| && es[j].name.Some? :: es[j].name.value
  }

  lemma {:induction false} AttributesFromShape(acc: map<string, AttributeValue>, es: seq<Kdl.Entry>)
    ensures AttributesFrom(acc, es).Ok? <==> AllNamedAndSupported(es)
    ensures AttributesFrom(acc, es).Ok? ==> AttributesFrom(acc, es).value.Keys == acc.Keys + NamesIn(es)
    decreases |es|
  {
    if es != [] {
      assert forall j :: 1 <= j < |es| ==> es[1..][j - 1] == es[j];
      if es[0].name.Some? && !es[0].value.Null? {
        var v := Classify(es[0].value).value;
        AttributesFromShape(acc[es[0].name.value := v], es[1..]);
        if AttributesFrom(acc, es).Ok? {
          assert NamesIn(es) == {es[0].name.value} + NamesIn(es[1..]) by {
            forall k | k in NamesIn(es) ensures k in {es[0].name.value} + NamesIn(es[1..]) {
              var j :| 0 <= j < |es| && es[j].name.Some? && es[j].name.value == k;
              if j > 0 { assert es[1..][j - 1] == es[j]; }
            }
          }
        }
      }
    }
  }

  lemma {:induction false} AttributesFromLastWins(acc: map<string, AttributeValue>, es: seq<Kdl.Entry>, j: nat, k: string)
    requires AttributesFrom(acc, es).Ok?
    requires j < |es| && es[j].name == Some(k)
    requires forall l :: j < l < |es| ==> es[l].name != Some(k)
    ensures k in AttributesFrom(acc, es).value
    ensures Classify(es[j].value) == Ok(AttributesFrom(acc, es).value[k])
    decreases |es|
  {
    var v := Classify(es[0].value).value;
    var acc' := acc[es[0].name.value := v];
    if j == 0 {
      AttributesFromUntouched(acc', es[1..], k);
    } else {
      assert forall l :: j - 1 < l < |es[1..]| ==> es[1..][l] == es[l + 1];
      AttributesFromLastWins(acc', es[1..], j - 1, k);
    }
  }

  lemma {:induction false} AttributesFromUntouched(acc: map<string, AttributeValue>, es: seq<Kdl.Entry>, k: string)
    requires AttributesFrom(acc, es).Ok?
    requires k in acc
    requires forall l :: 0 <= l < |es| ==> es[l].name != Some(k)
    ensures k in AttributesFrom(acc, es).value && AttributesFrom(acc, es).value[k] == acc[k]
    decreases |es|
  {
    if es != [] {
      var v := Classify(es[0].value).value;
      assert forall l :: 0 <= l < |es[1..]| ==> es[1..][l] == es[l + 1];
      AttributesFromUntouched(acc[es[0].name.value := v], es[1..], k);
    }
  }

  /**
   * parse_attributes succeeds exactly when every entry after the first is named and
   * holds a supported value; its keys are those names, and each key holds the value of
   * the last entry with that name.
   */
  lemma AttributesLastWins(node: Kdl.Node, j: nat, k: string)
    requires 1 <= j < |node.entries| && node.entries[j].name == Some(k)
    requires forall l :: j < l < |node.entries| ==> node.entries[l].name != Some(k)
    ensures Attributes(node).Ok? <==> AllNamedAndSupported(node.entries[1..])
    ensures Attributes(node).Ok? ==>
      k in Attributes(node).value && Classify(node.entries[j].value) == Ok(Attributes(node).value[k])
  {
    var es := node.entries[1..];
    AttributesFromShape(map[], es);
    if Attributes(node).Ok? {
      assert forall l :: j - 1 < l < |es| ==> es[l] == node.entries[l + 1];
      AttributesFromLastWins(map[], es, j - 1, k);
    }
  }

  /** The keys of the parsed attributes are exactly the names of the entries after the first. */
  lemma AttributesKeys(node: Kdl.Node)
    requires Attributes(node).Ok?
    ensures Attributes(node).value.Keys == NamesIn(AfterFirst(node.entries))
  {
    AttributesFromShape(map[], AfterFirst(node.entries));
  }

  // ---------------------------------------------------------------------------
  // parse_pkg
  // ---------------------------------------------------------------------------

  /** One package node: its first entry is the input string, the rest are attributes. */
  function ParseDecl(node: Kdl.Node): (r: Result<PkgDeclaration, InputError>)
    ensures |node.entries| == 0 ==> r == Err(MissingField)
    ensures |node.entries| > 0 && !node.entries[0].value.Str? ==> r == Err(InvalidAttribute)
    ensures r.Ok? ==> r.value.name == node.name && node.entries[0].value == Kdl.Str(r.value.input)
    ensures r.Ok? ==> Attributes(node) == Ok(r.value.attributes)
  {
    if |node.entries| == 0 then Err(MissingField)
    else if !node.entries[0].value.Str? then Err(InvalidAttribute)
    else
      match Attributes(node)
      case Err(e) => Err(e)
      case Ok(attrs) => Ok(PkgDeclaration(node.name, node.entries[0].value.s, attrs))
  }

  predicate Declares(pkgs: seq<PkgDeclaration>, name: string) {
    exists i :: 0 <= i < |pkgs| && pkgs[i].name == name
  }

  /** The package nodes of one bridge node, appended to `acc`, refusing a name already taken. */
  function PkgsFromChildren(acc: seq<PkgDeclaration>, nodes: seq<Kdl.Node>): Result<seq<PkgDeclaration>, InputError>
    decreases |nodes|
  {
    if nodes == [] then Ok(acc)
    else
      match ParseDecl(nodes[0])
      case Err(e) => Err(e)
      case Ok(d) =>
        if Declares(acc, d.name) then Err(DuplicatePkgDeclaration(d.name))
        else PkgsFromChildren(acc + [d], nodes[1..])
  }

  function ThenBridges(res: Result<seq<PkgDeclaration>, InputError>, nodes: seq<Kdl.Node>): Result<seq<PkgDeclaration>, InputError>
    decreases |nodes|, 1
  {
    match res
    case Err(e) => Err(e)
    case Ok(acc) => PkgsFromBridges(acc, nodes)
  }

  /** The bridge nodes of one document: each must have a children block. */
  function PkgsFromBridges(acc: seq<PkgDeclaration>, nodes: seq<Kdl.Node>): Result<seq<PkgDeclaration>, InputError>
    decreases |nodes|, 0
  {
    if nodes == [] then Ok(acc)
    else if nodes[0].children.None? then Err(MissingField)
    else ThenBridges(PkgsFromChildren(acc, nodes[0].children.value), nodes[1..])
  }

  function ThenDocs(res: Result<seq<PkgDeclaration>, InputError>, docs: seq<Kdl.Document>): Result<seq<PkgDeclaration>, InputError>
    decreases |docs|, 1
  {
    match res
    case Err(e) => Err(e)
    case Ok(acc) => PkgsFromDocs(acc, docs)
  }

  /** The spec of `ParsePkg`: documents in order, bridge nodes in order, package nodes in order. */
  function PkgsFromDocs(acc: seq<PkgDeclaration>, docs: seq<Kdl.Document>): Result<seq<PkgDeclaration>, InputError>
    decreases |docs|, 0
  {
    if docs == [] then Ok(acc)
    else ThenDocs(PkgsFromBridges(acc, docs[0]), docs[1..])
  }

  method ParsePkg(docs: seq<Kdl.Document>) returns (r: Result<seq<PkgDeclaration>, InputError>)
    ensures r == PkgsFromDocs([], docs)
  {
    var pkgs: seq<PkgDeclaration> := [];
    var i := 0;
    while i < |docs|
      invariant 0 <= i <= |docs|
      invariant PkgsFromDocs(pkgs, docs[i..]) == PkgsFromDocs([], docs)
    {
      var nodes := docs[i];
      assert docs[i..][1..] == docs[i + 1..];
      var j := 0;
      while j < |nodes|
        invariant 0 <= j <= |nodes|
        invariant ThenDocs(PkgsFromBridges(pkgs, nodes[j..]), docs[i + 1..]) == PkgsFromDocs([], docs)
      {
        var bridgeNode := nodes[j];
        assert nodes[j..][1..] == nodes[j + 1..];
        if bridgeNode.children.None? {
          return Err(MissingField);
        }
        var children := bridgeNode.children.value;
        var k := 0;
        while k < |children|
          invariant 0 <= k <= |children|
          invariant ThenDocs(ThenBridges(PkgsFromChildren(pkgs, children[k..]), nodes[j + 1..]), docs[i + 1..])
                    == PkgsFromDocs([], docs)
        {
          var pkgNode := children[k];
          assert children[k..][1..] == children[k + 1..];
          if |pkgNode.entries| == 0 {
            return Err(MissingField);
          }
          if !pkgNode.entries[0].value.Str? {
            return Err(InvalidAttribute);
          }
          var input := pkgNode.entries[0].value.s;
          var attributes := ParseAttributes(pkgNode);
          if attributes.Err? {
            return Err(attributes.error);
          }
          var decl := PkgDeclaration(pkgNode.name, input, attributes.value);
          if Declares(pkgs, decl.name) {
            return Err(DuplicatePkgDeclaration(decl.name));
          }
          pkgs := pkgs + [decl];
          k := k + 1;
        }
        j := j + 1;
      }
      i := i + 1;
    }
    r := Ok(pkgs);
  }

  /** The package names of `pkgs` are pairwise distinct. */
  predicate UniqueNames(pkgs: seq<PkgDeclaration>) {
    forall i, j :: 0 <= i < j < |pkgs| ==> pkgs[i].name != pkgs[j].name
  }

  /** `ds` is what the package nodes `ns` parse to, one for one. */
  predicate DeclsOf(ns: seq<Kdl.Node>, ds: seq<PkgDeclaration>) {
    |ns| == |ds| && forall i :: 0 <= i < |ns| ==> ParseDecl(ns[i]) == Ok(ds[i])
  }

  /** All package nodes of some bridge nodes, in order (a missing block counts as empty). */
  function ChildrenOf(nodes: seq<Kdl.Node>): seq<Kdl.Node>
    decreases |nodes|
  {
    if nodes == [] then [] else nodes[0].children.GetOr([]) + ChildrenOf(nodes[1..])
  }

  /** All package nodes of all documents, in document, bridge-node and child order. */
  function PkgNodes(docs: seq<Kdl.Document>): seq<Kdl.Node>
    decreases |docs|
  {
    if docs == [] then [] else ChildrenOf(docs[0]) + PkgNodes(docs[1..])
  }

  lemma DeclsOfAppend(ns1: seq<Kdl.Node>, ds1: seq<PkgDeclaration>, ns2: seq<Kdl.Node>, ds2: seq<PkgDeclaration>)
    requires DeclsOf(ns1, ds1) && DeclsOf(ns2, ds2)
    ensures DeclsOf(ns1 + ns2, ds1 + ds2)
  {
  }

  /** Appending a declaration whose name is new keeps names unique. */
  lemma UniqueAppend(acc: seq<PkgDeclaration>, d: PkgDeclaration)
    requires UniqueNames(acc) && !Declares(acc, d.name)
    ensures UniqueNames(acc + [d])
  {
    forall i | 0 <= i < |acc| ensures (acc + [d])[i].name != d.name {
      assert acc[i].name != d.name;
    }
  }

  lemma {:induction false} ChildrenResult(acc: seq<PkgDeclaration>, nodes: seq<Kdl.Node>)
    requires UniqueNames(acc)
    requires PkgsFromChildren(acc, nodes).Ok?
    ensures var ps := PkgsFromChildren(acc, nodes).value;
      |acc| <= |ps| && ps[..|acc|] == acc && DeclsOf(nodes, ps[|acc|..]) && UniqueNames(ps)
    decreases |nodes|
  {
    if nodes != [] {
      var d := ParseDecl(nodes[0]).value;
      var acc' := acc + [d];
      assert PkgsFromChildren(acc, nodes) == PkgsFromChildren(acc', nodes[1..]);
      UniqueAppend(acc, d);
      ChildrenResult(acc', nodes[1..]);
      var ps := PkgsFromChildren(acc, nodes).value;
      assert ps[..|acc'|] == acc';
      assert ps[..|acc|] == acc'[..|acc|] == acc;
      assert ps[|acc|..] == [d] + ps[|acc'|..];
      assert nodes == [nodes[0]] + nodes[1..];
      DeclsOfAppend([nodes[0]], [d], nodes[1..], ps[|acc'|..]);
    }
  }

  lemma {:induction false} BridgesResult(acc: seq<PkgDeclaration>, nodes: seq<Kdl.Node>)
    requires UniqueNames(acc)
    requires PkgsFromBridges(acc, nodes).Ok?
    ensures var ps := PkgsFromBridges(acc, nodes).value;
      |acc| <= |ps| && ps[..|acc|] == acc && DeclsOf(ChildrenOf(nodes), ps[|acc|..]) && UniqueNames(ps)
    decreases |nodes|
  {
    if nodes != [] {
      var kids := nodes[0].children.value;
      ChildrenResult(acc, kids);
      var mid := PkgsFromChildren(acc, kids).value;
      BridgesResult(mid, nodes[1..]);
      var ps := PkgsFromBridges(acc, nodes).value;
      assert ps[..|acc|] == mid[..|acc|] == acc;
      assert ps[|acc|..] == mid[|acc|..] + ps[|mid|..];
      DeclsOfAppend(kids, mid[|acc|..], ChildrenOf(nodes[1..]), ps[|mid|..]);
    }
  }

  lemma {:induction false} DocsResult(acc: seq<PkgDeclaration>, docs: seq<Kdl.Document>)
    requires UniqueNames(acc)
    requires PkgsFromDocs(acc, docs).Ok?
    ensures var ps := PkgsFromDocs(acc, docs).value;
      |acc| <= |ps| && ps[..|acc|] == acc && DeclsOf(PkgNodes(docs), ps[|acc|..]) && UniqueNames(ps)
    decreases |docs|
  {
    if docs != [] {
      BridgesResult(acc, docs[0]);
      var mid := PkgsFromBridges(acc, docs[0]).value;
      DocsResult(mid, docs[1..]);
      var ps := PkgsFromDocs(acc, docs).value;
      assert ps[..|acc|] == mid[..|acc|] == acc;
      assert ps[|acc|..] == mid[|acc|..] + ps[|mid|..];
      DeclsOfAppend(ChildrenOf(docs[0]), mid[|acc|..], PkgNodes(docs[1..]), ps[|mid|..]);
    }
  }

  /**
   * A successful parse_pkg yields one declaration per package node, in document,
   * bridge-node and child order, and no two with the same name.
   */
  lemma ParsedPkgsOrderAndUnique(docs: seq<Kdl.Document>)
    requires PkgsFromDocs([], docs).Ok?
    ensures DeclsOf(PkgNodes(docs), PkgsFromDocs([], docs).value)
    ensures UniqueNames(PkgsFromDocs([], docs).value)
  {
    DocsResult([], docs);
    assert PkgsFromDocs([], docs).value[0..] == PkgsFromDocs([], docs).value;
  }

  /** Every bridge node of every document has a children block. */
  predicate AllBridgesHaveChildren(docs: seq<Kdl.Document>) {
    forall i, j :: 0 <= i < |docs| && 0 <= j < |docs[i]| ==> docs[i][j].children.Some?
  }

  /** No two of the nodes `ns` have the same name. */
  predicate DistinctNodeNames(ns: seq<Kdl.Node>) {
    forall i, j :: 0 <= i < j < |ns| ==> ns[i].name != ns[j].name
  }

  /** Every package node parses, and all package node names are distinct. */
  predicate ChildrenParseDistinct(ns: seq<Kdl.Node>) {
    && (forall i :: 0 <= i < |ns| ==> ParseDecl(ns[i]).Ok?)
    && DistinctNodeNames(ns)
  }

  /** No package node of `ns` has a name already declared in `acc`. */
  predicate FreshNames(acc: seq<PkgDeclaration>, ns: seq<Kdl.Node>) {
    forall i :: 0 <= i < |ns| ==> !Declares(acc, ns[i].name)
  }

  lemma {:induction false} ChildrenSucceed(acc: seq<PkgDeclaration>, nodes: seq<Kdl.Node>)
    requires ChildrenParseDistinct(nodes) && FreshNames(acc, nodes)
    ensures PkgsFromChildren(acc, nodes).Ok?
    decreases |nodes|
  {
    if nodes != [] {
      var d := ParseDecl(nodes[0]).value;
      var acc' := acc + [d];
      forall i | 0 <= i < |nodes[1..]|
        ensures !Declares(acc', nodes[1..][i].name)
      {
        var x := nodes[1..][i].name;
        assert x == nodes[i + 1].name;
        forall m | 0 <= m < |acc'|
          ensures acc'[m].name != x
        {
          if m < |acc| {
            assert acc'[m] == acc[m];
          } else {
            assert acc'[m] == d;
          }
        }
      }
      assert forall i :: 0 <= i < |nodes[1..]| ==> nodes[1..][i] == nodes[i + 1];
      ChildrenSucceed(acc', nodes[1..]);
    }
  }

  /** Splits the package nodes of `nodes` into those of its head and of its tail. */
  lemma ChildrenOfCons(nodes: seq<Kdl.Node>)
    requires nodes != []
    ensures var kids := nodes[0].children.GetOr([]);
      && ChildrenOf(nodes) == kids + ChildrenOf(nodes[1..])
      && (forall i :: 0 <= i < |kids| ==> ChildrenOf(nodes)[i] == kids[i])
      && (forall i :: 0 <= i < |ChildrenOf(nodes[1..])| ==> ChildrenOf(nodes)[|kids| + i] == ChildrenOf(nodes[1..])[i])
  {
  }

  lemma PkgNodesCons(docs: seq<Kdl.Document>)
    requires docs != []
    ensures var here := ChildrenOf(docs[0]);
      && PkgNodes(docs) == here + PkgNodes(docs[1..])
      && (forall i :: 0 <= i < |here| ==> PkgNodes(docs)[i] == here[i])
      && (forall i :: 0 <= i < |PkgNodes(docs[1..])| ==> PkgNodes(docs)[|here| + i] == PkgNodes(docs[1..])[i])
  {
  }

  /**
   * When `mid` extends `acc` by the declarations of `here`, and the package nodes
   * `here + rest` have distinct names none of which `acc` declares, then no node of
   * `rest` is declared in `mid`.
   */
  lemma FreshAfter(acc: seq<PkgDeclaration>, mid: seq<PkgDeclaration>, here: seq<Kdl.Node>, rest: seq<Kdl.Node>)
    requires |acc| <= |mid| && mid[..|acc|] == acc && DeclsOf(here, mid[|acc|..])
    requires ChildrenParseDistinct(here + rest) && FreshNames(acc, here + rest)
    ensures FreshNames(mid, rest)
  {
    var all := here + rest;
    forall i | 0 <= i < |rest|
      ensures !Declares(mid, rest[i].name)
    {
      assert all[|here| + i] == rest[i];
      forall m | 0 <= m < |mid|
        ensures mid[m].name != rest[i].name
      {
        if m < |acc| {
          assert mid[m] == mid[..|acc|][m] == acc[m];
        } else {
          var k := m - |acc|;
          assert ParseDecl(here[k]) == Ok(mid[|acc|..][k]);
          assert all[k] == here[k];
        }
      }
    }
  }

  lemma {:induction false} BridgesSucceed(acc: seq<PkgDeclaration>, nodes: seq<Kdl.Node>)
    requires UniqueNames(acc)
    requires forall j :: 0 <= j < |nodes| ==> nodes[j].children.Some?
    requires ChildrenParseDistinct(ChildrenOf(nodes)) && FreshNames(acc, ChildrenOf(nodes))
    ensures PkgsFromBridges(acc, nodes).Ok?
    decreases |nodes|
  {
    if nodes != [] {
      var kids := nodes[0].children.value;
      var rest := ChildrenOf(nodes[1..]);
      ChildrenOfCons(nodes);
      ChildrenSucceed(acc, kids);
      ChildrenResult(acc, kids);
      var mid := PkgsFromChildren(acc, kids).value;
      FreshAfter(acc, mid, kids, rest);
      assert forall j :: 0 <= j < |nodes[1..]| ==> nodes[1..][j] == nodes[j + 1];
      BridgesSucceed(mid, nodes[1..]);
      assert PkgsFromBridges(acc, nodes) == PkgsFromBridges(mid, nodes[1..]);
    }
  }

  lemma {:induction false} DocsSucceed(acc: seq<PkgDeclaration>, docs: seq<Kdl.Document>)
    requires UniqueNames(acc)
    requires AllBridgesHaveChildren(docs)
    requires ChildrenParseDistinct(PkgNodes(docs)) && FreshNames(acc, PkgNodes(docs))
    ensures PkgsFromDocs(acc, docs).Ok?
    decreases |docs|
  {
    if docs != [] {
      var here := ChildrenOf(docs[0]);
      var rest := PkgNodes(docs[1..]);
      PkgNodesCons(docs);
      BridgesSucceed(acc, docs[0]);
      BridgesResult(acc, docs[0]);
      var mid := PkgsFromBridges(acc, docs[0]).value;
      FreshAfter(acc, mid, here, rest);
      assert forall i :: 0 <= i < |docs[1..]| ==> docs[1..][i] == docs[i + 1];
      DocsSucceed(mid, docs[1..]);
      assert PkgsFromDocs(acc, docs) == PkgsFromDocs(mid, docs[1..]);
    }
  }

  /**
   * When every bridge node has a block and every package node parses, parse_pkg
   * succeeds exactly when all package names are distinct; a repeated name anywhere
   * is refused.
   */
  lemma ParsePkgSucceedsIffDistinct(docs: seq<Kdl.Document>)
    requires AllBridgesHaveChildren(docs)
    requires forall i :: 0 <= i < |PkgNodes(docs)| ==> ParseDecl(PkgNodes(docs)[i]).Ok?
    ensures PkgsFromDocs([], docs).Ok? <==> DistinctNodeNames(PkgNodes(docs))
  {
    var ns := PkgNodes(docs);
    if PkgsFromDocs([], docs).Ok? {
      ParsedPkgsOrderAndUnique(docs);
      var ps := PkgsFromDocs([], docs).value;
      forall i, j | 0 <= i < j < |ns| ensures ns[i].name != ns[j].name {
        assert ParseDecl(ns[i]) == Ok(ps[i]) && ParseDecl(ns[j]) == Ok(ps[j]);
      }
    }
    if DistinctNodeNames(ns) {
      DocsSucceed([], docs);
    }
  }

  /** A bridge node without a children block makes parse_pkg fail with `MissingField`, when it is reached first. */
  lemma BridgeWithoutChildren(acc: seq<PkgDeclaration>, node: Kdl.Node, rest: seq<Kdl.Node>, docs: seq<Kdl.Document>)
    requires node.children.None?
    ensures PkgsFromDocs(acc, [[node] + rest] + docs) == Err(MissingField)
  {
    assert ([node] + rest)[0] == node;
  }

  // ---------------------------------------------------------------------------
  // parse_bridges
  // ---------------------------------------------------------------------------

  /** The names of the nodes of a document. */
  function NamesOfNodes(nodes: seq<Kdl.Node>): (r: seq<string>)
    ensures |r| == |nodes| && forall i :: 0 <= i < |nodes| ==> r[i] == nodes[i].name
  {
    seq(|nodes|, i requires 0 <= i < |nodes| => nodes[i].name)
  }

  /** The names of all top-level (bridge) nodes of all documents, in order. */
  function BridgeNodeNames(docs: seq<Kdl.Document>): seq<string>
    decreases |docs|
  {
    if docs == [] then [] else NamesOfNodes(docs[0]) + BridgeNodeNames(docs[1..])
  }

  /** Appends to `acc` a bridge for each name not already there, in order: the spec of `ParseBridges`. */
  function DedupFrom(acc: seq<Bridge>, names: seq<string>): seq<Bridge>
    decreases |names|
  {
    if names == [] then acc
    else DedupFrom(if Bridge(names[0]) in acc then acc else acc + [Bridge(names[0])], names[1..])
  }

  method ParseBridges(docs: seq<Kdl.Document>) returns (r: seq<Bridge>)
    ensures r == DedupFrom([], BridgeNodeNames(docs))
  {
    var bridges: seq<Bridge> := [];
    var i := 0;
    while i < |docs|
      invariant 0 <= i <= |docs|
      invariant DedupFrom(bridges, BridgeNodeNames(docs[i..])) == DedupFrom([], BridgeNodeNames(docs))
    {
      var nodes := docs[i];
      assert docs[i..][1..] == docs[i + 1..];
      var j := 0;
      while j < |nodes|
        invariant 0 <= j <= |nodes|
        invariant DedupFrom(bridges, NamesOfNodes(nodes)[j..] + BridgeNodeNames(docs[i + 1..]))
                  == DedupFrom([], BridgeNodeNames(docs))
      {
        var name := nodes[j].name;
        assert (NamesOfNodes(nodes)[j..] + BridgeNodeNames(docs[i + 1..]))[0] == name;
        assert (NamesOfNodes(nodes)[j..] + BridgeNodeNames(docs[i + 1..]))[1..]
               == NamesOfNodes(nodes)[j + 1..] + BridgeNodeNames(docs[i + 1..]);
        if forall b :: b in bridges ==> b.name != name {
          bridges := bridges + [Bridge(name)];
        }
        j := j + 1;
      }
      assert NamesOfNodes(nodes)[j..] + BridgeNodeNames(docs[i + 1..]) == BridgeNodeNames(docs[i + 1..]);
      i := i + 1;
    }
    r := bridges;
  }

  /** A reference definition: the names that do not occur earlier in the list, in order. */
  function FirstOccurrences(names: seq<string>): seq<string>
    decreases |names|
  {
    if names == [] then []
    else
      var n := |names| - 1;
      FirstOccurrences(names[..n]) + (if names[n] in names[..n] then [] else [names[n]])
  }

  function BridgesNamed(names: seq<string>): (r: seq<Bridge>)
    ensures |r| == |names| && forall i :: 0 <= i < |names| ==> r[i] == Bridge(names[i])
  {
    seq(|names|, i requires 0 <= i < |names| => Bridge(names[i]))
  }

  lemma {:induction false} FirstOccurrencesSameNames(names: seq<string>)
    ensures forall x :: x in FirstOccurrences(names) <==> x in names
    decreases |names|
  {
    if names != [] {
      var n := |names| - 1;
      FirstOccurrencesSameNames(names[..n]);
      assert names == names[..n] + [names[n]];
    }
  }

  lemma BridgesNamedMember(names: seq<string>, x: string)
    ensures Bridge(x) in BridgesNamed(names) <==> x in names
  {
    if Bridge(x) in BridgesNamed(names) {
      var i :| 0 <= i < |names| && BridgesNamed(names)[i] == Bridge(x);
    }
    if x in names {
      var i :| 0 <= i < |names| && names[i] == x;
      assert BridgesNamed(names)[i] == Bridge(x);
    }
  }

  lemma BridgesNamedAppend(a: seq<string>, b: seq<string>)
    ensures BridgesNamed(a + b) == BridgesNamed(a) + BridgesNamed(b)
  {
  }

  /** One step of the scan: the name `x` after `prefix`. */
  lemma FirstOccurrencesSnoc(prefix: seq<string>, x: string)
    ensures FirstOccurrences(prefix + [x]) == FirstOccurrences(prefix) + (if x in prefix then [] else [x])
  {
    assert (prefix + [x])[..|prefix|] == prefix;
  }

  lemma {:induction false} DedupMatchesFirstOccurrences(prefix: seq<string>, rest: seq<string>)
    ensures DedupFrom(BridgesNamed(FirstOccurrences(prefix)), rest) == BridgesNamed(FirstOccurrences(prefix + rest))
    decreases |rest|
  {
    if rest == [] {
      assert prefix + rest == prefix;
    } else {
      var x := rest[0];
      var acc := BridgesNamed(FirstOccurrences(prefix));
      var acc' := if Bridge(x) in acc then acc else acc + [Bridge(x)];
      assert acc' == BridgesNamed(FirstOccurrences(prefix + [x])) by {
        var fo := FirstOccurrences(prefix);
        FirstOccurrencesSameNames(prefix);
        BridgesNamedMember(fo, x);
        FirstOccurrencesSnoc(prefix, x);
        if x in prefix {
          assert acc' == acc;
        } else {
          BridgesNamedAppend(fo, [x]);
        }
      }
      var prefix' := prefix + [x];
      assert prefix' + rest[1..] == prefix + rest;
      calc {
        DedupFrom(acc, rest);
        DedupFrom(acc', rest[1..]);
        { DedupMatchesFirstOccurrences(prefix', rest[1..]); }
        BridgesNamed(FirstOccurrences(prefix' + rest[1..]));
      }
    }
  }

  lemma {:induction false} FirstOccurrencesDistinct(names: seq<string>)
    ensures forall i, j :: 0 <= i < j < |FirstOccurrences(names)| ==> FirstOccurrences(names)[i] != FirstOccurrences(names)[j]
    decreases |names|
  {
    if names != [] {
      var n := |names| - 1;
      FirstOccurrencesDistinct(names[..n]);
      FirstOccurrencesSameNames(names[..n]);
    }
  }

  /**
   * parse_bridges keeps, in order, each bridge node name that does not occur earlier;
   * so the list has no repeats and holds every name of every document.
   */
  lemma ParsedBridgesFirstOccurrence(docs: seq<Kdl.Document>)
    ensures DedupFrom([], BridgeNodeNames(docs)) == BridgesNamed(FirstOccurrences(BridgeNodeNames(docs)))
    ensures var r := DedupFrom([], BridgeNodeNames(docs));
      && (forall i, j :: 0 <= i < j < |r| ==> r[i] != r[j])
      && (forall n :: Bridge(n) in r <==> n in BridgeNodeNames(docs))
  {
    var names := BridgeNodeNames(docs);
    var first := FirstOccurrences(names);
    DedupMatchesFirstOccurrences([], names);
    assert [] + names == names;
    var r := DedupFrom([], names);
    assert r == BridgesNamed(first);
    FirstOccurrencesDistinct(names);
    FirstOccurrencesSameNames(names);
    forall n ensures Bridge(n) in r <==> n in names {
      BridgesNamedMember(first, n);
    }
  }

  // ---------------------------------------------------------------------------
  // Input::load
  // ---------------------------------------------------------------------------

  datatype InputSet = InputSet(path: string, bridges: seq<Bridge>, pkgs: seq<PkgDeclaration>)

  /** Every one of `paths` reads. */
  predicate AllRead(paths: seq<string>, read: string -> Option<Kdl.Document>) {
    forall i :: 0 <= i < |paths| ==> read(paths[i]).Some?
  }

  /** The documents `paths` read to, in order. */
  function ReadDocs(paths: seq<string>, read: string -> Option<Kdl.Document>): seq<Kdl.Document>
    requires AllRead(paths, read)
  {
    seq(|paths|, i requires 0 <= i < |paths| => read(paths[i]).value)
  }

  /**
   * Reads and parses every input file in order (parse_inputs_kdl); the first file that
   * cannot be read or parsed stops the load. `read` stands for reading a file and
   * parsing it as KDL.
   */
  method ParseInputsKdl(paths: seq<string>, read: string -> Option<Kdl.Document>) returns (r: Result<seq<Kdl.Document>, InputError>)
    ensures r.Ok? <==> forall i :: 0 <= i < |paths| ==> read(paths[i]).Some?
    ensures r.Ok? ==> |r.value| == |paths| && forall i :: 0 <= i < |paths| ==> r.value[i] == read(paths[i]).value
    ensures r.Err? ==> exists i ::
      0 <= i < |paths| && read(paths[i]).None? && r.error == Unreadable(paths[i]) && AllRead(paths[..i], read)
  {
    var docs: seq<Kdl.Document> := [];
    var i := 0;
    while i < |paths|
      invariant 0 <= i <= |paths|
      invariant |docs| == i && forall j :: 0 <= j < i ==> read(paths[j]).Some? && docs[j] == read(paths[j]).value
    {
      var doc := read(paths[i]);
      if doc.None? {
        return Err(Unreadable(paths[i]));
      }
      docs := docs + [doc.value];
      i := i + 1;
    }
    r := Ok(docs);
  }

  /**
   * Input::load: finds the input files below `path`, parses them, then collects the
   * package declarations and the bridge names; the first error stops the load.
   */
  method Load(path: string, entries: seq<DirTree.Entry>, read: string -> Option<Kdl.Document>) returns (r: Result<InputSet, InputError>)
    ensures r.Ok? <==>
      AllRead(KdlFiles(path, entries), read) && PkgsFromDocs([], ReadDocs(KdlFiles(path, entries), read)).Ok?
    ensures !AllRead(KdlFiles(path, entries), read) ==>
      exists i :: 0 <= i < |KdlFiles(path, entries)| && read(KdlFiles(path, entries)[i]).None? &&
        r == Err(Unreadable(KdlFiles(path, entries)[i])) && AllRead(KdlFiles(path, entries)[..i], read)
    ensures AllRead(KdlFiles(path, entries), read) ==>
      var docs := ReadDocs(KdlFiles(path, entries), read);
      && (r.Err? ==> r.error == PkgsFromDocs([], docs).error)
      && (r.Ok? ==> r.value == InputSet(path, DedupFrom([], BridgeNodeNames(docs)), PkgsFromDocs([], docs).value))
  {
    var paths := DetectPkgKdlFiles(path, entries);
    var docs := ParseInputsKdl(paths, read);
    if docs.Err? {
      return Err(docs.error);
    }
    assert docs.value == ReadDocs(paths, read);
    var pkgs := ParsePkg(docs.value);
    if pkgs.Err? {
      return Err(pkgs.error);
    }
    var bridges := ParseBridges(docs.value);
    r := Ok(InputSet(path, bridges, pkgs.value));
  }
}
