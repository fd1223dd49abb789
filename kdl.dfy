/**
 * Parsed KDL documents, as the `kdl` crate hands them over: the parsing itself is
 * not modelled, only the tree the program walks.
 */
module Kdl {
  import opened Wrappers

  /** A KDL value; a float is carried only as its text. */
  datatype Value = Str(s: string) | Int(i: int) | Bool(b: bool) | Float(shown: string) | Null

  /** An entry of a node: an argument (no name) or a property (`name=value`). */
  datatype Entry = Entry(name: Option<string>, value: Value)

  /** A node: its name, its entries in order and, when it has a `{ ... }` block, its children. */
  datatype Node = Node(name: string, entries: seq<Entry>, children: Option<seq<Node>>)

  type Document = seq<Node>

  /** `KdlDocument::get(name)`: the first node of the document with that name. */
  function Get(doc: Document, name: string): (r: Option<Node>)
    ensures r.Some? ==> r.value in doc && r.value.name == name
    ensures r.None? <==> forall i :: 0 <= i < |doc| ==> doc[i].name != name
    ensures r.Some? ==> exists i :: 0 <= i < |doc| && doc[i] == r.value &&
                          forall j :: 0 <= j < i ==> doc[j].name != name
  {
    if doc == [] then None
    else if doc[0].name == name then Some(doc[0])
    else
      var r := Get(doc[1..], name);
      assert forall j :: 1 <= j < |doc| ==> doc[j] == doc[1..][j - 1];
      r
  }
}

/**
 * A read-only snapshot of part of the filesystem as `read_dir` walks it: every
 * directory lists its entries in the order the platform returns them.
 */
module DirTree {
  import opened Wrappers

  /** What an entry is: a regular file, a directory with its entries, or anything else. */
  datatype Kind = File | Dir(entries: seq<Entry>) | Other

  datatype Entry = Entry(name: string, kind: Kind)

  /** Every name, at every depth, is one non-empty path component: `read_dir` yields no `/` in a name. */
  predicate PlainNames(entries: seq<Entry>)
    decreases entries
  {
    entries == [] ||
    (&& entries[0].name != [] && '/' !in entries[0].name
     && (entries[0].kind.Dir? ==> PlainNames(entries[0].kind.entries))
     && PlainNames(entries[1..]))
  }

  /** The kind of the first entry named `name`, if there is one. */
  function Lookup(entries: seq<Entry>, name: string): (r: Option<Kind>)
    ensures r.Some? <==> exists i :: 0 <= i < |entries| && entries[i].name == name
    ensures r.Some? ==> exists i :: 0 <= i < |entries| && entries[i].name == name && entries[i].kind == r.value
  {
    if entries == [] then None
    else if entries[0].name == name then Some(entries[0].kind)
    else
      var r := Lookup(entries[1..], name);
      assert forall j :: 1 <= j < |entries| ==> entries[j] == entries[1..][j - 1];
      r
  }
}
