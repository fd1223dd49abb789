/**
 * Loading the configuration (src/config.rs): the `config` node, its three required
 * sections, the five path values and `~/` expansion against the home directory.
 * The environment is a parameter: the values of HOME and USERPROFILE, if set.
 */
module Config {
  import opened Wrappers
  import opened Strings
  import Kdl

  datatype ConfigError = MissingValue(key: string) | InvalidPath

  /** The two environment variables expand_home consults. */
  datatype Env = Env(home: Option<string>, userProfile: Option<string>)

  datatype Config = Config(path: string, sourceDir: string, bridgesSet: string, targetDir: string, loadPath: string, dbPath: string)

  const CONFIG_NODE: string := "config"
  const EMPTY_CONFIG: string := "config node is empty"
  const INPUTS: string := "inputs"
  const OUTPUT: string := "output"
  const DB: string := "db"

  /** The home directory used for `~/`: HOME when set, else USERPROFILE. */
  function HomeDir(env: Env): Option<string> {
    if env.home.Some? then env.home else env.userProfile
  }

  /** expand_home: `~/rest` becomes the home directory joined with `rest`; anything else is kept. */
  function ExpandHome(path: string, env: Env): string {
    if "~/" <= path then
      match HomeDir(env)
      case Some(home) => Join(home, path[2..])
      case None => path
    else path
  }

  /**
   * A path starting with `~/` lands under HOME, or USERPROFILE when HOME is unset,
   * as `home/rest`; with neither set, and for any path not starting with `~/` (a bare
   * `~` included), the path is kept as written.
   */
  lemma ExpandHomeCases(path: string, env: Env)
    ensures !("~/" <= path) ==> ExpandHome(path, env) == path
    ensures HomeDir(env).None? ==> ExpandHome(path, env) == path
    ensures "~/" <= path && env.home.None? && env.userProfile.Some? ==>
      ExpandHome(path, env) == ExpandHome(path, Env(env.userProfile, None))
    ensures forall home, rest ::
      (env.home == Some(home) && path == "~/" + rest && home != [] && home[|home| - 1] != '/' &&
       !(|rest| > 0 && rest[0] == '/')) ==> ExpandHome(path, env) == home + "/" + rest
  {
    forall home, rest | env.home == Some(home) && path == "~/" + rest && home != [] &&
      home[|home| - 1] != '/' && !(|rest| > 0 && rest[0] == '/')
      ensures ExpandHome(path, env) == home + "/" + rest
    {
      assert path[2..] == rest;
    }
  }

  /**
   * get_and_store_children: the section named `key` must exist in `parent` and have a
   * block; its block is stored under `key`.
   */
  function GetAndStoreChildren(config: map<string, Kdl.Document>, parent: Kdl.Document, key: string): (r: Result<map<string, Kdl.Document>, ConfigError>)
    ensures r.Err? <==> Kdl.Get(parent, key).None? || Kdl.Get(parent, key).value.children.None?
    ensures r.Err? ==> r.error == MissingValue(key)
    ensures r.Ok? ==> r.value.Keys == config.Keys + {key}
    ensures r.Ok? ==> r.value[key] == Kdl.Get(parent, key).value.children.value
    ensures r.Ok? ==> forall k :: k in config && k != key ==> r.value[k] == config[k]
  {
    match Kdl.Get(parent, key)
    case None => Err(MissingValue(key))
    case Some(node) =>
      match node.children
      case None => Err(MissingValue(key))
      case Some(children) => Ok(config[key := children])
  }

  /**
   * get_node_value_as_string: the first node called `name` must have a first entry,
   * which must be a string; the string is then home-expanded.
   */
  function GetNodeValueAsString(parent: Kdl.Document, name: string, env: Env): (r: Result<string, ConfigError>)
    ensures Kdl.Get(parent, name).None? ==> r == Err(MissingValue(name))
    ensures Kdl.Get(parent, name).Some? && Kdl.Get(parent, name).value.entries == [] ==> r == Err(MissingValue(name))
    ensures (Kdl.Get(parent, name).Some? && Kdl.Get(parent, name).value.entries != []
             && !Kdl.Get(parent, name).value.entries[0].value.Str?) ==> r == Err(InvalidPath)
    ensures r.Ok? ==> exists s :: Kdl.Get(parent, name).value.entries[0].value == Kdl.Str(s) && r.value == ExpandHome(s, env)
  {
    match Kdl.Get(parent, name)
    case None => Err(MissingValue(name))
    case Some(node) =>
      if node.entries == [] then Err(MissingValue(name))
      else
        match node.entries[0].value
        case Str(s) => Ok(ExpandHome(s, env))
        case _ => Err(InvalidPath)
  }

  /** The block of the first `key` node, when the section is present. */
  function Section(content: Kdl.Document, key: string): Option<Kdl.Document> {
    match Kdl.Get(content, key)
    case None => None
    case Some(node) => node.children
  }

  /** The five path values, read in the order the fields of `Config` are written. */
  function ReadFields(path: string, inputs: Kdl.Document, output: Kdl.Document, db: Kdl.Document, env: Env): Result<Config, ConfigError> {
    Assemble(path, GetNodeValueAsString(inputs, "path", env), GetNodeValueAsString(inputs, "bridges-set", env),
             GetNodeValueAsString(output, "target-dir", env), GetNodeValueAsString(output, "load-path", env),
             GetNodeValueAsString(db, "path", env))
  }

  /** The `?` chain over the five values: the first error, else the config built from them. */
  function Assemble(path: string, f0: Result<string, ConfigError>, f1: Result<string, ConfigError>,
                    f2: Result<string, ConfigError>, f3: Result<string, ConfigError>,
                    f4: Result<string, ConfigError>): Result<Config, ConfigError> {
    var sourceDir :- f0;
    var bridgesSet :- f1;
    var targetDir :- f2;
    var loadPath :- f3;
    var dbPath :- f4;
    Ok(Config(path, sourceDir, bridgesSet, targetDir, loadPath, dbPath))
  }

  /** Config::load on a parsed document. */
  function Load(path: string, doc: Kdl.Document, env: Env): Result<Config, ConfigError> {
    match Kdl.Get(doc, CONFIG_NODE)
    case None => Err(MissingValue(CONFIG_NODE))
    case Some(configNode) =>
      match configNode.children
      case None => Err(MissingValue(EMPTY_CONFIG))
      case Some(content) =>
        var c1 :- GetAndStoreChildren(map[], content, INPUTS);
        var c2 :- GetAndStoreChildren(c1, content, OUTPUT);
        var config :- GetAndStoreChildren(c2, content, DB);
        ReadFields(path, config[INPUTS], config[OUTPUT], config[DB], env)
  }

  /** A missing `config` node, or one without a block, is reported before anything else. */
  lemma LoadConfigNodeErrors(path: string, doc: Kdl.Document, env: Env)
    ensures Kdl.Get(doc, CONFIG_NODE).None? ==> Load(path, doc, env) == Err(MissingValue("config"))
    ensures Kdl.Get(doc, CONFIG_NODE).Some? && Kdl.Get(doc, CONFIG_NODE).value.children.None? ==>
      Load(path, doc, env) == Err(MissingValue("config node is empty"))
  {
  }

  /**
   * The sections are required in the order inputs, output, db: the first one that is
   * missing or has no block is the error, whatever follows it. With all three present
   * the values are read from the blocks of the three sections.
   */
  lemma LoadSectionOrder(path: string, doc: Kdl.Document, env: Env, content: Kdl.Document)
    requires Kdl.Get(doc, CONFIG_NODE).Some? && Kdl.Get(doc, CONFIG_NODE).value.children == Some(content)
    ensures Section(content, INPUTS).None? ==> Load(path, doc, env) == Err(MissingValue("inputs"))
    ensures Section(content, INPUTS).Some? && Section(content, OUTPUT).None? ==>
      Load(path, doc, env) == Err(MissingValue("output"))
    ensures Section(content, INPUTS).Some? && Section(content, OUTPUT).Some? && Section(content, DB).None? ==>
      Load(path, doc, env) == Err(MissingValue("db"))
    ensures Section(content, INPUTS).Some? && Section(content, OUTPUT).Some? && Section(content, DB).Some? ==>
      Load(path, doc, env) ==
        ReadFields(path, Section(content, INPUTS).value, Section(content, OUTPUT).value, Section(content, DB).value, env)
  {
  }

  /**
   * The field mapping: on success each field is the expanded string of its own node
   * (source_dir from inputs.path, bridges_set from inputs.bridges-set, target_dir from
   * output.target-dir, load_path from output.load-path, db_path from db.path). Values
   * are read in that order and the first bad one is the error.
   */
  lemma ReadFieldsMapping(path: string, inputs: Kdl.Document, output: Kdl.Document, db: Kdl.Document, env: Env)
    ensures var fields := [GetNodeValueAsString(inputs, "path", env), GetNodeValueAsString(inputs, "bridges-set", env),
                           GetNodeValueAsString(output, "target-dir", env), GetNodeValueAsString(output, "load-path", env),
                           GetNodeValueAsString(db, "path", env)];
      && (ReadFields(path, inputs, output, db, env).Ok? <==> forall i :: 0 <= i < 5 ==> fields[i].Ok?)
      && (ReadFields(path, inputs, output, db, env).Ok? ==>
            ReadFields(path, inputs, output, db, env).value ==
              Config(path, fields[0].value, fields[1].value, fields[2].value, fields[3].value, fields[4].value))
      && (forall k :: 0 <= k < 5 && fields[k].Err? && (forall i :: 0 <= i < k ==> fields[i].Ok?) ==>
            ReadFields(path, inputs, output, db, env) == Err(fields[k].error))
  {
    AssembleMapping(path, [GetNodeValueAsString(inputs, "path", env), GetNodeValueAsString(inputs, "bridges-set", env),
                           GetNodeValueAsString(output, "target-dir", env), GetNodeValueAsString(output, "load-path", env),
                           GetNodeValueAsString(db, "path", env)]);
  }

  /** The `?` chain succeeds when every value does, and otherwise fails with the first error. */
  lemma AssembleMapping(path: string, fields: seq<Result<string, ConfigError>>)
    requires |fields| == 5
    ensures var r := Assemble(path, fields[0], fields[1], fields[2], fields[3], fields[4]);
      && (r.Ok? <==> forall i :: 0 <= i < 5 ==> fields[i].Ok?)
      && (r.Ok? ==> r.value == Config(path, fields[0].value, fields[1].value, fields[2].value, fields[3].value, fields[4].value))
      && (forall k :: 0 <= k < 5 && fields[k].Err? && (forall i :: 0 <= i < k ==> fields[i].Ok?) ==> r == Err(fields[k].error))
  {
    var r := Assemble(path, fields[0], fields[1], fields[2], fields[3], fields[4]);
    forall k | 0 <= k < 5 && fields[k].Err? && (forall i :: 0 <= i < k ==> fields[i].Ok?)
      ensures r == Err(fields[k].error)
    {
      if k >= 1 { assert fields[0].Ok?; }
      if k >= 2 { assert fields[1].Ok?; }
      if k >= 3 { assert fields[2].Ok?; }
      if k >= 4 { assert fields[3].Ok?; }
    }
    if forall i :: 0 <= i < 5 ==> fields[i].Ok? {
      assert fields[0].Ok? && fields[1].Ok? && fields[2].Ok? && fields[3].Ok? && fields[4].Ok?;
    }
  }
}
