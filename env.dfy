// Tool configuration (insta/src/env.rs): every setting is read from an
// environment variable, falling back to a value in the workspace's
// `insta.yaml` and then to a default; a value outside a setting's table is
// an error naming the variable.  The process environment is a map from
// variable name to value, the files the configuration may live in are an
// abstract filesystem from path to parsed YAML, and whether the process
// runs under CI is a flag.
module Env {
  import opened Wrappers
  import Paths
  import Strs
  import C = Contents

  datatype OutputBehavior = Diff | Summary | Minimal | Nothing

  datatype SnapshotUpdate = Always | Auto | Unseen | New | No

  datatype SnapshotUpdateBehavior = InPlace | NewFile | NoUpdate

  datatype TestRunner = AutoRunner | CargoTest | Nextest

  datatype UnreferencedSnapshots = AutoUnreferenced | Reject | Delete | Warn | Ignore

  datatype EnvError =
    | Deserialize     // the configuration file is not valid YAML
    | Env(variable: string)
    | Config(key: string)

  type Environment = map<string, string>

  /// A configuration file that could be read: its YAML parsed, or a parse
  /// failure.
  datatype ConfigFile = Parsed(value: C.Content) | Malformed

  type FileSystem = map<Paths.Path, ConfigFile>

  // ---------------------------------------------------------------------
  // `resolve`: following a key path through the configuration.

  /// Index of the first map entry whose key is the string `seg`, or the
  /// number of entries.
  function FindEntry(es: seq<(C.Content, C.Content)>, seg: string): (k: nat)
    ensures k <= |es|
    ensures k < |es| ==> C.AsStr(es[k].0) == Some(seg)
    ensures forall j :: 0 <= j < k ==> C.AsStr(es[j].0) != Some(seg)
  {
    if es == [] then 0
    else if C.AsStr(es[0].0) == Some(seg) then 0
    else 1 + FindEntry(es[1..], seg)
  }

  /// Index of the first struct field named `seg`, or the number of fields.
  function FindField(fs: seq<(string, C.Content)>, seg: string): (k: nat)
    ensures k <= |fs|
    ensures k < |fs| ==> fs[k].0 == seg
    ensures forall j :: 0 <= j < k ==> fs[j].0 != seg
  {
    if fs == [] then 0
    else if fs[0].0 == seg then 0
    else 1 + FindField(fs[1..], seg)
  }

  /// One step of `resolve`: the first matching map entry's value or struct
  /// field; any other node has no children to follow.
  function Child(node: C.Content, seg: string): Option<C.Content>
  {
    match C.ResolveInner(node)
    case Map(es) =>
      var k := FindEntry(es, seg);
      if k < |es| then Some(es[k].1) else None
    case Struct(_, fs) =>
      var k := FindField(fs, seg);
      if k < |fs| then Some(fs[k].1) else None
    case StructVariant(_, _, _, fs) =>
      var k := FindField(fs, seg);
      if k < |fs| then Some(fs[k].1) else None
    case _ => None
  }

  /// `resolve`: the fold of `Child` over the path, stopping at the first
  /// missing step.
  function Resolve(value: C.Content, path: seq<string>): Option<C.Content>
    decreases |path|
  {
    if path == [] then Some(value)
    else
      match Child(value, path[0])
      case None => None
      case Some(n) => Resolve(n, path[1..])
  }

  /// Resolving a longer path is resolving its two parts one after the
  /// other.
  lemma {:induction false} ResolveAppend(value: C.Content, p: seq<string>, q: seq<string>)
    ensures Resolve(value, p + q) == match Resolve(value, p) case None => None case Some(n) => Resolve(n, q)
    decreases |p|
  {
    if p == [] {
      assert p + q == q;
    } else {
      assert (p + q)[0] == p[0];
      assert (p + q)[1..] == p[1..] + q;
      match Child(value, p[0])
      case None =>
        assert Resolve(value, p) == None;
        assert Resolve(value, p + q) == None;
      case Some(n) =>
        assert Resolve(value, p) == Resolve(n, p[1..]);
        assert Resolve(value, p + q) == Resolve(n, p[1..] + q);
        ResolveAppend(n, p[1..], q);
    }
  }

  /// The configuration a file holding just `outer: {inner: v}` parses to.
  function Nested(outer: string, inner: string, v: C.Content): C.Content
  {
    C.Map([(C.String(outer), C.Map([(C.String(inner), v)]))])
  }

  /// A one-entry map has one child, under its key.
  lemma ChildOne(key: string, v: C.Content, seg: string)
    ensures Child(C.Map([(C.String(key), v)]), seg) == if seg == key then Some(v) else None
  {
    assert C.AsStr(C.String(key)) == Some(key);
    assert [(C.String(key), v)][1..] == [];
    assert FindEntry([(C.String(key), v)], seg) == if seg == key then 0 else 1;
  }

  /// In such a configuration the two-step path `outer.inner` resolves to
  /// `v` and every other two-step path to nothing.
  lemma ResolveNested(outer: string, inner: string, v: C.Content, p: seq<string>)
    requires |p| == 2
    ensures Resolve(Nested(outer, inner, v), p) == if p == [outer, inner] then Some(v) else None
  {
    var m := C.Map([(C.String(inner), v)]);
    ChildOne(outer, m, p[0]);
    ChildOne(inner, v, p[1]);
    assert p[1..] == [p[1]] && [p[1]][1..] == [];
    if p[0] == outer {
      assert Resolve(Nested(outer, inner, v), p) == Resolve(m, [p[1]]);
    }
  }

  /// An empty configuration resolves no path but the empty one.
  lemma ResolveEmpty(p: seq<string>)
    requires p != []
    ensures Resolve(C.Map([]), p) == None
  {
    assert Child(C.Map([]), p[0]) == None;
  }

  function ConfigStr(cfg: C.Content, path: seq<string>, default: string): string
  {
    match Resolve(cfg, path)
    case None => default
    case Some(x) => C.AsStr(x).UnwrapOr(default)
  }

  function ConfigBool(cfg: C.Content, path: seq<string>, default: bool): bool
  {
    match Resolve(cfg, path)
    case None => default
    case Some(x) => C.AsBool(x).UnwrapOr(default)
  }

  // ---------------------------------------------------------------------
  // The value tables.

  /// An environment variable as the settings read it: unset and empty are
  /// the same.
  function Setting(env: Environment, name: string): (r: Option<string>)
    ensures r.Some? ==> r.value != ""
  {
    if name in env && env[name] != "" then Some(env[name]) else None
  }

  /// A boolean setting: "0" and "1" from the environment win, otherwise the
  /// configuration's boolean at `path`, default false.
  function BoolField(env: Environment, cfg: C.Content, name: string, path: seq<string>): Result<bool, EnvError>
  {
    match Setting(env, name)
    case None => Ok(ConfigBool(cfg, path, false))
    case Some(v) => if v == "0" then Ok(false) else if v == "1" then Ok(true) else Err(Env(name))
  }

  function BoolValue(b: bool): string
  {
    if b then "1" else "0"
  }

  /// Setting the variable to "0" or "1" decides a boolean setting, whatever
  /// the configuration says; any other non-empty value is an error naming
  /// the variable.
  lemma BoolFieldTable(env: Environment, cfg: C.Content, name: string, path: seq<string>)
    ensures forall b :: BoolField(env[name := BoolValue(b)], cfg, name, path) == Ok(b)
    ensures name in env && env[name] !in {"", "0", "1"} ==> BoolField(env, cfg, name, path) == Err(Env(name))
    ensures name !in env ==> BoolField(env, cfg, name, path) == Ok(ConfigBool(cfg, path, false))
  {
  }

  function OutputName(o: OutputBehavior): string
  {
    match o
    case Diff => "diff"
    case Summary => "summary"
    case Minimal => "minimal"
    case Nothing => "none"
  }

  function ParseOutput(v: string): (r: Option<OutputBehavior>)
    ensures r.Some? <==> v in {"diff", "summary", "minimal", "none"}
    ensures r.Some? ==> OutputName(r.value) == v
  {
    if v == "diff" then Some(Diff)
    else if v == "summary" then Some(Summary)
    else if v == "minimal" then Some(Minimal)
    else if v == "none" then Some(Nothing)
    else None
  }

  lemma OutputNameParses(o: OutputBehavior)
    ensures ParseOutput(OutputName(o)) == Some(o)
  {
  }

  function UpdateName(u: SnapshotUpdate): string
  {
    match u
    case Always => "always"
    case Auto => "auto"
    case Unseen => "unseen"
    case New => "new"
    case No => "no"
  }

  /// The `INSTA_UPDATE` table; "1" is another name for "always".
  function ParseUpdate(v: string): (r: Option<SnapshotUpdate>)
    ensures r.Some? <==> v in {"auto", "always", "1", "new", "unseen", "no"}
    ensures r.Some? ==> UpdateName(r.value) == v || (v == "1" && r.value == Always)
  {
    if v == "auto" then Some(Auto)
    else if v == "always" || v == "1" then Some(Always)
    else if v == "new" then Some(New)
    else if v == "unseen" then Some(Unseen)
    else if v == "no" then Some(No)
    else None
  }

  lemma UpdateNameParses(u: SnapshotUpdate)
    ensures ParseUpdate(UpdateName(u)) == Some(u)
  {
  }

  function RunnerName(t: TestRunner): string
  {
    match t
    case AutoRunner => "auto"
    case CargoTest => "cargo-test"
    case Nextest => "nextest"
  }

  /// `FromStr for TestRunner`.
  function ParseTestRunner(v: string): (r: Option<TestRunner>)
    ensures r.Some? <==> v in {"auto", "cargo-test", "nextest"}
    ensures r.Some? ==> RunnerName(r.value) == v
  {
    if v == "auto" then Some(AutoRunner)
    else if v == "cargo-test" then Some(CargoTest)
    else if v == "nextest" then Some(Nextest)
    else None
  }

  lemma RunnerNameParses(t: TestRunner)
    ensures ParseTestRunner(RunnerName(t)) == Some(t)
  {
  }

  function UnreferencedName(u: UnreferencedSnapshots): string
  {
    match u
    case AutoUnreferenced => "auto"
    case Reject => "reject"
    case Delete => "delete"
    case Warn => "warn"
    case Ignore => "ignore"
  }

  /// `FromStr for UnreferencedSnapshots`; "error" is another name for
  /// "reject".
  function ParseUnreferenced(v: string): (r: Option<UnreferencedSnapshots>)
    ensures r.Some? <==> v in {"auto", "reject", "error", "delete", "warn", "ignore"}
    ensures r.Some? ==> UnreferencedName(r.value) == v || (v == "error" && r.value == Reject)
  {
    if v == "auto" then Some(AutoUnreferenced)
    else if v == "reject" || v == "error" then Some(Reject)
    else if v == "delete" then Some(Delete)
    else if v == "warn" then Some(Warn)
    else if v == "ignore" then Some(Ignore)
    else None
  }

  lemma UnreferencedNameParses(u: UnreferencedSnapshots)
    ensures ParseUnreferenced(UnreferencedName(u)) == Some(u)
  {
  }

  /// The text of a setting given by a name: the variable if set and
  /// non-empty, else the configuration's string at `path`, else `default`.
  function NamedValue(env: Environment, cfg: C.Content, name: string, path: seq<string>, default: string): string
  {
    match Setting(env, name)
    case Some(s) => s
    case None => ConfigStr(cfg, path, default)
  }

  /// `INSTA_OUTPUT` / `behavior.output`; an invalid value names the
  /// variable even when it came from the file.
  function OutputField(env: Environment, cfg: C.Content): Result<OutputBehavior, EnvError>
  {
    match ParseOutput(NamedValue(env, cfg, "INSTA_OUTPUT", ["behavior", "output"], "diff"))
    case Some(o) => Ok(o)
    case None => Err(Env("INSTA_OUTPUT"))
  }

  /// `INSTA_UPDATE` / `behavior.update`.
  function UpdateField(env: Environment, cfg: C.Content): Result<SnapshotUpdate, EnvError>
  {
    match ParseUpdate(NamedValue(env, cfg, "INSTA_UPDATE", ["behavior", "update"], "auto"))
    case Some(u) => Ok(u)
    case None => Err(Env("INSTA_UPDATE"))
  }

  /// `INSTA_TEST_RUNNER` / `test.runner`.
  function RunnerField(env: Environment, cfg: C.Content): Result<TestRunner, EnvError>
  {
    match ParseTestRunner(NamedValue(env, cfg, "INSTA_TEST_RUNNER", ["test", "runner"], "auto"))
    case Some(t) => Ok(t)
    case None => Err(Env("INSTA_TEST_RUNNER"))
  }

  // ---------------------------------------------------------------------
  // `ToolConfig::from_workspace`.

  datatype ToolConfig = ToolConfig(
    forceUpdateSnapshots: bool,
    requireFullMatch: bool,
    forcePass: bool,
    output: OutputBehavior,
    snapshotUpdate: SnapshotUpdate,
    globFailFast: bool,
    testRunner: TestRunner,
    testUnreferenced: UnreferencedSnapshots,
    autoReview: bool,
    autoAcceptUnseen: bool,
    reviewIncludeHidden: bool,
    reviewIncludeIgnored: bool,
    reviewWarnUndiscovered: bool)

  /// The configuration files tried, in order.
  function ConfigChoices(workspace: Paths.Path): seq<Paths.Path>
  {
    [workspace + [".config", "insta.yaml"], workspace + ["insta.yaml"], workspace + [".insta.yaml"]]
  }

  /// The configuration: the first file of `choices` that exists, parsed;
  /// an empty map when none does.
  function ConfigFrom(fs: FileSystem, choices: seq<Paths.Path>): Result<C.Content, EnvError>
    decreases |choices|
  {
    if choices == [] then Ok(C.Map([]))
    else if choices[0] in fs then
      match fs[choices[0]]
      case Parsed(v) => Ok(v)
      case Malformed => Err(Deserialize)
    else ConfigFrom(fs, choices[1..])
  }

  /// The loop of `from_workspace` over the three file names, stopping at
  /// the first readable one.
  method LoadConfig(fs: FileSystem, workspace: Paths.Path) returns (r: Result<C.Content, EnvError>)
    ensures r == ConfigFrom(fs, ConfigChoices(workspace))
  {
    var choices := ConfigChoices(workspace);
    var found: Option<ConfigFile> := None;
    var k := 0;
    while k < |choices|
      invariant 0 <= k <= |choices|
      invariant found.None? ==> ConfigFrom(fs, choices) == ConfigFrom(fs, choices[k..])
      invariant found.Some? ==> ConfigFrom(fs, choices) == match found.value case Parsed(v) => Ok(v) case Malformed => Err(Deserialize)
      decreases |choices| - k, if found.None? then 1 else 0
    {
      if found.Some? {
        break;
      }
      if choices[k] in fs {
        found := Some(fs[choices[k]]);
      } else {
        assert choices[k..][1..] == choices[k + 1..];
        k := k + 1;
      }
    }
    if found.None? {
      assert choices[k..] == [];
      r := Ok(C.Map([]));
    } else {
      match found.value
      case Parsed(v) => r := Ok(v);
      case Malformed => r := Err(Deserialize);
    }
  }

  /// The configuration is the first file that exists: one at
  /// `.config/insta.yaml` shadows the other two, and without any the
  /// configuration is empty.
  lemma ConfigFromChoices(fs: FileSystem, workspace: Paths.Path)
    ensures var cs := ConfigChoices(workspace);
      (cs[0] in fs ==> ConfigFrom(fs, cs) == ConfigFrom(map[cs[0] := fs[cs[0]]], cs))
      && (cs[0] !in fs && cs[1] !in fs && cs[2] !in fs ==> ConfigFrom(fs, cs) == Ok(C.Map([])))
  {
    var cs := ConfigChoices(workspace);
    assert cs[1..] == [cs[1], cs[2]];
    assert cs[1..][1..] == [cs[2]];
    assert cs[1..][1..][1..] == [];
    if cs[0] !in fs && cs[1] !in fs && cs[2] !in fs {
      assert ConfigFrom(fs, cs) == ConfigFrom(fs, cs[1..]);
      assert ConfigFrom(fs, cs[1..]) == ConfigFrom(fs, cs[1..][1..]);
      assert ConfigFrom(fs, cs[1..][1..]) == ConfigFrom(fs, cs[1..][1..][1..]);
    }
  }

  /// The deprecated `INSTA_FORCE_UPDATE_SNAPSHOTS=1` stands in for an unset
  /// `INSTA_FORCE_UPDATE`.
  function EffectiveEnv(env: Environment): (r: Environment)
    ensures "INSTA_FORCE_UPDATE" in env ==> r == env
  {
    if "INSTA_FORCE_UPDATE" !in env && "INSTA_FORCE_UPDATE_SNAPSHOTS" in env
       && env["INSTA_FORCE_UPDATE_SNAPSHOTS"] == "1"
    then env["INSTA_FORCE_UPDATE" := "1"]
    else env
  }

  /// The settings read from an environment and a parsed configuration, the
  /// first invalid one in field order being the error.
  function Settings(env: Environment, cfg: C.Content): Result<ToolConfig, EnvError>
  {
    var forceUpdate := BoolField(env, cfg, "INSTA_FORCE_UPDATE", ["behavior", "force_update"]);
    var fullMatch := BoolField(env, cfg, "INSTA_REQUIRE_FULL_MATCH", ["behavior", "require_full_match"]);
    var forcePass := BoolField(env, cfg, "INSTA_FORCE_PASS", ["behavior", "force_pass"]);
    var output := OutputField(env, cfg);
    var update := UpdateField(env, cfg);
    var failFast := BoolField(env, cfg, "INSTA_GLOB_FAIL_FAST", ["behavior", "glob_fail_fast"]);
    var runner := RunnerField(env, cfg);
    var unreferenced := ParseUnreferenced(ConfigStr(cfg, ["test", "unreferenced"], "ignore"));
    if forceUpdate.Err? then Err(forceUpdate.error)
    else if fullMatch.Err? then Err(fullMatch.error)
    else if forcePass.Err? then Err(forcePass.error)
    else if output.Err? then Err(output.error)
    else if update.Err? then Err(update.error)
    else if failFast.Err? then Err(failFast.error)
    else if runner.Err? then Err(runner.error)
    else if unreferenced.None? then Err(Config("unreferenced"))
    else Ok(ToolConfig(
      forceUpdate.value, fullMatch.value, forcePass.value, output.value, update.value, failFast.value,
      runner.value, unreferenced.value,
      ConfigBool(cfg, ["test", "auto_review"], false),
      ConfigBool(cfg, ["test", "auto_accept_unseen"], false),
      ConfigBool(cfg, ["review", "include_hidden"], false),
      ConfigBool(cfg, ["review", "include_ignored"], false),
      ConfigBool(cfg, ["review", "warn_undiscovered"], true)))
  }

  /// `ToolConfig::from_workspace`.
  function FromWorkspace(fs: FileSystem, workspace: Paths.Path, env: Environment): Result<ToolConfig, EnvError>
  {
    match ConfigFrom(fs, ConfigChoices(workspace))
    case Err(e) => Err(e)
    case Ok(cfg) => Settings(EffectiveEnv(env), cfg)
  }

  const Defaults: ToolConfig :=
    ToolConfig(false, false, false, Diff, Auto, false, AutoRunner, Ignore, false, false, false, false, true)

  /// With no variable set and no configuration file, every setting takes
  /// its default.
  lemma FromWorkspaceDefaults(workspace: Paths.Path)
    ensures FromWorkspace(map[], workspace, map[]) == Ok(Defaults)
  {
    ConfigFromChoices(map[], workspace);
    assert EffectiveEnv(map[]) == map[];
    ResolveEmpty(["behavior", "force_update"]);
    ResolveEmpty(["behavior", "require_full_match"]);
    ResolveEmpty(["behavior", "force_pass"]);
    ResolveEmpty(["behavior", "output"]);
    ResolveEmpty(["behavior", "update"]);
    ResolveEmpty(["behavior", "glob_fail_fast"]);
    ResolveEmpty(["test", "runner"]);
    ResolveEmpty(["test", "unreferenced"]);
    ResolveEmpty(["test", "auto_review"]);
    ResolveEmpty(["test", "auto_accept_unseen"]);
    ResolveEmpty(["review", "include_hidden"]);
    ResolveEmpty(["review", "include_ignored"]);
    ResolveEmpty(["review", "warn_undiscovered"]);
  }

  /// An invalid update mode is reported against `INSTA_UPDATE` even when it
  /// comes from the configuration file.
  lemma InvalidConfiguredUpdate(workspace: Paths.Path)
    ensures var cfg := Nested("behavior", "update", C.String("sometimes"));
      FromWorkspace(map[workspace + ["insta.yaml"] := Parsed(cfg)], workspace, map[]) == Err(Env("INSTA_UPDATE"))
  {
    var cfg := Nested("behavior", "update", C.String("sometimes"));
    var fs := map[workspace + ["insta.yaml"] := Parsed(cfg)];
    ConfigSecondChoice(fs, workspace, cfg);
    assert EffectiveEnv(map[]) == map[];
    ResolveNested("behavior", "update", C.String("sometimes"), ["behavior", "force_update"]);
    ResolveNested("behavior", "update", C.String("sometimes"), ["behavior", "require_full_match"]);
    ResolveNested("behavior", "update", C.String("sometimes"), ["behavior", "force_pass"]);
    ResolveNested("behavior", "update", C.String("sometimes"), ["behavior", "output"]);
    ResolveNested("behavior", "update", C.String("sometimes"), ["behavior", "update"]);
    assert C.AsStr(C.String("sometimes")) == Some("sometimes");
    assert ParseUpdate("sometimes") == None;
    SettingsStopsAtUpdate(map[], cfg);
  }

  /// The settings before the update mode being valid, an invalid update
  /// mode is the error.
  lemma SettingsStopsAtUpdate(env: Environment, cfg: C.Content)
    requires BoolField(env, cfg, "INSTA_FORCE_UPDATE", ["behavior", "force_update"]).Ok?
    requires BoolField(env, cfg, "INSTA_REQUIRE_FULL_MATCH", ["behavior", "require_full_match"]).Ok?
    requires BoolField(env, cfg, "INSTA_FORCE_PASS", ["behavior", "force_pass"]).Ok?
    requires OutputField(env, cfg).Ok? && UpdateField(env, cfg).Err?
    ensures Settings(env, cfg) == Err(UpdateField(env, cfg).error)
  {
  }

  lemma ConfigSecondChoice(fs: FileSystem, workspace: Paths.Path, cfg: C.Content)
    requires fs == map[workspace + ["insta.yaml"] := Parsed(cfg)]
    ensures ConfigFrom(fs, ConfigChoices(workspace)) == Ok(cfg)
  {
    var cs := ConfigChoices(workspace);
    assert cs[0] !in fs by {
      assert |cs[0]| != |workspace + ["insta.yaml"]|;
    }
    assert cs[1..][0] == cs[1];
  }

  /// `snapshot_update_behavior`: what to do with a mismatching snapshot.
  function UpdateBehavior(u: SnapshotUpdate, isCi: bool, unseen: bool): (r: SnapshotUpdateBehavior)
    ensures r == NoUpdate <==> u == No || (u == Auto && isCi)
    ensures r == InPlace <==> u == Always || (u == Unseen && !unseen)
  {
    match u
    case Always => InPlace
    case Auto => if isCi then NoUpdate else NewFile
    case Unseen => if unseen then NewFile else InPlace
    case New => NewFile
    case No => NoUpdate
  }

  // ---------------------------------------------------------------------
  // The memoising caches of `get_cargo_workspace` and `get_tool_config`
  // (the workspace cache of src/env.rs is the same code).

  /// A cache lookup: a present key gives its stored value and leaves the
  /// cache alone, an absent one stores and gives the freshly computed one.
  function Memo<T>(cache: map<string, T>, key: string, computed: T): (T, map<string, T>)
  {
    if key in cache then (cache[key], cache) else (computed, cache[key := computed])
  }

  /// Once a key is cached every later lookup gives the first value and
  /// changes nothing, whatever it would compute.
  lemma {:induction false} MemoStable<T>(cache: map<string, T>, key: string, first: T, later: T)
    ensures var (v1, c1) := Memo(cache, key, first);
      Memo(c1, key, later) == (v1, c1)
      && (key !in cache ==> v1 == first)
      && forall k :: k in cache ==> k in c1 && c1[k] == cache[k]
  {
  }

  /// The workspace root for a manifest directory before caching:
  /// `INSTA_WORKSPACE_ROOT` as given, else what `cargo metadata` reports.
  function WorkspaceRoot(env: Environment, metadataRoot: Paths.Path): Paths.Path
  {
    if "INSTA_WORKSPACE_ROOT" in env then PathOf(env["INSTA_WORKSPACE_ROOT"]) else metadataRoot
  }

  /// A path given as text: its components between '/'.
  function PathOf(s: string): Paths.Path
  {
    Strs.Split(s, '/')
  }

  class Caches {
    var workspaces: map<string, Paths.Path>
    var toolConfigs: map<string, ToolConfig>

    constructor ()
      ensures workspaces == map[] && toolConfigs == map[]
    {
      workspaces := map[];
      toolConfigs := map[];
    }

    /// `get_cargo_workspace`; the output of `cargo metadata` is a
    /// parameter.
    method GetCargoWorkspace(manifestDir: string, env: Environment, metadataRoot: Paths.Path) returns (p: Paths.Path)
      modifies this
      ensures (p, workspaces) == Memo(old(workspaces), manifestDir, WorkspaceRoot(env, metadataRoot))
      ensures toolConfigs == old(toolConfigs)
    {
      if manifestDir in workspaces {
        p := workspaces[manifestDir];
      } else {
        p := WorkspaceRoot(env, metadataRoot);
        workspaces := workspaces[manifestDir := p];
      }
    }

    /// `get_tool_config`: a cached configuration, or one loaded from the
    /// manifest's workspace and cached; a configuration that does not load
    /// is an error and nothing is cached.
    method GetToolConfig(manifestDir: string, env: Environment, metadataRoot: Paths.Path, fs: FileSystem)
      returns (r: Result<ToolConfig, EnvError>)
      modifies this
      ensures manifestDir in old(toolConfigs) ==>
        r == Ok(old(toolConfigs)[manifestDir]) && toolConfigs == old(toolConfigs) && workspaces == old(workspaces)
      ensures manifestDir !in old(toolConfigs) ==>
        var (ws, cache) := Memo(old(workspaces), manifestDir, WorkspaceRoot(env, metadataRoot));
        workspaces == cache && r == FromWorkspace(fs, ws, env)
        && toolConfigs == if r.Ok? then old(toolConfigs)[manifestDir := r.value] else old(toolConfigs)
    {
      if manifestDir in toolConfigs {
        r := Ok(toolConfigs[manifestDir]);
      } else {
        var ws := GetCargoWorkspace(manifestDir, env, metadataRoot);
        r := FromWorkspace(fs, ws, env);
        if r.Ok? {
          toolConfigs := toolConfigs[manifestDir := r.value];
        }
      }
    }
  }
}
