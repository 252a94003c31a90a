// The older generation's environment switches (src/env.rs): each setting
// is read from its environment variable alone, with the same value tables
// as the current generation and no configuration file.  An invalid value,
// where the source panics, is an error naming the variable.  Its
// `get_cargo_workspace` cache is the current generation's (`Env.Caches`).
module LegacyEnv {
  import opened Wrappers
  import C = Contents
  import E = Env

  /// The table of `force_update_snapshots` and `force_pass`: unset, empty
  /// and "0" are false, "1" is true.
  function Flag(env: E.Environment, name: string): (r: Result<bool, E.EnvError>)
    ensures r.Err? <==> name in env && env[name] !in {"", "0", "1"}
    ensures r.Err? ==> r.error == E.Env(name)
    ensures r.Ok? ==> (r.value <==> name in env && env[name] == "1")
  {
    if name !in env || env[name] == "" || env[name] == "0" then Ok(false)
    else if env[name] == "1" then Ok(true)
    else Err(E.Env(name))
  }

  /// `force_update_snapshots`
  function ForceUpdateSnapshots(env: E.Environment): Result<bool, E.EnvError>
  {
    Flag(env, "INSTA_FORCE_UPDATE_SNAPSHOTS")
  }

  /// `force_pass`
  function ForcePass(env: E.Environment): Result<bool, E.EnvError>
  {
    Flag(env, "INSTA_FORCE_PASS")
  }

  /// Without a configuration file a boolean setting of the current
  /// generation reads its variable exactly as this table does.
  lemma {:induction false} FlagAgrees(env: E.Environment, name: string, path: seq<string>)
    requires path != []
    ensures Flag(env, name) == E.BoolField(env, C.Map([]), name, path)
  {
    E.ResolveEmpty(path);
  }

  /// `get_output_behavior`: unset, empty and "diff" give `Diff`.
  function OutputBehavior(env: E.Environment): (r: Result<E.OutputBehavior, E.EnvError>)
    ensures r.Err? <==> "INSTA_OUTPUT" in env && env["INSTA_OUTPUT"] !in {"", "diff", "summary", "minimal", "none"}
    ensures r.Ok? && "INSTA_OUTPUT" in env && env["INSTA_OUTPUT"] != "" ==> E.OutputName(r.value) == env["INSTA_OUTPUT"]
  {
    var v := if "INSTA_OUTPUT" in env then env["INSTA_OUTPUT"] else "";
    if v == "" || v == "diff" then Ok(E.Diff)
    else if v == "summary" then Ok(E.Summary)
    else if v == "minimal" then Ok(E.Minimal)
    else if v == "none" then Ok(E.Nothing)
    else Err(E.Env("INSTA_OUTPUT"))
  }

  /// The current generation reads `INSTA_OUTPUT` the same way when no
  /// configuration file sets `behavior.output`.
  lemma {:induction false} OutputAgrees(env: E.Environment)
    ensures OutputBehavior(env) == E.OutputField(env, C.Map([]))
  {
    E.ResolveEmpty(["behavior", "output"]);
  }

  /// `get_snapshot_update_behavior(unseen)`: the `INSTA_UPDATE` table.
  function SnapshotUpdateBehavior(env: E.Environment, isCi: bool, unseen: bool): (r: Result<E.SnapshotUpdateBehavior, E.EnvError>)
    ensures r.Err? <==> "INSTA_UPDATE" in env && env["INSTA_UPDATE"] !in {"", "auto", "always", "1", "new", "unseen", "no"}
  {
    var v := if "INSTA_UPDATE" in env then env["INSTA_UPDATE"] else "";
    if v == "" || v == "auto" then Ok(if isCi then E.NoUpdate else E.NewFile)
    else if v == "always" || v == "1" then Ok(E.InPlace)
    else if v == "new" then Ok(E.NewFile)
    else if v == "unseen" then Ok(if unseen then E.NewFile else E.InPlace)
    else if v == "no" then Ok(E.NoUpdate)
    else Err(E.Env("INSTA_UPDATE"))
  }

  /// The older table is the current `INSTA_UPDATE` setting followed by
  /// `snapshot_update_behavior`, when no configuration file is involved.
  lemma {:induction false} UpdateAgrees(env: E.Environment, isCi: bool, unseen: bool)
    ensures SnapshotUpdateBehavior(env, isCi, unseen)
      == match E.UpdateField(env, C.Map([]))
         case Ok(u) => Ok(E.UpdateBehavior(u, isCi, unseen))
         case Err(e) => Err(e)
  {
    E.ResolveEmpty(["behavior", "update"]);
  }
}
