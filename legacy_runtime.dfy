// The older generation's assertion runtime (src/runtime.rs): snapshot names
// generated from the test thread's name, the snapshot file path, reading
// an inline literal back, the dedent helpers and the decision
// `assert_snapshot` takes after comparing.  Printing, file I/O and the
// workspace lookup are parameters or left out.
module LegacyRuntime {
  import opened Wrappers
  import opened Strs
  import Paths
  import E = Env
  import LE = LegacyEnv
  import R = Runtime
  import LS = LegacySnapshot
  import LI = LegacyInline
  import S = Snapshot

  // ---------------------------------------------------------------------
  // Environment tables

  /// `update_snapshot_behavior`: the `INSTA_UPDATE` table of this
  /// generation, which has no `unseen` value.
  function UpdateSnapshotBehavior(env: E.Environment, isCi: bool): (r: Result<E.SnapshotUpdateBehavior, E.EnvError>)
    ensures r.Err? <==> "INSTA_UPDATE" in env && env["INSTA_UPDATE"] !in {"", "auto", "always", "1", "new", "no"}
    ensures r.Err? ==> r.error == E.Env("INSTA_UPDATE")
  {
    var v := if "INSTA_UPDATE" in env then env["INSTA_UPDATE"] else "";
    if v == "" || v == "auto" then Ok(if isCi then E.NoUpdate else E.NewFile)
    else if v == "always" || v == "1" then Ok(E.InPlace)
    else if v == "new" then Ok(E.NewFile)
    else if v == "no" then Ok(E.NoUpdate)
    else Err(E.Env("INSTA_UPDATE"))
  }

  /// The runtime's table is the one of `get_snapshot_update_behavior`
  /// except that `unseen` is rejected, whatever the `unseen` flag.
  lemma {:induction false} UpdateTableAgrees(env: E.Environment, isCi: bool, unseen: bool)
    ensures "INSTA_UPDATE" in env && env["INSTA_UPDATE"] == "unseen"
      ==> UpdateSnapshotBehavior(env, isCi).Err? && LE.SnapshotUpdateBehavior(env, isCi, unseen).Ok?
    ensures !("INSTA_UPDATE" in env && env["INSTA_UPDATE"] == "unseen")
      ==> UpdateSnapshotBehavior(env, isCi) == LE.SnapshotUpdateBehavior(env, isCi, unseen)
  {
  }

  /// `should_fail_in_tests`: unset, empty and "0" fail, "1" does not.
  function ShouldFailInTests(env: E.Environment): (r: Result<bool, E.EnvError>)
  {
    var v := if "INSTA_FORCE_PASS" in env then env["INSTA_FORCE_PASS"] else "";
    if v == "" || v == "0" then Ok(true)
    else if v == "1" then Ok(false)
    else Err(E.Env("INSTA_FORCE_PASS"))
  }

  /// A test fails exactly when `force_pass` is off, and both reject the
  /// same values.
  lemma {:induction false} ShouldFailIsNotForcePass(env: E.Environment)
    ensures ShouldFailInTests(env) == match LE.ForcePass(env)
      case Ok(b) => Ok(!b)
      case Err(e) => Err(e)
  {
  }

  // ---------------------------------------------------------------------
  // Names generated from the test thread

  /// The counter key: the module path and the last segment of the thread
  /// name, before `test_` is stripped.
  function ThreadKey(modulePath: string, name: string): string
  {
    modulePath + "::" + name
  }

  /// The numbering step on `TEST_NAME_COUNTERS` for a key and the name
  /// with `test_` stripped: the new name and the new counters.
  function Numbered(counters: map<string, nat>, key: string, name: string): (string, map<string, nat>)
  {
    var idx := R.Count(counters, key) + 1;
    (R.NumberedName(name, idx), counters[key := idx])
  }

  /// `generate_snapshot_name_for_thread` for a named thread.
  function Generate(counters: map<string, nat>, threadName: string, modulePath: string): (string, map<string, nat>)
  {
    var name := R.LastSegment(threadName);
    Numbered(counters, ThreadKey(modulePath, name), R.StripTestPrefix(name).0)
  }

  /// `n` numbering steps on one key.
  function NumberedRun(counters: map<string, nat>, key: string, name: string, n: nat)
    : (seq<string>, map<string, nat>)
  {
    if n == 0 then ([], counters)
    else
      var (xs, before) := NumberedRun(counters, key, name, n - 1);
      var (x, after) := Numbered(before, key, name);
      (xs + [x], after)
  }

  /// `n` assertions in the same test, one after the other.
  function GenerateRun(counters: map<string, nat>, threadName: string, modulePath: string, n: nat)
    : (seq<string>, map<string, nat>)
  {
    var name := R.LastSegment(threadName);
    NumberedRun(counters, ThreadKey(modulePath, name), R.StripTestPrefix(name).0, n)
  }

  /// After `n` steps on a key its counter has grown by `n`, and no other
  /// counter has changed.
  lemma {:induction false} NumberedRunCounters(counters: map<string, nat>, key: string, name: string, n: nat)
    ensures |NumberedRun(counters, key, name, n).0| == n
    ensures NumberedRun(counters, key, name, n).1
      == if n == 0 then counters else counters[key := R.Count(counters, key) + n]
  {
    if n > 1 {
      NumberedRunCounters(counters, key, name, n - 1);
      var c := R.Count(counters, key);
      assert counters[key := c + n - 1][key := c + n] == counters[key := c + n];
    }
  }

  /// The names `n` steps give from a counter at `c`: one past it, and on.
  function RunNames(name: string, c: nat, n: nat): (r: seq<string>)
  {
    seq(n, k requires 0 <= k < n => R.NumberedName(name, c + k + 1))
  }

  lemma RunNamesSnoc(name: string, c: nat, n: nat)
    requires n > 0
    ensures RunNames(name, c, n) == RunNames(name, c, n - 1) + [R.NumberedName(name, c + n)]
  {
    assert RunNames(name, c, n)[..n - 1] == RunNames(name, c, n - 1);
  }

  /// `n` steps on a key give exactly the run of names from its counter.
  lemma {:induction false} NumberedRunIsNames(counters: map<string, nat>, key: string, name: string, n: nat)
    ensures NumberedRun(counters, key, name, n).0 == RunNames(name, R.Count(counters, key), n)
  {
    if n > 0 {
      var c := R.Count(counters, key);
      var before := NumberedRun(counters, key, name, n - 1).1;
      assert NumberedRun(counters, key, name, n - 1).0 == RunNames(name, c, n - 1) by {
        NumberedRunIsNames(counters, key, name, n - 1);
      }
      assert R.Count(before, key) == c + n - 1 by {
        NumberedRunCounters(counters, key, name, n - 1);
      }
      RunNamesSnoc(name, c, n);
    }
  }

  /// The k-th step on a key numbers the name one past the counter.
  lemma NumberedRunNumbers(counters: map<string, nat>, key: string, name: string, n: nat)
    ensures |NumberedRun(counters, key, name, n).0| == n
    ensures forall k :: 0 <= k < n ==>
      NumberedRun(counters, key, name, n).0[k] == R.NumberedName(name, R.Count(counters, key) + k + 1)
  {
    NumberedRunIsNames(counters, key, name, n);
  }

  /// The k-th assertion of a test gets the stripped name numbered one past
  /// the counter, so the first of a fresh key the plain name; the counter
  /// ends at the number of assertions made.
  lemma {:induction false} GenerateRunNumbers(counters: map<string, nat>, threadName: string, modulePath: string,
                                              n: nat)
    ensures var name := R.LastSegment(threadName);
      var key := ThreadKey(modulePath, name);
      var c := R.Count(counters, key);
      var (xs, last) := GenerateRun(counters, threadName, modulePath, n);
      |xs| == n
      && (forall k :: 0 <= k < n ==> xs[k] == R.NumberedName(R.StripTestPrefix(name).0, c + k + 1))
      && last == (if n == 0 then counters else counters[key := c + n])
  {
    var name := R.LastSegment(threadName);
    NumberedRunNumbers(counters, ThreadKey(modulePath, name), R.StripTestPrefix(name).0, n);
    NumberedRunCounters(counters, ThreadKey(modulePath, name), R.StripTestPrefix(name).0, n);
  }

  /// Two assertions of the same test get different names.
  lemma {:induction false} GenerateDistinct(counters: map<string, nat>, threadName: string, modulePath: string)
    ensures var (a, next) := Generate(counters, threadName, modulePath);
      a != Generate(next, threadName, modulePath).0
  {
    var name := R.LastSegment(threadName);
    var key := ThreadKey(modulePath, name);
    var stripped := R.StripTestPrefix(name).0;
    var c := R.Count(counters, key);
    var (a, next) := Numbered(counters, key, stripped);
    assert R.Count(next, key) == c + 1;
    if a == Numbered(next, key, stripped).0 {
      R.NumberedNameInjective(stripped, c + 1, c + 2);
    }
  }

  /// `test_foo` and `foo` in one module count under different keys, so
  /// the first assertion of each is named `foo`: both tests write the same
  /// snapshot file.
  lemma {:induction false} TwinsShareName(counters: map<string, nat>, prefix: string, x: string, modulePath: string)
    requires ':' !in x && !StartsWith(x, "test_")
    requires ThreadKey(modulePath, "test_" + x) !in counters && ThreadKey(modulePath, x) !in counters
    ensures var (a, next) := Generate(counters, prefix + "::" + ("test_" + x), modulePath);
      a == x && Generate(next, prefix + "::" + x, modulePath).0 == x
  {
    assert ':' !in "test_" + x;
    R.LastSegmentAfter(prefix, "test_" + x);
    R.LastSegmentAfter(prefix, x);
    assert StartsWith("test_" + x, "test_");
    assert ("test_" + x)[5..] == x;
    var next := Generate(counters, prefix + "::" + ("test_" + x), modulePath).1;
    assert |ThreadKey(modulePath, "test_" + x)| != |ThreadKey(modulePath, x)|;
    assert ThreadKey(modulePath, x) !in next;
  }

  /// `TEST_NAME_COUNTERS`, with `generate_snapshot_name_for_thread`.
  class NameCounters {
    var counters: map<string, nat>

    constructor()
      ensures counters == map[]
    {
      counters := map[];
    }

    /// `threadName` is the name of the current thread; an unnamed thread
    /// is the source's panic, `None`, and changes nothing.
    method GenerateSnapshotNameForThread(threadName: Option<string>, modulePath: string) returns (r: Option<string>)
      modifies this
      ensures threadName.None? ==> r.None? && counters == old(counters)
      ensures threadName.Some? ==> r.Some? && (r.value, counters) == Generate(old(counters), threadName.value, modulePath)
    {
      if threadName.None? {
        r := None;
      } else {
        var name := R.LastSegment(threadName.value);
        var key := ThreadKey(modulePath, name);
        var idx := R.Count(counters, key) + 1;
        var stripped := R.StripTestPrefix(name).0;
        r := Some(if idx == 1 then stripped else stripped + "-" + NatToString(idx));
        counters := counters[key := idx];
      }
    }
  }

  // ---------------------------------------------------------------------
  // Snapshot files

  /// `get_snapshot_filename`: `workspace/parent(base)/snapshots/module__name.snap`;
  /// `None` when `base` has no parent, where the source panics.
  function GetSnapshotFilename(moduleName: string, snapshotName: string, workspace: Paths.Path, base: Paths.Path)
    : (r: Option<Paths.Path>)
    ensures r.Some? <==> Paths.Parent(base).Some?
    ensures r.Some? ==> Paths.FileName(r.value) == Some(moduleName + "__" + snapshotName + ".snap")
    ensures r.Some? ==> (|r.value| >= 2 && r.value[..|r.value| - 2] == R.Push(workspace, Paths.Parent(base).value)
                         && r.value[|r.value| - 2] == "snapshots")
  {
    match Paths.Parent(base)
    case None => None
    case Some(dir) => Some(R.Push(workspace, dir) + ["snapshots", moduleName + "__" + snapshotName + ".snap"])
  }

  /// Loading the file back (`Snapshot::from_file`) recovers the module and
  /// snapshot names, when the module name has no `.` and no `__` and the
  /// snapshot name no `.`.
  lemma {:induction false} FilenameNames(moduleName: string, snapshotName: string, workspace: Paths.Path,
                                         base: Paths.Path)
    requires Paths.Parent(base).Some?
    requires forall j :: 0 <= j < |moduleName| ==> !At(moduleName + "_", j, "__")
    requires '.' !in moduleName && '.' !in snapshotName
    ensures var p := GetSnapshotFilename(moduleName, snapshotName, workspace, base);
      p.Some? && LS.FileNames(p.value) == Some((moduleName, Some(snapshotName)))
  {
    var dir := R.Push(workspace, Paths.Parent(base).value) + ["snapshots"];
    var name := moduleName + "__" + snapshotName + ".snap";
    assert moduleName + "__" + snapshotName + "." + "snap" == name;
    assert |name| >= 7;
    LS.FileNamesOfComponents(dir, moduleName, snapshotName, "snap");
    assert dir + [name] == R.Push(workspace, Paths.Parent(base).value) + ["snapshots", name];
  }

  // ---------------------------------------------------------------------
  // Inline literals

  /// The frozen value uses the older `⋮` format.
  predicate MarkedFormat(frozen: string)
  {
    var t := TrimStart(frozen);
    t != [] && t[0] == LI.Ellipsis
  }

  /// `get_inline_snapshot_value`: the `⋮` format is read line by line,
  /// anything else is only trimmed at the end.
  function InlineSnapshotValue(frozen: string): (r: string)
    ensures !MarkedFormat(frozen) ==> (r <= frozen && AllWhitespace(frozen[|r|..])
                                       && (r == [] || !IsWhitespace(r[|r| - 1])))
  {
    if MarkedFormat(frozen) then LI.LegacyInlineNormalized(frozen) else TrimEnd(frozen)
  }

  /// `get_inline_snapshot_value`, reading the `⋮` format with its loops.
  method GetInlineSnapshotValue(frozen: string) returns (r: string)
    ensures r == InlineSnapshotValue(frozen)
  {
    if MarkedFormat(frozen) {
      r := LI.LegacyInlineNormalize(frozen);
    } else {
      r := TrimEnd(frozen);
    }
  }

  /// A lone line break reads as the empty snapshot.
  lemma InlineValueOfNewline()
    ensures InlineSnapshotValue("\n") == ""
  {
    assert TrimStart("\n") == [];
    assert TrimEnd("\n") == [];
  }

  // ---------------------------------------------------------------------
  // Dedent helpers

  /// The leading-whitespace count of every line (the match of `^\s*`).
  function CountsOf(ls: seq<string>): (r: seq<nat>)
    ensures |r| == |ls|
    ensures forall k :: 0 <= k < |ls| ==> r[k] == |LeadingWhitespace(ls[k])|
  {
    if ls == [] then [] else [LS.CountLeadingSpaces(ls[0])] + CountsOf(ls[1..])
  }

  /// `Iterator::min` is the smallest element.
  lemma {:induction false} MinFromIsMin(acc: nat, ns: seq<nat>)
    ensures LS.MinFrom(acc, ns) <= acc
    ensures forall k :: 0 <= k < |ns| ==> LS.MinFrom(acc, ns) <= ns[k]
    ensures LS.MinFrom(acc, ns) == acc || LS.MinFrom(acc, ns) in ns
    decreases |ns|
  {
    if ns != [] {
      var next := if ns[0] < acc then ns[0] else acc;
      MinFromIsMin(next, ns[1..]);
      assert forall k :: 1 <= k < |ns| ==> ns[k] == ns[1..][k - 1];
    }
  }

  /// The fold of the counts of some lines is their smallest count.
  lemma {:induction false} MinOfCounts(xs: seq<string>)
    requires xs != []
    ensures var ns := CountsOf(xs);
      (forall k :: 0 <= k < |xs| ==> LS.MinFrom(ns[0], ns[1..]) <= |LeadingWhitespace(xs[k])|)
      && exists k :: 0 <= k < |xs| && LS.MinFrom(ns[0], ns[1..]) == |LeadingWhitespace(xs[k])|
  {
    var ns := CountsOf(xs);
    MinFromIsMin(ns[0], ns[1..]);
    assert forall k :: 1 <= k < |ns| ==> ns[k] == ns[1..][k - 1];
    var m := LS.MinFrom(ns[0], ns[1..]);
    if m != ns[0] {
      var j :| 0 <= j < |ns[1..]| && ns[1..][j] == m;
      assert ns[j + 1] == m;
    }
  }

  /// `min_indentation` over the lines of the text trimmed at the end: 0
  /// for at most one line; otherwise the smallest leading-whitespace count
  /// over the lines after the leading empty ones, where an empty line
  /// counts 0.
  function MinIndentationOfLines(lines: seq<string>): (r: nat)
    ensures |lines| <= 1 ==> r == 0
    ensures forall k :: 0 <= k < |LS.SkipEmpty(lines)| ==> r <= |LeadingWhitespace(LS.SkipEmpty(lines)[k])|
    ensures |lines| > 1 && LS.SkipEmpty(lines) != []
      ==> exists k :: 0 <= k < |LS.SkipEmpty(lines)| && r == |LeadingWhitespace(LS.SkipEmpty(lines)[k])|
  {
    if |lines| <= 1 then 0
    else
      var xs := LS.SkipEmpty(lines);
      if xs == [] then 0
      else
        MinOfCounts(xs);
        var ns := CountsOf(xs);
        LS.MinFrom(ns[0], ns[1..])
  }

  /// `min_indentation`
  function MinIndentation(snapshot: string): nat
  {
    MinIndentationOfLines(Lines(TrimEnd(snapshot)))
  }

  /// Every line with the same number of characters cut off its front.
  function Dedent(ls: seq<string>, n: nat): (r: seq<string>)
    requires forall k :: 0 <= k < |ls| ==> n <= |ls[k]|
    ensures |r| == |ls|
    ensures forall k :: 0 <= k < |ls| ==> ls[k] == ls[k][..n] + r[k]
  {
    if ls == [] then [] else [ls[0][n..]] + Dedent(ls[1..], n)
  }

  /// Every line is at least `n` long and starts with `n` whitespace
  /// characters.
  ghost predicate CutsWhitespace(xs: seq<string>, n: nat)
  {
    forall k :: 0 <= k < |xs| ==> n <= |xs[k]| && AllWhitespace(xs[k][..n])
  }

  /// A bound on the leading whitespace of every line bounds the lines, and
  /// the part it cuts off is whitespace.
  lemma {:induction false} CutIsWhitespace(xs: seq<string>, n: nat)
    requires forall k :: 0 <= k < |xs| ==> n <= |LeadingWhitespace(xs[k])|
    ensures CutsWhitespace(xs, n)
  {
    forall k | 0 <= k < |xs| ensures n <= |xs[k]| && AllWhitespace(xs[k][..n]) {
      var w := LeadingWhitespace(xs[k]);
      assert w <= xs[k];
      assert xs[k][..n] == w[..n];
    }
  }

  /// `without_indentation` over the lines of the text trimmed at the end:
  /// the slice `l[indentation..]` is never out of bounds, and what it cuts
  /// off is whitespace.
  function WithoutIndentationOfLines(lines: seq<string>): (r: string)
    ensures CutsWhitespace(LS.SkipEmpty(lines), MinIndentationOfLines(lines))
    ensures r == Join(Dedent(LS.SkipEmpty(lines), MinIndentationOfLines(lines)), "\n")
  {
    var xs := LS.SkipEmpty(lines);
    var n := MinIndentationOfLines(lines);
    CutIsWhitespace(xs, n);
    Join(Dedent(xs, n), "\n")
  }

  /// `without_indentation`
  function WithoutIndentation(snapshot: string): string
  {
    WithoutIndentationOfLines(Lines(TrimEnd(snapshot)))
  }

  /// With only non-empty lines the counts are those of the newer dedent.
  lemma {:induction false} CountsOfAllNonEmpty(ls: seq<string>)
    requires forall k :: 0 <= k < |ls| ==> ls[k] != []
    ensures LS.CountsOfNonEmpty(ls) == CountsOf(ls)
  {
    if ls != [] {
      assert forall k :: 0 <= k < |ls[1..]| ==> ls[1..][k] == ls[k + 1];
      CountsOfAllNonEmpty(ls[1..]);
    }
  }

  /// Leading empty lines contribute no count.
  lemma {:induction false} CountsSkipEmpty(ls: seq<string>)
    requires forall k :: 0 <= k < |LS.SkipEmpty(ls)| ==> LS.SkipEmpty(ls)[k] != []
    ensures LS.CountsOfNonEmpty(ls) == CountsOf(LS.SkipEmpty(ls))
    decreases |ls|
  {
    if ls != [] && ls[0] == [] {
      assert LS.SkipEmpty(ls) == LS.SkipEmpty(ls[1..]);
      CountsSkipEmpty(ls[1..]);
    } else {
      assert LS.SkipEmpty(ls) == ls;
      CountsOfAllNonEmpty(ls);
    }
  }

  /// The older dedent's minimum, over the lines.
  function MinIndentationCountOfLines(lines: seq<string>): nat
  {
    if |lines| <= 1 then 0
    else
      var ns := LS.CountsOfNonEmpty(lines);
      if ns == [] then 0 else LS.MinFrom(ns[0], ns[1..])
  }

  /// Without empty lines after the leading ones, both minima agree.
  lemma {:induction false} MinimaAgree(lines: seq<string>)
    requires forall k :: 0 <= k < |LS.SkipEmpty(lines)| ==> LS.SkipEmpty(lines)[k] != []
    ensures MinIndentationOfLines(lines) == MinIndentationCountOfLines(lines)
  {
    CountsSkipEmpty(lines);
  }

  /// The two dedents agree on lines that are long enough.
  lemma {:induction false} DedentIsDropEach(xs: seq<string>, n: nat)
    requires forall k :: 0 <= k < |xs| ==> n <= |xs[k]|
    ensures Dedent(xs, n) == S.DropEach(xs, n)
  {
    var ys := Dedent(xs, n);
    var zs := S.DropEach(xs, n);
    forall k | 0 <= k < |xs| ensures ys[k] == zs[k] {
      assert xs[k] == xs[k][..n] + ys[k];
    }
  }

  /// Without empty lines after the leading ones, the two dedents of the
  /// same lines agree.
  lemma {:induction false} DedentsAgree(lines: seq<string>)
    requires forall k :: 0 <= k < |LS.SkipEmpty(lines)| ==> LS.SkipEmpty(lines)[k] != []
    ensures MinIndentationOfLines(lines) == MinIndentationCountOfLines(lines)
    ensures WithoutIndentationOfLines(lines)
      == Join(S.DropEach(LS.SkipEmpty(lines), MinIndentationCountOfLines(lines)), "\n")
  {
    MinimaAgree(lines);
    DedentIsDropEach(LS.SkipEmpty(lines), MinIndentationOfLines(lines));
  }

  /// The older dedent's minimum is the one over the lines.
  lemma {:induction false} MinIndentationCountLines(snapshot: string)
    ensures LS.MinIndentationCount(snapshot) == MinIndentationCountOfLines(Lines(TrimEnd(snapshot)))
  {
  }

  /// When no line after the leading empty ones is empty, the dedent here
  /// is `normalize_inline_snapshot` of src/snapshot.rs.
  lemma {:induction false} WithoutIndentationAgrees(snapshot: string)
    requires forall k :: 0 <= k < |LS.SkipEmpty(Lines(TrimEnd(snapshot)))| ==>
      LS.SkipEmpty(Lines(TrimEnd(snapshot)))[k] != []
    ensures MinIndentation(snapshot) == LS.MinIndentationCount(snapshot)
    ensures WithoutIndentation(snapshot) == LS.NormalizeInlineSnapshot(snapshot)
  {
    MinIndentationCountLines(snapshot);
    DedentsAgree(Lines(TrimEnd(snapshot)));
  }

  /// The block form of an inline literal, "\n", the indented lines, "\n"
  /// and the closing indentation, read as the text and its lines.
  lemma {:induction false} BlockLines(xs: seq<string>, indentation: string)
    requires |xs| >= 2
    requires forall k :: 0 <= k < |xs| ==> '\n' !in xs[k] && '\r' !in xs[k]
    requires xs[0] != [] && !IsWhitespace(xs[0][0])
    requires xs[|xs| - 1] != [] && !IsWhitespace(xs[|xs| - 1][|xs[|xs| - 1]| - 1])
    requires AllWhitespace(indentation) && '\n' !in indentation && '\r' !in indentation
    ensures var block := "\n" + Join(S.Indented(xs, indentation), "\n");
      Lines(TrimEnd(block + ("\n" + indentation))) == [""] + S.Indented(xs, indentation)
      && LS.SkipEmpty([""] + S.Indented(xs, indentation)) == S.Indented(xs, indentation)
      && |S.MinIndentation(block + ("\n" + indentation))| == |indentation|
      && AllWhitespace("\n" + indentation)
  {
    assert AllWhitespace("\n" + indentation) by {
      assert forall i :: 1 <= i < |"\n" + indentation| ==> ("\n" + indentation)[i] == indentation[i - 1];
    }
    S.MinIndentationOfBlock(xs, indentation);
    var ys := S.Indented(xs, indentation);
    assert ([""] + ys)[1..] == ys;
  }

  /// The block form of an inline literal loses exactly its indentation,
  /// when none of its lines is empty.
  lemma {:induction false} WithoutIndentationOfBlock(xs: seq<string>, indentation: string)
    requires |xs| >= 2
    requires forall k :: 0 <= k < |xs| ==> xs[k] != [] && '\n' !in xs[k] && '\r' !in xs[k]
    requires !IsWhitespace(xs[0][0]) && !IsWhitespace(xs[|xs| - 1][|xs[|xs| - 1]| - 1])
    requires AllWhitespace(indentation) && '\n' !in indentation && '\r' !in indentation
    ensures WithoutIndentation("\n" + Join(S.Indented(xs, indentation), "\n") + ("\n" + indentation))
      == Join(xs, "\n")
  {
    var s := "\n" + Join(S.Indented(xs, indentation), "\n") + ("\n" + indentation);
    BlockLines(xs, indentation);
    LS.NormalizeBlock(xs, indentation);
    var ys := S.Indented(xs, indentation);
    assert forall k :: 0 <= k < |ys| ==> ys[k] != [];
    NonEmptyLinesOfText(s, ys);
  }

  lemma {:induction false} NonEmptyLinesOfText(s: string, ys: seq<string>)
    requires Lines(TrimEnd(s)) == [""] + ys && LS.SkipEmpty([""] + ys) == ys
    requires forall k :: 0 <= k < |ys| ==> ys[k] != []
    ensures WithoutIndentation(s) == LS.NormalizeInlineSnapshot(s)
  {
    WithoutIndentationAgrees(s);
  }

  /// An empty line among the lines after the leading empty ones makes the
  /// minimum 0, and then nothing is cut off.
  lemma {:induction false} EmptyLineMinimum(lines: seq<string>, e: nat)
    requires |lines| > 1 && e < |LS.SkipEmpty(lines)| && LS.SkipEmpty(lines)[e] == []
    ensures MinIndentationOfLines(lines) == 0
    ensures WithoutIndentationOfLines(lines) == Join(LS.SkipEmpty(lines), "\n")
  {
    var ys := LS.SkipEmpty(lines);
    assert LeadingWhitespace(ys[e]) == [];
    var zs := Dedent(ys, 0);
    forall k | 0 <= k < |ys| ensures zs[k] == ys[k] {
      assert ys[k] == ys[k][..0] + zs[k];
    }
    assert zs == ys;
  }

  /// An empty line inside an indented block makes the minimum 0, so
  /// nothing is dedented, where the newer dedent removes the indentation.
  lemma {:induction false} EmptyLineKeepsIndentation(xs: seq<string>, indentation: string, e: nat)
    requires |xs| >= 2 && 0 < e < |xs| && xs[e] == []
    requires forall k :: 0 <= k < |xs| ==> '\n' !in xs[k] && '\r' !in xs[k]
    requires xs[0] != [] && !IsWhitespace(xs[0][0])
    requires xs[|xs| - 1] != [] && !IsWhitespace(xs[|xs| - 1][|xs[|xs| - 1]| - 1])
    requires AllWhitespace(indentation) && '\n' !in indentation && '\r' !in indentation
    ensures var s := "\n" + Join(S.Indented(xs, indentation), "\n") + ("\n" + indentation);
      MinIndentation(s) == 0 && LS.MinIndentationCount(s) == |indentation|
      && WithoutIndentation(s) == Join(S.Indented(xs, indentation), "\n")
  {
    var s := "\n" + Join(S.Indented(xs, indentation), "\n") + ("\n" + indentation);
    BlockLines(xs, indentation);
    var ys := S.Indented(xs, indentation);
    assert ys[e] == [];
    EmptyLineOfText(s, ys, e, |indentation|);
  }

  lemma {:induction false} EmptyLineOfText(s: string, ys: seq<string>, e: nat, n: nat)
    requires Lines(TrimEnd(s)) == [""] + ys && LS.SkipEmpty([""] + ys) == ys
    requires |S.MinIndentation(s)| == n && e < |ys| && ys[e] == []
    ensures MinIndentation(s) == 0 && LS.MinIndentationCount(s) == n
    ensures WithoutIndentation(s) == Join(ys, "\n")
  {
    EmptyLineMinimum([""] + ys, e);
  }

  // ---------------------------------------------------------------------
  // The assertion

  /// What the assertion compares against: a named snapshot's stored
  /// contents (`None` when the file does not exist), or the literal of an
  /// inline one.
  datatype ReferenceValue = Named(stored: Option<string>) | Inline(literal: string)

  function OldContents(refval: ReferenceValue): Option<string>
  {
    match refval
    case Named(stored) => stored
    case Inline(literal) => Some(InlineSnapshotValue(literal))
  }

  /// `assert_snapshot` after the names are known: an early pass when the
  /// old and new contents agree after `trim_end`; otherwise the write
  /// `INSTA_UPDATE` asks for, and a failure unless the snapshot file was
  /// overwritten in place or `INSTA_FORCE_PASS` is set.  A panic on an
  /// invalid variable is an error naming it.
  function AssertSnapshot(env: E.Environment, isCi: bool, refval: ReferenceValue, current: string)
    : (r: Result<R.Outcome, E.EnvError>)
    ensures OldContents(refval).Some? && TrimEnd(OldContents(refval).value) == TrimEnd(current)
      ==> r == Ok(R.Outcome(true, None, false))
    ensures r.Ok? && !r.value.passed ==> r.value.action.Some?
    ensures r.Ok? && r.value.action == Some(R.SaveInPlace) ==> refval.Named? && !r.value.fails
    ensures r.Ok? && r.value.action == Some(R.WritePending) ==> refval.Inline?
    ensures r.Ok? && !r.value.passed ==>
      (r.value.fails <==> (UpdateSnapshotBehavior(env, isCi) != Ok(E.InPlace) || refval.Inline?)
                          && ShouldFailInTests(env) == Ok(true))
    ensures r.Err? ==> r.error in {E.Env("INSTA_UPDATE"), E.Env("INSTA_FORCE_PASS")}
  {
    var stored := OldContents(refval);
    if stored.Some? && TrimEnd(stored.value) == TrimEnd(current) then Ok(R.Outcome(true, None, false))
    else
      match UpdateSnapshotBehavior(env, isCi)
      case Err(e) => Err(e)
      case Ok(behavior) =>
        var named := refval.Named?;
        var action :=
          if behavior == E.InPlace then (if named then R.SaveInPlace else R.RefuseInlineInPlace)
          else if behavior == E.NewFile then (if named then R.SaveNew else R.WritePending)
          else R.NoWrite;
        if action == R.SaveInPlace then Ok(R.Outcome(false, Some(action), false))
        else
          match ShouldFailInTests(env)
          case Err(e) => Err(e)
          case Ok(fail) => Ok(R.Outcome(false, Some(action), fail))
  }

  /// An inline literal in the plain format passes when it agrees with the
  /// new value after `trim_end`, whatever the environment says.
  lemma {:induction false} InlineLiteralPasses(env: E.Environment, isCi: bool, literal: string, current: string)
    requires !MarkedFormat(literal) && TrimEnd(literal) == TrimEnd(current)
    ensures AssertSnapshot(env, isCi, Inline(literal), current) == Ok(R.Outcome(true, None, false))
  {
    TrimEndNone(TrimEnd(literal));
  }
}
