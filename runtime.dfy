// Snapshot naming, file layout, duplicate detection and the update decision
// of insta/src/runtime.rs.  The registries the source keeps in process-wide
// mutexes (name counters, name-clash flags, inline keys) and its
// thread-local stack of duplicate records are the fields of one `Session`.
module Runtime {
  import opened Wrappers
  import opened Strs
  import Paths
  import S = Snapshot
  import M = SnapshotMeta
  import E = Env
  import Cmp = Comparator

  /// The panics of the naming, layout and duplicate checks.
  datatype RuntimeError =
    | DoctestNeedsName
    | NameClash(name: string, modulePath: string)
    | InlineInLoop
    | DuplicateMismatch
    | NoParent
    | NoFileName

  /// `is_doctest`: rustdoc compiles doctests into `rust_out::main`.
  predicate IsDoctest(functionName: string)
  {
    StartsWith(functionName, "rust_out::main::_doctest")
  }

  // ---------------------------------------------------------------------
  // Names

  /// The last `::`-separated segment, what `rsplit("::").next()` yields.
  function LastSegment(s: string): (r: string)
    ensures EndsWith(s, r)
    ensures forall j :: 0 <= j <= |r| ==> !At(r, j, "::")
    ensures r == s || (|r| + 2 <= |s| && At(s, |s| - |r| - 2, "::"))
  {
    match RFind(s, "::")
    case None => s
    case Some(i) =>
      var r := s[i + 2..];
      assert forall j :: 0 <= j <= |r| && At(r, j, "::") ==> At(s, i + 2 + j, "::") by {
        forall j | 0 <= j <= |r| && At(r, j, "::")
          ensures At(s, i + 2 + j, "::")
        {
          assert s[i + 2 + j..i + 2 + j + 2] == r[j..j + 2];
        }
      }
      r
  }

  /// One leading `test_` removed, with a flag saying whether it was there.
  function StripTestPrefix(name: string): (r: (string, bool))
    ensures r.1 <==> StartsWith(name, "test_")
    ensures name == (if r.1 then "test_" else "") + r.0
  {
    if StartsWith(name, "test_") then (name[5..], true) else (name, false)
  }

  /// `add_suffix_to_snapshot_name`: `name@suffix`, where an empty suffix
  /// setting counts as none.
  function SuffixedName(name: string, suffix: string): string
  {
    if suffix == [] then name else name + "@" + suffix
  }

  /// A name without '@' and its suffix can be told apart again: they are
  /// what precedes and what follows the first '@'.
  lemma {:induction false} SuffixRecoverable(name: string, suffix: string)
    requires '@' !in name && suffix != []
    ensures var r := SuffixedName(name, suffix);
      var i := IndexOfChar(r, '@');
      i < |r| && r[..i] == name && r[i + 1..] == suffix
  {
    IndexOfCharAfter(name, '@', suffix);
    var r := SuffixedName(name, suffix);
    assert r == name + ['@'] + suffix;
  }

  /// `module_path.replace("::", "__")`
  function ModuleKey(modulePath: string): string
  {
    Replace(modulePath, "::", "__")
  }

  /// The key of the clash and counter registries.
  function NameKey(modulePath: string, name: string): string
  {
    ModuleKey(modulePath) + "::" + name
  }

  /// The name of the `idx`-th request for a key.
  function NumberedName(name: string, idx: nat): string
    requires idx >= 1
  {
    if idx == 1 then name else name + "-" + NatToString(idx)
  }

  /// Different counter values give different names.
  lemma {:induction false} NumberedNameInjective(name: string, i: nat, j: nat)
    requires i >= 1 && j >= 1
    requires NumberedName(name, i) == NumberedName(name, j)
    ensures i == j
  {
    if i > 1 && j > 1 {
      var p := name + "-";
      assert NumberedName(name, i) == p + NatToString(i);
      assert NumberedName(name, j) == p + NatToString(j);
      assert NatToString(i) == NumberedName(name, i)[|p|..];
      assert NatToString(j) == NumberedName(name, j)[|p|..];
      NatToStringInjective(i, j);
    }
  }

  /// `TEST_NAME_COUNTERS` and `TEST_NAME_CLASH_DETECTION` as values.
  datatype NameRegistry = NameRegistry(counters: map<string, nat>, clashes: map<string, bool>)

  /// The name a function's snapshot gets before numbering.
  function BaseName(functionName: string, suffix: string): string
  {
    SuffixedName(StripTestPrefix(LastSegment(functionName)).0, suffix)
  }

  /// Whether the function's own name carries the `test_` prefix.
  predicate Prefixed(functionName: string)
  {
    StartsWith(LastSegment(functionName), "test_")
  }

  function Count(counters: map<string, nat>, key: string): nat
  {
    if key in counters then counters[key] else 0
  }

  /// The registry part of `detect_snapshot_name` for a snapshot `name`
  /// under `key`: the clash check, then the counter unless duplicates are
  /// allowed.
  function Register(reg: NameRegistry, name: string, key: string, prefixed: bool, modulePath: string,
                    allowDuplicates: bool): (r: (Result<string, RuntimeError>, NameRegistry))
    ensures r.0.Err? <==> key in reg.clashes && reg.clashes[key] != prefixed
    ensures r.0.Err? ==> r.1 == reg
    ensures r.0.Ok? ==> (key in r.1.clashes && r.1.clashes[key] == prefixed
      && r.1.clashes == reg.clashes[key := prefixed])
    ensures allowDuplicates ==> r.1.counters == reg.counters && (r.0.Ok? ==> r.0.value == name)
    ensures !allowDuplicates && r.0.Ok? ==>
      r.1.counters == reg.counters[key := Count(reg.counters, key) + 1]
      && r.0.value == NumberedName(name, Count(reg.counters, key) + 1)
  {
    if key in reg.clashes && reg.clashes[key] != prefixed then (Err(NameClash(name, modulePath)), reg)
    else
      var clashes := if key in reg.clashes then reg.clashes else reg.clashes[key := prefixed];
      if allowDuplicates then (Ok(name), reg.(clashes := clashes))
      else
        var idx := Count(reg.counters, key) + 1;
        (Ok(NumberedName(name, idx)), NameRegistry(reg.counters[key := idx], clashes))
  }

  /// `detect_snapshot_name`: the stripped, suffixed name, numbered per
  /// module and name unless duplicates are allowed; a doctest without an
  /// explicit name and a `foo`/`test_foo` pair in one module are errors.
  function DetectName(reg: NameRegistry, functionName: string, modulePath: string,
                      inline: bool, suffix: string, allowDuplicates: bool): (r: (Result<string, RuntimeError>, NameRegistry))
    ensures IsDoctest(functionName) && !inline ==> r == (Err(DoctestNeedsName), reg)
  {
    if IsDoctest(functionName) && !inline then (Err(DoctestNeedsName), reg)
    else
      var name := BaseName(functionName, suffix);
      Register(reg, name, NameKey(modulePath, name), Prefixed(functionName), modulePath, allowDuplicates)
  }

  /// `n` registrations in a row of one snapshot, outside `allow_duplicates`.
  function RegisterRun(reg: NameRegistry, name: string, key: string, prefixed: bool, modulePath: string,
                       n: nat): (seq<Result<string, RuntimeError>>, NameRegistry)
  {
    if n == 0 then ([], reg)
    else
      var (rs, reg') := RegisterRun(reg, name, key, prefixed, modulePath, n - 1);
      var (r, reg'') := Register(reg', name, key, prefixed, modulePath, false);
      (rs + [r], reg'')
  }

  /// The `k`-th of repeated requests for the same snapshot is called
  /// `name` for k = 1 and `name-k` afterwards.
  lemma {:induction false} RegisterRunNumbers(reg: NameRegistry, name: string, key: string, prefixed: bool,
                                              modulePath: string, n: nat)
    requires key !in reg.counters && key !in reg.clashes
    ensures var (rs, reg') := RegisterRun(reg, name, key, prefixed, modulePath, n);
      |rs| == n && Count(reg'.counters, key) == n
      && (n > 0 ==> key in reg'.clashes && reg'.clashes[key] == prefixed)
      && forall k :: 0 <= k < n ==> rs[k] == Ok(NumberedName(name, k + 1))
  {
    if n > 0 {
      RegisterRunNumbers(reg, name, key, prefixed, modulePath, n - 1);
    }
  }

  /// `n` requests in a row from one test function, outside
  /// `allow_duplicates`.
  function DetectRun(reg: NameRegistry, functionName: string, modulePath: string,
                     inline: bool, suffix: string, n: nat): (seq<Result<string, RuntimeError>>, NameRegistry)
  {
    if n == 0 then ([], reg)
    else
      var (rs, reg') := DetectRun(reg, functionName, modulePath, inline, suffix, n - 1);
      var (r, reg'') := DetectName(reg', functionName, modulePath, inline, suffix, false);
      (rs + [r], reg'')
  }

  lemma {:induction false} DetectRunRegisters(reg: NameRegistry, functionName: string, modulePath: string,
                                              inline: bool, suffix: string, n: nat)
    requires !(IsDoctest(functionName) && !inline)
    ensures var name := BaseName(functionName, suffix);
      DetectRun(reg, functionName, modulePath, inline, suffix, n)
      == RegisterRun(reg, name, NameKey(modulePath, name), Prefixed(functionName), modulePath, n)
  {
    if n > 0 {
      DetectRunRegisters(reg, functionName, modulePath, inline, suffix, n - 1);
    }
  }

  /// A test function's `k`-th snapshot without an explicit name is called
  /// `name` for k = 1 and `name-k` afterwards.
  lemma {:induction false} DetectRunNumbers(reg: NameRegistry, functionName: string, modulePath: string,
                                            inline: bool, suffix: string, n: nat)
    requires !(IsDoctest(functionName) && !inline)
    requires NameKey(modulePath, BaseName(functionName, suffix)) !in reg.counters
    requires NameKey(modulePath, BaseName(functionName, suffix)) !in reg.clashes
    ensures var (rs, _) := DetectRun(reg, functionName, modulePath, inline, suffix, n);
      |rs| == n && forall k :: 0 <= k < n ==> rs[k] == Ok(NumberedName(BaseName(functionName, suffix), k + 1))
  {
    var name := BaseName(functionName, suffix);
    DetectRunRegisters(reg, functionName, modulePath, inline, suffix, n);
    RegisterRunNumbers(reg, name, NameKey(modulePath, name), Prefixed(functionName), modulePath, n);
  }

  /// Two successful requests in a row for the same snapshot never get the
  /// same name.
  lemma {:induction false} RegisterDistinct(reg: NameRegistry, name: string, key: string, prefixed: bool,
                                            modulePath: string)
    requires Register(reg, name, key, prefixed, modulePath, false).0.Ok?
    ensures var (r1, reg1) := Register(reg, name, key, prefixed, modulePath, false);
      var (r2, _) := Register(reg1, name, key, prefixed, modulePath, false);
      r2.Ok? && r2.value != r1.value
  {
    var (r1, reg1) := Register(reg, name, key, prefixed, modulePath, false);
    var (r2, _) := Register(reg1, name, key, prefixed, modulePath, false);
    if r2.value == r1.value {
      NumberedNameInjective(name, Count(reg.counters, key) + 1, Count(reg1.counters, key) + 1);
    }
  }

  /// `LastSegment` of `a::b` is `b` when `b` holds no ':'.
  lemma {:induction false} LastSegmentAfter(a: string, b: string)
    requires ':' !in b
    ensures LastSegment(a + "::" + b) == b
  {
    var s := a + "::" + b;
    assert At(s, |a|, "::");
    var r := RFind(s, "::");
    assert r.Some?;
    forall j | |a| < j <= |s|
      ensures !At(s, j, "::")
    {
      if j + 2 <= |s| {
        assert s[j + 1] == b[j + 1 - |a| - 2];
      }
    }
    assert s[|a| + 2..] == b;
  }

  /// A `test_`-prefixed function and its unprefixed twin in one module
  /// clash, whichever is named first.
  lemma {:induction false} PrefixedTwinsClash(reg: NameRegistry, first: string, second: string, modulePath: string,
                                              suffix: string, allowDuplicates: bool)
    requires !IsDoctest(first) && !IsDoctest(second)
    requires LastSegment(first) == "test_" + LastSegment(second) && !StartsWith(LastSegment(second), "test_")
    requires DetectName(reg, first, modulePath, false, suffix, allowDuplicates).0.Ok?
    ensures var (_, reg1) := DetectName(reg, first, modulePath, false, suffix, allowDuplicates);
      DetectName(reg1, second, modulePath, false, suffix, allowDuplicates).0.Err?
      && var (_, reg2) := DetectName(reg, second, modulePath, false, suffix, allowDuplicates);
      (DetectName(reg, second, modulePath, false, suffix, allowDuplicates).0.Ok? ==>
        DetectName(reg2, first, modulePath, false, suffix, allowDuplicates).0.Err?)
  {
    var a := LastSegment(first);
    var b := LastSegment(second);
    assert StripTestPrefix(a) == (b, true);
    assert BaseName(first, suffix) == BaseName(second, suffix);
  }

  lemma {:induction false} ClashExampleNames()
    ensures !IsDoctest("tests::test_foo") && BaseName("tests::test_foo", "") == "foo" && Prefixed("tests::test_foo")
    ensures !IsDoctest("tests::foo") && BaseName("tests::foo", "") == "foo" && !Prefixed("tests::foo")
  {
    LastSegmentAfter("tests", "test_foo");
    LastSegmentAfter("tests", "foo");
    assert "tests" + "::" + "test_foo" == "tests::test_foo";
    assert "tests" + "::" + "foo" == "tests::foo";
    assert StripTestPrefix("test_foo") == ("foo", true);
    assert !StartsWith("foo", "test_");
  }

  /// insta/tests/test_clash_detection.rs: `test_foo` then `foo` in one
  /// module.
  lemma {:induction false} ClashExample()
    ensures var reg := NameRegistry(map[], map[]);
      var (_, reg1) := DetectName(reg, "tests::test_foo", "tests", false, "", false);
      DetectName(reg1, "tests::foo", "tests", false, "", false).0 == Err(NameClash("foo", "tests"))
  {
    ClashExampleNames();
  }

  // ---------------------------------------------------------------------
  // File layout

  /// Each '/' and '\\' of a snapshot name becomes "__".
  function ReplaceSeparators(s: string): (r: string)
    ensures '/' !in r && '\\' !in r
    ensures ('/' !in s && '\\' !in s) ==> r == s
  {
    if s == [] then []
    else (if s[0] == '/' || s[0] == '\\' then "__" else [s[0]]) + ReplaceSeparators(s[1..])
  }

  /// `Path::join`: an absolute argument replaces the base.
  function Push(p: Paths.Path, q: Paths.Path): Paths.Path
  {
    if q != [] && q[0] == "" then q else p + q
  }

  /// The file name of a snapshot: an optional prefix (the module path, or
  /// for doctests the source file's name with '.' as '_'), the name with
  /// path separators replaced, and ".snap".
  function SnapshotFileName(modulePath: string, assertionFile: Paths.Path, snapshotName: string,
                            prepend: bool, isDoctest: bool): (r: Result<string, RuntimeError>)
    ensures r.Ok? ==> EndsWith(r.value, ReplaceSeparators(snapshotName) + ".snap")
    ensures r.Ok? && prepend && !isDoctest ==> r.value == ModuleKey(modulePath) + "__" + ReplaceSeparators(snapshotName) + ".snap"
    ensures r.Err? <==> prepend && isDoctest && Paths.FileName(assertionFile).None?
  {
    var tail := ReplaceSeparators(snapshotName) + ".snap";
    if !prepend then Ok(tail)
    else if !isDoctest then Ok(ModuleKey(modulePath) + "__" + tail)
    else
      match Paths.FileName(assertionFile)
      case None => Err(NoFileName)
      case Some(f) => Ok("doctest_" + Replace(f, ".", "_") + "__" + tail)
  }

  /// `get_snapshot_filename`: `workspace/parent(base)/snapshot_path/<file
  /// name>`.
  function SnapshotPath(workspace: Paths.Path, base: Paths.Path, snapshotPath: Paths.Path, modulePath: string,
                        assertionFile: Paths.Path, snapshotName: string, prepend: bool, isDoctest: bool): (r: Result<Paths.Path, RuntimeError>)
    ensures r.Ok? ==> (Paths.Parent(base).Some? && SnapshotFileName(modulePath, assertionFile, snapshotName, prepend, isDoctest).Ok?
      && r.value == Push(Push(workspace, Paths.Parent(base).value), snapshotPath)
                    + [SnapshotFileName(modulePath, assertionFile, snapshotName, prepend, isDoctest).value])
    ensures r.Err? ==> Paths.Parent(base).None? || SnapshotFileName(modulePath, assertionFile, snapshotName, prepend, isDoctest).Err?
  {
    match Paths.Parent(base)
    case None => Err(NoParent)
    case Some(dir) =>
      match SnapshotFileName(modulePath, assertionFile, snapshotName, prepend, isDoctest)
      case Err(e) => Err(e)
      case Ok(f) => Ok(Push(Push(workspace, dir), snapshotPath) + [f])
  }

  /// The last '.' in `a + ".snap"` is the one before "snap".
  lemma {:induction false} SnapDot(a: string)
    ensures LastIndexOfChar(a + ".snap", '.') == Some(|a|)
  {
    var s := a + ".snap";
    assert s[|a|] == '.';
    var r := LastIndexOfChar(s, '.');
    assert r.Some?;
    assert r.value >= |a|;
    assert r.value <= |a| by {
      assert s[|a| + 1..] == "snap";
    }
  }

  /// The stem of `a.snap` is `a`.
  lemma {:induction false} SnapStem(p: Paths.Path, a: string)
    requires |a| >= 1
    ensures Paths.FileStem(p + [a + ".snap"]) == Some(a)
  {
    var n := a + ".snap";
    var q := p + [n];
    assert q[|q| - 1] == n;
    assert n != "" && n != "..";
    SnapDot(a);
    assert Paths.ExtensionDot(n) == Some(|a|);
    assert n[..|a|] == a;
  }

  /// The last "__" of `k + "__" + name` is the one after `k` when `name`
  /// holds no "__" and does not start with '_'.
  lemma {:induction false} LastDoubleUnderscore(k: string, name: string)
    requires !Contains(name, "__") && (name == [] || name[0] != '_')
    ensures RFind(k + "__" + name, "__") == Some(|k|)
  {
    var s := k + "__" + name;
    assert At(s, |k|, "__");
    var r := RFind(s, "__");
    assert r.Some?;
    var i := r.value;
    assert i >= |k|;
    if i > |k| + 1 {
      var j := i - |k| - 2;
      assert s[i..i + 2] == name[j..j + 2];
      assert At(name, j, "__");
    }
  }

  /// The loader reads module and snapshot name back out of a file laid out
  /// with the module prefix, for names holding no '/', '\\' or "__" and not
  /// starting with '_'.
  lemma {:induction false} SnapshotPathNames(workspace: Paths.Path, base: Paths.Path, snapshotPath: Paths.Path,
                                             modulePath: string, snapshotName: string)
    requires Paths.Parent(base).Some?
    requires '/' !in snapshotName && '\\' !in snapshotName
    requires !Contains(snapshotName, "__") && (snapshotName == [] || snapshotName[0] != '_')
    ensures var r := SnapshotPath(workspace, base, snapshotPath, modulePath, base, snapshotName, true, false);
      r.Ok? && M.NamesOfPath(r.value) == Some((snapshotName, ModuleKey(modulePath)))
  {
    var k := ModuleKey(modulePath);
    var a := k + "__" + snapshotName;
    var dir := Push(Push(workspace, Paths.Parent(base).value), snapshotPath);
    var r := SnapshotPath(workspace, base, snapshotPath, modulePath, base, snapshotName, true, false);
    assert k + "__" + snapshotName + ".snap" == a + ".snap";
    assert r.value == dir + [a + ".snap"];
    SnapStem(dir, a);
    LastDoubleUnderscore(k, snapshotName);
    assert a[|k| + 2..] == snapshotName;
    assert a[..|k|] == k;
  }

  // ---------------------------------------------------------------------
  // Inline snapshots in loops

  /// The key `prevent_inline_duplicate` registers.
  function InlineKey(functionName: string, file: string, line: nat): string
  {
    functionName + "|" + file + "|" + NatToString(line)
  }

  /// Assertions of one function and file on different lines have different
  /// keys.
  lemma {:induction false} InlineKeyLines(functionName: string, file: string, a: nat, b: nat)
    requires InlineKey(functionName, file, a) == InlineKey(functionName, file, b)
    ensures a == b
  {
    var p := functionName + "|" + file + "|";
    assert InlineKey(functionName, file, a)[|p|..] == NatToString(a);
    assert InlineKey(functionName, file, b)[|p|..] == NatToString(b);
    NatToStringInjective(a, b);
  }

  /// One `prevent_inline_duplicate` call on the registered keys.
  function InlineStep(seen: set<string>, key: string): (r: Result<set<string>, RuntimeError>)
    ensures r.Err? <==> key in seen
    ensures r.Ok? ==> r.value == seen + {key}
  {
    if key in seen then Err(InlineInLoop) else Ok(seen + {key})
  }

  /// A sequence of calls, stopping at the first panic.
  function InlineRun(seen: set<string>, keys: seq<string>): Result<set<string>, RuntimeError>
    decreases |keys|
  {
    if keys == [] then Ok(seen)
    else
      match InlineStep(seen, keys[0])
      case Err(e) => Err(e)
      case Ok(s) => InlineRun(s, keys[1..])
  }

  predicate Distinct(keys: seq<string>)
  {
    forall i, j :: 0 <= i < j < |keys| ==> keys[i] != keys[j]
  }

  /// A run of inline assertions gets through exactly when no key repeats
  /// and none was registered before, and then registers all of them.
  lemma {:induction false} InlineRunSpec(seen: set<string>, keys: seq<string>)
    ensures InlineRun(seen, keys).Ok? <==> Distinct(keys) && forall i :: 0 <= i < |keys| ==> keys[i] !in seen
    ensures InlineRun(seen, keys).Ok? ==> InlineRun(seen, keys).value == seen + set k | k in keys
    decreases |keys|
  {
    if keys != [] {
      var rest := keys[1..];
      InlineRunSpec(seen + {keys[0]}, rest);
      assert forall i :: 0 <= i < |rest| ==> rest[i] == keys[i + 1];
      if keys[0] !in seen {
        if Distinct(keys) && forall i :: 0 <= i < |keys| ==> keys[i] !in seen {
          assert forall i :: 0 <= i < |rest| ==> rest[i] !in seen + {keys[0]};
        }
        if !Distinct(keys) {
          var i, j :| 0 <= i < j < |keys| && keys[i] == keys[j];
          if i > 0 {
            assert rest[i - 1] == rest[j - 1];
          } else {
            assert rest[j - 1] in seen + {keys[0]};
          }
        }
        assert (set k | k in keys) == {keys[0]} + set k | k in rest;
      }
    }
  }

  /// An inline assertion inside a loop fails on its second iteration.
  lemma {:induction false} InlineLoopFails(functionName: string, file: string, line: nat, n: nat)
    requires n >= 2
    ensures var key := InlineKey(functionName, file, line);
      InlineRun({}, seq(n, _ => key)).Err?
  {
    var key := InlineKey(functionName, file, line);
    var keys := seq(n, _ => key);
    InlineRunSpec({}, keys);
    assert keys[0] == keys[1];
  }

  // ---------------------------------------------------------------------
  // Duplicates inside `allow_duplicates`

  /// `record_snapshot_duplicate` on one block's records.
  function RecordDuplicate(results: map<string, M.Snapshot>, key: string, snapshot: M.Snapshot)
    : (r: Result<map<string, M.Snapshot>, RuntimeError>)
    ensures r.Err? <==> key in results && !S.ContentsEq(results[key].snapshot, snapshot.snapshot)
    ensures r.Ok? && key in results ==> r.value == results
    ensures r.Ok? && key !in results ==> r.value == results[key := snapshot]
  {
    if key in results then
      if S.ContentsEq(results[key].snapshot, snapshot.snapshot) then Ok(results) else Err(DuplicateMismatch)
    else Ok(results[key := snapshot])
  }

  /// Several visits of one assertion in a block.
  function RecordRun(results: map<string, M.Snapshot>, key: string, snapshots: seq<M.Snapshot>)
    : Result<map<string, M.Snapshot>, RuntimeError>
    decreases |snapshots|
  {
    if snapshots == [] then Ok(results)
    else
      match RecordDuplicate(results, key, snapshots[0])
      case Err(e) => Err(e)
      case Ok(rs) => RecordRun(rs, key, snapshots[1..])
  }

  /// The first visit is recorded, and every later visit must match that
  /// first one (not merely its predecessor).
  lemma {:induction false} RecordRunSpec(results: map<string, M.Snapshot>, key: string, snapshots: seq<M.Snapshot>)
    requires key !in results && snapshots != []
    ensures RecordRun(results, key, snapshots).Ok?
      <==> forall i :: 0 < i < |snapshots| ==> S.ContentsEq(snapshots[0].snapshot, snapshots[i].snapshot)
    ensures RecordRun(results, key, snapshots).Ok? ==> RecordRun(results, key, snapshots).value == results[key := snapshots[0]]
  {
    var rs := results[key := snapshots[0]];
    assert RecordRun(results, key, snapshots) == RecordRun(rs, key, snapshots[1..]);
    RecordRunStored(rs, key, snapshots[1..]);
    assert forall i :: 0 < i < |snapshots| ==> snapshots[i] == snapshots[1..][i - 1];
  }

  lemma {:induction false} RecordRunStored(results: map<string, M.Snapshot>, key: string, snapshots: seq<M.Snapshot>)
    requires key in results
    ensures RecordRun(results, key, snapshots).Ok?
      <==> forall i :: 0 <= i < |snapshots| ==> S.ContentsEq(results[key].snapshot, snapshots[i].snapshot)
    ensures RecordRun(results, key, snapshots).Ok? ==> RecordRun(results, key, snapshots).value == results
    decreases |snapshots|
  {
    if snapshots != [] {
      RecordRunStored(results, key, snapshots[1..]);
      assert forall i :: 0 < i < |snapshots| ==> snapshots[i] == snapshots[1..][i - 1];
    }
  }

  /// Repeating the same snapshot is accepted and changes nothing.
  lemma {:induction false} RecordSameTwice(results: map<string, M.Snapshot>, key: string, snapshot: M.Snapshot)
    ensures var r := RecordDuplicate(results, key, snapshot);
      r.Ok? ==> RecordDuplicate(r.value, key, snapshot) == r
  {
    S.ContentsEqSymmetric(snapshot.snapshot, snapshot.snapshot);
  }

  // ---------------------------------------------------------------------
  // `update_snapshot` and `finalize_assertion`

  /// What `update_snapshot` writes.
  datatype UpdateAction =
    | SaveInPlace          // the `.snap` file is (re)written
    | RefuseInlineInPlace  // inline snapshots cannot be updated in place
    | SaveNew              // a `.snap.new` file next to the snapshot
    | WarnDoctest          // inline snapshots in doctests are not written
    | WritePending         // an entry in the `.pending-snap` file
    | NoWrite

  /// The write `update_snapshot` performs for a behaviour. `named` says
  /// whether the assertion has a snapshot file (a named snapshot).
  function UpdateActionFor(behavior: E.SnapshotUpdateBehavior, named: bool, isDoctest: bool,
                           stored: Option<M.Snapshot>, current: M.Snapshot): (r: UpdateAction)
    ensures behavior == E.NoUpdate ==> r == NoWrite
    ensures r == SaveInPlace || r == SaveNew ==> named
    ensures r == WritePending ==> (!named && !isDoctest && behavior == E.NewFile
      && (stored.None? || !S.ContentsEq(stored.value.snapshot, current.snapshot)))
    ensures stored.Some? && S.ContentsEq(stored.value.snapshot, current.snapshot) ==> r != WritePending
  {
    match behavior
    case InPlace => if named then SaveInPlace else RefuseInlineInPlace
    case NewFile =>
      if named then SaveNew
      else if isDoctest then WarnDoctest
      else if stored.None? || !S.ContentsEq(stored.value.snapshot, current.snapshot) then WritePending
      else NoWrite
    case NoUpdate => NoWrite
  }

  /// What an assertion does: whether it passed, what it wrote, and whether
  /// it fails the test.
  datatype Outcome = Outcome(passed: bool, action: Option<UpdateAction>, fails: bool)

  /// `assert_snapshot` without printing: `fileExists` is whether the
  /// snapshot file is on disk; `stored` is the stored snapshot (for inline
  /// assertions, the literal in the source).
  function AssertOutcome(cfg: E.ToolConfig, isCi: bool, named: bool, fileExists: bool, isDoctest: bool,
                         stored: Option<M.Snapshot>, current: M.Snapshot): (r: Outcome)
    ensures r.passed ==> !r.fails && stored.Some?
    ensures r.passed && !cfg.forceUpdateSnapshots ==> r.action.None?
    ensures !r.passed ==> r.action.Some?
    ensures r.fails <==> (!r.passed && !cfg.forcePass
      && E.UpdateBehavior(cfg.snapshotUpdate, isCi, named && fileExists) != E.InPlace)
  {
    var pass := stored.Some? && Cmp.DefaultMatches(cfg, stored.value, current);
    var behavior := E.UpdateBehavior(cfg.snapshotUpdate, isCi, named && fileExists);
    var action := UpdateActionFor(behavior, named, isDoctest, stored, current);
    if pass then Outcome(true, if cfg.forceUpdateSnapshots then Some(action) else None, false)
    else Outcome(false, Some(action), !cfg.forcePass && behavior != E.InPlace)
  }

  /// Asserting exactly the stored snapshot passes, whatever the match rule.
  lemma {:induction false} SameSnapshotPasses(cfg: E.ToolConfig, isCi: bool, named: bool, fileExists: bool,
                                              isDoctest: bool, s: M.Snapshot)
    ensures AssertOutcome(cfg, isCi, named, fileExists, isDoctest, Some(s), s).passed
  {
    Cmp.IdenticalSnapshotsMatch(cfg, s);
  }

  /// With `INSTA_UPDATE=unseen`, a named snapshot that has no file yet is
  /// written in place and does not fail the test, while a mismatch with a
  /// stored file goes to a `.snap.new` file and fails.
  lemma {:induction false} UnseenWritesNewSnapshots(cfg: E.ToolConfig, isCi: bool, fileExists: bool,
                                                    stored: Option<M.Snapshot>, current: M.Snapshot)
    requires cfg.snapshotUpdate == E.Unseen && !cfg.forcePass && (!fileExists ==> stored.None?)
    ensures var r := AssertOutcome(cfg, isCi, true, fileExists, false, stored, current);
      (!fileExists ==> r == Outcome(false, Some(SaveInPlace), false))
      && (fileExists && !r.passed ==> r == Outcome(false, Some(SaveNew), true))
  {
  }

  /// The message after an in-place save, as written: it is chosen by the
  /// flag that the source names `unseen` but that holds when the file
  /// already exists.
  datatype SaveMessage = CreatedUnseen | Updated

  function InPlaceMessageAsWritten(fileExists: bool): SaveMessage
  {
    if fileExists then CreatedUnseen else Updated
  }

  /// Under `INSTA_UPDATE=unseen` every in-place save creates a file that
  /// did not exist, yet the message says "updated snapshot".
  lemma {:induction false} UnseenMessageInverted(cfg: E.ToolConfig, isCi: bool, fileExists: bool,
                                                 stored: Option<M.Snapshot>, current: M.Snapshot)
    requires cfg.snapshotUpdate == E.Unseen
    requires AssertOutcome(cfg, isCi, true, fileExists, false, stored, current).action == Some(SaveInPlace)
    ensures !fileExists && InPlaceMessageAsWritten(fileExists) == Updated
  {
  }

  /// The message evidently intended: "created previously unseen snapshot"
  /// exactly for a file that was not there before.
  function InPlaceMessage(fileExists: bool): (r: SaveMessage)
    ensures r == CreatedUnseen <==> !fileExists
  {
    if fileExists then Updated else CreatedUnseen
  }

  // ---------------------------------------------------------------------
  // The session's registries

  class Session {
    /// `TEST_NAME_COUNTERS`
    var counters: map<string, nat>
    /// `TEST_NAME_CLASH_DETECTION`
    var clashes: map<string, bool>
    /// `INLINE_DUPLICATES`
    var inlineSeen: set<string>
    /// `RECORDED_DUPLICATES`: one record per open `allow_duplicates` block.
    var recorded: seq<map<string, M.Snapshot>>

    constructor ()
      ensures counters == map[] && clashes == map[] && inlineSeen == {} && recorded == []
    {
      counters := map[];
      clashes := map[];
      inlineSeen := {};
      recorded := [];
    }

    /// `allow_duplicates`
    predicate AllowDuplicates()
      reads this
    {
      |recorded| > 0
    }

    /// `with_allow_duplicates`, entering the block.
    method EnterAllowDuplicates()
      modifies this
      ensures recorded == old(recorded) + [map[]]
      ensures counters == old(counters) && clashes == old(clashes) && inlineSeen == old(inlineSeen)
    {
      recorded := recorded + [map[]];
    }

    /// `with_allow_duplicates`, leaving the block it entered.
    method LeaveAllowDuplicates()
      requires |recorded| > 0
      modifies this
      ensures recorded == old(recorded)[..|old(recorded)| - 1]
      ensures counters == old(counters) && clashes == old(clashes) && inlineSeen == old(inlineSeen)
    {
      recorded := recorded[..|recorded| - 1];
    }

    /// `detect_snapshot_name`
    method DetectSnapshotName(functionName: string, modulePath: string, inline: bool, suffix: string)
      returns (r: Result<string, RuntimeError>)
      modifies this
      ensures (r, NameRegistry(counters, clashes))
        == DetectName(NameRegistry(old(counters), old(clashes)), functionName, modulePath, inline, suffix, old(AllowDuplicates()))
      ensures inlineSeen == old(inlineSeen) && recorded == old(recorded)
    {
      if IsDoctest(functionName) && !inline {
        return Err(DoctestNeedsName);
      }
      var (stripped, prefixed) := StripTestPrefix(LastSegment(functionName));
      var name := SuffixedName(stripped, suffix);
      var key := NameKey(modulePath, name);
      if key in clashes {
        if clashes[key] != prefixed {
          return Err(NameClash(name, modulePath));
        }
      } else {
        clashes := clashes[key := prefixed];
      }
      if AllowDuplicates() {
        return Ok(name);
      }
      var idx := Count(counters, key) + 1;
      counters := counters[key := idx];
      r := Ok(NumberedName(name, idx));
    }

    /// `prevent_inline_duplicate`
    method PreventInlineDuplicate(functionName: string, file: string, line: nat)
      returns (r: Result<(), RuntimeError>)
      modifies this
      ensures r.Err? <==> InlineKey(functionName, file, line) in old(inlineSeen)
      ensures inlineSeen == old(inlineSeen) + {InlineKey(functionName, file, line)}
      ensures counters == old(counters) && clashes == old(clashes) && recorded == old(recorded)
    {
      var key := InlineKey(functionName, file, line);
      if key in inlineSeen {
        r := Err(InlineInLoop);
      } else {
        inlineSeen := inlineSeen + {key};
        r := Ok(());
      }
    }

    /// `record_snapshot_duplicate` on the innermost block; outside any
    /// block the source does not call it and nothing changes.
    method RecordSnapshotDuplicate(key: string, snapshot: M.Snapshot)
      returns (r: Result<(), RuntimeError>)
      modifies this
      ensures old(recorded) == [] ==> r.Ok? && recorded == []
      ensures old(recorded) != [] ==>
        var top := RecordDuplicate(old(recorded)[|old(recorded)| - 1], key, snapshot);
        (r.Err? <==> top.Err?)
        && recorded == old(recorded)[..|old(recorded)| - 1] + [if top.Ok? then top.value else old(recorded)[|old(recorded)| - 1]]
      ensures counters == old(counters) && clashes == old(clashes) && inlineSeen == old(inlineSeen)
    {
      if recorded == [] {
        return Ok(());
      }
      var n := |recorded| - 1;
      var top := recorded[n];
      if key in top {
        if !S.ContentsEq(top[key].snapshot, snapshot.snapshot) {
          return Err(DuplicateMismatch);
        }
      } else {
        recorded := recorded[..n] + [top[key := snapshot]];
      }
      r := Ok(());
    }
  }
}
