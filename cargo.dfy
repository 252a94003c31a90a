// The older generation's discovery of snapshot containers and packages
// (cargo-insta/src/cargo.rs): how a walked file is classified, which
// directories are walked, and which packages of a workspace are selected.
// The walker itself, `cargo metadata` and `cargo locate-project` are not
// modelled: their results are inputs.
module Cargo {
  import opened Wrappers
  import opened Strs
  import Paths
  import Sorting

  /// A target of a package as `cargo metadata` describes it.
  datatype Target = Target(srcPath: Paths.Path, kind: set<string>)

  datatype Package = Package(name: string, version: string, id: string, manifestPath: Paths.Path, targets: seq<Target>)

  datatype Metadata = Metadata(packages: seq<Package>, workspaceMembers: seq<string>, workspaceRoot: string)

  /// What happens to one walked file: it is loaded as a container of
  /// the given kind, it is passed over, or the classification panics.
  datatype Found =
    | External(snapshotPath: Paths.Path, targetPath: Paths.Path)
    | Inline(snapshotPath: Paths.Path, targetPath: Paths.Path)
    | Passed
    | Panics

  const PENDING_SUFFIX := ".pending-snap"

  /// `is_hidden`: the file name starts with a dot (cargo-insta/src/walk.rs
  /// has the same function).
  function IsHidden(name: string): (r: bool)
    ensures r <==> |name| > 0 && name[0] == '.'
  {
    StartsWith(name, ".")
  }

  /// `fname.rsplit('.').nth(1).unwrap_or("")`: the component between the
  /// last two dots, or from the start of the name to the last dot.
  function SecondLastDotComponent(name: string): (r: string)
    ensures (exists i :: 0 <= i < |name| && name[i] == '.') ==> '.' !in r
    ensures (forall i :: 0 <= i < |name| ==> name[i] != '.') ==> r == ""
  {
    match LastIndexOfChar(name, '.')
    case None => ""
    case Some(i) =>
      var front := name[..i];
      match LastIndexOfChar(front, '.')
      case None => front
      case Some(j) => front[j + 1..]
  }

  /// The target of `.X.pending-snap` as written: `fname[1..len - 13]`,
  /// a slice that panics when the name is exactly `.pending-snap`.
  function PendingTargetAsWritten(name: string): (r: Option<string>)
    requires StartsWith(name, ".") && EndsWith(name, PENDING_SUFFIX)
    ensures r.None? <==> name == PENDING_SUFFIX
  {
    if 1 <= |name| - 13 then Some(name[1..|name| - 13]) else None
  }

  /// The target of `.X.pending-snap` where `X` is not empty; the bare name
  /// `.pending-snap` has no target and is passed over.
  function PendingTarget(name: string): (r: Option<string>)
    requires StartsWith(name, ".") && EndsWith(name, PENDING_SUFFIX)
    ensures r.None? <==> name == PENDING_SUFFIX
    ensures r.Some? ==> name == "." + r.value + PENDING_SUFFIX
  {
    PendingNameParts(name);
    if 1 <= |name| - 13 then Some(name[1..|name| - 13]) else None
  }

  lemma PendingNameParts(name: string)
    requires StartsWith(name, ".") && EndsWith(name, PENDING_SUFFIX)
    ensures |name| == 13 <==> name == PENDING_SUFFIX
    ensures |name| > 13 ==> name == "." + name[1..|name| - 13] + PENDING_SUFFIX
  {
    var tail := name[|name| - 13..];
    assert tail == PENDING_SUFFIX;
    if |name| > 13 {
      assert name[..1] == ".";
      assert name == name[..1] + name[1..|name| - 13] + tail;
    } else {
      assert name == tail;
    }
  }

  /// The classification closure of `find_snapshots` as written, for the
  /// file `name` in directory `dir`.
  function ClassifyAsWritten(dir: Paths.Path, name: string, extensions: seq<string>): Found
  {
    var path := dir + [name];
    if EndsWith(name, ".new") && SecondLastDotComponent(name) in extensions then
      External(path, Paths.WithExtension(path, ""))
    else if StartsWith(name, ".") && EndsWith(name, PENDING_SUFFIX) then
      match PendingTargetAsWritten(name)
      case None => Panics
      case Some(x) => Inline(path, dir + [x])
    else Passed
  }

  /// The classification with the bare `.pending-snap` passed over.
  function Classify(dir: Paths.Path, name: string, extensions: seq<string>): Found
  {
    var path := dir + [name];
    if EndsWith(name, ".new") && SecondLastDotComponent(name) in extensions then
      External(path, Paths.WithExtension(path, ""))
    else if StartsWith(name, ".") && EndsWith(name, PENDING_SUFFIX) then
      match PendingTarget(name)
      case None => Passed
      case Some(x) => Inline(path, dir + [x])
    else Passed
  }

  /// The classifier panics on the one name `.pending-snap`, should it ever
  /// be handed it, and on nothing else; the corrected classification
  /// agrees with it everywhere else.
  lemma BarePendingPanics(dir: Paths.Path, extensions: seq<string>, name: string)
    ensures ClassifyAsWritten(dir, name, extensions) == Panics <==> name == PENDING_SUFFIX
    ensures name != PENDING_SUFFIX ==> ClassifyAsWritten(dir, name, extensions) == Classify(dir, name, extensions)
    ensures Classify(dir, PENDING_SUFFIX, extensions) == Passed
  {
    assert !EndsWith(PENDING_SUFFIX, ".new");
    if EndsWith(name, ".new") {
      assert name != PENDING_SUFFIX;
    }
  }

  /// `.X.pending-snap` is the file the runtime writes next to the source
  /// file `X`: classifying it gives back `X`.
  lemma PendingNamesRoundTrip(dir: Paths.Path, x: string, extensions: seq<string>)
    ensures Classify(dir, "." + x + PENDING_SUFFIX, extensions)
         == Inline(dir + ["." + x + PENDING_SUFFIX], dir + [x])
  {
    var name := "." + x + PENDING_SUFFIX;
    assert name[|name| - 4..] == "snap";
    assert name[1..|name| - 13] == x;
  }

  /// The last dot of `a.b`, where `b` has none, is the one after `a`.
  lemma {:induction false} LastDotOf(a: string, b: string)
    requires '.' !in b
    ensures LastIndexOfChar(a + "." + b, '.') == Some(|a|)
    decreases |b|
  {
    if b != [] {
      var s := a + "." + b;
      assert s[|s| - 1] == b[|b| - 1];
      assert s[..|s| - 1] == a + "." + b[..|b| - 1];
      LastDotOf(a, b[..|b| - 1]);
    }
  }

  lemma SecondLastDotOfNew(x: string, e: string)
    requires '.' !in e
    ensures SecondLastDotComponent(x + "." + e + ".new") == e
    ensures Paths.Stem(x + "." + e + ".new") == x + "." + e
  {
    var front := x + "." + e;
    var name := x + "." + e + ".new";
    assert name == front + "." + "new";
    LastDotOf(front, "new");
    assert name[..|front|] == front;
    assert name != "..";
    LastDotOf(x, e);
    assert front[|x| + 1..] == e;
  }

  /// `X.E.new` is the file written next to the snapshot `X.E`: when `E`
  /// is an allowed extension it is loaded as an External container whose
  /// target is `X.E`; otherwise it is passed over.
  lemma NewNamesRoundTrip(dir: Paths.Path, x: string, e: string, extensions: seq<string>)
    requires '.' !in e
    ensures var name := x + "." + e + ".new";
      Classify(dir, name, extensions)
      == if e in extensions then External(dir + [name], dir + [x + "." + e]) else Passed
  {
    var name := x + "." + e + ".new";
    SecondLastDotOfNew(x, e);
    var path := dir + [name];
    assert EndsWith(name, ".new");
    assert Paths.FileName(path) == Some(name);
    assert path[..|path| - 1] == dir;
    assert !EndsWith(name, PENDING_SUFFIX) by {
      assert name[|name| - 1] == 'w';
    }
  }

  // ---------------------------------------------------------------------
  // The roots `iter_snapshot_containers` walks.

  /// The manifest's directory, then the directory of every target that is
  /// not a build script; `src_path.parent().unwrap()` panics (`None`)
  /// for a source path without a parent.
  function Roots(manifestPath: Paths.Path, targets: seq<Target>, n: nat): (r: Option<seq<Paths.Path>>)
    requires n <= |targets|
  {
    if n == 0 then
      match Paths.Parent(manifestPath)
      case None => Some([])
      case Some(dir) => Some([dir])
    else
      match Roots(manifestPath, targets, n - 1)
      case None => None
      case Some(rs) =>
        var t := targets[n - 1];
        if "custom-build" in t.kind then Some(rs)
        else
          match Paths.Parent(t.srcPath)
          case None => None
          case Some(dir) => Some(rs + [dir])
  }

  lemma {:induction false} RootsNoneStays(manifestPath: Paths.Path, targets: seq<Target>, k: nat, n: nat)
    requires k <= n <= |targets|
    requires Roots(manifestPath, targets, k).None?
    ensures Roots(manifestPath, targets, n).None?
    decreases n
  {
    if n > k {
      RootsNoneStays(manifestPath, targets, k, n - 1);
    }
  }

  method CollectRoots(manifestPath: Paths.Path, targets: seq<Target>) returns (r: Option<seq<Paths.Path>>)
    ensures r == Roots(manifestPath, targets, |targets|)
  {
    var roots: seq<Paths.Path> := [];
    var manifestDir := Paths.Parent(manifestPath);
    if manifestDir.Some? {
      roots := [manifestDir.value];
    }
    for i := 0 to |targets|
      invariant Roots(manifestPath, targets, i) == Some(roots)
    {
      var t := targets[i];
      if "custom-build" !in t.kind {
        var dir := Paths.Parent(t.srcPath);
        if dir.None? {
          RootsNoneStays(manifestPath, targets, i + 1, |targets|);
          return None;
        }
        roots := roots + [dir.value];
      }
    }
    r := Some(roots);
  }

  /// A root's display length: `as_os_str().len()`.
  function OsLen(p: Paths.Path): nat
  {
    |Paths.Display(p)|
  }

  function ByOsLen(a: Paths.Path, b: Paths.Path): Sorting.Ordering
  {
    Sorting.CmpInt(OsLen(a), OsLen(b))
  }

  /// Does a root already kept lie at or above `root`?
  predicate Covers(kept: seq<Paths.Path>, root: Paths.Path)
  {
    exists k :: 0 <= k < |kept| && Paths.StartsWith(root, kept[k])
  }

  /// The reduction loop's result: a root is kept unless an earlier kept
  /// root is a prefix of it.
  function Reduced(roots: seq<Paths.Path>): seq<Paths.Path>
  {
    if roots == [] then []
    else
      var kept := Reduced(roots[..|roots| - 1]);
      var root := roots[|roots| - 1];
      if Covers(kept, root) then kept else kept + [root]
  }

  method ReduceRoots(roots: seq<Paths.Path>) returns (reduced: seq<Paths.Path>)
    ensures reduced == Reduced(roots)
  {
    reduced := [];
    for i := 0 to |roots|
      invariant reduced == Reduced(roots[..i])
    {
      var root := roots[i];
      assert roots[..i + 1][..i] == roots[..i];
      if !Covers(reduced, root) {
        reduced := reduced + [root];
      }
    }
    assert roots[..|roots|] == roots;
  }

  /// Every kept root is one of the roots.
  lemma {:induction false} ReducedFromRoots(roots: seq<Paths.Path>)
    ensures forall k :: 0 <= k < |Reduced(roots)| ==> Reduced(roots)[k] in roots
  {
    if roots != [] {
      var front := roots[..|roots| - 1];
      ReducedFromRoots(front);
      assert forall x :: x in front ==> x in roots;
    }
  }

  /// Every root lies at or below a kept root, so the kept roots reach
  /// every directory the roots do.
  lemma {:induction false} ReducedCovers(roots: seq<Paths.Path>)
    ensures forall i :: 0 <= i < |roots| ==> Covers(Reduced(roots), roots[i])
  {
    if roots != [] {
      var front := roots[..|roots| - 1];
      ReducedCovers(front);
      var kept := Reduced(front);
      var root := roots[|roots| - 1];
      forall i | 0 <= i < |roots|
        ensures Covers(Reduced(roots), roots[i])
      {
        if i < |roots| - 1 {
          assert roots[i] == front[i];
          var k :| 0 <= k < |kept| && Paths.StartsWith(roots[i], kept[k]);
          assert Reduced(roots)[k] == kept[k];
        } else if !Covers(kept, root) {
          assert Reduced(roots)[|kept|] == root;
        }
      }
    }
  }

  /// No kept root lies below a root kept before it.
  lemma {:induction false} ReducedIndependent(roots: seq<Paths.Path>)
    ensures forall j, k :: 0 <= j < k < |Reduced(roots)| ==> !Paths.StartsWith(Reduced(roots)[k], Reduced(roots)[j])
  {
    if roots != [] {
      ReducedIndependent(roots[..|roots| - 1]);
    }
  }

  ghost predicate SortedByLen(roots: seq<Paths.Path>)
  {
    forall i, j :: 0 <= i < j < |roots| ==> OsLen(roots[i]) <= OsLen(roots[j])
  }

  lemma {:induction false} ReducedSortedByLen(roots: seq<Paths.Path>)
    requires SortedByLen(roots)
    ensures SortedByLen(Reduced(roots))
  {
    if roots != [] {
      var front := roots[..|roots| - 1];
      ReducedSortedByLen(front);
      ReducedFromRoots(front);
      var kept := Reduced(front);
      var root := roots[|roots| - 1];
      forall k | 0 <= k < |kept| ensures OsLen(kept[k]) <= OsLen(root) {
        var i :| 0 <= i < |front| && front[i] == kept[k];
      }
    }
  }

  /// A proper prefix of a path has a shorter display text, unless it is
  /// the empty path.
  lemma {:induction false} PrefixShorter(p: Paths.Path, q: Paths.Path)
    requires p != [] && Paths.StartsWith(q, p) && p != q
    ensures OsLen(p) < OsLen(q)
    decreases |p|
  {
    if |p| == 1 {
      assert q == [p[0]] + q[1..];
      JoinCons(p[0], q[1..], "/");
    } else {
      assert q[0] == p[0];
      assert p == [p[0]] + p[1..] && q == [q[0]] + q[1..];
      PrefixShorter(p[1..], q[1..]);
      JoinCons(p[0], p[1..], "/");
      JoinCons(q[0], q[1..], "/");
    }
  }

  /// With roots sorted by length (as `sort_by_key` leaves them) and no
  /// empty root, no kept root lies below another.
  lemma ReducedIsAntichain(roots: seq<Paths.Path>)
    requires SortedByLen(roots)
    requires forall i :: 0 <= i < |roots| ==> roots[i] != []
    ensures forall j, k :: 0 <= j < |Reduced(roots)| && 0 <= k < |Reduced(roots)| && j != k
              ==> !Paths.StartsWith(Reduced(roots)[k], Reduced(roots)[j])
  {
    var r := Reduced(roots);
    ReducedIndependent(roots);
    ReducedSortedByLen(roots);
    ReducedFromRoots(roots);
    forall j, k | 0 <= j < |r| && 0 <= k < |r| && j != k
      ensures !Paths.StartsWith(r[k], r[j])
    {
      if j > k && Paths.StartsWith(r[k], r[j]) {
        assert r[j] != r[k];
        assert r[j] != [] by {
          var i :| 0 <= i < |roots| && roots[i] == r[j];
        }
        PrefixShorter(r[j], r[k]);
      }
    }
  }

  /// `iter_snapshot_containers`' roots: collected, sorted by length,
  /// reduced.
  function SnapshotRoots(manifestPath: Paths.Path, targets: seq<Target>): Option<seq<Paths.Path>>
  {
    match Roots(manifestPath, targets, |targets|)
    case None => None
    case Some(rs) => Some(Reduced(Sorting.SortBy(rs, ByOsLen)))
  }

  method ReduceSnapshotRoots(manifestPath: Paths.Path, targets: seq<Target>) returns (r: Option<seq<Paths.Path>>)
    ensures r == SnapshotRoots(manifestPath, targets)
  {
    var roots := CollectRoots(manifestPath, targets);
    if roots.None? {
      return None;
    }
    var sorted := Sorting.SortBy(roots.value, ByOsLen);
    var reduced := ReduceRoots(sorted);
    r := Some(reduced);
  }

  lemma ByOsLenPreorder(rs: seq<Paths.Path>)
    ensures Sorting.TotalPreorderOn(ByOsLen, rs)
  {
  }

  /// `sort_by_key` by length sorts and keeps the same roots.
  lemma SortByLenSpec(rs: seq<Paths.Path>)
    ensures SortedByLen(Sorting.SortBy(rs, ByOsLen))
    ensures forall x :: x in Sorting.SortBy(rs, ByOsLen) <==> x in rs
  {
    var sorted := Sorting.SortBy(rs, ByOsLen);
    ByOsLenPreorder(rs);
    Sorting.SortBySorted(rs, ByOsLen);
    assert forall x :: x in sorted <==> x in multiset(sorted);
    assert forall x :: x in rs <==> x in multiset(rs);
  }

  /// Every root lies at or below one of `kept`.
  ghost predicate CoversAll(kept: seq<Paths.Path>, rs: seq<Paths.Path>)
  {
    forall i :: 0 <= i < |rs| ==> Covers(kept, rs[i])
  }

  ghost predicate KeptFromRoots(kept: seq<Paths.Path>, rs: seq<Paths.Path>)
  {
    forall k :: 0 <= k < |kept| ==> kept[k] in rs
  }

  /// No kept root lies below another.
  ghost predicate Antichain(kept: seq<Paths.Path>)
  {
    forall j, k :: 0 <= j < |kept| && 0 <= k < |kept| && j != k ==> !Paths.StartsWith(kept[k], kept[j])
  }

  ghost predicate NoEmptyRoot(rs: seq<Paths.Path>)
  {
    forall i :: 0 <= i < |rs| ==> rs[i] != []
  }

  lemma SortedCoversAll(rs: seq<Paths.Path>, sorted: seq<Paths.Path>)
    requires forall x :: x in sorted <==> x in rs
    ensures CoversAll(Reduced(sorted), rs)
  {
    ReducedCovers(sorted);
    forall i | 0 <= i < |rs| ensures Covers(Reduced(sorted), rs[i]) {
      assert rs[i] in sorted;
      var m :| 0 <= m < |sorted| && sorted[m] == rs[i];
    }
  }

  lemma SortedKeptFromRoots(rs: seq<Paths.Path>, sorted: seq<Paths.Path>)
    requires forall x :: x in sorted <==> x in rs
    ensures KeptFromRoots(Reduced(sorted), rs)
  {
    ReducedFromRoots(sorted);
  }

  lemma SortedAntichain(rs: seq<Paths.Path>, sorted: seq<Paths.Path>)
    requires forall x :: x in sorted <==> x in rs
    requires SortedByLen(sorted) && NoEmptyRoot(rs)
    ensures Antichain(Reduced(sorted))
  {
    forall m | 0 <= m < |sorted| ensures sorted[m] != [] {
      assert sorted[m] in rs;
    }
    ReducedIsAntichain(sorted);
  }

  /// The walked roots reach the manifest's directory and every non-build
  /// target's directory, come from those, and (as none of them is empty)
  /// none lies below another, so no directory is walked twice.
  lemma SnapshotRootsSpec(manifestPath: Paths.Path, targets: seq<Target>)
    requires SnapshotRoots(manifestPath, targets).Some?
    ensures CoversAll(SnapshotRoots(manifestPath, targets).value, Roots(manifestPath, targets, |targets|).value)
    ensures KeptFromRoots(SnapshotRoots(manifestPath, targets).value, Roots(manifestPath, targets, |targets|).value)
    ensures NoEmptyRoot(Roots(manifestPath, targets, |targets|).value) ==>
              Antichain(SnapshotRoots(manifestPath, targets).value)
  {
    var rs := Roots(manifestPath, targets, |targets|).value;
    var sorted := Sorting.SortBy(rs, ByOsLen);
    SortByLenSpec(rs);
    SortedCoversAll(rs, sorted);
    SortedKeptFromRoots(rs, sorted);
    if NoEmptyRoot(rs) {
      SortedAntichain(rs, sorted);
    }
  }

  // ---------------------------------------------------------------------
  // Selecting packages.

  /// `find_all_packages`: the workspace members, in metadata order.
  function FindAllPackages(metadata: Metadata): seq<Package>
  {
    Members(metadata.packages, metadata.workspaceMembers)
  }

  function Members(ps: seq<Package>, members: seq<string>): (r: seq<Package>)
    ensures |r| <= |ps|
  {
    if ps == [] then []
    else
      var front := Members(ps[..|ps| - 1], members);
      if ps[|ps| - 1].id in members then front + [ps[|ps| - 1]] else front
  }

  /// A package is selected exactly when it is a workspace member.
  lemma {:induction false} MembersSpec(ps: seq<Package>, members: seq<string>)
    ensures forall p :: p in Members(ps, members) <==> p in ps && p.id in members
  {
    if ps != [] {
      var front := ps[..|ps| - 1];
      MembersSpec(front, members);
      assert ps == front + [ps[|ps| - 1]];
    }
  }

  datatype PackageError =
    | NoManifest            // "Could not find `Cargo.toml` ..."
    | Canonicalize(path: Paths.Path)

  /// The packages whose manifest is the default one, or the first
  /// manifest that cannot be canonicalized.  `canonical` is the file
  /// system's `canonicalize`.
  function Matching(ps: seq<Package>, manifest: Paths.Path, canonical: Paths.Path -> Option<Paths.Path>, n: nat)
    : Result<seq<Package>, PackageError>
    requires n <= |ps|
  {
    if n == 0 then Ok([])
    else
      match Matching(ps, manifest, canonical, n - 1)
      case Err(e) => Err(e)
      case Ok(rv) =>
        var p := ps[n - 1];
        match canonical(p.manifestPath)
        case None => Err(Canonicalize(p.manifestPath))
        case Some(m) => if m == manifest then Ok(rv + [p]) else Ok(rv)
  }

  lemma {:induction false} MatchingErrStays(ps: seq<Package>, manifest: Paths.Path,
                                            canonical: Paths.Path -> Option<Paths.Path>, k: nat, n: nat)
    requires k <= n <= |ps|
    requires Matching(ps, manifest, canonical, k).Err?
    ensures Matching(ps, manifest, canonical, n) == Matching(ps, manifest, canonical, k)
    decreases n
  {
    if n > k {
      MatchingErrStays(ps, manifest, canonical, k, n - 1);
    }
  }

  /// `find_packages` with `--all` or without, `located` being what
  /// `cargo locate-project` found.
  function FindPackages(metadata: Metadata, all: bool, located: Option<Paths.Path>,
                        canonical: Paths.Path -> Option<Paths.Path>): Result<seq<Package>, PackageError>
  {
    if all then Ok(FindAllPackages(metadata))
    else
      match located
      case None => Err(NoManifest)
      case Some(loc) =>
        match canonical(loc)
        case None => Err(Canonicalize(loc))
        case Some(manifest) =>
          match Matching(metadata.packages, manifest, canonical, |metadata.packages|)
          case Err(e) => Err(e)
          case Ok(rv) => if rv == [] then Ok(FindAllPackages(metadata)) else Ok(rv)
  }

  method SelectPackages(metadata: Metadata, all: bool, located: Option<Paths.Path>,
                        canonical: Paths.Path -> Option<Paths.Path>) returns (r: Result<seq<Package>, PackageError>)
    ensures r == FindPackages(metadata, all, located, canonical)
  {
    if all {
      return Ok(FindAllPackages(metadata));
    }
    if located.None? {
      return Err(NoManifest);
    }
    var manifest := canonical(located.value);
    if manifest.None? {
      return Err(Canonicalize(located.value));
    }
    var rv := [];
    var ps := metadata.packages;
    for i := 0 to |ps|
      invariant Matching(ps, manifest.value, canonical, i) == Ok(rv)
    {
      var m := canonical(ps[i].manifestPath);
      if m.None? {
        MatchingErrStays(ps, manifest.value, canonical, i + 1, |ps|);
        return Err(Canonicalize(ps[i].manifestPath));
      }
      if m.value == manifest.value {
        rv := rv + [ps[i]];
      }
    }
    if rv == [] {
      r := Ok(FindAllPackages(metadata));
    } else {
      r := Ok(rv);
    }
  }

  /// The successful matches are exactly the packages whose canonical
  /// manifest is the default one.
  lemma {:induction false} MatchingSpec(ps: seq<Package>, manifest: Paths.Path,
                                        canonical: Paths.Path -> Option<Paths.Path>, n: nat)
    requires n <= |ps|
    ensures Matching(ps, manifest, canonical, n).Ok? <==> forall i :: 0 <= i < n ==> canonical(ps[i].manifestPath).Some?
    ensures Matching(ps, manifest, canonical, n).Ok? ==>
      forall p :: p in Matching(ps, manifest, canonical, n).value <==>
        p in ps[..n] && canonical(p.manifestPath) == Some(manifest)
  {
    if n > 0 {
      MatchingSpec(ps, manifest, canonical, n - 1);
      assert ps[..n] == ps[..n - 1] + [ps[n - 1]];
      if Matching(ps, manifest, canonical, n - 1).Err? {
        MatchingErrStays(ps, manifest, canonical, n - 1, n);
      }
    }
  }

  /// Without `--all`, the packages of the default manifest; when there
  /// are none (a virtual workspace root), the workspace members.
  lemma FindPackagesFallback(metadata: Metadata, located: Paths.Path, manifest: Paths.Path,
                             canonical: Paths.Path -> Option<Paths.Path>)
    requires canonical(located) == Some(manifest)
    requires forall i :: 0 <= i < |metadata.packages| ==> canonical(metadata.packages[i].manifestPath).Some?
    ensures FindPackages(metadata, false, Some(located), canonical).Ok?
    ensures var r := FindPackages(metadata, false, Some(located), canonical).value;
      if exists p :: p in metadata.packages && canonical(p.manifestPath) == Some(manifest)
      then forall p :: p in r <==> p in metadata.packages && canonical(p.manifestPath) == Some(manifest)
      else r == FindAllPackages(metadata)
  {
    var ps := metadata.packages;
    MatchingSpec(ps, manifest, canonical, |ps|);
    assert ps[..|ps|] == ps;
    var rv := Matching(ps, manifest, canonical, |ps|).value;
    assert rv != [] ==> rv[0] in rv;
    if exists p :: p in ps && canonical(p.manifestPath) == Some(manifest) {
      var p :| p in ps && canonical(p.manifestPath) == Some(manifest);
      assert p in rv;
    }
  }
}
