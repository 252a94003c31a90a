// The current generation's snapshot discovery (cargo-insta/src/walk.rs):
// how a walked file is classified, which entries the snapshot walker
// descends into, and the roots and entry filter of the walker that looks
// for unreferenced snapshots.  The walkers themselves (`ignore`'s
// `WalkBuilder` and its overrides) are not modelled; what they would ask
// of the file system is given as inputs.
module Walk {
  import opened Wrappers
  import opened Strs
  import Paths
  import Cargo

  /// The classification closure of `find_snapshots` as written: unlike
  /// the older one it does not look at the allowed extensions, which only
  /// feed the walker's overrides.
  function ClassifyAsWritten(dir: Paths.Path, name: string): Cargo.Found
  {
    var path := dir + [name];
    if EndsWith(name, ".new") then
      Cargo.External(path, Paths.WithExtension(path, ""))
    else if StartsWith(name, ".") && EndsWith(name, Cargo.PENDING_SUFFIX) then
      match Cargo.PendingTargetAsWritten(name)
      case None => Cargo.Panics
      case Some(x) => Cargo.Inline(path, dir + [x])
    else Cargo.Passed
  }

  /// The classification with the bare `.pending-snap` passed over.
  function Classify(dir: Paths.Path, name: string): Cargo.Found
  {
    var path := dir + [name];
    if EndsWith(name, ".new") then
      Cargo.External(path, Paths.WithExtension(path, ""))
    else if StartsWith(name, ".") && EndsWith(name, Cargo.PENDING_SUFFIX) then
      match Cargo.PendingTarget(name)
      case None => Cargo.Passed
      case Some(x) => Cargo.Inline(path, dir + [x])
    else Cargo.Passed
  }

  /// As in the older walker, only the name `.pending-snap` makes the
  /// classifier panic; the overrides of the walk never admit it.
  lemma BarePendingPanics(dir: Paths.Path, name: string)
    ensures ClassifyAsWritten(dir, name) == Cargo.Panics <==> name == Cargo.PENDING_SUFFIX
    ensures name != Cargo.PENDING_SUFFIX ==> ClassifyAsWritten(dir, name) == Classify(dir, name)
    ensures Classify(dir, Cargo.PENDING_SUFFIX) == Cargo.Passed
  {
    assert !EndsWith(Cargo.PENDING_SUFFIX, ".new");
    if EndsWith(name, ".new") {
      assert name != Cargo.PENDING_SUFFIX;
    }
  }

  /// Every `Y.new` is an External container whose target drops the
  /// `.new`; the bare name `.new` has no extension, so its target is the
  /// file itself.
  lemma NewNamesRoundTrip(dir: Paths.Path, y: string)
    ensures Classify(dir, y + ".new")
         == Cargo.External(dir + [y + ".new"], dir + [if y == "" then ".new" else y])
  {
    var name := y + ".new";
    var path := dir + [name];
    assert name == y + "." + "new";
    Cargo.LastDotOf(y, "new");
    assert name != "..";
    assert name[..|y|] == y;
    assert Paths.FileName(path) == Some(name);
    assert path[..|path| - 1] == dir;
  }

  /// `.X.pending-snap` is an Inline container for `X`.
  lemma PendingNamesRoundTrip(dir: Paths.Path, x: string)
    ensures Classify(dir, "." + x + Cargo.PENDING_SUFFIX)
         == Cargo.Inline(dir + ["." + x + Cargo.PENDING_SUFFIX], dir + [x])
  {
    Cargo.PendingNamesRoundTrip(dir, x, []);
  }

  /// The two generations classify alike, except that the older one
  /// passes over a `.new` file whose extension before `.new` is not
  /// allowed.
  lemma GenerationsAgree(dir: Paths.Path, name: string, extensions: seq<string>)
    ensures Classify(dir, name)
         == if EndsWith(name, ".new") && Cargo.SecondLastDotComponent(name) !in extensions
            then Cargo.External(dir + [name], Paths.WithExtension(dir + [name], ""))
            else Cargo.Classify(dir, name, extensions)
    ensures EndsWith(name, ".new") && Cargo.SecondLastDotComponent(name) !in extensions ==>
              Cargo.Classify(dir, name, extensions) == Cargo.Passed
  {
    if EndsWith(name, ".new") {
      assert !EndsWith(name, Cargo.PENDING_SUFFIX) by {
        assert name[|name| - 1] == 'w';
      }
    }
  }

  /// The `filter_entry` of the snapshot walker without `--include-hidden`:
  /// files are always looked at, directories only when not hidden.
  function Descends(isFile: bool, name: string): (r: bool)
    ensures r <==> isFile || |name| == 0 || name[0] != '.'
  {
    isFile || !Cargo.IsHidden(name)
  }

  // ---------------------------------------------------------------------
  // The walker for unreferenced snapshots.

  /// The packages whose directories `make_deletion_walker` treats as
  /// roots: all, or only the one selected by name.
  predicate Selected(p: Cargo.Package, selected: Option<string>)
  {
    selected.None? || p.name == selected.value
  }

  /// The canonical directories of the first `n` selected packages;
  /// `None` when `manifest_path.parent().unwrap()` panics.  A directory
  /// that cannot be canonicalized is left out.
  function PackageRoots(ps: seq<Cargo.Package>, selected: Option<string>,
                        canonical: Paths.Path -> Option<Paths.Path>, n: nat): Option<set<Paths.Path>>
    requires n <= |ps|
  {
    if n == 0 then Some({})
    else
      match PackageRoots(ps, selected, canonical, n - 1)
      case None => None
      case Some(roots) =>
        var p := ps[n - 1];
        if !Selected(p, selected) then Some(roots)
        else
          match Paths.Parent(p.manifestPath)
          case None => None
          case Some(dir) =>
            match canonical(dir)
            case None => Some(roots)
            case Some(c) => Some(roots + {c})
  }

  /// The roots of `make_deletion_walker`.
  function DeletionRoots(workspaceRoot: Paths.Path, known: Option<seq<Cargo.Package>>, selected: Option<string>,
                         canonical: Paths.Path -> Option<Paths.Path>): Option<set<Paths.Path>>
  {
    match known
    case None => Some({workspaceRoot})
    case Some(ps) => PackageRoots(ps, selected, canonical, |ps|)
  }

  /// A package directory is a root exactly when its package is selected
  /// and it canonicalizes; the roots panic exactly when a selected
  /// manifest has no parent.
  lemma {:induction false} PackageRootsSpec(ps: seq<Cargo.Package>, selected: Option<string>,
                                            canonical: Paths.Path -> Option<Paths.Path>, n: nat)
    requires n <= |ps|
    ensures PackageRoots(ps, selected, canonical, n).None? <==>
      exists i :: 0 <= i < n && Selected(ps[i], selected) && Paths.Parent(ps[i].manifestPath).None?
    ensures PackageRoots(ps, selected, canonical, n).Some? ==>
      forall q :: q in PackageRoots(ps, selected, canonical, n).value <==>
        exists i :: 0 <= i < n && Selected(ps[i], selected)
                    && Paths.Parent(ps[i].manifestPath).Some?
                    && canonical(Paths.Parent(ps[i].manifestPath).value) == Some(q)
  {
    if n > 0 {
      PackageRootsSpec(ps, selected, canonical, n - 1);
      var p := ps[n - 1];
      if PackageRoots(ps, selected, canonical, n - 1).Some? && Selected(p, selected) && Paths.Parent(p.manifestPath).None? {
        assert PackageRoots(ps, selected, canonical, n).None?;
      }
    }
  }

  /// Selecting one package can only narrow the roots.
  lemma SelectionNarrowsRoots(ps: seq<Cargo.Package>, only: string, canonical: Paths.Path -> Option<Paths.Path>)
    requires PackageRoots(ps, None, canonical, |ps|).Some?
    ensures PackageRoots(ps, Some(only), canonical, |ps|).Some?
    ensures PackageRoots(ps, Some(only), canonical, |ps|).value <= PackageRoots(ps, None, canonical, |ps|).value
  {
    PackageRootsSpec(ps, None, canonical, |ps|);
    PackageRootsSpec(ps, Some(only), canonical, |ps|);
  }

  /// A directory entry as the deletion walker's filter sees it:
  /// `canonical` is `canonicalize()` (`None` on failure) and
  /// `hasManifest` whether a `Cargo.toml` file sits inside it.
  datatype Entry = Entry(path: Paths.Path, isDir: bool, canonical: Option<Paths.Path>, hasManifest: bool)

  /// The deletion walker's `filter_entry`: `None` when
  /// `canonicalized.parent().unwrap()` panics.
  /// It never stops at a file; it stops at a `target` directory
  /// right below a root and at a directory holding another crate, and
  /// enters every other directory.
  function Enters(roots: set<Paths.Path>, e: Entry): (r: Option<bool>)
    ensures !e.isDir ==> r == Some(true)
    ensures r.None? <==>
      e.isDir && e.canonical.Some? && Paths.FileName(e.path) == Some("target") && e.canonical.value in {[], [""]}
    ensures e.isDir && e.canonical.Some? && Paths.FileName(e.path) != Some("target") ==>
      (r == Some(false) <==> e.canonical.value !in roots && e.hasManifest)
    ensures e.isDir && e.canonical.Some? && Paths.FileName(e.path) == Some("target")
            && Paths.Parent(e.canonical.value).Some? && Paths.Parent(e.canonical.value).value in roots ==>
      r == Some(false)
    ensures e.isDir && e.canonical.Some? && e.canonical.value in roots && Paths.FileName(e.path) != Some("target") ==>
      r == Some(true)
  {
    if !e.isDir then Some(true)
    else
      match e.canonical
      case None => Some(true)
      case Some(c) =>
        var named := Paths.FileName(e.path) == Some("target");
        if named && Paths.Parent(c).None? then None
        else if named && Paths.Parent(c).value in roots then Some(false)
        else if c !in roots && e.hasManifest then Some(false)
        else Some(true)
  }
}
