// The pending snapshots of one file and their review
// (cargo-insta/src/container.rs): a container is loaded from a `.snap.new`
// file next to its `.snap` (External) or from a `.pending-snap` batch next
// to a source file (Inline); each pending snapshot is then given an
// operation, and `commit` carries the operations out on the files.  The
// file system is a map from path to what the file holds; reading the
// source file's syntax tree is the list of macro invocations the parser
// finds, given as input.
module Container {
  import opened Wrappers
  import opened Strs
  import Paths
  import C = Contents
  import M = SnapshotMeta
  import L = LegacySnapshot
  import IP = InlinePatcher
  import Sorting

  datatype Operation = Accept | Reject | Skip

  datatype Kind = Inline | External

  /// One snapshot under review; `id` is its place in the loaded batch.
  datatype PendingSnapshot<Snap> = PendingSnapshot(
    id: nat,
    oldSnapshot: Option<Snap>,
    newSnapshot: Snap,
    op: Operation,
    line: Option<C.u32>)

  type Pending<Snap> = M.PendingInlineSnapshot<Snap>

  // ---------------------------------------------------------------------
  // `PendingSnapshot::summary`.

  /// The source file, then `:line` when the line is known, then ` (name)`
  /// when the snapshot is named.
  function SummaryText(source: Option<string>, line: Option<C.u32>, name: Option<string>): string
  {
    (if source.Some? then source.value else "")
    + (if line.Some? then ":" + NatToString(line.value) else "")
    + (if name.Some? then " (" + name.value + ")" else "")
  }

  method Summary(p: PendingSnapshot<M.Snapshot>) returns (rv: string)
    ensures rv == SummaryText(p.newSnapshot.metadata.source, p.line, p.newSnapshot.snapshotName)
  {
    rv := "";
    if p.newSnapshot.metadata.source.Some? {
      rv := rv + p.newSnapshot.metadata.source.value;
    }
    if p.line.Some? {
      rv := rv + ":" + NatToString(p.line.value);
    }
    if p.newSnapshot.snapshotName.Some? {
      rv := rv + " (" + p.newSnapshot.snapshotName.value + ")";
    }
  }

  /// The summary begins with the source, ends with the name in
  /// parentheses when there is one, and is empty exactly when there is
  /// neither line nor name and the source is empty or unknown.
  lemma SummaryShape(source: Option<string>, line: Option<C.u32>, name: Option<string>)
    ensures var r := SummaryText(source, line, name);
      (source.Some? ==> StartsWith(r, source.value))
      && (name.Some? ==> EndsWith(r, " (" + name.value + ")"))
      && (r == [] <==> (source.None? || source.value == []) && line.None? && name.None?)
  {
    var r := SummaryText(source, line, name);
    var s := if source.Some? then source.value else "";
    var x := if line.Some? then ":" + NatToString(line.value) else "";
    var n := if name.Some? then " (" + name.value + ")" else "";
    assert r == s + (x + n);
    assert r == (s + x) + n;
    assert r[..|s|] == s;
    if line.Some? {
      NatToStringNonEmpty(line.value);
    }
    if name.Some? {
      assert r[|s + x|..] == n;
    }
  }

  /// Two summaries of the same source and name differ when their lines do.
  lemma {:induction false} SummaryLineInjective(source: Option<string>, a: Option<C.u32>, b: Option<C.u32>, name: Option<string>)
    requires SummaryText(source, a, name) == SummaryText(source, b, name)
    ensures a == b
  {
    var s := if source.Some? then source.value else "";
    var n := if name.Some? then " (" + name.value + ")" else "";
    var x := if a.Some? then ":" + NatToString(a.value) else "";
    var y := if b.Some? then ":" + NatToString(b.value) else "";
    assert s + x + n == s + y + n;
    assert |x| == |y|;
    assert x == (s + x + n)[|s|..|s| + |x|];
    assert y == (s + y + n)[|s|..|s| + |y|];
    if a.Some? {
      NatToStringNonEmpty(a.value);
    }
    if b.Some? {
      NatToStringNonEmpty(b.value);
    }
    if a.Some? && b.Some? {
      assert NatToString(a.value) == x[1..];
      NatToStringInjective(a.value, b.value);
    }
  }

  lemma NatToStringNonEmpty(n: nat)
    ensures |NatToString(n)| >= 1
  {
  }

  // ---------------------------------------------------------------------
  // The files a container reads and writes.

  /// What a file holds: a snapshot file, a batch of pending inline
  /// snapshots (one per line), or a source file's text.
  datatype File<Snap> =
    | SnapFile(snapshot: Snap)
    | PendingFile(batch: seq<Pending<Snap>>)
    | SourceFile(text: string)

  datatype Error =
    | NotFound(path: Paths.Path)        // a file that is not there
    | Malformed(path: Paths.Path)       // a file that does not parse as expected
    | Patch(error: IP.PatchError)       // the patcher failed
    | NotText                           // binary contents accepted into source code

  type Files<Snap> = map<Paths.Path, File<Snap>>

  /// `Snapshot::from_file`.
  function ReadSnapshot<Snap>(files: Files<Snap>, p: Paths.Path): (r: Result<Snap, Error>)
    ensures r.Ok? <==> p in files && files[p].SnapFile?
  {
    if p !in files then Err(NotFound(p))
    else if !files[p].SnapFile? then Err(Malformed(p))
    else Ok(files[p].snapshot)
  }

  /// `PendingInlineSnapshot::load_batch`: the entries of the last run.
  function LoadBatch<Snap>(files: Files<Snap>, p: Paths.Path): (r: Result<seq<Pending<Snap>>, Error>)
    ensures r.Ok? <==> p in files && files[p].PendingFile?
  {
    if p !in files then Err(NotFound(p))
    else if !files[p].PendingFile? then Err(Malformed(p))
    else Ok(M.LastRun(files[p].batch))
  }

  /// The text `FilePatcher::open` reads.
  function ReadSource<Snap>(files: Files<Snap>, p: Paths.Path): (r: Result<string, Error>)
    ensures r.Ok? <==> p in files && files[p].SourceFile?
  {
    if p !in files then Err(NotFound(p))
    else if !files[p].SourceFile? then Err(Malformed(p))
    else Ok(files[p].text)
  }

  /// `fs::remove_file`: an error for a file that is not there.
  function Removed<Snap>(files: Files<Snap>, p: Paths.Path): (r: Result<Files<Snap>, Error>)
    ensures r.Ok? <==> p in files
    ensures r.Ok? ==> r.value == files - {p}
  {
    if p in files then Ok(files - {p}) else Err(NotFound(p))
  }

  /// What `fs::rename` leaves: the file at `to` holds what `from` held,
  /// and `from` is gone unless it is `to` itself.
  function Renamed<Snap>(files: Files<Snap>, from: Paths.Path, to: Paths.Path): (r: Result<Files<Snap>, Error>)
    ensures r.Ok? <==> from in files
    ensures r.Ok? ==> to in r.value && r.value[to] == files[from] && (from != to ==> from !in r.value)
  {
    if from !in files then Err(NotFound(from))
    else if from == to then Ok(files)
    else Ok(files[to := files[from]] - {from})
  }

  /// `PendingInlineSnapshot::save_batch`: the old file is removed (its
  /// absence is no error) and every entry is appended; an empty batch
  /// leaves no file.
  function SavedBatch<Snap>(files: Files<Snap>, p: Paths.Path, batch: seq<Pending<Snap>>): Files<Snap>
  {
    if batch == [] then files - {p} else files[p := PendingFile(batch)]
  }

  class Disk<Snap> {
    var files: Files<Snap>

    constructor(fs: Files<Snap>)
      ensures files == fs
    {
      files := fs;
    }

    method Write(p: Paths.Path, f: File<Snap>)
      modifies this
      ensures files == old(files)[p := f]
    {
      files := files[p := f];
    }

    method RemoveFile(p: Paths.Path) returns (r: Result<(), Error>)
      modifies this
      ensures r.Ok? <==> Removed(old(files), p).Ok?
      ensures r == Done(Removed(old(files), p))
      ensures files == old(files) - {p}
    {
      if p in files {
        r := Ok(());
      } else {
        r := Err(NotFound(p));
      }
      files := files - {p};
    }

    /// `fs::rename`: the file moves, replacing whatever was at `to`.
    method Rename(from: Paths.Path, to: Paths.Path) returns (r: Result<(), Error>)
      modifies this
      ensures r == Done(Renamed(old(files), from, to))
      ensures r.Ok? ==> files == Renamed(old(files), from, to).value
      ensures r.Err? ==> files == old(files)
    {
      if from !in files {
        r := Err(NotFound(from));
      } else {
        if from != to {
          files := files[to := files[from]] - {from};
        }
        r := Ok(());
      }
    }

    method SaveBatch(p: Paths.Path, batch: seq<Pending<Snap>>)
      modifies this
      ensures files == SavedBatch(old(files), p, batch)
    {
      files := files - {p};
      if batch != [] {
        files := files[p := PendingFile(batch)];
      }
    }
  }

  // ---------------------------------------------------------------------
  // Loading an inline batch.

  /// `sort_by_key(|pending| pending.line)`.
  function ByLine<Snap>(a: Pending<Snap>, b: Pending<Snap>): Sorting.Ordering
  {
    Sorting.CmpInt(a.line, b.line)
  }

  lemma ByLineTotal<Snap(!new)>(xs: seq<Pending<Snap>>)
    ensures Sorting.TotalPreorderOn(ByLine, xs)
  {
  }

  /// What the load loop does with entry `id` of the sorted batch, given
  /// what it kept and what the patcher recorded so far: an entry without a
  /// new snapshot is dropped, as is one for whose line no snapshot macro
  /// is found (the file changed since); the patcher's ordering assertion
  /// failing is an error.
  function AdmitStep<Snap>(ms: seq<IP.Macro>, p: Pending<Snap>, id: nat,
                           kept: seq<PendingSnapshot<Snap>>, recorded: seq<IP.InlineSnapshot>)
    : Result<(seq<PendingSnapshot<Snap>>, seq<IP.InlineSnapshot>), IP.PatchError>
  {
    if p.newSnapshot.None? then Ok((kept, recorded))
    else
      var found := IP.LastQualifying(ms, p.line);
      if found.None? then Ok((kept, recorded))
      else if recorded != [] && recorded[|recorded| - 1].end.0 > p.line then Err(IP.OutOfOrder)
      else Ok((kept + [PendingSnapshot(id, p.oldSnapshot, p.newSnapshot.value, Skip, Some(p.line))],
               recorded + [found.value]))
  }

  /// The state of the load loop after the first `n` entries.
  function Admit<Snap>(ms: seq<IP.Macro>, ps: seq<Pending<Snap>>, n: nat)
    : Result<(seq<PendingSnapshot<Snap>>, seq<IP.InlineSnapshot>), IP.PatchError>
    requires n <= |ps|
  {
    if n == 0 then Ok(([], []))
    else
      match Admit(ms, ps, n - 1)
      case Err(e) => Err(e)
      case Ok(st) => AdmitStep(ms, ps[n - 1], n - 1, st.0, st.1)
  }

  /// An entry the load keeps: it has a new snapshot and a macro covers its
  /// line.
  predicate Admissible<Snap>(ms: seq<IP.Macro>, p: Pending<Snap>)
  {
    p.newSnapshot.Some? && IP.LastQualifying(ms, p.line).Some?
  }

  /// The places in the batch of the entries kept, by an independent filter.
  function AdmissibleIds<Snap>(ms: seq<IP.Macro>, ps: seq<Pending<Snap>>, n: nat): seq<nat>
    requires n <= |ps|
  {
    if n == 0 then []
    else AdmissibleIds(ms, ps, n - 1) + (if Admissible(ms, ps[n - 1]) then [n - 1] else [])
  }

  function Ids<Snap>(kept: seq<PendingSnapshot<Snap>>): seq<nat>
  {
    seq(|kept|, i requires 0 <= i < |kept| => kept[i].id)
  }

  /// A kept entry comes from place `id` of the batch, carries its new and
  /// old snapshots and its line, is set to Skip, and the patcher entry at
  /// the same index is the macro found for that line.
  ghost predicate KeptFrom<Snap>(ms: seq<IP.Macro>, ps: seq<Pending<Snap>>, k: PendingSnapshot<Snap>, rec: IP.InlineSnapshot)
  {
    k.id < |ps| && ps[k.id].newSnapshot == Some(k.newSnapshot) && k.oldSnapshot == ps[k.id].oldSnapshot
    && k.line == Some(ps[k.id].line) && k.op == Skip
    && IP.LastQualifying(ms, ps[k.id].line) == Some(rec)
  }

  /// When the load succeeds, the kept entries are exactly the admissible
  /// ones, in batch order, and `snapshots[i]` and the patcher's entry `i`
  /// describe the same macro.
  lemma {:induction false} AdmitAligned<Snap>(ms: seq<IP.Macro>, ps: seq<Pending<Snap>>, n: nat)
    requires n <= |ps|
    requires Admit(ms, ps, n).Ok?
    ensures var (kept, rec) := Admit(ms, ps, n).value;
      |kept| == |rec| && Ids(kept) == AdmissibleIds(ms, ps, n)
      && forall i :: 0 <= i < |kept| ==> KeptFrom(ms, ps, kept[i], rec[i])
  {
    if n > 0 {
      AdmitAligned(ms, ps, n - 1);
      var (kept, rec) := Admit(ms, ps, n - 1).value;
      var p := ps[n - 1];
      if Admissible(ms, p) {
        var k := PendingSnapshot(n - 1, p.oldSnapshot, p.newSnapshot.value, Skip, Some(p.line));
        assert KeptFrom(ms, ps, k, IP.LastQualifying(ms, p.line).value);
        assert Ids(kept + [k]) == Ids(kept) + [n - 1];
      }
    }
  }

  /// The ids in `AdmissibleIds` increase, so the kept entries keep the
  /// batch order.
  lemma {:induction false} AdmissibleIdsIncrease<Snap>(ms: seq<IP.Macro>, ps: seq<Pending<Snap>>, n: nat)
    requires n <= |ps|
    ensures forall i :: 0 <= i < |AdmissibleIds(ms, ps, n)| ==> AdmissibleIds(ms, ps, n)[i] < n
    ensures forall i, j :: 0 <= i < j < |AdmissibleIds(ms, ps, n)| ==>
      AdmissibleIds(ms, ps, n)[i] < AdmissibleIds(ms, ps, n)[j]
  {
    if n > 0 {
      AdmissibleIdsIncrease(ms, ps, n - 1);
    }
  }

  /// A sorted batch loads into entries with non-decreasing lines.
  lemma KeptSortedByLine<Snap(!new)>(ms: seq<IP.Macro>, batch: seq<Pending<Snap>>)
    requires Admit(ms, Sorting.SortBy(batch, ByLine), |batch|).Ok?
    ensures var kept := Admit(ms, Sorting.SortBy(batch, ByLine), |batch|).value.0;
      forall i, j :: 0 <= i < j < |kept| ==>
        kept[i].line.Some? && kept[j].line.Some? && kept[i].line.value <= kept[j].line.value
  {
    var ps := Sorting.SortBy(batch, ByLine);
    ByLineTotal(batch);
    Sorting.SortBySorted(batch, ByLine);
    AdmitAligned(ms, ps, |batch|);
    AdmissibleIdsIncrease(ms, ps, |batch|);
    var kept := Admit(ms, ps, |batch|).value.0;
    forall i, j | 0 <= i < j < |kept|
      ensures kept[i].line.Some? && kept[j].line.Some? && kept[i].line.value <= kept[j].line.value
    {
      assert Ids(kept)[i] == kept[i].id && Ids(kept)[j] == kept[j].id;
      assert ByLine(ps[kept[i].id], ps[kept[j].id]) != Sorting.Greater;
    }
  }

  /// Once the load loop fails it stays failed.
  lemma {:induction false} AdmitErrStays<Snap>(ms: seq<IP.Macro>, ps: seq<Pending<Snap>>, k: nat, n: nat)
    requires k <= n <= |ps|
    requires Admit(ms, ps, k).Err?
    ensures Admit(ms, ps, n) == Admit(ms, ps, k)
    decreases n
  {
    if n > k {
      AdmitErrStays(ms, ps, k, n - 1);
    }
  }

  // ---------------------------------------------------------------------
  // The container.

  /// What the load finds for an Inline container: the source text when
  /// the source file exists, the entries kept and the patcher's entries.
  datatype InlineLoaded<Snap> = InlineLoaded(
    source: Option<string>,
    kept: seq<PendingSnapshot<Snap>>,
    recorded: seq<IP.InlineSnapshot>)

  function InlineLoad(files: Files<M.Snapshot>, snapshotPath: Paths.Path, targetPath: Paths.Path, ms: seq<IP.Macro>)
    : Result<InlineLoaded<M.Snapshot>, Error>
  {
    match LoadBatch(files, snapshotPath)
    case Err(e) => Err(e)
    case Ok(batch) =>
      if targetPath !in files then Ok(InlineLoaded(None, [], []))
      else
        match ReadSource(files, targetPath)
        case Err(e) => Err(e)
        case Ok(text) =>
          match Admit(ms, Sorting.SortBy(batch, ByLine), |batch|)
          case Err(e) => Err(Patch(e))
          case Ok(st) => Ok(InlineLoaded(Some(text), st.0, st.1))
  }

  class SnapshotContainer<Snap> {
    const snapshotPath: Paths.Path
    const targetPath: Paths.Path
    const kind: Kind
    var snapshots: seq<PendingSnapshot<Snap>>
    const patcher: IP.FilePatcher?

    constructor(snapshotPath: Paths.Path, targetPath: Paths.Path, kind: Kind,
                snapshots: seq<PendingSnapshot<Snap>>, patcher: IP.FilePatcher?)
      ensures this.snapshotPath == snapshotPath && this.targetPath == targetPath && this.kind == kind
      ensures this.snapshots == snapshots && this.patcher == patcher
    {
      this.snapshotPath := snapshotPath;
      this.targetPath := targetPath;
      this.kind := kind;
      this.snapshots := snapshots;
      this.patcher := patcher;
    }

    /// `snapshot_file`: the `.snap` file, which only an External
    /// container has.
    function SnapshotFile(): (r: Option<Paths.Path>)
      ensures r.Some? <==> kind == External
      ensures r.Some? ==> r.value == targetPath
    {
      if kind == External then Some(targetPath) else None
    }

    /// `len`: the number of snapshots under review.
    function Len(): (n: nat)
      reads this
      ensures n == |snapshots|
    {
      |snapshots|
    }

    /// Setting an operation through `iter_snapshots`.
    method SetOp(i: nat, op: Operation)
      requires i < |snapshots|
      modifies this
      ensures snapshots == old(snapshots)[i := old(snapshots)[i].(op := op)]
    {
      snapshots := snapshots[i := snapshots[i].(op := op)];
    }
  }

  /// `load` of an External container: one entry, set to Skip, without a
  /// line, whose old snapshot is there exactly when the `.snap` file is.
  method LoadExternal<Snap>(disk: Disk<Snap>, snapshotPath: Paths.Path, targetPath: Paths.Path)
    returns (r: Result<SnapshotContainer<Snap>, Error>)
    ensures var files := disk.files;
      r.Ok? <==> (targetPath !in files || files[targetPath].SnapFile?) && ReadSnapshot(files, snapshotPath).Ok?
    ensures r.Ok? ==>
      fresh(r.value) && r.value.kind == External && r.value.patcher == null
      && r.value.snapshotPath == snapshotPath && r.value.targetPath == targetPath
      && |r.value.snapshots| == 1
      && (var e := r.value.snapshots[0];
          e.id == 0 && e.op == Skip && e.line.None?
          && e.newSnapshot == disk.files[snapshotPath].snapshot
          && (e.oldSnapshot.Some? <==> targetPath in disk.files)
          && (e.oldSnapshot.Some? ==> e.oldSnapshot.value == disk.files[targetPath].snapshot))
  {
    var previous: Option<Snap> := None;
    if targetPath in disk.files {
      var o := ReadSnapshot(disk.files, targetPath);
      if o.Err? {
        return Err(o.error);
      }
      previous := Some(o.value);
    }
    var n := ReadSnapshot(disk.files, snapshotPath);
    if n.Err? {
      return Err(n.error);
    }
    var c := new SnapshotContainer(snapshotPath, targetPath, External,
                                   [PendingSnapshot(0, previous, n.value, Skip, None)], null);
    r := Ok(c);
  }

  /// The loop of an Inline `load`: each sorted entry with a new snapshot
  /// asks the patcher for its macro and is kept when one is found.
  method AdmitAll(patcher: IP.FilePatcher, ps: seq<Pending<M.Snapshot>>)
    returns (r: Result<seq<PendingSnapshot<M.Snapshot>>, IP.PatchError>)
    requires patcher.inlineSnapshots == []
    modifies patcher
    ensures patcher.lines == old(patcher.lines) && patcher.newline == old(patcher.newline)
    ensures patcher.macros == old(patcher.macros)
    ensures r.Ok? <==> Admit(patcher.macros, ps, |ps|).Ok?
    ensures r.Ok? ==> Admit(patcher.macros, ps, |ps|).value == (r.value, patcher.inlineSnapshots)
    ensures r.Err? ==> Admit(patcher.macros, ps, |ps|).error == r.error
  {
    var kept := [];
    for id := 0 to |ps|
      invariant patcher.lines == old(patcher.lines) && patcher.newline == old(patcher.newline)
      invariant patcher.macros == old(patcher.macros)
      invariant Admit(patcher.macros, ps, id) == Ok((kept, patcher.inlineSnapshots))
    {
      var p := ps[id];
      if p.newSnapshot.Some? {
        var added := patcher.AddSnapshotMacro(p.line);
        if added.Ok? {
          kept := kept + [PendingSnapshot(id, p.oldSnapshot, p.newSnapshot.value, Skip, Some(p.line))];
        } else if added.error == IP.OutOfOrder {
          AdmitErrStays(patcher.macros, ps, id + 1, |ps|);
          return Err(IP.OutOfOrder);
        }
      }
    }
    r := Ok(kept);
  }

  /// `load` of an Inline container; the pending file is deleted when no
  /// entry is kept.
  method LoadInline(disk: Disk<M.Snapshot>, snapshotPath: Paths.Path, targetPath: Paths.Path, ms: seq<IP.Macro>)
    returns (r: Result<SnapshotContainer<M.Snapshot>, Error>)
    modifies disk
    ensures r.Ok? <==> InlineLoad(old(disk.files), snapshotPath, targetPath, ms).Ok?
    ensures r.Err? ==>
      r.error == InlineLoad(old(disk.files), snapshotPath, targetPath, ms).error && disk.files == old(disk.files)
    ensures r.Ok? ==>
      var loaded := InlineLoad(old(disk.files), snapshotPath, targetPath, ms).value;
      fresh(r.value) && r.value.kind == Inline
      && r.value.snapshotPath == snapshotPath && r.value.targetPath == targetPath
      && r.value.snapshots == loaded.kept
      && disk.files == (if loaded.kept == [] then old(disk.files) - {snapshotPath} else old(disk.files))
      && (r.value.patcher == null <==> loaded.source.None?)
      && (r.value.patcher != null ==>
            fresh(r.value.patcher)
            && r.value.patcher.lines == Lines(loaded.source.value)
            && r.value.patcher.newline == IP.DetectNewlineAsWritten(loaded.source.value)
            && r.value.patcher.macros == ms
            && r.value.patcher.inlineSnapshots == loaded.recorded)
  {
    var batch := LoadBatch(disk.files, snapshotPath);
    if batch.Err? {
      return Err(batch.error);
    }
    var kept: seq<PendingSnapshot<M.Snapshot>> := [];
    var patcher: IP.FilePatcher? := null;
    if targetPath in disk.files {
      var text := ReadSource(disk.files, targetPath);
      if text.Err? {
        return Err(text.error);
      }
      var p := new IP.FilePatcher.Open(text.value, ms);
      var sorted := Sorting.SortBy(batch.value, ByLine);
      var admitted := AdmitAll(p, sorted);
      if admitted.Err? {
        return Err(Patch(admitted.error));
      }
      kept := admitted.value;
      patcher := p;
    }
    if kept == [] {
      // The batch was just read, so removing it cannot fail.
      var removed := disk.RemoveFile(snapshotPath);
      assert removed.Ok?;
    }
    var c := new SnapshotContainer(snapshotPath, targetPath, Inline, kept, patcher);
    r := Ok(c);
  }

  /// `load`: by the container's kind.
  method Load(disk: Disk<M.Snapshot>, snapshotPath: Paths.Path, targetPath: Paths.Path, kind: Kind, ms: seq<IP.Macro>)
    returns (r: Result<SnapshotContainer<M.Snapshot>, Error>)
    modifies disk
    ensures r.Ok? ==> fresh(r.value) && r.value.kind == kind
    ensures kind == External ==>
      (disk.files == old(disk.files)
       && (r.Ok? <==> (targetPath !in disk.files || disk.files[targetPath].SnapFile?)
                      && ReadSnapshot(disk.files, snapshotPath).Ok?)
       && (r.Ok? ==> r.value.patcher == null && |r.value.snapshots| == 1))
    ensures kind == Inline ==>
      (r.Ok? <==> InlineLoad(old(disk.files), snapshotPath, targetPath, ms).Ok?)
      && (r.Ok? ==> r.value.snapshots == InlineLoad(old(disk.files), snapshotPath, targetPath, ms).value.kept)
  {
    if kind == External {
      r := LoadExternal(disk, snapshotPath, targetPath);
    } else {
      r := LoadInline(disk, snapshotPath, targetPath, ms);
    }
  }

  // ---------------------------------------------------------------------
  // Committing an Inline container.

  /// The state of the commit loop: the patcher's lines and entries, the
  /// entries to queue again, and whether anything was accepted or skipped.
  datatype CommitState<Snap> = CommitState(
    lines: seq<string>,
    entries: seq<IP.InlineSnapshot>,
    pending: seq<Pending<Snap>>,
    didAccept: bool,
    didSkip: bool)

  function Start<Snap>(lines: seq<string>, entries: seq<IP.InlineSnapshot>): CommitState<Snap>
  {
    CommitState(lines, entries, [], false, false)
  }

  /// Accept: the new contents, which must be text, go to the patcher's
  /// entry `idx`.  With `splice` the literal's lines are replaced and the
  /// later entries move by the signed change in line count (the corrected
  /// `set_new_content`); without it the lines stay as they are and the
  /// entries from `idx` on move by the unsigned difference, as
  /// `set_new_content` of cargo-insta/src/inline.rs does.
  function AcceptStep<Snap>(splice: bool, st: CommitState<Snap>, idx: nat, text: Option<L.SnapshotContents>)
    : Result<CommitState<Snap>, Error>
  {
    if text.None? then Err(NotText)
    else if !splice then
      match IP.LineShift(st.lines, st.entries, idx, text.value)
      case Err(e) => Err(Patch(e))
      case Ok(d) =>
        Ok(st.(entries := st.entries[..idx] + IP.ShiftAll(st.entries[idx..], d), didAccept := true))
    else
      match IP.SpliceCheck(st.lines, st.entries, idx, text.value)
      case Err(e) => Err(Patch(e))
      case Ok(_) =>
        var e := st.entries[idx];
        Ok(st.(lines := IP.Spliced(st.lines, e, text.value),
               entries := st.entries[..idx + 1]
                 + IP.ShiftAllBy(st.entries[idx + 1..], IP.LineDelta(st.lines, e, text.value)),
               didAccept := true))
  }

  /// Skip: the entry is queued again, at the line its literal now starts
  /// on, 1-based and cast to `u32`.
  function SkipStep<Snap>(st: CommitState<Snap>, s: PendingSnapshot<Snap>, idx: nat, runId: string)
    : Result<CommitState<Snap>, Error>
  {
    if idx >= |st.entries| then Err(Patch(IP.OutOfRange))
    else
      var line := (st.entries[idx].start.0 + 1) % C.TWO_32;
      Ok(st.(pending := st.pending + [M.PendingInlineSnapshot(runId, line, Some(s.newSnapshot), s.oldSnapshot)],
             didSkip := true))
  }

  function CommitStep<Snap>(splice: bool, st: CommitState<Snap>, s: PendingSnapshot<Snap>, idx: nat,
                            textOf: Snap -> Option<L.SnapshotContents>, runId: string)
    : Result<CommitState<Snap>, Error>
  {
    match s.op
    case Accept => AcceptStep(splice, st, idx, textOf(s.newSnapshot))
    case Reject => Ok(st)
    case Skip => SkipStep(st, s, idx, runId)
  }

  /// The state of the commit loop after the first `n` snapshots.
  function CommitUpTo<Snap>(splice: bool, st0: CommitState<Snap>, snaps: seq<PendingSnapshot<Snap>>,
                            textOf: Snap -> Option<L.SnapshotContents>, runId: string, n: nat)
    : Result<CommitState<Snap>, Error>
    requires n <= |snaps|
  {
    if n == 0 then Ok(st0)
    else
      match CommitUpTo(splice, st0, snaps, textOf, runId, n - 1)
      case Err(e) => Err(e)
      case Ok(st) => CommitStep(splice, st, snaps[n - 1], n - 1, textOf, runId)
  }

  lemma {:induction false} CommitErrStays<Snap>(splice: bool, st0: CommitState<Snap>, snaps: seq<PendingSnapshot<Snap>>,
                                                textOf: Snap -> Option<L.SnapshotContents>, runId: string, k: nat, n: nat)
    requires k <= n <= |snaps|
    requires CommitUpTo(splice, st0, snaps, textOf, runId, k).Err?
    ensures CommitUpTo(splice, st0, snaps, textOf, runId, n) == CommitUpTo(splice, st0, snaps, textOf, runId, k)
    decreases n
  {
    if n > k {
      CommitErrStays(splice, st0, snaps, textOf, runId, k, n - 1);
      CommitErrNext(splice, st0, snaps, textOf, runId, n);
    }
  }

  lemma CommitErrNext<Snap>(splice: bool, st0: CommitState<Snap>, snaps: seq<PendingSnapshot<Snap>>,
                            textOf: Snap -> Option<L.SnapshotContents>, runId: string, n: nat)
    requires 0 < n <= |snaps|
    requires CommitUpTo(splice, st0, snaps, textOf, runId, n - 1).Err?
    ensures CommitUpTo(splice, st0, snaps, textOf, runId, n) == CommitUpTo(splice, st0, snaps, textOf, runId, n - 1)
  {
  }

  /// The files after the loop: the source is written when something was
  /// accepted; the pending file is rewritten when something was skipped,
  /// and removed otherwise.
  function CommitFiles<Snap>(files: Files<Snap>, snapshotPath: Paths.Path, targetPath: Paths.Path, st: CommitState<Snap>)
    : Result<Files<Snap>, Error>
  {
    var written := if st.didAccept then files[targetPath := SourceFile(Terminated(st.lines))] else files;
    if st.didSkip then Ok(SavedBatch(written, snapshotPath, st.pending))
    else Removed(written, snapshotPath)
  }

  function Done<T>(r: Result<T, Error>): Result<(), Error>
  {
    match r
    case Ok(_) => Ok(())
    case Err(e) => Err(e)
  }

  /// The contents the patcher writes for an accepted snapshot: text only.
  function InlineText(s: M.Snapshot): Option<L.SnapshotContents>
  {
    match s.snapshot
    case Text(t) => Some(L.SnapshotContents(t.contents))
    case Binary(_) => None
  }

  /// One turn of the commit loop on the patcher.
  method CommitEntry<Snap>(splice: bool, patcher: IP.FilePatcher, s: PendingSnapshot<Snap>, idx: nat, runId: string,
                           pending: seq<Pending<Snap>>, didAccept: bool, didSkip: bool,
                           textOf: Snap -> Option<L.SnapshotContents>)
    returns (r: Result<CommitState<Snap>, Error>)
    modifies patcher
    ensures r == CommitStep(splice, CommitState(old(patcher.lines), old(patcher.inlineSnapshots), pending, didAccept, didSkip),
                            s, idx, textOf, runId)
    ensures r.Ok? ==> patcher.lines == r.value.lines && patcher.inlineSnapshots == r.value.entries
  {
    if s.op == Accept {
      var text := textOf(s.newSnapshot);
      if text.None? {
        r := Err(NotText);
      } else {
        var done;
        if splice {
          done := patcher.SpliceNewContent(idx, text.value);
        } else {
          done := patcher.SetNewContent(idx, text.value);
        }
        if done.Err? {
          r := Err(Patch(done.error));
        } else {
          r := Ok(CommitState(patcher.lines, patcher.inlineSnapshots, pending, true, didSkip));
        }
      }
    } else if s.op == Skip {
      if idx >= |patcher.inlineSnapshots| {
        r := Err(Patch(IP.OutOfRange));
      } else {
        var line := patcher.GetNewLine(idx);
        var entry := M.PendingInlineSnapshot(runId, line % C.TWO_32, Some(s.newSnapshot), s.oldSnapshot);
        r := Ok(CommitState(patcher.lines, patcher.inlineSnapshots, pending + [entry], didAccept, true));
      }
    } else {
      r := Ok(CommitState(patcher.lines, patcher.inlineSnapshots, pending, didAccept, didSkip));
    }
  }

  /// The source file as the commit leaves it.
  function Written<Snap>(files: Files<Snap>, targetPath: Paths.Path, st: CommitState<Snap>): Files<Snap>
  {
    if st.didAccept then files[targetPath := SourceFile(Terminated(st.lines))] else files
  }

  /// The writes after the loop.
  method CommitWrites<Snap>(patcher: IP.FilePatcher, disk: Disk<Snap>, snapshotPath: Paths.Path, targetPath: Paths.Path,
                            st: CommitState<Snap>)
    returns (r: Result<(), Error>)
    requires patcher.lines == st.lines
    modifies disk
    ensures r == Done(CommitFiles(old(disk.files), snapshotPath, targetPath, st))
    ensures r.Ok? ==> disk.files == CommitFiles(old(disk.files), snapshotPath, targetPath, st).value
    ensures r.Err? ==> disk.files == Written(old(disk.files), targetPath, st)
  {
    if st.didAccept {
      var text := patcher.Save();
      disk.Write(targetPath, SourceFile(text));
    }
    assert disk.files == Written(old(disk.files), targetPath, st);
    if st.didSkip {
      disk.SaveBatch(snapshotPath, st.pending);
      r := Ok(());
    } else {
      r := disk.RemoveFile(snapshotPath);
    }
  }

  /// The commit loop over the patcher.
  method CommitLoop<Snap>(splice: bool, patcher: IP.FilePatcher, snaps: seq<PendingSnapshot<Snap>>, runId: string,
                          textOf: Snap -> Option<L.SnapshotContents>)
    returns (r: Result<CommitState<Snap>, Error>)
    modifies patcher
    ensures r == CommitUpTo(splice, Start(old(patcher.lines), old(patcher.inlineSnapshots)), snaps, textOf, runId, |snaps|)
    ensures r.Ok? ==> patcher.lines == r.value.lines && patcher.inlineSnapshots == r.value.entries
  {
    var st: CommitState<Snap> := Start(patcher.lines, patcher.inlineSnapshots);
    ghost var st0 := st;
    for idx := 0 to |snaps|
      invariant CommitUpTo(splice, st0, snaps, textOf, runId, idx) == Ok(st)
      invariant patcher.lines == st.lines && patcher.inlineSnapshots == st.entries
    {
      var next := CommitEntry(splice, patcher, snaps[idx], idx, runId, st.pending, st.didAccept, st.didSkip, textOf);
      CommitUpToSnoc(splice, st0, snaps, textOf, runId, idx + 1);
      if next.Err? {
        CommitErrStays(splice, st0, snaps, textOf, runId, idx + 1, |snaps|);
        return next;
      }
      st := next.value;
    }
    r := Ok(st);
  }

  /// `commit` of a container with a patcher.
  method CommitInline<Snap>(splice: bool, c: SnapshotContainer<Snap>, disk: Disk<Snap>, runId: string,
                            textOf: Snap -> Option<L.SnapshotContents>)
    returns (r: Result<(), Error>)
    requires c.patcher != null
    modifies disk, c.patcher
    ensures (disk.files, r) == InlineCommit(splice, old(disk.files), c.snapshotPath, c.targetPath,
                                            Start(old(c.patcher.lines), old(c.patcher.inlineSnapshots)),
                                            c.snapshots, runId, textOf)
    ensures var res := CommitUpTo(splice, Start(old(c.patcher.lines), old(c.patcher.inlineSnapshots)),
                                  c.snapshots, textOf, runId, |c.snapshots|);
      res.Ok? ==> c.patcher.lines == res.value.lines && c.patcher.inlineSnapshots == res.value.entries
  {
    var patcher := c.patcher;
    var snaps := c.snapshots;
    ghost var files0 := disk.files;
    ghost var st0 := Start<Snap>(patcher.lines, patcher.inlineSnapshots);
    var res := CommitLoop(splice, patcher, snaps, runId, textOf);
    assert res == CommitUpTo(splice, st0, snaps, textOf, runId, |snaps|);
    if res.Err? {
      r := Err(res.error);
    } else {
      r := CommitWrites(patcher, disk, c.snapshotPath, c.targetPath, res.value);
    }
    assert (disk.files, r) == InlineCommit(splice, files0, c.snapshotPath, c.targetPath, st0, snaps, runId, textOf);
  }

  /// The inline commit as a whole: the files it leaves and its result.
  function InlineCommit<Snap>(splice: bool, files: Files<Snap>, snapshotPath: Paths.Path, targetPath: Paths.Path,
                              st0: CommitState<Snap>, snaps: seq<PendingSnapshot<Snap>>, runId: string,
                              textOf: Snap -> Option<L.SnapshotContents>)
    : (Files<Snap>, Result<(), Error>)
  {
    match CommitUpTo(splice, st0, snaps, textOf, runId, |snaps|)
    case Err(e) => (files, Err(e))
    case Ok(st) =>
      match CommitFiles(files, snapshotPath, targetPath, st)
      case Ok(fs) => (fs, Ok(()))
      case Err(e) => (Written(files, targetPath, st), Err(e))
  }

  // ---------------------------------------------------------------------
  // Committing an External container.

  /// What `Snapshot::save` writes: the snapshot with its metadata trimmed.
  function Persisted(s: M.Snapshot): (r: M.Snapshot)
    ensures r.metadata.assertionLine.None?
    ensures r.(metadata := s.metadata) == s
  {
    s.(metadata := M.TrimForPersistence(s.metadata))
  }

  /// One snapshot of an External container: Accept reads the `.snap.new`
  /// file, saves it over the `.snap` file and removes it; Reject removes
  /// it; Skip leaves it.
  function ExternalStep(files: Files<M.Snapshot>, snapshotPath: Paths.Path, targetPath: Paths.Path, op: Operation)
    : Result<Files<M.Snapshot>, Error>
  {
    match op
    case Accept =>
      (match ReadSnapshot(files, snapshotPath)
       case Err(e) => Err(e)
       case Ok(sn) => Removed(files[targetPath := SnapFile(Persisted(sn))], snapshotPath))
    case Reject => Removed(files, snapshotPath)
    case Skip => Ok(files)
  }

  /// The files and the result after the first `n` snapshots; the first
  /// error ends the loop.
  function ExternalUpTo(files: Files<M.Snapshot>, snapshotPath: Paths.Path, targetPath: Paths.Path,
                        snaps: seq<PendingSnapshot<M.Snapshot>>, n: nat)
    : (Files<M.Snapshot>, Result<(), Error>)
    requires n <= |snaps|
  {
    if n == 0 then (files, Ok(()))
    else
      var (fs, r) := ExternalUpTo(files, snapshotPath, targetPath, snaps, n - 1);
      if r.Err? then (fs, r)
      else
        match ExternalStep(fs, snapshotPath, targetPath, snaps[n - 1].op)
        case Err(e) => (fs, Err(e))
        case Ok(next) => (next, Ok(()))
  }

  lemma {:induction false} ExternalErrStays(files: Files<M.Snapshot>, snapshotPath: Paths.Path, targetPath: Paths.Path,
                                            snaps: seq<PendingSnapshot<M.Snapshot>>, k: nat, n: nat)
    requires k <= n <= |snaps|
    requires ExternalUpTo(files, snapshotPath, targetPath, snaps, k).1.Err?
    ensures ExternalUpTo(files, snapshotPath, targetPath, snaps, n) == ExternalUpTo(files, snapshotPath, targetPath, snaps, k)
    decreases n
  {
    if n > k {
      ExternalErrStays(files, snapshotPath, targetPath, snaps, k, n - 1);
    }
  }

  /// One turn of the External commit loop on the disk.
  method ExternalEntry(disk: Disk<M.Snapshot>, snapshotPath: Paths.Path, targetPath: Paths.Path, op: Operation)
    returns (r: Result<(), Error>)
    modifies disk
    ensures r == Done(ExternalStep(old(disk.files), snapshotPath, targetPath, op))
    ensures r.Ok? ==> disk.files == ExternalStep(old(disk.files), snapshotPath, targetPath, op).value
    ensures r.Err? ==> disk.files == old(disk.files)
  {
    if op == Accept {
      var sn := ReadSnapshot(disk.files, snapshotPath);
      if sn.Err? {
        r := Err(sn.error);
      } else {
        disk.Write(targetPath, SnapFile(Persisted(sn.value)));
        r := disk.RemoveFile(snapshotPath);
        assert r.Ok?;
      }
    } else if op == Reject {
      r := disk.RemoveFile(snapshotPath);
    } else {
      r := Ok(());
    }
  }

  /// `commit` of a container without a patcher.
  method CommitExternal(c: SnapshotContainer<M.Snapshot>, disk: Disk<M.Snapshot>) returns (r: Result<(), Error>)
    modifies disk
    ensures (disk.files, r) == ExternalUpTo(old(disk.files), c.snapshotPath, c.targetPath, c.snapshots, |c.snapshots|)
  {
    var snaps := c.snapshots;
    for i := 0 to |snaps|
      invariant ExternalUpTo(old(disk.files), c.snapshotPath, c.targetPath, snaps, i) == (disk.files, Ok(()))
    {
      var step := ExternalEntry(disk, c.snapshotPath, c.targetPath, snaps[i].op);
      if step.Err? {
        ExternalErrStays(old(disk.files), c.snapshotPath, c.targetPath, snaps, i + 1, |snaps|);
        return step;
      }
    }
    r := Ok(());
  }

  /// `commit`: by whether the container has a patcher.  The inline loop
  /// splices with the corrected `set_new_content`, standing for the newer
  /// patcher API that container.rs calls.
  method Commit(c: SnapshotContainer<M.Snapshot>, disk: Disk<M.Snapshot>, runId: string) returns (r: Result<(), Error>)
    modifies disk, c.patcher
    ensures c.patcher == null ==>
      (disk.files, r) == ExternalUpTo(old(disk.files), c.snapshotPath, c.targetPath, c.snapshots, |c.snapshots|)
    ensures c.patcher != null ==>
      (disk.files, r) == InlineCommit(true, old(disk.files), c.snapshotPath, c.targetPath,
                                      Start(old(c.patcher.lines), old(c.patcher.inlineSnapshots)),
                                      c.snapshots, runId, InlineText)
  {
    if c.patcher == null {
      r := CommitExternal(c, disk);
    } else {
      r := CommitInline(true, c, disk, runId, InlineText);
    }
  }

  // ---------------------------------------------------------------------
  // What a commit does.

  /// The snapshots among the first `n` that are skipped, in order.
  function Skipped<Snap>(snaps: seq<PendingSnapshot<Snap>>, n: nat): seq<PendingSnapshot<Snap>>
    requires n <= |snaps|
  {
    if n == 0 then []
    else Skipped(snaps, n - 1) + (if snaps[n - 1].op == Skip then [snaps[n - 1]] else [])
  }

  /// The pending entries written again stand for the skipped snapshots,
  /// one each, in order, all of run `runId`.
  ghost predicate Requeued<Snap>(pending: seq<Pending<Snap>>, skipped: seq<PendingSnapshot<Snap>>, runId: string)
  {
    |pending| == |skipped|
    && forall k :: 0 <= k < |pending| ==>
         pending[k].runId == runId && pending[k].newSnapshot == Some(skipped[k].newSnapshot)
         && pending[k].oldSnapshot == skipped[k].oldSnapshot
  }

  ghost predicate AnyAccepted<Snap>(snaps: seq<PendingSnapshot<Snap>>, n: nat)
  {
    exists i :: 0 <= i < n && i < |snaps| && snaps[i].op == Accept
  }

  /// A commit loop that gets through records every skipped snapshot for
  /// the next run, sets `didSkip` exactly when there is one and
  /// `didAccept` exactly when a snapshot was accepted, and keeps one entry
  /// per recorded literal.
  /// What the loop state records after the snapshots `skipped` were
  /// skipped and, exactly when `accepted`, one was accepted.
  ghost predicate Records<Snap>(st: CommitState<Snap>, skipped: seq<PendingSnapshot<Snap>>, accepted: bool,
                                runId: string, count: nat)
  {
    Requeued(st.pending, skipped, runId) && (st.didSkip <==> skipped != []) && (st.didAccept <==> accepted)
    && |st.entries| == count
  }

  lemma {:induction false} CommitRecords<Snap>(splice: bool, st0: CommitState<Snap>, snaps: seq<PendingSnapshot<Snap>>,
                                               textOf: Snap -> Option<L.SnapshotContents>,
                                               runId: string, n: nat, count: nat)
    requires n <= |snaps|
    requires Records(st0, [], false, runId, count)
    requires CommitUpTo(splice, st0, snaps, textOf, runId, n).Ok?
    ensures Records(CommitUpTo(splice, st0, snaps, textOf, runId, n).value, Skipped(snaps, n), AnyAccepted(snaps, n), runId, count)
  {
    if n > 0 {
      UpToOkBefore(splice, st0, snaps, textOf, runId, n);
      CommitRecords(splice, st0, snaps, textOf, runId, n - 1, count);
      var pst := CommitUpTo(splice, st0, snaps, textOf, runId, n - 1).value;
      CommitUpToSnoc(splice, st0, snaps, textOf, runId, n);
      RecordStep(splice, pst, snaps[n - 1], n - 1, textOf, runId, Skipped(snaps, n - 1), AnyAccepted(snaps, n - 1), count);
      AnyAcceptedSnoc(snaps, n);
      SkippedSnoc(snaps, n);
    }
  }

  lemma {:induction false} UpToOkBefore<Snap>(splice: bool, st0: CommitState<Snap>, snaps: seq<PendingSnapshot<Snap>>,
                                              textOf: Snap -> Option<L.SnapshotContents>, runId: string, n: nat)
    requires 0 < n <= |snaps|
    requires CommitUpTo(splice, st0, snaps, textOf, runId, n).Ok?
    ensures CommitUpTo(splice, st0, snaps, textOf, runId, n - 1).Ok?
  {
  }

  lemma SkippedSnoc<Snap>(snaps: seq<PendingSnapshot<Snap>>, n: nat)
    requires 0 < n <= |snaps|
    ensures Skipped(snaps, n) == Skipped(snaps, n - 1) + (if snaps[n - 1].op == Skip then [snaps[n - 1]] else [])
  {
  }

  lemma AnyAcceptedSnoc<Snap>(snaps: seq<PendingSnapshot<Snap>>, n: nat)
    requires 0 < n <= |snaps|
    ensures AnyAccepted(snaps, n) <==> AnyAccepted(snaps, n - 1) || snaps[n - 1].op == Accept
  {
    if AnyAccepted(snaps, n) && snaps[n - 1].op != Accept {
      var i :| 0 <= i < n && i < |snaps| && snaps[i].op == Accept;
      assert i < n - 1;
    }
  }

  lemma {:induction false} RecordStep<Snap>(splice: bool, st: CommitState<Snap>, s: PendingSnapshot<Snap>, idx: nat,
                                            textOf: Snap -> Option<L.SnapshotContents>, runId: string,
                                            skipped: seq<PendingSnapshot<Snap>>, accepted: bool, count: nat)
    requires Records(st, skipped, accepted, runId, count)
    requires CommitStep(splice, st, s, idx, textOf, runId).Ok?
    ensures Records(CommitStep(splice, st, s, idx, textOf, runId).value, skipped + (if s.op == Skip then [s] else []),
                    accepted || s.op == Accept, runId, count)
  {
    var next := CommitStep(splice, st, s, idx, textOf, runId).value;
    if s.op == Skip {
      var sk := skipped + [s];
      assert next.pending[..|st.pending|] == st.pending;
      forall k | 0 <= k < |next.pending|
        ensures next.pending[k].runId == runId && next.pending[k].newSnapshot == Some(sk[k].newSnapshot)
          && next.pending[k].oldSnapshot == sk[k].oldSnapshot
      {
        if k < |st.pending| {
          assert next.pending[k] == st.pending[k] && sk[k] == skipped[k];
        }
      }
    } else {
      if s.op == Accept { AcceptFrame(splice, st, idx, textOf(s.newSnapshot)); }
      assert skipped + [] == skipped;
    }
  }

  /// An accept keeps the queue, the skip flag and the number of entries.
  lemma AcceptFrame<Snap>(splice: bool, st: CommitState<Snap>, idx: nat, text: Option<L.SnapshotContents>)
    requires AcceptStep(splice, st, idx, text).Ok?
    ensures var next := AcceptStep(splice, st, idx, text).value;
      next.pending == st.pending && next.didSkip == st.didSkip && next.didAccept && |next.entries| == |st.entries|
  {
  }

  /// Rejecting everything changes nothing in the patcher.
  lemma {:induction false} AllRejectedKeepsState<Snap>(splice: bool, st0: CommitState<Snap>, snaps: seq<PendingSnapshot<Snap>>,
                                                       textOf: Snap -> Option<L.SnapshotContents>, runId: string, n: nat)
    requires n <= |snaps|
    requires forall i :: 0 <= i < n ==> snaps[i].op == Reject
    ensures CommitUpTo(splice, st0, snaps, textOf, runId, n) == Ok(st0)
  {
    if n > 0 {
      AllRejectedKeepsState(splice, st0, snaps, textOf, runId, n - 1);
    }
  }

  /// What a successful inline commit leaves on disk: the pending file
  /// holds exactly the skipped snapshots, as the next load reads them back,
  /// or is gone when none was skipped; the source file is rewritten exactly
  /// when a snapshot was accepted; no other file changes.
  ghost predicate InlineOutcome<Snap>(files: Files<Snap>, fs: Files<Snap>, snapshotPath: Paths.Path, targetPath: Paths.Path,
                                      skipped: seq<PendingSnapshot<Snap>>, accepted: bool, runId: string)
  {
    (skipped == [] ==> snapshotPath !in fs)
    && (skipped != [] ==> LoadBatch(fs, snapshotPath).Ok? && Requeued(LoadBatch(fs, snapshotPath).value, skipped, runId))
    && (accepted ==> targetPath in fs && fs[targetPath].SourceFile?)
    && (!accepted ==> (targetPath in fs <==> targetPath in files) && (targetPath in files ==> fs[targetPath] == files[targetPath]))
    && (forall q :: q != snapshotPath && q != targetPath ==> (q in fs <==> q in files) && (q in fs ==> fs[q] == files[q]))
  }

  lemma {:induction false} InlineCommitOutcome<Snap>(splice: bool, files: Files<Snap>, snapshotPath: Paths.Path, targetPath: Paths.Path,
                                                     lines: seq<string>, entries: seq<IP.InlineSnapshot>,
                                                     snaps: seq<PendingSnapshot<Snap>>, runId: string,
                                                     textOf: Snap -> Option<L.SnapshotContents>)
    requires snapshotPath != targetPath
    requires InlineCommit(splice, files, snapshotPath, targetPath, Start(lines, entries), snaps, runId, textOf).1.Ok?
    ensures InlineOutcome(files, InlineCommit(splice, files, snapshotPath, targetPath, Start(lines, entries), snaps, runId, textOf).0,
                          snapshotPath, targetPath, Skipped(snaps, |snaps|), AnyAccepted(snaps, |snaps|), runId)
  {
    var st0 := Start(lines, entries);
    var res := CommitUpTo(splice, st0, snaps, textOf, runId, |snaps|);
    assert res.Ok?;
    CommitRecords(splice, st0, snaps, textOf, runId, |snaps|, |entries|);
    CommitFilesOutcome(files, snapshotPath, targetPath, res.value, Skipped(snaps, |snaps|), AnyAccepted(snaps, |snaps|),
                       runId, |entries|);
  }

  lemma {:induction false} CommitFilesOutcome<Snap>(files: Files<Snap>, snapshotPath: Paths.Path, targetPath: Paths.Path,
                                                    st: CommitState<Snap>, skipped: seq<PendingSnapshot<Snap>>,
                                                    accepted: bool, runId: string, count: nat)
    requires snapshotPath != targetPath
    requires Records(st, skipped, accepted, runId, count)
    requires CommitFiles(files, snapshotPath, targetPath, st).Ok?
    ensures InlineOutcome(files, CommitFiles(files, snapshotPath, targetPath, st).value, snapshotPath, targetPath,
                          skipped, accepted, runId)
  {
    if st.didSkip {
      var ps := st.pending;
      assert forall k :: 0 <= k < |ps| ==> ps[k].runId == runId;
      assert ps[|ps| - 1].runId == runId;
      M.KeepRunKeepAll(ps, runId);
      assert M.LastRun(ps) == ps;
    }
  }

  /// Every accepted snapshot has text to write.
  ghost predicate TextForAccepts<Snap>(snaps: seq<PendingSnapshot<Snap>>, textOf: Snap -> Option<L.SnapshotContents>)
  {
    forall i :: 0 <= i < |snaps| && snaps[i].op == Accept ==> textOf(snaps[i].newSnapshot).Some?
  }

  /// The loop state keeps one entry per literal and the entries from `n`
  /// on placed in its lines.
  ghost predicate PlacedFrom<Snap>(r: Result<CommitState<Snap>, Error>, count: nat, n: nat)
  {
    r.Ok? && |r.value.entries| == count && IP.Placed(r.value.lines, r.value.entries, n)
  }

  lemma CommitUpToSnoc<Snap>(splice: bool, st0: CommitState<Snap>, snaps: seq<PendingSnapshot<Snap>>,
                             textOf: Snap -> Option<L.SnapshotContents>, runId: string, n: nat)
    requires 0 < n <= |snaps|
    requires CommitUpTo(splice, st0, snaps, textOf, runId, n - 1).Ok?
    ensures CommitUpTo(splice, st0, snaps, textOf, runId, n)
      == CommitStep(splice, CommitUpTo(splice, st0, snaps, textOf, runId, n - 1).value, snaps[n - 1], n - 1, textOf, runId)
  {
  }

  /// With `set_new_content` as written the commit loop never changes the
  /// patcher's lines, whatever it accepts.
  lemma {:induction false} AsWrittenKeepsLines<Snap>(st0: CommitState<Snap>, snaps: seq<PendingSnapshot<Snap>>,
                                                     textOf: Snap -> Option<L.SnapshotContents>, runId: string, n: nat)
    requires n <= |snaps|
    requires CommitUpTo(false, st0, snaps, textOf, runId, n).Ok?
    ensures CommitUpTo(false, st0, snaps, textOf, runId, n).value.lines == st0.lines
  {
    if n > 0 {
      UpToOkBefore(false, st0, snaps, textOf, runId, n);
      AsWrittenKeepsLines(st0, snaps, textOf, runId, n - 1);
      CommitUpToSnoc(false, st0, snaps, textOf, runId, n);
    }
  }

  /// Entries placed in the source and text at hand for each Accept: the
  /// corrected commit loop never fails, and the entries not yet visited
  /// stay placed in the patched lines.
  lemma {:induction false} PlacedCommitSucceeds<Snap>(lines: seq<string>, entries: seq<IP.InlineSnapshot>,
                                                      snaps: seq<PendingSnapshot<Snap>>, textOf: Snap -> Option<L.SnapshotContents>,
                                                      runId: string, n: nat)
    requires IP.Placed(lines, entries, 0) && n <= |snaps| <= |entries|
    requires TextForAccepts(snaps, textOf)
    ensures PlacedFrom(CommitUpTo(true, Start(lines, entries), snaps, textOf, runId, n), |entries|, n)
  {
    if n > 0 {
      PlacedCommitSucceeds(lines, entries, snaps, textOf, runId, n - 1);
      var st := CommitUpTo(true, Start(lines, entries), snaps, textOf, runId, n - 1).value;
      var s := snaps[n - 1];
      assert s.op == Accept ==> textOf(s.newSnapshot).Some?;
      PlacedStep(st, s, n - 1, textOf, runId);
      CommitUpToSnoc(true, Start(lines, entries), snaps, textOf, runId, n);
    }
  }

  lemma {:induction false} PlacedStep<Snap>(st: CommitState<Snap>, s: PendingSnapshot<Snap>, idx: nat,
                                            textOf: Snap -> Option<L.SnapshotContents>, runId: string)
    requires IP.Placed(st.lines, st.entries, idx) && idx < |st.entries|
    requires s.op == Accept ==> textOf(s.newSnapshot).Some?
    ensures PlacedFrom(CommitStep(true, st, s, idx, textOf, runId), |st.entries|, idx + 1)
  {
    if s.op == Accept {
      IP.SpliceKeepsPlaced(st.lines, st.entries, idx, textOf(s.newSnapshot).value);
    }
  }

  /// An External commit touches only the two files; the `.snap.new` file
  /// survives a successful commit exactly when every operation was Skip;
  /// once accepted, the `.snap` file holds the new snapshot without its
  /// assertion line.
  lemma {:induction false} ExternalCommitOutcome(files: Files<M.Snapshot>, snapshotPath: Paths.Path, targetPath: Paths.Path,
                                                 snaps: seq<PendingSnapshot<M.Snapshot>>, n: nat)
    requires n <= |snaps|
    requires snapshotPath != targetPath
    ensures var (fs, r) := ExternalUpTo(files, snapshotPath, targetPath, snaps, n);
      (forall q :: q != snapshotPath && q != targetPath ==> (q in fs <==> q in files) && (q in fs ==> fs[q] == files[q]))
      && (r.Ok? ==> (snapshotPath in fs <==> snapshotPath in files && forall i :: 0 <= i < n ==> snaps[i].op == Skip))
      && (r.Ok? && snapshotPath in files && files[snapshotPath].SnapFile? && 0 < n && snaps[0].op == Accept ==>
            targetPath in fs && fs[targetPath] == SnapFile(Persisted(files[snapshotPath].snapshot)))
  {
    if n > 0 {
      ExternalCommitOutcome(files, snapshotPath, targetPath, snaps, n - 1);
      var (fs, r) := ExternalUpTo(files, snapshotPath, targetPath, snaps, n - 1);
      if r.Ok? {
        var op := snaps[n - 1].op;
        var step := ExternalStep(fs, snapshotPath, targetPath, op);
        if step.Ok? && op != Skip {
          assert snapshotPath !in step.value;
        }
        if n == 1 && step.Ok? && op == Accept {
          assert fs == files;
        }
      }
    }
  }
}
