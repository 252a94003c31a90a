// The older generation's containers (cargo-insta/src/cargo.rs,
// `PendingSnapshot` and `SnapshotContainer`): the same shape as the
// current one over the older snapshot type.  It differs in three places:
// an Inline load keeps every entry with a new snapshot and fails when the
// patcher finds no macro for one; it does not open a patcher when the
// source file is missing; and accepting an External snapshot renames the
// `.snap.new` file over the `.snap` file.
module CargoContainer {
  import opened Wrappers
  import opened Strs
  import Paths
  import C = Contents
  import L = LegacySnapshot
  import IP = InlinePatcher
  import Sorting
  import K = Container
  import LD = Loader

  type Snap = LD.Snapshot

  /// `PendingSnapshot::summary`, over the older snapshot.
  method Summary(p: K.PendingSnapshot<Snap>) returns (rv: string)
    ensures rv == K.SummaryText(p.newSnapshot.metadata.source, p.line, p.newSnapshot.snapshotName)
  {
    rv := "";
    if p.newSnapshot.metadata.source.Some? {
      rv := rv + p.newSnapshot.metadata.source.value;
    }
    if p.line.Some? {
      rv := rv + ":" + NatToString(p.line.value);
    }
    if p.newSnapshot.snapshotName.Some? {
      rv := rv + " (" + p.newSnapshot.snapshotName.value + ")";
    }
  }

  // ---------------------------------------------------------------------
  // Loading an inline batch.

  /// What the load loop does with entry `id` of the sorted batch: an entry
  /// without a new snapshot is dropped; for the others the patcher must
  /// find a macro (it panics otherwise) and its ordering assertion must
  /// hold.
  function AdmitStep<S>(ms: seq<IP.Macro>, p: K.Pending<S>, id: nat,
                        kept: seq<K.PendingSnapshot<S>>, recorded: seq<IP.InlineSnapshot>)
    : Result<(seq<K.PendingSnapshot<S>>, seq<IP.InlineSnapshot>), IP.PatchError>
  {
    if p.newSnapshot.None? then Ok((kept, recorded))
    else
      var found := IP.LastQualifying(ms, p.line);
      if found.None? then Err(IP.NoSnapshotMacro)
      else if recorded != [] && recorded[|recorded| - 1].end.0 > p.line then Err(IP.OutOfOrder)
      else Ok((kept + [K.PendingSnapshot(id, p.oldSnapshot, p.newSnapshot.value, K.Skip, Some(p.line))],
               recorded + [found.value]))
  }

  function Admit<S>(ms: seq<IP.Macro>, ps: seq<K.Pending<S>>, n: nat)
    : Result<(seq<K.PendingSnapshot<S>>, seq<IP.InlineSnapshot>), IP.PatchError>
    requires n <= |ps|
  {
    if n == 0 then Ok(([], []))
    else
      match Admit(ms, ps, n - 1)
      case Err(e) => Err(e)
      case Ok(st) => AdmitStep(ms, ps[n - 1], n - 1, st.0, st.1)
  }

  lemma {:induction false} AdmitErrStays<S>(ms: seq<IP.Macro>, ps: seq<K.Pending<S>>, k: nat, n: nat)
    requires k <= n <= |ps|
    requires Admit(ms, ps, k).Err?
    ensures Admit(ms, ps, n) == Admit(ms, ps, k)
    decreases n
  {
    if n > k {
      AdmitErrStays(ms, ps, k, n - 1);
    }
  }

  /// Every entry among the first `n` that has a new snapshot has a macro.
  ghost predicate AllAdmissible<S>(ms: seq<IP.Macro>, ps: seq<K.Pending<S>>, n: nat)
  {
    forall i :: 0 <= i < n && i < |ps| && ps[i].newSnapshot.Some? ==> K.Admissible(ms, ps[i])
  }

  /// Where every entry with a new snapshot has its macro, the two
  /// generations' loads keep the same entries; elsewhere the older one
  /// fails.
  lemma {:induction false} AdmitAgrees<S>(ms: seq<IP.Macro>, ps: seq<K.Pending<S>>, n: nat)
    requires n <= |ps|
    ensures Admit(ms, ps, n).Ok? <==> AllAdmissible(ms, ps, n) && K.Admit(ms, ps, n).Ok?
    ensures Admit(ms, ps, n).Ok? ==> Admit(ms, ps, n) == K.Admit(ms, ps, n)
  {
    if n > 0 {
      AdmitAgrees(ms, ps, n - 1);
      var p := ps[n - 1];
      if Admit(ms, ps, n - 1).Ok? {
        if p.newSnapshot.Some? && !K.Admissible(ms, p) {
          assert Admit(ms, ps, n).Err?;
        }
      } else {
        assert !AllAdmissible(ms, ps, n - 1) || K.Admit(ms, ps, n - 1).Err?;
        if !AllAdmissible(ms, ps, n - 1) {
          var i :| 0 <= i < n - 1 && i < |ps| && ps[i].newSnapshot.Some? && !K.Admissible(ms, ps[i]);
          assert !AllAdmissible(ms, ps, n);
        } else {
          K.AdmitErrStays(ms, ps, n - 1, n);
        }
      }
      if AllAdmissible(ms, ps, n) {
        assert AllAdmissible(ms, ps, n - 1);
      }
    }
  }

  /// So a successful older load keeps every entry with a new snapshot, in
  /// batch order, each aligned with the patcher's entry at its index.
  lemma {:induction false} AdmitKeepsAllNew<S>(ms: seq<IP.Macro>, ps: seq<K.Pending<S>>)
    requires Admit(ms, ps, |ps|).Ok?
    ensures var (kept, rec) := Admit(ms, ps, |ps|).value;
      |kept| == |rec| && K.Ids(kept) == K.AdmissibleIds(ms, ps, |ps|)
      && (forall i :: 0 <= i < |kept| ==> K.KeptFrom(ms, ps, kept[i], rec[i]))
      && (forall i :: 0 <= i < |ps| && ps[i].newSnapshot.Some? ==> K.Admissible(ms, ps[i]))
  {
    AdmitAgrees(ms, ps, |ps|);
    K.AdmitAligned(ms, ps, |ps|);
  }

  /// What the load finds: without a source file nothing is loaded.
  function InlineLoad(files: K.Files<Snap>, snapshotPath: Paths.Path, targetPath: Paths.Path, ms: seq<IP.Macro>)
    : Result<K.InlineLoaded<Snap>, K.Error>
  {
    match K.LoadBatch(files, snapshotPath)
    case Err(e) => Err(e)
    case Ok(batch) =>
      if targetPath !in files then Ok(K.InlineLoaded(None, [], []))
      else
        match K.ReadSource(files, targetPath)
        case Err(e) => Err(e)
        case Ok(text) =>
          match Admit(ms, Sorting.SortBy(batch, K.ByLine), |batch|)
          case Err(e) => Err(K.Patch(e))
          case Ok(st) => Ok(K.InlineLoaded(Some(text), st.0, st.1))
  }

  method AdmitAll(patcher: IP.FilePatcher, ps: seq<K.Pending<Snap>>)
    returns (r: Result<seq<K.PendingSnapshot<Snap>>, IP.PatchError>)
    requires patcher.inlineSnapshots == []
    modifies patcher
    ensures patcher.lines == old(patcher.lines) && patcher.newline == old(patcher.newline)
    ensures patcher.macros == old(patcher.macros)
    ensures r.Ok? <==> Admit(patcher.macros, ps, |ps|).Ok?
    ensures r.Ok? ==> Admit(patcher.macros, ps, |ps|).value == (r.value, patcher.inlineSnapshots)
    ensures r.Err? ==> Admit(patcher.macros, ps, |ps|).error == r.error
  {
    var kept := [];
    for id := 0 to |ps|
      invariant patcher.lines == old(patcher.lines) && patcher.newline == old(patcher.newline)
      invariant patcher.macros == old(patcher.macros)
      invariant Admit(patcher.macros, ps, id) == Ok((kept, patcher.inlineSnapshots))
    {
      var p := ps[id];
      if p.newSnapshot.Some? {
        kept := kept + [K.PendingSnapshot(id, p.oldSnapshot, p.newSnapshot.value, K.Skip, Some(p.line))];
        var added := patcher.AddSnapshotMacro(p.line);
        if added.Err? {
          AdmitErrStays(patcher.macros, ps, id + 1, |ps|);
          return Err(added.error);
        }
      }
    }
    r := Ok(kept);
  }

  /// `load` of an Inline container.
  method LoadInline(disk: K.Disk<Snap>, snapshotPath: Paths.Path, targetPath: Paths.Path, ms: seq<IP.Macro>)
    returns (r: Result<K.SnapshotContainer<Snap>, K.Error>)
    modifies disk
    ensures r.Ok? <==> InlineLoad(old(disk.files), snapshotPath, targetPath, ms).Ok?
    ensures r.Err? ==>
      r.error == InlineLoad(old(disk.files), snapshotPath, targetPath, ms).error && disk.files == old(disk.files)
    ensures r.Ok? ==>
      var loaded := InlineLoad(old(disk.files), snapshotPath, targetPath, ms).value;
      fresh(r.value) && r.value.kind == K.Inline
      && r.value.snapshotPath == snapshotPath && r.value.targetPath == targetPath
      && r.value.snapshots == loaded.kept
      && disk.files == (if loaded.kept == [] then old(disk.files) - {snapshotPath} else old(disk.files))
      && (r.value.patcher == null <==> loaded.source.None?)
      && (r.value.patcher != null ==>
            fresh(r.value.patcher)
            && r.value.patcher.lines == Lines(loaded.source.value)
            && r.value.patcher.macros == ms
            && r.value.patcher.inlineSnapshots == loaded.recorded)
  {
    var batch := K.LoadBatch(disk.files, snapshotPath);
    if batch.Err? {
      return Err(batch.error);
    }
    var kept: seq<K.PendingSnapshot<Snap>> := [];
    var patcher: IP.FilePatcher? := null;
    if targetPath in disk.files {
      var text := K.ReadSource(disk.files, targetPath);
      if text.Err? {
        return Err(text.error);
      }
      var p := new IP.FilePatcher.Open(text.value, ms);
      var sorted := Sorting.SortBy(batch.value, K.ByLine);
      var admitted := AdmitAll(p, sorted);
      if admitted.Err? {
        return Err(K.Patch(admitted.error));
      }
      kept := admitted.value;
      patcher := p;
    }
    if kept == [] {
      // The batch was just read, so removing it cannot fail.
      var removed := disk.RemoveFile(snapshotPath);
      assert removed.Ok?;
    }
    var c := new K.SnapshotContainer(snapshotPath, targetPath, K.Inline, kept, patcher);
    r := Ok(c);
  }

  /// `load`: External as in the current generation, Inline as above.
  method Load(disk: K.Disk<Snap>, snapshotPath: Paths.Path, targetPath: Paths.Path, kind: K.Kind, ms: seq<IP.Macro>)
    returns (r: Result<K.SnapshotContainer<Snap>, K.Error>)
    modifies disk
    ensures r.Ok? ==> fresh(r.value) && r.value.kind == kind
    ensures kind == K.External ==>
      (disk.files == old(disk.files)
       && (r.Ok? <==> (targetPath !in disk.files || disk.files[targetPath].SnapFile?)
                      && K.ReadSnapshot(disk.files, snapshotPath).Ok?)
       && (r.Ok? ==> r.value.patcher == null && |r.value.snapshots| == 1))
    ensures kind == K.Inline ==>
      (r.Ok? <==> InlineLoad(old(disk.files), snapshotPath, targetPath, ms).Ok?)
      && (r.Ok? ==> r.value.snapshots == InlineLoad(old(disk.files), snapshotPath, targetPath, ms).value.kept)
  {
    if kind == K.External {
      r := K.LoadExternal(disk, snapshotPath, targetPath);
    } else {
      r := LoadInline(disk, snapshotPath, targetPath, ms);
    }
  }

  // ---------------------------------------------------------------------
  // Committing.

  /// The older contents are always text.
  function TextOf(s: Snap): (r: Option<L.SnapshotContents>)
    ensures r == Some(s.contents)
  {
    Some(s.contents)
  }

  /// One snapshot of a container without a patcher: Accept renames the
  /// `.snap.new` file over the `.snap` file, Reject removes it, Skip
  /// leaves it.
  function RenameStep(files: K.Files<Snap>, snapshotPath: Paths.Path, targetPath: Paths.Path, op: K.Operation)
    : Result<K.Files<Snap>, K.Error>
  {
    match op
    case Accept => K.Renamed(files, snapshotPath, targetPath)
    case Reject => K.Removed(files, snapshotPath)
    case Skip => Ok(files)
  }

  function RenameUpTo(files: K.Files<Snap>, snapshotPath: Paths.Path, targetPath: Paths.Path,
                      snaps: seq<K.PendingSnapshot<Snap>>, n: nat)
    : (K.Files<Snap>, Result<(), K.Error>)
    requires n <= |snaps|
  {
    if n == 0 then (files, Ok(()))
    else
      var (fs, r) := RenameUpTo(files, snapshotPath, targetPath, snaps, n - 1);
      if r.Err? then (fs, r)
      else
        match RenameStep(fs, snapshotPath, targetPath, snaps[n - 1].op)
        case Err(e) => (fs, Err(e))
        case Ok(next) => (next, Ok(()))
  }

  lemma {:induction false} RenameErrStays(files: K.Files<Snap>, snapshotPath: Paths.Path, targetPath: Paths.Path,
                                          snaps: seq<K.PendingSnapshot<Snap>>, k: nat, n: nat)
    requires k <= n <= |snaps|
    requires RenameUpTo(files, snapshotPath, targetPath, snaps, k).1.Err?
    ensures RenameUpTo(files, snapshotPath, targetPath, snaps, n) == RenameUpTo(files, snapshotPath, targetPath, snaps, k)
    decreases n
  {
    if n > k {
      RenameErrStays(files, snapshotPath, targetPath, snaps, k, n - 1);
    }
  }

  method RenameEntry(disk: K.Disk<Snap>, snapshotPath: Paths.Path, targetPath: Paths.Path, op: K.Operation)
    returns (r: Result<(), K.Error>)
    modifies disk
    ensures r == K.Done(RenameStep(old(disk.files), snapshotPath, targetPath, op))
    ensures r.Ok? ==> disk.files == RenameStep(old(disk.files), snapshotPath, targetPath, op).value
    ensures r.Err? ==> disk.files == old(disk.files)
  {
    if op == K.Accept {
      r := disk.Rename(snapshotPath, targetPath);
    } else if op == K.Reject {
      r := disk.RemoveFile(snapshotPath);
    } else {
      r := Ok(());
    }
  }

  method CommitExternal(c: K.SnapshotContainer<Snap>, disk: K.Disk<Snap>) returns (r: Result<(), K.Error>)
    modifies disk
    ensures (disk.files, r) == RenameUpTo(old(disk.files), c.snapshotPath, c.targetPath, c.snapshots, |c.snapshots|)
  {
    var snaps := c.snapshots;
    for i := 0 to |snaps|
      invariant RenameUpTo(old(disk.files), c.snapshotPath, c.targetPath, snaps, i) == (disk.files, Ok(()))
    {
      var step := RenameEntry(disk, c.snapshotPath, c.targetPath, snaps[i].op);
      if step.Err? {
        RenameErrStays(old(disk.files), c.snapshotPath, c.targetPath, snaps, i + 1, |snaps|);
        return step;
      }
    }
    r := Ok(());
  }

  /// `commit`: the inline loop is the current generation's, with
  /// `set_new_content` as written, so an accepted literal moves the later
  /// entries but is never written into the lines; without a patcher,
  /// renames.
  method Commit(c: K.SnapshotContainer<Snap>, disk: K.Disk<Snap>, runId: string) returns (r: Result<(), K.Error>)
    modifies disk, c.patcher
    ensures c.patcher == null ==>
      (disk.files, r) == RenameUpTo(old(disk.files), c.snapshotPath, c.targetPath, c.snapshots, |c.snapshots|)
    ensures c.patcher != null ==>
      (disk.files, r) == K.InlineCommit(false, old(disk.files), c.snapshotPath, c.targetPath,
                                        K.Start(old(c.patcher.lines), old(c.patcher.inlineSnapshots)),
                                        c.snapshots, runId, TextOf)
  {
    if c.patcher == null {
      r := CommitExternal(c, disk);
    } else {
      r := K.CommitInline(false, c, disk, runId, TextOf);
    }
  }

  // ---------------------------------------------------------------------
  // What a commit does.

  /// Without a patcher the commit touches only the two files; the
  /// `.snap.new` file survives a successful commit exactly when every
  /// operation was Skip; once accepted, the `.snap` file holds the
  /// `.snap.new` file as it was, assertion line and all.
  lemma {:induction false} RenameCommitOutcome(files: K.Files<Snap>, snapshotPath: Paths.Path, targetPath: Paths.Path,
                                               snaps: seq<K.PendingSnapshot<Snap>>, n: nat)
    requires n <= |snaps|
    requires snapshotPath != targetPath
    ensures var (fs, r) := RenameUpTo(files, snapshotPath, targetPath, snaps, n);
      (forall q :: q != snapshotPath && q != targetPath ==> (q in fs <==> q in files) && (q in fs ==> fs[q] == files[q]))
      && (r.Ok? ==> (snapshotPath in fs <==> snapshotPath in files && forall i :: 0 <= i < n ==> snaps[i].op == K.Skip))
      && (r.Ok? && snapshotPath in files && 0 < n && snaps[0].op == K.Accept ==>
            targetPath in fs && fs[targetPath] == files[snapshotPath])
  {
    if n > 0 {
      RenameCommitOutcome(files, snapshotPath, targetPath, snaps, n - 1);
      var (fs, r) := RenameUpTo(files, snapshotPath, targetPath, snaps, n - 1);
      if r.Ok? {
        var op := snaps[n - 1].op;
        var step := RenameStep(fs, snapshotPath, targetPath, op);
        if step.Ok? && op != K.Skip {
          assert snapshotPath !in step.value;
        }
        if n == 1 && step.Ok? && op == K.Accept {
          assert fs == files;
        }
      }
    }
  }

  /// The older inline commit never meets binary contents: with the
  /// corrected patch and the patcher's entries placed in the source, it
  /// always succeeds.
  lemma PlacedCommitSucceeds(lines: seq<string>, entries: seq<IP.InlineSnapshot>,
                             snaps: seq<K.PendingSnapshot<Snap>>, runId: string)
    requires IP.Placed(lines, entries, 0) && |snaps| <= |entries|
    ensures K.CommitUpTo(true, K.Start(lines, entries), snaps, TextOf, runId, |snaps|).Ok?
  {
    assert K.TextForAccepts(snaps, TextOf);
    K.PlacedCommitSucceeds(lines, entries, snaps, TextOf, runId, |snaps|);
  }

  /// As written, a commit that accepts a snapshot and gets through writes
  /// the source file back with the lines it was loaded with: the accepted
  /// literals never reach it.
  lemma AcceptedLiteralsNeverWritten(files: K.Files<Snap>, snapshotPath: Paths.Path, targetPath: Paths.Path,
                                     lines: seq<string>, entries: seq<IP.InlineSnapshot>,
                                     snaps: seq<K.PendingSnapshot<Snap>>, runId: string)
    requires snapshotPath != targetPath
    requires K.InlineCommit(false, files, snapshotPath, targetPath, K.Start(lines, entries), snaps, runId, TextOf).1.Ok?
    requires K.AnyAccepted(snaps, |snaps|)
    ensures var fs := K.InlineCommit(false, files, snapshotPath, targetPath, K.Start(lines, entries), snaps, runId, TextOf).0;
      targetPath in fs && fs[targetPath] == K.SourceFile(Terminated(lines))
  {
    var st0: K.CommitState<Snap> := K.Start(lines, entries);
    assert K.CommitUpTo(false, st0, snaps, TextOf, runId, |snaps|).Ok?;
    K.CommitRecords(false, st0, snaps, TextOf, runId, |snaps|, |entries|);
    K.AsWrittenKeepsLines(st0, snaps, TextOf, runId, |snaps|);
  }
}
