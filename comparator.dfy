// The default snapshot comparator (insta/src/comparator.rs): by default two
// snapshots match when their contents are equal and they have the same
// snapshot kind; under `require_full_match` text snapshots are compared by
// the latest normal form only, and file snapshots also need equal persisted
// metadata.
module Comparator {
  import opened Wrappers
  import opened Strs
  import S = Snapshot
  import M = SnapshotMeta
  import E = Env

  /// `DefaultComparator::matches`.  Its two rules are the snapshot's own
  /// `matches` and `matches_fully`, which the comparator repeats verbatim.
  predicate DefaultMatches(cfg: E.ToolConfig, reference: M.Snapshot, test: M.Snapshot)
  {
    if cfg.requireFullMatch then M.MatchesFully(reference, test) else M.Matches(reference, test)
  }

  /// A snapshot matches itself under either rule.
  lemma {:induction false} IdenticalSnapshotsMatch(cfg: E.ToolConfig, a: M.Snapshot)
    ensures DefaultMatches(cfg, a, a)
    ensures DefaultMatches(cfg.(requireFullMatch := !cfg.requireFullMatch), a, a)
  {
    S.ContentsEqSymmetric(a.snapshot, a.snapshot);
    if a.snapshot.Text? {
      assert S.MatchesLatest(a.snapshot.text, a.snapshot.text);
    }
  }

  /// A one-line text in normal form, stored as a file snapshot, matches the
  /// same text as an inline snapshot with a different description by
  /// default, but not under a full match: there the file snapshot's
  /// persisted metadata must agree.
  lemma {:induction false} DescriptionDecidesFullMatchOnly(cfg: E.ToolConfig, text: string, m: M.MetaData, d: string)
    requires '\n' !in text && '\r' !in text
    requires text == [] || !IsWhitespace(text[|text| - 1])
    requires m.description != Some(d)
    ensures var a := M.Snapshot("test", None, m, S.Text(S.TextSnapshotContents(text, S.File)));
      var b := M.Snapshot("test", None, m.(description := Some(d)), S.Text(S.TextSnapshotContents(text, S.Inline)));
      DefaultMatches(cfg.(requireFullMatch := false), a, b) && !DefaultMatches(cfg.(requireFullMatch := true), a, b)
  {
    var x := S.TextSnapshotContents(text, S.File);
    var y := S.TextSnapshotContents(text, S.Inline);
    S.NormalizeFileFixed(text);
    S.NormalizeInlineOneLine(text);
    assert S.MatchesLatest(x, y);
    var b := m.(description := Some(d));
    assert M.TrimForPersistence(m).description != M.TrimForPersistence(b).description;
  }

  /// Unless the reference is an inline text snapshot, a full match is also
  /// a default match: the stricter rule only adds requirements.
  lemma {:induction false} FullMatchIsStricter(cfg: E.ToolConfig, reference: M.Snapshot, test: M.Snapshot)
    requires !(reference.snapshot.Text? && test.snapshot.Text? && reference.snapshot.text.kind == S.Inline)
    ensures DefaultMatches(cfg.(requireFullMatch := true), reference, test)
      ==> DefaultMatches(cfg.(requireFullMatch := false), reference, test)
  {
    M.MatchesFullyMatches(reference, test);
  }
}
