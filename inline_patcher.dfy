// The patcher that writes accepted inline snapshots back into a source
// file (cargo-insta/src/inline.rs, older generation): it holds the file's
// lines, finds the `@` literal of the snapshot macro that covers a line,
// builds the replacement line around the new literal and shifts the
// recorded positions of the snapshots that follow.  Reading the file and
// parsing it are outside the model: the text and the macro invocations
// the syntax visitor meets, in visiting order, are given.
module InlinePatcher {
  import opened Wrappers
  import opened Strs
  import L = LegacySnapshot

  /// A source position as the parser reports it: lines from 1, columns
  /// from 0.
  type LineNo = n: int | n >= 1 witness 1

  datatype LineColumn = LineColumn(line: LineNo, column: nat)

  datatype TokenKind = Punct(ch: char) | Literal | Other

  datatype Token = Token(kind: TokenKind, start: LineColumn, end: LineColumn)

  /// A macro invocation: where it starts, how many segments its path has
  /// and its tokens.
  datatype Macro = Macro(start: LineColumn, pathSegments: nat, tokens: seq<Token>)

  /// The span of an inline snapshot's literal, lines from 0, and the
  /// column its macro starts at.
  datatype InlineSnapshot = InlineSnapshot(start: (nat, nat), end: (nat, nat), indentation: nat)

  datatype PatchError =
    | NoSnapshotMacro   // "Could not find snapshot in line"
    | OutOfOrder        // the ordering assertion of `add_snapshot_macro`
    | OutOfRange        // an index or slice beyond the lines
    | Overflow          // an unsigned subtraction below zero

  // ---------------------------------------------------------------------
  // Finding the snapshot macro.

  /// The line the macro ends on: that of its last token, or its start line
  /// when it has none.
  function EndLine(m: Macro): LineNo
  {
    if m.tokens == [] then m.start.line else m.tokens[|m.tokens| - 1].end.line
  }

  /// The visitor's test for one macro: it covers `line`, has a path, ends
  /// in `@` and a literal; the literal's span is then recorded.
  function Qualifying(m: Macro, line: nat): (r: Option<InlineSnapshot>)
    ensures r.Some? <==>
      m.start.line <= line <= EndLine(m) && m.pathSegments > 0 && |m.tokens| >= 2
      && m.tokens[|m.tokens| - 2].kind == Punct('@') && m.tokens[|m.tokens| - 1].kind == Literal
    ensures r.Some? ==> line <= r.value.end.0 + 1 && r.value.indentation == m.start.column
  {
    if m.start.line > line || EndLine(m) < line || m.pathSegments == 0 then None
    else if |m.tokens| < 2 then None
    else if m.tokens[|m.tokens| - 2].kind != Punct('@') then None
    else if m.tokens[|m.tokens| - 1].kind != Literal then None
    else
      var lit := m.tokens[|m.tokens| - 1];
      Some(InlineSnapshot((lit.start.line - 1, lit.start.column), (lit.end.line - 1, lit.end.column), m.start.column))
  }

  /// The macro found for `line`: the last qualifying one visited.
  function LastQualifying(ms: seq<Macro>, line: nat): Option<InlineSnapshot>
    decreases |ms|
  {
    if ms == [] then None
    else
      match Qualifying(ms[|ms| - 1], line)
      case Some(s) => Some(s)
      case None => LastQualifying(ms[..|ms| - 1], line)
  }

  /// A macro is found exactly when one qualifies, and then it is the last
  /// one that does.
  lemma {:induction false} LastQualifyingSpec(ms: seq<Macro>, line: nat)
    ensures LastQualifying(ms, line).None? <==> forall k :: 0 <= k < |ms| ==> Qualifying(ms[k], line).None?
    ensures LastQualifying(ms, line).Some? ==>
      exists k :: 0 <= k < |ms| && Qualifying(ms[k], line) == LastQualifying(ms, line)
        && forall j :: k < j < |ms| ==> Qualifying(ms[j], line).None?
    decreases |ms|
  {
    if ms != [] {
      var init := ms[..|ms| - 1];
      LastQualifyingSpec(init, line);
      if Qualifying(ms[|ms| - 1], line).None? {
        forall k | 0 <= k < |init| ensures ms[k] == init[k] {
        }
        if LastQualifying(init, line).Some? {
          var k :| 0 <= k < |init| && Qualifying(init[k], line) == LastQualifying(init, line)
                   && forall j :: k < j < |init| ==> Qualifying(init[j], line).None?;
          assert Qualifying(ms[k], line) == LastQualifying(ms, line);
          forall j | k < j < |ms| ensures Qualifying(ms[j], line).None? {
            if j < |init| {
              assert ms[j] == init[j];
            }
          }
        }
      }
    }
  }

  /// `find_snapshot_macro`: the visitor keeps the last qualifying macro.
  method FindSnapshotMacro(ms: seq<Macro>, line: nat) returns (found: Option<InlineSnapshot>)
    ensures found == LastQualifying(ms, line)
  {
    found := None;
    for k := 0 to |ms|
      invariant found == LastQualifying(ms[..k], line)
    {
      var q := Qualifying(ms[k], line);
      if q.Some? {
        found := q;
      }
      assert ms[..k + 1][..k] == ms[..k];
    }
    assert ms[..|ms|] == ms;
  }

  // ---------------------------------------------------------------------
  // Opening and saving.

  /// The line break `open` records: "\r\n" when the character one past the
  /// end of the first line is '\r', "\n" otherwise (also for empty text).
  function DetectNewlineAsWritten(contents: string): string
  {
    var ls := Lines(contents);
    if ls != [] && |ls[0]| + 1 < |contents| && contents[|ls[0]| + 1] == '\r' then "\r\n" else "\n"
  }

  /// The line break as intended: "\r\n" when the first line ends in
  /// "\r\n".
  function DetectNewline(contents: string): string
  {
    var ls := Lines(contents);
    if ls != [] && |ls[0]| + 1 < |contents| && contents[|ls[0]|] == '\r' then "\r\n" else "\n"
  }

  /// The first line of text that has a line break ends at it, without
  /// the '\r' before it.
  lemma FirstLine(contents: string)
    requires '\n' in contents
    ensures var i := IndexOfChar(contents, '\n');
      Lines(contents) != []
      && |Lines(contents)[0]| == (if i > 0 && contents[i - 1] == '\r' then i - 1 else i)
  {
  }

  /// The intended detection answers "\r\n" exactly when the first line
  /// break is preceded by a carriage return.
  lemma DetectNewlineSpec(contents: string)
    requires '\n' in contents
    ensures var i := IndexOfChar(contents, '\n');
      DetectNewline(contents) == "\r\n" <==> i > 0 && contents[i - 1] == '\r'
  {
    FirstLine(contents);
  }

  /// The detection as written looks one character too far: for a file
  /// whose first line ends in "\r\n" it looks at the '\n' and answers "\n".
  lemma DetectNewlineAsWrittenMissesCrlf(contents: string)
    requires '\n' in contents
    requires var i := IndexOfChar(contents, '\n'); i > 0 && contents[i - 1] == '\r'
    ensures DetectNewlineAsWritten(contents) == "\n"
    ensures DetectNewline(contents) == "\r\n"
  {
    FirstLine(contents);
  }

  /// A two-line file with Windows line breaks.
  lemma DetectNewlineExample()
    ensures DetectNewlineAsWritten("a\r\nb") == "\n"
    ensures DetectNewline("a\r\nb") == "\r\n"
  {
    DetectNewlineAsWrittenMissesCrlf("a\r\nb");
  }

  class FilePatcher {
    var lines: seq<string>
    var newline: string
    var macros: seq<Macro>
    var inlineSnapshots: seq<InlineSnapshot>

    /// `FilePatcher::open` on the file's text and the macros its syntax
    /// tree holds.
    constructor Open(contents: string, ms: seq<Macro>)
      ensures lines == Lines(contents) && newline == DetectNewlineAsWritten(contents)
      ensures macros == ms && inlineSnapshots == []
    {
      lines := Lines(contents);
      newline := DetectNewlineAsWritten(contents);
      macros := ms;
      inlineSnapshots := [];
    }

    /// `save`: the text written back, every line followed by "\n"; by
    /// `LinesOfTerminated` it splits into the same lines again.
    method Save() returns (text: string)
      ensures text == Terminated(lines)
    {
      text := "";
      var k := |lines|;
      while k > 0
        invariant 0 <= k <= |lines|
        invariant text == Terminated(lines[k..])
      {
        k := k - 1;
        text := lines[k] + "\n" + text;
        assert lines[k..][1..] == lines[k + 1..];
      }
    }

    /// `add_snapshot_macro`: the macro for `line` is recorded, provided
    /// one is found and the last recorded snapshot ends no later than
    /// `line`.
    method AddSnapshotMacro(line: nat) returns (r: Result<(), PatchError>)
      modifies this
      ensures lines == old(lines) && newline == old(newline) && macros == old(macros)
      ensures var found := LastQualifying(macros, line);
        r == (if found.None? then Err(NoSnapshotMacro)
              else if old(inlineSnapshots) != [] && old(inlineSnapshots)[|old(inlineSnapshots)| - 1].end.0 > line
              then Err(OutOfOrder)
              else Ok(()))
      ensures r.Ok? ==> inlineSnapshots == old(inlineSnapshots) + [LastQualifying(macros, line).value]
      ensures r.Err? ==> inlineSnapshots == old(inlineSnapshots)
    {
      var found := FindSnapshotMacro(macros, line);
      if found.None? {
        r := Err(NoSnapshotMacro);
      } else if inlineSnapshots != [] && inlineSnapshots[|inlineSnapshots| - 1].end.0 > line {
        r := Err(OutOfOrder);
      } else {
        inlineSnapshots := inlineSnapshots + [found.value];
        r := Ok(());
      }
    }

    /// `get_new_line`: the 1-based line the snapshot's literal starts on.
    function GetNewLine(id: nat): (n: nat)
      reads this
      requires id < |inlineSnapshots|
      ensures n >= 1 && n - 1 == inlineSnapshots[id].start.0
    {
      inlineSnapshots[id].start.0 + 1
    }

    /// `set_new_content`: the entries from `id` on move by the change in
    /// line count; nothing else changes.
    method SetNewContent(id: nat, snapshot: L.SnapshotContents) returns (r: Result<(), PatchError>)
      modifies this
      ensures lines == old(lines) && newline == old(newline) && macros == old(macros)
      ensures r == (match LineShift(lines, old(inlineSnapshots), id, snapshot)
                    case Ok(_) => Ok(())
                    case Err(e) => Err(e))
      ensures r.Ok? ==> (inlineSnapshots
        == old(inlineSnapshots)[..id] + ShiftAll(old(inlineSnapshots)[id..], LineShift(lines, old(inlineSnapshots), id, snapshot).value))
      ensures r.Err? ==> inlineSnapshots == old(inlineSnapshots)
    {
      if id >= |inlineSnapshots| {
        return Err(OutOfRange);
      }
      var inline := inlineSnapshots[id];
      if !SpanInLines(lines, inline) {
        return Err(OutOfRange);
      }
      var prefix := lines[inline.start.0][..inline.start.1];
      var suffix := lines[inline.end.0][inline.end.1..];
      var literal := L.ToInline(snapshot, inline.indentation);
      var contents := prefix + literal + suffix;
      if inline.end.0 < inline.start.0 {
        return Err(Overflow);
      }
      var oldLinesCount := inline.end.0 - inline.start.0 + 1;
      var newLinesCount := |Lines(contents)|;
      if newLinesCount < oldLinesCount {
        return Err(Overflow);
      }
      var diff := newLinesCount - oldLinesCount;
      ShiftFrom(id, diff);
      r := Ok(());
    }

    /// The loop of `set_new_content`: every entry from `id` on moves down
    /// by `diff` lines.
    method ShiftFrom(id: nat, diff: nat)
      requires id <= |inlineSnapshots|
      modifies this
      ensures lines == old(lines) && newline == old(newline) && macros == old(macros)
      ensures inlineSnapshots == old(inlineSnapshots)[..id] + ShiftAll(old(inlineSnapshots)[id..], diff)
    {
      ghost var before := inlineSnapshots;
      for k := id to |inlineSnapshots|
        invariant lines == old(lines) && newline == old(newline) && macros == old(macros)
        invariant |inlineSnapshots| == |before|
        invariant inlineSnapshots[..id] == before[..id]
        invariant inlineSnapshots[id..k] == ShiftAll(before[id..k], diff)
        invariant inlineSnapshots[k..] == before[k..]
      {
        var inl := inlineSnapshots[k];
        inlineSnapshots := inlineSnapshots[k := Shifted(inl, diff)];
        assert before[id..k + 1] == before[id..k] + [before[k]];
        ShiftAllSnoc(before[id..k], before[k], diff);
        assert inlineSnapshots[id..k + 1] == inlineSnapshots[id..k] + [inlineSnapshots[k]];
      }
      assert before[id..|before|] == before[id..];
      assert inlineSnapshots == inlineSnapshots[..id] + inlineSnapshots[id..|inlineSnapshots|];
    }

    /// `set_new_content` as intended: the literal's lines are replaced by
    /// the lines of the replacement text, and the entries after `id` move
    /// by the signed change in line count.
    method SpliceNewContent(id: nat, snapshot: L.SnapshotContents) returns (r: Result<(), PatchError>)
      modifies this
      ensures newline == old(newline) && macros == old(macros)
      ensures r == SpliceCheck(old(lines), old(inlineSnapshots), id, snapshot)
      ensures r.Ok? ==>
        var inline := old(inlineSnapshots)[id];
        lines == Spliced(old(lines), inline, snapshot)
        && inlineSnapshots == old(inlineSnapshots)[..id + 1]
             + ShiftAllBy(old(inlineSnapshots)[id + 1..], LineDelta(old(lines), inline, snapshot))
      ensures r.Err? ==> lines == old(lines) && inlineSnapshots == old(inlineSnapshots)
    {
      if id >= |inlineSnapshots| {
        return Err(OutOfRange);
      }
      var inline := inlineSnapshots[id];
      if !SpanInLines(lines, inline) || inline.end.0 < inline.start.0 {
        return Err(OutOfRange);
      }
      var prefix := lines[inline.start.0][..inline.start.1];
      var suffix := lines[inline.end.0][inline.end.1..];
      var literal := L.InlineLiteral(snapshot.text, inline.indentation);
      var replacement := Lines(prefix + literal + suffix);
      var diff := |replacement| - (inline.end.0 - inline.start.0 + 1);
      if !ShiftableBy(inlineSnapshots[id + 1..], diff) {
        return Err(Overflow);
      }
      lines := lines[..inline.start.0] + replacement + lines[inline.end.0 + 1..];
      ShiftByFrom(id + 1, diff);
      r := Ok(());
    }

    /// Every entry from `id` on moves by the signed `diff`.
    method ShiftByFrom(id: nat, diff: int)
      requires id <= |inlineSnapshots| && ShiftableBy(inlineSnapshots[id..], diff)
      modifies this
      ensures lines == old(lines) && newline == old(newline) && macros == old(macros)
      ensures inlineSnapshots == old(inlineSnapshots)[..id] + ShiftAllBy(old(inlineSnapshots)[id..], diff)
    {
      ghost var before := inlineSnapshots;
      for k := id to |inlineSnapshots|
        invariant lines == old(lines) && newline == old(newline) && macros == old(macros)
        invariant |inlineSnapshots| == |before|
        invariant inlineSnapshots[..id] == before[..id]
        invariant ShiftableBy(before[id..], diff)
        invariant ShiftableBy(before[id..k], diff)
        invariant inlineSnapshots[id..k] == ShiftAllBy(before[id..k], diff)
        invariant inlineSnapshots[k..] == before[k..]
      {
        var inl := inlineSnapshots[k];
        assert before[id..][k - id] == inl;
        inlineSnapshots := inlineSnapshots[k := ShiftedBy(inl, diff)];
        assert before[id..k + 1] == before[id..k] + [before[k]];
        ShiftAllBySnoc(before[id..k], before[k], diff);
        assert inlineSnapshots[id..k + 1] == inlineSnapshots[id..k] + [inlineSnapshots[k]];
      }
      assert before[id..|before|] == before[id..];
      assert inlineSnapshots == inlineSnapshots[..id] + inlineSnapshots[id..|inlineSnapshots|];
    }
  }

  // ---------------------------------------------------------------------
  // The line shift of `set_new_content`.

  /// The literal's span lies within the lines, so the slices for prefix and
  /// suffix exist.
  predicate SpanInLines(lines: seq<string>, inline: InlineSnapshot)
  {
    inline.start.0 < |lines| && inline.start.1 <= |lines[inline.start.0]|
    && inline.end.0 < |lines| && inline.end.1 <= |lines[inline.end.0]|
  }

  /// The line that replaces the literal: the start line up to the
  /// literal, the new literal, the end line after the literal.
  function ReplacementText(lines: seq<string>, inline: InlineSnapshot, literal: string): string
    requires SpanInLines(lines, inline)
  {
    lines[inline.start.0][..inline.start.1] + literal + lines[inline.end.0][inline.end.1..]
  }

  /// How many lines `set_new_content` moves the entries by, computed in
  /// unsigned arithmetic as written: new line count minus old line count,
  /// `Overflow` when that is below zero.
  function LineShift(lines: seq<string>, entries: seq<InlineSnapshot>, id: nat, snapshot: L.SnapshotContents)
    : Result<nat, PatchError>
  {
    if id >= |entries| || !SpanInLines(lines, entries[id]) then Err(OutOfRange)
    else
      var inline := entries[id];
      if inline.end.0 < inline.start.0 then Err(Overflow)
      else
        var oldCount := inline.end.0 - inline.start.0 + 1;
        var literal := L.InlineLiteralAsWritten(snapshot.text, inline.indentation);
        var newCount := |Lines(ReplacementText(lines, inline, literal))|;
        if newCount < oldCount then Err(Overflow) else Ok(newCount - oldCount)
  }

  function Shifted(e: InlineSnapshot, d: nat): (r: InlineSnapshot)
    ensures r.start.0 == e.start.0 + d && r.end.0 == e.end.0 + d
    ensures r.start.1 == e.start.1 && r.end.1 == e.end.1 && r.indentation == e.indentation
  {
    e.(start := (e.start.0 + d, e.start.1), end := (e.end.0 + d, e.end.1))
  }

  function ShiftAll(es: seq<InlineSnapshot>, d: nat): (r: seq<InlineSnapshot>)
    ensures |r| == |es|
    ensures forall k :: 0 <= k < |es| ==> r[k] == Shifted(es[k], d)
  {
    seq(|es|, k requires 0 <= k < |es| => Shifted(es[k], d))
  }

  lemma ShiftAllSnoc(es: seq<InlineSnapshot>, e: InlineSnapshot, d: nat)
    ensures ShiftAll(es + [e], d) == ShiftAll(es, d) + [Shifted(e, d)]
  {
  }

  /// A literal written over several lines and replaced by one of a single
  /// line cannot be shifted: the line count drops from three to one.
  lemma ShrinkOverflows()
    ensures var lines := ["assert_snapshot!(x, @r###\"", "a", "\"###);"];
      var entries := [InlineSnapshot((0, 21), (2, 4), 0)];
      LineShift(lines, entries, 0, L.SnapshotContents("b")) == Err(Overflow)
  {
    var lines := ["assert_snapshot!(x, @r###\"", "a", "\"###);"];
    var inline := InlineSnapshot((0, 21), (2, 4), 0);
    var text := ReplacementText(lines, inline, L.InlineLiteralAsWritten("b", 0));
    assert !L.IsEscape("b");
    assert L.InlineLiteralAsWritten("b", 0) == "\"b\"";
    assert lines[0][..21] == "assert_snapshot!(x, @";
    assert lines[2][4..] == ");";
    assert text == "assert_snapshot!(x, @\"b\");";
    assert '\n' !in text;
    assert IndexOfChar(text, '\n') == |text|;
  }

  // ---------------------------------------------------------------------
  // The shift as intended.

  /// The lines that take the literal's place: the replacement text, with
  /// a fence wide enough for the new contents.
  function NewLines(lines: seq<string>, inline: InlineSnapshot, snapshot: L.SnapshotContents): seq<string>
    requires SpanInLines(lines, inline)
  {
    Lines(ReplacementText(lines, inline, L.InlineLiteral(snapshot.text, inline.indentation)))
  }

  /// The change in line count, signed.
  function LineDelta(lines: seq<string>, inline: InlineSnapshot, snapshot: L.SnapshotContents): int
    requires SpanInLines(lines, inline)
  {
    |NewLines(lines, inline, snapshot)| - (inline.end.0 - inline.start.0 + 1)
  }

  /// The file after the literal's lines are replaced by the replacement
  /// text's lines.
  function Spliced(lines: seq<string>, inline: InlineSnapshot, snapshot: L.SnapshotContents): seq<string>
    requires SpanInLines(lines, inline) && inline.start.0 <= inline.end.0
  {
    lines[..inline.start.0] + NewLines(lines, inline, snapshot) + lines[inline.end.0 + 1..]
  }

  /// Moving an entry by a signed amount.
  function ShiftedBy(e: InlineSnapshot, d: int): InlineSnapshot
    requires e.start.0 + d >= 0 && e.end.0 + d >= 0
  {
    e.(start := (e.start.0 + d, e.start.1), end := (e.end.0 + d, e.end.1))
  }

  /// With a signed shift, an entry after the replaced lines points, in the
  /// spliced file, at the very lines it pointed at before, whether the
  /// snapshot grew or shrank.
  lemma ShiftedByKeepsLaterLines(lines: seq<string>, inline: InlineSnapshot, snapshot: L.SnapshotContents, e: InlineSnapshot)
    requires SpanInLines(lines, inline) && inline.start.0 <= inline.end.0
    requires inline.end.0 < e.start.0 <= e.end.0 < |lines|
    ensures var d := LineDelta(lines, inline, snapshot);
      var p := Spliced(lines, inline, snapshot);
      e.start.0 + d >= 0 && e.end.0 + d >= 0
      && |p| == |lines| + d
      && var f := ShiftedBy(e, d);
         p[f.start.0] == lines[e.start.0] && p[f.end.0] == lines[e.end.0]
  {
    var n := |NewLines(lines, inline, snapshot)|;
    var p := Spliced(lines, inline, snapshot);
    var head := lines[..inline.start.0] + NewLines(lines, inline, snapshot);
    var tail := lines[inline.end.0 + 1..];
    assert |head| == inline.start.0 + n;
    forall i | inline.end.0 + 1 <= i < |lines|
      ensures p[i + n - (inline.end.0 - inline.start.0 + 1)] == lines[i]
    {
      assert p[|head| + (i - inline.end.0 - 1)] == tail[i - inline.end.0 - 1];
    }
  }

  /// Every entry may be moved by `d` without a line below zero.
  predicate ShiftableBy(es: seq<InlineSnapshot>, d: int)
  {
    forall k :: 0 <= k < |es| ==> es[k].start.0 + d >= 0 && es[k].end.0 + d >= 0
  }

  function ShiftAllBy(es: seq<InlineSnapshot>, d: int): (r: seq<InlineSnapshot>)
    requires ShiftableBy(es, d)
    ensures |r| == |es|
  {
    seq(|es|, k requires 0 <= k < |es| => ShiftedBy(es[k], d))
  }

  lemma ShiftAllBySnoc(es: seq<InlineSnapshot>, e: InlineSnapshot, d: int)
    requires ShiftableBy(es, d) && e.start.0 + d >= 0 && e.end.0 + d >= 0
    ensures ShiftableBy(es + [e], d)
    ensures ShiftAllBy(es + [e], d) == ShiftAllBy(es, d) + [ShiftedBy(e, d)]
  {
    assert forall k :: 0 <= k < |es| ==> (es + [e])[k] == es[k];
  }

  /// When `SpliceNewContent` succeeds, and why it fails: a missing entry,
  /// a span outside the lines or backwards is `OutOfRange`; a later entry
  /// that the shift would move above the first line is `Overflow`.
  function SpliceCheck(lines: seq<string>, entries: seq<InlineSnapshot>, id: nat, snapshot: L.SnapshotContents)
    : (r: Result<(), PatchError>)
    ensures r.Ok? ==> id < |entries| && SpanInLines(lines, entries[id]) && entries[id].start.0 <= entries[id].end.0
    ensures r.Ok? ==> ShiftableBy(entries[id + 1..], LineDelta(lines, entries[id], snapshot))
  {
    if id >= |entries| || !SpanInLines(lines, entries[id]) || entries[id].end.0 < entries[id].start.0 then Err(OutOfRange)
    else if !ShiftableBy(entries[id + 1..], LineDelta(lines, entries[id], snapshot)) then Err(Overflow)
    else Ok(())
  }

  /// The entries from `from` on lie within the lines, in order, each
  /// after the previous one's last line.
  ghost predicate Placed(lines: seq<string>, entries: seq<InlineSnapshot>, from: nat)
  {
    (forall k :: from <= k < |entries| ==> SpanInLines(lines, entries[k]) && entries[k].start.0 <= entries[k].end.0)
    && forall j, k :: from <= j < k < |entries| ==> entries[j].end.0 < entries[k].start.0
  }

  /// For entries recorded in order, the corrected patch never fails.
  lemma {:induction false} OrderedSpliceSucceeds(lines: seq<string>, entries: seq<InlineSnapshot>, id: nat, snapshot: L.SnapshotContents)
    requires Placed(lines, entries, id) && id < |entries|
    ensures SpliceCheck(lines, entries, id, snapshot) == Ok(())
  {
    var inline := entries[id];
    var rest := entries[id + 1..];
    var d := LineDelta(lines, inline, snapshot);
    forall k | 0 <= k < |rest|
      ensures rest[k].start.0 + d >= 0 && rest[k].end.0 + d >= 0
    {
      assert rest[k] == entries[id + 1 + k];
      ShiftedByKeepsLaterLines(lines, inline, snapshot, rest[k]);
    }
  }

  lemma ShiftedStaysPlaced(lines: seq<string>, inline: InlineSnapshot, snapshot: L.SnapshotContents, e: InlineSnapshot)
    requires SpanInLines(lines, inline) && inline.start.0 <= inline.end.0
    requires SpanInLines(lines, e) && inline.end.0 < e.start.0 <= e.end.0
    ensures var d := LineDelta(lines, inline, snapshot);
      e.start.0 + d >= 0 && e.end.0 + d >= 0
      && SpanInLines(Spliced(lines, inline, snapshot), ShiftedBy(e, d))
  {
    ShiftedByKeepsLaterLines(lines, inline, snapshot, e);
  }

  /// The corrected patch of entry `id` leaves the entries after it placed
  /// in the new lines, so the next one can be patched as well.
  lemma {:induction false} SpliceKeepsPlaced(lines: seq<string>, entries: seq<InlineSnapshot>, id: nat, snapshot: L.SnapshotContents)
    requires Placed(lines, entries, id) && id < |entries|
    ensures SpliceCheck(lines, entries, id, snapshot) == Ok(())
    ensures Placed(Spliced(lines, entries[id], snapshot),
                   entries[..id + 1] + ShiftAllBy(entries[id + 1..], LineDelta(lines, entries[id], snapshot)), id + 1)
  {
    OrderedSpliceSucceeds(lines, entries, id, snapshot);
    var inline := entries[id];
    var d := LineDelta(lines, inline, snapshot);
    var p := Spliced(lines, inline, snapshot);
    var rest := entries[id + 1..];
    var shifted := ShiftAllBy(rest, d);
    var es := entries[..id + 1] + shifted;
    forall k | id + 1 <= k < |es|
      ensures SpanInLines(p, es[k]) && es[k].start.0 <= es[k].end.0
    {
      assert rest[k - id - 1] == entries[k];
      assert es[k] == shifted[k - id - 1] == ShiftedBy(entries[k], d);
      ShiftedStaysPlaced(lines, inline, snapshot, entries[k]);
    }
    forall j, k | id + 1 <= j < k < |es|
      ensures es[j].end.0 < es[k].start.0
    {
      assert rest[j - id - 1] == entries[j] && rest[k - id - 1] == entries[k];
      assert es[j] == shifted[j - id - 1] && es[k] == shifted[k - id - 1];
    }
  }

  /// What the corrected patch leaves of the other lines: those before the
  /// literal stay where they are, and the replacement's lines follow them.
  lemma SplicedKeepsEarlierLines(lines: seq<string>, inline: InlineSnapshot, snapshot: L.SnapshotContents, i: nat)
    requires SpanInLines(lines, inline) && inline.start.0 <= inline.end.0
    requires i < |lines|
    ensures var p := Spliced(lines, inline, snapshot);
      var n := NewLines(lines, inline, snapshot);
      (i < inline.start.0 ==> p[i] == lines[i])
      && (i < |n| ==> p[inline.start.0 + i] == n[i])
  {
  }

  /// The patch as written builds the new line and then drops it: after
  /// accepting `"b"` for the literal `@"a"` the lines, and so the text
  /// `save` writes, are those of the original file, while the intended
  /// splice holds the new literal.
  lemma AcceptedLiteralNotWritten()
    ensures var lines := ["@\"a\""];
      var inline := InlineSnapshot((0, 1), (0, 4), 0);
      SpanInLines(lines, inline)
      && Spliced(lines, inline, L.SnapshotContents("b")) == ["@\"b\""]
      && Spliced(lines, inline, L.SnapshotContents("b")) != lines
  {
    var lines := ["@\"a\""];
    var inline := InlineSnapshot((0, 1), (0, 4), 0);
    var text := "@\"b\"";
    ExampleReplacement();
    assert '\n' !in text;
    SplicedOneLine(lines, inline, L.SnapshotContents("b"), text);
    assert text != lines[0] by { assert text[2] != lines[0][2]; }
  }

  /// Replacing a literal on the only line with a text of one line gives
  /// that line.
  lemma SplicedOneLine(lines: seq<string>, inline: InlineSnapshot, snapshot: L.SnapshotContents, text: string)
    requires |lines| == 1 && inline.start.0 == 0 && inline.end.0 == 0 && SpanInLines(lines, inline)
    requires ReplacementText(lines, inline, L.InlineLiteral(snapshot.text, inline.indentation)) == text
    requires text != [] && '\n' !in text
    ensures Spliced(lines, inline, snapshot) == [text]
  {
    assert IndexOfChar(text, '\n') == |text|;
    assert NewLines(lines, inline, snapshot) == [text];
    assert lines[..0] == [] && lines[1..] == [];
  }

  lemma ExampleReplacement()
    ensures var lines := ["@\"a\""];
      var inline := InlineSnapshot((0, 1), (0, 4), 0);
      SpanInLines(lines, inline)
      && ReplacementText(lines, inline, L.InlineLiteral("b", 0)) == "@\"b\""
  {
    var lines := ["@\"a\""];
    assert !L.IsEscape("b");
    assert L.InlineLiteral("b", 0) == "\"b\"";
    assert lines[0][..1] == "@";
    assert lines[0][4..] == "";
  }
}
