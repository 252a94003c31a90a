// The older generation's snapshot contents (src/snapshot.rs): the inline
// literal with a fixed `###` fence, the CRLF conversion, equality up to
// trailing whitespace, the inline dedent that counts whitespace, the
// choice between the `⋮` format and the dedent when reading an inline
// snapshot back, and the names `from_file` derives from a file name.
module LegacySnapshot {
  import opened Wrappers
  import opened Strs
  import opened RustStrings
  import opened LegacyInline
  import Paths
  import C = Contents
  import S = Snapshot

  // ---------------------------------------------------------------------
  // Contents, conversion and equality.

  datatype SnapshotContents = SnapshotContents(text: string)

  /// `From<&str>` / `From<String>`: "\r\n" becomes "\n".
  function FromText(value: string): SnapshotContents
  {
    SnapshotContents(Replace(value, "\r\n", "\n"))
  }

  /// Every '\r' of `s` starts a "\r\n".
  ghost predicate CrlfOnly(s: string)
  {
    forall i :: 0 <= i < |s| && s[i] == '\r' ==> i + 1 < |s| && s[i + 1] == '\n'
  }

  /// Text whose carriage returns all come before a line feed has none left
  /// after the conversion.
  lemma {:induction false} FromTextCrlfOnly(value: string)
    requires CrlfOnly(value)
    ensures '\r' !in FromText(value).text
    decreases |value|
  {
    if |value| >= 2 {
      if value[..2] == "\r\n" {
        forall i | 0 <= i < |value[2..]| && value[2..][i] == '\r'
          ensures i + 1 < |value[2..]| && value[2..][i + 1] == '\n'
        {
          assert value[i + 2] == '\r';
        }
        FromTextCrlfOnly(value[2..]);
      } else {
        assert value[0] != '\r';
        forall i | 0 <= i < |value[1..]| && value[1..][i] == '\r'
          ensures i + 1 < |value[1..]| && value[1..][i + 1] == '\n'
        {
          assert value[i + 1] == '\r';
        }
        FromTextCrlfOnly(value[1..]);
      }
    } else if |value| == 1 {
      assert value[0] != '\r';
    }
  }

  /// A carriage return doubled before a line feed is not removed: one
  /// "\r\n" is left.
  lemma FromTextLeavesCrCrlf()
    ensures FromText("a\r\r\nb").text == "a\r\nb"
  {
    assert Replace("b", "\r\n", "\n") == "b";
    assert Replace("\nb", "\r\n", "\n") == "\nb";
    assert Replace("\r\nb", "\r\n", "\n") == "\nb";
    assert Replace("\r\r\nb", "\r\n", "\n") == "\r\nb";
  }

  /// `PartialEq for SnapshotContents`: the texts agree once their trailing
  /// whitespace is trimmed.
  predicate Eq(a: SnapshotContents, b: SnapshotContents)
  {
    TrimEnd(a.text) == TrimEnd(b.text)
  }

  /// Trailing whitespace never makes two contents differ.
  lemma EqIgnoresTrailingWhitespace(x: string, w: string)
    requires AllWhitespace(w)
    ensures Eq(SnapshotContents(x + w), SnapshotContents(x))
  {
    TrimEndAfterWhitespace(x, w);
  }

  /// Leading whitespace does: text that is not blank differs from itself
  /// after any non-empty indentation.
  lemma EqKeepsLeadingWhitespace(w: string, x: string)
    requires w != [] && TrimEnd(x) != []
    ensures !Eq(SnapshotContents(w + x), SnapshotContents(x))
  {
    TrimEndPrepend(w, x);
  }

  // ---------------------------------------------------------------------
  // The inline literal.

  /// `to_inline` switches to a raw literal for a line break, a backslash
  /// or a quote.
  predicate IsEscape(contents: string)
  {
    '\n' in contents || '\\' in contents || '"' in contents
  }

  /// The text between the quotes: the block form (each line on a line of
  /// its own, non-empty ones indented by `indentation` spaces, then a line
  /// of the indentation alone) for text with a line break, the text itself
  /// otherwise.
  function Body(contents: string, indentation: nat): string
  {
    S.QuotedBody(contents, Spaces(indentation))
  }

  /// `SnapshotContents::to_inline` as written: the fence is always `###`.
  function InlineLiteralAsWritten(contents: string, indentation: nat): string
  {
    if IsEscape(contents) then "r###\"" + Body(contents, indentation) + "\"###"
    else "\"" + contents + "\""
  }

  /// `to_inline` as intended: a fence of at least three hashes, wider when
  /// the text needs it.
  function InlineLiteral(contents: string, indentation: nat): string
  {
    if IsEscape(contents) then
      var h := Hashes(S.Max(3, S.RequiredHashes(contents)));
      "r" + h + "\"" + Body(contents, indentation) + "\"" + h
    else "\"" + contents + "\""
  }

  /// `SnapshotContents::to_inline(indentation)`
  method ToInline(c: SnapshotContents, indentation: nat) returns (out: string)
    ensures out == InlineLiteralAsWritten(c.text, indentation)
  {
    var contents := c.text;
    var isEscape := '\n' in contents || '\\' in contents || '"' in contents;
    out := if isEscape then "r###\"" else "\"";
    ghost var start := out;
    if '\n' in contents {
      out := PushLines(out, Lines(contents), indentation);
      out := out + "\n" + Spaces(indentation);
      AppendAssoc(start + S.Block(Lines(contents), Spaces(indentation)), "\n", Spaces(indentation));
      AppendAssoc(start, S.Block(Lines(contents), Spaces(indentation)), "\n" + Spaces(indentation));
    } else {
      out := out + contents;
    }
    assert out == start + Body(contents, indentation);
    out := out + (if isEscape then "\"###" else "\"");
  }

  /// The lines of the block form, each after a line break and, when it is
  /// not empty, `indentation` spaces.
  method PushLines(out0: string, ls: seq<string>, indentation: nat) returns (out: string)
    ensures out == out0 + S.Block(ls, Spaces(indentation))
  {
    out := out0;
    for k := 0 to |ls|
      invariant out == out0 + S.Block(ls[..k], Spaces(indentation))
    {
      var width := if ls[k] == [] then 0 else indentation;
      ghost var line := S.BlockLine(ls[k], Spaces(indentation));
      assert "\n" + Spaces(width) + ls[k] == line;
      assert ls[..k + 1][..k] == ls[..k];
      assert S.Block(ls[..k + 1], Spaces(indentation)) == S.Block(ls[..k], Spaces(indentation)) + line;
      out := out + "\n" + Spaces(width) + ls[k];
      AppendAssoc(out0, S.Block(ls[..k], Spaces(indentation)), line);
    }
    assert ls[..|ls|] == ls;
  }

  lemma SpacesHaveNoQuote(n: nat)
    ensures '"' !in Spaces(n)
  {
  }

  /// The intended literal reads back, as a Rust string literal, as the
  /// body for text that needs a raw literal and as the text otherwise.
  lemma InlineLiteralReadsBack(c: string, indentation: nat)
    ensures ReadLiteral(InlineLiteral(c, indentation))
      == Some(if IsEscape(c) then Body(c, indentation) else c)
  {
    if IsEscape(c) {
      var m := S.Max(3, S.RequiredHashes(c));
      S.RequiredHashesBound(c);
      assert QuotesFenced(c, m);
      SpacesHaveNoQuote(indentation);
      S.FencedBody(c, Spaces(indentation), m);
      ReadRawFenced(Body(c, indentation), m);
    } else {
      var lit := "\"" + c + "\"";
      assert lit[1..|lit| - 1] == c;
      UnescapePlain(c);
    }
  }

  /// With no quote followed by three hashes, the fixed fence is the
  /// intended one.
  lemma AsWrittenIsIntended(c: string, indentation: nat)
    requires QuotesFenced(c, 3)
    ensures InlineLiteralAsWritten(c, indentation) == InlineLiteral(c, indentation)
  {
    assert S.Max(3, S.RequiredHashes(c)) == 3 by {
      S.RequiredHashesBound(c);
      if '"' in c {
        var i :| 0 <= i < |c| && c[i] == '"' && HashRun(c[i + 1..]) + 1 == S.RequiredHashes(c);
      }
    }
    var h := Hashes(3);
    assert h == "###";
    if IsEscape(c) {
      var b := Body(c, indentation);
      assert InlineLiteral(c, indentation) == "r" + h + "\"" + b + "\"" + h;
      assert "r" + h + "\"" + b + "\"" + h == "r###\"" + b + "\"###";
    }
  }

  /// The literal as written reads back as its body exactly when no quote
  /// of the body is followed by three hashes; otherwise the literal ends
  /// at that quote.
  lemma AsWrittenReadsBackIff(c: string, indentation: nat)
    requires IsEscape(c)
    ensures ReadLiteral(InlineLiteralAsWritten(c, indentation)) == Some(Body(c, indentation))
      <==> QuotesFenced(Body(c, indentation), 3)
  {
    var body := Body(c, indentation);
    assert Hashes(3) == "###";
    assert InlineLiteralAsWritten(c, indentation) == "r" + Hashes(3) + "\"" + body + "\"" + Hashes(3);
    if QuotesFenced(body, 3) {
      ReadRawFenced(body, 3);
    } else {
      var q :| 0 <= q < |body| && body[q] == '"' && HashRun(body[q + 1..]) >= 3;
      RawClosesEarly(body, 3, q);
    }
  }

  /// A raw literal whose body has a quote followed by as many hashes as
  /// the fence closes there, before the end of the body.
  lemma RawClosesEarly(body: string, n: nat, q: nat)
    requires q < |body| && body[q] == '"' && HashRun(body[q + 1..]) >= n
    ensures ReadRaw("r" + Hashes(n) + "\"" + body + "\"" + Hashes(n)) != Some(body)
  {
    var h := Hashes(n);
    var lit := "r" + h + "\"" + body + "\"" + h;
    var u := body + "\"" + h;
    RawLiteralHead(body, n);
    RawRead(lit, n, u);
    var p := CloseFrom(u, n, 0);
    assert p <= q by {
      BodyQuote(body, h, q);
      HashRunPrefix(body[q + 1..], "\"" + h);
      CloseFromAtMost(u, n, 0, q);
    }
    assert |u[..p]| < |body|;
  }

  /// The head of a raw literal fenced by `n` hashes.
  lemma RawLiteralHead(body: string, n: nat)
    ensures var h := Hashes(n);
      var lit := "r" + h + "\"" + body + "\"" + h;
      |lit| > 1 + n && lit[0] == 'r' && HashRun(lit[1..]) == n && lit[1 + n] == '"'
      && lit[2 + n..] == body + "\"" + h
  {
    var h := Hashes(n);
    RawLiteralParts(body, h);
    HashRunHashes(n, "\"" + body + "\"" + h);
  }

  /// `ReadRaw` of a literal whose head is known.
  lemma RawRead(lit: string, n: nat, u: string)
    requires |lit| > 1 + n && lit[0] == 'r' && HashRun(lit[1..]) == n && lit[1 + n] == '"'
    requires lit[2 + n..] == u
    ensures ReadRaw(lit).Some? ==> ReadRaw(lit).value == u[..CloseFrom(u, n, 0)]
  {
  }

  /// A run of hashes does not shrink when text follows.
  lemma {:induction false} HashRunPrefix(x: string, y: string)
    ensures HashRun(x + y) >= HashRun(x)
    decreases |x|
  {
    if x != [] && x[0] == '#' {
      assert (x + y)[1..] == x[1..] + y;
      HashRunPrefix(x[1..], y);
    }
  }

  /// The close is found at the latest at a quote followed by enough hashes.
  lemma {:induction false} CloseFromAtMost(u: string, n: nat, i: nat, q: nat)
    requires i <= q < |u| && u[q] == '"' && HashRun(u[q + 1..]) >= n
    ensures CloseFrom(u, n, i) <= q
    decreases q - i
  {
    if i < q && !(u[i] == '"' && HashRun(u[i + 1..]) >= n) {
      CloseFromAtMost(u, n, i + 1, q);
    }
  }

  /// The text `a"###` gets the literal `r###"a"###"###`, which Rust reads
  /// as `a` followed by stray characters.
  lemma FixedFenceExample()
    ensures IsEscape("a\"###")
    ensures ReadLiteral(InlineLiteralAsWritten("a\"###", 0)) != Some("a\"###")
    ensures ReadLiteral(InlineLiteral("a\"###", 0)) == Some("a\"###")
  {
    var c := "a\"###";
    assert c[1] == '"';
    assert c[2..] == "###";
    assert HashRun("###") == 3;
    assert Body(c, 0) == c;
    AsWrittenReadsBackIff(c, 0);
    InlineLiteralReadsBack(c, 0);
  }

  // ---------------------------------------------------------------------
  // Reading an inline snapshot back.

  /// `count_leading_spaces`: the leading whitespace characters.
  function CountLeadingSpaces(l: string): (r: nat)
    ensures r == |LeadingWhitespace(l)|
    decreases |l|
  {
    if l != [] && IsWhitespace(l[0]) then 1 + CountLeadingSpaces(l[1..]) else 0
  }

  /// The counts of the non-empty lines, in order.
  function CountsOfNonEmpty(ls: seq<string>): (r: seq<nat>)
    ensures |r| == |S.IndentsOfNonEmpty(ls)|
    ensures forall k :: 0 <= k < |r| ==> r[k] == |S.IndentsOfNonEmpty(ls)[k]|
  {
    if ls == [] then []
    else (if ls[0] != [] then [CountLeadingSpaces(ls[0])] else []) + CountsOfNonEmpty(ls[1..])
  }

  /// `Iterator::min` folded from the left.
  function MinFrom(acc: nat, ns: seq<nat>): nat
    decreases |ns|
  {
    if ns == [] then acc else MinFrom(if ns[0] < acc then ns[0] else acc, ns[1..])
  }

  /// The fold of counts is the width of the fold of the whitespace
  /// prefixes they count.
  lemma {:induction false} MinFromShortest(acc: string, xs: seq<string>, ns: seq<nat>)
    requires |ns| == |xs| && forall k :: 0 <= k < |xs| ==> ns[k] == |xs[k]|
    ensures MinFrom(|acc|, ns) == |S.ShortestFrom(acc, xs)|
    decreases |xs|
  {
    if xs != [] {
      MinFromShortest(if |xs[0]| < |acc| then xs[0] else acc, xs[1..], ns[1..]);
    }
  }

  /// `min_indentation` (older): a count, which is the width of the
  /// current generation's `min_indentation` (0 for at most one line after
  /// trimming the end, else the smallest leading-whitespace count of a
  /// non-empty line, 0 when there is none).
  function MinIndentationCount(snapshot: string): (r: nat)
    ensures r == |S.MinIndentation(snapshot)|
  {
    var lines := Lines(TrimEnd(snapshot));
    if |lines| <= 1 then 0
    else
      var ns := CountsOfNonEmpty(lines);
      if ns == [] then 0
      else
        MinFromShortest(S.IndentsOfNonEmpty(lines)[0], S.IndentsOfNonEmpty(lines)[1..], ns[1..]);
        MinFrom(ns[0], ns[1..])
  }

  /// `skip_while(|l| l.is_empty())`
  function SkipEmpty(ls: seq<string>): (r: seq<string>)
    ensures |r| <= |ls| && r == ls[|ls| - |r|..]
    ensures r == [] || r[0] != []
    ensures forall k :: 0 <= k < |ls| - |r| ==> ls[k] == []
  {
    if ls != [] && ls[0] == [] then SkipEmpty(ls[1..]) else ls
  }

  /// `normalize_inline_snapshot` (older): the text trimmed at the end, its
  /// leading empty lines dropped, as many characters as the minimal
  /// indentation counts cut from every line (a shorter line becomes
  /// empty), joined with "\n".
  function NormalizeInlineSnapshot(snapshot: string): string
  {
    var n := MinIndentationCount(snapshot);
    Join(S.DropEach(SkipEmpty(Lines(TrimEnd(snapshot))), n), "\n")
  }

  /// `get_inline_snapshot_value`: the `⋮` format when the text starts with
  /// `⋮` after leading whitespace, the dedent otherwise.
  function GetInlineSnapshotValue(frozen: string): string
  {
    var t := TrimStart(frozen);
    if t != [] && t[0] == Ellipsis then LegacyInlineNormalized(frozen)
    else NormalizeInlineSnapshot(frozen)
  }

  /// `get_inline_snapshot_value`, with the `⋮` format read line by line.
  method InlineSnapshotValue(frozen: string) returns (r: string)
    ensures r == GetInlineSnapshotValue(frozen)
  {
    var t := TrimStart(frozen);
    if t != [] && t[0] == Ellipsis {
      r := LegacyInlineNormalize(frozen);
    } else {
      r := NormalizeInlineSnapshot(frozen);
    }
  }

  /// A lone line break reads as the empty snapshot.
  lemma InlineValueOfNewline()
    ensures GetInlineSnapshotValue("\n") == ""
  {
    assert TrimStart("\n") == [];
    assert TrimEnd("\n") == [];
  }

  // ---------------------------------------------------------------------
  // Round trip through the block form.

  lemma IndentationWhitespace(n: nat)
    ensures AllWhitespace(Spaces(n)) && AllWhitespace("\n" + Spaces(n))
    ensures '\n' !in Spaces(n) && '\r' !in Spaces(n)
  {
  }

  /// The dedent of the block form gives the lines back.
  lemma NormalizeBlock(xs: seq<string>, indentation: string)
    requires |xs| >= 2
    requires forall k :: 0 <= k < |xs| ==> '\n' !in xs[k] && '\r' !in xs[k]
    requires xs[0] != [] && !IsWhitespace(xs[0][0])
    requires xs[|xs| - 1] != [] && !IsWhitespace(xs[|xs| - 1][|xs[|xs| - 1]| - 1])
    requires AllWhitespace(indentation) && AllWhitespace("\n" + indentation)
    requires '\n' !in indentation && '\r' !in indentation
    ensures NormalizeInlineSnapshot(("\n" + Join(S.Indented(xs, indentation), "\n")) + ("\n" + indentation))
      == Join(xs, "\n")
  {
    var ys := S.Indented(xs, indentation);
    var block := "\n" + Join(ys, "\n");
    S.MinIndentationOfBlock(xs, indentation);
    assert ys[0] != [];
    NormalizeOfLines(block + ("\n" + indentation), block, ys, |indentation|);
    S.DropIndented(xs, indentation);
  }

  /// The older normalization of a text whose trimmed lines are an empty
  /// line followed by lines of which the first is not empty.
  lemma NormalizeOfLines(snapshot: string, block: string, ys: seq<string>, n: nat)
    requires TrimEnd(snapshot) == block && Lines(block) == [""] + ys
    requires ys != [] && ys[0] != []
    requires |S.MinIndentation(snapshot)| == n
    ensures NormalizeInlineSnapshot(snapshot) == Join(S.DropEach(ys, n), "\n")
  {
    var lines := [""] + ys;
    assert lines[1..] == ys;
    assert SkipEmpty(lines) == ys;
  }

  /// Reading back the literal with a wide enough fence around what
  /// `to_inline` writes for text of several lines (the literal `to_inline`
  /// writes itself whenever `AsWrittenIsIntended` applies) gives the text back, when its first line starts with neither whitespace nor
  /// `⋮`, its last ends without whitespace, and it has no carriage return.
  lemma {:induction false} InlineRoundTrip(xs: seq<string>, indentation: nat)
    requires |xs| >= 2
    requires forall k :: 0 <= k < |xs| ==> '\n' !in xs[k] && '\r' !in xs[k]
    requires xs[0] != [] && !IsWhitespace(xs[0][0]) && xs[0][0] != Ellipsis
    requires xs[|xs| - 1] != [] && !IsWhitespace(xs[|xs| - 1][|xs[|xs| - 1]| - 1])
    ensures var c := Join(xs, "\n");
      IsEscape(c)
      && ReadLiteral(InlineLiteral(c, indentation)) == Some(Body(c, indentation))
      && GetInlineSnapshotValue(Body(c, indentation)) == c
  {
    var c := Join(xs, "\n");
    var ind := Spaces(indentation);
    IndentationWhitespace(indentation);
    S.MultiLineJoin(xs);
    InlineLiteralReadsBack(c, indentation);
    S.BodyIsBlock(xs, ind);
    S.BodyStart(xs, ind);
    NormalizeBlock(xs, ind);
  }

  // ---------------------------------------------------------------------
  // Names and metadata of a snapshot file.

  /// The names `from_file` derives from the path: the module name is the
  /// file name up to the first `__`; the snapshot name is what follows the
  /// first `__` in the part before the first `.`, if there is one.  `None`
  /// when the path has no file name, where the source panics.
  function FileNames(p: Paths.Path): Option<(string, Option<string>)>
  {
    match Paths.FileName(p)
    case None => None
    case Some(name) => Some(NamesOf(name))
  }

  /// The module and snapshot names of a file name.
  function NamesOf(name: string): (string, Option<string>)
  {
    var moduleName := name[..Find(name, "__")];
    var base := name[..IndexOfChar(name, '.')];
    var j := Find(base, "__");
    (moduleName, if j == |base| then None else Some(base[j + 2..]))
  }

  /// The file name `{module}__{name}.{ext}` gives its module and snapshot
  /// names back, when the module name has no `.` and no `__` (also not one
  /// made with the first `_` of the separator) and the snapshot name no `.`.
  lemma {:induction false} FileNamesOfComponents(dir: Paths.Path, m: string, s: string, ext: string)
    requires forall j :: 0 <= j < |m| ==> !At(m + "_", j, "__")
    requires '.' !in m && '.' !in s
    requires m + "__" + s + "." + ext != "" && m + "__" + s + "." + ext != ".."
    ensures FileNames(dir + [m + "__" + s + "." + ext]) == Some((m, Some(s)))
  {
    var name := m + "__" + s + "." + ext;
    var p := dir + [name];
    assert p[|p| - 1] == name;
    SeparatorFound(name, m);
    assert name[..|m|] == m;
    var dot := |m| + 2 + |s|;
    assert name[dot] == '.';
    forall j | 0 <= j < dot ensures name[j] != '.' {
      if j >= |m| + 2 {
        assert name[j] == s[j - |m| - 2];
      } else if j < |m| {
        assert name[j] == m[j];
      }
    }
    var base := name[..dot];
    assert base == m + "__" + s;
    SeparatorFound(base, m);
    assert base[|m| + 2..] == s;
  }

  /// The first `__` of a text that starts with `m` and then `__`.
  lemma SeparatorFound(t: string, m: string)
    requires forall j :: 0 <= j < |m| ==> !At(m + "_", j, "__")
    requires |m| + 2 <= |t| && t[..|m| + 2] == m + "__"
    ensures Find(t, "__") == |m|
  {
    assert At(t, |m|, "__") by {
      assert t[|m|..|m| + 2] == t[..|m| + 2][|m|..];
    }
    forall j | 0 <= j < |m| ensures !At(t, j, "__") {
      var u := t[..|m| + 1];
      assert u == m + "_";
      assert t[j..j + 2] == u[j..j + 2];
      assert !At(u, j, "__");
    }
  }

  /// The module name never holds a `__`; it and the snapshot name are
  /// pieces of the file name.
  lemma FileNamesSplit(p: Paths.Path)
    ensures FileNames(p).Some? <==> Paths.FileName(p).Some?
    ensures FileNames(p).Some? ==>
      var name := Paths.FileName(p).value;
      var (moduleName, snapshotName) := FileNames(p).value;
      moduleName <= name
      && (forall j :: 0 <= j < |moduleName| ==> !At(name, j, "__"))
      && (snapshotName.Some? ==>
            '.' !in snapshotName.value
            && Contains(name, "__" + snapshotName.value))
  {
    if Paths.FileName(p).Some? {
      var name := Paths.FileName(p).value;
      var base := name[..IndexOfChar(name, '.')];
      var j := Find(base, "__");
      if j < |base| {
        var sn := base[j + 2..];
        assert FileNames(p).value == NamesOf(name);
        assert name[j..j + 2 + |sn|] == base[j..];
        assert base[j..] == "__" + sn by {
          assert base[j..j + 2] == "__";
        }
        assert At(name, j, "__" + sn);
        forall k | 0 <= k < |sn| ensures sn[k] != '.' {
          assert sn[k] == name[j + 2 + k];
        }
      }
    }
  }

  /// The older `MetaData`.
  datatype MetaData = MetaData(
    source: Option<string>,
    assertionLine: Option<C.u32>,
    description: Option<string>,
    expression: Option<string>,
    info: Option<C.Content>,
    inputFile: Option<string>)

  /// The metadata `save` (`asNew` false) and `save_new` (`asNew` true)
  /// write: a regular snapshot loses its assertion line, a `.new` file
  /// keeps it, and nothing else changes.
  function SavedMetaData(md: MetaData, asNew: bool): (r: MetaData)
    ensures r.assertionLine == (if asNew then md.assertionLine else Option.None)
    ensures r.(assertionLine := md.assertionLine) == md
  {
    if !asNew && md.assertionLine.Some? then md.(assertionLine := Option.None) else md
  }
}
