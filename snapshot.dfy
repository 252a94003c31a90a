// Snapshot contents and their text forms (insta/src/snapshot.rs): the
// normalisation that decides when two snapshots are equal, the Rust
// string literal an inline snapshot is written back as, the older `⋮`
// inline format, the names derived from a snapshot file's path, and the
// pending-snapshot batch filter.
module Snapshot {
  import opened Wrappers
  import opened Strs
  import opened RustStrings
  import opened LegacyInline
  import Paths
  import C = Contents

  // ---------------------------------------------------------------------
  // The `#` fence of a raw string literal (`required_hashes`).

  function Max(a: nat, b: nat): nat
  {
    if a >= b then a else b
  }

  /// The largest `hashes + 1` over the pieces, 0 for no pieces.
  function MaxHashes(ps: seq<string>): nat
  {
    if ps == [] then 0 else Max(HashRun(ps[0]) + 1, MaxHashes(ps[1..]))
  }

  /// `required_hashes`: the pieces after each `"` are measured by their
  /// leading `#` run plus one, and the largest is taken.
  function RequiredHashes(text: string): nat
  {
    MaxHashes(Split(text, '"')[1..])
  }

  lemma {:induction false} HashRunUntil(t: string, j: nat)
    requires j <= |t| && (j == |t| || t[j] != '#')
    ensures HashRun(t[..j]) == HashRun(t)
    decreases |t|
  {
    if t != [] && t[0] == '#' {
      assert j > 0;
      assert t[..j][1..] == t[1..][..j - 1];
      HashRunUntil(t[1..], j - 1);
    } else if j > 0 {
      assert t[..j][0] == t[0];
    }
  }

  /// One step of `required_hashes` at the first quote.
  lemma {:induction false} RequiredHashesAt(s: string, f: nat)
    requires f == IndexOfChar(s, '"') && f < |s|
    ensures RequiredHashes(s) == Max(HashRun(s[f + 1..]) + 1, RequiredHashes(s[f + 1..]))
  {
    RequiredHashesAfterQuote(s, f);
    MaxHashesSplit(s[f + 1..]);
  }

  lemma {:induction false} RequiredHashesAfterQuote(s: string, f: nat)
    requires f == IndexOfChar(s, '"') && f < |s|
    ensures RequiredHashes(s) == MaxHashes(Split(s[f + 1..], '"'))
  {
    SplitFirst(s, '"');
  }

  lemma {:induction false} MaxHashesSplit(t: string)
    ensures MaxHashes(Split(t, '"')) == Max(HashRun(t) + 1, RequiredHashes(t))
  {
    var qs := Split(t, '"');
    assert MaxHashes(qs) == Max(HashRun(qs[0]) + 1, MaxHashes(qs[1..]));
    SplitFirst(t, '"');
    HashRunUntil(t, IndexOfChar(t, '"'));
  }

  lemma {:induction false} RequiredHashesNone(s: string)
    requires IndexOfChar(s, '"') == |s|
    ensures RequiredHashes(s) == 0
  {
  }

  /// The fence taken over the quotes at positions `i` and later: the
  /// reference definition `required_hashes` is compared against.
  function FenceFrom(s: string, i: nat): nat
    decreases |s| - i
  {
    if i >= |s| then 0
    else if s[i] == '"' then Max(HashRun(s[i + 1..]) + 1, FenceFrom(s, i + 1))
    else FenceFrom(s, i + 1)
  }

  lemma {:induction false} FenceFromSkip(s: string, i: nat, j: nat)
    requires i <= j <= |s|
    requires forall k :: i <= k < j ==> s[k] != '"'
    ensures FenceFrom(s, i) == FenceFrom(s, j)
    decreases j - i
  {
    if i < j {
      FenceFromSkip(s, i + 1, j);
    }
  }

  /// Every quote at `i` or later is followed by fewer hashes than the fence.
  lemma {:induction false} FenceFromBound(s: string, i: nat)
    ensures forall q :: i <= q < |s| && s[q] == '"' ==> HashRun(s[q + 1..]) < FenceFrom(s, i)
    decreases |s| - i
  {
    if i < |s| {
      FenceFromBound(s, i + 1);
    }
  }

  /// A positive fence is one more than the hash run after some quote.
  lemma {:induction false} FenceFromAttained(s: string, i: nat) returns (q: nat)
    requires FenceFrom(s, i) > 0
    ensures i <= q < |s| && s[q] == '"' && HashRun(s[q + 1..]) + 1 == FenceFrom(s, i)
    decreases |s| - i
  {
    if s[i] == '"' && HashRun(s[i + 1..]) + 1 >= FenceFrom(s, i + 1) {
      q := i;
    } else {
      q := FenceFromAttained(s, i + 1);
    }
  }

  /// `required_hashes` of a suffix is the reference fence from there.
  lemma {:induction false} RequiredHashesSuffix(s: string, i: nat)
    requires i <= |s|
    ensures RequiredHashes(s[i..]) == FenceFrom(s, i)
    decreases |s| - i
  {
    var f := IndexOfChar(s[i..], '"');
    if i + f == |s| {
      SuffixWithoutQuote(s, i, f);
    } else {
      SuffixAtQuote(s, i, f);
      RequiredHashesSuffix(s, i + f + 1);
    }
  }

  lemma SuffixWithoutQuote(s: string, i: nat, f: nat)
    requires i <= |s| && f == IndexOfChar(s[i..], '"') && i + f == |s|
    ensures RequiredHashes(s[i..]) == 0 == FenceFrom(s, i)
  {
    FenceFromToQuote(s, i, f);
    RequiredHashesNone(s[i..]);
  }

  /// Both fences step over the first quote from `i` the same way.
  lemma SuffixAtQuote(s: string, i: nat, f: nat)
    requires i <= |s| && f == IndexOfChar(s[i..], '"') && i + f < |s|
    ensures RequiredHashes(s[i..]) == Max(HashRun(s[i + f + 1..]) + 1, RequiredHashes(s[i + f + 1..]))
    ensures FenceFrom(s, i) == Max(HashRun(s[i + f + 1..]) + 1, FenceFrom(s, i + f + 1))
  {
    FenceFromToQuote(s, i, f);
    RequiredHashesAt(s[i..], f);
    SuffixOfSuffix(s, i, f);
  }

  /// The fence from `i` is the fence from the first quote at or after `i`.
  lemma {:induction false} FenceFromToQuote(s: string, i: nat, f: nat)
    requires i <= |s| && f == IndexOfChar(s[i..], '"')
    ensures i + f < |s| ==> FenceFrom(s, i) == Max(HashRun(s[i + f + 1..]) + 1, FenceFrom(s, i + f + 1))
    ensures i + f == |s| ==> FenceFrom(s, i) == 0
  {
    QuoteFreeSuffixPrefix(s, i, f);
    FenceFromSkip(s, i, i + f);
    if i + f < |s| {
      FenceFromQuote(s, i + f);
    }
  }

  lemma {:induction false} FenceFromQuote(s: string, q: nat)
    requires q < |s| && s[q] == '"'
    ensures FenceFrom(s, q) == Max(HashRun(s[q + 1..]) + 1, FenceFrom(s, q + 1))
  {
  }

  lemma {:induction false} QuoteFreeSuffixPrefix(s: string, i: nat, f: nat)
    requires i <= |s| && f == IndexOfChar(s[i..], '"')
    ensures forall k :: i <= k < i + f ==> s[k] != '"'
    ensures i + f < |s| ==> s[i + f] == '"'
  {
    forall k | i <= k < i + f ensures s[k] != '"' {
      assert s[k] == s[i..][k - i];
    }
  }

  lemma {:induction false} SuffixOfSuffix(s: string, i: nat, f: nat)
    requires i + f < |s|
    ensures HashRun(s[i..][f + 1..]) == HashRun(s[i + f + 1..])
    ensures RequiredHashes(s[i..][f + 1..]) == RequiredHashes(s[i + f + 1..])
  {
    assert s[i..][f + 1..] == s[i + f + 1..];
  }

  /// The fence `to_inline` computes is wide enough: a quote followed by
  /// as many hashes as the fence never occurs in the text, some quote is
  /// followed by exactly one hash fewer, and a text without quotes needs
  /// no fence.
  lemma {:induction false} RequiredHashesBound(s: string)
    ensures QuotesFenced(s, RequiredHashes(s))
    ensures '"' in s ==> exists i :: 0 <= i < |s| && s[i] == '"' && HashRun(s[i + 1..]) + 1 == RequiredHashes(s)
    ensures '"' !in s ==> RequiredHashes(s) == 0
  {
    RequiredHashesSuffix(s, 0);
    assert s[0..] == s;
    FenceFromBound(s, 0);
    if FenceFrom(s, 0) > 0 {
      var q := FenceFromAttained(s, 0);
    }
  }

  // ---------------------------------------------------------------------
  // Indentation of inline snapshots.

  /// The leading whitespace of every non-empty line, in order.
  function IndentsOfNonEmpty(ls: seq<string>): (r: seq<string>)
    ensures |r| <= |ls|
  {
    if ls == [] then []
    else (if ls[0] != [] then [LeadingWhitespace(ls[0])] else []) + IndentsOfNonEmpty(ls[1..])
  }

  /// `min_by(len)` folded from the left: the first of the shortest.
  function ShortestFrom(acc: string, xs: seq<string>): string
    decreases |xs|
  {
    if xs == [] then acc
    else ShortestFrom(if |xs[0]| < |acc| then xs[0] else acc, xs[1..])
  }

  function Shortest(xs: seq<string>): Option<string>
  {
    if xs == [] then None else Some(ShortestFrom(xs[0], xs[1..]))
  }

  lemma {:induction false} ShortestFromIsFirstShortest(acc: string, xs: seq<string>)
    ensures var r := ShortestFrom(acc, xs);
      (r == acc || exists k :: 0 <= k < |xs| && r == xs[k] && |xs[k]| < |acc|
                              && forall j :: 0 <= j < k ==> |xs[j]| > |r|)
      && |r| <= |acc| && forall k :: 0 <= k < |xs| ==> |r| <= |xs[k]|
    ensures |ShortestFrom(acc, xs)| == |acc| ==> ShortestFrom(acc, xs) == acc
    decreases |xs|
  {
    if xs != [] {
      var acc' := if |xs[0]| < |acc| then xs[0] else acc;
      ShortestFromIsFirstShortest(acc', xs[1..]);
      var r := ShortestFrom(acc', xs[1..]);
      if r != acc && r != acc' {
        var k :| 0 <= k < |xs[1..]| && r == xs[1..][k] && |xs[1..][k]| < |acc'|
                 && forall j :: 0 <= j < k ==> |xs[1..][j]| > |r|;
        assert r == xs[k + 1];
        forall j | 0 <= j < k + 1 ensures |xs[j]| > |r| {
          if j > 0 {
            assert xs[j] == xs[1..][j - 1];
          }
        }
      } else if r == acc' && acc' != acc {
        assert r == xs[0];
      }
      forall k | 0 <= k < |xs| ensures |r| <= |xs[k]| {
        if k > 0 {
          assert xs[k] == xs[1..][k - 1];
        }
      }
    }
  }

  /// The shortest of `xs`, the first among equals.
  lemma {:induction false} ShortestIsFirstShortest(xs: seq<string>)
    ensures Shortest(xs).None? <==> xs == []
    ensures Shortest(xs).Some? ==>
      exists k :: (0 <= k < |xs| && Shortest(xs).value == xs[k]
                   && (forall j :: 0 <= j < k ==> |xs[j]| > |xs[k]|)
                   && (forall j :: 0 <= j < |xs| ==> |xs[k]| <= |xs[j]|))
  {
    if xs != [] {
      ShortestFromIsFirstShortest(xs[0], xs[1..]);
      var r := ShortestFrom(xs[0], xs[1..]);
      forall j | 0 < j < |xs| ensures |r| <= |xs[j]| {
        assert xs[j] == xs[1..][j - 1];
      }
      if r != xs[0] {
        var k :| 0 <= k < |xs[1..]| && r == xs[1..][k] && |xs[1..][k]| < |xs[0]|
                 && forall j :: 0 <= j < k ==> |xs[1..][j]| > |r|;
        assert r == xs[k + 1];
        forall j | 0 <= j < k + 1 ensures |xs[j]| > |r| {
          if j > 0 {
            assert xs[j] == xs[1..][j - 1];
          }
        }
      }
    }
  }

  /// `min_indentation`: "" for text of at most one line (after trimming
  /// the end); otherwise the shortest leading whitespace of a non-empty
  /// line, the first one on ties, or "" when no line is non-empty.
  function MinIndentation(snapshot: string): string
  {
    var lines := Lines(TrimEnd(snapshot));
    if |lines| <= 1 then ""
    else Shortest(IndentsOfNonEmpty(lines)).UnwrapOr("")
  }

  /// What `min_indentation` promises, stated over the lines.
  lemma {:induction false} MinIndentationSpec(snapshot: string)
    ensures var lines := Lines(TrimEnd(snapshot));
            var ws := IndentsOfNonEmpty(lines);
            var r := MinIndentation(snapshot);
      (|lines| <= 1 ==> r == "")
      && (|lines| > 1 && ws == [] ==> r == "")
      && (|lines| > 1 && ws != [] ==>
            exists k :: 0 <= k < |ws| && r == ws[k]
              && (forall j :: 0 <= j < k ==> |ws[j]| > |r|)
              && (forall j :: 0 <= j < |ws| ==> |r| <= |ws[j]|))
  {
    ShortestIsFirstShortest(IndentsOfNonEmpty(Lines(TrimEnd(snapshot))));
  }

  /// `l.get(n..).unwrap_or("")`
  function DropPrefix(l: string, n: nat): string
  {
    if n <= |l| then l[n..] else ""
  }

  function DropEach(ls: seq<string>, n: nat): (r: seq<string>)
    ensures |r| == |ls|
    ensures forall k :: 0 <= k < |ls| ==> r[k] == DropPrefix(ls[k], n)
  {
    if ls == [] then [] else [DropPrefix(ls[0], n)] + DropEach(ls[1..], n)
  }

  /// `normalize_inline_snapshot`: as many characters as the minimal
  /// indentation is long are cut from every line, whatever they are; a
  /// shorter line becomes empty; the lines are joined with "\n".
  function NormalizeInlineSnapshot(snapshot: string): string
  {
    var n := |MinIndentation(snapshot)|;
    Join(DropEach(Lines(snapshot), n), "\n")
  }

  // ---------------------------------------------------------------------
  // Snapshot contents.

  datatype TextSnapshotKind = Inline | File

  datatype TextSnapshotContents = TextSnapshotContents(contents: string, kind: TextSnapshotKind)

  datatype SnapshotContents = Text(text: TextSnapshotContents) | Binary(bytes: seq<C.u8>)

  /// `normalize`: the inline dedent for inline snapshots, then the part
  /// common to both kinds.
  function Normalize(t: TextSnapshotContents): (r: string)
    ensures r == [] || (r[0] != '\r' && r[0] != '\n' && !IsWhitespace(r[|r| - 1]))
  {
    Tidy(if t.kind == Inline then NormalizeInlineSnapshot(t.contents) else t.contents)
  }

  /// The end of `normalize`: leading line breaks and trailing whitespace
  /// removed and "\r\n" turned into "\n".
  function Tidy(kindSpecific: string): (r: string)
    ensures r == [] || (r[0] != '\r' && r[0] != '\n' && !IsWhitespace(r[|r| - 1]))
  {
    var out := TrimEnd(TrimStartNewlines(kindSpecific));
    ReplaceEnds(out, "\r\n", "\n");
    Replace(out, "\r\n", "\n")
  }

  /// Text already in normal form is its own normal form as a file snapshot.
  lemma {:induction false} NormalizeFileFixed(s: string)
    requires s == [] || (s[0] != '\r' && s[0] != '\n' && !IsWhitespace(s[|s| - 1]))
    requires '\r' !in s
    ensures Normalize(TextSnapshotContents(s, File)) == s
  {
    TrimStartNewlinesNone(s);
    TrimEndNone(s);
    ReplaceAbsent(s, "\r\n", "\n");
  }

  // ---------------------------------------------------------------------
  // The literal `to_inline` writes back into the source file.

  /// A control character other than "\n", "\t" and ESC: one a raw literal
  /// is not allowed to hold.
  predicate NeedsEscape(c: char)
  {
    IsControl(c) && c != '\n' && c != '\t' && c != '\U{001B}'
  }

  predicate HasControlChars(s: string)
  {
    exists i :: 0 <= i < |s| && NeedsEscape(s[i])
  }

  /// Whether `to_inline` writes a raw literal.
  predicate UsesRaw(s: string)
  {
    !HasControlChars(s) && ('\\' in s || '"' in s || '\n' in s)
  }

  /// One line of the block form: a line break, the indentation unless the
  /// line is empty, and the line.
  function BlockLine(l: string, indentation: string): string
  {
    "\n" + (if l == [] then "" else indentation) + l
  }

  function Block(ls: seq<string>, indentation: string): string
    decreases |ls|
  {
    if ls == [] then [] else Block(ls[..|ls| - 1], indentation) + BlockLine(ls[|ls| - 1], indentation)
  }

  /// What goes between the quotes of a literal without escapes: the block
  /// form, closed by a line break and the indentation, for multi-line
  /// text, the text itself otherwise.
  function QuotedBody(contents: string, indentation: string): string
  {
    if '\n' in contents then Block(Lines(contents), indentation) + "\n" + indentation else contents
  }

  /// The `#` fence, `required_hashes` wide.
  function Fence(contents: string): string
  {
    Hashes(RequiredHashes(contents))
  }

  /// The literal between the fences: the `Debug` string when there are
  /// control characters, the quoted body otherwise.
  function Middle(contents: string, indentation: string): string
  {
    if HasControlChars(contents) then DebugStr(contents)
    else "\"" + QuotedBody(contents, indentation) + "\""
  }

  /// `to_inline` on normalised text, as written: the `#` fence of
  /// `required_hashes` is put around the literal in every case, also
  /// around the escaped `Debug` string, which is not a raw literal.
  function InlineLiteralAsWritten(contents: string, indentation: string): string
  {
    (if UsesRaw(contents) then "r" else "") + Fence(contents) + Middle(contents, indentation) + Fence(contents)
  }

  /// `to_inline` as intended: the fence only around literals without
  /// escapes.
  function InlineLiteral(contents: string, indentation: string): string
  {
    var delimiter := if HasControlChars(contents) then "" else Fence(contents);
    (if UsesRaw(contents) then "r" else "") + delimiter + Middle(contents, indentation) + delimiter
  }

  /// `TextSnapshotContents::to_inline`
  method ToInline(t: TextSnapshotContents, indentation: string) returns (out: string)
    ensures out == InlineLiteralAsWritten(Normalize(t), indentation)
  {
    var contents := Normalize(t);
    out := [];
    var hasControlChars := HasControlChars(contents);
    if !hasControlChars && ('\\' in contents || '"' in contents || '\n' in contents) {
      out := out + "r";
      assert out == "r";
    }
    var delimiter := Hashes(RequiredHashes(contents));
    out := out + delimiter;
    out := PushMiddle(out, contents, hasControlChars, indentation);
    out := out + delimiter;
  }

  /// The part of `to_inline` between the fences, pushed onto `out`.
  method PushMiddle(out0: string, contents: string, hasControlChars: bool, indentation: string)
    returns (out: string)
    requires hasControlChars == HasControlChars(contents)
    ensures out == out0 + Middle(contents, indentation)
  {
    out := out0;
    if hasControlChars {
      out := out + DebugStr(contents);
    } else {
      out := out + "\"";
      if '\n' in contents {
        var ls := Lines(contents);
        out := PushBlock(out, ls, indentation);
        out := out + "\n" + indentation;
        AppendAssoc(out0 + "\"" + Block(ls, indentation), "\n", indentation);
        AppendAssoc(out0 + "\"", Block(ls, indentation), "\n" + indentation);
      } else {
        out := out + contents;
      }
      ghost var body := QuotedBody(contents, indentation);
      assert out == out0 + "\"" + body;
      AppendAssoc(out0, "\"", body);
      out := out + "\"";
      AppendAssoc(out0, "\"" + body, "\"");
    }
  }

  /// The lines of the block form, pushed onto `out` one by one.
  method PushBlock(out0: string, ls: seq<string>, indentation: string) returns (out: string)
    ensures out == out0 + Block(ls, indentation)
  {
    out := out0;
    for k := 0 to |ls|
      invariant out == out0 + Block(ls[..k], indentation)
    {
      out := out + BlockLine(ls[k], indentation);
      assert ls[..k + 1][..k] == ls[..k];
    }
    assert ls[..|ls|] == ls;
  }

  // ---------------------------------------------------------------------
  // What the literal reads back as.

  lemma {:induction false} HashRunPrefix(p: string, s: string)
    requires p <= s
    ensures HashRun(p) <= HashRun(s)
  {
    if p != [] && p[0] == '#' {
      HashRunPrefix(p[1..], s[1..]);
    }
  }

  /// A piece of fenced text is fenced: the hashes after a quote can only
  /// get fewer when the text is cut.
  lemma {:induction false} FencedSlice(s: string, a: nat, b: nat, n: nat)
    requires a <= b <= |s| && QuotesFenced(s, n)
    ensures QuotesFenced(s[a..b], n)
  {
    var t := s[a..b];
    forall i | 0 <= i < |t| && t[i] == '"' ensures HashRun(t[i + 1..]) < n {
      SlicePiece(s, a, b, i);
      HashRunPrefix(t[i + 1..], s[a + i + 1..]);
    }
  }

  lemma SlicePiece(s: string, a: nat, b: nat, i: nat)
    requires a <= b <= |s| && i < b - a
    ensures s[a..b][i] == s[a + i] && s[a..b][i + 1..] <= s[a + i + 1..]
  {
  }

  /// Every line of fenced text is fenced.
  lemma {:induction false} FencedLines(s: string, n: nat)
    requires QuotesFenced(s, n)
    ensures forall k :: 0 <= k < |Lines(s)| ==> QuotesFenced(Lines(s)[k], n)
    decreases |s|
  {
    if s != [] {
      var i := IndexOfChar(s, '\n');
      if i < |s| {
        FencedSlice(s, 0, i, n);
        if i > 0 && s[..i][i - 1] == '\r' {
          FencedSlice(s, 0, i - 1, n);
          assert StripCr(s[..i]) == s[0..i - 1];
        } else {
          assert StripCr(s[..i]) == s[0..i];
        }
        FencedSlice(s, i + 1, |s|, n);
        assert s[i + 1..|s|] == s[i + 1..];
        FencedLines(s[i + 1..], n);
      } else {
        assert s[0..|s|] == s;
      }
    }
  }

  /// Fenced text after quote-free text is still fenced.
  lemma FencedAfterPlain(x: string, l: string, n: nat)
    requires '"' !in x && QuotesFenced(l, n)
    ensures QuotesFenced(x + l, n)
  {
    forall i | 0 <= i < |x + l| && (x + l)[i] == '"' ensures HashRun((x + l)[i + 1..]) < n {
      if i >= |x| {
        assert (x + l)[i + 1..] == l[i - |x| + 1..];
      }
    }
  }

  /// Two fenced pieces stay fenced when the second does not start with `#`.
  lemma FencedConcat(a: string, b: string, n: nat)
    requires QuotesFenced(a, n) && QuotesFenced(b, n) && (b == [] || b[0] != '#')
    ensures QuotesFenced(a + b, n)
  {
    forall i | 0 <= i < |a + b| && (a + b)[i] == '"' ensures HashRun((a + b)[i + 1..]) < n {
      if i < |a| {
        assert (a + b)[i] == a[i];
        assert (a + b)[i + 1..] == a[i + 1..] + b;
        HashRunStop(a[i + 1..], b);
      } else {
        assert (a + b)[i + 1..] == b[i - |a| + 1..];
      }
    }
  }

  lemma {:induction false} FencedBlock(ls: seq<string>, indentation: string, n: nat)
    requires '"' !in indentation
    requires forall k :: 0 <= k < |ls| ==> QuotesFenced(ls[k], n)
    ensures QuotesFenced(Block(ls, indentation), n)
    ensures Block(ls, indentation) == [] || Block(ls, indentation)[0] == '\n'
    decreases |ls|
  {
    if ls != [] {
      var init := ls[..|ls| - 1];
      var l := ls[|ls| - 1];
      FencedBlock(init, indentation, n);
      var x := "\n" + (if l == [] then "" else indentation);
      FencedAfterPlain(x, l, n);
      FencedConcat(Block(init, indentation), BlockLine(l, indentation), n);
    }
  }

  /// The quoted body of fenced text is fenced.
  lemma FencedBody(c: string, indentation: string, n: nat)
    requires '"' !in indentation && QuotesFenced(c, n)
    ensures QuotesFenced(QuotedBody(c, indentation), n)
  {
    if '\n' in c {
      FencedLines(c, n);
      FencedBlock(Lines(c), indentation, n);
      FencedNoQuote("\n" + indentation, n);
      FencedConcat(Block(Lines(c), indentation), "\n" + indentation, n);
      AppendAssoc(Block(Lines(c), indentation), "\n", indentation);
    }
  }

  lemma FencedNoQuote(x: string, n: nat)
    requires '"' !in x
    ensures QuotesFenced(x, n)
  {
  }

  /// The literal `to_inline` is meant to write reads back, as a Rust
  /// string literal, as the text itself when it has control characters and
  /// as the quoted body (the text itself when it is one line) otherwise; it
  /// is a raw literal exactly when `UsesRaw` holds.  Indentation holds no
  /// quote.
  lemma InlineLiteralReadsBack(c: string, indentation: string)
    requires '"' !in indentation
    ensures var lit := InlineLiteral(c, indentation);
      |lit| >= 2 && lit[0] == (if UsesRaw(c) then 'r' else '"')
      && ReadLiteral(lit) == Some(if HasControlChars(c) then c else QuotedBody(c, indentation))
  {
    if HasControlChars(c) {
      EscapedLiteralReadsBack(c, indentation);
    } else if UsesRaw(c) {
      RawLiteralReadsBack(c, indentation);
    } else {
      PlainLiteralReadsBack(c, indentation);
    }
  }

  lemma EscapedLiteralReadsBack(c: string, indentation: string)
    requires HasControlChars(c)
    ensures InlineLiteral(c, indentation) == DebugStr(c)
    ensures ReadLiteral(DebugStr(c)) == Some(c)
  {
    var d := DebugStr(c);
    assert InlineLiteral(c, indentation) == [] + [] + Middle(c, indentation) + [];
    UnescapeEscape(c);
    assert ReadLiteral(d) == Unescape(d[1..|d| - 1]);
  }

  lemma RawLiteralReadsBack(c: string, indentation: string)
    requires '"' !in indentation && UsesRaw(c)
    ensures InlineLiteral(c, indentation)
      == "r" + Fence(c) + "\"" + QuotedBody(c, indentation) + "\"" + Fence(c)
    ensures ReadLiteral(InlineLiteral(c, indentation)) == Some(QuotedBody(c, indentation))
  {
    var n := RequiredHashes(c);
    var body := QuotedBody(c, indentation);
    RequiredHashesBound(c);
    FencedBody(c, indentation, n);
    ReadRawFenced(body, n);
    AppendAssoc("r" + Fence(c), "\"" + body, "\"");
    AppendAssoc("r" + Fence(c), "\"", body);
  }

  lemma PlainLiteralReadsBack(c: string, indentation: string)
    requires !HasControlChars(c) && !UsesRaw(c)
    ensures InlineLiteral(c, indentation) == "\"" + c + "\""
    ensures ReadLiteral("\"" + c + "\"") == Some(c)
  {
    RequiredHashesBound(c);
    assert Fence(c) == [];
    assert InlineLiteral(c, indentation) == [] + [] + Middle(c, indentation) + [];
    var lit := "\"" + c + "\"";
    assert lit[1..|lit| - 1] == c;
    UnescapePlain(c);
  }

  /// The fence as written makes the escaped literal unreadable: text with
  /// a control character and a quote gets a literal that starts with `#`,
  /// which is no Rust string literal.
  lemma InlineLiteralAsWrittenUnreadable(c: string, indentation: string)
    requires HasControlChars(c) && '"' in c
    ensures InlineLiteralAsWritten(c, indentation)[0] == '#'
    ensures ReadLiteral(InlineLiteralAsWritten(c, indentation)) == None
  {
    RequiredHashesBound(c);
    FencedLiteralStart(Fence(c), DebugStr(c));
    assert InlineLiteralAsWritten(c, indentation) == [] + Fence(c) + DebugStr(c) + Fence(c);
  }

  lemma FencedLiteralStart(h: string, d: string)
    requires |h| > 0 && h[0] == '#'
    ensures ([] + h + d + h)[0] == '#'
    ensures ReadLiteral([] + h + d + h) == None
  {
  }

  /// One-line text in normal form is its own normal form as an inline
  /// snapshot: with `InlineLiteralReadsBack` (the quoted body of one line
  /// is the line), the literal `to_inline` writes for it reads back as the
  /// same snapshot.
  lemma {:induction false} NormalizeInlineOneLine(s: string)
    requires '\n' !in s
    requires s == [] || (s[0] != '\r' && !IsWhitespace(s[|s| - 1]))
    ensures Normalize(TextSnapshotContents(s, Inline)) == s
  {
    TrimEndNone(s);
    if s != [] {
      assert Lines(s) == [s];
    }
    assert DropEach(Lines(s), 0) == Lines(s);
    TrimStartNewlinesNone(s);
    ReplaceAbsentLast(s, "\r\n", "\n");
  }

  /// A snapshot `a\r"` is its own normal form and has a control character
  /// and a quote, so `to_inline` writes the unreadable `#"a\r\""#` for it.
  lemma FenceAroundEscapedExample()
    ensures Normalize(TextSnapshotContents("a\r\"", Inline)) == "a\r\""
    ensures HasControlChars("a\r\"") && '"' in "a\r\""
  {
    var s := "a\r\"";
    assert NeedsEscape(s[1]);
    assert s[2] == '"';
    NormalizeInlineOneLine(s);
  }

  // ---------------------------------------------------------------------
  // The block form read back: its lines, and the indentation the dedent
  // measures.

  /// A line of the block form without its line break.
  function Indent(l: string, indentation: string): string
  {
    if l == [] then [] else indentation + l
  }

  function Indented(xs: seq<string>, indentation: string): (r: seq<string>)
    ensures |r| == |xs|
    ensures forall k :: 0 <= k < |xs| ==> r[k] == Indent(xs[k], indentation)
  {
    if xs == [] then [] else [Indent(xs[0], indentation)] + Indented(xs[1..], indentation)
  }

  /// The block form is a line break followed by the indented lines.
  lemma {:induction false} BlockOfLines(xs: seq<string>, indentation: string)
    requires xs != []
    ensures Block(xs, indentation) == "\n" + Join(Indented(xs, indentation), "\n")
    decreases |xs|
  {
    var init := xs[..|xs| - 1];
    var last := xs[|xs| - 1];
    BlockSnoc(xs, indentation);
    if |xs| == 1 {
      assert Block(init, indentation) == [];
    } else {
      BlockOfLines(init, indentation);
      var l := Indent(last, indentation);
      IndentedSnoc(xs, indentation);
      JoinSnoc(Indented(init, indentation), l, "\n");
      Regroup(Join(Indented(init, indentation), "\n"), l);
    }
  }

  lemma BlockSnoc(xs: seq<string>, indentation: string)
    requires xs != []
    ensures Block(xs, indentation)
      == Block(xs[..|xs| - 1], indentation) + ("\n" + Indent(xs[|xs| - 1], indentation))
  {
  }

  lemma {:induction false} IndentedSnoc(xs: seq<string>, indentation: string)
    requires xs != []
    ensures Indented(xs, indentation)
      == Indented(xs[..|xs| - 1], indentation) + [Indent(xs[|xs| - 1], indentation)]
    decreases |xs|
  {
    if |xs| == 1 {
      assert xs[..0] == [];
    } else {
      var init := xs[..|xs| - 1];
      IndentedSnoc(xs[1..], indentation);
      assert xs[1..][..|xs| - 2] == init[1..];
      assert init[0] == xs[0];
      var h := [Indent(xs[0], indentation)];
      var t := [Indent(xs[|xs| - 1], indentation)];
      assert Indented(xs, indentation) == h + Indented(xs[1..], indentation);
      assert Indented(init, indentation) == h + Indented(init[1..], indentation);
      assert h + (Indented(init[1..], indentation) + t) == (h + Indented(init[1..], indentation)) + t;
    }
  }

  lemma Regroup(a: string, l: string)
    ensures ("\n" + a) + ("\n" + l) == "\n" + (a + "\n" + l)
  {
  }

  /// Every prefix the dedent measures is at least the indentation, and the
  /// first line's, which has no whitespace of its own, is the indentation.
  lemma {:induction false} IndentsOfIndented(xs: seq<string>, indentation: string)
    requires AllWhitespace(indentation)
    ensures var ws := IndentsOfNonEmpty(Indented(xs, indentation));
      forall k :: 0 <= k < |ws| ==> |ws[k]| >= |indentation|
    ensures xs != [] && xs[0] != [] && !IsWhitespace(xs[0][0]) ==>
      var ws := IndentsOfNonEmpty(Indented(xs, indentation));
      ws != [] && ws[0] == indentation
    decreases |xs|
  {
    if xs != [] {
      var ys := Indented(xs, indentation);
      IndentedTail(xs, indentation);
      IndentsOfIndented(xs[1..], indentation);
      var tail := IndentsOfNonEmpty(ys[1..]);
      if xs[0] != [] {
        LeadingWhitespaceAfter(indentation, xs[0]);
        IndentsCons(ys, indentation + LeadingWhitespace(xs[0]), |indentation|);
        if !IsWhitespace(xs[0][0]) {
          assert LeadingWhitespace(xs[0]) == [];
          assert indentation + [] == indentation;
        }
      } else {
        assert IndentsOfNonEmpty(ys) == tail;
      }
    }
  }

  lemma IndentedTail(xs: seq<string>, indentation: string)
    requires xs != []
    ensures Indented(xs, indentation)[1..] == Indented(xs[1..], indentation)
    ensures Indented(xs, indentation)[0] == Indent(xs[0], indentation)
  {
  }

  /// The prefixes of lines starting with a non-empty one.
  lemma IndentsCons(ys: seq<string>, w: string, n: nat)
    requires ys != [] && ys[0] != [] && LeadingWhitespace(ys[0]) == w && |w| >= n
    requires forall k :: 0 <= k < |IndentsOfNonEmpty(ys[1..])| ==> |IndentsOfNonEmpty(ys[1..])[k]| >= n
    ensures IndentsOfNonEmpty(ys) == [w] + IndentsOfNonEmpty(ys[1..])
    ensures forall k :: 0 <= k < |IndentsOfNonEmpty(ys)| ==> |IndentsOfNonEmpty(ys)[k]| >= n
  {
    var ws := IndentsOfNonEmpty(ys);
    var tail := IndentsOfNonEmpty(ys[1..]);
    assert ws == [w] + tail;
    forall k | 0 < k < |ws| ensures |ws[k]| >= n {
      assert ws[k] == tail[k - 1];
    }
  }

  /// The dedent finds the indentation of a block whose first line starts
  /// without whitespace.
  lemma ShortestIndent(xs: seq<string>, indentation: string)
    requires AllWhitespace(indentation)
    requires xs != [] && xs[0] != [] && !IsWhitespace(xs[0][0])
    ensures Shortest(IndentsOfNonEmpty(Indented(xs, indentation))).Some?
    ensures |Shortest(IndentsOfNonEmpty(Indented(xs, indentation))).value| == |indentation|
  {
    var ws := IndentsOfNonEmpty(Indented(xs, indentation));
    IndentsOfIndented(xs, indentation);
    ShortestIsFirstShortest(ws);
  }

  /// Cutting the indentation off the indented lines gives the lines back.
  lemma DropIndented(xs: seq<string>, indentation: string)
    ensures DropEach(Indented(xs, indentation), |indentation|) == xs
  {
    var r := DropEach(Indented(xs, indentation), |indentation|);
    forall k | 0 <= k < |xs| ensures r[k] == xs[k] {
      if xs[k] != [] {
        assert (indentation + xs[k])[|indentation|..] == xs[k];
      }
    }
  }

  /// The lines of the indented block.
  lemma LinesOfIndented(xs: seq<string>, indentation: string)
    requires xs != [] && xs[|xs| - 1] != []
    requires '\n' !in indentation && '\r' !in indentation
    requires forall k :: 0 <= k < |xs| ==> '\n' !in xs[k] && '\r' !in xs[k]
    ensures Lines("\n" + Join(Indented(xs, indentation), "\n")) == [""] + Indented(xs, indentation)
  {
    var ys := Indented(xs, indentation);
    forall k | 0 <= k < |ys| ensures '\n' !in ys[k] && StripCr(ys[k]) == ys[k] {
      if xs[k] != [] {
        assert ys[k][|ys[k]| - 1] == xs[k][|xs[k]| - 1];
      }
    }
    LinesOfJoin(ys);
    var s := "\n" + Join(ys, "\n");
    assert IndexOfChar(s, '\n') == 0;
    assert s[1..] == Join(ys, "\n");
    assert StripCr(s[..0]) == "";
  }

  /// Text joined from several lines without line breaks of their own.
  lemma MultiLineJoin(xs: seq<string>)
    requires |xs| >= 2
    requires forall k :: 0 <= k < |xs| ==> '\n' !in xs[k] && '\r' !in xs[k]
    requires xs[|xs| - 1] != []
    ensures Join(xs, "\n") == xs[0] + "\n" + Join(xs[1..], "\n")
    ensures '\n' in Join(xs, "\n")
    ensures Lines(Join(xs, "\n")) == xs
  {
    JoinCons(xs[0], xs[1..], "\n");
    assert [xs[0]] + xs[1..] == xs;
    assert Join(xs, "\n")[|xs[0]|] == '\n';
    LinesOfJoin(xs);
  }

  /// What goes between the quotes for text of several lines: the block
  /// of indented lines, then a line break and the indentation.
  lemma BodyIsBlock(xs: seq<string>, indentation: string)
    requires |xs| >= 2
    requires forall k :: 0 <= k < |xs| ==> '\n' !in xs[k] && '\r' !in xs[k]
    requires xs[|xs| - 1] != []
    ensures QuotedBody(Join(xs, "\n"), indentation)
      == ("\n" + Join(Indented(xs, indentation), "\n")) + ("\n" + indentation)
  {
    MultiLineJoin(xs);
    BlockOfLines(xs, indentation);
    AppendAssoc("\n" + Join(Indented(xs, indentation), "\n"), "\n", indentation);
  }

  /// The block starts with a line break, the indentation and the first line.
  lemma BlockStart(xs: seq<string>, indentation: string)
    requires |xs| >= 2 && xs[0] != []
    ensures "\n" + Join(Indented(xs, indentation), "\n")
      == "\n" + indentation + xs[0] + ("\n" + Join(Indented(xs[1..], indentation), "\n"))
  {
    IndentedTail(xs, indentation);
    var ys := Indented(xs, indentation);
    JoinCons(ys[0], ys[1..], "\n");
    assert [ys[0]] + ys[1..] == ys;
  }

  /// The block ends with the last character of the last line.
  lemma BlockEnd(xs: seq<string>, indentation: string)
    requires |xs| >= 2 && xs[|xs| - 1] != []
    ensures var block := "\n" + Join(Indented(xs, indentation), "\n");
      block != [] && block[|block| - 1] == xs[|xs| - 1][|xs[|xs| - 1]| - 1]
  {
    var n := |xs| - 1;
    var pre := Indented(xs[..n], indentation);
    var last := Indent(xs[n], indentation);
    assert last != [] && last[|last| - 1] == xs[n][|xs[n]| - 1];
    var j := Join(Indented(xs, indentation), "\n");
    assert j == Join(pre, "\n") + "\n" + last by {
      IndentedSnoc(xs, indentation);
      JoinSnoc(pre, last, "\n");
    }
    LastOfAppend(Join(pre, "\n") + "\n", last);
    LastOfAppend("\n", j);
  }

  lemma LastOfAppend(a: string, b: string)
    requires b != []
    ensures (a + b)[|a + b| - 1] == b[|b| - 1]
  {
  }

  /// The block form does not start the `⋮` format: it starts, after
  /// whitespace, with the first character of the first line.
  lemma BodyStart(xs: seq<string>, indentation: string)
    requires |xs| >= 2 && xs[0] != [] && !IsWhitespace(xs[0][0])
    requires AllWhitespace("\n" + indentation)
    ensures var body := ("\n" + Join(Indented(xs, indentation), "\n")) + ("\n" + indentation);
      TrimStart(body) != [] && TrimStart(body)[0] == xs[0][0]
  {
    var rest := "\n" + Join(Indented(xs[1..], indentation), "\n");
    BlockStart(xs, indentation);
    var t := xs[0] + rest + ("\n" + indentation);
    Regroup3("\n" + indentation, xs[0], rest, "\n" + indentation);
    TrimStartAfterWhitespace("\n" + indentation, t);
    assert t[0] == xs[0][0];
  }

  lemma Regroup3(a: string, x: string, r: string, e: string)
    ensures a + x + r + e == a + (x + r + e)
  {
  }

  /// Trimming the end of the block form leaves the block, whose lines are
  /// an empty one and the indented lines.
  lemma TrimBlock(xs: seq<string>, indentation: string)
    requires |xs| >= 2
    requires forall k :: 0 <= k < |xs| ==> '\n' !in xs[k] && '\r' !in xs[k]
    requires xs[|xs| - 1] != [] && !IsWhitespace(xs[|xs| - 1][|xs[|xs| - 1]| - 1])
    requires AllWhitespace("\n" + indentation) && '\n' !in indentation && '\r' !in indentation
    ensures var block := "\n" + Join(Indented(xs, indentation), "\n");
      TrimEnd(block + ("\n" + indentation)) == block
      && Lines(block) == [""] + Indented(xs, indentation)
  {
    var block := "\n" + Join(Indented(xs, indentation), "\n");
    BlockEnd(xs, indentation);
    TrimEndAfterWhitespace(block, "\n" + indentation);
    TrimEndNone(block);
    LinesOfIndented(xs, indentation);
  }

  /// The dedent measures the indentation of the block.
  lemma MinIndentationOfBlock(xs: seq<string>, indentation: string)
    requires |xs| >= 2
    requires forall k :: 0 <= k < |xs| ==> '\n' !in xs[k] && '\r' !in xs[k]
    requires xs[0] != [] && !IsWhitespace(xs[0][0])
    requires xs[|xs| - 1] != [] && !IsWhitespace(xs[|xs| - 1][|xs[|xs| - 1]| - 1])
    requires AllWhitespace(indentation) && AllWhitespace("\n" + indentation)
    requires '\n' !in indentation && '\r' !in indentation
    ensures var block := "\n" + Join(Indented(xs, indentation), "\n");
      TrimEnd(block + ("\n" + indentation)) == block
      && Lines(block) == [""] + Indented(xs, indentation)
      && |MinIndentation(block + ("\n" + indentation))| == |indentation|
  {
    TrimBlock(xs, indentation);
    var ys := Indented(xs, indentation);
    IndentsAfterEmpty(ys);
    ShortestIndent(xs, indentation);
  }

  lemma IndentsAfterEmpty(ys: seq<string>)
    ensures IndentsOfNonEmpty([""] + ys) == IndentsOfNonEmpty(ys)
  {
    assert ([""] + ys)[1..] == ys;
  }

  // ---------------------------------------------------------------------
  // When two snapshots' contents are equal.

  /// `matches_latest`: equal normal forms.
  predicate MatchesLatest(a: TextSnapshotContents, b: TextSnapshotContents)
  {
    Normalize(a) == Normalize(b)
  }

  /// `as_str_legacy`: the normal form without a leading "---\n" line, and
  /// for inline snapshots read as the older `⋮` format.
  function AsStrLegacy(sc: TextSnapshotContents): string
  {
    var out := Normalize(sc);
    var out := if StartsWith(out, "---\n") then out[4..] else out;
    match sc.kind
    case Inline => LegacyInlineNormalized(out)
    case File => out
  }

  predicate MatchesLegacy(a: TextSnapshotContents, b: TextSnapshotContents)
  {
    AsStrLegacy(a) == AsStrLegacy(b)
  }

  /// `PartialEq for SnapshotContents`: text against text by the latest
  /// rules and failing that by the legacy ones; bytes against bytes; text
  /// never equals bytes.
  predicate ContentsEq(a: SnapshotContents, b: SnapshotContents)
  {
    match (a, b)
    case (Text(x), Text(y)) => MatchesLatest(x, y) || MatchesLegacy(x, y)
    case (Binary(x), Binary(y)) => x == y
    case _ => false
  }

  /// A file snapshot stored with an older "---" header line equals the same
  /// text without it, by the legacy rule only.
  lemma {:induction false} LegacyHeaderMatches(x: string)
    requires x != [] && x[0] != '\r' && x[0] != '\n' && !IsWhitespace(x[|x| - 1])
    requires '\r' !in x && !StartsWith(x, "---\n")
    ensures var stored := TextSnapshotContents("---\n" + x, File);
      var current := TextSnapshotContents(x, File);
      !MatchesLatest(stored, current) && MatchesLegacy(stored, current) && ContentsEq(Text(stored), Text(current))
  {
    HeaderNormal(x);
    NormalizeFileFixed(x);
    assert ("---\n" + x)[4..] == x;
  }

  lemma {:induction false} HeaderNormal(x: string)
    requires x != [] && !IsWhitespace(x[|x| - 1]) && '\r' !in x
    ensures Normalize(TextSnapshotContents("---\n" + x, File)) == "---\n" + x
  {
    var h := "---\n" + x;
    assert h[0] == '-' && h[|h| - 1] == x[|x| - 1];
    assert '\r' !in h by {
      assert forall j :: 4 <= j < |h| ==> h[j] == x[j - 4];
    }
    NormalizeFileFixed(h);
  }

  /// A one-line snapshot written back as an inline literal reads back as a
  /// value that matches it.
  lemma {:induction false} InlineOneLineRoundTrip(t: TextSnapshotContents, indentation: string)
    requires '\n' !in Normalize(t) && '"' !in indentation
    ensures var lit := InlineLiteral(Normalize(t), indentation);
      ReadLiteral(lit) == Some(Normalize(t))
      && MatchesLatest(t, TextSnapshotContents(Normalize(t), Inline))
  {
    var c := Normalize(t);
    assert ReadLiteral(InlineLiteral(c, indentation)) == Some(c) by {
      OneLineReadsBack(c, indentation);
    }
    assert Normalize(TextSnapshotContents(c, Inline)) == c by {
      NormalizeInlineOneLine(c);
    }
  }

  lemma {:induction false} OneLineReadsBack(c: string, indentation: string)
    requires '\n' !in c && '"' !in indentation
    ensures ReadLiteral(InlineLiteral(c, indentation)) == Some(c)
  {
    InlineLiteralReadsBack(c, indentation);
  }

  // ---------------------------------------------------------------------
  // Text of several lines through `to_inline` and back.

  /// Text of several lines in normal form is its own normal form as an
  /// inline snapshot, and the literal `to_inline` writes for it reads back
  /// as a value that normalises to it again: in the block form
  /// `normalize_inline_snapshot` takes the indentation off every line, and
  /// with control characters the literal holds the text itself.  The text
  /// is its lines joined; the first starts and the last ends without
  /// whitespace, there is no carriage return, and the indentation is
  /// whitespace on one line.  Without control characters the literal is
  /// the one `to_inline` writes as it stands.
  lemma {:induction false} InlineMultiLineRoundTrip(xs: seq<string>, indentation: string)
    requires |xs| >= 2
    requires forall k :: 0 <= k < |xs| ==> '\n' !in xs[k] && '\r' !in xs[k]
    requires xs[0] != [] && !IsWhitespace(xs[0][0])
    requires xs[|xs| - 1] != [] && !IsWhitespace(xs[|xs| - 1][|xs[|xs| - 1]| - 1])
    requires AllWhitespace(indentation) && '\n' !in indentation && '\r' !in indentation
    ensures var c := Join(xs, "\n");
      var lit := InlineLiteral(c, indentation);
      Normalize(TextSnapshotContents(c, Inline)) == c
      && ReadLiteral(lit).Some?
      && Normalize(TextSnapshotContents(ReadLiteral(lit).value, Inline)) == c
      && (!HasControlChars(c) ==> InlineLiteralAsWritten(c, indentation) == lit)
  {
    var c := Join(xs, "\n");
    MultiLineText(xs);
    NormalizeUnindented(c, xs);
    MultiLineReadsBack(xs, indentation);
    if !HasControlChars(c) {
      AsWrittenWithoutControl(c, indentation);
    }
  }

  /// What joining the lines tells about the text.
  lemma MultiLineText(xs: seq<string>)
    requires |xs| >= 2
    requires forall k :: 0 <= k < |xs| ==> '\n' !in xs[k] && '\r' !in xs[k]
    requires xs[0] != [] && xs[|xs| - 1] != []
    ensures var c := Join(xs, "\n");
      Lines(c) == xs && '\r' !in c && c != [] && c[0] == xs[0][0]
      && c[|c| - 1] == xs[|xs| - 1][|xs[|xs| - 1]| - 1]
  {
    MultiLineJoin(xs);
    JoinNoChar(xs, '\r');
    JoinLast(xs);
  }

  lemma MultiLineReadsBack(xs: seq<string>, indentation: string)
    requires |xs| >= 2
    requires forall k :: 0 <= k < |xs| ==> '\n' !in xs[k] && '\r' !in xs[k]
    requires xs[0] != [] && !IsWhitespace(xs[0][0])
    requires xs[|xs| - 1] != [] && !IsWhitespace(xs[|xs| - 1][|xs[|xs| - 1]| - 1])
    requires AllWhitespace(indentation) && '\n' !in indentation && '\r' !in indentation
    requires '\r' !in Join(xs, "\n") && Join(xs, "\n")[0] == xs[0][0]
    requires Join(xs, "\n")[|Join(xs, "\n")| - 1] == xs[|xs| - 1][|xs[|xs| - 1]| - 1]
    requires Normalize(TextSnapshotContents(Join(xs, "\n"), Inline)) == Join(xs, "\n")
    ensures var c := Join(xs, "\n"); var lit := InlineLiteral(c, indentation);
      ReadLiteral(lit).Some? && Normalize(TextSnapshotContents(ReadLiteral(lit).value, Inline)) == c
  {
    var c := Join(xs, "\n");
    InlineLiteralReadsBack(c, indentation);
    if !HasControlChars(c) {
      NormalizeBlockBody(xs, indentation);
    }
  }

  /// Without control characters the fence sits where it was meant to.
  lemma AsWrittenWithoutControl(c: string, indentation: string)
    requires !HasControlChars(c)
    ensures InlineLiteralAsWritten(c, indentation) == InlineLiteral(c, indentation)
  {
  }

  lemma {:induction false} JoinNoChar(xs: seq<string>, ch: char)
    requires ch != '\n'
    requires forall k :: 0 <= k < |xs| ==> ch !in xs[k]
    ensures ch !in Join(xs, "\n")
    decreases |xs|
  {
    if |xs| >= 2 {
      assert forall k :: 0 <= k < |xs[1..]| ==> xs[1..][k] == xs[k + 1];
      JoinNoChar(xs[1..], ch);
    }
  }

  lemma {:induction false} JoinLast(xs: seq<string>)
    requires xs != [] && xs[|xs| - 1] != []
    ensures Join(xs, "\n") != [] && Join(xs, "\n")[|Join(xs, "\n")| - 1] == xs[|xs| - 1][|xs[|xs| - 1]| - 1]
    decreases |xs|
  {
    if |xs| >= 2 {
      assert xs[1..][|xs[1..]| - 1] == xs[|xs| - 1];
      JoinLast(xs[1..]);
    }
  }

  /// The text around which `normalize` trims a leading line break and a
  /// trailing one.
  lemma TidyFramed(c: string, t: string)
    requires c != [] && c[0] != '\n' && c[0] != '\r' && !IsWhitespace(c[|c| - 1]) && '\r' !in c
    requires t == [] || t == "\n"
    ensures Tidy("\n" + c + t) == c
  {
    var s := "\n" + c + t;
    assert TrimStartNewlines(s) == c + t by {
      assert s[1..] == c + t;
      TrimStartNewlinesNone(c + t);
    }
    assert TrimEnd(c + t) == c by {
      if t == [] {
        assert c + t == c;
      } else {
        TrimEndNewline(c);
      }
      TrimEndNone(c);
    }
    assert Replace(c, "\r\n", "\n") == c by {
      ReplaceAbsent(c, "\r\n", "\n");
    }
  }

  /// Text whose first line starts without whitespace is not dedented.
  lemma NormalizeUnindented(c: string, xs: seq<string>)
    requires |xs| >= 2 && xs[0] != [] && !IsWhitespace(xs[0][0])
    requires Lines(c) == xs && Join(xs, "\n") == c && '\r' !in c
    requires c != [] && c[0] == xs[0][0] && !IsWhitespace(c[|c| - 1])
    ensures Normalize(TextSnapshotContents(c, Inline)) == c
  {
    assert TrimEnd(c) == c by {
      TrimEndNone(c);
    }
    assert |MinIndentation(c)| == 0 by {
      var ws := IndentsOfNonEmpty(xs);
      assert LeadingWhitespace(xs[0]) == [];
      assert ws == [[]] + IndentsOfNonEmpty(xs[1..]);
      ShortestIsFirstShortest(ws);
    }
    assert NormalizeInlineSnapshot(c) == c by {
      assert DropEach(xs, 0) == xs;
    }
    assert TrimStartNewlines(c) == c by {
      TrimStartNewlinesNone(c);
    }
    assert Replace(c, "\r\n", "\n") == c by {
      ReplaceAbsent(c, "\r\n", "\n");
    }
  }

  /// The block form of several lines dedents to the text, framed by line
  /// breaks.
  lemma NormalizeBlockBody(xs: seq<string>, indentation: string)
    requires |xs| >= 2
    requires forall k :: 0 <= k < |xs| ==> '\n' !in xs[k] && '\r' !in xs[k]
    requires xs[0] != [] && !IsWhitespace(xs[0][0])
    requires xs[|xs| - 1] != [] && !IsWhitespace(xs[|xs| - 1][|xs[|xs| - 1]| - 1])
    requires AllWhitespace(indentation) && '\n' !in indentation && '\r' !in indentation
    requires '\r' !in Join(xs, "\n") && Join(xs, "\n")[0] == xs[0][0]
    requires Join(xs, "\n")[|Join(xs, "\n")| - 1] == xs[|xs| - 1][|xs[|xs| - 1]| - 1]
    ensures Normalize(TextSnapshotContents(QuotedBody(Join(xs, "\n"), indentation), Inline)) == Join(xs, "\n")
  {
    var c := Join(xs, "\n");
    var body := QuotedBody(c, indentation);
    var ys := Indented(xs, indentation);
    var t: seq<string> := if indentation == [] then [] else [indentation];
    var d: seq<string> := if indentation == [] then [] else [""];
    var tail := if indentation == [] then "" else "\n";
    assert body == ("\n" + Join(ys, "\n")) + ("\n" + indentation) by {
      BodyIsBlock(xs, indentation);
    }
    assert |MinIndentation(body)| == |indentation| by {
      MinIndentationOfBlock(xs, indentation);
    }
    assert Lines(body) == [""] + ys + t by {
      LinesOfBlockBody(xs, indentation);
    }
    assert NormalizeInlineSnapshot(body) == "\n" + c + tail by {
      DropBlockLines(xs, indentation, t, d);
      JoinFramed(xs, d);
    }
    TidyFramed(c, tail);
  }

  lemma LinesOfBlockBody(xs: seq<string>, indentation: string)
    requires xs != [] && xs[|xs| - 1] != []
    requires forall k :: 0 <= k < |xs| ==> '\n' !in xs[k] && '\r' !in xs[k]
    requires '\n' !in indentation && '\r' !in indentation
    ensures Lines(("\n" + Join(Indented(xs, indentation), "\n")) + ("\n" + indentation))
      == [""] + Indented(xs, indentation) + (if indentation == [] then [] else [indentation])
  {
    var ys := Indented(xs, indentation);
    var zs := [""] + ys;
    BlockAsJoin(ys);
    BlockLinesPlain(xs, indentation);
    LinesClosed(zs, indentation);
  }

  lemma BlockAsJoin(ys: seq<string>)
    requires ys != []
    ensures "\n" + Join(ys, "\n") == Join([""] + ys, "\n")
  {
    JoinCons("", ys, "\n");
  }

  /// The lines of joined lines closed by a line break and the indentation.
  lemma LinesClosed(zs: seq<string>, indentation: string)
    requires zs != []
    requires forall k :: 0 <= k < |zs| ==> '\n' !in zs[k] && StripCr(zs[k]) == zs[k]
    requires '\n' !in indentation
    ensures Lines(Join(zs, "\n") + ("\n" + indentation)) == zs + (if indentation == [] then [] else [indentation])
  {
    if indentation == [] {
      LinesClosedFlush(zs);
      assert zs + [] == zs;
    } else {
      LinesClosedIndented(zs, indentation);
    }
  }

  /// No line of the block form holds a line break or ends in a carriage
  /// return.
  lemma BlockLinesPlain(xs: seq<string>, indentation: string)
    requires forall k :: 0 <= k < |xs| ==> '\n' !in xs[k] && '\r' !in xs[k]
    requires '\n' !in indentation
    ensures var zs := [""] + Indented(xs, indentation);
      forall k :: 0 <= k < |zs| ==> '\n' !in zs[k] && StripCr(zs[k]) == zs[k]
  {
    var zs := [""] + Indented(xs, indentation);
    forall k | 0 <= k < |zs| ensures '\n' !in zs[k] && StripCr(zs[k]) == zs[k] {
      if k > 0 && xs[k - 1] != [] {
        assert zs[k] == indentation + xs[k - 1];
        assert zs[k][|zs[k]| - 1] == xs[k - 1][|xs[k - 1]| - 1];
      }
    }
  }

  lemma LinesClosedFlush(zs: seq<string>)
    requires zs != []
    requires forall k :: 0 <= k < |zs| ==> '\n' !in zs[k] && StripCr(zs[k]) == zs[k]
    ensures Lines(Join(zs, "\n") + ("\n" + [])) == zs
  {
    var j := Join(zs, "\n");
    assert j + ("\n" + []) == j + "\n";
    assert Terminated(zs) == j + "\n" by {
      TerminatedJoin(zs);
    }
    assert Lines(Terminated(zs)) == zs by {
      LinesOfTerminated(zs);
    }
  }

  lemma LinesClosedIndented(zs: seq<string>, indentation: string)
    requires zs != [] && indentation != []
    requires forall k :: 0 <= k < |zs| ==> '\n' !in zs[k] && StripCr(zs[k]) == zs[k]
    requires '\n' !in indentation
    ensures Lines(Join(zs, "\n") + ("\n" + indentation)) == zs + [indentation]
  {
    var ws := zs + [indentation];
    var j := Join(zs, "\n");
    assert Join(ws, "\n") == j + ("\n" + indentation) by {
      JoinSnoc(zs, indentation, "\n");
      AppendAssoc(j, "\n", indentation);
    }
    assert Lines(Join(ws, "\n")) == ws by {
      assert forall k :: 0 <= k < |zs| ==> ws[k] == zs[k];
      LinesOfJoin(ws);
    }
  }

  /// Cutting the indentation off the lines of the block form.
  lemma DropBlockLines(xs: seq<string>, indentation: string, t: seq<string>, d: seq<string>)
    requires t == (if indentation == [] then [] else [indentation])
    requires d == (if indentation == [] then [] else [""])
    ensures DropEach([""] + Indented(xs, indentation) + t, |indentation|) == [""] + xs + d
  {
    var ls := [""] + Indented(xs, indentation) + t;
    var r := DropEach(ls, |indentation|);
    var want := [""] + xs + d;
    DropIndented(xs, indentation);
    forall k | 0 <= k < |r| ensures r[k] == want[k] {
      if 1 <= k <= |xs| {
        assert ls[k] == Indented(xs, indentation)[k - 1];
        assert DropEach(Indented(xs, indentation), |indentation|)[k - 1] == xs[k - 1];
      } else if k == |xs| + 1 {
        assert ls[k] == indentation;
        assert indentation[|indentation|..] == [];
      }
    }
  }

  lemma JoinFramed(xs: seq<string>, d: seq<string>)
    requires xs != []
    requires d == [] || d == [""]
    ensures Join([""] + xs + d, "\n") == "\n" + Join(xs, "\n") + (if d == [] then "" else "\n")
  {
    if d == [] {
      assert [""] + xs + d == [""] + xs;
      JoinCons("", xs, "\n");
    } else {
      JoinSnoc(xs, "", "\n");
      assert [""] + xs + d == [""] + (xs + [""]);
      JoinCons("", xs + [""], "\n");
    }
  }

  /// Binary contents never equal text contents, in either order.
  lemma TextNeverBinary(t: TextSnapshotContents, b: seq<C.u8>)
    ensures !ContentsEq(Text(t), Binary(b)) && !ContentsEq(Binary(b), Text(t))
  {
  }

  /// Content equality is reflexive and symmetric.
  lemma ContentsEqSymmetric(a: SnapshotContents, b: SnapshotContents)
    ensures ContentsEq(a, a)
    ensures ContentsEq(a, b) == ContentsEq(b, a)
  {
  }

  /// `normalize` is not idempotent: "\r\r\n" becomes "\r\n", which a second
  /// pass turns into "\n".
  lemma NormalizeNotIdempotent()
    ensures Normalize(TextSnapshotContents("a\r\r\nb", File)) == "a\r\nb"
    ensures Normalize(TextSnapshotContents("a\r\nb", File)) == "a\nb"
  {
    NormalizeFileReplaces("a\r\r\nb");
    NormalizeFileReplaces("a\r\nb");
    CrLfSamples();
  }

  /// A file snapshot that starts with no line break and ends with no
  /// whitespace only has its "\r\n" replaced.
  lemma NormalizeFileReplaces(s: string)
    requires s == [] || (s[0] != '\r' && s[0] != '\n' && !IsWhitespace(s[|s| - 1]))
    ensures Normalize(TextSnapshotContents(s, File)) == Replace(s, "\r\n", "\n")
  {
    TrimStartNewlinesNone(s);
    TrimEndNone(s);
  }

  /// The replacements behind `NormalizeNotIdempotent`.
  lemma CrLfSamples()
    ensures Replace("a\r\r\nb", "\r\n", "\n") == "a\r\nb"
    ensures Replace("a\r\nb", "\r\n", "\n") == "a\nb"
  {
    var p := "\r\n";
    assert Replace("b", p, "\n") == "b";
    ReplaceHit(p, "b", "\n");
    assert p + "b" == "\r\nb";
    assert (['\r'] + "\r\nb")[..2][1] != p[1];
    ReplaceMiss('\r', "\r\nb", p, "\n");
    assert ['\r'] + "\r\nb" == "\r\r\nb";
    assert (['a'] + "\r\r\nb")[..2][0] != p[0];
    ReplaceMiss('a', "\r\r\nb", p, "\n");
    assert ['a'] + "\r\r\nb" == "a\r\r\nb";
    assert (['a'] + "\r\nb")[..2][0] != p[0];
    ReplaceMiss('a', "\r\nb", p, "\n");
    assert ['a'] + "\r\nb" == "a\r\nb";
  }
}
