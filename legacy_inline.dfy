// The older inline snapshot format (insta/src/snapshot.rs,
// `legacy_inline_normalize`): every line of the frozen value starts with
// the indentation of the first one and a `⋮`, and reading it back strips
// both.
module LegacyInline {
  import opened Wrappers
  import opened Strs

  const Ellipsis: char := '\U{22EE}'

  /// The first line that is not blank (whose `trim_start` is not empty).
  function FirstNonBlank(ls: seq<string>): (k: nat)
    ensures k <= |ls|
    ensures forall j :: 0 <= j < k ==> AllWhitespace(ls[j])
    ensures k < |ls| ==> !AllWhitespace(ls[k])
  {
    if ls == [] then 0 else if !AllWhitespace(ls[0]) then 0 else 1 + FirstNonBlank(ls[1..])
  }

  /// One line after the first: `None` where the source gives up and
  /// returns "", else the buffer with the line's text after `⋮` appended.
  function LegacyStep(buf: string, line: string, indentation: nat): Option<string>
  {
    if indentation <= |line| && Trim(line[..indentation]) != [] then None
    else if indentation <= |line| then
      var remainder := line[indentation..];
      if remainder != [] && remainder[0] == Ellipsis then Some(buf + remainder[1..] + "\n")
      else if Trim(remainder) == [] then Some(buf)
      else None
    else Some(buf)
  }

  function LegacyFold(buf: string, ls: seq<string>, indentation: nat): Option<string>
    decreases |ls|
  {
    if ls == [] then Some(buf)
    else
      match LegacyStep(buf, ls[0], indentation)
      case None => None
      case Some(b) => LegacyFold(b, ls[1..], indentation)
  }

  /// `legacy_inline_normalize` as a function of the frozen value: text
  /// that does not start with `⋮` (after leading whitespace) is returned as
  /// is; otherwise the first non-blank line sets the indentation and every
  /// later line must be that indentation followed by `⋮` or be blank.
  function LegacyInlineNormalized(frozen: string): string
  {
    var t := TrimStart(frozen);
    if !(t != [] && t[0] == Ellipsis) then frozen
    else
      var ls := Lines(frozen);
      var k := FirstNonBlank(ls);
      if k == |ls| then ""
      else
        var trimmed := TrimStart(ls[k]);
        var indentation := |ls[k]| - |trimmed|;
        match LegacyFold(trimmed[1..] + "\n", ls[k + 1..], indentation)
        case None => ""
        case Some(buf) => TrimEnd(buf)
  }

  /// The first non-blank line of some lines starts with `⋮`.
  ghost predicate MarkedFirst(ls: seq<string>)
  {
    FirstNonBlank(ls) < |ls| && TrimStart(ls[FirstNonBlank(ls)]) != []
    && TrimStart(ls[FirstNonBlank(ls)])[0] == Ellipsis
  }

  /// When the frozen value starts with `⋮`, its first non-blank line does:
  /// the `[3..]` of the source, which drops the three bytes of `⋮`, drops
  /// exactly that character.
  lemma {:induction false} LegacyFirstLineMarked(frozen: string)
    requires TrimStart(frozen) != [] && TrimStart(frozen)[0] == Ellipsis
    ensures var ls := Lines(frozen);
      FirstNonBlank(ls) < |ls| && TrimStart(ls[FirstNonBlank(ls)])[0] == Ellipsis
  {
    LegacyFirstLineMarkedFold(frozen);
  }

  lemma {:induction false} LegacyFirstLineMarkedFold(frozen: string)
    requires TrimStart(frozen) != [] && TrimStart(frozen)[0] == Ellipsis
    ensures MarkedFirst(Lines(frozen))
    decreases |frozen|
  {
    if IndexOfChar(frozen, '\n') == |frozen| {
      OneLineCase(frozen);
    } else if !AllWhitespace(FirstLine(frozen)) {
      NotBlankCase(frozen);
    } else {
      BlankCaseRest(frozen);
      LegacyFirstLineMarkedFold(AfterFirstLine(frozen));
      BlankCase(frozen);
    }
  }

  /// The first line of a text that holds a line break, without its `\r`.
  function FirstLine(s: string): string
    requires IndexOfChar(s, '\n') < |s|
  {
    StripCr(s[..IndexOfChar(s, '\n')])
  }

  /// What follows the first line break.
  function AfterFirstLine(s: string): string
    requires IndexOfChar(s, '\n') < |s|
  {
    s[IndexOfChar(s, '\n') + 1..]
  }

  lemma {:induction false} OneLineCase(frozen: string)
    requires TrimStart(frozen) != [] && TrimStart(frozen)[0] == Ellipsis
    requires IndexOfChar(frozen, '\n') == |frozen|
    ensures MarkedFirst(Lines(frozen))
  {
    LinesStep(frozen);
    OneLineMarked(frozen);
  }

  lemma {:induction false} NotBlankCase(frozen: string)
    requires TrimStart(frozen) != [] && TrimStart(frozen)[0] == Ellipsis
    requires IndexOfChar(frozen, '\n') < |frozen| && !AllWhitespace(FirstLine(frozen))
    ensures MarkedFirst(Lines(frozen))
  {
    LinesStep(frozen);
    FirstLineNotBlankAt(frozen, IndexOfChar(frozen, '\n'));
    NonBlankTrim(FirstLine(frozen));
    FirstLineMarks(FirstLine(frozen), Lines(AfterFirstLine(frozen)));
  }

  lemma {:induction false} BlankCaseRest(frozen: string)
    requires TrimStart(frozen) != [] && TrimStart(frozen)[0] == Ellipsis
    requires IndexOfChar(frozen, '\n') < |frozen| && AllWhitespace(FirstLine(frozen))
    ensures |AfterFirstLine(frozen)| < |frozen|
    ensures TrimStart(AfterFirstLine(frozen)) == TrimStart(frozen)
  {
    BlankLineStep(frozen, IndexOfChar(frozen, '\n'));
  }

  lemma {:induction false} BlankCase(frozen: string)
    requires IndexOfChar(frozen, '\n') < |frozen| && AllWhitespace(FirstLine(frozen))
    requires MarkedFirst(Lines(AfterFirstLine(frozen)))
    ensures MarkedFirst(Lines(frozen))
  {
    LinesStep(frozen);
    BlankLineMarks(FirstLine(frozen), Lines(AfterFirstLine(frozen)));
  }

  /// `Lines` splits off the text before the first line break.
  lemma {:induction false} LinesStep(s: string)
    requires s != []
    ensures Lines(s) == if IndexOfChar(s, '\n') == |s| then [s]
      else [StripCr(s[..IndexOfChar(s, '\n')])] + Lines(s[IndexOfChar(s, '\n') + 1..])
  {
  }

  /// A one-line text starting with `⋮` after whitespace.
  lemma {:induction false} OneLineMarked(l: string)
    requires TrimStart(l) != [] && TrimStart(l)[0] == Ellipsis
    ensures MarkedFirst([l])
  {
    assert !AllWhitespace(l) by {
      assert l[|l| - |TrimStart(l)|] == Ellipsis;
    }
    FirstNonBlankCons(l, []);
  }

  /// A first line that is not blank and starts with `⋮` after whitespace.
  lemma {:induction false} FirstLineMarks(l: string, ls: seq<string>)
    requires !AllWhitespace(l) && TrimStart(l) != [] && TrimStart(l)[0] == Ellipsis
    ensures MarkedFirst([l] + ls)
  {
    FirstNonBlankCons(l, ls);
  }

  /// A first line that is not blank starts the trimmed text.
  lemma {:induction false} FirstLineNotBlankAt(s: string, i: nat)
    requires i <= |s| && !AllWhitespace(StripCr(s[..i]))
    ensures TrimStart(s) != [] && TrimStart(s)[0] == TrimStart(StripCr(s[..i]))[0]
  {
    assert s == s[..i] + s[i..];
    FirstLineNotBlank(s[..i], s[i..]);
  }

  /// A line that is not blank keeps something after `trim_start`.
  lemma {:induction false} NonBlankTrim(l: string)
    requires !AllWhitespace(l)
    ensures TrimStart(l) != []
  {
    TrimStartEmpty(l);
  }

  lemma {:induction false} TrimStartEmpty(l: string)
    ensures TrimStart(l) == [] ==> AllWhitespace(l)
  {
  }

  /// A blank first line in front of lines whose first non-blank one is marked.
  lemma {:induction false} BlankLineMarks(l: string, ls: seq<string>)
    requires AllWhitespace(l) && MarkedFirst(ls)
    ensures MarkedFirst([l] + ls)
  {
    FirstNonBlankSkip(l, ls);
  }

  /// A blank line in front moves the first non-blank line down by one.
  lemma {:induction false} FirstNonBlankSkip(l: string, ls: seq<string>)
    requires AllWhitespace(l) && FirstNonBlank(ls) < |ls|
    ensures FirstNonBlank([l] + ls) == 1 + FirstNonBlank(ls) < |[l] + ls|
    ensures ([l] + ls)[FirstNonBlank([l] + ls)] == ls[FirstNonBlank(ls)]
  {
    assert ([l] + ls)[1..] == ls;
  }

  /// `FirstNonBlank` of a line in front of more lines.
  lemma {:induction false} FirstNonBlankCons(l: string, ls: seq<string>)
    ensures FirstNonBlank([l] + ls) == if !AllWhitespace(l) then 0 else 1 + FirstNonBlank(ls)
    ensures forall k :: 0 <= k < |ls| ==> ([l] + ls)[k + 1] == ls[k]
  {
    assert ([l] + ls)[1..] == ls;
  }

  /// Past a blank first line the trimmed text is that of the rest.
  lemma {:induction false} BlankLineStep(frozen: string, i: nat)
    requires i < |frozen| && frozen[i] == '\n'
    requires AllWhitespace(StripCr(frozen[..i]))
    ensures TrimStart(frozen[i + 1..]) == TrimStart(frozen)
  {
    BlankLineWhitespace(frozen[..i]);
    assert frozen == frozen[..i] + "\n" + frozen[i + 1..];
    TrimStartAfterWhitespace(frozen[..i] + "\n", frozen[i + 1..]);
  }

  /// A line that is not blank starts the trimmed text it begins.
  lemma {:induction false} FirstLineNotBlank(x: string, y: string)
    requires !AllWhitespace(StripCr(x))
    ensures TrimStart(x + y) != [] && TrimStart(x + y)[0] == TrimStart(StripCr(x))[0]
  {
    var l := StripCr(x);
    assert x == l + x[|l|..];
    assert x + y == l + (x[|l|..] + y);
    TrimStartAppend(l, x[|l|..] + y);
  }

  /// A blank line with its line break is all whitespace.
  lemma {:induction false} BlankLineWhitespace(x: string)
    requires AllWhitespace(StripCr(x))
    ensures AllWhitespace(x + "\n")
  {
    var l := StripCr(x);
    assert AllWhitespace(l);
    assert x == l || x == l + "\r";
  }

  /// `legacy_inline_normalize`
  method LegacyInlineNormalize(frozen: string) returns (r: string)
    ensures r == LegacyInlineNormalized(frozen)
  {
    var t := TrimStart(frozen);
    if !(t != [] && t[0] == Ellipsis) {
      r := frozen;
    } else {
      var ls := Lines(frozen);
      var buf := "";
      var indentation := 0;
      var i := 0;
      var found := false;
      while i < |ls|
        invariant i <= FirstNonBlank(ls) && !found
      {
        var lineTrimmed := TrimStart(ls[i]);
        if lineTrimmed != [] {
          indentation := |ls[i]| - |lineTrimmed|;
          assert i == FirstNonBlank(ls);
          buf := lineTrimmed[1..] + "\n";
          found := true;
          break;
        }
        i := i + 1;
      }
      r := LegacyRest(ls, if found then i + 1 else |ls|, buf, indentation);
    }
  }

  /// The second loop of `legacy_inline_normalize`, over the lines from `j`.
  method LegacyRest(ls: seq<string>, j0: nat, buf0: string, indentation: nat) returns (r: string)
    requires j0 <= |ls|
    ensures r == match LegacyFold(buf0, ls[j0..], indentation) case None => "" case Some(b) => TrimEnd(b)
  {
    var buf := buf0;
    var j := j0;
    var failed := false;
    while j < |ls| && !failed
      invariant j0 <= j <= |ls|
      invariant !failed ==> LegacyFold(buf, ls[j..], indentation) == LegacyFold(buf0, ls[j0..], indentation)
      invariant failed ==> LegacyFold(buf0, ls[j0..], indentation) == None
    {
      var step := LegacyLine(buf, ls[j], indentation);
      assert ls[j..][1..] == ls[j + 1..];
      if step.None? {
        failed := true;
      } else {
        buf := step.value;
      }
      j := j + 1;
    }
    if failed {
      r := "";
    } else {
      assert ls[j..] == [];
      r := TrimEnd(buf);
    }
  }

  /// One line of the second loop.
  method LegacyLine(buf: string, line: string, indentation: nat) returns (r: Option<string>)
    ensures r == LegacyStep(buf, line, indentation)
  {
    r := Some(buf);
    if indentation <= |line| && Trim(line[..indentation]) != [] {
      r := None;
    } else if indentation <= |line| {
      var remainder := line[indentation..];
      if remainder != [] && remainder[0] == Ellipsis {
        r := Some(buf + remainder[1..] + "\n");
      } else if Trim(remainder) == [] {
      } else {
        r := None;
      }
    }
  }

  /// Lines as the older `assert_snapshot!` wrote them: each behind the
  /// indentation and a `⋮`.
  function Marked(xs: seq<string>, indentation: string): (r: seq<string>)
    ensures |r| == |xs|
    ensures forall k :: 0 <= k < |xs| ==> r[k] == indentation + [Ellipsis] + xs[k]
  {
    seq(|xs|, k requires 0 <= k < |xs| => indentation + [Ellipsis] + xs[k])
  }

  /// The second loop over marked lines and a closing indentation line
  /// collects every line's text.
  lemma {:induction false} LegacyFoldMarked(buf: string, ys: seq<string>, indentation: string)
    requires AllWhitespace(indentation)
    ensures LegacyFold(buf, Marked(ys, indentation) + [indentation], |indentation|)
      == Some(buf + Terminated(ys))
    decreases |ys|
  {
    var n := |indentation|;
    if ys == [] {
      StepClosing(buf, indentation);
      FoldLast(buf, indentation, n, buf);
      assert Marked(ys, indentation) + [indentation] == [indentation];
      assert Terminated(ys) == [] && buf + [] == buf;
    } else {
      var l0 := indentation + [Ellipsis] + ys[0];
      var tail := Marked(ys[1..], indentation) + [indentation];
      MarkedCons(ys, indentation);
      assert Marked(ys, indentation) + [indentation] == [l0] + tail;
      StepMarked(buf, ys[0], indentation);
      FoldCons(buf, l0, tail, n, buf + ys[0] + "\n");
      LegacyFoldMarked(buf + ys[0] + "\n", ys[1..], indentation);
      TerminatedCons(buf, ys);
    }
  }

  /// One step of the fold.
  lemma {:induction false} FoldCons(buf: string, l: string, ls: seq<string>, n: nat, b: string)
    requires LegacyStep(buf, l, n) == Some(b)
    ensures LegacyFold(buf, [l] + ls, n) == LegacyFold(b, ls, n)
  {
    assert ([l] + ls)[0] == l && ([l] + ls)[1..] == ls;
  }

  /// The last step of the fold.
  lemma {:induction false} FoldLast(buf: string, l: string, n: nat, b: string)
    requires LegacyStep(buf, l, n) == Some(b)
    ensures LegacyFold(buf, [l], n) == Some(b)
  {
    FoldCons(buf, l, [], n, b);
    assert [l] + [] == [l];
  }

  /// The text collected after the first line.
  lemma {:induction false} TerminatedCons(buf: string, ys: seq<string>)
    requires ys != []
    ensures buf + ys[0] + "\n" + Terminated(ys[1..]) == buf + Terminated(ys)
  {
  }

  /// A marked line contributes its text and a line break.
  lemma {:induction false} StepMarked(buf: string, y: string, indentation: string)
    requires AllWhitespace(indentation)
    ensures LegacyStep(buf, indentation + [Ellipsis] + y, |indentation|) == Some(buf + y + "\n")
  {
    var n := |indentation|;
    var line := indentation + [Ellipsis] + y;
    assert line[..n] == indentation && line[n..] == [Ellipsis] + y;
    assert Trim(indentation) == [];
  }

  /// The line of the closing quote, only indentation, is skipped.
  lemma {:induction false} StepClosing(buf: string, indentation: string)
    requires AllWhitespace(indentation)
    ensures LegacyStep(buf, indentation, |indentation|) == Some(buf)
  {
    var n := |indentation|;
    assert indentation[..n] == indentation && indentation[n..] == [];
    assert Trim(indentation) == [];
  }

  /// The frozen value of an older inline snapshot: a line break, the
  /// marked lines and the indentation of the closing quote.
  function LegacyFrozen(xs: seq<string>, indentation: string): string
  {
    Join([""] + Marked(xs, indentation) + [indentation], "\n")
  }

  lemma {:induction false} LegacyFrozenLines(xs: seq<string>, indentation: string)
    requires indentation != [] && '\n' !in indentation
    requires forall k :: 0 <= k < |xs| ==> '\n' !in xs[k] && '\r' !in xs[k]
    ensures Lines(LegacyFrozen(xs, indentation)) == [""] + Marked(xs, indentation) + [indentation]
  {
    var ls := [""] + Marked(xs, indentation) + [indentation];
    forall k | 0 <= k < |ls| - 1 ensures StripCr(ls[k]) == ls[k] && '\n' !in ls[k] {
      if k > 0 {
        var x := xs[k - 1];
        assert ls[k] == indentation + [Ellipsis] + x;
        assert x == [] || (x[|x| - 1] in x && ls[k][|ls[k]| - 1] == x[|x| - 1]);
      }
    }
    LinesOfJoin(ls);
  }

  lemma {:induction false} LegacyFrozenStart(xs: seq<string>, indentation: string)
    requires xs != [] && AllWhitespace(indentation)
    ensures TrimStart(LegacyFrozen(xs, indentation)) != []
    ensures TrimStart(LegacyFrozen(xs, indentation))[0] == Ellipsis
  {
    var m := Marked(xs, indentation);
    var rest := Join(m[1..] + [indentation], "\n");
    var t := [Ellipsis] + xs[0] + "\n" + rest;
    FrozenShape(xs, indentation);
    BreakThenWhitespace(indentation);
    TrimStartAtMark("\n" + indentation, t);
  }

  /// The frozen value is a line break, the indentation and the first `⋮`.
  lemma {:induction false} FrozenShape(xs: seq<string>, indentation: string)
    requires xs != []
    ensures var m := Marked(xs, indentation);
      LegacyFrozen(xs, indentation)
      == ("\n" + indentation) + ([Ellipsis] + xs[0] + "\n" + Join(m[1..] + [indentation], "\n"))
  {
    var m := Marked(xs, indentation);
    var rest := Join(m[1..] + [indentation], "\n");
    assert [""] + m + [indentation] == [""] + (m + [indentation]);
    JoinCons("", m + [indentation], "\n");
    assert m + [indentation] == [m[0]] + (m[1..] + [indentation]);
    JoinCons(m[0], m[1..] + [indentation], "\n");
    assert m[0] == indentation + [Ellipsis] + xs[0];
  }

  lemma {:induction false} BreakThenWhitespace(indentation: string)
    requires AllWhitespace(indentation)
    ensures AllWhitespace("\n" + indentation)
  {
    var w := "\n" + indentation;
    assert w[0] == '\n';
    assert forall j :: 1 <= j < |w| ==> w[j] == indentation[j - 1];
  }

  /// The first marked line of the frozen value sets the indentation.
  lemma {:induction false} LegacyFrozenFirst(xs: seq<string>, indentation: string)
    requires xs != [] && AllWhitespace(indentation)
    ensures var ls := [""] + Marked(xs, indentation) + [indentation];
      && FirstNonBlank(ls) == 1
      && TrimStart(ls[1]) == [Ellipsis] + xs[0]
      && |ls[1]| - |TrimStart(ls[1])| == |indentation|
      && ls[2..] == Marked(xs[1..], indentation) + [indentation]
  {
    var l1 := indentation + [Ellipsis] + xs[0];
    var tail := Marked(xs[1..], indentation) + [indentation];
    MarkedCons(xs, indentation);
    assert [""] + Marked(xs, indentation) + [indentation] == [""] + ([l1] + tail);
    MarkedLineTrim(xs[0], indentation);
    FirstNonBlankCons(l1, tail);
    FirstNonBlankCons("", [l1] + tail);
    assert ([""] + ([l1] + tail))[2..] == tail;
  }

  lemma {:induction false} MarkedCons(xs: seq<string>, indentation: string)
    requires xs != []
    ensures Marked(xs, indentation) == [indentation + [Ellipsis] + xs[0]] + Marked(xs[1..], indentation)
  {
  }

  /// `trim_start` of a marked line starts at its `⋮`.
  lemma {:induction false} MarkedLineTrim(x: string, indentation: string)
    requires AllWhitespace(indentation)
    ensures TrimStart(indentation + [Ellipsis] + x) == [Ellipsis] + x
    ensures !AllWhitespace(indentation + [Ellipsis] + x)
  {
    var t := [Ellipsis] + x;
    assert indentation + [Ellipsis] + x == indentation + t;
    assert t[0] == Ellipsis;
    TrimStartAtMark(indentation, t);
  }

  /// Whitespace followed by a character that is not whitespace: `trim_start`
  /// keeps the rest from that character on.
  lemma {:induction false} TrimStartAtMark(w: string, t: string)
    requires AllWhitespace(w) && t != [] && !IsWhitespace(t[0])
    ensures TrimStart(w + t) == t
    ensures !AllWhitespace(w + t)
  {
    TrimStartAfterWhitespace(w, t);
    assert (w + t)[|w|] == t[0];
  }

  /// Older inline snapshots read back: the marked lines of the frozen
  /// value, joined and with trailing whitespace trimmed.
  lemma {:induction false} LegacyInlineRoundTrip(xs: seq<string>, indentation: string)
    requires xs != [] && indentation != []
    requires AllWhitespace(indentation) && '\n' !in indentation
    requires forall k :: 0 <= k < |xs| ==> '\n' !in xs[k] && '\r' !in xs[k]
    ensures LegacyInlineNormalized(LegacyFrozen(xs, indentation)) == TrimEnd(Join(xs, "\n"))
  {
    LegacyFrozenLines(xs, indentation);
    LegacyFrozenStart(xs, indentation);
    LegacyFrozenFirst(xs, indentation);
    LegacyFoldMarked(xs[0] + "\n", xs[1..], indentation);
    assert xs[0] + "\n" + Terminated(xs[1..]) == Terminated(xs);
    TerminatedJoin(xs);
    TrimEndNewline(Join(xs, "\n"));
  }
}
