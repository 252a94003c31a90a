// The newline bookkeeping of the diff printer (insta/src/output.rs; the
// older src/output.rs holds the same four functions word for word):
// which line ending a text ends with, which line-ending styles it uses,
// whether the difference between two texts is only a matter of line
// endings, and how invisible characters are made visible.
module Output {
  import opened Wrappers
  import opened Strs

  /// `trailing_newline`: the longest of "\r\n", "\r", "\n" that ends `s`, or "".
  function TrailingNewline(s: string): (r: string)
    ensures EndsWith(s, r)
    ensures r == "\r\n" <==> EndsWith(s, "\r\n")
    ensures r == "\r" <==> EndsWith(s, "\r")
    ensures r == "\n" <==> EndsWith(s, "\n") && !EndsWith(s, "\r\n")
    ensures r == "" <==> !EndsWith(s, "\r") && !EndsWith(s, "\n")
  {
    EndsWithLast(s);
    if EndsWith(s, "\r\n") then "\r\n"
    else if EndsWith(s, "\r") then "\r"
    else if EndsWith(s, "\n") then "\n"
    else ""
  }

  lemma EndsWithLast(s: string)
    ensures EndsWith(s, "\r\n") <==> |s| >= 2 && s[|s| - 2] == '\r' && s[|s| - 1] == '\n'
    ensures EndsWith(s, "\r") <==> s != [] && s[|s| - 1] == '\r'
    ensures EndsWith(s, "\n") <==> s != [] && s[|s| - 1] == '\n'
  {
  }

  /// The three flags `detect_newlines` returns.
  datatype Newlines = Newlines(cr: bool, crlf: bool, lf: bool)

  /// A '\r' that does not start a "\r\n" (a final '\r' included).
  predicate CrAt(s: string, j: nat)
    requires j < |s|
  {
    s[j] == '\r' && (j + 1 == |s| || s[j + 1] != '\n')
  }

  predicate CrlfAt(s: string, j: nat)
  {
    j + 1 < |s| && s[j] == '\r' && s[j + 1] == '\n'
  }

  /// A '\n' that does not end a "\r\n".
  predicate LfAt(s: string, j: nat)
    requires j < |s|
  {
    s[j] == '\n' && (j == 0 || s[j - 1] != '\r')
  }

  /// The line-ending styles a text uses.
  function Styles(s: string): Newlines
  {
    Newlines(
      exists j :: 0 <= j < |s| && CrAt(s, j),
      exists j :: 0 <= j < |s| && CrlfAt(s, j),
      exists j :: 0 <= j < |s| && LfAt(s, j))
  }

  /// `detect_newlines`: one pass remembering the previous character; a
  /// '\n' takes the remembered character away (`Option::take`).
  method DetectNewlines(s: string) returns (r: Newlines)
    ensures r == Styles(s)
  {
    var last: Option<char> := None;
    var crlf, cr, lf := false, false, false;
    for i := 0 to |s|
      invariant last == (if i == 0 then None else Some(s[i - 1]))
      invariant crlf <==> exists j :: 0 <= j && j + 1 < i && CrlfAt(s, j)
      invariant lf <==> exists j :: 0 <= j < i && LfAt(s, j)
      invariant cr <==> exists j :: 0 <= j && j + 1 < i && CrAt(s, j)
    {
      var c := s[i];
      if c == '\n' {
        var prev := last;
        last := None;
        if prev == Some('\r') {
          crlf := true;
          assert CrlfAt(s, i - 1);
        } else {
          lf := true;
          assert LfAt(s, i);
        }
      }
      if last == Some('\r') {
        cr := true;
        assert CrAt(s, i - 1);
      }
      last := Some(c);
    }
    if last == Some('\r') {
      cr := true;
      assert CrAt(s, |s| - 1);
    }
    r := Newlines(cr, crlf, lf);
  }

  /// The styles used by either of two texts.
  function Union(a: Newlines, b: Newlines): Newlines
  {
    Newlines(a.cr || b.cr, a.crlf || b.crlf, a.lf || b.lf)
  }

  /// How many of the three styles are present.
  function Count(n: Newlines): nat
  {
    (if n.cr then 1 else 0) + (if n.crlf then 1 else 0) + (if n.lf then 1 else 0)
  }

  /// `newlines_matter`: the two texts end differently, or they use more
  /// than one line-ending style between them.
  function NewlinesMatter(left: string, right: string): (r: bool)
    ensures r <==> TrailingNewline(left) != TrailingNewline(right)
                   || Count(Union(Styles(left), Styles(right))) > 1
  {
    var a := Styles(left);
    var b := Styles(right);
    if TrailingNewline(left) != TrailingNewline(right) then true
    else
      !(match (a.cr || b.cr, a.crlf || b.crlf, a.lf || b.lf)
        case (false, false, false) => true
        case (true, false, false) => true
        case (false, true, false) => true
        case (false, false, true) => true
        case _ => false)
  }

  /// ESC, BEL, BS or DEL occurs: the other trigger of `render_invisible`.
  predicate HasInvisible(s: string)
  {
    '\U{001B}' in s || '\U{0007}' in s || '\U{0008}' in s || '\U{007F}' in s
  }

  /// The chain of replacements `render_invisible` applies, as written.
  function MarkNewlines(s: string): string
  {
    Replace(Replace(s, "\r", "\U{240D}\r"), "\n", "\U{240A}\n")
  }

  function JoinCrlf(s: string): string
  {
    Replace(s, "\U{240D}\r\U{240A}\n", "\U{240D}\U{240A}\r\n")
  }

  function MarkControls(s: string): string
  {
    Replace(Replace(Replace(Replace(s, "\U{0007}", "\U{2407}"), "\U{0008}", "\U{2408}"),
      "\U{001B}", "\U{241B}"), "\U{007F}", "\U{2421}")
  }

  /// What one character becomes when invisible characters are shown.
  function Symbol(c: char): string
  {
    if c == '\r' then "\U{240D}\r"
    else if c == '\n' then "\U{240A}\n"
    else if c == '\U{0007}' then "\U{2407}"
    else if c == '\U{0008}' then "\U{2408}"
    else if c == '\U{001B}' then "\U{241B}"
    else if c == '\U{007F}' then "\U{2421}"
    else [c]
  }

  /// The visible rendering in one pass: a "\r\n" pair becomes "␍␊\r\n",
  /// every other character its `Symbol`.
  function Visible(s: string): string
    decreases |s|
  {
    if s == [] then []
    else if |s| >= 2 && s[0] == '\r' && s[1] == '\n' then "\U{240D}\U{240A}\r\n" + Visible(s[2..])
    else Symbol(s[0]) + Visible(s[1..])
  }

  /// `render_invisible`: the text unchanged unless newlines matter or it
  /// holds ESC, BEL, BS or DEL; otherwise every line ending is marked and
  /// each of those four characters replaced by its control picture.
  function RenderInvisible(s: string, newlinesMatter: bool): (r: string)
    ensures !newlinesMatter && !HasInvisible(s) ==> r == s
    ensures newlinesMatter || HasInvisible(s) ==> r == Visible(s)
  {
    if newlinesMatter || HasInvisible(s) then
      RenderChainIsVisible(s);
      MarkControls(JoinCrlf(MarkNewlines(s)))
    else s
  }

  /// Text in which no character needs a symbol renders as itself.
  lemma {:induction false} VisiblePlain(s: string)
    requires forall k :: 0 <= k < |s| ==> Symbol(s[k]) == [s[k]]
    ensures Visible(s) == s
    decreases |s|
  {
    if s != [] {
      assert s[0] != '\r';
      assert forall k :: 0 <= k < |s[1..]| ==> s[1..][k] == s[k + 1];
      VisiblePlain(s[1..]);
      assert s == [s[0]] + s[1..];
    }
  }

  // Proof that the chain of `replace` calls is the one-pass rendering.

  function CharRep(c: char, p: char, rep: string): string
  {
    if c == p then rep else [c]
  }

  lemma ReplaceOneChar(c: char, p: char, rep: string)
    ensures Replace([c], [p], rep) == CharRep(c, p, rep)
  {
    assert [c][..1] == [c];
    assert [c][1..] == [];
  }

  /// Replacing a single character distributes over concatenation.
  lemma {:induction false} ReplaceCharAppend(a: string, b: string, p: char, rep: string)
    ensures Replace(a + b, [p], rep) == Replace(a, [p], rep) + Replace(b, [p], rep)
    decreases |a|
  {
    if a == [] {
      assert a + b == b;
    } else {
      assert (a + b)[..1] == a[..1];
      assert (a + b)[1..] == a[1..] + b;
      ReplaceCharAppend(a[1..], b, p, rep);
    }
  }

  /// The first two replacements, character by character.
  function NewlineMark(c: char): string
  {
    if c == '\r' then "\U{240D}\r" else if c == '\n' then "\U{240A}\n" else [c]
  }

  function MarkEach(s: string): string
    decreases |s|
  {
    if s == [] then [] else NewlineMark(s[0]) + MarkEach(s[1..])
  }

  lemma {:induction false} MarkNewlinesEach(s: string)
    ensures MarkNewlines(s) == MarkEach(s)
    decreases |s|
  {
    if s != [] {
      var c, t := s[0], s[1..];
      assert s == [c] + t;
      ReplaceCharAppend([c], t, '\r', "\U{240D}\r");
      ReplaceOneChar(c, '\r', "\U{240D}\r");
      var x := CharRep(c, '\r', "\U{240D}\r");
      var y := Replace(t, "\r", "\U{240D}\r");
      ReplaceCharAppend(x, y, '\n', "\U{240A}\n");
      if c == '\r' {
        ReplaceCharAppend(['\U{240D}'], ['\r'], '\n', "\U{240A}\n");
        ReplaceOneChar('\U{240D}', '\n', "\U{240A}\n");
        ReplaceOneChar('\r', '\n', "\U{240A}\n");
        assert x == ['\U{240D}'] + ['\r'];
      } else {
        ReplaceOneChar(c, '\n', "\U{240A}\n");
      }
      MarkNewlinesEach(t);
    }
  }

  /// No marked text starts with '\r' or '\n', and one that starts with
  /// "␊\n" comes from a text that starts with '\n'.
  lemma MarkEachStart(t: string)
    ensures MarkEach(t) == [] || (MarkEach(t)[0] != '\r' && MarkEach(t)[0] != '\n')
    ensures |MarkEach(t)| >= 2 && MarkEach(t)[0] == '\U{240A}' && MarkEach(t)[1] == '\n'
            ==> t != [] && t[0] == '\n'
  {
    if t != [] && t[0] != '\n' && t[0] != '\r' {
      var u := t[1..];
      assert MarkEach(t) == [t[0]] + MarkEach(u);
      if MarkEach(u) != [] {
        assert MarkEach(u)[0] == NewlineMark(u[0])[0];
      }
    }
  }

  const CrLfMarked: string := "\U{240D}\r\U{240A}\n"

  /// `replace` skips a prefix in which the pattern never starts.
  lemma {:induction false} ReplaceSkip(x: string, y: string, pat: string, rep: string)
    requires |pat| > 0
    requires forall i :: 0 <= i < |x| ==> !At(x + y, i, pat)
    ensures Replace(x + y, pat, rep) == x + Replace(y, pat, rep)
    decreases |x|
  {
    if x == [] {
      assert x + y == y;
    } else if |x + y| >= |pat| {
      var z := x + y;
      assert !At(z, 0, pat);
      assert z[1..] == x[1..] + y;
      forall i | 0 <= i < |x| - 1 ensures !At(x[1..] + y, i, pat) {
        assert !At(z, i + 1, pat);
        if i + |pat| <= |z| - 1 {
          assert z[i + 1..i + 1 + |pat|] == z[1..][i..i + |pat|];
        }
      }
      ReplaceSkip(x[1..], y, pat, rep);
    }
  }

  /// The rendering before the control characters are replaced.
  function MarkLines(s: string): string
    decreases |s|
  {
    if s == [] then []
    else if |s| >= 2 && s[0] == '\r' && s[1] == '\n' then "\U{240D}\U{240A}\r\n" + MarkLines(s[2..])
    else NewlineMark(s[0]) + MarkLines(s[1..])
  }

  lemma {:induction false} JoinCrlfLines(s: string)
    ensures JoinCrlf(MarkEach(s)) == MarkLines(s)
    decreases |s|
  {
    if s == [] {
    } else if |s| >= 2 && s[0] == '\r' && s[1] == '\n' {
      var y := MarkEach(s[2..]);
      assert s[1..][1..] == s[2..];
      assert MarkEach(s) == CrLfMarked + y;
      assert (CrLfMarked + y)[..4] == CrLfMarked;
      assert (CrLfMarked + y)[4..] == y;
      JoinCrlfLines(s[2..]);
    } else {
      var c, t := s[0], s[1..];
      NoMarkedPairAtMark(c, t);
      ReplaceSkip(NewlineMark(c), MarkEach(t), CrLfMarked, "\U{240D}\U{240A}\r\n");
      JoinCrlfLines(t);
    }
  }

  lemma AtMarked(z: string, i: nat)
    ensures At(z, i, CrLfMarked) <==>
      i + 4 <= |z| && z[i] == '\U{240D}' && z[i + 1] == '\r' && z[i + 2] == '\U{240A}' && z[i + 3] == '\n'
  {
    if i + 4 <= |z| && z[i] == '\U{240D}' && z[i + 1] == '\r' && z[i + 2] == '\U{240A}' && z[i + 3] == '\n' {
      assert z[i..i + 4] == CrLfMarked;
    }
  }

  /// No marked pair starts inside the mark of a character that does not
  /// begin a "\r\n".
  lemma NoMarkedPairAtMark(c: char, t: string)
    requires !(c == '\r' && t != [] && t[0] == '\n')
    ensures forall i :: 0 <= i < |NewlineMark(c)| ==> !At(NewlineMark(c) + MarkEach(t), i, CrLfMarked)
  {
    var x, y := NewlineMark(c), MarkEach(t);
    var z := x + y;
    MarkEachStart(t);
    AtMarked(z, 0);
    if |x| == 2 {
      AtMarked(z, 1);
      assert z[1] == x[1];
      assert |z| >= 4 ==> z[2] == y[0] && z[3] == y[1];
    } else {
      assert |z| >= 2 ==> z[1] == y[0];
    }
  }

  /// The control-character replacements, character by character.
  function ControlMark(c: char): string
  {
    if c == '\U{0007}' then "\U{2407}"
    else if c == '\U{0008}' then "\U{2408}"
    else if c == '\U{001B}' then "\U{241B}"
    else if c == '\U{007F}' then "\U{2421}"
    else [c]
  }

  lemma MarkControlsAppend(a: string, b: string)
    ensures MarkControls(a + b) == MarkControls(a) + MarkControls(b)
  {
    var a1, b1 := Replace(a, "\U{0007}", "\U{2407}"), Replace(b, "\U{0007}", "\U{2407}");
    ReplaceCharAppend(a, b, '\U{0007}', "\U{2407}");
    var a2, b2 := Replace(a1, "\U{0008}", "\U{2408}"), Replace(b1, "\U{0008}", "\U{2408}");
    ReplaceCharAppend(a1, b1, '\U{0008}', "\U{2408}");
    var a3, b3 := Replace(a2, "\U{001B}", "\U{241B}"), Replace(b2, "\U{001B}", "\U{241B}");
    ReplaceCharAppend(a2, b2, '\U{001B}', "\U{241B}");
    ReplaceCharAppend(a3, b3, '\U{007F}', "\U{2421}");
  }

  lemma MarkControlsChar(c: char)
    ensures MarkControls([c]) == ControlMark(c)
  {
    ReplaceOneChar(c, '\U{0007}', "\U{2407}");
    if c == '\U{0007}' {
      ReplaceOneChar('\U{2407}', '\U{0008}', "\U{2408}");
      ReplaceOneChar('\U{2407}', '\U{001B}', "\U{241B}");
      ReplaceOneChar('\U{2407}', '\U{007F}', "\U{2421}");
    } else {
      ReplaceOneChar(c, '\U{0008}', "\U{2408}");
      if c == '\U{0008}' {
        ReplaceOneChar('\U{2408}', '\U{001B}', "\U{241B}");
        ReplaceOneChar('\U{2408}', '\U{007F}', "\U{2421}");
      } else {
        ReplaceOneChar(c, '\U{001B}', "\U{241B}");
        if c == '\U{001B}' {
          ReplaceOneChar('\U{241B}', '\U{007F}', "\U{2421}");
        } else {
          ReplaceOneChar(c, '\U{007F}', "\U{2421}");
        }
      }
    }
  }

  /// Text free of the four control characters passes unchanged.
  lemma {:induction false} MarkControlsPlain(x: string)
    requires forall k :: 0 <= k < |x| ==> ControlMark(x[k]) == [x[k]]
    ensures MarkControls(x) == x
    decreases |x|
  {
    if x != [] {
      assert x == [x[0]] + x[1..];
      MarkControlsAppend([x[0]], x[1..]);
      MarkControlsChar(x[0]);
      MarkControlsPlain(x[1..]);
    }
  }

  lemma {:induction false} MarkControlsLines(s: string)
    ensures MarkControls(MarkLines(s)) == Visible(s)
    decreases |s|
  {
    if s == [] {
    } else if |s| >= 2 && s[0] == '\r' && s[1] == '\n' {
      MarkControlsPlainPrefix("\U{240D}\U{240A}\r\n", MarkLines(s[2..]));
      MarkControlsLines(s[2..]);
    } else {
      MarkControlsMark(s[0], MarkLines(s[1..]));
      MarkControlsLines(s[1..]);
    }
  }

  lemma MarkControlsPlainPrefix(p: string, rest: string)
    requires forall k :: 0 <= k < |p| ==> ControlMark(p[k]) == [p[k]]
    ensures MarkControls(p + rest) == p + MarkControls(rest)
  {
    MarkControlsAppend(p, rest);
    MarkControlsPlain(p);
  }

  lemma MarkControlsMark(c: char, rest: string)
    ensures MarkControls(NewlineMark(c) + rest) == Symbol(c) + MarkControls(rest)
  {
    MarkControlsAppend(NewlineMark(c), rest);
    if c == '\r' || c == '\n' {
      MarkControlsPlain(NewlineMark(c));
    } else {
      MarkControlsChar(c);
    }
  }

  /// The seven replacements of `render_invisible` in sequence are the
  /// one-pass rendering: a "\r\n" pair is marked as one unit and nothing a
  /// replacement inserts is matched again by a later one.
  lemma RenderChainIsVisible(s: string)
    ensures MarkControls(JoinCrlf(MarkNewlines(s))) == Visible(s)
  {
    MarkNewlinesEach(s);
    JoinCrlfLines(s);
    MarkControlsLines(s);
  }
}
