// The pieces of Rust's `str` API that the modelled code relies on, over
// `string` (a sequence of chars, one char per byte of ASCII text).
// `lines`, `split`, `replace`, `trim_*` and `starts_with` follow the
// standard library's definitions.
module Strs {
  import opened Wrappers

  /// `char::is_whitespace` on ASCII text.
  predicate IsWhitespace(c: char)
  {
    c == ' ' || c == '\t' || c == '\n' || c == '\U{000B}' || c == '\U{000C}' || c == '\r'
  }

  /// `char::is_control`: the general category Cc (C0 controls, DEL, C1 controls).
  predicate IsControl(c: char)
  {
    (c as int) < 0x20 || (0x7F <= (c as int) && (c as int) <= 0x9F)
  }

  predicate AllWhitespace(s: string)
  {
    forall i :: 0 <= i < |s| ==> IsWhitespace(s[i])
  }

  /// `str::trim_end`
  function TrimEnd(s: string): (r: string)
    ensures r <= s
    ensures r == [] || !IsWhitespace(r[|r| - 1])
    ensures forall i :: |r| <= i < |s| ==> IsWhitespace(s[i])
    decreases |s|
  {
    if s != [] && IsWhitespace(s[|s| - 1]) then TrimEnd(s[..|s| - 1]) else s
  }

  /// `str::trim_start`
  function TrimStart(s: string): (r: string)
    ensures |r| <= |s| && r == s[|s| - |r|..]
    ensures r == [] || !IsWhitespace(r[0])
    ensures forall i :: 0 <= i < |s| - |r| ==> IsWhitespace(s[i])
    decreases |s|
  {
    if s != [] && IsWhitespace(s[0]) then TrimStart(s[1..]) else s
  }

  /// `char::to_lowercase` on ASCII letters.
  function LowerChar(c: char): char
  {
    if 'A' <= c <= 'Z' then (c as int + 32) as char else c
  }

  /// `str::to_lowercase` on ASCII text.
  function ToLowercase(s: string): (r: string)
  {
    seq(|s|, i requires 0 <= i < |s| => LowerChar(s[i]))
  }

  /// `str::trim`
  function Trim(s: string): string
  {
    TrimStart(TrimEnd(s))
  }

  /// `str::trim_start_matches(['\r', '\n'])`
  function TrimStartNewlines(s: string): (r: string)
    ensures |r| <= |s| && r == s[|s| - |r|..]
    ensures r == [] || (r[0] != '\r' && r[0] != '\n')
    ensures forall i :: 0 <= i < |s| - |r| ==> s[i] == '\r' || s[i] == '\n'
    decreases |s|
  {
    if s != [] && (s[0] == '\r' || s[0] == '\n') then TrimStartNewlines(s[1..]) else s
  }

  /// The leading run of whitespace (`chars().take_while(is_whitespace)`).
  function LeadingWhitespace(s: string): (r: string)
    ensures r <= s && AllWhitespace(r)
    ensures |r| == |s| || !IsWhitespace(s[|r|])
    decreases |s|
  {
    if s != [] && IsWhitespace(s[0]) then [s[0]] + LeadingWhitespace(s[1..]) else []
  }

  /// Index of the first occurrence of `c`, or `|s|` when there is none.
  function IndexOfChar(s: string, c: char): (i: nat)
    ensures i <= |s|
    ensures i < |s| ==> s[i] == c
    ensures forall j :: 0 <= j < i ==> s[j] != c
    decreases |s|
  {
    if s == [] then 0 else if s[0] == c then 0 else 1 + IndexOfChar(s[1..], c)
  }

  /// Drops one trailing '\r'.
  function StripCr(l: string): string
  {
    if l != [] && l[|l| - 1] == '\r' then l[..|l| - 1] else l
  }

  /// `str::lines`: pieces separated by '\n', each with one '\r' removed
  /// before its '\n'; a final '\n' does not start an empty line, and the
  /// empty string has no lines.
  function Lines(s: string): (r: seq<string>)
    ensures s == [] <==> r == []
    ensures forall k :: 0 <= k < |r| ==> '\n' !in r[k]
    decreases |s|
  {
    if s == [] then []
    else
      var i := IndexOfChar(s, '\n');
      if i == |s| then [s] else [StripCr(s[..i])] + Lines(s[i + 1..])
  }

  /// `str::split(c)`: always at least one piece.
  function Split(s: string, c: char): (r: seq<string>)
    ensures |r| >= 1
    decreases |s|
  {
    var i := IndexOfChar(s, c);
    if i == |s| then [s] else [s[..i]] + Split(s[i + 1..], c)
  }

  /// `pat` occurs in `s` at position `i`.
  predicate At(s: string, i: nat, pat: string)
  {
    i + |pat| <= |s| && s[i..i + |pat|] == pat
  }

  predicate Contains(s: string, pat: string)
  {
    exists i :: 0 <= i <= |s| - |pat| && At(s, i, pat)
  }

  /// Index of the leftmost occurrence of `pat` at or after `from`, or `|s|`
  /// when there is none.
  function FindFrom(s: string, pat: string, from: nat): (i: nat)
    requires |pat| > 0 && from <= |s|
    ensures from <= i <= |s|
    ensures i < |s| ==> At(s, i, pat)
    ensures forall j :: from <= j < i ==> !At(s, j, pat)
    decreases |s| - from
  {
    if from + |pat| > |s| then |s|
    else if At(s, from, pat) then from
    else FindFrom(s, pat, from + 1)
  }

  /// Index of the leftmost occurrence of `pat`, or `|s|` when there is none.
  function Find(s: string, pat: string): (i: nat)
    requires |pat| > 0
    ensures i <= |s|
    ensures i < |s| ==> At(s, i, pat)
    ensures forall j :: 0 <= j < i ==> !At(s, j, pat)
  {
    FindFrom(s, pat, 0)
  }

  /// Index of the rightmost occurrence of `pat` that starts below `n`.
  function RFindBelow(s: string, pat: string, n: nat): (r: Option<nat>)
    requires |pat| > 0
    ensures r.Some? ==> r.value < n && At(s, r.value, pat)
    ensures forall j :: (if r.Some? then r.value + 1 else 0) <= j < n ==> !At(s, j, pat)
    decreases n
  {
    if n == 0 then None
    else if At(s, n - 1, pat) then Some(n - 1)
    else RFindBelow(s, pat, n - 1)
  }

  /// `str::rfind(pat)`: the rightmost occurrence, the one `rsplitn` splits
  /// at.
  function RFind(s: string, pat: string): (r: Option<nat>)
    requires |pat| > 0
    ensures r.Some? ==> At(s, r.value, pat) && forall j :: r.value < j <= |s| ==> !At(s, j, pat)
    ensures r.None? ==> forall j :: 0 <= j <= |s| ==> !At(s, j, pat)
  {
    RFindBelow(s, pat, |s|)
  }

  /// `str::split(pat)` for a non-empty pattern.
  function SplitStr(s: string, pat: string): (r: seq<string>)
    requires |pat| > 0
    ensures |r| >= 1
    decreases |s|
  {
    var i := Find(s, pat);
    if i == |s| then [s] else [s[..i]] + SplitStr(s[i + |pat|..], pat)
  }

  /// `[..].join(sep)`
  function Join(parts: seq<string>, sep: string): string
  {
    if parts == [] then []
    else if |parts| == 1 then parts[0]
    else parts[0] + sep + Join(parts[1..], sep)
  }

  /// `str::replace(pat, rep)` for a non-empty pattern: leftmost,
  /// non-overlapping occurrences.
  function Replace(s: string, pat: string, rep: string): string
    requires |pat| > 0
    decreases |s|
  {
    if |s| < |pat| then s
    else if s[..|pat|] == pat then rep + Replace(s[|pat|..], pat, rep)
    else [s[0]] + Replace(s[1..], pat, rep)
  }

  /// A match at the front is replaced, and the search goes on after it.
  lemma ReplaceHit(pat: string, t: string, rep: string)
    requires |pat| > 0
    ensures Replace(pat + t, pat, rep) == rep + Replace(t, pat, rep)
  {
    assert (pat + t)[..|pat|] == pat;
    assert (pat + t)[|pat|..] == t;
  }

  /// Without a match at the front, the first character is kept.
  lemma ReplaceMiss(c: char, t: string, pat: string, rep: string)
    requires |pat| > 0 && |pat| <= 1 + |t| && ([c] + t)[..|pat|] != pat
    ensures Replace([c] + t, pat, rep) == [c] + Replace(t, pat, rep)
  {
    assert ([c] + t)[1..] == t;
  }

  /// `str::starts_with` / `str::ends_with`.
  predicate StartsWith(s: string, p: string)
  {
    p <= s
  }

  predicate EndsWith(s: string, p: string)
  {
    |p| <= |s| && s[|s| - |p|..] == p
  }

  /// Index of the last occurrence of `c`, if any.
  function LastIndexOfChar(s: string, c: char): (r: Option<nat>)
    ensures r.Some? ==> r.value < |s| && s[r.value] == c
    ensures r.Some? ==> forall j :: r.value < j < |s| ==> s[j] != c
    ensures r.None? ==> c !in s
    decreases |s|
  {
    if s == [] then None
    else if s[|s| - 1] == c then Some(|s| - 1)
    else LastIndexOfChar(s[..|s| - 1], c)
  }

  /// `n` spaces: the padding of `format!("{: ^n$}", "")`.
  function Spaces(n: nat): (r: string)
    ensures |r| == n
    ensures forall k :: 0 <= k < n ==> r[k] == ' '
  {
    if n == 0 then [] else Spaces(n - 1) + " "
  }

  /// `str::repeat`
  function Repeat(s: string, n: nat): (r: string)
    ensures |r| == n * |s|
  {
    if n == 0 then [] else s + Repeat(s, n - 1)
  }

  function DigitChar(d: nat): char
    requires d < 10
  {
    ['0', '1', '2', '3', '4', '5', '6', '7', '8', '9'][d]
  }

  /// Decimal rendering of a natural number (`to_string` on an unsigned integer).
  function NatToString(n: nat): (r: string)
    ensures |r| >= 1
    ensures forall k :: 0 <= k < |r| ==> '0' <= r[k] <= '9'
  {
    if n < 10 then [DigitChar(n)] else NatToString(n / 10) + [DigitChar(n % 10)]
  }

  /// Decimal rendering of a signed integer.
  function IntToString(i: int): string
  {
    if i < 0 then "-" + NatToString(-i) else NatToString(i)
  }

  lemma IndexOfCharAfter(a: string, c: char, b: string)
    requires c !in a
    ensures IndexOfChar(a + [c] + b, c) == |a|
  {
    var s := a + [c] + b;
    assert s[|a|] == c;
    assert forall j :: 0 <= j < |a| ==> s[j] == a[j];
  }

  /// Splitting joined lines gives the lines back, when no line holds a '\n',
  /// no line but the last ends in '\r' and the last line is not empty.
  lemma {:induction false} LinesOfJoin(xs: seq<string>)
    requires forall k :: 0 <= k < |xs| ==> '\n' !in xs[k]
    requires forall k :: 0 <= k < |xs| - 1 ==> StripCr(xs[k]) == xs[k]
    requires xs == [] || xs[|xs| - 1] != []
    ensures Lines(Join(xs, "\n")) == xs
    decreases |xs|
  {
    if |xs| == 1 {
      assert IndexOfChar(xs[0], '\n') == |xs[0]|;
    } else if |xs| >= 2 {
      var j := Join(xs[1..], "\n");
      var s := xs[0] + "\n" + j;
      assert Join(xs, "\n") == s;
      IndexOfCharAfter(xs[0], '\n', j);
      assert s[..|xs[0]|] == xs[0];
      assert s[|xs[0]| + 1..] == j;
      LinesOfJoin(xs[1..]);
      assert xs == [xs[0]] + xs[1..];
    }
  }

  /// Concatenation regroups.
  lemma AppendAssoc(a: string, b: string, c: string)
    ensures a + b + c == a + (b + c)
  {
  }

  /// `replace` keeps a first character that cannot start the pattern and a
  /// last character that cannot end it.
  lemma {:induction false} ReplaceEnds(s: string, pat: string, rep: string)
    requires |pat| > 0
    ensures s != [] && s[0] != pat[0] ==> Replace(s, pat, rep) != [] && Replace(s, pat, rep)[0] == s[0]
    ensures s != [] && s[|s| - 1] != pat[|pat| - 1] ==>
      Replace(s, pat, rep) != [] && Replace(s, pat, rep)[|Replace(s, pat, rep)| - 1] == s[|s| - 1]
    decreases |s|
  {
    if |s| >= |pat| {
      if s[..|pat|] == pat {
        assert s[0] == pat[0];
        if s[|s| - 1] != pat[|pat| - 1] {
          assert s[|pat| - 1] == pat[|pat| - 1];
          assert |s| > |pat|;
          ReplaceEnds(s[|pat|..], pat, rep);
        }
      } else {
        ReplaceEnds(s[1..], pat, rep);
        if s[|s| - 1] != pat[|pat| - 1] && |s| > 1 {
          assert s[1..][|s[1..]| - 1] == s[|s| - 1];
        }
      }
    }
  }

  /// Text in which the pattern's first character never occurs is unchanged.
  lemma {:induction false} ReplaceAbsent(s: string, pat: string, rep: string)
    requires |pat| > 0 && pat[0] !in s
    ensures Replace(s, pat, rep) == s
    decreases |s|
  {
    if |s| >= |pat| {
      assert s[0] in s;
      assert s[..|pat|][0] == s[0];
      assert pat[0] !in s[1..] by {
        forall c | c in s[1..] ensures c in s {
        }
      }
      ReplaceAbsent(s[1..], pat, rep);
      assert s == [s[0]] + s[1..];
    }
  }

  /// Nor does it when the last character of the pattern is missing.
  lemma {:induction false} ReplaceAbsentLast(s: string, pat: string, rep: string)
    requires |pat| > 0 && pat[|pat| - 1] !in s
    ensures Replace(s, pat, rep) == s
    decreases |s|
  {
    if |s| >= |pat| {
      assert s[|pat| - 1] in s;
      assert s[..|pat|][|pat| - 1] == s[|pat| - 1];
      assert pat[|pat| - 1] !in s[1..] by {
        forall c | c in s[1..] ensures c in s {
        }
      }
      ReplaceAbsentLast(s[1..], pat, rep);
      assert s == [s[0]] + s[1..];
    }
  }

  /// `trim_start` of text after leading whitespace.
  lemma {:induction false} TrimStartAfterWhitespace(w: string, t: string)
    requires AllWhitespace(w)
    ensures TrimStart(w + t) == TrimStart(t)
    decreases |w|
  {
    if w != [] {
      assert (w + t)[0] == w[0];
      assert (w + t)[1..] == w[1..] + t;
      TrimStartAfterWhitespace(w[1..], t);
    } else {
      assert w + t == t;
    }
  }

  /// `trim_start` stops inside `a` when `a` is not blank.
  lemma {:induction false} TrimStartAppend(a: string, b: string)
    requires TrimStart(a) != []
    ensures TrimStart(a + b) == TrimStart(a) + b
    decreases |a|
  {
    assert (a + b)[0] == a[0];
    if IsWhitespace(a[0]) {
      assert (a + b)[1..] == a[1..] + b;
      TrimStartAppend(a[1..], b);
    }
  }

  /// A trailing line break is trimmed with the rest of the whitespace.
  lemma TrimEndNewline(s: string)
    ensures TrimEnd(s + "\n") == TrimEnd(s)
  {
    assert (s + "\n")[..|s|] == s;
  }

  /// `Join` of at least two parts.
  lemma JoinCons(a: string, rest: seq<string>, sep: string)
    requires rest != []
    ensures Join([a] + rest, sep) == a + sep + Join(rest, sep)
  {
    assert ([a] + rest)[1..] == rest;
  }

  lemma TrimStartNewlinesNone(s: string)
    requires s == [] || (s[0] != '\r' && s[0] != '\n')
    ensures TrimStartNewlines(s) == s
  {
  }

  lemma TrimEndNone(s: string)
    requires s == [] || !IsWhitespace(s[|s| - 1])
    ensures TrimEnd(s) == s
  {
  }

  /// The first piece of `split(c)` ends at the first `c`; the others are
  /// the pieces of the text after it.
  lemma SplitFirst(s: string, c: char)
    ensures Split(s, c)[0] == s[..IndexOfChar(s, c)]
    ensures IndexOfChar(s, c) < |s| ==> Split(s, c)[1..] == Split(s[IndexOfChar(s, c) + 1..], c)
    ensures IndexOfChar(s, c) == |s| ==> Split(s, c) == [s]
  {
    if IndexOfChar(s, c) == |s| {
      assert s[..|s|] == s;
    }
  }

  /// `trim_end` of text followed by whitespace.
  lemma {:induction false} TrimEndAfterWhitespace(t: string, w: string)
    requires AllWhitespace(w)
    ensures TrimEnd(t + w) == TrimEnd(t)
    decreases |w|
  {
    if w != [] {
      assert (t + w)[..|t + w| - 1] == t + w[..|w| - 1];
      TrimEndAfterWhitespace(t, w[..|w| - 1]);
    } else {
      assert t + w == t;
    }
  }

  /// `trim_end` stops inside `b` when `b` is not blank.
  lemma {:induction false} TrimEndPrepend(a: string, b: string)
    requires TrimEnd(b) != []
    ensures TrimEnd(a + b) == a + TrimEnd(b)
    decreases |b|
  {
    assert (a + b)[|a + b| - 1] == b[|b| - 1];
    if IsWhitespace(b[|b| - 1]) {
      assert (a + b)[..|a + b| - 1] == a + b[..|b| - 1];
      TrimEndPrepend(a, b[..|b| - 1]);
    }
  }

  /// The leading whitespace of text after whitespace.
  lemma {:induction false} LeadingWhitespaceAfter(w: string, l: string)
    requires AllWhitespace(w)
    ensures LeadingWhitespace(w + l) == w + LeadingWhitespace(l)
    decreases |w|
  {
    if w != [] {
      assert (w + l)[0] == w[0];
      assert (w + l)[1..] == w[1..] + l;
      LeadingWhitespaceAfter(w[1..], l);
      assert w == [w[0]] + w[1..];
    } else {
      assert w + l == l;
    }
  }

  /// `Join` with one more part at the end.
  lemma {:induction false} JoinSnoc(ps: seq<string>, p: string, sep: string)
    requires ps != []
    ensures Join(ps + [p], sep) == Join(ps, sep) + sep + p
    decreases |ps|
  {
    if |ps| == 1 {
      assert (ps + [p])[1..] == [p];
    } else {
      assert (ps + [p])[1..] == ps[1..] + [p];
      JoinSnoc(ps[1..], p, sep);
    }
  }
  /// Every line followed by a line break.
  function Terminated(xs: seq<string>): string
  {
    if xs == [] then "" else xs[0] + "\n" + Terminated(xs[1..])
  }

  lemma {:induction false} TerminatedJoin(xs: seq<string>)
    requires xs != []
    ensures Terminated(xs) == Join(xs, "\n") + "\n"
  {
    if |xs| > 1 {
      TerminatedJoin(xs[1..]);
      assert Join(xs, "\n") == xs[0] + "\n" + Join(xs[1..], "\n");
    } else {
      assert xs[1..] == [];
    }
  }

  /// The lines of text in which every line is followed by a line break.
  lemma {:induction false} LinesOfTerminated(xs: seq<string>)
    requires forall k :: 0 <= k < |xs| ==> '\n' !in xs[k] && StripCr(xs[k]) == xs[k]
    ensures Lines(Terminated(xs)) == xs
    decreases |xs|
  {
    if xs != [] {
      LinesOfTerminated(xs[1..]);
      LinesOfTerminatedLine(xs[0], Terminated(xs[1..]));
      assert xs == [xs[0]] + xs[1..];
    }
  }

  /// A first line followed by a line break is split off whole.
  lemma LinesOfTerminatedLine(x: string, t: string)
    requires '\n' !in x && StripCr(x) == x
    ensures Lines(x + "\n" + t) == [x] + Lines(t)
  {
    var s := x + "\n" + t;
    IndexOfCharAfter(x, '\n', t);
    assert s[..|x|] == x;
    assert s[|x| + 1..] == t;
  }


  lemma DigitCharValue(d: nat)
    requires d < 10
    ensures DigitChar(d) as int == '0' as int + d
  {
  }

  /// Different numbers have different decimal renderings.
  lemma {:induction false} NatToStringInjective(a: nat, b: nat)
    requires NatToString(a) == NatToString(b)
    ensures a == b
    decreases a
  {
    if a < 10 && b < 10 {
      DigitCharValue(a);
      DigitCharValue(b);
    } else if a >= 10 && b >= 10 {
      var sa := NatToString(a);
      assert sa == NatToString(a / 10) + [DigitChar(a % 10)];
      assert sa == NatToString(b / 10) + [DigitChar(b % 10)];
      assert sa[|sa| - 1] == DigitChar(a % 10) == DigitChar(b % 10);
      DigitCharValue(a % 10);
      DigitCharValue(b % 10);
      assert NatToString(a / 10) == sa[..|sa| - 1] == NatToString(b / 10);
      NatToStringInjective(a / 10, b / 10);
    }
  }
}
