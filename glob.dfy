// The `glob!` driver (insta/src/glob.rs): it rejects patterns that climb
// out of the base directory, collects the matching files below the base,
// narrows them by `INSTA_GLOB_FILTER`, runs the test body once per file
// with a snapshot suffix derived from the file's path, and reports the
// failed assertions at the end through a collector pushed on the glob stack.
module Glob {
  import opened Wrappers
  import opened Strs
  import P = Paths
  import So = Sorting

  // ---------------------------------------------------------------------
  // Path order

  /// `Ord` on one path component: byte-wise, as on `OsStr`.
  function ComponentCmp(a: string, b: string): So.Ordering
  {
    So.LexCmp(So.Codes(a), So.Codes(b))
  }

  /// `Ord` on `PathBuf`: lexicographic over the components.
  function PathCmp(a: P.Path, b: P.Path): So.Ordering
    decreases |a|
  {
    if a == [] && b == [] then So.Equal
    else if a == [] then So.Less
    else if b == [] then So.Greater
    else
      var c := ComponentCmp(a[0], b[0]);
      if c != So.Equal then c else PathCmp(a[1..], b[1..])
  }

  /// Two components that are each not above the other are equal.
  lemma ComponentAntisymmetric(a: string, b: string)
    requires ComponentCmp(a, b) != So.Greater && ComponentCmp(b, a) != So.Greater
    ensures a == b
  {
    So.LexCmpReverse(So.Codes(a), So.Codes(b));
    So.CodesInjective(a, b);
  }

  lemma {:induction false} PathCmpReverse(a: P.Path, b: P.Path)
    ensures PathCmp(a, b) == PathCmp(b, a).Reverse()
    decreases |a|
  {
    if a != [] && b != [] {
      So.LexCmpReverse(So.Codes(a[0]), So.Codes(b[0]));
      PathCmpReverse(a[1..], b[1..]);
    }
  }

  lemma {:induction false} PathCmpTransitive(a: P.Path, b: P.Path, c: P.Path)
    requires PathCmp(a, b) != So.Greater && PathCmp(b, c) != So.Greater
    ensures PathCmp(a, c) != So.Greater
    decreases |a|
  {
    if a != [] {
      assert b != [] && c != [];
      So.LexCmpTransitive(So.Codes(a[0]), So.Codes(b[0]), So.Codes(c[0]));
      if ComponentCmp(a[0], c[0]) == So.Equal {
        So.CodesInjective(a[0], c[0]);
        So.LexCmpReverse(So.Codes(a[0]), So.Codes(b[0]));
        ComponentAntisymmetric(a[0], b[0]);
        PathCmpTransitive(a[1..], b[1..], c[1..]);
      }
    }
  }

  /// The path order is a total preorder, so `sort` sorts.
  lemma PathCmpTotal(xs: seq<P.Path>)
    ensures So.TotalPreorderOn(PathCmp, xs)
  {
    forall a, b | a in xs && b in xs ensures PathCmp(a, b) == PathCmp(b, a).Reverse() {
      PathCmpReverse(a, b);
    }
    forall a, b, c | a in xs && b in xs && c in xs && PathCmp(a, b) != So.Greater && PathCmp(b, c) != So.Greater
      ensures PathCmp(a, c) != So.Greater
    {
      PathCmpTransitive(a, b, c);
    }
  }

  /// `Vec<PathBuf>::sort`.
  function SortPaths(xs: seq<P.Path>): seq<P.Path>
  {
    So.SortBy(xs, PathCmp)
  }

  lemma SortPathsSorted(xs: seq<P.Path>)
    ensures So.SortedBy(PathCmp, SortPaths(xs))
    ensures multiset(SortPaths(xs)) == multiset(xs)
  {
    PathCmpTotal(xs);
    So.SortBySorted(xs, PathCmp);
  }

  /// A path that is a proper prefix of another sorts before it.
  lemma {:induction false} ProperPrefixLess(p: P.Path, q: P.Path)
    requires p <= q && |p| < |q|
    ensures PathCmp(p, q) == So.Less
    decreases |p|
  {
    if p != [] {
      So.CodesInjective(p[0], q[0]);
      ProperPrefixLess(p[1..], q[1..]);
    }
  }

  // ---------------------------------------------------------------------
  // Common prefix

  /// The number of leading components two paths share (`zip` +
  /// `take_while(a == b)` + `count`).
  function SharedLen(a: P.Path, b: P.Path): (n: nat)
    ensures n <= |a| && n <= |b|
    ensures a[..n] == b[..n]
    ensures n == |a| || n == |b| || a[n] != b[n]
    decreases |a|
  {
    if a == [] || b == [] || a[0] != b[0] then 0
    else
      var m := SharedLen(a[1..], b[1..]);
      assert a[..m + 1] == [a[0]] + a[1..][..m];
      assert b[..m + 1] == [b[0]] + b[1..][..m];
      m + 1
  }

  /// `find_common_prefix` as written: the first path cut down to the
  /// components it shares with the last one, or None when the list is
  /// empty or the two share nothing.  For a single path that is the whole
  /// path itself.
  function FindCommonPrefixAsWritten(sorted: seq<P.Path>): (r: Option<P.Path>)
    ensures r.None? <==> sorted == [] || sorted[0] == [] || sorted[|sorted| - 1] == []
                         || sorted[0][0] != sorted[|sorted| - 1][0]
    ensures r.Some? ==> r.value != [] && r.value <= sorted[0] && r.value <= sorted[|sorted| - 1]
    ensures r.Some? ==> (|r.value| == |sorted[0]| || |r.value| == |sorted[|sorted| - 1]|
                         || sorted[0][|r.value|] != sorted[|sorted| - 1][|r.value|])
  {
    if sorted == [] then None
    else
      var first := sorted[0];
      var n := SharedLen(first, sorted[|sorted| - 1]);
      if n == 0 then None else Some(first[..n])
  }

  /// The common prefix, kept to a directory: the shared components of the
  /// first and the last path, but never the whole first path, so that every
  /// file keeps at least its own name as suffix.
  function FindCommonPrefix(sorted: seq<P.Path>): (r: Option<P.Path>)
    ensures r.Some? ==> sorted != [] && r.value != [] && |r.value| < |sorted[0]|
    ensures r.Some? ==> FindCommonPrefixAsWritten(sorted).Some? && r.value <= FindCommonPrefixAsWritten(sorted).value
    ensures r.None? && FindCommonPrefixAsWritten(sorted).Some? ==> |sorted[0]| == 1
  {
    if sorted == [] then None
    else
      var first := sorted[0];
      var n := SharedLen(first, sorted[|sorted| - 1]);
      var m := if n == |first| && n > 0 then n - 1 else n;
      if m == 0 then None else Some(first[..m])
  }

  /// A path that sorts between two paths sharing `n` leading components
  /// shares them as well.
  lemma {:induction false} BetweenSharesPrefix(a: P.Path, x: P.Path, b: P.Path, n: nat)
    requires PathCmp(a, x) != So.Greater && PathCmp(x, b) != So.Greater
    requires n <= |a| && n <= |b| && a[..n] == b[..n]
    ensures a[..n] <= x
    decreases n
  {
    if n > 0 {
      var a', x', b' := a[1..], x[1..], b[1..];
      assert a[0] == b[0] && a'[..n - 1] == b'[..n - 1] by {
        SharedHead(a, b, n);
      }
      assert x != [] && x[0] == a[0] && PathCmp(a', x') != So.Greater && PathCmp(x', b') != So.Greater by {
        BetweenStep(a, x, b);
      }
      assert a'[..n - 1] <= x' by {
        BetweenSharesPrefix(a', x', b', n - 1);
      }
      PrefixCons(a, x, n);
    }
  }

  /// Two paths sharing `n > 0` leading components share the first one,
  /// and their tails share `n - 1`.
  lemma SharedHead(a: P.Path, b: P.Path, n: nat)
    requires 0 < n <= |a| && n <= |b| && a[..n] == b[..n]
    ensures a[0] == b[0] && a[1..][..n - 1] == b[1..][..n - 1]
  {
    assert a[0] == a[..n][0] == b[..n][0] == b[0];
    assert a[1..][..n - 1] == a[..n][1..] == b[..n][1..] == b[1..][..n - 1];
  }

  /// A path between two paths with the same first component has that
  /// component too, and its tail sorts between their tails.
  lemma BetweenStep(a: P.Path, x: P.Path, b: P.Path)
    requires a != [] && b != [] && a[0] == b[0]
    requires PathCmp(a, x) != So.Greater && PathCmp(x, b) != So.Greater
    ensures x != [] && x[0] == a[0]
    ensures PathCmp(a[1..], x[1..]) != So.Greater && PathCmp(x[1..], b[1..]) != So.Greater
  {
    assert x != [];
    assert ComponentCmp(a[0], x[0]) != So.Greater;
    assert ComponentCmp(x[0], a[0]) != So.Greater;
    ComponentAntisymmetric(a[0], x[0]);
  }

  /// A prefix of the tail, behind the same first component.
  lemma PrefixCons(a: P.Path, x: P.Path, n: nat)
    requires 0 < n <= |a| && x != [] && x[0] == a[0] && a[1..][..n - 1] <= x[1..]
    ensures a[..n] <= x
  {
    assert a[..n] == [a[0]] + a[1..][..n - 1];
    assert x == [x[0]] + x[1..];
  }

  /// Every path of a sorted list starts with the common prefix of its
  /// first and last paths.
  lemma CommonPrefixOfSorted(sorted: seq<P.Path>)
    requires So.SortedBy(PathCmp, sorted)
    ensures FindCommonPrefixAsWritten(sorted).Some? ==>
      forall x :: x in sorted ==> FindCommonPrefixAsWritten(sorted).value <= x
  {
    if sorted != [] {
      var first := sorted[0];
      var last := sorted[|sorted| - 1];
      var n := SharedLen(first, last);
      forall x | x in sorted ensures first[..n] <= x {
        var k :| 0 <= k < |sorted| && sorted[k] == x;
        if 0 < k {
          assert PathCmp(first, x) != So.Greater;
        } else {
          assert PathCmp(first, x) == So.Equal by { PathCmpReverse(first, first); }
        }
        if k < |sorted| - 1 {
          assert PathCmp(x, last) != So.Greater;
        } else {
          assert PathCmp(x, last) == So.Equal by { PathCmpReverse(x, x); }
        }
        BetweenSharesPrefix(first, x, last, n);
      }
    }
  }

  /// Every path of a sorted list is longer than the corrected prefix:
  /// stripping it never leaves an empty path.
  lemma CorrectedPrefixIsProper(sorted: seq<P.Path>)
    requires So.SortedBy(PathCmp, sorted)
    ensures FindCommonPrefix(sorted).Some? ==>
      forall x :: x in sorted ==> FindCommonPrefix(sorted).value <= x && |FindCommonPrefix(sorted).value| < |x|
  {
    CommonPrefixOfSorted(sorted);
    if FindCommonPrefix(sorted).Some? {
      var q := FindCommonPrefix(sorted).value;
      var w := FindCommonPrefixAsWritten(sorted).value;
      forall x | x in sorted ensures q <= x && |q| < |x| {
        assert w <= x;
        assert q == w[..|q|] && q == x[..|q|];
        var k :| 0 <= k < |sorted| && sorted[k] == x;
        if k > 0 && |x| <= |q| {
          assert x == q;
          assert PathCmp(sorted[0], x) != So.Greater;
          ProperPrefixLess(x, sorted[0]);
          PathCmpReverse(x, sorted[0]);
        }
      }
    }
  }

  // ---------------------------------------------------------------------
  // Snapshot suffix

  /// A component of a path other than its leading root: never empty and
  /// never holding a separator.
  predicate Component(c: string)
  {
    c != "" && '/' !in c
  }

  ghost predicate WellFormed(p: P.Path)
  {
    forall k :: 0 < k < |p| ==> Component(p[k])
  }

  /// The snapshot suffix: the path with the prefix stripped, shown with
  /// `/` separators (`as_os_str`), else the file name.  A stripped prefix
  /// the path lacks, or a missing file name, is a panic: None.
  function SuffixOf(path: P.Path, prefix: Option<P.Path>): (r: Option<string>)
    ensures prefix.Some? && prefix.value <= path ==> r == Some(P.Display(path[|prefix.value|..]))
    ensures prefix.Some? && !(prefix.value <= path) ==> r.None?
    ensures prefix.None? ==> r == P.FileName(path)
  {
    match prefix
    case Some(q) => if q <= path then Some(P.Display(path[|q|..])) else None
    case None => P.FileName(path)
  }

  /// The components of a path joined by `/` determine the components.
  lemma {:induction false} DisplayInjective(xs: P.Path, ys: P.Path)
    requires xs != [] && ys != []
    requires forall k :: 0 <= k < |xs| ==> '/' !in xs[k]
    requires forall k :: 0 <= k < |ys| ==> '/' !in ys[k]
    ensures P.Display(xs) == P.Display(ys) ==> xs == ys
    decreases |xs|
  {
    var s := P.Display(xs);
    var t := P.Display(ys);
    if |xs| > 1 {
      JoinCons(xs[0], xs[1..], "/");
      assert [xs[0]] + xs[1..] == xs;
      IndexOfCharAfter(xs[0], '/', Join(xs[1..], "/"));
    }
    if |ys| > 1 {
      JoinCons(ys[0], ys[1..], "/");
      assert [ys[0]] + ys[1..] == ys;
      IndexOfCharAfter(ys[0], '/', Join(ys[1..], "/"));
    }
    var i := IndexOfChar(s, '/');
    var j := IndexOfChar(t, '/');
    if |xs| > 1 && |ys| > 1 {
      DisplayInjective(xs[1..], ys[1..]);
      if s == t {
        assert xs[0] == s[..i] == ys[0];
        assert Join(xs[1..], "/") == s[i + 1..] == Join(ys[1..], "/");
      }
    } else if |xs| == 1 && |ys| == 1 {
    } else if |xs| == 1 {
      assert i == |s| && j < |t|;
    } else {
      assert i < |s| && j == |t|;
    }
  }

  /// The display of a non-empty list of components is not empty.
  lemma DisplayNonEmpty(xs: P.Path)
    requires xs != [] && xs[0] != ""
    ensures P.Display(xs) != ""
  {
    if |xs| > 1 {
      JoinCons(xs[0], xs[1..], "/");
      assert [xs[0]] + xs[1..] == xs;
    }
  }

  /// Two well-formed files that both extend the prefix properly get two
  /// distinct, non-empty suffixes.
  /// A well-formed path longer than the prefix keeps a non-empty suffix.
  lemma SuffixNonEmpty(p: P.Path, q: P.Path)
    requires q != [] && q <= p && |q| < |p| && WellFormed(p)
    ensures SuffixOf(p, Some(q)).Some? && SuffixOf(p, Some(q)).value != ""
  {
    var r := p[|q|..];
    assert Component(p[|q|]);
    assert r[0] == p[|q|];
    DisplayNonEmpty(r);
  }

  lemma {:induction false} SuffixesDistinct(p1: P.Path, p2: P.Path, q: P.Path)
    requires q != [] && q <= p1 && q <= p2 && |q| < |p1| && |q| < |p2|
    requires WellFormed(p1) && WellFormed(p2) && p1 != p2
    ensures SuffixOf(p1, Some(q)).Some? && SuffixOf(p1, Some(q)).value != ""
    ensures SuffixOf(p1, Some(q)) != SuffixOf(p2, Some(q))
  {
    var r1 := p1[|q|..];
    var r2 := p2[|q|..];
    assert Component(p1[|q|]);
    DisplayNonEmpty(r1);
    assert forall k :: 0 <= k < |r1| ==> r1[k] == p1[|q| + k];
    assert forall k :: 0 <= k < |r2| ==> r2[k] == p2[|q| + k];
    assert r1 != r2 by {
      assert p1 == p1[..|q|] + r1 && p2 == p2[..|q|] + r2;
    }
    DisplayInjective(r1, r2);
  }

  /// The discrepancy: a glob that matches a single file strips the whole
  /// path, so the test body runs with an empty suffix, which counts as no
  /// suffix at all; with the corrected prefix the suffix is the file name.
  lemma SingleMatchLosesSuffix(dir: P.Path, name: string)
    requires dir != [] && Component(name)
    ensures FindCommonPrefixAsWritten([dir + [name]]) == Some(dir + [name])
    ensures SuffixOf(dir + [name], FindCommonPrefixAsWritten([dir + [name]])) == Some("")
    ensures FindCommonPrefix([dir + [name]]) == Some(dir)
    ensures SuffixOf(dir + [name], FindCommonPrefix([dir + [name]])) == Some(name)
  {
    var p := dir + [name];
    assert p[..|p|] == p;
    assert p[..|dir|] == dir;
    assert p[|dir|..] == [name];
    assert p[|p|..] == [];
  }

  // ---------------------------------------------------------------------
  // Pattern and filter

  /// The traversal check (insta/src/glob.rs:40): `../` anywhere, or a
  /// leading `..`.
  predicate TraversalPattern(pattern: string)
  {
    Contains(pattern, "../") || StartsWith(pattern, "..")
  }

  /// A pattern that starts with `..` is rejected; one without any `.` is
  /// accepted.
  lemma TraversalPatternCases(rest: string, plain: string)
    requires '.' !in plain
    ensures TraversalPattern(".." + rest)
    ensures !TraversalPattern(plain)
  {
    forall i | 0 <= i <= |plain| - 3 ensures !At(plain, i, "../") {
      assert plain[i..i + 3][0] == plain[i] != '.';
    }
    if |plain| >= 2 {
      assert plain[..2][0] == plain[0] != '.';
    }
  }

  /// The non-empty pieces that compile, in order.
  function KeptPieces(pieces: seq<string>, compiles: string -> bool): (r: seq<string>)
    ensures forall k :: 0 <= k < |r| ==> r[k] in pieces && r[k] != "" && compiles(r[k])
  {
    if pieces == [] then []
    else
      var rest := KeptPieces(pieces[1..], compiles);
      if pieces[0] != "" && compiles(pieces[0]) then [pieces[0]] + rest else rest
  }

  lemma {:induction false} KeptPiecesAll(pieces: seq<string>, compiles: string -> bool)
    requires forall k :: 0 <= k < |pieces| ==> pieces[k] != "" && compiles(pieces[k])
    ensures KeptPieces(pieces, compiles) == pieces
  {
    if pieces != [] {
      KeptPiecesAll(pieces[1..], compiles);
    }
  }

  /// No piece of `split(c)` holds `c`.
  lemma {:induction false} SplitPiecesFree(s: string, c: char)
    ensures forall k :: 0 <= k < |Split(s, c)| ==> c !in Split(s, c)[k]
    decreases |s|
  {
    SplitFirst(s, c);
    var i := IndexOfChar(s, c);
    if i < |s| {
      SplitPiecesFree(s[i + 1..], c);
    }
  }

  /// Joining the pieces of `split(c)` with `c` gives the text back.
  lemma {:induction false} JoinSplit(s: string, c: char)
    ensures Join(Split(s, c), [c]) == s
    decreases |s|
  {
    SplitFirst(s, c);
    var i := IndexOfChar(s, c);
    if i < |s| {
      var rest := Split(s[i + 1..], c);
      JoinSplit(s[i + 1..], c);
      assert Split(s, c) == [s[..i]] + rest;
      JoinCons(s[..i], rest, [c]);
      assert s == s[..i] + [c] + s[i + 1..];
    } else {
      assert s[..|s|] == s;
    }
  }

  /// `GLOB_FILTER`: the variable split on `;`, empty pieces and patterns
  /// that do not compile dropped; an unset variable counts as empty.
  function GlobFilter(env: Option<string>, compiles: string -> bool): (r: seq<string>)
    ensures forall k :: 0 <= k < |r| ==> r[k] != "" && ';' !in r[k] && compiles(r[k])
  {
    var pieces := Split(env.UnwrapOr(""), ';');
    SplitPiecesFree(env.UnwrapOr(""), ';');
    KeptPieces(pieces, compiles)
  }

  /// When every piece is a non-empty pattern that compiles, the filter
  /// keeps them all: joined again they give the variable back.
  lemma GlobFilterKeepsAll(s: string, compiles: string -> bool)
    requires forall k :: 0 <= k < |Split(s, ';')| ==> Split(s, ';')[k] != "" && compiles(Split(s, ';')[k])
    ensures Join(GlobFilter(Some(s), compiles), ";") == s
  {
    KeptPiecesAll(Split(s, ';'), compiles);
    JoinSplit(s, ';');
  }

  // ---------------------------------------------------------------------
  // Collecting the files

  /// The walker's path relative to the base (`strip_prefix(base)
  /// .unwrap_or(path)`), which the matchers see.
  function Stripped(path: P.Path, base: P.Path): P.Path
  {
    P.StripPrefix(path, base).UnwrapOr(path)
  }

  /// An empty filter passes everything; otherwise one of its globs must
  /// match.
  predicate PassesFilter(stripped: P.Path, filters: seq<P.Path -> bool>)
  {
    filters == [] || exists k :: 0 <= k < |filters| && filters[k](stripped)
  }

  /// The walked paths the glob matches, in walking order.
  function Matching(entries: seq<P.Path>, base: P.Path, isMatch: P.Path -> bool): (r: seq<P.Path>)
    ensures forall x :: x in r <==> x in entries && isMatch(Stripped(x, base))
  {
    if entries == [] then []
    else
      var n := |entries| - 1;
      var rest := Matching(entries[..n], base, isMatch);
      assert entries == entries[..n] + [entries[n]];
      if isMatch(Stripped(entries[n], base)) then rest + [entries[n]] else rest
  }

  /// The matched paths the filter lets through, in walking order.
  function Passing(entries: seq<P.Path>, base: P.Path, isMatch: P.Path -> bool, filters: seq<P.Path -> bool>): (r: seq<P.Path>)
    ensures forall x :: x in r <==> x in Matching(entries, base, isMatch) && PassesFilter(Stripped(x, base), filters)
    ensures filters == [] ==> r == Matching(entries, base, isMatch)
  {
    if entries == [] then []
    else
      var n := |entries| - 1;
      var rest := Passing(entries[..n], base, isMatch, filters);
      assert entries == entries[..n] + [entries[n]];
      var s := Stripped(entries[n], base);
      if isMatch(s) && PassesFilter(s, filters) then rest + [entries[n]] else rest
  }

  lemma MatchingSnoc(entries: seq<P.Path>, i: nat, base: P.Path, isMatch: P.Path -> bool, filters: seq<P.Path -> bool>)
    requires i < |entries|
    ensures var s := Stripped(entries[i], base);
      Matching(entries[..i + 1], base, isMatch)
        == Matching(entries[..i], base, isMatch) + (if isMatch(s) then [entries[i]] else [])
      && Passing(entries[..i + 1], base, isMatch, filters)
        == Passing(entries[..i], base, isMatch, filters) + (if isMatch(s) && PassesFilter(s, filters) then [entries[i]] else [])
  {
    assert entries[..i + 1][..i] == entries[..i];
  }

  /// `GLOB_FILTER.is_empty() || GLOB_FILTER.iter().any(..)`.
  method AnyFilter(stripped: P.Path, filters: seq<P.Path -> bool>) returns (pass: bool)
    ensures pass == PassesFilter(stripped, filters)
  {
    pass := filters == [];
    var k := 0;
    while k < |filters| && !pass
      invariant k <= |filters|
      invariant pass <==> filters == [] || exists j :: 0 <= j < k && filters[j](stripped)
    {
      pass := filters[k](stripped);
      k := k + 1;
    }
  }

  /// Step 1 of `glob_exec`: one pass over the walker, collecting all
  /// matching files and those the filter lets through.
  method Collect(entries: seq<P.Path>, base: P.Path, isMatch: P.Path -> bool, filters: seq<P.Path -> bool>)
    returns (all: seq<P.Path>, filtered: seq<P.Path>)
    ensures all == Matching(entries, base, isMatch)
    ensures filtered == Passing(entries, base, isMatch, filters)
  {
    all := [];
    filtered := [];
    var i := 0;
    while i < |entries|
      invariant i <= |entries|
      invariant all == Matching(entries[..i], base, isMatch)
      invariant filtered == Passing(entries[..i], base, isMatch, filters)
    {
      MatchingSnoc(entries, i, base, isMatch, filters);
      var stripped := Stripped(entries[i], base);
      if isMatch(stripped) {
        all := all + [entries[i]];
        var pass := AnyFilter(stripped, filters);
        if pass {
          filtered := filtered + [entries[i]];
        }
      }
      i := i + 1;
    }
    assert entries[..|entries|] == entries;
  }

  /// The filtered files, sorted, all start with the prefix taken over all
  /// sorted matches, and each is longer than it: the suffix never fails.
  lemma FilteredFilesExtendPrefix(entries: seq<P.Path>, base: P.Path, isMatch: P.Path -> bool, filters: seq<P.Path -> bool>)
    ensures var all := SortPaths(Matching(entries, base, isMatch));
      var files := SortPaths(Passing(entries, base, isMatch, filters));
      (FindCommonPrefix(all).Some? ==>
        forall x :: x in files ==> FindCommonPrefix(all).value <= x && |FindCommonPrefix(all).value| < |x|)
      && (FindCommonPrefixAsWritten(all).Some? ==>
        forall x :: x in files ==> FindCommonPrefixAsWritten(all).value <= x)
  {
    var matching := Matching(entries, base, isMatch);
    var passing := Passing(entries, base, isMatch, filters);
    SortPathsSorted(matching);
    SortPathsSorted(passing);
    CorrectedPrefixIsProper(SortPaths(matching));
    CommonPrefixOfSorted(SortPaths(matching));
    forall x | x in SortPaths(passing) ensures x in SortPaths(matching) {
      assert x in multiset(SortPaths(passing));
      assert x in passing;
      assert x in multiset(SortPaths(matching));
    }
  }

  // ---------------------------------------------------------------------
  // Running the files

  /// The collector `glob_exec` pushes for the duration of its runs.
  datatype Collector = Collector(failFast: bool, failed: nat, showInstaHint: bool)

  /// One call of the test body: the file and the snapshot suffix it is
  /// bound to.
  datatype Run = Run(input: P.Path, suffix: string)

  /// `glob_exec`'s panics.
  datatype GlobError =
    | ParentTraversal      // the pattern climbs out of the base
    | SuffixUnavailable    // a file without a suffix (a failing unwrap)
    | FailedFast           // an assertion failed under fail-fast
    | NoMatches            // nothing matched and empty globs are not allowed
    | AssertionsFailed(count: nat)

  /// `finalize_assertion` for a failing assertion inside a glob: one more
  /// failure, and the review hint when the assertion wrote a new file.
  function Counted(c: Collector, hint: bool): (r: Collector)
    ensures r.failed == c.failed + 1 && r.failFast == c.failFast
  {
    c.(failed := c.failed + 1, showInstaHint := c.showInstaHint || hint)
  }

  /// The collector after the body ran its assertions, given the hint flag
  /// of each failing one: under fail-fast the first failure panics.
  function Absorb(c: Collector, hints: seq<bool>): (r: Collector)
    ensures r.failFast == c.failFast
    ensures c.failFast && hints != [] ==> r.failed == c.failed + 1 && (r.showInstaHint <==> c.showInstaHint || hints[0])
    ensures !c.failFast ==> r.failed == c.failed + |hints| && (r.showInstaHint <==> c.showInstaHint || true in hints)
  {
    if c.failFast && hints != [] then Counted(c, hints[0])
    else c.(failed := c.failed + |hints|, showInstaHint := c.showInstaHint || true in hints)
  }

  /// The runs so far, the collector on top of the stack, and the panic
  /// that ended the loop, if any.
  datatype Progress = Progress(runs: seq<Run>, top: Collector, stop: Option<GlobError>)

  /// One file of the loop.
  function Step(p: Progress, file: P.Path, prefix: Option<P.Path>, body: Run -> seq<bool>): Progress
  {
    if p.stop.Some? then p
    else
      match SuffixOf(file, prefix)
      case None => p.(stop := Some(SuffixUnavailable))
      case Some(s) =>
        var run := Run(file, s);
        var hints := body(run);
        Progress(p.runs + [run], Absorb(p.top, hints),
                 if p.top.failFast && hints != [] then Some(FailedFast) else None)
  }

  /// The loop over the sorted, filtered files.
  function Progressed(files: seq<P.Path>, prefix: Option<P.Path>, body: Run -> seq<bool>, start: Collector): Progress
  {
    if files == [] then Progress([], start, None)
    else Step(Progressed(files[..|files| - 1], prefix, body, start), files[|files| - 1], prefix, body)
  }

  /// All failing assertions of the runs, in order.
  function AllHints(runs: seq<Run>, body: Run -> seq<bool>): seq<bool>
  {
    if runs == [] then [] else AllHints(runs[..|runs| - 1], body) + body(runs[|runs| - 1])
  }

  /// The runs are the files in order, each with its suffix; only a panic
  /// ends the loop early.
  lemma {:induction false} RunsFollowFiles(files: seq<P.Path>, prefix: Option<P.Path>, body: Run -> seq<bool>, start: Collector)
    ensures var p := Progressed(files, prefix, body, start);
      |p.runs| <= |files|
      && (forall k :: 0 <= k < |p.runs| ==> p.runs[k].input == files[k] && SuffixOf(files[k], prefix) == Some(p.runs[k].suffix))
      && (p.stop.None? ==> |p.runs| == |files|)
      && p.top.failFast == start.failFast
  {
    if files != [] {
      RunsFollowFiles(files[..|files| - 1], prefix, body, start);
    }
  }

  /// Without fail-fast every failing assertion of every run is counted, and
  /// the hint shows when any of them asks for it.
  lemma {:induction false} CountsEveryFailure(files: seq<P.Path>, prefix: Option<P.Path>, body: Run -> seq<bool>, start: Collector)
    requires !start.failFast
    ensures var p := Progressed(files, prefix, body, start);
      p.top.failed == start.failed + |AllHints(p.runs, body)|
      && (p.top.showInstaHint <==> start.showInstaHint || true in AllHints(p.runs, body))
      && p.stop != Some(FailedFast)
  {
    if files != [] {
      var n := |files| - 1;
      CountsEveryFailure(files[..n], prefix, body, start);
      var q := Progressed(files[..n], prefix, body, start);
      RunsFollowFiles(files[..n], prefix, body, start);
      if q.stop.None? && SuffixOf(files[n], prefix).Some? {
        var run := Run(files[n], SuffixOf(files[n], prefix).value);
        assert (q.runs + [run])[..|q.runs|] == q.runs;
      }
    }
  }

  /// Under fail-fast at most one failure is ever counted, and the loop
  /// stops at it.
  lemma {:induction false} FailFastStopsAtFirstFailure(files: seq<P.Path>, prefix: Option<P.Path>, body: Run -> seq<bool>, start: Collector)
    requires start.failFast && start.failed == 0
    ensures var p := Progressed(files, prefix, body, start);
      p.top.failed <= 1 && (p.top.failed == 1 <==> p.stop == Some(FailedFast))
  {
    if files != [] {
      FailFastStopsAtFirstFailure(files[..|files| - 1], prefix, body, start);
      RunsFollowFiles(files[..|files| - 1], prefix, body, start);
    }
  }

  lemma ProgressedSnoc(files: seq<P.Path>, i: nat, prefix: Option<P.Path>, body: Run -> seq<bool>, start: Collector)
    requires i < |files|
    ensures Progressed(files[..i + 1], prefix, body, start) == Step(Progressed(files[..i], prefix, body, start), files[i], prefix, body)
  {
    assert files[..i + 1][..i] == files[..i];
  }

  lemma {:induction false} StopStays(files: seq<P.Path>, i: nat, prefix: Option<P.Path>, body: Run -> seq<bool>, start: Collector)
    requires i <= |files|
    requires Progressed(files[..i], prefix, body, start).stop.Some?
    ensures Progressed(files, prefix, body, start) == Progressed(files[..i], prefix, body, start)
    decreases |files| - i
  {
    if i < |files| {
      ProgressedSnoc(files, i, prefix, body, start);
      StopStays(files, i + 1, prefix, body, start);
    } else {
      assert files[..i] == files;
    }
  }

  /// The verdict after the collector is popped.
  function Verdict(noMatches: bool, allowEmptyGlob: bool, top: Collector): (r: Result<(), GlobError>)
    ensures r.Ok? <==> (!noMatches || allowEmptyGlob) && top.failed == 0
    ensures r.Err? && top.failed > 0 && (!noMatches || allowEmptyGlob) ==> r == Err(AssertionsFailed(top.failed))
  {
    if noMatches && !allowEmptyGlob then Err(NoMatches)
    else if top.failed > 0 then Err(AssertionsFailed(top.failed))
    else Ok(())
  }

  /// The panic message for failed assertions.
  function FailureMessage(count: nat): (r: string)
    ensures EndsWith(r, "failures") <==> count != 1
  {
    var r := "glob! resulted in " + NatToString(count) + " snapshot assertion failure" + (if count == 1 then "" else "s");
    assert EndsWith(r, "failures") ==> r[|r| - 1] == 's';
    r
  }

  /// The hints printed before that panic: the review hint when an
  /// assertion wrote a new snapshot, and the fail-fast hint after more than
  /// one failure.
  function Hints(top: Collector): (r: seq<string>)
    ensures top.failed == 0 ==> r == []
    ensures top.failed > 0 ==> (ReviewHint in r <==> top.showInstaHint)
    ensures FailFastHint in r <==> top.failed > 1
  {
    if top.failed == 0 then []
    else
      (if top.showInstaHint then [ReviewHint] else [])
      + (if top.failed > 1 then [FailFastHint] else [])
  }

  const ReviewHint: string := "To update snapshots run `cargo insta review`"
  const FailFastHint: string := "To enable fast failing for glob! export INSTA_GLOB_FAIL_FAST=1 as environment variable."

  /// The prefix the loop strips: `find_common_prefix` as written, or the
  /// corrected one that keeps a directory.
  function CommonPrefix(corrected: bool, sorted: seq<P.Path>): Option<P.Path>
  {
    if corrected then FindCommonPrefix(sorted) else FindCommonPrefixAsWritten(sorted)
  }

  /// What one `glob_exec` does once the pattern was accepted and the base
  /// exists: the loop over the sorted filtered files with the prefix of all
  /// sorted matches, taken as written or corrected.
  function Planned(corrected: bool, failFast: bool, base: P.Path, entries: seq<P.Path>, isMatch: P.Path -> bool,
                   filters: seq<P.Path -> bool>, body: Run -> seq<bool>): Progress
  {
    var all := SortPaths(Matching(entries, base, isMatch));
    var files := SortPaths(Passing(entries, base, isMatch, filters));
    Progressed(files, CommonPrefix(corrected, all), body, Collector(failFast, 0, false))
  }

  /// Every filtered file runs, in sorted order, unless a panic stops the
  /// loop; no suffix is ever missing when the matches share a leading
  /// component, and without fail-fast the count reported is the number of
  /// failing assertions.  This holds for either prefix rule.
  lemma {:induction false} PlannedRuns(corrected: bool, failFast: bool, base: P.Path, entries: seq<P.Path>, isMatch: P.Path -> bool,
                                       filters: seq<P.Path -> bool>, body: Run -> seq<bool>)
    requires CommonPrefix(corrected, SortPaths(Matching(entries, base, isMatch))).Some?
    requires !failFast
    ensures var p := Planned(corrected, failFast, base, entries, isMatch, filters, body);
      var files := SortPaths(Passing(entries, base, isMatch, filters));
      p.stop.None? && |p.runs| == |files|
      && (forall k :: 0 <= k < |files| ==> p.runs[k].input == files[k])
      && p.top.failed == |AllHints(p.runs, body)|
  {
    var all := SortPaths(Matching(entries, base, isMatch));
    var files := SortPaths(Passing(entries, base, isMatch, filters));
    var prefix := CommonPrefix(corrected, all);
    var start := Collector(failFast, 0, false);
    PrefixOfFiles(corrected, entries, base, isMatch, filters);
    NeverUnavailable(files, prefix, body, start);
    RunsFollowFiles(files, prefix, body, start);
    CountsEveryFailure(files, prefix, body, start);
  }

  /// Every filtered file starts with the prefix, under either rule.
  lemma PrefixOfFiles(corrected: bool, entries: seq<P.Path>, base: P.Path, isMatch: P.Path -> bool, filters: seq<P.Path -> bool>)
    ensures var prefix := CommonPrefix(corrected, SortPaths(Matching(entries, base, isMatch)));
      prefix.Some? ==> forall x :: x in SortPaths(Passing(entries, base, isMatch, filters)) ==> prefix.value <= x
  {
    FilteredFilesExtendPrefix(entries, base, isMatch, filters);
  }

  /// With the corrected prefix, the runs of two different well-formed files
  /// get two different suffixes, and none is empty.
  lemma {:induction false} PlannedSuffixesDistinct(failFast: bool, base: P.Path, entries: seq<P.Path>, isMatch: P.Path -> bool,
                                                   filters: seq<P.Path -> bool>, body: Run -> seq<bool>)
    requires FindCommonPrefix(SortPaths(Matching(entries, base, isMatch))).Some?
    requires forall x :: x in SortPaths(Passing(entries, base, isMatch, filters)) ==> WellFormed(x)
    ensures var p := Planned(true, failFast, base, entries, isMatch, filters, body);
      (forall k :: 0 <= k < |p.runs| ==> p.runs[k].suffix != "")
      && (forall k, l :: 0 <= k < |p.runs| && 0 <= l < |p.runs| && p.runs[k].input != p.runs[l].input ==>
            p.runs[k].suffix != p.runs[l].suffix)
  {
    var all := SortPaths(Matching(entries, base, isMatch));
    var files := SortPaths(Passing(entries, base, isMatch, filters));
    var prefix := FindCommonPrefix(all);
    var q := prefix.value;
    var p := Planned(true, failFast, base, entries, isMatch, filters, body);
    FilteredFilesExtendPrefix(entries, base, isMatch, filters);
    RunsFollowFiles(files, prefix, body, Collector(failFast, 0, false));
    forall k | 0 <= k < |p.runs| ensures p.runs[k].suffix != "" {
      assert files[k] in files;
      SuffixNonEmpty(files[k], q);
    }
    forall k, l | 0 <= k < |p.runs| && 0 <= l < |p.runs| && p.runs[k].input != p.runs[l].input
      ensures p.runs[k].suffix != p.runs[l].suffix
    {
      assert files[k] in files && files[l] in files;
      SuffixesDistinct(files[k], files[l], q);
    }
  }

  /// As written, a glob whose only match passes the filters runs its body
  /// once, with the empty suffix.
  lemma PlannedSingleMatch(failFast: bool, base: P.Path, entries: seq<P.Path>, isMatch: P.Path -> bool,
                           filters: seq<P.Path -> bool>, body: Run -> seq<bool>, x: P.Path)
    requires SortPaths(Matching(entries, base, isMatch)) == [x] && x != []
    requires SortPaths(Passing(entries, base, isMatch, filters)) == [x]
    ensures Planned(false, failFast, base, entries, isMatch, filters, body).runs == [Run(x, "")]
  {
    WholePathPrefix(x);
    SingleRun(x, body, Collector(failFast, 0, false));
  }

  /// The common prefix as written of one path is the whole path.
  lemma WholePathPrefix(x: P.Path)
    requires x != []
    ensures FindCommonPrefixAsWritten([x]) == Some(x)
  {
    assert x[..|x|] == x;
  }

  /// One file whose whole path is stripped runs once, with the empty suffix.
  lemma SingleRun(x: P.Path, body: Run -> seq<bool>, start: Collector)
    ensures Progressed([x], Some(x), body, start).runs == [Run(x, "")]
  {
    assert x[|x|..] == [];
    assert SuffixOf(x, Some(x)) == Some("");
    assert [x][..0] == [];
    assert Progressed([x][..0], Some(x), body, start) == Progress([], start, None);
  }

  /// When every file extends the prefix and fail-fast is off, the loop runs
  /// to the end.
  lemma {:induction false} NeverUnavailable(files: seq<P.Path>, prefix: Option<P.Path>, body: Run -> seq<bool>, start: Collector)
    requires prefix.Some? && forall x :: x in files ==> prefix.value <= x
    requires !start.failFast
    ensures Progressed(files, prefix, body, start).stop.None?
  {
    if files != [] {
      var n := |files| - 1;
      assert forall x :: x in files[..n] ==> x in files;
      NeverUnavailable(files[..n], prefix, body, start);
      RunsFollowFiles(files[..n], prefix, body, start);
      assert files[n] in files;
    }
  }

  // ---------------------------------------------------------------------
  // The glob stack

  /// `GLOB_STACK`: the collectors of the globs in progress, innermost last.
  class GlobStack {
    var collectors: seq<Collector>

    constructor()
      ensures collectors == []
    {
      collectors := [];
    }

    /// `finalize_assertion`'s fail-fast flag: the innermost glob's, or true
    /// outside any glob.
    function FailFast(): (r: bool)
      reads this
      ensures collectors == [] ==> r
      ensures collectors != [] ==> r == collectors[|collectors| - 1].failFast
    {
      collectors == [] || collectors[|collectors| - 1].failFast
    }

    /// A failing assertion: inside a glob the innermost collector counts it
    /// and the assertion panics only under fail-fast; outside any glob it
    /// panics.
    method RecordFailure(hint: bool) returns (panics: bool)
      modifies this
      ensures old(collectors) == [] ==> panics && collectors == old(collectors)
      ensures old(collectors) != [] ==>
        var n := |old(collectors)| - 1;
        panics == old(collectors)[n].failFast
        && collectors == old(collectors)[..n] + [Counted(old(collectors)[n], hint)]
    {
      if collectors == [] {
        panics := true;
      } else {
        var n := |collectors| - 1;
        panics := collectors[n].failFast;
        collectors := collectors[..n] + [Counted(collectors[n], hint)];
      }
    }

    /// The test body's failing assertions, one `RecordFailure` each, until
    /// one panics.
    method RunBody(hints: seq<bool>) returns (stopped: bool)
      requires collectors != []
      modifies this
      ensures var n := |old(collectors)| - 1;
        collectors == old(collectors)[..n] + [Absorb(old(collectors)[n], hints)]
        && stopped == (old(collectors)[n].failFast && hints != [])
    {
      var n := |collectors| - 1;
      ghost var c := collectors[n];
      ghost var below := collectors[..n];
      stopped := false;
      var i := 0;
      while i < |hints| && !stopped
        invariant i <= |hints| && |collectors| == n + 1 && collectors[..n] == below
        invariant !stopped ==> collectors[n] == c.(failed := c.failed + i, showInstaHint := c.showInstaHint || true in hints[..i])
        invariant !stopped ==> !c.failFast || i == 0
        invariant stopped ==> c.failFast && hints != [] && collectors[n] == Counted(c, hints[0])
      {
        assert hints[..i + 1] == hints[..i] + [hints[i]];
        stopped := RecordFailure(hints[i]);
        i := i + 1;
      }
      if !stopped {
        assert hints[..i] == hints;
      }
      assert collectors == below + [collectors[n]];
    }

    /// The loop over the files: bind the input file and suffix, run the
    /// body, account for its failures.
    method RunFiles(files: seq<P.Path>, prefix: Option<P.Path>, body: Run -> seq<bool>)
      returns (runs: seq<Run>, stop: Option<GlobError>)
      requires collectors != []
      modifies this
      ensures var n := |old(collectors)| - 1;
        var p := Progressed(files, prefix, body, old(collectors)[n]);
        runs == p.runs && stop == p.stop && collectors == old(collectors)[..n] + [p.top]
    {
      var n := |collectors| - 1;
      ghost var start := collectors[n];
      ghost var below := collectors[..n];
      runs := [];
      stop := None;
      var i := 0;
      while i < |files| && stop.None?
        invariant i <= |files| && |collectors| == n + 1
        invariant var p := Progressed(files[..i], prefix, body, start);
          runs == p.runs && stop == p.stop && collectors == below + [p.top]
      {
        ProgressedSnoc(files, i, prefix, body, start);
        var suffix := SuffixOf(files[i], prefix);
        if suffix.None? {
          stop := Some(SuffixUnavailable);
        } else {
          var run := Run(files[i], suffix.value);
          runs := runs + [run];
          var stopped := RunBody(body(run));
          if stopped {
            stop := Some(FailedFast);
          }
        }
        i := i + 1;
      }
      if stop.Some? {
        StopStays(files, i, prefix, body, start);
      } else {
        assert files[..i] == files;
      }
    }

    /// `glob_exec`: the traversal check, the empty-base shortcut, the
    /// collector pushed for the runs, and the verdict once it is popped.
    /// A panic inside the loop leaves the collector on the stack.
    method GlobExec(failFast: bool, allowEmptyGlob: bool, baseExists: bool, base: P.Path, pattern: string,
                    entries: seq<P.Path>, isMatch: P.Path -> bool, filters: seq<P.Path -> bool>,
                    body: Run -> seq<bool>)
      returns (runs: seq<Run>, r: Result<(), GlobError>)
      modifies this
      ensures TraversalPattern(pattern) ==> runs == [] && r == Err(ParentTraversal) && collectors == old(collectors)
      ensures !TraversalPattern(pattern) && allowEmptyGlob && !baseExists ==>
        runs == [] && r == Ok(()) && collectors == old(collectors)
      ensures !TraversalPattern(pattern) && !(allowEmptyGlob && !baseExists) ==>
        var p := Planned(false, failFast, base, entries, isMatch, filters, body);
        runs == p.runs
        && (p.stop.Some? ==> r == Err(p.stop.value) && collectors == old(collectors) + [p.top])
        && (p.stop.None? ==>
              (collectors == old(collectors)
               && r == Verdict(Matching(entries, base, isMatch) == [], allowEmptyGlob, p.top)))
    {
      if TraversalPattern(pattern) {
        runs := [];
        r := Err(ParentTraversal);
        return;
      }
      if allowEmptyGlob && !baseExists {
        runs := [];
        r := Ok(());
        return;
      }
      ghost var before := collectors;
      collectors := collectors + [Collector(failFast, 0, false)];
      var all, filtered := Collect(entries, base, isMatch, filters);
      var sortedAll := SortPaths(all);
      var files := SortPaths(filtered);
      var prefix := FindCommonPrefixAsWritten(sortedAll);
      var stop;
      runs, stop := RunFiles(files, prefix, body);
      assert collectors[..|collectors| - 1] == before;
      if stop.Some? {
        r := Err(stop.value);
        return;
      }
      var top := collectors[|collectors| - 1];
      collectors := collectors[..|collectors| - 1];
      r := Verdict(all == [], allowEmptyGlob, top);
    }
  }
}
