// Redaction selectors of the current generation (insta/src/redaction.rs):
// a selector is a list of alternatives, each a list of segments; a value
// tree is rewritten by replacing every node whose path some alternative
// matches.  The pest grammar is not modelled: `parse` starts from the rule
// sequence the grammar produced and keeps the checks the code adds on top
// (a deep wildcard at most once per alternative, backslash unescaping,
// number conversion).
module Redaction {
  import opened Wrappers
  import opened Strs
  import C = Contents

  // ---------------------------------------------------------------------
  // Paths

  /// One step of the path from the root to a node.  `Index(idx, len)` is
  /// the position of a sequence item and the length of its sequence.
  datatype PathItem = Content(content: C.Content) | Field(name: string) | Index(idx: nat, len: nat)

  function ItemAsStr(item: PathItem): (r: Option<string>)
    ensures item.Index? ==> r.None?
    ensures item.Field? ==> r == Some(item.name)
  {
    match item
    case Content(c) => C.AsStr(c)
    case Field(s) => Some(s)
    case Index(_, _) => None
  }

  function ItemAsU64(item: PathItem): (r: Option<int>)
    ensures item.Field? ==> r.None?
    ensures item.Index? ==> r == Some(item.idx)
  {
    match item
    case Content(c) => (match C.AsU64(c) case Some(v) => Some(v as int) case None => None)
    case Field(_) => None
    case Index(idx, _) => Some(idx)
  }

  /// The text `ContentPath` displays for one item, after its ".".
  function ItemText(item: PathItem): string
  {
    match item
    case Content(c) => (match C.AsStr(c) case Some(s) => s case None => "<content>")
    case Field(name) => name
    case Index(idx, _) => NatToString(idx)
  }

  /// `impl Display for ContentPath`: "." before every item.
  function Display(path: seq<PathItem>): string
  {
    if path == [] then "" else Display(path[..|path| - 1]) + "." + ItemText(path[|path| - 1])
  }

  /// Pushing an item onto the path appends "." and the item's text to the
  /// display, and the display of a non-empty path starts with ".".
  lemma {:induction false} DisplayPush(path: seq<PathItem>, item: PathItem)
    ensures Display(path + [item]) == Display(path) + "." + ItemText(item)
    ensures Display(path + [item])[0] == '.'
    ensures |Display(path + [item])| >= |path| + 1
    decreases |path|
  {
    assert (path + [item])[..|path|] == path;
    if path != [] {
      DisplayPush(path[..|path| - 1], path[|path| - 1]);
      assert path[..|path| - 1] + [path[|path| - 1]] == path;
    }
  }

  // ---------------------------------------------------------------------
  // Segments

  datatype Segment =
    | DeepWildcard
    | Wildcard
    | Key(key: string)
    | Index(index: C.u64)
    | Range(start: Option<C.i64>, end: Option<C.i64>)

  /// `expand_range`: a negative bound counts from the end, never below 0.
  function ExpandRange(sel: int, len: int): int
  {
    if sel < 0 then (if len + sel > 0 then len + sel else 0) else sel
  }

  /// `PathItem::range_check`: only sequence items are in a range; the start
  /// is inclusive, the end exclusive, and a missing bound does not limit.
  function RangeCheck(item: PathItem, start: Option<C.i64>, end: Option<C.i64>): (r: bool)
    ensures !item.Index? ==> !r
    ensures item.Index? && start.None? && end.None? ==> r
  {
    if !item.Index? then false
    else
      var idx, len := item.idx, item.len;
      match (start, end)
      case (None, None) => true
      case (None, Some(e)) => idx < ExpandRange(e, len)
      case (Some(s), None) => idx >= ExpandRange(s, len)
      case (Some(s), Some(e)) => idx >= ExpandRange(s, len) && idx < ExpandRange(e, len)
  }

  /// A slice bound in Python's sense, clamped to `[0, len]`.
  function SliceBound(b: int, len: nat): nat
  {
    if b < 0 then (if len + b > 0 then len + b else 0) else if b <= len then b else len
  }

  /// Whether position `k` is among those `seq[start..end]` takes from a
  /// sequence of length `len`, Python-style.
  predicate InSlice(k: nat, start: Option<C.i64>, end: Option<C.i64>, len: nat)
  {
    var lo := if start.Some? then SliceBound(start.value, len) else 0;
    var hi := if end.Some? then SliceBound(end.value, len) else len;
    lo <= k < hi
  }

  /// A range selects exactly the items of the Python-style slice with the
  /// same bounds.
  lemma {:induction false} RangeCheckIsSlice(idx: nat, len: nat, start: Option<C.i64>, end: Option<C.i64>)
    requires idx < len
    ensures RangeCheck(PathItem.Index(idx, len), start, end) <==> InSlice(idx, start, end, len)
  {
  }

  /// `segment_is_match`.
  predicate SegmentIsMatch(segment: Segment, item: PathItem)
  {
    match segment
    case Wildcard => true
    case DeepWildcard => true
    case Key(k) => ItemAsStr(item) == Some(k)
    case Index(i) => ItemAsU64(item) == Some(i as int)
    case Range(s, e) => RangeCheck(item, s, e)
  }

  /// The position of the first `**` of an alternative.
  function FirstDeep(segments: seq<Segment>): (r: Option<nat>)
    ensures r.None? <==> DeepWildcard !in segments
    ensures r.Some? ==> (r.value < |segments| && segments[r.value] == DeepWildcard
      && DeepWildcard !in segments[..r.value])
  {
    if segments == [] then None
    else if segments[0] == DeepWildcard then Some(0)
    else
      var t := FirstDeep(segments[1..]);
      assert segments == [segments[0]] + segments[1..];
      if t.Some? then
        assert segments[..t.value + 1] == [segments[0]] + segments[1..][..t.value];
        Some(t.value + 1)
      else None
  }

  /// The zip of the segments with the items from the front: the shorter
  /// list decides how many pairs are compared.
  predicate ForwardMatch(segments: seq<Segment>, items: seq<PathItem>)
  {
    forall k :: 0 <= k < |segments| && k < |items| ==> SegmentIsMatch(segments[k], items[k])
  }

  /// The zip of both lists reversed: the last segment against the last
  /// item, as far as the shorter list goes.
  predicate BackwardMatch(segments: seq<Segment>, items: seq<PathItem>)
  {
    forall j :: 0 <= j < |segments| && |segments| - |items| <= j ==>
      SegmentIsMatch(segments[j], items[j + |items| - |segments|])
  }

  /// Segments and items of equal number, matching pairwise.
  predicate SegmentsMatch(segments: seq<Segment>, items: seq<PathItem>)
  {
    |segments| == |items| && forall k :: 0 <= k < |segments| ==> SegmentIsMatch(segments[k], items[k])
  }

  /// `selector_is_match` as written: with a `**` at position `i` the path
  /// must have more than `i` items, the segments before `i` are zipped with
  /// the path from the front and those after it from the back.  When the
  /// path is shorter than the segments around the `**`, the zip from the
  /// back stops early and the leftover segments are never compared.
  predicate SelectorIsMatchAsWritten(segments: seq<Segment>, path: seq<PathItem>)
  {
    match FirstDeep(segments)
    case Some(i) => |path| > i && ForwardMatch(segments[..i], path) && BackwardMatch(segments[i + 1..], path)
    case None => |segments| == |path| && ForwardMatch(segments, path)
  }

  /// `.**.b.c` matches the one-item path `.c` as written, which has no `b`
  /// before its `c`; the corrected rule does not match it.
  lemma ShortPathMatchesAsWritten()
    ensures SelectorIsMatchAsWritten([DeepWildcard, Key("b"), Key("c")], [Field("c")])
    ensures !SelectorIsMatch([DeepWildcard, Key("b"), Key("c")], [Field("c")])
  {
    var sel := [DeepWildcard, Key("b"), Key("c")];
    assert FirstDeep(sel) == Some(0);
    assert sel[1..] == [Key("b"), Key("c")];
  }

  /// `selector_is_match` with every segment after the `**` required to be
  /// compared: the path must also be long enough to hold them.  The rest of
  /// the model uses this rule.
  predicate SelectorIsMatch(segments: seq<Segment>, path: seq<PathItem>)
  {
    match FirstDeep(segments)
    case Some(i) =>
      |path| > i && |path| >= |segments| - 1
      && ForwardMatch(segments[..i], path) && BackwardMatch(segments[i + 1..], path)
    case None => |segments| == |path| && ForwardMatch(segments, path)
  }

  /// Without `**` an alternative matches exactly the paths of its own
  /// length that it matches item by item.
  lemma {:induction false} SelectorWithoutDeep(segments: seq<Segment>, path: seq<PathItem>)
    requires DeepWildcard !in segments
    ensures SelectorIsMatch(segments, path) <==> SegmentsMatch(segments, path)
    ensures SelectorIsMatchAsWritten(segments, path) <==> SegmentsMatch(segments, path)
  {
  }

  /// With its `**` at `i`, an alternative matches a path exactly when the
  /// path splits into a prefix matched by the segments before `i`, a middle,
  /// and a suffix matched by the segments after `i`, where the middle and
  /// suffix together are not empty.
  lemma {:induction false} SelectorWithDeep(segments: seq<Segment>, path: seq<PathItem>, i: nat)
    requires FirstDeep(segments) == Some(i)
    ensures SelectorIsMatch(segments, path) <==>
      (|path| > i && |path| >= |segments| - 1
       && SegmentsMatch(segments[..i], path[..i])
       && SegmentsMatch(segments[i + 1..], path[|path| - (|segments| - 1 - i)..]))
  {
    var fwd, bwd := segments[..i], segments[i + 1..];
    if |path| > i && |path| >= |segments| - 1 {
      var tail := path[|path| - |bwd|..];
      assert ForwardMatch(fwd, path) <==> SegmentsMatch(fwd, path[..i]) by {
        assert forall k :: 0 <= k < i ==> path[..i][k] == path[k];
      }
      assert BackwardMatch(bwd, path) <==> SegmentsMatch(bwd, tail) by {
        assert forall j :: 0 <= j < |bwd| ==> tail[j] == path[j + |path| - |bwd|];
      }
    }
  }

  /// `is_match`: some alternative matches the path.
  predicate IsMatchOf(alternatives: seq<seq<Segment>>, path: seq<PathItem>)
  {
    if alternatives == [] then false
    else SelectorIsMatch(alternatives[0], path) || IsMatchOf(alternatives[1..], path)
  }

  /// A parsed selector: its alternatives.
  datatype Selector = Selector(selectors: seq<seq<Segment>>)

  /// `Selector::is_match`.
  function IsMatch(selector: Selector, path: seq<PathItem>): (r: bool)
    ensures r <==> exists k :: 0 <= k < |selector.selectors| && SelectorIsMatch(selector.selectors[k], path)
  {
    IsMatchSome(selector.selectors, path);
    IsMatchOf(selector.selectors, path)
  }

  lemma {:induction false} IsMatchSome(alternatives: seq<seq<Segment>>, path: seq<PathItem>)
    ensures IsMatchOf(alternatives, path) <==> exists k :: 0 <= k < |alternatives| && SelectorIsMatch(alternatives[k], path)
  {
    if alternatives != [] {
      IsMatchSome(alternatives[1..], path);
      if IsMatchOf(alternatives[1..], path) {
        var k :| 0 <= k < |alternatives[1..]| && SelectorIsMatch(alternatives[1..][k], path);
        assert SelectorIsMatch(alternatives[k + 1], path);
      }
      if exists k :: 0 <= k < |alternatives| && SelectorIsMatch(alternatives[k], path) {
        var k :| 0 <= k < |alternatives| && SelectorIsMatch(alternatives[k], path);
        if k > 0 {
          assert SelectorIsMatch(alternatives[1..][k - 1], path);
        }
      }
    }
  }

  // ---------------------------------------------------------------------
  // `Selector::parse` after the grammar

  /// The rules the grammar yields for one segment.  A key comes without its
  /// leading ".", a string subscript without its quotes; numbers are the
  /// values of their digit strings.
  datatype Rule =
    | Identity
    | WildcardRule
    | DeepWildcardRule
    | KeyRule(ident: string)
    | IntSubscript(digits: int)
    | StringSubscript(quoted: string)
    | FullRange
    | RangeRule(from: int, to: int)
    | RangeTo(bound: int)
    | RangeFrom(bound: int)

  /// Why `parse` fails after the grammar: `**` twice, or a number
  /// `parse().unwrap()` rejects.
  datatype ParseError = DeepWildcardTwice | NumberOutOfRange

  predicate FitsI64(n: int)
  {
    -C.TWO_63 <= n < C.TWO_63
  }

  /// The subscript text with every backslash that is not itself escaped
  /// dropped, and the character after it kept.
  function Unescaped(s: string): string
  {
    if s == [] then []
    else if s[0] == '\\' then (if |s| == 1 then [] else [s[1]] + Unescaped(s[2..]))
    else [s[0]] + Unescaped(s[1..])
  }

  /// Text with backslashes and quotes escaped for a quoted subscript.
  function Escaped(s: string): string
  {
    if s == [] then []
    else (if s[0] == '\\' || s[0] == '"' then ['\\', s[0]] else [s[0]]) + Escaped(s[1..])
  }

  /// Unescaping undoes escaping.
  lemma {:induction false} UnescapeEscaped(s: string)
    ensures Unescaped(Escaped(s)) == s
  {
    if s != [] {
      UnescapeEscaped(s[1..]);
      var e := Escaped(s);
      if s[0] == '\\' || s[0] == '"' {
        assert e[2..] == Escaped(s[1..]);
      } else {
        assert e[1..] == Escaped(s[1..]);
      }
    }
  }

  /// Text without a backslash is its own unescaping.
  lemma {:induction false} UnescapedNoBackslash(s: string)
    requires '\\' !in s
    ensures Unescaped(s) == s
  {
    if s != [] {
      assert '\\' !in s[1..];
      UnescapedNoBackslash(s[1..]);
    }
  }

  /// The backslash the loop has read but not yet emitted.
  function Pending(wasBackslash: bool): string
  {
    if wasBackslash then "\\" else ""
  }

  /// What the unescaping loop emits from position `i` on, with
  /// `wasBackslash` its state there.
  function UnescapedFrom(s: string, i: nat, wasBackslash: bool): string
    requires i <= |s|
    decreases |s| - i
  {
    if i == |s| then []
    else if s[i] == '\\' && !wasBackslash then UnescapedFrom(s, i + 1, true)
    else [s[i]] + UnescapedFrom(s, i + 1, false)
  }

  /// The loop's output from position `i` is the unescaping of the rest of
  /// the text, after the backslash still pending.
  lemma {:induction false} UnescapedFromRest(s: string, i: nat, wasBackslash: bool)
    requires i <= |s|
    ensures UnescapedFrom(s, i, wasBackslash) == Unescaped(Pending(wasBackslash) + s[i..])
    decreases |s| - i
  {
    var rest := Pending(wasBackslash) + s[i..];
    if i == |s| {
      assert rest == Pending(wasBackslash);
    } else {
      UnescapedFromRest(s, i + 1, true);
      UnescapedFromRest(s, i + 1, false);
      assert Pending(false) + s[i + 1..] == s[i + 1..];
      if wasBackslash {
        assert rest[0] == '\\' && rest[1] == s[i] && rest[2..] == s[i + 1..];
      } else if s[i] == '\\' {
        assert rest == Pending(true) + s[i + 1..];
      } else {
        assert rest[0] == s[i] && rest[1..] == s[i + 1..];
      }
    }
  }

  /// The `filter_map` over the subscript's characters with `was_backslash`;
  /// text without a backslash is kept as it is.
  method Unescape(s: string) returns (r: string)
    ensures r == Unescaped(s)
  {
    if '\\' !in s {
      UnescapedNoBackslash(s);
      return s;
    }
    r := [];
    var wasBackslash := false;
    var i := 0;
    while i < |s|
      invariant 0 <= i <= |s|
      invariant r + UnescapedFrom(s, i, wasBackslash) == UnescapedFrom(s, 0, false)
    {
      var c := s[i];
      if c == '\\' && !wasBackslash {
        wasBackslash := true;
      } else {
        r := r + [c];
        wasBackslash := false;
      }
      i := i + 1;
    }
    UnescapedFromRest(s, 0, false);
    assert Pending(false) + s[0..] == s;
  }

  /// One segment from its rule; `None` for the identity rule, which adds
  /// nothing.
  function SegmentOf(rule: Rule): (r: Result<Option<Segment>, ParseError>)
    ensures r.Ok? && r.value.Some? ==> r.value.value != DeepWildcard || rule.DeepWildcardRule?
    ensures r.Ok? ==> (r.value.None? <==> rule.Identity?)
  {
    match rule
    case Identity => Ok(None)
    case WildcardRule => Ok(Some(Wildcard))
    case DeepWildcardRule => Ok(Some(DeepWildcard))
    case KeyRule(ident) => Ok(Some(Key(ident)))
    case IntSubscript(n) => if 0 <= n < C.TWO_64 then Ok(Some(Segment.Index(n))) else Err(NumberOutOfRange)
    case StringSubscript(q) => Ok(Some(Key(Unescaped(q))))
    case FullRange => Ok(Some(Range(None, None)))
    case RangeRule(a, b) => if FitsI64(a) && FitsI64(b) then Ok(Some(Range(Some(a), Some(b)))) else Err(NumberOutOfRange)
    case RangeTo(b) => Ok(Some(Range(None, if FitsI64(b) then Some(b) else None)))
    case RangeFrom(a) => Ok(Some(Range(if FitsI64(a) then Some(a) else None, None)))
  }

  function CountDeep(segments: seq<Segment>): nat
  {
    if segments == [] then 0 else CountDeep(segments[..|segments| - 1]) + (if segments[|segments| - 1] == DeepWildcard then 1 else 0)
  }

  function CountDeepRules(rules: seq<Rule>): nat
  {
    if rules == [] then 0 else CountDeepRules(rules[..|rules| - 1]) + (if rules[|rules| - 1].DeepWildcardRule? then 1 else 0)
  }

  /// The segments of one alternative from its first `n` rules, failing at
  /// the first rule that fails or at the second `**`.
  function SegmentsOf(rules: seq<Rule>, n: nat): Result<seq<Segment>, ParseError>
    requires n <= |rules|
  {
    if n == 0 then Ok([])
    else match SegmentsOf(rules, n - 1)
      case Err(e) => Err(e)
      case Ok(segs) =>
        match SegmentOf(rules[n - 1])
        case Err(e) => Err(e)
        case Ok(None) => Ok(segs)
        case Ok(Some(seg)) =>
          if seg == DeepWildcard && DeepWildcard in segs then Err(DeepWildcardTwice) else Ok(segs + [seg])
  }

  /// A parsed alternative holds at most one `**`, one for each `**` rule,
  /// and a second `**` rule is an error unless an earlier rule failed.
  lemma {:induction false} SegmentsOfDeep(rules: seq<Rule>, n: nat)
    requires n <= |rules|
    ensures SegmentsOf(rules, n).Ok? ==> CountDeep(SegmentsOf(rules, n).value) == CountDeepRules(rules[..n]) <= 1
    ensures SegmentsOf(rules, n).Ok? ==> (DeepWildcard in SegmentsOf(rules, n).value <==> CountDeepRules(rules[..n]) == 1)
    ensures SegmentsOf(rules, n) == Err(DeepWildcardTwice) ==> CountDeepRules(rules[..n]) >= 2
  {
    if n > 0 {
      SegmentsOfDeep(rules, n - 1);
      assert rules[..n][..n - 1] == rules[..n - 1];
      match SegmentsOf(rules, n - 1)
      case Err(e) =>
        CountDeepRulesPrefix(rules, n - 1);
      case Ok(segs) =>
        match SegmentOf(rules[n - 1])
        case Err(e) =>
        case Ok(None) =>
        case Ok(Some(seg)) =>
          if !(seg == DeepWildcard && DeepWildcard in segs) {
            var out := segs + [seg];
            assert out[..|out| - 1] == segs;
            CountDeepIn(out);
          }
    }
  }

  lemma {:induction false} CountDeepRulesPrefix(rules: seq<Rule>, n: nat)
    requires n < |rules|
    ensures CountDeepRules(rules[..n + 1]) >= CountDeepRules(rules[..n])
  {
    assert rules[..n + 1][..n] == rules[..n];
  }

  lemma {:induction false} CountDeepIn(segments: seq<Segment>)
    ensures DeepWildcard in segments <==> CountDeep(segments) > 0
    decreases |segments|
  {
    if segments != [] {
      var init := segments[..|segments| - 1];
      CountDeepIn(init);
      assert segments == init + [segments[|segments| - 1]];
    }
  }

  /// `Selector::parse` after the grammar: the alternatives in order, each
  /// with its own `have_deep_wildcard`, stopping at the first error.
  method Parse(alternatives: seq<seq<Rule>>) returns (r: Result<Selector, ParseError>)
    ensures r.Ok? ==> (|r.value.selectors| == |alternatives|
      && forall k :: 0 <= k < |alternatives| ==> SegmentsOf(alternatives[k], |alternatives[k]|) == Ok(r.value.selectors[k]))
    ensures r.Err? ==> exists k :: 0 <= k < |alternatives| && SegmentsOf(alternatives[k], |alternatives[k]|) == Err(r.error)
  {
    var rv: seq<seq<Segment>> := [];
    var i := 0;
    while i < |alternatives|
      invariant 0 <= i <= |alternatives| && |rv| == i
      invariant forall k :: 0 <= k < i ==> SegmentsOf(alternatives[k], |alternatives[k]|) == Ok(rv[k])
    {
      var segments := ParseAlternative(alternatives[i]);
      if segments.Err? {
        return Err(segments.error);
      }
      rv := rv + [segments.value];
      i := i + 1;
    }
    r := Ok(Selector(rv));
  }

  /// The inner loop of `parse`: one alternative's segments.
  method ParseAlternative(rules: seq<Rule>) returns (r: Result<seq<Segment>, ParseError>)
    ensures r == SegmentsOf(rules, |rules|)
  {
    var segments: seq<Segment> := [];
    var haveDeepWildcard := false;
    var i := 0;
    while i < |rules|
      invariant 0 <= i <= |rules|
      invariant SegmentsOf(rules, i) == Ok(segments)
      invariant haveDeepWildcard <==> DeepWildcard in segments
    {
      var seg := SegmentOf(rules[i]);
      if seg.Err? {
        ErrStays(rules, i + 1, seg.error);
        return Err(seg.error);
      }
      if seg.value.Some? {
        if seg.value.value == DeepWildcard && haveDeepWildcard {
          ErrStays(rules, i + 1, DeepWildcardTwice);
          return Err(DeepWildcardTwice);
        }
        haveDeepWildcard := haveDeepWildcard || seg.value.value == DeepWildcard;
        segments := segments + [seg.value.value];
      }
      i := i + 1;
    }
    r := Ok(segments);
  }

  /// Once an alternative's rules fail, the later rules change nothing.
  lemma {:induction false} ErrStays(rules: seq<Rule>, n: nat, e: ParseError)
    requires n <= |rules| && SegmentsOf(rules, n) == Err(e)
    ensures SegmentsOf(rules, |rules|) == Err(e)
    decreases |rules| - n
  {
    if n < |rules| {
      ErrStays(rules, n + 1, e);
    }
  }

  // ---------------------------------------------------------------------
  // Redacting a value tree

  /// `Redaction`: a fixed replacement, or a callback given the old value
  /// and the path.
  datatype Redaction = Static(value: C.Content) | Dynamic(callback: (C.Content, seq<PathItem>) -> C.Content)

  /// `Redaction::redact`.
  function Apply(redaction: Redaction, value: C.Content, path: seq<PathItem>): C.Content
  {
    match redaction
    case Static(v) => v
    case Dynamic(f) => f(value, path)
  }

  /// `redact_impl` as a function of the path stack it starts with: a node
  /// whose path matches is replaced whole and not descended into; sequence
  /// items are visited under `Index(i, len)`, struct fields under their
  /// name, map keys under `Field("$key")` and map values under the original
  /// key; other nodes are returned as they are.
  function Redacted(selector: Selector, redaction: Redaction, path: seq<PathItem>, value: C.Content): C.Content
    decreases value, 1
  {
    if IsMatch(selector, path) then Apply(redaction, value, path)
    else match value
      case Map(es) => C.Map(RedactedEntries(selector, redaction, path, es, value))
      case Seq(es) => C.Seq(RedactedItems(selector, redaction, path, es, value))
      case Tuple(es) => C.Tuple(RedactedItems(selector, redaction, path, es, value))
      case TupleStruct(n, es) => C.TupleStruct(n, RedactedItems(selector, redaction, path, es, value))
      case TupleVariant(n, i, v, es) => C.TupleVariant(n, i, v, RedactedItems(selector, redaction, path, es, value))
      case Struct(n, fs) => C.Struct(n, RedactedFields(selector, redaction, path, fs, value))
      case StructVariant(n, i, v, fs) => C.StructVariant(n, i, v, RedactedFields(selector, redaction, path, fs, value))
      case NewtypeStruct(n, x) => C.NewtypeStruct(n, Redacted(selector, redaction, path, x))
      case NewtypeVariant(n, i, v, x) => C.NewtypeVariant(n, i, v, Redacted(selector, redaction, path, x))
      case Some(x) => C.Content.Some(Redacted(selector, redaction, path, x))
      case _ => value
  }

  /// `redact_seq`.
  function RedactedItems(selector: Selector, redaction: Redaction, path: seq<PathItem>, es: seq<C.Content>, parent: C.Content): (r: seq<C.Content>)
    requires forall k :: 0 <= k < |es| ==> es[k] < parent
    ensures |r| == |es|
    decreases parent, 0
  {
    seq(|es|, k requires 0 <= k < |es| => Redacted(selector, redaction, path + [PathItem.Index(k, |es|)], es[k]))
  }

  /// `redact_struct`.
  function RedactedFields(selector: Selector, redaction: Redaction, path: seq<PathItem>, fs: seq<(string, C.Content)>, parent: C.Content): (r: seq<(string, C.Content)>)
    requires forall k :: 0 <= k < |fs| ==> fs[k].1 < parent
    ensures |r| == |fs|
    decreases parent, 0
  {
    seq(|fs|, k requires 0 <= k < |fs| => (fs[k].0, Redacted(selector, redaction, path + [Field(fs[k].0)], fs[k].1)))
  }

  /// The map entries of `redact_impl`.
  function RedactedEntries(selector: Selector, redaction: Redaction, path: seq<PathItem>, es: seq<(C.Content, C.Content)>, parent: C.Content): (r: seq<(C.Content, C.Content)>)
    requires forall k :: 0 <= k < |es| ==> es[k].0 < parent && es[k].1 < parent
    ensures |r| == |es|
    decreases parent, 0
  {
    seq(|es|, k requires 0 <= k < |es| =>
      (Redacted(selector, redaction, path + [Field("$key")], es[k].0),
       Redacted(selector, redaction, path + [Content(es[k].0)], es[k].1)))
  }

  /// No path that extends `path`, `path` itself included, matches.
  ghost predicate NoMatchBelow(selector: Selector, path: seq<PathItem>)
  {
    forall q: seq<PathItem> :: !IsMatch(selector, path + q)
  }

  /// A value below which no path matches comes back unchanged.
  lemma {:induction false} RedactUnmatched(selector: Selector, redaction: Redaction, path: seq<PathItem>, value: C.Content)
    requires NoMatchBelow(selector, path)
    ensures Redacted(selector, redaction, path, value) == value
    decreases value
  {
    assert !IsMatch(selector, path) by { assert path + [] == path; }
    match value
    case Map(es) => EntriesUnmatched(selector, redaction, path, es, value);
    case Seq(es) => ItemsUnmatched(selector, redaction, path, es, value);
    case Tuple(es) => ItemsUnmatched(selector, redaction, path, es, value);
    case TupleStruct(_, es) => ItemsUnmatched(selector, redaction, path, es, value);
    case TupleVariant(_, _, _, es) => ItemsUnmatched(selector, redaction, path, es, value);
    case Struct(_, fs) => FieldsUnmatched(selector, redaction, path, fs, value);
    case StructVariant(_, _, _, fs) => FieldsUnmatched(selector, redaction, path, fs, value);
    case NewtypeStruct(_, x) => RedactUnmatched(selector, redaction, path, x);
    case NewtypeVariant(_, _, _, x) => RedactUnmatched(selector, redaction, path, x);
    case Some(x) => RedactUnmatched(selector, redaction, path, x);
    case _ =>
  }

  lemma {:induction false} Below(selector: Selector, path: seq<PathItem>, step: seq<PathItem>)
    requires NoMatchBelow(selector, path)
    ensures NoMatchBelow(selector, path + step)
  {
    forall q: seq<PathItem> ensures !IsMatch(selector, path + step + q) {
      assert path + step + q == path + (step + q);
    }
  }

  lemma {:induction false} EntriesUnmatched(selector: Selector, redaction: Redaction, path: seq<PathItem>, es: seq<(C.Content, C.Content)>, parent: C.Content)
    requires forall k :: 0 <= k < |es| ==> es[k].0 < parent && es[k].1 < parent
    requires NoMatchBelow(selector, path)
    ensures RedactedEntries(selector, redaction, path, es, parent) == es
    decreases parent, 0
  {
    forall k | 0 <= k < |es|
      ensures Redacted(selector, redaction, path + [Field("$key")], es[k].0) == es[k].0
      ensures Redacted(selector, redaction, path + [Content(es[k].0)], es[k].1) == es[k].1
    {
      Below(selector, path, [Field("$key")]);
      Below(selector, path, [Content(es[k].0)]);
      RedactUnmatched(selector, redaction, path + [Field("$key")], es[k].0);
      RedactUnmatched(selector, redaction, path + [Content(es[k].0)], es[k].1);
    }
  }

  lemma {:induction false} ItemsUnmatched(selector: Selector, redaction: Redaction, path: seq<PathItem>, es: seq<C.Content>, parent: C.Content)
    requires forall k :: 0 <= k < |es| ==> es[k] < parent
    requires NoMatchBelow(selector, path)
    ensures RedactedItems(selector, redaction, path, es, parent) == es
    decreases parent, 0
  {
    forall k | 0 <= k < |es|
      ensures Redacted(selector, redaction, path + [PathItem.Index(k, |es|)], es[k]) == es[k]
    {
      Below(selector, path, [PathItem.Index(k, |es|)]);
      RedactUnmatched(selector, redaction, path + [PathItem.Index(k, |es|)], es[k]);
    }
  }

  lemma {:induction false} FieldsUnmatched(selector: Selector, redaction: Redaction, path: seq<PathItem>, fs: seq<(string, C.Content)>, parent: C.Content)
    requires forall k :: 0 <= k < |fs| ==> fs[k].1 < parent
    requires NoMatchBelow(selector, path)
    ensures RedactedFields(selector, redaction, path, fs, parent) == fs
    decreases parent, 0
  {
    forall k | 0 <= k < |fs|
      ensures (fs[k].0, Redacted(selector, redaction, path + [Field(fs[k].0)], fs[k].1)) == fs[k]
    {
      Below(selector, path, [Field(fs[k].0)]);
      RedactUnmatched(selector, redaction, path + [Field(fs[k].0)], fs[k].1);
    }
  }

  /// No path through a map key matches.
  ghost predicate KeysUntouched(selector: Selector)
  {
    forall p: seq<PathItem> :: Field("$key") in p ==> !IsMatch(selector, p)
  }

  /// A static redaction applied twice is applied once, as long as no
  /// alternative reaches into map keys (a redacted key would change the
  /// path its value is visited under).
  lemma {:induction false} StaticRedactionIdempotent(selector: Selector, v: C.Content, path: seq<PathItem>, value: C.Content)
    requires KeysUntouched(selector)
    ensures var once := Redacted(selector, Static(v), path, value);
      Redacted(selector, Static(v), path, once) == once
    decreases value
  {
    var red := Static(v);
    if !IsMatch(selector, path) {
      match value
      case Map(es) => EntriesIdempotent(selector, v, path, es, value);
      case Seq(es) => ItemsIdempotent(selector, v, path, es, value);
      case Tuple(es) => ItemsIdempotent(selector, v, path, es, value);
      case TupleStruct(_, es) => ItemsIdempotent(selector, v, path, es, value);
      case TupleVariant(_, _, _, es) => ItemsIdempotent(selector, v, path, es, value);
      case Struct(_, fs) => FieldsIdempotent(selector, v, path, fs, value);
      case StructVariant(_, _, _, fs) => FieldsIdempotent(selector, v, path, fs, value);
      case NewtypeStruct(_, x) => StaticRedactionIdempotent(selector, v, path, x);
      case NewtypeVariant(_, _, _, x) => StaticRedactionIdempotent(selector, v, path, x);
      case Some(x) => StaticRedactionIdempotent(selector, v, path, x);
      case _ =>
    }
  }

  /// Everything below a map key is a path through that key.
  lemma {:induction false} KeyPaths(selector: Selector, path: seq<PathItem>)
    requires KeysUntouched(selector)
    ensures NoMatchBelow(selector, path + [Field("$key")])
  {
    forall q: seq<PathItem> ensures !IsMatch(selector, path + [Field("$key")] + q) {
      assert (path + [Field("$key")] + q)[|path|] == Field("$key");
    }
  }

  lemma {:induction false} EntriesIdempotent(selector: Selector, v: C.Content, path: seq<PathItem>, es: seq<(C.Content, C.Content)>, parent: C.Content)
    requires parent == C.Map(es)
    requires KeysUntouched(selector)
    ensures var once := RedactedEntries(selector, Static(v), path, es, parent);
      RedactedEntries(selector, Static(v), path, once, C.Map(once)) == once
    decreases parent, 0
  {
    var red := Static(v);
    var once := RedactedEntries(selector, red, path, es, parent);
    forall k | 0 <= k < |es|
      ensures RedactedEntries(selector, red, path, once, C.Map(once))[k] == once[k]
    {
      KeyPaths(selector, path);
      RedactUnmatched(selector, red, path + [Field("$key")], es[k].0);
      assert once[k].0 == es[k].0;
      KeyPaths(selector, path);
      RedactUnmatched(selector, red, path + [Field("$key")], once[k].0);
      StaticRedactionIdempotent(selector, v, path + [Content(es[k].0)], es[k].1);
    }
  }

  lemma {:induction false} ItemsIdempotent(selector: Selector, v: C.Content, path: seq<PathItem>, es: seq<C.Content>, parent: C.Content)
    requires forall k :: 0 <= k < |es| ==> es[k] < parent
    requires KeysUntouched(selector)
    ensures var once := RedactedItems(selector, Static(v), path, es, parent);
      RedactedItems(selector, Static(v), path, once, C.Seq(once)) == once
    decreases parent, 0
  {
    var once := RedactedItems(selector, Static(v), path, es, parent);
    forall k | 0 <= k < |es|
      ensures RedactedItems(selector, Static(v), path, once, C.Seq(once))[k] == once[k]
    {
      StaticRedactionIdempotent(selector, v, path + [PathItem.Index(k, |es|)], es[k]);
    }
  }

  lemma {:induction false} FieldsIdempotent(selector: Selector, v: C.Content, path: seq<PathItem>, fs: seq<(string, C.Content)>, parent: C.Content)
    requires forall k :: 0 <= k < |fs| ==> fs[k].1 < parent
    requires KeysUntouched(selector)
    ensures var once := RedactedFields(selector, Static(v), path, fs, parent);
      RedactedFields(selector, Static(v), path, once, C.Struct("", once)) == once
    decreases parent, 0
  {
    var once := RedactedFields(selector, Static(v), path, fs, parent);
    forall k | 0 <= k < |fs|
      ensures RedactedFields(selector, Static(v), path, once, C.Struct("", once))[k] == once[k]
    {
      StaticRedactionIdempotent(selector, v, path + [Field(fs[k].0)], fs[k].1);
    }
  }

  /// `redact_impl`, `redact_seq` and `redact_struct` over one shared path
  /// stack, which `redact` starts empty.
  class Redactor {
    const selector: Selector
    const redaction: Redaction
    var path: seq<PathItem>

    constructor(selector: Selector, redaction: Redaction)
      ensures this.selector == selector && this.redaction == redaction && path == []
    {
      this.selector := selector;
      this.redaction := redaction;
      path := [];
    }

    /// `Selector::redact`.
    method Redact(value: C.Content) returns (r: C.Content)
      requires path == []
      modifies this
      ensures path == [] && r == Redacted(selector, redaction, [], value)
    {
      r := RedactImpl(value);
    }

    method RedactImpl(value: C.Content) returns (r: C.Content)
      modifies this
      ensures path == old(path) && r == Redacted(selector, redaction, old(path), value)
      decreases value, 2
    {
      if IsMatch(selector, path) {
        r := Apply(redaction, value, path);
      } else if value.Map? {
        var es := RedactMap(value.entries, value);
        r := C.Map(es);
      } else if value.Seq? || value.Tuple? || value.TupleStruct? || value.TupleVariant? {
        r := RedactItemsNode(value);
      } else {
        r := RedactRest(value);
      }
    }

    /// The sequence and tuple cases of `redact_impl`, for a path that does
    /// not match.
    method RedactItemsNode(value: C.Content) returns (r: C.Content)
      requires !IsMatch(selector, path)
      requires value.Seq? || value.Tuple? || value.TupleStruct? || value.TupleVariant?
      modifies this
      ensures path == old(path) && r == Redacted(selector, redaction, old(path), value)
      decreases value, 1
    {
      var es := RedactSeq(value.elems, value);
      if value.Seq? {
        r := C.Seq(es);
      } else if value.Tuple? {
        r := C.Tuple(es);
      } else if value.TupleStruct? {
        r := C.TupleStruct(value.name, es);
      } else {
        r := C.TupleVariant(value.name, value.index, value.variant, es);
      }
    }

    /// The struct and wrapper cases of `redact_impl`, for a path that does
    /// not match.
    method RedactRest(value: C.Content) returns (r: C.Content)
      requires !IsMatch(selector, path)
      requires !(value.Map? || value.Seq? || value.Tuple? || value.TupleStruct? || value.TupleVariant?)
      modifies this
      ensures path == old(path) && r == Redacted(selector, redaction, old(path), value)
      decreases value, 1
    {
      if value.Struct? {
        var fs := RedactStruct(value.fields, value);
        r := C.Struct(value.name, fs);
      } else if value.StructVariant? {
        var fs := RedactStruct(value.fields, value);
        r := C.StructVariant(value.name, value.index, value.variant, fs);
      } else if value.NewtypeStruct? {
        var x := RedactImpl(value.inner);
        r := C.NewtypeStruct(value.name, x);
      } else if value.NewtypeVariant? {
        var x := RedactImpl(value.inner);
        r := C.NewtypeVariant(value.name, value.index, value.variant, x);
      } else if value.Some? {
        var x := RedactImpl(value.inner);
        r := C.Content.Some(x);
      } else {
        r := value;
      }
    }

    /// `redact_seq`: each item under `Index(i, len)`, popped afterwards.
    method RedactSeq(es: seq<C.Content>, ghost parent: C.Content) returns (rs: seq<C.Content>)
      requires forall k :: 0 <= k < |es| ==> es[k] < parent
      modifies this
      ensures path == old(path) && rs == RedactedItems(selector, redaction, old(path), es, parent)
      decreases parent, 0
    {
      rs := [];
      var i := 0;
      while i < |es|
        invariant 0 <= i <= |es| && path == old(path) && |rs| == i
        invariant forall k :: 0 <= k < i ==> rs[k] == Redacted(selector, redaction, old(path) + [PathItem.Index(k, |es|)], es[k])
      {
        path := path + [PathItem.Index(i, |es|)];
        var x := RedactImpl(es[i]);
        path := path[..|path| - 1];
        rs := rs + [x];
        i := i + 1;
      }
    }

    /// `redact_struct`: each field under its name.
    method RedactStruct(fs: seq<(string, C.Content)>, ghost parent: C.Content) returns (rs: seq<(string, C.Content)>)
      requires forall k :: 0 <= k < |fs| ==> fs[k].1 < parent
      modifies this
      ensures path == old(path) && rs == RedactedFields(selector, redaction, old(path), fs, parent)
      decreases parent, 0
    {
      rs := [];
      var i := 0;
      while i < |fs|
        invariant 0 <= i <= |fs| && path == old(path) && |rs| == i
        invariant forall k :: 0 <= k < i ==> rs[k] == (fs[k].0, Redacted(selector, redaction, old(path) + [Field(fs[k].0)], fs[k].1))
      {
        path := path + [Field(fs[i].0)];
        var x := RedactImpl(fs[i].1);
        path := path[..|path| - 1];
        rs := rs + [(fs[i].0, x)];
        i := i + 1;
      }
    }

    /// The map case of `redact_impl`: the key under `Field("$key")`, then
    /// the value under the original key.
    method RedactMap(es: seq<(C.Content, C.Content)>, ghost parent: C.Content) returns (rs: seq<(C.Content, C.Content)>)
      requires forall k :: 0 <= k < |es| ==> es[k].0 < parent && es[k].1 < parent
      modifies this
      ensures path == old(path) && rs == RedactedEntries(selector, redaction, old(path), es, parent)
      decreases parent, 0
    {
      rs := [];
      var i := 0;
      while i < |es|
        invariant 0 <= i <= |es| && path == old(path) && |rs| == i
        invariant forall k :: 0 <= k < i ==> (rs[k] ==
          (Redacted(selector, redaction, old(path) + [Field("$key")], es[k].0),
           Redacted(selector, redaction, old(path) + [Content(es[k].0)], es[k].1)))
      {
        path := path + [Field("$key")];
        var key := RedactImpl(es[i].0);
        path := path[..|path| - 1];
        path := path + [Content(es[i].0)];
        var value := RedactImpl(es[i].1);
        path := path[..|path| - 1];
        rs := rs + [(key, value)];
        i := i + 1;
      }
    }
  }
}
