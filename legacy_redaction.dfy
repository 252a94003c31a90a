// Redaction selectors of the older generation (src/redaction.rs), which
// rewrite a YAML value tree.  There is no deep wildcard; a sequence item's
// path element is its index as a YAML number and a mapping value's is its
// key.  Subscript unescaping is the current generation's
// (`Redaction.Unescaped`).
module LegacyRedaction {
  import opened Wrappers
  import C = Contents
  import R = Redaction

  /// A YAML number: an integer, or a float kept as its text.
  datatype Number = Int(n: int) | Float(text: string)

  /// A YAML value; a mapping keeps its entries in insertion order.
  datatype Value =
    | Null
    | Bool(b: bool)
    | Number(num: Number)
    | String(s: string)
    | Sequence(items: seq<Value>)
    | Mapping(entries: seq<(Value, Value)>)

  function AsStr(v: Value): (r: Option<string>)
    ensures r.Some? <==> v.String?
  {
    if v.String? then Some(v.s) else None
  }

  /// `Value::as_i64`: integers that fit in 64 signed bits.
  function AsI64(v: Value): (r: Option<int>)
    ensures r.Some? ==> v.Number? && v.num.Int? && r.value == v.num.n && -C.TWO_63 <= r.value < C.TWO_63
  {
    if v.Number? && v.num.Int? && -C.TWO_63 <= v.num.n < C.TWO_63 then Some(v.num.n) else None
  }

  predicate FitsI32(n: int)
  {
    -0x8000_0000 <= n < 0x8000_0000
  }

  datatype Segment = Wildcard | Key(key: string) | Index(index: int) | Range(start: Option<int>, end: Option<int>)

  /// Why the older code panics: a number `parse().unwrap()` rejects, a rule
  /// this grammar cannot yield, or a range segment reached while matching.
  datatype Failure = NumberOutOfRange | UnknownRule | RangeReached

  /// One segment from its grammar rule, with 32-bit numbers.
  function SegmentOf(rule: R.Rule): (r: Result<Option<Segment>, Failure>)
    ensures rule.StringSubscript? ==> r == Ok(Some(Key(R.Unescaped(rule.quoted))))
    ensures rule.IntSubscript? ==> (r.Ok? <==> FitsI32(rule.digits))
    ensures r == Err(UnknownRule) <==> rule.DeepWildcardRule?
  {
    match rule
    case Identity => Ok(None)
    case WildcardRule => Ok(Some(Wildcard))
    case DeepWildcardRule => Err(UnknownRule)
    case KeyRule(ident) => Ok(Some(Key(ident)))
    case IntSubscript(n) => if FitsI32(n) then Ok(Some(Segment.Index(n))) else Err(NumberOutOfRange)
    case StringSubscript(q) => Ok(Some(Key(R.Unescaped(q))))
    case FullRange => Ok(Some(Range(None, None)))
    case RangeRule(a, b) => if FitsI32(a) && FitsI32(b) then Ok(Some(Range(Some(a), Some(b)))) else Err(NumberOutOfRange)
    case RangeTo(b) => Ok(Some(Range(None, if FitsI32(b) then Some(b) else None)))
    case RangeFrom(a) => Ok(Some(Range(if FitsI32(a) then Some(a) else None, None)))
  }

  // ---------------------------------------------------------------------
  // Matching

  /// The match of one segment against one path element, or the panic of a
  /// range segment.
  function SegmentMatch(segment: Segment, element: Value): (r: Result<bool, Failure>)
    ensures r.Err? <==> segment.Range?
  {
    match segment
    case Wildcard => Ok(true)
    case Key(k) => Ok(AsStr(element) == Some(k))
    case Index(i) => Ok(AsI64(element) == Some(i))
    case Range(_, _) => Err(RangeReached)
  }

  /// Whether a segment without a range matches an element.
  predicate SegmentHolds(segment: Segment, element: Value)
  {
    match segment
    case Wildcard => true
    case Key(k) => element.String? && element.s == k
    case Index(i) => element.Number? && element.num.Int? && element.num.n == i
    case Range(_, _) => false
  }

  predicate RangeFree(segments: seq<Segment>)
  {
    forall k :: 0 <= k < |segments| ==> !segments[k].Range?
  }

  /// The inner loop of `is_match` for one alternative of the path's
  /// length: segments in order, the first mismatch answers.
  function AlternativeMatch(segments: seq<Segment>, path: seq<Value>): Result<bool, Failure>
    requires |segments| == |path|
  {
    if segments == [] then Ok(true)
    else match SegmentMatch(segments[0], path[0])
      case Err(e) => Err(e)
      case Ok(false) => Ok(false)
      case Ok(true) => AlternativeMatch(segments[1..], path[1..])
  }

  /// An alternative without ranges matches exactly when every segment
  /// holds for its element.
  lemma {:induction false} AlternativeMatchHolds(segments: seq<Segment>, path: seq<Value>)
    requires |segments| == |path| && RangeFree(segments)
    requires forall k :: 0 <= k < |segments| && segments[k].Index? ==> FitsI32(segments[k].index)
    ensures AlternativeMatch(segments, path) == Ok(forall k :: 0 <= k < |segments| ==> SegmentHolds(segments[k], path[k]))
  {
    if segments != [] {
      AlternativeMatchHolds(segments[1..], path[1..]);
      assert forall k :: 1 <= k < |segments| ==> segments[1..][k - 1] == segments[k] && path[1..][k - 1] == path[k];
      assert SegmentMatch(segments[0], path[0]) == Ok(SegmentHolds(segments[0], path[0]));
    }
  }

  /// `Selector::is_match` as written: the first alternative of a different
  /// length, or with a mismatching segment, answers false, and only when
  /// every alternative matches is the answer true.
  function IsMatchAsWritten(alternatives: seq<seq<Segment>>, path: seq<Value>): Result<bool, Failure>
  {
    if alternatives == [] then Ok(true)
    else if |alternatives[0]| != |path| then Ok(false)
    else match AlternativeMatch(alternatives[0], path)
      case Err(e) => Err(e)
      case Ok(false) => Ok(false)
      case Ok(true) => IsMatchAsWritten(alternatives[1..], path)
  }

  /// `is_match` as evidently intended, and as the current generation has
  /// it: the first alternative that matches answers true.
  function IsMatch(alternatives: seq<seq<Segment>>, path: seq<Value>): Result<bool, Failure>
  {
    if alternatives == [] then Ok(false)
    else if |alternatives[0]| != |path| then IsMatch(alternatives[1..], path)
    else match AlternativeMatch(alternatives[0], path)
      case Err(e) => Err(e)
      case Ok(true) => Ok(true)
      case Ok(false) => IsMatch(alternatives[1..], path)
  }

  /// The alternative `segments` matches `path`, ranges aside.
  predicate Holds(segments: seq<Segment>, path: seq<Value>)
  {
    |segments| == |path| && forall k :: 0 <= k < |segments| ==> SegmentHolds(segments[k], path[k])
  }

  /// Alternatives without ranges and with 32-bit indices.
  predicate WellFormed(alternatives: seq<seq<Segment>>)
  {
    forall a :: 0 <= a < |alternatives| ==> (RangeFree(alternatives[a])
      && forall k :: 0 <= k < |alternatives[a]| && alternatives[a][k].Index? ==> FitsI32(alternatives[a][k].index))
  }

  /// As written, the selector matches only paths that every alternative
  /// matches.
  lemma {:induction false} IsMatchAsWrittenAll(alternatives: seq<seq<Segment>>, path: seq<Value>)
    requires WellFormed(alternatives)
    ensures IsMatchAsWritten(alternatives, path) == Ok(forall a :: 0 <= a < |alternatives| ==> Holds(alternatives[a], path))
  {
    if alternatives != [] {
      IsMatchAsWrittenAll(alternatives[1..], path);
      assert forall a :: 1 <= a < |alternatives| ==> alternatives[1..][a - 1] == alternatives[a];
      if |alternatives[0]| == |path| {
        AlternativeMatchHolds(alternatives[0], path);
      }
    }
  }

  /// Corrected, the selector matches the paths some alternative matches.
  lemma {:induction false} IsMatchAny(alternatives: seq<seq<Segment>>, path: seq<Value>)
    requires WellFormed(alternatives)
    ensures IsMatch(alternatives, path) == Ok(exists a :: 0 <= a < |alternatives| && Holds(alternatives[a], path))
  {
    if alternatives != [] {
      IsMatchAny(alternatives[1..], path);
      assert forall a :: 1 <= a < |alternatives| ==> alternatives[1..][a - 1] == alternatives[a];
      if |alternatives[0]| == |path| {
        AlternativeMatchHolds(alternatives[0], path);
      }
      if exists a :: 0 <= a < |alternatives| && Holds(alternatives[a], path) {
        var a :| 0 <= a < |alternatives| && Holds(alternatives[a], path);
        if a > 0 {
          assert Holds(alternatives[1..][a - 1], path);
        }
      }
    }
  }

  /// As written, two alternatives that name different keys at the same
  /// place never both match, so a selector listing them matches nothing,
  /// while the corrected rule matches the paths of either.
  lemma {:induction false} DistinctKeysNeverMatchAsWritten(alternatives: seq<seq<Segment>>, path: seq<Value>, i: nat, j: nat, x: string, y: string)
    requires WellFormed(alternatives)
    requires i < |alternatives| && j < |alternatives| && x != y
    requires alternatives[i] == [Key(x)] && alternatives[j] == [Key(y)]
    ensures IsMatchAsWritten(alternatives, path) == Ok(false)
    ensures path == [String(x)] ==> IsMatch(alternatives, path) == Ok(true)
  {
    IsMatchAsWrittenAll(alternatives, path);
    IsMatchAny(alternatives, path);
    if path == [String(x)] {
      assert Holds(alternatives[i], path);
    }
  }

  // ---------------------------------------------------------------------
  // Redacting a value tree

  /// `redact_impl` with the corrected `is_match`, as a function of the path
  /// stack it starts with: a matching node becomes the redaction value,
  /// mapping values are visited under their key, sequence items under
  /// their index, and other values are returned as they are.  A range
  /// segment reached while matching is a failure.
  function Redacted(alternatives: seq<seq<Segment>>, redaction: Value, path: seq<Value>, value: Value): Result<Value, Failure>
    decreases value, 1, 0
  {
    match IsMatch(alternatives, path)
    case Err(e) => Err(e)
    case Ok(true) => Ok(redaction)
    case Ok(false) =>
      match value
      case Mapping(es) =>
        (match RedactedEntries(alternatives, redaction, path, es, value, |es|)
         case Ok(ys) => Ok(Mapping(ys))
         case Err(e) => Err(e))
      case Sequence(xs) =>
        (match RedactedItems(alternatives, redaction, path, xs, value, |xs|)
         case Ok(ys) => Ok(Sequence(ys))
         case Err(e) => Err(e))
      case _ => Ok(value)
  }

  /// The first `n` mapping entries, each value under its key; the keys are
  /// kept.
  function RedactedEntries(alternatives: seq<seq<Segment>>, redaction: Value, path: seq<Value>,
                           es: seq<(Value, Value)>, parent: Value, n: nat): (r: Result<seq<(Value, Value)>, Failure>)
    requires n <= |es| && forall k :: 0 <= k < |es| ==> es[k].1 < parent
    ensures r.Ok? ==> |r.value| == n && forall k :: 0 <= k < n ==> r.value[k].0 == es[k].0
    decreases parent, 0, n
  {
    if n == 0 then Ok([])
    else match RedactedEntries(alternatives, redaction, path, es, parent, n - 1)
      case Err(e) => Err(e)
      case Ok(done) =>
        match Redacted(alternatives, redaction, path + [es[n - 1].0], es[n - 1].1)
        case Err(e) => Err(e)
        case Ok(v) => Ok(done + [(es[n - 1].0, v)])
  }

  /// The first `n` sequence items, each under its index.
  function RedactedItems(alternatives: seq<seq<Segment>>, redaction: Value, path: seq<Value>,
                         xs: seq<Value>, parent: Value, n: nat): (r: Result<seq<Value>, Failure>)
    requires n <= |xs| && forall k :: 0 <= k < |xs| ==> xs[k] < parent
    ensures r.Ok? ==> |r.value| == n
    decreases parent, 0, n
  {
    if n == 0 then Ok([])
    else match RedactedItems(alternatives, redaction, path, xs, parent, n - 1)
      case Err(e) => Err(e)
      case Ok(done) =>
        match Redacted(alternatives, redaction, path + [Number(Int(n - 1))], xs[n - 1])
        case Err(e) => Err(e)
        case Ok(v) => Ok(done + [v])
  }

  /// Selectors without ranges never make redaction fail.
  lemma {:induction false} WellFormedNeverFails(alternatives: seq<seq<Segment>>, redaction: Value, path: seq<Value>, value: Value)
    requires WellFormed(alternatives)
    ensures Redacted(alternatives, redaction, path, value).Ok?
    decreases value, 1, 0
  {
    IsMatchAny(alternatives, path);
    match value
    case Mapping(es) => EntriesNeverFail(alternatives, redaction, path, es, value, |es|);
    case Sequence(xs) => ItemsNeverFail(alternatives, redaction, path, xs, value, |xs|);
    case _ =>
  }

  lemma {:induction false} EntriesNeverFail(alternatives: seq<seq<Segment>>, redaction: Value, path: seq<Value>,
                                            es: seq<(Value, Value)>, parent: Value, n: nat)
    requires WellFormed(alternatives)
    requires n <= |es| && forall k :: 0 <= k < |es| ==> es[k].1 < parent
    ensures RedactedEntries(alternatives, redaction, path, es, parent, n).Ok?
    decreases parent, 0, n
  {
    if n > 0 {
      EntriesNeverFail(alternatives, redaction, path, es, parent, n - 1);
      WellFormedNeverFails(alternatives, redaction, path + [es[n - 1].0], es[n - 1].1);
    }
  }

  lemma {:induction false} ItemsNeverFail(alternatives: seq<seq<Segment>>, redaction: Value, path: seq<Value>,
                                          xs: seq<Value>, parent: Value, n: nat)
    requires WellFormed(alternatives)
    requires n <= |xs| && forall k :: 0 <= k < |xs| ==> xs[k] < parent
    ensures RedactedItems(alternatives, redaction, path, xs, parent, n).Ok?
    decreases parent, 0, n
  {
    if n > 0 {
      ItemsNeverFail(alternatives, redaction, path, xs, parent, n - 1);
      WellFormedNeverFails(alternatives, redaction, path + [Number(Int(n - 1))], xs[n - 1]);
    }
  }

  /// `redact_impl` over one shared path stack, which `redact` starts
  /// empty.
  class Redactor {
    const alternatives: seq<seq<Segment>>
    const redaction: Value
    var path: seq<Value>

    constructor(alternatives: seq<seq<Segment>>, redaction: Value)
      ensures this.alternatives == alternatives && this.redaction == redaction && path == []
    {
      this.alternatives := alternatives;
      this.redaction := redaction;
      path := [];
    }

    /// `Selector::redact`.
    method Redact(value: Value) returns (r: Result<Value, Failure>)
      requires path == []
      modifies this
      ensures path == [] && r == Redacted(alternatives, redaction, [], value)
    {
      r := RedactImpl(value);
    }

    method RedactImpl(value: Value) returns (r: Result<Value, Failure>)
      modifies this
      ensures path == old(path) && r == Redacted(alternatives, redaction, old(path), value)
      decreases value, 1, 0
    {
      var m := IsMatch(alternatives, path);
      if m.Err? {
        r := Err(m.error);
      } else if m.value {
        r := Ok(redaction);
      } else if value.Mapping? {
        var es := RedactMapping(value.entries, value);
        r := if es.Ok? then Ok(Mapping(es.value)) else Err(es.error);
      } else if value.Sequence? {
        var xs := RedactSequence(value.items, value);
        r := if xs.Ok? then Ok(Sequence(xs.value)) else Err(xs.error);
      } else {
        r := Ok(value);
      }
    }

    /// The mapping case: each value under its key, popped afterwards.
    method RedactMapping(es: seq<(Value, Value)>, ghost parent: Value) returns (r: Result<seq<(Value, Value)>, Failure>)
      requires forall k :: 0 <= k < |es| ==> es[k].1 < parent
      modifies this
      ensures path == old(path) && r == RedactedEntries(alternatives, redaction, old(path), es, parent, |es|)
      decreases parent, 0, |es| + 1
    {
      var done: seq<(Value, Value)> := [];
      var i := 0;
      while i < |es|
        invariant 0 <= i <= |es| && path == old(path)
        invariant RedactedEntries(alternatives, redaction, old(path), es, parent, i) == Ok(done)
      {
        path := path + [es[i].0];
        var v := RedactImpl(es[i].1);
        path := path[..|path| - 1];
        if v.Err? {
          EntriesErrStays(alternatives, redaction, old(path), es, parent, i + 1, v.error);
          return Err(v.error);
        }
        done := done + [(es[i].0, v.value)];
        i := i + 1;
      }
      r := Ok(done);
    }

    /// The sequence case: each item under its index as a number.
    method RedactSequence(xs: seq<Value>, ghost parent: Value) returns (r: Result<seq<Value>, Failure>)
      requires forall k :: 0 <= k < |xs| ==> xs[k] < parent
      modifies this
      ensures path == old(path) && r == RedactedItems(alternatives, redaction, old(path), xs, parent, |xs|)
      decreases parent, 0, |xs| + 1
    {
      var done: seq<Value> := [];
      var i := 0;
      while i < |xs|
        invariant 0 <= i <= |xs| && path == old(path)
        invariant RedactedItems(alternatives, redaction, old(path), xs, parent, i) == Ok(done)
      {
        path := path + [Number(Int(i))];
        var v := RedactImpl(xs[i]);
        path := path[..|path| - 1];
        if v.Err? {
          ItemsErrStays(alternatives, redaction, old(path), xs, parent, i + 1, v.error);
          return Err(v.error);
        }
        done := done + [v.value];
        i := i + 1;
      }
      r := Ok(done);
    }
  }

  /// The first failure among the entries is the result.
  lemma {:induction false} EntriesErrStays(alternatives: seq<seq<Segment>>, redaction: Value, path: seq<Value>,
                                           es: seq<(Value, Value)>, parent: Value, n: nat, e: Failure)
    requires n <= |es| && forall k :: 0 <= k < |es| ==> es[k].1 < parent
    requires RedactedEntries(alternatives, redaction, path, es, parent, n) == Err(e)
    ensures RedactedEntries(alternatives, redaction, path, es, parent, |es|) == Err(e)
    decreases |es| - n
  {
    if n < |es| {
      EntriesErrStays(alternatives, redaction, path, es, parent, n + 1, e);
    }
  }

  lemma {:induction false} ItemsErrStays(alternatives: seq<seq<Segment>>, redaction: Value, path: seq<Value>,
                                         xs: seq<Value>, parent: Value, n: nat, e: Failure)
    requires n <= |xs| && forall k :: 0 <= k < |xs| ==> xs[k] < parent
    requires RedactedItems(alternatives, redaction, path, xs, parent, n) == Err(e)
    ensures RedactedItems(alternatives, redaction, path, xs, parent, |xs|) == Err(e)
    decreases |xs| - n
  {
    if n < |xs| {
      ItemsErrStays(alternatives, redaction, path, xs, parent, n + 1, e);
    }
  }
}
