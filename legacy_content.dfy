// The older generation's accessors on `Content` (src/content.rs): a
// string accessor that does not look through wrappers, a map key that
// only looks through `Some`, `as_u64` without 128-bit variants, and a
// `sort_maps` that orders every map by key alone.  `walk` and the map
// builder are the same code as in the current generation
// (`Contents.Walk`, `ContentKeys.MapBuilder`).
module LegacyContent {
  import opened Wrappers
  import opened Sorting
  import C = Contents
  import K = ContentKeys

  /// The older content error (src/content/error.rs).
  datatype ContentError =
    | InvalidStructField(key: C.Content)
    | FailedParsingYaml
    | UnexpectedDataType
    | MissingField

  /// `Content::as_str`: only a `String` node itself.
  function LegacyAsStr(c: C.Content): (r: Option<string>)
    ensures r.Some? <==> c.String?
    ensures r.Some? ==> r.value == c.s
  {
    if c.String? then Option.Some(c.s) else Option.None
  }

  /// The variants of the older enum that have a key of their own.
  predicate HasLegacyKey(c: C.Content)
  {
    c.Bool? || c.Char? || c.U16? || c.U32? || c.U64? || c.I16? || c.I32? || c.I64?
    || c.F32? || c.F64? || c.String? || c.Bytes?
  }

  /// Strips the `Some` layers only.
  function StripSome(c: C.Content): (r: C.Content)
    ensures !r.Some?
    ensures r == c || r < c
  {
    if c.Some? then StripSome(c.inner) else c
  }

  /// `Content::as_key` (older): `Some` is looked through, newtypes are not;
  /// there are no 128-bit keys.
  function LegacyAsKey(c: C.Content): (r: K.Key)
    ensures !r.U128? && !r.I128?
    ensures r.Other? <==> !HasLegacyKey(StripSome(c))
    ensures (r.U64? || r.I64?) && !StripSome(c).Char? ==>
      C.IntValue(StripSome(c)) == Option.Some(if r.U64? then r.u else r.i)
  {
    match c
    case Bool(v) => K.Bool(v)
    case Char(v) => K.U64(v as int)
    case U16(v) => K.U64(v)
    case U32(v) => K.U64(v)
    case U64(v) => K.U64(v)
    case I16(v) => K.I64(v)
    case I32(v) => K.I64(v)
    case I64(v) => K.I64(v)
    case F32(v) => K.F64(v)
    case F64(v) => K.F64(v)
    case String(v) => K.Str(v)
    case Bytes(v) => K.Bytes(v)
    case Some(v) => LegacyAsKey(v)
    case _ => K.Other
  }

  /// A newtype wrapper is a key of its own in the older code: it is `Other`
  /// even when it wraps a string, where the current `as_key` sees the string.
  lemma LegacyKeyOfNewtype(n: string, s: string)
    ensures LegacyAsKey(C.NewtypeStruct(n, C.String(s))) == K.Other
    ensures K.AsKey(C.NewtypeStruct(n, C.String(s))) == K.Str(s)
  {
  }

  /// The older derived order on keys agrees with `Key::cmp` on the keys
  /// the older code produces: same variant order (Bool, U64, I64, F64,
  /// Str, Bytes, Other), payloads compared, `Other` equal to itself.
  function LegacyKeyCmp(a: K.Key, b: K.Key): (r: Ordering)
    requires !a.U128? && !a.I128? && !b.U128? && !b.I128?
    ensures r == Equal <==> (a == b || (a.F64? && b.F64?) || (a.Other? && b.Other?))
  {
    K.KeyCmpEqual(a, b);
    K.KeyCmp(a, b)
  }

  /// `Content::as_u64` (older): unsigned values widen, signed ones convert
  /// when not negative; no 128-bit variant and no unwrapping.
  function LegacyAsU64(c: C.Content): (r: Option<C.u64>)
    ensures r.Some? <==> (c.U8? || c.U16? || c.U32? || c.U64?
                          || ((c.I8? || c.I16? || c.I32? || c.I64?) && C.IntValue(c).value >= 0))
    ensures r.Some? ==> C.IntValue(c) == Option.Some(r.value as int)
  {
    match c
    case U8(v) => Option<C.u64>.Some(v)
    case U16(v) => Option<C.u64>.Some(v)
    case U32(v) => Option<C.u64>.Some(v)
    case U64(v) => Option<C.u64>.Some(v)
    case I8(v) => if v >= 0 then Option<C.u64>.Some(v) else Option.None
    case I16(v) => if v >= 0 then Option<C.u64>.Some(v) else Option.None
    case I32(v) => if v >= 0 then Option<C.u64>.Some(v) else Option.None
    case I64(v) => if v >= 0 then Option<C.u64>.Some(v) else Option.None
    case _ => Option.None
  }

  /// The entry order of the older `sort_maps`: by key alone.
  function LegacyEntryCmp(): ((C.Content, C.Content), (C.Content, C.Content)) -> Ordering
  {
    (a: (C.Content, C.Content), b: (C.Content, C.Content)) => LegacyKeyCmp(LegacyAsKey(a.0), LegacyAsKey(b.0))
  }

  /// The older entry order is a total preorder on any entries, because
  /// floats compare equal here: in the source, `partial_cmp` with
  /// `unwrap_or(Less)` on a NaN key makes the order not total.
  lemma LegacyEntryCmpTotal(es: seq<(C.Content, C.Content)>)
    ensures TotalPreorderOn(LegacyEntryCmp(), es)
  {
    var cmp := LegacyEntryCmp();
    forall a, b | a in es && b in es ensures cmp(a, b) == cmp(b, a).Reverse() {
      K.KeyCmpReverse(LegacyAsKey(a.0), LegacyAsKey(b.0));
    }
    forall a, b, c | a in es && b in es && c in es && cmp(a, b) != Greater && cmp(b, c) != Greater
      ensures cmp(a, c) != Greater
    {
      K.KeyCmpTransitive(LegacyAsKey(a.0), LegacyAsKey(b.0), LegacyAsKey(c.0));
    }
  }

  /// `Content::sort_maps` (older): every map sorted by key alone, parents
  /// before children.
  function LegacySortMaps(c: C.Content): C.Content
  {
    K.SortMapsBy(c, LegacyEntryCmp())
  }

  /// Every content is a key the older order accepts.
  predicate AnyKey(k: C.Content)
  {
    true
  }

  lemma {:induction false} AllKeysAny(c: C.Content)
    ensures K.KeysAll(AnyKey, c)
    decreases c
  {
    match c
    case Some(x) => AllKeysAny(x);
    case NewtypeStruct(_, x) => AllKeysAny(x);
    case NewtypeVariant(_, _, _, x) => AllKeysAny(x);
    case Seq(es) => forall i | 0 <= i < |es| ensures K.KeysAll(AnyKey, es[i]) { AllKeysAny(es[i]); }
    case Tuple(es) => forall i | 0 <= i < |es| ensures K.KeysAll(AnyKey, es[i]) { AllKeysAny(es[i]); }
    case TupleStruct(_, es) => forall i | 0 <= i < |es| ensures K.KeysAll(AnyKey, es[i]) { AllKeysAny(es[i]); }
    case TupleVariant(_, _, _, es) => forall i | 0 <= i < |es| ensures K.KeysAll(AnyKey, es[i]) { AllKeysAny(es[i]); }
    case Map(es) =>
      forall i | 0 <= i < |es| ensures K.KeysAll(AnyKey, es[i].0) && K.KeysAll(AnyKey, es[i].1) {
        assert es[i].0 < c && es[i].1 < c;
        AllKeysAny(es[i].0);
        AllKeysAny(es[i].1);
      }
    case Struct(_, fs) => forall i | 0 <= i < |fs| ensures K.KeysAll(AnyKey, fs[i].1) { AllKeysAny(fs[i].1); }
    case StructVariant(_, _, _, fs) => forall i | 0 <= i < |fs| ensures K.KeysAll(AnyKey, fs[i].1) { AllKeysAny(fs[i].1); }
    case _ =>
  }

  /// Sorting a key leaves its older key as it was: `walk` keeps every
  /// `Some` layer and every leaf, and every other node stays `Other`.
  lemma {:induction false} LegacyKeyKept(k: C.Content)
    ensures LegacyAsKey(K.SortMapsBy(k, LegacyEntryCmp())) == LegacyAsKey(k)
    decreases k
  {
    K.SortMapsByNode(k, LegacyEntryCmp());
    if k.Some? {
      LegacyKeyKept(k.inner);
    }
  }

  /// Every map of the older `sort_maps` result, at any depth, is sorted
  /// by key.
  lemma LegacySortMapsSortedDeep(c: C.Content)
    ensures K.SortedDeep(LegacyEntryCmp(), LegacySortMaps(c))
  {
    var cmp := LegacyEntryCmp();
    forall a: K.Entry, b: K.Entry ensures cmp(K.SortPair(a, cmp), K.SortPair(b, cmp)) == cmp(a, b) {
      LegacyKeyKept(a.0);
      LegacyKeyKept(b.0);
    }
    forall es: seq<K.Entry> ensures TotalPreorderOn(cmp, es) {
      LegacyEntryCmpTotal(es);
    }
    AllKeysAny(c);
    K.SortMapsBySortedDeep(c, cmp, AnyKey);
  }
}
