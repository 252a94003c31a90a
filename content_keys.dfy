// Map-key ordering over `Content` and the sorting of map entries that
// insta applies before serialising (`Key`, `as_key`, `sort_maps`), plus the
// builders that collect `Content` containers element by element.
module ContentKeys {
  import opened Wrappers
  import opened Sorting
  import C = Contents

  /// The sort key of a map key.  Float keys keep their text; how two floats
  /// compare is not modelled (they compare equal).
  datatype Key =
    | Bool(b: bool)
    | U64(u: C.u64)
    | I64(i: C.i64)
    | F64(f: C.Float)
    | U128(u128: C.u128)
    | I128(i128: C.i128)
    | Str(s: string)
    | Bytes(bytes: seq<C.u8>)
    | Other

  /// `Key::discriminant`: the rank that orders keys of different kinds.
  function Discriminant(k: Key): (d: nat)
    ensures 1 <= d <= 9
  {
    match k
    case Bool(_) => 1
    case U64(_) => 2
    case I64(_) => 3
    case F64(_) => 4
    case U128(_) => 5
    case I128(_) => 6
    case Str(_) => 7
    case Bytes(_) => 8
    case Other => 9
  }

  function CmpBool(a: bool, b: bool): Ordering
  {
    CmpInt(if a then 1 else 0, if b then 1 else 0)
  }

  /// `Key::cmp`: by rank, then by payload; two floats or two `Other`
  /// keys are equal.
  function KeyCmp(a: Key, b: Key): (r: Ordering)
    ensures Discriminant(a) < Discriminant(b) ==> r == Less
    ensures Discriminant(a) > Discriminant(b) ==> r == Greater
  {
    if Discriminant(a) != Discriminant(b) then CmpInt(Discriminant(a), Discriminant(b))
    else
      match (a, b)
      case (Bool(x), Bool(y)) => CmpBool(x, y)
      case (U64(x), U64(y)) => CmpInt(x, y)
      case (I64(x), I64(y)) => CmpInt(x, y)
      case (U128(x), U128(y)) => CmpInt(x, y)
      case (I128(x), I128(y)) => CmpInt(x, y)
      case (Str(x), Str(y)) => LexCmp(Codes(x), Codes(y))
      case (Bytes(x), Bytes(y)) => LexCmp(x, y)
      case _ => Equal
  }

  /// Keys compare equal exactly when they are the same key, or both
  /// floats, or both `Other`.
  lemma KeyCmpEqual(a: Key, b: Key)
    ensures KeyCmp(a, b) == Equal <==> (a == b || (a.F64? && b.F64?) || (a.Other? && b.Other?))
  {
    if a.Str? && b.Str? && KeyCmp(a, b) == Equal {
      CodesInjective(a.s, b.s);
    }
  }

  lemma KeyCmpReverse(a: Key, b: Key)
    ensures KeyCmp(a, b) == KeyCmp(b, a).Reverse()
  {
    if a.Str? && b.Str? {
      LexCmpReverse(Codes(a.s), Codes(b.s));
    } else if a.Bytes? && b.Bytes? {
      LexCmpReverse(a.bytes, b.bytes);
    }
  }

  lemma KeyCmpTransitive(a: Key, b: Key, c: Key)
    requires KeyCmp(a, b) != Greater && KeyCmp(b, c) != Greater
    ensures KeyCmp(a, c) != Greater
  {
    if a.Str? && b.Str? && c.Str? {
      LexCmpTransitive(Codes(a.s), Codes(b.s), Codes(c.s));
    } else if a.Bytes? && b.Bytes? && c.Bytes? {
      LexCmpTransitive(a.bytes, b.bytes, c.bytes);
    }
  }

  /// The variants that have a key of their own.
  predicate HasKey(c: C.Content)
  {
    c.Bool? || c.Char? || c.U16? || c.U32? || c.U64? || c.U128? || c.I16? || c.I32? || c.I64? || c.I128?
    || c.F32? || c.F64? || c.String? || c.Bytes?
  }

  /// `Content::as_key`: looks through wrappers; `Char`, `U16`, `U32` and
  /// `U64` become `U64`, `I16`, `I32` and `I64` become `I64`, floats `F64`;
  /// `U8`, `I8` and every non-scalar become `Other`.
  function AsKey(c: C.Content): (r: Key)
    ensures (r.U64? || r.I64? || r.U128? || r.I128?) && !C.ResolveInner(c).Char? ==>
      C.IntValue(C.ResolveInner(c)) == Option.Some(if r.U64? then r.u else if r.I64? then r.i else if r.U128? then r.u128 else r.i128)
    ensures r.Other? <==> !HasKey(C.ResolveInner(c))
  {
    match C.ResolveInner(c)
    case Bool(v) => Bool(v)
    case Char(v) => U64(v as int)
    case U16(v) => U64(v)
    case U32(v) => U64(v)
    case U64(v) => U64(v)
    case U128(v) => U128(v)
    case I16(v) => I64(v)
    case I32(v) => I64(v)
    case I64(v) => I64(v)
    case I128(v) => I128(v)
    case F32(v) => F64(v)
    case F64(v) => F64(v)
    case String(v) => Str(v)
    case Bytes(v) => Bytes(v)
    case _ => Other
  }

  /// The comparison `sort_maps` sorts entries by: keys by `Key::cmp`,
  /// unless one of them is `Other`, in which case by the derived partial
  /// order of `Content` (`contentCmp`, not modelled), equal if incomparable.
  function EntryCmp(contentCmp: (C.Content, C.Content) -> Option<Ordering>): ((C.Content, C.Content), (C.Content, C.Content)) -> Ordering
  {
    (a: (C.Content, C.Content), b: (C.Content, C.Content)) =>
      var ka, kb := AsKey(a.0), AsKey(b.0);
      if ka.Other? || kb.Other? then contentCmp(a.0, b.0).UnwrapOr(Equal) else KeyCmp(ka, kb)
  }

  /// Sorting map entries never changes the tree's size.
  lemma {:induction false} InsertBySize(x: (C.Content, C.Content), s: seq<(C.Content, C.Content)>, cmp: ((C.Content, C.Content), (C.Content, C.Content)) -> Ordering)
    ensures C.SizeEntries(InsertBy(x, s, cmp)) == C.SizeEntries([x]) + C.SizeEntries(s)
    decreases |s|
  {
    if s != [] && cmp(s[|s| - 1], x) == Greater {
      InsertBySize(x, s[..|s| - 1], cmp);
      SizeEntriesAppend(InsertBy(x, s[..|s| - 1], cmp), [s[|s| - 1]]);
      SizeEntriesAppend(s[..|s| - 1], [s[|s| - 1]]);
      assert s == s[..|s| - 1] + [s[|s| - 1]];
    } else if s != [] {
      SizeEntriesAppend(s, [x]);
    }
  }

  lemma {:induction false} SizeEntriesAppend(a: seq<(C.Content, C.Content)>, b: seq<(C.Content, C.Content)>)
    ensures C.SizeEntries(a + b) == C.SizeEntries(a) + C.SizeEntries(b)
  {
    if a != [] {
      assert (a + b)[0] == a[0];
      assert (a + b)[1..] == a[1..] + b;
      SizeEntriesAppend(a[1..], b);
    } else {
      assert a + b == b;
    }
  }

  lemma {:induction false} SortBySize(s: seq<(C.Content, C.Content)>, cmp: ((C.Content, C.Content), (C.Content, C.Content)) -> Ordering)
    ensures C.SizeEntries(SortBy(s, cmp)) == C.SizeEntries(s)
    decreases |s|
  {
    if s != [] {
      var p := s[..|s| - 1];
      var x := s[|s| - 1];
      var q := SortBy(p, cmp);
      assert C.SizeEntries(SortBy(s, cmp)) == C.SizeEntries(InsertBy(x, q, cmp)) by {
        SortBySnoc(s, cmp);
      }
      assert C.SizeEntries(InsertBy(x, q, cmp)) == C.SizeEntries([x]) + C.SizeEntries(q) by {
        InsertBySize(x, q, cmp);
      }
      assert C.SizeEntries(q) == C.SizeEntries(p) by {
        SortBySize(p, cmp);
      }
      assert C.SizeEntries(s) == C.SizeEntries([x]) + C.SizeEntries(p) by {
        SizeEntriesAppend(p, [x]);
        assert s == p + [x];
      }
    }
  }

  /// A map entry: its key and its value.
  type Entry = (C.Content, C.Content)

  /// The visitor of `sort_maps` for an entry comparison: sorts the entries
  /// of a map node and always descends.
  function SortVisitor(cmp: (Entry, Entry) -> Ordering): ((), C.Content) -> ((), C.Content, bool)
  {
    (st: (), x: C.Content) => ((), if x.Map? then C.Map(SortBy(x.entries, cmp)) else x, true)
  }

  lemma SortVisitorNonGrowing(cmp: (Entry, Entry) -> Ordering)
    ensures C.NonGrowing(SortVisitor(cmp))
  {
    var visit := SortVisitor(cmp);
    forall s: (), x: C.Content ensures C.Size(visit(s, x).1) <= C.Size(x) {
      SortedNodeSize(x, cmp);
    }
  }

  /// One node as the visitor leaves it is as large as before.
  lemma SortedNodeSize(x: C.Content, cmp: (Entry, Entry) -> Ordering)
    ensures C.Size(SortVisitor(cmp)((), x).1) == C.Size(x)
  {
    if x.Map? {
      assert x == C.Map(x.entries);
      SortedMapSize(x.entries, cmp);
    }
  }

  lemma SortedMapSize(es: seq<Entry>, cmp: (Entry, Entry) -> Ordering)
    ensures C.Size(C.Map(SortBy(es, cmp))) == C.Size(C.Map(es))
  {
    SortBySize(es, cmp);
    C.SizeOfMap(SortBy(es, cmp));
    C.SizeOfMap(es);
  }

  /// `walk` with the sorting visitor: each map's entries sorted before
  /// the walk descends into them.  Both generations of `sort_maps` are
  /// this walk; they differ in the entry comparison.
  function SortMapsBy(c: C.Content, cmp: (Entry, Entry) -> Ordering): C.Content
  {
    SortVisitorNonGrowing(cmp);
    C.Walk((), c, SortVisitor(cmp)).1
  }

  /// `Content::sort_maps`: keys by `Key::cmp`, falling back to the order
  /// of `Content` for keys without a key of their own.
  function SortMaps(c: C.Content, contentCmp: (C.Content, C.Content) -> Option<Ordering>): C.Content
  {
    SortMapsBy(c, EntryCmp(contentCmp))
  }

  // The same tree sorted node by node, without `walk`: the reference that
  // `sort_maps` is proved equal to.

  function SortPair(e: Entry, cmp: (Entry, Entry) -> Ordering): Entry
  {
    (SortMapsBy(e.0, cmp), SortMapsBy(e.1, cmp))
  }

  function SortItems(es: seq<C.Content>, cmp: (Entry, Entry) -> Ordering): (r: seq<C.Content>)
    ensures |r| == |es| && forall i :: 0 <= i < |es| ==> r[i] == SortMapsBy(es[i], cmp)
  {
    seq(|es|, i requires 0 <= i < |es| => SortMapsBy(es[i], cmp))
  }

  function SortEntries(es: seq<Entry>, cmp: (Entry, Entry) -> Ordering): (r: seq<Entry>)
    ensures |r| == |es| && forall i :: 0 <= i < |es| ==> r[i] == SortPair(es[i], cmp)
  {
    seq(|es|, i requires 0 <= i < |es| => SortPair(es[i], cmp))
  }

  function SortFields(fs: seq<(string, C.Content)>, cmp: (Entry, Entry) -> Ordering): (r: seq<(string, C.Content)>)
    ensures |r| == |fs| && forall i :: 0 <= i < |fs| ==> r[i] == (fs[i].0, SortMapsBy(fs[i].1, cmp))
  {
    seq(|fs|, i requires 0 <= i < |fs| => (fs[i].0, SortMapsBy(fs[i].1, cmp)))
  }

  /// One node: a map's entries sorted and then each key and value sorted
  /// in turn; any other node keeps its kind and every child is sorted.
  function SortNode(c: C.Content, cmp: (Entry, Entry) -> Ordering): C.Content
  {
    match c
    case Some(x) => C.Content.Some(SortMapsBy(x, cmp))
    case NewtypeStruct(n, x) => C.NewtypeStruct(n, SortMapsBy(x, cmp))
    case NewtypeVariant(n, i, v, x) => C.NewtypeVariant(n, i, v, SortMapsBy(x, cmp))
    case Seq(es) => C.Seq(SortItems(es, cmp))
    case Tuple(es) => C.Tuple(SortItems(es, cmp))
    case TupleStruct(n, es) => C.TupleStruct(n, SortItems(es, cmp))
    case TupleVariant(n, i, v, es) => C.TupleVariant(n, i, v, SortItems(es, cmp))
    case Map(es) => C.Map(SortEntries(SortBy(es, cmp), cmp))
    case Struct(n, fs) => C.Struct(n, SortFields(fs, cmp))
    case StructVariant(n, i, v, fs) => C.StructVariant(n, i, v, SortFields(fs, cmp))
    case _ => c
  }

  lemma {:induction false} WalkItemsSorts(es: seq<C.Content>, cmp: (Entry, Entry) -> Ordering)
    requires C.NonGrowing(SortVisitor(cmp))
    ensures C.WalkSeq((), es, SortVisitor(cmp)).1 == SortItems(es, cmp)
  {
    if es != [] {
      var visit := SortVisitor(cmp);
      WalkItemsSorts(es[1..], cmp);
      var h := C.Walk((), es[0], visit);
      assert h.0 == () && h.1 == SortMapsBy(es[0], cmp);
      var t := C.WalkSeq(h.0, es[1..], visit);
      assert C.WalkSeq((), es, visit).1 == [h.1] + t.1;
      assert [h.1] + t.1 == SortItems(es, cmp);
    }
  }

  lemma {:induction false} WalkEntriesSorts(es: seq<Entry>, cmp: (Entry, Entry) -> Ordering)
    requires C.NonGrowing(SortVisitor(cmp))
    ensures C.WalkEntries((), es, SortVisitor(cmp)).1 == SortEntries(es, cmp)
  {
    if es != [] {
      var visit := SortVisitor(cmp);
      var k := C.Walk((), es[0].0, visit);
      var v := C.Walk(k.0, es[0].1, visit);
      var t := C.WalkEntries(v.0, es[1..], visit);
      assert C.WalkEntries((), es, visit).1 == [(k.1, v.1)] + t.1;
      assert (k.1, v.1) == SortPair(es[0], cmp) by {
        assert k.0 == () && k.1 == SortMapsBy(es[0].0, cmp);
        assert v.1 == SortMapsBy(es[0].1, cmp);
      }
      assert t.1 == SortEntries(es[1..], cmp) by {
        assert v.0 == ();
        WalkEntriesSorts(es[1..], cmp);
      }
      SortEntriesCons(es, cmp);
    }
  }

  lemma SortEntriesCons(es: seq<Entry>, cmp: (Entry, Entry) -> Ordering)
    requires es != []
    ensures SortEntries(es, cmp) == [SortPair(es[0], cmp)] + SortEntries(es[1..], cmp)
  {
  }

  lemma {:induction false} WalkFieldsSorts(fs: seq<(string, C.Content)>, cmp: (Entry, Entry) -> Ordering)
    requires C.NonGrowing(SortVisitor(cmp))
    ensures C.WalkFields((), fs, SortVisitor(cmp)).1 == SortFields(fs, cmp)
  {
    if fs != [] {
      var visit := SortVisitor(cmp);
      WalkFieldsSorts(fs[1..], cmp);
      var v := C.Walk((), fs[0].1, visit);
      assert v.0 == () && v.1 == SortMapsBy(fs[0].1, cmp);
      var t := C.WalkFields(v.0, fs[1..], visit);
      assert C.WalkFields((), fs, visit).1 == [(fs[0].0, v.1)] + t.1;
      assert [(fs[0].0, v.1)] + t.1 == SortFields(fs, cmp);
    }
  }

  /// `sort_maps` keeps the shape of the tree: every node keeps its kind,
  /// names and children in order, except that a map's entries are first
  /// sorted by the entry comparison; keys and values are then sorted in
  /// turn, and leaves are unchanged.
  lemma SortMapsByNode(c: C.Content, cmp: (Entry, Entry) -> Ordering)
    ensures SortMapsBy(c, cmp) == SortNode(c, cmp)
  {
    if c.Map? {
      SortMapOfMap(c.entries, cmp);
    } else if c.Seq? || c.Tuple? || c.TupleStruct? || c.TupleVariant? {
      SortItemsNode(c, cmp);
    } else if c.Struct? || c.StructVariant? {
      SortFieldsNode(c, cmp);
    } else {
      SortOtherNode(c, cmp);
    }
  }

  lemma SortItemsNode(c: C.Content, cmp: (Entry, Entry) -> Ordering)
    requires c.Seq? || c.Tuple? || c.TupleStruct? || c.TupleVariant?
    ensures SortMapsBy(c, cmp) == SortNode(c, cmp)
  {
    SortVisitorNonGrowing(cmp);
    assert SortVisitor(cmp)((), c) == ((), c, true);
    WalkItemsSorts(c.elems, cmp);
  }

  lemma SortFieldsNode(c: C.Content, cmp: (Entry, Entry) -> Ordering)
    requires c.Struct? || c.StructVariant?
    ensures SortMapsBy(c, cmp) == SortNode(c, cmp)
  {
    SortVisitorNonGrowing(cmp);
    assert SortVisitor(cmp)((), c) == ((), c, true);
    WalkFieldsSorts(c.fields, cmp);
  }

  lemma SortOtherNode(c: C.Content, cmp: (Entry, Entry) -> Ordering)
    requires !(c.Map? || c.Seq? || c.Tuple? || c.TupleStruct? || c.TupleVariant? || c.Struct? || c.StructVariant?)
    ensures SortMapsBy(c, cmp) == SortNode(c, cmp)
  {
    SortVisitorNonGrowing(cmp);
    assert SortVisitor(cmp)((), c) == ((), c, true);
  }

  /// Sorting each entry of two permutations of the same entries gives two
  /// permutations of the same sorted entries.
  lemma {:induction false} SortEntriesPermutes(s: seq<Entry>, t: seq<Entry>, cmp: (Entry, Entry) -> Ordering)
    requires multiset(s) == multiset(t)
    ensures multiset(SortEntries(s, cmp)) == multiset(SortEntries(t, cmp))
    decreases |s|
  {
    if s != [] {
      var n := |s| - 1;
      var x := s[n];
      assert x in multiset(t);
      var j :| 0 <= j < |t| && t[j] == x;
      var t' := t[..j] + t[j + 1..];
      assert multiset(t') == multiset(s[..n]) by {
        RemoveAt(t, j);
        assert s == s[..n] + [x];
      }
      var p := multiset{SortPair(x, cmp)};
      assert multiset(SortEntries(s, cmp)) == multiset(SortEntries(s[..n], cmp)) + p by {
        SortEntriesSnoc(s, cmp);
      }
      assert multiset(SortEntries(s[..n], cmp)) == multiset(SortEntries(t', cmp)) by {
        SortEntriesPermutes(s[..n], t', cmp);
      }
      assert multiset(SortEntries(t, cmp)) == multiset(SortEntries(t', cmp)) + p by {
        SortEntriesRemoveAt(t, j, cmp);
      }
    }
  }

  lemma SortEntriesSnoc(s: seq<Entry>, cmp: (Entry, Entry) -> Ordering)
    requires s != []
    ensures multiset(SortEntries(s, cmp)) == multiset(SortEntries(s[..|s| - 1], cmp)) + multiset{SortPair(s[|s| - 1], cmp)}
  {
    assert SortEntries(s, cmp) == SortEntries(s[..|s| - 1], cmp) + [SortPair(s[|s| - 1], cmp)];
  }

  lemma RemoveAt<T>(t: seq<T>, j: nat)
    requires j < |t|
    ensures multiset(t[..j] + t[j + 1..]) == multiset(t) - multiset{t[j]}
  {
    assert t == t[..j] + [t[j]] + t[j + 1..];
  }

  lemma SortEntriesRemoveAt(t: seq<Entry>, j: nat, cmp: (Entry, Entry) -> Ordering)
    requires j < |t|
    ensures multiset(SortEntries(t, cmp)) == multiset(SortEntries(t[..j] + t[j + 1..], cmp)) + multiset{SortPair(t[j], cmp)}
  {
    var r := SortEntries(t, cmp);
    var r' := SortEntries(t[..j] + t[j + 1..], cmp);
    assert r' == r[..j] + r[j + 1..];
    RemoveAt(r, j);
  }

  /// A sorted map holds exactly its entries with their keys and values
  /// sorted, in some order.
  lemma SortMapsPermutes(es: seq<Entry>, cmp: (Entry, Entry) -> Ordering)
    ensures SortMapsBy(C.Map(es), cmp).Map?
    ensures multiset(SortMapsBy(C.Map(es), cmp).entries) == multiset(SortEntries(es, cmp))
  {
    SortMapOfMap(es, cmp);
    SortedEntriesPermute(es, cmp);
  }

  lemma SortMapOfMap(es: seq<Entry>, cmp: (Entry, Entry) -> Ordering)
    ensures SortMapsBy(C.Map(es), cmp) == C.Map(SortEntries(SortBy(es, cmp), cmp))
  {
    SortVisitorNonGrowing(cmp);
    var visit := SortVisitor(cmp);
    var sorted := SortBy(es, cmp);
    assert visit((), C.Map(es)) == ((), C.Map(sorted), true);
    assert C.Walk((), C.Map(es), visit).1 == C.Map(C.WalkEntries((), sorted, visit).1);
    WalkEntriesSorts(sorted, cmp);
  }

  lemma SortedEntriesPermute(es: seq<Entry>, cmp: (Entry, Entry) -> Ordering)
    ensures multiset(SortEntries(SortBy(es, cmp), cmp)) == multiset(SortEntries(es, cmp))
  {
    SortEntriesPermutes(SortBy(es, cmp), es, cmp);
  }

  /// Entries whose keys all have a key of their own are sorted by
  /// `Key::cmp`, and keep their multiset of entries.
  lemma SortByKeyedEntries(es: seq<(C.Content, C.Content)>, contentCmp: (C.Content, C.Content) -> Option<Ordering>)
    requires forall k :: 0 <= k < |es| ==> !AsKey(es[k].0).Other?
    ensures multiset(SortBy(es, EntryCmp(contentCmp))) == multiset(es)
    ensures forall i, j :: 0 <= i < j < |es| ==>
      KeyCmp(AsKey(SortBy(es, EntryCmp(contentCmp))[i].0), AsKey(SortBy(es, EntryCmp(contentCmp))[j].0)) != Greater
  {
    var cmp := EntryCmp(contentCmp);
    var sorted := SortBy(es, cmp);
    assert forall x :: x in es ==> !AsKey(x.0).Other?;
    assert TotalPreorderOn(cmp, es) by {
      forall a, b | a in es && b in es ensures cmp(a, b) == cmp(b, a).Reverse() {
        KeyCmpReverse(AsKey(a.0), AsKey(b.0));
      }
      forall a, b, c | a in es && b in es && c in es && cmp(a, b) != Greater && cmp(b, c) != Greater
        ensures cmp(a, c) != Greater
      {
        KeyCmpTransitive(AsKey(a.0), AsKey(b.0), AsKey(c.0));
      }
    }
    SortBySorted(es, cmp);
    forall i, j | 0 <= i < j < |sorted| ensures KeyCmp(AsKey(sorted[i].0), AsKey(sorted[j].0)) != Greater {
      assert sorted[i] in multiset(es) && sorted[j] in multiset(es);
      assert cmp(sorted[i], sorted[j]) != Greater;
    }
  }

  /// Every map in the tree has its entries sorted by `cmp`.
  ghost predicate SortedDeep(cmp: (Entry, Entry) -> Ordering, c: C.Content)
    decreases c
  {
    match c
    case Some(x) => SortedDeep(cmp, x)
    case NewtypeStruct(_, x) => SortedDeep(cmp, x)
    case NewtypeVariant(_, _, _, x) => SortedDeep(cmp, x)
    case Seq(es) => forall i :: 0 <= i < |es| ==> SortedDeep(cmp, es[i])
    case Tuple(es) => forall i :: 0 <= i < |es| ==> SortedDeep(cmp, es[i])
    case TupleStruct(_, es) => forall i :: 0 <= i < |es| ==> SortedDeep(cmp, es[i])
    case TupleVariant(_, _, _, es) => forall i :: 0 <= i < |es| ==> SortedDeep(cmp, es[i])
    case Map(es) => SortedBy(cmp, es) && forall i :: 0 <= i < |es| ==> SortedDeep(cmp, es[i].0) && SortedDeep(cmp, es[i].1)
    case Struct(_, fs) => forall i :: 0 <= i < |fs| ==> SortedDeep(cmp, fs[i].1)
    case StructVariant(_, _, _, fs) => forall i :: 0 <= i < |fs| ==> SortedDeep(cmp, fs[i].1)
    case _ => true
  }

  /// Every map key anywhere in the tree satisfies `ok`.
  ghost predicate KeysAll(ok: C.Content -> bool, c: C.Content)
    decreases c
  {
    match c
    case Some(x) => KeysAll(ok, x)
    case NewtypeStruct(_, x) => KeysAll(ok, x)
    case NewtypeVariant(_, _, _, x) => KeysAll(ok, x)
    case Seq(es) => forall i :: 0 <= i < |es| ==> KeysAll(ok, es[i])
    case Tuple(es) => forall i :: 0 <= i < |es| ==> KeysAll(ok, es[i])
    case TupleStruct(_, es) => forall i :: 0 <= i < |es| ==> KeysAll(ok, es[i])
    case TupleVariant(_, _, _, es) => forall i :: 0 <= i < |es| ==> KeysAll(ok, es[i])
    case Map(es) => forall i :: 0 <= i < |es| ==> ok(es[i].0) && KeysAll(ok, es[i].0) && KeysAll(ok, es[i].1)
    case Struct(_, fs) => forall i :: 0 <= i < |fs| ==> KeysAll(ok, fs[i].1)
    case StructVariant(_, _, _, fs) => forall i :: 0 <= i < |fs| ==> KeysAll(ok, fs[i].1)
    case _ => true
  }

  /// Comparing two entries whose keys satisfy `ok` gives the same answer
  /// once their keys and values are sorted.
  ghost predicate OrderKept(cmp: (Entry, Entry) -> Ordering, ok: C.Content -> bool)
  {
    forall a: Entry, b: Entry {:trigger SortPair(a, cmp), SortPair(b, cmp)} ::
      ok(a.0) && ok(b.0) ==> cmp(SortPair(a, cmp), SortPair(b, cmp)) == cmp(a, b)
  }

  /// `cmp` is a total preorder on any entries whose keys satisfy `ok`.
  ghost predicate TotalOn(cmp: (Entry, Entry) -> Ordering, ok: C.Content -> bool)
  {
    forall es: seq<Entry> {:trigger TotalPreorderOn(cmp, es)} ::
      (forall i :: 0 <= i < |es| ==> ok(es[i].0)) ==> TotalPreorderOn(cmp, es)
  }

  /// When the comparison is a total preorder on the keys at hand and
  /// sorting a key below never changes how it compares, every map of the
  /// result is sorted.
  lemma {:induction false} SortMapsBySortedDeep(c: C.Content, cmp: (Entry, Entry) -> Ordering, ok: C.Content -> bool)
    requires KeysAll(ok, c) && OrderKept(cmp, ok) && TotalOn(cmp, ok)
    ensures SortedDeep(cmp, SortMapsBy(c, cmp))
    decreases c, 3
  {
    assert SortMapsBy(c, cmp) == SortNode(c, cmp) by {
      SortMapsByNode(c, cmp);
    }
    NodeSortedDeep(c, cmp, ok);
  }

  /// One node sorted by the reference definition, below which every map
  /// is sorted.
  lemma {:induction false} NodeSortedDeep(c: C.Content, cmp: (Entry, Entry) -> Ordering, ok: C.Content -> bool)
    requires KeysAll(ok, c) && OrderKept(cmp, ok) && TotalOn(cmp, ok)
    ensures SortedDeep(cmp, SortNode(c, cmp))
    decreases c, 2
  {
    match c
    case Some(x) => SortMapsBySortedDeep(x, cmp, ok);
    case NewtypeStruct(_, x) => SortMapsBySortedDeep(x, cmp, ok);
    case NewtypeVariant(_, _, _, x) => SortMapsBySortedDeep(x, cmp, ok);
    case Seq(es) => ItemsSortedDeep(c, es, cmp, ok);
    case Tuple(es) => ItemsSortedDeep(c, es, cmp, ok);
    case TupleStruct(_, es) => ItemsSortedDeep(c, es, cmp, ok);
    case TupleVariant(_, _, _, es) => ItemsSortedDeep(c, es, cmp, ok);
    case Map(es) => MapSortedDeep(es, cmp, ok);
    case Struct(_, fs) => FieldsSortedDeep(c, fs, cmp, ok);
    case StructVariant(_, _, _, fs) => FieldsSortedDeep(c, fs, cmp, ok);
    case _ =>
  }

  lemma {:induction false} ItemsSortedDeep(c: C.Content, es: seq<C.Content>, cmp: (Entry, Entry) -> Ordering, ok: C.Content -> bool)
    requires forall i :: 0 <= i < |es| ==> es[i] < c && KeysAll(ok, es[i])
    requires OrderKept(cmp, ok) && TotalOn(cmp, ok)
    ensures forall i :: 0 <= i < |es| ==> SortedDeep(cmp, SortItems(es, cmp)[i])
    decreases c, 0
  {
    forall i | 0 <= i < |es| ensures SortedDeep(cmp, SortItems(es, cmp)[i]) {
      SortMapsBySortedDeep(es[i], cmp, ok);
    }
  }

  lemma {:induction false} FieldsSortedDeep(c: C.Content, fs: seq<(string, C.Content)>, cmp: (Entry, Entry) -> Ordering, ok: C.Content -> bool)
    requires forall i :: 0 <= i < |fs| ==> fs[i].1 < c && KeysAll(ok, fs[i].1)
    requires OrderKept(cmp, ok) && TotalOn(cmp, ok)
    ensures forall i :: 0 <= i < |fs| ==> SortedDeep(cmp, SortFields(fs, cmp)[i].1)
    decreases c, 0
  {
    forall i | 0 <= i < |fs| ensures SortedDeep(cmp, SortFields(fs, cmp)[i].1) {
      SortMapsBySortedDeep(fs[i].1, cmp, ok);
    }
  }

  lemma {:induction false} MapSortedDeep(es: seq<Entry>, cmp: (Entry, Entry) -> Ordering, ok: C.Content -> bool)
    requires KeysAll(ok, C.Map(es)) && OrderKept(cmp, ok) && TotalOn(cmp, ok)
    ensures SortedDeep(cmp, C.Map(SortEntries(SortBy(es, cmp), cmp)))
    decreases C.Map(es), 1
  {
    var s := SortBy(es, cmp);
    assert SortedBy(cmp, s) by {
      assert TotalPreorderOn(cmp, es);
      SortBySorted(es, cmp);
    }
    forall i | 0 <= i < |s| ensures exists k :: 0 <= k < |es| && s[i] == es[k] {
      assert s[i] in multiset(es);
    }
    EntriesSorted(es, s, cmp, ok);
    EntriesSortedDeep(es, s, cmp, ok);
  }

  /// Sorting below the keys keeps a sorted map sorted.
  lemma {:induction false} EntriesSorted(es: seq<Entry>, s: seq<Entry>, cmp: (Entry, Entry) -> Ordering, ok: C.Content -> bool)
    requires forall i :: 0 <= i < |es| ==> ok(es[i].0)
    requires OrderKept(cmp, ok) && SortedBy(cmp, s)
    requires forall i :: 0 <= i < |s| ==> exists k :: 0 <= k < |es| && s[i] == es[k]
    ensures SortedBy(cmp, SortEntries(s, cmp))
  {
    var r := SortEntries(s, cmp);
    forall i, j | 0 <= i < j < |r| ensures cmp(r[i], r[j]) != Greater {
      var ki :| 0 <= ki < |es| && s[i] == es[ki];
      var kj :| 0 <= kj < |es| && s[j] == es[kj];
      assert cmp(SortPair(s[i], cmp), SortPair(s[j], cmp)) == cmp(s[i], s[j]);
    }
  }

  /// Every key and value of a map, sorted, has its own maps sorted.
  lemma {:induction false} EntriesSortedDeep(es: seq<Entry>, s: seq<Entry>, cmp: (Entry, Entry) -> Ordering, ok: C.Content -> bool)
    requires forall i :: 0 <= i < |es| ==> KeysAll(ok, es[i].0) && KeysAll(ok, es[i].1)
    requires OrderKept(cmp, ok) && TotalOn(cmp, ok)
    requires forall i :: 0 <= i < |s| ==> exists k :: 0 <= k < |es| && s[i] == es[k]
    ensures forall i :: 0 <= i < |s| ==> SortedDeep(cmp, SortEntries(s, cmp)[i].0) && SortedDeep(cmp, SortEntries(s, cmp)[i].1)
    decreases C.Map(es), 0
  {
    forall i | 0 <= i < |s| ensures SortedDeep(cmp, SortEntries(s, cmp)[i].0) && SortedDeep(cmp, SortEntries(s, cmp)[i].1) {
      var k :| 0 <= k < |es| && s[i] == es[k];
      assert es[k].0 < C.Map(es) && es[k].1 < C.Map(es);
      SortMapsBySortedDeep(es[k].0, cmp, ok);
      SortMapsBySortedDeep(es[k].1, cmp, ok);
    }
  }

  /// A key with a key of its own: a scalar, looked at through wrappers.
  predicate IsScalarKey(k: C.Content)
  {
    HasKey(C.ResolveInner(k))
  }

  /// Sorting leaves a scalar key as it is, wrappers and all.
  lemma {:induction false} ScalarKeyKept(k: C.Content, cmp: (Entry, Entry) -> Ordering)
    requires IsScalarKey(k)
    ensures C.ResolveInner(SortMapsBy(k, cmp)) == C.ResolveInner(k)
    decreases k
  {
    SortMapsByNode(k, cmp);
    match k
    case Some(x) => ScalarKeyKept(x, cmp);
    case NewtypeStruct(_, x) => ScalarKeyKept(x, cmp);
    case NewtypeVariant(_, _, _, x) => ScalarKeyKept(x, cmp);
    case _ =>
  }

  /// When every map key in the tree is a scalar, every map of the
  /// `sort_maps` result is sorted by the entry comparison.
  lemma SortMapsSortedDeep(c: C.Content, contentCmp: (C.Content, C.Content) -> Option<Ordering>)
    requires KeysAll(IsScalarKey, c)
    ensures SortedDeep(EntryCmp(contentCmp), SortMaps(c, contentCmp))
  {
    var cmp := EntryCmp(contentCmp);
    forall a: Entry, b: Entry | IsScalarKey(a.0) && IsScalarKey(b.0)
      ensures cmp(SortPair(a, cmp), SortPair(b, cmp)) == cmp(a, b)
    {
      ScalarKeyKept(a.0, cmp);
      ScalarKeyKept(b.0, cmp);
      assert AsKey(SortPair(a, cmp).0) == AsKey(a.0) && AsKey(SortPair(b, cmp).0) == AsKey(b.0);
    }
    forall es: seq<Entry> | forall i :: 0 <= i < |es| ==> IsScalarKey(es[i].0)
      ensures TotalPreorderOn(cmp, es)
    {
      ScalarKeysTotal(es, contentCmp);
    }
    SortMapsBySortedDeep(c, cmp, IsScalarKey);
  }

  lemma ScalarKeysTotal(es: seq<Entry>, contentCmp: (C.Content, C.Content) -> Option<Ordering>)
    requires forall i :: 0 <= i < |es| ==> IsScalarKey(es[i].0)
    ensures TotalPreorderOn(EntryCmp(contentCmp), es)
  {
    var cmp := EntryCmp(contentCmp);
    assert forall x :: x in es ==> !AsKey(x.0).Other?;
    forall a, b | a in es && b in es ensures cmp(a, b) == cmp(b, a).Reverse() {
      KeyCmpReverse(AsKey(a.0), AsKey(b.0));
    }
    forall a, b, c | a in es && b in es && c in es && cmp(a, b) != Greater && cmp(b, c) != Greater
      ensures cmp(a, c) != Greater
    {
      KeyCmpTransitive(AsKey(a.0), AsKey(b.0), AsKey(c.0));
    }
  }

  /// `SerializeMap`: entries arrive as a key followed by its value; the key
  /// waits in `key` until the value comes.
  class MapBuilder {
    var entries: seq<(C.Content, C.Content)>
    var key: Option<C.Content>

    constructor ()
      ensures entries == [] && key == Option.None
    {
      entries := [];
      key := Option.None;
    }

    /// `serialize_key`: the key waits for its value (a second key replaces it).
    method SerializeKey(k: C.Content)
      modifies this
      ensures key == Option.Some(k) && entries == old(entries)
    {
      key := Option.Some(k);
    }

    /// `serialize_value`: pairs the value with the waiting key; without one
    /// the source panics.
    method SerializeValue(v: C.Content) returns (ok: bool)
      modifies this
      ensures ok <==> old(key).Some?
      ensures ok ==> entries == old(entries) + [(old(key).value, v)] && key == Option.None
      ensures !ok ==> entries == old(entries) && key == old(key)
    {
      if key.None? {
        return false;
      }
      entries := entries + [(key.value, v)];
      key := Option.None;
      return true;
    }

    /// `serialize_entry`: key and value at once.
    method SerializeEntry(k: C.Content, v: C.Content)
      modifies this
      ensures entries == old(entries) + [(k, v)] && key == old(key)
    {
      entries := entries + [(k, v)];
    }

    /// `end`: the entries in call order.
    function End(): (r: C.Content)
      reads this
      ensures r.Map? && r.entries == entries
    {
      C.Map(entries)
    }
  }

  /// The kind of container a `SeqBuilder` closes into.
  datatype SeqKind = SeqKind | TupleKind | TupleStructKind(name: string)
    | TupleVariantKind(name: string, index: C.u32, variant: string)

  /// `SerializeSeq`, `SerializeTuple`, `SerializeTupleStruct` and
  /// `SerializeTupleVariant`: elements appended in call order.
  class SeqBuilder {
    const kind: SeqKind
    var elements: seq<C.Content>

    constructor (kind: SeqKind)
      ensures this.kind == kind && elements == []
    {
      this.kind := kind;
      elements := [];
    }

    method SerializeElement(v: C.Content)
      modifies this
      ensures elements == old(elements) + [v]
    {
      elements := elements + [v];
    }

    function End(): (r: C.Content)
      reads this
      ensures r.Seq? || r.Tuple? || r.TupleStruct? || r.TupleVariant?
      ensures r.elems == elements
    {
      match kind
      case SeqKind => C.Seq(elements)
      case TupleKind => C.Tuple(elements)
      case TupleStructKind(n) => C.TupleStruct(n, elements)
      case TupleVariantKind(n, i, v) => C.TupleVariant(n, i, v, elements)
    }
  }

  /// `SerializeStruct` and `SerializeStructVariant`: named fields appended
  /// in call order (a repeated name is kept twice).
  class StructBuilder {
    const name: string
    const variant: Option<(C.u32, string)>
    var fields: seq<(string, C.Content)>

    constructor (name: string, variant: Option<(C.u32, string)>)
      ensures this.name == name && this.variant == variant && fields == []
    {
      this.name := name;
      this.variant := variant;
      fields := [];
    }

    method SerializeField(k: string, v: C.Content)
      modifies this
      ensures fields == old(fields) + [(k, v)]
    {
      fields := fields + [(k, v)];
    }

    function End(): (r: C.Content)
      reads this
      ensures r.Struct? || r.StructVariant?
      ensures r.fields == fields && r.name == name
    {
      match variant
      case None => C.Struct(name, fields)
      case Some(v) => C.StructVariant(name, v.0, v.1, fields)
    }
  }
}
