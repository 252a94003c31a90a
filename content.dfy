// The serde-like value tree that insta snapshots, redacts and serialises:
// the `Content` enum with its unwrapping accessors, range-checked integer
// conversions and the recursive `walk`.
module Contents {
  import opened Wrappers

  const TWO_7: int := 0x80
  const TWO_8: int := 0x100
  const TWO_15: int := 0x8000
  const TWO_16: int := 0x1_0000
  const TWO_31: int := 0x8000_0000
  const TWO_32: int := 0x1_0000_0000
  const TWO_63: int := 0x8000_0000_0000_0000
  const TWO_64: int := 0x1_0000_0000_0000_0000
  const TWO_127: int := 0x8000_0000_0000_0000_0000_0000_0000_0000
  const TWO_128: int := 0x1_0000_0000_0000_0000_0000_0000_0000_0000

  type u8 = x: int | 0 <= x < TWO_8
  type u16 = x: int | 0 <= x < TWO_16
  type u32 = x: int | 0 <= x < TWO_32
  type u64 = x: int | 0 <= x < TWO_64
  type u128 = x: int | 0 <= x < TWO_128
  type i8 = x: int | -TWO_7 <= x < TWO_7
  type i16 = x: int | -TWO_15 <= x < TWO_15
  type i32 = x: int | -TWO_31 <= x < TWO_31
  type i64 = x: int | -TWO_63 <= x < TWO_63
  type i128 = x: int | -TWO_127 <= x < TWO_127

  /// A floating-point payload, kept as its `Display` text.  Arithmetic on
  /// floats is not part of this model.
  datatype Float = Float(text: string)

  predicate IsFinite(f: Float)
  {
    f.text != "NaN" && f.text != "inf" && f.text != "-inf"
  }

  datatype Content =
    | Bool(b: bool)
    | U8(n8: u8)
    | U16(n16: u16)
    | U32(n32: u32)
    | U64(n64: u64)
    | U128(n128: u128)
    | I8(s8: i8)
    | I16(s16: i16)
    | I32(s32: i32)
    | I64(s64: i64)
    | I128(s128: i128)
    | F32(f32: Float)
    | F64(f64: Float)
    | Char(c: char)
    | String(s: string)
    | Bytes(bytes: seq<u8>)
    | None
    | Some(inner: Content)
    | Unit
    | UnitStruct(name: string)
    | UnitVariant(name: string, index: u32, variant: string)
    | NewtypeStruct(name: string, inner: Content)
    | NewtypeVariant(name: string, index: u32, variant: string, inner: Content)
    | Seq(elems: seq<Content>)
    | Tuple(elems: seq<Content>)
    | TupleStruct(name: string, elems: seq<Content>)
    | TupleVariant(name: string, index: u32, variant: string, elems: seq<Content>)
    | Map(entries: seq<(Content, Content)>)
    | Struct(name: string, fields: seq<(string, Content)>)
    | StructVariant(name: string, index: u32, variant: string, fields: seq<(string, Content)>)

  /// The variants that `resolve_inner` looks through.
  predicate IsWrapper(c: Content)
  {
    c.Some? || c.NewtypeStruct? || c.NewtypeVariant?
  }

  /// `Content::resolve_inner`: strips every `Some`, `NewtypeStruct` and
  /// `NewtypeVariant` layer.
  function ResolveInner(c: Content): (r: Content)
    ensures !IsWrapper(r)
    ensures !IsWrapper(c) ==> r == c
    ensures r == c || r < c
  {
    match c
    case Some(v) => ResolveInner(v)
    case NewtypeStruct(_, v) => ResolveInner(v)
    case NewtypeVariant(_, _, _, v) => ResolveInner(v)
    case _ => c
  }

  function AsStr(c: Content): (r: Option<string>)
    ensures r.Some? <==> ResolveInner(c).String?
    ensures r.Some? ==> r.value == ResolveInner(c).s
  {
    match ResolveInner(c)
    case String(s) => Option.Some(s)
    case _ => Option.None
  }

  function AsBytes(c: Content): (r: Option<seq<u8>>)
    ensures r.Some? <==> ResolveInner(c).Bytes?
    ensures r.Some? ==> r.value == ResolveInner(c).bytes
  {
    match ResolveInner(c)
    case Bytes(b) => Option.Some(b)
    case _ => Option.None
  }

  /// `Content::as_slice`: the elements of a sequence, tuple or tuple
  /// variant (a tuple struct is not included).
  function AsSlice(c: Content): (r: Option<seq<Content>>)
    ensures r.Some? <==> (ResolveInner(c).Seq? || ResolveInner(c).Tuple? || ResolveInner(c).TupleVariant?)
    ensures r.Some? ==> r.value == ResolveInner(c).elems
  {
    match ResolveInner(c)
    case Seq(v) => Option.Some(v)
    case Tuple(v) => Option.Some(v)
    case TupleVariant(_, _, _, v) => Option.Some(v)
    case _ => Option.None
  }

  function IsNil(c: Content): (r: bool)
    ensures r <==> ResolveInner(c) == Content.None || ResolveInner(c) == Unit
  {
    match ResolveInner(c)
    case None => true
    case Unit => true
    case _ => false
  }

  function AsBool(c: Content): (r: Option<bool>)
    ensures r.Some? <==> ResolveInner(c).Bool?
    ensures r.Some? ==> r.value == ResolveInner(c).b
  {
    match ResolveInner(c)
    case Bool(b) => Option.Some(b)
    case _ => Option.None
  }

  /// The mathematical value of an integer variant: the reference the
  /// range-checked accessors are proved against.
  function IntValue(c: Content): Option<int>
  {
    match c
    case U8(v) => Option.Some(v)
    case U16(v) => Option.Some(v)
    case U32(v) => Option.Some(v)
    case U64(v) => Option.Some(v)
    case U128(v) => Option.Some(v)
    case I8(v) => Option.Some(v)
    case I16(v) => Option.Some(v)
    case I32(v) => Option.Some(v)
    case I64(v) => Option.Some(v)
    case I128(v) => Option.Some(v)
    case _ => Option.None
  }

  /// `v as u64` from any integer type: keep the low 64 bits.
  function CastU64(v: int): u64
  {
    v % TWO_64
  }

  /// `v as i64` from any integer type: the low 64 bits read as two's complement.
  function CastI64(v: int): i64
  {
    var m := v % TWO_64;
    if m >= TWO_63 then m - TWO_64 else m
  }

  /// `v as u128` from an integer type of at most 128 bits.
  function CastU128(v: int): u128
  {
    v % TWO_128
  }

  /// `v as i128` from an integer type of at most 128 bits.
  function CastI128(v: int): i128
  {
    var m := v % TWO_128;
    if m >= TWO_127 then m - TWO_128 else m
  }

  predicate FitsU64(c: Content)
  {
    var v := IntValue(ResolveInner(c));
    v.Some? && 0 <= v.value < TWO_64
  }

  predicate FitsI64(c: Content)
  {
    var v := IntValue(ResolveInner(c));
    v.Some? && -TWO_63 <= v.value < TWO_63
  }

  predicate FitsU128(c: Content)
  {
    var v := IntValue(ResolveInner(c));
    v.Some? && 0 <= v.value < TWO_128
  }

  predicate FitsI128(c: Content)
  {
    var v := IntValue(ResolveInner(c));
    v.Some? && -TWO_127 <= v.value < TWO_127
  }

  /// `Content::as_u64`: the value of an integer that fits in `u64`.
  function AsU64(c: Content): (r: Option<u64>)
    ensures r.Some? <==> FitsU64(c)
    ensures r.Some? ==> r.value == IntValue(ResolveInner(c)).value
  {
    match ResolveInner(c)
    case U8(v) => Option<u64>.Some(v)
    case U16(v) => Option<u64>.Some(v)
    case U32(v) => Option<u64>.Some(v)
    case U64(v) => Option<u64>.Some(v)
    case U128(v) => var rv := CastU64(v); if CastU128(rv) == v then Option<u64>.Some(rv) else Option<u64>.None
    case I8(v) => if v >= 0 then Option<u64>.Some(v) else Option<u64>.None
    case I16(v) => if v >= 0 then Option<u64>.Some(v) else Option<u64>.None
    case I32(v) => if v >= 0 then Option<u64>.Some(v) else Option<u64>.None
    case I64(v) => if v >= 0 then Option<u64>.Some(v) else Option<u64>.None
    case I128(v) => var rv := CastU64(v); if rv == v then Option<u64>.Some(rv) else Option<u64>.None
    case _ => Option<u64>.None
  }

  /// `Content::as_i64` as written: the `U64` and `U128` round-trip checks
  /// cast back to the unsigned type, so they accept values above `i64::MAX`.
  function AsI64AsWritten(c: Content): Option<i64>
  {
    match ResolveInner(c)
    case U8(v) => Option<i64>.Some(v)
    case U16(v) => Option<i64>.Some(v)
    case U32(v) => Option<i64>.Some(v)
    case U64(v) => var rv := CastI64(v); if CastU64(rv) == v then Option<i64>.Some(rv) else Option<i64>.None
    case U128(v) => var rv := CastI64(v); if CastU128(rv) == v then Option<i64>.Some(rv) else Option<i64>.None
    case I8(v) => Option<i64>.Some(v)
    case I16(v) => Option<i64>.Some(v)
    case I32(v) => Option<i64>.Some(v)
    case I64(v) => Option<i64>.Some(v)
    case I128(v) => var rv := CastI64(v); if rv == v then Option<i64>.Some(rv) else Option<i64>.None
    case _ => Option<i64>.None
  }

  /// The largest `u64` is read back as -1.
  lemma AsI64AsWrittenWrapsU64()
    ensures AsI64AsWritten(U64(TWO_64 - 1)) == Option.Some(-1)
    ensures !FitsI64(U64(TWO_64 - 1))
  {
    assert CastI64(TWO_64 - 1) == -1;
    assert CastU64(-1) == TWO_64 - 1;
  }

  /// A natural number below the modulus is its own remainder.
  lemma SmallMod(v: int, m: int)
    requires 0 <= v < m
    ensures v % m == v
  {
  }

  /// Casting a `u64` to `i64` and back gives it back.
  lemma CastI64Back(v: u64)
    ensures CastU64(CastI64(v)) == v
  {
  }

  /// Casting a `u128` to `i128` and back gives it back.
  lemma CastI128Back(v: u128)
    ensures CastU128(CastI128(v)) == v
  {
  }

  /// When a `u128` survives the round trip through `i64` as written, the
  /// `i64` is its 128-bit two's complement reading.
  lemma CastI64OfU128(v: u128)
    ensures CastU128(CastI64(v)) == v ==> CastI64(v) == CastI128(v)
  {
  }

  /// `Content::as_i64` with the round trip checked in the signed direction:
  /// the value of an integer that fits in `i64`.
  function AsI64(c: Content): (r: Option<i64>)
    ensures r.Some? <==> FitsI64(c)
    ensures r.Some? ==> r.value == IntValue(ResolveInner(c)).value
  {
    match ResolveInner(c)
    case U8(v) => Option<i64>.Some(v)
    case U16(v) => Option<i64>.Some(v)
    case U32(v) => Option<i64>.Some(v)
    case U64(v) => var rv := CastI64(v); if rv == v then Option<i64>.Some(rv) else Option<i64>.None
    case U128(v) => var rv := CastI64(v); if rv == v then Option<i64>.Some(rv) else Option<i64>.None
    case I8(v) => Option<i64>.Some(v)
    case I16(v) => Option<i64>.Some(v)
    case I32(v) => Option<i64>.Some(v)
    case I64(v) => Option<i64>.Some(v)
    case I128(v) => var rv := CastI64(v); if rv == v then Option<i64>.Some(rv) else Option<i64>.None
    case _ => Option<i64>.None
  }

  /// `as_i64` as written and with the signed check agree on every value
  /// that is not negative: the two differ only where the written one
  /// wraps a large unsigned integer to a negative one.
  lemma AsI64Agrees(c: Content)
    ensures AsI64(c).Some? ==> AsI64AsWritten(c) == AsI64(c)
    ensures AsI64AsWritten(c).Some? && AsI64AsWritten(c).value >= 0 ==> AsI64(c) == AsI64AsWritten(c)
  {
    var r := ResolveInner(c);
    if r.U64? {
      UnsignedAgrees(r.n64, TWO_64);
    } else if r.U128? {
      UnsignedAgrees(r.n128, TWO_128);
    } else {
      SignedAgrees(c);
    }
  }

  /// An unsigned value that `as_i64` as written accepts with a result that
  /// is not negative is below 2^63, where both readings give it back.
  lemma UnsignedAgrees(v: int, m: int)
    requires 0 <= v < m && (m == TWO_64 || m == TWO_128)
    ensures CastI64(v) == v ==> CastI64(v) % m == v
    ensures CastI64(v) % m == v && CastI64(v) >= 0 ==> CastI64(v) == v
  {
    SmallMod(v, m);
    var k := CastI64(v);
    if k >= 0 {
      SmallMod(k, m);
    }
  }

  /// Every kind but `U64` and `U128` is read the same way by both.
  lemma SignedAgrees(c: Content)
    requires !ResolveInner(c).U64? && !ResolveInner(c).U128?
    ensures AsI64(c) == AsI64AsWritten(c)
  {
  }

  /// `u128::from` / `i128::from` under an `Option`.
  function WidenU64(o: Option<u64>): (r: Option<u128>)
    ensures r.Some? <==> o.Some?
    ensures r.Some? ==> r.value == o.value
  {
    match o
    case None => Option.None
    case Some(v) => Option.Some(v)
  }

  function WidenI64(o: Option<i64>): (r: Option<i128>)
    ensures r.Some? <==> o.Some?
    ensures r.Some? ==> r.value == o.value
  {
    match o
    case None => Option.None
    case Some(v) => Option.Some(v)
  }

  /// `Content::as_u128`: the value of an integer that fits in `u128`.
  function AsU128(c: Content): (r: Option<u128>)
    ensures r.Some? <==> FitsU128(c)
    ensures r.Some? ==> r.value == IntValue(ResolveInner(c)).value
  {
    match ResolveInner(c)
    case U128(v) => Option<u128>.Some(v)
    case I128(v) => if v >= 0 then Option<u128>.Some(v) else WidenU64(AsU64(c))
    case _ => WidenU64(AsU64(c))
  }

  /// `Content::as_i128` as written: a `U128` is cast to `i128` and checked
  /// by casting back to `u128`, which always succeeds.
  function AsI128AsWritten(c: Content): Option<i128>
  {
    match ResolveInner(c)
    case U128(v) => var rv := CastI128(v); if CastU128(rv) == v then Option<i128>.Some(rv) else Option<i128>.None
    case I128(v) => Option<i128>.Some(v)
    case _ => WidenI64(AsI64AsWritten(c))
  }

  /// The largest `u128` is read back as -1.
  lemma AsI128AsWrittenWrapsU128()
    ensures AsI128AsWritten(U128(TWO_128 - 1)) == Option.Some(-1)
    ensures !FitsI128(U128(TWO_128 - 1))
  {
    assert CastI128(TWO_128 - 1) == -1;
    assert CastU128(-1) == TWO_128 - 1;
  }

  /// `Content::as_i128` with the signed round trip, and with `U64` taken
  /// directly instead of through `as_i64`: the value of an integer that fits
  /// in `i128`.
  function AsI128(c: Content): (r: Option<i128>)
    ensures r.Some? <==> FitsI128(c)
    ensures r.Some? ==> r.value == IntValue(ResolveInner(c)).value
  {
    match ResolveInner(c)
    case U128(v) => var rv := CastI128(v); if rv == v then Option<i128>.Some(rv) else Option<i128>.None
    case I128(v) => Option<i128>.Some(v)
    case U64(v) => Option<i128>.Some(v)
    case _ => WidenI64(AsI64(c))
  }

  /// Number of nodes of a tree: the measure that bounds `walk`.
  function Size(c: Content): (n: nat)
    ensures n >= 1
  {
    match c
    case Some(v) => 1 + Size(v)
    case NewtypeStruct(_, v) => 1 + Size(v)
    case NewtypeVariant(_, _, _, v) => 1 + Size(v)
    case Seq(es) => 1 + SizeSeq(es)
    case Tuple(es) => 1 + SizeSeq(es)
    case TupleStruct(_, es) => 1 + SizeSeq(es)
    case TupleVariant(_, _, _, es) => 1 + SizeSeq(es)
    case Map(es) => 1 + SizeEntries(es)
    case Struct(_, fs) => 1 + SizeFields(fs)
    case StructVariant(_, _, _, fs) => 1 + SizeFields(fs)
    case _ => 1
  }

  function SizeSeq(es: seq<Content>): nat
  {
    if es == [] then 0 else Size(es[0]) + SizeSeq(es[1..])
  }

  function SizeEntries(es: seq<(Content, Content)>): nat
  {
    if es == [] then 0
    else
      var e := es[0];
      assert e.0 < e && e.1 < e;
      Size(e.0) + Size(e.1) + SizeEntries(es[1..])
  }

  function SizeFields(fs: seq<(string, Content)>): nat
  {
    if fs == [] then 0
    else
      var f := fs[0];
      assert f.1 < f;
      Size(f.1) + SizeFields(fs[1..])
  }

  /// The size of a map node.
  lemma SizeOfMap(es: seq<(Content, Content)>)
    ensures Size(Map(es)) == 1 + SizeEntries(es)
  {
  }

  /// A visitor in the sense of `walk`: given the caller's state and a node
  /// it returns the new state, the node as the visitor left it, and whether
  /// to descend into that node's children.  The visitor may rewrite a node
  /// but not grow it.
  ghost predicate NonGrowing<S(!new)>(visit: (S, Content) -> (S, Content, bool))
  {
    forall s: S, x: Content {:trigger visit(s, x)} :: Size(visit(s, x).1) <= Size(x)
  }

  /// `Content::walk`: visits the node, then, only when the visitor says
  /// so, the children of the visited node from first to last, a map entry's
  /// key before its value.
  function Walk<S(!new)>(st: S, c: Content, visit: (S, Content) -> (S, Content, bool)): (S, Content)
    requires NonGrowing(visit)
    decreases Size(c), 0
  {
    var v := visit(st, c);
    var st1, c1, go := v.0, v.1, v.2;
    if !go then (st1, c1)
    else
      match c1
      case Some(x) => var r := Walk(st1, x, visit); (r.0, Content.Some(r.1))
      case NewtypeStruct(n, x) => var r := Walk(st1, x, visit); (r.0, NewtypeStruct(n, r.1))
      case NewtypeVariant(n, i, vn, x) => var r := Walk(st1, x, visit); (r.0, NewtypeVariant(n, i, vn, r.1))
      case Seq(es) => var r := WalkSeq(st1, es, visit); (r.0, Seq(r.1))
      case Tuple(es) => var r := WalkSeq(st1, es, visit); (r.0, Tuple(r.1))
      case TupleStruct(n, es) => var r := WalkSeq(st1, es, visit); (r.0, TupleStruct(n, r.1))
      case TupleVariant(n, i, vn, es) => var r := WalkSeq(st1, es, visit); (r.0, TupleVariant(n, i, vn, r.1))
      case Map(es) => var r := WalkEntries(st1, es, visit); (r.0, Map(r.1))
      case Struct(n, fs) => var r := WalkFields(st1, fs, visit); (r.0, Struct(n, r.1))
      case StructVariant(n, i, vn, fs) => var r := WalkFields(st1, fs, visit); (r.0, StructVariant(n, i, vn, r.1))
      case _ => (st1, c1)
  }

  function WalkSeq<S(!new)>(st: S, es: seq<Content>, visit: (S, Content) -> (S, Content, bool)): (S, seq<Content>)
    requires NonGrowing(visit)
    decreases SizeSeq(es), 1
  {
    if es == [] then (st, [])
    else
      var h := Walk(st, es[0], visit);
      var t := WalkSeq(h.0, es[1..], visit);
      (t.0, [h.1] + t.1)
  }

  function WalkEntries<S(!new)>(st: S, es: seq<(Content, Content)>, visit: (S, Content) -> (S, Content, bool)): (S, seq<(Content, Content)>)
    requires NonGrowing(visit)
    decreases SizeEntries(es), 1
  {
    if es == [] then (st, [])
    else
      var k := Walk(st, es[0].0, visit);
      var v := Walk(k.0, es[0].1, visit);
      var t := WalkEntries(v.0, es[1..], visit);
      (t.0, [(k.1, v.1)] + t.1)
  }

  function WalkFields<S(!new)>(st: S, fs: seq<(string, Content)>, visit: (S, Content) -> (S, Content, bool)): (S, seq<(string, Content)>)
    requires NonGrowing(visit)
    decreases SizeFields(fs), 1
  {
    if fs == [] then (st, [])
    else
      var v := Walk(st, fs[0].1, visit);
      var t := WalkFields(v.0, fs[1..], visit);
      (t.0, [(fs[0].0, v.1)] + t.1)
  }

  /// One step of `walk` on a map node whose visitor descends.
  lemma WalkMapNode<S(!new)>(st: S, c: Content, visit: (S, Content) -> (S, Content, bool))
    requires NonGrowing(visit)
    requires visit(st, c).2 && visit(st, c).1.Map?
    ensures Walk(st, c, visit) ==
      var r := WalkEntries(visit(st, c).0, visit(st, c).1.entries, visit); (r.0, Map(r.1))
  {
  }

  /// The nodes of a tree in the order `walk` reaches them when every node
  /// is descended into: the node, then its children's orders one after the
  /// other, a map entry's key before its value.
  function Preorder(c: Content): seq<Content>
  {
    [c] + match c
      case Some(x) => Preorder(x)
      case NewtypeStruct(_, x) => Preorder(x)
      case NewtypeVariant(_, _, _, x) => Preorder(x)
      case Seq(es) => PreorderSeq(es)
      case Tuple(es) => PreorderSeq(es)
      case TupleStruct(_, es) => PreorderSeq(es)
      case TupleVariant(_, _, _, es) => PreorderSeq(es)
      case Map(es) => PreorderEntries(es)
      case Struct(_, fs) => PreorderFields(fs)
      case StructVariant(_, _, _, fs) => PreorderFields(fs)
      case _ => []
  }

  function PreorderSeq(es: seq<Content>): seq<Content>
  {
    if es == [] then [] else Preorder(es[0]) + PreorderSeq(es[1..])
  }

  function PreorderEntries(es: seq<(Content, Content)>): seq<Content>
  {
    if es == [] then []
    else
      var e := es[0];
      assert e.0 < e && e.1 < e;
      Preorder(e.0) + Preorder(e.1) + PreorderEntries(es[1..])
  }

  function PreorderFields(fs: seq<(string, Content)>): seq<Content>
  {
    if fs == [] then []
    else
      var f := fs[0];
      assert f.1 < f;
      Preorder(f.1) + PreorderFields(fs[1..])
  }

  /// Folds an observer over nodes in order.
  function FoldNodes<S>(f: (S, Content) -> S, st: S, ns: seq<Content>): S
  {
    if ns == [] then st else FoldNodes(f, f(st, ns[0]), ns[1..])
  }

  lemma FoldNodesAppend<S>(f: (S, Content) -> S, st: S, a: seq<Content>, b: seq<Content>)
    ensures FoldNodes(f, st, a + b) == FoldNodes(f, FoldNodes(f, st, a), b)
  {
    if a != [] {
      calc {
        FoldNodes(f, st, a + b);
        { assert (a + b)[0] == a[0]; assert (a + b)[1..] == a[1..] + b; }
        FoldNodes(f, f(st, a[0]), a[1..] + b);
        { FoldNodesAppend(f, f(st, a[0]), a[1..], b); }
        FoldNodes(f, FoldNodes(f, f(st, a[0]), a[1..]), b);
      }
    } else {
      assert a + b == b;
    }
  }

  /// The order of visits: a visitor that only observes, and always
  /// descends, leaves the tree unchanged and sees every node in `Preorder`.
  lemma {:induction false} WalkObserverOrder<S(!new)>(f: (S, Content) -> S, st: S, c: Content, visit: (S, Content) -> (S, Content, bool))
    requires forall s: S, x: Content {:trigger visit(s, x)} :: visit(s, x) == (f(s, x), x, true)
    ensures NonGrowing(visit)
    ensures Walk(st, c, visit) == (FoldNodes(f, st, Preorder(c)), c)
    decreases Size(c), 0
  {
    var st1 := f(st, c);
    assert FoldNodes(f, st, [c]) == st1;
    match c
    case Some(x) =>
      WalkObserverOrder(f, st1, x, visit); FoldNodesAppend(f, st, [c], Preorder(x));
    case NewtypeStruct(_, x) =>
      WalkObserverOrder(f, st1, x, visit); FoldNodesAppend(f, st, [c], Preorder(x));
    case NewtypeVariant(_, _, _, x) =>
      WalkObserverOrder(f, st1, x, visit); FoldNodesAppend(f, st, [c], Preorder(x));
    case Seq(es) =>
      WalkSeqObserverOrder(f, st1, es, visit); FoldNodesAppend(f, st, [c], PreorderSeq(es));
    case Tuple(es) =>
      WalkSeqObserverOrder(f, st1, es, visit); FoldNodesAppend(f, st, [c], PreorderSeq(es));
    case TupleStruct(_, es) =>
      WalkSeqObserverOrder(f, st1, es, visit); FoldNodesAppend(f, st, [c], PreorderSeq(es));
    case TupleVariant(_, _, _, es) =>
      WalkSeqObserverOrder(f, st1, es, visit); FoldNodesAppend(f, st, [c], PreorderSeq(es));
    case Map(es) =>
      WalkEntriesObserverOrder(f, st1, es, visit); FoldNodesAppend(f, st, [c], PreorderEntries(es));
    case Struct(_, fs) =>
      WalkFieldsObserverOrder(f, st1, fs, visit); FoldNodesAppend(f, st, [c], PreorderFields(fs));
    case StructVariant(_, _, _, fs) =>
      WalkFieldsObserverOrder(f, st1, fs, visit); FoldNodesAppend(f, st, [c], PreorderFields(fs));
    case _ =>
  }

  lemma {:induction false} WalkSeqObserverOrder<S(!new)>(f: (S, Content) -> S, st: S, es: seq<Content>, visit: (S, Content) -> (S, Content, bool))
    requires forall s: S, x: Content {:trigger visit(s, x)} :: visit(s, x) == (f(s, x), x, true)
    ensures NonGrowing(visit)
    ensures WalkSeq(st, es, visit) == (FoldNodes(f, st, PreorderSeq(es)), es)
    decreases SizeSeq(es), 1
  {
    if es != [] {
      WalkObserverOrder(f, st, es[0], visit);
      var st1 := FoldNodes(f, st, Preorder(es[0]));
      WalkSeqObserverOrder(f, st1, es[1..], visit);
      FoldNodesAppend(f, st, Preorder(es[0]), PreorderSeq(es[1..]));
      assert es == [es[0]] + es[1..];
    }
  }

  lemma {:induction false} WalkEntriesObserverOrder<S(!new)>(f: (S, Content) -> S, st: S, es: seq<(Content, Content)>, visit: (S, Content) -> (S, Content, bool))
    requires forall s: S, x: Content {:trigger visit(s, x)} :: visit(s, x) == (f(s, x), x, true)
    ensures NonGrowing(visit)
    ensures WalkEntries(st, es, visit) == (FoldNodes(f, st, PreorderEntries(es)), es)
    decreases SizeEntries(es), 1
  {
    if es != [] {
      WalkObserverOrder(f, st, es[0].0, visit);
      var st1 := FoldNodes(f, st, Preorder(es[0].0));
      WalkObserverOrder(f, st1, es[0].1, visit);
      var st2 := FoldNodes(f, st1, Preorder(es[0].1));
      WalkEntriesObserverOrder(f, st2, es[1..], visit);
      FoldNodesAppend(f, st, Preorder(es[0].0), Preorder(es[0].1));
      FoldNodesAppend(f, st, Preorder(es[0].0) + Preorder(es[0].1), PreorderEntries(es[1..]));
      assert es == [(es[0].0, es[0].1)] + es[1..];
    }
  }

  lemma {:induction false} WalkFieldsObserverOrder<S(!new)>(f: (S, Content) -> S, st: S, fs: seq<(string, Content)>, visit: (S, Content) -> (S, Content, bool))
    requires forall s: S, x: Content {:trigger visit(s, x)} :: visit(s, x) == (f(s, x), x, true)
    ensures NonGrowing(visit)
    ensures WalkFields(st, fs, visit) == (FoldNodes(f, st, PreorderFields(fs)), fs)
    decreases SizeFields(fs), 1
  {
    if fs != [] {
      WalkObserverOrder(f, st, fs[0].1, visit);
      var st1 := FoldNodes(f, st, Preorder(fs[0].1));
      WalkFieldsObserverOrder(f, st1, fs[1..], visit);
      FoldNodesAppend(f, st, Preorder(fs[0].1), PreorderFields(fs[1..]));
      assert fs == [(fs[0].0, fs[0].1)] + fs[1..];
    }
  }
}
