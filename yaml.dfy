// YAML values as the YAML loader hands them over and the emitter takes
// them, and insta's conversions between them and `Content`
// (insta/src/content/yaml/mod.rs).  The same conversions appear, in the
// older generation, in src/content/yaml.rs and src/content/formats.rs;
// `LegacyYaml` holds what differs there.
module YamlFormat {
  import opened Wrappers
  import opened Strs
  import C = Contents
  import P = Paths

  /// A YAML node.  A `Real` keeps the text the loader read; a `Hash` is a
  /// list of key/value pairs in document order.  `Alias` exists only in
  /// the older loader's node type.
  datatype Yaml =
    | Real(text: string)
    | Integer(i: C.i64)
    | String(s: string)
    | Boolean(b: bool)
    | Array(items: seq<Yaml>)
    | Hash(pairs: seq<(Yaml, Yaml)>)
    | Alias(id: nat)
    | Null
    | BadValue

  /// The error `parse_str` reports, naming the file it read.
  datatype ParseError = FailedParsingYaml(filename: P.Path)

  // ---------------------------------------------------------------------
  // Loading

  /// `(blobs.pop(), blobs.pop())`: the last document and the one before it.
  function PopTwo(blobs: seq<Yaml>): (Option<Yaml>, Option<Yaml>)
  {
    if |blobs| == 0 then (Option.None, Option.None)
    else if |blobs| == 1 then (Option.Some(blobs[0]), Option.None)
    else (Option.Some(blobs[|blobs| - 1]), Option.Some(blobs[|blobs| - 2]))
  }

  /// The document of a load that succeeded with `(Some(blob), None)`;
  /// `docs` is `None` when the loader reported a scan error.
  function SingleDocument(docs: Option<seq<Yaml>>): (r: Option<Yaml>)
    ensures r.Some? <==> docs.Some? && |docs.value| == 1
    ensures r.Some? ==> docs.value == [r.value]
  {
    match docs
    case None => Option.None
    case Some(blobs) =>
      match PopTwo(blobs)
      case (Some(blob), None) => Option.Some(blob)
      case _ => Option.None
  }

  /// No `BadValue` and no `Alias` anywhere in the tree.
  predicate Sound(y: Yaml)
    decreases y
  {
    match y
    case Array(ys) => SoundItems(ys)
    case Hash(ps) => SoundPairs(ps)
    case Alias(_) => false
    case BadValue => false
    case _ => true
  }

  predicate SoundItems(ys: seq<Yaml>)
    decreases ys, 0
  {
    ys == [] || (Sound(ys[0]) && SoundItems(ys[1..]))
  }

  predicate SoundPairs(ps: seq<(Yaml, Yaml)>)
    decreases ps, 0
  {
    if ps == [] then true
    else
      var p := ps[0];
      assert p.0 < p && p.1 < p;
      Sound(p.0) && Sound(p.1) && SoundPairs(ps[1..])
  }

  /// `from_yaml_blob`: `None` is the `FailedParsingYaml` error, reached
  /// exactly when the tree holds a `BadValue` (or, for the older loader, an
  /// `Alias`).  A `Real` becomes the `F64` written by its text.
  function FromYamlBlob(y: Yaml): (r: Option<C.Content>)
    ensures r.Some? <==> Sound(y)
    decreases y
  {
    match y
    case Null => Option.Some(C.Content.None)
    case Boolean(b) => Option.Some(C.Bool(b))
    case Integer(n) => Option.Some(C.I64(n))
    case Real(t) => Option.Some(C.F64(C.Float(t)))
    case String(s) => Option.Some(C.String(s))
    case Array(ys) =>
      (match FromItems(ys)
       case None => Option.None
       case Some(cs) => Option.Some(C.Seq(cs)))
    case Hash(ps) =>
      (match FromPairs(ps)
       case None => Option.None
       case Some(es) => Option.Some(C.Map(es)))
    case Alias(_) => Option.None
    case BadValue => Option.None
  }

  function FromItems(ys: seq<Yaml>): (r: Option<seq<C.Content>>)
    ensures r.Some? <==> SoundItems(ys)
    ensures r.Some? ==> |r.value| == |ys|
    decreases ys, 1
  {
    if ys == [] then Option.Some([])
    else
      match FromYamlBlob(ys[0])
      case None => Option.None
      case Some(c) =>
        match FromItems(ys[1..])
        case None => Option.None
        case Some(cs) => Option.Some([c] + cs)
  }

  function FromPairs(ps: seq<(Yaml, Yaml)>): (r: Option<seq<(C.Content, C.Content)>>)
    ensures r.Some? <==> SoundPairs(ps)
    ensures r.Some? ==> |r.value| == |ps|
    decreases ps, 1
  {
    if ps == [] then Option.Some([])
    else
      var p := ps[0];
      assert p.0 < p && p.1 < p;
      match FromYamlBlob(p.0)
      case None => Option.None
      case Some(k) =>
        match FromYamlBlob(p.1)
        case None => Option.None
        case Some(v) =>
          match FromPairs(ps[1..])
          case None => Option.None
          case Some(es) => Option.Some([(k, v)] + es)
  }

  /// `parse_str`: the loaded text must hold exactly one document, and that
  /// document must convert.
  function ParseStr(docs: Option<seq<Yaml>>, filename: P.Path): (r: Result<C.Content, ParseError>)
    ensures r.Ok? <==> docs.Some? && |docs.value| == 1 && Sound(docs.value[0])
    ensures r.Ok? ==> Option.Some(r.value) == FromYamlBlob(docs.value[0])
    ensures r.Err? ==> r.error == FailedParsingYaml(filename)
  {
    match SingleDocument(docs)
    case None => Err(FailedParsingYaml(filename))
    case Some(blob) =>
      match FromYamlBlob(blob)
      case None => Err(FailedParsingYaml(filename))
      case Some(c) => Ok(c)
  }

  // ---------------------------------------------------------------------
  // Dumping

  /// `to_yaml_value`: integers that fit `i64` by type become `Integer`,
  /// `u64`, `u128` and `i128` become a `Real` holding their decimal text;
  /// unit-like values become `Null`; `Some` and newtypes are transparent;
  /// every enum variant with data becomes a one-pair `Hash` keyed by the
  /// variant name; structs become a `Hash` with string keys in field order.
  function ToYamlValue(c: C.Content): (r: Yaml)
    ensures Sound(r)
    decreases c
  {
    match c
    case Bool(b) => Boolean(b)
    case U8(n) => Integer(n)
    case U16(n) => Integer(n)
    case U32(n) => Integer(n)
    case U64(n) => Real(NatToString(n))
    case U128(n) => Real(NatToString(n))
    case I8(n) => Integer(n)
    case I16(n) => Integer(n)
    case I32(n) => Integer(n)
    case I64(n) => Integer(n)
    case I128(n) => Real(IntToString(n))
    case F32(f) => Real(f.text)
    case F64(f) => Real(f.text)
    case Char(ch) => String([ch])
    case String(s) => String(s)
    case Bytes(bs) => Array(ByteItems(bs))
    case None => Null
    case Unit => Null
    case UnitStruct(_) => Null
    case Some(x) => ToYamlValue(x)
    case UnitVariant(_, _, v) => String(v)
    case NewtypeStruct(_, x) => ToYamlValue(x)
    case NewtypeVariant(_, _, v, x) => Hash([(String(v), ToYamlValue(x))])
    case Seq(es) => Array(ToItems(es))
    case Tuple(es) => Array(ToItems(es))
    case TupleStruct(_, es) => Array(ToItems(es))
    case TupleVariant(_, _, v, es) => Hash([(String(v), Array(ToItems(es)))])
    case Map(es) => Hash(ToEntries(es))
    case Struct(_, fs) => Hash(ToFields(fs))
    case StructVariant(_, _, v, fs) => Hash([(String(v), Hash(ToFields(fs)))])
  }

  function ByteItems(bs: seq<C.u8>): (r: seq<Yaml>)
    ensures |r| == |bs|
    ensures SoundItems(r)
  {
    if bs == [] then [] else [Integer(bs[0])] + ByteItems(bs[1..])
  }

  function ToItems(es: seq<C.Content>): (r: seq<Yaml>)
    ensures |r| == |es|
    ensures SoundItems(r)
    decreases es, 0
  {
    if es == [] then [] else [ToYamlValue(es[0])] + ToItems(es[1..])
  }

  function ToEntries(es: seq<(C.Content, C.Content)>): (r: seq<(Yaml, Yaml)>)
    ensures |r| == |es|
    ensures SoundPairs(r)
    decreases es, 0
  {
    if es == [] then []
    else
      var e := es[0];
      assert e.0 < e && e.1 < e;
      var rest := ToEntries(es[1..]);
      var p := (ToYamlValue(e.0), ToYamlValue(e.1));
      assert ([p] + rest)[1..] == rest;
      [p] + rest
  }

  function ToFields(fs: seq<(string, C.Content)>): (r: seq<(Yaml, Yaml)>)
    ensures |r| == |fs|
    ensures SoundPairs(r)
    ensures forall i :: 0 <= i < |r| ==> r[i].0 == String(fs[i].0)
    decreases fs, 0
  {
    if fs == [] then []
    else
      var f := fs[0];
      assert f.1 < f;
      var rest := ToFields(fs[1..]);
      var p := (String(f.0), ToYamlValue(f.1));
      assert ([p] + rest)[1..] == rest;
      [p] + rest
  }

  /// `to_string`: the emitter's text (`emit`, outside this model) with a
  /// newline appended only when it does not already end in one.
  function ToString(emit: Yaml -> string, c: C.Content): (r: string)
    ensures EndsWith(r, "\n")
    ensures emit(ToYamlValue(c)) <= r
    ensures r == emit(ToYamlValue(c)) <==> EndsWith(emit(ToYamlValue(c)), "\n")
    ensures |r| <= |emit(ToYamlValue(c))| + 1
  {
    var buf := emit(ToYamlValue(c));
    if EndsWith(buf, "\n") then buf else buf + "\n"
  }

  // ---------------------------------------------------------------------
  // Round trips

  /// No `Real` anywhere in the tree.  A `Real` reloads through Rust's
  /// `f64` parser and is dumped again with `to_string`, which this model
  /// does not define, so its text need not come back as it was.
  predicate NoReal(y: Yaml)
    decreases y
  {
    match y
    case Real(_) => false
    case Array(ys) => NoRealItems(ys)
    case Hash(ps) => NoRealPairs(ps)
    case _ => true
  }

  predicate NoRealItems(ys: seq<Yaml>)
    decreases ys, 0
  {
    ys == [] || (NoReal(ys[0]) && NoRealItems(ys[1..]))
  }

  predicate NoRealPairs(ps: seq<(Yaml, Yaml)>)
    decreases ps, 0
  {
    if ps == [] then true
    else
      var p := ps[0];
      assert p.0 < p && p.1 < p;
      NoReal(p.0) && NoReal(p.1) && NoRealPairs(ps[1..])
  }

  /// Converting a loadable tree without reals to `Content` and back gives
  /// the same tree.
  lemma {:induction false} YamlRoundTrip(y: Yaml)
    requires Sound(y) && NoReal(y)
    ensures ToYamlValue(FromYamlBlob(y).value) == y
    decreases y
  {
    match y
    case Array(ys) =>
      ItemsRoundTrip(ys);
      assert FromYamlBlob(y).value == C.Seq(FromItems(ys).value);
    case Hash(ps) =>
      PairsRoundTrip(ps);
      assert FromYamlBlob(y).value == C.Map(FromPairs(ps).value);
    case _ =>
  }

  lemma {:induction false} ItemsRoundTrip(ys: seq<Yaml>)
    requires SoundItems(ys) && NoRealItems(ys)
    ensures ToItems(FromItems(ys).value) == ys
    decreases ys, 1
  {
    if ys != [] {
      YamlRoundTrip(ys[0]);
      ItemsRoundTrip(ys[1..]);
      var cs := FromItems(ys).value;
      assert cs == [FromYamlBlob(ys[0]).value] + FromItems(ys[1..]).value;
      assert cs[1..] == FromItems(ys[1..]).value;
    }
  }

  lemma {:induction false} PairsRoundTrip(ps: seq<(Yaml, Yaml)>)
    requires SoundPairs(ps) && NoRealPairs(ps)
    ensures ToEntries(FromPairs(ps).value) == ps
    decreases ps, 1
  {
    if ps != [] {
      var p := ps[0];
      assert p.0 < p && p.1 < p;
      YamlRoundTrip(p.0);
      YamlRoundTrip(p.1);
      PairsRoundTrip(ps[1..]);
      var es := FromPairs(ps).value;
      assert es == [(FromYamlBlob(p.0).value, FromYamlBlob(p.1).value)] + FromPairs(ps[1..]).value;
      assert es[1..] == FromPairs(ps[1..]).value;
    }
  }

  /// What a dumped value without floats or integers beyond `i64` reads
  /// back as once more: serialising the content a dump reloads to gives
  /// the same YAML tree again, so such a snapshot written, read and written
  /// again is unchanged.
  lemma ReloadIsStable(c: C.Content)
    requires NoReal(ToYamlValue(c))
    ensures FromYamlBlob(ToYamlValue(c)).Some?
    ensures ToYamlValue(FromYamlBlob(ToYamlValue(c)).value) == ToYamlValue(c)
  {
    YamlRoundTrip(ToYamlValue(c));
  }

  /// The values YAML stores as they are: booleans, `i64`, `f64`, strings,
  /// `None`, sequences and maps thereof.
  predicate Native(c: C.Content)
    decreases c
  {
    match c
    case Bool(_) => true
    case I64(_) => true
    case F64(_) => true
    case String(_) => true
    case None => true
    case Seq(es) => NativeItems(es)
    case Map(es) => NativeEntries(es)
    case _ => false
  }

  predicate NativeItems(es: seq<C.Content>)
    decreases es, 0
  {
    es == [] || (Native(es[0]) && NativeItems(es[1..]))
  }

  predicate NativeEntries(es: seq<(C.Content, C.Content)>)
    decreases es, 0
  {
    if es == [] then true
    else
      var e := es[0];
      assert e.0 < e && e.1 < e;
      Native(e.0) && Native(e.1) && NativeEntries(es[1..])
  }

  /// Native content survives a dump and reload unchanged.
  lemma {:induction false} NativeRoundTrip(c: C.Content)
    requires Native(c)
    ensures FromYamlBlob(ToYamlValue(c)) == Option.Some(c)
    decreases c
  {
    match c
    case Seq(es) => NativeItemsRoundTrip(es);
    case Map(es) => NativeEntriesRoundTrip(es);
    case _ =>
  }

  lemma {:induction false} NativeItemsRoundTrip(es: seq<C.Content>)
    requires NativeItems(es)
    ensures FromItems(ToItems(es)) == Option.Some(es)
    decreases es, 1
  {
    if es != [] {
      NativeRoundTrip(es[0]);
      NativeItemsRoundTrip(es[1..]);
      var ys := ToItems(es);
      assert ys[0] == ToYamlValue(es[0]) && ys[1..] == ToItems(es[1..]);
      assert es == [es[0]] + es[1..];
    }
  }

  lemma {:induction false} NativeEntriesRoundTrip(es: seq<(C.Content, C.Content)>)
    requires NativeEntries(es)
    ensures FromPairs(ToEntries(es)) == Option.Some(es)
    decreases es, 1
  {
    if es != [] {
      var e := es[0];
      assert e.0 < e && e.1 < e;
      NativeRoundTrip(e.0);
      NativeRoundTrip(e.1);
      NativeEntriesRoundTrip(es[1..]);
      var ps := ToEntries(es);
      assert ps[0] == (ToYamlValue(e.0), ToYamlValue(e.1)) && ps[1..] == ToEntries(es[1..]);
      assert es == [e] + es[1..];
    }
  }

  // ---------------------------------------------------------------------
  // Values through a dump and reload

  /// What a value reads back as after a YAML dump.
  function Reloaded(c: C.Content): C.Content
  {
    FromYamlBlob(ToYamlValue(c)).value
  }

  /// The entries a dumped struct reloads as: string keys, reloaded values.
  function ReloadedEntries(fs: seq<(string, C.Content)>): seq<(C.Content, C.Content)>
  {
    if fs == [] then [] else [(C.String(fs[0].0), Reloaded(fs[0].1))] + ReloadedEntries(fs[1..])
  }

  lemma {:induction false} FieldsReload(fs: seq<(string, C.Content)>)
    ensures FromPairs(ToFields(fs)) == Option.Some(ReloadedEntries(fs))
  {
    if fs != [] {
      var f := fs[0];
      var ps := ToFields(fs);
      assert ps[0] == (String(f.0), ToYamlValue(f.1)) && ps[1..] == ToFields(fs[1..]);
      FieldsReload(fs[1..]);
    }
  }

  /// A struct dumped to YAML reloads as the map of its reloaded entries.
  lemma ReloadedStructIsMap(name: string, fs: seq<(string, C.Content)>)
    ensures Reloaded(C.Struct(name, fs)) == C.Map(ReloadedEntries(fs))
  {
    FieldsReload(fs);
    StructToYaml(name, fs);
    HashFromYaml(ToFields(fs));
  }

  lemma StructToYaml(name: string, fs: seq<(string, C.Content)>)
    ensures ToYamlValue(C.Struct(name, fs)) == Hash(ToFields(fs))
  {
  }

  lemma HashFromYaml(ps: seq<(Yaml, Yaml)>)
    ensures FromPairs(ps).Some? ==> FromYamlBlob(Hash(ps)) == Option.Some(C.Map(FromPairs(ps).value))
  {
  }

  /// A `u64` does not come back as itself: it is dumped as a `Real` and
  /// reloads as an `f64`.
  lemma WideIntegerReloadsAsFloat(n: C.u64)
    ensures FromYamlBlob(ToYamlValue(C.U64(n))) == Option.Some(C.F64(C.Float(NatToString(n))))
    ensures !Native(C.U64(n))
  {
  }
}
