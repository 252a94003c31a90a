// The older generation's untyped value (src/parse/mod.rs): the
// `Value` tree its metadata parser works on, its conversions from and to
// YAML nodes, and the `pop_*` helpers that take one field out of an
// object and check its type.
module LegacyParse {
  import opened Wrappers
  import C = Contents
  import Y = YamlFormat
  import OHM = OrderedHashMaps

  datatype Number = Int(n: C.i64) | Float(f: C.Float)

  /// `Value`; an `Obj` lists its fields in order, each name once.
  datatype Value =
    | Null
    | Bool(b: bool)
    | Number(num: Number)
    | String(s: string)
    | Sequence(items: seq<Value>)
    | Obj(fields: seq<(string, Value)>)

  /// src/parse/error.rs.
  datatype Error =
    | FailedParsingYaml
    | YamlIsInvalidJson
    | UnexpectedDataType
    | NumberIsInvalidU32
    | MissingField

  // ---------------------------------------------------------------------
  // From and to YAML

  /// Every `Hash` in the tree is keyed by strings only.
  predicate StringKeyed(y: Y.Yaml)
    decreases y
  {
    match y
    case Array(ys) => KeyedItems(ys)
    case Hash(ps) => KeyedPairs(ps)
    case _ => true
  }

  predicate KeyedItems(ys: seq<Y.Yaml>)
    decreases ys, 0
  {
    ys == [] || (StringKeyed(ys[0]) && KeyedItems(ys[1..]))
  }

  predicate KeyedPairs(ps: seq<(Y.Yaml, Y.Yaml)>)
    decreases ps, 0
  {
    if ps == [] then true
    else
      var p := ps[0];
      assert p.1 < p;
      p.0.String? && StringKeyed(p.1) && KeyedPairs(ps[1..])
  }

  /// `TryFrom<yaml_rust::Yaml> for Value`.  It succeeds exactly on trees
  /// without `BadValue` or `Alias` whose hashes are keyed by strings.  The
  /// first offending node in document order decides the error; when the
  /// tree holds no `BadValue` or `Alias` it can only be `YamlIsInvalidJson`,
  /// and when every key is a string it can only be `FailedParsingYaml`.
  function FromYaml(y: Y.Yaml): (r: Result<Value, Error>)
    ensures r.Ok? <==> Y.Sound(y) && StringKeyed(y)
    ensures r.Err? && Y.Sound(y) ==> r.error == YamlIsInvalidJson
    ensures r.Err? && StringKeyed(y) ==> r.error == FailedParsingYaml
    decreases y
  {
    match y
    case Null => Ok(Null)
    case Boolean(b) => Ok(Bool(b))
    case Integer(n) => Ok(Number(Int(n)))
    case Real(t) => Ok(Number(Float(C.Float(t))))
    case String(s) => Ok(String(s))
    case Array(ys) =>
      (match ItemsFromYaml(ys)
       case Err(e) => Err(e)
       case Ok(vs) => Ok(Sequence(vs)))
    case Hash(ps) =>
      (match PairsFromYaml(ps)
       case Err(e) => Err(e)
       case Ok(fs) => Ok(Obj(fs)))
    case BadValue => Err(FailedParsingYaml)
    case Alias(_) => Err(FailedParsingYaml)
  }

  function ItemsFromYaml(ys: seq<Y.Yaml>): (r: Result<seq<Value>, Error>)
    ensures r.Ok? <==> Y.SoundItems(ys) && KeyedItems(ys)
    ensures r.Err? && Y.SoundItems(ys) ==> r.error == YamlIsInvalidJson
    ensures r.Err? && KeyedItems(ys) ==> r.error == FailedParsingYaml
    decreases ys, 1
  {
    if ys == [] then Ok([])
    else
      match FromYaml(ys[0])
      case Err(e) => Err(e)
      case Ok(v) =>
        match ItemsFromYaml(ys[1..])
        case Err(e) => Err(e)
        case Ok(vs) => Ok([v] + vs)
  }

  function PairsFromYaml(ps: seq<(Y.Yaml, Y.Yaml)>): (r: Result<seq<(string, Value)>, Error>)
    ensures r.Ok? <==> Y.SoundPairs(ps) && KeyedPairs(ps)
    ensures r.Err? && Y.SoundPairs(ps) ==> r.error == YamlIsInvalidJson
    ensures r.Err? && KeyedPairs(ps) ==> r.error == FailedParsingYaml
    decreases ps, 1
  {
    if ps == [] then Ok([])
    else
      var p := ps[0];
      assert p.0 < p && p.1 < p;
      if !p.0.String? then Err(YamlIsInvalidJson)
      else
        match FromYaml(p.1)
        case Err(e) => Err(e)
        case Ok(v) =>
          match PairsFromYaml(ps[1..])
          case Err(e) => Err(e)
          case Ok(fs) => Ok([(p.0.s, v)] + fs)
  }

  /// `From<Value> for yaml_rust::Yaml`: a float is written as its text and
  /// object fields become string keys.
  function ToYaml(v: Value): (r: Y.Yaml)
    ensures Y.Sound(r) && StringKeyed(r)
    decreases v
  {
    match v
    case Null => Y.Null
    case Bool(b) => Y.Boolean(b)
    case Number(Int(n)) => Y.Integer(n)
    case Number(Float(f)) => Y.Real(f.text)
    case String(s) => Y.String(s)
    case Sequence(vs) => Y.Array(ItemsToYaml(vs))
    case Obj(fs) => Y.Hash(FieldsToYaml(fs))
  }

  function ItemsToYaml(vs: seq<Value>): (r: seq<Y.Yaml>)
    ensures |r| == |vs|
    ensures Y.SoundItems(r) && KeyedItems(r)
    decreases vs, 0
  {
    if vs == [] then [] else [ToYaml(vs[0])] + ItemsToYaml(vs[1..])
  }

  function FieldsToYaml(fs: seq<(string, Value)>): (r: seq<(Y.Yaml, Y.Yaml)>)
    ensures |r| == |fs|
    ensures Y.SoundPairs(r) && KeyedPairs(r)
    decreases fs, 0
  {
    if fs == [] then []
    else
      var f := fs[0];
      assert f.1 < f;
      var rest := FieldsToYaml(fs[1..]);
      var p := (Y.String(f.0), ToYaml(f.1));
      assert ([p] + rest)[1..] == rest;
      [p] + rest
  }

  /// Every value survives the trip to YAML and back.
  lemma {:induction false} ValueRoundTrip(v: Value)
    ensures FromYaml(ToYaml(v)) == Ok(v)
    decreases v
  {
    match v
    case Sequence(vs) =>
      ItemsRoundTrip(vs);
    case Obj(fs) =>
      FieldsRoundTrip(fs);
    case _ =>
  }

  lemma {:induction false} ItemsRoundTrip(vs: seq<Value>)
    ensures ItemsFromYaml(ItemsToYaml(vs)) == Ok(vs)
    decreases vs, 1
  {
    if vs != [] {
      ValueRoundTrip(vs[0]);
      ItemsRoundTrip(vs[1..]);
      var ys := ItemsToYaml(vs);
      assert ys[0] == ToYaml(vs[0]) && ys[1..] == ItemsToYaml(vs[1..]);
      assert vs == [vs[0]] + vs[1..];
    }
  }

  lemma {:induction false} FieldsRoundTrip(fs: seq<(string, Value)>)
    ensures PairsFromYaml(FieldsToYaml(fs)) == Ok(fs)
    decreases fs, 1
  {
    if fs != [] {
      var f := fs[0];
      assert f.1 < f;
      ValueRoundTrip(f.1);
      FieldsRoundTrip(fs[1..]);
      var ps := FieldsToYaml(fs);
      assert ps[0] == (Y.String(f.0), ToYaml(f.1)) && ps[1..] == FieldsToYaml(fs[1..]);
      assert fs == [f] + fs[1..];
    }
  }

  /// A tree without reals that converts is the YAML form of the value it
  /// converts to.
  lemma {:induction false} YamlRoundTrip(y: Y.Yaml)
    requires FromYaml(y).Ok? && Y.NoReal(y)
    ensures ToYaml(FromYaml(y).value) == y
    decreases y
  {
    match y
    case Array(ys) =>
      YamlItemsRoundTrip(ys);
      assert FromYaml(y).value == Sequence(ItemsFromYaml(ys).value);
    case Hash(ps) =>
      YamlPairsRoundTrip(ps);
      assert FromYaml(y).value == Obj(PairsFromYaml(ps).value);
    case _ =>
  }

  lemma {:induction false} YamlItemsRoundTrip(ys: seq<Y.Yaml>)
    requires ItemsFromYaml(ys).Ok? && Y.NoRealItems(ys)
    ensures ItemsToYaml(ItemsFromYaml(ys).value) == ys
    decreases ys, 1
  {
    if ys != [] {
      YamlRoundTrip(ys[0]);
      YamlItemsRoundTrip(ys[1..]);
      var vs := ItemsFromYaml(ys).value;
      assert vs == [FromYaml(ys[0]).value] + ItemsFromYaml(ys[1..]).value;
      assert vs[1..] == ItemsFromYaml(ys[1..]).value;
    }
  }

  lemma {:induction false} YamlPairsRoundTrip(ps: seq<(Y.Yaml, Y.Yaml)>)
    requires PairsFromYaml(ps).Ok? && Y.NoRealPairs(ps)
    ensures FieldsToYaml(PairsFromYaml(ps).value) == ps
    decreases ps, 1
  {
    if ps != [] {
      var p := ps[0];
      assert p.0 < p && p.1 < p;
      YamlRoundTrip(p.1);
      YamlPairsRoundTrip(ps[1..]);
      var fs := PairsFromYaml(ps).value;
      assert fs == [(p.0.s, FromYaml(p.1).value)] + PairsFromYaml(ps[1..]).value;
      assert fs[1..] == PairsFromYaml(ps[1..]).value;
    }
  }

  /// `Value::from_yaml`: exactly one document, converted.
  function FromYamlDocuments(docs: Option<seq<Y.Yaml>>): (r: Result<Value, Error>)
    ensures r.Ok? <==> docs.Some? && |docs.value| == 1 && FromYaml(docs.value[0]).Ok?
    ensures docs.Some? && |docs.value| == 1 ==> r == FromYaml(docs.value[0])
    ensures !(docs.Some? && |docs.value| == 1) ==> r == Err(FailedParsingYaml)
  {
    match Y.SingleDocument(docs)
    case None => Err(FailedParsingYaml)
    case Some(raw) => FromYaml(raw)
  }

  /// `Value::as_yaml`: the emitter's text (`emit`, outside this model) and a
  /// newline.
  function AsYaml(emit: Y.Yaml -> string, v: Value): (r: string)
    ensures |r| == |emit(ToYaml(v))| + 1 && emit(ToYaml(v)) <= r
    ensures r[|r| - 1] == '\n'
  {
    emit(ToYaml(v)) + "\n"
  }

  // ---------------------------------------------------------------------
  // Taking fields out of an object

  /// The object a parser holds while it takes fields out of it.
  class ObjFields {
    var entries: map<string, Value>

    /// The object of an `Obj` value; a later field of the same name
    /// replaces an earlier one.
    constructor(fields: seq<(string, Value)>)
      ensures entries == OHM.MapOf(fields)
    {
      entries := OHM.MapOf(fields);
    }

    /// `LinkedHashMap::remove`.
    method Remove(key: string) returns (v: Option<Value>)
      modifies this
      ensures v == Lookup(old(entries), key)
      ensures entries == old(entries) - {key}
    {
      if key in entries {
        v := Option.Some(entries[key]);
      } else {
        v := Option.None;
      }
      entries := entries - {key};
    }
  }

  function Lookup(m: map<string, Value>, key: string): (r: Option<Value>)
    ensures r.Some? <==> key in m
    ensures r.Some? ==> r.value == m[key]
  {
    if key in m then Option.Some(m[key]) else Option.None
  }

  /// What `pop_nullable_str` makes of the removed field.
  function NullableStr(v: Option<Value>): (r: Result<Option<string>, Error>)
    ensures r.Err? <==> v.Some? && !v.value.Null? && !v.value.String?
    ensures r.Err? ==> r.error == UnexpectedDataType
    ensures r.Ok? ==> (r.value.Some? <==> v.Some? && v.value.String?)
    ensures r.Ok? && r.value.Some? ==> v.value.s == r.value.value
  {
    match v
    case None => Ok(Option.None)
    case Some(Null) => Ok(Option.None)
    case Some(String(s)) => Ok(Option.Some(s))
    case Some(_) => Err(UnexpectedDataType)
  }

  /// What `pop_str` makes of the removed field.
  function Str(v: Option<Value>): (r: Result<string, Error>)
    ensures r.Ok? <==> v.Some? && v.value.String?
    ensures r.Ok? ==> r.value == v.value.s
    ensures r.Err? ==> (r.error == MissingField <==> v.None?)
    ensures r.Err? && v.Some? ==> r.error == UnexpectedDataType
  {
    match v
    case None => Err(MissingField)
    case Some(String(s)) => Ok(s)
    case Some(_) => Err(UnexpectedDataType)
  }

  /// `u32::try_from` on an `i64`.
  function U32Of(n: C.i64): (r: Result<C.u32, Error>)
    ensures r.Ok? <==> 0 <= n < C.TWO_32
    ensures r.Ok? ==> r.value == n
    ensures r.Err? ==> r.error == NumberIsInvalidU32
  {
    if 0 <= n < C.TWO_32 then Ok(n) else Err(NumberIsInvalidU32)
  }

  /// What `pop_nullable_u32` makes of the removed field.
  function NullableU32(v: Option<Value>): (r: Result<Option<C.u32>, Error>)
  {
    match v
    case None => Ok(Option.None)
    case Some(Null) => Ok(Option.None)
    case Some(Number(Int(n))) =>
      (match U32Of(n)
       case Err(e) => Err(e)
       case Ok(k) => Ok(Option.Some(k)))
    case Some(Number(_)) => Err(NumberIsInvalidU32)
    case Some(_) => Err(UnexpectedDataType)
  }

  /// What `pop_u32` makes of the removed field.
  function U32(v: Option<Value>): (r: Result<C.u32, Error>)
  {
    match v
    case None => Err(MissingField)
    case Some(Number(Int(n))) => U32Of(n)
    case Some(Number(_)) => Err(NumberIsInvalidU32)
    case Some(_) => Err(UnexpectedDataType)
  }

  /// Both numeric helpers accept exactly the integers of `u32`'s range;
  /// any other number is `NumberIsInvalidU32`; any other value is
  /// `UnexpectedDataType`, except that an absent field is `MissingField`
  /// for `pop_u32`, and an absent or `Null` field is `None` for
  /// `pop_nullable_u32`.
  lemma U32Classification(v: Option<Value>)
    ensures forall k: C.u32 :: U32(v) == Ok(k) <==> v == Option.Some(Number(Int(k)))
    ensures forall k: C.u32 :: NullableU32(v) == Ok(Option.Some(k)) <==> U32(v) == Ok(k)
    ensures NullableU32(v) == Ok(Option.None) <==> v.None? || v == Option.Some(Null)
    ensures U32(v) == Err(NumberIsInvalidU32) <==> v.Some? && v.value.Number? && !U32(v).Ok?
    ensures NullableU32(v) == Err(NumberIsInvalidU32) <==> U32(v) == Err(NumberIsInvalidU32)
    ensures U32(v) == Err(MissingField) <==> v.None?
    ensures U32(v) == Err(UnexpectedDataType) <==> v.Some? && !v.value.Number?
  {
  }

  /// The required helpers accept what the nullable ones accept as `Some`.
  lemma RequiredVersusNullable(v: Option<Value>)
    ensures forall s :: Str(v) == Ok(s) <==> NullableStr(v) == Ok(Option.Some(s))
    ensures NullableStr(v) == Ok(Option.None) <==> v.None? || v == Option.Some(Null)
    ensures v == Option.Some(Null) ==> Str(v) == Err(UnexpectedDataType)
  {
  }

  method PopNullableStr(obj: ObjFields, key: string) returns (r: Result<Option<string>, Error>)
    modifies obj
    ensures obj.entries == old(obj.entries) - {key}
    ensures r == NullableStr(Lookup(old(obj.entries), key))
  {
    var v := obj.Remove(key);
    if v.None? || v.value.Null? {
      r := Ok(Option.None);
    } else if v.value.String? {
      r := Ok(Option.Some(v.value.s));
    } else {
      r := Err(UnexpectedDataType);
    }
  }

  method PopStr(obj: ObjFields, key: string) returns (r: Result<string, Error>)
    modifies obj
    ensures obj.entries == old(obj.entries) - {key}
    ensures r == Str(Lookup(old(obj.entries), key))
  {
    var v := obj.Remove(key);
    if v.None? {
      r := Err(MissingField);
    } else if v.value.String? {
      r := Ok(v.value.s);
    } else {
      r := Err(UnexpectedDataType);
    }
  }

  method PopNullableU32(obj: ObjFields, key: string) returns (r: Result<Option<C.u32>, Error>)
    modifies obj
    ensures obj.entries == old(obj.entries) - {key}
    ensures r == NullableU32(Lookup(old(obj.entries), key))
  {
    var v := obj.Remove(key);
    if v.None? || v.value.Null? {
      r := Ok(Option.None);
    } else if v.value.Number? && v.value.num.Int? {
      var n := v.value.num.n;
      if 0 <= n < C.TWO_32 {
        r := Ok(Option.Some(n));
      } else {
        r := Err(NumberIsInvalidU32);
      }
    } else if v.value.Number? {
      r := Err(NumberIsInvalidU32);
    } else {
      r := Err(UnexpectedDataType);
    }
  }

  method PopU32(obj: ObjFields, key: string) returns (r: Result<C.u32, Error>)
    modifies obj
    ensures obj.entries == old(obj.entries) - {key}
    ensures r == U32(Lookup(old(obj.entries), key))
  {
    var v := obj.Remove(key);
    if v.None? {
      r := Err(MissingField);
    } else if v.value.Number? && v.value.num.Int? {
      var n := v.value.num.n;
      if 0 <= n < C.TWO_32 {
        r := Ok(n);
      } else {
        r := Err(NumberIsInvalidU32);
      }
    } else if v.value.Number? {
      r := Err(NumberIsInvalidU32);
    } else {
      r := Err(UnexpectedDataType);
    }
  }
}
