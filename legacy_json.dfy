// The JSON writer of the older generation (src/content/json.rs): always
// condensed, with map keys that must be strings as they stand.  `Render`
// is the text the serializer appends for a value, and the methods of
// `Serializer` are proved to append exactly that text.  String escaping
// is the same code as in the current generation (`Json.AppendEscaped`).
// On the values both writers treat alike the two agree (`AgreesWithCondensed`).
module LegacyJson {
  import opened Wrappers
  import opened Strs
  import C = Contents
  import Json

  /// The separator written before an element: none before the first.
  function Sep(first: bool): string
  {
    if first then "" else ","
  }

  /// The text `serialize` appends for `c`; `None` when it panics on a map
  /// key that is not a `String`.
  function Render(c: C.Content): Option<string>
    decreases c
  {
    match c
    case Bool(b) => Option.Some(if b then "true" else "false")
    case U8(v) => Option.Some(IntToString(v))
    case U16(v) => Option.Some(IntToString(v))
    case U32(v) => Option.Some(IntToString(v))
    case U64(v) => Option.Some(IntToString(v))
    case U128(v) => Option.Some(IntToString(v))
    case I8(v) => Option.Some(IntToString(v))
    case I16(v) => Option.Some(IntToString(v))
    case I32(v) => Option.Some(IntToString(v))
    case I64(v) => Option.Some(IntToString(v))
    case I128(v) => Option.Some(IntToString(v))
    case F32(x) => Option.Some(if C.IsFinite(x) then x.text else "null")
    case F64(x) => Option.Some(if C.IsFinite(x) then x.text else "null")
    case Char(ch) => Option.Some(Json.Escaped(NatToString(ch as int)))
    case String(s) => Option.Some(Json.Escaped(s))
    case Bytes(bs) => Option.Some("[" + RenderBytes(bs))
    case None => Option.Some("null")
    case Unit => Option.Some("null")
    case UnitStruct(_) => Option.Some("null")
    case Some(x) => Render(x)
    case NewtypeStruct(_, x) => Render(x)
    case UnitVariant(_, _, v) => Option.Some(Json.Escaped(v))
    case NewtypeVariant(_, _, v, x) => Wrap("{" + Json.Escaped(v) + ":", Render(x), "}")
    case Seq(es) => RenderArray(es)
    case Tuple(es) => RenderArray(es)
    case TupleStruct(_, es) => RenderArray(es)
    case TupleVariant(_, _, v, es) => Wrap("{" + Json.Escaped(v) + ":", RenderArray(es), "}")
    case Map(es) => Wrap("{", RenderEntries(es), "}")
    case Struct(_, fs) => Wrap("{", RenderFields(fs), "}")
    case StructVariant(_, _, v, fs) => Wrap("{" + Json.Escaped(v) + ":", RenderFields(fs), "}")
  }

  /// A text between an opening and a closing, when there is one.
  function Wrap(open: string, body: Option<string>, close: string): (r: Option<string>)
    ensures r.Some? <==> body.Some?
    ensures r.Some? ==> r.value == open + body.value + close
  {
    match body
    case None => Option.None
    case Some(b) => Option.Some(open + b + close)
  }

  /// The bytes as decimals between commas (no brackets).
  function RenderBytes(bs: seq<C.u8>): string
  {
    if bs == [] then []
    else RenderBytes(bs[..|bs| - 1]) + Sep(|bs| == 1) + NatToString(bs[|bs| - 1])
  }

  function RenderArray(es: seq<C.Content>): Option<string>
    decreases es, 1
  {
    Wrap("[", RenderElems(es), "]")
  }

  function RenderElems(es: seq<C.Content>): Option<string>
    decreases es, 0
  {
    if es == [] then Option.Some([])
    else
      match RenderElems(es[..|es| - 1])
      case None => Option.None
      case Some(p) =>
        match Render(es[|es| - 1])
        case None => Option.None
        case Some(x) => Option.Some(p + Sep(|es| == 1) + x)
  }

  function RenderEntries(es: seq<(C.Content, C.Content)>): Option<string>
    decreases es, 0
  {
    if es == [] then Option.Some([])
    else
      var e := es[|es| - 1];
      assert e.1 < e;
      match RenderEntries(es[..|es| - 1])
      case None => Option.None
      case Some(p) =>
        if !e.0.String? then Option.None
        else
          match Render(e.1)
          case None => Option.None
          case Some(x) => Option.Some(p + Sep(|es| == 1) + Json.Escaped(e.0.s) + ":" + x)
  }

  function RenderFields(fs: seq<(string, C.Content)>): Option<string>
    decreases fs, 0
  {
    if fs == [] then Option.Some([])
    else
      var e := fs[|fs| - 1];
      assert e.1 < e;
      match RenderFields(fs[..|fs| - 1])
      case None => Option.None
      case Some(p) =>
        match Render(e.1)
        case None => Option.None
        case Some(x) => Option.Some(p + Sep(|fs| == 1) + Json.Escaped(e.0) + ":" + x)
  }

  // ---------------------------------------------------------------------
  // When serialization succeeds

  /// Every map key in `c`, at any depth, is a `String` as it stands
  /// (a wrapped string is refused).
  predicate Serializable(c: C.Content)
    decreases c
  {
    match c
    case Some(x) => Serializable(x)
    case NewtypeStruct(_, x) => Serializable(x)
    case NewtypeVariant(_, _, _, x) => Serializable(x)
    case Seq(es) => ElemsSerializable(es)
    case Tuple(es) => ElemsSerializable(es)
    case TupleStruct(_, es) => ElemsSerializable(es)
    case TupleVariant(_, _, _, es) => ElemsSerializable(es)
    case Map(es) => EntriesSerializable(es)
    case Struct(_, fs) => FieldsSerializable(fs)
    case StructVariant(_, _, _, fs) => FieldsSerializable(fs)
    case _ => true
  }

  predicate ElemsSerializable(es: seq<C.Content>)
    decreases es, 0
  {
    es == [] || (ElemsSerializable(es[..|es| - 1]) && Serializable(es[|es| - 1]))
  }

  predicate EntriesSerializable(es: seq<(C.Content, C.Content)>)
    decreases es, 0
  {
    if es == [] then true
    else
      var e := es[|es| - 1];
      assert e.1 < e;
      EntriesSerializable(es[..|es| - 1]) && e.0.String? && Serializable(e.1)
  }

  predicate FieldsSerializable(fs: seq<(string, C.Content)>)
    decreases fs, 0
  {
    if fs == [] then true
    else
      var e := fs[|fs| - 1];
      assert e.1 < e;
      FieldsSerializable(fs[..|fs| - 1]) && Serializable(e.1)
  }

  /// The writer fails exactly on the values with a map key that is not a
  /// plain string.
  lemma {:induction false} RenderSomeIff(c: C.Content)
    ensures Render(c).Some? <==> Serializable(c)
    decreases c, 1
  {
    if Json.IsScalar(c) {
      ScalarRenders(c);
    } else if c.Some? || c.NewtypeStruct? || c.NewtypeVariant? {
      WrapperSomeIff(c);
    } else if c.Seq? || c.Tuple? || c.TupleStruct? || c.TupleVariant? {
      ArraySomeIff(c);
    } else {
      ObjectSomeIff(c);
    }
  }

  lemma ScalarRenders(c: C.Content)
    requires Json.IsScalar(c)
    ensures Render(c).Some? && Serializable(c)
  {
  }

  lemma {:induction false} WrapperSomeIff(c: C.Content)
    requires c.Some? || c.NewtypeStruct? || c.NewtypeVariant?
    ensures Render(c).Some? <==> Serializable(c)
    decreases c, 0
  {
    match c
    case Some(x) => RenderSomeIff(x);
    case NewtypeStruct(_, x) => RenderSomeIff(x);
    case NewtypeVariant(_, _, _, x) => RenderSomeIff(x);
  }

  lemma {:induction false} ArraySomeIff(c: C.Content)
    requires c.Seq? || c.Tuple? || c.TupleStruct? || c.TupleVariant?
    ensures Render(c).Some? <==> Serializable(c)
    decreases c, 0
  {
    match c
    case Seq(es) => ElemsSomeIff(es);
    case Tuple(es) => ElemsSomeIff(es);
    case TupleStruct(_, es) => ElemsSomeIff(es);
    case TupleVariant(_, _, _, es) => ElemsSomeIff(es);
  }

  lemma {:induction false} ObjectSomeIff(c: C.Content)
    requires c.Map? || c.Struct? || c.StructVariant? || c.Bytes?
    ensures Render(c).Some? <==> Serializable(c)
    decreases c, 0
  {
    match c
    case Map(es) => EntriesSomeIff(es);
    case Struct(_, fs) => FieldsSomeIff(fs);
    case StructVariant(_, _, _, fs) => FieldsSomeIff(fs);
    case Bytes(_) =>
  }

  lemma {:induction false} ElemsSomeIff(es: seq<C.Content>)
    ensures RenderElems(es).Some? <==> ElemsSerializable(es)
    decreases es, 0
  {
    if es != [] {
      ElemsSomeIff(es[..|es| - 1]);
      RenderSomeIff(es[|es| - 1]);
    }
  }

  lemma {:induction false} EntriesSomeIff(es: seq<(C.Content, C.Content)>)
    ensures RenderEntries(es).Some? <==> EntriesSerializable(es)
    decreases es, 0
  {
    if es != [] {
      var e := es[|es| - 1];
      assert e.1 < e;
      EntriesSomeIff(es[..|es| - 1]);
      RenderSomeIff(e.1);
    }
  }

  lemma {:induction false} FieldsSomeIff(fs: seq<(string, C.Content)>)
    ensures RenderFields(fs).Some? <==> FieldsSerializable(fs)
    decreases fs, 0
  {
    if fs != [] {
      var e := fs[|fs| - 1];
      assert e.1 < e;
      FieldsSomeIff(fs[..|fs| - 1]);
      RenderSomeIff(e.1);
    }
  }

  /// A key wrapped in a newtype is refused here; the current writer
  /// looks through the wrapper.
  lemma WrappedKeyRefused(n: string, k: string, v: C.Content)
    ensures Render(C.Map([(C.NewtypeStruct(n, C.String(k)), v)])).None?
  {
    var es := [(C.NewtypeStruct(n, C.String(k)), v)];
    assert es[..0] == [];
  }

  // ---------------------------------------------------------------------
  // Agreement with the current writer

  /// The values the two generations write alike: no bytes, characters,
  /// floats or struct variants anywhere, and only plain string map keys.
  predicate Shared(c: C.Content)
    decreases c
  {
    match c
    case Bytes(_) => false
    case Char(_) => false
    case F32(_) => false
    case F64(_) => false
    case StructVariant(_, _, _, _) => false
    case Some(x) => Shared(x)
    case NewtypeStruct(_, x) => Shared(x)
    case NewtypeVariant(_, _, _, x) => Shared(x)
    case Seq(es) => ElemsShared(es)
    case Tuple(es) => ElemsShared(es)
    case TupleStruct(_, es) => ElemsShared(es)
    case TupleVariant(_, _, _, es) => ElemsShared(es)
    case Map(es) => EntriesShared(es)
    case Struct(_, fs) => FieldsShared(fs)
    case _ => true
  }

  predicate ElemsShared(es: seq<C.Content>)
    decreases es, 0
  {
    es == [] || (ElemsShared(es[..|es| - 1]) && Shared(es[|es| - 1]))
  }

  predicate EntriesShared(es: seq<(C.Content, C.Content)>)
    decreases es, 0
  {
    if es == [] then true
    else
      var e := es[|es| - 1];
      assert e.1 < e;
      EntriesShared(es[..|es| - 1]) && e.0.String? && Shared(e.1)
  }

  predicate FieldsShared(fs: seq<(string, C.Content)>)
    decreases fs, 0
  {
    if fs == [] then true
    else
      var e := fs[|fs| - 1];
      assert e.1 < e;
      FieldsShared(fs[..|fs| - 1]) && Shared(e.1)
  }

  /// On the values both generations write alike, the older text is the
  /// current writer's condensed text, at any depth.
  lemma {:induction false} AgreesWithCondensed(c: C.Content, n: nat)
    requires Shared(c)
    ensures Render(c) == Json.Render(c, Json.Condensed, n)
    decreases c, 1
  {
    if Json.IsScalar(c) {
      ScalarsAgree(c, n);
    } else if c.Some? || c.NewtypeStruct? || c.NewtypeVariant? {
      WrappersAgree(c, n);
    } else {
      ContainersAgree(c, n);
    }
  }

  lemma ScalarsAgree(c: C.Content, n: nat)
    requires Json.IsScalar(c) && Shared(c)
    ensures Render(c) == Json.Render(c, Json.Condensed, n)
  {
  }

  lemma {:induction false} WrappersAgree(c: C.Content, n: nat)
    requires (c.Some? || c.NewtypeStruct? || c.NewtypeVariant?) && Shared(c)
    ensures Render(c) == Json.Render(c, Json.Condensed, n)
    decreases c, 0
  {
    match c
    case Some(x) => AgreesWithCondensed(x, n);
    case NewtypeStruct(_, x) => AgreesWithCondensed(x, n);
    case NewtypeVariant(_, _, v, x) =>
      AgreesWithCondensed(x, n + 1);
      TaggedCondensed(n, v, Render(x));
  }

  lemma {:induction false} ContainersAgree(c: C.Content, n: nat)
    requires (c.Seq? || c.Tuple? || c.TupleStruct? || c.TupleVariant? || c.Map? || c.Struct?) && Shared(c)
    ensures Render(c) == Json.Render(c, Json.Condensed, n)
    decreases c, 0
  {
    match c
    case Seq(es) =>
      ElemsAgree(es, n + 1);
      CloseCondensed(n, |es| == 0, ']');
    case Tuple(es) =>
      ElemsAgree(es, n + 1);
      CloseCondensed(n, |es| == 0, ']');
    case TupleStruct(_, es) =>
      ElemsAgree(es, n + 1);
      CloseCondensed(n, |es| == 0, ']');
    case TupleVariant(_, _, v, es) =>
      ElemsAgree(es, n + 2);
      CloseCondensed(n + 1, |es| == 0, ']');
      TaggedCondensed(n, v, RenderArray(es));
    case Map(es) =>
      EntriesAgree(es, n + 1);
      CloseCondensed(n, |es| == 0, '}');
    case Struct(_, fs) =>
      FieldsAgree(fs, n + 1);
      CloseCondensed(n, |fs| == 0, '}');
  }

  /// The current writer's one-entry object, in the condensed layout.
  lemma TaggedCondensed(n: nat, v: string, body: Option<string>)
    ensures Json.Tagged(Json.Condensed, n, v, body) == Wrap("{" + Json.Escaped(v) + ":", body, "}")
  {
    CloseCondensed(n, false, '}');
    assert Json.Comma(Json.Condensed, true, n + 1) == "";
    if body.Some? {
      assert "{" + "" + Json.Escaped(v) + ":" == "{" + Json.Escaped(v) + ":";
    }
  }

  lemma CloseCondensed(n: nat, empty: bool, c: char)
    ensures Json.Close(Json.Condensed, n, empty, c) == [c]
  {
    assert "" + [c] == [c];
  }

  lemma {:induction false} ElemsAgree(es: seq<C.Content>, m: nat)
    requires ElemsShared(es)
    ensures RenderElems(es) == Json.RenderElems(es, Json.Condensed, m)
    decreases es, 0
  {
    if es != [] {
      ElemsAgree(es[..|es| - 1], m);
      AgreesWithCondensed(es[|es| - 1], m);
    }
  }

  lemma {:induction false} EntriesAgree(es: seq<(C.Content, C.Content)>, m: nat)
    requires EntriesShared(es)
    ensures RenderEntries(es) == Json.RenderEntries(es, Json.Condensed, m)
    decreases es, 0
  {
    if es != [] {
      var e := es[|es| - 1];
      assert e.1 < e;
      EntriesAgree(es[..|es| - 1], m);
      AgreesWithCondensed(e.1, m);
    }
  }

  lemma {:induction false} FieldsAgree(fs: seq<(string, C.Content)>, m: nat)
    requires FieldsShared(fs)
    ensures RenderFields(fs) == Json.RenderFields(fs, Json.Condensed, m)
    decreases fs, 0
  {
    if fs != [] {
      var e := fs[|fs| - 1];
      assert e.1 < e;
      FieldsAgree(fs[..|fs| - 1], m);
      AgreesWithCondensed(e.1, m);
    }
  }

  // ---------------------------------------------------------------------
  // The two arms that do not produce JSON

  /// The text of the bytes holds no closing bracket: the array is never
  /// closed.
  lemma {:induction false} BytesUnclosed(bs: seq<C.u8>)
    ensures Render(C.Bytes(bs)).Some?
    ensures ']' !in Render(C.Bytes(bs)).value
  {
    BytesNoBracket(bs);
  }

  lemma {:induction false} BytesNoBracket(bs: seq<C.u8>)
    ensures ']' !in RenderBytes(bs)
  {
    if bs != [] {
      BytesNoBracket(bs[..|bs| - 1]);
      var d := NatToString(bs[|bs| - 1]);
      assert forall k :: 0 <= k < |d| ==> d[k] != ']';
    }
  }

  /// The byte array as the writer evidently means it: closed, as the
  /// current writer writes it.
  function ClosedBytes(bs: seq<C.u8>): (r: string)
    ensures r == Json.Render(C.Bytes(bs), Json.Condensed, 0).value
  {
    ClosedBytesAgree(bs, 1);
    "[" + RenderBytes(bs) + "]"
  }

  lemma {:induction false} ClosedBytesAgree(bs: seq<C.u8>, m: nat)
    ensures RenderBytes(bs) == Json.RenderBytes(bs, Json.Condensed, m)
  {
    if bs != [] {
      ClosedBytesAgree(bs[..|bs| - 1], m);
    }
  }

  /// A struct variant's fields follow the variant's colon without braces
  /// of their own: `{"V":"a":1}` for the variant `V` with the field
  /// `a: 1`.
  lemma StructVariantUnbraced()
    ensures Render(C.StructVariant("S", 0, "V", [("a", C.U8(1))])) == Option.Some("{\"V\":\"a\":1}")
  {
    OneFieldText();
    PlainQuoted("V");
    assert "\"" + "V" + "\"" == "\"V\"";
    assert "{" + "\"V\"" + ":" + "\"a\":1" + "}" == "{\"V\":\"a\":1}";
  }

  lemma OneFieldText()
    ensures RenderFields([("a", C.U8(1))]) == Option.Some("\"a\":1")
  {
    var fs := [("a", C.U8(1))];
    assert fs[..0] == [];
    PlainQuoted("a");
    assert "\"" + "a" + "\"" == "\"a\"";
    assert NatToString(1) == "1";
    assert Render(C.U8(1)) == Option.Some("1");
    assert [] + Sep(true) + "\"a\"" + ":" + "1" == "\"a\":1";
  }

  lemma PlainQuoted(s: string)
    requires forall k :: 0 <= k < |s| ==> 'a' <= s[k] <= 'z' || 'A' <= s[k] <= 'Z'
    ensures Json.Escaped(s) == "\"" + s + "\""
  {
    Json.EscapeBodyPlain(s);
  }

  /// The struct variant as the writer evidently means it: the fields as
  /// an object under the variant's key, as the current writer writes it.
  function NestedStructVariant(v: string, fs: seq<(string, C.Content)>): (r: Option<string>)
    requires FieldsShared(fs)
    ensures r == Json.Render(C.StructVariant("", 0, v, fs), Json.Condensed, 0)
  {
    FieldsAgree(fs, 2);
    CloseCondensed(1, |fs| == 0, '}');
    TaggedCondensed(0, v, Wrap("{", RenderFields(fs), "}"));
    Wrap("{" + Json.Escaped(v) + ":", Wrap("{", RenderFields(fs), "}"), "}")
  }

  // ---------------------------------------------------------------------
  // The serializer

  class Serializer {
    var out: string

    /// `Serializer::new`
    constructor ()
      ensures out == []
    {
      out := [];
    }

    method WriteEscapedStr(value: string)
      modifies this
      ensures out == old(out) + Json.Escaped(value)
    {
      out := Json.AppendEscaped(out, value);
    }

    /// `serialize`: appends the text of `value`; `false` when a map key is
    /// not a `String` (the source panics there).
    method Serialize(value: C.Content) returns (ok: bool)
      modifies this
      ensures ok <==> Render(value).Some?
      ensures ok ==> out == old(out) + Render(value).value
      decreases value, 5
    {
      if Json.IsScalar(value) {
        SerializeScalar(value);
        ok := true;
      } else if value.Some? {
        ok := Serialize(value.inner);
      } else if value.NewtypeStruct? {
        ok := Serialize(value.inner);
      } else if value.NewtypeVariant? || value.TupleVariant? || value.StructVariant? {
        ok := SerializeVariant(value);
      } else {
        ok := SerializeContainer(value);
      }
    }

    /// The arms of `serialize` for byte arrays, sequences, tuples, maps
    /// and structs.
    method SerializeContainer(value: C.Content) returns (ok: bool)
      requires value.Bytes? || value.Seq? || value.Tuple? || value.TupleStruct? || value.Map? || value.Struct?
      modifies this
      ensures ok <==> Render(value).Some?
      ensures ok ==> out == old(out) + Render(value).value
      decreases value, 4
    {
      match value
      case Bytes(bs) =>
        SerializeByteArray(bs);
        ok := true;
      case Seq(es) => ok := SerializeArray(es);
      case Tuple(es) => ok := SerializeArray(es);
      case TupleStruct(_, es) => ok := SerializeArray(es);
      case Map(es) => ok := SerializeMap(es);
      case Struct(_, fs) => ok := SerializeStruct(fs);
    }

    /// The arms of `serialize` for the enum variants that carry data.
    method SerializeVariant(value: C.Content) returns (ok: bool)
      requires value.NewtypeVariant? || value.TupleVariant? || value.StructVariant?
      modifies this
      ensures ok <==> Render(value).Some?
      ensures ok ==> out == old(out) + Render(value).value
      decreases value, 4
    {
      match value
      case NewtypeVariant(_, _, v, x) => ok := SerializeNewtypeVariant(v, x);
      case TupleVariant(_, _, v, es) => ok := SerializeTupleVariant(v, es);
      case StructVariant(_, _, v, fs) => ok := SerializeStructVariant(v, fs);
    }

    /// The `Content::Bytes` arm: `[` and the bytes, and no closing bracket.
    method SerializeByteArray(bs: seq<C.u8>)
      modifies this
      ensures out == old(out) + Render(C.Bytes(bs)).value
    {
      ghost var o0 := out;
      out := out + "[";
      SerializeBytes(bs);
      Shift(o0, "[", RenderBytes(bs));
    }

    /// The `Content::NewtypeVariant` arm.
    method SerializeNewtypeVariant(v: string, x: C.Content) returns (ok: bool)
      modifies this
      ensures ok <==> Render(x).Some?
      ensures ok ==> out == old(out) + Wrap("{" + Json.Escaped(v) + ":", Render(x), "}").value
      decreases x, 6
    {
      ghost var o0 := out;
      out := out + "{";
      WriteEscapedStr(v);
      out := out + ":";
      ghost var o1 := out;
      ok := Serialize(x);
      if ok {
        out := out + "}";
        WrapFinish(o0, Json.Escaped(v), o1, Render(x), out);
      }
    }

    /// The `Content::TupleVariant` arm.
    method SerializeTupleVariant(v: string, es: seq<C.Content>) returns (ok: bool)
      modifies this
      ensures ok <==> RenderArray(es).Some?
      ensures ok ==> out == old(out) + Wrap("{" + Json.Escaped(v) + ":", RenderArray(es), "}").value
      decreases es, 3
    {
      ghost var o0 := out;
      out := out + "{";
      WriteEscapedStr(v);
      out := out + ":";
      ghost var o1 := out;
      ok := SerializeArray(es);
      if ok {
        out := out + "}";
        WrapFinish(o0, Json.Escaped(v), o1, RenderArray(es), out);
      }
    }

    /// The `Content::Map` arm.
    method SerializeMap(es: seq<(C.Content, C.Content)>) returns (ok: bool)
      modifies this
      ensures ok <==> RenderEntries(es).Some?
      ensures ok ==> out == old(out) + Wrap("{", RenderEntries(es), "}").value
      decreases es, 3
    {
      ghost var o0 := out;
      out := out + "{";
      ok := SerializeEntries(es);
      if ok {
        out := out + "}";
        Shift3(o0, "{", RenderEntries(es).value, "}");
      }
    }

    /// The `Content::Struct` arm.
    method SerializeStruct(fs: seq<(string, C.Content)>) returns (ok: bool)
      modifies this
      ensures ok <==> RenderFields(fs).Some?
      ensures ok ==> out == old(out) + Wrap("{", RenderFields(fs), "}").value
      decreases fs, 3
    {
      ghost var o0 := out;
      out := out + "{";
      ok := SerializeFields(fs);
      if ok {
        out := out + "}";
        Shift3(o0, "{", RenderFields(fs).value, "}");
      }
    }

    /// The `Content::StructVariant` arm: the fields follow the variant's
    /// colon directly.
    method SerializeStructVariant(v: string, fs: seq<(string, C.Content)>) returns (ok: bool)
      modifies this
      ensures ok <==> RenderFields(fs).Some?
      ensures ok ==> out == old(out) + Wrap("{" + Json.Escaped(v) + ":", RenderFields(fs), "}").value
      decreases fs, 3
    {
      ghost var o0 := out;
      out := out + "{";
      WriteEscapedStr(v);
      out := out + ":";
      ghost var o1 := out;
      ok := SerializeFields(fs);
      if ok {
        out := out + "}";
        WrapFinish(o0, Json.Escaped(v), o1, RenderFields(fs), out);
      }
    }

    /// The arms of `serialize` for values without children.
    method SerializeScalar(value: C.Content)
      requires Json.IsScalar(value)
      modifies this
      ensures Render(value).Some?
      ensures out == old(out) + Render(value).value
    {
      if C.IntValue(value).Some? {
        SerializeInteger(value);
      } else {
        SerializeAtom(value);
      }
    }

    /// The integer arms of `serialize`: the decimal value.
    method SerializeInteger(value: C.Content)
      requires C.IntValue(value).Some?
      modifies this
      ensures Render(value) == Option.Some(IntToString(C.IntValue(value).value))
      ensures out == old(out) + IntToString(C.IntValue(value).value)
    {
      out := out + IntToString(C.IntValue(value).value);
    }

    /// The arms of `serialize` for booleans, floats, characters, strings
    /// and the variants without data.
    method SerializeAtom(value: C.Content)
      requires Json.IsScalar(value) && C.IntValue(value).None?
      modifies this
      ensures Render(value).Some?
      ensures out == old(out) + Render(value).value
    {
      match value
      case Bool(b) => if b { out := out + "true"; } else { out := out + "false"; }
      case F32(x) => if C.IsFinite(x) { out := out + x.text; } else { out := out + "null"; }
      case F64(x) => if C.IsFinite(x) { out := out + x.text; } else { out := out + "null"; }
      case Char(ch) => WriteEscapedStr(NatToString(ch as int));
      case String(s) => WriteEscapedStr(s);
      case None => out := out + "null";
      case Unit => out := out + "null";
      case UnitStruct(_) => out := out + "null";
      case UnitVariant(_, _, v) => WriteEscapedStr(v);
    }

    /// The loop of the `Content::Bytes` arm: each byte in decimal after
    /// its comma.
    method SerializeBytes(bs: seq<C.u8>)
      modifies this
      ensures out == old(out) + RenderBytes(bs)
    {
      ghost var before := out;
      var i := 0;
      while i < |bs|
        invariant 0 <= i <= |bs|
        invariant out == before + RenderBytes(bs[..i])
      {
        ghost var o1 := out;
        if i > 0 {
          out := out + ",";
        }
        ghost var o2 := out;
        out := out + NatToString(bs[i]);
        BytesLoopStep(before, bs, i, o1, o2, out);
        i := i + 1;
      }
      assert bs[..i] == bs;
    }

    /// The `Content::Seq` arm of `serialize` (also used for tuples).
    method SerializeArray(items: seq<C.Content>) returns (ok: bool)
      modifies this
      ensures ok <==> RenderArray(items).Some?
      ensures ok ==> out == old(out) + RenderArray(items).value
      decreases items, 2
    {
      ghost var o0 := out;
      out := out + "[";
      ok := SerializeElems(items);
      if ok {
        out := out + "]";
        Shift3(o0, "[", RenderElems(items).value, "]");
      }
    }

    method SerializeElems(items: seq<C.Content>) returns (ok: bool)
      modifies this
      ensures ok <==> RenderElems(items).Some?
      ensures ok ==> out == old(out) + RenderElems(items).value
      decreases items, 1
    {
      ghost var before := out;
      var i := 0;
      while i < |items|
        invariant 0 <= i <= |items|
        invariant RenderElems(items[..i]).Some?
        invariant out == before + RenderElems(items[..i]).value
      {
        ghost var o1 := out;
        if i > 0 {
          out := out + ",";
        }
        ghost var o2 := out;
        ok := Serialize(items[i]);
        if !ok {
          ElemsPrefixFails(items, i + 1);
          return false;
        }
        ElemsLoopStep(before, items, i, o1, o2, out);
        i := i + 1;
      }
      assert items[..i] == items;
      return true;
    }

    /// One entry of a map: its comma, its key, a colon and its value.
    method SerializeEntry(e: (C.Content, C.Content), first: bool) returns (ok: bool)
      modifies this
      ensures ok <==> e.0.String? && Render(e.1).Some?
      ensures ok ==> out == old(out) + (Sep(first) + Json.Escaped(e.0.s) + ":" + Render(e.1).value)
      decreases e, 0
    {
      ghost var o0 := out;
      if !first {
        out := out + ",";
      }
      if !e.0.String? {
        return false;
      }
      WriteEscapedStr(e.0.s);
      out := out + ":";
      assert e.1 < e;
      ok := Serialize(e.1);
      if ok {
        Shift5(o0, Sep(first), Json.Escaped(e.0.s), ":", Render(e.1).value);
      }
    }

    method SerializeEntries(es: seq<(C.Content, C.Content)>) returns (ok: bool)
      modifies this
      ensures ok <==> RenderEntries(es).Some?
      ensures ok ==> out == old(out) + RenderEntries(es).value
      decreases es, 1
    {
      ghost var before := out;
      var i := 0;
      while i < |es|
        invariant 0 <= i <= |es|
        invariant RenderEntries(es[..i]).Some?
        invariant out == before + RenderEntries(es[..i]).value
      {
        ghost var o1 := out;
        ok := SerializeEntry(es[i], i == 0);
        if !ok {
          EntriesPrefixFails(es, i + 1);
          return false;
        }
        EntriesLoopStep(before, es, i, o1, out);
        i := i + 1;
      }
      assert es[..i] == es;
      return true;
    }

    /// One field of a struct: its comma, its name, a colon and its value.
    method SerializeField(fl: (string, C.Content), first: bool) returns (ok: bool)
      modifies this
      ensures ok <==> Render(fl.1).Some?
      ensures ok ==> out == old(out) + (Sep(first) + Json.Escaped(fl.0) + ":" + Render(fl.1).value)
      decreases fl, 0
    {
      ghost var o0 := out;
      if !first {
        out := out + ",";
      }
      WriteEscapedStr(fl.0);
      out := out + ":";
      assert fl.1 < fl;
      ok := Serialize(fl.1);
      if ok {
        Shift5(o0, Sep(first), Json.Escaped(fl.0), ":", Render(fl.1).value);
      }
    }

    method SerializeFields(fields: seq<(string, C.Content)>) returns (ok: bool)
      modifies this
      ensures ok <==> RenderFields(fields).Some?
      ensures ok ==> out == old(out) + RenderFields(fields).value
      decreases fields, 1
    {
      ghost var before := out;
      var i := 0;
      while i < |fields|
        invariant 0 <= i <= |fields|
        invariant RenderFields(fields[..i]).Some?
        invariant out == before + RenderFields(fields[..i]).value
      {
        ghost var o1 := out;
        ok := SerializeField(fields[i], i == 0);
        if !ok {
          FieldsPrefixFails(fields, i + 1);
          return false;
        }
        FieldsLoopStep(before, fields, i, o1, out);
        i := i + 1;
      }
      assert fields[..i] == fields;
      return true;
    }
  }

  /// `to_string`
  method ToString(value: C.Content) returns (r: Option<string>)
    ensures r.Some? <==> Serializable(value)
    ensures r.Some? ==> r == Render(value)
  {
    var ser := new Serializer();
    var ok := ser.Serialize(value);
    RenderSomeIff(value);
    if !ok {
      return Option.None;
    }
    assert [] + Render(value).value == Render(value).value;
    assert ser.out == Render(value).value;
    return Option.Some(ser.out);
  }

  // ---------------------------------------------------------------------
  // Steps of the serializer's proofs

  lemma Shift(a: string, b: string, c: string)
    ensures a + b + c == a + (b + c)
  {
  }

  lemma Shift3(a: string, b: string, c: string, d: string)
    ensures a + b + c + d == a + (b + c + d)
  {
  }

  lemma Shift5(a: string, b: string, c: string, d: string, e: string)
    ensures a + b + c + d + e == a + (b + c + d + e)
  {
  }

  lemma WrapFinish(o0: string, key: string, o1: string, body: Option<string>, o2: string)
    requires body.Some?
    requires o1 == o0 + "{" + key + ":"
    requires o2 == o1 + body.value + "}"
    ensures o2 == o0 + Wrap("{" + key + ":", body, "}").value
  {
    Shift5(o0, "{", key, ":", body.value);
    Shift3(o0, "{" + key + ":", body.value, "}");
  }

  lemma BytesLoopStep(before: string, bs: seq<C.u8>, i: nat, o1: string, o2: string, o3: string)
    requires i < |bs|
    requires o1 == before + RenderBytes(bs[..i])
    requires o2 == o1 + Sep(i == 0)
    requires o3 == o2 + NatToString(bs[i])
    ensures o3 == before + RenderBytes(bs[..i + 1])
  {
    assert bs[..i + 1][..i] == bs[..i];
    Shift3(before, RenderBytes(bs[..i]), Sep(i == 0), NatToString(bs[i]));
  }

  lemma ElemsLoopStep(before: string, es: seq<C.Content>, i: nat, o1: string, o2: string, o3: string)
    requires i < |es|
    requires RenderElems(es[..i]).Some? && Render(es[i]).Some?
    requires o1 == before + RenderElems(es[..i]).value
    requires o2 == o1 + Sep(i == 0)
    requires o3 == o2 + Render(es[i]).value
    ensures RenderElems(es[..i + 1]).Some?
    ensures o3 == before + RenderElems(es[..i + 1]).value
  {
    assert es[..i + 1][..i] == es[..i];
    Shift3(before, RenderElems(es[..i]).value, Sep(i == 0), Render(es[i]).value);
  }

  lemma EntriesLoopStep(before: string, es: seq<(C.Content, C.Content)>, i: nat, o1: string, o3: string)
    requires i < |es|
    requires RenderEntries(es[..i]).Some? && es[i].0.String? && Render(es[i].1).Some?
    requires o1 == before + RenderEntries(es[..i]).value
    requires o3 == o1 + (Sep(i == 0) + Json.Escaped(es[i].0.s) + ":" + Render(es[i].1).value)
    ensures RenderEntries(es[..i + 1]).Some?
    ensures o3 == before + RenderEntries(es[..i + 1]).value
  {
    EntriesSnoc(es, i);
    var p, x := RenderEntries(es[..i]).value, Render(es[i].1).value;
    Shift5(p, Sep(i == 0), Json.Escaped(es[i].0.s), ":", x);
    Shift(before, p, Sep(i == 0) + Json.Escaped(es[i].0.s) + ":" + x);
  }

  lemma EntriesSnoc(es: seq<(C.Content, C.Content)>, i: nat)
    requires i < |es|
    requires RenderEntries(es[..i]).Some? && es[i].0.String? && Render(es[i].1).Some?
    ensures RenderEntries(es[..i + 1]) ==
      Option.Some(RenderEntries(es[..i]).value + Sep(i == 0) + Json.Escaped(es[i].0.s) + ":" + Render(es[i].1).value)
  {
    var last := es[..i + 1];
    assert last[..|last| - 1] == es[..i];
    assert last[|last| - 1] == es[i];
  }

  lemma FieldsLoopStep(before: string, fs: seq<(string, C.Content)>, i: nat, o1: string, o3: string)
    requires i < |fs|
    requires RenderFields(fs[..i]).Some? && Render(fs[i].1).Some?
    requires o1 == before + RenderFields(fs[..i]).value
    requires o3 == o1 + (Sep(i == 0) + Json.Escaped(fs[i].0) + ":" + Render(fs[i].1).value)
    ensures RenderFields(fs[..i + 1]).Some?
    ensures o3 == before + RenderFields(fs[..i + 1]).value
  {
    FieldsSnoc(fs, i);
    var p, x := RenderFields(fs[..i]).value, Render(fs[i].1).value;
    Shift5(p, Sep(i == 0), Json.Escaped(fs[i].0), ":", x);
    Shift(before, p, Sep(i == 0) + Json.Escaped(fs[i].0) + ":" + x);
  }

  lemma FieldsSnoc(fs: seq<(string, C.Content)>, i: nat)
    requires i < |fs|
    requires RenderFields(fs[..i]).Some? && Render(fs[i].1).Some?
    ensures RenderFields(fs[..i + 1]) ==
      Option.Some(RenderFields(fs[..i]).value + Sep(i == 0) + Json.Escaped(fs[i].0) + ":" + Render(fs[i].1).value)
  {
    var last := fs[..i + 1];
    assert last[..|last| - 1] == fs[..i];
    assert last[|last| - 1] == fs[i];
  }

  /// Once one element fails, every longer prefix fails.
  lemma ElemsPrefixFails(es: seq<C.Content>, k: nat)
    requires 0 < k <= |es|
    requires Render(es[k - 1]).None?
    ensures RenderElems(es).None?
    decreases |es|
  {
    if k < |es| {
      assert es[..|es| - 1][k - 1] == es[k - 1];
      ElemsPrefixFails(es[..|es| - 1], k);
    }
  }

  lemma EntriesPrefixFails(es: seq<(C.Content, C.Content)>, k: nat)
    requires 0 < k <= |es|
    requires !es[k - 1].0.String? || Render(es[k - 1].1).None?
    ensures RenderEntries(es).None?
    decreases |es|
  {
    if k < |es| {
      assert es[..|es| - 1][k - 1] == es[k - 1];
      EntriesPrefixFails(es[..|es| - 1], k);
    }
  }

  lemma FieldsPrefixFails(fs: seq<(string, C.Content)>, k: nat)
    requires 0 < k <= |fs|
    requires Render(fs[k - 1].1).None?
    ensures RenderFields(fs).None?
    decreases |fs|
  {
    if k < |fs| {
      assert fs[..|fs| - 1][k - 1] == fs[k - 1];
      FieldsPrefixFails(fs[..|fs| - 1], k);
    }
  }
}
