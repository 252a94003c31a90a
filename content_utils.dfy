// The older generation's helpers for reading a struct back from a map
// (src/content/utils.rs): the map of field names, and the `pop_*`
// helpers that take one field out of it and check its type.  They use
// `is_nil`, `as_str` and `as_i64` as `Contents` defines them.
module ContentUtils {
  import opened Wrappers
  import C = Contents
  import LC = LegacyContent

  /// The key of entry `i` is the first that is not a string.
  ghost predicate FirstNonString(es: seq<(C.Content, C.Content)>, i: int)
  {
    0 <= i < |es| && !es[i].0.String? && forall j :: 0 <= j < i ==> es[j].0.String?
  }

  /// `into_unordered_struct_fields`: the entries as a map from field name
  /// to value.  The first key that is not a string fails the whole map
  /// with `InvalidStructField` of that key; a name that comes twice keeps
  /// its later value.
  function StructFields(es: seq<(C.Content, C.Content)>): (r: Result<map<string, C.Content>, LC.ContentError>)
    ensures r.Ok? <==> forall i :: 0 <= i < |es| ==> es[i].0.String?
    ensures r.Err? ==> exists i :: FirstNonString(es, i) && r.error == LC.InvalidStructField(es[i].0)
    ensures r.Ok? ==> forall k :: k in r.value <==> exists i :: 0 <= i < |es| && es[i].0 == C.String(k)
  {
    if es == [] then Ok(map[])
    else if !es[0].0.String? then
      assert FirstNonString(es, 0);
      Err(LC.InvalidStructField(es[0].0))
    else
      match StructFields(es[1..])
      case Err(e) =>
        assert forall i :: FirstNonString(es[1..], i) ==> FirstNonString(es, i + 1);
        Err(e)
      case Ok(m) =>
        assert forall i :: 0 <= i < |es| - 1 ==> es[1..][i] == es[i + 1];
        Ok(map[es[0].0.s := es[0].1] + m)
  }

  /// A field takes the value of the last entry with its name.
  lemma {:induction false} StructFieldsLast(es: seq<(C.Content, C.Content)>, i: nat)
    requires StructFields(es).Ok?
    requires i < |es|
    requires forall j :: i < j < |es| ==> es[j].0 != es[i].0
    ensures es[i].0.s in StructFields(es).value
    ensures StructFields(es).value[es[i].0.s] == es[i].1
  {
    var rest := StructFields(es[1..]);
    assert rest.Ok? by {
      forall j | 0 <= j < |es| - 1 ensures es[1..][j].0.String? {
        assert es[1..][j] == es[j + 1];
      }
    }
    var e0 := es[0];
    assert StructFields(es).value == map[e0.0.s := e0.1] + rest.value;
    if i == 0 {
      var k := e0.0.s;
      assert k !in rest.value by {
        forall j | 0 <= j < |es| - 1 ensures es[1..][j].0 != C.String(k) {
          assert es[1..][j] == es[j + 1];
        }
      }
    } else {
      assert es[1..][i - 1] == es[i];
      forall j | i - 1 < j < |es| - 1 ensures es[1..][j].0 != es[1..][i - 1].0 {
        assert es[1..][j] == es[j + 1];
      }
      StructFieldsLast(es[1..], i - 1);
      assert es[i].0.s in rest.value;
    }
  }

  /// The map a reader takes fields out of (a `BTreeMap`).
  class FieldMap {
    var fields: map<string, C.Content>

    constructor(m: map<string, C.Content>)
      ensures fields == m
    {
      fields := m;
    }

    /// `BTreeMap::remove`.
    method Remove(key: string) returns (v: Option<C.Content>)
      modifies this
      ensures v == Lookup(old(fields), key)
      ensures fields == old(fields) - {key}
    {
      if key in fields {
        v := Option.Some(fields[key]);
      } else {
        v := Option.None;
      }
      fields := fields - {key};
    }
  }

  function Lookup(m: map<string, C.Content>, key: string): (r: Option<C.Content>)
    ensures r.Some? <==> key in m
    ensures r.Some? ==> r.value == m[key]
  {
    if key in m then Option.Some(m[key]) else Option.None
  }

  /// What `pop_nullable_str` makes of the removed field: a missing or nil
  /// field is `None`, a string (behind any wrappers) is its text, anything
  /// else is `UnexpectedDataType`.
  function NullableStr(v: Option<C.Content>): (r: Result<Option<string>, LC.ContentError>)
    ensures r.Ok? <==> v.None? || C.IsNil(v.value) || C.AsStr(v.value).Some?
    ensures r.Err? ==> r.error == LC.UnexpectedDataType
    ensures r.Ok? && r.value.Some? ==> v.Some? && C.AsStr(v.value) == r.value
  {
    match v
    case None => Ok(Option.None)
    case Some(c) =>
      if C.IsNil(c) then Ok(Option.None)
      else
        match C.AsStr(c)
        case Some(s) => Ok(Option.Some(s))
        case None => Err(LC.UnexpectedDataType)
  }

  /// What `pop_str` makes of it: `pop_nullable_str` with `None` turned
  /// into `UnexpectedDataType`.
  function Str(v: Option<C.Content>): (r: Result<string, LC.ContentError>)
  {
    match NullableStr(v)
    case Err(e) => Err(e)
    case Ok(None) => Err(LC.UnexpectedDataType)
    case Ok(Some(s)) => Ok(s)
  }

  lemma StrAccepts(v: Option<C.Content>)
    ensures Str(v).Ok? <==> v.Some? && C.AsStr(v.value).Some?
    ensures Str(v).Ok? ==> Str(v).value == C.AsStr(v.value).value
    ensures Str(v).Err? ==> Str(v).error == LC.UnexpectedDataType
  {
    if v.Some? && C.AsStr(v.value).Some? {
      assert C.ResolveInner(v.value).String?;
      assert !C.IsNil(v.value);
    }
  }

  /// `as_i64().and_then(|n| u32::try_from(n).ok())`, with `as_i64` as
  /// written: a large unsigned value it wraps to a negative one is refused
  /// by `u32::try_from`, so only integers in `u32`'s range are read.
  function AsU32(c: C.Content): (r: Option<C.u32>)
    ensures r.Some? <==> C.AsI64(c).Some? && 0 <= C.AsI64(c).value < C.TWO_32
    ensures r.Some? ==> r.value == C.AsI64(c).value
  {
    C.AsI64Agrees(c);
    match C.AsI64AsWritten(c)
    case None => Option.None
    case Some(n) => if 0 <= n < C.TWO_32 then Option.Some(n) else Option.None
  }

  /// What `pop_nullable_u32` makes of the removed field.
  function NullableU32(v: Option<C.Content>): (r: Result<Option<C.u32>, LC.ContentError>)
    ensures r.Ok? <==> v.None? || C.IsNil(v.value) || AsU32(v.value).Some?
    ensures r.Err? ==> r.error == LC.UnexpectedDataType
  {
    match v
    case None => Ok(Option.None)
    case Some(c) =>
      if C.IsNil(c) then Ok(Option.None)
      else
        match AsU32(c)
        case Some(n) => Ok(Option.Some(n))
        case None => Err(LC.UnexpectedDataType)
  }

  /// What `pop_u32` makes of it.
  function U32(v: Option<C.Content>): (r: Result<C.u32, LC.ContentError>)
  {
    match NullableU32(v)
    case Err(e) => Err(e)
    case Ok(None) => Err(LC.UnexpectedDataType)
    case Ok(Some(n)) => Ok(n)
  }

  /// `pop_u32` accepts exactly the values whose integer, behind any
  /// wrappers, lies in `u32`'s range; every failure, a missing field
  /// included, is `UnexpectedDataType`.
  lemma U32Accepts(v: Option<C.Content>)
    ensures U32(v).Ok? <==> v.Some? && AsU32(v.value).Some?
    ensures U32(v).Ok? ==> U32(v).value == C.IntValue(C.ResolveInner(v.value)).value
    ensures U32(v).Err? ==> U32(v).error == LC.UnexpectedDataType
  {
    if v.Some? && AsU32(v.value).Some? {
      assert C.FitsI64(v.value);
      assert !C.IsNil(v.value);
    }
  }

  method PopNullableStr(m: FieldMap, key: string) returns (r: Result<Option<string>, LC.ContentError>)
    modifies m
    ensures m.fields == old(m.fields) - {key}
    ensures r == NullableStr(Lookup(old(m.fields), key))
  {
    var v := m.Remove(key);
    if v.None? {
      r := Ok(Option.None);
    } else if C.IsNil(v.value) {
      r := Ok(Option.None);
    } else {
      var s := C.AsStr(v.value);
      if s.Some? {
        r := Ok(Option.Some(s.value));
      } else {
        r := Err(LC.UnexpectedDataType);
      }
    }
  }

  method PopStr(m: FieldMap, key: string) returns (r: Result<string, LC.ContentError>)
    modifies m
    ensures m.fields == old(m.fields) - {key}
    ensures r == Str(Lookup(old(m.fields), key))
  {
    var n := PopNullableStr(m, key);
    if n.Err? {
      r := Err(n.error);
    } else if n.value.None? {
      r := Err(LC.UnexpectedDataType);
    } else {
      r := Ok(n.value.value);
    }
  }

  method PopNullableU32(m: FieldMap, key: string) returns (r: Result<Option<C.u32>, LC.ContentError>)
    modifies m
    ensures m.fields == old(m.fields) - {key}
    ensures r == NullableU32(Lookup(old(m.fields), key))
  {
    var v := m.Remove(key);
    if v.None? {
      r := Ok(Option.None);
    } else if C.IsNil(v.value) {
      r := Ok(Option.None);
    } else {
      var n := AsU32(v.value);
      if n.Some? {
        r := Ok(Option.Some(n.value));
      } else {
        r := Err(LC.UnexpectedDataType);
      }
    }
  }

  method PopU32(m: FieldMap, key: string) returns (r: Result<C.u32, LC.ContentError>)
    modifies m
    ensures m.fields == old(m.fields) - {key}
    ensures r == U32(Lookup(old(m.fields), key))
  {
    var n := PopNullableU32(m, key);
    if n.Err? {
      r := Err(n.error);
    } else if n.value.None? {
      r := Err(LC.UnexpectedDataType);
    } else {
      r := Ok(n.value.value);
    }
  }
}
