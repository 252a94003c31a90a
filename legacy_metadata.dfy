// The older generation's snapshot metadata as content (src/snapshot.rs):
// `MetaData::as_content` lists the fields that are set, and
// `MetaData::from_content` reads them back with the `ContentUtils`
// helpers.  A metadata value written to YAML and read back is the value
// it was.
module LegacyMetaData {
  import opened Wrappers
  import C = Contents
  import LC = LegacyContent
  import LS = LegacySnapshot
  import CU = ContentUtils
  import Y = YamlFormat

  /// A one-field list when the field is set, none otherwise.
  function Field(name: string, v: Option<C.Content>): seq<(string, C.Content)>
  {
    if v.Some? then [(name, v.value)] else []
  }

  function StrContent(s: Option<string>): Option<C.Content>
  {
    if s.Some? then Option.Some(C.String(s.value)) else Option.None
  }

  function LineContent(n: Option<C.u32>): Option<C.Content>
  {
    if n.Some? then Option.Some(C.U32(n.value)) else Option.None
  }

  /// The fields `as_content` pushes, in its order: source, expression,
  /// assertion line, description, info, input file; each only when set.
  function MetaFields(md: LS.MetaData): seq<(string, C.Content)>
  {
    Field("source", StrContent(md.source))
    + Field("expression", StrContent(md.expression))
    + Field("assertion_line", LineContent(md.assertionLine))
    + Field("description", StrContent(md.description))
    + Field("info", md.info)
    + Field("input_file", StrContent(md.inputFile))
  }

  /// `MetaData::as_content`.
  method AsContent(md: LS.MetaData) returns (c: C.Content)
    ensures c == C.Struct("MetaData", MetaFields(md))
  {
    var fields: seq<(string, C.Content)> := [];
    if md.source.Some? {
      fields := fields + [("source", C.String(md.source.value))];
    }
    assert fields == Field("source", StrContent(md.source));
    if md.expression.Some? {
      fields := fields + [("expression", C.String(md.expression.value))];
    }
    assert fields == Field("source", StrContent(md.source)) + Field("expression", StrContent(md.expression));
    ghost var upToExpression := fields;
    if md.assertionLine.Some? {
      fields := fields + [("assertion_line", C.U32(md.assertionLine.value))];
    }
    assert fields == upToExpression + Field("assertion_line", LineContent(md.assertionLine));
    ghost var upToLine := fields;
    if md.description.Some? {
      fields := fields + [("description", C.String(md.description.value))];
    }
    assert fields == upToLine + Field("description", StrContent(md.description));
    ghost var upToDescription := fields;
    if md.info.Some? {
      fields := fields + [("info", md.info.value)];
    }
    assert fields == upToDescription + Field("info", md.info);
    ghost var upToInfo := fields;
    if md.inputFile.Some? {
      fields := fields + [("input_file", C.String(md.inputFile.value))];
    }
    assert fields == upToInfo + Field("input_file", StrContent(md.inputFile));
    c := C.Struct("MetaData", fields);
  }

  /// What `from_content` reads from the field map: each field through its
  /// `pop_*` helper, `info` as it is; the first failing helper decides the
  /// error.
  function FromMap(m: map<string, C.Content>): (r: Result<LS.MetaData, LC.ContentError>)
  {
    var source := CU.NullableStr(CU.Lookup(m, "source"));
    var line := CU.NullableU32(CU.Lookup(m, "assertion_line"));
    if source.Err? then Err(source.error)
    else if line.Err? then Err(line.error)
    else
      match RestOf(m)
      case Err(e) => Err(e)
      case Ok((description, expression, info, inputFile)) =>
        Ok(LS.MetaData(source.value, line.value, description, expression, info, inputFile))
  }

  /// `MetaData::from_content`: only a map is accepted.
  function FromContent(c: C.Content): (r: Result<LS.MetaData, LC.ContentError>)
    ensures !c.Map? ==> r == Err(LC.UnexpectedDataType)
    ensures c.Map? && CU.StructFields(c.entries).Err? ==> r.Err? && r.error.InvalidStructField?
  {
    if !c.Map? then Err(LC.UnexpectedDataType)
    else
      match CU.StructFields(c.entries)
      case Err(e) => Err(e)
      case Ok(m) => FromMap(m)
  }

  /// `MetaData::from_content`, taking the fields out one at a time.
  method MetaDataFromContent(content: C.Content) returns (r: Result<LS.MetaData, LC.ContentError>)
    ensures r == FromContent(content)
  {
    if !content.Map? {
      r := Err(LC.UnexpectedDataType);
    } else {
      var fm := CU.StructFields(content.entries);
      if fm.Err? {
        r := Err(fm.error);
      } else {
        var m := new CU.FieldMap(fm.value);
        r := PopAll(m);
      }
    }
  }

  /// The `pop_*` calls of `from_content`, one after the other.
  method PopAll(m: CU.FieldMap) returns (r: Result<LS.MetaData, LC.ContentError>)
    modifies m
    ensures r == FromMap(old(m.fields))
  {
    ghost var m0 := m.fields;
    var source := CU.PopNullableStr(m, "source");
    if source.Err? {
      r := Err(source.error);
    } else {
      LookupOther(m0, "source", "assertion_line");
      var line := CU.PopNullableU32(m, "assertion_line");
      if line.Err? {
        r := Err(line.error);
      } else {
        ghost var m1 := m0 - {"source"};
        LookupOther(m0, "source", "description");
        LookupOther(m1, "assertion_line", "description");
        var rest := PopRest(m);
        assert rest == RestOf(m0);
        r := if rest.Err? then Err(rest.error)
             else Ok(LS.MetaData(source.value, line.value, rest.value.0, rest.value.1, rest.value.2, rest.value.3));
      }
    }
  }

  /// The calls of `from_content` after the assertion line: description,
  /// expression, info and input file.
  method PopRest(m: CU.FieldMap)
    returns (r: Result<(Option<string>, Option<string>, Option<C.Content>, Option<string>), LC.ContentError>)
    modifies m
    ensures r == RestOf(old(m.fields))
  {
    ghost var m0 := m.fields;
    var description := CU.PopNullableStr(m, "description");
    if description.Err? {
      r := Err(description.error);
    } else {
      LookupOther(m0, "description", "expression");
      var expression := CU.PopNullableStr(m, "expression");
      if expression.Err? {
        r := Err(expression.error);
      } else {
        ghost var m1 := m0 - {"description"};
        LookupOther(m0, "description", "info");
        LookupOther(m1, "expression", "info");
        LookupOther(m0, "description", "input_file");
        LookupOther(m1, "expression", "input_file");
        var info := m.Remove("info");
        LookupOther(m1 - {"expression"}, "info", "input_file");
        var inputFile := CU.PopNullableStr(m, "input_file");
        r := if inputFile.Err? then Err(inputFile.error)
             else Ok((description.value, expression.value, info, inputFile.value));
      }
    }
  }

  /// What `PopRest` reads from the field map.
  function RestOf(m: map<string, C.Content>)
    : Result<(Option<string>, Option<string>, Option<C.Content>, Option<string>), LC.ContentError>
  {
    var description := CU.NullableStr(CU.Lookup(m, "description"));
    var expression := CU.NullableStr(CU.Lookup(m, "expression"));
    var inputFile := CU.NullableStr(CU.Lookup(m, "input_file"));
    if description.Err? then Err(description.error)
    else if expression.Err? then Err(expression.error)
    else if inputFile.Err? then Err(inputFile.error)
    else Ok((description.value, expression.value, CU.Lookup(m, "info"), inputFile.value))
  }

  /// Removing one key leaves every other key's lookup as it was.
  lemma LookupOther(m: map<string, C.Content>, gone: string, key: string)
    requires gone != key
    ensures CU.Lookup(m - {gone}, key) == CU.Lookup(m, key)
  {
  }

  // ---------------------------------------------------------------------
  // Through YAML and back

  /// The field map of those entries; a later name wins.
  function FieldsMap(fs: seq<(string, C.Content)>): map<string, C.Content>
  {
    if fs == [] then map[] else map[fs[0].0 := Y.Reloaded(fs[0].1)] + FieldsMap(fs[1..])
  }

  lemma {:induction false} StructFieldsReloaded(fs: seq<(string, C.Content)>)
    ensures CU.StructFields(Y.ReloadedEntries(fs)) == Ok(FieldsMap(fs))
  {
    if fs != [] {
      var es := Y.ReloadedEntries(fs);
      assert es[0] == (C.String(fs[0].0), Y.Reloaded(fs[0].1)) && es[1..] == Y.ReloadedEntries(fs[1..]);
      StructFieldsReloaded(fs[1..]);
    }
  }

  lemma {:induction false} FieldsMapAppend(a: seq<(string, C.Content)>, b: seq<(string, C.Content)>)
    ensures FieldsMap(a + b) == FieldsMap(a) + FieldsMap(b)
  {
    if a == [] {
      assert a + b == b;
    } else {
      assert (a + b)[0] == a[0] && (a + b)[1..] == a[1..] + b;
      FieldsMapAppend(a[1..], b);
      UnionAssociates(map[a[0].0 := Y.Reloaded(a[0].1)], FieldsMap(a[1..]), FieldsMap(b));
    }
  }

  lemma UnionAssociates(x: map<string, C.Content>, y: map<string, C.Content>, z: map<string, C.Content>)
    ensures x + (y + z) == (x + y) + z
  {
  }

  /// The reloaded field map of a metadata value, field by field.
  lemma MetaFieldsMap(md: LS.MetaData)
    ensures FieldsMap(MetaFields(md))
      == FieldsMap(Field("source", StrContent(md.source)))
      + FieldsMap(Field("expression", StrContent(md.expression)))
      + FieldsMap(Field("assertion_line", LineContent(md.assertionLine)))
      + FieldsMap(Field("description", StrContent(md.description)))
      + FieldsMap(Field("info", md.info))
      + FieldsMap(Field("input_file", StrContent(md.inputFile)))
  {
    var s := Field("source", StrContent(md.source));
    var e := Field("expression", StrContent(md.expression));
    var l := Field("assertion_line", LineContent(md.assertionLine));
    var d := Field("description", StrContent(md.description));
    var i := Field("info", md.info);
    var f := Field("input_file", StrContent(md.inputFile));
    FieldsMapAppend(s + e + l + d + i, f);
    FieldsMapAppend(s + e + l + d, i);
    FieldsMapAppend(s + e + l, d);
    FieldsMapAppend(s + e, l);
    FieldsMapAppend(s, e);
  }

  /// The value a set field holds after the trip.
  function OneField(name: string, v: Option<C.Content>): map<string, C.Content>
  {
    if v.Some? then map[name := Y.Reloaded(v.value)] else map[]
  }

  lemma FieldMapOfField(name: string, v: Option<C.Content>)
    ensures FieldsMap(Field(name, v)) == OneField(name, v)
  {
    if v.Some? {
      assert Field(name, v)[1..] == [];
    }
  }

  /// A key the right-hand map lacks is looked up on the left.
  lemma LookupLeft(a: map<string, C.Content>, b: map<string, C.Content>, key: string)
    requires key !in b
    ensures CU.Lookup(a + b, key) == CU.Lookup(a, key)
  {
  }

  /// A key the left-hand map lacks is looked up on the right.
  lemma LookupRight(a: map<string, C.Content>, b: map<string, C.Content>, key: string)
    requires key !in a
    ensures CU.Lookup(a + b, key) == CU.Lookup(b, key)
  {
  }

  /// In the union of the six one-field maps each name finds its own field.
  lemma SixLookups(s: map<string, C.Content>, e: map<string, C.Content>, l: map<string, C.Content>,
                   d: map<string, C.Content>, i: map<string, C.Content>, f: map<string, C.Content>)
    requires s.Keys <= {"source"} && e.Keys <= {"expression"} && l.Keys <= {"assertion_line"}
    requires d.Keys <= {"description"} && i.Keys <= {"info"} && f.Keys <= {"input_file"}
    ensures var m := s + e + l + d + i + f;
      CU.Lookup(m, "source") == CU.Lookup(s, "source")
      && CU.Lookup(m, "expression") == CU.Lookup(e, "expression")
      && CU.Lookup(m, "assertion_line") == CU.Lookup(l, "assertion_line")
      && CU.Lookup(m, "description") == CU.Lookup(d, "description")
      && CU.Lookup(m, "info") == CU.Lookup(i, "info")
      && CU.Lookup(m, "input_file") == CU.Lookup(f, "input_file")
  {
    var m1 := s + e;
    var m2 := m1 + l;
    var m3 := m2 + d;
    var m4 := m3 + i;
    LookupLeft(m4, f, "source");
    LookupLeft(m3, i, "source");
    LookupLeft(m2, d, "source");
    LookupLeft(m1, l, "source");
    LookupLeft(s, e, "source");
    LookupLeft(m4, f, "expression");
    LookupLeft(m3, i, "expression");
    LookupLeft(m2, d, "expression");
    LookupLeft(m1, l, "expression");
    LookupRight(s, e, "expression");
    LookupLeft(m4, f, "assertion_line");
    LookupLeft(m3, i, "assertion_line");
    LookupLeft(m2, d, "assertion_line");
    LookupRight(m1, l, "assertion_line");
    LookupLeft(m4, f, "description");
    LookupLeft(m3, i, "description");
    LookupRight(m2, d, "description");
    LookupLeft(m4, f, "info");
    LookupRight(m3, i, "info");
    LookupRight(m4, f, "input_file");
  }

  /// The field map holds what `from_content` needs to rebuild `md`.
  lemma FromMapReads(m: map<string, C.Content>, md: LS.MetaData)
    requires CU.NullableStr(CU.Lookup(m, "source")) == Ok(md.source)
    requires CU.NullableStr(CU.Lookup(m, "expression")) == Ok(md.expression)
    requires CU.NullableU32(CU.Lookup(m, "assertion_line")) == Ok(md.assertionLine)
    requires CU.NullableStr(CU.Lookup(m, "description")) == Ok(md.description)
    requires CU.Lookup(m, "info") == md.info
    requires CU.NullableStr(CU.Lookup(m, "input_file")) == Ok(md.inputFile)
    ensures FromMap(m) == Ok(md)
  {
  }

  /// A string field reads back as itself.
  lemma ReadField(name: string, s: Option<string>)
    ensures CU.NullableStr(CU.Lookup(OneField(name, StrContent(s)), name)) == Ok(s)
  {
    if s.Some? {
      assert Y.Reloaded(C.String(s.value)) == C.String(s.value);
    }
  }

  /// The assertion line reads back as itself, now an `i64`.
  lemma ReadLine(n: Option<C.u32>)
    ensures CU.NullableU32(CU.Lookup(OneField("assertion_line", LineContent(n)), "assertion_line")) == Ok(n)
  {
    if n.Some? {
      assert Y.Reloaded(C.U32(n.value)) == C.I64(n.value);
    }
  }

  /// The info reads back as itself when YAML keeps it as it is.
  lemma ReadInfo(v: Option<C.Content>)
    requires v.None? || Y.Native(v.value)
    ensures CU.Lookup(OneField("info", v), "info") == v
  {
    if v.Some? {
      Y.NativeRoundTrip(v.value);
    }
  }

  /// The reloaded field map of a metadata value, field by field.
  lemma MetaFieldsOneFields(md: LS.MetaData)
    ensures FieldsMap(MetaFields(md))
      == OneField("source", StrContent(md.source))
      + OneField("expression", StrContent(md.expression))
      + OneField("assertion_line", LineContent(md.assertionLine))
      + OneField("description", StrContent(md.description))
      + OneField("info", md.info)
      + OneField("input_file", StrContent(md.inputFile))
  {
    MetaFieldsMap(md);
    FieldMapOfField("source", StrContent(md.source));
    FieldMapOfField("expression", StrContent(md.expression));
    FieldMapOfField("assertion_line", LineContent(md.assertionLine));
    FieldMapOfField("description", StrContent(md.description));
    FieldMapOfField("info", md.info);
    FieldMapOfField("input_file", StrContent(md.inputFile));
  }

  /// A struct dumped to YAML and reloaded is read from its field map.
  lemma ReloadedStruct(fs: seq<(string, C.Content)>)
    ensures FromContent(Y.Reloaded(C.Struct("MetaData", fs))) == FromMap(FieldsMap(fs))
  {
    Y.ReloadedStructIsMap("MetaData", fs);
    StructFieldsReloaded(fs);
  }

  /// The field map of a metadata value's fields rebuilds the value.
  lemma ReadBack(md: LS.MetaData)
    requires md.info.None? || Y.Native(md.info.value)
    ensures FromMap(FieldsMap(MetaFields(md))) == Ok(md)
  {
    MetaFieldsOneFields(md);
    SixLookups(OneField("source", StrContent(md.source)),
               OneField("expression", StrContent(md.expression)),
               OneField("assertion_line", LineContent(md.assertionLine)),
               OneField("description", StrContent(md.description)),
               OneField("info", md.info),
               OneField("input_file", StrContent(md.inputFile)));
    ReadField("source", md.source);
    ReadField("expression", md.expression);
    ReadField("description", md.description);
    ReadField("input_file", md.inputFile);
    ReadLine(md.assertionLine);
    ReadInfo(md.info);
    FromMapReads(FieldsMap(MetaFields(md)), md);
  }

  /// A metadata value survives `as_content`, a YAML dump and reload, and
  /// `from_content`, provided its info is content YAML keeps as it is.
  lemma MetaDataRoundTrip(md: LS.MetaData)
    requires md.info.None? || Y.Native(md.info.value)
    ensures FromContent(Y.Reloaded(C.Struct("MetaData", MetaFields(md)))) == Ok(md)
  {
    ReloadedStruct(MetaFields(md));
    ReadBack(md);
  }
}
