// Snapshot metadata and the file-level bookkeeping around it
// (insta/src/snapshot.rs): the metadata record and its conversion to and
// from `Content`, the field dropped before a snapshot is persisted, the two
// ways whole snapshots match, the names taken from a snapshot file's path,
// and the filter that keeps only the last run of pending inline snapshots.
module SnapshotMeta {
  import opened Wrappers
  import opened Strs
  import Paths
  import C = Contents
  import S = Snapshot
  import Y = YamlFormat

  /// The two `content::Error` kinds `from_content` reports.
  datatype ContentError = MissingField | UnexpectedDataType

  /// `SnapshotKind`: text, or binary with the file extension.
  datatype SnapshotKind = Text | Binary(extension: string)

  datatype MetaData = MetaData(
    source: Option<string>,
    assertionLine: Option<C.u32>,
    description: Option<string>,
    expression: Option<string>,
    info: Option<C.Content>,
    inputFile: Option<string>,
    snapshotKind: SnapshotKind)

  // ---------------------------------------------------------------------
  // `MetaData::as_content` and `MetaData::from_content`.

  /// A field that is written only when it is set.
  function Field(key: string, v: Option<C.Content>): seq<(string, C.Content)>
  {
    if v.Some? then [(key, v.value)] else []
  }

  function StrContent(o: Option<string>): Option<C.Content>
  {
    if o.Some? then Some(C.String(o.value)) else None
  }

  function LineContent(o: Option<C.u32>): Option<C.Content>
  {
    if o.Some? then Some(C.U32(o.value)) else None
  }

  function KindFields(k: SnapshotKind): seq<(string, C.Content)>
  {
    match k
    case Text => []
    case Binary(e) => [("extension", C.String(e)), ("snapshot_kind", C.String("binary"))]
  }

  /// The fields of `as_content`, in the order it pushes them.
  function MetaFields(m: MetaData): seq<(string, C.Content)>
  {
    Field("source", StrContent(m.source))
    + Field("assertion_line", LineContent(m.assertionLine))
    + Field("description", StrContent(m.description))
    + Field("expression", StrContent(m.expression))
    + Field("info", m.info)
    + Field("input_file", StrContent(m.inputFile))
    + KindFields(m.snapshotKind)
  }

  function AsContent(m: MetaData): C.Content
  {
    C.Struct("MetaData", MetaFields(m))
  }

  /// The local variables of `from_content`'s loop.
  datatype Locals = Locals(
    source: Option<string>,
    assertionLine: Option<C.u32>,
    description: Option<string>,
    expression: Option<string>,
    info: Option<C.Content>,
    inputFile: Option<string>,
    binary: bool,
    extension: Option<string>)

  const Start: Locals := Locals(None, None, None, None, None, None, false, None)

  /// `x as u32` of a `u64`: the low 32 bits.
  function CastU32(v: C.u64): C.u32
  {
    v % C.TWO_32
  }

  /// One entry of the map: the field its key names is overwritten, an
  /// unknown key or a nil `info` leaves everything as it was.
  function Absorb(st: Locals, key: C.Content, value: C.Content): Locals
  {
    var k := C.AsStr(key);
    if k == Some("source") then st.(source := C.AsStr(value))
    else if k == Some("assertion_line") then
      st.(assertionLine := match C.AsU64(value) case None => None case Some(v) => Some(CastU32(v)))
    else if k == Some("description") then st.(description := C.AsStr(value))
    else if k == Some("expression") then st.(expression := C.AsStr(value))
    else if k == Some("info") && !C.IsNil(value) then st.(info := Some(value))
    else if k == Some("input_file") then st.(inputFile := C.AsStr(value))
    else if k == Some("snapshot_kind") then st.(binary := C.AsStr(value) == Some("binary"))
    else if k == Some("extension") then st.(extension := C.AsStr(value))
    else st
  }

  function AbsorbAll(st: Locals, es: seq<(C.Content, C.Content)>): Locals
    decreases |es|
  {
    if es == [] then st else AbsorbAll(Absorb(st, es[0].0, es[0].1), es[1..])
  }

  /// The record built after the loop: a binary kind needs an extension.
  function Finish(st: Locals): Result<MetaData, ContentError>
  {
    if st.binary && st.extension.None? then Err(MissingField)
    else
      var kind := if st.binary then Binary(st.extension.value) else Text;
      Ok(MetaData(st.source, st.assertionLine, st.description, st.expression, st.info, st.inputFile, kind))
  }

  function FromContent(c: C.Content): Result<MetaData, ContentError>
  {
    if c.Map? then Finish(AbsorbAll(Start, c.entries)) else Err(UnexpectedDataType)
  }

  /// `MetaData::from_content`
  method MetaDataFromContent(content: C.Content) returns (r: Result<MetaData, ContentError>)
    ensures r == FromContent(content)
  {
    if !content.Map? {
      return Err(UnexpectedDataType);
    }
    var entries := content.entries;
    var source: Option<string> := None;
    var assertionLine: Option<C.u32> := None;
    var description: Option<string> := None;
    var expression: Option<string> := None;
    var info: Option<C.Content> := None;
    var inputFile: Option<string> := None;
    var binary := false;
    var extension: Option<string> := None;
    var i := 0;
    while i < |entries|
      invariant i <= |entries|
      invariant AbsorbAll(Locals(source, assertionLine, description, expression, info, inputFile, binary, extension), entries[i..])
        == AbsorbAll(Start, entries)
    {
      var (key, value) := entries[i];
      var k := C.AsStr(key);
      if k == Some("source") {
        source := C.AsStr(value);
      } else if k == Some("assertion_line") {
        assertionLine := match C.AsU64(value) case None => None case Some(v) => Some(CastU32(v));
      } else if k == Some("description") {
        description := C.AsStr(value);
      } else if k == Some("expression") {
        expression := C.AsStr(value);
      } else if k == Some("info") && !C.IsNil(value) {
        info := Some(value);
      } else if k == Some("input_file") {
        inputFile := C.AsStr(value);
      } else if k == Some("snapshot_kind") {
        binary := C.AsStr(value) == Some("binary");
      } else if k == Some("extension") {
        extension := C.AsStr(value);
      }
      assert entries[i..][1..] == entries[i + 1..];
      i := i + 1;
    }
    r := Finish(Locals(source, assertionLine, description, expression, info, inputFile, binary, extension));
  }

  /// The map the YAML round trip turns a struct's fields into: string keys
  /// in the same order.
  function StructAsMap(fs: seq<(string, C.Content)>): (r: seq<(C.Content, C.Content)>)
    ensures |r| == |fs|
    ensures forall k :: 0 <= k < |fs| ==> r[k] == (C.String(fs[k].0), fs[k].1)
  {
    seq(|fs|, k requires 0 <= k < |fs| => (C.String(fs[k].0), fs[k].1))
  }

  lemma {:induction false} AbsorbAllConcat(st: Locals, a: seq<(C.Content, C.Content)>, b: seq<(C.Content, C.Content)>)
    ensures AbsorbAll(st, a + b) == AbsorbAll(AbsorbAll(st, a), b)
    decreases |a|
  {
    if a != [] {
      assert (a + b)[0] == a[0] && (a + b)[1..] == a[1..] + b;
      AbsorbAllConcat(Absorb(st, a[0].0, a[0].1), a[1..], b);
    } else {
      assert a + b == b;
    }
  }

  lemma StructAsMapConcat(a: seq<(string, C.Content)>, b: seq<(string, C.Content)>)
    ensures StructAsMap(a + b) == StructAsMap(a) + StructAsMap(b)
  {
  }

  /// Reading back the fields `as_content` wrote for `m`, one group at a
  /// time.
  lemma {:induction false} ReadFields(m: MetaData)
    requires m.info.Some? ==> !C.IsNil(m.info.value)
    ensures AbsorbAll(Start, StructAsMap(MetaFields(m)))
      == Locals(m.source, m.assertionLine, m.description, m.expression, m.info, m.inputFile,
                m.snapshotKind.Binary?, if m.snapshotKind.Binary? then Some(m.snapshotKind.extension) else None)
  {
    var f1 := Field("source", StrContent(m.source));
    var f2 := Field("assertion_line", LineContent(m.assertionLine));
    var f3 := Field("description", StrContent(m.description));
    var f4 := Field("expression", StrContent(m.expression));
    var f5 := Field("info", m.info);
    var f6 := Field("input_file", StrContent(m.inputFile));
    var f7 := KindFields(m.snapshotKind);
    var s1 := Start.(source := m.source);
    var s2 := s1.(assertionLine := m.assertionLine);
    var s3 := s2.(description := m.description);
    var s4 := s3.(expression := m.expression);
    var s5 := s4.(info := m.info);
    var s6 := s5.(inputFile := m.inputFile);
    ReadStr(Start, "source", m.source);
    ReadLine(s1, m.assertionLine);
    ReadStr(s2, "description", m.description);
    ReadStr(s3, "expression", m.expression);
    ReadInfo(s4, m.info);
    ReadStr(s5, "input_file", m.inputFile);
    ReadKind(s6, m.snapshotKind);
    assert MetaFields(m) == f1 + f2 + f3 + f4 + f5 + f6 + f7;
    ReadChain(f1, f2, f3, f4, f5, f6, f7);
  }

  /// Splits the read over the seven groups of fields.
  lemma {:induction false} ReadChain(f1: seq<(string, C.Content)>, f2: seq<(string, C.Content)>,
                                     f3: seq<(string, C.Content)>, f4: seq<(string, C.Content)>,
                                     f5: seq<(string, C.Content)>, f6: seq<(string, C.Content)>,
                                     f7: seq<(string, C.Content)>)
    ensures AbsorbAll(Start, StructAsMap(f1 + f2 + f3 + f4 + f5 + f6 + f7))
      == AbsorbAll(AbsorbAll(AbsorbAll(AbsorbAll(AbsorbAll(AbsorbAll(AbsorbAll(Start,
           StructAsMap(f1)), StructAsMap(f2)), StructAsMap(f3)), StructAsMap(f4)),
           StructAsMap(f5)), StructAsMap(f6)), StructAsMap(f7))
  {
    var g := f1 + f2 + f3 + f4 + f5 + f6;
    StructAsMapConcat(g, f7);
    AbsorbAllConcat(Start, StructAsMap(g), StructAsMap(f7));
    var g5 := f1 + f2 + f3 + f4 + f5;
    StructAsMapConcat(g5, f6);
    AbsorbAllConcat(Start, StructAsMap(g5), StructAsMap(f6));
    var g4 := f1 + f2 + f3 + f4;
    StructAsMapConcat(g4, f5);
    AbsorbAllConcat(Start, StructAsMap(g4), StructAsMap(f5));
    var g3 := f1 + f2 + f3;
    StructAsMapConcat(g3, f4);
    AbsorbAllConcat(Start, StructAsMap(g3), StructAsMap(f4));
    var g2 := f1 + f2;
    StructAsMapConcat(g2, f3);
    AbsorbAllConcat(Start, StructAsMap(g2), StructAsMap(f3));
    StructAsMapConcat(f1, f2);
    AbsorbAllConcat(Start, StructAsMap(f1), StructAsMap(f2));
  }

  lemma {:induction false} ReadOne(st: Locals, key: string, v: C.Content)
    ensures AbsorbAll(st, StructAsMap([(key, v)])) == Absorb(st, C.String(key), v)
  {
    var es := StructAsMap([(key, v)]);
    assert es == [(C.String(key), v)] && es[1..] == [];
  }

  lemma {:induction false} ReadStr(st: Locals, key: string, o: Option<string>)
    requires key in {"source", "description", "expression", "input_file"}
    ensures AbsorbAll(st, StructAsMap(Field(key, StrContent(o)))) ==
      if o.None? then st
      else if key == "source" then st.(source := o)
      else if key == "description" then st.(description := o)
      else if key == "expression" then st.(expression := o)
      else st.(inputFile := o)
  {
    if o.Some? {
      ReadOne(st, key, C.String(o.value));
    } else {
      assert StructAsMap([]) == [];
    }
  }

  lemma {:induction false} ReadLine(st: Locals, o: Option<C.u32>)
    ensures AbsorbAll(st, StructAsMap(Field("assertion_line", LineContent(o))))
      == if o.None? then st else st.(assertionLine := o)
  {
    if o.Some? {
      ReadOne(st, "assertion_line", C.U32(o.value));
      assert CastU32(o.value) == o.value;
    } else {
      assert StructAsMap([]) == [];
    }
  }

  lemma {:induction false} ReadInfo(st: Locals, o: Option<C.Content>)
    requires o.Some? ==> !C.IsNil(o.value)
    ensures AbsorbAll(st, StructAsMap(Field("info", o))) == if o.None? then st else st.(info := o)
  {
    if o.Some? {
      ReadOne(st, "info", o.value);
    } else {
      assert StructAsMap([]) == [];
    }
  }

  lemma {:induction false} ReadKind(st: Locals, k: SnapshotKind)
    ensures AbsorbAll(st, StructAsMap(KindFields(k)))
      == if k.Text? then st else st.(extension := Some(k.extension)).(binary := true)
  {
    if k.Binary? {
      var es := StructAsMap(KindFields(k));
      assert es == [(C.String("extension"), C.String(k.extension)), (C.String("snapshot_kind"), C.String("binary"))];
      var s1 := Absorb(st, C.String("extension"), C.String(k.extension));
      assert s1 == st.(extension := Some(k.extension));
      var s2 := Absorb(s1, C.String("snapshot_kind"), C.String("binary"));
      assert s2 == s1.(binary := true);
      assert es[1..][1..] == [];
      assert AbsorbAll(s2, es[1..][1..]) == s2;
      assert AbsorbAll(s1, es[1..]) == s2;
    } else {
      assert StructAsMap([]) == [];
    }
  }

  /// Metadata survives `as_content` followed by `from_content` on the map
  /// the struct becomes, provided a present `info` is not nil (`from_content`
  /// skips a nil `info`).
  lemma {:induction false} FromContentAsContent(m: MetaData)
    requires m.info.Some? ==> !C.IsNil(m.info.value)
    ensures FromContent(C.Map(StructAsMap(MetaFields(m)))) == Ok(m)
  {
    ReadFields(m);
  }

  // ---------------------------------------------------------------------
  // Through a snapshot file's header: `as_content`, the YAML dump, the
  // reload and `from_content`.

  /// `from_content` reads `v`, stored under `key`, the same once it has
  /// been through a YAML dump and reload.
  predicate ReadsSame(key: string, v: C.Content)
  {
    var r := Y.Reloaded(v);
    C.AsStr(r) == C.AsStr(v) && C.AsU64(r) == C.AsU64(v) && C.IsNil(r) == C.IsNil(v)
    && (key == "info" ==> r == v)
  }

  predicate AllReadSame(fs: seq<(string, C.Content)>)
  {
    forall k :: 0 <= k < |fs| ==> ReadsSame(fs[k].0, fs[k].1)
  }

  lemma AllReadSameConcat(a: seq<(string, C.Content)>, b: seq<(string, C.Content)>)
    requires AllReadSame(a) && AllReadSame(b)
    ensures AllReadSame(a + b)
  {
    forall k | 0 <= k < |a + b|
      ensures ReadsSame((a + b)[k].0, (a + b)[k].1)
    {
      if k < |a| {
        assert (a + b)[k] == a[k];
      } else {
        assert (a + b)[k] == b[k - |a|];
      }
    }
  }

  lemma {:induction false} AbsorbReloaded(st: Locals, fs: seq<(string, C.Content)>)
    requires AllReadSame(fs)
    ensures AbsorbAll(st, Y.ReloadedEntries(fs)) == AbsorbAll(st, StructAsMap(fs))
    decreases |fs|
  {
    if fs != [] {
      var es := Y.ReloadedEntries(fs);
      var ms := StructAsMap(fs);
      assert ReadsSame(fs[0].0, fs[0].1);
      assert es[0] == (C.String(fs[0].0), Y.Reloaded(fs[0].1)) && es[1..] == Y.ReloadedEntries(fs[1..]);
      assert ms[0] == (C.String(fs[0].0), fs[0].1) && ms[1..] == StructAsMap(fs[1..]);
      assert Absorb(st, es[0].0, es[0].1) == Absorb(st, ms[0].0, ms[0].1);
      assert AllReadSame(fs[1..]) by {
        forall k | 0 <= k < |fs[1..]|
          ensures ReadsSame(fs[1..][k].0, fs[1..][k].1)
        {
          assert fs[1..][k] == fs[k + 1];
        }
      }
      AbsorbReloaded(Absorb(st, ms[0].0, ms[0].1), fs[1..]);
    }
  }

  lemma StrReadsSame(key: string, o: Option<string>)
    requires key != "info"
    ensures AllReadSame(Field(key, StrContent(o)))
  {
    if o.Some? {
      assert Y.Reloaded(C.String(o.value)) == C.String(o.value);
    }
  }

  lemma LineReadsSame(o: Option<C.u32>)
    ensures AllReadSame(Field("assertion_line", LineContent(o)))
  {
    if o.Some? {
      assert Y.Reloaded(C.U32(o.value)) == C.I64(o.value);
    }
  }

  lemma InfoReadsSame(o: Option<C.Content>)
    requires o.Some? ==> Y.Native(o.value)
    ensures AllReadSame(Field("info", o))
  {
    if o.Some? {
      Y.NativeRoundTrip(o.value);
    }
  }

  lemma KindReadsSame(k: SnapshotKind)
    ensures AllReadSame(KindFields(k))
  {
    if k.Binary? {
      assert Y.Reloaded(C.String(k.extension)) == C.String(k.extension);
      assert Y.Reloaded(C.String("binary")) == C.String("binary");
    }
  }

  lemma {:induction false} MetaFieldsReadSame(m: MetaData)
    requires m.info.Some? ==> Y.Native(m.info.value)
    ensures AllReadSame(MetaFields(m))
  {
    var f1 := Field("source", StrContent(m.source));
    var f2 := Field("assertion_line", LineContent(m.assertionLine));
    var f3 := Field("description", StrContent(m.description));
    var f4 := Field("expression", StrContent(m.expression));
    var f5 := Field("info", m.info);
    var f6 := Field("input_file", StrContent(m.inputFile));
    var f7 := KindFields(m.snapshotKind);
    StrReadsSame("source", m.source);
    LineReadsSame(m.assertionLine);
    StrReadsSame("description", m.description);
    StrReadsSame("expression", m.expression);
    InfoReadsSame(m.info);
    StrReadsSame("input_file", m.inputFile);
    KindReadsSame(m.snapshotKind);
    AllReadSameConcat(f1, f2);
    AllReadSameConcat(f1 + f2, f3);
    AllReadSameConcat(f1 + f2 + f3, f4);
    AllReadSameConcat(f1 + f2 + f3 + f4, f5);
    AllReadSameConcat(f1 + f2 + f3 + f4 + f5, f6);
    AllReadSameConcat(f1 + f2 + f3 + f4 + f5 + f6, f7);
    assert MetaFields(m) == f1 + f2 + f3 + f4 + f5 + f6 + f7;
  }

  /// Metadata written into a snapshot file's YAML header reads back as
  /// itself, provided a present `info` is made of values YAML keeps as they
  /// are and is not nil. The struct reloads as a map with string keys, and
  /// the line number comes back as an `i64` of the same value.
  lemma {:induction false} YamlHeaderRoundTrip(m: MetaData)
    requires m.info.Some? ==> Y.Native(m.info.value) && !C.IsNil(m.info.value)
    ensures Y.FromYamlBlob(Y.ToYamlValue(AsContent(m))).Some?
    ensures FromContent(Y.FromYamlBlob(Y.ToYamlValue(AsContent(m))).value) == Ok(m)
  {
    Y.ReloadedStructIsMap("MetaData", MetaFields(m));
    MetaFieldsReadSame(m);
    AbsorbReloaded(Start, MetaFields(m));
    FromContentAsContent(m);
  }

  /// Any content that is not a map is rejected.
  lemma FromContentNotMap(c: C.Content)
    requires !c.Map?
    ensures FromContent(c) == Err(UnexpectedDataType)
  {
  }

  /// A binary kind without an extension is a missing field.
  lemma {:induction false} FromContentNeedsExtension()
    ensures FromContent(C.Map([(C.String("snapshot_kind"), C.String("binary"))])) == Err(MissingField)
  {
    var es := [(C.String("snapshot_kind"), C.String("binary"))];
    assert es[1..] == [];
    assert AbsorbAll(Start, es) == Start.(binary := true);
  }

  // ---------------------------------------------------------------------
  // `trim_for_persistence`

  function TrimForPersistence(m: MetaData): (r: MetaData)
    ensures r.assertionLine.None?
    ensures r.(assertionLine := m.assertionLine) == m
  {
    if m.assertionLine.Some? then m.(assertionLine := None) else m
  }

  /// Trimming twice is trimming once, and the persisted fields carry no
  /// `assertion_line`.
  lemma {:induction false} TrimForPersistenceIdempotent(m: MetaData)
    ensures TrimForPersistence(TrimForPersistence(m)) == TrimForPersistence(m)
    ensures forall k :: 0 <= k < |MetaFields(TrimForPersistence(m))| ==>
      MetaFields(TrimForPersistence(m))[k].0 != "assertion_line"
  {
    var t := TrimForPersistence(m);
    assert Field("assertion_line", LineContent(t.assertionLine)) == [];
  }

  // ---------------------------------------------------------------------
  // Whole snapshots: `Snapshot::matches` and `Snapshot::matches_fully`.

  datatype Snapshot = Snapshot(
    moduleName: string,
    snapshotName: Option<string>,
    metadata: MetaData,
    snapshot: S.SnapshotContents)

  /// `matches`: equal contents and, for binary snapshots' extensions, the
  /// same snapshot kind.
  predicate Matches(a: Snapshot, b: Snapshot)
  {
    S.ContentsEq(a.snapshot, b.snapshot) && a.metadata.snapshotKind == b.metadata.snapshotKind
  }

  /// `matches_fully`: text by the latest rules only, file snapshots also
  /// with equal persisted metadata; anything else as `matches`.
  predicate MatchesFully(a: Snapshot, b: Snapshot)
  {
    match (a.snapshot, b.snapshot)
    case (Text(x), Text(y)) =>
      var exact := S.MatchesLatest(x, y);
      if x.kind == S.File then TrimForPersistence(a.metadata) == TrimForPersistence(b.metadata) && exact
      else exact
    case _ => Matches(a, b)
  }

  /// Except for an inline snapshot compared with text, a full match is a
  /// match.
  lemma {:induction false} MatchesFullyMatches(a: Snapshot, b: Snapshot)
    requires !(a.snapshot.Text? && b.snapshot.Text? && a.snapshot.text.kind == S.Inline)
    ensures MatchesFully(a, b) ==> Matches(a, b)
  {
    if MatchesFully(a, b) && a.snapshot.Text? && b.snapshot.Text? {
      assert TrimForPersistence(a.metadata).snapshotKind == a.metadata.snapshotKind;
      assert TrimForPersistence(b.metadata).snapshotKind == b.metadata.snapshotKind;
    }
  }

  /// An inline snapshot's full match ignores the metadata, snapshot kind
  /// included, so it need not be a match.
  lemma {:induction false} InlineFullMatchIgnoresKind(t: S.TextSnapshotContents, m: MetaData)
    requires t.kind == S.Inline
    ensures var a := Snapshot("m", None, m.(snapshotKind := Text), S.Text(t));
      var b := Snapshot("m", None, m.(snapshotKind := Binary("png")), S.Text(t));
      MatchesFully(a, b) && !Matches(a, b)
  {
  }

  /// The line a snapshot was asserted on never decides a full match.
  lemma {:induction false} MatchesFullyIgnoresAssertionLine(a: Snapshot, b: Snapshot, line: Option<C.u32>)
    ensures MatchesFully(a, b) == MatchesFully(a, b.(metadata := b.metadata.(assertionLine := line)))
  {
    var b2 := b.(metadata := b.metadata.(assertionLine := line));
    assert TrimForPersistence(b2.metadata) == TrimForPersistence(b.metadata);
  }

  // ---------------------------------------------------------------------
  // `names_of_path`

  /// `(snapshot_name, module_name)` of a snapshot file: the file stem split
  /// at its last "__"; without one the module name is empty. A path without
  /// a file stem, where the source's `unwrap` panics, gives `None`.
  function NamesOfPath(p: Paths.Path): Option<(string, string)>
  {
    match Paths.FileStem(p)
    case None => None
    case Some(stem) =>
      match RFind(stem, "__")
      case None => Some((stem, ""))
      case Some(i) => Some((stem[i + 2..], stem[..i]))
  }

  /// Module name, "__" and snapshot name give the stem back, and the
  /// snapshot name is what follows the last "__".
  lemma {:induction false} NamesOfPathSplit(p: Paths.Path)
    ensures NamesOfPath(p).Some? <==> Paths.FileStem(p).Some?
    ensures NamesOfPath(p).Some? ==>
      var (name, moduleName) := NamesOfPath(p).value;
      var stem := Paths.FileStem(p).value;
      (moduleName == "" && name == stem && forall j :: 0 <= j <= |stem| ==> !At(stem, j, "__"))
      || (stem == moduleName + "__" + name && forall j :: |moduleName| < j <= |stem| ==> !At(stem, j, "__"))
  {
    if Paths.FileStem(p).Some? {
      var stem := Paths.FileStem(p).value;
      var r := RFind(stem, "__");
      if r.Some? {
        var i := r.value;
        assert stem[i..i + 2] == "__";
        assert stem == stem[..i] + "__" + stem[i + 2..];
      }
    }
  }

  // ---------------------------------------------------------------------
  // `PendingInlineSnapshot::load_batch` keeps only the last run.

  datatype PendingInlineSnapshot<Snap> = PendingInlineSnapshot(
    runId: string,
    line: C.u32,
    newSnapshot: Option<Snap>,
    oldSnapshot: Option<Snap>)

  /// The entries of run `id`, in their order.
  function KeepRun<Snap>(ps: seq<PendingInlineSnapshot<Snap>>, id: string): seq<PendingInlineSnapshot<Snap>>
    decreases |ps|
  {
    if ps == [] then []
    else
      var x := ps[|ps| - 1];
      KeepRun(ps[..|ps| - 1], id) + (if x.runId == id then [x] else [])
  }

  /// What `load_batch` returns: the entries of the last entry's run.
  function LastRun<Snap>(ps: seq<PendingInlineSnapshot<Snap>>): seq<PendingInlineSnapshot<Snap>>
  {
    if ps == [] then [] else KeepRun(ps, ps[|ps| - 1].runId)
  }

  lemma KeepRunSnoc<Snap>(ps: seq<PendingInlineSnapshot<Snap>>, x: PendingInlineSnapshot<Snap>, id: string)
    ensures KeepRun(ps + [x], id) == KeepRun(ps, id) + (if x.runId == id then [x] else [])
  {
    assert (ps + [x])[..|ps|] == ps;
  }

  /// `KeepRun` keeps exactly the entries with run id `id`.
  lemma {:induction false} KeepRunMembers<Snap>(ps: seq<PendingInlineSnapshot<Snap>>, id: string)
    ensures forall x :: x in KeepRun(ps, id) <==> x in ps && x.runId == id
    decreases |ps|
  {
    if ps != [] {
      KeepRunMembers(ps[..|ps| - 1], id);
      assert ps == ps[..|ps| - 1] + [ps[|ps| - 1]];
    }
  }

  lemma {:induction false} KeepRunKeepAll<Snap>(ps: seq<PendingInlineSnapshot<Snap>>, id: string)
    requires forall k :: 0 <= k < |ps| ==> ps[k].runId == id
    ensures KeepRun(ps, id) == ps
    decreases |ps|
  {
    if ps != [] {
      KeepRunKeepAll(ps[..|ps| - 1], id);
      assert ps == ps[..|ps| - 1] + [ps[|ps| - 1]];
    }
  }

  /// The last entry survives as the last one, every kept entry belongs to
  /// its run, every entry of that run is kept, and filtering again changes
  /// nothing.
  lemma {:induction false} LastRunSpec<Snap>(ps: seq<PendingInlineSnapshot<Snap>>)
    requires ps != []
    ensures var r := LastRun(ps);
      && r != [] && r[|r| - 1] == ps[|ps| - 1]
      && (forall x :: x in r <==> x in ps && x.runId == ps[|ps| - 1].runId)
      && LastRun(r) == r
  {
    var last := ps[|ps| - 1];
    var id := last.runId;
    var r := LastRun(ps);
    assert r == KeepRun(ps, id);
    LastRunEndsWithLast(ps);
    KeepRunMembers(ps, id);
    KeepRunRunIds(ps, id);
    KeepRunKeepAll(r, id);
    assert LastRun(r) == KeepRun(r, r[|r| - 1].runId);
  }

  lemma {:induction false} KeepRunRunIds<Snap>(ps: seq<PendingInlineSnapshot<Snap>>, id: string)
    ensures forall k :: 0 <= k < |KeepRun(ps, id)| ==> KeepRun(ps, id)[k].runId == id
    decreases |ps|
  {
    if ps != [] {
      KeepRunRunIds(ps[..|ps| - 1], id);
    }
  }

  lemma LastRunEndsWithLast<Snap>(ps: seq<PendingInlineSnapshot<Snap>>)
    requires ps != []
    ensures LastRun(ps) != [] && LastRun(ps)[|LastRun(ps)| - 1] == ps[|ps| - 1]
  {
    var last := ps[|ps| - 1];
    var front := ps[..|ps| - 1];
    assert ps == front + [last];
    KeepRunSnoc(front, last, last.runId);
  }

  /// `Vec::retain` of the entries of run `id`: an in-place compaction that
  /// returns the new length.
  method RetainRun<Snap>(a: array<PendingInlineSnapshot<Snap>>, id: string) returns (len: nat)
    modifies a
    ensures len <= a.Length
    ensures a[..len] == KeepRun(old(a[..]), id)
  {
    ghost var orig := a[..];
    var j := 0;
    for i := 0 to a.Length
      invariant j <= i
      invariant a[..j] == KeepRun(orig[..i], id)
      invariant a[i..] == orig[i..]
    {
      var x := a[i];
      assert x == orig[i];
      assert orig[..i + 1] == orig[..i] + [x];
      KeepRunSnoc(orig[..i], x, id);
      assert a[i + 1..] == a[i..][1..] == orig[i..][1..] == orig[i + 1..];
      if x.runId == id {
        ghost var pre := a[..];
        a[j] := x;
        assert a[..j + 1] == KeepRun(orig[..i], id) + [x];
        assert a[i + 1..] == pre[i + 1..];
        j := j + 1;
      }
    }
    assert orig[..a.Length] == orig;
    len := j;
  }

  /// The filter of `load_batch`.
  method LoadBatchFilter<Snap>(a: array<PendingInlineSnapshot<Snap>>) returns (len: nat)
    modifies a
    ensures len <= a.Length
    ensures a[..len] == LastRun(old(a[..]))
  {
    if a.Length == 0 {
      return 0;
    }
    var lastRunId := a[a.Length - 1].runId;
    len := RetainRun(a, lastRunId);
  }
}
