// The older generation's YAML glue (src/content/yaml.rs and the YAML half
// of src/content/formats.rs).  It converts node by node as the current
// generation does (`YamlFormat.FromYamlBlob`, `YamlFormat.ToYamlValue`,
// `YamlFormat.ToString`), with three differences: the error type; `as_yaml`,
// which appends a newline unconditionally; and its maps, which are
// `yaml_rust` `Hash` values holding one pair per key, where the current
// generation keeps a vector of pairs (`Collect` below).
module LegacyYaml {
  import opened Wrappers
  import opened Strs
  import C = Contents
  import LC = LegacyContent
  import Y = YamlFormat

  /// `parse_str` and `Content::from_yaml`: one document, converted, or
  /// `FailedParsingYaml`.  Given the same loaded documents, they accept
  /// exactly what the current `parse_str` accepts and give the same content;
  /// the older loader's maps never hold a key twice.
  function ParseStr(docs: Option<seq<Y.Yaml>>): (r: Result<C.Content, LC.ContentError>)
    ensures r.Ok? <==> docs.Some? && |docs.value| == 1 && Y.Sound(docs.value[0])
    ensures r.Err? ==> r.error == LC.FailedParsingYaml
    ensures forall filename :: r.Ok? <==> Y.ParseStr(docs, filename).Ok?
    ensures r.Ok? ==> forall filename :: Y.ParseStr(docs, filename) == Ok(r.value)
  {
    match Y.SingleDocument(docs)
    case None => Err(LC.FailedParsingYaml)
    case Some(blob) =>
      match Y.FromYamlBlob(blob)
      case None => Err(LC.FailedParsingYaml)
      case Some(c) => Ok(c)
  }

  /// An `Alias` node is refused wherever it sits.
  lemma AliasRefused(before: seq<Y.Yaml>, n: nat, after: seq<Y.Yaml>)
    ensures ParseStr(Option.Some([Y.Array(before + [Y.Alias(n)] + after)])) == Err(LC.FailedParsingYaml)
  {
    AliasItems(before, n, after);
  }

  lemma {:induction false} AliasItems(before: seq<Y.Yaml>, n: nat, after: seq<Y.Yaml>)
    ensures !Y.SoundItems(before + [Y.Alias(n)] + after)
    decreases |before|
  {
    var ys := before + [Y.Alias(n)] + after;
    if before == [] {
      assert ys[0] == Y.Alias(n);
    } else {
      assert ys[0] == before[0];
      assert ys[1..] == before[1..] + [Y.Alias(n)] + after;
      AliasItems(before[1..], n, after);
    }
  }

  // ---------------------------------------------------------------------
  // Maps collected into a `Hash`

  /// The keys of a sequence of pairs, in order.
  function KeysOf(ps: seq<(Y.Yaml, Y.Yaml)>): (r: seq<Y.Yaml>)
    ensures |r| == |ps| && forall i :: 0 <= i < |ps| ==> r[i] == ps[i].0
  {
    seq(|ps|, i requires 0 <= i < |ps| => ps[i].0)
  }

  ghost predicate DistinctKeys(ps: seq<(Y.Yaml, Y.Yaml)>)
  {
    forall i, j :: 0 <= i < j < |ps| ==> ps[i].0 != ps[j].0
  }

  /// `.collect()` of pairs into a `yaml_rust` `Hash`, the `Content::Map`
  /// arm of `to_yaml_value`: each insert of a key already present replaces
  /// its value and moves it to the back (the `insert` of the
  /// `linked-hash-map` crate, which is not part of this model), so a key
  /// stays once, with its last pair, at the place of that pair.
  function Collect(ps: seq<(Y.Yaml, Y.Yaml)>): (r: seq<(Y.Yaml, Y.Yaml)>)
    ensures |r| <= |ps|
    ensures forall i :: 0 <= i < |r| ==> r[i] in ps
    decreases |ps|
  {
    if ps == [] then []
    else
      var rest := Collect(ps[1..]);
      if ps[0].0 in KeysOf(ps[1..]) then rest else [ps[0]] + rest
  }

  lemma KeysOfCons(ps: seq<(Y.Yaml, Y.Yaml)>)
    requires ps != []
    ensures KeysOf(ps) == [ps[0].0] + KeysOf(ps[1..])
  {
  }

  /// The collected map has the keys of the pairs.
  lemma {:induction false} CollectKeys(ps: seq<(Y.Yaml, Y.Yaml)>)
    ensures forall k :: k in KeysOf(Collect(ps)) <==> k in KeysOf(ps)
    decreases |ps|
  {
    if ps != [] {
      KeysOfCons(ps);
      CollectKeys(ps[1..]);
      var r := Collect(ps);
      if ps[0].0 !in KeysOf(ps[1..]) {
        assert r == [ps[0]] + Collect(ps[1..]);
        KeysOfCons(r);
        assert r[1..] == Collect(ps[1..]);
      }
    }
  }

  /// Each key only once.
  lemma {:induction false} CollectDistinctKeys(ps: seq<(Y.Yaml, Y.Yaml)>)
    ensures DistinctKeys(Collect(ps))
    decreases |ps|
  {
    if ps != [] {
      CollectDistinctKeys(ps[1..]);
      if ps[0].0 !in KeysOf(ps[1..]) {
        CollectKeys(ps[1..]);
        DistinctCons(ps[0], Collect(ps[1..]));
      }
    }
  }

  lemma DistinctCons(p: (Y.Yaml, Y.Yaml), rest: seq<(Y.Yaml, Y.Yaml)>)
    requires DistinctKeys(rest) && p.0 !in KeysOf(rest)
    ensures DistinctKeys([p] + rest)
  {
    var r := [p] + rest;
    forall i, j | 0 <= i < j < |r| ensures r[i].0 != r[j].0 {
      assert r[j] == rest[j - 1];
      if i == 0 {
        assert KeysOf(rest)[j - 1] == rest[j - 1].0;
      } else {
        assert r[i] == rest[i - 1];
      }
    }
  }

  /// The pair last to use its key is the one the map keeps.
  lemma {:induction false} CollectKeepsLast(ps: seq<(Y.Yaml, Y.Yaml)>, j: nat)
    requires j < |ps| && ps[j].0 !in KeysOf(ps[j + 1..])
    ensures ps[j] in Collect(ps)
    decreases |ps|
  {
    if j == 0 {
      assert Collect(ps) == [ps[0]] + Collect(ps[1..]);
    } else {
      assert ps[1..][j - 1] == ps[j] && ps[1..][j - 1 + 1..] == ps[j + 1..];
      CollectKeepsLast(ps[1..], j - 1);
    }
  }

  /// Pairs with distinct keys are collected as they are: on such maps the
  /// older dump and the current one agree.
  lemma {:induction false} CollectDistinct(ps: seq<(Y.Yaml, Y.Yaml)>)
    requires DistinctKeys(ps)
    ensures Collect(ps) == ps
    decreases |ps|
  {
    if ps != [] {
      assert ps[0].0 !in KeysOf(ps[1..]);
      CollectDistinct(ps[1..]);
    }
  }

  /// The pairs `a: 1` and `a: 2` are collected as the one pair `a: 2`.
  lemma CollectMergesEqualKeys()
    ensures var a := Y.String("a");
      Collect([(a, Y.Integer(1)), (a, Y.Integer(2))]) == [(a, Y.Integer(2))]
  {
    var a := Y.String("a");
    var ps := [(a, Y.Integer(1)), (a, Y.Integer(2))];
    assert KeysOf(ps[1..]) == [a];
    assert Collect(ps[1..]) == [ps[1]] by {
      assert ps[1..][1..] == [];
    }
  }

  /// Where the older glue dumps `Content::Map([("a", 1), ("a", 2)])` as
  /// the one pair `a: 2`, the current generation writes both pairs.
  lemma CurrentKeepsEqualKeys()
    ensures var a := Y.String("a");
      Y.ToYamlValue(C.Map([(C.String("a"), C.I64(1)), (C.String("a"), C.I64(2))]))
      == Y.Hash([(a, Y.Integer(1)), (a, Y.Integer(2))])
  {
    var es := [(C.String("a"), C.I64(1)), (C.String("a"), C.I64(2))];
    assert Y.ToEntries(es[1..]) == [(Y.String("a"), Y.Integer(2))] by {
      assert es[1..][1..] == [];
    }
  }

  /// `Content::as_yaml`: the emitter's text and then a newline, always.
  function AsYaml(emit: Y.Yaml -> string, c: C.Content): (r: string)
    ensures |r| == |emit(Y.ToYamlValue(c))| + 1
    ensures emit(Y.ToYamlValue(c)) <= r && EndsWith(r, "\n")
  {
    emit(Y.ToYamlValue(c)) + "\n"
  }

  /// `as_yaml` and `to_string` differ exactly when the emitter's text
  /// already ends in a newline: `as_yaml` then ends in an empty line.
  lemma AsYamlVersusToString(emit: Y.Yaml -> string, c: C.Content)
    ensures AsYaml(emit, c) == Y.ToString(emit, c) <==> !EndsWith(emit(Y.ToYamlValue(c)), "\n")
    ensures EndsWith(emit(Y.ToYamlValue(c)), "\n") ==> EndsWith(AsYaml(emit, c), "\n\n")
  {
    var buf := emit(Y.ToYamlValue(c));
    var r := AsYaml(emit, c);
    if EndsWith(buf, "\n") {
      assert |r| != |Y.ToString(emit, c)|;
      assert r[|r| - 2] == buf[|buf| - 1];
      assert r[|r| - 2..] == "\n\n";
    }
  }
}
