// Reading a `.snap` file of the older generation (src/loader.rs, and the
// same steps in `Snapshot::from_file` of src/snapshot.rs): a header, then
// the body.  A first line that trims to `---` opens a YAML header, which
// runs to the next line that trims to `---`; any other first line starts
// the legacy `key: value` header, which runs to the first blank line.  The
// rest of the file is the body.  The file name gives the module and
// snapshot names.
module Loader {
  import opened Wrappers
  import opened Strs
  import Paths
  import C = Contents
  import LC = LegacyContent
  import Y = YamlFormat
  import LY = LegacyYaml
  import LS = LegacySnapshot
  import LM = LegacyMetaData

  /// A loaded snapshot (`Snapshot::from_components`).
  datatype Snapshot = Snapshot(
    moduleName: string,
    snapshotName: Option<string>,
    metadata: LS.MetaData,
    contents: LS.SnapshotContents)

  /// `MetaData::default()`.
  const NoMetaData := LS.MetaData(Option.None, Option.None, Option.None, Option.None, Option.None, Option.None)

  // ---------------------------------------------------------------------
  // The reader

  /// What one `read_line` takes from the input: up to and including the
  /// first line break, or all that is left; and what remains after it.
  function NextLine(s: string): (r: (string, string))
    ensures r.0 + r.1 == s
    ensures s != [] ==> r.0 != []
    ensures forall k :: 0 <= k < |r.0| - 1 ==> r.0[k] != '\n'
    ensures r.1 != [] ==> r.0[|r.0| - 1] == '\n'
  {
    var i := IndexOfChar(s, '\n');
    if i == |s| then (s, []) else (s[..i + 1], s[i + 1..])
  }

  /// A line as `BufRead::lines` yields it: without its "\n" or "\r\n".
  function Stripped(line: string): string
  {
    if line != [] && line[|line| - 1] == '\n' then StripCr(line[..|line| - 1]) else line
  }

  /// Reading line by line and stripping each line gives `str::lines`.
  lemma LinesByLine(s: string)
    requires s != []
    ensures Lines(s) == [Stripped(NextLine(s).0)] + Lines(NextLine(s).1)
  {
    var i := IndexOfChar(s, '\n');
    if i < |s| {
      assert s[..i + 1][..i] == s[..i];
    }
  }

  /// The open file: the text not yet read.
  class Reader {
    var rest: string

    constructor(text: string)
      ensures rest == text
    {
      rest := text;
    }

    /// `BufRead::read_line`: the next line, with its line break; nothing
    /// at the end of the input.
    method ReadLine() returns (line: string)
      modifies this
      ensures (line, rest) == NextLine(old(rest))
    {
      var i := IndexOfChar(rest, '\n');
      if i == |rest| {
        line := rest;
        rest := [];
      } else {
        line := rest[..i + 1];
        rest := rest[i + 1..];
      }
    }
  }

  // ---------------------------------------------------------------------
  // The YAML header

  /// The lines after the opening `---` up to, not including, the first
  /// line whose `trim_end` is `---`, or all lines when there is none; and
  /// the text after that closing line.
  function YamlHeader(s: string): (string, string)
    decreases |s|
  {
    if s == [] then ([], [])
    else
      var (l, t) := NextLine(s);
      if TrimEnd(l) == "---" then ([], t)
      else
        var (h, u) := YamlHeader(t);
        (l + h, u)
  }

  /// Header lines, none of which trims to `---`, that end in a `---` line
  /// are the header, and what follows that line is the rest.
  lemma {:induction false} YamlHeaderOfLines(hs: seq<string>, close: string, rest: string)
    requires forall k :: 0 <= k < |hs| ==> '\n' !in hs[k] && TrimEnd(hs[k]) != "---"
    requires '\n' !in close && TrimEnd(close) == "---"
    ensures YamlHeader(Terminated(hs) + close + "\n" + rest) == (Terminated(hs), rest)
    decreases |hs|
  {
    var s := Terminated(hs) + close + "\n" + rest;
    if hs == [] {
      assert s == close + "\n" + rest;
      IndexOfCharAfter(close, '\n', rest);
      assert s[..|close| + 1] == close + "\n";
      TrimEndNewline(close);
    } else {
      var t := Terminated(hs[1..]) + close + "\n" + rest;
      assert s == hs[0] + "\n" + t;
      IndexOfCharAfter(hs[0], '\n', t);
      assert s[..|hs[0]| + 1] == hs[0] + "\n";
      assert s[|hs[0]| + 1..] == t;
      TrimEndNewline(hs[0]);
      YamlHeaderOfLines(hs[1..], close, rest);
    }
  }

  /// Without a closing line the header is everything that is left.
  lemma {:induction false} YamlHeaderUnclosed(hs: seq<string>)
    requires forall k :: 0 <= k < |hs| ==> '\n' !in hs[k] && TrimEnd(hs[k]) != "---"
    ensures YamlHeader(Terminated(hs)) == (Terminated(hs), [])
    decreases |hs|
  {
    if hs != [] {
      var s := Terminated(hs);
      var t := Terminated(hs[1..]);
      assert s == hs[0] + "\n" + t;
      IndexOfCharAfter(hs[0], '\n', t);
      assert s[..|hs[0]| + 1] == hs[0] + "\n";
      assert s[|hs[0]| + 1..] == t;
      TrimEndNewline(hs[0]);
      YamlHeaderUnclosed(hs[1..]);
    }
  }

  /// The loop of `deserialize` that reads the YAML header, appending each
  /// line to `buf` and taking the closing line off again.
  method ReadYamlHeader(r: Reader, buf0: string) returns (buf: string)
    modifies r
    ensures buf == buf0 + YamlHeader(old(r.rest)).0
    ensures r.rest == YamlHeader(old(r.rest)).1
  {
    ghost var s0 := r.rest;
    buf := buf0;
    while true
      invariant buf + YamlHeader(r.rest).0 == buf0 + YamlHeader(s0).0
      invariant YamlHeader(r.rest).1 == YamlHeader(s0).1
      decreases |r.rest|
    {
      ghost var before := r.rest;
      ghost var prev := buf;
      var line := r.ReadLine();
      YamlHeaderStep(before, line, r.rest);
      var read := |line|;
      if read == 0 {
        break;
      }
      buf := buf + line;
      TailOfAppend(prev, line);
      if TrimEnd(buf[|buf| - read..]) == "---" {
        buf := buf[..|buf| - read];
        break;
      }
      AppendAssoc(prev, line, YamlHeader(r.rest).0);
    }
  }

  /// What `buf + line` ends with, and what it starts with.
  lemma TailOfAppend(prev: string, line: string)
    ensures (prev + line)[|prev + line| - |line|..] == line
    ensures (prev + line)[..|prev + line| - |line|] == prev
  {
  }

  lemma AppendAssoc(a: string, b: string, c: string)
    ensures a + b + c == a + (b + c)
  {
  }

  /// One step of the header: the line read either ends the header or is
  /// part of it.
  lemma YamlHeaderStep(s: string, l: string, t: string)
    requires (l, t) == NextLine(s)
    ensures l == [] ==> YamlHeader(s) == ([], [])
    ensures l != [] && TrimEnd(l) == "---" ==> YamlHeader(s) == ([], t)
    ensures l != [] && TrimEnd(l) != "---" ==> YamlHeader(s) == (l + YamlHeader(t).0, YamlHeader(t).1)
    ensures l != [] ==> |t| < |s|
  {
  }

  // ---------------------------------------------------------------------
  // The legacy header

  /// One legacy header line: a `key:value` line whose key, lower-cased,
  /// is `expression` or `source` sets that field to the trimmed value;
  /// any other line leaves the metadata as it is.
  function LegacyField(md: LS.MetaData, line: string): LS.MetaData
  {
    var i := IndexOfChar(line, ':');
    if i == |line| then md
    else
      var key := ToLowercase(line[..i]);
      var value := Trim(line[i + 1..]);
      if key == "expression" then md.(expression := Option.Some(value))
      else if key == "source" then md.(source := Option.Some(value))
      else md
  }

  /// The legacy header: lines up to the first blank one (which is taken
  /// too) or the end; and the text after it.
  function LegacyHeader(md: LS.MetaData, s: string): (LS.MetaData, string)
    decreases |s|
  {
    if s == [] then (md, [])
    else
      var (l, t) := NextLine(s);
      if TrimEnd(l) == [] then (md, t) else LegacyHeader(LegacyField(md, l), t)
  }

  /// A blank line ends the legacy header; the text after it is the rest.
  lemma LegacyHeaderEndsAtBlank(md: LS.MetaData, blank: string, rest: string)
    requires '\n' !in blank && TrimEnd(blank) == []
    ensures LegacyHeader(md, blank + "\n" + rest) == (md, rest)
  {
    var s := blank + "\n" + rest;
    IndexOfCharAfter(blank, '\n', rest);
    assert s[..|blank| + 1] == blank + "\n";
    assert s[|blank| + 1..] == rest;
    TrimEndNewline(blank);
  }

  /// Keys are matched without regard to case, and the value is trimmed.
  lemma LegacyKeyIgnoresCase(md: LS.MetaData, key: string, value: string)
    requires ':' !in key
    ensures ToLowercase(key) == "expression" ==>
      LegacyField(md, key + ":" + value) == md.(expression := Option.Some(Trim(value)))
    ensures ToLowercase(key) == "source" ==>
      LegacyField(md, key + ":" + value) == md.(source := Option.Some(Trim(value)))
    ensures ToLowercase(key) != "expression" && ToLowercase(key) != "source" ==>
      LegacyField(md, key + ":" + value) == md
  {
    var line := key + ":" + value;
    IndexOfCharAfter(key, ':', value);
    assert line[..|key|] == key;
    assert line[|key| + 1..] == value;
  }

  /// A line without a `:` is ignored.
  lemma LegacyLineWithoutColon(md: LS.MetaData, line: string)
    requires ':' !in line
    ensures LegacyField(md, line) == md
  {
  }

  /// `r` differs from `md` at most in the expression and the source, and
  /// a changed one is text without surrounding whitespace.
  ghost predicate SetsOnlyTrimmed(md: LS.MetaData, r: LS.MetaData)
  {
    r.(expression := md.expression, source := md.source) == md
    && (r.expression != md.expression ==> r.expression.Some? && Trim(r.expression.value) == r.expression.value)
    && (r.source != md.source ==> r.source.Some? && Trim(r.source.value) == r.source.value)
  }

  lemma LegacyFieldSetsOnlyTrimmed(md: LS.MetaData, line: string)
    ensures SetsOnlyTrimmed(md, LegacyField(md, line))
  {
    var i := IndexOfChar(line, ':');
    if i < |line| {
      TrimIdempotent(line[i + 1..]);
      SetTrimmed(md, Trim(line[i + 1..]));
    }
  }

  /// Setting the expression or the source to trimmed text sets only that.
  lemma SetTrimmed(md: LS.MetaData, v: string)
    requires Trim(v) == v
    ensures SetsOnlyTrimmed(md, md.(expression := Option.Some(v)))
    ensures SetsOnlyTrimmed(md, md.(source := Option.Some(v)))
    ensures SetsOnlyTrimmed(md, md)
  {
  }

  lemma SetsOnlyTrimmedTransitive(a: LS.MetaData, b: LS.MetaData, c: LS.MetaData)
    requires SetsOnlyTrimmed(a, b) && SetsOnlyTrimmed(b, c)
    ensures SetsOnlyTrimmed(a, c)
  {
  }

  /// A legacy header sets nothing but the expression and the source, and
  /// those only to text without surrounding whitespace.
  lemma {:induction false} LegacyHeaderFields(md: LS.MetaData, s: string)
    ensures SetsOnlyTrimmed(md, LegacyHeader(md, s).0)
    decreases |s|
  {
    if s != [] {
      var (l, t) := NextLine(s);
      if TrimEnd(l) != [] {
        var md1 := LegacyField(md, l);
        assert LegacyHeader(md, s) == LegacyHeader(md1, t);
        LegacyFieldSetsOnlyTrimmed(md, l);
        LegacyHeaderFields(md1, t);
        SetsOnlyTrimmedTransitive(md, md1, LegacyHeader(md1, t).0);
      }
    }
  }

  /// `trim` of trimmed text changes nothing.
  lemma TrimIdempotent(s: string)
    ensures Trim(Trim(s)) == Trim(s)
  {
    var t := Trim(s);
    TrimEndNone(TrimEnd(s));
    assert t == [] || !IsWhitespace(t[|t| - 1]);
    TrimEndNone(t);
  }

  /// The loop of `deserialize` that reads the legacy header.
  method ReadLegacyHeader(r: Reader) returns (md: LS.MetaData)
    modifies r
    ensures (md, r.rest) == LegacyHeader(NoMetaData, old(r.rest))
  {
    ghost var s0 := r.rest;
    md := NoMetaData;
    while true
      invariant LegacyHeader(md, r.rest) == LegacyHeader(NoMetaData, s0)
      decreases |r.rest|
    {
      var buf := r.ReadLine();
      var read := |buf|;
      if read == 0 || TrimEnd(buf) == [] {
        break;
      }
      var i := IndexOfChar(buf, ':');
      if i < |buf| {
        var value := Trim(buf[i + 1..]);
        var key := ToLowercase(buf[..i]);
        if key == "expression" {
          md := md.(expression := Option.Some(value));
        } else if key == "source" {
          md := md.(source := Option.Some(value));
        }
      }
    }
  }

  // ---------------------------------------------------------------------
  // The body

  /// The body: the remaining lines joined by "\n", without a final one.
  function Body(s: string): string
  {
    Join(Lines(s), "\n")
  }

  /// The loop of `deserialize` over the remaining lines.
  method ReadBody(r: Reader) returns (buf: string)
    modifies r
    ensures buf == Body(old(r.rest))
    ensures r.rest == []
  {
    ghost var s0 := r.rest;
    ghost var done: seq<string> := [];
    buf := [];
    var idx := 0;
    while r.rest != []
      invariant Lines(s0) == done + Lines(r.rest)
      invariant buf == Join(done, "\n")
      invariant idx == |done|
      decreases |r.rest|
    {
      ghost var before := r.rest;
      var raw := r.ReadLine();
      var line := Stripped(raw);
      BodyStep(s0, done, before, line);
      if idx > 0 {
        buf := buf + "\n";
      }
      buf := buf + line;
      done := done + [line];
      idx := idx + 1;
    }
    assert done + [] == done;
  }

  /// One step of `ReadBody`: the line read is the next of the lines, and
  /// joining it on extends the text read so far.
  lemma BodyStep(s0: string, done: seq<string>, rest: string, line: string)
    requires rest != [] && Lines(s0) == done + Lines(rest)
    requires line == Stripped(NextLine(rest).0)
    ensures Lines(s0) == (done + [line]) + Lines(NextLine(rest).1)
    ensures Join(done + [line], "\n") == (if done == [] then line else Join(done, "\n") + "\n" + line)
  {
    LinesByLine(rest);
    Regroup(done, line, Lines(NextLine(rest).1));
    JoinStep(done, line);
  }

  lemma Regroup(done: seq<string>, line: string, more: seq<string>)
    ensures done + ([line] + more) == (done + [line]) + more
  {
  }

  lemma JoinStep(done: seq<string>, line: string)
    ensures Join(done + [line], "\n") == (if done == [] then line else Join(done, "\n") + "\n" + line)
  {
    if done != [] {
      JoinSnoc(done, line, "\n");
    } else {
      assert done + [line] == [line];
    }
  }

  /// A text followed by one line break reads back as that text, when it
  /// holds no carriage return.
  lemma {:induction false} BodyOfTerminated(c: string)
    requires '\r' !in c
    ensures Body(c + "\n") == c
    decreases |c|
  {
    var i := IndexOfChar(c, '\n');
    if i == |c| {
      assert '\n' !in c by {
        IndexOfCharNone(c, '\n');
      }
      TerminatedLineAlone(c);
    } else {
      var u := c[i + 1..];
      IndexOfCharFirst(c, '\n');
      TerminatedLineSplit(c, i);
      BodyOfTerminated(u);
      JoinCons(c[..i], Lines(u + "\n"), "\n");
    }
  }

  /// A text without a line break, followed by one, is a single line.
  lemma TerminatedLineAlone(c: string)
    requires '\r' !in c && '\n' !in c
    ensures Lines(c + "\n") == [c]
  {
    NoCrStripped(c);
    LinesOfTerminatedLine(c, []);
    assert c + "\n" + [] == c + "\n";
  }

  /// A text without a carriage return keeps its last character.
  lemma NoCrStripped(c: string)
    requires '\r' !in c
    ensures StripCr(c) == c
  {
    if c != [] {
      assert c[|c| - 1] in c;
    }
  }

  /// A text whose first line break is at `i`, followed by one more:
  /// its first line is split off, and the rest is terminated too.
  lemma TerminatedLineSplit(c: string, i: nat)
    requires '\r' !in c && i < |c| && c[i] == '\n' && '\n' !in c[..i]
    ensures '\r' !in c[i + 1..] && |c[i + 1..]| < |c|
    ensures Lines(c + "\n") == [c[..i]] + Lines(c[i + 1..] + "\n")
    ensures c == c[..i] + "\n" + c[i + 1..]
  {
    SplitAround(c, i);
    NoCrStripped(c[..i]);
    LinesOfTerminatedLine(c[..i], c[i + 1..] + "\n");
  }

  /// The text around a line break at `i`, with no carriage return in
  /// either part.
  lemma SplitAround(c: string, i: nat)
    requires '\r' !in c && i < |c| && c[i] == '\n'
    ensures c == c[..i] + "\n" + c[i + 1..]
    ensures c + "\n" == c[..i] + "\n" + (c[i + 1..] + "\n")
    ensures '\r' !in c[..i] && '\r' !in c[i + 1..]
  {
    assert c == c[..i] + "\n" + c[i + 1..];
    assert forall j :: 0 <= j < i ==> c[..i][j] == c[j];
    var u := c[i + 1..];
    assert forall j :: 0 <= j < |u| ==> u[j] == c[i + 1 + j];
  }

  lemma IndexOfCharNone(c: string, x: char)
    requires IndexOfChar(c, x) == |c|
    ensures x !in c
  {
  }

  lemma IndexOfCharFirst(c: string, x: char)
    requires IndexOfChar(c, x) < |c|
    ensures c[IndexOfChar(c, x)] == x && x !in c[..IndexOfChar(c, x)]
  {
  }

  // ---------------------------------------------------------------------
  // The whole file

  /// The metadata a file's header gives, and the text after the header.
  /// `parseYaml` is what turns a YAML header into metadata.
  function Header<E>(s: string, parseYaml: string -> Result<LS.MetaData, E>): (Result<LS.MetaData, E>, string)
  {
    var (first, t) := NextLine(s);
    if TrimEnd(first) == "---" then
      var (h, u) := YamlHeader(t);
      (parseYaml(first + h), u)
    else
      var (md, u) := LegacyHeader(NoMetaData, t);
      (Ok(md), u)
  }

  /// What loading the file with text `s` and file name `fname` gives.
  function Loaded<E>(s: string, fname: string, parseYaml: string -> Result<LS.MetaData, E>): Result<Snapshot, E>
  {
    var (md, rest) := Header(s, parseYaml);
    var (moduleName, snapshotName) := LS.NamesOf(fname);
    match md
    case Err(e) => Err(e)
    case Ok(m) => Ok(Snapshot(moduleName, snapshotName, m, LS.FromText(Body(rest))))
  }

  /// `DefaultSnapfileFormatter::deserialize`, with the YAML deserializer
  /// as `parseYaml`.
  method Deserialize<E>(r: Reader, fname: string, parseYaml: string -> Result<LS.MetaData, E>)
    returns (res: Result<Snapshot, E>)
    modifies r
    ensures res == Loaded(old(r.rest), fname, parseYaml)
  {
    ghost var s0 := r.rest;
    var buf := r.ReadLine();
    var metadata: Result<LS.MetaData, E>;
    if TrimEnd(buf) == "---" {
      buf := ReadYamlHeader(r, buf);
      metadata := parseYaml(buf);
    } else {
      var md := ReadLegacyHeader(r);
      metadata := Ok(md);
    }
    assert (metadata, r.rest) == Header(s0, parseYaml);
    if metadata.Err? {
      res := Err(metadata.error);
    } else {
      var body := ReadBody(r);
      var (moduleName, snapshotName) := LS.NamesOf(fname);
      res := Ok(Snapshot(moduleName, snapshotName, metadata.value, LS.FromText(body)));
    }
  }

  /// How `from_file` reads a YAML header: the YAML documents the scanner
  /// finds (`scan`), as content, as metadata.
  function MetaDataOfYaml(scan: string -> Option<seq<Y.Yaml>>, h: string): Result<LS.MetaData, LC.ContentError>
  {
    match LY.ParseStr(scan(h))
    case Err(e) => Err(e)
    case Ok(c) => LM.FromContent(c)
  }

  /// `Snapshot::from_file`: the same steps, with the name taken from the
  /// path's file name (a path without one panics there) and the header
  /// read through `Content::from_yaml` and `MetaData::from_content`.
  /// Every caller (src/runtime.rs:664, cargo-insta/src/cargo.rs:109-111,
  /// cargo-insta/src/container.rs:71-73 and 188) passes the path of a
  /// snapshot file it built or found, which always has a file name.
  method FromFile(r: Reader, p: Paths.Path, scan: string -> Option<seq<Y.Yaml>>)
    returns (res: Result<Snapshot, LC.ContentError>)
    requires Paths.FileName(p).Some?
    modifies r
    ensures res == Loaded(old(r.rest), Paths.FileName(p).value, h => MetaDataOfYaml(scan, h))
  {
    res := Deserialize(r, Paths.FileName(p).value, h => MetaDataOfYaml(scan, h));
  }

  // ---------------------------------------------------------------------
  // Writing

  /// `DefaultSnapfileFormatter::serialize`: the YAML the writer produced
  /// for the metadata (`yaml`), a `---` line, the contents and a line break.
  function Serialized(yaml: string, contents: string): (r: string)
    ensures EndsWith(r, "\n")
  {
    yaml + "\n---\n" + contents + "\n"
  }

  /// `Snapshot::save_with_metadata` in src/snapshot.rs: `as_yaml` of the
  /// metadata's content, which ends in a line break, then `---`, the
  /// contents and a line break.  `emit` is the YAML emitter.
  function SavedText(emit: Y.Yaml -> string, md: LS.MetaData, contents: string): string
  {
    LY.AsYaml(emit, C.Struct("MetaData", LM.MetaFields(md))) + "---\n" + contents + "\n"
  }

  /// Both writers lay the file out alike.
  lemma SavedTextIsSerialized(emit: Y.Yaml -> string, md: LS.MetaData, contents: string)
    ensures SavedText(emit, md, contents)
      == Serialized(emit(Y.ToYamlValue(C.Struct("MetaData", LM.MetaFields(md)))), contents)
  {
  }

  /// The header of a serialized snapshot is the emitted YAML, and the
  /// contents follow it, when the emitter writes `---` and then lines
  /// none of which trims to `---`.
  lemma SerializedHeader<E>(hs: seq<string>, contents: string, parseYaml: string -> Result<LS.MetaData, E>)
    requires hs != []
    requires forall k :: 0 <= k < |hs| ==> '\n' !in hs[k] && TrimEnd(hs[k]) != "---"
    ensures Header(Serialized("---\n" + Join(hs, "\n"), contents), parseYaml)
      == (parseYaml("---\n" + Terminated(hs)), contents + "\n")
  {
    var rest := contents + "\n";
    var t := Terminated(hs) + "---" + "\n" + rest;
    SerializedLines(hs, contents);
    OpeningLine(t);
    YamlHeaderOfLines(hs, "---", rest);
  }

  lemma SerializedLines(hs: seq<string>, contents: string)
    requires hs != []
    ensures Serialized("---\n" + Join(hs, "\n"), contents)
      == "---\n" + (Terminated(hs) + "---" + "\n" + (contents + "\n"))
  {
    TerminatedJoin(hs);
  }

  /// The opening `---` line of a YAML header.
  lemma OpeningLine(t: string)
    ensures NextLine("---\n" + t) == ("---\n", t)
    ensures TrimEnd("---\n") == "---"
  {
    var text := "---\n" + t;
    assert text == "---" + "\n" + t;
    IndexOfCharAfter("---", '\n', t);
    assert text[..4] == "---\n";
    assert text[4..] == t;
    TrimEndNewline("---");
  }

  /// A serialized snapshot reads back: the header is the emitted YAML
  /// (when the emitter writes `---` and then lines none of which trims to
  /// `---`), and the body is the contents (when they hold no carriage
  /// return).
  lemma SerializedReadsBack<E>(hs: seq<string>, contents: string, fname: string,
                               parseYaml: string -> Result<LS.MetaData, E>)
    requires hs != []
    requires forall k :: 0 <= k < |hs| ==> '\n' !in hs[k] && TrimEnd(hs[k]) != "---"
    requires '\r' !in contents
    ensures var text := Serialized("---\n" + Join(hs, "\n"), contents);
      Loaded(text, fname, parseYaml) ==
        match parseYaml("---\n" + Terminated(hs))
        case Err(e) => Err(e)
        case Ok(md) => Ok(Snapshot(LS.NamesOf(fname).0, LS.NamesOf(fname).1, md, LS.SnapshotContents(contents)))
  {
    SerializedHeader(hs, contents, parseYaml);
    BodyOfTerminated(contents);
    ReplaceAbsent(contents, "\r\n", "\n");
  }

  /// The header `save_with_metadata` writes reads back as the metadata,
  /// when the scanner reads it back as the emitted node.
  lemma SavedHeaderReadsBack(scan: string -> Option<seq<Y.Yaml>>, h: string, md: LS.MetaData)
    requires md.info.None? || Y.Native(md.info.value)
    requires scan(h) == Option.Some([Y.ToYamlValue(C.Struct("MetaData", LM.MetaFields(md)))])
    ensures MetaDataOfYaml(scan, h) == Ok(md)
  {
    var c := C.Struct("MetaData", LM.MetaFields(md));
    assert LY.ParseStr(scan(h)) == Ok(Y.Reloaded(c));
    LM.MetaDataRoundTrip(md);
  }

  /// A metadata value saved by `save_with_metadata` comes back from
  /// `from_file` as it was, when the YAML emitter writes `---` and then
  /// lines none of which trims to `---`, the scanner reads that text back
  /// as the emitted node, and the metadata's info is content YAML keeps as
  /// it is.
  lemma SavedFileReadsBack(emit: Y.Yaml -> string, scan: string -> Option<seq<Y.Yaml>>,
                           hs: seq<string>, md: LS.MetaData, contents: string, fname: string)
    requires md.info.None? || Y.Native(md.info.value)
    requires hs != []
    requires forall k :: 0 <= k < |hs| ==> '\n' !in hs[k] && TrimEnd(hs[k]) != "---"
    requires '\r' !in contents
    requires emit(Y.ToYamlValue(C.Struct("MetaData", LM.MetaFields(md)))) == "---\n" + Join(hs, "\n")
    requires scan("---\n" + Terminated(hs)) == Option.Some([Y.ToYamlValue(C.Struct("MetaData", LM.MetaFields(md)))])
    ensures Loaded(SavedText(emit, md, contents), fname, h => MetaDataOfYaml(scan, h))
      == Ok(Snapshot(LS.NamesOf(fname).0, LS.NamesOf(fname).1, md, LS.SnapshotContents(contents)))
  {
    SavedTextIsSerialized(emit, md, contents);
    SavedHeaderReadsBack(scan, "---\n" + Terminated(hs), md);
    SerializedReadsBack(hs, contents, fname, h => MetaDataOfYaml(scan, h));
  }
}
