// The JSON writer of the current generation: a serializer that appends to
// an output buffer and tracks the nesting depth for the pretty layout.
// `Render` is the text the serializer produces for a value; the methods
// of `Serializer` are proved to append exactly that text and to leave the
// depth where they found it.  String escaping follows section 7 of
// RFC 8259 and is proved to round-trip through the RFC's unescaping.
module Json {
  import opened Wrappers
  import opened Strs
  import C = Contents

  /// `COMPACT_MAX_CHARS`
  const COMPACT_MAX_CHARS: nat := 120

  datatype Format = Condensed | SingleLine | Pretty

  // ---------------------------------------------------------------------
  // String escaping (section 7 of RFC 8259)

  /// The escape table: the letter after the backslash for the characters
  /// that are escaped, 'u' for the other control characters, and '\0' for
  /// the characters that are copied.  Characters from 0x80 up are copied
  /// like the bytes of their UTF-8 encoding, which are all from 0x80 up.
  function EscapeTable(c: char): (e: char)
    ensures e != '\0' <==> NeedsEscape(c)
  {
    if c == '\U{0008}' then 'b'
    else if c == '\t' then 't'
    else if c == '\n' then 'n'
    else if c == '\U{000C}' then 'f'
    else if c == '\r' then 'r'
    else if (c as int) < 0x20 then 'u'
    else if c == '"' then '"'
    else if c == '\\' then '\\'
    else '\0'
  }

  predicate NeedsEscape(c: char)
  {
    (c as int) < 0x20 || c == '"' || c == '\\'
  }

  function HexDigit(d: nat): char
    requires d < 16
  {
    "0123456789abcdef"[d]
  }

  /// The JSON text of one character inside a string literal, by the
  /// escape table.
  function EscapeChar(c: char): (r: string)
    ensures !NeedsEscape(c) ==> r == [c]
    ensures NeedsEscape(c) ==> |r| >= 2 && r[0] == '\\'
  {
    match EscapeTable(c)
    case 'b' => "\\b"
    case 't' => "\\t"
    case 'n' => "\\n"
    case 'f' => "\\f"
    case 'r' => "\\r"
    case '"' => "\\\""
    case '\\' => "\\\\"
    case 'u' => "\\u00" + [HexDigit((c as int) / 16), HexDigit((c as int) % 16)]
    case _ => [c]
  }

  function EscapeBody(s: string): string
  {
    if s == [] then [] else EscapeChar(s[0]) + EscapeBody(s[1..])
  }

  /// A JSON string literal.
  function Escaped(s: string): string
  {
    "\"" + EscapeBody(s) + "\""
  }

  lemma {:induction false} EscapeBodyAppend(a: string, b: string)
    ensures EscapeBody(a + b) == EscapeBody(a) + EscapeBody(b)
  {
    if a == [] {
      assert a + b == b;
    } else {
      assert (a + b)[0] == a[0];
      assert (a + b)[1..] == a[1..] + b;
      EscapeBodyAppend(a[1..], b);
    }
  }

  lemma {:induction false} EscapeBodyPlain(s: string)
    requires forall j :: 0 <= j < |s| ==> !NeedsEscape(s[j])
    ensures EscapeBody(s) == s
  {
    if s != [] {
      EscapeBodyPlain(s[1..]);
    }
  }

  /// No control character appears unescaped in a string literal's body,
  /// as section 7 of RFC 8259 demands.
  lemma {:induction false} EscapeBodyHasNoControl(s: string)
    ensures forall j :: 0 <= j < |EscapeBody(s)| ==> (EscapeBody(s)[j] as int) >= 0x20
  {
    if s != [] {
      EscapeBodyHasNoControl(s[1..]);
      var e := EscapeChar(s[0]);
      assert forall j :: 0 <= j < |e| ==> (e[j] as int) >= 0x20;
      assert EscapeBody(s) == e + EscapeBody(s[1..]);
    }
  }

  function HexValue(c: char): Option<nat>
  {
    if '0' <= c <= '9' then Option.Some(c as int - '0' as int)
    else if 'a' <= c <= 'f' then Option.Some(c as int - 'a' as int + 10)
    else if 'A' <= c <= 'F' then Option.Some(c as int - 'A' as int + 10)
    else Option.None
  }

  /// The value of four hex digits, when they are hex digits.
  function Hex4(a: char, b: char, c: char, d: char): Option<nat>
  {
    if HexValue(a).Some? && HexValue(b).Some? && HexValue(c).Some? && HexValue(d).Some? then
      Option.Some(((HexValue(a).value * 16 + HexValue(b).value) * 16 + HexValue(c).value) * 16 + HexValue(d).value)
    else Option.None
  }

  /// The reading of a string literal's body that section 7 of RFC 8259
  /// defines: the two-character escapes, `\uXXXX` for a code point outside
  /// the surrogate range, and any other character except '"', '\' and the
  /// control characters standing for itself.  (Surrogate pairs are not
  /// decoded.)
  function Unescape(t: string): Option<string>
    decreases |t|
  {
    if t == [] then Option.Some([])
    else if t[0] == '\\' then
      if |t| < 2 then Option.None
      else
        var e := t[1];
        var one: Option<char> :=
          if e == '"' then Option.Some('"')
          else if e == '\\' then Option.Some('\\')
          else if e == '/' then Option.Some('/')
          else if e == 'b' then Option.Some('\U{0008}')
          else if e == 'f' then Option.Some('\U{000C}')
          else if e == 'n' then Option.Some('\n')
          else if e == 'r' then Option.Some('\r')
          else if e == 't' then Option.Some('\t')
          else Option.None;
        if one.Some? then
          match Unescape(t[2..])
          case None => Option.None
          case Some(rest) => Option.Some([one.value] + rest)
        else if e == 'u' && |t| >= 6 then
          match Hex4(t[2], t[3], t[4], t[5])
          case None => Option.None
          case Some(v) =>
            if v < 0xD800 || 0xE000 <= v then
              match Unescape(t[6..])
              case None => Option.None
              case Some(rest) => Option.Some([v as char] + rest)
            else Option.None
        else Option.None
    else if NeedsEscape(t[0]) then Option.None
    else
      match Unescape(t[1..])
      case None => Option.None
      case Some(rest) => Option.Some([t[0]] + rest)
  }

  lemma UnescapeChar(c: char, rest: string)
    ensures Unescape(EscapeChar(c) + rest) ==
      match Unescape(rest) case None => Option.None case Some(r) => Option.Some([c] + r)
  {
    if !NeedsEscape(c) {
      var t := EscapeChar(c) + rest;
      assert t[1..] == rest;
    } else if EscapeTable(c) == 'u' {
      UnescapeHexChar(c, rest);
    } else {
      UnescapeShortChar(c, rest);
    }
  }

  lemma UnescapeHexChar(c: char, rest: string)
    requires EscapeTable(c) == 'u'
    ensures Unescape(EscapeChar(c) + rest) ==
      match Unescape(rest) case None => Option.None case Some(r) => Option.Some([c] + r)
  {
    var t := EscapeChar(c) + rest;
    var v := c as int;
    assert t[0] == '\\' && t[1] == 'u' && t[2] == '0' && t[3] == '0';
    assert t[4] == HexDigit(v / 16) && t[5] == HexDigit(v % 16);
    assert HexValue(t[4]) == Option.Some(v / 16);
    assert HexValue(t[5]) == Option.Some(v % 16);
    assert Hex4(t[2], t[3], t[4], t[5]) == Option.Some(v);
    assert t[6..] == rest;
  }

  lemma UnescapeShortChar(c: char, rest: string)
    requires NeedsEscape(c) && EscapeTable(c) != 'u'
    ensures Unescape(EscapeChar(c) + rest) ==
      match Unescape(rest) case None => Option.None case Some(r) => Option.Some([c] + r)
  {
    var t := EscapeChar(c) + rest;
    assert t[2..] == rest;
  }

  /// Reading an escaped body back gives the original string.
  lemma {:induction false} UnescapeEscapeBody(s: string)
    ensures Unescape(EscapeBody(s)) == Option.Some(s)
  {
    if s != [] {
      UnescapeEscapeBody(s[1..]);
      UnescapeChar(s[0], EscapeBody(s[1..]));
      assert [s[0]] + s[1..] == s;
    }
  }

  // ---------------------------------------------------------------------
  // Layout

  /// `write_indentation`: two spaces per level, in the pretty layout only.
  function Indent(f: Format, n: nat): (r: string)
    ensures f != Pretty ==> r == []
    ensures f == Pretty ==> |r| == 2 * n
  {
    if f == Pretty then Spaces(2 * n) else []
  }

  /// `write_comma` at depth `n`.
  function Comma(f: Format, first: bool, n: nat): string
  {
    match f
    case Pretty => (if first then "\n" else ",\n") + Indent(f, n)
    case Condensed => if first then "" else ","
    case SingleLine => if first then "" else ", "
  }

  /// `write_colon`
  function Colon(f: Format): string
  {
    if f == Condensed then ":" else ": "
  }

  /// `end_container` back at depth `n`: a line break and indentation
  /// precede the closing character, in the pretty layout and only after
  /// a non-empty container.
  function Close(f: Format, n: nat, empty: bool, c: char): string
  {
    (if f == Pretty && !empty then "\n" + Indent(f, n) else "") + [c]
  }

  /// `format_float`: a float's text, with ".0" added when it has no dot.
  function FormatFloat(x: C.Float): (r: string)
    ensures '.' in r
  {
    if '.' in x.text then x.text else x.text + ".0"
  }

  /// The integer an integer key is written as: its value, except that a
  /// `U64` is read as a 64-bit and a `U128` as a 128-bit two's complement
  /// integer, so that the values above the signed range come out negative.
  function SignedKey(rk: C.Content): int
    requires C.IntValue(rk).Some?
  {
    if rk.U64? then C.CastI64(rk.n64)
    else if rk.U128? then C.CastI128(rk.n128)
    else C.IntValue(rk).value
  }

  /// The text of a map key: a string key escaped, an integer key as the
  /// quoted decimal of `SignedKey`, any other key refused (the source
  /// panics).
  function KeyText(k: C.Content): Option<string>
  {
    var rk := C.ResolveInner(k);
    if rk.String? then Option.Some(Escaped(rk.s))
    else if C.IntValue(rk).Some? then Option.Some(Escaped(IntToString(SignedKey(rk))))
    else Option.None
  }

  /// The key resolution of `serialize`: the innermost value of the key,
  /// tried as a string, then with `as_i64`, then with `as_i128`, both as
  /// written.
  function MapKey(k: C.Content): (r: Option<string>)
    ensures r == KeyText(k)
  {
    var rk := C.ResolveInner(k);
    KeyOfInteger(rk);
    if rk.String? then Option.Some(Escaped(rk.s))
    else match C.AsI64AsWritten(rk)
      case Some(v) => Option.Some(Escaped(IntToString(v)))
      case None =>
        match C.AsI128AsWritten(rk)
        case Some(v) => Option.Some(Escaped(IntToString(v)))
        case None => Option.None
  }

  /// `as_i64` and then `as_i128`, as written, give every integer a value,
  /// and it is `SignedKey`; they give nothing to anything else.
  lemma KeyOfInteger(rk: C.Content)
    requires rk == C.ResolveInner(rk)
    ensures C.IntValue(rk).None? ==> C.AsI64AsWritten(rk).None? && C.AsI128AsWritten(rk).None?
    ensures C.IntValue(rk).Some? && C.AsI64AsWritten(rk).Some? ==> C.AsI64AsWritten(rk).value == SignedKey(rk)
    ensures C.IntValue(rk).Some? && C.AsI64AsWritten(rk).None? ==>
      C.AsI128AsWritten(rk).Some? && C.AsI128AsWritten(rk).value == SignedKey(rk)
  {
    match rk
    case U64(v) => C.CastI64Back(v);
    case U128(v) => C.CastI128Back(v); C.CastI64OfU128(v);
    case I128(v) =>
    case _ =>
  }

  /// Every integer key is written as `SignedKey`, which is its own value
  /// except for a `U64` at or above 2^63 and a `U128` at or above 2^127,
  /// which wrap to their value less 2^64 and 2^128.
  lemma MapKeyOfInteger(k: C.Content)
    requires C.IntValue(C.ResolveInner(k)).Some?
    ensures MapKey(k) == Option.Some(Escaped(IntToString(SignedKey(C.ResolveInner(k)))))
    ensures var rk := C.ResolveInner(k); var v := C.IntValue(rk).value;
      SignedKey(rk) == if rk.U64? && v >= C.TWO_63 then v - C.TWO_64
        else if rk.U128? && v >= C.TWO_127 then v - C.TWO_128
        else v
  {
    var rk := C.ResolveInner(k);
    assert MapKey(k) == KeyText(k);
    match rk
    case U64(v) => C.SmallMod(v, C.TWO_64);
    case U128(v) => C.SmallMod(v, C.TWO_128);
    case _ =>
  }

  /// As written, the largest `u64` key is printed as "-1" and the `u128`
  /// key 2^127 as -2^127.
  lemma MapKeyAsWrittenNegative()
    ensures MapKey(C.U64(C.TWO_64 - 1)) == Option.Some(Escaped("-1"))
    ensures MapKey(C.U128(C.TWO_127)) == Option.Some(Escaped(IntToString(-C.TWO_127)))
  {
    var a := C.U64(C.TWO_64 - 1);
    var b := C.U128(C.TWO_127);
    assert C.ResolveInner(a) == a && C.ResolveInner(b) == b;
    MapKeyOfInteger(a);
    assert SignedKey(a) == -1;
    MapKeyOfInteger(b);
    assert SignedKey(b) == -C.TWO_127;
    MinusOneText();
  }

  lemma MinusOneText()
    ensures IntToString(-1) == "-1"
  {
    assert DigitChar(1) == '1';
    assert NatToString(1) == "1";
  }

  // ---------------------------------------------------------------------
  // The text of a value

  /// The text `serialize` appends for `c` when called at depth `n`;
  /// `None` when it panics on a map key.
  function Render(c: C.Content, f: Format, n: nat): Option<string>
    decreases c
  {
    match c
    case Bytes(bs) => Option.Some(RenderByteArray(bs, f, n))
    case Some(x) => Render(x, f, n)
    case NewtypeStruct(_, x) => Render(x, f, n)
    case NewtypeVariant(_, _, v, x) => Tagged(f, n, v, Render(x, f, n + 1))
    case Seq(es) => RenderArray(es, f, n)
    case Tuple(es) => RenderArray(es, f, n)
    case TupleStruct(_, es) => RenderArray(es, f, n)
    case TupleVariant(_, _, v, es) => Tagged(f, n, v, RenderArray(es, f, n + 1))
    case Map(es) => RenderMap(es, f, n)
    case Struct(_, fs) => RenderObject(fs, f, n)
    case StructVariant(_, _, v, fs) => Tagged(f, n, v, RenderObject(fs, f, n + 1))
    case _ => Option.Some(ScalarText(c))
  }

  /// The text of a value without children, whatever the depth.
  function ScalarText(c: C.Content): string
    requires IsScalar(c)
  {
    if C.IntValue(c).Some? then IntToString(C.IntValue(c).value)
    else match c
    case Bool(b) => if b then "true" else "false"
    case F32(x) => if C.IsFinite(x) then FormatFloat(x) else "null"
    case F64(x) => if C.IsFinite(x) then FormatFloat(x) else "null"
    case Char(ch) => Escaped([ch])
    case String(s) => Escaped(s)
    case None => "null"
    case Unit => "null"
    case UnitStruct(_) => "null"
    case UnitVariant(_, _, v) => Escaped(v)
  }

  /// The values without children.
  predicate IsScalar(c: C.Content)
  {
    !(c.Bytes? || c.Some? || c.NewtypeStruct? || c.NewtypeVariant? || c.Seq? || c.Tuple?
      || c.TupleStruct? || c.TupleVariant? || c.Map? || c.Struct? || c.StructVariant?)
  }

  /// A newtype variant renders as its one-key object.
  lemma RenderNewtypeVariant(c: C.Content, f: Format, n: nat)
    requires c.NewtypeVariant?
    ensures Render(c, f, n) == Tagged(f, n, c.variant, Render(c.inner, f, n + 1))
  {
  }

  /// A tuple variant renders as its one-key object.
  lemma RenderTupleVariant(c: C.Content, f: Format, n: nat)
    requires c.TupleVariant?
    ensures Render(c, f, n) == Tagged(f, n, c.variant, RenderArray(c.elems, f, n + 1))
  {
  }

  /// A struct variant renders as its one-key object.
  lemma RenderStructVariant(c: C.Content, f: Format, n: nat)
    requires c.StructVariant?
    ensures Render(c, f, n) == Tagged(f, n, c.variant, RenderObject(c.fields, f, n + 1))
  {
  }

  /// A one-entry object keyed by a variant name.
  function Tagged(f: Format, n: nat, variant: string, body: Option<string>): Option<string>
  {
    match body
    case None => Option.None
    case Some(b) => Option.Some(Opening(f, n, variant) + b + Close(f, n, false, '}'))
  }

  /// What precedes the value in a one-entry object at depth `n`.
  function Opening(f: Format, n: nat, variant: string): string
  {
    "{" + Comma(f, true, n + 1) + Escaped(variant) + Colon(f)
  }

  /// The `Content::Bytes` arm at depth `n`: an array of decimals.
  function RenderByteArray(bs: seq<C.u8>, f: Format, n: nat): string
  {
    "[" + RenderBytes(bs, f, n + 1) + Close(f, n, |bs| == 0, ']')
  }

  function RenderBytes(bs: seq<C.u8>, f: Format, m: nat): string
  {
    if bs == [] then []
    else RenderBytes(bs[..|bs| - 1], f, m) + Comma(f, |bs| == 1, m) + NatToString(bs[|bs| - 1])
  }

  /// A text between an opening and a closing, when there is one.
  function Enclosed(open: string, body: Option<string>, close: string): (r: Option<string>)
    ensures r.Some? <==> body.Some?
    ensures r.Some? ==> r.value == open + body.value + close
  {
    match body
    case None => Option.None
    case Some(b) => Option.Some(open + b + close)
  }

  /// `serialize_array` at depth `n`.
  function RenderArray(es: seq<C.Content>, f: Format, n: nat): Option<string>
    decreases es, 1
  {
    Enclosed("[", RenderElems(es, f, n + 1), Close(f, n, |es| == 0, ']'))
  }

  /// The elements of an array at depth `m`, each after its separator.
  function RenderElems(es: seq<C.Content>, f: Format, m: nat): Option<string>
    decreases es, 0
  {
    if es == [] then Option.Some([])
    else
      match RenderElems(es[..|es| - 1], f, m)
      case None => Option.None
      case Some(p) =>
        match Render(es[|es| - 1], f, m)
        case None => Option.None
        case Some(x) => Option.Some(p + Comma(f, |es| == 1, m) + x)
  }

  /// The `Content::Map` arm at depth `n`.
  function RenderMap(es: seq<(C.Content, C.Content)>, f: Format, n: nat): Option<string>
    decreases es, 1
  {
    Enclosed("{", RenderEntries(es, f, n + 1), Close(f, n, |es| == 0, '}'))
  }

  function RenderEntries(es: seq<(C.Content, C.Content)>, f: Format, m: nat): Option<string>
    decreases es, 0
  {
    if es == [] then Option.Some([])
    else
      var e := es[|es| - 1];
      assert e.1 < e;
      match RenderEntries(es[..|es| - 1], f, m)
      case None => Option.None
      case Some(p) =>
        match KeyText(e.0)
        case None => Option.None
        case Some(k) =>
          match Render(e.1, f, m)
          case None => Option.None
          case Some(x) => Option.Some(p + Comma(f, |es| == 1, m) + k + Colon(f) + x)
  }

  /// `serialize_object` at depth `n`.
  function RenderObject(fs: seq<(string, C.Content)>, f: Format, n: nat): Option<string>
    decreases fs, 1
  {
    Enclosed("{", RenderFields(fs, f, n + 1), Close(f, n, |fs| == 0, '}'))
  }

  function RenderFields(fs: seq<(string, C.Content)>, f: Format, m: nat): Option<string>
    decreases fs, 0
  {
    if fs == [] then Option.Some([])
    else
      var e := fs[|fs| - 1];
      assert e.1 < e;
      match RenderFields(fs[..|fs| - 1], f, m)
      case None => Option.None
      case Some(p) =>
        match Render(e.1, f, m)
        case None => Option.None
        case Some(x) => Option.Some(p + Comma(f, |fs| == 1, m) + Escaped(e.0) + Colon(f) + x)
  }

  // ---------------------------------------------------------------------
  // The serializer

  class Serializer {
    var out: string
    const format: Format
    var indentation: nat

    /// `Serializer::new`, with the layout the caller then selects.
    constructor (format: Format)
      ensures out == [] && this.format == format && indentation == 0
    {
      out := [];
      this.format := format;
      indentation := 0;
    }

    method WriteIndentation()
      modifies this
      ensures out == old(out) + Indent(format, indentation)
      ensures indentation == old(indentation)
    {
      if format == Pretty {
        var i := 0;
        while i < 2 * indentation
          invariant 0 <= i <= 2 * indentation
          invariant indentation == old(indentation)
          invariant out == old(out) + Spaces(i)
        {
          out := out + " ";
          i := i + 1;
        }
      }
    }

    method StartContainer(c: char)
      modifies this
      ensures out == old(out) + [c]
      ensures indentation == old(indentation) + 1
    {
      out := out + [c];
      indentation := indentation + 1;
    }

    method EndContainer(c: char, empty: bool)
      requires indentation >= 1
      modifies this
      ensures out == old(out) + Close(format, old(indentation) - 1, empty, c)
      ensures indentation == old(indentation) - 1
    {
      indentation := indentation - 1;
      if format == Pretty && !empty {
        out := out + "\n";
        WriteIndentation();
      }
      out := out + [c];
    }

    method WriteComma(first: bool)
      modifies this
      ensures out == old(out) + Comma(format, first, indentation)
      ensures indentation == old(indentation)
    {
      match format
      case Pretty =>
        if first {
          out := out + "\n";
        } else {
          out := out + ",\n";
        }
        WriteIndentation();
      case Condensed =>
        if !first {
          out := out + ",";
        }
      case SingleLine =>
        if !first {
          out := out + ", ";
        }
    }

    method WriteColon()
      modifies this
      ensures out == old(out) + Colon(format)
      ensures indentation == old(indentation)
    {
      if format == Condensed {
        out := out + ":";
      } else {
        out := out + ": ";
      }
    }

    /// `write_escaped_str`
    method WriteEscapedStr(value: string)
      modifies this
      ensures out == old(out) + Escaped(value)
      ensures indentation == old(indentation)
    {
      out := AppendEscaped(out, value);
    }

    /// `serialize_array`
    method SerializeArray(items: seq<C.Content>) returns (ok: bool)
      modifies this
      ensures ok <==> RenderArray(items, format, old(indentation)).Some?
      ensures ok ==> out == old(out) + RenderArray(items, format, old(indentation)).value
                     && indentation == old(indentation)
      decreases items, 2
    {
      var n := indentation;
      ghost var o0 := out;
      StartContainer('[');
      ok := SerializeElems(items);
      if ok {
        CloseArray(o0, items, n);
      } else {
        ArrayFails(items, format, n);
      }
    }

    /// The closing bracket of an array whose elements are written.
    method CloseArray(ghost o0: string, items: seq<C.Content>, n: nat)
      requires indentation == n + 1
      requires RenderElems(items, format, n + 1).Some?
      requires out == o0 + "[" + RenderElems(items, format, n + 1).value
      modifies this
      ensures RenderArray(items, format, n).Some?
      ensures out == o0 + RenderArray(items, format, n).value
      ensures indentation == n
    {
      ghost var o3 := out;
      EndContainer(']', |items| == 0);
      ArrayFinish(o0, o0 + "[", items, format, n, o3, out);
    }

    /// The elements of an array, each after its separator.
    method SerializeElems(items: seq<C.Content>) returns (ok: bool)
      modifies this
      ensures ok <==> RenderElems(items, format, old(indentation)).Some?
      ensures ok ==> out == old(out) + RenderElems(items, format, old(indentation)).value
      ensures ok ==> indentation == old(indentation)
      decreases items, 1
    {
      var n := indentation;
      ghost var before := out;
      var i := 0;
      while i < |items|
        invariant 0 <= i <= |items|
        invariant indentation == n
        invariant RenderElems(items[..i], format, n).Some?
        invariant out == before + RenderElems(items[..i], format, n).value
      {
        ok := SerializeElemAt(before, items, i, n);
        if !ok {
          return false;
        }
        i := i + 1;
      }
      assert items[..i] == items;
      return true;
    }

    /// The loop body of `SerializeElems`: element `i`, after its
    /// separator, behind the ones before it.
    method SerializeElemAt(ghost before: string, items: seq<C.Content>, i: nat, n: nat) returns (ok: bool)
      requires i < |items| && indentation == n
      requires RenderElems(items[..i], format, n).Some?
      requires out == before + RenderElems(items[..i], format, n).value
      modifies this
      ensures ok ==> indentation == n && RenderElems(items[..i + 1], format, n).Some?
                     && out == before + RenderElems(items[..i + 1], format, n).value
      ensures !ok ==> RenderElems(items, format, n).None?
      decreases items, 0
    {
      ghost var o1 := out;
      WriteComma(i == 0);
      ghost var o2 := out;
      ok := Serialize(items[i]);
      if !ok {
        ElemsPrefixFails(items, i + 1, format, n);
        return false;
      }
      ElemsLoopStep(before, items, i, format, n, o1, o2, out);
    }

    /// `serialize_object`
    method SerializeObject(fields: seq<(string, C.Content)>) returns (ok: bool)
      modifies this
      ensures ok <==> RenderObject(fields, format, old(indentation)).Some?
      ensures ok ==> out == old(out) + RenderObject(fields, format, old(indentation)).value
                     && indentation == old(indentation)
      decreases fields, 2
    {
      var n := indentation;
      ghost var o0 := out;
      StartContainer('{');
      ok := SerializeFields(fields);
      if ok {
        CloseObject(o0, fields, n);
      } else {
        ObjectFails(fields, format, n);
      }
    }

    /// The closing brace of a struct whose fields are written.
    method CloseObject(ghost o0: string, fields: seq<(string, C.Content)>, n: nat)
      requires indentation == n + 1
      requires RenderFields(fields, format, n + 1).Some?
      requires out == o0 + "{" + RenderFields(fields, format, n + 1).value
      modifies this
      ensures RenderObject(fields, format, n).Some?
      ensures out == o0 + RenderObject(fields, format, n).value
      ensures indentation == n
    {
      ghost var o3 := out;
      EndContainer('}', |fields| == 0);
      ObjectFinish(o0, o0 + "{", fields, format, n, o3, out);
    }

    /// The fields of a struct, each after its separator.
    method SerializeFields(fields: seq<(string, C.Content)>) returns (ok: bool)
      modifies this
      ensures ok <==> RenderFields(fields, format, old(indentation)).Some?
      ensures ok ==> out == old(out) + RenderFields(fields, format, old(indentation)).value
      ensures ok ==> indentation == old(indentation)
      decreases fields, 1
    {
      var n := indentation;
      ghost var before := out;
      var i := 0;
      while i < |fields|
        invariant 0 <= i <= |fields|
        invariant indentation == n
        invariant RenderFields(fields[..i], format, n).Some?
        invariant out == before + RenderFields(fields[..i], format, n).value
      {
        ok := SerializeFieldAt(before, fields, i, n);
        if !ok {
          return false;
        }
        i := i + 1;
      }
      assert fields[..i] == fields;
      return true;
    }

    /// The loop body of `SerializeFields`: field `i` after the ones
    /// before it.
    method SerializeFieldAt(ghost before: string, fields: seq<(string, C.Content)>, i: nat, n: nat) returns (ok: bool)
      requires i < |fields| && indentation == n
      requires RenderFields(fields[..i], format, n).Some?
      requires out == before + RenderFields(fields[..i], format, n).value
      modifies this
      ensures ok ==> indentation == n && RenderFields(fields[..i + 1], format, n).Some?
                     && out == before + RenderFields(fields[..i + 1], format, n).value
      ensures !ok ==> RenderFields(fields, format, n).None?
      decreases fields, 0
    {
      ghost var o1 := out;
      ok := SerializeField(fields[i], i == 0);
      if !ok {
        FieldsPrefixFails(fields, i + 1, format, n);
        return false;
      }
      FieldsLoopStep(before, fields, i, format, n, o1, out);
    }

    /// The `Content::Bytes` arm of `serialize`: the bytes as an array of
    /// decimals.
    method SerializeBytes(bs: seq<C.u8>)
      modifies this
      ensures indentation == old(indentation)
      ensures out == old(out) + RenderByteArray(bs, format, indentation)
    {
      var n := indentation;
      ghost var o0 := out;
      StartContainer('[');
      SerializeByteList(bs);
      CloseByteArray(o0, bs, n);
    }

    /// The closing bracket of a byte array whose bytes are written.
    method CloseByteArray(ghost o0: string, bs: seq<C.u8>, n: nat)
      requires indentation == n + 1
      requires out == o0 + "[" + RenderBytes(bs, format, n + 1)
      modifies this
      ensures out == o0 + RenderByteArray(bs, format, n)
      ensures indentation == n
    {
      ghost var o3 := out;
      EndContainer(']', |bs| == 0);
      BytesFinish(o0, o0 + "[", bs, format, n, o3, out);
    }

    /// The bytes of a byte array, each after its separator.
    method SerializeByteList(bs: seq<C.u8>)
      modifies this
      ensures indentation == old(indentation)
      ensures out == old(out) + RenderBytes(bs, format, indentation)
    {
      ghost var before := out;
      var i := 0;
      while i < |bs|
        invariant 0 <= i <= |bs|
        invariant indentation == old(indentation)
        invariant out == before + RenderBytes(bs[..i], format, indentation)
      {
        ghost var o1 := out;
        WriteComma(i == 0);
        ghost var o2 := out;
        out := out + NatToString(bs[i]);
        BytesLoopStep(before, bs, i, format, indentation, o1, o2, out);
        i := i + 1;
      }
      assert bs[..i] == bs;
    }

    /// The opening shared by the variant arms of `serialize`: `{`, the
    /// first separator, the variant name and a colon, one level deeper.
    method OpenTagged(variant: string)
      modifies this
      ensures indentation == old(indentation) + 1
      ensures out == old(out) + Opening(format, old(indentation), variant)
    {
      ghost var o0 := out;
      StartContainer('{');
      WriteComma(true);
      WriteEscapedStr(variant);
      WriteColon();
      Assoc5(o0, "{", Comma(format, true, indentation), Escaped(variant), Colon(format));
    }

    /// The closing of a variant arm whose value is written: the object
    /// ends one level up.
    method CloseTagged(ghost o0: string, n: nat, variant: string, ghost body: Option<string>)
      requires body.Some? && indentation == n + 1
      requires out == o0 + Opening(format, n, variant) + body.value
      modifies this
      ensures Tagged(format, n, variant, body).Some?
      ensures out == o0 + Tagged(format, n, variant, body).value
      ensures indentation == n
    {
      EndContainer('}', false);
      Assoc4(o0, Opening(format, n, variant), body.value, Close(format, n, false, '}'));
    }

    /// `serialize`: appends the JSON text of `value`; `false` when a map
    /// has a key that is neither a string nor an integer (the source
    /// panics there, and the output is abandoned).
    method Serialize(value: C.Content) returns (ok: bool)
      modifies this
      ensures ok <==> Render(value, format, old(indentation)).Some?
      ensures ok ==> out == old(out) + Render(value, format, old(indentation)).value
                     && indentation == old(indentation)
      decreases value, 3
    {
      if IsScalar(value) {
        SerializeScalar(value);
        ok := true;
      } else if value.Some? {
        ok := Serialize(value.inner);
      } else if value.NewtypeStruct? {
        ok := Serialize(value.inner);
      } else {
        ok := SerializeCompound(value);
      }
    }

    /// The arms of `serialize` for containers and variants.
    method SerializeCompound(value: C.Content) returns (ok: bool)
      requires !IsScalar(value) && !value.Some? && !value.NewtypeStruct?
      modifies this
      ensures ok <==> Render(value, format, old(indentation)).Some?
      ensures ok ==> out == old(out) + Render(value, format, old(indentation)).value
                     && indentation == old(indentation)
      decreases value, 2
    {
      if value.NewtypeVariant? || value.TupleVariant? || value.StructVariant? {
        ok := SerializeVariant(value);
      } else {
        ok := SerializeContainer(value);
      }
    }

    /// The arms of `serialize` for byte arrays, sequences, tuples, maps
    /// and structs.
    method SerializeContainer(value: C.Content) returns (ok: bool)
      requires value.Bytes? || value.Seq? || value.Tuple? || value.TupleStruct? || value.Map? || value.Struct?
      modifies this
      ensures ok <==> Render(value, format, old(indentation)).Some?
      ensures ok ==> out == old(out) + Render(value, format, old(indentation)).value
                     && indentation == old(indentation)
      decreases value, 1
    {
      if value.Map? {
        ok := SerializeMap(value.entries);
      } else if value.Struct? {
        ok := SerializeObject(value.fields);
      } else {
        ok := SerializeSequence(value);
      }
    }

    /// The arms of `serialize` written as arrays.
    method SerializeSequence(value: C.Content) returns (ok: bool)
      requires value.Bytes? || value.Seq? || value.Tuple? || value.TupleStruct?
      modifies this
      ensures ok <==> Render(value, format, old(indentation)).Some?
      ensures ok ==> out == old(out) + Render(value, format, old(indentation)).value
                     && indentation == old(indentation)
      decreases value, 0
    {
      match value
      case Bytes(bs) =>
        SerializeBytes(bs);
        ok := true;
      case Seq(es) => ok := SerializeArray(es);
      case Tuple(es) => ok := SerializeArray(es);
      case TupleStruct(_, es) => ok := SerializeArray(es);
    }

    /// The arms of `serialize` for the enum variants that carry data.
    method SerializeVariant(value: C.Content) returns (ok: bool)
      requires value.NewtypeVariant? || value.TupleVariant? || value.StructVariant?
      modifies this
      ensures ok <==> Render(value, format, old(indentation)).Some?
      ensures ok ==> out == old(out) + Render(value, format, old(indentation)).value
                     && indentation == old(indentation)
      decreases value, 1
    {
      if value.NewtypeVariant? {
        ok := SerializeNewtypeVariantOf(value);
      } else if value.TupleVariant? {
        ok := SerializeTupleVariantOf(value);
      } else {
        ok := SerializeStructVariantOf(value);
      }
    }

    /// `SerializeNewtypeVariant` on the variant's own parts.
    method SerializeNewtypeVariantOf(value: C.Content) returns (ok: bool)
      requires value.NewtypeVariant?
      modifies this
      ensures ok <==> Render(value, format, old(indentation)).Some?
      ensures ok ==> out == old(out) + Render(value, format, old(indentation)).value
                     && indentation == old(indentation)
      decreases value, 0
    {
      ghost var n := indentation;
      assert Render(value, format, n) == Tagged(format, n, value.variant, Render(value.inner, format, n + 1)) by {
        RenderNewtypeVariant(value, format, n);
      }
      ok := SerializeNewtypeVariant(value.variant, value.inner);
    }

    /// `SerializeTupleVariant` on the variant's own parts.
    method SerializeTupleVariantOf(value: C.Content) returns (ok: bool)
      requires value.TupleVariant?
      modifies this
      ensures ok <==> Render(value, format, old(indentation)).Some?
      ensures ok ==> out == old(out) + Render(value, format, old(indentation)).value
                     && indentation == old(indentation)
      decreases value, 0
    {
      ghost var n := indentation;
      assert Render(value, format, n) == Tagged(format, n, value.variant, RenderArray(value.elems, format, n + 1)) by {
        RenderTupleVariant(value, format, n);
      }
      ok := SerializeTupleVariant(value.variant, value.elems);
    }

    /// `SerializeStructVariant` on the variant's own parts.
    method SerializeStructVariantOf(value: C.Content) returns (ok: bool)
      requires value.StructVariant?
      modifies this
      ensures ok <==> Render(value, format, old(indentation)).Some?
      ensures ok ==> out == old(out) + Render(value, format, old(indentation)).value
                     && indentation == old(indentation)
      decreases value, 0
    {
      ghost var n := indentation;
      assert Render(value, format, n) == Tagged(format, n, value.variant, RenderObject(value.fields, format, n + 1)) by {
        RenderStructVariant(value, format, n);
      }
      ok := SerializeStructVariant(value.variant, value.fields);
    }

    /// The arms of `serialize` for values without children: numbers,
    /// booleans, strings and the variants written as `null`.
    method SerializeScalar(value: C.Content)
      requires IsScalar(value)
      modifies this
      ensures Render(value, format, old(indentation)).Some?
      ensures out == old(out) + Render(value, format, old(indentation)).value
      ensures indentation == old(indentation)
    {
      if C.IntValue(value).Some? {
        SerializeInteger(value);
      } else {
        SerializeAtom(value);
      }
    }

    /// The integer arms of `serialize`: the decimal value, whatever the
    /// width.
    method SerializeInteger(value: C.Content)
      requires C.IntValue(value).Some?
      modifies this
      ensures Render(value, format, old(indentation)) == Option.Some(IntToString(C.IntValue(value).value))
      ensures out == old(out) + IntToString(C.IntValue(value).value)
      ensures indentation == old(indentation)
    {
      out := out + IntToString(C.IntValue(value).value);
    }

    /// The arms of `serialize` for booleans, floats, characters, strings
    /// and the variants without data.
    method SerializeAtom(value: C.Content)
      requires IsScalar(value) && C.IntValue(value).None?
      modifies this
      ensures Render(value, format, old(indentation)).Some?
      ensures out == old(out) + Render(value, format, old(indentation)).value
      ensures indentation == old(indentation)
    {
      match value
      case Bool(b) => if b { out := out + "true"; } else { out := out + "false"; }
      case F32(x) => if C.IsFinite(x) { out := out + FormatFloat(x); } else { out := out + "null"; }
      case F64(x) => if C.IsFinite(x) { out := out + FormatFloat(x); } else { out := out + "null"; }
      case Char(ch) => WriteEscapedStr([ch]);
      case String(s) => WriteEscapedStr(s);
      case None => out := out + "null";
      case Unit => out := out + "null";
      case UnitStruct(_) => out := out + "null";
      case UnitVariant(_, _, v) => WriteEscapedStr(v);
    }

    /// The `Content::NewtypeVariant` arm of `serialize`.
    method SerializeNewtypeVariant(v: string, x: C.Content) returns (ok: bool)
      modifies this
      ensures ok <==> Tagged(format, old(indentation), v, Render(x, format, old(indentation) + 1)).Some?
      ensures ok ==> out == old(out) + Tagged(format, old(indentation), v, Render(x, format, old(indentation) + 1)).value
                     && indentation == old(indentation)
      decreases x, 4
    {
      ghost var o0 := out;
      var n := indentation;
      OpenTagged(v);
      ok := Serialize(x);
      if ok {
        CloseTagged(o0, n, v, Render(x, format, n + 1));
      }
    }

    /// The `Content::TupleVariant` arm of `serialize`.
    method SerializeTupleVariant(v: string, es: seq<C.Content>) returns (ok: bool)
      modifies this
      ensures ok <==> Tagged(format, old(indentation), v, RenderArray(es, format, old(indentation) + 1)).Some?
      ensures ok ==> out == old(out) + Tagged(format, old(indentation), v, RenderArray(es, format, old(indentation) + 1)).value
                     && indentation == old(indentation)
      decreases es, 3
    {
      ghost var o0 := out;
      var n := indentation;
      OpenTagged(v);
      ok := SerializeArray(es);
      if ok {
        CloseTagged(o0, n, v, RenderArray(es, format, n + 1));
      }
    }

    /// The `Content::StructVariant` arm of `serialize`.
    method SerializeStructVariant(v: string, fs: seq<(string, C.Content)>) returns (ok: bool)
      modifies this
      ensures ok <==> Tagged(format, old(indentation), v, RenderObject(fs, format, old(indentation) + 1)).Some?
      ensures ok ==> out == old(out) + Tagged(format, old(indentation), v, RenderObject(fs, format, old(indentation) + 1)).value
                     && indentation == old(indentation)
      decreases fs, 3
    {
      ghost var o0 := out;
      var n := indentation;
      OpenTagged(v);
      ok := SerializeObject(fs);
      if ok {
        CloseTagged(o0, n, v, RenderObject(fs, format, n + 1));
      }
    }

    /// A map key: the string, else the integer as a quoted decimal; a
    /// key that is neither makes the source panic.
    method WriteMapKey(key: C.Content) returns (ok: bool)
      modifies this
      ensures ok <==> KeyText(key).Some?
      ensures ok ==> out == old(out) + KeyText(key).value
      ensures indentation == old(indentation)
    {
      var realKey := C.ResolveInner(key);
      if realKey.String? {
        WriteEscapedStr(realKey.s);
      } else if C.AsI64AsWritten(realKey).Some? {
        KeyOfInteger(realKey);
        WriteEscapedStr(IntToString(C.AsI64AsWritten(realKey).value));
      } else if C.AsI128AsWritten(realKey).Some? {
        KeyOfInteger(realKey);
        WriteEscapedStr(IntToString(C.AsI128AsWritten(realKey).value));
      } else {
        KeyOfInteger(realKey);
        return false;
      }
      return true;
    }

    /// One entry of a map: its separator, key, colon and value.
    method SerializeEntry(e: (C.Content, C.Content), first: bool) returns (ok: bool)
      modifies this
      ensures ok <==> KeyText(e.0).Some? && Render(e.1, format, old(indentation)).Some?
      ensures ok ==> out == old(out) + (Comma(format, first, old(indentation)) + KeyText(e.0).value
                                        + Colon(format) + Render(e.1, format, old(indentation)).value)
      ensures ok ==> indentation == old(indentation)
      decreases e, 0
    {
      ghost var o0 := out;
      WriteComma(first);
      ok := WriteMapKey(e.0);
      if !ok {
        return false;
      }
      WriteColon();
      assert e.1 < e;
      ok := Serialize(e.1);
      if ok {
        Assoc5(o0, Comma(format, first, indentation), KeyText(e.0).value, Colon(format), Render(e.1, format, indentation).value);
      }
    }

    /// One field of a struct: its separator, name, colon and value.
    method SerializeField(fl: (string, C.Content), first: bool) returns (ok: bool)
      modifies this
      ensures ok <==> Render(fl.1, format, old(indentation)).Some?
      ensures ok ==> out == old(out) + (Comma(format, first, old(indentation)) + Escaped(fl.0)
                                        + Colon(format) + Render(fl.1, format, old(indentation)).value)
      ensures ok ==> indentation == old(indentation)
      decreases fl, 0
    {
      ghost var o0 := out;
      WriteComma(first);
      WriteEscapedStr(fl.0);
      WriteColon();
      assert fl.1 < fl;
      ok := Serialize(fl.1);
      if ok {
        Assoc5(o0, Comma(format, first, indentation), Escaped(fl.0), Colon(format), Render(fl.1, format, indentation).value);
      }
    }

    /// The `Content::Map` arm of `serialize`.
    method SerializeMap(es: seq<(C.Content, C.Content)>) returns (ok: bool)
      modifies this
      ensures ok <==> RenderMap(es, format, old(indentation)).Some?
      ensures ok ==> out == old(out) + RenderMap(es, format, old(indentation)).value
      ensures ok ==> indentation == old(indentation)
      decreases es, 2
    {
      var n := indentation;
      ghost var o0 := out;
      StartContainer('{');
      ok := SerializeEntries(es);
      MapSomeIff(es, format, n);
      if ok {
        CloseMap(o0, es, n);
      }
      assert old(indentation) == n && old(out) == o0;
    }

    /// The closing brace of a map whose entries are written.
    method CloseMap(ghost o0: string, es: seq<(C.Content, C.Content)>, n: nat)
      requires indentation == n + 1
      requires RenderEntries(es, format, n + 1).Some?
      requires out == o0 + "{" + RenderEntries(es, format, n + 1).value
      modifies this
      ensures RenderMap(es, format, n).Some?
      ensures out == o0 + RenderMap(es, format, n).value
      ensures indentation == n
    {
      ghost var o3 := out;
      EndContainer('}', |es| == 0);
      MapFinish(o0, o0 + "{", es, format, n, o3, out);
    }

    /// The entries of a map, each after its separator.
    method SerializeEntries(es: seq<(C.Content, C.Content)>) returns (ok: bool)
      modifies this
      ensures ok <==> RenderEntries(es, format, old(indentation)).Some?
      ensures ok ==> out == old(out) + RenderEntries(es, format, old(indentation)).value
      ensures ok ==> indentation == old(indentation)
      decreases es, 1
    {
      var n := indentation;
      ghost var before := out;
      var i := 0;
      while i < |es|
        invariant 0 <= i <= |es|
        invariant indentation == n
        invariant RenderEntries(es[..i], format, n).Some?
        invariant out == before + RenderEntries(es[..i], format, n).value
      {
        ok := SerializeEntryAt(before, es, i, n);
        if !ok {
          return false;
        }
        i := i + 1;
      }
      assert es[..i] == es;
      return true;
    }

    /// The loop body of `SerializeEntries`: entry `i` after the ones
    /// before it.
    method SerializeEntryAt(ghost before: string, es: seq<(C.Content, C.Content)>, i: nat, n: nat) returns (ok: bool)
      requires i < |es| && indentation == n
      requires RenderEntries(es[..i], format, n).Some?
      requires out == before + RenderEntries(es[..i], format, n).value
      modifies this
      ensures ok ==> indentation == n && RenderEntries(es[..i + 1], format, n).Some?
                     && out == before + RenderEntries(es[..i + 1], format, n).value
      ensures !ok ==> RenderEntries(es, format, n).None?
      decreases es, 0
    {
      ghost var o1 := out;
      ok := SerializeEntry(es[i], i == 0);
      if !ok {
        EntriesPrefixFails(es, i + 1, format, n);
        return false;
      }
      EntriesLoopStep(before, es, i, format, n, o1, out);
    }
  }

  /// The escape of one character, chosen by its entry in the table.
  method AppendEscape(buf: string, c: char, escape: char) returns (r: string)
    requires escape == EscapeTable(c) && escape != '\0'
    ensures r == buf + EscapeChar(c)
  {
    match escape {
    case 'b' => r := buf + "\\b";
    case 't' => r := buf + "\\t";
    case 'n' => r := buf + "\\n";
    case 'f' => r := buf + "\\f";
    case 'r' => r := buf + "\\r";
    case '"' => r := buf + "\\\"";
    case '\\' => r := buf + "\\\\";
    case _ =>
      var b := c as int;
      r := buf + "\\u00" + [HexDigit(b / 16), HexDigit(b % 16)];
    }
  }

  /// The run of plain characters before `value[i]`, then its escape.
  method AppendRunAndEscape(buf: string, value: string, start: nat, i: nat, escape: char) returns (r: string)
    requires start <= i < |value|
    requires escape == EscapeTable(value[i]) && escape != '\0'
    ensures r == buf + value[start..i] + EscapeChar(value[i])
  {
    r := buf;
    if start < i {
      r := r + value[start..i];
    } else {
      assert r == buf + value[start..i];
    }
    r := AppendEscape(r, value[i], escape);
  }

  /// `write_escaped_str`, shared by the writers of both generations: it
  /// copies the runs of characters that need no escape in one piece and
  /// writes the escape of each other character, between quotes.
  method AppendEscaped(buf: string, value: string) returns (r: string)
    ensures r == buf + Escaped(value)
  {
    r := buf + "\"";
    ghost var head := r;
    var start := 0;
    var i := 0;
    while i < |value|
      invariant 0 <= start <= i <= |value|
      invariant r == head + EscapeBody(value[..start])
      invariant forall j :: start <= j < i ==> !NeedsEscape(value[j])
    {
      var escape := EscapeTable(value[i]);
      if escape != '\0' {
        ghost var before := r;
        r := AppendRunAndEscape(r, value, start, i, escape);
        EscapeStep(head, value, start, i, before, r);
        start := i + 1;
      } else {
        assert !NeedsEscape(value[i]);
      }
      i := i + 1;
    }
    ghost var before := r;
    if start != |value| {
      r := r + value[start..];
    }
    ghost var body := r;
    r := r + "\"";
    EscapeFinish(buf, head, value, start, before, body, r);
  }

  lemma Assoc4(a: string, b: string, c: string, d: string)
    ensures a + b + c + d == a + (b + c + d)
  {
  }

  lemma Assoc5(a: string, b: string, c: string, d: string, e: string)
    ensures a + b + c + d + e == a + (b + c + d + e)
  {
  }

  lemma Assoc6(a: string, b: string, c: string, d: string, e: string, f: string)
    ensures a + b + c + d + e + f == a + (b + c + d + e + f)
  {
  }

  lemma Shift(a: string, b: string, c: string)
    ensures a + b + c == a + (b + c)
  {
  }

  lemma EscapeStep(head: string, value: string, start: nat, i: nat, before: string, after: string)
    requires start <= i < |value|
    requires forall j :: start <= j < i ==> !NeedsEscape(value[j])
    requires before == head + EscapeBody(value[..start])
    requires after == before + value[start..i] + EscapeChar(value[i])
    ensures after == head + EscapeBody(value[..i + 1])
  {
    EscapePrefixStep(value, start, i);
    Assoc4(head, EscapeBody(value[..start]), value[start..i], EscapeChar(value[i]));
  }

  lemma EscapePrefixStep(value: string, start: nat, i: nat)
    requires start <= i < |value|
    requires forall j :: start <= j < i ==> !NeedsEscape(value[j])
    ensures EscapeBody(value[..i + 1]) == EscapeBody(value[..start]) + value[start..i] + EscapeChar(value[i])
  {
    var p, q, c := value[..start], value[start..i], value[i];
    assert value[..i] == p + q;
    assert value[..i + 1] == value[..i] + [c];
    EscapeBodyPlain(q);
    EscapeBodyAppend(p, q);
    EscapeBodyAppend(value[..i], [c]);
    EscapeBodySingle(c);
  }

  lemma EscapeBodySingle(c: char)
    ensures EscapeBody([c]) == EscapeChar(c)
  {
    assert [c][1..] == [];
  }

  lemma EscapeFinish(o0: string, head: string, value: string, start: nat, before: string, body: string, after: string)
    requires start <= |value|
    requires forall j :: start <= j < |value| ==> !NeedsEscape(value[j])
    requires head == o0 + "\""
    requires before == head + EscapeBody(value[..start])
    requires body == before + value[start..]
    requires after == body + "\""
    ensures after == o0 + Escaped(value)
  {
    var a, b := value[..start], value[start..];
    assert value == a + b;
    EscapePlainSuffix(a, b);
    CloseQuote(o0, EscapeBody(a), b, Escaped(value));
  }

  lemma CloseQuote(o0: string, p: string, q: string, lit: string)
    requires lit == "\"" + (p + q) + "\""
    ensures o0 + "\"" + p + q + "\"" == o0 + lit
  {
    Assoc5(o0, "\"", p, q, "\"");
  }

  lemma EscapePlainSuffix(a: string, b: string)
    requires forall k :: 0 <= k < |b| ==> !NeedsEscape(b[k])
    ensures EscapeBody(a + b) == EscapeBody(a) + b
  {
    EscapeBodyAppend(a, b);
    EscapeBodyPlain(b);
  }

  lemma BytesStep(bs: seq<C.u8>, i: nat, f: Format, m: nat)
    requires i < |bs|
    ensures RenderBytes(bs[..i + 1], f, m) == RenderBytes(bs[..i], f, m) + Comma(f, i == 0, m) + NatToString(bs[i])
  {
    assert bs[..i + 1][..i] == bs[..i];
  }

  lemma BytesLoopStep(before: string, bs: seq<C.u8>, i: nat, f: Format, m: nat, o1: string, o2: string, o3: string)
    requires i < |bs|
    requires o1 == before + RenderBytes(bs[..i], f, m)
    requires o2 == o1 + Comma(f, i == 0, m)
    requires o3 == o2 + NatToString(bs[i])
    ensures o3 == before + RenderBytes(bs[..i + 1], f, m)
  {
    BytesStep(bs, i, f, m);
    Assoc4(before, RenderBytes(bs[..i], f, m), Comma(f, i == 0, m), NatToString(bs[i]));
  }

  lemma BytesFinish(o0: string, before: string, bs: seq<C.u8>, f: Format, n: nat, o3: string, o4: string)
    requires before == o0 + "["
    requires o3 == before + RenderBytes(bs, f, n + 1)
    requires o4 == o3 + Close(f, n, |bs| == 0, ']')
    ensures o4 == o0 + RenderByteArray(bs, f, n)
  {
    Assoc4(o0, "[", RenderBytes(bs, f, n + 1), Close(f, n, |bs| == 0, ']'));
  }

  lemma ElemsLoopStep(before: string, es: seq<C.Content>, i: nat, f: Format, m: nat, o1: string, o2: string, o3: string)
    requires i < |es|
    requires RenderElems(es[..i], f, m).Some? && Render(es[i], f, m).Some?
    requires o1 == before + RenderElems(es[..i], f, m).value
    requires o2 == o1 + Comma(f, i == 0, m)
    requires o3 == o2 + Render(es[i], f, m).value
    ensures RenderElems(es[..i + 1], f, m).Some?
    ensures o3 == before + RenderElems(es[..i + 1], f, m).value
  {
    ElemsSnoc(es, i, f, m);
    Assoc4(before, RenderElems(es[..i], f, m).value, Comma(f, i == 0, m), Render(es[i], f, m).value);
  }

  lemma ElemsSnoc(es: seq<C.Content>, i: nat, f: Format, m: nat)
    requires i < |es|
    requires RenderElems(es[..i], f, m).Some? && Render(es[i], f, m).Some?
    ensures RenderElems(es[..i + 1], f, m) ==
      Option.Some(RenderElems(es[..i], f, m).value + Comma(f, i == 0, m) + Render(es[i], f, m).value)
  {
    var last := es[..i + 1];
    assert last[..|last| - 1] == es[..i];
    assert last[|last| - 1] == es[i];
    ElemsLast(last, es[..i], es[i], f, m, RenderElems(es[..i], f, m).value, Render(es[i], f, m).value);
  }

  /// The elements rendered up to the last one, then the last one.
  lemma ElemsLast(last: seq<C.Content>, init: seq<C.Content>, e: C.Content, f: Format, m: nat, p: string, x: string)
    requires last != [] && last[..|last| - 1] == init && last[|last| - 1] == e
    requires RenderElems(init, f, m) == Option.Some(p) && Render(e, f, m) == Option.Some(x)
    ensures RenderElems(last, f, m) == Option.Some(p + Comma(f, |last| == 1, m) + x)
  {
  }

  lemma ArrayFinish(o0: string, before: string, es: seq<C.Content>, f: Format, n: nat, o3: string, o4: string)
    requires before == o0 + "["
    requires RenderElems(es, f, n + 1).Some?
    requires o3 == before + RenderElems(es, f, n + 1).value
    requires o4 == o3 + Close(f, n, |es| == 0, ']')
    ensures RenderArray(es, f, n).Some?
    ensures o4 == o0 + RenderArray(es, f, n).value
  {
    Assoc4(o0, "[", RenderElems(es, f, n + 1).value, Close(f, n, |es| == 0, ']'));
  }

  lemma FieldsLoopStep(before: string, fs: seq<(string, C.Content)>, i: nat, f: Format, m: nat, o1: string, o3: string)
    requires i < |fs|
    requires RenderFields(fs[..i], f, m).Some? && Render(fs[i].1, f, m).Some?
    requires o1 == before + RenderFields(fs[..i], f, m).value
    requires o3 == o1 + (Comma(f, i == 0, m) + Escaped(fs[i].0) + Colon(f) + Render(fs[i].1, f, m).value)
    ensures RenderFields(fs[..i + 1], f, m).Some?
    ensures o3 == before + RenderFields(fs[..i + 1], f, m).value
  {
    FieldsSnoc(fs, i, f, m);
    var p, x := RenderFields(fs[..i], f, m).value, Render(fs[i].1, f, m).value;
    Assoc5(p, Comma(f, i == 0, m), Escaped(fs[i].0), Colon(f), x);
    Shift(before, p, Comma(f, i == 0, m) + Escaped(fs[i].0) + Colon(f) + x);
  }

  lemma FieldsSnoc(fs: seq<(string, C.Content)>, i: nat, f: Format, m: nat)
    requires i < |fs|
    requires RenderFields(fs[..i], f, m).Some? && Render(fs[i].1, f, m).Some?
    ensures RenderFields(fs[..i + 1], f, m) ==
      Option.Some(RenderFields(fs[..i], f, m).value + Comma(f, i == 0, m) + Escaped(fs[i].0) + Colon(f) + Render(fs[i].1, f, m).value)
  {
    var last := fs[..i + 1];
    assert last[..|last| - 1] == fs[..i];
    assert last[|last| - 1] == fs[i];
    FieldsLast(last, fs[..i], fs[i], f, m, RenderFields(fs[..i], f, m).value, Render(fs[i].1, f, m).value);
  }

  /// The fields rendered up to the last one, then the last one.
  lemma FieldsLast(last: seq<(string, C.Content)>, init: seq<(string, C.Content)>, e: (string, C.Content),
                   f: Format, m: nat, p: string, x: string)
    requires last != [] && last[..|last| - 1] == init && last[|last| - 1] == e
    requires RenderFields(init, f, m) == Option.Some(p) && Render(e.1, f, m) == Option.Some(x)
    ensures RenderFields(last, f, m) == Option.Some(p + Comma(f, |last| == 1, m) + Escaped(e.0) + Colon(f) + x)
  {
  }

  lemma ObjectFinish(o0: string, before: string, fs: seq<(string, C.Content)>, f: Format, n: nat, o3: string, o4: string)
    requires before == o0 + "{"
    requires RenderFields(fs, f, n + 1).Some?
    requires o3 == before + RenderFields(fs, f, n + 1).value
    requires o4 == o3 + Close(f, n, |fs| == 0, '}')
    ensures RenderObject(fs, f, n).Some?
    ensures o4 == o0 + RenderObject(fs, f, n).value
  {
    Assoc4(o0, "{", RenderFields(fs, f, n + 1).value, Close(f, n, |fs| == 0, '}'));
  }

  lemma EntriesLoopStep(before: string, es: seq<(C.Content, C.Content)>, i: nat, f: Format, m: nat, o1: string, o3: string)
    requires i < |es|
    requires RenderEntries(es[..i], f, m).Some? && KeyText(es[i].0).Some? && Render(es[i].1, f, m).Some?
    requires o1 == before + RenderEntries(es[..i], f, m).value
    requires o3 == o1 + (Comma(f, i == 0, m) + KeyText(es[i].0).value + Colon(f) + Render(es[i].1, f, m).value)
    ensures RenderEntries(es[..i + 1], f, m).Some?
    ensures o3 == before + RenderEntries(es[..i + 1], f, m).value
  {
    EntriesSnoc(es, i, f, m);
    var p, x := RenderEntries(es[..i], f, m).value, Render(es[i].1, f, m).value;
    Assoc5(p, Comma(f, i == 0, m), KeyText(es[i].0).value, Colon(f), x);
    Shift(before, p, Comma(f, i == 0, m) + KeyText(es[i].0).value + Colon(f) + x);
  }

  lemma EntriesSnoc(es: seq<(C.Content, C.Content)>, i: nat, f: Format, m: nat)
    requires i < |es|
    requires RenderEntries(es[..i], f, m).Some? && KeyText(es[i].0).Some? && Render(es[i].1, f, m).Some?
    ensures RenderEntries(es[..i + 1], f, m) ==
      Option.Some(RenderEntries(es[..i], f, m).value + Comma(f, i == 0, m) + KeyText(es[i].0).value + Colon(f) + Render(es[i].1, f, m).value)
  {
    var last := es[..i + 1];
    assert last[..|last| - 1] == es[..i];
    assert last[|last| - 1] == es[i];
    EntriesLast(last, es[..i], es[i], f, m, RenderEntries(es[..i], f, m).value, KeyText(es[i].0).value, Render(es[i].1, f, m).value);
  }

  /// The entries rendered up to the last one, then the last one.
  lemma EntriesLast(last: seq<(C.Content, C.Content)>, init: seq<(C.Content, C.Content)>, e: (C.Content, C.Content),
                    f: Format, m: nat, p: string, k: string, x: string)
    requires last != [] && last[..|last| - 1] == init && last[|last| - 1] == e
    requires RenderEntries(init, f, m) == Option.Some(p) && KeyText(e.0) == Option.Some(k) && Render(e.1, f, m) == Option.Some(x)
    ensures RenderEntries(last, f, m) == Option.Some(p + Comma(f, |last| == 1, m) + k + Colon(f) + x)
  {
  }

  lemma ArrayFails(es: seq<C.Content>, f: Format, n: nat)
    requires RenderElems(es, f, n + 1).None?
    ensures RenderArray(es, f, n).None?
  {
  }

  lemma ObjectFails(fs: seq<(string, C.Content)>, f: Format, n: nat)
    requires RenderFields(fs, f, n + 1).None?
    ensures RenderObject(fs, f, n).None?
  {
  }

  lemma MapSomeIff(es: seq<(C.Content, C.Content)>, f: Format, n: nat)
    ensures RenderMap(es, f, n).Some? <==> RenderEntries(es, f, n + 1).Some?
  {
  }

  lemma MapFinish(o0: string, before: string, es: seq<(C.Content, C.Content)>, f: Format, n: nat, o3: string, o4: string)
    requires before == o0 + "{"
    requires RenderEntries(es, f, n + 1).Some?
    requires o3 == before + RenderEntries(es, f, n + 1).value
    requires o4 == o3 + Close(f, n, |es| == 0, '}')
    ensures RenderMap(es, f, n).Some?
    ensures o4 == o0 + RenderMap(es, f, n).value
  {
    Assoc4(o0, "{", RenderEntries(es, f, n + 1).value, Close(f, n, |es| == 0, '}'));
  }

  lemma ElemsPrefixFails(es: seq<C.Content>, k: nat, f: Format, m: nat)
    requires 0 < k <= |es|
    requires Render(es[k - 1], f, m).None?
    ensures RenderElems(es, f, m).None?
    decreases |es|
  {
    if k < |es| {
      assert es[..|es| - 1][k - 1] == es[k - 1];
      ElemsPrefixFails(es[..|es| - 1], k, f, m);
    }
  }

  lemma FieldsPrefixFails(fs: seq<(string, C.Content)>, k: nat, f: Format, m: nat)
    requires 0 < k <= |fs|
    requires Render(fs[k - 1].1, f, m).None?
    ensures RenderFields(fs, f, m).None?
    decreases |fs|
  {
    if k < |fs| {
      assert fs[..|fs| - 1][k - 1] == fs[k - 1];
      FieldsPrefixFails(fs[..|fs| - 1], k, f, m);
    }
  }

  lemma EntriesPrefixFails(es: seq<(C.Content, C.Content)>, k: nat, f: Format, m: nat)
    requires 0 < k <= |es|
    requires KeyText(es[k - 1].0).None? || Render(es[k - 1].1, f, m).None?
    ensures RenderEntries(es, f, m).None?
    decreases |es|
  {
    if k < |es| {
      assert es[..|es| - 1][k - 1] == es[k - 1];
      EntriesPrefixFails(es[..|es| - 1], k, f, m);
    }
  }

  // ---------------------------------------------------------------------
  // When serialization succeeds

  /// Every map key in `c`, at any depth, is a string or an integer.
  predicate Serializable(c: C.Content)
    decreases c
  {
    match c
    case Some(x) => Serializable(x)
    case NewtypeStruct(_, x) => Serializable(x)
    case NewtypeVariant(_, _, _, x) => Serializable(x)
    case Seq(es) => ElemsSerializable(es)
    case Tuple(es) => ElemsSerializable(es)
    case TupleStruct(_, es) => ElemsSerializable(es)
    case TupleVariant(_, _, _, es) => ElemsSerializable(es)
    case Map(es) => EntriesSerializable(es)
    case Struct(_, fs) => FieldsSerializable(fs)
    case StructVariant(_, _, _, fs) => FieldsSerializable(fs)
    case _ => true
  }

  predicate ElemsSerializable(es: seq<C.Content>)
    decreases es, 0
  {
    es == [] || (ElemsSerializable(es[..|es| - 1]) && Serializable(es[|es| - 1]))
  }

  predicate EntriesSerializable(es: seq<(C.Content, C.Content)>)
    decreases es, 0
  {
    if es == [] then true
    else
      var e := es[|es| - 1];
      assert e.1 < e;
      EntriesSerializable(es[..|es| - 1]) && KeyText(e.0).Some? && Serializable(e.1)
  }

  predicate FieldsSerializable(fs: seq<(string, C.Content)>)
    decreases fs, 0
  {
    if fs == [] then true
    else
      var e := fs[|fs| - 1];
      assert e.1 < e;
      FieldsSerializable(fs[..|fs| - 1]) && Serializable(e.1)
  }

  /// The writer fails exactly on the values with a key that is neither a
  /// string nor an integer, whatever the layout and the depth.
  lemma {:induction false} RenderSomeIff(c: C.Content, f: Format, n: nat)
    ensures Render(c, f, n).Some? <==> Serializable(c)
    decreases c, 2
  {
    if IsScalar(c) {
      ScalarRenders(c, f, n);
    } else {
      CompoundSomeIff(c, f, n);
    }
  }

  lemma ScalarRenders(c: C.Content, f: Format, n: nat)
    requires IsScalar(c)
    ensures Render(c, f, n).Some? && Serializable(c)
  {
  }

  lemma {:induction false} CompoundSomeIff(c: C.Content, f: Format, n: nat)
    requires !IsScalar(c)
    ensures Render(c, f, n).Some? <==> Serializable(c)
    decreases c, 1
  {
    if c.Some? || c.NewtypeStruct? || c.NewtypeVariant? {
      WrapperSomeIff(c, f, n);
    } else if c.Seq? || c.Tuple? || c.TupleStruct? || c.TupleVariant? {
      ArraySomeIff(c, f, n);
    } else {
      ObjectSomeIff(c, f, n);
    }
  }

  lemma {:induction false} WrapperSomeIff(c: C.Content, f: Format, n: nat)
    requires c.Some? || c.NewtypeStruct? || c.NewtypeVariant?
    ensures Render(c, f, n).Some? <==> Serializable(c)
    decreases c, 0
  {
    match c
    case Some(x) => RenderSomeIff(x, f, n);
    case NewtypeStruct(_, x) => RenderSomeIff(x, f, n);
    case NewtypeVariant(_, _, _, x) => RenderSomeIff(x, f, n + 1);
  }

  lemma {:induction false} ArraySomeIff(c: C.Content, f: Format, n: nat)
    requires c.Seq? || c.Tuple? || c.TupleStruct? || c.TupleVariant?
    ensures Render(c, f, n).Some? <==> Serializable(c)
    decreases c, 0
  {
    match c
    case Seq(es) => ElemsSomeIff(es, f, n + 1);
    case Tuple(es) => ElemsSomeIff(es, f, n + 1);
    case TupleStruct(_, es) => ElemsSomeIff(es, f, n + 1);
    case TupleVariant(_, _, _, es) => ElemsSomeIff(es, f, n + 2);
  }

  lemma {:induction false} ObjectSomeIff(c: C.Content, f: Format, n: nat)
    requires c.Map? || c.Struct? || c.StructVariant? || c.Bytes?
    ensures Render(c, f, n).Some? <==> Serializable(c)
    decreases c, 0
  {
    match c
    case Map(es) => EntriesSomeIff(es, f, n + 1);
    case Struct(_, fs) => FieldsSomeIff(fs, f, n + 1);
    case StructVariant(_, _, _, fs) => FieldsSomeIff(fs, f, n + 2);
    case Bytes(_) =>
  }

  lemma {:induction false} ElemsSomeIff(es: seq<C.Content>, f: Format, m: nat)
    ensures RenderElems(es, f, m).Some? <==> ElemsSerializable(es)
    decreases es, 0
  {
    if es != [] {
      ElemsSomeIff(es[..|es| - 1], f, m);
      RenderSomeIff(es[|es| - 1], f, m);
    }
  }

  lemma {:induction false} EntriesSomeIff(es: seq<(C.Content, C.Content)>, f: Format, m: nat)
    ensures RenderEntries(es, f, m).Some? <==> EntriesSerializable(es)
    decreases es, 0
  {
    if es != [] {
      var e := es[|es| - 1];
      assert e.1 < e;
      EntriesSomeIff(es[..|es| - 1], f, m);
      RenderSomeIff(e.1, f, m);
    }
  }

  lemma {:induction false} FieldsSomeIff(fs: seq<(string, C.Content)>, f: Format, m: nat)
    ensures RenderFields(fs, f, m).Some? <==> FieldsSerializable(fs)
    decreases fs, 0
  {
    if fs != [] {
      var e := fs[|fs| - 1];
      assert e.1 < e;
      FieldsSomeIff(fs[..|fs| - 1], f, m);
      RenderSomeIff(e.1, f, m);
    }
  }

  /// An empty container is written as its two brackets in every layout.
  lemma EmptyArrays(f: Format, n: nat)
    ensures Render(C.Seq([]), f, n) == Option.Some("[]")
    ensures Render(C.Bytes([]), f, n) == Option.Some("[]")
  {
    var b: string := [];
    assert "[" + b + "]" == "[]";
    assert Close(f, n, true, ']') == "]";
    var items: seq<C.Content> := [];
    assert RenderElems(items, f, n + 1) == Option.Some(b);
    assert RenderArray(items, f, n) == Option.Some("[" + b + "]");
  }

  /// An empty map or struct is `{}` in every layout and at every depth.
  lemma EmptyObjects(f: Format, n: nat, name: string)
    ensures Render(C.Map([]), f, n) == Option.Some("{}")
    ensures Render(C.Struct(name, []), f, n) == Option.Some("{}")
  {
    var b: string := [];
    assert "{" + b + "}" == "{}";
    assert Close(f, n, true, '}') == "}";
    var es: seq<(C.Content, C.Content)> := [];
    assert RenderEntries(es, f, n + 1) == Option.Some(b);
    assert RenderMap(es, f, n) == Option.Some("{" + b + "}");
  }

  // ---------------------------------------------------------------------
  // The entry points

  /// `to_string`: the condensed text.
  method ToString(value: C.Content) returns (r: Option<string>)
    ensures r.Some? <==> Serializable(value)
    ensures r.Some? ==> r == Render(value, Condensed, 0)
  {
    var ser := new Serializer(Condensed);
    var ok := ser.Serialize(value);
    RenderSomeIff(value, Condensed, 0);
    if !ok {
      return Option.None;
    }
    assert [] + Render(value, Condensed, 0).value == Render(value, Condensed, 0).value;
    assert ser.out == Render(value, Condensed, 0).value;
    return Option.Some(ser.out);
  }

  /// `to_string_pretty`: the pretty text.
  method ToStringPretty(value: C.Content) returns (r: Option<string>)
    ensures r.Some? <==> Serializable(value)
    ensures r.Some? ==> r == Render(value, Pretty, 0)
  {
    var ser := new Serializer(Pretty);
    var ok := ser.Serialize(value);
    RenderSomeIff(value, Pretty, 0);
    if !ok {
      return Option.None;
    }
    assert [] + Render(value, Pretty, 0).value == Render(value, Pretty, 0).value;
    assert ser.out == Render(value, Pretty, 0).value;
    return Option.Some(ser.out);
  }

  /// `to_string_compact`: the single-line text when it has at most
  /// `COMPACT_MAX_CHARS` characters, the pretty text otherwise.
  method ToStringCompact(value: C.Content) returns (r: Option<string>)
    ensures r.Some? <==> Render(value, SingleLine, 0).Some?
    ensures r.Some? <==> Serializable(value)
    ensures r.Some? && |Render(value, SingleLine, 0).value| <= COMPACT_MAX_CHARS ==>
              r == Render(value, SingleLine, 0)
    ensures r.Some? && |Render(value, SingleLine, 0).value| > COMPACT_MAX_CHARS ==>
              r == Render(value, Pretty, 0)
  {
    var ser := new Serializer(SingleLine);
    var ok := ser.Serialize(value);
    RenderSomeIff(value, SingleLine, 0);
    if !ok {
      return Option.None;
    }
    var rv := ser.out;
    assert [] + Render(value, SingleLine, 0).value == Render(value, SingleLine, 0).value;
    assert rv == Render(value, SingleLine, 0).value;
    if |rv| > COMPACT_MAX_CHARS {
      r := ToStringPretty(value);
    } else {
      r := Option.Some(rv);
    }
  }
}
