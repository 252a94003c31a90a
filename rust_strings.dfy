// Rust string literals as `to_inline` writes them (insta/src/snapshot.rs):
// `format!("{s:?}")` for text with control characters, the escapes that
// read such a literal back, and the reading of a raw literal `r#".."#`.
// `Debug` prints characters above U+009F as themselves here: the Unicode
// printability tables are not part of this model.
module RustStrings {
  import opened Wrappers
  import opened Strs

  function HexDigit(d: nat): char
    requires d < 16
  {
    "0123456789abcdef"[d]
  }

  /// Lower-case hexadecimal without leading zeros (`{:x}`).
  function LowerHex(n: nat): (r: string)
    ensures 1 <= |r|
    ensures n < 256 ==> |r| <= 2
    ensures '}' !in r
  {
    if n < 16 then [HexDigit(n)] else LowerHex(n / 16) + [HexDigit(n % 16)]
  }

  /// The value of a hexadecimal digit, `None` for any other character.
  function DigitValue(c: char): Option<nat>
  {
    if '0' <= c <= '9' then Some(c as int - '0' as int)
    else if 'a' <= c <= 'f' then Some(c as int - 'a' as int + 10)
    else if 'A' <= c <= 'F' then Some(c as int - 'A' as int + 10)
    else None
  }

  /// The value of a sequence of hexadecimal digits.
  function HexValue(ds: string): Option<nat>
  {
    if ds == [] then Some(0)
    else
      match (HexValue(ds[..|ds| - 1]), DigitValue(ds[|ds| - 1]))
      case (Some(v), Some(d)) => Some(v * 16 + d)
      case _ => None
  }

  /// The `{:x}` digits read back as hexadecimal give the number.
  lemma {:induction false} HexValueOfLowerHex(n: nat)
    ensures HexValue(LowerHex(n)) == Some(n)
  {
    if n >= 16 {
      var q, d := DivMod16(n);
      HexValueOfLowerHex(q);
      DigitValueOfHexDigit(d);
      HexValueSnoc(LowerHex(q), HexDigit(d), q, d);
    } else {
      DigitValueOfHexDigit(n);
      assert LowerHex(n)[..0] == [];
    }
  }

  lemma HexValueSnoc(h: string, c: char, v: nat, d: nat)
    requires HexValue(h) == Some(v) && DigitValue(c) == Some(d)
    ensures HexValue(h + [c]) == Some(v * 16 + d)
  {
    assert (h + [c])[..|h|] == h;
  }

  lemma DivMod16(n: nat) returns (q: nat, d: nat)
    ensures q == n / 16 && d == n % 16 && d < 16 && q * 16 + d == n
  {
    q, d := n / 16, n % 16;
  }

  lemma DigitValueOfHexDigit(d: nat)
    requires d < 16
    ensures DigitValue(HexDigit(d)) == Some(d)
  {
  }

  /// `char::escape_debug` as `str`'s `Debug` applies it.
  function EscapeChar(c: char): string
  {
    if c == '\0' then "\\0"
    else if c == '\t' then "\\t"
    else if c == '\r' then "\\r"
    else if c == '\n' then "\\n"
    else if c == '\\' then "\\\\"
    else if c == '"' then "\\\""
    else if IsControl(c) then "\\u{" + LowerHex(c as int) + "}"
    else [c]
  }

  function Escape(s: string): string
  {
    if s == [] then [] else EscapeChar(s[0]) + Escape(s[1..])
  }

  /// `format!("{s:?}")`: the escaped text between double quotes.
  function DebugStr(s: string): (r: string)
    ensures |r| >= 2 && r[0] == '"' && r[|r| - 1] == '"'
    ensures r[1..|r| - 1] == Escape(s)
  {
    "\"" + Escape(s) + "\""
  }

  /// The character a one-letter escape stands for.
  function SimpleEscape(c: char): Option<char>
  {
    if c == '0' then Some('\0')
    else if c == 't' then Some('\t')
    else if c == 'r' then Some('\r')
    else if c == 'n' then Some('\n')
    else if c == '\\' then Some('\\')
    else if c == '"' then Some('"')
    else if c == '\'' then Some('\'')
    else None
  }

  /// The character a `\u{..}` escape with these digits stands for.
  function UnicodeEscape(ds: string): Option<char>
  {
    if |ds| < 1 || 6 < |ds| then None
    else
      match HexValue(ds)
      case None => None
      case Some(v) =>
        if v < 0xD800 || (0xE000 <= v < 0x11_0000) then Some(v as char) else None
  }

  function Prepend(c: char, r: Option<string>): Option<string>
  {
    match r
    case None => None
    case Some(s) => Some([c] + s)
  }

  /// The value of the body of a Rust string literal under the escapes
  /// `Debug` writes; `None` when the body holds a bare `"` or an escape
  /// outside that set.
  function Unescape(e: string): Option<string>
    decreases |e|
  {
    if e == [] then Some([])
    else if e[0] == '"' then None
    else if e[0] != '\\' then Prepend(e[0], Unescape(e[1..]))
    else if |e| < 2 then None
    else if e[1] == 'u' then
      if |e| < 3 || e[2] != '{' then None
      else
        var j := IndexOfChar(e[3..], '}');
        if j == |e| - 3 then None
        else
          match UnicodeEscape(e[3..3 + j])
          case None => None
          case Some(c) => Prepend(c, Unescape(e[3 + j + 1..]))
    else
      match SimpleEscape(e[1])
      case None => None
      case Some(c) => Prepend(c, Unescape(e[2..]))
  }

  lemma {:induction false} UnescapeUnicode(c: char, rest: string)
    requires IsControl(c)
    ensures Unescape("\\u{" + LowerHex(c as int) + "}" + rest) == Prepend(c, Unescape(rest))
  {
    var h := LowerHex(c as int);
    var e := "\\u{" + h + "}" + rest;
    assert e[3..] == h + "}" + rest;
    IndexOfCharAfter(h, '}', rest);
    assert e[3..3 + |h|] == h;
    assert e[3 + |h| + 1..] == rest;
    HexValueOfLowerHex(c as int);
  }

  lemma {:induction false} UnescapeChar(c: char, rest: string)
    ensures Unescape(EscapeChar(c) + rest) == Prepend(c, Unescape(rest))
  {
    if c == '\0' || c == '\t' || c == '\r' || c == '\n' || c == '\\' || c == '"' {
      assert (EscapeChar(c) + rest)[2..] == rest;
    } else if IsControl(c) {
      UnescapeUnicode(c, rest);
    } else {
      assert (EscapeChar(c) + rest)[1..] == rest;
    }
  }

  /// Reading the escaped text back as a string literal gives the text.
  lemma {:induction false} UnescapeEscape(s: string)
    ensures Unescape(Escape(s)) == Some(s)
  {
    if s != [] {
      UnescapeEscape(s[1..]);
      UnescapeChar(s[0], Escape(s[1..]));
      assert [s[0]] + s[1..] == s;
    }
  }

  /// The escaped text holds no control character, so it can stand in a
  /// single-line literal.
  lemma {:induction false} EscapeHasNoControl(s: string)
    ensures forall k :: 0 <= k < |Escape(s)| ==> !IsControl(Escape(s)[k])
  {
    if s != [] {
      EscapeHasNoControl(s[1..]);
      var h := EscapeChar(s[0]);
      var t := Escape(s[1..]);
      forall k | 0 <= k < |h| ensures !IsControl(h[k]) {
        HexHasNoControl(s[0]);
      }
      forall k | 0 <= k < |h + t| ensures !IsControl((h + t)[k]) {
        if k >= |h| {
          assert (h + t)[k] == t[k - |h|];
        }
      }
    }
  }

  lemma HexHasNoControl(c: char)
    ensures forall k :: 0 <= k < |EscapeChar(c)| ==> !IsControl(EscapeChar(c)[k])
  {
    if IsControl(c) && !(c == '\0' || c == '\t' || c == '\r' || c == '\n') {
      LowerHexDigits(c as int);
    }
  }

  lemma {:induction false} LowerHexDigits(n: nat)
    ensures forall k :: 0 <= k < |LowerHex(n)| ==> LowerHex(n)[k] in "0123456789abcdef"
  {
    if n >= 16 {
      LowerHexDigits(n / 16);
    }
  }

  // ---------------------------------------------------------------------
  // Raw string literals.

  /// The number of `#` characters at the start of `s`.
  function HashRun(s: string): nat
    decreases |s|
  {
    if s != [] && s[0] == '#' then 1 + HashRun(s[1..]) else 0
  }

  /// `"#".repeat(n)`
  function Hashes(n: nat): (r: string)
    ensures |r| == n
    ensures forall k :: 0 <= k < n ==> r[k] == '#'
  {
    if n == 0 then [] else "#" + Hashes(n - 1)
  }

  /// Every quote in `s` is followed by fewer than `n` hashes: `s` can be
  /// the body of a raw literal fenced by `n` hashes.
  ghost predicate QuotesFenced(s: string, n: nat)
  {
    forall i :: 0 <= i < |s| && s[i] == '"' ==> HashRun(s[i + 1..]) < n
  }

  /// The first `"` at or after `i` that is followed by at least `n`
  /// hashes: where a raw literal fenced by `n` hashes ends.
  function CloseFrom(u: string, n: nat, i: nat): (p: nat)
    requires i <= |u|
    ensures i <= p <= |u|
    ensures p < |u| ==> u[p] == '"' && HashRun(u[p + 1..]) >= n
    decreases |u| - i
  {
    if i == |u| then |u|
    else if u[i] == '"' && HashRun(u[i + 1..]) >= n then i
    else CloseFrom(u, n, i + 1)
  }

  /// The value of the raw literal `r#.."..."#..` that makes up all of
  /// `lit`; `None` when `lit` is not one.
  function ReadRaw(lit: string): Option<string>
  {
    if lit == [] || lit[0] != 'r' then None
    else
      var n := HashRun(lit[1..]);
      if 1 + n >= |lit| || lit[1 + n] != '"' then None
      else
        var u := lit[2 + n..];
        var p := CloseFrom(u, n, 0);
        if p < |u| && u[p + 1..] == Hashes(n) then Some(u[..p]) else None
  }

  /// The value of the string literal, raw or escaped, that makes up all
  /// of `lit`; `None` when `lit` is not one.
  function ReadLiteral(lit: string): Option<string>
  {
    if lit != [] && lit[0] == 'r' then ReadRaw(lit)
    else if |lit| >= 2 && lit[0] == '"' && lit[|lit| - 1] == '"' then Unescape(lit[1..|lit| - 1])
    else None
  }

  lemma {:induction false} HashRunHashes(n: nat, x: string)
    requires x == [] || x[0] != '#'
    ensures HashRun(Hashes(n) + x) == n
  {
    if n > 0 {
      HashRunHashes(n - 1, x);
      assert (Hashes(n) + x)[1..] == Hashes(n - 1) + x;
    } else {
      assert Hashes(n) + x == x;
    }
  }

  /// A run of hashes stops where a character other than `#` follows.
  lemma {:induction false} HashRunStop(x: string, y: string)
    requires y == [] || y[0] != '#'
    ensures HashRun(x + y) == HashRun(x)
  {
    if x == [] {
      assert x + y == y;
    } else if x[0] == '#' {
      HashRunStop(x[1..], y);
      assert (x + y)[1..] == x[1..] + y;
    }
  }

  lemma {:induction false} CloseFromIs(u: string, n: nat, i: nat, p: nat)
    requires i <= p < |u| && u[p] == '"' && HashRun(u[p + 1..]) >= n
    requires forall q :: i <= q < p && u[q] == '"' ==> HashRun(u[q + 1..]) < n
    ensures CloseFrom(u, n, i) == p
    decreases p - i
  {
    if i < p {
      CloseFromIs(u, n, i + 1, p);
    }
  }

  /// A fenced body read back from its raw literal is the body.
  lemma {:induction false} ReadRawFenced(body: string, n: nat)
    requires QuotesFenced(body, n)
    ensures ReadRaw("r" + Hashes(n) + "\"" + body + "\"" + Hashes(n)) == Some(body)
  {
    var h := Hashes(n);
    var lit := "r" + h + "\"" + body + "\"" + h;
    RawLiteralParts(body, h);
    HashRunHashes(n, "\"" + body + "\"" + h);
    var u := body + "\"" + h;
    forall q | 0 <= q < |body| && u[q] == '"' ensures HashRun(u[q + 1..]) < n {
      BodyQuote(body, h, q);
      HashRunStop(body[q + 1..], "\"" + h);
    }
    assert u[|body| + 1..] == h;
    HashRunHashes(n, []);
    assert h + [] == h;
    CloseFromIs(u, n, 0, |body|);
    assert u[..|body|] == body;
  }

  lemma RawLiteralParts(body: string, h: string)
    ensures ("r" + h + "\"" + body + "\"" + h)[1..] == h + ("\"" + body + "\"" + h)
    ensures ("r" + h + "\"" + body + "\"" + h)[1 + |h|] == '"'
    ensures ("r" + h + "\"" + body + "\"" + h)[2 + |h|..] == body + "\"" + h
  {
  }

  lemma BodyQuote(body: string, h: string, q: nat)
    requires q < |body|
    ensures (body + "\"" + h)[q] == body[q]
    ensures (body + "\"" + h)[q + 1..] == body[q + 1..] + ("\"" + h)
  {
  }

  /// Text without backslashes and quotes is its own escaped form.
  lemma {:induction false} UnescapePlain(s: string)
    requires '\\' !in s && '"' !in s
    ensures Unescape(s) == Some(s)
  {
    if s != [] {
      assert s[0] in s;
      UnescapePlain(s[1..]);
      assert [s[0]] + s[1..] == s;
    }
  }
}
