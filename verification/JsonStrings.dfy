// JSON string escaping: valueToQuotedString, Reader::decodeString, and the
// UTF-8 encoder behind the \u escapes.

module JsonStrings {
  import opened CStrings

  const BACKSPACE: char := 8 as char
  const FORM_FEED: char := 12 as char

  // ---- writing ----

  predicate IsControlCharacter(c: char) { 0 < c as int <= 0x1f }

  function HexDigit(d: nat): char
    requires d < 16
  {
    if d < 10 then '0' + d as char else 'A' + (d - 10) as char
  }

  function Hex4(n: nat): string
    requires n < 0x1_0000
  {
    [HexDigit(n / 0x1000), HexDigit(n / 0x100 % 16), HexDigit(n / 16 % 16), HexDigit(n % 16)]
  }

  function EscapeChar(c: char): string {
    if c == '"' then "\\\""
    else if c == '\\' then "\\\\"
    else if c == BACKSPACE then "\\b"
    else if c == FORM_FEED then "\\f"
    else if c == '\n' then "\\n"
    else if c == '\r' then "\\r"
    else if c == '\t' then "\\t"
    else if IsControlCharacter(c) then "\\u" + Hex4(c as int)
    else [c]
  }

  function Escape(s: string): string {
    if s == "" then "" else EscapeChar(s[0]) + Escape(s[1..])
  }

  function Quote(s: string): string {
    "\"" + Escape(s) + "\""
  }

  lemma {:induction false} EscapeAppend(s: string, c: char)
    ensures Escape(s + [c]) == Escape(s) + EscapeChar(c)
  {
    hide EscapeChar;
    if s == "" {
      assert [c][1..] == "";
    } else {
      EscapeAppend(s[1..], c);
      assert (s + [c])[1..] == s[1..] + [c];
    }
  }

  lemma {:induction false} EscapePlain(s: string)
    requires forall k :: 0 <= k < |s| ==> EscapeChar(s[k]) == [s[k]]
    ensures Escape(s) == s
  {
    if s != "" {
      EscapePlain(s[1..]);
    }
  }

  /** The characters valueToQuotedString looks for with strpbrk. */
  predicate IsSpecial(c: char) {
    c == '"' || c == '\\' || c == BACKSPACE || c == FORM_FEED || c == '\n' || c == '\r' || c == '\t'
  }

  method ContainsControlCharacter(str: string) returns (found: bool)
    ensures found <==> exists k :: 0 <= k < |str| && IsControlCharacter(str[k])
  {
    for i := 0 to |str|
      invariant forall k :: 0 <= k < i ==> !IsControlCharacter(str[k])
    {
      if IsControlCharacter(str[i]) {
        return true;
      }
    }
    return false;
  }

  lemma QuoteOneMore(value: string, i: nat, unit: string)
    requires i < |value| && unit == EscapeChar(value[i])
    ensures "\"" + Escape(value[..i]) + unit == "\"" + Escape(value[..i + 1])
  {
    hide Escape, EscapeChar;
    EscapeAppend(value[..i], value[i]);
    assert value[..i + 1] == value[..i] + [value[i]];
    assert "\"" + (Escape(value[..i]) + unit) == ("\"" + Escape(value[..i])) + unit;
  }

  /** The switch over one character. */
  method QuotedUnit(c: char) returns (unit: string)
    ensures unit == EscapeChar(c)
  {
    hide Hex4;
    if c == '"' {
      unit := "\\\"";
    } else if c == '\\' {
      unit := "\\\\";
    } else if c == BACKSPACE {
      unit := "\\b";
    } else if c == FORM_FEED {
      unit := "\\f";
    } else if c == '\n' {
      unit := "\\n";
    } else if c == '\r' {
      unit := "\\r";
    } else if c == '\t' {
      unit := "\\t";
    } else if IsControlCharacter(c) {
      unit := "\\u" + Hex4(c as int);
    } else {
      unit := [c];
    }
  }

  /** valueToQuotedString: a fast path without escapes, and the escaping loop. */
  method ValueToQuotedString(value: string) returns (result: string)
    ensures result == Quote(value)
  {
    var special := exists k :: 0 <= k < |value| && IsSpecial(value[k]);
    var control := ContainsControlCharacter(value);
    if !special && !control {
      EscapePlain(value);
      return "\"" + value + "\"";
    }
    result := "\"";
    for i := 0 to |value|
      invariant result == "\"" + Escape(value[..i])
    {
      hide Escape, EscapeChar, IsSpecial, IsControlCharacter;
      var unit := QuotedUnit(value[i]);
      QuoteOneMore(value, i, unit);
      result := result + unit;
    }
    result := result + "\"";
    assert value[..|value|] == value;
  }

  // ---- UTF-8 ----

  predicate ScalarValue(cp: int) {
    0 <= cp <= 0x10FFFF && !(0xD800 <= cp <= 0xDFFF)
  }

  /** codePointToUTF8. The masks and ORs of the source act on disjoint bits. */
  function CodePointToUTF8(cp: nat): string {
    if cp <= 0x7f then
      [cp as char]
    else if cp <= 0x7FF then
      [(0xC0 + cp / 0x40) as char, (0x80 + cp % 0x40) as char]
    else if cp <= 0xFFFF then
      [(0xE0 + cp / 0x1000) as char, (0x80 + cp / 0x40 % 0x40) as char, (0x80 + cp % 0x40) as char]
    else if cp <= 0x10FFFF then
      [(0xF0 + cp / 0x4_0000) as char, (0x80 + cp / 0x1000 % 0x40) as char,
       (0x80 + cp / 0x40 % 0x40) as char, (0x80 + cp % 0x40) as char]
    else ""
  }

  /** A UTF8-tail byte of section 4 of RFC 3629. */
  predicate Tail(c: char) { 0x80 <= c as int <= 0xBF }

  /**
   * The decoder of section 3 of RFC 3629 with the byte ranges of its section
   * 4: the code point and the number of bytes, if s starts with a
   * well-formed sequence.
   */
  function DecodeUTF8(s: string): (r: Option<(nat, nat)>)
    ensures r.Some? ==> ScalarValue(r.value.0) && 1 <= r.value.1 <= |s|
  {
    if s == "" then None else
    var b0 := s[0] as int;
    if b0 <= 0x7F then Some((b0, 1))
    else if 0xC2 <= b0 <= 0xDF && |s| >= 2 && Tail(s[1]) then
      Some(((b0 - 0xC0) * 0x40 + (s[1] as int - 0x80), 2))
    else if 0xE0 <= b0 <= 0xEF && |s| >= 3 && Tail(s[1]) && Tail(s[2])
            && (b0 == 0xE0 ==> s[1] as int >= 0xA0) && (b0 == 0xED ==> s[1] as int <= 0x9F) then
      Some(((b0 - 0xE0) * 0x1000 + (s[1] as int - 0x80) * 0x40 + (s[2] as int - 0x80), 3))
    else if 0xF0 <= b0 <= 0xF4 && |s| >= 4 && Tail(s[1]) && Tail(s[2]) && Tail(s[3])
            && (b0 == 0xF0 ==> s[1] as int >= 0x90) && (b0 == 0xF4 ==> s[1] as int <= 0x8F) then
      Some(((b0 - 0xF0) * 0x4_0000 + (s[1] as int - 0x80) * 0x1000 + (s[2] as int - 0x80) * 0x40 + (s[3] as int - 0x80), 4))
    else None
  }

  /** Every scalar value is written as its RFC 3629 encoding. */
  lemma UTF8RoundTrip(cp: nat, rest: string)
    requires ScalarValue(cp)
    ensures DecodeUTF8(CodePointToUTF8(cp) + rest) == Some((cp, |CodePointToUTF8(cp)|))
  {
    if cp <= 0x7FF {
      UTF8RoundTripShort(cp, rest);
    } else if cp <= 0xFFFF {
      UTF8RoundTrip3(cp, cp / 0x1000, cp / 0x40 % 0x40, cp % 0x40, rest);
    } else {
      UTF8RoundTrip4(cp, cp / 0x4_0000, cp / 0x1000 % 0x40, cp / 0x40 % 0x40, cp % 0x40, rest);
    }
  }

  lemma UTF8RoundTripShort(cp: nat, rest: string)
    requires cp <= 0x7FF
    ensures DecodeUTF8(CodePointToUTF8(cp) + rest) == Some((cp, |CodePointToUTF8(cp)|))
  {
    var u := CodePointToUTF8(cp);
    assert forall k :: 0 <= k < |u| ==> (u + rest)[k] == u[k];
  }

  lemma UTF8RoundTrip3(cp: nat, a: nat, b: nat, c: nat, rest: string)
    requires 0x800 <= cp <= 0xFFFF && ScalarValue(cp)
    requires a == cp / 0x1000 && b == cp / 0x40 % 0x40 && c == cp % 0x40
    ensures DecodeUTF8(CodePointToUTF8(cp) + rest) == Some((cp, 3))
  {
    assert cp == a * 0x1000 + b * 0x40 + c;
    var s := CodePointToUTF8(cp) + rest;
    assert s[0] as int == 0xE0 + a && s[1] as int == 0x80 + b && s[2] as int == 0x80 + c;
  }

  lemma UTF8RoundTrip4(cp: nat, a: nat, b: nat, c: nat, d: nat, rest: string)
    requires 0x1_0000 <= cp <= 0x10FFFF
    requires a == cp / 0x4_0000 && b == cp / 0x1000 % 0x40 && c == cp / 0x40 % 0x40 && d == cp % 0x40
    ensures DecodeUTF8(CodePointToUTF8(cp) + rest) == Some((cp, 4))
  {
    hide DecodeUTF8;
    Sextets(cp, cp / 0x40, cp / 0x1000, a);
    DecodeFour(a, b, c, d, rest);
  }

  /** The 6-bit groups of cp, from its quotients. */
  lemma Sextets(cp: nat, p: nat, q: nat, a: nat)
    requires p == cp / 0x40 && q == cp / 0x1000 && a == cp / 0x4_0000
    ensures cp == a * 0x4_0000 + q % 0x40 * 0x1000 + p % 0x40 * 0x40 + cp % 0x40
  {
    assert p == q * 0x40 + p % 0x40;
    assert q == a * 0x40 + q % 0x40;
  }

  lemma DecodeFour(a: nat, b: nat, c: nat, d: nat, rest: string)
    requires a <= 4 && b < 0x40 && c < 0x40 && d < 0x40
    requires (a == 0 ==> b >= 0x10) && (a == 4 ==> b < 0x10)
    ensures DecodeUTF8([(0xF0 + a) as char, (0x80 + b) as char, (0x80 + c) as char, (0x80 + d) as char] + rest)
         == Some((a * 0x4_0000 + b * 0x1000 + c * 0x40 + d, 4))
  {
    var s := [(0xF0 + a) as char, (0x80 + b) as char, (0x80 + c) as char, (0x80 + d) as char] + rest;
    assert s[0] as int == 0xF0 + a && s[1] as int == 0x80 + b && s[2] as int == 0x80 + c && s[3] as int == 0x80 + d;
  }

  /** The bytes codePointToUTF8 gives for a surrogate are not well-formed UTF-8. */
  lemma UTF8OfSurrogate(cp: nat, rest: string)
    requires 0xD800 <= cp <= 0xDFFF
    ensures DecodeUTF8(CodePointToUTF8(cp) + rest) == None
  {
    assert CodePointToUTF8(cp)[0] as int == 0xED;
  }

  // ---- reading ----

  datatype Message =
    | ValueExpected
    | RootMustBeArrayOrObject
    | MissingColon
    | MissingCommaOrBrace
    | MissingBraceOrName
    | MissingCommaOrBracket
    | NotANumber
    | EmptyEscape
    | BadEscape
    | SixCharactersExpected
    | SecondSurrogateExpected
    | FourDigitsExpected
    | HexDigitExpected

  /** Failures carry the number of characters of the literal not yet read. */
  datatype CodePoint = CodePoint(code: nat, rest: string) | BadCodePoint(message: Message, unread: nat)
  datatype StringResult = Text(text: string) | BadText(message: Message, unread: nat)

  predicate IsHexDigit(c: char) { '0' <= c <= '9' || 'a' <= c <= 'f' || 'A' <= c <= 'F' }

  function HexValue(c: char): nat
    requires IsHexDigit(c)
  {
    if '0' <= c <= '9' then (c - '0') as nat
    else if 'a' <= c <= 'f' then (c - 'a') as nat + 10
    else (c - 'A') as nat + 10
  }

  /** The value of the first i hexadecimal digits. */
  function HexPrefix(s: string, i: nat): (r: nat)
    requires i <= |s| && forall k :: 0 <= k < i ==> IsHexDigit(s[k])
    ensures i <= 4 ==> r < [1, 0x10, 0x100, 0x1000, 0x1_0000][i]
  {
    if i == 0 then 0 else HexPrefix(s, i - 1) * 16 + HexValue(s[i - 1])
  }

  /** decodeUnicodeEscapeSequence, from the character after the 'u'. */
  function HexQuad(s: string): (r: CodePoint)
    ensures r.CodePoint? ==> |s| >= 4 && r.rest == s[4..] && r.code < 0x1_0000
  {
    if |s| < 4 then BadCodePoint(FourDigitsExpected, |s|)
    else if !IsHexDigit(s[0]) then BadCodePoint(HexDigitExpected, |s| - 1)
    else if !IsHexDigit(s[1]) then BadCodePoint(HexDigitExpected, |s| - 2)
    else if !IsHexDigit(s[2]) then BadCodePoint(HexDigitExpected, |s| - 3)
    else if !IsHexDigit(s[3]) then BadCodePoint(HexDigitExpected, |s| - 4)
    else CodePoint(HexPrefix(s, 4), s[4..])
  }

  /** decodeUnicodeCodePoint, from the character after the 'u'. */
  function UnicodeEscape(s: string): (r: CodePoint)
    ensures r.CodePoint? ==> |r.rest| < |s| && r.code <= 0x10FFFF
    ensures r.CodePoint? ==> r.rest == s[|s| - |r.rest|..]
  {
    var first := HexQuad(s);
    if first.BadCodePoint? || !(0xD800 <= first.code <= 0xDBFF) then first
    else if |first.rest| < 6 then BadCodePoint(SixCharactersExpected, |first.rest|)
    else if first.rest[0] != '\\' then BadCodePoint(SecondSurrogateExpected, |first.rest| - 1)
    else if first.rest[1] != 'u' then BadCodePoint(SecondSurrogateExpected, |first.rest| - 2)
    else
      var second := HexQuad(first.rest[2..]);
      if second.BadCodePoint? then second
      else CodePoint(0x1_0000 + first.code % 0x400 * 0x400 + second.code % 0x400, second.rest)
  }

  /** The single-character escapes. */
  function SimpleEscape(c: char): (r: string)
    ensures |r| <= 1
  {
    if c == '"' || c == '/' || c == '\\' then [c]
    else if c == 'b' then [BACKSPACE]
    else if c == 'f' then [FORM_FEED]
    else if c == 'n' then "\n"
    else if c == 'r' then "\r"
    else if c == 't' then "\t"
    else ""
  }

  function Prepend(prefix: string, r: StringResult): StringResult {
    if r.Text? then Text(prefix + r.text) else r
  }

  lemma PrependAppend(a: string, b: string, r: StringResult)
    ensures Prepend(a, Prepend(b, r)) == Prepend(a + b, r)
  {
    if r.Text? {
      assert a + (b + r.text) == (a + b) + r.text;
    }
  }

  /** decodeString, from the unread characters between the quotes. */
  function DecodeBody(body: string): StringResult {
    if body == "" || body[0] == '"' then Text("")
    else if body[0] != '\\' then Prepend([body[0]], DecodeBody(body[1..]))
    else if |body| == 1 then BadText(EmptyEscape, 0)
    else if body[1] == 'u' then
      var u := UnicodeEscape(body[2..]);
      if u.BadCodePoint? then BadText(u.message, u.unread)
      else Prepend(CodePointToUTF8(u.code), DecodeBody(u.rest))
    else if SimpleEscape(body[1]) != "" then Prepend(SimpleEscape(body[1]), DecodeBody(body[2..]))
    else BadText(BadEscape, |body| - 2)
  }

  /** decodeString undoes the escaping of valueToQuotedString. */
  lemma {:induction false} EscapeRoundTrip(s: string)
    ensures DecodeBody(Escape(s)) == Text(s)
  {
    if s != "" {
      EscapeRoundTrip(s[1..]);
      EscapeCharRoundTrip(s[0], Escape(s[1..]));
      assert s == [s[0]] + s[1..];
    }
  }

  lemma EscapeCharRoundTrip(c: char, tail: string)
    ensures DecodeBody(EscapeChar(c) + tail) == Prepend([c], DecodeBody(tail))
  {
    if |EscapeChar(c)| == 1 {
      assert ([c] + tail)[1..] == tail;
    } else if |EscapeChar(c)| == 2 {
      SimpleEscapeRoundTrip(c, EscapeChar(c)[1], tail);
      assert EscapeChar(c) == ['\\', EscapeChar(c)[1]];
    } else {
      ControlRoundTrip(c, tail);
    }
  }

  lemma SimpleEscapeRoundTrip(c: char, letter: char, tail: string)
    requires SimpleEscape(letter) == [c]
    ensures DecodeBody(['\\', letter] + tail) == Prepend([c], DecodeBody(tail))
  {
    var body := ['\\', letter] + tail;
    assert body[0] == '\\' && body[1] == letter && body[2..] == tail;
  }

  lemma ControlRoundTrip(c: char, tail: string)
    requires IsControlCharacter(c)
    ensures DecodeBody("\\u" + Hex4(c as int) + tail) == Prepend([c], DecodeBody(tail))
  {
    var body := "\\u" + Hex4(c as int) + tail;
    assert body[0] == '\\' && body[1] == 'u' && body[2..] == Hex4(c as int) + tail;
    Hex4RoundTrip(c as int, tail);
    assert CodePointToUTF8(c as int) == [c];
  }

  lemma HexDigitValue(d: nat)
    requires d < 16
    ensures IsHexDigit(HexDigit(d)) && HexValue(HexDigit(d)) == d
  {
  }

  lemma Hex4RoundTrip(n: nat, tail: string)
    requires n < 0x1_0000
    ensures HexQuad(Hex4(n) + tail) == CodePoint(n, tail)
  {
    hide HexQuad, HexDigit;
    Digits(n, n / 16, n / 0x100, n / 0x1000);
    HexQuadOf(n / 0x1000, n / 0x100 % 16, n / 16 % 16, n % 16, tail);
  }

  /** The four digits of n, from its quotients by 16, 256 and 4096. */
  lemma Digits(n: nat, a: nat, b: nat, c: nat)
    requires n < 0x1_0000 && a == n / 16 && b == n / 0x100 && c == n / 0x1000
    ensures c < 16 && n == ((c * 16 + b % 16) * 16 + a % 16) * 16 + n % 16
  {
    assert a == b * 16 + a % 16;
    assert b == c * 16 + b % 16;
  }

  lemma HexQuadOf(d0: nat, d1: nat, d2: nat, d3: nat, tail: string)
    requires d0 < 16 && d1 < 16 && d2 < 16 && d3 < 16
    ensures HexQuad([HexDigit(d0), HexDigit(d1), HexDigit(d2), HexDigit(d3)] + tail) ==
            CodePoint(((d0 * 16 + d1) * 16 + d2) * 16 + d3, tail)
  {
    var quad := [HexDigit(d0), HexDigit(d1), HexDigit(d2), HexDigit(d3)];
    var s := quad + tail;
    HexDigitValue(d0);
    HexDigitValue(d1);
    HexDigitValue(d2);
    HexDigitValue(d3);
    assert s[0] == quad[0] && s[1] == quad[1] && s[2] == quad[2] && s[3] == quad[3] && s[4..] == tail;
    assert HexPrefix(s, 1) == d0;
    assert HexPrefix(s, 2) == d0 * 16 + d1;
    assert HexPrefix(s, 3) == (d0 * 16 + d1) * 16 + d2;
  }

  /** What follows the first backslash-u when cp is escaped as in section 7 of RFC 8259. */
  function UnicodeEscapeOf(cp: nat): string
    requires ScalarValue(cp)
  {
    if cp < 0x1_0000 then Hex4(cp)
    else Hex4(0xD800 + (cp - 0x1_0000) / 0x400) + ("\\u" + Hex4(0xDC00 + (cp - 0x1_0000) % 0x400))
  }

  lemma UnicodeEscapeReads(cp: nat, tail: string)
    requires ScalarValue(cp)
    ensures UnicodeEscape(UnicodeEscapeOf(cp) + tail) == CodePoint(cp, tail)
  {
    hide Hex4, HexQuad;
    if cp < 0x1_0000 {
      Hex4RoundTrip(cp, tail);
    } else {
      hide UnicodeEscape;
      var high, low := (cp - 0x1_0000) / 0x400, (cp - 0x1_0000) % 0x400;
      SurrogatePair(high, low, tail);
      assert UnicodeEscapeOf(cp) + tail == Hex4(0xD800 + high) + ("\\u" + (Hex4(0xDC00 + low) + tail));
    }
  }

  lemma DecodesEscape(rest: string)
    ensures var u := UnicodeEscape(rest);
            DecodeBody("\\u" + rest)
            == if u.BadCodePoint? then BadText(u.message, u.unread) else Prepend(CodePointToUTF8(u.code), DecodeBody(u.rest))
  {
    hide UnicodeEscape, CodePointToUTF8;
    assert ("\\u" + rest)[2..] == rest;
  }

  /** The \u escapes and surrogate pairs of RFC 8259 decode to their scalar value. */
  lemma UnicodeEscapeRoundTrip(cp: nat, tail: string)
    requires ScalarValue(cp)
    ensures UnicodeEscape(UnicodeEscapeOf(cp) + tail) == CodePoint(cp, tail)
    ensures DecodeBody("\\u" + (UnicodeEscapeOf(cp) + tail)) == Prepend(CodePointToUTF8(cp), DecodeBody(tail))
  {
    hide UnicodeEscape, UnicodeEscapeOf, CodePointToUTF8, DecodeBody;
    UnicodeEscapeReads(cp, tail);
    DecodesEscape(UnicodeEscapeOf(cp) + tail);
  }

  lemma SurrogatePair(high: nat, low: nat, tail: string)
    requires high < 0x400 && low < 0x400
    ensures UnicodeEscape(Hex4(0xD800 + high) + ("\\u" + (Hex4(0xDC00 + low) + tail))) ==
            CodePoint(0x1_0000 + high * 0x400 + low, tail)
  {
    var second := "\\u" + (Hex4(0xDC00 + low) + tail);
    Hex4RoundTrip(0xD800 + high, second);
    assert second[2..] == Hex4(0xDC00 + low) + tail;
    Hex4RoundTrip(0xDC00 + low, tail);
    JoinSurrogates(Hex4(0xD800 + high) + second, second, high, low, tail);
  }

  lemma JoinSurrogates(s: string, second: string, high: nat, low: nat, tail: string)
    requires high < 0x400 && low < 0x400
    requires HexQuad(s) == CodePoint(0xD800 + high, second)
    requires |second| >= 6 && second[0] == '\\' && second[1] == 'u'
    requires HexQuad(second[2..]) == CodePoint(0xDC00 + low, tail)
    ensures UnicodeEscape(s) == CodePoint(0x1_0000 + high * 0x400 + low, tail)
  {
    hide HexQuad;
    assert (0xD800 + high) % 0x400 == high && (0xDC00 + low) % 0x400 == low;
  }
}
