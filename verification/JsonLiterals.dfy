// What decodeString makes of every string literal, told piece by piece: the
// characters and escapes of section 7 of RFC 8259 with any spelling of their
// digits, and the first fault of a literal that has one.

module JsonLiterals {
  import opened CStrings
  import opened Numerals
  import opened JsonStrings

  /** The characters that may follow a backslash, and what they stand for. */
  const LETTERS: string := ['"', '\\', '/', 'b', 'f', 'n', 'r', 't']
  const MEANINGS: seq<int> := [0x22, 0x5C, 0x2F, 0x08, 0x0C, 0x0A, 0x0D, 0x09]

  predicate Quad(ds: seq<Digit>) {
    |ds| == 4 && Numeral(ds, 16)
  }

  predicate HighSurrogate(ds: seq<Digit>) {
    Quad(ds) && 0xD800 <= Value(ds, 16) <= 0xDBFF
  }

  datatype Piece =
    | Raw(c: char)
    | Short(k: nat)
    | Escaped(digits: seq<Digit>)
    | Surrogates(high: seq<Digit>, low: seq<Digit>)
  {
    predicate Valid() {
      match this
      case Raw(c) => c != '"' && c != '\\'
      case Short(k) => k < 8
      case Escaped(digits) => Quad(digits) && !HighSurrogate(digits)
      case Surrogates(high, low) => HighSurrogate(high) && Quad(low)
    }

    function Text(): string
      requires Valid()
    {
      match this
      case Raw(c) => [c]
      case Short(k) => ['\\', LETTERS[k]]
      case Escaped(digits) => "\\u" + Numerals.Text(digits)
      case Surrogates(high, low) => "\\u" + (Numerals.Text(high) + ("\\u" + Numerals.Text(low)))
    }

    function Meaning(): string
      requires Valid()
    {
      match this
      case Raw(c) => [c]
      case Short(k) => [MEANINGS[k] as char]
      case Escaped(digits) => CodePointToUTF8(Value(digits, 16))
      case Surrogates(high, low) =>
        CodePointToUTF8(0x1_0000 + (Value(high, 16) - 0xD800) * 0x400 + Value(low, 16) % 0x400)
    }
  }

  predicate Literal(ps: seq<Piece>) {
    forall k :: 0 <= k < |ps| ==> ps[k].Valid()
  }

  /** The pieces written in front of rest. */
  function TextThen(ps: seq<Piece>, rest: string): string
    requires Literal(ps)
  {
    if ps == [] then rest else ps[0].Text() + TextThen(ps[1..], rest)
  }

  function Meaning(ps: seq<Piece>): string
    requires Literal(ps)
  {
    if ps == [] then "" else ps[0].Meaning() + Meaning(ps[1..])
  }

  // ---- faults ----

  /** s does not start with four digits. */
  predicate BadQuad(s: string, message: Message, unread: nat) {
    || (|s| < 4 && message == FourDigitsExpected && unread == |s|)
    || (|s| >= 4 && message == HexDigitExpected && |s| - 4 <= unread < |s|
        && !IsDigit(s[|s| - 1 - unread]) && forall k :: 0 <= k < |s| - 1 - unread ==> IsDigit(s[k]))
  }

  /** s does not start with the second half of a surrogate pair. */
  predicate BadSecondHalf(s: string, message: Message, unread: nat) {
    if |s| < 6 then message == SixCharactersExpected && unread == |s|
    else if s[0] != '\\' then message == SecondSurrogateExpected && unread == |s| - 1
    else if s[1] != 'u' then message == SecondSurrogateExpected && unread == |s| - 2
    else BadQuad(s[2..], message, unread)
  }

  /** s starts with an escape that is none, and the error names so many unread characters. */
  ghost predicate Fault(s: string, message: Message, unread: nat) {
    && s != "" && s[0] == '\\'
    && if |s| == 1 then message == EmptyEscape && unread == 0
       else if s[1] != 'u' then s[1] !in LETTERS && message == BadEscape && unread == |s| - 2
       else
         || BadQuad(s[2..], message, unread)
         || exists high, rest :: HighSurrogate(high) && s[2..] == Numerals.Text(high) + rest
                                 && BadSecondHalf(rest, message, unread)
  }

  // ---- escapes ----

  lemma DigitDecodes(d: Digit)
    requires d.value < 16
    ensures IsHexDigit(DigitText(d)) && HexValue(DigitText(d)) == d.value
  {
    DigitRanges(d);
  }

  lemma QuadValue(ds: seq<Digit>)
    requires Quad(ds)
    ensures Value(ds, 16) == ((ds[0].value * 16 + ds[1].value) * 16 + ds[2].value) * 16 + ds[3].value
  {
    var t1, t2, t3 := ds[1..], ds[1..][1..], ds[1..][1..][1..];
    assert Value(t3, 16) == ds[3].value * Power(16, 0);
    assert Value(t2, 16) == ds[2].value * Power(16, 1) + Value(t3, 16);
    assert Value(t1, 16) == ds[1].value * Power(16, 2) + Value(t2, 16);
    assert Power(16, 1) == 16 && Power(16, 2) == 256 && Power(16, 3) == 4096;
  }

  lemma QuadDecodes(ds: seq<Digit>, rest: string)
    requires Quad(ds)
    ensures HexQuad(Numerals.Text(ds) + rest) == CodePoint(Value(ds, 16), rest)
  {
    var s := Numerals.Text(ds) + rest;
    QuadValue(ds);
    forall k | 0 <= k < 4 ensures s[k] == DigitText(ds[k]) && IsHexDigit(s[k]) && HexValue(s[k]) == ds[k].value {
      DigitDecodes(ds[k]);
    }
    hide IsHexDigit, HexValue, DigitText, Value;
    assert s[4..] == rest;
    assert HexPrefix(s, 1) == ds[0].value;
    assert HexPrefix(s, 2) == ds[0].value * 16 + ds[1].value;
    assert HexPrefix(s, 3) == (ds[0].value * 16 + ds[1].value) * 16 + ds[2].value;
  }

  lemma BadQuadRefused(s: string, message: Message, unread: nat)
    requires BadQuad(s, message, unread)
    ensures HexQuad(s) == BadCodePoint(message, unread)
  {
    if |s| >= 4 {
      SameDigit(s[0]);
      SameDigit(s[1]);
      SameDigit(s[2]);
      SameDigit(s[3]);
    }
    hide IsDigit, IsHexDigit, HexPrefix;
  }

  lemma SameDigit(c: char)
    ensures IsDigit(c) <==> IsHexDigit(c)
  {
    DigitCharacters(c);
  }

  lemma SecondHalfRefused(high: seq<Digit>, rest: string, message: Message, unread: nat)
    requires HighSurrogate(high) && BadSecondHalf(rest, message, unread)
    ensures UnicodeEscape(Numerals.Text(high) + rest) == BadCodePoint(message, unread)
  {
    hide HexQuad, BadQuad;
    QuadDecodes(high, rest);
    if |rest| >= 6 && rest[0] == '\\' && rest[1] == 'u' {
      BadQuadRefused(rest[2..], message, unread);
    }
  }

  lemma EscapedDecodes(ds: seq<Digit>, rest: string)
    requires Quad(ds) && !HighSurrogate(ds)
    ensures UnicodeEscape(Numerals.Text(ds) + rest) == CodePoint(Value(ds, 16), rest)
  {
    hide HexQuad;
    QuadDecodes(ds, rest);
  }

  lemma SurrogatesDecode(high: seq<Digit>, low: seq<Digit>, rest: string)
    requires HighSurrogate(high) && Quad(low)
    ensures UnicodeEscape(Numerals.Text(high) + ("\\u" + (Numerals.Text(low) + rest)))
            == CodePoint(0x1_0000 + (Value(high, 16) - 0xD800) * 0x400 + Value(low, 16) % 0x400, rest)
  {
    hide HexQuad;
    var second := "\\u" + (Numerals.Text(low) + rest);
    QuadDecodes(high, second);
    assert second[2..] == Numerals.Text(low) + rest;
    QuadDecodes(low, rest);
    assert Value(high, 16) % 0x400 == Value(high, 16) - 0xD800;
  }

  // ---- literals ----

  lemma ShortDecodes(k: nat, rest: string)
    requires k < 8
    ensures DecodeBody(['\\', LETTERS[k]] + rest) == Prepend([MEANINGS[k] as char], DecodeBody(rest))
  {
    var body := ['\\', LETTERS[k]] + rest;
    assert body[0] == '\\' && body[1] == LETTERS[k] && body[2..] == rest;
    assert SimpleEscape(LETTERS[k]) == [MEANINGS[k] as char];
  }

  lemma RawDecodes(c: char, rest: string)
    requires c != '"' && c != '\\'
    ensures DecodeBody([c] + rest) == Prepend([c], DecodeBody(rest))
  {
    assert ([c] + rest)[1..] == rest;
  }

  lemma EscapedPiece(digits: seq<Digit>, rest: string)
    requires Quad(digits) && !HighSurrogate(digits)
    ensures DecodeBody(Escaped(digits).Text() + rest) == Prepend(Escaped(digits).Meaning(), DecodeBody(rest))
  {
    hide HexQuad, UnicodeEscape, CodePointToUTF8, DecodeBody;
    EscapedDecodes(digits, rest);
    DecodesEscape(Numerals.Text(digits) + rest);
    assert Escaped(digits).Text() + rest == "\\u" + (Numerals.Text(digits) + rest);
  }

  lemma PairRegrouped(high: string, low: string, rest: string)
    ensures ("\\u" + (high + ("\\u" + low))) + rest == "\\u" + (high + ("\\u" + (low + rest)))
  {
  }

  lemma SurrogatesPiece(high: seq<Digit>, low: seq<Digit>, rest: string)
    requires HighSurrogate(high) && Quad(low)
    ensures DecodeBody(Surrogates(high, low).Text() + rest) == Prepend(Surrogates(high, low).Meaning(), DecodeBody(rest))
  {
    hide HexQuad, UnicodeEscape, CodePointToUTF8, DecodeBody, Value, Numerals.Text;
    var tail := Numerals.Text(high) + ("\\u" + (Numerals.Text(low) + rest));
    SurrogatesDecode(high, low, rest);
    DecodesEscape(tail);
    PairRegrouped(Numerals.Text(high), Numerals.Text(low), rest);
  }

  lemma PieceDecodes(p: Piece, rest: string)
    requires p.Valid()
    ensures DecodeBody(p.Text() + rest) == Prepend(p.Meaning(), DecodeBody(rest))
  {
    hide DecodeBody, CodePointToUTF8;
    match p
    case Raw(c) => RawDecodes(c, rest);
    case Short(k) => ShortDecodes(k, rest);
    case Escaped(digits) => EscapedPiece(digits, rest);
    case Surrogates(high, low) => SurrogatesPiece(high, low, rest);
  }

  /** A literal is decoded to the meanings of its pieces, in order. */
  lemma {:induction false} LiteralDecodes(ps: seq<Piece>, rest: string)
    requires Literal(ps)
    ensures DecodeBody(TextThen(ps, rest)) == Prepend(Meaning(ps), DecodeBody(rest))
    ensures rest == "" || rest[0] == '"' ==> DecodeBody(TextThen(ps, rest)) == StringResult.Text(Meaning(ps))
  {
    hide Piece.Valid, Piece.Text, Piece.Meaning;
    if ps == [] {
      assert DecodeBody(rest).Text? ==> "" + DecodeBody(rest).text == DecodeBody(rest).text;
    } else {
      hide DecodeBody;
      LiteralDecodes(ps[1..], rest);
      PieceDecodes(ps[0], TextThen(ps[1..], rest));
      PrependAppend(ps[0].Meaning(), Meaning(ps[1..]), DecodeBody(rest));
      NothingDecodes(rest, Meaning(ps));
    }
  }

  lemma NothingDecodes(rest: string, text: string)
    ensures rest == "" || rest[0] == '"' ==> Prepend(text, DecodeBody(rest)) == StringResult.Text(text)
  {
    assert text + "" == text;
  }

  /** The first fault is reported, whatever stands before and behind it. */
  lemma FaultRefused(ps: seq<Piece>, rest: string, message: Message, unread: nat)
    requires Literal(ps) && Fault(rest, message, unread)
    ensures DecodeBody(TextThen(ps, rest)) == BadText(message, unread)
  {
    hide DecodeBody, TextThen, Meaning, Literal;
    LiteralDecodes(ps, rest);
    FaultAtStart(rest, message, unread);
  }

  lemma FaultAtStart(s: string, message: Message, unread: nat)
    requires Fault(s, message, unread)
    ensures DecodeBody(s) == BadText(message, unread)
  {
    hide HexQuad, BadQuad, BadSecondHalf, CodePointToUTF8, UnicodeEscape, Value;
    if |s| > 1 && s[1] == 'u' {
      if BadQuad(s[2..], message, unread) {
        FirstHalfRefused(s[2..], message, unread);
      } else {
        var high, rest :| HighSurrogate(high) && s[2..] == Numerals.Text(high) + rest && BadSecondHalf(rest, message, unread);
        SecondHalfRefused(high, rest, message, unread);
      }
    } else if |s| > 1 {
      NoSuchEscape(s[1]);
    }
  }

  lemma FirstHalfRefused(s: string, message: Message, unread: nat)
    requires BadQuad(s, message, unread)
    ensures UnicodeEscape(s) == BadCodePoint(message, unread)
  {
    BadQuadRefused(s, message, unread);
  }

  lemma NoSuchEscape(c: char)
    requires c !in LETTERS
    ensures SimpleEscape(c) == ""
  {
    assert forall k :: 0 <= k < 8 ==> LETTERS[k] != c;
  }

  // ---- every text ----

  lemma QuadAt(s: string) returns (ds: seq<Digit>)
    requires |s| >= 4 && forall k :: 0 <= k < 4 ==> IsDigit(s[k])
    ensures Quad(ds) && s == Numerals.Text(ds) + s[4..]
  {
    hide IsDigit, DigitText;
    var d0 := DigitOf(s[0]);
    var d1 := DigitOf(s[1]);
    var d2 := DigitOf(s[2]);
    var d3 := DigitOf(s[3]);
    ds := [d0, d1, d2, d3];
    var t := Numerals.Text(ds);
    assert t == s[..4];
  }

  /** Every text starts with four digits or does not. */
  lemma QuadOrNot(s: string) returns (quad: bool, ds: seq<Digit>, message: Message, unread: nat)
    ensures quad ==> Quad(ds) && |s| >= 4 && s == Numerals.Text(ds) + s[4..]
    ensures !quad ==> BadQuad(s, message, unread)
  {
    hide IsDigit, Numerals.Text;
    quad, ds, message, unread := false, [], FourDigitsExpected, |s|;
    if |s| >= 4 {
      message := HexDigitExpected;
      if !IsDigit(s[0]) {
        unread := |s| - 1;
      } else if !IsDigit(s[1]) {
        unread := |s| - 2;
      } else if !IsDigit(s[2]) {
        unread := |s| - 3;
      } else if !IsDigit(s[3]) {
        unread := |s| - 4;
      } else {
        quad := true;
        ds := QuadAt(s);
      }
    }
  }

  /** The second half of a surrogate pair or the fault in it. */
  lemma SecondHalfOrNot(s: string) returns (pair: bool, low: seq<Digit>, message: Message, unread: nat)
    ensures pair ==> Quad(low) && |s| >= 6 && s == "\\u" + (Numerals.Text(low) + s[6..])
    ensures !pair ==> BadSecondHalf(s, message, unread)
  {
    hide IsDigit, Numerals.Text, BadQuad;
    pair, low, message, unread := false, [], SecondSurrogateExpected, 0;
    if |s| < 6 {
      message, unread := SixCharactersExpected, |s|;
    } else if s[0] != '\\' {
      unread := |s| - 1;
    } else if s[1] != 'u' {
      unread := |s| - 2;
    } else {
      pair, low, message, unread := QuadOrNot(s[2..]);
      assert s == "\\u" + s[2..] && s[2..][4..] == s[6..];
    }
  }

  /** The first piece of a text, or the fault at its start. */
  lemma FirstPiece(s: string) returns (fault: bool, p: Piece, message: Message, unread: nat)
    requires s != "" && s[0] != '"'
    ensures !fault ==> p.Valid() && 0 < |p.Text()| <= |s| && s == p.Text() + s[|p.Text()|..]
    ensures fault ==> Fault(s, message, unread)
  {
    hide IsDigit, Numerals.Text, BadQuad, BadSecondHalf, Value;
    fault, p, message, unread := false, Raw(s[0]), BadEscape, 0;
    if s[0] == '\\' {
      if |s| == 1 {
        fault, message := true, EmptyEscape;
      } else if s[1] == 'u' {
        var quad, ds;
        assert s == "\\u" + s[2..];
        quad, ds, message, unread := QuadOrNot(s[2..]);
        fault := !quad;
        if quad && HighSurrogate(ds) {
          var pair, low;
          pair, low, message, unread := SecondHalfOrNot(s[6..]);
          assert s[2..] == Numerals.Text(ds) + s[6..];
          fault := !pair;
          if pair {
            p := Surrogates(ds, low);
            assert s == p.Text() + s[12..];
          }
        } else if quad {
          p := Escaped(ds);
          assert s == p.Text() + s[6..];
        }
      } else if s[1] in LETTERS {
        var k :| 0 <= k < 8 && LETTERS[k] == s[1];
        p := Short(k);
      } else {
        fault, unread := true, |s| - 2;
      }
    }
  }

  /** Every text between the quotes is a literal, or starts with one that a fault follows. */
  lemma {:induction false} EveryText(body: string) returns (ps: seq<Piece>, rest: string, message: Message, unread: nat)
    ensures Literal(ps) && body == TextThen(ps, rest)
    ensures rest == "" || rest[0] == '"' || Fault(rest, message, unread)
    decreases |body|
  {
    hide Fault, Piece.Valid, Piece.Text;
    ps, rest, message, unread := [], body, EmptyEscape, 0;
    if body != "" && body[0] != '"' {
      var fault, p, m, u := FirstPiece(body);
      message, unread := m, u;
      if !fault {
        var tail;
        tail, rest, message, unread := EveryText(body[|p.Text()|..]);
        ps := [p] + tail;
        assert ps[1..] == tail;
      }
    }
  }

  // ---- what valueToQuotedString makes of a character ----

  const SPECIAL: seq<int> := [0x22, 0x5C, 0x08, 0x0C, 0x0A, 0x0D, 0x09]
  const ESCAPES := ["\\\"", "\\\\", "\\b", "\\f", "\\n", "\\r", "\\t"]

  /** Seven characters have a short escape, the other control characters one of four digits, and the rest stays. */
  lemma EscapedCharacter(c: char, k: nat)
    requires k < 7
    ensures EscapeChar(SPECIAL[k] as char) == ESCAPES[k]
    ensures (forall j :: 0 <= j < 7 ==> c as int != SPECIAL[j]) && (c as int >= 0x20 || c == NUL) ==> EscapeChar(c) == [c]
  {
    assert SPECIAL[0] == 0x22 && SPECIAL[1] == 0x5C && SPECIAL[2] == 8 && SPECIAL[3] == 12 && SPECIAL[4] == 10
        && SPECIAL[5] == 13 && SPECIAL[6] == 9;
  }

  lemma UpperDigit(d: nat)
    requires d < 16
    ensures HexDigit(d) == UPPER_CASE[d] && UPPER_CASE[0] == '0'
  {
    DigitRanges(Digit(d, true));
  }

  lemma EscapedControl(c: char)
    requires 0 < c as int < 0x20 && forall j :: 0 <= j < 7 ==> c as int != SPECIAL[j]
    ensures EscapeChar(c) == "\\u00" + [UPPER_CASE[c as int / 16], UPPER_CASE[c as int % 16]]
  {
    assert SPECIAL[0] == 0x22 && SPECIAL[1] == 0x5C && SPECIAL[2] == 8 && SPECIAL[3] == 12 && SPECIAL[4] == 10
        && SPECIAL[5] == 13 && SPECIAL[6] == 9;
    var n := c as int;
    UpperDigit(n / 16);
    UpperDigit(n % 16);
    UpperDigit(0);
    hide HexDigit;
    assert Hex4(n) == [HexDigit(0), HexDigit(0), HexDigit(n / 16), HexDigit(n % 16)];
  }
}
