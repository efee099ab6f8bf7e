// When decodeString gives well-formed UTF-8: exactly when no \u escape stands
// for a low surrogate on its own.

module JsonUnicode {
  import opened CStrings
  import opened JsonStrings

  /** The four digits after a backslash-u stand for a low surrogate. */
  predicate LowSurrogate(s: string) {
    HexQuad(s).CodePoint? && 0xDC00 <= HexQuad(s).code <= 0xDFFF
  }

  /** A high surrogate is joined with the next escape or refused, so only a low one can be left alone. */
  lemma EscapedCodePoint(s: string)
    requires UnicodeEscape(s).CodePoint?
    ensures ScalarValue(UnicodeEscape(s).code) <==> !LowSurrogate(s)
    ensures LowSurrogate(s) ==> 0xDC00 <= UnicodeEscape(s).code <= 0xDFFF
  {
    hide HexQuad;
  }

  /** What a \u escape is written as is UTF-8 exactly when its digits are no low surrogate. */
  lemma EscapeIsUTF8(s: string, rest: string)
    requires UnicodeEscape(s).CodePoint?
    ensures DecodeUTF8(CodePointToUTF8(UnicodeEscape(s).code) + rest)
         == if LowSurrogate(s) then None
            else Some((UnicodeEscape(s).code, |CodePointToUTF8(UnicodeEscape(s).code)|))
    ensures CodePointToUTF8(UnicodeEscape(s).code) != ""
  {
    hide UnicodeEscape, DecodeUTF8, LowSurrogate;
    EscapedCodePoint(s);
    if LowSurrogate(s) {
      UTF8OfSurrogate(UnicodeEscape(s).code, rest);
    } else {
      UTF8RoundTrip(UnicodeEscape(s).code, rest);
    }
  }

  /** The escape \uDC00 is accepted wherever it stands, and its three bytes are not UTF-8. */
  lemma LoneLowSurrogate(tail: string)
    ensures DecodeBody("\\uDC00" + tail) == Prepend([0xED as char, 0xB0 as char, 0x80 as char], DecodeBody(tail))
    ensures DecodeBody(tail).Text? ==> !WellFormedUTF8(DecodeBody("\\uDC00" + tail).text)
  {
    hide DecodeBody, HexQuad, DecodeUTF8, UnicodeEscape, WellFormedUTF8;
    LowDigits(tail);
    DecodesEscape("DC00" + tail);
    assert "\\u" + ("DC00" + tail) == "\\uDC00" + tail;
    if DecodeBody(tail).Text? {
      UTF8OfSurrogate(0xDC00, DecodeBody(tail).text);
      NotUTF8(CodePointToUTF8(0xDC00) + DecodeBody(tail).text);
    }
  }

  lemma LowDigits(tail: string)
    ensures UnicodeEscape("DC00" + tail) == CodePoint(0xDC00, tail)
  {
    hide HexQuad;
    Hex4RoundTrip(0xDC00, tail);
    assert Hex4(0xDC00) == "DC00";
  }

  /** The grammar of section 4 of RFC 3629: a sequence of encoded scalar values. */
  predicate WellFormedUTF8(s: string) {
    s == "" || (DecodeUTF8(s).Some? && WellFormedUTF8(s[DecodeUTF8(s).value.1..]))
  }

  /** Some escape decoded from the body is a low surrogate not joined to a high one. */
  predicate HoldsLoneSurrogate(body: string) {
    if body == "" || body[0] == '"' then false
    else if body[0] != '\\' then HoldsLoneSurrogate(body[1..])
    else if |body| == 1 then false
    else if body[1] == 'u' then
      UnicodeEscape(body[2..]).CodePoint?
      && (LowSurrogate(body[2..]) || HoldsLoneSurrogate(UnicodeEscape(body[2..]).rest))
    else HoldsLoneSurrogate(body[2..])
  }

  predicate Ascii(s: string) { forall k :: 0 <= k < |s| ==> s[k] as int <= 0x7F }

  lemma DecodesAscii(s: string)
    requires s != "" && s[0] as int <= 0x7F
    ensures DecodeUTF8(s) == Some((s[0] as int, 1))
  {
  }

  /** ASCII can be cut off the front of well-formed text. */
  lemma {:induction false} DropAscii(s: string, k: nat)
    requires k <= |s| && Ascii(s[..k])
    ensures WellFormedUTF8(s) <==> WellFormedUTF8(s[k..])
  {
    hide DecodeUTF8;
    if k > 0 {
      assert s[..k][0] == s[0] && s[1..][..k - 1] == s[..k][1..] && s[1..][k - 1..] == s[k..];
      DecodesAscii(s);
      DropAscii(s[1..], k - 1);
    }
  }

  /** One encoded scalar value in front changes nothing. */
  lemma AfterCodePoint(prefix: string, cp: nat, rest: string)
    requires prefix != "" && DecodeUTF8(prefix + rest) == Some((cp, |prefix|))
    ensures WellFormedUTF8(prefix + rest) <==> WellFormedUTF8(rest)
  {
    hide DecodeUTF8;
    assert (prefix + rest)[|prefix|..] == rest;
  }

  /** The decoder looks only at the bytes of the sequence it finds. */
  lemma DecodesPrefix(s: string, rest: string)
    requires DecodeUTF8(s).Some?
    ensures DecodeUTF8(s[..DecodeUTF8(s).value.1] + rest) == DecodeUTF8(s)
  {
    var k := DecodeUTF8(s).value.1;
    var t := s[..k] + rest;
    assert forall i :: 0 <= i < k ==> t[i] == s[i];
  }

  /** No byte after the first of a sequence is ASCII. */
  lemma RestOfSequence(s: string, i: nat)
    requires DecodeUTF8(s).Some? && 1 <= i < DecodeUTF8(s).value.1
    ensures s[0] as int > 0x7F && s[i] as int > 0x7F
  {
  }

  /** Characters other than quotes and backslashes are taken as they are. */
  lemma {:induction false} DecodesPlain(plain: string, rest: string)
    requires forall k :: 0 <= k < |plain| ==> plain[k] != '"' && plain[k] != '\\'
    ensures DecodeBody(plain + rest) == Prepend(plain, DecodeBody(rest))
    ensures HoldsLoneSurrogate(plain + rest) == HoldsLoneSurrogate(rest)
  {
    hide UnicodeEscape, LowSurrogate, CodePointToUTF8, SimpleEscape;
    if plain == "" {
      assert plain + rest == rest;
      assert DecodeBody(rest).Text? ==> "" + DecodeBody(rest).text == DecodeBody(rest).text;
    } else {
      DecodesPlain(plain[1..], rest);
      assert (plain + rest)[1..] == plain[1..] + rest;
      PrependAppend([plain[0]], plain[1..], DecodeBody(rest));
      assert [plain[0]] + plain[1..] == plain;
    }
  }

  lemma HexQuadAscii(s: string)
    requires HexQuad(s).CodePoint?
    ensures Ascii(s[..4])
  {
  }

  /** A \u escape is written in ASCII. */
  lemma EscapeAscii(s: string)
    requires UnicodeEscape(s).CodePoint?
    ensures Ascii(s[..|s| - |UnicodeEscape(s).rest|])
  {
    hide HexQuad;
    HexQuadAscii(s);
    var first := HexQuad(s);
    if 0xD800 <= first.code <= 0xDBFF {
      HexQuadAscii(first.rest[2..]);
      var k := |s| - |UnicodeEscape(s).rest|;
      assert k == 10;
      assert s[..k] == s[..4] + first.rest[..2] + first.rest[2..][..4];
    }
  }

  /**
   * A string literal that is well-formed UTF-8 and decodes without error gives
   * well-formed UTF-8 exactly when none of its escapes is a lone low surrogate.
   */
  lemma {:induction false} DecodedIsUTF8(body: string)
    requires WellFormedUTF8(body) && DecodeBody(body).Text?
    ensures WellFormedUTF8(DecodeBody(body).text) <==> !HoldsLoneSurrogate(body)
    decreases |body|
  {
    hide UnicodeEscape, LowSurrogate, CodePointToUTF8, SimpleEscape, DecodeUTF8, Ascii;
    if body == "" || body[0] == '"' {
    } else if body[0] != '\\' {
      PlainStep(body);
    } else if body[1] == 'u' {
      EscapeStep(body);
    } else {
      SimpleStep(body);
    }
  }

  lemma {:induction false} PlainStep(body: string)
    requires WellFormedUTF8(body) && DecodeBody(body).Text?
    requires body != "" && body[0] != '"' && body[0] != '\\'
    ensures WellFormedUTF8(DecodeBody(body).text) <==> !HoldsLoneSurrogate(body)
    decreases |body|, 0
  {
    hide UnicodeEscape, LowSurrogate, CodePointToUTF8, SimpleEscape, DecodeUTF8, HoldsLoneSurrogate, DecodeBody;
    var k := DecodeUTF8(body).value.1;
    var plain, rest := body[..k], body[k..];
    assert body == plain + rest;
    forall i | 0 <= i < k ensures plain[i] != '"' && plain[i] != '\\' {
      if i > 0 {
        RestOfSequence(body, i);
      }
    }
    DecodesPlain(plain, rest);
    DecodedIsUTF8(rest);
    DecodesPrefix(body, DecodeBody(rest).text);
    AfterCodePoint(plain, DecodeUTF8(body).value.0, DecodeBody(rest).text);
  }

  lemma {:induction false} EscapeStep(body: string)
    requires WellFormedUTF8(body) && DecodeBody(body).Text?
    requires |body| >= 2 && body[..2] == "\\u"
    ensures WellFormedUTF8(DecodeBody(body).text) <==> !HoldsLoneSurrogate(body)
    decreases |body|, 0
  {
    hide UnicodeEscape, LowSurrogate, CodePointToUTF8, SimpleEscape, DecodeUTF8, WellFormedUTF8;
    assert body[0] == '\\' && body[1] == 'u';
    var u := UnicodeEscape(body[2..]);
    EscapeAscii(body[2..]);
    var k := |body| - |u.rest|;
    assert body[..k] == "\\u" + body[2..][..k - 2];
    assert body[k..] == u.rest;
    DropAscii(body, k);
    DecodedIsUTF8(u.rest);
    var written, text := CodePointToUTF8(u.code), DecodeBody(u.rest).text;
    assert DecodeBody(body).text == written + text;
    EscapeIsUTF8(body[2..], text);
    if LowSurrogate(body[2..]) {
      NotUTF8(written + text);
    } else {
      AfterCodePoint(written, u.code, text);
    }
  }

  lemma NotUTF8(s: string)
    requires s != "" && DecodeUTF8(s).None?
    ensures !WellFormedUTF8(s)
  {
  }

  lemma {:induction false} SimpleStep(body: string)
    requires WellFormedUTF8(body) && DecodeBody(body).Text?
    requires |body| >= 2 && body[0] == '\\' && body[1] != 'u'
    ensures WellFormedUTF8(DecodeBody(body).text) <==> !HoldsLoneSurrogate(body)
    decreases |body|, 0
  {
    hide UnicodeEscape, LowSurrogate, CodePointToUTF8, DecodeUTF8, WellFormedUTF8;
    var unit, text := SimpleEscape(body[1]), DecodeBody(body[2..]).text;
    assert Ascii(body[..2]) && Ascii(unit) && unit != "";
    DropAscii(body, 2);
    DecodedIsUTF8(body[2..]);
    assert (unit + text)[..1] == unit && (unit + text)[1..] == text;
    DropAscii(unit + text, 1);
  }
}
