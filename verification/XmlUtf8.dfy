// ConvertUTF32ToUTF8 of TinyXML: the bytes are written backwards from the last
// one, six bits at a time, and the mark of the first byte tells their number.

module XmlUtf8 {
  import opened CStrings
  import opened JsonStrings

  /** How many bytes the code point takes; 0 when it is not converted. */
  function ByteCount(input: nat): (n: nat)
    ensures n <= 4
  {
    if input < 0x80 then 1
    else if input < 0x800 then 2
    else if input < 0x1_0000 then 3
    else if input < 0x20_0000 then 4
    else 0
  }

  function FirstByteMark(n: nat): (m: nat)
    requires n <= 4
  {
    if n <= 1 then 0x00 else if n == 2 then 0xC0 else if n == 3 then 0xE0 else 0xF0
  }

  /** (x | 0x80) & 0xBF: the six low bits under the mark of a continuation byte. */
  function Continuation(x: nat): char {
    (0x80 + x % 0x40) as char
  }

  /** The n bytes written backwards, the first one with its mark. */
  function Written(input: nat, n: nat, mark: nat): (s: string)
    requires 1 <= n
    ensures |s| == n
  {
    if n == 1 then [((mark + input) % 0x100) as char]
    else Written(input / 0x40, n - 1, mark) + [Continuation(input)]
  }

  function Utf8(input: nat): string {
    var n := ByteCount(input);
    if n == 0 then "" else Written(input, n, FirstByteMark(n))
  }

  /** The cases of the switch fall through from the number of bytes down to 1. */
  method ConvertUTF32ToUTF8(input: nat, output: array<char>) returns (length: nat)
    requires output.Length >= 4
    modifies output
    ensures length == ByteCount(input)
    ensures output[..length] == Utf8(input) && output[length..] == old(output[length..])
  {
    length := ByteCount(input);
    if length == 0 {
      return;
    }
    var rest := input;
    if length == 4 {
      output[3] := Continuation(rest);
      rest := rest / 0x40;
    }
    if length >= 3 {
      output[2] := Continuation(rest);
      rest := rest / 0x40;
    }
    if length >= 2 {
      output[1] := Continuation(rest);
      rest := rest / 0x40;
    }
    output[0] := ((FirstByteMark(length) + rest) % 0x100) as char;
    WrittenAll(input, FirstByteMark(length));
  }

  lemma WrittenAll(x: nat, mark: nat)
    ensures Written(x, 1, mark) == [((mark + x) % 0x100) as char]
    ensures Written(x, 2, mark) == [((mark + x / 0x40) % 0x100) as char, Continuation(x)]
    ensures Written(x, 3, mark) == [((mark + x / 0x40 / 0x40) % 0x100) as char, Continuation(x / 0x40), Continuation(x)]
    ensures Written(x, 4, mark) == [((mark + x / 0x40 / 0x40 / 0x40) % 0x100) as char,
                                    Continuation(x / 0x40 / 0x40), Continuation(x / 0x40), Continuation(x)]
  {
    assert Written(x / 0x40 / 0x40, 2, mark)
        == [((mark + x / 0x40 / 0x40 / 0x40) % 0x100) as char, Continuation(x / 0x40 / 0x40)];
    assert Written(x / 0x40, 2, mark) == [((mark + x / 0x40 / 0x40) % 0x100) as char, Continuation(x / 0x40)];
  }

  lemma WrittenBytes(a: nat, b: nat, c: nat, d: nat, mark: nat)
    requires b < 0x40 && c < 0x40 && d < 0x40 && mark + a < 0x100
    ensures Written(a, 1, mark) == [(mark + a) as char]
    ensures Written(a * 0x40 + b, 2, mark) == [(mark + a) as char, (0x80 + b) as char]
    ensures Written(a * 0x1000 + b * 0x40 + c, 3, mark) == [(mark + a) as char, (0x80 + b) as char, (0x80 + c) as char]
    ensures Written(a * 0x4_0000 + b * 0x1000 + c * 0x40 + d, 4, mark)
         == [(mark + a) as char, (0x80 + b) as char, (0x80 + c) as char, (0x80 + d) as char]
  {
    SixBits(a, b);
    SixBits(a * 0x40 + b, c);
    SixBits(a * 0x1000 + b * 0x40 + c, d);
  }

  lemma SixBits(high: nat, low: nat)
    requires low < 0x40
    ensures (high * 0x40 + low) / 0x40 == high && (high * 0x40 + low) % 0x40 == low
  {
  }

  /**
   * The converters of the two libraries give the same bytes on every Unicode
   * code point and above 0x1FFFFF, where both give none; they differ exactly
   * on 0x110000 to 0x1FFFFF, which only this one converts.
   */
  lemma ConvertersAgree(input: nat)
    ensures Utf8(input) == CodePointToUTF8(input) <==> input <= 0x10FFFF || input >= 0x20_0000
  {
    if input < 0x1_0000 {
      ShortForms(input);
    } else if input < 0x20_0000 {
      LongForm(input);
    }
  }

  lemma ShortForms(input: nat)
    requires input < 0x1_0000
    ensures Utf8(input) == CodePointToUTF8(input)
  {
    hide Written;
    var d, c := input % 0x40, input / 0x40 % 0x40;
    if input < 0x80 {
      WrittenBytes(input, 0, 0, 0, 0x00);
    } else if input < 0x800 {
      WrittenBytes(input / 0x40, d, 0, 0, 0xC0);
    } else {
      assert input / 0x40 == input / 0x1000 * 0x40 + c;
      WrittenBytes(input / 0x1000, c, d, 0, 0xE0);
    }
  }

  lemma LongForm(input: nat)
    requires 0x1_0000 <= input < 0x20_0000
    ensures Utf8(input) != "" && (input <= 0x10FFFF ==> Utf8(input) == CodePointToUTF8(input))
  {
    hide Written;
    var d, c, b := input % 0x40, input / 0x40 % 0x40, input / 0x1000 % 0x40;
    assert input / 0x1000 == input / 0x4_0000 * 0x40 + b && input / 0x40 == input / 0x1000 * 0x40 + c;
    WrittenBytes(input / 0x4_0000, b, c, d, 0xF0);
  }

  /** What this converter writes for a Unicode scalar value is its encoding in section 3 of RFC 3629. */
  lemma ConvertedDecodes(cp: nat, rest: string)
    requires ScalarValue(cp)
    ensures DecodeUTF8(Utf8(cp) + rest) == Some((cp, ByteCount(cp)))
  {
    hide CodePointToUTF8, DecodeUTF8, Written;
    ConvertersAgree(cp);
    UTF8RoundTrip(cp, rest);
  }
}
