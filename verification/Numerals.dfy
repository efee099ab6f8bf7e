// Numerals digit by digit: what a numeral looks like and what number it
// stands for, for bases up to 16 and either case of each digit.

module Numerals {
  const LOWER_CASE := "0123456789abcdef"
  const UPPER_CASE := "0123456789ABCDEF"

  datatype Digit = Digit(value: nat, upper: bool)

  function DigitText(d: Digit): char
    requires d.value < 16
  {
    if d.upper then UPPER_CASE[d.value] else LOWER_CASE[d.value]
  }

  predicate Numeral(ds: seq<Digit>, base: nat) {
    forall k :: 0 <= k < |ds| ==> ds[k].value < base
  }

  function Text(ds: seq<Digit>): (s: string)
    requires Numeral(ds, 16)
    ensures |s| == |ds|
    ensures forall k :: 0 <= k < |ds| ==> s[k] == DigitText(ds[k])
  {
    if ds == [] then "" else [DigitText(ds[0])] + Text(ds[1..])
  }

  function Power(base: nat, n: nat): nat {
    if n == 0 then 1 else base * Power(base, n - 1)
  }

  /** Each digit counts as often as its place says. */
  function Value(ds: seq<Digit>, base: nat): nat {
    if ds == [] then 0 else ds[0].value * Power(base, |ds| - 1) + Value(ds[1..], base)
  }

  predicate IsDigit(c: char) {
    c in LOWER_CASE || c in UPPER_CASE
  }

  /** The digits are the characters of three ranges. */
  lemma DigitRanges(d: Digit)
    requires d.value < 16
    ensures DigitText(d) == if d.value < 10 then '0' + d.value as char
                            else if d.upper then 'A' + (d.value - 10) as char
                            else 'a' + (d.value - 10) as char
  {
  }

  /** Every character of the two tables is the text of a digit. */
  lemma DigitOf(c: char) returns (d: Digit)
    requires IsDigit(c)
    ensures d.value < 16 && DigitText(d) == c
  {
    if c in LOWER_CASE {
      var k :| 0 <= k < 16 && LOWER_CASE[k] == c;
      d := Digit(k, false);
    } else {
      var k :| 0 <= k < 16 && UPPER_CASE[k] == c;
      d := Digit(k, true);
    }
  }

  lemma DigitCharacters(c: char)
    ensures IsDigit(c) <==> '0' <= c <= '9' || 'a' <= c <= 'f' || 'A' <= c <= 'F'
  {
    if '0' <= c <= '9' {
      assert LOWER_CASE[(c - '0') as int] == c;
    } else if 'a' <= c <= 'f' {
      assert LOWER_CASE[(c - 'a') as int + 10] == c;
    } else if 'A' <= c <= 'F' {
      assert UPPER_CASE[(c - 'A') as int + 10] == c;
    } else if IsDigit(c) {
      var d := DigitOf(c);
      DigitRanges(d);
    }
  }
}
