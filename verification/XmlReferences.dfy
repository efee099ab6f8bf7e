// What GetChar makes of every character, entity and character reference: the
// number of a reference in either base and case, of any length, and what
// becomes of a reference that is none.

module XmlReferences {
  import opened CStrings
  import N = Numerals
  import opened XmlText

  /** The base of the references that start with '#' or "#x", and the character their digits follow. */
  function Base(hex: bool): (b: nat)
    ensures b == 10 || b == 16
  {
    if hex then 16 else 10
  }

  function Stop(hex: bool): char {
    if hex then 'x' else '#'
  }

  function First(hex: bool): nat {
    if hex then 3 else 2
  }

  /** What stands between the ampersand and the last run of digits before the semicolon. */
  predicate Head(head: string, hex: bool) {
    && ';' !in head
    && if hex then "#x" <= head && |head| >= 2 else "#" <= head && !("#x" <= head)
  }

  predicate DigitOf(c: char, base: nat)
    requires base <= 16
  {
    c in N.LOWER_CASE[..base] || c in N.UPPER_CASE[..base]
  }

  lemma DigitDecodes(d: N.Digit)
    requires d.value < 16
    ensures IsHex(N.DigitText(d)) && HexValue(N.DigitText(d)) == d.value && N.DigitText(d) !in ";#x"
  {
    N.DigitRanges(d);
  }

  lemma HexIsDigit(c: char, base: nat)
    requires (base == 10 || base == 16) && IsHex(c) && HexValue(c) < base
    ensures DigitOf(c, base)
  {
    var d := N.Digit(HexValue(c), 'A' <= c <= 'F');
    N.DigitRanges(d);
    if d.upper {
      assert N.UPPER_CASE[..base][d.value] == c;
    } else {
      assert N.LOWER_CASE[..base][d.value] == c;
    }
  }

  lemma Same(x: nat, y: nat, k: int)
    requires x == y + k * WORD
    ensures x % WORD == y % WORD
  {
  }

  /** One step of the loop in 32-bit arithmetic. */
  lemma Wrapped(v: nat, p: nat, d: nat, base: nat)
    ensures (v % WORD + p % WORD * d) % WORD == (d * p + v) % WORD
    ensures p % WORD * base % WORD == base * p % WORD
  {
    var a, b, q, k := v % WORD, p % WORD, v / WORD, p / WORD;
    assert d * p == d * b + d * k * WORD by {
      assert p == k * WORD + b;
      assert d * (k * WORD) == d * k * WORD;
    }
    assert b * d == d * b;
    Same(d * p + v, a + b * d, d * k + q);
    assert base * p == base * b + base * k * WORD by {
      assert p == k * WORD + b;
      assert base * (k * WORD) == base * k * WORD;
    }
    assert b * base == base * b;
    Same(base * p, b * base, base * k);
  }

  lemma ReadsDigit(s: string, q: nat, d: N.Digit, base: nat, stop: char, ucs: nat, mult: nat)
    requires (base == 10 || base == 16) && d.value < base && 0 < q < |s| && s[q] == N.DigitText(d)
    requires stop == '#' || stop == 'x'
    ensures Digits(s, q, base, stop, ucs, mult)
            == Digits(s, q - 1, base, stop, (ucs + mult * d.value) % WORD, mult * base % WORD)
  {
    DigitDecodes(d);
  }

  lemma NextPlace(ds: seq<N.Digit>, i: nat, base: nat)
    requires 0 < i <= |ds|
    ensures N.Value(ds[i - 1..], base) == ds[i - 1].value * N.Power(base, |ds| - i) + N.Value(ds[i..], base)
    ensures N.Power(base, |ds| - (i - 1)) == base * N.Power(base, |ds| - i)
  {
    var tail := ds[i - 1..];
    assert tail[0] == ds[i - 1] && tail[1..] == ds[i..] && |tail| - 1 == |ds| - i;
  }

  /** What the loop gives when it has read the last digits up to place i. */
  lemma {:induction false} ReadsDigits(s: string, start: nat, ds: seq<N.Digit>, i: nat, base: nat, stop: char)
    requires (base == 10 || base == 16) && (stop == '#' || stop == 'x')
    requires N.Numeral(ds, base) && i <= |ds| && 0 < start && start + |ds| <= |s|
    requires forall k :: 0 <= k < |ds| ==> s[start + k] == N.DigitText(ds[k])
    ensures Digits(s, start + i - 1, base, stop, N.Value(ds[i..], base) % WORD, N.Power(base, |ds| - i) % WORD)
            == Digits(s, start - 1, base, stop, N.Value(ds, base) % WORD, N.Power(base, |ds|) % WORD)
    decreases i
  {
    hide Digits, N.Value, N.Power, N.DigitText;
    if i == 0 {
      assert ds[0..] == ds;
    } else {
      var v, p, d := N.Value(ds[i..], base), N.Power(base, |ds| - i), ds[i - 1];
      assert s[start + (i - 1)] == N.DigitText(d);
      ReadsDigit(s, start + i - 1, d, base, stop, v % WORD, p % WORD);
      Wrapped(v, p, d.value, base);
      NextPlace(ds, i, base);
      ReadsDigits(s, start, ds, i - 1, base, stop);
    }
  }

  /** Where the semicolon is found. */
  lemma {:induction false} SemicolonAt(s: string, i: nat, k: nat)
    requires i <= k < |s| && s[k] == ';' && forall j :: i <= j < k ==> s[j] != ';'
    ensures IndexFrom(s, ';', i) == Some(k)
  {
    assert IndexFrom(s, ';', i).Some?;
  }

  lemma LastStep(s: string, q: nat, hex: bool, ucs: nat, mult: nat)
    requires q < |s| && !DigitOf(s[q], Base(hex))
    ensures Digits(s, q, Base(hex), Stop(hex), ucs, mult) == if s[q] == Stop(hex) then Some(ucs) else None
  {
    hide DigitOf;
    if IsHex(s[q]) && HexValue(s[q]) < Base(hex) {
      HexIsDigit(s[q], Base(hex));
    }
  }

  /** The digits behind the head, down to its last character. */
  lemma DigitsRead(s: string, n: nat, ds: seq<N.Digit>, hex: bool)
    requires N.Numeral(ds, Base(hex)) && n + |ds| < |s| && !DigitOf(s[n], Base(hex))
    requires forall k :: 0 <= k < |ds| ==> s[1 + n + k] == N.DigitText(ds[k])
    ensures Digits(s, n + |ds|, Base(hex), Stop(hex), 0, 1)
            == if s[n] == Stop(hex) then Some(N.Value(ds, Base(hex)) % WORD) else None
  {
    hide Digits, N.DigitText, DigitOf;
    var base := Base(hex);
    assert ds[|ds|..] == [] && N.Value([], base) == 0 && N.Power(base, 0) == 1;
    ReadsDigits(s, 1 + n, ds, |ds|, base, Stop(hex));
    LastStep(s, n, hex, N.Value(ds, base) % WORD, N.Power(base, |ds|) % WORD);
  }

  lemma NoSemicolon(ds: seq<N.Digit>)
    requires N.Numeral(ds, 16)
    ensures ';' !in N.Text(ds) && 'x' !in N.Text(ds)
  {
    forall k | 0 <= k < |ds| ensures N.Text(ds)[k] !in ";x" {
      DigitDecodes(ds[k]);
    }
  }

  /** The text of a reference, character by character. */
  lemma Placed(head: string, digits: string, rest: string, hex: bool)
    requires Head(head, hex) && ';' !in digits && 'x' !in digits
    ensures var s, k := "&" + (head + (digits + (";" + rest))), 1 + |head| + |digits|;
            && |s| > k && s[k] == ';' && s[k + 1..] == rest
            && s[|head|] == head[|head| - 1]
            && (forall j :: 0 <= j < |digits| ==> s[1 + |head| + j] == digits[j])
            && First(hex) <= k && (forall j :: First(hex) <= j < k ==> s[j] != ';')
            && s[0] == '&' && s[1] == '#' && (s[2] == 'x' <==> hex)
  {
    var s, k := "&" + (head + (digits + (";" + rest))), 1 + |head| + |digits|;
    assert forall j :: 0 <= j < |head| ==> s[1 + j] == head[j];
    assert forall j :: First(hex) <= j < k ==> s[j] == if j <= |head| then head[j - 1] else digits[j - 1 - |head|];
    assert s[k..] == ";" + rest;
  }

  /** A reference with its semicolon at k. */
  lemma ReferenceAt(s: string, k: nat, hex: bool)
    requires First(hex) <= k < |s| && s[0] == '&' && s[1] == '#' && (s[2] == 'x' <==> hex)
    requires s[k] == ';' && forall j :: First(hex) <= j < k ==> s[j] != ';'
    ensures var r := Digits(s, k - 1, Base(hex), Stop(hex), 0, 1);
            GetChar(s) == if r.None? then Glyph("", None) else Glyph([(r.value % 256) as char], Some(s[k + 1..]))
  {
    hide Digits, IndexFrom;
    SemicolonAt(s, First(hex), k);
  }

  lemma LowByte(v: nat)
    ensures v % WORD % 256 == v % 256
  {
  }

  /** The number of the last run of digits counts, if the stop character stands before it. */
  lemma ReferenceReads(head: string, ds: seq<N.Digit>, rest: string, hex: bool)
    requires Head(head, hex) && N.Numeral(ds, Base(hex))
    requires !DigitOf(head[|head| - 1], Base(hex))
    ensures GetChar("&" + (head + (N.Text(ds) + (";" + rest))))
            == if head[|head| - 1] == Stop(hex) then Glyph([(N.Value(ds, Base(hex)) % 256) as char], Some(rest))
               else Glyph("", None)
  {
    hide Digits, GetChar, N.Value, N.DigitText, DigitOf, Head, N.Text;
    var s := "&" + (head + (N.Text(ds) + (";" + rest)));
    NoSemicolon(ds);
    Placed(head, N.Text(ds), rest, hex);
    ReferenceAt(s, 1 + |head| + |ds|, hex);
    DigitsRead(s, |head|, ds, hex);
    LowByte(N.Value(ds, Base(hex)));
  }

  lemma Joined(a: string, b: string, s: string)
    ensures a + (b + s) == (a + b) + s
  {
  }

  /** A decimal reference of any length gives the low byte of its number. */
  lemma DecimalReads(ds: seq<N.Digit>, rest: string)
    requires N.Numeral(ds, 10)
    ensures GetChar("&#" + (N.Text(ds) + (";" + rest))) == Glyph([(N.Value(ds, 10) % 256) as char], Some(rest))
  {
    hide GetChar, N.Text, N.Value;
    ReferenceReads("#", ds, rest, false);
    assert "&" + "#" == "&#";
    Joined("&", "#", N.Text(ds) + (";" + rest));
  }

  /** A hexadecimal reference of any length and with digits of either case gives the low byte of its number. */
  lemma HexadecimalReads(ds: seq<N.Digit>, rest: string)
    requires N.Numeral(ds, 16)
    ensures GetChar("&#x" + (N.Text(ds) + (";" + rest))) == Glyph([(N.Value(ds, 16) % 256) as char], Some(rest))
  {
    hide GetChar, N.Text, N.Value;
    ReferenceReads("#x", ds, rest, true);
    assert "&" + "#x" == "&#x";
    Joined("&", "#x", N.Text(ds) + (";" + rest));
  }

  /** Without a semicolon there is no reference, and reading fails. */
  lemma Unterminated(text: string)
    requires text != "" && ';' !in text
    ensures GetChar("&#" + text) == Glyph("", None)
  {
    var s := "&#" + text;
    assert s[0] == '&' && s[1] == '#' && s[2..] == text;
    assert forall j :: 2 <= j < |s| ==> s[j] == text[j - 2];
  }

  // ---- entities and other characters ----

  const NAMES := ["&amp;", "&lt;", "&gt;", "&quot;", "&apos;"]
  const CHARACTERS: seq<int> := [0x26, 0x3C, 0x3E, 0x22, 0x27]

  lemma EntityReads(k: nat, rest: string)
    requires k < 5
    ensures GetChar(NAMES[k] + rest) == Glyph([CHARACTERS[k] as char], Some(rest))
  {
    var name := NAMES[k];
    var s := name + rest;
    assert s[0] == name[0] && s[1] == name[1] && s[2] == name[2] && s[|name|..] == rest && name <= s;
  }

  /** An ampersand that starts none of these is dropped, and every other character stands for itself. */
  lemma OtherwiseReads(c: char, rest: string)
    requires c == '&' ==> !("#" <= rest && |rest| > 1) && forall k :: 0 <= k < 5 ==> !(NAMES[k] <= [c] + rest)
    ensures GetChar([c] + rest) == Glyph(if c == '&' then "" else [c], Some(rest))
  {
    var s := [c] + rest;
    assert s[1..] == rest;
    if c == '&' {
      assert !(NAMES[0] <= s) && !(NAMES[1] <= s) && !(NAMES[2] <= s) && !(NAMES[3] <= s) && !(NAMES[4] <= s);
      assert |s| > 2 ==> s[1] == rest[0];
    }
  }
}
