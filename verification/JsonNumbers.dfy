// Decimal text of bounded integers: valueToString and the integer branch of
// Reader::decodeNumber.

module JsonNumbers {
  import opened CStrings
  import opened JsonValue

  function Digit(d: nat): char
    requires d < 10
  {
    '0' + d as char
  }

  predicate IsDigit(c: char) { '0' <= c <= '9' }

  predicate AllDigits(s: string) {
    forall k :: 0 <= k < |s| ==> IsDigit(s[k])
  }

  /** The number a digit string denotes, leading zeros allowed. */
  function DigitsValue(s: string): nat
    requires AllDigits(s)
  {
    if s == "" then 0
    else 10 * DigitsValue(s[..|s| - 1]) + (s[|s| - 1] - '0') as nat
  }

  /** The shortest digit string denoting n. */
  function Decimal(n: nat): (s: string)
    ensures AllDigits(s) && s != ""
    ensures DigitsValue(s) == n
    ensures |s| > 1 ==> s[0] != '0'
  {
    if n < 10 then
      assert DigitsValue([Digit(n)]) == n by {
        assert [Digit(n)][..0] == "";
      }
      [Digit(n)]
    else
      var r := Decimal(n / 10) + [Digit(n % 10)];
      assert r[..|r| - 1] == Decimal(n / 10);
      r
  }

  lemma DecimalLength(n: nat)
    requires n <= MAX_UINT
    ensures |Decimal(n)| <= 10
  {
    hide DigitsValue;
    var a := n / 10; var b := a / 10; var c := b / 10; var d := c / 10; var e := d / 10;
    var f := e / 10; var g := f / 10; var h := g / 10; var i := h / 10;
    assert i < 10;
    assert |Decimal(i)| == 1;
    assert |Decimal(h)| <= 2;
    assert |Decimal(g)| <= 3;
    assert |Decimal(f)| <= 4;
    assert |Decimal(e)| <= 5;
    assert |Decimal(d)| <= 6;
    assert |Decimal(c)| <= 7;
    assert |Decimal(b)| <= 8;
    assert |Decimal(a)| <= 9;
  }

  function IntText(i: int): string {
    if i < 0 then "-" + Decimal(-i) else Decimal(i)
  }

  /** The digits still to be written. */
  ghost function Remaining(rest: nat): string {
    if rest == 0 then "" else Decimal(rest)
  }

  lemma LastDigit(rest: nat)
    ensures Decimal(rest) == Remaining(rest / 10) + [Digit(rest % 10)]
  {
    hide DigitsValue, AllDigits;
    if rest < 10 {
      assert "" + [Digit(rest)] == [Digit(rest)];
    }
  }

  lemma DigitWritten(rest: nat, written: string)
    ensures Remaining(rest / 10) + ([Digit(rest % 10)] + written) == Decimal(rest) + written
    ensures |Remaining(rest / 10)| + 1 == |Decimal(rest)|
  {
    hide DigitsValue, AllDigits, Decimal, Remaining;
    LastDigit(rest);
  }

  /** uintToString: digits and a NUL written backwards, ending just before `start`. */
  method UintToString(value: int, buffer: array<char>, start: nat) returns (current: nat)
    requires 0 <= value <= MAX_UINT
    requires 11 <= start <= buffer.Length
    modifies buffer
    ensures current + |Decimal(value)| + 1 == start
    ensures buffer[current..start] == Decimal(value) + [NUL]
    ensures forall k :: 0 <= k < buffer.Length && !(current <= k < start) ==> buffer[k] == old(buffer[k])
  {
    hide DigitsValue, Decimal;
    DecimalLength(value);
    current := start - 1;
    buffer[current] := NUL;
    current := current - 1;
    buffer[current] := Digit(value % 10);
    var rest := value / 10;
    assert buffer[current..start] == [Digit(value % 10)] + [NUL];
    DigitWritten(value, [NUL]);
    while rest != 0
      invariant 0 <= rest <= MAX_UINT && current <= start - 2
      invariant start - 1 - current + |Remaining(rest)| == |Decimal(value)|
      invariant Remaining(rest) + buffer[current..start] == Decimal(value) + [NUL]
      invariant forall k :: 0 <= k < buffer.Length && !(current <= k < start) ==> buffer[k] == old(buffer[k])
    {
      ghost var written := buffer[current..start];
      current := current - 1;
      buffer[current] := Digit(rest % 10);
      assert buffer[current..start] == [Digit(rest % 10)] + written;
      DigitWritten(rest, written);
      rest := rest / 10;
    }
    assert "" + buffer[current..start] == buffer[current..start];
  }

  /** valueToString(Int), with the 32-bit negation of the source. */
  method IntToString(value: int) returns (s: string)
    requires MIN_INT <= value <= MAX_INT
    ensures s == IntText(value)
  {
    hide DigitsValue, Decimal, CStr;
    var buffer := new char[32];
    var isNegative := value < 0;
    var magnitude := value;
    if isNegative {
      // -minInt wraps to minInt; the UInt conversion below makes it 2^31.
      magnitude := if value == MIN_INT then MIN_INT else -value;
    }
    var unsigned := if magnitude < 0 then magnitude + MAX_UINT + 1 else magnitude;
    var current := UintToString(unsigned, buffer, 32);
    DecimalLength(unsigned);
    if isNegative {
      ghost var tail := buffer[current..32];
      current := current - 1;
      buffer[current] := '-';
      assert buffer[current..32] == "-" + tail;
    }
    s := CStr(buffer[current..32]);
    CStrOfTerminated(IntText(value), buffer[current..32]);
  }

  /** valueToString(UInt). */
  method UIntToString(value: int) returns (s: string)
    requires 0 <= value <= MAX_UINT
    ensures s == Decimal(value)
  {
    var buffer := new char[32];
    var current := UintToString(value, buffer, 32);
    s := CStr(buffer[current..32]);
    CStrOfTerminated(Decimal(value), buffer[current..32]);
  }

  lemma {:induction false} CStrOfTerminated(s: string, buffer: string)
    requires NulFree(s) && buffer == s + [NUL]
    ensures CStr(buffer) == s
  {
    if s != "" {
      CStrOfTerminated(s[1..], buffer[1..]);
      assert s == [s[0]] + s[1..];
    }
  }

  // ---- decodeNumber ----

  datatype NumberForm = Integer(value: Value) | Double | Malformed

  predicate IsDoubleMark(c: char) { c == '.' || c == 'e' || c == 'E' || c == '+' }

  /** A token that decodeNumber passes straight on to decodeDouble. */
  predicate LooksDouble(text: string) {
    exists k :: 0 <= k < |text| && (IsDoubleMark(text[k]) || (text[k] == '-' && k > 0))
  }

  predicate Negative(text: string) { text != "" && text[0] == '-' }

  function Magnitude(text: string): string {
    if Negative(text) then text[1..] else text
  }

  /** UInt(-minInt)/10 or maxUInt/10. */
  function Threshold(negative: bool): nat {
    if negative then 214748364 else 429496729
  }

  function SignedValue(negative: bool, value: int): Value {
    if negative then Int(-value) else if value <= MAX_INT then Int(value) else UInt(value)
  }

  /** The accumulating loop of decodeNumber, from the unread characters and the value so far. */
  function Accumulate(negative: bool, unread: string, value: nat): NumberForm {
    if unread == "" then Integer(SignedValue(negative, value))
    else if !IsDigit(unread[0]) then Malformed
    else if value >= Threshold(negative) then Double
    else Accumulate(negative, unread[1..], value * 10 + (unread[0] - '0') as nat)
  }

  function NumberOf(text: string): NumberForm {
    if LooksDouble(text) then Double else Accumulate(Negative(text), Magnitude(text), 0)
  }

  lemma {:induction false} DigitsValueSplit(s: string, k: nat)
    requires AllDigits(s) && k <= |s|
    ensures DigitsValue(s[..k]) <= DigitsValue(s)
    ensures k < |s| ==> 10 * DigitsValue(s[..k]) <= DigitsValue(s)
  {
    if k < |s| {
      var t := s[..|s| - 1];
      assert t[..k] == s[..k];
      DigitsValueSplit(t, k);
    } else {
      assert s[..k] == s;
    }
  }

  /**
   * The loop stops early exactly when the whole token is too big, and then the
   * accumulator has stayed below 2^32.
   */
  lemma {:induction false} AccumulateDigits(negative: bool, digits: string, k: nat)
    requires AllDigits(digits) && k <= |digits|
    requires k == 0 || DigitsValue(digits[..k - 1]) < Threshold(negative)
    ensures DigitsValue(digits[..k]) <= MAX_UINT
    ensures Accumulate(negative, digits[k..], DigitsValue(digits[..k])) ==
            if k == |digits| || DigitsValue(digits[..|digits| - 1]) < Threshold(negative)
            then Integer(SignedValue(negative, DigitsValue(digits)))
            else Double
    decreases |digits| - k
  {
    if k > 0 {
      assert digits[..k][..k - 1] == digits[..k - 1];
    }
    if k == |digits| {
      assert digits[..k] == digits;
    } else if DigitsValue(digits[..k]) >= Threshold(negative) {
      var t := digits[..|digits| - 1];
      assert t[..k] == digits[..k];
      DigitsValueSplit(t, k);
    } else {
      assert digits[..k + 1][..k] == digits[..k];
      AccumulateDigits(negative, digits, k + 1);
      assert digits[k..][1..] == digits[k + 1..];
    }
  }

  /**
   * The integer branch is taken exactly when the digits denote less than ten
   * times the threshold (2147483640 after '-', 4294967290 otherwise), and
   * then yields the exact value.
   */
  lemma IntegerBranch(text: string)
    requires AllDigits(Magnitude(text))
    ensures NumberOf(text) ==
            var value := DigitsValue(Magnitude(text));
            if value < (if Negative(text) then 2147483640 else 4294967290)
            then Integer(SignedValue(Negative(text), value))
            else Double
  {
    var negative, digits := Negative(text), Magnitude(text);
    assert !LooksDouble(text) by {
      forall k | 0 <= k < |text| && !(negative && k == 0)
        ensures IsDigit(text[k])
      {
        assert text[k] == if negative then digits[k - 1] else digits[k];
      }
    }
    assert digits[..0] == "" && digits[0..] == digits;
    AccumulateDigits(negative, digits, 0);
    if digits != "" {
      assert DigitsValue(digits) / 10 == DigitsValue(digits[..|digits| - 1]);
    }
  }

  /** decodeNumber inverts valueToString exactly on -2147483639..4294967289. */
  lemma NumberRoundTrip(i: int)
    ensures NumberOf(IntText(i)) ==
            if -2147483639 <= i <= 4294967289 then Integer(if i <= MAX_INT then Int(i) else UInt(i)) else Double
  {
    var text := IntText(i);
    if i < 0 {
      assert text[1..] == Decimal(-i);
    } else {
      assert IsDigit(text[0]);
    }
    IntegerBranch(text);
  }
}
