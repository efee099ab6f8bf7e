// What decodeNumber makes of every number token, by the place value of its digits.

module JsonNumerals {
  import opened CStrings
  import opened JsonValue
  import N = Numerals
  import opened JsonNumbers

  lemma {:induction false} ValueOfMore(ds: seq<N.Digit>, d: N.Digit)
    ensures N.Value(ds + [d], 10) == 10 * N.Value(ds, 10) + d.value
  {
    if ds == [] {
      assert [] + [d] == [d] && [d][1..] == [] && N.Power(10, 0) == 1;
    } else {
      var t := ds[1..];
      ValueOfMore(t, d);
      assert (ds + [d])[1..] == t + [d];
      assert N.Power(10, |ds|) == 10 * N.Power(10, |ds| - 1);
      TimesTen(ds[0].value, N.Power(10, |ds| - 1));
    }
  }

  lemma TimesTen(a: nat, p: nat)
    ensures a * (10 * p) == 10 * (a * p)
  {
  }

  lemma DecimalDigits(ds: seq<N.Digit>)
    requires N.Numeral(ds, 10)
    ensures AllDigits(N.Text(ds))
    ensures forall k :: 0 <= k < |ds| ==> (N.Text(ds)[k] - '0') as nat == ds[k].value
  {
    hide N.Text;
    forall k | 0 <= k < |ds| ensures IsDigit(N.Text(ds)[k]) && (N.Text(ds)[k] - '0') as nat == ds[k].value {
      N.DigitRanges(ds[k]);
    }
  }

  lemma {:induction false} DigitsValueOf(ds: seq<N.Digit>)
    requires N.Numeral(ds, 10)
    ensures AllDigits(N.Text(ds)) && DigitsValue(N.Text(ds)) == N.Value(ds, 10)
    decreases |ds|
  {
    hide N.DigitText, N.Text, IsDigit, N.Value;
    DecimalDigits(ds);
    if ds != [] {
      var front, last := ds[..|ds| - 1], ds[|ds| - 1];
      DigitsValueOf(front);
      ValueOfMore(front, last);
      assert front + [last] == ds;
      assert N.Text(ds)[..|ds| - 1] == N.Text(front);
    } else {
      NoDigits();
    }
  }

  lemma NoDigits()
    ensures N.Value([], 10) == 0
  {
  }

  /** A sign and digits: the exact integer below ten times the threshold, and a double from there on. */
  lemma DigitsRead(negative: bool, ds: seq<N.Digit>)
    requires N.Numeral(ds, 10)
    ensures var v: int := N.Value(ds, 10);
            NumberOf((if negative then "-" else "") + N.Text(ds))
            == if negative then (if v < 2147483640 then Integer(Int(-v)) else Double)
               else if v <= 2147483647 then Integer(Int(v))
               else if v < 4294967290 then Integer(UInt(v))
               else Double
  {
    var text := (if negative then "-" else "") + N.Text(ds);
    DigitsValueOf(ds);
    assert ds != [] ==> IsDigit(N.Text(ds)[0]);
    assert Magnitude(text) == N.Text(ds) && Negative(text) == negative;
    hide DigitsValue, NumberOf, N.Value;
    IntegerBranch(text);
  }

  /** A point, an exponent or a sign behind the start makes a double of every number token. */
  lemma DoubleRead(text: string, k: nat)
    requires k < |text| && (text[k] in ".eE+" || (text[k] == '-' && k > 0))
    ensures NumberOf(text) == Double
  {
    assert text[k] in ".eE+" ==> IsDoubleMark(text[k]);
  }
}
