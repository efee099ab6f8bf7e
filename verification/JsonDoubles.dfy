// valueToString(double): what sprintf prints, without the zeros at the end of
// the fraction.

module JsonDoubles {
  import opened CStrings
  import opened JsonNumbers
  import opened JsonTokens

  /** sprintf with the format "%#.16g"; nothing is assumed of it. */
  const SPRINTF: real -> string

  /** What that format prints for a finite double: it fits the buffer and is a number with a point or an exponent. */
  predicate DoubleForm(s: string) {
    && s != "" && |s| < 32 && (IsDigit(s[0]) || s[0] == '-')
    && (forall k :: 0 <= k < |s| ==> IsNumberChar(s[k]))
    && LooksDouble(s)
  }

  /** The index of the last character from i down that is not '0', or 0. */
  function LastKept(s: string, i: nat): (n: nat)
    requires i < |s|
    ensures n <= i && (n > 0 ==> s[n] != '0') && forall k :: n < k <= i ==> s[k] == '0'
  {
    if i > 0 && s[i] == '0' then LastKept(s, i - 1) else i
  }

  /** Before the digits that end at index i there is a point. */
  predicate AfterPoint(s: string, i: int)
    requires i < |s|
    decreases i + 1
  {
    i >= 0 && if IsDigit(s[i]) then AfterPoint(s, i - 1) else s[i] == '.'
  }

  function TrimZeros(s: string): string {
    if s == "" || s[|s| - 1] != '0' then s
    else
      var n := LastKept(s, |s| - 1);
      if AfterPoint(s, n) && n + 2 <= |s| then s[..n + 2] else s
  }

  /** The text of a double. */
  function DoubleText(r: real): string {
    TrimZeros(SPRINTF(r))
  }

  lemma {:induction false} PointAt(s: string, i: int) returns (p: nat)
    requires i < |s| && AfterPoint(s, i)
    ensures p <= i && s[p] == '.' && forall k :: p < k <= i ==> IsDigit(s[k])
    decreases i + 1
  {
    if IsDigit(s[i]) {
      p := PointAt(s, i - 1);
    } else {
      p := i;
    }
  }

  /**
   * Only zeros at the end of a fraction go, and one of them stays: what is
   * dropped is a run of zeros behind a point, digits and a zero.
   */
  lemma TrimMeaning(s: string)
    ensures var t := TrimZeros(s);
            && t <= s && (forall k :: |t| <= k < |s| ==> s[k] == '0')
            && (t != s ==> t[|t| - 1] == '0' && exists p :: 0 <= p < |t| - 1 && t[p] == '.'
                                                        && forall k :: p < k < |t| ==> IsDigit(t[k]))
  {
    if s != "" && s[|s| - 1] == '0' {
      var n := LastKept(s, |s| - 1);
      if AfterPoint(s, n) && n + 2 <= |s| {
        var p := PointAt(s, n);
        var t := s[..n + 2];
        assert t[p] == '.' && forall k :: p < k < |t| ==> IsDigit(t[k]);
      }
    }
  }

  /** Nothing is left to trim. */
  lemma TrimTwice(s: string)
    ensures TrimZeros(TrimZeros(s)) == TrimZeros(s)
  {
    var t := TrimZeros(s);
    if t != s {
      var n := LastKept(s, |s| - 1);
      assert t == s[..n + 2] && t[n + 1] == '0';
      LastKeptIs(t, |t| - 1, n);
      SamePoint(s, t, n);
    }
  }

  predicate Zeros(s: string) { forall k :: 0 <= k < |s| ==> s[k] == '0' }

  /** A text with a fraction, character by character. */
  lemma FractionAt(head: string, digits: string, zeros: string)
    ensures var s, p, n := head + ("." + (digits + zeros)), |head|, |head| + |digits|;
            && |s| == n + 1 + |zeros| && s[p] == '.'
            && (forall k :: p < k <= n ==> s[k] == digits[k - p - 1])
            && (forall k :: n < k < |s| ==> s[k] == zeros[k - n - 1])
  {
  }

  /** A fraction keeps its digits up to the last that is not zero, and one of the zeros behind them. */
  lemma TrimFraction(head: string, digits: string, zeros: string)
    requires AllDigits(digits) && Zeros(zeros) && (digits != "" ==> digits[|digits| - 1] != '0')
    ensures TrimZeros(head + ("." + (digits + zeros))) == head + ("." + (digits + if zeros == "" then "" else "0"))
  {
    var s, n := head + ("." + (digits + zeros)), |head| + |digits|;
    FractionAt(head, digits, zeros);
    hide LastKept, AfterPoint, TrimZeros;
    if zeros == "" {
      assert digits + "" == digits + zeros;
      NothingToTrim(s);
    } else {
      LastKeptIs(s, |s| - 1, n);
      PointBehind(s, n, |head|);
      TrimAt(s, n);
      var t := head + ("." + (digits + "0"));
      FractionAt(head, digits, "0");
      assert s[..n + 2] == t;
    }
  }

  lemma TrimAt(s: string, n: nat)
    requires s != "" && s[|s| - 1] == '0' && LastKept(s, |s| - 1) == n && AfterPoint(s, n) && n + 2 <= |s|
    ensures TrimZeros(s) == s[..n + 2]
  {
  }

  lemma NothingToTrim(s: string)
    requires s == "" || s[|s| - 1] != '0'
    ensures TrimZeros(s) == s
  {
  }

  /** Digits with no point before them, as in an exponent, are all kept. */
  lemma TrimNothing(head: string, digits: string)
    requires AllDigits(digits) && (head != "" ==> !IsDigit(head[|head| - 1]) && head[|head| - 1] != '.')
    ensures TrimZeros(head + digits) == head + digits
  {
    var s := head + digits;
    assert forall k :: |head| <= k < |s| ==> s[k] == digits[k - |head|];
    if s != "" && s[|s| - 1] == '0' {
      NoPoint(s, LastKept(s, |s| - 1), |head|);
    }
  }

  lemma {:induction false} PointBehind(s: string, i: int, p: nat)
    requires p <= i < |s| && s[p] == '.' && forall k :: p < k <= i ==> IsDigit(s[k])
    ensures AfterPoint(s, i)
  {
    if p < i {
      PointBehind(s, i - 1, p);
    }
  }

  lemma {:induction false} NoPoint(s: string, i: int, p: nat)
    requires -1 <= i < |s| && (forall k :: p <= k <= i ==> IsDigit(s[k]))
    requires p > 0 && p <= |s| ==> !IsDigit(s[p - 1]) && s[p - 1] != '.'
    requires p <= |s| && i >= p - 1
    ensures !AfterPoint(s, i)
    decreases i + 1
  {
    if i >= p {
      NoPoint(s, i - 1, p);
    }
  }

  lemma {:induction false} LastKeptIs(s: string, i: nat, n: nat)
    requires n <= i < |s| && (n > 0 ==> s[n] != '0') && forall k :: n < k <= i ==> s[k] == '0'
    ensures LastKept(s, i) == n
  {
    if n < i {
      LastKeptIs(s, i - 1, n);
    }
  }

  lemma {:induction false} SamePoint(s: string, t: string, i: int)
    requires i < |t| && t <= s
    ensures AfterPoint(s, i) == AfterPoint(t, i)
    decreases i + 1
  {
    if i >= 0 {
      assert s[i] == t[i];
      SamePoint(s, t, i - 1);
    }
  }

  lemma TrimmedForm(s: string)
    requires DoubleForm(s)
    ensures DoubleForm(TrimZeros(s))
  {
    TrimMeaning(s);
    var t := TrimZeros(s);
    if t != s {
      var p :| 0 <= p < |t| - 1 && t[p] == '.' && forall k :: p < k < |t| ==> IsDigit(t[k]);
      assert t[0] == s[0];
      assert IsDoubleMark(t[p]);
    }
  }

  /** decodeNumber passes such a text on to decodeDouble, where it fits the buffer with its terminator. */
  lemma DoubleBranch(r: real)
    requires DoubleForm(SPRINTF(r))
    ensures NumberOf(DoubleText(r)) == Double && |DoubleText(r)| < 32
  {
    TrimmedForm(SPRINTF(r));
  }

  // ---- the loops ----

  /** valueToString(double), on a buffer that holds what sprintf printed and a NUL. */
  method DoubleToString(value: real) returns (text: string)
    requires 0 < |SPRINTF(value)| < 32
    ensures text == DoubleText(value)
  {
    ghost var s := SPRINTF(value);
    var buffer := Printed(value);
    var length := |SPRINTF(value)|;
    if buffer[length - 1] != '0' {
      return buffer[..length];
    }
    var ch: int := length - 1;
    while ch > 0 && buffer[ch] == '0'
      invariant 0 <= ch < length && LastKept(s, ch) == LastKept(s, length - 1)
    {
      ch := ch - 1;
    }
    var lastNonzero := ch;
    while ch >= 0
      invariant -1 <= ch <= lastNonzero && AfterPoint(s, ch) == AfterPoint(s, lastNonzero)
      invariant forall k :: ch < k <= lastNonzero ==> IsDigit(s[k])
    {
      if IsDigit(buffer[ch]) {
        ch := ch - 1;
      } else if buffer[ch] == '.' {
        assert lastNonzero < length - 1;
        buffer[lastNonzero + 2] := NUL;
        return buffer[..lastNonzero + 2];
      } else {
        return buffer[..length];
      }
    }
    text := buffer[..length];
  }

  /** sprintf into a buffer of 32 characters. */
  method Printed(value: real) returns (buffer: array<char>)
    requires |SPRINTF(value)| < 32
    ensures fresh(buffer) && buffer.Length == 32
    ensures buffer[..|SPRINTF(value)|] == SPRINTF(value) && buffer[|SPRINTF(value)|] == NUL
  {
    var s := SPRINTF(value);
    buffer := new char[32](i => if 0 <= i < |s| then s[i] else NUL);
  }
}
