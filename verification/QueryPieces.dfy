// What url_unescape makes of every text, told piece by piece, and what the loop
// of ParseQueryParams stores of every query, told segment by segment.

module QueryPieces {
  import opened CStrings
  import opened Numerals
  import opened QueryString

  datatype Piece =
    | Plainly(c: char)
    | Escaped(high: Digit, low: Digit)
  {
    predicate Valid() {
      Escaped? ==> high.value < 16 && low.value < 16
    }

    function Text(): string
      requires Valid()
    {
      match this
      case Plainly(c) => [c]
      case Escaped(high, low) => ['%', DigitText(high), DigitText(low)]
    }

    function Meaning(): int
      requires Valid()
    {
      match this
      case Plainly(c) => c as int
      case Escaped(high, low) => Value([high, low], 16)
    }

    /** A '%' in front of two digits is no piece of its own. */
    predicate Before(rest: string) {
      this == Plainly('%') ==> |rest| < 2 || !IsDigit(rest[0]) || !IsDigit(rest[1])
    }
  }

  /** The pieces of one text. */
  predicate Pieces(ps: seq<Piece>, s: string) {
    if ps == [] then s == ""
    else
      && ps[0].Valid()
      && ps[0].Text() <= s
      && ps[0].Before(s[|ps[0].Text()|..])
      && Pieces(ps[1..], s[|ps[0].Text()|..])
  }

  /** Piece i stands for character i. */
  lemma {:induction false} UnescapePieces(ps: seq<Piece>, s: string)
    requires Pieces(ps, s)
    ensures |Unescape(s)| == |ps|
    ensures forall k :: 0 <= k < |ps| ==> ps[k].Valid() && Unescape(s)[k] as int == ps[k].Meaning()
  {
    if ps != [] {
      var rest := s[|ps[0].Text()|..];
      UnescapePiece(ps[0], s);
      hide Unescape, Pieces, Piece.Meaning, Piece.Text, Piece.Before;
      UnescapePieces(ps[1..], rest);
    }
  }

  lemma UnescapePiece(p: Piece, s: string)
    requires p.Valid() && p.Text() <= s && p.Before(s[|p.Text()|..])
    ensures Unescape(s) != "" && Unescape(s)[0] as int == p.Meaning()
    ensures Unescape(s)[1..] == Unescape(s[|p.Text()|..])
  {
    var t := p.Text();
    assert s[0] == t[0];
    if p.Escaped? {
      assert s[1] == t[1] && s[2] == t[2];
      DigitRanges(p.high);
      DigitRanges(p.low);
      TwoDigits(p.high, p.low);
    } else if |s| >= 3 {
      DigitCharacters(s[1]);
      DigitCharacters(s[2]);
    }
  }

  /** An escape is read as its byte in each of the four spellings, whatever follows. */
  lemma EscapeInEitherCase(c: char, high: Digit, low: Digit, rest: string)
    requires high.value < 16 && low.value < 16 && Value([high, low], 16) == c as int
    ensures Unescape(['%', DigitText(high), DigitText(low)] + rest) == [c] + Unescape(rest)
  {
    var p, s := Escaped(high, low), ['%', DigitText(high), DigitText(low)] + rest;
    assert p.Text() <= s && s[3..] == rest;
    UnescapePiece(p, s);
    hide Unescape, DigitText;
    assert Unescape(s) == [Unescape(s)[0]] + Unescape(s)[1..];
  }

  lemma TwoDigits(high: Digit, low: Digit)
    ensures Value([high, low], 16) == 16 * high.value + low.value
  {
    assert [high, low][1..] == [low] && Value([low], 16) == low.value * Power(16, 0) && Power(16, 1) == 16;
  }

  /** Every text is made of pieces. */
  lemma {:induction false} EveryText(s: string) returns (ps: seq<Piece>)
    ensures Pieces(ps, s)
    decreases |s|
  {
    if s == "" {
      return [];
    }
    var p := Plainly(s[0]);
    if s[0] == '%' && |s| >= 3 && IsDigit(s[1]) && IsDigit(s[2]) {
      var high := DigitOf(s[1]);
      var low := DigitOf(s[2]);
      p := Escaped(high, low);
    }
    var rest := EveryText(s[|p.Text()|..]);
    ps := [p] + rest;
    assert ps[1..] == rest;
  }

  // ---- the segments between the ampersands ----

  predicate Free(s: string) {
    forall k :: 0 <= k < |s| ==> s[k] != '&' && s[k] != '='
  }

  predicate AllFree(parts: seq<string>) {
    forall k :: 0 <= k < |parts| ==> Free(parts[k])
  }

  /** The parts of a segment with the equals signs between them. */
  function SegmentThen(parts: seq<string>, rest: string): string
    requires parts != []
  {
    if |parts| == 1 then parts[0] + rest else parts[0] + ("=" + SegmentThen(parts[1..], rest))
  }

  function Length(parts: seq<string>): nat {
    if parts == [] then 0 else |parts[0]| + Length(parts[1..])
  }

  lemma {:induction false} ScanFree(s: string, rest: string, c: Cursor)
    requires Free(s)
    ensures Scan(s + rest, c)
            == if c.inValue then Scan(rest, c.(valueLength := c.valueLength + |s|))
               else Scan(rest, c.(keyLength := c.keyLength + |s|))
  {
    hide Cursor.Restart;
    if s == "" {
      assert s + rest == rest;
    } else {
      assert (s + rest)[1..] == s[1..] + rest;
      if c.inValue {
        ScanFree(s[1..], rest, c.(valueLength := c.valueLength + 1));
      } else {
        ScanFree(s[1..], rest, c.(keyLength := c.keyLength + 1));
      }
    }
  }

  lemma ScanEquals(rest: string, c: Cursor)
    ensures Scan("=" + rest, c) == Scan(rest, c.(inValue := true, value := rest))
  {
    hide Cursor.Restart;
    assert ("=" + rest)[1..] == rest;
  }

  /** Behind an equals sign every part counts for the value, and the last one is where the value starts. */
  lemma {:induction false} ScanValueParts(parts: seq<string>, rest: string, c: Cursor)
    requires parts != [] && AllFree(parts) && c.inValue && c.value == SegmentThen(parts, rest)
    ensures Scan(SegmentThen(parts, rest), c)
            == Scan(rest, c.(value := parts[|parts| - 1] + rest, valueLength := c.valueLength + Length(parts)))
    decreases |parts|
  {
    hide Scan;
    if |parts| == 1 {
      ScanFree(parts[0], rest, c);
      assert Length(parts[1..]) == 0;
    } else {
      var tail := SegmentThen(parts[1..], rest);
      ScanFree(parts[0], "=" + tail, c);
      var d := c.(valueLength := c.valueLength + |parts[0]|);
      ScanEquals(tail, d);
      ScanValueParts(parts[1..], rest, d.(value := tail));
    }
  }

  /** Where the loop stands at the end of a segment: the key is its first part, the value all others. */
  function AfterSegment(parts: seq<string>, rest: string, m: nat, value: string, n: nat): Cursor
    requires parts != []
  {
    var p := SegmentThen(parts, rest);
    if |parts| == 1 then Cursor(false, p, m + |parts[0]|, value, n)
    else Cursor(true, p, m + |parts[0]|, parts[|parts| - 1] + rest, n + Length(parts[1..]))
  }

  lemma SegmentEnd(parts: seq<string>, rest: string, m: nat, value: string, n: nat)
    requires parts != [] && AllFree(parts)
    ensures var p := SegmentThen(parts, rest);
            Scan(p, Cursor(false, p, m, value, n)) == Scan(rest, AfterSegment(parts, rest, m, value, n))
  {
    hide Scan;
    var p := SegmentThen(parts, rest);
    var start := Cursor(false, p, m, value, n);
    if |parts| == 1 {
      ScanFree(parts[0], rest, start);
    } else {
      var tail := SegmentThen(parts[1..], rest);
      ScanFree(parts[0], "=" + tail, start);
      var d := start.(keyLength := m + |parts[0]|);
      ScanEquals(tail, d);
      ScanValueParts(parts[1..], rest, d.(inValue := true, value := tail));
    }
  }

  /** At an ampersand and at the end. */
  lemma ScanStores(rest: string, c: Cursor)
    requires rest == "" || rest[0] == '&'
    ensures var stored := c.keyLength > 0 && c.valueLength > 0;
            Scan(rest, c)
            == (if stored then [c] else [])
               + (if rest == "" then []
                  else if stored then Scan(rest[1..], Cursor(false, rest[1..], 0, c.value, 0))
                  else Scan(rest[1..], Cursor(false, rest[1..], c.keyLength, c.value, c.valueLength)))
  {
    if rest == "" {
      assert [c] + [] == [c];
    }
  }

  /**
   * Every segment, with the lengths pending from earlier ones: it is stored if
   * key and value have a length then, and the next segment starts behind it.
   */
  lemma ScanSegment(parts: seq<string>, rest: string, m: nat, value: string, n: nat)
    requires parts != [] && AllFree(parts) && (rest == "" || rest[0] == '&')
    ensures var p := SegmentThen(parts, rest);
            var c := AfterSegment(parts, rest, m, value, n);
            var stored := c.keyLength > 0 && c.valueLength > 0;
            Scan(p, Cursor(false, p, m, value, n))
            == (if stored then [c] else [])
               + (if rest == "" then []
                  else if stored then Scan(rest[1..], Cursor(false, rest[1..], 0, c.value, 0))
                  else Scan(rest[1..], Cursor(false, rest[1..], c.keyLength, c.value, c.valueLength)))
  {
    hide Scan, AfterSegment, SegmentThen, AllFree;
    SegmentEnd(parts, rest, m, value, n);
    ScanStores(rest, AfterSegment(parts, rest, m, value, n));
  }

  // ---- the map ----

  /** A key without an entry keeps what it had. */
  lemma {:induction false} NoEntry(pairs: seq<Pair>, params: Params, key: string)
    requires forall k :: 0 <= k < |pairs| ==> pairs[k].key != key
    ensures key in Entries(pairs, params) <==> key in params
    ensures key in params ==> Entries(pairs, params)[key] == params[key]
    decreases |pairs|
  {
    if pairs != [] {
      assert forall k :: 0 <= k < |pairs| - 1 ==> pairs[1..][k] == pairs[k + 1];
      NoEntry(pairs[1..], params[pairs[0].key := pairs[0].value], key);
    }
  }

  /** A key has the value of its last entry. */
  lemma {:induction false} LastEntryCounts(pairs: seq<Pair>, params: Params, i: nat)
    requires i < |pairs| && forall k :: i < k < |pairs| ==> pairs[k].key != pairs[i].key
    ensures pairs[i].key in Entries(pairs, params) && Entries(pairs, params)[pairs[i].key] == pairs[i].value
    decreases |pairs|
  {
    var params' := params[pairs[0].key := pairs[0].value];
    assert forall k :: 0 <= k < |pairs| - 1 ==> pairs[1..][k] == pairs[k + 1];
    if i > 0 {
      assert pairs[1..][i - 1] == pairs[i];
      LastEntryCounts(pairs[1..], params', i - 1);
    } else {
      NoEntry(pairs[1..], params', pairs[0].key);
    }
  }
}
