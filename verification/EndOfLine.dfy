// End-of-line handling: the in-place loop of TiXmlDocument::LoadFile, the
// out-of-place normalizeEOL of the JSON writers, and section 2.11 of XML 1.0.

module EndOfLine {
  import opened CStrings

  const CR: char := '\r'
  const LF: char := '\n'

  /** Both CR LF and a CR that is not followed by LF become one LF. */
  function Normalize(s: string): (r: string)
    ensures |r| <= |s|
  {
    if s == "" then ""
    else if s[0] == CR then [LF] + Normalize(if At(s, 1) == LF then s[2..] else s[1..])
    else [s[0]] + Normalize(s[1..])
  }

  // ---- section 2.11 of XML 1.0, as two replacements one after the other ----

  function ReplacePairs(s: string): string {
    if s == "" then ""
    else if s[0] == CR && At(s, 1) == LF then [LF] + ReplacePairs(s[2..])
    else [s[0]] + ReplacePairs(s[1..])
  }

  function ReplaceSingles(s: string): string {
    if s == "" then "" else [if s[0] == CR then LF else s[0]] + ReplaceSingles(s[1..])
  }

  lemma {:induction false} NormalizeIsTwoPasses(s: string)
    ensures Normalize(s) == ReplaceSingles(ReplacePairs(s))
    decreases |s|
  {
    if s != "" {
      var rest := if s[0] == CR && At(s, 1) == LF then s[2..] else s[1..];
      NormalizeIsTwoPasses(rest);
      assert ReplacePairs(s)[1..] == ReplacePairs(rest);
    }
  }

  // ---- lines ----

  /** The lines of a text in which CR, LF and CR LF all end a line; `line` is the one begun so far. */
  function Lines(s: string, line: string): seq<string> {
    if s == "" then [line]
    else if s[0] == CR then [line] + Lines(if At(s, 1) == LF then s[2..] else s[1..], "")
    else if s[0] == LF then [line] + Lines(s[1..], "")
    else Lines(s[1..], line + [s[0]])
  }

  /** Normalising keeps the lines and leaves LF as the only line end. */
  lemma {:induction false} NormalizeKeepsLines(s: string, line: string)
    ensures Lines(Normalize(s), line) == Lines(s, line)
    ensures CR !in Normalize(s)
    decreases |s|
  {
    if s != "" {
      var rest := if s[0] == CR && At(s, 1) == LF then s[2..] else s[1..];
      NormalizeKeepsLines(rest, if s[0] == CR || s[0] == LF then "" else line + [s[0]]);
      assert Normalize(s)[1..] == Normalize(rest);
    }
  }

  // ---- any mixture of line ends ----

  /** A line and how it ends. */
  datatype Ended = Ended(line: string, end: string)

  predicate LineEnds(ls: seq<Ended>) {
    forall k :: 0 <= k < |ls| ==> '\r' !in ls[k].line && '\n' !in ls[k].line && ls[k].end in {"\r\n", "\n", "\r"}
  }

  function Written(ls: seq<Ended>, last: string): string {
    if ls == [] then last else ls[0].line + (ls[0].end + Written(ls[1..], last))
  }

  /** No single CR stands in front of a line feed, which would be one line end with it. */
  predicate Apart(ls: seq<Ended>, last: string) {
    ls == [] ||
    (var rest := Written(ls[1..], last); (ls[0].end == "\r" ==> rest == "" || rest[0] != '\n') && Apart(ls[1..], last))
  }

  function WithLineFeeds(ls: seq<Ended>, last: string): string {
    if ls == [] then last else ls[0].line + ("\n" + WithLineFeeds(ls[1..], last))
  }

  lemma {:induction false} LineUnchanged(line: string, rest: string)
    requires '\r' !in line
    ensures Normalize(line + rest) == line + Normalize(rest)
  {
    if line == "" {
      assert line + rest == rest;
    } else {
      LineUnchanged(line[1..], rest);
      assert (line + rest)[1..] == line[1..] + rest;
      assert [line[0]] + (line[1..] + Normalize(rest)) == line + Normalize(rest);
    }
  }

  lemma EndNormalized(end: string, rest: string)
    requires end in {"\r\n", "\n", "\r"} && (end == "\r" ==> rest == "" || rest[0] != '\n')
    ensures Normalize(end + rest) == "\n" + Normalize(rest)
  {
    var s := end + rest;
    assert s[0] == end[0] && s[|end|..] == rest;
    if |end| == 2 {
      assert s[1] == '\n';
    } else {
      assert At(s, 1) == At(rest, 0);
    }
  }

  /** Lines with any mixture of the three line ends come out with line feeds. */
  lemma {:induction false} NormalizeLines(ls: seq<Ended>, last: string)
    requires LineEnds(ls) && Apart(ls, last) && '\r' !in last
    ensures Normalize(Written(ls, last)) == WithLineFeeds(ls, last)
  {
    hide Normalize;
    if ls == [] {
      LineUnchanged(last, "");
      assert last + "" == last;
      NormalizeNothing();
    } else {
      var rest := Written(ls[1..], last);
      NormalizeLines(ls[1..], last);
      LineUnchanged(ls[0].line, ls[0].end + rest);
      EndNormalized(ls[0].end, rest);
    }
  }

  lemma NormalizeNothing()
    ensures Normalize("") == ""
  {
  }

  lemma {:induction false} NormalizeFixed(s: string)
    ensures Normalize(s) == s <==> CR !in s
    ensures Normalize(Normalize(s)) == Normalize(s)
  {
    NormalizeKeepsLines(s, "");
    Unchanged(Normalize(s));
    if CR !in s {
      Unchanged(s);
    }
  }

  lemma {:induction false} Unchanged(s: string)
    requires CR !in s
    ensures Normalize(s) == s
  {
    if s != "" {
      Unchanged(s[1..]);
      assert s == [s[0]] + s[1..];
    }
  }

  lemma {:induction false} NormalizeNulFree(s: string)
    requires NulFree(s)
    ensures NulFree(Normalize(s))
    decreases |s|
  {
    if s != "" {
      NormalizeNulFree(if s[0] == CR && At(s, 1) == LF then s[2..] else s[1..]);
    }
  }

  // ---- the two loops ----

  /** Where the character after position p starts, CR LF counting as one. */
  function Next(text: string, p: nat): (q: nat)
    requires p < |text|
    ensures p < q <= |text|
  {
    if text[p] == CR && At(text, p + 1) == LF then p + 2 else p + 1
  }

  lemma NormalizeStep(text: string, p: nat, done: string)
    requires p < |text|
    ensures done + Normalize(text[p..])
            == (done + [if text[p] == CR then LF else text[p]]) + Normalize(text[Next(text, p)..])
  {
    var rest, next := text[p..], text[Next(text, p)..];
    var c := if text[p] == CR then LF else text[p];
    assert rest[0] == text[p] && At(rest, 1) == At(text, p + 1);
    assert next == if rest[0] == CR && At(rest, 1) == LF then rest[2..] else rest[1..];
    assert done + ([c] + Normalize(next)) == (done + [c]) + Normalize(next);
  }

  lemma NormalizeBounds(text: string, done: string)
    ensures "" + Normalize(text[0..]) == Normalize(text)
    ensures done + Normalize(text[|text|..]) == done
  {
    assert text[0..] == text;
  }

  /** StyledWriter::normalizeEOL. */
  method NormalizeEOL(text: string) returns (normalized: string)
    ensures normalized == Normalize(text)
  {
    hide Normalize;
    normalized := "";
    var current := 0;
    NormalizeBounds(text, normalized);
    while current != |text|
      invariant current <= |text| && normalized + Normalize(text[current..]) == Normalize(text)
      decreases |text| - current
    {
      NormalizeStep(text, current, normalized);
      var c := text[current];
      current := current + 1;
      if c == CR {
        if At(text, current) == LF {
          current := current + 1;
        }
        normalized := normalized + [LF];
      } else {
        normalized := normalized + [c];
      }
    }
    NormalizeBounds(text, normalized);
  }

  /**
   * The loop of TiXmlDocument::LoadFile: the write head q stays at or before
   * the read head p, and the buffer ends up holding the normalised text.
   */
  method LoadData(data: array<char>, size: nat)
    requires size < data.Length
    modifies data
    ensures CStr(data[..]) == Normalize(CStr(old(data[..size])))
  {
    hide Normalize, CStr;
    ghost var text := CStr(data[..size]);
    ghost var n := |text|;
    CStrTerminated(data[..size], data[..][size := NUL]);
    NormalizeNulFree(text);
    NormalizeBounds(text, "");
    var p, q := 0, 0;
    data[size] := NUL;
    ghost var all := data[..];
    while data[p] != NUL
      invariant q <= p <= n <= size && forall k :: p <= k < data.Length ==> data[k] == all[k]
      invariant data[..q] + Normalize(text[p..]) == Normalize(text)
      decreases n - p
    {
      NormalizeStep(text, p, data[..q]);
      ghost var before := data[..q];
      if data[p] == CR {
        data[q] := LF;
        q := q + 1;
        p := p + 1;
        if data[p] == LF {
          p := p + 1;
        }
        assert data[..q] == before + [LF];
      } else {
        data[q] := data[p];
        q := q + 1;
        p := p + 1;
        assert data[..q] == before + [data[q - 1]];
      }
    }
    assert p == n;
    NormalizeBounds(text, data[..q]);
    data[q] := NUL;
    assert data[..][..q] == data[..q];
    CStrUpTo(data[..], q);
  }

  /** The C string in a buffer with a known first NUL. */
  lemma {:induction false} CStrUpTo(s: string, n: nat)
    requires n < |s| && s[n] == NUL && NulFree(s[..n])
    ensures CStr(s) == s[..n]
    decreases n
  {
    if n > 0 {
      assert s[0] == s[..n][0] && s[1..][..n - 1] == s[..n][1..];
      CStrUpTo(s[1..], n - 1);
      assert s[..n] == [s[0]] + s[..n][1..];
    }
  }

  lemma {:induction false} CStrTerminated(s: string, all: string)
    requires |s| < |all| && all[..|s|] == s && all[|s|] == NUL
    ensures CStr(all) == CStr(s) && |CStr(s)| <= |s| && all[|CStr(s)|] == NUL
    decreases |s|
  {
    if s != "" {
      assert all[0] == s[0] && all[1..][..|s| - 1] == s[1..];
      CStrTerminated(s[1..], all[1..]);
    }
  }
}
