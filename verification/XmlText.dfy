// Character data in TinyXML: EncodeString, GetEntity, GetChar and ReadText in
// byte mode (TIXML_ENCODING_LEGACY) with white space condensed.
//
// A const char* into the document is the NUL-free text from there on; reading
// it at the end gives NUL. The null pointer is None.

module XmlText {
  import opened CStrings

  type Pointer = Option<string>

  /** p && *p */
  predicate More(p: Pointer) {
    p.Some? && p.value != ""
  }

  /** isspace in the C locale, which covers the line breaks IsWhiteSpace adds. */
  predicate IsWhiteSpace(c: char) {
    c == ' ' || 9 <= c as int <= 13
  }

  predicate AllWhite(s: string) {
    forall k :: 0 <= k < |s| ==> IsWhiteSpace(s[k])
  }

  /** The text after its leading white space. */
  function Strip(s: string): (r: string)
    ensures |r| <= |s|
    ensures r == "" || !IsWhiteSpace(r[0])
  {
    if s != "" && IsWhiteSpace(s[0]) then Strip(s[1..]) else s
  }

  function SkipWhiteSpace(p: Pointer): Pointer {
    if More(p) then Some(Strip(p.value)) else None
  }

  // ---- EncodeString ----

  function HexDigit(d: nat): char
    requires d < 16
  {
    if d < 10 then '0' + d as char else 'A' + (d - 10) as char
  }

  function EncodeChar(c: char): string {
    if c == '&' then "&amp;"
    else if c == '<' then "&lt;"
    else if c == '>' then "&gt;"
    else if c == '"' then "&quot;"
    else if c == '\'' then "&apos;"
    else if c as int < 32 then ['&', '#', 'x', HexDigit(c as int / 16), HexDigit(c as int % 16), ';']
    else [c]
  }

  /** A hexadecimal character reference seems to start here. */
  predicate StartsReference(s: string) {
    |s| > 2 && s[0] == '&' && s[1] == '#' && s[2] == 'x'
  }

  /** How many characters EncodeString copies from such a start: to the next ';' or the last character. */
  function PassedLength(s: string): (n: nat)
    requires s != ""
    ensures n < |s|
    ensures n == |s| - 1 || s[n] == ';'
  {
    if |s| == 1 then 0
    else if s[1] == ';' then 1
    else 1 + PassedLength(s[1..])
  }

  function Encode(s: string): string {
    if s == "" then ""
    else if StartsReference(s) then s[..PassedLength(s)] + Encode(s[PassedLength(s)..])
    else EncodeChar(s[0]) + Encode(s[1..])
  }

  // ---- GetEntity and GetChar ----

  /** What GetChar produces: the characters appended and the new position. */
  datatype Glyph = Glyph(chars: string, next: Pointer)

  /** strchr from index i on. */
  function IndexFrom(s: string, c: char, i: nat): (r: Option<nat>)
    requires i <= |s|
    ensures r.Some? ==> i <= r.value < |s| && s[r.value] == c && forall k :: i <= k < r.value ==> s[k] != c
    ensures r.None? ==> forall k :: i <= k < |s| ==> s[k] != c
    decreases |s| - i
  {
    if i == |s| then None else if s[i] == c then Some(i) else IndexFrom(s, c, i + 1)
  }

  const WORD := 0x1_0000_0000

  predicate IsHex(c: char) { '0' <= c <= '9' || 'a' <= c <= 'f' || 'A' <= c <= 'F' }

  function HexValue(c: char): nat
    requires IsHex(c)
  {
    if '0' <= c <= '9' then (c - '0') as nat
    else if 'a' <= c <= 'f' then (c - 'a') as nat + 10
    else (c - 'A') as nat + 10
  }

  /** The digits of a reference read backwards from q to the stop character, in 32-bit arithmetic. */
  function Digits(s: string, q: nat, base: nat, stop: char, ucs: nat, mult: nat): Option<nat>
    requires q < |s| && (base == 10 || base == 16)
  {
    if s[q] == stop then Some(ucs)
    else if !IsHex(s[q]) || HexValue(s[q]) >= base || q == 0 then None
    else Digits(s, q - 1, base, stop, (ucs + mult * HexValue(s[q])) % WORD, mult * base % WORD)
  }

  function Reference(s: string, first: nat, base: nat, stop: char): Glyph
    requires 0 < first <= |s| && (base == 10 || base == 16)
  {
    match IndexFrom(s, ';', first)
    case None => Glyph("", None)
    case Some(semicolon) =>
      match Digits(s, semicolon - 1, base, stop, 0, 1)
      case None => Glyph("", None)
      case Some(ucs) => Glyph([(ucs % 256) as char], Some(s[semicolon + 1..]))
  }

  /** GetEntity; an ampersand that starts no entity is dropped. */
  function GetEntity(s: string): (g: Glyph)
    requires s != "" && s[0] == '&'
    ensures g.next.Some? ==> |g.next.value| < |s|
  {
    if |s| > 2 && s[1] == '#' then
      if s[2] == 'x' then
        if |s| == 3 then Glyph("", None) else Reference(s, 3, 16, 'x')
      else Reference(s, 2, 10, '#')
    else if "&amp;" <= s then Glyph("&", Some(s[5..]))
    else if "&lt;" <= s then Glyph("<", Some(s[4..]))
    else if "&gt;" <= s then Glyph(">", Some(s[4..]))
    else if "&quot;" <= s then Glyph("\"", Some(s[6..]))
    else if "&apos;" <= s then Glyph("'", Some(s[6..]))
    else Glyph("", Some(s[1..]))
  }

  function GetChar(s: string): (g: Glyph)
    requires s != ""
    ensures g.next.Some? ==> |g.next.value| < |s|
  {
    if s[0] == '&' then GetEntity(s) else Glyph([s[0]], Some(s[1..]))
  }

  // ---- ReadText ----

  function Left(p: Pointer): nat {
    if p.Some? then |p.value| + 1 else 0
  }

  /** The loop that keeps white space: the text, and where the end tag, an error or the end stopped it. */
  function ReadKept(p: Pointer, end: string): (r: (string, Pointer))
    ensures Left(r.1) <= Left(p)
    decreases Left(p)
  {
    if !More(p) || end <= p.value then ("", p)
    else
      var g := GetChar(p.value);
      var r := ReadKept(g.next, end);
      (g.chars + r.0, r.1)
  }

  /** The loop that condenses white space; `pending` tells whether some was just skipped. */
  function ReadCondensed(p: Pointer, end: string, pending: bool): (r: (string, Pointer))
    ensures Left(r.1) <= Left(p)
    decreases Left(p)
  {
    if !More(p) || end <= p.value then ("", p)
    else if IsWhiteSpace(p.value[0]) then ReadCondensed(Some(p.value[1..]), end, true)
    else
      var g := GetChar(p.value);
      var r := ReadCondensed(g.next, end, false);
      ((if pending then " " else "") + g.chars + r.0, r.1)
  }

  /** Step over the end tag; nothing after it counts as failure. */
  function PastEnd(p: Pointer, end: string): Pointer
    requires More(p) ==> |end| <= |p.value|
  {
    if More(p) && p.value[|end|..] != "" then Some(p.value[|end|..]) else None
  }

  lemma {:induction false} KeptStops(p: Pointer, end: string)
    ensures var q := ReadKept(p, end).1; More(q) ==> end <= q.value
    decreases Left(p)
  {
    if More(p) && !(end <= p.value) {
      hide GetChar;
      KeptStops(GetChar(p.value).next, end);
    }
  }

  lemma {:induction false} CondensedStops(p: Pointer, end: string, pending: bool)
    ensures var q := ReadCondensed(p, end, pending).1; More(q) ==> end <= q.value
    decreases Left(p)
  {
    if More(p) && !(end <= p.value) {
      hide GetChar;
      if IsWhiteSpace(p.value[0]) {
        CondensedStops(Some(p.value[1..]), end, true);
      } else {
        CondensedStops(GetChar(p.value).next, end, false);
      }
    }
  }

  function ReadText(p: Pointer, trimWhiteSpace: bool, end: string): (string, Pointer) {
    KeptStops(p, end);
    CondensedStops(SkipWhiteSpace(p), end, false);
    var r := if trimWhiteSpace then ReadCondensed(SkipWhiteSpace(p), end, false) else ReadKept(p, end);
    (r.0, PastEnd(r.1, end))
  }

  // ---- decoding what was encoded ----

  predicate HasReference(s: string) {
    exists i :: 0 <= i <= |s| && StartsReference(s[i..])
  }

  lemma HasReferenceTail(s: string)
    requires s != ""
    ensures HasReference(s) <==> StartsReference(s) || HasReference(s[1..])
  {
    assert s[0..] == s;
    if HasReference(s) && !StartsReference(s) {
      var i :| 0 <= i <= |s| && StartsReference(s[i..]);
      assert s[i..] == s[1..][i - 1..];
    }
    if HasReference(s[1..]) {
      var i :| 0 <= i <= |s[1..]| && StartsReference(s[1..][i..]);
      assert s[1..][i..] == s[i + 1..];
    }
  }

  lemma EncodeCharDecodes(c: char, rest: string)
    ensures EncodeChar(c) != "" && GetChar(EncodeChar(c) + rest) == Glyph([c], Some(rest))
    ensures EncodeChar(c)[0] == '&' || EncodeChar(c) == [c]
  {
    var e := EncodeChar(c);
    var s := e + rest;
    assert s[..|e|] == e && s[|e|..] == rest;
    if |e| > 1 && e[1] == '#' {
      ControlDecodes(c as int / 16, c as int % 16, rest);
    } else if c == '&' || c == '<' || c == '>' || c == '"' || c == '\'' {
      assert e <= s && s[0] == '&' && s[1] == e[1] && s[2] == e[2];
    } else {
      assert s[0] == c;
    }
  }

  lemma ControlDecodes(high: nat, low: nat, rest: string)
    requires high < 2 && low < 16
    ensures GetChar(['&', '#', 'x', HexDigit(high), HexDigit(low), ';'] + rest)
            == Glyph([(high * 16 + low) as char], Some(rest))
  {
    var s := ['&', '#', 'x', HexDigit(high), HexDigit(low), ';'] + rest;
    assert s[0] == '&' && s[1] == '#' && s[2] == 'x' && s[3] == HexDigit(high) && s[4] == HexDigit(low) && s[5] == ';';
    assert s[6..] == rest;
    assert IndexFrom(s, ';', 5) == Some(5) && IndexFrom(s, ';', 4) == Some(5) && IndexFrom(s, ';', 3) == Some(5);
    assert HexValue(s[3]) == high && HexValue(s[4]) == low;
    assert Digits(s, 2, 16, 'x', low + high * 16, 256) == Some(low + high * 16);
    assert Digits(s, 3, 16, 'x', low, 16) == Some(low + high * 16);
    assert Digits(s, 4, 16, 'x', 0, 1) == Some(low + high * 16);
  }

  /** An end tag that no encoded character starts with. */
  predicate EndsText(end: string) {
    end == "\"" || end == "'" || end == "<"
  }

  lemma EncodeStep(s: string)
    requires s != "" && !HasReference(s)
    ensures Encode(s) == EncodeChar(s[0]) + Encode(s[1..]) && !HasReference(s[1..])
  {
    HasReferenceTail(s);
  }

  lemma NotAnEnd(c: char, rest: string, end: string)
    requires EndsText(end)
    ensures !(end <= EncodeChar(c) + rest)
  {
    EncodeCharDecodes(c, rest);
    assert (EncodeChar(c) + rest)[0] == EncodeChar(c)[0];
  }

  /** Text without "&#x" is read back unchanged between quotes. */
  lemma {:induction false} KeptRoundTrip(s: string, end: string, tail: string)
    requires !HasReference(s) && EndsText(end)
    ensures ReadKept(Some(Encode(s) + (end + tail)), end) == (s, Some(end + tail))
    decreases s
  {
    var text := Encode(s) + (end + tail);
    if s == "" {
      assert text == end + tail;
      assert end <= text;
    } else {
      EncodeStep(s);
      var rest := Encode(s[1..]) + (end + tail);
      assert text == EncodeChar(s[0]) + rest;
      EncodeCharDecodes(s[0], rest);
      NotAnEnd(s[0], rest, end);
      hide GetChar, EncodeChar;
      KeptRoundTrip(s[1..], end, tail);
      assert [s[0]] + s[1..] == s;
    }
  }

  lemma ReadTextKept(s: string, end: string, tail: string)
    requires !HasReference(s) && EndsText(end)
    ensures ReadText(Some(Encode(s) + (end + tail)), false, end) == (s, if tail == "" then None else Some(tail))
  {
    hide ReadKept, Encode;
    KeptRoundTrip(s, end, tail);
    assert (end + tail)[|end|..] == tail;
  }

  // ---- condensing ----

  /** Runs of spaces become one space; `pending` tells whether one was just passed. */
  function Squeeze(s: string, pending: bool): string {
    if s == "" then ""
    else if s[0] == ' ' then Squeeze(s[1..], true)
    else (if pending then " " else "") + [s[0]] + Squeeze(s[1..], false)
  }

  function DropSpaces(s: string): (r: string)
    ensures |r| <= |s|
  {
    if s != "" && s[0] == ' ' then DropSpaces(s[1..]) else s
  }

  /** s without leading and trailing spaces and with its runs of spaces condensed. */
  function Condense(s: string): string {
    Squeeze(DropSpaces(s), false)
  }

  lemma EncodeFirst(s: string)
    requires s != ""
    ensures Encode(s) != ""
    ensures IsWhiteSpace(Encode(s)[0]) <==> s[0] == ' '
    ensures s[0] == ' ' ==> Encode(s) == [' '] + Encode(s[1..])
  {
    hide GetChar;
    EncodeCharDecodes(s[0], "");
    if StartsReference(s) {
      assert s[1] != ';';
      assert PassedLength(s) > 0;
    }
  }

  lemma {:induction false} CondensedRoundTrip(s: string, white: string, tail: string, pending: bool)
    requires !HasReference(s) && AllWhite(white)
    ensures ReadCondensed(Some(Encode(s) + (white + ("<" + tail))), "<", pending) == (Squeeze(s, pending), Some("<" + tail))
    decreases s
  {
    var after := white + ("<" + tail);
    var text := Encode(s) + after;
    if s == "" {
      assert text == after;
      WhiteThenTag(white, tail, pending);
    } else {
      EncodeStep(s);
      var rest := Encode(s[1..]) + after;
      assert text == EncodeChar(s[0]) + rest;
      EncodeCharDecodes(s[0], rest);
      NotAnEnd(s[0], rest, "<");
      assert text[0] == EncodeChar(s[0])[0];
      if s[0] == ' ' {
        assert text[1..] == rest;
        hide GetChar, EncodeChar;
        CondensedRoundTrip(s[1..], white, tail, true);
      } else {
        hide GetChar, EncodeChar;
        CondensedRoundTrip(s[1..], white, tail, false);
      }
    }
  }

  lemma {:induction false} WhiteThenTag(white: string, tail: string, pending: bool)
    requires AllWhite(white)
    ensures ReadCondensed(Some(white + ("<" + tail)), "<", pending) == ("", Some("<" + tail))
  {
    if white == "" {
      assert white + ("<" + tail) == "<" + tail;
    } else {
      assert (white + ("<" + tail))[1..] == white[1..] + ("<" + tail);
      WhiteThenTag(white[1..], tail, true);
    }
  }

  lemma {:induction false} StripEncoded(s: string, after: string)
    ensures DropSpaces(s) != "" ==> Strip(Encode(s) + after) == Encode(DropSpaces(s)) + after
    ensures DropSpaces(s) == "" ==> Strip(Encode(s) + after) == Strip(after)
    ensures HasReference(DropSpaces(s)) <==> HasReference(s)
  {
    hide HasReference;
    if s == "" {
      assert Encode(s) + after == after;
    } else {
      EncodeFirst(s);
      HasReferenceTail(s);
      if s[0] == ' ' {
        assert Encode(s) + after == [' '] + (Encode(s[1..]) + after);
        StripEncoded(s[1..], after);
      }
    }
  }

  lemma NoReferenceInNothing()
    ensures !HasReference("")
  {
  }

  /**
   * Exactly the element texts without "&#x", possibly followed by white
   * space, are read back condensed, up to the tag after them.
   */
  lemma ReadTextCondensed(s: string, white: string, tail: string)
    requires AllWhite(white) && tail != ""
    ensures ReadText(Some(Encode(s) + (white + ("<" + tail))), true, "<") == (Condense(s), Some(tail))
            <==> !HasReference(s)
  {
    var after := white + ("<" + tail);
    hide ReadCondensed, Encode, Strip, Squeeze, HasReference, AllWhite;
    StripEncoded(s, after);
    var d := DropSpaces(s);
    if d == "" {
      NoReferenceInNothing();
      StripWhite(white, "<" + tail);
      WhiteThenTag("", tail, false);
      assert "" + ("<" + tail) == "<" + tail;
      SqueezeNothing();
    } else {
      CondensedStops(Some(Encode(d) + after), "<", false);
      CondensedShrinks(d, white, tail, false);
      if !HasReference(s) {
        CondensedRoundTrip(d, white, tail, false);
      }
    }
    PastTag(ReadCondensed(SkipWhiteSpace(Some(Encode(s) + after)), "<", false).1, tail);
  }

  lemma PastTag(p: Pointer, tail: string)
    requires (More(p) ==> "<" <= p.value) && tail != ""
    ensures PastEnd(p, "<") == Some(tail) <==> p == Some("<" + tail)
  {
    assert ("<" + tail)[1..] == tail;
    if PastEnd(p, "<") == Some(tail) {
      assert p.value == "<" + p.value[1..];
    }
  }

  lemma SqueezeNothing()
    ensures Squeeze("", false) == ""
  {
  }

  lemma {:induction false} StripWhite(white: string, s: string)
    requires AllWhite(white)
    ensures Strip(white + s) == Strip(s)
    ensures s != "" && !IsWhiteSpace(s[0]) ==> Strip(white + s) == s
  {
    if white == "" {
      assert white + s == s;
    } else {
      assert (white + s)[1..] == white[1..] + s;
      StripWhite(white[1..], s);
    }
  }

  // ---- what condensing means ----

  /** No space at either end and no two in a row. */
  predicate Condensed(s: string) {
    (s == "" || (s[0] != ' ' && s[|s| - 1] != ' ')) &&
    forall i :: 0 < i < |s| ==> s[i - 1] != ' ' || s[i] != ' '
  }

  /** The maximal runs of other characters, in order; `word` is the one begun so far. */
  function Words(s: string, word: string): seq<string> {
    if s == "" then (if word == "" then [] else [word])
    else if s[0] == ' ' then (if word == "" then [] else [word]) + Words(s[1..], "")
    else Words(s[1..], word + [s[0]])
  }

  lemma {:induction false} SqueezeWords(s: string, word: string, pending: bool)
    requires pending ==> word == ""
    ensures Words(Squeeze(s, pending), word) == Words(s, word)
  {
    if s != "" {
      var q := Squeeze(s, pending);
      if s[0] == ' ' {
        SqueezeWords(s[1..], "", true);
        SqueezePending(s[1..], word);
      } else {
        SqueezeWords(s[1..], word + [s[0]], false);
        var tail := [s[0]] + Squeeze(s[1..], false);
        assert tail[1..] == Squeeze(s[1..], false);
        if pending {
          assert q == " " + tail && q[1..] == tail;
          assert word + [s[0]] == [s[0]];
        } else {
          assert q == tail;
        }
      }
    }
  }

  lemma {:induction false} SqueezePending(s: string, word: string)
    ensures Words(Squeeze(s, true), word) == (if word == "" then [] else [word]) + Words(Squeeze(s, true), "")
  {
    if s != "" {
      if s[0] == ' ' {
        SqueezePending(s[1..], word);
      } else {
        var q := Squeeze(s, true);
        assert q[0] == ' ';
      }
    }
  }

  lemma {:induction false} SqueezeIsCondensed(s: string, pending: bool)
    ensures var q := Squeeze(s, pending);
            && (q != "" ==> q[|q| - 1] != ' ')
            && (q != "" && pending ==> q[0] == ' ' && |q| > 1 && q[1] != ' ')
            && (q != "" && !pending && s[0] != ' ' ==> q[0] != ' ')
            && (forall i :: 0 < i < |q| ==> q[i - 1] != ' ' || q[i] != ' ')
  {
    if s != "" {
      SqueezeIsCondensed(s[1..], s[0] == ' ');
      if s[0] != ' ' {
        var r := Squeeze(s[1..], false);
        var q := Squeeze(s, pending);
        assert q == (if pending then [' ', s[0]] else [s[0]]) + r;
      }
    }
  }

  lemma {:induction false} DropSpacesKeepsWords(s: string)
    ensures Words(DropSpaces(s), "") == Words(s, "")
    ensures DropSpaces(s) == "" || DropSpaces(s)[0] != ' '
  {
    if s != "" && s[0] == ' ' {
      DropSpacesKeepsWords(s[1..]);
      assert [] + Words(s[1..], "") == Words(s[1..], "");
    }
  }

  /** Condensing keeps the words and puts single spaces between them. */
  lemma CondenseMeaning(s: string)
    ensures Words(Condense(s), "") == Words(s, "") && Condensed(Condense(s))
  {
    DropSpacesKeepsWords(s);
    SqueezeWords(DropSpaces(s), "", false);
    SqueezeIsCondensed(DropSpaces(s), false);
  }

  lemma {:induction false} SqueezeFixed(s: string)
    requires s == "" || s[|s| - 1] != ' '
    requires forall i :: 0 < i < |s| ==> s[i - 1] != ' ' || s[i] != ' '
    ensures Squeeze(s, false) == s
    ensures s != "" && s[0] != ' ' ==> Squeeze(s, true) == " " + s
  {
    if s != "" {
      var t := s[1..];
      assert forall i :: 0 < i < |t| ==> t[i - 1] == s[i] && t[i] == s[i + 1];
      SqueezeFixed(t);
      assert s == [s[0]] + t;
      if s[0] == ' ' {
        assert t[0] == s[1];
      } else {
        assert " " + [s[0]] + t == " " + s;
      }
    }
  }

  /** Exactly the condensed texts are left as they are, so condensing is idempotent. */
  lemma CondenseFixed(s: string)
    ensures Condense(s) == s <==> Condensed(s)
    ensures Condense(Condense(s)) == Condense(s)
  {
    CondenseMeaning(s);
    var t := Condense(s);
    if Condensed(s) {
      SqueezeFixed(s);
    }
    SqueezeFixed(t);
  }

  // ---- text with "&#x" is not read back ----

  lemma {:induction false} PassedPrefix(s: string)
    requires s != ""
    ensures forall j :: 1 <= j < PassedLength(s) ==> s[j] != ';'
  {
    if |s| > 1 && s[1] != ';' {
      PassedPrefix(s[1..]);
      forall j | 1 <= j < PassedLength(s) ensures s[j] != ';' {
        if j > 1 { assert s[j] == s[1..][j - 1]; }
      }
    }
  }

  /** The copied part ends before a ';' or before the last character. */
  lemma PassedFacts(s: string)
    requires StartsReference(s)
    ensures var n := PassedLength(s);
            && 2 <= n < |s| && (s[n] == ';' ==> n > 2) && (n == 2 ==> s[n] == 'x')
            && (forall j :: 1 <= j < n ==> s[j] != ';') && (s[n] != ';' ==> s[n + 1..] == "")
  {
    PassedPrefix(s);
  }

  lemma CopiedShape(s: string)
    requires StartsReference(s)
    ensures var n := PassedLength(s);
            Encode(s) == s[..n] + (EncodeChar(s[n]) + Encode(s[n + 1..]))
  {
    PassedFacts(s);
    hide EncodeChar, Encode, PassedLength;
    var n := PassedLength(s);
    var t := s[n..];
    assert t[1..] == s[n + 1..] && t[0] == s[n];
    EncodeUnfold(s);
    EncodeUnfold(t);
  }

  lemma EncodeUnfold(s: string)
    requires s != ""
    ensures Encode(s) == if StartsReference(s) then s[..PassedLength(s)] + Encode(s[PassedLength(s)..])
                         else EncodeChar(s[0]) + Encode(s[1..])
  {
  }

  /**
   * Where a reference ends that begins with `head` and goes on with the
   * encoding of c and `after`, whose first `lead` characters hold no ';'.
   */
  lemma CopiedReference(head: string, c: char, after: string, lead: nat)
    requires |head| >= 2 && head[0] == '&' && head[1] == '#'
    requires if |head| == 2 then c == 'x' else head[2] == 'x'
    requires (forall j :: 1 <= j < |head| ==> head[j] != ';')
    requires lead <= |after| && (c != ';' ==> forall j :: 0 <= j < lead ==> after[j] != ';')
    ensures var g := GetChar(head + (EncodeChar(c) + after));
            && |g.chars| <= 1
            && (g.next.Some? ==> g.next.value == after || (c != ';' && |g.next.value| < |after| - lead))
  {
    hide Digits;
    var n, e := |head|, EncodeChar(c);
    EncodeCharSemicolon(c);
    var text := head + (e + after);
    assert text[0] == '&' && text[1] == '#';
    assert text[2] == 'x' by {
      if n == 2 { assert text[2] == e[0]; } else { assert text[2] == head[2]; }
    }
    assert forall j :: 0 <= j < |e| ==> text[n + j] == e[j];
    assert text[n + |e|..] == after;
    assert forall j :: 0 <= j < lead ==> text[n + |e| + j] == after[j];
    hide EncodeChar;
    match IndexFrom(text, ';', 3)
    case None =>
    case Some(k) =>
      assert k < n ==> text[k] == head[k];
      if n <= k < n + |e| {
        assert k == n + |e| - 1;
      } else if n + |e| <= k < n + |e| + lead {
        assert text[k] == after[k - n - |e|];
      }
      assert c == ';' ==> text[n] == ';';
  }

  lemma EncodeCharSemicolon(c: char)
    ensures EncodeChar(c) != ""
    ensures var e := EncodeChar(c);
            forall j :: 0 <= j < |e| && e[j] == ';' ==> j == |e| - 1
    ensures c == ';' ==> EncodeChar(c) == ";"
  {
  }

  /** GetChar on a copied reference, when the encoded text is followed by `stop`, which holds no ';', and `tail`. */
  lemma CopiedStep(s: string, stop: string, tail: string)
    requires StartsReference(s) && forall j :: 0 <= j < |stop| ==> stop[j] != ';'
    ensures var n := PassedLength(s);
            var after := Encode(s[n + 1..]) + (stop + tail);
            var text := Encode(s) + (stop + tail);
            var g := GetChar(text);
            && n >= 2 && text != "" && text[0] == '&' && |g.chars| <= 1
            && (g.next.Some? ==> g.next.value == after || |g.next.value| < |tail|)
  {
    hide Encode, EncodeChar, GetChar, PassedLength;
    PassedFacts(s);
    CopiedShape(s);
    var n := PassedLength(s);
    var after := Encode(s[n + 1..]) + (stop + tail);
    var text := Encode(s) + (stop + tail);
    assert text == s[..n] + (EncodeChar(s[n]) + after);
    var lead := if s[n] == ';' then 0 else |stop|;
    if s[n] != ';' {
      EncodeNothing();
      assert after == stop + tail;
    }
    CopiedReference(s[..n], s[n], after, lead);
  }

  lemma EncodeNothing()
    ensures Encode("") == ""
  {
  }

  lemma {:induction false} KeptShrinks(s: string, quote: char, tail: string)
    requires quote == '"' || quote == '\''
    ensures var end := [quote];
            var r := ReadKept(Some(Encode(s) + (end + tail)), end);
            r.1 == Some(end + tail) ==> |r.0| <= |s| && (HasReference(s) ==> |r.0| < |s|)
    decreases |s|
  {
    var end := [quote];
    var text := Encode(s) + (end + tail);
    if s == "" {
      assert text == end + tail && end <= text;
      assert !HasReference(s);
    } else if StartsReference(s) {
      var n := PassedLength(s);
      var after := Encode(s[n + 1..]) + (end + tail);
      CopiedStep(s, end, tail);
      var g := GetChar(text);
      hide GetChar, Encode, StartsReference, HasReference;
      if g.next == Some(after) {
        KeptShrinks(s[n + 1..], quote, tail);
      }
    } else {
      HasReferenceTail(s);
      var rest := Encode(s[1..]) + (end + tail);
      assert text == EncodeChar(s[0]) + rest;
      EncodeCharDecodes(s[0], rest);
      NotAnEnd(s[0], rest, end);
      hide GetChar, EncodeChar;
      KeptShrinks(s[1..], quote, tail);
    }
  }

  /** Between quotes exactly the texts without "&#x" are read back, up to the closing quote. */
  lemma QuotedRoundTrip(s: string, quote: char, tail: string)
    requires quote == '"' || quote == '\''
    ensures ReadKept(Some(Encode(s) + ([quote] + tail)), [quote]) == (s, Some([quote] + tail)) <==> !HasReference(s)
  {
    hide ReadKept, Encode, HasReference;
    KeptShrinks(s, quote, tail);
    if !HasReference(s) {
      KeptRoundTrip(s, [quote], tail);
    }
  }

  lemma {:induction false} SqueezeSuffix(s: string, pending: bool, k: nat)
    requires k <= |s|
    ensures |Squeeze(s[k..], false)| <= |Squeeze(s, pending)|
    ensures |Squeeze(s, false)| <= |Squeeze(s, pending)| <= |Squeeze(s, true)|
    decreases |s|
  {
    if s == "" {
    } else {
      SqueezeSuffix(s[1..], s[0] == ' ', if k > 0 then k - 1 else 0);
      if k > 0 {
        assert s[k..] == s[1..][k - 1..];
      } else {
        assert s[k..] == s;
      }
    }
  }

  /** Three characters of a reference are kept, and no more than one is read for them. */
  lemma SqueezeReference(s: string, pending: bool, n: nat)
    requires StartsReference(s) && 2 <= n < |s|
    ensures |Squeeze(s, pending)| >= (if pending then 1 else 0) + 3 + |Squeeze(s[n + 1..], false)|
  {
    assert s[1..][1..] == s[2..] && s[2..][1..] == s[3..] && s[3..][n - 2..] == s[n + 1..];
    assert Squeeze(s[2..], false) == ['x'] + Squeeze(s[3..], false);
    assert Squeeze(s[1..], false) == ['#'] + Squeeze(s[2..], false);
    SqueezeSuffix(s[3..], false, n - 2);
  }

  /** What is read for an encoded text is never longer than the text squeezed, and shorter if it holds "&#x". */
  lemma {:induction false} CondensedShrinks(s: string, white: string, tail: string, pending: bool)
    requires AllWhite(white)
    ensures var r := ReadCondensed(Some(Encode(s) + (white + ("<" + tail))), "<", pending);
            r.1 == Some("<" + tail) ==>
              |r.0| <= |Squeeze(s, pending)| && (HasReference(s) ==> |r.0| < |Squeeze(s, pending)|)
    decreases |s|
  {
    var after := white + ("<" + tail);
    var text := Encode(s) + after;
    if s == "" {
      assert text == after;
      WhiteThenTag(white, tail, pending);
      NoReferenceInNothing();
    } else if StartsReference(s) {
      ReferenceShrinks(s, white, tail, pending);
    } else {
      HasReferenceTail(s);
      var rest := Encode(s[1..]) + after;
      assert text == EncodeChar(s[0]) + rest;
      EncodeCharDecodes(s[0], rest);
      NotAnEnd(s[0], rest, "<");
      assert text[0] == EncodeChar(s[0])[0];
      if s[0] == ' ' {
        assert text[1..] == rest;
        hide GetChar, EncodeChar, Encode, HasReference;
        CondensedShrinks(s[1..], white, tail, true);
      } else {
        hide GetChar, EncodeChar, Encode, HasReference;
        CondensedShrinks(s[1..], white, tail, false);
      }
    }
  }

  lemma {:induction false} ReferenceShrinks(s: string, white: string, tail: string, pending: bool)
    requires AllWhite(white) && StartsReference(s)
    ensures var r := ReadCondensed(Some(Encode(s) + (white + ("<" + tail))), "<", pending);
            r.1 == Some("<" + tail) ==> |r.0| < |Squeeze(s, pending)|
    decreases |s|, 0
  {
    var n := PassedLength(s);
    var stop := white + "<";
    var text := Encode(s) + (stop + tail);
    assert stop + tail == white + ("<" + tail);
    CopiedStep(s, stop, tail);
    SqueezeReference(s, pending, n);
    hide GetChar, Encode, StartsReference, HasReference, Squeeze, AllWhite;
    if GetChar(text).next == Some(Encode(s[n + 1..]) + (stop + tail)) {
      CondensedShrinks(s[n + 1..], white, tail, false);
    }
  }
}
