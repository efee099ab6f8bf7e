// Every text a writer produces reads back as the same tokens.

module JsonLexing {
  import opened JsonValue
  import opened JsonNumbers
  import opened JsonDoubles
  import opened JsonStrings
  import opened JsonTokens
  import opened JsonText

  /** A text after which no number token can continue. */
  predicate Delimited(rest: string) { rest == "" || !IsNumberChar(rest[0]) }

  /** The token read at the start of text + rest is all of text. */
  ghost predicate ReadsAs(text: string, kind: TokenType, rest: string) {
    ReadToken(text + rest) == Scan(kind, text + rest, rest)
  }

  lemma ReadsFrom(c: char, tail: string, kind: TokenType, rest: string)
    requires !IsSpace(c) && Classify(c, tail) == (kind, true, rest)
    ensures ReadToken([c] + tail) == Scan(kind, [c] + tail, rest)
  {
    hide Classify, IsSuffix;
    var s := [c] + tail;
    assert SkipSpaces(s) == s;
    assert s[0] == c && s[1..] == tail;
  }

  lemma ReadsAsOneToken(text: string, kind: TokenType, rest: string)
    requires ReadsAs(text, kind, rest)
    ensures Lexes(text + rest, [Token(kind, text)], rest)
  {
    hide ReadToken;
    assert (text + rest)[..|text|] == text;
    assert Lexes(rest, [], rest);
  }

  lemma {:induction false} SkipNumberOf(digits: string, rest: string)
    requires forall k :: 0 <= k < |digits| ==> IsNumberChar(digits[k])
    requires Delimited(rest)
    ensures SkipNumber(digits + rest) == rest
  {
    if digits == "" {
      assert digits + rest == rest;
    } else {
      SkipNumberOf(digits[1..], rest);
      assert (digits + rest)[1..] == digits[1..] + rest;
    }
  }

  lemma DigitsAreNumberChars(digits: string)
    requires AllDigits(digits)
    ensures forall k :: 0 <= k < |digits| ==> IsNumberChar(digits[k])
  {
  }

  lemma NumberReads(text: string, rest: string)
    requires text != "" && (IsDigit(text[0]) || text[0] == '-')
    requires forall k :: 0 <= k < |text[1..]| ==> IsNumberChar(text[1..][k])
    requires Delimited(rest)
    ensures ReadsAs(text, NumberToken, rest)
  {
    hide ReadToken, SkipNumber, IsNumberChar;
    var digits := text[1..];
    SkipNumberOf(digits, rest);
    ReadsFrom(text[0], digits + rest, NumberToken, rest);
    assert text + rest == [text[0]] + (digits + rest);
  }

  /** readString passes over an escaped character without stopping. */
  lemma SkipEscapedChar(c: char, rest: string)
    ensures SkipString(EscapeChar(c) + rest) == SkipString(rest)
  {
    hide SkipString, Hex4;
    var e := EscapeChar(c);
    if |e| == 1 {
      SkipPlain(c, rest);
    } else if |e| == 2 {
      SkipPair(e[1], rest);
      assert e + rest == ['\\', e[1]] + rest;
    } else {
      var h := Hex4(c as int);
      SkipPair('u', h + rest);
      assert e + rest == ['\\', 'u'] + (h + rest);
      SkipHex(c as int, rest);
    }
  }

  lemma SkipPair(c: char, rest: string)
    ensures SkipString(['\\', c] + rest) == SkipString(rest)
  {
    assert (['\\', c] + rest)[2..] == rest;
  }

  lemma SkipHex(n: nat, rest: string)
    requires n < 0x1_0000
    ensures SkipString(Hex4(n) + rest) == SkipString(rest)
  {
    hide SkipString;
    var h := Hex4(n);
    SkipPlain(h[3], rest);
    SkipPlain(h[2], [h[3]] + rest);
    SkipPlain(h[1], [h[2]] + ([h[3]] + rest));
    SkipPlain(h[0], [h[1]] + ([h[2]] + ([h[3]] + rest)));
    assert h + rest == [h[0]] + ([h[1]] + ([h[2]] + ([h[3]] + rest)));
  }

  lemma SkipPlain(c: char, rest: string)
    requires c != '"' && c != '\\'
    ensures SkipString([c] + rest) == SkipString(rest)
  {
    assert ([c] + rest)[1..] == rest;
  }

  lemma SkipQuote(rest: string)
    ensures SkipString("\"" + rest) == (true, rest)
  {
    assert ("\"" + rest)[1..] == rest;
  }

  lemma {:induction false} SkipEscaped(s: string, rest: string)
    ensures SkipString(Escape(s) + ("\"" + rest)) == (true, rest)
  {
    hide EscapeChar, SkipString;
    if s == "" {
      assert Escape(s) + ("\"" + rest) == "\"" + rest;
      SkipQuote(rest);
    } else {
      SkipEscapedChar(s[0], Escape(s[1..]) + ("\"" + rest));
      SkipEscaped(s[1..], rest);
      assert Escape(s) + ("\"" + rest) == EscapeChar(s[0]) + (Escape(s[1..]) + ("\"" + rest));
    }
  }

  lemma QuoteReads(s: string, rest: string)
    ensures ReadsAs(Quote(s), StringToken, rest)
  {
    hide ReadToken, Escape, SkipString;
    var tail := Escape(s) + ("\"" + rest);
    SkipEscaped(s, rest);
    ReadsFrom('"', tail, StringToken, rest);
    assert Quote(s) + rest == ['"'] + tail;
  }

  lemma WordReads(v: Value, rest: string)
    requires v.Null? || v.Bool?
    ensures ReadsAs(ScalarText(v), ScalarKind(v), rest)
  {
    hide ReadsAs, Classify;
    WordClassified(v, rest);
    ReadsWhole(ScalarText(v), ScalarKind(v), rest);
  }

  lemma ReadsWhole(text: string, kind: TokenType, rest: string)
    requires text != "" && !IsSpace(text[0]) && Classify(text[0], text[1..] + rest) == (kind, true, rest)
    ensures ReadsAs(text, kind, rest)
  {
    hide ReadToken, Classify;
    ReadsFrom(text[0], text[1..] + rest, kind, rest);
    assert text + rest == [text[0]] + (text[1..] + rest);
  }

  lemma WordClassified(v: Value, rest: string)
    requires v.Null? || v.Bool?
    ensures var text := ScalarText(v);
            !IsSpace(text[0]) && Classify(text[0], text[1..] + rest) == (ScalarKind(v), true, rest)
  {
    hide Match, SkipString, SkipNumber, SkipComment, IsSuffix;
    if v.Null? {
      MatchOf("ull", rest);
      assert "null"[1..] == "ull";
    } else if v.b {
      MatchOf("rue", rest);
      assert "true"[1..] == "rue";
    } else {
      MatchOf("alse", rest);
      assert "false"[1..] == "alse";
    }
  }

  lemma MatchOf(pattern: string, rest: string)
    ensures Match(pattern + rest, pattern) == (true, rest)
  {
  }

  lemma ScalarReads(v: Value, rest: string)
    requires IsScalar(v) && Writable(v) && Delimited(rest)
    ensures ReadsAs(ScalarText(v), ScalarKind(v), rest)
  {
    hide ReadsAs;
    match v
    case Int(i) =>
      assert IntText(i)[1..] == if i < 0 then Decimal(-i) else Decimal(i)[1..];
      DigitsAreNumberChars(IntText(i)[1..]);
      NumberReads(IntText(i), rest);
    case UInt(u) =>
      DigitsAreNumberChars(Decimal(u)[1..]);
      NumberReads(Decimal(u), rest);
    case Real(r) =>
      TrimmedForm(SPRINTF(r));
      NumberReads(DoubleText(r), rest);
    case Str(s) => QuoteReads(s, rest);
    case _ => WordReads(v, rest);
  }

  predicate IsPunctuation(kind: TokenType, c: char) {
    || (kind.ObjectBegin? && c == '{') || (kind.ObjectEnd? && c == '}')
    || (kind.ArrayBegin? && c == '[') || (kind.ArrayEnd? && c == ']')
    || (kind.ArraySeparator? && c == ',') || (kind.MemberSeparator? && c == ':')
  }

  lemma PunctuationReads(kind: TokenType, c: char, rest: string)
    requires IsPunctuation(kind, c)
    ensures ReadsAs([c], kind, rest)
  {
    hide ReadToken;
    ReadsFrom(c, rest, kind, rest);
  }

  // ---- whole texts ----

  /** One more token, with white space before it. */
  lemma LexesCons(spaces: string, text: string, kind: TokenType, middle: string, tokens: seq<Token>, rest: string)
    requires AllSpaces(spaces) && ReadsAs(text, kind, middle) && Lexes(middle, tokens, rest)
    ensures Lexes(spaces + (text + middle), [Token(kind, text)] + tokens, rest)
  {
    ReadsAsOneToken(text, kind, middle);
    hide ReadToken, ReadsAs;
    LexesAfterSpaces(spaces, text + middle, [Token(kind, text)], middle);
    LexesAppend(spaces + (text + middle), [Token(kind, text)], middle, tokens, rest);
  }

  lemma LexesPunctuation(spaces: string, kind: TokenType, c: char, text: string, tokens: seq<Token>, rest: string)
    requires IsPunctuation(kind, c) && AllSpaces(spaces) && Lexes(text, tokens, rest)
    ensures Lexes(spaces + ([c] + text), [Token(kind, [c])] + tokens, rest)
    ensures spaces == "" ==> Lexes([c] + text, [Token(kind, [c])] + tokens, rest)
  {
    hide Lexes, ReadsAs, IsPunctuation;
    PunctuationReads(kind, c, text);
    LexesCons(spaces, [c], kind, text, tokens, rest);
    assert spaces == "" ==> spaces + ([c] + text) == [c] + text;
  }

  /** The comma before every element but the first. */
  lemma LexesComma(k: nat, text: string, tokens: seq<Token>, rest: string)
    requires Lexes(text, tokens, rest)
    ensures Lexes(Comma(k) + text, AfterComma(k, tokens), rest)
  {
    hide Lexes;
    if k > 0 {
      LexesPunctuation("", ArraySeparator, ',', text, tokens, rest);
    } else {
      assert "" + text == text;
    }
  }

  /** A scalar value in front. */
  lemma LexesScalar(v: Value, text: string, tokens: seq<Token>, rest: string)
    requires IsScalar(v) && Writable(v) && Delimited(text) && Lexes(text, tokens, rest)
    ensures Lexes(ScalarText(v) + text, [Token(ScalarKind(v), ScalarText(v))] + tokens, rest)
  {
    hide Lexes, ReadsAs, Delimited;
    ScalarReads(v, text);
    LexesCons("", ScalarText(v), ScalarKind(v), text, tokens, rest);
    assert "" + (ScalarText(v) + text) == ScalarText(v) + text;
  }

  /** FastWriter: the text of v followed by text lexes as the tokens of v followed by its tokens. */
  lemma {:induction false} FastLexes(yaml: bool, v: Value, text: string, tokens: seq<Token>, rest: string)
    requires Writable(v) && Delimited(text) && Lexes(text, tokens, rest)
    ensures Lexes(FastText(yaml, v, text), TokensOf(v, tokens), rest)
    decreases v, 0
  {
    hide Lexes, ReadsAs;
    match v
    case Array(items) =>
      FastItemsLex(yaml, items, 0, text, tokens, rest);
      LexesPunctuation("", ArrayBegin, '[', FastItems(yaml, items, 0, text), ItemTokens(items, 0, tokens), rest);
    case Object(members) =>
      FastMembersLex(yaml, members, 0, text, tokens, rest);
      LexesPunctuation("", ObjectBegin, '{', FastMembers(yaml, members, 0, text), MemberTokens(members, 0, tokens), rest);
    case _ =>
      LexesScalar(v, text, tokens, rest);
  }

  lemma {:induction false} FastItemsLex(yaml: bool, items: seq<Value>, k: nat, text: string, tokens: seq<Token>,
          rest: string)
    requires k <= |items| && (forall i :: 0 <= i < |items| ==> Writable(items[i])) && Lexes(text, tokens, rest)
    ensures Lexes(FastItems(yaml, items, k, text), ItemTokens(items, k, tokens), rest)
    ensures k > 0 ==> Delimited(FastItems(yaml, items, k, text))
    decreases items, |items| - k
  {
    hide Lexes, ReadsAs, TokensOf, FastText;
    if k == |items| {
      LexesPunctuation("", ArrayEnd, ']', text, tokens, rest);
    } else {
      var tail := FastItems(yaml, items, k + 1, text);
      var tailTokens := ItemTokens(items, k + 1, tokens);
      FastItemsLex(yaml, items, k + 1, text, tokens, rest);
      FastLexes(yaml, items[k], tail, tailTokens, rest);
      LexesComma(k, FastText(yaml, items[k], tail), TokensOf(items[k], tailTokens), rest);
    }
  }

  /** A member name and its colon, with white space before them and around the colon. */
  lemma LexesName(before: string, name: string, colon: string, gap: string, text: string, tokens: seq<Token>,
          rest: string)
    requires AllSpaces(before) && AllSpaces(gap) && (colon == ":" + gap || colon == " :" + gap)
    requires tokens != [] && Lexes(text, tokens, rest)
    ensures Lexes(before + (Quote(name) + (colon + text)), [Token(StringToken, Quote(name))] + ([COLON] + tokens), rest)
  {
    hide Lexes, ReadsAs, Quote, AllSpaces;
    LexesColon(colon, gap, text, tokens, rest);
    QuoteReads(name, colon + text);
    LexesCons(before, Quote(name), StringToken, colon + text, [COLON] + tokens, rest);
  }

  lemma LexesColon(colon: string, gap: string, text: string, tokens: seq<Token>, rest: string)
    requires AllSpaces(gap) && (colon == ":" + gap || colon == " :" + gap)
    requires tokens != [] && Lexes(text, tokens, rest)
    ensures Lexes(colon + text, [COLON] + tokens, rest)
  {
    hide Lexes;
    LexesAfterSpaces(gap, text, tokens, rest);
    if colon == ":" + gap {
      LexesPunctuation("", MemberSeparator, ':', gap + text, tokens, rest);
      assert [':'] + (gap + text) == colon + text;
    } else {
      LexesPunctuation(" ", MemberSeparator, ':', gap + text, tokens, rest);
      assert " " + ([':'] + (gap + text)) == colon + text;
    }
  }

  lemma {:induction false} FastMembersLex(yaml: bool, members: seq<Member>, k: nat, text: string,
          tokens: seq<Token>, rest: string)
    requires k <= |members| && (forall i :: 0 <= i < |members| ==> Writable(members[i].value)) && Lexes(text, tokens, rest)
    ensures Lexes(FastMembers(yaml, members, k, text), MemberTokens(members, k, tokens), rest)
    ensures k > 0 ==> Delimited(FastMembers(yaml, members, k, text))
    decreases members, |members| - k
  {
    hide Lexes, ReadsAs, TokensOf, FastText, Quote;
    if k == |members| {
      LexesPunctuation("", ObjectEnd, '}', text, tokens, rest);
    } else {
      var name, value := members[k].name, members[k].value;
      var tail := FastMembers(yaml, members, k + 1, text);
      var tailTokens := MemberTokens(members, k + 1, tokens);
      FastMembersLex(yaml, members, k + 1, text, tokens, rest);
      FastLexes(yaml, value, tail, tailTokens, rest);
      var valueText := FastText(yaml, value, tail);
      LexesName("", name, FastColon(yaml), if yaml then " " else "", valueText, TokensOf(value, tailTokens), rest);
      var nameText := Quote(name) + (FastColon(yaml) + valueText);
      assert "" + nameText == nameText;
      LexesComma(k, nameText, [Token(StringToken, Quote(name))] + ([COLON] + TokensOf(value, tailTokens)), rest);
    }
  }

  // ---- the styled writers ----

  predicate Indentation(style: Style) { AllSpaces(Unit(style)) }

  lemma NewLineIsSpace(indent: string)
    requires AllSpaces(indent)
    ensures AllSpaces("\n" + indent)
  {
  }

  lemma {:induction false} StyledLexes(style: Style, v: Value, indent: string, text: string, tokens: seq<Token>,
          rest: string)
    requires Writable(v) && Delimited(text) && Lexes(text, tokens, rest)
    requires Indentation(style) && AllSpaces(indent)
    ensures Lexes(StyledText(style, v, indent, text), TokensOf(v, tokens), rest)
    decreases v, 0
  {
    hide Lexes, ReadsAs, AllSpaces, IsMultiline, InlineItems, StyledItems, StyledMembers, ItemTokens, MemberTokens,
         Indentation, Delimited;
    LeadIsSpace(style, indent);
    NoTokens(tokens);
    var lead := Lead(style, indent);
    match v
    case Array(items) =>
      if items == [] {
        LexesPair(ArrayBegin, '[', ArrayEnd, ']', text, tokens, rest);
      } else if IsMultiline(items) {
        StyledItemsLex(style, items, 0, indent, text, tokens, rest);
        LexesPunctuation(lead, ArrayBegin, '[', StyledItems(style, items, 0, indent, text), ItemTokens(items, 0, tokens), rest);
      } else {
        OneLineLexes(items, text, tokens, rest);
      }
    case Object(members) =>
      if members == [] {
        LexesPair(ObjectBegin, '{', ObjectEnd, '}', text, tokens, rest);
      } else {
        StyledMembersLex(style, members, 0, indent, text, tokens, rest);
        LexesPunctuation(lead, ObjectBegin, '{', StyledMembers(style, members, 0, indent, text), MemberTokens(members, 0, tokens), rest);
      }
    case _ =>
      LexesScalar(v, text, tokens, rest);
  }

  lemma LeadIsSpace(style: Style, indent: string)
    requires AllSpaces(indent)
    ensures AllSpaces(Lead(style, indent))
  {
  }

  /** The tokens of an empty array or object after its opening bracket. */
  lemma NoTokens(tokens: seq<Token>)
    ensures ItemTokens([], 0, tokens) == [Token(ArrayEnd, "]")] + tokens
    ensures MemberTokens([], 0, tokens) == [Token(ObjectEnd, "}")] + tokens
  {
  }

  /** An array on one line. */
  lemma OneLineLexes(items: seq<Value>, text: string, tokens: seq<Token>, rest: string)
    requires (forall i :: 0 <= i < |items| ==> Writable(items[i])) && !IsMultiline(items)
    requires Lexes(text, tokens, rest)
    ensures AllInline(items)
    ensures Lexes("[ " + InlineItems(items, 0, text), [Token(ArrayBegin, "[")] + ItemTokens(items, 0, tokens), rest)
  {
    hide Lexes, ReadsAs, AllSpaces, IsMultiline, InlineItems, ItemTokens;
    NotMultiline(items);
    InlineItemsLex(items, 0, text, tokens, rest);
    var s := InlineItems(items, 0, text);
    SingleSpace();
    EmptyIsSpace();
    LexesAfterSpaces(" ", s, ItemTokens(items, 0, tokens), rest);
    LexesPunctuation("", ArrayBegin, '[', " " + s, ItemTokens(items, 0, tokens), rest);
    assert ['['] + (" " + s) == "[ " + s;
  }

  lemma EmptyIsSpace()
    ensures AllSpaces("")
  {
  }

  lemma SingleSpace()
    ensures AllSpaces(" ")
  {
  }

  lemma NotMultiline(items: seq<Value>)
    requires forall i :: 0 <= i < |items| ==> Writable(items[i])
    requires !IsMultiline(items)
    ensures AllInline(items)
  {
  }

  /** An empty array or object. */
  lemma LexesPair(open: TokenType, o: char, close: TokenType, c: char, text: string, tokens: seq<Token>, rest: string)
    requires IsPunctuation(open, o) && IsPunctuation(close, c) && Lexes(text, tokens, rest)
    ensures Lexes([o, c] + text, [Token(open, [o])] + ([Token(close, [c])] + tokens), rest)
  {
    hide Lexes, IsPunctuation;
    LexesPunctuation("", close, c, text, tokens, rest);
    LexesPunctuation("", open, o, [c] + text, [Token(close, [c])] + tokens, rest);
    assert [o] + ([c] + text) == [o, c] + text;
  }

  /** An element that fits on one line has the same tokens there. */
  lemma InlineLexes(v: Value, text: string, tokens: seq<Token>, rest: string)
    requires Writable(v) && IsInline(v) && Delimited(text) && Lexes(text, tokens, rest)
    ensures Lexes(InlineText(v) + text, TokensOf(v, tokens), rest)
  {
    hide Lexes, ReadsAs;
    if v.Array? {
      LexesPair(ArrayBegin, '[', ArrayEnd, ']', text, tokens, rest);
    } else if v.Object? {
      LexesPair(ObjectBegin, '{', ObjectEnd, '}', text, tokens, rest);
    } else {
      LexesScalar(v, text, tokens, rest);
    }
  }

  lemma {:induction false} InlineItemsLex(items: seq<Value>, k: nat, text: string, tokens: seq<Token>, rest: string)
    requires k <= |items| && (forall i :: 0 <= i < |items| ==> Writable(items[i]) && IsInline(items[i]))
    requires Lexes(text, tokens, rest)
    ensures Lexes(InlineItems(items, k, text), ItemTokens(items, k, tokens), rest)
    ensures k > 0 ==> Delimited(InlineItems(items, k, text))
    decreases |items| - k
  {
    hide Lexes, TokensOf, InlineText, AfterComma, AllSpaces, Writable;
    if k == |items| {
      SingleSpace();
      LexesPunctuation(" ", ArrayEnd, ']', text, tokens, rest);
      assert " " + ([']'] + text) == " ]" + text;
    } else {
      var tail := InlineItems(items, k + 1, text);
      var tailTokens := ItemTokens(items, k + 1, tokens);
      InlineItemsLex(items, k + 1, text, tokens, rest);
      InlineLexes(items[k], tail, tailTokens, rest);
      InlineComma(k, InlineText(items[k]) + tail, TokensOf(items[k], tailTokens), rest);
    }
  }

  /** The comma and the space before every element of a one-line array but the first. */
  lemma InlineComma(k: nat, text: string, tokens: seq<Token>, rest: string)
    requires tokens != [] && Lexes(text, tokens, rest)
    ensures var s := (if k > 0 then ", " else "") + text;
            Lexes(s, AfterComma(k, tokens), rest) && (k > 0 ==> Delimited(s))
  {
    hide Lexes;
    if k > 0 {
      SingleSpace();
      LexesAfterSpaces(" ", text, tokens, rest);
      LexesComma(k, " " + text, tokens, rest);
      assert "," + (" " + text) == ", " + text;
    } else {
      assert "" + text == text;
    }
  }

  lemma DeeperIndentation(style: Style, indent: string)
    requires Indentation(style) && AllSpaces(indent)
    ensures AllSpaces(indent + Unit(style)) && AllSpaces("\n" + (indent + Unit(style)))
  {
  }

  lemma {:induction false} StyledItemsLex(style: Style, items: seq<Value>, k: nat, indent: string, text: string,
          tokens: seq<Token>, rest: string)
    requires k <= |items| && (forall i :: 0 <= i < |items| ==> Writable(items[i])) && Lexes(text, tokens, rest)
    requires Indentation(style) && AllSpaces(indent)
    ensures Lexes(StyledItems(style, items, k, indent, text), ItemTokens(items, k, tokens), rest)
    ensures k > 0 ==> Delimited(StyledItems(style, items, k, indent, text))
    decreases items, |items| - k
  {
    hide Lexes, ReadsAs, TokensOf, StyledText, AllSpaces;
    if k == |items| {
      NewLineIsSpace(indent);
      LexesPunctuation("\n" + indent, ArrayEnd, ']', text, tokens, rest);
    } else {
      var inner := indent + Unit(style);
      DeeperIndentation(style, indent);
      var tail := StyledItems(style, items, k + 1, indent, text);
      var tailTokens := ItemTokens(items, k + 1, tokens);
      StyledItemsLex(style, items, k + 1, indent, text, tokens, rest);
      StyledLexes(style, items[k], inner, tail, tailTokens, rest);
      var itemText := StyledText(style, items[k], inner, tail);
      LexesAfterSpaces("\n" + inner, itemText, TokensOf(items[k], tailTokens), rest);
      LexesComma(k, ("\n" + inner) + itemText, TokensOf(items[k], tailTokens), rest);
    }
  }

  lemma {:induction false} StyledMembersLex(style: Style, members: seq<Member>, k: nat, indent: string,
          text: string, tokens: seq<Token>, rest: string)
    requires k <= |members| && (forall i :: 0 <= i < |members| ==> Writable(members[i].value)) && Lexes(text, tokens, rest)
    requires Indentation(style) && AllSpaces(indent)
    ensures Lexes(StyledMembers(style, members, k, indent, text), MemberTokens(members, k, tokens), rest)
    ensures k > 0 ==> Delimited(StyledMembers(style, members, k, indent, text))
    decreases members, |members| - k
  {
    hide Lexes, ReadsAs, TokensOf, StyledText, AllSpaces, Quote;
    if k == |members| {
      NewLineIsSpace(indent);
      LexesPunctuation("\n" + indent, ObjectEnd, '}', text, tokens, rest);
    } else {
      var name, value, inner := members[k].name, members[k].value, indent + Unit(style);
      DeeperIndentation(style, indent);
      var tail := StyledMembers(style, members, k + 1, indent, text);
      var tailTokens := MemberTokens(members, k + 1, tokens);
      StyledMembersLex(style, members, k + 1, indent, text, tokens, rest);
      StyledLexes(style, value, inner, tail, tailTokens, rest);
      var valueText := StyledText(style, value, inner, tail);
      SingleSpace();
      LexesName("\n" + inner, name, " : ", " ", valueText, TokensOf(value, tailTokens), rest);
      var nameText := ("\n" + inner) + (Quote(name) + (" : " + valueText));
      LexesComma(k, nameText, [Token(StringToken, Quote(name))] + ([COLON] + TokensOf(value, tailTokens)), rest);
    }
  }
}
