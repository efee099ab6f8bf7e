// The tokenizer of Json::Reader, on the unread part of the document. Reading
// past the end yields NUL, as the terminator of the C string does.

module JsonTokens {
  import opened CStrings
  import opened JsonStrings

  datatype TokenType =
    | EndOfStream
    | ObjectBegin
    | ObjectEnd
    | ArrayBegin
    | ArrayEnd
    | StringToken
    | NumberToken
    | TrueToken
    | FalseToken
    | NullToken
    | ArraySeparator
    | MemberSeparator
    | Comment
    | ErrorToken

  /** A token: its type, the document from its first character, the document after it. */
  datatype Scan = Scan(kind: TokenType, start: string, rest: string) {
    function Text(): string
      requires |rest| <= |start|
    {
      start[..|start| - |rest|]
    }
  }

  predicate IsSuffix(rest: string, s: string) {
    |rest| <= |s| && rest == s[|s| - |rest|..]
  }

  lemma SuffixTransitive(a: string, b: string, c: string)
    requires IsSuffix(a, b) && IsSuffix(b, c)
    ensures IsSuffix(a, c) && |a| <= |b| <= |c|
  {
    assert a == c[|c| - |b|..][|b| - |a|..];
  }

  predicate IsSpace(c: char) { c == ' ' || c == '\t' || c == '\r' || c == '\n' }

  predicate IsNumberChar(c: char) { '0' <= c <= '9' || c == '.' || c == 'e' || c == 'E' || c == '+' || c == '-' }

  function SkipSpaces(s: string): (r: string)
    ensures IsSuffix(r, s) && |r| <= |s|
    ensures r == "" || !IsSpace(r[0])
  {
    if s != "" && IsSpace(s[0]) then SkipSpaces(s[1..]) else s
  }

  function SkipNumber(s: string): (r: string)
    ensures IsSuffix(r, s)
  {
    if s != "" && IsNumberChar(s[0]) then SkipNumber(s[1..]) else s
  }

  /** readString after the opening quote: was a closing quote found, and what follows. */
  function SkipString(s: string): (r: (bool, string))
    ensures IsSuffix(r.1, s)
    ensures r.0 ==> |r.1| < |s| && s[|s| - |r.1| - 1] == '"'
  {
    if s == "" then (false, s)
    else if s[0] == '\\' then
      if |s| == 1 then (false, s[1..]) else SkipString(s[2..])
    else if s[0] == '"' then (true, s[1..])
    else SkipString(s[1..])
  }

  /** readCStyleComment. */
  function SkipCStyleComment(s: string): (r: (bool, string))
    ensures IsSuffix(r.1, s)
  {
    if s == "" then (false, s)
    else if s[0] == '*' && At(s, 1) == '/' then (true, s[2..])
    else SkipCStyleComment(s[1..])
  }

  /** readCppStyleComment. */
  function SkipCppStyleComment(s: string): (r: string)
    ensures IsSuffix(r, s)
  {
    if s == "" then s
    else if s[0] == '\r' || s[0] == '\n' then s[1..]
    else SkipCppStyleComment(s[1..])
  }

  /** readComment after the '/'. */
  function SkipComment(s: string): (r: (bool, string))
    ensures IsSuffix(r.1, s)
  {
    if s == "" then (false, s)
    else if s[0] == '*' then SkipCStyleComment(s[1..])
    else if s[0] == '/' then (true, SkipCppStyleComment(s[1..]))
    else (false, s[1..])
  }

  function Match(s: string, pattern: string): (r: (bool, string))
    ensures IsSuffix(r.1, s)
  {
    if pattern <= s then (true, s[|pattern|..]) else (false, s)
  }

  /** The token that starts with c, `rest` being what follows c. */
  function Classify(c: char, rest: string): (r: (TokenType, bool, string))
    ensures IsSuffix(r.2, rest)
  {
    if c == '{' then (ObjectBegin, true, rest)
    else if c == '}' then (ObjectEnd, true, rest)
    else if c == '[' then (ArrayBegin, true, rest)
    else if c == ']' then (ArrayEnd, true, rest)
    else if c == '"' then var r := SkipString(rest); (StringToken, r.0, r.1)
    else if c == '/' then var r := SkipComment(rest); (Comment, r.0, r.1)
    else if '0' <= c <= '9' || c == '-' then (NumberToken, true, SkipNumber(rest))
    else if c == 't' then var r := Match(rest, "rue"); (TrueToken, r.0, r.1)
    else if c == 'f' then var r := Match(rest, "alse"); (FalseToken, r.0, r.1)
    else if c == 'n' then var r := Match(rest, "ull"); (NullToken, r.0, r.1)
    else if c == ',' then (ArraySeparator, true, rest)
    else if c == ':' then (MemberSeparator, true, rest)
    else if c == NUL then (EndOfStream, true, rest)
    else (ErrorToken, false, rest)
  }

  /**
   * readToken: every token except the end of the stream consumes input. The
   * flag it returns is always true, so only the token is modelled.
   */
  function ReadToken(s: string): (t: Scan)
    ensures IsSuffix(t.start, s) && IsSuffix(t.rest, t.start) && IsSuffix(t.rest, s)
    ensures |t.rest| <= |t.start| <= |s|
    ensures !t.kind.EndOfStream? ==> |t.rest| < |t.start| <= |s|
    ensures |t.rest| == |s| ==> s == ""
    ensures t.kind.StringToken? ==> |t.start| - |t.rest| >= 2
  {
    var start := SkipSpaces(s);
    if start == "" then Scan(EndOfStream, start, start)
    else
      var r := Classify(start[0], start[1..]);
      assert start[1..] == start[|start| - |start[1..]|..];
      SuffixTransitive(r.2, start[1..], start);
      SuffixTransitive(r.2, start, s);
      Scan(if r.1 then r.0 else ErrorToken, start, r.2)
  }

  lemma ClassifyEnd(s: string)
    ensures Classify(NUL, s) == (EndOfStream, true, s)
  {
  }

  lemma ClassifiedEnd(c: char, s: string)
    ensures Classify(c, s).0.EndOfStream? <==> c == NUL
  {
    hide IsSuffix, SkipString, SkipComment, SkipNumber, Match;
  }

  /**
   * The end of the stream is reported where nothing but white space is left,
   * and also at a NUL inside the document, behind which reading goes on.
   */
  lemma EndOfStreamAt(s: string)
    ensures var start := SkipSpaces(s);
            var t := ReadToken(s);
            && (t.kind.EndOfStream? <==> start == "" || start[0] == NUL)
            && (t.kind.EndOfStream? ==> t.rest == if start == "" then "" else start[1..])
  {
    var start := SkipSpaces(s);
    if start != "" {
      ClassifyEnd(start[1..]);
      ClassifiedEnd(start[0], start[1..]);
    }
    hide IsSuffix, Classify;
  }

  /** Read tokens until one is not a comment. */
  function ReadPastComments(s: string): (t: Scan)
    ensures IsSuffix(t.start, s) && IsSuffix(t.rest, t.start) && IsSuffix(t.rest, s)
    ensures |t.rest| <= |t.start| <= |s|
    ensures !t.kind.Comment?
    ensures !t.kind.EndOfStream? ==> |t.rest| < |t.start| <= |s|
    ensures |t.rest| == |s| ==> s == ""
    ensures t.kind.StringToken? ==> |t.start| - |t.rest| >= 2
  {
    var t := ReadToken(s);
    if t.kind.Comment? then
      var r := ReadPastComments(t.rest);
      SuffixTransitive(r.start, t.rest, s);
      SuffixTransitive(r.rest, t.rest, s);
      r
    else t
  }

  /** recoverFromError: read tokens up to one of the given type or the end. */
  function Recover(s: string, until: TokenType): (rest: string)
    ensures IsSuffix(rest, s) && |rest| <= |s|
  {
    var t := ReadToken(s);
    if t.kind == until || t.kind.EndOfStream? then t.rest
    else
      var r := Recover(t.rest, until);
      SuffixTransitive(r, t.rest, s);
      r
  }

  // ---- token sequences ----

  datatype Token = Token(kind: TokenType, text: string)

  /** Reading |tokens| tokens from s yields exactly these and leaves rest. */
  ghost predicate Lexes(s: string, tokens: seq<Token>, rest: string) {
    if tokens == [] then s == rest
    else
      var t := ReadToken(s);
      t.kind == tokens[0].kind && t.Text() == tokens[0].text && Lexes(t.rest, tokens[1..], rest)
  }

  lemma {:induction false} LexesAppend(s: string, first: seq<Token>, middle: string, second: seq<Token>, rest: string)
    requires Lexes(s, first, middle) && Lexes(middle, second, rest)
    ensures Lexes(s, first + second, rest)
  {
    hide ReadToken;
    if first == [] {
      assert first + second == second;
    } else {
      LexesAppend(ReadToken(s).rest, first[1..], middle, second, rest);
      assert (first + second)[1..] == first[1..] + second;
    }
  }

  predicate AllSpaces(s: string) { forall k :: 0 <= k < |s| ==> IsSpace(s[k]) }

  lemma {:induction false} SkipSpacesOf(spaces: string, s: string)
    requires AllSpaces(spaces)
    ensures SkipSpaces(spaces + s) == SkipSpaces(s)
  {
    if spaces == "" {
      assert spaces + s == s;
    } else {
      SkipSpacesOf(spaces[1..], s);
      assert (spaces + s)[1..] == spaces[1..] + s;
    }
  }

  /** White space before a token changes nothing. */
  lemma LexesAfterSpaces(spaces: string, s: string, tokens: seq<Token>, rest: string)
    requires AllSpaces(spaces) && tokens != [] && Lexes(s, tokens, rest)
    ensures Lexes(spaces + s, tokens, rest)
  {
    SkipSpacesOf(spaces, s);
  }
}
