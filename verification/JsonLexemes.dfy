// What readToken makes of every text: each lexeme given by how it is written,
// after any white space and in front of anything that does not continue it.

module JsonLexemes {
  import opened CStrings
  import opened JsonStrings
  import opened JsonTokens

  const WHITE := " \t\r\n"
  const MARKS := "{}[],:"
  const MARK_KINDS := [ObjectBegin, ObjectEnd, ArrayBegin, ArrayEnd, ArraySeparator, MemberSeparator]
  const WORDS := ["true", "false", "null"]
  const WORD_KINDS := [TrueToken, FalseToken, NullToken]
  const FIRST_OF_NUMBER := "-0123456789"
  const IN_NUMBER := "0123456789.eE+-"

  predicate White(s: string) {
    forall k :: 0 <= k < |s| ==> s[k] in WHITE
  }

  /** A character of a string literal, or a backslash and the character after it. */
  datatype Unit = Plain(c: char) | Escape(c: char)

  predicate Inside(us: seq<Unit>) {
    forall k :: 0 <= k < |us| ==> us[k].Plain? ==> us[k].c != '"' && us[k].c != '\\'
  }

  function UnitsThen(us: seq<Unit>, rest: string): string {
    if us == [] then rest
    else if us[0].Plain? then [us[0].c] + UnitsThen(us[1..], rest)
    else ['\\', us[0].c] + UnitsThen(us[1..], rest)
  }

  /** No "*" of the text is followed by "/", in front of what follows it. */
  predicate NoCommentEnd(text: string, next: string) {
    forall k :: 0 <= k < |text| ==> !("*/" <= (text + next)[k..])
  }

  datatype Lexeme =
    | Mark(k: nat)
    | Word(k: nat)
    | Number(text: string)
    | Quoted(units: seq<Unit>)
    | BlockComment(text: string)
    | LineComment(text: string, end: string)
  {
    predicate Spelled() {
      (Mark? ==> k < 6) && (Word? ==> k < 3)
    }

    /** The lexeme ends where rest begins. */
    predicate Before(rest: string) {
      match this
      case Mark(k) => k < 6
      case Word(k) => k < 3
      case Number(text) =>
        && text != "" && text[0] in FIRST_OF_NUMBER
        && (forall k :: 0 <= k < |text| ==> text[k] in IN_NUMBER)
        && (rest == "" || rest[0] !in IN_NUMBER)
      case Quoted(units) => Inside(units)
      case BlockComment(text) => NoCommentEnd(text, "*/")
      case LineComment(text, end) =>
        && (forall k :: 0 <= k < |text| ==> text[k] !in "\r\n")
        && (end == "\r" || end == "\n" || (end == "" && rest == ""))
    }

    function Kind(): TokenType
      requires Spelled()
    {
      match this
      case Mark(k) => MARK_KINDS[k]
      case Word(k) => WORD_KINDS[k]
      case Number(_) => NumberToken
      case Quoted(_) => StringToken
      case BlockComment(_) => Comment
      case LineComment(_, _) => Comment
    }

    /** The lexeme in front of rest. */
    function Then(rest: string): string
      requires Spelled()
    {
      match this
      case Mark(k) => [MARKS[k]] + rest
      case Word(k) => WORDS[k] + rest
      case Number(text) => text + rest
      case Quoted(units) => "\"" + UnitsThen(units, "\"" + rest)
      case BlockComment(text) => "/*" + (text + ("*/" + rest))
      case LineComment(text, end) => "//" + (text + (end + rest))
    }
  }

  lemma WhiteSpace(c: char)
    ensures IsSpace(c) <==> c in WHITE
  {
    assert WHITE[0] == ' ' && WHITE[1] == '\t' && WHITE[2] == '\r' && WHITE[3] == '\n';
  }

  lemma SkipsGap(gap: string, s: string)
    requires White(gap) && (s == "" || s[0] !in WHITE)
    ensures SkipSpaces(gap + s) == s
  {
    forall k | 0 <= k < |gap| ensures IsSpace(gap[k]) {
      WhiteSpace(gap[k]);
    }
    SkipSpacesOf(gap, s);
    if s != "" {
      WhiteSpace(s[0]);
    }
  }

  lemma NumberCharacter(c: char)
    ensures IsNumberChar(c) <==> c in IN_NUMBER
    ensures '0' <= c <= '9' || c == '-' <==> c in FIRST_OF_NUMBER
  {
    if '0' <= c <= '9' {
      assert IN_NUMBER[(c - '0') as int] == c && FIRST_OF_NUMBER[1 + (c - '0') as int] == c;
    }
    assert IN_NUMBER[10..] == ".eE+-" && FIRST_OF_NUMBER[0] == '-';
    assert forall k :: 0 <= k < 10 ==> '0' <= IN_NUMBER[k] <= '9' && FIRST_OF_NUMBER[k + 1] == IN_NUMBER[k];
    assert IN_NUMBER[10] == '.' && IN_NUMBER[11] == 'e' && IN_NUMBER[12] == 'E' && IN_NUMBER[13] == '+' && IN_NUMBER[14] == '-';
  }

  lemma {:induction false} SkipsNumber(text: string, rest: string)
    requires (forall k :: 0 <= k < |text| ==> text[k] in IN_NUMBER) && (rest == "" || rest[0] !in IN_NUMBER)
    ensures SkipNumber(text + rest) == rest
  {
    var s := text + rest;
    if s != "" {
      NumberCharacter(s[0]);
    }
    if text == "" {
      assert s == rest;
    } else {
      SkipsNumber(text[1..], rest);
      assert s[1..] == text[1..] + rest;
    }
  }

  lemma {:induction false} SkipsString(us: seq<Unit>, rest: string)
    requires Inside(us)
    ensures SkipString(UnitsThen(us, "\"" + rest)) == (true, rest)
  {
    hide IsSuffix;
    var s := UnitsThen(us, "\"" + rest);
    if us == [] {
      assert s[1..] == rest;
    } else {
      var tail := UnitsThen(us[1..], "\"" + rest);
      SkipsString(us[1..], rest);
      if us[0].Plain? {
        assert s[1..] == tail;
      } else {
        assert s[2..] == tail && |tail| > 0;
      }
    }
  }

  lemma {:induction false} SkipsBlock(text: string, rest: string)
    requires NoCommentEnd(text, "*/")
    ensures SkipCStyleComment(text + ("*/" + rest)) == (true, rest)
  {
    hide IsSuffix;
    var s := text + ("*/" + rest);
    var t := text + "*/";
    if text == "" {
      assert s[0] == '*' && s[1] == '/' && s[2..] == rest;
    } else {
      assert t[0..] == t && t[0] == s[0] && t[1] == s[1];
      assert s[1..] == text[1..] + ("*/" + rest);
      forall k | 0 <= k < |text| - 1 ensures !("*/" <= (text[1..] + "*/")[k..]) {
        assert (text[1..] + "*/")[k..] == t[k + 1..];
      }
      SkipsBlock(text[1..], rest);
    }
  }

  lemma {:induction false} SkipsLine(text: string, end: string, rest: string)
    requires LineComment(text, end).Before(rest)
    ensures SkipCppStyleComment(text + (end + rest)) == rest
  {
    hide IsSuffix;
    var s := text + (end + rest);
    if text == "" {
      assert s == end + rest && (end != "" ==> s[0] == end[0] && s[1..] == rest);
    } else {
      assert text[0] != "\r\n"[0] && text[0] != "\r\n"[1];
      assert s[1..] == text[1..] + (end + rest);
      SkipsLine(text[1..], end, rest);
    }
  }

  lemma ReadsAs(gap: string, s: string)
    requires White(gap) && s != "" && s[0] !in WHITE
    ensures var r := Classify(s[0], s[1..]);
            ReadToken(gap + s) == JsonTokens.Scan(if r.1 then r.0 else ErrorToken, s, r.2)
  {
    hide Classify, IsSuffix, SkipSpaces;
    SkipsGap(gap, s);
  }

  /** What the switch of readToken makes of s. */
  predicate Classified(s: string, kind: TokenType, rest: string) {
    s != "" && s[0] !in WHITE && Classify(s[0], s[1..]) == (kind, true, rest)
  }

  lemma MarkClassified(k: nat, rest: string)
    requires k < 6
    ensures Classified([MARKS[k]] + rest, MARK_KINDS[k], rest)
  {
    hide SkipString, SkipComment, SkipNumber, Match;
    var s := [MARKS[k]] + rest;
    assert s[0] == MARKS[k] && s[1..] == rest;
  }

  lemma WordClassified(k: nat, rest: string)
    requires k < 3
    ensures Classified(WORDS[k] + rest, WORD_KINDS[k], rest)
  {
    hide SkipString, SkipComment, SkipNumber;
    var w := WORDS[k];
    var s := w + rest;
    assert s[0] == w[0] && s[1..] == w[1..] + rest;
    assert (w[1..] + rest)[|w| - 1..] == rest;
  }

  lemma NumberStart(c: char, rest: string)
    requires '0' <= c <= '9' || c == '-'
    ensures c !in WHITE && Classify(c, rest) == (NumberToken, true, SkipNumber(rest))
  {
    hide SkipString, SkipComment, SkipNumber, Match;
  }

  lemma NumberClassified(text: string, rest: string)
    requires Number(text).Before(rest)
    ensures Classified(text + rest, NumberToken, rest)
  {
    hide Classify, SkipNumber, IsNumberChar;
    var s := text + rest;
    NumberCharacter(text[0]);
    assert s[0] == text[0] && s[1..] == text[1..] + rest;
    NumberStart(s[0], s[1..]);
    SkipsNumber(text[1..], rest);
  }

  lemma QuotedClassified(us: seq<Unit>, rest: string)
    requires Inside(us)
    ensures Classified("\"" + UnitsThen(us, "\"" + rest), StringToken, rest)
  {
    hide SkipString, SkipComment, SkipNumber, Match;
    SkipsString(us, rest);
    assert ("\"" + UnitsThen(us, "\"" + rest))[1..] == UnitsThen(us, "\"" + rest);
  }

  lemma CommentClassified(s: string, rest: string)
    requires s != "" && SkipComment(s) == (true, rest)
    ensures Classified("/" + s, Comment, rest)
  {
    hide SkipString, SkipComment, SkipNumber, Match;
    assert ("/" + s)[1..] == s;
  }

  lemma CommentSkipped(l: Lexeme, rest: string)
    requires (l.BlockComment? || l.LineComment?) && l.Before(rest)
    ensures l.Then(rest) != "" && l.Then(rest)[1..] != ""
    ensures SkipComment(l.Then(rest)[1..]) == (true, rest)
  {
    hide SkipCStyleComment, SkipCppStyleComment, IsSuffix;
    var s := l.Then(rest)[1..];
    if l.BlockComment? {
      SkipsBlock(l.text, rest);
      assert s[1..] == l.text + ("*/" + rest);
    } else {
      SkipsLine(l.text, l.end, rest);
      assert s[1..] == l.text + (l.end + rest);
    }
  }

  lemma LexemeClassified(l: Lexeme, rest: string)
    requires l.Before(rest)
    ensures Classified(l.Then(rest), l.Kind(), rest)
  {
    hide Classified, SkipComment;
    match l
    case Mark(k) => MarkClassified(k, rest);
    case Word(k) => WordClassified(k, rest);
    case Number(text) => NumberClassified(text, rest);
    case Quoted(units) => QuotedClassified(units, rest);
    case _ =>
      CommentSkipped(l, rest);
      CommentClassified(l.Then(rest)[1..], rest);
      assert l.Then(rest) == "/" + l.Then(rest)[1..];
  }

  /** Every lexeme is read as the token of its kind, up to its end. */
  lemma LexemeReads(gap: string, l: Lexeme, rest: string)
    requires White(gap) && l.Before(rest)
    ensures ReadToken(gap + l.Then(rest)) == JsonTokens.Scan(l.Kind(), l.Then(rest), rest)
  {
    hide ReadToken, Classify, Lexeme.Then, Lexeme.Kind, White;
    LexemeClassified(l, rest);
    ReadsAs(gap, l.Then(rest));
  }

  lemma ThenText(l: Lexeme, rest: string)
    requires l.Spelled()
    ensures l.Then(rest) == l.Then("") + rest
  {
    match l
    case Mark(k) =>
    case Word(k) => assert WORDS[k] + "" == WORDS[k];
    case Number(text) => assert text + "" == text;
    case Quoted(units) =>
      assert "\"" + "" == "\"";
      UnitsText(units, "\"", rest);
    case BlockComment(text) => assert ("/*" + (text + ("*/" + ""))) + rest == "/*" + (text + ("*/" + rest));
    case LineComment(text, end) => assert ("//" + (text + (end + ""))) + rest == "//" + (text + (end + rest));
  }

  lemma {:induction false} UnitsText(us: seq<Unit>, s: string, rest: string)
    ensures UnitsThen(us, s + rest) == UnitsThen(us, s) + rest
  {
    if us != [] {
      UnitsText(us[1..], s, rest);
    }
  }

  // ---- texts that are no lexeme ----

  datatype Fault =
    | Stray(c: char, tail: string)
    | Misspelt(k: nat, tail: string)
    | OpenString(units: seq<Unit>, backslash: bool)
    | LoneSlash(tail: string)
    | OpenComment(text: string)
  {
    ghost predicate Valid() {
      match this
      case Stray(c, tail) => c !in WHITE && c !in MARKS && c !in FIRST_OF_NUMBER && c !in "\"/tfn" && c != NUL
      case Misspelt(k, tail) => k < 3 && !(WORDS[k][1..] <= tail)
      case OpenString(units, backslash) => Inside(units)
      case LoneSlash(tail) => tail == "" || tail[0] !in "*/"
      case OpenComment(text) => NoCommentEnd(text, "")
    }

    function Text(): string
      requires Misspelt? ==> k < 3
    {
      match this
      case Stray(c, tail) => [c] + tail
      case Misspelt(k, tail) => [WORDS[k][0]] + tail
      case OpenString(units, backslash) => "\"" + UnitsThen(units, if backslash then "\\" else "")
      case LoneSlash(tail) => "/" + tail
      case OpenComment(text) => "/*" + text
    }

    /** A misspelt word costs one character, a slash two, and what is never closed the rest of the document. */
    function Unread(): string {
      match this
      case Stray(c, tail) => tail
      case Misspelt(k, tail) => tail
      case OpenString(_, _) => ""
      case LoneSlash(tail) => if tail == "" then "" else tail[1..]
      case OpenComment(_) => ""
    }
  }

  lemma {:induction false} NeverClosed(us: seq<Unit>, backslash: bool)
    requires Inside(us)
    ensures SkipString(UnitsThen(us, if backslash then "\\" else "")) == (false, "")
  {
    hide IsSuffix;
    var end := if backslash then "\\" else "";
    if us != [] {
      var s, tail := UnitsThen(us, end), UnitsThen(us[1..], end);
      NeverClosed(us[1..], backslash);
      if us[0].Plain? {
        assert s[1..] == tail;
      } else {
        assert s[2..] == tail;
      }
    }
  }

  lemma {:induction false} CommentNeverClosed(text: string)
    requires NoCommentEnd(text, "")
    ensures SkipCStyleComment(text) == (false, "")
  {
    hide IsSuffix;
    assert text + "" == text;
    if text != "" {
      assert text[0..] == text;
      forall k | 0 <= k < |text| - 1 ensures !("*/" <= (text[1..] + "")[k..]) {
        assert (text[1..] + "")[k..] == text[k + 1..];
      }
      CommentNeverClosed(text[1..]);
    }
  }

  lemma StrayFails(c: char, rest: string)
    requires Stray(c, rest).Valid()
    ensures Classify(c, rest) == (ErrorToken, false, rest)
  {
    hide SkipString, SkipComment, SkipNumber, Match;
    NumberCharacter(c);
    assert c != "\"/tfn"[0] && c != "\"/tfn"[1] && c != "\"/tfn"[2] && c != "\"/tfn"[3] && c != "\"/tfn"[4];
    assert forall k :: 0 <= k < 6 ==> MARKS[k] != c;
  }

  lemma FaultClassified(f: Fault)
    requires f.Valid()
    ensures var s := f.Text(); s != "" && s[0] !in WHITE && !Classify(s[0], s[1..]).1 && Classify(s[0], s[1..]).2 == f.Unread()
  {
    hide SkipString, SkipCStyleComment, SkipCppStyleComment, SkipNumber, IsSuffix;
    var s := f.Text();
    match f
    case Stray(c, tail) =>
      StrayFails(c, tail);
      assert s[1..] == tail;
    case Misspelt(k, tail) =>
      assert s[1..] == tail;
    case OpenString(units, backslash) =>
      NeverClosed(units, backslash);
      assert s[1..] == UnitsThen(units, if backslash then "\\" else "");
    case LoneSlash(tail) =>
      assert s[1..] == tail;
      assert tail != "" ==> tail[0] != "*/"[0] && tail[0] != "*/"[1];
    case OpenComment(text) =>
      CommentNeverClosed(text);
      assert s[1..] == "*" + text && s[1..][1..] == text;
  }

  /** What is no lexeme is read as an error token. */
  lemma FaultReads(gap: string, f: Fault)
    requires White(gap) && f.Valid()
    ensures ReadToken(gap + f.Text()) == JsonTokens.Scan(ErrorToken, f.Text(), f.Unread())
  {
    hide ReadToken, Classify, Fault.Text, Fault.Unread, White, NoCommentEnd, Inside;
    FaultClassified(f);
    ReadsAs(gap, f.Text());
  }

  /** At the end, and at a NUL inside the document, the stream ends. */
  lemma EndReads(gap: string, tail: string)
    requires White(gap)
    ensures ReadToken(gap) == JsonTokens.Scan(EndOfStream, "", "")
    ensures ReadToken(gap + ([NUL] + tail)) == JsonTokens.Scan(EndOfStream, [NUL] + tail, tail)
  {
    hide SkipSpaces, IsSuffix, Classify, White;
    SkipsGap(gap, "");
    assert gap + "" == gap;
    SkipsGap(gap, [NUL] + tail);
    ClassifyEnd(tail);
    assert ([NUL] + tail)[1..] == tail;
  }

  // ---- the loops over tokens ----

  /** Comments are passed over up to the first other token. */
  lemma {:induction false} CommentsPassed(s: string, comments: seq<Token>, rest: string)
    requires Lexes(s, comments, rest) && forall k :: 0 <= k < |comments| ==> comments[k].kind == Comment
    ensures ReadPastComments(s) == ReadPastComments(rest)
    ensures ReadToken(rest).kind != Comment ==> ReadPastComments(s) == ReadToken(rest)
  {
    hide ReadToken;
    if comments != [] {
      CommentsPassed(ReadToken(s).rest, comments[1..], rest);
    }
  }

  /** Recovery drops every token up to and including the first of the wanted kind, or the end. */
  lemma {:induction false} RecoverDrops(s: string, dropped: seq<Token>, rest: string, until: TokenType)
    requires dropped != [] && Lexes(s, dropped, rest)
    requires forall k :: 0 <= k < |dropped| - 1 ==> dropped[k].kind != until && dropped[k].kind != EndOfStream
    requires dropped[|dropped| - 1].kind == until || dropped[|dropped| - 1].kind == EndOfStream
    ensures Recover(s, until) == rest
  {
    hide ReadToken;
    if |dropped| > 1 {
      RecoverDrops(ReadToken(s).rest, dropped[1..], rest, until);
    }
  }
}
