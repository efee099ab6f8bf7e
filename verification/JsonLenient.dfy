// What the reader does not reject: the tokens it accepts in place of a comma.

module JsonLenient {
  import opened CStrings
  import opened JsonValue
  import opened JsonStrings
  import opened JsonTokens
  import opened JsonParse
  import opened JsonText
  import opened JsonLexing
  import opened JsonRoundTrip

  /** What stands between two elements: any comments and then one other token. */
  datatype Gap = Gap(comments: seq<Token>, token: Token) {
    ghost predicate Valid() {
      !token.kind.Comment? && forall k :: 0 <= k < |comments| ==> comments[k].kind.Comment?
    }

    function Tokens(more: seq<Token>): seq<Token> { comments + ([token] + more) }
  }

  ghost predicate Gaps(gaps: seq<Gap>, elements: nat) {
    |gaps| + 1 == elements && forall k :: 0 <= k < |gaps| ==> gaps[k].Valid()
  }

  lemma {:induction false} PastComments(s: string, comments: seq<Token>, token: Token, more: seq<Token>, rest: string)
    requires Gap(comments, token).Valid() && Lexes(s, comments + ([token] + more), rest)
    ensures var t := ReadPastComments(s);
            t.kind == token.kind && t.Text() == token.text && Lexes(t.rest, more, rest)
  {
    hide ReadToken;
    if comments == [] {
      assert comments + ([token] + more) == [token] + more;
      assert ([token] + more)[1..] == more;
    } else {
      assert (comments + ([token] + more))[1..] == comments[1..] + ([token] + more);
      PastComments(ReadToken(s).rest, comments[1..], token, more, rest);
    }
  }

  // ---- arrays ----

  /** The tokens of an array from element k on, with gap k after element k. */
  function LooseItems(items: seq<Value>, gaps: seq<Gap>, k: nat, tokens: seq<Token>): seq<Token>
    requires k < |items| == |gaps| + 1 && Writable(Array(items))
    decreases |items| - k
  {
    TokensOf(items[k], AfterItem(items, gaps, k, tokens))
  }

  function AfterItem(items: seq<Value>, gaps: seq<Gap>, k: nat, tokens: seq<Token>): seq<Token>
    requires k < |items| == |gaps| + 1 && Writable(Array(items))
    decreases |items| - k, 0
  {
    if k == |gaps| then [Token(ArrayEnd, "]")] + tokens
    else gaps[k].Tokens(LooseItems(items, gaps, k + 1, tokens))
  }

  predicate Plain(f: Features, v: Value) { Writable(v) && WellFormed(v) && InRange(f, v) }

  /** No gap from gap k on closes the array. */
  predicate StaysOpen(gaps: seq<Gap>, k: nat) {
    forall i :: k <= i < |gaps| ==> !gaps[i].token.kind.ArrayEnd?
  }

  lemma StaysOpenFrom(gaps: seq<Gap>, k: nat)
    requires k <= |gaps|
    ensures StaysOpen(gaps, k) <==> k == |gaps| || (!gaps[k].token.kind.ArrayEnd? && StaysOpen(gaps, k + 1))
  {
  }

  lemma NormItemsFrom(done: seq<Value>, items: seq<Value>, k: nat)
    requires k < |items|
    ensures done + NormItems(items, k) == done + [Norm(items[k])] + NormItems(items, k + 1)
    ensures NormItems(items, |items|) == []
  {
    hide Norm;
  }

  lemma ItemFacts(f: Features, items: seq<Value>, gaps: seq<Gap>, k: nat, tokens: seq<Token>)
    requires k < |items| == |gaps| + 1 && Plain(f, Array(items))
    ensures Writable(Array(items)) && Plain(f, items[k]) && Writable(items[k])
    ensures LooseItems(items, gaps, k, tokens) == TokensOf(items[k], AfterItem(items, gaps, k, tokens))
  {
    hide TokensOf, AfterItem;
  }

  lemma ItemReads(f: Features, n: nat, s: string, previous: Value, v: Value, tokens: seq<Token>, rest: string)
    requires Plain(f, v) && Lexes(s, TokensOf(v, tokens), rest)
    ensures var r := ReadValue(f, n, s, previous);
            r.ok && r.value == Norm(v) && Lexes(r.rest, tokens, rest)
  {
    hide Lexes, TokensOf, ReadValue, Norm, Back, Writable, WellFormed, InRange;
    ReadsBack(f, n, s, previous, v, tokens, rest);
    BackIsNorm(f, v);
  }

  lemma {:induction false} LooseItemsRead(f: Features, n: nat, s: string, done: seq<Value>, items: seq<Value>,
          gaps: seq<Gap>, k: nat, tokens: seq<Token>, rest: string)
    requires Gaps(gaps, |items|) && k < |items| && Plain(f, Array(items))
    requires Lexes(s, LooseItems(items, gaps, k, tokens), rest)
    ensures var r := ReadItems(f, n, s, done);
            && r.ok && r.value.Array?
            && if StaysOpen(gaps, k) then r.value == Array(done + NormItems(items, k)) && Lexes(r.rest, tokens, rest)
               else |r.value.items| < |done| + |items| - k
    decreases |items| - k
  {
    hide Lexes, ReadToken, ReadPastComments, Recover, IsSuffix, TokensOf, ReadValue, Norm, Plain, LooseItems;
    hide Writable, NormItems, StaysOpen;
    ItemFacts(f, items, gaps, k, tokens);
    StaysOpenFrom(gaps, k);
    NormItemsFrom(done, items, k);
    ItemReads(f, n, s, Null, items[k], AfterItem(items, gaps, k, tokens), rest);
    var item := ReadValue(f, n, s, Null);
    var done' := done + [item.value];
    if k == |gaps| {
      HeadToken(f, item.rest, Token(ArrayEnd, "]"), tokens, rest);
    } else {
      var more := LooseItems(items, gaps, k + 1, tokens);
      PastComments(item.rest, gaps[k].comments, gaps[k].token, more, rest);
      if !gaps[k].token.kind.ArrayEnd? {
        LooseItemsRead(f, n, ReadPastComments(item.rest).rest, done', items, gaps, k + 1, tokens, rest);
      }
    }
  }

  /**
   * readArray rejects no separator: an array with any tokens between its
   * elements is read as the array of all of them exactly when none of those
   * tokens, comments aside, is ']'.
   */
  lemma AnySeparatorInArray(f: Features, n: nat, s: string, items: seq<Value>, gaps: seq<Gap>,
          tokens: seq<Token>, rest: string)
    requires Gaps(gaps, |items|) && Plain(f, Array(items))
    requires Lexes(s, LooseItems(items, gaps, 0, tokens), rest)
    ensures var r := ReadArray(f, n, s);
            && (r.ok && r.value == Array(NormItems(items, 0)) <==> StaysOpen(gaps, 0))
            && (StaysOpen(gaps, 0) ==> Lexes(r.rest, tokens, rest))
  {
    hide Lexes, ReadToken, SkipSpaces, IsSuffix, TokensOf, ReadItems;
    ArrayEndAhead(s, LooseItems(items, gaps, 0, tokens), rest);
    FirstTokenOf(items[0], AfterItem(items, gaps, 0, tokens));
    LooseItemsRead(f, n, SkipSpaces(s), [], items, gaps, 0, tokens, rest);
    assert [] + NormItems(items, 0) == NormItems(items, 0);
  }

  // ---- objects ----

  /** The tokens of an object from member k on, with gap k after member k. */
  function LooseMembers(members: seq<Member>, gaps: seq<Gap>, k: nat, tokens: seq<Token>): seq<Token>
    requires k < |members| == |gaps| + 1 && Writable(Object(members))
    decreases |members| - k
  {
    [Token(StringToken, Quote(members[k].name))]
    + ([COLON] + TokensOf(members[k].value, AfterMember(members, gaps, k, tokens)))
  }

  function AfterMember(members: seq<Member>, gaps: seq<Gap>, k: nat, tokens: seq<Token>): seq<Token>
    requires k < |members| == |gaps| + 1 && Writable(Object(members))
    decreases |members| - k, 0
  {
    if k == |gaps| then [Token(ObjectEnd, "}")] + tokens
    else gaps[k].Tokens(LooseMembers(members, gaps, k + 1, tokens))
  }

  /** A comma, or after a comment anything but a brace. */
  predicate Separates(gap: Gap) {
    if gap.comments == [] then gap.token.kind.ArraySeparator? else !gap.token.kind.ObjectEnd?
  }

  predicate AllSeparate(gaps: seq<Gap>, k: nat) {
    forall i :: k <= i < |gaps| ==> Separates(gaps[i])
  }

  lemma GapReads(n: nat, s: string, gap: Gap, more: seq<Token>, rest: string)
    requires gap.Valid() && Lexes(s, gap.Tokens(more), rest)
    ensures var r := ReadTrailer(n, s);
            (r.More? <==> Separates(gap)) && (r.More? ==> Lexes(r.rest, more, rest))
  {
    hide Lexes, ReadToken, ReadPastComments, Recover, IsSuffix;
    FirstOf(s, gap.Tokens(more), rest);
    if gap.comments == [] {
      assert gap.Tokens(more) == [gap.token] + more;
      assert ([gap.token] + more)[1..] == more;
    } else {
      assert gap.Tokens(more)[1..] == gap.comments[1..] + ([gap.token] + more);
      PastComments(ReadToken(s).rest, gap.comments[1..], gap.token, more, rest);
    }
  }

  lemma FirstOf(s: string, tokens: seq<Token>, rest: string)
    requires tokens != [] && Lexes(s, tokens, rest)
    ensures ReadToken(s).kind == tokens[0].kind && Lexes(ReadToken(s).rest, tokens[1..], rest)
  {
    hide ReadToken;
  }

  /** What reading from member k on gives when every gap separates, and that it gives less otherwise. */
  ghost predicate ReadLoose(r: Outcome, done: seq<Member>, members: seq<Member>, gaps: seq<Gap>, k: nat,
          tokens: seq<Token>, rest: string)
    requires k <= |members|
  {
    && r.value.Object?
    && if AllSeparate(gaps, k) then
         r.ok && r.value == Object(done + NormMembers(members, k)) && Lexes(r.rest, tokens, rest)
       else !r.ok || |r.value.members| < |members|
  }

  lemma {:induction false} LooseMembersRead(f: Features, n: nat, s: string, name: string, done: seq<Member>,
          members: seq<Member>, gaps: seq<Gap>, k: nat, tokens: seq<Token>, rest: string)
    requires Gaps(gaps, |members|) && k < |members| && Plain(f, Object(members))
    requires |done| == k && forall i :: 0 <= i < k ==> done[i].name == members[i].name
    requires Lexes(s, LooseMembers(members, gaps, k, tokens), rest)
    ensures ReadLoose(ReadMembers(f, n, s, name, done), done, members, gaps, k, tokens, rest)
    decreases |members| - k
  {
    hide Lexes, ReadHeader, IsSuffix, TokensOf, ReadMemberValue, Quote, AfterMember, NulFree, StrLess;
    hide ReadTrailer, Norm, Separates, Writable, LooseMembers, ReadLoose, Plain, Gaps, Gap.Tokens, Gap.Valid;
    MemberTokensFact(f, members, gaps, k, tokens);
    var key := members[k].name;
    HeaderReads(f, n, s, name, key, TokensOf(members[k].value, AfterMember(members, gaps, k, tokens)), rest);
    var s' := MemberRead(f, n, ReadHeader(n, s, name).rest, done, members, k,
                         AfterMember(members, gaps, k, tokens), rest);
    var done' := done + [Member(key, Norm(members[k].value))];
    var r := ReadMembers(f, n, s, name, done);
    if k == |gaps| {
      TrailerReads(n, s', f, Token(ObjectEnd, "}"), tokens, rest);
      LooseEnd(r, done, members, gaps, tokens, rest);
    } else {
      GapReads(n, s', gaps[k], LooseMembers(members, gaps, k + 1, tokens), rest);
      if Separates(gaps[k]) {
        LooseMembersRead(f, n, ReadTrailer(n, s').rest, key, done', members, gaps, k + 1, tokens, rest);
        LooseStep(r, done, members, gaps, k, tokens, rest);
      } else {
        LooseStop(r, done, members, gaps, k, tokens, rest);
      }
    }
  }

  lemma LooseStep(r: Outcome, done: seq<Member>, members: seq<Member>, gaps: seq<Gap>, k: nat, tokens: seq<Token>,
          rest: string)
    requires k < |gaps| < |members| && Separates(gaps[k])
    requires ReadLoose(r, done + [Member(members[k].name, Norm(members[k].value))], members, gaps, k + 1, tokens, rest)
    ensures ReadLoose(r, done, members, gaps, k, tokens, rest)
  {
    hide Norm, Lexes, Separates;
    assert done + NormMembers(members, k)
        == done + [Member(members[k].name, Norm(members[k].value))] + NormMembers(members, k + 1);
  }

  lemma LooseStop(r: Outcome, done: seq<Member>, members: seq<Member>, gaps: seq<Gap>, k: nat, tokens: seq<Token>,
          rest: string)
    requires |done| == k < |gaps| && |members| == |gaps| + 1 && !Separates(gaps[k])
    requires r.value == Object(done + [Member(members[k].name, Norm(members[k].value))])
    ensures ReadLoose(r, done, members, gaps, k, tokens, rest)
  {
    hide Norm, Lexes, Separates, NormMembers;
  }

  lemma LooseEnd(r: Outcome, done: seq<Member>, members: seq<Member>, gaps: seq<Gap>, tokens: seq<Token>, rest: string)
    requires |members| == |gaps| + 1
    requires var m := members[|gaps|];
             r.ok && r.value == Object(done + [Member(m.name, Norm(m.value))]) && Lexes(r.rest, tokens, rest)
    ensures ReadLoose(r, done, members, gaps, |gaps|, tokens, rest)
  {
    hide Norm, Lexes, Separates;
    assert NormMembers(members, |members|) == [];
  }

  lemma MemberTokensFact(f: Features, members: seq<Member>, gaps: seq<Gap>, k: nat, tokens: seq<Token>)
    requires k < |members| && Gaps(gaps, |members|) && Plain(f, Object(members))
    ensures |members| == |gaps| + 1 && Writable(Object(members))
    ensures Writable(members[k].value) && NulFree(members[k].name) && (k < |gaps| ==> gaps[k].Valid())
    ensures LooseMembers(members, gaps, k, tokens)
         == [Token(StringToken, Quote(members[k].name))]
            + ([COLON] + TokensOf(members[k].value, AfterMember(members, gaps, k, tokens)))
    ensures AfterMember(members, gaps, k, tokens)
         == if k == |gaps| then [Token(ObjectEnd, "}")] + tokens
            else gaps[k].Tokens(LooseMembers(members, gaps, k + 1, tokens))
  {
    hide TokensOf, Quote, NulFree;
  }

  /** readObject from the colon after the name of member k, up to what follows its value. */
  lemma MemberRead(f: Features, n: nat, s: string, done: seq<Member>, members: seq<Member>, k: nat,
          after: seq<Token>, rest: string) returns (s': string)
    requires k < |members| && Plain(f, Object(members)) && Writable(members[k].value)
    requires |done| == k && forall i :: 0 <= i < k ==> done[i].name == members[i].name
    requires Lexes(s, TokensOf(members[k].value, after), rest)
    ensures Lexes(s', after, rest)
    ensures var r := ReadMemberValue(f, n, s, members[k].name, done);
            var done' := done + [Member(members[k].name, Norm(members[k].value))];
            var t := ReadTrailer(n, s');
            && (t.BadTrailer? ==> !r.ok && r.value == Object(done'))
            && (t.End? ==> r == Outcome(true, Object(done'), t.rest, []))
            && (t.More? ==> r == ReadMembers(f, n, t.rest, members[k].name, done'))
  {
    hide Lexes, ReadTrailer, Recover, IsSuffix, TokensOf, ReadValue, Norm, CStr, Put, Find, ReadMembers;
    hide NulFree, StrLess, WellFormed;
    MemberFacts(members, done, k);
    var key, value := members[k].name, members[k].value;
    CStrNulFree(key);
    ItemReads(f, n, s, Slot(done, key), value, after, rest);
    PutLast(done, key, Norm(value));
    s' := ReadValue(f, n, s, Slot(done, key)).rest;
  }

  /**
   * readObject accepts any token but '}' after a comment: an object is read
   * with all its members exactly when each gap is a comma or starts with a
   * comment and does not end in '}'.
   */
  lemma AnySeparatorAfterComment(f: Features, n: nat, s: string, members: seq<Member>, gaps: seq<Gap>,
          tokens: seq<Token>, rest: string)
    requires Gaps(gaps, |members|) && Plain(f, Object(members))
    requires Lexes(s, LooseMembers(members, gaps, 0, tokens), rest)
    ensures var r := ReadObject(f, n, s);
            && (r.ok && r.value == Object(NormMembers(members, 0)) <==> AllSeparate(gaps, 0))
            && (AllSeparate(gaps, 0) ==> Lexes(r.rest, tokens, rest))
  {
    hide Lexes, ReadMembers, IsSuffix, Separates, Plain;
    LooseMembersRead(f, n, s, "", [], members, gaps, 0, tokens, rest);
    assert [] + NormMembers(members, 0) == NormMembers(members, 0);
  }

  // ---- two documents ----

  lemma PlainPair(f: Features, a: Value, b: Value)
    requires Plain(f, a) && Plain(f, b)
    ensures Plain(f, Array([a, b]))
  {
  }

  /** A colon for a comma: [a:b] parses as [a,b]. */
  lemma ColonInArray(f: Features, a: Value, b: Value, root: Value)
    requires Plain(f, a) && Plain(f, b)
    ensures var r := Parse(f, "[" + FastText(false, a, ":" + FastText(false, b, "]")), root);
            r.ok && r.value == Array([Norm(a), Norm(b)])
  {
    hide Lexes, ReadToken, IsSuffix, TokensOf, FastText, ReadArray, Norm, InRange, WellFormed, Writable,
             ReadPastComments;
    var items, gaps := [a, b], [Gap([], COLON)];
    PlainPair(f, a, b);
    EndsWith(ArrayEnd, ']', b);
    var last, lastTokens := FastText(false, b, "]"), LooseItems(items, gaps, 1, []);
    assert AfterItem(items, gaps, 1, []) == [Token(ArrayEnd, "]")] + [];
    LexesPunctuation("", MemberSeparator, ':', last, lastTokens, "");
    assert gaps[0].Tokens(lastTokens) == [COLON] + lastTokens;
    FastLexes(false, a, ":" + last, gaps[0].Tokens(lastTokens), "");
    var first, tokens := FastText(false, a, ":" + last), LooseItems(items, gaps, 0, []);
    assert AfterItem(items, gaps, 0, []) == gaps[0].Tokens(lastTokens);
    LexesPunctuation("", ArrayBegin, '[', first, tokens, "");
    HeadToken(f, "[" + first, Token(ArrayBegin, "["), tokens, "");
    AnySeparatorInArray(f, |"[" + first|, ReadToken("[" + first).rest, items, gaps, [], "");
    assert NormItems(items, 0) == [Norm(a), Norm(b)];
  }

  /** The last element and the closing bracket. */
  lemma EndsWith(kind: TokenType, c: char, v: Value)
    requires (kind.ArrayEnd? && c == ']') || (kind.ObjectEnd? && c == '}')
    requires Writable(v)
    ensures Lexes(FastText(false, v, [c]), TokensOf(v, [Token(kind, [c])] + []), "")
  {
    hide Lexes, ReadToken, TokensOf, FastText;
    NothingLexes("");
    LexesPunctuation("", kind, c, "", [], "");
    assert [c] + "" == [c];
    FastLexes(false, v, [c], [Token(kind, [c])] + [], "");
  }

  lemma CommentReads(rest: string)
    ensures ReadsAs("/**/", Comment, rest)
  {
    hide ReadToken, SkipCppStyleComment, SkipNumber, SkipString;
    var tail := "**/" + rest;
    assert tail[1..][0] == '*' && tail[1..][1] == '/' && tail[1..][2..] == rest;
    assert Classify('/', tail) == (Comment, true, rest);
    ReadsFrom('/', tail, Comment, rest);
    assert "/**/" + rest == ['/'] + tail;
  }

  /** A member in front of a text. */
  function NameAnd(name: string, text: string): string { Quote(name) + (":" + text) }

  lemma NameLexes(name: string, text: string, tokens: seq<Token>, rest: string)
    requires tokens != [] && Lexes(text, tokens, rest)
    ensures Lexes(NameAnd(name, text), [Token(StringToken, Quote(name))] + ([COLON] + tokens), rest)
  {
    hide Lexes, Quote;
    LexesName("", name, ":", "", text, tokens, rest);
    assert "" + (Quote(name) + (":" + text)) == Quote(name) + (":" + text);
  }

  lemma CommentAndColon(text: string, tokens: seq<Token>, rest: string)
    requires Lexes(text, tokens, rest)
    ensures Lexes("/**/" + (":" + text), [Token(Comment, "/**/")] + ([COLON] + tokens), rest)
    ensures Delimited("/**/" + (":" + text))
  {
    hide Lexes, ReadsAs;
    CommentReads(":" + text);
    LexesPunctuation("", MemberSeparator, ':', text, tokens, rest);
    LexesCons("", "/**/", Comment, ":" + text, [COLON] + tokens, rest);
    assert "" + ("/**/" + (":" + text)) == "/**/" + (":" + text);
  }

  /** A comment and a colon for a comma: the object with the members k and l comes back. */
  lemma ColonAfterComment(f: Features, k: string, a: Value, l: string, b: Value, root: Value)
    requires Plain(f, a) && Plain(f, b) && Plain(f, Object([Member(k, a), Member(l, b)]))
    ensures var last := NameAnd(l, FastText(false, b, "}"));
            var r := Parse(f, "{" + NameAnd(k, FastText(false, a, "/**/" + (":" + last))), root);
            r.ok && r.value == Object([Member(k, Norm(a)), Member(l, Norm(b))])
  {
    hide Lexes, ReadToken, IsSuffix, TokensOf, FastText, ReadObject, Norm, InRange, WellFormed, Writable,
             ReadPastComments, NameAnd, Quote, Delimited;
    var end := [Token(ObjectEnd, "}")] + [];
    var members, gaps := [Member(k, a), Member(l, b)], [Gap([Token(Comment, "/**/")], COLON)];
    EndsWith(ObjectEnd, '}', b);
    NameLexes(l, FastText(false, b, "}"), TokensOf(b, end), "");
    var last := NameAnd(l, FastText(false, b, "}"));
    var lastTokens := LooseMembers(members, gaps, 1, []);
    assert AfterMember(members, gaps, 1, []) == end;
    CommentAndColon(last, lastTokens, "");
    assert gaps[0].Tokens(lastTokens) == [Token(Comment, "/**/")] + ([COLON] + lastTokens);
    FastLexes(false, a, "/**/" + (":" + last), gaps[0].Tokens(lastTokens), "");
    var first := FastText(false, a, "/**/" + (":" + last));
    NameLexes(k, first, TokensOf(a, gaps[0].Tokens(lastTokens)), "");
    var tokens := LooseMembers(members, gaps, 0, []);
    assert AfterMember(members, gaps, 0, []) == gaps[0].Tokens(lastTokens);
    LexesPunctuation("", ObjectBegin, '{', NameAnd(k, first), tokens, "");
    var document := "{" + NameAnd(k, first);
    HeadToken(f, document, Token(ObjectBegin, "{"), tokens, "");
    AnySeparatorAfterComment(f, |document|, ReadToken(document).rest, members, gaps, [], "");
    assert NormMembers(members, 0) == [Member(k, Norm(a)), Member(l, Norm(b))];
  }
}
