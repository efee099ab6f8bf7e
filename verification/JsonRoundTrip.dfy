// Reading back what the writers write.

module JsonRoundTrip {
  import opened CStrings
  import opened JsonValue
  import opened JsonNumbers
  import opened JsonDoubles
  import opened JsonStrings
  import opened JsonTokens
  import opened JsonParse
  import opened JsonText
  import opened JsonLexing

  // ---- what comes back ----

  /** The value equal to v in which unsigned integers that fit an Int are Ints. */
  function Norm(v: Value): Value
    decreases v, 0
  {
    match v
    case UInt(u) => if u <= MAX_INT then Int(u) else v
    case Array(items) => Array(NormItems(items, 0))
    case Object(members) => Object(NormMembers(members, 0))
    case _ => v
  }

  function NormItems(items: seq<Value>, k: nat): (r: seq<Value>)
    requires k <= |items|
    ensures |r| == |items| - k
    decreases items, |items| - k
  {
    if k == |items| then [] else [Norm(items[k])] + NormItems(items, k + 1)
  }

  function NormMembers(members: seq<Member>, k: nat): (r: seq<Member>)
    requires k <= |members|
    ensures |r| == |members| - k
    decreases members, |members| - k
  {
    if k == |members| then []
    else [Member(members[k].name, Norm(members[k].value))] + NormMembers(members, k + 1)
  }

  /**
   * All integers are in the range decodeNumber handles without decodeDouble,
   * and sscanf reads from the text of a double that double.
   */
  predicate InRange(f: Features, v: Value) {
    match v
    case Int(i) => -2147483639 <= i
    case UInt(u) => u <= 4294967289
    case Real(r) => f.scanDouble(DoubleText(r)) == Some(r)
    case Array(items) => forall k :: 0 <= k < |items| ==> InRange(f, items[k])
    case Object(members) => forall k :: 0 <= k < |members| ==> InRange(f, members[k].value)
    case _ => true
  }

  /** What reading the text of v gives: the other integers go through scanDouble. */
  function Back(f: Features, v: Value): Option<Value>
    requires Writable(v)
    decreases v, 0
  {
    match v
    case Int(i) => DecodeNumber(f, IntText(i))
    case UInt(u) => DecodeNumber(f, Decimal(u))
    case Real(r) => DecodeNumber(f, DoubleText(r))
    case Array(items) =>
      (match BackItems(f, items, 0)
       case None => None
       case Some(r) => Some(Array(r)))
    case Object(members) =>
      (match BackMembers(f, members, 0)
       case None => None
       case Some(r) => Some(Object(r)))
    case _ => Some(v)
  }

  function BackItems(f: Features, items: seq<Value>, k: nat): Option<seq<Value>>
    requires k <= |items| && forall i :: 0 <= i < |items| ==> Writable(items[i])
    decreases items, |items| - k
  {
    if k == |items| then Some([]) else
    match Back(f, items[k])
    case None => None
    case Some(item) =>
      match BackItems(f, items, k + 1)
      case None => None
      case Some(r) => Some([item] + r)
  }

  function BackMembers(f: Features, members: seq<Member>, k: nat): Option<seq<Member>>
    requires k <= |members| && forall i :: 0 <= i < |members| ==> Writable(members[i].value)
    decreases members, |members| - k
  {
    if k == |members| then Some([]) else
    match Back(f, members[k].value)
    case None => None
    case Some(value) =>
      match BackMembers(f, members, k + 1)
      case None => None
      case Some(r) => Some([Member(members[k].name, value)] + r)
  }

  lemma SameCons<T>(x: T, xs: seq<T>, y: T, ys: seq<T>)
    ensures [x] + xs == [y] + ys <==> x == y && xs == ys
  {
    if [x] + xs == [y] + ys {
      assert ([x] + xs)[0] == x && ([x] + xs)[1..] == xs;
      assert ([y] + ys)[0] == y && ([y] + ys)[1..] == ys;
    }
  }

  lemma {:induction false} BackIsNorm(f: Features, v: Value)
    requires Writable(v)
    ensures Back(f, v) == Some(Norm(v)) <==> InRange(f, v)
    decreases v, 0
  {
    match v
    case Int(i) => NumberRoundTrip(i);
    case UInt(u) => NumberRoundTrip(u);
    case Real(r) => DoubleBranch(r);
    case Array(items) => BackItemsIsNorm(f, items, 0);
    case Object(members) => BackMembersIsNorm(f, members, 0);
    case _ =>
  }

  lemma {:induction false} BackItemsIsNorm(f: Features, items: seq<Value>, k: nat)
    requires k <= |items| && forall i :: 0 <= i < |items| ==> Writable(items[i])
    ensures BackItems(f, items, k) == Some(NormItems(items, k)) <==> forall i :: k <= i < |items| ==> InRange(f, items[i])
    decreases items, |items| - k
  {
    if k < |items| {
      BackIsNorm(f, items[k]);
      BackItemsIsNorm(f, items, k + 1);
      hide Back, Norm, InRange;
      var head, tail := Back(f, items[k]), BackItems(f, items, k + 1);
      if head.Some? && tail.Some? {
        SameCons(head.value, tail.value, Norm(items[k]), NormItems(items, k + 1));
      }
    }
  }

  lemma {:induction false} BackMembersIsNorm(f: Features, members: seq<Member>, k: nat)
    requires k <= |members| && forall i :: 0 <= i < |members| ==> Writable(members[i].value)
    ensures BackMembers(f, members, k) == Some(NormMembers(members, k)) <==>
            forall i :: k <= i < |members| ==> InRange(f, members[i].value)
    decreases members, |members| - k
  {
    if k < |members| {
      BackIsNorm(f, members[k].value);
      BackMembersIsNorm(f, members, k + 1);
      hide Back, Norm, InRange;
      var head, tail := Back(f, members[k].value), BackMembers(f, members, k + 1);
      if head.Some? && tail.Some? {
        var name := members[k].name;
        SameCons(Member(name, head.value), tail.value, Member(name, Norm(members[k].value)), NormMembers(members, k + 1));
      }
    }
  }

  // ---- the parser on a given token sequence ----

  lemma HeadToken(f: Features, s: string, token: Token, tokens: seq<Token>, rest: string)
    requires Lexes(s, [token] + tokens, rest) && !token.kind.Comment?
    ensures var t := ReadToken(s);
            && t.kind == token.kind && t.Text() == token.text && Lexes(t.rest, tokens, rest)
            && ReadPastComments(s) == t && SkipCommentTokens(f, s) == t
  {
    hide ReadToken;
    assert ([token] + tokens)[1..] == tokens;
  }

  lemma ArrayEndAhead(s: string, tokens: seq<Token>, rest: string)
    requires tokens != [] && Lexes(s, tokens, rest)
    ensures At(SkipSpaces(s), 0) == ']' <==> tokens[0].kind.ArrayEnd?
    ensures Lexes(SkipSpaces(s), tokens, rest)
  {
    hide IsSuffix, SkipString, SkipComment, SkipNumber, Match;
    var start := SkipSpaces(s);
    assert SkipSpaces(start) == start;
    assert ReadToken(start) == ReadToken(s);
  }

  /** Any text that lexes as the tokens of v is read as Back(v), and reading stops after them. */
  lemma {:induction false} ReadsBack(f: Features, n: nat, s: string, previous: Value, v: Value, tokens: seq<Token>,
          rest: string)
    requires Writable(v) && WellFormed(v) && Lexes(s, TokensOf(v, tokens), rest)
    ensures var r := ReadValue(f, n, s, previous);
            && r.ok == Back(f, v).Some?
            && (r.ok ==> r.value == Back(f, v).value && Lexes(r.rest, tokens, rest))
    decreases v, 0
  {
    hide Lexes, ReadToken, ReadPastComments, SkipCommentTokens, IsSuffix, Recover;
    hide ItemTokens, MemberTokens, BackItems, BackMembers, ReadArray, ReadObject, DecodeNumber, DecodeBody, CStr;
    match v
    case Array(items) =>
      HeadToken(f, s, Token(ArrayBegin, "["), ItemTokens(items, 0, tokens), rest);
      ItemsReadBack(f, n, ReadToken(s).rest, items, tokens, rest);
    case Object(members) =>
      HeadToken(f, s, Token(ObjectBegin, "{"), MemberTokens(members, 0, tokens), rest);
      ObjectReadsBack(f, n, ReadToken(s).rest, members, tokens, rest);
    case _ =>
      ScalarReadsBack(f, n, s, previous, v, tokens, rest);
  }

  lemma ScalarReadsBack(f: Features, n: nat, s: string, previous: Value, v: Value, tokens: seq<Token>, rest: string)
    requires Writable(v) && WellFormed(v) && IsScalar(v)
    requires Lexes(s, [Token(ScalarKind(v), ScalarText(v))] + tokens, rest)
    ensures var r := ReadValue(f, n, s, previous);
            && r.ok == Back(f, v).Some?
            && (r.ok ==> r.value == Back(f, v).value && Lexes(r.rest, tokens, rest))
  {
    hide Lexes, ReadToken, ReadPastComments, SkipCommentTokens, IsSuffix, Recover, ReadArray, ReadObject,
             DecodeBody, CStr;
    hide DecodeNumber, IntText, Decimal, Quote;
    HeadToken(f, s, Token(ScalarKind(v), ScalarText(v)), tokens, rest);
    if v.Str? {
      QuotedBody(ReadToken(s), v.s);
      EscapeRoundTrip(v.s);
      CStrNulFree(v.s);
    }
  }

  lemma QuotedBody(t: Scan, text: string)
    requires |t.rest| <= |t.start| && t.Text() == Quote(text)
    ensures |t.start| - |t.rest| >= 2 && Body(t) == Escape(text)
  {
    hide Escape;
    assert |Quote(text)| == |Escape(text)| + 2;
    assert Quote(text)[1..|Escape(text)| + 1] == Escape(text);
  }

  lemma {:induction false} ItemsReadBack(f: Features, n: nat, s: string, items: seq<Value>, tokens: seq<Token>,
          rest: string)
    requires forall i :: 0 <= i < |items| ==> Writable(items[i]) && WellFormed(items[i])
    requires Lexes(s, ItemTokens(items, 0, tokens), rest)
    ensures var r := ReadArray(f, n, s);
            && r.ok == BackItems(f, items, 0).Some?
            && (r.ok ==> r.value == Array(BackItems(f, items, 0).value) && Lexes(r.rest, tokens, rest))
    decreases items, |items| + 1
  {
    hide Lexes, ReadToken, SkipSpaces, IsSuffix, TokensOf;
    ArrayEndAhead(s, ItemTokens(items, 0, tokens), rest);
    var inner := SkipSpaces(s);
    if items == [] {
      HeadToken(f, inner, Token(ArrayEnd, "]"), tokens, rest);
    } else {
      hide ReadItems, BackItems;
      FirstTokenOf(items[0], ItemTokens(items, 1, tokens));
      ItemLoop(f, n, inner, [], items, 0, tokens, rest);
    }
  }

  lemma FirstTokenOf(v: Value, more: seq<Token>)
    requires Writable(v)
    ensures !TokensOf(v, more)[0].kind.ArrayEnd?
  {
  }

  lemma {:induction false} ItemLoop(f: Features, n: nat, s: string, done: seq<Value>, items: seq<Value>, k: nat,
          tokens: seq<Token>, rest: string)
    requires k < |items| && forall i :: 0 <= i < |items| ==> Writable(items[i]) && WellFormed(items[i])
    requires Lexes(s, TokensOf(items[k], ItemTokens(items, k + 1, tokens)), rest)
    ensures var r := ReadItems(f, n, s, done);
            && r.ok == BackItems(f, items, k).Some?
            && (r.ok ==> r.value == Array(done + BackItems(f, items, k).value) && Lexes(r.rest, tokens, rest))
    decreases items, |items| - k
  {
    hide Lexes, ReadToken, ReadPastComments, Recover, IsSuffix, TokensOf, ReadValue, Back;
    ReadsBack(f, n, s, Null, items[k], ItemTokens(items, k + 1, tokens), rest);
    var item := ReadValue(f, n, s, Null);
    if item.ok {
      var done' := done + [item.value];
      if k + 1 == |items| {
        HeadToken(f, item.rest, Token(ArrayEnd, "]"), tokens, rest);
        assert BackItems(f, items, k + 1) == Some([]);
        assert done' == done + ([item.value] + []);
      } else {
        var more := TokensOf(items[k + 1], ItemTokens(items, k + 2, tokens));
        HeadToken(f, item.rest, COMMA, more, rest);
        ItemLoop(f, n, ReadToken(item.rest).rest, done', items, k + 1, tokens, rest);
        var tail := BackItems(f, items, k + 1);
        if tail.Some? {
          assert done' + tail.value == done + ([item.value] + tail.value);
        }
      }
    }
  }

  lemma {:induction false} ObjectReadsBack(f: Features, n: nat, s: string, members: seq<Member>,
          tokens: seq<Token>, rest: string)
    requires WellFormed(Object(members)) && Writable(Object(members))
    requires Lexes(s, MemberTokens(members, 0, tokens), rest)
    ensures var r := ReadObject(f, n, s);
            && r.ok == BackMembers(f, members, 0).Some?
            && (r.ok ==> r.value == Object(BackMembers(f, members, 0).value) && Lexes(r.rest, tokens, rest))
    decreases members, |members| + 1
  {
    hide Lexes, ReadMembers, BackMembers, TokensOf, IsSuffix;
    MembersReadBack(f, n, s, "", [], members, 0, tokens, rest);
  }

  /** From member k on; for k > 0 the comma has already been read. */
  lemma {:induction false} MembersReadBack(f: Features, n: nat, s: string, name: string, done: seq<Member>,
          members: seq<Member>, k: nat, tokens: seq<Token>, rest: string)
    requires k <= |members| && WellFormed(Object(members)) && Writable(Object(members))
    requires k == |members| ==> k == 0 && name == ""
    requires |done| == k && forall i :: 0 <= i < k ==> done[i].name == members[i].name
    requires Lexes(s, if k == |members| then [Token(ObjectEnd, "}")] + tokens
                      else [Token(StringToken, Quote(members[k].name))]
                           + ([COLON] + TokensOf(members[k].value, MemberTokens(members, k + 1, tokens))), rest)
    ensures var r := ReadMembers(f, n, s, name, done);
            && r.ok == BackMembers(f, members, k).Some?
            && (r.ok ==> r.value == Object(done + BackMembers(f, members, k).value) && Lexes(r.rest, tokens, rest))
    decreases members, |members| - k
  {
    hide Lexes, ReadToken, ReadPastComments, Recover, IsSuffix, TokensOf, ReadValue, Back, DecodeBody, CStr, Put, Find;
    if k == |members| {
      HeadToken(f, s, Token(ObjectEnd, "}"), tokens, rest);
      assert done + [] == done;
    } else {
      var key, value := members[k].name, members[k].value;
      var valueTokens := TokensOf(value, MemberTokens(members, k + 1, tokens));
      HeaderReads(f, n, s, name, key, valueTokens, rest);
      var s' := ReadHeader(n, s, name).rest;
      hide ReadHeader;
      MemberReadsBack(f, n, s', done, members, k, tokens, rest);
    }
  }

  lemma HeaderReads(f: Features, n: nat, s: string, name: string, key: string, tokens: seq<Token>, rest: string)
    requires NulFree(key)
    requires Lexes(s, [Token(StringToken, Quote(key))] + ([COLON] + tokens), rest)
    ensures var h := ReadHeader(n, s, name);
            h.Named? && h.name == key && Lexes(h.rest, tokens, rest)
  {
    hide Lexes, ReadToken, ReadPastComments, IsSuffix, Recover, DecodeBody, Quote;
    HeadToken(f, s, Token(StringToken, Quote(key)), [COLON] + tokens, rest);
    var t := ReadToken(s);
    QuotedBody(t, key);
    EscapeRoundTrip(key);
    HeadToken(f, t.rest, COLON, tokens, rest);
  }

  lemma MemberFacts(members: seq<Member>, done: seq<Member>, k: nat)
    requires k < |members| && WellFormed(Object(members)) && Writable(Object(members))
    requires |done| == k && forall i :: 0 <= i < k ==> done[i].name == members[i].name
    ensures NulFree(members[k].name) && WellFormed(members[k].value) && Writable(members[k].value)
    ensures forall i :: 0 <= i < k ==> StrLess(done[i].name, members[k].name)
  {
  }

  lemma TrailerReads(n: nat, s: string, f: Features, token: Token, tokens: seq<Token>, rest: string)
    requires token == Token(ObjectEnd, "}") || token == COMMA
    requires Lexes(s, [token] + tokens, rest)
    ensures var r := ReadTrailer(n, s);
            Lexes(r.rest, tokens, rest) && if token == COMMA then r.More? else r.End?
  {
    hide Lexes, ReadToken, ReadPastComments, IsSuffix, Recover;
    HeadToken(f, s, token, tokens, rest);
  }

  /** A member's value and the comma or brace after it. */
  lemma {:induction false} MemberReadsBack(f: Features, n: nat, s: string, done: seq<Member>, members: seq<Member>,
          k: nat, tokens: seq<Token>, rest: string)
    requires k < |members| && WellFormed(Object(members)) && Writable(Object(members))
    requires |done| == k && forall i :: 0 <= i < k ==> done[i].name == members[i].name
    requires Lexes(s, TokensOf(members[k].value, MemberTokens(members, k + 1, tokens)), rest)
    ensures var r := ReadMemberValue(f, n, s, members[k].name, done);
            && r.ok == BackMembers(f, members, k).Some?
            && (r.ok ==> r.value == Object(done + BackMembers(f, members, k).value) && Lexes(r.rest, tokens, rest))
    decreases members, |members| - k, 1
  {
    hide Lexes, ReadTrailer, Recover, IsSuffix, TokensOf, ReadValue, Back, CStr, Put, Find, ReadMembers;
    hide NulFree, StrLess, WellFormed;
    MemberFacts(members, done, k);
    var key, value := members[k].name, members[k].value;
    CStrNulFree(key);
    ReadsBack(f, n, s, Slot(done, key), value, MemberTokens(members, k + 1, tokens), rest);
    var member := ReadValue(f, n, s, Slot(done, key));
    PutLast(done, key, member.value);
    if member.ok {
      var m := Member(key, member.value);
      if k + 1 == |members| {
        TrailerReads(n, member.rest, f, Token(ObjectEnd, "}"), tokens, rest);
        assert BackMembers(f, members, k + 1) == Some([]);
        assert done + [m] == done + ([m] + []);
      } else {
        MoreReadsBack(f, n, member.rest, done, m, members, k, tokens, rest);
      }
    }
  }

  /** After a member that is not the last: the comma and the other members. */
  lemma {:induction false} MoreReadsBack(f: Features, n: nat, s: string, done: seq<Member>, m: Member,
          members: seq<Member>, k: nat, tokens: seq<Token>, rest: string)
    requires k + 1 < |members| && WellFormed(Object(members)) && Writable(Object(members))
    requires |done| == k && (forall i :: 0 <= i < k ==> done[i].name == members[i].name) && m.name == members[k].name
    requires Lexes(s, MemberTokens(members, k + 1, tokens), rest)
    ensures var t := ReadTrailer(n, s);
            var r := ReadMembers(f, n, t.rest, m.name, done + [m]);
            var tail := BackMembers(f, members, k + 1);
            && t.More? && r.ok == tail.Some?
            && (r.ok ==> r.value == Object(done + ([m] + tail.value)) && Lexes(r.rest, tokens, rest))
    decreases members, |members| - k, 0
  {
    hide Lexes, ReadTrailer, Recover, IsSuffix, TokensOf, ReadValue, Back, CStr, Put, Find, ReadMembers;
    hide NulFree, StrLess, WellFormed;
    var more := TokensOf(members[k + 1].value, MemberTokens(members, k + 2, tokens));
    var nameTokens := [Token(StringToken, Quote(members[k + 1].name))] + ([COLON] + more);
    TrailerReads(n, s, f, COMMA, nameTokens, rest);
    MembersReadBack(f, n, ReadTrailer(n, s).rest, m.name, done + [m], members, k + 1, tokens, rest);
    var tail := BackMembers(f, members, k + 1);
    if tail.Some? {
      assert done + [m] + tail.value == done + ([m] + tail.value);
    }
  }

  // ---- the main results ----

  /** Reader::parse on any document that lexes as the tokens of v. */
  lemma ParseLexed(f: Features, document: string, root: Value, v: Value, rest: string)
    requires Writable(v) && WellFormed(v) && Lexes(document, TokensOf(v, []), rest)
    ensures var r := Parse(f, document, root);
            r.ok && r.value == Norm(v) <==>
            InRange(f, v) && (!f.strictRoot || v.IsArray() || v.IsObject())
  {
    hide Lexes, SkipCommentTokens, ReadValue, TokensOf, InRange, IsSuffix, Back;
    var n := |document|;
    ReadsBack(f, n, document, root, v, [], rest);
    BackIsNorm(f, v);
    RootKind(v);
  }

  lemma RootKind(v: Value)
    ensures Norm(v).IsArray() == v.IsArray() && Norm(v).IsObject() == v.IsObject()
  {
  }

  /**
   * The text of FastWriter parses back to the value exactly when every integer
   * in it is in range and, in strict mode, it is an array, an object or null.
   */
  lemma FastRoundTrip(f: Features, yaml: bool, v: Value, root: Value)
    requires Writable(v) && WellFormed(v)
    ensures var r := Parse(f, FastText(yaml, v, "\n"), root);
            r.ok && r.value == Norm(v) <==>
            InRange(f, v) && (!f.strictRoot || v.IsArray() || v.IsObject())
  {
    hide FastText, TokensOf, Parse, InRange, WellFormed, Writable;
    NothingLexes("\n");
    FastLexes(yaml, v, "\n", [], "\n");
    ParseLexed(f, FastText(yaml, v, "\n"), root, v, "\n");
  }

  lemma NothingLexes(s: string)
    ensures Lexes(s, [], s)
  {
  }

  /** The same for StyledWriter and, with a white-space indentation, StyledStreamWriter. */
  lemma StyledRoundTrip(f: Features, style: Style, v: Value, root: Value)
    requires Writable(v) && WellFormed(v) && Indentation(style)
    ensures var r := Parse(f, StyledText(style, v, "", "\n"), root);
            r.ok && r.value == Norm(v) <==>
            InRange(f, v) && (!f.strictRoot || v.IsArray() || v.IsObject())
  {
    hide StyledText, TokensOf, Parse, InRange, WellFormed, Writable;
    NothingLexes("\n");
    StyledLexes(style, v, "", "\n", [], "\n");
    ParseLexed(f, StyledText(style, v, "", "\n"), root, v, "\n");
  }

  /** All writers emit the same tokens for a value. */
  lemma SameTokens(yaml: bool, style: Style, v: Value)
    requires Writable(v) && Indentation(style)
    ensures Lexes(FastText(yaml, v, "\n"), TokensOf(v, []), "\n")
    ensures Lexes(StyledText(style, v, "", "\n"), TokensOf(v, []), "\n")
  {
    hide FastText, StyledText, TokensOf, Writable;
    NothingLexes("\n");
    FastLexes(yaml, v, "\n", [], "\n");
    StyledLexes(style, v, "", "\n", [], "\n");
  }
}
