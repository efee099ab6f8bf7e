// Reading every document of the grammar of RFC 8259, with comments: members in
// any order and with duplicate names, numbers and strings in any spelling.

module JsonGrammar {
  import opened CStrings
  import opened JsonValue
  import opened JsonNumbers
  import opened JsonStrings
  import opened JsonTokens
  import L = JsonLexemes
  import opened JsonParse

  /** A document as it is written; a leaf is the token of a literal, and a name the text of a string token. */
  datatype Doc = Leaf(token: Token) | List(items: seq<Doc>) | Record(entries: seq<Entry>)
  datatype Entry = Entry(name: string, value: Doc)

  /** A token, and whether it may have comments in front of it. */
  datatype Expected = Expected(kind: TokenType, text: string, commented: bool)

  /** Reading from s gives exactly these tokens, apart from comments, and leaves rest. */
  ghost predicate Reads(comments: bool, s: string, es: seq<Expected>, rest: string)
    decreases |es|
  {
    if es == [] then s == rest
    else
      var t := if comments && es[0].commented then ReadPastComments(s) else ReadToken(s);
      t.kind == es[0].kind && t.Text() == es[0].text && Reads(comments, t.rest, es[1..], rest)
  }

  predicate IsLiteral(kind: TokenType) {
    kind in {NumberToken, StringToken, TrueToken, FalseToken, NullToken}
  }

  predicate Proper(d: Doc) {
    match d
    case Leaf(token) => IsLiteral(token.kind)
    case List(items) => forall k :: 0 <= k < |items| ==> Proper(items[k])
    case Record(entries) => forall k :: 0 <= k < |entries| ==> Proper(entries[k].value)
  }

  /** The tokens of d, followed by `more`. No comment may stand before a colon or inside "[]". */
  function Tokens(d: Doc, more: seq<Expected>): (r: seq<Expected>)
    ensures r != []
    decreases d, 0
  {
    match d
    case Leaf(token) => [Expected(token.kind, token.text, true)] + more
    case List(items) => [Expected(ArrayBegin, "[", true)] + ItemTokens(items, 0, more)
    case Record(entries) => [Expected(ObjectBegin, "{", true)] + EntryTokens(entries, 0, more)
  }

  function ItemTokens(items: seq<Doc>, k: nat, more: seq<Expected>): (r: seq<Expected>)
    requires k <= |items|
    ensures r != []
    decreases items, |items| - k
  {
    if k == |items| then [Expected(ArrayEnd, "]", k > 0)] + more
    else Separated(k, Tokens(items[k], ItemTokens(items, k + 1, more)))
  }

  function EntryTokens(entries: seq<Entry>, k: nat, more: seq<Expected>): (r: seq<Expected>)
    requires k <= |entries|
    ensures r != []
    decreases entries, |entries| - k
  {
    if k == |entries| then [Expected(ObjectEnd, "}", true)] + more
    else Separated(k, EntryFrom(entries, k, more))
  }

  function EntryFrom(entries: seq<Entry>, k: nat, more: seq<Expected>): (r: seq<Expected>)
    requires k < |entries|
    decreases entries, |entries| - k, 0
  {
    [Expected(StringToken, entries[k].name, true)]
    + ([Expected(MemberSeparator, ":", false)] + Tokens(entries[k].value, EntryTokens(entries, k + 1, more)))
  }

  function Separated(k: nat, es: seq<Expected>): seq<Expected> {
    if k > 0 then [Expected(ArraySeparator, ",", true)] + es else es
  }

  // ---- what a document denotes ----

  /** The string a literal stands for. */
  function Content(text: string): Option<string> {
    if |text| < 2 then None
    else
      match DecodeBody(text[1..|text| - 1])
      case Text(s) => Some(s)
      case BadText(_, _) => None
  }

  function Scalar(f: Features, token: Token): Option<Value> {
    match token.kind
    case NumberToken => DecodeNumber(f, token.text)
    case StringToken => (match Content(token.text) case None => None case Some(s) => Some(Str(CStr(s))))
    case TrueToken => Some(Bool(true))
    case FalseToken => Some(Bool(false))
    case _ => Some(Null)
  }

  /** Elements in order; members sorted by name, the last of several with one name counting. */
  function Denotes(f: Features, d: Doc): Option<Value>
    decreases d, 0
  {
    match d
    case Leaf(token) => Scalar(f, token)
    case List(items) => (match DenotesItems(f, items, 0, []) case None => None case Some(vs) => Some(Array(vs)))
    case Record(entries) => (match DenotesEntries(f, entries, 0, []) case None => None case Some(ms) => Some(Object(ms)))
  }

  function DenotesItems(f: Features, items: seq<Doc>, k: nat, done: seq<Value>): Option<seq<Value>>
    requires k <= |items|
    decreases items, |items| - k
  {
    if k == |items| then Some(done) else
    match Denotes(f, items[k])
    case None => None
    case Some(v) => DenotesItems(f, items, k + 1, done + [v])
  }

  function DenotesEntries(f: Features, entries: seq<Entry>, k: nat, done: seq<Member>): Option<seq<Member>>
    requires k <= |entries|
    decreases entries, |entries| - k
  {
    if k == |entries| then Some(done) else
    match Content(entries[k].name)
    case None => None
    case Some(name) =>
      match Denotes(f, entries[k].value)
      case None => None
      case Some(v) => DenotesEntries(f, entries, k + 1, Put(done, CStr(name), v))
  }

  // ---- reading it ----

  lemma Head(c: bool, s: string, e: Expected, es: seq<Expected>, rest: string)
    requires Reads(c, s, [e] + es, rest) && e.kind != Comment
    ensures var t := if c && e.commented then ReadPastComments(s) else ReadToken(s);
            && t.kind == e.kind && t.Text() == e.text && Reads(c, t.rest, es, rest)
            && ReadPastComments(s) == t
  {
    hide ReadToken;
    assert ([e] + es)[1..] == es;
  }

  lemma StringContent(t: Scan)
    requires |t.start| - |t.rest| >= 2
    ensures Content(t.Text()) == if DecodeBody(Body(t)).Text? then Some(DecodeBody(Body(t)).text) else None
  {
    hide DecodeBody;
  }

  /** The result of reading d. */
  ghost predicate ReadAs(r: Outcome, v: Option<Value>, c: bool, more: seq<Expected>, rest: string) {
    && r.ok == v.Some?
    && (r.ok ==> r.value == v.value && Reads(c, r.rest, more, rest))
  }

  lemma {:induction false} ReadsDoc(f: Features, n: nat, s: string, previous: Value, d: Doc, more: seq<Expected>, rest: string)
    requires Proper(d) && Reads(f.allowComments, s, Tokens(d, more), rest)
    ensures ReadAs(ReadValue(f, n, s, previous), Denotes(f, d), f.allowComments, more, rest)
    decreases d, 0
  {
    hide Reads, ReadToken, ReadPastComments, IsSuffix, DecodeBody, ReadArray, ReadMembers, DecodeNumber, CStr;
    hide ItemTokens, EntryTokens, DenotesItems, DenotesEntries, Content;
    var c := f.allowComments;
    match d
    case Leaf(token) =>
      Head(c, s, Expected(token.kind, token.text, true), more, rest);
      var t := SkipCommentTokens(f, s);
      if t.kind.StringToken? {
        StringContent(t);
      }
    case List(items) =>
      Head(c, s, Expected(ArrayBegin, "[", true), ItemTokens(items, 0, more), rest);
      ArrayReads(f, n, SkipCommentTokens(f, s).rest, items, more, rest);
    case Record(entries) =>
      Head(c, s, Expected(ObjectBegin, "{", true), EntryTokens(entries, 0, more), rest);
      RecordReads(f, n, SkipCommentTokens(f, s).rest, entries, more, rest);
  }

  lemma {:induction false} RecordReads(f: Features, n: nat, s: string, entries: seq<Entry>, more: seq<Expected>, rest: string)
    requires Proper(Record(entries)) && Reads(f.allowComments, s, EntryTokens(entries, 0, more), rest)
    ensures ReadAs(ReadMembers(f, n, s, "", []), Denotes(f, Record(entries)), f.allowComments, more, rest)
    decreases entries, |entries| + 1
  {
    hide Reads, ReadMembers, EntryFrom, DenotesEntries, IsSuffix;
    EntriesRead(f, n, s, "", [], entries, 0, more, rest);
  }

  lemma BracketAhead(s: string)
    ensures At(SkipSpaces(s), 0) == ']' <==> ReadToken(s).kind.ArrayEnd?
    ensures ReadToken(SkipSpaces(s)) == ReadToken(s) && ReadPastComments(SkipSpaces(s)) == ReadPastComments(s)
    ensures !ReadToken(s).kind.Comment? ==> ReadPastComments(s) == ReadToken(s)
  {
    hide IsSuffix, SkipString, SkipComment, SkipNumber, Match;
    var start := SkipSpaces(s);
    assert SkipSpaces(start) == start;
    assert ReadToken(start) == ReadToken(s);
  }

  lemma SameReads(c: bool, s: string, start: string, es: seq<Expected>, rest: string)
    requires es != [] && Reads(c, s, es, rest)
    requires ReadToken(start) == ReadToken(s) && ReadPastComments(start) == ReadPastComments(s)
    ensures Reads(c, start, es, rest)
  {
    hide ReadToken, ReadPastComments;
  }

  lemma FirstToken(c: bool, s: string, d: Doc, more: seq<Expected>, rest: string)
    requires Proper(d) && Reads(c, s, Tokens(d, more), rest)
    ensures !ReadToken(s).kind.ArrayEnd?
  {
    hide ReadToken, ItemTokens, EntryTokens, ReadPastComments;
    BracketAhead(s);
  }

  lemma {:induction false} ArrayReads(f: Features, n: nat, s: string, items: seq<Doc>, more: seq<Expected>, rest: string)
    requires Proper(List(items)) && Reads(f.allowComments, s, ItemTokens(items, 0, more), rest)
    ensures ReadAs(ReadArray(f, n, s), Denotes(f, List(items)), f.allowComments, more, rest)
    decreases items, |items| + 1
  {
    hide Reads, ReadToken, ReadPastComments, SkipSpaces, IsSuffix, Tokens, ReadItems;
    var c := f.allowComments;
    BracketAhead(s);
    var inner := SkipSpaces(s);
    SameReads(c, s, inner, ItemTokens(items, 0, more), rest);
    if items == [] {
      Head(c, inner, Expected(ArrayEnd, "]", false), more, rest);
    } else {
      FirstToken(c, s, items[0], ItemTokens(items, 1, more), rest);
      ItemsRead(f, n, inner, [], items, 0, more, rest);
    }
  }

  lemma {:induction false} ItemsRead(f: Features, n: nat, s: string, done: seq<Value>, items: seq<Doc>, k: nat,
          more: seq<Expected>, rest: string)
    requires k < |items| && Proper(List(items))
    requires Reads(f.allowComments, s, Tokens(items[k], ItemTokens(items, k + 1, more)), rest)
    ensures var vs := DenotesItems(f, items, k, done);
            ReadAs(ReadItems(f, n, s, done), if vs.Some? then Some(Array(vs.value)) else None, f.allowComments, more, rest)
    decreases items, |items| - k
  {
    hide Reads, ReadToken, ReadPastComments, Recover, IsSuffix, Tokens, ReadValue, Denotes;
    var c := f.allowComments;
    ReadsDoc(f, n, s, Null, items[k], ItemTokens(items, k + 1, more), rest);
    var item := ReadValue(f, n, s, Null);
    if item.ok {
      if k + 1 == |items| {
        Head(c, item.rest, Expected(ArrayEnd, "]", true), more, rest);
      } else {
        var tokens := Tokens(items[k + 1], ItemTokens(items, k + 2, more));
        Head(c, item.rest, Expected(ArraySeparator, ",", true), tokens, rest);
        ItemsRead(f, n, ReadPastComments(item.rest).rest, done + [item.value], items, k + 1, more, rest);
      }
    }
  }

  /** From entry k on; for k > 0 the comma has already been read. */
  lemma {:induction false} EntriesRead(f: Features, n: nat, s: string, name: string, done: seq<Member>,
          entries: seq<Entry>, k: nat, more: seq<Expected>, rest: string)
    requires k <= |entries| && Proper(Record(entries)) && (k == |entries| ==> k == 0 && name == "")
    requires Reads(f.allowComments, s,
                   if k == |entries| then EntryTokens(entries, k, more) else EntryFrom(entries, k, more), rest)
    ensures var ms := DenotesEntries(f, entries, k, done);
            ReadAs(ReadMembers(f, n, s, name, done), if ms.Some? then Some(Object(ms.value)) else None,
                   f.allowComments, more, rest)
    decreases entries, |entries| - k, 2
  {
    hide Reads, ReadToken, ReadPastComments, Recover, IsSuffix, Tokens, ReadMemberValue, Denotes, Content, DecodeBody, CStr, Put;
    var c := f.allowComments;
    if k == |entries| {
      Head(c, s, Expected(ObjectEnd, "}", true), more, rest);
    } else {
      var tokens := Tokens(entries[k].value, EntryTokens(entries, k + 1, more));
      HeaderReads(f, n, s, name, entries[k].name, tokens, rest);
      var h := ReadHeader(n, s, name);
      hide ReadHeader;
      if h.Named? {
        EntryReads(f, n, h.rest, h.name, done, entries, k, more, rest);
      }
    }
  }

  lemma HeaderReads(f: Features, n: nat, s: string, name: string, text: string, tokens: seq<Expected>, rest: string)
    requires Reads(f.allowComments, s,
                   [Expected(StringToken, text, true)] + ([Expected(MemberSeparator, ":", false)] + tokens), rest)
    ensures var h := ReadHeader(n, s, name);
            && !h.Closed? && h.Named? == Content(text).Some?
            && (h.Named? ==> h.name == Content(text).value && Reads(f.allowComments, h.rest, tokens, rest))
  {
    hide Reads, ReadToken, ReadPastComments, IsSuffix, Recover, DecodeBody, Content;
    var c := f.allowComments;
    Head(c, s, Expected(StringToken, text, true), [Expected(MemberSeparator, ":", false)] + tokens, rest);
    var t := ReadPastComments(s);
    StringContent(t);
    Head(c, t.rest, Expected(MemberSeparator, ":", false), tokens, rest);
  }

  lemma TrailerReads(f: Features, n: nat, s: string, comma: bool, tokens: seq<Expected>, rest: string)
    requires Reads(f.allowComments, s,
                   [if comma then Expected(ArraySeparator, ",", true) else Expected(ObjectEnd, "}", true)] + tokens, rest)
    ensures var r := ReadTrailer(n, s);
            Reads(f.allowComments, r.rest, tokens, rest) && if comma then r.More? else r.End?
  {
    hide Reads, ReadToken, IsSuffix, Recover;
    Head(f.allowComments, s, if comma then Expected(ArraySeparator, ",", true) else Expected(ObjectEnd, "}", true), tokens, rest);
    assert !ReadToken(s).kind.Comment? ==> ReadPastComments(s) == ReadToken(s);
    assert ReadToken(s).kind.Comment? ==> ReadPastComments(s) == ReadPastComments(ReadToken(s).rest);
  }

  /** The value of entry k and the comma or brace after it. */
  lemma {:induction false} EntryReads(f: Features, n: nat, s: string, name: string, done: seq<Member>,
          entries: seq<Entry>, k: nat, more: seq<Expected>, rest: string)
    requires k < |entries| && Proper(Record(entries)) && Content(entries[k].name) == Some(name)
    requires Reads(f.allowComments, s, Tokens(entries[k].value, EntryTokens(entries, k + 1, more)), rest)
    ensures var ms := DenotesEntries(f, entries, k, done);
            ReadAs(ReadMemberValue(f, n, s, name, done), if ms.Some? then Some(Object(ms.value)) else None,
                   f.allowComments, more, rest)
    decreases entries, |entries| - k, 1
  {
    hide Reads, ReadTrailer, Recover, IsSuffix, Tokens, ReadValue, Denotes, CStr, Put, Slot, ReadMembers, Content;
    var key := CStr(name);
    ReadsDoc(f, n, s, Slot(done, key), entries[k].value, EntryTokens(entries, k + 1, more), rest);
    var member := ReadValue(f, n, s, Slot(done, key));
    if member.ok {
      if k + 1 == |entries| {
        TrailerReads(f, n, member.rest, false, more, rest);
      } else {
        TrailerReads(f, n, member.rest, true, EntryFrom(entries, k + 1, more), rest);
        EntriesRead(f, n, ReadTrailer(n, member.rest).rest, name, Put(done, key, member.value), entries, k + 1, more, rest);
      }
    }
  }

  lemma {:induction false} AccumulatesInteger(negative: bool, unread: string, value: nat)
    ensures var r := Accumulate(negative, unread, value); r.Integer? ==> r.value.Int? || r.value.UInt?
  {
    if unread != "" && IsDigit(unread[0]) {
      AccumulatesInteger(negative, unread[1..], value * 10 + (unread[0] - '0') as nat);
    }
  }

  lemma RootKind(f: Features, d: Doc)
    requires Proper(d) && Denotes(f, d).Some?
    ensures var v := Denotes(f, d).value;
            v.IsArray() || v.IsObject() <==> !d.Leaf? || d.token.kind == NullToken
  {
    hide DenotesItems, DenotesEntries, Content, Accumulate, LooksDouble, Magnitude, Negative;
    if d.Leaf? && d.token.kind.NumberToken? {
      AccumulatesInteger(Negative(d.token.text), Magnitude(d.token.text), 0);
    }
  }

  /**
   * parse on every document of the grammar: it succeeds exactly when the
   * document denotes something and its root is allowed, and gives what the
   * document denotes.
   */
  lemma ParseDoc(f: Features, document: string, root: Value, d: Doc, rest: string)
    requires Proper(d) && Reads(f.allowComments, document, Tokens(d, []), rest)
    ensures var r := Parse(f, document, root);
            && (r.ok <==> Denotes(f, d).Some? && (!f.strictRoot || !d.Leaf? || d.token.kind == NullToken))
            && (Denotes(f, d).Some? ==> r.value == Denotes(f, d).value)
  {
    hide Reads, SkipCommentTokens, ReadValue, Tokens, IsSuffix, Denotes;
    ReadsDoc(f, |document|, document, root, d, [], rest);
    if Denotes(f, d).Some? {
      RootKind(f, d);
    }
  }

  // ---- texts ----

  /** A lexeme and the white space before it. */
  datatype Chunk = Chunk(gap: string, lexeme: L.Lexeme)

  predicate IsComment(l: L.Lexeme) { l.BlockComment? || l.LineComment? }

  predicate Spelled(cs: seq<Chunk>) {
    forall k :: 0 <= k < |cs| ==> cs[k].lexeme.Spelled()
  }

  /** The chunks written in front of rest. */
  function TextOf(cs: seq<Chunk>, rest: string): string
    requires Spelled(cs)
  {
    if cs == [] then rest else cs[0].gap + cs[0].lexeme.Then(TextOf(cs[1..], rest))
  }

  /** Every lexeme ends where the next chunk begins. */
  predicate Placed(cs: seq<Chunk>, rest: string) {
    cs == [] ||
    (&& Spelled(cs)
     && L.White(cs[0].gap) && cs[0].lexeme.Before(TextOf(cs[1..], rest)) && Placed(cs[1..], rest))
  }

  /** The chunks are these tokens, with comments only where they may stand. */
  predicate Covers(comments: bool, cs: seq<Chunk>, es: seq<Expected>)
    requires Spelled(cs)
  {
    if cs == [] then es == []
    else if es == [] then false
    else if IsComment(cs[0].lexeme) then comments && es[0].commented && Covers(comments, cs[1..], es)
    else cs[0].lexeme.Kind() == es[0].kind && cs[0].lexeme.Then("") == es[0].text && Covers(comments, cs[1..], es[1..])
  }

  lemma ChunkReads(chunk: Chunk, rest: string)
    requires chunk.lexeme.Spelled() && L.White(chunk.gap) && chunk.lexeme.Before(rest)
    ensures var t := ReadToken(chunk.gap + chunk.lexeme.Then(rest));
            && t.kind == chunk.lexeme.Kind() && t.rest == rest && t.Text() == chunk.lexeme.Then("")
            && (t.kind == Comment <==> IsComment(chunk.lexeme))
  {
    hide ReadToken, L.Lexeme.Then, L.Lexeme.Before, L.White;
    L.LexemeReads(chunk.gap, chunk.lexeme, rest);
    L.ThenText(chunk.lexeme, rest);
  }

  lemma {:induction false} ChunksRead(comments: bool, cs: seq<Chunk>, es: seq<Expected>, rest: string)
    requires Spelled(cs) && Placed(cs, rest) && Covers(comments, cs, es)
    ensures Reads(comments, TextOf(cs, rest), es, rest)
  {
    hide ReadToken, L.Lexeme.Then, L.Lexeme.Before, L.Lexeme.Kind, L.White, IsComment;
    if cs != [] {
      var tail := TextOf(cs[1..], rest);
      ChunkReads(cs[0], tail);
      if IsComment(cs[0].lexeme) {
        ChunksRead(comments, cs[1..], es, rest);
      } else {
        ChunksRead(comments, cs[1..], es[1..], rest);
      }
    }
  }

  /** The same for the document as a text, with any white space and, where they are allowed, comments. */
  lemma ParseText(f: Features, root: Value, d: Doc, cs: seq<Chunk>, rest: string)
    requires Proper(d) && Spelled(cs)
    requires Placed(cs, rest) && Covers(f.allowComments, cs, Tokens(d, []))
    ensures var r := Parse(f, TextOf(cs, rest), root);
            && (r.ok <==> Denotes(f, d).Some? && (!f.strictRoot || !d.Leaf? || d.token.kind == NullToken))
            && (Denotes(f, d).Some? ==> r.value == Denotes(f, d).value)
  {
    hide Parse, Denotes, Tokens, TextOf, Placed, Covers, Proper;
    ChunksRead(f.allowComments, cs, Tokens(d, []), rest);
    ParseDoc(f, TextOf(cs, rest), root, d, rest);
  }

  /** A comment between the brackets of an empty array is refused, even where comments are allowed. */
  lemma CommentInEmptyArray(f: Features, n: nat, gap: string, l: L.Lexeme, rest: string)
    requires IsComment(l) && L.White(gap) && l.Before("]" + rest)
    ensures !ReadArray(f, n, gap + l.Then("]" + rest)).ok
  {
    hide IsSuffix, L.White, L.Lexeme.Before, ReadToken, SkipSpaces;
    var s := gap + l.Then("]" + rest);
    ChunkReads(Chunk(gap, l), "]" + rest);
    BracketReads(rest);
    BracketAhead(s);
    var inner := SkipSpaces(s);
    var t := SkipCommentTokens(f, inner);
    assert t.kind == if f.allowComments then ArrayEnd else Comment;
    assert !ReadValue(f, n, inner, Null).ok;
    assert !ReadItems(f, n, inner, []).ok;
  }

  lemma BracketReads(rest: string)
    ensures ReadToken("]" + rest).kind == ArrayEnd && ReadPastComments("]" + rest).kind == ArrayEnd
  {
    hide ReadToken;
    ChunkReads(Chunk("", L.Mark(3)), rest);
    assert "" + L.Mark(3).Then(rest) == "]" + rest;
  }
}
