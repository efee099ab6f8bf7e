// The documents that are refused: the first fault, behind any correct values
// and inside any arrays and objects still open, is the one error of reading.

module JsonFaults {
  import opened CStrings
  import opened JsonValue
  import opened JsonNumbers
  import opened JsonStrings
  import opened JsonTokens
  import opened JsonParse
  import opened JsonErrors
  import opened JsonGrammar

  ghost predicate Fails(r: Outcome, e: ErrorInfo) { !r.ok && r.errors == [e] }

  /** Reading a value from s fails with this error. */
  ghost predicate ValueFails(f: Features, n: nat, s: string, e: ErrorInfo) {
    forall previous :: Fails(ReadValue(f, n, s, previous), e)
  }

  /** Reading a member from s fails with this error, `name` being the name of the member before. */
  ghost predicate MemberFails(f: Features, n: nat, s: string, name: string, e: ErrorInfo) {
    forall members :: Fails(ReadMembers(f, n, s, name, members), e)
  }

  /** The token that starts at start and ends before rest, and what is wrong with it. */
  function ErrorAt(n: nat, message: Message, t: Scan): ErrorInfo {
    ErrorInfo(message, t.kind, n - |t.start|, n - |t.rest|, None)
  }

  // ---- values ----

  /** A token that starts no value. */
  lemma NoValue(f: Features, n: nat, s: string)
    requires StartsNoValue(f, SkipCommentTokens(f, s).kind)
    ensures ValueFails(f, n, s, ErrorAt(n, ValueExpected, SkipCommentTokens(f, s)))
    ensures forall previous :: ReadValue(f, n, s, previous).value == previous
  {
    hide IsSuffix, SkipCommentTokens, DecodeNumber, DecodeBody, ReadArray, ReadObject;
  }

  /** A number token that is no number. */
  lemma NoNumber(f: Features, n: nat, s: string)
    requires var t := SkipCommentTokens(f, s); t.kind == NumberToken && DecodeNumber(f, t.Text()) == None
    ensures ValueFails(f, n, s, ErrorAt(n, NotANumber, SkipCommentTokens(f, s)))
    ensures forall previous :: ReadValue(f, n, s, previous).value == previous
  {
    hide IsSuffix, SkipCommentTokens, DecodeNumber, DecodeBody, ReadArray, ReadObject;
  }

  /** A fault in a string literal; the error says where the decoder had got to. */
  lemma NoString(f: Features, n: nat, s: string, message: Message, unread: nat)
    requires var t := SkipCommentTokens(f, s); t.kind == StringToken && DecodeBody(Body(t)) == BadText(message, unread)
    ensures var t := SkipCommentTokens(f, s);
            ValueFails(f, n, s, ErrorAt(n, message, t).(extra := Some(n - |t.rest| - 1 - unread)))
    ensures forall previous :: ReadValue(f, n, s, previous).value == previous
  {
    hide IsSuffix, SkipCommentTokens, DecodeNumber, DecodeBody, ReadArray, ReadObject;
  }

  // ---- members ----

  /** Neither a name nor, where no member has been read, a closing brace. */
  lemma NoName(f: Features, n: nat, s: string, name: string)
    requires var t := ReadPastComments(s); t.kind != StringToken && (t.kind == ObjectEnd ==> name != "")
    ensures MemberFails(f, n, s, name, ErrorAt(n, MissingBraceOrName, ReadPastComments(s)))
    ensures forall members :: ReadMembers(f, n, s, name, members).value == Object(members)
  {
    hide IsSuffix, ReadPastComments, Recover, ReadMemberValue;
  }

  /** A fault in a name. */
  lemma BadName(f: Features, n: nat, s: string, name: string, message: Message, unread: nat)
    requires var t := ReadPastComments(s); t.kind == StringToken && DecodeBody(Body(t)) == BadText(message, unread)
    ensures var t := ReadPastComments(s);
            MemberFails(f, n, s, name, ErrorAt(n, message, t).(extra := Some(n - |t.rest| - 1 - unread)))
    ensures forall members :: ReadMembers(f, n, s, name, members).value == Object(members)
  {
    hide IsSuffix, ReadPastComments, Recover, DecodeBody, ReadMemberValue;
  }

  /** No colon behind a name; a comment is none. */
  lemma NoColon(f: Features, n: nat, s: string, name: string)
    requires var t := ReadPastComments(s);
             t.kind == StringToken && DecodeBody(Body(t)).Text? && ReadToken(t.rest).kind != MemberSeparator
    ensures MemberFails(f, n, s, name, ErrorAt(n, MissingColon, ReadToken(ReadPastComments(s).rest)))
    ensures forall members :: ReadMembers(f, n, s, name, members).value == Object(members)
  {
    hide IsSuffix, ReadPastComments, ReadToken, Recover, DecodeBody, ReadMemberValue;
  }

  /** A fault in the value of a member. */
  lemma BadMember(f: Features, n: nat, s: string, name: string, text: string, rest: string, e: ErrorInfo)
    requires Reads(f.allowComments, s, [Expected(StringToken, text, true), Expected(MemberSeparator, ":", false)], rest)
    requires Content(text).Some? && ValueFails(f, n, rest, e)
    ensures MemberFails(f, n, s, name, e)
    ensures forall members :: ReadMembers(f, n, s, name, members).value
              == var key := CStr(Content(text).value); Object(Put(members, key, ReadValue(f, n, rest, Slot(members, key)).value))
  {
    hide IsSuffix, ReadHeader, ReadValue, Recover, Reads, Content, Put, CStr;
    assert [Expected(StringToken, text, true), Expected(MemberSeparator, ":", false)]
        == [Expected(StringToken, text, true)] + ([Expected(MemberSeparator, ":", false)] + []);
    HeaderReads(f, n, s, name, text, [], rest);
    var h := ReadHeader(n, s, name);
    NothingReads(f.allowComments, h.rest, rest);
    forall members
      ensures Fails(ReadMembers(f, n, s, name, members), e)
      ensures ReadMembers(f, n, s, name, members).value
              == var key := CStr(Content(text).value); Object(Put(members, key, ReadValue(f, n, rest, Slot(members, key)).value))
    {
      assert Fails(ReadValue(f, n, rest, Slot(members, CStr(h.name))), e);
    }
  }

  lemma NothingReads(c: bool, s: string, rest: string)
    ensures Reads(c, s, [], rest) <==> s == rest
  {
  }

  /** Neither a comma nor a brace behind the value of a member, nor a comment. */
  lemma NoComma(f: Features, n: nat, s: string, name: string, text: string, d: Doc, rest: string)
    requires Proper(d) && Content(text).Some? && Denotes(f, d).Some?
    requires Reads(f.allowComments, s,
                   [Expected(StringToken, text, true)] + ([Expected(MemberSeparator, ":", false)] + Tokens(d, [])), rest)
    requires ReadToken(rest).kind !in {ArraySeparator, ObjectEnd, Comment}
    ensures MemberFails(f, n, s, name, ErrorAt(n, MissingCommaOrBrace, ReadToken(rest)))
    ensures forall members :: ReadMembers(f, n, s, name, members).value
              == Object(Put(members, CStr(Content(text).value), Denotes(f, d).value))
  {
    hide IsSuffix, ReadHeader, ReadValue, Recover, Reads, Content, Put, CStr, Denotes, ReadToken, Tokens, Slot;
    HeaderReads(f, n, s, name, text, Tokens(d, []), rest);
    var h := ReadHeader(n, s, name);
    forall members
      ensures Fails(ReadMembers(f, n, s, name, members), ErrorAt(n, MissingCommaOrBrace, ReadToken(rest)))
      ensures ReadMembers(f, n, s, name, members).value
              == Object(Put(members, CStr(Content(text).value), Denotes(f, d).value))
    {
      var previous := Slot(members, CStr(h.name));
      ReadsDoc(f, n, h.rest, previous, d, [], rest);
      NothingReads(f.allowComments, ReadValue(f, n, h.rest, previous).rest, rest);
    }
  }

  // ---- what is around it ----

  /** Elements with a comma behind each. */
  function ListPrefix(items: seq<Doc>, k: nat): seq<Expected>
    requires k <= |items|
    decreases |items| - k
  {
    if k == |items| then [] else Tokens(items[k], [Expected(ArraySeparator, ",", true)] + ListPrefix(items, k + 1))
  }

  lemma {:induction false} ListPrefixRead(f: Features, n: nat, s: string, done: seq<Value>, items: seq<Doc>, k: nat, rest: string)
    requires k <= |items| && Proper(List(items)) && DenotesItems(f, items, k, done).Some?
    requires Reads(f.allowComments, s, ListPrefix(items, k), rest)
    ensures var a, b := ReadItems(f, n, s, done), ReadItems(f, n, rest, DenotesItems(f, items, k, done).value);
            a.errors == b.errors && a.value == b.value
    decreases |items| - k
  {
    hide Reads, ReadToken, ReadPastComments, Recover, IsSuffix, Tokens, ReadValue, Denotes;
    var c := f.allowComments;
    if k == |items| {
      NothingReads(c, s, rest);
    } else {
      var more := ListPrefix(items, k + 1);
      ReadsDoc(f, n, s, Null, items[k], [Expected(ArraySeparator, ",", true)] + more, rest);
      var item := ReadValue(f, n, s, Null);
      Head(c, item.rest, Expected(ArraySeparator, ",", true), more, rest);
      ListPrefixRead(f, n, ReadPastComments(item.rest).rest, done + [item.value], items, k + 1, rest);
    }
  }

  /** An element that fails makes the array fail, which keeps the elements before it and what was read of this one. */
  lemma InList(f: Features, n: nat, s: string, items: seq<Doc>, rest: string, e: ErrorInfo)
    requires Proper(List(items)) && DenotesItems(f, items, 0, []).Some? && ValueFails(f, n, rest, e)
    requires Reads(f.allowComments, s, [Expected(ArrayBegin, "[", true)] + ListPrefix(items, 0), rest)
    requires items == [] ==> ReadToken(rest).kind != ArrayEnd
    ensures ValueFails(f, n, s, e)
    ensures forall previous :: ReadValue(f, n, s, previous).value
                               == Array(DenotesItems(f, items, 0, []).value + [ReadValue(f, n, rest, Null).value])
  {
    hide Reads, ReadToken, ReadPastComments, IsSuffix, Tokens, ReadValue, ReadItems, Denotes, SkipSpaces, ReadArray;
    var c := f.allowComments;
    Head(c, s, Expected(ArrayBegin, "[", true), ListPrefix(items, 0), rest);
    var inside := SkipCommentTokens(f, s).rest;
    ListFails(f, n, inside, items, rest, e);
    forall previous
      ensures Fails(ReadValue(f, n, s, previous), e)
      ensures ReadValue(f, n, s, previous).value == Array(DenotesItems(f, items, 0, []).value + [ReadValue(f, n, rest, Null).value])
    {
      ArrayValue(f, n, s, previous);
    }
  }

  lemma ArrayValue(f: Features, n: nat, s: string, previous: Value)
    requires SkipCommentTokens(f, s).kind == ArrayBegin
    ensures var r := ReadArray(f, n, SkipCommentTokens(f, s).rest);
            var v := ReadValue(f, n, s, previous);
            v.ok == r.ok && v.errors == r.errors && v.value == r.value
  {
    hide IsSuffix, SkipCommentTokens, ReadArray;
  }

  lemma ListFails(f: Features, n: nat, s: string, items: seq<Doc>, rest: string, e: ErrorInfo)
    requires Proper(List(items)) && DenotesItems(f, items, 0, []).Some? && ValueFails(f, n, rest, e)
    requires Reads(f.allowComments, s, ListPrefix(items, 0), rest)
    requires items == [] ==> ReadToken(rest).kind != ArrayEnd
    ensures Fails(ReadArray(f, n, s), e)
    ensures ReadArray(f, n, s).value == Array(DenotesItems(f, items, 0, []).value + [ReadValue(f, n, rest, Null).value])
  {
    hide Reads, ReadToken, ReadPastComments, IsSuffix, Tokens, ReadValue, SkipSpaces;
    var c := f.allowComments;
    var inner := SkipSpaces(s);
    BracketAhead(s);
    if items == [] {
      NothingReads(c, s, rest);
      SameValue(f, n, s);
      assert Fails(ReadValue(f, n, s, Null), e);
    } else {
      var more := [Expected(ArraySeparator, ",", true)] + ListPrefix(items, 1);
      FirstToken(c, s, items[0], more, rest);
      SameReads(c, s, inner, ListPrefix(items, 0), rest);
      ListPrefixRead(f, n, inner, [], items, 0, rest);
      assert Fails(ReadValue(f, n, rest, Null), e);
    }
  }

  /** White space in front of a value does not matter to whether and how it fails. */
  lemma SameValue(f: Features, n: nat, s: string)
    ensures ReadValue(f, n, SkipSpaces(s), Null) == ReadValue(f, n, s, Null)
  {
    hide IsSuffix, ReadToken, ReadPastComments, SkipSpaces, ReadArray, ReadObject, DecodeBody, DecodeNumber;
    BracketAhead(s);
  }

  /** Members with a comma behind each. */
  function RecordPrefix(entries: seq<Entry>, k: nat): seq<Expected>
    requires k <= |entries|
    decreases |entries| - k
  {
    if k == |entries| then []
    else
      [Expected(StringToken, entries[k].name, true)]
      + ([Expected(MemberSeparator, ":", false)]
         + Tokens(entries[k].value, [Expected(ArraySeparator, ",", true)] + RecordPrefix(entries, k + 1)))
  }

  /** The name of the last member, or none. */
  function LastName(entries: seq<Entry>): string {
    if entries == [] || Content(entries[|entries| - 1].name).None? then ""
    else Content(entries[|entries| - 1].name).value
  }

  lemma {:induction false} RecordPrefixRead(f: Features, n: nat, s: string, name: string, done: seq<Member>,
          entries: seq<Entry>, k: nat, rest: string)
    requires k < |entries| && Proper(Record(entries)) && DenotesEntries(f, entries, k, done).Some?
    requires Reads(f.allowComments, s, RecordPrefix(entries, k), rest)
    ensures var a := ReadMembers(f, n, s, name, done);
            var b := ReadMembers(f, n, rest, LastName(entries), DenotesEntries(f, entries, k, done).value);
            a.errors == b.errors && a.value == b.value
    decreases |entries| - k
  {
    hide Reads, ReadToken, ReadPastComments, Recover, IsSuffix, Tokens, ReadValue, Denotes, Content, CStr, Put, Slot, ReadHeader, ReadTrailer;
    var c := f.allowComments;
    var more := RecordPrefix(entries, k + 1);
    var after := [Expected(ArraySeparator, ",", true)] + more;
    HeaderReads(f, n, s, name, entries[k].name, Tokens(entries[k].value, after), rest);
    var h := ReadHeader(n, s, name);
    var key := CStr(h.name);
    ReadsDoc(f, n, h.rest, Slot(done, key), entries[k].value, after, rest);
    var member := ReadValue(f, n, h.rest, Slot(done, key));
    TrailerReads(f, n, member.rest, true, more, rest);
    var next := ReadTrailer(n, member.rest).rest;
    if k + 1 == |entries| {
      NothingReads(c, next, rest);
    } else {
      RecordPrefixRead(f, n, next, h.name, Put(done, key, member.value), entries, k + 1, rest);
    }
  }

  /** A member that fails makes the object fail, with what is then read of it. */
  lemma InRecord(f: Features, n: nat, s: string, entries: seq<Entry>, rest: string, e: ErrorInfo)
    requires Proper(Record(entries)) && DenotesEntries(f, entries, 0, []).Some? && MemberFails(f, n, rest, LastName(entries), e)
    requires Reads(f.allowComments, s, [Expected(ObjectBegin, "{", true)] + RecordPrefix(entries, 0), rest)
    ensures ValueFails(f, n, s, e)
    ensures forall previous :: ReadValue(f, n, s, previous).value
                               == ReadMembers(f, n, rest, LastName(entries), DenotesEntries(f, entries, 0, []).value).value
  {
    hide Reads, ReadToken, ReadPastComments, IsSuffix, Tokens, ReadValue, ReadMembers, DenotesEntries, SkipSpaces, LastName, RecordPrefix;
    Head(f.allowComments, s, Expected(ObjectBegin, "{", true), RecordPrefix(entries, 0), rest);
    var inside := SkipCommentTokens(f, s).rest;
    RecordFails(f, n, inside, entries, rest, e);
    forall previous
      ensures Fails(ReadValue(f, n, s, previous), e)
      ensures ReadValue(f, n, s, previous).value
              == ReadMembers(f, n, rest, LastName(entries), DenotesEntries(f, entries, 0, []).value).value
    {
      ObjectValue(f, n, s, previous);
    }
  }

  lemma ObjectValue(f: Features, n: nat, s: string, previous: Value)
    requires SkipCommentTokens(f, s).kind == ObjectBegin
    ensures var r := ReadMembers(f, n, SkipCommentTokens(f, s).rest, "", []);
            var v := ReadValue(f, n, s, previous);
            v.ok == r.ok && v.errors == r.errors && v.value == r.value
  {
    hide IsSuffix, SkipCommentTokens, ReadMembers;
  }

  lemma RecordFails(f: Features, n: nat, s: string, entries: seq<Entry>, rest: string, e: ErrorInfo)
    requires Proper(Record(entries)) && DenotesEntries(f, entries, 0, []).Some? && MemberFails(f, n, rest, LastName(entries), e)
    requires Reads(f.allowComments, s, RecordPrefix(entries, 0), rest)
    ensures Fails(ReadMembers(f, n, s, "", []), e)
    ensures ReadMembers(f, n, s, "", []).value
            == ReadMembers(f, n, rest, LastName(entries), DenotesEntries(f, entries, 0, []).value).value
  {
    hide Reads, ReadMembers, IsSuffix;
    if entries == [] {
      NothingReads(f.allowComments, s, rest);
    } else {
      RecordPrefixRead(f, n, s, "", [], entries, 0, rest);
      assert Fails(ReadMembers(f, n, rest, LastName(entries), DenotesEntries(f, entries, 0, []).value), e);
    }
  }

  // ---- open arrays and objects ----

  /** The elements or members read before, and for an object the name of the member that is being read. */
  datatype Open = Bracket(items: seq<Doc>) | Brace(entries: seq<Entry>, name: string) {
    ghost predicate Valid(f: Features) {
      if Bracket? then Proper(List(items)) && DenotesItems(f, items, 0, []).Some?
      else Proper(Record(entries)) && DenotesEntries(f, entries, 0, []).Some? && Content(name).Some?
    }

    /** Its text from s on goes on at rest. */
    ghost predicate Leads(f: Features, s: string, rest: string) {
      if Bracket? then
        && Reads(f.allowComments, s, [Expected(ArrayBegin, "[", true)] + ListPrefix(items, 0), rest)
        && (items == [] ==> ReadToken(rest).kind != ArrayEnd)
      else
        exists middle ::
          && Reads(f.allowComments, s, [Expected(ObjectBegin, "{", true)] + RecordPrefix(entries, 0), middle)
          && Reads(f.allowComments, middle, [Expected(StringToken, name, true), Expected(MemberSeparator, ":", false)], rest)
    }
  }

  lemma InOpen(f: Features, n: nat, s: string, o: Open, rest: string, e: ErrorInfo)
    requires o.Valid(f) && o.Leads(f, s, rest) && ValueFails(f, n, rest, e)
    ensures ValueFails(f, n, s, e)
  {
    hide Reads, ReadToken, ReadValue, ReadMembers, Tokens, Denotes, Content, IsSuffix, RecordPrefix, ListPrefix;
    if o.Bracket? {
      InList(f, n, s, o.items, rest, e);
    } else {
      var middle :| Reads(f.allowComments, s, [Expected(ObjectBegin, "{", true)] + RecordPrefix(o.entries, 0), middle)
        && Reads(f.allowComments, middle, [Expected(StringToken, o.name, true), Expected(MemberSeparator, ":", false)], rest);
      BadMember(f, n, middle, LastName(o.entries), o.name, rest, e);
      InRecord(f, n, s, o.entries, middle, e);
    }
  }

  /** From s the arrays and objects are opened one inside the other, and the last goes on at rest. */
  ghost predicate Nested(f: Features, s: string, opens: seq<Open>, rest: string)
    decreases |opens|
  {
    if opens == [] then s == rest
    else opens[0].Valid(f) && exists inside :: opens[0].Leads(f, s, inside) && Nested(f, inside, opens[1..], rest)
  }

  lemma {:induction false} InNested(f: Features, n: nat, s: string, opens: seq<Open>, rest: string, e: ErrorInfo)
    requires Nested(f, s, opens, rest) && ValueFails(f, n, rest, e)
    ensures ValueFails(f, n, s, e)
    decreases |opens|
  {
    hide ValueFails, Open.Valid, Open.Leads;
    if opens != [] {
      var inside :| opens[0].Leads(f, s, inside) && Nested(f, inside, opens[1..], rest);
      InNested(f, n, inside, opens[1..], rest, e);
      InOpen(f, n, s, opens[0], inside, e);
    }
  }

  /** A fault inside any number of open arrays and objects, behind any correct values, is the error of the document. */
  lemma FaultReported(f: Features, document: string, root: Value, opens: seq<Open>, rest: string, e: ErrorInfo)
    requires Nested(f, document, opens, rest) && ValueFails(f, |document|, rest, e)
    ensures var r := Parse(f, document, root);
            !r.ok && r.errors != [] && r.errors[0] == e
  {
    hide Nested, ReadValue, SkipCommentTokens, IsSuffix;
    InNested(f, |document|, document, opens, rest, e);
    assert Fails(ReadValue(f, |document|, document, root), e);
  }
}
