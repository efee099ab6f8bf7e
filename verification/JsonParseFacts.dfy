// What parse guarantees about its result on every document.

module JsonParseFacts {
  import opened CStrings
  import opened JsonValue
  import opened JsonNumbers
  import opened JsonStrings
  import opened JsonTokens
  import opened JsonParse

  // ---- every parsed value is well formed ----

  lemma {:induction false} AccumulateWellFormed(negative: bool, unread: string, value: nat)
    requires value < 10 * Threshold(negative)
    ensures Accumulate(negative, unread, value).Integer? ==> WellFormed(Accumulate(negative, unread, value).value)
  {
    if unread != "" && IsDigit(unread[0]) && value < Threshold(negative) {
      AccumulateWellFormed(negative, unread[1..], value * 10 + (unread[0] - '0') as nat);
    }
  }

  lemma DecodedNumberWellFormed(f: Features, text: string)
    ensures DecodeNumber(f, text).Some? ==> WellFormed(DecodeNumber(f, text).value)
  {
    AccumulateWellFormed(Negative(text), Magnitude(text), 0);
  }

  lemma {:induction false} ReadValueWellFormed(f: Features, n: nat, s: string, previous: Value)
    requires WellFormed(previous)
    ensures WellFormed(ReadValue(f, n, s, previous).value)
    decreases |s|, 1
  {
    hide IsSuffix, ReadToken, ReadPastComments, DecodeNumber, DecodeBody, ReadArray, ReadObject;
    var t := SkipCommentTokens(f, s);
    if t.kind.ObjectBegin? {
      ObjectWellFormed(f, n, t.rest);
    } else if t.kind.ArrayBegin? {
      ArrayWellFormed(f, n, t.rest);
    } else if t.kind.NumberToken? {
      DecodedNumberWellFormed(f, t.Text());
    }
  }

  lemma {:induction false} ArrayWellFormed(f: Features, n: nat, s: string)
    ensures WellFormed(ReadArray(f, n, s).value)
    decreases |s|, 3
  {
    hide IsSuffix, ReadToken, SkipSpaces, ReadItems;
    ItemsWellFormed(f, n, SkipSpaces(s), []);
  }

  lemma {:induction false} ItemsWellFormed(f: Features, n: nat, s: string, items: seq<Value>)
    requires forall k :: 0 <= k < |items| ==> WellFormed(items[k])
    ensures WellFormed(ReadItems(f, n, s, items).value)
    decreases |s|, 2
  {
    hide IsSuffix, ReadToken, ReadPastComments, Recover, ReadValue;
    ReadValueWellFormed(f, n, s, Null);
    var item := ReadValue(f, n, s, Null);
    if item.ok {
      ItemsWellFormed(f, n, ReadPastComments(item.rest).rest, items + [item.value]);
    }
  }

  lemma {:induction false} ObjectWellFormed(f: Features, n: nat, s: string)
    ensures WellFormed(ReadObject(f, n, s).value)
    decreases |s|, 4
  {
    hide ReadMembers;
    MembersWellFormed(f, n, s, "", []);
  }

  lemma {:induction false} MembersWellFormed(f: Features, n: nat, s: string, name: string, members: seq<Member>)
    requires WellFormed(Object(members))
    ensures WellFormed(ReadMembers(f, n, s, name, members).value)
    decreases |s|, 3
  {
    hide IsSuffix, ReadHeader, ReadMemberValue;
    var h := ReadHeader(n, s, name);
    if h.Named? {
      MemberValueWellFormed(f, n, h.rest, h.name, members);
    }
  }

  lemma {:induction false} MemberValueWellFormed(f: Features, n: nat, s: string, name: string, members: seq<Member>)
    requires WellFormed(Object(members))
    ensures WellFormed(ReadMemberValue(f, n, s, name, members).value)
    decreases |s|, 2
  {
    hide IsSuffix, ReadTrailer, Recover, ReadValue, Put, CStr, ReadMembers;
    var key := CStr(name);
    SlotWellFormed(members, key);
    ReadValueWellFormed(f, n, s, Slot(members, key));
    var member := ReadValue(f, n, s, Slot(members, key));
    PutWellFormed(members, key, member.value);
    if member.ok && ReadTrailer(n, member.rest).More? {
      MembersWellFormed(f, n, ReadTrailer(n, member.rest).rest, name, Put(members, key, member.value));
    }
  }

  lemma {:induction false} SlotWellFormed(members: seq<Member>, name: string)
    requires forall k :: 0 <= k < |members| ==> WellFormed(members[k].value)
    ensures WellFormed(Slot(members, name))
  {
    if members != [] && members[0].name != name {
      SlotWellFormed(members[1..], name);
    }
  }

  lemma PutWellFormed(members: seq<Member>, name: string, value: Value)
    requires WellFormed(Object(members)) && NulFree(name) && WellFormed(value)
    ensures WellFormed(Object(Put(members, name, value)))
  {
    PutKeepsSorted(members, name, value);
    hide Put;
    var r := Put(members, name, value);
    forall k | 0 <= k < |r| ensures NulFree(r[k].name) && WellFormed(r[k].value) {
      assert r[k] in r;
    }
  }

  /** On every document, valid or not, parse leaves a well-formed root. */
  lemma ParseWellFormed(f: Features, document: string, root: Value)
    requires WellFormed(root)
    ensures WellFormed(Parse(f, document, root).value)
  {
    hide ReadValue, SkipCommentTokens, IsSuffix, WellFormed;
    ReadValueWellFormed(f, |document|, document, root);
  }

  // ---- the separator test of readArray rejects nothing ----

  /** No error says that a comma or bracket is missing in an array. */
  predicate NoBracketError(errors: seq<ErrorInfo>) {
    forall k :: 0 <= k < |errors| ==> !errors[k].message.MissingCommaOrBracket?
  }

  lemma {:induction false} BodyErrors(body: string)
    ensures DecodeBody(body).BadText? ==> !DecodeBody(body).message.MissingCommaOrBracket?
    decreases |body|
  {
    hide CodePointToUTF8, SimpleEscape;
    if body == "" || body[0] == '"' {
    } else if body[0] != '\\' {
      BodyErrors(body[1..]);
    } else if |body| > 1 {
      if body[1] != 'u' {
        BodyErrors(body[2..]);
      } else if UnicodeEscape(body[2..]).CodePoint? {
        BodyErrors(UnicodeEscape(body[2..]).rest);
      }
    }
  }

  lemma {:induction false} ValueErrors(f: Features, n: nat, s: string, previous: Value)
    ensures NoBracketError(ReadValue(f, n, s, previous).errors)
    decreases |s|, 1
  {
    hide IsSuffix, ReadToken, ReadPastComments, DecodeNumber, DecodeBody, ReadArray, ReadMembers;
    var t := SkipCommentTokens(f, s);
    if t.kind.ObjectBegin? {
      MembersErrors(f, n, t.rest, "", []);
    } else if t.kind.ArrayBegin? {
      ArrayErrors(f, n, t.rest);
    } else if t.kind.StringToken? {
      BodyErrors(Body(t));
    }
  }

  lemma {:induction false} ArrayErrors(f: Features, n: nat, s: string)
    ensures NoBracketError(ReadArray(f, n, s).errors)
    decreases |s|, 3
  {
    hide IsSuffix, ReadToken, SkipSpaces, ReadItems;
    ItemsErrors(f, n, SkipSpaces(s), []);
  }

  lemma {:induction false} ItemsErrors(f: Features, n: nat, s: string, items: seq<Value>)
    ensures NoBracketError(ReadItems(f, n, s, items).errors)
    decreases |s|, 2
  {
    hide IsSuffix, ReadToken, ReadPastComments, Recover, ReadValue;
    ValueErrors(f, n, s, Null);
    var item := ReadValue(f, n, s, Null);
    if item.ok {
      ItemsErrors(f, n, ReadPastComments(item.rest).rest, items + [item.value]);
    }
  }

  lemma {:induction false} MembersErrors(f: Features, n: nat, s: string, name: string, members: seq<Member>)
    ensures NoBracketError(ReadMembers(f, n, s, name, members).errors)
    decreases |s|, 3
  {
    hide IsSuffix, ReadHeader, ReadMemberValue;
    HeaderErrors(n, s, name);
    var h := ReadHeader(n, s, name);
    if h.Named? {
      MemberErrors(f, n, h.rest, h.name, members);
    }
  }

  lemma HeaderErrors(n: nat, s: string, name: string)
    ensures ReadHeader(n, s, name).Broken? ==> NoBracketError(ReadHeader(n, s, name).errors)
  {
    hide IsSuffix, ReadToken, ReadPastComments, Recover, DecodeBody;
    var t := ReadPastComments(s);
    if t.kind.StringToken? {
      BodyErrors(Body(t));
    }
  }

  lemma {:induction false} MemberErrors(f: Features, n: nat, s: string, name: string, members: seq<Member>)
    ensures NoBracketError(ReadMemberValue(f, n, s, name, members).errors)
    decreases |s|, 2
  {
    hide IsSuffix, ReadToken, ReadPastComments, Recover, ReadValue, Put, CStr, Slot, ReadMembers;
    var key := CStr(name);
    ValueErrors(f, n, s, Slot(members, key));
    var member := ReadValue(f, n, s, Slot(members, key));
    if member.ok && ReadTrailer(n, member.rest).More? {
      MembersErrors(f, n, ReadTrailer(n, member.rest).rest, name, Put(members, key, member.value));
    }
  }

  /** On every document: the branch that reports a missing comma or bracket is never taken. */
  lemma SeparatorNeverMissing(f: Features, document: string, root: Value)
    ensures NoBracketError(Parse(f, document, root).errors)
  {
    hide ReadValue, SkipCommentTokens, IsSuffix;
    ValueErrors(f, |document|, document, root);
  }
}
