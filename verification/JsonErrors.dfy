// The errors of parse: on every document at most one from reading, which names
// a token of the document that the grammar does not allow there, and at most
// one about the root.

module JsonErrors {
  import opened CStrings
  import opened JsonValue
  import opened JsonNumbers
  import opened JsonStrings
  import opened JsonTokens
  import opened JsonParse

  /** The tokens that start no value; a comment is one where comments are not allowed. */
  predicate StartsNoValue(f: Features, kind: TokenType) {
    kind in {ObjectEnd, ArrayEnd, ArraySeparator, MemberSeparator, EndOfStream, ErrorToken}
    || (kind == Comment && !f.allowComments)
  }

  predicate IsStringMessage(message: Message) {
    message in {EmptyEscape, BadEscape, SixCharactersExpected, SecondSurrogateExpected, FourDigitsExpected, HexDigitExpected}
  }

  /** The message fits the token that the error names by its kind and its place in a document of n characters. */
  ghost predicate Justified(f: Features, n: nat, e: ErrorInfo, t: Scan)
    requires |t.rest| <= |t.start|
  {
    && e.kind == t.kind && e.start == n - |t.start| && e.end == n - |t.rest|
    && (e.message == ValueExpected ==> StartsNoValue(f, t.kind))
    && (e.message == MissingColon ==> t.kind != MemberSeparator)
    && (e.message == MissingCommaOrBrace ==> t.kind != ObjectEnd && t.kind != ArraySeparator && t.kind != Comment)
    && (e.message == MissingBraceOrName ==> t.kind != StringToken && t.kind != Comment)
    && (e.message == NotANumber ==> t.kind == NumberToken && DecodeNumber(f, t.Text()) == None)
    && (IsStringMessage(e.message) ==>
          && t.kind == StringToken && |t.Text()| >= 2
          && DecodeBody(Body(t)).BadText? && DecodeBody(Body(t)).message == e.message
          && e.extra == Some(e.end - 1 - DecodeBody(Body(t)).unread))
    && (!IsStringMessage(e.message) ==> e.extra == None)
    && e.message != MissingCommaOrBracket && e.message != RootMustBeArrayOrObject
  }

  /** Some token of s justifies the error. */
  ghost predicate Reported(f: Features, n: nat, s: string, e: ErrorInfo) {
    exists u: string :: IsSuffix(u, s) && Justified(f, n, e, ReadToken(u))
  }

  ghost predicate OneReported(f: Features, n: nat, s: string, errors: seq<ErrorInfo>) {
    |errors| <= 1 && forall k :: 0 <= k < |errors| ==> Reported(f, n, s, errors[k])
  }

  lemma Later(f: Features, n: nat, s: string, rest: string, errors: seq<ErrorInfo>)
    requires IsSuffix(rest, s) && OneReported(f, n, rest, errors)
    ensures OneReported(f, n, s, errors)
  {
    hide Justified, IsSuffix, ReadToken;
    if errors != [] {
      assert Reported(f, n, rest, errors[0]);
      var u :| IsSuffix(u, rest) && Justified(f, n, errors[0], ReadToken(u));
      SuffixTransitive(u, rest, s);
    }
  }

  lemma ReportedHere(f: Features, n: nat, s: string, u: string, e: ErrorInfo)
    requires IsSuffix(u, s) && Justified(f, n, e, ReadToken(u))
    ensures OneReported(f, n, s, [e])
  {
    hide Justified, IsSuffix, ReadToken;
  }

  /** The token found behind comments stands in the text, too. */
  lemma {:induction false} TokenAt(s: string) returns (u: string)
    ensures IsSuffix(u, s) && ReadToken(u) == ReadPastComments(s)
  {
    hide ReadToken;
    u := s;
    var t := ReadToken(s);
    if t.kind.Comment? {
      u := TokenAt(t.rest);
      SuffixTransitive(u, t.rest, s);
    }
  }

  lemma {:induction false} StringMessages(body: string)
    ensures DecodeBody(body).BadText? ==> IsStringMessage(DecodeBody(body).message)
    decreases |body|
  {
    hide CodePointToUTF8, SimpleEscape;
    if body == "" || body[0] == '"' {
    } else if body[0] != '\\' {
      StringMessages(body[1..]);
    } else if |body| > 1 {
      if body[1] != 'u' {
        StringMessages(body[2..]);
      } else if UnicodeEscape(body[2..]).CodePoint? {
        StringMessages(UnicodeEscape(body[2..]).rest);
      }
    }
  }

  /** A token that is refused on the spot. */
  lemma Refused(f: Features, n: nat, message: Message, t: Scan)
    requires |t.rest| <= |t.start|
    requires || (message == ValueExpected && StartsNoValue(f, t.kind))
             || (message == MissingColon && t.kind != MemberSeparator)
             || (message == MissingCommaOrBrace && t.kind != ObjectEnd && t.kind != ArraySeparator && t.kind != Comment)
             || (message == MissingBraceOrName && t.kind != StringToken && t.kind != Comment)
             || (message == NotANumber && t.kind == NumberToken && DecodeNumber(f, t.Text()) == None)
    ensures Justified(f, n, Problem(n, message, t), t)
  {
  }

  lemma StringRefused(f: Features, n: nat, t: Scan)
    requires |t.start| - |t.rest| >= 2 && t.kind == StringToken && DecodeBody(Body(t)).BadText?
    ensures var r := DecodeBody(Body(t)); Justified(f, n, StringProblem(n, r.message, t, r.unread), t)
  {
    hide DecodeBody;
    StringMessages(Body(t));
  }

  lemma {:induction false} ValueErrors(f: Features, n: nat, s: string, previous: Value)
    ensures OneReported(f, n, s, ReadValue(f, n, s, previous).errors)
    decreases |s|, 1
  {
    hide IsSuffix, ReadToken, ReadPastComments, DecodeNumber, DecodeBody, ReadArray, ReadMembers, Justified, Reported, StartsNoValue;
    var t := SkipCommentTokens(f, s);
    var u := s;
    if f.allowComments {
      u := TokenAt(s);
    } else {
      WholeSuffix(s);
    }
    if t.kind.ObjectBegin? {
      MembersErrors(f, n, t.rest, "", []);
      Later(f, n, s, t.rest, ReadMembers(f, n, t.rest, "", []).errors);
    } else if t.kind.ArrayBegin? {
      ArrayErrors(f, n, t.rest);
      Later(f, n, s, t.rest, ReadArray(f, n, t.rest).errors);
    } else if t.kind.StringToken? {
      if DecodeBody(Body(t)).BadText? {
        StringRefused(f, n, t);
        ReportedHere(f, n, s, u, ReadValue(f, n, s, previous).errors[0]);
      }
    } else if t.kind.NumberToken? {
      if DecodeNumber(f, t.Text()) == None {
        Refused(f, n, NotANumber, t);
        ReportedHere(f, n, s, u, Problem(n, NotANumber, t));
      }
    } else if !t.kind.TrueToken? && !t.kind.FalseToken? && !t.kind.NullToken? {
      NoOtherKind(f, t.kind);
      Refused(f, n, ValueExpected, t);
      ReportedHere(f, n, s, u, Problem(n, ValueExpected, t));
    }
  }

  lemma NoOtherKind(f: Features, kind: TokenType)
    requires !kind.ObjectBegin? && !kind.ArrayBegin? && !kind.StringToken? && !kind.NumberToken?
    requires !kind.TrueToken? && !kind.FalseToken? && !kind.NullToken? && (kind.Comment? ==> !f.allowComments)
    ensures StartsNoValue(f, kind)
  {
  }

  lemma WholeSuffix(s: string)
    ensures IsSuffix(s, s)
  {
  }

  lemma {:induction false} ArrayErrors(f: Features, n: nat, s: string)
    ensures OneReported(f, n, s, ReadArray(f, n, s).errors)
    decreases |s|, 3
  {
    hide IsSuffix, ReadToken, SkipSpaces, ReadItems, Justified, Reported;
    var inner := SkipSpaces(s);
    ItemsErrors(f, n, inner, []);
    Later(f, n, s, inner, ReadItems(f, n, inner, []).errors);
  }

  lemma {:induction false} ItemsErrors(f: Features, n: nat, s: string, items: seq<Value>)
    ensures OneReported(f, n, s, ReadItems(f, n, s, items).errors)
    decreases |s|, 2
  {
    hide IsSuffix, ReadToken, ReadPastComments, Recover, ReadValue, Justified, Reported;
    ValueErrors(f, n, s, Null);
    var item := ReadValue(f, n, s, Null);
    if item.ok {
      var t := ReadPastComments(item.rest);
      SuffixTransitive(t.rest, item.rest, s);
      ItemsErrors(f, n, t.rest, items + [item.value]);
      Later(f, n, s, t.rest, ReadItems(f, n, t.rest, items + [item.value]).errors);
    }
  }

  lemma {:induction false} MembersErrors(f: Features, n: nat, s: string, name: string, members: seq<Member>)
    ensures OneReported(f, n, s, ReadMembers(f, n, s, name, members).errors)
    decreases |s|, 3
  {
    hide IsSuffix, ReadHeader, ReadMemberValue, Justified, Reported;
    HeaderErrors(f, n, s, name);
    var h := ReadHeader(n, s, name);
    if h.Named? {
      MemberErrors(f, n, h.rest, h.name, members);
      Later(f, n, s, h.rest, ReadMemberValue(f, n, h.rest, h.name, members).errors);
    }
  }

  lemma HeaderErrors(f: Features, n: nat, s: string, name: string)
    ensures ReadHeader(n, s, name).Broken? ==> OneReported(f, n, s, ReadHeader(n, s, name).errors)
  {
    hide IsSuffix, ReadToken, ReadPastComments, Recover, DecodeBody, Justified, Reported, OneReported;
    var t := ReadPastComments(s);
    var u := TokenAt(s);
    if t.kind.StringToken? {
      if DecodeBody(Body(t)).BadText? {
        StringRefused(f, n, t);
        ReportedHere(f, n, s, u, StringProblem(n, DecodeBody(Body(t)).message, t, DecodeBody(Body(t)).unread));
      } else if !ReadToken(t.rest).kind.MemberSeparator? {
        Refused(f, n, MissingColon, ReadToken(t.rest));
        ReportedHere(f, n, s, t.rest, Problem(n, MissingColon, ReadToken(t.rest)));
      }
    } else {
      Refused(f, n, MissingBraceOrName, t);
      ReportedHere(f, n, s, u, Problem(n, MissingBraceOrName, t));
    }
  }

  lemma {:induction false} MemberErrors(f: Features, n: nat, s: string, name: string, members: seq<Member>)
    ensures OneReported(f, n, s, ReadMemberValue(f, n, s, name, members).errors)
    decreases |s|, 2
  {
    hide IsSuffix, ReadToken, ReadPastComments, Recover, ReadValue, Put, CStr, Slot, ReadMembers, ReadTrailer, Justified, Reported;
    var key := CStr(name);
    ValueErrors(f, n, s, Slot(members, key));
    var member := ReadValue(f, n, s, Slot(members, key));
    if member.ok {
      var trailer := ReadTrailer(n, member.rest);
      SuffixTransitive(trailer.rest, member.rest, s);
      TrailerErrors(f, n, member.rest);
      if trailer.More? {
        var members' := Put(members, key, member.value);
        MembersErrors(f, n, trailer.rest, name, members');
        Later(f, n, s, trailer.rest, ReadMembers(f, n, trailer.rest, name, members').errors);
      } else if trailer.BadTrailer? {
        Later(f, n, s, member.rest, trailer.errors);
      }
    }
  }

  lemma TrailerErrors(f: Features, n: nat, s: string)
    ensures ReadTrailer(n, s).BadTrailer? ==> OneReported(f, n, s, ReadTrailer(n, s).errors)
  {
    hide IsSuffix, ReadToken, ReadPastComments, Recover, Justified, Reported, OneReported;
    WholeSuffix(s);
    if ReadTrailer(n, s).BadTrailer? {
      Refused(f, n, MissingCommaOrBrace, ReadToken(s));
      ReportedHere(f, n, s, s, Problem(n, MissingCommaOrBrace, ReadToken(s)));
    }
  }

  /**
   * On every document: at most one error from reading, at a token that
   * justifies it, and behind it the error about the root, exactly when the
   * root has to be an array or object and is neither of them nor null.
   */
  lemma ParseErrors(f: Features, document: string, root: Value)
    ensures var r := Parse(f, document, root);
            var v := r.value;
            var refused := f.strictRoot && (v.Int? || v.UInt? || v.Real? || v.Str? || v.Bool?);
            exists reading: seq<ErrorInfo> ::
              && OneReported(f, |document|, document, reading)
              && r.errors == reading + if refused then [ErrorInfo(RootMustBeArrayOrObject, ErrorToken, 0, |document|, None)] else []
  {
    hide ReadValue, SkipCommentTokens, IsSuffix, Reported;
    var reading := ReadValue(f, |document|, document, root).errors;
    ValueErrors(f, |document|, document, root);
    assert reading + [] == reading;
  }
}
