// The grammar level of Json::Reader as functions on the unread document: what
// parse returns, the value it builds, what it leaves unread and the errors it
// records. Class Reader in JsonReader.dfy is proved to compute these.

module JsonParse {
  import opened CStrings
  import opened JsonValue
  import opened JsonNumbers
  import opened JsonStrings
  import opened JsonTokens

  /** scanDouble stands for sscanf with "%lf" on the text of a number token. */
  datatype Features = Features(allowComments: bool, strictRoot: bool, scanDouble: string -> Option<real>)

  /** Locations are offsets into the document. */
  datatype ErrorInfo = ErrorInfo(message: Message, kind: TokenType, start: int, end: int, extra: Option<int>)

  /** The result of reading: success, the value of the node, the unread rest, the errors added. */
  datatype Outcome = Outcome(ok: bool, value: Value, rest: string, errors: seq<ErrorInfo>)

  function Problem(n: nat, message: Message, t: Scan): ErrorInfo {
    ErrorInfo(message, t.kind, n - |t.start|, n - |t.rest|, None)
  }

  /** An error inside a string literal of which `unread` characters were left. */
  function StringProblem(n: nat, message: Message, t: Scan, unread: nat): ErrorInfo {
    Problem(n, message, t).(extra := Some(n - |t.rest| - 1 - unread))
  }

  function SkipCommentTokens(f: Features, s: string): (t: Scan)
    ensures IsSuffix(t.start, s) && IsSuffix(t.rest, t.start) && IsSuffix(t.rest, s)
    ensures |t.rest| <= |t.start| <= |s|
    ensures !t.kind.EndOfStream? ==> |t.rest| < |t.start| <= |s|
    ensures t.kind.StringToken? ==> |t.start| - |t.rest| >= 2
  {
    if f.allowComments then ReadPastComments(s) else ReadToken(s)
  }

  /** The characters between the quotes of a string token. */
  function Body(t: Scan): string
    requires |t.start| - |t.rest| >= 2
  {
    t.Text()[1..|t.start| - |t.rest| - 1]
  }

  /** decodeNumber, including the fall through to decodeDouble. */
  function DecodeNumber(f: Features, text: string): Option<Value> {
    match NumberOf(text)
    case Integer(value) => Some(value)
    case Malformed => None
    case Double =>
      match f.scanDouble(text)
      case None => None
      case Some(r) => Some(Real(r))
  }

  /** readValue: `previous` is the value of the node before the call. */
  function ReadValue(f: Features, n: nat, s: string, previous: Value): (r: Outcome)
    ensures IsSuffix(r.rest, s) && |r.rest| <= |s|
    ensures r.ok ==> |r.rest| < |s|
    ensures r.ok <==> r.errors == []
    decreases |s|, 1
  {
    hide IsSuffix, ReadToken, ReadPastComments, DecodeBody, SkipSpaces;
    var t := SkipCommentTokens(f, s);
    match t.kind
    case ObjectBegin =>
      var r := ReadObject(f, n, t.rest);
      SuffixTransitive(r.rest, t.rest, s);
      r
    case ArrayBegin =>
      var r := ReadArray(f, n, t.rest);
      SuffixTransitive(r.rest, t.rest, s);
      r
    case NumberToken =>
      (match DecodeNumber(f, t.Text())
       case Some(value) => Outcome(true, value, t.rest, [])
       case None => Outcome(false, previous, t.rest, [Problem(n, NotANumber, t)]))
    case StringToken =>
      (match DecodeBody(Body(t))
       case Text(text) => Outcome(true, Str(CStr(text)), t.rest, [])
       case BadText(message, unread) => Outcome(false, previous, t.rest, [StringProblem(n, message, t, unread)]))
    case TrueToken => Outcome(true, Bool(true), t.rest, [])
    case FalseToken => Outcome(true, Bool(false), t.rest, [])
    case NullToken => Outcome(true, Null, t.rest, [])
    case _ => Outcome(false, previous, t.rest, [Problem(n, ValueExpected, t)])
  }

  /** readArray, after the '['. */
  function ReadArray(f: Features, n: nat, s: string): (r: Outcome)
    ensures IsSuffix(r.rest, s) && |r.rest| <= |s|
    ensures r.ok ==> |r.rest| < |s|
    ensures r.ok <==> r.errors == []
    decreases |s|, 3
  {
    hide IsSuffix, ReadToken;
    var inner := SkipSpaces(s);
    if At(inner, 0) == ']' then
      var end := ReadToken(inner);
      SuffixTransitive(end.rest, inner, s);
      Outcome(true, Array([]), end.rest, [])
    else
      var r := ReadItems(f, n, inner, []);
      SuffixTransitive(r.rest, inner, s);
      r
  }

  /** badTokenType, the test readArray applies to the token after an element, as the source writes it. */
  predicate BadSeparator(kind: TokenType) { kind == ArraySeparator && kind == ArrayEnd }

  /** The loop of readArray, `items` being the entries read so far. */
  function ReadItems(f: Features, n: nat, s: string, items: seq<Value>): (r: Outcome)
    ensures IsSuffix(r.rest, s) && |r.rest| <= |s|
    ensures r.ok ==> |r.rest| < |s|
    ensures r.ok <==> r.errors == []
    decreases |s|, 2
  {
    hide IsSuffix, ReadToken, ReadPastComments, Recover, BadSeparator;
    var item := ReadValue(f, n, s, Null);
    var items' := items + [item.value];
    if !item.ok then
      var rest := Recover(item.rest, ArrayEnd);
      SuffixTransitive(rest, item.rest, s);
      Outcome(false, Array(items'), rest, item.errors)
    else
      var t := ReadPastComments(item.rest);
      SuffixTransitive(t.rest, item.rest, s);
      if BadSeparator(t.kind) then
        var rest := Recover(t.rest, ArrayEnd);
        SuffixTransitive(rest, t.rest, s);
        Outcome(false, Array(items'), rest, [Problem(n, MissingCommaOrBracket, t)])
      else if t.kind.ArrayEnd? then Outcome(true, Array(items'), t.rest, [])
      else
        var r := ReadItems(f, n, t.rest, items');
        SuffixTransitive(r.rest, t.rest, s);
        r
  }

  /** What stands before a member value: the closing brace, a name and a colon, or an error. */
  datatype Header =
    | Closed(rest: string)
    | Named(name: string, rest: string)
    | Broken(rest: string, errors: seq<ErrorInfo>)

  /** readObject up to the colon of a member, `name` being the last member name read. */
  function ReadHeader(n: nat, s: string, name: string): (h: Header)
    ensures IsSuffix(h.rest, s) && |h.rest| <= |s|
    ensures !h.Broken? ==> |h.rest| < |s|
    ensures h.Broken? ==> h.errors != []
  {
    hide IsSuffix, ReadToken, ReadPastComments, Recover, DecodeBody;
    var t := ReadPastComments(s);
    if t.kind.ObjectEnd? && name == "" then Closed(t.rest)
    else if !t.kind.StringToken? then
      SuffixTransitive(Recover(t.rest, ObjectEnd), t.rest, s);
      Broken(Recover(t.rest, ObjectEnd), [Problem(n, MissingBraceOrName, t)])
    else
      match DecodeBody(Body(t))
      case BadText(message, unread) =>
        SuffixTransitive(Recover(t.rest, ObjectEnd), t.rest, s);
        Broken(Recover(t.rest, ObjectEnd), [StringProblem(n, message, t, unread)])
      case Text(name') =>
        var colon := ReadToken(t.rest);
        SuffixTransitive(colon.rest, t.rest, s);
        if !colon.kind.MemberSeparator? then
          SuffixTransitive(Recover(colon.rest, ObjectEnd), colon.rest, s);
          Broken(Recover(colon.rest, ObjectEnd), [Problem(n, MissingColon, colon)])
        else Named(name', colon.rest)
  }

  /** What stands after a member value: a comma, the closing brace, or an error. */
  datatype Trailer =
    | More(rest: string)
    | End(rest: string)
    | BadTrailer(rest: string, errors: seq<ErrorInfo>)

  /** readObject from the end of a member value to the next round of its loop. */
  function ReadTrailer(n: nat, s: string): (r: Trailer)
    ensures IsSuffix(r.rest, s) && |r.rest| <= |s|
    ensures r.BadTrailer? ==> r.errors != []
  {
    hide IsSuffix, ReadToken, ReadPastComments, Recover;
    var comma := ReadToken(s);
    if !comma.kind.ObjectEnd? && !comma.kind.ArraySeparator? && !comma.kind.Comment? then
      SuffixTransitive(Recover(comma.rest, ObjectEnd), comma.rest, s);
      BadTrailer(Recover(comma.rest, ObjectEnd), [Problem(n, MissingCommaOrBrace, comma)])
    else
      // After a comment any token other than '}' is taken for the comma.
      var last := if comma.kind.Comment? then ReadPastComments(comma.rest) else comma;
      SuffixTransitive(last.rest, comma.rest, s);
      if last.kind.ObjectEnd? then End(last.rest) else More(last.rest)
  }

  /** readObject, after the '{'. */
  function ReadObject(f: Features, n: nat, s: string): (r: Outcome)
    ensures IsSuffix(r.rest, s) && |r.rest| <= |s|
    ensures r.ok ==> |r.rest| < |s|
    ensures r.ok <==> r.errors == []
    decreases |s|, 3
  {
    hide IsSuffix;
    ReadMembers(f, n, s, "", [])
  }

  /** The loop of readObject, `name` being the last member name read. */
  function ReadMembers(f: Features, n: nat, s: string, name: string, members: seq<Member>): (r: Outcome)
    ensures IsSuffix(r.rest, s) && |r.rest| <= |s|
    ensures r.ok ==> |r.rest| < |s|
    ensures r.ok <==> r.errors == []
    decreases |s|, 2
  {
    hide IsSuffix, ReadHeader;
    match ReadHeader(n, s, name)
    case Closed(rest) => Outcome(true, Object(members), rest, [])
    case Broken(rest, errors) => Outcome(false, Object(members), rest, errors)
    case Named(name', rest) =>
      var r := ReadMemberValue(f, n, rest, name', members);
      SuffixTransitive(r.rest, rest, s);
      r
  }

  /** readObject from the value of the member called `name` on. */
  function ReadMemberValue(f: Features, n: nat, s: string, name: string, members: seq<Member>): (r: Outcome)
    ensures IsSuffix(r.rest, s) && |r.rest| <= |s|
    ensures r.ok ==> |r.rest| < |s|
    ensures r.ok <==> r.errors == []
    decreases |s|, 2
  {
    hide IsSuffix, ReadTrailer, Recover, Put, Find;
    var key := CStr(name);
    var member := ReadValue(f, n, s, Slot(members, key));
    var members' := Put(members, key, member.value);
    if !member.ok then
      SuffixTransitive(Recover(member.rest, ObjectEnd), member.rest, s);
      Outcome(false, Object(members'), Recover(member.rest, ObjectEnd), member.errors)
    else
      var trailer := ReadTrailer(n, member.rest);
      SuffixTransitive(trailer.rest, member.rest, s);
      match trailer
      case BadTrailer(rest, errors) => Outcome(false, Object(members'), rest, errors)
      case End(rest) => Outcome(true, Object(members'), rest, [])
      case More(rest) =>
        var r := ReadMembers(f, n, rest, name, members');
        SuffixTransitive(r.rest, rest, s);
        r
  }

  /** Reader::parse: `ok` is the returned flag, `value` the root. */
  function Parse(f: Features, document: string, root: Value): (r: Outcome)
    ensures r.ok <==> r.errors == []
    ensures IsSuffix(r.rest, document)
  {
    var n := |document|;
    var r := ReadValue(f, n, document, root);
    var t := SkipCommentTokens(f, r.rest);
    SuffixTransitive(t.rest, r.rest, document);
    if f.strictRoot && !r.value.IsArray() && !r.value.IsObject() then
      Outcome(false, r.value, t.rest, r.errors + [ErrorInfo(RootMustBeArrayOrObject, ErrorToken, 0, n, None)])
    else r.(rest := t.rest)
  }
}
