// Json::Reader with its mutable state: the read position, the error list and
// the stack of nodes under construction.

module JsonReader {
  import opened CStrings
  import opened JsonValue
  import opened JsonNumbers
  import opened JsonStrings
  import opened JsonTokens
  import opened JsonParse

  // ---- nodes as places inside the root value ----

  /** A Value* into the tree under the root: which entry to follow at each level. */
  datatype Step = Key(name: string) | Index(i: nat)
  type Place = seq<Step>

  predicate HasStep(v: Value, step: Step) {
    match step
    case Key(name) => v.Object? && Sorted(v.members) && Find(v.members, name).Some?
    case Index(i) => v.Array? && i < |v.items|
  }

  function StepInto(v: Value, step: Step): (r: Value)
    requires HasStep(v, step)
  {
    match step
    case Key(name) => Find(v.members, name).value
    case Index(i) => v.items[i]
  }

  function StepStore(v: Value, step: Step, w: Value): Value
    requires HasStep(v, step)
  {
    match step
    case Key(name) => Object(Put(v.members, name, w))
    case Index(i) => Array(v.items[i := w])
  }

  predicate HasPlace(v: Value, place: Place)
    decreases place
  {
    place == [] || (HasStep(v, place[0]) && HasPlace(StepInto(v, place[0]), place[1..]))
  }

  /** *node */
  function Load(v: Value, place: Place): Value
    requires HasPlace(v, place)
    decreases place
  {
    if place == [] then v else Load(StepInto(v, place[0]), place[1..])
  }

  /** *node = w */
  function Store(v: Value, place: Place, w: Value): Value
    requires HasPlace(v, place)
    decreases place
  {
    if place == [] then w else StepStore(v, place[0], Store(StepInto(v, place[0]), place[1..], w))
  }

  lemma StepStoreThenLoad(v: Value, step: Step, a: Value, b: Value)
    requires HasStep(v, step)
    ensures HasStep(StepStore(v, step, a), step)
    ensures StepInto(StepStore(v, step, a), step) == a
    ensures StepStore(StepStore(v, step, a), step, b) == StepStore(v, step, b)
  {
    if step.Key? {
      PutKeepsSorted(v.members, step.name, a);
      PutTwice(v.members, step.name, a, b);
    }
  }

  lemma {:induction false} StoreThenLoad(v: Value, place: Place, a: Value, b: Value)
    requires HasPlace(v, place)
    ensures HasPlace(Store(v, place, a), place)
    ensures Load(Store(v, place, a), place) == a
    ensures Store(Store(v, place, a), place, b) == Store(v, place, b)
    decreases place
  {
    if place != [] {
      var child := StepInto(v, place[0]);
      StoreThenLoad(child, place[1..], a, b);
      StepStoreThenLoad(v, place[0], Store(child, place[1..], a), Store(child, place[1..], b));
    }
  }

  lemma {:induction false} StoreLoaded(v: Value, place: Place)
    requires HasPlace(v, place)
    ensures Store(v, place, Load(v, place)) == v
    decreases place
  {
    if place != [] {
      StoreLoaded(StepInto(v, place[0]), place[1..]);
      if place[0].Key? {
        PutSame(v.members, place[0].name);
      }
    }
  }

  /** Storing at an entry of a node is storing the changed node. */
  lemma {:induction false} StoreBelow(v: Value, place: Place, node: Value, step: Step, w: Value)
    requires HasPlace(v, place) && HasStep(node, step)
    ensures HasPlace(Store(v, place, node), place + [step])
    ensures Load(Store(v, place, node), place + [step]) == StepInto(node, step)
    ensures Store(Store(v, place, node), place + [step], w) == Store(v, place, StepStore(node, step, w))
    decreases place
  {
    if place == [] {
      assert [step][1..] == [];
      assert place + [step] == [step];
    } else {
      var child := StepInto(v, place[0]);
      StoreBelow(child, place[1..], node, step, w);
      assert (place + [step])[1..] == place[1..] + [step];
      StepStoreThenLoad(v, place[0], Store(child, place[1..], node), Store(child, place[1..], StepStore(node, step, w)));
    }
  }

  /** Class Token: offsets of the first character and of the one after the last. */
  datatype TokenInfo = TokenInfo(kind: TokenType, start: nat, end: nat)

  lemma CommentStep(s: string)
    ensures SkipCStyleComment(s)
            == if s == "" then (false, s)
               else if s[0] == '*' && At(s, 1) == '/' then (true, s[2..])
               else SkipCStyleComment(s[1..])
  {
  }

  lemma StringStep(s: string)
    ensures SkipString(s)
            == if s == "" then (false, s)
               else if s[0] == '\\' then (if |s| == 1 then (false, s[1..]) else SkipString(s[2..]))
               else if s[0] == '"' then (true, s[1..])
               else SkipString(s[1..])
  {
  }

  lemma BodyStep(body: string)
    ensures DecodeBody(body)
            == if body == "" || body[0] == '"' then Text("")
               else if body[0] != '\\' then Prepend([body[0]], DecodeBody(body[1..]))
               else if |body| == 1 then BadText(EmptyEscape, 0)
               else if body[1] == 'u' then
                 (var u := UnicodeEscape(body[2..]);
                  if u.BadCodePoint? then BadText(u.message, u.unread)
                  else Prepend(CodePointToUTF8(u.code), DecodeBody(u.rest)))
               else if SimpleEscape(body[1]) != "" then Prepend(SimpleEscape(body[1]), DecodeBody(body[2..]))
               else BadText(BadEscape, |body| - 2)
  {
    hide UnicodeEscape, CodePointToUTF8, SimpleEscape;
  }

  /** The size of the buffer in decodeDouble. */
  const BUFFER_SIZE := 32

  /**
   * The copy that decodeDouble makes for sscanf, in a local buffer or, if the
   * token is longer than that, in a std::string. The source has room for the
   * characters but not for the terminator of a token as long as the buffer;
   * the buffer here is longer by that one, and `overrun` says that it is used.
   */
  method CopyToken(text: string) returns (copied: string, overrun: bool)
    ensures copied == text && (overrun <==> |text| == BUFFER_SIZE)
  {
    if |text| > BUFFER_SIZE {
      return text, false;
    }
    var buffer := new char[BUFFER_SIZE + 1](_ => NUL);
    forall i | 0 <= i < |text| { buffer[i] := text[i]; }
    buffer[|text|] := NUL;
    overrun := |text| >= BUFFER_SIZE;
    copied := buffer[..|text|];
  }

  class Reader {
    const features: Features
    var document: string
    var current: nat
    var errors: seq<ErrorInfo>
    var nodes: seq<Place>
    var root: Value

    constructor (features: Features)
      ensures this.features == features
    {
      this.features := features;
      document := "";
      current := 0;
      errors := [];
      nodes := [];
      root := Null;
    }

    ghost predicate InDocument()
      reads `current, `document
    {
      current <= |document|
    }

    /** There is a current node and it is part of the tree under the root. */
    ghost predicate HasNode()
      reads `nodes, `root
    {
      nodes != [] && HasPlace(root, nodes[|nodes| - 1])
    }

    ghost function Top(): Place
      requires nodes != []
      reads `nodes
    {
      nodes[|nodes| - 1]
    }

    ghost function CurrentValue(): Value
      requires HasNode()
      reads `nodes, `root
    {
      Load(root, Top())
    }

    ghost function Unread(): string
      requires InDocument()
      reads `current, `document
    {
      document[current..]
    }

    ghost predicate Describes(token: TokenInfo, t: Scan)
      reads `document
    {
      && token.kind == t.kind
      && IsSuffix(t.start, document) && IsSuffix(t.rest, t.start)
      && token.start == |document| - |t.start|
      && token.end == |document| - |t.rest|
    }

    // ---- characters ----

    method GetNextChar() returns (c: char)
      requires InDocument()
      modifies `current
      ensures InDocument()
      ensures c == At(old(Unread()), 0)
      ensures Unread() == if old(Unread()) == "" then "" else old(Unread())[1..]
    {
      if current == |document| {
        return NUL;
      }
      c := document[current];
      current := current + 1;
    }

    method SkipSpaces()
      requires InDocument()
      modifies `current
      ensures InDocument()
      ensures Unread() == JsonTokens.SkipSpaces(old(Unread()))
    {
      while current != |document|
        invariant InDocument()
        invariant JsonTokens.SkipSpaces(Unread()) == JsonTokens.SkipSpaces(old(Unread()))
        decreases |document| - current
      {
        if !IsSpace(document[current]) {
          break;
        }
        assert Unread()[1..] == document[current + 1..];
        current := current + 1;
      }
    }

    method Match(pattern: string) returns (ok: bool)
      requires InDocument()
      modifies `current
      ensures InDocument()
      ensures (ok, Unread()) == JsonTokens.Match(old(Unread()), pattern)
    {
      if |document| - current < |pattern| {
        return false;
      }
      var index := |pattern|;
      while index > 0
        invariant 0 <= index <= |pattern| <= |document| - current
        invariant forall k :: index <= k < |pattern| ==> document[current + k] == pattern[k]
      {
        index := index - 1;
        if document[current + index] != pattern[index] {
          assert Unread()[index] != pattern[index];
          return false;
        }
      }
      assert Unread()[..|pattern|] == pattern;
      assert Unread()[|pattern|..] == document[current + |pattern|..];
      current := current + |pattern|;
      ok := true;
    }

    method ReadComment() returns (ok: bool)
      requires InDocument()
      modifies `current
      ensures InDocument()
      ensures (ok, Unread()) == SkipComment(old(Unread()))
    {
      var c := GetNextChar();
      ok := false;
      if c == '*' {
        ok := ReadCStyleComment();
      } else if c == '/' {
        ok := ReadCppStyleComment();
      }
    }

    method ReadCStyleComment() returns (ok: bool)
      requires InDocument()
      modifies `current
      ensures InDocument()
      ensures (ok, Unread()) == SkipCStyleComment(old(Unread()))
    {
      hide SkipCStyleComment;
      while current != |document|
        invariant InDocument()
        invariant SkipCStyleComment(Unread()) == SkipCStyleComment(old(Unread()))
        decreases |document| - current
      {
        ghost var before := Unread();
        CommentStep(before);
        var c := GetNextChar();
        if c == '*' && At(document, current) == '/' {
          assert before[1] == '/';
          assert before[2..] == Unread()[1..];
          var slash := GetNextChar();
          return slash == '/';
        }
      }
      CommentStep(Unread());
      var end := GetNextChar();
      ok := end == '/';
    }

    method ReadCppStyleComment() returns (ok: bool)
      requires InDocument()
      modifies `current
      ensures InDocument()
      ensures ok && Unread() == SkipCppStyleComment(old(Unread()))
    {
      while current != |document|
        invariant InDocument()
        invariant SkipCppStyleComment(Unread()) == SkipCppStyleComment(old(Unread()))
        decreases |document| - current
      {
        var c := GetNextChar();
        if c == '\r' || c == '\n' {
          return true;
        }
      }
      ok := true;
    }

    method ReadNumber()
      requires InDocument()
      modifies `current
      ensures InDocument()
      ensures Unread() == SkipNumber(old(Unread()))
    {
      while current != |document|
        invariant InDocument()
        invariant SkipNumber(Unread()) == SkipNumber(old(Unread()))
        decreases |document| - current
      {
        if !IsNumberChar(document[current]) {
          break;
        }
        assert Unread()[1..] == document[current + 1..];
        current := current + 1;
      }
    }

    method ReadString() returns (ok: bool)
      requires InDocument()
      modifies `current
      ensures InDocument()
      ensures (ok, Unread()) == SkipString(old(Unread()))
    {
      hide SkipString;
      var c := NUL;
      while current != |document|
        invariant InDocument()
        invariant SkipString(Unread()) == SkipString(old(Unread()))
        invariant c != '"'
        decreases |document| - current
      {
        ghost var before := Unread();
        StringStep(before);
        c := GetNextChar();
        if c == '\\' {
          assert |before| >= 2 ==> before[1..][1..] == before[2..];
          var _ := GetNextChar();
        } else if c == '"' {
          break;
        }
      }
      StringStep(Unread());
      ok := c == '"';
    }

    // ---- tokens ----

    /** The switch of readToken, after its first character c has been read. */
    method ReadTokenFrom(c: char) returns (kind: TokenType, ok: bool)
      requires InDocument()
      modifies `current
      ensures InDocument()
      ensures (kind, ok, Unread()) == Classify(c, old(Unread()))
    {
      hide SkipString, SkipNumber, SkipComment, JsonTokens.Match;
      kind, ok := ErrorToken, true;
      if c == '{' {
        kind := ObjectBegin;
      } else if c == '}' {
        kind := ObjectEnd;
      } else if c == '[' {
        kind := ArrayBegin;
      } else if c == ']' {
        kind := ArrayEnd;
      } else if c == '"' {
        kind := StringToken;
        ok := ReadString();
      } else if c == '/' {
        kind := Comment;
        ok := ReadComment();
      } else if '0' <= c <= '9' || c == '-' {
        kind := NumberToken;
        ReadNumber();
      } else if c == 't' {
        kind := TrueToken;
        ok := Match("rue");
      } else if c == 'f' {
        kind := FalseToken;
        ok := Match("alse");
      } else if c == 'n' {
        kind := NullToken;
        ok := Match("ull");
      } else if c == ',' {
        kind := ArraySeparator;
      } else if c == ':' {
        kind := MemberSeparator;
      } else if c == NUL {
        kind := EndOfStream;
      } else {
        ok := false;
      }
    }

    method ReadToken() returns (token: TokenInfo)
      requires InDocument()
      modifies `current
      ensures InDocument()
      ensures Describes(token, JsonTokens.ReadToken(old(Unread())))
      ensures Unread() == JsonTokens.ReadToken(old(Unread())).rest
    {
      hide JsonTokens.SkipSpaces, Classify;
      SkipSpaces();
      ghost var start := Unread();
      assert IsSuffix(start, document);
      var tokenStart := current;
      var c := GetNextChar();
      ghost var expected := Classify(c, Unread());
      var kind, ok := ReadTokenFrom(c);
      if start == "" {
        ClassifyEnd("");
      }
      if !ok {
        kind := ErrorToken;
      }
      token := TokenInfo(kind, tokenStart, current);
      hide IsSuffix;
    }

    method SkipCommentTokens() returns (token: TokenInfo)
      requires InDocument()
      modifies `current
      ensures InDocument()
      ensures Describes(token, JsonParse.SkipCommentTokens(features, old(Unread())))
      ensures Unread() == JsonParse.SkipCommentTokens(features, old(Unread())).rest
    {
      if features.allowComments {
        token := SkipTokensThatAreComments();
      } else {
        token := ReadToken();
      }
    }

    /** The read-until-no-comment loops of skipCommentTokens, readObject and readArray. */
    method SkipTokensThatAreComments() returns (token: TokenInfo)
      requires InDocument()
      modifies `current
      ensures InDocument()
      ensures Describes(token, ReadPastComments(old(Unread())))
      ensures Unread() == ReadPastComments(old(Unread())).rest
    {
      hide JsonTokens.ReadToken, IsSuffix;
      while true
        invariant InDocument()
        invariant ReadPastComments(Unread()) == ReadPastComments(old(Unread()))
        decreases |document| - current
      {
        token := ReadToken();
        if token.kind != Comment {
          break;
        }
      }
    }

    // ---- errors ----

    method AddError(message: Message, token: TokenInfo, extra: Option<int>) returns (ok: bool)
      modifies `errors
      ensures !ok
      ensures errors == old(errors) + [ErrorInfo(message, token.kind, token.start, token.end, extra)]
    {
      errors := errors + [ErrorInfo(message, token.kind, token.start, token.end, extra)];
      ok := false;
    }

    method RecoverFromError(until: TokenType) returns (ok: bool)
      requires InDocument()
      modifies `current, `errors
      ensures InDocument()
      ensures !ok && errors == old(errors)
      ensures Unread() == Recover(old(Unread()), until)
    {
      hide JsonTokens.ReadToken, IsSuffix;
      var errorCount := |errors|;
      while true
        invariant InDocument()
        invariant errors == old(errors)
        invariant Recover(Unread(), until) == Recover(old(Unread()), until)
        decreases |document| - current
      {
        var skip := ReadToken();
        if skip.kind == until || skip.kind == EndOfStream {
          break;
        }
      }
      errors := errors[..errorCount];
      ok := false;
    }

    method AddErrorAndRecover(message: Message, token: TokenInfo, until: TokenType) returns (ok: bool)
      requires InDocument()
      modifies `current, `errors
      ensures InDocument()
      ensures !ok
      ensures errors == old(errors) + [ErrorInfo(message, token.kind, token.start, token.end, None)]
      ensures Unread() == Recover(old(Unread()), until)
    {
      var _ := AddError(message, token, None);
      ok := RecoverFromError(until);
    }

    // ---- nodes ----

    method SetCurrentValue(value: Value)
      requires HasNode()
      modifies `root
      ensures root == Store(old(root), nodes[|nodes| - 1], value)
      ensures HasNode() && CurrentValue() == value
    {
      StoreThenLoad(root, nodes[|nodes| - 1], value, value);
      root := Store(root, nodes[|nodes| - 1], value);
    }

    // ---- scalars ----

    method DecodeNumber(token: TokenInfo) returns (ok: bool)
      requires HasNode()
      requires token.start < token.end <= |document|
      modifies `root, `errors
      ensures HasNode()
      ensures var value := JsonParse.DecodeNumber(features, document[token.start..token.end]);
              && ok == value.Some?
              && root == (if ok then Store(old(root), nodes[|nodes| - 1], value.value) else old(root))
              && errors == (if ok then old(errors)
                            else old(errors) + [ErrorInfo(NotANumber, token.kind, token.start, token.end, None)])
    {
      ghost var text := document[token.start..token.end];
      var isDouble := false;
      var inspect := token.start;
      while inspect != token.end
        invariant token.start <= inspect <= token.end
        invariant isDouble <==>
                    exists k :: 0 <= k < inspect - token.start && (IsDoubleMark(text[k]) || (text[k] == '-' && k > 0))
      {
        assert document[inspect] == text[inspect - token.start];
        isDouble := isDouble || IsDoubleMark(document[inspect]) || (document[inspect] == '-' && inspect != token.start);
        inspect := inspect + 1;
      }
      if isDouble {
        ok := DecodeDouble(token);
        return;
      }
      var cursor := token.start;
      var isNegative := document[cursor] == '-';
      if isNegative {
        cursor := cursor + 1;
      }
      var threshold := (if isNegative then 0x8000_0000 else MAX_UINT) / 10;
      var value := 0;
      assert document[cursor..token.end] == Magnitude(text);
      while cursor < token.end
        invariant token.start <= cursor <= token.end
        invariant 0 <= value <= MAX_UINT
        invariant Accumulate(isNegative, document[cursor..token.end], value) == NumberOf(text)
      {
        var c := document[cursor];
        assert document[cursor..token.end][1..] == document[cursor + 1..token.end];
        cursor := cursor + 1;
        if c < '0' || c > '9' {
          ok := AddError(NotANumber, token, None);
          return;
        }
        if value >= threshold {
          ok := DecodeDouble(token);
          return;
        }
        value := value * 10 + (c - '0') as int;
      }
      if isNegative {
        SetCurrentValue(Int(-value));
      } else if value <= MAX_INT {
        SetCurrentValue(Int(value));
      } else {
        SetCurrentValue(UInt(value));
      }
      ok := true;
    }

    method DecodeDouble(token: TokenInfo) returns (ok: bool)
      requires HasNode()
      requires token.start <= token.end <= |document|
      modifies `root, `errors
      ensures HasNode()
      ensures var scanned := features.scanDouble(document[token.start..token.end]);
              && ok == scanned.Some?
              && root == (if ok then Store(old(root), nodes[|nodes| - 1], Real(scanned.value)) else old(root))
              && errors == (if ok then old(errors)
                            else old(errors) + [ErrorInfo(NotANumber, token.kind, token.start, token.end, None)])
    {
      var text, _ := CopyToken(document[token.start..token.end]);
      match features.scanDouble(text)
      case None =>
        ok := AddError(NotANumber, token, None);
      case Some(value) =>
        SetCurrentValue(Real(value));
        ok := true;
    }

    method DecodeStringInto(token: TokenInfo) returns (ok: bool, decoded: string)
      requires token.start + 2 <= token.end <= |document|
      modifies `errors
      ensures match DecodeBody(document[token.start + 1..token.end - 1])
              case Text(text) => ok && decoded == text && errors == old(errors)
              case BadText(message, unread) =>
                !ok && errors == old(errors) +
                  [ErrorInfo(message, token.kind, token.start, token.end, Some(token.end - 1 - unread))]
    {
      hide UnicodeEscape, CodePointToUTF8, SimpleEscape, DecodeBody;
      decoded := "";
      var cursor := token.start + 1;
      var end := token.end - 1;
      ghost var result := DecodeBody(document[cursor..end]);
      while cursor != end
        invariant token.start < cursor <= end
        invariant errors == old(errors)
        invariant Prepend(decoded, DecodeBody(document[cursor..end])) == result
        decreases end - cursor
      {
        var c := document[cursor];
        BodyStep(document[cursor..end]);
        assert document[cursor..end][1..] == document[cursor + 1..end];
        cursor := cursor + 1;
        if c == '"' {
          break;
        } else if c == '\\' {
          if cursor == end {
            ok := AddError(EmptyEscape, token, Some(cursor));
            return;
          }
          var escape := document[cursor];
          assert document[cursor - 1..end][2..] == document[cursor + 1..end];
          cursor := cursor + 1;
          if escape == 'u' {
            var unicode;
            ok, cursor, unicode := DecodeUnicodeCodePoint(token, cursor, end);
            if !ok {
              return;
            }
            PrependAppend(decoded, CodePointToUTF8(unicode), DecodeBody(document[cursor..end]));
            decoded := decoded + CodePointToUTF8(unicode);
          } else if SimpleEscape(escape) != "" {
            PrependAppend(decoded, SimpleEscape(escape), DecodeBody(document[cursor..end]));
            decoded := decoded + SimpleEscape(escape);
          } else {
            ok := AddError(BadEscape, token, Some(cursor));
            return;
          }
        } else {
          PrependAppend(decoded, [c], DecodeBody(document[cursor..end]));
          decoded := decoded + [c];
        }
      }
      BodyStep(document[cursor..end]);
      ok := true;
    }

    method DecodeString(token: TokenInfo) returns (ok: bool)
      requires HasNode()
      requires token.start + 2 <= token.end <= |document|
      modifies `root, `errors
      ensures HasNode()
      ensures match DecodeBody(document[token.start + 1..token.end - 1])
              case Text(text) =>
                ok && errors == old(errors) && root == Store(old(root), nodes[|nodes| - 1], Str(CStr(text)))
              case BadText(message, unread) =>
                !ok && root == old(root) && errors == old(errors) +
                  [ErrorInfo(message, token.kind, token.start, token.end, Some(token.end - 1 - unread))]
    {
      var decoded;
      ok, decoded := DecodeStringInto(token);
      if ok {
        // The Value copy made by operator= stops at the first NUL.
        SetCurrentValue(Str(CStr(decoded)));
      }
    }

    method DecodeUnicodeCodePoint(token: TokenInfo, cursor: nat, end: nat)
      returns (ok: bool, cursor': nat, unicode: nat)
      requires cursor <= end <= |document|
      modifies `errors
      ensures match UnicodeEscape(document[cursor..end])
              case CodePoint(code, rest) =>
                && ok && unicode == code && errors == old(errors)
                && cursor' <= end && rest == document[cursor'..end]
              case BadCodePoint(message, unread) =>
                !ok && errors == old(errors) + [ErrorInfo(message, token.kind, token.start, token.end, Some(end - unread))]
    {
      hide HexQuad;
      ok, cursor', unicode := DecodeUnicodeEscapeSequence(token, cursor, end);
      if !ok {
        return;
      }
      if 0xD800 <= unicode <= 0xDBFF {
        if end - cursor' < 6 {
          ok := AddError(SixCharactersExpected, token, Some(cursor'));
          return;
        }
        var c := document[cursor'];
        cursor' := cursor' + 1;
        var isSecond := c == '\\';
        if isSecond {
          isSecond := document[cursor'] == 'u';
          cursor' := cursor' + 1;
        }
        if isSecond {
          var surrogatePair;
          assert document[cursor' - 2..end][2..] == document[cursor'..end];
          ok, cursor', surrogatePair := DecodeUnicodeEscapeSequence(token, cursor', end);
          if ok {
            unicode := 0x1_0000 + unicode % 0x400 * 0x400 + surrogatePair % 0x400;
          }
        } else {
          ok := AddError(SecondSurrogateExpected, token, Some(cursor'));
        }
      }
    }

    method DecodeUnicodeEscapeSequence(token: TokenInfo, cursor: nat, end: nat)
      returns (ok: bool, cursor': nat, unicode: nat)
      requires cursor <= end <= |document|
      modifies `errors
      ensures match HexQuad(document[cursor..end])
              case CodePoint(code, rest) =>
                && ok && unicode == code && errors == old(errors)
                && cursor' == cursor + 4 <= end && rest == document[cursor'..end]
              case BadCodePoint(message, unread) =>
                !ok && errors == old(errors) + [ErrorInfo(message, token.kind, token.start, token.end, Some(end - unread))]
    {
      ghost var s := document[cursor..end];
      cursor', unicode := cursor, 0;
      if end - cursor < 4 {
        ok := AddError(FourDigitsExpected, token, Some(cursor));
        return;
      }
      for index := 0 to 4
        invariant cursor' == cursor + index
        invariant forall k :: 0 <= k < index ==> IsHexDigit(s[k])
        invariant unicode == HexPrefix(s, index)
        invariant errors == old(errors)
      {
        var c := document[cursor'];
        assert c == s[index];
        cursor' := cursor' + 1;
        unicode := unicode * 16;
        if '0' <= c <= '9' {
          unicode := unicode + (c - '0') as int;
        } else if 'a' <= c <= 'f' {
          unicode := unicode + (c - 'a') as int + 10;
        } else if 'A' <= c <= 'F' {
          unicode := unicode + (c - 'A') as int + 10;
        } else {
          ok := AddError(HexDigitExpected, token, Some(cursor'));
          return;
        }
      }
      assert s[4..] == document[cursor'..end];
      ok := true;
    }

    // ---- values ----

    /** readValue: reads one value into the node on top of the stack. */
    method ReadValue() returns (ok: bool)
      requires InDocument() && HasNode()
      modifies `current, `errors, `nodes, `root
      ensures InDocument() && HasNode() && nodes == old(nodes)
      ensures var r := JsonParse.ReadValue(features, |document|, old(Unread()), old(CurrentValue()));
              && ok == r.ok && Unread() == r.rest
              && errors == old(errors) + r.errors
              && root == Store(old(root), Top(), r.value)
      decreases |document| - current, 1
    {
      hide IsSuffix, JsonTokens.ReadToken, JsonParse.SkipCommentTokens, DecodeBody, JsonParse.DecodeNumber;
      hide IsSuffix, JsonParse.ReadObject, JsonParse.ReadArray, Store, Load, HasPlace;
      ghost var s := Unread();
      ghost var t := JsonParse.SkipCommentTokens(features, s);
      StoreThenLoad(root, Top(), CurrentValue(), CurrentValue());
      StoreLoaded(root, Top());
      var token := SkipCommentTokens();
      TokenText(token, t);
      ok := true;
      match token.kind
      case ObjectBegin =>
        ok := ReadObject();
      case ArrayBegin =>
        ok := ReadArray();
      case NumberToken =>
        ok := DecodeNumber(token);
      case StringToken =>
        ok := DecodeString(token);
      case TrueToken =>
        SetCurrentValue(Bool(true));
      case FalseToken =>
        SetCurrentValue(Bool(false));
      case NullToken =>
        SetCurrentValue(Null);
      case _ =>
        ok := AddError(ValueExpected, token, None);
    }

    lemma TokenText(token: TokenInfo, t: Scan)
      requires Describes(token, t)
      ensures token.start <= token.end <= |document|
      ensures document[token.start..token.end] == t.Text()
      ensures token.end - token.start >= 2 ==> document[token.start + 1..token.end - 1] == Body(t)
    {
      assert t.start == document[token.start..];
      if token.end - token.start >= 2 {
        assert Body(t) == t.start[1..token.end - token.start - 1];
      }
    }

    /** readArray, after the '['. */
    method ReadArray() returns (ok: bool)
      requires InDocument() && HasNode()
      modifies `current, `errors, `nodes, `root
      ensures InDocument() && HasNode() && nodes == old(nodes)
      ensures var r := JsonParse.ReadArray(features, |document|, old(Unread()));
              && ok == r.ok && Unread() == r.rest
              && errors == old(errors) + r.errors
              && root == Store(old(root), Top(), r.value)
      decreases |document| - current, 4
    {
      hide IsSuffix, JsonTokens.ReadToken, JsonParse.ReadValue, Store, Load, HasPlace, JsonTokens.SkipSpaces, ReadItems;
      ghost var place := Top();
      SetCurrentValue(Array([]));
      SkipSpaces();
      assert At(document, current) == At(Unread(), 0);
      if At(document, current) == ']' {
        var _ := ReadToken();
        return true;
      }
      var index := 0;
      ghost var items: seq<Value> := [];
      ghost var expected := ReadItems(features, |document|, Unread(), []);
      while true
        invariant InDocument() && HasNode() && nodes == old(nodes) && errors == old(errors)
        invariant |document| - current <= old(|document| - current)
        invariant CurrentValue() == Array(items) && root == Store(old(root), place, Array(items))
        invariant index == |items|
        invariant ReadItems(features, |document|, Unread(), items) == expected
        decreases |document| - current
      {
        ghost var before := items;
        var more;
        ok, more, items := ReadItemAndSeparator(place, index, items);
        index := index + 1;
        StoreThenLoad(old(root), place, Array(before), Array(items));
        if !more {
          return;
        }
      }
    }

    /** A round of the loop of readArray: does it continue? */
    method ReadItemAndSeparator(ghost place: Place, index: nat, ghost items: seq<Value>)
      returns (ok: bool, more: bool, ghost items': seq<Value>)
      requires InDocument() && HasNode() && place == Top() && index == |items|
      requires CurrentValue() == Array(items)
      modifies `current, `errors, `nodes, `root
      ensures InDocument() && HasNode() && nodes == old(nodes) && |items'| == index + 1
      ensures CurrentValue() == Array(items') && root == Store(old(root), place, Array(items'))
      ensures var r := ReadItems(features, |document|, old(Unread()), items);
              if more then
                && ok && errors == old(errors) && current > old(current)
                && r == ReadItems(features, |document|, Unread(), items')
              else
                && ok == r.ok && Unread() == r.rest
                && errors == old(errors) + r.errors
                && Array(items') == r.value
      decreases |document| - current, 3
    {
      hide IsSuffix, JsonTokens.ReadToken, JsonParse.ReadValue, ReadPastComments, Recover, Store, Load, HasPlace,
           BadSeparator;
      more := false;
      items' := items + [JsonParse.ReadValue(features, |document|, Unread(), Null).value];
      ok := ReadItem(place, index, items);
      if !ok {
        ok := RecoverFromError(ArrayEnd);
        return;
      }
      var token := SkipTokensThatAreComments();
      var badTokenType := BadSeparator(token.kind);
      if badTokenType {
        ok := AddErrorAndRecover(MissingCommaOrBracket, token, ArrayEnd);
        return;
      }
      more := token.kind != ArrayEnd;
    }

    /** The part of readArray that works on one element: append null, push it, read into it, pop it. */
    method ReadItem(ghost place: Place, index: nat, ghost items: seq<Value>) returns (ok: bool)
      requires InDocument() && HasNode() && place == Top() && index == |items|
      requires CurrentValue() == Array(items)
      modifies `current, `errors, `nodes, `root
      ensures InDocument() && HasNode() && nodes == old(nodes)
      ensures var r := JsonParse.ReadValue(features, |document|, old(Unread()), Null);
              && ok == r.ok && Unread() == r.rest
              && errors == old(errors) + r.errors
              && CurrentValue() == Array(items + [r.value])
              && root == Store(old(root), place, Array(items + [r.value]))
      decreases |document| - current, 2
    {
      hide IsSuffix, JsonParse.ReadValue, Store, Load, HasPlace;
      var value := Load(root, nodes[|nodes| - 1]);
      SetCurrentValue(Array(value.items + [Null]));
      ghost var node := Array(items + [Null]);
      ghost var item := JsonParse.ReadValue(features, |document|, Unread(), Null);
      nodes := nodes + [nodes[|nodes| - 1] + [Index(index)]];
      StoreBelow(old(root), place, node, Index(index), item.value);
      assert StepStore(node, Index(index), item.value) == Array(items + [item.value]);
      ok := ReadValue();
      nodes := nodes[..|nodes| - 1];
      StoreThenLoad(old(root), place, Array(items + [item.value]), Null);
    }

    /** readObject, after the '{'. */
    method ReadObject() returns (ok: bool)
      requires InDocument() && HasNode()
      modifies `current, `errors, `nodes, `root
      ensures InDocument() && HasNode() && nodes == old(nodes)
      ensures var r := JsonParse.ReadObject(features, |document|, old(Unread()));
              && ok == r.ok && Unread() == r.rest
              && errors == old(errors) + r.errors
              && root == Store(old(root), Top(), r.value)
      decreases |document| - current, 3
    {
      hide IsSuffix, JsonParse.ReadValue, JsonParse.ReadHeader, JsonParse.ReadMemberValue, Store, Load, HasPlace,
           Find, Put, CStr, JsonParse.ReadTrailer, Recover;
      ghost var place := Top();
      ghost var members: seq<Member> := [];
      var name := "";
      SetCurrentValue(Object([]));
      ghost var expected := ReadMembers(features, |document|, Unread(), "", []);
      while true
        invariant InDocument() && HasNode() && nodes == old(nodes) && errors == old(errors)
        invariant |document| - current <= old(|document| - current)
        invariant CurrentValue() == Object(members) && root == Store(old(root), place, Object(members))
        invariant Sorted(members)
        invariant ReadMembers(features, |document|, Unread(), name, members) == expected
        decreases |document| - current
      {
        var closed;
        ok, closed, name := ReadHeader(name);
        if closed || !ok {
          return;
        }
        ghost var before := members;
        var more;
        ok, more, members := ReadMemberAndTrailer(place, name, members);
        StoreThenLoad(old(root), place, Object(before), Object(members));
        if !more {
          return;
        }
      }
    }

    /** A round of readObject up to the colon. */
    method ReadHeader(name: string) returns (ok: bool, closed: bool, name': string)
      requires InDocument()
      modifies `current, `errors
      ensures InDocument()
      ensures var h := JsonParse.ReadHeader(|document|, old(Unread()), name);
              && Unread() == h.rest && closed == h.Closed? && ok == !h.Broken?
              && (h.Named? ==> name' == h.name)
              && errors == old(errors) + if h.Broken? then h.errors else []
    {
      hide IsSuffix, JsonTokens.ReadToken, ReadPastComments, Recover, DecodeBody;
      name', closed := name, false;
      ghost var t := ReadPastComments(Unread());
      var tokenName := SkipTokensThatAreComments();
      TokenText(tokenName, t);
      if tokenName.kind == ObjectEnd && name == "" {
        return true, true, name;
      }
      if tokenName.kind != StringToken {
        ok := AddErrorAndRecover(MissingBraceOrName, tokenName, ObjectEnd);
        return;
      }
      ok, name' := DecodeStringInto(tokenName);
      if !ok {
        ok := RecoverFromError(ObjectEnd);
        return;
      }
      var colon := ReadToken();
      if colon.kind != MemberSeparator {
        ok := AddErrorAndRecover(MissingColon, colon, ObjectEnd);
      }
    }

    /** A round of readObject from the colon on: does the loop continue? */
    method ReadMemberAndTrailer(ghost place: Place, name: string, ghost members: seq<Member>)
      returns (ok: bool, more: bool, ghost members': seq<Member>)
      requires InDocument() && HasNode() && place == Top()
      requires CurrentValue() == Object(members) && Sorted(members)
      modifies `current, `errors, `nodes, `root
      ensures InDocument() && HasNode() && nodes == old(nodes)
      ensures CurrentValue() == Object(members') && root == Store(old(root), place, Object(members'))
      ensures Sorted(members')
      ensures var r := ReadMemberValue(features, |document|, old(Unread()), name, members);
              if more then
                && ok && errors == old(errors) && current > old(current)
                && r == ReadMembers(features, |document|, Unread(), name, members')
              else
                && ok == r.ok && Unread() == r.rest
                && errors == old(errors) + r.errors
                && Object(members') == r.value
      decreases |document| - current, 3
    {
      hide IsSuffix, JsonParse.ReadValue, Store, Load, HasPlace, Find, Put, CStr, JsonParse.ReadTrailer, Recover;
      more := false;
      ok, members' := ReadMember(place, name, members);
      if !ok {
        ok := RecoverFromError(ObjectEnd);
        return;
      }
      ok, more := ReadTrailer();
    }

    method ReadTrailer() returns (ok: bool, more: bool)
      requires InDocument()
      modifies `current, `errors
      ensures InDocument()
      ensures var r := JsonParse.ReadTrailer(|document|, old(Unread()));
              && Unread() == r.rest && more == r.More? && ok == !r.BadTrailer?
              && errors == old(errors) + if r.BadTrailer? then r.errors else []
    {
      hide IsSuffix, JsonTokens.ReadToken, ReadPastComments, Recover;
      more := false;
      var comma := ReadToken();
      if comma.kind != ObjectEnd && comma.kind != ArraySeparator && comma.kind != Comment {
        ok := AddErrorAndRecover(MissingCommaOrBrace, comma, ObjectEnd);
        return;
      }
      if comma.kind == Comment {
        comma := SkipTokensThatAreComments();
      }
      return true, comma.kind != ObjectEnd;
    }

    /**
     * The part of readObject that works on the value of one member: find or
     * insert its entry, push it, read the value into it and pop it.
     */
    method ReadMember(ghost place: Place, name: string, ghost members: seq<Member>) returns (ok: bool,
            ghost members': seq<Member>)
      requires InDocument() && HasNode() && place == Top()
      requires CurrentValue() == Object(members) && Sorted(members)
      modifies `current, `errors, `nodes, `root
      ensures InDocument() && HasNode() && nodes == old(nodes)
      ensures var r := JsonParse.ReadValue(features, |document|, old(Unread()), Slot(members, CStr(name)));
              && ok == r.ok && Unread() == r.rest
              && errors == old(errors) + r.errors
              && members' == Put(members, CStr(name), r.value)
      ensures CurrentValue() == Object(members')
      ensures root == Store(old(root), place, Object(members'))
      ensures Sorted(members')
      decreases |document| - current, 2
    {
      hide IsSuffix, JsonParse.ReadValue, Put, Find, Store, Load, HasPlace, CStr, StrLess;
      var key := CStr(name);
      var entries := Load(root, nodes[|nodes| - 1]).members;
      if Find(entries, key).None? {
        entries := Put(entries, key, Null);
        PutKeepsSorted(members, key, Null);
        PutTwice(members, key, Null, Null);
      }
      SetCurrentValue(Object(entries));
      ghost var node := Object(entries);
      ghost var r := JsonParse.ReadValue(features, |document|, Unread(), Slot(members, key));
      nodes := nodes + [nodes[|nodes| - 1] + [Key(key)]];
      StoreBelow(old(root), place, node, Key(key), r.value);
      ok := ReadValue();
      nodes := nodes[..|nodes| - 1];
      members' := Put(members, key, r.value);
      PutTwice(members, key, Null, r.value);
      PutKeepsSorted(members, key, r.value);
      StoreThenLoad(old(root), place, Object(members'), Null);
    }

    /**
     * parse: on every document the reader stops within the document, leaves
     * exactly the root on the node stack, and returns true if and only if it
     * recorded no error.
     */
    method Parse(text: string, initialRoot: Value) returns (ok: bool)
      modifies this
      ensures InDocument() && document == text && nodes == [[]]
      ensures ok <==> errors == []
      ensures Outcome(ok, root, Unread(), errors) == JsonParse.Parse(features, text, initialRoot)
    {
      hide JsonParse.ReadValue, JsonParse.SkipCommentTokens, IsSuffix;
      document, current, errors, root := text, 0, [], initialRoot;
      while nodes != []
        modifies `nodes
        decreases |nodes|
      {
        nodes := nodes[..|nodes| - 1];
      }
      nodes := nodes + [[]];
      assert Unread() == text;
      ok := ReadValue();
      var token := SkipCommentTokens();
      if features.strictRoot {
        if !root.IsArray() && !root.IsObject() {
          ok := AddError(RootMustBeArrayOrObject, TokenInfo(ErrorToken, 0, |document|), None);
        }
      }
    }
  }
}
