// The errors of the TinyXML parser: the fault that stops it, behind any correct
// markup and inside any elements still open, is the one that is reported.

module XmlFaults {
  import opened CStrings
  import opened XmlText
  import opened XmlTree
  import opened XmlParse
  import U = XmlRuns
  import opened XmlRoundTrip
  import opened XmlMarkup

  // ---- faults in a start tag ----

  /** What can be wrong behind the attributes of a start tag and the white space after them. */
  datatype TagFault =
    | TextEnds
    | LoneSlash(rest: string)
    | NoName(rest: string)
    | NoEquals(name: string, gap: string, rest: string)
    | NoValue(name: string, before: string, after: string)
    | QuoteInside(name: string, before: string, after: string, text: string, rest: string)
    | NeverClosed(name: string, before: string, after: string, quote: char, runs: seq<U.Run>)
    | LastInText(attribute: AttributeText)
    | Twice(attribute: AttributeText, rest: string)
  {
    predicate Valid(attributes: seq<Attribute>) {
      match this
      case TextEnds => true
      case LoneSlash(rest) => rest == "" || rest[0] != '>'
      case NoName(rest) => rest != "" && !U.White(rest[0]) && rest[0] != '/' && rest[0] != '>' && !IsNameStart(rest[0])
      case NoEquals(name, gap, rest) =>
        && ReadableName(name) && U.AllSpaces(gap)
        && (rest == "" || (rest[0] != '=' && !U.White(rest[0]) && (gap == "" ==> !IsNameChar(rest[0]))))
      case NoValue(name, before, after) => ReadableName(name) && U.AllSpaces(before) && U.AllSpaces(after)
      case QuoteInside(name, before, after, text, rest) =>
        && ReadableName(name) && U.AllSpaces(before) && U.AllSpaces(after) && Bare(text).Valid()
        && text != "" && rest != "" && (rest[0] == '"' || rest[0] == '\'')
      case NeverClosed(name, before, after, quote, runs) =>
        && ReadableName(name) && U.AllSpaces(before) && U.AllSpaces(after)
        && InQuotes(quote, runs).Valid() && U.Before(runs, "")
      case LastInText(attribute) =>
        attribute.Valid() && if attribute.value.Bare? then attribute.value.text != "" else attribute.value.Before("")
      case Twice(attribute, rest) =>
        && attribute.Valid() && attribute.value.Before(rest) && rest != ""
        && exists k :: 0 <= k < |attributes| && attributes[k].name == attribute.name
    }

    function Text(attributes: seq<Attribute>): string
      requires Valid(attributes)
    {
      match this
      case TextEnds => ""
      case LoneSlash(rest) => "/" + rest
      case NoName(rest) => rest
      case NoEquals(name, gap, rest) => name + (gap + rest)
      case NoValue(name, before, after) => name + (before + ("=" + after))
      case QuoteInside(name, before, after, text, rest) => name + (before + ("=" + (after + (text + rest))))
      case NeverClosed(name, before, after, quote, runs) => name + (before + ("=" + (after + ([quote] + U.Then(runs, "")))))
      case LastInText(attribute) => attribute.Then("")
      case Twice(attribute, rest) => attribute.Then(rest)
    }

    function Error(): ErrorId {
      match this
      case TextEnds => ReadingAttributes
      case LoneSlash(_) => ParsingEmpty
      case NeverClosed(_, _, _, _, _) => ParsingElement
      case LastInText(_) => ParsingElement
      case Twice(_, _) => ParsingElement
      case _ => ReadingAttributes
    }
  }

  /** Where a tag ends with a fault: what has been read so far, and the error. */
  predicate Stops(r: NodeResult, node: Node, error: ErrorId) {
    r == NodeResult(node, None, Some(error))
  }

  lemma NameRead(name: string, rest: string)
    requires ReadableName(name) && (rest == "" || !IsNameChar(rest[0]))
    ensures ReadName(Some(name + rest)) == (name, Some(rest))
    ensures name + rest != "" && !IsWhiteSpace((name + rest)[0]) && (name + rest)[0] != '/' && (name + rest)[0] != '>'
  {
    if rest == "" {
      WholeName(name);
      assert name + rest == name && name[|name|..] == "" && name[..|name|] == name;
    } else {
      ReadNameOf(name, rest);
    }
    NameFirst(name, rest);
  }

  lemma {:induction false} WholeName(name: string)
    requires forall k :: 0 <= k < |name| ==> IsNameChar(name[k])
    ensures NameLength(name) == |name|
  {
    if name != "" {
      WholeName(name[1..]);
    }
  }

  /** Up to the equals sign. */
  lemma EqualsRead(name: string, before: string, after: string, value: string)
    requires ReadableName(name) && U.AllSpaces(before) && U.AllSpaces(after)
    requires value == "" || !IsWhiteSpace(value[0])
    ensures var s := name + (before + ("=" + (after + value)));
            && s != "" && !IsWhiteSpace(s[0]) && s[0] != '/' && s[0] != '>'
            && ParseAttribute(s) == if value == "" then AttributeResult(Attribute(name, ""), None, Some(ReadingAttributes))
                                    else ParseAttributeValue(name, value)
  {
    hide ReadName, Strip, IsWhiteSpace, ParseAttributeValue, IsNameChar, ReadableName;
    var equals := "=" + (after + value);
    var tail := before + equals;
    var s := name + tail;
    QuotesNotWhite();
    SpacesAreWhite(before);
    assert tail[0] == if before == "" then '=' else before[0];
    SpaceNotInName(tail[0]);
    NameRead(name, tail);
    SkipsSpaces("", s);
    assert "" + s == s;
    SkipsSpaces(before, equals);
    assert equals[1..] == after + value;
    if value == "" {
      OnlySpaces(after);
      assert after + value == after;
    } else {
      SkipsSpaces(after, value);
    }
  }

  lemma {:induction false} OnlySpaces(gap: string)
    requires U.AllSpaces(gap)
    ensures Strip(gap) == "" && !More(SkipWhiteSpace(Some(gap)))
  {
    if gap != "" {
      U.WhiteSpace(gap[0]);
      OnlySpaces(gap[1..]);
    }
  }

  lemma EqualsMissing(name: string, gap: string, rest: string)
    requires NoEquals(name, gap, rest).Valid([])
    ensures var s := name + (gap + rest);
            && s != "" && !IsWhiteSpace(s[0]) && s[0] != '/' && s[0] != '>'
            && ParseAttribute(s) == AttributeResult(Attribute(name, ""), None, Some(ReadingAttributes))
  {
    hide ReadName, Strip, IsWhiteSpace, IsNameChar, ReadableName;
    var tail := gap + rest;
    var s := name + tail;
    SpacesAreWhite(gap);
    if gap != "" {
      SpaceNotInName(gap[0]);
    }
    NameRead(name, tail);
    SkipsSpaces("", s);
    assert "" + s == s;
    if rest == "" {
      OnlySpaces(gap);
      assert tail == gap;
    } else {
      U.WhiteSpace(rest[0]);
      SkipsSpaces(gap, rest);
    }
  }

  /** The quotes are never closed. */
  lemma {:induction false} KeptToEnd(rs: seq<U.Run>, quote: char)
    requires U.Valid(rs) && U.Before(rs, "") && U.Without(rs, quote) && quote != '&'
    ensures !More(ReadKept(Some(U.Then(rs, "")), [quote]).1)
  {
    hide GetChar, U.Run.Then, U.Run.Before, U.Run.Chars;
    if rs != [] {
      var rest := U.Then(rs[1..], "");
      U.RunReads(rs[0], rest);
      U.RunStarts(rs[0], rest);
      assert rs[0] != U.Letter(quote);
      KeptToEnd(rs[1..], quote);
    }
  }

  lemma NeverClosedStops(name: string, quote: char, runs: seq<U.Run>)
    requires InQuotes(quote, runs).Valid() && U.Before(runs, "")
    ensures var r := ParseAttributeValue(name, [quote] + U.Then(runs, "")); r.next == None && r.error == None
  {
    hide U.Then, ReadKept, U.Without, U.Before;
    var s := [quote] + U.Then(runs, "");
    assert s[1..] == U.Then(runs, "") && s[0] == quote;
    KeptToEnd(runs, quote);
  }

  lemma QuoteInsideStops(name: string, text: string, rest: string)
    requires Bare(text).Valid() && text != "" && rest != "" && (rest[0] == '"' || rest[0] == '\'')
    ensures var s := text + rest;
            && !IsWhiteSpace(s[0])
            && ParseAttributeValue(name, s) == AttributeResult(Attribute(name, text), None, Some(ReadingAttributes))
  {
    hide IsWhiteSpace;
    var s := text + rest;
    U.WhiteSpace(s[0]);
    assert s[0] == text[0] && text[0] != "/>'\""[2] && text[0] != "/>'\""[3];
    LengthToQuote(text, rest);
    assert s[..|text|] == text && s[|text|] == rest[0];
  }

  lemma {:induction false} LengthToQuote(text: string, rest: string)
    requires Bare(text).Valid() && (rest == "" || rest[0] == '"' || rest[0] == '\'')
    ensures UnquotedLength(text + rest) == |text|
  {
    var s := text + rest;
    if text == "" {
      assert s == rest;
    } else {
      U.WhiteSpace(s[0]);
      assert s[0] == text[0] && text[0] !in "/>'\"";
      assert text[0] != "/>'\""[0] && text[0] != "/>'\""[1] && text[0] != "/>'\""[2] && text[0] != "/>'\""[3];
      assert s[1..] == text[1..] + rest;
      LengthToQuote(text[1..], rest);
    }
  }

  /** A value up to the very end of the text. */
  lemma LastStops(name: string, v: ValueText)
    requires v.Valid() && if v.Bare? then v.text != "" else v.Before("")
    ensures var s := v.Then("");
            && s != "" && !IsWhiteSpace(s[0])
            && !More(ParseAttributeValue(name, s).next) && ParseAttributeValue(name, s).error == None
  {
    hide ReadKept, U.Then, U.Kept, U.Before, U.Without, IsWhiteSpace, UnquotedLength;
    var s := v.Then("");
    QuotesNotWhite();
    match v
    case InQuotes(quote, runs) =>
      assert s[0] == quote && s[1..] == U.Then(runs, [quote] + "");
      U.KeptReads(runs, quote, "");
      assert ([quote] + "")[1..] == "";
    case Bare(text) =>
      LengthToQuote(text, "");
      assert s == text && s[|text|..] == "";
      U.WhiteSpace(s[0]);
      assert text[0] != "/>'\""[2] && text[0] != "/>'\""[3];
  }

  /** The loop over the attributes stops at the fault, with the attributes before it. */
  lemma FaultStops(f: TagFault, gap: string, name: string, attributes: seq<Attribute>)
    requires U.AllSpaces(gap) && f.Valid(attributes) && gap + f.Text(attributes) != ""
    ensures Stops(ParseAttributes(gap + f.Text(attributes), name, attributes), Element(name, attributes, []), f.Error())
  {
    hide ParseAttribute, ParseAttributeValue, Strip, IsWhiteSpace, U.White, IsNameChar, IsNameStart, ReadableName, ValueText.Valid,
         ValueText.Before, ValueText.Then, ValueText.Meaning, U.Then;
    var s := f.Text(attributes);
    QuotesNotWhite();
    match f
    case TextEnds =>
      OnlySpaces(gap);
      assert gap + "" == gap;
    case LoneSlash(rest) =>
      SkipsSpaces(gap, s);
    case NoName(rest) =>
      U.WhiteSpace(rest[0]);
      SkipsSpaces(gap, s);
      NameMissing(rest);
    case NoEquals(n, between, rest) =>
      EqualsMissing(n, between, rest);
      SkipsSpaces(gap, s);
    case NoValue(n, before, after) =>
      EqualsRead(n, before, after, "");
      assert after + "" == after;
      SkipsSpaces(gap, s);
    case QuoteInside(n, before, after, text, rest) =>
      QuoteInsideStops(n, text, rest);
      EqualsRead(n, before, after, text + rest);
      SkipsSpaces(gap, s);
    case NeverClosed(n, before, after, quote, runs) =>
      NeverClosedStops(n, quote, runs);
      QuoteFirst(quote, runs);
      EqualsRead(n, before, after, [quote] + U.Then(runs, ""));
      SkipsSpaces(gap, s);
    case LastInText(a) =>
      LastStops(a.name, a.value);
      EqualsRead(a.name, a.before, a.after, a.value.Then(""));
      SkipsSpaces(gap, s);
    case Twice(a, rest) =>
      AttributeReads(a, rest);
      SkipsSpaces(gap, s);
  }

  lemma NameMissing(s: string)
    requires s != "" && !IsWhiteSpace(s[0]) && !IsNameStart(s[0])
    ensures ParseAttribute(s) == AttributeResult(Attribute("", ""), None, Some(ReadingAttributes))
  {
    hide IsWhiteSpace, IsNameStart;
    SkipsSpaces("", s);
    assert "" + s == s;
  }

  lemma QuoteFirst(quote: char, runs: seq<U.Run>)
    requires InQuotes(quote, runs).Valid()
    ensures !IsWhiteSpace(quote)
  {
    QuotesNotWhite();
  }

  // ---- from the fault to the document ----

  /** A tag whose node ends with the error. */
  predicate FaultyTag(s: string, error: ErrorId) {
    s != "" && s[0] == '<' && !("</" <= s) && ParseNode(s).error == Some(error)
  }

  /** Content of an element that ends with the error, whatever was read before it. */
  ghost predicate FaultyContent(s: string, error: ErrorId) {
    forall children :: ReadChildren(SkipWhiteSpace(Some(s)), children).error == Some(error)
  }

  /** A start tag with a fault. */
  lemma TagFaultRead(name: string, attributes: seq<Spaced>, gap: string, f: TagFault)
    requires ValidTag(name, attributes, gap) && f.Valid(Meanings(attributes))
    requires var end := f.Text(Meanings(attributes));
             && gap + end != "" && (gap == "" && attributes == [] ==> !IsNameChar(end[0]))
             && AttributesBefore(attributes, gap + end)
    ensures var s := "<" + (name + AttributesThen(attributes, gap + f.Text(Meanings(attributes))));
            && FaultyTag(s, f.Error())
            && Stops(ParseNode(s), Element(name, Meanings(attributes), []), f.Error())
  {
    hide ParseAttributes, ParseNode, AttributesThen, AttributesBefore, TagFault.Valid, TagFault.Text, ReadableName, Distinct;
    TagReads(name, attributes, gap, f.Text(Meanings(attributes)));
    FaultStops(f, gap, name, Meanings(attributes));
  }

  /** A start tag whose name is the end of the text. */
  lemma NameAtEnd(name: string)
    requires ReadableName(name)
    ensures FaultyTag("<" + name, FailedToReadElementName)
  {
    hide ReadName, ReadableName, Identify, ParseAttributes;
    var s := "<" + name;
    NameRead(name, "");
    IdentifyElement(name, "");
    assert name + "" == name && "<" + (name + "") == s && s[1..] == name;
    SkipsSpaces("", name);
    assert "" + name == name;
    assert ParseElement(s).error == Some(FailedToReadElementName);
  }

  /** The text ends inside an element. */
  lemma TextEndsInElement()
    ensures FaultyContent("", ReadingElementValue)
  {
  }

  /** Characters that no tag follows. */
  lemma CharactersToEnd(gap: string, runs: seq<U.Run>)
    requires U.AllSpaces(gap) && Valid(Characters(runs)) && U.Before(runs, "")
    ensures FaultyContent(gap + U.Then(runs, ""), ReadingElementValue)
  {
    hide ReadText, U.Then, U.Before, U.Without, U.White, IsWhiteSpace, ReadChildren, U.Run.Valid;
    var s := U.Then(runs, "");
    ToEndStart(runs);
    SkipsSpaces(gap, s);
    CondensedToEnd(runs, false);
    SkipsSpaces("", s);
    assert "" + s == s;
    assert ParseText(s).1 == None by { TextToEnd(s); }
    forall children ensures ReadChildren(Some(s), children).error == Some(ReadingElementValue) {
      ReadChildrenText(s, children);
      NothingLeft(if Blank(ParseText(s).0) then children else children + [Text(ParseText(s).0, false)]);
    }
  }

  lemma NothingLeft(children: seq<Node>)
    ensures ReadChildren(SkipWhiteSpace(None), children).error == Some(ReadingElementValue)
  {
  }

  lemma TextToEnd(s: string)
    requires SkipWhiteSpace(Some(s)) == Some(s) && !More(ReadCondensed(Some(s), "<", false).1)
    ensures ParseText(s).1 == None
  {
    hide ReadCondensed;
  }

  lemma ToEndStart(runs: seq<U.Run>)
    requires Valid(Characters(runs))
    ensures var s := U.Then(runs, ""); s != "" && !IsWhiteSpace(s[0]) && s[0] != '<'
  {
    hide U.Run.Then, U.White, IsWhiteSpace;
    U.RunStarts(runs[0], U.Then(runs[1..], ""));
    U.AmpersandNotWhite();
    U.WhiteSpace(U.Then(runs, "")[0]);
    assert runs[0] != U.Letter('<');
  }

  lemma {:induction false} CondensedToEnd(rs: seq<U.Run>, pending: bool)
    requires U.Valid(rs) && U.Before(rs, "") && U.Without(rs, '<')
    ensures !More(ReadCondensed(Some(U.Then(rs, "")), "<", pending).1)
  {
    hide GetChar, U.Run.Then, U.Run.Before, U.Run.Chars, IsWhiteSpace, U.White;
    if rs != [] {
      var rest := U.Then(rs[1..], "");
      U.RunReads(rs[0], rest);
      U.RunStarts(rs[0], rest);
      U.WhiteSpace(rs[0].Then(rest)[0]);
      assert rs[0] != U.Letter('<');
      U.AmpersandNotWhite();
      CondensedToEnd(rs[1..], rs[0].IsSpace());
    }
  }

  /** A comment or CDATA section that is never closed. */
  lemma SectionToEnd(gap: string, start: string, value: string)
    requires U.AllSpaces(gap)
    requires (start == "<!--" && !Occurs("-->", value)) || (start == "<![CDATA[" && !Occurs("]]>", value))
    ensures FaultyContent(gap + (start + value), ReadingElementValue)
  {
    hide Until, Occurs, IsWhiteSpace, ReadChildren;
    var s := start + value;
    assert s[1] == '!' && s[..|start|] == start && s[|start|..] == value;
    TagNotWhite();
    SkipsSpaces(gap, s);
    UntilEnd(value, if start == "<!--" then "-->" else "]]>");
    assert start == "<![CDATA[" ==> s[2] == '[';
    NeverEnds(s);
    forall children ensures ReadChildren(Some(s), children).error == Some(ReadingElementValue) {
      ReadChildrenMarkup(s, children);
      NothingLeft(children + [ParseNode(s).node]);
    }
  }

  lemma NeverEnds(s: string)
    requires ("<!--" <= s && Until(s[4..], "-->").1 == "") || ("<![CDATA[" <= s && Until(s[9..], "]]>").1 == "")
    ensures ParseNode(s).error == None && !More(ParseNode(s).next) && SkipWhiteSpace(ParseNode(s).next) == None && !("</" <= s)
  {
    hide Until, ReadChildren, ParseElement, ParseDeclaration;
    assert s[1] == '!' && ToLower(s[1]) != ToLower("<?xml"[1]);
    assert !StartsWithNoCase(s, "<?xml");
    assert "<![CDATA[" <= s ==> s[2] == '[';
  }

  lemma {:induction false} UntilEnd(value: string, tag: string)
    requires tag != "" && !Occurs(tag, value)
    ensures Until(value, tag) == (value, "")
  {
    assert value[0..] == value;
    if value != "" {
      forall i | 0 <= i <= |value| - 1 ensures !(tag <= value[1..][i..]) {
        assert value[1..][i..] == value[i + 1..];
      }
      UntilEnd(value[1..], tag);
      assert [value[0]] + value[1..] == value;
    }
  }

  // ---- what is around it ----

  /** A fault in a tag is a fault of the content it stands in. */
  lemma TagInContent(gap: string, s: string, error: ErrorId)
    requires U.AllSpaces(gap) && FaultyTag(s, error)
    ensures FaultyContent(gap + s, error)
  {
    hide ReadChildren, ParseNode;
    TagNotWhite();
    SkipsSpaces(gap, s);
    forall children ensures ReadChildren(Some(s), children).error == Some(error) {
      FaultyChild(s, error, children);
    }
  }

  lemma FaultyChild(s: string, error: ErrorId, children: seq<Node>)
    requires FaultyTag(s, error)
    ensures ReadChildren(Some(s), children).error == Some(error)
  {
    hide ParseNode, ParseText;
  }

  /** Correct content before it does not matter. */
  lemma {:induction false} ContentBefore(content: seq<Piece>, k: nat, s: string, error: ErrorId)
    requires k <= |content| && ValidContent(content) && ContentFits(content, k, s) && FaultyContent(s, error)
    ensures FaultyContent(ContentThen(content, k, s), error)
    decreases |content| - k
  {
    hide ReadChildren, Valid, Fits, Then, Nodes, SkipWhiteSpace;
    if k < |content| {
      var m, tail := content[k].markup, ContentThen(content, k + 1, s);
      ContentBefore(content, k + 1, s, error);
      forall children ensures ReadChildren(SkipWhiteSpace(Some(content[k].gap + Then(m, tail))), children).error == Some(error) {
        PieceReads(content[k].gap, m, tail, children);
      }
    }
  }

  /** An element has the error of its content, or else of its end tag. */
  lemma ElementError(name: string, attributes: seq<Attribute>, gap: string, inner: string)
    requires U.AllSpaces(gap)
    ensures var content := ReadChildren(SkipWhiteSpace(Some(inner)), []);
            ParseAttributes(gap + (">" + inner), name, attributes).error
            == First(content.error, ReadEndTag(name, content.next).1)
  {
    hide ReadChildren, ReadEndTag, SkipWhiteSpace;
    QuotesNotWhite();
    SkipsSpaces(gap, ">" + inner);
    assert (">" + inner)[1..] == inner;
  }

  /** The error of the content is that of the element. */
  lemma ElementAround(name: string, attributes: seq<Spaced>, gap: string, inner: string, error: ErrorId)
    requires ValidTag(name, attributes, gap) && AttributesBefore(attributes, gap + (">" + inner)) && FaultyContent(inner, error)
    ensures FaultyTag("<" + (name + AttributesThen(attributes, gap + (">" + inner))), error)
  {
    hide ReadChildren, ParseNode, ReadEndTag, AttributesThen, AttributesBefore, SkipWhiteSpace, ReadableName, Distinct, ParseAttributes;
    SpaceNotInName('>');
    TagReads(name, attributes, gap, ">" + inner);
    ElementError(name, Meanings(attributes), gap, inner);
    assert ReadChildren(SkipWhiteSpace(Some(inner)), []).error == Some(error);
  }

  /** What stands where the end tag should: other characters, another name, or no bracket behind the name. */
  predicate NoEndTag(name: string, s: string) {
    s == "" ||
    (&& "</" <= s
     && ("</" + name <= s ==> var close := Strip(s[2 + |name|..]); close == "" || close[0] != '>'))
  }

  lemma EndTagMissing(name: string, attributes: seq<Spaced>, gap: string, content: seq<Piece>, last: string, s: string)
    requires ValidTag(name, attributes, gap) && ValidContent(content) && U.AllSpaces(last)
    requires ContentFits(content, 0, last + s) && NoEndTag(name, s) && (s == "" ==> last != "")
    requires AttributesBefore(attributes, gap + (">" + ContentThen(content, 0, last + s)))
    ensures FaultyTag("<" + (name + AttributesThen(attributes, gap + (">" + ContentThen(content, 0, last + s)))), ReadingEndTag)
  {
    hide ReadChildren, ParseNode, AttributesThen, AttributesBefore, SkipWhiteSpace, ReadableName, Distinct, ContentThen,
         ContentFits, NodesFrom, ReadEndTag, ParseAttributes, NoEndTag, Valid;
    var inner := ContentThen(content, 0, last + s);
    SpaceNotInName('>');
    TagReads(name, attributes, gap, ">" + inner);
    ElementError(name, Meanings(attributes), gap, inner);
    StopsBefore(name, s);
    StopsAt(content, 0, last, s, []);
    EndTagFails(name, s);
  }

  lemma StopsBefore(name: string, s: string)
    requires NoEndTag(name, s)
    ensures s == "" || "</" <= s
  {
  }

  lemma EndTagFails(name: string, s: string)
    requires NoEndTag(name, s)
    ensures ReadEndTag(name, Some(s)) == (None, Some(ReadingEndTag))
  {
    assert |"</" + name| == 2 + |name|;
  }

  /** Content ends without an error in front of "</", and at the end of the text if white space stands there. */
  lemma {:induction false} StopsAt(content: seq<Piece>, k: nat, last: string, s: string, children: seq<Node>)
    requires k <= |content| && ValidContent(content) && U.AllSpaces(last) && ContentFits(content, k, last + s)
    requires if s == "" then last != "" else "</" <= s
    ensures ReadChildren(SkipWhiteSpace(Some(ContentThen(content, k, last + s))), children)
            == ContentResult(children + NodesFrom(content, k), Some(s), None)
    decreases |content| - k
  {
    hide ReadChildren, Valid, Fits, Then, Nodes, U.White, IsWhiteSpace;
    if k == |content| {
      assert children + [] == children;
      StopsHere(last, s, children);
    } else {
      hide SkipWhiteSpace;
      var m, tail := content[k].markup, ContentThen(content, k + 1, last + s);
      PieceReads(content[k].gap, m, tail, children);
      StopsAt(content, k + 1, last, s, children + Nodes(m));
      assert children + Nodes(m) + NodesFrom(content, k + 1) == children + (Nodes(m) + NodesFrom(content, k + 1));
    }
  }

  lemma StopsHere(last: string, s: string, children: seq<Node>)
    requires U.AllSpaces(last) && if s == "" then last != "" else "</" <= s
    ensures ReadChildren(SkipWhiteSpace(Some(last + s)), children) == ContentResult(children, Some(s), None)
  {
    if s == "" {
      OnlySpaces(last);
      assert last + s == last;
    } else {
      TagNotWhite();
      SkipsSpaces(last, s);
    }
  }

  // ---- open elements ----

  /** Correct content and the start tag of an element that the fault stands in. */
  datatype Open = Open(content: seq<Piece>, lead: string, name: string, attributes: seq<Spaced>, gap: string) {
    predicate Valid() {
      ValidContent(content) && U.AllSpaces(lead) && ValidTag(name, attributes, gap)
    }

    function StartTag(inner: string): string
      requires Valid()
    {
      "<" + (name + AttributesThen(attributes, gap + (">" + inner)))
    }

    predicate Before(inner: string)
      requires Valid()
    {
      AttributesBefore(attributes, gap + (">" + inner)) && ContentFits(content, 0, lead + StartTag(inner))
    }
  }

  predicate ValidOpens(opens: seq<Open>) { forall k :: 0 <= k < |opens| ==> opens[k].Valid() }

  function Nested(opens: seq<Open>, s: string): string
    requires ValidOpens(opens)
  {
    if opens == [] then s
    else ContentThen(opens[0].content, 0, opens[0].lead + opens[0].StartTag(Nested(opens[1..], s)))
  }

  predicate NestedBefore(opens: seq<Open>, s: string)
    requires ValidOpens(opens)
  {
    opens == [] || (opens[0].Before(Nested(opens[1..], s)) && NestedBefore(opens[1..], s))
  }

  lemma {:induction false} NestedFault(opens: seq<Open>, s: string, error: ErrorId)
    requires ValidOpens(opens) && NestedBefore(opens, s) && FaultyContent(s, error)
    ensures FaultyContent(Nested(opens, s), error)
  {
    hide FaultyContent, ContentThen, ContentFits, AttributesBefore, AttributesThen, ValidContent, ValidTag;
    if opens != [] {
      var o, inner := opens[0], Nested(opens[1..], s);
      NestedFault(opens[1..], s, error);
      ElementAround(o.name, o.attributes, o.gap, inner, error);
      TagInContent(o.lead, o.StartTag(inner), error);
      ContentBefore(o.content, 0, o.lead + o.StartTag(inner), error);
    }
  }

  /** A fault inside any number of open elements, behind any correct markup, is the error of the document. */
  lemma FaultReported(before: seq<Piece>, lead: string, root: Open, opens: seq<Open>, s: string, error: ErrorId)
    requires (before == [] || ValidDocument(before)) && U.AllSpaces(lead) && root.Valid() && ValidOpens(opens) && root.content == []
    requires FaultyContent(s, error) && NestedBefore(opens, s)
    requires AttributesBefore(root.attributes, root.gap + (">" + Nested(opens, s)))
    requires ContentFits(before, 0, lead + root.StartTag(Nested(opens, s)))
    ensures ParseDocument(ContentThen(before, 0, lead + root.StartTag(Nested(opens, s)))).error == Some(error)
  {
    hide FaultyContent, ContentThen, ContentFits, AttributesBefore, AttributesThen,
         ValidTag, ParseDocument, NestedBefore, Nested, ValidDocument, FaultyTag;
    NestedFault(opens, s, error);
    ElementAround(root.name, root.attributes, root.gap, Nested(opens, s), error);
    TagInDocument(before, lead, root.StartTag(Nested(opens, s)), error);
  }

  /** The same for a faulty tag at the top level. */
  lemma TagInDocument(before: seq<Piece>, lead: string, s: string, error: ErrorId)
    requires (before == [] || ValidDocument(before)) && U.AllSpaces(lead) && FaultyTag(s, error)
    requires ContentFits(before, 0, lead + s)
    ensures ParseDocument(ContentThen(before, 0, lead + s)).error == Some(error)
  {
    hide ParseTopLevel, ContentFits, ValidDocument, ContentThen;
    TopLevelFault(before, 0, lead, s, error, []);
    DocumentNotEmpty(before, lead, s);
  }

  lemma DocumentNotEmpty(before: seq<Piece>, lead: string, s: string)
    requires (before == [] || ValidDocument(before)) && s != "" && ContentFits(before, 0, lead + s)
    ensures ContentThen(before, 0, lead + s) != ""
  {
    hide Valid, Fits, Then;
    if before != [] {
      MarkupReads(before[0].markup, ContentThen(before, 1, lead + s));
    }
  }

  lemma {:induction false} TopLevelFault(before: seq<Piece>, k: nat, lead: string, s: string, error: ErrorId, children: seq<Node>)
    requires k <= |before| && (before == [] || ValidDocument(before)) && U.AllSpaces(lead) && FaultyTag(s, error)
    requires ContentFits(before, k, lead + s)
    ensures var r := ParseTopLevel(SkipWhiteSpace(Some(ContentThen(before, k, lead + s))), children);
            r.error == Some(error) && |r.children| > |children|
    decreases |before| - k
  {
    hide ParseNode, Valid, Fits, Then, Nodes, U.White, IsWhiteSpace;
    TagNotWhite();
    if k == |before| {
      SkipsSpaces(lead, s);
      TopLevelGrows(SkipWhiteSpace(ParseNode(s).next), children + [ParseNode(s).node]);
    } else {
      var m, tail := before[k].markup, ContentThen(before, k + 1, lead + s);
      MarkupReads(m, tail);
      SkipsSpaces(before[k].gap, Then(m, tail));
      SkipNothing();
      TopLevelFault(before, k + 1, lead, s, error, children + [ParseNode(Then(m, tail)).node]);
    }
  }

  lemma {:induction false} TopLevelGrows(p: Pointer, children: seq<Node>)
    ensures |ParseTopLevel(p, children).children| >= |children|
    decreases Left(p)
  {
    hide ParseNode;
    if More(p) && p.value[0] == '<' {
      TopLevelGrows(SkipWhiteSpace(ParseNode(p.value).next), children + [ParseNode(p.value).node]);
    }
  }

  /** A document without nodes is an error, too. */
  lemma NoNodes(s: string)
    requires s == "" || Strip(s) == "" || Strip(s)[0] != '<'
    ensures ParseDocument(s) == ContentResult([], None, Some(DocumentEmpty))
  {
  }
}
