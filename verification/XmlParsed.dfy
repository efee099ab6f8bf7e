// What TiXmlDocument::Parse guarantees about the tree of any document, well
// formed or not, and that such a tree can be printed and read back.

module XmlParsed {
  import opened CStrings
  import opened XmlText
  import opened XmlTree
  import opened XmlParse
  import opened XmlRoundTrip
  import opened XmlSecondRound

  // ---- the guarantee ----

  predicate ParsedAttributes(attributes: seq<Attribute>) {
    && (forall k :: 0 <= k < |attributes| ==> ReadableName(attributes[k].name))
    && (forall j, k :: 0 <= j < k < |attributes| ==> attributes[j].name != attributes[k].name)
  }

  /** Names are names, attributes are distinct, no tag looks like an end tag, and texts are not blank or neighbours. */
  predicate Parsed(node: Node) {
    match node
    case Element(name, attributes, children) =>
      && ReadableName(name) && ParsedAttributes(attributes)
      && (forall k :: 0 <= k < |children| ==> Parsed(children[k]) && !EndTagLike(children[k]))
      && NoAdjacentTexts(children)
    case Text(value, cdata) => if cdata then NulFree(value) && !Occurs("]]>", value) else !Blank(value)
    case Comment(value) => NulFree(value) && !Occurs("-->", value)
    case Unknown(value) => UnknownTag(value)
    case Declaration(_, _, _) => true
  }

  predicate ParsedChildren(children: seq<Node>) {
    && (forall k :: 0 <= k < |children| ==> Parsed(children[k]) && !EndTagLike(children[k]))
    && NoAdjacentTexts(children)
  }

  // ---- where reading goes on is still a C string ----

  predicate Clean(p: Pointer) { p.Some? ==> NulFree(p.value) }

  lemma SliceClean(s: string, k: nat)
    requires NulFree(s) && k <= |s|
    ensures NulFree(s[k..]) && NulFree(s[..k])
  {
  }

  lemma GetCharClean(s: string)
    requires s != "" && NulFree(s)
    ensures Clean(GetChar(s).next)
  {
    hide NulFree, Digits;
    var g := GetChar(s);
    if g.next.Some? {
      var k := |s| - |g.next.value|;
      assert g.next.value == s[k..];
      SliceClean(s, k);
    }
  }

  lemma {:induction false} ReadKeptClean(p: Pointer, end: string)
    requires Clean(p)
    ensures Clean(ReadKept(p, end).1)
    decreases Left(p)
  {
    hide GetChar, NulFree;
    if More(p) && !(end <= p.value) {
      GetCharClean(p.value);
      ReadKeptClean(GetChar(p.value).next, end);
    }
  }

  lemma {:induction false} ReadCondensedClean(p: Pointer, end: string, pending: bool)
    requires Clean(p)
    ensures Clean(ReadCondensed(p, end, pending).1)
    decreases Left(p)
  {
    hide GetChar, NulFree;
    if More(p) && !(end <= p.value) {
      if IsWhiteSpace(p.value[0]) {
        SliceClean(p.value, 1);
        ReadCondensedClean(Some(p.value[1..]), end, true);
      } else {
        GetCharClean(p.value);
        ReadCondensedClean(GetChar(p.value).next, end, false);
      }
    }
  }

  lemma {:induction false} StripClean(s: string)
    requires NulFree(s)
    ensures NulFree(Strip(s))
  {
    hide NulFree;
    if s != "" && IsWhiteSpace(s[0]) {
      SliceClean(s, 1);
      StripClean(s[1..]);
    }
  }

  lemma SkipClean(p: Pointer)
    requires Clean(p)
    ensures Clean(SkipWhiteSpace(p))
  {
    hide NulFree, Strip;
    if More(p) {
      StripClean(p.value);
    }
  }

  lemma ReadTextClean(p: Pointer, trim: bool, end: string)
    requires Clean(p)
    ensures Clean(ReadText(p, trim, end).1)
  {
    hide NulFree, ReadKept, ReadCondensed, SkipWhiteSpace;
    SkipClean(p);
    var r := if trim then ReadCondensed(SkipWhiteSpace(p), end, false) else ReadKept(p, end);
    if trim {
      ReadCondensedClean(SkipWhiteSpace(p), end, false);
      CondensedStops(SkipWhiteSpace(p), end, false);
    } else {
      ReadKeptClean(p, end);
      KeptStops(p, end);
    }
    if More(r.1) {
      SliceClean(r.1.value, |end|);
    }
  }

  lemma {:induction false} UntilClean(s: string, tag: string)
    requires NulFree(s)
    ensures NulFree(Until(s, tag).0) && NulFree(Until(s, tag).1)
  {
    var r := Until(s, tag);
    assert r.0 == s[..|r.0|] && r.1 == s[|r.0|..];
  }

  // ---- names and attributes ----

  lemma ReadNameFacts(p: Pointer)
    requires Clean(p)
    ensures var r := ReadName(p);
            Clean(r.1) && (r.1.Some? ==> ReadableName(r.0)) && (r.1.Some? <==> More(p) && IsNameStart(p.value[0]))
  {
    hide NulFree, NameLength;
    if More(p) && IsNameStart(p.value[0]) {
      var n := NameLength(p.value);
      StartIsNameChar(p.value[0]);
      SliceClean(p.value, n);
    }
  }

  lemma StartIsNameChar(c: char)
    requires IsNameStart(c)
    ensures IsNameChar(c)
  {
  }

  lemma ParseAttributeValueFacts(name: string, s: string)
    requires s != "" && NulFree(s)
    ensures var r := ParseAttributeValue(name, s);
            Clean(r.next) && r.attribute.name == name
  {
    hide NulFree, ReadText, UnquotedLength;
    if s[0] == '\'' || s[0] == '"' {
      SliceClean(s, 1);
      ReadTextClean(Some(s[1..]), false, [s[0]]);
    } else {
      SliceClean(s, UnquotedLength(s));
    }
  }

  lemma ParseAttributeFacts(s: string)
    requires NulFree(s)
    ensures var r := ParseAttribute(s);
            Clean(r.next) && (r.next.Some? ==> ReadableName(r.attribute.name))
  {
    hide NulFree, ReadName, ParseAttributeValue, ReadableName, Strip, SkipWhiteSpace;
    StripClean(s);
    ReadNameFacts(Some(Strip(s)));
    var name := ReadName(Some(Strip(s)));
    if Strip(s) != "" && More(name.1) {
      SkipClean(name.1);
      var equals := SkipWhiteSpace(name.1);
      if More(equals) && equals.value[0] == '=' {
        SliceClean(equals.value, 1);
        SkipClean(Some(equals.value[1..]));
        var value := SkipWhiteSpace(Some(equals.value[1..]));
        if More(value) {
          ParseAttributeValueFacts(name.0, value.value);
        }
      }
    }
  }

  lemma OneMoreAttribute(attributes: seq<Attribute>, a: Attribute)
    requires ParsedAttributes(attributes) && ReadableName(a.name) && !HasAttribute(attributes, a.name)
    ensures ParsedAttributes(attributes + [a])
  {
    hide ReadableName;
  }

  // ---- leaves ----

  lemma {:induction false} UntilNone(s: string, tag: string)
    requires tag != ""
    ensures !Occurs(tag, Until(s, tag).0)
  {
    if s != "" && !(tag <= s) {
      UntilNone(s[1..], tag);
      var r, t := Until(s, tag).0, Until(s[1..], tag).0;
      assert r == s[..|r|];
      forall i | 0 <= i <= |r| ensures !(tag <= r[i..]) {
        if i == 0 {
          assert r[0..] == r;
        } else {
          assert r[i..] == t[i - 1..];
        }
      }
    }
  }

  lemma {:induction false} UntilNoBracket(s: string)
    ensures '>' !in Until(s, ">").0
  {
    if s != "" && !(">" <= s) {
      UntilNoBracket(s[1..]);
      assert s[0] == '>' ==> ">" <= s;
    }
  }

  lemma CommentFacts(s: string)
    requires "<!--" <= s && NulFree(s)
    ensures Parsed(ParseComment(s).node) && Clean(ParseComment(s).next)
  {
    hide NulFree, Until, Occurs;
    SliceClean(s, 4);
    UntilClean(s[4..], "-->");
    UntilNone(s[4..], "-->");
    var t := Until(s[4..], "-->");
    if t.1 != "" {
      SliceClean(t.1, 3);
    }
    NulFreeNothing();
  }

  lemma NulFreeNothing()
    ensures NulFree("")
  {
  }

  lemma CDataFacts(s: string)
    requires "<![CDATA[" <= s && NulFree(s)
    ensures Parsed(ParseCData(s).node) && Clean(ParseCData(s).next)
  {
    hide NulFree, Until, Occurs;
    SliceClean(s, 9);
    UntilClean(s[9..], "]]>");
    UntilNone(s[9..], "]]>");
    var t := Until(s[9..], "]]>");
    if t.1 != "" {
      SliceClean(t.1, 3);
    }
  }

  lemma UnknownFacts(s: string)
    requires s != "" && s[0] == '<' && Identify(s) == UnknownKind && NulFree(s)
    ensures var r := ParseUnknown(s);
            Parsed(r.node) && Clean(r.next) && (EndTagLike(r.node) ==> "</" <= s)
  {
    var t := Until(s[1..], ">");
    assert t.0 == s[1..][..|t.0|];
    UntilNoBracket(s[1..]);
    hide NulFree, Until;
    SliceClean(s, 1);
    UntilClean(s[1..], ">");
    if t.1 != "" {
      SliceClean(t.1, 1);
    }
    NulFreeNothing();
    ValueStarts(s, t.0);
  }

  /** A text that starts with a tag does so behind its '<' as well. */
  lemma ValueStarts(s: string, value: string)
    requires s != "" && s[0] == '<' && Identify(s) == UnknownKind && value <= s[1..]
    ensures !("!--" <= value) && !("![CDATA[" <= value) && !StartsWithNoCase(value, "?xml")
    ensures (value == "" || !IsNameStart(value[0])) && ("/" <= value ==> "</" <= s)
  {
    FrontTag("!--", value, s);
    FrontTag("![CDATA[", value, s);
    FrontTag("/", value, s);
    FrontNoCase("?xml", value, s);
    assert value != "" ==> value[0] == s[1];
    if "<!" <= s && value != "" {
      assert s[1] == '!';
    }
  }

  lemma FrontTag(tag: string, value: string, s: string)
    requires s != "" && s[0] == '<' && value <= s[1..]
    ensures tag <= value ==> "<" + tag <= s
  {
    if |tag| <= |value| {
      assert s[..|tag| + 1] == "<" + s[1..][..|tag|];
    }
  }

  lemma FrontNoCase(tag: string, value: string, s: string)
    requires s != "" && s[0] == '<' && value <= s[1..]
    ensures StartsWithNoCase(value, tag) ==> StartsWithNoCase(s, "<" + tag)
  {
    if StartsWithNoCase(value, tag) {
      forall k | 0 <= k < |tag| + 1 ensures ToLower(s[k]) == ToLower(("<" + tag)[k]) {
        if k > 0 {
          assert s[k] == value[k - 1] && ("<" + tag)[k] == tag[k - 1];
        }
      }
    }
  }

  lemma {:induction false} DeclarationFacts(p: Pointer, d: Node)
    requires d.Declaration? && Clean(p)
    ensures var r := ParseDeclarationParts(p, d);
            r.node.Declaration? && Clean(r.next)
    decreases Left(p)
  {
    hide NulFree, ParseAttribute, StartsWithNoCase, ReadableName;
    if More(p) {
      SliceClean(p.value, 1);
      StripClean(p.value);
      var s := Strip(p.value);
      ParseAttributeFacts(s);
      var a := ParseAttribute(s);
      SliceClean(s, WordLength(s));
      if p.value[0] == '>' || s == "" {
      } else if StartsWithNoCase(s, "version") {
        DeclarationFacts(a.next, d.(version := a.attribute.value));
      } else if StartsWithNoCase(s, "encoding") {
        DeclarationFacts(a.next, d.(encoding := a.attribute.value));
      } else if StartsWithNoCase(s, "standalone") {
        DeclarationFacts(a.next, d.(standalone := a.attribute.value));
      } else {
        DeclarationFacts(Some(s[WordLength(s)..]), d);
      }
    }
  }

  // ---- elements and their contents ----

  lemma {:induction false} NodeFacts(s: string)
    requires s != "" && s[0] == '<' && NulFree(s)
    ensures var r := ParseNode(s);
            Parsed(r.node) && Clean(r.next) && !PlainText(r.node) && (EndTagLike(r.node) ==> "</" <= s)
    decreases |s|, 2
  {
    hide NulFree, ParseDeclarationParts, ParseComment, ParseCData, ParseUnknown, ParseElement, Identify, Parsed;
    match Identify(s)
    case DeclarationKind =>
      DeclarationLength(s);
      SliceClean(s, 5);
      DeclarationFacts(Some(s[5..]), Declaration("", "", ""));
      DeclarationIsParsed(ParseDeclaration(s).node);
    case CommentKind =>
      Identified(s);
      CommentFacts(s);
      CommentShape(s);
    case CDataKind =>
      Identified(s);
      CDataFacts(s);
      CDataShape(s);
    case UnknownKind =>
      UnknownFacts(s);
      UnknownShape(s);
    case ElementKind =>
      Identified(s);
      ElementFacts(s);
  }

  lemma Identified(s: string)
    requires s != "" && s[0] == '<'
    ensures Identify(s) == CommentKind ==> "<!--" <= s
    ensures Identify(s) == CDataKind ==> "<![CDATA[" <= s
    ensures Identify(s) == ElementKind ==> |s| > 1 && IsNameStart(s[1])
  {
  }

  lemma DeclarationLength(s: string)
    requires s != "" && s[0] == '<' && Identify(s) == DeclarationKind
    ensures |s| >= 5
  {
  }

  lemma DeclarationIsParsed(node: Node)
    requires node.Declaration?
    ensures Parsed(node)
  {
  }

  lemma CommentShape(s: string)
    requires "<!--" <= s
    ensures ParseComment(s).node.Comment?
  {
  }

  lemma CDataShape(s: string)
    requires "<![CDATA[" <= s
    ensures !PlainText(ParseCData(s).node) && ParseCData(s).node.Text?
  {
  }

  lemma UnknownShape(s: string)
    requires s != "" && s[0] == '<'
    ensures ParseUnknown(s).node.Unknown?
  {
  }

  lemma {:induction false} ElementFacts(s: string)
    requires |s| > 1 && s[0] == '<' && IsNameStart(s[1]) && NulFree(s)
    ensures var r := ParseElement(s);
            Parsed(r.node) && Clean(r.next) && r.node.Element?
    decreases |s|, 1
  {
    hide NulFree, ReadName, ParseAttributes, ReadableName;
    SliceClean(s, 1);
    NameStartShows(s[1]);
    assert SkipWhiteSpace(Some(s[1..])) == Some(s[1..]);
    hide SkipWhiteSpace;
    ReadNameFacts(Some(s[1..]));
    var name := ReadName(Some(s[1..]));
    NoAttributes(name.0);
    if More(name.1) {
      AttributesFacts(name.1.value, name.0, []);
    }
  }

  lemma NameStartShows(c: char)
    requires IsNameStart(c)
    ensures !IsWhiteSpace(c)
  {
  }

  lemma NoAttributes(name: string)
    requires ReadableName(name)
    ensures ParsedAttributes([]) && Parsed(Element(name, [], []))
  {
  }

  lemma ElementIsParsed(name: string, attributes: seq<Attribute>, children: seq<Node>)
    requires ReadableName(name) && ParsedAttributes(attributes) && ParsedChildren(children)
    ensures Parsed(Element(name, attributes, children))
  {
    hide ReadableName, ParsedAttributes;
  }

  lemma NoChildren()
    ensures ParsedChildren([])
  {
  }

  lemma {:induction false} AttributesFacts(s: string, name: string, attributes: seq<Attribute>)
    requires s != "" && NulFree(s) && ReadableName(name) && ParsedAttributes(attributes)
    ensures var r := ParseAttributes(s, name, attributes);
            Parsed(r.node) && Clean(r.next) && r.node.Element?
    decreases |s|, 2
  {
    hide NulFree, ReadableName, ParsedAttributes, Parsed, ParsedChildren, ParseAttribute, Strip, ReadValue, ReadEndTag,
         HasAttribute;
    StripClean(s);
    var p := Strip(s);
    NoChildren();
    ElementIsParsed(name, attributes, []);
    if p == "" {
    } else if p[0] == '/' {
      if At(p, 1) == '>' {
        SliceClean(p, 2);
      }
    } else if p[0] == '>' {
      SliceClean(p, 1);
      ReadValueFacts(Some(p[1..]));
      var content := ReadValue(Some(p[1..]));
      EndTagClean(name, content.next);
      ElementIsParsed(name, attributes, content.children);
    } else {
      ParseAttributeFacts(p);
      var a := ParseAttribute(p);
      if More(a.next) && !HasAttribute(attributes, a.attribute.name) {
        OneMoreAttribute(attributes, a.attribute);
        AttributesFacts(a.next.value, name, attributes + [a.attribute]);
      }
    }
  }

  lemma EndTagClean(name: string, p: Pointer)
    requires Clean(p)
    ensures Clean(ReadEndTag(name, p).0)
  {
    hide NulFree, SkipWhiteSpace;
    var endTag := "</" + name;
    if More(p) && endTag <= p.value {
      SliceClean(p.value, |endTag|);
      SkipClean(Some(p.value[|endTag|..]));
      var close := SkipWhiteSpace(Some(p.value[|endTag|..]));
      if More(close) {
        SliceClean(close.value, 1);
      }
    }
  }

  lemma {:induction false} ReadValueFacts(p: Pointer)
    requires Clean(p)
    ensures ParsedChildren(ReadValue(p).children) && Clean(ReadValue(p).next)
    decreases Left(p), 1
  {
    hide NulFree, ParsedChildren, ReadChildren, SkipWhiteSpace;
    SkipClean(p);
    NoChildren();
    SkipShortens(p);
    ChildrenFacts(SkipWhiteSpace(p), []);
  }

  lemma SkipShortens(p: Pointer)
    ensures Left(SkipWhiteSpace(p)) <= Left(p)
  {
  }

  /** The last child read is no plain text, or a tag comes next. */
  predicate TagAfterText(children: seq<Node>, p: Pointer) {
    children == [] || !PlainText(children[|children| - 1]) || !More(p) || p.value[0] == '<'
  }

  lemma OneMoreChild(children: seq<Node>, child: Node)
    requires ParsedChildren(children) && Parsed(child) && !EndTagLike(child)
    requires children == [] || !PlainText(children[|children| - 1]) || !PlainText(child)
    ensures ParsedChildren(children + [child])
  {
    hide Parsed, EndTagLike, PlainText;
  }

  /** The content of an element: blank texts are dropped, and after a text comes a tag. */
  lemma {:induction false} ChildrenFacts(p: Pointer, children: seq<Node>)
    requires Clean(p) && ParsedChildren(children) && TagAfterText(children, p)
    ensures var r := ReadChildren(p, children);
            ParsedChildren(r.children) && Clean(r.next)
    decreases Left(p), 0
  {
    hide NulFree, ParsedChildren, Parsed, SkipWhiteSpace, ParseText, ParseNode, EndTagLike, Blank;
    if !More(p) || "</" <= p.value {
    } else if p.value[0] != '<' {
      TextAdvances(p.value);
      var t := ParseText(p.value);
      TextFacts(p.value);
      SkipShortens(t.1);
      if Blank(t.0) {
        ChildrenFacts(SkipWhiteSpace(t.1), children);
      } else {
        TextIsParsed(t.0);
        OneMoreChild(children, Text(t.0, false));
        ChildrenFacts(SkipWhiteSpace(t.1), children + [Text(t.0, false)]);
      }
    } else {
      NodeFacts(p.value);
      var node := ParseNode(p.value);
      SkipClean(node.next);
      SkipShortens(node.next);
      OneMoreChild(children, node.node);
      ChildrenFacts(SkipWhiteSpace(node.next), children + [node.node]);
    }
  }

  lemma TextIsParsed(value: string)
    requires !Blank(value)
    ensures Parsed(Text(value, false)) && !EndTagLike(Text(value, false))
  {
  }

  /** A text is followed by a tag or by nothing. */
  lemma TextFacts(s: string)
    requires NulFree(s)
    ensures var q := SkipWhiteSpace(ParseText(s).1);
            Clean(q) && (More(q) ==> q.value[0] == '<')
  {
    hide ReadText;
    ReadTextClean(Some(s), true, "<");
  }

  // ---- documents ----

  /** Nodes of a document: no plain text at the top level. */
  predicate ParsedTop(children: seq<Node>) {
    forall k :: 0 <= k < |children| ==> Parsed(children[k]) && !PlainText(children[k])
  }

  lemma {:induction false} TopLevelFacts(p: Pointer, children: seq<Node>)
    requires Clean(p) && ParsedTop(children)
    ensures ParsedTop(ParseTopLevel(p, children).children)
    decreases Left(p)
  {
    hide NulFree, Parsed, SkipWhiteSpace, ParseNode;
    if More(p) && p.value[0] == '<' {
      NodeFacts(p.value);
      var node := ParseNode(p.value);
      SkipClean(node.next);
      SkipShortens(node.next);
      TopLevelFacts(SkipWhiteSpace(node.next), children + [node.node]);
    }
  }

  /** On every document, valid or not, the tree that Parse leaves is well formed. */
  lemma DocumentFacts(s: string)
    requires NulFree(s)
    ensures ParsedTop(ParseDocument(s).children)
  {
    hide NulFree, Parsed, SkipWhiteSpace, ParseTopLevel;
    if s != "" {
      SkipClean(Some(s));
      TopLevelFacts(SkipWhiteSpace(Some(s)), []);
    }
  }

  // ---- reading it back ----

  /** No text and no attribute value holds "&#x", and a declaration holds no quotes or ampersands. */
  predicate Printable(node: Node) {
    match node
    case Element(_, attributes, children) =>
      && (forall k :: 0 <= k < |attributes| ==> !HasReference(attributes[k].value))
      && (forall k :: 0 <= k < |children| ==> Printable(children[k]))
    case Text(value, cdata) => cdata || !HasReference(value)
    case Declaration(version, encoding, standalone) =>
      DeclarationValue(version) && DeclarationValue(encoding) && DeclarationValue(standalone)
    case _ => true
  }

  lemma {:induction false} ParsedIsReadable(node: Node)
    requires Parsed(node)
    ensures Readable(node) <==> Printable(node)
  {
    hide ReadableName, HasReference, Occurs, UnknownTag, DeclarationValue, Blank, PlainText, EndTagLike;
    if node.Element? {
      forall k | 0 <= k < |node.children| ensures Readable(node.children[k]) <==> Printable(node.children[k]) {
        ParsedIsReadable(node.children[k]);
      }
    }
  }

  /**
   * Whatever text was parsed, with or without an error: if the tree is
   * printable, printing it in any white layout gives a text that is parsed
   * without error to its end, to the tree itself exactly when its texts are
   * tidy; and what this second parse gives is stable from then on.
   */
  lemma ParsedRoundTrip(s: string, layout: Layout, again: Layout)
    requires NulFree(s) && WhiteLayout(layout) && WhiteLayout(again)
    requires var t := ParseDocument(s).children; t != [] && forall k :: 0 <= k < |t| ==> Printable(t[k])
    ensures var t := ParseDocument(s).children;
            var r := ParseDocument(PrintDocument(layout, t));
            && r.error == None && !More(r.next) && (r.children == t <==> TidyDocument(t))
            && ParseDocument(PrintDocument(again, r.children)).children == r.children
  {
    hide ParseDocument, PrintDocument, Readable, Printable, Parsed, WhiteLayout, NulFree, TidyDocument, PlainText;
    var t := ParseDocument(s).children;
    DocumentFacts(s);
    forall k | 0 <= k < |t| ensures Readable(t[k]) {
      ParsedIsReadable(t[k]);
    }
    DocumentRoundTrip(layout, t);
    TreeRoundTrip(layout, t);
    SecondRound(layout, again, t);
  }

  /**
   * Which trees come back from their print unchanged, among all trees without
   * "&#x": exactly those of the shape the parser makes, with tidy texts. Names
   * that are none, repeated attributes, neighbouring texts, comments that hold
   * their own end and the like never come back.
   */
  lemma TreesThatComeBack(layout: Layout, children: seq<Node>)
    requires WhiteLayout(layout) && forall k :: 0 <= k < |children| ==> Printable(children[k])
    ensures ParseDocument(CStr(PrintDocument(layout, children))).children == children
            <==> ParsedTop(children) && TidyDocument(children)
  {
    hide ParseDocument, PrintDocument, Readable, Printable, Parsed, WhiteLayout, NulFree, TidyTree, PlainText, CStr;
    var text := PrintDocument(layout, children);
    DocumentFacts(CStr(text));
    if children == [] {
      NothingPrinted(layout);
    } else if ParsedTop(children) {
      forall k | 0 <= k < |children| ensures Readable(children[k]) {
        ParsedIsReadable(children[k]);
      }
      DocumentRoundTrip(layout, children);
      CStrNulFree(text);
      TreeRoundTrip(layout, children);
    }
  }

  lemma NothingPrinted(layout: Layout)
    ensures ParseDocument(CStr(PrintDocument(layout, []))).children == []
  {
  }

  // ---- why "&#x" is excluded ----

  lemma FirstIndex(s: string, c: char, i: nat, n: nat)
    requires i <= n < |s| && s[n] == c && forall k :: i <= k < n ==> s[k] != c
    ensures IndexFrom(s, c, i) == Some(n)
  {
    var r := IndexFrom(s, c, i);
    assert r.Some?;
    assert !(r.value < n) && !(r.value > n);
  }

  /** A reference without its own ';' reaches into the markup behind the text and ends there. */
  lemma SwallowingReference(rest: string)
    ensures GetChar("&#x</a><a>x26;" + rest) == Glyph("&", Some(rest))
  {
    var head := "&#x</a><a>x26;";
    var s := head + rest;
    assert s[0] == '&' && s[1] == '#' && s[2] == 'x' && s[3] == '<' && s[4] == '/' && s[5] == 'a' && s[6] == '>';
    assert s[7] == '<' && s[8] == 'a' && s[9] == '>' && s[10] == 'x' && s[11] == '2' && s[12] == '6' && s[13] == ';';
    assert s[14..] == rest;
    FirstIndex(s, ';', 3, 13);
    assert Digits(s, 10, 16, 'x', 38, 256) == Some(38);
    assert Digits(s, 11, 16, 'x', 6, 16) == Some(38);
    assert Digits(s, 12, 16, 'x', 0, 1) == Some(38);
  }

  lemma CondensedStep(s: string)
    requires s != "" && !IsWhiteSpace(s[0]) && s[0] != '<'
    ensures var g := GetChar(s);
            var r := ReadCondensed(g.next, "<", false);
            ReadCondensed(Some(s), "<", false) == (g.chars + r.0, r.1)
  {
    hide GetChar;
    assert "" + GetChar(s).chars == GetChar(s).chars;
  }

  /** So the text "&#x" can be read back although its end tag and the next start tag are lost. */
  lemma SwallowedMarkup(tail: string)
    requires tail != ""
    ensures Encode("&#x") == "&#x" && HasReference("&#x")
    ensures ReadText(Some("&#x</a><a>x26;" + ("#x" + ("<" + tail))), true, "<") == ("&#x", Some(tail))
  {
    hide GetChar, ReadCondensed, PastEnd, Encode;
    var last := "<" + tail;
    var s := "&#x</a><a>x26;" + ("#x" + last);
    assert "&#x"[0..] == "&#x";
    EncodedReference();
    SwallowingReference("#x" + last);
    assert s[0] == '&' && Strip(s) == s;
    assert ['#'] + (['x'] + last) == "#x" + last;
    PlainGlyph('#', ['x'] + last);
    PlainGlyph('x', last);
    CondensedStep(s);
    CondensedStep(['#'] + (['x'] + last));
    CondensedStep(['x'] + last);
    TagStops(tail);
    assert "&" + (['#'] + (['x'] + "")) == "&#x";
    PastTag(Some(last), tail);
  }

  lemma EncodedReference()
    ensures Encode("&#x") == "&#x"
  {
    assert PassedLength("&#x") == 2;
    assert "&#x"[..2] == "&#" && "&#x"[2..] == "x" && Encode("x") == "x";
  }

  lemma PlainGlyph(c: char, rest: string)
    requires c != '&'
    ensures GetChar([c] + rest) == Glyph([c], Some(rest))
  {
    assert ([c] + rest)[1..] == rest;
  }

  lemma TagStops(tail: string)
    ensures ReadCondensed(Some("<" + tail), "<", false) == ("", Some("<" + tail))
  {
    assert "<" <= "<" + tail;
  }
}
