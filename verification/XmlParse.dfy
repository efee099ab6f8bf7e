// The recursive-descent parser of TinyXML as functions on the unread text:
// the node read, where reading stopped and the first error reported.

module XmlParse {
  import opened CStrings
  import opened XmlText
  import opened XmlTree

  datatype ErrorId =
    | ParsingElement
    | FailedToReadElementName
    | ReadingElementValue
    | ReadingAttributes
    | ParsingEmpty
    | ReadingEndTag
    | ParsingUnknown
    | ParsingComment
    | ParsingDeclaration
    | DocumentEmpty
    | ParsingCData

  /** SetError keeps the first error of a chain. */
  function First(a: Option<ErrorId>, b: Option<ErrorId>): Option<ErrorId> {
    if a.Some? then a else b
  }

  function ToLower(c: char): char {
    if 'A' <= c <= 'Z' then c - 'A' + 'a' else c
  }

  predicate StartsWithNoCase(s: string, tag: string) {
    |tag| <= |s| && forall k :: 0 <= k < |tag| ==> ToLower(s[k]) == ToLower(tag[k])
  }

  function NameLength(s: string): (n: nat)
    ensures n <= |s|
    ensures forall k :: 0 <= k < n ==> IsNameChar(s[k])
    ensures n < |s| ==> !IsNameChar(s[n])
  {
    if s != "" && IsNameChar(s[0]) then 1 + NameLength(s[1..]) else 0
  }

  /** ReadName: the name and the position after it. */
  function ReadName(p: Pointer): (r: (string, Pointer))
    ensures r.1.Some? ==> More(p) && |r.1.value| < |p.value|
  {
    if More(p) && IsNameStart(p.value[0]) then
      var n := NameLength(p.value);
      (p.value[..n], Some(p.value[n..]))
    else ("", None)
  }

  /** The text before the first occurrence of tag, and the text from it on. */
  function Until(s: string, tag: string): (r: (string, string))
    ensures s == r.0 + r.1
    ensures r.1 == "" || tag <= r.1
  {
    if s == "" || tag <= s then ("", s)
    else
      var r := Until(s[1..], tag);
      ([s[0]] + r.0, r.1)
  }

  // ---- attributes ----

  datatype AttributeResult = AttributeResult(attribute: Attribute, next: Pointer, error: Option<ErrorId>)

  /** The unquoted form: up to white space, '/' or '>'; a quote in it is an error. */
  function UnquotedLength(s: string): (n: nat)
    ensures n <= |s|
  {
    if s == "" || IsWhiteSpace(s[0]) || s[0] == '/' || s[0] == '>' || s[0] == '\'' || s[0] == '"' then 0
    else 1 + UnquotedLength(s[1..])
  }

  function ParseAttributeValue(name: string, s: string): (r: AttributeResult)
    requires s != ""
    ensures Left(r.next) <= |s| + 1
    ensures r.next.Some? ==> r.error == None
  {
    if s[0] == '\'' || s[0] == '"' then
      var t := ReadText(Some(s[1..]), false, [s[0]]);
      AttributeResult(Attribute(name, t.0), t.1, None)
    else
      var n := UnquotedLength(s);
      if n < |s| && (s[n] == '\'' || s[n] == '"')
      then AttributeResult(Attribute(name, s[..n]), None, Some(ReadingAttributes))
      else AttributeResult(Attribute(name, s[..n]), Some(s[n..]), None)
  }

  /** TiXmlAttribute::Parse. */
  function ParseAttribute(s: string): (r: AttributeResult)
    ensures Left(r.next) <= |s|
    ensures r.next.Some? ==> r.error == None
  {
    if Strip(s) == "" then AttributeResult(Attribute("", ""), None, None) else
    var name := ReadName(Some(Strip(s)));
    if !More(name.1) then AttributeResult(Attribute(name.0, ""), None, Some(ReadingAttributes)) else
    var equals := SkipWhiteSpace(name.1);
    if !More(equals) || equals.value[0] != '=' then
      AttributeResult(Attribute(name.0, ""), None, Some(ReadingAttributes))
    else
      var value := SkipWhiteSpace(Some(equals.value[1..]));
      if !More(value) then AttributeResult(Attribute(name.0, ""), None, Some(ReadingAttributes))
      else ParseAttributeValue(name.0, value.value)
  }

  predicate HasAttribute(attributes: seq<Attribute>, name: string) {
    exists k :: 0 <= k < |attributes| && attributes[k].name == name
  }

  // ---- leaf nodes ----

  datatype NodeResult = NodeResult(node: Node, next: Pointer, error: Option<ErrorId>)

  /** TiXmlComment::Parse. */
  function ParseComment(s: string): (r: NodeResult)
    requires "<!--" <= s
    ensures Left(r.next) <= |s|
  {
    var t := Until(s[4..], "-->");
    NodeResult(Comment(t.0), Some(if t.1 == "" then "" else t.1[3..]), None)
  }

  /** TiXmlText::Parse for a CDATA section. */
  function ParseCData(s: string): (r: NodeResult)
    requires "<![CDATA[" <= s
    ensures Left(r.next) <= |s|
  {
    var t := Until(s[9..], "]]>");
    NodeResult(Text(t.0, true), PastEnd(Some(t.1), "]]>"), None)
  }

  /** TiXmlText::Parse for plain text: it stops on the '<' that ends it. */
  function ParseText(s: string): (string, Pointer)
  {
    var t := ReadText(Some(s), true, "<");
    (t.0, if More(t.1) then Some("<" + t.1.value) else None)
  }

  /** TiXmlUnknown::Parse. */
  function ParseUnknown(s: string): (r: NodeResult)
    requires s != "" && s[0] == '<'
    ensures Left(r.next) <= |s|
  {
    var t := Until(s[1..], ">");
    NodeResult(Unknown(t.0), Some(if t.1 == "" then "" else t.1[1..]), None)
  }

  function WordLength(s: string): (n: nat)
    ensures n <= |s|
  {
    if s == "" || s[0] == '>' || IsWhiteSpace(s[0]) then 0 else 1 + WordLength(s[1..])
  }

  /** The loop of TiXmlDeclaration::Parse; its attributes report no errors. */
  function ParseDeclarationParts(p: Pointer, d: Node): (r: NodeResult)
    requires d.Declaration?
    ensures Left(r.next) <= Left(p)
    decreases Left(p)
  {
    if !More(p) then NodeResult(d, None, None)
    else if p.value[0] == '>' then NodeResult(d, Some(p.value[1..]), None)
    else
      var s := Strip(p.value);
      if s == "" then NodeResult(d, None, None)
      else if StartsWithNoCase(s, "version") then
        var a := ParseAttribute(s);
        ParseDeclarationParts(a.next, d.(version := a.attribute.value))
      else if StartsWithNoCase(s, "encoding") then
        var a := ParseAttribute(s);
        ParseDeclarationParts(a.next, d.(encoding := a.attribute.value))
      else if StartsWithNoCase(s, "standalone") then
        var a := ParseAttribute(s);
        ParseDeclarationParts(a.next, d.(standalone := a.attribute.value))
      else ParseDeclarationParts(Some(s[WordLength(s)..]), d)
  }

  function ParseDeclaration(s: string): (r: NodeResult)
    requires |s| >= 5
    ensures Left(r.next) <= |s|
  {
    ParseDeclarationParts(Some(s[5..]), Declaration("", "", ""))
  }

  // ---- elements ----

  datatype Kind = DeclarationKind | CommentKind | CDataKind | UnknownKind | ElementKind

  /** TiXmlNode::Identify at a '<'. */
  function Identify(s: string): (k: Kind)
    requires s != "" && s[0] == '<'
  {
    if StartsWithNoCase(s, "<?xml") then DeclarationKind
    else if "<!--" <= s then CommentKind
    else if "<![CDATA[" <= s then CDataKind
    else if "<!" <= s then UnknownKind
    else if IsNameStart(At(s, 1)) then ElementKind
    else UnknownKind
  }

  /** Parse of whatever Identify finds. */
  function ParseNode(s: string): (r: NodeResult)
    requires s != "" && s[0] == '<'
    ensures Left(r.next) <= |s|
    decreases |s|, 2
  {
    match Identify(s)
    case DeclarationKind => ParseDeclaration(s)
    case CommentKind => ParseComment(s)
    case CDataKind => ParseCData(s)
    case UnknownKind => ParseUnknown(s)
    case ElementKind => ParseElement(s)
  }

  /** TiXmlElement::Parse. */
  function ParseElement(s: string): (r: NodeResult)
    requires s != "" && s[0] == '<'
    ensures Left(r.next) <= |s|
    decreases |s|, 1
  {
    var name := ReadName(SkipWhiteSpace(Some(s[1..])));
    if !More(name.1) then NodeResult(Element(name.0, [], []), None, Some(FailedToReadElementName))
    else ParseAttributes(name.1.value, name.0, [])
  }

  /** The loop over the attributes, up to the end of the element. */
  function ParseAttributes(s: string, name: string, attributes: seq<Attribute>): (r: NodeResult)
    requires s != ""
    ensures Left(r.next) <= |s| + 1
    decreases |s|, 2
  {
    var p := Strip(s);
    if p == "" then NodeResult(Element(name, attributes, []), None, Some(ReadingAttributes))
    else if p[0] == '/' then
      if At(p, 1) != '>' then NodeResult(Element(name, attributes, []), None, Some(ParsingEmpty))
      else NodeResult(Element(name, attributes, []), Some(p[2..]), None)
    else if p[0] == '>' then
      var content := ReadValue(Some(p[1..]));
      var tail := ReadEndTag(name, content.next);
      NodeResult(Element(name, attributes, content.children), tail.0, First(content.error, tail.1))
    else
      var a := ParseAttribute(p);
      if !More(a.next) || HasAttribute(attributes, a.attribute.name) then
        NodeResult(Element(name, attributes, []), None, First(a.error, Some(ParsingElement)))
      else ParseAttributes(a.next.value, name, attributes + [a.attribute])
  }

  /** The end tag after the content of an element. */
  function ReadEndTag(name: string, p: Pointer): (r: (Pointer, Option<ErrorId>))
    ensures Left(r.0) <= Left(p)
  {
    var endTag := "</" + name;
    if !More(p) || !(endTag <= p.value) then (None, Some(ReadingEndTag)) else
    var close := SkipWhiteSpace(Some(p.value[|endTag|..]));
    if More(close) && close.value[0] == '>' then (Some(close.value[1..]), None)
    else (None, Some(ReadingEndTag))
  }

  datatype ContentResult = ContentResult(children: seq<Node>, next: Pointer, error: Option<ErrorId>)

  predicate Blank(s: string) { AllWhite(s) }

  /** TiXmlElement::ReadValue. */
  function ReadValue(p: Pointer): (r: ContentResult)
    ensures Left(r.next) <= Left(p)
    decreases Left(p), 1
  {
    ReadChildren(SkipWhiteSpace(p), [])
  }

  function ReadChildren(p: Pointer, children: seq<Node>): (r: ContentResult)
    ensures Left(r.next) <= Left(p)
    decreases Left(p), 0
  {
    if !More(p) then ContentResult(children, p, if p.None? then Some(ReadingElementValue) else None)
    else if "</" <= p.value then ContentResult(children, p, None)
    else if p.value[0] != '<' then
      TextAdvances(p.value);
      var t := ParseText(p.value);
      ReadChildren(SkipWhiteSpace(t.1), if Blank(t.0) then children else children + [Text(t.0, false)])
    else
      var node := ParseNode(p.value);
      var r := ReadChildren(SkipWhiteSpace(node.next), children + [node.node]);
      r.(error := First(node.error, r.error))
  }

  lemma TextAdvances(s: string)
    requires s != "" && s[0] != '<'
    ensures Left(ParseText(s).1) < |s| + 1
  {
    var p := SkipWhiteSpace(Some(s));
    var r := ReadCondensed(p, "<", false);
    CondensedStops(p, "<", false);
    if More(p) {
      if IsWhiteSpace(s[0]) {
      } else {
        assert !("<" <= s);
      }
    }
  }

  /** TiXmlDocument::Parse: the children, where parsing stopped and the first error. */
  function ParseDocument(s: string): ContentResult {
    if s == "" then ContentResult([], None, Some(DocumentEmpty)) else
    var r := ParseTopLevel(SkipWhiteSpace(Some(s)), []);
    if r.children == [] then ContentResult([], None, First(r.error, Some(DocumentEmpty))) else r
  }

  function ParseTopLevel(p: Pointer, children: seq<Node>): (r: ContentResult)
    decreases Left(p)
  {
    if !More(p) || p.value[0] != '<' then ContentResult(children, p, None)
    else
      var node := ParseNode(p.value);
      var r := ParseTopLevel(SkipWhiteSpace(node.next), children + [node.node]);
      r.(error := First(node.error, r.error))
  }
}
