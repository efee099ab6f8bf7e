// What TiXmlDocument::Parse makes of the text TiXmlPrinter prints: the same
// tree with every text condensed and the blank texts dropped.

module XmlRoundTrip {
  import opened CStrings
  import opened XmlText
  import opened XmlTree
  import opened XmlParse

  predicate PlainText(node: Node) {
    node.Text? && !node.cdata
  }

  predicate Occurs(tag: string, s: string) {
    exists i :: 0 <= i <= |s| && tag <= s[i..]
  }

  predicate ReadableAttributes(attributes: seq<Attribute>) {
    && (forall k :: 0 <= k < |attributes| ==> ReadableName(attributes[k].name) && !HasReference(attributes[k].value))
    && (forall j, k :: 0 <= j < k < |attributes| ==> attributes[j].name != attributes[k].name)
  }

  /** What stands between the brackets of a tag that Identify takes for none of the other kinds. */
  predicate UnknownTag(value: string) {
    && NulFree(value) && '>' !in value
    && !("!--" <= value) && !("![CDATA[" <= value) && !StartsWithNoCase(value, "?xml")
    && (value == "" || !IsNameStart(value[0]))
  }

  /** Inside an element such a tag would be taken for an end tag. */
  predicate EndTagLike(node: Node) {
    node.Unknown? && "/" <= node.value
  }

  /** A value that a declaration can hold: it is printed as it is and decoded when it is read. */
  predicate DeclarationValue(value: string) {
    NulFree(value) && '"' !in value && '&' !in value
  }

  /** The trees that can be read back. */
  predicate Readable(node: Node) {
    match node
    case Element(name, attributes, children) =>
      && ReadableName(name) && ReadableAttributes(attributes)
      && (forall k :: 0 <= k < |children| ==> Readable(children[k]) && !EndTagLike(children[k]))
      && (forall k :: 0 < k < |children| ==> !(PlainText(children[k - 1]) && PlainText(children[k])))
    case Text(value, cdata) => if cdata then NulFree(value) && !Occurs("]]>", value) else !HasReference(value)
    case Comment(value) => NulFree(value) && !Occurs("-->", value)
    case Unknown(value) => UnknownTag(value)
    case Declaration(version, encoding, standalone) =>
      DeclarationValue(version) && DeclarationValue(encoding) && DeclarationValue(standalone)
  }

  /** A document of readable nodes; plain text stands only inside elements. */
  predicate ReadableDocument(children: seq<Node>) {
    children != [] && forall k :: 0 <= k < |children| ==> Readable(children[k]) && !PlainText(children[k])
  }

  /** Indentation and line breaks are white space, as in the default and in the stream printing layout. */
  predicate WhiteLayout(layout: Layout) {
    AllWhite(layout.indent) && AllWhite(layout.lineBreak)
  }

  // ---- the tree that is read back ----

  function Tidy(node: Node): Node
    decreases node, 0
  {
    match node
    case Element(name, attributes, children) => Element(name, attributes, TidyFrom(children, 0))
    case _ => node
  }

  function TidyText(value: string): seq<Node> {
    if Blank(Condense(value)) then [] else [Text(Condense(value), false)]
  }

  /** What one child adds to the children read. */
  function TidyChild(child: Node): seq<Node>
    decreases child, 1
  {
    if PlainText(child) then TidyText(child.value) else [Tidy(child)]
  }

  function TidyFrom(children: seq<Node>, k: nat): seq<Node>
    requires k <= |children|
    decreases children, |children| - k
  {
    if k == |children| then []
    else TidyChild(children[k]) + TidyFrom(children, k + 1)
  }

  /** No text is blank, has a space at an end or two in a row. */
  predicate TidyTree(node: Node) {
    match node
    case Element(_, _, children) => forall k :: 0 <= k < |children| ==> TidyTree(children[k])
    case Text(value, cdata) => cdata || (Condensed(value) && !Blank(value))
    case _ => true
  }

  lemma {:induction false} TidyUnchanged(node: Node)
    requires TidyTree(node)
    ensures Tidy(node) == node
    decreases node, 0
  {
    if node.Element? {
      TidyFromUnchanged(node.children, 0, node);
    }
  }

  lemma {:induction false} TidyFromUnchanged(children: seq<Node>, k: nat, node: Node)
    requires node.Element? && node.children == children && TidyTree(node) && k <= |children|
    ensures TidyFrom(children, k) == children[k..]
    decreases children, |children| - k
  {
    if k < |children| {
      TidyFromUnchanged(children, k + 1, node);
      if PlainText(children[k]) {
        CondenseFixed(children[k].value);
      } else {
        TidyUnchanged(children[k]);
      }
    }
  }

  // ---- white space around the tags ----

  lemma {:induction false} IndentationWhite(layout: Layout, depth: nat)
    requires WhiteLayout(layout)
    ensures AllWhite(Indentation(layout, depth))
  {
    if depth > 0 {
      IndentationWhite(layout, depth - 1);
    }
  }

  lemma WhiteConcat(a: string, b: string)
    requires AllWhite(a) && AllWhite(b)
    ensures AllWhite(a + b)
  {
  }

  lemma SkipIndentation(layout: Layout, depth: nat, s: string)
    requires WhiteLayout(layout) && s != "" && !IsWhiteSpace(s[0])
    ensures SkipWhiteSpace(Some(Indentation(layout, depth) + s)) == Some(s)
    ensures Indentation(layout, depth) + s != ""
  {
    IndentationWhite(layout, depth);
    StripWhite(Indentation(layout, depth), s);
  }

  lemma SkipLineBreak(layout: Layout, s: string)
    requires WhiteLayout(layout) && s != ""
    ensures SkipWhiteSpace(Some(layout.lineBreak + s)) == SkipWhiteSpace(Some(s))
  {
    StripWhite(layout.lineBreak, s);
  }

  /** White space and then a tag of at least two characters. */
  ghost predicate Opens(s: string) {
    exists white: string, tail: string :: AllWhite(white) && tail != "" && s == white + ("<" + tail)
  }

  lemma IndentationOpens(layout: Layout, depth: nat, tail: string)
    requires WhiteLayout(layout) && tail != ""
    ensures Opens(Indentation(layout, depth) + ("<" + tail))
  {
    IndentationWhite(layout, depth);
  }

  lemma LineBreakOpens(layout: Layout, s: string)
    requires WhiteLayout(layout) && Opens(s)
    ensures Opens(layout.lineBreak + s)
  {
    var white, tail :| AllWhite(white) && tail != "" && s == white + ("<" + tail);
    WhiteConcat(layout.lineBreak, white);
    assert layout.lineBreak + s == (layout.lineBreak + white) + ("<" + tail);
  }

  lemma MarkupOpens(layout: Layout, node: Node, depth: nat, rest: string)
    requires WhiteLayout(layout) && Readable(node) && !PlainText(node)
    ensures Opens(Print(layout, node, depth, rest))
  {
    match node
    case Element(name, attributes, children) =>
      var s := "<" + (name + PrintAttributes(Walked(attributes), PrintContent(layout, name, children, depth, rest)));
      assert s == "<" + s[1..];
      IndentationOpens(layout, depth, s[1..]);
    case Text(value, cdata) =>
      var s := "<![CDATA[" + (value + ("]]>" + (layout.lineBreak + rest)));
      assert s == "<" + s[1..];
      IndentationOpens(layout, depth, s[1..]);
    case Comment(value) =>
      var s := "<!--" + (value + ("-->" + (layout.lineBreak + rest)));
      assert s == "<" + s[1..];
      IndentationOpens(layout, depth, s[1..]);
    case Unknown(value) =>
      IndentationOpens(layout, depth, value + (">" + (layout.lineBreak + rest)));
    case Declaration(version, encoding, standalone) =>
      var s := "<?xml " + DeclarationTail(node, layout.lineBreak + rest);
      assert s == "<" + s[1..];
      IndentationOpens(layout, depth, s[1..]);
  }

  lemma EndTagOpens(layout: Layout, name: string, depth: nat, rest: string)
    requires WhiteLayout(layout)
    ensures Opens(Indentation(layout, depth) + EndTag(layout, name, rest))
    ensures Opens(EndTag(layout, name, rest))
  {
    var s := EndTag(layout, name, rest);
    assert s == "<" + s[1..];
    IndentationOpens(layout, depth, s[1..]);
    assert s == "" + s;
    IndentationOpens(layout, 0, s[1..]);
  }

  // ---- names and attributes ----

  lemma {:induction false} NameLengthOf(name: string, rest: string)
    requires forall k :: 0 <= k < |name| ==> IsNameChar(name[k])
    requires rest != "" && !IsNameChar(rest[0])
    ensures NameLength(name + rest) == |name|
  {
    if name == "" {
      assert name + rest == rest;
    } else {
      assert (name + rest)[1..] == name[1..] + rest;
      NameLengthOf(name[1..], rest);
    }
  }

  lemma ReadNameOf(name: string, rest: string)
    requires ReadableName(name) && rest != "" && !IsNameChar(rest[0])
    ensures ReadName(Some(name + rest)) == (name, Some(rest))
    ensures name + rest != "" && !IsWhiteSpace((name + rest)[0])
    ensures SkipWhiteSpace(Some(name + rest)) == Some(name + rest)
  {
    NameLengthOf(name, rest);
    assert (name + rest)[..|name|] == name && (name + rest)[|name|..] == rest;
  }

  lemma {:induction false} EncodeName(name: string)
    requires forall k :: 0 <= k < |name| ==> IsNameChar(name[k])
    ensures Encode(name) == name
  {
    if name != "" {
      EncodeName(name[1..]);
      assert [name[0]] + name[1..] == name;
    }
  }

  lemma AttributeReadsBack(a: Attribute, rest: string)
    requires ReadableName(a.name) && !HasReference(a.value) && rest != ""
    ensures var s := Encode(a.name) + ("=" + (Quoted(a.value) + rest));
            && s != "" && !IsWhiteSpace(s[0]) && s[0] != '/' && s[0] != '>'
            && ParseAttribute(s) == AttributeResult(a, Some(rest), None)
  {
    hide ReadText, Encode, HasReference, NameLength, IsNameChar, IsAlpha;
    EncodeReadable(a.name);
    var quote := if '"' in a.value then "'" else "\"";
    var value := quote + (Encode(a.value) + (quote + rest));
    QuotedFollowed(a.value, rest);
    var s := a.name + ("=" + value);
    assert !IsNameChar('=') by { EqualsNotInName(); }
    ReadNameOf(a.name, "=" + value);
    NameFirst(a.name, "=" + value);
    assert ("=" + value)[1..] == value;
    assert SkipWhiteSpace(Some(value)) == Some(value);
    assert value[1..] == Encode(a.value) + (quote + rest);
    ReadTextKept(a.value, quote, rest);
    assert [value[0]] == quote;
  }

  lemma EqualsNotInName()
    ensures !IsNameChar('=') && !IsNameChar(' ') && !IsNameChar('>')
  {
  }

  lemma NameFirst(name: string, rest: string)
    requires ReadableName(name)
    ensures var s := name + rest; s != "" && !IsWhiteSpace(s[0]) && s[0] != '/' && s[0] != '>' && s[0] != '!' && s[0] != '?'
  {
  }

  lemma EncodeReadable(name: string)
    requires ReadableName(name)
    ensures Encode(name) == name
  {
    EncodeName(name);
  }

  lemma QuotedFollowed(value: string, rest: string)
    ensures var quote := if '"' in value then "'" else "\"";
            Quoted(value) + rest == quote + (Encode(value) + (quote + rest))
  {
  }

  /** Readable names are not empty, so all attributes are walked. */
  lemma ReadableWalked(attributes: seq<Attribute>)
    requires ReadableAttributes(attributes)
    ensures Walked(attributes) == attributes
  {
    WalkedAll(attributes);
  }

  /** What stands after the attributes of a printed element. */
  predicate ContentStart(s: string) {
    |s| >= 2 && (s[0] == '>' || (s[0] == ' ' && s[1] == '/'))
  }

  lemma PrintContentStart(layout: Layout, name: string, children: seq<Node>, depth: nat, rest: string)
    ensures ContentStart(PrintContent(layout, name, children, depth, rest))
  {
    hide Encode, PrintChildren;
    var s := PrintContent(layout, name, children, depth, rest);
    if children != [] && !SimpleText(children) {
      PrintChildrenNonEmpty(layout, children, 0, depth + 1, Indentation(layout, depth) + EndTag(layout, name, rest));
    }
  }

  lemma {:induction false} PrintChildrenNonEmpty(layout: Layout, children: seq<Node>, k: nat, depth: nat, rest: string)
    requires k <= |children| && rest != ""
    ensures PrintChildren(layout, children, k, depth, rest) != ""
    decreases |children| - k
  {
    if k < |children| {
      PrintChildrenNonEmpty(layout, children, k + 1, depth, rest);
      PrintNonEmpty(layout, children[k], depth, PrintChildren(layout, children, k + 1, depth, rest));
    }
  }

  lemma PrintNonEmpty(layout: Layout, node: Node, depth: nat, rest: string)
    requires rest != ""
    ensures Print(layout, node, depth, rest) != ""
  {
    hide Encode, PrintAttributes, PrintContent;
  }

  lemma {:induction false} AttributesReadBack(all: seq<Attribute>, k: nat, name: string, rest: string)
    requires ReadableAttributes(all) && k <= |all| && ContentStart(rest)
    ensures PrintAttributes(all[k..], rest) != ""
    ensures ParseAttributes(PrintAttributes(all[k..], rest), name, all[..k]) == ParseAttributes(rest, name, all)
    ensures !IsNameChar(PrintAttributes(all[k..], rest)[0])
    decreases |all| - k
  {
    hide Encode, Quoted, ParseAttributes, ParseAttribute, HasReference;
    if k == |all| {
      assert all[k..] == [] && all[..k] == all;
    } else {
      assert all[k..] != [];
      var a, tail := all[k], PrintAttributes(all[k..][1..], rest);
      assert all[k..][1..] == all[k + 1..] && all[k..][0] == a;
      AttributesReadBack(all, k + 1, name, rest);
      AttributeReadsBack(a, tail);
      AttributeStep(a, tail, name, all[..k]);
      assert all[..k] + [a] == all[..k + 1];
    }
  }

  lemma AttributeStep(a: Attribute, rest: string, name: string, before: seq<Attribute>)
    requires rest != "" && !HasAttribute(before, a.name)
    requires var s := Encode(a.name) + ("=" + (Quoted(a.value) + rest));
             && s != "" && !IsWhiteSpace(s[0]) && s[0] != '/' && s[0] != '>'
             && ParseAttribute(s) == AttributeResult(a, Some(rest), None)
    ensures var s := " " + (Encode(a.name) + ("=" + (Quoted(a.value) + rest)));
            ParseAttributes(s, name, before) == ParseAttributes(rest, name, before + [a])
  {
    hide ParseAttribute, Encode, Quoted;
    var t := Encode(a.name) + ("=" + (Quoted(a.value) + rest));
    assert (" " + t)[1..] == t;
    assert Strip(" " + t) == t;
  }

  // ---- comments and CDATA sections ----

  /** A three-character tag whose first two characters are equal and unlike the third. */
  lemma {:induction false} UntilTag(value: string, tag: string, rest: string)
    requires |tag| == 3 && tag[0] == tag[1] != tag[2] && !Occurs(tag, value)
    ensures Until(value + (tag + rest), tag) == (value, tag + rest)
  {
    var s := value + (tag + rest);
    if value == "" {
      assert s == tag + rest;
      assert tag <= s;
    } else {
      var t := value[1..];
      assert s[1..] == t + (tag + rest);
      forall i | 0 <= i <= |t| ensures !(tag <= t[i..]) {
        assert t[i..] == value[i + 1..];
      }
      UntilTag(t, tag, rest);
      assert value[0..] == value;
      assert [value[0]] + t == value;
    }
  }

  lemma CommentReadsBack(value: string, rest: string)
    requires !Occurs("-->", value)
    ensures var s := "<!--" + (value + ("-->" + rest));
            ParseNode(s) == NodeResult(Comment(value), Some(rest), None) && !("</" <= s)
  {
    var s := "<!--" + (value + ("-->" + rest));
    hide Until, Occurs;
    assert s[1] == '!';
    assert s[..4] == "<!--" && s[4..] == value + ("-->" + rest);
    UntilTag(value, "-->", rest);
    assert ("-->" + rest)[3..] == rest;
  }

  lemma {:induction false} UntilBracket(value: string, rest: string)
    requires '>' !in value
    ensures Until(value + (">" + rest), ">") == (value, ">" + rest)
  {
    var s := value + (">" + rest);
    if value == "" {
      assert s == ">" + rest;
      assert ">" <= s;
    } else {
      assert s[1..] == value[1..] + (">" + rest);
      UntilBracket(value[1..], rest);
      assert [value[0]] + value[1..] == value;
    }
  }

  lemma UnknownReadsBack(value: string, rest: string)
    requires UnknownTag(value)
    ensures var s := "<" + (value + (">" + rest));
            && ParseNode(s) == NodeResult(Unknown(value), Some(rest), None)
            && ("</" <= s ==> "/" <= value)
  {
    var s := "<" + (value + (">" + rest));
    assert s[1..] == value + (">" + rest);
    UnknownIdentified(value, rest);
    hide Identify;
    UntilBracket(value, rest);
    assert (">" + rest)[1..] == rest;
  }

  lemma UnknownIdentified(value: string, rest: string)
    requires UnknownTag(value)
    ensures var s := "<" + (value + (">" + rest));
            Identify(s) == UnknownKind && ("</" <= s ==> "/" <= value)
  {
    var t := value + (">" + rest);
    var s := "<" + t;
    NotPrefix("!--", value, rest);
    NotPrefix("![CDATA[", value, rest);
    NotPrefixNoCase("?xml", value, rest);
    assert s[1..] == t;
    assert "<!--" <= s ==> "!--" <= t by { TailPrefix("<!--", s); }
    assert "<![CDATA[" <= s ==> "![CDATA[" <= t by { TailPrefix("<![CDATA[", s); }
    assert StartsWithNoCase(s, "<?xml") ==> StartsWithNoCase(t, "?xml") by {
      TailNoCase("<?xml", s);
      assert "<?xml"[1..] == "?xml";
    }
    assert t[0] == if value == "" then '>' else value[0];
    assert "</" <= s ==> s[1] == '/';
  }

  /** A tag without '>' that begins a text with '>' after value begins value. */
  lemma NotPrefix(tag: string, value: string, rest: string)
    requires '>' !in tag && !(tag <= value)
    ensures !(tag <= value + (">" + rest))
  {
    var t := value + (">" + rest);
    if |tag| <= |value| {
      assert t[..|tag|] == value[..|tag|];
    } else {
      assert t[|value|] == '>';
    }
  }

  lemma NotPrefixNoCase(tag: string, value: string, rest: string)
    requires (forall k :: 0 <= k < |tag| ==> ToLower(tag[k]) != '>') && !StartsWithNoCase(value, tag)
    ensures !StartsWithNoCase(value + (">" + rest), tag)
  {
    var t := value + (">" + rest);
    if |tag| <= |value| {
      assert forall k :: 0 <= k < |tag| ==> t[k] == value[k];
    } else {
      assert ToLower(t[|value|]) == '>';
    }
  }

  lemma TailPrefix(tag: string, s: string)
    requires tag != "" && s != ""
    ensures tag <= s ==> tag[1..] <= s[1..]
  {
  }

  lemma TailNoCase(tag: string, s: string)
    requires tag != "" && s != ""
    ensures StartsWithNoCase(s, tag) ==> StartsWithNoCase(s[1..], tag[1..])
  {
  }

  // ---- declarations ----

  /** What follows "<?xml " in a printed declaration. */
  function DeclarationTail(d: Node, rest: string): string
    requires d.Declaration?
  {
    DeclarationPart("version", d.version) + (DeclarationPart("encoding", d.encoding)
    + (DeclarationPart("standalone", d.standalone) + ("?>" + rest)))
  }

  /** A value without quotes and ampersands is read as it is. */
  lemma {:induction false} PlainKept(value: string, rest: string)
    requires '"' !in value && '&' !in value
    ensures ReadKept(Some(value + ("\"" + rest)), "\"") == (value, Some("\"" + rest))
  {
    var s := value + ("\"" + rest);
    if value == "" {
      assert s == "\"" + rest;
      assert "\"" <= s;
    } else {
      assert s[0] == value[0] && s[1..] == value[1..] + ("\"" + rest);
      PlainKept(value[1..], rest);
      assert [value[0]] + value[1..] == value;
    }
  }

  lemma PartReads(name: string, value: string, rest: string)
    requires ReadableName(name) && DeclarationValue(value) && rest != ""
    ensures ParseAttribute(name + ("=\"" + (value + ("\"" + rest))))
         == AttributeResult(Attribute(name, value), Some(rest), None)
  {
    hide ReadKept, NameLength, IsNameChar, IsAlpha;
    var text := value + ("\"" + rest);
    var quoted := "\"" + text;
    assert "=\"" + text == "=" + quoted;
    assert !IsNameChar('=') by { EqualsNotInName(); }
    ReadNameOf(name, "=" + quoted);
    NameFirst(name, "=" + quoted);
    assert ("=" + quoted)[1..] == quoted && quoted[1..] == text;
    assert SkipWhiteSpace(Some(quoted)) == Some(quoted);
    assert Strip(name + ("=" + quoted)) == name + ("=" + quoted);
    PlainKept(value, rest);
    assert ("\"" + rest)[1..] == rest;
    assert [quoted[0]] == "\"";
  }

  /** One pseudo-attribute, and what the loop of the declaration sees of it. */
  lemma PartStep(name: string, value: string, rest: string)
    requires ReadableName(name) && value != "" && DeclarationValue(value)
    ensures var s := " " + (DeclarationPart(name, value) + rest);
            var t := Strip(s);
            && t != "" && t[0] == name[0] && StartsWithNoCase(t, name)
            && ParseAttribute(t) == AttributeResult(Attribute(name, value), Some(" " + rest), None)
  {
    hide ParseAttribute, IsAlpha, DeclarationValue;
    var t := name + ("=\"" + (value + ("\"" + (" " + rest))));
    PartReads(name, value, " " + rest);
    assert DeclarationPart(name, value) + rest == t by {
      assert "\" " + rest == "\"" + (" " + rest);
    }
    NameFirst(name, "=\"" + (value + ("\"" + (" " + rest))));
    assert (" " + t)[1..] == t;
    assert Strip(" " + t) == t;
  }

  lemma NoPart(name: string, rest: string)
    ensures DeclarationPart(name, "") + rest == rest
  {
  }

  lemma VersionReads(value: string, rest: string, d: Node)
    requires d.Declaration? && d.version == "" && DeclarationValue(value)
    ensures ParseDeclarationParts(Some(" " + (DeclarationPart("version", value) + rest)), d)
            == ParseDeclarationParts(Some(" " + rest), d.(version := value))
  {
    hide ParseAttribute, DeclarationValue, DeclarationPart, Strip, StartsWithNoCase;
    NoPart("version", rest);
    if value != "" {
      PartStep("version", value, rest);
    }
  }

  lemma EncodingReads(value: string, rest: string, d: Node)
    requires d.Declaration? && d.encoding == "" && DeclarationValue(value)
    ensures ParseDeclarationParts(Some(" " + (DeclarationPart("encoding", value) + rest)), d)
            == ParseDeclarationParts(Some(" " + rest), d.(encoding := value))
  {
    hide ParseAttribute, DeclarationValue, DeclarationPart, Strip;
    NoPart("encoding", rest);
    if value != "" {
      PartStep("encoding", value, rest);
      OtherLetter(Strip(" " + (DeclarationPart("encoding", value) + rest)), "version");
      hide StartsWithNoCase;
    }
  }

  lemma StandaloneReads(value: string, rest: string, d: Node)
    requires d.Declaration? && d.standalone == "" && DeclarationValue(value)
    ensures ParseDeclarationParts(Some(" " + (DeclarationPart("standalone", value) + rest)), d)
            == ParseDeclarationParts(Some(" " + rest), d.(standalone := value))
  {
    hide ParseAttribute, DeclarationValue, DeclarationPart, Strip;
    NoPart("standalone", rest);
    if value != "" {
      PartStep("standalone", value, rest);
      OtherLetter(Strip(" " + (DeclarationPart("standalone", value) + rest)), "version");
      OtherLetter(Strip(" " + (DeclarationPart("standalone", value) + rest)), "encoding");
      hide StartsWithNoCase;
    }
  }

  lemma OtherLetter(s: string, tag: string)
    requires s != "" && tag != "" && ToLower(s[0]) != ToLower(tag[0])
    ensures !StartsWithNoCase(s, tag)
  {
  }

  lemma DeclarationEnds(rest: string, d: Node)
    requires d.Declaration?
    ensures ParseDeclarationParts(Some(" " + ("?>" + rest)), d) == NodeResult(d, Some(rest), None)
  {
    hide ParseAttribute, StartsWithNoCase;
    var t := "?>" + rest;
    assert (" " + t)[1..] == t;
    assert Strip(" " + t) == t;
    OtherLetter(t, "version");
    OtherLetter(t, "encoding");
    OtherLetter(t, "standalone");
    assert t[1..][0] == '>' && t[1..][1..] == rest;
    assert WordLength(t) == 1;
  }

  lemma DeclarationReadsBack(d: Node, rest: string)
    requires d.Declaration? && Readable(d)
    ensures var s := "<?xml " + DeclarationTail(d, rest);
            ParseNode(s) == NodeResult(d, Some(rest), None) && !("</" <= s)
  {
    hide ParseDeclarationParts, DeclarationPart, DeclarationValue;
    var s := "<?xml " + DeclarationTail(d, rest);
    assert s[5..] == " " + DeclarationTail(d, rest);
    var end := "?>" + rest;
    var last := DeclarationPart("standalone", d.standalone) + end;
    var more := DeclarationPart("encoding", d.encoding) + last;
    VersionReads(d.version, more, Declaration("", "", ""));
    EncodingReads(d.encoding, last, Declaration(d.version, "", ""));
    StandaloneReads(d.standalone, end, Declaration(d.version, d.encoding, ""));
    DeclarationEnds(rest, d);
    assert s[1] == '?';
    assert s[..5] == "<?xml";
  }

  lemma CDataReadsBack(value: string, rest: string)
    requires !Occurs("]]>", value)
    ensures var s := "<![CDATA[" + (value + ("]]>" + rest));
            ParseNode(s) == NodeResult(Text(value, true), if rest == "" then None else Some(rest), None) && !("</" <= s)
  {
    var s := "<![CDATA[" + (value + ("]]>" + rest));
    hide Until, Occurs;
    assert s[1] == '!' && s[2] == '[';
    assert s[..9] == "<![CDATA[" && s[9..] == value + ("]]>" + rest);
    UntilTag(value, "]]>", rest);
    assert ("]]>" + rest)[3..] == rest;
  }

  // ---- text ----

  lemma {:induction false} DropSpacesFixed(s: string)
    ensures DropSpaces(DropSpaces(s)) == DropSpaces(s)
  {
    if s != "" && s[0] == ' ' {
      DropSpacesFixed(s[1..]);
    }
  }

  lemma TextReadsBack(value: string, after: string, children: seq<Node>)
    requires !HasReference(value) && Opens(after)
    ensures ReadChildren(SkipWhiteSpace(Some(Encode(value) + after)), children)
            == ReadChildren(SkipWhiteSpace(Some(after)), children + TidyText(value))
  {
    var white, tail :| AllWhite(white) && tail != "" && after == white + ("<" + tail);
    var s := Encode(value) + after;
    var v := DropSpaces(value);
    hide Encode, Strip, DropSpaces, ReadText, Squeeze, HasReference;
    StripWhite(white, "<" + tail);
    StripEncoded(value, after);
    if v == "" {
      SqueezeNothing();
      assert children + [] == children;
    } else {
      EncodeFirst(v);
      DropSpacesFixed(value);
      DropSpacesKeepsWords(value);
      EncodedNotTag(v);
      ReadTextCondensed(v, white, tail);
      var p := Encode(v) + after;
      assert ParseText(p) == (Condense(v), Some("<" + tail));
      assert "" + ("<" + tail) == "<" + tail;
      StripWhite("", "<" + tail);
      assert children + [] == children;
      ReadChildrenText(p, children);
    }
  }

  lemma EncodedNotTag(s: string)
    requires s != "" && !HasReference(s)
    ensures Encode(s) != "" && Encode(s)[0] != '<'
  {
    EncodeStep(s);
    EncodeCharDecodes(s[0], "");
  }

  lemma ReadChildrenText(s: string, children: seq<Node>)
    requires s != "" && s[0] != '<'
    ensures var t := ParseText(s);
            ReadChildren(Some(s), children)
            == ReadChildren(SkipWhiteSpace(t.1), if Blank(t.0) then children else children + [Text(t.0, false)])
  {
    hide ParseText, ParseNode, Blank;
    assert !("</" <= s);
  }

  lemma ReadChildrenMarkup(s: string, children: seq<Node>)
    requires s != "" && s[0] == '<' && !("</" <= s) && ParseNode(s).error == None
    ensures ReadChildren(Some(s), children)
            == ReadChildren(SkipWhiteSpace(ParseNode(s).next), children + [ParseNode(s).node])
  {
    hide ParseNode, ParseText;
  }

  // ---- elements ----

  lemma EndTagReadsBack(layout: Layout, name: string, rest: string)
    ensures var s := EndTag(layout, name, rest);
            && s != "" && "</" <= s && SkipWhiteSpace(Some(s)) == Some(s)
            && ReadEndTag(name, Some(s)) == (Some(layout.lineBreak + rest), None)
            && forall children :: ReadChildren(Some(s), children) == ContentResult(children, Some(s), None)
  {
    var s := EndTag(layout, name, rest);
    var endTag := "</" + name;
    assert s == endTag + (">" + (layout.lineBreak + rest));
    assert s[..|endTag|] == endTag && s[|endTag|..] == ">" + (layout.lineBreak + rest);
    assert (">" + (layout.lineBreak + rest))[1..] == layout.lineBreak + rest;
    assert s[..2] == "</";
  }

  lemma IdentifyElement(name: string, rest: string)
    requires ReadableName(name)
    ensures Identify("<" + (name + rest)) == ElementKind && !("</" <= "<" + (name + rest))
  {
    var s := "<" + (name + rest);
    NameFirst(name, rest);
    assert s[1] == (name + rest)[0] == name[0];
    assert ToLower(s[1]) != '?';
  }

  lemma {:induction false} NodeReadsBack(layout: Layout, node: Node, depth: nat, rest: string)
    requires WhiteLayout(layout) && Readable(node) && !PlainText(node)
    ensures var s := SkipWhiteSpace(Some(Print(layout, node, depth, rest)));
            && s.Some? && s.value != "" && s.value[0] == '<' && (!EndTagLike(node) ==> !("</" <= s.value))
            && var r := ParseNode(s.value);
            && r.node == Tidy(node) && r.error == None
            && SkipWhiteSpace(r.next) == SkipWhiteSpace(Some(layout.lineBreak + rest))
    decreases node, 1
  {
    hide ParseNode, SkipWhiteSpace, Indentation, PrintAttributes, PrintContent, Strip, ReadableAttributes, Walked;
    match node
    case Element(name, attributes, children) =>
      var content := PrintContent(layout, name, children, depth, rest);
      var s := "<" + (name + PrintAttributes(attributes, content));
      ReadableWalked(attributes);
      SkipIndentation(layout, depth, s);
      ContentReadsBack(layout, node, depth, rest);
      ElementReadsBack(name, attributes, content);
    case Text(value, cdata) =>
      SkipIndentation(layout, depth, "<![CDATA[" + (value + ("]]>" + (layout.lineBreak + rest))));
      CDataReadsBack(value, layout.lineBreak + rest);
      SkipNothing();
    case Comment(value) =>
      SkipIndentation(layout, depth, "<!--" + (value + ("-->" + (layout.lineBreak + rest))));
      CommentReadsBack(value, layout.lineBreak + rest);
    case Unknown(value) =>
      SkipIndentation(layout, depth, "<" + (value + (">" + (layout.lineBreak + rest))));
      UnknownReadsBack(value, layout.lineBreak + rest);
    case Declaration(version, encoding, standalone) =>
      SkipIndentation(layout, depth, "<?xml " + DeclarationTail(node, layout.lineBreak + rest));
      DeclarationReadsBack(node, layout.lineBreak + rest);
  }

  lemma SkipNothing()
    ensures SkipWhiteSpace(Some("")) == SkipWhiteSpace(None)
  {
  }

  lemma ElementReadsBack(name: string, attributes: seq<Attribute>, content: string)
    requires ReadableName(name) && ReadableAttributes(attributes) && ContentStart(content)
    ensures var s := "<" + (name + PrintAttributes(attributes, content));
            ParseNode(s) == ParseAttributes(content, name, attributes) && !("</" <= s)
  {
    hide ParseAttributes, PrintAttributes, ReadableAttributes, Identify, Strip;
    var rest := PrintAttributes(attributes, content);
    assert attributes[0..] == attributes && attributes[..0] == [];
    AttributesReadBack(attributes, 0, name, content);
    IdentifyElement(name, rest);
    ReadNameOf(name, rest);
    assert ("<" + (name + rest))[1..] == name + rest;
  }

  lemma {:induction false} ContentReadsBack(layout: Layout, node: Node, depth: nat, rest: string)
    requires WhiteLayout(layout) && Readable(node) && node.Element?
    ensures var s := PrintContent(layout, node.name, node.children, depth, rest);
            && ContentStart(s)
            && ParseAttributes(s, node.name, node.attributes)
               == NodeResult(Tidy(node), Some(layout.lineBreak + rest), None)
    decreases node, 0
  {
    hide ReadChildren, EndTag, Encode, PrintChildren, SkipWhiteSpace, Opens, ContentStart, ParseAttributes,
         ReadEndTag, HasReference, WhiteLayout, Tidy, TidyText, Readable, Indentation;
    var name, children := node.name, node.children;
    var s := PrintContent(layout, name, children, depth, rest);
    PrintContentStart(layout, name, children, depth, rest);
    ContentFirst(layout, name, children, depth, rest);
    if children == [] {
      EmptyElementReadsBack(node, layout.lineBreak + rest);
    } else {
      var tag := EndTag(layout, name, rest);
      EndTagReadsBack(layout, name, rest);
      EndTagOpens(layout, name, depth, rest);
      var inner := s[1..];
      if SimpleText(children) {
        assert s == ">" + (Encode(children[0].value) + tag);
        assert inner == Encode(children[0].value) + tag;
        assert !HasReference(children[0].value) by { ReadableChild(node, 0); }
        TextReadsBack(children[0].value, tag, []);
        TidySingle(children);
        assert [] + TidyText(children[0].value) == TidyText(children[0].value);
      } else {
        var printed := PrintChildren(layout, children, 0, depth + 1, Indentation(layout, depth) + tag);
        assert s == ">" + (layout.lineBreak + printed);
        assert inner == layout.lineBreak + printed;
        assert Indentation(layout, depth) + tag != "" by { EndTagNonEmpty(layout, name, rest); }
        PrintChildrenNonEmpty(layout, children, 0, depth + 1, Indentation(layout, depth) + tag);
        SkipLineBreak(layout, printed);
        ChildrenReadBack(layout, node, 0, depth + 1, Indentation(layout, depth) + tag, []);
        EndTagFirst(layout, name, rest);
        SkipIndentation(layout, depth, tag);
        assert [] + TidyFrom(children, 0) == TidyFrom(children, 0);
      }
      assert ReadValue(Some(inner)) == ContentResult(TidyFrom(children, 0), Some(tag), None);
      ContentStep(s, node, tag, layout.lineBreak + rest);
    }
  }

  lemma ContentFirst(layout: Layout, name: string, children: seq<Node>, depth: nat, rest: string)
    ensures var s := PrintContent(layout, name, children, depth, rest);
            s != "" && (children != [] ==> s[0] == '>')
  {
    hide Encode, PrintChildren;
  }

  lemma EndTagNonEmpty(layout: Layout, name: string, rest: string)
    ensures EndTag(layout, name, rest) != ""
  {
  }

  lemma EndTagFirst(layout: Layout, name: string, rest: string)
    ensures var s := EndTag(layout, name, rest); s != "" && !IsWhiteSpace(s[0])
  {
  }

  lemma TidySingle(children: seq<Node>)
    requires SimpleText(children)
    ensures TidyFrom(children, 0) == TidyText(children[0].value)
  {
    assert TidyFrom(children, 1) == [];
  }

  lemma ReadableChild(node: Node, k: nat)
    requires Readable(node) && node.Element? && k < |node.children|
    ensures Readable(node.children[k]) && !EndTagLike(node.children[k])
    ensures PlainText(node.children[k]) ==> !HasReference(node.children[k].value)
    ensures k > 0 ==> !(PlainText(node.children[k - 1]) && PlainText(node.children[k]))
  {
  }

  lemma ReadableStep(node: Node, k: nat)
    requires Readable(node) && node.Element? && k < |node.children|
    ensures Readable(node.children[k]) && !EndTagLike(node.children[k])
    ensures PlainText(node.children[k]) ==> k + 1 == |node.children| || !PlainText(node.children[k + 1])
  {
    ReadableChild(node, k);
    if k + 1 < |node.children| {
      ReadableChild(node, k + 1);
    }
  }

  lemma EmptyElementReadsBack(node: Node, rest: string)
    requires node.Element? && node.children == []
    ensures ParseAttributes(" />" + rest, node.name, node.attributes) == NodeResult(Tidy(node), Some(rest), None)
  {
    var s := " />" + rest;
    assert s[1..] == "/>" + rest;
    assert Strip(s) == "/>" + rest;
    assert ("/>" + rest)[2..] == rest;
  }

  lemma ContentStep(s: string, node: Node, tag: string, rest: string)
    requires node.Element? && s != "" && s[0] == '>'
    requires ReadValue(Some(s[1..])) == ContentResult(TidyFrom(node.children, 0), Some(tag), None)
    requires ReadEndTag(node.name, Some(tag)) == (Some(rest), None)
    ensures ParseAttributes(s, node.name, node.attributes) == NodeResult(Tidy(node), Some(rest), None)
  {
    hide ReadValue, ReadEndTag;
    assert Strip(s) == s;
  }

  lemma PrintNext(layout: Layout, children: seq<Node>, k: nat, depth: nat, rest: string)
    requires k < |children|
    ensures PrintChildren(layout, children, k, depth, rest)
            == Print(layout, children[k], depth, PrintChildren(layout, children, k + 1, depth, rest))
  {
    hide Print;
  }

  lemma PrintEnd(layout: Layout, children: seq<Node>, depth: nat, rest: string)
    ensures PrintChildren(layout, children, |children|, depth, rest) == rest
  {
  }

  lemma TidyNext(children: seq<Node>, k: nat)
    requires k <= |children|
    ensures TidyFrom(children, k)
            == if k == |children| then [] else TidyChild(children[k]) + TidyFrom(children, k + 1)
  {
    hide TidyChild;
  }

  lemma {:induction false} ChildReadsBack(layout: Layout, child: Node, depth: nat, after: string, before: seq<Node>)
    requires WhiteLayout(layout) && Readable(child) && !EndTagLike(child)
    requires after != "" && (PlainText(child) ==> Opens(after))
    ensures ReadChildren(SkipWhiteSpace(Some(Print(layout, child, depth, after))), before)
            == ReadChildren(SkipWhiteSpace(Some(after)), before + TidyChild(child))
    ensures !PlainText(child) ==> Opens(Print(layout, child, depth, after))
    decreases child, 2
  {
    hide ReadChildren, SkipWhiteSpace, Opens, Print, ParseNode, WhiteLayout, Encode, Indentation, Tidy, TidyText;
    SkipLineBreak(layout, after);
    if PlainText(child) {
      LineBreakOpens(layout, after);
      PrintText(layout, child.value, depth, after);
      SkipPrintedText(layout, child.value, depth, layout.lineBreak + after);
      TextReadsBack(child.value, layout.lineBreak + after, before);
    } else {
      hide Readable;
      NodeReadsBack(layout, child, depth, after);
      MarkupOpens(layout, child, depth, after);
      ReadChildrenMarkup(SkipWhiteSpace(Some(Print(layout, child, depth, after))).value, before);
    }
  }

  /** The children from index k on add their tidied form to those read before. */
  ghost predicate ReadBack(layout: Layout, children: seq<Node>, k: nat, depth: nat, rest: string, before: seq<Node>)
    requires k <= |children|
  {
    ReadChildren(SkipWhiteSpace(Some(PrintChildren(layout, children, k, depth, rest))), before)
    == ReadChildren(SkipWhiteSpace(Some(rest)), before + TidyFrom(children, k))
  }

  lemma {:induction false} ChildrenReadBack(layout: Layout, node: Node, k: nat, depth: nat, rest: string,
                                            before: seq<Node>)
    requires WhiteLayout(layout) && Readable(node) && node.Element? && k <= |node.children| && Opens(rest)
    ensures ReadBack(layout, node.children, k, depth, rest, before)
    ensures k == |node.children| || !PlainText(node.children[k]) ==>
              Opens(PrintChildren(layout, node.children, k, depth, rest))
    decreases node, 0, |node.children| - k
  {
    hide *;
    var children := node.children;
    if k == |children| {
      NoMoreChildren(layout, children, depth, rest, before);
    } else {
      var child, after := children[k], PrintChildren(layout, children, k + 1, depth, rest);
      ReadableStep(node, k);
      OpensNonEmpty(rest);
      PrintChildrenNonEmpty(layout, children, k + 1, depth, rest);
      ChildrenReadBack(layout, node, k + 1, depth, rest, before + TidyChild(child));
      ChildReadsBack(layout, child, depth, after, before);
      OneMoreChild(layout, children, k, depth, rest, before);
    }
  }

  lemma NoMoreChildren(layout: Layout, children: seq<Node>, depth: nat, rest: string, before: seq<Node>)
    ensures ReadBack(layout, children, |children|, depth, rest, before)
    ensures PrintChildren(layout, children, |children|, depth, rest) == rest
  {
    hide ReadChildren;
    assert before + [] == before;
  }

  lemma OneMoreChild(layout: Layout, children: seq<Node>, k: nat, depth: nat, rest: string, before: seq<Node>)
    requires k < |children| && ReadBack(layout, children, k + 1, depth, rest, before + TidyChild(children[k]))
    requires var after := PrintChildren(layout, children, k + 1, depth, rest);
             ReadChildren(SkipWhiteSpace(Some(Print(layout, children[k], depth, after))), before)
             == ReadChildren(SkipWhiteSpace(Some(after)), before + TidyChild(children[k]))
    ensures ReadBack(layout, children, k, depth, rest, before)
    ensures PrintChildren(layout, children, k, depth, rest)
            == Print(layout, children[k], depth, PrintChildren(layout, children, k + 1, depth, rest))
  {
    hide ReadChildren, SkipWhiteSpace, Print, PrintChildren, TidyChild, TidyFrom;
    PrintNext(layout, children, k, depth, rest);
    TidyNext(children, k);
    assert before + TidyChild(children[k]) + TidyFrom(children, k + 1)
        == before + (TidyChild(children[k]) + TidyFrom(children, k + 1));
  }

  lemma OpensNonEmpty(s: string)
    requires Opens(s)
    ensures s != ""
  {
  }

  lemma PrintText(layout: Layout, value: string, depth: nat, rest: string)
    ensures Print(layout, Text(value, false), depth, rest)
            == Indentation(layout, depth) + (Encode(value) + (layout.lineBreak + rest))
  {
  }

  lemma SkipPrintedText(layout: Layout, value: string, depth: nat, after: string)
    requires WhiteLayout(layout) && after != ""
    ensures SkipWhiteSpace(Some(Indentation(layout, depth) + (Encode(value) + after)))
            == SkipWhiteSpace(Some(Encode(value) + after))
  {
    IndentationWhite(layout, depth);
    StripWhite(Indentation(layout, depth), Encode(value) + after);
  }

  // ---- documents ----

  /** The print of a document. */
  function PrintDocument(layout: Layout, children: seq<Node>): string {
    PrintChildren(layout, children, 0, 0, "")
  }

  lemma SkipToEnd(layout: Layout)
    requires WhiteLayout(layout)
    ensures !More(SkipWhiteSpace(Some(layout.lineBreak + "")))
  {
    assert layout.lineBreak + "" == layout.lineBreak;
    StripWhite(layout.lineBreak, "");
  }

  lemma ParseTopLevelNode(s: string, children: seq<Node>)
    requires s != "" && s[0] == '<' && ParseNode(s).error == None
    ensures ParseTopLevel(Some(s), children)
            == ParseTopLevel(SkipWhiteSpace(ParseNode(s).next), children + [ParseNode(s).node])
  {
    hide ParseNode;
  }

  lemma ParseTopLevelEnd(p: Pointer, children: seq<Node>)
    requires !More(p)
    ensures ParseTopLevel(p, children) == ContentResult(children, p, None)
  {
  }

  lemma TopLevelStep(layout: Layout, child: Node, rest: string, before: seq<Node>)
    requires WhiteLayout(layout) && Readable(child) && !PlainText(child)
    ensures var s := Print(layout, child, 0, rest);
            && s != ""
            && ParseTopLevel(SkipWhiteSpace(Some(s)), before)
               == ParseTopLevel(SkipWhiteSpace(Some(layout.lineBreak + rest)), before + [Tidy(child)])
  {
    hide WhiteLayout, Readable, SkipWhiteSpace, Opens, Print, ParseNode, ParseTopLevel, Tidy;
    NodeReadsBack(layout, child, 0, rest);
    MarkupOpens(layout, child, 0, rest);
    OpensNonEmpty(Print(layout, child, 0, rest));
    ParseTopLevelNode(SkipWhiteSpace(Some(Print(layout, child, 0, rest))).value, before);
  }

  lemma TidyMarkup(children: seq<Node>, k: nat)
    requires k < |children| && !PlainText(children[k])
    ensures TidyFrom(children, k) == [Tidy(children[k])] + TidyFrom(children, k + 1)
    ensures k + 1 == |children| ==> TidyFrom(children, k) == [Tidy(children[k])]
  {
    hide Tidy;
  }

  lemma {:induction false} TopLevelReadsBack(layout: Layout, children: seq<Node>, k: nat, before: seq<Node>)
    requires WhiteLayout(layout) && ReadableDocument(children) && k < |children|
    ensures var s := PrintChildren(layout, children, k, 0, "");
            var r := ParseTopLevel(SkipWhiteSpace(Some(s)), before);
            && s != "" && r.children == before + TidyFrom(children, k) && r.error == None && !More(r.next)
    decreases |children| - k
  {
    hide WhiteLayout, Readable, SkipWhiteSpace, Print, ParseTopLevel, PrintChildren, Tidy;
    var child, after := children[k], PrintChildren(layout, children, k + 1, 0, "");
    PrintNext(layout, children, k, 0, "");
    TopLevelStep(layout, child, after, before);
    TidyMarkup(children, k);
    hide TidyFrom;
    if k + 1 == |children| {
      SkipToEnd(layout);
      PrintEnd(layout, children, 0, "");
      ParseTopLevelEnd(SkipWhiteSpace(Some(layout.lineBreak + "")), before + [Tidy(child)]);
    } else {
      TopLevelReadsBack(layout, children, k + 1, before + [Tidy(child)]);
      SkipLineBreak(layout, after);
      assert before + [Tidy(child)] + TidyFrom(children, k + 1) == before + ([Tidy(child)] + TidyFrom(children, k + 1));
    }
  }

  // ---- the print is a C string ----

  lemma ConcatNulFree(a: string, b: string)
    requires NulFree(a) && NulFree(b)
    ensures NulFree(a + b)
  {
  }

  lemma {:induction false} EncodeNulFree(s: string)
    requires !HasReference(s)
    ensures NulFree(Encode(s))
  {
    if s != "" {
      EncodeStep(s);
      EncodeNulFree(s[1..]);
    }
  }

  lemma NameNulFree(name: string)
    requires ReadableName(name)
    ensures NulFree(name) && NulFree(Encode(name))
  {
    EncodeName(name);
  }

  lemma QuotedNulFree(value: string)
    requires !HasReference(value)
    ensures NulFree(Quoted(value)) && NulFree("=") && NulFree(" ")
  {
    hide HasReference, Encode;
    EncodeNulFree(value);
  }

  lemma {:induction false} AttributesNulFree(attributes: seq<Attribute>, k: nat, rest: string)
    requires ReadableAttributes(attributes) && k <= |attributes| && NulFree(rest)
    ensures NulFree(PrintAttributes(attributes[k..], rest))
    decreases |attributes| - k
  {
    hide Encode, HasReference, ReadableName, Quoted, NulFree;
    if k < |attributes| {
      var a, tail := attributes[k], PrintAttributes(attributes[k + 1..], rest);
      assert attributes[k..][1..] == attributes[k + 1..];
      AttributesNulFree(attributes, k + 1, rest);
      NameNulFree(a.name);
      QuotedNulFree(a.value);
      ConcatNulFree(Quoted(a.value), tail);
      ConcatNulFree("=", Quoted(a.value) + tail);
      ConcatNulFree(Encode(a.name), "=" + (Quoted(a.value) + tail));
      ConcatNulFree(" ", Encode(a.name) + ("=" + (Quoted(a.value) + tail)));
    }
  }

  lemma {:induction false} IndentationNulFree(layout: Layout, depth: nat)
    requires WhiteLayout(layout)
    ensures NulFree(Indentation(layout, depth)) && NulFree(layout.lineBreak)
  {
    if depth > 0 {
      IndentationNulFree(layout, depth - 1);
    }
  }

  lemma {:induction false} PrintNulFree(layout: Layout, node: Node, depth: nat, rest: string)
    requires WhiteLayout(layout) && Readable(node) && NulFree(rest)
    ensures NulFree(Print(layout, node, depth, rest))
    decreases node, 1
  {
    hide Encode, HasReference, ReadableName, ReadableAttributes, PrintAttributes, Occurs, Indentation, Walked;
    IndentationNulFree(layout, depth);
    match node
    case Element(name, attributes, children) =>
      NameNulFree(name);
      ContentNulFree(layout, node, depth, rest);
      assert attributes[0..] == attributes;
      ReadableWalked(attributes);
      AttributesNulFree(attributes, 0, PrintContent(layout, name, children, depth, rest));
    case _ => LeafNulFree(layout, node, depth, rest);
  }

  lemma LeafNulFree(layout: Layout, node: Node, depth: nat, rest: string)
    requires WhiteLayout(layout) && Readable(node) && !node.Element? && NulFree(rest)
    ensures NulFree(Print(layout, node, depth, rest))
  {
    hide Encode, HasReference, Occurs, Indentation, DeclarationPart;
    IndentationNulFree(layout, depth);
    match node
    case Text(value, cdata) =>
      if !cdata {
        EncodeNulFree(value);
      }
    case Comment(value) =>
    case Unknown(value) =>
    case Declaration(version, encoding, standalone) =>
      var end := "?>" + (layout.lineBreak + rest);
      var last := DeclarationPart("standalone", standalone) + end;
      PartNulFree("standalone", standalone, end);
      PartNulFree("encoding", encoding, last);
      PartNulFree("version", version, DeclarationPart("encoding", encoding) + last);
  }

  lemma PartNulFree(name: string, value: string, rest: string)
    requires NulFree(name) && DeclarationValue(value) && NulFree(rest)
    ensures NulFree(DeclarationPart(name, value) + rest)
  {
  }

  lemma {:induction false} ContentNulFree(layout: Layout, node: Node, depth: nat, rest: string)
    requires WhiteLayout(layout) && Readable(node) && node.Element? && NulFree(rest)
    ensures NulFree(PrintContent(layout, node.name, node.children, depth, rest))
    decreases node, 0
  {
    hide Encode, HasReference, ReadableName, ReadableAttributes, Indentation, PrintChildren;
    var name, children := node.name, node.children;
    IndentationNulFree(layout, depth);
    NameNulFree(name);
    var end := EndTag(layout, name, rest);
    assert NulFree(end);
    if children == [] {
    } else if SimpleText(children) {
      ReadableChild(node, 0);
      EncodeNulFree(children[0].value);
    } else {
      ConcatNulFree(Indentation(layout, depth), end);
      ChildrenNulFree(layout, children, 0, depth + 1, Indentation(layout, depth) + end);
    }
  }

  lemma {:induction false} ChildrenNulFree(layout: Layout, children: seq<Node>, k: nat, depth: nat, rest: string)
    requires WhiteLayout(layout) && (forall i :: 0 <= i < |children| ==> Readable(children[i]))
    requires k <= |children| && NulFree(rest)
    ensures NulFree(PrintChildren(layout, children, k, depth, rest))
    decreases children, |children| - k
  {
    hide Print, Readable;
    if k < |children| {
      ChildrenNulFree(layout, children, k + 1, depth, rest);
      PrintNulFree(layout, children[k], depth, PrintChildren(layout, children, k + 1, depth, rest));
    }
  }

  /** Indented or not, the print of a readable document is parsed to its end, without error, to the tidied tree. */
  lemma DocumentRoundTrip(layout: Layout, children: seq<Node>)
    requires WhiteLayout(layout) && ReadableDocument(children)
    ensures NulFree(PrintDocument(layout, children))
    ensures var r := ParseDocument(PrintDocument(layout, children));
            r.children == TidyFrom(children, 0) && r.error == None && !More(r.next)
  {
    hide ParseTopLevel, PrintChildren, SkipWhiteSpace, Readable;
    ChildrenNulFree(layout, children, 0, 0, "");
    TopLevelReadsBack(layout, children, 0, []);
    TidiedCount(children);
  }

  lemma TidiedCount(children: seq<Node>)
    requires ReadableDocument(children)
    ensures TidyFrom(children, 0) != [] && [] + TidyFrom(children, 0) == TidyFrom(children, 0)
  {
    hide Readable, Tidy;
  }

  predicate TidyDocument(children: seq<Node>) {
    forall k :: 0 <= k < |children| ==> TidyTree(children[k])
  }

  /** The tree comes back unchanged exactly when its texts are not blank and have only single inner spaces. */
  lemma TreeRoundTrip(layout: Layout, children: seq<Node>)
    requires WhiteLayout(layout) && ReadableDocument(children)
    ensures ParseDocument(PrintDocument(layout, children)).children == children <==> TidyDocument(children)
  {
    hide ParseDocument, PrintDocument, Readable, Tidy, TidyTree;
    DocumentRoundTrip(layout, children);
    var node := Element("", [], children);
    assert children[0..] == children;
    if TidyDocument(children) {
      TidyNodeOf(children);
      TidyFromUnchanged(children, 0, node);
    }
    if TidyFrom(children, 0) == children {
      forall k | 0 <= k < |children| ensures TidyTree(children[k]) {
        UnchangedFrom(children, 0, k);
        UnchangedTidy(children[k]);
      }
    }
  }

  lemma TidyNodeOf(children: seq<Node>)
    requires TidyDocument(children) && forall k :: 0 <= k < |children| ==> !PlainText(children[k])
    ensures TidyTree(Element("", [], children))
  {
  }

  lemma {:induction false} TidyFromLength(children: seq<Node>, k: nat)
    requires k <= |children|
    ensures |TidyFrom(children, k)| <= |children| - k
    decreases |children| - k
  {
    hide Tidy, Blank;
    if k < |children| {
      TidyFromLength(children, k + 1);
    }
  }

  /** An unchanged list of children has unchanged members. */
  lemma {:induction false} UnchangedFrom(children: seq<Node>, i: nat, k: nat)
    requires i <= k < |children| && TidyFrom(children, i) == children[i..]
    ensures TidyChild(children[k]) == [children[k]]
    decreases k - i
  {
    hide Tidy, Blank, Condense;
    TidyFromLength(children, i + 1);
    var head := TidyChild(children[i]);
    assert |head| + |TidyFrom(children, i + 1)| == |children| - i;
    assert |head| == 1;
    assert head[0] == TidyFrom(children, i)[0] == children[i];
    assert TidyFrom(children, i)[1..] == TidyFrom(children, i + 1);
    assert children[i..][1..] == children[i + 1..];
    if i < k {
      UnchangedFrom(children, i + 1, k);
    }
  }

  lemma {:induction false} UnchangedTidy(node: Node)
    requires Tidy(node) == node && !PlainText(node)
    ensures TidyTree(node)
  {
    if node.Element? {
      assert node.children[0..] == node.children;
      forall k | 0 <= k < |node.children| ensures TidyTree(node.children[k]) {
        UnchangedFrom(node.children, 0, k);
        if PlainText(node.children[k]) {
          CondenseFixed(node.children[k].value);
        } else {
          UnchangedTidy(node.children[k]);
        }
      }
    }
  }
}
