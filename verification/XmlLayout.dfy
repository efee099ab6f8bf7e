// The layout of TiXmlPrinter told by lines: an element is its start tag, the
// lines of its children moved to the right by one indentation, and its end tag.

module XmlLayout {
  import opened XmlText
  import opened XmlTree

  /** The entities and references that EncodeString writes, and the characters they stand for. */
  const ESCAPED: seq<char> := ['&', '<', '>', '"', '\'']
  const ENTITIES := ["&amp;", "&lt;", "&gt;", "&quot;", "&apos;"]

  /** In single quotes if it holds a double quote, otherwise in double quotes. */
  function InQuotes(value: string): string {
    if exists k :: 0 <= k < |value| && value[k] == '"' then "'" + Encode(value) + "'" else "\"" + Encode(value) + "\""
  }

  function AttributeTexts(attributes: seq<Attribute>): string {
    if attributes == [] then ""
    else " " + Encode(attributes[0].name) + "=" + InQuotes(attributes[0].value) + AttributeTexts(attributes[1..])
  }

  function Setting(name: string, value: string): string {
    if value == "" then "" else name + "=\"" + value + "\" "
  }

  function Shifted(lines: seq<string>, indent: string): (r: seq<string>)
    ensures |r| == |lines|
  {
    if lines == [] then [] else [indent + lines[0]] + Shifted(lines[1..], indent)
  }

  function LinesOf(indent: string, node: Node): (r: seq<string>)
    ensures r != []
    decreases node, 0
  {
    match node
    case Element(name, attributes, children) =>
      var tag := "<" + name + AttributeTexts(Walked(attributes));
      if children == [] then [tag + " />"]
      else if |children| == 1 && children[0].Text? && !children[0].cdata then
        [tag + ">" + Encode(children[0].value) + "</" + name + ">"]
      else [tag + ">"] + Shifted(ChildLines(indent, children, 0), indent) + ["</" + name + ">"]
    case Text(value, cdata) => [if cdata then "<![CDATA[" + value + "]]>" else Encode(value)]
    case Comment(value) => ["<!--" + value + "-->"]
    case Unknown(value) => ["<" + value + ">"]
    case Declaration(version, encoding, standalone) =>
      ["<?xml " + Setting("version", version) + Setting("encoding", encoding) + Setting("standalone", standalone) + "?>"]
  }

  function ChildLines(indent: string, children: seq<Node>, k: nat): seq<string>
    requires k <= |children|
    decreases children, |children| - k
  {
    if k == |children| then [] else LinesOf(indent, children[k]) + ChildLines(indent, children, k + 1)
  }

  /** Lines at a margin, each with its line break, in front of rest. */
  function Page(lines: seq<string>, margin: string, lineBreak: string, rest: string): string {
    if lines == [] then rest else margin + (lines[0] + (lineBreak + Page(lines[1..], margin, lineBreak, rest)))
  }

  lemma {:induction false} PageAppend(a: seq<string>, b: seq<string>, margin: string, lineBreak: string, rest: string)
    ensures Page(a + b, margin, lineBreak, rest) == Page(a, margin, lineBreak, Page(b, margin, lineBreak, rest))
  {
    if a == [] {
      assert a + b == b;
    } else {
      PageAppend(a[1..], b, margin, lineBreak, rest);
      assert (a + b)[1..] == a[1..] + b;
    }
  }

  lemma {:induction false} PageShifted(lines: seq<string>, indent: string, margin: string, lineBreak: string, rest: string)
    ensures Page(Shifted(lines, indent), margin, lineBreak, rest) == Page(lines, margin + indent, lineBreak, rest)
  {
    if lines != [] {
      PageShifted(lines[1..], indent, margin, lineBreak, rest);
      var tail := lineBreak + Page(lines[1..], margin + indent, lineBreak, rest);
      assert margin + ((indent + lines[0]) + tail) == (margin + indent) + (lines[0] + tail);
    }
  }

  lemma PageOne(line: string, margin: string, lineBreak: string, rest: string)
    ensures Page([line], margin, lineBreak, rest) == margin + (line + (lineBreak + rest))
  {
  }

  lemma QuotesAgree(value: string)
    ensures Quoted(value) == InQuotes(value)
  {
    if '"' in value {
      assert "'" + (Encode(value) + "'") == "'" + Encode(value) + "'";
    } else {
      assert "\"" + (Encode(value) + "\"") == "\"" + Encode(value) + "\"";
    }
  }

  lemma {:induction false} AttributesAgree(attributes: seq<Attribute>, rest: string)
    ensures PrintAttributes(attributes, rest) == AttributeTexts(attributes) + rest
  {
    hide Quoted, InQuotes, Encode;
    if attributes != [] {
      AttributesAgree(attributes[1..], rest);
      QuotesAgree(attributes[0].value);
      AttributeRegrouped(Encode(attributes[0].name), InQuotes(attributes[0].value), AttributeTexts(attributes[1..]), rest);
    }
  }

  lemma AttributeRegrouped(name: string, value: string, tail: string, rest: string)
    ensures " " + (name + ("=" + (value + (tail + rest)))) == (" " + name + "=" + value + tail) + rest
  {
  }

  lemma {:induction false} Margins(layout: Layout, depth: nat)
    ensures Indentation(layout, depth + 1) == Indentation(layout, depth) + layout.indent
  {
    if depth > 0 {
      Margins(layout, depth - 1);
      assert layout.indent + (Indentation(layout, depth - 1) + layout.indent)
          == (layout.indent + Indentation(layout, depth - 1)) + layout.indent;
    } else {
      assert layout.indent + "" == "" + layout.indent;
    }
  }

  /** The print of a node is its lines at its depth. */
  lemma {:induction false} PrintIsPage(layout: Layout, node: Node, depth: nat, rest: string)
    ensures Print(layout, node, depth, rest)
            == Page(LinesOf(layout.indent, node), Indentation(layout, depth), layout.lineBreak, rest)
    decreases node, 1
  {
    hide Encode, Indentation, Page, PrintAttributes, PrintContent, AttributeTexts, Walked;
    var margin := Indentation(layout, depth);
    if node.Element? {
      ElementIsPage(layout, node, depth, rest);
    } else {
      LeafIsPage(layout, node, depth, rest);
    }
  }

  lemma LeafIsPage(layout: Layout, node: Node, depth: nat, rest: string)
    requires !node.Element?
    ensures Print(layout, node, depth, rest)
            == Page(LinesOf(layout.indent, node), Indentation(layout, depth), layout.lineBreak, rest)
  {
    hide Encode, Indentation, Page, Setting, DeclarationPart;
    var tail := layout.lineBreak + rest;
    PageOne(LinesOf(layout.indent, node)[0], Indentation(layout, depth), layout.lineBreak, rest);
    match node
    case Text(value, cdata) => Enclosed("<![CDATA[", value, "]]>", tail);
    case Comment(value) => Enclosed("<!--", value, "-->", tail);
    case Unknown(value) => Enclosed("<", value, ">", tail);
    case Declaration(version, encoding, standalone) =>
      SettingsAgree("version", version);
      SettingsAgree("encoding", encoding);
      SettingsAgree("standalone", standalone);
      ThreeSettings(Setting("version", version), Setting("encoding", encoding), Setting("standalone", standalone), tail);
  }

  lemma Enclosed(left: string, value: string, right: string, tail: string)
    ensures left + (value + (right + tail)) == (left + value + right) + tail
  {
  }

  lemma SettingsAgree(name: string, value: string)
    ensures DeclarationPart(name, value) == Setting(name, value)
  {
    assert name + ("=\"" + (value + "\" ")) == name + "=\"" + value + "\" ";
  }

  lemma ThreeSettings(a: string, b: string, c: string, tail: string)
    ensures "<?xml " + (a + (b + (c + ("?>" + tail)))) == ("<?xml " + a + b + c + "?>") + tail
  {
  }

  lemma {:induction false} ElementIsPage(layout: Layout, node: Node, depth: nat, rest: string)
    requires node.Element?
    ensures Print(layout, node, depth, rest)
            == Page(LinesOf(layout.indent, node), Indentation(layout, depth), layout.lineBreak, rest)
    decreases node, 0
  {
    hide Encode, Indentation, Page, PrintAttributes, AttributeTexts, Walked, PrintChildren, ChildLines, Shifted;
    var margin, children := Indentation(layout, depth), node.children;
    var texts := AttributeTexts(Walked(node.attributes));
    var tag := "<" + node.name + texts;
    var tail := layout.lineBreak + rest;
    AttributesAgree(Walked(node.attributes), PrintContent(layout, node.name, children, depth, rest));
    if children == [] {
      PageOne(tag + " />", margin, layout.lineBreak, rest);
      TagRegrouped(node.name, texts, " />", tail);
    } else if SimpleText(children) {
      var text := Encode(children[0].value);
      PageOne(tag + ">" + text + "</" + node.name + ">", margin, layout.lineBreak, rest);
      TextRegrouped(node.name, texts, text, tail);
    } else {
      var lines := Shifted(ChildLines(layout.indent, children, 0), layout.indent);
      var end := margin + EndTag(layout, node.name, rest);
      ChildrenArePage(layout, children, 0, depth + 1, end);
      Margins(layout, depth);
      PageShifted(ChildLines(layout.indent, children, 0), layout.indent, margin, layout.lineBreak, end);
      ThreeParts(tag + ">", lines, "</" + node.name + ">", margin, layout.lineBreak, rest);
      EndRegrouped(node.name, tail);
      TagRegrouped(node.name, texts, ">", layout.lineBreak + Page(lines, margin, layout.lineBreak, end));
    }
  }

  lemma TagRegrouped(name: string, texts: string, end: string, tail: string)
    ensures "<" + (name + (texts + (end + tail))) == (("<" + name + texts) + end) + tail
  {
  }

  lemma TextRegrouped(name: string, texts: string, text: string, tail: string)
    ensures "<" + (name + (texts + (">" + (text + ("</" + (name + (">" + tail)))))))
            == (("<" + name + texts) + ">" + text + "</" + name + ">") + tail
  {
  }

  lemma EndRegrouped(name: string, tail: string)
    ensures "</" + (name + (">" + tail)) == ("</" + name + ">") + tail
  {
  }

  lemma ThreeParts(first: string, lines: seq<string>, last: string, margin: string, lineBreak: string, rest: string)
    ensures Page([first] + lines + [last], margin, lineBreak, rest)
            == margin + (first + (lineBreak + Page(lines, margin, lineBreak, margin + (last + (lineBreak + rest)))))
  {
    hide Page;
    PageAppend([first] + lines, [last], margin, lineBreak, rest);
    PageAppend([first], lines, margin, lineBreak, Page([last], margin, lineBreak, rest));
    PageOne(first, margin, lineBreak, Page(lines, margin, lineBreak, Page([last], margin, lineBreak, rest)));
    PageOne(last, margin, lineBreak, rest);
  }

  lemma {:induction false} ChildrenArePage(layout: Layout, children: seq<Node>, k: nat, depth: nat, rest: string)
    requires k <= |children|
    ensures PrintChildren(layout, children, k, depth, rest)
            == Page(ChildLines(layout.indent, children, k), Indentation(layout, depth), layout.lineBreak, rest)
    decreases children, |children| - k
  {
    hide Print, LinesOf, Indentation;
    if k < |children| {
      ChildrenArePage(layout, children, k + 1, depth, rest);
      PrintIsPage(layout, children[k], depth, PrintChildren(layout, children, k + 1, depth, rest));
      PageAppend(LinesOf(layout.indent, children[k]), ChildLines(layout.indent, children, k + 1), Indentation(layout, depth),
                 layout.lineBreak, rest);
    }
  }

  // ---- what EncodeString makes of a character ----

  /** Five characters become entities, the other control characters references, and the rest stays. */
  lemma EncodedCharacter(c: char, k: nat)
    requires k < 5
    ensures EncodeChar(ESCAPED[k]) == ENTITIES[k]
    ensures (forall j :: 0 <= j < 5 ==> c != ESCAPED[j]) && c as int >= 32 ==> EncodeChar(c) == [c]
  {
    assert ESCAPED[0] == '&' && ESCAPED[1] == '<' && ESCAPED[2] == '>' && ESCAPED[3] == '"' && ESCAPED[4] == '\'';
  }

  const CONTROL_DIGITS := "0123456789ABCDEF"

  lemma EncodedControl(c: char)
    requires c as int < 32
    ensures EncodeChar(c) == "&#x" + [CONTROL_DIGITS[c as int / 16], CONTROL_DIGITS[c as int % 16]] + ";"
  {
    var high, low := c as int / 16, c as int % 16;
    assert HexDigit(high) == CONTROL_DIGITS[high] && HexDigit(low) == CONTROL_DIGITS[low];
  }
}
