// TiXmlPrinter: a visitor that appends to a buffer. Its whole output is the
// text that XmlTree defines, at any depth and whatever was printed before.

module XmlPrinter {
  import opened XmlText
  import opened XmlTree

  // ---- printing in pieces ----

  lemma {:induction false} AttributesAppend(attributes: seq<Attribute>, rest: string)
    ensures PrintAttributes(attributes, rest) == PrintAttributes(attributes, "") + rest
  {
    hide Encode, Quoted;
    if attributes == [] {
      assert "" + rest == rest;
    } else {
      AttributesAppend(attributes[1..], rest);
      var name, value, tail := Encode(attributes[0].name), Quoted(attributes[0].value), PrintAttributes(attributes[1..], "");
      assert " " + (name + ("=" + (value + (tail + rest)))) == " " + (name + ("=" + (value + tail))) + rest;
    }
  }

  lemma {:induction false} PrintAppend(layout: Layout, node: Node, depth: nat, rest: string)
    ensures Print(layout, node, depth, rest) == Print(layout, node, depth, "") + rest
    decreases node, 0
  {
    hide Encode, Indentation, PrintAttributes, PrintContent, DeclarationPart, Walked;
    var indent := Indentation(layout, depth);
    match node
    case Element(name, attributes, children) =>
      var content := PrintContent(layout, name, children, depth, "");
      ContentAppend(layout, name, children, depth, rest);
      var shown := Walked(attributes);
      AttributesAppend(shown, content);
      AttributesAppend(shown, content + rest);
      assert PrintAttributes(shown, content + rest) == PrintAttributes(shown, content) + rest;
      assert indent + ("<" + (name + (PrintAttributes(shown, content) + rest)))
          == indent + ("<" + (name + PrintAttributes(shown, content))) + rest;
    case Text(value, cdata) =>
      assert layout.lineBreak + "" == layout.lineBreak;
      if cdata {
        assert indent + ("<![CDATA[" + (value + ("]]>" + (layout.lineBreak + rest))))
            == indent + ("<![CDATA[" + (value + ("]]>" + layout.lineBreak))) + rest;
      } else {
        assert indent + (Encode(value) + (layout.lineBreak + rest)) == indent + (Encode(value) + layout.lineBreak) + rest;
      }
    case Comment(value) =>
      assert layout.lineBreak + "" == layout.lineBreak;
      assert indent + ("<!--" + (value + ("-->" + (layout.lineBreak + rest))))
          == indent + ("<!--" + (value + ("-->" + layout.lineBreak))) + rest;
    case Unknown(value) =>
      assert layout.lineBreak + "" == layout.lineBreak;
      assert indent + ("<" + (value + (">" + (layout.lineBreak + rest))))
          == indent + ("<" + (value + (">" + layout.lineBreak))) + rest;
    case Declaration(version, encoding, standalone) =>
      DeclarationAppend(layout, node, depth, rest);
  }

  lemma DeclarationAppend(layout: Layout, node: Node, depth: nat, rest: string)
    requires node.Declaration?
    ensures Print(layout, node, depth, rest) == Print(layout, node, depth, "") + rest
  {
    hide Indentation, DeclarationPart;
    var indent, a, b, c := Indentation(layout, depth), DeclarationPart("version", node.version),
                           DeclarationPart("encoding", node.encoding), DeclarationPart("standalone", node.standalone);
    assert layout.lineBreak + "" == layout.lineBreak;
    assert indent + ("<?xml " + (a + (b + (c + ("?>" + (layout.lineBreak + rest))))))
        == indent + ("<?xml " + (a + (b + (c + ("?>" + layout.lineBreak))))) + rest;
  }

  lemma EndTagAppend(layout: Layout, name: string, rest: string)
    ensures EndTag(layout, name, rest) == EndTag(layout, name, "") + rest
  {
    assert layout.lineBreak + "" == layout.lineBreak;
    assert "</" + (name + (">" + (layout.lineBreak + rest))) == "</" + (name + (">" + layout.lineBreak)) + rest;
  }

  lemma {:induction false} ContentAppend(layout: Layout, name: string, children: seq<Node>, depth: nat, rest: string)
    ensures PrintContent(layout, name, children, depth, rest) == PrintContent(layout, name, children, depth, "") + rest
    decreases children, |children| + 1
  {
    hide Encode, Indentation, PrintChildren, EndTag;
    EndTagAppend(layout, name, rest);
    var end := EndTag(layout, name, "");
    if children == [] {
      assert layout.lineBreak + "" == layout.lineBreak;
    } else if SimpleText(children) {
      assert ">" + (Encode(children[0].value) + (end + rest)) == ">" + (Encode(children[0].value) + end) + rest;
    } else {
      var indent := Indentation(layout, depth);
      ChildrenAppend(layout, children, 0, depth + 1, indent + end);
      ChildrenAppend(layout, children, 0, depth + 1, indent + (end + rest));
      var body := PrintChildren(layout, children, 0, depth + 1, "");
      assert ">" + (layout.lineBreak + (body + (indent + (end + rest))))
          == ">" + (layout.lineBreak + (body + (indent + end))) + rest;
    }
  }

  lemma {:induction false} ChildrenAppend(layout: Layout, children: seq<Node>, k: nat, depth: nat, rest: string)
    requires k <= |children|
    ensures PrintChildren(layout, children, k, depth, rest) == PrintChildren(layout, children, k, depth, "") + rest
    decreases children, |children| - k
  {
    hide Print;
    if k == |children| {
      assert "" + rest == rest;
    } else {
      ChildrenAppend(layout, children, k + 1, depth, rest);
      var tail := PrintChildren(layout, children, k + 1, depth, "");
      PrintAppend(layout, children[k], depth, tail);
      PrintAppend(layout, children[k], depth, tail + rest);
      assert Print(layout, children[k], depth, "") + (tail + rest) == Print(layout, children[k], depth, "") + tail + rest;
    }
  }

  // ---- EncodeString ----

  /** TiXmlBase::EncodeString. */
  method EncodeString(s: string) returns (out: string)
    ensures out == Encode(s)
  {
    hide EncodeChar, StartsReference, PassedLength, Encode;
    out := "";
    var i := 0;
    assert s[0..] == s && "" + Encode(s) == Encode(s);
    while i < |s|
      invariant i <= |s| && out + Encode(s[i..]) == Encode(s)
    {
      assert s[i..][0] == s[i] && s[i..][1..] == s[i + 1..];
      ReferenceAt(s, i);
      EncodeUnfold(s[i..]);
      if s[i] == '&' && i < |s| - 2 && s[i + 1] == '#' && s[i + 2] == 'x' {
        var n := CopyReference(s, i);
        assert s[i..][..n] == s[i..i + n] && s[i..][n..] == s[i + n..];
        assert out + (s[i..i + n] + Encode(s[i + n..])) == out + s[i..i + n] + Encode(s[i + n..]);
        out := out + s[i..i + n];
        i := i + n;
      } else {
        assert out + (EncodeChar(s[i]) + Encode(s[i + 1..])) == out + EncodeChar(s[i]) + Encode(s[i + 1..]);
        out := out + EncodeChar(s[i]);
        i := i + 1;
      }
    }
    assert s[i..] == "" && out + "" == out;
    EncodeNothing();
  }

  lemma ReferenceAt(s: string, i: nat)
    requires i < |s|
    ensures StartsReference(s[i..]) <==> s[i] == '&' && i < |s| - 2 && s[i + 1] == '#' && s[i + 2] == 'x'
    ensures StartsReference(s[i..]) ==> PassedLength(s[i..]) > 0
  {
  }

  /** The inner loop: how much of a character reference is passed through unchanged. */
  method CopyReference(s: string, start: nat) returns (n: nat)
    requires start < |s|
    ensures start + n < |s| && n == PassedLength(s[start..])
  {
    var i := start;
    while i < |s| - 1
      invariant start <= i < |s|
      invariant PassedLength(s[start..]) == i - start + PassedLength(s[i..])
    {
      assert s[i..][1] == s[i + 1] && s[i..][1..] == s[i + 1..];
      i := i + 1;
      if s[i] == ';' {
        return i - start;
      }
    }
    return i - start;
  }

  // ---- the visitor ----

  class Printer {
    var depth: nat
    var simpleTextPrint: bool
    var buffer: string
    var layout: Layout

    /** The default layout: four spaces and a line feed. */
    constructor ()
      ensures depth == 0 && !simpleTextPrint && buffer == "" && layout == Layout("    ", "\n")
    {
      depth, simpleTextPrint, buffer, layout := 0, false, "", Layout("    ", "\n");
    }

    method SetStreamPrinting()
      modifies `layout
      ensures layout == Layout("", "")
    {
      layout := Layout("", "");
    }

    method DoIndent()
      modifies `buffer
      ensures buffer == old(buffer) + Indentation(layout, depth)
    {
      var i := 0;
      while i < depth
        invariant i <= depth && buffer + Indentation(layout, depth - i) == old(buffer) + Indentation(layout, depth)
      {
        assert buffer + (layout.indent + Indentation(layout, depth - i - 1))
            == buffer + layout.indent + Indentation(layout, depth - i - 1);
        buffer := buffer + layout.indent;
        i := i + 1;
      }
      assert buffer + "" == buffer;
    }

    method DoLineBreak()
      modifies `buffer
      ensures buffer == old(buffer) + layout.lineBreak
    {
      buffer := buffer + layout.lineBreak;
    }

    /** TiXmlAttribute::Print */
    method PrintAttribute(a: Attribute)
      modifies `buffer
      ensures buffer == old(buffer) + Encode(a.name) + ("=" + Quoted(a.value))
    {
      hide Encode;
      var n := EncodeString(a.name);
      var v := EncodeString(a.value);
      if '"' in a.value {
        buffer := buffer + n + ("='" + (v + "'"));
      } else {
        buffer := buffer + n + ("=\"" + (v + "\""));
      }
    }

    /** The loop of VisitEnter over the attributes, along Next. */
    method PrintAllAttributes(attributes: seq<Attribute>)
      modifies `buffer
      ensures buffer == old(buffer) + PrintAttributes(Walked(attributes), "")
    {
      hide Encode, Quoted, PrintAttributes, Walked;
      var i := 0;
      ghost var shown := Walked(attributes);
      assert shown[0..] == shown;
      WalkedFirst(attributes);
      while i < |attributes| && (i == 0 || attributes[i] != BLANK)
        invariant i <= |shown| <= |attributes|
        invariant i < |shown| <==> i < |attributes| && (i == 0 || attributes[i] != BLANK)
        invariant buffer + PrintAttributes(shown[i..], "") == old(buffer) + PrintAttributes(shown, "")
      {
        ghost var before := buffer;
        WalkedNext(attributes, i);
        AttributesStep(shown, i);
        ghost var tail := PrintAttributes(shown[i + 1..], "");
        ghost var a := attributes[i];
        assert before + (" " + (Encode(a.name) + ("=" + (Quoted(a.value) + tail))))
            == before + " " + Encode(a.name) + ("=" + Quoted(a.value)) + tail;
        buffer := buffer + " ";
        PrintAttribute(attributes[i]);
        i := i + 1;
      }
      AttributesEnd(shown);
      assert buffer + "" == buffer;
    }

    /** The start tag, up to where the children are printed. */
    method VisitEnter(element: Node)
      requires element.Element? && !simpleTextPrint
      modifies this
      ensures depth == old(depth) + 1 && layout == old(layout)
      ensures simpleTextPrint == SimpleText(element.children)
      ensures buffer == old(buffer) + Indentation(layout, old(depth)) + "<" + element.name
                        + PrintAttributes(Walked(element.attributes), "") + OpenTag(layout, element.children)
    {
      hide Encode, Quoted;
      DoIndent();
      buffer := buffer + "<" + element.name;
      ghost var start := buffer;
      PrintAllAttributes(element.attributes);
      hide PrintAttributes;
      if element.children == [] {
        buffer := buffer + " />";
        DoLineBreak();
      } else {
        buffer := buffer + ">";
        if SimpleText(element.children) {
          simpleTextPrint := true;
        } else {
          DoLineBreak();
        }
      }
      depth := depth + 1;
    }

    method VisitExit(element: Node)
      requires element.Element? && depth > 0 && simpleTextPrint == SimpleText(element.children)
      modifies this
      ensures depth == old(depth) - 1 && layout == old(layout) && !simpleTextPrint
      ensures buffer == old(buffer) + CloseTag(layout, element.name, element.children, depth)
    {
      depth := depth - 1;
      assert buffer + "" == buffer;
      if element.children != [] {
        ghost var before := buffer;
        if simpleTextPrint {
          simpleTextPrint := false;
        } else {
          DoIndent();
        }
        ghost var indented := buffer;
        assert indented + "</" + element.name + ">" + layout.lineBreak == indented + EndTag(layout, element.name, "") by {
          assert layout.lineBreak + "" == layout.lineBreak;
        }
        assert before + Indentation(layout, depth) + EndTag(layout, element.name, "")
            == before + (Indentation(layout, depth) + EndTag(layout, element.name, ""));
        buffer := buffer + "</" + element.name + ">";
        DoLineBreak();
      }
    }

    method VisitText(node: Node)
      requires node.Text? && (simpleTextPrint ==> !node.cdata)
      modifies `buffer
      ensures buffer == old(buffer) + if simpleTextPrint then Encode(node.value) else Print(layout, node, depth, "")
    {
      hide Encode, Indentation;
      ghost var before, indent := buffer, Indentation(layout, depth);
      assert layout.lineBreak + "" == layout.lineBreak;
      if node.cdata {
        DoIndent();
        buffer := buffer + "<![CDATA[" + node.value + "]]>";
        DoLineBreak();
        assert buffer == before + (indent + ("<![CDATA[" + (node.value + ("]]>" + layout.lineBreak))));
      } else if simpleTextPrint {
        var str := EncodeString(node.value);
        buffer := buffer + str;
      } else {
        DoIndent();
        var str := EncodeString(node.value);
        buffer := buffer + str;
        DoLineBreak();
        assert buffer == before + (indent + (Encode(node.value) + layout.lineBreak));
      }
    }

    method VisitComment(node: Node)
      requires node.Comment?
      modifies `buffer
      ensures buffer == old(buffer) + Print(layout, node, depth, "")
    {
      hide Indentation;
      ghost var before, indent := buffer, Indentation(layout, depth);
      assert layout.lineBreak + "" == layout.lineBreak;
      DoIndent();
      buffer := buffer + "<!--" + node.value + "-->";
      DoLineBreak();
      assert buffer == before + (indent + ("<!--" + (node.value + ("-->" + layout.lineBreak))));
    }

    method VisitUnknown(node: Node)
      requires node.Unknown?
      modifies `buffer
      ensures buffer == old(buffer) + Print(layout, node, depth, "")
    {
      hide Indentation;
      ghost var before, indent := buffer, Indentation(layout, depth);
      assert layout.lineBreak + "" == layout.lineBreak;
      DoIndent();
      buffer := buffer + "<" + node.value + ">";
      DoLineBreak();
      assert buffer == before + (indent + ("<" + (node.value + (">" + layout.lineBreak))));
    }

    method VisitDeclaration(node: Node)
      requires node.Declaration?
      modifies `buffer
      ensures buffer == old(buffer) + Print(layout, node, depth, "")
    {
      hide Indentation, DeclarationPart;
      ghost var before, indent := buffer, Indentation(layout, depth);
      assert layout.lineBreak + "" == layout.lineBreak;
      DoIndent();
      PrintDeclaration(node);
      DoLineBreak();
      ghost var a, b, c := DeclarationPart("version", node.version), DeclarationPart("encoding", node.encoding),
                           DeclarationPart("standalone", node.standalone);
      assert buffer == before + (indent + ("<?xml " + (a + (b + (c + ("?>" + layout.lineBreak))))));
    }

    /** TiXmlDeclaration::Print */
    method PrintDeclaration(d: Node)
      requires d.Declaration?
      modifies `buffer
      ensures buffer == old(buffer) + "<?xml " + DeclarationPart("version", d.version)
                        + DeclarationPart("encoding", d.encoding) + DeclarationPart("standalone", d.standalone) + "?>"
    {
      buffer := buffer + "<?xml ";
      PrintDeclarationPart("version", d.version);
      PrintDeclarationPart("encoding", d.encoding);
      PrintDeclarationPart("standalone", d.standalone);
      buffer := buffer + "?>";
    }

    method PrintDeclarationPart(name: string, value: string)
      modifies `buffer
      ensures buffer == old(buffer) + DeclarationPart(name, value)
    {
      assert buffer + "" == buffer;
      if value != "" {
        assert buffer + name + "=\"" + value + "\" " == buffer + (name + ("=\"" + (value + "\" ")));
        buffer := buffer + name + "=\"" + value + "\" ";
      }
    }

    /** Accept: the node, with its children between VisitEnter and VisitExit. */
    method Accept(node: Node)
      requires simpleTextPrint ==> node.Text? && !node.cdata
      modifies this
      ensures depth == old(depth) && layout == old(layout) && simpleTextPrint == old(simpleTextPrint)
      ensures buffer == old(buffer) + if simpleTextPrint then Encode(node.value) else Print(layout, node, depth, "")
      decreases node, 0
    {
      hide Print, Encode;
      if node.Element? {
        ghost var before := buffer;
        VisitEnter(node);
        ghost var started := buffer;
        AcceptChildren(node.children);
        VisitExit(node);
        AcceptedElement(layout, node, depth, before, started, buffer);
      } else if node.Text? {
        VisitText(node);
      } else if node.Comment? {
        VisitComment(node);
      } else if node.Unknown? {
        VisitUnknown(node);
      } else {
        VisitDeclaration(node);
      }
    }

    /** The loop of Accept over the children. */
    method AcceptChildren(children: seq<Node>)
      requires simpleTextPrint ==> SimpleText(children)
      modifies this
      ensures depth == old(depth) && layout == old(layout) && simpleTextPrint == old(simpleTextPrint)
      ensures buffer == old(buffer) + if simpleTextPrint then Encode(children[0].value)
                                      else PrintChildren(layout, children, 0, depth, "")
      decreases children, 1
    {
      hide Print, Encode, PrintChildren;
      ghost var simple := simpleTextPrint;
      ghost var before := buffer;
      var i := 0;
      while i < |children|
        invariant i <= |children|
        invariant depth == old(depth) && layout == old(layout) && simpleTextPrint == simple
        invariant simple ==> buffer == if i == 0 then before else before + Encode(children[0].value)
        invariant !simple ==> buffer + PrintChildren(layout, children, i, depth, "")
                              == before + PrintChildren(layout, children, 0, depth, "")
      {
        ghost var now := buffer;
        Accept(children[i]);
        if !simple {
          ChildrenStep(layout, children, i, depth);
          assert now + (Print(layout, children[i], depth, "") + PrintChildren(layout, children, i + 1, depth, ""))
              == now + Print(layout, children[i], depth, "") + PrintChildren(layout, children, i + 1, depth, "");
        }
        i := i + 1;
      }
      ChildrenEnd(layout, children, depth);
      assert buffer + "" == buffer;
    }

    /** TiXmlDocument::Accept; VisitEnter and VisitExit of the document do nothing. */
    method AcceptDocument(children: seq<Node>)
      requires !simpleTextPrint
      modifies this
      ensures depth == old(depth) && layout == old(layout) && !simpleTextPrint
      ensures buffer == old(buffer) + PrintChildren(layout, children, 0, depth, "")
    {
      hide PrintChildren;
      AcceptChildren(children);
    }
  }

  /** What VisitEnter prints after the attributes. */
  function OpenTag(layout: Layout, children: seq<Node>): string {
    if children == [] then " />" + layout.lineBreak
    else if SimpleText(children) then ">"
    else ">" + layout.lineBreak
  }

  /** What VisitExit prints. */
  function CloseTag(layout: Layout, name: string, children: seq<Node>, depth: nat): string {
    if children == [] then ""
    else if SimpleText(children) then EndTag(layout, name, "")
    else Indentation(layout, depth) + EndTag(layout, name, "")
  }

  lemma AttributesStep(attributes: seq<Attribute>, i: nat)
    requires i < |attributes|
    ensures var a := attributes[i];
            PrintAttributes(attributes[i..], "")
            == " " + (Encode(a.name) + ("=" + (Quoted(a.value) + PrintAttributes(attributes[i + 1..], ""))))
  {
    hide Encode, Quoted;
    assert attributes[i..][1..] == attributes[i + 1..];
  }

  lemma AttributesEnd(attributes: seq<Attribute>)
    ensures PrintAttributes(attributes[|attributes|..], "") == ""
  {
  }

  lemma ChildrenStep(layout: Layout, children: seq<Node>, k: nat, depth: nat)
    requires k < |children|
    ensures PrintChildren(layout, children, k, depth, "")
            == Print(layout, children[k], depth, "") + PrintChildren(layout, children, k + 1, depth, "")
  {
    hide Print;
    PrintAppend(layout, children[k], depth, PrintChildren(layout, children, k + 1, depth, ""));
  }

  lemma ChildrenEnd(layout: Layout, children: seq<Node>, depth: nat)
    ensures PrintChildren(layout, children, |children|, depth, "") == ""
  {
  }

  lemma AcceptedElement(layout: Layout, node: Node, depth: nat, before: string, started: string, after: string)
    requires node.Element?
    requires started == before + Indentation(layout, depth) + "<" + node.name
                       + PrintAttributes(Walked(node.attributes), "") + OpenTag(layout, node.children)
    requires after == started + (if SimpleText(node.children) then Encode(node.children[0].value)
                                else PrintChildren(layout, node.children, 0, depth + 1, ""))
                      + CloseTag(layout, node.name, node.children, depth)
    ensures after == before + Print(layout, node, depth, "")
  {
    var name, children := node.name, node.children;
    var content := PrintContent(layout, name, children, depth, "");
    var inner := if SimpleText(children) then Encode(children[0].value) else PrintChildren(layout, children, 0, depth + 1, "");
    ContentInPieces(layout, name, children, depth);
    hide Encode, Indentation, PrintAttributes, PrintContent, PrintChildren, OpenTag, CloseTag, SimpleText;
    AttributesAppend(Walked(node.attributes), content);
    var indent, attributes, open, close := Indentation(layout, depth), PrintAttributes(Walked(node.attributes), ""),
                                           OpenTag(layout, children), CloseTag(layout, name, children, depth);
    Reassociate(before, indent, name, attributes, open, inner, close);
  }

  lemma Reassociate(before: string, indent: string, name: string, attributes: string, open: string, inner: string,
          close: string)
    ensures before + indent + "<" + name + attributes + open + inner + close
            == before + (indent + ("<" + (name + (attributes + (open + inner + close)))))
  {
    assert open + inner + close == open + (inner + close);
    assert before + indent + "<" + name + attributes + open + inner + close
        == before + indent + "<" + name + attributes + (open + (inner + close));
  }

  lemma ContentInPieces(layout: Layout, name: string, children: seq<Node>, depth: nat)
    ensures PrintContent(layout, name, children, depth, "")
            == OpenTag(layout, children)
               + (if SimpleText(children) then Encode(children[0].value) else PrintChildren(layout, children, 0, depth + 1, ""))
               + CloseTag(layout, name, children, depth)
  {
    hide Encode, Indentation, EndTag, PrintChildren;
    if children == [] {
      ChildrenEnd(layout, children, depth + 1);
      assert layout.lineBreak + "" == layout.lineBreak;
    } else if SimpleText(children) {
    } else {
      var end := Indentation(layout, depth) + EndTag(layout, name, "");
      ChildrenAppend(layout, children, 0, depth + 1, end);
    }
  }
}
