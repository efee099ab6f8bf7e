// The document tree of TinyXML and the text TiXmlPrinter makes of it.

module XmlTree {
  import opened XmlText

  datatype Attribute = Attribute(name: string, value: string)

  datatype Node =
    | Element(name: string, attributes: seq<Attribute>, children: seq<Node>)
    | Text(value: string, cdata: bool)
    | Comment(value: string)
    | Unknown(value: string)
    | Declaration(version: string, encoding: string, standalone: string)

  // ---- names ----

  predicate IsAlpha(c: char) {
    'a' <= c <= 'z' || 'A' <= c <= 'Z' || c as int >= 127
  }

  predicate IsAlphaNum(c: char) {
    IsAlpha(c) || '0' <= c <= '9'
  }

  predicate IsNameStart(c: char) { IsAlpha(c) || c == '_' }

  predicate IsNameChar(c: char) {
    IsAlphaNum(c) || c == '_' || c == '-' || c == '.' || c == ':'
  }

  /** A name ReadName reads completely. */
  predicate ReadableName(s: string) {
    s != "" && IsNameStart(s[0]) && forall k :: 0 <= k < |s| ==> IsNameChar(s[k])
  }

  // ---- walking the attributes ----

  /** What Next takes for the end. */
  const BLANK := Attribute("", "")

  /** The first blank attribute from position k on, or the end. */
  function Stop(s: seq<Attribute>, k: nat): (n: nat)
    requires k <= |s|
    ensures k <= n <= |s| && (n < |s| ==> s[n] == BLANK) && forall j :: k <= j < n ==> s[j] != BLANK
    decreases |s| - k
  {
    if k == |s| || s[k] == BLANK then k else Stop(s, k + 1)
  }

  /** The attributes First and Next visit. */
  function Walked(s: seq<Attribute>): seq<Attribute> {
    if s == [] then [] else s[..Stop(s, 1)]
  }

  /** They are all of them exactly when none after the first has both an empty name and an empty value. */
  lemma WalkedAll(s: seq<Attribute>)
    ensures Walked(s) == s <==> forall k :: 0 < k < |s| ==> s[k] != BLANK
  {
    if s != [] && (forall k :: 0 < k < |s| ==> s[k] != BLANK) {
      assert s[..|s|] == s;
    }
  }

  /** In general they are the first and what follows it up to the first blank one. */
  lemma WalkedUpTo(first: Attribute, more: seq<Attribute>, behind: seq<Attribute>)
    requires forall k :: 0 <= k < |more| ==> more[k] != BLANK
    ensures Walked([first] + more + [BLANK] + behind) == [first] + more
  {
    var s := [first] + more + [BLANK] + behind;
    var n := 1 + |more|;
    assert s[n] == BLANK && forall k :: 1 <= k < n ==> s[k] == more[k - 1];
    assert Stop(s, 1) == n;
    assert s[..n] == [first] + more;
  }

  lemma WalkedFirst(s: seq<Attribute>)
    ensures |Walked(s)| <= |s| && (Walked(s) == [] <==> s == [])
  {
  }

  /** The loop goes on after position k exactly where Next does not find the blank. */
  lemma WalkedNext(s: seq<Attribute>, k: nat)
    requires k < |Walked(s)|
    ensures |Walked(s)| <= |s| && Walked(s)[k] == s[k]
    ensures k + 1 < |Walked(s)| <==> k + 1 < |s| && s[k + 1] != BLANK
  {
  }

  // ---- TiXmlPrinter ----

  /** The indentation and line break settings; stream printing uses two empty strings. */
  datatype Layout = Layout(indent: string, lineBreak: string)

  function Indentation(layout: Layout, depth: nat): string {
    if depth == 0 then "" else layout.indent + Indentation(layout, depth - 1)
  }

  function Quoted(value: string): string {
    if '"' in value then "'" + (Encode(value) + "'") else "\"" + (Encode(value) + "\"")
  }

  /** TiXmlAttribute::Print for each attribute, with the space before it, followed by `rest`. */
  function PrintAttributes(attributes: seq<Attribute>, rest: string): string {
    if attributes == [] then rest
    else " " + (Encode(attributes[0].name) + ("=" + (Quoted(attributes[0].value) + PrintAttributes(attributes[1..], rest))))
  }

  /** The element is printed on one line with its text. */
  predicate SimpleText(children: seq<Node>) {
    |children| == 1 && children[0].Text? && !children[0].cdata
  }

  function DeclarationPart(name: string, value: string): string {
    if value == "" then "" else name + ("=\"" + (value + "\" "))
  }

  /** The print of a node at the given depth, followed by `rest`. */
  function Print(layout: Layout, node: Node, depth: nat, rest: string): string
    decreases node, 0
  {
    var indent := Indentation(layout, depth);
    match node
    case Element(name, attributes, children) =>
      indent + ("<" + (name + PrintAttributes(Walked(attributes), PrintContent(layout, name, children, depth, rest))))
    case Text(value, cdata) =>
      if cdata then indent + ("<![CDATA[" + (value + ("]]>" + (layout.lineBreak + rest))))
      else indent + (Encode(value) + (layout.lineBreak + rest))
    case Comment(value) => indent + ("<!--" + (value + ("-->" + (layout.lineBreak + rest))))
    case Unknown(value) => indent + ("<" + (value + (">" + (layout.lineBreak + rest))))
    case Declaration(version, encoding, standalone) =>
      indent + ("<?xml " + (DeclarationPart("version", version) + (DeclarationPart("encoding", encoding)
      + (DeclarationPart("standalone", standalone) + ("?>" + (layout.lineBreak + rest))))))
  }

  function EndTag(layout: Layout, name: string, rest: string): string {
    "</" + (name + (">" + (layout.lineBreak + rest)))
  }

  /** From the end of the attributes of an element on. */
  function PrintContent(layout: Layout, name: string, children: seq<Node>, depth: nat, rest: string): string
    decreases children, |children| + 1
  {
    if children == [] then " />" + (layout.lineBreak + rest)
    else if SimpleText(children) then ">" + (Encode(children[0].value) + EndTag(layout, name, rest))
    else ">" + (layout.lineBreak + PrintChildren(layout, children, 0, depth + 1,
                                                 Indentation(layout, depth) + EndTag(layout, name, rest)))
  }

  /** The children from index k on. */
  function PrintChildren(layout: Layout, children: seq<Node>, k: nat, depth: nat, rest: string): string
    requires k <= |children|
    decreases children, |children| - k
  {
    if k == |children| then rest
    else Print(layout, children[k], depth, PrintChildren(layout, children, k + 1, depth, rest))
  }
}
