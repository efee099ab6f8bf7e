// The parser of TinyXML as it runs: a position that advances through the
// document, loops that collect names, text and attributes, and the error that
// SetError keeps. Each method is proved against the function of XmlParse or
// XmlText that gives its result from the unread text.

module XmlParser {
  import opened CStrings
  import opened XmlText
  import opened XmlTree
  import opened XmlParse
  import X = XmlText
  import P = XmlParse

  /** A const char* into the document, or null. */
  type Position = Option<nat>

  const ENTITIES: seq<(string, char)> :=
    [("&amp;", '&'), ("&lt;", '<'), ("&gt;", '>'), ("&quot;", '"'), ("&apos;", '\'')]

  lemma Advance(text: string, p: nat)
    requires p < |text|
    ensures text[p..] != "" && text[p..][0] == text[p] && text[p..][1..] == text[p + 1..]
  {
  }

  lemma Drop(text: string, p: nat, n: nat)
    requires p + n <= |text|
    ensures |text[p..]| == |text| - p && text[p..][n..] == text[p + n..] && text[p..][..n] == text[p..p + n]
  {
  }

  lemma Cut(text: string, p: nat, i: nat)
    requires p <= i <= |text|
    ensures text[p..][..i - p] == text[p..i] && text[p..][i - p..] == text[i..]
    ensures i < |text| ==> text[p..][i - p] == text[i] && text[i..][0] == text[i]
  {
  }

  class DocumentParser {
    const text: string
    var error: Option<ErrorId>

    constructor (text: string)
      ensures this.text == text && error == None
    {
      this.text := text;
      error := None;
    }

    predicate Good(p: Position) {
      p.Some? ==> p.value <= |text|
    }

    /** What is left to read at p. */
    function Rest(p: Position): Pointer
      requires Good(p)
    {
      if p.Some? then Some(text[p.value..]) else None
    }

    /** p && *p */
    predicate AtMore(p: Position) {
      p.Some? && p.value < |text|
    }

    /** How far a position is from the null pointer. */
    function Ahead(p: Position): nat
      requires Good(p)
    {
      if p.Some? then |text| - p.value + 1 else 0
    }

    method SetError(e: ErrorId)
      modifies this
      ensures error == First(old(error), Some(e))
    {
      if error.Some? {
        return;
      }
      error := Some(e);
    }

    method SkipWhiteSpace(p: Position) returns (q: Position)
      requires Good(p)
      ensures Good(q) && Rest(q) == X.SkipWhiteSpace(Rest(p)) && Ahead(q) <= Ahead(p)
    {
      if !AtMore(p) {
        return None;
      }
      var i := p.value;
      while i < |text| && IsWhiteSpace(text[i])
        invariant p.value <= i <= |text| && Strip(text[i..]) == Strip(text[p.value..])
      {
        Advance(text, i);
        i := i + 1;
      }
      return Some(i);
    }

    method StringEqual(p: nat, tag: string, ignoreCase: bool) returns (equal: bool)
      requires p <= |text|
      ensures equal == if ignoreCase then StartsWithNoCase(text[p..], tag) else tag <= text[p..]
    {
      var i := 0;
      if ignoreCase {
        while p + i < |text| && i < |tag| && ToLower(text[p + i]) == ToLower(tag[i])
          invariant i <= |tag| && p + i <= |text|
          invariant forall k :: 0 <= k < i ==> ToLower(text[p..][k]) == ToLower(tag[k])
        {
          i := i + 1;
        }
      } else {
        while p + i < |text| && i < |tag| && text[p + i] == tag[i]
          invariant i <= |tag| && p + i <= |text|
          invariant forall k :: 0 <= k < i ==> text[p..][k] == tag[k]
        {
          i := i + 1;
        }
      }
      return i == |tag|;
    }

    method ReadName(p: Position) returns (name: string, q: Position)
      requires Good(p)
      ensures Good(q) && (name, Rest(q)) == P.ReadName(Rest(p)) && Ahead(q) <= Ahead(p)
    {
      if AtMore(p) && IsNameStart(text[p.value]) {
        var i := p.value;
        while i < |text| && IsNameChar(text[i])
          invariant p.value <= i <= |text|
          invariant NameLength(text[p.value..]) == i - p.value + NameLength(text[i..])
        {
          Advance(text, i);
          i := i + 1;
        }
        Drop(text, p.value, i - p.value);
        return text[p.value..i], Some(i);
      }
      return "", None;
    }

    // ---- character data ----

    /** strchr */
    method Find(c: char, from: nat) returns (q: Position)
      requires from <= |text|
      ensures q.Some? ==> from <= q.value < |text| && text[q.value] == c && forall k :: from <= k < q.value ==> text[k] != c
      ensures q.None? ==> forall k :: from <= k < |text| ==> text[k] != c
    {
      var i := from;
      while i < |text| && text[i] != c
        invariant from <= i <= |text| && forall k :: from <= k < i ==> text[k] != c
      {
        i := i + 1;
      }
      return if i < |text| then Some(i) else None;
    }

    /** A numeric reference: the digits are read backwards from the ';' to the stop character. */
    method GetReference(p: nat, first: nat, base: nat, stop: char) returns (chars: string, q: Position)
      requires 0 < first && p + first <= |text| && (base == 10 || base == 16) && text[p + first - 1] == stop
      ensures Good(q) && Glyph(chars, Rest(q)) == Reference(text[p..], first, base, stop)
      ensures q.Some? ==> p < q.value
    {
      var semicolon := Find(';', p + first);
      ghost var s := text[p..];
      assert IndexFrom(s, ';', first) == if semicolon.Some? then Some(semicolon.value - p) else None by {
        FindIndex(p, first, semicolon);
      }
      if semicolon.None? {
        return "", None;
      }
      var i: nat, ucs: nat, mult: nat := semicolon.value - 1, 0, 1;
      while text[i] != stop
        invariant p + first - 1 <= i < |text|
        invariant Digits(s, i - p, base, stop, ucs, mult) == Digits(s, semicolon.value - p - 1, base, stop, 0, 1)
        decreases i
      {
        assert s[i - p] == text[i];
        if !IsHex(text[i]) || HexValue(text[i]) >= base {
          return "", None;
        }
        ucs := (ucs + mult * HexValue(text[i])) % WORD;
        mult := mult * base % WORD;
        i := i - 1;
      }
      assert s[i - p] == stop;
      Drop(text, p, semicolon.value - p + 1);
      return [(ucs % 256) as char], Some(semicolon.value + 1);
    }

    lemma FindIndex(p: nat, first: nat, semicolon: Position)
      requires p + first <= |text|
      requires semicolon.Some? ==> p + first <= semicolon.value < |text| && text[semicolon.value] == ';'
      requires semicolon.Some? ==> forall k :: p + first <= k < semicolon.value ==> text[k] != ';'
      requires semicolon.None? ==> forall k :: p + first <= k < |text| ==> text[k] != ';'
      ensures IndexFrom(text[p..], ';', first) == if semicolon.Some? then Some(semicolon.value - p) else None
    {
      var r := IndexFrom(text[p..], ';', first);
      if r.Some? {
        assert text[p + r.value] == ';';
      }
      assert semicolon.Some? ==> text[p..][semicolon.value - p] == ';';
    }

    method GetEntity(p: nat) returns (chars: string, q: Position)
      requires p < |text| && text[p] == '&'
      ensures Good(q) && Glyph(chars, Rest(q)) == X.GetEntity(text[p..])
      ensures q.Some? ==> p < q.value
    {
      hide Reference, IsHex, HexValue;
      ghost var s := text[p..];
      assert |s| == |text| - p && forall k :: 0 <= k < |s| ==> s[k] == text[p + k];
      if p + 1 < |text| && text[p + 1] == '#' && p + 2 < |text| {
        if text[p + 2] == 'x' {
          if p + 3 == |text| {
            return "", None;
          }
          chars, q := GetReference(p, 3, 16, 'x');
        } else {
          chars, q := GetReference(p, 2, 10, '#');
        }
        return;
      }
      var i := 0;
      while i < |ENTITIES|
        invariant i <= |ENTITIES| && forall j :: 0 <= j < i ==> !(ENTITIES[j].0 <= s)
      {
        var found := StringEqual(p, ENTITIES[i].0, false);
        if found {
          EntityFound(s, i);
          Drop(text, p, |ENTITIES[i].0|);
          return [ENTITIES[i].1], Some(p + |ENTITIES[i].0|);
        }
        i := i + 1;
      }
      NoEntity(s);
      Advance(text, p);
      return "", Some(p + 1);
    }

    method GetChar(p: nat) returns (chars: string, q: Position)
      requires p < |text|
      ensures Good(q) && Glyph(chars, Rest(q)) == X.GetChar(text[p..])
      ensures q.Some? ==> p < q.value
    {
      hide X.GetEntity;
      Advance(text, p);
      if text[p] == '&' {
        chars, q := GetEntity(p);
        return;
      }
      return [text[p]], Some(p + 1);
    }

    /** The loop of ReadText that keeps all the white space. */
    method ReadKeptText(p: Position, end: string) returns (value: string, q: Position)
      requires Good(p)
      ensures Good(q) && (value, Rest(q)) == ReadKept(Rest(p), end)
    {
      hide X.GetChar;
      q := p;
      value := "";
      ghost var whole := ReadKept(Rest(p), end);
      assert "" + whole.0 == whole.0;
      while true
        invariant Good(q)
        invariant var r := ReadKept(Rest(q), end); whole == (value + r.0, r.1)
        decreases Ahead(q)
      {
        if !AtMore(q) {
          break;
        }
        var stop := StringEqual(q.value, end, false);
        if stop {
          break;
        }
        var chars, next := GetChar(q.value);
        ghost var r := ReadKept(Rest(next), end);
        assert value + (chars + r.0) == (value + chars) + r.0;
        value := value + chars;
        q := next;
      }
      assert value + "" == value;
    }

    /** The loop of ReadText that makes one space of each run of white space. */
    method ReadCondensedText(p: Position, end: string) returns (value: string, q: Position)
      requires Good(p)
      ensures Good(q) && (value, Rest(q)) == ReadCondensed(Rest(p), end, false)
    {
      hide X.GetChar, IsWhiteSpace, ReadCondensed;
      q := p;
      value := "";
      var whitespace := false;
      ghost var whole := ReadCondensed(Rest(p), end, false);
      assert "" + whole.0 == whole.0;
      while true
        invariant Good(q)
        invariant var r := ReadCondensed(Rest(q), end, whitespace); whole == (value + r.0, r.1)
        decreases Ahead(q)
      {
        if !AtMore(q) {
          break;
        }
        var stop := StringEqual(q.value, end, false);
        if stop {
          break;
        }
        Advance(text, q.value);
        CondensedStep(text[q.value..], end, whitespace, value);
        if IsWhiteSpace(text[q.value]) {
          whitespace := true;
          q := Some(q.value + 1);
        } else {
          var chars, next := GetChar(q.value);
          if whitespace {
            value := value + " ";
            whitespace := false;
          }
          value := value + chars;
          q := next;
        }
      }
      CondensedEnd(Rest(q), end, whitespace, value);
    }

    method ReadText(p: Position, trimWhiteSpace: bool, end: string) returns (value: string, q: Position)
      requires Good(p)
      ensures Good(q) && (value, Rest(q)) == X.ReadText(Rest(p), trimWhiteSpace, end)
      ensures q.Some? ==> |end| <= q.value && end == text[q.value - |end|..q.value]
    {
      hide X.SkipWhiteSpace, ReadKept, ReadCondensed;
      KeptStops(Rest(p), end);
      CondensedStops(X.SkipWhiteSpace(Rest(p)), end, false);
      if !trimWhiteSpace {
        value, q := ReadKeptText(p, end);
      } else {
        q := SkipWhiteSpace(p);
        value, q := ReadCondensedText(q, end);
      }
      if AtMore(q) {
        Drop(text, q.value, |end|);
        q := Some(q.value + |end|);
      }
      q := if AtMore(q) then q else None;
    }

    // ---- attributes ----

    /** TiXmlAttribute::Parse; an attribute without a document reports no errors. */
    method ParseAttribute(p: nat, report: bool) returns (a: Attribute, q: Position)
      requires p <= |text|
      modifies this
      ensures Good(q)
      ensures var r := P.ParseAttribute(text[p..]);
              && a == r.attribute && Rest(q) == r.next
              && error == if report then First(old(error), r.error) else old(error)
    {
      hide Strip, P.ReadName, X.ReadText, UnquotedLength, IsWhiteSpace;
      q := SkipWhiteSpace(Some(p));
      StripMore(text[p..]);
      if !AtMore(q) {
        return Attribute("", ""), None;
      }
      var name;
      name, q := ReadName(q);
      if !AtMore(q) {
        if report { SetError(ReadingAttributes); }
        return Attribute(name, ""), None;
      }
      q := SkipWhiteSpace(q);
      if !AtMore(q) || text[q.value] != '=' {
        if report { SetError(ReadingAttributes); }
        return Attribute(name, ""), None;
      }
      Advance(text, q.value);
      q := SkipWhiteSpace(Some(q.value + 1));
      if !AtMore(q) {
        if report { SetError(ReadingAttributes); }
        return Attribute(name, ""), None;
      }
      a, q := ParseAttributeValue(name, q.value, report);
    }

    method ParseAttributeValue(name: string, p: nat, report: bool) returns (a: Attribute, q: Position)
      requires p < |text|
      modifies this
      ensures Good(q)
      ensures var r := P.ParseAttributeValue(name, text[p..]);
              && a == r.attribute && Rest(q) == r.next
              && error == if report then First(old(error), r.error) else old(error)
    {
      hide X.ReadText;
      Advance(text, p);
      if text[p] == '\'' || text[p] == '"' {
        var value;
        value, q := ReadText(Some(p + 1), false, [text[p]]);
        return Attribute(name, value), q;
      }
      a, q := ParseBareValue(name, p, report);
    }

    /** A value without quotes ends before white space, '/' or '>'; a quote in it is an error. */
    method ParseBareValue(name: string, p: nat, report: bool) returns (a: Attribute, q: Position)
      requires p < |text| && text[p] != '\'' && text[p] != '"'
      modifies this
      ensures Good(q)
      ensures var r := P.ParseAttributeValue(name, text[p..]);
              && a == r.attribute && Rest(q) == r.next
              && error == if report then First(old(error), r.error) else old(error)
    {
      hide X.ReadText;
      Advance(text, p);
      var i := p;
      while i < |text| && !IsWhiteSpace(text[i]) && text[i] != '/' && text[i] != '>'
        invariant p <= i <= |text| && error == old(error)
        invariant UnquotedLength(text[p..]) == i - p + UnquotedLength(text[i..])
      {
        Advance(text, i);
        if text[i] == '\'' || text[i] == '"' {
          if report { SetError(ReadingAttributes); }
          Cut(text, p, i);
          return Attribute(name, text[p..i]), None;
        }
        i := i + 1;
      }
      Cut(text, p, i);
      return Attribute(name, text[p..i]), Some(i);
    }

    // ---- leaf nodes ----

    /** The loops that take everything before a closing tag: the text, and the tag or the end. */
    method ReadUntil(p: nat, tag: string) returns (value: string, q: nat)
      requires p <= |text|
      ensures p <= q <= |text| && (value, text[q..]) == Until(text[p..], tag)
    {
      hide Until;
      value := "";
      q := p;
      ghost var whole := Until(text[p..], tag);
      assert "" + whole.0 == whole.0;
      while q < |text|
        invariant p <= q <= |text|
        invariant whole == (value + Until(text[q..], tag).0, Until(text[q..], tag).1)
      {
        var stop := StringEqual(q, tag, false);
        if stop {
          break;
        }
        Advance(text, q);
        UntilStep(text[q..], tag, value);
        value := value + [text[q]];
        q := q + 1;
      }
      UntilEnd(text[q..], tag, value);
    }

    method ParseComment(p: nat) returns (node: Node, q: Position)
      requires p <= |text| && "<!--" <= text[p..]
      ensures Good(q) && NodeResult(node, Rest(q), None) == P.ParseComment(text[p..])
    {
      hide Until;
      Drop(text, p, 4);
      var value, i := ReadUntil(p + 4, "-->");
      if i < |text| {
        Drop(text, i, 3);
        i := i + 3;
      }
      return Comment(value), Some(i);
    }

    method ParseCData(p: nat) returns (node: Node, q: Position)
      requires p <= |text| && "<![CDATA[" <= text[p..]
      ensures Good(q) && NodeResult(node, Rest(q), None) == P.ParseCData(text[p..])
    {
      hide Until, X.GetChar;
      Drop(text, p, 9);
      var value, i := ReadUntil(p + 9, "]]>");
      var dummy;
      dummy, q := ReadText(Some(i), false, "]]>");
      return Text(value, true), q;
    }

    method ParseText(p: nat) returns (value: string, q: Position)
      requires p <= |text|
      ensures Good(q) && (value, Rest(q)) == P.ParseText(text[p..])
    {
      hide ReadCondensed, ReadKept, X.SkipWhiteSpace;
      value, q := ReadText(Some(p), true, "<");
      if AtMore(q) {
        assert text[q.value - 1] == text[q.value - 1..q.value][0] == '<';
        assert text[q.value - 1..] == "<" + text[q.value..];
        q := Some(q.value - 1);
      } else {
        q := None;
      }
    }

    method ParseUnknown(p: nat) returns (node: Node, q: Position)
      requires p < |text| && text[p] == '<'
      ensures Good(q) && NodeResult(node, Rest(q), None) == P.ParseUnknown(text[p..])
    {
      hide Until;
      Drop(text, p, 1);
      var value, i := ReadUntil(p + 1, ">");
      if i < |text| {
        Drop(text, i, 1);
        i := i + 1;
      }
      return Unknown(value), Some(i);
    }

    method ParseDeclaration(p: nat) returns (node: Node, q: Position)
      requires p + 5 <= |text|
      modifies this
      ensures Good(q) && NodeResult(node, Rest(q), None) == P.ParseDeclaration(text[p..]) && error == old(error)
    {
      hide P.ParseAttribute, StartsWithNoCase, Strip, IsWhiteSpace;
      Drop(text, p, 5);
      q := Some(p + 5);
      node := Declaration("", "", "");
      while AtMore(q)
        invariant Good(q) && node.Declaration? && error == old(error)
        invariant ParseDeclarationParts(Rest(q), node) == P.ParseDeclaration(text[p..])
        decreases Ahead(q)
      {
        Advance(text, q.value);
        if text[q.value] == '>' {
          return node, Some(q.value + 1);
        }
        q := SkipWhiteSpace(q);
        var i := q.value;
        var version := StringEqual(i, "version", true);
        var encoding := StringEqual(i, "encoding", true);
        var standalone := StringEqual(i, "standalone", true);
        if i == |text| {
          return node, None;
        }
        if version {
          var a;
          a, q := ParseAttribute(i, false);
          node := node.(version := a.value);
        } else if encoding {
          var a;
          a, q := ParseAttribute(i, false);
          node := node.(encoding := a.value);
        } else if standalone {
          var a;
          a, q := ParseAttribute(i, false);
          node := node.(standalone := a.value);
        } else {
          q := SkipWord(i);
        }
      }
      return node, None;
    }

    method SkipWord(p: nat) returns (q: Position)
      requires p <= |text|
      ensures q.Some? && Good(q) && q.value >= p && text[q.value..] == text[p..][WordLength(text[p..])..]
      ensures p < |text| && text[p] != '>' && !IsWhiteSpace(text[p]) ==> q.value > p
    {
      var i := p;
      while i < |text| && text[i] != '>' && !IsWhiteSpace(text[i])
        invariant p <= i <= |text|
        invariant WordLength(text[p..]) == i - p + WordLength(text[i..])
      {
        Advance(text, i);
        i := i + 1;
      }
      Drop(text, p, i - p);
      return Some(i);
    }

    // ---- elements ----

    method Identify(p: nat) returns (kind: Kind)
      requires p < |text| && text[p] == '<'
      ensures kind == P.Identify(text[p..])
    {
      var declaration := StringEqual(p, "<?xml", true);
      var comment := StringEqual(p, "<!--", false);
      var cdata := StringEqual(p, "<![CDATA[", false);
      var dtd := StringEqual(p, "<!", false);
      hide StartsWithNoCase;
      assert p + 1 < |text| ==> text[p..][1] == text[p + 1];
      return if declaration then DeclarationKind
             else if comment then CommentKind
             else if cdata then CDataKind
             else if dtd then UnknownKind
             else if IsNameStart(At(text, p + 1)) then ElementKind
             else UnknownKind;
    }

    method ParseNode(p: nat) returns (node: Node, q: Position)
      requires p < |text| && text[p] == '<'
      modifies this
      ensures Good(q)
      ensures var r := P.ParseNode(text[p..]);
              node == r.node && Rest(q) == r.next && error == First(old(error), r.error)
      decreases |text| - p, 2
    {
      hide P.ParseElement, P.ParseComment, P.ParseCData, P.ParseUnknown, P.ParseDeclaration, P.Identify;
      var kind := Identify(p);
      IdentifyStart(text[p..]);
      if kind == DeclarationKind {
        node, q := ParseDeclaration(p);
      } else if kind == CommentKind {
        node, q := ParseComment(p);
      } else if kind == CDataKind {
        node, q := ParseCData(p);
      } else if kind == UnknownKind {
        node, q := ParseUnknown(p);
      } else {
        node, q := ParseElement(p);
      }
    }

    method ParseElement(p: nat) returns (node: Node, q: Position)
      requires p < |text| && text[p] == '<'
      modifies this
      ensures Good(q)
      ensures var r := P.ParseElement(text[p..]);
              node == r.node && Rest(q) == r.next && error == First(old(error), r.error)
      decreases |text| - p, 1
    {
      hide P.ReadName, P.ParseAttributes, X.SkipWhiteSpace;
      Advance(text, p);
      q := SkipWhiteSpace(Some(p + 1));
      var name;
      name, q := ReadName(q);
      if !AtMore(q) {
        SetError(FailedToReadElementName);
        return Element(name, [], []), None;
      }
      node, q := ParseAttributes(q.value, name);
    }

    /** The loop over the attributes, up to the end of the element. */
    method ParseAttributes(p: nat, name: string) returns (node: Node, q: Position)
      requires p < |text|
      modifies this
      ensures Good(q)
      ensures var r := P.ParseAttributes(text[p..], name, []);
              node == r.node && Rest(q) == r.next && error == First(old(error), r.error)
      decreases |text| - p, 2
    {
      hide P.ParseAttribute, P.ReadValue, P.ReadEndTag, Strip, HasAttribute, IsWhiteSpace;
      var attributes := [];
      var i := p;
      ghost var whole := P.ParseAttributes(text[p..], name, []);
      while true
        invariant p <= i < |text| && error == old(error)
        invariant P.ParseAttributes(text[i..], name, attributes) == whole
        decreases |text| - i
      {
        StripMore(text[i..]);
        q := SkipWhiteSpace(Some(i));
        if !AtMore(q) {
          SetError(ReadingAttributes);
          return Element(name, attributes, []), None;
        }
        var j := q.value;
        Advance(text, j);
        if text[j] == '/' {
          assert At(text[j..], 1) == At(text, j + 1);
          if At(text, j + 1) != '>' {
            SetError(ParsingEmpty);
            return Element(name, attributes, []), None;
          }
          Drop(text, j, 2);
          return Element(name, attributes, []), Some(j + 2);
        }
        if text[j] == '>' {
          var children;
          children, q := ReadValue(Some(j + 1));
          q := ReadEndTag(name, q);
          return Element(name, attributes, children), q;
        }
        var a;
        a, q := ParseAttribute(j, true);
        if !AtMore(q) || HasAttribute(attributes, a.name) {
          SetError(ParsingElement);
          return Element(name, attributes, []), None;
        }
        attributes := attributes + [a];
        i := q.value;
      }
    }

    method ReadEndTag(name: string, p: Position) returns (q: Position)
      requires Good(p)
      modifies this
      ensures Good(q)
      ensures var r := P.ReadEndTag(name, Rest(p)); Rest(q) == r.0 && error == First(old(error), r.1)
    {
      hide X.SkipWhiteSpace;
      if !AtMore(p) {
        SetError(ReadingEndTag);
        return None;
      }
      var endTag := "</" + name;
      var found := StringEqual(p.value, endTag, false);
      if found {
        Drop(text, p.value, |endTag|);
        q := SkipWhiteSpace(Some(p.value + |endTag|));
        if AtMore(q) && text[q.value] == '>' {
          Advance(text, q.value);
          return Some(q.value + 1);
        }
      }
      SetError(ReadingEndTag);
      return None;
    }

    method ReadValue(p: Position) returns (children: seq<Node>, q: Position)
      requires Good(p)
      modifies this
      ensures Good(q)
      ensures var r := P.ReadValue(Rest(p));
              children == r.children && Rest(q) == r.next && error == First(old(error), r.error)
      decreases Ahead(p), 1
    {
      hide P.ParseNode, P.ParseText, X.SkipWhiteSpace, Blank, ReadChildren;
      children := [];
      q := SkipWhiteSpace(p);
      ghost var whole := P.ReadValue(Rest(p));
      while AtMore(q)
        invariant Good(q) && Ahead(q) <= Ahead(p)
        invariant var r := ReadChildren(Rest(q), children);
                  && r.children == whole.children && r.next == whole.next
                  && First(error, r.error) == First(old(error), whole.error)
        decreases Ahead(q)
      {
        Advance(text, q.value);
        ReadChildrenStep(text[q.value..], children);
        if text[q.value] != '<' {
          TextAdvances(text[q.value..]);
          var value;
          value, q := ParseText(q.value);
          if !Blank(value) {
            children := children + [Text(value, false)];
          }
        } else {
          var end := StringEqual(q.value, "</", false);
          if end {
            return;
          }
          var node;
          node, q := ParseNode(q.value);
          children := children + [node];
        }
        q := SkipWhiteSpace(q);
      }
      ReadChildrenEnd(Rest(q), children);
      if q.None? {
        SetError(ReadingElementValue);
      }
    }

    /** TiXmlDocument::Parse. */
    method ParseDocument() returns (children: seq<Node>, q: Position)
      modifies this
      ensures Good(q)
      ensures var r := P.ParseDocument(text);
              children == r.children && Rest(q) == r.next && error == r.error
    {
      hide P.ParseNode, X.SkipWhiteSpace, ParseTopLevel;
      error := None;
      children := [];
      if text == "" {
        SetError(DocumentEmpty);
        return [], None;
      }
      assert text[0..] == text;
      q := SkipWhiteSpace(Some(0));
      ghost var whole := ParseTopLevel(X.SkipWhiteSpace(Some(text)), []);
      while AtMore(q)
        invariant Good(q)
        invariant var r := ParseTopLevel(Rest(q), children);
                  && r.children == whole.children && r.next == whole.next && First(error, r.error) == whole.error
        decreases Ahead(q)
      {
        Advance(text, q.value);
        if text[q.value] != '<' {
          break;
        }
        ParseTopLevelStep(text[q.value..], children);
        var node;
        node, q := ParseNode(q.value);
        children := children + [node];
        q := SkipWhiteSpace(q);
      }
      ParseTopLevelEnd(Rest(q), children);
      if children == [] {
        SetError(DocumentEmpty);
        q := None;
      }
    }
  }

  lemma IdentifyStart(s: string)
    requires s != "" && s[0] == '<'
    ensures match P.Identify(s)
            case DeclarationKind => |s| >= 5
            case CommentKind => "<!--" <= s
            case CDataKind => "<![CDATA[" <= s
            case _ => true
  {
  }

  lemma ReadChildrenStep(s: string, children: seq<Node>)
    requires s != ""
    ensures var r := ReadChildren(Some(s), children);
            if s[0] != '<' then
              var t := P.ParseText(s);
              r == ReadChildren(X.SkipWhiteSpace(t.1), if Blank(t.0) then children else children + [Text(t.0, false)])
            else if "</" <= s then r == ContentResult(children, Some(s), None)
            else
              var node := P.ParseNode(s);
              var next := ReadChildren(X.SkipWhiteSpace(node.next), children + [node.node]);
              r == next.(error := First(node.error, next.error))
  {
    hide P.ParseText, P.ParseNode, X.SkipWhiteSpace, Blank;
  }

  lemma ReadChildrenEnd(p: Pointer, children: seq<Node>)
    requires !More(p)
    ensures ReadChildren(p, children) == ContentResult(children, p, if p.None? then Some(ReadingElementValue) else None)
  {
  }

  lemma ParseTopLevelStep(s: string, children: seq<Node>)
    requires s != "" && s[0] == '<'
    ensures var node := P.ParseNode(s);
            var next := ParseTopLevel(X.SkipWhiteSpace(node.next), children + [node.node]);
            ParseTopLevel(Some(s), children) == next.(error := First(node.error, next.error))
  {
    hide P.ParseNode, X.SkipWhiteSpace;
  }

  lemma ParseTopLevelEnd(p: Pointer, children: seq<Node>)
    requires !More(p) || p.value[0] != '<'
    ensures ParseTopLevel(p, children) == ContentResult(children, p, None)
  {
  }

  lemma StripMore(s: string)
    ensures X.SkipWhiteSpace(Some(s)) == if s == "" then None else Some(Strip(s))
    ensures s == "" ==> Strip(s) == ""
  {
  }

  lemma UntilStep(s: string, tag: string, value: string)
    requires s != "" && !(tag <= s)
    ensures var r, q := Until(s, tag), Until(s[1..], tag);
            value + r.0 == value + [s[0]] + q.0 && r.1 == q.1
  {
  }

  lemma UntilEnd(s: string, tag: string, value: string)
    requires s == "" || tag <= s
    ensures value + Until(s, tag).0 == value && Until(s, tag).1 == s
  {
  }

  lemma CondensedStep(s: string, end: string, pending: bool, value: string)
    requires s != "" && !(end <= s)
    ensures var r := ReadCondensed(Some(s), end, pending);
            if IsWhiteSpace(s[0]) then r == ReadCondensed(Some(s[1..]), end, true)
            else
              var g := X.GetChar(s);
              var q := ReadCondensed(g.next, end, false);
              value + r.0 == (if pending then value + " " else value) + g.chars + q.0 && r.1 == q.1
  {
    hide X.GetChar, IsWhiteSpace;
    if !IsWhiteSpace(s[0]) {
      var g := X.GetChar(s);
      var q := ReadCondensed(g.next, end, false);
      assert value + ((if pending then " " else "") + g.chars + q.0)
          == (if pending then value + " " else value) + g.chars + q.0;
    }
  }

  lemma CondensedEnd(p: Pointer, end: string, pending: bool, value: string)
    requires !More(p) || end <= p.value
    ensures var r := ReadCondensed(p, end, pending); value + r.0 == value && r.1 == p
  {
  }

  lemma EntityFound(s: string, i: nat)
    requires s != "" && s[0] == '&' && i < |ENTITIES| && ENTITIES[i].0 <= s
    ensures X.GetEntity(s) == Glyph([ENTITIES[i].1], Some(s[|ENTITIES[i].0|..]))
  {
    assert s[1] == ENTITIES[i].0[1] && s[2] == ENTITIES[i].0[2] && s[3] == ENTITIES[i].0[3];
  }

  lemma NoEntity(s: string)
    requires s != "" && s[0] == '&' && !(|s| > 2 && s[1] == '#')
    requires forall j :: 0 <= j < |ENTITIES| ==> !(ENTITIES[j].0 <= s)
    ensures X.GetEntity(s) == Glyph("", Some(s[1..]))
  {
    assert !(ENTITIES[0].0 <= s) && !(ENTITIES[1].0 <= s) && !(ENTITIES[2].0 <= s)
      && !(ENTITIES[3].0 <= s) && !(ENTITIES[4].0 <= s);
  }
}
