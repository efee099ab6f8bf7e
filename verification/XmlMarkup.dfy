// Parsing every document of the syntax that TinyXML accepts: any white space
// between the parts of a tag, values in quotes or without, references in any
// spelling, and the tree that each of them means.

module XmlMarkup {
  import opened CStrings
  import opened XmlText
  import opened XmlTree
  import opened XmlParse
  import U = XmlRuns
  import opened XmlRoundTrip

  // ---- attributes ----

  datatype ValueText =
    | InQuotes(quote: char, runs: seq<U.Run>)
    | Bare(text: string)
  {
    predicate Valid() {
      match this
      case InQuotes(quote, runs) => (quote == '"' || quote == '\'') && U.Valid(runs) && U.Without(runs, quote)
      case Bare(text) => forall k :: 0 <= k < |text| ==> !U.White(text[k]) && text[k] !in "/>'\""
    }

    predicate Before(rest: string) {
      match this
      case InQuotes(quote, runs) => U.Before(runs, [quote] + rest)
      case Bare(text) => rest != "" && (rest[0] in "/>" || (text != "" && U.White(rest[0])))
    }

    function Then(rest: string): string
      requires Valid()
    {
      match this
      case InQuotes(quote, runs) => [quote] + U.Then(runs, [quote] + rest)
      case Bare(text) => text + rest
    }

    function Meaning(): string
      requires Valid()
    {
      match this
      case InQuotes(quote, runs) => U.Kept(runs)
      case Bare(text) => text
    }
  }

  /** White space may stand around the equals sign. */
  datatype AttributeText = AttributeText(name: string, before: string, after: string, value: ValueText) {
    predicate Valid() {
      ReadableName(name) && U.AllSpaces(before) && U.AllSpaces(after) && value.Valid()
    }

    function Then(rest: string): string
      requires Valid()
    {
      name + (before + ("=" + (after + value.Then(rest))))
    }

    function Meaning(): Attribute
      requires Valid()
    {
      Attribute(name, value.Meaning())
    }
  }

  lemma SpacesAreWhite(s: string)
    requires U.AllSpaces(s)
    ensures AllWhite(s)
  {
    forall k | 0 <= k < |s| ensures IsWhiteSpace(s[k]) {
      U.WhiteSpace(s[k]);
    }
  }

  /** White space in front of anything else is skipped. */
  lemma SkipsSpaces(gap: string, s: string)
    requires U.AllSpaces(gap) && s != "" && !IsWhiteSpace(s[0])
    ensures SkipWhiteSpace(Some(gap + s)) == Some(s) && Strip(gap + s) == s && gap + s != ""
  {
    SpacesAreWhite(gap);
    StripWhite(gap, s);
  }

  lemma {:induction false} BareLength(text: string, rest: string)
    requires Bare(text).Valid() && rest != "" && (rest[0] in "/>" || U.White(rest[0]))
    ensures UnquotedLength(text + rest) == |text|
  {
    var s := text + rest;
    U.WhiteSpace(s[0]);
    if text == "" {
      assert s == rest;
    } else {
      assert s[0] == text[0] && text[0] !in "/>'\"";
      assert text[0] != "/>'\""[0] && text[0] != "/>'\""[1] && text[0] != "/>'\""[2] && text[0] != "/>'\""[3];
      assert s[1..] == text[1..] + rest;
      BareLength(text[1..], rest);
    }
  }

  lemma BareStart(text: string, rest: string)
    requires Bare(text).Valid() && Bare(text).Before(rest)
    ensures var s := text + rest; s != "" && !IsWhiteSpace(s[0]) && s[0] != '"' && s[0] != '\''
  {
    var s := text + rest;
    U.WhiteSpace(s[0]);
    if text != "" {
      assert s[0] == text[0] && text[0] != "/>'\""[2] && text[0] != "/>'\""[3];
    }
  }

  lemma ValueReads(name: string, v: ValueText, rest: string)
    requires v.Valid() && v.Before(rest) && rest != ""
    ensures var s := v.Then(rest);
            && s != "" && !IsWhiteSpace(s[0])
            && ParseAttributeValue(name, s) == AttributeResult(Attribute(name, v.Meaning()), Some(rest), None)
  {
    hide ReadKept, U.Then, U.Kept, U.Before, U.Without, IsWhiteSpace, UnquotedLength;
    var s := v.Then(rest);
    match v
    case InQuotes(quote, runs) =>
      assert s[0] == quote && s[1..] == U.Then(runs, [quote] + rest);
      U.KeptReads(runs, quote, rest);
      assert ([quote] + rest)[1..] == rest;
      QuotesNotWhite();
    case Bare(text) =>
      BareStart(text, rest);
      BareLength(text, rest);
      assert s[..|text|] == text && s[|text|..] == rest;
      assert rest[0] in "/>" ==> rest[0] == "/>"[0] || rest[0] == "/>"[1];
      U.WhiteSpace(rest[0]);
      QuotesNotWhite();
  }

  lemma QuotesNotWhite()
    ensures !IsWhiteSpace('"') && !IsWhiteSpace('\'') && !IsWhiteSpace('=') && !IsWhiteSpace('/') && !IsWhiteSpace('>')
  {
  }

  lemma SpaceNotInName(c: char)
    requires IsWhiteSpace(c) || c == '=' || c == '/' || c == '>'
    ensures !IsNameChar(c)
  {
  }

  lemma AttributeReads(a: AttributeText, rest: string)
    requires a.Valid() && a.value.Before(rest) && rest != ""
    ensures var s := a.Then(rest);
            && s != "" && !IsWhiteSpace(s[0]) && s[0] != '/' && s[0] != '>'
            && ParseAttribute(s) == AttributeResult(a.Meaning(), Some(rest), None)
  {
    hide ReadName, Strip, IsWhiteSpace, ParseAttributeValue, ValueText.Valid, ValueText.Before, ValueText.Then, ValueText.Meaning, IsNameChar;
    var s := a.Then(rest);
    var value := a.value.Then(rest);
    var equals := "=" + (a.after + value);
    QuotesNotWhite();
    ValueReads(a.name, a.value, rest);
    SkipsSpaces(a.after, value);
    SkipsSpaces(a.before, equals);
    assert equals[1..] == a.after + value;
    var tail := a.before + equals;
    SpacesAreWhite(a.before);
    assert tail[0] == if a.before == "" then '=' else a.before[0];
    SpaceNotInName(tail[0]);
    ReadNameOf(a.name, tail);
    NameFirst(a.name, tail);
    SkipsSpaces("", s);
    assert "" + s == s;
  }

  // ---- lists of attributes ----

  datatype Spaced = Spaced(gap: string, attribute: AttributeText)

  predicate ValidAttributes(list: seq<Spaced>) {
    forall k :: 0 <= k < |list| ==> U.AllSpaces(list[k].gap) && list[k].attribute.Valid()
  }

  function AttributesThen(list: seq<Spaced>, rest: string): string
    requires ValidAttributes(list)
  {
    if list == [] then rest else list[0].gap + list[0].attribute.Then(AttributesThen(list[1..], rest))
  }

  predicate AttributesBefore(list: seq<Spaced>, rest: string) {
    list == [] ||
    (ValidAttributes(list) && list[0].attribute.value.Before(AttributesThen(list[1..], rest)) && AttributesBefore(list[1..], rest))
  }

  function Meanings(list: seq<Spaced>): (r: seq<Attribute>)
    requires ValidAttributes(list)
    ensures |r| == |list|
  {
    if list == [] then [] else [list[0].attribute.Meaning()] + Meanings(list[1..])
  }

  predicate Distinct(attributes: seq<Attribute>) {
    forall j, k :: 0 <= j < k < |attributes| ==> attributes[j].name != attributes[k].name
  }

  lemma {:induction false} AttributesNonEmpty(list: seq<Spaced>, rest: string)
    requires ValidAttributes(list) && rest != ""
    ensures AttributesThen(list, rest) != ""
  {
    hide AttributeText.Valid, ValueText.Valid, ValueText.Then;
    if list != [] {
      AttributesNonEmpty(list[1..], rest);
    }
  }

  lemma {:induction false} AttributesRead(list: seq<Spaced>, name: string, before: seq<Attribute>, rest: string)
    requires ValidAttributes(list) && AttributesBefore(list, rest) && rest != ""
    requires Distinct(before + Meanings(list))
    ensures ParseAttributes(AttributesThen(list, rest), name, before) == ParseAttributes(rest, name, before + Meanings(list))
    ensures AttributesThen(list, rest) != ""
  {
    hide ParseAttributes, ParseAttribute, AttributeText.Valid, AttributeText.Then, AttributeText.Meaning, ValueText.Before, ReadName;
    AttributesNonEmpty(list, rest);
    if list == [] {
      assert before + [] == before;
    } else {
      var a, tail := list[0].attribute, AttributesThen(list[1..], rest);
      AttributesNonEmpty(list[1..], rest);
      AttributeReads(a, tail);
      SkipsSpaces(list[0].gap, a.Then(tail));
      assert before + Meanings(list) == before + [a.Meaning()] + Meanings(list[1..]);
      NewName(before, a.Meaning(), Meanings(list[1..]));
      OneAttribute(list[0].gap + a.Then(tail), a.Then(tail), a.Meaning(), tail, name, before);
      AttributesRead(list[1..], name, before + [a.Meaning()], rest);
    }
  }

  lemma NewName(before: seq<Attribute>, a: Attribute, after: seq<Attribute>)
    requires Distinct(before + [a] + after)
    ensures !HasAttribute(before, a.name)
  {
    var all := before + [a] + after;
    assert all[|before|] == a && forall k :: 0 <= k < |before| ==> all[k] == before[k];
  }

  lemma OneAttribute(s: string, p: string, a: Attribute, rest: string, name: string, before: seq<Attribute>)
    requires s != "" && Strip(s) == p && p != "" && p[0] != '/' && p[0] != '>' && rest != ""
    requires ParseAttribute(p) == AttributeResult(a, Some(rest), None) && !HasAttribute(before, a.name)
    ensures ParseAttributes(s, name, before) == ParseAttributes(rest, name, before + [a])
  {
    hide ParseAttribute, HasAttribute, Strip;
  }

  // ---- letters of either case ----

  const LOWER := "abcdefghijklmnopqrstuvwxyz"
  const UPPER := "ABCDEFGHIJKLMNOPQRSTUVWXYZ"

  predicate SameLetter(a: char, b: char) {
    a == b || exists k :: 0 <= k < 26 && ((a == LOWER[k] && b == UPPER[k]) || (a == UPPER[k] && b == LOWER[k]))
  }

  predicate StartsLike(s: string, word: string) {
    |word| <= |s| && forall k :: 0 <= k < |word| ==> SameLetter(s[k], word[k])
  }

  lemma LetterPair(k: nat)
    requires k < 26
    ensures LOWER[k] == 'a' + k as char && UPPER[k] == 'A' + k as char
  {
  }

  lemma LowerOf(k: nat)
    requires k < 26
    ensures ToLower(LOWER[k]) == LOWER[k] && ToLower(UPPER[k]) == LOWER[k]
  {
    LetterPair(k);
  }

  lemma SameGivesLower(a: char, b: char)
    requires SameLetter(a, b)
    ensures ToLower(a) == ToLower(b)
  {
    hide ToLower;
    if a != b {
      var k :| 0 <= k < 26 && ((a == LOWER[k] && b == UPPER[k]) || (a == UPPER[k] && b == LOWER[k]));
      LowerOf(k);
    }
  }

  lemma LowerGivesSame(a: char, b: char)
    requires ToLower(a) == ToLower(b)
    ensures SameLetter(a, b)
  {
    if a != b {
      var k := (ToLower(a) - 'a') as int;
      LetterPair(k);
      assert (a == LOWER[k] && b == UPPER[k]) || (a == UPPER[k] && b == LOWER[k]);
    }
  }

  lemma SameLower(a: char, b: char)
    ensures SameLetter(a, b) <==> ToLower(a) == ToLower(b)
  {
    hide SameLetter, ToLower;
    if SameLetter(a, b) {
      SameGivesLower(a, b);
    }
    if ToLower(a) == ToLower(b) {
      LowerGivesSame(a, b);
    }
  }

  lemma StartsLikeIs(s: string, word: string)
    ensures StartsLike(s, word) <==> StartsWithNoCase(s, word)
  {
    hide SameLetter, ToLower;
    forall k | 0 <= k < |word| && k < |s| ensures SameLetter(s[k], word[k]) <==> ToLower(s[k]) == ToLower(word[k]) {
      SameLower(s[k], word[k]);
    }
  }

  // ---- declarations ----

  /** What stands in a declaration: attributes, of which three names count, and other words. */
  datatype Part =
    | Setting(gap: string, attribute: AttributeText)
    | Other(gap: string, word: string)
  {
    predicate Valid() {
      && U.AllSpaces(gap)
      && if Setting? then attribute.Valid() && Key(attribute.name) < 3
         else word != "" && forall k :: 0 <= k < |word| ==> word[k] != '>' && !U.White(word[k])
    }

    /** A word ends at white space or at the bracket, and starts with none of the three names. */
    predicate Before(rest: string) {
      rest != "" &&
      if Setting? then attribute.value.Before(rest)
      else (U.White(rest[0]) || rest[0] == '>') && forall k :: 0 <= k < 3 ==> !StartsLike(word + rest, KEYS[k])
    }

    function Then(rest: string): string
      requires Valid()
    {
      gap + if Setting? then attribute.Then(rest) else word + rest
    }
  }

  const KEYS := ["version", "encoding", "standalone"]

  /** The first of the three names that the given one begins with. */
  function Key(name: string): nat {
    if StartsLike(name, KEYS[0]) then 0 else if StartsLike(name, KEYS[1]) then 1 else if StartsLike(name, KEYS[2]) then 2 else 3
  }

  function Set(d: Node, p: Part): (r: Node)
    requires d.Declaration? && p.Valid()
    ensures r.Declaration?
  {
    if p.Other? then d
    else if Key(p.attribute.name) == 0 then d.(version := p.attribute.value.Meaning())
    else if Key(p.attribute.name) == 1 then d.(encoding := p.attribute.value.Meaning())
    else d.(standalone := p.attribute.value.Meaning())
  }

  predicate ValidParts(parts: seq<Part>) { forall k :: 0 <= k < |parts| ==> parts[k].Valid() }

  function PartsThen(parts: seq<Part>, rest: string): string
    requires ValidParts(parts)
  {
    if parts == [] then rest else parts[0].Then(PartsThen(parts[1..], rest))
  }

  predicate PartsBefore(parts: seq<Part>, rest: string) {
    parts == [] || (ValidParts(parts) && parts[0].Before(PartsThen(parts[1..], rest)) && PartsBefore(parts[1..], rest))
  }

  function SetAll(d: Node, parts: seq<Part>): (r: Node)
    requires d.Declaration? && ValidParts(parts)
    ensures r.Declaration?
    decreases |parts|
  {
    hide Part.Valid;
    if parts == [] then d else SetAll(Set(d, parts[0]), parts[1..])
  }

  /** The name of an attribute begins its text, and no key contains the character behind it. */
  lemma KeyOfText(name: string, rest: string, k: nat)
    requires k < 3 && rest != "" && !IsNameChar(rest[0])
    ensures StartsLike(name + rest, KEYS[k]) <==> StartsLike(name, KEYS[k])
  {
    var s, word := name + rest, KEYS[k];
    hide SameLetter;
    if |word| <= |name| {
      assert forall j :: 0 <= j < |word| ==> s[j] == name[j];
    } else {
      assert s[|name|] == rest[0];
      NoSuchLetter(rest[0], k, |name|);
    }
  }

  lemma NoSuchLetter(c: char, k: nat, j: nat)
    requires k < 3 && j < |KEYS[k]| && !IsNameChar(c)
    ensures !SameLetter(c, KEYS[k][j])
  {
    SameLower(c, KEYS[k][j]);
    assert 'a' <= KEYS[k][j] <= 'z';
  }

  lemma {:induction false} WordLengthOf(word: string, rest: string)
    requires forall k :: 0 <= k < |word| ==> word[k] != '>' && !U.White(word[k])
    requires rest != "" && (U.White(rest[0]) || rest[0] == '>')
    ensures WordLength(word + rest) == |word|
  {
    var s := word + rest;
    U.WhiteSpace(s[0]);
    hide U.White, IsWhiteSpace;
    if word == "" {
      assert s == rest;
    } else {
      assert s[1..] == word[1..] + rest;
      WordLengthOf(word[1..], rest);
    }
  }

  lemma {:induction false} PartReads(p: Part, rest: string, d: Node)
    requires p.Valid() && p.Before(rest) && d.Declaration?
    ensures ParseDeclarationParts(Some(p.Then(rest)), d) == ParseDeclarationParts(Some(rest), Set(d, p))
  {
    hide ParseAttribute, StartsWithNoCase, StartsLike, AttributeText.Valid, AttributeText.Then, ValueText.Before, ValueText.Meaning;
    hide IsWhiteSpace, U.White, Strip, WordLength;
    if p.Setting? {
      var s := p.attribute.Then(rest);
      AttributeReads(p.attribute, rest);
      SkipsSpaces(p.gap, s);
      KeysOf(p.attribute, rest);
      FirstCharacter(p.gap, s);
    } else {
      var s := p.word + rest;
      U.WhiteSpace(s[0]);
      SkipsSpaces(p.gap, s);
      StartsLikeIs(s, KEYS[0]);
      StartsLikeIs(s, KEYS[1]);
      StartsLikeIs(s, KEYS[2]);
      WordLengthOf(p.word, rest);
      assert s[|p.word|..] == rest;
      FirstCharacter(p.gap, s);
    }
  }

  lemma FirstCharacter(gap: string, s: string)
    requires U.AllSpaces(gap) && s != "" && s[0] != '>'
    ensures gap + s != "" && (gap + s)[0] != '>'
  {
    if gap != "" {
      assert U.White(gap[0]);
    }
  }

  lemma KeysOf(a: AttributeText, rest: string)
    requires a.Valid()
    ensures forall k :: 0 <= k < 3 ==> (StartsWithNoCase(a.Then(rest), KEYS[k]) <==> StartsLike(a.name, KEYS[k]))
  {
    hide StartsLike, StartsWithNoCase, ReadableName, ValueText.Valid, ValueText.Then, IsNameChar;
    var tail := a.before + ("=" + (a.after + a.value.Then(rest)));
    SpacesAreWhite(a.before);
    assert tail[0] == if a.before == "" then '=' else a.before[0];
    SpaceNotInName(tail[0]);
    forall k | 0 <= k < 3 ensures StartsWithNoCase(a.Then(rest), KEYS[k]) <==> StartsLike(a.name, KEYS[k]) {
      KeyOfText(a.name, tail, k);
      StartsLikeIs(a.name + tail, KEYS[k]);
    }
  }

  // ---- markup ----

  /** The tags of an element with the white space in them, and what it contains. */
  datatype Markup =
    | Empty(name: string, attributes: seq<Spaced>, gap: string)
    | Full(name: string, attributes: seq<Spaced>, gap: string, content: seq<Piece>, last: string, close: string)
    | Characters(runs: seq<U.Run>)
    | Section(value: string)
    | Remark(value: string)
    | Unnamed(value: string)
    | Prolog(xml: string, parts: seq<Part>, gap: string)

  datatype Piece = Piece(gap: string, markup: Markup)

  predicate ValidTag(name: string, attributes: seq<Spaced>, gap: string) {
    && ReadableName(name) && ValidAttributes(attributes) && Distinct(Meanings(attributes)) && U.AllSpaces(gap)
    && (attributes != [] ==> attributes[0].gap != "")
  }

  predicate Valid(m: Markup)
    decreases m
  {
    match m
    case Empty(name, attributes, gap) => ValidTag(name, attributes, gap)
    case Full(name, attributes, gap, content, last, close) =>
      && ValidTag(name, attributes, gap) && U.AllSpaces(last) && U.AllSpaces(close)
      && (forall k :: 0 <= k < |content| ==> U.AllSpaces(content[k].gap) && Valid(content[k].markup))
      && (forall k :: 0 <= k < |content| ==> !EndLike(content[k].markup))
    case Characters(runs) => U.Valid(runs) && runs != [] && !runs[0].IsSpace() && U.Without(runs, '<')
    case Section(value) => !Occurs("]]>", value)
    case Remark(value) => !Occurs("-->", value)
    case Unnamed(value) => UnknownTag(value)
    case Prolog(xml, parts, gap) => |xml| == 3 && StartsLike(xml, "xml") && ValidParts(parts) && U.AllSpaces(gap)
  }

  /** Inside an element a tag that begins with a slash is an end tag. */
  predicate EndLike(m: Markup) { m.Unnamed? && "/" <= m.value }

  /** The markup written in front of rest. */
  function Then(m: Markup, rest: string): string
    requires Valid(m)
    decreases m, 0
  {
    match m
    case Empty(name, attributes, gap) => "<" + (name + AttributesThen(attributes, gap + ("/>" + rest)))
    case Full(name, attributes, gap, content, last, close) =>
      "<" + (name + AttributesThen(attributes, gap + (">" + ContentThen(content, 0, last + EndTagThen(name, close, rest)))))
    case Characters(runs) => U.Then(runs, rest)
    case Section(value) => "<![CDATA[" + (value + ("]]>" + rest))
    case Remark(value) => "<!--" + (value + ("-->" + rest))
    case Unnamed(value) => "<" + (value + (">" + rest))
    case Prolog(xml, parts, gap) => "<?" + (xml + PartsThen(parts, gap + (">" + rest)))
  }

  function EndTagThen(name: string, close: string, rest: string): string {
    "</" + (name + (close + (">" + rest)))
  }

  function ContentThen(content: seq<Piece>, k: nat, rest: string): string
    requires k <= |content| && forall i :: 0 <= i < |content| ==> Valid(content[i].markup)
    decreases content, |content| - k
  {
    if k == |content| then rest
    else content[k].gap + Then(content[k].markup, ContentThen(content, k + 1, rest))
  }

  /** Every value, word and run ends where what follows it begins; characters stand in front of a tag. */
  predicate Fits(m: Markup, rest: string)
    requires Valid(m)
    decreases m, 0
  {
    match m
    case Empty(name, attributes, gap) => AttributesBefore(attributes, gap + ("/>" + rest))
    case Full(name, attributes, gap, content, last, close) =>
      var inner := last + EndTagThen(name, close, rest);
      AttributesBefore(attributes, gap + (">" + ContentThen(content, 0, inner))) && ContentFits(content, 0, inner)
    case Characters(runs) => |rest| >= 2 && rest[0] == '<' && U.Before(runs, rest)
    case Prolog(xml, parts, gap) => PartsBefore(parts, gap + (">" + rest))
    case _ => true
  }

  predicate ContentFits(content: seq<Piece>, k: nat, rest: string)
    requires k <= |content| && forall i :: 0 <= i < |content| ==> Valid(content[i].markup)
    decreases content, |content| - k
  {
    k == |content| ||
    (Fits(content[k].markup, ContentThen(content, k + 1, rest)) && ContentFits(content, k + 1, rest))
  }

  /** The nodes it means; characters that come to nothing but white space mean none. */
  function Nodes(m: Markup): (r: seq<Node>)
    requires Valid(m)
    ensures !m.Characters? ==> |r| == 1
    decreases m, 0
  {
    match m
    case Empty(name, attributes, _) => [Element(name, Meanings(attributes), [])]
    case Full(name, attributes, _, content, _, _) => [Element(name, Meanings(attributes), NodesFrom(content, 0))]
    case Characters(runs) => if U.AllSpaces(U.Condensed(runs, false)) then [] else [Text(U.Condensed(runs, false), false)]
    case Section(value) => [Text(value, true)]
    case Remark(value) => [Comment(value)]
    case Unnamed(value) => [Unknown(value)]
    case Prolog(_, parts, _) => [SetAll(Declaration("", "", ""), parts)]
  }

  function NodesFrom(content: seq<Piece>, k: nat): seq<Node>
    requires k <= |content| && forall i :: 0 <= i < |content| ==> Valid(content[i].markup)
    decreases content, |content| - k
  {
    if k == |content| then [] else Nodes(content[k].markup) + NodesFrom(content, k + 1)
  }

  // ---- reading it ----

  /** A tag up to the end of its attributes. */
  lemma TagReads(name: string, attributes: seq<Spaced>, gap: string, end: string)
    requires ValidTag(name, attributes, gap) && gap + end != "" && (gap == "" && attributes == [] ==> !IsNameChar(end[0]))
    requires AttributesBefore(attributes, gap + end)
    ensures var s := "<" + (name + AttributesThen(attributes, gap + end));
            ParseNode(s) == ParseAttributes(gap + end, name, Meanings(attributes)) && !("</" <= s)
  {
    hide ParseAttributes, ReadableName, ReadName, AttributeText.Valid, AttributeText.Then, AttributesBefore, Distinct, IsNameChar, Strip;
    var rest := AttributesThen(attributes, gap + end);
    TagFirst(attributes, gap, end);
    assert [] + Meanings(attributes) == Meanings(attributes);
    AttributesRead(attributes, name, [], gap + end);
    IdentifyElement(name, rest);
    ReadNameOf(name, rest);
    assert ("<" + (name + rest))[1..] == name + rest;
  }

  lemma TagFirst(attributes: seq<Spaced>, gap: string, end: string)
    requires ValidAttributes(attributes) && U.AllSpaces(gap) && (attributes != [] ==> attributes[0].gap != "")
    requires gap + end != "" && (gap == "" && attributes == [] ==> !IsNameChar(end[0]))
    ensures var s := AttributesThen(attributes, gap + end); s != "" && !IsNameChar(s[0])
  {
    hide AttributeText.Valid, AttributeText.Then, IsNameChar;
    AttributesNonEmpty(attributes, gap + end);
    var s := AttributesThen(attributes, gap + end);
    if attributes != [] {
      SpacesAreWhite(attributes[0].gap);
      assert s[0] == attributes[0].gap[0];
      SpaceNotInName(s[0]);
    } else if gap != "" {
      SpacesAreWhite(gap);
      assert s[0] == gap[0];
      SpaceNotInName(s[0]);
    }
  }

  lemma EmptyReads(name: string, attributes: seq<Attribute>, gap: string, rest: string)
    requires U.AllSpaces(gap)
    ensures ParseAttributes(gap + ("/>" + rest), name, attributes) == NodeResult(Element(name, attributes, []), Some(rest), None)
  {
    QuotesNotWhite();
    SkipsSpaces(gap, "/>" + rest);
    assert ("/>" + rest)[2..] == rest;
  }

  lemma EndTagReads(name: string, close: string, rest: string)
    requires U.AllSpaces(close)
    ensures var s := EndTagThen(name, close, rest);
            && |s| >= 2 && s[0] == '<' && "</" <= s && ReadEndTag(name, Some(s)) == (Some(rest), None)
            && forall children :: ReadChildren(Some(s), children) == ContentResult(children, Some(s), None)
  {
    var s := EndTagThen(name, close, rest);
    var endTag := "</" + name;
    QuotesNotWhite();
    SkipsSpaces(close, ">" + rest);
    assert s == endTag + (close + (">" + rest));
    assert s[..|endTag|] == endTag && s[|endTag|..] == close + (">" + rest);
    assert (">" + rest)[1..] == rest && s[..2] == "</";
  }

  /** Content followed by its end tag. */
  lemma ContentStep(name: string, attributes: seq<Attribute>, gap: string, inner: string, children: seq<Node>, tag: string, rest: string)
    requires U.AllSpaces(gap) && ReadEndTag(name, Some(tag)) == (Some(rest), None)
    requires ReadChildren(SkipWhiteSpace(Some(inner)), []) == ContentResult(children, Some(tag), None)
    ensures ParseAttributes(gap + (">" + inner), name, attributes) == NodeResult(Element(name, attributes, children), Some(rest), None)
  {
    hide ReadChildren, ReadEndTag, SkipWhiteSpace;
    QuotesNotWhite();
    SkipsSpaces(gap, ">" + inner);
    assert (">" + inner)[1..] == inner;
  }

  lemma CharactersRead(runs: seq<U.Run>, rest: string, children: seq<Node>)
    requires Valid(Characters(runs)) && Fits(Characters(runs), rest)
    ensures var s := U.Then(runs, rest);
            && s != "" && !IsWhiteSpace(s[0])
            && ReadChildren(Some(s), children) == ReadChildren(Some(rest), children + Nodes(Characters(runs)))
  {
    hide U.Then, U.Condensed, U.Before, ReadCondensed, ReadChildren, U.Run.Valid, U.Run.Then, U.White, IsWhiteSpace;
    var s := U.Then(runs, rest);
    CharactersStart(runs, rest);
    assert rest == "<" + rest[1..];
    U.CondensedReads(runs, false, rest[1..]);
    BlankIsSpaces(U.Condensed(runs, false));
    SkipsSpaces("", s);
    assert "" + s == s;
    assert ParseText(s) == (U.Condensed(runs, false), Some(rest));
    ReadChildrenText(s, children);
    SkipsSpaces("", rest);
    assert "" + rest == rest;
    assert children + [] == children;
  }

  lemma BlankIsSpaces(s: string)
    ensures Blank(s) <==> U.AllSpaces(s)
  {
    hide IsWhiteSpace, U.White;
    forall k | 0 <= k < |s| ensures IsWhiteSpace(s[k]) <==> U.White(s[k]) {
      U.WhiteSpace(s[k]);
    }
  }

  lemma CharactersStart(runs: seq<U.Run>, rest: string)
    requires Valid(Characters(runs)) && rest != "" && rest[0] == '<'
    ensures var s := U.Then(runs, rest); s != "" && !IsWhiteSpace(s[0]) && s[0] != '<'
    ensures !IsWhiteSpace(rest[0])
  {
    hide U.Run.Then, U.White, IsWhiteSpace;
    U.RunStarts(runs[0], U.Then(runs[1..], rest));
    U.AmpersandNotWhite();
    U.WhiteSpace(U.Then(runs, rest)[0]);
    U.WhiteSpace('<');
    assert runs[0] != U.Letter('<');
  }

  lemma {:induction false} PartsRead(parts: seq<Part>, rest: string, d: Node)
    requires ValidParts(parts) && PartsBefore(parts, rest) && d.Declaration?
    ensures ParseDeclarationParts(Some(PartsThen(parts, rest)), d) == ParseDeclarationParts(Some(rest), SetAll(d, parts))
    decreases |parts|
  {
    hide ParseDeclarationParts, Part.Valid, Part.Then, Part.Before, Set;
    if parts != [] {
      PartReads(parts[0], PartsThen(parts[1..], rest), d);
      PartsRead(parts[1..], rest, Set(d, parts[0]));
    }
  }

  lemma PrologEnds(gap: string, rest: string, d: Node)
    requires U.AllSpaces(gap) && d.Declaration?
    ensures ParseDeclarationParts(Some(gap + (">" + rest)), d) == NodeResult(d, Some(rest), None)
  {
    hide ParseAttribute;
    var s := ">" + rest;
    QuotesNotWhite();
    SkipsSpaces(gap, s);
    OtherLetter(s, "version");
    OtherLetter(s, "encoding");
    OtherLetter(s, "standalone");
    hide StartsWithNoCase, Strip;
    assert s[1..] == rest && WordLength(s) == 0 && s[0..] == s;
  }

  lemma PrologReads(xml: string, parts: seq<Part>, gap: string, rest: string)
    requires |xml| == 3 && StartsLike(xml, "xml") && ValidParts(parts) && U.AllSpaces(gap)
    requires PartsBefore(parts, gap + (">" + rest))
    ensures var s := "<?" + (xml + PartsThen(parts, gap + (">" + rest)));
            && ParseNode(s) == NodeResult(SetAll(Declaration("", "", ""), parts), Some(rest), None)
            && !("</" <= s)
  {
    hide ParseDeclarationParts, PartsBefore, ValidParts, PartsThen, SetAll, SameLetter, ToLower;
    var text := PartsThen(parts, gap + (">" + rest));
    var s := "<?" + (xml + text);
    assert s[0] == '<' && s[1] == '?' && s[2] == xml[0] && s[3] == xml[1] && s[4] == xml[2] && s[5..] == text;
    SameLower(xml[0], 'x');
    SameLower(xml[1], 'm');
    SameLower(xml[2], 'l');
    assert SameLetter(xml[0], "xml"[0]) && SameLetter(xml[1], "xml"[1]) && SameLetter(xml[2], "xml"[2]);
    assert StartsWithNoCase(s, "<?xml");
    PartsRead(parts, gap + (">" + rest), Declaration("", "", ""));
    PrologEnds(gap, rest, SetAll(Declaration("", "", ""), parts));
  }

  /** Everything but characters is read as its node, up to its end. */
  lemma {:induction false} MarkupReads(m: Markup, rest: string)
    requires Valid(m) && Fits(m, rest) && !m.Characters?
    ensures var s := Then(m, rest);
            && s != "" && s[0] == '<' && ("</" <= s ==> m.Unnamed? && "/" <= m.value)
            && ParseNode(s) == NodeResult(Nodes(m)[0], if m.Section? && rest == "" then None else Some(rest), None)
    decreases m, 1
  {
    hide ParseNode, ParseAttributes, AttributesBefore, ValidParts, UnknownTag, Occurs, StartsLike, PartsBefore, SetAll;
    match m
    case Empty(name, attributes, gap) =>
      SpaceNotInName('/');
      TagReads(name, attributes, gap, "/>" + rest);
      EmptyReads(name, Meanings(attributes), gap, rest);
    case Full(name, attributes, gap, content, last, close) =>
      FullReads(m, rest);
    case Section(value) => CDataReadsBack(value, rest);
    case Remark(value) => CommentReadsBack(value, rest);
    case Unnamed(value) => UnknownReadsBack(value, rest);
    case Prolog(xml, parts, gap) => PrologReads(xml, parts, gap, rest);
  }

  lemma {:induction false} FullReads(m: Markup, rest: string)
    requires Valid(m) && Fits(m, rest) && m.Full?
    ensures var s := Then(m, rest);
            && s != "" && s[0] == '<' && !("</" <= s)
            && ParseNode(s) == NodeResult(Nodes(m)[0], Some(rest), None)
    decreases m, 0
  {
    hide ParseNode, ParseAttributes, AttributesBefore, ReadEndTag, ReadChildren, EndTagThen,
         SkipWhiteSpace, AttributesThen, ContentThen, ContentFits, NodesFrom, ValidTag, Meanings;
    var tag := EndTagThen(m.name, m.close, rest);
    var inner := ContentThen(m.content, 0, m.last + tag);
    assert ValidTag(m.name, m.attributes, m.gap);
    GapOfTag(m.name, m.attributes, m.gap);
    SpaceNotInName('>');
    TagReads(m.name, m.attributes, m.gap, ">" + inner);
    EndTagReads(m.name, m.close, rest);
    ContentReads(m.content, 0, m.last, tag, []);
    assert [] + NodesFrom(m.content, 0) == NodesFrom(m.content, 0);
    ContentStep(m.name, Meanings(m.attributes), m.gap, inner, NodesFrom(m.content, 0), tag, rest);
  }

  lemma GapOfTag(name: string, attributes: seq<Spaced>, gap: string)
    requires ValidTag(name, attributes, gap)
    ensures U.AllSpaces(gap) && ValidAttributes(attributes)
  {
  }

  predicate ValidContent(content: seq<Piece>) {
    forall k :: 0 <= k < |content| ==>
                  U.AllSpaces(content[k].gap) && Valid(content[k].markup) && !EndLike(content[k].markup)
  }

  /** The children from piece k on, up to the end tag. */
  lemma {:induction false} ContentReads(content: seq<Piece>, k: nat, last: string, tag: string, children: seq<Node>)
    requires k <= |content| && ValidContent(content) && U.AllSpaces(last) && |tag| >= 2 && tag[0] == '<'
    requires forall c :: ReadChildren(Some(tag), c) == ContentResult(c, Some(tag), None)
    requires ContentFits(content, k, last + tag)
    ensures ReadChildren(SkipWhiteSpace(Some(ContentThen(content, k, last + tag))), children)
            == ContentResult(children + NodesFrom(content, k), Some(tag), None)
    decreases content, |content| - k
  {
    hide ReadChildren, ParseNode, Valid, Fits, Then, Nodes, U.White, IsWhiteSpace, SkipWhiteSpace;
    if k == |content| {
      TagNotWhite();
      SkipsSpaces(last, tag);
      assert children + [] == children;
    } else {
      var m, tail := content[k].markup, ContentThen(content, k + 1, last + tag);
      PieceReads(content[k].gap, m, tail, children);
      ContentReads(content, k + 1, last, tag, children + Nodes(m));
      assert children + Nodes(m) + NodesFrom(content, k + 1) == children + (Nodes(m) + NodesFrom(content, k + 1));
    }
  }

  lemma TagNotWhite()
    ensures !IsWhiteSpace('<')
  {
  }

  lemma {:induction false} PieceReads(gap: string, m: Markup, tail: string, children: seq<Node>)
    requires U.AllSpaces(gap) && Valid(m) && Fits(m, tail) && !EndLike(m)
    ensures ReadChildren(SkipWhiteSpace(Some(gap + Then(m, tail))), children)
            == ReadChildren(SkipWhiteSpace(Some(tail)), children + Nodes(m))
    decreases m, 2
  {
    hide ReadChildren, ParseNode, U.White, IsWhiteSpace, U.Then, Nodes;
    var s := Then(m, tail);
    if m.Characters? {
      CharactersRead(m.runs, tail, children);
      CharactersStart(m.runs, tail);
      SkipsSpaces(gap, s);
      SkipsSpaces("", tail);
      assert "" + tail == tail;
    } else {
      hide Fits, Valid, Then;
      MarkupReads(m, tail);
      TagNotWhite();
      SkipsSpaces(gap, s);
      ReadChildrenMarkup(s, children);
      SkipNothing();
      assert Nodes(m) == [Nodes(m)[0]];
    }
  }

  // ---- documents ----

  /** The nodes of a document, each with the white space before it. */
  predicate ValidDocument(pieces: seq<Piece>) {
    pieces != [] && forall k :: 0 <= k < |pieces| ==>
                      U.AllSpaces(pieces[k].gap) && Valid(pieces[k].markup) && !pieces[k].markup.Characters?
  }

  lemma {:induction false} TopLevelReads(pieces: seq<Piece>, k: nat, rest: string, children: seq<Node>)
    requires k <= |pieces| && ValidDocument(pieces) && ContentFits(pieces, k, rest)
    requires rest == "" || Strip(rest) == "" || Strip(rest)[0] != '<'
    ensures var r := ParseTopLevel(SkipWhiteSpace(Some(ContentThen(pieces, k, rest))), children);
            r.children == children + NodesFrom(pieces, k) && r.error == None
    decreases |pieces| - k
  {
    hide ParseNode, Valid, Fits, Then, Nodes, U.White, IsWhiteSpace;
    if k == |pieces| {
      assert children + [] == children;
    } else {
      var m, tail := pieces[k].markup, ContentThen(pieces, k + 1, rest);
      var s := Then(m, tail);
      MarkupReads(m, tail);
      TagNotWhite();
      SkipsSpaces(pieces[k].gap, s);
      SkipNothing();
      TopLevelReads(pieces, k + 1, rest, children + Nodes(m));
      assert Nodes(m) == [Nodes(m)[0]];
      assert children + Nodes(m) + NodesFrom(pieces, k + 1) == children + (Nodes(m) + NodesFrom(pieces, k + 1));
    }
  }

  /** Every document of this syntax is parsed without error to the nodes it means, in order. */
  lemma DocumentReads(pieces: seq<Piece>, rest: string)
    requires ValidDocument(pieces) && ContentFits(pieces, 0, rest)
    requires rest == "" || Strip(rest) == "" || Strip(rest)[0] != '<'
    ensures var r := ParseDocument(ContentThen(pieces, 0, rest));
            r.children == NodesFrom(pieces, 0) && r.error == None
  {
    hide ParseTopLevel, Valid, Fits, Then, Nodes, U.White, IsWhiteSpace;
    TopLevelReads(pieces, 0, rest, []);
    assert [] + NodesFrom(pieces, 0) == NodesFrom(pieces, 0);
    MarkupReads(pieces[0].markup, ContentThen(pieces, 1, rest));
  }

  // ---- names ----

  const DIGITS := "0123456789"

  /** Names start with a letter, an underscore or any byte from 127 on, and go on with these, digits and "-.:". */
  lemma NameCharacters(c: char)
    ensures IsNameStart(c) <==> c in LOWER || c in UPPER || c == '_' || c as int >= 127
    ensures IsNameChar(c) <==> c in LOWER || c in UPPER || c in DIGITS || c in "_-.:" || c as int >= 127
  {
    assert "_-.:"[0] == '_' && "_-.:"[1] == '-' && "_-.:"[2] == '.' && "_-.:"[3] == ':';
    if 'a' <= c <= 'z' {
      LetterPair((c - 'a') as int);
    } else if 'A' <= c <= 'Z' {
      LetterPair((c - 'A') as int);
    } else if '0' <= c <= '9' {
      assert DIGITS[(c - '0') as int] == c;
    }
    OnlyLetters(c);
    OnlyDigits(c);
  }

  lemma OnlyDigits(c: char)
    ensures c in DIGITS ==> '0' <= c <= '9'
  {
  }

  lemma OnlyLetters(c: char)
    ensures c in LOWER ==> 'a' <= c <= 'z'
    ensures c in UPPER ==> 'A' <= c <= 'Z'
  {
    forall k | 0 <= k < 26 ensures 'a' <= LOWER[k] <= 'z' && 'A' <= UPPER[k] <= 'Z' {
      LetterPair(k);
    }
  }
}
