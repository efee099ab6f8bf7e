// The texts the three writers produce and the token sequence they all denote.

module JsonText {
  import opened JsonValue
  import opened JsonNumbers
  import opened JsonDoubles
  import opened JsonStrings
  import opened JsonTokens

  /** The values of the source: integers of 32 bits, and doubles that sprintf prints as numbers. */
  predicate Writable(v: Value) {
    match v
    case Int(i) => MIN_INT <= i <= MAX_INT
    case UInt(u) => 0 <= u <= MAX_UINT
    case Real(r) => DoubleForm(SPRINTF(r))
    case Array(items) => forall k :: 0 <= k < |items| ==> Writable(items[k])
    case Object(members) => forall k :: 0 <= k < |members| ==> Writable(members[k].value)
    case _ => true
  }

  predicate IsScalar(v: Value) { !v.Array? && !v.Object? }

  function ScalarText(v: Value): string
    requires IsScalar(v) && Writable(v)
  {
    match v
    case Null => "null"
    case Int(i) => IntText(i)
    case UInt(u) => Decimal(u)
    case Real(r) => DoubleText(r)
    case Str(s) => Quote(s)
    case Bool(b) => if b then "true" else "false"
  }

  // ---- tokens ----

  function ScalarKind(v: Value): TokenType
    requires IsScalar(v)
  {
    match v
    case Null => NullToken
    case Int(_) => NumberToken
    case UInt(_) => NumberToken
    case Real(_) => NumberToken
    case Str(_) => StringToken
    case Bool(b) => if b then TrueToken else FalseToken
  }

  const COMMA := Token(ArraySeparator, ",")
  const COLON := Token(MemberSeparator, ":")

  /** The tokens of v, followed by `more`. */
  function TokensOf(v: Value, more: seq<Token>): (r: seq<Token>)
    requires Writable(v)
    ensures r != []
    decreases v, 0
  {
    match v
    case Array(items) => [Token(ArrayBegin, "[")] + ItemTokens(items, 0, more)
    case Object(members) => [Token(ObjectBegin, "{")] + MemberTokens(members, 0, more)
    case _ => [Token(ScalarKind(v), ScalarText(v))] + more
  }

  function AfterComma(k: nat, tokens: seq<Token>): seq<Token> {
    if k > 0 then [COMMA] + tokens else tokens
  }

  /** The tokens from element k (and the comma before it) to the closing bracket, followed by `more`. */
  function ItemTokens(items: seq<Value>, k: nat, more: seq<Token>): (r: seq<Token>)
    requires k <= |items| && forall i :: 0 <= i < |items| ==> Writable(items[i])
    ensures r != []
    decreases items, |items| - k
  {
    if k == |items| then [Token(ArrayEnd, "]")] + more
    else AfterComma(k, TokensOf(items[k], ItemTokens(items, k + 1, more)))
  }

  function MemberTokens(members: seq<Member>, k: nat, more: seq<Token>): (r: seq<Token>)
    requires k <= |members| && forall i :: 0 <= i < |members| ==> Writable(members[i].value)
    ensures r != []
    decreases members, |members| - k
  {
    if k == |members| then [Token(ObjectEnd, "}")] + more
    else AfterComma(k, [Token(StringToken, Quote(members[k].name))]
                       + ([COLON] + TokensOf(members[k].value, MemberTokens(members, k + 1, more))))
  }

  // ---- FastWriter ----

  /** The text of v, followed by `rest`. */
  function FastText(yaml: bool, v: Value, rest: string): string
    requires Writable(v)
    decreases v, 0
  {
    match v
    case Array(items) => "[" + FastItems(yaml, items, 0, rest)
    case Object(members) => "{" + FastMembers(yaml, members, 0, rest)
    case _ => ScalarText(v) + rest
  }

  function Comma(k: nat): string { if k > 0 then "," else "" }

  function FastItems(yaml: bool, items: seq<Value>, k: nat, rest: string): string
    requires k <= |items| && forall i :: 0 <= i < |items| ==> Writable(items[i])
    decreases items, |items| - k
  {
    if k == |items| then "]" + rest
    else Comma(k) + FastText(yaml, items[k], FastItems(yaml, items, k + 1, rest))
  }

  function FastColon(yaml: bool): string { if yaml then ": " else ":" }

  function FastMembers(yaml: bool, members: seq<Member>, k: nat, rest: string): string
    requires k <= |members| && forall i :: 0 <= i < |members| ==> Writable(members[i].value)
    decreases members, |members| - k
  {
    if k == |members| then "}" + rest
    else Comma(k) + (Quote(members[k].name)
         + (FastColon(yaml) + FastText(yaml, members[k].value, FastMembers(yaml, members, k + 1, rest))))
  }

  // ---- StyledWriter and StyledStreamWriter ----

  /** Styled indents by three spaces; Stream by a given text. */
  datatype Style = Styled | Stream(indentation: string)

  const RIGHT_MARGIN := 74

  function Unit(style: Style): string {
    if style.Styled? then "   " else style.indentation
  }

  /** StyledStreamWriter starts every opening bracket on a line of its own. */
  function Lead(style: Style, indent: string): string {
    if style.Styled? then "" else "\n" + indent
  }

  /** Elements that can stand on one line: scalars and empty containers. */
  predicate IsInline(v: Value) { v.Size() == 0 }

  function InlineText(v: Value): string
    requires IsInline(v) && Writable(v)
  {
    if v.Array? then "[]" else if v.Object? then "{}" else ScalarText(v)
  }

  function InlineLength(items: seq<Value>, k: nat): nat
    requires k <= |items| && forall i :: 0 <= i < |items| ==> Writable(items[i]) && IsInline(items[i])
    decreases |items| - k
  {
    if k == |items| then 0 else |InlineText(items[k])| + InlineLength(items, k + 1)
  }

  predicate AllInline(items: seq<Value>) {
    forall i :: 0 <= i < |items| ==> IsInline(items[i])
  }

  predicate IsMultiline(items: seq<Value>)
    requires forall i :: 0 <= i < |items| ==> Writable(items[i])
  {
    || |items| * 3 >= RIGHT_MARGIN
    || !AllInline(items)
    || 4 + (|items| - 1) * 2 + InlineLength(items, 0) >= RIGHT_MARGIN
  }

  /** The text of v at the given indentation, followed by `rest`. */
  function StyledText(style: Style, v: Value, indent: string, rest: string): string
    requires Writable(v)
    decreases v, 0
  {
    match v
    case Array(items) =>
      if items == [] then "[]" + rest
      else if IsMultiline(items) then Lead(style, indent) + ("[" + StyledItems(style, items, 0, indent, rest))
      else "[ " + InlineItems(items, 0, rest)
    case Object(members) =>
      if members == [] then "{}" + rest
      else Lead(style, indent) + ("{" + StyledMembers(style, members, 0, indent, rest))
    case _ => ScalarText(v) + rest
  }

  /** From element k of a one-line array. */
  function InlineItems(items: seq<Value>, k: nat, rest: string): string
    requires k <= |items| && forall i :: 0 <= i < |items| ==> Writable(items[i]) && IsInline(items[i])
    decreases |items| - k
  {
    if k == |items| then " ]" + rest
    else (if k > 0 then ", " else "") + (InlineText(items[k]) + InlineItems(items, k + 1, rest))
  }

  /** From element k of a multi-line array. */
  function StyledItems(style: Style, items: seq<Value>, k: nat, indent: string, rest: string): string
    requires k <= |items| && forall i :: 0 <= i < |items| ==> Writable(items[i])
    decreases items, |items| - k
  {
    if k == |items| then ("\n" + indent) + ("]" + rest)
    else
      var inner := indent + Unit(style);
      Comma(k) + (("\n" + inner) + StyledText(style, items[k], inner, StyledItems(style, items, k + 1, indent, rest)))
  }

  function StyledMembers(style: Style, members: seq<Member>, k: nat, indent: string, rest: string): string
    requires k <= |members| && forall i :: 0 <= i < |members| ==> Writable(members[i].value)
    decreases members, |members| - k
  {
    if k == |members| then ("\n" + indent) + ("}" + rest)
    else
      var inner := indent + Unit(style);
      Comma(k) + (("\n" + inner) + (Quote(members[k].name)
      + (" : " + StyledText(style, members[k].value, inner, StyledMembers(style, members, k + 1, indent, rest)))))
  }

  /** An array that holds an object, and yet is printed on one line. */
  lemma EmptyObjectOnOneLine(style: Style, indent: string, rest: string)
    ensures StyledText(style, Array([Object([])]), indent, rest) == "[ {} ]" + rest
  {
    var items := [Object([])];
    assert InlineLength(items, 1) == 0;
    assert !IsMultiline(items);
    assert InlineItems(items, 1, rest) == " ]" + rest;
    assert InlineItems(items, 0, rest) == "{}" + (" ]" + rest);
    assert "[ " + ("" + ("{}" + (" ]" + rest))) == "[ {} ]" + rest;
  }
}
