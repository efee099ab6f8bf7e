// The layout of the writers told by lines: the block of a container is its
// brackets around the blocks of its parts, moved to the right by one unit.

module JsonLayout {
  import opened JsonValue
  import opened JsonDoubles
  import opened JsonStrings
  import opened JsonTokens
  import opened JsonText

  type Block = seq<string>

  /** The lines of a block with the text between them. */
  function Joined(block: Block, between: string): string {
    if block == [] then ""
    else if |block| == 1 then block[0]
    else block[0] + (between + Joined(block[1..], between))
  }

  function Shifted(block: Block, unit: string): (r: Block)
    ensures |r| == |block|
  {
    if block == [] then [] else [unit + block[0]] + Shifted(block[1..], unit)
  }

  /** Text in front of the first line. */
  function Prefixed(text: string, block: Block): (r: Block)
    requires block != []
    ensures |r| == |block|
  {
    [text + block[0]] + block[1..]
  }

  /** A comma behind the last line. */
  function WithComma(block: Block): (r: Block)
    requires block != []
    ensures |r| == |block|
  {
    block[..|block| - 1] + [block[|block| - 1] + ","]
  }

  /** StyledWriter indents by three spaces. */
  function UnitOf(style: Style): string {
    match style
    case Styled => "   "
    case Stream(indentation) => indentation
  }

  /** StyledStreamWriter begins a container that takes several lines on a line of its own. */
  function Opening(style: Style, bracket: string): Block {
    if style.Styled? then [bracket] else ["", bracket]
  }

  predicate WithoutElements(v: Value) {
    (v.Array? ==> v.items == []) && (v.Object? ==> v.members == [])
  }

  /** The elements of an array on one line. */
  function Row(items: seq<Value>, k: nat): string
    requires k <= |items| && forall i :: 0 <= i < |items| ==> Writable(items[i]) && IsInline(items[i])
    decreases |items| - k
  {
    if k == |items| then "" else (if k == 0 then "" else ", ") + InlineText(items[k]) + Row(items, k + 1)
  }

  /** An array takes one line if it has less than 25 elements, none of them has elements, and the line is shorter than 74. */
  predicate OneLine(items: seq<Value>)
    requires forall i :: 0 <= i < |items| ==> Writable(items[i])
  {
    && |items| < 25 && (forall i :: 0 <= i < |items| ==> WithoutElements(items[i]))
    && |"[ " + Row(items, 0) + " ]"| < 74
  }

  function BlockOf(style: Style, v: Value): (b: Block)
    requires Writable(v)
    ensures b != []
    decreases v, 0
  {
    match v
    case Array(items) =>
      if items == [] then ["[]"]
      else if OneLine(items) then ["[ " + Row(items, 0) + " ]"]
      else Opening(style, "[") + Items(style, items, 0) + ["]"]
    case Object(members) =>
      if members == [] then ["{}"]
      else Opening(style, "{") + Members(style, members, 0) + ["}"]
    case _ => [ScalarText(v)]
  }

  function Items(style: Style, items: seq<Value>, k: nat): Block
    requires k <= |items| && forall i :: 0 <= i < |items| ==> Writable(items[i])
    decreases items, |items| - k
  {
    if k == |items| then []
    else
      var block := Shifted(BlockOf(style, items[k]), UnitOf(style));
      (if k + 1 < |items| then WithComma(block) else block) + Items(style, items, k + 1)
  }

  function Members(style: Style, members: seq<Member>, k: nat): Block
    requires k <= |members| && forall i :: 0 <= i < |members| ==> Writable(members[i].value)
    decreases members, |members| - k
  {
    if k == |members| then []
    else
      var block := Shifted(Prefixed(Quote(members[k].name) + " : ", BlockOf(style, members[k].value)), UnitOf(style));
      (if k + 1 < |members| then WithComma(block) else block) + Members(style, members, k + 1)
  }

  // ---- joining ----

  lemma {:induction false} JoinedAppend(a: Block, b: Block, between: string)
    requires a != [] && b != []
    ensures Joined(a + b, between) == Joined(a, between) + (between + Joined(b, between))
  {
    if |a| == 1 {
      assert (a + b)[1..] == b;
    } else {
      JoinedAppend(a[1..], b, between);
      assert (a + b)[1..] == a[1..] + b;
      assert a[0] + (between + (Joined(a[1..], between) + (between + Joined(b, between))))
          == (a[0] + (between + Joined(a[1..], between))) + (between + Joined(b, between));
    }
  }

  lemma JoinedFirst(line: string, block: Block, between: string)
    requires block != []
    ensures Joined([line] + block, between) == line + (between + Joined(block, between))
  {
    assert ([line] + block)[1..] == block;
  }

  lemma UnitInside(unit: string, line: string, between: string, tail: string)
    ensures (unit + line) + (between + (unit + tail)) == unit + (line + ((between + unit) + tail))
  {
  }

  lemma {:induction false} JoinedShifted(block: Block, unit: string, between: string)
    requires block != []
    ensures Joined(Shifted(block, unit), between) == unit + Joined(block, between + unit)
  {
    if |block| == 1 {
      assert Shifted(block[1..], unit) == [];
    } else {
      hide Joined;
      JoinedShifted(block[1..], unit, between);
      JoinedFirst(unit + block[0], Shifted(block[1..], unit), between);
      JoinedFirst(block[0], block[1..], between + unit);
      assert [block[0]] + block[1..] == block;
      UnitInside(unit, block[0], between, Joined(block[1..], between + unit));
    }
  }

  lemma JoinedPrefixed(text: string, block: Block, between: string)
    requires block != []
    ensures Joined(Prefixed(text, block), between) == text + Joined(block, between)
  {
    var b := Prefixed(text, block);
    assert b[1..] == block[1..];
    if |block| > 1 {
      assert (text + block[0]) + (between + Joined(block[1..], between)) == text + (block[0] + (between + Joined(block[1..], between)));
    }
  }

  lemma JoinedComma(block: Block, between: string)
    requires block != []
    ensures Joined(WithComma(block), between) == Joined(block, between) + ","
  {
    var n := |block| - 1;
    var init, last := block[..n], [block[n]];
    if n > 0 {
      JoinedAppend(init, last, between);
      JoinedAppend(init, [block[n] + ","], between);
      assert init + last == block;
      assert Joined(init, between) + (between + (block[n] + ",")) == Joined(init, between) + (between + block[n]) + ",";
    }
  }

  // ---- one-line arrays ----

  lemma {:induction false} RowLength(items: seq<Value>, k: nat)
    requires k <= |items| && forall i :: 0 <= i < |items| ==> Writable(items[i]) && IsInline(items[i])
    ensures |Row(items, k)| == InlineLength(items, k) + 2 * (|items| - k) - (if k == 0 && items != [] then 2 else 0)
    decreases |items| - k
  {
    hide InlineText, IsInline, Writable;
    if k < |items| {
      RowLength(items, k + 1);
    }
  }

  /** The test of isMultilineArray is whether the line fits. */
  lemma OneLineTest(items: seq<Value>)
    requires items != [] && forall i :: 0 <= i < |items| ==> Writable(items[i])
    ensures OneLine(items) <==> !IsMultiline(items)
  {
    hide InlineText, Writable, Row, InlineLength;
    if AllInline(items) {
      RowLength(items, 0);
    }
  }

  lemma {:induction false} RowText(items: seq<Value>, k: nat, rest: string)
    requires k <= |items| && forall i :: 0 <= i < |items| ==> Writable(items[i]) && IsInline(items[i])
    ensures InlineItems(items, k, rest) == Row(items, k) + (" ]" + rest)
    decreases |items| - k
  {
    hide InlineText, IsInline, Writable;
    if k < |items| {
      RowText(items, k + 1, rest);
      var a, b, c, d := if k == 0 then "" else ", ", InlineText(items[k]), Row(items, k + 1), " ]" + rest;
      assert a + (b + (c + d)) == ((a + b) + c) + d;
    }
  }

  lemma RowIsBlock(items: seq<Value>, between: string, rest: string)
    requires (forall i :: 0 <= i < |items| ==> Writable(items[i])) && OneLine(items)
    ensures forall i :: 0 <= i < |items| ==> IsInline(items[i])
    ensures "[ " + InlineItems(items, 0, rest) == Joined(["[ " + Row(items, 0) + " ]"], between) + rest
  {
    hide Writable, Row, InlineText;
    RowText(items, 0, rest);
    assert "[ " + (Row(items, 0) + (" ]" + rest)) == ("[ " + Row(items, 0) + " ]") + rest;
  }

  // ---- the text is its block ----

  lemma {:induction false} StyledIsBlock(style: Style, v: Value, indent: string, rest: string)
    requires Writable(v)
    ensures StyledText(style, v, indent, rest) == Joined(BlockOf(style, v), "\n" + indent) + rest
    decreases v, 0
  {
    hide Joined, OneLine, IsMultiline, StyledItems, StyledMembers, Items, Members, ScalarText;
    var between := "\n" + indent;
    if v.Array? {
      if v.items == [] {
        OneLineOf("[]", between);
      } else if OneLine(v.items) {
        OneLineTest(v.items);
        RowIsBlock(v.items, between, rest);
      } else {
        ArrayIsBlock(style, v.items, indent, rest);
      }
    } else if v.Object? {
      if v.members == [] {
        OneLineOf("{}", between);
      } else {
        ObjectIsBlock(style, v.members, indent, rest);
      }
    } else {
      OneLineOf(ScalarText(v), between);
    }
  }

  lemma {:induction false} ArrayIsBlock(style: Style, items: seq<Value>, indent: string, rest: string)
    requires items != [] && Writable(Array(items)) && !OneLine(items)
    ensures StyledText(style, Array(items), indent, rest) == Joined(BlockOf(style, Array(items)), "\n" + indent) + rest
    decreases items, |items| + 1
  {
    hide Joined, OneLine, IsMultiline, StyledItems, Items, Opening, Lead;
    OneLineTest(items);
    ItemsAreBlock(style, items, 0, indent, rest);
    var inner := Items(style, items, 0) + ["]"];
    Bracketed(style, indent, "[", inner, rest);
    assert (Opening(style, "[") + Items(style, items, 0)) + ["]"] == Opening(style, "[") + inner;
    NothingBefore("\n" + indent + (Joined(inner, "\n" + indent) + rest));
  }

  lemma {:induction false} ObjectIsBlock(style: Style, members: seq<Member>, indent: string, rest: string)
    requires members != [] && Writable(Object(members))
    ensures StyledText(style, Object(members), indent, rest) == Joined(BlockOf(style, Object(members)), "\n" + indent) + rest
    decreases members, |members| + 1
  {
    hide Joined, StyledMembers, Members, Opening, Lead;
    MembersAreBlock(style, members, 0, indent, rest);
    var inner := Members(style, members, 0) + ["}"];
    Bracketed(style, indent, "{", inner, rest);
    assert (Opening(style, "{") + Members(style, members, 0)) + ["}"] == Opening(style, "{") + inner;
    NothingBefore("\n" + indent + (Joined(inner, "\n" + indent) + rest));
  }

  lemma NothingBefore(s: string)
    ensures "" + s == s
  {
  }

  lemma OneLineOf(line: string, between: string)
    ensures Joined([line], between) == line
  {
  }

  /** The opening bracket and what follows it. */
  lemma Bracketed(style: Style, indent: string, bracket: string, block: Block, rest: string)
    requires block != []
    ensures var between := "\n" + indent;
            Lead(style, indent) + (bracket + (between + (Joined(block, between) + rest)))
            == Joined(Opening(style, bracket) + block, between) + rest
  {
    var between := "\n" + indent;
    JoinedAppend(Opening(style, bracket), block, between);
    OneLineOf(bracket, between);
    var tail := between + Joined(block, between);
    assert bracket + (tail + rest) == (bracket + tail) + rest;
    assert between + (Joined(block, between) + rest) == tail + rest;
    if style.Stream? {
      assert ["", bracket][1..] == [bracket];
      assert between + (bracket + (tail + rest)) == (("" + (between + bracket)) + tail) + rest;
    }
  }

  /** The text of a part: shifted, and with the comma behind it unless it is the last. */
  lemma PartJoined(block: Block, unit: string, between: string, comma: bool)
    requires block != []
    ensures var shifted := Shifted(block, unit);
            Joined(if comma then WithComma(shifted) else shifted, between)
            == (unit + Joined(block, between + unit)) + (if comma then "," else "")
  {
    hide Joined, WithComma;
    JoinedShifted(block, unit, between);
    if comma {
      JoinedComma(Shifted(block, unit), between);
    }
  }

  /** A part on its own line and the parts behind it. */
  lemma PartText(block: Block, unit: string, between: string, comma: bool, tail: Block, rest: string)
    requires block != [] && tail != []
    ensures var shifted := Shifted(block, unit);
            (between + unit) + (Joined(block, between + unit) + ((if comma then "," else "") + (between + (Joined(tail, between) + rest))))
            == between + (Joined((if comma then WithComma(shifted) else shifted) + tail, between) + rest)
  {
    hide Joined, WithComma, Shifted;
    var part := if comma then WithComma(Shifted(block, unit)) else Shifted(block, unit);
    PartJoined(block, unit, between, comma);
    JoinedAppend(part, tail, between);
    Regrouped(between, unit, Joined(block, between + unit), if comma then "," else "", Joined(tail, between), rest);
  }

  lemma Regrouped(n: string, u: string, a: string, mark: string, b: string, rest: string)
    ensures (n + u) + (a + (mark + (n + (b + rest)))) == n + ((((u + a) + mark) + (n + b)) + rest)
  {
  }

  lemma {:induction false} ItemsAreBlock(style: Style, items: seq<Value>, k: nat, indent: string, rest: string)
    requires k <= |items| && forall i :: 0 <= i < |items| ==> Writable(items[i])
    ensures var between := "\n" + indent;
            StyledItems(style, items, k, indent, rest)
            == (if 0 < k < |items| then "," else "") + (between + (Joined(Items(style, items, k) + ["]"], between) + rest))
    decreases items, |items| - k
  {
    hide Joined, StyledText, BlockOf, Shifted;
    var between := "\n" + indent;
    if k == |items| {
      OneLineOf("]", between);
      assert [] + ["]"] == ["]"];
    } else {
      var unit := UnitOf(style);
      var inner := indent + unit;
      var block, tail := BlockOf(style, items[k]), Items(style, items, k + 1) + ["]"];
      var after := StyledItems(style, items, k + 1, indent, rest);
      StyledIsBlock(style, items[k], inner, after);
      ItemsAreBlock(style, items, k + 1, indent, rest);
      assert "\n" + inner == between + unit;
      PartText(block, unit, between, k + 1 < |items|, tail, rest);
      var shifted := Shifted(block, unit);
      var part := if k + 1 < |items| then WithComma(shifted) else shifted;
      assert (part + Items(style, items, k + 1)) + ["]"] == part + tail;
    }
  }

  lemma Named(name: string, value: string, after: string)
    ensures name + (" : " + (value + after)) == ((name + " : ") + value) + after
  {
  }

  lemma {:induction false} MembersAreBlock(style: Style, members: seq<Member>, k: nat, indent: string, rest: string)
    requires k <= |members| && forall i :: 0 <= i < |members| ==> Writable(members[i].value)
    ensures var between := "\n" + indent;
            StyledMembers(style, members, k, indent, rest)
            == (if 0 < k < |members| then "," else "") + (between + (Joined(Members(style, members, k) + ["}"], between) + rest))
    decreases members, |members| - k
  {
    hide Joined, StyledText, BlockOf, Shifted, Quote, Prefixed, WithComma;
    var between := "\n" + indent;
    if k == |members| {
      OneLineOf("}", between);
      assert [] + ["}"] == ["}"];
    } else {
      var unit := UnitOf(style);
      var inner := indent + unit;
      var name := Quote(members[k].name) + " : ";
      var value := BlockOf(style, members[k].value);
      var block, tail := Prefixed(name, value), Members(style, members, k + 1) + ["}"];
      var after := StyledMembers(style, members, k + 1, indent, rest);
      StyledIsBlock(style, members[k].value, inner, after);
      MembersAreBlock(style, members, k + 1, indent, rest);
      assert "\n" + inner == between + unit;
      JoinedPrefixed(name, value, between + unit);
      PartText(block, unit, between, k + 1 < |members|, tail, rest);
      Named(Quote(members[k].name), Joined(value, between + unit), after);
      var shifted := Shifted(block, unit);
      var part := if k + 1 < |members| then WithComma(shifted) else shifted;
      assert (part + Members(style, members, k + 1)) + ["}"] == part + tail;
    }
  }

  // ---- the fast text is its tokens ----

  function Spelled(yaml: bool, tokens: seq<Token>): string {
    if tokens == [] then "" else
    (if yaml && tokens[0].kind == MemberSeparator then ": " else tokens[0].text) + Spelled(yaml, tokens[1..])
  }

  lemma SpelledMore(yaml: bool, token: Token, tokens: seq<Token>)
    ensures Spelled(yaml, [token] + tokens)
            == (if yaml && token.kind == MemberSeparator then ": " else token.text) + Spelled(yaml, tokens)
  {
    assert ([token] + tokens)[1..] == tokens;
  }

  /** The text of FastWriter is the texts of the tokens, with a space behind each colon for yaml. */
  lemma {:induction false} FastIsTokens(yaml: bool, v: Value, more: seq<Token>)
    requires Writable(v)
    ensures Spelled(yaml, TokensOf(v, more)) == FastText(yaml, v, Spelled(yaml, more))
    decreases v, 0
  {
    hide Spelled, ItemTokens, MemberTokens, FastItems, FastMembers, ScalarText;
    match v
    case Array(items) =>
      FastItemsAreTokens(yaml, items, 0, more);
      SpelledMore(yaml, Token(ArrayBegin, "["), ItemTokens(items, 0, more));
    case Object(members) =>
      FastMembersAreTokens(yaml, members, 0, more);
      SpelledMore(yaml, Token(ObjectBegin, "{"), MemberTokens(members, 0, more));
    case _ => SpelledMore(yaml, Token(ScalarKind(v), ScalarText(v)), more);
  }

  lemma {:induction false} FastItemsAreTokens(yaml: bool, items: seq<Value>, k: nat, more: seq<Token>)
    requires k <= |items| && forall i :: 0 <= i < |items| ==> Writable(items[i])
    ensures Spelled(yaml, ItemTokens(items, k, more)) == FastItems(yaml, items, k, Spelled(yaml, more))
    decreases items, |items| - k
  {
    hide Spelled, TokensOf, FastText;
    if k == |items| {
      SpelledMore(yaml, Token(ArrayEnd, "]"), more);
    } else {
      var rest := ItemTokens(items, k + 1, more);
      FastItemsAreTokens(yaml, items, k + 1, more);
      FastIsTokens(yaml, items[k], rest);
      SpelledMore(yaml, COMMA, TokensOf(items[k], rest));
    }
  }

  lemma {:induction false} FastMembersAreTokens(yaml: bool, members: seq<Member>, k: nat, more: seq<Token>)
    requires k <= |members| && forall i :: 0 <= i < |members| ==> Writable(members[i].value)
    ensures Spelled(yaml, MemberTokens(members, k, more)) == FastMembers(yaml, members, k, Spelled(yaml, more))
    decreases members, |members| - k
  {
    hide Spelled, TokensOf, FastText, Quote;
    if k == |members| {
      SpelledMore(yaml, Token(ObjectEnd, "}"), more);
    } else {
      var rest := MemberTokens(members, k + 1, more);
      var value := TokensOf(members[k].value, rest);
      var name := Token(StringToken, Quote(members[k].name));
      FastMembersAreTokens(yaml, members, k + 1, more);
      FastIsTokens(yaml, members[k].value, rest);
      SpelledMore(yaml, COLON, value);
      SpelledMore(yaml, name, [COLON] + value);
      SpelledMore(yaml, COMMA, [name] + ([COLON] + value));
    }
  }
}
