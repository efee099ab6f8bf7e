// StyledWriter and StyledStreamWriter: one class, as the two differ only in
// their indentation unit and in writeIndent. Comments are not attached.

module JsonStyledWriters {
  import opened JsonValue
  import opened JsonDoubles
  import opened JsonNumbers
  import opened JsonStrings
  import opened JsonText
  import opened JsonWriters

  /** The text ends in a character that writeIndent starts a new line after. */
  predicate Ends(text: string) {
    text != "" && text[|text| - 1] != ' ' && text[|text| - 1] != '\n'
  }

  predicate EndsInSpace(text: string) {
    text != "" && text[|text| - 1] == ' '
  }

  lemma ScalarEnds(v: Value)
    requires IsScalar(v) && Writable(v)
    ensures Ends(ScalarText(v))
  {
    match v
    case Int(i) => var d := Decimal(if i < 0 then -i else i); assert IsDigit(d[|d| - 1]);
    case UInt(u) => var d := Decimal(u); assert IsDigit(d[|d| - 1]);
    case Real(r) => TrimmedForm(SPRINTF(r));
    case _ =>
  }

  lemma EndsAfter(a: string, b: string)
    requires Ends(b)
    ensures Ends(a + b)
  {
  }

  lemma {:induction false} StyledTextEnds(style: Style, v: Value, indent: string, rest: string)
    requires Writable(v) && (rest == "" || Ends(rest))
    ensures Ends(StyledText(style, v, indent, rest))
    decreases v, 0
  {
    hide ScalarText, Quote, Ends;
    if v.Array? {
      var items := v.items;
      if items == [] {
        EndsTwo("[]", rest);
      } else if IsMultiline(items) {
        StyledItemsEnd(style, items, 0, indent, rest);
        EndsAfter("[", StyledItems(style, items, 0, indent, rest));
        EndsAfter(Lead(style, indent), "[" + StyledItems(style, items, 0, indent, rest));
      } else {
        InlineItemsEnd(items, 0, rest);
        EndsAfter("[ ", InlineItems(items, 0, rest));
      }
    } else if v.Object? {
      var members := v.members;
      if members == [] {
        EndsTwo("{}", rest);
      } else {
        StyledMembersEnd(style, members, 0, indent, rest);
        EndsAfter("{", StyledMembers(style, members, 0, indent, rest));
        EndsAfter(Lead(style, indent), "{" + StyledMembers(style, members, 0, indent, rest));
      }
    } else {
      ScalarEnds(v);
      EndsTwo(ScalarText(v), rest);
    }
  }

  lemma EndsTwo(a: string, rest: string)
    requires Ends(a) && (rest == "" || Ends(rest))
    ensures Ends(a + rest)
  {
  }

  lemma {:induction false} InlineItemsEnd(items: seq<Value>, k: nat, rest: string)
    requires k <= |items| && forall i :: 0 <= i < |items| ==> Writable(items[i]) && IsInline(items[i])
    requires rest == "" || Ends(rest)
    ensures Ends(InlineItems(items, k, rest))
    decreases |items| - k
  {
    hide InlineText;
    if k == |items| {
      EndsTwo(" ]", rest);
    } else {
      InlineItemsEnd(items, k + 1, rest);
    }
  }

  lemma {:induction false} StyledItemsEnd(style: Style, items: seq<Value>, k: nat, indent: string, rest: string)
    requires k <= |items| && forall i :: 0 <= i < |items| ==> Writable(items[i])
    requires rest == "" || Ends(rest)
    ensures Ends(StyledItems(style, items, k, indent, rest))
    decreases items, |items| - k
  {
    hide StyledText, Ends;
    if k == |items| {
      EndsTwo("]", rest);
      EndsAfter("\n" + indent, "]" + rest);
    } else {
      var inner := indent + Unit(style);
      StyledItemsEnd(style, items, k + 1, indent, rest);
      StyledTextEnds(style, items[k], inner, StyledItems(style, items, k + 1, indent, rest));
      var text := StyledText(style, items[k], inner, StyledItems(style, items, k + 1, indent, rest));
      EndsAfter("\n" + inner, text);
      EndsAfter(Comma(k), ("\n" + inner) + text);
    }
  }

  lemma {:induction false} StyledMembersEnd(style: Style, members: seq<Member>, k: nat, indent: string, rest: string)
    requires k <= |members| && forall i :: 0 <= i < |members| ==> Writable(members[i].value)
    requires rest == "" || Ends(rest)
    ensures Ends(StyledMembers(style, members, k, indent, rest))
    decreases members, |members| - k
  {
    hide StyledText, Quote, Ends;
    if k == |members| {
      EndsTwo("}", rest);
      EndsAfter("\n" + indent, "}" + rest);
    } else {
      var inner := indent + Unit(style);
      StyledMembersEnd(style, members, k + 1, indent, rest);
      StyledTextEnds(style, members[k].value, inner, StyledMembers(style, members, k + 1, indent, rest));
      var text := StyledText(style, members[k].value, inner, StyledMembers(style, members, k + 1, indent, rest));
      EndsAfter(" : ", text);
      EndsAfter(Quote(members[k].name), " : " + text);
      EndsAfter("\n" + inner, Quote(members[k].name) + (" : " + text));
      EndsAfter(Comma(k), ("\n" + inner) + (Quote(members[k].name) + (" : " + text)));
    }
  }

  // ---- texts are prefixes ----

  lemma {:induction false} StyledAppend(style: Style, v: Value, indent: string, a: string, b: string)
    requires Writable(v)
    ensures StyledText(style, v, indent, a + b) == StyledText(style, v, indent, a) + b
    decreases v, 0
  {
    hide ScalarText, IsMultiline;
    if v.Array? {
      var items := v.items;
      if items == [] {
        Assoc("[]", a, b);
      } else if IsMultiline(items) {
        StyledItemsAppend(style, items, 0, indent, a, b);
        Assoc("[", StyledItems(style, items, 0, indent, a), b);
        Assoc(Lead(style, indent), "[" + StyledItems(style, items, 0, indent, a), b);
      } else {
        NotMultilineInline(items);
        InlineItemsAppend(items, 0, a, b);
        Assoc("[ ", InlineItems(items, 0, a), b);
      }
    } else if v.Object? {
      var members := v.members;
      if members == [] {
        Assoc("{}", a, b);
      } else {
        StyledMembersAppend(style, members, 0, indent, a, b);
        Assoc("{", StyledMembers(style, members, 0, indent, a), b);
        Assoc(Lead(style, indent), "{" + StyledMembers(style, members, 0, indent, a), b);
      }
    } else {
      Assoc(ScalarText(v), a, b);
    }
  }

  lemma NotMultilineInline(items: seq<Value>)
    requires (forall i :: 0 <= i < |items| ==> Writable(items[i])) && !IsMultiline(items)
    ensures AllInline(items)
  {
  }

  lemma {:induction false} InlineItemsAppend(items: seq<Value>, k: nat, a: string, b: string)
    requires k <= |items| && forall i :: 0 <= i < |items| ==> Writable(items[i]) && IsInline(items[i])
    ensures InlineItems(items, k, a + b) == InlineItems(items, k, a) + b
    decreases |items| - k
  {
    hide InlineText;
    if k == |items| {
      Assoc(" ]", a, b);
    } else {
      InlineItemsAppend(items, k + 1, a, b);
      Assoc(InlineText(items[k]), InlineItems(items, k + 1, a), b);
      Assoc(if k > 0 then ", " else "", InlineText(items[k]) + InlineItems(items, k + 1, a), b);
    }
  }

  lemma {:induction false} StyledItemsAppend(style: Style, items: seq<Value>, k: nat, indent: string, a: string,
          b: string)
    requires k <= |items| && forall i :: 0 <= i < |items| ==> Writable(items[i])
    ensures StyledItems(style, items, k, indent, a + b) == StyledItems(style, items, k, indent, a) + b
    decreases items, |items| - k
  {
    hide StyledText;
    if k == |items| {
      Assoc("]", a, b);
      Assoc("\n" + indent, "]" + a, b);
    } else {
      var inner := indent + Unit(style);
      StyledItemsAppend(style, items, k + 1, indent, a, b);
      StyledAppend(style, items[k], inner, StyledItems(style, items, k + 1, indent, a), b);
      var text := StyledText(style, items[k], inner, StyledItems(style, items, k + 1, indent, a));
      Assoc("\n" + inner, text, b);
      Assoc(Comma(k), ("\n" + inner) + text, b);
    }
  }

  lemma {:induction false} StyledMembersAppend(style: Style, members: seq<Member>, k: nat, indent: string,
          a: string, b: string)
    requires k <= |members| && forall i :: 0 <= i < |members| ==> Writable(members[i].value)
    ensures StyledMembers(style, members, k, indent, a + b) == StyledMembers(style, members, k, indent, a) + b
    decreases members, |members| - k
  {
    hide StyledText, Quote;
    if k == |members| {
      Assoc("}", a, b);
      Assoc("\n" + indent, "}" + a, b);
    } else {
      var inner := indent + Unit(style);
      StyledMembersAppend(style, members, k + 1, indent, a, b);
      StyledAppend(style, members[k].value, inner, StyledMembers(style, members, k + 1, indent, a), b);
      var text := StyledText(style, members[k].value, inner, StyledMembers(style, members, k + 1, indent, a));
      var quoted := Quote(members[k].name);
      Assoc(" : ", text, b);
      Assoc(quoted, " : " + text, b);
      Assoc("\n" + inner, quoted + (" : " + text), b);
      Assoc(Comma(k), ("\n" + inner) + (quoted + (" : " + text)), b);
    }
  }

  // ---- one round of each loop ----

  lemma StyledItemRound(style: Style, items: seq<Value>, k: nat, indent: string, before: string)
    requires k < |items| && forall i :: 0 <= i < |items| ==> Writable(items[i])
    ensures var comma := if k > 0 then before + "," else before;
            var inner := indent + Unit(style);
            comma + ("\n" + inner) + StyledText(style, items[k], inner, "") + StyledItems(style, items, k + 1, indent, "")
            == before + StyledItems(style, items, k, indent, "")
  {
    hide StyledText;
    var inner, tail := indent + Unit(style), StyledItems(style, items, k + 1, indent, "");
    assert "" + tail == tail && before + "" == before;
    StyledAppend(style, items[k], inner, "", tail);
    var text, comma := StyledText(style, items[k], inner, ""), Comma(k);
    Assoc(before, comma, ("\n" + inner) + (text + tail));
    Assoc(before + comma, "\n" + inner, text + tail);
    Assoc(before + comma + ("\n" + inner), text, tail);
  }

  lemma StyledMemberRound(style: Style, members: seq<Member>, k: nat, indent: string, before: string)
    requires k < |members| && forall i :: 0 <= i < |members| ==> Writable(members[i].value)
    ensures var comma := if k > 0 then before + "," else before;
            var inner := indent + Unit(style);
            comma + ("\n" + inner) + Quote(members[k].name) + " : " + StyledText(style, members[k].value, inner, "")
              + StyledMembers(style, members, k + 1, indent, "")
            == before + StyledMembers(style, members, k, indent, "")
  {
    hide StyledText, Quote;
    var inner, tail := indent + Unit(style), StyledMembers(style, members, k + 1, indent, "");
    assert "" + tail == tail && before + "" == before;
    StyledAppend(style, members[k].value, inner, "", tail);
    var text, comma, quoted := StyledText(style, members[k].value, inner, ""), Comma(k), Quote(members[k].name);
    Assoc(before, comma, ("\n" + inner) + (quoted + (" : " + (text + tail))));
    Assoc(before + comma, "\n" + inner, quoted + (" : " + (text + tail)));
    Assoc(before + comma + ("\n" + inner), quoted, " : " + (text + tail));
    Assoc(before + comma + ("\n" + inner) + quoted, " : ", text + tail);
    Assoc(before + comma + ("\n" + inner) + quoted + " : ", text, tail);
  }

  lemma InlineItemRound(items: seq<Value>, k: nat, before: string)
    requires k < |items| && forall i :: 0 <= i < |items| ==> Writable(items[i]) && IsInline(items[i])
    ensures (if k > 0 then before + ", " else before) + InlineText(items[k]) + InlineItems(items, k + 1, "")
         == before + InlineItems(items, k, "")
  {
    hide InlineText;
    var comma := if k > 0 then ", " else "";
    Assoc(before, comma, InlineText(items[k]) + InlineItems(items, k + 1, ""));
    Assoc(before + comma, InlineText(items[k]), InlineItems(items, k + 1, ""));
    assert before + "" == before;
  }

  lemma StyledTextOf(style: Style, v: Value, indent: string)
    requires Writable(v)
    ensures IsInline(v) ==> StyledText(style, v, indent, "") == InlineText(v)
    ensures v.Array? && v.items != [] ==>
              StyledText(style, v, indent, "") ==
                if IsMultiline(v.items) then Lead(style, indent) + ("[" + StyledItems(style, v.items, 0, indent, ""))
                else "[ " + InlineItems(v.items, 0, "")
    ensures v.Object? && v.members != [] ==>
              StyledText(style, v, indent, "") == Lead(style, indent) + ("{" + StyledMembers(style, v.members, 0, indent, ""))
  {
    hide IsMultiline, ScalarText;
  }

  lemma StyledEnd(style: Style, v: Value, indent: string)
    requires Writable(v)
    ensures v.Array? ==> StyledItems(style, v.items, |v.items|, indent, "") == "\n" + indent + "]"
    ensures v.Object? ==> StyledMembers(style, v.members, |v.members|, indent, "") == "\n" + indent + "}"
    ensures v.Array? && AllInline(v.items) ==> InlineItems(v.items, |v.items|, "") == " ]"
  {
    hide StyledText;
    if v.Array? {
      Assoc("\n", indent, "]");
    } else if v.Object? {
      Assoc("\n", indent, "}");
    }
  }

  class StyledWriter {
    const style: Style
    var document: string
    var indentString: string
    var childValues: seq<string>
    var addChildValues: bool

    constructor (style: Style)
      ensures this.style == style
    {
      this.style := style;
      document, indentString, childValues, addChildValues := "", "", [], false;
    }

    /** Where writeValue may be called: an opening bracket here gets exactly its Lead. */
    ghost predicate Ready()
      reads this
    {
      style.Styled? ==> (document == "" && indentString == "") || EndsInSpace(document)
    }

    /** Every entry of childValues is the text of the element with its index. */
    ghost predicate HoldsChildren(items: seq<Value>)
      requires forall i :: 0 <= i < |items| ==> Writable(items[i])
      reads `childValues
    {
      AllInline(items) && |childValues| == |items| &&
      forall i :: 0 <= i < |items| ==> childValues[i] == InlineText(items[i])
    }

    method Write(root: Value) returns (text: string)
      requires Writable(root)
      modifies this
      ensures text == document == StyledText(style, root, "", "\n") && indentString == ""
    {
      hide StyledText;
      document, addChildValues, indentString := "", false, "";
      WriteValue(root);
      StyledAppend(style, root, "", "", "\n");
      assert "" + "\n" == "\n";
      document := document + "\n";
      text := document;
    }

    /**
     * writeValue: in collecting mode it adds the text of an element that fits
     * on one line to childValues, otherwise it appends the value to the document.
     */
    method WriteValue(value: Value)
      requires Writable(value)
      requires if addChildValues then IsInline(value) else Ready()
      modifies this
      ensures indentString == old(indentString) && addChildValues == old(addChildValues)
      ensures if addChildValues
              then document == old(document) && childValues == old(childValues) + [InlineText(value)]
              else document == old(document) + StyledText(style, value, indentString, "")
      decreases value, 2
    {
      hide StyledText, InlineText, ScalarText;
      StyledTextOf(style, value, indentString);
      if value.Array? {
        WriteArrayValue(value);
      } else if value.Object? {
        if value.members == [] {
          InlineTextOf(value);
          PushValue("{}");
        } else {
          WriteObjectValue(value);
        }
      } else {
        var text := ScalarToString(value);
        InlineTextOf(value);
        PushValue(text);
      }
    }

    lemma InlineTextOf(value: Value)
      requires Writable(value) && IsInline(value)
      ensures InlineText(value) == if value.Array? then "[]" else if value.Object? then "{}" else ScalarText(value)
    {
    }

    method PushValue(text: string)
      modifies `document, `childValues
      ensures document == if addChildValues then old(document) else old(document) + text
      ensures childValues == if addChildValues then old(childValues) + [text] else old(childValues)
    {
      if addChildValues {
        childValues := childValues + [text];
      } else {
        document := document + text;
      }
    }

    method WriteIndent()
      modifies `document
      ensures Ends(old(document)) ==> document == old(document) + ("\n" + indentString)
      ensures old(Ready()) ==> document == old(document) + Lead(style, indentString)
    {
      if style.Styled? {
        if document != "" {
          var last := document[|document| - 1];
          if last == ' ' {
            assert document == document + "";
            return;
          }
          if last != '\n' {
            Assoc(document, "\n", indentString);
            document := document + "\n";
          }
        }
        document := document + indentString;
      } else {
        document := document + ("\n" + indentString);
      }
    }

    method WriteWithIndent(text: string)
      modifies `document
      ensures Ends(old(document)) ==> document == old(document) + ("\n" + indentString) + text
      ensures old(Ready()) ==> document == old(document) + Lead(style, indentString) + text
    {
      WriteIndent();
      document := document + text;
    }

    method Indent()
      modifies `indentString
      ensures indentString == old(indentString) + Unit(style)
    {
      indentString := indentString + Unit(style);
    }

    /** The assertion of unindent is the precondition. */
    method Unindent(ghost outer: string)
      requires indentString == outer + Unit(style)
      modifies `indentString
      ensures indentString == outer
    {
      indentString := indentString[..|indentString| - |Unit(style)|];
    }

    lemma EndsInIndent(before: string, outer: string)
      requires style.Styled?
      ensures EndsInSpace(before + ("\n" + (outer + Unit(style))))
    {
    }

    /** One member of an object, on a line of its own. */
    method WriteMember(members: seq<Member>, index: nat, ghost outer: string)
      requires index < |members| && forall i :: 0 <= i < |members| ==> Writable(members[i].value)
      requires indentString == outer + Unit(style) && !addChildValues && Ends(document)
      modifies this
      ensures indentString == old(indentString) && !addChildValues && Ends(document)
      ensures document + StyledMembers(style, members, index + 1, outer, "")
              == old(document) + StyledMembers(style, members, index, outer, "")
      decreases members, 0
    {
      hide StyledText, Quote, StyledMembers;
      StyledMemberRound(style, members, index, outer, document);
      if index > 0 {
        EndsAfter(document, ",");
        document := document + ",";
      }
      var name := ValueToQuotedString(members[index].name);
      WriteWithIndent(name);
      document := document + " : ";
      assert EndsInSpace(document);
      WriteValue(members[index].value);
      StyledTextEnds(style, members[index].value, indentString, "");
    }

    method WriteObjectValue(value: Value)
      requires Writable(value) && value.Object? && value.members != []
      requires !addChildValues && Ready()
      modifies this
      ensures indentString == old(indentString) && !addChildValues
      ensures document == old(document) + StyledText(style, value, indentString, "")
      decreases value, 1
    {
      hide StyledText, Quote, StyledMembers, IsMultiline;
      ghost var start, outer := document, indentString;
      StyledTextOf(style, value, outer);
      StyledEnd(style, value, outer);
      var members := value.members;
      WriteWithIndent("{");
      Assoc(start + Lead(style, outer), "{", StyledMembers(style, members, 0, outer, ""));
      Assoc(start, Lead(style, outer), "{" + StyledMembers(style, members, 0, outer, ""));
      EndsAfter(start + Lead(style, outer), "{");
      Indent();
      ghost var goal := start + StyledText(style, value, outer, "");
      for index := 0 to |members|
        invariant indentString == outer + Unit(style) && !addChildValues
        invariant Ends(document)
        invariant document + StyledMembers(style, members, index, outer, "") == goal
      {
        WriteMember(members, index, outer);
      }
      Unindent(outer);
      ghost var body := document;
      WriteWithIndent("}");
      Assoc(body, "\n" + outer, "}");
    }

    method WriteArrayValue(value: Value)
      requires Writable(value) && value.Array?
      requires if addChildValues then IsInline(value) else Ready()
      modifies this
      ensures indentString == old(indentString) && addChildValues == old(addChildValues)
      ensures if addChildValues
              then document == old(document) && childValues == old(childValues) + [InlineText(value)]
              else document == old(document) + StyledText(style, value, indentString, "")
      decreases value, 1
    {
      hide StyledText, InlineText;
      StyledTextOf(style, value, indentString);
      if value.items == [] {
        InlineTextOf(value);
        PushValue("[]");
      } else {
        var multiline := IsMultilineArray(value.items);
        if multiline {
          WriteLines(value);
        } else {
          WriteOneLine(value);
        }
      }
    }

    /** isMultineArray: decides the layout and collects the texts of the elements if it gets that far. */
    method IsMultilineArray(items: seq<Value>) returns (multiline: bool)
      requires items != [] && forall i :: 0 <= i < |items| ==> Writable(items[i])
      requires !addChildValues
      modifies this
      ensures document == old(document) && indentString == old(indentString) && !addChildValues
      ensures multiline == IsMultiline(items)
      ensures childValues == [] || HoldsChildren(items)
      ensures !multiline ==> HoldsChildren(items)
      decreases items, 0
    {
      hide InlineText, StyledText;
      multiline := |items| * 3 >= RIGHT_MARGIN;
      childValues := [];
      var index := 0;
      while index < |items| && !multiline
        invariant 0 <= index <= |items|
        invariant !multiline ==> |items| * 3 < RIGHT_MARGIN && forall i :: 0 <= i < index ==> IsInline(items[i])
        invariant multiline ==> |items| * 3 >= RIGHT_MARGIN || !AllInline(items)
      {
        multiline := (items[index].IsArray() || items[index].IsObject()) && items[index].Size() > 0;
        index := index + 1;
      }
      if !multiline {
        assert AllInline(items);
        addChildValues := true;
        var lineLength := 4 + (|items| - 1) * 2;
        for k := 0 to |items|
          invariant document == old(document) && indentString == old(indentString) && addChildValues
          invariant |childValues| == k && forall i :: 0 <= i < k ==> childValues[i] == InlineText(items[i])
          invariant lineLength + InlineLength(items, k) == 4 + (|items| - 1) * 2 + InlineLength(items, 0)
        {
          WriteValue(items[k]);
          lineLength := lineLength + |childValues[k]|;
        }
        addChildValues := false;
        multiline := lineLength >= RIGHT_MARGIN;
      }
    }

    /** The single-line branch of writeArrayValue, with its assertion on the child count. */
    method WriteOneLine(value: Value)
      requires Writable(value) && value.Array? && value.items != [] && !IsMultiline(value.items)
      requires HoldsChildren(value.items)
      modifies `document
      ensures document == old(document) + StyledText(style, value, indentString, "")
    {
      hide StyledText, InlineText, InlineItems, IsMultiline;
      var items := value.items;
      assert |childValues| == |items|;
      StyledTextOf(style, value, indentString);
      StyledEnd(style, value, indentString);
      document := document + "[ ";
      Assoc(old(document), "[ ", InlineItems(items, 0, ""));
      for index := 0 to |items|
        invariant document + InlineItems(items, index, "") == old(document) + StyledText(style, value, indentString, "")
      {
        InlineItemRound(items, index, document);
        if index > 0 {
          document := document + ", ";
        }
        document := document + childValues[index];
      }
      document := document + " ]";
    }

    /** One item of a multi-line array, on a line of its own. */
    method WriteLine(items: seq<Value>, index: nat, hasChildValue: bool, ghost outer: string)
      requires index < |items| && forall i :: 0 <= i < |items| ==> Writable(items[i])
      requires indentString == outer + Unit(style) && !addChildValues && Ends(document)
      requires hasChildValue ==> HoldsChildren(items)
      modifies this
      ensures indentString == old(indentString) && !addChildValues && Ends(document)
      ensures hasChildValue ==> HoldsChildren(items)
      ensures document + StyledItems(style, items, index + 1, outer, "")
              == old(document) + StyledItems(style, items, index, outer, "")
      decreases items, 0
    {
      hide StyledText, InlineText, StyledItems;
      StyledItemRound(style, items, index, outer, document);
      StyledTextEnds(style, items[index], indentString, "");
      if index > 0 {
        EndsAfter(document, ",");
        document := document + ",";
      }
      ghost var before := document;
      if hasChildValue {
        StyledTextOf(style, items[index], indentString);
        WriteWithIndent(childValues[index]);
      } else {
        WriteIndent();
        if style.Styled? {
          EndsInIndent(before, outer);
        }
        WriteValue(items[index]);
      }
    }

    /** The multi-line branch of writeArrayValue. */
    method WriteLines(value: Value)
      requires Writable(value) && value.Array? && value.items != [] && IsMultiline(value.items)
      requires childValues == [] || HoldsChildren(value.items)
      requires !addChildValues && Ready()
      modifies this
      ensures indentString == old(indentString) && !addChildValues
      ensures document == old(document) + StyledText(style, value, indentString, "")
      decreases value, 0
    {
      hide StyledText, InlineText, StyledItems, IsMultiline;
      ghost var start, outer := document, indentString;
      StyledTextOf(style, value, outer);
      StyledEnd(style, value, outer);
      var items := value.items;
      WriteWithIndent("[");
      Assoc(start + Lead(style, outer), "[", StyledItems(style, items, 0, outer, ""));
      Assoc(start, Lead(style, outer), "[" + StyledItems(style, items, 0, outer, ""));
      EndsAfter(start + Lead(style, outer), "[");
      Indent();
      var hasChildValue := childValues != [];
      ghost var goal := start + StyledText(style, value, outer, "");
      for index := 0 to |items|
        invariant indentString == outer + Unit(style) && !addChildValues
        invariant Ends(document)
        invariant hasChildValue ==> HoldsChildren(items)
        invariant document + StyledItems(style, items, index, outer, "") == goal
      {
        WriteLine(items, index, hasChildValue, outer);
      }
      Unindent(outer);
      ghost var body := document;
      WriteWithIndent("]");
      Assoc(body, "\n" + outer, "]");
    }
  }
}
