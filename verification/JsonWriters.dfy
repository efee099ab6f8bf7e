// FastWriter, StyledWriter and StyledStreamWriter with their mutable state.

module JsonWriters {
  import opened JsonValue
  import opened JsonDoubles
  import opened JsonNumbers
  import opened JsonStrings
  import opened JsonText

  /** valueToString and valueToQuotedString by type. */
  method ScalarToString(value: Value) returns (text: string)
    requires IsScalar(value) && Writable(value)
    ensures text == ScalarText(value)
  {
    match value
    case Null => text := "null";
    case Int(i) => text := IntToString(i);
    case UInt(u) => text := UIntToString(u);
    case Real(r) => text := DoubleToString(r);
    case Str(s) => text := ValueToQuotedString(s);
    case Bool(b) => text := if b then "true" else "false";
  }

  lemma Assoc(a: string, b: string, c: string)
    ensures (a + b) + c == a + (b + c)
  {
  }

  // ---- FastWriter ----

  lemma {:induction false} FastAppend(yaml: bool, v: Value, a: string, b: string)
    requires Writable(v)
    ensures FastText(yaml, v, a + b) == FastText(yaml, v, a) + b
    decreases v, 0
  {
    if v.Array? {
      FastItemsAppend(yaml, v.items, 0, a, b);
      Assoc("[", FastItems(yaml, v.items, 0, a), b);
    } else if v.Object? {
      FastMembersAppend(yaml, v.members, 0, a, b);
      Assoc("{", FastMembers(yaml, v.members, 0, a), b);
    } else {
      Assoc(ScalarText(v), a, b);
    }
  }

  lemma {:induction false} FastItemsAppend(yaml: bool, items: seq<Value>, k: nat, a: string, b: string)
    requires k <= |items| && forall i :: 0 <= i < |items| ==> Writable(items[i])
    ensures FastItems(yaml, items, k, a + b) == FastItems(yaml, items, k, a) + b
    decreases items, |items| - k
  {
    hide FastText;
    if k == |items| {
      Assoc("]", a, b);
    } else {
      FastItemsAppend(yaml, items, k + 1, a, b);
      FastAppend(yaml, items[k], FastItems(yaml, items, k + 1, a), b);
      Assoc(Comma(k), FastText(yaml, items[k], FastItems(yaml, items, k + 1, a)), b);
    }
  }

  lemma {:induction false} FastMembersAppend(yaml: bool, members: seq<Member>, k: nat, a: string, b: string)
    requires k <= |members| && forall i :: 0 <= i < |members| ==> Writable(members[i].value)
    ensures FastMembers(yaml, members, k, a + b) == FastMembers(yaml, members, k, a) + b
    decreases members, |members| - k
  {
    hide FastText, Quote;
    if k == |members| {
      Assoc("}", a, b);
    } else {
      FastMembersAppend(yaml, members, k + 1, a, b);
      FastAppend(yaml, members[k].value, FastMembers(yaml, members, k + 1, a), b);
      var text := FastText(yaml, members[k].value, FastMembers(yaml, members, k + 1, a));
      Assoc(FastColon(yaml), text, b);
      Assoc(Quote(members[k].name), FastColon(yaml) + text, b);
      Assoc(Comma(k), Quote(members[k].name) + (FastColon(yaml) + text), b);
    }
  }

  class FastWriter {
    var document: string
    var yamlCompatibilityEnabled: bool

    constructor ()
      ensures !yamlCompatibilityEnabled
    {
      document := "";
      yamlCompatibilityEnabled := false;
    }

    method EnableYAMLCompatibility()
      modifies `yamlCompatibilityEnabled
      ensures yamlCompatibilityEnabled
    {
      yamlCompatibilityEnabled := true;
    }

    method Write(root: Value) returns (text: string)
      requires Writable(root)
      modifies `document
      ensures text == document == FastText(yamlCompatibilityEnabled, root, "\n")
    {
      hide FastText, Writable;
      document := "";
      WriteValue(root);
      FastAppend(yamlCompatibilityEnabled, root, "", "\n");
      assert "" + "\n" == "\n";
      document := document + "\n";
      text := document;
    }

    method WriteValue(value: Value)
      requires Writable(value)
      modifies `document
      ensures document == old(document) + FastText(yamlCompatibilityEnabled, value, "")
      decreases value
    {
      hide ScalarText, FastText, FastItems, FastMembers, Quote;
      ghost var yaml := yamlCompatibilityEnabled;
      FastTextOf(yaml, value);
      if value.Array? {
        var items := value.items;
        document := document + "[";
        Assoc(old(document), "[", FastItems(yaml, items, 0, ""));
        for index := 0 to |items|
          invariant document + FastItems(yaml, items, index, "") == old(document) + FastText(yaml, value, "")
        {
          FastItemRound(yaml, items, index, document);
          if index > 0 {
            document := document + ",";
          }
          WriteValue(items[index]);
        }
        FastItemsEnd(yaml, items);
        document := document + "]";
      } else if value.Object? {
        var members := value.members;
        document := document + "{";
        Assoc(old(document), "{", FastMembers(yaml, members, 0, ""));
        for index := 0 to |members|
          invariant document + FastMembers(yaml, members, index, "") == old(document) + FastText(yaml, value, "")
        {
          FastMemberRound(yaml, members, index, document);
          if index > 0 {
            document := document + ",";
          }
          var name := ValueToQuotedString(members[index].name);
          document := document + name;
          document := document + (if yamlCompatibilityEnabled then ": " else ":");
          WriteValue(members[index].value);
        }
        FastMembersEnd(yaml, members);
        document := document + "}";
      } else {
        var text := ScalarToString(value);
        document := document + text;
      }
    }
  }

  lemma FastItemRound(yaml: bool, items: seq<Value>, k: nat, before: string)
    requires k < |items| && forall i :: 0 <= i < |items| ==> Writable(items[i])
    ensures var comma := if k > 0 then before + "," else before;
            comma + FastText(yaml, items[k], "") + FastItems(yaml, items, k + 1, "") == before + FastItems(yaml, items, k, "")
  {
    hide FastText;
    var tail := FastItems(yaml, items, k + 1, "");
    assert "" + tail == tail;
    FastAppend(yaml, items[k], "", tail);
    Assoc(before, Comma(k), FastText(yaml, items[k], "") + tail);
    Assoc(before + Comma(k), FastText(yaml, items[k], ""), tail);
    assert before + "" == before;
  }

  lemma FastMemberRound(yaml: bool, members: seq<Member>, k: nat, before: string)
    requires k < |members| && forall i :: 0 <= i < |members| ==> Writable(members[i].value)
    ensures var comma := if k > 0 then before + "," else before;
            comma + Quote(members[k].name) + FastColon(yaml) + FastText(yaml, members[k].value, "")
              + FastMembers(yaml, members, k + 1, "") == before + FastMembers(yaml, members, k, "")
  {
    hide FastText, Quote, FastColon;
    var tail := FastMembers(yaml, members, k + 1, "");
    var value := FastText(yaml, members[k].value, "");
    assert "" + tail == tail;
    FastAppend(yaml, members[k].value, "", tail);
    var comma, quoted, colon := Comma(k), Quote(members[k].name), FastColon(yaml);
    Assoc(before, comma, quoted + (colon + (value + tail)));
    Assoc(before + comma, quoted, colon + (value + tail));
    Assoc(before + comma + quoted, colon, value + tail);
    Assoc(before + comma + quoted + colon, value, tail);
    assert before + "" == before;
  }

  lemma FastItemsEnd(yaml: bool, items: seq<Value>)
    requires forall i :: 0 <= i < |items| ==> Writable(items[i])
    ensures FastItems(yaml, items, |items|, "") == "]"
  {
  }

  lemma FastMembersEnd(yaml: bool, members: seq<Member>)
    requires forall i :: 0 <= i < |members| ==> Writable(members[i].value)
    ensures FastMembers(yaml, members, |members|, "") == "}"
  {
  }

  lemma FastTextOf(yaml: bool, v: Value)
    requires Writable(v)
    ensures v.Array? ==> FastText(yaml, v, "") == "[" + FastItems(yaml, v.items, 0, "")
    ensures v.Object? ==> FastText(yaml, v, "") == "{" + FastMembers(yaml, v.members, 0, "")
    ensures IsScalar(v) ==> FastText(yaml, v, "") == ScalarText(v)
  {
  }
}
