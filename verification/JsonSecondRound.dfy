// A parsed document can be written and parsed again without change.

module JsonSecondRound {
  import opened CStrings
  import opened JsonValue
  import opened JsonDoubles
  import opened JsonNumbers
  import opened JsonStrings
  import opened JsonTokens
  import opened JsonParse
  import opened JsonParseFacts
  import opened JsonText
  import opened JsonLexing
  import opened JsonRoundTrip

  /** Integers as decodeNumber leaves them: within its range, and UInt only above maxInt. */
  predicate Settled(v: Value) {
    match v
    case Int(i) => -2147483639 <= i <= MAX_INT
    case UInt(u) => MAX_INT < u <= 4294967289
    case Array(items) => forall k :: 0 <= k < |items| ==> Settled(items[k])
    case Object(members) => forall k :: 0 <= k < |members| ==> Settled(members[k].value)
    case _ => true
  }

  /** Every double in v is printed as a number from which sscanf reads that double. */
  predicate DoublesComeBack(f: Features, v: Value) {
    match v
    case Real(r) => DoubleForm(SPRINTF(r)) && f.scanDouble(DoubleText(r)) == Some(r)
    case Array(items) => forall k :: 0 <= k < |items| ==> DoublesComeBack(f, items[k])
    case Object(members) => forall k :: 0 <= k < |members| ==> DoublesComeBack(f, members[k].value)
    case _ => true
  }

  // ---- parsed values are settled ----

  lemma {:induction false} AccumulateSettled(negative: bool, unread: string, value: nat)
    requires value < 10 * Threshold(negative)
    ensures Accumulate(negative, unread, value).Integer? ==> Settled(Accumulate(negative, unread, value).value)
  {
    if unread != "" && IsDigit(unread[0]) && value < Threshold(negative) {
      AccumulateSettled(negative, unread[1..], value * 10 + (unread[0] - '0') as nat);
    }
  }

  lemma {:induction false} ValueSettled(f: Features, n: nat, s: string, previous: Value)
    requires ReadValue(f, n, s, previous).ok
    ensures Settled(ReadValue(f, n, s, previous).value)
    decreases |s|, 1
  {
    hide IsSuffix, ReadToken, ReadPastComments, DecodeBody, ReadArray, ReadMembers, Negative, Magnitude, Accumulate;
    var t := SkipCommentTokens(f, s);
    if t.kind.ObjectBegin? {
      MembersSettled(f, n, t.rest, "", []);
    } else if t.kind.ArrayBegin? {
      ArraySettled(f, n, t.rest);
    } else if t.kind.NumberToken? {
      AccumulateSettled(Negative(t.Text()), Magnitude(t.Text()), 0);
    }
  }

  lemma {:induction false} ArraySettled(f: Features, n: nat, s: string)
    requires ReadArray(f, n, s).ok
    ensures Settled(ReadArray(f, n, s).value)
    decreases |s|, 3
  {
    hide IsSuffix, ReadToken, ReadItems;
    if At(SkipSpaces(s), 0) != ']' {
      ItemsSettled(f, n, SkipSpaces(s), []);
    }
  }

  lemma {:induction false} ItemsSettled(f: Features, n: nat, s: string, items: seq<Value>)
    requires ReadItems(f, n, s, items).ok && forall k :: 0 <= k < |items| ==> Settled(items[k])
    ensures Settled(ReadItems(f, n, s, items).value)
    decreases |s|, 2
  {
    hide IsSuffix, ReadToken, ReadPastComments, Recover, ReadValue;
    ValueSettled(f, n, s, Null);
    var item := ReadValue(f, n, s, Null);
    var t := ReadPastComments(item.rest);
    if !t.kind.ArrayEnd? {
      ItemsSettled(f, n, t.rest, items + [item.value]);
    }
  }

  lemma {:induction false} MembersSettled(f: Features, n: nat, s: string, name: string, members: seq<Member>)
    requires ReadMembers(f, n, s, name, members).ok && Settled(Object(members))
    ensures Settled(ReadMembers(f, n, s, name, members).value)
    decreases |s|, 3
  {
    hide IsSuffix, ReadHeader, ReadMemberValue;
    var h := ReadHeader(n, s, name);
    if h.Named? {
      MemberSettled(f, n, h.rest, h.name, members);
    }
  }

  lemma {:induction false} MemberSettled(f: Features, n: nat, s: string, name: string, members: seq<Member>)
    requires ReadMemberValue(f, n, s, name, members).ok && Settled(Object(members))
    ensures Settled(ReadMemberValue(f, n, s, name, members).value)
    decreases |s|, 2
  {
    hide IsSuffix, ReadTrailer, Recover, ReadValue, Put, CStr, Slot, ReadMembers, Settled;
    var key := CStr(name);
    ValueSettled(f, n, s, Slot(members, key));
    var member := ReadValue(f, n, s, Slot(members, key));
    PutSettled(members, key, member.value);
    if ReadTrailer(n, member.rest).More? {
      MembersSettled(f, n, ReadTrailer(n, member.rest).rest, name, Put(members, key, member.value));
    }
  }

  lemma PutSettled(members: seq<Member>, name: string, value: Value)
    requires Settled(Object(members)) && Settled(value)
    ensures Settled(Object(Put(members, name, value)))
  {
    PutMembers(members, name, value);
    hide Put;
    var r := Put(members, name, value);
    forall k | 0 <= k < |r| ensures Settled(r[k].value) {
      assert r[k] in r;
    }
  }

  lemma {:induction false} PutMembers(members: seq<Member>, name: string, value: Value)
    ensures forall m :: m in Put(members, name, value) ==> m in members || m == Member(name, value)
  {
    hide StrLess;
    if members != [] {
      PutMembers(members[1..], name, value);
    }
  }

  // ---- settled values come back ----

  lemma {:induction false} SettledComesBack(f: Features, v: Value)
    requires Settled(v) && DoublesComeBack(f, v)
    ensures Writable(v) && InRange(f, v) && Norm(v) == v
    decreases v, 0
  {
    match v
    case Array(items) =>
      forall k | 0 <= k < |items| ensures Writable(items[k]) && InRange(f, items[k]) && Norm(items[k]) == items[k] {
        SettledComesBack(f, items[k]);
      }
      ItemsUnchanged(items, 0);
    case Object(members) =>
      forall k | 0 <= k < |members|
        ensures Writable(members[k].value) && InRange(f, members[k].value) && Norm(members[k].value) == members[k].value
      {
        SettledComesBack(f, members[k].value);
      }
      MembersUnchanged(members, 0);
    case _ =>
  }

  lemma {:induction false} ItemsUnchanged(items: seq<Value>, k: nat)
    requires k <= |items| && forall i :: 0 <= i < |items| ==> Norm(items[i]) == items[i]
    ensures NormItems(items, k) == items[k..]
    decreases |items| - k
  {
    hide Norm;
    if k < |items| {
      ItemsUnchanged(items, k + 1);
    }
  }

  lemma {:induction false} MembersUnchanged(members: seq<Member>, k: nat)
    requires k <= |members| && forall i :: 0 <= i < |members| ==> Norm(members[i].value) == members[i].value
    ensures NormMembers(members, k) == members[k..]
    decreases |members| - k
  {
    hide Norm;
    if k < |members| {
      MembersUnchanged(members, k + 1);
    }
  }

  /** A successfully parsed value, and why it can be read back. */
  lemma ParsedComesBack(f: Features, document: string, root: Value)
    requires WellFormed(root) && Parse(f, document, root).ok && DoublesComeBack(f, Parse(f, document, root).value)
    ensures var v := Parse(f, document, root).value;
            && Writable(v) && WellFormed(v) && InRange(f, v) && Norm(v) == v
            && (f.strictRoot ==> v.IsArray() || v.IsObject())
  {
    ParseWellFormed(f, document, root);
    hide ReadValue, SkipCommentTokens, IsSuffix, WellFormed, Settled, DoublesComeBack, Norm, InRange, Writable;
    ValueSettled(f, |document|, document, root);
    SettledComesBack(f, Parse(f, document, root).value);
  }

  /**
   * Whatever document was parsed: if parsing succeeded and the doubles it gave
   * come back, the fast and the styled text of the value parse to exactly that
   * value.
   */
  lemma SecondRound(f: Features, document: string, root: Value, yaml: bool, style: Style, root': Value)
    requires WellFormed(root) && Indentation(style)
    requires Parse(f, document, root).ok && DoublesComeBack(f, Parse(f, document, root).value)
    ensures var v := Parse(f, document, root).value;
            && Writable(v)
            && var fast := Parse(f, FastText(yaml, v, "\n"), root');
            var styled := Parse(f, StyledText(style, v, "", "\n"), root');
            fast.ok && fast.value == v && styled.ok && styled.value == v
  {
    ParsedComesBack(f, document, root);
    hide Parse, WellFormed, DoublesComeBack, Norm, InRange, Writable, FastText, StyledText;
    var v := Parse(f, document, root).value;
    FastRoundTrip(f, yaml, v, root');
    StyledRoundTrip(f, style, v, root');
  }
}
