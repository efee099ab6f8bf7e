// Json::Value: the recursive value type, its map operations and its ordering.

module JsonValue {
  import opened CStrings

  datatype Member = Member(name: string, value: Value)

  /**
   * Arrays are dense: entry i of the index-keyed std::map is items[i]. Objects
   * are the entries of the name-keyed std::map in iteration order, that is
   * sorted by strcmp. Real holds a finite double.
   */
  datatype Value =
    | Null
    | Int(i: int)
    | UInt(u: int)
    | Real(r: real)
    | Str(s: string)
    | Bool(b: bool)
    | Array(items: seq<Value>)
    | Object(members: seq<Member>)
  {
    function Size(): nat {
      match this
      case Array(items) => |items|
      case Object(members) => |members|
      case _ => 0
    }

    // True for null too, as in the source.
    predicate IsArray() { Null? || Array? }
    predicate IsObject() { Null? || Object? }
  }

  const MIN_INT := -0x8000_0000
  const MAX_INT := 0x7fff_ffff
  const MAX_UINT := 0xffff_ffff

  /** What the representation of a Value guarantees at every level. */
  predicate WellFormed(v: Value) {
    match v
    case Int(i) => MIN_INT <= i <= MAX_INT
    case UInt(u) => 0 <= u <= MAX_UINT
    case Str(s) => NulFree(s)
    case Array(items) => forall k :: 0 <= k < |items| ==> WellFormed(items[k])
    case Object(members) =>
      Sorted(members) && forall k :: 0 <= k < |members| ==> NulFree(members[k].name) && WellFormed(members[k].value)
    case _ => true
  }

  predicate Sorted(members: seq<Member>) {
    forall i, j :: 0 <= i < j < |members| ==> StrLess(members[i].name, members[j].name)
  }

  // ---- std::map lookup and insertion by name ----

  function Find(members: seq<Member>, name: string): Option<Value> {
    if members == [] then None
    else if members[0].name == name then Some(members[0].value)
    else Find(members[1..], name)
  }

  /** operator[] on a name: the existing value, or the null just inserted. */
  function Slot(members: seq<Member>, name: string): Value {
    match Find(members, name)
    case None => Null
    case Some(value) => value
  }

  /** Store value under name, keeping the entries in strcmp order. */
  function Put(members: seq<Member>, name: string, value: Value): (r: seq<Member>)
    ensures r != []
  {
    if members == [] || StrLess(name, members[0].name) then [Member(name, value)] + members
    else if members[0].name == name then [Member(name, value)] + members[1..]
    else [members[0]] + Put(members[1..], name, value)
  }

  lemma {:induction false} PutKeepsSorted(members: seq<Member>, name: string, value: Value)
    requires Sorted(members)
    ensures Sorted(Put(members, name, value))
    ensures forall m :: m in Put(members, name, value) ==> m == Member(name, value) || m in members
    ensures forall m :: m in members && m.name != name ==> m in Put(members, name, value)
    ensures Member(name, value) in Put(members, name, value)
  {
    if members != [] {
      var h, t := members[0], members[1..];
      StrLessTrichotomy(name, h.name);
      if StrLess(name, h.name) {
        forall j | 0 <= j < |members| ensures StrLess(name, members[j].name) {
          if j > 0 { StrLessTransitive(name, h.name, members[j].name); }
        }
      } else if h.name != name {
        PutKeepsSorted(t, name, value);
        var r := Put(t, name, value);
        forall j | 0 <= j < |r| ensures StrLess(h.name, r[j].name) {
          if r[j] != Member(name, value) {
            assert r[j] in t;
            var k :| 0 <= k < |t| && t[k] == r[j];
            assert members[k + 1] == t[k];
          }
        }
        forall m | m in members && m.name != name ensures m in [h] + r {
          if m != h { assert m in t; }
        }
      }
    }
  }

  lemma {:induction false} FindAfterPut(members: seq<Member>, name: string, value: Value, other: string)
    requires Sorted(members)
    ensures Find(Put(members, name, value), other) == if other == name then Some(value) else Find(members, other)
  {
    if members != [] && !StrLess(name, members[0].name) && members[0].name != name {
      FindAfterPut(members[1..], name, value, other);
    } else if members != [] && StrLess(name, members[0].name) {
      assert ([Member(name, value)] + members)[1..] == members;
    }
  }

  /** Inserting a name above every other one appends. */
  lemma {:induction false} PutLast(members: seq<Member>, name: string, value: Value)
    requires forall k :: 0 <= k < |members| ==> StrLess(members[k].name, name)
    ensures Put(members, name, value) == members + [Member(name, value)]
    ensures Find(members, name) == None
  {
    if members != [] {
      StrLessTrichotomy(members[0].name, name);
      PutLast(members[1..], name, value);
      assert members == [members[0]] + members[1..];
    }
  }

  /** Two stores under one name: the second wins. */
  lemma {:induction false} PutTwice(members: seq<Member>, name: string, a: Value, b: Value)
    ensures Put(Put(members, name, a), name, b) == Put(members, name, b)
    ensures Find(Put(members, name, a), name) == Some(a)
  {
    StrLessTrichotomy(name, name);
    if members == [] || StrLess(name, members[0].name) {
      assert ([Member(name, a)] + members)[1..] == members;
    } else if members[0].name == name {
      assert ([Member(name, a)] + members[1..])[1..] == members[1..];
    } else {
      PutTwice(members[1..], name, a, b);
      var t := Put(members[1..], name, a);
      assert ([members[0]] + t)[1..] == t;
    }
  }

  lemma {:induction false} PutSame(members: seq<Member>, name: string)
    requires Sorted(members) && Find(members, name).Some?
    ensures Put(members, name, Slot(members, name)) == members
  {
    StrLessTrichotomy(name, members[0].name);
    if members[0].name == name {
      assert members == [members[0]] + members[1..];
    } else {
      PutSame(members[1..], name);
      if StrLess(name, members[0].name) {
        forall k | 0 <= k < |members| ensures members[k].name != name {
          StrLessTrichotomy(name, members[k].name);
          if k > 0 { StrLessTransitive(name, members[0].name, members[k].name); }
        }
        FindAbove(members, name);
      }
      assert members == [members[0]] + members[1..];
    }
  }

  lemma {:induction false} FindAbove(members: seq<Member>, name: string)
    requires forall k :: 0 <= k < |members| ==> members[k].name != name
    ensures Find(members, name) == None
  {
    if members != [] {
      FindAbove(members[1..], name);
    }
  }

  // ---- operator< and operator== ----

  /** The position of the type in the ValueType enumeration. */
  function Rank(v: Value): nat {
    match v
    case Null => 0
    case Int(_) => 1
    case UInt(_) => 2
    case Real(_) => 3
    case Str(_) => 4
    case Bool(_) => 5
    case Array(_) => 6
    case Object(_) => 7
  }

  // Termination measures: the comparisons swap their arguments as they recurse.
  ghost function Weight(v: Value): (w: nat)
    ensures w > 0
    decreases v, 0
  {
    match v
    case Array(items) => 1 + ItemsWeight(items)
    case Object(members) => 1 + MembersWeight(members)
    case _ => 1
  }

  ghost function ItemsWeight(xs: seq<Value>): nat
    decreases xs, 0
  {
    if xs == [] then 0 else Weight(xs[0]) + ItemsWeight(xs[1..])
  }

  ghost function MembersWeight(xs: seq<Member>): nat
    decreases xs, 0
  {
    if xs == [] then 0 else Weight(xs[0].value) + MembersWeight(xs[1..])
  }

  /** Value::operator<. */
  predicate Less(a: Value, b: Value)
    decreases Weight(a) + Weight(b), 0
  {
    if Rank(a) != Rank(b) then Rank(a) < Rank(b) else
    match a
    case Null => false
    case Int(i) => i < b.i
    case UInt(u) => u < b.u
    case Real(r) => r < b.r
    case Bool(x) => !x && b.b
    case Str(s) => StrLess(s, b.s)
    case Array(items) =>
      if |items| != |b.items| then |items| < |b.items| else LessItems(items, b.items)
    case Object(members) =>
      if |members| != |b.members| then |members| < |b.members| else LessMembers(members, b.members)
  }

  /** std::lexicographical_compare over array entries; their indices agree. */
  predicate LessItems(xs: seq<Value>, ys: seq<Value>)
    decreases ItemsWeight(xs) + ItemsWeight(ys), 1
  {
    if ys == [] then false
    else if xs == [] then true
    else if Less(xs[0], ys[0]) then true
    else if Less(ys[0], xs[0]) then false
    else LessItems(xs[1..], ys[1..])
  }

  /** std::lexicographical_compare over name/value pairs. */
  predicate LessMembers(xs: seq<Member>, ys: seq<Member>)
    decreases MembersWeight(xs) + MembersWeight(ys), 1
  {
    if ys == [] then false
    else if xs == [] then true
    else if StrLess(xs[0].name, ys[0].name) || (!StrLess(ys[0].name, xs[0].name) && Less(xs[0].value, ys[0].value)) then true
    else if StrLess(ys[0].name, xs[0].name) || (!StrLess(xs[0].name, ys[0].name) && Less(ys[0].value, xs[0].value)) then false
    else LessMembers(xs[1..], ys[1..])
  }

  /** Value::operator==. */
  predicate Equal(a: Value, b: Value)
    decreases a, 0
  {
    Rank(a) == Rank(b) &&
    match a
    case Null => true
    case Int(i) => i == b.i
    case UInt(u) => u == b.u
    case Real(r) => r == b.r
    case Bool(x) => x == b.b
    case Str(s) => !StrLess(s, b.s) && !StrLess(b.s, s)
    case Array(items) => |items| == |b.items| && EqualItems(items, b.items)
    case Object(members) => |members| == |b.members| && EqualMembers(members, b.members)
  }

  predicate EqualItems(xs: seq<Value>, ys: seq<Value>)
    requires |xs| == |ys|
    decreases xs, 0
  {
    xs == [] || (Equal(xs[0], ys[0]) && EqualItems(xs[1..], ys[1..]))
  }

  predicate EqualMembers(xs: seq<Member>, ys: seq<Member>)
    requires |xs| == |ys|
    decreases xs, 0
  {
    xs == [] ||
    (xs[0].name == ys[0].name && Equal(xs[0].value, ys[0].value) && EqualMembers(xs[1..], ys[1..]))
  }

  /** operator== is equality of the represented values. */
  lemma {:induction false} EqualIsEquality(a: Value, b: Value)
    ensures Equal(a, b) <==> a == b
    decreases a, 0
  {
    match a
    case Str(s) => if b.Str? { StrLessTrichotomy(s, b.s); }
    case Array(items) => if b.Array? && |items| == |b.items| { EqualItemsIsEquality(items, b.items); }
    case Object(members) => if b.Object? && |members| == |b.members| { EqualMembersIsEquality(members, b.members); }
    case _ =>
  }

  lemma {:induction false} EqualItemsIsEquality(xs: seq<Value>, ys: seq<Value>)
    requires |xs| == |ys|
    ensures EqualItems(xs, ys) <==> xs == ys
    decreases xs, 0
  {
    if xs != [] {
      assert xs == [xs[0]] + xs[1..] && ys == [ys[0]] + ys[1..];
      EqualIsEquality(xs[0], ys[0]);
      EqualItemsIsEquality(xs[1..], ys[1..]);
    }
  }

  lemma {:induction false} EqualMembersIsEquality(xs: seq<Member>, ys: seq<Member>)
    requires |xs| == |ys|
    ensures EqualMembers(xs, ys) <==> xs == ys
    decreases xs, 0
  {
    if xs != [] {
      assert xs == [xs[0]] + xs[1..] && ys == [ys[0]] + ys[1..];
      EqualIsEquality(xs[0].value, ys[0].value);
      EqualMembersIsEquality(xs[1..], ys[1..]);
    }
  }

  /** Exactly one of a < b, a == b, b < a. */
  lemma {:induction false} LessTrichotomy(a: Value, b: Value)
    ensures Equal(a, b) <==> !Less(a, b) && !Less(b, a)
    ensures !(Less(a, b) && Less(b, a))
    decreases a, 0
  {
    EqualIsEquality(a, b);
    if Rank(a) == Rank(b) {
      match a
      case Str(s) => StrLessTrichotomy(s, b.s);
      case Array(items) => if |items| == |b.items| { ItemsTrichotomy(items, b.items); }
      case Object(members) => if |members| == |b.members| { MembersTrichotomy(members, b.members); }
      case _ =>
    }
  }

  lemma {:induction false} ItemsTrichotomy(xs: seq<Value>, ys: seq<Value>)
    requires |xs| == |ys|
    ensures xs == ys <==> !LessItems(xs, ys) && !LessItems(ys, xs)
    ensures !(LessItems(xs, ys) && LessItems(ys, xs))
    decreases xs, 0
  {
    if xs != [] {
      assert xs == [xs[0]] + xs[1..] && ys == [ys[0]] + ys[1..];
      LessTrichotomy(xs[0], ys[0]);
      EqualIsEquality(xs[0], ys[0]);
      ItemsTrichotomy(xs[1..], ys[1..]);
    }
  }

  lemma {:induction false} MembersTrichotomy(xs: seq<Member>, ys: seq<Member>)
    requires |xs| == |ys|
    ensures xs == ys <==> !LessMembers(xs, ys) && !LessMembers(ys, xs)
    ensures !(LessMembers(xs, ys) && LessMembers(ys, xs))
    decreases xs, 0
  {
    if xs != [] {
      assert xs == [xs[0]] + xs[1..] && ys == [ys[0]] + ys[1..];
      StrLessTrichotomy(xs[0].name, ys[0].name);
      LessTrichotomy(xs[0].value, ys[0].value);
      EqualIsEquality(xs[0].value, ys[0].value);
      MembersTrichotomy(xs[1..], ys[1..]);
    }
  }

  lemma {:induction false} LessTransitive(a: Value, b: Value, c: Value)
    requires Less(a, b) && Less(b, c)
    ensures Less(a, c)
    decreases a, 0
  {
    if Rank(a) == Rank(b) == Rank(c) {
      match a
      case Str(s) => StrLessTransitive(s, b.s, c.s);
      case Array(items) => if |items| == |b.items| == |c.items| { ItemsTransitive(items, b.items, c.items); }
      case Object(members) => if |members| == |b.members| == |c.members| { MembersTransitive(members, b.members, c.members); }
      case _ =>
    }
  }

  lemma {:induction false} ItemsTransitive(xs: seq<Value>, ys: seq<Value>, zs: seq<Value>)
    requires |xs| == |ys| == |zs| && LessItems(xs, ys) && LessItems(ys, zs)
    ensures LessItems(xs, zs)
    decreases xs, 0
  {
    var x, y, z := xs[0], ys[0], zs[0];
    Comparable(x, y);
    Comparable(y, z);
    Comparable(x, z);
    if Less(x, y) && Less(y, z) {
      LessTransitive(x, y, z);
    } else if x == y == z {
      ItemsTransitive(xs[1..], ys[1..], zs[1..]);
    }
  }

  lemma {:induction false} MembersTransitive(xs: seq<Member>, ys: seq<Member>, zs: seq<Member>)
    requires |xs| == |ys| == |zs| && LessMembers(xs, ys) && LessMembers(ys, zs)
    ensures LessMembers(xs, zs)
    decreases xs, 0
  {
    var x, y, z := xs[0], ys[0], zs[0];
    StrLessTrichotomy(x.name, y.name);
    StrLessTrichotomy(y.name, z.name);
    StrLessTrichotomy(x.name, z.name);
    Comparable(x.value, y.value);
    Comparable(y.value, z.value);
    Comparable(x.value, z.value);
    if StrLess(x.name, y.name) && StrLess(y.name, z.name) {
      StrLessTransitive(x.name, y.name, z.name);
    }
    if Less(x.value, y.value) && Less(y.value, z.value) {
      LessTransitive(x.value, y.value, z.value);
    } else if x.value == y.value == z.value && x.name == y.name == z.name {
      MembersTransitive(xs[1..], ys[1..], zs[1..]);
    }
  }

  lemma Comparable(a: Value, b: Value)
    ensures a == b <==> !Less(a, b) && !Less(b, a)
    ensures !(Less(a, b) && Less(b, a))
  {
    LessTrichotomy(a, b);
    EqualIsEquality(a, b);
  }

  // ---- which order it is ----

  /** The kinds in ascending order. */
  lemma KindsAscend(i: int, u: int, r: real, s: string, b: bool, xs: seq<Value>, ms: seq<Member>)
    ensures Less(Null, Int(i)) && Less(Int(i), UInt(u)) && Less(UInt(u), Real(r)) && Less(Real(r), Str(s))
    ensures Less(Str(s), Bool(b)) && Less(Bool(b), Array(xs)) && Less(Array(xs), Object(ms))
  {
  }

  /** Some place at which two lists of values differ first, and the order there. */
  predicate FirstLess(xs: seq<Value>, ys: seq<Value>)
    requires |xs| == |ys|
  {
    exists k :: 0 <= k < |xs| && xs[..k] == ys[..k] && Less(xs[k], ys[k])
  }

  /** Members go by name first, then by value. */
  predicate MemberLess(x: Member, y: Member) {
    StrLess(x.name, y.name) || (x.name == y.name && Less(x.value, y.value))
  }

  predicate FirstMemberLess(xs: seq<Member>, ys: seq<Member>)
    requires |xs| == |ys|
  {
    exists k :: 0 <= k < |xs| && xs[..k] == ys[..k] && MemberLess(xs[k], ys[k])
  }

  /** The order within each kind: arrays and objects go by size first, then by the first difference. */
  lemma LessWithinKind(a: Value, b: Value)
    ensures a.Int? && b.Int? ==> (Less(a, b) <==> a.i < b.i)
    ensures a.UInt? && b.UInt? ==> (Less(a, b) <==> a.u < b.u)
    ensures a.Real? && b.Real? ==> (Less(a, b) <==> a.r < b.r)
    ensures a.Str? && b.Str? ==> (Less(a, b) <==> StrLess(a.s, b.s))
    ensures a.Bool? && b.Bool? ==> (Less(a, b) <==> a == Bool(false) && b == Bool(true))
    ensures a.Array? && b.Array? ==>
              (Less(a, b) <==> |a.items| < |b.items| || (|a.items| == |b.items| && FirstLess(a.items, b.items)))
    ensures a.Object? && b.Object? ==>
              (Less(a, b) <==> |a.members| < |b.members|
                               || (|a.members| == |b.members| && FirstMemberLess(a.members, b.members)))
  {
    hide FirstLess, FirstMemberLess;
    if a.Array? && b.Array? && |a.items| == |b.items| {
      LessItemsMeaning(a.items, b.items);
    }
    if a.Object? && b.Object? && |a.members| == |b.members| {
      LessMembersMeaning(a.members, b.members);
    }
  }

  lemma {:induction false} LessItemsMeaning(xs: seq<Value>, ys: seq<Value>)
    requires |xs| == |ys|
    ensures LessItems(xs, ys) <==> FirstLess(xs, ys)
    decreases xs
  {
    if xs != [] {
      var s, t := xs[1..], ys[1..];
      assert xs == [xs[0]] + s && ys == [ys[0]] + t;
      LessTrichotomy(xs[0], ys[0]);
      EqualIsEquality(xs[0], ys[0]);
      LessItemsMeaning(s, t);
      hide Less, Equal, LessItems;
      if Less(xs[0], ys[0]) {
        assert xs[..0] == ys[..0];
      } else if k :| 0 <= k < |xs| && xs[..k] == ys[..k] && Less(xs[k], ys[k]) {
        assert k > 0 && xs[..k][0] == xs[0] && ys[..k][0] == ys[0];
        assert s[..k - 1] == xs[..k][1..] && t[..k - 1] == ys[..k][1..];
        assert Less(s[k - 1], t[k - 1]);
      }
      if xs[0] == ys[0] && FirstLess(s, t) {
        var k :| 0 <= k < |s| && s[..k] == t[..k] && Less(s[k], t[k]);
        assert xs[..k + 1] == [xs[0]] + s[..k] && ys[..k + 1] == [ys[0]] + t[..k];
        assert Less(xs[k + 1], ys[k + 1]);
      }
    }
  }

  lemma MemberTrichotomy(x: Member, y: Member)
    ensures x == y <==> !MemberLess(x, y) && !MemberLess(y, x)
    ensures !(MemberLess(x, y) && MemberLess(y, x))
  {
    hide Less, Equal, StrLess;
    StrLessTrichotomy(x.name, y.name);
    LessTrichotomy(x.value, y.value);
    EqualIsEquality(x.value, y.value);
  }

  lemma FirstMember(xs: seq<Member>, ys: seq<Member>)
    requires |xs| == |ys| > 0
    ensures LessMembers(xs, ys) <==> MemberLess(xs[0], ys[0]) || (xs[0] == ys[0] && LessMembers(xs[1..], ys[1..]))
  {
    hide Less, StrLess;
    StrLessTrichotomy(xs[0].name, ys[0].name);
    MemberTrichotomy(xs[0], ys[0]);
  }

  lemma DifferBehind(xs: seq<Member>, ys: seq<Member>)
    requires |xs| == |ys| > 0 && xs[0] == ys[0] && FirstMemberLess(xs[1..], ys[1..])
    ensures FirstMemberLess(xs, ys)
  {
    hide MemberLess;
    var s, t := xs[1..], ys[1..];
    var k :| 0 <= k < |s| && s[..k] == t[..k] && MemberLess(s[k], t[k]);
    assert xs[..k + 1] == [xs[0]] + s[..k] && ys[..k + 1] == [ys[0]] + t[..k];
    assert MemberLess(xs[k + 1], ys[k + 1]);
  }

  lemma DifferHere(xs: seq<Member>, ys: seq<Member>)
    requires |xs| == |ys| > 0 && FirstMemberLess(xs, ys)
    ensures MemberLess(xs[0], ys[0]) || (xs[0] == ys[0] && FirstMemberLess(xs[1..], ys[1..]))
  {
    hide MemberLess;
    var s, t := xs[1..], ys[1..];
    var k :| 0 <= k < |xs| && xs[..k] == ys[..k] && MemberLess(xs[k], ys[k]);
    if k > 0 {
      assert xs[..k][0] == xs[0] && ys[..k][0] == ys[0];
      assert s[..k - 1] == xs[..k][1..] && t[..k - 1] == ys[..k][1..];
      assert MemberLess(s[k - 1], t[k - 1]);
    }
  }

  lemma {:induction false} LessMembersMeaning(xs: seq<Member>, ys: seq<Member>)
    requires |xs| == |ys|
    ensures LessMembers(xs, ys) <==> FirstMemberLess(xs, ys)
    decreases xs
  {
    if xs != [] {
      FirstMember(xs, ys);
      LessMembersMeaning(xs[1..], ys[1..]);
      if MemberLess(xs[0], ys[0]) {
        assert xs[..0] == ys[..0];
      } else if FirstMemberLess(xs, ys) {
        DifferHere(xs, ys);
      } else if xs[0] == ys[0] && FirstMemberLess(xs[1..], ys[1..]) {
        DifferBehind(xs, ys);
      }
    }
  }
}
