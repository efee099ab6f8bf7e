// TiXmlAttributeSet: a circular doubly linked list around a sentinel that is an
// empty attribute, and the attribute operations of TiXmlElement on it.

module XmlAttributes {
  import opened CStrings
  import opened XmlTree

  // ---- the list as a sequence of name and value pairs ----

  /** Where a name stands, or the length when it is absent. */
  function IndexOf(s: seq<Attribute>, name: string): (i: nat)
    ensures i <= |s|
    ensures i < |s| ==> s[i].name == name
    ensures forall k :: 0 <= k < i ==> s[k].name != name
  {
    if s == [] || s[0].name == name then 0 else 1 + IndexOf(s[1..], name)
  }

  function Lookup(s: seq<Attribute>, name: string): Option<string> {
    if IndexOf(s, name) < |s| then Some(s[IndexOf(s, name)].value) else None
  }

  /** SetAttribute: a known name keeps its place, a new one goes to the end. */
  function SetIn(s: seq<Attribute>, name: string, value: string): seq<Attribute> {
    var i := IndexOf(s, name);
    if i < |s| then s[i := Attribute(name, value)] else s + [Attribute(name, value)]
  }

  /**
   * When setting a name keeps the assertion that Add is not given a name twice:
   * the name is known, or no attribute has the empty name.
   */
  predicate CreateAsserts(s: seq<Attribute>, name: string) {
    Lookup(s, name).Some? || Lookup(s, "").None?
  }

  /** The same for setting one attribute after the other. */
  predicate RunAsserts(s: seq<Attribute>, more: seq<Attribute>)
    decreases |more|
  {
    more == [] || (CreateAsserts(s, more[0].name) && RunAsserts(SetIn(s, more[0].name, more[0].value), more[1..]))
  }

  function RemoveIn(s: seq<Attribute>, name: string): seq<Attribute> {
    var i := IndexOf(s, name);
    if i < |s| then s[..i] + s[i + 1..] else s
  }

  predicate DistinctNames(s: seq<Attribute>) {
    forall i, j :: 0 <= i < j < |s| ==> s[i].name != s[j].name
  }

  lemma IndexIs(s: seq<Attribute>, name: string, i: nat)
    requires i < |s| && s[i].name == name && forall k :: 0 <= k < i ==> s[k].name != name
    ensures IndexOf(s, name) == i
  {
  }

  lemma NoIndex(s: seq<Attribute>, name: string)
    requires forall k :: 0 <= k < |s| ==> s[k].name != name
    ensures IndexOf(s, name) == |s|
  {
  }

  /** A known name keeps its place and the others are untouched; a new one goes to the end. */
  lemma SetPlace(before: seq<Attribute>, known: Attribute, after: seq<Attribute>, value: string)
    requires forall k :: 0 <= k < |before| ==> before[k].name != known.name
    ensures SetIn(before + [known] + after, known.name, value) == before + [Attribute(known.name, value)] + after
    ensures SetIn(before, known.name, value) == before + [Attribute(known.name, value)]
  {
    hide IndexOf;
    var s := before + [known] + after;
    assert s[|before|] == known && forall k :: 0 <= k < |before| ==> s[k] == before[k];
    IndexIs(s, known.name, |before|);
    NoIndex(before, known.name);
  }

  /** Exactly the attribute with the name goes. */
  lemma RemovePlace(before: seq<Attribute>, known: Attribute, after: seq<Attribute>)
    requires forall k :: 0 <= k < |before| ==> before[k].name != known.name
    ensures RemoveIn(before + [known] + after, known.name) == before + after
    ensures RemoveIn(before, known.name) == before
  {
    hide IndexOf;
    var s := before + [known] + after;
    assert s[|before|] == known && forall k :: 0 <= k < |before| ==> s[k] == before[k];
    IndexIs(s, known.name, |before|);
    NoIndex(before, known.name);
  }

  /** Setting and removing are the update and the removal of a map, and names stay distinct. */
  lemma SetThenLookup(s: seq<Attribute>, name: string, value: string, other: string)
    requires DistinctNames(s)
    ensures DistinctNames(SetIn(s, name, value))
    ensures Lookup(SetIn(s, name, value), other) == if other == name then Some(value) else Lookup(s, other)
  {
    hide IndexOf;
    var r, i, j := SetIn(s, name, value), IndexOf(s, name), IndexOf(s, other);
    if other == name {
      IndexIs(r, name, i);
    } else if j < |s| {
      IndexIs(r, other, j);
    } else {
      NoIndex(r, other);
    }
  }

  lemma RemoveThenLookup(s: seq<Attribute>, name: string, other: string)
    requires DistinctNames(s)
    ensures DistinctNames(RemoveIn(s, name))
    ensures Lookup(RemoveIn(s, name), other) == if other == name then None else Lookup(s, other)
  {
    hide IndexOf;
    var r, i, j := RemoveIn(s, name), IndexOf(s, name), IndexOf(s, other);
    assert i < |s| ==> forall k :: 0 <= k < |r| ==> r[k] == s[if k < i then k else k + 1];
    if other == name || j == |s| {
      NoIndex(r, other);
    } else if i < j {
      IndexIs(r, other, j - 1);
    } else {
      IndexIs(r, other, j);
    }
  }

  /** Setting the attributes of one list one by one on an empty list rebuilds it, in order. */
  function SetAll(target: seq<Attribute>, s: seq<Attribute>): seq<Attribute>
    decreases |s|
  {
    if s == [] then target else SetAll(SetIn(target, s[0].name, s[0].value), s[1..])
  }

  lemma SetAllStep(target: seq<Attribute>, s: seq<Attribute>, k: nat)
    requires k < |s|
    ensures SetAll(target, s[k..]) == SetAll(SetIn(target, s[k].name, s[k].value), s[k + 1..])
  {
    hide SetIn;
    assert s[k..][0] == s[k] && s[k..][1..] == s[k + 1..];
  }

  lemma SetAllEnd(target: seq<Attribute>, s: seq<Attribute>)
    ensures SetAll(target, s[|s|..]) == target
  {
  }

  lemma {:induction false} SetAllRebuilds(target: seq<Attribute>, s: seq<Attribute>)
    requires DistinctNames(target + s)
    ensures SetAll(target, s) == target + s
    decreases |s|
  {
    if s == [] {
      assert target + [] == target;
    } else {
      var next := target + [s[0]];
      assert next + s[1..] == target + s;
      forall k | 0 <= k < |target| ensures target[k].name != s[0].name {
        assert (target + s)[k] == target[k] && (target + s)[|target|] == s[0];
      }
      NoIndex(target, s[0].name);
      SetAllRebuilds(next, s[1..]);
    }
  }

  lemma WalkedDistinct(s: seq<Attribute>)
    requires DistinctNames(s)
    ensures DistinctNames(Walked(s))
  {
  }

  lemma RunAssertsStep(target: seq<Attribute>, s: seq<Attribute>, k: nat)
    requires k < |s|
    ensures RunAsserts(target, s[k..])
            <==> CreateAsserts(target, s[k].name) && RunAsserts(SetIn(target, s[k].name, s[k].value), s[k + 1..])
  {
    hide SetIn, CreateAsserts;
    assert s[k..][0] == s[k] && s[k..][1..] == s[k + 1..];
  }

  lemma RunAssertsEnd(target: seq<Attribute>, s: seq<Attribute>)
    ensures RunAsserts(target, s[|s|..])
  {
  }

  /** Attributes with distinct names can be added one by one exactly if an empty name comes last or not at all. */
  lemma {:induction false} AddedOneByOne(done: seq<Attribute>, more: seq<Attribute>)
    requires DistinctNames(done + more)
    ensures RunAsserts(done, more)
            <==> forall k :: 0 <= k < |done + more| - 1 && more != [] ==> (done + more)[k].name != ""
    decreases |more|
  {
    if more != [] {
      var next, all := done + [more[0]], done + more;
      assert next + more[1..] == all && all[|done|] == more[0];
      forall k | 0 <= k < |done| ensures done[k].name != more[0].name {
        assert all[k] == done[k];
      }
      NoIndex(done, more[0].name);
      AddedOneByOne(next, more[1..]);
      hide IndexOf;
      assert Lookup(done, "").None? <==> forall k :: 0 <= k < |done| ==> all[k].name != "" by {
        EmptyName(done);
        assert forall k :: 0 <= k < |done| ==> all[k] == done[k];
      }
    }
  }

  lemma EmptyName(s: seq<Attribute>)
    ensures Lookup(s, "").None? <==> forall k :: 0 <= k < |s| ==> s[k].name != ""
  {
  }

  // ---- the linked list ----

  class AttributeNode {
    var name: string
    var value: string
    var prev: AttributeNode?
    var next: AttributeNode?

    constructor ()
      ensures name == "" && value == "" && prev == null && next == null
    {
      name, value, prev, next := "", "", null, null;
    }

    function Pair(): Attribute
      reads `name, `value
    {
      Attribute(name, value)
    }

    /** Next; the sentinel is told by its empty name and value. */
    method Next() returns (node: AttributeNode?)
      requires next != null
      ensures node == if next.Pair() == BLANK then null else next
    {
      return if next.value == "" && next.name == "" then null else next;
    }
  }

  ghost function Pairs(list: seq<AttributeNode>): (s: seq<Attribute>)
    reads list`name, list`value
    ensures |s| == |list| && forall i :: 0 <= i < |s| ==> s[i] == list[i].Pair()
  {
    if list == [] then [] else [list[0].Pair()] + Pairs(list[1..])
  }

  lemma PairsRemoved(was: seq<AttributeNode>, k: nat)
    requires k < |was|
    ensures Pairs(was[..k] + was[k + 1..]) == Pairs(was)[..k] + Pairs(was)[k + 1..]
  {
    hide Pairs;
  }

  /** The node at position i; before and after the list is the sentinel. */
  ghost function Nth(list: seq<AttributeNode>, sentinel: AttributeNode, i: int): AttributeNode {
    if 0 <= i < |list| then list[i] else sentinel
  }

  class AttributeSet {
    const sentinel: AttributeNode
    /** The attributes in order. */
    ghost var list: seq<AttributeNode>

    /** The nodes at positions i and i + 1 point at each other. */
    ghost predicate Edge(s: seq<AttributeNode>, i: int)
      reads Nth(s, sentinel, i)`next, Nth(s, sentinel, i + 1)`prev
    {
      Nth(s, sentinel, i).next == Nth(s, sentinel, i + 1) && Nth(s, sentinel, i + 1).prev == Nth(s, sentinel, i)
    }

    /** next and prev run around the sentinel and through the list, in both directions. */
    ghost predicate Ring()
      reads `list, sentinel`prev, sentinel`next, list`prev, list`next
    {
      forall i :: -1 <= i < |list| ==> Edge(list, i)
    }

    ghost predicate Distinct()
      reads `list
    {
      sentinel !in list && forall i, j :: 0 <= i < j < |list| ==> list[i] != list[j]
    }

    /** Names are distinct; the sentinel has an empty name and value. */
    ghost predicate Named(s: seq<AttributeNode>)
      reads s`name, sentinel`name, sentinel`value
    {
      && sentinel.name == "" && sentinel.value == ""
      && (forall i, j :: 0 <= i < j < |s| ==> s[i].name != s[j].name)
    }

    lemma NamedRemoved(s: seq<AttributeNode>, k: nat)
      requires k < |s| && Named(s)
      ensures Named(s[..k] + s[k + 1..])
    {
      var r := s[..k] + s[k + 1..];
      assert forall i :: 0 <= i < |r| ==> r[i] == s[if i < k then i else i + 1];
    }

    lemma NamedPairs()
      requires Named(list)
      ensures DistinctNames(Contents())
    {
      hide Pairs;
    }

    /** Where Next leads from position k: to the following attribute, unless it is blank, or to the sentinel. */
    lemma NextOf(k: nat)
      requires Ring() && Named(list) && k < |list|
      ensures list[k].next != null && list[k].Pair() == Contents()[k]
      ensures list[k].next.Pair() == BLANK <==> k + 1 == |list| || Contents()[k + 1] == BLANK
      ensures k + 1 < |list| ==> list[k].next == list[k + 1]
    {
      assert Edge(list, k);
    }

    ghost predicate Valid()
      reads this, sentinel, list
    {
      Ring() && Distinct() && Named(list)
    }

    ghost function Nodes(): set<AttributeNode>
      reads `list
    {
      set node | node in list
    }

    /** The set as its users see it. */
    ghost function Contents(): (s: seq<Attribute>)
      reads `list, list`name, list`value
      ensures |s| == |list|
    {
      Pairs(list)
    }

    constructor ()
      ensures Valid() && Contents() == [] && fresh(sentinel)
    {
      sentinel := new AttributeNode();
      list := [];
      new;
      sentinel.next := sentinel;
      sentinel.prev := sentinel;
    }

    method First() returns (node: AttributeNode?)
      requires Valid()
      ensures node == if list == [] then null else list[0]
    {
      assert Edge(list, -1);
      return if sentinel.next == sentinel then null else sentinel.next;
    }

    method Find(name: string) returns (node: AttributeNode?)
      requires Ring() && Distinct()
      ensures var i := IndexOf(Contents(), name);
              node == if i < |list| then list[i] else null
    {
      assert Edge(list, -1);
      node := sentinel.next;
      ghost var k := 0;
      while node != sentinel
        invariant 0 <= k <= |list| && node == Nth(list, sentinel, k)
        invariant forall i :: 0 <= i < k ==> list[i].name != name
        decreases |list| - k
      {
        if node.name == name {
          IndexIs(Contents(), name, k);
          return;
        }
        assert Edge(list, k);
        node := node.next;
        k := k + 1;
      }
      NoIndex(Contents(), name);
      return null;
    }

    /**
     * A new attribute goes before the sentinel, which is the end of the list.
     * The result is what the source asserts: no attribute has its name yet.
     */
    method Add(addMe: AttributeNode) returns (unknown: bool)
      requires Ring() && Distinct() && addMe !in list && addMe != sentinel
      modifies `list, sentinel`prev, sentinel`next, Nodes()`next, addMe`prev, addMe`next
      ensures Ring() && Distinct() && list == old(list) + [addMe]
      ensures unknown <==> Lookup(old(Contents()), addMe.name) == None
    {
      hide IndexOf, Pairs;
      var found := Find(addMe.name);
      unknown := found == null;
      ghost var was := list;
      assert Edge(was, |was| - 1);
      addMe.next := sentinel;
      addMe.prev := sentinel.prev;
      sentinel.prev.next := addMe;
      sentinel.prev := addMe;
      list := list + [addMe];
      forall i | -1 <= i < |list| ensures Edge(list, i) {
        if i < |was| - 1 {
          assert old(Edge(was, i));
        }
      }
    }

    method Remove(removeMe: AttributeNode)
      requires Ring() && Distinct() && removeMe in list
      modifies `list, sentinel`prev, sentinel`next, Nodes()`prev, Nodes()`next
      ensures Ring() && Distinct()
      ensures forall k :: 0 <= k < |old(list)| && old(list)[k] == removeMe ==> list == old(list)[..k] + old(list)[k + 1..]
    {
      assert Edge(list, -1);
      var node := sentinel.next;
      ghost var k := 0;
      while node != removeMe
        invariant 0 <= k < |list| && node == list[k] && removeMe in list[k..]
        decreases |list| - k
        modifies {}
      {
        assert Edge(list, k);
        node := node.next;
        k := k + 1;
      }
      Unlink(node, k);
    }

    /** The node at position k is taken out. */
    method Unlink(node: AttributeNode, ghost k: nat)
      requires Ring() && Distinct() && k < |list| && node == list[k]
      modifies `list, sentinel`prev, sentinel`next, Nodes()`prev, Nodes()`next
      ensures Ring() && Distinct()
      ensures list == old(list)[..k] + old(list)[k + 1..]
    {
      ghost var was := list;
      assert Edge(was, k - 1) && Edge(was, k);
      node.prev.next := node.next;
      node.next.prev := node.prev;
      node.next := null;
      node.prev := null;
      list := list[..k] + list[k + 1..];
      forall i | -1 <= i < |list| ensures Edge(list, i) {
        if i < k - 1 {
          assert old(Edge(was, i));
        } else if i >= k {
          assert old(Edge(was, i + 1));
        }
      }
    }

    // ---- the attribute operations of an element ----

    /** The new attribute is added before it gets its name, so the assertion is about the empty name. */
    method FindOrCreate(name: string) returns (attrib: AttributeNode, asserted: bool)
      requires Valid()
      modifies `list, sentinel`prev, sentinel`next, Nodes()`next
      ensures Valid() && attrib in list && attrib.name == name
      ensures var i := IndexOf(old(Contents()), name);
              if i < |old(list)| then list == old(list) && attrib == list[i]
              else list == old(list) + [attrib] && fresh(attrib) && attrib.value == ""
      ensures asserted <==> CreateAsserts(old(Contents()), name)
    {
      hide IndexOf, Ring, Distinct, Pairs, Named;
      NamesOf(name);
      var found := Find(name);
      if found != null {
        return found, true;
      }
      attrib := new AttributeNode();
      ghost var was := list;
      asserted := Add(attrib);
      attrib.name := name;
      NamedAdded(was, attrib);
    }

    lemma NamesOf(name: string)
      ensures var i := IndexOf(Contents(), name);
              if i < |list| then list[i].name == name else forall k :: 0 <= k < |list| ==> list[k].name != name
    {
      hide Pairs;
      assert forall k :: 0 <= k < |list| ==> Contents()[k] == list[k].Pair();
    }

    lemma NamedAdded(s: seq<AttributeNode>, node: AttributeNode)
      requires Named(s) && forall k :: 0 <= k < |s| ==> s[k].name != node.name
      ensures Named(s + [node])
    {
    }

    lemma Alone(i: nat)
      requires Distinct() && i < |list|
      ensures list[i] != sentinel && forall j :: 0 <= j < |list| && j != i ==> list[j] != list[i]
    {
    }

    /** TiXmlElement::SetAttribute; the result says whether the assertion in Add holds. */
    method SetAttribute(name: string, value: string) returns (asserted: bool)
      requires Valid()
      modifies `list, sentinel`prev, sentinel`next, Nodes()`next, Nodes()`value
      ensures Valid() && Contents() == SetIn(old(Contents()), name, value)
      ensures asserted <==> CreateAsserts(old(Contents()), name)
      ensures fresh(Nodes() - old(Nodes()))
    {
      hide IndexOf, Ring, Named, Distinct, Pairs;
      ghost var i := IndexOf(Contents(), name);
      var attrib;
      attrib, asserted := FindOrCreate(name);
      Alone(i);
      attrib.value := value;
    }

    /** TiXmlElement::RemoveAttribute. */
    method RemoveAttribute(name: string)
      requires Valid()
      modifies `list, sentinel`prev, sentinel`next, Nodes()`prev, Nodes()`next
      ensures Valid() && Contents() == RemoveIn(old(Contents()), name)
    {
      hide IndexOf, Ring, Named, Distinct, Pairs;
      var node := Find(name);
      if node != null {
        ghost var i, was := IndexOf(Contents(), name), list;
        Remove(node);
        assert list == was[..i] + was[i + 1..];
        NamedRemoved(was, i);
        PairsRemoved(was, i);
      }
    }

    /** The attribute loop of TiXmlElement::CopyTo, from First along Next: what is walked is set, once and in order. */
    method CopyTo(target: AttributeSet) returns (asserted: bool)
      requires Valid() && target.Valid() && target != this && target.sentinel != sentinel
      requires sentinel !in target.list && target.sentinel !in list && forall node :: node in target.list ==> node !in list
      modifies target`list, target.sentinel`prev, target.sentinel`next, target.Nodes()`next, target.Nodes()`value
      ensures Valid() && Contents() == old(Contents())
      ensures target.Valid() && target.Contents() == SetAll(old(target.Contents()), Walked(Contents()))
      ensures old(target.Contents()) == [] ==> target.Contents() == Walked(Contents())
      ensures asserted <==> RunAsserts(old(target.Contents()), Walked(Contents()))
    {
      hide RunAsserts, CreateAsserts, IndexOf, SetIn, Named, Distinct, Pairs, Ring, SetAll,
           DistinctNames, Stop, Walked, Contents;
      ghost var start, all := target.Contents(), Walked(Contents());
      var attribute := First();
      ghost var k := 0;
      asserted := true;
      WalkedFirst();
      assert all[0..] == all;
      while attribute != null
        invariant 0 <= k <= |all| && attribute == NodeAt(k, |all|)
        invariant Valid() && target.Valid() && Contents() == old(Contents())
        invariant fresh(target.Nodes() - old(target.Nodes()))
        invariant SetAll(target.Contents(), all[k..]) == SetAll(start, all)
        invariant RunAsserts(start, all) <==> asserted && RunAsserts(target.Contents(), all[k..])
        decreases |all| - k
      {
        RunAssertsStep(target.Contents(), all, k);
        SetAllStep(target.Contents(), all, k);
        WalkedNext(Contents(), k);
        NextOf(k);
        var known := target.SetAttribute(attribute.name, attribute.value);
        asserted := asserted && known;
        NextOf(k);
        attribute := attribute.Next();
        k := k + 1;
      }
      SetAllEnd(target.Contents(), all);
      RunAssertsEnd(target.Contents(), all);
      if start == [] {
        assert [] + all == all;
        NamedPairs();
        WalkedDistinct(Contents());
        SetAllRebuilds([], all);
      }
    }

    /** The node at position k of a walk of n nodes. */
    ghost function NodeAt(k: nat, n: nat): AttributeNode?
      reads `list
    {
      if k < n <= |list| then list[k] else null
    }

    lemma WalkedFirst()
      ensures |Walked(Contents())| <= |list|
      ensures NodeAt(0, |Walked(Contents())|) == if list == [] then null else list[0]
    {
      hide Pairs;
    }

    /** The attribute loop of TiXmlElement::ClearThis. */
    method Clear()
      requires Valid()
      modifies `list, sentinel`prev, sentinel`next, Nodes()`prev, Nodes()`next
      ensures Valid() && Contents() == []
    {
      hide Ring;
      var node := First();
      while node != null
        invariant Valid() && node == if list == [] then null else list[0]
        invariant Nodes() <= old(Nodes())
        decreases |list|
      {
        Remove(node);
        node := First();
      }
    }
  }
}
