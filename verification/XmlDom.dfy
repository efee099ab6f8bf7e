// The sibling lists of TinyXML: parent, firstChild, lastChild, prev and next,
// rewritten in place by the operations of TiXmlNode, and Clone.

module XmlDom {
  import opened XmlTree
  import opened XmlAttributes

  datatype Kind = DocumentNode | ElementNode | CommentNode | UnknownNode | TextNode | DeclarationNode

  /** The fields of a declaration; in other nodes they are empty. */
  datatype Declared = Declared(version: string, encoding: string, standalone: string)

  const NOT_DECLARED := Declared("", "", "")

  /** The user's pointer and the place in the source text. */
  datatype Mark = Mark(userData: nat, row: int, col: int)

  /** What a node of the heap shows with all that is below it: any kind of node with any children. */
  datatype Tree = Tree(kind: Kind, value: string, cdata: bool, attributes: seq<Attribute>, declared: Declared,
    mark: Mark, children: seq<Tree>)

  /** What a node shows, and what the root of its document shows. */
  datatype View = View(own: Tree, root: DomNode, whole: Tree)

  /** The node at position i, or null outside the list. */
  ghost function ChildAt(s: seq<DomNode>, i: int): DomNode? {
    if 0 <= i < |s| then s[i] else null
  }

  ghost predicate NoRepeats(s: seq<DomNode>) {
    forall i, j :: 0 <= i < j < |s| ==> s[i] != s[j]
  }

  /** One more node in a list. */
  lemma WithNode(s: seq<DomNode>, k: nat, node: DomNode)
    requires NoRepeats(s) && node !in s && k <= |s|
    ensures var r := s[..k] + [node] + s[k..];
            NoRepeats(r) && forall c :: c in r <==> c == node || c in s
  {
  }

  /** A list without the node at position k. */
  lemma WithoutNode(s: seq<DomNode>, k: nat)
    requires NoRepeats(s) && k < |s|
    ensures var r := s[..k] + s[k + 1..];
            NoRepeats(r) && forall c :: c in r ==> c in s && c != s[k]
  {
  }

  /** Another node at position k. */
  lemma InsteadOfNode(s: seq<DomNode>, k: nat, node: DomNode)
    requires NoRepeats(s) && node !in s && k < |s|
    ensures NoRepeats(s[k := node]) && forall c :: c in s[k := node] ==> c == node || (c in s && c != s[k])
  {
  }

  /** The children around position i when a node has come to position k, or when the one there has gone. */
  lemma ChildAtWith(s: seq<DomNode>, k: nat, node: DomNode, i: int)
    requires k <= |s|
    ensures ChildAt(s[..k] + [node] + s[k..], i)
         == if i < k then ChildAt(s, i) else if i == k then node else ChildAt(s, i - 1)
  {
  }

  lemma ChildAtWithout(s: seq<DomNode>, k: nat, i: int)
    requires k < |s|
    ensures ChildAt(s[..k] + s[k + 1..], i) == if i < k then ChildAt(s, i) else ChildAt(s, i + 1)
  {
  }

  function Opt(n: DomNode?): set<DomNode> {
    if n == null then {} else {n}
  }

  function PrevOf(n: DomNode?): set<DomNode>
    reads Opt(n)`prev
  {
    if n == null then {} else Opt(n.prev)
  }

  function NextOf(n: DomNode?): set<DomNode>
    reads Opt(n)`next
  {
    if n == null then {} else Opt(n.next)
  }

  function NullableParent(n: DomNode?): DomNode?
    reads Opt(n)`parent
  {
    if n == null then null else n.parent
  }

  class DomNode {
    const kind: Kind
    var value: string
    var cdata: bool
    var attributes: seq<Attribute>
    var declared: Declared
    var mark: Mark
    var parent: DomNode?
    var firstChild: DomNode?
    var lastChild: DomNode?
    var prev: DomNode?
    var next: DomNode?
    /** The children in order. */
    ghost var children: seq<DomNode>

    constructor (kind: Kind, value: string)
      ensures this.kind == kind && this.value == value && !cdata && attributes == []
      ensures declared == NOT_DECLARED && mark == Mark(0, -1, -1)
      ensures parent == null && firstChild == null && lastChild == null && prev == null && next == null && children == []
    {
      this.kind, this.value, cdata, attributes := kind, value, false, [];
      declared, mark := NOT_DECLARED, Mark(0, -1, -1);
      parent, firstChild, lastChild, prev, next := null, null, null, null, null;
      children := [];
    }

    /** The children at positions i and i + 1 point at each other; past the ends are firstChild and lastChild. */
    ghost predicate Edge(s: seq<DomNode>, i: int)
      reads `firstChild, `lastChild, Opt(ChildAt(s, i))`next, Opt(ChildAt(s, i + 1))`prev
    {
      var a, b := ChildAt(s, i), ChildAt(s, i + 1);
      && (if a != null then a.next == b else firstChild == b)
      && (if b != null then b.prev == a else lastChild == a)
    }

    /** prev and next are inverse along the children, the ends are firstChild and lastChild, and the parents agree. */
    ghost predicate ListValid()
      reads `firstChild, `lastChild, `children, children`parent, children`prev, children`next
    {
      && NoRepeats(children)
      && (forall i :: -1 <= i < |children| ==> Edge(children, i))
      && (forall c :: c in children ==> c.parent == this && c.kind != DocumentNode)
    }

    // ---- one child list ----

    /** A node from elsewhere goes to the end of the list. */
    method LinkLast(node: DomNode)
      requires ListValid() && node !in children && node != this && node.kind != DocumentNode
      modifies `firstChild, `lastChild, `children, node`parent, node`prev, node`next, Opt(lastChild)`next
      ensures ListValid() && children == old(children) + [node] && node.parent == this
    {
      ghost var was := children;
      assert Edge(was, |was| - 1);
      node.parent := this;
      node.prev := lastChild;
      node.next := null;
      if lastChild != null {
        lastChild.next := node;
      } else {
        firstChild := node;
      }
      lastChild := node;
      children := children + [node];
      forall i | -1 <= i < |children| ensures Edge(children, i) {
        if i < |was| - 1 {
          assert old(Edge(was, i));
        }
      }
    }

    /** A node from elsewhere goes before the child at position k. */
    method LinkBefore(node: DomNode, beforeThis: DomNode, ghost k: nat)
      requires ListValid() && node !in children && node != this && node.kind != DocumentNode
      requires k < |children| && beforeThis == children[k]
      modifies `firstChild, `children, node`parent, node`prev, node`next, beforeThis`prev, Opt(beforeThis.prev)`next
      ensures ListValid() && children == old(children)[..k] + [node] + old(children)[k..] && node.parent == this
    {
      ghost var was := children;
      assert Edge(was, k - 1);
      node.parent := this;
      node.next := beforeThis;
      node.prev := beforeThis.prev;
      if beforeThis.prev != null {
        beforeThis.prev.next := node;
      } else {
        firstChild := node;
      }
      beforeThis.prev := node;
      children := was[..k] + [node] + was[k..];
      WithNode(was, k, node);
      forall i | -1 <= i < |children| ensures Edge(children, i) {
        ChildAtWith(was, k, node, i);
        ChildAtWith(was, k, node, i + 1);
        if i < k - 1 {
          assert old(Edge(was, i));
        } else if i > k {
          assert old(Edge(was, i - 1));
        }
      }
    }

    method LinkAfter(node: DomNode, afterThis: DomNode, ghost k: nat)
      requires ListValid() && node !in children && node != this && node.kind != DocumentNode
      requires k < |children| && afterThis == children[k]
      modifies `lastChild, `children, node`parent, node`prev, node`next, afterThis`next, Opt(afterThis.next)`prev
      ensures ListValid() && children == old(children)[..k + 1] + [node] + old(children)[k + 1..] && node.parent == this
    {
      ghost var was, j := children, k + 1;
      assert Edge(was, k);
      node.parent := this;
      node.prev := afterThis;
      node.next := afterThis.next;
      if afterThis.next != null {
        afterThis.next.prev := node;
      } else {
        lastChild := node;
      }
      afterThis.next := node;
      children := was[..j] + [node] + was[j..];
      WithNode(was, j, node);
      forall i | -1 <= i < |children| ensures Edge(children, i) {
        ChildAtWith(was, j, node, i);
        ChildAtWith(was, j, node, i + 1);
        if i < j - 1 {
          assert old(Edge(was, i));
        } else if i > j {
          assert old(Edge(was, i - 1));
        }
      }
    }

    /** A node from elsewhere takes the place of the child at position k, which is deleted. */
    method LinkInstead(node: DomNode, replaceThis: DomNode, ghost k: nat)
      requires ListValid() && node !in children && node != this && node.kind != DocumentNode
      requires k < |children| && replaceThis == children[k]
      modifies `firstChild, `lastChild, `children, node`parent, node`prev, node`next, replaceThis`parent,
               Opt(replaceThis.prev)`next, Opt(replaceThis.next)`prev
      ensures ListValid() && children == old(children)[k := node] && node.parent == this && replaceThis.parent == null
    {
      ghost var was := children;
      assert Edge(was, k - 1) && Edge(was, k);
      node.next := replaceThis.next;
      node.prev := replaceThis.prev;
      if replaceThis.next != null {
        replaceThis.next.prev := node;
      } else {
        lastChild := node;
      }
      if replaceThis.prev != null {
        replaceThis.prev.next := node;
      } else {
        firstChild := node;
      }
      replaceThis.Delete();
      node.parent := this;
      children := was[k := node];
      InsteadOfNode(was, k, node);
      forall i | -1 <= i < |children| ensures Edge(children, i) {
        if i != k - 1 && i != k {
          assert old(Edge(was, i));
        }
      }
    }

    /** The child at position k is taken out and deleted. */
    method Unlink(removeThis: DomNode, ghost k: nat)
      requires ListValid() && k < |children| && removeThis == children[k]
      modifies `firstChild, `lastChild, `children, removeThis`parent, Opt(removeThis.prev)`next,
               Opt(removeThis.next)`prev
      ensures ListValid() && children == old(children)[..k] + old(children)[k + 1..] && removeThis.parent == null
    {
      ghost var was := children;
      assert Edge(was, k - 1) && Edge(was, k);
      if removeThis.next != null {
        removeThis.next.prev := removeThis.prev;
      } else {
        lastChild := removeThis.prev;
      }
      if removeThis.prev != null {
        removeThis.prev.next := removeThis.next;
      } else {
        firstChild := removeThis.next;
      }
      removeThis.Delete();
      children := was[..k] + was[k + 1..];
      WithoutNode(was, k);
      forall i | -1 <= i < |children| ensures Edge(children, i) {
        ChildAtWithout(was, k, i);
        ChildAtWithout(was, k, i + 1);
        if i < k - 1 {
          assert old(Edge(was, i));
        } else if i >= k {
          assert old(Edge(was, i + 1));
        }
      }
    }

    static method DeleteUnlisted(node: DomNode, ghost nodes: set<DomNode>)
      requires Unlisted(node, nodes)
      modifies node`parent
      ensures Dom(nodes) && node.parent == null
    {
      OneList(nodes);
      hide DomNode.ListValid;
      node.Delete();
    }

    /** Stands for `delete`: the node is outside every list from then on. */
    method Delete()
      modifies `parent
      ensures parent == null
    {
      parent := null;
    }

    // ---- operations ----

    /** A node that is in no list is linked at the end. */
    method PutLast(node: DomNode, ghost nodes: set<DomNode>)
      requires Unlisted(node, nodes) && this in nodes && node in nodes && node != this && node.kind != DocumentNode
      modifies `firstChild, `lastChild, `children, node`parent, node`prev, node`next, Opt(lastChild)`next
      ensures Dom(nodes) && children == old(children) + [node]
    {
      LastIsChild();
      OneList(nodes);
      hide ListValid;
      LinkLast(node);
    }

    /**
     * A node that is in no list becomes the last child; its parent may already
     * be set to this node, as the parser leaves it. A document is deleted instead.
     */
    method LinkEndChild(node: DomNode, ghost t: Tree, ghost nodes: set<DomNode>, ghost view: View)
      returns (linked: DomNode?)
      requires Unlisted(node, nodes) && this in nodes && node in nodes && node != this
      requires node.parent == null || node.parent == this
      modifies `firstChild, `lastChild, `children, node`parent, node`prev, node`next, Opt(lastChild)`next
      ensures Dom(nodes)
      ensures linked == if node.kind == DocumentNode then null else node
      ensures children == if linked == null then old(children) else old(children) + [node]
      ensures linked != null && old(Seen(this, view, nodes)) && old(Shows(node, t, nodes - {this})) ==>
                Shows(view.root, old(AfterEdit(this, view, nodes, |children|, |children|, [t])), nodes)
    {
      hide Unlisted, Dom, Shows, ShowsAround, AllShow, AfterEdit, Edited, Seen, SameContents;
      if node.kind == DocumentNode {
        DeleteUnlisted(node, nodes);
        return null;
      }
      ghost var n := |children|;
      ghost var was, held := children, Seen(this, view, nodes) && Shows(node, t, nodes - {this});
      ghost var target := AfterEdit(this, view, nodes, n, n, [t]);
      if held {
        BeforeEdit(this, view, nodes, n, n, [t]);
      }
      PutLast(node, nodes);
      linked := node;
      if held {
        OneShows(node, t, nodes - {this}, nodes);
        assert children == was[..n] + [node] + was[n..];
        EditShown(this, view.own, n, n, was, [node], [t], nodes - {this}, nodes, view.root, target);
      }
    }

    /** The copies of a node: the same contents and child structure in fresh nodes; nothing else changes. */
    method Clone(ghost t: Tree, ghost nodes: set<DomNode>) returns (clone: DomNode, ghost made: set<DomNode>)
      requires Dom(nodes) && this in nodes && Shows(this, t, nodes)
      ensures fresh(made) && clone in made && Dom(made) && clone.parent == null && clone.kind == kind
      ensures Shows(clone, Copied(t), made)
      decreases t, 1
    {
      hide Dom, Shows, Copied, SameContents;
      ShowsContents(this, t, nodes);
      CopiedChildren(t);
      clone := new DomNode(kind, value);
      CopyContents(clone, t);
      made := {clone};
      SingleDom(clone);
      if kind == ElementNode || kind == DocumentNode {
        made := CloneChildren(clone, t, nodes);
        forall j | 0 <= j < |t.children| ensures Shows(clone.children[j], Copied(t.children[j]), made) {
          ShowsMore(clone.children[j], Copied(t.children[j]), made - {clone}, made);
        }
      }
      ContentsShow(clone, Copied(t), made);
    }

    /** What CopyTo does to the new node's own fields. */
    method CopyContents(clone: DomNode, ghost t: Tree)
      requires SameContents(this, t) && clone != this && clone.kind == kind && clone.value == value
      requires !clone.cdata && clone.attributes == [] && clone.declared == NOT_DECLARED
      modifies clone`cdata, clone`attributes, clone`declared, clone`mark
      ensures SameContents(clone, Copied(t))
    {
      hide SetAll, Walked;
      clone.mark := mark;
      if kind == TextNode {
        clone.cdata := cdata;
      } else if kind == DeclarationNode {
        clone.declared := declared;
      } else if kind == ElementNode {
        CopyAttributes(clone);
      }
    }

    /** The loop of CopyTo over the attributes, along Next. */
    method CopyAttributes(clone: DomNode)
      requires clone != this && clone.attributes == []
      modifies clone`attributes
      ensures clone.attributes == SetAll([], Walked(attributes))
    {
      hide SetAll, SetIn, Walked;
      var k := 0;
      ghost var walked := Walked(attributes);
      assert walked[0..] == walked;
      WalkedFirst(attributes);
      while k < |attributes| && (k == 0 || attributes[k] != BLANK)
        invariant k <= |walked| <= |attributes|
        invariant k < |walked| <==> k < |attributes| && (k == 0 || attributes[k] != BLANK)
        invariant SetAll(clone.attributes, walked[k..]) == SetAll([], walked)
      {
        WalkedNext(attributes, k);
        SetAllStep(clone.attributes, walked, k);
        clone.attributes := SetIn(clone.attributes, attributes[k].name, attributes[k].value);
        k := k + 1;
      }
      SetAllEnd(clone.attributes, walked);
    }

    /** The loop of CopyTo over the children. */
    method CloneChildren(clone: DomNode, ghost t: Tree, ghost nodes: set<DomNode>) returns (ghost made: set<DomNode>)
      requires Dom(nodes) && this in nodes && Shows(this, t, nodes) && clone !in nodes
      requires Dom({clone}) && clone.parent == null && clone.children == []
      modifies clone`firstChild, clone`lastChild, clone`children
      ensures fresh(made - {clone}) && clone in made && Dom(made) && clone.parent == null
      ensures |clone.children| == |t.children|
      ensures forall j :: 0 <= j < |t.children| ==> Shows(clone.children[j], Copied(t.children[j]), made - {clone})
      decreases t, 0
    {
      hide Dom, ListValid, Copied, Shows;
      made := {clone};
      ShowsParts(this, t, nodes);
      var node := firstChild;
      ghost var k := 0;
      ChildAtEnd(children);
      FirstIsChild(nodes);
      while node != null
        invariant 0 <= k <= |children| && node == ChildAt(children, k)
        invariant fresh(made - {clone}) && clone in made && Dom(made) && clone.parent == null
        invariant Dom(nodes) && Shows(this, t, nodes) && made !! nodes
        invariant |clone.children| == k
        invariant forall j :: 0 <= j < k ==> Shows(clone.children[j], Copied(t.children[j]), made - {clone})
        decreases |children| - k
      {
        ChildFacts(nodes, k);
        ShowsParts(this, t, nodes);
        var child, more := node.Clone(t.children[k], nodes);
        LastInside(made, clone);
        clone.AppendCopy(child, Copied(t.children[k]), more, made, seq(k, j requires 0 <= j < k => Copied(t.children[j])));
        made := made + more;
        node := node.next;
        k := k + 1;
      }
    }

    /** One more copy is linked under this new node. */
    method AppendCopy(child: DomNode, ghost t: Tree, ghost more: set<DomNode>, ghost made: set<DomNode>,
            ghost ts: seq<Tree>)
      requires Dom(made) && Dom(more) && made !! more && this in made && parent == null
      requires child in more && child.parent == null && child.kind != DocumentNode && Shows(child, t, more)
      requires |children| == |ts| && forall j :: 0 <= j < |ts| ==> Shows(children[j], ts[j], made - {this})
      modifies `firstChild, `lastChild, `children, child`parent, child`prev, child`next, Opt(lastChild)`next
      ensures Dom(made + more) && parent == null
      ensures |children| == |ts| + 1 && Shows(children[|ts|], t, made + more - {this})
      ensures forall j :: 0 <= j < |ts| ==> Shows(children[j], ts[j], made + more - {this})
    {
      hide Dom, ListValid, Shows;
      ghost var all := made + more - {this};
      DomUnion(made, more);
      forall j | 0 <= j < |ts| ensures Shows(children[j], ts[j], all) {
        ShowsMore(children[j], ts[j], made - {this}, all);
      }
      ShowsMore(child, t, more, all);
      LastInside(made, this);
      DomUnlisted(child, made + more);
      var linked := LinkEndChild(child, t, made + more, View(t, this, t));
    }

    lemma FirstIsChild(nodes: set<DomNode>)
      requires Dom(nodes) && this in nodes
      ensures firstChild == ChildAt(children, 0)
    {
      assert ListValid() && Edge(children, -1);
    }

    /** The child at position k, and where its next leads. */
    lemma ChildFacts(nodes: set<DomNode>, k: nat)
      requires Dom(nodes) && this in nodes && k < |children|
      ensures children[k] in nodes && children[k].kind != DocumentNode && children[k].next == ChildAt(children, k + 1)
    {
      assert ListValid() && Edge(children, k);
    }

    /** An unlinked node is linked before a child of this node. */
    method PutBefore(node: DomNode, beforeThis: DomNode, ghost nodes: set<DomNode>)
      requires Dom(nodes) && this in nodes && node in nodes && beforeThis in nodes && beforeThis.parent == this
      requires node.parent == null && node != this && node.kind != DocumentNode
      modifies `firstChild, `children, node`parent, node`prev, node`next, beforeThis`prev, Opt(beforeThis.prev)`next
      ensures Dom(nodes)
      ensures forall k :: 0 <= k < |old(children)| && old(children)[k] == beforeThis ==>
                children == old(children)[..k] + [node] + old(children)[k..]
    {
      hide ListValid;
      ghost var k := IndexOfChild(beforeThis, nodes);
      Apart(nodes, node);
      Apart(nodes, beforeThis);
      Apart(nodes, beforeThis.prev);
      LinkBefore(node, beforeThis, k);
    }

    /** An unlinked node is linked after a child of this node. */
    method PutAfter(node: DomNode, afterThis: DomNode, ghost nodes: set<DomNode>)
      requires Dom(nodes) && this in nodes && node in nodes && afterThis in nodes && afterThis.parent == this
      requires node.parent == null && node != this && node.kind != DocumentNode
      modifies `lastChild, `children, node`parent, node`prev, node`next, afterThis`next, Opt(afterThis.next)`prev
      ensures Dom(nodes)
      ensures forall k :: 0 <= k < |old(children)| && old(children)[k] == afterThis ==>
                children == old(children)[..k + 1] + [node] + old(children)[k + 1..]
    {
      hide ListValid;
      ghost var k := IndexOfChild(afterThis, nodes);
      Apart(nodes, node);
      Apart(nodes, afterThis);
      Apart(nodes, afterThis.next);
      LinkAfter(node, afterThis, k);
    }

    /** An unlinked node is linked in place of a child of this node. */
    method PutInstead(node: DomNode, replaceThis: DomNode, ghost nodes: set<DomNode>)
      requires Dom(nodes) && this in nodes && node in nodes && replaceThis in nodes && replaceThis.parent == this
      requires node.parent == null && node != this && node.kind != DocumentNode
      modifies `firstChild, `lastChild, `children, node`parent, node`prev, node`next, replaceThis`parent,
               Opt(replaceThis.prev)`next, Opt(replaceThis.next)`prev
      ensures Dom(nodes) && replaceThis.parent == null
      ensures forall k :: 0 <= k < |old(children)| && old(children)[k] == replaceThis ==>
                children == old(children)[k := node]
    {
      hide ListValid;
      ghost var k := IndexOfChild(replaceThis, nodes);
      Apart(nodes, node);
      Apart(nodes, replaceThis);
      Apart(nodes, replaceThis.prev);
      Apart(nodes, replaceThis.next);
      ghost var was := children;
      LinkInstead(node, replaceThis, k);
      assert children[k] == node;
      forall c | c in was && c != replaceThis ensures c in children {
        var i :| 0 <= i < |was| && was[i] == c;
        assert children[i] == c;
      }
    }

    /** A copy of addThis goes before one of the children; a node from elsewhere or a document is refused. */
    method InsertBeforeChild(beforeThis: DomNode?, addThis: DomNode, ghost t: Tree, ghost nodes: set<DomNode>,
            ghost view: View)
      returns (inserted: DomNode?, ghost made: set<DomNode>)
      requires Dom(nodes) && this in nodes && addThis in nodes && Shows(addThis, t, nodes)
      requires beforeThis != null ==> beforeThis in nodes
      modifies `firstChild, `children, Opt(beforeThis)`prev, PrevOf(beforeThis)`next
      ensures Dom(nodes + made) && fresh(made)
      ensures inserted != null <==> beforeThis != null && beforeThis.parent == this && addThis.kind != DocumentNode
      ensures inserted == null ==> children == old(children)
      ensures inserted != null ==> inserted in made && Shows(inserted, Copied(t), made)
      ensures inserted != null ==> forall k :: 0 <= k < |old(children)| && old(children)[k] == beforeThis ==>
                children == old(children)[..k] + [inserted] + old(children)[k..]
      ensures inserted != null && old(Seen(this, view, nodes)) ==>
                forall k :: 0 <= k < |old(children)| && old(children)[k] == beforeThis ==>
                  Shows(view.root, old(AfterEdit(this, view, nodes, k, k, [Copied(t)])), nodes + made)
    {
      hide Dom, ListValid, Shows, ShowsAround, AllShow, AfterEdit, Edited, Copied, Seen, SameContents;
      made := {};
      assert nodes + made == nodes;
      if beforeThis == null || beforeThis.parent != this || addThis.kind == DocumentNode {
        return null, made;
      }
      ghost var k := IndexOfChild(beforeThis, nodes);
      ghost var was, held := children, Seen(this, view, nodes);
      ghost var target := AfterEdit(this, view, nodes, k, k, [Copied(t)]);
      if held {
        BeforeEdit(this, view, nodes, k, k, [Copied(t)]);
      }
      var node;
      node, made := addThis.Clone(t, nodes);
      DomUnion(nodes, made);
      PutBefore(node, beforeThis, nodes + made);
      inserted := node;
      if held {
        OneShows(node, Copied(t), made, nodes + made);
        EditShown(this, view.own, k, k, was, [node], [Copied(t)], nodes - {this}, nodes + made,
                  view.root, target);
      }
    }

    method InsertAfterChild(afterThis: DomNode?, addThis: DomNode, ghost t: Tree, ghost nodes: set<DomNode>,
            ghost view: View)
      returns (inserted: DomNode?, ghost made: set<DomNode>)
      requires Dom(nodes) && this in nodes && addThis in nodes && Shows(addThis, t, nodes)
      requires afterThis != null ==> afterThis in nodes
      modifies `lastChild, `children, Opt(afterThis)`next, NextOf(afterThis)`prev
      ensures Dom(nodes + made) && fresh(made)
      ensures inserted != null <==> afterThis != null && afterThis.parent == this && addThis.kind != DocumentNode
      ensures inserted == null ==> children == old(children)
      ensures inserted != null ==> inserted in made && Shows(inserted, Copied(t), made)
      ensures inserted != null ==> forall k :: 0 <= k < |old(children)| && old(children)[k] == afterThis ==>
                children == old(children)[..k + 1] + [inserted] + old(children)[k + 1..]
      ensures inserted != null && old(Seen(this, view, nodes)) ==>
                forall k :: 0 <= k < |old(children)| && old(children)[k] == afterThis ==>
                  Shows(view.root, old(AfterEdit(this, view, nodes, k + 1, k + 1, [Copied(t)])), nodes + made)
    {
      hide Dom, ListValid, Shows, ShowsAround, AllShow, AfterEdit, Edited, Copied, Seen, SameContents;
      made := {};
      assert nodes + made == nodes;
      if afterThis == null || afterThis.parent != this || addThis.kind == DocumentNode {
        return null, made;
      }
      ghost var k := IndexOfChild(afterThis, nodes);
      ghost var was, held := children, Seen(this, view, nodes);
      ghost var target := AfterEdit(this, view, nodes, k + 1, k + 1, [Copied(t)]);
      if held {
        BeforeEdit(this, view, nodes, k + 1, k + 1, [Copied(t)]);
      }
      var node;
      node, made := addThis.Clone(t, nodes);
      DomUnion(nodes, made);
      PutAfter(node, afterThis, nodes + made);
      inserted := node;
      if held {
        OneShows(node, Copied(t), made, nodes + made);
        EditShown(this, view.own, k + 1, k + 1, was, [node], [Copied(t)], nodes - {this}, nodes + made,
                  view.root, target);
      }
    }

    method ReplaceChild(replaceThis: DomNode?, withThis: DomNode, ghost t: Tree, ghost nodes: set<DomNode>,
            ghost view: View)
      returns (inserted: DomNode?, ghost made: set<DomNode>)
      requires Dom(nodes) && this in nodes && withThis in nodes && Shows(withThis, t, nodes)
      requires replaceThis != null ==> replaceThis in nodes
      modifies `firstChild, `lastChild, `children, Opt(replaceThis)`parent, PrevOf(replaceThis)`next,
               NextOf(replaceThis)`prev
      ensures Dom(nodes + made) && fresh(made)
      ensures inserted != null <==>
                replaceThis != null && old(NullableParent(replaceThis)) == this && withThis.kind != DocumentNode
      ensures inserted == null ==> children == old(children)
      ensures inserted != null ==> inserted in made && Shows(inserted, Copied(t), made) && replaceThis.parent == null
      ensures inserted != null ==> forall k :: 0 <= k < |old(children)| && old(children)[k] == replaceThis ==>
                children == old(children)[k := inserted]
      ensures inserted != null && old(Seen(this, view, nodes)) ==>
                forall k :: 0 <= k < |old(children)| && old(children)[k] == replaceThis ==>
                  Shows(view.root, old(AfterEdit(this, view, nodes, k, k + 1, [Copied(t)])), nodes + made)
    {
      hide Dom, ListValid, Shows, ShowsAround, AllShow, AfterEdit, Edited, Copied, Seen, SameContents;
      made := {};
      assert nodes + made == nodes;
      if replaceThis == null || replaceThis.parent != this || withThis.kind == DocumentNode {
        return null, made;
      }
      ghost var k := IndexOfChild(replaceThis, nodes);
      ghost var was, held := children, Seen(this, view, nodes);
      ghost var target := AfterEdit(this, view, nodes, k, k + 1, [Copied(t)]);
      if held {
        BeforeEdit(this, view, nodes, k, k + 1, [Copied(t)]);
      }
      var node;
      node, made := withThis.Clone(t, nodes);
      DomUnion(nodes, made);
      PutInstead(node, replaceThis, nodes + made);
      inserted := node;
      if held {
        OneShows(node, Copied(t), made, nodes + made);
        assert children == was[..k] + [node] + was[k + 1..];
        EditShown(this, view.own, k, k + 1, was, [node], [Copied(t)], nodes - {this}, nodes + made,
                  view.root, target);
      }
    }

    /** A child of this node is taken out of the list and deleted. */
    method TakeOut(removeThis: DomNode, ghost nodes: set<DomNode>)
      requires Dom(nodes) && this in nodes && removeThis in nodes && removeThis.parent == this
      modifies `firstChild, `lastChild, `children, removeThis`parent, Opt(removeThis.prev)`next,
               Opt(removeThis.next)`prev
      ensures Dom(nodes) && removeThis.parent == null
      ensures forall k :: 0 <= k < |old(children)| && old(children)[k] == removeThis ==>
                children == old(children)[..k] + old(children)[k + 1..]
    {
      hide ListValid;
      ghost var k := IndexOfChild(removeThis, nodes);
      Apart(nodes, removeThis);
      Apart(nodes, removeThis.prev);
      Apart(nodes, removeThis.next);
      Unlink(removeThis, k);
    }

    method RemoveChild(removeThis: DomNode?, ghost nodes: set<DomNode>, ghost view: View) returns (removed: bool)
      requires Dom(nodes) && this in nodes && (removeThis != null ==> removeThis in nodes)
      modifies `firstChild, `lastChild, `children, Opt(removeThis)`parent, PrevOf(removeThis)`next,
               NextOf(removeThis)`prev
      ensures Dom(nodes)
      ensures removed <==> removeThis != null && old(NullableParent(removeThis)) == this
      ensures !removed ==> children == old(children)
      ensures removed ==> removeThis.parent == null
      ensures removed ==> forall k :: 0 <= k < |old(children)| && old(children)[k] == removeThis ==>
                children == old(children)[..k] + old(children)[k + 1..]
      ensures removed && old(Seen(this, view, nodes)) ==>
                forall k :: 0 <= k < |old(children)| && old(children)[k] == removeThis ==>
                  Shows(view.root, old(AfterEdit(this, view, nodes, k, k + 1, [])), nodes)
    {
      hide Dom, ListValid, Shows, ShowsAround, AllShow, AfterEdit, Edited, Seen, SameContents;
      if removeThis == null || removeThis.parent != this {
        return false;
      }
      ghost var k := IndexOfChild(removeThis, nodes);
      ghost var was, held := children, Seen(this, view, nodes);
      ghost var target := AfterEdit(this, view, nodes, k, k + 1, []);
      if held {
        BeforeEdit(this, view, nodes, k, k + 1, []);
      }
      TakeOut(removeThis, nodes);
      removed := true;
      if held {
        NoneShow(nodes);
        assert children == was[..k] + [] + was[k + 1..];
        EditShown(this, view.own, k, k + 1, was, [], [], nodes - {this}, nodes, view.root, target);
      }
    }

    /** All the children are deleted. */
    method Clear(ghost nodes: set<DomNode>, ghost view: View)
      requires Dom(nodes) && this in nodes
      modifies `firstChild, `lastChild, `children, children`parent
      ensures Dom(nodes) && children == []
      ensures forall c :: c in old(children) ==> c.parent == null
      ensures old(Seen(this, view, nodes)) ==>
                Shows(view.root, old(AfterEdit(this, view, nodes, 0, |children|, [])), nodes)
    {
      hide ListValid, Shows, ShowsAround, AllShow, AfterEdit, Edited, Seen, SameContents;
      ghost var was, held := children, Seen(this, view, nodes);
      ghost var target := AfterEdit(this, view, nodes, 0, |children|, []);
      if held {
        BeforeEdit(this, view, nodes, 0, |children|, []);
      }
      forall c | c in was ensures forall n :: n in nodes && c in n.children ==> n == this {
        Elsewhere(nodes, c);
      }
      DeleteChildren();
      if held {
        NoneShow(nodes);
        assert children == was[..0] + [] + was[|was|..];
        EditShown(this, view.own, 0, |was|, was, [], [], nodes - {this}, nodes, view.root, target);
      }
      forall n | n in nodes ensures n.ListValid() {
        if n != this {
          assert old(n.ListValid()) && n.children == old(n.children);
          assert forall c :: c in n.children ==> c !in was && c.parent == old(c.parent);
        }
      }
      forall n | n in nodes && n.parent != null ensures n.parent in nodes && n in n.parent.children {
        assert n !in was && n.parent == old(n.parent) && n in old(n.parent.children);
      }
    }

    method DeleteChildren()
      requires ListValid()
      modifies `firstChild, `lastChild, `children, children`parent
      ensures ListValid() && children == []
      ensures forall c :: c in old(children) ==> c.parent == null
    {
      ghost var was, k := children, 0;
      assert Edge(was, -1);
      hide ListValid;
      var node := firstChild;
      while node != null
        invariant 0 <= k <= |was| && node == ChildAt(was, k)
        invariant forall i :: 0 <= i < k ==> was[i].parent == null
        decreases |was| - k
        modifies was`parent
      {
        var temp := node;
        assert old(Edge(was, k));
        node := node.next;
        temp.Delete();
        k := k + 1;
      }
      firstChild := null;
      lastChild := null;
      children := [];
      EmptyList();
    }

    lemma EmptyList()
      requires children == [] && firstChild == null && lastChild == null
      ensures ListValid()
    {
    }

    /** Where a child stands; its neighbours are children of the same node. */
    lemma IndexOfChild(c: DomNode, nodes: set<DomNode>) returns (k: nat)
      requires Dom(nodes) && this in nodes && c in nodes && c.parent == this
      ensures ListValid() && k < |children| && children[k] == c
      ensures forall i :: 0 <= i < |children| && children[i] == c ==> i == k
      ensures c.prev == ChildAt(children, k - 1) && c.next == ChildAt(children, k + 1)
      ensures c.prev != null ==> c.prev.parent == this && c.prev in children
      ensures c.next != null ==> c.next.parent == this && c.next in children
    {
      k :| 0 <= k < |children| && children[k] == c;
      assert Edge(children, k - 1) && Edge(children, k);
    }

    lemma LastIsChild()
      requires ListValid()
      ensures lastChild != null ==> lastChild in children && lastChild.parent == this
    {
      assert Edge(children, |children| - 1);
    }
  }

  // ---- what a node shows ----

  /** The node and what is below it, all in `region`, have the contents and the structure of t. */
  ghost predicate Shows(n: DomNode, t: Tree, region: set<DomNode>)
    reads region`value, region`cdata, region`attributes, region`declared, region`mark, region`children
    decreases t
  {
    && n in region && n.kind == t.kind && n.value == t.value && n.cdata == t.cdata && n.attributes == t.attributes
    && n.declared == t.declared && n.mark == t.mark && |n.children| == |t.children|
    && forall i :: 0 <= i < |t.children| ==> Shows(n.children[i], t.children[i], region)
  }

  /** What Clone keeps: the attributes walked are set one by one, and only elements and documents copy their children. */
  function Copied(t: Tree): Tree {
    Tree(t.kind, t.value, t.kind == TextNode && t.cdata,
         if t.kind == ElementNode then SetAll([], Walked(t.attributes)) else [],
         if t.kind == DeclarationNode then t.declared else NOT_DECLARED,
         t.mark,
         if t.kind == ElementNode || t.kind == DocumentNode then
           seq(|t.children|, i requires 0 <= i < |t.children| => Copied(t.children[i]))
         else [])
  }

  lemma CopiedChildren(t: Tree)
    ensures |Copied(t).children| == if t.kind == ElementNode || t.kind == DocumentNode then |t.children| else 0
    ensures forall j :: 0 <= j < |Copied(t).children| ==> Copied(t).children[j] == Copied(t.children[j])
  {
    hide SetAll, Walked;
  }

  lemma ShowsContents(n: DomNode, t: Tree, region: set<DomNode>)
    requires Shows(n, t, region)
    ensures SameContents(n, t) && n.kind == t.kind
  {
  }

  lemma ContentsShow(n: DomNode, t: Tree, region: set<DomNode>)
    requires SameContents(n, t) && n in region && |n.children| == |t.children|
    requires forall j :: 0 <= j < |t.children| ==> Shows(n.children[j], t.children[j], region)
    ensures Shows(n, t, region)
  {
  }

  /** The trees the library builds: distinct attribute names, and contents only where they belong. */
  predicate Proper(t: Tree) {
    && DistinctNames(t.attributes) && (t.kind != ElementNode ==> t.attributes == [])
    && (forall k :: 0 < k < |t.attributes| ==> t.attributes[k] != BLANK)
    && (t.kind != DeclarationNode ==> t.declared == NOT_DECLARED)
    && (t.cdata ==> t.kind == TextNode)
    && (t.kind != ElementNode && t.kind != DocumentNode ==> t.children == [])
    && forall i :: 0 <= i < |t.children| ==> Proper(t.children[i])
  }

  lemma {:induction false} CopiedSame(t: Tree)
    requires Proper(t)
    ensures Copied(t) == t
  {
    hide SetAll, Walked, DistinctNames;
    AttributesCopied(t.attributes);
    forall i | 0 <= i < |t.children| ensures Copied(t.children[i]) == t.children[i] {
      CopiedSame(t.children[i]);
    }
    assert Copied(t).children == t.children;
  }

  lemma AttributesCopied(s: seq<Attribute>)
    requires DistinctNames(s) && forall k :: 0 < k < |s| ==> s[k] != BLANK
    ensures SetAll([], Walked(s)) == s
  {
    WalkedAll(s);
    assert [] + s == s;
    SetAllRebuilds([], s);
  }

  /** Of an element with a blank attribute behind the first one a copy has the attributes before it. */
  lemma CopiedUpToBlank(t: Tree, first: Attribute, more: seq<Attribute>, behind: seq<Attribute>)
    requires t.kind == ElementNode && t.attributes == [first] + more + [BLANK] + behind
    requires DistinctNames([first] + more) && forall k :: 0 <= k < |more| ==> more[k] != BLANK
    ensures Copied(t).attributes == [first] + more
  {
    hide SetAll, Walked, DistinctNames;
    WalkedUpTo(first, more, behind);
    var s := [first] + more;
    assert [] + s == s;
    SetAllRebuilds([], s);
  }

  lemma {:induction false} ShowsMore(n: DomNode, t: Tree, region: set<DomNode>, more: set<DomNode>)
    requires Shows(n, t, region) && region <= more
    ensures Shows(n, t, more)
    decreases t
  {
    forall i | 0 <= i < |t.children| ensures Shows(n.children[i], t.children[i], more) {
      ShowsMore(n.children[i], t.children[i], region, more);
    }
  }

  lemma ShowsParts(n: DomNode, t: Tree, region: set<DomNode>)
    requires Shows(n, t, region)
    ensures |n.children| == |t.children|
    ensures forall i :: 0 <= i < |t.children| ==> Shows(n.children[i], t.children[i], region)
  {
  }

  lemma LastInside(nodes: set<DomNode>, n: DomNode)
    requires Dom(nodes) && n in nodes
    ensures n.lastChild != null ==> n.lastChild in nodes && n.lastChild.parent == n
  {
    n.LastIsChild();
  }

  lemma ChildAtEnd(s: seq<DomNode>)
    ensures forall k :: 0 <= k <= |s| ==> (ChildAt(s, k) == null <==> k == |s|)
  {
  }

  lemma SingleDom(n: DomNode)
    requires n.parent == null && n.firstChild == null && n.lastChild == null && n.children == []
    ensures Dom({n})
  {
  }

  lemma DomUnion(a: set<DomNode>, b: set<DomNode>)
    requires Dom(a) && Dom(b)
    ensures Dom(a + b)
  {
    hide DomNode.ListValid;
  }

  lemma Apart(nodes: set<DomNode>, c: DomNode?)
    requires Dom(nodes)
    ensures c != null ==> forall n :: n in nodes && c in n.children ==> c.parent == n
  {
    if c != null {
      Elsewhere(nodes, c);
    }
  }

  /** A node is in the child list of its parent only. */
  lemma Elsewhere(nodes: set<DomNode>, c: DomNode)
    requires Dom(nodes)
    ensures forall n :: n in nodes && c in n.children ==> c.parent == n
  {
    assert forall n :: n in nodes ==> n.ListValid();
  }

  /** Every child list is well formed, and a node with a parent is in that parent's list. */
  ghost predicate Dom(nodes: set<DomNode>)
    reads nodes`firstChild, nodes`lastChild, nodes`children, nodes`parent, nodes`prev, nodes`next
  {
    && (forall n :: n in nodes ==> Inside(n, nodes))
    && (forall n :: n in nodes && n.parent != null ==> n.parent in nodes && n in n.parent.children)
    && (forall n :: n in nodes ==> n.ListValid())
  }

  /** Like Dom, except that the node is in no list and may nevertheless have a parent. */
  ghost predicate Unlisted(node: DomNode, nodes: set<DomNode>)
    reads nodes`firstChild, nodes`lastChild, nodes`children, nodes`parent, nodes`prev, nodes`next
  {
    && (forall n :: n in nodes ==> Inside(n, nodes) && node !in n.children)
    && (forall n :: n in nodes && n != node && n.parent != null ==> n.parent in nodes && n in n.parent.children)
    && (forall n :: n in nodes ==> n.ListValid())
  }

  lemma DomUnlisted(node: DomNode, nodes: set<DomNode>)
    requires Dom(nodes) && node in nodes && node.parent == null
    ensures Unlisted(node, nodes)
  {
    Elsewhere(nodes, node);
  }

  lemma OneList(nodes: set<DomNode>)
    requires forall n :: n in nodes ==> n.ListValid()
    ensures forall n, c :: n in nodes && c in n.children ==> c.parent == n
  {
  }

  ghost predicate Inside(n: DomNode, nodes: set<DomNode>)
    reads n`children
  {
    forall c :: c in n.children ==> c in nodes
  }

  // ---- what an operation does to the trees shown ----

  /** A node shows at most one tree. */
  lemma {:induction false} ShowsOne(n: DomNode, t: Tree, s: Tree, region: set<DomNode>)
    requires Shows(n, t, region) && Shows(n, s, region)
    ensures t == s
    decreases t
  {
    forall i | 0 <= i < |t.children| ensures t.children[i] == s.children[i] {
      ShowsOne(n.children[i], t.children[i], s.children[i], region);
    }
    assert t.children == s.children;
  }

  /** No node stands in a tree smaller than its own. */
  lemma {:induction false} ShowsWithout(n: DomNode, t: Tree, m: DomNode, s: Tree, region: set<DomNode>)
    requires Shows(n, t, region) && Shows(m, s, region) && t < s
    ensures Shows(n, t, region - {m})
    decreases t
  {
    if n == m {
      ShowsOne(n, t, s, region);
      assert false;
    }
    forall i | 0 <= i < |t.children| ensures Shows(n.children[i], t.children[i], region - {m}) {
      assert t.children[i] < t;
      ShowsWithout(n.children[i], t.children[i], m, s, region);
    }
  }

  /** So what a node's children show does not involve the node. */
  lemma ChildrenShow(m: DomNode, s: Tree, region: set<DomNode>)
    requires Shows(m, s, region)
    ensures |m.children| == |s.children|
    ensures forall i :: 0 <= i < |m.children| ==> Shows(m.children[i], s.children[i], region - {m})
  {
    forall i | 0 <= i < |m.children| ensures Shows(m.children[i], s.children[i], region - {m}) {
      assert s.children[i] < s;
      ShowsWithout(m.children[i], s.children[i], m, s, region);
    }
  }

  /** Node by node, ns show ts. */
  ghost predicate AllShow(ns: seq<DomNode>, ts: seq<Tree>, region: set<DomNode>)
    reads region`value, region`cdata, region`attributes, region`declared, region`mark, region`children
  {
    |ns| == |ts| && forall i :: 0 <= i < |ts| ==> Shows(ns[i], ts[i], region)
  }

  /** The tree with its children from `from` up to `to` replaced by `added`. */
  function Edited(t: Tree, from: nat, to: nat, added: seq<Tree>): Tree {
    if from <= to <= |t.children| then t.(children := t.children[..from] + added + t.children[to..]) else t
  }

  /** Like Shows, except that m counts as showing s. */
  ghost predicate ShowsAround(n: DomNode, t: Tree, region: set<DomNode>, m: DomNode, s: Tree)
    reads region`value, region`cdata, region`attributes, region`declared, region`mark, region`children
    decreases t
  {
    if n == m then t == s
    else
      && n in region && n.kind == t.kind && n.value == t.value && n.cdata == t.cdata && n.attributes == t.attributes
      && n.declared == t.declared && n.mark == t.mark && |n.children| == |t.children|
      && forall i :: 0 <= i < |t.children| ==> ShowsAround(n.children[i], t.children[i], region, m, s)
  }

  /** The tree t of n with what m shows replaced by s. */
  ghost function Replaced(n: DomNode, t: Tree, region: set<DomNode>, m: DomNode, s: Tree): Tree
    requires Shows(n, t, region)
    reads region`value, region`cdata, region`attributes, region`declared, region`mark, region`children
    decreases t, 0
  {
    if n == m then s
    else t.(children := ReplacedFrom(n.children, t.children, 0, region, m, s))
  }

  ghost function ReplacedFrom(ns: seq<DomNode>, ts: seq<Tree>, k: nat, region: set<DomNode>, m: DomNode, s: Tree):
      (r: seq<Tree>)
    requires |ns| == |ts| && k <= |ts| && forall i :: 0 <= i < |ts| ==> Shows(ns[i], ts[i], region)
    reads region`value, region`cdata, region`attributes, region`declared, region`mark, region`children
    ensures |r| == |ts| - k && forall i :: k <= i < |ts| ==> r[i - k] == Replaced(ns[i], ts[i], region, m, s)
    decreases ts, |ts| - k
  {
    if k == |ts| then []
    else [Replaced(ns[k], ts[k], region, m, s)] + ReplacedFrom(ns, ts, k + 1, region, m, s)
  }

  lemma {:induction false} ReplacedAround(n: DomNode, t: Tree, region: set<DomNode>, m: DomNode, s: Tree)
    requires Shows(n, t, region)
    ensures ShowsAround(n, Replaced(n, t, region, m, s), region - {m}, m, s)
    decreases t
  {
    if n != m {
      var r := ReplacedFrom(n.children, t.children, 0, region, m, s);
      forall i | 0 <= i < |t.children| ensures ShowsAround(n.children[i], r[i], region - {m}, m, s) {
        ReplacedAround(n.children[i], t.children[i], region, m, s);
        assert r[i - 0] == Replaced(n.children[i], t.children[i], region, m, s);
      }
    }
  }

  lemma {:induction false} AroundShows(n: DomNode, t: Tree, region: set<DomNode>, m: DomNode, s: Tree,
          whole: set<DomNode>)
    requires ShowsAround(n, t, region, m, s) && Shows(m, s, whole) && region <= whole
    ensures Shows(n, t, whole)
    decreases t
  {
    if n != m {
      forall i | 0 <= i < |t.children| ensures Shows(n.children[i], t.children[i], whole) {
        AroundShows(n.children[i], t.children[i], region, m, s, whole);
      }
    }
  }

  ghost predicate Seen(m: DomNode, view: View, nodes: set<DomNode>)
    reads nodes`value, nodes`cdata, nodes`attributes, nodes`declared, nodes`mark, nodes`children
  {
    Shows(m, view.own, nodes) && Shows(view.root, view.whole, nodes)
  }

  /** What the root shows once the children of m from `from` up to `to` are replaced by nodes that show ts. */
  ghost function AfterEdit(m: DomNode, view: View, nodes: set<DomNode>, from: nat, to: nat, ts: seq<Tree>): Tree
    reads nodes`value, nodes`cdata, nodes`attributes, nodes`declared, nodes`mark, nodes`children
  {
    if Seen(m, view, nodes) then Replaced(view.root, view.whole, nodes, m, Edited(view.own, from, to, ts))
    else view.whole
  }

  /** Before m is edited: its children show their trees, and the root its new tree, without regard to m. */
  lemma BeforeEdit(m: DomNode, view: View, nodes: set<DomNode>, from: nat, to: nat, ts: seq<Tree>)
    requires Seen(m, view, nodes)
    ensures AllShow(m.children, view.own.children, nodes - {m}) && SameContents(m, view.own) && m in nodes
    ensures ShowsAround(view.root, AfterEdit(m, view, nodes, from, to, ts), nodes - {m}, m,
                        Edited(view.own, from, to, ts))
  {
    hide Edited;
    ChildrenShow(m, view.own, nodes);
    ReplacedAround(view.root, view.whole, nodes, m, Edited(view.own, from, to, ts));
  }

  ghost predicate SameContents(n: DomNode, t: Tree)
    reads n`value, n`cdata, n`attributes, n`declared, n`mark
  {
    n.kind == t.kind && n.value == t.value && n.cdata == t.cdata && n.attributes == t.attributes
    && n.declared == t.declared && n.mark == t.mark
  }

  /** After it: m shows the edited tree, and the root its new one. */
  lemma EditShown(m: DomNode, own: Tree, from: nat, to: nat, was: seq<DomNode>, added: seq<DomNode>, ts: seq<Tree>,
          region: set<DomNode>, all: set<DomNode>, root: DomNode, target: Tree)
    requires region <= all && from <= to <= |was| && m.children == was[..from] + added + was[to..]
    requires AllShow(was, own.children, region) && AllShow(added, ts, all)
    requires m in all && SameContents(m, own)
    requires ShowsAround(root, target, region, m, Edited(own, from, to, ts))
    ensures Shows(m, Edited(own, from, to, ts), all) && Shows(root, target, all)
  {
    hide ShowsAround;
    var edited := Edited(own, from, to, ts);
    forall i | 0 <= i < |edited.children| ensures Shows(m.children[i], edited.children[i], all) {
      if i < from {
        ShowsMore(was[i], own.children[i], region, all);
      } else if i >= from + |added| {
        var j := i - |added| + to - from;
        assert m.children[i] == was[j] && edited.children[i] == own.children[j];
        ShowsMore(was[j], own.children[j], region, all);
      } else {
        assert m.children[i] == added[i - from] && edited.children[i] == ts[i - from];
      }
    }
    AroundShows(root, target, region, m, edited, all);
  }

  /** Seen from the edited node itself, the new tree is the edited one. */
  lemma EditedHere(m: DomNode, own: Tree, nodes: set<DomNode>, from: nat, to: nat, ts: seq<Tree>)
    requires Shows(m, own, nodes)
    ensures AfterEdit(m, View(own, m, own), nodes, from, to, ts) == Edited(own, from, to, ts)
  {
  }

  /** A tree in which the edited node does not stand stays as it is. */
  lemma EditedElsewhere(m: DomNode, view: View, nodes: set<DomNode>, from: nat, to: nat, ts: seq<Tree>)
    requires Seen(m, view, nodes) && Shows(view.root, view.whole, nodes - {m})
    ensures AfterEdit(m, view, nodes, from, to, ts) == view.whole
  {
    ReplacedElsewhere(view.root, view.whole, nodes, m, Edited(view.own, from, to, ts));
  }

  lemma {:induction false} ReplacedElsewhere(n: DomNode, t: Tree, region: set<DomNode>, m: DomNode, s: Tree)
    requires Shows(n, t, region) && Shows(n, t, region - {m})
    ensures Replaced(n, t, region, m, s) == t
    decreases t
  {
    var r := ReplacedFrom(n.children, t.children, 0, region, m, s);
    forall i | 0 <= i < |t.children| ensures r[i] == t.children[i] {
      ReplacedElsewhere(n.children[i], t.children[i], region, m, s);
      assert r[i - 0] == Replaced(n.children[i], t.children[i], region, m, s);
    }
    assert r == t.children;
  }

  lemma NoneShow(all: set<DomNode>)
    ensures AllShow([], [], all)
  {
  }

  lemma OneShows(n: DomNode, t: Tree, region: set<DomNode>, all: set<DomNode>)
    requires Shows(n, t, region) && region <= all
    ensures AllShow([n], [t], all)
  {
    ShowsMore(n, t, region, all);
  }

  // ---- what a well-formed document gives to its readers ----

  /** Siblings point back at each other, stay under one parent, and the ends are first and last. */
  lemma SiblingLinks(nodes: set<DomNode>, n: DomNode)
    requires Dom(nodes) && n in nodes && n.parent != null
    ensures n.next != null ==> n.next in nodes && n.next.prev == n && n.next.parent == n.parent
    ensures n.prev != null ==> n.prev in nodes && n.prev.next == n && n.prev.parent == n.parent
    ensures n.next == null <==> n.parent.lastChild == n
    ensures n.prev == null <==> n.parent.firstChild == n
  {
    var p := n.parent;
    var k: int := p.IndexOfChild(n, nodes);
    assert p.Edge(p.children, k - 1) && p.Edge(p.children, k) && p.Edge(p.children, -1);
    assert p.Edge(p.children, |p.children| - 1);
  }

  /** No linked node leads to one that was deleted. */
  lemma DeletedUnreachable(nodes: set<DomNode>, deleted: DomNode, n: DomNode)
    requires Dom(nodes) && deleted in nodes && n in nodes && deleted.parent == null
    ensures n.firstChild != deleted && n.lastChild != deleted
    ensures n.parent != null ==> n.next != deleted && n.prev != deleted
  {
    n.FirstIsChild(nodes);
    n.LastIsChild();
    Elsewhere(nodes, deleted);
    if n.parent != null {
      SiblingLinks(nodes, n);
    }
  }
}
