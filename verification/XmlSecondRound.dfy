// A document that was printed and parsed once comes back unchanged from then on.

module XmlSecondRound {
  import opened CStrings
  import opened XmlText
  import opened XmlTree
  import opened XmlParse
  import opened XmlRoundTrip

  // ---- condensing creates no reference ----

  lemma {:induction false} SqueezePendingStart(s: string)
    ensures Squeeze(s, true) == "" || Squeeze(s, true)[0] == ' '
  {
    if s != "" && s[0] == ' ' {
      SqueezePendingStart(s[1..]);
    }
  }

  /** A squeezed text that does not begin with a space begins like the text itself. */
  lemma SqueezeStart(s: string)
    ensures var q := Squeeze(s, false);
            q != "" && q[0] != ' ' ==> s != "" && q[0] == s[0] && q[1..] == Squeeze(s[1..], false)
  {
    if s != "" && s[0] == ' ' {
      SqueezePendingStart(s[1..]);
    }
  }

  lemma SqueezeStartsReference(s: string)
    requires StartsReference(Squeeze(s, false))
    ensures StartsReference(s)
  {
    hide Squeeze;
    SqueezeStart(s);
    SqueezeStart(s[1..]);
    SqueezeStart(s[1..][1..]);
    var q := Squeeze(s, false);
    assert q[1..][0] == q[1] && q[1..][1..][0] == q[2];
  }

  lemma {:induction false} SqueezeCreatesNone(s: string, pending: bool)
    requires !HasReference(s)
    ensures !HasReference(Squeeze(s, pending))
  {
    hide HasReference;
    if s == "" {
      NoReferenceInNothing();
    } else {
      HasReferenceTail(s);
      SqueezeCreatesNone(s[1..], s[0] == ' ');
      if s[0] != ' ' {
        var q := [s[0]] + Squeeze(s[1..], false);
        assert q[1..] == Squeeze(s[1..], false) && q == Squeeze(s, false);
        HasReferenceTail(q);
        if StartsReference(q) {
          SqueezeStartsReference(s);
        }
        assert (" " + q)[1..] == q;
        HasReferenceTail(" " + q);
        assert Squeeze(s, pending) == if pending then " " + q else q;
      }
    }
  }

  lemma CondenseCreatesNone(s: string)
    requires !HasReference(s)
    ensures !HasReference(Condense(s))
  {
    hide HasReference, Squeeze, DropSpaces;
    StripEncoded(s, "");
    SqueezeCreatesNone(DropSpaces(s), false);
  }

  // ---- the tree read back has tidy texts ----

  lemma {:induction false} TidyIsTidy(node: Node)
    requires !PlainText(node)
    ensures TidyTree(Tidy(node))
    decreases node, 0
  {
    if node.Element? {
      TidyFromIsTidy(node.children, 0);
    }
  }

  lemma {:induction false} TidyFromIsTidy(children: seq<Node>, k: nat)
    requires k <= |children|
    ensures forall j :: 0 <= j < |TidyFrom(children, k)| ==> TidyTree(TidyFrom(children, k)[j])
    decreases children, |children| - k
  {
    hide Tidy, Blank, Condensed, Condense;
    if k < |children| {
      TidyFromIsTidy(children, k + 1);
      if PlainText(children[k]) {
        CondenseMeaning(children[k].value);
      } else {
        TidyIsTidy(children[k]);
      }
    }
  }

  // ---- the tree read back can be read back ----

  predicate NoAdjacentTexts(children: seq<Node>) {
    forall k :: 0 < k < |children| ==> !(PlainText(children[k - 1]) && PlainText(children[k]))
  }

  /** What Readable asks of the children of an element. */
  predicate Insides(children: seq<Node>) {
    && (forall k :: 0 <= k < |children| ==> Readable(children[k]) && !EndTagLike(children[k]))
    && NoAdjacentTexts(children)
  }

  /** A tidied text or other child, and whether it is plain text. */
  lemma {:induction false} TidyChildReadable(child: Node)
    requires Readable(child)
    ensures |TidyChild(child)| <= 1
    ensures TidyChild(child) != [] ==> Readable(TidyChild(child)[0])
    ensures TidyChild(child) != [] ==> EndTagLike(TidyChild(child)[0]) == EndTagLike(child)
    ensures TidyChild(child) != [] ==> PlainText(TidyChild(child)[0]) == PlainText(child)
    ensures TidyChild(child) == [] ==> PlainText(child)
    decreases child, 1
  {
    hide HasReference, Condense, Blank, Readable;
    if PlainText(child) {
      PlainIsReadable(child.value);
      PlainIsReadable(Condense(child.value));
      CondenseCreatesNone(child.value);
    } else {
      TidyReadable(child);
    }
  }

  lemma PlainIsReadable(value: string)
    ensures Readable(Text(value, false)) <==> !HasReference(value)
  {
  }

  lemma {:induction false} TidyReadable(node: Node)
    requires Readable(node) && !PlainText(node)
    ensures Readable(Tidy(node)) && !PlainText(Tidy(node)) && EndTagLike(Tidy(node)) == EndTagLike(node)
    decreases node, 0
  {
    if node.Element? {
      hide ReadableName, ReadableAttributes, TidyFrom;
      TidyFromReadable(node.children, 0);
    }
  }

  /** Dropping a blank text never makes two texts neighbours. */
  lemma {:induction false} TidyFromReadable(children: seq<Node>, k: nat)
    requires k <= |children| && Insides(children)
    ensures Insides(TidyFrom(children, k))
    ensures TidyFrom(children, k) != [] && PlainText(TidyFrom(children, k)[0]) ==>
              k < |children| && PlainText(children[k])
    decreases children, |children| - k
  {
    hide Readable, TidyChild, PlainText, EndTagLike, Insides;
    if k == |children| {
      NothingInside();
    } else {
      InsideAt(children, k);
      TidyFromReadable(children, k + 1);
      TidyChildReadable(children[k]);
      var head, rest := TidyChild(children[k]), TidyFrom(children, k + 1);
      if head == [] {
        assert head + rest == rest;
      } else {
        assert head + rest == [head[0]] + rest;
        InsidesCons(head[0], rest);
      }
    }
  }

  lemma NothingInside()
    ensures Insides([])
  {
  }

  lemma InsideAt(children: seq<Node>, k: nat)
    requires Insides(children) && k < |children|
    ensures Readable(children[k]) && !EndTagLike(children[k])
    ensures PlainText(children[k]) && k + 1 < |children| ==> !PlainText(children[k + 1])
  {
    hide Readable, PlainText, EndTagLike;
    assert k + 1 < |children| ==> !(PlainText(children[k + 1 - 1]) && PlainText(children[k + 1]));
  }

  lemma InsidesCons(first: Node, rest: seq<Node>)
    requires Readable(first) && !EndTagLike(first) && Insides(rest)
    requires rest != [] ==> !(PlainText(first) && PlainText(rest[0]))
    ensures Insides([first] + rest)
  {
    hide PlainText, Readable, EndTagLike;
    var all := [first] + rest;
    forall k | 0 < k < |all| ensures !(PlainText(all[k - 1]) && PlainText(all[k])) {
      assert all[k] == rest[k - 1];
      if k > 1 {
        assert all[k - 1] == rest[k - 2];
      }
    }
  }

  /** At the top level, where there is no plain text, every node stays and is tidied. */
  lemma {:induction false} TidiedTopLevel(children: seq<Node>, k: nat)
    requires k <= |children| && forall i :: 0 <= i < |children| ==> Readable(children[i]) && !PlainText(children[i])
    ensures var t := TidyFrom(children, k);
            |t| == |children| - k && forall i :: 0 <= i < |t| ==> Readable(t[i]) && !PlainText(t[i]) && TidyTree(t[i])
    decreases |children| - k
  {
    hide Readable, Tidy, PlainText, TidyTree;
    if k < |children| {
      TidiedTopLevel(children, k + 1);
      TidyReadable(children[k]);
      TidyIsTidy(children[k]);
      assert TidyFrom(children, k) == [Tidy(children[k])] + TidyFrom(children, k + 1);
    }
  }

  /** What is read back from a print can be printed and read back again. */
  lemma TidiedIsReadable(children: seq<Node>)
    requires ReadableDocument(children)
    ensures ReadableDocument(TidyFrom(children, 0)) && TidyDocument(TidyFrom(children, 0))
  {
    hide Readable, PlainText, TidyTree, TidyFrom;
    TidiedTopLevel(children, 0);
  }

  /**
   * After one round of printing and parsing the document is stable: printed
   * in any white layout, the tree that was read is parsed to itself.
   */
  lemma SecondRound(first: Layout, second: Layout, children: seq<Node>)
    requires WhiteLayout(first) && WhiteLayout(second) && ReadableDocument(children)
    ensures var read := ParseDocument(PrintDocument(first, children)).children;
            var r := ParseDocument(PrintDocument(second, read));
            r.children == read && r.error == None && !More(r.next)
  {
    hide ParseDocument, PrintDocument, ReadableDocument, TidyDocument, TidyFrom, WhiteLayout;
    DocumentRoundTrip(first, children);
    TidiedIsReadable(children);
    DocumentRoundTrip(second, TidyFrom(children, 0));
    TreeRoundTrip(second, TidyFrom(children, 0));
  }
}
