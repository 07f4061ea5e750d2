/** The parsed document the converter walks: an element tree as
    xml.etree.ElementTree builds it, and its pre-order listing, which is
    the order in which ElementTree's iter() yields the elements. */
module Documents {
  import opened Outcomes

  /** An element: its tag, its attributes, the text before its first
      child (None for an element without text) and its children in
      document order. */
  datatype Element = Element(tag: string, attrs: map<string, string>, text: Option<string>, children: seq<Element>)

  /** tree.iter(): the element itself, then each child's subtree in turn. */
  function Flatten(e: Element): seq<Element>
    decreases e, |e.children| + 1
  {
    [e] + FlattenFrom(e, 0)
  }

  /** The pre-order listings of the subtrees of e's children i, i+1, ...,
      one after another. */
  function FlattenFrom(e: Element, i: nat): seq<Element>
    requires i <= |e.children|
    decreases e, |e.children| - i
  {
    if i == |e.children| then [] else Flatten(e.children[i]) + FlattenFrom(e, i + 1)
  }

  predicate IsLeaf(e: Element) { e.children == [] }

  /** Every element of the subtree of child j >= i is listed. */
  lemma {:induction false} FlattenFromContains(e: Element, i: nat, j: nat, x: Element)
    requires i <= j < |e.children| && x in Flatten(e.children[j])
    ensures x in FlattenFrom(e, i)
    decreases j - i
  {
    if i < j {
      FlattenFromContains(e, i + 1, j, x);
    }
  }

  /** The walk is structure-blind: every element nested anywhere under a
      child of e is listed when e is walked. */
  lemma DescendantsAreListed(e: Element, j: nat, x: Element)
    requires j < |e.children| && x in Flatten(e.children[j])
    ensures x in Flatten(e)
  {
    FlattenFromContains(e, 0, j, x);
  }

  /** Children without children of their own are listed right after their
      parent, in document order. */
  lemma {:induction false} FlattenFromLeaves(e: Element, i: nat)
    requires i <= |e.children|
    requires forall k :: 0 <= k < |e.children| ==> IsLeaf(e.children[k])
    ensures FlattenFrom(e, i) == e.children[i..]
    decreases |e.children| - i
  {
    if i < |e.children| {
      FlattenFromLeaves(e, i + 1);
      assert FlattenFrom(e, 1 + i) == e.children[i + 1..];
      assert Flatten(e.children[i]) == [e.children[i]];
      assert e.children[i..] == [e.children[i]] + e.children[i + 1..];
    }
  }

  /** A document whose children are leaves is listed as the root followed
      by its children in order; a lone element is listed alone. */
  lemma FlatDocument(e: Element)
    requires forall k :: 0 <= k < |e.children| ==> IsLeaf(e.children[k])
    ensures Flatten(e) == [e] + e.children
  {
    FlattenFromLeaves(e, 0);
  }

  // ---------------------------------------------------------------------
  // The listing is exactly the pre-order of the tree

  /** The number of elements in the tree rooted at e. */
  function Size(e: Element): nat
    decreases e, |e.children| + 1
  {
    1 + SizeFrom(e, 0)
  }

  /** The sizes of the subtrees of e's children i, i+1, ..., added up. */
  function SizeFrom(e: Element, i: nat): nat
    requires i <= |e.children|
    decreases e, |e.children| - i
  {
    if i == |e.children| then 0 else Size(e.children[i]) + SizeFrom(e, i + 1)
  }

  /** The sizes of the subtrees of e's children before child j. */
  function SizeBefore(e: Element, j: nat): nat
    requires j <= |e.children|
  {
    if j == 0 then 0 else SizeBefore(e, j - 1) + Size(e.children[j - 1])
  }

  /** Every element of the tree is listed once: the listing has one entry
      per element. */
  lemma {:induction false} FlattenSize(e: Element)
    ensures |Flatten(e)| == Size(e)
    decreases e, |e.children| + 1
  {
    FlattenFromSize(e, 0);
  }

  lemma {:induction false} FlattenFromSize(e: Element, i: nat)
    requires i <= |e.children|
    ensures |FlattenFrom(e, i)| == SizeFrom(e, i)
    decreases e, |e.children| - i
  {
    if i < |e.children| {
      FlattenSize(e.children[i]);
      FlattenFromSize(e, i + 1);
    }
  }

  /** Whatever the listing from child i on holds lies in the subtree of
      some child j >= i. */
  lemma {:induction false} FlattenFromMembers(e: Element, i: nat, x: Element)
    requires i <= |e.children| && x in FlattenFrom(e, i)
    ensures exists j :: i <= j < |e.children| && x in Flatten(e.children[j])
    decreases |e.children| - i
  {
    if x !in Flatten(e.children[i]) {
      FlattenFromMembers(e, i + 1, x);
    }
  }

  /** The listing holds e and the elements of its children's subtrees, and
      nothing else. */
  lemma {:induction false} ListedExactly(e: Element, x: Element)
    ensures x in Flatten(e) <==> x == e || exists j :: 0 <= j < |e.children| && x in Flatten(e.children[j])
  {
    if x in Flatten(e) && x != e {
      FlattenFromMembers(e, 0, x);
    }
    if exists j :: 0 <= j < |e.children| && x in Flatten(e.children[j]) {
      var j :| 0 <= j < |e.children| && x in Flatten(e.children[j]);
      DescendantsAreListed(e, j, x);
    }
  }

  /** The children's listings follow one another: after the subtrees of
      the children before j comes the listing from child j on. */
  lemma {:induction false} FlattenFromOffset(e: Element, j: nat)
    requires j <= |e.children|
    ensures SizeBefore(e, j) <= |FlattenFrom(e, 0)|
    ensures FlattenFrom(e, 0)[SizeBefore(e, j)..] == FlattenFrom(e, j)
  {
    if j > 0 {
      FlattenFromOffset(e, j - 1);
      var c := e.children[j - 1];
      FlattenSize(c);
      var rest := FlattenFrom(e, 0)[SizeBefore(e, j - 1)..];
      assert rest == Flatten(c) + FlattenFrom(e, j);
      assert rest[Size(c)..] == FlattenFrom(e, j);
    }
  }

  /** A block found at offset k of a stays a block, one place later, once
      an element is put in front. */
  lemma {:induction false} SliceAfterHead<T>(whole: seq<T>, x: T, a: seq<T>, k: nat, b: seq<T>, c: seq<T>)
    requires whole == [x] + a
    requires k <= |a| && a[k..] == b + c
    ensures whole[0] == x
    ensures 1 + k + |b| <= |whole| && whole[1 + k..1 + k + |b|] == b
  {
    assert whole[1 + k..] == a[k..];
  }

  /** Pre-order: e comes first, and child j's subtree is listed as one
      block, right after e and the subtrees of the children before it. */
  lemma {:induction false} ChildBlock(e: Element, j: nat)
    requires j < |e.children|
    ensures Flatten(e)[0] == e
    ensures var o := 1 + SizeBefore(e, j);
            && o + Size(e.children[j]) <= |Flatten(e)|
            && Flatten(e)[o..o + Size(e.children[j])] == Flatten(e.children[j])
  {
    var c := e.children[j];
    FlattenFromOffset(e, j);
    FlattenSize(c);
    SliceAfterHead(Flatten(e), e, FlattenFrom(e, 0), SizeBefore(e, j), Flatten(c), FlattenFrom(e, j + 1));
  }
}
