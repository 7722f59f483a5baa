/**
 * NodeWrapper.iterateAxis and SaxonEnumeration: which iterator a wrapper
 * hands to Saxon for each axis, and how the enumeration steps through a
 * Treetank axis.
 *
 * The iterator chosen is modelled as a tag naming it; what Saxon's own
 * iterators and the node test do with it is not part of this model. The
 * tags of the Treetank axes are given a meaning by `Members`, the node keys
 * the axis delivers, so that each short-circuit can be checked against the
 * axis it stands for.
 */
module NodeWrapperAxis {
  import opened Wrappers
  import TreeStore
  import NodeWrapper
  import TreetankAxis

  /** A Java `byte`, the type of Saxon's axis numbers. */
  newtype byte = x: int | -128 <= x < 128

  /** The thirteen XPath 2.0 axes and Saxon's preceding-or-ancestor. */
  datatype Axis =
    | Ancestor | AncestorOrSelf | Attribute | Child | Descendant | DescendantOrSelf
    | Following | FollowingSibling | Namespace | Parent | Preceding | PrecedingSibling
    | Self | PrecedingOrAncestor

  /** Saxon's axis numbers (net.sf.saxon.om.Axis). */
  function AxisNumber(a: Axis): byte {
    match a
    case Ancestor => 0
    case AncestorOrSelf => 1
    case Attribute => 2
    case Child => 3
    case Descendant => 4
    case DescendantOrSelf => 5
    case Following => 6
    case FollowingSibling => 7
    case Namespace => 8
    case Parent => 9
    case Preceding => 10
    case PrecedingSibling => 11
    case Self => 12
    case PrecedingOrAncestor => 13
  }

  /** The axis a number selects, or None for a number that names no axis. */
  function AxisOf(n: byte): Option<Axis> {
    match n
    case 0 => Some(Ancestor)
    case 1 => Some(AncestorOrSelf)
    case 2 => Some(Attribute)
    case 3 => Some(Child)
    case 4 => Some(Descendant)
    case 5 => Some(DescendantOrSelf)
    case 6 => Some(Following)
    case 7 => Some(FollowingSibling)
    case 8 => Some(Namespace)
    case 9 => Some(Parent)
    case 10 => Some(Preceding)
    case 11 => Some(PrecedingSibling)
    case 12 => Some(Self)
    case 13 => Some(PrecedingOrAncestor)
    case _ => None
  }

  /** The numbering is a bijection between the axes and 0..13. */
  lemma AxisNumbering(a: Axis, n: byte)
    ensures AxisOf(AxisNumber(a)) == Some(a)
    ensures 0 <= AxisNumber(a) < 14
    ensures AxisOf(n).Some? <==> 0 <= n < 14
    ensures AxisOf(n).Some? ==> AxisNumber(AxisOf(n).value) == n
  {
  }

  /** The Treetank axes that a SaxonEnumeration can wrap. */
  datatype StoreAxis =
    | AncestorAxis(includeSelf: bool)
    | AttributeAxis
    | ChildAxis
    | DescendantAxis(includeSelf: bool)
    | FollowingAxis
    | FollowingSiblingAxis
    | ParentAxis
    | PrecedingAxis
    | PrecedingSiblingAxis

  /** The iterator iterateAxis returns (the node test it is filtered by is left out). */
  datatype Iterator =
    | EmptyIterator
    | FilteredSingleton
    | Enumeration(axis: StoreAxis)
    | NamespaceIterator
    | PrecedingEnumeration

  /**
   * The node keys an iterator delivers from wrapper `w`, in axis order
   * (reverse axes nearest first); None for the iterators whose members are
   * not modelled: following, preceding, namespaces.
   */
  function Members(doc: NodeWrapper.Document, w: NodeWrapper.Wrapper, it: Iterator): (r: Option<seq<int>>)
    requires NodeWrapper.Wraps(doc, w)
    ensures it.EmptyIterator? ==> r == Some([])
    ensures it.FilteredSingleton? ==> r == Some([w.key])
    ensures r.Some? ==> forall x | x in r.value :: x in doc.store.nodes
  {
    var s := doc.store;
    var rec := s.nodes[w.key];
    assert TreeStore.LinkedAt(s, w.key) && TreeStore.ConsistentAt(s, w.key);
    NodeWrapper.AncestorOrSelfInStore(s, w.key);
    NodeWrapper.SubtreeInStore(s, w.key);
    TreeStore.RightFromInStore(s, rec.firstChild);
    TreeStore.RightFromInStore(s, rec.rightSibling);
    TreeStore.LeftSiblingsShareParent(s, w.key);
    match it
    case EmptyIterator => Some([])
    case FilteredSingleton => Some([w.key])
    case NamespaceIterator => None
    case PrecedingEnumeration => None
    case Enumeration(a) =>
      match a
      case AncestorAxis(includeSelf) =>
        Some(if includeSelf then NodeWrapper.AncestorOrSelf(s, w.key) else TreeStore.Ancestors(s, w.key))
      case AttributeAxis => Some(rec.attributeKeys)
      case ChildAxis => Some(TreeStore.Children(s, w.key))
      case DescendantAxis(includeSelf) =>
        Some(if includeSelf then TreeStore.Subtree(s, w.key) else TreeStore.Descendants(s, w.key))
      case FollowingAxis => None
      case FollowingSiblingAxis => Some(TreeStore.RightSiblings(s, w.key))
      case ParentAxis => Some(if rec.parent == TreeStore.NULL_KEY then [] else [rec.parent])
      case PrecedingAxis => None
      case PrecedingSiblingAxis => Some(TreeStore.LeftSiblings(s, w.key))
  }

  /**
   * Membership of the preceding axis (XPath 2.0, section 3.2.1.1): the
   * structural nodes before `w` in document order, its ancestors excluded.
   * Document order is the order of the subtree walk from the document root;
   * an attribute or namespace node stands just after its owner element, so
   * its preceding axis is the one of that element.
   */
  ghost predicate InPrecedingAxis(doc: NodeWrapper.Document, w: NodeWrapper.Wrapper, x: int)
    requires NodeWrapper.Wraps(doc, w)
  {
    var s := doc.store;
    && x in s.nodes
    && TreeStore.ROOT_KEY in s.nodes
    && (var d := TreeStore.Subtree(s, TreeStore.ROOT_KEY);
        var origin := if w.kind.Attribute? || w.kind.Namespace? then s.nodes[w.key].parent else w.key;
        exists i, j | 0 <= i < j < |d| :: d[i] == x && d[j] == origin)
    && x !in TreeStore.Ancestors(s, w.key)
    && TreeStore.IsStructural(s.nodes[x].kind)
  }

  /** Each axis as XPath 2.0 (section 3.2.1.1) defines it, where the model has it. */
  function AxisNodes(doc: NodeWrapper.Document, w: NodeWrapper.Wrapper, a: Axis): Option<seq<int>>
    requires NodeWrapper.Wraps(doc, w)
  {
    match a
    case Ancestor => Members(doc, w, Enumeration(AncestorAxis(false)))
    case AncestorOrSelf => Members(doc, w, Enumeration(AncestorAxis(true)))
    case Attribute => Members(doc, w, Enumeration(AttributeAxis))
    case Child => Members(doc, w, Enumeration(ChildAxis))
    case Descendant => Members(doc, w, Enumeration(DescendantAxis(false)))
    case DescendantOrSelf => Members(doc, w, Enumeration(DescendantAxis(true)))
    case FollowingSibling => Members(doc, w, Enumeration(FollowingSiblingAxis))
    case Parent => Members(doc, w, Enumeration(ParentAxis))
    case PrecedingSibling => Members(doc, w, Enumeration(PrecedingSiblingAxis))
    case Self => Some([w.key])
    case Following => None
    case Preceding => None
    case Namespace => None
    case PrecedingOrAncestor => None
  }

  /**
   * iterateAxis as written. The following-sibling, parent and
   * preceding-sibling cases have no `break`, so control falls into the
   * namespace, preceding and self cases, whose result replaces theirs.
   */
  function IterateAxisAsWritten(doc: NodeWrapper.Document, w: NodeWrapper.Wrapper, n: byte): (r: Result<Iterator, NodeWrapper.Error>)
    requires NodeWrapper.Wraps(doc, w)
    ensures r.Err? <==> AxisOf(n).None?
    ensures r.Err? ==> r.error == NodeWrapper.IllegalArgument
  {
    var hasFirstChild := doc.store.nodes[w.key].firstChild != TreeStore.NULL_KEY;
    match AxisOf(n)
    case None => Err(NodeWrapper.IllegalArgument)
    case Some(a) =>
      Ok(match a
         case Ancestor => if w.kind.Root? then EmptyIterator else Enumeration(AncestorAxis(false))
         case AncestorOrSelf => if w.kind.Root? then FilteredSingleton else Enumeration(AncestorAxis(true))
         case Attribute => if !w.kind.Element? then EmptyIterator else Enumeration(AttributeAxis)
         case Child => if hasFirstChild then Enumeration(ChildAxis) else EmptyIterator
         case Descendant => if NodeWrapper.HasChildNodes(doc, w) then Enumeration(DescendantAxis(false)) else EmptyIterator
         case DescendantOrSelf => Enumeration(DescendantAxis(true))
         case Following => Enumeration(FollowingAxis)
         case FollowingSibling => if !w.kind.Element? then EmptyIterator else NamespaceIterator
         case Namespace => if !w.kind.Element? then EmptyIterator else NamespaceIterator
         case Parent => Enumeration(PrecedingAxis)
         case Preceding => Enumeration(PrecedingAxis)
         case PrecedingSibling => FilteredSingleton
         case Self => FilteredSingleton
         case PrecedingOrAncestor => PrecedingEnumeration)
  }

  /**
   * iterateAxis as intended: every case ends with its own result. The parent
   * case is empty for the document root, the only node without a parent.
   */
  function IterateAxis(doc: NodeWrapper.Document, w: NodeWrapper.Wrapper, n: byte): (r: Result<Iterator, NodeWrapper.Error>)
    requires NodeWrapper.Wraps(doc, w)
    ensures r.Err? <==> AxisOf(n).None?
    ensures r.Err? ==> r.error == NodeWrapper.IllegalArgument
  {
    var siblingless := w.kind.Root? || w.kind.Attribute? || w.kind.Namespace?;
    match AxisOf(n)
    case Some(FollowingSibling) => Ok(if siblingless then EmptyIterator else Enumeration(FollowingSiblingAxis))
    case Some(Parent) => Ok(if w.kind.Root? then EmptyIterator else Enumeration(ParentAxis))
    case Some(PrecedingSibling) => Ok(if siblingless then EmptyIterator else Enumeration(PrecedingSiblingAxis))
    case _ => IterateAxisAsWritten(doc, w, n)
  }

  /**
   * The intended dispatch delivers each axis exactly: every short-circuit to
   * the empty iterator or to the node itself happens only where the axis has
   * no other members.
   */
  lemma IterateAxisDeliversAxis(doc: NodeWrapper.Document, w: NodeWrapper.Wrapper, n: byte)
    requires NodeWrapper.Wraps(doc, w)
    requires AxisOf(n).Some? && AxisNodes(doc, w, AxisOf(n).value).Some?
    ensures IterateAxis(doc, w, n).Ok?
    ensures Members(doc, w, IterateAxis(doc, w, n).value) == AxisNodes(doc, w, AxisOf(n).value)
  {
    var s := doc.store;
    var r := s.nodes[w.key];
    assert TreeStore.LinkedAt(s, w.key) && TreeStore.ConsistentAt(s, w.key);
    TreeStore.ChildCountAndFirstChild(s, w.key);
    match AxisOf(n).value
    case Ancestor => {}
    case AncestorOrSelf => {
      if w.kind.Root? {
        assert TreeStore.Ancestors(s, w.key) == TreeStore.UpFrom(s, TreeStore.NULL_KEY) == [];
        assert NodeWrapper.AncestorOrSelf(s, w.key) == [w.key];
      }
    }
    case Child => {}
    case Descendant => {
      if r.firstChild == TreeStore.NULL_KEY {
        assert TreeStore.Descendants(s, w.key) == [];
      }
    }
    case _ => {}
  }

  /**
   * As written, following-sibling ends in the namespace case: a text node
   * with a right sibling gets the empty iterator, though its axis is not
   * empty.
   */
  lemma FollowingSiblingFallsThrough(doc: NodeWrapper.Document, w: NodeWrapper.Wrapper)
    requires NodeWrapper.Wraps(doc, w)
    ensures IterateAxisAsWritten(doc, w, 7) == Ok(if w.kind.Element? then NamespaceIterator else EmptyIterator)
    ensures w.kind.Text? && doc.store.nodes[w.key].rightSibling != TreeStore.NULL_KEY ==>
      Members(doc, w, IterateAxisAsWritten(doc, w, 7).value) != AxisNodes(doc, w, FollowingSibling)
  {
    assert TreeStore.LinkedAt(doc.store, w.key);
  }

  /**
   * As written, parent ends in the preceding case. The parent of any node
   * but the root is the one member of its parent axis; it is an ancestor,
   * so it is never on the preceding axis that is delivered instead.
   */
  lemma ParentFallsThrough(doc: NodeWrapper.Document, w: NodeWrapper.Wrapper)
    requires NodeWrapper.Wraps(doc, w)
    ensures IterateAxisAsWritten(doc, w, 9) == Ok(Enumeration(PrecedingAxis))
    ensures !w.kind.Root? ==>
      var p := doc.store.nodes[w.key].parent;
      && AxisNodes(doc, w, Parent) == Some([p])
      && p in TreeStore.Ancestors(doc.store, w.key)
      && !InPrecedingAxis(doc, w, p)
  {
    var s := doc.store;
    assert TreeStore.LinkedAt(s, w.key) && TreeStore.ConsistentAt(s, w.key);
    if !w.kind.Root? {
      var p := s.nodes[w.key].parent;
      assert TreeStore.LinkedAt(s, p);
      assert TreeStore.Ancestors(s, w.key) == [p] + TreeStore.UpFrom(s, s.nodes[p].parent);
    }
  }

  /** As written, preceding-sibling ends in the self case: it delivers the node itself, never a sibling. */
  lemma PrecedingSiblingFallsThrough(doc: NodeWrapper.Document, w: NodeWrapper.Wrapper)
    requires NodeWrapper.Wraps(doc, w)
    ensures IterateAxisAsWritten(doc, w, 11) == Ok(FilteredSingleton)
    ensures Members(doc, w, IterateAxisAsWritten(doc, w, 11).value) != AxisNodes(doc, w, PrecedingSibling)
  {
    TreeStore.LeftSiblingsShareParent(doc.store, w.key);
  }

  /**
   * SaxonEnumeration: Saxon's view of a Treetank axis. Each advance takes the
   * next key from the axis and makes `current` the wrapper of that node, or
   * null once the axis is exhausted.
   */
  class SaxonEnumeration {
    const doc: NodeWrapper.Document
    const axis: TreetankAxis.Axis
    var current: Option<NodeWrapper.Wrapper>

    ghost predicate Valid()
      reads this, axis
    {
      axis.Valid() && TreeStore.Valid(doc.store)
    }

    constructor (doc: NodeWrapper.Document, axis: TreetankAxis.Axis)
      requires axis.Valid() && TreeStore.Valid(doc.store)
      ensures Valid() && this.doc == doc && this.axis == axis && current.None?
    {
      this.doc := doc;
      this.axis := axis;
      current := None;
    }

    /**
     * advance. A negative key (an atomic value) makes the wrapper
     * constructor throw IllegalArgumentException, which escapes with
     * `current` left as it was; the axis has moved on all the same.
     */
    method Advance() returns (thrown: Option<NodeWrapper.Error>)
      requires Valid()
      modifies this, axis
      ensures Valid() && axis.keys == old(axis.keys)
      ensures old(axis.HasNext()) ==> axis.cursor == old(axis.cursor) + 1
      ensures !old(axis.HasNext()) ==> axis.cursor == old(axis.cursor) && current.None? && thrown.None?
      ensures old(axis.HasNext()) ==>
        var key := old(axis.keys[axis.cursor]);
        var res := NodeWrapper.Open(doc, key);
        && (thrown.Some? <==> res.Err?)
        && (thrown.Some? ==> thrown.value == NodeWrapper.IllegalArgument && current == old(current))
        && (thrown.None? ==> current == Some(res.value))
    {
      thrown := None;
      if axis.HasNext() {
        var nextKey := axis.Next();
        var res := NodeWrapper.Open(doc, nextKey);
        if res.Ok? {
          current := Some(res.value);
        } else {
          thrown := Some(res.error);
        }
      } else {
        current := None;
      }
    }
  }
}
