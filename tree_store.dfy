/**
 * The revision-pinned node store that the Saxon node wrapper reads from.
 *
 * One revision of a Treetank document is immutable, so it is modelled as a
 * finite map from node key to the record a read transaction exposes at that
 * key: kind, parent, first child, left and right sibling, child count, raw
 * value, qualified name, and the attribute and namespace keys of an element.
 * Absent links hold the null node key. The ghost `order` ranks the nodes so
 * that the rank increases along every link (parent to child, left sibling to
 * right sibling); it is not document order, and is only there to make the
 * walks along parent, sibling and child links terminate. Document order is
 * the order of `Subtree` from the root.
 */
module TreeStore {
  import opened Wrappers

  /**
   * Treetank's NULL_NODE_KEY: "no node". Its value lives in EFixed, which is
   * not part of this model; it is a fixed negative key, taken here as -15.
   * Only its being negative, and so never the key of a stored node, matters.
   */
  const NULL_KEY: int := -15

  /** The key of the document root, where a fresh read transaction starts. */
  const ROOT_KEY: int := 0

  datatype Kind = Root | Element | Attribute | Namespace | Text | Comment | ProcessingInstruction

  /** Kinds that take part in the parent/child/sibling shape of the tree. */
  predicate IsStructural(k: Kind) {
    k.Element? || k.Text? || k.Comment? || k.ProcessingInstruction?
  }

  datatype QName = QName(prefix: string, localPart: string, namespaceURI: string)

  datatype NodeRec = NodeRec(
    kind: Kind,
    parent: int,
    firstChild: int,
    leftSibling: int,
    rightSibling: int,
    childCount: nat,
    value: Option<string>,
    name: Option<QName>,
    attributeKeys: seq<int>,
    namespaceKeys: seq<int>)

  datatype Store = Store(nodes: map<int, NodeRec>, ghost order: map<int, nat>)

  /** Every link of node `k` points at a stored node, on the side of it the rank requires. */
  ghost predicate LinkedAt(s: Store, k: int)
    requires k in s.nodes && s.nodes.Keys <= s.order.Keys
  {
    var r := s.nodes[k];
    && k >= 0
    && s.order[k] < |s.nodes|
    && (r.parent != NULL_KEY ==> r.parent in s.nodes && s.order[r.parent] < s.order[k])
    && (r.firstChild != NULL_KEY ==> r.firstChild in s.nodes && s.order[k] < s.order[r.firstChild])
    && (r.rightSibling != NULL_KEY ==> r.rightSibling in s.nodes && s.order[k] < s.order[r.rightSibling])
    && (r.leftSibling != NULL_KEY ==> r.leftSibling in s.nodes && s.order[r.leftSibling] < s.order[k])
  }

  ghost predicate Linked(s: Store) {
    && s.nodes.Keys <= s.order.Keys
    && NULL_KEY !in s.nodes
    && forall k {:trigger LinkedAt(s, k)} | k in s.nodes :: LinkedAt(s, k)
  }

  /** Siblings from `c` rightwards, `c` included; empty when `c` is the null key. */
  function RightFrom(s: Store, c: int): (r: seq<int>)
    requires Linked(s) && (c == NULL_KEY || c in s.nodes)
    decreases if c in s.nodes then |s.nodes| - s.order[c] else 0
  {
    if c == NULL_KEY then []
    else
      assert LinkedAt(s, c);
      [c] + RightFrom(s, s.nodes[c].rightSibling)
  }

  /** Siblings from `c` leftwards, nearest first, `c` included. */
  function LeftFrom(s: Store, c: int): (r: seq<int>)
    requires Linked(s) && (c == NULL_KEY || c in s.nodes)
    decreases if c in s.nodes then s.order[c] + 1 else 0
  {
    if c == NULL_KEY then []
    else
      assert LinkedAt(s, c);
      [c] + LeftFrom(s, s.nodes[c].leftSibling)
  }

  /** The parent chain from `c` upwards, `c` included. */
  function UpFrom(s: Store, c: int): (r: seq<int>)
    requires Linked(s) && (c == NULL_KEY || c in s.nodes)
    decreases if c in s.nodes then s.order[c] + 1 else 0
  {
    if c == NULL_KEY then []
    else
      assert LinkedAt(s, c);
      [c] + UpFrom(s, s.nodes[c].parent)
  }

  function Children(s: Store, k: int): seq<int>
    requires Linked(s) && k in s.nodes
  {
    assert LinkedAt(s, k);
    RightFrom(s, s.nodes[k].firstChild)
  }

  function RightSiblings(s: Store, k: int): seq<int>
    requires Linked(s) && k in s.nodes
  {
    assert LinkedAt(s, k);
    RightFrom(s, s.nodes[k].rightSibling)
  }

  /** The left siblings of `k`, nearest first. */
  function LeftSiblings(s: Store, k: int): seq<int>
    requires Linked(s) && k in s.nodes
  {
    assert LinkedAt(s, k);
    LeftFrom(s, s.nodes[k].leftSibling)
  }

  /** The ancestors of `k`, nearest first, `k` excluded. */
  function Ancestors(s: Store, k: int): seq<int>
    requires Linked(s) && k in s.nodes
  {
    assert LinkedAt(s, k);
    UpFrom(s, s.nodes[k].parent)
  }

  /** `k` and its descendants in document (pre-)order. */
  function Subtree(s: Store, k: int): (r: seq<int>)
    requires Linked(s) && k in s.nodes
    decreases |s.nodes| - s.order[k], 1
  {
    assert LinkedAt(s, k);
    [k] + Forest(s, s.nodes[k].firstChild)
  }

  /** The subtrees of `c` and of every sibling to its right, in document order. */
  function Forest(s: Store, c: int): (r: seq<int>)
    requires Linked(s) && (c == NULL_KEY || c in s.nodes)
    decreases if c in s.nodes then |s.nodes| - s.order[c] else 0, 2
  {
    if c == NULL_KEY then []
    else
      assert LinkedAt(s, c);
      Subtree(s, c) + Forest(s, s.nodes[c].rightSibling)
  }

  /** The descendants of `k` in document order, `k` excluded. */
  function Descendants(s: Store, k: int): seq<int>
    requires Linked(s) && k in s.nodes
  {
    assert LinkedAt(s, k);
    Forest(s, s.nodes[k].firstChild)
  }

  /** What a node contributes to a concatenation of text: the value of a text node, nothing otherwise. */
  function TextAt(s: Store, k: int): string {
    if k in s.nodes && s.nodes[k].kind.Text? && s.nodes[k].value.Some? then s.nodes[k].value.value else ""
  }

  /** The values of the text nodes among `keys`, concatenated in order. */
  function TextOf(s: Store, keys: seq<int>): string {
    if keys == [] then "" else TextAt(s, keys[0]) + TextOf(s, keys[1..])
  }

  /** The shape facts of one node that the read transaction guarantees. */
  ghost predicate ConsistentAt(s: Store, k: int)
    requires Linked(s) && k in s.nodes
  {
    var r := s.nodes[k];
    && LinkedAt(s, k)
    && (k == ROOT_KEY <==> r.kind.Root?)
    && (r.parent == NULL_KEY <==> r.kind.Root?)
    && (!IsStructural(r.kind) ==> r.leftSibling == NULL_KEY && r.rightSibling == NULL_KEY)
    && (r.firstChild != NULL_KEY ==>
          && (r.kind.Root? || r.kind.Element?)
          && s.nodes[r.firstChild].parent == k
          && s.nodes[r.firstChild].leftSibling == NULL_KEY
          && IsStructural(s.nodes[r.firstChild].kind))
    && (r.rightSibling != NULL_KEY ==>
          s.nodes[r.rightSibling].leftSibling == k && s.nodes[r.rightSibling].parent == r.parent)
    && (r.leftSibling != NULL_KEY ==>
          s.nodes[r.leftSibling].rightSibling == k && s.nodes[r.leftSibling].parent == r.parent)
    && (r.parent != NULL_KEY && r.leftSibling == NULL_KEY && IsStructural(r.kind) ==>
          s.nodes[r.parent].firstChild == k)
    && r.childCount == |Children(s, k)|
    && (!r.kind.Element? ==> r.attributeKeys == [] && r.namespaceKeys == [])
    && (forall a | a in r.attributeKeys :: a in s.nodes && s.nodes[a].kind.Attribute? && s.nodes[a].parent == k)
    && (forall n | n in r.namespaceKeys :: n in s.nodes && s.nodes[n].kind.Namespace? && s.nodes[n].parent == k)
    && ((r.kind.Element? || r.kind.Attribute? || r.kind.Namespace?) <==> r.name.Some?)
    && (r.kind.Text? ==> r.value.Some?)
  }

  /** A well-formed revision: linked, consistent, and rooted at ROOT_KEY. */
  ghost predicate Valid(s: Store) {
    && Linked(s)
    && ROOT_KEY in s.nodes
    && forall k {:trigger ConsistentAt(s, k)} | k in s.nodes :: ConsistentAt(s, k)
  }

  // ---------------------------------------------------------------------------
  // Lemmas about the walks

  lemma {:induction false} TextOfAppend(s: Store, a: seq<int>, b: seq<int>)
    ensures TextOf(s, a + b) == TextOf(s, a) + TextOf(s, b)
    decreases |a|
  {
    if a != [] {
      assert (a + b)[1..] == a[1..] + b;
      TextOfAppend(s, a[1..], b);
    } else {
      assert a + b == b;
    }
  }

  /** Every left sibling of `k` shares its parent and has a lower rank. */
  lemma {:induction false} LeftFromShareParent(s: Store, c: int, p: int, bound: nat)
    requires Valid(s) && (c == NULL_KEY || (c in s.nodes && s.nodes[c].parent == p && s.order[c] < bound))
    ensures forall x | x in LeftFrom(s, c) :: x in s.nodes && s.nodes[x].parent == p && s.order[x] < bound
    decreases if c in s.nodes then s.order[c] + 1 else 0
  {
    if c != NULL_KEY {
      assert LinkedAt(s, c) && ConsistentAt(s, c);
      LeftFromShareParent(s, s.nodes[c].leftSibling, p, bound);
    }
  }

  lemma LeftSiblingsShareParent(s: Store, k: int)
    requires Valid(s) && k in s.nodes
    ensures forall x | x in LeftSiblings(s, k) ::
      x in s.nodes && s.nodes[x].parent == s.nodes[k].parent && s.order[x] < s.order[k]
    ensures k !in LeftSiblings(s, k)
  {
    assert LinkedAt(s, k) && ConsistentAt(s, k);
    LeftFromShareParent(s, s.nodes[k].leftSibling, s.nodes[k].parent, s.order[k]);
  }

  /** Along a sibling list, each entry is the right sibling of the one before it. */
  lemma {:induction false} RightFromStep(s: Store, c: int, i: nat)
    requires Linked(s) && (c == NULL_KEY || c in s.nodes)
    requires i < |RightFrom(s, c)|
    ensures RightFrom(s, c)[i] in s.nodes
    ensures var x := RightFrom(s, c)[i];
      if s.nodes[x].rightSibling == NULL_KEY then i + 1 == |RightFrom(s, c)|
      else i + 1 < |RightFrom(s, c)| && RightFrom(s, c)[i + 1] == s.nodes[x].rightSibling
    decreases i
  {
    assert LinkedAt(s, c);
    if i > 0 {
      RightFromStep(s, s.nodes[c].rightSibling, i - 1);
    }
  }

  /**
   * The number of left siblings of a node is its index in its parent's child
   * list: the sibling position is where the node stands among its siblings.
   */
  lemma {:induction false} LeftSiblingCountIsChildIndex(s: Store, k: int)
    requires Valid(s) && k in s.nodes && IsStructural(s.nodes[k].kind)
    ensures s.nodes[k].parent in s.nodes
    ensures |LeftSiblings(s, k)| < |Children(s, s.nodes[k].parent)|
    ensures Children(s, s.nodes[k].parent)[|LeftSiblings(s, k)|] == k
    decreases s.order[k]
  {
    assert LinkedAt(s, k) && ConsistentAt(s, k);
    var p := s.nodes[k].parent;
    assert LinkedAt(s, p);
    var l := s.nodes[k].leftSibling;
    if l == NULL_KEY {
      assert s.nodes[p].firstChild == k;
    } else {
      assert LinkedAt(s, l) && ConsistentAt(s, l);
      LeftSiblingCountIsChildIndex(s, l);
      var i := |LeftSiblings(s, l)|;
      assert LeftSiblings(s, k) == [l] + LeftSiblings(s, l);
      RightFromStep(s, s.nodes[p].firstChild, i);
    }
  }

  /** What a child adds to its parent's string value. */
  function ChildText(s: Store, c: int): string
    requires Linked(s) && c in s.nodes
  {
    match s.nodes[c].kind
    case Text => TextAt(s, c)
    case Root | Element => TextOf(s, Descendants(s, c))
    case _ => ""
  }

  /** The contributions of a list of children, concatenated. */
  function ChildrenText(s: Store, cs: seq<int>): string
    requires Linked(s) && forall c | c in cs :: c in s.nodes
  {
    if cs == [] then "" else ChildText(s, cs[0]) + ChildrenText(s, cs[1..])
  }

  lemma SubtreeText(s: Store, c: int)
    requires Valid(s) && c in s.nodes
    ensures TextOf(s, Subtree(s, c)) == ChildText(s, c)
  {
    assert LinkedAt(s, c) && ConsistentAt(s, c);
    TextOfAppend(s, [c], Forest(s, s.nodes[c].firstChild));
  }

  lemma {:induction false} RightFromInStore(s: Store, c: int)
    requires Linked(s) && (c == NULL_KEY || c in s.nodes)
    ensures forall x | x in RightFrom(s, c) :: x in s.nodes
    decreases if c in s.nodes then |s.nodes| - s.order[c] else 0
  {
    if c != NULL_KEY {
      assert LinkedAt(s, c);
      RightFromInStore(s, s.nodes[c].rightSibling);
    }
  }

  lemma {:induction false} ForestText(s: Store, c: int)
    requires Valid(s) && (c == NULL_KEY || c in s.nodes)
    ensures forall x | x in RightFrom(s, c) :: x in s.nodes
    ensures TextOf(s, Forest(s, c)) == ChildrenText(s, RightFrom(s, c))
    decreases if c in s.nodes then |s.nodes| - s.order[c] else 0
  {
    RightFromInStore(s, c);
    if c != NULL_KEY {
      assert LinkedAt(s, c);
      var rs := s.nodes[c].rightSibling;
      ForestText(s, rs);
      TextOfAppend(s, Subtree(s, c), Forest(s, rs));
      SubtreeText(s, c);
      assert RightFrom(s, c)[1..] == RightFrom(s, rs);
    }
  }

  /**
   * The text of all descendants of `k` is the concatenation, over the
   * children of `k` in order, of each child's own text: the value of a text
   * child, the descendant text of an element child, nothing for a comment or
   * processing instruction.
   */
  lemma DescendantTextFromChildren(s: Store, k: int)
    requires Valid(s) && k in s.nodes
    ensures forall c | c in Children(s, k) :: c in s.nodes
    ensures TextOf(s, Descendants(s, k)) == ChildrenText(s, Children(s, k))
  {
    assert LinkedAt(s, k);
    ForestText(s, s.nodes[k].firstChild);
  }

  /** A node has children exactly when it has a first child. */
  lemma ChildCountAndFirstChild(s: Store, k: int)
    requires Valid(s) && k in s.nodes
    ensures s.nodes[k].childCount > 0 <==> s.nodes[k].firstChild != NULL_KEY
    ensures s.nodes[k].childCount == 0 ==> Descendants(s, k) == []
  {
    assert LinkedAt(s, k) && ConsistentAt(s, k);
  }
}
