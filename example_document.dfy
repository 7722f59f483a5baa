/**
 * A small document, <a><b>hello</b><c/></a>, stored as a revision:
 * key 0 is the document root, 1 is a, 2 is b, 3 is the text "hello" and
 * 4 is c. The lemmas pin down what the wrapper answers on it.
 */
module ExampleDocument {
  import opened Wrappers
  import opened TreeStore
  import NodeWrapper
  import NodeWrapperAxis

  function Name(local: string): Option<QName> {
    Some(QName("", local, ""))
  }

  function Nodes(): map<int, NodeRec> {
    map[
      0 := NodeRec(Root, NULL_KEY, 1, NULL_KEY, NULL_KEY, 1, None, None, [], []),
      1 := NodeRec(Element, 0, 2, NULL_KEY, NULL_KEY, 2, None, Name("a"), [], []),
      2 := NodeRec(Element, 1, 3, NULL_KEY, 4, 1, None, Name("b"), [], []),
      3 := NodeRec(Text, 2, NULL_KEY, NULL_KEY, NULL_KEY, 0, Some("hello"), None, [], []),
      4 := NodeRec(Element, 1, NULL_KEY, 2, NULL_KEY, 0, None, Name("c"), [], [])]
  }

  ghost function Doc(): NodeWrapper.Document {
    var pool := NodeWrapper.NamePool((p, u, l) => 0, (p, u) => 0);
    NodeWrapper.Document(Store(Nodes(), map[0 := 0, 1 := 1, 2 := 2, 3 := 3, 4 := 4]), 0, "", 0, pool)
  }

  lemma ExampleLinked()
    ensures Linked(Doc().store)
  {
    var s := Doc().store;
    forall k | k in s.nodes ensures LinkedAt(s, k) {
    }
  }

  lemma ExampleConsistentAt(k: int)
    requires Linked(Doc().store) && k in Doc().store.nodes
    ensures ConsistentAt(Doc().store, k)
  {
    var s := Doc().store;
    if k == 0 {
      assert Children(s, 0) == [1];
    } else if k == 1 {
      assert RightFrom(s, 4) == [4];
      assert Children(s, 1) == [2, 4];
    } else if k == 2 {
      assert Children(s, 2) == [3];
    } else {
      assert Children(s, k) == [];
    }
  }

  lemma ExampleValid()
    ensures Valid(Doc().store)
    ensures forall k | k in Doc().store.nodes :: NodeWrapper.Wraps(Doc(), NodeWrapper.WrapperAt(Doc(), k))
  {
    ExampleLinked();
    forall k | k in Doc().store.nodes ensures ConsistentAt(Doc().store, k) {
      ExampleConsistentAt(k);
    }
  }

  /** String values: "hello" for a and for b, "" for the empty element c. */
  lemma ExampleStringValues()
    ensures Valid(Doc().store)
    ensures NodeWrapper.StringValue(Doc(), NodeWrapper.WrapperAt(Doc(), 1)) == "hello"
    ensures NodeWrapper.StringValue(Doc(), NodeWrapper.WrapperAt(Doc(), 2)) == "hello"
    ensures NodeWrapper.StringValue(Doc(), NodeWrapper.WrapperAt(Doc(), 4)) == ""
  {
    ExampleValid();
    var s := Doc().store;
    assert Descendants(s, 4) == [];
    assert Subtree(s, 3) == [3];
    assert Forest(s, 3) == [3];
    assert Descendants(s, 2) == [3];
    assert Subtree(s, 4) == [4];
    assert Forest(s, 4) == [4];
    assert Subtree(s, 2) == [2, 3];
    assert Forest(s, 2) == [2, 3, 4];
    assert Descendants(s, 1) == [2, 3, 4];
  }

  /**
   * The intended dispatch on the example: children of a are [b, c] and c has
   * none; b's following sibling is c and c's preceding sibling is b; the
   * root has no parent and no ancestors.
   */
  lemma ExampleAxes()
    ensures Valid(Doc().store)
    ensures var d := Doc();
      && NodeWrapperAxis.IterateAxis(d, NodeWrapper.WrapperAt(d, 1), 3).Ok?
      && NodeWrapperAxis.Members(d, NodeWrapper.WrapperAt(d, 1), NodeWrapperAxis.IterateAxis(d, NodeWrapper.WrapperAt(d, 1), 3).value) == Some([2, 4])
      && NodeWrapperAxis.Members(d, NodeWrapper.WrapperAt(d, 4), NodeWrapperAxis.IterateAxis(d, NodeWrapper.WrapperAt(d, 4), 3).value) == Some([])
      && NodeWrapperAxis.Members(d, NodeWrapper.WrapperAt(d, 2), NodeWrapperAxis.IterateAxis(d, NodeWrapper.WrapperAt(d, 2), 7).value) == Some([4])
      && NodeWrapperAxis.Members(d, NodeWrapper.WrapperAt(d, 4), NodeWrapperAxis.IterateAxis(d, NodeWrapper.WrapperAt(d, 4), 7).value) == Some([])
      && NodeWrapperAxis.Members(d, NodeWrapper.WrapperAt(d, 4), NodeWrapperAxis.IterateAxis(d, NodeWrapper.WrapperAt(d, 4), 11).value) == Some([2])
      && NodeWrapperAxis.Members(d, NodeWrapper.WrapperAt(d, 2), NodeWrapperAxis.IterateAxis(d, NodeWrapper.WrapperAt(d, 2), 11).value) == Some([])
      && NodeWrapperAxis.Members(d, NodeWrapper.WrapperAt(d, 0), NodeWrapperAxis.IterateAxis(d, NodeWrapper.WrapperAt(d, 0), 9).value) == Some([])
      && NodeWrapperAxis.Members(d, NodeWrapper.WrapperAt(d, 0), NodeWrapperAxis.IterateAxis(d, NodeWrapper.WrapperAt(d, 0), 0).value) == Some([])
  {
    ExampleValid();
    var s := Doc().store;
    assert Children(s, 1) == [2, 4];
    assert RightSiblings(s, 2) == [4];
    assert RightSiblings(s, 4) == [];
    assert LeftSiblings(s, 4) == [2];
    assert LeftSiblings(s, 2) == [];
  }

  /**
   * The preceding axis on the example: the text "hello" precedes c, c does
   * not precede the text, and a, although before c, is its ancestor.
   */
  lemma ExamplePrecedingAxis()
    ensures Valid(Doc().store)
    ensures var d := Doc();
      && NodeWrapperAxis.InPrecedingAxis(d, NodeWrapper.WrapperAt(d, 4), 3)
      && !NodeWrapperAxis.InPrecedingAxis(d, NodeWrapper.WrapperAt(d, 3), 4)
      && !NodeWrapperAxis.InPrecedingAxis(d, NodeWrapper.WrapperAt(d, 4), 1)
  {
    ExampleValid();
    var s := Doc().store;
    assert Subtree(s, 3) == [3];
    assert Forest(s, 3) == [3];
    assert Subtree(s, 4) == [4];
    assert Forest(s, 4) == [4];
    assert Subtree(s, 2) == [2, 3];
    assert Forest(s, 2) == [2, 3, 4];
    assert Subtree(s, 1) == [1, 2, 3, 4];
    assert Forest(s, 1) == [1, 2, 3, 4];
    var order := Subtree(s, 0);
    assert order == [0, 1, 2, 3, 4];
    assert order[3] == 3 && order[4] == 4;
    assert Ancestors(s, 4) == [1, 0];
    assert Ancestors(s, 3) == [2, 1, 0];
  }

  /**
   * The written dispatch on the example: following-sibling of b delivers the
   * namespace iterator instead of c, and preceding-sibling of c delivers c
   * instead of b.
   */
  lemma ExampleFallThroughs()
    ensures Valid(Doc().store)
    ensures var d := Doc();
      && NodeWrapperAxis.IterateAxisAsWritten(d, NodeWrapper.WrapperAt(d, 2), 7) == Ok(NodeWrapperAxis.NamespaceIterator)
      && NodeWrapperAxis.Members(d, NodeWrapper.WrapperAt(d, 4), NodeWrapperAxis.IterateAxisAsWritten(d, NodeWrapper.WrapperAt(d, 4), 11).value) == Some([4])
  {
    ExampleValid();
  }
}
