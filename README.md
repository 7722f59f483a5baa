# Treetank node wrapper for Saxon, and the concurrent-axis helper

This project models two pieces of the sirix/Treetank XML store:

- `NodeWrapper` is the adapter that presents one node of a pinned revision to the Saxon XPath/XQuery engine as a `NodeInfo`. It covers:
  - the name accessors, name code and fingerprint;
  - string value, atomization and type annotation;
  - the declared-namespace buffer;
  - the base-URI search up the ancestors;
  - the sibling position;
  - node identity;
  - the `iterateAxis` dispatch table;
  - the `SaxonEnumeration` that steps a Treetank axis.
- `Util` in the concurrent axis package provides `getNext`, which pulls the next key or returns the null-node-key sentinel, and `isValid`, the node-key guard.

One revision of a document is immutable. It is modelled as a finite map from node key to the record a read transaction shows at that key (`TreeStore.Store`). Well-formedness is given by `TreeStore.Valid`:
- links point at stored nodes;
- back-links agree;
- the child count matches the child list;
- names are present exactly for elements, attributes and namespaces.

A ghost rank, which increases along every parent-to-child and left-to-right sibling link, makes every walk along those links terminate. The rank is not document order; document order is the order of the subtree walk from the root.

A wrapper (`NodeWrapper.Wrapper`) is an immutable value: key, kind, optional QName and revision. The operations that loop or change state in the Java code are methods:
- `ExpandString`, `GetBaseURI` and `GetSiblingPosition` loop; each is proved against a specification function;
- `GetDeclaredNamespaces` loops and fills an array in place (both versions share `FillNamespaceList`);
- `SaxonEnumeration.Advance` moves the underlying axis on and updates the current node;
- `GetNext` moves the axis on by at most one key.

`ConcurrentUtil.DrainAxis` has no counterpart in `Util`. It is a caller that pulls a given number of keys with `GetNext`, and ties the method to the specification function `Drain`.

The kind-driven accessors are functions. Java exceptions and `null` are modelled as `Result` and `Option` values.

Where the code departs from its documented behaviour, the code is modelled as written in a member of its own, beside a corrected definition; both are listed under Findings. The rest of the model builds on the corrected definitions.

Files:
- `wrappers.dfy`: Option and Result.
- `tree_store.dfy`: the store, the walks (children, siblings, ancestors, subtree) and lemmas about them.
- `node_wrapper.dfy`: the wrapper and its accessors.
- `node_wrapper_axis.dfy`: the axis dispatch and `SaxonEnumeration`.
- `treetank_axis.dfy`: Treetank's axis interface, which both the enumeration and `Util` consume.
- `concurrent_util.dfy`: `Util`.
- `example_document.dfy`: the document `<a><b>hello</b><c/></a>` and what the wrapper answers on it.

The Saxon constants used are:
- the axis numbers 0..13 of `net.sf.saxon.om.Axis`, from ANCESTOR = 0 to PRECEDING_OR_ANCESTOR = 13;
- the fingerprint 385 of `xml:base`.

Treetank's null node key (`EFixed.NULL_NODE_KEY`) is a fixed negative key. `EFixed` is not part of this model; the key is taken as -15, and only its being negative matters. The document root has key 0.

## Model

| member | source | states |
|---|---|---|
| NodeWrapper.WrapperAt | bundles/sirix-saxon/src/main/java/org/treetank/saxon/wrapper/NodeWrapper.java:142-152 | the wrapper built on a stored node carries that node's key, kind and revision, and keeps a QName exactly for elements and attributes |
| NodeWrapper.Open | bundles/sirix-saxon/src/main/java/org/treetank/saxon/wrapper/NodeWrapper.java:138-154 | a negative start key is rejected with IllegalArgumentException, and only a negative key is rejected; otherwise the wrapper is of the node with that key, or of the document root when no node has it |
| NodeWrapper.WrapsUnique | bundles/sirix-saxon/src/main/java/org/treetank/saxon/wrapper/NodeWrapper.java:107-127 | the key determines the whole wrapper: two wrappers of one document with equal keys are equal |
| NodeWrapper.URI | bundles/sirix-saxon/src/main/java/org/treetank/saxon/wrapper/NodeWrapper.java:575-592 | getURI fails (null QName dereferenced) exactly for namespace nodes |
| NodeWrapper.Prefix | bundles/sirix-saxon/src/main/java/org/treetank/saxon/wrapper/NodeWrapper.java:453-469 | the prefix of the QName the wrapper holds, "" for a node without one |
| NodeWrapper.LocalPart | bundles/sirix-saxon/src/main/java/org/treetank/saxon/wrapper/NodeWrapper.java:376-389 | the local part of the QName the wrapper holds, "" for a node without one |
| NodeWrapper.NameAccessors | bundles/sirix-saxon/src/main/java/org/treetank/saxon/wrapper/NodeWrapper.java:376-389 | for elements and attributes, prefix and local part are those of the stored name and the URI is its namespace URI under a non-empty prefix, "" otherwise; every other kind has no QName, an empty prefix and local part, and URI "" (namespace nodes: a null dereference) |
| NodeWrapper.DisplayNameAsWritten | bundles/sirix-saxon/src/main/java/org/treetank/saxon/wrapper/NodeWrapper.java:312-329 | the display name as written is non-empty exactly for elements and attributes (namespace and processing-instruction nodes get their empty local part) |
| NodeWrapper.UnprefixedDisplayNameStartsWithColon | bundles/sirix-saxon/src/main/java/org/treetank/saxon/wrapper/NodeWrapper.java:316-319 | as written, an element or attribute without prefix is displayed as ":" followed by its local part |
| NodeWrapper.DisplayName | bundles/sirix-saxon/src/main/java/org/treetank/saxon/wrapper/NodeWrapper.java:312-329 | the intended display name is "" for every kind other than element and attribute |
| NodeWrapper.DisplayNameRoundTrip | bundles/sirix-saxon/src/main/java/org/treetank/saxon/wrapper/NodeWrapper.java:316-319 | the intended display name is a lexical QName: splitting it at its first colon gives back the prefix and local part, and it has a colon exactly when the prefix is non-empty |
| NodeWrapper.ColonIndex | bundles/sirix-saxon/src/main/java/org/treetank/saxon/wrapper/NodeWrapper.java:318 | the position of the separator colon: no colon before it, a colon at it unless it is the end |
| NodeWrapper.NameCode | bundles/sirix-saxon/src/main/java/org/treetank/saxon/wrapper/NodeWrapper.java:395-410 | for a node with a QName, the pool's code for its prefix, its URI ("" without prefix) and its local part; for a processing instruction the code of the empty name; -1 for text, comment, document and namespace nodes |
| NodeWrapper.NameCodeByKind | bundles/sirix-saxon/src/main/java/org/treetank/saxon/wrapper/NodeWrapper.java:395-410 | the name code is the pool's code for the stored (prefix, URI, local part) of an element or attribute, the code of the empty name for a processing instruction, and -1 for every other kind |
| NodeWrapper.Fingerprint | bundles/sirix-saxon/src/main/java/org/treetank/saxon/wrapper/NodeWrapper.java:351-362 | the fingerprint is -1 exactly when the name code is -1; otherwise it lies in [0, 0xFFFFF] and agrees with the name code in the low 20 bits |
| NodeWrapper.GetFingerprint | bundles/sirix-saxon/src/main/java/org/treetank/saxon/wrapper/NodeWrapper.java:351-362 | -1 exactly when the name code is -1 (so for every kind without a name), otherwise a value in [0, 0xFFFFF] equal to the name code in the low 20 bits |
| NodeWrapper.EmptyIfNull | bundles/sirix-saxon/src/main/java/org/treetank/saxon/wrapper/NodeWrapper.java:845-847 | null becomes "", any other string is kept |
| NodeWrapper.StringValue | bundles/sirix-saxon/src/main/java/org/treetank/saxon/wrapper/NodeWrapper.java:492-522 | the reference definition of the string value: "" for a namespace node, the stored value or "" for attribute, comment and processing instruction; the text of root and element is characterised by StringValueFromChildren |
| NodeWrapper.StringValueFromChildren | bundles/sirix-saxon/src/main/java/org/treetank/saxon/wrapper/NodeWrapper.java:492-522 | the string value of a root or element is the text of its children in order (a text child its value, an element child its own string value, comments and processing instructions nothing); a text node gives its raw value; attribute, comment and processing instruction their value or "" |
| NodeWrapper.ExpandString | bundles/sirix-saxon/src/main/java/org/treetank/saxon/wrapper/NodeWrapper.java:529-546 | the loop appends the values of exactly the text nodes the descendant axis visits, in document order |
| NodeWrapper.GetStringValueCS | bundles/sirix-saxon/src/main/java/org/treetank/saxon/wrapper/NodeWrapper.java:492-522 | the computed string value equals the kind-by-kind definition StringValue |
| NodeWrapper.Atomize | bundles/sirix-saxon/src/main/java/org/treetank/saxon/wrapper/NodeWrapper.java:160-175 | comments and processing instructions atomize to xs:string, every other kind to xs:untypedAtomic, both carrying the string value |
| NodeWrapper.GetTypeAnnotation | bundles/sirix-saxon/src/main/java/org/treetank/saxon/wrapper/NodeWrapper.java:561-569 | the annotation is xs:untypedAtomic exactly for attributes, xs:untyped otherwise |
| NodeWrapper.DeclaredCodes | bundles/sirix-saxon/src/main/java/org/treetank/saxon/wrapper/NodeWrapper.java:283-291 | one code per declared namespace, the i-th being the pool's code for the i-th declaration's prefix and URI |
| NodeWrapper.NamespaceCodeAsWritten | bundles/sirix-saxon/src/main/java/org/treetank/saxon/wrapper/NodeWrapper.java:284-289 | the code each iteration stores as written: the pool's namespace code for the element's own stored prefix and URI ("" without prefix), whatever key the transaction was moved to |
| NodeWrapper.NamespaceCodesAsWritten | bundles/sirix-saxon/src/main/java/org/treetank/saxon/wrapper/NodeWrapper.java:283-290 | as written there is one slot per declaration, each holding the element's own namespace code |
| NodeWrapper.NamespaceCodesAsWrittenMissDeclarations | bundles/sirix-saxon/src/main/java/org/treetank/saxon/wrapper/NodeWrapper.java:284-289 | with two declarations of different codes the written codes differ from the declared ones, in slot 0 or slot 1 |
| NodeWrapper.FillNamespaceList | bundles/sirix-saxon/src/main/java/org/treetank/saxon/wrapper/NodeWrapper.java:276-302 | the buffer is reused iff it is non-null and holds all the codes, else a fresh array of exactly that length; the first slots hold the codes in order, the next slot (when it exists) holds -1, later slots and an unused buffer are unchanged |
| NodeWrapper.GetDeclaredNamespacesAsWritten | bundles/sirix-saxon/src/main/java/org/treetank/saxon/wrapper/NodeWrapper.java:270-306 | as written: null for a non-element; the empty list without declarations; otherwise the buffer protocol of FillNamespaceList with every slot holding the element's own code |
| NodeWrapper.GetDeclaredNamespaces | bundles/sirix-saxon/src/main/java/org/treetank/saxon/wrapper/NodeWrapper.java:270-306 | null for a non-element; the empty list without declarations; otherwise the buffer is reused iff it is non-null and holds count entries, else a fresh array of length count; slots 0..count-1 hold the declared codes (as intended), slot count (when it exists) holds -1, later slots and an unused buffer are unchanged |
| NodeWrapper.GetParent | bundles/sirix-saxon/src/main/java/org/treetank/saxon/wrapper/NodeWrapper.java:432-447 | null exactly for the document root; otherwise the wrapper of the stored parent |
| NodeWrapper.FirstAttributeValue | bundles/sirix-saxon/src/main/java/org/treetank/saxon/wrapper/NodeWrapper.java:209-221 | null iff no attribute has the fingerprint; otherwise the value (or "") of the first attribute that has it |
| NodeWrapper.AttributeValue | bundles/sirix-saxon/src/main/java/org/treetank/saxon/wrapper/NodeWrapper.java:209-221 | a non-element has no attribute values; for an element the value is FirstAttributeValue over its attributes, the first match decides |
| NodeWrapper.XmlBase | bundles/sirix-saxon/src/main/java/org/treetank/saxon/wrapper/NodeWrapper.java:233 | none for a non-element; for an element, the first-match lookup of the xml:base fingerprint 385 among its attributes, so a value found is that of such an attribute |
| NodeWrapper.AncestorOrSelf | bundles/sirix-saxon/src/main/java/org/treetank/saxon/wrapper/NodeWrapper.java:229-241 | the chain getBaseURI walks starts at the node itself |
| NodeWrapper.AncestorOrSelfInStore | bundles/sirix-saxon/src/main/java/org/treetank/saxon/wrapper/NodeWrapper.java:232-241 | every node on the parent chain is a stored node |
| NodeWrapper.FirstSome | bundles/sirix-saxon/src/main/java/org/treetank/saxon/wrapper/NodeWrapper.java:232-241 | the first value present along a chain: none iff no entry has one, otherwise the entry at the first position that has one |
| NodeWrapper.XmlBases | bundles/sirix-saxon/src/main/java/org/treetank/saxon/wrapper/NodeWrapper.java:233 | entry i is the xml:base attribute of the i-th node of the chain |
| NodeWrapper.BaseURI | bundles/sirix-saxon/src/main/java/org/treetank/saxon/wrapper/NodeWrapper.java:227-248 | the base URI is the document's, or the xml:base value of some node on the ancestor-or-self chain |
| NodeWrapper.BaseURIFirstMatch | bundles/sirix-saxon/src/main/java/org/treetank/saxon/wrapper/NodeWrapper.java:227-248 | the nearest node on the ancestor-or-self chain that has xml:base decides the base URI |
| NodeWrapper.BaseURIFallback | bundles/sirix-saxon/src/main/java/org/treetank/saxon/wrapper/NodeWrapper.java:243-245 | without xml:base anywhere on the chain the document's base URI is used |
| NodeWrapper.GetBaseURI | bundles/sirix-saxon/src/main/java/org/treetank/saxon/wrapper/NodeWrapper.java:227-248 | the loop (which terminates, the parent chain ending at the root) returns BaseURI, the first-match definition |
| NodeWrapper.GetSiblingPosition | bundles/sirix-saxon/src/main/java/org/treetank/saxon/wrapper/NodeWrapper.java:810-823 | the loop counts exactly the left siblings |
| NodeWrapper.SiblingPositionIsChildIndex | bundles/sirix-saxon/src/main/java/org/treetank/saxon/wrapper/NodeWrapper.java:814-817 | the count of left siblings is 0 exactly for a first child and is in general the node's index in its parent's child list |
| NodeWrapper.HasChildNodes | bundles/sirix-saxon/src/main/java/org/treetank/saxon/wrapper/NodeWrapper.java:598-610 | a positive child count means exactly that the child list is non-empty, and that there is a first child |
| NodeWrapper.IsSameNodeInfo | bundles/sirix-saxon/src/main/java/org/treetank/saxon/wrapper/NodeWrapper.java:642-651 | false for null; true exactly for a wrapper with the same key; any other NodeInfo fails the cast with ClassCastException |
| NodeWrapper.SameNodeIsIdentity | bundles/sirix-saxon/src/main/java/org/treetank/saxon/wrapper/NodeWrapper.java:649 | within one document "same node" is reflexive, symmetric and transitive and holds exactly for equal wrappers |
| NodeWrapper.CompareOrder | bundles/sirix-saxon/src/main/java/org/treetank/saxon/wrapper/NodeWrapper.java:181-186 | IllegalStateException exactly for nodes of documents with different document numbers; otherwise Saxon's comparison |
| NodeWrapperAxis.AxisNumbering | bundles/sirix-saxon/src/main/java/org/treetank/saxon/wrapper/NodeWrapper.java:674-767 | the axis numbers are a bijection between the fourteen axes and 0..13 |
| NodeWrapperAxis.IterateAxisAsWritten | bundles/sirix-saxon/src/main/java/org/treetank/saxon/wrapper/NodeWrapper.java:665-772 | an unknown axis number raises IllegalArgumentException, and every known one selects an iterator |
| NodeWrapperAxis.IterateAxis | bundles/sirix-saxon/src/main/java/org/treetank/saxon/wrapper/NodeWrapper.java:718-760 | the intended dispatch raises IllegalArgumentException exactly for an unknown axis number |
| NodeWrapperAxis.Members | bundles/sirix-saxon/src/main/java/org/treetank/saxon/wrapper/NodeWrapper.java:674-767 | the nodes an iterator delivers, as assumed of each Treetank axis (children, siblings, ancestors, subtree, attributes, parent); every key delivered is a stored node; the empty iterator delivers nothing and the singleton delivers the node |
| NodeWrapperAxis.IterateAxisDeliversAxis | bundles/sirix-saxon/src/main/java/org/treetank/saxon/wrapper/NodeWrapper.java:674-713 | every short-circuit is sound: the empty iterator (ancestor of the root, attribute of a non-element, child without first child, descendant without children, siblings of root/attribute/namespace, parent of the root) and the singleton of self (ancestor-or-self of the root) deliver exactly the nodes of the axis |
| NodeWrapperAxis.FollowingSiblingFallsThrough | bundles/sirix-saxon/src/main/java/org/treetank/saxon/wrapper/NodeWrapper.java:718-736 | as written following-sibling ends in the namespace case; a text node with a right sibling gets the empty iterator |
| NodeWrapperAxis.ParentFallsThrough | bundles/sirix-saxon/src/main/java/org/treetank/saxon/wrapper/NodeWrapper.java:737-745 | as written parent ends in the preceding case; for any node but the root, the parent is the one member of its parent axis, it is an ancestor of the node, and so it is never on the preceding axis (defined by position in the subtree walk from the root, an attribute or namespace node standing at its owner element, ancestors excluded) that is delivered instead |
| NodeWrapperAxis.PrecedingSiblingFallsThrough | bundles/sirix-saxon/src/main/java/org/treetank/saxon/wrapper/NodeWrapper.java:746-760 | as written preceding-sibling ends in the self case and delivers the node itself, which is never its own preceding sibling |
| NodeWrapperAxis.SaxonEnumeration.Advance | bundles/sirix-saxon/src/main/java/org/treetank/saxon/wrapper/NodeWrapper.java:875-896 | with a key left the axis moves on by one and current wraps that key's node, unless the key is negative and the wrapper constructor's IllegalArgumentException escapes; with none left current becomes null and the axis stays put |
| TreetankAxis.Axis.HasNext | bundles/sirix-core/src/main/java/org/sirix/axis/concurrent/Util.java:26 | the axis has a next result exactly when keys remain |
| TreetankAxis.Axis.Next | bundles/sirix-core/src/main/java/org/sirix/axis/concurrent/Util.java:26 | next returns the first remaining key and moves the cursor past it |
| ConcurrentUtil.GetNext | bundles/sirix-core/src/main/java/org/sirix/axis/concurrent/Util.java:25-28 | with keys remaining, returns the next key and advances the cursor by one; on an exhausted axis returns NULL_NODE_KEY and leaves the axis unchanged |
| ConcurrentUtil.DrainAxis | bundles/sirix-core/src/main/java/org/sirix/axis/concurrent/Util.java:25-28 | a caller with no counterpart in Util: n calls of getNext in a row collect exactly the keys Drain predicts from the remaining keys, and leave the axis with the remaining keys past the first n (none when fewer were left) |
| ConcurrentUtil.Sentinels | bundles/sirix-core/src/main/java/org/sirix/axis/concurrent/Util.java:26-27 | n entries, each the null node key |
| ConcurrentUtil.DrainYieldsKeysThenSentinels | bundles/sirix-core/src/main/java/org/sirix/axis/concurrent/Util.java:25-28 | repeated calls yield the remaining keys in order, followed only by sentinels |
| ConcurrentUtil.SentinelMeansExhausted | bundles/sirix-core/src/main/java/org/sirix/axis/concurrent/Util.java:25-28 | when the axis yields only node keys, a call returns the sentinel exactly when the keys have run out |
| ConcurrentUtil.IsValid | bundles/sirix-core/src/main/java/org/sirix/axis/concurrent/Util.java:42-51 | returns true for every key; an XPTY0004 error is logged exactly for a negative key |
| ConcurrentUtil.CheckIsNode | bundles/sirix-core/src/main/java/org/sirix/axis/concurrent/Util.java:30-40 | the documented guard: true for a non-negative key, XPTY0004 for a negative one |
| ConcurrentUtil.IsValidLogsWhereCheckFails | bundles/sirix-core/src/main/java/org/sirix/axis/concurrent/Util.java:42-51 | isValid logs exactly where the documented guard fails, and logs the same error |
| ConcurrentUtil.IsValidAcceptsAtomicValueKey | bundles/sirix-core/src/main/java/org/sirix/axis/concurrent/Util.java:43-50 | the atomic-value key -1 passes isValid although the documented guard rejects it |
| TreeStore.LeftSiblingsShareParent | bundles/sirix-saxon/src/main/java/org/treetank/saxon/wrapper/NodeWrapper.java:814-817 | the left-sibling walk stays under the same parent and below the node's rank, so it never reaches the node itself |
| TreeStore.LeftSiblingCountIsChildIndex | bundles/sirix-saxon/src/main/java/org/treetank/saxon/wrapper/NodeWrapper.java:814-817 | the number of left siblings of a structural node is its index in its parent's child list |
| TreeStore.DescendantTextFromChildren | bundles/sirix-saxon/src/main/java/org/treetank/saxon/wrapper/NodeWrapper.java:535-540 | the text of the descendants in document order is the concatenation of the children's contributions |
| TreeStore.ChildCountAndFirstChild | bundles/sirix-saxon/src/main/java/org/treetank/saxon/wrapper/NodeWrapper.java:598-610 | the child count is positive exactly when there is a first child |
| ExampleDocument.ExampleValid | bundles/sirix-saxon/src/main/java/org/treetank/saxon/wrapper/NodeWrapper.java:107-127 | the document <a><b>hello</b><c/></a> is a well-formed revision, and every key in it wraps |
| ExampleDocument.ExampleStringValues | bundles/sirix-saxon/src/main/java/org/treetank/saxon/wrapper/NodeWrapper.java:492-546 | on <a><b>hello</b><c/></a> the string value of a and of b is "hello" and that of c is "" |
| ExampleDocument.ExampleAxes | bundles/sirix-saxon/src/main/java/org/treetank/saxon/wrapper/NodeWrapper.java:674-767 | on the example, with the intended dispatch: children of a are [b, c], c has none; b's following siblings are [c], c's none; c's preceding siblings are [b], b's none; the root has no parent and no ancestors |
| ExampleDocument.ExamplePrecedingAxis | bundles/sirix-saxon/src/main/java/org/treetank/saxon/wrapper/NodeWrapper.java:737-745 | on the example, the preceding axis follows document order: the text "hello" precedes c, c does not precede the text, and a is excluded from c's preceding axis as its ancestor |
| ExampleDocument.ExampleFallThroughs | bundles/sirix-saxon/src/main/java/org/treetank/saxon/wrapper/NodeWrapper.java:718-760 | on the example, as written: following-sibling of b yields the namespace iterator and preceding-sibling of c yields c itself |

## Left out

- Saxon's own machinery is not part of this model. That covers:
  - `Navigator.compareOrder` and `Navigator.copy`;
  - node-test filtering in `AxisFilter`;
  - `NamespaceIterator`, `PrecedingEnumeration` and `filteredSingleton`;
  - `FastStringBuffer`.
  `iterateAxis` is modelled up to the iterator it selects. `NodeWrapperAxis.Members` gives no members for the following, preceding, namespace and preceding-or-ancestor iterators.
- The name pool's `allocate` and `allocateNamespaceCode` are uninterpreted functions supplied with the document.
- Read transactions are not modelled: opening, moving and closing them, the closes in `advance`, and the paths that catch `AbsTTException`, log and return null or the default. The store never fails. A move to a key with no node is taken to leave the transaction on the document root, where it started.
- `getDocumentNumber` is the Java `String.hashCode` of the base URI. It is a field of the document here, only compared for equality.
- The following are not modelled, being plumbing without logic of their own:
  - `getConfiguration`, `getRoot`, `getDocumentRoot` and `getNamePool`;
  - `setSystemId` and `getSystemId`;
  - `getRealNode` and `getUnderlyingNode`;
  - `getTypedValue`, `getStringValue` and `generateId`;
  - logging;
  - `getLineNumber`, `getColumnNumber`, `isId`, `isIdref` and `isNilled`, which are constant or unsupported;
  - `getNodeKind`.
- `SaxonEnumeration.getAnother` shares its underlying axis object. It is not modelled.
- `Util` is used in a concurrent setting, but multi-threaded use is not modelled.
- NodeWrapper.Fingerprint: the mask `& 0xfffff` is written as the remainder modulo 2^20. That is the same on a 32-bit two's-complement value, but the bit-level reading is not proved.
- NodeWrapper.GetDeclaredNamespaces: an element without declarations gets a fresh empty array (in GetDeclaredNamespacesAsWritten too). The source returns one shared empty constant, and that sharing is not modelled.
- TreetankAxis.Axis: `hasNext` is taken to be free of side effects. Treetank's axes compute the next result inside `hasNext`; only the resulting sequence of keys is modelled.
- ConcurrentUtil.IsValid: the log output is modelled as a returned value rather than as a side effect.

## Findings

| source | as written | input that shows it | evidently intended | confidence | as-written member | corrected member |
|---|---|---|---|---|---|---|
| bundles/sirix-saxon/src/main/java/org/treetank/saxon/wrapper/NodeWrapper.java:718-736 | the FOLLOWING_SIBLING case has no `break` and falls into NAMESPACE, which overwrites its result | a text node with a right sibling, axis 7: empty iterator; an element: the namespace iterator | the following-sibling enumeration for structural nodes | not executed | NodeWrapperAxis.FollowingSiblingFallsThrough | NodeWrapperAxis.IterateAxisDeliversAxis |
| bundles/sirix-saxon/src/main/java/org/treetank/saxon/wrapper/NodeWrapper.java:737-745 | the PARENT case has no `break` and falls into PRECEDING; its guard also compares a parent key with a node-kind id | a non-root node, axis 9: the preceding axis, which never contains the parent | the parent enumeration, empty for the document root | not executed | NodeWrapperAxis.ParentFallsThrough | NodeWrapperAxis.IterateAxisDeliversAxis |
| bundles/sirix-saxon/src/main/java/org/treetank/saxon/wrapper/NodeWrapper.java:746-760 | the PRECEDING_SIBLING case has no `break` and falls into SELF | any node, axis 11: the node itself | the preceding-sibling enumeration for structural nodes | not executed | NodeWrapperAxis.PrecedingSiblingFallsThrough | NodeWrapperAxis.IterateAxisDeliversAxis |
| bundles/sirix-saxon/src/main/java/org/treetank/saxon/wrapper/NodeWrapper.java:284-289 | the loop moves the transaction to key i but reads prefix and URI from the wrapper itself | an element declaring two namespaces with different codes: both slots hold the element's own code, so one of them is wrong (NamespaceCodesAsWrittenMissDeclarations) | slot i holds the code of the i-th declared namespace | not executed | NodeWrapper.GetDeclaredNamespacesAsWritten | NodeWrapper.GetDeclaredNamespaces |
| bundles/sirix-saxon/src/main/java/org/treetank/saxon/wrapper/NodeWrapper.java:316-319 | element and attribute display names are always prefix + ":" + local | an unprefixed element `a`: ":a" | the lexical QName, "a" without prefix | not executed | NodeWrapper.UnprefixedDisplayNameStartsWithColon | NodeWrapper.DisplayNameRoundTrip |
| bundles/sirix-core/src/main/java/org/sirix/axis/concurrent/Util.java:42-51 | the XPTY0004 error is thrown and caught inside the method, which then returns true | key -1 (an atomic value): true | XPTY0004 escapes for a negative key, as the comment at lines 36-40 says | not executed | ConcurrentUtil.IsValidAcceptsAtomicValueKey | ConcurrentUtil.CheckIsNode |
