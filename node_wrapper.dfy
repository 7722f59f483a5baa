/**
 * NodeWrapper: one node of a pinned revision, seen through Saxon's NodeInfo
 * interface.
 *
 * A wrapper is an immutable value: the node key, its kind, its qualified name
 * (kept only for elements and attributes) and the revision. Everything else it
 * answers is read from the store of the document it belongs to. The name pool
 * that Saxon uses to intern names is a pair of functions supplied with the
 * document; its inner workings are not part of this model.
 */
module NodeWrapper {
  import opened Wrappers
  import opened TreeStore

  /** A Java `int`. */
  newtype int32 = x: int | -0x8000_0000 <= x < 0x8000_0000

  /** The two allocation functions of Saxon's name pool that the wrapper calls. */
  datatype NamePool = NamePool(
    allocate: (string, string, string) -> int32,
    allocateNamespaceCode: (string, string) -> int32)

  /** Saxon's fixed fingerprint for the name xml:base (StandardNames.XML_BASE). */
  const XML_BASE: int32 := 385

  /**
   * The document wrapper the node belongs to: the store at the pinned revision,
   * the document's base URI, its document number (the hash of that base URI,
   * computed by Java's String.hashCode) and the shared name pool.
   */
  datatype Document = Document(
    store: Store,
    revision: int,
    baseURI: string,
    documentNumber: int,
    pool: NamePool)

  /** The Java exceptions that escape the modelled operations. */
  datatype Error = IllegalArgument | IllegalState | NullDereference | ClassCast

  datatype Wrapper = Wrapper(key: int, kind: Kind, qname: Option<QName>, revision: int) {
    /** What the constructor establishes: a real key, and a name exactly for elements and attributes. */
    predicate Wf() {
      key >= 0 && (qname.Some? <==> (kind.Element? || kind.Attribute?))
    }
  }

  /** `w` is the wrapper of the node at `w.key` in `doc`. */
  ghost predicate Wraps(doc: Document, w: Wrapper) {
    && Valid(doc.store)
    && w.key in doc.store.nodes
    && w.revision == doc.revision
    && w.kind == doc.store.nodes[w.key].kind
    && w.qname == (if w.kind.Element? || w.kind.Attribute? then doc.store.nodes[w.key].name else None)
  }

  lemma WrapsWf(doc: Document, w: Wrapper)
    requires Wraps(doc, w)
    ensures w.Wf()
  {
    assert LinkedAt(doc.store, w.key) && ConsistentAt(doc.store, w.key);
  }

  /** The wrapper the constructor builds once the read transaction stands on `k`. */
  function WrapperAt(doc: Document, k: int): (w: Wrapper)
    requires Valid(doc.store) && k in doc.store.nodes
    ensures Wraps(doc, w) && w.key == k && w.Wf()
  {
    var r := doc.store.nodes[k];
    var w := Wrapper(k, r.kind, if r.kind.Element? || r.kind.Attribute? then r.name else None, doc.revision);
    WrapsWf(doc, w);
    w
  }

  /** A key determines its wrapper: two wrappers of one document with the same key are equal. */
  lemma WrapsUnique(doc: Document, a: Wrapper, b: Wrapper)
    requires Wraps(doc, a) && Wraps(doc, b) && a.key == b.key
    ensures a == b
  {
  }

  /**
   * The constructor. A negative start key is rejected; otherwise the read
   * transaction moves to the key, and when no node has that key it stays
   * on the document root, where it started.
   */
  function Open(doc: Document, key: int): (r: Result<Wrapper, Error>)
    requires Valid(doc.store)
    ensures r.Err? <==> key < 0
    ensures r.Err? ==> r.error == IllegalArgument
    ensures r.Ok? ==> Wraps(doc, r.value) && r.value.Wf()
    ensures r.Ok? ==> r.value.key == (if key in doc.store.nodes then key else ROOT_KEY)
  {
    if key < 0 then Err(IllegalArgument)
    else if key in doc.store.nodes then Ok(WrapperAt(doc, key))
    else Ok(WrapperAt(doc, ROOT_KEY))
  }

  // ---------------------------------------------------------------------------
  // Names

  /** getPrefix: the prefix of the name the wrapper holds, "" when it holds none. */
  function Prefix(w: Wrapper): (r: string)
    requires w.Wf()
    ensures w.qname.Some? ==> r == w.qname.value.prefix
    ensures w.qname.None? ==> r == ""
  {
    if w.kind.Element? || w.kind.Attribute? then w.qname.value.prefix else ""
  }

  /** getLocalPart: the local part of the name the wrapper holds, "" when it holds none. */
  function LocalPart(w: Wrapper): (r: string)
    requires w.Wf()
    ensures w.qname.Some? ==> r == w.qname.value.localPart
    ensures w.qname.None? ==> r == ""
  {
    if w.kind.Element? || w.kind.Attribute? then w.qname.value.localPart else ""
  }

  /**
   * getURI. For a namespace node the wrapper holds no name, so the code
   * dereferences null there.
   */
  function URI(w: Wrapper): (r: Result<string, Error>)
    requires w.Wf()
    ensures r.Err? <==> w.kind.Namespace?
  {
    match w.kind
    case Element | Attribute =>
      if w.qname.value.prefix != "" then Ok(w.qname.value.namespaceURI) else Ok("")
    case Namespace => Err(NullDereference)
    case _ => Ok("")
  }

  /**
   * The name accessors against the stored name: only elements and attributes
   * keep one; every other kind has an empty prefix and local part; the URI is
   * the namespace URI only under a non-empty prefix.
   */
  lemma NameAccessors(doc: Document, w: Wrapper)
    requires Wraps(doc, w)
    ensures w.Wf()
    ensures var r := doc.store.nodes[w.key];
      if w.kind.Element? || w.kind.Attribute? then
        && r.name.Some?
        && Prefix(w) == r.name.value.prefix
        && LocalPart(w) == r.name.value.localPart
        && URI(w) == Ok(if r.name.value.prefix == "" then "" else r.name.value.namespaceURI)
      else
        && w.qname.None?
        && Prefix(w) == ""
        && LocalPart(w) == ""
        && URI(w) == (if w.kind.Namespace? then Err(NullDereference) else Ok(""))
  {
    WrapsWf(doc, w);
    assert LinkedAt(doc.store, w.key) && ConsistentAt(doc.store, w.key);
  }

  /** getDisplayName as written: "prefix:local" even when the prefix is empty. */
  function DisplayNameAsWritten(w: Wrapper): (r: string)
    requires w.Wf()
    ensures r != "" <==> (w.kind.Element? || w.kind.Attribute?)
  {
    match w.kind
    case Element | Attribute => Prefix(w) + ":" + LocalPart(w)
    case Namespace | ProcessingInstruction => LocalPart(w)
    case _ => ""
  }

  /** As written, an unprefixed element or attribute gets a display name that starts with a colon. */
  lemma UnprefixedDisplayNameStartsWithColon(w: Wrapper)
    requires w.Wf() && (w.kind.Element? || w.kind.Attribute?) && Prefix(w) == ""
    ensures DisplayNameAsWritten(w) == ":" + LocalPart(w)
    ensures DisplayNameAsWritten(w)[0] == ':'
  {
  }

  /** getDisplayName as intended: the lexical QName, "local" when there is no prefix. */
  function DisplayName(w: Wrapper): (r: string)
    requires w.Wf()
    ensures !(w.kind.Element? || w.kind.Attribute?) ==> r == ""
  {
    if w.kind.Element? || w.kind.Attribute? then
      if Prefix(w) == "" then LocalPart(w) else Prefix(w) + ":" + LocalPart(w)
    else ""
  }

  /** The index of the first colon in `s`, or |s| when it has none. */
  function ColonIndex(s: string): (i: nat)
    ensures i <= |s|
    ensures forall j | 0 <= j < i :: s[j] != ':'
    ensures i < |s| ==> s[i] == ':'
  {
    if s == [] then 0 else if s[0] == ':' then 0 else 1 + ColonIndex(s[1..])
  }

  /** Splits a lexical QName into prefix and local part. */
  function SplitQName(s: string): (string, string) {
    var i := ColonIndex(s);
    if i == |s| then ("", s) else (s[..i], s[i + 1..])
  }

  /** The intended display name is a lexical QName that splits back into the node's prefix and local part. */
  lemma DisplayNameRoundTrip(w: Wrapper)
    requires w.Wf() && (w.kind.Element? || w.kind.Attribute?)
    requires ':' !in Prefix(w) && ':' !in LocalPart(w)
    ensures SplitQName(DisplayName(w)) == (Prefix(w), LocalPart(w))
    ensures ':' in DisplayName(w) <==> Prefix(w) != ""
  {
    var p, l := Prefix(w), LocalPart(w);
    var d := DisplayName(w);
    if p == "" {
      assert d == l;
      assert ColonIndex(d) == |d|;
    } else {
      assert d == p + ":" + l;
      var i := ColonIndex(d);
      assert d[|p|] == ':';
      assert i == |p|;
      assert d[..i] == p;
      assert d[i + 1..] == l;
    }
  }

  /** getNameCode: allocated from the pool for elements, attributes and processing instructions. */
  function NameCode(pool: NamePool, w: Wrapper): (r: int32)
    requires w.Wf()
    ensures w.qname.Some? ==> r == pool.allocate(
      w.qname.value.prefix,
      if w.qname.value.prefix == "" then "" else w.qname.value.namespaceURI,
      w.qname.value.localPart)
    ensures w.kind.ProcessingInstruction? ==> r == pool.allocate("", "", "")
    ensures !(w.kind.Element? || w.kind.Attribute? || w.kind.ProcessingInstruction?) ==> r == -1
  {
    match w.kind
    case Element | Attribute | ProcessingInstruction =>
      pool.allocate(Prefix(w), URI(w).value, LocalPart(w))
    case _ => -1
  }

  /**
   * The name code against the stored name: -1 for every kind but element,
   * attribute and processing instruction; a processing instruction is
   * allocated under the empty name, since its local part is empty.
   */
  lemma NameCodeByKind(doc: Document, w: Wrapper)
    requires Wraps(doc, w)
    ensures w.Wf()
    ensures var r := doc.store.nodes[w.key];
      if w.kind.Element? || w.kind.Attribute? then
        r.name.Some? && NameCode(doc.pool, w) == doc.pool.allocate(
          r.name.value.prefix,
          if r.name.value.prefix == "" then "" else r.name.value.namespaceURI,
          r.name.value.localPart)
      else if w.kind.ProcessingInstruction? then NameCode(doc.pool, w) == doc.pool.allocate("", "", "")
      else NameCode(doc.pool, w) == -1
  {
    NameAccessors(doc, w);
  }

  /**
   * `nameCode & 0xfffff`, or -1 for no name. On a 32-bit two's complement
   * value, keeping the low 20 bits is the same as taking the (never negative)
   * remainder modulo 2^20, which is how the mask is written here.
   */
  function Fingerprint(nameCode: int32): (r: int32)
    ensures r == -1 <==> nameCode == -1
    ensures nameCode != -1 ==> 0 <= r <= 0xF_FFFF
    ensures nameCode != -1 ==> (r as int - nameCode as int) % 0x10_0000 == 0
  {
    if nameCode == -1 then -1 else (nameCode as int % 0x10_0000) as int32
  }

  /** getFingerprint: -1 or a 20-bit value, agreeing with the name code in its low 20 bits. */
  function GetFingerprint(pool: NamePool, w: Wrapper): (r: int32)
    requires w.Wf()
    ensures r == -1 <==> NameCode(pool, w) == -1
    ensures r == -1 || 0 <= r <= 0xF_FFFF
    ensures !(w.kind.Element? || w.kind.Attribute? || w.kind.ProcessingInstruction?) ==> r == -1
    ensures r != -1 ==> (r as int - NameCode(pool, w) as int) % 0x10_0000 == 0
  {
    Fingerprint(NameCode(pool, w))
  }

  // ---------------------------------------------------------------------------
  // Values

  function EmptyIfNull(s: Option<string>): (r: string)
    ensures s.Some? ==> r == s.value
    ensures s.None? ==> r == ""
  {
    if s.None? then "" else s.value
  }

  /**
   * getStringValueCS, as a function of the store: the reference definition
   * the method is proved against. A namespace node has the empty string value;
   * a node without content of its own gives its stored value, "" for none.
   */
  function StringValue(doc: Document, w: Wrapper): (r: string)
    requires Wraps(doc, w)
    ensures w.kind.Namespace? ==> r == ""
    ensures w.kind.Attribute? || w.kind.Comment? || w.kind.ProcessingInstruction? ==>
      r == EmptyIfNull(doc.store.nodes[w.key].value)
  {
    var r := doc.store.nodes[w.key];
    match w.kind
    case Root | Element => TextOf(doc.store, Descendants(doc.store, w.key))
    case Text => TextAt(doc.store, w.key)
    case Attribute | Comment | ProcessingInstruction => EmptyIfNull(r.value)
    case Namespace => ""
  }

  /**
   * The string value of a root or element is built from its children in
   * order: a text child gives its value, an element child its own string
   * value, a comment or processing-instruction child nothing. A text node
   * gives its raw value; attribute, comment and processing instruction give
   * their value or "".
   */
  lemma StringValueFromChildren(doc: Document, w: Wrapper)
    requires Wraps(doc, w)
    ensures w.kind.Root? || w.kind.Element? ==>
      && (forall c | c in Children(doc.store, w.key) :: c in doc.store.nodes)
      && StringValue(doc, w) == ChildrenText(doc.store, Children(doc.store, w.key))
    ensures w.kind.Text? ==>
      doc.store.nodes[w.key].value.Some? && StringValue(doc, w) == doc.store.nodes[w.key].value.value
    ensures w.kind.Attribute? || w.kind.Comment? || w.kind.ProcessingInstruction? ==>
      StringValue(doc, w) == EmptyIfNull(doc.store.nodes[w.key].value)
  {
    assert LinkedAt(doc.store, w.key) && ConsistentAt(doc.store, w.key);
    if w.kind.Root? || w.kind.Element? {
      DescendantTextFromChildren(doc.store, w.key);
    }
  }

  lemma {:induction false} ForestInStore(s: Store, c: int)
    requires Linked(s) && (c == NULL_KEY || c in s.nodes)
    ensures forall x | x in Forest(s, c) :: x in s.nodes
    decreases if c in s.nodes then |s.nodes| - s.order[c] else 0, 2
  {
    if c != NULL_KEY {
      assert LinkedAt(s, c);
      SubtreeInStore(s, c);
      ForestInStore(s, s.nodes[c].rightSibling);
    }
  }

  lemma {:induction false} SubtreeInStore(s: Store, k: int)
    requires Linked(s) && k in s.nodes
    ensures forall x | x in Subtree(s, k) :: x in s.nodes
    decreases |s.nodes| - s.order[k], 1
  {
    assert LinkedAt(s, k);
    ForestInStore(s, s.nodes[k].firstChild);
  }

  /** expandString: the values of the text nodes the descendant axis visits, appended in order. */
  method ExpandString(doc: Document, w: Wrapper) returns (r: string)
    requires Wraps(doc, w)
    ensures r == TextOf(doc.store, Descendants(doc.store, w.key))
  {
    var s := doc.store;
    var axis := Descendants(s, w.key);
    assert LinkedAt(s, w.key);
    ForestInStore(s, s.nodes[w.key].firstChild);
    var buf := "";
    var i := 0;
    while i < |axis|
      invariant 0 <= i <= |axis|
      invariant buf == TextOf(s, axis[..i])
    {
      var k := axis[i];
      assert k in s.nodes;
      if s.nodes[k].kind.Text? {
        assert ConsistentAt(s, k);
        buf := buf + s.nodes[k].value.value;
      }
      TextOfAppend(s, axis[..i], [k]);
      assert axis[..i + 1] == axis[..i] + [k];
      i := i + 1;
    }
    assert axis[..i] == axis;
    r := buf;
  }

  /** getStringValueCS. */
  method GetStringValueCS(doc: Document, w: Wrapper) returns (r: string)
    requires Wraps(doc, w)
    ensures r == StringValue(doc, w)
  {
    var rec := doc.store.nodes[w.key];
    match w.kind
    case Root | Element =>
      r := ExpandString(doc, w);
    case Attribute =>
      r := EmptyIfNull(rec.value);
    case Text =>
      assert ConsistentAt(doc.store, w.key);
      r := rec.value.value;
    case Comment | ProcessingInstruction =>
      r := EmptyIfNull(rec.value);
    case Namespace =>
      r := "";
  }

  datatype AtomicValue = StringValueOf(text: string) | UntypedAtomicValue(text: string)

  /** atomize: a plain string for comments and processing instructions, xs:untypedAtomic otherwise. */
  function Atomize(doc: Document, w: Wrapper): (v: AtomicValue)
    requires Wraps(doc, w)
    ensures v.StringValueOf? <==> (w.kind.Comment? || w.kind.ProcessingInstruction?)
    ensures v.text == StringValue(doc, w)
  {
    match w.kind
    case Comment | ProcessingInstruction => StringValueOf(StringValue(doc, w))
    case _ => UntypedAtomicValue(StringValue(doc, w))
  }

  datatype TypeAnnotation = XsUntypedAtomic | XsUntyped

  function GetTypeAnnotation(w: Wrapper): (t: TypeAnnotation)
    ensures t.XsUntypedAtomic? <==> w.kind.Attribute?
  {
    if w.kind.Attribute? then XsUntypedAtomic else XsUntyped
  }

  // ---------------------------------------------------------------------------
  // Declared namespaces

  /** The namespace code of the `i`-th namespace declared on an element. */
  function NamespaceCode(doc: Document, w: Wrapper, i: nat): int32
    requires Wraps(doc, w) && w.kind.Element?
    requires i < |doc.store.nodes[w.key].namespaceKeys|
  {
    var s := doc.store;
    assert ConsistentAt(s, w.key);
    var n := s.nodes[w.key].namespaceKeys[i];
    assert n in s.nodes;
    assert ConsistentAt(s, n);
    var q := s.nodes[n].name.value;
    doc.pool.allocateNamespaceCode(q.prefix, q.namespaceURI)
  }

  /** The codes of all namespaces an element declares, in order. */
  function DeclaredCodes(doc: Document, w: Wrapper): (codes: seq<int32>)
    requires Wraps(doc, w) && w.kind.Element?
    ensures |codes| == |doc.store.nodes[w.key].namespaceKeys|
    ensures forall i | 0 <= i < |codes| :: codes[i] == NamespaceCode(doc, w, i)
  {
    seq(|doc.store.nodes[w.key].namespaceKeys|, i requires 0 <= i < |doc.store.nodes[w.key].namespaceKeys| =>
      NamespaceCode(doc, w, i))
  }

  /**
   * The code each loop iteration stores as written: the cursor moves to key
   * `i`, but the prefix and URI are read from the wrapper itself, so every
   * slot holds the element's own namespace code.
   */
  function NamespaceCodeAsWritten(doc: Document, w: Wrapper): (r: int32)
    requires Wraps(doc, w) && w.kind.Element?
    ensures var q := doc.store.nodes[w.key].name;
      q.Some? && r == doc.pool.allocateNamespaceCode(q.value.prefix, if q.value.prefix == "" then "" else q.value.namespaceURI)
  {
    WrapsWf(doc, w);
    doc.pool.allocateNamespaceCode(Prefix(w), URI(w).value)
  }

  /** The codes the loop stores as written: the element's own code in every slot. */
  function NamespaceCodesAsWritten(doc: Document, w: Wrapper): (codes: seq<int32>)
    requires Wraps(doc, w) && w.kind.Element?
    ensures |codes| == |doc.store.nodes[w.key].namespaceKeys|
    ensures forall i | 0 <= i < |codes| :: codes[i] == NamespaceCodeAsWritten(doc, w)
  {
    seq(|doc.store.nodes[w.key].namespaceKeys|, _ => NamespaceCodeAsWritten(doc, w))
  }

  /**
   * As written, the filled slots cannot tell two declarations apart: when an
   * element declares two namespaces whose codes differ, the code in at least
   * one slot is not the code of the namespace declared there.
   */
  lemma NamespaceCodesAsWrittenMissDeclarations(doc: Document, w: Wrapper)
    requires Wraps(doc, w) && w.kind.Element?
    requires |doc.store.nodes[w.key].namespaceKeys| >= 2
    requires NamespaceCode(doc, w, 0) != NamespaceCode(doc, w, 1)
    ensures NamespaceCodesAsWritten(doc, w) != DeclaredCodes(doc, w)
    ensures exists i | 0 <= i < 2 :: NamespaceCodesAsWritten(doc, w)[i] != DeclaredCodes(doc, w)[i]
  {
    var written, declared := NamespaceCodesAsWritten(doc, w), DeclaredCodes(doc, w);
    if written[0] == declared[0] {
      assert written[1] == written[0];
      assert written[1] != declared[1];
    }
  }

  /**
   * The buffer protocol of getDeclaredNamespaces for a non-empty list of
   * codes: the caller's buffer is reused when it is big enough, a fresh array
   * of exactly `|codes|` slots is made when it is not; the codes fill the
   * first slots in order and the next slot, when it exists, receives the end
   * marker -1. Later slots, and a buffer that is not reused, are unchanged.
   */
  method FillNamespaceList(codes: seq<int32>, buffer: array?<int32>) returns (retVal: array<int32>)
    requires |codes| > 0
    modifies if buffer == null then {} else {buffer}
    ensures retVal == buffer <==> buffer != null && |codes| <= buffer.Length
    ensures retVal != buffer ==> fresh(retVal) && retVal.Length == |codes|
    ensures |codes| <= retVal.Length && retVal[..|codes|] == codes
    ensures |codes| < retVal.Length ==> retVal[|codes|] == -1
    ensures retVal == buffer ==> forall i | |codes| < i < buffer.Length :: buffer[i] == old(buffer[i])
    ensures buffer != null && retVal != buffer ==> buffer[..] == old(buffer[..])
  {
    var count := |codes|;
    if buffer == null || count > buffer.Length {
      retVal := new int32[count];
    } else {
      retVal := buffer;
    }
    var n := 0;
    for i := 0 to count
      invariant n == i
      invariant retVal[..i] == codes[..i]
      invariant retVal == buffer ==> forall j | i <= j < buffer.Length :: buffer[j] == old(buffer[j])
      invariant retVal != buffer && buffer != null ==> buffer[..] == old(buffer[..])
    {
      retVal[n] := codes[i];
      n := n + 1;
    }
    assert codes[..count] == codes;
    if count < retVal.Length {
      retVal[count] := -1;
    }
  }

  /**
   * getDeclaredNamespaces as written: the buffer protocol holds, but every
   * filled slot receives the element's own namespace code.
   */
  method GetDeclaredNamespacesAsWritten(doc: Document, w: Wrapper, buffer: array?<int32>) returns (retVal: array?<int32>)
    requires Wraps(doc, w)
    modifies if buffer == null then {} else {buffer}
    ensures !w.kind.Element? ==> retVal == null
    ensures w.kind.Element? && |doc.store.nodes[w.key].namespaceKeys| == 0 ==>
      retVal != null && retVal.Length == 0
    ensures w.kind.Element? && |doc.store.nodes[w.key].namespaceKeys| > 0 ==>
      var count := |doc.store.nodes[w.key].namespaceKeys|;
      && retVal != null
      && (retVal == buffer <==> buffer != null && count <= buffer.Length)
      && (retVal != buffer ==> fresh(retVal) && retVal.Length == count)
      && count <= retVal.Length
      && retVal[..count] == NamespaceCodesAsWritten(doc, w)
      && (count < retVal.Length ==> retVal[count] == -1)
      && (retVal == buffer ==> forall i | count < i < buffer.Length :: buffer[i] == old(buffer[i]))
    ensures buffer != null && retVal != buffer ==> buffer[..] == old(buffer[..])
  {
    retVal := null;
    if w.kind.Element? {
      var count := |doc.store.nodes[w.key].namespaceKeys|;
      if count == 0 {
        retVal := new int32[0];
      } else {
        retVal := FillNamespaceList(NamespaceCodesAsWritten(doc, w), buffer);
      }
    }
  }

  /**
   * getDeclaredNamespaces as intended: the same buffer protocol, with slot `i`
   * holding the code of the `i`-th declared namespace.
   */
  method GetDeclaredNamespaces(doc: Document, w: Wrapper, buffer: array?<int32>) returns (retVal: array?<int32>)
    requires Wraps(doc, w)
    modifies if buffer == null then {} else {buffer}
    ensures !w.kind.Element? ==> retVal == null
    ensures w.kind.Element? && |doc.store.nodes[w.key].namespaceKeys| == 0 ==>
      retVal != null && retVal.Length == 0
    ensures w.kind.Element? && |doc.store.nodes[w.key].namespaceKeys| > 0 ==>
      var count := |doc.store.nodes[w.key].namespaceKeys|;
      && retVal != null
      && (retVal == buffer <==> buffer != null && count <= buffer.Length)
      && (retVal != buffer ==> fresh(retVal) && retVal.Length == count)
      && count <= retVal.Length
      && retVal[..count] == DeclaredCodes(doc, w)
      && (count < retVal.Length ==> retVal[count] == -1)
      && (retVal == buffer ==> forall i | count < i < buffer.Length :: buffer[i] == old(buffer[i]))
    ensures buffer != null && retVal != buffer ==> buffer[..] == old(buffer[..])
  {
    retVal := null;
    if w.kind.Element? {
      var count := |doc.store.nodes[w.key].namespaceKeys|;
      if count == 0 {
        retVal := new int32[0];
      } else {
        retVal := FillNamespaceList(DeclaredCodes(doc, w), buffer);
      }
    }
  }

  // ---------------------------------------------------------------------------
  // Parent, attributes and the base URI

  /** getParent: a fresh wrapper of the parent, or null for the document root. */
  function GetParent(doc: Document, w: Wrapper): (r: Option<Wrapper>)
    requires Wraps(doc, w)
    ensures r.None? <==> w.kind.Root?
    ensures r.Some? ==> Wraps(doc, r.value) && r.value.key == doc.store.nodes[w.key].parent
  {
    assert LinkedAt(doc.store, w.key) && ConsistentAt(doc.store, w.key);
    var p := doc.store.nodes[w.key].parent;
    if p != NULL_KEY then Some(WrapperAt(doc, p)) else None
  }

  /** The fingerprint of the attribute stored at `a`. */
  function AttributeFingerprint(doc: Document, a: int): int32
    requires Valid(doc.store) && a in doc.store.nodes
  {
    GetFingerprint(doc.pool, WrapperAt(doc, a))
  }

  /** The value of the first attribute among `keys` whose fingerprint is `fingerprint`. */
  function FirstAttributeValue(doc: Document, keys: seq<int>, fingerprint: int32): (r: Option<string>)
    requires Valid(doc.store) && forall a | a in keys :: a in doc.store.nodes
    ensures r.None? <==> forall i | 0 <= i < |keys| :: AttributeFingerprint(doc, keys[i]) != fingerprint
    ensures r.Some? ==> exists i | 0 <= i < |keys| ::
      && AttributeFingerprint(doc, keys[i]) == fingerprint
      && r.value == EmptyIfNull(doc.store.nodes[keys[i]].value)
      && forall j | 0 <= j < i :: AttributeFingerprint(doc, keys[j]) != fingerprint
  {
    if keys == [] then None
    else if AttributeFingerprint(doc, keys[0]) == fingerprint then Some(EmptyIfNull(doc.store.nodes[keys[0]].value))
    else
      var r := FirstAttributeValue(doc, keys[1..], fingerprint);
      assert r.Some? ==> exists i | 0 <= i < |keys| ::
        && AttributeFingerprint(doc, keys[i]) == fingerprint
        && r.value == EmptyIfNull(doc.store.nodes[keys[i]].value)
        && forall j | 0 <= j < i :: AttributeFingerprint(doc, keys[j]) != fingerprint
      by {
        if r.Some? {
          var i :| 0 <= i < |keys| - 1
            && AttributeFingerprint(doc, keys[1..][i]) == fingerprint
            && r.value == EmptyIfNull(doc.store.nodes[keys[1..][i]].value)
            && forall j | 0 <= j < i :: AttributeFingerprint(doc, keys[1..][j]) != fingerprint;
          assert forall j | 0 <= j < i + 1 :: AttributeFingerprint(doc, keys[j]) != fingerprint by {
            forall j | 0 <= j < i + 1 ensures AttributeFingerprint(doc, keys[j]) != fingerprint {
              if j > 0 { assert keys[j] == keys[1..][j - 1]; }
            }
          }
        }
      }
      assert r.None? ==> forall i | 0 <= i < |keys| :: AttributeFingerprint(doc, keys[i]) != fingerprint by {
        if r.None? {
          forall i | 0 <= i < |keys| ensures AttributeFingerprint(doc, keys[i]) != fingerprint {
            if i > 0 { assert keys[i] == keys[1..][i - 1]; }
          }
        }
      }
      r
  }

  /**
   * getAttributeValue: the string value of the first attribute of an element
   * with the given fingerprint; null when there is none or the node is not an
   * element (the attribute axis of a non-element is empty).
   */
  function AttributeValue(doc: Document, w: Wrapper, fingerprint: int32): (r: Option<string>)
    requires Wraps(doc, w)
    ensures !w.kind.Element? ==> r.None?
    ensures w.kind.Element? ==> forall a | a in doc.store.nodes[w.key].attributeKeys :: a in doc.store.nodes
    ensures w.kind.Element? ==> r == FirstAttributeValue(doc, doc.store.nodes[w.key].attributeKeys, fingerprint)
  {
    assert ConsistentAt(doc.store, w.key);
    if !w.kind.Element? then None
    else FirstAttributeValue(doc, doc.store.nodes[w.key].attributeKeys, fingerprint)
  }

  /**
   * The node's own xml:base attribute, if any: none on a non-element, and
   * otherwise the value of the first attribute with the xml:base fingerprint.
   */
  function XmlBase(doc: Document, k: int): (r: Option<string>)
    requires Valid(doc.store) && k in doc.store.nodes
    ensures !doc.store.nodes[k].kind.Element? ==> r.None?
    ensures doc.store.nodes[k].kind.Element? ==> forall a | a in doc.store.nodes[k].attributeKeys :: a in doc.store.nodes
    ensures doc.store.nodes[k].kind.Element? ==> r == FirstAttributeValue(doc, doc.store.nodes[k].attributeKeys, XML_BASE)
    ensures r.Some? ==> exists i | 0 <= i < |doc.store.nodes[k].attributeKeys| ::
      && doc.store.nodes[k].attributeKeys[i] in doc.store.nodes
      && AttributeFingerprint(doc, doc.store.nodes[k].attributeKeys[i]) == XML_BASE
      && r.value == EmptyIfNull(doc.store.nodes[doc.store.nodes[k].attributeKeys[i]].value)
  {
    assert ConsistentAt(doc.store, k);
    AttributeValue(doc, WrapperAt(doc, k), XML_BASE)
  }

  /** A node followed by its ancestors, nearest first. */
  function AncestorOrSelf(s: Store, k: int): (r: seq<int>)
    requires Linked(s) && k in s.nodes
    ensures r != [] && r[0] == k
  {
    [k] + Ancestors(s, k)
  }

  lemma {:induction false} UpFromInStore(s: Store, c: int)
    requires Linked(s) && (c == NULL_KEY || c in s.nodes)
    ensures forall x | x in UpFrom(s, c) :: x in s.nodes
    decreases if c in s.nodes then s.order[c] + 1 else 0
  {
    if c != NULL_KEY {
      assert LinkedAt(s, c);
      UpFromInStore(s, s.nodes[c].parent);
    }
  }

  lemma AncestorOrSelfInStore(s: Store, k: int)
    requires Linked(s) && k in s.nodes
    ensures forall x | x in AncestorOrSelf(s, k) :: x in s.nodes
  {
    assert LinkedAt(s, k);
    UpFromInStore(s, s.nodes[k].parent);
  }

  /** The first value present in a list of optional values. */
  function FirstSome(os: seq<Option<string>>): (r: Option<string>)
    ensures r.None? <==> forall i | 0 <= i < |os| :: os[i].None?
    ensures r.Some? ==> exists i | 0 <= i < |os| :: os[i] == r && forall j | 0 <= j < i :: os[j].None?
  {
    if os == [] then None
    else if os[0].Some? then os[0]
    else
      var r := FirstSome(os[1..]);
      assert r.Some? ==> exists i | 0 <= i < |os| :: os[i] == r && forall j | 0 <= j < i :: os[j].None? by {
        if r.Some? {
          var i :| 0 <= i < |os| - 1 && os[1..][i] == r && forall j | 0 <= j < i :: os[1..][j].None?;
          assert os[i + 1] == r;
          forall j | 0 <= j < i + 1 ensures os[j].None? {
            if j > 0 { assert os[j] == os[1..][j - 1]; }
          }
        }
      }
      assert r.None? ==> forall i | 0 <= i < |os| :: os[i].None? by {
        if r.None? {
          forall i | 0 <= i < |os| ensures os[i].None? {
            if i > 0 { assert os[i] == os[1..][i - 1]; }
          }
        }
      }
      r
  }

  /** The xml:base attribute of each node along a chain. */
  function XmlBases(doc: Document, chain: seq<int>): (r: seq<Option<string>>)
    requires Valid(doc.store) && forall x | x in chain :: x in doc.store.nodes
    ensures |r| == |chain| && forall i | 0 <= i < |chain| :: r[i] == XmlBase(doc, chain[i])
  {
    seq(|chain|, i requires 0 <= i < |chain| => XmlBase(doc, chain[i]))
  }

  /** getBaseURI, as a function of the store: some xml:base on the chain, or the document's. */
  function BaseURI(doc: Document, w: Wrapper): (r: string)
    requires Wraps(doc, w)
    ensures r == doc.baseURI || exists i | 0 <= i < |AncestorOrSelf(doc.store, w.key)| ::
      AncestorOrSelf(doc.store, w.key)[i] in doc.store.nodes && XmlBase(doc, AncestorOrSelf(doc.store, w.key)[i]) == Some(r)
  {
    AncestorOrSelfInStore(doc.store, w.key);
    match FirstSome(XmlBases(doc, AncestorOrSelf(doc.store, w.key)))
    case Some(v) => v
    case None => doc.baseURI
  }

  /**
   * The nearest node on the ancestor-or-self chain that carries xml:base
   * decides the base URI; when no node on the chain carries one, the
   * document's base URI is used.
   */
  lemma BaseURIFirstMatch(doc: Document, w: Wrapper, i: nat)
    requires Wraps(doc, w)
    requires i < |AncestorOrSelf(doc.store, w.key)|
    requires forall x | x in AncestorOrSelf(doc.store, w.key) :: x in doc.store.nodes
    requires XmlBase(doc, AncestorOrSelf(doc.store, w.key)[i]).Some?
    requires forall j | 0 <= j < i :: XmlBase(doc, AncestorOrSelf(doc.store, w.key)[j]).None?
    ensures BaseURI(doc, w) == XmlBase(doc, AncestorOrSelf(doc.store, w.key)[i]).value
  {
    var chain := AncestorOrSelf(doc.store, w.key);
    var bases := XmlBases(doc, chain);
    var r := FirstSome(bases);
    assert bases[i].Some?;
    var m :| 0 <= m < |bases| && bases[m] == r && forall j | 0 <= j < m :: bases[j].None?;
    assert m == i;
  }

  lemma BaseURIFallback(doc: Document, w: Wrapper)
    requires Wraps(doc, w)
    requires forall x | x in AncestorOrSelf(doc.store, w.key) :: x in doc.store.nodes
    requires forall i | 0 <= i < |AncestorOrSelf(doc.store, w.key)| ::
      XmlBase(doc, AncestorOrSelf(doc.store, w.key)[i]).None?
    ensures BaseURI(doc, w) == doc.baseURI
  {
  }

  /** getBaseURI: look for xml:base on the node, then on each ancestor in turn. */
  method GetBaseURI(doc: Document, w: Wrapper) returns (uri: string)
    requires Wraps(doc, w)
    ensures uri == BaseURI(doc, w)
  {
    var s := doc.store;
    AncestorOrSelfInStore(s, w.key);
    ghost var target := FirstSome(XmlBases(doc, AncestorOrSelf(s, w.key)));
    var node: Option<Wrapper> := Some(w);
    var baseURI: Option<string> := None;
    while node.Some?
      invariant node.Some? ==> Wraps(doc, node.value)
      invariant baseURI.None?
      invariant node.Some? ==> forall x | x in AncestorOrSelf(s, node.value.key) :: x in s.nodes
      invariant target == if node.Some? then FirstSome(XmlBases(doc, AncestorOrSelf(s, node.value.key))) else None
      decreases if node.Some? then s.order[node.value.key] + 1 else 0
    {
      var n := node.value;
      assert LinkedAt(s, n.key) && ConsistentAt(s, n.key);
      assert n == WrapperAt(doc, n.key);
      baseURI := AttributeValue(doc, n, XML_BASE);
      if baseURI.None? {
        var chain := AncestorOrSelf(s, n.key);
        assert chain[1..] == Ancestors(s, n.key);
        assert XmlBases(doc, chain)[1..] == XmlBases(doc, chain[1..]);
        node := GetParent(doc, n);
        if node.Some? {
          var p := node.value.key;
          AncestorOrSelfInStore(s, p);
          assert LinkedAt(s, p);
          assert Ancestors(s, n.key) == AncestorOrSelf(s, p);
        } else {
          assert Ancestors(s, n.key) == [];
        }
      } else {
        assert XmlBases(doc, AncestorOrSelf(s, n.key))[0] == baseURI;
        assert target == baseURI;
        break;
      }
    }
    if baseURI.None? {
      uri := doc.baseURI;
    } else {
      uri := baseURI.value;
    }
  }

  // ---------------------------------------------------------------------------
  // Siblings, children, identity, order

  /** getSiblingPosition: count the left siblings by walking left. */
  method GetSiblingPosition(doc: Document, w: Wrapper) returns (index: nat)
    requires Wraps(doc, w)
    ensures index == |LeftSiblings(doc.store, w.key)|
  {
    var s := doc.store;
    var cur := w.key;
    index := 0;
    assert LinkedAt(s, cur);
    while s.nodes[cur].leftSibling != NULL_KEY
      invariant cur in s.nodes
      invariant index + |LeftSiblings(s, cur)| == |LeftSiblings(s, w.key)|
      decreases s.order[cur]
    {
      assert LinkedAt(s, cur);
      cur := s.nodes[cur].leftSibling;
      index := index + 1;
    }
  }

  /**
   * The sibling position is 0 exactly for a first child, and in general it is
   * the node's index in its parent's child list.
   */
  lemma SiblingPositionIsChildIndex(doc: Document, w: Wrapper)
    requires Wraps(doc, w) && IsStructural(w.kind)
    ensures doc.store.nodes[w.key].parent in doc.store.nodes
    ensures |LeftSiblings(doc.store, w.key)| < |Children(doc.store, doc.store.nodes[w.key].parent)|
    ensures |LeftSiblings(doc.store, w.key)| == 0 <==>
      doc.store.nodes[doc.store.nodes[w.key].parent].firstChild == w.key
    ensures Children(doc.store, doc.store.nodes[w.key].parent)[|LeftSiblings(doc.store, w.key)|] == w.key
  {
    var s := doc.store;
    LeftSiblingCountIsChildIndex(s, w.key);
    assert LinkedAt(s, w.key) && ConsistentAt(s, w.key);
    var p := s.nodes[w.key].parent;
    assert LinkedAt(s, p);
    if s.nodes[p].firstChild == w.key {
      assert s.nodes[w.key].leftSibling == NULL_KEY by {
        assert ConsistentAt(s, p);
      }
    }
  }

  /** hasChildNodes: the stored child count is positive. */
  function HasChildNodes(doc: Document, w: Wrapper): (r: bool)
    requires Wraps(doc, w)
    ensures r <==> Children(doc.store, w.key) != []
    ensures r <==> doc.store.nodes[w.key].firstChild != NULL_KEY
  {
    assert ConsistentAt(doc.store, w.key);
    ChildCountAndFirstChild(doc.store, w.key);
    doc.store.nodes[w.key].childCount > 0
  }

  /** What isSameNodeInfo may be handed: null, a wrapper, or another NodeInfo (the document wrapper). */
  datatype NodeInfo = NullNode | WrapperNode(w: Wrapper) | OtherNode

  /** isSameNodeInfo: false for null, key equality for a wrapper; any other NodeInfo fails the cast. */
  function IsSameNodeInfo(w: Wrapper, other: NodeInfo): (r: Result<bool, Error>)
    ensures r.Err? <==> other.OtherNode?
    ensures r.Err? ==> r.error == ClassCast
    ensures r == Ok(true) <==> other.WrapperNode? && other.w.key == w.key
  {
    match other
    case NullNode => Ok(false)
    case WrapperNode(o) => Ok(o.key == w.key)
    case OtherNode => Err(ClassCast)
  }

  /**
   * Within one document, "same node" is equality of wrappers: it is reflexive,
   * symmetric and transitive, and same-node wrappers agree on kind, name and
   * revision.
   */
  lemma SameNodeIsIdentity(doc: Document, a: Wrapper, b: Wrapper, c: Wrapper)
    requires Wraps(doc, a) && Wraps(doc, b) && Wraps(doc, c)
    ensures IsSameNodeInfo(a, WrapperNode(a)) == Ok(true)
    ensures IsSameNodeInfo(a, WrapperNode(b)) == IsSameNodeInfo(b, WrapperNode(a))
    ensures IsSameNodeInfo(a, WrapperNode(b)) == Ok(true) && IsSameNodeInfo(b, WrapperNode(c)) == Ok(true) ==>
      IsSameNodeInfo(a, WrapperNode(c)) == Ok(true)
    ensures IsSameNodeInfo(a, WrapperNode(b)) == Ok(true) <==> a == b
  {
    if a.key == b.key {
      WrapsUnique(doc, a, b);
    }
  }

  /**
   * compareOrder: only its precondition is modelled. Nodes of different
   * documents are refused; otherwise the result is Saxon's own comparison,
   * passed in as `navigatorOrder`.
   */
  function CompareOrder(doc: Document, other: Document, navigatorOrder: int): (r: Result<int, Error>)
    ensures r.Err? <==> doc.documentNumber != other.documentNumber
    ensures r.Err? ==> r.error == IllegalState
    ensures r.Ok? ==> r.value == navigatorOrder
  {
    if doc.documentNumber != other.documentNumber then Err(IllegalState) else Ok(navigatorOrder)
  }
}
