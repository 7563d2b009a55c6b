/** The tree the parser builds: strings are ranges of the shared buffer that nobody has read yet (StrPair). */
module LazyDom {
  import opened XmlChars
  import opened StringDecoding
  import opened XmlParsing
  import opened Dom
  import Layout

  /** `line` is `_parseLineNum`. */
  datatype LazyAttribute = LazyAttribute(name: StrPair, value: StrPair, line: nat)

  datatype LazyNode =
    | LazyElement(name: StrPair, attributes: seq<LazyAttribute>, children: seq<LazyNode>, line: nat)
    | LazyLeaf(kind: LeafKind, value: StrPair, line: nat)

  // ---------------------------------------------------------------------------------------------
  // The ranges of a tree, in document order
  // ---------------------------------------------------------------------------------------------

  function AttributeSpans(attributes: seq<LazyAttribute>): seq<StrPair> {
    if attributes == [] then [] else [attributes[0].name, attributes[0].value] + AttributeSpans(attributes[1..])
  }

  function Spans(n: LazyNode): (ss: seq<StrPair>)
    ensures ss != []
    decreases n
  {
    match n
    case LazyLeaf(_, value, _) => [value]
    case LazyElement(name, attributes, children, _) => [name] + AttributeSpans(attributes) + SpansAll(children)
  }

  function SpansAll(ns: seq<LazyNode>): seq<StrPair>
    decreases ns
  {
    if ns == [] then [] else Spans(ns[0]) + SpansAll(ns[1..])
  }

  lemma {:induction false} AttributeSpansAppend(attributes: seq<LazyAttribute>, a: LazyAttribute)
    ensures AttributeSpans(attributes + [a]) == AttributeSpans(attributes) + [a.name, a.value]
  {
    if attributes != [] {
      AttributeSpansAppend(attributes[1..], a);
      assert (attributes + [a])[1..] == attributes[1..] + [a];
    } else {
      assert [a][1..] == [];
    }
  }

  lemma {:induction false} SpansAppend(ns: seq<LazyNode>, n: LazyNode)
    ensures SpansAll(ns + [n]) == SpansAll(ns) + Spans(n)
    decreases ns
  {
    hide Spans;
    if ns != [] {
      SpansAppend(ns[1..], n);
      assert (ns + [n])[1..] == ns[1..] + [n];
    } else {
      assert [n][1..] == [];
    }
  }

  /** The closed ranges lie in [lo, hi) one behind the other, and never share a byte. */
  ghost predicate Ordered(ss: seq<StrPair>, lo: nat, hi: nat) {
    && (forall i :: 0 <= i < |ss| ==> lo <= ss[i].start <= ss[i].end < hi)
    && (forall i, j :: 0 <= i < j < |ss| ==> ss[i].end < ss[j].start)
  }

  lemma OrderedConcat(a: seq<StrPair>, b: seq<StrPair>, lo: nat, mid: nat, hi: nat)
    requires Ordered(a, lo, mid) && Ordered(b, mid, hi) && lo <= mid <= hi
    ensures Ordered(a + b, lo, hi)
  {
  }

  // ---------------------------------------------------------------------------------------------
  // What the ranges mean
  // ---------------------------------------------------------------------------------------------

  /** The buffer still holds the original bytes of the range; a range that was read already is a plain name
      with a NUL behind it. */
  ghost predicate Intact(buffer: seq<char>, text: string, p: StrPair) {
    && p.start <= p.end < |buffer| && p.end <= |text|
    && (forall i :: p.start <= i < p.end ==> buffer[i] == text[i] && text[i] != NUL)
    && (!p.needsFlush ==> p.mode == PLAIN && buffer[p.end] == NUL)
  }

  ghost predicate AllIntact(buffer: seq<char>, text: string, ss: seq<StrPair>) {
    forall i :: 0 <= i < |ss| ==> Intact(buffer, text, ss[i])
  }

  /** The string a reader gets for a range of the original text. */
  function EagerString(text: string, p: StrPair): string {
    if p.start <= p.end <= |text| then Eager(p.mode, text[p.start..p.end]) else ""
  }

  function EagerAttributes(text: string, attributes: seq<LazyAttribute>): (r: seq<Attribute>)
    ensures |r| == |attributes|
    ensures forall i :: 0 <= i < |r| ==>
              r[i] == Attribute(EagerString(text, attributes[i].name), EagerString(text, attributes[i].value))
  {
    if attributes == [] then []
    else [Attribute(EagerString(text, attributes[0].name), EagerString(text, attributes[0].value))]
         + EagerAttributes(text, attributes[1..])
  }

  function EagerNode(text: string, n: LazyNode): Node
    decreases n
  {
    match n
    case LazyLeaf(kind, value, _) => Leaf(kind, EagerString(text, value))
    case LazyElement(name, attributes, children, _) =>
      Element(EagerString(text, name), EagerAttributes(text, attributes), EagerNodes(text, children))
  }

  function EagerNodes(text: string, ns: seq<LazyNode>): (r: seq<Node>)
    ensures |r| == |ns|
    decreases ns
  {
    if ns == [] then [] else [EagerNode(text, ns[0])] + EagerNodes(text, ns[1..])
  }

  lemma {:induction false} EagerAppend(text: string, ns: seq<LazyNode>, n: LazyNode)
    ensures EagerNodes(text, ns + [n]) == EagerNodes(text, ns) + [EagerNode(text, n)]
    decreases ns
  {
    hide EagerNode;
    if ns != [] {
      EagerAppend(text, ns[1..], n);
      assert (ns + [n])[1..] == ns[1..] + [n];
    } else {
      assert [n][1..] == [];
    }
  }

  lemma EagerAttributesAppend(text: string, attributes: seq<LazyAttribute>, a: LazyAttribute)
    ensures EagerAttributes(text, attributes + [a])
            == EagerAttributes(text, attributes) + [Attribute(EagerString(text, a.name), EagerString(text, a.value))]
  {
  }

  // ---------------------------------------------------------------------------------------------
  // Line numbers
  // ---------------------------------------------------------------------------------------------

  /** One more than the line feeds in front of position `p`. */
  function LineAt(text: string, p: nat): nat
    requires p <= |text|
  {
    1 + CountLf(text[..p])
  }

  lemma LineAdvances(text: string, p: nat, q: nat)
    requires p <= q <= |text|
    ensures LineAt(text, q) == LineAt(text, p) + CountLf(text[p..q])
  {
    assert text[..q] == text[..p] + text[p..q];
    CountLfConcat(text[..p], text[p..q]);
  }

  /** What may stand between `<` and a name: white space, and the slash of `</a/>`. */
  predicate NamePrefix(s: string) {
    AllWhite(s) || (AllWhite(s[..|s| - 1]) && s[|s| - 1] == '/')
  }

  /** `q` is the first byte of the node that is not white space. */
  ghost predicate StartsAt(text: string, n: LazyNode, q: nat) {
    q < |text| &&
    match n
    case LazyElement(name, _, _, _) =>
      text[q] == '<' && q < name.start <= |text| && NamePrefix(text[q + 1..name.start])
    case LazyLeaf(kind, value, _) =>
      if kind.Text? then
        value.start <= q < value.end && AllWhite(text[value.start..q]) && !IsWhiteSpace(text[q])
      else q < value.start <= |text| && text[q..value.start] == Layout.HeaderOf(kind)
  }

  /** The line an attribute reports is the line of its name. */
  ghost predicate AttributeLines(text: string, attributes: seq<LazyAttribute>) {
    forall i :: 0 <= i < |attributes| ==>
      attributes[i].name.start <= |text| && attributes[i].line == LineAt(text, attributes[i].name.start)
  }

  /** The line a node reports is the line of its first byte that is not white space. */
  ghost predicate LineOk(text: string, n: LazyNode)
    decreases n
  {
    && (exists q :: StartsAt(text, n, q) && n.line == LineAt(text, q))
    && (n.LazyElement? ==> AttributeLines(text, n.attributes) && LinesOk(text, n.children))
  }

  ghost predicate LinesOk(text: string, ns: seq<LazyNode>)
    decreases ns
  {
    forall i :: 0 <= i < |ns| ==> LineOk(text, ns[i])
  }
}
