/** Printed trees: a tree together with the white space a printer puts between its nodes. */
module Layout {
  import opened XmlChars
  import opened StringEscaping
  import opened XmlParsing
  import opened Dom

  /** `gap` stands in front of the node, `closeGap` in front of the end tag. */
  datatype Laid =
    | LaidElement(gap: string, name: string, attributes: seq<Attribute>, children: seq<Laid>, closeGap: string)
    | LaidLeaf(gap: string, kind: LeafKind, value: string)

  /** The tree without its white space. */
  function Plain(l: Laid): Node
    decreases l
  {
    match l
    case LaidElement(_, name, attributes, children, _) => Element(name, attributes, PlainAll(children))
    case LaidLeaf(_, kind, value) => Leaf(kind, value)
  }

  function PlainAll(ls: seq<Laid>): (ns: seq<Node>)
    ensures |ns| == |ls|
    ensures forall i :: 0 <= i < |ls| ==> ns[i] == Plain(ls[i])
    decreases ls
  {
    if ls == [] then [] else [Plain(ls[0])] + PlainAll(ls[1..])
  }

  // ---------------------------------------------------------------------------------------------
  // The text of a printed tree
  // ---------------------------------------------------------------------------------------------

  function HeaderOf(kind: LeafKind): string {
    match kind
    case Text => ""
    case CData => "<![CDATA["
    case Comment => "<!--"
    case Declaration => "<?"
    case Unknown => "<!"
  }

  function FooterOf(kind: LeafKind): string {
    if kind.Text? then "" else EndOf(kind)
  }

  function LeafBody(process: bool, kind: LeafKind, value: string): string {
    if kind.Text? then Escape(process, true, value) else value
  }

  /** The attributes of a start tag, followed by `tail`. */
  function AttributesOnto(process: bool, attributes: seq<Attribute>, tail: string): string {
    if attributes == [] then tail
    else
      " " + (attributes[0].name + ("=\"" + (Escape(process, false, attributes[0].value)
      + ("\"" + AttributesOnto(process, attributes[1..], tail)))))
  }

  function EndTagOnto(closeGap: string, name: string, tail: string): string {
    closeGap + ("</" + (name + (">" + tail)))
  }

  /** The text of a node, followed by `tail`. */
  function Onto(process: bool, l: Laid, tail: string): string
    decreases l
  {
    match l
    case LaidLeaf(gap, kind, value) =>
      gap + (HeaderOf(kind) + (LeafBody(process, kind, value) + (FooterOf(kind) + tail)))
    case LaidElement(gap, name, attributes, children, closeGap) =>
      gap + ("<" + (name + AttributesOnto(process, attributes,
        if children == [] then "/>" + tail
        else ">" + AllOnto(process, children, EndTagOnto(closeGap, name, tail)))))
  }

  function AllOnto(process: bool, ls: seq<Laid>, tail: string): string
    decreases ls
  {
    if ls == [] then tail else Onto(process, ls[0], AllOnto(process, ls[1..], tail))
  }

  // ---------------------------------------------------------------------------------------------
  // Which trees can be printed and read back
  // ---------------------------------------------------------------------------------------------

  predicate LegalName(name: string) {
    name != "" && IsNameStartChar(name[0]) && forall i :: 0 <= i < |name| ==> IsNameChar(name[i])
  }

  /** Bytes that reading keeps as they are. */
  predicate Faithful(value: string) {
    CR !in value && NulFree(value)
  }

  predicate PrintableAttribute(process: bool, a: Attribute) {
    LegalName(a.name) && Faithful(a.value) && (!process ==> '\"' !in a.value)
  }

  /** Nothing in the value reads as the end of the node, and the node reads as one of its kind. */
  predicate PrintableLeaf(process: bool, kind: LeafKind, value: string) {
    Faithful(value) &&
    match kind
    case Text => !AllWhite(value) && (!process ==> '<' !in value)
    case Unknown => FindTag(value, EndOf(kind)).None? && !StartsWith(value, "--") && !StartsWith(value, "[CDATA[")
    case _ => FindTag(value, EndOf(kind)).None?
  }

  predicate PrintableNode(process: bool, n: Node)
    decreases n
  {
    match n
    case Leaf(kind, value) => PrintableLeaf(process, kind, value)
    case Element(name, attributes, children) =>
      && LegalName(name)
      && UniqueNames(attributes)
      && (forall a :: a in attributes ==> PrintableAttribute(process, a))
      && (forall c :: c in children ==> PrintableNode(process, c) && !IsDeclaration(c))
      && TextApart(children)
  }

  /** No plain text next to plain text: the two would be read as one. */
  predicate TextApart(nodes: seq<Node>) {
    forall i :: 0 < i < |nodes| ==> !(IsPlainText(nodes[i - 1]) && IsPlainText(nodes[i]))
  }

  predicate DeclarationsFirst(nodes: seq<Node>) {
    forall i, j :: 0 <= i < j < |nodes| && IsDeclaration(nodes[j]) ==> IsDeclaration(nodes[i])
  }

  predicate Printable(process: bool, nodes: seq<Node>) {
    && nodes != []
    && (forall n :: n in nodes ==> PrintableNode(process, n) && Nesting(n) <= MAX_ELEMENT_DEPTH - 2)
    && TextApart(nodes) && DeclarationsFirst(nodes)
  }

  /** How many elements with children are nested in each other. */
  function Nesting(n: Node): nat
    decreases n
  {
    if n.Element? && n.children != [] then 1 + NestingAll(n.children) else 0
  }

  function NestingAll(ns: seq<Node>): (d: nat)
    ensures forall n :: n in ns ==> Nesting(n) <= d
    decreases ns
  {
    if ns == [] then 0
    else
      var a, b := Nesting(ns[0]), NestingAll(ns[1..]);
      assert forall n :: n in ns ==> n == ns[0] || n in ns[1..];
      if a < b then b else a
  }

  // ---------------------------------------------------------------------------------------------
  // What comes back from reading
  // ---------------------------------------------------------------------------------------------

  // A sendable tree is one whose text is read as nodes of the same kind and name: like a printable one, but
  // its values may hold a CR and its texts may be white.

  predicate SendableAttribute(process: bool, a: Attribute) {
    LegalName(a.name) && NulFree(a.value) && (!process ==> '\"' !in a.value)
  }

  predicate SendableLeaf(process: bool, kind: LeafKind, value: string) {
    NulFree(value) &&
    match kind
    case Text => !process ==> '<' !in value
    case Unknown => FindTag(value, EndOf(kind)).None? && !StartsWith(value, "--") && !StartsWith(value, "[CDATA[")
    case _ => FindTag(value, EndOf(kind)).None?
  }

  predicate SendableNode(process: bool, n: Node)
    decreases n
  {
    match n
    case Leaf(kind, value) => SendableLeaf(process, kind, value)
    case Element(name, attributes, children) =>
      && LegalName(name)
      && UniqueNames(attributes)
      && (forall a :: a in attributes ==> SendableAttribute(process, a))
      && (forall c :: c in children ==> SendableNode(process, c) && !IsDeclaration(c))
      && TextApart(children)
  }

  predicate Sendable(process: bool, nodes: seq<Node>) {
    && nodes != []
    && (forall n :: n in nodes ==> SendableNode(process, n) && Nesting(n) <= MAX_ELEMENT_DEPTH - 2)
    && TextApart(nodes) && DeclarationsFirst(nodes)
  }

  predicate IsBlank(n: Node) {
    IsPlainText(n) && AllWhite(n.value)
  }

  function RereadAttributes(attributes: seq<Attribute>): (r: seq<Attribute>)
    ensures |r| == |attributes|
    ensures forall i :: 0 <= i < |r| ==> r[i] == Attribute(attributes[i].name, Normalize(attributes[i].value))
  {
    if attributes == [] then []
    else [Attribute(attributes[0].name, Normalize(attributes[0].value))] + RereadAttributes(attributes[1..])
  }

  /** The node as it is read back: line ends are normalized, and texts that are white are dropped. */
  function Reread(n: Node): (r: Node)
    ensures r.Leaf? == n.Leaf? && IsDeclaration(r) == IsDeclaration(n) && IsPlainText(r) == IsPlainText(n)
    decreases n
  {
    match n
    case Leaf(kind, value) => Leaf(kind, Normalize(value))
    case Element(name, attributes, children) => Element(name, RereadAttributes(attributes), RereadAll(children))
  }

  function RereadAll(ns: seq<Node>): seq<Node>
    decreases ns
  {
    if ns == [] then []
    else (if IsBlank(ns[0]) then [] else [Reread(ns[0])]) + RereadAll(ns[1..])
  }

  // ---------------------------------------------------------------------------------------------
  // Where white space may go
  // ---------------------------------------------------------------------------------------------

  predicate IsText(l: Laid) {
    l.LaidLeaf? && l.kind.Text?
  }

  /** Gaps are white, and none touches plain text. */
  predicate WellSpaced(l: Laid)
    decreases l
  {
    && AllWhite(l.gap)
    && (IsText(l) ==> l.gap == "")
    && (l.LaidElement? ==>
          && AllWhite(l.closeGap)
          && WellSpacedAll(l.children)
          && (l.children != [] && IsText(l.children[|l.children| - 1]) ==> l.closeGap == ""))
  }

  predicate WellSpacedAll(ls: seq<Laid>)
    decreases ls
  {
    && (forall l :: l in ls ==> WellSpaced(l))
    && (forall i :: 0 < i < |ls| && IsText(ls[i - 1]) ==> ls[i].gap == "")
  }
}
