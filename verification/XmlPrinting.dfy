/** The printer as a function of its state, and the trees its two modes lay out (XMLPrinter). */
module XmlPrinting {
  import opened XmlChars
  import opened StringEscaping
  import opened XmlParsing
  import opened Dom
  import opened Layout

  /** The fields of XMLPrinter that change, with the memory buffer as a string without its NUL. */
  datatype PrintState = PrintState(
    out: string, stack: seq<string>, depth: nat, textDepth: int, elementJustOpened: bool, firstElement: bool)

  datatype Settings = Settings(compact: bool, processEntities: bool)

  const INITIAL := PrintState("", [], 0, -1, false, true)

  function Spaces(depth: nat): (s: string)
    ensures AllWhite(s) && |s| == 4 * depth
  {
    seq(4 * depth, _ => ' ')
  }

  // ---------------------------------------------------------------------------------------------
  // The streaming interface
  // ---------------------------------------------------------------------------------------------

  function Put(st: PrintState, s: string): PrintState {
    st.(out := st.out + s)
  }

  function Seal(st: PrintState): PrintState {
    if st.elementJustOpened then Put(st.(elementJustOpened := false), ">") else st
  }

  /** A new line starts unless text is open or nothing was printed yet. */
  predicate BreaksLine(st: PrintState, compact: bool) {
    st.textDepth < 0 && !st.firstElement && !compact
  }

  function OpenElement(st: PrintState, name: string, compact: bool): PrintState {
    var sealed := Seal(st);
    var gap := (if BreaksLine(sealed, compact) then "\n" else "") + (if compact then "" else Spaces(st.depth));
    Put(Put(sealed, gap), "<" + name)
      .(stack := st.stack + [name], depth := st.depth + 1, elementJustOpened := true, firstElement := false)
  }

  function PushAttribute(settings: Settings, st: PrintState, a: Attribute): PrintState {
    Put(st, " " + (a.name + ("=\"" + (Escape(settings.processEntities, false, a.value) + "\""))))
  }

  function PushAttributes(settings: Settings, st: PrintState, attributes: seq<Attribute>): PrintState
    decreases attributes
  {
    if attributes == [] then st
    else PushAttributes(settings, PushAttribute(settings, st, attributes[0]), attributes[1..])
  }

  function CloseElement(st: PrintState, compact: bool): PrintState
    requires st.depth > 0 && st.stack != []
  {
    var depth, name := st.depth - 1, st.stack[|st.stack| - 1];
    var end :=
      if st.elementJustOpened then "/>"
      else (if st.textDepth < 0 && !compact then "\n" + Spaces(depth) else "") + ("</" + (name + ">"));
    Put(Put(st, end), if depth == 0 && !compact then "\n" else "")
      .(stack := st.stack[..|st.stack| - 1], depth := depth,
        textDepth := if st.textDepth == depth then -1 else st.textDepth, elementJustOpened := false)
  }

  /** PushText, PushComment, PushDeclaration and PushUnknown; only text remembers its depth. */
  function PushLeaf(settings: Settings, st: PrintState, kind: LeafKind, value: string): PrintState {
    if kind.Text? || kind.CData? then
      Put(Seal(st.(textDepth := st.depth - 1)),
          HeaderOf(kind) + (LeafBody(settings.processEntities, kind, value) + FooterOf(kind)))
    else
      var sealed := Seal(st);
      var gap := if BreaksLine(sealed, settings.compact) then "\n" + Spaces(st.depth) else "";
      Put(Put(sealed, gap).(firstElement := false), HeaderOf(kind) + (value + FooterOf(kind)))
  }

  // ---------------------------------------------------------------------------------------------
  // The traversal (Accept with the printer as visitor)
  // ---------------------------------------------------------------------------------------------

  function PrintNode(settings: Settings, st: PrintState, n: Node): (r: PrintState)
    ensures r.depth == st.depth && r.stack == st.stack
    decreases n
  {
    match n
    case Leaf(kind, value) => PushLeaf(settings, st, kind, value)
    case Element(name, attributes, children) =>
      var started := PushAttributes(settings, OpenElement(st, name, settings.compact), attributes);
      AttributesKeepStack(settings, OpenElement(st, name, settings.compact), attributes);
      CloseElement(PrintNodes(settings, started, children), settings.compact)
  }

  function PrintNodes(settings: Settings, st: PrintState, ns: seq<Node>): (r: PrintState)
    ensures r.depth == st.depth && r.stack == st.stack
    decreases ns
  {
    if ns == [] then st else PrintNodes(settings, PrintNode(settings, st, ns[0]), ns[1..])
  }

  lemma {:induction false} AttributesKeepStack(settings: Settings, st: PrintState, attributes: seq<Attribute>)
    ensures var r := PushAttributes(settings, st, attributes);
            r == st.(out := r.out)
    decreases attributes
  {
    if attributes != [] {
      AttributesKeepStack(settings, PushAttribute(settings, st, attributes[0]), attributes[1..]);
    }
  }

  /** XMLDocument::Print into a fresh printer. */
  function PrintDocument(settings: Settings, bom: bool, children: seq<Node>): string {
    PrintNodes(settings, Put(INITIAL, if bom then BOM else ""), children).out
  }

  // ---------------------------------------------------------------------------------------------
  // What the modes do to a tree
  // ---------------------------------------------------------------------------------------------

  /** Pretty-printing indents an element even where it follows plain text, and the spaces join the text. */
  function Pad(compact: bool, depth: nat, n: Node): Node
    decreases n
  {
    match n
    case Leaf(_, _) => n
    case Element(name, attributes, children) => Element(name, attributes, PadAll(compact, depth + 1, children))
  }

  function PadAll(compact: bool, depth: nat, ns: seq<Node>): (r: seq<Node>)
    ensures |r| == |ns|
    decreases ns
  {
    if ns == [] then []
    else
      var padded := if !compact && TextBeforeElement(ns, 0) then Leaf(Text, ns[0].value + Spaces(depth))
          else Pad(compact, depth, ns[0]);
      [padded] + PadAll(compact, depth, ns[1..])
  }

  predicate TextBeforeElement(ns: seq<Node>, i: nat) {
    i + 1 < |ns| && IsPlainText(ns[i]) && ns[i + 1].Element?
  }

  /** Somewhere a plain text is immediately followed by an element. */
  predicate HasTextBeforeElement(ns: seq<Node>)
    decreases ns
  {
    ns != [] &&
    (TextBeforeElement(ns, 0) || (ns[0].Element? && HasTextBeforeElement(ns[0].children))
     || HasTextBeforeElement(ns[1..]))
  }

  /** Padding changes a tree exactly when pretty-printing meets text in front of an element below the top level. */
  lemma {:induction false} PadChangesOnly(compact: bool, depth: nat, ns: seq<Node>)
    requires depth > 0 || forall n :: n in ns ==> !IsPlainText(n)
    ensures PadAll(compact, depth, ns) == ns <==> compact || !HasTextBeforeElement(ns)
    decreases ns
  {
    if ns != [] {
      var r, first := PadAll(compact, depth, ns), ns[0];
      PadChangesOnly(compact, depth, ns[1..]);
      assert r[1..] == PadAll(compact, depth, ns[1..]);
      assert r == [r[0]] + r[1..] && ns == [ns[0]] + ns[1..];
      if first.Element? {
        PadChangesOnly(compact, depth + 1, first.children);
      }
      if TextBeforeElement(ns, 0) {
        assert ns[0] in ns;
        assert |first.value + Spaces(depth)| > |first.value|;
      }
    }
  }
}
