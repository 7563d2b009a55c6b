/** The printer's output is the text of a laid-out tree: compact mode adds no white space, pretty-printing adds
    line breaks and indentation, and the tree laid out is the padded one. */
module PrintedLayout {
  import opened XmlChars
  import opened StringEscaping
  import opened XmlParsing
  import opened Dom
  import opened Layout
  import opened XmlPrinting

  // ---------------------------------------------------------------------------------------------
  // The layout a printer state produces
  // ---------------------------------------------------------------------------------------------

  /** White space written in front of a node. */
  function Gap(settings: Settings, st: PrintState, n: Node): (g: string)
    ensures AllWhite(g)
  {
    if n.Element? then
      (if BreaksLine(st, settings.compact) then "\n" else "") + (if settings.compact then "" else Spaces(st.depth))
    else if n.kind.Text? || n.kind.CData? then ""
    else if BreaksLine(st, settings.compact) then "\n" + Spaces(st.depth)
    else ""
  }

  /** White space written in front of an end tag, in the state after the children. */
  function CloseGap(settings: Settings, st: PrintState): (g: string)
    ensures AllWhite(g)
  {
    if st.depth > 0 && st.textDepth < 0 && !settings.compact then "\n" + Spaces(st.depth - 1) else ""
  }

  /** The newline after a top-level element. */
  function Trail(settings: Settings, st: PrintState, n: Node): (g: string)
    ensures AllWhite(g)
  {
    if n.Element? && st.depth == 0 && !settings.compact then "\n" else ""
  }

  function Started(settings: Settings, st: PrintState, n: Node): PrintState
    requires n.Element?
  {
    PushAttributes(settings, OpenElement(st, n.name, settings.compact), n.attributes)
  }

  /** `lead` is white space already written in front of the node; text takes it in. */
  function Lay(settings: Settings, st: PrintState, lead: string, n: Node): (l: Laid)
    ensures IsText(l) == IsPlainText(n) && l.gap == if IsText(l) then "" else lead + Gap(settings, st, n)
    decreases n
  {
    match n
    case Leaf(kind, value) =>
      if kind.Text? then LaidLeaf("", Text, lead + value) else LaidLeaf(lead + Gap(settings, st, n), kind, value)
    case Element(name, attributes, children) =>
      var inner := Started(settings, st, n);
      LaidElement(lead + Gap(settings, st, n), name, attributes, LayAll(settings, inner, "", children),
                  if children == [] then "" else CloseGap(settings, PrintNodes(settings, inner, children)))
  }

  /** `lead` is white space already written in front of the first node. */
  function LayAll(settings: Settings, st: PrintState, lead: string, ns: seq<Node>): (ls: seq<Laid>)
    ensures |ls| == |ns|
    decreases ns
  {
    if ns == [] then []
    else
      var l := Lay(settings, st, lead, ns[0]);
      var rest := LayAll(settings, PrintNode(settings, st, ns[0]), Trail(settings, st, ns[0]), ns[1..]);
      Join(l, rest)
  }

  /** White space behind plain text is part of the text. */
  function Join(l: Laid, rest: seq<Laid>): (ls: seq<Laid>)
    ensures |ls| == 1 + |rest|
  {
    if IsText(l) && rest != [] then
      [l.(value := l.value + rest[0].gap), rest[0].(gap := "")] + rest[1..]
    else [l] + rest
  }

  /** White space written after the last node. */
  function LeadAfter(settings: Settings, st: PrintState, lead: string, ns: seq<Node>): string
    decreases ns
  {
    if ns == [] then lead
    else LeadAfter(settings, PrintNode(settings, st, ns[0]), Trail(settings, st, ns[0]), ns[1..])
  }

  // ---------------------------------------------------------------------------------------------
  // Texts
  // ---------------------------------------------------------------------------------------------

  lemma Assoc(a: string, b: string, c: string)
    ensures a + b + c == a + (b + c)
  {
  }

  lemma {:induction false} AttributesOntoConcat(process: bool, attributes: seq<Attribute>, tail: string, more: string)
    ensures AttributesOnto(process, attributes, tail + more) == AttributesOnto(process, attributes, tail) + more
    decreases attributes
  {
    hide Escape;
    if attributes != [] {
      var a, next := attributes[0], AttributesOnto(process, attributes[1..], tail);
      AttributesOntoConcat(process, attributes[1..], tail, more);
      var e := Escape(process, false, a.value);
      FiveConcat(" ", a.name, "=\"", e, "\"", next, more);
    }
  }

  lemma FiveConcat(a: string, b: string, c: string, d: string, e: string, f: string, more: string)
    ensures a + (b + (c + (d + (e + (f + more))))) == (a + (b + (c + (d + (e + f))))) + more
  {
    Assoc(e, f, more);
    Assoc(d, e + f, more);
    Assoc(c, d + (e + f), more);
    Assoc(b, c + (d + (e + f)), more);
    Assoc(a, b + (c + (d + (e + f))), more);
  }

  lemma EndTagOntoConcat(closeGap: string, name: string, tail: string, more: string)
    ensures EndTagOnto(closeGap, name, tail + more) == EndTagOnto(closeGap, name, tail) + more
  {
    FiveConcat("", closeGap, "</", name, ">", tail, more);
    EmptyFront(closeGap + ("</" + (name + (">" + (tail + more)))));
    EmptyFront(closeGap + ("</" + (name + (">" + tail))));
  }

  lemma EmptyFront(s: string)
    ensures "" + s == s && s + "" == s
  {
  }

  lemma {:induction false} OntoConcat(process: bool, l: Laid, tail: string, more: string)
    ensures Onto(process, l, tail + more) == Onto(process, l, tail) + more
    decreases l
  {
    hide EndTagOnto, AttributesOnto, LeafBody, HeaderOf, FooterOf, AllOnto;
    match l
    case LaidLeaf(gap, kind, value) =>
      FiveConcat("", gap, HeaderOf(kind), LeafBody(process, kind, value), FooterOf(kind), tail, more);
      EmptyFront(gap + (HeaderOf(kind) + (LeafBody(process, kind, value) + (FooterOf(kind) + (tail + more)))));
      EmptyFront(gap + (HeaderOf(kind) + (LeafBody(process, kind, value) + (FooterOf(kind) + tail))));
    case LaidElement(gap, name, attributes, children, closeGap) =>
      var inside := if children == [] then "/>" + tail
          else ">" + AllOnto(process, children, EndTagOnto(closeGap, name, tail));
      if children == [] {
        Assoc("/>", tail, more);
      } else {
        EndTagOntoConcat(closeGap, name, tail, more);
        AllOntoConcat(process, children, EndTagOnto(closeGap, name, tail), more);
        Assoc(">", AllOnto(process, children, EndTagOnto(closeGap, name, tail)), more);
      }
      AttributesOntoConcat(process, attributes, inside, more);
      ElementConcat(gap, name, AttributesOnto(process, attributes, inside), more);
  }

  lemma ElementConcat(gap: string, name: string, rest: string, more: string)
    ensures gap + ("<" + (name + (rest + more))) == (gap + ("<" + (name + rest))) + more
  {
    Assoc(name, rest, more);
    Assoc("<", name + rest, more);
    Assoc(gap, "<" + (name + rest), more);
  }

  lemma {:induction false} AllOntoConcat(process: bool, ls: seq<Laid>, tail: string, more: string)
    ensures AllOnto(process, ls, tail + more) == AllOnto(process, ls, tail) + more
    decreases ls
  {
    hide Onto;
    if ls != [] {
      AllOntoConcat(process, ls[1..], tail, more);
      OntoConcat(process, ls[0], AllOnto(process, ls[1..], tail), more);
    }
  }

  /** White space in front of a node can be split off. */
  lemma GapInFront(process: bool, l: Laid, lead: string, gap: string, tail: string)
    requires l.gap == lead + gap
    ensures Onto(process, l, tail) == lead + Onto(process, l.(gap := gap), tail)
  {
    hide EndTagOnto, AttributesOnto, LeafBody, HeaderOf, FooterOf, AllOnto;
    var body := Onto(process, l.(gap := ""), tail);
    EmptyFront(body);
    GapOnly(process, l, tail);
    GapOnly(process, l.(gap := gap), tail);
    Assoc(lead, gap, body);
  }

  lemma GapOnly(process: bool, l: Laid, tail: string)
    ensures Onto(process, l, tail) == l.gap + Onto(process, l.(gap := ""), tail)
  {
    hide EndTagOnto, AttributesOnto, LeafBody, HeaderOf, FooterOf, AllOnto;
    match l
    case LaidLeaf(gap, kind, value) =>
      EmptyFront(HeaderOf(kind) + (LeafBody(process, kind, value) + (FooterOf(kind) + tail)));
    case LaidElement(gap, name, attributes, children, closeGap) =>
      EmptyFront("<" + (name + AttributesOnto(process, attributes,
        if children == [] then "/>" + tail else ">" + AllOnto(process, children, EndTagOnto(closeGap, name, tail)))));
  }

  /** Moving white space into the plain text in front of it does not change what is printed. */
  lemma JoinKeepsText(process: bool, l: Laid, rest: seq<Laid>, tail: string)
    requires rest != [] ==> AllWhite(rest[0].gap)
    ensures AllOnto(process, Join(l, rest), tail) == Onto(process, l, AllOnto(process, rest, tail))
  {
    hide Onto, AllOnto;
    var ls := Join(l, rest);
    FirstOnto(process, ls, tail);
    if IsText(l) && rest != [] {
      var gap, moved := rest[0].gap, rest[0].(gap := "");
      assert ls[1..] == [moved] + rest[1..];
      assert ls[1..][1..] == rest[1..];
      FirstOnto(process, ls[1..], tail);
      FirstOnto(process, rest, tail);
      GapOnly(process, rest[0], AllOnto(process, rest[1..], tail));
      TextTakesGap(process, l, gap, Onto(process, moved, AllOnto(process, rest[1..], tail)));
    } else {
      assert ls[1..] == rest;
    }
  }

  lemma FirstOnto(process: bool, ls: seq<Laid>, tail: string)
    requires ls != []
    ensures AllOnto(process, ls, tail) == Onto(process, ls[0], AllOnto(process, ls[1..], tail))
  {
    hide Onto;
  }

  lemma TextTakesGap(process: bool, l: Laid, gap: string, after: string)
    requires IsText(l) && AllWhite(gap)
    ensures Onto(process, l.(value := l.value + gap), after) == Onto(process, l, gap + after)
  {
    EscapeConcat(process, true, l.value, gap);
    EscapeWhite(process, true, gap);
    hide Escape;
    var e := Escape(process, true, l.value);
    Assoc(e, gap, after);
    EmptyFront(after);
    EmptyFront(gap + after);
    assert Onto(process, l, gap + after) == l.gap + ("" + (e + ("" + (gap + after))));
    assert Onto(process, l.(value := l.value + gap), after) == l.gap + ("" + ((e + gap) + ("" + after)));
  }

  // ---------------------------------------------------------------------------------------------
  // The printer writes the layout
  // ---------------------------------------------------------------------------------------------

  function SealText(st: PrintState): string {
    if st.elementJustOpened then ">" else ""
  }

  lemma {:induction false} AttributesPrint(settings: Settings, st: PrintState, attributes: seq<Attribute>)
    ensures PushAttributes(settings, st, attributes).out
            == st.out + AttributesOnto(settings.processEntities, attributes, "")
    decreases attributes
  {
    hide Escape;
    if attributes == [] {
      EmptyFront(st.out);
    } else {
      var a, process := attributes[0], settings.processEntities;
      AttributesPrint(settings, PushAttribute(settings, st, a), attributes[1..]);
      var e, next := Escape(process, false, a.value), AttributesOnto(process, attributes[1..], "");
      FiveConcat("", " ", a.name, "=\"", e, "\"", next);
      EmptyFront(" " + (a.name + ("=\"" + (e + "\""))));
      EmptyFront(" " + (a.name + ("=\"" + (e + ("\"" + next)))));
      Assoc(st.out, " " + (a.name + ("=\"" + (e + "\""))), next);
    }
  }

  lemma LeafPrints(settings: Settings, st: PrintState, n: Node)
    requires n.Leaf?
    ensures var r := PrintNode(settings, st, n);
            && r.out == st.out + (SealText(st) + Onto(settings.processEntities, Lay(settings, st, "", n), ""))
            && !r.elementJustOpened
  {
    hide LeafBody, HeaderOf, FooterOf;
    var gap, body := Gap(settings, st, n), LeafBody(settings.processEntities, n.kind, n.value);
    var text := HeaderOf(n.kind) + (body + FooterOf(n.kind));
    EmptyFront(FooterOf(n.kind));
    EmptyFront(n.value);
    EmptyFront(gap);
    EmptyFront(text);
    EmptyFront(st.out);
    LeafBodyIs(settings.processEntities, n.kind, n.value);
    Assoc(st.out, SealText(st), gap + text);
    Assoc(st.out + SealText(st), gap, text);
  }

  lemma LeafBodyIs(process: bool, kind: LeafKind, value: string)
    ensures !kind.Text? ==> LeafBody(process, kind, value) == value
  {
  }

  /** The start of an element, up to its attributes. */
  lemma StartPrints(settings: Settings, st: PrintState, n: Node)
    requires n.Element?
    ensures var inner := Started(settings, st, n);
            && inner.out == st.out + (SealText(st) + (Gap(settings, st, n)
                 + ("<" + (n.name + AttributesOnto(settings.processEntities, n.attributes, "")))))
            && inner.elementJustOpened && inner.depth == st.depth + 1 && inner.stack == st.stack + [n.name]
  {
    hide AttributesOnto, PushAttributes;
    var start := OpenElement(st, n.name, settings.compact);
    var gap, attrs := Gap(settings, st, n), AttributesOnto(settings.processEntities, n.attributes, "");
    AttributesPrint(settings, start, n.attributes);
    AttributesKeepStack(settings, start, n.attributes);
    assert start.out == st.out + SealText(st) + gap + ("<" + n.name) by {
      EmptyFront(st.out);
    }
    FiveConcat("", st.out, SealText(st), gap, "<", n.name, attrs);
    Assoc("<", n.name, attrs);
    Assoc(st.out, SealText(st), gap);
    Assoc(st.out + SealText(st), gap, "<" + n.name);
    StartConcat(st.out, SealText(st), gap, n.name, attrs);
  }

  lemma StartConcat(out: string, seal: string, gap: string, name: string, attrs: string)
    ensures out + seal + gap + ("<" + name) + attrs == out + (seal + (gap + ("<" + (name + attrs))))
  {
    Assoc("<", name, attrs);
    Assoc(out + seal + gap, "<" + name, attrs);
    Assoc(out + seal, gap, "<" + name + attrs);
    Assoc(out, seal, gap + ("<" + name + attrs));
  }

  /** Everything an element prints after its attributes: `rest` follows what is already there. */
  lemma ElementPrints(process: bool, out: string, seal: string, l: Laid, rest: string)
    requires l.LaidElement?
    ensures out + (seal + (l.gap + ("<" + (l.name + AttributesOnto(process, l.attributes, ""))))) + rest
            == out + (seal + (l.gap + ("<" + (l.name + AttributesOnto(process, l.attributes, rest)))))
  {
    AttributesOntoConcat(process, l.attributes, "", rest);
    EmptyFront(rest);
    hide AttributesOnto;
    var attrs := AttributesOnto(process, l.attributes, "");
    ElementConcat(l.gap, l.name, attrs, rest);
    Assoc(seal, l.gap + ("<" + (l.name + attrs)), rest);
    Assoc(out, seal + (l.gap + ("<" + (l.name + attrs))), rest);
  }

  lemma {:induction false} NodePrints(settings: Settings, st: PrintState, n: Node)
    ensures var r := PrintNode(settings, st, n);
            && r.out == st.out
               + (SealText(st) + Onto(settings.processEntities, Lay(settings, st, "", n), Trail(settings, st, n)))
            && !r.elementJustOpened
    decreases n, 1
  {
    if n.Leaf? {
      LeafPrints(settings, st, n);
    } else {
      var process, inner := settings.processEntities, Started(settings, st, n);
      var l, trail := Lay(settings, st, "", n), Trail(settings, st, n);
      EmptyFront(Gap(settings, st, n));
      StartPrints(settings, st, n);
      ContentPrints(settings, st, n);
      hide AttributesOnto, AllOnto, EndTagOnto, Gap, SealText, PrintNodes, Started, CloseElement, LayAll, CloseGap,
           Trail;
      var rest := if n.children == [] then "/>" + trail
          else ">" + AllOnto(process, l.children, EndTagOnto(l.closeGap, l.name, trail));
      assert PrintNode(settings, st, n).out == inner.out + rest;
      ElementPrints(process, st.out, SealText(st), l, rest);
      LayChildren(settings, st, n);
    }
  }

  lemma LayChildren(settings: Settings, st: PrintState, n: Node)
    requires n.Element?
    ensures Lay(settings, st, "", n).children == [] <==> n.children == []
  {
  }

  /** The children, the end tag and the newline behind it. */
  lemma {:induction false} ContentPrints(settings: Settings, st: PrintState, n: Node)
    requires n.Element?
    ensures var inner, l, trail := Started(settings, st, n), Lay(settings, st, "", n), Trail(settings, st, n);
            var r := PrintNode(settings, st, n);
            && r.out == inner.out + (if n.children == [] then "/>" + trail
                 else ">" + AllOnto(settings.processEntities, l.children, EndTagOnto(l.closeGap, n.name, trail)))
            && !r.elementJustOpened
    decreases n, 0
  {
    var process, inner := settings.processEntities, Started(settings, st, n);
    var after := PrintNodes(settings, inner, n.children);
    var l, trail := Lay(settings, st, "", n), Trail(settings, st, n);
    StartPrints(settings, st, n);
    assert PrintNode(settings, st, n) == CloseElement(after, settings.compact) by {
      AttributesKeepStack(settings, OpenElement(st, n.name, settings.compact), n.attributes);
    }
    if n.children == [] {
      hide Started, Gap, AttributesOnto;
      Assoc(inner.out, "/>", trail);
    } else {
      EmptyFront(inner.out);
      NodesPrint(settings, inner, inner.out, "", n.children);
      NoTrailInside(settings, inner, "", n.children);
      var text := AllOnto(process, l.children, "");
      assert l.children == LayAll(settings, inner, "", n.children);
      CloseText(settings, after, n.name);
      assert l.closeGap == CloseGap(settings, after);
      hide Started, Gap, AttributesOnto, AllOnto, LayAll, CloseGap, CloseElement, PrintNodes, PrintNode;
      var end := EndTagOnto(l.closeGap, n.name, trail);
      AllOntoConcat(process, l.children, "", end);
      EmptyFront(end);
      Assoc(inner.out, ">" + text, end);
      Assoc(">", text, end);
    }
  }

  lemma CloseText(settings: Settings, st: PrintState, name: string)
    requires st.depth > 0 && st.stack != [] && st.stack[|st.stack| - 1] == name && !st.elementJustOpened
    ensures CloseElement(st, settings.compact).out
            == st.out + EndTagOnto(CloseGap(settings, st), name, if st.depth == 1 && !settings.compact then "\n"
                                   else "")
  {
    var gap := CloseGap(settings, st);
    var trail := if st.depth == 1 && !settings.compact then "\n" else "";
    assert CloseElement(st, settings.compact).out == st.out + (gap + ("</" + (name + ">"))) + trail;
    hide CloseGap, CloseElement;
    FiveConcat("", st.out, gap, "</", name, ">", trail);
    EmptyFront(st.out + (gap + ("</" + (name + (">" + trail)))));
    EmptyFront(st.out + (gap + ("</" + (name + ">"))));
  }

  lemma {:induction false} NoTrailInside(settings: Settings, st: PrintState, lead: string, ns: seq<Node>)
    requires st.depth > 0
    ensures lead == "" ==> LeadAfter(settings, st, lead, ns) == ""
    decreases ns
  {
    hide PrintNode;
    if ns != [] {
      NoTrailInside(settings, PrintNode(settings, st, ns[0]), "", ns[1..]);
    }
  }

  /** A list of nodes prints its layout; `lead` is the part of it that was printed before. */
  lemma {:induction false} NodesPrint(settings: Settings, st: PrintState, base: string, lead: string, ns: seq<Node>)
    requires st.out == base + lead && (lead != "" ==> !st.elementJustOpened) && ns != [] && AllWhite(lead)
    ensures var r := PrintNodes(settings, st, ns);
            && r.out == base + (SealText(st) + AllOnto(settings.processEntities, LayAll(settings, st, lead, ns),
                                                         LeadAfter(settings, st, lead, ns)))
            && !r.elementJustOpened
    decreases ns, 0
  {
    var process, n, more := settings.processEntities, ns[0], ns[1..];
    var next, trail := PrintNode(settings, st, n), Trail(settings, st, n);
    var l, seal := Lay(settings, st, lead, n), SealText(st);
    var rest := LayAll(settings, next, trail, more);
    NodePrints(settings, st, n);
    LeadJoins(settings, st, base, lead, n);
    assert next.out == base + (seal + Onto(process, l, trail));
    if more == [] {
      assert LayAll(settings, st, lead, ns) == [l];
      assert [l][1..] == [];
    } else {
      var end := LeadAfter(settings, next, trail, more);
      var base' := base + (seal + Onto(process, l, ""));
      SplitTrail(process, base, seal, l, trail);
      NodesPrint(settings, next, base', trail, more);
      JoinedListPrints(settings, st, base, lead, ns, end);
    }
  }

  lemma LeadJoins(settings: Settings, st: PrintState, base: string, lead: string, n: Node)
    requires st.out == base + lead && (lead != "" ==> !st.elementJustOpened) && AllWhite(lead)
    ensures var process, trail := settings.processEntities, Trail(settings, st, n);
            st.out + (SealText(st) + Onto(process, Lay(settings, st, "", n), trail))
            == base + (SealText(st) + Onto(process, Lay(settings, st, lead, n), trail))
  {
    var process, trail := settings.processEntities, Trail(settings, st, n);
    LeadInFront(settings, st, lead, n, trail);
    hide Onto, Lay, Gap, Trail;
    var text := Onto(process, Lay(settings, st, "", n), trail);
    if lead == "" {
      EmptyFront(base);
      EmptyFront(text);
    } else {
      EmptyFront(text);
      EmptyFront(lead + text);
      Assoc(base, lead, text);
    }
  }

  /** The white space already written comes in front of the node's own text. */
  lemma LeadInFront(settings: Settings, st: PrintState, lead: string, n: Node, tail: string)
    requires AllWhite(lead)
    ensures Onto(settings.processEntities, Lay(settings, st, lead, n), tail)
            == lead + Onto(settings.processEntities, Lay(settings, st, "", n), tail)
  {
    var process := settings.processEntities;
    if IsPlainText(n) {
      EmptyFront(n.value);
      TextTakesLead(process, lead, n.value, tail);
    } else {
      EmptyFront(Gap(settings, st, n));
      var l, plain := Lay(settings, st, lead, n), Lay(settings, st, "", n);
      assert l.(gap := Gap(settings, st, n)) == plain;
      GapInFront(process, l, lead, Gap(settings, st, n), tail);
    }
  }

  lemma TextTakesLead(process: bool, lead: string, value: string, tail: string)
    requires AllWhite(lead)
    ensures Onto(process, LaidLeaf("", Text, lead + value), tail)
            == lead + Onto(process, LaidLeaf("", Text, value), tail)
  {
    EscapeConcat(process, true, lead, value);
    EscapeWhite(process, true, lead);
    hide Escape;
    var e := Escape(process, true, value);
    Assoc(lead, e, tail);
    assert Onto(process, LaidLeaf("", Text, value), tail) == "" + ("" + (e + ("" + tail)));
    assert Onto(process, LaidLeaf("", Text, lead + value), tail) == "" + ("" + ((lead + e) + ("" + tail)));
    EmptyFront(tail);
    EmptyFront(e + tail);
    EmptyFront(lead + e + tail);
  }

  lemma SplitTrail(process: bool, base: string, seal: string, l: Laid, trail: string)
    ensures base + (seal + Onto(process, l, trail)) == base + (seal + Onto(process, l, "")) + trail
  {
    OntoConcat(process, l, "", trail);
    EmptyFront(trail);
    hide Onto;
    Assoc(seal, Onto(process, l, ""), trail);
    Assoc(base, seal + Onto(process, l, ""), trail);
  }

  lemma JoinedListPrints(settings: Settings, st: PrintState, base: string, lead: string, ns: seq<Node>, end: string)
    requires |ns| > 1
    ensures var process, n := settings.processEntities, ns[0];
            var l, seal := Lay(settings, st, lead, n), SealText(st);
            var rest := LayAll(settings, PrintNode(settings, st, n), Trail(settings, st, n), ns[1..]);
            base + (seal + Onto(process, l, "")) + ("" + AllOnto(process, rest, end))
            == base + (seal + AllOnto(process, LayAll(settings, st, lead, ns), end))
  {
    var process, n := settings.processEntities, ns[0];
    var l, seal := Lay(settings, st, lead, n), SealText(st);
    var rest := LayAll(settings, PrintNode(settings, st, n), Trail(settings, st, n), ns[1..]);
    GapIsWhite(settings, PrintNode(settings, st, n), Trail(settings, st, n), ns[1..]);
    assert LayAll(settings, st, lead, ns) == Join(l, rest);
    JoinKeepsText(process, l, rest, end);
    var tail := AllOnto(process, rest, end);
    OntoConcat(process, l, "", tail);
    EmptyFront(tail);
    hide Onto, AllOnto, Lay, LayAll, Join;
    Assoc(seal, Onto(process, l, ""), tail);
    Assoc(base, seal + Onto(process, l, ""), tail);
  }

  lemma GapIsWhite(settings: Settings, st: PrintState, lead: string, ns: seq<Node>)
    requires ns != [] && AllWhite(lead)
    ensures AllWhite(LayAll(settings, st, lead, ns)[0].gap)
  {
    hide Gap;
    var rest := LayAll(settings, PrintNode(settings, st, ns[0]), Trail(settings, st, ns[0]), ns[1..]);
    assert Join(Lay(settings, st, lead, ns[0]), rest)[0].gap == Lay(settings, st, lead, ns[0]).gap;
  }
}
