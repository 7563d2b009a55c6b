/** The law between the printer and the parser: reading a printed document gives the document back in compact
    mode, and in pretty mode exactly when no plain text stands directly in front of an element. */
module PrintParse {
  import opened XmlChars
  import opened StringEscaping
  import opened XmlParsing
  import opened Dom
  import opened Layout
  import opened RoundTrip
  import opened XmlPrinting
  import opened PrintedLayout
  import StringDecoding
  import opened WhitespaceModes

  // ---------------------------------------------------------------------------------------------
  // The tree laid out is the padded tree, and its white space never touches text
  // ---------------------------------------------------------------------------------------------

  /** Plain text opened at a level keeps the printer from breaking lines there. */
  lemma AfterPlainText(settings: Settings, st: PrintState, n: Node)
    requires IsPlainText(n)
    ensures PrintNode(settings, st, n).textDepth == st.depth - 1 && Trail(settings, st, n) == ""
  {
  }

  lemma {:induction false} LastTextStaysOpen(settings: Settings, st: PrintState, ns: seq<Node>)
    requires ns != [] && IsPlainText(ns[|ns| - 1])
    ensures PrintNodes(settings, st, ns).textDepth == st.depth - 1
    decreases ns
  {
    hide PrintNode;
    if |ns| == 1 {
      AfterPlainText(settings, st, ns[0]);
      assert ns[1..] == [];
    } else {
      LastTextStaysOpen(settings, PrintNode(settings, st, ns[0]), ns[1..]);
    }
  }

  predicate TextAllowed(st: PrintState, lead: string, ns: seq<Node>) {
    && AllWhite(lead)
    && (st.depth > 0 ==> lead == "")
    && (st.depth == 0 ==> forall n :: n in ns ==> !IsPlainText(n))
  }

  lemma {:induction false} NodeLayout(settings: Settings, st: PrintState, lead: string, n: Node)
    requires AllWhite(lead)
    ensures var l := Lay(settings, st, lead, n);
            && WellSpaced(l) && IsText(l) == IsPlainText(n)
            && Plain(l) == if IsPlainText(n) then Leaf(Text, lead + n.value) else Pad(settings.compact, st.depth, n)
    decreases n, 1
  {
    hide Lay, Plain, Pad, WellSpaced, LayAll, PlainAll, PadAll, PrintNodes, CloseGap, Started;
    if n.Element? {
      var inner := Started(settings, st, n);
      StartPrints(settings, st, n);
      ListLayout(settings, inner, "", n.children);
      CloseGapFits(settings, inner, n.children);
      ElementLayout(settings, st, lead, n);
    } else {
      LeafLayout(settings, st, lead, n);
    }
  }

  lemma LeafLayout(settings: Settings, st: PrintState, lead: string, n: Node)
    requires n.Leaf? && AllWhite(lead)
    ensures var l := Lay(settings, st, lead, n);
            && WellSpaced(l) && IsText(l) == IsPlainText(n)
            && Plain(l) == if IsPlainText(n) then Leaf(Text, lead + n.value) else Pad(settings.compact, st.depth, n)
  {
    assert AllWhite(Lay(settings, st, lead, n).gap);
  }

  /** An end tag that follows plain text gets no white space in front of it. */
  lemma CloseGapFits(settings: Settings, st: PrintState, ns: seq<Node>)
    requires ns != [] ==> PlainAll(LayAll(settings, st, "", ns)) == PadAll(settings.compact, st.depth, ns)
    requires st.depth > 0
    ensures var ls := LayAll(settings, st, "", ns);
            ls != [] && IsText(ls[|ls| - 1]) ==> CloseGap(settings, PrintNodes(settings, st, ns)) == ""
  {
    hide LayAll, PadAll, PrintNodes;
    if ns != [] {
      LastText(settings, st, ns);
      if IsPlainText(ns[|ns| - 1]) {
        LastTextStaysOpen(settings, st, ns);
      }
    }
  }

  lemma ElementLayout(settings: Settings, st: PrintState, lead: string, n: Node)
    requires n.Element? && AllWhite(lead)
    requires var inner := Started(settings, st, n);
             var ls := LayAll(settings, inner, "", n.children);
             && PlainAll(ls) == PadAll(settings.compact, st.depth + 1, n.children) && WellSpacedAll(ls)
             && (ls != [] && IsText(ls[|ls| - 1]) ==> CloseGap(settings, PrintNodes(settings, inner, n.children)) == "")
    ensures var l := Lay(settings, st, lead, n);
            Plain(l) == Pad(settings.compact, st.depth, n) && WellSpaced(l) && !IsText(l)
  {
    hide Started, LayAll, PadAll, PrintNodes, CloseGap, Gap, WellSpacedAll, AllWhite, IsText, PlainAll;
    var l := Lay(settings, st, lead, n);
    WhiteTogether(lead, Gap(settings, st, n));
    assert !IsText(l) by {
      ElementIsNoText(l);
    }
    if l.children == [] {
      WhiteTogether("", "");
    }
  }

  lemma WhiteTogether(a: string, b: string)
    requires (a == "" || AllWhite(a)) && (b == "" || AllWhite(b))
    ensures AllWhite(a + b)
  {
  }

  lemma ElementIsNoText(l: Laid)
    ensures l.LaidElement? ==> !IsText(l)
  {
  }

  /** The laid list ends in text when the list does. */
  lemma LastText(settings: Settings, st: PrintState, ns: seq<Node>)
    requires ns != [] && PlainAll(LayAll(settings, st, "", ns)) == PadAll(settings.compact, st.depth, ns)
    ensures IsText(LayAll(settings, st, "", ns)[|ns| - 1]) == IsPlainText(ns[|ns| - 1])
  {
    hide LayAll, PadAll;
    var ls := LayAll(settings, st, "", ns);
    PadKeepsKind(settings.compact, st.depth, ns, |ns| - 1);
    assert PlainAll(ls)[|ns| - 1] == Plain(ls[|ns| - 1]);
  }

  lemma {:induction false} PadKeepsKind(compact: bool, depth: nat, ns: seq<Node>, i: nat)
    requires i < |ns|
    ensures var m := PadAll(compact, depth, ns)[i];
            if !compact && TextBeforeElement(ns, i) then m == Leaf(Text, ns[i].value + Spaces(depth))
            else m == Pad(compact, depth, ns[i])
    ensures IsPlainText(PadAll(compact, depth, ns)[i]) == IsPlainText(ns[i])
    ensures IsDeclaration(PadAll(compact, depth, ns)[i]) == IsDeclaration(ns[i])
    decreases ns
  {
    if i > 0 {
      PadKeepsKind(compact, depth, ns[1..], i - 1);
      assert ns[1..][i - 1] == ns[i];
      assert PadAll(compact, depth, ns)[i] == PadAll(compact, depth, ns[1..])[i - 1];
    }
  }

  lemma {:induction false} ListLayout(settings: Settings, st: PrintState, lead: string, ns: seq<Node>)
    requires TextAllowed(st, lead, ns)
    ensures var ls := LayAll(settings, st, lead, ns);
            && PlainAll(ls) == PadAll(settings.compact, st.depth, ns) && WellSpacedAll(ls)
    decreases ns, 0
  {
    if ns != [] {
      var n, more := ns[0], ns[1..];
      var next, trail := PrintNode(settings, st, n), Trail(settings, st, n);
      assert n in ns;
      NodeLayout(settings, st, lead, n);
      if IsPlainText(n) {
        EmptyFront(n.value);
      }
      ListLayout(settings, next, trail, more);
      var l, rest := Lay(settings, st, lead, n), LayAll(settings, next, trail, more);
      if IsText(l) && more != [] {
        AfterPlainText(settings, st, n);
        TextGap(settings, st, next, n, more);
      }
      hide PrintNode, Lay, Pad, Plain, WellSpaced;
      JoinLayout(settings, st, l, rest, ns);
    }
  }

  /** What separates a plain text from the next node: nothing, or the indentation of an element. */
  lemma TextGap(settings: Settings, st: PrintState, next: PrintState, n: Node, more: seq<Node>)
    requires more != [] && st.depth > 0 && next.depth == st.depth && next.textDepth == st.depth - 1
    ensures LayAll(settings, next, "", more)[0].gap
            == if more[0].Element? && !settings.compact then Spaces(st.depth) else ""
  {
    var rest := LayAll(settings, PrintNode(settings, next, more[0]), Trail(settings, next, more[0]), more[1..]);
    var l := Lay(settings, next, "", more[0]);
    assert Join(l, rest)[0].gap == l.gap;
    EmptyFront(Gap(settings, next, more[0]));
    EmptyFront(Spaces(st.depth));
  }

  lemma JoinLayout(settings: Settings, st: PrintState, l: Laid, rest: seq<Laid>, ns: seq<Node>)
    requires ns != [] && |rest| == |ns| - 1
    requires Plain(l) == Pad(settings.compact, st.depth, ns[0]) && WellSpaced(l) && IsText(l) == IsPlainText(ns[0])
    requires PlainAll(rest) == PadAll(settings.compact, st.depth, ns[1..]) && WellSpacedAll(rest)
    requires IsText(l) && rest != [] ==> rest[0].gap == if ns[1].Element? && !settings.compact then Spaces(st.depth)
             else ""
    ensures PlainAll(Join(l, rest)) == PadAll(settings.compact, st.depth, ns) && WellSpacedAll(Join(l, rest))
  {
    JoinPlain(l, rest);
    JoinSpacing(l, rest);
    PadFront(settings.compact, st.depth, ns);
    hide Plain, Pad, WellSpacedAll, WellSpaced, Spaces, Join, PlainAll;
    if IsText(l) {
      EmptyFront(l.value);
      PlainOfText(l);
    }
  }

  /** The first node of a padded list. */
  lemma PadFront(compact: bool, depth: nat, ns: seq<Node>)
    requires ns != []
    ensures PadAll(compact, depth, ns)
            == [if !compact && TextBeforeElement(ns, 0) then Leaf(Text, ns[0].value + Spaces(depth))
                else Pad(compact, depth, ns[0])]
               + PadAll(compact, depth, ns[1..])
    ensures IsPlainText(ns[0]) ==> Pad(compact, depth, ns[0]) == ns[0] == Leaf(Text, ns[0].value)
  {
    hide Spaces;
  }

  lemma JoinPlain(l: Laid, rest: seq<Laid>)
    ensures PlainAll(Join(l, rest))
            == [if IsText(l) && rest != [] then Leaf(Text, l.value + rest[0].gap) else Plain(l)] + PlainAll(rest)
  {
    hide Plain;
    var ls := Join(l, rest);
    if IsText(l) && rest != [] {
      var moved := rest[0].(gap := "");
      PlainIgnoresGap(rest[0]);
      PlainOfText(l);
      assert ls[1..] == [moved] + rest[1..];
      assert ls[1..][1..] == rest[1..];
      assert PlainAll(ls[1..]) == PlainAll(rest);
    } else {
      assert ls[1..] == rest;
    }
  }

  lemma JoinSpacing(l: Laid, rest: seq<Laid>)
    requires WellSpaced(l) && WellSpacedAll(rest)
    ensures WellSpacedAll(Join(l, rest))
  {
    hide WellSpaced, WellSpacedAll;
    if IsText(l) && rest != [] {
      WellSpacedTail(rest);
      PlainIgnoresGap(rest[0]);
      PlainOfText(l);
      WellSpacedPair(l.(value := l.value + rest[0].gap), rest[0].(gap := ""), rest[1..]);
    } else {
      WellSpacedCons(l, rest);
    }
  }

  lemma PlainIgnoresGap(l: Laid)
    ensures Plain(l.(gap := "")) == Plain(l)
    ensures WellSpaced(l) ==> WellSpaced(l.(gap := ""))
  {
  }

  lemma PlainOfText(l: Laid)
    requires IsText(l)
    ensures Plain(l) == Leaf(Text, l.value)
    ensures forall v :: Plain(l.(value := v)) == Leaf(Text, v)
    ensures WellSpaced(l) ==> forall v :: WellSpaced(l.(value := v))
  {
  }

  lemma WellSpacedTail(ls: seq<Laid>)
    requires ls != [] && WellSpacedAll(ls)
    ensures WellSpacedAll(ls[1..]) && WellSpaced(ls[0])
    ensures |ls| > 1 && IsText(ls[0]) ==> ls[1].gap == ""
  {
    hide WellSpaced;
    var rest := ls[1..];
    assert forall i :: 0 <= i < |rest| ==> rest[i] == ls[i + 1];
    assert ls[0] in ls;
  }

  lemma WellSpacedCons(l: Laid, rest: seq<Laid>)
    requires WellSpaced(l) && WellSpacedAll(rest)
    requires IsText(l) && rest != [] ==> rest[0].gap == ""
    ensures WellSpacedAll([l] + rest)
  {
    hide WellSpaced;
    var ls := [l] + rest;
    assert forall i :: 0 < i < |ls| ==> ls[i] == rest[i - 1];
  }

  lemma WellSpacedPair(l: Laid, moved: Laid, rest: seq<Laid>)
    requires WellSpaced(l) && WellSpaced(moved) && WellSpacedAll(rest) && moved.gap == ""
    requires IsText(moved) && rest != [] ==> rest[0].gap == ""
    ensures WellSpacedAll([l, moved] + rest)
  {
    WellSpacedCons(moved, rest);
    WellSpacedCons(l, [moved] + rest);
    assert [l] + ([moved] + rest) == [l, moved] + rest;
  }

  // ---------------------------------------------------------------------------------------------
  // Padding keeps trees printable
  // ---------------------------------------------------------------------------------------------

  lemma {:induction false} PadPrintable(process: bool, compact: bool, depth: nat, n: Node)
    requires PrintableNode(process, n)
    ensures PrintableNode(process, Pad(compact, depth, n)) && Nesting(Pad(compact, depth, n)) == Nesting(n)
    decreases n, 1
  {
    if n.Element? {
      ListPadPrintable(process, compact, depth + 1, n.children);
      assert forall i :: 0 <= i < |n.children| ==> n.children[i] in n.children;
      PadApart(compact, depth + 1, n.children);
    }
  }

  lemma PadApart(compact: bool, depth: nat, ns: seq<Node>)
    requires TextApart(ns)
    ensures TextApart(PadAll(compact, depth, ns))
    ensures (forall n :: n in ns ==> !IsDeclaration(n)) ==> forall n :: n in PadAll(compact, depth, ns) ==>
              !IsDeclaration(n)
  {
    hide PadAll;
    forall i | 0 <= i < |ns|
      ensures IsPlainText(PadAll(compact, depth, ns)[i]) == IsPlainText(ns[i])
      ensures IsDeclaration(PadAll(compact, depth, ns)[i]) == IsDeclaration(ns[i]) && ns[i] in ns
    {
      PadKeepsKind(compact, depth, ns, i);
    }
  }

  lemma {:induction false} ListPadPrintable(process: bool, compact: bool, depth: nat, ns: seq<Node>)
    requires forall n :: n in ns ==> PrintableNode(process, n)
    ensures forall n :: n in PadAll(compact, depth, ns) ==> PrintableNode(process, n)
    ensures NestingAll(PadAll(compact, depth, ns)) == NestingAll(ns)
    decreases ns, 0
  {
    if ns != [] {
      var first, r := ns[0], PadAll(compact, depth, ns);
      assert first in ns;
      PadPrintable(process, compact, depth, first);
      ListPadPrintable(process, compact, depth, ns[1..]);
      hide PrintableNode, Nesting, Pad;
      assert r[1..] == PadAll(compact, depth, ns[1..]);
      PaddedTextPrintable(process, first, depth);
      PadKeepsKind(compact, depth, ns, 0);
      assert Nesting(r[0]) == Nesting(first) by {
        LeavesDoNotNest(first, r[0]);
      }
      assert forall n :: n in r ==> n == r[0] || n in r[1..];
    }
  }

  lemma LeavesDoNotNest(a: Node, b: Node)
    ensures a.Leaf? && b.Leaf? ==> Nesting(a) == Nesting(b)
  {
  }

  lemma PaddedTextPrintable(process: bool, n: Node, depth: nat)
    requires PrintableNode(process, n)
    ensures IsPlainText(n) ==> PrintableNode(process, Leaf(Text, n.value + Spaces(depth)))
  {
    if IsPlainText(n) {
      var padded := n.value + Spaces(depth);
      assert !AllWhite(padded) by {
        var i :| 0 <= i < |n.value| && !IsWhiteSpace(n.value[i]);
        assert padded[i] == n.value[i];
      }
      assert forall c :: c in padded ==> c in n.value || c == ' ';
    }
  }

  // ---------------------------------------------------------------------------------------------
  // Documents
  // ---------------------------------------------------------------------------------------------

  lemma {:induction false} EndIsWhite(settings: Settings, st: PrintState, lead: string, ns: seq<Node>)
    requires AllWhite(lead)
    ensures AllWhite(LeadAfter(settings, st, lead, ns))
    decreases ns
  {
    hide PrintNode;
    if ns != [] {
      EndIsWhite(settings, PrintNode(settings, st, ns[0]), Trail(settings, st, ns[0]), ns[1..]);
    }
  }

  lemma NothingFollows(options: Options, tail: string, nodes: seq<Node>)
    requires AllWhite(tail)
    ensures ParseLoop(options, tail, true, 1, nodes) == EndOfInput(nodes)
  {
    SkipWhiteGap(tail, "");
    assert tail + "" == tail;
  }

  lemma TextIsPlain(l: Laid)
    ensures IsText(l) == IsPlainText(Plain(l))
  {
  }

  lemma DocumentReadable(process: bool, ls: seq<Laid>)
    requires Sendable(process, PlainAll(ls)) && WellSpacedAll(ls)
    ensures Readable(process, ls, 1) && LocationsOk(true, [], ls)
  {
    hide SendableNode, Nesting, WellSpacedAll, Plain, PlainAll, IsText, IsPlainText, IsDeclaration;
    PlainMembers(ls);
    forall i | 0 <= i < |ls|
      ensures IsText(ls[i]) == IsPlainText(PlainAll(ls)[i])
    {
      TextIsPlain(ls[i]);
    }
    DeclarationsLocated(ls);
  }

  lemma DeclarationsLocated(ls: seq<Laid>)
    requires DeclarationsFirst(PlainAll(ls))
    ensures LocationsOk(true, [], ls)
  {
    hide Plain, IsDeclaration;
  }

  /** The loop on a laid-out document: it reads everything, unless it ends in a text that is not white, which no
      markup ends. */
  lemma LaidDocumentIsRead(process: bool, ls: seq<Laid>, tail: string)
    requires Sendable(process, PlainAll(ls)) && WellSpacedAll(ls) && AllWhite(tail)
    ensures var r := ParseLoop(Options(process, false), AllOnto(process, ls, tail), true, 1, []);
            var last := PlainAll(ls)[|ls| - 1];
            if IsPlainText(last) && !IsBlank(last) then r.Failed? else r == EndOfInput(RereadAll(PlainAll(ls)))
  {
    hide ParseLoop, Sendable, WellSpacedAll, Readable, LocationsOk, TailOk, Plain, PlainAll, RereadAll, IsBlank, IsText,
         AllOnto;
    var options, n := Options(process, false), |ls| - 1;
    DocumentReadable(process, ls);
    NotEmpty(process, PlainAll(ls));
    LastOne(ls);
    TextParts(ls[n]);
    if IsPlainText(PlainAll(ls)[n]) && !IsBlank(PlainAll(ls)[n]) {
      CutLast(process, ls, tail);
      ListIsRead(options, ls[..n], Onto(process, ls[n], tail), true, 1, []);
      OpenTextFails(options, ls[n], tail, [] + RereadAll(PlainAll(ls[..n])));
    } else {
      WhiteTailOk(ls, tail);
      ListIsRead(options, ls, tail, true, 1, []);
      assert [] + RereadAll(PlainAll(ls)) == RereadAll(PlainAll(ls));
      NothingFollows(options, tail, RereadAll(PlainAll(ls)));
    }
  }

  lemma NotEmpty(process: bool, ns: seq<Node>)
    ensures Sendable(process, ns) || Printable(process, ns) ==> ns != []
  {
  }

  lemma LastOne(ls: seq<Laid>)
    ensures ls != [] ==> PlainAll(ls)[|ls| - 1] == Plain(ls[|ls| - 1])
    ensures |PlainAll(ls)| == |ls|
  {
  }

  lemma WhiteTailOk(ls: seq<Laid>, tail: string)
    requires AllWhite(tail) && ls != [] && !(IsText(ls[|ls| - 1]) && !AllWhite(ls[|ls| - 1].value))
    ensures TailOk(ls, tail)
  {
    SkipWhiteGap(tail, "");
    assert tail + "" == tail;
  }

  lemma CutLast(process: bool, ls: seq<Laid>, tail: string)
    requires ls != [] && Readable(process, ls, 1) && LocationsOk(true, [], ls) && IsText(ls[|ls| - 1])
    ensures var front, last := ls[..|ls| - 1], ls[|ls| - 1];
            && Readable(process, front, 1) && LocationsOk(true, [], front) && TailOk(front, Onto(process, last, tail))
            && AllOnto(process, ls, tail) == AllOnto(process, front, Onto(process, last, tail))
            && SendableNode(process, Plain(last)) && WellSpaced(last)
  {
    hide SendableNode, Nesting, WellSpaced, Plain, AllOnto, Onto, IsDeclaration;
    var front, last := ls[..|ls| - 1], ls[|ls| - 1];
    assert last in ls;
    assert forall l :: l in front ==> l in ls;
    assert front + [last] == ls;
    OntoTwice(process, front, [last], tail);
    OneOnto(process, last, tail);
  }

  lemma OneOnto(process: bool, l: Laid, tail: string)
    ensures AllOnto(process, [l], tail) == Onto(process, l, tail)
  {
    hide Onto;
    assert [l][1..] == [];
  }

  lemma {:induction false} OntoTwice(process: bool, a: seq<Laid>, b: seq<Laid>, tail: string)
    ensures AllOnto(process, a + b, tail) == AllOnto(process, a, AllOnto(process, b, tail))
    decreases |a|
  {
    hide Onto;
    if a == [] {
      assert a + b == b;
    } else {
      assert (a + b)[1..] == a[1..] + b;
      OntoTwice(process, a[1..], b, tail);
    }
  }

  /** A text that nothing ends is an error. */
  lemma OpenTextFails(options: Options, l: Laid, tail: string, before: seq<Node>)
    requires IsText(l) && !AllWhite(l.value) && WellSpaced(l) && SendableNode(options.processEntities, Plain(l))
    requires AllWhite(tail)
    ensures ParseLoop(options, Onto(options.processEntities, l, tail), true, 1, before).Failed?
  {
    var process := options.processEntities;
    var s := Escape(process, true, l.value) + tail;
    TextOnto(process, l.value, tail);
    TextIsIdentified(process, l.value, tail);
    IdentifyText(s);
    ValueEnds(process, true, l.value, '<');
    NoEndInWhite(Escape(process, true, l.value), tail);
    TextIsNotEnd(process, l.value, tail);
    EscapeOfText(process, l.value);
    hide Identify, FindTag, Escape, StringDecoding.Eager, SkipWhite, WhiteLead;
    assert ParseLeaf(options, Text, s).Null?;
  }

  lemma EscapeOfText(process: bool, value: string)
    requires !AllWhite(value) && NulFree(value)
    ensures Escape(process, true, value) != "" && Escape(process, true, value)[0] != NUL
  {
    EscapeKeepsOut(process, true, value, NUL);
    assert value != "";
    var raw := Escape(process, true, value);
    assert raw != "" ==> raw[0] in raw;
  }

  lemma NoEndInWhite(raw: string, tail: string)
    requires NulFree(raw) && FindTag(raw, "<").None? && AllWhite(tail)
    ensures FindTag(raw + tail, "<").None?
  {
    ParsedBytes(raw);
    assert '<' !in raw + tail;
    ByteIsAbsent(raw + tail, '<');
  }

  lemma {:induction false} ParsedBytes(s: string)
    requires NulFree(s) && FindTag(s, "<").None?
    ensures '<' !in s
  {
    if s != "" {
      assert s[..1] == [s[0]];
      ParsedBytes(s[1..]);
    }
  }

  // ---------------------------------------------------------------------------------------------
  // The printer's layout at top level
  // ---------------------------------------------------------------------------------------------

  /** White space as the printer writes it. */
  predicate Quiet(s: string) {
    AllWhite(s) && CR !in s
  }

  ghost predicate Around(v: string, w: string) {
    exists a, b :: w == a + v + b && Quiet(a) && Quiet(b)
  }

  /** `m` is `n` with white space around its plain texts. */
  ghost predicate Absorbs(n: Node, m: Node)
    decreases n
  {
    match n
    case Leaf(kind, value) => m.Leaf? && m.kind == kind && if kind.Text? then Around(value, m.value) else m == n
    case Element(name, attributes, children) =>
      m.Element? && m.name == name && m.attributes == attributes && AbsorbsAll(children, m.children)
  }

  ghost predicate AbsorbsAll(ns: seq<Node>, ms: seq<Node>)
    decreases ns
  {
    |ns| == |ms| && forall i :: 0 <= i < |ns| ==> Absorbs(ns[i], ms[i])
  }

  lemma AroundWith(a: string, v: string, b: string)
    requires Quiet(a) && Quiet(b)
    ensures Around(v, a + v + b)
  {
  }

  lemma SpacesAreQuiet(settings: Settings, st: PrintState, n: Node)
    ensures forall depth :: Quiet(Spaces(depth))
    ensures Quiet(Gap(settings, st, n)) && Quiet(Trail(settings, st, n)) && Quiet("")
  {
  }

  lemma {:induction false} PadAbsorbs(compact: bool, depth: nat, n: Node)
    ensures Absorbs(n, Pad(compact, depth, n))
    decreases n, 0
  {
    match n
    case Leaf(kind, value) =>
      SpacesAreQuiet(Settings(compact, true), INITIAL, n);
      EmptyFront(value);
      AroundWith("", value, "");
    case Element(_, _, children) => ListPadAbsorbs(compact, depth + 1, children);
  }

  lemma {:induction false} ListPadAbsorbs(compact: bool, depth: nat, ns: seq<Node>)
    ensures AbsorbsAll(ns, PadAll(compact, depth, ns))
    decreases ns, 1
  {
    hide PadAll, Pad, Absorbs;
    forall i | 0 <= i < |ns|
      ensures Absorbs(ns[i], PadAll(compact, depth, ns)[i])
    {
      PadKeepsKind(compact, depth, ns, i);
      PadAbsorbs(compact, depth, ns[i]);
      if TextBeforeElement(ns, i) {
        PaddedAbsorbs(ns[i], depth);
      }
    }
  }

  lemma PaddedAbsorbs(n: Node, depth: nat)
    requires IsPlainText(n)
    ensures Absorbs(n, Leaf(Text, n.value + Spaces(depth)))
  {
    SpacesAreQuiet(Settings(false, true), INITIAL, n);
    EmptyFront(n.value);
    AroundWith("", n.value, Spaces(depth));
  }

  /** The layout of the nodes at top level: well spaced, and the nodes with white space around their texts. */
  lemma {:induction false} TopLayout(settings: Settings, st: PrintState, lead: string, ns: seq<Node>)
    requires st.depth == 0 && Quiet(lead)
    ensures var ls := LayAll(settings, st, lead, ns);
            && WellSpacedAll(ls) && AbsorbsAll(ns, PlainAll(ls)) && (ls != [] ==> Quiet(ls[0].gap))
    decreases ns
  {
    hide PrintNode, Lay, Pad, Plain, WellSpaced, WellSpacedAll, PlainAll, Absorbs, AbsorbsAll, Quiet, Gap, Trail,
         Join;
    if ns == [] {
      NothingLaid();
    } else {
      var n, more := ns[0], ns[1..];
      var next, trail := PrintNode(settings, st, n), Trail(settings, st, n);
      SpacesAreQuiet(settings, st, n);
      QuietTogether(lead, Gap(settings, st, n));
      NodeLayout(settings, st, lead, n);
      TopLayout(settings, next, trail, more);
      var l, rest := Lay(settings, st, lead, n), LayAll(settings, next, trail, more);
      JoinSpacing(l, rest);
      JoinPlain(l, rest);
      JoinGap(l, rest);
      FirstAbsorbs(settings, lead, n, l, if rest != [] then rest[0].gap else "");
      PadAbsorbs(settings.compact, st.depth, n);
      assert ns == [n] + more;
      AbsorbsCons(n, more, PlainAll(Join(l, rest))[0], PlainAll(rest));
    }
  }

  lemma AbsorbsCons(n: Node, ns: seq<Node>, m: Node, ms: seq<Node>)
    requires Absorbs(n, m) && AbsorbsAll(ns, ms)
    ensures AbsorbsAll([n] + ns, [m] + ms)
  {
    hide Absorbs;
  }

  lemma NothingLaid()
    ensures WellSpacedAll([]) && PlainAll([]) == [] && AbsorbsAll([], [])
  {
  }

  lemma QuietTogether(a: string, b: string)
    requires Quiet(a) && Quiet(b)
    ensures Quiet(a + b) && Quiet("") && AllWhite(a)
  {
  }

  lemma JoinGap(l: Laid, rest: seq<Laid>)
    ensures Join(l, rest)[0].gap == l.gap
  {
  }

  lemma FirstAbsorbs(settings: Settings, lead: string, n: Node, l: Laid, gap: string)
    requires IsText(l) == IsPlainText(n) && Quiet(lead) && Quiet(gap)
    requires IsPlainText(n) ==> Plain(l) == Leaf(Text, lead + n.value)
    ensures IsPlainText(n) ==>
              l.value == lead + n.value && Absorbs(n, Leaf(Text, l.value + gap)) && Absorbs(n, Plain(l))
  {
    if IsPlainText(n) {
      AroundWith(lead, n.value, gap);
      AroundWith(lead, n.value, "");
      EmptyFront(lead + n.value);
    }
  }

  // ---------------------------------------------------------------------------------------------
  // Printing and reading printable documents
  // ---------------------------------------------------------------------------------------------

  lemma {:induction false} PrintableIsFixed(process: bool, n: Node)
    requires PrintableNode(process, n)
    ensures SendableNode(process, n) && Reread(n) == n && !IsBlank(n)
    decreases n, 0
  {
    match n
    case Leaf(kind, value) => NormalizeFixed(value);
    case Element(name, attributes, children) =>
      forall i | 0 <= i < |attributes|
        ensures RereadAttributes(attributes)[i] == attributes[i]
      {
        assert attributes[i] in attributes;
        NormalizeFixed(attributes[i].value);
      }
      assert RereadAttributes(attributes) == attributes;
      AllPrintableFixed(process, children);
  }

  lemma {:induction false} AllPrintableFixed(process: bool, ns: seq<Node>)
    requires forall n :: n in ns ==> PrintableNode(process, n)
    ensures RereadAll(ns) == ns && forall n :: n in ns ==> SendableNode(process, n)
    decreases ns, 1
  {
    hide PrintableNode, SendableNode, Reread, IsBlank;
    if ns != [] {
      assert ns[0] in ns;
      PrintableIsFixed(process, ns[0]);
      AllPrintableFixed(process, ns[1..]);
      assert [ns[0]] + ns[1..] == ns;
    }
  }

  lemma PrintableIsSendable(process: bool, ns: seq<Node>)
    requires Printable(process, ns)
    ensures Sendable(process, ns) && RereadAll(ns) == ns
  {
    AllPrintableFixed(process, ns);
    hide PrintableNode, SendableNode, Nesting, RereadAll;
  }

  lemma BomIsRead(options: Options, bom: bool, t: string, nodes: seq<Node>)
    requires MarkupAhead(t) && ParseLoop(options, t, true, 1, []) == EndOfInput(nodes)
    ensures ParseDocument(options, (if bom then BOM else "") + t) == Parsed(bom, nodes)
  {
    var text := (if bom then BOM else "") + t;
    hide ParseLoop;
    SkipNothing(text);
    EmptyFront(t);
    if bom {
      Split(BOM, t);
    } else {
      PrefixDiffers(t, BOM, 0);
    }
  }

  /** Printing and reading back a printable document without text at top level, in both modes: the padded document
      comes back. */
  lemma PrintThenParse(settings: Settings, bom: bool, ns: seq<Node>)
    requires Printable(settings.processEntities, ns) && forall n :: n in ns ==> !IsPlainText(n)
    ensures ParseDocument(Options(settings.processEntities, false), PrintDocument(settings, bom, ns))
            == Parsed(bom, PadAll(settings.compact, 0, ns))
  {
    hide LayAll, LeadAfter, PrintNodes, PadAll, Printable, WellSpacedAll, AllOnto, PlainAll, RereadAll, ParseLoop,
         Sendable, PrintDocument, ParseDocument, TextAllowed, IsPlainText, IsBlank, StartsWith;
    var process := settings.processEntities;
    var mark := if bom then BOM else "";
    var st := Put(INITIAL, mark);
    EmptyFront(mark);
    NotEmpty(process, ns);
    PrintedIs(settings, bom, ns);
    NoTextAllowed(st, ns);
    ListLayout(settings, st, "", ns);
    var ls, tail := LayAll(settings, st, "", ns), LeadAfter(settings, st, "", ns);
    DocumentStaysPrintable(process, settings.compact, ns);
    PrintableIsSendable(process, PadAll(settings.compact, 0, ns));
    LaidDocumentIsRead(process, ls, tail);
    NoTextLast(settings.compact, ns);
    FirstIsMarkup(process, ls, tail, ns);
    BomIsRead(Options(process, false), bom, AllOnto(process, ls, tail), PadAll(settings.compact, 0, ns));
  }

  lemma NoTextAllowed(st: PrintState, ns: seq<Node>)
    requires forall n :: n in ns ==> !IsPlainText(n)
    ensures st.depth == 0 ==> TextAllowed(st, "", ns)
  {
  }

  /** The output of a document is its layout. */
  lemma PrintedIs(settings: Settings, bom: bool, ns: seq<Node>)
    requires ns != []
    ensures var st := Put(INITIAL, if bom then BOM else "");
            var ls, tail := LayAll(settings, st, "", ns), LeadAfter(settings, st, "", ns);
            && PrintDocument(settings, bom, ns)
               == (if bom then BOM else "") + AllOnto(settings.processEntities, ls, tail)
            && AllWhite(tail) && |ls| == |ns| && ls[0].gap == ""
  {
    hide LayAll, LeadAfter, PrintNodes, AllOnto;
    var mark := if bom then BOM else "";
    var st := Put(INITIAL, mark);
    EmptyFront(mark);
    NodesPrint(settings, st, mark, "", ns);
    EndIsWhite(settings, st, "", ns);
    FirstGap(settings, st, ns);
    EmptyFront(AllOnto(settings.processEntities, LayAll(settings, st, "", ns), LeadAfter(settings, st, "", ns)));
  }

  lemma NoTextLast(compact: bool, ns: seq<Node>)
    requires ns != [] && forall n :: n in ns ==> !IsPlainText(n)
    ensures !IsPlainText(PadAll(compact, 0, ns)[|ns| - 1]) && !IsPlainText(PadAll(compact, 0, ns)[0])
  {
    hide PadAll;
    assert ns[|ns| - 1] in ns && ns[0] in ns;
    PadKeepsKind(compact, 0, ns, |ns| - 1);
    PadKeepsKind(compact, 0, ns, 0);
  }

  lemma FirstIsMarkup(process: bool, ls: seq<Laid>, tail: string, ns: seq<Node>)
    requires ls != [] && ls[0].gap == "" && Sendable(process, PlainAll(ls)) && !IsPlainText(PlainAll(ls)[0])
    ensures MarkupAhead(AllOnto(process, ls, tail))
  {
    PlainMembers(ls);
    TextIsPlain(ls[0]);
    StartsWithMarkup(process, ls[0], AllOnto(process, ls[1..], tail));
    hide SendableNode, Onto, Nesting;
  }

  lemma FirstGap(settings: Settings, st: PrintState, ns: seq<Node>)
    requires ns != [] && st.firstElement && st.depth == 0
    ensures LayAll(settings, st, "", ns)[0].gap == ""
  {
    hide PrintNode;
    assert Spaces(0) == "";
    assert Gap(settings, st, ns[0]) == "";
  }

  lemma DocumentStaysPrintable(process: bool, compact: bool, ns: seq<Node>)
    requires Printable(process, ns)
    ensures Printable(process, PadAll(compact, 0, ns))
  {
    hide PadAll, PrintableNode, Nesting, Pad, TextBeforeElement, DeclarationsFirst, TextApart, IsPlainText,
         IsDeclaration, Spaces;
    var r := PadAll(compact, 0, ns);
    forall i | 0 <= i < |ns|
      ensures PrintableNode(process, r[i]) && Nesting(r[i]) == Nesting(ns[i])
      ensures IsDeclaration(r[i]) == IsDeclaration(ns[i]) && ns[i] in ns
    {
      assert ns[i] in ns;
      PadKeepsKind(compact, 0, ns, i);
      PadPrintable(process, compact, 0, ns[i]);
      TextStaysPrintable(process, compact, ns, i);
    }
    SameKinds(ns, r);
    PadApart(compact, 0, ns);
  }

  lemma TextStaysPrintable(process: bool, compact: bool, ns: seq<Node>, i: nat)
    requires i < |ns| && PrintableNode(process, ns[i])
    ensures TextBeforeElement(ns, i) ==>
              PrintableNode(process, Leaf(Text, ns[i].value + Spaces(0)))
              && Nesting(Leaf(Text, ns[i].value + Spaces(0))) == 0
    ensures TextBeforeElement(ns, i) ==> Nesting(ns[i]) == 0
  {
    if TextBeforeElement(ns, i) {
      EmptyFront(ns[i].value);
    }
  }

  lemma SameKinds(ns: seq<Node>, r: seq<Node>)
    requires DeclarationsFirst(ns) && |r| == |ns| && forall i :: 0 <= i < |ns| ==>
               IsDeclaration(r[i]) == IsDeclaration(ns[i])
    ensures DeclarationsFirst(r)
  {
  }

  /** The indentation written after a text does not survive a reader that collapses white space. */
  lemma {:induction false} PadThenSquash(compact: bool, depth: nat, ns: seq<Node>)
    ensures SquashAll(PadAll(compact, depth, ns)) == SquashAll(ns)
    decreases ns
  {
    hide Spaces, StringDecoding.Collapse;
    if ns != [] {
      var r, first := PadAll(compact, depth, ns), ns[0];
      PadThenSquash(compact, depth, ns[1..]);
      assert r[1..] == PadAll(compact, depth, ns[1..]);
      if first.Element? {
        PadThenSquash(compact, depth + 1, first.children);
      }
      if TextBeforeElement(ns, 0) {
        EndIsCollapsed(first.value, Spaces(depth));
      }
    }
  }

  const MIXED := [Leaf(Text, "b"), Element("c", [], [])]

  lemma MixedIsPrintable()
    ensures Printable(true, [Element("a", [], MIXED)])
  {
    MixedChildren();
    var a := Element("a", [], MIXED);
    assert PrintableNode(true, a) && Nesting(a) == 1;
    hide PrintableNode, Nesting;
  }

  lemma MixedChildren()
    ensures forall n :: n in MIXED ==> PrintableNode(true, n) && !IsDeclaration(n)
    ensures TextApart(MIXED) && NestingAll(MIXED) == 0
  {
    assert !IsWhiteSpace("b"[0]);
    assert PrintableNode(true, MIXED[0]);
    assert PrintableNode(true, MIXED[1]);
    assert MIXED[1..] == [Element("c", [], [])];
    hide PrintableNode;
  }

  lemma MixedIsPadded()
    ensures PadAll(false, 0, [Element("a", [], MIXED)])
            == [Element("a", [], [Leaf(Text, "b" + Spaces(1)), Element("c", [], [])])]
  {
    var ns := [Element("a", [], MIXED)];
    assert ns[1..] == [] && MIXED[1..] == [Element("c", [], [])] && MIXED[1..][1..] == [];
    assert PadAll(false, 2, []) == [] && PadAll(false, 1, []) == [];
    assert PadAll(false, 1, MIXED[1..]) == [Element("c", [], [])];
    assert TextBeforeElement(MIXED, 0);
    assert PadAll(false, 1, MIXED) == [Leaf(Text, "b" + Spaces(1))] + PadAll(false, 1, MIXED[1..]);
    assert PadAll(false, 1, MIXED) == [Leaf(Text, "b" + Spaces(1)), Element("c", [], [])];
    assert Pad(false, 0, ns[0]) == Element("a", [], PadAll(false, 1, MIXED));
    assert PadAll(false, 0, []) == [] && !TextBeforeElement(ns, 0);
    assert PadAll(false, 0, ns) == [Pad(false, 0, ns[0])] + PadAll(false, 0, ns[1..]);
  }

  /** Plain text in front of an element comes back longer when the output is indented. */
  lemma IndentedTextGrows()
    ensures Printable(true, [Element("a", [], MIXED)])
    ensures ParseDocument(Options(true, false), PrintDocument(Settings(false, true), false, [Element("a", [], MIXED)]))
            == Parsed(false, [Element("a", [], [Leaf(Text, "b    "), Element("c", [], [])])])
  {
    hide Printable, PadAll, ParseDocument, PrintDocument;
    MixedIsPrintable();
    MixedIsPadded();
    PrintThenParse(Settings(false, true), false, [Element("a", [], MIXED)]);
    assert "b" + Spaces(1) == "b    ";
  }
}
