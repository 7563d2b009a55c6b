/** What reading a printed document gives, text at top level included: where the printer's line breaks disturb it, and
    what its first and last nodes do. */
module SentDocuments {
  import opened Optional
  import opened XmlChars
  import opened StringEscaping
  import opened XmlParsing
  import opened Dom
  import opened Layout
  import opened RoundTrip
  import opened XmlPrinting
  import opened PrintedLayout
  import opened PrintParse
  import StringDecoding

  // ---------------------------------------------------------------------------------------------
  // The printer's line breaks at top level
  // ---------------------------------------------------------------------------------------------

  /** The printer starts these on a new line, once it has started any of them. */
  predicate Starts(n: Node) {
    n.Element? || !(n.kind.Text? || n.kind.CData?)
  }

  /** Indented output adds nothing to any text: at top level none stands behind an element, or in front of a node that
      starts on a new line, and inside elements none stands in front of an element. */
  predicate Undisturbed(started: bool, afterElement: bool, ns: seq<Node>)
    decreases |ns|
  {
    ns == [] ||
    (&& (IsPlainText(ns[0]) ==> !afterElement && !(started && |ns| > 1 && Starts(ns[1])))
     && (ns[0].Element? ==> !HasTextBeforeElement(ns[0].children))
     && Undisturbed(started || Starts(ns[0]), ns[0].Element?, ns[1..]))
  }

  /** No text stays open outside of what it is in. */
  lemma {:induction false} TextCloses(settings: Settings, st: PrintState, n: Node)
    requires st.textDepth < st.depth
    ensures var r := PrintNode(settings, st, n);
            r.textDepth < st.depth && r.firstElement == (st.firstElement && !Starts(n))
    decreases n, 0
  {
    if n.Element? {
      hide PrintNodes, PushAttributes;
      AttributesKeepStack(settings, OpenElement(st, n.name, settings.compact), n.attributes);
      var inner := PushAttributes(settings, OpenElement(st, n.name, settings.compact), n.attributes);
      AllTextCloses(settings, inner, n.children);
    }
  }

  lemma {:induction false} AllTextCloses(settings: Settings, st: PrintState, ns: seq<Node>)
    requires st.textDepth < st.depth
    ensures var r := PrintNodes(settings, st, ns);
            r.textDepth < st.depth && (!st.firstElement ==> !r.firstElement)
    decreases ns, 1
  {
    hide PrintNode;
    if ns != [] {
      TextCloses(settings, st, ns[0]);
      AllTextCloses(settings, PrintNode(settings, st, ns[0]), ns[1..]);
    }
  }

  /** The layout is the tree itself exactly when nothing disturbs it. */
  lemma {:induction false} TopFixed(settings: Settings, st: PrintState, lead: string, ns: seq<Node>)
    requires st.depth == 0 && st.textDepth < 0 && (lead == "" || lead == "\n") && (settings.compact ==> lead == "")
    ensures PlainAll(LayAll(settings, st, lead, ns)) == ns
            <==> settings.compact || Undisturbed(!st.firstElement, lead != "", ns)
    decreases ns
  {
    hide PrintNode, Lay, LayAll, Trail, Plain, PlainAll, Join, HasTextBeforeElement, Undisturbed, Starts, WellSpaced,
         TextAllowed;
    LayAllHead(settings, st, lead, ns);
    if ns == [] {
      NothingLaid();
      NothingDisturbed(!st.firstElement, lead != "");
    } else {
      var n, more := ns[0], ns[1..];
      var next, trail := PrintNode(settings, st, n), Trail(settings, st, n);
      TextCloses(settings, st, n);
      NodeLayout(settings, st, lead, n);
      var l, rest := Lay(settings, st, lead, n), LayAll(settings, next, trail, more);
      FirstFixed(settings, st, next, lead, n, l, more);
      TopFixed(settings, next, trail, more);
      JoinPlain(l, rest);
      var head := if IsText(l) && rest != [] then Leaf(Text, l.value + rest[0].gap) else Plain(l);
      assert ns == [n] + more;
      Heads(head, PlainAll(rest), n, more);
      UndisturbedStep(!st.firstElement, lead != "", ns);
    }
  }

  lemma LayAllHead(settings: Settings, st: PrintState, lead: string, ns: seq<Node>)
    ensures LayAll(settings, st, lead, ns) ==
              if ns == [] then []
              else Join(Lay(settings, st, lead, ns[0]),
                        LayAll(settings, PrintNode(settings, st, ns[0]), Trail(settings, st, ns[0]), ns[1..]))
  {
    hide Lay, Join, PrintNode, Trail;
  }

  lemma Heads(a: Node, s: seq<Node>, b: Node, t: seq<Node>)
    ensures [a] + s == [b] + t <==> a == b && s == t
  {
    if [a] + s == [b] + t {
      assert ([a] + s)[0] == ([b] + t)[0];
      assert ([a] + s)[1..] == ([b] + t)[1..];
    }
  }

  lemma NothingDisturbed(started: bool, afterElement: bool)
    ensures Undisturbed(started, afterElement, [])
  {
  }

  lemma UndisturbedStep(started: bool, afterElement: bool, ns: seq<Node>)
    requires ns != []
    ensures Undisturbed(started, afterElement, ns)
            <==> (IsPlainText(ns[0]) ==> !afterElement && !(started && |ns| > 1 && Starts(ns[1])))
                 && (ns[0].Element? ==> !HasTextBeforeElement(ns[0].children))
                 && Undisturbed(started || Starts(ns[0]), ns[0].Element?, ns[1..])
  {
  }

  /** The first node is laid out as itself exactly when nothing is added to it. */
  lemma FirstFixed(settings: Settings, st: PrintState, next: PrintState, lead: string, n: Node, l: Laid,
                   more: seq<Node>)
    requires st.depth == 0 && (settings.compact ==> lead == "") && next == PrintNode(settings, st, n)
    requires next.textDepth < 0 && next.firstElement == (st.firstElement && !Starts(n))
    requires IsText(l) == IsPlainText(n)
    requires Plain(l) == if IsPlainText(n) then Leaf(Text, lead + n.value) else Pad(settings.compact, 0, n)
    ensures var rest := LayAll(settings, next, Trail(settings, st, n), more);
            var head := if IsText(l) && rest != [] then Leaf(Text, l.value + rest[0].gap) else Plain(l);
            head == n <==> settings.compact
                           || ((IsPlainText(n) ==> lead == "" && !(!st.firstElement && more != [] && Starts(more[0])))
                               && (n.Element? ==> !HasTextBeforeElement(n.children)))
    ensures Trail(settings, st, n) == if n.Element? && !settings.compact then "\n" else ""
    ensures |LayAll(settings, next, Trail(settings, st, n), more)| == |more|
  {
    hide PrintNode, HasTextBeforeElement, Pad, LayAll, Plain, Starts, IsText;
    TextStartsNothing(n);
    if IsPlainText(n) {
      TextFixed(settings, next, lead, n, l, more);
    } else {
      NodeFixed(settings.compact, n);
    }
  }

  lemma TextStartsNothing(n: Node)
    ensures IsPlainText(n) ==> !Starts(n)
  {
  }

  lemma NodeFixed(compact: bool, n: Node)
    requires !IsPlainText(n)
    ensures Pad(compact, 0, n) == n <==> compact || (n.Element? ==> !HasTextBeforeElement(n.children))
  {
    hide HasTextBeforeElement, PadAll;
    if n.Element? {
      PadChangesOnly(compact, 1, n.children);
    }
  }

  lemma TextFixed(settings: Settings, next: PrintState, lead: string, n: Node, l: Laid, more: seq<Node>)
    requires IsPlainText(n) && IsText(l) && Plain(l) == Leaf(Text, lead + n.value) && (settings.compact ==> lead == "")
    requires next.depth == 0 && next.textDepth < 0
    ensures var rest := LayAll(settings, next, "", more);
            var head := if rest != [] then Leaf(Text, l.value + rest[0].gap) else Plain(l);
            head == n <==> settings.compact || (lead == "" && !(!next.firstElement && more != [] && Starts(more[0])))
  {
    hide LayAll;
    PlainOfText(l);
    EmptyFront(n.value);
    if more != [] {
      TopGap(settings, next, more);
      Longer(lead, n.value, LayAll(settings, next, "", more)[0].gap);
    } else {
      Longer(lead, n.value, "");
      EmptyFront(lead + n.value);
    }
  }

  lemma Longer(a: string, v: string, b: string)
    ensures a + v + b == v <==> a == "" && b == ""
  {
    if a + v + b == v {
      assert |a + v + b| == |a| + |v| + |b|;
    }
    EmptyFront(v);
  }

  /** White space in front of a node at top level that does not follow an element. */
  lemma TopGap(settings: Settings, st: PrintState, ns: seq<Node>)
    requires ns != [] && st.depth == 0 && st.textDepth < 0
    ensures var gap := LayAll(settings, st, "", ns)[0].gap;
            gap == "" <==> settings.compact || !(!st.firstElement && Starts(ns[0]))
  {
    hide PrintNode;
    var rest := LayAll(settings, PrintNode(settings, st, ns[0]), Trail(settings, st, ns[0]), ns[1..]);
    JoinGap(Lay(settings, st, "", ns[0]), rest);
    EmptyFront(Gap(settings, st, ns[0]));
    assert Spaces(0) == "";
  }

  // ---------------------------------------------------------------------------------------------
  // The start of the document
  // ---------------------------------------------------------------------------------------------

  /** Reading a document is running the loop behind white space and the byte order mark. */
  lemma ByLoop(options: Options, text: string, bom: bool, x: seq<Node>)
    requires x != []
    ensures var s := SkipWhite(text);
            var t := if StartsWith(s, BOM) then s[3..] else s;
            var r := ParseLoop(options, t, true, 1, []);
            ParseDocument(options, text) == Parsed(bom, x)
            <==> bom == StartsWith(s, BOM) && !r.Failed? && r.children == x
  {
    hide ParseLoop;
    var s := SkipWhite(text);
    var t := if StartsWith(s, BOM) then s[3..] else s;
    AtEndLoop(options, t);
    if AtEnd(text) {
      EndSkips(text);
    }
  }

  lemma AtEndLoop(options: Options, t: string)
    ensures AtEnd(t) ==> ParseLoop(options, t, true, 1, []) == EndOfInput([])
  {
  }

  lemma EndSkips(text: string)
    requires AtEnd(text)
    ensures SkipWhite(text) == text && !StartsWith(text, BOM)
  {
    SkipNothing(text);
    PrefixDiffers(text, BOM, 0);
  }

  /** What the loop makes of a laid-out document; nothing when its last text is not ended. */
  ghost function Gives(ls: seq<Laid>): Option<seq<Node>> {
    if ls != [] && IsPlainText(PlainAll(ls)[|ls| - 1]) && !IsBlank(PlainAll(ls)[|ls| - 1]) then None
    else Some(RereadAll(PlainAll(ls)))
  }

  /** A laid-out document, as the printer leaves it. */
  ghost predicate Ready(process: bool, ls: seq<Laid>, tail: string) {
    ls != [] && Sendable(process, PlainAll(ls)) && WellSpacedAll(ls) && AllWhite(tail) && ls[0].gap == ""
  }

  lemma LoopGives(process: bool, ls: seq<Laid>, tail: string, x: seq<Node>)
    requires Ready(process, ls, tail)
    ensures var r := ParseLoop(Options(process, false), AllOnto(process, ls, tail), true, 1, []);
            !r.Failed? && r.children == x <==> Gives(ls) == Some(x)
  {
    hide ParseLoop, Sendable, AllOnto, PlainAll, RereadAll, IsBlank, WellSpacedAll;
    LaidDocumentIsRead(process, ls, tail);
  }

  /** Behind a byte order mark, all of the text counts. */
  lemma MarkedIsRead(process: bool, ls: seq<Laid>, tail: string, x: seq<Node>)
    requires Ready(process, ls, tail) && x != []
    ensures ParseDocument(Options(process, false), BOM + AllOnto(process, ls, tail)) == Parsed(true, x)
            <==> Gives(ls) == Some(x)
  {
    hide ParseLoop, ParseDocument, AllOnto, Ready, Gives, WhiteLead;
    var text := BOM + AllOnto(process, ls, tail);
    SkipNothing(text);
    Split(BOM, AllOnto(process, ls, tail));
    ByLoop(Options(process, false), text, true, x);
    LoopGives(process, ls, tail, x);
  }

  /** The first node is a text that is not white. */
  ghost predicate TextFirst(ls: seq<Laid>)
    requires ls != []
  {
    IsText(ls[0]) && !AllWhite(ls[0].value)
  }

  lemma SecondStarts(process: bool, ls: seq<Laid>, tail: string)
    requires Ready(process, ls, tail) && IsText(ls[0])
    ensures var rest := AllOnto(process, ls[1..], tail);
            NoTextAhead(rest)
            && (rest != "" ==> rest[0] as int < 128) && WellSpaced(ls[0]) && SendableNode(process, Plain(ls[0]))
  {
    hide SendableNode, Nesting, Onto, WellSpaced;
    DocumentReadable(process, ls);
    ReadableRest(process, ls, 1);
    if |ls| > 1 {
      assert ls[1] in ls && ls[1] == ls[1..][0];
      StartsWithMarkup(process, ls[1], AllOnto(process, ls[1..][1..], tail));
      MarkupIsNoText(AllOnto(process, ls[1..], tail));
    } else {
      assert ls[1..] == [];
      SkipWhiteGap(tail, "");
      assert tail + "" == tail;
    }
  }

  lemma FirstStops(process: bool, ls: seq<Laid>, tail: string)
    requires Ready(process, ls, tail) && !TextFirst(ls)
    ensures NoTextAhead(AllOnto(process, ls, tail))
  {
    hide Sendable, WellSpacedAll, Onto, Plain, PlainAll, SendableNode, NoTextAhead, MarkupAhead, WellSpaced;
    FirstOnto(process, ls, tail);
    var rest := AllOnto(process, ls[1..], tail);
    if IsText(ls[0]) {
      SecondStarts(process, ls, tail);
      BlankOnto(process, ls[0], rest);
      PassedIsNoText(ls[0].value, rest);
    } else {
      FirstIsPlain(ls);
      TextIsPlain(ls[0]);
      FirstIsMarkup(process, ls, tail, PlainAll(ls));
      MarkupIsNoText(AllOnto(process, ls, tail));
    }
  }

  lemma FirstIsPlain(ls: seq<Laid>)
    requires ls != []
    ensures PlainAll(ls)[0] == Plain(ls[0])
  {
  }

  lemma PassedIsNoText(gap: string, tail: string)
    requires AllWhite(gap) && NoTextAhead(tail)
    ensures NoTextAhead(gap + tail)
  {
    SkipMore(gap, tail);
  }

  /** Without mark, and markup or white space first. */
  lemma MarkupFirstIsRead(process: bool, ls: seq<Laid>, tail: string, x: seq<Node>)
    requires Ready(process, ls, tail) && x != [] && !TextFirst(ls)
    ensures ParseDocument(Options(process, false), AllOnto(process, ls, tail)) == Parsed(false, x)
            <==> Gives(ls) == Some(x)
  {
    hide ParseLoop, ParseDocument, AllOnto, Ready, Gives, TextFirst;
    var options, text := Options(process, false), AllOnto(process, ls, tail);
    FirstStops(process, ls, tail);
    LeadIsPassed(options, text);
    ByLoop(options, text, false, x);
    LoopGives(process, ls, tail, x);
  }

  lemma LeadIsPassed(options: Options, text: string)
    requires NoTextAhead(text)
    ensures !StartsWith(SkipWhite(text), BOM)
    ensures ParseLoop(options, SkipWhite(text), true, 1, []) == ParseLoop(options, text, true, 1, [])
  {
    hide ParseLoop, WhiteLead, StartsWith;
    var lead, s := text[..WhiteLead(text)], SkipWhite(text);
    LeadIsWhite(text);
    PrefixDiffers(s, BOM, 0);
    SkipNothing(s);
    WhiteIsPassed(options, lead, s, true, 1, []);
  }

  lemma LeadIsWhite(text: string)
    ensures AllWhite(text[..WhiteLead(text)]) && text == text[..WhiteLead(text)] + SkipWhite(text)
  {
    hide IsWhiteSpace, WhiteLead;
  }

  /** The layout without the white space its first text starts with. */
  ghost function Trimmed(ls: seq<Laid>): (r: seq<Laid>)
    requires ls != [] && IsText(ls[0])
    ensures |r| == |ls|
  {
    [ls[0].(value := SkipWhite(ls[0].value))] + ls[1..]
  }

  /** Without mark, white space in front of a first text is lost, and a text may be taken for a mark. */
  lemma TextFirstIsRead(process: bool, ls: seq<Laid>, tail: string, x: seq<Node>)
    requires Ready(process, ls, tail) && x != [] && TextFirst(ls)
    ensures ParseDocument(Options(process, false), AllOnto(process, ls, tail)) == Parsed(false, x)
            <==> !StartsWith(SkipWhite(ls[0].value), BOM) && Gives(Trimmed(ls)) == Some(x)
  {
    hide ParseLoop, ParseDocument, AllOnto, Gives, WhiteLead, Trimmed, Sendable, WellSpacedAll;
    var options, text := Options(process, false), AllOnto(process, ls, tail);
    TrimmedReady(process, ls, tail);
    TrimmedText(process, ls, tail);
    ByLoop(options, text, false, x);
    LoopGives(process, Trimmed(ls), tail, x);
  }

  lemma TrimmedReady(process: bool, ls: seq<Laid>, tail: string)
    requires Ready(process, ls, tail) && TextFirst(ls)
    ensures Ready(process, Trimmed(ls), tail)
  {
    hide Sendable, WellSpacedAll, SkipWhite, Plain, PlainAll, SendableNode;
    var w := SkipWhite(ls[0].value);
    TrimmedPlain(ls);
    FirstIsPlain(ls);
    TrimmedSendable(process, PlainAll(ls), w);
    TrimmedSpacing(ls, w);
  }

  lemma TrimmedPlain(ls: seq<Laid>)
    requires ls != [] && IsText(ls[0])
    ensures PlainAll(Trimmed(ls)) == [Leaf(Text, SkipWhite(ls[0].value))] + PlainAll(ls)[1..]
    ensures PlainAll(ls) != [] && PlainAll(ls)[0] == Leaf(Text, ls[0].value)
  {
    hide SkipWhite;
    assert Trimmed(ls)[1..] == ls[1..];
  }

  lemma TrimmedSendable(process: bool, ms: seq<Node>, w: string)
    requires ms != [] && Sendable(process, ms) && IsPlainText(ms[0]) && w == SkipWhite(ms[0].value)
    ensures Sendable(process, [Leaf(Text, w)] + ms[1..])
  {
    hide Nesting, SendableNode, WhiteLead;
    var rs := [Leaf(Text, w)] + ms[1..];
    assert ms[0] in ms && forall n :: n in rs ==> n == Leaf(Text, w) || n in ms;
    FewerBytes(process, ms[0].value);
    LeavesAreFlat(w);
    assert forall i :: 0 < i < |rs| ==> rs[i] == ms[i];
  }

  lemma FewerBytes(process: bool, v: string)
    ensures SendableNode(process, Leaf(Text, v)) ==> SendableNode(process, Leaf(Text, SkipWhite(v)))
  {
    SkipKeeps(v);
    hide WhiteLead;
  }

  lemma LeavesAreFlat(w: string)
    ensures Nesting(Leaf(Text, w)) == 0
  {
  }

  lemma TrimmedSpacing(ls: seq<Laid>, w: string)
    requires ls != [] && WellSpacedAll(ls) && IsText(ls[0])
    ensures WellSpacedAll([ls[0].(value := w)] + ls[1..])
  {
    hide WellSpaced, WellSpacedAll;
    WellSpacedTail(ls);
    PlainOfText(ls[0]);
    WellSpacedCons(ls[0].(value := w), ls[1..]);
  }

  lemma SkipKeeps(v: string)
    ensures forall c :: c in SkipWhite(v) ==> c in v
  {
  }

  lemma TrimmedText(process: bool, ls: seq<Laid>, tail: string)
    requires Ready(process, ls, tail) && TextFirst(ls)
    ensures SkipWhite(AllOnto(process, ls, tail)) == AllOnto(process, Trimmed(ls), tail)
    ensures StartsWith(AllOnto(process, Trimmed(ls), tail), BOM) <==> StartsWith(SkipWhite(ls[0].value), BOM)
  {
    hide Sendable, WellSpacedAll, Onto, AllOnto, Plain, PlainAll, SendableNode, WellSpaced, NoTextAhead;
    var v, rest := ls[0].value, AllOnto(process, ls[1..], tail);
    SecondStarts(process, ls, tail);
    FirstOnto(process, ls, tail);
    FirstOnto(process, Trimmed(ls), tail);
    assert Trimmed(ls)[1..] == ls[1..];
    TextIs(process, ls[0]);
    TextOnto(process, v, rest);
    TextOnto(process, SkipWhite(v), rest);
    TrimmedEscape(process, v, rest);
    MarkSeen(process, SkipWhite(v), rest);
  }

  lemma TextIs(process: bool, l: Laid)
    requires IsText(l) && WellSpaced(l) && SendableNode(process, Plain(l))
    ensures l == LaidLeaf("", Text, l.value) && NulFree(l.value) && (!process ==> '<' !in l.value)
  {
  }

  lemma TrimmedEscape(process: bool, v: string, rest: string)
    requires !AllWhite(v) && NulFree(v) && (!process ==> '<' !in v)
    ensures SkipWhite(Escape(process, true, v) + rest) == Escape(process, true, SkipWhite(v)) + rest
  {
    var n := WhiteLead(v);
    var w := v[n..];
    assert v == v[..n] + w;
    WhiteStops(v);
    hide WhiteLead;
    EscapeConcat(process, true, v[..n], w);
    EscapeWhite(process, true, v[..n]);
    var e := Escape(process, true, w);
    EscapeStarts(process, w);
    hide Escape;
    assert v[..n] + e + rest == v[..n] + (e + rest);
    SkipMore(v[..n], e + rest);
    SkipNothing(e + rest);
  }

  lemma WhiteStops(v: string)
    requires !AllWhite(v)
    ensures SkipWhite(v) != "" && !IsWhiteSpace(SkipWhite(v)[0])
  {
  }

  lemma MarkSeen(process: bool, w: string, rest: string)
    requires rest != "" ==> rest[0] as int < 128
    ensures StartsWith(Escape(process, true, w) + rest, BOM) <==> StartsWith(w, BOM)
  {
    if StartsWith(w, BOM) {
      var v := w[3..];
      assert w == BOM + v;
      EscapeConcat(process, true, BOM, v);
      BomIsPlain(process);
      hide Escape;
      assert BOM + Escape(process, true, v) + rest == BOM + (Escape(process, true, v) + rest);
      Split(BOM, Escape(process, true, v) + rest);
    }
    if StartsWith(Escape(process, true, w) + rest, BOM) {
      MarkThree(process, w, rest);
    }
  }

  lemma BomIsPlain(process: bool)
    ensures Escape(process, true, BOM) == BOM
  {
    assert BOM[1..] == [BOM[1], BOM[2]] && BOM[1..][1..] == [BOM[2]] && BOM[1..][1..][1..] == [];
    assert Escape(process, true, [BOM[2]]) == [BOM[2]] + Escape(process, true, []);
    assert Escape(process, true, [BOM[1], BOM[2]]) == [BOM[1]] + Escape(process, true, [BOM[2]]);
  }

  lemma HighByte(process: bool, w: string, rest: string)
    requires (rest != "" ==> rest[0] as int < 128) && At(Escape(process, true, w) + rest, 0) as int >= 128
    ensures w != "" && w[0] == At(Escape(process, true, w) + rest, 0)
    ensures (Escape(process, true, w) + rest)[1..] == Escape(process, true, w[1..]) + rest
  {
    NothingEscaped(process, rest);
    if w != "" {
      assert w == [w[0]] + w[1..];
    }
  }

  lemma NothingEscaped(process: bool, rest: string)
    ensures Escape(process, true, "") + rest == rest
  {
  }

  lemma MarkThree(process: bool, w: string, rest: string)
    requires (rest != "" ==> rest[0] as int < 128) && StartsWith(Escape(process, true, w) + rest, BOM)
    ensures StartsWith(w, BOM)
  {
    var s := Escape(process, true, w) + rest;
    assert forall i :: 0 <= i < 3 ==> s[i] == s[..3][i];
    hide Escape;
    HighByte(process, w, rest);
    HighByte(process, w[1..], rest);
    HighByte(process, w[2..], rest) by {
      assert w[1..][1..] == w[2..];
      assert s[1..][1..] == s[2..];
    }
    assert w[..3] == [w[0], w[1], w[2]];
  }
}
