/** The round trip laws: which documents come back from printing and reading, for all documents and all settings, and
    which parsed documents come back from being printed again. */
module RoundTrips {
  import opened Optional
  import opened XmlChars
  import opened StringEscaping
  import opened XmlParsing
  import opened Dom
  import opened Layout
  import opened XmlPrinting
  import opened PrintedLayout
  import opened PrintParse
  import opened WhitespaceModes
  import opened Rereading
  import opened SentDocuments
  import opened QuotedValues
  import opened ParsedTrees
  import RoundTrip
  import StringDecoding
  import CharacterReferences
  import TagNesting

  /** Without a byte order mark, a text that comes first neither starts with white space nor looks like a mark. */
  predicate FirstFine(bom: bool, n: Node) {
    IsPlainText(n) && !bom ==> n.value != "" && !IsWhiteSpace(n.value[0]) && !StartsWith(n.value, BOM)
  }

  /** The documents that come back. */
  predicate ComesBack(settings: Settings, collapse: bool, bom: bool, ns: seq<Node>) {
    && Printable(settings.processEntities, ns)
    && !IsPlainText(ns[|ns| - 1]) && FirstFine(bom, ns[0])
    && if collapse then forall n :: n in ns ==> AllCollapsed(n) else settings.compact || Undisturbed(false, false, ns)
  }

  // ---------------------------------------------------------------------------------------------
  // What reading gives
  // ---------------------------------------------------------------------------------------------

  /** What a reader without collapsing makes of the layout, if it reads the same mark. */
  ghost function Final(bom: bool, ls: seq<Laid>): Option<seq<Node>>
    requires ls != []
  {
    if bom || !TextFirst(ls) then Gives(ls)
    else if StartsWith(SkipWhite(ls[0].value), BOM) then None
    else Gives(Trimmed(ls))
  }

  lemma SentGives(process: bool, bom: bool, ls: seq<Laid>, tail: string, x: seq<Node>)
    requires Ready(process, ls, tail) && x != []
    ensures ParseDocument(Options(process, false), (if bom then BOM else "") + AllOnto(process, ls, tail))
            == Parsed(bom, x)
            <==> Final(bom, ls) == Some(x)
  {
    hide ParseDocument, AllOnto, Gives, TextFirst, Trimmed, WhiteLead, Sendable, WellSpacedAll;
    EmptyFront(AllOnto(process, ls, tail));
    if bom {
      MarkedIsRead(process, ls, tail, x);
    } else if TextFirst(ls) {
      TextFirstIsRead(process, ls, tail, x);
    } else {
      MarkupFirstIsRead(process, ls, tail, x);
    }
  }

  /** The layout of a sendable document is ready to be read. */
  lemma SentIsReady(settings: Settings, bom: bool, ns: seq<Node>)
    requires Sendable(settings.processEntities, ns)
    ensures var st := Put(INITIAL, if bom then BOM else "");
            var ls, tail := LayAll(settings, st, "", ns), LeadAfter(settings, st, "", ns);
            && Ready(settings.processEntities, ls, tail) && AbsorbsAll(ns, PlainAll(ls)) && |ls| == |ns|
            && PrintDocument(settings, bom, ns)
               == (if bom then BOM else "") + AllOnto(settings.processEntities, ls, tail)
            && (PlainAll(ls) == ns <==> settings.compact || Undisturbed(false, false, ns))
  {
    hide LayAll, LeadAfter, AllOnto, PrintDocument, PlainAll, Sendable, AbsorbsAll, WellSpacedAll, Undisturbed;
    NotEmpty(settings.processEntities, ns);
    var st := Put(INITIAL, if bom then BOM else "");
    PrintedIs(settings, bom, ns);
    TopLayout(settings, st, "", ns);
    TopFixed(settings, st, "", ns);
    AbsorbedSendable(settings.processEntities, ns, PlainAll(LayAll(settings, st, "", ns)));
  }

  lemma SentReads(settings: Settings, collapse: bool, bom: bool, ns: seq<Node>)
    requires Sendable(settings.processEntities, ns)
    ensures var ls := LayAll(settings, Put(INITIAL, if bom then BOM else ""), "", ns);
            && ls != []
            && (ParseDocument(Options(settings.processEntities, collapse), PrintDocument(settings, bom, ns))
                == Parsed(bom, ns)
                <==> Final(bom, ls).Some? && Kept(collapse, Final(bom, ls).value) == ns)
  {
    hide LayAll, LeadAfter, AllOnto, PrintDocument, ParseDocument, Final, PlainAll, Sendable, AbsorbsAll, WellSpacedAll,
         Undisturbed, SquashAll;
    NotEmpty(settings.processEntities, ns);
    SentIsReady(settings, bom, ns);
    var process, st := settings.processEntities, Put(INITIAL, if bom then BOM else "");
    var ls, tail := LayAll(settings, st, "", ns), LeadAfter(settings, st, "", ns);
    var text := PrintDocument(settings, bom, ns);
    ReadersAgree(Options(process, collapse), text);
    var d := ParseDocument(Options(process, false), text);
    if d.Parsed? && d.children != [] {
      SentGives(process, bom, ls, tail, d.children);
    }
    if Final(bom, ls).Some? && Final(bom, ls).value != [] {
      SentGives(process, bom, ls, tail, Final(bom, ls).value);
    }
  }

  // ---------------------------------------------------------------------------------------------
  // When that is the document printed
  // ---------------------------------------------------------------------------------------------

  lemma PrintableSteady(process: bool, ns: seq<Node>)
    requires Sendable(process, ns)
    ensures Printable(process, ns) <==> forall n :: n in ns ==> Steady(n)
  {
    hide PrintableNode, SendableNode, Steady, Nesting;
    forall n | n in ns
      ensures PrintableNode(process, n) <==> SendableNode(process, n) && Steady(n)
    {
      PrintableExactly(process, n);
    }
  }

  lemma EndsMatch(ns: seq<Node>, ls: seq<Laid>)
    requires ns != [] && |ls| == |ns| && AbsorbsAll(ns, PlainAll(ls))
    ensures TextFirst(ls) <==> IsPlainText(ns[0]) && !IsBlank(ns[0])
    ensures TextFirst(ls) ==> Around(ns[0].value, ls[0].value)
    ensures Gives(ls) == if IsPlainText(ns[|ns| - 1]) && !IsBlank(ns[|ns| - 1]) then None
            else Some(RereadAll(PlainAll(ls)))
  {
    hide Plain, Steady;
    var ms, n := PlainAll(ls), |ns| - 1;
    assert Absorbs(ns[0], ms[0]) && Absorbs(ns[n], ms[n]);
    BlankBack(ns[0], ms[0]);
    BlankBack(ns[n], ms[n]);
    RoundTrip.TextParts(ls[0]);
    if IsText(ls[0]) {
      PlainOfText(ls[0]);
    }
    hide RereadAll, PlainAll;
  }

  /** Everything but a first text without a mark. */
  lemma UsualBack(settings: Settings, collapse: bool, bom: bool, ns: seq<Node>, ls: seq<Laid>)
    requires Sendable(settings.processEntities, ns) && |ls| == |ns| && AbsorbsAll(ns, PlainAll(ls))
    requires PlainAll(ls) == ns <==> settings.compact || Undisturbed(false, false, ns)
    requires !IsBlank(ns[0]) ==> FirstFine(bom, ns[0])
    ensures Gives(ls).Some? && Kept(collapse, Gives(ls).value) == ns <==> ComesBack(settings, collapse, bom, ns)
  {
    hide Sendable, Printable, AbsorbsAll, PlainAll, RereadAll, Undisturbed, Steady, AllCollapsed, Kept, Gives,
         TextFirst, IsBlank, FirstFine;
    NotEmpty(settings.processEntities, ns);
    EndsMatch(ns, ls);
    PrintableSteady(settings.processEntities, ns);
    ListBack(collapse, ns, PlainAll(ls));
    assert ns[0] in ns && ns[|ns| - 1] in ns;
    BlankIsUnsteady(ns[0]);
    BlankIsUnsteady(ns[|ns| - 1]);
  }

  lemma BlankIsUnsteady(n: Node)
    ensures IsBlank(n) ==> !Steady(n)
  {
  }

  /** A first text that starts with white space loses it. */
  lemma LeadIsLost(settings: Settings, collapse: bool, ns: seq<Node>, ls: seq<Laid>)
    requires ns != [] && |ls| == |ns| && AbsorbsAll(ns, PlainAll(ls)) && TextFirst(ls) && IsPlainText(ns[0])
    requires ns[0].value != "" && IsWhiteSpace(ns[0].value[0])
    ensures !(Gives(Trimmed(ls)).Some? && Kept(collapse, Gives(Trimmed(ls)).value) == ns)
  {
    var w := SkipWhite(ls[0].value);
    TrimmedPlain(ls);
    WhiteStops(ls[0].value);
    hide WhiteLead, Plain, PlainAll;
    var rs := PlainAll(Trimmed(ls));
    RereadHead(collapse, rs);
    TextStarts(collapse, w);
    hide RereadAll, SquashAll, Squash, Trimmed, AbsorbsAll, StringDecoding.Collapse, Normalize;
    assert KeptNode(collapse, Reread(Leaf(Text, w))) == Leaf(Text, KeptText(collapse, Normalize(w))) by {
      KeptOfText(collapse, w);
    }
  }

  lemma KeptOfText(collapse: bool, w: string)
    ensures KeptNode(collapse, Reread(Leaf(Text, w))) == Leaf(Text, KeptText(collapse, Normalize(w)))
  {
    hide StringDecoding.Collapse, Normalize;
  }

  lemma TextStarts(collapse: bool, w: string)
    requires w != "" && !IsWhiteSpace(w[0])
    ensures var r := KeptText(collapse, Normalize(w)); r != "" && !IsWhiteSpace(r[0])
    ensures !IsBlank(Leaf(Text, w))
  {
    assert Normalize(w) == [w[0]] + Normalize(w[1..]);
    hide Normalize;
    SkipFirst(Normalize(w));
  }

  lemma SkipFirst(s: string)
    requires s != "" && !IsWhiteSpace(s[0])
    ensures StringDecoding.Collapse(s) != "" && StringDecoding.Collapse(s)[0] == s[0]
  {
    RoundTrip.SkipNothing(s);
    hide WhiteLead;
  }

  /** A first text without white space in front is read as it is laid out, unless it looks like a mark. */
  lemma LeadIsKept(v: string, w: string, ls: seq<Laid>)
    requires ls != [] && IsText(ls[0]) && ls[0].value == w && exists b :: w == v + b && Quiet(b)
    requires v != "" && !IsWhiteSpace(v[0])
    ensures SkipWhite(w) == w && Trimmed(ls) == ls && (StartsWith(w, BOM) <==> StartsWith(v, BOM))
  {
    var b :| w == v + b && Quiet(b);
    RoundTrip.SkipNothing(w);
    hide WhiteLead;
    assert [ls[0]] + ls[1..] == ls;
    if StartsWith(v, BOM) {
      assert w[..3] == v[..3];
    } else if StartsWith(w, BOM) {
      MarkInside(v, b);
    }
  }

  lemma MarkInside(v: string, b: string)
    requires StartsWith(v + b, BOM) && Quiet(b)
    ensures StartsWith(v, BOM)
  {
    var w := v + b;
    assert forall i :: 0 <= i < 3 ==> w[i] == w[..3][i];
    assert |v| < 3 ==> w[|v|] == b[0] && IsWhiteSpace(b[0]);
    assert |v| >= 3 ==> v[..3] == w[..3];
  }

  /** The first text of the layout is the text itself with white space behind it. */
  lemma FirstText(settings: Settings, st: PrintState, ns: seq<Node>)
    requires ns != [] && IsPlainText(ns[0]) && st.depth == 0
    ensures var ls := LayAll(settings, st, "", ns);
            ls != [] && IsText(ls[0]) && exists b :: ls[0].value == ns[0].value + b && Quiet(b)
  {
    var n, more := ns[0], ns[1..];
    var next, trail := PrintNode(settings, st, n), Trail(settings, st, n);
    SpacesAreQuiet(settings, st, n);
    TopLayout(settings, next, trail, more);
    var l, rest := Lay(settings, st, "", n), LayAll(settings, next, trail, more);
    assert LayAll(settings, st, "", ns) == Join(l, rest);
    hide PrintNode, LayAll, Trail;
    EmptyFront(n.value);
    assert l == LaidLeaf("", Text, n.value);
    var b := if rest != [] then rest[0].gap else "";
    assert Join(l, rest)[0].value == n.value + b;
  }

  /** The law for sendable documents. */
  lemma SentComesBack(settings: Settings, collapse: bool, bom: bool, ns: seq<Node>)
    requires Sendable(settings.processEntities, ns)
    ensures ParseDocument(Options(settings.processEntities, collapse), PrintDocument(settings, bom, ns))
            == Parsed(bom, ns)
            <==> ComesBack(settings, collapse, bom, ns)
  {
    hide LayAll, AllOnto, PrintDocument, ParseDocument, PlainAll, Sendable, Printable, AbsorbsAll, WellSpacedAll,
         Undisturbed, SquashAll, AllCollapsed, Gives, Trimmed, TextFirst, WhiteLead, IsBlank, RereadAll, LeadAfter;
    NotEmpty(settings.processEntities, ns);
    SentIsReady(settings, bom, ns);
    SentReads(settings, collapse, bom, ns);
    var st := Put(INITIAL, if bom then BOM else "");
    var ls := LayAll(settings, st, "", ns);
    EndsMatch(ns, ls);
    BlankHasNoInk(ns[0]);
    if bom || !TextFirst(ls) {
      UsualBack(settings, collapse, bom, ns, ls);
    } else if IsWhiteSpace(ns[0].value[0]) {
      LeadIsLost(settings, collapse, ns, ls);
    } else {
      FirstText(settings, st, ns);
      LeadIsKept(ns[0].value, ls[0].value, ls);
      if !StartsWith(ns[0].value, BOM) {
        UsualBack(settings, collapse, bom, ns, ls);
      }
    }
  }

  lemma BlankHasNoInk(n: Node)
    ensures IsPlainText(n) && !IsBlank(n) ==> n.value != ""
  {
  }

  // ---------------------------------------------------------------------------------------------
  // What comes back is sendable
  // ---------------------------------------------------------------------------------------------

  lemma {:induction false} WellReadSendable(process: bool, n: Node)
    requires WellRead(process, n)
    ensures SendableNode(true, n) && (!process ==> TextsEnd(n))
    decreases n
  {
    if n.Element? {
      forall c | c in n.children
        ensures SendableNode(true, c) && (!process ==> TextsEnd(c))
      {
        WellReadSendable(process, c);
      }
    }
  }

  /** Nothing printed reads as nothing. */
  lemma NothingIsError(options: Options, settings: Settings, bom: bool)
    ensures ParseDocument(options, PrintDocument(settings, bom, [])).ParseError?
  {
    hide ParseDocument;
    EmptyFront(if bom then BOM else "");
    MarkIsError(options, bom);
  }

  lemma MarkIsError(options: Options, bom: bool)
    ensures ParseDocument(options, if bom then BOM else "").ParseError?
  {
    hide ParseLoop, WhiteLead;
    var text := if bom then BOM else "";
    RoundTrip.SkipNothing(text);
    assert bom ==> text[3..] == "";
  }

  lemma {:induction false} AbsorbsAlike(collapse: bool, n: Node, m: Node, o: Node)
    requires Absorbs(n, m) && KeptNode(collapse, o) == n
    ensures Alike(m, o)
    decreases n, 0
  {
    match n
    case Leaf(kind, value) =>
    case Element(name, attributes, children) =>
      KeptElement(collapse, o.name, o.attributes, o.children);
      AllAbsorbAlike(collapse, children, m.children, o.children);
  }

  lemma {:induction false} AllAbsorbAlike(collapse: bool, ns: seq<Node>, ms: seq<Node>, os: seq<Node>)
    requires AbsorbsAll(ns, ms) && Kept(collapse, os) == ns
    ensures AllAlike(ms, os)
    decreases ns, 1
  {
    hide Absorbs, Alike, Squash;
    forall i | 0 <= i < |ns|
      ensures Alike(ms[i], os[i])
    {
      assert Absorbs(ns[i], ms[i]) && KeptNode(collapse, os[i]) == ns[i];
      AbsorbsAlike(collapse, ns[i], ms[i], os[i]);
    }
  }

  lemma {:induction false} AbsorbsQuotes(n: Node, m: Node)
    requires Absorbs(n, m)
    ensures QuoteFree(m) ==> QuoteFree(n)
    ensures TextsEnd(n) ==> TextsEnd(m)
    decreases n
  {
    match n
    case Leaf(kind, value) =>
      if kind.Text? && '<' !in value {
        AroundKeepsOut(value, m.value, '<');
      }
    case Element(_, _, children) =>
      forall i | 0 <= i < |children|
        ensures QuoteFree(m.children[i]) ==> QuoteFree(children[i])
        ensures TextsEnd(children[i]) ==> TextsEnd(m.children[i])
      {
        assert Absorbs(children[i], m.children[i]);
        AbsorbsQuotes(children[i], m.children[i]);
      }
      MembersMatch(children, m.children);
  }

  lemma MembersMatch(ns: seq<Node>, ms: seq<Node>)
    requires |ns| == |ms|
    requires forall i :: 0 <= i < |ns| ==> QuoteFree(ms[i]) ==> QuoteFree(ns[i])
    requires forall i :: 0 <= i < |ns| ==> TextsEnd(ns[i]) ==> TextsEnd(ms[i])
    ensures (forall m :: m in ms ==> QuoteFree(m)) ==> forall n :: n in ns ==> QuoteFree(n)
    ensures (forall n :: n in ns ==> TextsEnd(n)) ==> forall m :: m in ms ==> TextsEnd(m)
  {
    hide QuoteFree, TextsEnd;
    assert forall i :: 0 <= i < |ns| ==> ns[i] in ns && ms[i] in ms;
  }

  lemma AllAbsorbQuotes(ns: seq<Node>, ms: seq<Node>)
    requires AbsorbsAll(ns, ms)
    ensures (forall m :: m in ms ==> QuoteFree(m)) ==> forall n :: n in ns ==> QuoteFree(n)
    ensures (forall n :: n in ns ==> TextsEnd(n)) ==> forall m :: m in ms ==> TextsEnd(m)
  {
    hide QuoteFree, TextsEnd, Absorbs;
    forall i | 0 <= i < |ns|
      ensures QuoteFree(ms[i]) ==> QuoteFree(ns[i])
      ensures TextsEnd(ns[i]) ==> TextsEnd(ms[i])
    {
      assert Absorbs(ns[i], ms[i]);
      AbsorbsQuotes(ns[i], ms[i]);
    }
    MembersMatch(ns, ms);
  }

  /** The layout of a document that was read without entities. */
  lemma LayoutIsKnown(ns: seq<Node>, ls: seq<Laid>)
    requires AbsorbsAll(ns, PlainAll(ls)) && WellSpacedAll(ls) && TextApart(ns)
    requires forall n :: n in ns ==> SendableNode(true, n) && TextsEnd(n)
    ensures AllKnown(ls)
  {
    AllAbsorbSendable(true, ns, PlainAll(ls));
    AllAbsorbQuotes(ns, PlainAll(ls));
    RoundTrip.PlainMembers(ls);
    hide SendableNode, TextsEnd, WellSpacedAll, Plain, AbsorbsAll;
  }

  /** Reading the layout gives nodes like those laid out only if none of their attributes has a quote in it. */
  lemma LayoutAgrees(ls: seq<Laid>, tail: string, os: seq<Node>, stop: string)
    requires ls != [] && AllKnown(ls) && AllWhite(tail) && AllAlike(PlainAll(ls), os)
    requires TagNesting.NestedAll(PLAIN_OPTIONS, 1, os, AllOnto(false, ls, tail), stop)
    ensures forall m :: m in PlainAll(ls) ==> QuoteFree(m)
  {
    NodesAgree(1, ls, os, tail, stop);
    var ms := PlainAll(ls);
    forall m | m in ms
      ensures QuoteFree(m)
    {
      var i :| 0 <= i < |ms| && ms[i] == m;
      assert ls[i] in ls;
    }
  }

  /** The same without the white space in front of a first text, which a reader passes over. */
  lemma TrimmedAgrees(ls: seq<Laid>, tail: string, os: seq<Node>, stop: string)
    requires ls != [] && AllKnown(ls) && AllWhite(tail) && AllAlike(PlainAll(ls), os) && ls[0].gap == ""
    requires TagNesting.NestedAll(PLAIN_OPTIONS, 1, os, SkipWhite(AllOnto(false, ls, tail)), stop)
    ensures forall m :: m in PlainAll(ls) ==> QuoteFree(m)
  {
    hide AllKnown, AllAlike, TagNesting.NestedAll, PlainAll, Plain, Onto, QuoteFree, WhiteLead;
    var text := AllOnto(false, ls, tail);
    FirstOnto(false, ls, tail);
    var rest := AllOnto(false, ls[1..], tail);
    Starting(ls, tail);
    if !IsText(ls[0]) {
      RoundTrip.SkipNothing(text);
      LayoutAgrees(ls, tail, os, stop);
    } else if AllWhite(ls[0].value) {
      RoundTrip.SkipMore(ls[0].value, rest);
      BlankIsNone(ls, os, rest, stop);
    } else {
      TrimmedIsKnown(ls, os);
      TrimmedEscape(false, ls[0].value, rest);
      FirstOnto(false, Trimmed(ls), tail);
      assert Trimmed(ls)[1..] == ls[1..];
      RoundTrip.TextOnto(false, SkipWhite(ls[0].value), rest);
      LayoutAgrees(Trimmed(ls), tail, os, stop);
      TrimmedQuotes(ls);
    }
  }

  lemma Starting(ls: seq<Laid>, tail: string)
    requires ls != [] && AllKnown(ls) && ls[0].gap == "" && AllWhite(tail)
    ensures var rest := AllOnto(false, ls[1..], tail);
            && (!IsText(ls[0]) ==> !IsWhiteSpace(At(Onto(false, ls[0], rest), 0)))
            && (IsText(ls[0]) ==>
                  ls[0] == LaidLeaf("", Text, ls[0].value) && NulFree(ls[0].value) && '<' !in ls[0].value
                                  && Onto(false, ls[0], rest) == Escape(false, true, ls[0].value) + rest
                                  && (AllWhite(ls[0].value) ==> Onto(false, ls[0], rest) == ls[0].value + rest)
                                  && RoundTrip.NoTextAhead(rest))
  {
    var rest := AllOnto(false, ls[1..], tail);
    StartingKnown(ls, tail);
    hide AllKnown, AllOnto;
    KnownSpacing(ls[0]);
    if IsText(ls[0]) {
      LeafSendable(ls[0]);
      RoundTrip.TextOnto(false, ls[0].value, rest);
      if AllWhite(ls[0].value) {
        RoundTrip.BlankOnto(false, ls[0], rest);
      }
      NothingOrMarkup(rest);
    } else {
      hide Known;
      MarkupFirst(ls[0], rest);
    }
  }

  lemma StartingKnown(ls: seq<Laid>, tail: string)
    requires ls != [] && AllKnown(ls) && AllWhite(tail)
    ensures Known(ls[0])
    ensures IsText(ls[0]) ==> var rest := AllOnto(false, ls[1..], tail); RoundTrip.MarkupAhead(rest) || AllWhite(rest)
  {
    hide AllKnown, AllOnto, Known;
    FirstKnown(ls, tail);
  }

  lemma NothingOrMarkup(s: string)
    requires RoundTrip.MarkupAhead(s) || AllWhite(s)
    ensures RoundTrip.NoTextAhead(s)
  {
    if RoundTrip.MarkupAhead(s) {
      RoundTrip.MarkupIsNoText(s);
    } else {
      SkipWhiteGap(s, "");
      EmptyFront(s);
    }
  }

  /** White text that comes first is not read as a node. */
  lemma BlankIsNone(ls: seq<Laid>, os: seq<Node>, rest: string, stop: string)
    requires ls != [] && IsText(ls[0]) && AllAlike(PlainAll(ls), os) && RoundTrip.NoTextAhead(rest)
    ensures !TagNesting.NestedAll(PLAIN_OPTIONS, 1, os, SkipWhite(rest), stop)
  {
    FirstAlike(ls, os);
    var s := SkipWhite(rest);
    hide AllAlike, PlainAll, SkipWhite, WhiteLead;
    forall mid
      ensures !TagNesting.Nested(PLAIN_OPTIONS, 1, os[0], s, mid)
    {
      NoTextNode(rest, os[0], mid);
    }
  }

  lemma NoTextNode(rest: string, n: Node, mid: string)
    requires IsPlainText(n) && RoundTrip.NoTextAhead(rest)
    ensures !TagNesting.LeafOf(PLAIN_OPTIONS, SkipWhite(rest), n, mid)
  {
    hide WhiteLead, Identify, ParseLeaf;
    var s := SkipWhite(rest);
    RoundTrip.SkipNothing(s);
    MarkupIsNotText(s);
  }

  lemma MarkupIsNotText(s: string)
    requires SkipWhite(s) == s && (AtEnd(s) || s[0] == '<')
    ensures Identify(s).Some? ==> Identify(s).value.0 != StartLeaf(Text)
  {
    hide SkipWhite, StartsWith;
    TagStarts(s);
  }

  lemma TagStarts(s: string)
    ensures s != "" && s[0] == '<' ==> StartsWith(s, "<")
  {
    assert s != "" ==> s[..1] == [s[0]];
  }

  lemma TrimmedIsKnown(ls: seq<Laid>, os: seq<Node>)
    requires ls != [] && AllKnown(ls) && IsText(ls[0]) && AllAlike(PlainAll(ls), os)
    ensures AllKnown(Trimmed(ls)) && AllAlike(PlainAll(Trimmed(ls)), os)
  {
    var w := SkipWhite(ls[0].value);
    TrimmedPlain(ls);
    TrimmedSpacing(ls, w);
    TrimmedMembers(ls);
    TrimmedAlike(PlainAll(ls), w, os);
    hide SkipWhite, SendableNode, TextsEnd, WellSpacedAll, PlainAll, AllAlike;
  }

  lemma TrimmedMembers(ls: seq<Laid>)
    requires ls != [] && AllKnown(ls) && IsText(ls[0])
    ensures forall l :: l in Trimmed(ls) ==> SendableNode(true, Plain(l)) && TextsEnd(Plain(l))
  {
    var v := ls[0].value;
    FewerBytes(true, v);
    SkipKeeps(v);
    PlainOfText(ls[0]);
    PlainOfText(ls[0].(value := SkipWhite(v)));
    assert ls[0] in ls && TextsEnd(Leaf(Text, v)) && TextsEnd(Leaf(Text, SkipWhite(v)));
    hide SkipWhite, SendableNode, TextsEnd, Plain, WellSpacedAll, PlainAll, TextApart;
  }

  lemma TrimmedAlike(ms: seq<Node>, w: string, os: seq<Node>)
    requires ms != [] && IsPlainText(ms[0]) && AllAlike(ms, os)
    ensures AllAlike([Leaf(Text, w)] + ms[1..], os)
    ensures TextApart(ms) ==> TextApart([Leaf(Text, w)] + ms[1..])
  {
    var rs := [Leaf(Text, w)] + ms[1..];
    assert Alike(ms[0], os[0]) && forall i :: 0 < i < |ms| ==> rs[i] == ms[i];
  }

  lemma TrimmedQuotes(ls: seq<Laid>)
    requires ls != [] && IsText(ls[0]) && forall m :: m in PlainAll(Trimmed(ls)) ==> QuoteFree(m)
    ensures forall m :: m in PlainAll(ls) ==> QuoteFree(m)
  {
    TrimmedPlain(ls);
    hide PlainAll, Trimmed, SkipWhite;
    var ms := PlainAll(ls);
    assert ms == [ms[0]] + ms[1..];
    assert QuoteFree(ms[0]);
  }

  /** Without entities, only documents without quotes in attributes come back. */
  lemma QuotesLost(settings: Settings, collapse: bool, bom: bool, ns: seq<Node>)
    requires !settings.processEntities && ns != [] && TextApart(ns)
    requires forall n :: n in ns ==> SendableNode(true, n) && TextsEnd(n)
    requires ParseDocument(Options(false, collapse), PrintDocument(settings, bom, ns)) == Parsed(bom, ns)
    ensures forall n :: n in ns ==> QuoteFree(n)
  {
    hide LayAll, LeadAfter, AllOnto, PrintDocument, ParseDocument, PlainAll, AbsorbsAll, WellSpacedAll, SquashAll,
         SendableNode, TextsEnd, QuoteFree, WhiteLead, AllAlike, AllKnown, TagNesting.NestedAll, TagNesting.Stops,
         StartsWith;
    var st, text := Put(INITIAL, if bom then BOM else ""), PrintDocument(settings, bom, ns);
    PrintedIs(settings, bom, ns);
    SpacesAreQuiet(settings, st, ns[0]);
    TopLayout(settings, st, "", ns);
    var ls, tail := LayAll(settings, st, "", ns), LeadAfter(settings, st, "", ns);
    LayoutIsKnown(ns, ls);
    ReadersAgree(Options(false, collapse), text);
    var os := ParseDocument(PLAIN_OPTIONS, text).children;
    AllAbsorbAlike(collapse, ns, PlainAll(ls), os);
    TagNesting.ReadsExactly(PLAIN_OPTIONS, text, os);
    var stop :| TagNesting.NestedAll(PLAIN_OPTIONS, 1, os, TagNesting.AfterBom(text), stop);
    BehindMark(bom, AllOnto(false, ls, tail));
    if bom {
      LayoutAgrees(ls, tail, os, stop);
    } else {
      TrimmedAgrees(ls, tail, os, stop);
    }
    AllAbsorbQuotes(ns, PlainAll(ls));
  }

  lemma BehindMark(bom: bool, text: string)
    requires ParseDocument(PLAIN_OPTIONS, (if bom then BOM else "") + text).Parsed?
    requires ParseDocument(PLAIN_OPTIONS, (if bom then BOM else "") + text).bom == bom
    ensures TagNesting.AfterBom((if bom then BOM else "") + text) == if bom then text else SkipWhite(text)
  {
    hide ParseDeep, WhiteLead;
    EmptyFront(text);
    if bom {
      RoundTrip.SkipNothing(BOM + text);
      RoundTrip.Split(BOM, text);
    }
  }

  lemma BackIsSendable(settings: Settings, collapse: bool, bom: bool, ns: seq<Node>)
    requires ParseDocument(Options(settings.processEntities, collapse), PrintDocument(settings, bom, ns))
             == Parsed(bom, ns)
    ensures Sendable(settings.processEntities, ns)
  {
    hide ParseDocument, PrintDocument, WellRead, SendableNode, TextsEnd, QuoteFree, Nesting, UniqueEverywhere;
    var process, options := settings.processEntities, Options(settings.processEntities, collapse);
    NothingIsError(options, settings, bom);
    ParsedDocument(options, PrintDocument(settings, bom, ns));
    forall n | n in ns
      ensures SendableNode(true, n) && (!process ==> TextsEnd(n))
    {
      WellReadSendable(process, n);
    }
    if !process {
      QuotesLost(settings, collapse, bom, ns);
      forall n | n in ns
        ensures SendableNode(false, n)
      {
        SendableExactly(n);
      }
    }
  }

  // ---------------------------------------------------------------------------------------------
  // The laws
  // ---------------------------------------------------------------------------------------------

  lemma ComesBackIsSendable(settings: Settings, collapse: bool, bom: bool, ns: seq<Node>)
    requires ComesBack(settings, collapse, bom, ns)
    ensures Sendable(settings.processEntities, ns)
  {
    hide Printable, Sendable, FirstFine, Undisturbed;
    PrintableIsSendable(settings.processEntities, ns);
  }

  /** The round trip law, for every document, both modes of the printer and both of the reader: it comes back from
      printing and reading if and only if its names, values and nesting allow it, no text ends it or starts it in a
      way the reader does not see, and neither white space nor indentation changes its texts. */
  lemma RoundTripExactly(settings: Settings, collapse: bool, bom: bool, ns: seq<Node>)
    ensures ParseDocument(Options(settings.processEntities, collapse), PrintDocument(settings, bom, ns))
            == Parsed(bom, ns)
            <==> ComesBack(settings, collapse, bom, ns)
  {
    hide ParseDocument, PrintDocument, Sendable, ComesBack;
    if ParseDocument(Options(settings.processEntities, collapse), PrintDocument(settings, bom, ns)) == Parsed(bom, ns) {
      BackIsSendable(settings, collapse, bom, ns);
      SentComesBack(settings, collapse, bom, ns);
    }
    if ComesBack(settings, collapse, bom, ns) {
      ComesBackIsSendable(settings, collapse, bom, ns);
      SentComesBack(settings, collapse, bom, ns);
    }
  }

  /** Without text at top level, indentation disturbs nothing exactly when no text is directly followed by an
      element. */
  lemma {:induction false} UndisturbedInside(started: bool, afterElement: bool, ns: seq<Node>)
    requires forall n :: n in ns ==> !IsPlainText(n)
    ensures Undisturbed(started, afterElement, ns) <==> !HasTextBeforeElement(ns)
    decreases |ns|
  {
    if ns != [] {
      assert ns[0] in ns;
      UndisturbedInside(started || Starts(ns[0]), ns[0].Element?, ns[1..]);
    }
  }

  /** The parsed documents that come back from being printed and parsed once more. */
  predicate Stable(options: Options, compact: bool, bom: bool, ns: seq<Node>) {
    && ns != [] && (forall n :: n in ns ==> Harmless(options.processEntities, n))
    && !IsPlainText(ns[|ns| - 1]) && FirstFine(bom, ns[0])
    && (options.collapse || compact || Undisturbed(false, false, ns))
  }

  /** Parse, print, parse again: for every text, every setting of the reader and both modes, the same document if and
      only if it is stable. */
  lemma ReparseStable(options: Options, compact: bool, text: string)
    requires ParseDocument(options, text).Parsed?
    ensures var d := ParseDocument(options, text);
            ParseDocument(options, PrintDocument(Settings(compact, options.processEntities), d.bom, d.children)) == d
            <==> Stable(options, compact, d.bom, d.children)
  {
    hide ParseDocument, PrintDocument, WellRead, Harmless, Nesting, PrintableNode, AllCollapsed, UniqueEverywhere,
         FirstFine, Undisturbed;
    var process, d := options.processEntities, ParseDocument(options, text);
    ParsedDocument(options, text);
    forall n | n in d.children
      ensures PrintableNode(process, n) <==> Harmless(process, n)
    {
      WellReadIsPrintable(process, n);
    }
    if options.collapse {
      ParsedIsCollapsed(process, text);
    }
    RoundTripExactly(Settings(compact, process), options.collapse, d.bom, d.children);
    assert options == Options(process, options.collapse);
  }

  // ---------------------------------------------------------------------------------------------
  // A case that does not come back
  // ---------------------------------------------------------------------------------------------

  const RETURN_TEXT := "<a>&#13;x</a>"

  /** A character reference yields a CR. */
  lemma ReturnIsRead()
    ensures ParseDocument(Options(true, false), RETURN_TEXT) == Parsed(false, [Element("a", [], [Leaf(Text, "\rx")])])
  {
    hide ParseLoop, ParseElement, ParseLeaf, Identify, ParseDocument;
    var options, t, node := Options(true, false), "a>&#13;x</a>", Element("a", [], [Leaf(Text, "\rx")]);
    ReturnElement();
    RoundTrip.ElementIsTaken(options, "", t, node, Open, "a", "", true, 1, []);
    assert "" + ("<" + t) == RETURN_TEXT && [] + [node] == [node];
    NothingFollows(options, "", [node]);
    BomIsRead(options, false, RETURN_TEXT, [node]);
    EmptyFront(RETURN_TEXT);
  }

  lemma ReturnElement()
    ensures ParseElement(Options(true, false), "a>&#13;x</a>", 1)
            == Read(Element("a", [], [Leaf(Text, "\rx")]), Open, "", "a")
  {
    hide ParseLoop, ParseElement;
    var options, inner := Options(true, false), "&#13;x</a>";
    ReturnChildren();
    RoundTrip.OpenElementIsRead(options, "a", [], inner, [Leaf(Text, "\rx")], "", 1);
    assert AttributesOnto(true, [], ">" + inner) == ">" + inner && RereadAttributes([]) == [];
    assert "a" + (">" + inner) == "a>&#13;x</a>";
  }

  lemma ReturnChildren()
    ensures ParseLoop(Options(true, false), "&#13;x</a>", false, 2, []) == EndTag([Leaf(Text, "\rx")], "", "a")
    ensures !AtEnd("&#13;x</a>")
  {
    hide ParseLoop, ParseLeaf, Identify, StringDecoding.Eager, FindTag;
    var options, raw, end, text := Options(true, false), "&#13;x", "</a>", Leaf(Text, "\rx");
    var inner := raw + end;
    assert inner == "&#13;x</a>";
    ReturnDecodes();
    RoundTrip.ByteIsAbsent(raw, '<');
    RoundTrip.RawTextIsRead(options, raw, "\rx", end);
    RoundTrip.SkipNothing(inner);
    RoundTrip.IdentifyText(inner);
    RoundTrip.LeafStep(options, inner, Text, inner, text, end, false, 2, []);
    RoundTrip.EndTagIsRead(options, "", "a", "", 2, [text]);
    assert RoundTrip.NodeIsTaken(options, inner, text, end, false, 2, []);
    assert EndTagOnto("", "a", "") == end && [] + [text] == [text];
  }

  lemma ReturnDecodes()
    ensures StringDecoding.Eager(ReadMode(true), "&#13;x") == "\rx"
  {
    var mode, raw := ReadMode(true), "&#13;x";
    CharacterReferences.WellFormedReference("13", false, "x");
    assert "&#" + "13" + ";" + "x" == raw;
    assert CharacterReferences.Positional("13", 10) == 13 by {
      assert "13"[..1] == "1" && "1"[..0] == "";
      assert CharacterReferences.Positional("1", 10) == 1;
    }
    assert raw[0..] == raw && raw[5..] == "x";
    hide CharacterReferences.CharacterRef;
    assert StringDecoding.NextChunk(mode, raw) == StringDecoding.Write("\r", 5);
    assert StringDecoding.NextChunk(mode, "x") == StringDecoding.Write("x", 1);
    assert StringDecoding.DecodeFrom(mode, raw, 6, "\r" + "x") == "\rx";
    assert StringDecoding.DecodeFrom(mode, raw, 5, "" + "\r") == StringDecoding.DecodeFrom(mode, raw, 6, "\r" + "x");
    assert StringDecoding.DecodeFrom(mode, raw, 0, "") == StringDecoding.DecodeFrom(mode, raw, 5, "" + "\r");
  }

  /** What was read from it is not stable, in either mode. */
  lemma ReturnIsLost(compact: bool)
    ensures var d := ParseDocument(Options(true, false), RETURN_TEXT);
            && d.Parsed?
            && ParseDocument(Options(true, false), PrintDocument(Settings(compact, true), d.bom, d.children)) != d
  {
    hide ParseDocument, PrintDocument;
    ReturnIsRead();
    var n := Element("a", [], [Leaf(Text, "\rx")]);
    assert !Harmless(true, Leaf(Text, "\rx")) && Leaf(Text, "\rx") in n.children;
    ReparseStable(Options(true, false), compact, RETURN_TEXT);
    hide Undisturbed;
    assert n in [n];
  }
}
