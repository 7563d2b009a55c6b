/** Without entities, an attribute with a double quote in it never comes back: the printed value ends at the quote. */
module QuotedValues {
  import opened Optional
  import opened XmlChars
  import opened StringDecoding
  import opened StringEscaping
  import opened XmlParsing
  import opened Dom
  import opened Layout
  import opened RoundTrip
  import TagNesting
  import PrintParse

  const PLAIN_OPTIONS := Options(false, false)

  predicate QuoteFree(n: Node)
    decreases n
  {
    match n
    case Leaf(_, _) => true
    case Element(_, attributes, children) =>
      (forall a :: a in attributes ==> '\"' !in a.value) && forall c :: c in children ==> QuoteFree(c)
  }

  /** No `<` in any text. */
  predicate TextsEnd(n: Node)
    decreases n
  {
    match n
    case Leaf(kind, value) => kind.Text? ==> '<' !in value
    case Element(_, _, children) => forall c :: c in children ==> TextsEnd(c)
  }

  lemma {:induction false} SendableExactly(n: Node)
    ensures SendableNode(false, n) <==> SendableNode(true, n) && TextsEnd(n) && QuoteFree(n)
    decreases n
  {
    if n.Element? {
      forall c | c in n.children
        ensures SendableNode(false, c) <==> SendableNode(true, c) && TextsEnd(c) && QuoteFree(c)
      {
        SendableExactly(c);
      }
      assert forall a :: a in n.attributes ==>
               (SendableAttribute(false, a) <==> SendableAttribute(true, a) && '\"' !in a.value);
    }
  }

  /** The same elements with the same attributes, and leaves of the same kinds. */
  predicate Alike(n: Node, m: Node)
    decreases n
  {
    match n
    case Leaf(kind, _) => m.Leaf? && m.kind == kind
    case Element(name, attributes, children) =>
      m.Element? && m.name == name && m.attributes == attributes && AllAlike(children, m.children)
  }

  predicate AllAlike(ns: seq<Node>, ms: seq<Node>)
    decreases ns
  {
    |ns| == |ms| && forall i :: 0 <= i < |ns| ==> Alike(ns[i], ms[i])
  }

  // ---------------------------------------------------------------------------------------------
  // Attributes
  // ---------------------------------------------------------------------------------------------

  lemma {:induction false} AttributesOnlyGrow(options: Options, s: string, before: seq<Attribute>)
    ensures var tag := ParseAttributes(options, s, before); tag.TagRead? ==> before <= tag.attributes
    decreases |s|
  {
    hide WhiteLead, IsNameStartChar, HasAttribute, ParseAttribute;
    var t := SkipWhite(s);
    if !AtEnd(t) && IsNameStartChar(t[0]) {
      match ParseAttribute(options, t)
      case None =>
      case Some((a, rest)) => AttributesOnlyGrow(options, rest, before + [a]);
    }
  }

  /** A quote in the value ends it early. */
  lemma {:induction false} QuoteEnds(value: string, rest: string)
    requires NulFree(value) && '\"' in value
    ensures var found := FindTag(value + rest, "\""); found.Some? && found.value < |value|
  {
    var s := value + rest;
    assert s[0] == value[0] && value[0] in value;
    if value[0] == '\"' {
      assert s[..1] == "\"";
    } else {
      assert s[1..] == value[1..] + rest;
      assert s[..1] == [value[0]];
      QuoteEnds(value[1..], rest);
    }
  }

  lemma ShorterValue(a: Attribute, rest: string)
    requires LegalName(a.name) && NulFree(a.value) && '\"' in a.value
    ensures var r := ParseAttribute(PLAIN_OPTIONS, a.name + ("=\"" + (a.value + rest)));
            r.Some? && |r.value.0.value| < |a.value|
  {
    hide NameLength, ToQuote, FindTag, Eager;
    var text := a.value + rest;
    var s := a.name + ("=\"" + text);
    NameIsRead(a.name, "=\"" + text);
    QuoteIsReached(text);
    QuoteEnds(a.value, rest);
    var t := "\"" + text;
    assert t[1..] == text && [t[0]] == "\"";
    var raw := text[..FindTag(text, "\"").value];
    EagerIsShorter(raw);
  }

  lemma EagerIsShorter(raw: string)
    ensures |Eager(AttributeMode(PLAIN_OPTIONS), raw)| <= |raw|
  {
  }

  /** When all attributes come back as they were, none has a quote in it. */
  lemma {:induction false} AttributesAgree(attributes: seq<Attribute>, tail: string, before: seq<Attribute>)
    requires forall a :: a in attributes ==> SendableAttribute(true, a)
    requires var tag := ParseAttributes(PLAIN_OPTIONS, AttributesOnto(false, attributes, tail), before);
             tag.TagRead? && tag.attributes == before + attributes
    ensures forall a :: a in attributes ==> '\"' !in a.value
    decreases attributes
  {
    hide SendableAttribute, AttributesOnto, ParseAttributes;
    if attributes != [] {
      UnfoldAttributes(attributes, tail);
      assert before + attributes == before + ([attributes[0]] + attributes[1..]);
      var a, next := attributes[0], AttributesOnto(false, attributes[1..], tail);
      assert a in attributes;
      FirstAgrees(a, attributes[1..], next, before);
      AttributesAgree(attributes[1..], tail, before + [a]);
      assert forall b :: b in attributes ==> b == a || b in attributes[1..];
    }
  }

  lemma UnfoldAttributes(attributes: seq<Attribute>, tail: string)
    requires attributes != []
    ensures AttributesOnto(false, attributes, tail)
            == " " + (attributes[0].name + ("=\"" + (attributes[0].value
                 + ("\"" + AttributesOnto(false, attributes[1..], tail)))))
  {
  }

  lemma FirstAgrees(a: Attribute, more: seq<Attribute>, next: string, before: seq<Attribute>)
    requires SendableAttribute(true, a)
    requires var text := " " + (a.name + ("=\"" + (a.value + ("\"" + next))));
             var tag := ParseAttributes(PLAIN_OPTIONS, text, before);
             tag.TagRead? && tag.attributes == before + ([a] + more)
    ensures '\"' !in a.value
    ensures var tag := ParseAttributes(PLAIN_OPTIONS, next, before + [a]);
            tag.TagRead? && tag.attributes == before + [a] + more
  {
    hide ParseAttribute, Normalize, HasAttribute;
    var rest := a.name + ("=\"" + (a.value + ("\"" + next)));
    var text := " " + rest;
    NameIsRead(a.name, "=\"" + (a.value + ("\"" + next)));
    assert rest[0] == a.name[0];
    SkipWhiteGap(" ", rest);
    hide WhiteLead, IsNameStartChar;
    var read := ParseAttribute(PLAIN_OPTIONS, rest);
    assert before + ([a] + more) == before + [a] + more;
    if '\"' in a.value {
      ShorterValue(a, "\"" + next);
      AttributesOnlyGrow(PLAIN_OPTIONS, read.value.1, before + [read.value.0]);
      OneMore(before, read.value.0, [a] + more);
    } else {
      AttributeIsRead(PLAIN_OPTIONS, a, next);
      assert Escape(false, false, a.value) == a.value;
      AttributesOnlyGrow(PLAIN_OPTIONS, next, before + [read.value.0]);
      OneMore(before, read.value.0, [a] + more);
    }
  }

  lemma OneMore(before: seq<Attribute>, a: Attribute, rest: seq<Attribute>)
    requires before + [a] <= before + rest && rest != []
    ensures rest[0] == a
  {
    assert (before + [a])[|before|] == a == (before + rest)[|before|];
  }

  // ---------------------------------------------------------------------------------------------
  // Nodes
  // ---------------------------------------------------------------------------------------------

  /** What is known of the printed nodes: all but that their attributes are free of quotes. */
  ghost predicate Known(l: Laid) {
    WellSpaced(l) && SendableNode(true, Plain(l)) && TextsEnd(Plain(l))
  }

  ghost predicate AllKnown(ls: seq<Laid>) {
    && (forall l :: l in ls ==> SendableNode(true, Plain(l)) && TextsEnd(Plain(l)))
    && WellSpacedAll(ls) && TextApart(PlainAll(ls))
  }

  /** What follows the printed nodes: when the last of them is text, markup or only white space. */
  ghost predicate Closed(ls: seq<Laid>, tail: string) {
    ls != [] && IsText(ls[|ls| - 1]) ==> MarkupAhead(tail) || AllWhite(tail)
  }

  lemma LeafSendable(l: Laid)
    requires l.LaidLeaf? && Known(l)
    ensures SendableLeaf(false, l.kind, l.value) && QuoteFree(Plain(l)) && AllWhite(l.gap)
            && (IsText(l) ==> l.gap == "")
  {
  }

  lemma LeafAgrees(l: Laid, m: Node, tail: string, mid: string)
    requires l.LaidLeaf? && Known(l) && m.Leaf? && m.kind == l.kind
             && (IsText(l) ==> MarkupAhead(tail) || AllWhite(tail))
    requires TagNesting.LeafOf(PLAIN_OPTIONS, Onto(false, l, tail), m, mid)
    ensures mid == tail
  {
    hide Known, Onto, SendableLeaf, Identify, ParseLeaf, MarkupAhead, WhiteLead, QuoteFree;
    LeafSendable(l);
    if !l.kind.Text? {
      LeafIsRead(PLAIN_OPTIONS, l.gap, l.kind, l.value, tail);
    } else {
      TextAgrees(l, tail);
      if !AllWhite(l.value) && MarkupAhead(tail) {
        TextIsRead(PLAIN_OPTIONS, l.value, tail);
        TextOnto(false, l.value, tail);
      }
    }
  }

  /** White text is not read as text, and text that nothing ends is an error. */
  lemma TextAgrees(l: Laid, tail: string)
    requires IsText(l) && Known(l) && (MarkupAhead(tail) || AllWhite(tail))
    ensures var s := Onto(false, l, tail);
            Identify(s).Some? && Identify(s).value.0 == StartLeaf(Text)
            && ParseLeaf(PLAIN_OPTIONS, Text, Identify(s).value.1).Read?
            ==> !AllWhite(l.value) && MarkupAhead(tail)
    ensures l == LaidLeaf("", Text, l.value)
  {
    hide Onto, ParseLeaf, MarkupAhead, Identify;
    LeafSendable(l);
    if AllWhite(l.value) {
      hide Known;
      BlankIsNoText(l.value, tail);
      BlankOnto(false, l, tail) by {
        assert WellSpaced(l) by {
          KnownSpacing(l);
        }
      }
    } else if !MarkupAhead(tail) {
      OpenTextIsNull(l, tail);
    }
  }

  lemma KnownSpacing(l: Laid)
    requires Known(l)
    ensures WellSpaced(l) && SendableNode(true, Plain(l)) && TextsEnd(Plain(l))
  {
  }

  lemma BlankIsNoText(gap: string, tail: string)
    requires AllWhite(gap) && (MarkupAhead(tail) || AllWhite(tail))
    ensures Identify(gap + tail).Some? ==> Identify(gap + tail).value.0 != StartLeaf(Text)
  {
    SkipMore(gap, tail);
    if MarkupAhead(tail) {
      SkipNothing(tail);
      assert tail[..1] == "<";
    } else {
      SkipWhiteGap(tail, "");
      assert tail + "" == tail;
    }
  }

  lemma OpenTextIsNull(l: Laid, tail: string)
    requires IsText(l) && Known(l) && !AllWhite(l.value) && AllWhite(tail)
    ensures var s := Onto(false, l, tail);
            Identify(s) == Some((StartLeaf(Text), s)) && ParseLeaf(PLAIN_OPTIONS, Text, s).Null?
  {
    LeafSendable(l);
    hide Known, WhiteLead;
    TextOnto(false, l.value, tail);
    TextIsIdentified(false, l.value, tail);
    var raw := Escape(false, true, l.value);
    IdentifyText(raw + tail);
    ValueEnds(false, true, l.value, '<');
    PrintParse.NoEndInWhite(raw, tail);
    hide FindTag, Identify, Eager;
  }

  /** An element that comes back with the attributes it had has no quote in them, and its tag is read as printed. */
  lemma StartAgrees(l: Laid, after: string, sealed: bool, rest: string)
    requires l.LaidElement? && Known(l) && (At(after, 0) == '>' || At(after, 0) == '/')
    requires TagNesting.StartTagOf(PLAIN_OPTIONS, l.gap + ("<" + (l.name + AttributesOnto(false, l.attributes, after))),
                                   l.name, l.attributes, sealed, rest)
    ensures forall a :: a in l.attributes ==> '\"' !in a.value && SendableAttribute(false, a)
    ensures ParseAttributes(PLAIN_OPTIONS, after, RereadAttributes(l.attributes)) == TagRead(l.attributes, rest, sealed)
  {
    hide SendableNode, TextsEnd, ParseAttributes, AttributesOnto, NameLength, RereadAttributes, UniqueNames;
    TagParts(l);
    hide Known, WellSpaced, Plain;
    var text := l.name + AttributesOnto(false, l.attributes, after);
    StartIs(l.gap, text);
    AttributesStart(false, l.attributes, after);
    NameIsRead(l.name, AttributesOnto(false, l.attributes, after));
    SkipNothing(text);
    SlashIsNoName(l.name, AttributesOnto(false, l.attributes, after));
    hide SkipWhite, WhiteLead, LegalName;
    var t :| TagNesting.TagStart(l.gap + ("<" + text), t)
             && TagNesting.StartBody(PLAIN_OPTIONS, t, l.name, l.attributes, sealed, rest);
    assert t == text;
    assert [] + l.attributes == l.attributes;
    AttributesAgree(l.attributes, after, []);
    AllSendable(l.attributes);
    StartTagIsRead(PLAIN_OPTIONS, l.name, l.attributes, after);
  }

  lemma AllSendable(attributes: seq<Attribute>)
    requires forall a :: a in attributes ==> '\"' !in a.value && SendableAttribute(true, a)
    ensures forall a :: a in attributes ==> SendableAttribute(false, a)
  {
  }

  lemma TagParts(l: Laid)
    requires l.LaidElement? && Known(l)
    ensures LegalName(l.name) && UniqueNames(l.attributes) && AllWhite(l.gap) && AllWhite(l.closeGap)
    ensures forall a :: a in l.attributes ==> SendableAttribute(true, a)
    ensures AllKnown(l.children) && Closed(l.children, EndTagOnto(l.closeGap, l.name, ""))
    ensures l.children != [] && IsText(l.children[|l.children| - 1]) ==> l.closeGap == ""
  {
    hide Known, SendableAttribute, LegalName, UniqueNames, AllWhite, AllKnown, IsText;
    TagStart(l);
    TagGaps(l);
    TagChildren(l);
  }

  lemma TagStart(l: Laid)
    requires l.LaidElement? && Known(l)
    ensures LegalName(l.name) && UniqueNames(l.attributes)
    ensures forall a :: a in l.attributes ==> SendableAttribute(true, a)
  {
    hide SendableAttribute, LegalName, UniqueNames, TextsEnd, WellSpaced, PlainAll, TextApart;
  }

  lemma TagGaps(l: Laid)
    requires l.LaidElement? && Known(l)
    ensures AllWhite(l.gap) && AllWhite(l.closeGap) && Closed(l.children, EndTagOnto(l.closeGap, l.name, ""))
    ensures l.children != [] && IsText(l.children[|l.children| - 1]) ==> l.closeGap == ""
  {
    hide SendableNode, TextsEnd, AllWhite, WellSpacedAll, Plain, IsText;
    var end := "</" + (l.name + (">" + ""));
    assert "" + end == end;
  }

  lemma TagChildren(l: Laid)
    requires l.LaidElement? && Known(l)
    ensures AllKnown(l.children)
  {
    hide SendableAttribute, LegalName, UniqueNames, AllWhite, TextApart;
    PlainMembers(l.children);
  }

  lemma StartIs(gap: string, text: string)
    requires AllWhite(gap)
    ensures forall t :: TagNesting.TagStart(gap + ("<" + text), t) ==> t == text
  {
    SkipWhiteGap(gap, "<" + text);
    Split("<", text);
  }

  lemma SlashIsNoName(name: string, rest: string)
    requires LegalName(name)
    ensures At(name + rest, 0) != '/'
  {
  }

  lemma TailCloses(l: Laid, tail: string)
    requires l.LaidElement? && Known(l)
    ensures Closed(l.children, EndTagOnto(l.closeGap, l.name, tail))
  {
    TagParts(l);
    assert "" + ("</" + (l.name + (">" + tail))) == "</" + (l.name + (">" + tail));
  }

  /** Reading an end tag twice stops at the same place. */
  lemma EndAgrees(l: Laid, tail: string, mid: string)
    requires l.LaidElement? && Known(l)
             && TagNesting.EndTagOf(PLAIN_OPTIONS, EndTagOnto(l.closeGap, l.name, tail), l.name, mid)
    ensures mid == tail
  {
    hide Known, ParseLoop, EndTagOnto;
    TagParts(l);
    var end := EndTagOnto(l.closeGap, l.name, tail);
    TagNesting.EndTagIsTaken(PLAIN_OPTIONS, end, l.name, mid, false, 1, []);
    EndTagIsRead(PLAIN_OPTIONS, l.closeGap, l.name, tail, 1, []);
  }

  /** A printed node that is read as a node like it has no quote in its attributes, and ends where it was printed to
      end. */
  lemma {:induction false} NodeAgrees(depth: nat, l: Laid, m: Node, tail: string, mid: string)
    requires Known(l) && Alike(Plain(l), m) && (IsText(l) ==> MarkupAhead(tail) || AllWhite(tail))
    requires TagNesting.Nested(PLAIN_OPTIONS, depth, m, Onto(false, l, tail), mid)
    ensures QuoteFree(Plain(l)) && mid == tail
    decreases l, 1
  {
    hide Known, MarkupAhead, TagNesting.LeafOf, TagNesting.StartTagOf, TagNesting.EndTagOf, TagNesting.NestedAll,
         SendableNode, TextsEnd, ParseAttributes, AttributesOnto, EndTagOnto, AllOnto, RereadAttributes, AllWhite;
    if l.LaidLeaf? {
      LeafSendable(l);
      LeafAgrees(l, m, tail, mid);
    } else {
      ElementIs(l, m, tail);
      var end := EndTagOnto(l.closeGap, l.name, tail);
      var inner := AllOnto(false, l.children, end);
      var after := if l.children == [] then "/>" + tail else ">" + inner;
      if m.children == []
          && TagNesting.StartTagOf(PLAIN_OPTIONS, Onto(false, l, tail), m.name, m.attributes, true, mid) {
        StartAgrees(l, after, true, mid);
        TagEndIsRead(PLAIN_OPTIONS, tail, RereadAttributes(l.attributes));
        NothingInside(l);
      } else {
        var within, stop :| TagNesting.Enclosed(PLAIN_OPTIONS, depth, m, Onto(false, l, tail), within, stop, mid);
        StartAgrees(l, after, false, within);
        TagEndIsRead(PLAIN_OPTIONS, tail, RereadAttributes(l.attributes));
        TagEndIsRead(PLAIN_OPTIONS, inner, RereadAttributes(l.attributes));
        TagParts(l);
        TailCloses(l, tail);
        NodesAgree(depth + 1, l.children, m.children, end, stop);
        EndAgrees(l, tail, mid);
        Inside(l);
      }
    }
  }

  lemma NothingInside(l: Laid)
    requires l.LaidElement? && l.children == [] && forall a :: a in l.attributes ==> '\"' !in a.value
    ensures QuoteFree(Plain(l))
  {
  }

  lemma Inside(l: Laid)
    requires l.LaidElement? && (forall a :: a in l.attributes ==> '\"' !in a.value)
    requires forall c :: c in l.children ==> QuoteFree(Plain(c))
    ensures QuoteFree(Plain(l))
  {
    var children := PlainAll(l.children);
    forall c | c in children
      ensures QuoteFree(c)
    {
      var i :| 0 <= i < |children| && children[i] == c;
      assert l.children[i] in l.children;
    }
  }

  lemma ElementIs(l: Laid, m: Node, tail: string)
    requires l.LaidElement? && Alike(Plain(l), m)
    ensures m.Element? && m.name == l.name && m.attributes == l.attributes && AllAlike(PlainAll(l.children), m.children)
    ensures |m.children| == |l.children|
    ensures Onto(false, l, tail)
            == l.gap + ("<" + (l.name + AttributesOnto(false, l.attributes,
                 if l.children == [] then "/>" + tail
                 else ">" + AllOnto(false, l.children, EndTagOnto(l.closeGap, l.name, tail)))))
  {
    hide AttributesOnto, AllOnto, EndTagOnto, Alike;
    assert Alike(Element(l.name, l.attributes, PlainAll(l.children)), m);
    AlikeElement(l.name, l.attributes, PlainAll(l.children), m);
  }

  lemma AlikeElement(name: string, attributes: seq<Attribute>, children: seq<Node>, m: Node)
    requires Alike(Element(name, attributes, children), m)
    ensures m.Element? && m.name == name && m.attributes == attributes && AllAlike(children, m.children)
  {
  }

  lemma {:induction false} NodesAgree(depth: nat, ls: seq<Laid>, ms: seq<Node>, tail: string, rest: string)
    requires AllKnown(ls) && AllAlike(PlainAll(ls), ms) && Closed(ls, tail)
    requires TagNesting.NestedAll(PLAIN_OPTIONS, depth, ms, AllOnto(false, ls, tail), rest)
    ensures (forall l :: l in ls ==> QuoteFree(Plain(l))) && rest == tail
    decreases ls, 0
  {
    hide Known, Closed, AllKnown, TagNesting.Nested, Onto, QuoteFree, Alike, Plain;
    if ls != [] {
      var after := AllOnto(false, ls[1..], tail);
      FirstAlike(ls, ms);
      FirstKnown(ls, tail);
      var mid :| TagNesting.Nested(PLAIN_OPTIONS, depth, ms[0], AllOnto(false, ls, tail), mid)
                 && TagNesting.NestedAll(PLAIN_OPTIONS, depth, ms[1..], mid, rest);
      NodeAgrees(depth, ls[0], ms[0], after, mid);
      NodesAgree(depth, ls[1..], ms[1..], tail, rest);
      assert forall l :: l in ls ==> l == ls[0] || l in ls[1..];
    }
  }

  lemma FirstAlike(ls: seq<Laid>, ms: seq<Node>)
    requires ls != [] && AllAlike(PlainAll(ls), ms)
    ensures ms != [] && Alike(Plain(ls[0]), ms[0]) && AllAlike(PlainAll(ls[1..]), ms[1..])
  {
    PlainCons(ls);
    hide Alike, Plain, PlainAll, AllAlike;
    AlikeTail(PlainAll(ls), ms);
  }

  lemma PlainCons(ls: seq<Laid>)
    requires ls != []
    ensures PlainAll(ls) != [] && PlainAll(ls)[0] == Plain(ls[0]) && PlainAll(ls)[1..] == PlainAll(ls[1..])
  {
    hide Plain;
  }

  lemma AlikeTail(ns: seq<Node>, ms: seq<Node>)
    requires ns != [] && AllAlike(ns, ms)
    ensures ms != [] && Alike(ns[0], ms[0]) && AllAlike(ns[1..], ms[1..])
  {
    hide Alike;
  }

  lemma FirstKnown(ls: seq<Laid>, tail: string)
    requires ls != [] && AllKnown(ls) && Closed(ls, tail)
    ensures Known(ls[0]) && AllKnown(ls[1..]) && Closed(ls[1..], tail)
    ensures IsText(ls[0]) ==> MarkupAhead(AllOnto(false, ls[1..], tail)) || AllWhite(AllOnto(false, ls[1..], tail))
  {
    hide SendableNode, TextsEnd, WellSpaced, Plain, Onto, MarkupAhead, WellSpacedAll, TextApart, PlainAll, AllOnto,
         AllWhite;
    assert ls[0] in ls;
    PrintParse.WellSpacedTail(ls);
    StillApart(ls);
    if IsText(ls[0]) {
      if |ls| > 1 {
        SecondIsMarkup(ls, tail);
      } else {
        NothingOnto(ls[1..], tail);
      }
    }
  }

  lemma NothingOnto(ls: seq<Laid>, tail: string)
    ensures ls == [] ==> AllOnto(false, ls, tail) == tail
  {
  }

  lemma StillApart(ls: seq<Laid>)
    requires ls != [] && TextApart(PlainAll(ls))
    ensures TextApart(PlainAll(ls[1..]))
  {
    hide Plain;
    assert PlainAll(ls[1..]) == PlainAll(ls)[1..];
  }

  lemma SecondIsMarkup(ls: seq<Laid>, tail: string)
    requires |ls| > 1 && AllKnown(ls) && IsText(ls[0])
    ensures MarkupAhead(AllOnto(false, ls[1..], tail))
  {
    hide SendableNode, TextsEnd, WellSpaced, Onto;
    PlainMembers(ls);
    PrintParse.TextIsPlain(ls[0]);
    PrintParse.TextIsPlain(ls[1]);
    assert ls[1] in ls && ls[1] == ls[1..][0];
    hide Plain;
    var next := Onto(false, ls[1], AllOnto(false, ls[1..][1..], tail));
    MarkupFirst(ls[1], AllOnto(false, ls[1..][1..], tail));
  }

  /** A printed node without a gap starts with markup, whatever its attributes are. */
  lemma MarkupFirst(l: Laid, tail: string)
    requires !IsText(l) && l.gap == "" && SendableNode(true, Plain(l))
    ensures MarkupAhead(Onto(false, l, tail))
  {
    assert "" + Onto(false, l, tail) == Onto(false, l, tail);
  }
}
