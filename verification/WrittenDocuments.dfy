/** Documents as an author writes them, byte by byte, with blanks wherever they may be, and the trees they are read
    as. */
module WrittenDocuments {
  import opened Optional
  import opened XmlChars
  import opened BlankBytes
  import opened StringDecoding
  import opened WrittenValues
  import opened Dom
  import opened XmlParsing
  import opened XmlBytes
  import opened TagNesting
  import Layout
  import RoundTrip

  // ---------------------------------------------------------------------------------------------
  // What is written
  // ---------------------------------------------------------------------------------------------

  /** A name and a quoted value, with blanks in front and on both sides of the equals sign. */
  datatype WrittenAttribute =
    WrittenAttribute(gap: string, name: string, before: string, after: string, quote: char, value: seq<Piece>)

  /** Plain text; a comment, section, declaration or unknown; an element of one tag; an element of two tags. */
  datatype WrittenNode =
    | Words(text: seq<Piece>)
    | Marked(gap: string, kind: LeafKind, body: seq<Piece>)
    | Tag(gap: string, name: string, attributes: seq<WrittenAttribute>, endGap: string)
    | Pair(gap: string, name: string, attributes: seq<WrittenAttribute>, endGap: string, children: seq<WrittenNode>,
           closeGap: string, closeEndGap: string)

  datatype WrittenDocument = WrittenDocument(lead: string, bom: bool, nodes: seq<WrittenNode>, trail: string)

  function AttributesText(attributes: seq<WrittenAttribute>, tail: string): string {
    if attributes == [] then tail
    else
      var a := attributes[0];
      a.gap + (a.name + (a.before + ("=" + (a.after + ([a.quote] + (Written(a.value)
      + ([a.quote] + AttributesText(attributes[1..], tail))))))))
  }

  function Header(kind: LeafKind): string {
    match kind
    case Text => ""
    case CData => "<![CDATA["
    case Comment => "<!--"
    case Declaration => "<?"
    case Unknown => "<!"
  }

  function Footer(kind: LeafKind): string {
    match kind
    case Text => ""
    case CData => "]]>"
    case Comment => "-->"
    case Declaration => "?>"
    case Unknown => ">"
  }

  /** The node's text, followed by `tail`. */
  function NodeText(n: WrittenNode, tail: string): string
    decreases n
  {
    match n
    case Words(text) => Written(text) + tail
    case Marked(gap, kind, body) => gap + (Header(kind) + (Written(body) + (Footer(kind) + tail)))
    case Tag(gap, name, attributes, endGap) =>
      gap + ("<" + (name + AttributesText(attributes, endGap + ("/>" + tail))))
    case Pair(gap, name, attributes, endGap, children, closeGap, closeEndGap) =>
      gap + ("<" + (name + AttributesText(attributes, endGap + (">" +
        NodesText(children, closeGap + ("</" + (name + (closeEndGap + (">" + tail)))))))))
  }

  function NodesText(ns: seq<WrittenNode>, tail: string): string
    decreases ns
  {
    if ns == [] then tail else NodeText(ns[0], NodesText(ns[1..], tail))
  }

  /** The byte order mark. */
  const MARK := [0xEF as char, 0xBB as char, 0xBF as char]

  function DocumentText(d: WrittenDocument): string {
    d.lead + ((if d.bom then MARK else "") + NodesText(d.nodes, d.trail))
  }

  // ---------------------------------------------------------------------------------------------
  // What it stands for
  // ---------------------------------------------------------------------------------------------

  function Attributes(attributes: seq<WrittenAttribute>): (r: seq<Attribute>)
    ensures |r| == |attributes|
  {
    seq(|attributes|, i requires 0 <= i < |attributes| =>
      Attribute(attributes[i].name, CString(Meant(attributes[i].value))))
  }

  function Tree(options: Options, n: WrittenNode): (r: Node)
    ensures r.Leaf? <==> n.Words? || n.Marked?
    decreases n
  {
    match n
    case Words(text) => Leaf(Text, if options.collapse then Collapse(CString(Meant(text))) else CString(Meant(text)))
    case Marked(_, kind, body) => Leaf(kind, CString(Meant(body)))
    case Tag(_, name, attributes, _) => Element(name, Attributes(attributes), [])
    case Pair(_, name, attributes, _, children, _, _) => Element(name, Attributes(attributes), Trees(options, children))
  }

  function Trees(options: Options, ns: seq<WrittenNode>): (r: seq<Node>)
    ensures |r| == |ns|
    ensures forall i :: 0 <= i < |ns| ==> r[i] == Tree(options, ns[i])
    decreases ns
  {
    if ns == [] then [] else [Tree(options, ns[0])] + Trees(options, ns[1..])
  }

  // ---------------------------------------------------------------------------------------------
  // What may be written
  // ---------------------------------------------------------------------------------------------

  ghost predicate ProperAttribute(entities: bool, a: WrittenAttribute) {
    && Blanks(a.gap) && IsName(a.name) && Blanks(a.before) && Blanks(a.after) && (a.quote == '\"' || a.quote == '\'')
    && Proper(entities, a.value) && a.quote !in Written(a.value)
  }

  /** A blank is behind the tag's name, and every attribute has a name of its own. */
  ghost predicate ProperAttributes(entities: bool, attributes: seq<WrittenAttribute>) {
    && (forall i :: 0 <= i < |attributes| ==> ProperAttribute(entities, attributes[i]))
    && (attributes != [] ==> attributes[0].gap != "")
    && forall i, j :: 0 <= i < j < |attributes| ==> attributes[i].name != attributes[j].name
  }

  /** The text is not blank throughout, and it ends in front of markup. */
  ghost predicate ProperWords(entities: bool, text: seq<Piece>) {
    && Proper(entities, text) && '<' !in Written(text)
    && exists i :: 0 <= i < |Written(text)| && !IsBlank(Written(text)[i])
  }

  /** Nothing in it ends it, and an unknown does not look like a comment or a section. */
  ghost predicate ProperBody(kind: LeafKind, body: seq<Piece>) {
    && !kind.Text? && Proper(false, body) && !Occurs(Footer(kind), Written(body))
    && (kind.Unknown? ==> !("--" <= Written(body)) && !("[CDATA[" <= Written(body)))
  }

  ghost predicate ProperNode(entities: bool, n: WrittenNode)
    decreases n
  {
    match n
    case Words(text) => ProperWords(entities, text)
    case Marked(gap, kind, body) => Blanks(gap) && ProperBody(kind, body)
    case Tag(gap, name, attributes, endGap) =>
      Blanks(gap) && IsName(name) && ProperAttributes(entities, attributes) && Blanks(endGap)
    case Pair(gap, name, attributes, endGap, children, closeGap, closeEndGap) =>
      && Blanks(gap) && IsName(name) && ProperAttributes(entities, attributes) && Blanks(endGap)
      && ProperNodes(entities, children) && Blanks(closeGap) && Blanks(closeEndGap)
      && (children != [] && children[|children| - 1].Words? ==> closeGap == "")
      && forall i :: 0 <= i < |children| ==> !IsMarkedDeclaration(children[i])
  }

  /** Directly behind a text comes markup. */
  ghost predicate ProperNodes(entities: bool, ns: seq<WrittenNode>)
    decreases ns
  {
    && (forall n :: n in ns ==> ProperNode(entities, n))
    && forall i :: 0 < i < |ns| && ns[i - 1].Words? ==> !ns[i].Words? && ns[i].gap == ""
  }

  predicate IsMarkedDeclaration(n: WrittenNode) {
    n.Marked? && n.kind.Declaration?
  }

  /** How many elements of two tags are nested in each other. */
  function Depth(n: WrittenNode): nat
    decreases n
  {
    if n.Pair? then 1 + DepthOfAll(n.children) else 0
  }

  function DepthOfAll(ns: seq<WrittenNode>): (d: nat)
    ensures forall n :: n in ns ==> Depth(n) <= d
    decreases ns
  {
    if ns == [] then 0
    else
      var a, b := Depth(ns[0]), DepthOfAll(ns[1..]);
      assert forall n :: n in ns ==> n == ns[0] || n in ns[1..];
      if a < b then b else a
  }

  /** Declarations come first, no text comes last, and a text that comes first without a mark neither starts with a
      blank nor looks like a mark. */
  ghost predicate ProperDocument(entities: bool, d: WrittenDocument) {
    && Blanks(d.lead) && Blanks(d.trail) && d.nodes != [] && ProperNodes(entities, d.nodes) && DepthOfAll(d.nodes) <= 98
    && (forall i, j :: 0 <= i < j < |d.nodes| && IsMarkedDeclaration(d.nodes[j]) ==> IsMarkedDeclaration(d.nodes[i]))
    && !d.nodes[|d.nodes| - 1].Words?
    && (d.nodes[0].Words? && !d.bom ==>
          !IsBlank(At(Written(d.nodes[0].text), 0)) && !(MARK <= Written(d.nodes[0].text)))
  }

  // ---------------------------------------------------------------------------------------------
  // Values
  // ---------------------------------------------------------------------------------------------

  lemma {:induction false} NoNulIsWritten(entities: bool, ps: seq<Piece>)
    requires forall i :: 0 <= i < |ps| ==> ProperPiece(entities, ps[i])
    ensures NulFree(Written(ps))
  {
    hide Spelling, ProperPiece;
    if ps != [] {
      PieceHasNoNul(entities, ps[0]);
      NoNulIsWritten(entities, ps[1..]);
    }
  }

  lemma PieceHasNoNul(entities: bool, p: Piece)
    requires ProperPiece(entities, p)
    ensures NulFree(Spelling(p))
  {
    if p.Numbered? {
      forall i | 0 <= i < |p.digits|
        ensures p.digits[i] != '\0'
      {
        Decimal(p.digits[i]);
        Hexadecimal(p.digits[i]);
      }
    }
  }

  // ---------------------------------------------------------------------------------------------
  // Tags
  // ---------------------------------------------------------------------------------------------

  lemma QuoteIsFound(quote: char, raw: string, tail: string)
    requires (quote == '\"' || quote == '\'') && NulFree(raw) && quote !in raw
    ensures FindTag(raw + ([quote] + tail), [quote]) == Some(|raw|)
  {
    RoundTrip.ByteIsAbsent(raw, quote);
    RoundTrip.TagIsFound(raw, [quote], tail);
  }

  /** A quoted value behind the equals sign. */
  lemma QuotedIsRead(options: Options, name: string, quote: char, raw: string, tail: string)
    requires IsName(name) && (quote == '\"' || quote == '\'') && NulFree(raw) && quote !in raw
    ensures ParseAttribute(options, name + ("=" + ([quote] + (raw + ([quote] + tail)))))
            == Some((Attribute(name, Eager(AttributeMode(options), raw)), tail))
  {
    hide NameLength, FindTag, Eager, ToQuote, IsName, AttributeMode;
    var t := [quote] + (raw + ([quote] + tail));
    NamesAreLegal(name);
    EqualsIsReached("", "", t);
    assert "" + ("=" + ("" + t)) == "=" + t;
    GapEndsName("", "=" + t);
    assert "" + ("=" + t) == "=" + t;
    RoundTrip.NameIsRead(name, "=" + t);
    RoundTrip.SkipNothing(t);
    QuoteIsFound(quote, raw, tail);
    assert t[1..] == raw + ([quote] + tail);
    assert t[1..][..|raw|] == raw && t[|raw| + 2..] == tail;
  }

  /** A written attribute behind its gap. */
  lemma AttributeIsRead(options: Options, a: WrittenAttribute, tail: string)
    requires ProperAttribute(options.processEntities, a)
    ensures ParseAttribute(options, a.name + (a.before + ("=" + (a.after + ([a.quote] + (Written(a.value)
                                    + ([a.quote] + tail)))))))
            == Some((Attribute(a.name, CString(Meant(a.value))), tail))
  {
    hide ParseAttribute, Written, Meant, CString, IsName;
    NoNulIsWritten(options.processEntities, a.value);
    AroundEquals(options, a.name, a.before, a.after, [a.quote] + (Written(a.value) + ([a.quote] + tail)));
    QuotedIsRead(options, a.name, a.quote, Written(a.value), tail);
    WrittenIsMeant(AttributeMode(options), a.value);
  }

  lemma {:induction false} AttributesAreRead(options: Options, attributes: seq<WrittenAttribute>, tail: string,
                                             before: seq<Attribute>)
    requires forall i :: 0 <= i < |attributes| ==> ProperAttribute(options.processEntities, attributes[i])
    requires UniqueNames(before + Attributes(attributes))
    ensures ParseAttributes(options, AttributesText(attributes, tail), before)
            == ParseAttributes(options, tail, before + Attributes(attributes))
    decreases |attributes|
  {
    hide ParseAttributes, ProperAttribute, UniqueNames, Meant, CString;
    if attributes == [] {
      assert before + Attributes([]) == before;
    } else {
      var a, rest := attributes[0], attributes[1..];
      var read := Attribute(a.name, CString(Meant(a.value)));
      assert Attributes(attributes) == [read] + Attributes(rest);
      assert before + Attributes(attributes) == before + [read] + Attributes(rest);
      NameIsFree(before, read, Attributes(rest));
      OneAttribute(options, a, AttributesText(rest, tail), before);
      AttributesAreRead(options, rest, tail, before + [read]);
    }
  }

  lemma NameIsFree(before: seq<Attribute>, a: Attribute, rest: seq<Attribute>)
    requires UniqueNames(before + [a] + rest)
    ensures !HasAttribute(before, a.name)
  {
    var all := before + [a] + rest;
    forall i | 0 <= i < |before|
      ensures before[i].name != a.name
    {
      assert all[i] == before[i] && all[|before|] == a;
    }
  }

  lemma OneAttribute(options: Options, a: WrittenAttribute, tail: string, before: seq<Attribute>)
    requires ProperAttribute(options.processEntities, a) && !HasAttribute(before, a.name)
    ensures ParseAttributes(options, a.gap + (a.name + (a.before + ("=" + (a.after + ([a.quote] + (Written(a.value)
                                     + ([a.quote] + tail))))))), before)
            == ParseAttributes(options, tail, before + [Attribute(a.name, CString(Meant(a.value)))])
  {
    var s := a.name + (a.before + ("=" + (a.after + ([a.quote] + (Written(a.value) + ([a.quote] + tail))))));
    AttributeIsRead(options, a, tail);
    InFrontOfAttribute(options, a.gap, s, before);
    NameStarts(a.name, a.before + ("=" + (a.after + ([a.quote] + (Written(a.value) + ([a.quote] + tail))))));
    hide ParseAttribute, HasAttribute, IsName, WhiteLead, Written, Meant, CString, Proper;
  }

  /** A name is not skipped, and starts like one. */
  lemma NameStarts(name: string, rest: string)
    requires IsName(name)
    ensures SkipWhite(name + rest) == name + rest && !AtEnd(name + rest) && At(name + rest, 0) !in "/?!"
    ensures IsNameStartChar(At(name + rest, 0))
  {
    hide IsName;
    NamesAreLegal(name);
    LegalStarts(name, rest);
    RoundTrip.SkipNothing(name + rest);
  }

  lemma LegalStarts(name: string, rest: string)
    requires Layout.LegalName(name)
    ensures var c := At(name + rest, 0); IsNameStartChar(c) && !IsWhiteSpace(c) && c !in "/?!" && !AtEnd(name + rest)
  {
    assert (name + rest)[0] == name[0];
  }

  /** What follows a tag's name does not continue it. */
  lemma NameEnds(attributes: seq<WrittenAttribute>, endGap: string, end: string)
    requires (attributes != [] ==> attributes[0].gap != "" && Blanks(attributes[0].gap)) && Blanks(endGap)
    requires end != "" && (end[0] == '>' || end[0] == '/')
    ensures !IsNameChar(At(AttributesText(attributes, endGap + end), 0))
  {
    hide AttributesText, IsNameChar, IsBlank;
    FirstByte(attributes, endGap + end);
    if attributes != [] {
      BlankEndsName(attributes[0].gap[0]);
    } else if endGap != "" {
      BlankEndsName(endGap[0]);
      assert (endGap + end)[0] == endGap[0];
    } else {
      TagEndEndsName(end[0]);
      assert endGap + end == end;
    }
  }

  lemma FirstByte(attributes: seq<WrittenAttribute>, tail: string)
    ensures if attributes == [] then AttributesText(attributes, tail) == tail
            else attributes[0].gap != "" ==> At(AttributesText(attributes, tail), 0) == attributes[0].gap[0]
  {
  }

  lemma BlankEndsName(c: char)
    requires IsBlank(c)
    ensures !IsNameChar(c)
  {
  }

  lemma TagEndEndsName(c: char)
    requires c == '>' || c == '/'
    ensures !IsNameChar(c)
  {
  }

  /** The name and attributes of a tag, and its end. */
  lemma BodyIsRead(options: Options, name: string, attributes: seq<WrittenAttribute>, endGap: string, sealed: bool,
                   tail: string)
    requires IsName(name) && ProperAttributes(options.processEntities, attributes) && Blanks(endGap)
    ensures var s := name + AttributesText(attributes, endGap + ((if sealed then "/>" else ">") + tail));
            TagBody(options, s, name, Attributes(attributes), sealed, tail)
  {
    hide IsName, ProperAttribute, ParseAttributes, NameLength, AttributesText, Attributes;
    var end := (if sealed then "/>" else ">") + tail;
    NamesAreLegal(name);
    AttributeGap(options.processEntities, attributes);
    NameEnds(attributes, endGap, end);
    RoundTrip.NameIsRead(name, AttributesText(attributes, endGap + end));
    NamesAreUnique(options.processEntities, attributes);
    assert [] + Attributes(attributes) == Attributes(attributes);
    AttributesAreRead(options, attributes, endGap + end, []);
    InFrontOfAttribute(options, endGap, end, Attributes(attributes));
    RoundTrip.TagEndIsRead(options, tail, Attributes(attributes));
    NotEmptyName(name);
  }

  lemma NotEmptyName(name: string)
    requires IsName(name)
    ensures name != ""
  {
  }

  lemma AttributeGap(entities: bool, attributes: seq<WrittenAttribute>)
    requires ProperAttributes(entities, attributes)
    ensures attributes != [] ==> attributes[0].gap != "" && Blanks(attributes[0].gap)
  {
    hide IsName, Proper;
    assert attributes != [] ==> ProperAttribute(entities, attributes[0]);
  }

  lemma NamesAreUnique(entities: bool, attributes: seq<WrittenAttribute>)
    requires ProperAttributes(entities, attributes)
    ensures UniqueNames(Attributes(attributes))
  {
    hide ProperAttribute;
  }

  lemma TagIsAhead(gap: string, t: string)
    requires Blanks(gap)
    ensures TagStart(gap + ("<" + t), t)
  {
    hide WhiteLead;
    BlanksAreSkipped(gap, "<" + t);
    RoundTrip.SkipNothing("<" + t);
  }

  lemma StartIsRead(options: Options, gap: string, name: string, attributes: seq<WrittenAttribute>, endGap: string,
                    sealed: bool, tail: string)
    requires Blanks(gap) && IsName(name) && ProperAttributes(options.processEntities, attributes) && Blanks(endGap)
    ensures StartTagOf(options,
                       gap + ("<" + (name
                                     + AttributesText(attributes, endGap + ((if sealed then "/>" else ">") + tail)))),
                       name, Attributes(attributes), sealed, tail)
  {
    hide TagBody, TagStart, IsName, AttributesText, Attributes, ProperAttributes, WhiteLead;
    var t := name + AttributesText(attributes, endGap + ((if sealed then "/>" else ">") + tail));
    BodyIsRead(options, name, attributes, endGap, sealed, tail);
    TagIsAhead(gap, t);
    NameStarts(name, AttributesText(attributes, endGap + ((if sealed then "/>" else ">") + tail)));
    assert StartBody(options, t, name, Attributes(attributes), sealed, tail);
  }

  lemma EndIsRead(options: Options, closeGap: string, name: string, closeEndGap: string, tail: string)
    requires Blanks(closeGap) && IsName(name) && Blanks(closeEndGap)
    ensures EndTagOf(options, closeGap + ("</" + (name + (closeEndGap + (">" + tail)))), name, tail)
  {
    hide TagBody, TagStart, IsName, WhiteLead;
    var t := "/" + (name + (closeEndGap + (">" + tail)));
    BodyIsRead(options, name, [], closeEndGap, false, tail);
    TagIsAhead(closeGap, t);
    assert "<" + t == "</" + (name + (closeEndGap + (">" + tail)));
    RoundTrip.SkipNothing(t);
    assert t[1..] == name + (closeEndGap + (">" + tail));
    assert EndBody(options, t, name, Attributes([]), tail);
  }

  // ---------------------------------------------------------------------------------------------
  // Leaves
  // ---------------------------------------------------------------------------------------------

  lemma FooterEnds(kind: LeafKind)
    requires !kind.Text?
    ensures Header(kind) == Layout.HeaderOf(kind) && Footer(kind) == EndOf(kind) && RoundTrip.EndsOnce(Footer(kind))
  {
  }

  lemma MarkedIsRead(options: Options, gap: string, kind: LeafKind, body: seq<Piece>, tail: string)
    requires Blanks(gap) && ProperBody(kind, body)
    ensures LeafOf(options, NodeText(Marked(gap, kind, body), tail), Leaf(kind, CString(Meant(body))), tail)
  {
    hide Identify, FindTag, Eager, Occurs, Written, Meant, CString, ProperPiece, Apart;
    var raw, t := Written(body), Written(body) + (Footer(kind) + tail);
    FooterEnds(kind);
    NoNulIsWritten(false, body);
    BlanksAreWhite(gap);
    FoundIfOccurs(raw, Footer(kind));
    RoundTrip.TagIsFound(raw, Footer(kind), tail);
    WrittenIsMeant(NEWLINES, body);
    UnknownStays(kind, body, tail);
    RoundTrip.HeaderIsIdentified(gap, kind, t);
    assert t[..|raw|] == raw && t[|raw| + |Footer(kind)|..] == tail;
    assert Identify(NodeText(Marked(gap, kind, body), tail)) == Some((StartLeaf(kind), t));
  }

  /** What follows an unknown's header still does not look like a comment or a section. */
  lemma UnknownStays(kind: LeafKind, body: seq<Piece>, tail: string)
    requires ProperBody(kind, body)
    ensures var t := Written(body) + (Footer(kind) + tail);
            kind.Unknown? ==> !StartsWith(t, "--") && !StartsWith(t, "[CDATA[")
  {
    hide Written, Proper, Occurs;
    if kind.Unknown? {
      RoundTrip.UnknownStaysUnknown(Written(body), tail);
    }
  }

  lemma WordsAreRead(options: Options, text: seq<Piece>, tail: string)
    requires ProperWords(options.processEntities, text) && |tail| >= 2 && tail[0] == '<' && tail[1] != '\0'
    ensures LeafOf(options, Written(text) + tail, Tree(options, Words(text)), tail)
  {
    hide Identify, FindTag, Eager, Written, Meant, CString, Collapse, Proper;
    var raw := Written(text);
    var i :| 0 <= i < |raw| && !IsBlank(raw[i]);
    NoNulInWords(options.processEntities, text);
    TextIsIdentified(raw, tail, i);
    RoundTrip.ByteIsAbsent(raw, '<');
    RoundTrip.TextEnds(raw, tail);
    WrittenIsMeant(TextMode(options), text);
  }

  lemma NoNulInWords(entities: bool, text: seq<Piece>)
    requires Proper(entities, text)
    ensures NulFree(Written(text))
  {
    hide ProperPiece, Apart;
    NoNulIsWritten(entities, text);
  }

  /** A byte that is not blank makes it a text. */
  lemma TextIsIdentified(raw: string, tail: string, i: nat)
    requires i < |raw| && !IsBlank(raw[i]) && '<' !in raw && NulFree(raw)
    ensures Identify(raw + tail) == Some((StartLeaf(Text), raw + tail))
  {
    hide Identify, IsBlank;
    var n := FirstInk(raw, i);
    var g, s := raw[..n], raw[n..] + tail;
    assert raw + tail == g + s && s[0] == raw[n];
    assert raw[n] in raw;
    TextStarts(g, s);
  }

  lemma FirstInk(raw: string, i: nat) returns (n: nat)
    requires i < |raw| && !IsBlank(raw[i])
    ensures n <= i && !IsBlank(raw[n]) && Blanks(raw[..n])
  {
    hide IsBlank;
    n := 0;
    while IsBlank(raw[n])
      invariant n <= i && forall k :: 0 <= k < n ==> IsBlank(raw[k])
      decreases i - n
    {
      n := n + 1;
    }
  }

  // ---------------------------------------------------------------------------------------------
  // Nodes
  // ---------------------------------------------------------------------------------------------

  /** What follows a list that may end in a text. */
  predicate Follows(ns: seq<WrittenNode>, tail: string) {
    ns != [] && ns[|ns| - 1].Words? ==> |tail| >= 2 && tail[0] == '<' && tail[1] != '\0'
  }

  /** A node of markup without a gap starts with markup. */
  lemma StartsWithMarkup(entities: bool, n: WrittenNode, tail: string)
    requires ProperNode(entities, n) && !n.Words? && n.gap == ""
    ensures var s := NodeText(n, tail); |s| >= 2 && s[0] == '<' && s[1] != '\0'
  {
    hide AttributesText, Written, IsName, ProperAttributes, ProperNodes, Blanks, Occurs;
    if n.Marked? {
      MarkedStarts(n, tail);
    } else {
      TagStarts(n, tail);
    }
  }

  lemma MarkedStarts(n: WrittenNode, tail: string)
    requires n.Marked? && !n.kind.Text? && n.gap == ""
    ensures var s := NodeText(n, tail); |s| >= 2 && s[0] == '<' && s[1] != '\0'
  {
    hide Written;
    assert "" + (Header(n.kind) + (Written(n.body) + (Footer(n.kind) + tail)))
        == Header(n.kind) + (Written(n.body) + (Footer(n.kind) + tail));
    assert Header(n.kind)[0] == '<' && Header(n.kind)[1] != '\0';
  }

  lemma TagStarts(n: WrittenNode, tail: string)
    requires (n.Tag? || n.Pair?) && n.gap == "" && IsName(n.name)
    ensures var s := NodeText(n, tail); |s| >= 2 && s[0] == '<' && s[1] != '\0'
  {
    hide AttributesText, IsName;
    NamesAreLegal(n.name);
    assert n.name[0] != '\0';
    var s := NodeText(n, tail);
    assert s[0] == '<' && s[1] == n.name[0];
  }

  lemma {:induction false} NodeIsNested(options: Options, depth: nat, n: WrittenNode, tail: string)
    requires ProperNode(options.processEntities, n) && Depth(n) + depth < 100 && Follows([n], tail)
    ensures Nested(options, depth, Tree(options, n), NodeText(n, tail), tail)
    decreases n, 1
  {
    match n
    case Words(text) =>
      WordsAreRead(options, text, tail);
    case Marked(gap, kind, body) =>
      MarkedIsRead(options, gap, kind, body, tail);
    case Tag(gap, name, attributes, endGap) =>
      TagIsNested(options, depth, n, tail);
    case Pair(gap, name, attributes, endGap, children, closeGap, closeEndGap) =>
      PairIsNested(options, depth, n, tail);
  }

  lemma TagIsNested(options: Options, depth: nat, n: WrittenNode, tail: string)
    requires n.Tag? && ProperNode(options.processEntities, n)
    ensures Nested(options, depth, Tree(options, n), NodeText(n, tail), tail)
  {
    hide StartTagOf, AttributesText, Attributes, IsName, ProperAttributes;
    StartIsRead(options, n.gap, n.name, n.attributes, n.endGap, true, tail);
  }

  lemma {:induction false} PairIsNested(options: Options, depth: nat, n: WrittenNode, tail: string)
    requires n.Pair? && ProperNode(options.processEntities, n) && Depth(n) + depth < 100
    ensures Nested(options, depth, Tree(options, n), NodeText(n, tail), tail)
    decreases n, 0
  {
    hide StartTagOf, EndTagOf, Nested, NestedAll, AttributesText, Attributes, IsName, ProperAttributes, ProperNodes,
         ProperNode, NodeText, NodesText, Tree, Trees, Located, Follows, EndText, Depth, DepthOfAll;
    PairParts(options.processEntities, n);
    PairDepth(n);
    PairTree(options, n);
    var end := EndText(n, tail);
    PairStart(options, n, tail);
    EndFollows(n, tail);
    NodesAreNested(options, depth + 1, n.children, end);
    PairEnd(options, n, tail);
    ChildrenAreLocated(options, n);
    EnclosedIsNested(options, depth, Tree(options, n), NodeText(n, tail), NodesText(n.children, end), end, tail);
  }

  /** The end tag of a pair, in front of `tail`. */
  function EndText(n: WrittenNode, tail: string): string
    requires n.Pair?
  {
    n.closeGap + ("</" + (n.name + (n.closeEndGap + (">" + tail))))
  }

  lemma PairDepth(n: WrittenNode)
    requires n.Pair?
    ensures Depth(n) == 1 + DepthOfAll(n.children)
  {
    hide DepthOfAll;
  }

  lemma PairStart(options: Options, n: WrittenNode, tail: string)
    requires n.Pair? && Blanks(n.gap) && IsName(n.name) && ProperAttributes(options.processEntities, n.attributes)
             && Blanks(n.endGap)
    ensures StartTagOf(options, NodeText(n, tail), n.name, Attributes(n.attributes), false,
                       NodesText(n.children, EndText(n, tail)))
  {
    hide StartTagOf, AttributesText, Attributes, IsName, ProperAttributes, NodesText;
    StartIsRead(options, n.gap, n.name, n.attributes, n.endGap, false, NodesText(n.children, EndText(n, tail)));
  }

  lemma PairEnd(options: Options, n: WrittenNode, tail: string)
    requires n.Pair? && Blanks(n.closeGap) && IsName(n.name) && Blanks(n.closeEndGap)
    ensures EndTagOf(options, EndText(n, tail), n.name, tail)
  {
    hide EndTagOf, IsName;
    EndIsRead(options, n.closeGap, n.name, n.closeEndGap, tail);
  }

  lemma EnclosedIsNested(options: Options, depth: nat, t: Node, s: string, inner: string, end: string, tail: string)
    requires t.Element? && depth + 1 < MAX_ELEMENT_DEPTH && StartTagOf(options, s, t.name, t.attributes, false, inner)
    requires NestedAll(options, depth + 1, t.children, inner, end) && Located(false, [], t.children)
             && EndTagOf(options, end, t.name, tail)
    ensures Nested(options, depth, t, s, tail)
  {
    hide StartTagOf, EndTagOf, NestedAll, Located;
    assert Enclosed(options, depth, t, s, inner, end, tail);
  }

  lemma PairParts(entities: bool, n: WrittenNode)
    requires n.Pair? && ProperNode(entities, n)
    ensures Blanks(n.gap) && IsName(n.name) && ProperAttributes(entities, n.attributes) && Blanks(n.endGap)
    ensures ProperNodes(entities, n.children) && Blanks(n.closeGap) && Blanks(n.closeEndGap)
    ensures n.children != [] && n.children[|n.children| - 1].Words? ==> n.closeGap == ""
    ensures forall i :: 0 <= i < |n.children| ==> !IsMarkedDeclaration(n.children[i])
  {
    hide IsName, ProperAttributes, Blanks;
  }

  lemma EndFollows(n: WrittenNode, tail: string)
    requires n.Pair? && (n.children != [] && n.children[|n.children| - 1].Words? ==> n.closeGap == "")
    ensures Follows(n.children, EndText(n, tail))
  {
    var end := "</" + (n.name + (n.closeEndGap + (">" + tail)));
    assert "" + end == end;
  }

  lemma ChildrenAreLocated(options: Options, n: WrittenNode)
    requires n.Pair? && forall i :: 0 <= i < |n.children| ==> !IsMarkedDeclaration(n.children[i])
    ensures Located(false, [], Tree(options, n).children)
  {
    hide Tree;
    forall i | 0 <= i < |n.children|
      ensures !IsDeclaration(Tree(options, n.children[i]))
    {
      DeclarationsStay(options, n.children[i]);
    }
    PairTree(options, n);
  }

  lemma PairTree(options: Options, n: WrittenNode)
    requires n.Pair?
    ensures Tree(options, n) == Element(n.name, Attributes(n.attributes), Trees(options, n.children))
  {
    hide Attributes, Trees;
  }

  lemma DeclarationsStay(options: Options, n: WrittenNode)
    ensures IsDeclaration(Tree(options, n)) <==> IsMarkedDeclaration(n)
  {
    hide CString, Meant, Collapse;
  }

  lemma {:induction false} NodesAreNested(options: Options, depth: nat, ns: seq<WrittenNode>, tail: string)
    requires ProperNodes(options.processEntities, ns) && DepthOfAll(ns) + depth < 100 && Follows(ns, tail)
    ensures NestedAll(options, depth, Trees(options, ns), NodesText(ns, tail), tail)
    decreases ns, 0
  {
    hide Nested, ProperNode, NodeText, Tree;
    if ns == [] {
      NothingNested(options, depth, tail, false, []);
    } else {
      var n, more := ns[0], ns[1..];
      FirstAndRest(options.processEntities, ns, tail);
      NodesAreNested(options, depth, more, tail);
      NodeIsNested(options, depth, n, NodesText(more, tail));
      hide NestedAll;
      NestedCons(options, depth, Tree(options, n), Trees(options, more), NodesText(ns, tail), NodesText(more, tail),
                 tail);
    }
  }

  lemma FirstAndRest(entities: bool, ns: seq<WrittenNode>, tail: string)
    requires ProperNodes(entities, ns) && ns != [] && Follows(ns, tail)
    ensures ProperNode(entities, ns[0]) && ProperNodes(entities, ns[1..])
    ensures Follows([ns[0]], NodesText(ns[1..], tail)) && Follows(ns[1..], tail)
    ensures Depth(ns[0]) <= DepthOfAll(ns) && DepthOfAll(ns[1..]) <= DepthOfAll(ns)
  {
    hide ProperNode, NodeText, Depth;
    assert ns[0] in ns;
    forall n | n in ns[1..]
      ensures n in ns
    {
    }
    if |ns| > 1 {
      assert ns[1..][0] == ns[1] && ns[1] in ns;
      assert ns[1..][|ns| - 2] == ns[|ns| - 1];
      if ns[0].Words? {
        StartsWithMarkup(entities, ns[1], NodesText(ns[1..][1..], tail));
      }
    }
    forall i | 0 < i < |ns[1..]| && ns[1..][i - 1].Words?
      ensures !ns[1..][i].Words? && ns[1..][i].gap == ""
    {
      assert ns[1..][i - 1] == ns[i] && ns[1..][i] == ns[i + 1];
    }
  }

  // ---------------------------------------------------------------------------------------------
  // Documents
  // ---------------------------------------------------------------------------------------------

  /** The node without the blanks in front of it. */
  function Ungapped(n: WrittenNode): (r: WrittenNode)
    ensures r.Words? == n.Words? && IsMarkedDeclaration(r) == IsMarkedDeclaration(n)
  {
    if n.Words? then n else n.(gap := "")
  }

  function FirstUngapped(ns: seq<WrittenNode>): (r: seq<WrittenNode>)
    requires ns != []
    ensures |r| == |ns|
  {
    [Ungapped(ns[0])] + ns[1..]
  }

  lemma UngappedIsSame(options: Options, n: WrittenNode)
    ensures Tree(options, Ungapped(n)) == Tree(options, n) && Depth(Ungapped(n)) == Depth(n)
    ensures ProperNode(options.processEntities, n) ==> ProperNode(options.processEntities, Ungapped(n))
  {
    hide Meant, CString, Collapse, Attributes, ProperAttributes, ProperNodes, IsName, ProperBody, ProperWords;
  }

  lemma FirstUngappedIsSame(options: Options, ns: seq<WrittenNode>)
    requires ns != []
    ensures Trees(options, FirstUngapped(ns)) == Trees(options, ns)
    ensures DepthOfAll(FirstUngapped(ns)) == DepthOfAll(ns)
    ensures ProperNodes(options.processEntities, ns) ==> ProperNodes(options.processEntities, FirstUngapped(ns))
  {
    hide Tree, Depth, ProperNode, Ungapped;
    var r := FirstUngapped(ns);
    UngappedIsSame(options, ns[0]);
    assert r[1..] == ns[1..] && ns[0] in ns;
    if ProperNodes(options.processEntities, ns) {
      forall n | n in r
        ensures ProperNode(options.processEntities, n)
      {
        assert n == r[0] || n in ns;
      }
    }
  }

  /** The blanks in front of a node can be skipped before it is read. */
  lemma GapIsSkipped(entities: bool, ns: seq<WrittenNode>, tail: string)
    requires ns != [] && ProperNodes(entities, ns) && !ns[0].Words?
    ensures SkipWhite(NodesText(ns, tail)) == NodesText(FirstUngapped(ns), tail)
    ensures var s := NodesText(FirstUngapped(ns), tail); s != "" && s[0] == '<'
  {
    hide WhiteLead, ProperNode;
    assert ns[0] in ns;
    var rest, bare := NodesText(ns[1..], tail), Ungapped(ns[0]);
    UngappedIsProper(entities, ns[0]);
    StartsWithMarkup(entities, bare, rest);
    GapInFront(ns[0], rest);
    GapIsBlank(entities, ns[0]);
    BlanksAreSkipped(ns[0].gap, NodeText(bare, rest));
    RoundTrip.SkipNothing(NodeText(bare, rest));
    assert FirstUngapped(ns)[1..] == ns[1..];
  }

  lemma UngappedIsProper(entities: bool, n: WrittenNode)
    requires ProperNode(entities, n)
    ensures ProperNode(entities, Ungapped(n)) && (!n.Words? ==> Ungapped(n).gap == "")
  {
    hide ProperAttributes, ProperNodes, IsName, ProperBody, ProperWords;
  }

  lemma GapInFront(n: WrittenNode, tail: string)
    requires !n.Words?
    ensures NodeText(n, tail) == n.gap + NodeText(Ungapped(n), tail)
  {
    hide AttributesText, Written;
    var s := NodeText(Ungapped(n), tail);
    assert forall t: string {:trigger "" + t} :: "" + t == t;
  }

  lemma GapIsBlank(entities: bool, n: WrittenNode)
    requires ProperNode(entities, n) && !n.Words?
    ensures Blanks(n.gap)
  {
    hide ProperAttributes, ProperNodes, IsName, ProperBody, Blanks;
  }

  lemma OnlyBlanks(g: string)
    requires Blanks(g)
    ensures SkipWhite(g) == ""
  {
    BlanksAreWhite(g);
    BlanksAreSkipped(g, "");
    assert g + "" == g;
  }

  lemma DeclarationsAreLocated(options: Options, ns: seq<WrittenNode>)
    requires forall i, j :: 0 <= i < j < |ns| && IsMarkedDeclaration(ns[j]) ==> IsMarkedDeclaration(ns[i])
    ensures Located(true, [], Trees(options, ns))
  {
    hide Tree, IsDeclaration, IsMarkedDeclaration;
    var ts := Trees(options, ns);
    forall i | 0 <= i < |ns|
      ensures IsDeclaration(ts[i]) <==> IsMarkedDeclaration(ns[i])
    {
      DeclarationsStay(options, ns[i]);
    }
    assert forall i :: 0 <= i < |ts| ==> [] + ts[..i] == ts[..i];
  }

  /** Where the nodes begin. */
  lemma MarkIsRead(entities: bool, d: WrittenDocument)
    requires ProperDocument(entities, d)
    ensures var text := DocumentText(d);
            && !AtEnd(text) && StartsWith(SkipWhite(text), BOM) == d.bom
            && AfterBom(text) == NodesText(if d.bom then d.nodes else FirstUngapped(d.nodes), d.trail)
  {
    hide WhiteLead, StartsWith, ProperNodes, NodesText;
    var body := NodesText(d.nodes, d.trail);
    if d.bom {
      RoundTrip.SkipNothing(MARK + body);
      BlanksAreSkipped(d.lead, MARK + body);
      RoundTrip.Split(BOM, body);
      assert BOM + body == MARK + body && MARK + body != "";
      NotAtEnd(d.lead, MARK + body);
    } else {
      if d.nodes[0].Words? {
        WordsAreFirst(entities, d.nodes, d.trail);
      } else {
        GapIsSkipped(entities, d.nodes, d.trail);
        PrefixDiffers(SkipWhite(body), BOM, 0);
      }
      assert "" + body == body;
      BlanksAreSkipped(d.lead, body);
      TextIsThere(d.lead + body);
    }
  }

  lemma TextIsThere(s: string)
    requires !AtEnd(SkipWhite(s))
    ensures !AtEnd(s)
  {
    if AtEnd(s) {
      RoundTrip.SkipNothing(s);
    }
  }

  /** A text in front of all markup. */
  lemma WordsAreFirst(entities: bool, ns: seq<WrittenNode>, tail: string)
    requires ns != [] && ProperNodes(entities, ns) && ns[0].Words? && !ns[|ns| - 1].Words?
    requires !IsBlank(At(Written(ns[0].text), 0)) && !(MARK <= Written(ns[0].text))
    ensures var body := NodesText(ns, tail);
            SkipWhite(body) == body && !AtEnd(body) && !StartsWith(body, BOM) && FirstUngapped(ns) == ns
  {
    hide WhiteLead, ProperNode, Written, NodeText, NodesText, IsBlank, IsWhiteSpace;
    assert ns[0] in ns && ns[1] in ns;
    var w, rest := Written(ns[0].text), NodesText(ns[1..], tail);
    WordsHold(entities, ns[0]);
    SecondIsMarkup(entities, ns, tail);
    TextOf(ns, tail);
    BlankIsWhite(w[0]);
    RoundTrip.SkipNothing(w + rest);
    NoMark(w, rest);
  }

  lemma TextOf(ns: seq<WrittenNode>, tail: string)
    requires ns != [] && ns[0].Words?
    ensures NodesText(ns, tail) == Written(ns[0].text) + NodesText(ns[1..], tail)
  {
    hide Written;
  }

  lemma WordsHold(entities: bool, n: WrittenNode)
    requires n.Words? && ProperNode(entities, n)
    ensures Written(n.text) != "" && NulFree(Written(n.text))
  {
    hide Written, Proper;
    NoNulInWords(entities, n.text);
  }

  lemma SecondIsMarkup(entities: bool, ns: seq<WrittenNode>, tail: string)
    requires |ns| > 1 && ProperNodes(entities, ns) && ns[0].Words?
    ensures var s := NodesText(ns[1..], tail); s != "" && s[0] == '<'
  {
    hide ProperNode, NodeText;
    assert ns[1] in ns && ns[1..][0] == ns[1];
    StartsWithMarkup(entities, ns[1], NodesText(ns[1..][1..], tail));
  }

  lemma NoMark(w: string, rest: string)
    requires !(MARK <= w) && rest != "" && rest[0] == '<'
    ensures !StartsWith(w + rest, BOM)
  {
    var t := w + rest;
    if |w| < 3 {
      assert t[|w|] == '<';
      PrefixDiffers(t, BOM, |w|);
    } else {
      assert t[..3] == w[..3];
    }
  }

  lemma BomIsKept(options: Options, text: string)
    ensures var r := ParseDocument(options, text); r.Parsed? ==> r.bom == StartsWith(SkipWhite(text), BOM)
  {
    hide ParseDeep, WhiteLead, StartsWith;
  }

  /** Every document that is properly written, with whatever blanks, is read as what it stands for. */
  lemma WrittenIsRead(options: Options, d: WrittenDocument)
    requires ProperDocument(options.processEntities, d)
    ensures ParseDocument(options, DocumentText(d)) == Parsed(d.bom, Trees(options, d.nodes))
  {
    hide ParseDocument, NestedAll, Located, ProperNodes, NodesText, Trees, DocumentText, AtEnd, WhiteLead, StartsWith,
         AfterBom,
         DepthOfAll, IsMarkedDeclaration;
    var text, ns := DocumentText(d), if d.bom then d.nodes else FirstUngapped(d.nodes);
    MarkIsRead(options.processEntities, d);
    FirstUngappedIsSame(options, d.nodes);
    DeclarationsAreLocated(options, d.nodes);
    EndsInMarkup(d);
    NodesAreNested(options, 1, ns, d.trail);
    SomethingIsNested(options, ns, d.trail);
    OnlyBlanks(d.trail);
    EndIsEnd();
    assert Stops(options, d.trail);
    ReadsExactly(options, text, Trees(options, d.nodes));
    BomIsKept(options, text);
  }

  lemma EndIsEnd()
    ensures AtEnd("")
  {
  }

  lemma EndsInMarkup(d: WrittenDocument)
    requires d.nodes != [] && !d.nodes[|d.nodes| - 1].Words?
    ensures Follows(d.nodes, d.trail) && Follows(FirstUngapped(d.nodes), d.trail)
  {
  }

  lemma SomethingIsNested(options: Options, ns: seq<WrittenNode>, tail: string)
    requires ns != [] && NestedAll(options, 1, Trees(options, ns), NodesText(ns, tail), tail)
    ensures !AtEnd(NodesText(ns, tail))
  {
    hide Nested, NodesText, Trees, AtEnd;
    var mid :| Nested(options, 1, Trees(options, ns)[0], NodesText(ns, tail), mid);
    NodeIsThere(options, 1, Trees(options, ns)[0], NodesText(ns, tail), mid);
  }

  // ---------------------------------------------------------------------------------------------
  // Blanks make no difference
  // ---------------------------------------------------------------------------------------------

  /** One space in front of each attribute. */
  function TightAttributes(attributes: seq<WrittenAttribute>): (r: seq<WrittenAttribute>)
    ensures |r| == |attributes|
  {
    seq(|attributes|, i requires 0 <= i < |attributes| => attributes[i].(gap := " ", before := "", after := ""))
  }

  /** The node without any blanks but that one. */
  function Tight(n: WrittenNode): (r: WrittenNode)
    ensures r.Words? == n.Words? && IsMarkedDeclaration(r) == IsMarkedDeclaration(n) && (!r.Words? ==> r.gap == "")
    ensures r.Pair? == n.Pair?
    decreases n
  {
    match n
    case Words(_) => n
    case Marked(_, kind, body) => Marked("", kind, body)
    case Tag(_, name, attributes, _) => Tag("", name, TightAttributes(attributes), "")
    case Pair(_, name, attributes, _, children, _, _) =>
      Pair("", name, TightAttributes(attributes), "", TightAll(children), "", "")
  }

  function TightAll(ns: seq<WrittenNode>): (r: seq<WrittenNode>)
    ensures |r| == |ns|
    ensures forall i :: 0 <= i < |ns| ==> r[i] == Tight(ns[i])
    decreases ns
  {
    if ns == [] then [] else [Tight(ns[0])] + TightAll(ns[1..])
  }

  function TightDocument(d: WrittenDocument): WrittenDocument {
    WrittenDocument("", d.bom, TightAll(d.nodes), "")
  }

  lemma TightAttributesAreSame(entities: bool, attributes: seq<WrittenAttribute>)
    requires ProperAttributes(entities, attributes)
    ensures ProperAttributes(entities, TightAttributes(attributes))
    ensures Attributes(TightAttributes(attributes)) == Attributes(attributes)
  {
    hide IsName, Proper, Written, Meant, CString;
    var r := TightAttributes(attributes);
    forall i | 0 <= i < |r|
      ensures ProperAttribute(entities, r[i])
    {
      assert ProperAttribute(entities, attributes[i]);
    }
  }

  lemma {:induction false} TightIsSame(options: Options, n: WrittenNode)
    requires ProperNode(options.processEntities, n)
    ensures ProperNode(options.processEntities, Tight(n))
    ensures Tree(options, Tight(n)) == Tree(options, n) && Depth(Tight(n)) == Depth(n)
    decreases n, 1
  {
    hide ProperAttributes, ProperNodes, TightAttributes, TightAll, Attributes, IsName, ProperBody, ProperWords, Trees,
         DepthOfAll, IsMarkedDeclaration, Meant, CString, Collapse;
    if n.Tag? || n.Pair? {
      TightAttributesAreSame(options.processEntities, n.attributes);
    }
    if n.Pair? {
      TightAllAreSame(options, n.children);
    }
  }

  lemma {:induction false} TightAllAreSame(options: Options, ns: seq<WrittenNode>)
    requires ProperNodes(options.processEntities, ns)
    ensures ProperNodes(options.processEntities, TightAll(ns))
    ensures Trees(options, TightAll(ns)) == Trees(options, ns) && DepthOfAll(TightAll(ns)) == DepthOfAll(ns)
    decreases ns, 0
  {
    hide ProperNode, ProperNodes, Tight, Tree, Depth;
    if ns == [] {
      NothingIsProper(options.processEntities);
    } else {
      RestIsProper(options.processEntities, ns);
      TightIsSame(options, ns[0]);
      TightAllAreSame(options, ns[1..]);
      assert TightAll(ns)[1..] == TightAll(ns[1..]);
      TightStaysProper(options.processEntities, ns[0], ns[1..], ns);
    }
  }

  lemma NothingIsProper(entities: bool)
    ensures ProperNodes(entities, [])
  {
  }

  lemma TightStaysProper(entities: bool, n: WrittenNode, more: seq<WrittenNode>, ns: seq<WrittenNode>)
    requires ns == [n] + more && ProperNodes(entities, ns) && ProperNode(entities, Tight(n))
    requires ProperNodes(entities, TightAll(more))
    ensures ProperNodes(entities, TightAll(ns))
  {
    hide ProperNode, Tight, ProperNodes;
    assert TightAll(ns) == [Tight(n)] + TightAll(more);
    MembersAreProper(entities, TightAll(more));
    MarkupAfterText(entities, ns);
    ProperFrom(entities, ns, [Tight(n)] + TightAll(more));
  }

  lemma MembersAreProper(entities: bool, ns: seq<WrittenNode>)
    requires ProperNodes(entities, ns)
    ensures forall i :: 0 <= i < |ns| ==> ProperNode(entities, ns[i])
  {
    hide ProperNode;
  }

  lemma MarkupAfterText(entities: bool, ns: seq<WrittenNode>)
    requires ProperNodes(entities, ns)
    ensures forall i :: 0 < i < |ns| && ns[i - 1].Words? ==> !ns[i].Words?
  {
    hide ProperNode;
  }

  lemma ProperFrom(entities: bool, ns: seq<WrittenNode>, r: seq<WrittenNode>)
    requires |r| == |ns| && forall i :: 0 <= i < |r| ==> ProperNode(entities, r[i])
    requires forall i :: 0 <= i < |r| ==> r[i].Words? == ns[i].Words? && (!r[i].Words? ==> r[i].gap == "")
    requires forall i :: 0 < i < |ns| && ns[i - 1].Words? ==> !ns[i].Words?
    ensures ProperNodes(entities, r)
  {
    hide ProperNode;
  }

  lemma RestIsProper(entities: bool, ns: seq<WrittenNode>)
    requires ProperNodes(entities, ns) && ns != []
    ensures ProperNodes(entities, ns[1..]) && ProperNode(entities, ns[0])
  {
    hide ProperNode;
    assert ns[0] in ns && forall n :: n in ns[1..] ==> n in ns;
    forall i | 0 < i < |ns[1..]| && ns[1..][i - 1].Words?
      ensures !ns[1..][i].Words? && ns[1..][i].gap == ""
    {
      assert ns[1..][i - 1] == ns[i] && ns[1..][i] == ns[i + 1];
    }
  }

  lemma TightDocumentIsProper(options: Options, d: WrittenDocument)
    requires ProperDocument(options.processEntities, d)
    ensures ProperDocument(options.processEntities, TightDocument(d))
    ensures Trees(options, TightDocument(d).nodes) == Trees(options, d.nodes)
  {
    hide ProperNodes, Tree, Trees, DepthOfAll, Written, IsMarkedDeclaration;
    TightAllAreSame(options, d.nodes);
    assert d.nodes[0].Words? ==> TightAll(d.nodes)[0] == d.nodes[0];
  }

  /** A document is read the same with and without all blanks: in front of markup that follows no text, in front of
      attributes, around equals signs and in front of the end of a tag. */
  lemma BlanksAreFree(options: Options, d: WrittenDocument)
    requires ProperDocument(options.processEntities, d)
    ensures ParseDocument(options, DocumentText(d)) == ParseDocument(options, DocumentText(TightDocument(d)))
  {
    hide ParseDocument, ProperDocument, DocumentText, TightDocument, Trees;
    TightDocumentIsProper(options, d);
    WrittenIsRead(options, d);
    WrittenIsRead(options, TightDocument(d));
    SameMark(d);
  }

  lemma SameMark(d: WrittenDocument)
    ensures TightDocument(d).bom == d.bom
  {
  }

  // ---------------------------------------------------------------------------------------------
  // The limit of nesting
  // ---------------------------------------------------------------------------------------------

  /** Start tags, one behind the other. */
  function StartTags(names: seq<string>, tail: string): string {
    if names == [] then tail else "<" + (names[0] + (">" + StartTags(names[1..], tail)))
  }

  lemma OneStartTag(options: Options, name: string, inner: string, isDocument: bool, depth: nat, before: seq<Node>)
    requires IsName(name) && !AtEnd(inner)
    ensures var s, r := "<" + (name + (">" + inner)), ParseDeep(options, inner, false, depth);
            r.Failed? ==> ParseLoop(options, s, isDocument, depth, before) == Failed(r.error)
  {
    hide Identify, ParseDeep, ParseElement, IsName, AtEnd;
    ElementIsAhead(name, ">" + inner);
    ContentFails(options, name, inner, depth);
  }

  lemma ElementIsAhead(name: string, rest: string)
    requires IsName(name)
    ensures Identify("<" + (name + rest)) == Some((StartElement, name + rest)) && !AtEnd("<" + (name + rest))
  {
    hide Identify, IsName;
    NameStarts(name, rest);
    RoundTrip.ElementIsIdentified("", name + rest);
    assert "" + ("<" + (name + rest)) == "<" + (name + rest);
  }

  lemma ContentFails(options: Options, name: string, inner: string, depth: nat)
    requires IsName(name) && !AtEnd(inner)
    ensures var r := ParseDeep(options, inner, false, depth);
            r.Failed? ==> ParseElement(options, name + (">" + inner), depth) == Null(Some(r.error))
  {
    hide ParseDeep, NameLength, ParseAttributes, SkipWhite, IsName, AtEnd;
    var t := name + (">" + inner);
    BodyIsRead(options, name, [], "", false, inner);
    assert "" + (">" + inner) == ">" + inner;
    NameStarts(name, ">" + inner);
    RoundTrip.SkipNothing(t);
  }

  /** From the 99th open element on the document is refused, whatever follows. */
  lemma {:induction false} TooDeep(options: Options, names: seq<string>, tail: string, isDocument: bool, depth: nat,
                                   before: seq<Node>)
    requires 1 <= depth <= 99 && |names| + depth >= 100 && forall i :: 0 <= i < |names| ==> IsName(names[i])
    requires tail != "" && tail[0] != '\0'
    ensures ParseLoop(options, StartTags(names, tail), isDocument, depth, before) == Failed(DepthExceeded)
    decreases |names|
  {
    hide ParseLoop, IsName;
    var inner := StartTags(names[1..], tail);
    assert !AtEnd(inner);
    OneStartTag(options, names[0], inner, isDocument, depth, before);
    if depth < 99 {
      TooDeep(options, names[1..], tail, false, depth + 1, []);
    }
  }

  lemma DocumentTooDeep(options: Options, names: seq<string>, tail: string)
    requires |names| >= 99 && forall i :: 0 <= i < |names| ==> IsName(names[i])
    requires tail != "" && tail[0] != '\0'
    ensures ParseDocument(options, StartTags(names, tail)) == ParseError(DepthExceeded)
  {
    hide ParseLoop, IsName, WhiteLead;
    var text := StartTags(names, tail);
    TooDeep(options, names, tail, true, 1, []);
    RoundTrip.SkipNothing(text);
    PrefixDiffers(text, BOM, 0);
    hide StartsWith, StartTags;
  }
}
