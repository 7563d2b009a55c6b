/** Reading a printed tree gives the tree back, wherever the printer put white space. */
module RoundTrip {
  import opened Optional
  import opened XmlChars
  import opened StringDecoding
  import opened StringEscaping
  import opened XmlParsing
  import opened Dom
  import opened Layout

  // ---------------------------------------------------------------------------------------------
  // Pieces of text
  // ---------------------------------------------------------------------------------------------

  lemma Split(a: string, b: string)
    ensures (a + b)[..|a|] == a && (a + b)[|a|..] == b
    ensures StartsWith(a + b, a)
    ensures a != "" ==> At(a + b, 0) == a[0]
    ensures a == "" ==> a + b == b
  {
  }

  lemma SkipNothing(s: string)
    requires !IsWhiteSpace(At(s, 0))
    ensures SkipWhite(s) == s
  {
    SkipWhiteGap("", s);
    assert "" + s == s;
  }

  lemma {:induction false} NameTailIs(name: string, rest: string)
    requires forall i :: 0 <= i < |name| ==> IsNameChar(name[i])
    requires !IsNameChar(At(rest, 0))
    ensures NameTail(name + rest) == |name|
  {
    if name == "" {
      assert name + rest == rest;
    } else {
      assert (name + rest)[1..] == name[1..] + rest;
      NameTailIs(name[1..], rest);
    }
  }

  /** A legal name ends where the next byte is not a name byte. */
  lemma NameIsRead(name: string, rest: string)
    requires LegalName(name) && !IsNameChar(At(rest, 0))
    ensures NameLength(name + rest) == |name|
    ensures (name + rest)[..|name|] == name && (name + rest)[|name|..] == rest
    ensures !IsWhiteSpace(At(name + rest, 0)) && !AtEnd(name + rest)
  {
    assert (name + rest)[1..] == name[1..] + rest;
    NameTailIs(name[1..], rest);
  }

  /** The last byte of the tag occurs in it only once, so the tag cannot start inside the text before it. */
  predicate EndsOnce(tag: string) {
    tag != "" && NulFree(tag) && tag[|tag| - 1] !in tag[..|tag| - 1]
  }

  lemma {:induction false} TagIsFound(raw: string, tag: string, rest: string)
    requires EndsOnce(tag) && NulFree(raw) && FindTag(raw, tag).None?
    ensures FindTag(raw + (tag + rest), tag) == Some(|raw|)
  {
    var s := raw + (tag + rest);
    if raw == "" {
      assert s == tag + rest;
      Split(tag, rest);
      assert tag[0] in tag;
    } else {
      assert s[1..] == raw[1..] + (tag + rest);
      TagIsFound(raw[1..], tag, rest);
      NoEarlyTag(raw, tag, rest);
    }
  }

  lemma NoEarlyTag(raw: string, tag: string, rest: string)
    requires EndsOnce(tag) && raw != "" && NulFree(raw) && FindTag(raw, tag).None?
    ensures !StartsWith(raw + (tag + rest), tag)
  {
    var s, n := raw + (tag + rest), |tag|;
    if n <= |raw| {
      assert s[..n] == raw[..n];
    } else {
      var k := n - 1 - |raw|;
      assert s[n - 1] == tag[k] && tag[k] == tag[..n - 1][k];
      assert s[..n][n - 1] == s[n - 1];
    }
  }

  /** A one-byte tag is absent from a text without that byte. */
  lemma {:induction false} ByteIsAbsent(raw: string, c: char)
    requires c !in raw && c != NUL
    ensures FindTag(raw, [c]).None?
  {
    if raw != "" {
      assert raw[..1] == [raw[0]];
      ByteIsAbsent(raw[1..], c);
    }
  }

  // ---------------------------------------------------------------------------------------------
  // Attributes
  // ---------------------------------------------------------------------------------------------

  /** The escaped value of an attribute or text ends at the first delimiter. */
  lemma ValueEnds(process: bool, restricted: bool, value: string, delimiter: char)
    requires NulFree(value) && delimiter != NUL && delimiter != '&'
    requires if process then IsEscaped(restricted, delimiter) else delimiter !in value
    ensures var raw := Escape(process, restricted, value); NulFree(raw) && FindTag(raw, [delimiter]).None?
  {
    EscapeKeepsOut(process, restricted, value, NUL);
    if process {
      EscapeRemoves(restricted, value, delimiter);
    }
    ByteIsAbsent(Escape(process, restricted, value), delimiter);
  }

  lemma QuoteIsReached(rest: string)
    ensures ToQuote("=\"" + rest) == Some("\"" + rest)
  {
    var s := "=\"" + rest;
    SkipNothing(s);
    assert s[1..] == "\"" + rest;
    SkipNothing("\"" + rest);
  }

  /** A quoted value is found behind its opening quote and decodes to the value printed, line ends normalized. */
  lemma QuotedValueIsRead(process: bool, value: string, tail: string)
    requires NulFree(value) && (!process ==> '\"' !in value)
    ensures var raw := Escape(process, false, value);
            var t := "\"" + (raw + ("\"" + tail));
            && t[0] == '\"' && FindTag(t[1..], [t[0]]) == Some(|raw|)
            && t[1..][..|raw|] == raw && t[|raw| + 2..] == tail
            && Eager(ReadMode(process), raw) == Normalize(value)
  {
    var raw := Escape(process, false, value);
    var rest := raw + ("\"" + tail);
    var t := "\"" + rest;
    assert t[1..] == rest;
    assert [t[0]] == "\"";
    ValueEnds(process, false, value, '\"');
    TagIsFound(raw, "\"", tail);
    Split(raw, "\"" + tail);
    Split("\"", tail);
    assert t[|raw| + 2..] == rest[|raw|..][1..];
    ReadNormalized(process, false, value);
  }

  lemma AttributeIsRead(options: Options, a: Attribute, tail: string)
    requires SendableAttribute(options.processEntities, a)
    ensures ParseAttribute(options,
                           a.name + ("=\"" + (Escape(options.processEntities, false, a.value) + ("\"" + tail))))
            == Some((Attribute(a.name, Normalize(a.value)), tail))
  {
    hide NameLength, ToQuote, Escape, FindTag, Eager, Normalize;
    var process := options.processEntities;
    var rest := Escape(process, false, a.value) + ("\"" + tail);
    NameIsRead(a.name, "=\"" + rest);
    QuoteIsReached(rest);
    QuotedValueIsRead(process, a.value, tail);
    assert AttributeMode(options) == ReadMode(process);
    var s := a.name + ("=\"" + rest);
    assert s[..NameLength(s)] == a.name;
  }

  /** One round of the attribute loop. */
  lemma AttributeStep(options: Options, a: Attribute, next: string, before: seq<Attribute>)
    requires SendableAttribute(options.processEntities, a) && !HasAttribute(before, a.name)
    ensures var text := a.name + ("=\"" + (Escape(options.processEntities, false, a.value) + ("\"" + next)));
            ParseAttributes(options, " " + text, before)
                == ParseAttributes(options, next, before + [Attribute(a.name, Normalize(a.value))])
  {
    var rest := "=\"" + (Escape(options.processEntities, false, a.value) + ("\"" + next));
    NameIsRead(a.name, rest);
    AttributeIsRead(options, a, next);
    hide ParseAttribute, Escape, Normalize;
    var text := a.name + rest;
    assert text[0] == a.name[0];
    SkipWhiteGap(" ", text);
  }

  lemma {:induction false} AttributesAreRead(options: Options, attributes: seq<Attribute>, tail: string,
                                             before: seq<Attribute>)
    requires forall a :: a in attributes ==> SendableAttribute(options.processEntities, a)
    requires UniqueNames(before + attributes)
    ensures ParseAttributes(options, AttributesOnto(options.processEntities, attributes, tail), before)
            == ParseAttributes(options, tail, before + RereadAttributes(attributes))
    decreases attributes
  {
    hide ParseAttributes, SendableAttribute, Normalize, UniqueNames;
    if attributes == [] {
      assert before + RereadAttributes(attributes) == before;
    } else {
      var a := attributes[0];
      var read := Attribute(a.name, Normalize(a.value));
      assert a in attributes;
      NameIsFree(before, attributes);
      AttributeStep(options, a, AttributesOnto(options.processEntities, attributes[1..], tail), before);
      SameNames(before, attributes, read);
      AttributesAreRead(options, attributes[1..], tail, before + [read]);
      assert before + [read] + RereadAttributes(attributes[1..]) == before + RereadAttributes(attributes);
    }
  }

  lemma SameNames(before: seq<Attribute>, attributes: seq<Attribute>, read: Attribute)
    requires attributes != [] && UniqueNames(before + attributes) && read.name == attributes[0].name
    ensures UniqueNames(before + [read] + attributes[1..])
  {
    var a, b := before + attributes, before + [read] + attributes[1..];
    assert forall i :: 0 <= i < |a| ==> b[i].name == a[i].name;
  }

  lemma NameIsFree(before: seq<Attribute>, attributes: seq<Attribute>)
    requires attributes != [] && UniqueNames(before + attributes)
    ensures !HasAttribute(before, attributes[0].name)
  {
    var all := before + attributes;
    assert all[|before|] == attributes[0];
    assert forall i :: 0 <= i < |before| ==> all[i] == before[i];
  }

  // ---------------------------------------------------------------------------------------------
  // Leaves
  // ---------------------------------------------------------------------------------------------

  /** The text goes on with markup that is not cut off. */
  predicate MarkupAhead(s: string) {
    |s| >= 2 && s[0] == '<' && s[1] != NUL
  }

  lemma PrefixBehind(a: string, b: string, prefix: string)
    requires !StartsWith(b, prefix)
    ensures !StartsWith(a + b, a + prefix)
  {
    if |prefix| <= |b| {
      assert (a + b)[..|a + prefix|] == a + b[..|prefix|];
      assert (a + prefix)[|a|..] == prefix && (a + b[..|prefix|])[|a|..] == b[..|prefix|];
    }
  }

  lemma HeaderIsIdentified(gap: string, kind: LeafKind, rest: string)
    requires AllWhite(gap) && !kind.Text?
    requires kind.Unknown? ==> !StartsWith(rest, "--") && !StartsWith(rest, "[CDATA[")
    ensures Identify(gap + (HeaderOf(kind) + rest)) == Some((StartLeaf(kind), rest))
  {
    var p := HeaderOf(kind) + rest;
    HeaderIsTold(kind, rest);
    hide WhiteLead, StartsWith;
    SkipWhiteGap(gap, p);
  }

  /** Which tags start what a header starts. */
  lemma HeaderIsTold(kind: LeafKind, rest: string)
    requires !kind.Text? && (kind.Unknown? ==> !StartsWith(rest, "--") && !StartsWith(rest, "[CDATA["))
    ensures var p := HeaderOf(kind) + rest;
            && StartsWith(p, HeaderOf(kind)) && p[|HeaderOf(kind)|..] == rest && p[0] == '<'
            && (!kind.Declaration? ==> !StartsWith(p, "<?"))
            && (kind.CData? || kind.Unknown? ==> !StartsWith(p, "<!--"))
            && (kind.Unknown? ==> !StartsWith(p, "<![CDATA["))
  {
    var h := HeaderOf(kind);
    var p := h + rest;
    Split(h, rest);
    assert At(p, 0) == h[0] && At(p, 1) == h[1];
    assert |h| > 2 ==> At(p, 2) == h[2];
    hide StartsWith;
    if !kind.Declaration? {
      PrefixDiffers(p, "<?", 1);
    }
    if kind.CData? {
      PrefixDiffers(p, "<!--", 2);
    }
    if kind.Unknown? {
      PrefixBehind("<!", rest, "--");
      PrefixBehind("<!", rest, "[CDATA[");
      assert "<!" + "--" == "<!--" && "<!" + "[CDATA[" == "<![CDATA[";
    }
  }

  lemma UnknownStaysUnknown(value: string, tail: string)
    requires !StartsWith(value, "--") && !StartsWith(value, "[CDATA[")
    ensures !StartsWith(value + (">" + tail), "--") && !StartsWith(value + (">" + tail), "[CDATA[")
  {
    PrefixSurvives(value, tail, "--");
    PrefixSurvives(value, tail, "[CDATA[");
  }

  lemma PrefixSurvives(value: string, tail: string, prefix: string)
    requires '>' !in prefix && !StartsWith(value, prefix)
    ensures !StartsWith(value + (">" + tail), prefix)
  {
    var s := value + (">" + tail);
    if |prefix| <= |value| {
      assert s[..|prefix|] == value[..|prefix|];
    } else {
      assert s[|value|] == '>';
      assert prefix[|value|] in prefix;
      PrefixDiffers(s, prefix, |value|);
    }
  }

  /** Everything but plain text: the whole leaf is read, up to its end tag. */
  lemma LeafIsRead(options: Options, gap: string, kind: LeafKind, value: string, tail: string)
    requires AllWhite(gap) && !kind.Text? && SendableLeaf(options.processEntities, kind, value)
    ensures var s := Onto(options.processEntities, LaidLeaf(gap, kind, value), tail);
            var t := value + (EndOf(kind) + tail);
            && Identify(s) == Some((StartLeaf(kind), t))
            && ParseLeaf(options, kind, t) == Read(Leaf(kind, Normalize(value)), Open, tail, "")
  {
    hide FindTag, Eager, Identify, ParseLeaf, SendableLeaf, Normalize;
    var t := value + (EndOf(kind) + tail);
    LeafParts(options.processEntities, kind, value);
    if kind.Unknown? {
      UnknownStaysUnknown(value, tail);
    }
    HeaderIsIdentified(gap, kind, t);
    LeafIsParsed(options, kind, value, tail);
    LeafOnto(options.processEntities, gap, kind, value, tail);
  }

  lemma LeafParts(process: bool, kind: LeafKind, value: string)
    requires !kind.Text? && SendableLeaf(process, kind, value)
    ensures NulFree(value) && FindTag(value, EndOf(kind)).None?
    ensures kind.Unknown? ==> !StartsWith(value, "--") && !StartsWith(value, "[CDATA[")
  {
  }

  lemma LeafOnto(process: bool, gap: string, kind: LeafKind, value: string, tail: string)
    requires !kind.Text?
    ensures Onto(process, LaidLeaf(gap, kind, value), tail) == gap + (HeaderOf(kind) + (value + (EndOf(kind) + tail)))
  {
  }

  lemma LeafIsParsed(options: Options, kind: LeafKind, value: string, tail: string)
    requires !kind.Text? && NulFree(value) && FindTag(value, EndOf(kind)).None?
    ensures ParseLeaf(options, kind, value + (EndOf(kind) + tail)) == Read(Leaf(kind, Normalize(value)), Open, tail, "")
  {
    hide FindTag, Eager, Normalize;
    LeafEnds(kind, value, tail);
    ReadNormalized(false, true, value);
    assert LeafMode(options, kind) == NEWLINES;
  }

  lemma LeafEnds(kind: LeafKind, value: string, tail: string)
    requires NulFree(value) && FindTag(value, EndOf(kind)).None?
    ensures var t := value + (EndOf(kind) + tail);
            && FindTag(t, EndOf(kind)) == Some(|value|)
            && t[..|value|] == value && t[|value| + |EndOf(kind)|..] == tail
  {
    hide FindTag, EndOf, EndsOnce, NulFree;
    var tag := EndOf(kind);
    EndsAreTags(kind);
    TagIsFound(value, tag, tail);
    Split(value, tag + tail);
    Split(tag, tail);
    Suffixes(value, tag, tail);
  }

  lemma EndsAreTags(kind: LeafKind)
    ensures EndsOnce(EndOf(kind))
  {
  }

  lemma Suffixes(a: string, b: string, c: string)
    ensures (a + (b + c))[|a| + |b|..] == c
  {
  }

  lemma AllWhitePrepend(s: string)
    requires s != "" && IsWhiteSpace(s[0])
    ensures AllWhite(s[1..]) ==> AllWhite(s)
  {
    forall i | 0 <= i < |s| && AllWhite(s[1..])
      ensures IsWhiteSpace(s[i])
    {
      assert i > 0 ==> s[i] == s[1..][i - 1];
    }
  }

  /** Plain text is recognized by its first byte that is not white, which escaping never turns into markup. */
  lemma {:induction false} TextIsIdentified(process: bool, value: string, tail: string)
    requires !AllWhite(value) && NulFree(value) && (!process ==> '<' !in value)
    ensures var p := SkipWhite(Escape(process, true, value) + tail); !AtEnd(p) && p[0] != '<'
  {
    hide Escape, WhiteLead;
    var s := Escape(process, true, value) + tail;
    if IsWhiteSpace(value[0]) {
      AllWhitePrepend(value);
      TextIsIdentified(process, value[1..], tail);
      var rest := Escape(process, true, value[1..]) + tail;
      EscapeKeepsWhite(process, value);
      assert s == [value[0]] + rest;
      SkipOneMore(value[0], rest);
    } else {
      EscapeStarts(process, value);
      SkipNothing(s);
    }
  }

  lemma EscapeKeepsWhite(process: bool, value: string)
    requires value != "" && IsWhiteSpace(value[0])
    ensures Escape(process, true, value) == [value[0]] + Escape(process, true, value[1..])
  {
    assert value == [value[0]] + value[1..];
  }

  lemma EscapeStarts(process: bool, value: string)
    requires value != "" && !IsWhiteSpace(value[0]) && NulFree(value) && (!process ==> '<' !in value)
    ensures var raw := Escape(process, true, value);
            raw != "" && !IsWhiteSpace(raw[0]) && raw[0] != '<' && raw[0] != NUL
  {
    assert value[0] in value;
  }

  lemma SkipOneMore(c: char, rest: string)
    requires IsWhiteSpace(c)
    ensures SkipWhite([c] + rest) == SkipWhite(rest)
  {
    var s := [c] + rest;
    assert s[1..] == rest;
    assert s[WhiteLead(s)..] == rest[WhiteLead(rest)..];
  }

  lemma NotMarkup(p: string)
    requires !AtEnd(p) && p[0] != '<'
    ensures !StartsWith(p, "<?") && !StartsWith(p, "<!--") && !StartsWith(p, "<![CDATA[")
            && !StartsWith(p, "<!") && !StartsWith(p, "<")
  {
    PrefixDiffers(p, "<?", 0);
    PrefixDiffers(p, "<!--", 0);
    PrefixDiffers(p, "<![CDATA[", 0);
    PrefixDiffers(p, "<!", 0);
    PrefixDiffers(p, "<", 0);
  }

  lemma TextIsRead(options: Options, value: string, tail: string)
    requires !options.collapse && SendableLeaf(options.processEntities, Text, value) && !AllWhite(value)
    requires MarkupAhead(tail)
    ensures var s := Escape(options.processEntities, true, value) + tail;
            && !AtEnd(s)
            && Identify(s) == Some((StartLeaf(Text), s))
            && ParseLeaf(options, Text, s) == Read(Leaf(Text, Normalize(value)), Open, tail, "")
  {
    hide Identify, ParseLeaf, Escape, Eager, FindTag, SkipWhite, AllWhite, Normalize;
    var process := options.processEntities;
    var raw := Escape(process, true, value);
    TextIsIdentified(process, value, tail);
    IdentifyText(raw + tail);
    ValueEnds(process, true, value, '<');
    ReadNormalized(process, true, value);
    RawTextIsRead(options, raw, Normalize(value), tail);
  }

  lemma IdentifyText(s: string)
    requires var p := SkipWhite(s); !AtEnd(p) && p[0] != '<'
    ensures Identify(s) == Some((StartLeaf(Text), s))
  {
    NotMarkup(SkipWhite(s));
  }

  lemma TextOnto(process: bool, value: string, tail: string)
    ensures Onto(process, LaidLeaf("", Text, value), tail) == Escape(process, true, value) + tail
  {
    hide Escape;
    var raw := Escape(process, true, value);
    assert "" + ("" + (raw + ("" + tail))) == raw + tail;
  }

  lemma RawTextIsRead(options: Options, raw: string, value: string, tail: string)
    requires !options.collapse && MarkupAhead(tail)
    requires NulFree(raw) && FindTag(raw, "<").None? && Eager(ReadMode(options.processEntities), raw) == value
    ensures ParseLeaf(options, Text, raw + tail) == Read(Leaf(Text, value), Open, tail, "")
    ensures !AtEnd(raw + tail)
  {
    TextEnds(raw, tail);
    hide FindTag, Eager;
    assert TextMode(options) == ReadMode(options.processEntities);
    assert raw != "" ==> raw[0] in raw && (raw + tail)[0] == raw[0];
    assert raw == "" ==> raw + tail == tail;
  }

  lemma TextEnds(raw: string, tail: string)
    requires NulFree(raw) && FindTag(raw, "<").None? && MarkupAhead(tail)
    ensures var s := raw + tail;
            && FindTag(s, "<") == Some(|raw|) && s[..|raw|] == raw && s[|raw|..] == tail
            && !AtEnd(s[|raw| + 1..])
  {
    assert tail == "<" + tail[1..];
    TagIsFound(raw, "<", tail[1..]);
    Split(raw, tail);
    assert (raw + tail)[|raw| + 1..] == tail[1..];
  }

  // ---------------------------------------------------------------------------------------------
  // Elements and lists
  // ---------------------------------------------------------------------------------------------

  /** What a parser at nesting level `depth` needs to know about the nodes in front of it. */
  ghost predicate Readable(process: bool, ls: seq<Laid>, depth: nat) {
    && (forall l :: l in ls ==> SendableNode(process, Plain(l)) && Nesting(Plain(l)) + depth < MAX_ELEMENT_DEPTH)
    && WellSpacedAll(ls)
    && (forall i :: 0 < i < |ls| ==> !(IsText(ls[i - 1]) && IsText(ls[i])))
  }

  /** Declarations are only met while everything read so far is a declaration. */
  ghost predicate LocationsOk(isDocument: bool, before: seq<Node>, ls: seq<Laid>) {
    forall i :: 0 <= i < |ls| && IsDeclaration(Plain(ls[i])) ==>
      && isDocument
      && (forall b :: b in before ==> IsDeclaration(b))
      && (forall j :: 0 <= j < i ==> IsDeclaration(Plain(ls[j])))
  }

  lemma ReadableRest(process: bool, ls: seq<Laid>, depth: nat)
    requires ls != [] && Readable(process, ls, depth)
    ensures Readable(process, ls[1..], depth)
    ensures SendableNode(process, Plain(ls[0])) && Nesting(Plain(ls[0])) + depth < MAX_ELEMENT_DEPTH
    ensures WellSpaced(ls[0])
  {
    var rest := ls[1..];
    assert forall i :: 0 <= i < |rest| ==> rest[i] == ls[i + 1];
    assert ls[0] in ls;
  }

  lemma LocationsRest(isDocument: bool, before: seq<Node>, ls: seq<Laid>)
    requires ls != [] && LocationsOk(isDocument, before, ls)
    ensures LocationsOk(isDocument, before + (if IsBlank(Plain(ls[0])) then [] else [Reread(Plain(ls[0]))]), ls[1..])
    ensures IsDeclaration(Plain(ls[0])) ==> WellLocated(isDocument, before)
  {
    hide Plain;
    var rest := ls[1..];
    assert forall i :: 0 <= i < |rest| ==> rest[i] == ls[i + 1];
    assert before != [] ==> before[0] in before && before[|before| - 1] in before;
  }

  /** A node without a gap in front of it starts with markup, unless it is plain text. */
  lemma StartsWithMarkup(process: bool, l: Laid, tail: string)
    requires !IsText(l) && l.gap == "" && SendableNode(process, Plain(l))
    ensures MarkupAhead(Onto(process, l, tail))
  {
    assert "" + Onto(process, l, tail) == Onto(process, l, tail);
  }

  /** White space and then markup or the end of the input. */
  predicate NoTextAhead(s: string) {
    var p := SkipWhite(s);
    AtEnd(p) || p[0] == '<'
  }

  /** What follows a list that may end in plain text. */
  predicate TailOk(ls: seq<Laid>, tail: string) {
    ls != [] && IsText(ls[|ls| - 1]) ==> if AllWhite(ls[|ls| - 1].value) then NoTextAhead(tail) else MarkupAhead(tail)
  }

  lemma MarkupIsNoText(s: string)
    requires MarkupAhead(s)
    ensures NoTextAhead(s)
  {
    SkipNothing(s);
  }

  lemma AfterText(process: bool, ls: seq<Laid>, depth: nat, tail: string)
    requires ls != [] && Readable(process, ls, depth) && TailOk(ls, tail)
    ensures IsText(ls[0]) && !AllWhite(ls[0].value) ==> MarkupAhead(AllOnto(process, ls[1..], tail))
    ensures IsText(ls[0]) ==> NoTextAhead(AllOnto(process, ls[1..], tail))
    ensures TailOk(ls[1..], tail)
  {
    if IsText(ls[0]) && |ls| > 1 {
      assert ls[1] == ls[1..][0] && ls[1] in ls;
      StartsWithMarkup(process, ls[1], AllOnto(process, ls[1..][1..], tail));
      MarkupIsNoText(AllOnto(process, ls[1..], tail));
    } else if IsText(ls[0]) && MarkupAhead(tail) {
      MarkupIsNoText(tail);
    }
  }

  /** The end tag stops the loop and names the element it closes. */
  lemma EndTagIsRead(options: Options, closeGap: string, name: string, tail: string, depth: nat, before: seq<Node>)
    requires AllWhite(closeGap) && LegalName(name)
    ensures ParseLoop(options, EndTagOnto(closeGap, name, tail), false, depth, before) == EndTag(before, tail, name)
  {
    hide ParseElement, Identify, AllWhite, LegalName;
    var t := "/" + (name + (">" + tail));
    EndTagShape(closeGap, name, tail);
    ElementIsIdentified(closeGap, t);
    ClosingTagIsRead(options, name, tail, depth);
    hide EndTagOnto;
  }

  lemma EndTagShape(closeGap: string, name: string, tail: string)
    ensures EndTagOnto(closeGap, name, tail) == closeGap + ("<" + ("/" + (name + (">" + tail))))
    ensures At("/" + (name + (">" + tail)), 0) == '/'
  {
    assert "</" + (name + (">" + tail)) == "<" + ("/" + (name + (">" + tail)));
  }

  lemma ClosingTagIsRead(options: Options, name: string, tail: string, depth: nat)
    requires LegalName(name)
    ensures ParseElement(options, "/" + (name + (">" + tail)), depth)
            == Read(Element(name, [], []), ClosingTag, tail, "")
  {
    var t := "/" + (name + (">" + tail));
    SkipNothing(t);
    assert t[1..] == name + (">" + tail);
    NameIsRead(name, ">" + tail);
    TagEndIsRead(options, tail, []);
    hide ParseAttributes, SkipWhite, NameLength;
  }

  /** `>` and `/>` end the attribute loop. */
  lemma TagEndIsRead(options: Options, tail: string, attributes: seq<Attribute>)
    ensures ParseAttributes(options, ">" + tail, attributes) == TagRead(attributes, tail, false)
    ensures ParseAttributes(options, "/>" + tail, attributes) == TagRead(attributes, tail, true)
  {
    SkipNothing(">" + tail);
    assert (">" + tail)[1..] == tail;
    SkipNothing("/>" + tail);
    assert ("/>" + tail)[2..] == tail;
  }

  /** `<` followed by anything that is not `?` or `!` is an element. */
  lemma ElementIsIdentified(gap: string, rest: string)
    requires AllWhite(gap) && At(rest, 0) != '?' && At(rest, 0) != '!'
    ensures Identify(gap + ("<" + rest)) == Some((StartElement, rest))
    ensures !AtEnd(gap + ("<" + rest))
  {
    var p := "<" + rest;
    SkipWhiteGap(gap, p);
    Split("<", rest);
    PrefixDiffers(p, "<?", 1);
    PrefixDiffers(p, "<!--", 1);
    PrefixDiffers(p, "<![CDATA[", 1);
    PrefixDiffers(p, "<!", 1);
    assert gap != "" ==> gap[0] == (gap + p)[0];
  }

  /** A start tag with its attributes is read up to `after`, which starts with `>` or `/>`. */
  lemma StartTagIsRead(options: Options, name: string, attributes: seq<Attribute>, after: string)
    requires LegalName(name) && UniqueNames(attributes)
    requires forall a :: a in attributes ==> SendableAttribute(options.processEntities, a)
    requires At(after, 0) == '>' || At(after, 0) == '/'
    ensures var t := name + AttributesOnto(options.processEntities, attributes, after);
            && SkipWhite(t) == t && At(t, 0) == name[0] && name[0] != '/' && NameLength(t) == |name|
            && t[..|name|] == name
            && ParseAttributes(options, t[|name|..], [])
               == ParseAttributes(options, after, RereadAttributes(attributes))
  {
    var rest := AttributesOnto(options.processEntities, attributes, after);
    AttributesStart(options.processEntities, attributes, after);
    hide AttributesOnto, ParseAttributes, SendableAttribute, NameLength, UniqueNames, RereadAttributes;
    NameIsRead(name, rest);
    SkipNothing(name + rest);
    assert [] + attributes == attributes && [] + RereadAttributes(attributes) == RereadAttributes(attributes);
    AttributesAreRead(options, attributes, after, []);
  }

  lemma AttributesStart(process: bool, attributes: seq<Attribute>, after: string)
    requires At(after, 0) == '>' || At(after, 0) == '/'
    ensures !IsNameChar(At(AttributesOnto(process, attributes, after), 0))
  {
  }

  /** An element without children is printed sealed. */
  lemma SealedElementIsRead(options: Options, name: string, attributes: seq<Attribute>, tail: string, depth: nat)
    requires LegalName(name) && UniqueNames(attributes)
    requires forall a :: a in attributes ==> SendableAttribute(options.processEntities, a)
    ensures ParseElement(options, name + AttributesOnto(options.processEntities, attributes, "/>" + tail), depth)
            == Read(Element(name, RereadAttributes(attributes), []), Closed, tail, "")
  {
    hide ParseAttributes, SkipWhite, NameLength, AttributesOnto, RereadAttributes;
    StartTagIsRead(options, name, attributes, "/>" + tail);
    TagEndIsRead(options, tail, RereadAttributes(attributes));
  }

  /** An element with children reads them one level deeper, and takes the end tag they stop at. */
  lemma OpenElementIsRead(options: Options, name: string, attributes: seq<Attribute>, inner: string,
                          children: seq<Node>, tail: string, depth: nat)
    requires LegalName(name) && UniqueNames(attributes) && !AtEnd(inner)
    requires forall a :: a in attributes ==> SendableAttribute(options.processEntities, a)
    requires depth + 1 < MAX_ELEMENT_DEPTH
    requires ParseLoop(options, inner, false, depth + 1, []) == EndTag(children, tail, name)
    ensures ParseElement(options, name + AttributesOnto(options.processEntities, attributes, ">" + inner), depth)
            == Read(Element(name, RereadAttributes(attributes), children), Open, tail, name)
  {
    hide ParseAttributes, SkipWhite, NameLength, AttributesOnto, ParseLoop, RereadAttributes;
    StartTagIsRead(options, name, attributes, ">" + inner);
    TagEndIsRead(options, inner, RereadAttributes(attributes));
    assert ParseDeep(options, inner, false, depth) == EndTag(children, tail, name);
  }

  /** One node in front of the loop is read, checked and appended. */
  ghost predicate NodeIsTaken(options: Options, s: string, node: Node, rest: string, isDocument: bool, depth: nat,
                              before: seq<Node>) {
    ParseLoop(options, s, isDocument, depth, before) == ParseLoop(options, rest, isDocument, depth, before + [node])
  }

  lemma LeafIsTaken(options: Options, l: Laid, tail: string, isDocument: bool, depth: nat, before: seq<Node>)
    requires l.LaidLeaf? && WellSpaced(l) && SendableNode(options.processEntities, Plain(l)) && !options.collapse
    requires !IsBlank(Plain(l)) && (IsText(l) ==> MarkupAhead(tail))
    requires IsDeclaration(Plain(l)) ==> WellLocated(isDocument, before)
    ensures NodeIsTaken(options, Onto(options.processEntities, l, tail), Reread(Plain(l)), tail, isDocument, depth,
                        before)
  {
    hide ParseLoop, NodeIsTaken, SendableLeaf, Onto, MarkupAhead, Normalize;
    var s, node := Onto(options.processEntities, l, tail), Leaf(l.kind, Normalize(l.value));
    if l.kind.Text? {
      TextIsRead(options, l.value, tail);
      TextOnto(options.processEntities, l.value, tail);
      LeafStep(options, s, l.kind, s, node, tail, isDocument, depth, before);
    } else {
      LeafIsRead(options, l.gap, l.kind, l.value, tail);
      LeafIsNotEnd(options.processEntities, l, tail);
      LeafStep(options, s, l.kind, l.value + (EndOf(l.kind) + tail), node, tail, isDocument, depth, before);
    }
  }

  /** White text in front of markup, or at the end, is passed over. */
  lemma WhiteIsPassed(options: Options, gap: string, tail: string, isDocument: bool, depth: nat, before: seq<Node>)
    requires AllWhite(gap) && NoTextAhead(tail)
    ensures ParseLoop(options, gap + tail, isDocument, depth, before)
            == ParseLoop(options, tail, isDocument, depth, before)
  {
    hide SkipWhite, Identify, ParseElement, ParseLeaf, NoTextAhead, AtEnd, Mismatch, WellLocated, IsDeclaration;
    SkipMore(gap, tail);
    SameStart(gap, tail);
  }

  lemma SkipMore(gap: string, tail: string)
    requires AllWhite(gap)
    ensures SkipWhite(gap + tail) == SkipWhite(tail)
  {
    var lead := gap + tail[..WhiteLead(tail)];
    assert gap + tail == lead + SkipWhite(tail);
    SkipWhiteGap(lead, SkipWhite(tail));
  }

  /** In front of markup, what is identified does not depend on the white space. */
  lemma SameStart(gap: string, tail: string)
    requires SkipWhite(gap + tail) == SkipWhite(tail) && NoTextAhead(tail) && AllWhite(gap)
    ensures Identify(gap + tail) == Identify(tail)
    ensures AtEnd(tail) ==> Identify(tail).None?
    ensures AtEnd(gap + tail) ==> AtEnd(tail)
  {
    var p := SkipWhite(tail);
    assert AtEnd(tail) ==> p == tail;
    assert gap != "" ==> (gap + tail)[0] == gap[0];
    hide WhiteLead;
    assert p != "" ==> p[..1] == [p[0]];
  }

  lemma LeafStep(options: Options, s: string, kind: LeafKind, t: string, node: Node, tail: string,
                 isDocument: bool, depth: nat, before: seq<Node>)
    requires !AtEnd(s) && Identify(s) == Some((StartLeaf(kind), t)) && node.Leaf?
    requires ParseLeaf(options, kind, t) == Read(node, Open, tail, "")
    requires IsDeclaration(node) ==> WellLocated(isDocument, before)
    ensures NodeIsTaken(options, s, node, tail, isDocument, depth, before)
  {
    hide Identify, ParseLeaf;
  }

  lemma LeafIsNotEnd(process: bool, l: Laid, tail: string)
    requires l.LaidLeaf? && !l.kind.Text? && AllWhite(l.gap)
    ensures !AtEnd(Onto(process, l, tail))
  {
    var s := Onto(process, l, tail);
    assert l.gap != "" ==> s[0] == l.gap[0];
    assert l.gap == "" ==> s[0] == '<';
  }

  lemma ElementIsTaken(options: Options, gap: string, t: string, node: Node, closing: Closing, endTag: string,
                       tail: string, isDocument: bool, depth: nat, before: seq<Node>)
    requires AllWhite(gap) && At(t, 0) != '?' && At(t, 0) != '!'
    requires ParseElement(options, t, depth) == Read(node, closing, tail, endTag)
    requires node.Element? && closing != ClosingTag && !Mismatch(node.name, closing, endTag)
    ensures NodeIsTaken(options, gap + ("<" + t), node, tail, isDocument, depth, before)
  {
    ElementIsIdentified(gap, t);
    hide ParseElement, Identify;
  }

  /** The list theorem: the loop takes all nodes of a printed list and goes on with what follows it. */
  lemma {:induction false} ListIsRead(options: Options, ls: seq<Laid>, tail: string, isDocument: bool, depth: nat,
                                      before: seq<Node>)
    requires !options.collapse && Readable(options.processEntities, ls, depth)
    requires LocationsOk(isDocument, before, ls) && TailOk(ls, tail)
    ensures ParseLoop(options, AllOnto(options.processEntities, ls, tail), isDocument, depth, before)
            == ParseLoop(options, tail, isDocument, depth, before + RereadAll(PlainAll(ls)))
    decreases ls, 0
  {
    hide ParseLoop, SendableNode, Onto, WellSpaced, Nesting, Readable, LocationsOk, TailOk, MarkupAhead, NoTextAhead,
         WellLocated, Plain, PlainAll, IsText, IsDeclaration, IsBlank, Reread, RereadAll;
    if ls == [] {
      NothingReread();
      assert before + [] == before;
    } else {
      var n, process := Plain(ls[0]), options.processEntities;
      var rest := AllOnto(process, ls[1..], tail);
      var taken := if IsBlank(n) then [] else [Reread(n)];
      ReadableRest(process, ls, depth);
      LocationsRest(isDocument, before, ls);
      AfterText(process, ls, depth, tail);
      NodeIsRead(options, ls[0], rest, isDocument, depth, before);
      ListIsRead(options, ls[1..], tail, isDocument, depth, before + taken);
      RereadFirst(ls);
      assert before + taken + RereadAll(PlainAll(ls[1..])) == before + (taken + RereadAll(PlainAll(ls[1..])));
    }
  }

  /** One node is taken, or passed over when it is white text. */
  lemma {:induction false} NodeIsRead(options: Options, l: Laid, tail: string, isDocument: bool, depth: nat,
                                      before: seq<Node>)
    requires WellSpaced(l) && SendableNode(options.processEntities, Plain(l)) && !options.collapse
    requires Nesting(Plain(l)) + depth < MAX_ELEMENT_DEPTH
    requires IsText(l) ==> NoTextAhead(tail) && (!AllWhite(l.value) ==> MarkupAhead(tail))
    requires IsDeclaration(Plain(l)) ==> WellLocated(isDocument, before)
    ensures ParseLoop(options, Onto(options.processEntities, l, tail), isDocument, depth, before)
            == ParseLoop(options, tail, isDocument, depth,
                         before + if IsBlank(Plain(l)) then [] else [Reread(Plain(l))])
    decreases l, 2
  {
    hide ParseLoop, SendableNode, Onto, WellSpaced, Nesting, MarkupAhead, NoTextAhead, WellLocated, Plain, IsText,
         IsDeclaration, IsBlank, Reread;
    TextParts(l);
    if IsBlank(Plain(l)) {
      BlankOnto(options.processEntities, l, tail);
      WhiteIsPassed(options, l.value, tail, isDocument, depth, before);
      assert before + [] == before;
    } else if l.LaidLeaf? {
      LeafIsTaken(options, l, tail, isDocument, depth, before);
    } else {
      ElementIsRead(options, l, tail, isDocument, depth, before);
    }
  }

  lemma NothingReread()
    ensures RereadAll(PlainAll([])) == []
  {
  }

  lemma RereadFirst(ls: seq<Laid>)
    requires ls != []
    ensures RereadAll(PlainAll(ls))
            == (if IsBlank(Plain(ls[0])) then [] else [Reread(Plain(ls[0]))]) + RereadAll(PlainAll(ls[1..]))
  {
    hide IsBlank, Reread, Plain;
    assert PlainAll(ls)[1..] == PlainAll(ls[1..]);
  }

  lemma TextParts(l: Laid)
    ensures IsText(l) == IsPlainText(Plain(l)) && (IsBlank(Plain(l)) <==> IsText(l) && AllWhite(l.value))
    ensures IsText(l) ==> l.LaidLeaf?
  {
  }

  lemma BlankOnto(process: bool, l: Laid, tail: string)
    requires IsText(l) && AllWhite(l.value) && WellSpaced(l)
    ensures Onto(process, l, tail) == l.value + tail
  {
    hide Escape;
    TextOnto(process, l.value, tail);
    EscapeWhite(process, true, l.value);
  }

  lemma {:induction false} ElementIsRead(options: Options, l: Laid, tail: string, isDocument: bool, depth: nat,
                                         before: seq<Node>)
    requires l.LaidElement? && WellSpaced(l) && SendableNode(options.processEntities, Plain(l)) && !options.collapse
    requires Nesting(Plain(l)) + depth < MAX_ELEMENT_DEPTH
    ensures NodeIsTaken(options, Onto(options.processEntities, l, tail), Reread(Plain(l)), tail, isDocument, depth,
                        before)
    decreases l, 1
  {
    hide ParseLoop, NodeIsTaken, SendableNode, WellSpaced, Nesting, LegalName, UniqueNames, SendableAttribute, AllWhite,
         Reread, RereadAttributes;
    var process, node := options.processEntities, Reread(Plain(l));
    ElementParts(process, l);
    if l.children == [] {
      var t := l.name + AttributesOnto(process, l.attributes, "/>" + tail);
      SealedElementIsRead(options, l.name, l.attributes, tail, depth);
      NameHead(l.name, AttributesOnto(process, l.attributes, "/>" + tail));
      ElementIsTaken(options, l.gap, t, node, Closed, "", tail, isDocument, depth, before);
    } else {
      var inner := AllOnto(process, l.children, EndTagOnto(l.closeGap, l.name, tail));
      var t := l.name + AttributesOnto(process, l.attributes, ">" + inner);
      ChildrenAreRead(options, l, tail, depth);
      OpenElementIsRead(options, l.name, l.attributes, inner, node.children, tail, depth);
      NameHead(l.name, AttributesOnto(process, l.attributes, ">" + inner));
      NamesMatch(l.name);
      ElementIsTaken(options, l.gap, t, node, Open, l.name, tail, isDocument, depth, before);
    }
  }

  lemma NamesMatch(name: string)
    requires LegalName(name)
    ensures !Mismatch(name, Open, name)
  {
  }

  lemma NameHead(name: string, rest: string)
    requires LegalName(name)
    ensures At(name + rest, 0) != '?' && At(name + rest, 0) != '!'
  {
  }

  lemma ElementParts(process: bool, l: Laid)
    requires l.LaidElement? && WellSpaced(l) && SendableNode(process, Plain(l))
    ensures LegalName(l.name) && UniqueNames(l.attributes) && AllWhite(l.gap)
    ensures forall a :: a in l.attributes ==> SendableAttribute(process, a)
    ensures Reread(Plain(l)) == Element(l.name, RereadAttributes(l.attributes), RereadAll(PlainAll(l.children)))
  {
    hide RereadAttributes, RereadAll, LegalName, UniqueNames, SendableAttribute;
  }

  lemma CloseGapIsWhite(l: Laid)
    requires l.LaidElement? && WellSpaced(l)
    ensures AllWhite(l.closeGap)
  {
  }

  /** The children of an element are read up to its end tag. */
  lemma {:induction false} ChildrenAreRead(options: Options, l: Laid, tail: string, depth: nat)
    requires l.LaidElement? && l.children != []
    requires WellSpaced(l) && SendableNode(options.processEntities, Plain(l)) && !options.collapse
    requires Nesting(Plain(l)) + depth < MAX_ELEMENT_DEPTH
    ensures var inner := AllOnto(options.processEntities, l.children, EndTagOnto(l.closeGap, l.name, tail));
            && depth + 1 < MAX_ELEMENT_DEPTH && !AtEnd(inner)
            && ParseLoop(options, inner, false, depth + 1, []) == EndTag(RereadAll(PlainAll(l.children)), tail, l.name)
    decreases l, 0
  {
    hide ParseLoop, SendableNode, WellSpaced, Nesting, LegalName, AllWhite, EndTagOnto, Readable, LocationsOk, TailOk,
         UniqueNames, SendableAttribute, Reread, RereadAttributes, Plain;
    var process, children := options.processEntities, RereadAll(PlainAll(l.children));
    var end := EndTagOnto(l.closeGap, l.name, tail);
    ChildrenAreReadable(process, l, depth);
    EndGap(l, tail);
    ElementParts(process, l);
    CloseGapIsWhite(l);
    ListIsRead(options, l.children, end, false, depth + 1, []);
    assert [] + children == children;
    EndTagIsRead(options, l.closeGap, l.name, tail, depth + 1, children);
    InnerIsNotEnd(process, l.children, depth + 1, end);
    EndIsThere(l.closeGap, l.name, tail);
  }

  lemma PlainMembers(ls: seq<Laid>)
    ensures forall l :: l in ls ==> Plain(l) in PlainAll(ls)
    ensures forall i :: 0 <= i < |ls| ==> PlainAll(ls)[i] == Plain(ls[i]) && PlainAll(ls)[i] in PlainAll(ls)
  {
    hide Plain;
    forall l | l in ls
      ensures Plain(l) in PlainAll(ls)
    {
      var i :| 0 <= i < |ls| && ls[i] == l;
      assert PlainAll(ls)[i] == Plain(l);
    }
  }

  lemma ChildrenAreReadable(process: bool, l: Laid, depth: nat)
    requires l.LaidElement? && l.children != [] && WellSpaced(l) && SendableNode(process, Plain(l))
    requires Nesting(Plain(l)) + depth < MAX_ELEMENT_DEPTH
    ensures Readable(process, l.children, depth + 1) && LocationsOk(false, [], l.children)
    ensures depth + 1 < MAX_ELEMENT_DEPTH
  {
    hide SendableNode, Nesting, PlainAll, TextApart, IsText, AllWhite, Readable, LocationsOk;
    PlainMembers(l.children);
    ChildrenFit(process, Plain(l), depth);
    assert Plain(l).children == PlainAll(l.children);
    ReadableFrom(process, l.children, PlainAll(l.children), depth + 1);
  }

  lemma ChildrenFit(process: bool, n: Node, depth: nat)
    requires n.Element? && n.children != [] && SendableNode(process, n) && Nesting(n) + depth < MAX_ELEMENT_DEPTH
    ensures TextApart(n.children) && depth + 1 < MAX_ELEMENT_DEPTH
    ensures forall c :: c in n.children ==>
              SendableNode(process, c) && !IsDeclaration(c) && Nesting(c) + depth + 1 < MAX_ELEMENT_DEPTH
  {
    assert NestingAll(n.children) + 1 == Nesting(n);
    assert forall c :: c in n.children ==> Nesting(c) <= NestingAll(n.children);
  }

  lemma ReadableFrom(process: bool, ls: seq<Laid>, nodes: seq<Node>, depth: nat)
    requires |nodes| == |ls| && forall i :: 0 <= i < |ls| ==> nodes[i] == Plain(ls[i]) && nodes[i] in nodes
    requires forall l :: l in ls ==> Plain(l) in nodes
    requires forall c :: c in nodes ==>
               SendableNode(process, c) && !IsDeclaration(c) && Nesting(c) + depth < MAX_ELEMENT_DEPTH
    requires TextApart(nodes) && WellSpacedAll(ls)
    ensures Readable(process, ls, depth) && LocationsOk(false, [], ls)
  {
    hide SendableNode, Nesting, WellSpacedAll;
    forall i | 0 < i < |ls|
      ensures !(IsText(ls[i - 1]) && IsText(ls[i]))
    {
      assert nodes[i - 1] == Plain(ls[i - 1]) && nodes[i] == Plain(ls[i]);
    }
  }

  lemma EndGap(l: Laid, tail: string)
    requires l.LaidElement? && WellSpaced(l)
    ensures TailOk(l.children, EndTagOnto(l.closeGap, l.name, tail))
  {
    var end := "</" + (l.name + (">" + tail));
    assert "" + end == end;
    if l.children != [] && IsText(l.children[|l.children| - 1]) {
      MarkupIsNoText(end);
    }
  }

  lemma EndIsThere(closeGap: string, name: string, tail: string)
    requires AllWhite(closeGap)
    ensures !AtEnd(EndTagOnto(closeGap, name, tail))
  {
    var s := EndTagOnto(closeGap, name, tail);
    assert closeGap != "" ==> s[0] == closeGap[0];
    assert closeGap == "" ==> s[0] == '<';
  }

  lemma {:induction false} InnerIsNotEnd(process: bool, ls: seq<Laid>, depth: nat, end: string)
    requires Readable(process, ls, depth)
    ensures AtEnd(AllOnto(process, ls, end)) ==> AtEnd(end)
    decreases |ls|
  {
    if ls != [] {
      var c, rest := ls[0], AllOnto(process, ls[1..], end);
      ReadableRest(process, ls, depth);
      hide Readable;
      if IsText(c) {
        TextOnto(process, c.value, rest);
        TextIsNotEnd(process, c.value, rest);
        InnerIsNotEnd(process, ls[1..], depth, end);
      } else if c.gap == "" {
        StartsWithMarkup(process, c, rest);
      } else {
        GapIsNotEnd(process, c, rest);
      }
    }
  }

  lemma GapIsNotEnd(process: bool, l: Laid, tail: string)
    requires l.gap != "" && AllWhite(l.gap)
    ensures !AtEnd(Onto(process, l, tail))
  {
    assert Onto(process, l, tail)[0] == l.gap[0];
  }

  lemma TextIsNotEnd(process: bool, value: string, tail: string)
    requires NulFree(value)
    ensures AtEnd(Escape(process, true, value) + tail) ==> AtEnd(tail)
  {
    EscapeKeepsOut(process, true, value, NUL);
    var raw := Escape(process, true, value);
    assert raw != "" ==> raw[0] in raw && (raw + tail)[0] == raw[0];
    assert raw == "" ==> raw + tail == tail;
  }
}
