/** What every successfully parsed tree is like, and why it can be printed and parsed again. */
module ParsedTrees {
  import opened XmlChars
  import opened StringDecoding
  import opened StringEscaping
  import opened XmlParsing
  import opened Dom
  import opened Layout
  import opened WhitespaceModes

  // ---------------------------------------------------------------------------------------------
  // The shape of parsed trees
  // ---------------------------------------------------------------------------------------------

  /** Legal names, unique attributes, no NUL, no end of a node inside it, no declaration inside an element, no
      two plain texts in a row. Only a character reference yields a CR or the `<` of a text. */
  predicate WellRead(process: bool, n: Node)
    decreases n
  {
    match n
    case Leaf(kind, value) =>
      && NulFree(value)
      && (kind.Text? && !process ==> CR !in value && '<' !in value)
      && (!kind.Text? ==> CR !in value && FindTag(value, EndOf(kind)).None?)
      && (kind.Unknown? ==> !StartsWith(value, "--") && !StartsWith(value, "[CDATA["))
    case Element(name, attributes, children) =>
      && LegalName(name)
      && AttributesWellRead(process, attributes)
      && (forall c :: c in children ==> WellRead(process, c) && !IsDeclaration(c))
      && TextApart(children)
  }

  predicate AttributesWellRead(process: bool, attributes: seq<Attribute>) {
    UniqueNames(attributes) && forall a :: a in attributes ==> AttributeRead(process, a)
  }

  predicate AttributeRead(process: bool, a: Attribute) {
    LegalName(a.name) && NulFree(a.value) && (!process ==> CR !in a.value)
  }

  /** The rest of what printing needs: no CR, no plain text that is white space only, and without entities no
      double quote in an attribute. */
  predicate Harmless(process: bool, n: Node)
    decreases n
  {
    match n
    case Leaf(kind, value) => kind.Text? ==> !AllWhite(value) && (process ==> CR !in value)
    case Element(_, attributes, children) =>
      && (forall a :: a in attributes ==> if process then CR !in a.value else '\"' !in a.value)
      && forall c :: c in children ==> Harmless(process, c)
  }

  lemma {:induction false} WellReadIsPrintable(process: bool, n: Node)
    requires WellRead(process, n)
    ensures PrintableNode(process, n) <==> Harmless(process, n)
    decreases n
  {
    if n.Element? {
      forall c | c in n.children
        ensures PrintableNode(process, c) <==> Harmless(process, c)
      {
        WellReadIsPrintable(process, c);
      }
    }
  }

  lemma {:induction false} WellReadIsUnique(process: bool, n: Node)
    requires WellRead(process, n)
    ensures UniqueEverywhere(n)
    decreases n
  {
    if n.Element? {
      forall c | c in n.children
        ensures UniqueEverywhere(c)
      {
        WellReadIsUnique(process, c);
      }
    }
  }

  // ---------------------------------------------------------------------------------------------
  // Strings
  // ---------------------------------------------------------------------------------------------

  lemma PrefixOfPrefix(s: string, i: nat, t: string)
    requires i <= |s|
    ensures StartsWith(s[..i], t) ==> StartsWith(s, t)
  {
    assert |t| <= i ==> s[..i][..|t|] == s[..|t|];
  }

  lemma {:induction false} NothingBefore(s: string, tag: string)
    requires tag != "" && NulFree(tag) && FindTag(s, tag).Some?
    ensures FindTag(s[..FindTag(s, tag).value], tag).None?
  {
    var i := FindTag(s, tag).value;
    if i > 0 {
      NothingBefore(s[1..], tag);
      assert s[..i][1..] == s[1..][..i - 1];
      PrefixOfPrefix(s, i, tag);
    }
  }

  lemma {:induction false} NormalizePrefix(s: string, t: string)
    requires LF !in t
    ensures StartsWith(Normalize(s), t) ==> StartsWith(s, t)
    decreases |t|
  {
    var r := Normalize(s);
    if t != "" && s != "" && StartsWith(r, t) {
      assert r[0] == t[0] by {
        assert r[..|t|][0] == r[0];
      }
      assert t[0] in t;
      assert r[1..] == Normalize(s[1..]);
      assert r[1..][..|t| - 1] == t[1..] by {
        assert r[..|t|][1..] == r[1..][..|t| - 1];
      }
      NormalizePrefix(s[1..], t[1..]);
      assert s[..|t|] == [s[0]] + s[1..][..|t| - 1];
    }
  }

  lemma {:induction false} NormalizeNulFree(s: string)
    requires NulFree(s)
    ensures NulFree(Normalize(s))
    decreases |s|
  {
    if s != "" {
      NormalizeNulFree(if s[0] == CR || s[0] == LF then s[LineEnd(s)..] else s[1..]);
    }
  }

  lemma NoTagInRest(s: string, tag: string)
    requires tag != "" && NulFree(tag) && s != "" && s[0] != NUL && FindTag(s, tag).None?
    ensures FindTag(s[1..], tag).None? && !StartsWith(s, tag)
  {
  }

  /** Normalizing line ends cannot create an end tag. */
  lemma {:induction false} NormalizeMakesNoTag(s: string, tag: string)
    requires tag != "" && NulFree(tag) && LF !in tag && NulFree(s) && FindTag(s, tag).None?
    ensures FindTag(Normalize(s), tag).None?
    decreases |s|
  {
    if s != "" {
      NormalizePrefix(s, tag);
      NoTagInRest(s, tag);
      var rest := s[1..];
      if (s[0] == CR || s[0] == LF) && LineEnd(s) == 2 {
        NoTagInRest(s[1..], tag);
        rest := s[2..];
        assert s[1..][1..] == rest;
      }
      NormalizeMakesNoTag(rest, tag);
      assert Normalize(s)[1..] == Normalize(rest);
      hide FindTag, StartsWith;
      NoTagPrepend(Normalize(s), tag);
    }
  }

  lemma NoTagPrepend(s: string, tag: string)
    requires tag != "" && NulFree(tag) && s != "" && !StartsWith(s, tag) && FindTag(s[1..], tag).None?
    ensures FindTag(s, tag).None?
  {
  }

  lemma EagerIsNulFree(mode: Mode, raw: string)
    ensures NulFree(Eager(mode, raw))
  {
    if mode.collapse {
      EagerCollapses(mode, raw);
      CollapsesOut(Eager(mode.(collapse := false), raw), NUL);
    }
  }

  lemma CollapsesOut(s: string, c: char)
    requires c !in s && c != ' '
    ensures c !in Collapse(s)
  {
    CollapseKeepsOut(SkipWhite(s), c);
  }

  /** Without entities, reading brings in no byte but the line feed, and no CR is left. */
  lemma VerbatimKeepsOut(collapse: bool, raw: string, c: char)
    requires c == CR || (c !in raw && c != LF && c != ' ')
    ensures c !in Eager(Mode(false, true, collapse), raw)
  {
    hide Eager, Normalize, CString, Collapse;
    ReadBackVerbatim(raw);
    if c != CR {
      NormalizeKeepsOut(raw, c);
    }
    CStringKeeps(Normalize(raw), c);
    if collapse {
      EagerCollapses(Mode(false, true, true), raw);
      CollapsesOut(Eager(NEWLINES, raw), c);
    }
  }

  lemma {:induction false} ByteNotFound(s: string, c: char)
    requires NulFree(s) && c != NUL && FindTag(s, [c]).None?
    ensures c !in s
  {
    if s != "" {
      assert s[..1] == [s[0]];
      ByteNotFound(s[1..], c);
    }
  }

  lemma {:induction false} LegalNamePrefix(s: string)
    requires NameLength(s) > 0
    ensures LegalName(s[..NameLength(s)])
  {
    var n := NameLength(s);
    assert forall i :: 0 < i < n ==> s[i] == s[1..][i - 1];
  }

  // ---------------------------------------------------------------------------------------------
  // Leaves and tags
  // ---------------------------------------------------------------------------------------------

  lemma VerbatimWellRead(kind: LeafKind, s: string)
    requires !kind.Text? && FindTag(s, EndOf(kind)).Some?
    requires kind.Unknown? ==> !StartsWith(s, "--") && !StartsWith(s, "[CDATA[")
    ensures forall process :: WellRead(process, Leaf(kind, Eager(NEWLINES, s[..FindTag(s, EndOf(kind)).value])))
  {
    var raw := s[..FindTag(s, EndOf(kind)).value];
    NothingBefore(s, EndOf(kind));
    PrefixOfPrefix(s, |raw|, "--");
    PrefixOfPrefix(s, |raw|, "[CDATA[");
    hide FindTag, StartsWith, Eager;
    ReadBackVerbatim(raw);
    NormalizeNulFree(raw);
    NormalizeMakesNoTag(raw, EndOf(kind));
    NormalizePrefix(raw, "--");
    NormalizePrefix(raw, "[CDATA[");
  }

  lemma LeafWellRead(options: Options, kind: LeafKind, s: string)
    requires ParseLeaf(options, kind, s).Read?
    requires kind.Unknown? ==> !StartsWith(s, "--") && !StartsWith(s, "[CDATA[")
    ensures var r := ParseLeaf(options, kind, s);
            && WellRead(options.processEntities, r.node) && r.node.Leaf? && r.node.kind == kind
            && (kind.Text? ==> At(r.rest, 0) == '<')
  {
    hide Eager, StartsWith, WellRead;
    if kind.Text? {
      FoundTag(s, "<");
      NothingBefore(s, "<");
      ByteNotFound(s[..FindTag(s, "<").value], '<');
      TextWellRead(options, s[..FindTag(s, "<").value]);
    } else {
      VerbatimWellRead(kind, s);
    }
  }

  lemma TextWellRead(options: Options, raw: string)
    requires '<' !in raw
    ensures WellRead(options.processEntities, Leaf(Text, Eager(TextMode(options), raw)))
  {
    hide Eager;
    EagerIsNulFree(TextMode(options), raw);
    if !options.processEntities {
      VerbatimKeepsOut(options.collapse, raw, CR);
      VerbatimKeepsOut(options.collapse, raw, '<');
    }
  }

  /** What Identify recognizes as unknown is neither a comment nor a CDATA section. */
  lemma UnknownIsUnknown(s: string)
    requires Identify(s).Some? && Identify(s).value.0 == StartLeaf(Unknown)
    ensures !StartsWith(Identify(s).value.1, "--") && !StartsWith(Identify(s).value.1, "[CDATA[")
  {
    var p := SkipWhite(s);
    hide WhiteLead;
    assert StartsWith(p, "<!");
    assert "<!" + "--" == "<!--" && "<!" + "[CDATA[" == "<![CDATA[";
    PrefixAfter(p, "<!", "--");
    PrefixAfter(p, "<!", "[CDATA[");
  }

  lemma PrefixAfter(p: string, a: string, b: string)
    requires StartsWith(p, a) && !StartsWith(p, a + b)
    ensures !StartsWith(p[|a|..], b)
  {
    assert |a| + |b| <= |p| ==> p[..|a| + |b|] == p[..|a|] + p[|a|..][..|b|];
  }

  lemma {:induction false} AttributeWellRead(options: Options, s: string)
    requires s != "" && IsNameStartChar(s[0]) && ParseAttribute(options, s).Some?
    ensures AttributeRead(options.processEntities, ParseAttribute(options, s).value.0)
  {
    hide NameLength, FindTag, ToQuote, LegalName, Eager;
    LegalNamePrefix(s);
    var t := ToQuote(s[NameLength(s)..]).value;
    var raw := t[1..][..FindTag(t[1..], [t[0]]).value];
    EagerIsNulFree(AttributeMode(options), raw);
    if !options.processEntities {
      VerbatimKeepsOut(false, raw, CR);
    }
  }

  lemma {:induction false} AttributesStayWellRead(options: Options, s: string, before: seq<Attribute>)
    requires AttributesWellRead(options.processEntities, before) && ParseAttributes(options, s, before).TagRead?
    ensures AttributesWellRead(options.processEntities, ParseAttributes(options, s, before).attributes)
    decreases |s|
  {
    hide ParseAttribute, AttributesWellRead, AttributeRead, WhiteLead, IsNameStartChar, LegalName;
    var t := SkipWhite(s);
    if !AtEnd(t) && IsNameStartChar(t[0]) {
      var (a, rest) := ParseAttribute(options, t).value;
      AttributeWellRead(options, t);
      AppendWellRead(options.processEntities, before, a);
      AttributesStayWellRead(options, rest, before + [a]);
    }
  }

  lemma AppendWellRead(process: bool, before: seq<Attribute>, a: Attribute)
    requires AttributesWellRead(process, before) && AttributeRead(process, a) && !HasAttribute(before, a.name)
    ensures AttributesWellRead(process, before + [a])
  {
    hide AttributeRead;
  }

  // ---------------------------------------------------------------------------------------------
  // Elements and lists
  // ---------------------------------------------------------------------------------------------

  /** What the child loop has collected at nesting level `depth`. */
  ghost predicate Collected(process: bool, isDocument: bool, depth: nat, nodes: seq<Node>) {
    && (forall n :: n in nodes ==> WellRead(process, n) && Nesting(n) + depth < MAX_ELEMENT_DEPTH)
    && TextApart(nodes)
    && DeclarationsFirst(nodes)
    && (!isDocument ==> forall n :: n in nodes ==> !IsDeclaration(n))
  }

  lemma CollectedAppend(process: bool, isDocument: bool, depth: nat, nodes: seq<Node>, n: Node)
    requires Collected(process, isDocument, depth, nodes) && WellRead(process, n)
             && Nesting(n) + depth < MAX_ELEMENT_DEPTH
    requires IsPlainText(n) && nodes != [] ==> !IsPlainText(nodes[|nodes| - 1])
    requires IsDeclaration(n) ==> WellLocated(isDocument, nodes)
    ensures Collected(process, isDocument, depth, nodes + [n])
  {
    hide WellRead, Nesting;
  }

  lemma {:induction false} NestingAllBound(ns: seq<Node>, bound: nat)
    requires forall n :: n in ns ==> Nesting(n) <= bound
    ensures NestingAll(ns) <= bound
    decreases ns
  {
    hide Nesting;
    if ns != [] {
      assert ns[0] in ns;
      NestingAllBound(ns[1..], bound);
    }
  }

  lemma ElementCollected(process: bool, name: string, attributes: seq<Attribute>, children: seq<Node>, depth: nat)
    requires LegalName(name) && AttributesWellRead(process, attributes) && depth < MAX_ELEMENT_DEPTH
    requires children != [] ==> depth + 1 < MAX_ELEMENT_DEPTH && Collected(process, false, depth + 1, children)
    ensures WellRead(process, Element(name, attributes, children))
    ensures Nesting(Element(name, attributes, children)) + depth < MAX_ELEMENT_DEPTH
  {
    if children != [] {
      NestingAllBound(children, MAX_ELEMENT_DEPTH - depth - 2);
    }
    hide LegalName, AttributesWellRead;
  }

  /** The pieces ParseElement puts together. */
  lemma ElementPieces(options: Options, s: string, depth: nat) returns (u: string, tag: Tag)
    requires ParseElement(options, s, depth).Read?
    ensures |u| <= |s| && NameLength(u) > 0 && tag == ParseAttributes(options, u[NameLength(u)..], []) && tag.TagRead?
    ensures var node := ParseElement(options, s, depth).node;
            && node == Element(u[..NameLength(u)], tag.attributes, node.children)
            && (node.children != [] ==>
                  && |tag.rest| < |s|
                  && ParseDeep(options, tag.rest, false, depth).EndTag?
                  && node.children == ParseDeep(options, tag.rest, false, depth).children)
  {
    hide NameLength, WhiteLead, ParseDeep, ParseAttributes;
    var t := SkipWhite(s);
    u := if At(t, 0) == '/' then t[1..] else t;
    tag := ParseAttributes(options, u[NameLength(u)..], []);
  }

  lemma {:induction false} ElementWellRead(options: Options, s: string, depth: nat)
    requires depth < MAX_ELEMENT_DEPTH && ParseElement(options, s, depth).Read?
    ensures var n := ParseElement(options, s, depth).node;
            WellRead(options.processEntities, n) && Nesting(n) + depth < MAX_ELEMENT_DEPTH
    decreases |s|, 0
  {
    hide WellRead, Nesting, NameLength, ParseAttributes, ParseLoop, ParseElement, Collected, LegalName, UniqueNames;
    var u, tag := ElementPieces(options, s, depth);
    var n := ParseElement(options, s, depth).node;
    LegalNamePrefix(u);
    NoAttributes(options.processEntities);
    AttributesStayWellRead(options, u[NameLength(u)..], []);
    if n.children != [] {
      ListWellRead(options, tag.rest, false, depth + 1, []);
    }
    hide ParseDeep, AttributesWellRead;
    ElementCollected(options.processEntities, n.name, n.attributes, n.children, depth);
  }

  lemma NoAttributes(process: bool)
    ensures AttributesWellRead(process, [])
  {
  }

  lemma NothingCollected(process: bool, isDocument: bool, depth: nat)
    ensures Collected(process, isDocument, depth, [])
  {
  }

  /** Everything the child loop returns is well read. */
  lemma {:induction false} ListWellRead(options: Options, s: string, isDocument: bool, depth: nat, before: seq<Node>)
    requires depth < MAX_ELEMENT_DEPTH
    requires before != [] ==>
               Collected(options.processEntities, isDocument, depth, before)
               && (IsPlainText(before[|before| - 1]) ==> At(s, 0) == '<')
    ensures var r := ParseLoop(options, s, isDocument, depth, before);
            !r.Failed? ==> Collected(options.processEntities, isDocument, depth, r.children)
    decreases |s|, 1
  {
    hide Collected, Identify, ParseElement, ParseLeaf, WellRead, Nesting, WellLocated;
    NothingCollected(options.processEntities, isDocument, depth);
    if !AtEnd(s) && Identify(s).Some? {
      var (start, t) := Identify(s).value;
      var result := if start.StartElement? then ParseElement(options, t, depth) else ParseLeaf(options, start.kind, t);
      if result.Read? {
        if start.StartElement? {
          ElementWellRead(options, t, depth);
        } else {
          UnknownAt(s);
          LeafWellRead(options, start.kind, t);
          LeavesAreFlat(result.node);
        }
        var r := ParseLoop(options, s, isDocument, depth, before);
        if r == ParseLoop(options, result.rest, isDocument, depth, before + [result.node])
           && (IsDeclaration(result.node) ==> WellLocated(isDocument, before)) {
          TextStart(s);
          CollectedAppend(options.processEntities, isDocument, depth, before, result.node);
          ListWellRead(options, result.rest, isDocument, depth, before + [result.node]);
        }
      }
    }
  }

  lemma UnknownAt(s: string)
    requires Identify(s).Some?
    ensures Identify(s).value.0 == StartLeaf(Unknown) ==>
              !StartsWith(Identify(s).value.1, "--") && !StartsWith(Identify(s).value.1, "[CDATA[")
  {
    hide Identify, StartsWith;
    if Identify(s).value.0 == StartLeaf(Unknown) {
      UnknownIsUnknown(s);
    }
  }

  lemma TextStart(s: string)
    requires Identify(s).Some?
    ensures Identify(s).value.0 == StartLeaf(Text) ==> At(s, 0) != '<'
  {
    hide Identify;
  }

  lemma LeavesAreFlat(n: Node)
    ensures n.Leaf? ==> Nesting(n) == 0
  {
  }

  // ---------------------------------------------------------------------------------------------
  // Documents
  // ---------------------------------------------------------------------------------------------

  /** Every document that parses has legal names, unique attributes, declarations first and at most 98 nested
      elements with children. */
  lemma ParsedDocument(options: Options, text: string)
    requires ParseDocument(options, text).Parsed?
    ensures var ns := ParseDocument(options, text).children;
            && (forall n :: n in ns ==>
                  WellRead(options.processEntities, n) && UniqueEverywhere(n) && Nesting(n) <= MAX_ELEMENT_DEPTH - 2)
            && DeclarationsFirst(ns) && TextApart(ns)
  {
    hide WellRead, Nesting, ParseLoop, UniqueEverywhere;
    var s := SkipWhite(text);
    var t := if StartsWith(s, BOM) then s[3..] else s;
    ListWellRead(options, t, true, 1, []);
    var ns := ParseDocument(options, text).children;
    assert Collected(options.processEntities, true, 1, ns);
    forall n | n in ns
      ensures UniqueEverywhere(n)
    {
      WellReadIsUnique(options.processEntities, n);
    }
  }

  lemma ParsedIsCollapsed(process: bool, text: string)
    requires ParseDocument(Options(process, true), text).Parsed?
    ensures forall n :: n in ParseDocument(Options(process, true), text).children ==> AllCollapsed(n)
  {
    hide ParseDocument, AllCollapsed;
    DocumentCollapses(process, text);
    var ns := ParseDocument(Options(process, false), text).children;
    forall n | n in SquashAll(ns)
      ensures AllCollapsed(n)
    {
      var i :| 0 <= i < |ns| && SquashAll(ns)[i] == n;
      SquashedIsCollapsed(ns[i]);
    }
  }
}
