/** Reading with white space collapsed: the same as reading with white space kept and collapsing the plain texts of
    the tree afterwards. */
module WhitespaceModes {
  import opened Optional
  import opened XmlChars
  import opened StringDecoding
  import opened Dom
  import opened XmlParsing

  // ---------------------------------------------------------------------------------------------
  // Strings
  // ---------------------------------------------------------------------------------------------

  lemma {:induction false} DecodingIgnoresCollapse(mode: Mode, raw: string, p: nat, out: string)
    requires |out| <= p <= |raw|
    ensures DecodeFrom(mode, raw, p, out) == DecodeFrom(mode.(collapse := false), raw, p, out)
    decreases |raw| - p
  {
    hide NextChunk;
    if p < |raw| {
      SameChunk(mode, raw[p..]);
      match NextChunk(mode, raw[p..])
      case Write(text, used) => DecodingIgnoresCollapse(mode, raw, p + used, out + text);
      case Skip => DecodingIgnoresCollapse(mode, raw, p + 1, out + [raw[|out|]]);
    }
  }

  lemma SameChunk(mode: Mode, s: string)
    requires s != ""
    ensures NextChunk(mode, s) == NextChunk(mode.(collapse := false), s)
  {
  }

  lemma EagerCollapses(mode: Mode, raw: string)
    requires mode.collapse
    ensures Eager(mode, raw) == Collapse(Eager(mode.(collapse := false), raw))
  {
    DecodingIgnoresCollapse(mode, raw, 0, "");
  }

  /** White space at the end does not survive. */
  lemma {:induction false} EndCollapses(s: string, gap: string)
    requires AllWhite(gap)
    ensures CollapseRest(s + gap) == CollapseRest(s)
    decreases |s|
  {
    if s == "" {
      assert s + gap == gap;
      WhiteLeadIs(gap, |gap|);
    } else if IsWhiteSpace(s[0]) {
      SkipWhiteEnd(s, gap);
      var t := SkipWhite(s);
      hide WhiteLead;
      if t != "" {
        assert (t + gap)[1..] == t[1..] + gap;
        EndCollapses(t[1..], gap);
      }
    } else {
      assert (s + gap)[1..] == s[1..] + gap;
      EndCollapses(s[1..], gap);
    }
  }

  lemma SkipWhiteEnd(s: string, gap: string)
    requires AllWhite(gap)
    ensures SkipWhite(s + gap) == if SkipWhite(s) == "" then "" else SkipWhite(s) + gap
  {
    var n := WhiteLead(s);
    hide WhiteLead;
    if n == |s| {
      WhiteLeadIs(s + gap, |s + gap|);
    } else {
      assert (s + gap)[..n] == s[..n];
      WhiteLeadIs(s + gap, n);
      assert (s + gap)[n..] == s[n..] + gap;
    }
  }

  lemma EndIsCollapsed(s: string, gap: string)
    requires AllWhite(gap)
    ensures Collapse(s + gap) == Collapse(s)
  {
    SkipWhiteEnd(s, gap);
    EndCollapses(SkipWhite(s), gap);
  }

  /** Collapsing brings in no byte but the space. */
  lemma {:induction false} CollapseKeepsOut(s: string, c: char)
    requires c !in s && c != ' '
    ensures c !in CollapseRest(s)
    decreases |s|
  {
    if s != "" {
      CollapseKeepsOut(if IsWhiteSpace(s[0]) && SkipWhite(s) != "" then SkipWhite(s)[1..] else s[1..], c);
    }
  }

  // ---------------------------------------------------------------------------------------------
  // Trees
  // ---------------------------------------------------------------------------------------------

  /** The tree with its plain texts collapsed. */
  function Squash(n: Node): (r: Node)
    ensures r.Leaf? == n.Leaf? && IsDeclaration(r) == IsDeclaration(n) && IsPlainText(r) == IsPlainText(n)
    decreases n
  {
    match n
    case Leaf(kind, value) => if kind.Text? then Leaf(Text, Collapse(value)) else n
    case Element(name, attributes, children) => Element(name, attributes, SquashAll(children))
  }

  function SquashAll(ns: seq<Node>): (r: seq<Node>)
    ensures |r| == |ns| && forall i :: 0 <= i < |ns| ==> r[i] == Squash(ns[i])
    decreases ns
  {
    if ns == [] then [] else [Squash(ns[0])] + SquashAll(ns[1..])
  }

  /** What a reader has collected: squashed when it collapses white space. */
  function Kept(collapse: bool, ns: seq<Node>): (r: seq<Node>)
    ensures |r| == |ns|
  {
    if collapse then SquashAll(ns) else ns
  }

  /** No plain text of the tree changes when it is collapsed. */
  predicate AllCollapsed(n: Node)
    decreases n
  {
    match n
    case Leaf(kind, value) => kind.Text? ==> Collapsed(value)
    case Element(_, _, children) => forall c :: c in children ==> AllCollapsed(c)
  }

  lemma {:induction false} SquashFixes(n: Node)
    ensures Squash(n) == n <==> AllCollapsed(n)
    decreases n, 0
  {
    hide Collapse, Collapsed;
    match n
    case Leaf(kind, value) => CollapseSpec(value);
    case Element(name, attributes, children) => SquashAllFixes(children);
  }

  lemma {:induction false} SquashAllFixes(ns: seq<Node>)
    ensures SquashAll(ns) == ns <==> forall n :: n in ns ==> AllCollapsed(n)
    decreases ns, 1
  {
    hide Squash, AllCollapsed;
    forall i | 0 <= i < |ns|
      ensures SquashAll(ns)[i] == ns[i] <==> AllCollapsed(ns[i])
    {
      SquashFixes(ns[i]);
    }
    assert forall i :: 0 <= i < |ns| ==> ns[i] in ns;
    if forall n :: n in ns ==> AllCollapsed(n) {
      assert SquashAll(ns) == ns;
    }
  }

  lemma {:induction false} SquashedIsCollapsed(n: Node)
    ensures AllCollapsed(Squash(n))
    decreases n
  {
    hide Collapse, Collapsed;
    match n
    case Leaf(kind, value) => CollapseSpec(value);
    case Element(name, attributes, children) =>
      forall c | c in SquashAll(children)
        ensures AllCollapsed(c)
      {
        var i :| 0 <= i < |children| && SquashAll(children)[i] == c;
        SquashedIsCollapsed(children[i]);
      }
  }

  lemma SquashAppend(ns: seq<Node>, n: Node)
    ensures SquashAll(ns + [n]) == SquashAll(ns) + [Squash(n)]
  {
    hide Squash;
  }

  // ---------------------------------------------------------------------------------------------
  // Parsing
  // ---------------------------------------------------------------------------------------------

  function SquashNode(r: NodeResult): NodeResult {
    if r.Read? then r.(node := Squash(r.node)) else r
  }

  function SquashChildren(r: ChildrenResult): ChildrenResult {
    match r
    case EndTag(children, rest, name) => EndTag(SquashAll(children), rest, name)
    case EndOfInput(children) => EndOfInput(SquashAll(children))
    case Failed(_) => r
  }

  lemma {:induction false} AttributesIgnoreCollapse(process: bool, s: string, before: seq<Attribute>)
    ensures ParseAttributes(Options(process, true), s, before) == ParseAttributes(Options(process, false), s, before)
    decreases |s|
  {
    hide WhiteLead, IsNameStartChar, HasAttribute;
    var t := SkipWhite(s);
    if !AtEnd(t) && IsNameStartChar(t[0]) {
      SameAttribute(process, t);
      hide ParseAttribute;
      match ParseAttribute(Options(process, true), t)
      case None =>
      case Some((a, rest)) => AttributesIgnoreCollapse(process, rest, before + [a]);
    }
  }

  lemma SameAttribute(process: bool, s: string)
    ensures ParseAttribute(Options(process, true), s) == ParseAttribute(Options(process, false), s)
  {
    hide NameLength, ToQuote, FindTag, Eager;
  }

  lemma LeafCollapses(process: bool, kind: LeafKind, s: string)
    ensures ParseLeaf(Options(process, true), kind, s) == SquashNode(ParseLeaf(Options(process, false), kind, s))
  {
    hide FindTag, Eager, Collapse;
    if FindTag(s, EndOf(kind)).Some? {
      EagerCollapses(TextMode(Options(process, true)), s[..FindTag(s, EndOf(kind)).value]);
    }
  }

  lemma {:induction false} ElementCollapses(process: bool, s: string, depth: nat)
    ensures ParseElement(Options(process, true), s, depth)
            == SquashNode(ParseElement(Options(process, false), s, depth))
    decreases |s|, 0
  {
    hide WhiteLead, NameLength, ParseAttributes, ParseLoop, AtEnd;
    var t := SkipWhite(s);
    var u := if At(t, 0) == '/' then t[1..] else t;
    AttributesIgnoreCollapse(process, u[NameLength(u)..], []);
    var tag := ParseAttributes(Options(process, false), u[NameLength(u)..], []);
    assert SquashAll([]) == [];
    if NameLength(u) > 0 && tag.TagRead? && depth + 1 != MAX_ELEMENT_DEPTH {
      LoopCollapses(process, tag.rest, false, depth + 1, []);
    }
  }

  /** Collapsing while reading is collapsing what was read. */
  lemma {:induction false} LoopCollapses(process: bool, s: string, isDocument: bool, depth: nat, before: seq<Node>)
    ensures ParseLoop(Options(process, true), s, isDocument, depth, SquashAll(before))
            == SquashChildren(ParseLoop(Options(process, false), s, isDocument, depth, before))
    decreases |s|, 1
  {
    hide Identify, ParseElement, ParseLeaf, Mismatch, AtEnd, Squash, SquashAll, WellLocated, IsDeclaration;
    if !AtEnd(s) && Identify(s).Some? {
      var (start, t) := Identify(s).value;
      if start.StartElement? {
        ElementCollapses(process, t, depth);
      } else {
        LeafCollapses(process, start.kind, t);
      }
      var result := if start.StartElement? then ParseElement(Options(process, false), t, depth)
                    else ParseLeaf(Options(process, false), start.kind, t);
      if result.Read? && |result.rest| < |s| {
        SameName(result.node);
        SameLocation(isDocument, before);
        SquashAppend(before, result.node);
        LoopCollapses(process, result.rest, isDocument, depth, before + [result.node]);
      }
    }
  }

  lemma SameName(n: Node)
    ensures Squash(n).Element? == n.Element? && (n.Element? ==> Squash(n).name == n.name)
    ensures IsDeclaration(Squash(n)) == IsDeclaration(n)
  {
  }

  lemma SameLocation(isDocument: bool, before: seq<Node>)
    ensures WellLocated(isDocument, SquashAll(before)) == WellLocated(isDocument, before)
  {
    hide Squash, IsDeclaration;
    if before != [] {
      SameName(before[0]);
      SameName(before[|before| - 1]);
    }
  }

  /** A document read with white space collapsed is the one read without, with its plain texts collapsed. */
  lemma DocumentCollapses(process: bool, text: string)
    ensures var d, c := ParseDocument(Options(process, false), text), ParseDocument(Options(process, true), text);
            c == if d.Parsed? then Parsed(d.bom, SquashAll(d.children)) else d
  {
    hide ParseLoop, WhiteLead;
    var s := SkipWhite(text);
    var t := if StartsWith(s, BOM) then s[3..] else s;
    assert SquashAll([]) == [];
    LoopCollapses(process, t, true, 1, []);
  }

  lemma ReadersAgree(options: Options, text: string)
    ensures var d, r := ParseDocument(Options(options.processEntities, false), text), ParseDocument(options, text);
            r == if d.Parsed? then Parsed(d.bom, Kept(options.collapse, d.children)) else d
  {
    hide ParseDocument, SquashAll;
    if options.collapse {
      DocumentCollapses(options.processEntities, text);
    }
  }
}
