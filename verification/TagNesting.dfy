/** The language the parser reads, as a grammar: a text is a document exactly when it is one run of nodes in which
    every element that is not sealed ends in an end tag of its own name. */
module TagNesting {
  import opened Optional
  import opened XmlChars
  import opened Dom
  import opened XmlParsing

  // ---------------------------------------------------------------------------------------------
  // The grammar
  // ---------------------------------------------------------------------------------------------

  /** `t` follows the `<` that comes first in `s`. */
  predicate TagStart(s: string, t: string) {
    var p := SkipWhite(s);
    p != "" && p[0] == '<' && t == p[1..]
  }

  /** A name and attributes up to `>`, or up to `/>` when `sealed`; `rest` follows. */
  predicate TagBody(options: Options, s: string, name: string, attributes: seq<Attribute>, sealed: bool, rest: string) {
    && name != "" && NameLength(s) == |name| && s[..|name|] == name
    && ParseAttributes(options, s[|name|..], []) == TagRead(attributes, rest, sealed)
  }

  /** `s` starts with the start tag of an element. A sealed tag may have a slash in front of its name as well. */
  ghost predicate StartTagOf(options: Options, s: string, name: string, attributes: seq<Attribute>, sealed: bool,
                             rest: string) {
    exists t :: TagStart(s, t) && StartBody(options, t, name, attributes, sealed, rest)
  }

  predicate StartBody(options: Options, t: string, name: string, attributes: seq<Attribute>, sealed: bool,
                      rest: string) {
    var u := SkipWhite(t);
    TagBody(options, u, name, attributes, sealed, rest)
    || (sealed && At(u, 0) == '/' && TagBody(options, u[1..], name, attributes, true, rest))
  }

  /** `s` starts with the end tag of `name`. */
  ghost predicate EndTagOf(options: Options, s: string, name: string, rest: string) {
    exists t, attributes :: TagStart(s, t) && EndBody(options, t, name, attributes, rest)
  }

  predicate EndBody(options: Options, t: string, name: string, attributes: seq<Attribute>, rest: string) {
    var u := SkipWhite(t);
    At(u, 0) == '/' && TagBody(options, u[1..], name, attributes, false, rest)
  }

  ghost predicate LeafOf(options: Options, s: string, n: Node, rest: string)
    requires n.Leaf?
  {
    exists t :: Identify(s) == Some((StartLeaf(n.kind), t)) && ParseLeaf(options, n.kind, t) == Read(n, Open, rest, "")
  }

  /** The text from `s` up to `rest` is the node, below `depth` others. */
  ghost predicate Nested(options: Options, depth: nat, n: Node, s: string, rest: string)
    decreases n, 2
  {
    if n.Leaf? then LeafOf(options, s, n, rest)
    else
      || (n.children == [] && StartTagOf(options, s, n.name, n.attributes, true, rest))
      || (depth + 1 < MAX_ELEMENT_DEPTH && exists inner, end :: Enclosed(options, depth, n, s, inner, end, rest))
  }

  /** A start tag, the children, and the end tag of the same name. */
  ghost predicate Enclosed(options: Options, depth: nat, n: Node, s: string, inner: string, end: string, rest: string)
    requires n.Element?
    decreases n, 1
  {
    && StartTagOf(options, s, n.name, n.attributes, false, inner)
    && NestedAll(options, depth + 1, n.children, inner, end) && Located(false, [], n.children)
    && EndTagOf(options, end, n.name, rest)
  }

  /** The text from `s` up to `rest` is these nodes, one behind the other. */
  ghost predicate NestedAll(options: Options, depth: nat, ns: seq<Node>, s: string, rest: string)
    decreases ns, 0
  {
    if ns == [] then s == rest
    else exists mid :: Nested(options, depth, ns[0], s, mid) && NestedAll(options, depth, ns[1..], mid, rest)
  }

  /** Every declaration is where it may be, behind the nodes `before` and the ones in front of it. */
  predicate Located(isDocument: bool, before: seq<Node>, ns: seq<Node>) {
    forall i :: 0 <= i < |ns| && IsDeclaration(ns[i]) ==> WellLocated(isDocument, before + ns[..i])
  }

  /** Where the document ends: at the end of the input, or at an end tag that matches nothing. */
  ghost predicate Stops(options: Options, s: string) {
    AtEnd(SkipWhite(s)) || exists name, rest :: EndTagOf(options, s, name, rest)
  }

  function AfterBom(text: string): string {
    var s := SkipWhite(text);
    if StartsWith(s, BOM) then s[3..] else s
  }

  ghost predicate IsDocument(options: Options, text: string, ns: seq<Node>) {
    && !AtEnd(text) && !AtEnd(AfterBom(text)) && Located(true, [], ns)
    && exists stop :: NestedAll(options, 1, ns, AfterBom(text), stop) && Stops(options, stop)
  }

  // ---------------------------------------------------------------------------------------------
  // What the parser reads is in the grammar
  // ---------------------------------------------------------------------------------------------

  lemma ElementStart(s: string)
    ensures Identify(s).Some? && Identify(s).value.0.StartElement? ==> TagStart(s, Identify(s).value.1)
    ensures forall t :: TagStart(s, t) && At(t, 0) != '?' && At(t, 0) != '!' ==> Identify(s) == Some((StartElement, t))
  {
    var p := SkipWhite(s);
    hide WhiteLead;
    if p != "" && p[0] == '<' {
      var t := p[1..];
      assert p[..1] == "<";
      if At(t, 0) != '?' && At(t, 0) != '!' {
        PrefixDiffers(p, "<?", 1);
        PrefixDiffers(p, "<!--", 1);
        PrefixDiffers(p, "<![CDATA[", 1);
        PrefixDiffers(p, "<!", 1);
      }
    }
    if StartsWith(p, "<") {
      assert p[0] == p[..1][0];
    }
  }

  lemma NothingNested(options: Options, depth: nat, s: string, isDocument: bool, before: seq<Node>)
    ensures NestedAll(options, depth, [], s, s) && Located(isDocument, before, [])
  {
  }

  lemma LocatedCons(isDocument: bool, before: seq<Node>, n: Node, ns: seq<Node>)
    ensures Located(isDocument, before, [n] + ns)
            <==> (IsDeclaration(n) ==> WellLocated(isDocument, before)) && Located(isDocument, before + [n], ns)
  {
    hide WellLocated, IsDeclaration;
    var all := [n] + ns;
    assert all[0] == n && before + all[..0] == before;
    forall i | 0 <= i < |ns|
      ensures all[i + 1] == ns[i] && before + all[..i + 1] == before + [n] + ns[..i]
    {
      assert all[..i + 1] == [n] + ns[..i];
    }
    if Located(isDocument, before, all) {
      forall i | 0 <= i < |ns| && IsDeclaration(ns[i])
        ensures WellLocated(isDocument, before + [n] + ns[..i])
      {
        assert IsDeclaration(all[i + 1]);
      }
    }
  }

  lemma NestedCons(options: Options, depth: nat, n: Node, ns: seq<Node>, s: string, mid: string, rest: string)
    requires Nested(options, depth, n, s, mid) && NestedAll(options, depth, ns, mid, rest)
    ensures NestedAll(options, depth, [n] + ns, s, rest)
  {
    hide Nested;
    assert ([n] + ns)[1..] == ns;
  }

  /** What the child loop reads is a run of nodes, up to an end tag or the end of the input. */
  lemma {:induction false} LoopIsNested(options: Options, s: string, isDocument: bool, depth: nat, before: seq<Node>)
    returns (ns: seq<Node>, stop: string)
    requires depth < MAX_ELEMENT_DEPTH
    ensures var r := ParseLoop(options, s, isDocument, depth, before);
            !r.Failed? ==>
              && r.children == before + ns && NestedAll(options, depth, ns, s, stop) && Located(isDocument, before, ns)
              && (r.EndTag? ==> EndTagOf(options, stop, r.name, r.rest))
              && (r.EndOfInput? ==> AtEnd(SkipWhite(stop)))
    decreases |s|, 1
  {
    hide Identify, ParseElement, ParseLeaf, WellLocated, Mismatch, WhiteLead, Nested, NestedAll, Located, EndTagOf,
         AtEnd;
    hide IsDeclaration;
    ns, stop := [], s;
    var r := ParseLoop(options, s, isDocument, depth, before);
    assert before + [] == before;
    NothingNested(options, depth, s, isDocument, before);
    NothingThere(s);
    if !AtEnd(s) && Identify(s).Some? {
      var (start, t) := Identify(s).value;
      var result := if start.StartElement? then ParseElement(options, t, depth) else ParseLeaf(options, start.kind, t);
      if start.StartElement? {
        IdentifyIsShorter(s);
        ElementIsNested(options, s, t, depth);
      } else {
        LeafIsNested(options, depth, s);
      }
      if result.Read? && (IsDeclaration(result.node) ==> WellLocated(isDocument, before))
         && !(result.node.Element? && result.closing == ClosingTag)
         && !(result.node.Element? && Mismatch(result.node.name, result.closing, result.endTag)) {
        var more;
        LoopIsShorter(options, s, t, depth);
        more, stop := LoopIsNested(options, result.rest, isDocument, depth, before + [result.node]);
        ns := [result.node] + more;
        if !r.Failed? {
          NestedCons(options, depth, result.node, more, s, result.rest, stop);
          LocatedCons(isDocument, before, result.node, more);
          assert before + [result.node] + more == before + ns;
        }
      }
    }
  }

  lemma NothingThere(s: string)
    ensures AtEnd(s) || Identify(s).None? ==> AtEnd(SkipWhite(s))
  {
  }

  lemma IdentifyIsShorter(s: string)
    requires Identify(s).Some? && Identify(s).value.0.StartElement?
    ensures |Identify(s).value.1| < |s|
  {
  }

  lemma LoopIsShorter(options: Options, s: string, t: string, depth: nat)
    requires Identify(s).Some? && Identify(s).value.1 == t
    ensures var start := Identify(s).value.0;
            var result := if start.StartElement? then ParseElement(options, t, depth)
                else ParseLeaf(options, start.kind, t);
            result.Read? ==> |result.rest| < |s|
  {
    hide ParseElement, ParseLeaf, Identify;
  }

  lemma LeafIsNested(options: Options, depth: nat, s: string)
    requires Identify(s).Some? && Identify(s).value.0.StartLeaf?
    ensures var (start, t) := Identify(s).value;
            var r := ParseLeaf(options, start.kind, t);
            r.Read? ==> Nested(options, depth, r.node, s, r.rest)
  {
    hide Identify;
  }

  /** An element is nested once its end tag is checked, and an end tag is one. */
  lemma {:induction false} ElementIsNested(options: Options, s: string, t: string, depth: nat)
    requires TagStart(s, t) || Identify(s) == Some((StartElement, t))
    requires depth < MAX_ELEMENT_DEPTH
    ensures var r := ParseElement(options, t, depth);
            r.Read? ==>
              && (r.closing == ClosingTag ==> EndTagOf(options, s, r.node.name, r.rest))
              && (r.closing != ClosingTag && !Mismatch(r.node.name, r.closing, r.endTag) ==>
                    Nested(options, depth, r.node, s, r.rest))
    decreases |t|, 2
  {
    hide WhiteLead, NameLength, ParseAttributes, ParseDeep, Nested, Identify;
    ElementStart(s);
    var w := SkipWhite(t);
    var closing := At(w, 0) == '/';
    var u := if closing then w[1..] else w;
    var n := NameLength(u);
    var r := ParseElement(options, t, depth);
    if r.Read? {
      var tag := ParseAttributes(options, u[n..], []);
      var name, attributes, rest, sealed := u[..n], tag.attributes, tag.rest, tag.sealed;
      assert TagBody(options, u, name, attributes, sealed, rest);
      if sealed {
        assert StartBody(options, t, name, attributes, true, rest);
        SealedIsNested(options, depth, s, t, name, attributes, rest);
      } else if closing {
        assert EndBody(options, t, name, attributes, rest);
      } else if !AtEnd(rest) {
        assert StartBody(options, t, name, attributes, false, rest);
        ContentIsNested(options, s, t, name, attributes, rest, depth);
      }
    }
  }

  lemma SealedIsNested(options: Options, depth: nat, s: string, t: string, name: string, attributes: seq<Attribute>,
                       rest: string)
    requires TagStart(s, t) && StartBody(options, t, name, attributes, true, rest)
    ensures Nested(options, depth, Element(name, attributes, []), s, rest)
  {
    hide TagStart, StartBody;
    assert StartTagOf(options, s, name, attributes, true, rest);
  }

  lemma {:induction false} ContentIsNested(options: Options, s: string, t: string, name: string,
                                           attributes: seq<Attribute>, inner: string, depth: nat)
    requires TagStart(s, t) && StartBody(options, t, name, attributes, false, inner) && |inner| < |t|
    requires depth < MAX_ELEMENT_DEPTH
    ensures var r := ParseDeep(options, inner, false, depth);
            r.EndTag? && r.name == name ==> Nested(options, depth, Element(name, attributes, r.children), s, r.rest)
    decreases |t|, 1
  {
    hide TagStart, StartBody, ParseLoop, EndTagOf, NestedAll, Located;
    assert StartTagOf(options, s, name, attributes, false, inner);
    if depth + 1 < MAX_ELEMENT_DEPTH {
      var ns, end := LoopIsNested(options, inner, false, depth + 1, []);
      var r := ParseDeep(options, inner, false, depth);
      if r.EndTag? && r.name == name {
        assert r.children == ns;
        assert Enclosed(options, depth, Element(name, attributes, ns), s, inner, end, r.rest);
      }
    }
  }

  // ---------------------------------------------------------------------------------------------
  // What is in the grammar is read
  // ---------------------------------------------------------------------------------------------

  lemma TagIsAhead(s: string, t: string)
    requires TagStart(s, t) && At(SkipWhite(t), 0) != '?' && At(SkipWhite(t), 0) != '!'
    ensures !AtEnd(s) && Identify(s) == Some((StartElement, t))
  {
    ElementStart(s);
    hide Identify;
    assert WhiteLead(t) == 0 ==> SkipWhite(t) == t;
    assert At(t, 0) != '?' && At(t, 0) != '!' && !AtEnd(s);
  }

  lemma EndTagIsTaken(options: Options, s: string, name: string, rest: string, isDocument: bool, depth: nat,
                      before: seq<Node>)
    requires EndTagOf(options, s, name, rest)
    ensures ParseLoop(options, s, isDocument, depth, before) == EndTag(before, rest, name)
  {
    hide Identify, ParseElement, TagStart, EndBody, WhiteLead;
    var t, attributes :| TagStart(s, t) && EndBody(options, t, name, attributes, rest);
    EndIsRead(options, t, name, attributes, rest, depth);
    TagIsAhead(s, t);
  }

  lemma EndIsRead(options: Options, t: string, name: string, attributes: seq<Attribute>, rest: string, depth: nat)
    requires EndBody(options, t, name, attributes, rest)
    ensures ParseElement(options, t, depth) == Read(Element(name, attributes, []), ClosingTag, rest, "")
    ensures At(SkipWhite(t), 0) != '?' && At(SkipWhite(t), 0) != '!'
  {
    hide ParseAttributes, ParseDeep, WhiteLead;
  }

  lemma SealedIsRead(options: Options, t: string, name: string, attributes: seq<Attribute>, rest: string, depth: nat)
    requires StartBody(options, t, name, attributes, true, rest)
    ensures ParseElement(options, t, depth) == Read(Element(name, attributes, []), Closed, rest, "")
    ensures At(SkipWhite(t), 0) != '?' && At(SkipWhite(t), 0) != '!'
  {
    hide ParseAttributes, ParseDeep, WhiteLead;
  }

  lemma OpenIsRead(options: Options, t: string, name: string, attributes: seq<Attribute>, inner: string, depth: nat)
    requires StartBody(options, t, name, attributes, false, inner) && !AtEnd(inner)
    ensures var r := ParseDeep(options, inner, false, depth);
            r.EndTag? ==>
                  ParseElement(options, t, depth) == Read(Element(name, attributes, r.children), Open, r.rest, r.name)
    ensures At(SkipWhite(t), 0) != '?' && At(SkipWhite(t), 0) != '!' && name != ""
  {
    hide ParseAttributes, ParseDeep, WhiteLead;
  }

  lemma ElementIsTaken(options: Options, s: string, t: string, n: Node, closing: Closing, endTag: string, rest: string,
                       isDocument: bool, depth: nat, before: seq<Node>)
    requires TagStart(s, t) && At(SkipWhite(t), 0) != '?' && At(SkipWhite(t), 0) != '!'
    requires ParseElement(options, t, depth) == Read(n, closing, rest, endTag) && n.Element? && closing != ClosingTag
    requires !Mismatch(n.name, closing, endTag)
    ensures ParseLoop(options, s, isDocument, depth, before)
            == ParseLoop(options, rest, isDocument, depth, before + [n])
  {
    TagIsAhead(s, t);
    hide Identify, ParseElement;
  }

  lemma LeafIsTaken(options: Options, s: string, n: Node, rest: string, isDocument: bool, depth: nat, before: seq<Node>)
    requires n.Leaf? && LeafOf(options, s, n, rest) && (IsDeclaration(n) ==> WellLocated(isDocument, before))
    ensures ParseLoop(options, s, isDocument, depth, before)
            == ParseLoop(options, rest, isDocument, depth, before + [n])
  {
    NothingThere(s);
    assert AtEnd(s) ==> Identify(s).None?;
    hide Identify, ParseLeaf;
  }

  /** The inside of an element has something in it: its end tag at least. */
  lemma InnerIsThere(options: Options, depth: nat, ns: seq<Node>, inner: string, end: string, name: string,
                     rest: string)
    requires NestedAll(options, depth, ns, inner, end) && EndTagOf(options, end, name, rest)
    ensures !AtEnd(inner)
  {
    if ns == [] {
      EndTagIsTaken(options, end, name, rest, false, depth, []);
    } else {
      var mid :| Nested(options, depth, ns[0], inner, mid) && NestedAll(options, depth, ns[1..], mid, end);
      NodeIsThere(options, depth, ns[0], inner, mid);
    }
  }

  lemma NodeIsThere(options: Options, depth: nat, n: Node, s: string, rest: string)
    requires Nested(options, depth, n, s, rest)
    ensures !AtEnd(s)
  {
    hide NestedAll, StartBody, EndTagOf;
    assert AtEnd(s) ==> SkipWhite(s) == s;
  }

  lemma {:induction false} NodeIsTaken(options: Options, depth: nat, n: Node, s: string, rest: string,
                                       isDocument: bool, before: seq<Node>)
    requires depth < MAX_ELEMENT_DEPTH && Nested(options, depth, n, s, rest)
             && (IsDeclaration(n) ==> WellLocated(isDocument, before))
    ensures ParseLoop(options, s, isDocument, depth, before)
            == ParseLoop(options, rest, isDocument, depth, before + [n])
    decreases n, 1
  {
    hide ParseLoop, ParseElement, ParseDeep, TagStart, StartBody, EndTagOf, NestedAll, Located, LeafOf, WhiteLead;
    if n.Leaf? {
      LeafIsTaken(options, s, n, rest, isDocument, depth, before);
    } else if n.children == [] && StartTagOf(options, s, n.name, n.attributes, true, rest) {
      var t :| TagStart(s, t) && StartBody(options, t, n.name, n.attributes, true, rest);
      SealedIsRead(options, t, n.name, n.attributes, rest, depth);
      ElementIsTaken(options, s, t, n, Closed, "", rest, isDocument, depth, before);
    } else {
      var inner, end :| Enclosed(options, depth, n, s, inner, end, rest);
      var t :| TagStart(s, t) && StartBody(options, t, n.name, n.attributes, false, inner);
      InnerIsThere(options, depth + 1, n.children, inner, end, n.name, rest);
      OpenIsRead(options, t, n.name, n.attributes, inner, depth);
      NodesAreTaken(options, depth + 1, n.children, inner, end, false, []);
      EndTagIsTaken(options, end, n.name, rest, false, depth + 1, [] + n.children);
      DeepIs(options, inner, depth);
      ElementIsTaken(options, s, t, n, Open, n.name, rest, isDocument, depth, before);
    }
  }

  lemma DeepIs(options: Options, s: string, depth: nat)
    requires depth + 1 < MAX_ELEMENT_DEPTH
    ensures ParseDeep(options, s, false, depth) == ParseLoop(options, s, false, depth + 1, [])
  {
    hide ParseLoop;
  }

  lemma {:induction false} NodesAreTaken(options: Options, depth: nat, ns: seq<Node>, s: string, rest: string,
                                         isDocument: bool, before: seq<Node>)
    requires depth < MAX_ELEMENT_DEPTH && NestedAll(options, depth, ns, s, rest) && Located(isDocument, before, ns)
    ensures ParseLoop(options, s, isDocument, depth, before) == ParseLoop(options, rest, isDocument, depth, before + ns)
    decreases ns, 0
  {
    hide ParseLoop, Nested, Located, WellLocated, IsDeclaration;
    if ns == [] {
      assert before + ns == before;
    } else {
      var mid :| Nested(options, depth, ns[0], s, mid) && NestedAll(options, depth, ns[1..], mid, rest);
      assert ns == [ns[0]] + ns[1..];
      LocatedCons(isDocument, before, ns[0], ns[1..]);
      NodeIsTaken(options, depth, ns[0], s, mid, isDocument, before);
      NodesAreTaken(options, depth, ns[1..], mid, rest, isDocument, before + [ns[0]]);
      assert before + [ns[0]] + ns[1..] == before + ns;
    }
  }

  // ---------------------------------------------------------------------------------------------
  // Documents
  // ---------------------------------------------------------------------------------------------

  lemma StopEnds(options: Options, s: string, ns: seq<Node>)
    requires Stops(options, s)
    ensures var r := ParseLoop(options, s, true, 1, ns); !r.Failed? && r.children == ns
  {
    if AtEnd(SkipWhite(s)) {
      hide ParseElement, ParseLeaf;
    } else {
      var name, rest :| EndTagOf(options, s, name, rest);
      EndTagIsTaken(options, s, name, rest, true, 1, ns);
    }
  }

  lemma DocumentIsLoop(options: Options, text: string)
    ensures var d := ParseDocument(options, text);
            var r := ParseLoop(options, AfterBom(text), true, 1, []);
            d.Parsed? <==> !AtEnd(text) && !AtEnd(AfterBom(text)) && !r.Failed?
    ensures var d := ParseDocument(options, text);
            d.Parsed? ==> d.children == ParseLoop(options, AfterBom(text), true, 1, []).children
  {
    hide ParseLoop, WhiteLead, StartsWith;
  }

  /** The parser accepts exactly the texts of the grammar, and reads the one list of nodes it gives them. */
  lemma ReadsExactly(options: Options, text: string, ns: seq<Node>)
    ensures ParseDocument(options, text).Parsed? && ParseDocument(options, text).children == ns
            <==> IsDocument(options, text, ns)
  {
    hide ParseLoop, ParseDocument, Stops, NestedAll, Located, AfterBom, EndTagOf, AtEnd;
    DocumentIsLoop(options, text);
    var s := AfterBom(text);
    if IsDocument(options, text, ns) {
      var stop :| NestedAll(options, 1, ns, s, stop) && Stops(options, stop);
      NodesAreTaken(options, 1, ns, s, stop, true, []);
      assert [] + ns == ns;
      StopEnds(options, stop, ns);
    }
    if ParseDocument(options, text).Parsed? && ParseDocument(options, text).children == ns {
      var found, stop := LoopIsNested(options, s, true, 1, []);
      assert [] + found == found == ns;
      StopsThere(options, stop, ParseLoop(options, s, true, 1, []));
    }
  }

  lemma StopsThere(options: Options, s: string, r: ChildrenResult)
    requires !r.Failed?
             && (r.EndTag? ==> EndTagOf(options, s, r.name, r.rest)) && (r.EndOfInput? ==> AtEnd(SkipWhite(s)))
    ensures Stops(options, s)
  {
  }
}
