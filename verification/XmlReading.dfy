/** The parser's way of making nodes: created unlinked when recognized, inserted when complete, and an end tag created
    and deleted at once. For every text without an error the document keeps its invariant and its nodes spell out
    what was read. */
module XmlReading {
  import opened XmlChars
  import opened Dom
  import opened NodeLinks
  import opened Forests
  import opened ForestTrees
  import opened ParsedForests
  import opened XmlNodes
  import P = XmlParsing
  import ParsedTrees

  // ---------------------------------------------------------------------------------------------
  // What is known on the way
  // ---------------------------------------------------------------------------------------------

  /** The nodes read so far, `ts`, are the last children of `parent`. */
  ghost predicate Reading(doc: XmlDocument, t0: Snapshot, parent: XmlNode, ts: seq<Tree>)
    reads doc, doc.nodes.Values, parent`document
  {
    doc.Valid() && parent.document == doc && Underway(t0, Snapshot(doc.model, doc.nodes), parent, ts)
  }

  ghost predicate Underway(t0: Snapshot, g: Snapshot, parent: XmlNode, ts: seq<Tree>) {
    && Sound(t0.model) && Sound(g.model) && g.model.detached == {} && Appended(t0.model, g.model, parent.id, ts)
    && KeptAll(t0, g) && parent.id in t0.nodes && t0.nodes[parent.id] == parent
    && parent.id in t0.model.links && t0.model.links[parent.id].parent == NONE
  }

  lemma ReadingNow(doc: XmlDocument, t0: Snapshot, parent: XmlNode, ts: seq<Tree>)
    requires Reading(doc, t0, parent, ts)
    ensures doc.Valid() && parent.document == doc && Underway(t0, doc.Now(), parent, ts)
  {
    hide Sound, Appended, KeptAll;
  }

  lemma NothingRead(doc: XmlDocument, parent: XmlNode)
    requires doc.Valid() && doc.Has(parent) && parent.parent == null
    ensures Reading(doc, doc.Now(), parent, [])
  {
    hide Grown, Owned, Counted, AllLinked, AllHold, AllIn, Lists, Numbered, NodeAt;
    doc.Known(parent);
    SoundParts(doc.model);
    doc.ParentOf(parent);
    NothingAppended(doc.model, parent.id);
  }

  /** The node just made may be inserted. */
  lemma NodeCanBeAdded(doc: XmlDocument, t0: Snapshot, g: Snapshot, parent: XmlNode, ts: seq<Tree>, node: XmlNode,
                       v: Tree)
    requires Underway(t0, g, parent, ts) && doc.Cloned(g, node, v)
    ensures doc.Valid() && parent.document == doc && node.document == doc && doc.MayInsert(parent, node)
    ensures IsClone(g.model, doc.model, node.id, v) && Sound(doc.model) && doc.model.detached == {}
            && KeptAll(g, doc.Now())
  {
    hide Grown, Owned, Counted, AllLinked, AllHold, AllIn, Lists, Numbered, NodeAt, IsClone, Appended, MayMove;
    SoundParts(t0.model);
    SoundParts(g.model);
    SoundParts(doc.model);
    doc.Known(node);
    doc.Known(parent);
    NodeMayGet(t0.model, g.model, parent.id, ts, doc.model, node.id, v);
  }

  lemma NodeAdded(doc: XmlDocument, t0: Snapshot, g: Snapshot, h: Snapshot, parent: XmlNode, ts: seq<Tree>,
                  node: XmlNode, v: Tree,
                  r: XmlNode?)
    requires Underway(t0, g, parent, ts) && IsClone(g.model, h.model, node.id, v) && Sound(h.model)
             && h.model.detached == {} && KeptAll(g, h)
    requires doc.AddedLast(h.model, parent, node, r) && doc.nodes == h.nodes && node.document == doc
             && parent.document == doc
    ensures Reading(doc, t0, parent, ts + [v])
  {
    hide Grown, Owned, Counted, AllLinked, AllHold, AllIn, Lists, Numbered, NodeAt, IsClone, Appended, IsAddedLast;
    SoundParts(t0.model);
    OneAppended(t0.model, g.model, parent.id, ts, h.model, node.id, v, doc.model);
  }

  /** A node made from this content is a tree of its own. */
  lemma NodeMade(doc: XmlDocument, g: Snapshot, x: Content, node: XmlNode)
    requires Sound(g.model) && doc.MadeFrom(g.model, g.nodes, x, node) && g.model.next !in g.nodes
             && UniqueNames(x.attributes)
    ensures doc.Cloned(g, node, Tree(x, []))
  {
    hide Grown, Owned, Counted, AllLinked, AllHold, AllIn, Lists, Numbered, NodeAt, SetAll, IsClone, ShallowCloned;
    SoundParts(g.model);
    ShallowIsClone(g.model, x);
    CopiedExactly(x.attributes);
  }

  /** An element that was made and then got its children. */
  lemma ElementMade(doc: XmlDocument, g: Snapshot, h: Snapshot, node: XmlNode, x: Content, ts: seq<Tree>)
    requires Sound(g.model) && Sound(h.model) && IsClone(g.model, h.model, node.id, Tree(x, [])) && KeptAll(g, h)
    requires Reading(doc, h, node, ts)
    ensures doc.Cloned(g, node, Tree(x, ts))
  {
    hide Grown, Owned, Counted, AllLinked, AllHold, AllIn, Lists, Numbered, NodeAt, IsClone, Appended;
    SoundParts(g.model);
    SoundParts(h.model);
    doc.Known(node);
    ElementFilled(g.model, h.model, node.id, x, doc.model, ts);
    CloneExtends(g.model, doc.model, node.id, Tree(x, ts));
  }

  lemma MadeParts(doc: XmlDocument, g: Snapshot, node: XmlNode, v: Tree)
    requires doc.Cloned(g, node, v)
    ensures doc.Valid() && doc.HasNode(node) && node.parent == null && node.document == doc
    ensures IsClone(g.model, doc.model, node.id, v) && KeptAll(g, doc.Now()) && Sound(doc.model)
  {
    hide Grown, Owned, Counted, AllLinked, AllHold, AllIn, Lists, Numbered, NodeAt;
    SoundParts(doc.model);
    doc.Known(node);
    doc.ParentOf(node);
  }

  /** The node of an end tag came and went. */
  lemma TagDeleted(doc: XmlDocument, t0: Snapshot, g: Snapshot, parent: XmlNode, ts: seq<Tree>, x: Content,
                   node: XmlNode)
    requires Underway(t0, g, parent, ts) && g.nodes.Keys == g.model.links.Keys && parent.document == doc
    requires node.id == g.model.next && doc.Lost(ShallowCloned(g.model, x), g.nodes[node.id := node], node.id)
    ensures Reading(doc, t0, parent, ts)
  {
    hide Grown, Owned, Counted, AllLinked, AllHold, AllIn, Lists, Numbered, NodeAt, ShallowCloned, IsDeleted, Appended;
    SoundParts(g.model);
    SoundParts(doc.model);
    TagVanishes(g.model, x, doc.model);
    UntouchedAppended(t0.model, g.model, parent.id, ts, doc.model);
    doc.KeysAreLinks();
    NextIsNew(g.model);
    assert KeptAll(g, doc.Now());
  }

  lemma NextIsNew(f: Forest)
    requires Grown(f)
    ensures f.next !in f.links
  {
    hide Consistent, Named;
  }

  // ---------------------------------------------------------------------------------------------
  // One round of the child loop
  // ---------------------------------------------------------------------------------------------

  function Result(options: Options, s: string, depth: nat): P.NodeResult
    requires P.Identify(s).Some?
  {
    var (start, t) := P.Identify(s).value;
    if start.StartElement? then P.ParseElement(options, t, depth) else P.ParseLeaf(options, start.kind, t)
  }

  /** Without an error the next node is read, and it is an end tag or the loop goes on behind it. */
  lemma RoundGoesOn(options: Options, s: string, isDocument: bool, depth: nat, before: seq<Node>)
    requires !P.AtEnd(s) && P.Identify(s).Some? && !P.ParseLoop(options, s, isDocument, depth, before).Failed?
    ensures var r := Result(options, s, depth);
            && r.Read? && |r.rest| < |s|
            && if r.node.Element? && r.closing == P.ClosingTag then
                 P.ParseLoop(options, s, isDocument, depth, before) == P.EndTag(before, r.rest, r.node.name)
               else
                 P.ParseLoop(options, s, isDocument, depth, before)
                     == P.ParseLoop(options, r.rest, isDocument, depth, before + [r.node])
  {
    hide P.Identify, P.ParseElement, P.ParseLeaf, P.WellLocated, P.Mismatch;
  }

  lemma NothingLeft(options: Options, s: string, isDocument: bool, depth: nat, before: seq<Node>)
    requires P.AtEnd(s) || P.Identify(s).None?
    ensures P.ParseLoop(options, s, isDocument, depth, before) == P.EndOfInput(before)
  {
    hide P.Identify, P.ParseElement, P.ParseLeaf;
  }

  lemma TreesOfMore(ns: seq<Node>, n: Node)
    ensures TreesOf(ns + [n]) == TreesOf(ns) + [TreeOf(n)]
  {
    hide TreeOf;
  }

  lemma LeafTree(options: Options, kind: LeafKind, s: string)
    ensures var r := P.ParseLeaf(options, kind, s);
            r.Read? ==> r.node.Leaf? && r.node.kind == kind && r.closing == P.Open && r.endTag == ""
                        && TreeOf(r.node) == Tree(Content(PoolOf(kind), LeafNode(kind), r.node.value, []), [])
  {
    hide P.FindTag, PoolOf;
  }

  /** The pieces of an element that is read. */
  lemma TagIsRead(options: Options, s: string, depth: nat)
    requires P.ParseElement(options, s, depth).Read?
    ensures var t := SkipWhite(s);
            var u := if At(t, 0) == '/' then t[1..] else t;
            var tag := P.ParseAttributes(options, u[P.NameLength(u)..], []);
            && P.NameLength(u) > 0 && tag.TagRead? && |tag.rest| < |s| && UniqueNames(tag.attributes)
            && if tag.sealed || At(t, 0) == '/' || P.AtEnd(tag.rest) then
                 P.ParseElement(options, s, depth) ==
                   P.Read(Element(u[..P.NameLength(u)], tag.attributes, []),
                          if tag.sealed then P.Closed else if At(t, 0) == '/' then P.ClosingTag
                              else P.Open, tag.rest, "")
               else
                 var inner := P.ParseDeep(options, tag.rest, false, depth);
                 inner.EndTag? && P.ParseElement(options, s, depth) ==
                   P.Read(Element(u[..P.NameLength(u)], tag.attributes, inner.children), P.Open, inner.rest, inner.name)
  {
    hide P.ParseAttributes, P.NameLength, P.ParseDeep, WhiteLead;
    var t := SkipWhite(s);
    var u := if At(t, 0) == '/' then t[1..] else t;
    TagNamesUnique(options, u[P.NameLength(u)..]);
  }

  lemma TagNamesUnique(options: Options, s: string)
    ensures var tag := P.ParseAttributes(options, s, []); tag.TagRead? ==> UniqueNames(tag.attributes)
  {
    hide P.ParseAttributes;
    if P.ParseAttributes(options, s, []).TagRead? {
      ParsedTrees.NoAttributes(options.processEntities);
      ParsedTrees.AttributesStayWellRead(options, s, []);
    }
  }

  // ---------------------------------------------------------------------------------------------
  // The methods
  // ---------------------------------------------------------------------------------------------

  /** XMLElement::ParseDeep: the element's node, its attributes and its children. */
  method ParseElement(doc: XmlDocument, options: Options, s: string, depth: nat)
    returns (node: XmlNode, closing: P.Closing, rest: string, endTag: string, ghost n: Node)
    requires doc.Valid() && P.ParseElement(options, s, depth).Read?
    modifies doc
    modifies doc.nodes.Values`parent, doc.nodes.Values`prev, doc.nodes.Values`next
    modifies doc.nodes.Values`firstChild, doc.nodes.Values`lastChild, doc.nodes.Values`attributes
    ensures P.ParseElement(options, s, depth) == P.Read(n, closing, rest, endTag) && n.Element?
    ensures doc.Cloned(old(doc.Now()), node, TreeOf(n)) && fresh(doc.nodes.Values - old(doc.nodes.Values))
    ensures closing == P.ClosingTag ==>
              doc.MadeFrom(old(doc.model), old(doc.nodes), Content(ElementPool, ElementNode, n.name, n.attributes),
                           node)
    decreases |s|, 0
  {
    hide Sound, AllLinked, AllHold, AllIn, Lists, Numbered, NodeAt, IsClone, ShallowCloned, Reading, XmlDocument.Cloned,
         XmlDocument.MadeFrom, XmlDocument.Valid, P.ParseElement, P.ParseAttributes, P.NameLength, P.ParseDeep,
         WhiteLead;
    TagIsRead(options, s, depth);
    ghost var g := doc.Now();
    var t := SkipWhite(s);
    var isClosing := At(t, 0) == '/';
    var u := if isClosing then t[1..] else t;
    var tag := P.ParseAttributes(options, u[P.NameLength(u)..], []);
    var name := u[..P.NameLength(u)];
    ghost var x := Content(ElementPool, ElementNode, name, tag.attributes);
    NewNode(doc);
    node := doc.CreateWithAttributes(ElementPool, ElementNode, name, tag.attributes);
    NodeMade(doc, g, x, node);
    assert doc.nodes.Values <= g.nodes.Values + {node};
    if tag.sealed || isClosing || P.AtEnd(tag.rest) {
      closing := if tag.sealed then P.Closed else if isClosing then P.ClosingTag else P.Open;
      n := Element(name, tag.attributes, []);
      return node, closing, tag.rest, "", n;
    }
    ghost var h := doc.Now();
    MadeParts(doc, g, node, Tree(x, []));
    ghost var ns;
    rest, endTag, ns := ParseDeep(doc, node, options, tag.rest, false, depth);
    ElementMade(doc, g, h, node, x, TreesOf(ns));
    closing, n := P.Open, Element(name, tag.attributes, ns);
  }

  lemma NewNode(doc: XmlDocument)
    requires doc.Valid()
    ensures Sound(doc.model) && doc.model.detached == {} && doc.model.next !in doc.nodes
    ensures doc.nodes.Keys == doc.model.links.Keys
  {
    hide Grown, Owned, Counted, AllLinked, AllHold, AllIn, Lists, Numbered, NodeAt;
    doc.NextIsUnused();
    doc.KeysAreLinks();
  }

  /** A text, comment, declaration or unknown: its node with the value. */
  method ParseLeaf(doc: XmlDocument, options: Options, kind: LeafKind, s: string)
    returns (node: XmlNode, rest: string, ghost n: Node)
    requires doc.Valid() && P.ParseLeaf(options, kind, s).Read?
    modifies doc
    ensures P.ParseLeaf(options, kind, s) == P.Read(n, P.Open, rest, "") && n.Leaf?
    ensures doc.Cloned(old(doc.Now()), node, TreeOf(n)) && fresh(doc.nodes.Values - old(doc.nodes.Values))
  {
    hide Sound, XmlDocument.Cloned, XmlDocument.MadeFrom, XmlDocument.Valid, P.ParseLeaf, TreeOf, PoolOf;
    ghost var g := doc.Now();
    NewNode(doc);
    var r := P.ParseLeaf(options, kind, s);
    LeafTree(options, kind, s);
    rest, n := r.rest, r.node;
    node := doc.CreateWithAttributes(PoolOf(kind), LeafNode(kind), r.node.value, []);
    NodeMade(doc, g, Content(PoolOf(kind), LeafNode(kind), n.value, []), node);
  }

  /** The node that is next in the text. */
  method MakeNode(doc: XmlDocument, options: Options, s: string, depth: nat)
    returns (node: XmlNode, closing: P.Closing, rest: string, ghost n: Node)
    requires doc.Valid() && P.Identify(s).Some? && Result(options, s, depth).Read?
    modifies doc
    modifies doc.nodes.Values`parent, doc.nodes.Values`prev, doc.nodes.Values`next
    modifies doc.nodes.Values`firstChild, doc.nodes.Values`lastChild, doc.nodes.Values`attributes
    ensures var r := Result(options, s, depth); r.node == n && r.closing == closing && r.rest == rest
    ensures doc.Cloned(old(doc.Now()), node, TreeOf(n)) && fresh(doc.nodes.Values - old(doc.nodes.Values))
    ensures closing == P.ClosingTag ==>
              n.Element? && doc.MadeFrom(old(doc.model), old(doc.nodes),
                                         Content(ElementPool, ElementNode, n.name, n.attributes), node)
    decreases |s|, 0
  {
    hide XmlDocument.Cloned, XmlDocument.MadeFrom, XmlDocument.Valid, P.ParseElement, P.ParseLeaf, P.Identify, TreeOf;
    var (start, t) := P.Identify(s).value;
    if start.StartElement? {
      var tag;
      IdentifyIsShorter(s);
      node, closing, rest, tag, n := ParseElement(doc, options, t, depth);
    } else {
      node, rest, n := ParseLeaf(doc, options, start.kind, t);
      closing := P.Open;
    }
  }

  /** The node just made becomes the last child of `parent`. */
  method InsertRead(doc: XmlDocument, ghost t0: Snapshot, ghost g: Snapshot, parent: XmlNode, ghost ts: seq<Tree>,
                    node: XmlNode, ghost v: Tree)
    requires Underway(t0, g, parent, ts) && doc.Cloned(g, node, v)
    modifies doc`model, doc`unlinked, doc`pools
    modifies doc.nodes.Values`parent, doc.nodes.Values`prev, doc.nodes.Values`next
    modifies doc.nodes.Values`firstChild, doc.nodes.Values`lastChild
    ensures Reading(doc, t0, parent, ts + [v])
  {
    hide Sound, IsClone, Reading, Underway, XmlDocument.Cloned, XmlDocument.Valid, XmlDocument.AddedLast,
         XmlDocument.MayInsert, KeptAll;
    NodeCanBeAdded(doc, t0, g, parent, ts, node, v);
    ghost var h := doc.Now();
    var r := parent.InsertEndChild(node);
    NodeAdded(doc, t0, g, h, parent, ts, node, v, r);
  }

  /** The node of an end tag is deleted; its name remains. */
  method DropEndTag(doc: XmlDocument, ghost t0: Snapshot, ghost g: Snapshot, ghost parent: XmlNode, ghost ts: seq<Tree>,
                    node: XmlNode, ghost n: Node) returns (name: string)
    requires Underway(t0, g, parent, ts) && g.nodes.Keys == g.model.links.Keys && parent.document == doc
    requires n.Element? && doc.MadeFrom(g.model, g.nodes, Content(ElementPool, ElementNode, n.name, n.attributes), node)
    modifies doc
    modifies doc.nodes.Values`parent, doc.nodes.Values`prev, doc.nodes.Values`next
    modifies doc.nodes.Values`firstChild, doc.nodes.Values`lastChild, doc.nodes.Values`attributes
    ensures Reading(doc, t0, parent, ts) && doc.nodes.Values <= old(doc.nodes.Values) && name == n.name
  {
    hide Sound, ShallowCloned, Reading, Underway, XmlDocument.MadeFrom, XmlDocument.Valid, XmlDocument.Lost;
    ghost var x := Content(ElementPool, ElementNode, n.name, n.attributes);
    TagMade(doc, g, node, n);
    name := node.value;
    doc.DeleteNode(node);
    NodesGo(doc, ShallowCloned(g.model, x), g.nodes[node.id := node], node.id);
    TagDeleted(doc, t0, g, parent, ts, x, node);
  }

  /** XMLNode::ParseDeep: every node is made, completed, and inserted behind the ones before; an end tag is deleted
      again and ends the loop. */
  method ParseDeep(doc: XmlDocument, parent: XmlNode, options: Options, s: string, isDocument: bool, depth: nat)
    returns (rest: string, endTag: string, ghost ns: seq<Node>)
    requires doc.Valid() && doc.Has(parent) && parent.parent == null
    requires !P.ParseDeep(options, s, isDocument, depth).Failed?
    modifies doc
    modifies doc.nodes.Values`parent, doc.nodes.Values`prev, doc.nodes.Values`next
    modifies doc.nodes.Values`firstChild, doc.nodes.Values`lastChild, doc.nodes.Values`attributes
    ensures Reading(doc, old(doc.Now()), parent, TreesOf(ns)) && fresh(doc.nodes.Values - old(doc.nodes.Values))
    ensures match P.ParseDeep(options, s, isDocument, depth)
            case EndTag(children, r, name) => ns == children && rest == r && endTag == name
            case EndOfInput(children) => ns == children
            case Failed(_) => false
    decreases |s|, 1
  {
    hide Sound, IsClone, ShallowCloned, Reading, Underway, XmlDocument.Cloned, XmlDocument.MadeFrom, XmlDocument.Valid,
         XmlDocument.Shows, XmlDocument.HasNode, PoolOf, Result, P.ParseLoop, P.Identify, P.AtEnd, TreeOf, KeptAll;
    ghost var t0 := doc.Now();
    NothingRead(doc, parent);
    rest, endTag, ns := s, "", [];
    while !P.AtEnd(rest)
      invariant |rest| <= |s|
      invariant Reading(doc, t0, parent, TreesOf(ns)) && fresh(doc.nodes.Values - t0.nodes.Values)
      invariant P.ParseLoop(options, s, isDocument, depth + 1, [])
                == P.ParseLoop(options, rest, isDocument, depth + 1, ns)
      decreases |rest|
    {
      var found := P.Identify(rest);
      if found.None? {
        break;
      }
      RoundGoesOn(options, rest, isDocument, depth + 1, ns);
      ReadingNow(doc, t0, parent, TreesOf(ns));
      ghost var g := doc.Now();
      NewNode(doc);
      var node, closing, after;
      ghost var n;
      node, closing, after, n := MakeNode(doc, options, rest, depth + 1);
      if closing == P.ClosingTag {
        endTag := DropEndTag(doc, t0, g, parent, TreesOf(ns), node, n);
        rest := after;
        return;
      }
      rest := after;
      InsertRead(doc, t0, g, parent, TreesOf(ns), node, TreeOf(n));
      TreesOfMore(ns, n);
      ns := ns + [n];
    }
    NothingLeft(options, rest, isDocument, depth + 1, ns);
  }

  lemma IdentifyIsShorter(s: string)
    requires P.Identify(s).Some? && P.Identify(s).value.0.StartElement?
    ensures |P.Identify(s).value.1| < |s|
  {
  }

  lemma TagMade(doc: XmlDocument, g: Snapshot, node: XmlNode, n: Node)
    requires n.Element? && doc.MadeFrom(g.model, g.nodes, Content(ElementPool, ElementNode, n.name, n.attributes), node)
    ensures doc.Valid() && doc.HasNode(node) && node.value == n.name && node.id == g.model.next
    ensures doc.model == ShallowCloned(g.model, Content(ElementPool, ElementNode, n.name, n.attributes))
    ensures doc.nodes == g.nodes[node.id := node]
  {
    hide Sound, AllLinked, AllIn, Lists, Numbered, NodeAt, SetAll;
    doc.ContentOf(node);
  }

  lemma NodesGo(doc: XmlDocument, f: Forest, before: Nodes, c: Id)
    requires doc.Lost(f, before, c)
    ensures doc.nodes.Values <= before.Values
  {
    hide XmlDocument.Valid, IsDeleted;
  }

  /** XMLDocument::Parse on a text without errors: the old nodes go, and the document's children are the nodes read. */
  method ParseDocument(doc: XmlDocument, options: Options, text: string) returns (ghost ns: seq<Node>)
    requires doc.Valid() && P.ParseDocument(options, text).Parsed?
    modifies doc
    modifies doc.nodes.Values`parent, doc.nodes.Values`prev, doc.nodes.Values`next
    modifies doc.nodes.Values`firstChild, doc.nodes.Values`lastChild, doc.nodes.Values`attributes
    ensures doc.Valid() && ns == P.ParseDocument(options, text).children && Filled(doc.model, TreesOf(ns))
  {
    hide Sound, AllLinked, AllHold, AllIn, Lists, Numbered, NodeAt, Reading, Underway, XmlDocument.Valid, P.ParseDeep,
         WhiteLead, Filled;
    doc.Clear();
    RootIsReady(doc);
    ghost var t0 := doc.Now();
    var s := SkipWhite(text);
    var t := if StartsWith(s, P.BOM) then s[|P.BOM|..] else s;
    var rest, endTag;
    rest, endTag, ns := ParseDeep(doc, doc.root, options, t, true, 0);
    DocumentRead(doc, t0, TreesOf(ns));
  }

  lemma RootIsReady(doc: XmlDocument)
    requires doc.Valid()
    ensures doc.Has(doc.root) && doc.root.parent == null && doc.root.id == doc.model.root
  {
    hide Grown, Owned, Counted, AllLinked, AllHold, AllIn, Lists, Numbered, NodeAt;
    SoundParts(doc.model);
    doc.RootIsKnown();
    doc.ParentOf(doc.root);
    hide XmlDocument.Shows;
    RootHasNoParent(doc.model);
  }

  lemma RootHasNoParent(f: Forest)
    requires Grown(f)
    ensures f.root in f.links && f.links[f.root].parent == NONE
  {
    hide Consistent, Named;
  }

  lemma DocumentRead(doc: XmlDocument, t0: Snapshot, ts: seq<Tree>)
    requires Reading(doc, t0, doc.root, ts) && doc.root.id == t0.model.root
             && KidsOf(t0.model.kids, t0.model.root) == []
    ensures doc.Valid() && Filled(doc.model, ts)
  {
    hide Grown, Owned, Counted, AllLinked, AllHold, AllIn, Lists, Numbered, NodeAt, Appended, Filled;
    SoundParts(t0.model);
    DocumentFilled(t0.model, doc.model, ts);
  }
}
