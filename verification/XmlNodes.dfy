/** The document object model as linked nodes with their owner (XMLNode and XMLDocument), proved against the
    forest they stand for. */
module XmlNodes {
  import opened Ancestry
  import opened ChildLists
  import opened NodeLinks
  import opened DynArrays
  import opened Dom
  import opened Forests
  import opened ForestTrees

  type Nodes = map<Id, XmlNode>

  ghost function NodeAt(nodes: Nodes, r: Ref): XmlNode? {
    if r in nodes then nodes[r] else null
  }

  /** The node's pointers are the recorded links. */
  ghost predicate Linked(nodes: Nodes, n: XmlNode, x: Link)
    reads n`parent, n`prev, n`next, n`firstChild, n`lastChild
  {
    && n.parent == NodeAt(nodes, x.parent) && n.prev == NodeAt(nodes, x.prev) && n.next == NodeAt(nodes, x.next)
    && n.firstChild == NodeAt(nodes, x.firstChild) && n.lastChild == NodeAt(nodes, x.lastChild)
  }

  ghost predicate AllLinked(nodes: Nodes, l: Links)
    reads nodes.Values`parent, nodes.Values`prev, nodes.Values`next, nodes.Values`firstChild, nodes.Values`lastChild
  {
    nodes.Keys == l.Keys && Numbered(nodes) && forall i :: i in nodes ==> Linked(nodes, nodes[i], l[i])
  }

  /** The node holds what is recorded. */
  ghost predicate Holds(n: XmlNode, y: Content)
    reads n`kind, n`value, n`attributes
  {
    n.pool == y.pool && n.kind == y.kind && n.value == y.value && n.attributes == y.attributes
  }

  ghost predicate AllHold(nodes: Nodes, content: Contents)
    reads nodes.Values`kind, nodes.Values`value, nodes.Values`attributes
  {
    nodes.Keys == content.Keys && forall i :: i in nodes ==> Holds(nodes[i], content[i])
  }

  ghost predicate AllIn(nodes: Nodes, document: XmlDocument)
    reads nodes.Values`document
  {
    forall i :: i in nodes ==> nodes[i].document == document
  }

  ghost predicate Lists(nodes: Nodes, list: seq<XmlNode>, ids: seq<Id>) {
    |list| == |ids| && forall j :: 0 <= j < |ids| ==> ids[j] in nodes && nodes[ids[j]] == list[j]
  }

  ghost predicate Numbered(nodes: Nodes) {
    forall i :: i in nodes ==> nodes[i].id == i
  }

  lemma SameNode(nodes: Nodes, i: Id, r: Ref)
    requires Numbered(nodes) && i in nodes && (r in nodes || r == NONE)
    ensures nodes[i] == NodeAt(nodes, r) <==> i == r
    ensures NodeAt(nodes, NONE) == null
    ensures r in nodes ==> NodeAt(nodes, r) == nodes[r]
  {
  }

  /** The objects behind the links after an insertion. */
  lemma InsertedNodes(nodes: Nodes, l: Links, p: Id, a: Ref, b: Ref, c: Id, i: Id)
    requires Numbered(nodes) && nodes.Keys == l.Keys && p in l && c in l && i in l
    requires (a == NONE || a in l) && (b == NONE || b in l) && b == if a == NONE then l[p].firstChild else l[a].next
    ensures var x, n, added := Inserted(l, p, a, c)[i], nodes[i], nodes[c];
            && NodeAt(nodes, x.parent) == (if n == added then nodes[p] else NodeAt(nodes, l[i].parent))
            && NodeAt(nodes, x.prev) == (if n == added then NodeAt(nodes, a)
                                         else if n == NodeAt(nodes, b) then added else NodeAt(nodes, l[i].prev))
            && NodeAt(nodes, x.next) == (if n == added then NodeAt(nodes, b)
                                         else if n == NodeAt(nodes, a) then added else NodeAt(nodes, l[i].next))
            && NodeAt(nodes, x.firstChild) == (if n == nodes[p] && a == NONE then added
                                               else NodeAt(nodes, l[i].firstChild))
            && NodeAt(nodes, x.lastChild) == (if n == nodes[p] && b == NONE then added
                                              else NodeAt(nodes, l[i].lastChild))
    ensures NodeAt(nodes, a) == (if a == NONE then null else nodes[a])
    ensures NodeAt(nodes, b) == (if b == NONE then null else nodes[b])
  {
    hide Inserted, Numbered, NodeAt;
    InsertedAt(l, p, a, c, i);
    SameNode(nodes, i, c);
    SameNode(nodes, i, a);
    SameNode(nodes, i, b);
    SameNode(nodes, i, p);
    SameNode(nodes, c, c);
    SameNode(nodes, p, p);
  }

  /** The objects behind the links after a node was unlinked. */
  lemma UnlinkedNodes(nodes: Nodes, l: Links, c: Id, i: Id)
    requires Numbered(nodes) && nodes.Keys == l.Keys && c in l && i in l && UnlinkIsSafe(l, c)
    ensures var x, y, n, gone := Unlinked(l, c)[i], l[c], nodes[i], nodes[c];
            && NodeAt(nodes, x.parent) == (if n == gone then null else NodeAt(nodes, l[i].parent))
            && NodeAt(nodes, x.prev) == (if n == gone then null
                                         else if n == NodeAt(nodes, y.next) then NodeAt(nodes, y.prev)
                                         else NodeAt(nodes, l[i].prev))
            && NodeAt(nodes, x.next) == (if n == gone then null
                                         else if n == NodeAt(nodes, y.prev) then NodeAt(nodes, y.next)
                                         else NodeAt(nodes, l[i].next))
            && NodeAt(nodes, x.firstChild) == (if n == nodes[y.parent] && NodeAt(nodes, l[i].firstChild) == gone
                                               then NodeAt(nodes, y.next) else NodeAt(nodes, l[i].firstChild))
            && NodeAt(nodes, x.lastChild) == (if n == nodes[y.parent] && NodeAt(nodes, l[i].lastChild) == gone
                                              then NodeAt(nodes, y.prev) else NodeAt(nodes, l[i].lastChild))
  {
    hide Unlinked, Numbered, NodeAt;
    UnlinkedAt(l, c, i);
    SameNode(nodes, i, c);
    SameNode(nodes, i, l[c].prev);
    SameNode(nodes, i, l[c].next);
    SameNode(nodes, i, l[c].parent);
    SameNode(nodes, c, l[l[c].parent].firstChild);
    SameNode(nodes, c, l[l[c].parent].lastChild);
  }

  ghost function Others(nodes: Nodes, c: Id): set<XmlNode> {
    set i | i in nodes && i != c :: nodes[i]
  }

  /** All but one node hold what is recorded. */
  ghost predicate OthersHold(nodes: Nodes, content: Contents, c: Id)
    reads Others(nodes, c)`kind, Others(nodes, c)`value, Others(nodes, c)`attributes
  {
    nodes.Keys == content.Keys && forall i :: i in nodes && i != c ==> Holds(nodes[i], content[i])
  }

  lemma OthersDiffer(nodes: Nodes, content: Contents, c: Id)
    requires Numbered(nodes) && c in nodes && AllHold(nodes, content)
    ensures nodes[c] !in Others(nodes, c) && OthersHold(nodes, content, c) && Holds(nodes[c], content[c])
  {
  }

  lemma AllTogether(nodes: Nodes, content: Contents, c: Id, x: Content)
    requires c in nodes && OthersHold(nodes, content, c) && Holds(nodes[c], x)
    ensures AllHold(nodes, content[c := x])
  {
  }

  /** The list holds the node where its name stands. */
  lemma FoundInList(nodes: Nodes, list: seq<XmlNode>, ids: seq<Id>, n: XmlNode)
    requires Lists(nodes, list, ids) && Numbered(nodes) && n.id in nodes && nodes[n.id] == n
    ensures var k := IndexOf(ids, n.id);
            && |ids| == |list| && k <= |list| && (forall j :: 0 <= j < |list| && list[j] == n ==> k <= j)
            && (k < |list| ==> list[k] == n && Lists(nodes, SwapRemoved(list, k), SwapRemoved(ids, k)))
  {
    hide SwapRemoved;
    var k := IndexOf(ids, n.id);
    IndexIsFirst(ids, n.id);
    if k < |ids| {
      ListsSwap(nodes, list, ids, k);
    }
  }

  lemma ListsSwap(nodes: Nodes, list: seq<XmlNode>, ids: seq<Id>, k: nat)
    requires Lists(nodes, list, ids) && k < |ids|
    ensures Lists(nodes, SwapRemoved(list, k), SwapRemoved(ids, k))
  {
    var a, b := SwapRemoved(list, k), SwapRemoved(ids, k);
    assert forall j :: 0 <= j < |b| ==> b[j] == ids[if j == k then |ids| - 1 else j];
    assert forall j :: 0 <= j < |a| ==> a[j] == list[if j == k then |ids| - 1 else j];
  }

  lemma MarkedIs(f: Forest, c: Id)
    ensures var i := IndexOf(f.unlinked, c);
            MarkedInUse(f, c).unlinked == if i < |f.unlinked| then SwapRemoved(f.unlinked, i) else f.unlinked
  {
  }

  lemma RootAlone(doc: XmlDocument, n: XmlNode)
    requires n.id == 0 && n.document == doc && Linked(map[], n, LONELY)
             && Holds(n, Content(NoPool, DocumentNode, "", []))
    ensures var nodes, f := map[0 := n], NewForest();
            && Numbered(nodes) && AllLinked(nodes, f.links) && AllHold(nodes, f.content) && AllIn(nodes, doc)
            && NodeAt(nodes, f.root) == n && f.pools == NO_ALLOCS && f.detached == {} && Lists(nodes, [], f.unlinked)
  {
  }

  lemma WithAttributesIs(f: Forest, c: Id, attributes: seq<Attribute>)
    requires c in f.content
    ensures var r := WithAttributes(f, c, attributes);
            && r.unlinked == f.unlinked && r.root == f.root && r.detached == f.detached
            && r.pools == Count(f.pools, AttributePool, |attributes| - |f.content[c].attributes|, 0)
  {
  }

  /** A new node can join those that are shown. */
  lemma NodeJoins(doc: XmlDocument, f: Forest, n: XmlNode, x: Content)
    requires doc.Shows() && Sound(f) && doc.model == f && n.id == f.next && n.document == doc
    requires Linked(map[], n, LONELY) && Holds(n, x)
    ensures doc.Joins(n, x) && n.id !in doc.nodes
  {
    hide Owned, Counted, Consistent;
    JoinLinked(doc.nodes, f, n);
    hide AllLinked, Grown, Linked, Holds;
    JoinOthers(doc.nodes, f, n, x);
    hide AllHold;
  }

  lemma PoolKept(n: XmlNode, x: Content)
    requires Holds(n, x)
    ensures n.pool == x.pool
  {
  }

  lemma JoinOthers(nodes: Nodes, f: Forest, n: XmlNode, x: Content)
    requires AllHold(nodes, f.content) && n.id !in nodes && Holds(n, x)
    ensures AllHold(nodes[n.id := n], f.content[n.id := x])
  {
    hide Holds;
  }

  /** A node without relatives can leave. */
  lemma NodeLeaves(doc: XmlDocument, f: Forest, c: Id)
    requires doc.Shows() && Sound(f) && doc.model == f && c in f.detached && KidsOf(f.kids, c) == []
    ensures var nodes := doc.nodes - {c};
            && Numbered(nodes) && AllLinked(nodes, f.links - {c}) && AllHold(nodes, f.content - {c})
            && AllIn(nodes, doc)
            && NodeAt(nodes, f.root) == doc.root && Lists(nodes, doc.unlinked, f.unlinked)
  {
    hide Grown, Counted, Owned, AllLinked, AllHold, AllIn, Lists, Numbered, NodeAt;
    DetachedIsFree(f, c);
    DetachedNotListed(f, c);
    LeaveLinked(doc.nodes, f, c);
    LeaveOthers(doc, f, c);
    LeaveList(doc.nodes, doc.unlinked, f.unlinked, c);
  }

  lemma LeaveOthers(doc: XmlDocument, f: Forest, c: Id)
    requires Numbered(doc.nodes) && AllHold(doc.nodes, f.content) && AllIn(doc.nodes, doc)
    ensures var nodes := doc.nodes - {c};
            && Numbered(nodes) && AllHold(nodes, f.content - {c}) && AllIn(nodes, doc)
            && (f.root != c ==> NodeAt(nodes, f.root) == NodeAt(doc.nodes, f.root))
  {
  }

  lemma LeaveList(nodes: Nodes, list: seq<XmlNode>, ids: seq<Id>, c: Id)
    requires Lists(nodes, list, ids) && c !in ids
    ensures Lists(nodes - {c}, list, ids)
  {
  }

  lemma LeaveLinked(nodes: Nodes, f: Forest, c: Id)
    requires AllLinked(nodes, f.links) && Grown(f) && c in f.links && f.links[c].parent == NONE
             && KidsOf(f.kids, c) == []
    ensures AllLinked(nodes - {c}, f.links - {c})
  {
    hide Grown;
    forall i | i in nodes && i != c
      ensures Linked(nodes - {c}, nodes[i], f.links[i])
    {
      NothingLeadsTo(f, c, i);
    }
  }

  lemma JoinLinked(nodes: Nodes, f: Forest, n: XmlNode)
    requires AllLinked(nodes, f.links) && Grown(f) && n.id == f.next && Linked(map[], n, LONELY)
    ensures n.id !in nodes && AllLinked(nodes[n.id := n], f.links[n.id := LONELY])
  {
    hide Grown;
    NextIsFree(f);
    forall i | i in nodes
      ensures Linked(nodes[n.id := n], nodes[i], f.links[i])
    {
      NothingLeadsToNext(f, i);
    }
  }

  lemma NextIsFree(f: Forest)
    requires Grown(f)
    ensures f.next !in f.links
  {
    hide Consistent;
  }

  // ---------------------------------------------------------------------------------------------
  // Copying
  // ---------------------------------------------------------------------------------------------

  datatype Snapshot = Snapshot(model: Forest, nodes: Nodes)

  ghost predicate CanClone(doc: XmlDocument, n: XmlNode, target: XmlDocument, t: Tree)
    reads doc, doc.nodes.Values, target, target.nodes.Values
  {
    doc.Valid() && doc.HasNode(n) && target.Valid() && Spells(0, doc.model, n.id, t)
  }

  /** DeepClone has been done: the copy spells out the same tree, and the source document has kept all it had. */
  ghost predicate CloneDone(doc: XmlDocument, d0: Snapshot, target: XmlDocument, t0: Snapshot, clone: XmlNode, t: Tree,
                            u: Tree)
    reads doc, doc.nodes.Values, target, target.nodes.Values
  {
    target.Cloned(t0, clone, u) && doc.Grew(d0) && IsCopy(t, u) && u == t
  }

  ghost predicate PartCopy(t: Tree, u: Tree, k: nat) {
    && k == |u.children| <= |t.children| && u.x == CopiedContent(t.x)
    && forall i :: 0 <= i < k ==> IsCopy(t.children[i], u.children[i])
  }

  /** The first `k` children of `n` are copied, `child` is next. */
  ghost predicate Part(doc: XmlDocument, d0: Snapshot, target: XmlDocument, t0: Snapshot, n: XmlNode, clone: XmlNode,
                       t: Tree, u: Tree, child: XmlNode?, k: nat)
    reads doc, doc.nodes.Values, target, target.nodes.Values
  {
    && PartCopy(t, u, k) && target.Cloned(t0, clone, u) && doc.Grew(d0) && IsSource(d0, t0, n, t)
    && doc.IsKid(child, KidsOf(d0.model.kids, n.id), k) && (doc == target ==> d0 == t0)
  }

  /** Before cloning: the source node spells out the tree. */
  ghost predicate IsSource(d0: Snapshot, t0: Snapshot, n: XmlNode, t: Tree) {
    && Sound(d0.model) && Sound(t0.model) && n.id in d0.nodes && d0.nodes[n.id] == n && n.id in d0.model.links
    && Spells(0, d0.model, n.id, t)
  }

  ghost predicate KeptAll(a: Snapshot, b: Snapshot) {
    forall i :: i in a.nodes ==> i in b.nodes && b.nodes[i] == a.nodes[i]
  }

  /** What is known of the two documents, `m` and `g`, when the next child is about to be cloned. */
  ghost predicate Between(d0: Snapshot, m: Snapshot, t0: Snapshot, g: Snapshot, n: XmlNode, clone: XmlNode, t: Tree,
                          u: Tree,
                          child: XmlNode, k: nat)
  {
    && PartCopy(t, u, k) && k < |t.children| == |KidsOf(d0.model.kids, n.id)| && IsSource(d0, t0, n, t)
    && Sound(m.model) && Extends(d0.model, m.model) && KeptAll(d0, m)
    && Sound(g.model) && IsClone(t0.model, g.model, clone.id, u) && KeptAll(t0, g)
    && clone.id in g.nodes && g.nodes[clone.id] == clone
    && child.id in m.nodes && m.nodes[child.id] == child && child.id == KidsOf(d0.model.kids, n.id)[k]
  }

  /** Two documents share no node. */
  lemma Apart(a: XmlDocument, b: XmlDocument)
    requires a.Shows() && b.Shows() && a != b
    ensures a.nodes.Values !! b.nodes.Values
  {
  }

  lemma CloneStarts(doc: XmlDocument, n: XmlNode, target: XmlDocument, t: Tree)
    requires CanClone(doc, n, target, t)
    ensures doc.Valid() && doc.HasNode(n) && target.Valid()
            && (doc != target ==> doc.nodes.Values !! target.nodes.Values)
    ensures IsSource(doc.Now(), target.Now(), n, t) && target.model.next !in target.nodes
  {
    hide Sound, AllLinked, AllHold, AllIn, Lists, Numbered, NodeAt, Spells;
    doc.Known(n);
    target.NextIsUnused();
    if doc != target {
      Apart(doc, target);
    }
  }

  /** After ShallowClone. */
  lemma ShallowDone(doc: XmlDocument, d0: Snapshot, target: XmlDocument, t0: Snapshot, n: XmlNode, clone: XmlNode,
                    t: Tree, u: Tree)
    requires IsSource(d0, t0, n, t) && target.MadeClone(t0.model, t0.nodes, d0.model, n.id, clone)
             && clone.id !in t0.nodes
    requires if doc == target then d0 == t0 else doc.Valid() && doc.Now() == d0
    requires u == Tree(CopiedContent(t.x), [])
    ensures Part(doc, d0, target, t0, n, clone, t, u, n.firstChild, 0)
  {
    hide Sound, AllLinked, AllHold, AllIn, Lists, Numbered, NodeAt, SetAll, IsClone, ShallowCloned, Extends, Spells,
         XmlDocument.Valid, XmlDocument.MadeClone, XmlDocument.IsKid;
    SourceRoot(d0, n, t);
    ShallowCloneDone(target, t0, d0.model.content[n.id], n.id, d0.model, clone);
    CloneExtends(t0.model, target.model, clone.id, u);
    ExtendsItself(d0.model);
    doc.FirstIsKid(d0.model, n);
  }

  lemma ShallowCloneDone(target: XmlDocument, t0: Snapshot, x: Content, n: Id, source: Forest, clone: XmlNode)
    requires Sound(t0.model) && target.MadeClone(t0.model, t0.nodes, source, n, clone) && clone.id !in t0.nodes
    requires n in source.content && source.content[n] == x
    ensures target.Cloned(t0, clone, Tree(CopiedContent(x), []))
  {
    hide Grown, Owned, Counted, AllLinked, AllHold, AllIn, Lists, Numbered, NodeAt, SetAll, IsClone, ShallowCloned;
    ShallowIsClone(t0.model, x);
  }

  lemma SourceRoot(d0: Snapshot, n: XmlNode, t: Tree)
    requires Spells(0, d0.model, n.id, t)
    ensures n.id in d0.model.content && t.x == d0.model.content[n.id] && |t.children| == |KidsOf(d0.model.kids, n.id)|
  {
  }

  lemma NextCanBeCloned(doc: XmlDocument, d0: Snapshot, target: XmlDocument, t0: Snapshot, n: XmlNode, clone: XmlNode,
                        t: Tree, u: Tree, child: XmlNode, k: nat)
    requires Part(doc, d0, target, t0, n, clone, t, u, child, k)
    ensures k < |t.children| && child.document == doc && CanClone(doc, child, target, t.children[k])
    ensures Between(d0, doc.Now(), t0, target.Now(), n, clone, t, u, child, k)
  {
    hide Sound, AllLinked, AllHold, AllIn, Lists, Numbered, NodeAt, SetAll, IsClone, Extends, Spells;
    SourceRoot(d0, n, t);
    KidSpells(d0.model, doc.model, n.id, t, k);
    doc.Known(child);
    doc.KidIsNotRoot(d0.model, n.id, k);
  }

  /** The clone may get the child's clone. */
  lemma ChildCanBeAdded(doc: XmlDocument, d0: Snapshot, m: Snapshot, target: XmlDocument, t0: Snapshot, g: Snapshot,
                        n: XmlNode,
                        clone: XmlNode, t: Tree, u: Tree, child: XmlNode, k: nat, childClone: XmlNode, v: Tree)
    requires Between(d0, m, t0, g, n, clone, t, u, child, k)
             && CloneDone(doc, m, target, g, childClone, t.children[k], v)
    ensures target.Valid() && clone.document == target && childClone.document == target
            && target.MayInsert(clone, childClone)
    ensures IsClone(g.model, target.model, childClone.id, v) && Sound(target.model) && target.model.detached == {}
    ensures IsCopy(t.children[k], v) && KeptAll(g, target.Now()) && target.HasNode(clone)
    ensures doc.Valid() && Sound(doc.model) && Extends(m.model, doc.model) && KeptAll(m, doc.Now())
    ensures doc != target ==> doc.nodes.Values !! target.nodes.Values
  {
    hide Sound, IsClone, Spells, IsCopy, MayMove, PartCopy, Extends, CloneDone, XmlDocument.Valid, XmlDocument.Grew;
    CloneParts(doc, m, target, g, childClone, t.children[k], v);
    CloneFits(t0.model, g.model, clone.id, u, target.model, childClone.id, v);
    target.ValidNode(clone);
    target.ValidNode(childClone);
    if doc != target {
      DocumentsApart(doc, target);
    }
  }

  lemma CloneParts(doc: XmlDocument, m: Snapshot, target: XmlDocument, g: Snapshot, clone: XmlNode, t: Tree, v: Tree)
    requires CloneDone(doc, m, target, g, clone, t, v)
    ensures target.Valid() && target.Has(clone) && IsClone(g.model, target.model, clone.id, v) && IsCopy(t, v)
    ensures KeptAll(g, target.Now()) && Sound(target.model) && target.model.detached == {}
    ensures doc.Valid() && Sound(doc.model) && Extends(m.model, doc.model) && KeptAll(m, doc.Now())
  {
    hide Sound, XmlDocument.Shows, IsClone, IsCopy, Extends;
  }

  lemma CloneFits(f: Forest, g: Forest, c: Id, u: Tree, h: Forest, d: Id, v: Tree)
    requires Sound(g) && Sound(h) && IsClone(f, g, c, u) && IsClone(g, h, d, v)
    ensures MayMove(h, c, d) && c != h.root
  {
    hide Grown, Owned, Counted, IsClone, MayMove;
    CloneMayMove(f, g, c, u, h, d, v);
    CloneIsNotRoot(f, g, c, u, h, d, v);
  }

  /** After InsertEndChild: one more child is copied. */
  lemma ChildAdded(doc: XmlDocument, d0: Snapshot, m: Snapshot, m': Snapshot, target: XmlDocument, t0: Snapshot,
                   g: Snapshot,
                   h: Snapshot, n: XmlNode, clone: XmlNode, t: Tree, u: Tree, child: XmlNode, k: nat,
                       childClone: XmlNode, v: Tree,
                   r: XmlNode?)
    requires Between(d0, m, t0, g, n, clone, t, u, child, k) && IsCopy(t.children[k], v)
    requires IsClone(g.model, h.model, childClone.id, v) && Sound(h.model) && h.model.detached == {} && KeptAll(g, h)
    requires target.AddedLast(h.model, clone, childClone, r) && target.nodes == h.nodes && childClone.document == target
    requires if doc == target then d0 == t0 && m == g
             else doc.Valid() && doc.Now() == m' && Sound(m'.model) && Extends(m.model, m'.model) && KeptAll(m, m')
    ensures Part(doc, d0, target, t0, n, clone, t, Tree(u.x, u.children + [v]), child.next, k + 1)
  {
    hide Sound, AllLinked, AllHold, AllIn, Lists, Numbered, NodeAt, SetAll, IsClone, Extends, Spells, IsCopy,
         IsAddedLast, XmlDocument.Valid, XmlDocument.IsKid;
    CloneGrows(t0.model, g.model, clone.id, u, h.model, childClone.id, v, target.model);
    CloneExtends(t0.model, target.model, clone.id, Tree(u.x, u.children + [v]));
    if doc != target {
      GrowsTwice(d0.model, m.model, m'.model);
    }
    SourceRoot(d0, n, t);
    doc.NextIsKid(d0.model, n.id, child, k);
  }

  lemma CloneGrows(f: Forest, g: Forest, c: Id, u: Tree, h: Forest, d: Id, v: Tree, r: Forest)
    requires Sound(f) && Sound(g) && Sound(h) && h.detached == {} && IsClone(f, g, c, u) && IsClone(g, h, d, v)
             && IsAddedLast(h, c, d, r)
    ensures IsClone(f, r, c, Tree(u.x, u.children + [v]))
  {
    hide IsClone, IsAddedLast, Grown, Owned, Counted;
    ChildCloned(f, g, c, u, h, d, v, r);
  }

  lemma GrowsTwice(f: Forest, g: Forest, h: Forest)
    requires Sound(f) && Sound(g) && Extends(f, g) && Extends(g, h)
    ensures Extends(f, h)
  {
    hide Extends, Grown, Owned, Counted;
    ExtendsTwice(f, g, h);
  }

  /** After the last child. */
  lemma AllCloned(doc: XmlDocument, d0: Snapshot, target: XmlDocument, t0: Snapshot, n: XmlNode, clone: XmlNode,
                  t: Tree, u: Tree, k: nat)
    requires Part(doc, d0, target, t0, n, clone, t, u, null, k)
    ensures CloneDone(doc, d0, target, t0, clone, t, u)
  {
    hide Sound, AllLinked, AllHold, AllIn, Lists, Numbered, NodeAt, SetAll, IsClone, Extends, Spells, XmlDocument.Valid;
    SourceRoot(d0, n, t);
    CopyEquals(d0.model, n.id, t, u);
  }

  /** `us` are copies of the first trees of `ts`. */
  ghost predicate Copies(ts: seq<Tree>, us: seq<Tree>) {
    |us| <= |ts| && forall i :: 0 <= i < |us| ==> IsCopy(ts[i], us[i])
  }

  /** DeepCopy is under way, `child` is next. */
  ghost predicate Filling(doc: XmlDocument, d0: Snapshot, target: XmlDocument, ts: seq<Tree>, us: seq<Tree>,
                          child: XmlNode?)
    reads doc, doc.nodes.Values, target, target.nodes.Values
  {
    && doc != target && doc.Valid() && doc.Now() == d0 && target.Valid() && Filled(target.model, us) && Copies(ts, us)
    && SpellsAll(0, d0.model, KidsOf(d0.model.kids, d0.model.root), ts)
    && doc.IsKid(child, KidsOf(d0.model.kids, d0.model.root), |us|)
  }

  /** DeepCopy has been done: the target's trees are those of the source, which is what it was. */
  ghost predicate CopyDone(doc: XmlDocument, d0: Snapshot, target: XmlDocument, ts: seq<Tree>, us: seq<Tree>)
    reads doc, doc.nodes.Values, target, target.nodes.Values
  {
    doc.Valid() && doc.Now() == d0 && target.Valid() && Filled(target.model, us) && us == ts
  }

  lemma DocumentsApart(a: XmlDocument, b: XmlDocument)
    requires a.Valid() && b.Valid() && a != b
    ensures a.nodes.Values !! b.nodes.Values
  {
    hide Sound, AllLinked, AllHold, AllIn, Lists, Numbered, NodeAt;
    Apart(a, b);
  }

  lemma CopyStarts(doc: XmlDocument, target: XmlDocument, ts: seq<Tree>)
    requires doc != target && doc.Valid() && target.Valid() && KidsOf(target.model.kids, target.model.root) == []
    requires SpellsAll(0, doc.model, KidsOf(doc.model.kids, doc.model.root), ts)
    ensures Filling(doc, doc.Now(), target, ts, [], doc.root.firstChild)
  {
    hide Sound, AllLinked, AllHold, AllIn, Lists, Numbered, NodeAt, Spells, Extends;
    doc.RootIsKnown();
    doc.Known(doc.root);
    ExtendsItself(doc.model);
    doc.FirstIsKid(doc.model, doc.root);
  }

  lemma NextCanBeCopied(doc: XmlDocument, d0: Snapshot, target: XmlDocument, ts: seq<Tree>, us: seq<Tree>,
                        child: XmlNode)
    requires Filling(doc, d0, target, ts, us, child)
    ensures |us| < |ts| && child.document == doc && CanClone(doc, child, target, ts[|us|]) && doc.Now() == d0
    ensures Sound(target.model) && Filled(target.model, us) && doc.nodes.Values !! target.nodes.Values
    ensures IsNext(d0, ts, us, child)
  {
    hide Sound, AllLinked, AllHold, AllIn, Lists, Numbered, NodeAt, Spells, Extends, Filled;
    doc.Known(child);
    doc.RootIsKnown();
    doc.Known(doc.root);
    ExtendsItself(doc.model);
    doc.KidIsNotRoot(doc.model, doc.model.root, |us|);
    DocumentsApart(doc, target);
  }

  ghost predicate IsNext(d0: Snapshot, ts: seq<Tree>, us: seq<Tree>, child: XmlNode) {
    var s := KidsOf(d0.model.kids, d0.model.root);
    && d0.model.root in d0.model.content && SpellsAll(0, d0.model, s, ts) && Copies(ts, us) && |us| < |ts|
    && child.id == s[|us|] && child.id in d0.nodes && d0.nodes[child.id] == child
  }

  lemma CopyCanBeAdded(doc: XmlDocument, d0: Snapshot, target: XmlDocument, g: Snapshot, ts: seq<Tree>, us: seq<Tree>,
                       child: XmlNode, clone: XmlNode, v: Tree)
    requires IsNext(d0, ts, us, child) && Sound(g.model) && Filled(g.model, us)
    requires CloneDone(doc, d0, target, g, clone, ts[|us|], v) && doc != target
    ensures target.Valid() && target.root.document == target && clone.document == target
            && target.MayInsert(target.root, clone)
    ensures target.root.id == target.model.root && IsClone(g.model, target.model, clone.id, v) && IsCopy(ts[|us|], v)
    ensures Sound(target.model) && target.model.detached == {} && doc.Valid() && doc.nodes.Values !! target.nodes.Values
  {
    hide Sound, AllLinked, AllHold, AllIn, Lists, Numbered, NodeAt, Spells, Extends, Filled, IsClone, IsCopy, MayMove;
    target.RootIsKnown();
    target.Known(clone);
    SoundParts(g.model);
    SoundParts(target.model);
    hide Grown;
    RootMayGet(g.model, target.model, clone.id, v);
    DocumentsApart(doc, target);
  }

  lemma CopyAdded(doc: XmlDocument, d0: Snapshot, target: XmlDocument, g: Snapshot, h: Snapshot, ts: seq<Tree>,
                  us: seq<Tree>,
                  child: XmlNode, clone: XmlNode, v: Tree, r: XmlNode?)
    requires IsNext(d0, ts, us, child) && Sound(g.model) && Filled(g.model, us) && IsCopy(ts[|us|], v)
    requires IsClone(g.model, h.model, clone.id, v) && Sound(h.model) && h.model.detached == {}
    requires clone.document == target && target.root.id == h.model.root
             && target.AddedLast(h.model, target.root, clone, r)
    requires doc != target && doc.Valid() && doc.Now() == d0
    ensures Filling(doc, d0, target, ts, us + [v], child.next)
  {
    hide Sound, AllLinked, AllHold, AllIn, Lists, Numbered, NodeAt, Spells, Extends, Filled, IsClone, IsCopy,
         IsAddedLast;
    RootGrows(g.model, us, h.model, clone.id, v, target.model);
    ExtendsItself(d0.model);
    doc.NextIsKid(d0.model, d0.model.root, child, |us|);
  }

  lemma AllCopied(doc: XmlDocument, d0: Snapshot, target: XmlDocument, ts: seq<Tree>, us: seq<Tree>)
    requires Filling(doc, d0, target, ts, us, null)
    ensures CopyDone(doc, d0, target, ts, us)
  {
    hide Sound, AllLinked, AllHold, AllIn, Lists, Numbered, NodeAt, Spells, Filled, IsCopy;
    forall i | 0 <= i < |us|
      ensures us[i] == ts[i]
    {
      CopyEquals(d0.model, KidsOf(d0.model.kids, d0.model.root)[i], ts[i], us[i]);
    }
  }

  class XmlNode {
    ghost const id: Id
    const pool: PoolKind
    var document: XmlDocument?
    var kind: NodeKind
    var value: string
    var attributes: seq<Attribute>

    var parent: XmlNode?
    var firstChild: XmlNode?
    var lastChild: XmlNode?
    var prev: XmlNode?
    var next: XmlNode?

    constructor (ghost id: Id, document: XmlDocument?, pool: PoolKind, kind: NodeKind, value: string)
      ensures this.id == id && this.document == document
      ensures Linked(map[], this, LONELY) && Holds(this, Content(pool, kind, value, []))
    {
      this.id, this.document, this.pool, this.kind, this.value := id, document, pool, kind, value;
      attributes := [];
      parent, prev, next, firstChild, lastChild := null, null, null, null, null;
    }

    /** The pointer assignments of Unlink. */
    method TakeOut(child: XmlNode)
      requires child.parent == this && child != this && firstChild != null && lastChild != null
      requires child.prev != child && child.next != child
      modifies child`parent, child`prev, child`next, this`firstChild, this`lastChild
      modifies (if child.prev == null then {} else {child.prev})`next
      modifies (if child.next == null then {} else {child.next})`prev
      ensures firstChild == if old(firstChild) == child then old(child.next) else old(firstChild)
      ensures lastChild == if old(lastChild) == child then old(child.prev) else old(lastChild)
      ensures child.parent == null && child.prev == null && child.next == null
      ensures old(child.prev) != null ==> old(child.prev).next == old(child.next)
      ensures old(child.next) != null ==> old(child.next).prev == old(child.prev)
    {
      if child == firstChild {
        firstChild := firstChild.next;
      }
      if child == lastChild {
        lastChild := lastChild.prev;
      }
      if child.prev != null {
        child.prev.next := child.next;
      }
      if child.next != null {
        child.next.prev := child.prev;
      }
      child.next := null;
      child.prev := null;
      child.parent := null;
    }

    /** The same, in terms of the recorded links. */
    method TakeOutLinks(child: XmlNode, ghost nodes: Nodes, ghost l: Links)
      requires AllLinked(nodes, l) && child.id in nodes && nodes[child.id] == child && UnlinkIsSafe(l, child.id)
      requires nodes[l[child.id].parent] == this
      modifies nodes.Values`parent, nodes.Values`prev, nodes.Values`next, this`firstChild, this`lastChild
      ensures AllLinked(nodes, Unlinked(l, child.id))
    {
      hide Unlinked, NodeAt, Numbered;
      ghost var c := child.id;
      SameNode(nodes, c, l[c].prev);
      SameNode(nodes, c, l[c].next);
      SameNode(nodes, c, l[l[c].parent].firstChild);
      SameNode(nodes, c, l[l[c].parent].lastChild);
      SameNode(nodes, c, l[c].parent);
      TakeOut(child);
      forall i | i in nodes
        ensures Linked(nodes, nodes[i], Unlinked(l, c)[i])
      {
        UnlinkedNodes(nodes, l, c, i);
      }
    }

    /** Takes `child` out of the child list. */
    method Unlink(child: XmlNode)
      requires document != null && document.Shows() && Grown(document.model)
      requires document.Has(this) && document.Has(child) && child.parent == this
      modifies document`model
      modifies document.nodes.Values`parent, document.nodes.Values`prev, document.nodes.Values`next
      modifies this`firstChild, this`lastChild
      ensures document.TookOff(old(document.model), this.id, child.id)
    {
      hide Grown, Unlinked, UnlinkIsSafe, TakenOff, AllLinked, AllHold, AllIn, Lists, NodeAt;
      ghost var f, doc := document.model, document;
      doc.ParentIs(child, this);
      TakenOffGrown(f, child.id);
      UnlinkTouches(f, child.id);
      TakeOutLinks(child, doc.nodes, f.links);
      doc.model := TakenOff(f, child.id);
    }

    /** The pointer assignments of InsertEndChild. */
    method PutLast(addThis: XmlNode)
      requires addThis != lastChild && (lastChild == null ==> firstChild == null)
      modifies addThis`parent, addThis`prev, addThis`next, this`firstChild, this`lastChild
      modifies (if lastChild == null then {} else {lastChild})`next
      ensures addThis.parent == this && addThis.prev == old(lastChild) && addThis.next == null
      ensures lastChild == addThis && firstChild == if old(lastChild) == null then addThis else old(firstChild)
      ensures old(lastChild) != null ==> old(lastChild).next == addThis
    {
      if lastChild != null {
        lastChild.next := addThis;
        addThis.prev := lastChild;
        lastChild := addThis;
        addThis.next := null;
      } else {
        firstChild, lastChild := addThis, addThis;
        addThis.prev := null;
        addThis.next := null;
      }
      addThis.parent := this;
    }

    /** The same, in terms of the recorded links. */
    method PutLastLinks(addThis: XmlNode, ghost nodes: Nodes, ghost l: Links)
      requires AllLinked(nodes, l) && this.id in nodes && nodes[this.id] == this && addThis.id in nodes
               && nodes[addThis.id] == addThis
      requires this != addThis
      requires var a := l[this.id].lastChild;
               if a == NONE then l[this.id].firstChild == NONE
               else a in l && a != addThis.id && l[a].next == NONE
      modifies nodes.Values`parent, nodes.Values`prev, nodes.Values`next, this`firstChild, this`lastChild
      ensures AllLinked(nodes, Inserted(l, this.id, l[this.id].lastChild, addThis.id))
    {
      hide Inserted, NodeAt, Numbered;
      ghost var p, c, a := this.id, addThis.id, l[this.id].lastChild;
      SameNode(nodes, p, a);
      SameNode(nodes, c, a);
      PutLast(addThis);
      forall i | i in nodes
        ensures Linked(nodes, nodes[i], Inserted(l, p, a, c)[i])
      {
        InsertedNodes(nodes, l, p, a, NONE, c, i);
      }
    }

    /** The pointer assignments of InsertFirstChild. */
    method PutFirst(addThis: XmlNode)
      requires addThis != firstChild && (firstChild == null ==> lastChild == null)
      modifies addThis`parent, addThis`prev, addThis`next, this`firstChild, this`lastChild
      modifies (if firstChild == null then {} else {firstChild})`prev
      ensures addThis.parent == this && addThis.prev == null && addThis.next == old(firstChild)
      ensures firstChild == addThis && lastChild == if old(firstChild) == null then addThis else old(lastChild)
      ensures old(firstChild) != null ==> old(firstChild).prev == addThis
    {
      if firstChild != null {
        firstChild.prev := addThis;
        addThis.next := firstChild;
        firstChild := addThis;
        addThis.prev := null;
      } else {
        firstChild, lastChild := addThis, addThis;
        addThis.prev := null;
        addThis.next := null;
      }
      addThis.parent := this;
    }

    /** The same, in terms of the recorded links. */
    method PutFirstLinks(addThis: XmlNode, ghost nodes: Nodes, ghost l: Links)
      requires AllLinked(nodes, l) && this.id in nodes && nodes[this.id] == this && addThis.id in nodes
               && nodes[addThis.id] == addThis
      requires this != addThis
      requires var b := l[this.id].firstChild;
               if b == NONE then l[this.id].lastChild == NONE
               else b in l && b != addThis.id && l[b].prev == NONE
      modifies nodes.Values`parent, nodes.Values`prev, nodes.Values`next, this`firstChild, this`lastChild
      ensures AllLinked(nodes, Inserted(l, this.id, NONE, addThis.id))
    {
      hide Inserted, NodeAt, Numbered;
      ghost var p, c, b := this.id, addThis.id, l[this.id].firstChild;
      SameNode(nodes, p, b);
      SameNode(nodes, c, b);
      PutFirst(addThis);
      forall i | i in nodes
        ensures Linked(nodes, nodes[i], Inserted(l, p, NONE, c)[i])
      {
        InsertedNodes(nodes, l, p, NONE, b, c, i);
      }
    }

    /** The pointer assignments of InsertAfterChild. */
    method PutNext(afterThis: XmlNode, addThis: XmlNode)
      requires afterThis.next != null && afterThis.next != addThis && afterThis != addThis
      modifies addThis`parent, addThis`prev, addThis`next, afterThis`next, afterThis.next`prev
      ensures addThis.parent == this && addThis.prev == afterThis && addThis.next == old(afterThis.next)
      ensures afterThis.next == addThis && old(afterThis.next).prev == addThis
    {
      addThis.prev := afterThis;
      addThis.next := afterThis.next;
      afterThis.next.prev := addThis;
      afterThis.next := addThis;
      addThis.parent := this;
    }

    /** The same, in terms of the recorded links. */
    method PutNextLinks(afterThis: XmlNode, addThis: XmlNode, ghost nodes: Nodes, ghost l: Links)
      requires AllLinked(nodes, l) && this.id in nodes && nodes[this.id] == this && addThis.id in nodes
               && nodes[addThis.id] == addThis
      requires this != addThis && afterThis != addThis && afterThis.id in nodes && nodes[afterThis.id] == afterThis
      requires var b := l[afterThis.id].next; b in l && b != addThis.id && b != afterThis.id
      modifies nodes.Values`parent, nodes.Values`prev, nodes.Values`next
      ensures AllLinked(nodes, Inserted(l, this.id, afterThis.id, addThis.id))
    {
      hide Inserted, NodeAt, Numbered;
      ghost var p, c, a, b := this.id, addThis.id, afterThis.id, l[afterThis.id].next;
      SameNode(nodes, a, b);
      SameNode(nodes, c, b);
      SameNode(nodes, a, a);
      PutNext(afterThis, addThis);
      forall i | i in nodes
        ensures Linked(nodes, nodes[i], Inserted(l, p, a, c)[i])
      {
        InsertedNodes(nodes, l, p, a, b, c, i);
      }
    }

    /** Takes the node from wherever it is: off its parent, or out of the document's unlinked nodes. */
    method InsertChildPreamble(insertThis: XmlNode)
      requires document != null && document.Valid() && document.Has(insertThis) && insertThis.id != document.model.root
      modifies document`model, document`unlinked, document`pools
      modifies document.nodes.Values`parent, document.nodes.Values`prev, document.nodes.Values`next
      modifies document.nodes.Values`firstChild, document.nodes.Values`lastChild
      ensures document.Took(old(document.model), insertThis.id)
    {
      hide Grown, Unlinked, TakenOff, AllLinked, AllHold, AllIn, NodeAt, Owned, Counted, MarkedInUse;
      ghost var f, doc, c := document.model, document, insertThis.id;
      doc.ParentOf(insertThis);
      if insertThis.parent != null {
        insertThis.parent.Unlink(insertThis);
      } else {
        doc.PoolIsKnown(insertThis.pool);
        document.MarkInUse(insertThis);
        document.SetTracked(insertThis.pool);
        doc.model := doc.model.(pools := doc.pools);
      }
    }

    /** What follows the preamble in InsertEndChild. */
    method AttachLast(addThis: XmlNode)
      requires document != null && document.Ready(this, addThis)
      modifies document`model
      modifies document.nodes.Values`parent, document.nodes.Values`prev, document.nodes.Values`next
      modifies this`firstChild, this`lastChild
      ensures document.GotLast(old(document.model), this.id, addThis.id)
    {
      hide Grown, Inserted, AllLinked, AllHold, AllIn, Lists, Numbered, NodeAt, Owned, Counted, PutIn;
      ghost var f, doc, p, c := document.model, document, this.id, addThis.id;
      TakenRow(f, p, c);
      PutLastLinks(addThis, doc.nodes, f.links);
      doc.model := PutIn(f, p, |KidsOf(f.kids, p)|, c);
    }

    /** What follows the preamble in InsertFirstChild. */
    method AttachFirst(addThis: XmlNode)
      requires document != null && document.Ready(this, addThis)
      modifies document`model
      modifies document.nodes.Values`parent, document.nodes.Values`prev, document.nodes.Values`next
      modifies this`firstChild, this`lastChild
      ensures document.GotFirst(old(document.model), this.id, addThis.id)
    {
      hide Grown, Inserted, AllLinked, AllHold, AllIn, Lists, Numbered, NodeAt, Owned, Counted, PutIn;
      ghost var f, doc, p, c := document.model, document, this.id, addThis.id;
      TakenRow(f, p, c);
      PutFirstLinks(addThis, doc.nodes, f.links);
      doc.model := PutIn(f, p, 0, c);
    }

    /** What follows the preamble in InsertAfterChild, where `afterThis` still has a successor. */
    method AttachNext(afterThis: XmlNode, addThis: XmlNode)
      requires document != null && document.Ready(this, addThis) && document.HasSuccessor(this, afterThis)
      modifies document`model
      modifies document.nodes.Values`parent, document.nodes.Values`prev, document.nodes.Values`next
      ensures document.GotAfter(old(document.model), this.id, afterThis.id, addThis.id)
    {
      hide Grown, Inserted, AllLinked, AllHold, AllIn, Lists, Numbered, NodeAt, Owned, Counted, PutIn;
      ghost var f, doc, p, c := document.model, document, this.id, addThis.id;
      ghost var k := IndexOf(KidsOf(f.kids, p), afterThis.id);
      TakenRow(f, p, c);
      SuccessorOf(f, p, k);
      PutNextLinks(afterThis, addThis, doc.nodes, f.links);
      doc.model := PutIn(f, p, k + 1, c);
    }

    /** Makes `addThis` the last child, wherever it was before. */
    method InsertEndChild(addThis: XmlNode) returns (r: XmlNode?)
      requires document != null && document.Valid() && document.MayInsert(this, addThis)
      modifies document`model, document`unlinked, document`pools
      modifies document.nodes.Values`parent, document.nodes.Values`prev, document.nodes.Values`next
      modifies document.nodes.Values`firstChild, document.nodes.Values`lastChild
      ensures document.AddedLast(old(document.model), this, addThis, r)
    {
      hide Sound, AllLinked, AllHold, AllIn, Lists, Numbered, NodeAt, IsTaken, IsPutIn, IsMovedTo, MayMove;
      if addThis.document != document {
        return null;
      }
      ghost var f, doc, p, c := document.model, document, this.id, addThis.id;
      MovedIsNotRoot(f, p, c);
      InsertChildPreamble(addThis);
      ghost var g := doc.model;
      TakenReady(f, p, c, g);
      AttachLast(addThis);
      TakenAndPut(f, p, |KidsOf(g.kids, p)|, c, g, doc.model);
      return addThis;
    }

    /** Makes `addThis` the first child, wherever it was before. */
    method InsertFirstChild(addThis: XmlNode) returns (r: XmlNode?)
      requires document != null && document.Valid() && document.MayInsert(this, addThis)
      modifies document`model, document`unlinked, document`pools
      modifies document.nodes.Values`parent, document.nodes.Values`prev, document.nodes.Values`next
      modifies document.nodes.Values`firstChild, document.nodes.Values`lastChild
      ensures document.AddedFirst(old(document.model), this, addThis, r)
    {
      hide Sound, AllLinked, AllHold, AllIn, Lists, Numbered, NodeAt, IsTaken, IsPutIn, IsMovedTo, MayMove;
      if addThis.document != document {
        return null;
      }
      ghost var f, doc, p, c := document.model, document, this.id, addThis.id;
      MovedIsNotRoot(f, p, c);
      InsertChildPreamble(addThis);
      ghost var g := doc.model;
      TakenReady(f, p, c, g);
      AttachFirst(addThis);
      TakenAndPut(f, p, 0, c, g, doc.model);
      return addThis;
    }

    /** Makes `addThis` the successor of `afterThis`. It must not already be that and the last child: unlinking
        it would leave `afterThis` without a successor to read. */
    method InsertAfterChild(afterThis: XmlNode, addThis: XmlNode) returns (r: XmlNode?)
      requires document != null && document.Valid() && document.MayInsertAfter(this, afterThis, addThis)
      modifies document`model, document`unlinked, document`pools
      modifies document.nodes.Values`parent, document.nodes.Values`prev, document.nodes.Values`next
      modifies document.nodes.Values`firstChild, document.nodes.Values`lastChild
      ensures document.AddedAfter(old(document.model), this, afterThis, old(afterThis.parent), addThis, r)
    {
      hide Sound, AllLinked, AllHold, AllIn, Lists, Numbered, NodeAt, IsTaken, IsPutIn, IsMovedTo, MayMove, IndexOf,
           MovedTo, Grown;
      if addThis.document != document {
        return null;
      }
      if afterThis.parent != this {
        return null;
      }
      if afterThis == addThis {
        return addThis;
      }
      ghost var f, doc, p, a, c := document.model, document, this.id, afterThis.id, addThis.id;
      doc.NextOf(this, afterThis, addThis);
      if afterThis.next == null {
        LastIsAfter(f, p, a, c);
        r := InsertEndChild(addThis);
        return;
      }
      AfterHasSuccessor(f, p, a, c);
      MovedIsNotRoot(f, p, c);
      InsertChildPreamble(addThis);
      ghost var g := doc.model;
      TakenReady(f, p, c, g);
      AttachNext(afterThis, addThis);
      TakenAndPut(f, p, IndexOf(KidsOf(g.kids, p), a) + 1, c, g, doc.model);
      return addThis;
    }

    /** Index of the first attribute of this name; a new one is appended when there is none. */
    method FindOrCreateAttribute(name: string) returns (i: nat)
      requires document != null && AttributePool in document.pools
      modifies document`pools, this`attributes
      ensures i < |attributes|
      ensures forall value :: SetAttr(old(attributes), name, value) == attributes[i := attributes[i].(value := value)]
      ensures document.pools == Count(old(document.pools), AttributePool, |attributes| - |old(attributes)|, 0)
    {
      ghost var was := attributes;
      i := 0;
      while i < |attributes| && attributes[i].name != name
        invariant i <= |was| && attributes == was && NoneNamed(was[..i], name)
      {
        i := i + 1;
      }
      if i == |attributes| {
        attributes := attributes + [Attribute(name, "")];
        document.PoolAlloc(AttributePool);
        document.SetTracked(AttributePool);
      }
      forall value: string
        ensures SetAttr(was, name, value) == attributes[i := attributes[i].(value := value)]
      {
        SetAttrAt(was, name, value, i);
      }
    }

    /** Sets the attribute, creating it at the end of the list when there is none of this name. */
    method SetAttribute(name: string, value: string)
      requires document != null && document.Valid() && document.HasNode(this)
      modifies document`model, document`pools, this`attributes
      ensures document.Reattributed(old(document.model), this, SetAttr(old(attributes), name, value))
    {
      hide Sound, UniqueNames, SetAttr, Count, WithAttributes, XmlDocument.Shows, XmlDocument.ShowsBut;
      ghost var doc := document;
      doc.AttributesApart(this);
      SetAttrUnique(attributes, name, value);
      var i := FindOrCreateAttribute(name);
      attributes := attributes[i := attributes[i].(value := value)];
      doc.FollowAttributes(this);
    }

    /** Deletes the first attribute of this name, if there is one. */
    method DeleteAttribute(name: string)
      requires document != null && document.Valid() && document.HasNode(this)
      modifies document`model, document`pools, this`attributes
      ensures document.Reattributed(old(document.model), this, UnsetAttr(old(attributes), name))
    {
      hide Sound, UniqueNames, UnsetAttr, Count, WithAttributes, XmlDocument.Shows, XmlDocument.ShowsBut;
      ghost var doc, was := document, attributes;
      doc.AttributesApart(this);
      UnsetAttrUnique(was, name);
      var i := 0;
      while i < |attributes| && attributes[i].name != name
        invariant i <= |was| && attributes == was && NoneNamed(was[..i], name)
      {
        i := i + 1;
      }
      UnsetAttrAt(was, name, i);
      if i < |attributes| {
        attributes := attributes[..i] + attributes[i + 1..];
        document.PoolFree(AttributePool);
      }
      doc.FollowAttributes(this);
    }

    /** The attributes' part of deleting an element: each goes back to its pool. */
    method DeleteAttributes()
      requires document != null && document.Shows() && Sound(document.model) && document.HasNode(this)
      modifies document`model, document`pools, this`attributes
      ensures document.Emptied(old(document.model), this)
    {
      hide Sound, WithAttributes, XmlDocument.Shows, XmlDocument.ShowsBut;
      ghost var doc, was := document, attributes;
      doc.AttributesApart(this);
      while attributes != []
        invariant doc.pools == Count(doc.model.pools, AttributePool, |attributes| - |was|, 0)
        invariant AttributePool in doc.pools
        invariant doc.ShowsBut(this) && doc.model == old(doc.model)
        decreases |attributes|
      {
        attributes := attributes[1..];
        document.PoolFree(AttributePool);
      }
      doc.FollowAttributes(this);
    }

    /** Deletes all children, and all below them. */
    method DeleteChildren()
      requires document != null && document.Shows() && Sound(document.model) && document.Has(this)
      modifies document
      modifies document.nodes.Values`parent, document.nodes.Values`prev, document.nodes.Values`next
      modifies document.nodes.Values`firstChild, document.nodes.Values`lastChild, document.nodes.Values`attributes
      ensures document.LostChildren(old(document.model), old(document.nodes), this)
      decreases Below<Id>(document.model.above, this.id), 2
    {
      hide Sound, AllLinked, AllHold, AllIn, Lists, Numbered, NodeAt, Thinned, ChildDeleted, ChildrenDeleted;
      ghost var f, doc, nodes0, n := document.model, document, document.nodes, this.id;
      doc.Known(this);
      NothingThinnedYet(f, n);
      while firstChild != null
        invariant doc.Thinning(f, nodes0, this) && Below<Id>(doc.model.above, n) <= Below<Id>(f.above, n)
        decreases Below<Id>(doc.model.above, n)
      {
        ghost var m := doc.model;
        doc.FirstChildOf(this);
        ghost var c := firstChild.id;
        DeleteChild(firstChild);
        ThinnedFurther(f, n, m, c, doc.model);
      }
      doc.Known(this);
      doc.NoChildren(this);
      ThinnedOut(f, n, doc.model);
      lastChild := null;
    }

    /** Deletes the child and all below it. */
    method DeleteChild(node: XmlNode)
      requires document != null && document.Shows() && Sound(document.model) && document.Has(this) && document.Has(node)
      requires node.parent == this
      modifies document
      modifies document.nodes.Values`parent, document.nodes.Values`prev, document.nodes.Values`next
      modifies document.nodes.Values`firstChild, document.nodes.Values`lastChild, document.nodes.Values`attributes
      ensures document.LostChild(old(document.model), old(document.nodes), this, node.id)
      decreases Below<Id>(document.model.above, this.id), 1
    {
      hide Sound, AllLinked, AllHold, AllIn, Lists, Numbered, NodeAt, IsTakenOff, NodeDeleted, ChildDeleted, CanGo,
           Grown;
      ghost var f, doc, nodes0, p, c := document.model, document, document.nodes, this.id, node.id;
      SoundParts(f);
      doc.Known(node);
      Unlink(node);
      ghost var g := doc.model;
      UnlinkedIsDoomed(f, p, c, g);
      DeleteNode(node);
      ChildGone(f, p, c, g, doc.model);
      doc.StillHas(this, nodes0);
    }

    /** Takes a node without parent out of the unlinked nodes, and deletes its attributes and children. */
    method Empty()
      requires document != null && document.Doomed(this)
      modifies document
      modifies document.nodes.Values`parent, document.nodes.Values`prev, document.nodes.Values`next
      modifies document.nodes.Values`firstChild, document.nodes.Values`lastChild, document.nodes.Values`attributes
      ensures document.Vacated(old(document.model), old(document.nodes), this)
      decreases Below<Id>(document.model.above, this.id), 3
    {
      hide Sound, ChildrenDeleted, MarkedInUse, WithAttributes, CanGo, Below, XmlDocument.Shows,
           XmlDocument.LostChildren;
      ghost var doc, f := document, document.model;
      CanGoParts(f, this.id);
      doc.Known(this);
      document.MarkInUse(this);
      DeleteAttributes();
      DeleteChildren();
    }

    /** XMLNode::DeleteNode: deletes a node without parent, and all below it. */
    static method DeleteNode(node: XmlNode)
      requires node.document != null && node.document.Doomed(node)
      modifies node.document
      modifies node.document.nodes.Values`parent, node.document.nodes.Values`prev, node.document.nodes.Values`next
      modifies node.document.nodes.Values`firstChild, node.document.nodes.Values`lastChild
      modifies node.document.nodes.Values`attributes
      ensures node.document.LostNode(old(node.document.model), old(node.document.nodes), node.id)
      decreases Below<Id>(node.document.model.above, node.id), 4
    {
      hide Sound, NodeDeleted, ChildrenDeleted, MarkedInUse, WithAttributes, Freed, IsFreed, CanGo, XmlDocument.Shows;
      var doc := node.document;
      ghost var f, c := doc.model, node.id;
      node.Empty();
      ghost var m := doc.model;
      EmptiedIsFree(f, c, m);
      doc.Free(node);
      NodeGone(f, c, m, doc.model);
    }

    /** A copy of this node alone in the target document, attribute by attribute. */
    method ShallowClone(target: XmlDocument) returns (clone: XmlNode)
      requires document != null && document.Valid() && document.HasNode(this) && target.Valid()
      modifies target
      ensures fresh(clone)
      ensures target.MadeClone(old(target.model), old(target.nodes), old(document.model), this.id, clone)
      ensures target.nodes == old(target.nodes)[clone.id := clone] && clone.id == old(target.model).next
    {
      hide Sound, AllLinked, AllHold, AllIn, Lists, Numbered, NodeAt, ShallowCloned;
      document.ContentOf(this);
      clone := target.CreateWithAttributes(pool, kind, value, attributes);
    }

    /** The clone of the child `k` becomes the last child of this node, the clone of `n`. */
    method AppendClone(ghost doc: XmlDocument, ghost d0: Snapshot, ghost m: Snapshot, ghost target: XmlDocument,
                       ghost t0: Snapshot, ghost g: Snapshot, ghost n: XmlNode, ghost t: Tree, ghost u: Tree,
                       ghost child: XmlNode, ghost k: nat, childClone: XmlNode, ghost v: Tree)
      requires Between(d0, m, t0, g, n, this, t, u, child, k) && (doc == target ==> d0 == t0 && m == g)
               && CloneDone(doc, m, target, g, childClone, t.children[k], v)
      modifies target`model, target`unlinked, target`pools
      modifies target.nodes.Values`parent, target.nodes.Values`prev, target.nodes.Values`next
      modifies target.nodes.Values`firstChild, target.nodes.Values`lastChild
      ensures Part(doc, d0, target, t0, n, this, t, Tree(u.x, u.children + [v]), child.next, k + 1)
    {
      hide Sound, Spells, IsClone, Extends, IsAddedLast, IsCopy, Part, Between, CloneDone, KeptAll, PartCopy, IsSource,
           XmlDocument.Valid, XmlDocument.Shows, XmlDocument.AddedLast, XmlDocument.MayInsert;
      ChildCanBeAdded(doc, d0, m, target, t0, g, n, this, t, u, child, k, childClone, v);
      ghost var m', h := doc.Now(), target.Now();
      var r := InsertEndChild(childClone);
      ChildAdded(doc, d0, m, m', target, t0, g, h, n, this, t, u, child, k, childClone, v, r);
    }

    /** A copy of this node and all below it in the target document, which may be the node's own. It is made of
        new nodes only, and the source stays as it was. `t` is the tree the node spells out, `u` the copy's. */
    method DeepClone(target: XmlDocument, ghost t: Tree) returns (clone: XmlNode, ghost u: Tree)
      requires document != null && CanClone(document, this, target, t)
      modifies target
      modifies target.nodes.Values`parent, target.nodes.Values`prev, target.nodes.Values`next
      modifies target.nodes.Values`firstChild, target.nodes.Values`lastChild
      ensures fresh(target.nodes.Values - old(target.nodes.Values))
      ensures CloneDone(document, old(document.Now()), target, old(target.Now()), clone, t, u)
      decreases t
    {
      hide Sound, AllLinked, AllHold, AllIn, Lists, Numbered, NodeAt, SetAll, IsClone, Extends, ShallowCloned,
           IsAddedLast, Spells, IsCopy, XmlDocument.Valid, XmlDocument.Cloned, Part, Between, CanClone, CloneDone,
           XmlDocument.AddedLast, XmlDocument.MayInsert, XmlDocument.Shows, XmlDocument.Grew, XmlDocument.HasNode,
           XmlDocument.MadeClone, KeptAll, IsSource, PartCopy, CopiedContent;
      ghost var doc, d0, t0 := document, document.Now(), target.Now();
      CloneStarts(doc, this, target, t);
      clone := ShallowClone(target);
      u := Tree(CopiedContent(t.x), []);
      var child := firstChild;
      ghost var k := 0;
      ShallowDone(doc, d0, target, t0, this, clone, t, u);
      while child != null
        invariant Part(doc, d0, target, t0, this, clone, t, u, child, k)
        invariant fresh(target.nodes.Values - t0.nodes.Values)
        decreases |t.children| - k
      {
        ghost var m, g := doc.Now(), target.Now();
        NextCanBeCloned(doc, d0, target, t0, this, clone, t, u, child, k);
        var childClone;
        ghost var v;
        childClone, v := child.DeepClone(target, t.children[k]);
        clone.AppendClone(doc, d0, m, target, t0, g, this, t, u, child, k, childClone, v);
        u := Tree(u.x, u.children + [v]);
        child := child.next;
        k := k + 1;
      }
      AllCloned(doc, d0, target, t0, this, clone, t, u, k);
    }
  }

  class XmlDocument {
    const root: XmlNode
    var unlinked: seq<XmlNode>
    var pools: Pools

    ghost var nodes: Nodes
    ghost var model: Forest

    /** The document's objects are what the forest says. */
    ghost predicate Shows()
      reads this, nodes.Values
    {
      && Numbered(nodes) && AllLinked(nodes, model.links) && AllHold(nodes, model.content) && AllIn(nodes, this)
      && NodeAt(nodes, model.root) == root && pools == model.pools && Lists(nodes, unlinked, model.unlinked)
    }

    /** The child was unlinked. */
    ghost predicate TookOff(f: Forest, p: Id, c: Id)
      reads this, nodes.Values
    {
      Shows() && IsTakenOff(f, p, c, model)
    }

    /** The node was taken from wherever it was. */
    ghost predicate Took(f: Forest, c: Id)
      reads this, nodes.Values
    {
      Shows() && IsTaken(f, c, model)
    }

    /** `c` is off every list and may become a child of `p`. */
    ghost predicate Ready(p: XmlNode, c: XmlNode)
      reads this, nodes.Values
    {
      Shows() && Sound(model) && Has(p) && Has(c) && c.id in model.detached && MayMove(model, p.id, c.id)
    }

    ghost predicate HasSuccessor(p: XmlNode, a: XmlNode)
      reads this
    {
      Has(a) && IndexOf(KidsOf(model.kids, p.id), a.id) + 1 < |KidsOf(model.kids, p.id)|
    }

    /** The parentless node became a child: the one at index `k`, the last one, the one after `a`. */
    ghost predicate Got(f: Forest, p: Id, k: nat, c: Id)
      reads this, nodes.Values
    {
      Shows() && IsPutIn(f, p, k, c, model)
    }

    ghost predicate GotLast(f: Forest, p: Id, c: Id)
      reads this, nodes.Values
    {
      Got(f, p, |KidsOf(f.kids, p)|, c)
    }

    ghost predicate GotFirst(f: Forest, p: Id, c: Id)
      reads this, nodes.Values
    {
      Got(f, p, 0, c)
    }

    ghost predicate GotAfter(f: Forest, p: Id, a: Id, c: Id)
      reads this, nodes.Values
    {
      Got(f, p, IndexOf(KidsOf(f.kids, p), a) + 1, c)
    }

    /** What the insertions ask of a node of this document: it is neither the document nor above the new parent. */
    ghost predicate MayInsert(p: XmlNode, c: XmlNode)
      reads this, c`document
    {
      Has(p) && (c.document == this ==> Has(c) && MayMove(model, p.id, c.id))
    }

    /** InsertEndChild returned `r`: null for a node of another document, and nothing has changed; otherwise the
        node, which is now the last child. */
    ghost predicate AddedLast(f: Forest, p: XmlNode, c: XmlNode, r: XmlNode?)
      reads this, nodes.Values, c`document
    {
      Valid() && if c.document != this then r == null && model == f else r == c && IsAddedLast(f, p.id, c.id, model)
    }

    /** The same for InsertFirstChild. */
    ghost predicate AddedFirst(f: Forest, p: XmlNode, c: XmlNode, r: XmlNode?)
      reads this, nodes.Values, c`document
    {
      Valid() && if c.document != this then r == null && model == f else r == c && IsAddedFirst(f, p.id, c.id, model)
    }

    /** The same for InsertAfterChild, which also returns null when `a` is not a child of `p`, and changes nothing
        when the two nodes are the same. */
    ghost predicate AddedAfter(f: Forest, p: XmlNode, a: XmlNode, parent: XmlNode?, c: XmlNode, r: XmlNode?)
      reads this, nodes.Values, c`document
    {
      Valid() && if c.document != this || parent != p then r == null && model == f
                 else r == c && if a == c then model == f else IsAddedAfter(f, p.id, a.id, c.id, model)
    }

    /** What InsertAfterChild asks besides. */
    ghost predicate MayInsertAfter(p: XmlNode, a: XmlNode, c: XmlNode)
      reads this, a`parent, a`next, c`document, c`next
    {
      && Has(p)
      && (c.document == this && a.parent == p && a != c ==>
            Has(a) && Has(c) && MayMove(model, p.id, c.id) && !(a.next == c && c.next == null))
    }

    /** A node with this content was created. */
    ghost predicate Made(f: Forest, x: Content)
      reads this, nodes.Values
    {
      Valid() && model == Created(f, x)
    }

    /** The node has these attributes. */
    ghost predicate Reattributed(f: Forest, n: XmlNode, attributes: seq<Attribute>)
      reads this, nodes.Values
    {
      Valid() && Has(n) && n.id in f.content && model == WithAttributes(f, n.id, attributes)
    }

    /** A node of the document other than the document itself. */
    ghost predicate HasNode(n: XmlNode)
      reads this
    {
      Has(n) && n.id != model.root
    }

    ghost predicate Emptied(f: Forest, n: XmlNode)
      reads this, nodes.Values
    {
      Shows() && Sound(model) && HasNode(n) && n.id in f.content && model == WithAttributes(f, n.id, [])
    }

    /** No object was exchanged. */
    ghost predicate Kept(before: Nodes)
      reads this
    {
      forall i :: i in nodes ==> i in before && nodes[i] == before[i]
    }

    ghost predicate Thinning(f: Forest, before: Nodes, n: XmlNode)
      reads this, nodes.Values
    {
      Shows() && Sound(model) && Has(n) && Thinned(f, n.id, model) && Kept(before)
    }

    /** DeleteChildren has been done. */
    ghost predicate LostChildren(f: Forest, before: Nodes, n: XmlNode)
      reads this, nodes.Values
    {
      Shows() && Sound(model) && Has(n) && ChildrenDeleted(f, n.id, model) && Kept(before)
    }

    /** The node is out of the unlinked ones, and without attributes and children. */
    ghost predicate Vacated(f: Forest, before: Nodes, n: XmlNode)
      reads this, nodes.Values
    {
      n.id in f.content && LostChildren(WithAttributes(MarkedInUse(f, n.id), n.id, []), before, n)
    }

    /** DeleteChild has been done. */
    ghost predicate LostChild(f: Forest, before: Nodes, n: XmlNode, c: Id)
      reads this, nodes.Values
    {
      Shows() && Sound(model) && Has(n) && ChildDeleted(f, n.id, c, model) && Kept(before)
    }

    /** The node without parent is about to be deleted. */
    ghost predicate Doomed(n: XmlNode)
      reads this, nodes.Values
    {
      Shows() && Has(n) && CanGo(model, n.id)
    }

    /** DeleteNode has been done. */
    ghost predicate LostNode(f: Forest, before: Nodes, c: Id)
      reads this, nodes.Values
    {
      Shows() && Sound(model) && NodeDeleted(f, c, model) && Kept(before)
    }

    ghost predicate Freed(f: Forest, before: Nodes, n: XmlNode)
      reads this, nodes.Values
    {
      Shows() && IsFreed(f, n.id, model) && nodes == before - {n.id}
    }

    /** DeleteNode has been done for the node named `c`. */
    ghost predicate Lost(f: Forest, before: Nodes, c: Id)
      reads this, nodes.Values
    {
      Valid() && IsDeleted(f, c, model) && Kept(before)
    }

    ghost predicate Copying(f: Forest, g: Forest, clone: XmlNode, attributes: seq<Attribute>)
      reads this, nodes.Values, clone`attributes
    {
      && Valid() && HasNode(clone) && clone.id == f.next && clone.id in g.content
      && model == WithAttributes(g, clone.id, attributes)
      && clone.attributes == attributes && clone.document == this && nodes.Keys >= {clone.id} && g.root == f.root
    }

    /** ShallowClone has been done. */
    ghost predicate MadeClone(f: Forest, before: Nodes, source: Forest, n: Id, clone: XmlNode)
      reads this, nodes.Values
    {
      n in source.content && MadeFrom(f, before, source.content[n], clone)
    }

    /** A node with this content was created, its attributes one by one. */
    ghost predicate MadeFrom(f: Forest, before: Nodes, x: Content, node: XmlNode)
      reads this, nodes.Values
    {
      && Valid() && HasNode(node) && node.id == f.next && model == ShallowCloned(f, x)
      && nodes == before[node.id := node]
    }

    /** DeepClone has been done. */
    ghost predicate Cloned(before: Snapshot, clone: XmlNode, u: Tree)
      reads this, nodes.Values
    {
      Valid() && HasNode(clone) && IsClone(before.model, model, clone.id, u) && Keeps(before)
    }

    ghost function Now(): Snapshot
      reads this
    {
      Snapshot(model, nodes)
    }

    /** Every object is still there. */
    ghost predicate Keeps(before: Snapshot)
      reads this
    {
      forall i :: i in before.nodes ==> i in nodes && nodes[i] == before.nodes[i]
    }

    /** The document has at most got new nodes. */
    ghost predicate Grew(before: Snapshot)
      reads this, nodes.Values
    {
      Valid() && Extends(before.model, model) && Keeps(before)
    }

    ghost predicate IsKid(child: XmlNode?, s: seq<Id>, k: nat)
      reads this
    {
      if k < |s| then child != null && Has(child) && child.id == s[k] else child == null
    }

    ghost predicate Has(n: XmlNode)
      reads this`nodes
    {
      n.id in nodes && nodes[n.id] == n
    }

    lemma ParentIs(n: XmlNode, p: XmlNode)
      requires Shows() && Grown(model) && Has(n) && Has(p) && n.parent == p
      ensures n.id in model.links && model.links[n.id].parent == p.id
    {
      KnownParent(model, n.id);
      hide Grown;
    }

    lemma NextOf(p: XmlNode, a: XmlNode, c: XmlNode)
      requires Valid() && Has(p) && Has(a) && Has(c) && a.parent == p
      ensures a.id in model.links && c.id in model.links && model.links[a.id].parent == p.id && p.id in model.links
      ensures a.next == null <==> model.links[a.id].next == NONE
      ensures c.next == null <==> model.links[c.id].next == NONE
      ensures model.links[a.id].next == c.id ==> a.next == c
    {
      hide Grown, Counted, Owned;
      KnownNext(model, a.id);
      KnownNext(model, c.id);
      ParentIs(a, p);
    }

    lemma Known(n: XmlNode)
      requires Shows() && Has(n)
      ensures n.id in model.links && n.id in model.content && n.document == this
    {
    }

    lemma ValidNode(n: XmlNode)
      requires Valid() && Has(n)
      ensures n.document == this
    {
      hide Sound, AllLinked, AllHold, Lists, Numbered, NodeAt;
    }

    lemma StillHas(n: XmlNode, before: Nodes)
      requires Shows() && Kept(before) && n.id in model.links && n.id in before && before[n.id] == n
      ensures Has(n)
    {
    }

    lemma RootIsKnown()
      requires Shows() && Sound(model)
      ensures Has(root) && root.id == model.root && root.document == this
    {
      hide Owned, Counted, Consistent;
    }

    lemma NotRootAfter()
      requires Shows() && Sound(model)
      ensures model.root != model.next && AttributePool in model.pools
    {
      hide Owned, Consistent;
    }

    lemma FirstIsKid(f: Forest, n: XmlNode)
      requires Valid() && Has(n) && Extends(f, model) && n.id in f.content
      ensures IsKid(n.firstChild, KidsOf(f.kids, n.id), 0)
    {
      hide Grown, Owned, Counted;
      assert Same(f, model, n.id);
      Row(model, n.id);
      Recorded(n);
    }

    lemma NextIsKid(f: Forest, n: Id, child: XmlNode, k: nat)
      requires Valid() && Has(child) && Extends(f, model) && n in f.content && k < |KidsOf(f.kids, n)|
               && child.id == KidsOf(f.kids, n)[k]
      ensures IsKid(child.next, KidsOf(f.kids, n), k + 1)
    {
      hide Grown, Owned, Counted;
      assert Same(f, model, n);
      KidNext(model, n, k);
      Recorded(child);
    }

    lemma KidIsNotRoot(f: Forest, n: Id, k: nat)
      requires Valid() && Extends(f, model) && Sound(f) && n in f.links && k < |KidsOf(f.kids, n)|
      ensures KidsOf(f.kids, n)[k] != model.root
    {
      hide Grown, Owned, Counted, Extends;
      ChildHasParent(f, n, k);
      KnownParent(f, KidsOf(f.kids, n)[k]);
      SameRoot(f, model);
    }

    lemma Recorded(n: XmlNode)
      requires Shows() && Has(n)
      ensures n.id in model.links && n.firstChild == NodeAt(nodes, model.links[n.id].firstChild)
      ensures n.next == NodeAt(nodes, model.links[n.id].next)
    {
    }

    lemma NextIsUnused()
      requires Shows() && Sound(model)
      ensures model.next !in nodes
    {
      hide Owned, Counted, Consistent;
    }

    lemma FirstUnlinked()
      requires Valid() && unlinked != []
      ensures model.unlinked != [] && Has(unlinked[0]) && unlinked[0].id == model.unlinked[0]
              && model.unlinked[0] != model.root
    {
      hide Grown, Counted;
      MultisetSets(model.unlinked);
      assert model.unlinked[0] in model.unlinked;
    }

    lemma ListEmpty()
      requires Shows() && unlinked == []
      ensures model.unlinked == []
    {
    }

    lemma KeysAreLinks()
      requires Shows()
      ensures nodes.Keys == model.links.Keys && pools == model.pools
    {
    }

    lemma FirstChildOf(n: XmlNode)
      requires Shows() && Sound(model) && Has(n) && n.firstChild != null
      ensures n.id in model.links && Has(n.firstChild) && n.firstChild.parent == n
      ensures KidsOf(model.kids, n.id) != [] && KidsOf(model.kids, n.id)[0] == n.firstChild.id
    {
      hide Grown, Owned, Counted;
      Row(model, n.id);
      FirstKid(model, n.id);
    }

    lemma NoChildren(n: XmlNode)
      requires Shows() && Sound(model) && Has(n) && n.firstChild == null
      ensures KidsOf(model.kids, n.id) == [] && n.lastChild == null
    {
      hide Grown, Owned, Counted;
      Row(model, n.id);
    }

    lemma ContentOf(n: XmlNode)
      requires Shows() && Has(n)
      ensures n.id in model.content && n.attributes == model.content[n.id].attributes
              && n.pool == model.content[n.id].pool
      ensures n.kind == model.content[n.id].kind && n.value == model.content[n.id].value && n.document == this
    {
    }

    /** The document's objects are what the forest says, but for the attributes of this node and their number. */
    ghost predicate ShowsBut(n: XmlNode)
      reads this`nodes, this`model, this`unlinked, n`kind, n`value
      reads nodes.Values`parent, nodes.Values`prev, nodes.Values`next, nodes.Values`firstChild, nodes.Values`lastChild
      reads nodes.Values`document, Others(nodes, n.id)`kind, Others(nodes, n.id)`value, Others(nodes, n.id)`attributes
    {
      && Has(n) && Numbered(nodes) && AllLinked(nodes, model.links) && OthersHold(nodes, model.content, n.id)
      && AllIn(nodes, this) && NodeAt(nodes, model.root) == root && Lists(nodes, unlinked, model.unlinked)
      && n.id != model.root && n.id in model.content
      && var x := model.content[n.id]; n.pool == x.pool && n.kind == x.kind && n.value == x.value
    }

    lemma AttributesApart(n: XmlNode)
      requires Shows() && Sound(model) && HasNode(n)
      ensures ShowsBut(n) && n !in Others(nodes, n.id) && UniqueNames(n.attributes) && AttributePool in pools
      ensures pools == model.pools && Count(pools, AttributePool, 0, 0) == pools
      ensures n.document == this && n.id in model.content && n.attributes == model.content[n.id].attributes
    {
      hide Sound, AllLinked, AllHold, OthersHold, AllIn, Lists, Numbered, NodeAt, UniqueNames;
      ContentOf(n);
      NamesAreUnique(n);
      PoolIsKnown(AttributePool);
      OthersDiffer(nodes, model.content, n.id);
    }

    /** The forest follows the attributes that were set. */
    ghost method FollowAttributes(n: XmlNode)
      requires ShowsBut(n) && Sound(model) && UniqueNames(n.attributes) && n.id in model.content
      requires pools == Count(model.pools, AttributePool, |n.attributes| - |model.content[n.id].attributes|, 0)
      modifies this`model
      ensures Shows() && Sound(model) && model == WithAttributes(old(model), n.id, n.attributes)
    {
      hide Sound, AllLinked, AllHold, OthersHold, AllIn, Lists, Numbered, NodeAt, UniqueNames, Count, WithAttributes;
      var c := n.id;
      AllTogether(nodes, model.content, c, model.content[c].(attributes := n.attributes));
      WithAttributesSound(model, c, n.attributes);
      WithAttributesIs(model, c, n.attributes);
      model := WithAttributes(model, c, n.attributes);
    }

    /** Attribute names are unique in every node. */
    lemma NamesAreUnique(n: XmlNode)
      requires Shows() && Sound(model) && Has(n)
      ensures n.id in model.content && UniqueNames(n.attributes)
    {
      ContentOf(n);
      hide Consistent, Owned, Counted;
    }

    lemma PoolIsKnown(k: PoolKind)
      requires Shows() && Sound(model)
      ensures k in pools
    {
    }

    lemma ParentOf(n: XmlNode)
      requires Shows() && Grown(model) && Has(n)
      ensures n.id in model.links && n.id in model.content && n.pool == model.content[n.id].pool
      ensures n.parent == null <==> model.links[n.id].parent == NONE
      ensures n.parent != null ==> Has(n.parent) && model.links[n.id].parent == n.parent.id && n.parent.document == this
      ensures n.parent != null ==> n.parent in nodes.Values
    {
      KnownParent(model, n.id);
      hide Grown;
    }

    /** Valid whenever no operation is under way. */
    ghost predicate Valid()
      reads this, nodes.Values
    {
      Shows() && Sound(model) && model.detached == {}
    }

    /** The node leaves the unlinked ones, if it is there. */
    method MarkInUse(node: XmlNode)
      requires Shows() && Has(node)
      modifies this`unlinked, this`model
      ensures model == MarkedInUse(old(model), node.id)
      ensures Shows()
    {
      hide AllLinked, AllHold, AllIn, NodeAt, Lists, Numbered, SwapRemoved, IndexOf, MarkedInUse;
      MarkedIs(model, node.id);
      ghost var k := IndexOf(model.unlinked, node.id);
      FoundInList(nodes, unlinked, model.unlinked, node);
      var i := 0;
      while i < |unlinked|
        invariant i <= k && unlinked == old(unlinked) && model == old(model)
      {
        if node == unlinked[i] {
          unlinked := SwapRemoved(unlinked, i);
          break;
        }
        i := i + 1;
      }
      model := MarkedInUse(model, node.id);
    }

    // The pools' counters (MemPoolT::Alloc, Free and SetTracked)

    method PoolAlloc(pool: PoolKind)
      requires pool in pools
      modifies this`pools
      ensures pools == Count(old(pools), pool, 1, 1)
    {
      pools := pools[pool := Counters(pools[pool].currentAllocs + 1, pools[pool].untracked + 1)];
    }

    method PoolFree(pool: PoolKind)
      requires pool in pools
      modifies this`pools
      ensures pools == Count(old(pools), pool, -1, 0)
    {
      pools := pools[pool := pools[pool].(currentAllocs := pools[pool].currentAllocs - 1)];
    }

    method SetTracked(pool: PoolKind)
      requires pool in pools
      modifies this`pools
      ensures pools == Count(old(pools), pool, 0, -1)
    {
      pools := pools[pool := pools[pool].(untracked := pools[pool].untracked - 1)];
    }

    /** The detached and emptied node goes back to its pool. */
    method Free(node: XmlNode)
      requires Shows() && Sound(model) && Has(node) && node.id in model.detached && KidsOf(model.kids, node.id) == []
      modifies this`pools, this`model, this`nodes
      ensures Freed(old(model), old(nodes), node)
    {
      hide Sound, Linked, Holds, Numbered, AllLinked, AllHold, AllIn, Lists, NodeAt;
      ghost var f, c := model, node.id;
      ContentOf(node);
      PoolIsKnown(node.pool);
      NodeLeaves(this, f, c);
      PoolFree(node.pool);
      model, nodes := Forests.Freed(f, c), nodes - {c};
    }

    /** XMLDocument::DeleteNode: deletes the node, in the tree or not, and all below it. */
    method DeleteNode(node: XmlNode)
      requires Valid() && HasNode(node)
      modifies this
      modifies nodes.Values`parent, nodes.Values`prev, nodes.Values`next
      modifies nodes.Values`firstChild, nodes.Values`lastChild, nodes.Values`attributes
      ensures Lost(old(model), old(nodes), node.id)
    {
      hide Sound, AllLinked, AllHold, AllIn, Lists, Numbered, NodeAt, NodeDeleted, ChildDeleted, CanGo, Tracked, Grown,
           IsDeleted;
      ghost var f, c := model, node.id;
      SoundParts(f);
      Known(node);
      ParentOf(node);
      if node.parent != null {
        node.parent.DeleteChild(node);
        KnownParent(f, c);
        ChildIsDeleted(f, c, model);
      } else {
        Track(node);
        TrackedCanGo(f, c);
        XmlNode.DeleteNode(node);
        TrackedDeleted(f, c, model);
      }
    }

    /** The node's pool counts it as tracked. */
    method Track(node: XmlNode)
      requires Shows() && Sound(model) && Has(node)
      modifies this`pools, this`model
      ensures Shows() && model == Tracked(old(model), node.id)
    {
      hide Sound, AllLinked, AllHold, AllIn, Lists, Numbered, NodeAt;
      ContentOf(node);
      PoolIsKnown(node.pool);
      SetTracked(node.pool);
      model := Tracked(model, node.id);
    }

    /** Everything but the document itself goes back to the pools. */
    method Clear()
      requires Valid()
      modifies this
      modifies nodes.Values`parent, nodes.Values`prev, nodes.Values`next
      modifies nodes.Values`firstChild, nodes.Values`lastChild, nodes.Values`attributes
      ensures Valid() && nodes.Keys == {model.root} && unlinked == [] && Kept(old(nodes))
              && KidsOf(model.kids, model.root) == []
      ensures forall k :: k in pools && k != NoPool ==> pools[k] == Counters(0, 0)
    {
      hide Sound, AllLinked, AllHold, AllIn, Lists, Numbered, NodeAt, ChildrenDeleted, IsDeleted;
      ghost var f, nodes0 := model, nodes;
      RootIsKnown();
      root.DeleteChildren();
      ChildrenDeletedParts(f, f.root, model);
      while unlinked != []
        invariant Valid() && Kept(nodes0) && KidsOf(model.kids, model.root) == []
        decreases |model.unlinked|
      {
        ghost var m := model;
        FirstUnlinked();
        DeleteNode(unlinked[0]);
        UnlinkedDeleted(m, m.unlinked[0], model);
      }
      ListEmpty();
      NothingLeft(model);
      NothingAllocated(model);
      KeysAreLinks();
    }

    /** The clone of the next child of the document `doc` becomes the last child of this document. */
    method AppendCopy(ghost doc: XmlDocument, ghost d0: Snapshot, ghost g: Snapshot, ghost ts: seq<Tree>,
                      ghost us: seq<Tree>, ghost child: XmlNode, clone: XmlNode, ghost v: Tree)
      requires IsNext(d0, ts, us, child) && Sound(g.model) && Filled(g.model, us) && doc != this
      requires CloneDone(doc, d0, this, g, clone, ts[|us|], v)
      requires doc.Now() == d0
      modifies this`model, this`unlinked, this`pools
      modifies nodes.Values`parent, nodes.Values`prev, nodes.Values`next
      modifies nodes.Values`firstChild, nodes.Values`lastChild
      ensures Filling(doc, d0, this, ts, us + [v], child.next)
    {
      hide Sound, Spells, IsClone, IsCopy, IsNext, Filled, Filling, CloneDone, XmlDocument.Valid, XmlDocument.Shows,
           XmlDocument.AddedLast, XmlDocument.MayInsert;
      CopyCanBeAdded(doc, d0, this, g, ts, us, child, clone, v);
      ghost var h := Now();
      var r := root.InsertEndChild(clone);
      CopyAdded(doc, d0, this, g, h, ts, us, child, clone, v, r);
    }

    /** Replaces the contents of the target document by copies of the trees `ts` of this one. */
    method DeepCopy(target: XmlDocument, ghost ts: seq<Tree>) returns (ghost us: seq<Tree>)
      requires Valid() && target.Valid() && SpellsAll(0, model, KidsOf(model.kids, model.root), ts)
      modifies target
      modifies target.nodes.Values`parent, target.nodes.Values`prev, target.nodes.Values`next
      modifies target.nodes.Values`firstChild, target.nodes.Values`lastChild, target.nodes.Values`attributes
      ensures target == this ==> model == old(model) && Valid()
      ensures target != this ==>
                CopyDone(this, old(Now()), target, ts, us) && fresh(target.nodes.Values - old(target.nodes.Values))
    {
      hide Sound, AllLinked, AllHold, AllIn, Lists, Numbered, NodeAt, SetAll, IsClone, Extends, IsAddedLast, Spells,
           IsCopy, XmlDocument.Valid, Filling, CanClone, CloneDone, CopyDone, IsNext, Filled, XmlDocument.Shows,
           XmlDocument.AddedLast, XmlDocument.MayInsert, XmlDocument.Grew, XmlDocument.HasNode, Copies, Subtree,
           KeptAll;
      us := [];
      if target == this {
        return;
      }
      ghost var d0, t0 := Now(), target.Now();
      DocumentsApart(this, target);
      target.Clear();
      CopyStarts(this, target, ts);
      var child := root.firstChild;
      while child != null
        invariant Filling(this, d0, target, ts, us, child) && fresh(target.nodes.Values - t0.nodes.Values)
        decreases |ts| - |us|
      {
        ghost var g, k := target.Now(), |us|;
        NextCanBeCopied(this, d0, target, ts, us, child);
        var clone;
        ghost var v;
        clone, v := child.DeepClone(target, ts[k]);
        target.AppendCopy(this, d0, g, ts, us, child, clone, v);
        us := us + [v];
        child := child.next;
      }
      AllCopied(this, d0, target, ts, us);
    }

    /** An empty document. */
    constructor ()
      ensures Valid() && model == NewForest() && fresh(root) && nodes == map[0 := root]
    {
      hide Sound, Linked, Holds, Numbered, AllLinked, AllHold, AllIn, Lists, NodeAt, NewForest;
      root := new XmlNode(0, null, NoPool, DocumentNode, "");
      unlinked, pools := [], NO_ALLOCS;
      model := NewForest();
      new;
      root.document := this;
      nodes := map[0 := root];
      NewForestSound();
      RootAlone(this, root);
    }

    /** A new node, unlinked and untracked. */
    method CreateUnlinkedNode(pool: PoolKind, kind: NodeKind, value: string) returns (node: XmlNode)
      requires Valid()
      modifies this
      ensures fresh(node) && nodes == old(nodes)[node.id := node] && node.id == old(model).next
              && node.id !in old(nodes)
      ensures Made(old(model), Content(pool, kind, value, []))
    {
      hide Sound, Linked, Holds, Numbered, AllLinked, AllHold, AllIn, Lists, NodeAt, Created, Count, XmlDocument.Joins;
      ghost var f, x := model, Content(pool, kind, value, []);
      PoolIsKnown(pool);
      CreatedSound(f, x);
      node := new XmlNode(f.next, this, pool, kind, value);
      PoolKept(node, x);
      NodeJoins(this, f, node, x);
      Enlist(node, x);
    }

    /** The new node can be shown with the others. */
    ghost predicate Joins(n: XmlNode, x: Content)
      reads nodes.Values, n, this
    {
      var after := nodes[n.id := n];
      && n.id !in nodes && n.id == model.next && Numbered(after) && AllLinked(after, model.links[n.id := LONELY])
      && AllHold(after, model.content[n.id := x]) && AllIn(after, this) && NodeAt(after, model.root) == root
      && Lists(after, unlinked + [n], model.unlinked + [n.id]) && pools == model.pools
    }

    /** Counts the new node, and puts it into the list of the unlinked ones. */
    method Enlist(node: XmlNode, ghost x: Content)
      requires Joins(node, x) && node.pool == x.pool && x.pool in pools && Sound(Created(model, x))
               && model.detached == {}
      modifies this
      ensures nodes == old(nodes)[node.id := node] && Made(old(model), x)
    {
      hide Sound, Linked, Holds, Numbered, AllLinked, AllHold, AllIn, Lists, NodeAt, Count;
      PoolAlloc(node.pool);
      unlinked := unlinked + [node];
      model, nodes := Created(model, x), nodes[node.id := node];
    }

    /** A new node whose attributes are set in turn. */
    method CreateWithAttributes(pool: PoolKind, kind: NodeKind, value: string, attributes: seq<Attribute>)
        returns (node: XmlNode)
      requires Valid()
      modifies this
      ensures fresh(node) && nodes == old(nodes)[node.id := node]
      ensures MadeFrom(old(model), old(nodes), Content(pool, kind, value, attributes), node)
    {
      hide Sound, AllLinked, AllHold, AllIn, Lists, Numbered, NodeAt, SetAll, WithAttributes, Created;
      ghost var f, x := model, Content(pool, kind, value, attributes);
      NewContent(f, x);
      PoolIsKnown(AttributePool);
      NotRootAfter();
      node := CreateUnlinkedNode(pool, kind, value);
      ghost var g := model;
      AttributesAgain(g, node.id, [], []);
      ContentOf(node);
      SetNone([]);
      assert attributes[..0] == [];
      var i := 0;
      while i < |attributes|
        invariant i <= |attributes|
        invariant Copying(f, g, node, SetAll([], attributes[..i]))
        modifies this`model, this`pools, node`attributes
      {
        SetAllStep([], attributes, i);
        AttributesAgain(g, node.id, node.attributes, SetAttr(node.attributes, attributes[i].name, attributes[i].value));
        node.SetAttribute(attributes[i].name, attributes[i].value);
        ContentOf(node);
        i := i + 1;
      }
      assert attributes[..i] == attributes;
    }
  }
}
