/** What reading nodes does to a forest: new nodes appear at the end of one node's list and spell out what was read. */
module ParsedForests {
  import opened Ancestry
  import opened ChildLists
  import opened NodeLinks
  import opened Dom
  import opened Forests
  import opened ForestTrees

  /** Text and sections come from the text pool; comments, declarations and unknowns share the comment pool. */
  function PoolOf(kind: LeafKind): (r: PoolKind)
    ensures r == match kind
                 case Text => TextPool
                 case CData => TextPool
                 case Comment => CommentPool
                 case Declaration => CommentPool
                 case Unknown => CommentPool
  {
    if kind.Text? || kind.CData? then TextPool else CommentPool
  }

  /** The tree a node is kept as. */
  ghost function TreeOf(n: Node): Tree
    decreases n
  {
    match n
    case Leaf(kind, value) => Tree(Content(PoolOf(kind), LeafNode(kind), value, []), [])
    case Element(name, attributes, children) => Tree(Content(ElementPool, ElementNode, name, attributes),
                                                     TreesOf(children))
  }

  ghost function TreesOf(ns: seq<Node>): (ts: seq<Tree>)
    ensures |ts| == |ns| && forall i :: 0 <= i < |ns| ==> ts[i] == TreeOf(ns[i])
    decreases ns
  {
    if ns == [] then [] else [TreeOf(ns[0])] + TreesOf(ns[1..])
  }

  /** In `g` the node `p` of `f` has more children, new nodes that spell out `ts`; all other nodes of `f` are as
      they were. */
  ghost predicate Appended(f: Forest, g: Forest, p: Id, ts: seq<Tree>) {
    && p in f.content && p in g.content && g.content[p] == f.content[p] && g.root == f.root && f.next <= g.next
    && (forall n :: n in f.content && n != p ==> Same(f, g, n))
    && (forall n :: n in f.links && n in g.links ==> g.links[n].parent == f.links[n].parent)
    && (forall n :: n in g.content && n !in f.content ==> f.next <= n)
    && KidsOf(f.kids, p) <= KidsOf(g.kids, p)
    && SpellsAll(f.next, g, KidsOf(g.kids, p)[|KidsOf(f.kids, p)|..], ts)
  }

  lemma NothingAppended(f: Forest, p: Id)
    requires p in f.content
    ensures Appended(f, f, p, [])
  {
  }

  /** Nothing but unused names separates the two. */
  ghost predicate Untouched(g: Forest, r: Forest) {
    && r.root == g.root && g.next <= r.next && r.content == g.content && r.kids == g.kids
    && r.links.Keys == g.links.Keys
    && forall n :: n in g.links ==> r.links[n].parent == g.links[n].parent
  }

  lemma UntouchedAppended(f: Forest, g: Forest, p: Id, ts: seq<Tree>, r: Forest)
    requires Appended(f, g, p, ts) && Untouched(g, r)
    ensures Appended(f, r, p, ts)
  {
    hide Spells;
    var s := KidsOf(g.kids, p)[|KidsOf(f.kids, p)|..];
    forall n | n in f.content && n != p
      ensures Same(f, r, n)
    {
      assert Same(f, g, n);
    }
    forall i | 0 <= i < |ts|
      ensures Spells(f.next, r, s[i], ts[i])
    {
      SpellsKept(f.next, g, r, s[i], ts[i]);
    }
  }

  /** One more node is read and inserted. */
  lemma OneAppended(f: Forest, g: Forest, p: Id, ts: seq<Tree>, h: Forest, d: Id, v: Tree, r: Forest)
    requires Grown(f) && Sound(g) && Sound(h) && h.detached == {} && Appended(f, g, p, ts)
    requires p in f.links && f.links[p].parent == NONE && IsClone(g, h, d, v) && IsAddedLast(h, p, d, r)
    ensures Appended(f, r, p, ts + [v])
  {
    hide Grown, Owned, Counted, Spells, MayMove, IsAddedLast, IsClone;
    SoundParts(g);
    SoundParts(h);
    NodeMayGet(f, g, p, ts, h, d, v);
    LastAdded(h, p, d, r);
    OthersStay(f, g, p, ts, h, d, v, r);
    MoreSpelt(f, g, p, ts, h, d, v, r);
  }

  lemma NodeMayGet(f: Forest, g: Forest, p: Id, ts: seq<Tree>, h: Forest, d: Id, v: Tree)
    requires Grown(f) && Grown(g) && Grown(h) && Appended(f, g, p, ts) && p in f.links && f.links[p].parent == NONE
    requires IsClone(g, h, d, v)
    ensures MayMove(h, p, d) && p in h.links && h.links[d].parent == NONE && p < f.next <= g.next <= d
  {
    SameKeys(f);
    SameKeys(g);
    SameKeys(h);
    hide Consistent, Spells, Named;
    assert Same(g, h, p);
    NothingAbove(h, p);
  }

  lemma OthersStay(f: Forest, g: Forest, p: Id, ts: seq<Tree>, h: Forest, d: Id, v: Tree, r: Forest)
    requires Appended(f, g, p, ts) && IsClone(g, h, d, v) && Grown(f) && Grown(g) && Grown(h) && g.next <= d
    requires r.content == h.content && r.root == h.root && r.next == h.next && r.links.Keys == h.links.Keys
    requires KidsOf(r.kids, p) == KidsOf(h.kids, p) + [d]
    requires forall m :: m in h.content && m != p ==> Same(h, r, m)
    requires forall m :: m in h.links && m != d ==> r.links[m].parent == h.links[m].parent
    ensures p in r.content && r.content[p] == f.content[p] && r.root == f.root && f.next <= r.next
    ensures forall n :: n in f.content && n != p ==> Same(f, r, n)
    ensures forall n :: n in f.links && n in r.links ==> r.links[n].parent == f.links[n].parent
    ensures forall n :: n in r.content && n !in f.content ==> f.next <= n
    ensures KidsOf(r.kids, p) == KidsOf(g.kids, p) + [d]
  {
    hide Grown, Spells, SpellsAll;
    ParentsStay(f, g, p, ts, h, d, v, r);
    assert Same(g, h, p);
    forall n | n in f.content && n != p
      ensures Same(f, r, n)
    {
      assert Same(f, g, n) && Same(g, h, n) && Same(h, r, n);
    }
    hide Same;
  }

  lemma ParentsStay(f: Forest, g: Forest, p: Id, ts: seq<Tree>, h: Forest, d: Id, v: Tree, r: Forest)
    requires Appended(f, g, p, ts) && IsClone(g, h, d, v) && Grown(f) && Grown(g) && Grown(h) && g.next <= d
    requires r.links.Keys == h.links.Keys
    requires forall m :: m in h.links && m != d ==> r.links[m].parent == h.links[m].parent
    ensures forall n :: n in f.links && n in r.links ==> r.links[n].parent == f.links[n].parent
  {
    SameKeys(f);
    SameKeys(g);
    SameKeys(h);
    hide Consistent, Spells, Named, SpellsAll;
    forall n | n in f.links && n in r.links
      ensures r.links[n].parent == f.links[n].parent
    {
      assert n != p ==> Same(f, g, n);
      assert n in g.links && n != d;
    }
    hide Same;
  }

  lemma MoreSpelt(f: Forest, g: Forest, p: Id, ts: seq<Tree>, h: Forest, d: Id, v: Tree, r: Forest)
    requires Appended(f, g, p, ts) && IsClone(g, h, d, v) && p < f.next && f.next <= g.next <= d
             && r.content == h.content
    requires KidsOf(r.kids, p) == KidsOf(g.kids, p) + [d]
    requires forall m :: m in h.content && m != p ==> Same(h, r, m)
    ensures KidsOf(f.kids, p) <= KidsOf(r.kids, p)
    ensures SpellsAll(f.next, r, KidsOf(r.kids, p)[|KidsOf(f.kids, p)|..], ts + [v])
  {
    hide Spells;
    CloneSpells(f.next, h, d, v);
    SpellsKept(f.next, h, r, d, v);
    var s := KidsOf(g.kids, p)[|KidsOf(f.kids, p)|..];
    forall i | 0 <= i < |s|
      ensures Spells(f.next, r, s[i], ts[i])
    {
      KeptTwice(f.next, g, h, r, s[i], ts[i]);
    }
    SpellsOneMore(f.next, r, s, ts, d, v);
    assert KidsOf(r.kids, p)[|KidsOf(f.kids, p)|..] == s + [d];
  }

  /** An element that was created and then got its children. */
  lemma ElementFilled(f: Forest, g: Forest, c: Id, x: Content, h: Forest, ts: seq<Tree>)
    requires Grown(f) && Grown(g) && IsClone(f, g, c, Tree(x, [])) && Appended(g, h, c, ts) && c in h.links
    ensures IsClone(f, h, c, Tree(x, ts))
  {
    hide Grown, Spells, Extends;
    FilledExtends(f, g, c, x, h, ts);
    NewName(g, c);
    var s := KidsOf(h.kids, c);
    assert KidsOf(g.kids, c) == [] && s[0..] == s;
    forall i | 0 <= i < |s|
      ensures Spells(c + 1, h, s[i], ts[i])
    {
      SpellsFrom(g.next, c + 1, h, s[i], ts[i]);
    }
  }

  lemma NewName(g: Forest, c: Id)
    requires Grown(g) && c in g.links
    ensures c < g.next
  {
    hide Consistent, Named;
  }

  lemma FilledExtends(f: Forest, g: Forest, c: Id, x: Content, h: Forest, ts: seq<Tree>)
    requires Grown(f) && Grown(g) && IsClone(f, g, c, Tree(x, [])) && Appended(g, h, c, ts) && c in h.links
    ensures Extends(f, h) && h.links[c].parent == NONE
  {
    hide Grown, Spells, SpellsAll;
    FilledParents(f, g, c, x, h, ts);
    SameKeys(f);
    NewNames(f);
    forall n | n in f.content
      ensures Same(f, h, n)
    {
      assert Same(f, g, n) && n != c && Same(g, h, n);
    }
    hide Same;
  }

  lemma NewNames(f: Forest)
    requires Grown(f)
    ensures forall n :: n in f.content ==> n < f.next
  {
    hide Consistent, Named;
  }

  lemma FilledParents(f: Forest, g: Forest, c: Id, x: Content, h: Forest, ts: seq<Tree>)
    requires Grown(f) && Grown(g) && IsClone(f, g, c, Tree(x, [])) && Appended(g, h, c, ts) && c in h.links
    ensures h.links[c].parent == NONE
    ensures forall n :: n in f.links && n in h.links ==> h.links[n].parent == f.links[n].parent
  {
    SameKeys(f);
    SameKeys(g);
    hide Consistent, Spells, SpellsAll, Named;
    forall n | n in f.links && n in h.links
      ensures h.links[n].parent == f.links[n].parent
    {
      assert Same(f, g, n);
    }
    hide Same;
  }

  /** A document without children that got some. */
  lemma DocumentFilled(f: Forest, g: Forest, ts: seq<Tree>)
    requires Grown(f) && Appended(f, g, f.root, ts) && KidsOf(f.kids, f.root) == []
    ensures Filled(g, ts)
  {
    hide Consistent, Spells, Named;
    var s := KidsOf(g.kids, g.root);
    assert s[0..] == s;
    forall i | 0 <= i < |s|
      ensures Spells(g.root + 1, g, s[i], ts[i])
    {
      SpellsFrom(f.next, g.root + 1, g, s[i], ts[i]);
    }
  }

  /** An end tag is a node for a moment only. */
  lemma TagVanishes(f: Forest, x: Content, r: Forest)
    requires Sound(f) && f.detached == {} && Sound(r) && IsDeleted(ShallowCloned(f, x), f.next, r)
    ensures Untouched(f, r)
  {
    hide Grown, Owned, Counted, SetAll, ShallowCloned;
    TagIsAlone(f, x);
    TagGoes(f, ShallowCloned(f, x), r);
    SoundParts(f);
    SoundParts(r);
    SameParents(f, r);
  }

  /** What an otherwise unchanged forest is when its last node has gone. */
  lemma TagGoes(f: Forest, g: Forest, r: Forest)
    requires f.next !in f.links && f.next !in f.content && f.next !in f.kids && f.next !in f.above
    requires g.links.Keys == f.links.Keys + {f.next} && g.content.Keys == f.content.Keys + {f.next}
    requires (g.content - {f.next}) == f.content && (g.kids - {f.next}) == f.kids && (g.above - {f.next}) == f.above
    requires g.root == f.root && f.next <= g.next && Below<Id>(g.above, f.next) == {} && g.links[f.next].parent == NONE
    requires IsDeleted(g, f.next, r)
    ensures r.root == f.root && f.next <= r.next && r.content == f.content && r.kids == f.kids && r.above == f.above
    ensures r.links.Keys == f.links.Keys
  {
    hide Below;
    assert Subtree(g, f.next) == {f.next};
    assert NodeDeleted(g, f.next, r);
    assert g.links.Keys - {f.next} == f.links.Keys;
  }

  lemma TagIsAlone(f: Forest, x: Content)
    requires Sound(f)
    ensures var g := ShallowCloned(f, x);
            && f.next !in f.links && f.next !in f.content && f.next !in f.kids && f.next !in f.above
            && g.links.Keys == f.links.Keys + {f.next} && g.content.Keys == f.content.Keys + {f.next}
            && (g.content - {f.next}) == f.content && (g.kids - {f.next}) == f.kids && (g.above - {f.next}) == f.above
            && g.root == f.root && f.next <= g.next && Below<Id>(g.above, f.next) == {}
            && g.links[f.next].parent == NONE
  {
    hide Owned, Counted, SetAll, Count, Consistent, Below, Named;
    SameKeys(f);
    TagHasNothingBelow(f, x);
  }

  lemma TagHasNothingBelow(f: Forest, x: Content)
    requires Grown(f)
    ensures Below<Id>(ShallowCloned(f, x).above, f.next) == {}
  {
    hide SetAll, Chains, Parented, Listed, Below, Rooted, Named;
    var g := Created(f, x.(attributes := []));
    CreatedGrown(f, x.(attributes := []));
    NothingBelow(g.links, g.kids, g.above, f.next);
  }

  lemma SameParents(f: Forest, r: Forest)
    requires Grown(f) && Grown(r) && r.above == f.above
    ensures forall n :: n in f.links && n in r.links ==> r.links[n].parent == f.links[n].parent
  {
    hide Chains, Listed, Rooted, Named;
    SameKeys(f);
    SameKeys(r);
  }
}
