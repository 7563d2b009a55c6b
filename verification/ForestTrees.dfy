/** The trees a forest spells out, and copying them (XMLNode::DeepClone). */
module ForestTrees {
  import opened Ancestry
  import opened ChildLists
  import opened NodeLinks
  import opened Dom
  import opened Forests

  datatype Tree = Tree(x: Content, children: seq<Tree>)

  /** The node and those below it, all named `lo` or later, spell out the tree. */
  ghost predicate Spells(lo: Id, f: Forest, n: Id, t: Tree)
    decreases t
  {
    && lo <= n && n in f.content && t.x == f.content[n] && |t.children| == |KidsOf(f.kids, n)|
    && forall i :: 0 <= i < |t.children| ==> Spells(lo, f, KidsOf(f.kids, n)[i], t.children[i])
  }

  /** Every node of a forest spells out a tree. */
  lemma {:induction false} SpellsSomething(f: Forest, n: Id) returns (t: Tree)
    requires Grown(f) && n in f.links
    ensures Spells(0, f, n, t)
    decreases Below<Id>(f.above, n)
  {
    hide Grown, Below;
    SameKeys(f);
    var s, children := KidsOf(f.kids, n), [];
    while |children| < |s|
      invariant |children| <= |s| && forall i :: 0 <= i < |children| ==> Spells(0, f, s[i], children[i])
      decreases |s| - |children|
    {
      KidIsBelow(f, n, |children|);
      var child := SpellsSomething(f, s[|children|]);
      children := children + [child];
    }
    t := Tree(f.content[n], children);
  }

  lemma KidIsBelow(f: Forest, n: Id, k: nat)
    requires Grown(f) && n in f.links && k < |KidsOf(f.kids, n)|
    ensures var c := KidsOf(f.kids, n)[k]; c in f.links && Below<Id>(f.above, c) < Below<Id>(f.above, n)
  {
    hide Below, Chains, Listed, Rooted;
    SameKeys(f);
    AncestorsRooted(f);
    ChildHasParent(f, n, k);
    BelowShrinks<Id>(f.above, n, KidsOf(f.kids, n)[k]);
  }

  lemma ChildHasParent(f: Forest, n: Id, k: nat)
    requires Grown(f) && n in f.links && k < |KidsOf(f.kids, n)|
    ensures var c := KidsOf(f.kids, n)[k]; c in f.links && f.links[c].parent == n
  {
    hide Parented, Listed, InRow;
    SameKeys(f);
    assert Chain(f.links, n, f.kids[n]);
  }

  /** What is spelt out depends only on the nodes from `lo` on. */
  lemma {:induction false} SpellsKept(lo: Id, f: Forest, g: Forest, n: Id, t: Tree)
    requires Spells(lo, f, n, t)
    requires forall m :: lo <= m && m in f.content ==> Same(f, g, m)
    ensures Spells(lo, g, n, t)
    decreases t
  {
    assert Same(f, g, n);
    forall i | 0 <= i < |t.children|
      ensures Spells(lo, g, KidsOf(g.kids, n)[i], t.children[i])
    {
      SpellsKept(lo, f, g, KidsOf(f.kids, n)[i], t.children[i]);
    }
  }

  lemma {:induction false} SpellsFrom(lo: Id, lower: Id, f: Forest, n: Id, t: Tree)
    requires Spells(lo, f, n, t) && lower <= lo
    ensures Spells(lower, f, n, t)
    decreases t
  {
    forall i | 0 <= i < |t.children|
      ensures Spells(lower, f, KidsOf(f.kids, n)[i], t.children[i])
    {
      SpellsFrom(lo, lower, f, KidsOf(f.kids, n)[i], t.children[i]);
    }
  }

  /** `n` has the same content and the same children in both. */
  ghost predicate Same(f: Forest, g: Forest, n: Id)
    requires n in f.content
  {
    n in g.content && g.content[n] == f.content[n] && KidsOf(g.kids, n) == KidsOf(f.kids, n)
  }

  /** `g` has all nodes of `f`, unchanged, and new ones. */
  ghost predicate Extends(f: Forest, g: Forest) {
    && g.root == f.root && f.next <= g.next
    && (forall n :: n in f.content ==> Same(f, g, n))
    && (forall n :: n in f.links && n in g.links ==> g.links[n].parent == f.links[n].parent)
    && (forall n :: n in g.content && n !in f.content ==> f.next <= n)
  }

  lemma ExtendsTwice(f: Forest, g: Forest, h: Forest)
    requires Grown(f) && Grown(g) && Extends(f, g) && Extends(g, h)
    ensures Extends(f, h)
  {
    hide Consistent;
    forall n | n in f.content
      ensures Same(f, h, n)
    {
      assert Same(f, g, n) && Same(g, h, n);
    }
  }

  // ---------------------------------------------------------------------------------------------
  // Copying attributes
  // ---------------------------------------------------------------------------------------------

  /** Setting the attributes one by one. */
  function SetAll(before: seq<Attribute>, attributes: seq<Attribute>): seq<Attribute>
    decreases |attributes|
  {
    if attributes == [] then before
    else SetAll(SetAttr(before, attributes[0].name, attributes[0].value), attributes[1..])
  }

  lemma {:induction false} SetAllAppends(before: seq<Attribute>, attributes: seq<Attribute>)
    requires UniqueNames(before + attributes)
    ensures SetAll(before, attributes) == before + attributes
    decreases |attributes|
  {
    if attributes == [] {
      assert before + attributes == before;
    } else {
      var a := attributes[0];
      assert forall i :: 0 <= i < |before| ==> (before + attributes)[i] == before[i];
      assert (before + attributes)[|before|] == a;
      SetAttrAt(before, a.name, a.value, |before|);
      assert before + [a] + attributes[1..] == before + attributes;
      SetAllAppends(before + [a], attributes[1..]);
    }
  }

  lemma {:induction false} SetAllStep(before: seq<Attribute>, attributes: seq<Attribute>, i: nat)
    requires i < |attributes|
    ensures SetAll(before, attributes[..i + 1])
            == SetAttr(SetAll(before, attributes[..i]), attributes[i].name, attributes[i].value)
    decreases i
  {
    var a, rest := attributes[0], attributes[1..];
    assert attributes[..i + 1][1..] == rest[..i];
    if i > 0 {
      assert attributes[..i][1..] == rest[..i - 1];
      SetAllStep(SetAttr(before, a.name, a.value), rest, i - 1);
    }
  }

  lemma SetNone(before: seq<Attribute>)
    ensures SetAll(before, []) == before
  {
  }

  lemma {:induction false} SetAllUnique(before: seq<Attribute>, attributes: seq<Attribute>)
    requires UniqueNames(before)
    ensures UniqueNames(SetAll(before, attributes))
    decreases |attributes|
  {
    if attributes != [] {
      SetAttrUnique(before, attributes[0].name, attributes[0].value);
      SetAllUnique(SetAttr(before, attributes[0].name, attributes[0].value), attributes[1..]);
    }
  }

  /** Copying attributes one by one gives the same list exactly when their names are unique. */
  lemma CopiedExactly(attributes: seq<Attribute>)
    ensures SetAll([], attributes) == attributes <==> UniqueNames(attributes)
  {
    SetAllUnique([], attributes);
    if UniqueNames(attributes) {
      assert [] + attributes == attributes;
      SetAllAppends([], attributes);
    }
  }

  // ---------------------------------------------------------------------------------------------
  // Copies
  // ---------------------------------------------------------------------------------------------

  ghost function CopiedContent(x: Content): Content {
    x.(attributes := SetAll([], x.attributes))
  }

  ghost predicate UniqueTree(t: Tree)
    decreases t
  {
    UniqueNames(t.x.attributes) && forall c :: c in t.children ==> UniqueTree(c)
  }

  /** `u` is the copy of `t`. */
  ghost predicate IsCopy(t: Tree, u: Tree)
    decreases t
  {
    && u.x == CopiedContent(t.x) && |u.children| == |t.children|
    && forall i :: 0 <= i < |t.children| ==> IsCopy(t.children[i], u.children[i])
  }

  /** A copy is the tree itself exactly when attribute names are unique in it. */
  lemma {:induction false} CopyIsEqual(t: Tree, u: Tree)
    requires IsCopy(t, u)
    ensures u == t <==> UniqueTree(t)
    decreases t
  {
    CopiedExactly(t.x.attributes);
    assert u.x == t.x <==> UniqueNames(t.x.attributes);
    forall i | 0 <= i < |t.children|
      ensures u.children[i] == t.children[i] <==> UniqueTree(t.children[i])
    {
      CopyIsEqual(t.children[i], u.children[i]);
    }
    if UniqueTree(t) {
      assert forall i :: 0 <= i < |t.children| ==> t.children[i] in t.children;
      assert u.children == t.children;
    }
    if u == t {
      forall c | c in t.children
        ensures UniqueTree(c)
      {
        var i :| 0 <= i < |t.children| && t.children[i] == c;
      }
    }
  }

  /** What a forest spells out has unique attribute names everywhere. */
  lemma {:induction false} SpellsUnique(lo: Id, f: Forest, n: Id, t: Tree)
    requires Named(f.content) && Spells(lo, f, n, t)
    ensures UniqueTree(t)
    decreases t
  {
    forall c | c in t.children
      ensures UniqueTree(c)
    {
      var i :| 0 <= i < |t.children| && t.children[i] == c;
      SpellsUnique(lo, f, KidsOf(f.kids, n)[i], c);
    }
  }

  /** So a copy of it is equal to it. */
  lemma CopyEquals(f: Forest, n: Id, t: Tree, u: Tree)
    requires Sound(f) && Spells(0, f, n, t) && IsCopy(t, u)
    ensures u == t
  {
    SpellsUnique(0, f, n, t);
    CopyIsEqual(t, u);
  }

  // ---------------------------------------------------------------------------------------------
  // Growing a copy
  // ---------------------------------------------------------------------------------------------

  /** `c` is new in `g`, without parent, and spells out `u` with nodes named after it. */
  ghost predicate IsClone(f: Forest, g: Forest, c: Id, u: Tree) {
    && Extends(f, g) && f.next <= c < g.next && c in g.content && c in g.links && g.links[c].parent == NONE
    && c != g.root
    && u.x == g.content[c] && SpellsAll(c + 1, g, KidsOf(g.kids, c), u.children)
  }

  /** ShallowClone. */
  ghost function ShallowCloned(f: Forest, x: Content): Forest {
    WithAttributes(Created(f, x.(attributes := [])), f.next, SetAll([], x.attributes))
  }

  lemma ShallowIsClone(f: Forest, x: Content)
    requires Grown(f)
    ensures IsClone(f, ShallowCloned(f, x), f.next, Tree(CopiedContent(x), []))
  {
    hide Consistent, SetAll, Count;
    SameKeys(f);
    assert f.next !in f.links;
  }

  lemma CloneMayMove(f: Forest, g: Forest, c: Id, u: Tree, h: Forest, d: Id, v: Tree)
    requires Grown(g) && Grown(h) && IsClone(f, g, c, u) && IsClone(g, h, d, v)
    ensures MayMove(h, c, d)
  {
    assert Same(g, h, c);
    assert c in h.links && h.links[c].parent == NONE by {
      SameKeys(h);
    }
    NothingAbove(h, c);
    hide Grown, Spells;
  }

  lemma NothingAbove(f: Forest, c: Id)
    requires Grown(f) && c in f.links && f.links[c].parent == NONE
    ensures AboveOf(f.above, c) == []
  {
    hide Chains, Listed, Rooted;
    SameKeys(f);
  }

  /** The clone with one more child. */
  lemma ChildCloned(f: Forest, g: Forest, c: Id, u: Tree, h: Forest, d: Id, v: Tree, r: Forest)
    requires Grown(f) && Sound(g) && Sound(h) && h.detached == {} && IsClone(f, g, c, u) && IsClone(g, h, d, v)
             && IsAddedLast(h, c, d, r)
    ensures IsClone(f, r, c, Tree(u.x, u.children + [v]))
  {
    hide Grown, Owned, Counted, Spells;
    SoundParts(g);
    SoundParts(h);
    ExtendsTwice(f, g, h);
    CloneMayMove(f, g, c, u, h, d, v);
    LastAdded(h, c, d, r);
    AddedExtends(f, h, c, d, r);
    AddedSpells(g, c, u, h, d, v, r);
  }

  /** What InsertEndChild does with a parentless node: it is appended, and nothing else changes. */
  lemma LastAdded(h: Forest, c: Id, d: Id, r: Forest)
    requires Sound(h) && h.detached == {} && MayMove(h, c, d) && h.links[d].parent == NONE && IsAddedLast(h, c, d, r)
    ensures r.content == h.content && r.root == h.root && r.next == h.next && r.links.Keys == h.links.Keys
    ensures KidsOf(r.kids, c) == KidsOf(h.kids, c) + [d]
    ensures forall m :: m in h.content && m != c ==> Same(h, r, m)
    ensures forall m :: m in h.links && m != d ==> r.links[m].parent == h.links[m].parent
  {
    hide Grown, Owned, Counted, Without, MovedTo, MayMove;
    SoundParts(h);
    SameKeys(h);
    InsertionMoves(h, c, |Without(KidsOf(h.kids, c), d)|, d);
    forall m | m in h.links
      ensures Without(KidsOf(h.kids, m), d) == KidsOf(h.kids, m)
    {
      AbsentElsewhere(h, m, d);
      WithoutAbsent(KidsOf(h.kids, m), d);
    }
    ParentsKept(h, c, d, r);
  }

  lemma ParentsKept(h: Forest, c: Id, d: Id, r: Forest)
    requires Sound(h) && h.detached == {} && MayMove(h, c, d) && h.links[d].parent == NONE && IsAddedLast(h, c, d, r)
    ensures forall m :: m in h.links && m != d ==> r.links[m].parent == h.links[m].parent
  {
    hide Grown, Owned, Counted, Without, MarkedInUse, Put, Moved;
  }

  lemma AddedExtends(f: Forest, h: Forest, c: Id, d: Id, r: Forest)
    requires Grown(f) && Extends(f, h) && f.next <= c && f.next <= d
    requires r.content == h.content && r.root == h.root && r.next == h.next && r.links.Keys == h.links.Keys
    requires forall m :: m in h.content && m != c ==> Same(h, r, m)
    requires forall m :: m in h.links && m != d ==> r.links[m].parent == h.links[m].parent
    ensures Extends(f, r)
  {
    hide Consistent;
    forall n | n in f.content
      ensures Same(f, r, n)
    {
      assert Same(f, h, n) && Same(h, r, n);
    }
  }

  lemma AddedSpells(g: Forest, c: Id, u: Tree, h: Forest, d: Id, v: Tree, r: Forest)
    requires c in g.content && Extends(g, h) && c < g.next <= d && r.content == h.content
    requires SpellsAll(c + 1, g, KidsOf(g.kids, c), u.children)
    requires d in h.content && v.x == h.content[d] && SpellsAll(d + 1, h, KidsOf(h.kids, d), v.children)
    requires KidsOf(r.kids, c) == KidsOf(h.kids, c) + [d]
    requires forall m :: m in h.content && m != c ==> Same(h, r, m)
    ensures SpellsAll(c + 1, r, KidsOf(r.kids, c), u.children + [v])
  {
    hide Spells;
    CloneSpells(c + 1, h, d, v);
    SpellsKept(c + 1, h, r, d, v);
    assert Same(g, h, c);
    var s := KidsOf(g.kids, c);
    assert SpellsAll(c + 1, r, s, u.children) by {
      forall i | 0 <= i < |s|
        ensures Spells(c + 1, r, s[i], u.children[i])
      {
        KeptTwice(c + 1, g, h, r, s[i], u.children[i]);
      }
    }
    hide Extends, Same;
    SpellsOneMore(c + 1, r, s, u.children, d, v);
  }

  ghost predicate SpellsAll(lo: Id, f: Forest, s: seq<Id>, ts: seq<Tree>) {
    |s| == |ts| && forall i :: 0 <= i < |ts| ==> Spells(lo, f, s[i], ts[i])
  }

  lemma SpellsOneMore(lo: Id, f: Forest, s: seq<Id>, ts: seq<Tree>, n: Id, t: Tree)
    requires SpellsAll(lo, f, s, ts) && Spells(lo, f, n, t)
    ensures SpellsAll(lo, f, s + [n], ts + [t])
  {
    hide Spells;
  }

  lemma KeptTwice(lo: Id, g: Forest, h: Forest, r: Forest, n: Id, t: Tree)
    requires Spells(lo, g, n, t)
    requires forall m :: m in g.content ==> Same(g, h, m)
    requires forall m :: lo <= m && m in h.content ==> Same(h, r, m)
    ensures Spells(lo, r, n, t)
  {
    hide Spells;
    SpellsKept(lo, g, h, n, t);
    SpellsKept(lo, h, r, n, t);
  }

  lemma CloneSpells(lo: Id, h: Forest, d: Id, v: Tree)
    requires lo <= d && d in h.content && v.x == h.content[d] && SpellsAll(d + 1, h, KidsOf(h.kids, d), v.children)
    ensures Spells(lo, h, d, v)
  {
    forall i | 0 <= i < |v.children|
      ensures Spells(lo, h, KidsOf(h.kids, d)[i], v.children[i])
    {
      SpellsFrom(d + 1, lo, h, KidsOf(h.kids, d)[i], v.children[i]);
    }
  }

  lemma AttributesAgain(f: Forest, c: Id, a: seq<Attribute>, b: seq<Attribute>)
    requires c in f.content
    ensures WithAttributes(WithAttributes(f, c, a), c, b) == WithAttributes(f, c, b)
    ensures a == f.content[c].attributes && AttributePool in f.pools ==> WithAttributes(f, c, a) == f
  {
    var x := f.content[c];
    assert f.content[c := x.(attributes := a)][c := x.(attributes := b)] == f.content[c := x.(attributes := b)];
    if AttributePool in f.pools {
      var p := f.pools;
      assert Count(Count(p, AttributePool, |a| - |x.attributes|, 0), AttributePool, |b| - |a|, 0)
             == Count(p, AttributePool, |b| - |x.attributes|, 0);
      if a == x.attributes {
        assert f.content[c := x.(attributes := a)] == f.content;
        assert Count(p, AttributePool, 0, 0) == p;
      }
    }
  }

  lemma NewContent(f: Forest, x: Content)
    ensures var g := Created(f, x.(attributes := []));
            && f.next in g.content && g.content[f.next] == x.(attributes := [])
            && g.root == f.root && (AttributePool in f.pools ==> AttributePool in g.pools)
  {
  }

  lemma ExtendsItself(f: Forest)
    ensures Extends(f, f)
  {
  }

  lemma CloneExtends(f: Forest, g: Forest, c: Id, u: Tree)
    ensures IsClone(f, g, c, u) ==> Extends(f, g) && c in g.links && c != g.root && c in g.content
  {
  }

  lemma SameRoot(f: Forest, g: Forest)
    ensures Extends(f, g) ==> g.root == f.root
  {
  }

  /** The `k`-th child still spells out its tree. */
  lemma KidSpells(f: Forest, g: Forest, n: Id, t: Tree, k: nat)
    requires Spells(0, f, n, t) && Extends(f, g) && k < |t.children|
    ensures |t.children| == |KidsOf(f.kids, n)| && Spells(0, g, KidsOf(f.kids, n)[k], t.children[k])
  {
    SpellsKept(0, f, g, KidsOf(f.kids, n)[k], t.children[k]);
  }

  lemma CloneIsNotRoot(f: Forest, g: Forest, c: Id, u: Tree, h: Forest, d: Id, v: Tree)
    requires IsClone(f, g, c, u) && IsClone(g, h, d, v)
    ensures c != h.root && d != h.root && c != d
  {
  }

  /** The children of the document itself spell out `us`. */
  ghost predicate Filled(g: Forest, us: seq<Tree>) {
    SpellsAll(g.root + 1, g, KidsOf(g.kids, g.root), us)
  }

  /** The document with one more tree at its end. */
  lemma RootGrows(g: Forest, us: seq<Tree>, h: Forest, d: Id, v: Tree, r: Forest)
    requires Sound(g) && Sound(h) && h.detached == {} && Filled(g, us) && IsClone(g, h, d, v)
             && IsAddedLast(h, h.root, d, r)
    ensures Filled(r, us + [v])
  {
    hide Grown, Owned, Counted, SpellsAll, IsAddedLast, Extends, MayMove;
    SoundParts(g);
    SoundParts(h);
    RootMayGet(g, h, d, v);
    LastAdded(h, h.root, d, r);
    AddedSpells(g, g.root, Tree(g.content[g.root], us), h, d, v, r);
  }

  lemma RootMayGet(g: Forest, h: Forest, d: Id, v: Tree)
    requires Grown(g) && Grown(h) && IsClone(g, h, d, v)
    ensures MayMove(h, h.root, d) && g.root in g.content && g.root < g.next && h.links[d].parent == NONE
            && h.root == g.root
  {
    hide Consistent, Spells;
    NothingAbove(h, h.root);
  }
}
