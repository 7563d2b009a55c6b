/** Everything a document owns, as a value: its nodes with their links, the list of unlinked nodes and the pool
    counters (XMLDocument); what each operation does to it and why the bookkeeping stays right. */
module Forests {
  import opened Ancestry
  import opened ChildLists
  import opened NodeLinks
  import opened DynArrays
  import opened Dom

  /** Which pool a node's memory comes from; a document is in none. Comments, declarations and unknowns share
      one pool. */
  datatype PoolKind = NoPool | ElementPool | AttributePool | TextPool | CommentPool

  datatype NodeKind = DocumentNode | ElementNode | LeafNode(kind: LeafKind)

  /** A pool's CurrentAllocs and Untracked. */
  datatype Counters = Counters(currentAllocs: int, untracked: int)

  type Pools = map<PoolKind, Counters>

  datatype Content = Content(pool: PoolKind, kind: NodeKind, value: string, attributes: seq<Attribute>)

  type Contents = map<Id, Content>

  /** `next` is the first unused name; `detached` are the nodes just taken off that are not in the list of
      unlinked nodes either. */
  datatype Forest = Forest(root: Id, next: Id, links: Links, kids: Kids, above: Ancestors, content: Contents,
                           unlinked: seq<Id>, pools: Pools, detached: set<Id>)

  // ---------------------------------------------------------------------------------------------
  // Invariants
  // ---------------------------------------------------------------------------------------------

  ghost predicate Grown(f: Forest) {
    && Consistent(f.links, f.kids, f.above) && f.content.Keys == f.links.Keys
    && f.root in f.links && f.links[f.root].parent == NONE
    && f.content[f.root].pool == NoPool && f.content[f.root].attributes == []
    && (forall n :: n in f.links ==> n < f.next)
    && Named(f.content)
  }

  /** Attribute names are unique in every node. */
  ghost predicate Named(content: Contents) {
    forall n :: n in content ==> UniqueNames(content[n].attributes)
  }

  /** `unlinked` holds live nodes, each parentless one once and the others never; only the document itself and
      the nodes just taken off are parentless and not in it. */
  ghost predicate Owned(f: Forest) {
    && (forall n :: n in f.links ==>
          multiset(f.unlinked)[n] == if f.links[n].parent == NONE && n != f.root && n !in f.detached then 1 else 0)
    && (forall n :: n in f.unlinked ==> n in f.links)
    && (forall n :: n in f.detached ==> n in f.links && f.links[n].parent == NONE && n != f.root)
  }

  ghost function SetOf(s: seq<Id>): set<Id> {
    set n | n in s
  }

  ghost function OfPool(content: Contents, s: set<Id>, k: PoolKind): set<Id> {
    set n | n in s && n in content && content[n].pool == k
  }

  /** One slot for every attribute of every live node. */
  ghost function Slots(content: Contents): set<(Id, int)> {
    set n, i | n in content && 0 <= i < |content[n].attributes| :: (n, i)
  }

  ghost function Tally(content: Contents, unlinked: set<Id>, k: PoolKind): Counters {
    Counters(|OfPool(content, content.Keys, k)| + (if k == AttributePool then |Slots(content)| else 0),
             |OfPool(content, unlinked, k)|)
  }

  /** CurrentAllocs counts the live objects of the pool, Untracked the unlinked nodes among them. */
  ghost predicate Counted(f: Forest) {
    forall k :: k in f.pools && (k != NoPool ==> f.pools[k] == Tally(f.content, SetOf(f.unlinked), k))
  }

  ghost predicate Sound(f: Forest) {
    Grown(f) && Owned(f) && Counted(f)
  }

  // ---------------------------------------------------------------------------------------------
  // Relinking
  // ---------------------------------------------------------------------------------------------

  ghost function KidsOf(kids: Kids, p: Id): seq<Id> {
    if p in kids then kids[p] else []
  }

  ghost function AboveOf(above: Ancestors, p: Id): seq<Id> {
    if p in above then above[p] else []
  }

  /** `c` becomes the root of its own tree. */
  ghost function TakenOff(f: Forest, c: Id): (r: Forest)
    requires c in f.links && f.links[c].parent in f.links
    ensures r.links == Unlinked(f.links, c) && r.content == f.content && r.unlinked == f.unlinked && r.pools == f.pools
    ensures r.kids == f.kids[f.links[c].parent := Without(KidsOf(f.kids, f.links[c].parent), c)]
    ensures r.root == f.root && r.next == f.next && r.detached == f.detached + {c}
  {
    var p := f.links[c].parent;
    f.(links := Unlinked(f.links, c), kids := f.kids[p := Without(KidsOf(f.kids, p), c)],
       above := Moved(f.above, c, []),
       detached := f.detached + {c})
  }

  ghost predicate IsTakenOff(f: Forest, p: Id, c: Id, r: Forest) {
    c in f.links && f.links[c].parent == p && p in f.links && r == TakenOff(f, c)
  }

  /** The node leaves the unlinked ones, the last of which takes its place. */
  ghost function MarkedInUse(f: Forest, c: Id): (r: Forest)
    ensures r.links == f.links && r.kids == f.kids && r.above == f.above && r.content == f.content && r.pools == f.pools
    ensures r.root == f.root && r.detached == f.detached + {c}
  {
    var i := IndexOf(f.unlinked, c);
    f.(unlinked := if i < |f.unlinked| then SwapRemoved(f.unlinked, i) else f.unlinked, detached := f.detached + {c})
  }

  ghost function Count(pools: Pools, k: PoolKind, allocs: int, untracked: int): Pools {
    if k in pools then pools[k := Counters(pools[k].currentAllocs + allocs, pools[k].untracked + untracked)] else pools
  }

  /** The parentless node is in use: no longer in the list, and tracked. */
  ghost function Claimed(f: Forest, c: Id): Forest
    requires c in f.content
  {
    var g := MarkedInUse(f, c);
    g.(pools := Count(g.pools, f.content[c].pool, 0, -1))
  }

  /** The node taken from wherever it is: off its parent, or out of the list. */
  ghost function Taken(f: Forest, c: Id): Forest
    requires c in f.links && c in f.content && (f.links[c].parent != NONE ==> f.links[c].parent in f.links)
  {
    if f.links[c].parent == NONE then Claimed(f, c) else TakenOff(f, c)
  }

  ghost predicate IsTaken(f: Forest, c: Id, r: Forest) {
    && c in f.links && c in f.content && (f.links[c].parent != NONE ==> f.links[c].parent in f.links)
    && r == Taken(f, c)
  }

  /** The parentless `c` becomes the child of `p` at index `k`. */
  ghost function PutIn(f: Forest, p: Id, k: nat, c: Id): (r: Forest)
    requires p in f.links && c in f.links && k <= |KidsOf(f.kids, p)|
    ensures r.links == Inserted(f.links, p, Before(KidsOf(f.kids, p), k), c) && r.content == f.content
            && r.root == f.root
    ensures r.unlinked == f.unlinked && r.pools == f.pools
  {
    f.(links := Inserted(f.links, p, Before(KidsOf(f.kids, p), k), c),
       kids := f.kids[p := Put(KidsOf(f.kids, p), k, c)],
       above := Moved(f.above, c, [p] + AboveOf(f.above, p)), detached := f.detached - {c})
  }

  ghost predicate IsPutIn(f: Forest, p: Id, k: nat, c: Id, r: Forest) {
    p in f.links && c in f.links && k <= |KidsOf(f.kids, p)| && r == PutIn(f, p, k, c)
  }

  lemma SameKeys(f: Forest)
    requires Grown(f)
    ensures f.links.Keys == f.kids.Keys == f.above.Keys == f.content.Keys
  {
  }

  lemma TakenOffGrown(f: Forest, c: Id)
    requires Grown(f) && c in f.links && f.links[c].parent != NONE
    ensures f.links[c].parent in f.links && c != f.root
    ensures Grown(TakenOff(f, c)) && TakenOff(f, c).links[c].parent == NONE
  {
    hide Chains, Parented, Listed, Moved, Without;
    SameKeys(f);
    ParentIsOther(f.links, f.kids, f.above, c);
    UnlinkedConsistent(f.links, f.kids, f.above, c);
  }

  lemma UnlinkTouches(f: Forest, c: Id)
    requires Grown(f) && c in f.links && f.links[c].parent != NONE
    ensures UnlinkIsSafe(f.links, c)
  {
    hide Chains, Parented, Listed;
    UnlinkIsAllowed(f.links, f.kids, f.above, c);
  }

  lemma TakenOffOwned(f: Forest, c: Id)
    requires Owned(f) && c in f.links && f.links[c].parent in f.links && c != f.root
    ensures Owned(TakenOff(f, c))
  {
    hide Moved;
  }

  lemma MarkedInUseOwned(f: Forest, c: Id)
    requires Owned(f) && c in f.links && f.links[c].parent == NONE && c != f.root
    ensures var r := MarkedInUse(f, c); Owned(r) && SetOf(r.unlinked) == SetOf(f.unlinked) - {c}
  {
    hide SwapRemoved, Owned;
    var i := IndexOf(f.unlinked, c);
    if i < |f.unlinked| {
      SwapRemovedIsRemoval(f.unlinked, i);
    } else {
      MultisetSets(f.unlinked);
    }
    LeftOwned(f, MarkedInUse(f, c).unlinked, c);
  }

  lemma LeftOwned(f: Forest, after: seq<Id>, c: Id)
    requires Owned(f) && c in f.links && f.links[c].parent == NONE && c != f.root
    requires multiset(after) == multiset(f.unlinked) - multiset{c}
    ensures Owned(f.(unlinked := after, detached := f.detached + {c})) && SetOf(after) == SetOf(f.unlinked) - {c}
  {
    MultisetSets(f.unlinked);
    MultisetSets(after);
    assert multiset(f.unlinked)[c] <= 1;
  }

  lemma MultisetSets(s: seq<Id>)
    ensures forall n :: n in SetOf(s) <==> multiset(s)[n] > 0
    ensures forall n :: n in s <==> multiset(s)[n] > 0
  {
    assert forall n :: n in s <==> n in multiset(s);
  }

  // ---------------------------------------------------------------------------------------------
  // Counting
  // ---------------------------------------------------------------------------------------------

  lemma PoolPlus(content: Contents, s: set<Id>, n: Id, k: PoolKind)
    requires n !in s && n in content
    ensures |OfPool(content, s + {n}, k)| == |OfPool(content, s, k)| + if content[n].pool == k then 1 else 0
  {
    var a, b := OfPool(content, s, k), OfPool(content, s + {n}, k);
    if content[n].pool == k {
      assert b == a + {n};
    } else {
      assert b == a;
    }
  }

  lemma PoolMinus(content: Contents, s: set<Id>, n: Id, k: PoolKind)
    requires n in s && n in content
    ensures |OfPool(content, s - {n}, k)| == |OfPool(content, s, k)| - if content[n].pool == k then 1 else 0
  {
    PoolPlus(content, s - {n}, n, k);
    assert s - {n} + {n} == s;
  }

  lemma ClaimedCounted(f: Forest, c: Id)
    requires Counted(f) && c in f.content && c in f.unlinked
    requires SetOf(MarkedInUse(f, c).unlinked) == SetOf(f.unlinked) - {c}
    ensures Counted(Claimed(f, c))
  {
    var r := Claimed(f, c);
    hide MarkedInUse, Slots;
    forall k: PoolKind
      ensures k in r.pools && (k != NoPool ==> r.pools[k] == Tally(r.content, SetOf(r.unlinked), k))
    {
      PoolMinus(f.content, SetOf(f.unlinked), c, k);
      assert c in SetOf(f.unlinked);
      hide OfPool, SetOf;
    }
  }

  // ---------------------------------------------------------------------------------------------
  // Taking and putting keep the invariants
  // ---------------------------------------------------------------------------------------------

  lemma MarkedInUseGrown(f: Forest, c: Id)
    requires Grown(f)
    ensures Grown(MarkedInUse(f, c))
  {
    hide Consistent, SwapRemoved;
  }

  /** What is true of a node just taken. */
  lemma TakenSound(f: Forest, c: Id)
    requires Sound(f) && c in f.links && c != f.root && c !in f.detached
    ensures f.content.Keys == f.links.Keys && (f.links[c].parent != NONE ==> f.links[c].parent in f.links)
    ensures var r := Taken(f, c);
            && Sound(r) && r.detached == f.detached + {c} && r.links.Keys == f.links.Keys && r.links[c].parent == NONE
            && r.content == f.content && r.root == f.root && r.next == f.next
  {
    hide Consistent, Unlinked, SwapRemoved, Moved, Without, Slots, Tally, IndexOf;
    if f.links[c].parent == NONE {
      UnlinkedIsListed(f, c);
      MarkedInUseOwned(f, c);
      MarkedInUseGrown(f, c);
      ClaimedCounted(f, c);
      hide Owned, Counted, Grown, MarkedInUse;
      ClaimedOtherwise(f, c);
    } else {
      TakenOffGrown(f, c);
      TakenOffOwned(f, c);
      hide Owned, Grown;
    }
  }

  lemma ClaimedOtherwise(f: Forest, c: Id)
    requires c in f.content && Grown(MarkedInUse(f, c)) && Owned(MarkedInUse(f, c))
    ensures Grown(Claimed(f, c)) && Owned(Claimed(f, c))
  {
    hide Consistent, MarkedInUse;
  }

  lemma UnlinkedIsListed(f: Forest, c: Id)
    requires Owned(f) && c in f.links && f.links[c].parent == NONE && c != f.root && c !in f.detached
    ensures c in f.unlinked
  {
    MultisetSets(f.unlinked);
  }

  lemma PutInSound(f: Forest, p: Id, k: nat, c: Id)
    requires Sound(f) && p in f.links && c in f.detached && c != p && c !in AboveOf(f.above, p)
             && k <= |KidsOf(f.kids, p)|
    ensures c in f.links && Sound(PutIn(f, p, k, c))
  {
    SameKeys(f);
    DetachedIsFree(f, c);
    PutInGrown(f, p, k, c);
    PutInOwned(f, p, k, c);
    hide Owned, Grown, Tally, Inserted, Put, Moved;
  }

  lemma DetachedIsFree(f: Forest, c: Id)
    requires Owned(f) && c in f.detached
    ensures c in f.links && f.links[c].parent == NONE && c != f.root
  {
  }

  lemma PutInGrown(f: Forest, p: Id, k: nat, c: Id)
    requires Grown(f) && p in f.links && c in f.links && f.links[c].parent == NONE && c != f.root
    requires c != p && c !in AboveOf(f.above, p) && k <= |KidsOf(f.kids, p)|
    ensures Grown(PutIn(f, p, k, c))
  {
    SameKeys(f);
    hide Chains, Parented, Listed, Moved, Put;
    InsertedConsistent(f.links, f.kids, f.above, p, k, c);
    hide Consistent;
  }

  lemma PutInOwned(f: Forest, p: Id, k: nat, c: Id)
    requires Owned(f) && p in f.links && c in f.detached && c in f.links && k <= |KidsOf(f.kids, p)|
    ensures Owned(PutIn(f, p, k, c))
  {
    hide Put, Moved;
  }

  /** A node can become a child of `p` when it is not the document, not `p` and not above `p`. */
  ghost predicate MayMove(f: Forest, p: Id, c: Id) {
    c in f.links && p in f.links && c != f.root && c != p && c !in AboveOf(f.above, p)
  }

  lemma AbsentElsewhere(f: Forest, p: Id, c: Id)
    requires Grown(f) && p in f.links && c in f.links && f.links[c].parent != p
    ensures c !in KidsOf(f.kids, p)
  {
    SameKeys(f);
    assert Chain(f.links, p, f.kids[p]);
    hide Chains, Parented, Listed, InRow;
  }

  lemma KnownParent(f: Forest, c: Id)
    requires Grown(f) && c in f.links
    ensures c in f.content && (f.links[c].parent != NONE ==> f.links[c].parent in f.links && c != f.root)
  {
    if f.links[c].parent != NONE {
      TakenOffGrown(f, c);
    }
    hide Consistent;
  }

  /** Taking a node removes it from its parent's list and changes no other. */
  lemma TakenKids(f: Forest, p: Id, c: Id)
    requires Grown(f) && p in f.links && c in f.links
    ensures c in f.content && (f.links[c].parent != NONE ==> f.links[c].parent in f.links)
    ensures KidsOf(Taken(f, c).kids, p) == Without(KidsOf(f.kids, p), c)
  {
    hide Grown, Unlinked, Moved, Without, SwapRemoved;
    KnownParent(f, c);
    if f.links[c].parent != p {
      AbsentElsewhere(f, p, c);
      WithoutAbsent(KidsOf(f.kids, p), c);
    }
  }

  /** Taking a node that is not above `p` leaves what is above `p`. */
  lemma TakenAbove(f: Forest, p: Id, c: Id)
    requires Grown(f) && MayMove(f, p, c) && c in f.content
             && (f.links[c].parent != NONE ==> f.links[c].parent in f.links)
    ensures AboveOf(Taken(f, c).above, p) == AboveOf(f.above, p)
  {
    hide Consistent, Unlinked, Without, SwapRemoved, Moved;
    SameKeys(f);
    MovedElsewhere(f.above, c, [], p);
  }

  // ---------------------------------------------------------------------------------------------
  // The insertions
  // ---------------------------------------------------------------------------------------------

  ghost function MovedTo(f: Forest, p: Id, k: nat, c: Id): Forest
    requires Grown(f) && p in f.links && c in f.links && k <= |Without(KidsOf(f.kids, p), c)|
  {
    TakenKids(f, p, c);
    PutIn(Taken(f, c), p, k, c)
  }

  ghost predicate IsMovedTo(f: Forest, p: Id, k: nat, c: Id, r: Forest) {
    Grown(f) && p in f.links && c in f.links && k <= |Without(KidsOf(f.kids, p), c)| && r == MovedTo(f, p, k, c)
  }

  /** InsertEndChild. */
  ghost predicate IsAddedLast(f: Forest, p: Id, c: Id, r: Forest) {
    IsMovedTo(f, p, |Without(KidsOf(f.kids, p), c)|, c, r)
  }

  /** InsertFirstChild. */
  ghost predicate IsAddedFirst(f: Forest, p: Id, c: Id, r: Forest) {
    IsMovedTo(f, p, 0, c, r)
  }

  /** InsertAfterChild, for another child `a` of `p`. */
  ghost predicate IsAddedAfter(f: Forest, p: Id, a: Id, c: Id, r: Forest) {
    IsMovedTo(f, p, IndexOf(Without(KidsOf(f.kids, p), c), a) + 1, c, r)
  }

  lemma TakenReady(f: Forest, p: Id, c: Id, g: Forest)
    requires Sound(f) && f.detached == {} && MayMove(f, p, c) && IsTaken(f, c, g)
    ensures Sound(g) && c in g.detached && MayMove(g, p, c) && KidsOf(g.kids, p) == Without(KidsOf(f.kids, p), c)
  {
    hide Grown, Owned, Counted, Taken, Without;
    TakenSound(f, c);
    TakenKids(f, p, c);
    TakenAbove(f, p, c);
  }

  /** What every insertion does: the bookkeeping stays right, the node leaves the list it was in and appears in
      its new parent's at the place asked for, and no other list changes. */
  lemma InsertionMoves(f: Forest, p: Id, k: nat, c: Id)
    requires Sound(f) && f.detached == {} && MayMove(f, p, c) && k <= |Without(KidsOf(f.kids, p), c)|
    ensures var r := MovedTo(f, p, k, c);
            && Sound(r) && r.detached == {} && r.links.Keys == f.links.Keys && r.content == f.content
            && r.root == f.root && r.next == f.next
            && KidsOf(r.kids, p) == Put(Without(KidsOf(f.kids, p), c), k, c)
            && forall q :: q in f.links && q != p ==> KidsOf(r.kids, q) == Without(KidsOf(f.kids, q), c)
  {
    hide Grown, Owned, Counted, Taken, Without, Moved, Put, Inserted;
    TakenSound(f, c);
    TakenKids(f, p, c);
    TakenAbove(f, p, c);
    var g := Taken(f, c);
    PutInSound(g, p, k, c);
    forall q | q in f.links && q != p
      ensures KidsOf(PutIn(g, p, k, c).kids, q) == Without(KidsOf(f.kids, q), c)
    {
      TakenKids(f, q, c);
    }
  }

  // ---------------------------------------------------------------------------------------------
  // Creating and freeing
  // ---------------------------------------------------------------------------------------------

  const LONELY := Link(NONE, NONE, NONE, NONE, NONE)

  /** CreateUnlinkedNode. */
  ghost function Created(f: Forest, x: Content): Forest {
    f.(next := f.next + 1, links := f.links[f.next := LONELY], kids := f.kids[f.next := []],
       above := f.above[f.next := []],
       content := f.content[f.next := x], unlinked := f.unlinked + [f.next], pools := Count(f.pools, x.pool, 1, 1))
  }

  /** The childless node's memory goes back to its pool. */
  ghost function Freed(f: Forest, c: Id): Forest
    requires c in f.content
  {
    f.(links := f.links - {c}, kids := f.kids - {c}, above := f.above - {c}, content := f.content - {c},
       detached := f.detached - {c}, pools := Count(f.pools, f.content[c].pool, -1, 0))
  }

  /** The element with another attribute list; every attribute created or deleted goes through its pool. */
  ghost function WithAttributes(f: Forest, c: Id, attributes: seq<Attribute>): (r: Forest)
    requires c in f.content
    ensures r.above == f.above && r.kids == f.kids && r.links == f.links && r.detached == f.detached && r.root == f.root
    ensures r.content == f.content[c := f.content[c].(attributes := attributes)]
  {
    var more := |attributes| - |f.content[c].attributes|;
    f.(content := f.content[c := f.content[c].(attributes := attributes)],
       pools := Count(f.pools, AttributePool, more, 0))
  }

  ghost function Column(c: Id, n: nat): set<(Id, int)> {
    set i | 0 <= i < n :: (c, i)
  }

  lemma {:induction false} ColumnSize(c: Id, n: nat)
    ensures |Column(c, n)| == n
  {
    if n > 0 {
      ColumnSize(c, n - 1);
      assert Column(c, n) == Column(c, n - 1) + {(c, n - 1)};
    }
  }

  lemma SlotsWithout(content: Contents, c: Id)
    requires c in content
    ensures |Slots(content)| == |Slots(content - {c})| + |content[c].attributes|
  {
    ColumnSize(c, |content[c].attributes|);
    assert Slots(content) == Slots(content - {c}) + Column(c, |content[c].attributes|);
    assert Slots(content - {c}) !! Column(c, |content[c].attributes|);
  }

  lemma SlotsWith(content: Contents, c: Id, x: Content)
    ensures |Slots(content[c := x])| == |Slots(content - {c})| + |x.attributes|
  {
    SlotsWithout(content[c := x], c);
    assert content[c := x] - {c} == content - {c};
  }

  lemma OfPoolWithout(content: Contents, s: set<Id>, c: Id, k: PoolKind)
    ensures OfPool(content - {c}, s, k) == OfPool(content, s - {c}, k)
  {
  }

  lemma TallyWithout(content: Contents, unlinked: set<Id>, c: Id, k: PoolKind)
    requires c in content && c !in unlinked && content[c].attributes == []
    ensures Tally(content - {c}, unlinked, k).untracked == Tally(content, unlinked, k).untracked
    ensures Tally(content - {c}, unlinked, k).currentAllocs ==
              Tally(content, unlinked, k).currentAllocs - if content[c].pool == k then 1 else 0
  {
    SlotsWithout(content, c);
    OfPoolWithout(content, content.Keys, c, k);
    OfPoolWithout(content, unlinked, c, k);
    PoolMinus(content, content.Keys, c, k);
    assert (content - {c}).Keys == content.Keys - {c};
    assert unlinked - {c} == unlinked;
    assert OfPool(content - {c}, content.Keys - {c}, k) == OfPool(content - {c}, content.Keys, k);
    hide OfPool, Slots;
  }

  lemma TallyWith(content: Contents, unlinked: set<Id>, c: Id, x: Content, k: PoolKind)
    requires c !in content && c !in unlinked && x.attributes == []
    ensures Tally(content[c := x], unlinked + {c}, k).untracked
            == Tally(content, unlinked, k).untracked + if x.pool == k then 1 else 0
    ensures Tally(content[c := x], unlinked + {c}, k).currentAllocs ==
              Tally(content, unlinked, k).currentAllocs + if x.pool == k then 1 else 0
  {
    var after := content[c := x];
    assert after - {c} == content;
    TallyWithout(after, unlinked, c, k);
    PoolPlus(after, unlinked, c, k);
    hide OfPool, Slots;
  }

  lemma CreatedSound(f: Forest, x: Content)
    requires Sound(f) && x.attributes == []
    ensures Sound(Created(f, x)) && Created(f, x).detached == f.detached
  {
    CreatedGrown(f, x);
    CreatedOwned(f, x);
    CreatedCounted(f, x);
    hide Grown, Owned, Counted;
  }

  lemma CreatedGrown(f: Forest, x: Content)
    requires Grown(f) && x.attributes == []
    ensures Grown(Created(f, x))
  {
    hide Chains, Parented, Listed;
    SameKeys(f);
    CreatedConsistent(f.links, f.kids, f.above, f.next);
    hide Consistent;
  }

  lemma CreatedOwned(f: Forest, x: Content)
    requires Grown(f) && Owned(f)
    ensures Owned(Created(f, x))
  {
    hide Consistent;
    MultisetSets(f.unlinked);
    assert multiset(f.unlinked + [f.next]) == multiset(f.unlinked) + multiset{f.next};
  }

  lemma CreatedCounted(f: Forest, x: Content)
    requires Grown(f) && Owned(f) && Counted(f) && x.attributes == []
    ensures Counted(Created(f, x))
  {
    hide Consistent;
    var r, n := Created(f, x), f.next;
    assert SetOf(r.unlinked) == SetOf(f.unlinked) + {n};
    forall k: PoolKind
      ensures k in r.pools && (k != NoPool ==> r.pools[k] == Tally(r.content, SetOf(r.unlinked), k))
    {
      TallyWith(f.content, SetOf(f.unlinked), n, x, k);
    }
    hide Tally;
  }

  lemma FreedSound(f: Forest, c: Id)
    requires Sound(f) && c in f.detached && KidsOf(f.kids, c) == []
    ensures c in f.content && (f.content[c].attributes == [] ==> Sound(Freed(f, c)))
  {
    DetachedIsFree(f, c);
    SameKeys(f);
    if f.content[c].attributes == [] {
      FreedGrown(f, c);
      FreedOwned(f, c);
      FreedCounted(f, c);
      hide Grown, Owned, Counted;
    }
  }

  lemma FreedGrown(f: Forest, c: Id)
    requires Grown(f) && c in f.content && c in f.links && f.links[c].parent == NONE && c != f.root
             && KidsOf(f.kids, c) == []
    ensures Grown(Freed(f, c))
  {
    hide Chains, Parented, Listed;
    SameKeys(f);
    RemovedConsistent(f.links, f.kids, f.above, c);
    hide Consistent;
  }

  lemma FreedOwned(f: Forest, c: Id)
    requires Owned(f) && c in f.detached && c in f.content
    ensures Owned(Freed(f, c))
  {
    MultisetSets(f.unlinked);
  }

  lemma FreedCounted(f: Forest, c: Id)
    requires Owned(f) && Counted(f) && c in f.detached && c in f.content && f.content[c].attributes == []
    ensures Counted(Freed(f, c))
  {
    MultisetSets(f.unlinked);
    var r := Freed(f, c);
    forall k: PoolKind
      ensures k in r.pools && (k != NoPool ==> r.pools[k] == Tally(r.content, SetOf(r.unlinked), k))
    {
      TallyWithout(f.content, SetOf(f.unlinked), c, k);
    }
    hide Tally;
  }

  lemma WithAttributesSound(f: Forest, c: Id, attributes: seq<Attribute>)
    requires Sound(f) && c in f.content && c != f.root && UniqueNames(attributes)
    ensures Sound(WithAttributes(f, c, attributes))
  {
    WithAttributesGrown(f, c, attributes);
    WithAttributesCounted(f, c, attributes);
    WithAttributesOwned(f, c, attributes);
    hide Grown, Owned, Counted;
  }

  lemma WithAttributesGrown(f: Forest, c: Id, attributes: seq<Attribute>)
    requires Grown(f) && c in f.content && c != f.root && UniqueNames(attributes)
    ensures Grown(WithAttributes(f, c, attributes))
  {
    hide Consistent;
  }

  lemma WithAttributesOwned(f: Forest, c: Id, attributes: seq<Attribute>)
    requires Owned(f) && c in f.content
    ensures Owned(WithAttributes(f, c, attributes))
  {
  }

  lemma WithAttributesCounted(f: Forest, c: Id, attributes: seq<Attribute>)
    requires Counted(f) && c in f.content
    ensures Counted(WithAttributes(f, c, attributes))
  {
    var r := WithAttributes(f, c, attributes);
    hide OfPool, Slots, Tally;
    forall k: PoolKind
      ensures k in r.pools && (k != NoPool ==> r.pools[k] == Tally(r.content, SetOf(r.unlinked), k))
    {
      TallyAttributes(f.content, SetOf(f.unlinked), c, attributes, k);
    }
  }

  lemma TallyAttributes(content: Contents, unlinked: set<Id>, c: Id, attributes: seq<Attribute>, k: PoolKind)
    requires c in content
    ensures var a, b := Tally(content, unlinked, k),
            Tally(content[c := content[c].(attributes := attributes)], unlinked, k);
            b == Counters(a.currentAllocs + if k == AttributePool then |attributes| - |content[c].attributes|
                          else 0, a.untracked)
  {
    var x := content[c].(attributes := attributes);
    SlotsWithout(content, c);
    SlotsWith(content, c, x);
    assert OfPool(content[c := x], content.Keys, k) == OfPool(content, content.Keys, k);
    assert OfPool(content[c := x], unlinked, k) == OfPool(content, unlinked, k);
    assert content[c := x].Keys == content.Keys;
    hide OfPool, Slots;
  }

  // ---------------------------------------------------------------------------------------------
  // Deleting
  // ---------------------------------------------------------------------------------------------

  ghost function Subtree(f: Forest, c: Id): set<Id> {
    {c} + Below<Id>(f.above, c)
  }

  /** `r` is `f` without the nodes `dead`: the others keep their content and their ancestors. */
  ghost predicate Lost(f: Forest, r: Forest, dead: set<Id>) {
    && r.root == f.root && r.next == f.next && r.links.Keys == f.links.Keys - dead
    && r.content == f.content - dead && r.above == f.above - dead
  }

  /** XMLNode::DeleteNode: the parentless node and all below it are gone. */
  ghost predicate NodeDeleted(f: Forest, c: Id, r: Forest) {
    && Lost(f, r, Subtree(f, c)) && r.kids == f.kids - Subtree(f, c)
    && r.unlinked == MarkedInUse(f, c).unlinked && r.detached == f.detached - {c}
  }

  /** DeleteChild: so are the child and all below it. */
  ghost predicate ChildDeleted(f: Forest, n: Id, c: Id, r: Forest) {
    && Lost(f, r, Subtree(f, c)) && r.kids == f.kids[n := Without(KidsOf(f.kids, n), c)] - Subtree(f, c)
    && r.unlinked == f.unlinked && r.detached == f.detached
  }

  /** DeleteChildren: all below the node is gone, and its list is empty. */
  ghost predicate ChildrenDeleted(f: Forest, n: Id, r: Forest) {
    && Lost(f, r, Below<Id>(f.above, n)) && r.kids == (f.kids - Below<Id>(f.above, n))[n := []]
    && r.unlinked == f.unlinked && r.detached == f.detached
  }

  /** On the way there: some of what was below `n` is gone, and only its list has changed. */
  ghost predicate Thinned(f: Forest, n: Id, r: Forest) {
    var dead := f.links.Keys - r.links.Keys;
    && dead <= Below<Id>(f.above, n) && Lost(f, r, dead) && r.kids == (f.kids - dead)[n := KidsOf(r.kids, n)]
    && r.unlinked == f.unlinked && r.detached == f.detached
  }

  lemma ThinnedStep(f: Forest, n: Id, m: Forest, c: Id, r: Forest)
    requires Grown(f) && n in f.links && Thinned(f, n, m) && Grown(m) && n in m.links
    requires KidsOf(m.kids, n) != [] && KidsOf(m.kids, n)[0] == c && ChildDeleted(m, n, c, r)
    ensures Thinned(f, n, r) && n in r.links && Below<Id>(r.above, n) < Below<Id>(m.above, n)
  {
    hide Grown, Below, Without, Subtree;
    var d, e := f.links.Keys - m.links.Keys, Subtree(m, c);
    BelowLost(f, m, n);
    FirstKidBelow(m, n);
    BelowAfter(m, r, n, c);
    KnownSubtree(m, n, c);
    assert f.links.Keys - r.links.Keys == d + e;
    LostTwice(f, m, r, d, e);
    KidsTwice(f.kids, m.kids, r.kids, n, d, e, Without(KidsOf(m.kids, n), c));
  }

  lemma LostTwice(f: Forest, m: Forest, r: Forest, d: set<Id>, e: set<Id>)
    requires Lost(f, m, d) && Lost(m, r, e)
    ensures Lost(f, r, d + e)
  {
  }

  lemma KidsTwice(k: Kids, m: Kids, r: Kids, n: Id, d: set<Id>, e: set<Id>, s: seq<Id>)
    requires n !in e && m == (k - d)[n := KidsOf(m, n)] && r == m[n := s] - e
    ensures r == (k - (d + e))[n := KidsOf(r, n)]
  {
  }

  lemma KnownSubtree(m: Forest, n: Id, c: Id)
    requires Grown(m) && n in m.links && c in m.links
    ensures Subtree(m, c) <= m.links.Keys
  {
    hide Grown;
    SameKeys(m);
  }

  lemma FirstKid(m: Forest, n: Id)
    requires Grown(m) && n in m.links && KidsOf(m.kids, n) != []
    ensures var c := KidsOf(m.kids, n)[0]; c in m.links && m.links[c].parent == n && m.links[n].firstChild == c
    ensures n in m.above && KidsOf(m.kids, n)[0] in m.above && m.above[KidsOf(m.kids, n)[0]] != []
            && m.above[KidsOf(m.kids, n)[0]][0] == n
  {
    SameKeys(m);
    assert Chain(m.links, n, m.kids[n]);
    hide Chains, InRow, Listed, Distinct;
  }

  lemma AncestorsRooted(m: Forest)
    requires Grown(m)
    ensures Rooted(m.above)
  {
    hide Chains, Listed;
  }

  lemma FirstKidBelow(m: Forest, n: Id)
    requires Grown(m) && n in m.links && KidsOf(m.kids, n) != []
    ensures KidsOf(m.kids, n)[0] in m.links
    ensures Subtree(m, KidsOf(m.kids, n)[0]) <= Below<Id>(m.above, n) && n !in Subtree(m, KidsOf(m.kids, n)[0])
  {
    hide Chains, Parented, Listed, Rooted;
    FirstKid(m, n);
    AncestorsRooted(m);
    BelowShrinks(m.above, n, KidsOf(m.kids, n)[0]);
    NotAboveItself(m.above, n);
  }

  lemma BelowLost(f: Forest, m: Forest, n: Id)
    requires Lost(f, m, f.links.Keys - m.links.Keys)
    ensures Below<Id>(m.above, n) <= Below<Id>(f.above, n)
  {
  }

  lemma BelowAfter(m: Forest, r: Forest, n: Id, c: Id)
    requires Lost(m, r, Subtree(m, c)) && Subtree(m, c) <= Below<Id>(m.above, n)
    ensures Below<Id>(r.above, n) < Below<Id>(m.above, n)
  {
    assert c in Subtree(m, c);
    assert c in Below<Id>(m.above, n) && c !in Below<Id>(r.above, n);
    assert Below<Id>(r.above, n) <= Below<Id>(m.above, n);
  }

  lemma NothingThinned(f: Forest, n: Id)
    requires Grown(f) && n in f.links
    ensures Thinned(f, n, f)
  {
    hide Grown, Below;
    SameKeys(f);
    NothingLess(f.kids);
    NothingLess(f.above);
    NothingLess(f.content);
    var dead := f.links.Keys - f.links.Keys;
    assert dead == {};
    assert f.kids == f.kids[n := KidsOf(f.kids, n)];
  }

  lemma NothingLess<V>(m: map<Id, V>)
    ensures m - {} == m
  {
  }

  lemma AllThinned(f: Forest, n: Id, m: Forest)
    requires Grown(f) && n in f.links && Thinned(f, n, m) && Grown(m) && n in m.links && KidsOf(m.kids, n) == []
    ensures ChildrenDeleted(f, n, m)
  {
    hide Grown, Below;
    SameKeys(f);
    SameKeys(m);
    NothingUnder(m, n);
    BelowGone(f.above, m.above, f.links.Keys - m.links.Keys, n);
  }

  lemma NothingUnder(m: Forest, n: Id)
    requires Grown(m) && n in m.links && KidsOf(m.kids, n) == []
    ensures Below<Id>(m.above, n) == {}
  {
    hide Chains, Parented, Listed, Below;
    SameKeys(m);
    NothingBelow(m.links, m.kids, m.above, n);
  }

  lemma BelowGone(above: Ancestors, after: Ancestors, dead: set<Id>, n: Id)
    requires after == above - dead && Below<Id>(after, n) == {} && dead <= Below<Id>(above, n)
    ensures dead == Below<Id>(above, n)
  {
    forall x | x in Below<Id>(above, n)
      ensures x in dead
    {
      assert x !in Below<Id>(after, n);
    }
  }

  /** Emptying the marked node and freeing it. */
  lemma EmptiedAndFreed(f: Forest, c: Id, m: Forest)
    requires c in f.content && Grown(f) && ChildrenDeleted(WithAttributes(MarkedInUse(f, c), c, []), c, m)
    requires Sound(m) && c in m.detached
    ensures c in m.content && Sound(Freed(m, c)) && NodeDeleted(f, c, Freed(m, c))
  {
    hide Grown, Below, Owned, Counted, SwapRemoved, Count, IndexOf;
    SameKeys(f);
    NotUnderItself(f, c);
    var dead, x := Below<Id>(f.above, c), f.content[c].(attributes := []);
    assert m.content == f.content[c := x] - dead;
    assert m.content[c] == x;
    FreedSound(m, c);
    MapLess(f.above, dead, c);
    MapLessPut(f.kids, dead, c, []);
    MapPutLess(f.content, dead, c, x);
    assert f.detached + {c} - {c} == f.detached - {c};
  }

  lemma NotUnderItself(f: Forest, c: Id)
    requires Grown(f) && c in f.content
    ensures c !in Below<Id>(f.above, c)
  {
    hide Chains, Listed;
    SameKeys(f);
    NotAboveItself(f.above, c);
  }

  lemma MapLess<V>(m: map<Id, V>, d: set<Id>, c: Id)
    ensures m - d - {c} == m - ({c} + d)
  {
  }

  lemma MapLessPut<V>(m: map<Id, V>, d: set<Id>, c: Id, v: V)
    ensures (m - d)[c := v] - {c} == m - ({c} + d)
  {
  }

  lemma MapPutLess<V>(m: map<Id, V>, d: set<Id>, c: Id, v: V)
    ensures m[c := v] - d - {c} == m - ({c} + d)
  {
  }

  /** Unlinking the child and deleting its tree. */
  lemma UnlinkedAndDeleted(f: Forest, c: Id, r: Forest)
    requires Grown(f) && Owned(f) && c in f.links && f.links[c].parent in f.links
    requires NodeDeleted(TakenOff(f, c), c, r)
    ensures ChildDeleted(f, f.links[c].parent, c, r)
  {
    hide Grown, Owned, Subtree, Unlinked, Without, MarkedInUse, TakenOff, KidsOf;
    NotListed(f, c);
    SubtreeMoved(f, c);
    Readded(f.detached, c);
  }

  lemma Readded(s: set<Id>, c: Id)
    requires c !in s
    ensures s + {c} - {c} == s
  {
  }

  lemma NotListed(f: Forest, c: Id)
    requires Owned(f) && c in f.links && f.links[c].parent in f.links
    ensures c !in f.unlinked && c !in f.detached && MarkedInUse(TakenOff(f, c), c).unlinked == f.unlinked
  {
    MultisetSets(f.unlinked);
  }

  lemma SubtreeMoved(f: Forest, c: Id)
    requires Grown(f) && c in f.links && f.links[c].parent in f.links
    ensures var g := TakenOff(f, c);
            Subtree(g, c) == Subtree(f, c) && g.above - Subtree(f, c) == f.above - Subtree(f, c)
  {
    hide Consistent, Rooted, Moved, Unlinked, Without, Below, Named;
    SameKeys(f);
    AncestorsRooted(f);
    MovedOut(f.above, c);
  }

  lemma MovedOut(above: Ancestors, c: Id)
    requires Rooted(above) && c in above
    ensures var moved, dead := Moved(above, c, []), {c} + Below<Id>(above, c);
            Below<Id>(moved, c) == Below<Id>(above, c) && moved - dead == above - dead
  {
    MovedBelow(above, c, []);
    var moved, dead := Moved(above, c, []), {c} + Below<Id>(above, c);
    forall n | n in above && n !in dead
      ensures moved[n] == above[n]
    {
      MovedElsewhere(above, c, [], n);
    }
    hide Moved;
  }

  /** Marking a node that is already off every list changes nothing. */
  lemma MarkedAlready(f: Forest, c: Id)
    requires Owned(f) && c in f.detached
    ensures MarkedInUse(f, c) == f
  {
    MultisetSets(f.unlinked);
    assert f.detached + {c} == f.detached;
  }

  // ---------------------------------------------------------------------------------------------
  // An empty document
  // ---------------------------------------------------------------------------------------------

  /** When nothing is unlinked and the document has no children, it is alone. */
  lemma NothingLeft(f: Forest)
    requires Sound(f) && f.detached == {} && f.unlinked == [] && KidsOf(f.kids, f.root) == []
    ensures f.links.Keys == {f.root}
  {
    hide Counted, Below, Chains, Listed, Rooted;
    SameKeys(f);
    NothingUnder(f, f.root);
    forall n | n in f.links
      ensures n == f.root
    {
      if f.above[n] != [] {
        TopIsRoot(f, n);
      }
    }
  }

  lemma TopIsRoot(f: Forest, n: Id)
    requires Grown(f) && Owned(f) && f.detached == {} && f.unlinked == [] && n in f.links && n in f.above
             && f.above[n] != []
    ensures n in Below<Id>(f.above, f.root)
  {
    hide Chains, Listed, Rooted;
    SameKeys(f);
    AncestorsRooted(f);
    SuffixAbove(f.above, n, |f.above[n]| - 1);
    var top := f.above[n][|f.above[n]| - 1];
    assert f.links[top].parent == NONE;
  }

  /** A document that is alone has given everything back: CurrentAllocs and Untracked are 0 in every pool. */
  lemma NothingAllocated(f: Forest)
    requires Sound(f) && f.links.Keys == {f.root}
    ensures forall k :: k in f.pools && k != NoPool ==> f.pools[k] == Counters(0, 0)
  {
    hide Consistent;
    MultisetSets(f.unlinked);
    forall k: PoolKind | k != NoPool
      ensures Tally(f.content, SetOf(f.unlinked), k) == Counters(0, 0)
    {
      assert OfPool(f.content, f.content.Keys, k) == {};
      assert OfPool(f.content, SetOf(f.unlinked), k) == {};
      assert Slots(f.content) == {};
    }
  }

  // ---------------------------------------------------------------------------------------------
  // What the insertions read
  // ---------------------------------------------------------------------------------------------

  /** The ends of the child list of `p`, and that the detached `c` is not among its children. */
  lemma TakenRow(f: Forest, p: Id, c: Id)
    requires Grown(f) && Owned(f) && p in f.links && c in f.detached
    ensures c in f.links && c !in KidsOf(f.kids, p)
    ensures var s, x := KidsOf(f.kids, p), f.links[p];
            && x.firstChild == First(s) && x.lastChild == Last(s)
            && (forall i :: 0 <= i < |s| ==> s[i] in f.links)
            && (s != [] ==> f.links[s[0]].prev == NONE && f.links[s[|s| - 1]].next == NONE)
  {
    hide Consistent;
    DetachedIsFree(f, c);
    AbsentElsewhere(f, p, c);
    Row(f, p);
  }

  lemma Row(f: Forest, p: Id)
    requires Grown(f) && p in f.links
    ensures var s, x := KidsOf(f.kids, p), f.links[p];
            && x.firstChild == First(s) && x.lastChild == Last(s)
            && (forall i :: 0 <= i < |s| ==> s[i] in f.links)
            && (s != [] ==> f.links[s[0]].prev == NONE && f.links[s[|s| - 1]].next == NONE)
  {
    hide Grown;
    SameKeys(f);
    RowIsChain(f, p);
    ChainEnds(f.links, p, f.kids[p]);
  }

  lemma RowIsChain(f: Forest, p: Id)
    requires Grown(f) && p in f.kids
    ensures Chain(f.links, p, f.kids[p])
  {
    hide Parented, Listed, Distinct, Chain;
  }

  lemma ChainEnds(l: Links, p: Id, s: seq<Id>)
    requires p in l && Chain(l, p, s)
    ensures l[p].firstChild == First(s) && l[p].lastChild == Last(s)
    ensures forall i :: 0 <= i < |s| ==> s[i] in l
    ensures s != [] ==> l[s[0]].prev == NONE && l[s[|s| - 1]].next == NONE
  {
    hide Distinct;
  }

  lemma SuccessorOf(f: Forest, p: Id, k: nat)
    requires Grown(f) && p in f.links && k + 1 < |KidsOf(f.kids, p)|
    ensures var s := KidsOf(f.kids, p);
            s[k] in f.links && f.links[s[k]].next == s[k + 1] && s[k + 1] in f.links && s[k + 1] != s[k]
  {
    SameKeys(f);
    var s := f.kids[p];
    assert Chain(f.links, p, s);
    Neighbours(f.links, s, k);
    hide Chains, Parented, Listed, InRow;
  }

  /** Taking the node and putting it at index `k` is moving it there. */
  lemma TakenAndPut(f: Forest, p: Id, k: nat, c: Id, g: Forest, r: Forest)
    requires Sound(f) && f.detached == {} && MayMove(f, p, c) && IsTaken(f, c, g) && IsPutIn(g, p, k, c, r)
    ensures IsMovedTo(f, p, k, c, r) && Sound(r) && r.detached == {}
  {
    hide Grown, Owned, Counted, Taken, Without, PutIn, MayMove;
    TakenReady(f, p, c, g);
    InsertionMoves(f, p, k, c);
  }

  lemma MovedIsNotRoot(f: Forest, p: Id, c: Id)
    requires MayMove(f, p, c)
    ensures c != f.root
  {
  }

  lemma KnownNext(f: Forest, c: Id)
    requires Grown(f) && c in f.links
    ensures f.links[c].next != NONE ==> f.links[c].next in f.links
  {
    hide Chains, Parented;
    if f.links[c].parent != NONE {
      UnlinkTouches(f, c);
    } else {
      assert InList(f.links, f.kids, c);
    }
  }

  /** Where a child stands in its parent's list. */
  lemma ChildIndex(f: Forest, p: Id, a: Id)
    requires Grown(f) && p in f.links && a in f.links && f.links[a].parent == p
    ensures var s, i := KidsOf(f.kids, p), IndexOf(KidsOf(f.kids, p), a);
            && Distinct(s) && i < |s| && s[i] == a && (forall j :: 0 <= j < |s| ==> s[j] in f.links)
            && f.links[a].next == (if i + 1 == |s| then NONE else s[i + 1])
            && f.links[s[|s| - 1]].next == NONE && (i + 2 < |s| ==> f.links[s[i + 1]].next == s[i + 2])
  {
    hide Grown, InRow, IndexOf;
    ChildIsListed(f, p, a);
    var s, i := KidsOf(f.kids, p), IndexOf(KidsOf(f.kids, p), a);
    Neighbours(f.links, s, i);
    if i + 1 < |s| {
      Neighbours(f.links, s, i + 1);
    }
    Neighbours(f.links, s, |s| - 1);
  }

  lemma ChildIsListed(f: Forest, p: Id, a: Id)
    requires Grown(f) && p in f.links && a in f.links && f.links[a].parent == p
    ensures Chain(f.links, p, KidsOf(f.kids, p)) && a in KidsOf(f.kids, p)
  {
    hide Parented, Chain;
    SameKeys(f);
    assert Chain(f.links, p, f.kids[p]);
    assert InList(f.links, f.kids, a);
  }

  /** Appending is inserting after the last child. */
  lemma LastIsAfter(f: Forest, p: Id, a: Id, c: Id)
    requires Sound(f) && p in f.links && a in f.links && c in f.links && a != c
    requires f.links[a].parent == p && f.links[a].next == NONE
    ensures forall r :: IsAddedLast(f, p, c, r) ==> IsAddedAfter(f, p, a, c, r)
  {
    hide Grown, Owned, Counted, IndexOf, Without, IsMovedTo;
    ChildIndex(f, p, a);
    var s, t := KidsOf(f.kids, p), Without(KidsOf(f.kids, p), c);
    LastStaysLast(s, c);
    WithoutDistinct(s, c);
    assert IndexOf(t, a) + 1 == |t|;
  }

  /** With the successor that InsertAfterChild's caller guarantees, `a` still has one when `c` is taken. */
  lemma AfterHasSuccessor(f: Forest, p: Id, a: Id, c: Id)
    requires Sound(f) && p in f.links && a in f.links && c in f.links && a != c
    requires f.links[a].parent == p && f.links[a].next != NONE && !(f.links[a].next == c && f.links[c].next == NONE)
    ensures var t := Without(KidsOf(f.kids, p), c); IndexOf(t, a) + 1 < |t|
  {
    hide Grown, Owned, Counted, IndexOf, Without;
    ChildIndex(f, p, a);
    var s := KidsOf(f.kids, p);
    LastAfterLeaving(s, IndexOf(s, a), c);
    WithoutIn(s, c, a);
  }

  lemma NextAndPrevious(f: Forest, n: Id)
    requires Grown(f) && n in f.links
    ensures var x := f.links[n];
            && (x.next != NONE ==>
                  x.next in f.links && f.links[x.next].prev == n && f.links[x.next].parent == x.parent != NONE)
            && (x.prev != NONE ==> x.prev in f.links && f.links[x.prev].next == n)
  {
    hide Consistent;
    if f.links[n].parent == NONE {
      AloneIsAlone(f, n);
    } else {
      KnownParent(f, n);
      var p := f.links[n].parent;
      ChildIsListed(f, p, n);
      var s := KidsOf(f.kids, p);
      var k :| 0 <= k < |s| && s[k] == n;
      RowNeighbours(f, p, k);
    }
  }

  lemma RowNeighbours(f: Forest, p: Id, k: nat)
    requires Grown(f) && p in f.links && k < |KidsOf(f.kids, p)|
    ensures var s := KidsOf(f.kids, p);
            && s[k] in f.links
            && f.links[s[k]].next == (if k == |s| - 1 then NONE else s[k + 1])
            && f.links[s[k]].prev == (if k == 0 then NONE else s[k - 1])
            && (k < |s| - 1 ==> s[k + 1] in f.links && f.links[s[k + 1]].prev == s[k] && f.links[s[k + 1]].parent == p)
            && (k > 0 ==> s[k - 1] in f.links && f.links[s[k - 1]].next == s[k])
  {
    SameKeys(f);
    var s := f.kids[p];
    assert Chain(f.links, p, s);
    Neighbours(f.links, s, k);
    if k < |s| - 1 {
      Neighbours(f.links, s, k + 1);
    }
    if k > 0 {
      Neighbours(f.links, s, k - 1);
    }
    hide Chains, Parented, Listed, InRow;
  }

  /** Taking `c` leaves `a` without the successor InsertAfterChild goes on to read exactly when `c` is the last child,
      right behind `a`. */
  lemma SuccessorLost(f: Forest, a: Id, c: Id)
    requires Grown(f) && a in f.links && c in f.links && c in f.content && a != c && f.links[a].next != NONE
    requires f.links[c].parent != NONE ==> f.links[c].parent in f.links
    ensures Taken(f, c).links[a].next == NONE <==> f.links[a].next == c && f.links[c].next == NONE
  {
    NextAndPrevious(f, a);
    NextAndPrevious(f, c);
    hide Grown, Moved, Without;
  }

  /** A document with two unlinked nodes. */
  lemma TwoCreated(x: Content) returns (f: Forest)
    requires x.attributes == []
    ensures Sound(f) && f.detached == {} && f.root == 0 && f.links.Keys == {0, 1, 2} && KidsOf(f.kids, 0) == []
    ensures f.links[0].parent == f.links[1].parent == f.links[2].parent == NONE
  {
    hide Sound;
    NewForestSound();
    CreatedSound(NewForest(), x);
    CreatedSound(Created(NewForest(), x), x);
    f := Created(Created(NewForest(), x), x);
  }

  lemma Placed(f: Forest, p: Id, k: nat, c: Id)
    requires Sound(f) && f.detached == {} && p in f.links && f.links[p].parent == NONE && c in f.links && c != p
             && c != f.root
    requires f.links[c].parent == NONE && k <= |KidsOf(f.kids, p)|
    ensures MayMove(f, p, c) && Without(KidsOf(f.kids, p), c) == KidsOf(f.kids, p)
    ensures var r := MovedTo(f, p, k, c);
            && Sound(r) && r.detached == {} && r.links.Keys == f.links.Keys && r.root == f.root && r.next == f.next
            && KidsOf(r.kids, p) == Put(KidsOf(f.kids, p), k, c)
            && forall m :: m in f.links && m != c ==> r.links[m].parent == f.links[m].parent
  {
    hide Owned, Counted, Chains, Listed, Rooted;
    SameKeys(f);
    assert AboveOf(f.above, p) == [];
    hide Parented;
    AbsentElsewhere(f, p, c);
    WithoutAbsent(KidsOf(f.kids, p), c);
    hide Grown;
    InsertionMoves(f, p, k, c);
  }

  lemma TwoPlaced() returns (f: Forest)
    ensures Sound(f) && f.detached == {} && f.root == 0 && f.links.Keys == {0, 1, 2} && KidsOf(f.kids, 0) == [1, 2]
  {
    hide Grown, Owned, Counted, MovedTo, Without, MayMove;
    var two := TwoCreated(Content(ElementPool, ElementNode, "a", []));
    Placed(two, 0, 0, 1);
    var half := MovedTo(two, 0, 0, 1);
    assert Put([], 0, 1) == [1];
    Placed(half, 0, 1, 2);
    f := MovedTo(half, 0, 1, 2);
    assert Put([1], 1, 2) == [1, 2];
  }

  /** A document with two children, the second of which is to be inserted behind the first: it already is there, and
      taking it leaves nothing to read. */
  lemma LastChildBehind() returns (f: Forest)
    ensures Sound(f) && f.detached == {} && KidsOf(f.kids, f.root) == [1, 2] && 1 in f.links && 2 in f.links
            && 2 in f.content
    ensures f.links[2].parent == f.root && f.root in f.links && f.links[1].next == 2
    ensures Taken(f, 2).links[1].next == NONE
  {
    hide Grown, Owned, Counted, Taken;
    f := TwoPlaced();
    RowNeighbours(f, 0, 0);
    RowNeighbours(f, 0, 1);
    SameKeys(f);
    SuccessorLost(f, 1, 2);
  }

  // ---------------------------------------------------------------------------------------------
  // The new document
  // ---------------------------------------------------------------------------------------------

  const NO_ALLOCS: Pools :=
      map[NoPool := Counters(0, 0), ElementPool := Counters(0, 0), AttributePool := Counters(0, 0),
                                TextPool := Counters(0, 0), CommentPool := Counters(0, 0)]

  ghost function NewForest(): Forest {
    Forest(0, 1, map[0 := LONELY], map[0 := []], map[0 := []], map[0 := Content(NoPool, DocumentNode, "", [])], [],
           NO_ALLOCS, {})
  }

  lemma NewForestSound()
    ensures Sound(NewForest())
  {
    var f := NewForest();
    assert Sound(f) by {
      assert Grown(f) by {
        NewForestGrown();
      }
      forall k: PoolKind
        ensures k in f.pools && (k != NoPool ==> f.pools[k] == Tally(f.content, SetOf(f.unlinked), k))
      {
        assert k != NoPool ==> OfPool(f.content, f.content.Keys, k) == {};
        assert OfPool(f.content, SetOf(f.unlinked), k) == {};
        assert Slots(f.content) == {};
      }
    }
  }

  lemma NewForestGrown()
    ensures Grown(NewForest())
  {
    var none: Links, noKids: Kids, noAbove: Ancestors := map[], map[], map[];
    CreatedConsistent(none, noKids, noAbove, 0);
    hide Consistent;
    assert none[0 := LONELY] == map[0 := LONELY] && noKids[0 := []] == map[0 := []];
  }

  /** No link leads to a name not yet used. */
  lemma NothingLeadsToNext(f: Forest, n: Id)
    requires Grown(f) && n in f.links
    ensures var x := f.links[n];
            x.parent != f.next && x.prev != f.next && x.next != f.next && x.firstChild != f.next
            && x.lastChild != f.next
  {
    hide Consistent;
    KnownParent(f, n);
    Row(f, n);
    if f.links[n].parent != NONE {
      UnlinkTouches(f, n);
    } else {
      AloneIsAlone(f, n);
    }
  }

  lemma AloneIsAlone(f: Forest, n: Id)
    requires Grown(f) && n in f.links && f.links[n].parent == NONE
    ensures f.links[n].prev == NONE && f.links[n].next == NONE
  {
    hide Chains, Parented;
    assert InList(f.links, f.kids, n);
  }

  // ---------------------------------------------------------------------------------------------
  // What the deletions rely on
  // ---------------------------------------------------------------------------------------------

  /** An unlinked child can be deleted. */
  lemma UnlinkedCanGo(f: Forest, p: Id, c: Id, g: Forest)
    requires Sound(f) && IsTakenOff(f, p, c, g)
    ensures Sound(g) && MarkedInUse(g, c) == g && c != g.root && g.links[c].parent == NONE
    ensures Below<Id>(g.above, c) < Below<Id>(f.above, p)
  {
    hide Grown, Owned, Counted, TakenOff, MarkedInUse, Below;
    NotDetached(f, c);
    KnownParent(f, c);
    TakenSound(f, c);
    SoundParts(g);
    MarkedAlready(g, c);
    SubtreeShrinks(f, p, c);
  }

  lemma SoundParts(f: Forest)
    requires Sound(f)
    ensures Grown(f) && Owned(f) && Counted(f)
  {
  }

  lemma NotDetached(f: Forest, c: Id)
    requires Owned(f) && c in f.links && f.links[c].parent != NONE
    ensures c !in f.detached
  {
  }

  lemma SubtreeShrinks(f: Forest, p: Id, c: Id)
    requires Grown(f) && c in f.links && f.links[c].parent == p && p in f.links
    ensures Below<Id>(TakenOff(f, c).above, c) < Below<Id>(f.above, p)
  {
    hide Chains, Listed, Rooted, Unlinked, Without;
    SameKeys(f);
    AncestorsRooted(f);
    MovedBelow(f.above, c, []);
    BelowShrinks(f.above, p, c);
    hide Moved;
  }

  /** No link leads to a node without relatives. */
  lemma NothingLeadsTo(f: Forest, c: Id, n: Id)
    requires Grown(f) && c in f.links && n in f.links && f.links[c].parent == NONE && KidsOf(f.kids, c) == []
    ensures var x := f.links[n];
            x.parent != c && x.prev != c && x.next != c && x.firstChild != c && x.lastChild != c
  {
    hide Consistent;
    if f.links[n].parent != NONE {
      SiblingsHaveParents(f, n);
      KnownParent(f, n);
      ParentHasKids(f, n);
    } else {
      AloneIsAlone(f, n);
    }
    EndsHaveParents(f, n);
  }

  lemma SiblingsHaveParents(f: Forest, n: Id)
    requires Grown(f) && n in f.links && f.links[n].parent != NONE
    ensures var x := f.links[n];
            (x.prev != NONE ==> IsChild(f.links, x.parent, x.prev)) && (x.next != NONE ==>
                    IsChild(f.links, x.parent, x.next))
  {
    hide Chains, Parented, Listed, InRow;
    KnownParent(f, n);
    ChildIsListed(f, f.links[n].parent, n);
    var s := KidsOf(f.kids, f.links[n].parent);
    var k :| 0 <= k < |s| && s[k] == n;
    NeighbourChildren(f.links, f.links[n].parent, s, k);
  }

  lemma ParentHasKids(f: Forest, n: Id)
    requires Grown(f) && n in f.links && f.links[n].parent in f.links
    ensures KidsOf(f.kids, f.links[n].parent) != []
  {
    hide Consistent;
    ChildIsListed(f, f.links[n].parent, n);
  }

  lemma EndsHaveParents(f: Forest, n: Id)
    requires Grown(f) && n in f.links
    ensures var x := f.links[n];
            && (x.firstChild != NONE ==> IsChild(f.links, n, x.firstChild))
            && (x.lastChild != NONE ==> IsChild(f.links, n, x.lastChild))
  {
    hide Parented, Listed, InRow, Distinct;
    SameKeys(f);
    assert Chain(f.links, n, f.kids[n]);
  }

  /** The node without parent can be deleted: once it is off the list, the bookkeeping is right. */
  ghost predicate CanGo(f: Forest, c: Id) {
    c in f.links && f.links[c].parent == NONE && c != f.root && Grown(f) && Sound(MarkedInUse(f, c))
  }

  lemma CanGoParts(f: Forest, c: Id)
    requires CanGo(f, c)
    ensures c in f.links && c != f.root && Sound(MarkedInUse(f, c))
  {
  }

  lemma NothingThinnedYet(f: Forest, n: Id)
    requires Sound(f) && n in f.links
    ensures Thinned(f, n, f)
  {
    NothingThinned(f, n);
    hide Grown, Owned, Counted;
  }

  lemma ThinnedFurther(f: Forest, n: Id, m: Forest, c: Id, r: Forest)
    requires Sound(f) && n in f.links && Thinned(f, n, m) && Sound(m) && n in m.links
    requires KidsOf(m.kids, n) != [] && KidsOf(m.kids, n)[0] == c && ChildDeleted(m, n, c, r)
    ensures Thinned(f, n, r) && Below<Id>(r.above, n) < Below<Id>(m.above, n)
  {
    hide Grown, Owned, Counted, Thinned, ChildDeleted, Below;
    ThinnedStep(f, n, m, c, r);
  }

  lemma ThinnedOut(f: Forest, n: Id, m: Forest)
    requires Sound(f) && n in f.links && Thinned(f, n, m) && Sound(m) && n in m.links && KidsOf(m.kids, n) == []
    ensures ChildrenDeleted(f, n, m)
  {
    hide Grown, Owned, Counted, Thinned, ChildrenDeleted;
    AllThinned(f, n, m);
  }

  lemma ChildGone(f: Forest, p: Id, c: Id, g: Forest, r: Forest)
    requires Sound(f) && IsTakenOff(f, p, c, g) && NodeDeleted(g, c, r)
    ensures ChildDeleted(f, p, c, r) && p in r.links
  {
    hide Grown, Owned, Counted, TakenOff, NodeDeleted, Subtree;
    UnlinkedAndDeleted(f, c, r);
    ParentNotUnder(f, c);
  }

  lemma ParentNotUnder(f: Forest, c: Id)
    requires Grown(f) && c in f.links && f.links[c].parent in f.links
    ensures f.links[c].parent !in Subtree(f, c)
  {
    hide Chains, Listed, Below, Rooted;
    SameKeys(f);
    AncestorsRooted(f);
    BelowShrinks<Id>(f.above, f.links[c].parent, c);
    NotUnderItself(f, f.links[c].parent);
  }

  lemma NodeGone(f: Forest, c: Id, m: Forest, r: Forest)
    requires CanGo(f, c) && c in f.content && ChildrenDeleted(WithAttributes(MarkedInUse(f, c), c, []), c, m)
             && Sound(m)
    requires IsFreed(m, c, r)
    ensures NodeDeleted(f, c, r) && Sound(r)
  {
    hide Grown, Owned, Counted, MarkedInUse, NodeDeleted, Freed;
    assert c in m.detached;
    EmptiedAndFreed(f, c, m);
  }

  ghost predicate IsFreed(m: Forest, c: Id, r: Forest) {
    c in m.content && r == Freed(m, c)
  }

  lemma UnlinkedIsDoomed(f: Forest, p: Id, c: Id, g: Forest)
    requires Sound(f) && IsTakenOff(f, p, c, g)
    ensures CanGo(g, c) && Below<Id>(g.above, c) < Below<Id>(f.above, p)
  {
    hide Grown, Owned, Counted, TakenOff, MarkedInUse, Below;
    UnlinkedCanGo(f, p, c, g);
  }

  /** The emptied node can be freed. */
  lemma EmptiedIsFree(f: Forest, c: Id, m: Forest)
    requires CanGo(f, c) && c in f.content && ChildrenDeleted(WithAttributes(MarkedInUse(f, c), c, []), c, m)
    ensures c in m.detached && KidsOf(m.kids, c) == []
  {
    hide Grown, Owned, Counted, Subtree;
  }

  lemma DetachedNotListed(f: Forest, c: Id)
    requires Owned(f) && c in f.detached
    ensures c !in f.unlinked
  {
    MultisetSets(f.unlinked);
  }

  /** XMLDocument::DeleteNode. */
  ghost predicate IsDeleted(f: Forest, c: Id, r: Forest) {
    && c in f.links
    && if f.links[c].parent == NONE then NodeDeleted(f, c, r)
       else f.links[c].parent in f.links && ChildDeleted(f, f.links[c].parent, c, r)
  }

  ghost function Tracked(f: Forest, c: Id): Forest {
    if c in f.content then f.(pools := Count(f.pools, f.content[c].pool, 0, -1)) else f
  }

  /** A node that was never used can be deleted once it is tracked. */
  lemma TrackedCanGo(f: Forest, c: Id)
    requires Sound(f) && f.detached == {} && c in f.links && c != f.root && f.links[c].parent == NONE
    ensures CanGo(Tracked(f, c), c)
  {
    hide Consistent, Owned, Counted, Count, IndexOf, SwapRemoved;
    TakenSound(f, c);
    assert MarkedInUse(Tracked(f, c), c) == Claimed(f, c);
  }

  lemma TrackedDeleted(f: Forest, c: Id, r: Forest)
    requires Sound(f) && f.detached == {} && c in f.links && f.links[c].parent == NONE
             && NodeDeleted(Tracked(f, c), c, r)
    ensures IsDeleted(f, c, r) && r.detached == {}
  {
    hide Grown, Owned, Counted, Count, IndexOf, SwapRemoved, Below;
  }

  /** Deleting a parentless node shortens the list and does not touch the document's children. */
  lemma UnlinkedDeleted(f: Forest, c: Id, r: Forest)
    requires Sound(f) && f.detached == {} && c in f.unlinked && IsDeleted(f, c, r)
    ensures c != f.root && |r.unlinked| < |f.unlinked| && KidsOf(r.kids, f.root) == KidsOf(f.kids, f.root)
            && r.root == f.root
  {
    hide Counted, Consistent, Below;
    MultisetSets(f.unlinked);
    RootNotUnder(f, c);
    hide Grown;
  }

  lemma RootNotUnder(f: Forest, c: Id)
    requires Grown(f)
    ensures f.root !in Below<Id>(f.above, c)
  {
    hide Chains, Listed;
    SameKeys(f);
  }

  lemma ChildIsDeleted(f: Forest, c: Id, r: Forest)
    requires c in f.links && f.links[c].parent in f.links && ChildDeleted(f, f.links[c].parent, c, r)
    ensures IsDeleted(f, c, r) && r.detached == f.detached
  {
    hide Below, Without;
  }

  lemma ChildrenDeletedParts(f: Forest, n: Id, r: Forest)
    requires ChildrenDeleted(f, n, r)
    ensures r.detached == f.detached && KidsOf(r.kids, n) == [] && r.root == f.root
  {
  }

  /** The `k`-th child leads to the next one. */
  lemma KidNext(f: Forest, n: Id, k: nat)
    requires Grown(f) && n in f.content && k < |KidsOf(f.kids, n)|
    ensures var s := KidsOf(f.kids, n);
            && s[k] in f.links && f.links[s[k]].next == (if k + 1 == |s| then NONE else s[k + 1])
            && (k + 1 < |s| ==> s[k + 1] in f.links)
  {
    hide Parented, Listed, Held;
    SameKeys(f);
    assert Chain(f.links, n, f.kids[n]);
    Neighbours(f.links, f.kids[n], k);
  }
}
