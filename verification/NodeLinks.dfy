/** The links between the nodes of a document as a value (XMLNode): when they form a forest of ordered trees, and
    why relinking keeps it one. A node is named by a number; no node is named NONE. */
module NodeLinks {
  import opened Ancestry
  import opened ChildLists

  type Id = nat

  type Ref = int

  const NONE := -1

  datatype Link = Link(parent: Ref, prev: Ref, next: Ref, firstChild: Ref, lastChild: Ref)

  type Links = map<Id, Link>

  type Kids = map<Id, seq<Id>>

  type Ancestors = map<Id, seq<Id>>

  ghost function First(s: seq<Id>): Ref {
    if s == [] then NONE else s[0]
  }

  ghost function Last(s: seq<Id>): Ref {
    if s == [] then NONE else s[|s| - 1]
  }

  /** `p` is the parent of just the nodes of `s`, and knows the ends. */
  ghost predicate Held(l: Links, p: Id, s: seq<Id>) {
    && p in l && l[p].firstChild == First(s) && l[p].lastChild == Last(s)
    && Distinct(s)
    && (forall i :: 0 <= i < |s| ==> s[i] in l && l[s[i]].parent == p)
  }

  /** The nodes of `s` are linked in this order. */
  ghost predicate InRow(l: Links, s: seq<Id>) {
    && (forall i :: 0 <= i < |s| ==> s[i] in l)
    && (s != [] ==> l[s[0]].prev == NONE && l[s[|s| - 1]].next == NONE)
    && (forall i, j :: 0 <= i && j == i + 1 && j < |s| ==> l[s[i]].next == s[j] && l[s[j]].prev == s[i])
  }

  /** The links of `p` and its children spell out the child list `s`. */
  ghost predicate Chain(l: Links, p: Id, s: seq<Id>) {
    Held(l, p, s) && InRow(l, s)
  }

  ghost function Parent(above: Ancestors, n: Id): Ref
    requires n in above
  {
    if above[n] == [] then NONE else above[n][0]
  }

  ghost predicate Chains(l: Links, kids: Kids) {
    l.Keys == kids.Keys && forall p {:trigger kids[p]} :: p in l ==> Chain(l, p, kids[p])
  }

  ghost predicate Parented(l: Links, above: Ancestors) {
    && l.Keys == above.Keys && Rooted(above)
    && (forall n :: n in l ==> l[n].parent == Parent(above, n))
  }

  /** A node with a parent is in its child list; one without has no siblings. */
  ghost predicate InList(l: Links, kids: Kids, n: Id)
    requires n in l && l.Keys == kids.Keys
  {
    if l[n].parent == NONE then l[n].prev == NONE && l[n].next == NONE
    else l[n].parent in l && n in kids[l[n].parent]
  }

  ghost predicate Listed(l: Links, kids: Kids) {
    l.Keys == kids.Keys && forall n {:trigger InList(l, kids, n)} :: n in l ==> InList(l, kids, n)
  }

  /** The links form a forest: they spell out the child lists, every node is in the list of its parent, and no
      node is above itself. */
  ghost predicate Consistent(l: Links, kids: Kids, above: Ancestors) {
    Chains(l, kids) && Parented(l, above) && Listed(l, kids)
  }

  /** The links after `c` is taken out of its list. */
  ghost function Unlinked(l: Links, c: Id): (r: Links)
    requires c in l
    ensures r.Keys == l.Keys
  {
    var x := l[c];
    map n | n in l :: Link(
      if n == c then NONE else l[n].parent,
      if n == c then NONE else if n == x.next then x.prev else l[n].prev,
      if n == c then NONE else if n == x.prev then x.next else l[n].next,
      if n == x.parent && l[n].firstChild == c then x.next else l[n].firstChild,
      if n == x.parent && l[n].lastChild == c then x.prev else l[n].lastChild)
  }

  lemma UnlinkedAt(l: Links, c: Id, n: Id)
    requires c in l && n in l
    ensures var x, r := l[c], Unlinked(l, c)[n];
            && r.parent == (if n == c then NONE else l[n].parent)
            && r.prev == (if n == c then NONE else if n == x.next then x.prev else l[n].prev)
            && r.next == (if n == c then NONE else if n == x.prev then x.next else l[n].next)
            && r.firstChild == (if n == x.parent && l[n].firstChild == c then x.next else l[n].firstChild)
            && r.lastChild == (if n == x.parent && l[n].lastChild == c then x.prev else l[n].lastChild)
  {
  }

  /** The neighbours of a child. */
  lemma Neighbours(l: Links, s: seq<Id>, k: nat)
    requires InRow(l, s) && k < |s|
    ensures s[k] in l && l[s[k]].prev == (if k == 0 then NONE else s[k - 1])
    ensures l[s[k]].next == (if k == |s| - 1 then NONE else s[k + 1])
  {
  }

  ghost function Dropped(s: seq<Id>, k: nat): seq<Id>
    requires k < |s|
  {
    s[..k] + s[k + 1..]
  }

  lemma DroppedAt(s: seq<Id>, k: nat)
    requires k < |s|
    ensures |Dropped(s, k)| == |s| - 1
    ensures forall i :: 0 <= i < |Dropped(s, k)| ==> Dropped(s, k)[i] == s[if i < k then i else i + 1]
  {
  }

  lemma UnlinkedHeld(l: Links, p: Id, s: seq<Id>, k: nat)
    requires Held(l, p, s) && InRow(l, s) && k < |s| && s[k] != p
    ensures Held(Unlinked(l, s[k]), p, Dropped(s, k))
  {
    Neighbours(l, s, k);
    DroppedAt(s, k);
    hide InRow, Dropped;
  }

  lemma UnlinkedInRow(l: Links, p: Id, s: seq<Id>, k: nat)
    requires Distinct(s) && InRow(l, s) && k < |s|
    ensures InRow(Unlinked(l, s[k]), Dropped(s, k))
  {
    Neighbours(l, s, k);
    DroppedAt(s, k);
    hide Dropped;
  }

  lemma UnlinkedElsewhere(l: Links, p: Id, s: seq<Id>, k: nat, q: Id, t: seq<Id>)
    requires Chain(l, p, s) && k < |s| && q != p && Chain(l, q, t)
    ensures Chain(Unlinked(l, s[k]), q, t)
  {
    Neighbours(l, s, k);
  }

  /** The links after the parentless `c` is put into the list of `p`, after `a` or in front when `a` is NONE. */
  ghost function Inserted(l: Links, p: Id, a: Ref, c: Id): (r: Links)
    requires p in l && c in l
    ensures r.Keys == l.Keys
  {
    var b := if a == NONE then l[p].firstChild else if a in l then l[a].next else NONE;
    map n | n in l :: Link(
      if n == c then p else l[n].parent,
      if n == c then a else if n == b then c else l[n].prev,
      if n == c then b else if n == a then c else l[n].next,
      if n == p && a == NONE then c else l[n].firstChild,
      if n == p && b == NONE then c else l[n].lastChild)
  }

  lemma InsertedAt(l: Links, p: Id, a: Ref, c: Id, n: Id)
    requires p in l && c in l && n in l && (a != NONE ==> a in l)
    ensures var r, b := Inserted(l, p, a, c)[n], if a == NONE then l[p].firstChild else l[a].next;
            && r.parent == (if n == c then p else l[n].parent)
            && r.prev == (if n == c then a else if n == b then c else l[n].prev)
            && r.next == (if n == c then b else if n == a then c else l[n].next)
            && r.firstChild == (if n == p && a == NONE then c else l[n].firstChild)
            && r.lastChild == (if n == p && b == NONE then c else l[n].lastChild)
  {
  }

  /** The node at the end of the first `k`, NONE when there is none. */
  ghost function Before(s: seq<Id>, k: nat): Ref
    requires k <= |s|
  {
    if k == 0 then NONE else s[k - 1]
  }

  ghost function Put(s: seq<Id>, k: nat, c: Id): seq<Id>
    requires k <= |s|
  {
    s[..k] + [c] + s[k..]
  }

  lemma PutAt(s: seq<Id>, k: nat, c: Id)
    requires k <= |s|
    ensures |Put(s, k, c)| == |s| + 1
    ensures forall i :: 0 <= i < |Put(s, k, c)| ==>
              Put(s, k, c)[i] == if i < k then s[i] else if i == k then c else s[i - 1]
  {
  }

  lemma InsertedHeld(l: Links, p: Id, s: seq<Id>, k: nat, c: Id)
    requires Held(l, p, s) && InRow(l, s) && k <= |s| && c in l && c != p && c !in s
    ensures Held(Inserted(l, p, Before(s, k), c), p, Put(s, k, c))
  {
    if k > 0 {
      Neighbours(l, s, k - 1);
    }
    PutAt(s, k, c);
    hide InRow, Put;
  }

  lemma InsertedInRow(l: Links, p: Id, s: seq<Id>, k: nat, c: Id)
    requires Distinct(s) && InRow(l, s) && k <= |s| && p in l && l[p].firstChild == First(s) && c in l && c !in s
    ensures InRow(Inserted(l, p, Before(s, k), c), Put(s, k, c))
  {
    hide Put, Inserted, Before, After, InRow;
    PutAt(s, k, c);
    var t, r := Put(s, k, c), Inserted(l, p, Before(s, k), c);
    forall i | 0 <= i < |t|
      ensures t[i] in l && r[t[i]].prev == Before(t, i) && r[t[i]].next == After(t, i)
    {
      InsertedNeighbours(l, p, s, k, c, i);
    }
    RowByNeighbours(r, t);
  }

  /** The node behind the `k`-th, NONE when it is the last. */
  ghost function After(s: seq<Id>, k: nat): Ref
    requires k < |s|
  {
    if k == |s| - 1 then NONE else s[k + 1]
  }

  /** The neighbours of the `i`-th node after the insertion. */
  lemma InsertedNeighbours(l: Links, p: Id, s: seq<Id>, k: nat, c: Id, i: nat)
    requires Distinct(s) && InRow(l, s) && i <= |s| && k <= |s|
    requires p in l && l[p].firstChild == First(s) && c in l && c !in s
    ensures var t, r := Put(s, k, c), Inserted(l, p, Before(s, k), c);
            |t| == |s| + 1 && t[i] in l && r[t[i]].prev == Before(t, i) && r[t[i]].next == After(t, i)
  {
    hide Inserted;
    PutAt(s, k, c);
    if k > 0 {
      Neighbours(l, s, k - 1);
    }
    if i != k {
      var j := if i < k then i else i - 1;
      Neighbours(l, s, j);
      assert k > 0 ==> (s[j] == s[k - 1] <==> j == k - 1);
      assert k < |s| ==> (s[j] == s[k] <==> j == k);
    }
    InsertedAt(l, p, Before(s, k), c, Put(s, k, c)[i]);
  }

  lemma RowByNeighbours(l: Links, t: seq<Id>)
    requires forall i :: 0 <= i < |t| ==> t[i] in l && l[t[i]].prev == Before(t, i) && l[t[i]].next == After(t, i)
    ensures InRow(l, t)
  {
    forall i, j | 0 <= i && j == i + 1 && j < |t|
      ensures l[t[i]].next == t[j] && l[t[j]].prev == t[i]
    {
      assert Before(t, j) == t[i] && After(t, i) == t[j];
    }
    if t != [] {
      assert Before(t, 0) == NONE && After(t, |t| - 1) == NONE;
    }
  }

  lemma InsertedElsewhere(l: Links, p: Id, s: seq<Id>, k: nat, c: Id, q: Id, t: seq<Id>)
    requires Chain(l, p, s) && k <= |s| && c in l && c !in s && l[c].parent == NONE && q != p && Chain(l, q, t)
    ensures Chain(Inserted(l, p, Before(s, k), c), q, t)
  {
    if k > 0 {
      Neighbours(l, s, k - 1);
    }
  }

  lemma ParentIsOther(l: Links, kids: Kids, above: Ancestors, c: Id)
    requires Consistent(l, kids, above) && c in l && l[c].parent != NONE
    ensures l[c].parent in l && l[c].parent != c && c in kids[l[c].parent] && Distinct(kids[l[c].parent])
  {
    NotAboveItself(above, c);
    assert above[c][0] in above[c];
    assert InList(l, kids, c);
    assert Chain(l, l[c].parent, kids[l[c].parent]);
    hide InRow;
  }

  lemma UnlinkedChains(l: Links, kids: Kids, p: Id, k: nat)
    requires Chains(l, kids) && p in l && k < |kids[p]| && kids[p][k] != p
    ensures kids[p][k] in l && Chains(Unlinked(l, kids[p][k]), kids[p := Dropped(kids[p], k)])
  {
    hide Held, InRow, Unlinked, Dropped;
    var s := kids[p];
    assert Chain(l, p, s);
    Neighbours(l, s, k);
    HeldEnds(l, p, s);
    UnlinkedHeld(l, p, s, k);
    UnlinkedInRow(l, p, s, k);
    var r, kids' := Unlinked(l, s[k]), kids[p := Dropped(s, k)];
    forall q | q in r
      ensures Chain(r, q, kids'[q])
    {
      if q != p {
        UnlinkedElsewhere(l, p, s, k, q, kids[q]);
      }
    }
  }

  lemma UnlinkedParented(l: Links, above: Ancestors, c: Id)
    requires Parented(l, above) && c in l
    ensures Parented(Unlinked(l, c), Moved(above, c, []))
  {
    MovedIsRooted(above, c, []);
    MovedParents(above, c, []);
    hide Rooted, Moved;
  }

  lemma UnlinkedListed(l: Links, kids: Kids, p: Id, k: nat)
    requires Listed(l, kids) && p in l && k < |kids[p]| && IsChild(l, p, kids[p][k])
    requires l[kids[p][k]].prev != NONE ==> IsChild(l, p, l[kids[p][k]].prev)
    requires l[kids[p][k]].next != NONE ==> IsChild(l, p, l[kids[p][k]].next)
    ensures Listed(Unlinked(l, kids[p][k]), kids[p := Dropped(kids[p], k)])
  {
    var s := kids[p];
    assert forall n :: n in s && n != s[k] ==> n in Dropped(s, k) by {
      assert s == s[..k] + [s[k]] + s[k + 1..];
    }
    hide Dropped;
    var r, kids' := Unlinked(l, kids[p][k]), kids[p := Dropped(kids[p], k)];
    forall n | n in r
      ensures InList(r, kids', n)
    {
      assert InList(l, kids, n);
    }
  }

  lemma NeighbourChildren(l: Links, p: Id, s: seq<Id>, k: nat)
    requires Chain(l, p, s) && k < |s|
    ensures IsChild(l, p, s[k])
    ensures l[s[k]].prev != NONE ==> IsChild(l, p, l[s[k]].prev)
    ensures l[s[k]].next != NONE ==> IsChild(l, p, l[s[k]].next)
  {
    Neighbours(l, s, k);
    hide InRow;
  }

  /** Unlinking keeps the forest: the node becomes the root of its own tree. */
  lemma UnlinkedConsistent(l: Links, kids: Kids, above: Ancestors, c: Id)
    requires Consistent(l, kids, above) && c in l && l[c].parent != NONE
    ensures l[c].parent in l
    ensures Consistent(Unlinked(l, c), kids[l[c].parent := Without(kids[l[c].parent], c)], Moved(above, c, []))
  {
    ParentIsOther(l, kids, above, c);
    var p := l[c].parent;
    var k :| 0 <= k < |kids[p]| && kids[p][k] == c;
    assert Chain(l, p, kids[p]);
    WithoutAt(kids[p], k);
    assert Without(kids[p], c) == Dropped(kids[p], k);
    NeighbourChildren(l, p, kids[p], k);
    hide Chains, Parented, Unlinked, Dropped, Without, InRow, Held;
    UnlinkedListed(l, kids, p, k);
    UnlinkedChains(l, kids, p, k);
    UnlinkedParented(l, above, c);
  }

  lemma InsertedChains(l: Links, kids: Kids, p: Id, k: nat, c: Id)
    requires Chains(l, kids) && p in l && k <= |kids[p]| && c in l && c != p && l[c].parent == NONE
    ensures k > 0 ==> kids[p][k - 1] in l
    ensures Chains(Inserted(l, p, Before(kids[p], k), c), kids[p := Put(kids[p], k, c)])
  {
    hide Held, InRow, Inserted, Put;
    var s := kids[p];
    assert Chain(l, p, s);
    NotHeld(l, p, s, c);
    InRowKnown(l, s);
    HeldEnds(l, p, s);
    InsertedHeld(l, p, s, k, c);
    InsertedInRow(l, p, s, k, c);
    var r, kids' := Inserted(l, p, Before(s, k), c), kids[p := Put(s, k, c)];
    forall q | q in r
      ensures Chain(r, q, kids'[q])
    {
      if q != p {
        InsertedElsewhere(l, p, s, k, c, q, kids[q]);
      }
    }
  }

  lemma HeldEnds(l: Links, p: Id, s: seq<Id>)
    requires Held(l, p, s)
    ensures p in l && l[p].firstChild == First(s) && Distinct(s)
  {
  }

  lemma NotHeld(l: Links, p: Id, s: seq<Id>, c: Id)
    requires Held(l, p, s) && c in l && l[c].parent == NONE
    ensures c !in s
  {
  }

  lemma InRowKnown(l: Links, s: seq<Id>)
    requires InRow(l, s)
    ensures forall i :: 0 <= i < |s| ==> s[i] in l
  {
  }

  lemma InsertedParented(l: Links, above: Ancestors, p: Id, a: Ref, c: Id)
    requires Parented(l, above) && c in l && p in l && c != p && c !in above[p] && (a != NONE ==> a in l)
    ensures Parented(Inserted(l, p, a, c), Moved(above, c, [p] + above[p]))
  {
    MovedIsRooted(above, c, [p] + above[p]);
    MovedParents(above, c, [p] + above[p]);
    hide Rooted, Moved;
  }

  lemma InsertedListed(l: Links, kids: Kids, p: Id, k: nat, c: Id)
    requires Listed(l, kids) && p in l && k <= |kids[p]| && c in l && c != p && l[c].parent == NONE
    requires k > 0 ==> IsChild(l, p, kids[p][k - 1])
    requires var b := if k == 0 then l[p].firstChild else l[kids[p][k - 1]].next; b != NONE ==> IsChild(l, p, b)
    ensures Listed(Inserted(l, p, Before(kids[p], k), c), kids[p := Put(kids[p], k, c)])
  {
    var s := kids[p];
    assert forall n :: n in s || n == c ==> n in Put(s, k, c) by {
      assert s == s[..k] + s[k..];
    }
    hide Put;
    var r, kids' := Inserted(l, p, Before(s, k), c), kids[p := Put(kids[p], k, c)];
    forall n | n in r
      ensures InList(r, kids', n)
    {
      assert InList(l, kids, n);
    }
  }

  ghost predicate IsChild(l: Links, p: Id, n: Ref) {
    n in l && l[n].parent == p
  }

  /** The neighbours of the gap before index `k` are children, or NONE. */
  lemma GapNeighbours(l: Links, p: Id, s: seq<Id>, k: nat)
    requires Chain(l, p, s) && k <= |s|
    ensures k > 0 ==> IsChild(l, p, s[k - 1])
    ensures var b := if k == 0 then l[p].firstChild else l[s[k - 1]].next; b != NONE ==> IsChild(l, p, b)
  {
    if k > 0 {
      Neighbours(l, s, k - 1);
    }
    hide InRow;
  }

  /** Linking a parentless node keeps the forest, whenever the new parent is not the node itself or below it. */
  lemma InsertedConsistent(l: Links, kids: Kids, above: Ancestors, p: Id, k: nat, c: Id)
    requires Consistent(l, kids, above) && p in l && k <= |kids[p]| && c in l && l[c].parent == NONE
    requires c != p && c !in above[p]
    ensures k > 0 ==> kids[p][k - 1] in l
    ensures Consistent(Inserted(l, p, Before(kids[p], k), c), kids[p := Put(kids[p], k, c)],
                       Moved(above, c, [p] + above[p]))
  {
    InsertedChains(l, kids, p, k, c);
    assert Chain(l, p, kids[p]);
    hide Held, InRow, Chains;
    GapNeighbours(l, p, kids[p], k);
    hide Chain, Parented, Inserted, Put, InRow;
    InsertedParented(l, above, p, Before(kids[p], k), c);
    InsertedListed(l, kids, p, k, c);
  }

  /** A node without relatives can go. */
  lemma RemovedConsistent(l: Links, kids: Kids, above: Ancestors, c: Id)
    requires Consistent(l, kids, above) && c in l && l[c].parent == NONE && kids[c] == []
    ensures Consistent(l - {c}, kids - {c}, above - {c})
  {
    RemovedParented(l, kids, above, c);
    RemovedChains(l, kids, c);
    RemovedListed(l, kids, c);
    hide Chains, Parented, Listed;
  }

  lemma RemovedListed(l: Links, kids: Kids, c: Id)
    requires Listed(l, kids) && c in l && l[c].parent == NONE && kids[c] == []
    ensures Listed(l - {c}, kids - {c})
  {
    var r, kids' := l - {c}, kids - {c};
    forall n | n in r
      ensures InList(r, kids', n)
    {
      assert InList(l, kids, n);
    }
  }

  lemma RemovedParented(l: Links, kids: Kids, above: Ancestors, c: Id)
    requires Consistent(l, kids, above) && c in l && l[c].parent == NONE && kids[c] == []
    ensures Parented(l - {c}, above - {c})
  {
    hide Chains;
    NothingBelow(l, kids, above, c);
    RemovedIsRooted(above, c);
    hide Rooted, Below;
  }

  lemma RemovedChains(l: Links, kids: Kids, c: Id)
    requires Chains(l, kids) && c in l && l[c].parent == NONE
    ensures Chains(l - {c}, kids - {c})
  {
    hide Chain;
    forall q | q in l && q != c
      ensures Chain(l - {c}, q, kids[q])
    {
      RemovedChain(l, q, kids[q], c);
    }
  }

  lemma RemovedChain(l: Links, q: Id, s: seq<Id>, c: Id)
    requires Chain(l, q, s) && c in l && l[c].parent == NONE && q != c
    ensures Chain(l - {c}, q, s)
  {
  }

  lemma NothingBelow(l: Links, kids: Kids, above: Ancestors, c: Id)
    requires Consistent(l, kids, above) && c in l && kids[c] == []
    ensures Below(above, c) == {}
  {
    hide Chains, Rooted;
    NoChild(l, kids, above, c);
    hide Listed;
    if n: Id :| n in above && c in above[n] {
      var k :| 0 <= k < |above[n]| && above[n][k] == c;
      ChildTowards(above, n, k);
    }
  }

  lemma NoChild(l: Links, kids: Kids, above: Ancestors, c: Id)
    requires Consistent(l, kids, above) && c in l && kids[c] == []
    ensures forall n :: n in above ==> Parent(above, n) != c
  {
    hide Chains, Rooted;
    forall n | n in l
      ensures l[n].parent != c
    {
      assert InList(l, kids, n);
    }
  }

  /** The ancestor at index `k` has a child. */
  lemma ChildTowards(above: Ancestors, n: Id, k: nat)
    requires Rooted(above) && n in above && k < |above[n]|
    ensures exists child :: child in above && Parent(above, child) == above[n][k]
  {
    assert Follows(above, n);
    if k == 0 {
      assert Parent(above, n) == above[n][0];
    } else {
      SuffixAbove(above, n, k - 1);
      assert Parent(above, above[n][k - 1]) == above[n][k];
    }
  }

  /** The pointers Unlink follows are not null, and no node is its own parent or sibling. */
  ghost predicate UnlinkIsSafe(l: Links, c: Id)
    requires c in l
  {
    var x := l[c];
    && x.parent in l && x.parent != c && x.prev != c && x.next != c
    && (x.prev != NONE ==> x.prev in l) && (x.next != NONE ==> x.next in l)
    && l[x.parent].firstChild in l && l[x.parent].lastChild in l
  }

  lemma UnlinkIsAllowed(l: Links, kids: Kids, above: Ancestors, c: Id)
    requires Consistent(l, kids, above) && c in l && l[c].parent != NONE
    ensures UnlinkIsSafe(l, c)
  {
    ParentIsOther(l, kids, above, c);
    var s := kids[l[c].parent];
    var k :| 0 <= k < |s| && s[k] == c;
    assert Chain(l, l[c].parent, s);
    Neighbours(l, s, k);
    NeighbourChildren(l, l[c].parent, s, k);
    hide InRow, Chains, Parented, Listed;
  }

  /** A new node stands alone. */
  lemma CreatedConsistent(l: Links, kids: Kids, above: Ancestors, c: Id)
    requires Consistent(l, kids, above) && c !in l
    ensures Consistent(l[c := Link(NONE, NONE, NONE, NONE, NONE)], kids[c := []], above[c := []])
  {
    CreatedChains(l, kids, c);
    CreatedParented(l, above, c);
    CreatedListed(l, kids, c);
    hide Chains, Parented, Listed;
  }

  lemma CreatedChains(l: Links, kids: Kids, c: Id)
    requires Chains(l, kids) && c !in l
    ensures Chains(l[c := Link(NONE, NONE, NONE, NONE, NONE)], kids[c := []])
  {
    hide Chain;
    var r, kids' := l[c := Link(NONE, NONE, NONE, NONE, NONE)], kids[c := []];
    forall q | q in r
      ensures Chain(r, q, kids'[q])
    {
      if q in l {
        CreatedChain(l, q, kids[q], c);
      } else {
        EmptyChain(r, c);
      }
    }
  }

  lemma CreatedChain(l: Links, q: Id, s: seq<Id>, c: Id)
    requires q in l && Chain(l, q, s) && c !in l
    ensures Chain(l[c := Link(NONE, NONE, NONE, NONE, NONE)], q, s)
  {
  }

  lemma EmptyChain(l: Links, c: Id)
    requires c in l && l[c] == Link(NONE, NONE, NONE, NONE, NONE)
    ensures Chain(l, c, [])
  {
  }

  lemma CreatedParented(l: Links, above: Ancestors, c: Id)
    requires Parented(l, above) && c !in l
    ensures Parented(l[c := Link(NONE, NONE, NONE, NONE, NONE)], above[c := []])
  {
    var above' := above[c := []];
    forall n | n in above'
      ensures Follows(above', n)
    {
      if n != c {
        assert Follows(above, n);
      }
    }
  }

  lemma CreatedListed(l: Links, kids: Kids, c: Id)
    requires Listed(l, kids) && c !in l
    ensures Listed(l[c := Link(NONE, NONE, NONE, NONE, NONE)], kids[c := []])
  {
    var r, kids' := l[c := Link(NONE, NONE, NONE, NONE, NONE)], kids[c := []];
    forall n | n in r
      ensures InList(r, kids', n)
    {
      if n != c {
        assert InList(l, kids, n);
      }
    }
  }
}
