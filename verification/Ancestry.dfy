/** Who lies above whom: for every node the list of its ancestors, nearest first. A ghost view of the parent
    links that makes them acyclic by construction. */
module Ancestry {
  /** The list of `n` starts with a known node and goes on with that node's own list. */
  ghost predicate Follows<T>(up: map<T, seq<T>>, n: T)
    requires n in up
  {
    up[n] != [] ==> up[n][0] in up && up[n][1..] == up[up[n][0]]
  }

  ghost predicate Rooted<T>(up: map<T, seq<T>>) {
    forall n {:trigger Follows(up, n)} :: n in up ==> Follows(up, n)
  }

  ghost predicate IsAbove<T>(up: map<T, seq<T>>, a: T, n: T) {
    n in up && a in up[n]
  }

  /** All nodes strictly below `a`. */
  ghost function Below<T>(up: map<T, seq<T>>, a: T): set<T> {
    set n | n in up && a in up[n]
  }

  lemma {:induction false} SuffixAbove<T>(up: map<T, seq<T>>, n: T, k: nat)
    requires Rooted(up) && n in up && k < |up[n]|
    ensures up[n][k] in up && up[up[n][k]] == up[n][k + 1..]
    decreases k
  {
    assert Follows(up, n);
    if k > 0 {
      SuffixAbove(up, up[n][0], k - 1);
      assert up[n][k] == up[n][1..][k - 1];
    }
  }

  /** No node is its own ancestor. */
  lemma NotAboveItself<T>(up: map<T, seq<T>>, n: T)
    requires Rooted(up) && n in up
    ensures n !in up[n]
  {
    if n in up[n] {
      var k :| 0 <= k < |up[n]| && up[n][k] == n;
      SuffixAbove(up, n, k);
    }
  }

  lemma AboveIsTransitive<T>(up: map<T, seq<T>>, a: T, b: T, n: T)
    requires Rooted(up) && IsAbove(up, b, n) && IsAbove(up, a, b)
    ensures IsAbove(up, a, n)
  {
    var k :| 0 <= k < |up[n]| && up[n][k] == b;
    SuffixAbove(up, n, k);
  }

  /** The nodes below a child are properly among those below its parent. */
  lemma BelowShrinks<T>(up: map<T, seq<T>>, p: T, n: T)
    requires Rooted(up) && n in up && p in up && up[n] != [] && up[n][0] == p
    ensures n in Below(up, p) && n !in Below(up, n) && Below(up, n) <= Below(up, p)
    ensures Below(up, n) < Below(up, p)
  {
    NotAboveItself(up, n);
    assert IsAbove(up, p, n) by {
      assert up[n][0] in up[n];
    }
    forall m | m in Below(up, n)
      ensures m in Below(up, p)
    {
      AboveIsTransitive(up, p, n, m);
    }
  }

  /** The list with everything above `m` replaced by `tail`. */
  ghost function Reroot<T>(s: seq<T>, m: T, tail: seq<T>): seq<T> {
    if s == [] then [] else if s[0] == m then [m] + tail else [s[0]] + Reroot(s[1..], m, tail)
  }

  /** The view after `m` and all below it hang under a node whose own list is `tail`. */
  ghost function Moved<T>(up: map<T, seq<T>>, m: T, tail: seq<T>): (r: map<T, seq<T>>)
    ensures r.Keys == up.Keys
  {
    map n | n in up :: if n == m then tail else if m in up[n] then Reroot(up[n], m, tail) else up[n]
  }

  lemma MovedAway<T>(up: map<T, seq<T>>, m: T, tail: seq<T>, n: T)
    requires Rooted(up) && m in up && n in up && n != m && up[n] != []
    ensures up[n][0] in up
    ensures Moved(up, m, tail)[n] == [up[n][0]] + Moved(up, m, tail)[up[n][0]]
  {
    assert Follows(up, n);
    var p := up[n][0];
    assert up[n] == [p] + up[p];
    if p == m {
    } else {
      assert m in up[n] <==> m in up[p];
    }
  }

  /** Moving keeps the lists in order, whenever the new parent is not the moved node and not below it. */
  lemma MovedIsRooted<T>(up: map<T, seq<T>>, m: T, tail: seq<T>)
    requires Rooted(up) && m in up
    requires tail != [] ==> tail[0] in up && tail[1..] == up[tail[0]] && m != tail[0] && m !in up[tail[0]]
    ensures Rooted(Moved(up, m, tail))
  {
    var r := Moved(up, m, tail);
    forall n | n in r
      ensures Follows(r, n)
    {
      if n != m && up[n] != [] {
        MovedAway(up, m, tail, n);
      }
    }
  }

  lemma MovedElsewhere<T>(up: map<T, seq<T>>, m: T, tail: seq<T>, n: T)
    requires n in up && n != m && m !in up[n]
    ensures Moved(up, m, tail)[n] == up[n]
  {
  }

  /** Every other node keeps its parent. */
  lemma MovedParents<T>(up: map<T, seq<T>>, m: T, tail: seq<T>)
    requires Rooted(up) && m in up
    ensures Moved(up, m, tail)[m] == tail
    ensures forall n :: n in up && n != m && up[n] == [] ==> Moved(up, m, tail)[n] == []
    ensures forall n :: n in up && n != m && up[n] != [] ==>
              Moved(up, m, tail)[n] != [] && Moved(up, m, tail)[n][0] == up[n][0]
  {
    forall n | n in up && n != m && up[n] != []
      ensures Moved(up, m, tail)[n] != [] && Moved(up, m, tail)[n][0] == up[n][0]
    {
      MovedAway(up, m, tail, n);
    }
  }

  /** What lies below the moved node stays the same. */
  lemma MovedBelow<T>(up: map<T, seq<T>>, m: T, tail: seq<T>)
    requires Rooted(up) && m in up && m !in tail
    ensures Below(Moved(up, m, tail), m) == Below(up, m)
  {
    forall n | n in up
      ensures m in Moved(up, m, tail)[n] <==> m in up[n]
    {
      NotAboveItself(up, m);
      RerootKeeps(up[n], m, tail);
    }
  }

  lemma {:induction false} RerootKeeps<T>(s: seq<T>, m: T, tail: seq<T>)
    ensures m in s ==> m in Reroot(s, m, tail)
  {
    if s != [] && s[0] != m {
      RerootKeeps(s[1..], m, tail);
    }
  }

  lemma RemovedIsRooted<T>(up: map<T, seq<T>>, m: T)
    requires Rooted(up) && Below(up, m) == {}
    ensures Rooted(up - {m})
  {
    var r := up - {m};
    forall n | n in r
      ensures Follows(r, n)
    {
      assert Follows(up, n);
      assert n !in Below(up, m);
      assert up[n] != [] ==> up[n][0] in up[n];
    }
  }
}
