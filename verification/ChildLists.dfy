/** Lists without repetition: taking an element out, putting one in. */
module ChildLists {
  ghost predicate Distinct<T>(s: seq<T>) {
    forall i, j :: 0 <= i < j < |s| ==> s[i] != s[j]
  }

  ghost function Without<T>(s: seq<T>, x: T): seq<T> {
    if s == [] then [] else if s[0] == x then Without(s[1..], x) else [s[0]] + Without(s[1..], x)
  }

  lemma {:induction false} WithoutAbsent<T>(s: seq<T>, x: T)
    requires x !in s
    ensures Without(s, x) == s
  {
    if s != [] {
      assert s[0] in s;
      WithoutAbsent(s[1..], x);
    }
  }

  lemma {:induction false} WithoutAt<T>(s: seq<T>, i: nat)
    requires Distinct(s) && i < |s|
    ensures Without(s, s[i]) == s[..i] + s[i + 1..]
  {
    if i == 0 {
      WithoutAbsent(s[1..], s[0]);
    } else {
      WithoutAt(s[1..], i - 1);
    }
  }

  lemma {:induction false} WithoutEnd<T>(s: seq<T>, z: T, x: T)
    ensures Without(s + [z], x) == if z == x then Without(s, x) else Without(s, x) + [z]
  {
    if s == [] {
      assert s + [z] == [z];
    } else {
      assert (s + [z])[1..] == s[1..] + [z];
      WithoutEnd(s[1..], z, x);
    }
  }

  /** Index of the first `x`, the length when there is none. */
  ghost function IndexOf<T>(s: seq<T>, x: T): (i: nat)
    ensures i <= |s| && (i < |s| ==> s[i] == x) && (i == |s| ==> x !in s)
  {
    if s == [] || s[0] == x then 0 else 1 + IndexOf(s[1..], x)
  }

  lemma {:induction false} WithoutIn<T>(s: seq<T>, x: T, y: T)
    ensures y in Without(s, x) <==> y in s && y != x
  {
    if s != [] {
      WithoutIn(s[1..], x, y);
    }
  }

  /** When `s[i]`, not the last, becomes the last as `x` leaves: exactly when `x` was its only successor. This is
      when InsertAfterChild would follow a null pointer. */
  lemma LastAfterLeaving<T>(s: seq<T>, i: nat, x: T)
    requires Distinct(s) && i + 1 < |s| && s[i] != x
    ensures Without(s, x) != []
    ensures Without(s, x)[|Without(s, x)| - 1] == s[i] <==> s[i + 1] == x && i + 2 == |s|
  {
    var n := |s| - 1;
    assert s == s[..n] + [s[n]];
    WithoutEnd(s[..n], s[n], x);
    if s[n] == x {
      WithoutAbsent(s[..n], x);
      assert s[..n][n - 1] == s[n - 1];
    }
  }

  /** The last one stays last when another leaves. */
  lemma LastStaysLast<T>(s: seq<T>, x: T)
    requires s != [] && s[|s| - 1] != x
    ensures Without(s, x) != [] && Without(s, x)[|Without(s, x)| - 1] == s[|s| - 1]
  {
    var n := |s| - 1;
    assert s == s[..n] + [s[n]];
    WithoutEnd(s[..n], s[n], x);
  }

  lemma {:induction false} WithoutDistinct<T>(s: seq<T>, x: T)
    requires Distinct(s)
    ensures Distinct(Without(s, x))
  {
    if i :| 0 <= i < |s| && s[i] == x {
      WithoutAt(s, i);
    } else {
      WithoutAbsent(s, x);
    }
  }

  lemma {:induction false} IndexIsFirst<T>(s: seq<T>, x: T)
    ensures forall j :: 0 <= j < |s| && s[j] == x ==> IndexOf(s, x) <= j
  {
    if s != [] && s[0] != x {
      IndexIsFirst(s[1..], x);
      forall j | 0 <= j < |s| && s[j] == x
        ensures IndexOf(s, x) <= j
      {
        assert s[1..][j - 1] == x;
      }
    }
  }
}
