/** The growing array of plain values that holds the printer's output, its stack and the unlinked nodes
    (tinyxml2.h, DynArray). */
module DynArrays {
  class DynArray<T(0)> {
    var mem: array<T>
    var size: nat

    ghost predicate Valid()
      reads this
    {
      size <= mem.Length
    }

    /** The elements in use. */
    ghost function Contents(): (s: seq<T>)
      requires Valid()
      reads this, mem
    {
      mem[..size]
    }

    constructor (initialSize: nat)
      ensures Valid() && fresh(mem) && Contents() == []
    {
      mem := new T[initialSize];
      size := 0;
    }

    /** Grows to twice the capacity asked for; the elements are copied. */
    method EnsureCapacity(cap: nat)
      requires Valid()
      modifies this`mem
      ensures Valid() && Contents() == old(Contents()) && mem.Length >= cap
      ensures mem == old(mem) || fresh(mem)
    {
      if cap > mem.Length {
        var newMem := new T[cap * 2];
        forall i | 0 <= i < size {
          newMem[i] := mem[i];
        }
        mem := newMem;
      }
    }

    method Push(t: T)
      requires Valid()
      modifies this, mem
      ensures Valid() && Contents() == old(Contents()) + [t]
      ensures mem == old(mem) || fresh(mem)
    {
      EnsureCapacity(size + 1);
      mem[size] := t;
      size := size + 1;
    }

    /** Appends `count` elements that the caller fills; returns the index of the first. */
    method PushArr(count: nat) returns (first: nat)
      requires Valid()
      modifies this, mem
      ensures Valid() && first == old(size) && size == old(size) + count
      ensures mem[..first] == old(Contents())
      ensures mem == old(mem) || fresh(mem)
    {
      EnsureCapacity(size + count);
      first := size;
      size := size + count;
    }

    method Pop() returns (t: T)
      requires Valid() && size > 0
      modifies this`size
      ensures Valid() && old(Contents()) == Contents() + [t]
      ensures mem == old(mem)
    {
      size := size - 1;
      t := mem[size];
    }

    /** Overwrites element `i` with the last one. */
    method SwapRemove(i: nat)
      requires Valid() && i < size
      modifies this`size, mem
      ensures Valid() && mem == old(mem)
      ensures Contents() == SwapRemoved(old(Contents()), i)
    {
      mem[i] := mem[size - 1];
      size := size - 1;
    }
  }

  function SwapRemoved<T>(s: seq<T>, i: nat): seq<T>
    requires i < |s|
  {
    s[i := s[|s| - 1]][..|s| - 1]
  }

  /** Exactly the element at `i` leaves; the others keep their number. */
  lemma SwapRemovedIsRemoval<T>(s: seq<T>, i: nat)
    requires i < |s|
    ensures multiset(SwapRemoved(s, i)) == multiset(s) - multiset{s[i]}
  {
    var last, r := s[|s| - 1], SwapRemoved(s, i);
    assert s[..i] + [last] + s[i + 1..] == s[i := last] == r + [last];
    assert s == s[..i] + [s[i]] + s[i + 1..];
    hide SwapRemoved;
    Replaced(s[..i], s[i], last, s[i + 1..], r);
  }

  lemma Replaced<T>(a: seq<T>, x: T, y: T, b: seq<T>, r: seq<T>)
    requires a + [y] + b == r + [y]
    ensures multiset(r) == multiset(a + [x] + b) - multiset{x}
  {
    Pieces(a, x, b);
    Pieces(a, y, b);
    assert multiset(r + [y]) == multiset(r) + multiset{y};
    Cancel(multiset(r), multiset(a) + multiset(b), y);
  }

  lemma Pieces<T>(a: seq<T>, x: T, b: seq<T>)
    ensures multiset(a + [x] + b) == multiset(a) + multiset(b) + multiset{x}
    ensures multiset(a + [x] + b) - multiset{x} == multiset(a) + multiset(b)
  {
  }

  lemma Cancel<T>(a: multiset<T>, b: multiset<T>, x: T)
    requires a + multiset{x} == b + multiset{x}
    ensures a == b
  {
    assert a == a + multiset{x} - multiset{x};
    assert b == b + multiset{x} - multiset{x};
  }
}
