/** The pool of equally sized items with its free list threaded through them (tinyxml2.h, MemPoolT). */
module MemPools {
  const BLOCK_SIZE := 4096

  /** The memory of one item. A free item holds the link to the next one; what a live item holds is its user's. */
  class Item {
    var next: Item?

    constructor ()
      ensures next == null
    {
      next := null;
    }
  }

  ghost predicate Distinct(s: seq<Item>) {
    forall i, j :: 0 <= i < j < |s| ==> s[i] != s[j]
  }

  ghost function At(s: seq<Item>, i: nat): Item? {
    if i < |s| then s[i] else null
  }

  /** The items of `s` are linked in this order, and the last one leads nowhere. */
  ghost predicate Threaded(s: seq<Item>)
    reads s
  {
    forall i :: 0 <= i < |s| ==> s[i].next == At(s, i + 1)
  }

  ghost function SetOf(s: seq<Item>): set<Item> {
    set x | x in s
  }

  /** Every item of every block is either free or live. */
  ghost predicate Covered(blocks: seq<seq<Item>>, n: nat, free: seq<Item>, live: set<Item>) {
    forall b :: b in blocks ==> |b| == n && forall x :: x in b ==> x in live || x in free
  }

  lemma HandedOut(blocks: seq<seq<Item>>, n: nat, free: seq<Item>, live: set<Item>)
    requires Covered(blocks, n, free, live) && free != [] && Distinct(free) && SetOf(free) !! live
    ensures Covered(blocks, n, free[1..], live + {free[0]}) && SetOf(free[1..]) !! live + {free[0]}
    ensures |live + {free[0]}| == |live| + 1 && free[0] !in live
  {
    assert free[0] in SetOf(free);
    forall x | x in free
      ensures x == free[0] || x in free[1..]
    {
    }
    forall x | x in free[1..]
      ensures x in SetOf(free) && x != free[0]
    {
    }
  }

  lemma BlockAdded(blocks: seq<seq<Item>>, n: nat, block: seq<Item>, live: set<Item>)
    requires Covered(blocks, n, [], live) && |block| == n
    ensures Covered(blocks + [block], n, block, live)
    ensures |blocks + [block]| * n == |blocks| * n + n
  {
  }

  class MemPool {
    const itemsPerBlock: nat
    var blocks: seq<seq<Item>>
    var root: Item?
    var currentAllocs: int
    var nAllocs: int
    var maxAllocs: int
    var untracked: int

    /** The free list, first item first, and the items handed out. */
    ghost var free: seq<Item>
    ghost var live: set<Item>

    /** The free list has no cycle and no live item in it, and with the live items it makes up all blocks. */
    ghost predicate Valid()
      reads this, free
    {
      && itemsPerBlock > 0
      && Distinct(free) && Threaded(free) && root == At(free, 0)
      && SetOf(free) !! live
      && currentAllocs == |live| <= maxAllocs && |free| + currentAllocs == |blocks| * itemsPerBlock
      && Covered(blocks, itemsPerBlock, free, live)
    }

    constructor (itemSize: nat)
      requires 0 < itemSize <= BLOCK_SIZE
      ensures Valid() && free == [] && live == {} && untracked == 0 && itemsPerBlock == 4096 / itemSize
    {
      itemsPerBlock := BLOCK_SIZE / itemSize;
      blocks, root, currentAllocs, nAllocs, maxAllocs, untracked := [], null, 0, 0, 0, 0;
      free, live := [], {};
    }

    /** The memory of a new block: so many distinct new items. */
    method NewBlock() returns (block: seq<Item>)
      ensures |block| == itemsPerBlock && Distinct(block)
      ensures fresh(SetOf(block))
    {
      block := [];
      while |block| < itemsPerBlock
        invariant |block| <= itemsPerBlock && Distinct(block)
        invariant fresh(SetOf(block))
      {
        var item := new Item();
        assert SetOf(block + [item]) == SetOf(block) + {item};
        block := block + [item];
      }
    }

    /** Threads the free list through the items of the new block. */
    method Thread(block: seq<Item>)
      requires |block| > 0 && Distinct(block)
      modifies SetOf(block)
      ensures Threaded(block)
    {
      var i := 0;
      while i < |block| - 1
        invariant 0 <= i <= |block| - 1
        invariant forall j :: 0 <= j < i ==> block[j].next == block[j + 1]
      {
        block[i].next := block[i + 1];
        i := i + 1;
      }
      block[|block| - 1].next := null;
    }

    /** Adds a block when nothing is free. */
    method Refill()
      requires Valid() && free == []
      modifies this`blocks, this`root, this`free
      ensures Valid() && |free| == itemsPerBlock && blocks == old(blocks) + [free]
      ensures fresh(SetOf(free))
    {
      var block := NewBlock();
      Thread(block);
      BlockAdded(blocks, itemsPerBlock, block, live);
      hide Covered, Threaded, Distinct, SetOf;
      blocks := blocks + [block];
      root := block[0];
      free := block;
    }

    /** Hands out the first free item, from a new block when there is none. It was not live before. */
    method Alloc() returns (result: Item)
      requires Valid()
      modifies this
      ensures Valid()
      ensures result !in old(live) && live == old(live) + {result}
      ensures if old(free) == [] then fresh(result) && |blocks| == |old(blocks)| + 1
              && [result] + free == blocks[|old(blocks)|]
              else [result] + free == old(free) && blocks == old(blocks)
      ensures currentAllocs == old(currentAllocs) + 1 && untracked == old(untracked) + 1
    {
      hide Covered, Threaded, Distinct;
      if root == null {
        Refill();
        assert free[0] in SetOf(free);
      }
      result := TakeFirst();
    }

    method TakeFirst() returns (result: Item)
      requires Valid() && free != []
      modifies this`root, this`currentAllocs, this`maxAllocs, this`nAllocs, this`untracked, this`live, this`free
      ensures Valid() && [result] + free == old(free) && result !in old(live) && live == old(live) + {result}
      ensures currentAllocs == old(currentAllocs) + 1 && untracked == old(untracked) + 1
    {
      hide Covered, Threaded, Distinct, SetOf;
      HandedOut(blocks, itemsPerBlock, free, live);
      Unthreaded(free);
      result := root;
      root := root.next;
      currentAllocs := currentAllocs + 1;
      if currentAllocs > maxAllocs {
        maxAllocs := currentAllocs;
      }
      nAllocs := nAllocs + 1;
      untracked := untracked + 1;
      live, free := live + {result}, free[1..];
    }

    /** The live item becomes the first free one. */
    method Free(mem: Item?)
      requires Valid() && (mem != null ==> mem in live)
      modifies this, if mem == null then {} else {mem}
      ensures Valid() && blocks == old(blocks) && untracked == old(untracked)
      ensures mem == null ==> free == old(free) && live == old(live)
      ensures mem != null ==>
                free == [mem] + old(free) && live == old(live) - {mem} && currentAllocs == old(currentAllocs) - 1
    {
      if mem == null {
        return;
      }
      currentAllocs := currentAllocs - 1;
      mem.next := root;
      root := mem;
      live, free := live - {mem}, [mem] + free;
    }

    method SetTracked()
      requires Valid()
      modifies this`untracked
      ensures Valid() && untracked == old(untracked) - 1
    {
      untracked := untracked - 1;
    }

    /** Gives all blocks back. */
    method Clear()
      requires Valid()
      modifies this
      ensures Valid() && blocks == [] && free == [] && live == {} && currentAllocs == 0 && untracked == 0
    {
      while blocks != []
        decreases |blocks|
      {
        blocks := blocks[..|blocks| - 1];
      }
      root, currentAllocs, nAllocs, maxAllocs, untracked := null, 0, 0, 0, 0;
      free, live := [], {};
    }
  }

  lemma Unthreaded(s: seq<Item>)
    requires s != [] && Distinct(s) && Threaded(s)
    ensures Threaded(s[1..]) && Distinct(s[1..]) && s[0] !in s[1..] && s[0].next == At(s[1..], 0)
  {
    assert forall i :: 0 <= i < |s[1..]| ==> s[1..][i] == s[i + 1];
    assert At(s[1..], 0) == At(s, 1);
    forall i | 0 <= i < |s[1..]|
      ensures s[1..][i].next == At(s[1..], i + 1)
    {
      assert s[i + 1].next == At(s, i + 2);
    }
  }
}
