/** The pool that XML nodes are allocated from: blocks of items, with the items not in use chained through their
    own memory. */
module Pool {

  /** While an item is free its memory holds `next`; while it is in use the memory is its owner's. */
  class Item {
    var next: Item?

    constructor () {
      next := null;
    }
  }

  ghost function Nth(chain: seq<Item>, k: nat): Item? {
    if k < |chain| then chain[k] else null
  }

  /** The chain from `root` is `chain`, in order, and ends. */
  ghost predicate Linked(root: Item?, chain: seq<Item>)
    reads chain
  {
    root == Nth(chain, 0) && forall k {:trigger chain[k]} :: 0 <= k < |chain| ==> chain[k].next == Nth(chain, k + 1)
  }

  ghost predicate Distinct(s: seq<Item>) {
    forall i, j :: 0 <= i < j < |s| ==> s[i] != s[j]
  }

  ghost function Members(s: seq<Item>): set<Item> {
    set x | x in s
  }

  lemma {:induction false} DistinctSize(s: seq<Item>)
    requires Distinct(s)
    ensures |Members(s)| == |s|
  {
    if |s| > 0 {
      var init, last := s[..|s| - 1], s[|s| - 1];
      DistinctSize(init);
      assert Members(s) == Members(init) + {last};
      assert last !in Members(init);
    }
  }

  /** `blocks` is the least number of blocks of `n` items that holds `count` items. */
  predicate IsCeiling(blocks: int, count: int, n: int) {
    n * (blocks - 1) < count <= n * blocks || (blocks == 0 && count == 0)
  }

  function Max(x: int, y: int): int {
    if x > y then x else y
  }

  /** One more item from a block that has room, or from a new block when there was none. */
  lemma NextCeiling(blocks: int, most: int, count: int, n: int)
    requires n >= 1 && count <= most && IsCeiling(blocks, most, n)
    ensures count < n * blocks ==> IsCeiling(blocks, Max(most, count + 1), n)
    ensures count == n * blocks ==> most == count && IsCeiling(blocks + 1, Max(most, count + 1), n)
  {
    Distribute(n, blocks);
  }

  /** Every item is free, once, or in use, and the blocks of `n` items hold them all. */
  ghost predicate Partition(items: set<Item>, free: seq<Item>, live: set<Item>, blocks: seq<seq<Item>>, n: int) {
    n >= 1 && Distinct(free) && live !! Members(free) && live + Members(free) == items &&
    |live| + |free| == n * |blocks| &&
    forall b :: b in blocks ==> |b| == n && Members(b) <= items
  }

  lemma TakeFirst(items: set<Item>, free: seq<Item>, live: set<Item>, blocks: seq<seq<Item>>, n: int)
    requires Partition(items, free, live, blocks, n) && |free| > 0
    ensures Partition(items, free[1..], live + {free[0]}, blocks, n) && free[0] !in live && free[0] in items
  {
    assert free == [free[0]] + free[1..];
  }

  lemma GiveBack(items: set<Item>, free: seq<Item>, live: set<Item>, blocks: seq<seq<Item>>, n: int, x: Item)
    requires Partition(items, free, live, blocks, n) && x in live
    ensures Partition(items, [x] + free, live - {x}, blocks, n)
  {
    assert Members([x] + free) == {x} + Members(free);
  }

  lemma AddBlock(items: set<Item>, live: set<Item>, blocks: seq<seq<Item>>, n: int, block: seq<Item>)
    requires Partition(items, [], live, blocks, n) && |block| == n && Distinct(block) && Members(block) !! items
    ensures live == items && |live| == n * |blocks|
    ensures Partition(items + Members(block), block, live, blocks + [block], n)
  {
    assert Members([]) == {};
    Distribute(n, |blocks|);
  }

  lemma PartitionSize(items: set<Item>, free: seq<Item>, live: set<Item>, blocks: seq<seq<Item>>, n: int)
    requires Partition(items, free, live, blocks, n)
    ensures n >= 1 && |live| + |free| == n * |blocks|
  {
  }

  lemma Distribute(n: int, k: int)
    ensures n * (k + 1) == n * k + n
  {
  }

  lemma RootIsFirst(root: Item?, chain: seq<Item>)
    requires Linked(root, chain)
    ensures root == Nth(chain, 0) && (root == null <==> chain == [])
  {
  }

  lemma LiveIsNotFree(items: set<Item>, free: seq<Item>, live: set<Item>, blocks: seq<seq<Item>>, n: int, x: Item)
    requires Partition(items, free, live, blocks, n) && x in live
    ensures x !in free && x in items
  {
  }

  lemma LinkedTail(root: Item?, chain: seq<Item>)
    requires Linked(root, chain) && root != null
    ensures |chain| > 0 && root == chain[0] && Linked(root.next, chain[1..])
  {
    assert chain == [chain[0]] + chain[1..];
  }

  lemma LinkedPush(chain: seq<Item>, x: Item)
    requires Linked(x.next, chain)
    ensures Linked(x, [x] + chain)
  {
    var all := [x] + chain;
    forall k {:trigger all[k]} | 0 <= k < |all| ensures all[k].next == Nth(all, k + 1) {
      if k > 0 {
        assert all[k] == chain[k - 1];
      }
    }
  }

  class MemPool {
    const itemsPerBlock: int
    var blockPtrs: seq<seq<Item>>
    var root: Item?
    var currentAllocs: int
    var nAllocs: int
    var maxAllocs: int
    var nUntracked: int

    /** Every item of every block, the free ones in the order of the chain, and those in use. */
    ghost var items: set<Item>
    ghost var free: seq<Item>
    ghost var live: set<Item>

    ghost predicate Counted()
      reads this
    {
      currentAllocs == |live| <= maxAllocs <= nAllocs && IsCeiling(|blockPtrs|, maxAllocs, itemsPerBlock)
    }

    ghost predicate Valid()
      reads this, items
    {
      Partition(items, free, live, blockPtrs, itemsPerBlock) && Linked(root, free) && Counted()
    }

    constructor (itemsPerBlock: int)
      requires itemsPerBlock >= 1
      ensures Valid() && this.itemsPerBlock == itemsPerBlock && items == {}
    {
      this.itemsPerBlock := itemsPerBlock;
      blockPtrs, root := [], null;
      currentAllocs, nAllocs, maxAllocs, nUntracked := 0, 0, 0, 0;
      items, free, live := {}, [], {};
    }

    /** Every block goes back to the system. */
    method Clear()
      requires Valid()
      modifies this
      ensures Valid() && items == {} && blockPtrs == [] && currentAllocs == maxAllocs == nAllocs == nUntracked == 0
    {
      while blockPtrs != []
        decreases |blockPtrs|
      {
        blockPtrs := blockPtrs[..|blockPtrs| - 1];
      }
      root := null;
      currentAllocs := 0;
      nAllocs := 0;
      maxAllocs := 0;
      nUntracked := 0;
      items, free, live := {}, [], {};
    }

    /** A block of new items, chained in order. */
    method NewBlock() returns (block: seq<Item>)
      requires itemsPerBlock >= 1
      ensures |block| == itemsPerBlock && Distinct(block) && fresh(block) && Linked(block[0], block)
    {
      block := [];
      for i := 0 to itemsPerBlock
        invariant |block| == i && Distinct(block) && fresh(block)
      {
        var item := new Item();
        block := block + [item];
      }
      for i := 0 to itemsPerBlock - 1
        invariant forall k :: 0 <= k < i ==> block[k].next == block[k + 1]
      {
        block[i].next := block[i + 1];
      }
      block[itemsPerBlock - 1].next := null;
    }

    /** A new block when no item is free: then every item is in use. */
    method Grow()
      requires Valid() && root == null
      modifies this`blockPtrs, this`root, this`items, this`free
      ensures Partition(items, free, live, blockPtrs, itemsPerBlock) && Linked(root, free) && root != null
      ensures live == old(items) && fresh(items - old(items)) && old(items) <= items && fresh(root)
      ensures |live| == itemsPerBlock * old(|blockPtrs|) && |blockPtrs| == old(|blockPtrs|) + 1
      ensures |free| == itemsPerBlock
    {
      hide Distinct, IsCeiling;
      assert free == [];
      var block := NewBlock();
      hide *;
      AddBlock(items, live, blockPtrs, itemsPerBlock, block);
      blockPtrs := blockPtrs + [block];
      root := block[0];
      items, free := items + Members(block), block;
    }

    /** The head of the chain goes into use. */
    method Pop() returns (result: Item)
      requires Partition(items, free, live, blockPtrs, itemsPerBlock) && Linked(root, free) && root != null
      modifies this`root, this`free, this`live
      ensures Partition(items, free, live, blockPtrs, itemsPerBlock) && Linked(root, free)
      ensures old(|free|) > 0 && result == old(free[0]) == old(root) && free == old(free[1..])
      ensures result !in old(live) && live == old(live) + {result} && result in items && |live| == old(|live|) + 1
    {
      hide *;
      LinkedTail(root, free);
      result := root;
      root := root.next;
      TakeFirst(items, free, live, blockPtrs, itemsPerBlock);
      free, live := free[1..], live + {result};
    }

    /** The head of the chain, which was not in use, from a new block if there was none. The memory of the items
        in use is not touched. */
    method Alloc() returns (result: Item)
      requires Valid()
      modifies this
      ensures Valid() && fresh(items - old(items)) && old(items) <= items
      ensures result !in old(live) && live == old(live) + {result} && (result in old(items) || fresh(result))
      ensures if old(free) != [] then result == old(free[0]) && free == old(free[1..]) && blockPtrs == old(blockPtrs)
              else fresh(result) && |free| == itemsPerBlock - 1 && |blockPtrs| == old(|blockPtrs|) + 1
      ensures nAllocs == old(nAllocs) + 1 && nUntracked == old(nUntracked) + 1
      ensures currentAllocs == old(currentAllocs) + 1
      ensures maxAllocs == Max(old(maxAllocs), currentAllocs)
    {
      hide IsCeiling, Partition, Distinct, Max, Linked, Nth, Members;
      RootIsFirst(root, free);
      PartitionSize(items, free, live, blockPtrs, itemsPerBlock);
      NextCeiling(|blockPtrs|, maxAllocs, currentAllocs, itemsPerBlock);
      if root == null {
        Grow();
      }
      result := Pop();
      CountOne();
    }

    method CountOne()
      modifies this`currentAllocs, this`maxAllocs, this`nAllocs, this`nUntracked
      ensures currentAllocs == old(currentAllocs) + 1 && maxAllocs == Max(old(maxAllocs), currentAllocs)
      ensures nAllocs == old(nAllocs) + 1 && nUntracked == old(nUntracked) + 1
      ensures old(currentAllocs <= maxAllocs <= nAllocs) ==> currentAllocs <= maxAllocs <= nAllocs
    {
      currentAllocs := currentAllocs + 1;
      if currentAllocs > maxAllocs {
        maxAllocs := currentAllocs;
      }
      nAllocs := nAllocs + 1;
      nUntracked := nUntracked + 1;
    }

    /** An item in use goes to the head of the chain; a null pointer changes nothing. */
    method Free(mem: Item?)
      requires Valid() && (mem != null ==> mem in live)
      modifies this, if mem == null then {} else {mem}
      ensures Valid() && items == old(items) && blockPtrs == old(blockPtrs)
      ensures if mem == null then live == old(live) && free == old(free)
              else live == old(live) - {mem} && free == [mem] + old(free)
      ensures maxAllocs == old(maxAllocs) && nAllocs == old(nAllocs) && nUntracked == old(nUntracked)
    {
      hide IsCeiling, Distinct, Partition, Linked, Nth, Members;
      if mem == null {
        return;
      }
      GiveBack(items, free, live, blockPtrs, itemsPerBlock, mem);
      LiveIsNotFree(items, free, live, blockPtrs, itemsPerBlock, mem);
      currentAllocs := currentAllocs - 1;
      var item: Item := mem;
      item.next := root;
      root := item;
      LinkedPush(free, item);
      live, free := live - {item}, [item] + free;
    }

    method SetTracked()
      requires Valid()
      modifies this`nUntracked
      ensures Valid() && nUntracked == old(nUntracked) - 1
    {
      nUntracked := nUntracked - 1;
    }

    /** Whatever the owner of an item writes into it, the pool is unharmed. */
    method Overwrite(item: Item, contents: Item?)
      requires Valid() && item in live
      modifies item
      ensures Valid()
    {
      item.next := contents;
    }
  }
}
