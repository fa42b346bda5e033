/** The allocator object: malloc and free on the list in memory. */
module Alloc {
  import opened FreeList
  import opened Heap

  /** `first` and `mem` are the program's state.  `free` is the list the pointers spell out and
      `live` the size of every block a client holds. */
  class Allocator {
    var first: int
    var mem: Memory
    ghost var free: seq<Block>
    ghost var live: map<nat, nat>
    ghost const lo: nat
    ghost const hi: nat

    /** The free list alone, as it is between the steps of malloc and free. */
    ghost predicate ListOk()
      reads this
    {
      ListIs(first, mem, free)
    }

    ghost predicate Valid()
      reads this
    {
      HeapOk(first, mem, free, live, lo, hi)
    }

    /** Once every block is given back, in whatever order, the list is the initial block again. */
    lemma {:induction false} EmptyIsInitial()
      requires Valid() && live == map[]
      ensures free == [Block(lo, hi - lo)]
    {
      InOrderIsOrdered(free);
      EmptyHeapIsOneBlock(free, lo, hi);
    }

    /** alloc_init on `size` bytes from `base`. */
    constructor Init(base: nat, size: nat, memory: Memory)
      requires base > 0 && base + size < WRAP
      requires base <= AlignUp(base) && AlignUp(base) + 8 <= base + size
      requires forall a :: base <= a < base + size && a % 4 == 0 ==> a in memory
      ensures Valid() && live == map[]
      ensures lo == AlignUp(base) && hi == lo + AlignDown(base + size - lo)
      ensures free == [Block(lo, hi - lo)]
    {
      var aligned := AlignUp(base);
      var blockSize := AlignDown(size - (aligned - base));
      assert aligned % 8 == 0 && base <= aligned < base + 8;
      assert blockSize % 8 == 0 && 8 <= blockSize;
      first := aligned;
      mem := memory[aligned := blockSize][aligned + 4 := 0];
      free := [Block(aligned, blockSize)];
      live := map[];
      lo, hi := aligned, aligned + blockSize;
      new;
      InitTiles(lo, hi);
      InOrderIsOrdered(free);
      assert NodeAt(mem, free, 0) && Even(free[0]);
    }

    /** The search loop of allocate_memory: the first block of `size` bytes and its predecessor. */
    method FindFit(size: nat) returns (curr: int, prev: int, ghost i: nat)
      requires ListOk()
      ensures i == FirstFit(free, size) && curr == Ptr(free, i) && PrevIs(free, i, prev)
      ensures i < |free| ==> size <= free[i].size
    {
      curr, prev, i := first, 0, 0;
      HeadNode(first, mem, free, i);
      while curr != 0 && mem[curr] < size
        invariant i <= |free| && FirstFit(free, size) == FitFrom(free, i, size) && curr == Ptr(free, i) && PrevIs(free, i, prev)
        invariant curr != 0 ==> NodeAt(mem, free, i)
        invariant curr == 0 ==> i == |free|
        decreases |free| - i
      {
        prev := curr;
        curr := mem[curr + 4];
        i := i + 1;
        HeadNode(first, mem, free, i);
      }
    }

    /** allocate_memory: first fit, taking the whole block or its front. */
    method AllocateMemory(size: nat) returns (ptr: int)
      requires ListOk() && size % 8 == 0
      modifies this`first, this`mem, this`free
      ensures ListOk() && Kept(old(mem), mem, old(free))
      ensures var i := FirstFit(old(free), size);
              if i < |old(free)| then ptr == old(free)[i].addr && free == Take(old(free), i, size)
              else ptr == 0 && free == old(free) && first == old(first) && mem == old(mem)
      ensures ptr == 0 <==> FirstFit(old(free), size) == |old(free)|
      ensures size == 0 ==> free == old(free) && first == old(first) && mem == old(mem)
    {
      var curr, prev, i := FindFit(size);
      HeadNode(first, mem, free, i);
      if curr != 0 {
        TakeBlock(first, mem, free, i, size, prev);
        if size == 0 {
          TakeNothing(first, mem, free);
        }
        if mem[curr] == size {
          var next := mem[curr + 4];
          if prev != 0 {
            mem := mem[prev + 4 := next];
          } else {
            first := next;
          }
        } else {
          var newBlock := curr + size;
          mem := mem[newBlock := mem[curr] - size][newBlock + 4 := mem[curr + 4]];
          if prev != 0 {
            mem := mem[prev + 4 := newBlock];
          } else {
            first := newBlock;
          }
        }
        free := Take(free, i, size);
      }
      ptr := curr;
    }

    /** The search loop of free_memory: the first block behind ptr and its predecessor. */
    method FindPlace(ptr: nat) returns (next: int, prev: int, ghost i: nat)
      requires ListOk()
      ensures i == Position(free, ptr) && IsPosition(free, ptr, i) && next == Ptr(free, i) && PrevIs(free, i, prev)
    {
      next, prev, i := first, 0, 0;
      HeadNode(first, mem, free, i);
      while next != 0 && next < ptr
        invariant i <= |free| && Position(free, ptr) == PositionFrom(free, i, ptr) && next == Ptr(free, i) && PrevIs(free, i, prev)
        invariant next != 0 ==> NodeAt(mem, free, i)
        invariant next == 0 ==> i == |free|
        decreases |free| - i
      {
        prev := next;
        next := mem[next + 4];
        i := i + 1;
        HeadNode(first, mem, free, i);
      }
    }

    /** free_memory: insertion by address, coalescing with both neighbours. */
    method FreeMemory(ptr: nat, size: nat)
      requires ListOk() && Apart(free, Block(ptr, size)) && Even(Block(ptr, size))
      modifies this`first, this`mem, this`free
      ensures ListOk() && free == Insert(old(free), Block(ptr, size))
      ensures Kept(old(mem), mem, old(free) + [Block(ptr, size)])
    {
      ghost var b := Block(ptr, size);
      var next, prev, i := FindPlace(ptr);
      InsertBlock(first, mem, free, i, b, prev);
      if ptr + size == next {
        mem := mem[ptr := size + mem[next]][ptr + 4 := mem[next + 4]];
      } else {
        mem := mem[ptr := size][ptr + 4 := next];
      }
      assert mem == LinkNext(old(mem), b, next);
      if prev != 0 {
        if prev + mem[prev] == ptr {
          mem := mem[prev := mem[prev] + mem[ptr]][prev + 4 := mem[ptr + 4]];
        } else {
          mem := mem[prev + 4 := ptr];
        }
      } else {
        first := ptr;
      }
      free := InsertAt(free, i, b);
    }

    /** domain_malloc: a data pointer, or NULL. The heap stays valid exactly when the block size has not
        wrapped to 0, or the free list is empty, or its first block happens to be as large as its canary. */
    method DomainMalloc(size: nat) returns (ptr: int)
      requires Valid() && size < WRAP
      modifies this`first, this`mem, this`free, this`live
      ensures Valid() <==> BlockSize(size) > 0 || old(free) == [] || old(free)[0].size == Canary(old(free)[0].addr)
      ensures ptr != 0 && size <= WRAP - 12 ==> ptr >= 4 && RoomFor(old(live), live, ptr - 4, size)
      ensures var blockSize, i := BlockSize(size), FirstFit(old(free), BlockSize(size));
              if blockSize >= MAX_BLOCK || i == |old(free)| then
                ptr == 0 && first == old(first) && mem == old(mem) && free == old(free) && live == old(live)
              else
                && ptr == old(free)[i].addr + 4
                && Kept(old(mem), mem, old(free))
                && (blockSize > 0 ==> free == Take(old(free), i, blockSize) && live == old(live)[old(free)[i].addr := blockSize])
                && (blockSize == 0 ==> && first == old(first) && free == old(free) && live == old(live)
                                       && mem == old(mem)[first := Canary(old(free)[0].addr)])
    {
      var blockSize := BlockSize(size);
      if blockSize >= MAX_BLOCK {
        return 0;
      }
      var block := AllocateMemory(blockSize);
      if block == 0 {
        return 0;
      }
      if blockSize > 0 {
        MallocKeeps(old(first), old(mem), old(free), old(live), lo, hi, FirstFit(old(free), blockSize), blockSize, first, mem);
        live := live[block := blockSize];
        NewRoom(old(free), old(live), lo, hi, FirstFit(old(free), blockSize), size);
      } else {
        ZeroBlockBreaksHeap(first, mem, free, live, lo, hi);
      }
      mem := mem[block := Encode(block, blockSize)];
      return block + 4;
    }

    /** domain_free: the block size comes from the header, whose canary must match. */
    method DomainFree(ptr: int) returns (ok: bool)
      requires Valid() && ptr >= 4 && ptr - 4 in mem && mem[ptr - 4] >= 0
      requires ptr - 4 in live || mem[ptr - 4] % 256 != Canary(ptr - 4)
      modifies this`first, this`mem, this`free, this`live
      ensures Valid()
      ensures ok == (ptr - 4 in old(live))
      ensures !ok ==> first == old(first) && mem == old(mem) && free == old(free) && live == old(live)
      ensures ok ==>
                var b := Block(ptr - 4, old(live)[ptr - 4]);
                free == Insert(old(free), b) && live == old(live) - {ptr - 4} && Kept(old(mem), mem, old(free) + [b])
    {
      var block := ptr - 4;
      var size, canary := SizeOf(mem[block]), mem[block] % 256;
      if block in live {
        Decode(block, live[block]);
        assert mem[block] == Encode(block, live[block]);
      }
      if canary != Canary(block) {
        return false;
      }
      InOrderIsOrdered(free);
      LiveApart(free, live, lo, hi, block);
      FreeMemory(block, size);
      FreeKeeps(old(first), old(mem), old(free), old(live), lo, hi, block, first, mem);
      live := live - {block};
      return true;
    }

    /** A malloc followed by the free of its result leaves the free list exactly as it was. */
    method MallocThenFree(size: nat) returns (ptr: int)
      requires Valid() && size < WRAP && BlockSize(size) > 0
      modifies this`first, this`mem, this`free, this`live
      ensures Valid() && free == old(free) && live == old(live)
    {
      ptr := DomainMalloc(size);
      if ptr != 0 {
        ghost var b := Block(ptr - 4, BlockSize(size));
        RestoredList(old(free), old(live), lo, hi, FirstFit(old(free), b.size), b.size);
        LiveHeader(mem, live, b.addr);
        var ok := DomainFree(ptr);
      }
    }

    /** Giving back every live block, in whatever order, leaves the single initial block. */
    method FreeAll(ptrs: seq<int>)
      requires Valid() && Pending(ptrs, 0, live) && Distinct(ptrs)
      modifies this`first, this`mem, this`free, this`live
      ensures Valid() && live == map[] && free == [Block(lo, hi - lo)]
    {
      for k := 0 to |ptrs|
        invariant Valid() && Pending(ptrs, k, live)
      {
        assert PtrLive(ptrs, k, live);
        LiveHeader(mem, live, ptrs[k] - 4);
        ghost var before := live;
        var ok := DomainFree(ptrs[k]);
        NextPending(ptrs, k, before, live);
      }
      NonePending(ptrs, live);
      EmptyIsInitial();
    }

    /** A client stores a word inside the payload of a block it holds. */
    method ClientStore(ghost block: nat, addr: int, v: int)
      requires Valid() && block in live && block + 4 <= addr < block + live[block] && addr % 4 == 0
      modifies this`mem
      ensures Valid() && mem == old(mem)[addr := v]
    {
      StoreKeeps(first, mem, free, live, lo, hi, block, addr, v);
      mem := mem[addr := v];
    }
  }

  lemma {:induction false} LiveHeader(mem: Memory, live: map<nat, nat>, a: nat)
    requires Headers(mem, live) && a in live
    ensures a in mem && mem[a] >= 0
  {
    assert mem[a] == Encode(a, live[a]);
  }

  lemma {:induction false} RestoredList(free: seq<Block>, live: map<nat, nat>, lo: nat, hi: nat, i: nat, size: nat)
    requires InOrder(free) && LiveOk(live) && Tiles(free, live, lo, hi) && i < |free| && 0 < size <= free[i].size
    ensures Insert(Take(free, i, size), Block(free[i].addr, size)) == free
    ensures live[free[i].addr := size] - {free[i].addr} == live
  {
    InOrderIsOrdered(free);
    TakeInsert(free, i, size);
    NotLive(free, live, lo, hi, i);
  }

  ghost predicate Distinct(ptrs: seq<int>) {
    forall i, j {:trigger ptrs[i], ptrs[j]} :: 0 <= i < j < |ptrs| ==> ptrs[i] != ptrs[j]
  }

  predicate PtrLive(ptrs: seq<int>, i: nat, live: map<nat, nat>) {
    i < |ptrs| ==> ptrs[i] >= 4 && ptrs[i] - 4 in live
  }

  predicate BlockListed(ptrs: seq<int>, k: nat, live: map<nat, nat>, a: nat)
    requires k <= |ptrs|
  {
    a in live ==> a + 4 in ptrs[k..]
  }

  /** The data pointers from k on are those of the live blocks. */
  ghost predicate Pending(ptrs: seq<int>, k: nat, live: map<nat, nat>) {
    && k <= |ptrs|
    && (forall i: nat {:trigger PtrLive(ptrs, i, live)} :: k <= i ==> PtrLive(ptrs, i, live))
    && (forall a: nat {:trigger BlockListed(ptrs, k, live, a)} :: BlockListed(ptrs, k, live, a))
  }

  lemma {:induction false} NextPending(ptrs: seq<int>, k: nat, before: map<nat, nat>, live: map<nat, nat>)
    requires k < |ptrs| && Distinct(ptrs) && Pending(ptrs, k, before) && ptrs[k] >= 4 && live == before - {ptrs[k] - 4}
    ensures Pending(ptrs, k + 1, live)
  {
    assert ptrs[k..] == [ptrs[k]] + ptrs[k + 1..];
    forall i: nat | k + 1 <= i ensures PtrLive(ptrs, i, live) {
      assert PtrLive(ptrs, i, before);
    }
    var next := k + 1;
    forall a: nat ensures BlockListed(ptrs, next, live, a) {
      assert BlockListed(ptrs, k, before, a);
    }
  }

  lemma {:induction false} NonePending(ptrs: seq<int>, live: map<nat, nat>)
    requires Pending(ptrs, |ptrs|, live)
    ensures live == map[]
  {
    forall a: nat ensures a !in live {
      assert BlockListed(ptrs, |ptrs|, live, a);
    }
  }

  /** A non-null pointer of the list points to its node. */
  lemma {:induction false} HeadNode(first: int, mem: Memory, bs: seq<Block>, i: nat)
    requires ListIs(first, mem, bs) && i <= |bs|
    ensures Ptr(bs, i) != 0 <==> i < |bs|
    ensures i < |bs| ==> NodeAt(mem, bs, i)
  {
    InOrderIsOrdered(bs);
    assert i < |bs| ==> bs[i].addr > 0;
  }

  lemma {:induction false} InitTiles(lo: nat, hi: nat)
    requires 0 < lo < hi
    ensures Tiles([Block(lo, hi - lo)], map[], lo, hi)
  {
    var one := [Block(lo, hi - lo)];
    forall x {:trigger FreeAt(one, x)} ensures FreeAt(one, x) <==> lo <= x < hi && !LiveAt(map[], x) {
      assert Holds(one[0], x) <==> lo <= x < hi;
    }
  }

  // ---------------------------------------------------------------------------------------------
  // The stores of malloc
  // ---------------------------------------------------------------------------------------------

  /** Block k lies off block l. */
  lemma {:induction false} BlocksApart(bs: seq<Block>, k: nat, l: nat)
    requires Ordered(bs) && BigEnough(bs) && k < |bs| && l < |bs| && k != l
    ensures bs[k].End() <= bs[l].addr || bs[l].End() <= bs[k].addr
    ensures bs[k].size >= 8 && bs[l].size >= 8
  {
  }

  /** prev->next = target, or first_block = target. */
  function SetNext(mem: Memory, prev: int, target: int): Memory {
    if prev != 0 then mem[prev + 4 := target] else mem
  }

  function SetFirst(first: int, prev: int, target: int): int {
    if prev != 0 then first else target
  }

  predicate PrevIs(bs: seq<Block>, i: nat, prev: int)
    requires i <= |bs|
  {
    prev == if i > 0 then bs[i - 1].addr else 0
  }

  /** All of block i is taken: its predecessor links past it. */
  lemma {:induction false} TakeWhole(first: int, mem: Memory, bs: seq<Block>, i: nat, prev: int)
    requires ListIs(first, mem, bs) && i < |bs| && PrevIs(bs, i, prev)
    ensures NodeAt(mem, bs, i)
    ensures var next := Ptr(bs, i + 1); Linked(SetFirst(first, prev, next), SetNext(mem, prev, next), Remove(bs, i))
  {
    InOrderIsOrdered(bs);
    EvenIsBig(bs);
    assert NodeAt(mem, bs, i);
    var next, mem' := Ptr(bs, i + 1), SetNext(mem, prev, Ptr(bs, i + 1));
    forall k {:trigger SameNode(mem, mem', bs[k])} | 0 <= k < i - 1 || i < k < |bs|
      ensures SameNode(mem, mem', bs[k])
    {
      assert NodeAt(mem, bs, k);
      if i > 0 {
        BlocksApart(bs, k, i - 1);
        NodeSafe(mem, mem', {prev + 4}, bs, k);
      }
    }
    if i > 0 {
      assert NodeAt(mem, bs, i - 1);
    }
    LinkedRemove(first, mem, bs, i, SetFirst(first, prev, next), mem');
  }

  /** The two words of the block split off. */
  function SplitOff(mem: Memory, rest: Block, next: int): Memory {
    mem[rest.addr := rest.size][rest.addr + 4 := next]
  }

  /** The front of block i is taken: the rest becomes a block in its place. */
  lemma {:induction false} TakeFront(first: int, mem: Memory, bs: seq<Block>, i: nat, rest: Block, prev: int)
    requires ListIs(first, mem, bs) && i < |bs| && PrevIs(bs, i, prev)
    requires bs[i].addr < rest.addr && rest.End() == bs[i].End() && rest.size >= 8
    ensures NodeAt(mem, bs, i)
    ensures Linked(SetFirst(first, prev, rest.addr), SetNext(SplitOff(mem, rest, Ptr(bs, i + 1)), prev, rest.addr),
                   Replace(bs, i, i + 1, rest))
  {
    InOrderIsOrdered(bs);
    EvenIsBig(bs);
    assert NodeAt(mem, bs, i);
    var mem' := SetNext(SplitOff(mem, rest, Ptr(bs, i + 1)), prev, rest.addr);
    var w := {rest.addr, rest.addr + 4, prev + 4};
    forall k {:trigger SameNode(mem, mem', bs[k])} | 0 <= k < i - 1 || i + 1 <= k < |bs|
      ensures SameNode(mem, mem', bs[k])
    {
      assert NodeAt(mem, bs, k);
      BlocksApart(bs, k, i);
      if i > 0 {
        BlocksApart(bs, k, i - 1);
        NodeSafe(mem, mem', w, bs, k);
      } else {
        NodeSafe(mem, mem', {rest.addr, rest.addr + 4}, bs, k);
      }
    }
    if i > 0 {
      assert NodeAt(mem, bs, i - 1);
      BlocksApart(bs, i - 1, i);
    }
    LinkedReplace(first, mem, bs, i, i + 1, rest, SetFirst(first, prev, rest.addr), mem');
  }

  lemma {:induction false} KeptFrom(mem: Memory, mem': Memory, w: set<int>, bs: seq<Block>)
    requires AgreeExcept(mem, mem', w) && Within(w, bs)
    ensures Kept(mem, mem', bs)
  {
  }

  /** The stores of allocate_memory, whichever of the four cases applies. */
  function AfterTake(mem: Memory, bs: seq<Block>, i: nat, size: nat, prev: int): Memory
    requires i < |bs| && size <= bs[i].size
  {
    if bs[i].size == size then SetNext(mem, prev, Ptr(bs, i + 1))
    else
      var rest := Block(bs[i].addr + size, bs[i].size - size);
      SetNext(SplitOff(mem, rest, Ptr(bs, i + 1)), prev, rest.addr)
  }

  function AfterTakeFirst(first: int, bs: seq<Block>, i: nat, size: nat, prev: int): int
    requires i < |bs|
  {
    SetFirst(first, prev, if bs[i].size == size then Ptr(bs, i + 1) else bs[i].addr + size)
  }

  lemma {:induction false} TakeBlock(first: int, mem: Memory, bs: seq<Block>, i: nat, size: nat, prev: int)
    requires ListIs(first, mem, bs) && i < |bs| && PrevIs(bs, i, prev)
    requires size <= bs[i].size && size % 8 == 0 && (size == 0 ==> i == 0)
    ensures NodeAt(mem, bs, i)
    ensures ListIs(AfterTakeFirst(first, bs, i, size, prev), AfterTake(mem, bs, i, size, prev), Take(bs, i, size))
    ensures Kept(mem, AfterTake(mem, bs, i, size, prev), bs)
  {
    InOrderIsOrdered(bs);
    if size == 0 {
      TakeNothing(first, mem, bs);
    } else {
      TakeOrdered(bs, i, size);
      InOrderIsOrdered(Take(bs, i, size));
      TakeEven(bs, i, size);
      TakeKept(first, mem, bs, i, size, prev);
      if bs[i].size == size {
        TakeWhole(first, mem, bs, i, prev);
      } else {
        assert Even(bs[i]);
        TakeFront(first, mem, bs, i, Block(bs[i].addr + size, bs[i].size - size), prev);
      }
    }
  }

  /** A block size of 0, the result of 32-bit wrap-around, hands out the first block and keeps it listed. */
  lemma {:induction false} TakeNothing(first: int, mem: Memory, bs: seq<Block>)
    requires ListIs(first, mem, bs) && |bs| > 0
    ensures AfterTake(mem, bs, 0, 0, 0) == mem && AfterTakeFirst(first, bs, 0, 0, 0) == first && Take(bs, 0, 0) == bs
    ensures NodeAt(mem, bs, 0)
  {
    assert Positive(bs, 0) && NodeAt(mem, bs, 0);
    assert Take(bs, 0, 0) == [bs[0]] + bs[1..] == bs;
  }

  lemma {:induction false} TakeKept(first: int, mem: Memory, bs: seq<Block>, i: nat, size: nat, prev: int)
    requires ListIs(first, mem, bs) && i < |bs| && PrevIs(bs, i, prev)
    requires 0 < size <= bs[i].size && size % 8 == 0
    ensures Kept(mem, AfterTake(mem, bs, i, size, prev), bs)
  {
    InOrderIsOrdered(bs);
    EvenIsBig(bs);
    var rest := bs[i].addr + size;
    var w := (if prev != 0 then {prev + 4} else {}) + (if bs[i].size == size then {} else {rest, rest + 4});
    if i > 0 {
      assert bs[i - 1].size >= 8 && Holds(bs[i - 1], prev + 4);
    }
    if bs[i].size > size {
      assert Even(bs[i]) && Holds(bs[i], rest) && Holds(bs[i], rest + 4);
    }
    KeptFrom(mem, AfterTake(mem, bs, i, size, prev), w, bs);
  }

  // ---------------------------------------------------------------------------------------------
  // The stores of free
  // ---------------------------------------------------------------------------------------------

  /** Memory after the first half of free_memory: b is linked to its successor, or swallows it. */
  function LinkNext(mem: Memory, b: Block, next: int): Memory
    requires b.End() == next ==> next in mem && next + 4 in mem
  {
    if b.End() == next then mem[b.addr := b.size + mem[next]][b.addr + 4 := mem[next + 4]]
    else mem[b.addr := b.size][b.addr + 4 := next]
  }

  /** Memory after the second half: the predecessor, if any, links to b, or swallows it. */
  function LinkPrev(mem: Memory, b: Block, prev: int): Memory
    requires b.addr in mem && b.addr + 4 in mem && (prev != 0 ==> prev in mem && prev + 4 in mem)
  {
    if prev == 0 then mem
    else if prev + mem[prev] == b.addr then mem[prev := mem[prev] + mem[b.addr]][prev + 4 := mem[b.addr + 4]]
    else mem[prev + 4 := b.addr]
  }

  /** The words of b are not those of a list block. */
  lemma {:induction false} ApartWords(bs: seq<Block>, b: Block, k: nat)
    requires Ordered(bs) && BigEnough(bs) && Apart(bs, b) && b.size >= 8 && k < |bs|
    ensures bs[k].End() <= b.addr || b.End() <= bs[k].addr
    ensures bs[k].size >= 8
  {
  }

  /** After the first half, b spells the block that ends where it, or its swallowed successor, ends. */
  lemma {:induction false} NextStores(first: int, mem: Memory, bs: seq<Block>, p: nat, b: Block)
    requires ListIs(first, mem, bs) && BigEnough(bs) && Apart(bs, b) && b.size >= 8 && IsPosition(bs, b.addr, p)
    ensures b.End() == Ptr(bs, p) ==> NodeAt(mem, bs, p)
    ensures var mid, j := LinkNext(mem, b, Ptr(bs, p)), High(bs, p, b);
            && Node(mid, Block(b.addr, if p < j then b.size + bs[p].size else b.size), Ptr(bs, j))
            && AgreeExcept(mem, mid, {b.addr, b.addr + 4})
            && forall k {:trigger NodeAt(mid, bs, k)} {:trigger SameNode(mem, mid, bs[k])} :: 0 <= k < |bs| ==> SameNode(mem, mid, bs[k]) && NodeAt(mid, bs, k)
  {
    InOrderIsOrdered(bs);
    HeadNode(first, mem, bs, p);
    var mid := LinkNext(mem, b, Ptr(bs, p));
    forall k {:trigger NodeAt(mid, bs, k)} {:trigger SameNode(mem, mid, bs[k])} | 0 <= k < |bs|
      ensures SameNode(mem, mid, bs[k]) && NodeAt(mid, bs, k)
    {
      ApartWords(bs, b, k);
      NodeSafe(mem, mid, {b.addr, b.addr + 4}, bs, k);
    }
  }

  /** The second half, given the first: the predecessor's node. */
  lemma {:induction false} PrevNode(mid: Memory, bs: seq<Block>, p: nat, b: Block, size: nat)
    requires Ordered(bs) && BigEnough(bs) && Apart(bs, b) && b.size >= 8 && 0 < p <= |bs|
    requires NodeAt(mid, bs, p - 1) && b.addr in mid && b.addr + 4 in mid && mid[b.addr] == size
    ensures var mem', prev := LinkPrev(mid, b, bs[p - 1].addr), bs[p - 1];
            if prev.End() == b.addr then Node(mem', Block(prev.addr, prev.size + size), mid[b.addr + 4])
            else Node(mem', prev, b.addr) && mem'[b.addr] == size && mem'[b.addr + 4] == mid[b.addr + 4]
    ensures AgreeExcept(mid, LinkPrev(mid, b, bs[p - 1].addr), {bs[p - 1].addr, bs[p - 1].addr + 4})
  {
    ApartWords(bs, b, p - 1);
  }

  lemma {:induction false} PrevFrame(mem: Memory, mid: Memory, bs: seq<Block>, p: nat, b: Block, k: nat)
    requires Ordered(bs) && BigEnough(bs) && 0 < p <= |bs| && k < |bs| && k != p - 1
    requires NodeAt(mid, bs, p - 1) && NodeAt(mid, bs, k) && SameNode(mem, mid, bs[k])
    requires b.addr in mid && b.addr + 4 in mid
    requires AgreeExcept(mid, LinkPrev(mid, b, bs[p - 1].addr), {bs[p - 1].addr, bs[p - 1].addr + 4})
    ensures SameNode(mem, LinkPrev(mid, b, bs[p - 1].addr), bs[k])
  {
    BlocksApart(bs, k, p - 1);
    NodeSafe(mid, LinkPrev(mid, b, bs[p - 1].addr), {bs[p - 1].addr, bs[p - 1].addr + 4}, bs, k);
  }

  lemma {:induction false} PrevStores(first: int, mem: Memory, mid: Memory, bs: seq<Block>, p: nat, b: Block, prev: int)
    requires Ordered(bs) && Linked(first, mem, bs) && BigEnough(bs) && Apart(bs, b) && b.size >= 8
    requires IsPosition(bs, b.addr, p) && PrevIs(bs, p, prev)
    requires Node(mid, Block(b.addr, if p < High(bs, p, b) then b.size + bs[p].size else b.size), Ptr(bs, High(bs, p, b)))
    requires forall k {:trigger NodeAt(mid, bs, k)} {:trigger SameNode(mem, mid, bs[k])} ::
               0 <= k < |bs| ==> SameNode(mem, mid, bs[k]) && NodeAt(mid, bs, k)
    ensures prev != 0 ==> prev in mid && prev + 4 in mid
    ensures Linked(SetFirst(first, prev, b.addr), LinkPrev(mid, b, prev), InsertAt(bs, p, b))
  {
    var i, j, m := Low(bs, p, b), High(bs, p, b), Merged(bs, p, b);
    if p == 0 {
      LinkedReplace(first, mem, bs, 0, j, m, b.addr, mid);
    } else {
      assert NodeAt(mid, bs, p - 1);
      var mem' := LinkPrev(mid, b, prev);
      PrevNode(mid, bs, p, b, mid[b.addr]);
      forall k {:trigger SameNode(mem, mem', bs[k])} | 0 <= k < p - 1 || p <= k < |bs|
        ensures SameNode(mem, mem', bs[k])
      {
        assert NodeAt(mid, bs, k);
        PrevFrame(mem, mid, bs, p, b, k);
      }
      if 0 < i < p {
        assert NodeAt(mem, bs, i - 1) && SameNode(mem, mem', bs[i - 1]);
      }
      LinkedReplace(first, mem, bs, i, j, m, first, mem');
    }
  }

  /** All the stores of free_memory. */
  lemma {:induction false} InsertBlock(first: int, mem: Memory, bs: seq<Block>, p: nat, b: Block, prev: int)
    requires ListIs(first, mem, bs) && Apart(bs, b) && Even(b) && IsPosition(bs, b.addr, p) && PrevIs(bs, p, prev)
    ensures b.End() == Ptr(bs, p) ==> Ptr(bs, p) in mem && Ptr(bs, p) + 4 in mem
    ensures var mid := LinkNext(mem, b, Ptr(bs, p));
            && (prev != 0 ==> prev in mid && prev + 4 in mid)
            && ListIs(SetFirst(first, prev, b.addr), LinkPrev(mid, b, prev), InsertAt(bs, p, b))
            && Kept(mem, LinkPrev(mid, b, prev), bs + [b])
  {
    InOrderIsOrdered(bs);
    EvenIsBig(bs);
    assert b.size >= 8;
    InsertAtOrdered(bs, p, b);
    InOrderIsOrdered(InsertAt(bs, p, b));
    InsertAtEven(bs, p, b);
    NextStores(first, mem, bs, p, b);
    var mid := LinkNext(mem, b, Ptr(bs, p));
    PrevStores(first, mem, mid, bs, p, b, prev);
    if p > 0 {
      PrevNode(mid, bs, p, b, mid[b.addr]);
    }
    InsertKept(mem, mid, LinkPrev(mid, b, prev), bs, p, b, prev);
  }

  lemma {:induction false} InsertKept(mem: Memory, mid: Memory, mem': Memory, bs: seq<Block>, p: nat, b: Block, prev: int)
    requires Ordered(bs) && BigEnough(bs) && b.size >= 8 && p <= |bs| && PrevIs(bs, p, prev)
    requires AgreeExcept(mem, mid, {b.addr, b.addr + 4})
    requires if p > 0 then AgreeExcept(mid, mem', {prev, prev + 4}) else mem' == mid
    ensures Kept(mem, mem', bs + [b])
  {
    var cs := bs + [b];
    var w := {b.addr, b.addr + 4} + (if p > 0 then {prev, prev + 4} else {});
    assert cs[|bs|] == b && Holds(b, b.addr) && Holds(b, b.addr + 4);
    if p > 0 {
      assert cs[p - 1] == bs[p - 1] && bs[p - 1].size >= 8 && Holds(bs[p - 1], prev) && Holds(bs[p - 1], prev + 4);
    }
    KeptFrom(mem, mem', w, cs);
  }

  // ---------------------------------------------------------------------------------------------
  // Requests near 2^32
  // ---------------------------------------------------------------------------------------------

  /** When 32-bit wrap-around makes the block size 0, malloc overwrites the size word of the first
      free block with that block's canary, and the list survives if and only if the two agree. */
  lemma {:induction false} ZeroBlockBreaksList(first: int, mem: Memory, bs: seq<Block>)
    requires ListIs(first, mem, bs) && |bs| > 0
    ensures ListIs(first, mem[first := Canary(bs[0].addr)], bs) <==> bs[0].size == Canary(bs[0].addr)
  {
    assert NodeAt(mem, bs, 0);
    var mem' := mem[first := Canary(bs[0].addr)];
    assert bs[0].size == Canary(bs[0].addr) ==> mem' == mem;
    if ListIs(first, mem', bs) {
      assert NodeAt(mem', bs, 0);
    }
  }

  /** The same for the whole heap. */
  lemma {:induction false} ZeroBlockBreaksHeap(first: int, mem: Memory, free: seq<Block>, live: map<nat, nat>, lo: nat, hi: nat)
    requires HeapOk(first, mem, free, live, lo, hi) && |free| > 0
    ensures first == free[0].addr && Encode(first, 0) == Canary(first)
    ensures HeapOk(first, mem[first := Canary(free[0].addr)], free, live, lo, hi) <==> free[0].size == Canary(free[0].addr)
  {
    ZeroBlockBreaksList(first, mem, free);
    assert NodeAt(mem, free, 0);
    if free[0].size == Canary(free[0].addr) {
      assert mem[first := Canary(free[0].addr)] == mem;
    }
  }

  /** These are the requests whose block size wraps to 0. */
  lemma {:induction false} ZeroBlockRange(size: nat)
    requires size < WRAP
    ensures BlockSize(size) == 0 <==> WRAP - 11 <= size <= WRAP - 4
  {
  }

  /** The new block b holds `size` bytes behind its header and is apart from all blocks that were live. */
  ghost predicate RoomFor(before: map<nat, nat>, live: map<nat, nat>, b: nat, size: nat) {
    && b in live && size + 4 <= live[b]
    && forall a {:trigger a in before} :: a in before ==>
         a in live && live[a] == before[a] && (a + live[a] <= b || b + live[b] <= a)
  }

  lemma {:induction false} NewRoom(free: seq<Block>, live: map<nat, nat>, lo: nat, hi: nat, i: nat, size: nat)
    requires InOrder(free) && LiveOk(live) && Tiles(free, live, lo, hi) && size < WRAP
    requires i < |free| && 0 < BlockSize(size) <= free[i].size
    ensures size <= WRAP - 12 ==> RoomFor(live, live[free[i].addr := BlockSize(size)], free[i].addr, size)
  {
    InOrderIsOrdered(free);
    BlockSizeFits(size);
    NotLive(free, live, lo, hi, i);
    forall a {:trigger a in live} | a in live
      ensures a + live[a] <= free[i].addr || free[i].addr + BlockSize(size) <= a
    {
      LiveApart(free, live, lo, hi, a);
    }
  }
}
