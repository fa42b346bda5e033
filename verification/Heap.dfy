/** The heap allocator of software/runtime/alloc.c: a free list threaded through the memory it
    manages. */
module Heap {
  import opened FreeList

  type Memory = map<int, int>   // 32-bit words by byte address

  const WRAP: nat := 0x1_0000_0000
  const MAX_BLOCK: nat := 0x100_0000

  // ---------------------------------------------------------------------------------------------
  // Sizes and canaries
  // ---------------------------------------------------------------------------------------------

  /** ALIGN_UP(addr, 8) on 32 bits. */
  function AlignUp(addr: nat): nat {
    (addr + 7) % WRAP / 8 * 8
  }

  function AlignDown(addr: nat): nat {
    addr / 8 * 8
  }

  /** The block size `domain_malloc` computes, including the header word. */
  function BlockSize(size: nat): (r: nat)
    ensures r % 8 == 0
  {
    AlignUp((size + 4) % WRAP)
  }

  /** The computed block has room for header and payload exactly for requests below 2^32 - 11. */
  lemma {:induction false} BlockSizeFits(size: nat)
    requires size < WRAP
    ensures size + 4 <= BlockSize(size) <==> size <= WRAP - 12
    ensures size <= WRAP - 12 ==> BlockSize(size) < size + 12
    ensures size > WRAP - 12 ==> BlockSize(size) <= 8
  {
  }

  function Canary(ptr: nat): nat {
    ptr % 256
  }

  /** (size << 8) | canary on 32 bits. */
  function Encode(ptr: nat, size: nat): nat {
    size * 256 % WRAP + Canary(ptr)
  }

  function SizeOf(word: nat): nat {
    word / 256
  }

  /** The header of a block gives back its canary and its size, if that is below 2^24. */
  lemma {:induction false} Decode(ptr: nat, size: nat)
    requires size < MAX_BLOCK
    ensures SizeOf(Encode(ptr, size)) == size && Encode(ptr, size) % 256 == Canary(ptr)
  {
  }

  // ---------------------------------------------------------------------------------------------
  // The list in memory
  // ---------------------------------------------------------------------------------------------

  /** Pointer to block i, NULL behind the last one. */
  function Ptr(bs: seq<Block>, i: nat): nat {
    if i < |bs| then bs[i].addr else 0
  }

  /** The two words of a free block: its size and the next pointer. */
  predicate Node(mem: Memory, b: Block, next: int) {
    b.addr in mem && b.addr + 4 in mem && mem[b.addr] == b.size && mem[b.addr + 4] == next
  }

  ghost predicate Linked(first: int, mem: Memory, bs: seq<Block>) {
    && first == Ptr(bs, 0)
    && forall i :: 0 <= i < |bs| ==> NodeAt(mem, bs, i)
  }

  /** Block i is linked to block i + 1. */
  predicate NodeAt(mem: Memory, bs: seq<Block>, i: nat) {
    i < |bs| && Node(mem, bs[i], Ptr(bs, i + 1))
  }

  predicate Positive(bs: seq<Block>, i: nat) {
    i < |bs| ==> bs[i].addr > 0 && bs[i].size > 0
  }

  predicate Before(bs: seq<Block>, i: nat, j: nat) {
    i < j < |bs| ==> bs[i].End() < bs[j].addr
  }

  /** Ordered, to be instantiated on demand. */
  ghost predicate InOrder(bs: seq<Block>) {
    (forall i: nat :: Positive(bs, i)) && (forall i: nat, j: nat :: Before(bs, i, j))
  }

  lemma {:induction false} InOrderIsOrdered(bs: seq<Block>)
    ensures InOrder(bs) <==> Ordered(bs)
  {
    if InOrder(bs) {
      forall i | 0 <= i < |bs| ensures bs[i].addr > 0 && bs[i].size > 0 {
        assert Positive(bs, i);
      }
      forall i, j | 0 <= i < j < |bs| ensures bs[i].End() < bs[j].addr {
        assert Before(bs, i, j);
      }
    }
  }

  /** The pointers in memory spell out a well-formed free list. */
  ghost predicate ListIs(first: int, mem: Memory, bs: seq<Block>) {
    InOrder(bs) && AllEven(bs) && Linked(first, mem, bs)
  }

  ghost predicate BigEnough(bs: seq<Block>) {
    forall i {:trigger bs[i]} :: 0 <= i < |bs| ==> bs[i].size >= 8
  }

  lemma {:induction false} EvenIsBig(bs: seq<Block>)
    requires Ordered(bs) && AllEven(bs)
    ensures BigEnough(bs)
  {
    forall i {:trigger bs[i]} | 0 <= i < |bs| ensures bs[i].size >= 8 {
      assert Even(bs[i]) && bs[i].size > 0;
    }
  }

  predicate SameNode(mem: Memory, mem': Memory, b: Block) {
    && b.addr in mem && b.addr + 4 in mem && b.addr in mem' && b.addr + 4 in mem'
    && mem'[b.addr] == mem[b.addr] && mem'[b.addr + 4] == mem[b.addr + 4]
  }

  /** Only the words in w may have changed. */
  ghost predicate AgreeExcept(mem: Memory, mem': Memory, w: set<int>) {
    forall a {:trigger a in mem} {:trigger mem'[a]} :: a in mem ==> a in mem' && (a !in w ==> mem'[a] == mem[a])
  }

  /** Every word of w lies in one of the blocks. */
  ghost predicate Within(w: set<int>, bs: seq<Block>) {
    forall a :: a in w ==> FreeAt(bs, a)
  }

  /** Words of other blocks do not touch the node of block k. */
  lemma {:induction false} NodeSafe(mem: Memory, mem': Memory, w: set<int>, bs: seq<Block>, k: nat)
    requires BigEnough(bs) && NodeAt(mem, bs, k)
    requires AgreeExcept(mem, mem', w)
    requires forall a :: a in w ==> a < bs[k].addr || bs[k].End() <= a
    ensures SameNode(mem, mem', bs[k]) && NodeAt(mem', bs, k)
  {
    assert bs[k].size >= 8;
  }

  /** Linking block m in place of blocks [i, j). */
  lemma {:induction false} LinkedReplace(first: int, mem: Memory, bs: seq<Block>, i: nat, j: nat, m: Block, first': int, mem': Memory)
    requires Linked(first, mem, bs) && i <= j <= |bs|
    requires Node(mem', m, Ptr(bs, j))
    requires i == 0 ==> first' == m.addr
    requires i > 0 ==> first' == first && Node(mem', bs[i - 1], m.addr)
    requires forall k {:trigger SameNode(mem, mem', bs[k])} :: 0 <= k < i - 1 || j <= k < |bs| ==> SameNode(mem, mem', bs[k])
    ensures Linked(first', mem', Replace(bs, i, j, m))
  {
    var cs := Replace(bs, i, j, m);
    forall k | 0 <= k < |cs|
      ensures NodeAt(mem', cs, k)
    {
      if k < i {
        assert cs[k] == bs[k] && NodeAt(mem, bs, k) && (k < i - 1 ==> SameNode(mem, mem', bs[k]));
      } else if k > i {
        var k' := k - 1 + j - i;
        assert cs[k] == bs[k'] && NodeAt(mem, bs, k') && SameNode(mem, mem', bs[k']);
      }
    }
  }

  lemma {:induction false} LinkedRemove(first: int, mem: Memory, bs: seq<Block>, i: nat, first': int, mem': Memory)
    requires Linked(first, mem, bs) && i < |bs|
    requires i == 0 ==> first' == Ptr(bs, 1)
    requires i > 0 ==> first' == first && Node(mem', bs[i - 1], Ptr(bs, i + 1))
    requires forall k {:trigger SameNode(mem, mem', bs[k])} :: 0 <= k < i - 1 || i < k < |bs| ==> SameNode(mem, mem', bs[k])
    ensures Linked(first', mem', Remove(bs, i))
  {
    var cs := Remove(bs, i);
    forall k | 0 <= k < |cs|
      ensures NodeAt(mem', cs, k)
    {
      var k' := if k < i then k else k + 1;
      assert cs[k] == bs[k'] && NodeAt(mem, bs, k') && (k' != i - 1 ==> SameNode(mem, mem', bs[k']));
    }
  }

  // ---------------------------------------------------------------------------------------------
  // Live blocks
  // ---------------------------------------------------------------------------------------------

  predicate LiveBlock(live: map<nat, nat>, a: nat, x: int)
    requires a in live
  {
    a <= x < a + live[a]
  }

  ghost predicate LiveAt(live: map<nat, nat>, x: int) {
    exists a :: a in live && LiveBlock(live, a, x)
  }

  ghost predicate LiveOk(live: map<nat, nat>) {
    && (forall a {:trigger live[a]} :: a in live ==> a > 0 && 0 < live[a] < MAX_BLOCK && Even(Block(a, live[a])))
    && (forall a, b {:trigger live[a], live[b]} :: a in live && b in live && a < b ==> a + live[a] <= b)
  }

  ghost predicate Headers(mem: Memory, live: map<nat, nat>) {
    forall a {:trigger live[a]} :: a in live ==> a in mem && mem[a] == Encode(a, live[a])
  }

  /** Free and live blocks tile [lo, hi) without gap or overlap. */
  ghost predicate Tiles(free: seq<Block>, live: map<nat, nat>, lo: nat, hi: nat) {
    && (forall x {:trigger FreeAt(free, x)} :: FreeAt(free, x) <==> lo <= x < hi && !LiveAt(live, x))
    && (forall a {:trigger live[a]} :: a in live ==> lo <= a && a + live[a] <= hi)
  }

  /** With nothing live the free list is the one initial block. */
  lemma {:induction false} EmptyHeapIsOneBlock(free: seq<Block>, lo: nat, hi: nat)
    requires Ordered(free) && Tiles(free, map[], lo, hi) && 0 < lo < hi
    ensures free == [Block(lo, hi - lo)]
  {
    var one := [Block(lo, hi - lo)];
    forall x ensures FreeAt(free, x) <==> FreeAt(one, x) {
      assert Holds(one[0], x) <==> lo <= x < hi;
      assert !LiveAt(map[], x);
    }
    Canonical(free, one);
  }

  /** The free list is a function of the region and the live blocks. */
  lemma {:induction false} FreeListDetermined(free: seq<Block>, free': seq<Block>, live: map<nat, nat>, lo: nat, hi: nat)
    requires Ordered(free) && Ordered(free') && Tiles(free, live, lo, hi) && Tiles(free', live, lo, hi)
    ensures free == free'
  {
    forall x ensures FreeAt(free, x) <==> FreeAt(free', x) {
    }
    Canonical(free, free');
  }

  /** A live block is apart from the free list. */
  lemma {:induction false} LiveApart(free: seq<Block>, live: map<nat, nat>, lo: nat, hi: nat, a: nat)
    requires Ordered(free) && LiveOk(live) && Tiles(free, live, lo, hi) && a in live
    ensures Apart(free, Block(a, live[a]))
  {
    forall i | 0 <= i < |free|
      ensures free[i].End() <= a || a + live[a] <= free[i].addr
    {
      var x := if free[i].addr <= a then a else free[i].addr;
      if free[i].End() > a && a + live[a] > free[i].addr {
        assert Holds(free[i], x) && FreeAt(free, x) && LiveBlock(live, a, x);
      }
    }
  }

  lemma {:induction false} TilesAfterTake(free: seq<Block>, live: map<nat, nat>, lo: nat, hi: nat, i: nat, size: nat)
    requires Ordered(free) && LiveOk(live) && Tiles(free, live, lo, hi)
    requires i < |free| && 0 < size <= free[i].size
    ensures Tiles(Take(free, i, size), live[free[i].addr := size], lo, hi)
  {
    var a := free[i].addr;
    var live' := live[a := size];
    NotLive(free, live, lo, hi, i);
    forall x {:trigger FreeAt(Take(free, i, size), x)}
      ensures FreeAt(Take(free, i, size), x) <==> lo <= x < hi && !LiveAt(live', x)
    {
      TakeBytes(free, i, size, x);
      AddLive(live, a, size, x);
      if Holds(Block(a, size), x) {
        assert Holds(free[i], x);
      }
    }
    assert FreeAt(free, a) by { assert Holds(free[i], a); }
    assert FreeAt(free, a + size - 1) by { assert Holds(free[i], a + size - 1); }
  }

  lemma {:induction false} StartsLive(live: map<nat, nat>, a: nat)
    requires LiveOk(live) && a in live
    ensures LiveAt(live, a)
  {
    assert live[a] > 0 && LiveBlock(live, a, a);
  }

  /** No live block starts at a free block. */
  lemma {:induction false} NotLive(free: seq<Block>, live: map<nat, nat>, lo: nat, hi: nat, i: nat)
    requires Ordered(free) && LiveOk(live) && Tiles(free, live, lo, hi) && i < |free|
    ensures free[i].addr !in live
  {
    var a := free[i].addr;
    assert Holds(free[i], a) && FreeAt(free, a);
    if a in live {
      StartsLive(live, a);
    }
  }

  lemma {:induction false} AddLive(live: map<nat, nat>, a: nat, size: nat, x: int)
    requires a !in live
    ensures LiveAt(live[a := size], x) <==> LiveAt(live, x) || a <= x < a + size
  {
    var live' := live[a := size];
    if LiveAt(live, x) {
      var b :| b in live && LiveBlock(live, b, x);
      assert LiveBlock(live', b, x);
    }
    if a <= x < a + size {
      assert LiveBlock(live', a, x);
    }
    if LiveAt(live', x) {
      var b :| b in live' && LiveBlock(live', b, x);
      assert b == a || LiveBlock(live, b, x);
    }
  }

  lemma {:induction false} LiveAfterTake(free: seq<Block>, live: map<nat, nat>, lo: nat, hi: nat, i: nat, size: nat)
    requires Ordered(free) && AllEven(free) && LiveOk(live) && Tiles(free, live, lo, hi)
    requires i < |free| && 0 < size <= free[i].size && size < MAX_BLOCK && size % 8 == 0
    ensures LiveOk(live[free[i].addr := size])
  {
    var a := free[i].addr;
    NotLive(free, live, lo, hi, i);
    assert Even(free[i]);
    forall b | b in live
      ensures b < a ==> b + live[b] <= a
      ensures a < b ==> a + size <= b
    {
      LiveApart(free, live, lo, hi, b);
    }
  }

  lemma {:induction false} TilesAfterFree(free: seq<Block>, live: map<nat, nat>, lo: nat, hi: nat, a: nat)
    requires Ordered(free) && LiveOk(live) && Tiles(free, live, lo, hi) && a in live
    ensures Tiles(Insert(free, Block(a, live[a])), live - {a}, lo, hi)
  {
    var b, live' := Block(a, live[a]), live - {a};
    LiveApart(free, live, lo, hi, a);
    forall x {:trigger FreeAt(Insert(free, b), x)}
      ensures FreeAt(Insert(free, b), x) <==> lo <= x < hi && !LiveAt(live', x)
    {
      InsertBytes(free, b, x);
      DropLive(live, a, x);
    }
  }

  lemma {:induction false} DropLive(live: map<nat, nat>, a: nat, x: int)
    requires LiveOk(live) && a in live
    ensures LiveAt(live - {a}, x) <==> LiveAt(live, x) && !(a <= x < a + live[a])
  {
    var live' := live - {a};
    if LiveAt(live', x) {
      var b :| b in live' && LiveBlock(live', b, x);
      assert LiveBlock(live, b, x);
      assert a < b ==> a + live[a] <= b;
      assert b < a ==> b + live[b] <= a;
    }
    if LiveAt(live, x) && !(a <= x < a + live[a]) {
      var b :| b in live && LiveBlock(live, b, x);
      assert b in live' && LiveBlock(live', b, x);
    }
  }

  // ---------------------------------------------------------------------------------------------
  // The heap as a whole
  // ---------------------------------------------------------------------------------------------

  /** Words outside the blocks keep their contents. */
  ghost predicate Kept(mem: Memory, mem': Memory, bs: seq<Block>) {
    forall a {:trigger mem'[a]} {:trigger a in mem} :: a in mem ==> a in mem' && (FreeAt(bs, a) || mem'[a] == mem[a])
  }

  /** The free list is address-sorted, aligned and coalesced, and with the live blocks it tiles
      [lo, hi) exactly; every live block still has its header. */
  ghost predicate HeapOk(first: int, mem: Memory, free: seq<Block>, live: map<nat, nat>, lo: nat, hi: nat) {
    && 0 < lo < hi < WRAP
    && ListIs(first, mem, free) && LiveOk(live) && Headers(mem, live) && Tiles(free, live, lo, hi)
    && (forall a {:trigger a in mem} :: lo <= a < hi && a % 4 == 0 ==> a in mem)
  }

  /** A list whose nodes keep their words is still the list. */
  lemma {:induction false} ListKept(first: int, mem: Memory, mem': Memory, bs: seq<Block>, b: Block)
    requires ListIs(first, mem, bs) && Apart(bs, b) && Kept(mem, mem', [b])
    ensures ListIs(first, mem', bs)
  {
    InOrderIsOrdered(bs);
    EvenIsBig(bs);
    forall i: nat | i < |bs|
      ensures NodeAt(mem', bs, i)
    {
      assert NodeAt(mem, bs, i) && bs[i].size >= 8;
      assert !Holds(b, bs[i].addr) && !Holds(b, bs[i].addr + 4);
      OneBlock(b, bs[i].addr);
      OneBlock(b, bs[i].addr + 4);
    }
  }

  lemma {:induction false} OneBlock(b: Block, x: int)
    ensures FreeAt([b], x) <==> Holds(b, x)
  {
    if Holds(b, x) {
      assert Holds([b][0], x);
    }
  }

  /** The word at x of a live block is not free. */
  lemma {:induction false} LiveWord(free: seq<Block>, live: map<nat, nat>, lo: nat, hi: nat, a: nat, x: int)
    requires Tiles(free, live, lo, hi) && a in live && a <= x < a + live[a]
    ensures !FreeAt(free, x)
  {
    assert LiveBlock(live, a, x);
  }

  /** malloc: block i gives its front to a new live block with its header. */
  lemma {:induction false} MallocKeeps(first: int, mem: Memory, free: seq<Block>, live: map<nat, nat>, lo: nat, hi: nat,
                    i: nat, size: nat, first': int, mid: Memory)
    requires HeapOk(first, mem, free, live, lo, hi)
    requires i < |free| && 0 < size <= free[i].size && size < MAX_BLOCK && size % 8 == 0
    requires ListIs(first', mid, Take(free, i, size)) && Kept(mem, mid, free)
    ensures HeapOk(first', mid[free[i].addr := Encode(free[i].addr, size)], Take(free, i, size),
                   live[free[i].addr := size], lo, hi)
  {
    var a := free[i].addr;
    var mem', b := mid[a := Encode(a, size)], Block(a, size);
    InOrderIsOrdered(free);
    TilesAfterTake(free, live, lo, hi, i, size);
    LiveAfterTake(free, live, lo, hi, i, size);
    TakeApart(free, i, size);
    OneBlock(b, a);
    ListKept(first', mid, mem', Take(free, i, size), b);
    MallocHeaders(mem, free, live, lo, hi, i, size, mid);
  }

  lemma {:induction false} MallocHeaders(mem: Memory, free: seq<Block>, live: map<nat, nat>, lo: nat, hi: nat, i: nat, size: nat, mid: Memory)
    requires Ordered(free) && LiveOk(live) && Headers(mem, live) && Tiles(free, live, lo, hi) && i < |free|
    requires Kept(mem, mid, free)
    ensures Headers(mid[free[i].addr := Encode(free[i].addr, size)], live[free[i].addr := size])
  {
    var a := free[i].addr;
    var mem', live' := mid[a := Encode(a, size)], live[a := size];
    NotLive(free, live, lo, hi, i);
    forall b {:trigger live'[b]} | b in live'
      ensures b in mem' && mem'[b] == Encode(b, live'[b])
    {
      if b != a {
        assert live[b] > 0;
        LiveWord(free, live, lo, hi, b, b);
      }
    }
  }

  /** free: a live block goes back to the list. */
  lemma {:induction false} FreeKeeps(first: int, mem: Memory, free: seq<Block>, live: map<nat, nat>, lo: nat, hi: nat,
                  a: nat, first': int, mem': Memory)
    requires HeapOk(first, mem, free, live, lo, hi) && a in live
    requires var b := Block(a, live[a]); ListIs(first', mem', Insert(free, b)) && Kept(mem, mem', free + [b])
    ensures HeapOk(first', mem', Insert(free, Block(a, live[a])), live - {a}, lo, hi)
  {
    var b, live' := Block(a, live[a]), live - {a};
    InOrderIsOrdered(free);
    TilesAfterFree(free, live, lo, hi, a);
    forall x {:trigger x in mem'} | lo <= x < hi && x % 4 == 0 ensures x in mem' {
      assert x in mem;
    }
    forall c {:trigger live'[c]} | c in live'
      ensures c in mem' && mem'[c] == Encode(c, live'[c])
    {
      assert live[c] > 0 && (a < c ==> a + live[a] <= c);
      LiveWord(free, live, lo, hi, c, c);
      NotInBoth(free, b, c);
    }
  }

  lemma {:induction false} NotInBoth(free: seq<Block>, b: Block, x: int)
    requires !FreeAt(free, x) && !Holds(b, x)
    ensures !FreeAt(free + [b], x)
  {
    var cs := free + [b];
    forall k | 0 <= k < |cs| ensures !Holds(cs[k], x) {
      assert cs[k] == if k < |free| then free[k] else b;
    }
  }

  /** A client's store inside its payload keeps the heap. */
  lemma {:induction false} StoreKeeps(first: int, mem: Memory, free: seq<Block>, live: map<nat, nat>, lo: nat, hi: nat, a: nat, addr: int, v: int)
    requires HeapOk(first, mem, free, live, lo, hi) && a in live && a + 4 <= addr < a + live[a]
    ensures HeapOk(first, mem[addr := v], free, live, lo, hi)
  {
    var b, mem' := Block(a, live[a]), mem[addr := v];
    InOrderIsOrdered(free);
    LiveApart(free, live, lo, hi, a);
    OneBlock(b, addr);
    ListKept(first, mem, mem', free, b);
    forall c {:trigger live[c]} | c in live
      ensures c in mem' && mem'[c] == Encode(c, live[c])
    {
      assert c < a ==> c + live[c] <= a;
      assert a < c ==> a + live[a] <= c;
    }
  }
}
