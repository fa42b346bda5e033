/** Address-ordered, fully coalesced lists of free blocks (software/runtime/alloc.c), as values. */
module FreeList {

  datatype Block = Block(addr: nat, size: nat) {
    function End(): nat { addr + size }
  }

  /** Blocks are non-empty, address-sorted, and never touch each other. */
  ghost predicate Ordered(bs: seq<Block>) {
    && (forall i :: 0 <= i < |bs| ==> bs[i].addr > 0 && bs[i].size > 0)
    && (forall i, j :: 0 <= i < j < |bs| ==> bs[i].End() < bs[j].addr)
  }

  /** Addresses and sizes are multiples of MIN_BLOCK_SIZE. */
  predicate Even(b: Block) {
    b.addr % 8 == 0 && b.size % 8 == 0
  }

  ghost predicate AllEven(bs: seq<Block>) {
    forall i {:trigger Even(bs[i])} :: 0 <= i < |bs| ==> Even(bs[i])
  }

  predicate Holds(b: Block, x: int) {
    b.addr <= x < b.End()
  }

  /** Byte x is free. */
  ghost predicate FreeAt(bs: seq<Block>, x: int) {
    exists i :: 0 <= i < |bs| && Holds(bs[i], x)
  }

  // ---------------------------------------------------------------------------------------------
  // The coalesced list is determined by the set of free bytes
  // ---------------------------------------------------------------------------------------------

  lemma {:induction false} TailFree(bs: seq<Block>, x: int)
    requires Ordered(bs) && bs != []
    ensures FreeAt(bs[1..], x) <==> FreeAt(bs, x) && !Holds(bs[0], x)
  {
    if FreeAt(bs[1..], x) {
      var i :| 0 <= i < |bs[1..]| && Holds(bs[1..][i], x);
      assert Holds(bs[i + 1], x);
    }
    if FreeAt(bs, x) && !Holds(bs[0], x) {
      var i :| 0 <= i < |bs| && Holds(bs[i], x);
      assert Holds(bs[1..][i - 1], x);
    }
  }

  /** Nothing is free below the first block, nor right behind it. */
  lemma {:induction false} HeadFacts(bs: seq<Block>, x: int)
    requires Ordered(bs) && bs != []
    ensures x < bs[0].addr ==> !FreeAt(bs, x)
    ensures FreeAt(bs, bs[0].addr) && !FreeAt(bs, bs[0].End())
    ensures Holds(bs[0], x) ==> FreeAt(bs, x)
  {
    assert Holds(bs[0], bs[0].addr);
  }

  /** Two coalesced lists with the same free bytes are the same list. */
  lemma {:induction false} Canonical(bs: seq<Block>, cs: seq<Block>)
    requires Ordered(bs) && Ordered(cs)
    requires forall x :: FreeAt(bs, x) <==> FreeAt(cs, x)
    ensures bs == cs
    decreases |bs|
  {
    if bs == [] {
      if cs != [] {
        HeadFacts(cs, 0);
      }
    } else {
      HeadFacts(bs, 0);
      assert FreeAt(cs, bs[0].addr);
      SameHead(bs, cs);
      SameTail(bs, cs);
      Canonical(bs[1..], cs[1..]);
      assert bs == [bs[0]] + bs[1..] && cs == [cs[0]] + cs[1..];
    }
  }

  lemma {:induction false} SameHead(bs: seq<Block>, cs: seq<Block>)
    requires Ordered(bs) && Ordered(cs) && bs != [] && cs != []
    requires forall x :: FreeAt(bs, x) <==> FreeAt(cs, x)
    ensures bs[0] == cs[0]
  {
    HeadFacts(bs, cs[0].addr);
    HeadFacts(cs, bs[0].addr);
    HeadFacts(bs, cs[0].End());
    HeadFacts(cs, bs[0].End());
  }

  lemma {:induction false} SameTail(bs: seq<Block>, cs: seq<Block>)
    requires Ordered(bs) && Ordered(cs) && bs != [] && cs != [] && bs[0] == cs[0]
    requires forall x :: FreeAt(bs, x) <==> FreeAt(cs, x)
    ensures Ordered(bs[1..]) && Ordered(cs[1..])
    ensures forall x :: FreeAt(bs[1..], x) <==> FreeAt(cs[1..], x)
  {
    forall x ensures FreeAt(bs[1..], x) <==> FreeAt(cs[1..], x) {
      TailFree(bs, x);
      TailFree(cs, x);
    }
  }

  // ---------------------------------------------------------------------------------------------
  // Taking and inserting blocks
  // ---------------------------------------------------------------------------------------------

  /** Position of the first block, from i on, of at least `size` bytes; |bs| if there is none. */
  function FitFrom(bs: seq<Block>, i: nat, size: nat): (r: nat)
    requires i <= |bs|
    ensures i <= r <= |bs| && (r < |bs| ==> bs[r].size >= size)
    decreases |bs| - i
  {
    if i == |bs| || bs[i].size >= size then i else FitFrom(bs, i + 1, size)
  }

  function FirstFit(bs: seq<Block>, size: nat): (r: nat)
    ensures r <= |bs| && (r < |bs| ==> bs[r].size >= size)
  {
    FitFrom(bs, 0, size)
  }

  /** First fit: the lowest-addressed sufficient block, and none exactly when no block suffices. */
  lemma {:induction false} FirstFitIsLowest(bs: seq<Block>, i: nat, size: nat)
    requires i <= |bs|
    ensures var r := FitFrom(bs, i, size);
            && i <= r <= |bs| && (forall j :: i <= j < r ==> bs[j].size < size) && (r < |bs| ==> bs[r].size >= size)
            && (r == |bs| <==> forall j :: i <= j < |bs| ==> bs[j].size < size)
    decreases |bs| - i
  {
    if i < |bs| && bs[i].size < size {
      FirstFitIsLowest(bs, i + 1, size);
    }
  }

  /** Blocks [i, j) replaced by m. */
  function Replace(bs: seq<Block>, i: nat, j: nat, m: Block): (cs: seq<Block>)
    requires i <= j <= |bs|
    ensures |cs| == |bs| - (j - i) + 1
    ensures forall k {:trigger cs[k]} :: 0 <= k < |cs| ==>
              cs[k] == if k < i then bs[k] else if k == i then m else bs[k - 1 + j - i]
  {
    bs[..i] + [m] + bs[j..]
  }

  /** Block i removed. */
  function Remove(bs: seq<Block>, i: nat): (cs: seq<Block>)
    requires i < |bs|
    ensures |cs| == |bs| - 1
    ensures forall k {:trigger cs[k]} :: 0 <= k < |cs| ==> cs[k] == if k < i then bs[k] else bs[k + 1]
  {
    bs[..i] + bs[i + 1..]
  }

  /** The list after `size` bytes are cut from the front of block i. */
  function Take(bs: seq<Block>, i: nat, size: nat): seq<Block>
    requires i < |bs| && size <= bs[i].size
  {
    if bs[i].size == size then Remove(bs, i)
    else Replace(bs, i, i + 1, Block(bs[i].addr + size, bs[i].size - size))
  }

  /** Position of the first block, from i on, that starts at or above `a`. */
  function PositionFrom(bs: seq<Block>, i: nat, a: nat): (r: nat)
    requires i <= |bs|
    ensures i <= r <= |bs| && (r < |bs| ==> bs[r].addr >= a) && (r > i ==> bs[r - 1].addr < a)
    decreases |bs| - i
  {
    if i == |bs| || bs[i].addr >= a then i else PositionFrom(bs, i + 1, a)
  }

  function Position(bs: seq<Block>, a: nat): (p: nat)
    ensures IsPosition(bs, a, p)
  {
    PositionFrom(bs, 0, a)
  }

  predicate IsPosition(bs: seq<Block>, a: nat, p: nat) {
    && p <= |bs|
    && (p < |bs| ==> bs[p].addr >= a)
    && (p > 0 ==> bs[p - 1].addr < a)
  }

  /** First and last position of the blocks that b, put at p, merges with, and the merged block. */
  function Low(bs: seq<Block>, p: nat, b: Block): (i: nat)
    requires p <= |bs|
    ensures i <= p <= i + 1
  {
    if p > 0 && bs[p - 1].End() == b.addr then p - 1 else p
  }

  function High(bs: seq<Block>, p: nat, b: Block): (i: nat)
    requires p <= |bs|
    ensures p <= i <= p + 1 && i <= |bs|
  {
    if p < |bs| && b.End() == bs[p].addr then p + 1 else p
  }

  function Merged(bs: seq<Block>, p: nat, b: Block): Block
    requires p <= |bs|
  {
    var size := if High(bs, p, b) > p then b.size + bs[p].size else b.size;
    if Low(bs, p, b) < p then Block(bs[p - 1].addr, bs[p - 1].size + size) else Block(b.addr, size)
  }

  function InsertAt(bs: seq<Block>, p: nat, b: Block): seq<Block>
    requires p <= |bs|
  {
    Replace(bs, Low(bs, p, b), High(bs, p, b), Merged(bs, p, b))
  }

  /** The list after block b is given back. */
  function Insert(bs: seq<Block>, b: Block): seq<Block> {
    InsertAt(bs, Position(bs, b.addr), b)
  }

  /** Block b can be given back: it is well formed and none of its bytes is free. */
  ghost predicate Apart(bs: seq<Block>, b: Block) {
    && b.addr > 0 && b.size > 0
    && forall i :: 0 <= i < |bs| ==> bs[i].End() <= b.addr || b.End() <= bs[i].addr
  }

  lemma {:induction false} ReplaceOrdered(cs: seq<Block>, bs: seq<Block>, i: nat, j: nat, m: Block)
    requires Ordered(bs) && i <= j <= |bs| && m.addr > 0 && m.size > 0 && cs == Replace(bs, i, j, m)
    requires i > 0 ==> bs[i - 1].End() < m.addr
    requires j < |bs| ==> m.End() < bs[j].addr
    ensures Ordered(cs)
  {
    var d := j - i - 1;
    forall k, l | 0 <= k < l < |cs|
      ensures cs[k].End() < cs[l].addr
    {
      if l < i {
        assert cs[k] == bs[k] && cs[l] == bs[l];
      } else if l == i {
        assert cs[k] == bs[k];
        assert k < i - 1 ==> bs[k].End() < bs[i - 1].addr;
      } else if k < i {
        assert cs[k] == bs[k] && cs[l] == bs[l + d];
      } else if k == i {
        assert cs[l] == bs[l + d];
        assert l + d > j ==> bs[j].End() < bs[l + d].addr;
      } else {
        assert cs[k] == bs[k + d] && cs[l] == bs[l + d];
      }
    }
  }

  lemma {:induction false} RemoveOrdered(bs: seq<Block>, i: nat)
    requires Ordered(bs) && i < |bs|
    ensures Ordered(Remove(bs, i))
  {
  }

  /** What a replacement by a block that swallows the replaced ones frees. */
  lemma {:induction false} ReplaceBytes(bs: seq<Block>, i: nat, j: nat, m: Block, x: int)
    requires i <= j <= |bs|
    requires forall k :: i <= k < j && Holds(bs[k], x) ==> Holds(m, x)
    ensures FreeAt(Replace(bs, i, j, m), x) <==> FreeAt(bs, x) || Holds(m, x)
  {
    var cs, d := Replace(bs, i, j, m), j - i - 1;
    assert cs[i] == m;
    if FreeAt(bs, x) && !Holds(m, x) {
      var k :| 0 <= k < |bs| && Holds(bs[k], x);
      var k' := if k < i then k else k - d;
      assert cs[k'] == bs[k];
    }
    if FreeAt(cs, x) && !Holds(m, x) {
      var k :| 0 <= k < |cs| && Holds(cs[k], x);
      assert FreeAt(bs, x) by {
        var k' := if k < i then k else k + d;
        assert cs[k] == bs[k'];
      }
    }
  }

  lemma {:induction false} TakeOrdered(bs: seq<Block>, i: nat, size: nat)
    requires Ordered(bs) && i < |bs| && 0 < size <= bs[i].size
    ensures Ordered(Take(bs, i, size))
  {
    if bs[i].size == size {
      RemoveOrdered(bs, i);
    } else {
      ReplaceOrdered(Take(bs, i, size), bs, i, i + 1, Block(bs[i].addr + size, bs[i].size - size));
    }
  }

  lemma {:induction false} TakeApart(bs: seq<Block>, i: nat, size: nat)
    requires Ordered(bs) && i < |bs| && 0 < size <= bs[i].size
    ensures Apart(Take(bs, i, size), Block(bs[i].addr, size))
  {
  }

  /** cs is bs without block i. */
  ghost predicate Without(cs: seq<Block>, bs: seq<Block>, i: nat) {
    && |cs| + 1 == |bs| && i < |bs|
    && (forall k {:trigger cs[k]} :: 0 <= k < |cs| ==> cs[k] == if k < i then bs[k] else bs[k + 1])
  }

  lemma {:induction false} WithoutBytes(cs: seq<Block>, bs: seq<Block>, i: nat, x: int)
    requires Ordered(bs) && Without(cs, bs, i)
    ensures FreeAt(cs, x) <==> FreeAt(bs, x) && !Holds(bs[i], x)
  {
    if FreeAt(bs, x) && !Holds(bs[i], x) {
      var k :| 0 <= k < |bs| && Holds(bs[k], x);
      var k' := if k < i then k else k - 1;
      assert cs[k'] == bs[k];
    }
    if FreeAt(cs, x) {
      var k :| 0 <= k < |cs| && Holds(cs[k], x);
      var k' := if k < i then k else k + 1;
      assert cs[k] == bs[k'];
    }
  }

  lemma {:induction false} RemoveBytes(bs: seq<Block>, i: nat, x: int)
    requires Ordered(bs) && i < |bs|
    ensures FreeAt(Remove(bs, i), x) <==> FreeAt(bs, x) && !Holds(bs[i], x)
  {
    WithoutBytes(Remove(bs, i), bs, i, x);
  }

  lemma {:induction false} TakeBytes(bs: seq<Block>, i: nat, size: nat, x: int)
    requires Ordered(bs) && i < |bs| && 0 < size <= bs[i].size
    ensures FreeAt(Take(bs, i, size), x) <==> FreeAt(bs, x) && !Holds(Block(bs[i].addr, size), x)
  {
    RemoveBytes(bs, i, x);
    if bs[i].size > size {
      CutBytes(bs, i, size, x);
    }
  }

  lemma {:induction false} CutBytes(bs: seq<Block>, i: nat, size: nat, x: int)
    requires Ordered(bs) && i < |bs| && 0 < size < bs[i].size
    ensures FreeAt(Take(bs, i, size), x) <==> FreeAt(bs, x) && !Holds(Block(bs[i].addr, size), x)
  {
    var cs := Take(bs, i, size);
    if FreeAt(cs, x) {
      var k :| 0 <= k < |cs| && Holds(cs[k], x);
      assert Holds(bs[k], x);
    }
    if FreeAt(bs, x) && !Holds(Block(bs[i].addr, size), x) {
      var k :| 0 <= k < |bs| && Holds(bs[k], x);
      assert Holds(cs[k], x);
    }
  }

  /** Each remaining block is an old one, or the tail of the cut one. */
  lemma {:induction false} TakenFrom(bs: seq<Block>, i: nat, size: nat, k: nat)
    requires i < |bs| && size <= bs[i].size && k < |Take(bs, i, size)|
    ensures Take(bs, i, size)[k] ==
              if bs[i].size == size && k >= i then bs[k + 1]
              else if k == i then Block(bs[i].addr + size, bs[i].size - size) else bs[k]
  {
  }

  /** The merged block: well formed, strictly between its neighbours, holding b and what b touched. */
  lemma {:induction false} MergedFacts(bs: seq<Block>, p: nat, b: Block)
    requires Ordered(bs) && Apart(bs, b) && IsPosition(bs, b.addr, p)
    ensures var i, j, m := Low(bs, p, b), High(bs, p, b), Merged(bs, p, b);
            && m.addr > 0 && m.size > 0
            && (i > 0 ==> bs[i - 1].End() < m.addr) && (j < |bs| ==> m.End() < bs[j].addr)
            && m.addr == (if i < p then bs[p - 1].addr else b.addr)
            && m.End() == (if p < j then bs[p].End() else b.End())
            && m.addr <= b.addr && b.End() <= m.End()
  {
    if p < |bs| && bs[p].addr == b.addr {
      assert bs[p].End() <= b.addr || b.End() <= bs[p].addr;
    }
  }

  lemma {:induction false} InsertOrdered(bs: seq<Block>, b: Block)
    requires Ordered(bs) && Apart(bs, b)
    ensures Ordered(Insert(bs, b))
  {
    InsertAtOrdered(bs, Position(bs, b.addr), b);
  }

  lemma {:induction false} InsertAtOrdered(bs: seq<Block>, p: nat, b: Block)
    requires Ordered(bs) && Apart(bs, b) && IsPosition(bs, b.addr, p)
    ensures Ordered(InsertAt(bs, p, b))
  {
    MergedFacts(bs, p, b);
    ReplaceOrdered(InsertAt(bs, p, b), bs, Low(bs, p, b), High(bs, p, b), Merged(bs, p, b));
  }

  lemma {:induction false} InsertBytes(bs: seq<Block>, b: Block, x: int)
    requires Ordered(bs) && Apart(bs, b)
    ensures FreeAt(Insert(bs, b), x) <==> FreeAt(bs, x) || Holds(b, x)
  {
    InsertAtBytes(bs, Position(bs, b.addr), b, x);
  }

  lemma {:induction false} InsertAtBytes(bs: seq<Block>, p: nat, b: Block, x: int)
    requires Ordered(bs) && Apart(bs, b) && IsPosition(bs, b.addr, p)
    ensures FreeAt(InsertAt(bs, p, b), x) <==> FreeAt(bs, x) || Holds(b, x)
  {
    var i, j, m := Low(bs, p, b), High(bs, p, b), Merged(bs, p, b);
    MergedFacts(bs, p, b);
    ReplaceBytes(bs, i, j, m, x);
    if Holds(m, x) && !Holds(b, x) {
      if x < b.addr {
        assert Holds(bs[i], x);
      } else {
        assert Holds(bs[p], x);
      }
    }
  }

  lemma {:induction false} TakeEven(bs: seq<Block>, i: nat, size: nat)
    requires AllEven(bs) && i < |bs| && size <= bs[i].size && size % 8 == 0
    ensures AllEven(Take(bs, i, size))
  {
    var cs := Take(bs, i, size);
    assert Even(bs[i]);
    forall k {:trigger Even(cs[k])} | 0 <= k < |cs| ensures Even(cs[k]) {
      TakenFrom(bs, i, size, k);
      if bs[i].size == size && k >= i {
        assert Even(bs[k + 1]);
      } else if k != i {
        assert Even(bs[k]);
      }
    }
  }

  lemma {:induction false} ReplaceEven(bs: seq<Block>, i: nat, j: nat, m: Block)
    requires AllEven(bs) && i <= j <= |bs| && Even(m)
    ensures AllEven(Replace(bs, i, j, m))
  {
    var cs := Replace(bs, i, j, m);
    forall k {:trigger Even(cs[k])} | 0 <= k < |cs| ensures Even(cs[k]) {
      assert k == i || cs[k] == bs[if k < i then k else k - 1 + j - i];
      assert k < i ==> Even(bs[k]);
      assert k > i ==> Even(bs[k - 1 + j - i]);
    }
  }

  lemma {:induction false} EvenSum(addr: nat, a: nat, b: nat)
    requires Even(Block(addr, a)) && b % 8 == 0
    ensures Even(Block(addr, a + b))
  {
  }

  lemma {:induction false} InsertAtEven(bs: seq<Block>, p: nat, b: Block)
    requires AllEven(bs) && Even(b) && p <= |bs|
    ensures AllEven(InsertAt(bs, p, b))
  {
    var size := if High(bs, p, b) > p then b.size + bs[p].size else b.size;
    if High(bs, p, b) > p {
      assert Even(bs[p]);
      EvenSum(b.addr, b.size, bs[p].size);
    }
    if Low(bs, p, b) < p {
      assert Even(bs[p - 1]);
      EvenSum(bs[p - 1].addr, bs[p - 1].size, size);
    }
    ReplaceEven(bs, Low(bs, p, b), High(bs, p, b), Merged(bs, p, b));
  }

  /** A malloc immediately followed by its free restores the exact list. */
  lemma {:induction false} TakeInsert(bs: seq<Block>, i: nat, size: nat)
    requires Ordered(bs) && i < |bs| && 0 < size <= bs[i].size
    ensures Insert(Take(bs, i, size), Block(bs[i].addr, size)) == bs
  {
    var b := Block(bs[i].addr, size);
    TakeOrdered(bs, i, size);
    TakeApart(bs, i, size);
    InsertOrdered(Take(bs, i, size), b);
    forall x ensures FreeAt(Insert(Take(bs, i, size), b), x) <==> FreeAt(bs, x) {
      TakeBytes(bs, i, size, x);
      InsertBytes(Take(bs, i, size), b, x);
      if Holds(b, x) {
        assert Holds(bs[i], x);
      }
    }
    Canonical(Insert(Take(bs, i, size), b), bs);
  }

  /** A block apart from the list stays apart when another, disjoint block is given back. */
  lemma {:induction false} StillApart(bs: seq<Block>, b: Block, c: Block)
    requires Ordered(bs) && Apart(bs, b) && Apart(bs, c) && (b.End() <= c.addr || c.End() <= b.addr)
    ensures Apart(Insert(bs, b), c)
  {
    StillApartAt(bs, Position(bs, b.addr), b, c);
  }

  lemma {:induction false} StillApartAt(bs: seq<Block>, p: nat, b: Block, c: Block)
    requires Ordered(bs) && Apart(bs, b) && Apart(bs, c) && (b.End() <= c.addr || c.End() <= b.addr)
    requires IsPosition(bs, b.addr, p)
    ensures Apart(InsertAt(bs, p, b), c)
  {
    MergedApart(bs, p, b, c);
    ReplaceApart(bs, Low(bs, p, b), High(bs, p, b), Merged(bs, p, b), c);
  }

  lemma {:induction false} MergedApart(bs: seq<Block>, p: nat, b: Block, c: Block)
    requires Ordered(bs) && Apart(bs, b) && Apart(bs, c) && (b.End() <= c.addr || c.End() <= b.addr)
    requires IsPosition(bs, b.addr, p)
    ensures Merged(bs, p, b).End() <= c.addr || c.End() <= Merged(bs, p, b).addr
  {
    MergedFacts(bs, p, b);
    assert p > 0 ==> bs[p - 1].End() <= c.addr || c.End() <= bs[p - 1].addr;
    assert p < |bs| ==> bs[p].End() <= c.addr || c.End() <= bs[p].addr;
  }

  lemma {:induction false} ReplaceApart(bs: seq<Block>, i: nat, j: nat, m: Block, c: Block)
    requires i <= j <= |bs| && Apart(bs, c) && (m.End() <= c.addr || c.End() <= m.addr)
    ensures Apart(Replace(bs, i, j, m), c)
  {
    var cs := Replace(bs, i, j, m);
    forall k | 0 <= k < |cs|
      ensures cs[k].End() <= c.addr || c.End() <= cs[k].addr
    {
      assert k == i || cs[k] == bs[if k < i then k else k - 1 + j - i];
    }
  }

  /** Any two frees commute. */
  lemma {:induction false} InsertsCommute(bs: seq<Block>, b: Block, c: Block)
    requires Ordered(bs) && Apart(bs, b) && Apart(bs, c) && (b.End() <= c.addr || c.End() <= b.addr)
    ensures Insert(Insert(bs, b), c) == Insert(Insert(bs, c), b)
  {
    var bc, cb := Insert(Insert(bs, b), c), Insert(Insert(bs, c), b);
    StillApart(bs, b, c);
    StillApart(bs, c, b);
    InsertOrdered(bs, b);
    InsertOrdered(bs, c);
    InsertOrdered(Insert(bs, b), c);
    InsertOrdered(Insert(bs, c), b);
    forall x ensures FreeAt(bc, x) <==> FreeAt(cb, x) {
      InsertBytes(bs, b, x);
      InsertBytes(bs, c, x);
      InsertBytes(Insert(bs, b), c, x);
      InsertBytes(Insert(bs, c), b, x);
    }
    Canonical(bc, cb);
  }
}
