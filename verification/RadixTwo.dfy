/** Radix 2: the reversal is an involution, its table consists of disjoint swaps, and the table
    kernels agree with the direct bit-reversal kernel. */
module RadixTwo {
  import opened Arith
  import opened DigitReversal
  import opened SwapTable
  import K = ReorderKernels

  function Ones(n: nat): (ws: seq<nat>)
    ensures |ws| == n && Sum(ws) == n
    decreases n
  {
    if n == 0 then [] else
      assert ([1] + Ones(n - 1))[1..] == Ones(n - 1);
      [1] + Ones(n - 1)
  }

  /** bitreversal(2^n, 2) uses one-bit digits. */
  lemma {:induction false} WidthsAreOnes(n: nat)
    ensures Widths(Pow2(n), 2) == Ones(n)
    decreases n
  {
    if n > 0 {
      Pow2Blocks(1, n);
      assert Pow2(1) == 2;
      Log2Unique(2, 1);
      WidthsAreOnes(n - 1);
    }
  }

  /** Bit reversal of an n-bit number. */
  function Rev(x: nat, n: nat): nat {
    Reverse(x, n, Ones(n))
  }

  lemma {:induction false} ReverseOnes(bs: seq<bool>)
    ensures ReverseBits(bs, Ones(|bs|)) == Backwards(bs)
    decreases |bs|
  {
    if bs != [] {
      ReverseOnes(bs[1..]);
      assert Ones(|bs|)[1..] == Ones(|bs| - 1) && Ones(|bs|)[0] == 1;
      assert bs[..1] == [bs[0]];
    }
  }

  /** Bit reversal is an involution on [0, 2^n). */
  lemma {:induction false} RevInvolution(x: nat, n: nat)
    requires x < Pow2(n)
    ensures Rev(x, n) < Pow2(n) && Rev(Rev(x, n), n) == x
  {
    ReverseInverse(x, n, Ones(n));
    var bs := Bits(x, n);
    ReverseOnes(bs);
    BitsVal(Backwards(bs));
    ReverseOnes(Backwards(bs));
    BackwardsTwice(bs);
    ValBits(x, n);
  }

  // ---------------------------------------------------------------------------------------------
  // The direct kernel
  // ---------------------------------------------------------------------------------------------

  /** The inner loop of mempool_bitrev_q16p_xpulpimg. */
  method ReverseIndex(i: nat, n: nat) returns (r: nat)
    requires i < Pow2(n)
    ensures r == Rev(i, n)
  {
    ghost var bs := Bits(i, n);
    ValBits(i, n);
    r := 0;
    var idx := i;
    assert bs[0..] == bs;
    for j := 0 to n
      invariant idx == Val(bs[j..]) && r == Val(Backwards(bs[..j]))
    {
      ghost var b := bs[j];
      assert bs[j..] == [b] + bs[j + 1..];
      assert bs[..j + 1] == bs[..j] + [b];
      BackwardsConcat(bs[..j], [b]);
      assert Backwards([b]) == [b];
      assert ([b] + Backwards(bs[..j]))[1..] == Backwards(bs[..j]);
      r := 2 * r + idx % 2;
      idx := idx / 2;
    }
    assert bs[..n] == bs;
    ReverseOnes(bs);
  }

  /** Core `core` of nPE writes the samples core, core + nPE, ... to their reversed places. */
  method BitrevCore(src: array<int>, dst: array<int>, n: nat, nPE: nat, core: nat)
    requires src != dst && src.Length == dst.Length == 2 * Pow2(n) && core < nPE
    modifies dst
    ensures forall x: nat {:trigger Rev(x, n)} :: x < Pow2(n) && Mod(x, nPE) == core ==>
              2 * Rev(x, n) + 1 < dst.Length && dst[2 * Rev(x, n)] == src[2 * x] && dst[2 * Rev(x, n) + 1] == src[2 * x + 1]
    ensures forall x: nat {:trigger Rev(x, n)} :: x < Pow2(n) && Mod(x, nPE) != core ==>
              2 * Rev(x, n) + 1 < dst.Length && dst[2 * Rev(x, n)] == old(dst[2 * Rev(x, n)])
              && dst[2 * Rev(x, n) + 1] == old(dst[2 * Rev(x, n) + 1])
  {
    RevRange(n);
    var i := core;
    while i < Pow2(n)
      invariant Mod(i, nPE) == core
      invariant forall x: nat {:trigger Rev(x, n)} :: x < Pow2(n) && Mod(x, nPE) == core && x < i ==>
                  dst[2 * Rev(x, n)] == src[2 * x] && dst[2 * Rev(x, n) + 1] == src[2 * x + 1]
      invariant forall x: nat {:trigger Rev(x, n)} :: x < Pow2(n) && (Mod(x, nPE) != core || x >= i) ==>
                  dst[2 * Rev(x, n)] == old(dst[2 * Rev(x, n)]) && dst[2 * Rev(x, n) + 1] == old(dst[2 * Rev(x, n) + 1])
      decreases Pow2(n) + nPE - i
    {
      var r := ReverseIndex(i, n);
      dst[2 * r] := src[2 * i];
      dst[2 * r + 1] := src[2 * i + 1];
      forall x: nat | i < x < i + nPE ensures Mod(x, nPE) != core {
        NextOwn(i, x, nPE);
      }
      i := i + nPE;
    }
  }

  /** Every reversed index is in range and comes from one index only. */
  lemma {:induction false} RevRange(n: nat)
    ensures forall x: nat {:trigger Rev(x, n)} :: x < Pow2(n) ==> Rev(x, n) < Pow2(n)
    ensures forall x: nat, y: nat {:trigger Rev(x, n), Rev(y, n)} ::
              x < Pow2(n) && y < Pow2(n) && Rev(x, n) == Rev(y, n) ==> x == y
  {
    forall x: nat {:trigger Rev(x, n)} | x < Pow2(n) ensures Rev(x, n) < Pow2(n) {
      RevInvolution(x, n);
    }
    forall x: nat, y: nat {:trigger Rev(x, n), Rev(y, n)} | x < Pow2(n) && y < Pow2(n) && Rev(x, n) == Rev(y, n)
      ensures x == y
    {
      RevInvolution(x, n);
      RevInvolution(y, n);
    }
  }

  lemma {:induction false} NextOwn(i: nat, x: nat, d: nat)
    requires d > 0 && i < x < i + d
    ensures Mod(x, d) != Mod(i, d)
  {
    FloorMod(i, d);
    FloorMod(x, d);
    if Mod(x, d) == Mod(i, d) {
      BlockInside(Floor(i, d), d, Floor(x, d));
    }
  }

  // ---------------------------------------------------------------------------------------------
  // The table
  // ---------------------------------------------------------------------------------------------

  function Indexes(n: nat): (f: seq<nat>)
    ensures |f| == Pow2(n) && forall x {:trigger f[x]} :: 0 <= x < |f| ==> f[x] == Rev(x, n)
  {
    seq(Pow2(n), x requires 0 <= x => Rev(x, n))
  }

  /** Cycles of an involution have two elements. */
  lemma {:induction false} CycleIsPair(c: seq<nat>, n: nat)
    requires IsCycle(c, Indexes(n))
    ensures |c| == 2 && CyclePairs(c, |c| - 1) == [Pair(c[0], c[1])]
  {
    var f := Indexes(n);
    assert f[c[0]] == c[1] && c[0] < |f| && c[1] < |f|;
    assert f[c[1]] == c[if 2 < |c| then 2 else 0];
    RevInvolution(c[0], n);
  }

  /** Entry k of the table is cycle k. */
  ghost predicate PairsOf(ps: seq<Pair>, cycles: seq<seq<nat>>) {
    && |ps| == |cycles|
    && forall k {:trigger ps[k]} {:trigger cycles[k]} :: 0 <= k < |cycles| ==> |cycles[k]| == 2 && ps[k] == Pair(cycles[k][0], cycles[k][1])
  }

  lemma {:induction false} TableOfPairs(cycles: seq<seq<nat>>, n: nat)
    requires AreCycles(cycles, Indexes(n))
    ensures PairsOf(Table(cycles), cycles)
    decreases |cycles|
  {
    if cycles != [] {
      var m := |cycles| - 1;
      TableOfPairs(cycles[..m], n);
      assert IsCycle(cycles[m], Indexes(n));
      CycleIsPair(cycles[m], n);
      OnePairMore(Table(cycles[..m]), cycles, m);
    }
  }

  lemma {:induction false} OnePairMore(ps: seq<Pair>, cycles: seq<seq<nat>>, m: nat)
    requires m + 1 == |cycles| && PairsOf(ps, cycles[..m]) && |cycles[m]| == 2
    ensures PairsOf(ps + [Pair(cycles[m][0], cycles[m][1])], cycles)
  {
    var init := cycles[..m];
    assert forall k {:trigger cycles[k]} :: 0 <= k < m ==> cycles[k] == init[k];
  }

  /** The swaps of the radix-2 table are disjoint. */
  lemma {:induction false} TableApart(cycles: seq<seq<nat>>, n: nat)
    requires AreCycles(cycles, Indexes(n))
    ensures K.Apart(Table(cycles)) && InRange(Table(cycles), Pow2(n))
  {
    var ps := Table(cycles);
    TableInRange(cycles, Indexes(n));
    TableOfPairs(cycles, n);
    forall i {:trigger ps[i]} | 0 <= i < |ps| ensures ps[i].a != ps[i].b {
      assert IsCycle(cycles[i], Indexes(n));
      assert cycles[i][0] != cycles[i][1];
    }
    forall i, j {:trigger ps[i], ps[j]} | 0 <= i < j < |ps|
      ensures ps[i].a != ps[j].a && ps[i].a != ps[j].b && ps[i].b != ps[j].a && ps[i].b != ps[j].b
    {
      assert Disjoint(cycles[i], cycles[j]);
      assert ps[i].a in cycles[i] && ps[i].b in cycles[i] && ps[j].a in cycles[j] && ps[j].b in cycles[j];
    }
  }

  /** An array that holds every sample at its reversed place is the one the swaps of the table leave.  Module
      `ParallelReverse` shows that the direct kernel computes such an array. */
  lemma {:induction false} ScatterIsTable<T>(s: seq<T>, dst: seq<T>, n: nat, cycles: seq<seq<nat>>)
    requires |s| == |dst| == Pow2(n) && CyclicForm(cycles, Indexes(n))
    requires forall x: nat {:trigger Rev(x, n)} :: x < Pow2(n) ==> Rev(x, n) < Pow2(n) && dst[Rev(x, n)] == s[x]
    ensures InRange(Table(cycles), |s|) && Apply(s, Table(cycles)) == dst
  {
    TableInRange(cycles, Indexes(n));
    forall y: nat | y < Pow2(n) ensures Apply(s, Table(cycles))[y] == dst[y] {
      var x := Rev(y, n);
      RevInvolution(y, n);
      TableScatters(s, Indexes(n), cycles, x);
      assert Rev(x, n) == y;
    }
  }

  // ---------------------------------------------------------------------------------------------
  // The length of the table
  // ---------------------------------------------------------------------------------------------

  function AsSet(c: seq<nat>): set<nat> {
    if c == [] then {} else AsSet(c[..|c| - 1]) + {c[|c| - 1]}
  }

  lemma {:induction false} AsSetMembers(c: seq<nat>, x: nat)
    ensures x in AsSet(c) <==> x in c
    decreases |c|
  {
    if c != [] {
      AsSetMembers(c[..|c| - 1], x);
      assert c == c[..|c| - 1] + [c[|c| - 1]];
    }
  }

  lemma {:induction false} DistinctCard(c: seq<nat>)
    requires Distinct(c)
    ensures |AsSet(c)| == |c|
    decreases |c|
  {
    if c != [] {
      DistinctCard(c[..|c| - 1]);
      AsSetMembers(c[..|c| - 1], c[|c| - 1]);
    }
  }

  function UpTo(n: nat): (r: seq<nat>)
    ensures |r| == n && forall i {:trigger r[i]} :: 0 <= i < n ==> r[i] == i
  {
    seq(n, i requires 0 <= i => i)
  }

  lemma {:induction false} UpToFacts(n: nat)
    ensures Distinct(UpTo(n)) && forall x: nat :: x in UpTo(n) <==> x < n
  {
    forall x: nat ensures x in UpTo(n) <==> x < n {
      if x < n {
        assert UpTo(n)[x] == x;
      }
    }
  }

  /** The elements of all the cycles. */
  function Elements(cycles: seq<seq<nat>>): seq<nat>
    decreases |cycles|
  {
    if cycles == [] then [] else Elements(cycles[..|cycles| - 1]) + cycles[|cycles| - 1]
  }

  lemma {:induction false} ElementsFacts(cycles: seq<seq<nat>>, n: nat)
    requires AreCycles(cycles, Indexes(n))
    ensures |Elements(cycles)| == 2 * |cycles| && Distinct(Elements(cycles))
    ensures forall x: nat :: x in Elements(cycles) <==> InCycles(cycles, x)
    decreases |cycles|
  {
    if cycles != [] {
      var m := |cycles| - 1;
      var before, c := cycles[..m], cycles[m];
      ElementsFacts(before, n);
      assert IsCycle(c, Indexes(n));
      CycleIsPair(c, n);
      forall x: nat ensures x in Elements(cycles) <==> InCycles(cycles, x) {
        InCyclesSnoc(cycles, x);
      }
      forall x | x in c ensures x !in Elements(before) {
        NotBefore(cycles, Indexes(n), x);
      }
      DistinctConcat(Elements(before), c);
    }
  }

  lemma {:induction false} DistinctConcat(a: seq<nat>, b: seq<nat>)
    requires Distinct(a) && Distinct(b) && forall x :: x in b ==> x !in a
    ensures Distinct(a + b)
  {
    var c := a + b;
    forall i, j | 0 <= i < j < |c| ensures c[i] != c[j] {
      if i < |a| <= j {
        assert c[i] in a && c[j] in b;
      }
    }
  }

  lemma {:induction false} InCyclesSnoc(cycles: seq<seq<nat>>, x: nat)
    requires cycles != []
    ensures InCycles(cycles, x) <==> InCycles(cycles[..|cycles| - 1], x) || x in cycles[|cycles| - 1]
  {
    var m := |cycles| - 1;
    if InCycles(cycles[..m], x) {
      var k :| 0 <= k < m && x in cycles[..m][k];
      assert x in cycles[k];
    }
    if InCycles(cycles, x) && x !in cycles[m] {
      var k :| 0 <= k < |cycles| && x in cycles[k];
      assert x in cycles[..m][k];
    }
  }

  /** The bits of a palindrome from its first half (and middle). */
  function Mirror(b: seq<bool>, n: nat): (r: seq<bool>)
    requires |b| == (n + 1) / 2
    ensures |r| == n && r[..|b|] == b
  {
    b + Backwards(b[..n - |b|])
  }

  lemma {:induction false} MirrorIsPalindrome(b: seq<bool>, n: nat)
    requires |b| == (n + 1) / 2
    ensures Backwards(Mirror(b, n)) == Mirror(b, n)
  {
    var k := n - |b|;
    var first, mid := b[..k], b[k..];
    assert b == first + mid;
    BackwardsConcat(b, Backwards(first));
    BackwardsTwice(first);
    BackwardsConcat(first, mid);
    assert |mid| <= 1;
    assert Backwards(mid) == mid;
    assert first + (mid + Backwards(first)) == first + mid + Backwards(first);
  }

  lemma {:induction false} PalindromeIsMirror(p: seq<bool>)
    requires Backwards(p) == p
    ensures p == Mirror(p[..(|p| + 1) / 2], |p|)
  {
    var n := |p|;
    var h := (n + 1) / 2;
    var first, rest := p[..n - h], p[n - h..];
    assert p == first + rest;
    BackwardsConcat(first, rest);
    assert p[h..] == Backwards(first);
    assert p[..h][..n - h] == first;
    assert p == p[..h] + p[h..];
  }

  /** The fixed points of bit reversal, listed once each. */
  function Fixed(n: nat): (r: seq<nat>)
    ensures |r| == Pow2((n + 1) / 2)
    ensures forall y {:trigger r[y]} :: 0 <= y < |r| ==> r[y] == Val(Mirror(Bits(y, (n + 1) / 2), n))
  {
    seq(Pow2((n + 1) / 2), y requires 0 <= y => Val(Mirror(Bits(y, (n + 1) / 2), n)))
  }

  lemma {:induction false} FixedDistinct(n: nat)
    ensures Distinct(Fixed(n))
  {
    var h, r := (n + 1) / 2, Fixed(n);
    forall y, z | 0 <= y < z < |r| ensures r[y] != r[z] {
      if r[y] == r[z] {
        BitsVal(Mirror(Bits(y, h), n));
        BitsVal(Mirror(Bits(z, h), n));
        ValBits(y, h);
        ValBits(z, h);
      }
    }
  }

  lemma {:induction false} FixedExactly(n: nat, x: nat)
    requires x < Pow2(n)
    ensures x in Fixed(n) <==> Rev(x, n) == x
  {
    var h, bs := (n + 1) / 2, Bits(x, n);
    ReverseOnes(bs);
    ValBits(x, n);
    BitsVal(Backwards(bs));
    if x in Fixed(n) {
      var y :| 0 <= y < |Fixed(n)| && Fixed(n)[y] == x;
      MirrorIsPalindrome(Bits(y, h), n);
      BitsVal(Mirror(Bits(y, h), n));
    }
    if Rev(x, n) == x {
      PalindromeIsMirror(bs);
      var y := Val(bs[..h]);
      BitsVal(bs[..h]);
      assert Fixed(n)[y] == x;
    }
  }

  /** The radix-2 table has 2^n - 2^ceil(n / 2) entries. */
  lemma {:induction false} TableLength(n: nat, cycles: seq<seq<nat>>)
    requires CyclicForm(cycles, Indexes(n))
    ensures |Words(Table(cycles))| + Pow2((n + 1) / 2) == Pow2(n)
  {
    TableOfPairs(cycles, n);
    ElementsFacts(cycles, n);
    FixedDistinct(n);
    var moved, fixed, all := AsSet(Elements(cycles)), AsSet(Fixed(n)), AsSet(UpTo(Pow2(n)));
    DistinctCard(Elements(cycles));
    DistinctCard(Fixed(n));
    UpToFacts(Pow2(n));
    DistinctCard(UpTo(Pow2(n)));
    forall x: nat ensures x in all <==> x in moved || x in fixed
                  ensures !(x in moved && x in fixed) {
      Partition(n, cycles, x);
      AsSetMembers(Elements(cycles), x);
      AsSetMembers(Fixed(n), x);
      AsSetMembers(UpTo(Pow2(n)), x);
    }
    assert all == moved + fixed && moved !! fixed;
  }

  lemma {:induction false} Partition(n: nat, cycles: seq<seq<nat>>, x: nat)
    requires CyclicForm(cycles, Indexes(n))
    ensures x < Pow2(n) ==> (InCycles(cycles, x) <==> !(x in Fixed(n)))
    ensures x >= Pow2(n) ==> !InCycles(cycles, x) && !(x in Fixed(n))
  {
    var f := Indexes(n);
    if x < Pow2(n) {
      FixedExactly(n, x);
      if InCycles(cycles, x) {
        MovedByCycle(n, cycles, x);
      }
      assert f[x] == Rev(x, n);
    } else {
      if InCycles(cycles, x) {
        MovedByCycle(n, cycles, x);
      }
    }
  }

  lemma {:induction false} MovedByCycle(n: nat, cycles: seq<seq<nat>>, x: nat)
    requires AreCycles(cycles, Indexes(n)) && InCycles(cycles, x)
    ensures x < Pow2(n) && Indexes(n)[x] != x
  {
    var k :| 0 <= k < |cycles| && x in cycles[k];
    var c := cycles[k];
    assert IsCycle(c, Indexes(n));
    CycleIsPair(c, n);
    var f := Indexes(n);
    assert f[c[0]] == c[1] && f[c[1]] == c[0] && c[0] != c[1];
  }

  /** The kernels that take four swaps at a time can use the table exactly when n <= 1 or n >= 5. */
  lemma {:induction false} TableIsWholeChunks(n: nat, cycles: seq<seq<nat>>)
    requires CyclicForm(cycles, Indexes(n))
    ensures |Words(Table(cycles))| % 8 == 0 <==> n <= 1 || n >= 5
  {
    TableLength(n, cycles);
    ChunkLength(n, |Words(Table(cycles))|);
  }

  lemma {:induction false} ChunkLength(n: nat, len: nat)
    requires len + Pow2((n + 1) / 2) == Pow2(n)
    ensures len % 8 == 0 <==> n <= 1 || n >= 5
  {
    if n >= 5 {
      Pow2Mod8(n);
      Pow2Mod8((n + 1) / 2);
    } else {
      SmallLengths();
    }
  }

  lemma {:induction false} Pow2Mod8(n: nat)
    requires n >= 3
    ensures Pow2(n) % 8 == 0
  {
    assert Pow2(n) == 2 * Pow2(n - 1) && Pow2(n - 1) == 2 * Pow2(n - 2) && Pow2(n - 2) == 2 * Pow2(n - 3);
  }

  lemma {:induction false} SmallLengths()
    ensures Pow2(0) == 1 && Pow2(1) == 2 && Pow2(2) == 4 && Pow2(3) == 8 && Pow2(4) == 16
  {
  }

  // ---------------------------------------------------------------------------------------------
  // Tables of 8192 samples
  // ---------------------------------------------------------------------------------------------

  lemma {:induction false} BitsOfZero(n: nat)
    ensures Val(Backwards(Bits(0, n))) == 0
    decreases n
  {
    if n > 0 {
      BitsOfZero(n - 1);
      assert Bits(0, n)[1..] == Bits(0, n - 1);
      ValConcat(Backwards(Bits(0, n - 1)), [false]);
      assert Val([false]) == 0;
      ShlOfZero(n - 1);
    }
  }

  lemma {:induction false} ShlOfZero(n: nat)
    ensures Shl(0, n) == 0
  {
    if n > 0 {
      ShlOfZero(n - 1);
    }
  }

  /** The reversal of 1 is the highest bit. */
  lemma {:induction false} RevOne(n: nat)
    requires n > 0
    ensures Rev(1, n) == Pow2(n - 1)
  {
    var bs := Bits(1, n);
    ReverseOnes(bs);
    assert bs[1..] == Bits(0, n - 1);
    BitsOfZero(n - 1);
    ValConcat(Backwards(bs[1..]), [true]);
    assert Val([true]) == 1;
    ShlPow2(0, n - 1);
    assert Pow2(0) == 1;
  }

  /** The table swaps sample 1 with sample 2^(n - 1). */
  lemma {:induction false} HasHighest(n: nat, cycles: seq<seq<nat>>) returns (i: nat)
    requires n >= 2 && CyclicForm(cycles, Indexes(n))
    ensures i < |Words(Table(cycles))| && Words(Table(cycles))[i] == 8 * Pow2(n - 1)
  {
    RevOne(n);
    Pow2Blocks(1, n - 1);
    assert Pow2(1) == 2 && Pow2(n) == 2 * Pow2(n - 1);
    assert Indexes(n)[1] == Pow2(n - 1) && InCycles(cycles, 1);
    var k :| 0 <= k < |cycles| && 1 in cycles[k];
    i := EntryOfOne(n, cycles, k);
  }

  lemma {:induction false} EntryOfOne(n: nat, cycles: seq<seq<nat>>, k: nat) returns (i: nat)
    requires AreCycles(cycles, Indexes(n)) && k < |cycles| && 1 in cycles[k] && 1 < Pow2(n) && Rev(1, n) == Pow2(n - 1)
    requires n > 0
    ensures i < |Words(Table(cycles))| && Words(Table(cycles))[i] == 8 * Pow2(n - 1)
  {
    TableOfPairs(cycles, n);
    PairOfOne(cycles[k], n);
    WordsAt(Table(cycles), k);
    i := if cycles[k][0] == Pow2(n - 1) then 2 * k else 2 * k + 1;
  }

  /** The cycle of 1 also holds its reversal. */
  lemma {:induction false} PairOfOne(c: seq<nat>, n: nat)
    requires IsCycle(c, Indexes(n)) && 1 in c && 1 < Pow2(n)
    ensures |c| == 2 && (c[0] == Rev(1, n) || c[1] == Rev(1, n))
  {
    CycleIsPair(c, n);
    var f := Indexes(n);
    assert f[c[0]] == c[1] && f[c[1]] == c[0];
    assert f[1] == Rev(1, n);
  }

  /** Every radix-2 table of 8192 samples has an entry that the wide kernels decode to a negative word. */
  lemma {:induction false} TooWide(cycles: seq<seq<nat>>)
    requires CyclicForm(cycles, Indexes(13))
    ensures exists i :: 0 <= i < |Words(Table(cycles))| && K.WordIndex(Words(Table(cycles))[i]) == -4096
  {
    var i := HasHighest(13, cycles);
    Pow2Of12();
    assert K.WordIndex(8 * 4096) == -4096;
  }

  lemma {:induction false} Pow2Of12()
    ensures Pow2(12) == 4096
  {
    assert Pow2(6) == 64;
  }
}
