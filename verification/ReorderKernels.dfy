/** The reorder kernels of software/kernels/baremetal/mempool_cfft_q16_bitreversal.h. */
module ReorderKernels {
  import opened Arith
  import opened SwapTable
  import opened DigitReversal

  // ---------------------------------------------------------------------------------------------
  // One swap at a time
  // ---------------------------------------------------------------------------------------------

  /** The n complex samples of an interleaved array. */
  function Samples(s: seq<int>, n: nat): (r: seq<(int, int)>)
    requires |s| == 2 * n
    ensures |r| == n && forall x {:trigger r[x]} :: 0 <= x < n ==> r[x] == (s[2 * x], s[2 * x + 1])
  {
    seq(n, x requires 0 <= x < n => (s[2 * x], s[2 * x + 1]))
  }

  /** p holds the samples cur. */
  ghost predicate Holds(p: seq<int>, cur: seq<(int, int)>) {
    |p| == 2 * |cur| && forall x {:trigger cur[x]} :: 0 <= x < |cur| ==> cur[x] == (p[2 * x], p[2 * x + 1])
  }

  /** The body of the loop: real and imaginary part change places. */
  method SwapSamples(p: array<int>, addr1: nat, addr2: nat, ghost cur: seq<(int, int)>, ghost pair: Pair)
    requires Holds(p[..], cur) && pair.a < |cur| && pair.b < |cur| && addr1 == 2 * pair.a && addr2 == 2 * pair.b
    modifies p
    ensures Holds(p[..], Swap(cur, pair))
  {
    var tmpa, tmpb := p[addr1], p[addr2];
    p[addr1] := tmpb;
    p[addr2] := tmpa;
    tmpa, tmpb := p[addr1 + 1], p[addr2 + 1];
    p[addr1 + 1] := tmpb;
    p[addr2 + 1] := tmpa;
  }

  /** mempool_bitrevtable_q16s_riscv32: each 16-bit table entry shifted right by two is the index of
      the real part.  Up to 8192 samples the entries fit 16 bits. */
  method SwapByTable(p: array<int>, tab: seq<nat>, ghost n: nat, ghost ps: seq<Pair>)
    requires n <= 8192 && p.Length == 2 * n && InRange(ps, n) && tab == Words(ps)
    modifies p
    ensures Samples(p[..], n) == Apply(Samples(old(p[..]), n), ps)
  {
    ghost var cur, k := Samples(p[..], n), 0;
    assert ps[..0] == [];
    var i := 0;
    while i < |tab|
      invariant i == 2 * k && k <= |ps| && |cur| == n
      invariant InRange(ps[..k], n) && cur == Apply(Samples(old(p[..]), n), ps[..k])
      invariant Holds(p[..], cur)
    {
      WordsAt(ps, k);
      SwapSamples(p, tab[i] / 4, tab[i + 1] / 4, cur, ps[k]);
      assert ps[..k + 1][..k] == ps[..k];
      cur, k, i := Swap(cur, ps[k]), k + 1, i + 2;
    }
    assert ps[..|ps|] == ps;
    assert Samples(p[..], n) == cur;
  }

  /** The table of bitreversal(2^n, 2^r) applied in place moves every sample x to its digit-reversed
      place, both components together. */
  lemma {:induction false} ReorderScatters(s: seq<(int, int)>, n: nat, r: nat, f: seq<nat>, cycles: seq<seq<nat>>, x: nat)
    requires r >= 1 && |s| == |f| == Pow2(n) && x < |s|
    requires Pow2(r) >= 2 && Sum(Widths(Pow2(n), Pow2(r))) <= n
    requires forall y: nat {:trigger f[y]} :: y < Pow2(n) ==> f[y] == Reverse(y, n, Widths(Pow2(n), Pow2(r)))
    requires CyclicForm(cycles, f)
    ensures InRange(Table(cycles), |s|) && f[x] < |s| && Apply(s, Table(cycles))[f[x]] == s[x]
    ensures Sum(Backwards(Widths(Pow2(n), Pow2(r)))) == n && Reverse(f[x], n, Backwards(Widths(Pow2(n), Pow2(r)))) == x
  {
    TableScatters(s, f, cycles, x);
    WidthsSum(n, r);
    ReverseInverse(x, n, Widths(Pow2(n), Pow2(r)));
  }

  // ---------------------------------------------------------------------------------------------
  // Disjoint swaps in any order
  // ---------------------------------------------------------------------------------------------

  /** No element takes part in two swaps. */
  ghost predicate Apart(ps: seq<Pair>) {
    && (forall i {:trigger ps[i]} :: 0 <= i < |ps| ==> ps[i].a != ps[i].b)
    && (forall i, j {:trigger ps[i], ps[j]} :: 0 <= i < j < |ps| ==>
          ps[i].a != ps[j].a && ps[i].a != ps[j].b && ps[i].b != ps[j].a && ps[i].b != ps[j].b)
  }

  ghost predicate Untouched(ps: seq<Pair>, x: int) {
    forall i {:trigger ps[i]} :: 0 <= i < |ps| ==> x != ps[i].a && x != ps[i].b
  }

  /** r is s with every pair exchanged. */
  ghost predicate Exchanged<T>(r: seq<T>, s: seq<T>, ps: seq<Pair>)
    requires InRange(ps, |s|) && |r| == |s|
  {
    && (forall i {:trigger ps[i]} :: 0 <= i < |ps| ==> r[ps[i].a] == s[ps[i].b] && r[ps[i].b] == s[ps[i].a])
    && (forall x {:trigger r[x]} :: 0 <= x < |s| && Untouched(ps, x) ==> r[x] == s[x])
  }

  lemma {:induction false} ExchangeOne<T>(r: seq<T>, s: seq<T>, ps: seq<Pair>, p: Pair)
    requires InRange(ps + [p], |s|) && InRange(ps, |s|) && |r| == |s| && Apart(ps + [p]) && Exchanged(r, s, ps)
    requires p.a < |s| && p.b < |s|
    ensures Exchanged(Swap(r, p), s, ps + [p])
  {
    var qs, q := ps + [p], Swap(r, p);
    assert qs[|ps|] == p;
    assert Untouched(ps, p.a) && Untouched(ps, p.b) by {
      forall i {:trigger ps[i]} | 0 <= i < |ps| ensures p.a != ps[i].a && p.a != ps[i].b && p.b != ps[i].a && p.b != ps[i].b {
        assert qs[i] == ps[i];
      }
    }
    forall i {:trigger qs[i]} | 0 <= i < |qs| ensures q[qs[i].a] == s[qs[i].b] && q[qs[i].b] == s[qs[i].a] {
      assert i < |ps| ==> qs[i] == ps[i];
    }
    forall x {:trigger q[x]} | 0 <= x < |s| && Untouched(qs, x) ensures q[x] == s[x] {
      assert forall i {:trigger ps[i]} :: 0 <= i < |ps| ==> ps[i] == qs[i];
    }
  }

  /** For disjoint pairs the sequential swaps are the simultaneous exchange. */
  lemma {:induction false} ApplyExchanges<T>(s: seq<T>, ps: seq<Pair>)
    requires InRange(ps, |s|) && Apart(ps)
    ensures Exchanged(Apply(s, ps), s, ps)
    decreases |ps|
  {
    if ps != [] {
      var before, p := ps[..|ps| - 1], ps[|ps| - 1];
      ApplyExchanges(s, before);
      assert ps == before + [p];
      ExchangeOne(Apply(s, before), s, before, p);
    }
  }

  lemma {:induction false} ExchangedUnique<T>(r: seq<T>, q: seq<T>, s: seq<T>, ps: seq<Pair>)
    requires InRange(ps, |s|) && |r| == |q| == |s| && Exchanged(r, s, ps) && Exchanged(q, s, ps)
    ensures r == q
  {
    forall x | 0 <= x < |s| ensures r[x] == q[x] {
      if !Untouched(ps, x) {
        var i :| 0 <= i < |ps| && (x == ps[i].a || x == ps[i].b);
        assert r[ps[i].a] == q[ps[i].a];
      }
    }
  }

  /** One shared-memory access of the parallel kernel: a load or store of either word of swap i. */
  datatype Access = LoadA | LoadB | StoreA | StoreB

  /** Memory, the registers of every swap, and which accesses have been made. */
  datatype Machine<T> = Machine(mem: seq<T>, tmpa: seq<T>, tmpb: seq<T>, done: seq<set<Access>>)

  ghost predicate Sized<T>(m: Machine<T>, n: nat, k: nat) {
    |m.mem| == n && |m.tmpa| == |m.tmpb| == |m.done| == k
  }

  /** Swap i makes an access: both loads come before both stores, and each access is made once.  Module
      `ParallelSwap` shows that every interleaving of the cores' loops is a schedule of these. */
  function Step<T>(m: Machine<T>, ps: seq<Pair>, i: nat, op: Access): (m': Machine<T>)
    requires InRange(ps, |m.mem|) && i < |ps| && |m.tmpa| == |m.tmpb| == |m.done| == |ps|
    ensures |m'.mem| == |m.mem| && |m'.tmpa| == |m'.tmpb| == |m'.done| == |ps|
  {
    var p, d := ps[i], m.done[i];
    if op in d then m
    else
      var done := m.done[i := d + {op}];
      match op
      case LoadA => m.(tmpa := m.tmpa[i := m.mem[p.a]], done := done)
      case LoadB => m.(tmpb := m.tmpb[i := m.mem[p.b]], done := done)
      case StoreA => if {LoadA, LoadB} <= d then m.(mem := m.mem[p.a := m.tmpb[i]], done := done) else m
      case StoreB => if {LoadA, LoadB} <= d then m.(mem := m.mem[p.b := m.tmpa[i]], done := done) else m
  }

  /** A schedule is any sequence of accesses. */
  function Run<T>(m: Machine<T>, ps: seq<Pair>, schedule: seq<(nat, Access)>): (m': Machine<T>)
    requires InRange(ps, |m.mem|) && |m.tmpa| == |m.tmpb| == |m.done| == |ps|
    requires forall k {:trigger schedule[k]} :: 0 <= k < |schedule| ==> schedule[k].0 < |ps|
    ensures |m'.mem| == |m.mem| && |m'.tmpa| == |m'.tmpb| == |m'.done| == |ps|
    decreases |schedule|
  {
    if schedule == [] then m
    else
      var last := schedule[|schedule| - 1];
      Step(Run(m, ps, schedule[..|schedule| - 1]), ps, last.0, last.1)
  }

  ghost predicate SwapInv<T>(m: Machine<T>, s: seq<T>, p: Pair, i: nat)
    requires i < |m.tmpa| && i < |m.tmpb| && i < |m.done| && |m.mem| == |s| && p.a < |s| && p.b < |s|
  {
    var d := m.done[i];
    && (LoadA in d ==> m.tmpa[i] == s[p.a]) && (LoadB in d ==> m.tmpb[i] == s[p.b])
    && (StoreA in d || StoreB in d ==> {LoadA, LoadB} <= d)
    && m.mem[p.a] == (if StoreA in d then s[p.b] else s[p.a])
    && m.mem[p.b] == (if StoreB in d then s[p.a] else s[p.b])
  }

  ghost predicate MachineInv<T>(m: Machine<T>, s: seq<T>, ps: seq<Pair>)
    requires InRange(ps, |s|)
  {
    && Sized(m, |s|, |ps|)
    && (forall i {:trigger SwapInv(m, s, ps[i], i)} :: 0 <= i < |ps| ==> SwapInv(m, s, ps[i], i))
    && (forall x {:trigger m.mem[x]} :: 0 <= x < |s| && Untouched(ps, x) ==> m.mem[x] == s[x])
  }

  lemma {:induction false} StepInv<T>(m: Machine<T>, s: seq<T>, ps: seq<Pair>, i: nat, op: Access)
    requires InRange(ps, |s|) && Apart(ps) && MachineInv(m, s, ps) && i < |ps|
    ensures MachineInv(Step(m, ps, i, op), s, ps)
  {
    var m' := Step(m, ps, i, op);
    assert SwapInv(m, s, ps[i], i);
    forall j {:trigger SwapInv(m', s, ps[j], j)} | 0 <= j < |ps| ensures SwapInv(m', s, ps[j], j) {
      assert SwapInv(m, s, ps[j], j);
      if j != i {
        PairsApart(ps, i, j);
      }
    }
    forall x {:trigger m'.mem[x]} | 0 <= x < |s| && Untouched(ps, x) ensures m'.mem[x] == s[x] {
      assert x != ps[i].a && x != ps[i].b && m.mem[x] == s[x];
    }
  }

  lemma {:induction false} PairsApart(ps: seq<Pair>, i: nat, j: nat)
    requires Apart(ps) && i < |ps| && j < |ps| && i != j
    ensures ps[i].a != ps[j].a && ps[i].a != ps[j].b && ps[i].b != ps[j].a && ps[i].b != ps[j].b
  {
    if i < j {
      assert ps[i].a != ps[j].a;
    } else {
      assert ps[j].a != ps[i].a;
    }
  }

  lemma {:induction false} RunInv<T>(m: Machine<T>, s: seq<T>, ps: seq<Pair>, schedule: seq<(nat, Access)>)
    requires InRange(ps, |s|) && Apart(ps) && MachineInv(m, s, ps)
    requires forall k {:trigger schedule[k]} :: 0 <= k < |schedule| ==> schedule[k].0 < |ps|
    ensures MachineInv(Run(m, ps, schedule), s, ps)
    decreases |schedule|
  {
    if schedule != [] {
      var last := schedule[|schedule| - 1];
      RunInv(m, s, ps, schedule[..|schedule| - 1]);
      StepInv(Run(m, ps, schedule[..|schedule| - 1]), s, ps, last.0, last.1);
    }
  }

  /** Every swap has made both its stores. */
  ghost predicate Finished<T>(m: Machine<T>) {
    forall i {:trigger m.done[i]} :: 0 <= i < |m.done| ==> StoreA in m.done[i] && StoreB in m.done[i]
  }

  ghost predicate Fresh<T>(m: Machine<T>) {
    forall i {:trigger m.done[i]} :: 0 <= i < |m.done| ==> m.done[i] == {}
  }

  /** In any order of the accesses of disjoint swaps, once all stores are made memory is what the
      sequential swaps leave. */
  lemma {:induction false} AnyInterleaving<T>(m: Machine<T>, ps: seq<Pair>, schedule: seq<(nat, Access)>)
    requires InRange(ps, |m.mem|) && Apart(ps) && Sized(m, |m.mem|, |ps|)
    requires forall k {:trigger schedule[k]} :: 0 <= k < |schedule| ==> schedule[k].0 < |ps|
    requires Fresh(m) && Finished(Run(m, ps, schedule))
    ensures Run(m, ps, schedule).mem == Apply(m.mem, ps)
  {
    var s := m.mem;
    assert MachineInv(m, s, ps) by {
      forall i {:trigger SwapInv(m, s, ps[i], i)} | 0 <= i < |ps| ensures SwapInv(m, s, ps[i], i) {
        assert m.done[i] == {};
      }
    }
    RunInv(m, s, ps, schedule);
    var r := Run(m, ps, schedule);
    forall i {:trigger ps[i]} | 0 <= i < |ps| ensures r.mem[ps[i].a] == s[ps[i].b] && r.mem[ps[i].b] == s[ps[i].a] {
      assert SwapInv(r, s, ps[i], i) && StoreA in r.done[i];
    }
    ApplyExchanges(s, ps);
    ExchangedUnique(r.mem, Apply(s, ps), s, ps);
  }

  // ---------------------------------------------------------------------------------------------
  // Four swaps at a time
  // ---------------------------------------------------------------------------------------------

  /** pv.sra.h by 2 on a 16-bit table entry: an arithmetic shift of a signed halfword. */
  function Sra16(entry: nat): int {
    (if entry < 0x8000 then entry else entry - 0x1_0000) / 4
  }

  /** The vector shift finds sample c exactly when c is below 4096. */
  lemma {:induction false} Sra16Exact(c: nat)
    requires c < 8192
    ensures Sra16(8 * c) == 2 * c <==> c < 4096
  {
  }

  /** The samples that the wide kernels can address. */
  const Reach: nat := 4096

  /** The pairs of one chunk. */
  function Chunk(ps: seq<Pair>, k: nat): (qs: seq<Pair>)
    requires k + 4 <= |ps|
    ensures |qs| == 4 && qs[0] == ps[k] && qs[1] == ps[k + 1] && qs[2] == ps[k + 2] && qs[3] == ps[k + 3]
  {
    ps[k..k + 4]
  }

  lemma {:induction false} ChunkFacts(ps: seq<Pair>, k: nat, n: nat)
    requires Apart(ps) && InRange(ps, n) && k + 4 <= |ps|
    ensures Apart(Chunk(ps, k)) && InRange(Chunk(ps, k), n) && InRange(ps[..k], n)
    ensures ps[..k] + Chunk(ps, k) == ps[..k + 4]
  {
    var qs := Chunk(ps, k);
    assert forall i {:trigger qs[i]} :: 0 <= i < 4 ==> qs[i] == ps[k + i];
  }

  /** Exchanging the pairs of the next chunk at once continues the sequential swaps. */
  lemma {:induction false} ChunkApplied<T>(s: seq<T>, ps: seq<Pair>, k: nat, cur: seq<T>, next: seq<T>)
    requires Apart(ps) && InRange(ps, |s|) && k + 4 <= |ps| && InRange(ps[..k], |s|) && InRange(Chunk(ps, k), |s|)
    requires cur == Apply(s, ps[..k]) && |next| == |cur| && Exchanged(next, cur, Chunk(ps, k))
    ensures InRange(ps[..k + 4], |s|) && next == Apply(s, ps[..k + 4])
  {
    ChunkFacts(ps, k, |s|);
    ApplyExchanges(cur, Chunk(ps, k));
    ExchangedUnique(next, Apply(cur, Chunk(ps, k)), cur, Chunk(ps, k));
    ApplyConcat(s, ps[..k], Chunk(ps, k));
  }

  /** Eight loads, then eight stores, on eight different words. */
  method ExchangeFour(w: array<int>, a1: nat, a2: nat, a3: nat, a4: nat, b1: nat, b2: nat, b3: nat, b4: nat)
    requires a1 < w.Length && a2 < w.Length && a3 < w.Length && a4 < w.Length
    requires b1 < w.Length && b2 < w.Length && b3 < w.Length && b4 < w.Length
    requires Apart(Four(a1, a2, a3, a4, b1, b2, b3, b4))
    modifies w
    ensures InRange(Four(a1, a2, a3, a4, b1, b2, b3, b4), w.Length)
    ensures Exchanged(w[..], old(w[..]), Four(a1, a2, a3, a4, b1, b2, b3, b4))
  {
    ghost var s := w[..];
    var tmpa1, tmpa2, tmpa3, tmpa4 := w[a1], w[a2], w[a3], w[a4];
    var tmpb1, tmpb2, tmpb3, tmpb4 := w[b1], w[b2], w[b3], w[b4];
    w[a1] := tmpb1;
    w[a2] := tmpb2;
    w[a3] := tmpb3;
    w[a4] := tmpb4;
    w[b1] := tmpa1;
    w[b2] := tmpa2;
    w[b3] := tmpa3;
    w[b4] := tmpa4;
    FourApart(a1, a2, a3, a4, b1, b2, b3, b4);
    EightStores(s, w[..], a1, a2, a3, a4, b1, b2, b3, b4);
    FourExchanged(s, w[..], a1, a2, a3, a4, b1, b2, b3, b4);
  }

  /** Eight different places. */
  predicate Eight(a1: nat, a2: nat, a3: nat, a4: nat, b1: nat, b2: nat, b3: nat, b4: nat) {
    && a1 != a2 && a1 != a3 && a1 != a4 && a1 != b1 && a1 != b2 && a1 != b3 && a1 != b4
    && a2 != a3 && a2 != a4 && a2 != b1 && a2 != b2 && a2 != b3 && a2 != b4
    && a3 != a4 && a3 != b1 && a3 != b2 && a3 != b3 && a3 != b4
    && a4 != b1 && a4 != b2 && a4 != b3 && a4 != b4
    && b1 != b2 && b1 != b3 && b1 != b4 && b2 != b3 && b2 != b4 && b3 != b4
  }

  function Four(a1: nat, a2: nat, a3: nat, a4: nat, b1: nat, b2: nat, b3: nat, b4: nat): (qs: seq<Pair>)
    ensures |qs| == 4 && qs[0] == Pair(b1, a1) && qs[1] == Pair(b2, a2) && qs[2] == Pair(b3, a3) && qs[3] == Pair(b4, a4)
  {
    [Pair(b1, a1), Pair(b2, a2), Pair(b3, a3), Pair(b4, a4)]
  }

  lemma {:induction false} FourApart(a1: nat, a2: nat, a3: nat, a4: nat, b1: nat, b2: nat, b3: nat, b4: nat)
    requires Apart(Four(a1, a2, a3, a4, b1, b2, b3, b4))
    ensures Eight(a1, a2, a3, a4, b1, b2, b3, b4)
  {
    var qs := Four(a1, a2, a3, a4, b1, b2, b3, b4);
    assert qs[0].a != qs[0].b && qs[1].a != qs[1].b && qs[2].a != qs[2].b && qs[3].a != qs[3].b;
  }

  /** Eight updates at different places, each with the old value of its partner. */
  lemma {:induction false} EightStores<T>(s: seq<T>, r: seq<T>, a1: nat, a2: nat, a3: nat, a4: nat, b1: nat, b2: nat, b3: nat, b4: nat)
    requires a1 < |s| && a2 < |s| && a3 < |s| && a4 < |s| && b1 < |s| && b2 < |s| && b3 < |s| && b4 < |s|
    requires Eight(a1, a2, a3, a4, b1, b2, b3, b4)
    requires r == s[a1 := s[b1]][a2 := s[b2]][a3 := s[b3]][a4 := s[b4]][b1 := s[a1]][b2 := s[a2]][b3 := s[a3]][b4 := s[a4]]
    ensures r[a1] == s[b1] && r[a2] == s[b2] && r[a3] == s[b3] && r[a4] == s[b4]
    ensures r[b1] == s[a1] && r[b2] == s[a2] && r[b3] == s[a3] && r[b4] == s[a4]
    ensures forall x {:trigger r[x]} :: 0 <= x < |s| && x !in [a1, a2, a3, a4, b1, b2, b3, b4] ==> r[x] == s[x]
  {
  }

  lemma {:induction false} FourExchanged<T>(s: seq<T>, r: seq<T>, a1: nat, a2: nat, a3: nat, a4: nat, b1: nat, b2: nat, b3: nat, b4: nat)
    requires a1 < |s| && a2 < |s| && a3 < |s| && a4 < |s| && b1 < |s| && b2 < |s| && b3 < |s| && b4 < |s| && |r| == |s|
    requires r[a1] == s[b1] && r[a2] == s[b2] && r[a3] == s[b3] && r[a4] == s[b4]
    requires r[b1] == s[a1] && r[b2] == s[a2] && r[b3] == s[a3] && r[b4] == s[a4]
    requires forall x {:trigger r[x]} :: 0 <= x < |s| && x !in [a1, a2, a3, a4, b1, b2, b3, b4] ==> r[x] == s[x]
    ensures InRange(Four(a1, a2, a3, a4, b1, b2, b3, b4), |s|)
    ensures Exchanged(r, s, Four(a1, a2, a3, a4, b1, b2, b3, b4))
  {
    var qs := Four(a1, a2, a3, a4, b1, b2, b3, b4);
    forall x {:trigger r[x]} | 0 <= x < |s| && Untouched(qs, x) ensures r[x] == s[x] {
      assert x != qs[0].a && x != qs[0].b && x != qs[1].a && x != qs[1].b && x != qs[2].a && x != qs[2].b && x != qs[3].a && x != qs[3].b;
    }
  }

  /** The word that a table entry addresses. */
  function WordIndex(entry: nat): int {
    Sra16(entry) / 2
  }

  lemma {:induction false} EntryDecodes(ps: seq<Pair>, i: nat, k: nat)
    requires InRange(ps, Reach) && k < |ps| && i == 2 * k
    ensures WordIndex(Words(ps)[i]) == ps[k].a && WordIndex(Words(ps)[i + 1]) == ps[k].b
  {
    WordsAt(ps, k);
    assert ps[k].a < Reach && ps[k].b < Reach;
  }

  /** Both words of pair k are decoded as written. */
  ghost predicate Decodes(ps: seq<Pair>, k: nat)
    requires k < |ps|
  {
    WordIndex(Words(ps)[2 * k]) == ps[k].a && WordIndex(Words(ps)[2 * k + 1]) == ps[k].b
  }

  /** The wide kernels decode a table of up to 8192 samples right if and only if it only names samples below 4096. */
  lemma {:induction false} DecodeIff(ps: seq<Pair>)
    requires InRange(ps, 8192)
    ensures (forall k: nat {:trigger Decodes(ps, k)} :: k < |ps| ==> Decodes(ps, k)) <==> InRange(ps, Reach)
  {
    forall k: nat | k < |ps| ensures Decodes(ps, k) <==> ps[k].a < Reach && ps[k].b < Reach {
      WordsAt(ps, k);
      assert ps[k].a < 8192 && ps[k].b < 8192;
      Sra16Exact(ps[k].a);
      Sra16Exact(ps[k].b);
    }
  }

  lemma {:induction false} ChunkDecodes(ps: seq<Pair>, i: nat, k: nat)
    requires InRange(ps, Reach) && k + 4 <= |ps| && i == 2 * k
    ensures var tab := Words(ps);
            && WordIndex(tab[i]) == ps[k].a && WordIndex(tab[i + 1]) == ps[k].b
            && WordIndex(tab[i + 2]) == ps[k + 1].a && WordIndex(tab[i + 3]) == ps[k + 1].b
            && WordIndex(tab[i + 4]) == ps[k + 2].a && WordIndex(tab[i + 5]) == ps[k + 2].b
            && WordIndex(tab[i + 6]) == ps[k + 3].a && WordIndex(tab[i + 7]) == ps[k + 3].b
  {
    EntryDecodes(ps, i, k);
    EntryDecodes(ps, i + 2, k + 1);
    EntryDecodes(ps, i + 4, k + 2);
    EntryDecodes(ps, i + 6, k + 3);
  }

  lemma {:induction false} ChunkIs(ps: seq<Pair>, k: nat)
    requires k + 4 <= |ps|
    ensures Chunk(ps, k) == [Pair(ps[k].a, ps[k].b), Pair(ps[k + 1].a, ps[k + 1].b),
                             Pair(ps[k + 2].a, ps[k + 2].b), Pair(ps[k + 3].a, ps[k + 3].b)]
  {
  }

  /** One expansion of SWAP_ITEMS. */
  method SwapItems(w: array<int>, tab: seq<nat>, i: nat, ghost ps: seq<Pair>, ghost k: nat, ghost s: seq<int>)
    requires InRange(ps, Reach) && InRange(ps, w.Length) && Apart(ps) && tab == Words(ps)
    requires i == 2 * k && k + 4 <= |ps| && |s| == w.Length && InRange(ps[..k], |s|) && w[..] == Apply(s, ps[..k])
    modifies w
    ensures InRange(ps[..k + 4], |s|) && w[..] == Apply(s, ps[..k + 4])
  {
    ChunkDecodes(ps, i, k);
    ChunkFacts(ps, k, |s|);
    ChunkIs(ps, k);
    ghost var cur := w[..];
    ExchangeFour(w, WordIndex(tab[i + 1]), WordIndex(tab[i + 3]), WordIndex(tab[i + 5]), WordIndex(tab[i + 7]),
                 WordIndex(tab[i]), WordIndex(tab[i + 2]), WordIndex(tab[i + 4]), WordIndex(tab[i + 6]));
    ChunkApplied(s, ps, k, cur, w[..]);
  }

  lemma {:induction false} WholeChunk(i: nat, k: nat, len: nat)
    requires i == 2 * k && i % 8 == 0 && i < 2 * len && 2 * len % 8 == 0
    ensures k + 4 <= len && (i + 8) % 8 == 0
  {
  }

  /** mempool_bitrevtable_q16s_xpulpimg, on 32-bit words that hold one sample each. */
  method SwapFourAtATime(w: array<int>, tab: seq<nat>, ghost ps: seq<Pair>)
    requires InRange(ps, Reach) && InRange(ps, w.Length) && Apart(ps) && tab == Words(ps) && |tab| % 8 == 0
    modifies w
    ensures w[..] == Apply(old(w[..]), ps)
  {
    ghost var k, s := 0, w[..];
    assert ps[..0] == [];
    var i := 0;
    while i < |tab|
      invariant i == 2 * k && i % 8 == 0 && k <= |ps|
      invariant InRange(ps[..k], |s|) && w[..] == Apply(s, ps[..k])
    {
      WholeChunk(i, k, |ps|);
      SwapItems(w, tab, i, ps, k, s);
      i, k := i + 8, k + 4;
    }
    assert ps[..|ps|] == ps;
  }

  /** In the parallel kernel every swap belongs to exactly one core: the loop of a core visits the
      table offsets 8 * core_id + t * 8 * nPE. */
  lemma {:induction false} SwapOwner(swap: nat, cores: nat, core: nat, t: nat)
    requires cores > 0 && core < cores
    ensures 8 * core + t * (8 * cores) == 8 * (swap / 4) <==> core == swap / 4 % cores && t == swap / 4 / cores
  {
    var c := swap / 4;
    assert t * (8 * cores) == 8 * (t * cores);
    if c == core + t * cores {
      DivModUnique(c, cores, t, core);
    }
  }
}
