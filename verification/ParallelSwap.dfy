/** The parallel table kernel `mempool_bitrevtable_q16p_xpulpimg` of
    software/kernels/baremetal/mempool_cfft_q16_bitreversal.h: every core runs its own loop over the table
    with its own registers, one load or store of shared memory per step, in any interleaving. */
module ParallelSwap {
  import opened Arith
  import opened SwapTable
  import opened ReorderKernels

  /** The loop offset of a core, how many of the sixteen accesses of SWAP_ITEMS it has made, and its
      registers tmpa1..tmpa4 and tmpb1..tmpb4. */
  datatype Core<T> = Core(off: nat, pos: nat, tmpa: seq<T>, tmpb: seq<T>)

  /** Memory words of one sample each, and the cores. */
  datatype State<T> = State(mem: seq<T>, cores: seq<Core<T>>)

  ghost predicate Shaped<T>(s: State<T>, nPE: nat) {
    |s.cores| == nPE && forall c {:trigger s.cores[c]} :: 0 <= c < nPE ==> |s.cores[c].tmpa| == |s.cores[c].tmpb| == 4 && s.cores[c].pos < 16
  }

  /** Core c starts at offset 8 * c; what its registers hold does not matter. */
  ghost predicate Starting<T>(s: State<T>, nPE: nat) {
    Shaped(s, nPE) && forall c {:trigger s.cores[c]} :: 0 <= c < nPE ==> s.cores[c].off == 8 * c && s.cores[c].pos == 0
  }

  /** a1..a4 and b1..b4: the words that the table entries of this chunk address. */
  function AddrA(tab: seq<nat>, off: nat, j: nat): int
    requires off + 2 * j + 1 < |tab|
  {
    WordIndex(tab[off + 2 * j + 1])
  }

  function AddrB(tab: seq<nat>, off: nat, j: nat): int
    requires off + 2 * j < |tab|
  {
    WordIndex(tab[off + 2 * j])
  }

  /** The four groups of accesses: loads of tmpa, loads of tmpb, stores to a, stores to b. */
  function AccessAt<T>(mem: seq<T>, core: Core<T>, a: int, b: int): (r: (seq<T>, Core<T>))
    requires core.pos < 16 && |core.tmpa| == |core.tmpb| == 4
    ensures |r.0| == |mem| && r.1.off == core.off && r.1.pos == core.pos && |r.1.tmpa| == |r.1.tmpb| == 4
  {
    var j := core.pos % 4;
    if !(0 <= a < |mem| && 0 <= b < |mem|) then (mem, core)
    else if core.pos < 4 then (mem, core.(tmpa := core.tmpa[j := mem[a]]))
    else if core.pos < 8 then (mem, core.(tmpb := core.tmpb[j := mem[b]]))
    else if core.pos < 12 then (mem[a := core.tmpb[j]], core)
    else (mem[b := core.tmpa[j]], core)
  }

  function MakeAccess<T>(mem: seq<T>, core: Core<T>, tab: seq<nat>): (r: (seq<T>, Core<T>))
    requires core.pos < 16 && |core.tmpa| == |core.tmpb| == 4
    ensures |r.0| == |mem| && r.1.off == core.off && r.1.pos == core.pos && |r.1.tmpa| == |r.1.tmpb| == 4
  {
    if core.off + 8 > |tab| then (mem, core)
    else AccessAt(mem, core, AddrA(tab, core.off, core.pos % 4), AddrB(tab, core.off, core.pos % 4))
  }

  /** After the last access the loop goes on to the next chunk of this core. */
  function Advance<T>(core: Core<T>, nPE: nat): Core<T> {
    if core.pos < 15 then core.(pos := core.pos + 1) else core.(off := core.off + 8 * nPE, pos := 0)
  }

  /** Core c makes its next access; it does nothing once its loop has ended. */
  function CoreStep<T>(s: State<T>, tab: seq<nat>, nPE: nat, c: nat): (s': State<T>)
    requires Shaped(s, nPE) && c < nPE
    ensures Shaped(s', nPE) && |s'.mem| == |s.mem|
  {
    var core := s.cores[c];
    if core.off >= |tab| then s
    else
      var (mem, after) := MakeAccess(s.mem, core, tab);
      State(mem, s.cores[c := Advance(after, nPE)])
  }

  ghost predicate Schedule(schedule: seq<nat>, nPE: nat) {
    forall k {:trigger schedule[k]} :: 0 <= k < |schedule| ==> schedule[k] < nPE
  }

  /** A run: any sequence of core steps. */
  function CoreRun<T>(s: State<T>, tab: seq<nat>, nPE: nat, schedule: seq<nat>): (s': State<T>)
    requires Shaped(s, nPE) && Schedule(schedule, nPE)
    ensures Shaped(s', nPE) && |s'.mem| == |s.mem|
    decreases |schedule|
  {
    if schedule == [] then s
    else CoreStep(CoreRun(s, tab, nPE, schedule[..|schedule| - 1]), tab, nPE, schedule[|schedule| - 1])
  }

  /** Every core has left its loop. */
  ghost predicate AllDone<T>(s: State<T>, tab: seq<nat>) {
    forall c {:trigger s.cores[c]} :: 0 <= c < |s.cores| ==> s.cores[c].off >= |tab|
  }

  // ---------------------------------------------------------------------------------------------
  // Refinement of the machine with registers per swap
  // ---------------------------------------------------------------------------------------------

  /** The core that makes swap i. */
  function Owner(i: nat, nPE: nat): (c: nat)
    requires nPE > 0
    ensures c < nPE
  {
    Mod(i / 4, nPE)
  }

  /** Has a core at this offset and position made the access of swap i? The words a and b of the code are the
      second and the first of the pair. */
  predicate Made(off: nat, pos: nat, i: nat, op: Access) {
    var j := i % 4;
    if 8 * (i / 4) != off then 8 * (i / 4) < off
    else
      match op
      case LoadB => pos > j
      case LoadA => pos > 4 + j
      case StoreB => pos > 8 + j
      case StoreA => pos > 12 + j
  }

  ghost predicate SwapRel<T>(s: State<T>, m: Machine<T>, nPE: nat, i: nat)
    requires Shaped(s, nPE) && nPE > 0 && i < |m.done| && i < |m.tmpa| && i < |m.tmpb|
  {
    var core, j := s.cores[Owner(i, nPE)], i % 4;
    && (forall op {:trigger op in m.done[i]} :: op in m.done[i] <==> Made(core.off, core.pos, i, op))
    && (8 * (i / 4) == core.off && core.pos > j ==> m.tmpb[i] == core.tmpa[j])
    && (8 * (i / 4) == core.off && core.pos > 4 + j ==> m.tmpa[i] == core.tmpb[j])
  }

  /** The offset of core c is the one of some iteration of its loop, so it is at a chunk of its own. */
  predicate OwnOffset(off: nat, nPE: nat, c: nat)
    requires nPE > 0
  {
    off % 8 == 0 && Mod(off / 8, nPE) == c
  }

  ghost predicate OnOwn<T>(s: State<T>, nPE: nat, c: nat)
    requires Shaped(s, nPE) && c < nPE
  {
    OwnOffset(s.cores[c].off, nPE, c)
  }

  /** The loop of core c is at swap i in iteration t exactly when it owns i and t is its turn. */
  lemma {:induction false} Visits(i: nat, nPE: nat, c: nat, t: nat)
    requires c < nPE
    ensures 8 * c + t * (8 * nPE) == 8 * (i / 4) <==> c == Owner(i, nPE) && t == Div(i / 4, nPE)
  {
    SwapOwner(i, nPE, c, t);
    DivModAreBuiltIn(i / 4, nPE);
  }

  /** In particular every core starts at a chunk of its own. */
  lemma {:induction false} StartOwn(nPE: nat, c: nat)
    requires c < nPE
    ensures OwnOffset(8 * c, nPE, c)
  {
    Visits(4 * c, nPE, c, 0);
  }

  ghost predicate Related<T>(s: State<T>, m: Machine<T>, ps: seq<Pair>, nPE: nat) {
    && nPE > 0 && Shaped(s, nPE) && Sized(m, |s.mem|, |ps|) && s.mem == m.mem
    && (forall c: nat {:trigger OnOwn(s, nPE, c)} :: c < nPE ==> OnOwn(s, nPE, c))
    && (forall i: nat {:trigger SwapRel(s, m, nPE, i)} :: i < |ps| ==> SwapRel(s, m, nPE, i))
  }

  /** The access of swap i that a core makes at position pos. */
  function OpAt(pos: nat): Access {
    if pos < 4 then LoadB else if pos < 8 then LoadA else if pos < 12 then StoreB else StoreA
  }

  /** What the addresses of a chunk are. */
  lemma {:induction false} Decoded(ps: seq<Pair>, off: nat, j: nat, i: nat)
    requires InRange(ps, Reach) && i < |ps| && off + 2 * j == 2 * i
    ensures AddrA(Words(ps), off, j) == ps[i].b && AddrB(Words(ps), off, j) == ps[i].a
  {
    EntryDecodes(ps, 2 * i, i);
  }

  /** No chunk of core c lies strictly between two that its loop visits one after the other. */
  lemma {:induction false} NextChunk(ch: nat, x: nat, nPE: nat)
    requires nPE > 0 && Mod(x, nPE) == Mod(ch, nPE)
    ensures Mod(ch + nPE, nPE) == Mod(ch, nPE)
    ensures x < ch + nPE <==> x <= ch
  {
    FloorMod(ch, nPE);
    FloorMod(x, nPE);
    if ch < x {
      BlockInside(Floor(ch, nPE), nPE, Floor(x, nPE));
    }
  }

  /** The next offset is an own one again. */
  lemma {:induction false} NextOwnOffset(off: nat, nPE: nat, c: nat)
    requires nPE > 0 && OwnOffset(off, nPE, c)
    ensures OwnOffset(off + 8 * nPE, nPE, c)
  {
    NextChunk(off / 8, off / 8, nPE);
    assert (off + 8 * nPE) / 8 == off / 8 + nPE;
  }

  /** One access of core c concerns one swap: what it has made of its other swaps stays the same. */
  lemma {:induction false} MadeSame(off: nat, pos: nat, nPE: nat, c: nat, i: nat, op: Access)
    requires nPE > 0 && pos < 16 && OwnOffset(off, nPE, c) && Owner(i, nPE) == c && i != off / 2 + pos % 4
    ensures var off', pos' := if pos < 15 then off else off + 8 * nPE, if pos < 15 then pos + 1 else 0;
            Made(off', pos', i, op) <==> Made(off, pos, i, op)
  {
    NextChunk(off / 8, i / 4, nPE);
  }

  /** And of that swap it has made exactly this access more. */
  lemma {:induction false} MadeMore(off: nat, pos: nat, nPE: nat, c: nat, op: Access)
    requires nPE > 0 && pos < 16 && OwnOffset(off, nPE, c)
    ensures var i := off / 2 + pos % 4;
            var off', pos' := if pos < 15 then off else off + 8 * nPE, if pos < 15 then pos + 1 else 0;
            && i / 4 == off / 8 && i % 4 == pos % 4 && Owner(i, nPE) == c
            && (Made(off', pos', i, op) <==> Made(off, pos, i, op) || op == OpAt(pos))
            && !Made(off, pos, i, OpAt(pos))
  {
  }

  /** The next state of a core's offset and position. */
  lemma {:induction false} StepCores<T>(s: State<T>, ps: seq<Pair>, nPE: nat, c: nat)
    requires Shaped(s, nPE) && c < nPE && s.cores[c].off < 2 * |ps|
    ensures var core, s' := s.cores[c], CoreStep(s, Words(ps), nPE, c);
            && (forall d {:trigger s'.cores[d]} :: 0 <= d < nPE && d != c ==> s'.cores[d] == s.cores[d])
            && GoneOn(core, s'.cores[c], nPE)
  {
  }

  /** The addresses of an access are those of its pair. */
  lemma {:induction false} AccessOfPair<T>(mem: seq<T>, core: Core<T>, ps: seq<Pair>, i: nat)
    requires core.pos < 16 && |core.tmpa| == |core.tmpb| == 4 && core.off % 8 == 0 && core.off + 8 <= 2 * |ps|
    requires InRange(ps, Reach) && InRange(ps, |mem|) && i == core.off / 2 + core.pos % 4
    ensures i < |ps| && ps[i].a < |mem| && ps[i].b < |mem|
    ensures MakeAccess(mem, core, Words(ps)) == AccessAt(mem, core, ps[i].b, ps[i].a)
  {
    SwapIndex(core.off, core.pos, |ps|, i);
    Decoded(ps, core.off, core.pos % 4, i);
    AccessRewrite(mem, core, Words(ps), ps[i].b, ps[i].a);
  }

  lemma {:induction false} SwapIndex(off: nat, pos: nat, len: nat, i: nat)
    requires off % 8 == 0 && off + 8 <= 2 * len && i == off / 2 + pos % 4
    ensures i < len && off + 2 * (pos % 4) == 2 * i
  {
  }

  lemma {:induction false} AccessRewrite<T>(mem: seq<T>, core: Core<T>, tab: seq<nat>, a: int, b: int)
    requires core.pos < 16 && |core.tmpa| == |core.tmpb| == 4 && core.off + 8 <= |tab|
    requires AddrA(tab, core.off, core.pos % 4) == a && AddrB(tab, core.off, core.pos % 4) == b
    ensures MakeAccess(mem, core, tab) == AccessAt(mem, core, a, b)
  {
  }

  /** The same access on the machine with registers per swap. */
  lemma {:induction false} StepOfPair<T>(m: Machine<T>, ps: seq<Pair>, i: nat, off: nat, pos: nat)
    requires InRange(ps, |m.mem|) && Sized(m, |m.mem|, |ps|) && i < |ps| && pos < 16 && off == 8 * (i / 4) && i % 4 == pos % 4
    requires forall op {:trigger op in m.done[i]} :: op in m.done[i] <==> Made(off, pos, i, op)
    ensures ps[i].a < |m.mem| && ps[i].b < |m.mem|
    ensures var done := m.done[i := m.done[i] + {OpAt(pos)}];
            Step(m, ps, i, OpAt(pos)) ==
              if pos < 4 then m.(tmpb := m.tmpb[i := m.mem[ps[i].b]], done := done)
              else if pos < 8 then m.(tmpa := m.tmpa[i := m.mem[ps[i].a]], done := done)
              else if pos < 12 then m.(mem := m.mem[ps[i].b := m.tmpa[i]], done := done)
              else m.(mem := m.mem[ps[i].a := m.tmpb[i]], done := done)
  {
    assert !Made(off, pos, i, OpAt(pos));
    assert pos >= 8 ==> LoadA in m.done[i] && LoadB in m.done[i];
  }

  /** The other registers of a core are kept. */
  ghost predicate OthersKept<T>(core: Core<T>, core': Core<T>)
    requires |core.tmpa| == |core.tmpb| == |core'.tmpa| == |core'.tmpb| == 4
  {
    && (forall j {:trigger core'.tmpa[j]} :: 0 <= j < 4 && j != core.pos % 4 ==> core'.tmpa[j] == core.tmpa[j])
    && (forall j {:trigger core'.tmpb[j]} :: 0 <= j < 4 && j != core.pos % 4 ==> core'.tmpb[j] == core.tmpb[j])
  }

  /** A core has gone on to its next access. */
  predicate GoneOn<T>(core: Core<T>, core': Core<T>, nPE: nat) {
    && core'.off == (if core.pos < 15 then core.off else core.off + 8 * nPE)
    && core'.pos == (if core.pos < 15 then core.pos + 1 else 0)
  }

  /** The registers of swap i hold what the core has loaded for it. */
  ghost predicate Loaded<T>(m: Machine<T>, i: nat, core: Core<T>, core': Core<T>)
    requires i < |m.tmpa| && i < |m.tmpb| && |core'.tmpa| == |core'.tmpb| == 4
  {
    m.tmpb[i] == core'.tmpa[core.pos % 4] && (core.pos >= 4 ==> m.tmpa[i] == core'.tmpb[core.pos % 4])
  }

  /** Only swap i has changed, by the access at position pos. */
  ghost predicate OneSwap<T>(m: Machine<T>, m': Machine<T>, i: nat, pos: nat)
    requires i < |m.done| && i < |m'.tmpa| && i < |m'.tmpb| && i < |m.tmpa| && i < |m.tmpb|
  {
    && m'.done == m.done[i := m.done[i] + {OpAt(pos)}]
    && m'.tmpa == m.tmpa[i := m'.tmpa[i]] && m'.tmpb == m.tmpb[i := m'.tmpb[i]]
  }

  /** Only core c has stepped. */
  ghost predicate OneCore<T>(s: State<T>, s': State<T>, nPE: nat, c: nat)
    requires Shaped(s, nPE) && Shaped(s', nPE) && c < nPE
  {
    && (forall d {:trigger s'.cores[d]} :: 0 <= d < nPE && d != c ==> s'.cores[d] == s.cores[d])
    && GoneOn(s.cores[c], s'.cores[c], nPE) && OthersKept(s.cores[c], s'.cores[c])
  }

  /** The access is the same on memory, and on the registers of the swap concerned. */
  lemma {:induction false} SameAccess<T>(mem: seq<T>, core: Core<T>, m: Machine<T>, ps: seq<Pair>, i: nat)
    requires core.pos < 16 && |core.tmpa| == |core.tmpb| == 4 && core.off % 8 == 0 && core.off + 8 <= 2 * |ps|
    requires InRange(ps, Reach) && InRange(ps, |mem|) && Sized(m, |mem|, |ps|) && mem == m.mem && i == core.off / 2 + core.pos % 4
    requires forall op {:trigger op in m.done[i]} :: op in m.done[i] <==> Made(core.off, core.pos, i, op)
    requires core.pos > core.pos % 4 ==> m.tmpb[i] == core.tmpa[core.pos % 4]
    requires core.pos > 4 + core.pos % 4 ==> m.tmpa[i] == core.tmpb[core.pos % 4]
    ensures i < |ps| && ps[i].a < |mem| && ps[i].b < |mem|
    ensures var (mem', core'), m' := AccessAt(mem, core, ps[i].b, ps[i].a), Step(m, ps, i, OpAt(core.pos));
            mem' == m'.mem && OneSwap(m, m', i, core.pos) && Loaded(m', i, core, core') && OthersKept(core, core')
  {
    assert i < |ps| && i / 4 == core.off / 8 && i % 4 == core.pos % 4;
    StepOfPair(m, ps, i, core.off, core.pos);
  }

  /** A swap of another core, or another swap of this one, is as before. */
  lemma {:induction false} OtherSwap<T>(s: State<T>, s': State<T>, m: Machine<T>, m': Machine<T>, nPE: nat, c: nat, k: nat, i: nat)
    requires Shaped(s, nPE) && Shaped(s', nPE) && c < nPE && OnOwn(s, nPE, c)
    requires k < |m.done| == |m'.done| && k < |m.tmpa| == |m'.tmpa| && k < |m.tmpb| == |m'.tmpb| && SwapRel(s, m, nPE, k)
    requires k != i == s.cores[c].off / 2 + s.cores[c].pos % 4
    requires m'.done[k] == m.done[k] && m'.tmpa[k] == m.tmpa[k] && m'.tmpb[k] == m.tmpb[k]
    requires OneCore(s, s', nPE, c)
    ensures SwapRel(s', m', nPE, k)
  {
    if Owner(k, nPE) == c {
      var core := s.cores[c];
      forall op ensures op in m'.done[k] <==> Made(s'.cores[c].off, s'.cores[c].pos, k, op) {
        MadeSame(core.off, core.pos, nPE, c, k, op);
      }
    }
  }

  /** The swap concerned. */
  lemma {:induction false} ThisSwap<T>(s: State<T>, s': State<T>, m: Machine<T>, m': Machine<T>, nPE: nat, c: nat, i: nat)
    requires Shaped(s, nPE) && Shaped(s', nPE) && c < nPE && OnOwn(s, nPE, c)
    requires i < |m.done| == |m'.done| && i < |m.tmpa| == |m'.tmpa| && i < |m.tmpb| == |m'.tmpb| && SwapRel(s, m, nPE, i)
    requires i == s.cores[c].off / 2 + s.cores[c].pos % 4
    requires m'.done[i] == m.done[i] + {OpAt(s.cores[c].pos)}
    requires GoneOn(s.cores[c], s'.cores[c], nPE) && Loaded(m', i, s.cores[c], s'.cores[c])
    ensures SwapRel(s', m', nPE, i)
  {
    var core := s.cores[c];
    forall op ensures op in m'.done[i] <==> Made(s'.cores[c].off, s'.cores[c].pos, i, op) {
      MadeMore(core.off, core.pos, nPE, c, op);
    }
    MadeMore(core.off, core.pos, nPE, c, LoadA);
  }

  /** Every step of a core is one access of the machine with registers per swap. */
  lemma {:induction false} StepRelated<T>(s: State<T>, m: Machine<T>, ps: seq<Pair>, nPE: nat, c: nat) returns (i: nat)
    requires Related(s, m, ps, nPE) && InRange(ps, |s.mem|) && InRange(ps, Reach) && 2 * |ps| % 8 == 0
    requires c < nPE && s.cores[c].off < 2 * |ps|
    ensures i < |ps| && Related(CoreStep(s, Words(ps), nPE, c), Step(m, ps, i, OpAt(s.cores[c].pos)), ps, nPE)
  {
    var core := s.cores[c];
    assert OnOwn(s, nPE, c);
    i := core.off / 2 + core.pos % 4;
    assert i < |ps|;
    MadeMore(core.off, core.pos, nPE, c, LoadA);
    assert SwapRel(s, m, nPE, i);
    SameAccess(s.mem, core, m, ps, i);
    AccessOfPair(s.mem, core, ps, i);
    StepCores(s, ps, nPE, c);
    RelatedOn(s, CoreStep(s, Words(ps), nPE, c), m, Step(m, ps, i, OpAt(core.pos)), ps, nPE, c, i);
  }

  lemma {:induction false} RelatedOn<T>(s: State<T>, s': State<T>, m: Machine<T>, m': Machine<T>, ps: seq<Pair>, nPE: nat, c: nat, i: nat)
    requires Related(s, m, ps, nPE) && Shaped(s', nPE) && Sized(m', |s'.mem|, |ps|) && s'.mem == m'.mem && c < nPE && i < |ps|
    requires i == s.cores[c].off / 2 + s.cores[c].pos % 4
    requires OneSwap(m, m', i, s.cores[c].pos) && Loaded(m', i, s.cores[c], s'.cores[c]) && OneCore(s, s', nPE, c)
    ensures Related(s', m', ps, nPE)
  {
    assert OnOwn(s, nPE, c);
    forall d: nat | d < nPE ensures OnOwn(s', nPE, d) {
      assert OnOwn(s, nPE, d);
      if d == c {
        NextOwnOffset(s.cores[c].off, nPE, c);
      }
    }
    forall k: nat | k < |ps| ensures SwapRel(s', m', nPE, k) {
      assert SwapRel(s, m, nPE, k);
      if k == i {
        ThisSwap(s, s', m, m', nPE, c, i);
      } else {
        OtherSwap(s, s', m, m', nPE, c, k, i);
      }
    }
  }

  /** Accesses of swaps of the table. */
  ghost predicate Accesses(accesses: seq<(nat, Access)>, n: nat) {
    forall k {:trigger accesses[k]} :: 0 <= k < |accesses| ==> accesses[k].0 < n
  }

  /** Every schedule of the cores is a run of that machine. */
  lemma {:induction false} RunsRefine<T>(s: State<T>, m: Machine<T>, ps: seq<Pair>, nPE: nat, schedule: seq<nat>) returns (accesses: seq<(nat, Access)>)
    requires Related(s, m, ps, nPE) && InRange(ps, |s.mem|) && InRange(ps, Reach) && 2 * |ps| % 8 == 0 && Schedule(schedule, nPE)
    ensures Accesses(accesses, |ps|)
    ensures Related(CoreRun(s, Words(ps), nPE, schedule), Run(m, ps, accesses), ps, nPE)
    decreases |schedule|
  {
    accesses := [];
    if schedule != [] {
      var before, c := schedule[..|schedule| - 1], schedule[|schedule| - 1];
      accesses := RunsRefine(s, m, ps, nPE, before);
      var mid := CoreRun(s, Words(ps), nPE, before);
      if mid.cores[c].off < 2 * |ps| {
        var i := StepRelated(mid, Run(m, ps, accesses), ps, nPE, c);
        var more := accesses + [(i, OpAt(mid.cores[c].pos))];
        assert more[..|more| - 1] == accesses;
        accesses := more;
      }
    }
  }

  /** When all cores have left their loops, all swaps have made all their accesses. */
  lemma {:induction false} DoneFinished<T>(s: State<T>, m: Machine<T>, ps: seq<Pair>, nPE: nat)
    requires Related(s, m, ps, nPE) && AllDone(s, Words(ps))
    ensures Finished(m)
  {
    forall i {:trigger m.done[i]} | 0 <= i < |m.done| ensures StoreA in m.done[i] && StoreB in m.done[i] {
      assert SwapRel(s, m, nPE, i);
      assert s.cores[Owner(i, nPE)].off >= |Words(ps)|;
      assert Made(s.cores[Owner(i, nPE)].off, s.cores[Owner(i, nPE)].pos, i, StoreA);
      assert Made(s.cores[Owner(i, nPE)].off, s.cores[Owner(i, nPE)].pos, i, StoreB);
    }
  }

  lemma {:induction false} StartRelated<T>(s: State<T>, ps: seq<Pair>, nPE: nat) returns (m: Machine<T>)
    requires nPE > 0 && Starting(s, nPE) && |s.mem| > 0
    ensures Related(s, m, ps, nPE) && Fresh(m)
  {
    var x := s.mem[0];
    m := Machine(s.mem, seq(|ps|, _ => x), seq(|ps|, _ => x), seq(|ps|, _ => {}));
    forall c: nat | c < nPE ensures OnOwn(s, nPE, c) {
      StartOwn(nPE, c);
    }
    forall i: nat | i < |ps| ensures SwapRel(s, m, nPE, i) {
      FirstChunk(i, nPE);
    }
  }

  /** The first chunk of a core is the lowest it owns. */
  lemma {:induction false} FirstChunk(i: nat, nPE: nat)
    requires nPE > 0
    ensures 8 * Owner(i, nPE) <= 8 * (i / 4)
  {
    FloorMod(i / 4, nPE);
  }

  /** The parallel kernel: for disjoint swaps and whole chunks, in every interleaving of any number of cores, memory
      is what the sequential swaps leave once all cores have left their loops. */
  lemma {:induction false} ParallelKernel<T>(s: State<T>, ps: seq<Pair>, nPE: nat, schedule: seq<nat>)
    requires nPE > 0 && Starting(s, nPE) && InRange(ps, Reach) && InRange(ps, |s.mem|) && Apart(ps) && 2 * |ps| % 8 == 0
    requires Schedule(schedule, nPE) && AllDone(CoreRun(s, Words(ps), nPE, schedule), Words(ps))
    ensures CoreRun(s, Words(ps), nPE, schedule).mem == Apply(s.mem, ps)
  {
    if s.mem == [] {
      NothingInRange(ps, |s.mem|);
      return;
    }
    var m := StartRelated(s, ps, nPE);
    var accesses := RunsRefine(s, m, ps, nPE, schedule);
    DoneFinished(CoreRun(s, Words(ps), nPE, schedule), Run(m, ps, accesses), ps, nPE);
    AnyInterleaving(m, ps, accesses);
  }

  lemma {:induction false} NothingInRange(ps: seq<Pair>, n: nat)
    requires InRange(ps, n)
    ensures n == 0 ==> ps == []
  {
    if ps != [] {
      assert ps[0].a < n;
    }
  }

  /** Accesses a core may still make, at most. */
  function Left<T>(core: Core<T>, len: nat): int {
    if core.off >= len then 0 else 16 * (len - core.off) - core.pos
  }

  /** A core in its loop comes closer to the end with each of its steps, and no other core loses ground. */
  lemma {:induction false} CoreProgress<T>(s: State<T>, tab: seq<nat>, nPE: nat, c: nat, d: nat)
    requires Shaped(s, nPE) && c < nPE && d < nPE && s.cores[c].off < |tab|
    ensures var s' := CoreStep(s, tab, nPE, c);
            Left(s.cores[c], |tab|) > 0 && 0 <= Left(s'.cores[c], |tab|) < Left(s.cores[c], |tab|)
            && (d != c ==> s'.cores[d] == s.cores[d])
  {
  }
}
