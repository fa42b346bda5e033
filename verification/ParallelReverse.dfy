/** The direct kernel `mempool_bitrev_q16p_xpulpimg` of
    software/kernels/baremetal/mempool_cfft_q16_bitreversal.h on any number of cores, one store of shared memory
    per step, in any interleaving; and its agreement with the table kernels. */
module ParallelReverse {
  import opened Arith
  import opened DigitReversal
  import opened SwapTable
  import opened RadixTwo
  import K = ReorderKernels
  import ParallelSwap

  /** The loop index of a core, and whether it has stored the first component of this sample. */
  datatype Core = Core(i: nat, half: bool)

  datatype State = State(dst: seq<int>, cores: seq<Core>)

  /** Core c stores the next component of its sample to the reversed place, whose index it computes in
      registers (`ReverseIndex`). */
  function CoreStep(src: seq<int>, s: State, n: nat, nPE: nat, c: nat): (s': State)
    requires |src| == |s.dst| == 2 * Pow2(n) && |s.cores| == nPE && c < nPE
    ensures |s'.dst| == |s.dst| && |s'.cores| == nPE
  {
    var core := s.cores[c];
    if core.i >= Pow2(n) then s
    else
      var r := Rev(core.i, n);
      if r >= Pow2(n) then s
      else if !core.half then State(s.dst[2 * r := src[2 * core.i]], s.cores[c := Core(core.i, true)])
      else State(s.dst[2 * r + 1 := src[2 * core.i + 1]], s.cores[c := Core(core.i + nPE, false)])
  }

  ghost predicate Schedule(schedule: seq<nat>, nPE: nat) {
    forall k {:trigger schedule[k]} :: 0 <= k < |schedule| ==> schedule[k] < nPE
  }

  function CoreRun(src: seq<int>, s: State, n: nat, nPE: nat, schedule: seq<nat>): (s': State)
    requires |src| == |s.dst| == 2 * Pow2(n) && |s.cores| == nPE && Schedule(schedule, nPE)
    ensures |s'.dst| == |s.dst| && |s'.cores| == nPE
    decreases |schedule|
  {
    if schedule == [] then s
    else CoreStep(src, CoreRun(src, s, n, nPE, schedule[..|schedule| - 1]), n, nPE, schedule[|schedule| - 1])
  }

  /** Core c starts at sample c. */
  ghost predicate Starting(s: State, nPE: nat) {
    |s.cores| == nPE && forall c {:trigger s.cores[c]} :: 0 <= c < nPE ==> s.cores[c] == Core(c, false)
  }

  ghost predicate AllDone(s: State, n: nat) {
    forall c {:trigger s.cores[c]} :: 0 <= c < |s.cores| ==> s.cores[c].i >= Pow2(n)
  }

  // ---------------------------------------------------------------------------------------------
  // The invariant
  // ---------------------------------------------------------------------------------------------

  /** Sample x has been written as far as its core has come. */
  ghost predicate Written(src: seq<int>, s: State, n: nat, nPE: nat, x: nat)
    requires |src| == |s.dst| == 2 * Pow2(n) && |s.cores| == nPE > 0 && x < Pow2(n)
  {
    var core, r := s.cores[Mod(x, nPE)], Rev(x, n);
    && r < Pow2(n)
    && (x < core.i || (x == core.i && core.half) ==> s.dst[2 * r] == src[2 * x])
    && (x < core.i ==> s.dst[2 * r + 1] == src[2 * x + 1])
  }

  ghost predicate OnOwn(s: State, nPE: nat, c: nat)
    requires |s.cores| == nPE && c < nPE
  {
    Mod(s.cores[c].i, nPE) == c
  }

  ghost predicate Inv(src: seq<int>, s: State, n: nat, nPE: nat) {
    && |src| == |s.dst| == 2 * Pow2(n) && |s.cores| == nPE > 0
    && (forall c: nat {:trigger OnOwn(s, nPE, c)} :: c < nPE ==> OnOwn(s, nPE, c))
    && (forall x: nat {:trigger Written(src, s, n, nPE, x)} :: x < Pow2(n) ==> Written(src, s, n, nPE, x))
  }

  lemma {:induction false} StartInv(src: seq<int>, s: State, n: nat, nPE: nat)
    requires |src| == |s.dst| == 2 * Pow2(n) && nPE > 0 && Starting(s, nPE)
    ensures Inv(src, s, n, nPE)
  {
    forall x: nat | x < Pow2(n) ensures Written(src, s, n, nPE, x) {
      RevInvolution(x, n);
      FloorMod(x, nPE);
    }
  }

  lemma {:induction false} WrittenOn(src: seq<int>, s: State, n: nat, nPE: nat, c: nat, x: nat)
    requires Inv(src, s, n, nPE) && c < nPE && x < Pow2(n)
    ensures Written(src, CoreStep(src, s, n, nPE, c), n, nPE, x)
  {
    var core := s.cores[c];
    assert Written(src, s, n, nPE, x) && OnOwn(s, nPE, c);
    if core.i < Pow2(n) {
      RevInvolution(core.i, n);
      RevInvolution(x, n);
      if Mod(x, nPE) == c {
        ParallelSwap.NextChunk(core.i, x, nPE);
      }
    }
  }

  lemma {:induction false} StepInv(src: seq<int>, s: State, n: nat, nPE: nat, c: nat)
    requires Inv(src, s, n, nPE) && c < nPE
    ensures Inv(src, CoreStep(src, s, n, nPE, c), n, nPE)
  {
    var s' := CoreStep(src, s, n, nPE, c);
    forall d: nat | d < nPE ensures OnOwn(s', nPE, d) {
      assert OnOwn(s, nPE, d);
      ParallelSwap.NextChunk(s.cores[d].i, s.cores[d].i, nPE);
    }
    forall x: nat | x < Pow2(n) ensures Written(src, s', n, nPE, x) {
      WrittenOn(src, s, n, nPE, c, x);
    }
  }

  lemma {:induction false} RunInv(src: seq<int>, s: State, n: nat, nPE: nat, schedule: seq<nat>)
    requires Inv(src, s, n, nPE) && Schedule(schedule, nPE)
    ensures Inv(src, CoreRun(src, s, n, nPE, schedule), n, nPE)
    decreases |schedule|
  {
    if schedule != [] {
      var before := schedule[..|schedule| - 1];
      RunInv(src, s, n, nPE, before);
      StepInv(src, CoreRun(src, s, n, nPE, before), n, nPE, schedule[|schedule| - 1]);
    }
  }

  // ---------------------------------------------------------------------------------------------
  // What the kernels compute
  // ---------------------------------------------------------------------------------------------

  /** In every interleaving of any number of cores the direct kernel scatters every sample, both components, to its
      reversed place. */
  lemma {:induction false} DirectKernel(src: seq<int>, s: State, n: nat, nPE: nat, schedule: seq<nat>, x: nat)
    requires |src| == |s.dst| == 2 * Pow2(n) && nPE > 0 && Starting(s, nPE) && Schedule(schedule, nPE) && x < Pow2(n)
    requires AllDone(CoreRun(src, s, n, nPE, schedule), n)
    ensures Rev(x, n) < Pow2(n)
    ensures K.Samples(CoreRun(src, s, n, nPE, schedule).dst, Pow2(n))[Rev(x, n)] == K.Samples(src, Pow2(n))[x]
  {
    StartInv(src, s, n, nPE);
    RunInv(src, s, n, nPE, schedule);
    var r := CoreRun(src, s, n, nPE, schedule);
    assert Written(src, r, n, nPE, x);
    assert r.cores[Mod(x, nPE)].i >= Pow2(n);
  }

  /** So, in every interleaving, it computes what the sequential swaps of the table compute in place. */
  lemma {:induction false} DirectIsTable(src: seq<int>, s: State, n: nat, nPE: nat, schedule: seq<nat>, cycles: seq<seq<nat>>)
    requires |src| == |s.dst| == 2 * Pow2(n) && nPE > 0 && Starting(s, nPE) && Schedule(schedule, nPE)
    requires AllDone(CoreRun(src, s, n, nPE, schedule), n) && CyclicForm(cycles, Indexes(n))
    ensures InRange(Table(cycles), Pow2(n))
    ensures K.Samples(CoreRun(src, s, n, nPE, schedule).dst, Pow2(n)) == Apply(K.Samples(src, Pow2(n)), Table(cycles))
  {
    var dst := K.Samples(CoreRun(src, s, n, nPE, schedule).dst, Pow2(n));
    forall x: nat {:trigger Rev(x, n)} | x < Pow2(n) ensures Rev(x, n) < Pow2(n) && dst[Rev(x, n)] == K.Samples(src, Pow2(n))[x] {
      DirectKernel(src, s, n, nPE, schedule, x);
    }
    ScatterIsTable(K.Samples(src, Pow2(n)), dst, n, cycles);
  }

  /** The parallel kernels agree: by table in place and directly out of place, whatever the number of cores
      and the interleaving of each, every sample ends at its reversed place. */
  lemma {:induction false} ParallelKernelsAgree(src: seq<int>, s: State, n: nat, nPE: nat, schedule: seq<nat>, cycles: seq<seq<nat>>,
                                                t: ParallelSwap.State<(int, int)>, nPE': nat, schedule': seq<nat>)
    requires |src| == |s.dst| == 2 * Pow2(n) && nPE > 0 && Starting(s, nPE) && Schedule(schedule, nPE)
    requires AllDone(CoreRun(src, s, n, nPE, schedule), n) && CyclicForm(cycles, Indexes(n))
    requires (n <= 1 || n >= 5) && n <= 12 && nPE' > 0 && t.mem == K.Samples(src, Pow2(n))
    requires ParallelSwap.Starting(t, nPE') && ParallelSwap.Schedule(schedule', nPE')
    requires ParallelSwap.AllDone(ParallelSwap.CoreRun(t, Words(Table(cycles)), nPE', schedule'), Words(Table(cycles)))
    ensures ParallelSwap.CoreRun(t, Words(Table(cycles)), nPE', schedule').mem
         == K.Samples(CoreRun(src, s, n, nPE, schedule).dst, Pow2(n))
  {
    DirectIsTable(src, s, n, nPE, schedule, cycles);
    TableApart(cycles, n);
    TableIsWholeChunks(n, cycles);
    assert Pow2(n) <= K.Reach by {
      Pow2Blocks(n, 12);
      Pow2Of12();
    }
    ParallelSwap.ParallelKernel(t, Table(cycles), nPE', schedule');
  }
}
