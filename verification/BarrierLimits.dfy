/** What the partial barrier does where `wake_up_tile` does not decode its group. */
module BarrierLimits {
  import opened Arith
  import opened WakeUp
  import opened BarrierPrograms
  import opened BarrierTheorems

  /** The only write of the tile branch reaches no core of a group above 7. */
  lemma {:induction false} NeverWoken(topo: Topology, logSize: nat, core: nat, d: nat)
    requires topo.Valid() && TileBranch(topo, logSize) && topo.GroupOf(d) > 7
    ensures |PartialWrites(topo, logSize, core)| == 1 && !Wakes(topo, PartialWrites(topo, logSize, core)[0], d)
  {
    TileSizes(topo, logSize);
    TileWriteWakes(topo, logSize, core, d);
  }

  lemma {:induction false} StepStuck(m: Machine, s: CodeState, c: nat, d: nat)
    requires m.Valid() && m.prog.Partial? && TileBranch(m.topo, m.prog.logSize) && m.topo.GroupOf(d) > 7
    requires CodeSized(m, s) && c < m.topo.Cores() && d < m.topo.Cores() && s.pending[d] == 0
    ensures CodeNext(m, s, c).pending[d] == 0 && CodeNext(m, s, c).rets[d] == s.rets[d]
  {
    NeverWoken(m.topo, m.prog.logSize, c, d);
  }

  /** In the tile branch a core of a group above 7 is never woken, so it never returns from its first call,
      in any run. */
  lemma {:induction false} StuckAboveGroup7(m: Machine, schedule: seq<nat>, d: nat)
    requires m.Valid() && m.prog.Partial? && TileBranch(m.topo, m.prog.logSize)
    requires Schedule(m, schedule) && d < m.topo.Cores() && m.topo.GroupOf(d) > 7
    ensures CodeExec(m, schedule).pending[d] == 0 && CodeExec(m, schedule).rets[d] == 0
    decreases |schedule|
  {
    if schedule != [] {
      var before := schedule[..|schedule| - 1];
      StuckAboveGroup7(m, before, d);
      StepStuck(m, CodeExec(m, before), schedule[|schedule| - 1], d);
    }
  }
}
