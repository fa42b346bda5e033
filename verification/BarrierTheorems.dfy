/** The C barriers run the tree barrier step for step, so its guarantees are theirs. */
module BarrierTheorems {
  import opened Arith
  import opened WakeUp
  import opened BarrierPrograms
  import T = TreeBarrier
  import I = TreeBarrierInv
  import P = TreeBarrierProof
  import Th = TreeBarrierTheorems

  ghost predicate PcMatches(m: Machine, tree: T.Tree, pc: CodePc, tp: T.Pc)
    requires m.Valid()
  {
    match pc
    case Outside => tp.Out?
    case FetchAdd(loc) => tp.Arrive? && tp.level < tree.Levels() && loc == LocalsAt(m, tp.level)
    case Store0(loc) => tp.Reset? && tp.level < tree.Levels() && loc == LocalsAt(m, tp.level)
    case Wake(k) => tp == T.Waking(k)
    case Wfi => tp.Sleep?
  }

  /** The code state and the tree state agree. */
  ghost predicate Matches(m: Machine, tree: T.Tree, s: CodeState, t: T.State)
    requires m.Valid()
  {
    && CodeSized(m, s) && T.Sized(tree, t) && tree.cores == m.topo.Cores()
    && s.mem == t.mem && s.pending == t.pending && s.calls == t.calls && s.rets == t.rets
    && (forall c: nat {:trigger PcMatches(m, tree, s.pc[c], t.pc[c])} ::
          c < tree.cores ==> PcMatches(m, tree, s.pc[c], t.pc[c]))
  }

  /** Only the pc of the stepping core changes. */
  lemma {:induction false} MatchesFrom(m: Machine, tree: T.Tree, s: CodeState, t: T.State, s': CodeState, t': T.State, c: nat)
    requires m.Valid() && Matches(m, tree, s, t) && c < tree.cores
    requires CodeSized(m, s') && T.Sized(tree, t')
    requires s'.mem == t'.mem && s'.pending == t'.pending && s'.calls == t'.calls && s'.rets == t'.rets
    requires s'.pc == s.pc[c := s'.pc[c]] && t'.pc == t.pc[c := t'.pc[c]]
    requires PcMatches(m, tree, s'.pc[c], t'.pc[c])
    ensures Matches(m, tree, s', t')
  {
    forall d: nat | d < tree.cores
      ensures PcMatches(m, tree, s'.pc[d], t'.pc[d])
    {
      assert PcMatches(m, tree, s.pc[d], t.pc[d]);
    }
  }

  lemma {:induction false} MatchInit(m: Machine, tree: T.Tree)
    requires m.Valid() && Describes(m, tree)
    ensures Matches(m, tree, CodeInit(m), T.Init(tree))
  {
    var s, t := CodeInit(m), T.Init(tree);
    assert s.mem == t.mem && s.pending == t.pending && s.calls == t.calls && s.rets == t.rets;
  }

  /** The 32-bit addition of a counter never wraps. */
  lemma {:induction false} NoWrap(m: Machine, tree: T.Tree, t: T.State, c: nat)
    requires m.Valid() && Describes(m, tree) && I.Inv(tree, t) && c < tree.cores && t.pc[c].Arrive?
    requires t.pc[c].level < tree.Levels()
    ensures var a := tree.Cell(t.pc[c].level, tree.Lo(t.pc[c].level, c));
            a < |t.mem| && t.mem[a] + tree.sizes[t.pc[c].level] < 0x1_0000_0000
  {
    var l := t.pc[c].level;
    P.NextInv(tree, t, c);
    Th.CounterBound(tree, T.Next(tree, t, c), l, tree.Lo(l, c));
    Fits32(m.topo.logCores);
  }

  /** The fetch-and-add of the code, with its operands known. */
  lemma {:induction false} FetchCode(m: Machine, s: CodeState, c: nat, loc: Locals, index: nat, add: nat, full: nat)
    requires m.Valid() && CodeSized(m, s) && c < m.topo.Cores() && s.pc[c] == FetchAdd(loc) && loc.step > 0
    requires AccessOf(m, loc, c).index == index && AccessOf(m, loc, c).add == add && AccessOf(m, loc, c).last + add == full
    requires index < |s.mem| && s.mem[index] + add < 0x1_0000_0000
    ensures CodeNext(m, s, c) == s.(mem := s.mem[index := s.mem[index] + add],
                                    pc := s.pc[c := if s.mem[index] + add == full then Store0(loc) else Wfi])
  {
  }

  lemma {:induction false} MatchArrive(m: Machine, tree: T.Tree, s: CodeState, t: T.State, c: nat)
    requires m.Valid() && Describes(m, tree) && Matches(m, tree, s, t) && I.Inv(tree, t)
    requires c < tree.cores && s.pc[c].FetchAdd?
    ensures Matches(m, tree, CodeNext(m, s, c), T.Next(tree, t, c))
  {
    assert PcMatches(m, tree, s.pc[c], t.pc[c]);
    var l := t.pc[c].level;
    assert AccessOk(m, tree, l, c);
    NoWrap(m, tree, t, c);
    FetchCode(m, s, c, s.pc[c].loc, tree.Cell(l, tree.Lo(l, c)), tree.sizes[l], tree.sizes[l + 1]);
    MatchesFrom(m, tree, s, t, CodeNext(m, s, c), T.Next(tree, t, c), c);
  }

  lemma {:induction false} MatchReset(m: Machine, tree: T.Tree, s: CodeState, t: T.State, c: nat)
    requires m.Valid() && Describes(m, tree) && Matches(m, tree, s, t) && I.Inv(tree, t)
    requires c < tree.cores && s.pc[c].Store0?
    ensures Matches(m, tree, CodeNext(m, s, c), T.Next(tree, t, c))
  {
    assert PcMatches(m, tree, s.pc[c], t.pc[c]);
    assert AccessOk(m, tree, t.pc[c].level, c) && ClimbOk(m, tree, t.pc[c].level);
    MatchesFrom(m, tree, s, t, CodeNext(m, s, c), T.Next(tree, t, c), c);
  }

  lemma {:induction false} MatchWake(m: Machine, tree: T.Tree, s: CodeState, t: T.State, c: nat)
    requires m.Valid() && Describes(m, tree) && Matches(m, tree, s, t) && I.Inv(tree, t)
    requires c < tree.cores && s.pc[c].Wake? && Releases(m, c)
    ensures Matches(m, tree, CodeNext(m, s, c), T.Next(tree, t, c))
  {
    var s', t' := CodeNext(m, s, c), T.Next(tree, t, c);
    assert PcMatches(m, tree, s.pc[c], t.pc[c]) && I.CoreInv(tree, t, c);
    assert WriteOk(m, tree, c, s.pc[c].write, c);
    forall d: nat | d < tree.cores
      ensures s'.pending[d] == t'.pending[d]
    {
      assert WriteOk(m, tree, c, s.pc[c].write, d);
    }
    assert s'.pending == t'.pending;
    MatchesFrom(m, tree, s, t, s', t', c);
  }

  lemma {:induction false} MatchNext(m: Machine, tree: T.Tree, s: CodeState, t: T.State, c: nat)
    requires m.Valid() && Describes(m, tree) && Matches(m, tree, s, t) && I.Inv(tree, t)
    requires c < tree.cores && (s.pc[c].Wake? ==> Releases(m, c))
    ensures Matches(m, tree, CodeNext(m, s, c), T.Next(tree, t, c))
  {
    assert PcMatches(m, tree, s.pc[c], t.pc[c]);
    match s.pc[c]
    case FetchAdd(_) => MatchArrive(m, tree, s, t, c);
    case Store0(_) => MatchReset(m, tree, s, t, c);
    case Wake(_) => MatchWake(m, tree, s, t, c);
    case _ => MatchesFrom(m, tree, s, t, CodeNext(m, s, c), T.Next(tree, t, c), c);
  }

  /** No release so far has gone to registers that do not reach its team. Outside the tile branch of the
      partial barrier with a group above 7 this is every run. */
  ghost predicate Releasing(m: Machine, schedule: seq<nat>)
    requires m.Valid() && Schedule(m, schedule)
    decreases |schedule|
  {
    schedule == [] ||
      var before, c := schedule[..|schedule| - 1], schedule[|schedule| - 1];
      Releasing(m, before) && (CodeExec(m, before).pc[c].Wake? ==> Releases(m, c))
  }

  /** Every run is one, if every core can release its team. */
  lemma {:induction false} AllReleasing(m: Machine, schedule: seq<nat>)
    requires m.Valid() && Schedule(m, schedule) && forall c: nat {:trigger Releases(m, c)} :: c < m.topo.Cores() ==> Releases(m, c)
    ensures Releasing(m, schedule)
    decreases |schedule|
  {
    if schedule != [] {
      AllReleasing(m, schedule[..|schedule| - 1]);
      assert schedule[|schedule| - 1] < m.topo.Cores();
    }
  }

  /** Every run of the C code is, state by state, a run of the tree. */
  lemma {:induction false} RunsMatch(m: Machine, tree: T.Tree, schedule: seq<nat>)
    requires m.Valid() && Describes(m, tree) && Schedule(m, schedule) && Releasing(m, schedule)
    ensures T.Schedule(tree, schedule) && I.Inv(tree, T.Exec(tree, schedule))
    ensures Matches(m, tree, CodeExec(m, schedule), T.Exec(tree, schedule))
    decreases |schedule|
  {
    P.ExecInv(tree, schedule);
    if schedule == [] {
      MatchInit(m, tree);
    } else {
      var before, c := schedule[..|schedule| - 1], schedule[|schedule| - 1];
      RunsMatch(m, tree, before);
      MatchNext(m, tree, CodeExec(m, before), T.Exec(tree, before), c);
    }
  }

  /** Cores c and d synchronise with each other. */
  predicate SameTeam(m: Machine, c: nat, d: nat)
    requires m.Valid()
  {
    c < m.topo.Cores() && d < m.topo.Cores() && Floor(c, Pow2(TeamLog(m))) == Floor(d, Pow2(TeamLog(m)))
  }

  /** Safety of every barrier over every run and any number of rounds: no core returns from its
      r-th call before every core of its team has made its r-th call, and no core ever holds two
      pending wake-ups, so latching one is enough. */
  lemma {:induction false} BarrierSafe(m: Machine, schedule: seq<nat>, c: nat, d: nat)
    requires m.Valid() && Schedule(m, schedule) && Releasing(m, schedule) && SameTeam(m, c, d)
    ensures var s := CodeExec(m, schedule); s.rets[c] <= s.calls[d] && s.pending[c] <= 1
  {
    var tree := TheTree(m);
    RunsMatch(m, tree, schedule);
    Th.NoEarlyReturn(tree, schedule, c, d);
  }

  /** Exactly one core of a team wins the root and wakes the others. */
  lemma {:induction false} OneWaker(m: Machine, schedule: seq<nat>, c: nat, d: nat)
    requires m.Valid() && Schedule(m, schedule) && Releasing(m, schedule) && SameTeam(m, c, d)
    requires CodeExec(m, schedule).pc[c].Wake? && CodeExec(m, schedule).pc[d].Wake?
    ensures c == d
  {
    var tree := TheTree(m);
    RunsMatch(m, tree, schedule);
    var s, t := CodeExec(m, schedule), T.Exec(tree, schedule);
    assert PcMatches(m, tree, s.pc[c], t.pc[c]) && PcMatches(m, tree, s.pc[d], t.pc[d]);
    assert I.Mates(tree, c, d);
  }

  /** Each step of the C code is a step of the abstract barrier, which lets a round open only when
      its whole team has called and a call return only when its round is open. */
  lemma {:induction false} BarrierRefines(m: Machine, tree: T.Tree, schedule: seq<nat>, c: nat)
    requires m.Valid() && Describes(m, tree) && Schedule(m, schedule) && Releasing(m, schedule)
    requires c < m.topo.Cores() && (CodeExec(m, schedule).pc[c].Wake? ==> Releases(m, c))
    ensures T.Schedule(tree, schedule) && T.Schedule(tree, schedule + [c])
    ensures var a, b := Th.Abs(T.Exec(tree, schedule)), Th.Abs(T.Exec(tree, schedule + [c]));
            var s, s' := CodeExec(m, schedule), CodeExec(m, schedule + [c]);
            && a.calls == s.calls && a.rets == s.rets && b.calls == s'.calls && b.rets == s'.rets
            && Th.Step(tree, a, b, c)
  {
    RunsMatch(m, tree, schedule);
    RunsMatch(m, tree, schedule + [c]);
    assert (schedule + [c])[..|schedule + [c]| - 1] == schedule;
    Th.Refines(tree, T.Exec(tree, schedule), c);
  }

  /** Except for a smaller partial barrier, all cores of the machine are one team. */
  lemma {:induction false} WholeMachine(m: Machine, c: nat, d: nat)
    requires m.Valid() && c < m.topo.Cores() && d < m.topo.Cores()
    requires m.prog.Partial? ==> m.prog.logSize == m.topo.logCores
    ensures SameTeam(m, c, d)
  {
    OneBlock(c, m.topo.Cores());
    OneBlock(d, m.topo.Cores());
  }

  /** Every counter a core of the team ever accesses is 0 when the winner is about to issue the
      first wake-up. */
  lemma {:induction false} CountersZero(m: Machine, schedule: seq<nat>, c: nat, l: nat, d: nat)
    requires m.Valid() && Schedule(m, schedule) && Releasing(m, schedule) && SameTeam(m, c, d)
    requires CodeExec(m, schedule).pc[c] == Wake(0) && l < Levels(m)
    ensures LocalsAt(m, l).step > 0
    ensures var a := AccessOf(m, LocalsAt(m, l), d).index;
            0 <= a < |CodeExec(m, schedule).mem| && CodeExec(m, schedule).mem[a] == 0
  {
    var tree := TheTree(m);
    RunsMatch(m, tree, schedule);
    var t := T.Exec(tree, schedule);
    assert PcMatches(m, tree, CodeExec(m, schedule).pc[c], t.pc[c]);
    assert AccessOk(m, tree, l, d);
    P.NodeInTeam(tree, l, d);
    Th.CountersZeroAtWake(tree, t, c, l, tree.Lo(l, d));
  }

  /** Teams never touch each other's counters: words accessed by cores of different teams differ,
      whatever their levels. */
  lemma {:induction false} TeamsApart(m: Machine, c: nat, l: nat, d: nat, n: nat)
    requires m.Valid() && c < m.topo.Cores() && d < m.topo.Cores() && !SameTeam(m, c, d)
    requires l < Levels(m) && n < Levels(m)
    ensures LocalsAt(m, l).step > 0 && LocalsAt(m, n).step > 0
    ensures AccessOf(m, LocalsAt(m, l), c).index != AccessOf(m, LocalsAt(m, n), d).index
  {
    var tree := TheTree(m);
    assert AccessOk(m, tree, l, c) && AccessOk(m, tree, n, d);
    P.NodeInTeam(tree, l, c);
    P.NodeInTeam(tree, n, d);
    P.CellsDistinct(tree, l, tree.Lo(l, c), n, tree.Lo(n, d));
  }

  /** Cores share a counter exactly when they are at one level of one aligned block. The counter of the
      plain barrier is the word of `barrier`, all others lie in the 4 * NUM_CORES words of `log_barrier`. */
  lemma {:induction false} CountersShared(m: Machine, c: nat, l: nat, d: nat, n: nat)
    requires m.Valid() && c < m.topo.Cores() && d < m.topo.Cores() && l < Levels(m) && n < Levels(m)
    ensures LocalsAt(m, l).step > 0 && LocalsAt(m, n).step > 0
    ensures AccessOf(m, LocalsAt(m, l), c).index == AccessOf(m, LocalsAt(m, n), d).index <==>
              l == n && Floor(c, LocalsAt(m, l).step) == Floor(d, LocalsAt(m, l).step)
    ensures m.prog.Plain? ==> AccessOf(m, LocalsAt(m, l), c).index == 4 * m.topo.Cores()
    ensures !m.prog.Plain? ==> 0 <= AccessOf(m, LocalsAt(m, l), c).index < 4 * m.topo.Cores()
  {
    var tree := TheTree(m);
    StepIsSize(m, tree, l);
    assert AccessOk(m, tree, n, d);
    CellsShared(tree, c, l, d, n);
    if !m.prog.Plain? {
      IndexInArray(m, l, c);
    }
  }

  /** The tree barriers stay inside their array. */
  lemma {:induction false} IndexInArray(m: Machine, l: nat, c: nat)
    requires m.Valid() && c < m.topo.Cores() && l < Levels(m) && !m.prog.Plain?
    ensures LocalsAt(m, l).step > 0 && 0 <= AccessOf(m, LocalsAt(m, l), c).index < 4 * m.topo.Cores()
  {
    LocalsAtLevel(m, l);
    AccessAtLevel(m, l, LocalsAt(m, l), c);
    SlotFits(m, l);
    SizesAligned(m, l + 1, l + 1);
    BlockInside(Floor(c, Pow2(Exp(m, l + 1))), Pow2(Exp(m, l + 1)), m.topo.Cores());
  }

  lemma {:induction false} CellsShared(tree: T.Tree, c: nat, l: nat, d: nat, n: nat)
    requires tree.Valid() && c < tree.cores && d < tree.cores && l < tree.Levels() && n < tree.Levels()
    ensures tree.Cell(l, tree.Lo(l, c)) == tree.Cell(n, tree.Lo(n, d)) <==> l == n && tree.Lo(l, c) == tree.Lo(l, d)
    ensures tree.Cell(l, tree.Lo(l, c)) < tree.words
  {
    if l != n || tree.Lo(l, c) != tree.Lo(n, d) {
      P.CellsDistinct(tree, l, tree.Lo(l, c), n, tree.Lo(n, d));
    }
  }

  lemma {:induction false} StepIsSize(m: Machine, tree: T.Tree, l: nat)
    requires m.Valid() && Describes(m, tree) && l < tree.Levels()
    ensures LocalsAt(m, l).step == tree.sizes[l + 1]
    ensures forall c: nat {:trigger tree.Lo(l, c)} :: c < tree.cores ==>
              AccessOf(m, LocalsAt(m, l), c).index == tree.Cell(l, tree.Lo(l, c))
  {
    LocalsAtLevel(m, l);
    assert AccessOk(m, tree, l, 0);
    AccessAtLevel(m, l, LocalsAt(m, l), 0);
    forall c: nat {:trigger tree.Lo(l, c)} | c < tree.cores
      ensures AccessOf(m, LocalsAt(m, l), c).index == tree.Cell(l, tree.Lo(l, c))
    {
      assert AccessOk(m, tree, l, c);
    }
  }

  /** Core c is inside the barrier and can step. */
  predicate Awake(s: CodeState, c: nat) {
    c < |s.pc| && c < |s.pending| && !s.pc[c].Outside? && (s.pc[c].Wfi? ==> s.pending[c] > 0)
  }

  /** Progress: when a whole team has made its n-th call and somebody has not returned from it, some
      core of the team can step, whether or not others have gone on to later calls. */
  lemma {:induction false} BarrierProgress(m: Machine, schedule: seq<nat>, c: nat, n: nat)
    requires m.Valid() && Schedule(m, schedule) && Releasing(m, schedule) && c < m.topo.Cores()
    requires forall d: nat :: SameTeam(m, c, d) ==> CodeExec(m, schedule).calls[d] >= n
    requires CodeExec(m, schedule).rets[c] < n
    ensures exists d: nat :: SameTeam(m, c, d) && Awake(CodeExec(m, schedule), d)
  {
    var tree := TheTree(m);
    RunsMatch(m, tree, schedule);
    var s, t := CodeExec(m, schedule), T.Exec(tree, schedule);
    forall d: nat | I.Mates(tree, c, d) ensures t.calls[d] >= n {
      assert SameTeam(m, c, d);
    }
    Th.Progress(tree, t, c, n);
    var d: nat :| I.Mates(tree, c, d) && Th.Busy(t, d);
    assert PcMatches(m, tree, s.pc[d], t.pc[d]);
    assert SameTeam(m, c, d) && Awake(s, d);
  }

  /** Number of scheduled steps that changed the state. */
  function CodeMoves(m: Machine, schedule: seq<nat>): nat
    requires m.Valid() && Schedule(m, schedule)
    decreases |schedule|
  {
    if schedule == [] then 0
    else
      var s := CodeExec(m, schedule[..|schedule| - 1]);
      CodeMoves(m, schedule[..|schedule| - 1]) + (if CodeNext(m, s, schedule[|schedule| - 1]) == s then 0 else 1)
  }
}
