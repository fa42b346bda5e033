/** Every barrier call takes a bounded number of steps, in every run. */
module BarrierEnds {
  import opened Arith
  import opened WakeUp
  import opened BarrierPrograms
  import opened BarrierTheorems
  import opened BarrierTeams

  /** Locals of different levels differ. */
  lemma {:induction false} LevelsDiffer(m: Machine, l: nat, n: nat)
    requires m.Valid() && l < n < Levels(m)
    ensures LocalsAt(m, l) != LocalsAt(m, n)
  {
    LocalsAtLevel(m, l);
    LocalsAtLevel(m, n);
    ExpMono(m, l + 1, n + 1);
    Pow2Blocks(Exp(m, l + 1), Exp(m, n + 1));
  }

  /** The level of a core's locals. */
  ghost function LevelIndex(m: Machine, loc: Locals): (l: nat)
    requires m.Valid() && LocOk(m, loc)
    ensures l < Levels(m) && loc == LocalsAt(m, l)
  {
    var l: nat :| l < Levels(m) && loc == LocalsAt(m, l);
    l
  }

  lemma {:induction false} IndexOfLevel(m: Machine, l: nat)
    requires m.Valid() && l < Levels(m)
    ensures LocOk(m, LocalsAt(m, l)) && LevelIndex(m, LocalsAt(m, l)) == l
  {
    var n := LevelIndex(m, LocalsAt(m, l));
    if l < n {
      LevelsDiffer(m, l, n);
    } else if n < l {
      LevelsDiffer(m, n, l);
    }
  }

  /** Steps from one call to the next, at most. */
  function CallSteps(m: Machine): nat
    requires m.Valid()
  {
    2 * Levels(m) + MaxWrites(m) + 2
  }

  /** How far a core has come in its call. */
  ghost function Position(m: Machine, pc: CodePc): nat
    requires m.Valid() && PcOk(m, pc)
  {
    match pc
    case Outside => 0
    case FetchAdd(loc) => 1 + 2 * LevelIndex(m, loc)
    case Store0(loc) => 2 + 2 * LevelIndex(m, loc)
    case Wake(k) => 1 + 2 * Levels(m) + k
    case Wfi => CallSteps(m) - 1
  }

  /** Where a core is, and how its counts of calls and returns fit. */
  ghost predicate Sound(m: Machine, s: CodeState, c: nat)
    requires m.Valid() && CodeSized(m, s) && c < m.topo.Cores()
  {
    && PcOk(m, s.pc[c])
    && (s.pc[c].Wake? ==> s.pc[c].write < |ReleaseWrites(m, c)|)
    && s.calls[c] == s.rets[c] + (if s.pc[c].Outside? then 0 else 1)
  }

  lemma {:induction false} FewWrites(m: Machine, c: nat)
    requires m.Valid()
    ensures 1 <= |ReleaseWrites(m, c)| <= MaxWrites(m)
  {
    if m.prog.Partial? {
      Pow2Blocks(0, m.prog.logSize);
    }
  }

  ghost function Rank(m: Machine, s: CodeState, c: nat): nat
    requires m.Valid() && CodeSized(m, s) && c < m.topo.Cores() && PcOk(m, s.pc[c])
  {
    Start(0, CallSteps(m), s.rets[c]) + Position(m, s.pc[c])
  }

  /** A step of a climbing core takes it further. */
  lemma {:induction false} MemRank(m: Machine, s: CodeState, c: nat)
    requires m.Valid() && CodeSized(m, s) && c < m.topo.Cores() && Sound(m, s, c) && (s.pc[c].FetchAdd? || s.pc[c].Store0?)
    ensures Sound(m, CodeNext(m, s, c), c) && Position(m, CodeNext(m, s, c).pc[c]) > Position(m, s.pc[c])
    ensures CodeNext(m, s, c).rets == s.rets
  {
    var l := LevelIndex(m, s.pc[c].loc);
    var tree := TheTree(m);
    assert ClimbOk(m, tree, l) && tree.Levels() == Levels(m);
    MemStep(m, s, c, l);
    FewWrites(m, c);
    if l + 1 < Levels(m) {
      IndexOfLevel(m, l + 1);
    }
  }

  lemma {:induction false} StepRank(m: Machine, s: CodeState, c: nat)
    requires m.Valid() && CodeSized(m, s) && c < m.topo.Cores() && Sound(m, s, c)
    ensures Sound(m, CodeNext(m, s, c), c)
    ensures CodeNext(m, s, c) != s ==> Rank(m, CodeNext(m, s, c), c) > Rank(m, s, c)
  {
    FewWrites(m, c);
    if s.pc[c].FetchAdd? || s.pc[c].Store0? {
      MemRank(m, s, c);
    } else if s.pc[c].Outside? {
      EntersOk(m);
    }
  }

  lemma {:induction false} OtherRank(m: Machine, s: CodeState, c: nat, d: nat)
    requires m.Valid() && CodeSized(m, s) && c < m.topo.Cores() && d < m.topo.Cores() && c != d && Sound(m, s, d)
    ensures Sound(m, CodeNext(m, s, c), d) && Rank(m, CodeNext(m, s, c), d) == Rank(m, s, d)
  {
  }

  ghost predicate AllSound(m: Machine, s: CodeState)
    requires m.Valid() && CodeSized(m, s)
  {
    forall c: nat {:trigger Sound(m, s, c)} :: c < m.topo.Cores() ==> Sound(m, s, c)
  }

  lemma {:induction false} RunSound(m: Machine, schedule: seq<nat>)
    requires m.Valid() && Schedule(m, schedule)
    ensures AllSound(m, CodeExec(m, schedule))
    decreases |schedule|
  {
    if schedule != [] {
      var before, c := schedule[..|schedule| - 1], schedule[|schedule| - 1];
      RunSound(m, before);
      StepSound(m, CodeExec(m, before), c);
    }
  }

  lemma {:induction false} StepSound(m: Machine, s: CodeState, c: nat)
    requires m.Valid() && CodeSized(m, s) && AllSound(m, s) && c < m.topo.Cores()
    ensures AllSound(m, CodeNext(m, s, c))
  {
    forall d: nat | d < m.topo.Cores() ensures Sound(m, CodeNext(m, s, c), d) {
      assert Sound(m, s, d);
      if d == c {
        StepRank(m, s, c);
      } else {
        OtherRank(m, s, c, d);
      }
    }
  }

  /** Summed over the first n cores. */
  ghost function TotalRank(m: Machine, s: CodeState, n: nat): nat
    requires m.Valid() && CodeSized(m, s) && AllSound(m, s) && n <= m.topo.Cores()
  {
    if n == 0 then 0 else
      assert Sound(m, s, n - 1);
      TotalRank(m, s, n - 1) + Rank(m, s, n - 1)
  }

  lemma {:induction false} TotalRaise(m: Machine, s: CodeState, c: nat, n: nat)
    requires m.Valid() && CodeSized(m, s) && AllSound(m, s) && c < m.topo.Cores() && n <= m.topo.Cores()
    ensures AllSound(m, CodeNext(m, s, c))
    ensures TotalRank(m, CodeNext(m, s, c), n) >= TotalRank(m, s, n) + (if c < n && CodeNext(m, s, c) != s then 1 else 0)
    decreases n
  {
    StepSound(m, s, c);
    if n > 0 {
      TotalRaise(m, s, c, n - 1);
      assert Sound(m, s, n - 1);
      if n - 1 == c {
        StepRank(m, s, c);
      } else {
        OtherRank(m, s, c, n - 1);
      }
    }
  }

  lemma {:induction false} MovesBounded(m: Machine, schedule: seq<nat>)
    requires m.Valid() && Schedule(m, schedule)
    ensures AllSound(m, CodeExec(m, schedule)) && CodeMoves(m, schedule) <= TotalRank(m, CodeExec(m, schedule), m.topo.Cores())
    decreases |schedule|
  {
    RunSound(m, schedule);
    if schedule != [] {
      var before, c := schedule[..|schedule| - 1], schedule[|schedule| - 1];
      MovesBounded(m, before);
      TotalRaise(m, CodeExec(m, before), c, m.topo.Cores());
    }
  }

  lemma {:induction false} RankBound(m: Machine, s: CodeState, c: nat, r: nat)
    requires m.Valid() && CodeSized(m, s) && c < m.topo.Cores() && Sound(m, s, c) && s.calls[c] <= r
    ensures Rank(m, s, c) <= Start(0, CallSteps(m), r)
  {
    FewWrites(m, c);
    if s.rets[c] < r {
      StartMono(0, CallSteps(m), s.rets[c], r);
    }
  }

  lemma {:induction false} TotalBound(m: Machine, s: CodeState, r: nat, n: nat)
    requires m.Valid() && CodeSized(m, s) && AllSound(m, s) && n <= m.topo.Cores()
    requires forall c :: 0 <= c < m.topo.Cores() ==> s.calls[c] <= r
    ensures TotalRank(m, s, n) <= Start(0, Start(0, CallSteps(m), r), n)
    decreases n
  {
    if n > 0 {
      TotalBound(m, s, r, n - 1);
      assert Sound(m, s, n - 1);
      RankBound(m, s, n - 1, r);
    }
  }

  /** Termination: while no core makes more than r calls, a run takes a bounded number of steps. */
  lemma {:induction false} BarrierTerminates(m: Machine, schedule: seq<nat>, r: nat)
    requires m.Valid() && Schedule(m, schedule)
    requires forall c :: 0 <= c < m.topo.Cores() ==> CodeExec(m, schedule).calls[c] <= r
    ensures CodeMoves(m, schedule) <= m.topo.Cores() * (r * (2 * Levels(m) + MaxWrites(m) + 2))
  {
    MovesBounded(m, schedule);
    TotalBound(m, CodeExec(m, schedule), r, m.topo.Cores());
    StartIsProduct(0, CallSteps(m), r);
    StartIsProduct(0, r * CallSteps(m), m.topo.Cores());
  }
}
