/** The barriers team by team: a team only depends on its own cores and on the wake-ups that reach it. */
module BarrierTeams {
  import opened Arith
  import opened WakeUp
  import opened BarrierPrograms
  import opened BarrierTheorems
  import opened BarrierLimits
  import T = TreeBarrier
  import Th = TreeBarrierTheorems

  // ---------------------------------------------------------------------------------------------
  // Locals in every run
  // ---------------------------------------------------------------------------------------------

  /** The locals of a core are those of some level. */
  ghost predicate LocOk(m: Machine, loc: Locals)
    requires m.Valid()
  {
    exists l: nat :: l < Levels(m) && loc == LocalsAt(m, l)
  }

  ghost predicate PcOk(m: Machine, pc: CodePc)
    requires m.Valid()
  {
    match pc
    case FetchAdd(loc) => LocOk(m, loc)
    case Store0(loc) => LocOk(m, loc)
    case _ => true
  }

  ghost predicate AllLocOk(m: Machine, s: CodeState)
    requires m.Valid()
  {
    forall d: nat {:trigger PcOk(m, s.pc[d])} :: d < |s.pc| ==> PcOk(m, s.pc[d])
  }

  lemma {:induction false} EntersOk(m: Machine)
    requires m.Valid()
    ensures LocOk(m, Enter(m))
  {
    var tree := TheTree(m);
    assert LocalsAt(m, 0) == Enter(m) && 0 < Levels(m);
  }

  lemma {:induction false} ClimbsOk(m: Machine, loc: Locals)
    requires m.Valid() && LocOk(m, loc)
    ensures loc.step > 0
    ensures AfterReset(m, loc).Climb? ==> LocOk(m, AfterReset(m, loc).next)
  {
    var tree := TheTree(m);
    var l: nat :| l < Levels(m) && loc == LocalsAt(m, l);
    assert ClimbOk(m, tree, l);
  }

  lemma {:induction false} StepLocOk(m: Machine, s: CodeState, c: nat)
    requires m.Valid() && CodeSized(m, s) && AllLocOk(m, s) && c < m.topo.Cores()
    ensures AllLocOk(m, CodeNext(m, s, c))
  {
    var s' := CodeNext(m, s, c);
    assert PcOk(m, s.pc[c]);
    EntersOk(m);
    if s.pc[c].Store0? {
      ClimbsOk(m, s.pc[c].loc);
    }
    forall d: nat | d < |s'.pc| ensures PcOk(m, s'.pc[d]) {
      if d != c {
        assert PcOk(m, s.pc[d]);
      }
    }
  }

  lemma {:induction false} RunLocOk(m: Machine, schedule: seq<nat>)
    requires m.Valid() && Schedule(m, schedule)
    ensures AllLocOk(m, CodeExec(m, schedule))
    decreases |schedule|
  {
    if schedule != [] {
      var before := schedule[..|schedule| - 1];
      RunLocOk(m, before);
      StepLocOk(m, CodeExec(m, before), schedule[|schedule| - 1]);
    }
  }

  // ---------------------------------------------------------------------------------------------
  // What a team sees
  // ---------------------------------------------------------------------------------------------

  /** The counter core d uses at level l. */
  function CounterOf(m: Machine, l: nat, d: nat): int
    requires m.Valid()
  {
    var loc := LocalsAt(m, l);
    if loc.step > 0 then AccessOf(m, loc, d).index else -1
  }

  ghost predicate CoreAgrees(s: CodeState, t: CodeState, d: nat)
    requires d < |s.pc| == |s.pending| == |s.calls| == |s.rets| && d < |t.pc| == |t.pending| == |t.calls| == |t.rets|
  {
    s.pc[d] == t.pc[d] && s.pending[d] == t.pending[d] && s.calls[d] == t.calls[d] && s.rets[d] == t.rets[d]
  }

  ghost predicate CellAgrees(m: Machine, s: CodeState, t: CodeState, l: nat, d: nat)
    requires m.Valid() && |s.mem| == |t.mem|
  {
    0 <= CounterOf(m, l, d) < |s.mem| ==> s.mem[CounterOf(m, l, d)] == t.mem[CounterOf(m, l, d)]
  }

  /** The team of c is in the same state in s and t. */
  ghost predicate TeamAgrees(m: Machine, c: nat, s: CodeState, t: CodeState)
    requires m.Valid() && CodeSized(m, s) && CodeSized(m, t)
  {
    && (forall d: nat {:trigger CoreAgrees(s, t, d)} :: SameTeam(m, c, d) ==> CoreAgrees(s, t, d))
    && (forall l: nat, d: nat {:trigger CellAgrees(m, s, t, l, d)} :: SameTeam(m, c, d) && l < Levels(m) ==> CellAgrees(m, s, t, l, d))
  }

  /** Different teams have different counters. */
  lemma {:induction false} CountersApart(m: Machine, c: nat, l: nat, d: nat, n: nat)
    requires m.Valid() && c < m.topo.Cores() && d < m.topo.Cores() && !SameTeam(m, c, d) && l < Levels(m) && n < Levels(m)
    ensures CounterOf(m, l, c) != CounterOf(m, n, d)
  {
    TeamsApart(m, c, l, d, n);
  }

  // ---------------------------------------------------------------------------------------------
  // Steps
  // ---------------------------------------------------------------------------------------------

  /** One memory word, and the pc of the stepping core, at most change in a step that does not wake, call or return. */
  lemma {:induction false} MemStep(m: Machine, s: CodeState, c: nat, l: nat)
    requires m.Valid() && CodeSized(m, s) && c < m.topo.Cores() && l < Levels(m)
    requires s.pc[c] == FetchAdd(LocalsAt(m, l)) || s.pc[c] == Store0(LocalsAt(m, l))
    ensures 0 <= CounterOf(m, l, c) < |s.mem|
    ensures var a, s' := CounterOf(m, l, c), CodeNext(m, s, c);
            && s' == s.(mem := s.mem[a := s'.mem[a]], pc := s.pc[c := s'.pc[c]])
  {
    CountersShared(m, c, l, c, l);
  }

  /** The new word and pc are a function of the old word and pc. */
  lemma {:induction false} MemStepSame(m: Machine, s: CodeState, t: CodeState, c: nat, l: nat)
    requires m.Valid() && CodeSized(m, s) && CodeSized(m, t) && c < m.topo.Cores() && l < Levels(m)
    requires s.pc[c] == FetchAdd(LocalsAt(m, l)) || s.pc[c] == Store0(LocalsAt(m, l))
    requires t.pc[c] == s.pc[c] && 0 <= CounterOf(m, l, c) < |s.mem| && s.mem[CounterOf(m, l, c)] == t.mem[CounterOf(m, l, c)]
    ensures var a := CounterOf(m, l, c);
            CodeNext(m, s, c).mem[a] == CodeNext(m, t, c).mem[a] && CodeNext(m, s, c).pc[c] == CodeNext(m, t, c).pc[c]
  {
    CountersShared(m, c, l, c, l);
  }

  /** Is core c at a fetch-and-add or a store, and at which level? */
  lemma {:induction false} LevelOf(m: Machine, s: CodeState, c: nat) returns (l: nat)
    requires m.Valid() && CodeSized(m, s) && AllLocOk(m, s) && c < m.topo.Cores() && (s.pc[c].FetchAdd? || s.pc[c].Store0?)
    ensures l < Levels(m) && (s.pc[c] == FetchAdd(LocalsAt(m, l)) || s.pc[c] == Store0(LocalsAt(m, l)))
  {
    assert PcOk(m, s.pc[c]);
    l :| l < Levels(m) && s.pc[c].loc == LocalsAt(m, l);
  }

  lemma {:induction false} OwnMemStep(m: Machine, c: nat, s: CodeState, t: CodeState, x: nat)
    requires m.Valid() && CodeSized(m, s) && CodeSized(m, t) && TeamAgrees(m, c, s, t) && SameTeam(m, c, x) && AllLocOk(m, s)
    requires s.pc[x].FetchAdd? || s.pc[x].Store0?
    ensures TeamAgrees(m, c, CodeNext(m, s, x), CodeNext(m, t, x))
  {
    var s', t' := CodeNext(m, s, x), CodeNext(m, t, x);
    var l := LevelOf(m, s, x);
    assert CoreAgrees(s, t, x) && CellAgrees(m, s, t, l, x);
    MemStep(m, s, x, l);
    MemStep(m, t, x, l);
    MemStepSame(m, s, t, x, l);
    forall d: nat | SameTeam(m, c, d) ensures CoreAgrees(s', t', d) {
      assert CoreAgrees(s, t, d);
    }
    forall n: nat, d: nat | SameTeam(m, c, d) && n < Levels(m) ensures CellAgrees(m, s', t', n, d) {
      assert CellAgrees(m, s, t, n, d);
    }
  }

  lemma {:induction false} OwnStep(m: Machine, c: nat, s: CodeState, t: CodeState, x: nat)
    requires m.Valid() && CodeSized(m, s) && CodeSized(m, t) && TeamAgrees(m, c, s, t) && SameTeam(m, c, x) && AllLocOk(m, s)
    ensures TeamAgrees(m, c, CodeNext(m, s, x), CodeNext(m, t, x))
  {
    if s.pc[x].FetchAdd? || s.pc[x].Store0? {
      OwnMemStep(m, c, s, t, x);
    } else {
      var s', t' := CodeNext(m, s, x), CodeNext(m, t, x);
      assert CoreAgrees(s, t, x);
      assert s'.mem == s.mem && t'.mem == t.mem;
      forall d: nat | SameTeam(m, c, d) ensures CoreAgrees(s', t', d) {
        assert CoreAgrees(s, t, d);
      }
      forall n: nat, d: nat | SameTeam(m, c, d) && n < Levels(m) ensures CellAgrees(m, s', t', n, d) {
        assert CellAgrees(m, s, t, n, d);
      }
    }
  }

  /** No write of the release of core x wakes the team of c. */
  ghost predicate Passes(m: Machine, c: nat, x: nat)
    requires m.Valid()
  {
    forall k: nat, d: nat {:trigger Wakes(m.topo, ReleaseWrites(m, x)[k], d)} ::
      k < |ReleaseWrites(m, x)| && SameTeam(m, c, d) ==> !Wakes(m.topo, ReleaseWrites(m, x)[k], d)
  }

  lemma {:induction false} OtherMemStep(m: Machine, c: nat, s: CodeState, t: CodeState, x: nat)
    requires m.Valid() && CodeSized(m, s) && CodeSized(m, t) && TeamAgrees(m, c, s, t) && AllLocOk(m, s)
    requires c < m.topo.Cores() && x < m.topo.Cores() && !SameTeam(m, c, x) && (s.pc[x].FetchAdd? || s.pc[x].Store0?)
    ensures TeamAgrees(m, c, CodeNext(m, s, x), t)
  {
    var s' := CodeNext(m, s, x);
    var l := LevelOf(m, s, x);
    MemStep(m, s, x, l);
    forall d: nat | SameTeam(m, c, d) ensures CoreAgrees(s', t, d) {
      assert CoreAgrees(s, t, d);
    }
    forall n: nat, d: nat | SameTeam(m, c, d) && n < Levels(m) ensures CellAgrees(m, s', t, n, d) {
      assert CellAgrees(m, s, t, n, d);
      CountersApart(m, d, n, x, l);
    }
  }

  lemma {:induction false} OtherStep(m: Machine, c: nat, s: CodeState, t: CodeState, x: nat)
    requires m.Valid() && CodeSized(m, s) && CodeSized(m, t) && TeamAgrees(m, c, s, t) && AllLocOk(m, s)
    requires c < m.topo.Cores() && x < m.topo.Cores() && !SameTeam(m, c, x) && (s.pc[x].Wake? ==> Passes(m, c, x))
    ensures TeamAgrees(m, c, CodeNext(m, s, x), t)
  {
    if s.pc[x].FetchAdd? || s.pc[x].Store0? {
      OtherMemStep(m, c, s, t, x);
    } else {
      var s' := CodeNext(m, s, x);
      assert s'.mem == s.mem;
      forall d: nat | SameTeam(m, c, d) ensures CoreAgrees(s', t, d) {
        assert CoreAgrees(s, t, d);
      }
      forall n: nat, d: nat | SameTeam(m, c, d) && n < Levels(m) ensures CellAgrees(m, s', t, n, d) {
        assert CellAgrees(m, s, t, n, d);
      }
    }
  }

  // ---------------------------------------------------------------------------------------------
  // Projection of a run on a team
  // ---------------------------------------------------------------------------------------------

  /** The steps of the team of c. */
  function Project(m: Machine, c: nat, schedule: seq<nat>): seq<nat>
    requires m.Valid()
  {
    if schedule == [] then [] else
      var x := schedule[|schedule| - 1];
      Project(m, c, schedule[..|schedule| - 1]) + (if SameTeam(m, c, x) then [x] else [])
  }

  /** Whenever a core of another team has released, the release has passed the team of c. */
  ghost predicate Undisturbed(m: Machine, c: nat, schedule: seq<nat>)
    requires m.Valid() && Schedule(m, schedule)
    decreases |schedule|
  {
    schedule == [] ||
      var before, x := schedule[..|schedule| - 1], schedule[|schedule| - 1];
      && Undisturbed(m, c, before)
      && (!SameTeam(m, c, x) && CodeExec(m, before).pc[x].Wake? ==> Passes(m, c, x))
  }

  /** An undisturbed team goes through the states of the run of its own steps alone. */
  lemma {:induction false} Projected(m: Machine, c: nat, schedule: seq<nat>)
    requires m.Valid() && Schedule(m, schedule) && c < m.topo.Cores() && Undisturbed(m, c, schedule)
    ensures Schedule(m, Project(m, c, schedule))
    ensures TeamAgrees(m, c, CodeExec(m, schedule), CodeExec(m, Project(m, c, schedule)))
    decreases |schedule|
  {
    if schedule != [] {
      var before, x := schedule[..|schedule| - 1], schedule[|schedule| - 1];
      Projected(m, c, before);
      RunLocOk(m, before);
      var p := Project(m, c, before);
      if SameTeam(m, c, x) {
        assert Project(m, c, schedule) == p + [x];
        AppendExec(m, p, x);
        OwnStep(m, c, CodeExec(m, before), CodeExec(m, p), x);
      } else {
        assert Project(m, c, schedule) == p;
        OtherStep(m, c, CodeExec(m, before), CodeExec(m, p), x);
      }
    }
  }

  lemma {:induction false} AppendExec(m: Machine, schedule: seq<nat>, c: nat)
    requires m.Valid() && Schedule(m, schedule) && c < m.topo.Cores()
    ensures Schedule(m, schedule + [c]) && CodeExec(m, schedule + [c]) == CodeNext(m, CodeExec(m, schedule), c)
  {
    assert (schedule + [c])[..|schedule|] == schedule;
  }

  // ---------------------------------------------------------------------------------------------
  // Which teams a stray release reaches
  // ---------------------------------------------------------------------------------------------

  /** Every release of the machine reaches its own team and no other. */
  ghost predicate AllRelease(m: Machine) {
    forall d: nat {:trigger Releases(m, d)} :: d < m.topo.Cores() ==> Releases(m, d)
  }

  /** No release of another team ever wakes the team of c: the stray ones all go to group 0. */
  ghost predicate OutOfReach(m: Machine, c: nat)
    requires m.Valid()
  {
    AllRelease(m) || m.topo.GroupOf(c) != 0
  }

  /** In the tile branch a team lies in one group. */
  lemma {:induction false} OneGroup(m: Machine, c: nat, d: nat)
    requires m.Valid() && m.prog.Partial? && TileBranch(m.topo, m.prog.logSize) && SameTeam(m, c, d)
    ensures m.topo.GroupOf(c) == m.topo.GroupOf(d)
  {
    TileSizes(m.topo, m.prog.logSize);
    Pow2Blocks(m.prog.logSize, m.topo.logGroup);
    TeamInside(c, Pow2(m.prog.logSize), m.topo.PerGroup());
    TeamInside(d, Pow2(m.prog.logSize), m.topo.PerGroup());
  }

  lemma {:induction false} TeamIsInTeam(m: Machine, x: nat, d: nat)
    requires m.Valid() && m.prog.Partial? && x < m.topo.Cores() && d < m.topo.Cores()
    ensures InTeam(x, m.prog.logSize, d) <==> SameTeam(m, x, d)
  {
    TeamIsFloor(x, d, Pow2(m.prog.logSize));
  }

  /** A decoded release passes every other team. */
  lemma {:induction false} DecodedPasses(m: Machine, c: nat, x: nat)
    requires m.Valid() && c < m.topo.Cores() && x < m.topo.Cores() && !SameTeam(m, c, x) && Releases(m, x)
    ensures Passes(m, c, x)
  {
    if m.prog.Partial? {
      forall k: nat, d: nat {:trigger Wakes(m.topo, ReleaseWrites(m, x)[k], d)} | k < |ReleaseWrites(m, x)| && SameTeam(m, c, d)
        ensures !Wakes(m.topo, ReleaseWrites(m, x)[k], d)
      {
        PartialWakeExact(m.topo, m.prog.logSize, x, k, d);
        TeamIsInTeam(m, x, d);
      }
    } else {
      WholeMachine(m, c, x);
    }
  }

  /** An undecoded one passes every team outside group 0. */
  lemma {:induction false} StrayPasses(m: Machine, c: nat, x: nat)
    requires m.Valid() && c < m.topo.Cores() && x < m.topo.Cores() && !Releases(m, x) && m.topo.GroupOf(c) != 0
    ensures Passes(m, c, x)
  {
    forall k: nat, d: nat {:trigger Wakes(m.topo, ReleaseWrites(m, x)[k], d)} | k < |ReleaseWrites(m, x)| && SameTeam(m, c, d)
      ensures !Wakes(m.topo, ReleaseWrites(m, x)[k], d)
    {
      OneGroup(m, c, d);
      TileSizes(m.topo, m.prog.logSize);
      TileWriteWakes(m.topo, m.prog.logSize, x, d);
    }
  }

  lemma {:induction false} NeverDisturbed(m: Machine, c: nat, schedule: seq<nat>)
    requires m.Valid() && Schedule(m, schedule) && c < m.topo.Cores() && OutOfReach(m, c)
    ensures Undisturbed(m, c, schedule)
    decreases |schedule|
  {
    if schedule != [] {
      var x := schedule[|schedule| - 1];
      NeverDisturbed(m, c, schedule[..|schedule| - 1]);
      if !SameTeam(m, c, x) {
        if Releases(m, x) {
          DecodedPasses(m, c, x);
        } else {
          StrayPasses(m, c, x);
        }
      }
    }
  }

  /** The cores of a team release it or they do not. */
  lemma {:induction false} TeamReleases(m: Machine, c: nat, x: nat)
    requires m.Valid() && SameTeam(m, c, x)
    ensures Releases(m, c) <==> Releases(m, x)
  {
    if m.prog.Partial? && TileBranch(m.topo, m.prog.logSize) {
      OneGroup(m, c, x);
    }
  }

  lemma {:induction false} ProjectReleasing(m: Machine, c: nat, schedule: seq<nat>)
    requires m.Valid() && Schedule(m, schedule) && c < m.topo.Cores() && Releases(m, c)
    ensures Schedule(m, Project(m, c, schedule)) && Releasing(m, Project(m, c, schedule))
    decreases |schedule|
  {
    if schedule != [] {
      var before, x := schedule[..|schedule| - 1], schedule[|schedule| - 1];
      ProjectReleasing(m, c, before);
      var p := Project(m, c, before);
      if SameTeam(m, c, x) {
        TeamReleases(m, c, x);
        assert (p + [x])[..|p + [x]| - 1] == p;
        assert Project(m, c, schedule) == p + [x];
      } else {
        assert Project(m, c, schedule) == p;
      }
    }
  }

  // ---------------------------------------------------------------------------------------------
  // The theorems, team by team
  // ---------------------------------------------------------------------------------------------

  /** Safety of every team that no stray release reaches, in every run: whatever the other teams do. */
  lemma {:induction false} TeamSafe(m: Machine, schedule: seq<nat>, c: nat, d: nat)
    requires m.Valid() && Schedule(m, schedule) && SameTeam(m, c, d) && OutOfReach(m, c)
    ensures var s := CodeExec(m, schedule); s.rets[c] <= s.calls[d] && s.pending[c] <= 1
  {
    if Releases(m, c) {
      NeverDisturbed(m, c, schedule);
      Projected(m, c, schedule);
      ProjectReleasing(m, c, schedule);
      var p := Project(m, c, schedule);
      BarrierSafe(m, p, c, d);
      var s, t := CodeExec(m, schedule), CodeExec(m, p);
      assert CoreAgrees(s, t, c) && CoreAgrees(s, t, d);
    } else {
      StuckAboveGroup7(m, schedule, c);
    }
  }

  /** Progress of every such team that can release itself. */
  lemma {:induction false} TeamProgress(m: Machine, schedule: seq<nat>, c: nat, n: nat)
    requires m.Valid() && Schedule(m, schedule) && c < m.topo.Cores() && OutOfReach(m, c) && Releases(m, c)
    requires forall d: nat :: SameTeam(m, c, d) ==> CodeExec(m, schedule).calls[d] >= n
    requires CodeExec(m, schedule).rets[c] < n
    ensures exists d: nat :: SameTeam(m, c, d) && Awake(CodeExec(m, schedule), d)
  {
    NeverDisturbed(m, c, schedule);
    Projected(m, c, schedule);
    ProjectReleasing(m, c, schedule);
    var p := Project(m, c, schedule);
    var s, t := CodeExec(m, schedule), CodeExec(m, p);
    forall d: nat | SameTeam(m, c, d) ensures t.calls[d] >= n {
      assert CoreAgrees(s, t, d);
    }
    assert CoreAgrees(s, t, c);
    BarrierProgress(m, p, c, n);
    var d: nat :| SameTeam(m, c, d) && Awake(t, d);
    assert CoreAgrees(s, t, d) && Awake(s, d);
  }

  /** One waker per such team. */
  lemma {:induction false} TeamOneWaker(m: Machine, schedule: seq<nat>, c: nat, d: nat)
    requires m.Valid() && Schedule(m, schedule) && SameTeam(m, c, d) && OutOfReach(m, c) && Releases(m, c)
    requires CodeExec(m, schedule).pc[c].Wake? && CodeExec(m, schedule).pc[d].Wake?
    ensures c == d
  {
    NeverDisturbed(m, c, schedule);
    Projected(m, c, schedule);
    ProjectReleasing(m, c, schedule);
    var p := Project(m, c, schedule);
    var s, t := CodeExec(m, schedule), CodeExec(m, p);
    assert CoreAgrees(s, t, c) && CoreAgrees(s, t, d);
    OneWaker(m, p, c, d);
  }

  /** And all its counters are 0 when it is about to be woken. */
  lemma {:induction false} TeamCountersZero(m: Machine, schedule: seq<nat>, c: nat, l: nat, d: nat)
    requires m.Valid() && Schedule(m, schedule) && SameTeam(m, c, d) && OutOfReach(m, c) && Releases(m, c)
    requires CodeExec(m, schedule).pc[c] == Wake(0) && l < Levels(m)
    ensures 0 <= CounterOf(m, l, d) < |CodeExec(m, schedule).mem| && CodeExec(m, schedule).mem[CounterOf(m, l, d)] == 0
  {
    NeverDisturbed(m, c, schedule);
    Projected(m, c, schedule);
    ProjectReleasing(m, c, schedule);
    var p := Project(m, c, schedule);
    var s, t := CodeExec(m, schedule), CodeExec(m, p);
    assert CoreAgrees(s, t, c) && CellAgrees(m, s, t, l, d);
    CountersZero(m, p, c, l, d);
  }

  /** The calls and returns of the team of c are those of the abstract state. */
  ghost predicate Shows(m: Machine, c: nat, s: CodeState, calls: seq<nat>, rets: seq<nat>)
    requires m.Valid() && CodeSized(m, s)
  {
    |calls| == |rets| == m.topo.Cores() && forall d: nat {:trigger calls[d]} {:trigger rets[d]} ::
      SameTeam(m, c, d) ==> calls[d] == s.calls[d] && rets[d] == s.rets[d]
  }

  lemma {:induction false} AgreeShows(m: Machine, c: nat, s: CodeState, t: CodeState)
    requires m.Valid() && CodeSized(m, s) && CodeSized(m, t) && TeamAgrees(m, c, s, t)
    ensures Shows(m, c, s, t.calls, t.rets)
  {
    forall d: nat {:trigger t.calls[d]} {:trigger t.rets[d]} | SameTeam(m, c, d) ensures t.calls[d] == s.calls[d] && t.rets[d] == s.rets[d] {
      assert CoreAgrees(s, t, d);
    }
  }

  /** For such a team, each step of its cores is a step of the abstract barrier, and no step of others changes what
      it shows. */
  lemma {:induction false} TeamRefines(m: Machine, tree: T.Tree, schedule: seq<nat>, c: nat, x: nat)
    requires m.Valid() && Describes(m, tree) && Schedule(m, schedule) && c < m.topo.Cores() && x < m.topo.Cores()
    requires OutOfReach(m, c) && Releases(m, c)
    ensures var p, q := Project(m, c, schedule), Project(m, c, schedule + [x]);
            && T.Schedule(tree, p) && T.Schedule(tree, q) && Schedule(m, schedule + [x])
            && var a, b := Th.Abs(T.Exec(tree, p)), Th.Abs(T.Exec(tree, q));
            && Shows(m, c, CodeExec(m, schedule), a.calls, a.rets) && Shows(m, c, CodeExec(m, schedule + [x]), b.calls, b.rets)
            && (if SameTeam(m, c, x) then Th.Step(tree, a, b, x) else b == a)
  {
    var p := Project(m, c, schedule);
    AppendExec(m, schedule, x);
    assert (schedule + [x])[..|schedule|] == schedule;
    NeverDisturbed(m, c, schedule);
    NeverDisturbed(m, c, schedule + [x]);
    Projected(m, c, schedule);
    Projected(m, c, schedule + [x]);
    ProjectReleasing(m, c, schedule);
    AgreeShows(m, c, CodeExec(m, schedule), CodeExec(m, p));
    AgreeShows(m, c, CodeExec(m, schedule + [x]), CodeExec(m, Project(m, c, schedule + [x])));
    if SameTeam(m, c, x) {
      TeamReleases(m, c, x);
      BarrierRefines(m, tree, p, x);
      assert Project(m, c, schedule + [x]) == p + [x];
    } else {
      assert Project(m, c, schedule + [x]) == p;
      RunsMatch(m, tree, p);
    }
  }
}
