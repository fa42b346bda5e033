/** Exactly which machines, and which teams, the barriers are safe for. */
module BarrierExact {
  import opened Arith
  import opened WakeUp
  import opened BarrierPrograms
  import opened BarrierTheorems
  import opened BarrierLimits
  import opened BarrierTeams
  import opened BarrierEnds

  // ---------------------------------------------------------------------------------------------
  // A team with an undecoded release, and the cores of group 0 it wakes
  // ---------------------------------------------------------------------------------------------

  lemma {:induction false} FloorAdd(a: nat, b: nat, d: nat)
    requires d > 0 && Aligned(a, d)
    ensures Floor(a + b, d) == a + Floor(b, d)
  {
    DivModAdd(a, b, d);
    FloorMod(a + b, d);
    FloorMod(b, d);
  }

  /** Moving by whole blocks of n units keeps the unit inside its block. */
  lemma {:induction false} SameUnit(x: nat, y: nat, d: nat, n: nat)
    requires d > 0 && n > 0 && Start(0, d, n) > 0 && Aligned(Start(0, d, n), d) && Aligned(x, Start(0, d, n))
    ensures Mod(Div(x + y, d), n) == Mod(Div(y, d), n)
  {
    AlignedTrans(x, Start(0, d, n), d);
    DivModAdd(x, y, d);
    TilesAligned(x, d, n);
    DivModAdd(Div(x, d), Div(y, d), n);
  }

  /** Moving a core by whole groups keeps its tile inside the group. */
  lemma {:induction false} SameTileInGroup(logTile: nat, logGroup: nat, g: nat, y: nat)
    requires logTile <= logGroup
    ensures Mod(Div(Start(0, Pow2(logGroup), g) + y, Pow2(logTile)), Pow2(logGroup - logTile))
         == Mod(Div(y, Pow2(logTile)), Pow2(logGroup - logTile))
  {
    DivStart(Pow2(logGroup), g);
    Pow2Blocks(logTile, logGroup);
    SameUnit(Start(0, Pow2(logGroup), g), y, Pow2(logTile), Pow2(logGroup - logTile));
  }

  lemma {:induction false} GroupAfter(topo: Topology, g: nat, y: nat)
    ensures topo.GroupOf(Start(0, topo.PerGroup(), g) + y) == g + topo.GroupOf(y)
  {
    DivStart(topo.PerGroup(), g);
    DivModAdd(Start(0, topo.PerGroup(), g), y, topo.PerGroup());
  }

  /** The teams of two cores that are whole groups apart start at the same tile of their groups. */
  lemma {:induction false} SameFirstTile(logTile: nat, logSize: nat, logGroup: nat, g: nat, c: nat, init: nat)
    requires logTile <= logGroup && logSize <= logGroup && init == Floor(Start(0, Pow2(logGroup), g) + c, Pow2(logSize))
    ensures Mod(Div(init, Pow2(logTile)), Pow2(logGroup - logTile))
         == Mod(Div(Floor(c, Pow2(logSize)), Pow2(logTile)), Pow2(logGroup - logTile))
  {
    FloorAfter(logSize, logGroup, g, c);
    SameTileInGroup(logTile, logGroup, g, Floor(c, Pow2(logSize)));
  }

  lemma {:induction false} FloorAfter(a: nat, b: nat, g: nat, c: nat)
    requires a <= b
    ensures Floor(Start(0, Pow2(b), g) + c, Pow2(a)) == Start(0, Pow2(b), g) + Floor(c, Pow2(a))
  {
    DivStart(Pow2(b), g);
    Pow2Blocks(a, b);
    AlignedTrans(Start(0, Pow2(b), g), Pow2(b), Pow2(a));
    FloorAdd(Start(0, Pow2(b), g), c, Pow2(a));
  }

  /** The tile at which the team of a core starts, inside its group. */
  function FirstTile(topo: Topology, logSize: nat, x: nat): nat
    requires topo.Valid()
  {
    Mod(topo.TileOf(TeamInit(x, Pow2(logSize))), topo.TilesPerGroup())
  }

  /** The release of a core of an undecoded group wakes every core of group 0 whose team starts at the same tile. */
  lemma {:induction false} WakesGroup0(topo: Topology, logSize: nat, c: nat, x: nat)
    requires topo.Valid() && TileBranch(topo, logSize) && topo.logTile <= logSize && topo.GroupOf(x) > 7 && topo.GroupOf(c) == 0
    requires FirstTile(topo, logSize, x) == FirstTile(topo, logSize, c)
    ensures |PartialWrites(topo, logSize, x)| == 1 && Wakes(topo, PartialWrites(topo, logSize, x)[0], c)
  {
    OwnTiles(topo, logSize, c);
    TileWriteWakes(topo, logSize, x, c);
  }

  /** The tile of a core is among those of its team. */
  lemma {:induction false} OwnTiles(topo: Topology, logSize: nat, c: nat)
    requires topo.Valid() && TileBranch(topo, logSize) && topo.logTile <= logSize && topo.GroupOf(c) == 0
    ensures var first := FirstTile(topo, logSize, c);
            first <= Mod(topo.TileOf(c), topo.TilesPerGroup()) < first + Pow2(logSize - topo.logTile)
  {
    TileWriteExact(topo, logSize, c, c);
    TileWriteWakes(topo, logSize, c, c);
  }

  /** The core of group g at the offset of c. */
  lemma {:induction false} Counterpart(m: Machine, w: nat, c: nat) returns (u: nat)
    requires m.Valid() && w < m.topo.Cores() && c < m.topo.Cores() && !Releases(m, w) && m.topo.GroupOf(c) == 0
    ensures u < m.topo.Cores() && u == Start(0, m.topo.PerGroup(), m.topo.GroupOf(w)) + c
    ensures m.topo.GroupOf(u) == m.topo.GroupOf(w) && !Releases(m, u) && !SameTeam(m, u, c)
  {
    var g, pg := m.topo.GroupOf(w), m.topo.PerGroup();
    u := Start(0, pg, g) + c;
    FloorMod(w, pg);
    FloorMod(c, pg);
    Pow2Blocks(m.topo.logGroup, m.topo.logCores);
    BlockInside(Start(0, pg, g), pg, m.topo.Cores());
    GroupAfter(m.topo, g, c);
    if SameTeam(m, u, c) {
      OneGroup(m, u, c);
    }
  }

  // ---------------------------------------------------------------------------------------------
  // A run that takes such a team to its release
  // ---------------------------------------------------------------------------------------------

  /** Core d of a machine in which only the team of u runs: it has called once, and nobody has been woken. */
  ghost predicate QuietCore(m: Machine, u: nat, s: CodeState, d: nat)
    requires m.Valid() && CodeSized(m, s) && d < m.topo.Cores()
  {
    && s.pending[d] == 0 && s.rets[d] == 0 && (s.pc[d].Wake? ==> s.pc[d] == Wake(0))
    && (if SameTeam(m, u, d) then s.calls[d] == 1 else s.calls[d] == 0 && s.pc[d] == Outside)
  }

  ghost predicate Quiet(m: Machine, u: nat, s: CodeState)
    requires m.Valid() && CodeSized(m, s)
  {
    forall d: nat {:trigger QuietCore(m, u, s, d)} :: d < m.topo.Cores() ==> QuietCore(m, u, s, d)
  }

  /** The first k cores of the team have called, and the others have not. */
  ghost predicate CalledCore(m: Machine, u: nat, s: CodeState, d: nat, k: nat)
    requires m.Valid() && CodeSized(m, s) && d < m.topo.Cores()
  {
    && s.pending[d] == 0 && s.rets[d] == 0
    && (if SameTeam(m, u, d) && d < k then s.calls[d] == 1 && s.pc[d] == FetchAdd(Enter(m)) else s.calls[d] == 0 && s.pc[d] == Outside)
  }

  ghost predicate Called(m: Machine, u: nat, s: CodeState, k: nat)
    requires m.Valid() && CodeSized(m, s)
  {
    forall d: nat {:trigger CalledCore(m, u, s, d, k)} :: d < m.topo.Cores() ==> CalledCore(m, u, s, d, k)
  }

  lemma {:induction false} CallOne(m: Machine, u: nat, s: CodeState, k: nat)
    requires m.Valid() && CodeSized(m, s) && k < m.topo.Cores() && Called(m, u, s, k)
    ensures SameTeam(m, u, k) ==> Called(m, u, CodeNext(m, s, k), k + 1) && CodeNext(m, s, k).mem == s.mem && !s.pc[k].Wake?
    ensures !SameTeam(m, u, k) ==> Called(m, u, s, k + 1)
  {
    var n := k + 1;
    assert CalledCore(m, u, s, k, k);
    forall d: nat | d < m.topo.Cores()
      ensures SameTeam(m, u, k) ==> CalledCore(m, u, CodeNext(m, s, k), d, n)
      ensures !SameTeam(m, u, k) ==> CalledCore(m, u, s, d, n)
    {
      assert CalledCore(m, u, s, d, k);
    }
  }

  lemma {:induction false} CallTeam(m: Machine, u: nat, k: nat) returns (schedule: seq<nat>)
    requires m.Valid() && u < m.topo.Cores() && k <= m.topo.Cores()
    ensures Schedule(m, schedule) && Releasing(m, schedule)
    ensures Called(m, u, CodeExec(m, schedule), k) && CodeExec(m, schedule).mem == CodeInit(m).mem
    decreases k
  {
    if k == 0 {
      schedule := [];
      NobodyCalled(m, u);
    } else {
      schedule := CallTeam(m, u, k - 1);
      schedule := CallNext(m, u, k - 1, schedule);
    }
  }

  lemma {:induction false} NobodyCalled(m: Machine, u: nat)
    requires m.Valid()
    ensures Called(m, u, CodeInit(m), 0)
  {
    forall d: nat | d < m.topo.Cores() ensures CalledCore(m, u, CodeInit(m), d, 0) {}
  }

  lemma {:induction false} CallNext(m: Machine, u: nat, k: nat, schedule: seq<nat>) returns (r: seq<nat>)
    requires m.Valid() && u < m.topo.Cores() && k < m.topo.Cores() && Schedule(m, schedule) && Releasing(m, schedule)
    requires Called(m, u, CodeExec(m, schedule), k) && CodeExec(m, schedule).mem == CodeInit(m).mem
    ensures Schedule(m, r) && Releasing(m, r)
    ensures Called(m, u, CodeExec(m, r), k + 1) && CodeExec(m, r).mem == CodeInit(m).mem
  {
    CallOne(m, u, CodeExec(m, schedule), k);
    r := schedule;
    if SameTeam(m, u, k) {
      AppendExec(m, schedule, k);
      AppendReleasing(m, schedule, k);
      r := schedule + [k];
    }
  }

  lemma {:induction false} AppendReleasing(m: Machine, schedule: seq<nat>, c: nat)
    requires m.Valid() && Schedule(m, schedule) && Releasing(m, schedule) && c < m.topo.Cores() && !CodeExec(m, schedule).pc[c].Wake?
    ensures Schedule(m, schedule + [c]) && Releasing(m, schedule + [c])
  {
    assert (schedule + [c])[..|schedule|] == schedule;
  }

  lemma {:induction false} CalledIsQuiet(m: Machine, u: nat, s: CodeState)
    requires m.Valid() && CodeSized(m, s) && Called(m, u, s, m.topo.Cores())
    ensures Quiet(m, u, s)
  {
    forall d: nat | d < m.topo.Cores() ensures QuietCore(m, u, s, d) {
      assert CalledCore(m, u, s, d, m.topo.Cores());
    }
  }

  /** A climbing step keeps the machine quiet, and is one. */
  lemma {:induction false} QuietStep(m: Machine, u: nat, s: CodeState, d: nat)
    requires m.Valid() && CodeSized(m, s) && Quiet(m, u, s) && AllLocOk(m, s) && SameTeam(m, u, d) && Awake(s, d) && !s.pc[d].Wake?
    ensures s.pc[d].FetchAdd? || s.pc[d].Store0?
    ensures Quiet(m, u, CodeNext(m, s, d)) && CodeNext(m, s, d) != s
  {
    assert QuietCore(m, u, s, d);
    var l := LevelOf(m, s, d);
    MemStep(m, s, d, l);
    var s' := CodeNext(m, s, d);
    forall x: nat | x < m.topo.Cores() ensures QuietCore(m, u, s', x) {
      assert QuietCore(m, u, s, x);
    }
  }

  lemma {:induction false} QuietProgress(m: Machine, u: nat, schedule: seq<nat>) returns (d: nat)
    requires m.Valid() && u < m.topo.Cores() && Schedule(m, schedule) && Releasing(m, schedule) && Quiet(m, u, CodeExec(m, schedule))
    ensures SameTeam(m, u, d) && Awake(CodeExec(m, schedule), d)
    ensures CodeExec(m, schedule).pc[d].Wake? ==> CodeExec(m, schedule).pc[d] == Wake(0)
  {
    var s := CodeExec(m, schedule);
    forall d: nat | SameTeam(m, u, d) ensures s.calls[d] >= 1 {
      assert QuietCore(m, u, s, d);
    }
    assert QuietCore(m, u, s, u);
    BarrierProgress(m, schedule, u, 1);
    d :| SameTeam(m, u, d) && Awake(s, d);
    assert QuietCore(m, u, s, d);
  }

  /** So some core of the team gets to its release. */
  lemma {:induction false} ReachWake(m: Machine, u: nat, c: nat, schedule: seq<nat>) returns (r: seq<nat>, x: nat)
    requires m.Valid() && u < m.topo.Cores() && c < m.topo.Cores() && !SameTeam(m, u, c)
    requires Schedule(m, schedule) && Releasing(m, schedule) && Quiet(m, u, CodeExec(m, schedule))
    requires TeamAgrees(m, c, CodeExec(m, schedule), CodeInit(m))
    ensures Schedule(m, r) && Quiet(m, u, CodeExec(m, r)) && TeamAgrees(m, c, CodeExec(m, r), CodeInit(m))
    ensures SameTeam(m, u, x) && CodeExec(m, r).pc[x] == Wake(0)
    decreases m.topo.Cores() * (2 * Levels(m) + MaxWrites(m) + 2) - CodeMoves(m, schedule)
  {
    var s := CodeExec(m, schedule);
    RunLocOk(m, schedule);
    var d := QuietProgress(m, u, schedule);
    if s.pc[d].Wake? {
      return schedule, d;
    }
    QuietStep(m, u, s, d);
    NotTheSame(m, u, c, d);
    OtherMemStep(m, c, s, CodeInit(m), d);
    AppendExec(m, schedule, d);
    AppendReleasing(m, schedule, d);
    var more := schedule + [d];
    OneMoveMore(m, schedule, d);
    MovesOfOneCall(m, u, more);
    r, x := ReachWake(m, u, c, more);
  }

  lemma {:induction false} NotTheSame(m: Machine, u: nat, c: nat, d: nat)
    requires m.Valid() && u < m.topo.Cores() && c < m.topo.Cores() && !SameTeam(m, u, c) && SameTeam(m, u, d)
    ensures !SameTeam(m, c, d)
  {
  }

  lemma {:induction false} OneMoveMore(m: Machine, schedule: seq<nat>, d: nat)
    requires m.Valid() && Schedule(m, schedule) && d < m.topo.Cores() && CodeNext(m, CodeExec(m, schedule), d) != CodeExec(m, schedule)
    ensures Schedule(m, schedule + [d]) && CodeMoves(m, schedule + [d]) == CodeMoves(m, schedule) + 1
  {
    assert (schedule + [d])[..|schedule|] == schedule;
  }

  lemma {:induction false} MovesOfOneCall(m: Machine, u: nat, schedule: seq<nat>)
    requires m.Valid() && Schedule(m, schedule) && Quiet(m, u, CodeExec(m, schedule))
    ensures CodeMoves(m, schedule) <= m.topo.Cores() * (2 * Levels(m) + MaxWrites(m) + 2)
  {
    forall c | 0 <= c < m.topo.Cores() ensures CodeExec(m, schedule).calls[c] <= 1 {
      assert QuietCore(m, u, CodeExec(m, schedule), c);
    }
    BarrierTerminates(m, schedule, 1);
  }

  // ---------------------------------------------------------------------------------------------
  // The early return
  // ---------------------------------------------------------------------------------------------

  /** Core c has not called and has been woken; its first counter is 0, and its team mate d has not called. */
  ghost predicate WokenEarly(m: Machine, s: CodeState, c: nat, d: nat)
    requires m.Valid() && CodeSized(m, s) && c < m.topo.Cores() && d < m.topo.Cores()
  {
    && s.pc[c] == Outside && s.pending[c] == 1 && s.calls[d] == 0 && s.rets[c] == 0
    && 0 <= CounterOf(m, 0, c) < |s.mem| && s.mem[CounterOf(m, 0, c)] == 0
  }

  /** The first counter of a core of the partial barrier takes two arrivals. */
  lemma {:induction false} FirstAccess(m: Machine, c: nat)
    requires m.Valid() && m.prog.Partial? && c < m.topo.Cores()
    ensures Enter(m) == LocalsAt(m, 0) == Locals(true, 2, 0, 0) && 0 < Levels(m)
    ensures AccessOf(m, Enter(m), c).last == 1 && AccessOf(m, Enter(m), c).index == CounterOf(m, 0, c)
  {
    var tree := TheTree(m);
  }

  /** Three steps of such a core: it calls, arrives first, and returns at once. */
  lemma {:induction false} ReturnsEarly(m: Machine, s: CodeState, c: nat, d: nat)
    requires m.Valid() && m.prog.Partial? && CodeSized(m, s) && c < m.topo.Cores() && d < m.topo.Cores() && c != d
    requires WokenEarly(m, s, c, d)
    ensures var r := CodeNext(m, CodeNext(m, CodeNext(m, s, c), c), c);
            r.rets[c] == 1 && r.calls[d] == 0
  {
    FirstAccess(m, c);
    var a := CodeNext(m, s, c);
    assert a.pc[c] == FetchAdd(Enter(m)) && a.mem == s.mem && a.pending == s.pending && a.calls[d] == 0 && a.rets == s.rets;
    ArrivesFirst(m, a, c);
  }

  lemma {:induction false} ArrivesFirst(m: Machine, s: CodeState, c: nat)
    requires m.Valid() && m.prog.Partial? && CodeSized(m, s) && c < m.topo.Cores() && s.pc[c] == FetchAdd(Enter(m))
    requires 0 <= CounterOf(m, 0, c) < |s.mem| && s.mem[CounterOf(m, 0, c)] == 0
    ensures var r := CodeNext(m, s, c);
            r.pc[c] == Wfi && r.pending == s.pending && r.calls == s.calls && r.rets == s.rets
  {
    FirstAccess(m, c);
  }

  /** A team mate of c. */
  lemma {:induction false} Mate(m: Machine, c: nat) returns (d: nat)
    requires m.Valid() && m.prog.Partial? && c < m.topo.Cores()
    ensures SameTeam(m, c, d) && d != c
  {
    var size := Pow2(m.prog.logSize);
    Pow2Blocks(1, m.prog.logSize);
    assert Pow2(1) == 2;
    Pow2Blocks(m.prog.logSize, m.topo.logCores);
    TeamInside(c, size, m.topo.Cores());
    d := if c == Floor(c, size) then c + 1 else Floor(c, size);
    TeamIsFloor(c, d, size);
  }

  /** The release of core x on the quiet machine. */
  lemma {:induction false} ReleasedEarly(m: Machine, u: nat, c: nat, d: nat, s: CodeState, x: nat)
    requires m.Valid() && m.prog.Partial? && CodeSized(m, s) && u < m.topo.Cores() && SameTeam(m, c, d) && SameTeam(m, u, x) && !SameTeam(m, u, c)
    requires Quiet(m, u, s) && TeamAgrees(m, c, s, CodeInit(m)) && s.pc[x] == Wake(0)
    requires |ReleaseWrites(m, x)| == 1 && Wakes(m.topo, ReleaseWrites(m, x)[0], c)
    ensures WokenEarly(m, CodeNext(m, s, x), c, d)
  {
    assert CoreAgrees(s, CodeInit(m), c) && CoreAgrees(s, CodeInit(m), d) && CellAgrees(m, s, CodeInit(m), 0, c);
    FirstAccess(m, c);
    CountersShared(m, c, 0, c, 0);
  }

  /** For every core c of group 0 of a machine with an undecoded release there is a run in which c returns from its
      first call although a team mate has not called. */
  lemma {:induction false} EarlyReturn(m: Machine, w: nat, c: nat) returns (schedule: seq<nat>, d: nat)
    requires m.Valid() && w < m.topo.Cores() && c < m.topo.Cores() && !Releases(m, w) && m.topo.GroupOf(c) == 0
    ensures Schedule(m, schedule) && SameTeam(m, c, d)
    ensures CodeExec(m, schedule).rets[c] == 1 && CodeExec(m, schedule).calls[d] == 0
  {
    var u := Counterpart(m, w, c);
    d := Mate(m, c);
    schedule := CallTeam(m, u, m.topo.Cores());
    CalledIsQuiet(m, u, CodeExec(m, schedule));
    CalledLeaves(m, u, c, CodeExec(m, schedule));
    var x;
    schedule, x := ReachWake(m, u, c, schedule);
    StrayWake(m, w, u, c, x);
    var s := CodeExec(m, schedule);
    ReleasedEarly(m, u, c, d, s, x);
    ReturnsEarly(m, CodeNext(m, s, x), c, d);
    FourMore(m, schedule, x, c);
    schedule := schedule + [x] + [c] + [c] + [c];
  }

  lemma {:induction false} FourMore(m: Machine, schedule: seq<nat>, x: nat, c: nat)
    requires m.Valid() && Schedule(m, schedule) && x < m.topo.Cores() && c < m.topo.Cores()
    ensures var r, s := schedule + [x] + [c] + [c] + [c], CodeExec(m, schedule);
            Schedule(m, r) && CodeExec(m, r) == CodeNext(m, CodeNext(m, CodeNext(m, CodeNext(m, s, x), c), c), c)
  {
    AppendExec(m, schedule, x);
    AppendExec(m, schedule + [x], c);
    AppendExec(m, schedule + [x] + [c], c);
    AppendExec(m, schedule + [x] + [c] + [c], c);
  }

  lemma {:induction false} CalledLeaves(m: Machine, u: nat, c: nat, s: CodeState)
    requires m.Valid() && CodeSized(m, s) && Called(m, u, s, m.topo.Cores()) && s.mem == CodeInit(m).mem
    requires u < m.topo.Cores() && c < m.topo.Cores() && !SameTeam(m, u, c)
    ensures TeamAgrees(m, c, s, CodeInit(m))
  {
    forall d: nat | SameTeam(m, c, d) ensures CoreAgrees(s, CodeInit(m), d) {
      assert CalledCore(m, u, s, d, m.topo.Cores());
    }
  }

  /** The release of the counterpart team wakes c. */
  lemma {:induction false} StrayWake(m: Machine, w: nat, u: nat, c: nat, x: nat)
    requires m.Valid() && w < m.topo.Cores() && c < m.topo.Cores() && !Releases(m, w) && m.topo.GroupOf(c) == 0
    requires u == Start(0, m.topo.PerGroup(), m.topo.GroupOf(w)) + c && m.topo.GroupOf(u) == m.topo.GroupOf(w) && SameTeam(m, u, x)
    ensures |ReleaseWrites(m, x)| == 1 && Wakes(m.topo, ReleaseWrites(m, x)[0], c)
  {
    OneGroup(m, u, x);
    TileSizes(m.topo, m.prog.logSize);
    SameFirstTile(m.topo.logTile, m.prog.logSize, m.topo.logGroup, m.topo.GroupOf(w), c, TeamInit(x, Pow2(m.prog.logSize)));
    WakesGroup0(m.topo, m.prog.logSize, c, x);
  }

  // ---------------------------------------------------------------------------------------------
  // The exact conditions
  // ---------------------------------------------------------------------------------------------

  /** In this run core c has not returned more often than its team mate d has called. */
  ghost predicate SafeAt(m: Machine, schedule: seq<nat>, c: nat, d: nat)
    requires m.Valid()
  {
    Schedule(m, schedule) && SameTeam(m, c, d) ==> CodeExec(m, schedule).rets[c] <= CodeExec(m, schedule).calls[d]
  }

  ghost predicate Safe(m: Machine, c: nat)
    requires m.Valid()
  {
    forall schedule: seq<nat>, d: nat {:trigger SafeAt(m, schedule, c, d)} :: SafeAt(m, schedule, c, d)
  }

  /** A barrier is safe for a core in all runs if and only if every release is decoded or the core is not in group 0. */
  lemma {:induction false} TeamSafeIff(m: Machine, c: nat)
    requires m.Valid() && c < m.topo.Cores()
    ensures Safe(m, c) <==> OutOfReach(m, c)
  {
    if OutOfReach(m, c) {
      forall schedule: seq<nat>, d: nat ensures SafeAt(m, schedule, c, d) {
        if Schedule(m, schedule) && SameTeam(m, c, d) {
          TeamSafe(m, schedule, c, d);
        }
      }
    } else {
      var w: nat :| w < m.topo.Cores() && !Releases(m, w);
      var schedule, d := EarlyReturn(m, w, c);
      assert !SafeAt(m, schedule, c, d);
    }
  }

  /** It is safe for all cores in all runs if and only if every release is decoded. */
  lemma {:induction false} BarrierSafeIff(m: Machine)
    requires m.Valid()
    ensures (forall c: nat {:trigger Safe(m, c)} :: c < m.topo.Cores() ==> Safe(m, c)) <==> AllRelease(m)
  {
    forall c: nat | c < m.topo.Cores() ensures AllRelease(m) ==> Safe(m, c) {
      TeamSafeIff(m, c);
    }
    TeamSafeIff(m, 0);
    assert m.topo.GroupOf(0) == 0;
  }

  // ---------------------------------------------------------------------------------------------
  // Progress, exactly
  // ---------------------------------------------------------------------------------------------

  /** If the whole team has made its n-th call and c has not returned from it, some core of the team can step. */
  ghost predicate LiveAt(m: Machine, schedule: seq<nat>, c: nat, n: nat)
    requires m.Valid()
  {
    Schedule(m, schedule) && (forall d: nat :: SameTeam(m, c, d) ==> CodeExec(m, schedule).calls[d] >= n)
    && c < m.topo.Cores() && CodeExec(m, schedule).rets[c] < n
    ==> exists d: nat :: SameTeam(m, c, d) && Awake(CodeExec(m, schedule), d)
  }

  ghost predicate Live(m: Machine, c: nat)
    requires m.Valid()
  {
    forall schedule: seq<nat>, n: nat {:trigger LiveAt(m, schedule, c, n)} :: LiveAt(m, schedule, c, n)
  }

  lemma {:induction false} AwakeMoves(m: Machine, s: CodeState, d: nat)
    requires m.Valid() && CodeSized(m, s) && d < m.topo.Cores() && Sound(m, s, d) && Awake(s, d)
    ensures CodeNext(m, s, d) != s && CodeNext(m, s, d).calls == s.calls
  {
    if s.pc[d].FetchAdd? || s.pc[d].Store0? {
      MemRank(m, s, d);
    }
  }

  /** Nobody calls more than once, and the team of c has called. */
  ghost predicate OneCall(m: Machine, c: nat, s: CodeState)
    requires m.Valid() && CodeSized(m, s)
  {
    && (forall d: nat {:trigger s.calls[d]} :: d < m.topo.Cores() ==> s.calls[d] <= 1)
    && (forall d: nat {:trigger SameTeam(m, c, d)} :: SameTeam(m, c, d) ==> s.calls[d] == 1)
  }

  lemma {:induction false} OneStepMore(m: Machine, c: nat, schedule: seq<nat>, d: nat)
    requires m.Valid() && Schedule(m, schedule) && OneCall(m, c, CodeExec(m, schedule)) && d < m.topo.Cores() && Awake(CodeExec(m, schedule), d)
    ensures Schedule(m, schedule + [d]) && OneCall(m, c, CodeExec(m, schedule + [d]))
    ensures CodeMoves(m, schedule) < CodeMoves(m, schedule + [d]) <= m.topo.Cores() * (2 * Levels(m) + MaxWrites(m) + 2)
  {
    RunSound(m, schedule);
    assert Sound(m, CodeExec(m, schedule), d);
    AwakeMoves(m, CodeExec(m, schedule), d);
    AppendExec(m, schedule, d);
    OneMoveMore(m, schedule, d);
    MovesOfOne(m, c, schedule + [d]);
  }

  lemma {:induction false} MovesOfOne(m: Machine, c: nat, schedule: seq<nat>)
    requires m.Valid() && Schedule(m, schedule) && OneCall(m, c, CodeExec(m, schedule))
    ensures CodeMoves(m, schedule) <= m.topo.Cores() * (2 * Levels(m) + MaxWrites(m) + 2)
  {
    BarrierTerminates(m, schedule, 1);
  }

  /** A team runs until none of its cores can step. */
  lemma {:induction false} Exhaust(m: Machine, c: nat, schedule: seq<nat>) returns (r: seq<nat>)
    requires m.Valid() && c < m.topo.Cores() && Schedule(m, schedule) && OneCall(m, c, CodeExec(m, schedule))
    ensures Schedule(m, r) && OneCall(m, c, CodeExec(m, r))
    ensures !exists d: nat :: SameTeam(m, c, d) && Awake(CodeExec(m, r), d)
    decreases m.topo.Cores() * (2 * Levels(m) + MaxWrites(m) + 2) - CodeMoves(m, schedule)
  {
    var s := CodeExec(m, schedule);
    if d: nat :| SameTeam(m, c, d) && Awake(s, d) {
      OneStepMore(m, c, schedule, d);
      r := Exhaust(m, c, schedule + [d]);
    } else {
      r := schedule;
    }
  }

  /** A team that cannot release itself hangs: all its cores have called, none has returned, none can step. */
  lemma {:induction false} Hangs(m: Machine, c: nat) returns (schedule: seq<nat>)
    requires m.Valid() && c < m.topo.Cores() && !Releases(m, c)
    ensures Schedule(m, schedule) && OneCall(m, c, CodeExec(m, schedule)) && CodeExec(m, schedule).rets[c] == 0
    ensures !exists d: nat :: SameTeam(m, c, d) && Awake(CodeExec(m, schedule), d)
  {
    schedule := CallTeam(m, c, m.topo.Cores());
    var s := CodeExec(m, schedule);
    forall d: nat | d < m.topo.Cores() ensures s.calls[d] <= 1 && (SameTeam(m, c, d) ==> s.calls[d] == 1) {
      assert CalledCore(m, c, s, d, m.topo.Cores());
    }
    schedule := Exhaust(m, c, schedule);
    StuckAboveGroup7(m, schedule, c);
  }

  /** A team that no stray release reaches makes progress in all runs if and only if its own release is decoded. */
  lemma {:induction false} TeamLiveIff(m: Machine, c: nat)
    requires m.Valid() && c < m.topo.Cores() && OutOfReach(m, c)
    ensures Live(m, c) <==> Releases(m, c)
  {
    if Releases(m, c) {
      forall schedule: seq<nat>, n: nat ensures LiveAt(m, schedule, c, n) {
        if Schedule(m, schedule) && (forall d: nat :: SameTeam(m, c, d) ==> CodeExec(m, schedule).calls[d] >= n)
           && CodeExec(m, schedule).rets[c] < n {
          TeamProgress(m, schedule, c, n);
        }
      }
    } else {
      var schedule := Hangs(m, c);
      assert !LiveAt(m, schedule, c, 1);
    }
  }
}
