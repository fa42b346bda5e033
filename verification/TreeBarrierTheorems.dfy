/** What the tree barrier guarantees in every reachable state. */
module TreeBarrierTheorems {
  import opened Arith
  import opened TreeBarrier
  import opened TreeBarrierInv
  import opened TreeBarrierProof

  // ---------------------------------------------------------------------------------------------
  // Safety
  // ---------------------------------------------------------------------------------------------

  /** No core returns from its r-th call before every core of its team has made its r-th call, and
      no core ever holds more than one pending wake-up. */
  lemma {:induction false} NoEarlyReturn(t: Tree, schedule: seq<nat>, c: nat, d: nat)
    requires t.Valid() && Schedule(t, schedule) && Mates(t, c, d)
    ensures var s := Exec(t, schedule); s.rets[c] <= s.calls[d] && s.pending[c] <= 1
  {
    var s := Exec(t, schedule);
    ExecInv(t, schedule);
    assert CoreInv(t, s, c) && CoreInv(t, s, d);
  }

  /** When a wake-up is about to be issued, every counter of the team is back at 0. */
  lemma {:induction false} CountersZeroAtWake(t: Tree, s: State, c: nat, l: nat, lo: nat)
    requires Inv(t, s) && c < t.cores && s.pc[c] == Waking(0) && InTeam(t, t.Base(c), l, lo)
    ensures s.mem[t.Cell(l, lo)] == 0
  {
    assert CoreInv(t, s, c);
    forall d: nat | lo <= d < t.Hi(l, lo)
      ensures !InRound(s, d)
    {
      SameBase(t, l, lo, d);
      assert Mates(t, c, d) && CoreInv(t, s, d);
    }
    forall m ensures At(t, s, m, l, lo) == 0 {
      CountNone(s, m, l, lo, t.Hi(l, lo));
    }
    assert NodeInv(t, s, l, lo);
  }

  /** A counter never exceeds the number of cores that share it, so 32 bits never overflow. */
  lemma {:induction false} CounterBound(t: Tree, s: State, l: nat, lo: nat)
    requires Inv(t, s) && t.IsNode(l, lo)
    ensures s.mem[t.Cell(l, lo)] <= t.sizes[l + 1] <= t.cores
  {
    assert NodeInv(t, s, l, lo);
    NodeArrivals(t, s, l, lo);
    if At(t, s, Arrived, l, lo) < t.radices[l] {
      StartMono(0, t.sizes[l], At(t, s, Arrived, l, lo), t.radices[l]);
    }
  }

  /** When a core is about to reset the root, every counter of the team has had exactly its
      `radices[l]` arrivals of this round. */
  lemma {:induction false} EveryNodeFull(t: Tree, s: State, c: nat, l: nat, lo: nat)
    requires Inv(t, s) && c < t.cores && s.pc[c] == Reset(t.Levels() - 1) && InTeam(t, t.Base(c), l, lo)
    ensures At(t, s, Arrived, l, lo) == t.radices[l]
  {
    RootFull(t, s, c);
    AllFull(t, s, t.Base(c), l);
  }

  // ---------------------------------------------------------------------------------------------
  // Progress
  // ---------------------------------------------------------------------------------------------

  /** Core c is inside the barrier and can take a step. */
  predicate Busy(s: State, c: nat) {
    c < |s.pc| && c < |s.pending| && !s.pc[c].Out? && (s.pc[c].Sleep? ==> s.pending[c] > 0)
  }

  /** If the whole team is in the open round, somebody can step: otherwise every level would be
      complete, up to the root, and the root's winner would not be asleep. */
  lemma {:induction false} OpenRoundProgress(t: Tree, s: State, c: nat)
    requires Inv(t, s) && c < t.cores
    requires forall d: nat {:trigger InRound(s, d)} :: Mates(t, c, d) ==> InRound(s, d)
    ensures exists d: nat :: Mates(t, c, d) && Busy(s, d)
  {
    if forall d: nat :: Mates(t, c, d) ==> !Busy(s, d) {
      var root := t.Levels() - 1;
      AllAsleepFull(t, s, c, root);
      NodeInTeam(t, root, c);
      var lo := t.Lo(root, c);
      assert NodeInv(t, s, root, lo);
      var d := CountWitness(s, Claimed, root, lo, t.Hi(root, lo));
      SameBase(t, root, lo, d);
      RootWinnerBusy(t, s, d);
    }
  }

  /** Whoever has claimed the root in an open round can step. */
  lemma {:induction false} RootWinnerBusy(t: Tree, s: State, d: nat)
    requires Inv(t, s) && d < t.cores && Height(s, Claimed, d) > t.Levels() - 1
    ensures InRound(s, d) ==> Busy(s, d)
  {
    assert CoreInv(t, s, d);
  }

  lemma {:induction false} AllAsleepFull(t: Tree, s: State, c: nat, l: nat)
    requires Inv(t, s) && c < t.cores && l < t.Levels()
    requires forall d: nat {:trigger InRound(s, d)} :: Mates(t, c, d) ==> InRound(s, d)
    requires forall d: nat {:trigger Busy(s, d)} :: Mates(t, c, d) ==> !Busy(s, d)
    ensures LevelFull(t, s, t.Base(c), l)
    decreases l
  {
    if l > 0 {
      AllAsleepFull(t, s, c, l - 1);
    }
    forall lo: nat {:trigger InTeam(t, t.Base(c), l, lo)} | InTeam(t, t.Base(c), l, lo)
      ensures At(t, s, Arrived, l, lo) == t.radices[l]
    {
      forall j: nat {:trigger BlockHit(s, Arrived, l, lo, t.sizes[l], j)} | j < t.radices[l]
        ensures BlockHit(s, Arrived, l, lo, t.sizes[l], j)
      {
        AsleepChild(t, s, c, l, lo, j);
      }
      NodeArrivals(t, s, l, lo);
      CountFull(s, Arrived, l, lo, t.sizes[l], t.radices[l]);
    }
  }

  /** With everybody asleep, the winner of a full child has arrived at its parent. */
  lemma {:induction false} AsleepChild(t: Tree, s: State, c: nat, l: nat, lo: nat, j: nat)
    requires Inv(t, s) && c < t.cores && InTeam(t, t.Base(c), l, lo) && j < t.radices[l]
    requires forall d: nat {:trigger InRound(s, d)} :: Mates(t, c, d) ==> InRound(s, d)
    requires forall d: nat {:trigger Busy(s, d)} :: Mates(t, c, d) ==> !Busy(s, d)
    requires l > 0 ==> LevelFull(t, s, t.Base(c), l - 1)
    ensures BlockHit(s, Arrived, l, lo, t.sizes[l], j)
  {
    var x := Start(lo, t.sizes[l], j);
    ChildRange(t, l, lo, j);
    SameBase(t, l, lo, x);
    var d := ChildClaimant(t, s, c, l, lo, j);
    assert Mates(t, c, d) && InRound(s, d) && !Busy(s, d) && CoreInv(t, s, d);
    CountHas(s, Arrived, l, x, x + t.sizes[l], d);
  }

  lemma {:induction false} ChildClaimant(t: Tree, s: State, c: nat, l: nat, lo: nat, j: nat) returns (d: nat)
    requires Inv(t, s) && c < t.cores && InTeam(t, t.Base(c), l, lo) && j < t.radices[l]
    requires l > 0 ==> LevelFull(t, s, t.Base(c), l - 1)
    ensures var x := Start(lo, t.sizes[l], j); x <= d < x + t.sizes[l] <= t.cores
    ensures Mates(t, c, d) && (l > 0 ==> Height(s, Claimed, d) >= l)
  {
    var x := Start(lo, t.sizes[l], j);
    ChildRange(t, l, lo, j);
    SameBase(t, l, lo, x);
    d := x;
    if l > 0 {
      assert InTeam(t, t.Base(c), l - 1, x) && NodeInv(t, s, l - 1, x);
      d := CountWitness(s, Claimed, l - 1, x, t.Hi(l - 1, x));
      SameBase(t, l, lo, d);
    }
  }

  /** If every core of a team has made at least n calls and one has not returned n times, some core of
      the team can step: a round never gets stuck, also while fast cores are already in the next one. */
  lemma {:induction false} Progress(t: Tree, s: State, c: nat, n: nat)
    requires Inv(t, s) && c < t.cores && s.rets[c] < n
    requires forall d: nat :: Mates(t, c, d) ==> s.calls[d] >= n
    ensures exists d: nat :: Mates(t, c, d) && Busy(s, d)
  {
    assert CoreInv(t, s, c) && Mates(t, c, c);
    if InRound(s, c) {
      forall d: nat {:trigger InRound(s, d)} | Mates(t, c, d)
        ensures InRound(s, d)
      {
        assert CoreInv(t, s, d);
      }
      OpenRoundProgress(t, s, c);
    } else if s.pending[c] == 0 {
      var d: nat :| Mates(t, c, d) && s.pc[d].Waking?;
      assert Mates(t, c, d) && Busy(s, d);
    } else {
      assert Mates(t, c, c) && Busy(s, c);
    }
  }

  // ---------------------------------------------------------------------------------------------
  // Termination
  // ---------------------------------------------------------------------------------------------

  /** Bound on the steps of one core in one call. */
  function CallSteps(t: Tree): nat
    requires t.Shape()
  {
    2 * t.Levels() + t.Writes() + 2
  }

  /** Steps of the current call behind a core at pc. */
  function Offset(t: Tree, pc: Pc): nat
    requires t.Shape()
  {
    match pc
    case Out => 0
    case Arrive(l) => 2 * l + 1
    case Reset(l) => 2 * l + 2
    case Waking(k) => 2 * t.Levels() + 1 + k
    case Sleep(_) => CallSteps(t) - 1
  }

  /** Complete calls of core c. */
  function Complete(s: State, c: nat): nat
    requires c < |s.pc| && c < |s.calls|
  {
    if s.pc[c].Out? || s.calls[c] == 0 then s.calls[c] else s.calls[c] - 1
  }

  /** All the steps behind core c. */
  function Rank(t: Tree, s: State, c: nat): nat
    requires t.Shape() && Sized(t, s) && c < t.cores
  {
    Offset(t, s.pc[c]) + Start(0, CallSteps(t), Complete(s, c))
  }

  function TotalRank(t: Tree, s: State, n: nat): nat
    requires t.Shape() && Sized(t, s) && n <= t.cores
  {
    if n == 0 then 0 else TotalRank(t, s, n - 1) + Rank(t, s, n - 1)
  }

  /** Number of steps of a schedule that changed the state, a core being asleep the rest of the time. */
  function Moves(t: Tree, schedule: seq<nat>): nat
    requires t.Valid() && Schedule(t, schedule)
    decreases |schedule|
  {
    if schedule == [] then 0
    else
      var s := Exec(t, schedule[..|schedule| - 1]);
      Moves(t, schedule[..|schedule| - 1]) + (if Next(t, s, schedule[|schedule| - 1]) == s then 0 else 1)
  }

  lemma {:induction false} StepRank(t: Tree, s: State, c: nat)
    requires t.Valid() && Sized(t, s) && c < t.cores && CoreInv(t, s, c) && Next(t, s, c) != s
    ensures Sized(t, Next(t, s, c)) && Rank(t, Next(t, s, c), c) > Rank(t, s, c)
  {
    assert s.pc[c].Out? || s.calls[c] > 0;
  }

  lemma {:induction false} OtherRank(t: Tree, s: State, c: nat, d: nat)
    requires t.Valid() && Sized(t, s) && c < t.cores && d < t.cores && c != d
    ensures Sized(t, Next(t, s, c)) && Rank(t, Next(t, s, c), d) == Rank(t, s, d)
  {
  }

  lemma {:induction false} CalledOnce(t: Tree, s: State, c: nat)
    requires Inv(t, s) && c < t.cores
    ensures s.pc[c].Out? || s.calls[c] > 0
  {
    assert CoreInv(t, s, c);
  }

  lemma {:induction false} TotalRaise(t: Tree, s: State, s': State, c: nat, n: nat)
    requires t.Shape() && Sized(t, s) && Sized(t, s') && n <= t.cores && c < t.cores
    requires Rank(t, s', c) > Rank(t, s, c)
    requires forall d :: 0 <= d < t.cores && d != c ==> Rank(t, s', d) == Rank(t, s, d)
    ensures TotalRank(t, s', n) >= TotalRank(t, s, n) + (if c < n then 1 else 0)
  {
    if n > 0 {
      TotalRaise(t, s, s', c, n - 1);
    }
  }

  lemma {:induction false} MovesBounded(t: Tree, schedule: seq<nat>)
    requires t.Valid() && Schedule(t, schedule)
    ensures Moves(t, schedule) <= TotalRank(t, Exec(t, schedule), t.cores)
    decreases |schedule|
  {
    if schedule != [] {
      var before, c := schedule[..|schedule| - 1], schedule[|schedule| - 1];
      MovesBounded(t, before);
      ExecInv(t, before);
      var s := Exec(t, before);
      if Next(t, s, c) != s {
        assert CoreInv(t, s, c);
        StepRank(t, s, c);
        forall d | 0 <= d < t.cores && d != c ensures Rank(t, Next(t, s, c), d) == Rank(t, s, d) {
          OtherRank(t, s, c, d);
        }
        TotalRaise(t, s, Next(t, s, c), c, t.cores);
      }
    }
  }

  lemma {:induction false} TotalBound(t: Tree, s: State, r: nat, n: nat)
    requires Inv(t, s) && n <= t.cores
    requires forall c :: 0 <= c < t.cores ==> s.calls[c] <= r
    ensures TotalRank(t, s, n) <= Start(0, Start(0, CallSteps(t), r), n)
    decreases n
  {
    if n > 0 {
      TotalBound(t, s, r, n - 1);
      RankBound(t, s, n - 1, r);
    }
  }

  lemma {:induction false} RankBound(t: Tree, s: State, c: nat, r: nat)
    requires Inv(t, s) && c < t.cores && s.calls[c] <= r
    ensures Rank(t, s, c) <= Start(0, CallSteps(t), r)
  {
    var w, n := CallSteps(t), Complete(s, c);
    assert CoreInv(t, s, c);
    CalledOnce(t, s, c);
    if n < r {
      StartMono(0, w, n, r);
    }
  }

  /** A run in which no core makes more than r calls takes at most cores * r * CallSteps steps. */
  lemma {:induction false} Terminates(t: Tree, schedule: seq<nat>, r: nat)
    requires t.Valid() && Schedule(t, schedule)
    requires forall c :: 0 <= c < t.cores ==> Exec(t, schedule).calls[c] <= r
    ensures Moves(t, schedule) <= t.cores * (r * CallSteps(t))
  {
    ExecInv(t, schedule);
    MovesBounded(t, schedule);
    TotalBound(t, Exec(t, schedule), r, t.cores);
    StartIsProduct(0, CallSteps(t), r);
    StartIsProduct(0, r * CallSteps(t), t.cores);
  }

  // ---------------------------------------------------------------------------------------------
  // Refinement of the abstract barrier
  // ---------------------------------------------------------------------------------------------

  /** A barrier as its users see it: calls made, calls returned and rounds opened, per core. */
  datatype Barrier = Barrier(calls: seq<nat>, rets: seq<nat>, rounds: seq<nat>)

  ghost predicate Call(a: Barrier, b: Barrier, c: nat) {
    && c < |a.calls| == |a.rets|
    && a.calls[c] == a.rets[c]
    && b == a.(calls := a.calls[c := a.calls[c] + 1])
  }

  /** A round opens only when the whole team is in it. */
  ghost predicate Open(t: Tree, a: Barrier, b: Barrier, c: nat)
    requires t.Shape()
  {
    && c < t.cores == |a.calls| == |a.rounds|
    && (forall d: nat :: Mates(t, c, d) ==> a.calls[d] == a.rounds[d] + 1 && a.rounds[d] == a.rounds[c])
    && b == a.(rounds := ForTeam(t, a.rounds, t.Base(c), a.rounds[c] + 1))
  }

  ghost predicate Return(a: Barrier, b: Barrier, c: nat) {
    && c < |a.rets| == |a.rounds|
    && a.rets[c] < a.rounds[c]
    && b == a.(rets := a.rets[c := a.rets[c] + 1])
  }

  ghost function Abs(s: State): Barrier {
    Barrier(s.calls, s.rets, s.rounds)
  }

  ghost predicate Step(t: Tree, a: Barrier, b: Barrier, c: nat)
    requires t.Shape()
  {
    a == b || Call(a, b, c) || Open(t, a, b, c) || Return(a, b, c)
  }

  /** Every step of the tree is a call, an opening, a return, or invisible to the users. */
  lemma {:induction false} Refines(t: Tree, s: State, c: nat)
    requires Inv(t, s) && c < t.cores
    ensures Step(t, Abs(s), Abs(Next(t, s, c)), c)
  {
    assert CoreInv(t, s, c);
    if s.pc[c] == Reset(t.Levels() - 1) {
      RefinesOpen(t, s, c);
    }
  }

  lemma {:induction false} RefinesOpen(t: Tree, s: State, c: nat)
    requires Inv(t, s) && c < t.cores && s.pc[c] == Reset(t.Levels() - 1)
    ensures Open(t, Abs(s), Abs(Next(t, s, c)), c)
  {
    forall d: nat | Mates(t, c, d)
      ensures InRound(s, d) && s.rounds[d] == s.rounds[c]
    {
      TeamAsleep(t, s, c, d);
    }
  }
}
