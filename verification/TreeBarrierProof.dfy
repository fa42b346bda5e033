/** Every action of every core keeps `TreeBarrierInv.Inv`. */
module TreeBarrierProof {
  import opened Arith
  import opened TreeBarrier
  import opened TreeBarrierInv

  /** Different nodes, of any level and any team, never share a counter. */
  lemma {:induction false} CellsDistinct(t: Tree, l: nat, lo: nat, m: nat, mo: nat)
    requires t.Valid() && t.IsNode(l, lo) && t.IsNode(m, mo) && (l != m || lo != mo)
    ensures t.Cell(l, lo) != t.Cell(m, mo)
  {
    if l < m {
      CellsDistinctBelow(t, l, lo, m, mo);
    } else if m < l {
      CellsDistinctBelow(t, m, mo, l, lo);
    }
  }

  lemma {:induction false} CellsDistinctBelow(t: Tree, l: nat, lo: nat, m: nat, mo: nat)
    requires t.Valid() && t.IsNode(l, lo) && t.IsNode(m, mo) && l < m
    ensures t.Cell(l, lo) != t.Cell(m, mo)
  {
    var d := t.sizes[l + 1];
    assert t.Apart(l, m) && Aligned(t.sizes[m + 1], d);
    AlignedTrans(mo, t.sizes[m + 1], d);
    AlignedTimes4(lo, d);
    AlignedTimes4(mo, d);
    AlignedAdd(4 * lo, t.slots[l] + 1, d);
    AlignedAdd(4 * mo, t.slots[m] + 1, d);
  }

  lemma {:induction false} AlignedTimes4(x: nat, d: nat)
    requires d > 0 && Aligned(x, d)
    ensures Aligned(4 * x, d)
  {
    AlignedAdd(x, x, d);
    AlignedAdd(2 * x, 2 * x, d);
  }

  lemma {:induction false} InitInv(t: Tree)
    requires t.Valid()
    ensures Inv(t, Init(t))
  {
    var s := Init(t);
    forall l: nat, lo: nat | t.IsNode(l, lo)
      ensures NodeInv(t, s, l, lo)
    {
      forall m ensures At(t, s, m, l, lo) == 0 {
        CountNone(s, m, l, lo, t.Hi(l, lo));
      }
    }
  }

  // ---------------------------------------------------------------------------------------------
  // What the invariant says about one node and its children
  // ---------------------------------------------------------------------------------------------

  lemma {:induction false} WonLeqClaimed(t: Tree, s: State, l: nat, lo: nat)
    requires t.Shape() && Sized(t, s) && t.IsNode(l, lo)
    ensures At(t, s, Won, l, lo) <= At(t, s, Claimed, l, lo)
  {
    CountImplies(s, Won, l, s, Claimed, l, lo, t.Hi(l, lo));
  }

  /** The j-th child block of a node is a range of cores inside it, and a node itself. */
  lemma {:induction false} ChildRange(t: Tree, l: nat, lo: nat, j: nat)
    requires t.Shape() && t.IsNode(l, lo) && j < t.radices[l]
    ensures var x := Start(lo, t.sizes[l], j);
            && lo <= x && x + t.sizes[l] <= t.Hi(l, lo) && x < t.cores
            && (l > 0 ==> t.IsNode(l - 1, x))
  {
    var d := t.sizes[l];
    StartMono(lo, d, j, t.radices[l]);
    StartShift(lo, d, t.radices[l]);
    assert Aligned(t.sizes[l + 1], d);
    AlignedTrans(lo, t.sizes[l + 1], d);
    AlignedStart(lo, d, j);
  }

  /** Every core of a node stands in one of its child blocks. */
  lemma {:induction false} ChildOf(t: Tree, l: nat, lo: nat, c: nat) returns (j: nat)
    requires t.Shape() && t.IsNode(l, lo) && lo <= c < t.Hi(l, lo)
    ensures j < t.radices[l]
    ensures var x := Start(lo, t.sizes[l], j); x <= c < x + t.sizes[l]
  {
    var d, r := t.sizes[l], t.radices[l];
    j := FloorIndex(lo, c, d);
    StartShift(lo, d, r);
    if j > r {
      StartMono(lo, d, r, j);
    }
  }

  /** At most one core of a child block is past that child: two cores with l resets are equal. */
  lemma {:induction false} ChildWinnerUnique(t: Tree, s: State, l: nat, lo: nat, j: nat, c: nat, d: nat)
    requires Inv(t, s) && t.IsNode(l, lo) && j < t.radices[l]
    requires var x := Start(lo, t.sizes[l], j); x <= c < x + t.sizes[l] && x <= d < x + t.sizes[l] && x + t.sizes[l] <= t.cores
    requires Height(s, Won, c) >= l && Height(s, Won, d) >= l
    ensures c == d
  {
    if l > 0 && c != d {
      ChildRange(t, l, lo, j);
      var x := Start(lo, t.sizes[l], j);
      WonLeqClaimed(t, s, l - 1, x);
      assert NodeInv(t, s, l - 1, x);
      CountTwo(s, Won, l - 1, x, t.Hi(l - 1, x), c, d);
    }
  }

  /** So at most one core of a child block arrives at its parent. */
  lemma {:induction false} ChildArrivals(t: Tree, s: State, l: nat, lo: nat, j: nat)
    requires Inv(t, s) && t.IsNode(l, lo) && j < t.radices[l]
    ensures var x := Start(lo, t.sizes[l], j);
            x + t.sizes[l] <= t.cores && Count(s, Arrived, l, x, x + t.sizes[l]) <= 1
  {
    var x := Start(lo, t.sizes[l], j);
    ChildRange(t, l, lo, j);
    if Count(s, Arrived, l, x, x + t.sizes[l]) > 1 {
      var c, d := TwoWitnesses(s, Arrived, l, x, x + t.sizes[l]);
      ChildWinnerUnique(t, s, l, lo, j, c, d);
    }
  }

  lemma {:induction false} TwoWitnesses(s: State, m: Mark, l: nat, lo: nat, hi: nat) returns (c: nat, d: nat)
    requires lo <= hi && In(s, hi) && Count(s, m, l, lo, hi) > 1
    ensures lo <= c < d < hi && Height(s, m, c) > l && Height(s, m, d) > l
    decreases hi - lo
  {
    if Height(s, m, hi - 1) > l {
      d := hi - 1;
      c := CountWitness(s, m, l, lo, hi - 1);
    } else {
      c, d := TwoWitnesses(s, m, l, lo, hi - 1);
    }
  }

  lemma {:induction false} NodeArrivals(t: Tree, s: State, l: nat, lo: nat)
    requires Inv(t, s) && t.IsNode(l, lo)
    ensures OneEach(s, Arrived, l, lo, t.sizes[l], t.radices[l])
    ensures At(t, s, Arrived, l, lo) <= t.radices[l]
    ensures t.Hi(l, lo) == Start(lo, t.sizes[l], t.radices[l])
  {
    forall j: nat | j < t.radices[l]
      ensures BlockOne(s, Arrived, l, lo, t.sizes[l], j)
    {
      ChildArrivals(t, s, l, lo, j);
    }
    StartShift(lo, t.sizes[l], t.radices[l]);
    assert t.Hi(l, lo) == Start(lo, t.sizes[l], t.radices[l]);
    CountBlocks(s, Arrived, l, lo, t.sizes[l], t.radices[l]);
  }

  /** In a full node every child has an arrived core. */
  lemma {:induction false} FullChild(t: Tree, s: State, l: nat, lo: nat, j: nat) returns (d: nat)
    requires Inv(t, s) && t.IsNode(l, lo) && j < t.radices[l] && At(t, s, Arrived, l, lo) == t.radices[l]
    ensures var x := Start(lo, t.sizes[l], j); x <= d < x + t.sizes[l] <= t.cores
    ensures Height(s, Arrived, d) > l
  {
    NodeArrivals(t, s, l, lo);
    CountBlocksAll(s, Arrived, l, lo, t.sizes[l], t.radices[l], j);
    d := CountWitness(s, Arrived, l, Start(lo, t.sizes[l], j), Start(lo, t.sizes[l], j) + t.sizes[l]);
  }

  /** A core still about to arrive at a counter proves that counter incomplete. */
  lemma {:induction false} ArrivingNotFull(t: Tree, s: State, l: nat, c: nat)
    requires Inv(t, s) && c < t.cores && s.pc[c] == Arrive(l)
    ensures l < t.Levels() && At(t, s, Arrived, l, t.Lo(l, c)) < t.radices[l]
  {
    assert CoreInv(t, s, c);
    var lo := t.Lo(l, c);
    NodeArrivals(t, s, l, lo);
    if At(t, s, Arrived, l, lo) == t.radices[l] {
      var j := ChildOf(t, l, lo, c);
      var d := FullChild(t, s, l, lo, j);
      ChildWinnerUnique(t, s, l, lo, j, c, d);
    }
  }

  // ---------------------------------------------------------------------------------------------
  // Completeness: a full root means a full tree
  // ---------------------------------------------------------------------------------------------

  ghost predicate InTeam(t: Tree, b: nat, l: nat, lo: nat)
    requires t.Shape()
  {
    t.IsNode(l, lo) && t.Base(lo) == b
  }

  /** All cores of a block are in one team. */
  lemma {:induction false} SameBase(t: Tree, l: nat, lo: nat, d: nat)
    requires t.Shape() && t.IsNode(l, lo) && lo <= d < t.Hi(l, lo)
    ensures t.Base(d) == t.Base(lo)
  {
    var b, sz := t.Base(lo), t.sizes[l + 1];
    assert Aligned(t.Team(), sz);
    AlignedTrans(b, t.Team(), sz);
    AlignedAdd(b, t.Team(), sz);
    BlockInside(lo, sz, b + t.Team());
    AlignedUnique(t.Base(d), b, t.Team(), d);
  }

  ghost predicate LevelFull(t: Tree, s: State, b: nat, l: nat)
    requires t.Shape() && Sized(t, s) && l < t.Levels()
  {
    forall lo {:trigger InTeam(t, b, l, lo)} :: InTeam(t, b, l, lo) ==> At(t, s, Arrived, l, lo) == t.radices[l]
  }

  /** If every counter of a level is full, every counter below is full and already reset. */
  lemma {:induction false} FullBelow(t: Tree, s: State, b: nat, l: nat, lo: nat)
    requires Inv(t, s) && l + 1 < t.Levels() && LevelFull(t, s, b, l + 1) && InTeam(t, b, l, lo)
    ensures At(t, s, Arrived, l, lo) == t.radices[l] && At(t, s, Won, l, lo) == 1
  {
    var p := t.Lo(l + 1, lo);
    SameBase(t, l + 1, p, lo);
    assert InTeam(t, b, l + 1, p);
    var j := ChildOf(t, l + 1, p, lo);
    ChildRange(t, l + 1, p, j);
    AlignedUnique(lo, Start(p, t.sizes[l + 1], j), t.sizes[l + 1], lo);
    var d := FullChild(t, s, l + 1, p, j);
    CountHas(s, Won, l, lo, t.Hi(l, lo), d);
    WonLeqClaimed(t, s, l, lo);
    assert NodeInv(t, s, l, lo);
  }

  lemma {:induction false} AllFull(t: Tree, s: State, b: nat, l: nat)
    requires Inv(t, s) && l < t.Levels() && LevelFull(t, s, b, t.Levels() - 1)
    ensures LevelFull(t, s, b, l)
    decreases t.Levels() - l
  {
    if l + 1 < t.Levels() {
      AllFull(t, s, b, l + 1);
      forall lo: nat {:trigger InTeam(t, b, l, lo)} | InTeam(t, b, l, lo)
        ensures At(t, s, Arrived, l, lo) == t.radices[l]
      {
        FullBelow(t, s, b, l, lo);
      }
    }
  }

  /** The team has a single root. */
  lemma {:induction false} RootOnly(t: Tree, c: nat, lo: nat)
    requires t.Shape() && c < t.cores && InTeam(t, t.Base(c), t.Levels() - 1, lo)
    ensures lo == t.Base(c) == t.Lo(t.Levels() - 1, c)
  {
    AlignedUnique(lo, t.Base(c), t.Team(), lo);
  }

  /** A core at `Reset(l)` found its node full, and is its only claimant. */
  lemma {:induction false} ResetUnique(t: Tree, s: State, l: nat, c: nat, d: nat)
    requires Inv(t, s) && c < t.cores && s.pc[c] == Reset(l)
    ensures l < t.Levels() && At(t, s, Arrived, l, t.Lo(l, c)) == t.radices[l]
    ensures t.Lo(l, c) <= d < t.Hi(l, t.Lo(l, c)) && Height(s, Claimed, d) > l ==> d == c
  {
    assert CoreInv(t, s, c);
    var lo := t.Lo(l, c);
    assert NodeInv(t, s, l, lo);
    CountHas(s, Claimed, l, lo, t.Hi(l, lo), c);
    if lo <= d < t.Hi(l, lo) && Height(s, Claimed, d) > l && d != c {
      CountTwo(s, Claimed, l, lo, t.Hi(l, lo), c, d);
    }
  }

  /** Nobody has reset the counter a core is about to reset. */
  lemma {:induction false} ResetNotWon(t: Tree, s: State, l: nat, c: nat)
    requires Inv(t, s) && c < t.cores && s.pc[c] == Reset(l)
    ensures l < t.Levels() && At(t, s, Won, l, t.Lo(l, c)) == 0
  {
    assert CoreInv(t, s, c);
    var lo := t.Lo(l, c);
    if At(t, s, Won, l, lo) > 0 {
      var d := CountWitness(s, Won, l, lo, t.Hi(l, lo));
      ResetUnique(t, s, l, c, d);
    }
  }

  lemma {:induction false} RootFull(t: Tree, s: State, c: nat)
    requires Inv(t, s) && c < t.cores && s.pc[c] == Reset(t.Levels() - 1)
    ensures LevelFull(t, s, t.Base(c), t.Levels() - 1)
  {
    var root := t.Levels() - 1;
    ResetUnique(t, s, root, c, c);
    forall lo: nat | InTeam(t, t.Base(c), root, lo)
      ensures At(t, s, Arrived, root, lo) == t.radices[root]
    {
      RootOnly(t, c, lo);
    }
  }

  /** When the root is about to be reset, every core of the team is in the open round, and every
      other one sleeps. */
  lemma {:induction false} TeamAsleep(t: Tree, s: State, c: nat, d: nat)
    requires Inv(t, s) && Mates(t, c, d) && s.pc[c] == Reset(t.Levels() - 1)
    ensures InRound(s, d) && (d != c ==> s.pc[d].Sleep?)
  {
    RootFull(t, s, c);
    TeamIn(t, s, c, d);
    assert CoreInv(t, s, d);
    if s.pc[d].Arrive? {
      TeamNotArriving(t, s, c, d);
    } else if s.pc[d].Reset? {
      TeamNotResetting(t, s, c, d);
    }
  }

  lemma {:induction false} NodeInTeam(t: Tree, l: nat, d: nat)
    requires t.Shape() && l < t.Levels() && d < t.cores
    ensures InTeam(t, t.Base(d), l, t.Lo(l, d))
  {
    SameBase(t, l, t.Lo(l, d), d);
  }

  lemma {:induction false} TeamIn(t: Tree, s: State, c: nat, d: nat)
    requires Inv(t, s) && Mates(t, c, d) && LevelFull(t, s, t.Base(c), t.Levels() - 1)
    ensures InRound(s, d)
  {
    AllFull(t, s, t.Base(c), 0);
    NodeInTeam(t, 0, d);
    var lo := t.Lo(0, d);
    var j := ChildOf(t, 0, lo, d);
    var e := FullChild(t, s, 0, lo, j);
  }

  lemma {:induction false} TeamNotArriving(t: Tree, s: State, c: nat, d: nat)
    requires Inv(t, s) && Mates(t, c, d) && LevelFull(t, s, t.Base(c), t.Levels() - 1)
    ensures !s.pc[d].Arrive?
  {
    if s.pc[d].Arrive? {
      var l := s.pc[d].level;
      ArrivingNotFull(t, s, l, d);
      AllFull(t, s, t.Base(c), l);
      NodeInTeam(t, l, d);
    }
  }

  lemma {:induction false} TeamNotResetting(t: Tree, s: State, c: nat, d: nat)
    requires Inv(t, s) && Mates(t, c, d) && s.pc[c] == Reset(t.Levels() - 1) && s.pc[d].Reset?
    ensures c == d
  {
    var l := s.pc[d].level;
    ResetNotWon(t, s, l, d);
    NodeInTeam(t, l, d);
    RootFull(t, s, c);
    if l + 1 < t.Levels() {
      AllFull(t, s, t.Base(c), l + 1);
      FullBelow(t, s, t.Base(c), l, t.Lo(l, d));
    } else {
      RootOnly(t, c, t.Lo(l, d));
      assert CoreInv(t, s, c);
      ResetUnique(t, s, l, d, c);
    }
  }

  // ---------------------------------------------------------------------------------------------
  // Preservation, one action at a time
  // ---------------------------------------------------------------------------------------------

  ghost predicate SameAbove(s: State, s': State, l: nat, c: nat)
    requires In(s, c + 1) && In(s', c + 1)
  {
    forall m :: Height(s, m, c) > l <==> Height(s', m, c) > l
  }

  /** Nodes whose counter and heights are untouched keep their invariant. */
  lemma {:induction false} NodeFrame(t: Tree, s: State, s': State, l: nat, lo: nat)
    requires t.Valid() && Sized(t, s) && Sized(t, s') && t.IsNode(l, lo) && NodeInv(t, s, l, lo)
    requires s'.mem[t.Cell(l, lo)] == s.mem[t.Cell(l, lo)]
    requires forall d :: lo <= d < t.Hi(l, lo) ==> SameAbove(s, s', l, d)
    ensures NodeInv(t, s', l, lo)
  {
    forall m ensures At(t, s', m, l, lo) == At(t, s, m, l, lo) {
      forall d | lo <= d < t.Hi(l, lo) ensures Height(s, m, d) > l <==> Height(s', m, d) > l {
        assert SameAbove(s, s', l, d);
      }
      CountSame(s, s', m, l, lo, t.Hi(l, lo));
    }
  }

  /** Steps that neither start nor end a release keep the team invariant. */
  lemma {:induction false} TeamFrame(t: Tree, s: State, s': State)
    requires t.Shape() && Sized(t, s) && Sized(t, s') && TeamInv(t, s)
    requires s'.writes == s.writes && s'.rounds == s.rounds
    requires forall d :: 0 <= d < t.cores ==> (s'.pc[d].Waking? <==> s.pc[d].Waking?)
    ensures TeamInv(t, s')
  {
    forall c: nat | c < t.cores && s'.writes[c] < t.Writes()
      ensures exists d: nat :: Mates(t, c, d) && s'.pc[d].Waking?
    {
      var d: nat :| Mates(t, c, d) && s.pc[d].Waking?;
      assert Mates(t, c, d) && s'.pc[d].Waking?;
    }
  }

  /** A step that only lets core c enter or leave keeps everything. */
  lemma {:induction false} QuietInv(t: Tree, s: State, s': State, c: nat)
    requires Inv(t, s) && Sized(t, s') && c < t.cores && CoreInv(t, s', c)
    requires s'.mem == s.mem && s'.writes == s.writes && s'.rounds == s.rounds
    requires !s.pc[c].Waking? && !s'.pc[c].Waking?
    requires forall m :: Height(s, m, c) == Height(s', m, c) == 0
    requires forall d :: 0 <= d < t.cores && d != c ==>
               s'.pc[d] == s.pc[d] && s'.pending[d] == s.pending[d] && s'.calls[d] == s.calls[d] && s'.rets[d] == s.rets[d]
    ensures Inv(t, s')
  {
    forall l: nat, lo: nat | t.IsNode(l, lo)
      ensures NodeInv(t, s', l, lo)
    {
      assert NodeInv(t, s, l, lo);
      NodeFrame(t, s, s', l, lo);
    }
    forall d | 0 <= d < t.cores
      ensures CoreInv(t, s', d)
    {
      assert CoreInv(t, s, d);
    }
    TeamFrame(t, s, s');
  }

  lemma {:induction false} CallInv(t: Tree, s: State, c: nat)
    requires Inv(t, s) && c < t.cores && s.pc[c].Out?
    ensures Inv(t, Next(t, s, c))
  {
    assert CoreInv(t, s, c);
    QuietInv(t, s, Next(t, s, c), c);
  }

  lemma {:induction false} ReturnInv(t: Tree, s: State, c: nat)
    requires Inv(t, s) && c < t.cores && s.pc[c].Sleep?
    ensures Inv(t, Next(t, s, c))
  {
    assert CoreInv(t, s, c);
    if s.pending[c] != 0 {
      QuietInv(t, s, Next(t, s, c), c);
    }
  }

  /** The fetched value counts the earlier arrivals and so tells the last arrival from the others. */
  lemma {:induction false} FetchedValue(t: Tree, s: State, l: nat, c: nat)
    requires Inv(t, s) && c < t.cores && s.pc[c] == Arrive(l)
    ensures l < t.Levels()
    ensures var lo, n := t.Lo(l, c), At(t, s, Arrived, l, t.Lo(l, c));
            var v := s.mem[t.Cell(l, lo)];
            && v == Start(0, t.sizes[l], n) && n < t.radices[l]
            && At(t, s, Claimed, l, lo) == At(t, s, Won, l, lo) == 0
            && (v + t.sizes[l] == t.sizes[l + 1] <==> n + 1 == t.radices[l])
  {
    ArrivingNotFull(t, s, l, c);
    var lo := t.Lo(l, c);
    WonLeqClaimed(t, s, l, lo);
    assert NodeInv(t, s, l, lo);
    var n, r, z := At(t, s, Arrived, l, lo), t.radices[l], t.sizes[l];
    if n + 1 < r {
      StartMono(0, z, n + 1, r);
    }
  }

  /** Only the nodes of the stepping core can change. */
  lemma {:induction false} OtherNode(t: Tree, s: State, s': State, l: nat, c: nat, k: nat, lo: nat)
    requires Inv(t, s) && Sized(t, s') && c < t.cores && l < t.Levels() && t.IsNode(k, lo)
    requires k != l || lo != t.Lo(l, c)
    requires s'.mem == s.mem[t.Cell(l, t.Lo(l, c)) := s'.mem[t.Cell(l, t.Lo(l, c))]]
    requires k != l ==> SameAbove(s, s', k, c)
    requires forall d :: lo <= d < t.Hi(k, lo) && d != c ==> SameAbove(s, s', k, d)
    ensures NodeInv(t, s', k, lo)
  {
    CellsDistinct(t, l, t.Lo(l, c), k, lo);
    if k == l && lo <= c < t.Hi(k, lo) {
      AlignedUnique(lo, t.Lo(l, c), t.sizes[l + 1], c);
    }
    assert NodeInv(t, s, k, lo);
    NodeFrame(t, s, s', k, lo);
  }

  lemma {:induction false} ArriveNode(t: Tree, s: State, l: nat, c: nat)
    requires Inv(t, s) && c < t.cores && s.pc[c] == Arrive(l) && l < t.Levels() && InRound(s, c)
    ensures NodeInv(t, DoArrive(t, s, c, l), l, t.Lo(l, c))
  {
    var s', lo, hi := DoArrive(t, s, c, l), t.Lo(l, c), t.Hi(l, t.Lo(l, c));
    FetchedValue(t, s, l, c);
    CountRaise(s, s', Arrived, l, lo, hi, c);
    CountSame(s, s', Won, l, lo, hi);
    if s'.pc[c].Reset? {
      CountRaise(s, s', Claimed, l, lo, hi, c);
    } else {
      CountSame(s, s', Claimed, l, lo, hi);
    }
  }

  lemma {:induction false} ArriveInv(t: Tree, s: State, c: nat)
    requires Inv(t, s) && c < t.cores && s.pc[c].Arrive?
    ensures Inv(t, Next(t, s, c))
  {
    var s', l := Next(t, s, c), s.pc[c].level;
    assert CoreInv(t, s, c);
    forall k: nat, lo: nat | t.IsNode(k, lo)
      ensures NodeInv(t, s', k, lo)
    {
      if k == l && lo == t.Lo(l, c) {
        ArriveNode(t, s, l, c);
      } else {
        OtherNode(t, s, s', l, c, k, lo);
      }
    }
    forall d | 0 <= d < t.cores
      ensures CoreInv(t, s', d)
    {
      assert CoreInv(t, s, d);
    }
    TeamFrame(t, s, s');
  }

  lemma {:induction false} ResetNode(t: Tree, s: State, l: nat, c: nat)
    requires Inv(t, s) && c < t.cores && s.pc[c] == Reset(l) && l + 1 < t.Levels() && InRound(s, c)
    ensures NodeInv(t, DoReset(t, s, c, l), l, t.Lo(l, c))
  {
    var s', lo, hi := DoReset(t, s, c, l), t.Lo(l, c), t.Hi(l, t.Lo(l, c));
    ResetNotWon(t, s, l, c);
    assert NodeInv(t, s, l, lo);
    CountSame(s, s', Arrived, l, lo, hi);
    CountSame(s, s', Claimed, l, lo, hi);
    CountRaise(s, s', Won, l, lo, hi, c);
  }

  lemma {:induction false} ResetInv(t: Tree, s: State, c: nat)
    requires Inv(t, s) && c < t.cores && s.pc[c].Reset? && s.pc[c].level + 1 < t.Levels()
    ensures Inv(t, Next(t, s, c))
  {
    var s', l := Next(t, s, c), s.pc[c].level;
    assert CoreInv(t, s, c);
    forall k: nat, lo: nat | t.IsNode(k, lo)
      ensures NodeInv(t, s', k, lo)
    {
      if k == l && lo == t.Lo(l, c) {
        ResetNode(t, s, l, c);
      } else {
        OtherNode(t, s, s', l, c, k, lo);
      }
    }
    forall d | 0 <= d < t.cores
      ensures CoreInv(t, s', d)
    {
      assert CoreInv(t, s, d);
    }
    TeamFrame(t, s, s');
  }

  /** Once the root is reset, every counter of the team is 0. */
  lemma {:induction false} TeamCountersZero(t: Tree, s: State, c: nat, l: nat, lo: nat)
    requires Inv(t, s) && c < t.cores && s.pc[c] == Reset(t.Levels() - 1)
    requires InTeam(t, t.Base(c), l, lo)
    ensures Next(t, s, c).mem[t.Cell(l, lo)] == 0
  {
    var root := t.Levels() - 1;
    if l < root {
      RootFull(t, s, c);
      AllFull(t, s, t.Base(c), l + 1);
      FullBelow(t, s, t.Base(c), l, lo);
      assert NodeInv(t, s, l, lo);
      CellsDistinct(t, l, lo, root, t.Lo(root, c));
    } else {
      RootOnly(t, c, lo);
    }
  }

  lemma {:induction false} RootNodes(t: Tree, s: State, c: nat, l: nat, lo: nat)
    requires Inv(t, s) && c < t.cores && s.pc[c] == Reset(t.Levels() - 1) && t.IsNode(l, lo)
    ensures NodeInv(t, Next(t, s, c), l, lo)
  {
    var s', b, root := Next(t, s, c), t.Base(c), t.Levels() - 1;
    if t.Base(lo) == b {
      TeamCountersZero(t, s, c, l, lo);
      forall d: nat | lo <= d < t.Hi(l, lo)
        ensures !InRound(s', d)
      {
        SameBase(t, l, lo, d);
        TeamAsleep(t, s, c, d);
        assert Mates(t, c, d);
      }
      forall m ensures At(t, s', m, l, lo) == 0 {
        CountNone(s', m, l, lo, t.Hi(l, lo));
      }
    } else {
      NodeInTeam(t, root, c);
      CellsDistinct(t, l, lo, root, t.Lo(root, c));
      assert NodeInv(t, s, l, lo);
      forall d: nat | lo <= d < t.Hi(l, lo)
        ensures SameAbove(s, s', l, d)
      {
        SameBase(t, l, lo, d);
      }
      NodeFrame(t, s, s', l, lo);
    }
  }

  lemma {:induction false} RootInv(t: Tree, s: State, c: nat)
    requires Inv(t, s) && c < t.cores && s.pc[c] == Reset(t.Levels() - 1)
    ensures Inv(t, Next(t, s, c))
  {
    var s' := Next(t, s, c);
    forall l: nat, lo: nat | t.IsNode(l, lo)
      ensures NodeInv(t, s', l, lo)
    {
      RootNodes(t, s, c, l, lo);
    }
    forall d: nat | d < t.cores
      ensures CoreInv(t, s', d)
      ensures t.Base(d) == t.Base(c) && s'.pc[d].Waking? ==> d == c
    {
      assert CoreInv(t, s, d);
      if t.Base(d) == t.Base(c) {
        assert Mates(t, c, d);
        TeamAsleep(t, s, c, d);
      }
    }
    TeamChange(t, s, s', c);
  }

  /** A step of core c that changes only its own team's release keeps the team invariant. */
  lemma {:induction false} TeamChange(t: Tree, s: State, s': State, c: nat)
    requires t.Shape() && Sized(t, s) && Sized(t, s') && TeamInv(t, s) && c < t.cores
    requires forall d: nat {:trigger s'.pc[d]} :: d < t.cores && t.Base(d) != t.Base(c) ==> s'.pc[d] == s.pc[d]
    requires forall d: nat {:trigger s'.pc[d]} :: d < t.cores && t.Base(d) == t.Base(c) && s'.pc[d].Waking? ==> d == c
    requires exists r :: s'.rounds == ForTeam(t, s.rounds, t.Base(c), r)
    requires exists k :: s'.writes == ForTeam(t, s.writes, t.Base(c), k)
    requires s'.writes[c] < t.Writes() ==> s'.pc[c].Waking?
    ensures TeamInv(t, s')
  {
    forall d: nat | d < t.cores && s'.writes[d] < t.Writes()
      ensures exists e: nat :: Mates(t, d, e) && s'.pc[e].Waking?
    {
      if t.Base(d) == t.Base(c) {
        assert Mates(t, d, c);
      } else {
        var e: nat :| Mates(t, d, e) && s.pc[e].Waking?;
        assert s'.pc[e] == s.pc[e];
      }
    }
    forall d: nat, e: nat | Mates(t, d, e)
      ensures s'.rounds[d] == s'.rounds[e] && s'.writes[d] == s'.writes[e]
      ensures s'.pc[d].Waking? && s'.pc[e].Waking? ==> d == e
    {
    }
  }

  lemma {:induction false} WakeInv(t: Tree, s: State, c: nat)
    requires Inv(t, s) && c < t.cores && s.pc[c].Waking?
    ensures Inv(t, Next(t, s, c))
  {
    var s' := Next(t, s, c);
    assert CoreInv(t, s, c);
    assert Mates(t, c, c);
    forall l: nat, lo: nat | t.IsNode(l, lo)
      ensures NodeInv(t, s', l, lo)
    {
      assert NodeInv(t, s, l, lo);
      NodeFrame(t, s, s', l, lo);
    }
    forall d: nat | d < t.cores
      ensures CoreInv(t, s', d)
      ensures t.Base(d) == t.Base(c) && s'.pc[d].Waking? ==> d == c
    {
      assert CoreInv(t, s, d);
      if t.Base(d) == t.Base(c) {
        assert Mates(t, c, d);
      }
    }
    assert s'.rounds == ForTeam(t, s.rounds, t.Base(c), s.rounds[c]) by {
      assert forall d: nat :: d < t.cores && t.Base(d) == t.Base(c) ==> Mates(t, c, d);
    }
    TeamChange(t, s, s', c);
  }

  lemma {:induction false} NextInv(t: Tree, s: State, c: nat)
    requires Inv(t, s) && c < t.cores
    ensures Inv(t, Next(t, s, c))
  {
    assert CoreInv(t, s, c);
    match s.pc[c]
    case Out => CallInv(t, s, c);
    case Arrive(_) => ArriveInv(t, s, c);
    case Reset(l) =>
      if l + 1 < t.Levels() {
        ResetInv(t, s, c);
      } else {
        RootInv(t, s, c);
      }
    case Waking(_) => WakeInv(t, s, c);
    case Sleep(_) => ReturnInv(t, s, c);
  }

  /** Every reachable state satisfies the invariant. */
  lemma {:induction false} ExecInv(t: Tree, schedule: seq<nat>)
    requires t.Valid() && Schedule(t, schedule)
    ensures Inv(t, Exec(t, schedule))
    decreases |schedule|
  {
    if schedule == [] {
      InitInv(t);
    } else {
      ExecInv(t, schedule[..|schedule| - 1]);
      NextInv(t, Exec(t, schedule[..|schedule| - 1]), schedule[|schedule| - 1]);
    }
  }
}
