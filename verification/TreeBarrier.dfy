/** A tree of counters shared by teams of cores and reused round after round.

    This is the shape that every barrier of software/runtime/synchronization.c has once its local
    variables are named by tree level; module `BarrierPrograms` shows that each C function runs
    exactly this machine. */
module TreeBarrier {
  import opened Arith

  /** `sizes[l]` cores stand behind one arrival at level l, and `sizes[l + 1]` cores, in
      `radices[l]` blocks, share one counter of level l.  The cores `[b, b + Team())` with aligned
      `b` form one team. */
  datatype Tree = Tree(cores: nat, sizes: seq<nat>, radices: seq<nat>, slots: seq<nat>, words: nat, perCoreWake: bool) {

    ghost predicate Shape() {
      && cores > 0 && |sizes| >= 2 && |slots| == |radices| == |sizes| - 1 && sizes[0] == 1
      && (forall l :: 0 <= l < |sizes| ==> sizes[l] > 0)
      && (forall l {:trigger Aligned(cores, sizes[l])} :: 0 <= l < |sizes| ==> Aligned(cores, sizes[l]))
      && (forall l, m {:trigger Aligned(sizes[m], sizes[l])} :: 0 <= l <= m < |sizes| ==> Aligned(sizes[m], sizes[l]))
      && (forall l :: 0 <= l < |slots| ==> radices[l] >= 2)
      && (forall l {:trigger radices[l]} :: 0 <= l < |slots| ==> sizes[l + 1] == Start(0, sizes[l], radices[l]))
    }

    predicate IsNode(l: nat, lo: nat) {
      |slots| == |sizes| - 1 && l < |slots| && lo < cores && sizes[l + 1] > 0 && Aligned(lo, sizes[l + 1])
    }

    /** Index of the counter shared by the aligned block of cores that starts at `lo`. */
    function Cell(l: nat, lo: nat): nat
      requires l < |slots|
    {
      4 * lo + slots[l]
    }

    ghost predicate Valid() {
      && Shape()
      && (forall l, lo {:trigger Cell(l, lo)} :: IsNode(l, lo) ==> Cell(l, lo) < words)
      && (forall l: nat, m: nat {:trigger Apart(l, m)} :: l < m < |slots| ==> Apart(l, m))
    }

    /** The counters of a lower level have smaller slots than any block end. */
    ghost predicate Apart(l: nat, m: nat)
      requires Shape()
    {
      l < m < |slots| ==> slots[l] + 1 < sizes[l + 1] && Aligned(slots[m] + 1, sizes[l + 1])
    }

    function Levels(): nat { |slots| }

    function Team(): nat
      requires Shape()
    {
      sizes[|slots|]
    }

    function Hi(l: nat, lo: nat): (r: nat)
      requires Shape() && IsNode(l, lo)
      ensures lo < r == lo + sizes[l + 1] <= cores
    {
      BlockInside(lo, sizes[l + 1], cores);
      lo + sizes[l + 1]
    }

    /** First core of the team of `c`. */
    function Base(c: nat): (b: nat)
      requires Shape()
      ensures b <= c < b + Team() && Aligned(b, Team())
    {
      Floor(c, Team())
    }

    /** First core of the block of `c` at level l. */
    function Lo(l: nat, c: nat): (lo: nat)
      requires Shape() && c < cores && l < Levels()
      ensures IsNode(l, lo) && lo <= c < lo + sizes[l + 1]
    {
      Floor(c, sizes[l + 1])
    }

    /** Number of wake-up register writes of one release, and which of them wakes core `c`. */
    function Writes(): (w: nat)
      requires Shape()
      ensures w > 0
    {
      if perCoreWake then Team() else 1
    }

    function WakePos(c: nat): (p: nat)
      requires Shape()
      ensures p < Writes()
    {
      if perCoreWake then c - Base(c) else 0
    }
  }

  /** Where a core is inside one barrier call.  `Sleep` remembers the level at which the core lost. */
  datatype Pc =
    | Out                   // not in the barrier
    | Arrive(level: nat)    // about to fetch-and-add the counter of this level
    | Reset(level: nat)     // was last at this level, about to store 0
    | Waking(write: nat)    // won the root, about to issue this wake-up register write
    | Sleep(level: nat)     // in wfi

  /** `calls` and `rets` count each core's barrier calls and returns; `rounds[c]` counts the
      completed rounds of the team of c and `writes[c]` the wake-up writes of its latest release.
      These four are history: no step reads them. */
  datatype State = State(
    pc: seq<Pc>, mem: seq<nat>, pending: seq<nat>,
    calls: seq<nat>, rets: seq<nat>, rounds: seq<nat>, writes: seq<nat>)

  ghost predicate Sized(t: Tree, s: State) {
    && |s.pc| == |s.pending| == |s.calls| == |s.rets| == |s.rounds| == |s.writes| == t.cores
    && |s.mem| == t.words
  }

  function Init(t: Tree): State
    requires t.Shape()
  {
    State(seq(t.cores, _ => Out), seq(t.words, _ => 0), seq(t.cores, _ => 0),
          seq(t.cores, _ => 0), seq(t.cores, _ => 0), seq(t.cores, _ => 0), seq(t.cores, _ => t.Writes()))
  }

  /** xs with `add` added for every core of the team based at b that write k wakes. */
  function Woken(t: Tree, xs: seq<nat>, b: nat, k: nat): (r: seq<nat>)
    requires t.Shape()
    ensures |r| == |xs|
    ensures forall d {:trigger r[d]} :: 0 <= d < |xs| ==>
              r[d] == if t.Base(d) == b && t.WakePos(d) == k then xs[d] + 1 else xs[d]
  {
    seq(|xs|, d requires 0 <= d < |xs| => if t.Base(d) == b && t.WakePos(d) == k then xs[d] + 1 else xs[d])
  }

  /** xs with every entry of the team based at b set to v. */
  function ForTeam(t: Tree, xs: seq<nat>, b: nat, v: nat): (r: seq<nat>)
    requires t.Shape()
    ensures |r| == |xs|
    ensures forall d {:trigger r[d]} :: 0 <= d < |xs| ==> r[d] == if t.Base(d) == b then v else xs[d]
  {
    seq(|xs|, d requires 0 <= d < |xs| => if t.Base(d) == b then v else xs[d])
  }

  /** The fetch-and-add of level l: the core is last when it fetches the full value but one. */
  function DoArrive(t: Tree, s: State, c: nat, l: nat): State
    requires t.Valid() && Sized(t, s) && c < t.cores && l < t.Levels()
  {
    var a := t.Cell(l, t.Lo(l, c));
    s.(mem := s.mem[a := s.mem[a] + t.sizes[l]],
       pc := s.pc[c := if s.mem[a] + t.sizes[l] == t.sizes[l + 1] then Reset(l) else Sleep(l)])
  }

  /** The store of 0; at the root it completes the team's round. */
  function DoReset(t: Tree, s: State, c: nat, l: nat): State
    requires t.Valid() && Sized(t, s) && c < t.cores && l < t.Levels()
  {
    var mem := s.mem[t.Cell(l, t.Lo(l, c)) := 0];
    if l + 1 < t.Levels() then s.(mem := mem, pc := s.pc[c := Arrive(l + 1)])
    else s.(mem := mem, pc := s.pc[c := Waking(0)],
            rounds := ForTeam(t, s.rounds, t.Base(c), s.rounds[c] + 1),
            writes := ForTeam(t, s.writes, t.Base(c), 0))
  }

  /** Wake-up register write k. */
  function DoWake(t: Tree, s: State, c: nat, k: nat): State
    requires t.Valid() && Sized(t, s) && c < t.cores
  {
    s.(pending := Woken(t, s.pending, t.Base(c), k),
       writes := ForTeam(t, s.writes, t.Base(c), k + 1),
       pc := s.pc[c := if k + 1 < t.Writes() then Waking(k + 1) else Sleep(t.Levels())])
  }

  /** Core `c` takes its next action.  A core asleep without a latched wake-up does nothing. */
  function Next(t: Tree, s: State, c: nat): State
    requires t.Valid() && Sized(t, s) && c < t.cores
  {
    match s.pc[c]
    case Out => s.(pc := s.pc[c := Arrive(0)], calls := s.calls[c := s.calls[c] + 1])
    case Arrive(l) => if l < t.Levels() then DoArrive(t, s, c, l) else s
    case Reset(l) => if l < t.Levels() then DoReset(t, s, c, l) else s
    case Waking(k) => DoWake(t, s, c, k)
    case Sleep(_) =>
      if s.pending[c] == 0 then s
      else s.(pending := s.pending[c := s.pending[c] - 1], rets := s.rets[c := s.rets[c] + 1], pc := s.pc[c := Out])
  }

  ghost predicate Schedule(t: Tree, schedule: seq<nat>) {
    forall i :: 0 <= i < |schedule| ==> schedule[i] < t.cores
  }

  /** A run is the state after any schedule of cores. */
  function Exec(t: Tree, schedule: seq<nat>): (s: State)
    requires t.Valid() && Schedule(t, schedule)
    ensures Sized(t, s)
  {
    if schedule == [] then Init(t)
    else Next(t, Exec(t, schedule[..|schedule| - 1]), schedule[|schedule| - 1])
  }
}
