/** The barrier functions of software/runtime/synchronization.c, step by step in their own local
    variables, run by all cores on one shared memory in any interleaving. */
module BarrierPrograms {
  import opened Arith
  import opened WakeUp
  import TreeBarrier

  /** Which barrier the cores call.  Core counts are powers of two and given by their exponents. */
  datatype Program =
    | Plain                     // mempool_barrier(NUM_CORES)
    | Log                       // mempool_log_barrier(2, core_id)
    | AnyRadix(radix: nat)      // mempool_anyradixlog_barrier(radix, core_id)
    | LinLog(logStep: nat)      // mempool_linlog_barrier(2^logStep, core_id)
    | Partial(logSize: nat)     // mempool_log_partial_barrier(2, core_id, 2^logSize)

  datatype Machine = Machine(topo: Topology, prog: Program) {
    predicate Valid() {
      && topo.Valid() && topo.logCores >= 1
      && match prog
         case Plain => true
         case Log => true
         case AnyRadix(radix) => radix >= 1
         case LinLog(logStep) => 1 <= logStep <= topo.logCores
         case Partial(logSize) => 1 <= logSize <= topo.logCores
    }
  }

  /** The live local variables of a climb: `left` is num_cores in the any-radix loop. */
  datatype Locals = Locals(first: bool, step: nat, prev: nat, left: nat)

  /** The operands of one fetch-and-add, and the value the last arrival fetches. */
  datatype Access = Access(index: int, add: nat, last: int)

  datatype Outcome = Climb(next: Locals) | Root | GiveUp

  function FirstLog(logCores: nat, radix: nat): nat
    requires radix > 0
  {
    if logCores % radix == 0 then radix else logCores % radix
  }

  function Enter(m: Machine): Locals
    requires m.Valid()
  {
    match m.prog
    case Plain => Locals(true, m.topo.Cores(), 0, 0)
    case Log => Locals(true, 2, 0, 0)
    case AnyRadix(radix) => Locals(true, Pow2(FirstLog(m.topo.logCores, radix)), 0, m.topo.Cores())
    case LinLog(logStep) => Locals(true, Pow2(logStep), 0, 0)
    case Partial(_) => Locals(true, 2, 0, 0)
  }

  /** The C code computes (step * (core_id / step)) * 4. */
  function Idx(step: nat, core: nat): nat
    requires step > 0
  {
    4 * Floor(core, step)
  }

  lemma {:induction false} IdxInC(step: nat, core: nat)
    requires step > 0
    ensures Idx(step, core) == step * (core / step) * 4
  {
    FloorIsDiv(core, step);
  }

  /** The counter word of `barrier` lies behind the 4 * NUM_CORES words of `log_barrier`. */
  function AccessOf(m: Machine, loc: Locals, core: nat): Access
    requires loc.step > 0
  {
    var idx, half := Idx(loc.step, core), loc.step / 2;
    match m.prog
    case Plain => Access(4 * m.topo.Cores(), 1, m.topo.Cores() - 1)
    case Log => Access(idx + half - 1, half, loc.step - half)
    case AnyRadix(_) =>
      if loc.first then Access(idx, 1, loc.step - 1) else Access(idx + loc.prev - 1, loc.prev, loc.step - loc.prev)
    case LinLog(_) =>
      if loc.first then Access(idx + half - 1, 1, loc.step - 1) else Access(idx + half - 1, half, loc.step - half)
    case Partial(_) => Access(idx + half - 1, half, loc.step - half)
  }

  /** What the last arrival does after its store of 0. */
  function AfterReset(m: Machine, loc: Locals): Outcome
    requires loc.step > 0
  {
    match m.prog
    case Plain => Root
    case Log => if m.topo.Cores() == loc.step then Root else Climb(Locals(false, loc.step * 2, 0, 0))
    case AnyRadix(radix) =>
      var left := if loc.first then Div(loc.left, loc.step) else Shr(loc.left, radix);
      if left > 1 then Climb(Locals(false, Shl(loc.step, radix), loc.step, left))
      else if left == 1 then Root else GiveUp
    case LinLog(_) => if m.topo.Cores() == loc.step then Root else Climb(Locals(false, loc.step * 2, 0, 0))
    case Partial(logSize) => if Pow2(logSize) == loc.step then Root else Climb(Locals(false, loc.step * 2, 0, 0))
  }

  function ReleaseWrites(m: Machine, core: nat): (ws: seq<Write>)
    requires m.Valid()
    ensures |ws| > 0
  {
    if m.prog.Partial? then PartialWrites(m.topo, m.prog.logSize, core) else [Core(ALL_ONES)]
  }

  datatype CodePc = Outside | FetchAdd(loc: Locals) | Store0(loc: Locals) | Wake(write: nat) | Wfi

  /** `calls` and `rets` count each core's calls and returns; no step reads them. */
  datatype CodeState = CodeState(pc: seq<CodePc>, mem: seq<nat>, pending: seq<nat>, calls: seq<nat>, rets: seq<nat>)

  ghost predicate CodeSized(m: Machine, s: CodeState) {
    && |s.pc| == |s.pending| == |s.calls| == |s.rets| == m.topo.Cores()
    && |s.mem| == 4 * m.topo.Cores() + 1
  }

  /** All counters are 0 after mempool_barrier_init. */
  function CodeInit(m: Machine): (s: CodeState)
    ensures CodeSized(m, s)
  {
    var n := m.topo.Cores();
    CodeState(seq(n, _ => Outside), seq(4 * n + 1, _ => 0), seq(n, _ => 0), seq(n, _ => 0), seq(n, _ => 0))
  }

  /** One wake-up register write latches one wake-up in every core it names. */
  function Latch(m: Machine, pending: seq<nat>, w: Write): (r: seq<nat>)
    requires m.Valid()
    ensures |r| == |pending|
    ensures forall d {:trigger r[d]} :: 0 <= d < |pending| ==>
              r[d] == if Wakes(m.topo, w, d) then pending[d] + 1 else pending[d]
  {
    seq(|pending|, d requires 0 <= d < |pending| => if Wakes(m.topo, w, d) then pending[d] + 1 else pending[d])
  }

  /** Core c executes its next shared-memory operation.  Counters are 32-bit words. */
  function CodeNext(m: Machine, s: CodeState, c: nat): (s': CodeState)
    requires m.Valid() && CodeSized(m, s) && c < m.topo.Cores()
    ensures CodeSized(m, s')
  {
    match s.pc[c]
    case Outside => s.(pc := s.pc[c := FetchAdd(Enter(m))], calls := s.calls[c := s.calls[c] + 1])
    case FetchAdd(loc) =>
      if loc.step == 0 then s else
      var a := AccessOf(m, loc, c);
      if 0 <= a.index < |s.mem| then
        s.(mem := s.mem[a.index := (s.mem[a.index] + a.add) % 0x1_0000_0000],
           pc := s.pc[c := if s.mem[a.index] == a.last then Store0(loc) else Wfi])
      else s
    case Store0(loc) =>
      if loc.step == 0 then s else
      var a := AccessOf(m, loc, c);
      if 0 <= a.index < |s.mem| then
        s.(mem := s.mem[a.index := 0],
           pc := s.pc[c := match AfterReset(m, loc) case Climb(next) => FetchAdd(next) case Root => Wake(0) case GiveUp => Wfi])
      else s
    case Wake(k) =>
      var ws := ReleaseWrites(m, c);
      if k < |ws| then
        s.(pending := Latch(m, s.pending, ws[k]), pc := s.pc[c := if k + 1 < |ws| then Wake(k + 1) else Wfi])
      else s
    case Wfi =>
      if s.pending[c] == 0 then s
      else s.(pending := s.pending[c := s.pending[c] - 1], rets := s.rets[c := s.rets[c] + 1], pc := s.pc[c := Outside])
  }

  ghost predicate Schedule(m: Machine, schedule: seq<nat>) {
    forall i :: 0 <= i < |schedule| ==> schedule[i] < m.topo.Cores()
  }

  /** A run of the machine: the state after any schedule of cores. */
  function CodeExec(m: Machine, schedule: seq<nat>): (s: CodeState)
    requires m.Valid() && Schedule(m, schedule)
    ensures CodeSized(m, s)
  {
    if schedule == [] then CodeInit(m)
    else CodeNext(m, CodeExec(m, schedule[..|schedule| - 1]), schedule[|schedule| - 1])
  }

  // ---------------------------------------------------------------------------------------------
  // The tree that each program climbs
  // ---------------------------------------------------------------------------------------------

  function Levels(m: Machine): nat
    requires m.Valid()
  {
    var k := m.topo.logCores;
    match m.prog
    case Plain => 1
    case Log => k
    case AnyRadix(radix) => 1 + Div(RestLog(k, radix), radix)
    case LinLog(logStep) => k - logStep + 1
    case Partial(logSize) => logSize
  }

  function RestLog(logCores: nat, radix: nat): (r: nat)
    requires radix > 0 && logCores > 0
    ensures FirstLog(logCores, radix) + r == logCores && Aligned(r, radix)
  {
    DivModAreBuiltIn(logCores, radix);
    FloorMod(logCores, radix);
    AlignedIsMod(logCores, radix);
    if logCores % radix == 0 then
      AlignedAdd(radix, logCores - radix, radix);
      logCores - radix
    else logCores - logCores % radix
  }

  /** 2^Exp(l) cores stand behind one arrival at level l. */
  function Exp(m: Machine, l: nat): nat
    requires m.Valid()
  {
    if l == 0 then 0 else
      match m.prog
      case Plain => m.topo.logCores
      case Log => l
      case AnyRadix(radix) => Start(FirstLog(m.topo.logCores, radix), radix, l - 1)
      case LinLog(logStep) => logStep + l - 1
      case Partial(_) => l
  }

  function Slot(m: Machine, l: nat): nat
    requires m.Valid()
  {
    if m.prog.Plain? then 4 * m.topo.Cores()
    else if m.prog.LinLog? && l == 0 then Pow2(m.prog.logStep - 1) - 1
    else Pow2(Exp(m, l)) - 1
  }

  function Sizes(m: Machine): (r: seq<nat>)
    requires m.Valid()
    ensures |r| == Levels(m) + 1 && forall l {:trigger r[l]} :: 0 <= l < |r| ==> r[l] == Pow2(Exp(m, l))
  {
    seq(Levels(m) + 1, l requires 0 <= l => Pow2(Exp(m, l)))
  }

  function RadixAt(m: Machine, l: nat): nat
    requires m.Valid()
  {
    Pow2(Minus(Exp(m, l + 1), Exp(m, l)))
  }

  function Radices(m: Machine): (r: seq<nat>)
    requires m.Valid()
    ensures |r| == Levels(m) && forall l {:trigger r[l]} :: 0 <= l < |r| ==> r[l] == RadixAt(m, l)
  {
    seq(Levels(m), l requires 0 <= l => RadixAt(m, l))
  }

  function Slots(m: Machine): (r: seq<nat>)
    requires m.Valid()
    ensures |r| == Levels(m) && forall l {:trigger r[l]} :: 0 <= l < |r| ==> r[l] == Slot(m, l)
  {
    seq(Levels(m), l requires 0 <= l => Slot(m, l))
  }

  function TreeOf(m: Machine): TreeBarrier.Tree
    requires m.Valid()
  {
    TreeBarrier.Tree(m.topo.Cores(), Sizes(m), Radices(m), Slots(m), 4 * m.topo.Cores() + 1,
                     m.prog.Partial? && PerCoreBranch(m.topo, m.prog.logSize))
  }

  /** Exponent of the team size. */
  function TeamLog(m: Machine): nat
    requires m.Valid()
  {
    if m.prog.Partial? then m.prog.logSize else m.topo.logCores
  }

  lemma {:induction false} ExpMono(m: Machine, l: nat, n: nat)
    requires m.Valid() && l < n <= Levels(m)
    ensures Exp(m, l) < Exp(m, n)
  {
    if m.prog.AnyRadix? && l > 0 {
      StartMono(FirstLog(m.topo.logCores, m.prog.radix), m.prog.radix, l - 1, n - 1);
    }
  }

  lemma {:induction false} ExpTop(m: Machine)
    requires m.Valid()
    ensures Levels(m) >= 1 && Exp(m, Levels(m)) == TeamLog(m) <= m.topo.logCores
  {
    if m.prog.AnyRadix? {
      var k, r := m.topo.logCores, m.prog.radix;
      var rest := RestLog(k, r);
      FloorMod(rest, r);
      AlignedUnique(rest, Floor(rest, r), r, rest);
      StartShift(FirstLog(k, r), r, Div(rest, r));
    }
  }

  lemma {:induction false} ExpBound(m: Machine, l: nat)
    requires m.Valid() && l <= Levels(m)
    ensures Exp(m, l) <= TeamLog(m) <= m.topo.logCores
  {
    ExpTop(m);
    if l < Levels(m) {
      ExpMono(m, l, Levels(m));
    }
  }

  lemma {:induction false} SizesAligned(m: Machine, l: nat, n: nat)
    requires m.Valid() && l <= n <= Levels(m)
    ensures Aligned(Pow2(Exp(m, n)), Pow2(Exp(m, l))) && Aligned(m.topo.Cores(), Pow2(Exp(m, l)))
  {
    if l < n {
      ExpMono(m, l, n);
    }
    Pow2Blocks(Exp(m, l), Exp(m, n));
    ExpBound(m, l);
    Pow2Blocks(Exp(m, l), m.topo.logCores);
  }

  lemma {:induction false} RadixOf(m: Machine, l: nat)
    requires m.Valid() && l < Levels(m)
    ensures Radices(m)[l] >= 2 && Sizes(m)[l + 1] == Start(0, Sizes(m)[l], Radices(m)[l])
  {
    ExpMono(m, l, l + 1);
    Pow2Blocks(Exp(m, l), Exp(m, l + 1));
  }

  lemma {:induction false} TreeShape(m: Machine)
    requires m.Valid()
    ensures TreeOf(m).Shape() && TreeOf(m).Team() == Pow2(TeamLog(m))
  {
    ExpTop(m);
    forall l: nat, n: nat | l <= n <= Levels(m)
      ensures Aligned(Sizes(m)[n], Sizes(m)[l]) && Aligned(m.topo.Cores(), Sizes(m)[l])
    {
      SizesAligned(m, l, n);
    }
    forall l: nat | l < Levels(m)
      ensures Radices(m)[l] >= 2 && Sizes(m)[l + 1] == Start(0, Sizes(m)[l], Radices(m)[l])
    {
      RadixOf(m, l);
    }
  }

  /** Slots below the root level are smaller than the block, so counters of all levels differ. */
  lemma {:induction false} SlotFits(m: Machine, l: nat)
    requires m.Valid() && l < Levels(m) && !m.prog.Plain?
    ensures Slot(m, l) + 1 < Pow2(Exp(m, l + 1))
  {
    ExpMono(m, l, l + 1);
    Pow2Blocks(Exp(m, l), Exp(m, l + 1));
  }

  ghost predicate CellIn(t: TreeBarrier.Tree, l: nat, lo: nat) {
    t.IsNode(l, lo) ==> t.Cell(l, lo) < t.words
  }

  lemma {:induction false} ValidFrom(t: TreeBarrier.Tree)
    requires t.Shape()
    requires forall l: nat, lo: nat :: CellIn(t, l, lo)
    requires forall l: nat, n: nat :: t.Apart(l, n)
    ensures t.Valid()
  {
    forall l: nat, lo: nat {:trigger t.Cell(l, lo)} | t.IsNode(l, lo)
      ensures t.Cell(l, lo) < t.words
    {
      assert CellIn(t, l, lo);
    }
  }

  lemma {:induction false} CellInRange(m: Machine, l: nat, lo: nat)
    requires m.Valid() && TreeOf(m).Shape()
    ensures CellIn(TreeOf(m), l, lo)
  {
    if TreeOf(m).IsNode(l, lo) {
      var hi := TreeOf(m).Hi(l, lo);
      if !m.prog.Plain? {
        SlotFits(m, l);
      }
    }
  }

  lemma {:induction false} SlotOrder(m: Machine, l: nat, n: nat)
    requires m.Valid() && l < n < Levels(m)
    ensures Slot(m, l) + 1 < Pow2(Exp(m, l + 1)) && Aligned(Slot(m, n) + 1, Pow2(Exp(m, l + 1)))
  {
    SlotFits(m, l);
    SizesAligned(m, l + 1, n);
  }

  lemma {:induction false} SlotsApart(m: Machine, l: nat, n: nat)
    requires m.Valid() && TreeOf(m).Shape()
    ensures TreeOf(m).Apart(l, n)
  {
    if l < n < Levels(m) {
      SlotOrder(m, l, n);
      ApartFrom(TreeOf(m), l, n, Pow2(Exp(m, l + 1)), Slot(m, l), Slot(m, n));
    }
  }

  lemma {:induction false} ApartFrom(t: TreeBarrier.Tree, l: nat, n: nat, size: nat, slot: nat, other: nat)
    requires t.Shape() && l < n < |t.slots| && size > 0
    requires t.sizes[l + 1] == size && t.slots[l] == slot && t.slots[n] == other
    requires slot + 1 < size && Aligned(other + 1, size)
    ensures t.Apart(l, n)
  {
  }

  lemma {:induction false} TreeValid(m: Machine)
    requires m.Valid()
    ensures TreeOf(m).Valid()
  {
    TreeShape(m);
    forall l: nat, lo: nat ensures CellIn(TreeOf(m), l, lo) {
      CellInRange(m, l, lo);
    }
    forall l: nat, n: nat ensures TreeOf(m).Apart(l, n) {
      SlotsApart(m, l, n);
    }
    ValidFrom(TreeOf(m));
  }

  // ---------------------------------------------------------------------------------------------
  // The locals at each level
  // ---------------------------------------------------------------------------------------------

  /** The values of the locals when the code is about to access level l. */
  ghost predicate AtLevel(m: Machine, l: nat, loc: Locals)
    requires m.Valid()
  {
    && l < Levels(m)
    && loc.first == (l == 0)
    && loc.step == Pow2(Exp(m, l + 1))
    && (m.prog.AnyRadix? ==> loc.left == Pow2(Minus(m.topo.logCores, Exp(m, l))))
    && (m.prog.AnyRadix? && l > 0 ==> loc.prev == Pow2(Exp(m, l)))
  }

  lemma {:induction false} EnterAtLevel(m: Machine)
    requires m.Valid()
    ensures AtLevel(m, 0, Enter(m))
  {
    ExpTop(m);
    assert Pow2(1) == 2;
  }

  /** After a reset the code climbs exactly until the root: num_cores reaches 1 only there. */
  lemma {:induction false} ClimbAtLevel(m: Machine, l: nat, loc: Locals)
    requires m.Valid() && AtLevel(m, l, loc)
    ensures l + 1 == Levels(m) ==> AfterReset(m, loc) == Root
    ensures l + 1 < Levels(m) ==> AfterReset(m, loc).Climb? && AtLevel(m, l + 1, AfterReset(m, loc).next)
  {
    ExpTop(m);
    if l + 1 < Levels(m) {
      ExpMono(m, l + 1, Levels(m));
      Pow2Blocks(Exp(m, l + 1), TeamLog(m));
    }
    if m.prog.AnyRadix? {
      RadixLeft(m, l, loc);
    }
  }

  lemma {:induction false} RadixLeft(m: Machine, l: nat, loc: Locals)
    requires m.Valid() && AtLevel(m, l, loc) && m.prog.AnyRadix?
    ensures Exp(m, l + 1) <= m.topo.logCores
    ensures (if loc.first then Div(loc.left, loc.step) else Shr(loc.left, m.prog.radix))
            == Pow2(m.topo.logCores - Exp(m, l + 1))
    ensures Shl(loc.step, m.prog.radix) == Pow2(Exp(m, l + 2))
  {
    var k, r := m.topo.logCores, m.prog.radix;
    ExpBound(m, l + 1);
    ExpMono(m, l, l + 1);
    ShlPow2(Exp(m, l + 1), r);
    if l == 0 {
      Pow2Blocks(Exp(m, 1), k);
    } else {
      ShrPow2(k - Exp(m, l + 1), r);
    }
  }

  lemma {:induction false} Half(n: nat)
    requires n > 0
    ensures Pow2(n) / 2 == Pow2(n - 1)
  {
  }

  /** The fetch-and-add of the C code is the one of the tree. */
  lemma {:induction false} AccessAtLevel(m: Machine, l: nat, loc: Locals, core: nat)
    requires m.Valid() && AtLevel(m, l, loc) && core < m.topo.Cores()
    ensures var a := AccessOf(m, loc, core);
            && a.index == 4 * Floor(core, Pow2(Exp(m, l + 1))) + Slot(m, l)
            && a.add == Pow2(Exp(m, l)) && a.last == Pow2(Exp(m, l + 1)) - Pow2(Exp(m, l))
  {
    ExpMono(m, l, l + 1);
    Half(Exp(m, l + 1));
  }

  /** The locals after winning l fetch-and-adds. */
  function LocalsAt(m: Machine, l: nat): (loc: Locals)
    requires m.Valid()
  {
    if l == 0 then Enter(m)
    else
      var before := LocalsAt(m, l - 1);
      if before.step == 0 then before else
        match AfterReset(m, before)
        case Climb(next) => next
        case _ => before
  }

  lemma {:induction false} LocalsAtLevel(m: Machine, l: nat)
    requires m.Valid() && l < Levels(m)
    ensures AtLevel(m, l, LocalsAt(m, l))
  {
    if l == 0 {
      EnterAtLevel(m);
    } else {
      LocalsAtLevel(m, l - 1);
      ClimbAtLevel(m, l - 1, LocalsAt(m, l - 1));
    }
  }

  // ---------------------------------------------------------------------------------------------
  // A tree describes a program
  // ---------------------------------------------------------------------------------------------

  /** The fetch-and-add of the C code at level l is the one of the tree. */
  ghost predicate AccessOk(m: Machine, tree: TreeBarrier.Tree, l: nat, c: nat)
    requires m.Valid() && tree.Valid()
  {
    l < tree.Levels() && c < tree.cores ==>
      var loc := LocalsAt(m, l);
      && loc.step > 0
      && var a := AccessOf(m, loc, c);
         a.index == tree.Cell(l, tree.Lo(l, c)) && a.add == tree.sizes[l] && a.last + a.add == tree.sizes[l + 1]
  }

  /** The code climbs one level after each reset and stops at the root. */
  ghost predicate ClimbOk(m: Machine, tree: TreeBarrier.Tree, l: nat)
    requires m.Valid()
  {
    l < tree.Levels() ==>
      var loc := LocalsAt(m, l);
      && loc.step > 0
      && AfterReset(m, loc) == if l + 1 == tree.Levels() then Root else Climb(LocalsAt(m, l + 1))
  }

  /** The release of core c reaches exactly its team (always so outside the partial barrier). */
  predicate Releases(m: Machine, c: nat) {
    m.prog.Partial? ==> Decodable(m.topo, m.prog.logSize, c)
  }

  /** One write of the release wakes exactly the cores the tree wakes with it. */
  ghost predicate WriteOk(m: Machine, tree: TreeBarrier.Tree, c: nat, k: nat, d: nat)
    requires m.Valid() && tree.Valid()
  {
    c < tree.cores && d < tree.cores && Releases(m, c) ==>
      && |ReleaseWrites(m, c)| == tree.Writes()
      && (k < tree.Writes() ==>
            (Wakes(m.topo, ReleaseWrites(m, c)[k], d) <==> tree.Base(d) == tree.Base(c) && tree.WakePos(d) == k))
  }

  ghost predicate Describes(m: Machine, tree: TreeBarrier.Tree)
    requires m.Valid()
  {
    && tree.Valid() && tree.cores == m.topo.Cores() && tree.words == 4 * m.topo.Cores() + 1
    && tree.Levels() == Levels(m) && tree.Team() == Pow2(TeamLog(m))
    && tree.Writes() <= MaxWrites(m)
    && LocalsAt(m, 0) == Enter(m)
    && (forall l: nat, c: nat {:trigger AccessOk(m, tree, l, c)} :: AccessOk(m, tree, l, c))
    && (forall l: nat {:trigger ClimbOk(m, tree, l)} :: ClimbOk(m, tree, l))
    && (forall c: nat, k: nat, d: nat {:trigger WriteOk(m, tree, c, k, d)} :: WriteOk(m, tree, c, k, d))
  }

  function MaxWrites(m: Machine): nat {
    if m.prog.Partial? then Pow2(m.prog.logSize) else 1
  }

  lemma {:induction false} TreeAccess(m: Machine, l: nat, c: nat)
    requires m.Valid() && TreeOf(m).Valid()
    ensures AccessOk(m, TreeOf(m), l, c)
  {
    var t := TreeOf(m);
    if l < t.Levels() && c < t.cores {
      LocalsAtLevel(m, l);
      AccessAtLevel(m, l, LocalsAt(m, l), c);
      TreeNode(m, l, c);
    }
  }

  lemma {:induction false} TreeNode(m: Machine, l: nat, core: nat)
    requires m.Valid() && TreeOf(m).Valid() && l < Levels(m) && core < m.topo.Cores()
    ensures var t := TreeOf(m);
            && t.Cell(l, t.Lo(l, core)) == 4 * Floor(core, Pow2(Exp(m, l + 1))) + Slot(m, l)
            && t.sizes[l] == Pow2(Exp(m, l)) && t.sizes[l + 1] == Pow2(Exp(m, l + 1))
  {
  }

  lemma {:induction false} TreeClimb(m: Machine, l: nat)
    requires m.Valid()
    ensures ClimbOk(m, TreeOf(m), l)
  {
    if l < Levels(m) {
      LocalsAtLevel(m, l);
      ClimbAtLevel(m, l, LocalsAt(m, l));
    }
  }

  lemma {:induction false} OneBlock(x: nat, d: nat)
    requires x < d
    ensures Floor(x, d) == 0
  {
  }

  lemma {:induction false} TeamIsFloor(c: nat, d: nat, size: nat)
    requires size > 0
    ensures Floor(c, size) <= d < Floor(c, size) + size <==> Floor(d, size) == Floor(c, size)
  {
    if Floor(c, size) <= d < Floor(c, size) + size {
      AlignedUnique(Floor(c, size), Floor(d, size), size, d);
    }
  }

  lemma {:induction false} TreeWrites(m: Machine, c: nat, k: nat, d: nat)
    requires m.Valid() && TreeOf(m).Valid() && TreeOf(m).Team() == Pow2(TeamLog(m))
    ensures WriteOk(m, TreeOf(m), c, k, d)
  {
    if c < m.topo.Cores() && d < m.topo.Cores() && Releases(m, c) {
      if m.prog.Partial? {
        if k < |ReleaseWrites(m, c)| {
          PartialWakeExact(m.topo, m.prog.logSize, c, k, d);
        }
        TeamIsFloor(c, d, Pow2(m.prog.logSize));
      } else {
        OneBlock(c, m.topo.Cores());
        OneBlock(d, m.topo.Cores());
      }
    }
  }

  lemma {:induction false} TheTree(m: Machine) returns (tree: TreeBarrier.Tree)
    requires m.Valid()
    ensures Describes(m, tree)
  {
    tree := TreeOf(m);
    TreeShape(m);
    TreeValid(m);
    forall l: nat, c: nat ensures AccessOk(m, tree, l, c) {
      TreeAccess(m, l, c);
    }
    forall l: nat ensures ClimbOk(m, tree, l) {
      TreeClimb(m, l);
    }
    forall c: nat, k: nat, d: nat ensures WriteOk(m, tree, c, k, d) {
      TreeWrites(m, c, k, d);
    }
  }
}
