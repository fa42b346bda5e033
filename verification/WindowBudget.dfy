/** IPC plus stalls of a window against the cycles it has: what `emit` of `WindowAcc` in
    hardware/scripts/perfetto_gen.py promises, where it holds and where it does not. */
module WindowBudget {
  import opened Options
  import opened PortWindows
  import opened StallWindows

  /** A core retires at most one instruction per cycle. */
  ghost predicate Increasing(trace: seq<Retired>) {
    forall i, j {:trigger trace[i], trace[j]} :: 0 <= i < j < |trace| ==> trace[i].cyc < trace[j].cyc
  }

  lemma {:induction false} InCycleWindow(c: int, winCyc: nat, w: int)
    requires winCyc > 0
    ensures CycleWindow(c, winCyc) == w <==> w * winCyc <= c < w * winCyc + winCyc
  {
    if w * winCyc <= c < w * winCyc + winCyc {
      Arith.DivModUnique(c, winCyc, w, c - w * winCyc);
    }
  }

  /** A window has at most one retirement per cycle from its start up to the latest retirement. */
  lemma {:induction false} CountBound(trace: seq<Retired>, n: nat, winCyc: nat, w: int)
    requires n <= |trace| && winCyc > 0 && Increasing(trace)
    ensures CountIn(trace, n, winCyc, w) <= winCyc
    ensures n > 0 ==> CountIn(trace, n, winCyc, w) <= Most(0, Least(trace[n - 1].cyc + 1, w * winCyc + winCyc) - w * winCyc)
    decreases n
  {
    if n > 0 {
      CountBound(trace, n - 1, winCyc, w);
      InCycleWindow(trace[n - 1].cyc, winCyc, w);
      if n > 1 {
        assert trace[n - 2].cyc < trace[n - 1].cyc;
      }
    }
  }

  lemma {:induction false} LastIsLatest(trace: seq<Retired>, n: nat, winCyc: nat)
    requires 0 < n <= |trace| && winCyc > 0 && Increasing(trace)
    ensures LastWindow(trace, n, winCyc) == CycleWindow(trace[n - 1].cyc, winCyc)
    ensures CountIn(trace, n, winCyc, LastWindow(trace, n, winCyc)) >= 1
    decreases n
  {
    if n > 1 {
      LastIsLatest(trace, n - 1, winCyc);
      assert trace[n - 2].cyc < trace[n - 1].cyc;
      WindowsInOrder(trace[n - 2].cyc, trace[n - 1].cyc, winCyc);
    }
  }

  lemma {:induction false} WindowsInOrder(a: int, b: int, winCyc: nat)
    requires winCyc > 0 && a <= b
    ensures CycleWindow(a, winCyc) <= CycleWindow(b, winCyc)
  {
    var p, q := CycleWindow(a, winCyc), CycleWindow(b, winCyc);
    InCycleWindow(a, winCyc, p);
    InCycleWindow(b, winCyc, q);
    assert (q + 1) * winCyc == q * winCyc + winCyc;
    if q < p {
      Arith.MulMono(q + 1, p, winCyc);
    }
  }

  lemma {:induction false} TickQuotient(k: int, tick: real)
    requires tick > 0.0
    ensures (k as real * tick) / tick == k as real
  {
  }

  /** A window before the last is divided by its cycles; the last by the cycles from its start to the
      latest retirement, one fewer than the cycles in which it can retire. */
  lemma {:induction false} Divisors(w: int, last: int, c: int, winCyc: nat, tick: real, width: real)
    requires winCyc > 0 && tick > 0.0 && width > 0.0 && width == winCyc as real * tick
    ensures var cyc := ActiveCycles(w, Some(last), Some(c as real * tick), width, tick);
            cyc == if w == last then Most(1, c - last * winCyc) as real else winCyc as real
  {
    TickQuotient(winCyc, tick);
    EdgeOfTick(last, winCyc, tick, width);
    TickQuotient(c - last * winCyc, tick);
    Difference(c, last * winCyc, tick);
  }

  lemma {:induction false} Difference(a: int, b: int, tick: real)
    ensures a as real * tick - b as real * tick == (a - b) as real * tick
  {
  }

  /** What a window shows in all: retired and stalled fractions. */
  ghost function ShownSum(acc: WindowAcc, w: int): real
    reads acc
    requires acc.width > 0.0 && acc.clk > 0.0
  {
    acc.ShownAt(w, Ipc) + acc.ShownAt(w, Stall(Tot))
  }

  /** The accumulator has recorded the trace of one core. */
  ghost predicate Recorded(acc: WindowAcc, trace: seq<Retired>, winCyc: nat, tick: real)
    reads acc
  {
    && acc.Valid() && winCyc > 0 && tick > 0.0 && acc.width == winCyc as real * tick && acc.clk == tick
    && Holds(trace, |trace|, winCyc, tick, acc.count, acc.stall, acc.last, acc.lastT)
  }

  /** The sum of a window stays within 1 exactly when it has no more retirements than cycles it is divided by. */
  lemma {:induction false} SumIff(acc: WindowAcc, trace: seq<Retired>, winCyc: nat, tick: real, w: int)
    requires Recorded(acc, trace, winCyc, tick) && NonNegativeTrace(trace) && trace != []
    ensures var n, last, c := CountIn(trace, |trace|, winCyc, w), LastWindow(trace, |trace|, winCyc), trace[|trace| - 1].cyc;
            acc.last == Some(last)
            && (ShownSum(acc, w) <= 1.0 <==> n <= if w == last then Most(1, c - last * winCyc) else winCyc)
  {
    assert CountsAt(trace, |trace|, winCyc, acc.count, w);
    assert NonNegativeAt(acc.stall, w);
    var last, r := LastWindow(trace, |trace|, winCyc), trace[|trace| - 1];
    DivisorOf(w, last, r, winCyc, tick, acc.width);
    var d := if w == last then Most(1, r.cyc - last * winCyc) else winCyc;
    SumOf(StallAt(acc.stall, w), CountAt(acc.count, w), ActiveCycles(w, acc.last, acc.lastT, acc.width, acc.clk), d);
  }

  lemma {:induction false} DivisorOf(w: int, last: int, r: Retired, winCyc: nat, tick: real, width: real)
    requires winCyc > 0 && tick > 0.0 && width > 0.0 && width == winCyc as real * tick
    ensures ActiveCycles(w, Some(last), Some(TimeOf(r, tick)), width, tick)
         == (if w == last then Most(1, r.cyc - last * winCyc) else winCyc) as real
  {
    Divisors(w, last, r.cyc, winCyc, tick, width);
  }

  lemma {:induction false} SumOf(st: Stalls, n: nat, cyc: real, d: int)
    requires cyc > 0.0 && cyc == d as real && NonNegative(st)
    ensures Shown(Capped(st, n, cyc), Ipc) + Shown(Capped(st, n, cyc), Stall(Tot)) <= 1.0 <==> n <= d
  {
    CapBudget(st, n, cyc);
  }

  /** Every window but the last keeps the promise: IPC plus stalls is at most 1. */
  lemma {:induction false} BudgetBeforeLast(acc: WindowAcc, trace: seq<Retired>, winCyc: nat, tick: real, w: int)
    requires Recorded(acc, trace, winCyc, tick) && NonNegativeTrace(trace) && Increasing(trace) && trace != []
    requires acc.last != Some(w)
    ensures ShownSum(acc, w) <= 1.0
  {
    SumIff(acc, trace, winCyc, tick, w);
    CountBound(trace, |trace|, winCyc, w);
  }

  /** The last window keeps it unless the core has retired in every cycle of the window so far, at least
      twice. */
  lemma {:induction false} BudgetOfLast(acc: WindowAcc, trace: seq<Retired>, winCyc: nat, tick: real)
    requires Recorded(acc, trace, winCyc, tick) && NonNegativeTrace(trace) && Increasing(trace) && trace != []
    ensures acc.last.Some?
    ensures var w := acc.last.value;
            var n, sinceStart := CountIn(trace, |trace|, winCyc, w), trace[|trace| - 1].cyc - w * winCyc;
            && 1 <= n <= sinceStart + 1
            && (ShownSum(acc, w) <= 1.0 <==> n == 1 || n <= sinceStart)
  {
    var w := LastWindow(trace, |trace|, winCyc);
    SumIff(acc, trace, winCyc, tick, w);
    CountBound(trace, |trace|, winCyc, w);
    LastIsLatest(trace, |trace|, winCyc);
    InCycleWindow(trace[|trace| - 1].cyc, winCyc, w);
  }

  /** Such an input: two retirements in the first two cycles show two instructions per cycle. */
  method TwoPerCycle() returns (acc: WindowAcc)
    ensures acc.Valid() && acc.last == Some(0) && acc.ShownAt(0, Ipc) == 2.0
  {
    acc := new WindowAcc(10.0, 1.0);
    var trace := [Retired(0, Zero), Retired(1, Zero)];
    acc.Record(trace, 1.0, 10);
    assert CycleWindow(0, 10) == 0 && CycleWindow(1, 10) == 0;
    assert CountIn(trace, 1, 10, 0) == 1 && LastWindow(trace, 1, 10) == 0;
    assert CountIn(trace, 2, 10, 0) == 2 && LastWindow(trace, 2, 10) == 0;
    assert CountsAt(trace, |trace|, 10, acc.count, 0);
    Divisors(0, 0, 1, 10, 1.0, 10.0);
  }
}
