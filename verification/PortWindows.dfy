/** Windowed port statistics: the accumulation and the counters of `_emit_port` in
    hardware/scripts/perfetto_gen.py. */
module PortWindows {
  import opened Arith
  import opened Options

  /** A stretch [s, e) of cycles in one state: 0 idle, 1 stalled, 2 and above a handshake. */
  datatype Run = Run(s: nat, e: nat, st: nat)

  predicate Kind(r: Run, hsk: bool) {
    if hsk then r.st >= 2 else r.st == 1
  }

  function Least(a: int, b: int): int { if a <= b then a else b }

  function Most(a: int, b: int): int { if a <= b then b else a }

  function Length(r: Run): nat { Minus(r.e, r.s) }

  // ---------------------------------------------------------------------------------------------
  // What a window must hold
  // ---------------------------------------------------------------------------------------------

  /** The cycles of a run that fall into the window starting at `at`. */
  function OverlapAt(r: Run, at: nat, win: nat): nat {
    Minus(Least(r.e, at + win), Most(r.s, at))
  }

  function Overlap(r: Run, w: nat, win: nat): nat {
    OverlapAt(r, Start(0, win, w), win)
  }

  /** The cycles of one kind that the first n runs spend in window w. */
  function Cycles(rl: seq<Run>, n: nat, w: nat, win: nat, hsk: bool): nat
    requires n <= |rl|
    decreases n
  {
    if n == 0 then 0 else
      Cycles(rl, n - 1, w, win, hsk) + (if Kind(rl[n - 1], hsk) then Overlap(rl[n - 1], w, win) else 0)
  }

  /** Summed over the first m windows. */
  function CyclesUpTo(rl: seq<Run>, n: nat, m: nat, win: nat, hsk: bool): nat
    requires n <= |rl|
    decreases m
  {
    if m == 0 then 0 else CyclesUpTo(rl, n, m - 1, win, hsk) + Cycles(rl, n, m - 1, win, hsk)
  }

  function OverlapUpTo(r: Run, m: nat, win: nat): nat
    decreases m
  {
    if m == 0 then 0 else OverlapUpTo(r, m - 1, win) + Overlap(r, m - 1, win)
  }

  /** The total length of the first n runs of one kind. */
  function TotalLength(rl: seq<Run>, n: nat, hsk: bool): nat
    requires n <= |rl|
    decreases n
  {
    if n == 0 then 0 else TotalLength(rl, n - 1, hsk) + (if Kind(rl[n - 1], hsk) then Length(rl[n - 1]) else 0)
  }

  lemma {:induction false} OverlapTelescopes(r: Run, m: nat, win: nat)
    requires r.s <= r.e
    ensures OverlapUpTo(r, m, win) == Minus(Least(r.e, Start(0, win, m)), r.s)
    decreases m
  {
    if m > 0 {
      OverlapTelescopes(r, m - 1, win);
    }
  }

  lemma {:induction false} SumsSwap(rl: seq<Run>, n: nat, m: nat, win: nat, hsk: bool)
    requires 0 < n <= |rl|
    ensures CyclesUpTo(rl, n, m, win, hsk)
         == CyclesUpTo(rl, n - 1, m, win, hsk) + (if Kind(rl[n - 1], hsk) then OverlapUpTo(rl[n - 1], m, win) else 0)
    decreases m
  {
    if m > 0 {
      SumsSwap(rl, n, m - 1, win, hsk);
    }
  }

  ghost predicate EndsBefore(rl: seq<Run>, n: nat, m: nat, win: nat)
    requires n <= |rl|
  {
    forall i {:trigger rl[i]} :: 0 <= i < n && rl[i].st != 0 && rl[i].s < rl[i].e ==> rl[i].e <= Start(0, win, m)
  }

  ghost predicate Forward(rl: seq<Run>) {
    forall i {:trigger rl[i]} :: 0 <= i < |rl| ==> rl[i].s <= rl[i].e
  }

  /** Nothing is lost and nothing counted twice: the windows add up to the run lengths. */
  lemma {:induction false} Conserved(rl: seq<Run>, n: nat, m: nat, win: nat, hsk: bool)
    requires n <= |rl| && Forward(rl) && EndsBefore(rl, n, m, win)
    ensures CyclesUpTo(rl, n, m, win, hsk) == TotalLength(rl, n, hsk)
    decreases n
  {
    if n == 0 {
      NoCycles(rl, m, win, hsk);
    } else {
      Conserved(rl, n - 1, m, win, hsk);
      SumsSwap(rl, n, m, win, hsk);
      assert rl[n - 1].s <= rl[n - 1].e;
      OverlapTelescopes(rl[n - 1], m, win);
    }
  }

  lemma {:induction false} NoCycles(rl: seq<Run>, m: nat, win: nat, hsk: bool)
    ensures CyclesUpTo(rl, 0, m, win, hsk) == 0
    decreases m
  {
    if m > 0 {
      NoCycles(rl, m - 1, win, hsk);
    }
  }

  /** Runs in time order that do not overlap. */
  ghost predicate Disjoint(rl: seq<Run>) {
    forall i, j {:trigger rl[i], rl[j]} :: 0 <= i < j < |rl| ==> rl[i].e <= rl[j].s
  }

  /** A window never holds more than its size. */
  lemma {:induction false} WindowBound(rl: seq<Run>, n: nat, w: nat, win: nat)
    requires n <= |rl| && Forward(rl) && Disjoint(rl)
    ensures Cycles(rl, n, w, win, true) + Cycles(rl, n, w, win, false) <= win
    ensures n > 0 ==> Cycles(rl, n, w, win, true) + Cycles(rl, n, w, win, false)
                      <= Minus(Least(rl[n - 1].e, Start(0, win, w) + win), Start(0, win, w))
    decreases n
  {
    if n > 0 {
      WindowBound(rl, n - 1, w, win);
      assert rl[n - 1].s <= rl[n - 1].e;
      if n > 1 {
        assert rl[n - 2].e <= rl[n - 1].s;
      }
    }
  }

  lemma {:induction false} PastTheEnd(rl: seq<Run>, n: nat, m: nat, w: nat, win: nat, hsk: bool)
    requires n <= |rl| && Forward(rl) && EndsBefore(rl, n, m, win) && m <= w
    ensures Cycles(rl, n, w, win, hsk) == 0
    decreases n
  {
    if n > 0 {
      PastTheEnd(rl, n - 1, m, w, win, hsk);
      assert rl[n - 1].s <= rl[n - 1].e;
      if m < w {
        StartMono(0, win, m, w);
      }
    }
  }

  // ---------------------------------------------------------------------------------------------
  // The accumulation
  // ---------------------------------------------------------------------------------------------

  datatype Cell = Cell(hsk: nat, stall: nat)

  /** defaultdict(lambda: [0, 0]) */
  function CellAt(acc: map<nat, Cell>, w: nat): Cell {
    if w in acc then acc[w] else Cell(0, 0)
  }

  function Bump(c: Cell, r: Run, d: nat): Cell {
    if r.st >= 2 then c.(hsk := c.hsk + d) else if r.st == 1 then c.(stall := c.stall + d) else c
  }

  /** A window before the one of the start, or from the end on, shares no cycle with the run. */
  lemma {:induction false} OverlapOutside(r: Run, w: nat, win: nat, first: nat, end: nat)
    requires win > 0 && first == Div(r.s, win) && r.e <= Start(0, win, end) && (w < first || end <= w)
    ensures Overlap(r, w, win) == 0
  {
    FloorMod(r.s, win);
    if w < first {
      StartMono(0, win, w, first);
    } else if end < w {
      StartMono(0, win, end, w);
    }
  }

  /** The body of the loop over the runs. */
  method AddRun(acc0: map<nat, Cell>, maxw0: int, r: Run, win: nat) returns (acc: map<nat, Cell>, maxw: int)
    requires win > 0 && r.s <= r.e && maxw0 >= -1
    ensures forall v {:trigger CellAt(acc, v)} :: CellAt(acc, v) == Bump(CellAt(acc0, v), r, Overlap(r, v, win))
    ensures maxw >= maxw0 && (r.st != 0 && r.s < r.e ==> r.e <= Start(0, win, maxw + 1))
  {
    acc, maxw := acc0, maxw0;
    if r.st == 0 {
      return;
    }
    var first := Div(r.s, win);
    var w, at := first, Start(0, win, first);
    FloorMod(r.s, win);
    while at < r.e
      invariant first <= w && at == Start(0, win, w)
      invariant if first < w then w - 1 <= maxw else w == first
      invariant maxw >= maxw0
      invariant forall v: nat {:trigger CellAt(acc, v)} ::
                  CellAt(acc, v) == if first <= v < w then Bump(CellAt(acc0, v), r, Overlap(r, v, win)) else CellAt(acc0, v)
      decreases r.e - at
    {
      InWindow(r, w, win, first);
      var d := Least(r.e, at + win) - Most(r.s, at);
      ghost var before := acc;
      acc := acc[w := Bump(CellAt(acc, w), r, d)];
      forall v ensures CellAt(acc, v) == if v == w then Bump(CellAt(before, w), r, d) else CellAt(before, v) {}
      if w > maxw {
        maxw := w;
      }
      w, at := w + 1, at + win;
    }
    if first < w {
      EndCovered(r, w, win, maxw);
    }
    forall v: nat ensures CellAt(acc, v) == Bump(CellAt(acc0, v), r, Overlap(r, v, win)) {
      if v < first || w <= v {
        OverlapOutside(r, v, win, first, w);
      }
    }
  }

  lemma {:induction false} InWindow(r: Run, w: nat, win: nat, first: nat)
    requires win > 0 && r.s <= r.e && first == Div(r.s, win) && first <= w && Start(0, win, w) < r.e
    ensures Overlap(r, w, win) == Least(r.e, Start(0, win, w) + win) - Most(r.s, Start(0, win, w))
  {
    FloorMod(r.s, win);
    if first < w {
      StartMono(0, win, first, w);
    }
  }

  lemma {:induction false} EndCovered(r: Run, w: nat, win: nat, maxw: int)
    requires r.e <= Start(0, win, w) && w - 1 <= maxw && maxw >= -1
    ensures r.e <= Start(0, win, maxw + 1)
  {
    if w < maxw + 1 {
      StartMono(0, win, w, maxw + 1);
    }
  }

  /** The loop over the runs: every window holds exactly the cycles the runs spend in it. */
  method Accumulate(rl: seq<Run>, win: nat) returns (acc: map<nat, Cell>, maxw: int)
    requires win > 0 && Forward(rl)
    ensures forall v: nat {:trigger CellAt(acc, v)} ::
              CellAt(acc, v) == Cell(Cycles(rl, |rl|, v, win, true), Cycles(rl, |rl|, v, win, false))
    ensures maxw >= -1 && EndsBefore(rl, |rl|, maxw + 1, win)
  {
    acc, maxw := map[], -1;
    for i := 0 to |rl|
      invariant forall v: nat {:trigger CellAt(acc, v)} ::
                  CellAt(acc, v) == Cell(Cycles(rl, i, v, win, true), Cycles(rl, i, v, win, false))
      invariant maxw >= -1 && EndsBefore(rl, i, maxw + 1, win)
    {
      ghost var maxw0, acc0 := maxw, acc;
      assert rl[i].s <= rl[i].e;
      acc, maxw := AddRun(acc, maxw, rl[i], win);
      EndsOn(rl, i, maxw0, maxw, win);
      forall v: nat ensures CellAt(acc, v) == Cell(Cycles(rl, i + 1, v, win, true), Cycles(rl, i + 1, v, win, false)) {
        assert CellAt(acc0, v) == Cell(Cycles(rl, i, v, win, true), Cycles(rl, i, v, win, false));
      }
    }
  }

  lemma {:induction false} EndsOn(rl: seq<Run>, n: nat, maxw0: int, maxw: int, win: nat)
    requires n < |rl| && -1 <= maxw0 <= maxw && EndsBefore(rl, n, maxw0 + 1, win)
    requires rl[n].st != 0 && rl[n].s < rl[n].e ==> rl[n].e <= Start(0, win, maxw + 1)
    ensures EndsBefore(rl, n + 1, maxw + 1, win)
  {
    if maxw0 < maxw {
      StartMono(0, win, maxw0 + 1, maxw + 1);
    }
  }

  // ---------------------------------------------------------------------------------------------
  // Sample-and-hold counters
  // ---------------------------------------------------------------------------------------------

  /** A counter value emitted at the start of window w. */
  datatype Point = Point(w: int, val: real)

  /** What the viewer shows for window w: the last value emitted at or before it. */
  function Held(ps: seq<Point>, w: int): Option<real> {
    if ps == [] then None
    else if ps[|ps| - 1].w <= w then Some(ps[|ps| - 1].val)
    else Held(ps[..|ps| - 1], w)
  }

  ghost predicate AllBefore(ps: seq<Point>, w: int) {
    forall i {:trigger ps[i]} :: 0 <= i < |ps| ==> ps[i].w < w
  }

  lemma {:induction false} HeldAppend(ps: seq<Point>, p: Point, w: int)
    ensures Held(ps + [p], w) == if p.w <= w then Some(p.val) else Held(ps, w)
  {
    assert (ps + [p])[..|ps|] == ps;
  }

  lemma {:induction false} HeldOn(ps: seq<Point>, w: int, v: int)
    requires AllBefore(ps, w + 1) && w <= v
    ensures Held(ps, v) == Held(ps, w)
  {
  }

  /** No value is emitted twice in a row. */
  ghost predicate Changes(ps: seq<Point>) {
    forall i {:trigger ps[i]} :: 0 < i < |ps| ==> ps[i].val != ps[i - 1].val
  }

  function LastValue(ps: seq<Point>): Option<real> {
    if ps == [] then None else Some(ps[|ps| - 1].val)
  }

  /** Emission on change: `vals` from window `first` on, the drop to 0 behind them, and a 0 baseline if there are no
      values. With `force` the first and the last value are emitted in any case. The held counter is
      exact in every window. */
  method EmitCounter(first: int, vals: seq<real>, force: bool) returns (ps: seq<Point>)
    ensures forall v {:trigger Held(ps, v)} :: first <= v ==>
              Held(ps, v) == Some(if v < first + |vals| then vals[v - first] else 0.0)
    ensures !force ==> Changes(ps)
  {
    ps := [];
    for k := 0 to |vals|
      invariant forall v {:trigger Held(ps, v)} :: first <= v < first + k ==> Held(ps, v) == Some(vals[v - first])
      invariant AllBefore(ps, first + k)
      invariant k > 0 ==> LastValue(ps) == Some(vals[k - 1])
      invariant !force ==> Changes(ps)
    {
      if (force && (k == 0 || k == |vals| - 1)) || LastValue(ps) != Some(vals[k]) {
        ghost var before := ps;
        ps := ps + [Point(first + k, vals[k])];
        forall v | first <= v < first + k + 1 ensures Held(ps, v) == Some(vals[v - first]) {
          HeldAppend(before, Point(first + k, vals[k]), v);
        }
      } else if k > 0 {
        HeldOn(ps, first + k - 1, first + k);
      }
    }
    if LastValue(ps) != Some(0.0) {
      ghost var before := ps;
      ps := ps + [Point(first + |vals|, 0.0)];
      forall v | first <= v ensures Held(ps, v) == Some(if v < first + |vals| then vals[v - first] else 0.0) {
        HeldAppend(before, Point(first + |vals|, 0.0), v);
      }
    } else if |vals| > 0 {
      forall v | first + |vals| <= v ensures Held(ps, v) == Some(0.0) {
        HeldOn(ps, first + |vals| - 1, v);
      }
    }
  }

  /** The counters of one port. In every window the viewer shows the exact fraction of handshake
      cycles, of stalled cycles, and their sum. */
  method PortCounters(rl: seq<Run>, win: nat) returns (bw: seq<Point>, stall: seq<Point>, util: seq<Point>)
    requires win > 0 && Forward(rl)
    ensures forall v: nat {:trigger Held(bw, v)} {:trigger Held(stall, v)} {:trigger Held(util, v)} ::
              var h, s := Cycles(rl, |rl|, v, win, true), Cycles(rl, |rl|, v, win, false);
              && Held(bw, v) == Some(Part(h, win)) && Held(stall, v) == Some(Part(s, win))
              && Held(util, v) == Some(Part(h + s, win))
    ensures Changes(bw) && Changes(stall) && Changes(util)
  {
    var acc, maxw := Accumulate(rl, win);
    var bws := seq(maxw + 1, w requires 0 <= w => Part(CellAt(acc, w).hsk, win));
    var stalls := seq(maxw + 1, w requires 0 <= w => Part(CellAt(acc, w).stall, win));
    var utils := seq(maxw + 1, w requires 0 <= w => Part(CellAt(acc, w).hsk + CellAt(acc, w).stall, win));
    bw := EmitCounter(0, bws, false);
    stall := EmitCounter(0, stalls, false);
    util := EmitCounter(0, utils, false);
    PartZero(win);
    forall v: nat | v > maxw ensures Cycles(rl, |rl|, v, win, true) == Cycles(rl, |rl|, v, win, false) == 0 {
      PastTheEnd(rl, |rl|, maxw + 1, v, win, true);
      PastTheEnd(rl, |rl|, maxw + 1, v, win, false);
    }
  }

  function Part(x: nat, win: nat): real
    requires win > 0
  {
    x as real / win as real
  }

  lemma {:induction false} PartZero(win: nat)
    requires win > 0
    ensures Part(0, win) == 0.0
  {
  }

  /** Utilisation stays within [0, 1]. */
  lemma {:induction false} UtilAtMostOne(rl: seq<Run>, w: nat, win: nat)
    requires win > 0 && Forward(rl) && Disjoint(rl)
    ensures 0.0 <= Part(Cycles(rl, |rl|, w, win, true) + Cycles(rl, |rl|, w, win, false), win) <= 1.0
  {
    WindowBound(rl, |rl|, w, win);
    PartBounds((Cycles(rl, |rl|, w, win, true) + Cycles(rl, |rl|, w, win, false)) as real, win as real);
  }

  lemma {:induction false} Cancel(p: real, q: real, d: real)
    requires d > 0.0 && p * d <= q * d
    ensures p <= q
  {
  }

  lemma {:induction false} PartBounds(x: real, d: real)
    requires 0.0 <= x <= d && d > 0.0
    ensures 0.0 <= x / d <= 1.0
  {
    assert (x / d) * d == x;
    Cancel(x / d, 1.0, d);
    Cancel(0.0, x / d, d);
  }
}
