/** Windowed instruction and stall statistics of a core: class `WindowAcc` of
    hardware/scripts/perfetto_gen.py, over real numbers. */
module StallWindows {
  import opened Options
  import opened PortWindows

  // ---------------------------------------------------------------------------------------------
  // Windows of length width on the time axis
  // ---------------------------------------------------------------------------------------------

  function Edge(w: int, width: real): real { w as real * width }

  /** int(t // width) */
  function WindowOf(t: real, width: real): int
    requires width > 0.0
  {
    (t / width).Floor
  }

  lemma {:induction false} EdgeNext(w: int, width: real)
    ensures Edge(w + 1, width) == Edge(w, width) + width
  {
  }

  lemma {:induction false} EdgeOrder(v: int, w: int, width: real)
    requires width > 0.0
    ensures v <= w <==> Edge(v, width) <= Edge(w, width)
  {
    Product(v as real, w as real, width);
    Product(w as real, v as real, width);
  }

  lemma {:induction false} Product(p: real, q: real, d: real)
    requires d > 0.0
    ensures p < q <==> p * d < q * d
  {
    if p < q {
      assert (q - p) * d > 0.0;
    } else {
      assert (p - q) * d >= 0.0;
    }
  }

  lemma {:induction false} WindowOfFacts(t: real, width: real)
    requires width > 0.0
    ensures Edge(WindowOf(t, width), width) <= t < Edge(WindowOf(t, width) + 1, width)
  {
    assert (t / width) * width == t;
    Between(t, width, t / width, WindowOf(t, width));
  }

  lemma {:induction false} Between(t: real, width: real, q: real, f: int)
    requires width > 0.0 && t == q * width && f as real <= q < (f + 1) as real
    ensures Edge(f, width) <= t < Edge(f + 1, width)
  {
    Product(q, f as real, width);
    Product(q, (f + 1) as real, width);
  }

  /** A window border falls between t - 1 and t. */
  ghost predicate BorderInside(t: real, width: real) {
    exists m: int {:trigger Edge(m, width)} :: t - 1.0 < Edge(m, width) < t
  }

  /** Never, on a clock of at least one nanosecond. */
  lemma {:induction false} NoBorderOnTicks(c: int, n: nat, tick: real)
    requires tick >= 1.0
    ensures !BorderInside(c as real * tick, n as real * tick)
  {
    forall m: int {:trigger Edge(m, n as real * tick)} ensures !(c as real * tick - 1.0 < Edge(m, n as real * tick) < c as real * tick) {
      CastProduct(m, n);
      Regroup(m as real, n as real, tick);
      TicksApart(m * n, c, tick);
    }
  }

  lemma {:induction false} Regroup(x: real, y: real, z: real)
    ensures x * (y * z) == (x * y) * z
  {
  }

  lemma {:induction false} TicksApart(k: int, c: int, tick: real)
    requires tick >= 1.0
    ensures k as real * tick <= c as real * tick - 1.0 || k as real * tick >= c as real * tick
  {
    var d := (c - k) as real;
    assert c as real * tick == k as real * tick + d * tick;
    if k < c {
      assert (d - 1.0) * tick >= 0.0;
    } else {
      assert (-d) * tick >= 0.0;
    }
  }

  lemma {:induction false} NoBorderAt(c: int, n: nat, tick: real, t: real, width: real)
    requires tick >= 1.0 && t == c as real * tick && width == n as real * tick
    ensures !BorderInside(t, width)
  {
    NoBorderOnTicks(c, n, tick);
  }

  lemma {:induction false} CastProduct(m: int, n: nat)
    ensures (m * n) as real == m as real * n as real
    decreases n
  {
    if n > 0 {
      CastProduct(m, n - 1);
      assert m * n == m * (n - 1) + m;
      assert m as real * n as real == m as real * (n - 1) as real + m as real;
    }
  }

  // ---------------------------------------------------------------------------------------------
  // Shares of a gap
  // ---------------------------------------------------------------------------------------------

  function LeastR(a: real, b: real): real { if a <= b then a else b }

  function MostR(a: real, b: real): real { if a <= b then b else a }

  /** The time that (a, t] and window w have in common. */
  function Common(a: real, t: real, w: int, width: real): real {
    MostR(0.0, LeastR(t, Edge(w + 1, width)) - MostR(a, Edge(w, width)))
  }

  /** The share of a retirement's stalls that window w gets: the part of the gap before it that lies in
      the window, up to the window of t - 1; without a gap, all in the window of t. */
  function Share(a: real, t: real, w: int, width: real): real
    requires width > 0.0
  {
    if a >= t then if w == WindowOf(t, width) then 1.0 else 0.0
    else if w <= WindowOf(t - 1.0, width) then Common(a, t, w, width) / (t - a)
    else 0.0
  }

  function ShareFn(a: real, t: real, width: real): int -> real
    requires width > 0.0
  {
    w => Share(a, t, w, width)
  }

  /** A distribution over the windows, summed from lo up to hi. */
  function SumOver(share: int -> real, lo: int, hi: int): real
    decreases hi - lo
  {
    if hi <= lo then 0.0 else SumOver(share, lo, hi - 1) + share(hi - 1)
  }

  function Shares(a: real, t: real, lo: int, hi: int, width: real): real
    requires width > 0.0
  {
    SumOver(ShareFn(a, t, width), lo, hi)
  }

  function CommonUpTo(a: real, t: real, lo: int, hi: int, width: real): real
    decreases hi - lo
  {
    if hi <= lo then 0.0 else CommonUpTo(a, t, lo, hi - 1, width) + Common(a, t, hi - 1, width)
  }

  lemma {:induction false} CommonTelescopes(a: real, t: real, lo: int, hi: int, width: real)
    requires width > 0.0 && a < t && lo <= hi && Edge(lo, width) <= a
    ensures CommonUpTo(a, t, lo, hi, width) == MostR(0.0, LeastR(t, Edge(hi, width)) - a)
    decreases hi - lo
  {
    if lo < hi {
      CommonTelescopes(a, t, lo, hi - 1, width);
      EdgeNext(hi - 1, width);
    }
  }

  /** Up to the cut, the shares are the common time over the span. */
  lemma {:induction false} SharesOfCommon(a: real, t: real, lo: int, hi: int, width: real)
    requires width > 0.0 && a < t && hi <= WindowOf(t - 1.0, width) + 1
    ensures Shares(a, t, lo, hi, width) == CommonUpTo(a, t, lo, hi, width) / (t - a)
    decreases hi - lo
  {
    if lo < hi {
      SharesOfCommon(a, t, lo, hi - 1, width);
      QuotientSum(CommonUpTo(a, t, lo, hi - 1, width), Common(a, t, hi - 1, width), t - a);
    }
  }

  lemma {:induction false} QuotientSum(x: real, y: real, d: real)
    requires d > 0.0
    ensures (x + y) / d == x / d + y / d
  {
    assert (x / d + y / d) * d == x / d * d + y / d * d;
  }

  /** Past the cut they are 0. */
  lemma {:induction false} SharesPastCut(a: real, t: real, lo: int, cut: int, hi: int, width: real)
    requires width > 0.0 && a < t && lo <= cut <= hi && cut >= WindowOf(t - 1.0, width) + 1
    ensures Shares(a, t, lo, hi, width) == Shares(a, t, lo, cut, width)
    decreases hi - cut
  {
    if cut < hi {
      SharesPastCut(a, t, lo, cut, hi - 1, width);
    }
  }

  lemma {:induction false} OnePoint(a: real, t: real, lo: int, hi: int, width: real)
    requires width > 0.0 && a >= t
    ensures Shares(a, t, lo, hi, width) == if lo <= WindowOf(t, width) < hi then 1.0 else 0.0
    decreases hi - lo
  {
    if lo < hi {
      OnePoint(a, t, lo, hi - 1, width);
    }
  }

  /** What the shares of a gap add up to. */
  lemma {:induction false} SharesTotal(a: real, t: real, lo: int, hi: int, width: real)
    requires width > 0.0 && a < t && lo <= WindowOf(a, width) && lo <= WindowOf(t - 1.0, width) + 1 <= hi
    ensures Shares(a, t, lo, hi, width) == MostR(0.0, LeastR(t, Edge(WindowOf(t - 1.0, width) + 1, width)) - a) / (t - a)
  {
    var cut := WindowOf(t - 1.0, width) + 1;
    SharesPastCut(a, t, lo, cut, hi, width);
    SharesOfCommon(a, t, lo, cut, width);
    WindowOfFacts(a, width);
    EdgeOrder(lo, WindowOf(a, width), width);
    CommonTelescopes(a, t, lo, cut, width);
  }

  /** The window after that of t - 1 starts before t iff a border lies in between. */
  lemma {:induction false} CutIsBorder(t: real, width: real)
    requires width > 0.0
    ensures Edge(WindowOf(t - 1.0, width) + 1, width) < t <==> BorderInside(t, width)
  {
    var cut := WindowOf(t - 1.0, width) + 1;
    WindowOfFacts(t - 1.0, width);
    if m: int :| t - 1.0 < Edge(m, width) < t {
      EdgeOrder(m, cut - 1, width);
      EdgeOrder(cut, m, width);
    }
  }

  lemma {:induction false} QuotientOne(x: real, d: real)
    requires d > 0.0
    ensures x / d == 1.0 <==> x == d
  {
    assert x / d * d == x;
  }

  /** The whole of a retirement's stalls is handed out iff there is no gap, or no window border lies
      between t - 1 and t. */
  lemma {:induction false} SharesWhole(a: real, t: real, lo: int, hi: int, width: real)
    requires width > 0.0 && lo <= WindowOf(LeastR(a, t), width) && WindowOf(t, width) < hi
    ensures Shares(a, t, lo, hi, width) == 1.0 <==> a >= t || !BorderInside(t, width)
  {
    if a >= t {
      OnePoint(a, t, lo, hi, width);
    } else {
      SharesWholeGap(a, t, lo, hi, width);
    }
  }

  lemma {:induction false} SharesWholeGap(a: real, t: real, lo: int, hi: int, width: real)
    requires width > 0.0 && a < t && lo <= WindowOf(a, width) && WindowOf(t, width) < hi
    ensures Shares(a, t, lo, hi, width) == 1.0 <==> !BorderInside(t, width)
  {
    var cut := WindowOf(t - 1.0, width) + 1;
    CutIsBorder(t, width);
    WindowOfFacts(a, width);
    WindowOfFacts(t, width);
    WindowOfFacts(t - 1.0, width);
    EdgeOrder(WindowOf(t, width) + 1, cut - 1, width);
    EdgeOrder(lo, WindowOf(a, width), width);
    EdgeOrder(WindowOf(a, width), WindowOf(t, width) + 1, width);
    if cut <= lo {
      EdgeOrder(cut, lo, width);
      SharesPastCut(a, t, lo, lo, hi, width);
    } else {
      SharesTotal(a, t, lo, hi, width);
      QuotientOne(MostR(0.0, LeastR(t, Edge(cut, width)) - a), t - a);
    }
  }

  /** With a clock of half a nanosecond a stall can vanish: all its shares are 0. */
  lemma {:induction false} FastClockLosesStalls(lo: int, hi: int)
    ensures Shares(0.0, 0.5, lo, hi, 0.5) == 0.0
    decreases hi - lo
  {
    if lo < hi {
      FastClockLosesStalls(lo, hi - 1);
      assert WindowOf(0.5 - 1.0, 0.5) == -1;
      assert hi - 1 <= -1 ==> Common(0.0, 0.5, hi - 1, 0.5) == 0.0 by {
        EdgeOrder(hi, 0, 0.5);
      }
    }
  }

  // ---------------------------------------------------------------------------------------------
  // Stall counters
  // ---------------------------------------------------------------------------------------------

  datatype Counter = Tot | Raw | Lsu | Acc | Ins

  datatype Stalls = Stalls(tot: real, raw: real, lsu: real, acc: real, ins: real)

  function Get(x: Stalls, c: Counter): real {
    match c
    case Tot => x.tot
    case Raw => x.raw
    case Lsu => x.lsu
    case Acc => x.acc
    case Ins => x.ins
  }

  const Zero := Stalls(0.0, 0.0, 0.0, 0.0, 0.0)

  /** Each counter of x increased by the fraction f of that of y. */
  function PlusPart(x: Stalls, y: Stalls, f: real): Stalls {
    Stalls(x.tot + y.tot * f, x.raw + y.raw * f, x.lsu + y.lsu * f, x.acc + y.acc * f, x.ins + y.ins * f)
  }

  lemma {:induction false} PlusPartGet(x: Stalls, y: Stalls, f: real)
    ensures forall c {:trigger Get(x, c)} :: Get(PlusPart(x, y, f), c) == Get(x, c) + Get(y, c) * f
  {
  }

  function StallAt(m: map<int, Stalls>, w: int): Stalls {
    if w in m then m[w] else Zero
  }

  function StallOf(m: map<int, Stalls>, c: Counter, w: int): real {
    Get(StallAt(m, w), c)
  }

  function CountAt(m: map<int, nat>, w: int): nat {
    if w in m then m[w] else 0
  }

  /** Summed over windows lo up to hi. */
  function StallSum(m: map<int, Stalls>, c: Counter, lo: int, hi: int): real
    decreases hi - lo
  {
    if hi <= lo then 0.0 else StallSum(m, c, lo, hi - 1) + StallOf(m, c, hi - 1)
  }

  function CountSum(m: map<int, nat>, lo: int, hi: int): nat
    decreases hi - lo
  {
    if hi <= lo then 0 else CountSum(m, lo, hi - 1) + CountAt(m, hi - 1)
  }

  ghost predicate Within<T>(m: map<int, T>, lo: int, hi: int) {
    forall w {:trigger w in m} :: w in m ==> lo <= w < hi
  }

  lemma {:induction false} NoStalls(m: map<int, Stalls>, c: Counter, lo: int, hi: int)
    requires forall w {:trigger w in m} :: lo <= w < hi ==> w !in m
    ensures StallSum(m, c, lo, hi) == 0.0
    decreases hi - lo
  {
    if lo < hi {
      NoStalls(m, c, lo, hi - 1);
    }
  }

  lemma {:induction false} StallSumTail(m: map<int, Stalls>, c: Counter, lo: int, lo': int, hi: int)
    requires lo' <= lo <= hi && forall w {:trigger w in m} :: lo' <= w < lo ==> w !in m
    ensures StallSum(m, c, lo', hi) == StallSum(m, c, lo, hi)
    decreases hi - lo
  {
    if lo == hi {
      NoStalls(m, c, lo', lo);
    } else {
      StallSumTail(m, c, lo, lo', hi - 1);
    }
  }

  /** Empty windows around the occupied ones add nothing. */
  lemma {:induction false} StallSumWiden(m: map<int, Stalls>, c: Counter, lo: int, hi: int, lo': int, hi': int)
    requires Within(m, lo, hi) && lo' <= lo <= hi <= hi'
    ensures StallSum(m, c, lo', hi') == StallSum(m, c, lo, hi)
    decreases hi' - hi
  {
    if hi < hi' {
      assert hi' - 1 !in m;
      StallSumWiden(m, c, lo, hi, lo', hi' - 1);
    } else {
      StallSumTail(m, c, lo, lo', hi);
    }
  }

  lemma {:induction false} NoCounts(m: map<int, nat>, lo: int, hi: int)
    requires forall w {:trigger w in m} :: lo <= w < hi ==> w !in m
    ensures CountSum(m, lo, hi) == 0
    decreases hi - lo
  {
    if lo < hi {
      NoCounts(m, lo, hi - 1);
    }
  }

  lemma {:induction false} CountSumTail(m: map<int, nat>, lo: int, lo': int, hi: int)
    requires lo' <= lo <= hi && forall w {:trigger w in m} :: lo' <= w < lo ==> w !in m
    ensures CountSum(m, lo', hi) == CountSum(m, lo, hi)
    decreases hi - lo
  {
    if lo == hi {
      NoCounts(m, lo', lo);
    } else {
      CountSumTail(m, lo, lo', hi - 1);
    }
  }

  lemma {:induction false} CountSumWiden(m: map<int, nat>, lo: int, hi: int, lo': int, hi': int)
    requires Within(m, lo, hi) && lo' <= lo <= hi <= hi'
    ensures CountSum(m, lo', hi') == CountSum(m, lo, hi)
    decreases hi' - hi
  {
    if hi < hi' {
      assert hi' - 1 !in m;
      CountSumWiden(m, lo, hi, lo', hi' - 1);
    } else {
      CountSumTail(m, lo, lo', hi);
    }
  }

  lemma {:induction false} CountSumBump(m: map<int, nat>, w: int, lo: int, hi: int)
    ensures CountSum(m[w := CountAt(m, w) + 1], lo, hi) == CountSum(m, lo, hi) + (if lo <= w < hi then 1 else 0)
    decreases hi - lo
  {
    if lo < hi {
      CountSumBump(m, w, lo, hi - 1);
    }
  }

  ghost predicate GotShare(before: map<int, Stalls>, after: map<int, Stalls>, stalls: Stalls, share: int -> real, w: int) {
    forall c {:trigger StallOf(after, c, w)} :: StallOf(after, c, w) == StallOf(before, c, w) + Get(stalls, c) * share(w)
  }

  /** Every window got its share. */
  ghost predicate Spread(before: map<int, Stalls>, after: map<int, Stalls>, stalls: Stalls, share: int -> real) {
    forall w: int {:trigger GotShare(before, after, stalls, share, w)} :: GotShare(before, after, stalls, share, w)
  }

  lemma {:induction false} SpreadSum(before: map<int, Stalls>, after: map<int, Stalls>, stalls: Stalls, share: int -> real, c: Counter, lo: int, hi: int)
    requires Spread(before, after, stalls, share)
    ensures StallSum(after, c, lo, hi) == StallSum(before, c, lo, hi) + Get(stalls, c) * SumOver(share, lo, hi)
    decreases hi - lo
  {
    if lo < hi {
      SpreadSum(before, after, stalls, share, c, lo, hi - 1);
      assert GotShare(before, after, stalls, share, hi - 1);
      Distribute(Get(stalls, c), SumOver(share, lo, hi - 1), share(hi - 1));
    }
  }

  lemma {:induction false} Distribute(x: real, f: real, g: real)
    ensures x * (f + g) == x * f + x * g
  {
  }

  /** The start of the stalls before a retirement at t. */
  function GapStart(prevT: Option<real>, t: real): real {
    if prevT.Some? && prevT.value < t then prevT.value else t
  }

  lemma {:induction false} ShareInside(a: real, t: real, w: int, width: real)
    requires width > 0.0 && a < t && WindowOf(a, width) <= w <= WindowOf(t - 1.0, width)
    ensures LeastR(t, Edge(w + 1, width)) > MostR(a, Edge(w, width))
    ensures Share(a, t, w, width) == (LeastR(t, Edge(w + 1, width)) - MostR(a, Edge(w, width))) / (t - a)
  {
    WindowOfFacts(a, width);
    WindowOfFacts(t - 1.0, width);
    EdgeOrder(WindowOf(a, width) + 1, w + 1, width);
    EdgeOrder(w, WindowOf(t - 1.0, width), width);
    EdgeNext(w, width);
  }

  lemma {:induction false} ShareOutside(a: real, t: real, w: int, width: real)
    requires width > 0.0 && a < t && !(WindowOf(a, width) <= w <= WindowOf(t - 1.0, width))
    ensures Share(a, t, w, width) == 0.0
  {
    if w < WindowOf(a, width) {
      WindowOfFacts(a, width);
      EdgeOrder(w + 1, WindowOf(a, width), width);
      assert Common(a, t, w, width) == 0.0;
    }
  }

  /** Without a border in the way the first window of a gap gets a share. */
  lemma {:induction false} GapReached(a: real, t: real, width: real)
    requires width > 0.0 && a < t && !BorderInside(t, width)
    ensures WindowOf(a, width) <= WindowOf(t - 1.0, width)
  {
    CutIsBorder(t, width);
    WindowOfFacts(a, width);
    EdgeOrder(WindowOf(t - 1.0, width) + 1, WindowOf(a, width), width);
  }

  /** All occupied windows lie between the first and the last. */
  ghost predicate InSpan(first: Option<int>, last: Option<int>, count: map<int, nat>, stall: map<int, Stalls>) {
    if first.Some? && last.Some?
    then first.value <= last.value && Within(count, first.value, last.value + 1) && Within(stall, first.value, last.value + 1)
    else first.None? && last.None? && count == map[] && stall == map[]
  }

  function Lo(first: Option<int>): int { if first.Some? then first.value else 0 }

  function Hi(last: Option<int>): int { if last.Some? then last.value + 1 else 0 }

  function EarlierOf(first: Option<int>, w: int): Option<int> {
    if first.None? || w < first.value then Some(w) else first
  }

  function LaterOf(last: Option<int>, w: int): Option<int> {
    if last.None? || w > last.value then Some(w) else last
  }

  /** The span has grown to include window w. */
  ghost predicate Spans(first0: Option<int>, last0: Option<int>, first: Option<int>, last: Option<int>, w: int) {
    && first.Some? && last.Some? && first.value <= w <= last.value
    && (first0.Some? && last0.Some? ==> first.value <= first0.value && last0.value <= last.value)
  }

  /** One retirement adds exactly its own stalls to the sum over the windows, and one to the count. */
  lemma {:induction false} AddTotals(first0: Option<int>, last0: Option<int>, count0: map<int, nat>, stall0: map<int, Stalls>,
                                     first: Option<int>, last: Option<int>, stall: map<int, Stalls>,
                                     a: real, t: real, stalls: Stalls, width: real, c: Counter)
    requires width > 0.0 && a <= t && InSpan(first0, last0, count0, stall0)
    requires Spans(first0, last0, first, last, WindowOf(t, width))
    requires Spread(stall0, stall, stalls, ShareFn(a, t, width)) && first.value <= WindowOf(a, width)
    requires a == t || !BorderInside(t, width)
    ensures StallSum(stall, c, Lo(first), Hi(last)) == StallSum(stall0, c, Lo(first0), Hi(last0)) + Get(stalls, c)
  {
    var lo, hi := first.value, last.value + 1;
    SpreadSum(stall0, stall, stalls, ShareFn(a, t, width), c, lo, hi);
    SharesWhole(a, t, lo, hi, width);
    if first0.Some? {
      StallSumWiden(stall0, c, first0.value, last0.value + 1, lo, hi);
    } else {
      NoStalls(stall0, c, lo, hi);
    }
  }

  lemma {:induction false} AddCounts(first0: Option<int>, last0: Option<int>, count0: map<int, nat>, stall0: map<int, Stalls>,
                                     first: Option<int>, last: Option<int>, w: int)
    requires InSpan(first0, last0, count0, stall0) && Spans(first0, last0, first, last, w)
    ensures CountSum(count0[w := CountAt(count0, w) + 1], Lo(first), Hi(last)) == CountSum(count0, Lo(first0), Hi(last0)) + 1
  {
    CountSumBump(count0, w, first.value, last.value + 1);
    if first0.Some? {
      CountSumWiden(count0, first0.value, last0.value + 1, first.value, last.value + 1);
    } else {
      NoCounts(count0, first.value, last.value + 1);
    }
  }

  lemma {:induction false} AddConserves(first0: Option<int>, last0: Option<int>, count0: map<int, nat>, stall0: map<int, Stalls>,
                                        first: Option<int>, last: Option<int>, count: map<int, nat>, stall: map<int, Stalls>,
                                        a: real, t: real, stalls: Stalls, width: real)
    requires width > 0.0 && a <= t && InSpan(first0, last0, count0, stall0)
    requires Spans(first0, last0, first, last, WindowOf(t, width))
    requires count == count0[WindowOf(t, width) := CountAt(count0, WindowOf(t, width)) + 1]
    requires Spread(stall0, stall, stalls, ShareFn(a, t, width))
    requires a < t && !BorderInside(t, width) ==> first.value <= WindowOf(a, width)
    ensures CountSum(count, Lo(first), Hi(last)) == CountSum(count0, Lo(first0), Hi(last0)) + 1
    ensures a == t || !BorderInside(t, width) ==>
              forall c :: StallSum(stall, c, Lo(first), Hi(last)) == StallSum(stall0, c, Lo(first0), Hi(last0)) + Get(stalls, c)
  {
    AddCounts(first0, last0, count0, stall0, first, last, WindowOf(t, width));
    if a == t || !BorderInside(t, width) {
      forall c ensures StallSum(stall, c, Lo(first), Hi(last)) == StallSum(stall0, c, Lo(first0), Hi(last0)) + Get(stalls, c) {
        AddTotals(first0, last0, count0, stall0, first, last, stall, a, t, stalls, width, c);
      }
    }
  }

  lemma {:induction false} TakesShare(before: map<int, Stalls>, after: map<int, Stalls>, stalls: Stalls, share: int -> real, w: int)
    requires || StallAt(after, w) == PlusPart(StallAt(before, w), stalls, share(w))
             || (StallAt(after, w) == StallAt(before, w) && share(w) == 0.0)
    ensures GotShare(before, after, stalls, share, w)
  {
    PlusPartGet(StallAt(before, w), stalls, share(w));
  }

  lemma {:induction false} SpreadWindows(before: map<int, Stalls>, after: map<int, Stalls>, a: real, t: real, stalls: Stalls, width: real)
    requires width > 0.0 && a < t
    requires forall w: int {:trigger StallAt(after, w)} ::
               StallAt(after, w) == if WindowOf(a, width) <= w <= WindowOf(t - 1.0, width)
                                    then PlusPart(StallAt(before, w), stalls, ShareFn(a, t, width)(w)) else StallAt(before, w)
    ensures Spread(before, after, stalls, ShareFn(a, t, width))
  {
    forall w: int ensures GotShare(before, after, stalls, ShareFn(a, t, width), w) {
      if !(WindowOf(a, width) <= w <= WindowOf(t - 1.0, width)) {
        ShareOutside(a, t, w, width);
        assert ShareFn(a, t, width)(w) == 0.0;
      }
      TakesShare(before, after, stalls, ShareFn(a, t, width), w);
    }
  }

  lemma {:induction false} SpreadPoint(before: map<int, Stalls>, after: map<int, Stalls>, t: real, stalls: Stalls, width: real)
    requires width > 0.0
    requires after == before[WindowOf(t, width) := PlusPart(StallAt(before, WindowOf(t, width)), stalls, 1.0)]
    ensures Spread(before, after, stalls, ShareFn(t, t, width))
  {
    forall w: int ensures GotShare(before, after, stalls, ShareFn(t, t, width), w) {
      TakesShare(before, after, stalls, ShareFn(t, t, width), w);
    }
  }

  /** One retired instruction: its cycle and the stall cycles charged to it. */
  datatype Retired = Retired(cyc: int, stalls: Stalls)

  function AllStalls(trace: seq<Retired>, c: Counter, n: nat): real
    requires n <= |trace|
    decreases n
  {
    if n == 0 then 0.0 else AllStalls(trace, c, n - 1) + Get(trace[n - 1].stalls, c)
  }

  /** When an instruction retired, in nanoseconds. */
  function TimeOf(r: Retired, tick: real): real { r.cyc as real * tick }

  /** The window of cycle c. */
  function CycleWindow(c: int, winCyc: nat): int
    requires winCyc > 0
  {
    c / winCyc
  }

  /** How many of the first n retirements fall into window w. */
  function CountIn(trace: seq<Retired>, n: nat, winCyc: nat, w: int): nat
    requires n <= |trace| && winCyc > 0
    decreases n
  {
    if n == 0 then 0 else CountIn(trace, n - 1, winCyc, w) + (if CycleWindow(trace[n - 1].cyc, winCyc) == w then 1 else 0)
  }

  /** The latest window of the first n retirements. */
  function LastWindow(trace: seq<Retired>, n: nat, winCyc: nat): int
    requires 0 < n <= |trace| && winCyc > 0
    decreases n
  {
    var w := CycleWindow(trace[n - 1].cyc, winCyc);
    if n == 1 then w else PortWindows.Most(LastWindow(trace, n - 1, winCyc), w)
  }

  predicate NonNegative(x: Stalls) {
    x.tot >= 0.0 && x.raw >= 0.0 && x.lsu >= 0.0 && x.acc >= 0.0 && x.ins >= 0.0
  }

  ghost predicate NonNegativeAt(m: map<int, Stalls>, w: int) {
    NonNegative(StallAt(m, w))
  }

  ghost predicate AllNonNegative(m: map<int, Stalls>) {
    forall w: int {:trigger NonNegativeAt(m, w)} :: NonNegativeAt(m, w)
  }

  ghost predicate NonNegativeTrace(trace: seq<Retired>) {
    forall i {:trigger trace[i]} :: 0 <= i < |trace| ==> NonNegative(trace[i].stalls)
  }

  ghost predicate CountsAt(trace: seq<Retired>, n: nat, winCyc: nat, count: map<int, nat>, w: int)
    requires n <= |trace| && winCyc > 0
  {
    CountAt(count, w) == CountIn(trace, n, winCyc, w)
  }

  /** What an accumulator holds of the first n retirements of a trace. */
  ghost predicate Holds(trace: seq<Retired>, n: nat, winCyc: nat, tick: real, count: map<int, nat>, stall: map<int, Stalls>, last: Option<int>, lastT: Option<real>)
    requires n <= |trace| && winCyc > 0
  {
    && (forall w: int {:trigger CountsAt(trace, n, winCyc, count, w)} :: CountsAt(trace, n, winCyc, count, w))
    && last == (if n == 0 then None else Some(LastWindow(trace, n, winCyc)))
    && lastT == (if n == 0 then None else Some(TimeOf(trace[n - 1], tick)))
    && (NonNegativeTrace(trace) ==> AllNonNegative(stall))
  }

  lemma {:induction false} NothingHeld(trace: seq<Retired>, winCyc: nat, tick: real, count: map<int, nat>, stall: map<int, Stalls>, last: Option<int>, lastT: Option<real>)
    requires winCyc > 0 && count == map[] && stall == map[] && last.None? && lastT.None?
    ensures Holds(trace, 0, winCyc, tick, count, stall, last, lastT)
  {
  }

  lemma {:induction false} HoldsOn(trace: seq<Retired>, i: nat, winCyc: nat, tick: real, width: real, prevT: Option<real>,
                                   count0: map<int, nat>, stall0: map<int, Stalls>, last0: Option<int>, lastT0: Option<real>,
                                   count: map<int, nat>, stall: map<int, Stalls>, last: Option<int>, lastT: Option<real>)
    requires i < |trace| && winCyc > 0 && tick > 0.0 && width > 0.0 && width == winCyc as real * tick
    requires Holds(trace, i, winCyc, tick, count0, stall0, last0, lastT0)
    requires var t := TimeOf(trace[i], tick);
             && count == count0[WindowOf(t, width) := CountAt(count0, WindowOf(t, width)) + 1]
             && Spread(stall0, stall, trace[i].stalls, ShareFn(GapStart(prevT, t), t, width))
             && last == LaterOf(last0, WindowOf(t, width)) && lastT == Some(t)
    ensures Holds(trace, i + 1, winCyc, tick, count, stall, last, lastT)
  {
    var t := TimeOf(trace[i], tick);
    WindowOfTick(trace[i].cyc, winCyc, tick, t, width);
    var n := i + 1;
    forall w: int ensures CountsAt(trace, n, winCyc, count, w) {
      assert CountsAt(trace, i, winCyc, count0, w);
    }
    if NonNegativeTrace(trace) {
      assert NonNegative(trace[i].stalls);
      SpreadNonNegative(stall0, stall, trace[i].stalls, GapStart(prevT, t), t, width);
    }
    assert last == Some(LastWindow(trace, n, winCyc));
    assert lastT == Some(TimeOf(trace[n - 1], tick));
    assert Holds(trace, n, winCyc, tick, count, stall, last, lastT);
  }

  /** On whole cycles the window of a time is that of its cycle. */
  lemma {:induction false} WindowOfTick(c: int, winCyc: nat, tick: real, t: real, width: real)
    requires winCyc > 0 && tick > 0.0 && t == c as real * tick && width > 0.0 && width == winCyc as real * tick
    ensures WindowOf(t, width) == CycleWindow(c, winCyc)
  {
    var q := c / winCyc;
    assert q * winCyc <= c < q * winCyc + winCyc;
    EdgeOfTick(q, winCyc, tick, width);
    EdgeNext(q, width);
    TickOrder(q * winCyc, c, tick);
    TickOrder(c, (q + 1) * winCyc, tick);
    EdgeOfTick(q + 1, winCyc, tick, width);
    assert (q + 1) * winCyc == q * winCyc + winCyc;
    WindowOfFacts(t, width);
    EdgeOrder(WindowOf(t, width) + 1, q, width);
    EdgeOrder(q + 1, WindowOf(t, width), width);
  }

  lemma {:induction false} EdgeOfTick(q: int, winCyc: nat, tick: real, width: real)
    requires width == winCyc as real * tick
    ensures Edge(q, width) == (q * winCyc) as real * tick
  {
    CastProduct(q, winCyc);
    Regroup(q as real, winCyc as real, tick);
  }

  lemma {:induction false} TickOrder(a: int, b: int, tick: real)
    requires tick > 0.0
    ensures a <= b <==> a as real * tick <= b as real * tick
    ensures a < b <==> a as real * tick < b as real * tick
  {
    Product(a as real, b as real, tick);
    Product(b as real, a as real, tick);
  }

  lemma {:induction false} CutBelow(t: real, width: real)
    requires width > 0.0
    ensures WindowOf(t - 1.0, width) <= WindowOf(t, width)
  {
    WindowOfFacts(t, width);
    WindowOfFacts(t - 1.0, width);
    EdgeOrder(WindowOf(t, width) + 1, WindowOf(t - 1.0, width), width);
  }

  lemma {:induction false} ShareNonNegative(a: real, t: real, w: int, width: real)
    requires width > 0.0
    ensures Share(a, t, w, width) >= 0.0
  {
    if a < t && w <= WindowOf(t - 1.0, width) {
      QuotientNonNegative(Common(a, t, w, width), t - a);
    }
  }

  lemma {:induction false} QuotientNonNegative(x: real, d: real)
    requires x >= 0.0 && d > 0.0
    ensures x / d >= 0.0
  {
    Cancel(0.0, x / d, d);
  }

  lemma {:induction false} SpreadNonNegative(before: map<int, Stalls>, after: map<int, Stalls>, stalls: Stalls, a: real, t: real, width: real)
    requires width > 0.0 && AllNonNegative(before) && NonNegative(stalls) && Spread(before, after, stalls, ShareFn(a, t, width))
    ensures AllNonNegative(after)
  {
    forall w: int ensures NonNegativeAt(after, w) {
      assert NonNegativeAt(before, w);
      assert GotShare(before, after, stalls, ShareFn(a, t, width), w);
      ShareNonNegative(a, t, w, width);
      SumNonNegative(before, after, stalls, ShareFn(a, t, width), w);
    }
  }

  lemma {:induction false} SumNonNegative(before: map<int, Stalls>, after: map<int, Stalls>, stalls: Stalls, share: int -> real, w: int)
    requires NonNegativeAt(before, w) && NonNegative(stalls) && share(w) >= 0.0 && GotShare(before, after, stalls, share, w)
    ensures NonNegativeAt(after, w)
  {
    forall c ensures StallOf(after, c, w) >= 0.0 {
      assert Get(stalls, c) >= 0.0 && StallOf(before, c, w) >= 0.0;
      ProductNonNegative(Get(stalls, c), share(w));
    }
    assert StallOf(after, Tot, w) >= 0.0 && StallOf(after, Raw, w) >= 0.0 && StallOf(after, Lsu, w) >= 0.0;
    assert StallOf(after, Acc, w) >= 0.0 && StallOf(after, Ins, w) >= 0.0;
  }

  lemma {:induction false} ProductNonNegative(x: real, y: real)
    requires x >= 0.0 && y >= 0.0
    ensures x * y >= 0.0
  {
  }

  /** The cycles a window is divided by; the last window may be partial. */
  function ActiveCycles(w: int, last: Option<int>, lastT: Option<real>, width: real, clk: real): (cyc: real)
    requires width > 0.0 && clk > 0.0
    ensures cyc > 0.0
  {
    QuotientPositive(width, clk);
    if last == Some(w) && lastT.Some? then MostR(1.0, (lastT.value - Edge(w, width)) / clk) else width / clk
  }

  class WindowAcc {
    const width: real
    const clk: real
    var count: map<int, nat>
    var stall: map<int, Stalls>
    var first: Option<int>
    var last: Option<int>
    var lastT: Option<real>

    ghost predicate Valid()
      reads this
    {
      width > 0.0 && clk > 0.0 && InSpan(first, last, count, stall)
    }

    /** Sum of each stall counter over the windows that are emitted. */
    ghost function StallTotal(c: Counter): real
      reads this
    {
      StallSum(stall, c, Lo(first), Hi(last))
    }

    ghost function CountTotal(): nat
      reads this
    {
      CountSum(count, Lo(first), Hi(last))
    }

    constructor (width: real, clk: real)
      requires width > 0.0 && clk > 0.0
      ensures Valid() && this.width == width && this.clk == clk
      ensures count == map[] && stall == map[] && first.None? && lastT.None?
      ensures CountTotal() == 0 && forall c :: StallTotal(c) == 0.0
    {
      this.width, this.clk := width, clk;
      count, stall, first, last, lastT := map[], map[], None, None, None;
    }

    method Touch(w: int)
      modifies this`first, this`last
      ensures first == EarlierOf(old(first), w) && last == LaterOf(old(last), w)
    {
      if first.None? || w < first.value {
        first := Some(w);
      }
      if last.None? || w > last.value {
        last := Some(w);
      }
    }

    method AddStall(w: int, stalls: Stalls, frac: real)
      modifies this`stall, this`first, this`last
      ensures stall == old(stall)[w := PlusPart(StallAt(old(stall), w), stalls, frac)]
      ensures first == EarlierOf(old(first), w) && last == LaterOf(old(last), w)
    {
      stall := stall[w := PlusPart(StallAt(stall, w), stalls, frac)];
      Touch(w);
    }

    /** The loop of `add` over the windows of a gap. */
    method SpreadGap(a: real, t: real, stalls: Stalls)
      requires Valid() && a < t && first.Some? && WindowOf(t, width) <= last.value
      modifies this`stall, this`first, this`last
      ensures Valid() && Spread(old(stall), stall, stalls, ShareFn(a, t, width))
      ensures first.Some? && first.value <= old(first.value) && last == old(last)
      ensures WindowOf(a, width) <= WindowOf(t - 1.0, width) ==> first.value <= WindowOf(a, width)
    {
      var span := t - a;
      var lo, cut := WindowOf(a, width), WindowOf(t - 1.0, width);
      var ww := lo;
      CutBelow(t, width);
      while ww <= cut
        invariant lo <= ww && Valid()
        invariant first.Some? && first.value <= old(first.value) && last == old(last)
        invariant lo < ww ==> first.value <= lo
        invariant forall w: int {:trigger StallAt(stall, w)} ::
                    StallAt(stall, w) == if lo <= w < ww then PlusPart(StallAt(old(stall), w), stalls, ShareFn(a, t, width)(w))
                                         else StallAt(old(stall), w)
        decreases cut - ww
      {
        var from := MostR(a, Edge(ww, width));
        var to := LeastR(t, Edge(ww + 1, width));
        ShareInside(a, t, ww, width);
        if to > from {
          ghost var before := stall;
          AddStall(ww, stalls, (to - from) / span);
          forall w: int ensures StallAt(stall, w) == if w == ww then PlusPart(StallAt(before, ww), stalls, ShareFn(a, t, width)(ww)) else StallAt(before, w) {}
        }
        ww := ww + 1;
      }
      SpreadWindows(old(stall), stall, a, t, stalls, width);
    }

    /** The statements of `add`. */
    method Enter(prevT: Option<real>, t: real, stalls: Stalls)
      requires Valid()
      modifies this
      ensures Valid() && lastT == Some(t)
      ensures count == old(count)[WindowOf(t, width) := CountAt(old(count), WindowOf(t, width)) + 1]
      ensures Spread(old(stall), stall, stalls, ShareFn(GapStart(prevT, t), t, width))
      ensures Spans(old(first), old(last), first, last, WindowOf(t, width)) && last == LaterOf(old(last), WindowOf(t, width))
      ensures GapStart(prevT, t) < t && !BorderInside(t, width) ==> first.value <= WindowOf(GapStart(prevT, t), width)
    {
      var w := WindowOf(t, width);
      count := count[w := CountAt(count, w) + 1];
      Touch(w);
      lastT := Some(t);
      var a := GapStart(prevT, t);
      if a >= t {
        AddStall(w, stalls, 1.0);
        SpreadPoint(old(stall), stall, t, stalls, width);
      } else {
        SpreadGap(a, t, stalls);
        if !BorderInside(t, width) {
          GapReached(a, t, width);
        }
      }
    }

    /** add: an instruction retired at t. The windows share its stalls by overlap with the gap; no stall
        and no retirement is lost unless a window border lies between t - 1 and t. */
    method Add(prevT: Option<real>, t: real, stalls: Stalls)
      requires Valid()
      modifies this
      ensures Valid() && lastT == Some(t) && first.Some? && last == LaterOf(old(last), WindowOf(t, width))
      ensures count == old(count)[WindowOf(t, width) := CountAt(old(count), WindowOf(t, width)) + 1]
      ensures Spread(old(stall), stall, stalls, ShareFn(GapStart(prevT, t), t, width))
      ensures CountTotal() == old(CountTotal()) + 1
      ensures GapStart(prevT, t) == t || !BorderInside(t, width) ==>
                forall c :: StallTotal(c) == old(StallTotal(c)) + Get(stalls, c)
    {
      Enter(prevT, t, stalls);
      AddConserves(old(first), old(last), old(count), old(stall), first, last, count, stall, GapStart(prevT, t), t, stalls, width);
    }

    /** The loop over the trace of a core, with windows of whole cycles. The windows hold every retirement
        of the trace and, with a clock of at least one nanosecond, every stall cycle. */
    method Record(trace: seq<Retired>, tick: real, winCyc: nat)
      requires Valid() && first.None? && lastT.None? && tick > 0.0 && winCyc > 0 && width == winCyc as real * tick && clk == tick
      modifies this
      ensures Valid() && CountTotal() == |trace|
      ensures tick >= 1.0 ==> forall c :: StallTotal(c) == AllStalls(trace, c, |trace|)
      ensures Holds(trace, |trace|, winCyc, tick, count, stall, last, lastT)
    {
      var prevT: Option<real> := None;
      NothingHeld(trace, winCyc, tick, count, stall, last, lastT);
      for i := 0 to |trace|
        invariant Valid() && CountTotal() == i
        invariant tick >= 1.0 ==> forall c :: StallTotal(c) == AllStalls(trace, c, i)
        invariant Holds(trace, i, winCyc, tick, count, stall, last, lastT)
      {
        var t := TimeOf(trace[i], tick);
        ghost var count0, stall0, last0, lastT0 := count, stall, last, lastT;
        if tick >= 1.0 {
          NoBorderAt(trace[i].cyc, winCyc, tick, t, width);
        }
        Add(prevT, t, trace[i].stalls);
        HoldsOn(trace, i, winCyc, tick, width, prevT, count0, stall0, last0, lastT0, count, stall, last, lastT);
        prevT := Some(t);
      }
    }

    function ShownAt(w: int, m: Metric): real
      reads this
      requires width > 0.0 && clk > 0.0
    {
      Shown(Capped(StallAt(stall, w), CountAt(count, w), ActiveCycles(w, last, lastT, width, clk)), m)
    }

    /** emit, for one metric: the held counter shows in every window from the first on its value, and 0
        after the last. */
    method Emit(m: Metric) returns (ps: seq<Point>)
      requires Valid()
      ensures first.None? ==> ps == []
      ensures first.Some? ==> forall v {:trigger Held(ps, v)} :: first.value <= v ==>
                Held(ps, v) == Some(if v <= last.value then ShownAt(v, m) else 0.0)
    {
      if first.None? {
        return [];
      }
      var vals: seq<real> := [];
      for k := 0 to last.value + 1 - first.value
        invariant |vals| == k
        invariant forall j {:trigger vals[j]} :: 0 <= j < k ==> vals[j] == ShownAt(first.value + j, m)
      {
        vals := vals + [ShownAt(first.value + k, m)];
      }
      ps := EmitCounter(first.value, vals, true);
    }
  }

  // ---------------------------------------------------------------------------------------------
  // Capping
  // ---------------------------------------------------------------------------------------------

  lemma {:induction false} QuotientPositive(x: real, d: real)
    requires x > 0.0 && d > 0.0
    ensures x / d > 0.0
  {
    assert x / d * d == x;
  }

  /** The values of one window; stalls.tot is the sum of the four components. */
  datatype Values = Values(ipc: real, stalls: Stalls)

  datatype Metric = Ipc | Stall(c: Counter)

  function Shown(v: Values, m: Metric): real {
    match m
    case Ipc => v.ipc
    case Stall(c) => Get(v.stalls, c)
  }

  /** The measured stall fraction of a window. */
  function Measured(st: Stalls, cyc: real): real
    requires cyc > 0.0
  {
    (st.raw + st.lsu + st.acc + st.ins) / cyc
  }

  /** The values of a window with stalls st and n retirements in cyc cycles. */
  function Capped(st: Stalls, n: nat, cyc: real): Values
    requires cyc > 0.0
  {
    var ipc := n as real / cyc;
    var nonretire := MostR(0.0, 1.0 - ipc);
    var raw := Measured(st, cyc);
    var scale := if raw > nonretire then nonretire / raw else 1.0;
    var r, l, a, i := st.raw / cyc * scale, st.lsu / cyc * scale, st.acc / cyc * scale, st.ins / cyc * scale;
    Values(ipc, Stalls(r + l + a + i, r, l, a, i))
  }

  lemma {:induction false} PartsSum(r: real, l: real, a: real, i: real, cyc: real, f: real)
    requires cyc > 0.0
    ensures r / cyc * f + l / cyc * f + a / cyc * f + i / cyc * f == (r + l + a + i) / cyc * f
  {
    QuotientSum(r, l, cyc);
    QuotientSum(r + l, a, cyc);
    QuotientSum(r + l + a, i, cyc);
    Factor(r / cyc, l / cyc, a / cyc, i / cyc, f);
  }

  lemma {:induction false} Factor(r: real, l: real, a: real, i: real, f: real)
    ensures r * f + l * f + a * f + i * f == (r + l + a + i) * f
  {
  }

  /** The stall components never exceed the cycles without a retirement: their sum is the smaller of
      what was measured and that budget. */
  lemma {:induction false} CapTotal(st: Stalls, n: nat, cyc: real)
    requires cyc > 0.0
    ensures var v := Capped(st, n, cyc);
            v.stalls.tot == v.stalls.raw + v.stalls.lsu + v.stalls.acc + v.stalls.ins
            == LeastR(Measured(st, cyc), MostR(0.0, 1.0 - v.ipc))
  {
    var v := Capped(st, n, cyc);
    var nonretire, raw := MostR(0.0, 1.0 - v.ipc), Measured(st, cyc);
    var scale := if raw > nonretire then nonretire / raw else 1.0;
    PartsSum(st.raw, st.lsu, st.acc, st.ins, cyc, scale);
    assert raw > nonretire ==> raw * (nonretire / raw) == nonretire;
  }

  /** Retirements and stalls of a window exceed its cycles exactly when it is divided by fewer cycles than
      it has retirements; they fill it exactly when that is not so and the measured stalls fill the budget. */
  lemma {:induction false} CapBudget(st: Stalls, n: nat, cyc: real)
    requires cyc > 0.0 && st.raw + st.lsu + st.acc + st.ins >= 0.0
    ensures var v := Capped(st, n, cyc);
            && (v.ipc + v.stalls.tot <= 1.0 <==> n as real <= cyc)
            && (v.ipc + v.stalls.tot == 1.0 <==> n as real <= cyc && Measured(st, cyc) >= 1.0 - v.ipc)
            && (n as real > cyc ==> v.ipc > 1.0 && v.stalls.tot == 0.0)
  {
    CapTotal(st, n, cyc);
    QuotientNonNegative(st.raw + st.lsu + st.acc + st.ins, cyc);
    OverOne(n as real, cyc);
  }

  lemma {:induction false} OverOne(x: real, d: real)
    requires d > 0.0
    ensures x / d <= 1.0 <==> x <= d
  {
    assert x / d * d == x;
    if x <= d {
      Cancel(x / d, 1.0, d);
    }
  }

  lemma {:induction false} AtMostOne(x: real, y: real)
    requires 0.0 <= x < y
    ensures 0.0 <= x / y < 1.0
  {
    PartBounds(x, y);
    QuotientOne(x, y);
  }

  /** Capping keeps the ratio of the components: all four are scaled by one factor, which is 1 unless
      they exceed the budget. */
  lemma {:induction false} CapRatio(st: Stalls, n: nat, cyc: real) returns (f: real)
    requires cyc > 0.0
    ensures 0.0 <= f <= 1.0 && (f < 1.0 <==> Measured(st, cyc) > MostR(0.0, 1.0 - Capped(st, n, cyc).ipc))
    ensures Capped(st, n, cyc).stalls.raw == st.raw / cyc * f && Capped(st, n, cyc).stalls.lsu == st.lsu / cyc * f
    ensures Capped(st, n, cyc).stalls.acc == st.acc / cyc * f && Capped(st, n, cyc).stalls.ins == st.ins / cyc * f
  {
    var nonretire := MostR(0.0, 1.0 - n as real / cyc);
    f := 1.0;
    if Measured(st, cyc) > nonretire {
      f := nonretire / Measured(st, cyc);
      AtMostOne(nonretire, Measured(st, cyc));
    }
  }
}
