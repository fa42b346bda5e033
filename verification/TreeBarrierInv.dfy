/** The inductive invariant of the tree barrier. */
module TreeBarrierInv {
  import opened Arith
  import opened TreeBarrier

  /** Three heights of a core in the open round: the counters it has incremented, the counters it
      has reset, and the counters at which it was recognised as last. */
  datatype Mark = Arrived | Won | Claimed

  predicate InRound(s: State, c: nat)
    requires c < |s.calls| && c < |s.rounds|
  {
    s.calls[c] == s.rounds[c] + 1
  }

  function Height(s: State, m: Mark, c: nat): nat
    requires c < |s.calls| && c < |s.rounds| && c < |s.pc|
  {
    if !InRound(s, c) then 0 else
      match s.pc[c]
      case Arrive(l) => l
      case Reset(l) => if m.Won? then l else l + 1
      case Sleep(l) => if m.Arrived? then l + 1 else l
      case _ => 0
  }

  predicate In(s: State, hi: nat) {
    hi <= |s.calls| && hi <= |s.rounds| && hi <= |s.pc|
  }

  /** How many cores of [lo, hi) have a height above l. */
  function Count(s: State, m: Mark, l: nat, lo: nat, hi: nat): (n: nat)
    requires lo <= hi && In(s, hi)
    ensures n <= hi - lo
    decreases hi - lo
  {
    if lo == hi then 0
    else Count(s, m, l, lo, hi - 1) + (if Height(s, m, hi - 1) > l then 1 else 0)
  }

  function At(t: Tree, s: State, m: Mark, l: nat, lo: nat): nat
    requires t.Shape() && Sized(t, s) && t.IsNode(l, lo)
  {
    Count(s, m, l, lo, t.Hi(l, lo))
  }

  /** A counter holds the cores behind its arrivals until it is reset, and exactly one core is
      recognised as last, exactly when every child has arrived. */
  ghost predicate NodeInv(t: Tree, s: State, l: nat, lo: nat)
    requires t.Valid() && Sized(t, s) && t.IsNode(l, lo)
  {
    && At(t, s, Claimed, l, lo) == (if At(t, s, Arrived, l, lo) == t.radices[l] then 1 else 0)
    && s.mem[t.Cell(l, lo)] == (if At(t, s, Won, l, lo) == 1 then 0 else Start(0, t.sizes[l], At(t, s, Arrived, l, lo)))
  }

  /** Each core is in the open round, or has yet to be woken from the last one, or is back out. */
  ghost predicate CoreInv(t: Tree, s: State, c: nat)
    requires t.Shape() && Sized(t, s) && c < t.cores
  {
    var r, k, woken := s.rounds[c], s.writes[c], t.WakePos(c) < s.writes[c];
    && k <= t.Writes()
    && (s.pc[c].Waking? ==> s.pc[c].write == k < t.Writes() && s.calls[c] == r)
    && (if s.calls[c] == r + 1 then
          && woken && s.pending[c] == 0 && s.rets[c] == r
          && (s.pc[c].Arrive? || s.pc[c].Reset? || s.pc[c].Sleep?) && s.pc[c].level < t.Levels()
        else
          && s.calls[c] == r
          && (s.pc[c].Out? ==> woken && s.pending[c] == 0 && s.rets[c] == r)
          && (!s.pc[c].Out? ==>
                && (s.pc[c].Sleep? || s.pc[c].Waking?)
                && s.pending[c] == (if woken then 1 else 0) && s.rets[c] + 1 == r))
  }

  ghost predicate Mates(t: Tree, c: nat, d: nat)
    requires t.Shape()
  {
    c < t.cores && d < t.cores && t.Base(c) == t.Base(d)
  }

  /** Team mates agree on their round, and an unfinished release has its one waker. */
  ghost predicate TeamInv(t: Tree, s: State)
    requires t.Shape() && Sized(t, s)
  {
    && (forall c: nat, d: nat :: Mates(t, c, d) ==> s.rounds[c] == s.rounds[d] && s.writes[c] == s.writes[d])
    && (forall c: nat, d: nat :: Mates(t, c, d) && s.pc[c].Waking? && s.pc[d].Waking? ==> c == d)
    && (forall c: nat :: c < t.cores && s.writes[c] < t.Writes() ==> exists d: nat :: Mates(t, c, d) && s.pc[d].Waking?)
  }

  ghost predicate Inv(t: Tree, s: State) {
    && t.Valid() && Sized(t, s)
    && (forall l, lo {:trigger NodeInv(t, s, l, lo)} :: t.IsNode(l, lo) ==> NodeInv(t, s, l, lo))
    && (forall c {:trigger CoreInv(t, s, c)} :: 0 <= c < t.cores ==> CoreInv(t, s, c))
    && TeamInv(t, s)
  }

  // ---------------------------------------------------------------------------------------------
  // Counting
  // ---------------------------------------------------------------------------------------------

  lemma {:induction false} CountSplit(s: State, m: Mark, l: nat, lo: nat, mid: nat, hi: nat)
    requires lo <= mid <= hi && In(s, hi)
    ensures Count(s, m, l, lo, hi) == Count(s, m, l, lo, mid) + Count(s, m, l, mid, hi)
    decreases hi - mid
  {
    if mid < hi {
      CountSplit(s, m, l, lo, mid, hi - 1);
    }
  }

  /** If height m above l in s implies height m' above l' in s', the counts are ordered. */
  lemma {:induction false} CountImplies(s: State, m: Mark, l: nat, s': State, m': Mark, l': nat, lo: nat, hi: nat)
    requires lo <= hi && In(s, hi) && In(s', hi)
    requires forall i :: lo <= i < hi && Height(s, m, i) > l ==> Height(s', m', i) > l'
    ensures Count(s, m, l, lo, hi) <= Count(s', m', l', lo, hi)
    decreases hi - lo
  {
    if lo < hi {
      CountImplies(s, m, l, s', m', l', lo, hi - 1);
    }
  }

  lemma {:induction false} CountSame(s: State, s': State, m: Mark, l: nat, lo: nat, hi: nat)
    requires lo <= hi && In(s, hi) && In(s', hi)
    requires forall i :: lo <= i < hi ==> (Height(s, m, i) > l <==> Height(s', m, i) > l)
    ensures Count(s, m, l, lo, hi) == Count(s', m, l, lo, hi)
  {
    CountImplies(s, m, l, s', m, l, lo, hi);
    CountImplies(s', m, l, s, m, l, lo, hi);
  }

  /** One core rises above l. */
  lemma {:induction false} CountRaise(s: State, s': State, m: Mark, l: nat, lo: nat, hi: nat, c: nat)
    requires lo <= c < hi && In(s, hi) && In(s', hi)
    requires Height(s, m, c) <= l < Height(s', m, c)
    requires forall i :: lo <= i < hi && i != c ==> (Height(s, m, i) > l <==> Height(s', m, i) > l)
    ensures Count(s', m, l, lo, hi) == Count(s, m, l, lo, hi) + 1
  {
    CountSplit(s, m, l, lo, c + 1, hi);
    CountSplit(s', m, l, lo, c + 1, hi);
    CountSame(s, s', m, l, lo, c);
    CountSame(s, s', m, l, c + 1, hi);
  }

  lemma {:induction false} CountHas(s: State, m: Mark, l: nat, lo: nat, hi: nat, c: nat)
    requires lo <= c < hi && In(s, hi) && Height(s, m, c) > l
    ensures Count(s, m, l, lo, hi) >= 1
  {
    CountSplit(s, m, l, lo, c + 1, hi);
  }

  lemma {:induction false} CountTwo(s: State, m: Mark, l: nat, lo: nat, hi: nat, c: nat, d: nat)
    requires lo <= c < hi && lo <= d < hi && c != d && In(s, hi)
    requires Height(s, m, c) > l && Height(s, m, d) > l
    ensures Count(s, m, l, lo, hi) >= 2
  {
    var x, y := if c < d then c else d, if c < d then d else c;
    CountSplit(s, m, l, lo, y, hi);
    CountHas(s, m, l, lo, y, x);
    CountHas(s, m, l, y, hi, y);
  }

  lemma {:induction false} CountNone(s: State, m: Mark, l: nat, lo: nat, hi: nat)
    requires lo <= hi && In(s, hi)
    requires forall i :: lo <= i < hi ==> Height(s, m, i) <= l
    ensures Count(s, m, l, lo, hi) == 0
    decreases hi - lo
  {
    if lo < hi {
      CountNone(s, m, l, lo, hi - 1);
    }
  }

  lemma {:induction false} CountWitness(s: State, m: Mark, l: nat, lo: nat, hi: nat) returns (c: nat)
    requires lo <= hi && In(s, hi) && Count(s, m, l, lo, hi) > 0
    ensures lo <= c < hi && Height(s, m, c) > l
    decreases hi - lo
  {
    if Height(s, m, hi - 1) > l {
      c := hi - 1;
    } else {
      c := CountWitness(s, m, l, lo, hi - 1);
    }
  }

  /** The j-th block of size d from lo has at most one hit. */
  ghost predicate BlockOne(s: State, m: Mark, l: nat, lo: nat, d: nat, j: nat) {
    var x := Start(lo, d, j);
    In(s, x + d) && Count(s, m, l, x, x + d) <= 1
  }

  ghost predicate OneEach(s: State, m: Mark, l: nat, lo: nat, d: nat, n: nat) {
    forall j: nat :: j < n ==> BlockOne(s, m, l, lo, d, j)
  }

  /** n adjacent blocks with at most one hit each hold at most n hits. */
  lemma {:induction false} CountBlocks(s: State, m: Mark, l: nat, lo: nat, d: nat, n: nat)
    requires In(s, Start(lo, d, n)) && OneEach(s, m, l, lo, d, n)
    ensures Count(s, m, l, lo, Start(lo, d, n)) <= n
    decreases n
  {
    if n > 0 {
      assert BlockOne(s, m, l, lo, d, n - 1);
      CountBlocks(s, m, l, lo, d, n - 1);
      CountSplit(s, m, l, lo, Start(lo, d, n - 1), Start(lo, d, n));
    }
  }

  lemma {:induction false} LastBlock(s: State, m: Mark, l: nat, lo: nat, d: nat, n: nat)
    requires n > 0 && In(s, Start(lo, d, n)) && OneEach(s, m, l, lo, d, n)
    requires Count(s, m, l, lo, Start(lo, d, n)) == n
    ensures Count(s, m, l, lo, Start(lo, d, n - 1)) == n - 1
    ensures Count(s, m, l, Start(lo, d, n - 1), Start(lo, d, n)) == 1
  {
    var mid := Start(lo, d, n - 1);
    assert BlockOne(s, m, l, lo, d, n - 1);
    CountSplit(s, m, l, lo, mid, mid + d);
    CountBlocks(s, m, l, lo, d, n - 1);
  }

  /** If they hold exactly n hits, every block has its hit. */
  lemma {:induction false} CountBlocksAll(s: State, m: Mark, l: nat, lo: nat, d: nat, n: nat, j: nat)
    requires j < n && In(s, Start(lo, d, n)) && OneEach(s, m, l, lo, d, n)
    requires Count(s, m, l, lo, Start(lo, d, n)) == n
    ensures In(s, Start(lo, d, j) + d) && Count(s, m, l, Start(lo, d, j), Start(lo, d, j) + d) == 1
    decreases n
  {
    LastBlock(s, m, l, lo, d, n);
    if j < n - 1 {
      CountBlocksAll(s, m, l, lo, d, n - 1, j);
    }
  }

  /** The j-th block of size d from lo has a hit. */
  ghost predicate BlockHit(s: State, m: Mark, l: nat, lo: nat, d: nat, j: nat) {
    var x := Start(lo, d, j);
    In(s, x + d) && Count(s, m, l, x, x + d) >= 1
  }

  /** If every one of the n blocks has a hit, the whole range has at least n. */
  lemma {:induction false} CountFull(s: State, m: Mark, l: nat, lo: nat, d: nat, n: nat)
    requires In(s, Start(lo, d, n))
    requires forall j: nat :: j < n ==> BlockHit(s, m, l, lo, d, j)
    ensures Count(s, m, l, lo, Start(lo, d, n)) >= n
    decreases n
  {
    if n > 0 {
      assert BlockHit(s, m, l, lo, d, n - 1);
      CountFull(s, m, l, lo, d, n - 1);
      CountSplit(s, m, l, lo, Start(lo, d, n - 1), Start(lo, d, n));
    }
  }
}
