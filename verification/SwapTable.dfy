/** The transposition table of `bitreversal` (software/data/qmath.py) and the kernels that apply it
    (software/kernels/baremetal/mempool_cfft_q16_bitreversal.h). */
module SwapTable {

  /** A transposition of two elements. */
  datatype Pair = Pair(a: nat, b: nat)

  // ---------------------------------------------------------------------------------------------
  // Applying swaps to a sequence
  // ---------------------------------------------------------------------------------------------

  function Swap<T>(s: seq<T>, p: Pair): (r: seq<T>)
    requires p.a < |s| && p.b < |s|
    ensures |r| == |s|
  {
    s[p.a := s[p.b]][p.b := s[p.a]]
  }

  ghost predicate InRange(ps: seq<Pair>, n: nat) {
    forall i {:trigger ps[i]} :: 0 <= i < |ps| ==> ps[i].a < n && ps[i].b < n
  }

  /** The swaps in table order. */
  function Apply<T>(s: seq<T>, ps: seq<Pair>): (r: seq<T>)
    requires InRange(ps, |s|)
    ensures |r| == |s|
    decreases |ps|
  {
    if ps == [] then s else Swap(Apply(s, ps[..|ps| - 1]), ps[|ps| - 1])
  }

  lemma {:induction false} ApplyConcat<T>(s: seq<T>, ps: seq<Pair>, qs: seq<Pair>)
    requires InRange(ps, |s|) && InRange(qs, |s|)
    ensures InRange(ps + qs, |s|) && Apply(s, ps + qs) == Apply(Apply(s, ps), qs)
    decreases |qs|
  {
    if qs == [] {
      assert ps + qs == ps;
    } else {
      ApplyConcat(s, ps, qs[..|qs| - 1]);
      assert (ps + qs)[..|ps + qs| - 1] == ps + qs[..|qs| - 1];
    }
  }

  // ---------------------------------------------------------------------------------------------
  // Cycles
  // ---------------------------------------------------------------------------------------------

  ghost predicate Distinct(c: seq<nat>) {
    forall i, j :: 0 <= i < j < |c| ==> c[i] != c[j]
  }

  /** c lists a cycle of f: x, f(x), f(f(x)), ... */
  ghost predicate IsCycle(c: seq<nat>, f: seq<nat>) {
    && |c| >= 2 && Distinct(c)
    && (forall i {:trigger c[i]} :: 0 <= i < |c| ==> c[i] < |f|)
    && (forall i {:trigger f[c[i]]} :: 0 <= i < |c| ==> f[c[i]] == c[if i + 1 < |c| then i + 1 else 0])
  }

  /** [c[i], c[-1]] for every i below the last. */
  function CyclePairs(c: seq<nat>, k: nat): (ps: seq<Pair>)
    requires k < |c|
    ensures |ps| == k && forall i {:trigger ps[i]} :: 0 <= i < k ==> ps[i] == Pair(c[i], c[|c| - 1])
    decreases k
  {
    if k == 0 then [] else CyclePairs(c, k - 1) + [Pair(c[k - 1], c[|c| - 1])]
  }

  lemma {:induction false} CycleInRange(c: seq<nat>, k: nat, n: nat)
    requires k < |c| && forall i {:trigger c[i]} :: 0 <= i < |c| ==> c[i] < n
    ensures InRange(CyclePairs(c, k), n)
  {
  }

  /** After k swaps of a cycle: the first k elements have moved on and the last holds the one in hand. */
  lemma {:induction false} CyclePrefix<T>(s: seq<T>, c: seq<nat>, k: nat, x: nat)
    requires k < |c| && Distinct(c) && (forall i {:trigger c[i]} :: 0 <= i < |c| ==> c[i] < |s|) && x < |s|
    ensures InRange(CyclePairs(c, k), |s|)
    ensures var r, last := Apply(s, CyclePairs(c, k)), c[|c| - 1];
            && (x == last ==> r[x] == if k == 0 then s[last] else s[c[k - 1]])
            && (k > 0 && x == c[0] && x != last ==> r[x] == s[last])
            && (forall i {:trigger c[i]} :: 1 <= i < k && x == c[i] ==> r[x] == s[c[i - 1]])
            && (x != last && (forall i {:trigger c[i]} :: 0 <= i < k ==> x != c[i]) ==> r[x] == s[x])
    decreases k
  {
    CycleInRange(c, k, |s|);
    if k > 0 {
      var ps, last := CyclePairs(c, k - 1), c[|c| - 1];
      assert CyclePairs(c, k)[..k - 1] == ps;
      CyclePrefix(s, c, k - 1, x);
      CyclePrefix(s, c, k - 1, last);
      CyclePrefix(s, c, k - 1, c[k - 1]);
    }
  }

  /** The swaps of one cycle move every element of it to the place f says, and nothing else. */
  lemma {:induction false} CycleEffect<T>(s: seq<T>, f: seq<nat>, c: seq<nat>, x: nat)
    requires IsCycle(c, f) && |s| == |f| && x < |s|
    ensures InRange(CyclePairs(c, |c| - 1), |s|)
    ensures var r := Apply(s, CyclePairs(c, |c| - 1));
            && (x in c ==> f[x] < |s| && r[f[x]] == s[x])
            && (x !in c ==> r[x] == s[x])
  {
    var k := |c| - 1;
    CyclePrefix(s, c, k, x);
    if x in c {
      var i :| 0 <= i < |c| && c[i] == x;
      var j := if i + 1 < |c| then i + 1 else 0;
      assert f[c[i]] == c[j] && c[j] < |f|;
      CyclePrefix(s, c, k, c[j]);
    }
  }

  // ---------------------------------------------------------------------------------------------
  // The whole table
  // ---------------------------------------------------------------------------------------------

  ghost predicate InCycles(cycles: seq<seq<nat>>, x: nat) {
    exists k :: 0 <= k < |cycles| && x in cycles[k]
  }

  ghost predicate Disjoint(c: seq<nat>, d: seq<nat>) {
    forall x :: x in c ==> x !in d
  }

  /** Cycles of f, no element in two of them. */
  ghost predicate AreCycles(cycles: seq<seq<nat>>, f: seq<nat>) {
    && (forall k :: 0 <= k < |cycles| ==> IsCycle(cycles[k], f))
    && (forall k, l :: 0 <= k < l < |cycles| ==> Disjoint(cycles[k], cycles[l]))
  }

  /** The cyclic form of a permutation: each non-trivial cycle is listed once. */
  ghost predicate CyclicForm(cycles: seq<seq<nat>>, f: seq<nat>) {
    && AreCycles(cycles, f)
    && (forall x: nat :: x < |f| && f[x] != x ==> InCycles(cycles, x))
  }

  function Table(cycles: seq<seq<nat>>): (ps: seq<Pair>)
    requires forall k :: 0 <= k < |cycles| ==> |cycles[k]| > 0
    decreases |cycles|
  {
    if cycles == [] then []
    else
      var c := cycles[|cycles| - 1];
      Table(cycles[..|cycles| - 1]) + CyclePairs(c, |c| - 1)
  }

  lemma {:induction false} TableInRange(cycles: seq<seq<nat>>, f: seq<nat>)
    requires AreCycles(cycles, f)
    ensures InRange(Table(cycles), |f|)
    decreases |cycles|
  {
    if cycles != [] {
      var c := cycles[|cycles| - 1];
      TableInRange(cycles[..|cycles| - 1], f);
      assert IsCycle(c, f);
      CycleInRange(c, |c| - 1, |f|);
    }
  }

  /** r is s with the elements of the cycles moved to where f says, and nothing else. */
  ghost predicate Moved<T>(r: seq<T>, s: seq<T>, f: seq<nat>, cycles: seq<seq<nat>>, x: nat)
    requires |r| == |s| == |f| && x < |s|
  {
    && (InCycles(cycles, x) ==> f[x] < |s| && r[f[x]] == s[x])
    && (!InCycles(cycles, x) ==> r[x] == s[x])
  }

  lemma {:induction false} TableEffect<T>(s: seq<T>, f: seq<nat>, cycles: seq<seq<nat>>, x: nat)
    requires AreCycles(cycles, f) && |s| == |f| && x < |s|
    ensures InRange(Table(cycles), |s|) && Moved(Apply(s, Table(cycles)), s, f, cycles, x)
    decreases |cycles|
  {
    TableInRange(cycles, f);
    if cycles != [] {
      var m := |cycles| - 1;
      var before, c := cycles[..m], cycles[m];
      TableEffect(s, f, before, x);
      assert IsCycle(c, f);
      CycleInRange(c, |c| - 1, |s|);
      ApplyConcat(s, Table(before), CyclePairs(c, |c| - 1));
      Members(cycles, f, x);
      if InCycles(before, x) {
        Members(cycles, f, f[x]);
      }
      OneMoreCycle(Apply(s, Table(before)), s, f, c, x, InCycles(before, x));
    }
  }

  /** An element is in the last cycle, or in an earlier one together with its image, or in none. */
  lemma {:induction false} Members(cycles: seq<seq<nat>>, f: seq<nat>, x: nat)
    requires AreCycles(cycles, f) && cycles != [] && x < |f|
    ensures var before, c := cycles[..|cycles| - 1], cycles[|cycles| - 1];
            && (InCycles(cycles, x) <==> InCycles(before, x) || x in c)
            && (x in c ==> !InCycles(before, x))
            && (InCycles(before, x) ==> f[x] < |f| && InCycles(before, f[x]))
  {
    var m := |cycles| - 1;
    var before, c := cycles[..m], cycles[m];
    if x in c {
      NotBefore(cycles, f, x);
      assert x in cycles[m];
    }
    if InCycles(before, x) {
      StaysInCycle(before, f, x);
      var k :| 0 <= k < m && x in before[k];
      assert x in cycles[k];
    }
    if InCycles(cycles, x) && x !in c {
      var k :| 0 <= k < |cycles| && x in cycles[k];
      assert x in before[k];
    }
  }

  lemma {:induction false} OneMoreCycle<T>(mid: seq<T>, s: seq<T>, f: seq<nat>, c: seq<nat>, x: nat, moved: bool)
    requires IsCycle(c, f) && |mid| == |s| == |f| && x < |s| && InRange(CyclePairs(c, |c| - 1), |s|)
    requires moved ==> f[x] < |s| && mid[f[x]] == s[x] && x !in c && f[x] !in c
    requires !moved ==> mid[x] == s[x]
    ensures var r := Apply(mid, CyclePairs(c, |c| - 1));
            if moved || x in c then f[x] < |s| && r[f[x]] == s[x] else r[x] == s[x]
  {
    CycleEffect(mid, f, c, x);
    if moved {
      CycleEffect(mid, f, c, f[x]);
    }
  }

  /** An element of the last cycle is in no earlier one. */
  lemma {:induction false} NotBefore(cycles: seq<seq<nat>>, f: seq<nat>, x: nat)
    requires AreCycles(cycles, f) && cycles != [] && x in cycles[|cycles| - 1]
    ensures !InCycles(cycles[..|cycles| - 1], x)
  {
    var m := |cycles| - 1;
    forall k | 0 <= k < m ensures x !in cycles[k] {
      assert Disjoint(cycles[k], cycles[m]);
    }
  }

  lemma {:induction false} StaysInCycle(cycles: seq<seq<nat>>, f: seq<nat>, x: nat)
    requires (forall k :: 0 <= k < |cycles| ==> IsCycle(cycles[k], f)) && x < |f| && InCycles(cycles, x)
    ensures InCycles(cycles, f[x]) && f[x] < |f|
  {
    var k :| 0 <= k < |cycles| && x in cycles[k];
    var c := cycles[k];
    var i :| 0 <= i < |c| && c[i] == x;
    var j := if i + 1 < |c| then i + 1 else 0;
    assert f[c[i]] == c[j];
    assert c[j] in cycles[k];
  }

  /** The table, applied in order and in place, is the scatter dst[f(x)] = src[x]. */
  lemma {:induction false} TableScatters<T>(s: seq<T>, f: seq<nat>, cycles: seq<seq<nat>>, x: nat)
    requires CyclicForm(cycles, f) && |s| == |f| && x < |s|
    ensures InRange(Table(cycles), |s|)
    ensures f[x] < |s| && Apply(s, Table(cycles))[f[x]] == s[x]
  {
    TableEffect(s, f, cycles, x);
  }

  // ---------------------------------------------------------------------------------------------
  // The table as the program stores it
  // ---------------------------------------------------------------------------------------------

  /** Byte offsets 8 * index, two per swap. */
  function Words(ps: seq<Pair>): (ws: seq<nat>)
    ensures |ws| == 2 * |ps|
    decreases |ps|
  {
    if ps == [] then []
    else Words(ps[..|ps| - 1]) + [8 * ps[|ps| - 1].a, 8 * ps[|ps| - 1].b]
  }

  lemma {:induction false} WordsAt(ps: seq<Pair>, i: nat)
    requires i < |ps|
    ensures Words(ps)[2 * i] == 8 * ps[i].a && Words(ps)[2 * i + 1] == 8 * ps[i].b
    decreases |ps|
  {
    if i < |ps| - 1 {
      WordsAt(ps[..|ps| - 1], i);
    }
  }

  lemma {:induction false} WordsSnoc(ps: seq<Pair>, p: Pair)
    ensures Words(ps + [p]) == Words(ps) + [8 * p.a, 8 * p.b]
  {
    assert (ps + [p])[..|ps + [p]| - 1] == ps;
  }

  lemma {:induction false} PairsSnoc(before: seq<Pair>, c: seq<nat>, k: nat)
    requires k + 1 < |c|
    ensures before + CyclePairs(c, k + 1) == before + CyclePairs(c, k) + [Pair(c[k], c[|c| - 1])]
  {
  }

  /** The inner loop: the swaps of one cycle. */
  method AppendCycle(tps: seq<nat>, c: seq<nat>, ghost before: seq<Pair>) returns (r: seq<nat>)
    requires |c| > 0 && tps == Words(before)
    ensures r == Words(before + CyclePairs(c, |c| - 1))
  {
    r := tps;
    var last := c[|c| - 1];
    ghost var ps := before;
    assert before == before + CyclePairs(c, 0);
    for i := 0 to |c| - 1
      invariant ps == before + CyclePairs(c, i)
      invariant r == Words(ps)
    {
      PairsSnoc(before, c, i);
      WordsSnoc(ps, Pair(c[i], last));
      r := r + [c[i] * 8, last * 8];
      ps := ps + [Pair(c[i], last)];
    }
  }

  /** The loops that create the table from the cyclic form. */
  method MakeTable(cycles: seq<seq<nat>>) returns (tps: seq<nat>)
    requires forall k :: 0 <= k < |cycles| ==> |cycles[k]| > 0
    ensures tps == Words(Table(cycles))
  {
    tps := [];
    for k := 0 to |cycles|
      invariant tps == Words(Table(cycles[..k]))
    {
      tps := AppendCycle(tps, cycles[k], Table(cycles[..k]));
      assert cycles[..k + 1][..k] == cycles[..k];
    }
    assert cycles[..|cycles|] == cycles;
  }
}
