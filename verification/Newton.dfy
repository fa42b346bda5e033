/** Fixed-point square root: `qsqrt` of software/data/qmath.py, on integers that do not overflow. */
module Newton {
  import opened Arith

  /** Integer `//` of numpy: the floor of the quotient, and 0 for a zero divisor. */
  function FloorDiv(a: int, b: int): int {
    if b > 0 then a / b else if b < 0 then (-a) / (-b) else 0
  }

  /** a // b leaves a remainder between 0 and b, on the side of b. */
  lemma {:induction false} FloorDivFacts(a: int, b: int)
    ensures b > 0 ==> 0 <= a - FloorDiv(a, b) * b <= b - 1
    ensures b < 0 ==> b + 1 <= a - FloorDiv(a, b) * b <= 0
  {
    if b > 0 {
      assert a == (a / b) * b + a % b;
    } else if b < 0 {
      assert -a == ((-a) / (-b)) * (-b) + (-a) % (-b);
    }
  }

  lemma {:induction false} Scaled(a: int, b: int, x: nat)
    requires a <= b
    ensures a * x <= b * x
  {
    assert (b - a) * x >= 0;
  }

  lemma {:induction false} AtLeast(q: int, r: int, b: nat, m: int)
    requires 0 <= r < b
    ensures q >= m <==> m * b <= q * b + r
  {
    if q >= m {
      Scaled(m, q, b);
    } else {
      Scaled(q + 1, m, b);
      assert (q + 1) * b == q * b + b;
    }
  }

  /** The quotient is at least m iff m times the divisor fits. */
  lemma {:induction false} QuotientAtLeast(a: int, b: int, m: int)
    requires b > 0
    ensures FloorDiv(a, b) >= m <==> m * b <= a
  {
    FloorDivFacts(a, b);
    AtLeast(FloorDiv(a, b), a - FloorDiv(a, b) * b, b, m);
  }

  /** s is the floor of the square root of n. */
  predicate IsRoot(s: nat, n: nat) {
    s * s <= n < (s + 1) * (s + 1)
  }

  function Root(n: nat): (s: nat)
    ensures IsRoot(s, n)
  {
    if n == 0 then 0 else
      var s := Root(n - 1);
      if (s + 1) * (s + 1) <= n then Next(s); s + 1 else s
  }

  lemma {:induction false} Next(s: nat)
    ensures (s + 2) * (s + 2) == (s + 1) * (s + 1) + 2 * s + 3
  {
  }

  lemma {:induction false} SquareMono(a: nat, b: nat)
    requires a <= b
    ensures a * a <= b * b
  {
    assert b * b - a * a == (b - a) * (b + a);
  }

  // ---------------------------------------------------------------------------------------------
  // One Newton step
  // ---------------------------------------------------------------------------------------------

  function Step(x: nat, n: nat): nat {
    (x + FloorDiv(n, x)) / 2
  }

  /** A step from anywhere lands at the root or above it. */
  lemma {:induction false} StepAbove(x: nat, n: nat, s: nat)
    requires x > 0 && IsRoot(s, n)
    ensures Step(x, n) >= s
  {
    assert (2 * s - x) * x == s * s - (x - s) * (x - s);
    assert (x - s) * (x - s) >= 0;
    QuotientAtLeast(n, x, 2 * s - x);
  }

  /** Above the root a step goes strictly down. */
  lemma {:induction false} StepDown(x: nat, n: nat, s: nat)
    requires IsRoot(s, n) && x > s
    ensures Step(x, n) < x
  {
    SquareMono(s + 1, x);
    QuotientAtLeast(n, x, x);
  }

  lemma {:induction false} RootRange(n: nat, s: nat)
    requires IsRoot(s, n)
    ensures s * s <= n <= s * s + 2 * s
  {
    assert (s + 1) * (s + 1) == s * s + 2 * s + 1;
  }

  /** Where a step from the root goes: it stays, unless n is one below the next square. */
  lemma {:induction false} StepFromRoot(n: nat, s: nat)
    requires IsRoot(s, n) && s > 0
    ensures Step(s, n) == if n == s * s + 2 * s then s + 1 else s
  {
    RootRange(n, s);
    QuotientAtLeast(n, s, s);
    QuotientAtLeast(n, s, s + 2);
    QuotientAtLeast(n, s, s + 3);
    assert (s + 2) * s == s * s + 2 * s && (s + 3) * s == s * s + 3 * s;
  }

  /** One above the root always falls back. */
  lemma {:induction false} StepFromAbove(n: nat, s: nat)
    requires IsRoot(s, n)
    ensures Step(s + 1, n) == s
  {
    StepAbove(s + 1, n, s);
    StepDown(s + 1, n, s);
  }

  /** A step stands still exactly at the root, and there unless n is one below the next square. */
  lemma {:induction false} StandsStill(x: nat, n: nat, s: nat)
    requires x > 0 && n > 0 && IsRoot(s, n)
    ensures Step(x, n) == x <==> x == s && n != s * s + 2 * s
  {
    StepAbove(x, n, s);
    if x > s {
      StepDown(x, n, s);
    } else if x == s {
      StepFromRoot(n, s);
    }
  }

  /** A step at least halves the distance to two above the root. */
  lemma {:induction false} StepHalves(x: nat, n: nat, s: nat)
    requires IsRoot(s, n) && s > 0 && x >= s
    ensures 2 * (Step(x, n) - s - 2) <= x - s - 2
  {
    RootRange(n, s);
    QuotientAtLeast(n, x, s + 3);
    assert (s + 3) * x == (s + 3) * s + (s + 3) * (x - s);
    assert (s + 3) * (x - s) >= 0;
    assert (s + 3) * s == s * s + 3 * s;
  }

  /** The distance to one above the root shrinks quadratically. */
  lemma {:induction false} StepQuadratic(x: nat, n: nat, s: nat)
    requires IsRoot(s, n) && x >= s && x > 0
    ensures 2 * (Step(x, n) - s - 1) * x <= (x - s) * (x - s)
  {
    RootRange(n, s);
    FloorDivFacts(n, x);
    var q, y := FloorDiv(n, x), Step(x, n);
    assert 2 * y <= x + q;
    Scaled(2 * y, x + q, x);
    assert (x + q) * x == x * x + q * x;
    assert (x - s) * (x - s) == x * x - 2 * s * x + s * s;
    assert 2 * (y - s - 1) * x == 2 * y * x - 2 * s * x - 2 * x;
  }

  // ---------------------------------------------------------------------------------------------
  // The iteration
  // ---------------------------------------------------------------------------------------------

  /** The k-th iterate from the start value S for the root of v * S. */
  function Iterate(S: nat, v: nat, k: nat): nat {
    if k == 0 then S else Step(Iterate(S, v, k - 1), v * S)
  }

  /** The loop stops after this many steps at the latest. */
  const MaxSteps: nat := 11

  lemma {:induction false} FirstIterate(S: nat, v: nat)
    requires S > 0
    ensures Iterate(S, v, 1) == (S + v) / 2
  {
    QuotientAtLeast(v * S, S, v);
    QuotientAtLeast(v * S, S, v + 1);
    assert (v + 1) * S == v * S + S;
  }

  lemma {:induction false} Positive(S: nat, v: nat, s: nat)
    requires S > 0 && v > 0 && IsRoot(s, v * S)
    ensures v * S > 0 && s > 0
  {
    assert v * S >= S by { Scaled(1, v, S); }
  }

  /** Every iterate after the first is at least the root, so no step divides by zero. */
  lemma {:induction false} IteratesAbove(S: nat, v: nat, k: nat, s: nat)
    requires S > 0 && v > 0 && IsRoot(s, v * S)
    ensures Iterate(S, v, k) > 0 && (k > 0 ==> Iterate(S, v, k) >= s)
    decreases k
  {
    Positive(S, v, s);
    if k > 0 {
      IteratesAbove(S, v, k - 1, s);
      StepAbove(Iterate(S, v, k - 1), v * S, s);
    }
  }

  /** From the second iterate on they fall strictly until they reach the root. */
  lemma {:induction false} IteratesFall(S: nat, v: nat, k: nat, s: nat)
    requires S > 0 && v > 0 && IsRoot(s, v * S) && k > 0 && Iterate(S, v, k) > s
    ensures s <= Iterate(S, v, k + 1) < Iterate(S, v, k)
  {
    IteratesAbove(S, v, k + 1, s);
    StepDown(Iterate(S, v, k), v * S, s);
  }

  /** Once at the root or one above it, they stay there: for good at the root, or swinging
      between the two when v * S is one below the next square. */
  lemma {:induction false} IteratesStay(S: nat, v: nat, k: nat, l: nat, s: nat)
    requires S > 0 && v > 0 && IsRoot(s, v * S) && k <= l && Iterate(S, v, k) in {s, s + 1}
    ensures Iterate(S, v, l) in {s, s + 1}
    ensures l > k && v * S != s * s + 2 * s ==> Iterate(S, v, l) == s
    ensures v * S == s * s + 2 * s ==> Iterate(S, v, l + 1) != Iterate(S, v, l)
    decreases l
  {
    Positive(S, v, s);
    StepFromRoot(v * S, s);
    StepFromAbove(v * S, s);
    if k < l {
      IteratesStay(S, v, k, l - 1, s);
    }
  }

  lemma {:induction false} IteratesHalve(S: nat, v: nat, k: nat, s: nat)
    requires S > 0 && v > 0 && IsRoot(s, v * S)
    ensures Iterate(S, v, k + 1) >= s
    ensures Pow2(k) * (Iterate(S, v, k + 1) - s - 2) <= Iterate(S, v, 1) - s - 2 || Iterate(S, v, k + 1) <= s + 2
    decreases k
  {
    IteratesAbove(S, v, k + 1, s);
    if k > 0 {
      Positive(S, v, s);
      IteratesHalve(S, v, k - 1, s);
      StepHalves(Iterate(S, v, k), v * S, s);
      HalfStep(Pow2(k - 1), Iterate(S, v, k) - s - 2, Iterate(S, v, k + 1) - s - 2, Iterate(S, v, 1) - s - 2);
    }
  }

  lemma {:induction false} HalfStep(p: nat, e: int, e': int, bound: int)
    requires 2 * e' <= e && (p * e <= bound || e <= 0)
    ensures 2 * p * e' <= bound || e' <= 0
  {
    if e' > 0 {
      Scaled(2 * e', e, p);
      assert (2 * e') * p == 2 * p * e' && e * p == p * e;
    }
  }

  /** What the capped loop guarantees for every positive value: never below the root, and above it by at
      most two plus a 1024th of the first error. */
  lemma {:induction false} RootError(S: nat, v: nat, s: nat)
    requires S > 0 && v > 0 && IsRoot(s, v * S)
    ensures var x := Iterate(S, v, MaxSteps);
            s <= x && (x <= s + 2 || 1024 * (x - s - 2) <= (S + v) / 2 - s - 2)
  {
    IteratesHalve(S, v, 10, s);
    FirstIterate(S, v);
    assert Pow2(10) == 1024 by {
      assert Pow2(5) == 32;
    }
  }

  /** For the value 0 every step halves: the root of 0 comes out as S / 2048. */
  lemma {:induction false} IteratesOfZero(S: nat, k: nat)
    ensures Iterate(S, 0, k) == Shr(S, k)
    decreases k
  {
    if k > 0 {
      IteratesOfZero(S, k - 1);
      ShrStep(S, k - 1);
      assert FloorDiv(0, Iterate(S, 0, k - 1)) == 0;
    }
  }

  lemma {:induction false} ShrStep(x: nat, k: nat)
    ensures Shr(x, k + 1) == Shr(x, k) / 2
    decreases k
  {
    if k > 0 {
      ShrStep(x / 2, k - 1);
    }
  }

  lemma {:induction false} RootOfZero(S: nat)
    ensures Iterate(S, 0, MaxSteps) == S / 2048
  {
    IteratesOfZero(S, MaxSteps);
    var a := Shr(S, 4);
    assert a == S / 16;
    ShrMore(S, 4, 4);
    ShrMore(S, 8, 3);
  }

  lemma {:induction false} ShrMore(x: nat, a: nat, b: nat)
    ensures Shr(x, a + b) == Shr(Shr(x, a), b)
    decreases a
  {
    if a > 0 {
      ShrMore(x / 2, a - 1, b);
    }
  }

  /** A value at which a step stands still is never left again. */
  lemma {:induction false} FixedForGood(S: nat, v: nat, k: nat, l: nat)
    requires k <= l && Iterate(S, v, k + 1) == Iterate(S, v, k)
    ensures Iterate(S, v, l) == Iterate(S, v, k)
    decreases l
  {
    if k < l {
      FixedForGood(S, v, k, l - 1);
    }
  }

  /** The loop. Leaving early on two equal iterates does not change the result, and for a positive value
      it happens at the exact root only. */
  method Qsqrt(v: nat, S: nat) returns (x: nat)
    requires S > 0
    ensures x == Iterate(S, v, MaxSteps)
  {
    x := S;
    var nOne := v * S;
    var itr: nat := 0;
    while true
      invariant itr <= 10 && x == Iterate(S, v, itr)
      decreases 10 - itr
    {
      var xOld := x;
      x := (x + FloorDiv(nOne, x)) / 2;
      assert x == Step(xOld, nOne);
      if x == xOld || itr == 10 {
        if x == xOld {
          FixedForGood(S, v, itr, MaxSteps);
        }
        break;
      }
      itr := itr + 1;
    }
  }

  /** The result is the exact root whenever some earlier iterate already was within one of it and v * S is
      not one below a square. */
  lemma {:induction false} Converged(S: nat, v: nat, k: nat, s: nat)
    requires S > 0 && v > 0 && IsRoot(s, v * S) && k < MaxSteps && Iterate(S, v, k) in {s, s + 1}
    ensures Iterate(S, v, MaxSteps) == s <==> v * S != s * s + 2 * s || Iterate(S, v, MaxSteps - 1) == s + 1
  {
    Positive(S, v, s);
    IteratesStay(S, v, k, MaxSteps, s);
    IteratesStay(S, v, k, MaxSteps - 1, s);
    StepFromAbove(v * S, s);
    StepFromRoot(v * S, s);
  }

  /** An exit on two equal iterates is an exit at the exact root. */
  lemma {:induction false} EqualExit(S: nat, v: nat, k: nat, s: nat)
    requires S > 0 && v > 0 && IsRoot(s, v * S) && Iterate(S, v, k + 1) == Iterate(S, v, k)
    ensures Iterate(S, v, k) == s && (k <= MaxSteps ==> Iterate(S, v, MaxSteps) == s)
  {
    Positive(S, v, s);
    IteratesAbove(S, v, k, s);
    StandsStill(Iterate(S, v, k), v * S, s);
    if k <= MaxSteps {
      FixedForGood(S, v, k, MaxSteps);
    }
  }
}
