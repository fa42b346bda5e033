/** Arithmetic facts shared by the models: powers of two and aligned blocks. */
module Arith {

  function Pow2(n: nat): (r: nat)
    ensures r > 0
  {
    if n == 0 then 1 else 2 * Pow2(n - 1)
  }

  lemma {:induction false} Pow2Add(a: nat, b: nat)
    ensures Pow2(a + b) == Pow2(a) * Pow2(b)
  {
    if b == 0 {
    } else {
      Pow2Add(a, b - 1);
      assert Pow2(a) * (2 * Pow2(b - 1)) == 2 * (Pow2(a) * Pow2(b - 1));
    }
  }

  lemma {:induction false} Pow2Mono(a: nat, b: nat)
    requires a < b
    ensures Pow2(a) < Pow2(b) && Pow2(b) % Pow2(a) == 0
    ensures Pow2(b) / Pow2(a) == Pow2(b - a)
  {
    Pow2Add(b - a, a);
    DivModUnique(Pow2(b), Pow2(a), Pow2(b - a), 0);
    assert Pow2(b - a) >= 2;
    MulMono(2, Pow2(b - a), Pow2(a));
  }

  lemma {:induction false} MulMono(a: int, b: int, c: int)
    requires a <= b && c >= 0
    ensures a * c <= b * c
  {
  }

  /** Quotient and remainder are determined by x == q * d + r. */
  lemma {:induction false} DivModUnique(x: int, d: int, q: int, r: int)
    requires d > 0 && 0 <= r < d && x == q * d + r
    ensures x / d == q && x % d == r
  {
    var q', r' := x / d, x % d;
    assert x == q' * d + r';
    assert (q - q') * d == r' - r;
    if q > q' {
      MulMono(1, q - q', d);
    } else if q < q' {
      MulMono(1, q' - q, d);
    }
  }

  lemma {:induction false} ModTrans(x: nat, b: nat, s: nat)
    requires s > 0 && b > 0 && b % s == 0 && x % b == 0
    ensures x % s == 0
  {
    assert x == x / b * b && b == b / s * s;
    assert x == x / b * (b / s) * s;
    DivModUnique(x, s, x / b * (b / s), 0);
  }

  lemma {:induction false} ModAdd(x: nat, y: nat, d: nat)
    requires d > 0 && x % d == 0
    ensures (x + y) % d == y % d
  {
    assert x + y == (x / d + y / d) * d + y % d;
    DivModUnique(x + y, d, x / d + y / d, y % d);
  }

  // ---------------------------------------------------------------------------------------------
  // Multiples, without multiplication
  // ---------------------------------------------------------------------------------------------

  /** Start of the j-th block of size d counted from lo, that is lo + j * d. */
  function Start(lo: nat, d: nat, j: nat): (r: nat)
    ensures r >= lo
    decreases j
  {
    if j == 0 then lo else Start(lo, d, j - 1) + d
  }

  lemma {:induction false} StartIsProduct(lo: nat, d: nat, j: nat)
    ensures Start(lo, d, j) == lo + j * d
    decreases j
  {
    if j > 0 {
      StartIsProduct(lo, d, j - 1);
      assert j * d == (j - 1) * d + d;
    }
  }

  lemma {:induction false} StartMono(lo: nat, d: nat, i: nat, j: nat)
    requires i < j
    ensures Start(lo, d, i) + d <= Start(lo, d, j)
    decreases j
  {
    if i < j - 1 {
      StartMono(lo, d, i, j - 1);
    }
  }

  lemma {:induction false} StartShift(lo: nat, d: nat, j: nat)
    ensures Start(lo, d, j) == lo + Start(0, d, j)
    decreases j
  {
    if j > 0 {
      StartShift(lo, d, j - 1);
    }
  }

  /** x is a multiple of d. */
  predicate Aligned(x: nat, d: nat)
    requires d > 0
    decreases x
  {
    x == 0 || (x >= d && Aligned(x - d, d))
  }

  lemma {:induction false} AlignedIsMod(x: nat, d: nat)
    requires d > 0
    ensures Aligned(x, d) <==> x % d == 0
    decreases x
  {
    if x >= d {
      AlignedIsMod(x - d, d);
      DivModUnique(x, d, (x - d) / d + 1, (x - d) % d);
    } else {
      DivModUnique(x, d, 0, x);
    }
  }

  /** The first element of the aligned block of size d that holds x. */
  function Floor(x: nat, d: nat): (r: nat)
    requires d > 0
    ensures r <= x < r + d
    ensures Aligned(r, d)
    decreases x
  {
    if x < d then 0 else d + Floor(x - d, d)
  }

  lemma {:induction false} FloorIsDiv(x: nat, d: nat)
    requires d > 0
    ensures Floor(x, d) == x / d * d
    decreases x
  {
    if x < d {
      DivModUnique(x, d, 0, x);
    } else {
      FloorIsDiv(x - d, d);
      DivModUnique(x, d, (x - d) / d + 1, (x - d) % d);
      assert ((x - d) / d + 1) * d == (x - d) / d * d + d;
    }
  }

  lemma {:induction false} FloorIndex(lo: nat, x: nat, d: nat) returns (j: nat)
    requires d > 0 && lo <= x
    ensures Start(lo, d, j) <= x < Start(lo, d, j) + d
    decreases x - lo
  {
    if x < lo + d {
      j := 0;
    } else {
      j := FloorIndex(lo, x - d, d);
      j := j + 1;
    }
  }

  /** Two aligned blocks of one size that share an element are the same block. */
  lemma {:induction false} AlignedUnique(a: nat, b: nat, d: nat, x: nat)
    requires d > 0 && Aligned(a, d) && Aligned(b, d)
    requires a <= x < a + d && b <= x < b + d
    ensures a == b
    decreases x
  {
    if a > 0 && b > 0 {
      AlignedUnique(a - d, b - d, d, x - d);
    }
  }

  lemma {:induction false} AlignedTrans(x: nat, b: nat, s: nat)
    requires s > 0 && b > 0 && Aligned(b, s) && Aligned(x, b)
    ensures Aligned(x, s)
  {
    AlignedIsMod(b, s);
    AlignedIsMod(x, b);
    AlignedIsMod(x, s);
    ModTrans(x, b, s);
  }

  lemma {:induction false} AlignedAdd(x: nat, y: nat, d: nat)
    requires d > 0 && Aligned(x, d)
    ensures Aligned(x + y, d) <==> Aligned(y, d)
  {
    AlignedIsMod(x, d);
    AlignedIsMod(y, d);
    AlignedIsMod(x + y, d);
    ModAdd(x, y, d);
  }

  lemma {:induction false} AlignedStart(lo: nat, d: nat, j: nat)
    requires d > 0 && Aligned(lo, d)
    ensures Aligned(Start(lo, d, j), d)
    decreases j
  {
    if j > 0 {
      AlignedStart(lo, d, j - 1);
    }
  }

  /** An aligned block lies inside the aligned range it starts in. */
  lemma {:induction false} BlockInside(lo: nat, d: nat, hi: nat)
    requires d > 0 && Aligned(lo, d) && Aligned(hi, d) && lo < hi
    ensures lo + d <= hi
    decreases lo
  {
    if lo > 0 {
      BlockInside(lo - d, d, hi - d);
    }
  }

  // ---------------------------------------------------------------------------------------------
  // Unsigned division and remainder, by repeated subtraction
  // ---------------------------------------------------------------------------------------------

  function Div(x: nat, d: nat): nat
    requires d > 0
    decreases x
  {
    if x < d then 0 else 1 + Div(x - d, d)
  }

  function Mod(x: nat, d: nat): (r: nat)
    requires d > 0
    ensures r < d
    decreases x
  {
    if x < d then x else Mod(x - d, d)
  }

  /** They are the built-in operators. */
  lemma {:induction false} DivModAreBuiltIn(x: nat, d: nat)
    requires d > 0
    ensures Div(x, d) == x / d && Mod(x, d) == x % d
    decreases x
  {
    if x < d {
      DivModUnique(x, d, 0, x);
    } else {
      DivModAreBuiltIn(x - d, d);
      DivModUnique(x, d, (x - d) / d + 1, (x - d) % d);
    }
  }

  lemma {:induction false} FloorMod(x: nat, d: nat)
    requires d > 0
    ensures Floor(x, d) + Mod(x, d) == x
    ensures Floor(x, d) == Start(0, d, Div(x, d))
    decreases x
  {
    if x >= d {
      FloorMod(x - d, d);
    }
  }

  /** A block border separates numbers exactly as its block number does. */
  lemma {:induction false} DivLess(x: nat, border: nat, d: nat)
    requires d > 0 && Aligned(border, d)
    ensures x < border <==> Div(x, d) < Div(border, d)
    decreases x
  {
    if x >= d && border > 0 {
      DivLess(x - d, border - d, d);
    }
  }

  lemma {:induction false} DivModAdd(a: nat, b: nat, d: nat)
    requires d > 0 && Aligned(a, d)
    ensures Div(a + b, d) == Div(a, d) + Div(b, d) && Mod(a + b, d) == Mod(b, d)
    decreases a
  {
    if a > 0 {
      DivModAdd(a - d, b, d);
    }
  }

  lemma {:induction false} DivStart(d: nat, j: nat)
    requires d > 0
    ensures Aligned(Start(0, d, j), d) && Div(Start(0, d, j), d) == j
    decreases j
  {
    if j > 0 {
      DivStart(d, j - 1);
    }
  }

  /** Dividing by a and then by b is dividing by their product. */
  lemma {:induction false} DivDiv(x: nat, a: nat, b: nat)
    requires a > 0 && b > 0
    ensures Start(0, a, b) > 0 && Div(Div(x, a), b) == Div(x, Start(0, a, b))
    decreases x
  {
    var ab := Start(0, a, b);
    DivStart(a, b);
    DivLess(x, ab, a);
    if x >= ab {
      DivDiv(x - ab, a, b);
      DivModAdd(ab, x - ab, a);
    }
  }

  /** 2^s is made of 2^(s - t) blocks of 2^t. */
  lemma {:induction false} Pow2Blocks(t: nat, s: nat)
    requires t <= s
    ensures Start(0, Pow2(t), Pow2(s - t)) == Pow2(s)
    ensures Aligned(Pow2(s), Pow2(t)) && Div(Pow2(s), Pow2(t)) == Pow2(s - t)
    ensures Pow2(t) <= Pow2(s) && (t < s ==> Pow2(t) < Pow2(s))
  {
    Pow2Add(s - t, t);
    StartIsProduct(0, Pow2(t), Pow2(s - t));
    DivStart(Pow2(t), Pow2(s - t));
    if t < s {
      Pow2Mono(t, s);
    }
  }

  /** A smaller power of two has a smaller exponent. */
  lemma {:induction false} Pow2Less(a: nat, b: nat)
    requires Pow2(a) < Pow2(b)
    ensures a < b
  {
    if b <= a {
      Pow2Blocks(b, a);
    }
  }

  lemma {:induction false} Pow2Leq(a: nat, b: nat)
    requires Pow2(a) <= Pow2(b)
    ensures a <= b
  {
    if b < a {
      Pow2Blocks(b, a);
    }
  }

  /** x << i, without losing bits */
  function Shl(x: nat, i: nat): nat {
    if i == 0 then x else 2 * Shl(x, i - 1)
  }

  /** x >> i */
  function Shr(x: nat, i: nat): nat
    decreases i
  {
    if i == 0 then x else Shr(x / 2, i - 1)
  }

  lemma {:induction false} ShlPow2(e: nat, i: nat)
    ensures Shl(Pow2(e), i) == Pow2(e + i)
  {
    if i > 0 {
      ShlPow2(e, i - 1);
    }
  }

  lemma {:induction false} ShrPow2(e: nat, i: nat)
    ensures Shr(Pow2(e + i), i) == Pow2(e)
    decreases i
  {
    if i > 0 {
      ShrPow2(e, i - 1);
    }
  }

  /** Subtraction that stops at 0. */
  function Minus(a: nat, b: nat): nat {
    if a >= b then a - b else 0
  }
}
