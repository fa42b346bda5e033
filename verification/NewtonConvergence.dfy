/** Where the capped Newton iteration of `qsqrt` converges: for small products of scale and value, and otherwise
    according to their ratio. */
module NewtonConvergence {
  import opened Arith
  import opened Newton


  /** An error above B after a step needs an error before it that is too large for E. */
  lemma {:induction false} Backward(e: nat, E: nat, y: int, s: nat, lo: nat, B: nat)
    requires 2 * (y - 1) * (s + e) <= e * e && e <= E && 0 < lo <= s && 0 < B < y
    ensures 2 * B * (lo + E) <= E * E
  {
    Scaled(2 * B, 2 * (y - 1), s + e);
    Scaled(lo + e, s + e, 2 * B);
    assert 2 * B * (lo + e) <= e * e;
    AtLeastTwice(e, B, lo);
    Scaled(2 * B, E + e, E - e);
    assert (E + e) * (E - e) == E * E - e * e;
    assert 2 * B * (E - e) + 2 * B * (lo + e) == 2 * B * (lo + E);
  }

  lemma {:induction false} AtLeastTwice(e: nat, B: nat, lo: nat)
    requires 2 * B * (lo + e) <= e * e && lo > 0 && B > 0
    ensures 2 * B <= e
  {
    assert 2 * B * (lo + e) == 2 * B * lo + 2 * B * e;
    assert 2 * B * lo > 0;
    if 2 * B > e {
      Scaled(e, 2 * B, e);
    }
  }

  /** One step turns an error of at most E into one of at most B. */
  lemma {:induction false} Shrinks(S: nat, v: nat, k: nat, s: nat, lo: nat, E: nat, B: nat)
    requires S > 0 && v > 0 && IsRoot(s, v * S) && k > 0 && 0 < lo <= s && 0 < B
    requires Iterate(S, v, k) <= s + E && E * E < 2 * B * (lo + E)
    ensures Iterate(S, v, k + 1) <= s + B
  {
    var x := Iterate(S, v, k);
    IteratesAbove(S, v, k, s);
    StepQuadratic(x, v * S, s);
    if Iterate(S, v, k + 1) > s + B {
      Backward(x - s, E, Iterate(S, v, k + 1) - s, s, lo, B);
    }
  }

  /** The first error is at most half of s * (s + 2), whatever scale and value. */
  lemma {:induction false} FirstError(S: nat, v: nat, s: nat)
    requires S > 0 && v > 0 && IsRoot(s, v * S)
    ensures 2 * (Iterate(S, v, 1) - s) <= s * s + 2 * s
  {
    FirstIterate(S, v);
    if S <= v {
      Factors(S, v, s, v * S);
    } else {
      Factors(v, S, s, v * S);
    }
  }

  /** The smaller factor is at most the root, the larger at most the product. */
  lemma {:induction false} Factors(lo: nat, hi: nat, s: nat, n: nat)
    requires 0 < lo <= hi && n == lo * hi && IsRoot(s, n)
    ensures lo <= s && hi <= s * s + 2 * s
  {
    RootRange(n, s);
    Scaled(1, lo, hi);
    Scaled(lo, hi, lo);
    RootAtLeast(lo, s, n);
  }

  lemma {:induction false} RootAtLeast(x: nat, s: nat, n: nat)
    requires x * x <= n && IsRoot(s, n)
    ensures x <= s
  {
    if s < x {
      SquareMono(s + 1, x);
    }
  }

  lemma {:induction false} SmallRoots(S: nat, v: nat, s: nat)
    requires S > 0 && v > 0 && IsRoot(s, v * S) && 1 <= s <= 31
    ensures Iterate(S, v, 10) <= s + 1
  {
    FirstError(S, v, s);
    SquareMono(s, 31);
    Shrinks(S, v, 1, s, 1, 511, 256);
    Shrinks(S, v, 2, s, 1, 256, 128);
    Shrinks(S, v, 3, s, 1, 128, 64);
    Shrinks(S, v, 4, s, 1, 64, 32);
    Shrinks(S, v, 5, s, 1, 32, 16);
    Shrinks(S, v, 6, s, 1, 16, 8);
    Shrinks(S, v, 7, s, 1, 8, 4);
    Shrinks(S, v, 8, s, 1, 4, 2);
    Shrinks(S, v, 9, s, 1, 2, 1);
  }

  lemma {:induction false} MiddleRoots(S: nat, v: nat, s: nat)
    requires S > 0 && v > 0 && IsRoot(s, v * S) && 32 <= s <= 122
    ensures Iterate(S, v, 10) <= s + 1
  {
    FirstError(S, v, s);
    SquareMono(s, 122);
    Shrinks(S, v, 1, s, 32, 7564, 3767);
    Shrinks(S, v, 2, s, 32, 3767, 1868);
    Shrinks(S, v, 3, s, 32, 1868, 919);
    Shrinks(S, v, 4, s, 32, 919, 445);
    Shrinks(S, v, 5, s, 32, 445, 208);
    Shrinks(S, v, 6, s, 32, 208, 91);
    Shrinks(S, v, 7, s, 32, 91, 34);
    Shrinks(S, v, 8, s, 32, 34, 9);
    Shrinks(S, v, 9, s, 32, 9, 1);
  }

  lemma {:induction false} LargeRoots(S: nat, v: nat, s: nat)
    requires S > 0 && v > 0 && IsRoot(s, v * S) && 123 <= s <= 209
    ensures Iterate(S, v, 10) <= s + 1
  {
    FirstError(S, v, s);
    SquareMono(s, 209);
    Shrinks(S, v, 1, s, 123, 22049, 10964);
    Shrinks(S, v, 2, s, 123, 10964, 5422);
    Shrinks(S, v, 3, s, 123, 5422, 2651);
    Shrinks(S, v, 4, s, 123, 2651, 1267);
    Shrinks(S, v, 5, s, 123, 1267, 578);
    Shrinks(S, v, 6, s, 123, 578, 239);
    Shrinks(S, v, 7, s, 123, 239, 79);
    Shrinks(S, v, 8, s, 123, 79, 16);
    Shrinks(S, v, 9, s, 123, 16, 1);
  }

  // ---------------------------------------------------------------------------------------------
  // Large roots, by the ratio of scale and value
  // ---------------------------------------------------------------------------------------------

  /** Errors are compared with a * s + b in units of one over this. */
  const Unit: nat := 1_00000_00000

  /** Scale and value differ by a factor of at most r * r. */
  predicate Ratio(S: nat, v: nat, r: nat) {
    S <= r * r * v && v <= r * r * S
  }

  /** The sum of two numbers whose ratio is bounded, against the root of their product. */
  lemma {:induction false} SumAgainstRoot(S: nat, v: nat, r: nat, s: nat)
    requires r > 0 && Ratio(S, v, r) && IsRoot(s, v * S)
    ensures r * (S + v) <= (r * r + 1) * (s + 1)
  {
    var q, n, t := r * r, v * S, s + 1;
    NonNegativeProduct(q * v - S, q * S - v);
    assert (q * v - S) * (q * S - v) == q * q * n - q * (v * v) - q * (S * S) + n by {
      Expand(q, S, v);
    }
    assert (r * (S + v)) * (r * (S + v)) == q * (S * S) + 2 * q * n + q * (v * v) by {
      SquareOfSum(r, S, v);
    }
    assert ((q + 1) * t) * ((q + 1) * t) == (q * q + 2 * q + 1) * (t * t) by {
      SquareOfProduct(q, t);
    }
    Scaled(n, t * t, q * q + 2 * q + 1);
    assert n * (q * q + 2 * q + 1) == q * q * n + 2 * q * n + n by {
      ThreeTerms(q, n);
    }
    SquareOrder(r * (S + v), (q + 1) * t);
  }

  lemma {:induction false} NonNegativeProduct(a: int, b: int)
    requires a >= 0 && b >= 0
    ensures a * b >= 0
  {
  }

  lemma {:induction false} Expand(q: int, S: int, v: int)
    ensures (q * v - S) * (q * S - v) == q * q * (v * S) - q * (v * v) - q * (S * S) + v * S
  {
  }

  lemma {:induction false} SquareOfSum(r: int, S: int, v: int)
    ensures (r * (S + v)) * (r * (S + v)) == (r * r) * (S * S) + 2 * (r * r) * (v * S) + (r * r) * (v * v)
  {
    assert (r * (S + v)) * (r * (S + v)) == (r * r) * ((S + v) * (S + v));
    assert (S + v) * (S + v) == S * S + 2 * (v * S) + v * v;
    Spread(r * r, S * S, 2 * (v * S), v * v);
  }

  lemma {:induction false} Spread(q: int, a: int, b: int, c: int)
    ensures q * (a + b + c) == q * a + q * b + q * c
  {
  }

  lemma {:induction false} SquareOfProduct(q: int, t: int)
    ensures ((q + 1) * t) * ((q + 1) * t) == (q * q + 2 * q + 1) * (t * t)
  {
    assert (q + 1) * (q + 1) == q * q + 2 * q + 1;
    assert ((q + 1) * t) * ((q + 1) * t) == ((q + 1) * (q + 1)) * (t * t);
  }

  lemma {:induction false} ThreeTerms(q: int, n: int)
    ensures n * (q * q + 2 * q + 1) == q * q * n + 2 * q * n + n
  {
  }

  lemma {:induction false} SquareOrder(a: nat, b: nat)
    requires a * a <= b * b
    ensures a <= b
  {
    assert (b + 1) * (b + 1) == b * b + 2 * b + 1;
    if a > b {
      SquareMono(b + 1, a);
    }
  }

  /** The error of the first iterate, from the ratio. */
  lemma {:induction false} FirstRatioError(S: nat, v: nat, r: nat, s: nat, a: nat)
    requires S > 0 && v > 0 && r > 0 && Ratio(S, v, r) && IsRoot(s, v * S)
    requires (r * r + 1) * Unit <= 2 * r * (a + Unit)
    ensures Unit * (Iterate(S, v, 1) - s) <= a * s + (a + Unit)
  {
    FirstIterate(S, v);
    SumAgainstRoot(S, v, r, s);
    var x, t := Iterate(S, v, 1), s + 1;
    FirstBound(r, x, t, a, (r * r + 1) * t, S + v);
    assert (a + Unit) * t == a * s + a + Unit * s + Unit;
  }

  lemma {:induction false} FirstBound(r: nat, x: nat, t: nat, a: nat, bound: nat, sum: nat)
    requires r > 0 && bound == (r * r + 1) * t && r * sum <= bound && 2 * x <= sum
    requires (r * r + 1) * Unit <= 2 * r * (a + Unit)
    ensures Unit * x <= (a + Unit) * t
  {
    Scaled(2 * x, sum, r);
    assert 2 * x * r == 2 * r * x;
    Scaled((r * r + 1) * Unit, 2 * r * (a + Unit), t);
    Regroup(r * r + 1, Unit, t);
    Regroup(2 * r, a + Unit, t);
    Regroup(2 * r, Unit, x);
    CancelFactor(2 * r, Unit * x, (a + Unit) * t);
  }

  lemma {:induction false} Regroup(x: int, y: int, z: int)
    ensures x * y * z == x * (y * z) && x * (y * z) == (x * z) * y
  {
  }

  lemma {:induction false} CancelFactor(f: nat, x: int, y: int)
    requires f > 0 && f * x <= f * y
    ensures x <= y
  {
    assert (y + 1) * f == f * y + f;
    if x > y {
      Scaled(y + 1, x, f);
    }
  }

  /** A step, with the error before it bounded by e <= E / Unit. */
  lemma {:induction false} StepBound(e: nat, E: nat, y: int, s: nat)
    requires 2 * (y - 1) * (s + e) <= e * e && Unit * e <= E && s > 0
    ensures 2 * Unit * (y - 1) * (Unit * s + E) <= E * E
  {
    var d, w := E - Unit * e, s + e;
    assert E == Unit * e + d && Unit * s + E == Unit * w + d;
    Scaled(2 * (y - 1) * w, e * e, Unit * (Unit * w + d));
    Monotone(e, d, w);
    assert 2 * (y - 1) * w * (Unit * (Unit * w + d)) == w * (2 * Unit * (y - 1) * (Unit * w + d)) by {
      Reorder(y - 1, w, Unit * w + d);
    }
    CancelFactor(w, 2 * Unit * (y - 1) * (Unit * w + d), E * E);
  }

  lemma {:induction false} Reorder(y: int, w: int, z: int)
    ensures 2 * y * w * (Unit * z) == w * (2 * Unit * y * z)
  {
    assert 2 * y * w * (Unit * z) == 2 * Unit * (y * w * z);
    assert w * (2 * Unit * y * z) == 2 * Unit * (w * (y * z));
    assert w * (y * z) == y * w * z;
  }

  /** e * e / (s + e) grows with e. */
  lemma {:induction false} Monotone(e: nat, d: nat, w: nat)
    requires e <= w
    ensures e * e * (Unit * (Unit * w + d)) <= w * ((Unit * e + d) * (Unit * e + d))
  {
    Scaled(e, w, e * d);
    assert e * d * e <= e * d * w;
    assert w * (d * d) >= 0;
    var ee, ed := e * e, e * d;
    assert (Unit * e + d) * (Unit * e + d) == Unit * Unit * ee + 2 * Unit * ed + d * d;
    Spread(w, Unit * Unit * ee, 2 * Unit * ed, d * d);
    assert ee * (Unit * (Unit * w + d)) == Unit * Unit * (ee * w) + Unit * (ee * d);
    assert ee * d == ed * e;
    assert w * (Unit * Unit * ee) == Unit * Unit * (ee * w) && w * (2 * Unit * ed) == 2 * Unit * (ed * w);
    assert ed * w >= 0;
  }

  /** The polynomial behind one step: with these coefficients the new bound is enough from s = 210 on. */
  predicate Suffices(a: nat, b: nat, a': nat, b': nat) {
    var c1 := 2 * a' * b + 2 * (b' - Unit) * (Unit + a) - 2 * a * b;
    var c0 := 2 * (b' - Unit) * b - b * b;
    b' >= Unit && 2 * a' * (Unit + a) >= a * a && c1 >= 0 && 210 * c1 + c0 >= 0
  }

  lemma {:induction false} Polynomial(a: nat, b: nat, a': nat, b': nat, s: nat)
    requires Suffices(a, b, a', b') && s >= 210
    ensures 2 * (a' * s + b' - Unit) * (Unit * s + (a * s + b)) >= (a * s + b) * (a * s + b)
  {
    var c2, q := 2 * a' * (Unit + a) - a * a, b' - Unit;
    var c1, c0 := 2 * a' * b + 2 * q * (Unit + a) - 2 * a * b, 2 * q * b - b * b;
    NonNegativeProduct(c2, s * s);
    Scaled(210, s, c1);
    LeftSide(a, b, a', q, s);
    SquareOfLine(a, b, s);
    Difference(2 * a' * (Unit + a), a * a, s * s);
    Difference(2 * a' * b + 2 * q * (Unit + a), 2 * a * b, s);
  }

  lemma {:induction false} Difference(x: int, y: int, z: int)
    ensures (x - y) * z == x * z - y * z
  {
  }

  lemma {:induction false} LeftSide(a: int, b: int, a': int, q: int, s: int)
    ensures 2 * (a' * s + q) * (Unit * s + (a * s + b))
         == 2 * a' * (Unit + a) * (s * s) + (2 * a' * b + 2 * q * (Unit + a)) * s + 2 * q * b
  {
    var g := Unit + a;
    assert Unit * s + (a * s + b) == g * s + b;
    TwoLines(a', q, g, b, s);
  }

  lemma {:induction false} TwoLines(a: int, q: int, g: int, b: int, s: int)
    ensures 2 * (a * s + q) * (g * s + b) == 2 * a * g * (s * s) + (2 * a * b + 2 * q * g) * s + 2 * q * b
  {
    assert (a * s + q) * (g * s + b) == (a * s) * (g * s) + (a * s) * b + q * (g * s) + q * b;
    assert (a * s) * (g * s) == a * g * (s * s) && (a * s) * b == a * b * s && q * (g * s) == q * g * s;
  }

  lemma {:induction false} SquareOfLine(a: int, b: int, s: int)
    ensures (a * s + b) * (a * s + b) == a * a * (s * s) + 2 * a * b * s + b * b
  {
    assert (a * s + b) * (a * s + b) == (a * s) * (a * s) + 2 * ((a * s) * b) + b * b;
    assert (a * s) * (a * s) == a * a * (s * s) && (a * s) * b == a * b * s;
  }

  /** One step of the iteration turns the bound a * s + b into a' * s + b'. */
  lemma {:induction false} RatioShrinks(S: nat, v: nat, k: nat, s: nat, a: nat, b: nat, a': nat, b': nat)
    requires S > 0 && v > 0 && IsRoot(s, v * S) && k > 0 && s >= 210 && Suffices(a, b, a', b')
    requires Unit * (Iterate(S, v, k) - s) <= a * s + b
    ensures Unit * (Iterate(S, v, k + 1) - s) <= a' * s + b'
  {
    var x, y, E := Iterate(S, v, k), Iterate(S, v, k + 1) - s, a * s + b;
    IteratesAbove(S, v, k, s);
    StepQuadratic(x, v * S, s);
    StepBound(x - s, E, y, s);
    Polynomial(a, b, a', b', s);
    if Unit * y > a' * s + b' {
      StrictlyLess(a' * s + b' - Unit, Unit * (y - 1), Unit * s + E);
    }
  }

  lemma {:induction false} StrictlyLess(p: int, q: int, z: nat)
    requires p < q && z > 0
    ensures 2 * p * z < 2 * q * z
  {
    Scaled(p + 1, q, z);
    assert (p + 1) * z == p * z + z;
    assert 2 * p * z == 2 * (p * z) && 2 * q * z == 2 * (q * z);
  }

  lemma {:induction false} SixteenBitsStart(S: nat, v: nat, s: nat)
    requires S > 0 && v > 0 && IsRoot(s, v * S) && Ratio(S, v, 256) && 210 <= s <= 1400
    ensures Unit * (Iterate(S, v, 5) - s) <= 70415828495 * s + 98301753160
  {
    FirstRatioError(S, v, 256, s, 1270019531250);
    RatioShrinks(S, v, 1, s, 1270019531250, 1280019531250, 630048827529, 649970888849);
    RatioShrinks(S, v, 2, s, 630048827529, 649970888849, 310102532805, 334906496152);
    RatioShrinks(S, v, 3, s, 310102532805, 334906496152, 150207466354, 177290634420);
    RatioShrinks(S, v, 4, s, 150207466354, 177290634420, 70415828495, 98301753160);
  }

  lemma {:induction false} SixteenBits(S: nat, v: nat, s: nat)
    requires S > 0 && v > 0 && IsRoot(s, v * S) && Ratio(S, v, 256) && 210 <= s <= 1400
    ensures Iterate(S, v, 10) <= s + 1
  {
    SixteenBitsStart(S, v, s);
    RatioShrinks(S, v, 5, s, 70415828495, 98301753160, 30829682387, 58395214775);
    RatioShrinks(S, v, 6, s, 30829682387, 58395214775, 11639440482, 37458014974);
    RatioShrinks(S, v, 7, s, 11639440482, 37458014974, 3130316028, 24762050046);
    RatioShrinks(S, v, 8, s, 3130316028, 24762050046, 373139475, 15263589443);
    RatioShrinks(S, v, 9, s, 373139475, 15263589443, 6711231, 10588533587);
  }

  lemma {:induction false} FourteenBitsStart(S: nat, v: nat, s: nat)
    requires S > 0 && v > 0 && IsRoot(s, v * S) && Ratio(S, v, 128) && 210 <= s <= 4194304
    ensures Unit * (Iterate(S, v, 5) - s) <= 30829084581 * s + 57787027781
  {
    FirstRatioError(S, v, 128, s, 630039062500);
    RatioShrinks(S, v, 1, s, 630039062500, 640039062500, 310097651482, 329941781257);
    RatioShrinks(S, v, 2, s, 310097651482, 329941781257, 150205028075, 174810670938);
    RatioShrinks(S, v, 3, s, 150205028075, 174810670938, 70414614105, 97066542109);
    RatioShrinks(S, v, 4, s, 70414614105, 97066542109, 30829084581, 57787027781);
  }

  lemma {:induction false} FourteenBits(S: nat, v: nat, s: nat)
    requires S > 0 && v > 0 && IsRoot(s, v * S) && Ratio(S, v, 128) && 210 <= s <= 4194304
    ensures Iterate(S, v, 10) <= s + 1
  {
    FourteenBitsStart(S, v, s);
    RatioShrinks(S, v, 5, s, 30829084581, 57787027781, 11639159510, 37171867820);
    RatioShrinks(S, v, 6, s, 11639159510, 37171867820, 3130205544, 24648932929);
    RatioShrinks(S, v, 7, s, 3130205544, 24648932929, 373116275, 15239137718);
    RatioShrinks(S, v, 8, s, 373116275, 15239137718, 6710412, 10587481046);
    RatioShrinks(S, v, 9, s, 6710412, 10587481046, 2250, 10033599538);
  }

  lemma {:induction false} TwelveBitsStart(S: nat, v: nat, s: nat)
    requires S > 0 && v > 0 && IsRoot(s, v * S) && Ratio(S, v, 64) && 210 <= s <= 8589934592
    ensures Unit * (Iterate(S, v, 5) - s) <= 11638035559 * s + 36603253026
  {
    FirstRatioError(S, v, 64, s, 310078125000);
    RatioShrinks(S, v, 1, s, 310078125000, 320078125000, 150195274363, 169883590978);
    RatioShrinks(S, v, 2, s, 150195274363, 169883590978, 70409756252, 94612463124);
    RatioShrinks(S, v, 3, s, 70409756252, 94612463124, 30826693219, 56578662366);
    RatioShrinks(S, v, 4, s, 30826693219, 56578662366, 11638035559, 36603253026);
  }

  lemma {:induction false} TwelveBits(S: nat, v: nat, s: nat)
    requires S > 0 && v > 0 && IsRoot(s, v * S) && Ratio(S, v, 64) && 210 <= s <= 8589934592
    ensures Iterate(S, v, 10) <= s + 1
  {
    TwelveBitsStart(S, v, s);
    RatioShrinks(S, v, 5, s, 11638035559, 36603253026, 3129763590, 24423967073);
    RatioShrinks(S, v, 6, s, 3129763590, 24423967073, 373023477, 15190282782);
    RatioShrinks(S, v, 7, s, 373023477, 15190282782, 6707134, 10585316547);
    RatioShrinks(S, v, 8, s, 6707134, 10585316547, 2248, 10033583842);
    RatioShrinks(S, v, 9, s, 2248, 10033583842, 1, 10023857974);
  }

  /** Scales and values for which the iteration converges: the product is below 210^2, or the two differ by a
      factor of at most 2^16, 2^14 or 2^12 and the product is below a bound. */
  predicate Certain(S: nat, v: nat) {
    || v * S < 210 * 210
    || (Ratio(S, v, 256) && v * S < 1400 * 1400)
    || (Ratio(S, v, 128) && v * S < 0x40_0000 * 0x40_0000)
    || (Ratio(S, v, 64) && v * S < 0x2_0000_0000 * 0x2_0000_0000)
  }

  lemma {:induction false} RootBelow(s: nat, n: nat, m: nat)
    requires IsRoot(s, n) && n < m * m
    ensures s < m
  {
    if m <= s {
      SquareMono(m, s);
    }
  }

  lemma {:induction false} TenthIterate(S: nat, v: nat, s: nat)
    requires S > 0 && v > 0 && Certain(S, v) && IsRoot(s, v * S)
    ensures Iterate(S, v, 10) <= s + 1
  {
    Positive(S, v, s);
    if s <= 31 {
      SmallRoots(S, v, s);
    } else if s <= 122 {
      MiddleRoots(S, v, s);
    } else if s <= 209 {
      LargeRoots(S, v, s);
    } else if v * S < 210 * 210 {
      RootBelow(s, v * S, 210);
    } else if Ratio(S, v, 256) && v * S < 1400 * 1400 {
      RootBelow(s, v * S, 1400);
      SixteenBits(S, v, s);
    } else if Ratio(S, v, 128) && v * S < 0x40_0000 * 0x40_0000 {
      RootBelow(s, v * S, 0x40_0000);
      FourteenBits(S, v, s);
    } else {
      RootBelow(s, v * S, 0x2_0000_0000);
      TwelveBits(S, v, s);
    }
  }

  /** There the tenth iterate is the root or one above it, and the result is the exact root unless v * S is one below a
      square; then it may be one above. */
  lemma {:induction false} Converges(S: nat, v: nat, s: nat)
    requires S > 0 && v > 0 && Certain(S, v) && IsRoot(s, v * S)
    ensures Iterate(S, v, 10) in {s, s + 1}
    ensures Iterate(S, v, MaxSteps) == s || (Iterate(S, v, MaxSteps) == s + 1 && v * S + 1 == (s + 1) * (s + 1))
  {
    TenthIterate(S, v, s);
    IteratesAbove(S, v, 10, s);
    IteratesStay(S, v, 10, MaxSteps, s);
  }

  /** In particular for scales and values up to 2^16. */
  lemma {:induction false} SixteenBitsAreCertain(S: nat, v: nat)
    requires 0 < S <= 0x1_0000 && 0 < v <= 0x1_0000
    ensures Certain(S, v)
  {
    Scaled(1, S, 0x1_0000);
    Scaled(1, v, 0x1_0000);
    if !Ratio(S, v, 128) {
      var lo, hi := if S <= v then S else v, if S <= v then v else S;
      assert lo * hi == v * S && lo <= 3;
      Scaled(lo, 3, hi);
    } else {
      Scaled(S, 0x1_0000, v);
    }
  }

  /** And, with 10 fractional bits, for values up to 2^24. */
  lemma {:induction false} TenFractionalBitsAreCertain(v: nat)
    requires 0 < v <= 0x100_0000
    ensures Certain(0x400, v)
  {
  }

  /** Elsewhere it need not: for the scale 2^22 and the value 1 the result is 2688, the root 2048. */
  lemma {:induction false} StopsEarly()
    ensures Iterate(0x40_0000, 1, MaxSteps) == 2688 && IsRoot(2048, 0x40_0000)
  {
    var S := 0x40_0000;
    assert Iterate(S, 1, 1) == 2097152;
    assert Iterate(S, 1, 2) == 1048577;
    assert Iterate(S, 1, 3) == 524290;
    assert Iterate(S, 1, 4) == 262148;
    assert Iterate(S, 1, 5) == 131081;
    assert Iterate(S, 1, 6) == 65556;
    assert Iterate(S, 1, 7) == 32809;
    assert Iterate(S, 1, 8) == 16468;
    assert Iterate(S, 1, 9) == 8361;
    assert Iterate(S, 1, 10) == 4431;
    assert Iterate(S, 1, 11) == 2688;
  }
}
