/** Fixed-point forward and back substitution: `qinvertLt` and `qinvertUt` of software/data/qmath.py, on a
    complex triangular matrix. The code divides by the real part of the diagonal and ignores its imaginary part. */
module Substitution {
  import opened Newton
  import C = Cholesky

  /** A complex vector. */
  datatype Vector = Vector(re: seq<int>, im: seq<int>)

  /** Row of a complex matrix, times a vector. */
  function ReProduct(m: Vector, x: Vector, j: nat): int
    requires j < |m.re| && j < |m.im| && j < |x.re| && j < |x.im|
  {
    m.re[j] * x.re[j] - m.im[j] * x.im[j]
  }

  function ImProduct(m: Vector, x: Vector, j: nat): int
    requires j < |m.re| && j < |m.im| && j < |x.re| && j < |x.im|
  {
    m.re[j] * x.im[j] + m.im[j] * x.re[j]
  }

  predicate Long(v: Vector, n: nat) {
    |v.re| == n && |v.im| == n
  }

  function Product(im: bool, m: Vector, x: Vector, j: nat): int
    requires j < |m.re| && j < |m.im| && j < |x.re| && j < |x.im|
  {
    if im then ImProduct(m, x, j) else ReProduct(m, x, j)
  }

  /** Real or imaginary part of the exact sum over columns lo up to hi. */
  function Sum(im: bool, m: Vector, x: Vector, lo: nat, hi: nat): int
    requires Long(m, |m.re|) && Long(x, |m.re|) && hi <= |m.re|
    decreases hi
  {
    if hi <= lo then 0 else Sum(im, m, x, lo, hi - 1) + Product(im, m, x, hi - 1)
  }

  /** What is left of y after the columns lo up to hi, each scaled on its own. */
  function Rest(im: bool, y: int, m: Vector, x: Vector, S: nat, lo: nat, hi: nat): int
    requires Long(m, |m.re|) && Long(x, |m.re|) && hi <= |m.re|
    decreases hi
  {
    if hi <= lo then y else Rest(im, y, m, x, S, lo, hi - 1) - FloorDiv(Product(im, m, x, hi - 1), S)
  }

  lemma {:induction false} RestError(im: bool, y: int, m: Vector, x: Vector, S: nat, lo: nat, hi: nat)
    requires Long(m, |m.re|) && Long(x, |m.re|) && lo <= hi <= |m.re| && S > 0
    ensures var r := S * Rest(im, y, m, x, S, lo, hi);
            r - (hi - lo) * (S - 1) <= S * y - Sum(im, m, x, lo, hi) <= r
    decreases hi
  {
    if lo < hi {
      RestError(im, y, m, x, S, lo, hi - 1);
      var p := Product(im, m, x, hi - 1);
      FloorDivFacts(p, S);
      C.OneMore(S, Rest(im, y, m, x, S, lo, hi - 1), FloorDiv(p, S), hi - lo);
    }
  }

  lemma {:induction false} RestSame(im: bool, y: int, m: Vector, x: Vector, x': Vector, S: nat, lo: nat, hi: nat)
    requires Long(m, |m.re|) && Long(x, |m.re|) && Long(x', |m.re|) && hi <= |m.re|
    requires forall j {:trigger x.re[j]} {:trigger x'.re[j]} {:trigger x.im[j]} {:trigger x'.im[j]} ::
               lo <= j < hi ==> x.re[j] == x'.re[j] && x.im[j] == x'.im[j]
    ensures Rest(im, y, m, x, S, lo, hi) == Rest(im, y, m, x', S, lo, hi)
    decreases hi
  {
    if lo < hi {
      RestSame(im, y, m, x, x', S, lo, hi - 1);
      assert x.re[hi - 1] == x'.re[hi - 1] && x.im[hi - 1] == x'.im[hi - 1];
    }
  }

  // ---------------------------------------------------------------------------------------------
  // Solutions
  // ---------------------------------------------------------------------------------------------

  /** A system of n equations: a row per equation, and a right-hand side. */
  datatype System = System(rows: seq<Vector>, y: Vector)

  ghost predicate WellFormed(s: System) {
    Long(s.y, |s.rows|) && forall i {:trigger s.rows[i]} :: 0 <= i < |s.rows| ==> Long(s.rows[i], |s.rows|)
  }

  function Part(v: Vector, im: bool): seq<int> { if im then v.im else v.re }

  /** Equation i was solved for x[i] with the columns lo up to hi already known. */
  ghost predicate SolvedFor(s: System, x: Vector, S: nat, i: nat, lo: nat, hi: nat, im: bool)
    requires WellFormed(s) && Long(x, |s.rows|) && i < |s.rows| && hi <= |s.rows|
  {
    Part(x, im)[i] == FloorDiv(Rest(im, Part(s.y, im)[i], s.rows[i], x, S, lo, hi) * S, s.rows[i].re[i])
  }

  /** How far equation i is from holding, with the real part of the diagonal entry alone: S * y minus the columns
      lo up to hi and re(M[i, i]) * x[i]. */
  function Error(s: System, x: Vector, S: nat, i: nat, lo: nat, hi: nat, im: bool): int
    requires Long(s.y, |s.rows|) && Long(x, |s.rows|) && i < |s.rows| && hi <= |s.rows| && Long(s.rows[i], |s.rows|)
  {
    S * Part(s.y, im)[i] - Sum(im, s.rows[i], x, lo, hi) - s.rows[i].re[i] * Part(x, im)[i]
  }

  /** Each row holds up to its roundings: less than one per column, and less than the diagonal entry,
      on its side, for the division. */
  lemma {:induction false} RowError(s: System, x: Vector, S: nat, i: nat, lo: nat, hi: nat, im: bool)
    requires WellFormed(s) && Long(x, |s.rows|) && i < |s.rows| && lo <= hi <= |s.rows| && S > 0
    requires SolvedFor(s, x, S, i, lo, hi, im) && s.rows[i].re[i] != 0
    ensures var d, e := s.rows[i].re[i], Error(s, x, S, i, lo, hi, im);
            if d > 0 then -((hi - lo) * (S - 1)) <= e <= d - 1 else d + 1 - (hi - lo) * (S - 1) <= e <= 0
  {
    var y, m := Part(s.y, im)[i], s.rows[i];
    RestError(im, y, m, x, S, lo, hi);
    QuotientError(Rest(im, y, m, x, S, lo, hi), S, m.re[i]);
  }

  /** The residual of equation i: S * y - M x over columns lo up to hi and the diagonal. */
  function Residual(s: System, x: Vector, S: nat, i: nat, lo: nat, hi: nat, im: bool): int
    requires Long(s.y, |s.rows|) && Long(x, |s.rows|) && i < |s.rows| && hi <= |s.rows| && Long(s.rows[i], |s.rows|)
  {
    S * Part(s.y, im)[i] - Sum(im, s.rows[i], x, lo, hi) - Product(im, s.rows[i], x, i)
  }

  /** The residual differs from the error by what the code ignores: the imaginary part of the diagonal entry times
      the other part of the unknown. */
  lemma {:induction false} ResidualIsError(s: System, x: Vector, S: nat, i: nat, lo: nat, hi: nat, im: bool)
    requires WellFormed(s) && Long(x, |s.rows|) && i < |s.rows| && hi <= |s.rows|
    ensures var ignored := s.rows[i].im[i] * Part(x, !im)[i];
            Residual(s, x, S, i, lo, hi, im) == Error(s, x, S, i, lo, hi, im) + (if im then -ignored else ignored)
  {
  }

  /** With a real diagonal entry the bounds are those of the residual. */
  lemma {:induction false} ResidualBound(s: System, x: Vector, S: nat, i: nat, lo: nat, hi: nat, im: bool)
    requires WellFormed(s) && Long(x, |s.rows|) && i < |s.rows| && lo <= hi <= |s.rows| && S > 0
    requires SolvedFor(s, x, S, i, lo, hi, im) && s.rows[i].re[i] != 0 && s.rows[i].im[i] == 0
    ensures var d, e := s.rows[i].re[i], Residual(s, x, S, i, lo, hi, im);
            if d > 0 then -((hi - lo) * (S - 1)) <= e <= d - 1 else d + 1 - (hi - lo) * (S - 1) <= e <= 0
  {
    RowError(s, x, S, i, lo, hi, im);
    ResidualIsError(s, x, S, i, lo, hi, im);
  }

  lemma {:induction false} QuotientError(p: int, S: nat, d: int)
    ensures d > 0 ==> 0 <= S * p - d * FloorDiv(p * S, d) <= d - 1
    ensures d < 0 ==> d + 1 <= S * p - d * FloorDiv(p * S, d) <= 0
  {
    FloorDivFacts(p * S, d);
  }

  // ---------------------------------------------------------------------------------------------
  // The loops
  // ---------------------------------------------------------------------------------------------

  /** The inner loop: both parts of the sum over columns lo up to hi. */
  method Subtract(yRe: int, yIm: int, m: Vector, x: Vector, S: nat, lo: nat, hi: nat) returns (re: int, im: int)
    requires Long(m, |m.re|) && Long(x, |m.re|) && lo <= hi <= |m.re|
    ensures re == Rest(false, yRe, m, x, S, lo, hi) && im == Rest(true, yIm, m, x, S, lo, hi)
  {
    re, im := yRe, yIm;
    for j := lo to hi
      invariant re == Rest(false, yRe, m, x, S, lo, j) && im == Rest(true, yIm, m, x, S, lo, j)
    {
      re := re - FloorDiv(m.re[j] * x.re[j] - m.im[j] * x.im[j], S);
      im := im - FloorDiv(m.re[j] * x.im[j] + m.im[j] * x.re[j], S);
    }
  }

  /** One unknown. */
  method Solve(s: System, x: Vector, S: nat, i: nat, lo: nat, hi: nat) returns (r: Vector)
    requires WellFormed(s) && Long(x, |s.rows|) && i < |s.rows| && lo <= hi <= |s.rows| && (i < lo || hi <= i)
    ensures Long(r, |s.rows|) && SolvedFor(s, r, S, i, lo, hi, false) && SolvedFor(s, r, S, i, lo, hi, true)
    ensures forall j {:trigger r.re[j]} {:trigger r.im[j]} :: 0 <= j < |s.rows| && j != i ==> r.re[j] == x.re[j] && r.im[j] == x.im[j]
  {
    var m := s.rows[i];
    var re, im := Subtract(s.y.re[i], s.y.im[i], m, x, S, lo, hi);
    r := Vector(x.re[i := FloorDiv(re * S, m.re[i])], x.im[i := FloorDiv(im * S, m.re[i])]);
    RestSame(false, s.y.re[i], m, x, r, S, lo, hi);
    RestSame(true, s.y.im[i], m, x, r, S, lo, hi);
  }

  /** A solved equation stays solved when a later unknown is set. */
  lemma {:induction false} StaysSolved(s: System, x: Vector, x': Vector, S: nat, i: nat, lo: nat, hi: nat, im: bool)
    requires WellFormed(s) && Long(x, |s.rows|) && Long(x', |s.rows|) && i < |s.rows| && lo <= hi <= |s.rows|
    requires SolvedFor(s, x, S, i, lo, hi, im) && x.re[i] == x'.re[i] && x.im[i] == x'.im[i]
    requires forall j {:trigger x.re[j]} {:trigger x'.re[j]} {:trigger x.im[j]} {:trigger x'.im[j]} ::
               lo <= j < hi ==> x.re[j] == x'.re[j] && x.im[j] == x'.im[j]
    ensures SolvedFor(s, x', S, i, lo, hi, im)
  {
    RestSame(im, Part(s.y, im)[i], s.rows[i], x, x', S, lo, hi);
  }

  /** Equation i of a lower triangular system. */
  ghost predicate SolvedLower(s: System, x: Vector, S: nat, i: nat)
    requires WellFormed(s) && Long(x, |s.rows|) && i < |s.rows|
  {
    SolvedFor(s, x, S, i, 0, i, false) && SolvedFor(s, x, S, i, 0, i, true)
  }

  ghost predicate SolvedUpper(s: System, x: Vector, S: nat, i: nat)
    requires WellFormed(s) && Long(x, |s.rows|) && i < |s.rows|
  {
    SolvedFor(s, x, S, i, i + 1, |s.rows|, false) && SolvedFor(s, x, S, i, i + 1, |s.rows|, true)
  }

  /** qinvertLt */
  method InvertLower(s: System, S: nat) returns (x: Vector)
    requires WellFormed(s) && S > 0
    ensures Long(x, |s.rows|)
    ensures forall i: nat {:trigger SolvedLower(s, x, S, i)} :: i < |s.rows| ==> SolvedLower(s, x, S, i)
  {
    var n := |s.rows|;
    x := Vector(seq(n, _ => 0), seq(n, _ => 0));
    for i := 0 to n
      invariant Long(x, n)
      invariant forall k: nat {:trigger SolvedLower(s, x, S, k)} :: k < i ==> SolvedLower(s, x, S, k)
    {
      var before := x;
      x := Solve(s, x, S, i, 0, i);
      forall k: nat | k < i ensures SolvedLower(s, x, S, k) {
        assert SolvedLower(s, before, S, k);
        StaysSolved(s, before, x, S, k, 0, k, false);
        StaysSolved(s, before, x, S, k, 0, k, true);
      }
    }
  }

  /** qinvertUt */
  method InvertUpper(s: System, S: nat) returns (x: Vector)
    requires WellFormed(s) && S > 0
    ensures Long(x, |s.rows|)
    ensures forall i: nat {:trigger SolvedUpper(s, x, S, i)} :: i < |s.rows| ==> SolvedUpper(s, x, S, i)
  {
    var n := |s.rows|;
    x := Vector(seq(n, _ => 0), seq(n, _ => 0));
    for i := n downto 0
      invariant Long(x, n)
      invariant forall k: nat {:trigger SolvedUpper(s, x, S, k)} :: i <= k < n ==> SolvedUpper(s, x, S, k)
    {
      var before := x;
      x := Solve(s, x, S, i, i + 1, n);
      forall k: nat | i < k < n ensures SolvedUpper(s, x, S, k) {
        assert SolvedUpper(s, before, S, k);
        StaysSolved(s, before, x, S, k, k + 1, n, false);
        StaysSolved(s, before, x, S, k, k + 1, n, true);
      }
    }
  }
}
