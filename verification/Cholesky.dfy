/** Fixed-point Cholesky decomposition: `qcholesky` of software/data/qmath.py, with scale S. */
module Cholesky {
  import opened Newton
  import opened NewtonConvergence
  import opened Options

  type Matrix = seq<seq<int>>

  predicate Square(A: Matrix) {
    forall i :: 0 <= i < |A| ==> |A[i]| == |A|
  }

  // ---------------------------------------------------------------------------------------------
  // Sums along two rows
  // ---------------------------------------------------------------------------------------------

  /** The inner product of the first k entries of two rows. */
  function Dot(p: seq<int>, q: seq<int>, k: nat): int
    requires k <= |p| && k <= |q|
    decreases k
  {
    if k == 0 then 0 else Dot(p, q, k - 1) + p[k - 1] * q[k - 1]
  }

  /** What remains of a after subtracting the scaled products one by one. */
  function Pivot(a: int, p: seq<int>, q: seq<int>, S: nat, k: nat): int
    requires k <= |p| && k <= |q|
    decreases k
  {
    if k == 0 then a else Pivot(a, p, q, S, k - 1) - FloorDiv(p[k - 1] * q[k - 1], S)
  }

  /** Scaling each product on its own loses less than one unit per product. */
  lemma {:induction false} PivotError(a: int, p: seq<int>, q: seq<int>, S: nat, k: nat)
    requires k <= |p| && k <= |q| && S > 0
    ensures S * Pivot(a, p, q, S, k) - k * (S - 1) <= S * a - Dot(p, q, k) <= S * Pivot(a, p, q, S, k)
    decreases k
  {
    if k > 0 {
      PivotError(a, p, q, S, k - 1);
      var x := p[k - 1] * q[k - 1];
      FloorDivFacts(x, S);
      OneMore(S, Pivot(a, p, q, S, k - 1), FloorDiv(x, S), k);
    }
  }

  lemma {:induction false} OneMore(S: int, y: int, d: int, k: int)
    ensures S * (y - d) == S * y - d * S && k * (S - 1) == (k - 1) * (S - 1) + (S - 1)
  {
  }

  /** Only the first k entries of the rows matter. */
  lemma {:induction false} PivotPrefix(a: int, p: seq<int>, q: seq<int>, p': seq<int>, q': seq<int>, S: nat, k: nat)
    requires k <= |p| && k <= |q| && k <= |p'| && k <= |q'| && p[..k] == p'[..k] && q[..k] == q'[..k]
    ensures Pivot(a, p, q, S, k) == Pivot(a, p', q', S, k)
    decreases k
  {
    if k > 0 {
      assert p[..k - 1] == p[..k][..k - 1] && p'[..k - 1] == p'[..k][..k - 1];
      assert q[..k - 1] == q[..k][..k - 1] && q'[..k - 1] == q'[..k][..k - 1];
      PivotPrefix(a, p, q, p', q', S, k - 1);
      assert p[k - 1] == p[..k][k - 1] == p'[k - 1] && q[k - 1] == q[..k][k - 1] == q'[k - 1];
    }
  }

  // ---------------------------------------------------------------------------------------------
  // The decomposition
  // ---------------------------------------------------------------------------------------------

  function Clamp(x: int): nat { if x < 0 then 0 else x }

  /** The pivot of entry (i, j), from the rows above it and to its left. */
  function PivotAt(A: Matrix, L: Matrix, S: nat, i: nat, j: nat): int
    requires Square(A) && Square(L) && |L| == |A| && j <= i < |A|
  {
    Pivot(A[i][j], L[i], L[j], S, j)
  }

  /** What the factor holds at (i, j). */
  ghost predicate EntryOk(A: Matrix, L: Matrix, S: nat, i: nat, j: nat)
    requires Square(A) && Square(L) && |L| == |A| && i < |A| && j < |A|
  {
    if i == j then L[i][i] == Iterate(S, Clamp(PivotAt(A, L, S, i, i)), MaxSteps)
    else if i > j then L[i][j] == FloorDiv(PivotAt(A, L, S, i, j) * S, L[j][j])
    else L[i][j] == 0
  }

  ghost predicate IsFactor(A: Matrix, L: Matrix, S: nat) {
    && Square(A) && Square(L) && |L| == |A|
    && forall i: nat, j: nat {:trigger EntryOk(A, L, S, i, j)} :: i < |A| && j < |A| ==> EntryOk(A, L, S, i, j)
  }

  /** S * A - L * L^T at (i, j): the error of the factor. */
  function Residual(A: Matrix, L: Matrix, S: nat, i: nat, j: nat): int
    requires Square(A) && Square(L) && |L| == |A| && j <= i < |A|
  {
    S * A[i][j] - Dot(L[i], L[j], j + 1)
  }

  lemma {:induction false} ResidualOfPivot(A: Matrix, L: Matrix, S: nat, i: nat, j: nat)
    requires IsFactor(A, L, S) && S > 0 && j <= i < |A|
    ensures var r := S * PivotAt(A, L, S, i, j) - L[i][j] * L[j][j];
            r - j * (S - 1) <= Residual(A, L, S, i, j) <= r
  {
    PivotError(A[i][j], L[i], L[j], S, j);
  }

  /** A diagonal entry is positive exactly when its pivot is, or the scale is at least 2048: the root of a pivot
      that is not positive comes out as S / 2048. */
  lemma {:induction false} DiagonalPositive(A: Matrix, L: Matrix, S: nat, j: nat)
    requires IsFactor(A, L, S) && S > 0 && j < |A|
    ensures L[j][j] > 0 <==> S >= 2048 || PivotAt(A, L, S, j, j) > 0
    ensures PivotAt(A, L, S, j, j) <= 0 ==> L[j][j] == S / 2048
  {
    assert EntryOk(A, L, S, j, j);
    var p := PivotAt(A, L, S, j, j);
    RootOfZero(S);
    if p > 0 {
      IteratesAbove(S, p, MaxSteps, Root(p * S));
    }
  }

  /** Below the diagonal the factor reproduces S * A up to the roundings: less than one per product,
      and less than the diagonal entry for the division. */
  lemma {:induction false} OffDiagonalError(A: Matrix, L: Matrix, S: nat, i: nat, j: nat)
    requires IsFactor(A, L, S) && S > 0 && j < i < |A| && (S >= 2048 || PivotAt(A, L, S, j, j) > 0)
    ensures -(j * (S - 1)) <= Residual(A, L, S, i, j) <= L[j][j] - 1
  {
    DiagonalPositive(A, L, S, j);
    ResidualOfPivot(A, L, S, i, j);
    assert EntryOk(A, L, S, i, j);
    DivisionError(PivotAt(A, L, S, i, j), S, L[j][j]);
  }

  lemma {:induction false} DivisionError(p: int, S: nat, d: int)
    requires d > 0
    ensures 0 <= S * p - FloorDiv(p * S, d) * d <= d - 1
  {
    FloorDivFacts(p * S, d);
  }

  lemma {:induction false} SquareError(p: int, S: nat, x: nat)
    requires p > 0 && S > 0 && x == Iterate(S, p, MaxSteps)
    ensures S * p - x * x <= 2 * x
    ensures IsRoot(x, p * S) ==> 0 <= S * p - x * x
  {
    var s := Root(p * S);
    IteratesAbove(S, p, MaxSteps, s);
    RootRange(p * S, s);
    SquareMono(s, x);
  }

  /** Where the root converges, the square is at most one too large. */
  lemma {:induction false} SquareErrorBelow(p: int, S: nat, x: nat)
    requires p > 0 && S > 0 && Certain(S, p) && x == Iterate(S, p, MaxSteps)
    ensures IsRoot(x, p * S) || S * p - x * x == -1
  {
    Converges(S, p, Root(p * S));
  }

  /** On the diagonal the upper bound holds for every positive pivot. The lower one holds when the root has
      converged; it always does where scale and pivot make that certain, save one when S times the pivot is one
      below a square. */
  lemma {:induction false} DiagonalError(A: Matrix, L: Matrix, S: nat, j: nat)
    requires IsFactor(A, L, S) && S > 0 && j < |A| && PivotAt(A, L, S, j, j) > 0
    ensures Residual(A, L, S, j, j) <= 2 * L[j][j]
    ensures L[j][j] >= 0
    ensures IsRoot(L[j][j], PivotAt(A, L, S, j, j) * S) ==> -(j * (S - 1)) <= Residual(A, L, S, j, j)
    ensures Certain(S, PivotAt(A, L, S, j, j)) ==>
              && -(j * (S - 1)) - 1 <= Residual(A, L, S, j, j)
              && (IsRoot(L[j][j], PivotAt(A, L, S, j, j) * S) || S * PivotAt(A, L, S, j, j) + 1 == L[j][j] * L[j][j])
  {
    ResidualOfPivot(A, L, S, j, j);
    assert EntryOk(A, L, S, j, j);
    var p := PivotAt(A, L, S, j, j);
    SquareError(p, S, L[j][j]);
    if Certain(S, p) {
      SquareErrorBelow(p, S, L[j][j]);
    }
  }

  /** A pivot that is not positive is replaced by 0: the diagonal then misses by the pivot and by the square
      of S / 2048. */
  lemma {:induction false} ClampedError(A: Matrix, L: Matrix, S: nat, j: nat)
    requires IsFactor(A, L, S) && S > 0 && j < |A| && PivotAt(A, L, S, j, j) <= 0
    ensures var r := S * PivotAt(A, L, S, j, j) - (S / 2048) * (S / 2048);
            r - j * (S - 1) <= Residual(A, L, S, j, j) <= r
  {
    DiagonalPositive(A, L, S, j);
    ResidualOfPivot(A, L, S, j, j);
  }

  // ---------------------------------------------------------------------------------------------
  // The loops
  // ---------------------------------------------------------------------------------------------

  function Rows(L: array2<int>): (r: Matrix)
    reads L
    requires L.Length0 == L.Length1
    ensures Square(r) && |r| == L.Length0
    ensures forall i, j {:trigger r[i][j]} :: 0 <= i < |r| && 0 <= j < |r| ==> r[i][j] == L[i, j]
  {
    seq(L.Length0, i requires 0 <= i < L.Length0 reads L => seq(L.Length1, j requires 0 <= j < L.Length1 reads L => L[i, j]))
  }

  method PivotLoop(a: int, L: array2<int>, S: nat, i: nat, j: nat) returns (pivot: int)
    requires L.Length0 == L.Length1 && j <= i < L.Length0 && S > 0
    ensures pivot == Pivot(a, Rows(L)[i], Rows(L)[j], S, j)
  {
    pivot := a;
    for k := 0 to j
      invariant pivot == Pivot(a, Rows(L)[i], Rows(L)[j], S, k)
    {
      pivot := pivot - FloorDiv(L[i, k] * L[j, k], S);
    }
  }

  ghost predicate Earlier(i: nat, j: nat, row: nat, column: nat) {
    i < row || (i == row && j < column)
  }

  /** All entries before (row, column) are done. */
  ghost predicate DoneTo(A: Matrix, L: Matrix, S: nat, row: nat, column: nat)
    requires Square(A) && Square(L) && |L| == |A|
  {
    forall i: nat, j: nat {:trigger EntryOk(A, L, S, i, j)} :: i < |A| && j < |A| && Earlier(i, j, row, column) ==> EntryOk(A, L, S, i, j)
  }

  /** Writing an entry leaves the rows that earlier entries were computed from as they were. */
  ghost predicate Wrote(L: Matrix, L': Matrix, row: nat, column: nat) {
    && Square(L) && Square(L') && |L| == |L'| && row < |L| && column < |L|
    && forall i: nat, j: nat {:trigger L'[i][j]} :: i < |L| && j < |L| && !(i == row && j == column) ==> L'[i][j] == L[i][j]
  }

  lemma {:induction false} WriteKeepsPivot(A: Matrix, L: Matrix, L': Matrix, S: nat, row: nat, column: nat, i: nat, j: nat)
    requires Square(A) && Wrote(L, L', row, column) && |L| == |A| && j <= i < |A|
    requires Earlier(i, j, row, column) || (i == row && j == column)
    ensures PivotAt(A, L', S, i, j) == PivotAt(A, L, S, i, j)
  {
    assert L'[i][..j] == L[i][..j];
    assert L'[j][..j] == L[j][..j];
    PivotPrefix(A[i][j], L'[i], L'[j], L[i], L[j], S, j);
  }

  lemma {:induction false} WriteKeeps(A: Matrix, L: Matrix, L': Matrix, S: nat, row: nat, column: nat)
    requires Square(A) && Wrote(L, L', row, column) && |L| == |A| && DoneTo(A, L, S, row, column)
    ensures DoneTo(A, L', S, row, column)
  {
    forall i: nat, j: nat | i < |A| && j < |A| && Earlier(i, j, row, column) ensures EntryOk(A, L', S, i, j) {
      assert EntryOk(A, L, S, i, j);
      if j <= i {
        WriteKeepsPivot(A, L, L', S, row, column, i, j);
      }
    }
  }

  lemma {:induction false} RowDone(A: Matrix, L: Matrix, S: nat, row: nat)
    requires Square(A) && Square(L) && |L| == |A| && DoneTo(A, L, S, row, |A|)
    ensures DoneTo(A, L, S, row + 1, 0)
  {
  }

  lemma {:induction false} EntryDone(A: Matrix, L: Matrix, L': Matrix, S: nat, row: nat, column: nat)
    requires Square(A) && Wrote(L, L', row, column) && |L| == |A| && DoneTo(A, L, S, row, column)
    requires EntryOk(A, L', S, row, column)
    ensures DoneTo(A, L', S, row, column + 1)
  {
    WriteKeeps(A, L, L', S, row, column);
  }

  /** The value of one entry. */
  method Entry(A: Matrix, L: array2<int>, S: nat, row: nat, column: nat) returns (v: int)
    requires Square(A) && L.Length0 == L.Length1 == |A| && row < |A| && column < |A| && S > 0
    ensures row == column ==> v == Iterate(S, Clamp(PivotAt(A, Rows(L), S, row, column)), MaxSteps)
    ensures row > column ==> v == FloorDiv(PivotAt(A, Rows(L), S, row, column) * S, L[column, column])
    ensures row < column ==> v == 0
  {
    if row == column {
      var pivot := PivotLoop(A[row][column], L, S, row, column);
      if pivot < 0 {
        pivot := 0;
      }
      v := Qsqrt(pivot, S);
    } else if row > column {
      var pivot := PivotLoop(A[row][column], L, S, row, column);
      var diag := L[column, column];
      v := FloorDiv(pivot * S, diag);
    } else {
      v := 0;
    }
  }

  /** One entry written in place. */
  method SetEntry(A: Matrix, L: array2<int>, S: nat, row: nat, column: nat)
    requires Square(A) && L.Length0 == L.Length1 == |A| && row < |A| && column < |A| && S > 0
    requires DoneTo(A, Rows(L), S, row, column)
    modifies L
    ensures DoneTo(A, Rows(L), S, row, column + 1)
  {
    ghost var before := Rows(L);
    var v := Entry(A, L, S, row, column);
    L[row, column] := v;
    ghost var after := Rows(L);
    assert Wrote(before, after, row, column);
    if column <= row {
      WriteKeepsPivot(A, before, after, S, row, column, row, column);
    }
    assert after[row][column] == v;
    assert column < row ==> after[column][column] == before[column][column];
    EntryDone(A, before, after, S, row, column);
  }

  /** qcholesky: refused iff the matrix is not square, otherwise the factor. */
  method Qcholesky(A: Matrix, columns: nat, S: nat) returns (r: Option<array2<int>>)
    requires S > 0 && forall i :: 0 <= i < |A| ==> |A[i]| == columns
    ensures r.None? <==> |A| != columns
    ensures r.Some? ==> r.value.Length0 == r.value.Length1 == |A| && IsFactor(A, Rows(r.value), S)
  {
    if |A| != columns {
      return None;
    }
    var L := new int[|A|, |A|]((i, j) => 0);
    for row := 0 to |A|
      invariant DoneTo(A, Rows(L), S, row, 0)
    {
      for column := 0 to |A|
        invariant DoneTo(A, Rows(L), S, row, column)
      {
        SetEntry(A, L, S, row, column);
      }
      RowDone(A, Rows(L), S, row);
    }
    return Some(L);
  }
}
