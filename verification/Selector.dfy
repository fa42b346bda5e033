/** Rotating-priority selector: the case table that hardware/scripts/gen_xbar.py generates and the circuit
    around it. */
module Selector {
  import opened Arith

  /** A request vector; entry j is bit j. */
  type Vec = seq<bool>

  // ---------------------------------------------------------------------------------------------
  // The arbitration wanted
  // ---------------------------------------------------------------------------------------------

  /** Input at distance d from the priority input p, going round. */
  function Around(p: nat, d: nat, n: nat): nat
    requires p < n && d < n
  {
    if d < n - p then d + p else d - (n - p)
  }

  /** Distance of input k from the priority input. */
  function Distance(p: nat, k: nat, n: nat): nat
    requires p < n && k < n
  {
    if k >= p then k - p else k + n - p
  }

  /** Requests at a distance below d. */
  function Ahead(req: Vec, p: nat, d: nat): nat
    requires p < |req| && d <= |req|
    decreases d
  {
    if d == 0 then 0 else Ahead(req, p, d - 1) + (if req[Around(p, d - 1, |req|)] then 1 else 0)
  }

  /** The place of input k in the cyclic order from p. */
  function Rank(req: Vec, p: nat, k: nat): nat
    requires p < |req| && k < |req|
  {
    Ahead(req, p, Distance(p, k, |req|))
  }

  // ---------------------------------------------------------------------------------------------
  // Set bits
  // ---------------------------------------------------------------------------------------------

  function Count(v: Vec, j: nat): nat
    requires j <= |v|
    decreases j
  {
    if j == 0 then 0 else Count(v, j - 1) + (if v[j - 1] then 1 else 0)
  }

  /** The positions below j that are set, in ascending order. */
  function SetBits(v: Vec, j: nat): (s: seq<nat>)
    requires j <= |v|
    ensures |s| == Count(v, j)
    ensures forall m :: 0 <= m < |s| ==> s[m] < j
    decreases j
  {
    if j == 0 then [] else SetBits(v, j - 1) + (if v[j - 1] then [j - 1] else [])
  }

  /** The m-th set bit is set and has exactly m set bits below it. */
  lemma {:induction false} SetBitAt(v: Vec, j: nat, m: nat)
    requires j <= |v| && m < Count(v, j)
    ensures v[SetBits(v, j)[m]] && Count(v, SetBits(v, j)[m]) == m
    decreases j
  {
    if m < Count(v, j - 1) {
      SetBitAt(v, j - 1, m);
    }
  }

  /** A set bit with m set bits below it is the m-th. */
  lemma {:induction false} SetBitOf(v: Vec, j: nat, k: nat)
    requires k < j <= |v| && v[k]
    ensures Count(v, k) < Count(v, j) && SetBits(v, j)[Count(v, k)] == k
    decreases j
  {
    if k < j - 1 {
      SetBitOf(v, j - 1, k);
    }
  }

  // ---------------------------------------------------------------------------------------------
  // Rotation
  // ---------------------------------------------------------------------------------------------

  function ShiftLeft(v: Vec, s: nat): (r: Vec)
    ensures |r| == |v|
  {
    seq(|v|, j requires 0 <= j < |v| => j >= s && v[j - s])
  }

  function ShiftRight(v: Vec, s: nat): (r: Vec)
    ensures |r| == |v|
  {
    seq(|v|, j requires 0 <= j < |v| => j + s < |v| && v[j + s])
  }

  function Or(a: Vec, b: Vec): (r: Vec)
    requires |a| == |b|
    ensures |r| == |a|
  {
    seq(|a|, j requires 0 <= j < |a| => a[j] || b[j])
  }

  function Rotate(req: Vec, p: nat): (r: Vec)
    requires p < |req|
    ensures |r| == |req|
  {
    if p == 0 then req else Or(ShiftLeft(req, |req| - p), ShiftRight(req, p))
  }

  /** The two shifts together turn the vector: bit d of the result is the input at distance d. */
  lemma {:induction false} RotateTurns(req: Vec, p: nat, d: nat)
    requires p < |req| && d < |req|
    ensures Rotate(req, p)[d] == req[Around(p, d, |req|)]
  {
    var n := |req|;
    if p > 0 {
      var left, right := ShiftLeft(req, n - p), ShiftRight(req, p);
      assert left[d] == (d >= n - p && req[d - (n - p)]);
      assert right[d] == (d + p < n && req[d + p]);
      assert Rotate(req, p)[d] == (left[d] || right[d]);
    }
  }

  lemma {:induction false} CountTurned(req: Vec, p: nat, v: Vec, d: nat)
    requires p < |req| && |v| == |req| && d <= |req|
    requires forall e: nat {:trigger v[e]} :: e < |req| ==> v[e] == req[Around(p, e, |req|)]
    ensures Count(v, d) == Ahead(req, p, d)
    decreases d
  {
    if d > 0 {
      CountTurned(req, p, v, d - 1);
    }
  }

  lemma {:induction false} CountIsAhead(req: Vec, p: nat, d: nat)
    requires p < |req| && d <= |req|
    ensures Count(Rotate(req, p), d) == Ahead(req, p, d)
  {
    forall e: nat | e < |req| ensures Rotate(req, p)[e] == req[Around(p, e, |req|)] {
      RotateTurns(req, p, e);
    }
    CountTurned(req, p, Rotate(req, p), d);
  }

  // ---------------------------------------------------------------------------------------------
  // The generated case table
  // ---------------------------------------------------------------------------------------------

  /** bin(i)[2:].zfill(n), most significant digit first. */
  function Binary(i: nat, n: nat): (s: string)
    ensures |s| == n
  {
    if n == 0 then "" else Binary(i / 2, n - 1) + [if i % 2 == 1 then '1' else '0']
  }

  /** Bit j of a binary string. */
  function StringBits(s: string): (v: Vec)
    ensures |v| == |s|
  {
    seq(|s|, j requires 0 <= j < |s| => s[|s| - 1 - j] == '1')
  }

  /** The number with the given bits. */
  function Value(v: Vec): nat {
    if v == [] then 0 else (if v[0] then 1 else 0) + 2 * Value(v[1..])
  }

  lemma {:induction false} ValueFits(v: Vec)
    ensures Value(v) < Pow2(|v|)
    decreases |v|
  {
    if v != [] {
      ValueFits(v[1..]);
    }
  }

  /** Reading the binary string of a vector's number gives the vector back. */
  lemma {:induction false} BinaryOfValue(v: Vec)
    ensures StringBits(Binary(Value(v), |v|)) == v
    decreases |v|
  {
    if v != [] {
      var t := v[1..];
      BinaryOfValue(t);
      var s := Binary(Value(v), |v|);
      assert Value(v) / 2 == Value(t) && Value(v) % 2 == if v[0] then 1 else 0;
      assert s == Binary(Value(t), |t|) + [if v[0] then '1' else '0'];
      forall j | 0 <= j < |v| ensures StringBits(s)[j] == v[j] {
        if j > 0 {
          assert StringBits(s)[j] == StringBits(Binary(Value(t), |t|))[j - 1];
          assert v[j] == t[j - 1];
        }
      }
    }
  }

  /** sel_inport_idx_raw and sel_inport_idx_raw_vld of one output. */
  datatype Cell = Cell(idx: nat, vld: bool)

  type Table = seq<seq<Cell>>

  ghost predicate RowOk(row: seq<Cell>, v: Vec, outNum: nat) {
    && |row| == outNum
    && forall m {:trigger row[m]} :: 0 <= m < outNum ==>
         row[m] == if m < Count(v, |v|) then Cell(SetBits(v, |v|)[m], true) else Cell(0, false)
  }

  /** The loop over the outputs of one case. */
  method GenerateCase(caseStr: string, outNum: nat) returns (row: seq<Cell>)
    ensures RowOk(row, StringBits(caseStr), outNum)
  {
    var bits := StringBits(caseStr);
    var setBits := SetBits(bits, |bits|);
    row := [];
    for m := 0 to outNum
      invariant RowOk(row, bits, m)
    {
      if m < |setBits| {
        row := row + [Cell(setBits[m], true)];
      } else {
        row := row + [Cell(0, false)];
      }
    }
  }

  /** One case for every value of the rotated vector. */
  ghost predicate TableOk(t: Table, inNum: nat, outNum: nat) {
    && |t| == Pow2(inNum)
    && forall i {:trigger t[i]} :: 0 <= i < |t| ==> RowOk(t[i], StringBits(Binary(i, inNum)), outNum)
  }

  method GenerateTable(inNum: nat, outNum: nat) returns (t: Table)
    ensures TableOk(t, inNum, outNum)
  {
    t := [];
    for i := 0 to Pow2(inNum)
      invariant |t| == i
      invariant forall j {:trigger t[j]} :: 0 <= j < i ==> RowOk(t[j], StringBits(Binary(j, inNum)), outNum)
    {
      var row := GenerateCase(Binary(i, inNum), outNum);
      t := t + [row];
    }
  }

  // ---------------------------------------------------------------------------------------------
  // The circuit
  // ---------------------------------------------------------------------------------------------

  /** What the case statement picks for a request vector. */
  function Raw(t: Table, req: Vec, p: nat): seq<Cell>
    requires p < |req| && |t| == Pow2(|req|)
  {
    ValueFits(Rotate(req, p));
    t[Value(Rotate(req, p))]
  }

  lemma {:induction false} RawOk(t: Table, req: Vec, p: nat, outNum: nat)
    requires p < |req| && TableOk(t, |req|, outNum)
    ensures RowOk(Raw(t, req, p), Rotate(req, p), outNum)
  {
    ValueFits(Rotate(req, p));
    BinaryOfValue(Rotate(req, p));
  }

  /** sel_inport_idx_o: the raw index turned back. */
  function Unrotate(idx: nat, p: nat, n: nat): int
    requires p < n
  {
    if idx < n - p then idx + p else idx - (n - p)
  }

  datatype Outputs = Outputs(sel: seq<int>, vld: seq<bool>, asnIdx: seq<nat>, asnVld: seq<bool>)

  function Total(req: Vec, p: nat): nat
    requires p < |req|
  {
    Ahead(req, p, |req|)
  }

  /** Output m serves the m-th requester in cyclic order, as long as there is one. */
  ghost predicate Serves(o: Outputs, req: Vec, p: nat, m: nat)
    requires p < |req| && m < |o.sel| && m < |o.vld|
  {
    && (o.vld[m] <==> m < Total(req, p))
    && (o.vld[m] ==> 0 <= o.sel[m] < |req| && req[o.sel[m]] && Rank(req, p, o.sel[m]) == m)
  }

  /** Input k is assigned an output iff it requests and fewer than outNum requesters come before it; the
      output is its place, and that output has selected it. */
  ghost predicate Assigned(o: Outputs, req: Vec, p: nat, k: nat)
    requires p < |req| && k < |req| && |o.asnIdx| == |o.asnVld| == |req|
  {
    && (o.asnVld[k] <==> req[k] && Rank(req, p, k) < |o.sel|)
    && o.asnIdx[k] == (if o.asnVld[k] then Rank(req, p, k) else 0)
    && (o.asnVld[k] ==> o.sel[o.asnIdx[k]] == k)
  }

  ghost predicate Correct(o: Outputs, req: Vec, p: nat, outNum: nat)
    requires p < |req|
  {
    && |o.sel| == |o.vld| == outNum && |o.asnIdx| == |o.asnVld| == |req|
    && (forall m: nat {:trigger Serves(o, req, p, m)} :: m < outNum ==> Serves(o, req, p, m))
    && (forall k: nat {:trigger Assigned(o, req, p, k)} :: k < |req| ==> Assigned(o, req, p, k))
  }

  lemma {:induction false} DistanceAround(p: nat, d: nat, k: nat, n: nat)
    requires p < n && d < n && k < n
    ensures Distance(p, Around(p, d, n), n) == d && Around(p, Distance(p, k, n), n) == k
  {
  }

  /** A valid raw index turned back is a requester with its own place. */
  lemma {:induction false} RawServes(req: Vec, p: nat, row: seq<Cell>, outNum: nat, m: nat)
    requires p < |req| && RowOk(row, Rotate(req, p), outNum) && m < outNum
    ensures row[m].vld <==> m < Total(req, p)
    ensures row[m].vld ==> var k := Unrotate(row[m].idx, p, |req|); 0 <= k < |req| && req[k] && Rank(req, p, k) == m
  {
    var v := Rotate(req, p);
    CountIsAhead(req, p, |req|);
    if m < Count(v, |v|) {
      SetBitAt(v, |v|, m);
      var d := SetBits(v, |v|)[m];
      assert row[m] == Cell(d, true);
      RotateTurns(req, p, d);
      CountIsAhead(req, p, d);
      DistanceAround(p, d, 0, |req|);
    } else {
      assert row[m] == Cell(0, false);
    }
  }

  /** Every requester early enough is found at its place. */
  lemma {:induction false} PlaceServed(req: Vec, p: nat, row: seq<Cell>, outNum: nat, k: nat)
    requires p < |req| && RowOk(row, Rotate(req, p), outNum) && k < |req| && req[k] && Rank(req, p, k) < outNum
    ensures row[Rank(req, p, k)].vld && Unrotate(row[Rank(req, p, k)].idx, p, |req|) == k
  {
    var v, d := Rotate(req, p), Distance(p, k, |req|);
    DistanceAround(p, 0, k, |req|);
    RotateTurns(req, p, d);
    CountIsAhead(req, p, d);
    SetBitOf(v, |v|, d);
    var m := Rank(req, p, k);
    assert row[m] == Cell(SetBits(v, |v|)[m], true);
  }

  /** The first loop of the circuit. */
  method SelectInports(row: seq<Cell>, p: nat, n: nat) returns (sel: seq<int>)
    requires p < n
    ensures |sel| == |row|
    ensures forall m {:trigger sel[m]} {:trigger row[m]} :: 0 <= m < |row| ==> sel[m] == Unrotate(row[m].idx, p, n)
  {
    sel := [];
    for i := 0 to |row|
      invariant |sel| == i
      invariant forall m {:trigger sel[m]} {:trigger row[m]} :: 0 <= m < i ==> sel[m] == Unrotate(row[m].idx, p, n)
    {
      if row[i].idx < n - p {
        sel := sel + [row[i].idx + p];
      } else {
        sel := sel + [row[i].idx - (n - p)];
      }
    }
  }

  /** Valid selections are distinct inputs. */
  ghost predicate Injective(sel: seq<int>, vld: seq<bool>, n: nat)
    requires |sel| == |vld|
  {
    && (forall m {:trigger sel[m]} :: 0 <= m < |sel| && vld[m] ==> 0 <= sel[m] < n)
    && (forall m, l {:trigger sel[m], sel[l]} :: 0 <= m < l < |sel| && vld[m] && vld[l] ==> sel[m] != sel[l])
  }

  ghost predicate AssignedBy(sel: seq<int>, vld: seq<bool>, i: nat, k: nat, idx: nat, asn: bool)
    requires i <= |sel| == |vld|
  {
    if asn then idx < i && vld[idx] && sel[idx] == k
    else idx == 0 && forall m {:trigger sel[m]} :: 0 <= m < i && vld[m] ==> sel[m] != k
  }

  /** The second loop: the inverse of the selection. */
  method AssignOutports(sel: seq<int>, vld: seq<bool>, n: nat) returns (idx: seq<nat>, asn: seq<bool>)
    requires |sel| == |vld| && Injective(sel, vld, n)
    ensures |idx| == |asn| == n
    ensures forall k: nat {:trigger idx[k]} {:trigger asn[k]} :: k < n ==> AssignedBy(sel, vld, |sel|, k, idx[k], asn[k])
  {
    idx, asn := seq(n, _ => 0), seq(n, _ => false);
    for i := 0 to |sel|
      invariant |idx| == |asn| == n
      invariant forall k: nat {:trigger idx[k]} {:trigger asn[k]} :: k < n ==> AssignedBy(sel, vld, i, k, idx[k], asn[k])
    {
      if vld[i] {
        idx, asn := idx[sel[i] := i], asn[sel[i] := true];
      }
    }
  }

  /** The whole selector, on a generated table. */
  method Select(t: Table, req: Vec, p: nat, outNum: nat) returns (o: Outputs)
    requires p < |req| && TableOk(t, |req|, outNum)
    ensures Correct(o, req, p, outNum)
  {
    var row := Raw(t, req, p);
    RawOk(t, req, p, outNum);
    var sel := SelectInports(row, p, |req|);
    var vld := seq(|row|, m requires 0 <= m < |row| => row[m].vld);
    SelectionFacts(req, p, row, sel, vld, outNum);
    var idx, asn := AssignOutports(sel, vld, |req|);
    o := Outputs(sel, vld, idx, asn);
    OutputsCorrect(o, req, p, row, outNum);
  }

  lemma {:induction false} SelectionFacts(req: Vec, p: nat, row: seq<Cell>, sel: seq<int>, vld: seq<bool>, outNum: nat)
    requires p < |req| && RowOk(row, Rotate(req, p), outNum) && |sel| == |vld| == outNum
    requires forall m {:trigger sel[m]} {:trigger row[m]} :: 0 <= m < outNum ==> sel[m] == Unrotate(row[m].idx, p, |req|)
    requires forall m {:trigger vld[m]} {:trigger row[m]} :: 0 <= m < outNum ==> vld[m] == row[m].vld
    ensures Injective(sel, vld, |req|)
  {
    forall m | 0 <= m < |sel| && vld[m] ensures 0 <= sel[m] < |req| && Rank(req, p, sel[m]) == m {
      RawServes(req, p, row, outNum, m);
    }
  }

  lemma {:induction false} OutputsCorrect(o: Outputs, req: Vec, p: nat, row: seq<Cell>, outNum: nat)
    requires p < |req| && RowOk(row, Rotate(req, p), outNum) && |o.sel| == |o.vld| == outNum && |o.asnIdx| == |o.asnVld| == |req|
    requires forall m {:trigger o.sel[m]} {:trigger row[m]} :: 0 <= m < outNum ==> o.sel[m] == Unrotate(row[m].idx, p, |req|)
    requires forall m {:trigger o.vld[m]} {:trigger row[m]} :: 0 <= m < outNum ==> o.vld[m] == row[m].vld
    requires forall k: nat {:trigger o.asnIdx[k]} {:trigger o.asnVld[k]} :: k < |req| ==> AssignedBy(o.sel, o.vld, |o.sel|, k, o.asnIdx[k], o.asnVld[k])
    ensures Correct(o, req, p, outNum)
  {
    forall m: nat | m < outNum ensures Serves(o, req, p, m) {
      RawServes(req, p, row, outNum, m);
    }
    forall k: nat | k < |req| ensures Assigned(o, req, p, k) {
      assert AssignedBy(o.sel, o.vld, |o.sel|, k, o.asnIdx[k], o.asnVld[k]);
      if o.asnVld[k] {
        RawServes(req, p, row, outNum, o.asnIdx[k]);
      } else if req[k] && Rank(req, p, k) < outNum {
        PlaceServed(req, p, row, outNum, k);
      }
    }
  }

  /** Outputs and inputs are matched one to one, and a served requester has all requesters before it served. */
  lemma {:induction false} Inverse(o: Outputs, req: Vec, p: nat, outNum: nat, m: nat, k: nat)
    requires p < |req| && Correct(o, req, p, outNum) && m < outNum && k < |req|
    ensures o.vld[m] && o.sel[m] == k <==> o.asnVld[k] && o.asnIdx[k] == m
  {
    assert Serves(o, req, p, m);
    assert Assigned(o, req, p, k);
    if o.asnVld[k] && o.asnIdx[k] == m {
      RankBelowTotal(req, p, k);
    }
  }

  lemma {:induction false} RankBelowTotal(req: Vec, p: nat, k: nat)
    requires p < |req| && k < |req| && req[k]
    ensures Rank(req, p, k) < Total(req, p)
  {
    var d := Distance(p, k, |req|);
    DistanceAround(p, 0, k, |req|);
    AheadGrows(req, p, d + 1, |req|);
  }

  /** Going round from p counts the requests from p on, then those before p. */
  lemma {:induction false} AheadCounts(req: Vec, p: nat, d: nat)
    requires p < |req| && d <= |req|
    ensures Ahead(req, p, d) == if d <= |req| - p then Count(req, p + d) - Count(req, p)
                                else Count(req, |req|) - Count(req, p) + Count(req, d - (|req| - p))
    decreases d
  {
    if d > 0 {
      AheadCounts(req, p, d - 1);
    }
  }

  /** Whatever the priority, the number of requesters is the number of set bits. */
  lemma {:induction false} TotalIsPopcount(req: Vec, p: nat)
    requires p < |req|
    ensures Total(req, p) == Count(req, |req|)
  {
    AheadCounts(req, p, |req|);
  }

  lemma {:induction false} AheadGrows(req: Vec, p: nat, d: nat, e: nat)
    requires p < |req| && d <= e <= |req|
    ensures Ahead(req, p, d) <= Ahead(req, p, e)
    decreases e
  {
    if d < e {
      AheadGrows(req, p, d, e - 1);
    }
  }

  /** No requester is passed over: one that is served comes before every one that is not. */
  lemma {:induction false} InOrder(o: Outputs, req: Vec, p: nat, outNum: nat, j: nat, k: nat)
    requires p < |req| && Correct(o, req, p, outNum) && j < |req| && k < |req|
    requires req[j] && o.asnVld[k] && Distance(p, j, |req|) < Distance(p, k, |req|)
    ensures o.asnVld[j] && o.asnIdx[j] < o.asnIdx[k]
  {
    assert Assigned(o, req, p, j) && Assigned(o, req, p, k);
    DistanceAround(p, 0, j, |req|);
    AheadGrows(req, p, Distance(p, j, |req|) + 1, Distance(p, k, |req|));
  }
}
