/** Digit reversal: `bitreversal` of software/data/qmath.py, up to the permutation it computes. */
module DigitReversal {
  import opened Arith

  // ---------------------------------------------------------------------------------------------
  // Numbers as bits, least significant first
  // ---------------------------------------------------------------------------------------------

  function Bits(x: nat, n: nat): (bs: seq<bool>)
    ensures |bs| == n
    decreases n
  {
    if n == 0 then [] else [x % 2 == 1] + Bits(x / 2, n - 1)
  }

  function Val(bs: seq<bool>): (x: nat)
    ensures x < Pow2(|bs|)
  {
    if bs == [] then 0 else (if bs[0] then 1 else 0) + 2 * Val(bs[1..])
  }

  lemma {:induction false} ValBits(x: nat, n: nat)
    requires x < Pow2(n)
    ensures Val(Bits(x, n)) == x
    decreases n
  {
    if n > 0 {
      ValBits(x / 2, n - 1);
      assert Bits(x, n)[1..] == Bits(x / 2, n - 1);
    }
  }

  lemma {:induction false} BitsVal(bs: seq<bool>)
    ensures Bits(Val(bs), |bs|) == bs
    decreases |bs|
  {
    if bs != [] {
      BitsVal(bs[1..]);
      assert bs == [bs[0]] + bs[1..];
    }
  }

  lemma {:induction false} ValConcat(a: seq<bool>, b: seq<bool>)
    ensures Val(a + b) == Val(a) + Shl(Val(b), |a|)
    decreases |a|
  {
    if a == [] {
      assert a + b == b;
    } else {
      ValConcat(a[1..], b);
      assert (a + b)[1..] == a[1..] + b;
    }
  }

  // ---------------------------------------------------------------------------------------------
  // The loop of the program
  // ---------------------------------------------------------------------------------------------

  /** x & (0xffffffff >> (32 - bits)): the low w bits of x. */
  function Low(x: nat, w: nat): nat
    decreases w
  {
    if w == 0 then 0 else x % 2 + 2 * Low(x / 2, w - 1)
  }

  function Sum(ws: seq<nat>): nat {
    if ws == [] then 0 else ws[0] + Sum(ws[1..])
  }

  /** The bits of bs cut into digits of the given widths and put together in opposite order. */
  function ReverseBits(bs: seq<bool>, ws: seq<nat>): (r: seq<bool>)
    requires Sum(ws) <= |bs|
    ensures |r| == Sum(ws)
    decreases |ws|
  {
    if ws == [] then [] else ReverseBits(bs[ws[0]..], ws[1..]) + bs[..ws[0]]
  }

  /** The permutation of bitreversal on n-bit numbers. */
  function Reverse(x: nat, n: nat, ws: seq<nat>): nat
    requires Sum(ws) <= n
  {
    Val(ReverseBits(Bits(x, n), ws))
  }

  lemma {:induction false} ShiftOut(bs: seq<bool>, w: nat)
    requires w <= |bs|
    ensures Low(Val(bs), w) == Val(bs[..w]) && Shr(Val(bs), w) == Val(bs[w..])
    decreases w
  {
    if w == 0 {
      assert bs[0..] == bs;
    } else {
      ShiftOut(bs[1..], w - 1);
      assert bs[..w][1..] == bs[1..][..w - 1] && bs[1..][w - 1..] == bs[w..];
    }
  }

  /** The digits of x, from the low end, shifted into the result one after the other. */
  method ReverseDigits(x: nat, n: nat, ws: seq<nat>) returns (result: nat)
    requires Sum(ws) <= n && x < Pow2(n)
    ensures result == Reverse(x, n, ws)
  {
    result := 0;
    var rest := x;
    ghost var bs, done := Bits(x, n), [];
    ValBits(x, n);
    for i := 0 to |ws|
      invariant rest == Val(bs) && result == Val(done) && Sum(ws[i..]) <= |bs|
      invariant ReverseBits(bs, ws[i..]) + done == ReverseBits(Bits(x, n), ws)
    {
      var w := ws[i];
      assert ws[i..][1..] == ws[i + 1..];
      ShiftOut(bs, w);
      ValConcat(bs[..w], done);
      assert ReverseBits(bs[w..], ws[i + 1..]) + bs[..w] + done == ReverseBits(bs[w..], ws[i + 1..]) + (bs[..w] + done);
      result := Shl(result, w) + Low(rest, w);
      rest := Shr(rest, w);
      bs, done := bs[w..], bs[..w] + done;
    }
    assert ReverseBits(bs, ws[|ws|..]) + done == done;
  }

  /** The loop over all indices. */
  method MakeIndexes(n: nat, ws: seq<nat>) returns (indexes: seq<nat>)
    requires Sum(ws) <= n
    ensures |indexes| == Pow2(n)
    ensures forall x {:trigger indexes[x]} :: 0 <= x < Pow2(n) ==> indexes[x] == Reverse(x, n, ws)
  {
    indexes := [];
    for x := 0 to Pow2(n)
      invariant |indexes| == x
      invariant forall y {:trigger indexes[y]} :: 0 <= y < x ==> indexes[y] == Reverse(y, n, ws)
    {
      var result := ReverseDigits(x, n, ws);
      indexes := indexes + [result];
    }
  }

  // ---------------------------------------------------------------------------------------------
  // Reversal is a bijection, undone by the reversed widths
  // ---------------------------------------------------------------------------------------------

  function Backwards<T>(s: seq<T>): (r: seq<T>)
    ensures |r| == |s|
  {
    if s == [] then [] else Backwards(s[1..]) + [s[0]]
  }

  lemma {:induction false} SumConcat(a: seq<nat>, b: seq<nat>)
    ensures Sum(a + b) == Sum(a) + Sum(b)
    decreases |a|
  {
    if a == [] {
      assert a + b == b;
    } else {
      SumConcat(a[1..], b);
      assert (a + b)[1..] == a[1..] + b;
    }
  }

  lemma {:induction false} SumBackwards(ws: seq<nat>)
    ensures Sum(Backwards(ws)) == Sum(ws)
    decreases |ws|
  {
    if ws != [] {
      SumBackwards(ws[1..]);
      SumConcat(Backwards(ws[1..]), [ws[0]]);
    }
  }

  /** Reversing with a last digit width appended puts that digit first. */
  lemma {:induction false} ReverseLast(bs: seq<bool>, ws: seq<nat>, w: nat)
    requires Sum(ws) + w <= |bs|
    ensures Sum(ws + [w]) == Sum(ws) + w
    ensures ReverseBits(bs, ws + [w]) == bs[Sum(ws)..Sum(ws) + w] + ReverseBits(bs, ws)
    decreases |ws|
  {
    SumConcat(ws, [w]);
    if ws == [] {
      assert ws + [w] == [w] && [w][1..] == [];
      assert ReverseBits(bs, [w]) == [] + bs[..w];
    } else {
      var d, tail, full := ws[0], ws[1..], ws + [w];
      assert full[1..] == tail + [w];
      ReverseLast(bs[d..], tail, w);
      SliceOfDrop(bs, d, Sum(tail), w);
      ReverseStep(bs, full);
      ReverseStep(bs, ws);
      Regroup(bs[Sum(ws)..Sum(ws) + w], ReverseBits(bs[d..], tail), bs[..d]);
    }
  }

  lemma {:induction false} ReverseStep(bs: seq<bool>, ws: seq<nat>)
    requires ws != [] && Sum(ws) <= |bs|
    ensures ReverseBits(bs, ws) == ReverseBits(bs[ws[0]..], ws[1..]) + bs[..ws[0]]
  {
  }

  lemma {:induction false} Regroup(a: seq<bool>, b: seq<bool>, c: seq<bool>)
    ensures a + b + c == a + (b + c)
  {
  }

  lemma {:induction false} SliceOfDrop(bs: seq<bool>, d: nat, k: nat, w: nat)
    requires d + k + w <= |bs|
    ensures bs[d..][k..k + w] == bs[d + k..d + k + w]
  {
  }

  /** Digits beyond the last width do not matter. */
  lemma {:induction false} ReversePrefix(bs: seq<bool>, more: seq<bool>, ws: seq<nat>)
    requires Sum(ws) <= |bs|
    ensures ReverseBits(bs + more, ws) == ReverseBits(bs, ws)
    decreases |ws|
  {
    if ws != [] {
      assert (bs + more)[ws[0]..] == bs[ws[0]..] + more;
      assert (bs + more)[..ws[0]] == bs[..ws[0]];
      ReversePrefix(bs[ws[0]..], more, ws[1..]);
    }
  }

  lemma {:induction false} ReverseTwice(bs: seq<bool>, ws: seq<nat>)
    requires Sum(ws) == |bs|
    ensures Sum(Backwards(ws)) == |bs| && ReverseBits(ReverseBits(bs, ws), Backwards(ws)) == bs
    decreases |ws|
  {
    SumBackwards(ws);
    if ws != [] {
      var w, rest, tail := ws[0], bs[ws[0]..], ws[1..];
      ReverseTwice(rest, tail);
      PutBack(ReverseBits(rest, tail), bs[..w], Backwards(tail), w);
      assert bs == bs[..w] + rest;
    }
  }

  lemma {:induction false} PutBack(r: seq<bool>, digit: seq<bool>, ws: seq<nat>, w: nat)
    requires Sum(ws) == |r| && |digit| == w
    ensures Sum(ws + [w]) == |r| + w && ReverseBits(r + digit, ws + [w]) == digit + ReverseBits(r, ws)
  {
    ReverseLast(r + digit, ws, w);
    ReversePrefix(r, digit, ws);
    assert (r + digit)[|r|..|r| + w] == digit;
  }

  /** Digit reversal maps [0, 2^n) to itself and is undone by reversing with the reversed widths. */
  lemma {:induction false} ReverseInverse(x: nat, n: nat, ws: seq<nat>)
    requires x < Pow2(n) && Sum(ws) == n
    ensures Reverse(x, n, ws) < Pow2(n)
    ensures Sum(Backwards(ws)) == n && Reverse(Reverse(x, n, ws), n, Backwards(ws)) == x
  {
    SumBackwards(ws);
    ReverseTwice(Bits(x, n), ws);
    BitsVal(ReverseBits(Bits(x, n), ws));
    ValBits(x, n);
  }

  lemma {:induction false} BackwardsConcat<T>(a: seq<T>, b: seq<T>)
    ensures Backwards(a + b) == Backwards(b) + Backwards(a)
    decreases |a|
  {
    if a == [] {
      assert a + b == b;
    } else {
      assert (a + b)[1..] == a[1..] + b;
      BackwardsConcat(a[1..], b);
    }
  }

  lemma {:induction false} BackwardsTwice<T>(s: seq<T>)
    ensures Backwards(Backwards(s)) == s
    decreases |s|
  {
    if s != [] {
      BackwardsTwice(s[1..]);
      BackwardsConcat(Backwards(s[1..]), [s[0]]);
      assert Backwards([s[0]]) == [s[0]];
      assert s == [s[0]] + s[1..];
    }
  }

  /** So it is injective and surjective. */
  lemma {:induction false} ReverseBijective(n: nat, ws: seq<nat>, x: nat, y: nat)
    requires x < Pow2(n) && y < Pow2(n) && Sum(ws) == n
    ensures Reverse(x, n, ws) == Reverse(y, n, ws) ==> x == y
    ensures exists z: nat :: z < Pow2(n) && Reverse(z, n, ws) == y
  {
    ReverseInverse(x, n, ws);
    ReverseInverse(y, n, ws);
    SumBackwards(ws);
    ReverseInverse(y, n, Backwards(ws));
    BackwardsTwice(ws);
    var z := Reverse(y, n, Backwards(ws));
    assert z < Pow2(n) && Reverse(z, n, ws) == y;
  }

  // ---------------------------------------------------------------------------------------------
  // The digit widths
  // ---------------------------------------------------------------------------------------------

  /** int(log2(x)) */
  function Log2(x: nat): (l: nat)
    requires x > 0
    ensures Pow2(l) <= x < Pow2(l + 1)
  {
    if x == 1 then 0 else 1 + Log2(x / 2)
  }

  lemma {:induction false} Log2Unique(x: nat, e: nat)
    requires x > 0 && Pow2(e) <= x < Pow2(e + 1)
    ensures Log2(x) == e
  {
    Pow2Less(e, Log2(x) + 1);
    Pow2Less(Log2(x), e + 1);
  }

  /** One width log2(R) per factor R of idx, and one for what is left. */
  function Widths(idx: nat, radix: nat): seq<nat>
    requires idx > 0 && radix >= 2
    decreases idx
  {
    if idx < radix then (if idx > 1 then [Log2(idx)] else [])
    else
      DivShrinks(idx, radix);
      [Log2(radix)] + Widths(Div(idx, radix), radix)
  }

  lemma {:induction false} DivShrinks(x: nat, d: nat)
    requires d >= 2 && x >= d
    ensures 0 < Div(x, d) < x
  {
    DivModAreBuiltIn(x, d);
    FloorMod(x, d);
    StartIsProduct(0, d, Div(x, d));
    MulMono(2, d, Div(x, d));
  }

  /** The decomposition loop of bitreversal. */
  method Decompose(size: nat, radix: nat) returns (logs: seq<nat>)
    requires size > 0 && radix >= 2
    ensures logs == Widths(size, radix)
  {
    logs := [];
    var idx := size;
    while idx >= radix
      invariant idx > 0 && logs + Widths(idx, radix) == Widths(size, radix)
      decreases idx
    {
      DivShrinks(idx, radix);
      DivModAreBuiltIn(idx, radix);
      assert logs + [Log2(radix)] + Widths(Div(idx, radix), radix) == logs + Widths(idx, radix);
      logs := logs + [Log2(radix)];
      idx := idx / radix;
    }
    if idx > 1 {
      logs := logs + [Log2(idx)];
    }
  }

  /** For a radix that is a power of two the widths make up all n bits. */
  lemma {:induction false} WidthsSum(n: nat, r: nat)
    requires r >= 1
    ensures Pow2(r) >= 2 && Sum(Widths(Pow2(n), Pow2(r))) == n
    decreases n
  {
    Log2Unique(Pow2(r), r);
    if n < r {
      Pow2Mono(n, r);
      Log2Unique(Pow2(n), n);
      if n > 0 {
        assert Widths(Pow2(n), Pow2(r)) == [n] && Sum([n]) == n + Sum([]);
      }
    } else {
      Pow2Blocks(r, n);
      WidthsSum(n - r, r);
      var rest := Widths(Pow2(n - r), Pow2(r));
      assert Widths(Pow2(n), Pow2(r)) == [r] + rest && ([r] + rest)[1..] == rest;
    }
  }

  /** The widths never make up more than idx, and less as soon as a radix that is no power of two is used. */
  lemma {:induction false} WidthsBound(idx: nat, radix: nat)
    requires idx > 0 && radix >= 2
    ensures Pow2(Sum(Widths(idx, radix))) <= idx
    ensures idx >= radix && Pow2(Log2(radix)) != radix ==> Pow2(Sum(Widths(idx, radix))) < idx
    decreases idx
  {
    if idx >= radix {
      DivShrinks(idx, radix);
      var q, l := Div(idx, radix), Log2(radix);
      var rest := Widths(q, radix);
      WidthsBound(q, radix);
      assert ([l] + rest)[1..] == rest && Sum([l] + rest) == l + Sum(rest);
      Pow2Add(l, Sum(rest));
      ProductBound(Pow2(l), Pow2(Sum(rest)), radix, q);
      FloorMod(idx, radix);
      StartIsProduct(0, radix, q);
    } else if idx > 1 {
      assert Sum([Log2(idx)]) == Log2(idx) + Sum([]);
    }
  }

  lemma {:induction false} ProductBound(a: nat, b: nat, c: nat, d: nat)
    requires a <= c && b <= d && d > 0
    ensures a * b <= c * d && (a < c ==> a * b < c * d)
  {
    MulMono(b, d, a);
    MulMono(a, c, d);
    if a < c {
      MulMono(a + 1, c, d);
      assert (a + 1) * d == a * d + d;
    }
  }

  /** If the widths miss some bits, two indices collide. */
  lemma {:induction false} Collision(n: nat, ws: seq<nat>)
    requires Sum(ws) < n
    ensures 0 < Pow2(Sum(ws)) < Pow2(n) && Reverse(0, n, ws) == Reverse(Pow2(Sum(ws)), n, ws)
  {
    var s := Sum(ws);
    Pow2Mono(s, n);
    LowZeros(s, n);
    var a, b := Bits(0, n), Bits(Pow2(s), n);
    ReversePrefix(a[..s], a[s..], ws);
    ReversePrefix(b[..s], b[s..], ws);
    assert a == a[..s] + a[s..] && b == b[..s] + b[s..];
  }

  lemma {:induction false} LowZeros(s: nat, n: nat)
    requires s < n
    ensures Bits(0, n)[..s] == Bits(Pow2(s), n)[..s]
    decreases s
  {
    if s > 0 {
      LowZeros(s - 1, n - 1);
      assert Bits(0, n)[..s] == [false] + Bits(0, n - 1)[..s - 1];
      assert Bits(Pow2(s), n)[..s] == [false] + Bits(Pow2(s - 1), n - 1)[..s - 1];
    }
  }

  ghost predicate IsPermutation(n: nat, ws: seq<nat>)
    requires Sum(ws) <= n
  {
    && (forall x: nat {:trigger Reverse(x, n, ws)} :: x < Pow2(n) ==> Reverse(x, n, ws) < Pow2(n))
    && (forall x: nat, y: nat {:trigger Reverse(x, n, ws), Reverse(y, n, ws)} ::
          x < Pow2(n) && y < Pow2(n) && Reverse(x, n, ws) == Reverse(y, n, ws) ==> x == y)
  }

  lemma {:induction false} PermutationFromSum(n: nat, ws: seq<nat>)
    requires Sum(ws) <= n
    ensures IsPermutation(n, ws) <==> Sum(ws) == n
  {
    if Sum(ws) == n {
      forall x: nat {:trigger Reverse(x, n, ws)} | x < Pow2(n)
        ensures Reverse(x, n, ws) < Pow2(n)
      {
        ReverseInverse(x, n, ws);
      }
      forall x: nat, y: nat {:trigger Reverse(x, n, ws), Reverse(y, n, ws)}
        | x < Pow2(n) && y < Pow2(n) && Reverse(x, n, ws) == Reverse(y, n, ws)
        ensures x == y
      {
        ReverseBijective(n, ws, x, y);
      }
    } else {
      Collision(n, ws);
    }
  }

  lemma {:induction false} SumIff(n: nat, radix: nat)
    requires radix >= 2
    ensures Sum(Widths(Pow2(n), radix)) <= n
    ensures Sum(Widths(Pow2(n), radix)) == n <==> (radix == Pow2(Log2(radix)) || radix > Pow2(n))
  {
    var ws := Widths(Pow2(n), radix);
    WidthsBound(Pow2(n), radix);
    Pow2Leq(Sum(ws), n);
    if radix > Pow2(n) {
      Log2Unique(Pow2(n), n);
      assert n > 0 ==> ws == [n] && Sum([n]) == n + Sum([]);
    } else if radix == Pow2(Log2(radix)) {
      WidthsSum(n, Log2(radix));
    }
  }

  /** bitreversal(2^n, R) computes a permutation exactly when R is a power of two or exceeds 2^n. */
  lemma {:induction false} PermutationIff(n: nat, radix: nat)
    requires radix >= 2
    ensures Sum(Widths(Pow2(n), radix)) <= n
    ensures IsPermutation(n, Widths(Pow2(n), radix)) <==> (radix == Pow2(Log2(radix)) || radix > Pow2(n))
  {
    SumIff(n, radix);
    PermutationFromSum(n, Widths(Pow2(n), radix));
  }
}
