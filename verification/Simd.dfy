/**
 The vector kernels (`src/simd.rs`) over exact arithmetic: the blocked loops with four registers
 of four lanes and a scalar tail compute the plain sums, for vectors of any length.
 */
module Simd {

  // Left-to-right sum, as `iter().sum()` takes it.
  function Sum(ts: seq<real>): real {
    if ts == [] then 0.0 else Sum(ts[..|ts| - 1]) + ts[|ts| - 1]
  }

  function Terms(term: (real, real) -> real, a: seq<real>, b: seq<real>): (ts: seq<real>)
    requires |a| == |b|
    ensures |ts| == |a| && forall i :: 0 <= i < |a| ==> ts[i] == term(a[i], b[i])
  {
    seq(|a|, i requires 0 <= i < |a| => term(a[i], b[i]))
  }

  function Product(x: real, y: real): real {
    x * y
  }

  function SquaredDifference(x: real, y: real): real {
    (x - y) * (x - y)
  }

  // `dot_scalar` and `l2_sq_scalar`.
  function Dot(a: seq<real>, b: seq<real>): real
    requires |a| == |b|
  {
    Sum(Terms(Product, a, b))
  }

  function L2Sq(a: seq<real>, b: seq<real>): real
    requires |a| == |b|
  {
    Sum(Terms(SquaredDifference, a, b))
  }

  // --- blocks -----------------------------------------------------------------------------------

  const LANES := 16

  // Adding the registers pairwise, then across the lanes.
  function Across(acc: seq<real>): real
    requires |acc| == LANES
  {
    ((acc[0] + acc[4]) + (acc[8] + acc[12])) + ((acc[1] + acc[5]) + (acc[9] + acc[13]))
    + ((acc[2] + acc[6]) + (acc[10] + acc[14])) + ((acc[3] + acc[7]) + (acc[11] + acc[15]))
  }

  lemma SumStep(ts: seq<real>, i: nat)
    requires i < |ts|
    ensures Sum(ts[..i + 1]) == Sum(ts[..i]) + ts[i]
  {
    assert ts[..i + 1][..i] == ts[..i];
  }

  lemma SumFour(ts: seq<real>, i: nat)
    requires i + 4 <= |ts|
    ensures Sum(ts[..i + 4]) == Sum(ts[..i]) + (ts[i] + ts[i + 1] + ts[i + 2] + ts[i + 3])
  {
    SumStep(ts, i);
    SumStep(ts, i + 1);
    SumStep(ts, i + 2);
    SumStep(ts, i + 3);
  }

  // One block: every lane takes one term.
  lemma BlockAdds(ts: seq<real>, i: nat, before: seq<real>, after: seq<real>)
    requires i + LANES <= |ts| && |before| == |after| == LANES
    requires forall j :: 0 <= j < LANES ==> after[j] == before[j] + ts[i + j]
    requires Across(before) == Sum(ts[..i])
    ensures Across(after) == Sum(ts[..i + LANES])
  {
    SumFour(ts, i);
    SumFour(ts, i + 4);
    SumFour(ts, i + 8);
    SumFour(ts, i + 12);
  }

  // The body of the main loop: each of the four registers takes four terms.
  method AddBlock(term: (real, real) -> real, a: seq<real>, b: seq<real>, i: nat, acc: array<real>)
    requires |a| == |b| && i + LANES <= |a| && acc.Length == LANES
    modifies acc
    ensures forall j :: 0 <= j < LANES ==> acc[j] == old(acc[j]) + term(a[i + j], b[i + j])
  {
    for k := 0 to 4
      invariant forall j :: 0 <= j < 4 * k ==> acc[j] == old(acc[j]) + term(a[i + j], b[i + j])
      invariant forall j :: 4 * k <= j < LANES ==> acc[j] == old(acc[j])
    {
      var off := i + k * 4;
      acc[4 * k] := acc[4 * k] + term(a[off], b[off]);
      acc[4 * k + 1] := acc[4 * k + 1] + term(a[off + 1], b[off + 1]);
      acc[4 * k + 2] := acc[4 * k + 2] + term(a[off + 2], b[off + 2]);
      acc[4 * k + 3] := acc[4 * k + 3] + term(a[off + 3], b[off + 3]);
    }
  }

  // The loops that `dot_neon` and `l2_sq_neon` share, for any term.
  method BlockedSum(term: (real, real) -> real, a: seq<real>, b: seq<real>) returns (sum: real)
    requires |a| == |b|
    ensures sum == Sum(Terms(term, a, b))
  {
    hide Sum, Across;
    var n := |a|;
    ghost var ts := Terms(term, a, b);
    var acc := new real[LANES](_ => 0.0);   // lane l of register k is acc[4 k + l]
    AcrossZero(acc[..]);
    assert Sum(ts[..0]) == 0.0 by { SumNothing(ts[..0]); }
    var i := 0;
    while i + LANES <= n
      invariant 0 <= i <= n
      invariant Across(acc[..]) == Sum(ts[..i])
    {
      ghost var before := acc[..];
      AddBlock(term, a, b, i, acc);
      BlockAdds(ts, i, before, acc[..]);
      i := i + LANES;
    }
    sum := Across(acc[..]);
    while i < n
      invariant 0 <= i <= n && sum == Sum(ts[..i])
    {
      SumStep(ts, i);
      sum := sum + term(a[i], b[i]);
      i := i + 1;
    }
    assert ts[..n] == ts;
  }

  lemma AcrossZero(acc: seq<real>)
    requires |acc| == LANES && forall j :: 0 <= j < LANES ==> acc[j] == 0.0
    ensures Across(acc) == 0.0
  {
  }

  lemma SumNothing(ts: seq<real>)
    requires ts == []
    ensures Sum(ts) == 0.0
  {
  }

  method DotNeon(a: seq<real>, b: seq<real>) returns (r: real)
    requires |a| == |b|
    ensures r == Dot(a, b)
  {
    r := BlockedSum(Product, a, b);
  }

  method L2SqNeon(a: seq<real>, b: seq<real>) returns (r: real)
    requires |a| == |b|
    ensures r == L2Sq(a, b)
  {
    r := BlockedSum(SquaredDifference, a, b);
  }

  // --- cosine distance --------------------------------------------------------------------------

  lemma DotStep(a: seq<real>, b: seq<real>, i: nat)
    requires |a| == |b| && i < |a|
    ensures Dot(a[..i + 1], b[..i + 1]) == Dot(a[..i], b[..i]) + a[i] * b[i]
  {
    var ts := Terms(Product, a[..i + 1], b[..i + 1]);
    assert ts[..i] == Terms(Product, a[..i], b[..i]);
  }

  function Form(x: real, y: real, p: real, q: real, r: real): real {
    x * x * p + 2.0 * x * y * q + y * y * r
  }

  lemma {:induction false} SquareOfDifference(a: seq<real>, b: seq<real>)
    requires |a| == |b|
    ensures L2Sq(a, b) == Dot(a, a) - 2.0 * Dot(a, b) + Dot(b, b)
  {
    hide Dot;
    if a == [] {
      EmptyDots(a, b);
      assert a[..0] == a && b[..0] == b && Terms(SquaredDifference, a, b) == [];
    } else {
      var n := |a| - 1;
      SquareOfDifference(a[..n], b[..n]);
      DotStep(a, b, n);
      DotStep(a, a, n);
      DotStep(b, b, n);
      assert a[..n + 1] == a && b[..n + 1] == b;
      assert Terms(SquaredDifference, a, b)[..n] == Terms(SquaredDifference, a[..n], b[..n]);
      var x, y := a[n], b[n];
      assert (x - y) * (x - y) == x * x - 2.0 * (x * y) + y * y;
    }
  }

  // The vector with a single one.
  function Unit(n: nat, i: nat): (u: seq<real>)
    ensures |u| == n
  {
    seq(n, k => if k == i then 1.0 else 0.0)
  }

  // A dot product with it is the entry at that place.
  lemma {:induction false} DotWithUnit(a: seq<real>, i: nat)
    ensures Dot(a, Unit(|a|, i)) == if i < |a| then a[i] else 0.0
  {
    hide Dot;
    var u := Unit(|a|, i);
    if a == [] {
      EmptyDots(a, u);
      assert a[..0] == a && u[..0] == u;
    } else {
      var n := |a| - 1;
      DotWithUnit(a[..n], i);
      DotStep(a, u, n);
      assert u[..n] == Unit(n, i) && a[..n + 1] == a && u[..n + 1] == u;
    }
  }

  // |x a + y b|^2 is not negative, for all x and y.
  lemma {:induction false} FormNotNegative(a: seq<real>, b: seq<real>, x: real, y: real)
    requires |a| == |b|
    ensures Form(x, y, Dot(a, a), Dot(a, b), Dot(b, b)) >= 0.0
    decreases |a|
  {
    if a == [] {
      assert Terms(Product, a, b) == [] && Terms(Product, a, a) == [] && Terms(Product, b, b) == [];
    } else {
      hide Form, Dot;
      var n := |a| - 1;
      FormNotNegative(a[..n], b[..n], x, y);
      DotStep(a, a, n);
      DotStep(a, b, n);
      DotStep(b, b, n);
      assert a[..n + 1] == a && b[..n + 1] == b;
      OneMoreSquare(x, y, a[n], b[n], Dot(a[..n], a[..n]), Dot(a[..n], b[..n]), Dot(b[..n], b[..n]));
    }
  }

  lemma OneMoreSquare(x: real, y: real, u: real, v: real, p: real, q: real, r: real)
    requires Form(x, y, p, q, r) >= 0.0
    ensures Form(x, y, p + u * u, q + u * v, r + v * v) >= 0.0
  {
    var s := x * u + y * v;
    assert s * s >= 0.0;
    assert s * s == x * x * (u * u) + 2.0 * x * y * (u * v) + y * y * (v * v);
    assert x * x * (p + u * u) == x * x * p + x * x * (u * u);
    assert 2.0 * x * y * (q + u * v) == 2.0 * x * y * q + 2.0 * x * y * (u * v);
    assert y * y * (r + v * v) == y * y * r + y * y * (v * v);
  }

  // A form that is nowhere negative has no positive discriminant.
  lemma Discriminant(p: real, q: real, r: real)
    requires forall x, y :: Form(x, y, p, q, r) >= 0.0
    ensures p >= 0.0 && r >= 0.0 && q * q <= p * r
  {
    assert Form(1.0, 0.0, p, q, r) == p && Form(0.0, 1.0, p, q, r) == r;
    assert Form(r, -q, p, q, r) == r * (p * r - q * q);
    assert Form(-q, p, p, q, r) == p * (p * r - q * q);
    if r > 0.0 {
      FactorSign(r, p * r - q * q);
    } else if p > 0.0 {
      FactorSign(p, p * r - q * q);
    } else {
      assert Form(1.0, 1.0, p, q, r) == 2.0 * q && Form(1.0, -1.0, p, q, r) == -2.0 * q;
    }
  }

  lemma FactorSign(r: real, t: real)
    requires r > 0.0 && r * t >= 0.0
    ensures t >= 0.0
  {
    assert t < 0.0 ==> r * -t > 0.0;
  }

  lemma CauchySchwarz(a: seq<real>, b: seq<real>)
    requires |a| == |b|
    ensures Dot(a, a) >= 0.0 && Dot(b, b) >= 0.0
    ensures Dot(a, b) * Dot(a, b) <= Dot(a, a) * Dot(b, b)
  {
    hide Form, Dot;
    forall x, y
      ensures Form(x, y, Dot(a, a), Dot(a, b), Dot(b, b)) >= 0.0
    {
      FormNotNegative(a, b, x, y);
    }
    Discriminant(Dot(a, a), Dot(a, b), Dot(b, b));
  }

  lemma QuotientInUnit(d: real, r: real)
    requires r > 0.0 && d * d <= r * r
    ensures -1.0 <= d / r <= 1.0
  {
    var q := d / r;
    assert d == q * r;
    assert d > r ==> d * d > r * r;
    assert -d > r ==> d * d > r * r;
    assert q > 1.0 ==> q * r > r;
    assert q < -1.0 ==> q * r < -r;
  }

  // The square root on the numbers that are not negative.
  ghost predicate IsRoot(root: real -> real) {
    forall x :: x >= 0.0 ==> root(x) >= 0.0 && root(x) * root(x) == x
  }

  // `cosine_distance`, for any square root: a number between 0 and 2, and 1 when a vector is zero.
  method CosineDistance(a: seq<real>, b: seq<real>, root: real -> real) returns (r: real)
    requires |a| == |b| && IsRoot(root)
    ensures 0.0 <= r <= 2.0
    ensures Dot(a, a) == 0.0 || Dot(b, b) == 0.0 ==> r == 1.0
    ensures Dot(a, a) != 0.0 && Dot(b, b) != 0.0 ==>
      (1.0 - r) * root(Dot(a, a) * Dot(b, b)) == Dot(a, b)
  {
    hide Dot;
    var dotAB, na, nb := 0.0, 0.0, 0.0;
    EmptyDots(a, b);
    for i := 0 to |a|
      invariant dotAB == Dot(a[..i], b[..i]) && na == Dot(a[..i], a[..i]) && nb == Dot(b[..i], b[..i])
    {
      DotStep(a, b, i);
      DotStep(a, a, i);
      DotStep(b, b, i);
      dotAB, na, nb := dotAB + a[i] * b[i], na + a[i] * a[i], nb + b[i] * b[i];
    }
    assert a[..|a|] == a && b[..|b|] == b;
    CauchySchwarz(a, b);
    SignOfProduct(na, nb);
    var denom := root(na * nb);
    assert denom * denom == na * nb;
    SignOfProduct(denom, denom);
    if denom == 0.0 {
      return 1.0;
    }
    QuotientInUnit(dotAB, denom);
    r := 1.0 - dotAB / denom;
  }

  lemma SignOfProduct(x: real, y: real)
    requires x >= 0.0 && y >= 0.0
    ensures x * y >= 0.0
    ensures x * y == 0.0 <==> x == 0.0 || y == 0.0
  {
  }

  lemma EmptyDots(a: seq<real>, b: seq<real>)
    requires |a| == |b|
    ensures Dot(a[..0], b[..0]) == 0.0 && Dot(a[..0], a[..0]) == 0.0 && Dot(b[..0], b[..0]) == 0.0
  {
    assert Terms(Product, a[..0], b[..0]) == [] && Terms(Product, a[..0], a[..0]) == [];
    assert Terms(Product, b[..0], b[..0]) == [];
  }
}
