/**
 Lagrange interpolation over the scalar field: the value at zero, and the coefficients.
 Both loops are tied to one integer-valued Lagrange sum, which is then shown to pass
 through the given values.
 */
module Interpolation {
  import opened Modular
  import opened Counting
  import opened Polynomials

  /** The product of x - points[j] over j < m other than i. */
  ghost function Others(points: seq<int>, i: nat, m: nat, x: int): int
    requires m <= |points|
  {
    if m == 0 then 1
    else if m - 1 == i then Others(points, i, m - 1, x)
    else Others(points, i, m - 1, x) * (x - points[m - 1])
  }

  ghost function Weight(p: int, points: seq<int>, values: seq<int>, i: nat): int
    requires p > 0 && i < |points| <= |values|
  {
    values[i] * Inv(p, Others(points, i, |points|, points[i]))
  }

  ghost function LagrangeSum(p: int, points: seq<int>, values: seq<int>, m: nat, x: int): int
    requires p > 0 && m <= |points| <= |values|
  {
    if m == 0 then 0
    else LagrangeSum(p, points, values, m - 1, x)
         + Weight(p, points, values, m - 1) * Others(points, m - 1, |points|, x)
  }

  // ----- the sum passes through the values -----

  lemma {:induction false} OthersVanish(points: seq<int>, i: nat, m: nat, k: nat)
    requires k < m <= |points| && k != i
    ensures Others(points, i, m, points[k]) == 0
  {
    if m - 1 == k {
      assert points[k] - points[m - 1] == 0;
    } else {
      OthersVanish(points, i, m - 1, k);
    }
  }

  lemma {:induction false} OthersNonzero(p: int, points: seq<int>, i: nat, m: nat)
    requires Prime(p) && AllCanonical(p, points) && Distinct(points) && i < |points| && m <= |points|
    ensures !Cong(p, Others(points, i, m, points[i]), 0)
  {
    if m == 0 {
      ModSmall(p, 1);
      ModSmall(p, 0);
    } else {
      hide Cong, Prime;
      OthersNonzero(p, points, i, m - 1);
      if m - 1 != i {
        DistinctDifference(p, points[i], points[m - 1]);
        if Cong(p, Others(points, i, m, points[i]), 0) {
          NoZeroDivisors(p, Others(points, i, m - 1, points[i]), points[i] - points[m - 1]);
        }
      }
    }
  }

  lemma WeightAtNode(p: int, points: seq<int>, values: seq<int>, i: nat)
    requires Prime(p) && AllCanonical(p, points) && Distinct(points) && i < |points| <= |values|
    ensures Cong(p, Weight(p, points, values, i) * Others(points, i, |points|, points[i]), values[i])
  {
    hide Cong, Inv, Others, Prime;
    var o := Others(points, i, |points|, points[i]);
    OthersNonzero(p, points, i, |points|);
    InvCorrect(p, o);
    Reweigh(p, values[i], o, Inv(p, o));
  }

  lemma Reweigh(p: int, value: int, o: int, w: int)
    requires Cong(p, o * w, 1)
    ensures Cong(p, (value * w) * o, value)
  {
    hide Cong;
    CongScale(p, value, o * w, 1);
    assert value * (o * w) == (value * w) * o;
  }

  lemma {:induction false} SumAtNode(p: int, points: seq<int>, values: seq<int>, m: nat, k: nat)
    requires Prime(p) && AllCanonical(p, points) && Distinct(points) && m <= |points| <= |values| && k < |points|
    ensures Cong(p, LagrangeSum(p, points, values, m, points[k]), if k < m then values[k] else 0)
  {
    if m == 0 {
    } else {
      SumAtNode(p, points, values, m - 1, k);
      hide Cong, Weight, Prime;
      assert p > 0;
      var w, o := Weight(p, points, values, m - 1), Others(points, m - 1, |points|, points[k]);
      var before := LagrangeSum(p, points, values, m - 1, points[k]);
      if m - 1 == k {
        WeightAtNode(p, points, values, k);
        CongAdd(p, before, 0, w * o, values[k]);
      } else {
        OthersVanish(points, m - 1, |points|, k);
        assert w * o == 0;
      }
    }
  }

  // ----- the sum is a polynomial -----

  ghost function OthersPoly(points: seq<int>, i: nat, m: nat): (r: seq<int>)
    requires m <= |points|
    ensures |r| == m + 1 - (if i < m then 1 else 0)
  {
    if m == 0 then [1]
    else if m - 1 == i then OthersPoly(points, i, m - 1)
    else Times(OthersPoly(points, i, m - 1), [-points[m - 1], 1])
  }

  lemma {:induction false} OthersPolyEval(points: seq<int>, i: nat, m: nat, x: int)
    requires m <= |points|
    ensures Eval(OthersPoly(points, i, m), x) == Others(points, i, m, x)
  {
    if m == 0 {
      assert [1][1..] == [];
    } else {
      OthersPolyEval(points, i, m - 1, x);
      if m - 1 != i {
        var root := [-points[m - 1], 1];
        EvalTimes(OthersPoly(points, i, m - 1), root, x);
        EvalLinear(-points[m - 1], 1, x);
      }
    }
  }

  ghost function LagrangePoly(p: int, points: seq<int>, values: seq<int>, m: nat): (r: seq<int>)
    requires p > 0 && m <= |points| <= |values|
    ensures |r| <= |points|
  {
    if m == 0 then []
    else Plus(LagrangePoly(p, points, values, m - 1),
              Scale(Weight(p, points, values, m - 1), OthersPoly(points, m - 1, |points|)))
  }

  lemma {:induction false} LagrangePolyEval(p: int, points: seq<int>, values: seq<int>, m: nat, x: int)
    requires p > 0 && m <= |points| <= |values|
    ensures Eval(LagrangePoly(p, points, values, m), x) == LagrangeSum(p, points, values, m, x)
  {
    hide Weight, Others, OthersPoly, Plus, Scale;
    if m > 0 {
      LagrangePolyEval(p, points, values, m - 1, x);
      var w, o := Weight(p, points, values, m - 1), OthersPoly(points, m - 1, |points|);
      OthersPolyEval(points, m - 1, |points|, x);
      EvalScale(w, o, x);
      EvalPlus(LagrangePoly(p, points, values, m - 1), Scale(w, o), x);
    }
  }

  /** A polynomial of low enough degree through the values is the Lagrange sum, everywhere. */
  lemma SumIsThePolynomial(p: int, points: seq<int>, values: seq<int>, c: seq<int>, x: int)
    requires Prime(p) && AllCanonical(p, points) && Distinct(points) && |c| <= |points| <= |values|
    requires forall k :: 0 <= k < |points| ==> Cong(p, Eval(c, points[k]), values[k])
    ensures Cong(p, LagrangeSum(p, points, values, |points|, x), Eval(c, x))
  {
    assert p > 0;
    hide Cong, Prime;
    var n := |points|;
    var l, all := LagrangePoly(p, points, values, n), Range(n);
    RangeCard(n);
    AtCard(points, all);
    forall y | y in At(points, all) ensures Cong(p, Eval(l, y), Eval(c, y)) && Canonical(p, y) {
      var k :| k in all && points[k] == y;
      SumAtNode(p, points, values, n, k);
      LagrangePolyEval(p, points, values, n, y);
      CongSym(p, Eval(c, y), values[k]);
      CongTrans(p, Eval(l, y), values[k], Eval(c, y));
    }
    AgreeEverywhere(p, l, c, At(points, all), x);
    LagrangePolyEval(p, points, values, n, x);
  }

  /** The scaled value the loops add: values[i] times the inverse of the denominator. */
  lemma WeightStep(p: int, points: seq<int>, values: seq<int>, i: nat, denominator: int)
    requires p > 0 && i < |points| <= |values|
    requires Cong(p, denominator, Others(points, i, |points|, points[i]))
    ensures Cong(p, Mul(p, values[i], Inv(p, denominator)), Weight(p, points, values, i))
    ensures Canonical(p, Mul(p, values[i], Inv(p, denominator)))
  {
    assert Inv(p, denominator) == Inv(p, Others(points, i, |points|, points[i]));
    Ops(p, values[i], Inv(p, denominator));
  }

  // ----- the value at zero -----

  /** Lagrange at zero, accumulating one numerator and one denominator per party. */
  method Reconstruct(p: int, points: seq<int>, shares: seq<int>) returns (total: int)
    requires p > 0 && AllCanonical(p, points) && AllCanonical(p, shares) && |points| <= |shares|
    ensures Canonical(p, total)
    ensures Cong(p, total, LagrangeSum(p, points, shares, |points|, 0))
    ensures Prime(p) && Distinct(points) ==>
              forall c: seq<int> :: |c| <= |points| && (forall k :: 0 <= k < |points| ==>
                                                        Cong(p, Eval(c, points[k]), shares[k]))
                ==> Cong(p, total, Eval(c, 0))
  {
    total := 0;
    CongRefl(p, 0);
    hide Cong;
    for i := 0 to |points|
      invariant Canonical(p, total)
      invariant Cong(p, total, LagrangeSum(p, points, shares, i, 0))
    {
      var numerator, denominator := BasisAtZero(p, points, i);
      WeightStep(p, points, shares, i, denominator);
      var inverse := Inv(p, denominator);
      var scaled := Mul(p, Mul(p, shares[i], numerator), inverse);
      TermReordered(p, shares[i], numerator, inverse);
      MulStep(p, Mul(p, shares[i], inverse), Weight(p, points, shares, i), numerator, Others(points, i, |points|, 0));
      AddStep(p, total, LagrangeSum(p, points, shares, i, 0),
              scaled, Weight(p, points, shares, i) * Others(points, i, |points|, 0));
      total := Add(p, total, scaled);
    }
    if Prime(p) && Distinct(points) {
      forall c: seq<int> | |c| <= |points| && (forall k :: 0 <= k < |points| ==> Cong(p, Eval(c, points[k]), shares[k]))
        ensures Cong(p, total, Eval(c, 0))
      {
        SumIsThePolynomial(p, points, shares, c, 0);
        CongTrans(p, total, LagrangeSum(p, points, shares, |points|, 0), Eval(c, 0));
      }
    }
  }

  lemma TermReordered(p: int, s: int, n: int, i: int)
    requires p > 0
    ensures Mul(p, Mul(p, s, n), i) == Mul(p, Mul(p, s, i), n)
  {
    Ops(p, s, n);
    Ops(p, s, i);
    CongRefl(p, i);
    CongRefl(p, n);
    MulStep(p, Mul(p, s, n), s * n, i, i);
    MulStep(p, Mul(p, s, i), s * i, n, n);
    assert (s * n) * i == (s * i) * n;
    CanonicalUnique(p, Mul(p, Mul(p, s, n), i), Mul(p, Mul(p, s, i), n));
  }

  method BasisAtZero(p: int, points: seq<int>, i: nat) returns (numerator: int, denominator: int)
    requires p > 0 && AllCanonical(p, points) && i < |points|
    ensures Cong(p, numerator, Others(points, i, |points|, 0)) && Canonical(p, numerator)
    ensures Cong(p, denominator, Others(points, i, |points|, points[i])) && Canonical(p, denominator)
  {
    numerator, denominator := 1 % p, 1 % p;
    CongMod(p, 1);
    hide Cong;
    for j := 0 to |points|
      invariant Cong(p, numerator, Others(points, i, j, 0)) && Canonical(p, numerator)
      invariant Cong(p, denominator, Others(points, i, j, points[i])) && Canonical(p, denominator)
    {
      if i != j {
        Ops(p, points[j], 0);
        Ops(p, points[i], points[j]);
        MulStep(p, numerator, Others(points, i, j, 0), Neg(p, points[j]), 0 - points[j]);
        MulStep(p, denominator, Others(points, i, j, points[i]), Sub(p, points[i], points[j]), points[i] - points[j]);
        numerator := Mul(p, numerator, Neg(p, points[j]));
        denominator := Mul(p, denominator, Sub(p, points[i], points[j]));
      }
    }
  }

  // ----- the coefficients -----

  /** Writing a canonical value congruent to c[i] + d adds d*x^i to every evaluation. */
  lemma EvalUpdateCong(p: int, c: seq<int>, i: nat, v: int, d: int, x: int)
    requires p > 0 && i < |c| && Cong(p, v, c[i] + d)
    ensures Cong(p, Eval(c[i := v], x), Eval(c, x) + d * Power(x, i))
  {
    hide Cong;
    EvalUpdate(c, i, v, x);
    CongRefl(p, c[i]);
    CongSub(p, v, c[i] + d, c[i], c[i]);
    var w := Power(x, i);
    CongScale(p, w, v - c[i], d);
    CongRefl(p, Eval(c, x));
    CongAdd(p, Eval(c, x), Eval(c, x), w * (v - c[i]), w * d);
    assert w * (v - c[i]) == (v - c[i]) * w && w * d == d * w;
  }

  lemma {:induction false} EvalZeros(n: nat, x: int)
    ensures Eval(seq(n, _ => 0), x) == 0
  {
    if n > 0 {
      assert seq(n, _ => 0)[1..] == seq(n - 1, _ => 0);
      EvalZeros(n - 1, x);
    }
  }

  /** next := basis * (X - root), coefficient by coefficient. */
  method MulByRoot(p: int, basis: seq<int>, root: int) returns (next: seq<int>)
    requires p > 0 && AllCanonical(p, basis)
    ensures |next| == |basis| + 1 && AllCanonical(p, next)
    ensures forall x :: Cong(p, Eval(next, x), Eval(basis, x) * (x - root))
  {
    next := seq(|basis| + 1, _ => 0);
    forall x ensures Cong(p, Eval(next, x), Eval(basis[..0], x) * (x - root)) { EvalZeros(|basis| + 1, x); }
    hide Cong;
    for k := 0 to |basis|
      invariant |next| == |basis| + 1 && AllCanonical(p, next)
      invariant forall x :: Cong(p, Eval(next, x), Eval(basis[..k], x) * (x - root))
    {
      ghost var before := next;
      var b := basis[k];
      var low := Sub(p, next[k], Mul(p, b, root));
      var high := Add(p, next[k + 1], b);
      CongRefl(p, next[k]);
      CongRefl(p, b);
      CongRefl(p, root);
      CongRefl(p, next[k + 1]);
      MulStep(p, b, b, root, root);
      SubStep(p, next[k], next[k], Mul(p, b, root), b * root);
      AddStep(p, next[k + 1], next[k + 1], b, b);
      next := next[k := low][k + 1 := high];
      forall x ensures Cong(p, Eval(next, x), Eval(basis[..k + 1], x) * (x - root)) {
        var w := Power(x, k);
        EvalUpdateCong(p, before, k, low, -(b * root), x);
        EvalUpdateCong(p, before[k := low], k + 1, high, b, x);
        EvalPrefixStep(basis, k, x);
        RootStep(p, Eval(before, x), Eval(before[k := low], x), Eval(next, x), Eval(basis[..k], x), x, root, b, w);
      }
    }
    assert basis[..|basis|] == basis;
  }

  lemma RootStep(p: int, e0: int, e1: int, e2: int, s: int, x: int, root: int, b: int, w: int)
    requires Cong(p, e0, s * (x - root)) && Cong(p, e1, e0 + -(b * root) * w) && Cong(p, e2, e1 + b * (x * w))
    ensures Cong(p, e2, (s + b * w) * (x - root))
  {
    hide Cong;
    assert p > 0 by { CongPositive(p, e0, s * (x - root)); }
    CongRefl(p, -(b * root) * w);
    CongRefl(p, b * (x * w));
    CongAdd(p, e0, s * (x - root), -(b * root) * w, -(b * root) * w);
    CongTrans(p, e1, e0 + -(b * root) * w, s * (x - root) + -(b * root) * w);
    CongAdd(p, e1, s * (x - root) + -(b * root) * w, b * (x * w), b * (x * w));
    CongTrans(p, e2, e1 + b * (x * w), s * (x - root) + -(b * root) * w + b * (x * w));
    RootRing(s, x, root, b, w);
  }

  lemma RootRing(s: int, x: int, root: int, b: int, w: int)
    ensures s * (x - root) + -(b * root) * w + b * (x * w) == (s + b * w) * (x - root)
  {}

  lemma CongPositive(p: int, a: int, b: int)
    requires Cong(p, a, b)
    ensures p > 0
  {}

  /** Add scale times the basis into the running coefficients. */
  method AddScaled(p: int, result: seq<int>, basis: seq<int>, scale: int) returns (out: seq<int>)
    requires p > 0 && AllCanonical(p, result) && |basis| <= |result|
    ensures |out| == |result| && AllCanonical(p, out)
    ensures forall x :: Cong(p, Eval(out, x), Eval(result, x) + scale * Eval(basis, x))
  {
    out := result;
    forall x ensures Cong(p, Eval(out, x), Eval(result, x) + scale * Eval(basis[..0], x)) {}
    hide Cong;
    for k := 0 to |basis|
      invariant |out| == |result| && AllCanonical(p, out)
      invariant forall x :: Cong(p, Eval(out, x), Eval(result, x) + scale * Eval(basis[..k], x))
    {
      ghost var before := out;
      var b := basis[k];
      CongRefl(p, b);
      CongRefl(p, scale);
      CongRefl(p, out[k]);
      MulStep(p, b, b, scale, scale);
      AddStep(p, out[k], out[k], Mul(p, b, scale), b * scale);
      var v := Add(p, out[k], Mul(p, b, scale));
      out := out[k := v];
      forall x ensures Cong(p, Eval(out, x), Eval(result, x) + scale * Eval(basis[..k + 1], x)) {
        var w := Power(x, k);
        EvalUpdateCong(p, before, k, v, b * scale, x);
        EvalPrefixStep(basis, k, x);
        CongRefl(p, b * scale * w);
        CongAdd(p, Eval(before, x), Eval(result, x) + scale * Eval(basis[..k], x), b * scale * w, b * scale * w);
        CongTrans(p, Eval(out, x), Eval(before, x) + b * scale * w,
                  Eval(result, x) + scale * Eval(basis[..k], x) + b * scale * w);
        ScaledTerm(scale, Eval(basis[..k], x), b, w);
      }
    }
    assert basis[..|basis|] == basis;
  }

  lemma ScaledTerm(scale: int, s: int, b: int, w: int)
    ensures scale * s + b * scale * w == scale * (s + b * w)
  {
    ScaleRing(b, scale, s, w);
  }

  /** The basis polynomial for party i, multiplied out, and its value at points[i]. */
  method Basis(p: int, points: seq<int>, i: nat) returns (basis: seq<int>, denominator: int)
    requires p > 0 && AllCanonical(p, points) && i < |points|
    ensures |basis| == |points| && AllCanonical(p, basis)
    ensures forall x :: Cong(p, Eval(basis, x), Others(points, i, |points|, x))
    ensures Cong(p, denominator, Others(points, i, |points|, points[i])) && Canonical(p, denominator)
  {
    basis, denominator := [1 % p], 1 % p;
    forall x ensures Cong(p, Eval(basis, x), 1) { CongMod(p, 1); assert basis[1..] == []; }
    CongMod(p, 1);
    hide Cong;
    for j := 0 to |points|
      invariant |basis| == j + 1 - (if i < j then 1 else 0) && AllCanonical(p, basis)
      invariant forall x :: Cong(p, Eval(basis, x), Others(points, i, j, x))
      invariant Cong(p, denominator, Others(points, i, j, points[i])) && Canonical(p, denominator)
    {
      if i != j {
        ghost var before := basis;
        basis := MulByRoot(p, basis, points[j]);
        forall x ensures Cong(p, Eval(basis, x), Others(points, i, j + 1, x)) {
          CongRefl(p, x - points[j]);
          CongMul(p, Eval(before, x), Others(points, i, j, x), x - points[j], x - points[j]);
          CongTrans(p, Eval(basis, x), Eval(before, x) * (x - points[j]), Others(points, i, j, x) * (x - points[j]));
        }
        Ops(p, points[i], points[j]);
        MulStep(p, denominator, Others(points, i, j, points[i]), Sub(p, points[i], points[j]), points[i] - points[j]);
        denominator := Mul(p, denominator, Sub(p, points[i], points[j]));
      }
    }
  }

  /** The coefficients of the polynomial through the points. */
  method Interpolate(p: int, points: seq<int>, values: seq<int>) returns (result: seq<int>)
    requires p > 0 && AllCanonical(p, points) && AllCanonical(p, values) && |points| <= |values|
    ensures |result| == |points| && AllCanonical(p, result)
    ensures forall x :: Cong(p, Eval(result, x), LagrangeSum(p, points, values, |points|, x))
    ensures Prime(p) && Distinct(points) ==>
              forall k :: 0 <= k < |points| ==> Cong(p, Eval(result, points[k]), values[k])
  {
    result := seq(|points|, _ => 0);
    forall x ensures Cong(p, Eval(result, x), 0) { EvalZeros(|points|, x); }
    hide Cong;
    for i := 0 to |points|
      invariant |result| == |points| && AllCanonical(p, result)
      invariant forall x :: Cong(p, Eval(result, x), LagrangeSum(p, points, values, i, x))
    {
      ghost var before := result;
      var basis, denominator := Basis(p, points, i);
      var scale := Mul(p, values[i], Inv(p, denominator));
      WeightStep(p, points, values, i, denominator);
      result := AddScaled(p, result, basis, scale);
      forall x ensures Cong(p, Eval(result, x), LagrangeSum(p, points, values, i + 1, x)) {
        CongMul(p, scale, Weight(p, points, values, i), Eval(basis, x), Others(points, i, |points|, x));
        CongAdd(p, Eval(before, x), LagrangeSum(p, points, values, i, x),
                scale * Eval(basis, x), Weight(p, points, values, i) * Others(points, i, |points|, x));
        CongTrans(p, Eval(result, x), Eval(before, x) + scale * Eval(basis, x),
                  LagrangeSum(p, points, values, i + 1, x));
      }
    }
    if Prime(p) && Distinct(points) {
      forall k | 0 <= k < |points| ensures Cong(p, Eval(result, points[k]), values[k]) {
        SumAtNode(p, points, values, |points|, k);
        CongTrans(p, Eval(result, points[k]), LagrangeSum(p, points, values, |points|, points[k]), values[k]);
      }
    }
  }
}
