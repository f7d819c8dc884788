/**
 Integer polynomials as coefficient sequences, least-significant first, and the one
 fact about them that needs a field: a polynomial with more roots modulo a prime than
 its degree allows has every coefficient zero.
 */
module Polynomials {
  import opened Modular
  import opened Counting

  function Eval(c: seq<int>, x: int): int {
    if |c| == 0 then 0 else c[0] + x * Eval(c[1..], x)
  }

  ghost function Plus(a: seq<int>, b: seq<int>): (r: seq<int>)
    ensures |r| == if |a| >= |b| then |a| else |b|
  {
    if a == [] then b
    else if b == [] then a
    else [a[0] + b[0]] + Plus(a[1..], b[1..])
  }

  ghost function Scale(k: int, a: seq<int>): (r: seq<int>)
    ensures |r| == |a|
  {
    if a == [] then [] else [k * a[0]] + Scale(k, a[1..])
  }

  ghost function Times(a: seq<int>, b: seq<int>): (r: seq<int>)
    requires b != []
    ensures |r| == if a == [] then 0 else |a| + |b| - 1
  {
    if a == [] then [] else Plus(Scale(a[0], b), [0] + Times(a[1..], b))
  }

  ghost function Minus(a: seq<int>, b: seq<int>): (r: seq<int>)
    ensures |r| == if |a| >= |b| then |a| else |b|
  {
    Plus(a, Scale(-1, b))
  }

  lemma {:induction false} EvalPlus(a: seq<int>, b: seq<int>, x: int)
    ensures Eval(Plus(a, b), x) == Eval(a, x) + Eval(b, x)
  {
    if a != [] && b != [] {
      EvalPlus(a[1..], b[1..], x);
      var s := Plus(a[1..], b[1..]);
      assert Plus(a, b)[1..] == s;
      assert x * (Eval(a[1..], x) + Eval(b[1..], x)) == x * Eval(a[1..], x) + x * Eval(b[1..], x);
    }
  }

  lemma {:induction false} EvalScale(k: int, a: seq<int>, x: int)
    ensures Eval(Scale(k, a), x) == k * Eval(a, x)
  {
    if a != [] {
      EvalScale(k, a[1..], x);
      assert Scale(k, a)[1..] == Scale(k, a[1..]);
      var e := Eval(a[1..], x);
      assert k * (a[0] + x * e) == k * a[0] + x * (k * e);
    }
  }

  lemma EvalLinear(a: int, b: int, x: int)
    ensures Eval([a, b], x) == a + b * x
  {
    assert [a, b][1..] == [b] && [b][1..] == [];
    assert Eval([b], x) == b + x * Eval([], x);
  }

  lemma EvalShifted(c: seq<int>, x: int)
    ensures Eval([0] + c, x) == x * Eval(c, x)
  {
    assert ([0] + c)[1..] == c;
  }

  lemma {:induction false} EvalTimes(a: seq<int>, b: seq<int>, x: int)
    requires b != []
    ensures Eval(Times(a, b), x) == Eval(a, x) * Eval(b, x)
  {
    if a != [] {
      hide *;
      var t := Times(a[1..], b);
      EvalTimes(a[1..], b, x);
      EvalScale(a[0], b, x);
      EvalShifted(t, x);
      EvalPlus(Scale(a[0], b), [0] + t, x);
      var u, v := Eval(a[1..], x), Eval(b, x);
      HornerProduct(a[0], x, u, v);
    }
  }

  lemma HornerProduct(a: int, x: int, u: int, v: int)
    ensures (a + x * u) * v == a * v + x * (u * v)
  {}

  lemma EvalMinus(a: seq<int>, b: seq<int>, x: int)
    ensures Eval(Minus(a, b), x) == Eval(a, x) - Eval(b, x)
  {
    EvalScale(-1, b, x);
    EvalPlus(a, Scale(-1, b), x);
  }

  // ----- appending a leading coefficient -----

  function Power(x: int, k: nat): int {
    if k == 0 then 1 else x * Power(x, k - 1)
  }

  lemma {:induction false} EvalSnoc(c: seq<int>, a: int, x: int)
    ensures Eval(c + [a], x) == Eval(c, x) + a * Power(x, |c|)
  {
    if c == [] {
      assert (c + [a])[1..] == [];
    } else {
      assert (c + [a])[1..] == c[1..] + [a];
      EvalSnoc(c[1..], a, x);
      var e, w := Eval(c[1..], x), Power(x, |c| - 1);
      assert x * (e + a * w) == x * e + a * (x * w);
    }
  }

  lemma {:induction false} PowerAdd(x: int, a: nat, b: nat)
    ensures Power(x, a + b) == Power(x, a) * Power(x, b)
  {
    if a > 0 {
      PowerAdd(x, a - 1, b);
      PowerRing(x, Power(x, a - 1), Power(x, b));
    }
  }

  lemma PowerRing(x: int, u: int, v: int)
    ensures x * (u * v) == (x * u) * v
  {}

  lemma {:induction false} EvalUpdate(c: seq<int>, i: nat, v: int, x: int)
    requires i < |c|
    ensures Eval(c[i := v], x) == Eval(c, x) + (v - c[i]) * Power(x, i)
  {
    if i == 0 {
      assert c[0 := v][1..] == c[1..];
    } else {
      assert c[i := v][1..] == c[1..][i - 1 := v];
      EvalUpdate(c[1..], i - 1, v, x);
      UpdateRing(x, Eval(c[1..], x), v - c[i], Power(x, i - 1));
    }
  }

  lemma UpdateRing(x: int, e: int, d: int, w: int)
    ensures x * (e + d * w) == x * e + d * (x * w)
  {}

  lemma EvalPrefixStep(c: seq<int>, k: nat, x: int)
    requires k < |c|
    ensures Eval(c[..k + 1], x) == Eval(c[..k], x) + c[k] * Power(x, k)
  {
    assert c[..k + 1] == c[..k] + [c[k]];
    EvalSnoc(c[..k], c[k], x);
  }

  // ----- roots -----

  ghost predicate ZeroPoly(p: int, c: seq<int>) {
    forall i :: 0 <= i < |c| ==> Cong(p, c[i], 0)
  }

  lemma {:induction false} ZeroPolyEval(p: int, c: seq<int>, x: int)
    requires p > 0 && ZeroPoly(p, c)
    ensures Cong(p, Eval(c, x), 0)
  {
    hide Cong;
    if c == [] {
      CongRefl(p, 0);
    } else {
      assert ZeroPoly(p, c[1..]);
      ZeroPolyEval(p, c[1..], x);
      CongScale(p, x, Eval(c[1..], x), 0);
      CongAdd(p, c[0], 0, x * Eval(c[1..], x), x * 0);
    }
  }

  /** The quotient of c(X) - c(x0) by X - x0. */
  ghost function Synth(c: seq<int>, x0: int): (q: seq<int>)
    ensures |q| == if c == [] then 0 else |c| - 1
  {
    if |c| <= 1 then [] else [Eval(c[1..], x0)] + Synth(c[1..], x0)
  }

  lemma {:induction false} SynthEval(c: seq<int>, x0: int, x: int)
    ensures Eval(c, x) - Eval(c, x0) == (x - x0) * Eval(Synth(c, x0), x)
  {
    if |c| > 1 {
      var t := c[1..];
      SynthEval(t, x0, x);
      assert Synth(c, x0)[1..] == Synth(t, x0);
      SynthStep(x, x0, Eval(t, x), Eval(t, x0), Eval(Synth(t, x0), x));
    } else if |c| == 1 {
      assert c[1..] == [];
    }
  }

  lemma SynthStep(x: int, x0: int, a: int, b: int, q: int)
    requires a - b == (x - x0) * q
    ensures x * a - x0 * b == (x - x0) * (b + x * q)
  {
    calc {
      x * a - x0 * b;
      x * (a - b) + (x - x0) * b;
      x * ((x - x0) * q) + (x - x0) * b;
      (x - x0) * (b + x * q);
    }
  }

  /** A zero quotient and a zero value force zero coefficients. */
  lemma {:induction false} SynthZero(p: int, c: seq<int>, x0: int)
    requires p > 0 && ZeroPoly(p, Synth(c, x0)) && Cong(p, Eval(c, x0), 0)
    ensures ZeroPoly(p, c)
  {
    hide Cong;
    if |c| == 1 {
      assert c[1..] == [] && Eval(c, x0) == c[0];
    } else if |c| > 1 {
      var t, q := c[1..], Synth(c, x0);
      assert Cong(p, q[0], 0);
      assert ZeroPoly(p, Synth(t, x0)) by {
        forall i | 0 <= i < |t| - 1 ensures Cong(p, Synth(t, x0)[i], 0) {
          assert Cong(p, q[i + 1], 0);
        }
      }
      SynthZero(p, t, x0);
      var e := Eval(t, x0);
      CongScale(p, x0, e, 0);
      CongSub(p, Eval(c, x0), 0, x0 * e, x0 * 0);
      assert Eval(c, x0) - x0 * e == c[0];
      forall i | 0 <= i < |c| ensures Cong(p, c[i], 0) {
        if i > 0 { assert Cong(p, t[i - 1], 0); }
      }
    }
  }

  /** A polynomial of fewer coefficients than it has roots is zero modulo p. */
  lemma {:induction false} RootBound(p: int, c: seq<int>, roots: set<int>)
    requires Prime(p)
    requires forall x :: x in roots ==> Canonical(p, x)
    requires forall x :: x in roots ==> Cong(p, Eval(c, x), 0)
    requires |c| <= |roots|
    ensures ZeroPoly(p, c)
    decreases |c|
  {
    hide Cong, Prime;
    if c != [] {
      var x0 := Inhabited(roots);
      var q, rest := Synth(c, x0), roots - {x0};
      assert p > 0;
      forall x | x in rest ensures Cong(p, Eval(q, x), 0) {
        SynthEval(c, x0, x);
        CongSub(p, Eval(c, x), 0, Eval(c, x0), 0);
        NoZeroDivisors(p, x - x0, Eval(q, x));
        DistinctDifference(p, x, x0);
      }
      RootBound(p, q, rest);
      SynthZero(p, c, x0);
    }
  }

  /** Two polynomials that agree modulo p on more points than either has coefficients agree everywhere. */
  lemma AgreeEverywhere(p: int, a: seq<int>, b: seq<int>, xs: set<int>, x: int)
    requires Prime(p)
    requires forall x :: x in xs ==> Canonical(p, x)
    requires forall x :: x in xs ==> Cong(p, Eval(a, x), Eval(b, x))
    requires |a| <= |xs| && |b| <= |xs|
    ensures Cong(p, Eval(a, x), Eval(b, x))
  {
    var d := Minus(a, b);
    hide Cong, Minus;
    forall y | y in xs ensures Cong(p, Eval(d, y), 0) {
      EvalMinus(a, b, y);
      CongRefl(p, Eval(b, y));
      CongSub(p, Eval(a, y), Eval(b, y), Eval(b, y), Eval(b, y));
    }
    RootBound(p, d, xs);
    ZeroPolyEval(p, d, x);
    EvalMinus(a, b, x);
    CongRefl(p, Eval(b, x));
    CongAdd(p, Eval(d, x), 0, Eval(b, x), Eval(b, x));
  }

  // ----- evaluation in the field -----

  /** Horner from the leading coefficient, reducing at every step. */
  function EvalMod(p: int, c: seq<int>, x: int): int
    requires p > 0
  {
    if c == [] then 0 else Add(p, Mul(p, EvalMod(p, c[1..], x), x), c[0])
  }

  lemma {:induction false} EvalModIsEval(p: int, c: seq<int>, x: int)
    requires p > 0
    ensures Cong(p, EvalMod(p, c, x), Eval(c, x))
    ensures Canonical(p, EvalMod(p, c, x))
  {
    hide Cong, Add, Mul;
    if c == [] {
      CongRefl(p, 0);
    } else {
      var e, t := EvalMod(p, c[1..], x), Eval(c[1..], x);
      EvalModIsEval(p, c[1..], x);
      CongScale(p, x, e, t);
      Ops(p, e, x);
      assert x * e == e * x;
      CongTrans(p, Mul(p, e, x), e * x, x * t);
      CongRefl(p, c[0]);
      CongAdd(p, Mul(p, e, x), x * t, c[0], c[0]);
      Ops(p, Mul(p, e, x), c[0]);
      CongTrans(p, EvalMod(p, c, x), Mul(p, e, x) + c[0], x * t + c[0]);
    }
  }
}
