/**
 Binomial coefficients and the alternating sum that makes them Lagrange coefficients at
 zero for consecutive evaluation points.
 */
module Binomial {
  import opened Polynomials

  function Choose(n: nat, k: nat): nat {
    if k == 0 then 1 else if n == 0 then 0 else Choose(n - 1, k - 1) + Choose(n - 1, k)
  }

  /** The running product the coefficient loop divides by k is divisible by k. */
  lemma {:induction false} Absorption(n: nat, k: nat)
    requires k >= 1
    ensures k * Choose(n, k) == (n + 1 - k) * Choose(n, k - 1)
  {
    if n == 0 {
      if k > 1 { assert Choose(0, k - 1) == 0; }
    } else {
      Absorption(n - 1, k);
      if k == 1 {
        assert Choose(n, 0) == Choose(n - 1, 0) == 1;
      } else {
        Absorption(n - 1, k - 1);
        AbsorptionRing(n, k, Choose(n - 1, k), Choose(n - 1, k - 1), Choose(n - 1, k - 2));
      }
    }
  }

  lemma AbsorptionRing(n: int, k: int, a: int, b: int, c: int)
    requires k * a == (n - k) * b && (k - 1) * b == (n - (k - 1)) * c
    ensures k * (b + a) == (n + 1 - k) * (c + b)
  {}

  lemma {:induction false} ChooseBeyond(n: nat, k: nat)
    requires k > n
    ensures Choose(n, k) == 0
  {
    if n > 0 { ChooseBeyond(n - 1, k - 1); ChooseBeyond(n - 1, k); }
  }

  lemma {:induction false} ChooseBound(n: nat, k: nat)
    ensures Choose(n, k) <= Power(2, n)
  {
    if n > 0 && k > 0 {
      ChooseBound(n - 1, k - 1);
      ChooseBound(n - 1, k);
    } else if n > 0 {
      ChooseBound(n - 1, 0);
    }
  }

  // ----- finite differences -----

  /** The coefficients of c(X + 1). */
  ghost function Shifted(c: seq<int>): (r: seq<int>)
    ensures |r| == |c|
  {
    if c == [] then []
    else
      var s := Shifted(c[1..]);
      Plus([c[0]], Plus(s, [0] + s))
  }

  /** The coefficients of c(X + 1) - c(X), one fewer than c's. */
  ghost function Delta(c: seq<int>): (r: seq<int>)
    ensures |r| == if c == [] then 0 else |c| - 1
  {
    if |c| <= 1 then [] else Plus(Shifted(c[1..]), [0] + Delta(c[1..]))
  }

  lemma {:induction false} ShiftedEval(c: seq<int>, x: int)
    ensures Eval(Shifted(c), x) == Eval(c, x + 1)
  {
    if c != [] {
      var s := Shifted(c[1..]);
      ShiftedEval(c[1..], x);
      EvalShifted(s, x);
      EvalPlus(s, [0] + s, x);
      EvalPlus([c[0]], Plus(s, [0] + s), x);
      assert [c[0]][1..] == [] && Eval([c[0]], x) == c[0];
      ShiftRing(x, Eval(s, x));
    }
  }

  lemma ShiftRing(x: int, e: int)
    ensures e + x * e == (x + 1) * e
  {}

  lemma {:induction false} DeltaEval(c: seq<int>, x: int)
    ensures Eval(Delta(c), x) == Eval(c, x + 1) - Eval(c, x)
  {
    if |c| == 1 {
      assert c[1..] == [];
    } else if |c| > 1 {
      var t := c[1..];
      DeltaEval(t, x);
      ShiftedEval(t, x);
      EvalShifted(Delta(t), x);
      EvalPlus(Shifted(t), [0] + Delta(t), x);
      DeltaRing(x, Eval(t, x + 1), Eval(t, x));
    }
  }

  lemma DeltaRing(x: int, a: int, b: int)
    ensures a + x * (a - b) == (x + 1) * a - x * b
  {}

  function Sign(i: nat): int { if i % 2 == 0 then 1 else -1 }

  /** The first m terms of sum (-1)^i * C(n, i) * c(s + i). */
  ghost function AltSum(n: nat, c: seq<int>, s: int, m: nat): int {
    if m == 0 then 0 else AltSum(n, c, s, m - 1) + Sign(m - 1) * Choose(n, m - 1) * Eval(c, s + m - 1)
  }

  lemma {:induction false} PascalSplit(n: nat, c: seq<int>, s: int, m: nat)
    requires n >= 1 && m >= 1
    ensures AltSum(n, c, s, m) == AltSum(n - 1, c, s, m) - AltSum(n - 1, c, s + 1, m - 1)
  {
    hide Eval;
    if m == 1 {
      assert AltSum(n, c, s, 0) == AltSum(n - 1, c, s, 0) == 0;
      assert Choose(n, 0) == Choose(n - 1, 0);
    } else {
      PascalSplit(n, c, s, m - 1);
      assert s + 1 + (m - 1) - 1 == s + m - 1;
      PascalTerms(n, m, Eval(c, s + m - 1));
    }
  }

  lemma PascalTerms(n: nat, m: nat, f: int)
    requires n >= 1 && m >= 2
    ensures Sign(m - 1) * Choose(n, m - 1) * f
            == Sign(m - 1) * Choose(n - 1, m - 1) * f - Sign(m - 2) * Choose(n - 1, m - 2) * f
  {
    assert Sign(m - 1) == -Sign(m - 2);
    PascalRing(Sign(m - 2), Choose(n - 1, m - 2), Choose(n - 1, m - 1), f);
  }

  lemma PascalRing(g: int, a: int, b: int, f: int)
    ensures -g * (a + b) * f == -g * b * f - g * a * f
  {}

  lemma {:induction false} DifferenceOfSums(n: nat, c: seq<int>, s: int, m: nat)
    ensures AltSum(n, c, s + 1, m) - AltSum(n, c, s, m) == AltSum(n, Delta(c), s, m)
  {
    hide Choose, Sign, Eval, Delta;
    if m > 0 {
      DifferenceOfSums(n, c, s, m - 1);
      DeltaEval(c, s + m - 1);
      assert s + 1 + m - 1 == s + m - 1 + 1;
      DifferenceRing(Sign(m - 1), Choose(n, m - 1), Eval(c, s + m - 1 + 1), Eval(c, s + m - 1));
    }
  }

  lemma DifferenceRing(g: int, k: int, a: int, b: int)
    ensures g * k * a - g * k * b == g * k * (a - b)
  {}

  /** The n-th difference of a polynomial with at most n coefficients vanishes. */
  lemma {:induction false} AlternatingSumVanishes(n: nat, c: seq<int>, s: int)
    requires |c| <= n
    ensures AltSum(n, c, s, n + 1) == 0
  {
    if n == 0 {
      assert AltSum(0, c, s, 0) == 0 && Eval(c, s) == 0;
      assert Sign(0) * Choose(0, 0) * 0 == 0;
    } else {
      PascalSplit(n, c, s, n + 1);
      ChooseBeyond(n - 1, n);
      assert AltSum(n - 1, c, s, n + 1) == AltSum(n - 1, c, s, n) by {
        assert Sign(n) * 0 * Eval(c, s + n) == 0;
      }
      DifferenceOfSums(n - 1, c, s, n);
      AlternatingSumVanishes(n - 1, Delta(c), s);
    }
  }

  /** The signed binomial that weighs the share at point i. */
  function ZeroCoefficient(n: nat, i: nat): int { -Sign(i) * Choose(n, i) }

  /** sum over i = 1..m of ZeroCoefficient(n, i) * c(i). */
  ghost function Recombination(n: nat, c: seq<int>, m: nat): int {
    if m == 0 then 0 else Recombination(n, c, m - 1) + ZeroCoefficient(n, m) * Eval(c, m)
  }

  lemma {:induction false} RecombinationIsAltSum(n: nat, c: seq<int>, m: nat)
    ensures Recombination(n, c, m) == Eval(c, 0) - AltSum(n, c, 0, m + 1)
  {
    if m == 0 {
      assert AltSum(n, c, 0, 1) == AltSum(n, c, 0, 0) + Sign(0) * Choose(n, 0) * Eval(c, 0);
    } else {
      RecombinationIsAltSum(n, c, m - 1);
      assert 0 + (m + 1) - 1 == m;
      NegatedTerm(Sign(m), Choose(n, m), Eval(c, m));
    }
  }

  lemma NegatedTerm(g: int, k: int, f: int)
    ensures -g * k * f == -(g * k * f)
  {}

  /** The signed binomials recover the constant term of every polynomial of degree below n. */
  lemma BinomialsInterpolateAtZero(n: nat, c: seq<int>)
    requires |c| <= n
    ensures Recombination(n, c, n) == Eval(c, 0)
  {
    RecombinationIsAltSum(n, c, n);
    AlternatingSumVanishes(n, c, 0);
  }
}
