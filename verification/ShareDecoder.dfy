/**
 The Berlekamp-Welch share decoder: recover a Shamir secret and name exactly the parties
 whose shares are off the polynomial, or say that no polynomial is close enough.
 */
module ShareDecoder {
  import opened Basics
  import opened Modular
  import opened Counting
  import opened Polynomials
  import opened Interpolation
  import opened LinearSystem

  datatype Reason = LengthMismatch | TooFewShares | TooManyErrors

  datatype Verdict =
    | Decoded(secret: int, culprits: seq<nat>)
    | Beyond(capacity: nat, reason: Reason)

  /** How many wrong shares a codeword of this shape can be corrected through. */
  function Capacity(n: nat, degree: nat): (k: nat)
    ensures n <= degree ==> k == 0
    ensures degree < n ==> 2 * k + degree + 1 <= n < 2 * k + degree + 3
  {
    if n <= degree then 0 else (n - degree - 1) / 2
  }

  // ----- what a decode means -----

  ghost predicate Off(p: int, poly: seq<int>, points: seq<int>, shares: seq<int>, i: int)
    requires 0 <= i < |points| == |shares|
  {
    !Cong(p, Eval(poly, points[i]), shares[i])
  }

  /** The parties whose share does not lie on the polynomial. */
  ghost function Wrong(p: int, poly: seq<int>, points: seq<int>, shares: seq<int>): (s: set<int>)
    requires |points| == |shares|
    ensures forall i :: i in s <==> 0 <= i < |points| && Off(p, poly, points, shares, i)
  {
    set i | i in Range(|points|) && Off(p, poly, points, shares, i)
  }

  /** A polynomial of the given degree with wrong shares fewer than half the code's distance. */
  ghost predicate Codeword(p: int, poly: seq<int>, points: seq<int>, shares: seq<int>, degree: nat)
    requires |points| == |shares|
  {
    |poly| == degree + 1 && 2 * |Wrong(p, poly, points, shares)| + degree + 1 <= |points|
  }

  ghost predicate Increasing(s: seq<nat>) {
    forall i, j :: 0 <= i < j < |s| ==> s[i] < s[j]
  }

  /** The list names exactly the members of the set, in order. */
  ghost predicate Names(list: seq<nat>, s: set<int>) {
    Increasing(list) && forall i: int :: i in s <==> i in list
  }

  lemma {:induction false} NamesCard(list: seq<nat>, s: set<int>)
    requires Names(list, s)
    ensures |list| == |s|
    decreases |list|
  {
    if list == [] {
      if |s| > 0 {
        var _ := Inhabited(s);
      }
    } else {
      var k := |list| - 1;
      assert list[k] in s;
      var front, rest := list[..k], s - {list[k] as int};
      forall i: int ensures i in rest <==> i in front {
        if i in s && i != list[k] {
          var j :| 0 <= j < |list| && list[j] == i;
          assert front[j] == i;
        }
        if i in front {
          var j :| 0 <= j < k && list[j] == i;
          assert list[j] < list[k];
        }
      }
      NamesCard(front, rest);
    }
  }

  // ----- code distance -----

  /** The points at which a polynomial agrees with its shares, as field elements. */
  lemma AgreeingPoints(p: int, points: seq<int>, shares: seq<int>, wrong: set<int>) returns (xs: set<int>)
    requires |points| == |shares| && Distinct(points) && AllCanonical(p, points)
    requires forall i :: i in wrong ==> 0 <= i < |points|
    ensures |xs| == |points| - |wrong|
    ensures forall x :: x in xs ==> Canonical(p, x) && exists i :: 0 <= i < |points| && i !in wrong && points[i] == x
  {
    var right := Range(|points|) - wrong;
    RangeCard(|points|);
    assert Range(|points|) == right + wrong;
    xs := At(points, right);
    AtCard(points, right);
  }

  /** Two polynomials whose errors together leave degree+1 common points are one polynomial. */
  lemma CodewordsAgree(p: int, a: seq<int>, b: seq<int>, points: seq<int>, shares: seq<int>, degree: nat)
    requires Prime(p) && |points| == |shares| && Distinct(points) && AllCanonical(p, points)
    requires |a| == |b| == degree + 1
    requires |Wrong(p, a, points, shares)| + |Wrong(p, b, points, shares)| + degree + 1 <= |points|
    ensures forall x :: Cong(p, Eval(a, x), Eval(b, x))
    ensures Wrong(p, a, points, shares) == Wrong(p, b, points, shares)
  {
    hide Cong, Prime;
    var wa, wb := Wrong(p, a, points, shares), Wrong(p, b, points, shares);
    var both := wa + wb;
    assert |both| <= |wa| + |wb|;
    var xs := AgreeingPoints(p, points, shares, both);
    forall x | x in xs ensures Cong(p, Eval(a, x), Eval(b, x)) {
      var i :| 0 <= i < |points| && i !in both && points[i] == x;
      assert i !in wa && i !in wb;
      CongSym(p, Eval(b, x), shares[i]);
      CongTrans(p, Eval(a, x), shares[i], Eval(b, x));
    }
    forall x ensures Cong(p, Eval(a, x), Eval(b, x)) {
      AgreeEverywhere(p, a, b, xs, x);
    }
    forall i | 0 <= i < |points| ensures i in wa <==> i in wb {
      var u, v := Eval(a, points[i]), Eval(b, points[i]);
      CongSym(p, u, v);
      if Cong(p, u, shares[i]) { CongTrans(p, v, u, shares[i]); }
      if Cong(p, v, shares[i]) { CongTrans(p, u, v, shares[i]); }
    }
  }

  // ----- the key equation -----

  /** Q(x_i) = y_i * E(x_i) for every party. */
  ghost predicate KeyEquation(p: int, points: seq<int>, shares: seq<int>, q: seq<int>, e: seq<int>)
    requires |points| == |shares|
  {
    forall i :: 0 <= i < |points| ==> Cong(p, Eval(q, points[i]), shares[i] * Eval(e, points[i]))
  }

  /** A monic polynomial of the degree vanishing at a set of parties, without its leading one. */
  lemma {:induction false} Locator(points: seq<int>, positions: set<int>, degree: nat) returns (low: seq<int>)
    requires |positions| <= degree && forall i :: i in positions ==> 0 <= i < |points|
    ensures |low| == degree
    ensures forall i :: i in positions ==> Eval(low + [1], points[i]) == 0
    decreases degree
  {
    if degree == 0 {
      low := [];
    } else {
      var rest, root := positions, 0;
      if |positions| == degree {
        var k := Inhabited(positions);
        rest, root := positions - {k}, points[k];
      }
      var inner := Locator(points, rest, degree - 1);
      low := Plus([0] + inner, Scale(-root, inner + [1]));
      forall i | i in positions ensures Eval(low + [1], points[i]) == 0 {
        LocatorStep(inner, root, points[i]);
      }
    }
  }

  lemma LocatorStep(inner: seq<int>, root: int, x: int)
    ensures var low := Plus([0] + inner, Scale(-root, inner + [1]));
            Eval(low + [1], x) == (x - root) * Eval(inner + [1], x)
  {
    var low := Plus([0] + inner, Scale(-root, inner + [1]));
    var e, w := Eval(inner, x), Power(x, |inner|);
    EvalSnoc(low, 1, x);
    EvalPlus([0] + inner, Scale(-root, inner + [1]), x);
    EvalShifted(inner, x);
    EvalScale(-root, inner + [1], x);
    EvalSnoc(inner, 1, x);
    assert Power(x, |low|) == x * w;
    LocatorRing(x, root, e, w);
  }

  lemma LocatorRing(x: int, root: int, e: int, w: int)
    ensures x * e + -root * (e + 1 * w) + 1 * (x * w) == (x - root) * (e + 1 * w)
  {}

  /** With at least the true error count, the key equation has a solution. */
  lemma KeyEquationSolvable(p: int, poly: seq<int>, points: seq<int>, shares: seq<int>, errors: nat)
    returns (q: seq<int>, low: seq<int>)
    requires p > 0 && |points| == |shares| && poly != [] && |Wrong(p, poly, points, shares)| <= errors
    ensures |low| == errors && |q| == |poly| + errors
    ensures KeyEquation(p, points, shares, q, low + [1])
  {
    var wrong := Wrong(p, poly, points, shares);
    low := Locator(points, wrong, errors);
    var e := low + [1];
    q := Times(poly, e);
    hide Cong;
    forall i | 0 <= i < |points| ensures Cong(p, Eval(q, points[i]), shares[i] * Eval(e, points[i])) {
      var x := points[i];
      EvalTimes(poly, e, x);
      if i in wrong {
        assert Eval(poly, x) * Eval(e, x) == 0 == shares[i] * Eval(e, x);
        CongRefl(p, 0);
      } else {
        CongRefl(p, Eval(e, x));
        CongMul(p, Eval(poly, x), shares[i], Eval(e, x), Eval(e, x));
      }
    }
  }

  /** Every solution of the key equation factors through the true polynomial. */
  lemma SolutionFactors(p: int, poly: seq<int>, points: seq<int>, shares: seq<int>, q: seq<int>, e: seq<int>)
    requires Prime(p) && |points| == |shares| && Distinct(points) && AllCanonical(p, points) && poly != [] && e != []
    requires |q| == |poly| + |e| - 1 && KeyEquation(p, points, shares, q, e)
    requires |q| + |Wrong(p, poly, points, shares)| <= |points|
    ensures forall x :: Cong(p, Eval(q, x), Eval(poly, x) * Eval(e, x))
  {
    assert p > 0;
    hide Cong, Prime;
    var wrong := Wrong(p, poly, points, shares);
    var xs := AgreeingPoints(p, points, shares, wrong);
    var t := Times(poly, e);
    forall x | x in xs ensures Cong(p, Eval(q, x), Eval(t, x)) {
      var i :| 0 <= i < |points| && i !in wrong && points[i] == x;
      EvalTimes(poly, e, x);
      CongSym(p, Eval(poly, x), shares[i]);
      CongRefl(p, Eval(e, x));
      CongMul(p, shares[i], Eval(poly, x), Eval(e, x), Eval(e, x));
      CongTrans(p, Eval(q, x), shares[i] * Eval(e, x), Eval(poly, x) * Eval(e, x));
    }
    forall x ensures Cong(p, Eval(q, x), Eval(poly, x) * Eval(e, x)) {
      AgreeEverywhere(p, q, t, xs, x);
      EvalTimes(poly, e, x);
    }
  }

  /** A wrong share forces the locator to vanish at its party. */
  lemma WrongIsRoot(p: int, y: int, v: int, q: int, e: int)
    requires Prime(p) && Cong(p, q, v * e) && Cong(p, q, y * e) && !Cong(p, v, y)
    ensures Cong(p, e, 0)
  {
    assert p > 0;
    hide Cong, Prime;
    CongSym(p, q, v * e);
    CongTrans(p, v * e, q, y * e);
    CongRefl(p, y * e);
    CongSub(p, v * e, y * e, y * e, y * e);
    assert v * e - y * e == (v - y) * e;
    NoZeroDivisors(p, v - y, e);
    if Cong(p, v - y, 0) {
      CongRefl(p, y);
      CongAdd(p, v - y, 0, y, y);
    }
  }

  /** With exactly as many roots as errors, the locator vanishes at the wrong parties and nowhere else. */
  lemma LocatorRoots(p: int, poly: seq<int>, points: seq<int>, shares: seq<int>, q: seq<int>, low: seq<int>, i: nat)
    requires Prime(p) && |points| == |shares| && Distinct(points) && AllCanonical(p, points) && poly != []
    requires |q| == |poly| + |low| && KeyEquation(p, points, shares, q, low + [1])
    requires |low| == |Wrong(p, poly, points, shares)| && |q| + |low| <= |points| && i < |points|
    ensures Cong(p, Eval(low + [1], points[i]), 0) <==> i in Wrong(p, poly, points, shares)
  {
    var e, wrong := low + [1], Wrong(p, poly, points, shares);
    SolutionFactors(p, poly, points, shares, q, e);
    forall k | k in wrong ensures Cong(p, Eval(e, points[k]), 0) {
      WrongIsRoot(p, shares[k], Eval(poly, points[k]), Eval(q, points[k]), Eval(e, points[k]));
    }
    if i !in wrong && Cong(p, Eval(e, points[i]), 0) {
      var more := wrong + {i as int};
      AtCard(points, more);
      MonicHasFewRoots(p, low, At(points, more));
    }
  }

  lemma MonicHasFewRoots(p: int, low: seq<int>, roots: set<int>)
    requires Prime(p)
    requires forall x :: x in roots ==> Canonical(p, x)
    requires forall x :: x in roots ==> Cong(p, Eval(low + [1], x), 0)
    ensures |roots| <= |low|
  {
    if |roots| > |low| {
      var e := low + [1];
      RootBound(p, e, roots);
      assert Cong(p, e[|low|], 0);
      CanonicalUnique(p, 1, 0);
    }
  }

  // ----- polynomial division -----

  /** Writing one more cell subtracts one more term of factor * x^at * den. */
  lemma ShiftedCell(p: int, before: seq<int>, rem: seq<int>, den: seq<int>, at: nat, j: nat, v: int, factor: int,
                    x: int)
    requires p > 0 && j < |den| && at + j < |before| && Cong(p, v, before[at + j] - den[j] * factor)
    requires Cong(p, Eval(before, x), Eval(rem, x) - factor * Power(x, at) * Eval(den[..j], x))
    ensures Cong(p, Eval(before[at + j := v], x), Eval(rem, x) - factor * Power(x, at) * Eval(den[..j + 1], x))
  {
    hide Cong, Eval, Power;
    EvalUpdateCong(p, before, at + j, v, -(den[j] * factor), x);
    EvalPrefixStep(den, j, x);
    PowerAdd(x, at, j);
    DivideStep(p, Eval(before[at + j := v], x), Eval(before, x), Eval(rem, x), factor, Power(x, at), Power(x, j),
               Eval(den[..j], x), den[j]);
  }

  /** rem := rem - factor * X^at * den, cell by cell. */
  method SubtractShifted(p: int, rem: seq<int>, den: seq<int>, at: nat, factor: int) returns (out: seq<int>)
    requires p > 0 && AllCanonical(p, rem) && at + |den| <= |rem|
    ensures |out| == |rem| && AllCanonical(p, out)
    ensures forall k :: 0 <= k < |rem| && !(at <= k < at + |den|) ==> out[k] == rem[k]
    ensures forall j :: 0 <= j < |den| ==> Cong(p, out[at + j], rem[at + j] - den[j] * factor)
    ensures forall x :: Cong(p, Eval(out, x), Eval(rem, x) - factor * Power(x, at) * Eval(den, x))
  {
    hide Cong, Power, Eval;
    out := rem;
    forall x ensures Cong(p, Eval(out, x), Eval(rem, x) - factor * Power(x, at) * Eval(den[..0], x)) {
      EvalZeros(0, x);
      assert den[..0] == seq(0, _ => 0) && factor * Power(x, at) * 0 == 0;
      CongRefl(p, Eval(rem, x));
    }
    for j := 0 to |den|
      invariant |out| == |rem| && AllCanonical(p, out)
      invariant forall k :: 0 <= k < |rem| && !(at <= k < at + j) ==> out[k] == rem[k]
      invariant forall j' :: 0 <= j' < j ==> Cong(p, out[at + j'], rem[at + j'] - den[j'] * factor)
      invariant forall x :: Cong(p, Eval(out, x), Eval(rem, x) - factor * Power(x, at) * Eval(den[..j], x))
    {
      ghost var before := out;
      CongRefl(p, den[j]);
      CongRefl(p, factor);
      CongRefl(p, out[at + j]);
      MulStep(p, den[j], den[j], factor, factor);
      var value := Mul(p, den[j], factor);
      SubStep(p, out[at + j], out[at + j], value, den[j] * factor);
      var v := Sub(p, out[at + j], value);
      out := out[at + j := v];
      forall x ensures Cong(p, Eval(out, x), Eval(rem, x) - factor * Power(x, at) * Eval(den[..j + 1], x)) {
        ShiftedCell(p, before, rem, den, at, j, v, factor, x);
      }
    }
    assert den[..|den|] == den;
  }

  lemma DivideStep(p: int, o: int, b: int, r: int, f: int, w: int, u: int, s: int, d: int)
    requires Cong(p, o, b + -(d * f) * (w * u)) && Cong(p, b, r - f * w * s)
    ensures Cong(p, o, r - f * w * (s + d * u))
  {
    CongPositive(p, b, r - f * w * s);
    hide Cong;
    var t := -(d * f) * (w * u);
    CongRefl(p, t);
    CongAdd(p, b, r - f * w * s, t, t);
    CongTrans(p, o, b + t, r - f * w * s + t);
    DivideRing(r, f, w, u, s, d);
  }

  lemma DivideRing(r: int, f: int, w: int, u: int, s: int, d: int)
    ensures r - f * w * s + -(d * f) * (w * u) == r - f * w * (s + d * u)
  {
    assert f * w * (s + d * u) == f * w * s + f * w * (d * u);
    assert f * w * (d * u) == (d * f) * (w * u);
  }

  /** Before the first step: a zero quotient, and everything left over. */
  lemma NothingDivided(p: int, numerator: seq<int>, denominator: seq<int>, n: nat)
    requires p > 0
    ensures forall x :: Cong(p, Eval(numerator, x), Eval(seq(n, _ => 0), x) * Eval(denominator, x) + Eval(numerator, x))
  {
    forall x
      ensures Cong(p, Eval(numerator, x), Eval(seq(n, _ => 0), x) * Eval(denominator, x) + Eval(numerator, x))
    {
      EvalZeros(n, x);
      CongRefl(p, Eval(numerator, x));
    }
  }

  /** Long division; the remainder has fewer cells than the divisor and is zero when exact. */
  method Divide(p: int, numerator: seq<int>, denominator: seq<int>)
    returns (quotient: seq<int>, exact: bool, ghost rem: seq<int>)
    requires Prime(p) && AllCanonical(p, numerator) && AllCanonical(p, denominator)
    requires |denominator| > 0 && denominator[|denominator| - 1] != 0
    ensures |quotient| == if |numerator| < |denominator| then 1 else |numerator| - |denominator| + 1
    ensures AllCanonical(p, quotient) && AllCanonical(p, rem) && |rem| < |denominator|
    ensures exact <==> forall k :: 0 <= k < |rem| ==> rem[k] == 0
    ensures forall x :: Cong(p, Eval(numerator, x), Eval(quotient, x) * Eval(denominator, x) + Eval(rem, x))
  {
    hide Cong, Inv, Eval;
    var remainder := numerator;
    var d := |denominator| - 1;
    if |remainder| <= d {
      rem := remainder;
      NothingDivided(p, numerator, denominator, 1);
      assert seq(1, _ => 0) == [0];
      return [0], forall k :: 0 <= k < |remainder| ==> remainder[k] == 0, rem;
    }
    assert denominator[d] != 0 && Canonical(p, denominator[d]);
    PivotInvertible(p, denominator[d]);
    var lead := Inv(p, denominator[d]);
    quotient := seq(|remainder| - d, _ => 0);
    NothingDivided(p, numerator, denominator, |remainder| - d);
    assert p > 0;
    hide Prime;
    var i := |quotient|;
    while i > 0
      invariant 0 <= i <= |quotient| && |quotient| == |numerator| - d && |remainder| == |numerator|
      invariant AllCanonical(p, quotient) && AllCanonical(p, remainder)
      invariant forall k :: i + d <= k < |remainder| ==> remainder[k] == 0
      invariant forall k :: 0 <= k < i ==> quotient[k] == 0
      invariant forall x :: Cong(p, Eval(numerator, x), Eval(quotient, x) * Eval(denominator, x) + Eval(remainder, x))
    {
      i := i - 1;
      quotient, remainder := CancelLeading(p, numerator, denominator, lead, quotient, remainder, i);
    }
    rem := remainder[..d];
    forall x ensures Eval(remainder, x) == Eval(rem, x) { EvalTrim(remainder, d, x); }
    exact := forall k :: 0 <= k < d ==> remainder[k] == 0;
  }

  /** One cell of the quotient: cancel the leading cell of what remains. */
  method CancelLeading(p: int, ghost numerator: seq<int>, denominator: seq<int>, lead: int, q0: seq<int>, r0: seq<int>,
                       i: nat)
    returns (quotient: seq<int>, remainder: seq<int>)
    requires p > 0 && |denominator| > 0 && i < |q0| && |q0| + |denominator| - 1 == |r0| && q0[i] == 0
    requires AllCanonical(p, q0) && AllCanonical(p, r0) && AllCanonical(p, denominator)
    requires Mul(p, denominator[|denominator| - 1], lead) == 1
    requires forall k :: i + |denominator| <= k < |r0| ==> r0[k] == 0
    requires forall x :: Cong(p, Eval(numerator, x), Eval(q0, x) * Eval(denominator, x) + Eval(r0, x))
    ensures |quotient| == |q0| && |remainder| == |r0| && AllCanonical(p, quotient) && AllCanonical(p, remainder)
    ensures quotient == q0[i := Mul(p, r0[i + |denominator| - 1], lead)]
    ensures forall k :: i + |denominator| - 1 <= k < |remainder| ==> remainder[k] == 0
    ensures forall x :: Cong(p, Eval(numerator, x), Eval(quotient, x) * Eval(denominator, x) + Eval(remainder, x))
  {
    hide Cong;
    var d := |denominator| - 1;
    CongRefl(p, r0[i + d]);
    CongRefl(p, lead);
    MulStep(p, r0[i + d], r0[i + d], lead, lead);
    var factor := Mul(p, r0[i + d], lead);
    quotient := q0[i := factor];
    remainder := SubtractShifted(p, r0, denominator, i, factor);
    LeadingCellClears(p, r0[i + d], denominator[d], lead, remainder[i + d]);
    forall x ensures Cong(p, Eval(numerator, x), Eval(quotient, x) * Eval(denominator, x) + Eval(remainder, x)) {
      EvalUpdate(q0, i, factor, x);
      QuotientStep(p, Eval(numerator, x), Eval(q0, x), Eval(denominator, x), Eval(r0, x), Eval(remainder, x), factor,
                   Power(x, i));
    }
  }

  lemma LeadingCellClears(p: int, r: int, lead: int, inverse: int, cell: int)
    requires p > 0 && Mul(p, lead, inverse) == 1 && Canonical(p, cell)
    requires Cong(p, cell, r - lead * Mul(p, r, inverse))
    ensures cell == 0
  {
    hide Cong, Mul;
    var f := Mul(p, r, inverse);
    Ops(p, lead, inverse);
    Ops(p, r, inverse);
    CancelsBack(p, r, lead, inverse, f);
    CongRefl(p, r);
    CongSub(p, r, r, lead * f, r);
    CongTrans(p, cell, r - lead * f, 0);
    CanonicalUnique(p, cell, 0);
  }

  lemma CancelsBack(p: int, r: int, lead: int, inverse: int, f: int)
    requires p > 0 && Cong(p, 1, lead * inverse) && Cong(p, f, r * inverse)
    ensures Cong(p, lead * f, r)
  {
    hide Cong;
    CongScale(p, lead, f, r * inverse);
    CongScale(p, r, 1, lead * inverse);
    assert lead * (r * inverse) == r * (lead * inverse);
    CongSym(p, r * 1, r * (lead * inverse));
    CongTrans(p, lead * f, r * (lead * inverse), r);
  }

  lemma QuotientStep(p: int, n: int, q: int, d: int, r: int, r': int, f: int, w: int)
    requires Cong(p, n, q * d + r) && Cong(p, r', r - f * w * d)
    ensures Cong(p, n, (q + (f - 0) * w) * d + r')
  {
    CongPositive(p, n, q * d + r);
    hide Cong;
    var t := f * w * d;
    CongRefl(p, t);
    CongAdd(p, r', r - t, t, t);
    CongSym(p, r' + t, r);
    CongRefl(p, q * d);
    CongAdd(p, q * d, q * d, r, r' + t);
    CongTrans(p, n, q * d + r, q * d + (r' + t));
    assert (q + (f - 0) * w) * d == q * d + t;
  }

  lemma {:induction false} EvalTrim(c: seq<int>, d: nat, x: int)
    requires d <= |c| && forall k :: d <= k < |c| ==> c[k] == 0
    ensures Eval(c, x) == Eval(c[..d], x)
    decreases |c|
  {
    if |c| > d {
      var k := |c| - 1;
      assert c == c[..k] + [0];
      EvalSnoc(c[..k], 0, x);
      EvalTrim(c[..k], d, x);
      assert c[..k][..d] == c[..d];
    } else {
      assert c[..d] == c;
    }
  }

  // ----- the linear system -----

  /** `count` cells s, s*x, s*x^2, ... and the power of x that would come next. */
  method PowerCells(p: int, s: int, x: int, count: nat) returns (cells: seq<int>, power: int)
    requires p > 0
    ensures |cells| == count && AllCanonical(p, cells) && Geometric(p, cells, s, x, 0)
    ensures Cong(p, power, Power(x, count))
  {
    cells, power := [], 1 % p;
    CongMod(p, 1);
    hide Cong;
    for c := 0 to count
      invariant |cells| == c && AllCanonical(p, cells) && Geometric(p, cells, s, x, 0)
      invariant Cong(p, power, Power(x, c))
    {
      CongRefl(p, s);
      CongRefl(p, x);
      MulStep(p, s, s, power, Power(x, c));
      MulStep(p, power, Power(x, c), x, x);
      assert Power(x, c) * x == Power(x, c + 1) && 0 + c == c;
      cells := cells + [Mul(p, s, power)];
      power := Mul(p, power, x);
    }
  }

  /** One party's equation: Q's powers, then -y times the locator's, against y*x^errors. */
  ghost predicate PartyRow(p: int, x: int, y: int, qLen: nat, errors: nat, row: seq<int>, rhs: int) {
    && |row| == qLen + errors && AllCanonical(p, row) && Canonical(p, rhs)
    && Geometric(p, row[..qLen], 1, x, 0) && Geometric(p, row[qLen..], -y, x, 0)
    && Cong(p, rhs, y * Power(x, errors))
  }

  method BuildRow(p: int, x: int, y: int, qLen: nat, errors: nat) returns (row: seq<int>, rhs: int)
    requires p > 0
    ensures PartyRow(p, x, y, qLen, errors, row, rhs)
  {
    var head, _ := PowerCells(p, 1, x, qLen);
    Ops(p, y, 0);
    var tail, power := PowerCells(p, Neg(p, y), x, errors);
    hide Cong;
    assert Geometric(p, tail, -y, x, 0) by {
      forall c | 0 <= c < errors ensures Cong(p, tail[c], -y * Power(x, 0 + c)) {
        CongRefl(p, Power(x, 0 + c));
        CongMul(p, Neg(p, y), -y, Power(x, 0 + c), Power(x, 0 + c));
        CongTrans(p, tail[c], Neg(p, y) * Power(x, 0 + c), -y * Power(x, 0 + c));
      }
    }
    CongRefl(p, y);
    MulStep(p, y, y, power, Power(x, errors));
    row, rhs := head + tail, Mul(p, y, power);
    assert row[..qLen] == head && row[qLen..] == tail;
  }

  lemma RowIsKeyEquation(p: int, x: int, y: int, row: seq<int>, rhs: int, q: seq<int>, low: seq<int>)
    requires p > 0 && PartyRow(p, x, y, |q|, |low|, row, rhs)
    ensures Holds(p, row, rhs, q + low) <==> Cong(p, Eval(q, x), y * Eval(low + [1], x))
  {
    hide Cong;
    var k := |q|;
    var a, b := row[..k], row[k..];
    assert row == a + b;
    DotConcat(a, b, q, low);
    DotGeometric(p, a, 1, x, 0, q);
    DotGeometric(p, b, -y, x, 0, low);
    EvalSnoc(low, 1, x);
    RowEquation(p, Dot(row, q + low), Dot(a, q), Dot(b, low), rhs, Eval(q, x), y, Eval(low, x), Power(x, |low|));
  }

  lemma RowEquation(p: int, dot: int, da: int, db: int, rhs: int, q: int, y: int, l: int, w: int)
    requires dot == da + db && Cong(p, da, 1 * 1 * q) && Cong(p, db, -y * 1 * l) && Cong(p, rhs, y * w)
    ensures Cong(p, dot, rhs) <==> Cong(p, q, y * (l + 1 * w))
  {
    CongPositive(p, rhs, y * w);
    hide Cong;
    CongAdd(p, da, 1 * 1 * q, db, -y * 1 * l);
    var v := q - y * l;
    assert 1 * 1 * q + -y * 1 * l == v && y * (l + 1 * w) == y * w + y * l;
    CongRefl(p, y * l);
    CongSym(p, dot, v);
    CongSym(p, rhs, y * w);
    if Cong(p, dot, rhs) {
      CongTrans(p, v, dot, rhs);
      CongTrans(p, v, rhs, y * w);
      CongAdd(p, v, y * w, y * l, y * l);
    }
    if Cong(p, q, y * w + y * l) {
      CongSub(p, q, y * w + y * l, y * l, y * l);
      CongTrans(p, dot, v, y * w);
      CongTrans(p, dot, y * w, rhs);
    }
  }

  ghost predicate WelchSystem(p: int, points: seq<int>, shares: seq<int>, qLen: nat, errors: nat, a: seq<seq<int>>,
                              b: seq<int>)
    requires |points| == |shares|
  {
    && |a| == |b| == |points|
    && forall i :: 0 <= i < |points| ==> PartyRow(p, points[i], shares[i], qLen, errors, a[i], b[i])
  }

  lemma WelchSystemIsKeyEquation(p: int, points: seq<int>, shares: seq<int>, a: seq<seq<int>>, b: seq<int>,
                                 q: seq<int>, low: seq<int>)
    requires p > 0 && |points| == |shares| && WelchSystem(p, points, shares, |q|, |low|, a, b)
    requires Rectangular(a, |q + low|)
    ensures Solves(p, a, b, q + low) <==> KeyEquation(p, points, shares, q, low + [1])
  {
    hide Holds, Cong, PartyRow;
    forall i | 0 <= i < |points|
      ensures Holds(p, a[i], b[i], q + low) <==> Cong(p, Eval(q, points[i]), shares[i] * Eval(low + [1], points[i]))
    {
      RowIsKeyEquation(p, points[i], shares[i], a[i], b[i], q, low);
    }
  }

  method BuildSystem(p: int, points: seq<int>, shares: seq<int>, qLen: nat, errors: nat)
    returns (matrix: array<seq<int>>, rhs: array<int>)
    requires p > 0 && |points| == |shares|
    ensures fresh(matrix) && fresh(rhs)
    ensures WelchSystem(p, points, shares, qLen, errors, matrix[..], rhs[..])
  {
    matrix, rhs := new seq<int>[|points|], new int[|points|];
    hide PartyRow;
    for i := 0 to |points|
      invariant forall k :: 0 <= k < i ==> PartyRow(p, points[k], shares[k], qLen, errors, matrix[k], rhs[k])
    {
      var row, v := BuildRow(p, points[i], shares[i], qLen, errors);
      matrix[i], rhs[i] := row, v;
    }
  }

  // ----- decoding for one error count -----

  /** A polynomial of the given degree with exactly this many wrong shares. */
  ghost predicate Candidate(p: int, c: seq<int>, points: seq<int>, shares: seq<int>, degree: nat, errors: nat)
    requires |points| == |shares|
  {
    |c| == degree + 1 && |Wrong(p, c, points, shares)| == errors
  }

  /** What a solution of the key equation and its division say about a candidate. */
  ghost predicate Recovers(p: int, c: seq<int>, points: seq<int>, shares: seq<int>, low: seq<int>, quotient: seq<int>,
                           rem: seq<int>)
    requires |points| == |shares|
  {
    && (forall k :: 0 <= k < |rem| ==> rem[k] == 0)
    && (forall i :: 0 <= i < |points| ==>
        (Cong(p, Eval(low + [1], points[i]), 0) <==> i in Wrong(p, c, points, shares)))
    && (forall x :: Cong(p, Eval(quotient, x), Eval(c, x)))
  }

  /** The division identity, for the quotient and remainder of a solution by its locator. */
  ghost predicate DividesTo(p: int, q: seq<int>, e: seq<int>, quotient: seq<int>, rem: seq<int>) {
    forall x :: Cong(p, Eval(q, x), Eval(quotient, x) * Eval(e, x) + Eval(rem, x))
  }

  ghost predicate FactorsAs(p: int, q: seq<int>, c: seq<int>, e: seq<int>) {
    forall x :: Cong(p, Eval(q, x), Eval(c, x) * Eval(e, x))
  }

  /** The remainder has as many roots as cells, so it is zero. */
  lemma RemainderIsZero(p: int, c: seq<int>, q: seq<int>, e: seq<int>, quotient: seq<int>, rem: seq<int>,
                        roots: set<int>)
    requires Prime(p) && AllCanonical(p, rem) && |rem| <= |roots|
    requires FactorsAs(p, q, c, e) && DividesTo(p, q, e, quotient, rem)
    requires forall x :: x in roots ==> Canonical(p, x) && Cong(p, Eval(e, x), 0)
    ensures forall k :: 0 <= k < |rem| ==> rem[k] == 0
  {
    assert p > 0;
    hide Cong, Prime;
    forall x | x in roots ensures Cong(p, Eval(rem, x), 0) {
      RemainderVanishes(p, Eval(q, x), Eval(quotient, x), Eval(c, x), Eval(e, x), Eval(rem, x));
    }
    RootBound(p, rem, roots);
    forall k | 0 <= k < |rem| ensures rem[k] == 0 { CanonicalUnique(p, rem[k], 0); }
  }

  /** Where the locator does not vanish the quotient agrees, which is often enough. */
  lemma QuotientIsPolynomial(p: int, c: seq<int>, q: seq<int>, e: seq<int>, quotient: seq<int>, rem: seq<int>,
                             xs: set<int>)
    requires Prime(p) && |c| <= |xs| && |quotient| <= |xs| && forall k :: 0 <= k < |rem| ==> rem[k] == 0
    requires FactorsAs(p, q, c, e) && DividesTo(p, q, e, quotient, rem)
    requires forall x :: x in xs ==> Canonical(p, x) && !Cong(p, Eval(e, x), 0)
    ensures forall x :: Cong(p, Eval(quotient, x), Eval(c, x))
  {
    assert p > 0;
    CongRefl(p, 0);
    hide Cong, Prime;
    forall x | x in xs ensures Cong(p, Eval(quotient, x), Eval(c, x)) {
      ZeroPolyEval(p, rem, x);
      QuotientAgrees(p, Eval(q, x), Eval(quotient, x), Eval(c, x), Eval(e, x), Eval(rem, x));
    }
    forall x ensures Cong(p, Eval(quotient, x), Eval(c, x)) { AgreeEverywhere(p, quotient, c, xs, x); }
  }

  /** At the true error count every solution divides exactly, to the true polynomial. */
  lemma SolutionRecovers(p: int, c: seq<int>, points: seq<int>, shares: seq<int>, degree: nat,
                         q: seq<int>, low: seq<int>, quotient: seq<int>, rem: seq<int>)
    requires Prime(p) && |points| == |shares| && Distinct(points) && AllCanonical(p, points)
    requires Candidate(p, c, points, shares, degree, |low|) && degree + 2 * |low| + 1 <= |points|
    requires |q| == degree + 1 + |low| && KeyEquation(p, points, shares, q, low + [1])
    requires |quotient| == degree + 1 && |rem| <= |low| && AllCanonical(p, rem)
    requires DividesTo(p, q, low + [1], quotient, rem)
    ensures Recovers(p, c, points, shares, low, quotient, rem)
  {
    var e, wrong := low + [1], Wrong(p, c, points, shares);
    hide Cong, Prime, DividesTo;
    SolutionFactors(p, c, points, shares, q, e);
    assert FactorsAs(p, q, c, e);
    forall i | 0 <= i < |points| ensures Cong(p, Eval(e, points[i]), 0) <==> i in wrong {
      LocatorRoots(p, c, points, shares, q, low, i);
    }
    hide FactorsAs, KeyEquation, Eval;
    AtCard(points, wrong);
    RemainderIsZero(p, c, q, e, quotient, rem, At(points, wrong));
    var xs := AgreeingPoints(p, points, shares, wrong);
    QuotientIsPolynomial(p, c, q, e, quotient, rem, xs);
  }

  lemma RemainderVanishes(p: int, q: int, d: int, c: int, e: int, r: int)
    requires p > 0 && Cong(p, q, d * e + r) && Cong(p, q, c * e) && Cong(p, e, 0)
    ensures Cong(p, r, 0)
  {
    hide Cong;
    CongScale(p, c, e, 0);
    CongScale(p, d, e, 0);
    CongTrans(p, q, c * e, 0);
    CongSym(p, q, d * e + r);
    CongTrans(p, d * e + r, q, 0);
    CongSub(p, d * e + r, 0, d * e, 0);
  }

  lemma QuotientAgrees(p: int, q: int, d: int, c: int, e: int, r: int)
    requires Prime(p) && Cong(p, q, d * e + r) && Cong(p, q, c * e) && !Cong(p, e, 0) && Cong(p, r, 0)
    ensures Cong(p, d, c)
  {
    assert p > 0;
    hide Cong, Prime;
    CongSym(p, q, d * e + r);
    CongTrans(p, d * e + r, q, c * e);
    CongSub(p, d * e + r, c * e, r, 0);
    assert e * d == d * e && e * c == c * e;
    Cancel(p, e, d, c);
  }

  /** The parties at which a polynomial vanishes, found by evaluating. */
  method VanishesAt(p: int, e: seq<int>, points: seq<int>) returns (parties: seq<nat>)
    requires p > 0
    ensures Increasing(parties)
    ensures forall i: int :: i in parties <==> 0 <= i < |points| && Cong(p, Eval(e, points[i]), 0)
  {
    parties := [];
    for i := 0 to |points|
      invariant Increasing(parties) && forall k :: 0 <= k < |parties| ==> parties[k] < i
      invariant forall k: int :: k in parties <==> 0 <= k < i && Cong(p, Eval(e, points[k]), 0)
    {
      EvalModIsZero(p, e, points[i]);
      if EvalMod(p, e, points[i]) == 0 {
        parties := parties + [i];
      }
    }
  }

  lemma EvalModIsZero(p: int, e: seq<int>, x: int)
    requires p > 0
    ensures EvalMod(p, e, x) == 0 <==> Cong(p, Eval(e, x), 0)
  {
    EvalModIsShare(p, e, x, 0);
  }

  lemma EvalModIsShare(p: int, e: seq<int>, x: int, y: int)
    requires p > 0 && Canonical(p, y)
    ensures EvalMod(p, e, x) == y <==> Cong(p, Eval(e, x), y)
  {
    var v := EvalMod(p, e, x);
    EvalModIsEval(p, e, x);
    CongSym(p, v, Eval(e, x));
    if Cong(p, Eval(e, x), y) {
      CongTrans(p, v, Eval(e, x), y);
      CanonicalUnique(p, v, y);
    }
  }

  /** Whether the polynomial carries every share that is not a named party's. */
  method AgreesElsewhere(p: int, c: seq<int>, points: seq<int>, shares: seq<int>, named: seq<nat>) returns (ok: bool)
    requires p > 0 && |points| == |shares| && AllCanonical(p, shares)
    ensures ok <==> forall i :: 0 <= i < |points| && i !in named ==> !Off(p, c, points, shares, i)
  {
    for i := 0 to |points|
      invariant forall k :: 0 <= k < i && k !in named ==> !Off(p, c, points, shares, k)
    {
      EvalModIsShare(p, c, points[i], shares[i]);
      if i !in named && EvalMod(p, c, points[i]) != shares[i] {
        return false;
      }
    }
    return true;
  }

  /**
   Berlekamp-Welch for exactly `errors` errors.  An answer is a polynomial that agrees with
   every party not named; and if any polynomial has exactly that many wrong shares, within
   what the code can correct, the answer is that polynomial and exactly its wrong shares.
   */
  method Welch(p: int, points: seq<int>, shares: seq<int>, degree: nat, errors: nat)
    returns (r: Option<Verdict>, ghost poly: seq<int>)
    requires Prime(p) && |points| == |shares| && AllCanonical(p, points) && AllCanonical(p, shares)
    ensures r.Some? ==>
              && r.value.Decoded? && |poly| == degree + 1 && AllCanonical(p, poly) && r.value.secret == poly[0]
              && Increasing(r.value.culprits) && |r.value.culprits| == errors
              && forall i :: 0 <= i < |points| && i !in r.value.culprits ==> !Off(p, poly, points, shares, i)
    ensures Distinct(points) && degree + 2 * errors + 1 <= |points| ==>
              forall c :: Candidate(p, c, points, shares, degree, errors) ==>
                r.Some? && r.value.secret == c[0] % p && Names(r.value.culprits, Wrong(p, c, points, shares))
  {
    poly := [];
    var solution := SolveKeyEquation(p, points, shares, degree, errors);
    if solution.None? { return None, poly; }
    var (q, low) := solution.value;
    var quotient, exact, rem := Divide(p, q, low + [1]);
    assert DividesTo(p, q, low + [1], quotient, rem);
    hide Cong, Prime, DividesTo, KeyEquation, Recovers, Off, Names;
    if Distinct(points) && degree + 2 * errors + 1 <= |points| {
      forall c | Candidate(p, c, points, shares, degree, errors)
        ensures Recovers(p, c, points, shares, low, quotient, rem)
        ensures quotient[0] == c[0] % p
      {
        SolutionRecovers(p, c, points, shares, degree, q, low, quotient, rem);
        RecoveredSecret(p, c, points, shares, low, quotient, rem);
      }
    }
    r := Conclude(p, points, shares, degree, errors, low, quotient, exact, rem);
    poly := quotient;
  }

  /** Set up and solve the linear system: no solution means no candidate. */
  method SolveKeyEquation(p: int, points: seq<int>, shares: seq<int>, degree: nat, errors: nat)
    returns (r: Option<(seq<int>, seq<int>)>)
    requires Prime(p) && |points| == |shares|
    ensures r.Some? ==> |r.value.0| == degree + errors + 1 && |r.value.1| == errors
    ensures r.Some? ==> AllCanonical(p, r.value.0) && AllCanonical(p, r.value.1)
    ensures r.Some? ==> KeyEquation(p, points, shares, r.value.0, r.value.1 + [1])
    ensures r.None? ==> forall c :: !Candidate(p, c, points, shares, degree, errors)
  {
    hide WelchSystem, KeyEquation, Cong, Solves, Reduced, Candidate;
    var qLen := degree + errors + 1;
    var unknowns := qLen + errors;
    var matrix, rhs := BuildSystem(p, points, shares, qLen, errors);
    ghost var a, b := matrix[..], rhs[..];
    WelchSystemShape(p, points, shares, qLen, errors, a, b);
    var solution, _, _, _, _ := Solve(p, matrix, rhs, unknowns);
    if solution.None? {
      UnsolvableHasNoCandidate(p, points, shares, degree, errors, a, b);
      return None;
    }
    var q, low := solution.value[..qLen], solution.value[qLen..];
    assert solution.value == q + low;
    WelchSystemIsKeyEquation(p, points, shares, a, b, q, low);
    r := Some((q, low));
  }

  lemma UnsolvableHasNoCandidate(p: int, points: seq<int>, shares: seq<int>, degree: nat, errors: nat,
                                 a: seq<seq<int>>, b: seq<int>)
    requires p > 0 && |points| == |shares| && WelchSystem(p, points, shares, degree + errors + 1, errors, a, b)
    requires Rectangular(a, degree + 2 * errors + 1)
    requires forall x: seq<int> :: |x| == degree + 2 * errors + 1 ==> !Solves(p, a, b, x)
    ensures forall c :: !Candidate(p, c, points, shares, degree, errors)
  {
    hide WelchSystem, KeyEquation, Cong, Solves;
    forall c | Candidate(p, c, points, shares, degree, errors) ensures false {
      var q, low := KeyEquationSolvable(p, c, points, shares, errors);
      WelchSystemIsKeyEquation(p, points, shares, a, b, q, low);
    }
  }

  lemma WelchSystemShape(p: int, points: seq<int>, shares: seq<int>, qLen: nat, errors: nat, a: seq<seq<int>>,
                         b: seq<int>)
    requires |points| == |shares| && WelchSystem(p, points, shares, qLen, errors, a, b)
    ensures |a| == |b| && Rectangular(a, qLen + errors) && Reduced(p, a) && AllCanonical(p, b)
  {}

  lemma RecoveredSecret(p: int, c: seq<int>, points: seq<int>, shares: seq<int>, low: seq<int>, quotient: seq<int>,
                        rem: seq<int>)
    requires p > 0 && |points| == |shares| && Recovers(p, c, points, shares, low, quotient, rem)
    requires quotient != [] && c != [] && Canonical(p, quotient[0])
    ensures quotient[0] == c[0] % p
  {
    ConstantTerm(p, quotient, c);
  }

  lemma ConstantTerm(p: int, a: seq<int>, c: seq<int>)
    requires p > 0 && a != [] && c != [] && Canonical(p, a[0]) && forall x :: Cong(p, Eval(a, x), Eval(c, x))
    ensures a[0] == c[0] % p
  {
    assert Eval(a, 0) == a[0] && Eval(c, 0) == c[0];
    ModSmall(p, a[0]);
  }

  /** The last three tests: exact division, the right number of roots, agreement elsewhere. */
  method Conclude(p: int, points: seq<int>, shares: seq<int>, degree: nat, errors: nat,
                  low: seq<int>, quotient: seq<int>, exact: bool, ghost rem: seq<int>) returns (r: Option<Verdict>)
    requires p > 0 && |points| == |shares| && AllCanonical(p, shares) && quotient != []
    requires |low| == errors && (exact <==> forall k :: 0 <= k < |rem| ==> rem[k] == 0)
    ensures r.Some? ==>
              && r.value.Decoded? && r.value.secret == quotient[0]
              && Increasing(r.value.culprits) && |r.value.culprits| == errors
              && forall i :: 0 <= i < |points| && i !in r.value.culprits ==> !Off(p, quotient, points, shares, i)
    ensures forall c ::
              Candidate(p, c, points, shares, degree, errors) && Recovers(p, c, points, shares, low, quotient, rem) ==>
              r.Some? && Names(r.value.culprits, Wrong(p, c, points, shares))
  {
    if !exact { return None; }
    var culprits := VanishesAt(p, low + [1], points);
    forall c | Candidate(p, c, points, shares, degree, errors) && Recovers(p, c, points, shares, low, quotient, rem)
      ensures Names(culprits, Wrong(p, c, points, shares)) && |culprits| == errors
    {
      NamesCard(culprits, Wrong(p, c, points, shares));
    }
    if |culprits| != errors { return None; }
    var agrees := AgreesElsewhere(p, quotient, points, shares, culprits);
    forall c | Candidate(p, c, points, shares, degree, errors) && Recovers(p, c, points, shares, low, quotient, rem)
      ensures agrees
    {
      QuotientCarries(p, c, quotient, points, shares, culprits);
    }
    if !agrees { return None; }
    r := Some(Decoded(quotient[0], culprits));
  }

  lemma QuotientCarries(p: int, c: seq<int>, quotient: seq<int>, points: seq<int>, shares: seq<int>, named: seq<nat>)
    requires |points| == |shares| && Names(named, Wrong(p, c, points, shares))
    requires forall x :: Cong(p, Eval(quotient, x), Eval(c, x))
    ensures forall i :: 0 <= i < |points| && i !in named ==> !Off(p, quotient, points, shares, i)
  {
    hide Cong;
    forall i | 0 <= i < |points| && i !in named ensures !Off(p, quotient, points, shares, i) {
      assert i !in Wrong(p, c, points, shares);
      CongTrans(p, Eval(quotient, points[i]), Eval(c, points[i]), shares[i]);
    }
  }

  // ----- decoding -----

  /** The verdict is this polynomial's secret and exactly its wrong shares. */
  ghost predicate Decodes(p: int, v: Verdict, c: seq<int>, points: seq<int>, shares: seq<int>)
    requires p > 0 && |points| == |shares| && c != []
  {
    v.Decoded? && v.secret == c[0] % p && Names(v.culprits, Wrong(p, c, points, shares))
  }

  /** Within capacity there is at most one codeword, so a verdict for one is a verdict for all. */
  lemma OneCodeword(p: int, v: Verdict, a: seq<int>, points: seq<int>, shares: seq<int>, degree: nat)
    requires Prime(p) && |points| == |shares| && Distinct(points) && AllCanonical(p, points) && degree + 1 <= |points|
    requires Codeword(p, a, points, shares, degree) && Decodes(p, v, a, points, shares)
    ensures forall c :: Codeword(p, c, points, shares, degree) ==> Decodes(p, v, c, points, shares)
  {
    forall c | Codeword(p, c, points, shares, degree) ensures Decodes(p, v, c, points, shares) {
      CodewordsAgree(p, a, c, points, shares, degree);
      assert Eval(a, 0) == a[0] && Eval(c, 0) == c[0];
    }
  }

  /** Polynomials through the first degree+1 shares, checked against the rest. */
  method HonestPath(p: int, points: seq<int>, shares: seq<int>, degree: nat)
    returns (secret: int, agrees: bool, ghost c: seq<int>)
    requires Prime(p) && |points| == |shares| && degree + 1 <= |points| && AllCanonical(p, points)
             && AllCanonical(p, shares)
    ensures |c| == degree + 1
    ensures agrees && Distinct(points) ==> Wrong(p, c, points, shares) == {} && secret == c[0] % p
    ensures !agrees && Distinct(points) ==> forall d :: |d| == degree + 1 ==> Wrong(p, d, points, shares) != {}
  {
    var k := degree + 1;
    var xs, ys := points[..k], shares[..k];
    assert AllCanonical(p, xs) && AllCanonical(p, ys);
    secret := Reconstruct(p, xs, ys);
    var coefficients := Interpolate(p, xs, ys);
    c := coefficients;
    agrees := true;
    for i := k to |points|
      invariant agrees ==> forall j :: k <= j < i ==> !Off(p, c, points, shares, j)
      invariant !agrees ==> exists j :: k <= j < i && Off(p, c, points, shares, j)
    {
      EvalModIsShare(p, c, points[i], shares[i]);
      if EvalMod(p, coefficients, points[i]) != shares[i] {
        agrees := false;
        assert Off(p, c, points, shares, i);
      }
    }
    if Distinct(points) {
      assert Distinct(xs);
      forall j | 0 <= j < k ensures !Off(p, c, points, shares, j) {
        assert xs[j] == points[j] && ys[j] == shares[j];
      }
      InterpolantIsForced(p, c, secret, points, shares, degree, agrees);
    }
  }

  lemma InterpolantIsForced(p: int, c: seq<int>, secret: int, points: seq<int>, shares: seq<int>, degree: nat,
                            agrees: bool)
    requires Prime(p) && |points| == |shares| && |c| == degree + 1 <= |points| && Distinct(points)
             && AllCanonical(p, points)
    requires forall j :: 0 <= j < degree + 1 ==> !Off(p, c, points, shares, j)
    requires Canonical(p, secret) && Cong(p, secret, Eval(c, 0))
    requires agrees <==> forall j :: degree + 1 <= j < |points| ==> !Off(p, c, points, shares, j)
    ensures agrees ==> Wrong(p, c, points, shares) == {} && secret == c[0] % p
    ensures !agrees ==> forall d :: |d| == degree + 1 ==> Wrong(p, d, points, shares) != {}
  {
    var k := degree + 1;
    assert Eval(c, 0) == c[0];
    ModSmall(p, secret);
    if !agrees {
      forall d: seq<int> | |d| == k && Wrong(p, d, points, shares) == {} ensures false {
        SameThroughPrefix(p, c, d, points, shares, k);
      }
    }
  }

  /** Two polynomials through the first k shares, each of k coefficients, agree at every party. */
  lemma SameThroughPrefix(p: int, c: seq<int>, d: seq<int>, points: seq<int>, shares: seq<int>, k: nat)
    requires Prime(p) && |points| == |shares| && 0 < |c| == |d| == k <= |points| && Distinct(points)
             && AllCanonical(p, points)
    requires forall j :: 0 <= j < k ==> !Off(p, c, points, shares, j)
    requires Wrong(p, d, points, shares) == {}
    ensures forall j :: 0 <= j < |points| ==> !Off(p, c, points, shares, j)
  {
    hide Off;
    var wrong := Wrong(p, c, points, shares);
    RangeCard(k);
    RangeCard(|points|);
    assert Range(|points|) == Range(k) + (Range(|points|) - Range(k));
    SubsetCard(wrong, Range(|points|) - Range(k));
    CodewordsAgree(p, c, d, points, shares, k - 1);
    forall j | 0 <= j < |points| ensures !Off(p, c, points, shares, j) { assert j !in wrong; }
  }

  /** An accepted answer, when no smaller error count has a polynomial, is exact. */
  lemma AcceptedIsExact(p: int, c: seq<int>, points: seq<int>, shares: seq<int>, degree: nat, errors: nat, v: Verdict)
    requires Prime(p) && |points| == |shares| && Distinct(points) && AllCanonical(p, points) && degree + 1 <= |points|
    requires errors <= Capacity(|points|, degree) && |c| == degree + 1
    requires v.Decoded? && Canonical(p, c[0]) && v.secret == c[0] && Increasing(v.culprits) && |v.culprits| == errors
    requires forall i :: 0 <= i < |points| && i !in v.culprits ==> !Off(p, c, points, shares, i)
    requires forall e, d :: 0 <= e < errors ==> !Candidate(p, d, points, shares, degree, e)
    ensures Codeword(p, c, points, shares, degree) && Decodes(p, v, c, points, shares)
  {
    var wrong := Wrong(p, c, points, shares);
    var named := set i: int | i in v.culprits;
    NamesCard(v.culprits, named);
    SubsetCard(wrong, named);
    assert !Candidate(p, c, points, shares, degree, |wrong|) || |wrong| >= errors;
    SubsetSameCard(wrong, named);
    ModSmall(p, c[0]);
  }

  lemma AgreedIsExact(p: int, c: seq<int>, points: seq<int>, shares: seq<int>, degree: nat, secret: int)
    requires p > 0 && |points| == |shares| && |c| == degree + 1 <= |points|
    requires Wrong(p, c, points, shares) == {} && secret == c[0] % p
    ensures Codeword(p, c, points, shares, degree) && Decodes(p, Decoded(secret, []), c, points, shares)
  {
    assert Names([], Wrong(p, c, points, shares));
  }

  /** With no polynomial at any error count up to capacity, none is within half the distance. */
  lemma NothingClose(p: int, points: seq<int>, shares: seq<int>, degree: nat, capacity: nat)
    requires |points| == |shares| && |points| < 2 * capacity + degree + 3
    requires forall e, d :: 0 <= e <= capacity ==> !Candidate(p, d, points, shares, degree, e)
    ensures forall c :: |c| == degree + 1 ==> |points| < 2 * |Wrong(p, c, points, shares)| + degree + 1
  {
    forall c: seq<int> | |c| == degree + 1
      ensures |points| < 2 * |Wrong(p, c, points, shares)| + degree + 1
    {
      assert Candidate(p, c, points, shares, degree, |Wrong(p, c, points, shares)|);
    }
  }

  lemma SubsetSameCard(a: set<int>, b: set<int>)
    requires a <= b && |a| == |b|
    ensures a == b
  {
    SubsetCard(b - a, b);
    assert b == a + (b - a);
  }

  /**
   Recover the secret and name the parties whose shares do not lie on it.  With distinct
   points and enough shares: every polynomial whose wrong shares, counted twice, still leave
   degree + 1 shares is what the verdict reports, with exactly its wrong shares; a decoded
   verdict has such a polynomial behind it; so the verdict is `Beyond` exactly when there is
   none, and the capacity it reports is the largest count of wrong shares that fits.
   */
  method Locate(p: int, points: seq<int>, shares: seq<int>, degree: nat) returns (v: Verdict)
    requires Prime(p) && AllCanonical(p, points) && AllCanonical(p, shares)
    ensures |shares| != |points| ==> v.Beyond? && v.reason == LengthMismatch
    ensures |shares| == |points| < degree + 1 ==> v.Beyond? && v.reason == TooFewShares
    ensures |shares| == |points| >= degree + 1 && Distinct(points) ==>
              && (forall c :: |c| == degree + 1 && 2 * |Wrong(p, c, points, shares)| + degree + 1 <= |points| ==>
                    Decodes(p, v, c, points, shares))
              && (v.Decoded? ==>
                    exists c :: |c| == degree + 1 && 2 * |Wrong(p, c, points, shares)| + degree + 1 <= |points|)
              && (v.Beyond? ==> v.reason == TooManyErrors)
    ensures v.Beyond? && degree + 1 <= |points| ==>
              2 * v.capacity + degree + 1 <= |points| < 2 * v.capacity + degree + 3
    ensures v.Beyond? && |points| < degree + 1 ==> v.capacity == 0
  {
    hide Cong, Eval, Off, Names, Increasing;
    var n := |points|;
    var capacity := Capacity(n, degree);
    if |shares| != n { return Beyond(capacity, LengthMismatch); }
    if n < degree + 1 { return Beyond(capacity, TooFewShares); }

    var secret, agrees, c0 := HonestPath(p, points, shares, degree);
    if agrees {
      v := Decoded(secret, []);
      if Distinct(points) {
        AgreedIsExact(p, c0, points, shares, degree, secret);
        OneCodeword(p, v, c0, points, shares, degree);
      }
      return;
    }
    assert Distinct(points) ==> forall d :: !Candidate(p, d, points, shares, degree, 0);
    for errors := 1 to capacity + 1
      invariant Distinct(points) ==> forall e, d :: 0 <= e < errors ==> !Candidate(p, d, points, shares, degree, e)
    {
      var verdict, poly := Welch(p, points, shares, degree, errors);
      if verdict.Some? {
        v := verdict.value;
        if Distinct(points) {
          AcceptedIsExact(p, poly, points, shares, degree, errors, v);
          OneCodeword(p, v, poly, points, shares, degree);
        }
        return;
      }
      assert Distinct(points) ==> forall d :: !Candidate(p, d, points, shares, degree, errors);
    }
    v := Beyond(capacity, TooManyErrors);
    if Distinct(points) {
      NothingClose(p, points, shares, degree, capacity);
    }
  }

  // ----- dealing, corruption and decoding -----

  /** One share per point, from the polynomial with the secret at zero. */
  function Dealt(p: int, coefficients: seq<int>, points: seq<int>): (shares: seq<int>)
    requires p > 0
    ensures |shares| == |points| && forall i :: 0 <= i < |points| ==> shares[i] == EvalMod(p, coefficients, points[i])
  {
    seq(|points|, i requires 0 <= i < |points| => EvalMod(p, coefficients, points[i]))
  }

  /** The parties whose share arrived changed. */
  ghost function Altered(dealt: seq<int>, received: seq<int>): (s: set<int>)
    requires |dealt| == |received|
    ensures forall i :: i in s <==> 0 <= i < |dealt| && received[i] != dealt[i]
  {
    set i | i in Range(|dealt|) && received[i] != dealt[i]
  }

  lemma AlteredAreWrong(p: int, coefficients: seq<int>, points: seq<int>, received: seq<int>)
    requires p > 0 && |received| == |points| && AllCanonical(p, received)
    ensures Wrong(p, coefficients, points, received) == Altered(Dealt(p, coefficients, points), received)
  {
    hide Cong, Eval, EvalMod;
    var dealt := Dealt(p, coefficients, points);
    forall i | 0 <= i < |points| ensures Off(p, coefficients, points, received, i) <==> received[i] != dealt[i] {
      EvalModIsShare(p, coefficients, points[i], received[i]);
    }
  }

  /**
   Deal, let shares be replaced while twice their number still leaves as many shares as the polynomial
   has coefficients, decode: the secret comes back and exactly the changed parties are named.
   */
  method DealCorruptLocate(p: int, coefficients: seq<int>, points: seq<int>, received: seq<int>) returns (v: Verdict)
    requires Prime(p) && AllCanonical(p, points) && Distinct(points) && AllCanonical(p, received)
    requires 0 < |coefficients| <= |points| == |received|
    requires 2 * |Altered(Dealt(p, coefficients, points), received)| + |coefficients| <= |points|
    ensures v.Decoded? && v.secret == coefficients[0] % p
    ensures Names(v.culprits, Altered(Dealt(p, coefficients, points), received))
  {
    v := Locate(p, points, received, |coefficients| - 1);
    AlteredAreWrong(p, coefficients, points, received);
    assert Codeword(p, coefficients, points, received, |coefficients| - 1);
  }

  // ----- why no decoder can do better -----

  /** The shares of two polynomials that meet at the first `degree` points, each given about half of the rest. */
  ghost function Halved(p: int, b: seq<int>, points: seq<int>, split: nat): (shares: seq<int>)
    requires p > 0
    ensures |shares| == |points|
    ensures forall i :: 0 <= i < |points| ==> shares[i] == if i < split then 0 else EvalMod(p, b, points[i])
  {
    seq(|points|, i requires 0 <= i < |points| => if i < split then 0 else EvalMod(p, b, points[i]))
  }

  /** Wrong shares confined to a window of positions are at most its width. */
  lemma WrongWithin(p: int, c: seq<int>, points: seq<int>, shares: seq<int>, from: nat, to: nat)
    requires |points| == |shares| && from <= to
    requires forall i :: 0 <= i < |points| && !(from <= i < to) ==> !Off(p, c, points, shares, i)
    ensures |Wrong(p, c, points, shares)| <= to - from
  {
    RangeCard(from);
    RangeCard(to);
    assert Range(to) == Range(from) + (Range(to) - Range(from));
    SubsetCard(Wrong(p, c, points, shares), Range(to) - Range(from));
  }

  /** The first k points together with zero: k + 1 field elements when zero is not among them. */
  lemma PointsAndZero(p: int, points: seq<int>, k: nat) returns (xs: set<int>)
    requires Distinct(points) && AllCanonical(p, points) && 0 !in points && k <= |points|
    ensures |xs| == k + 1
    ensures forall x :: x in xs ==> x == 0 || exists i :: 0 <= i < k && points[i] == x
  {
    var named := At(points, Range(k));
    RangeCard(k);
    AtCard(points, Range(k));
    assert 0 !in named;
    xs := named + {0};
  }

  /** A monic polynomial vanishing at as many distinct non-zero points as its degree does not vanish at zero. */
  lemma MonicMissesZero(p: int, low: seq<int>, points: seq<int>)
    requires Prime(p) && Distinct(points) && AllCanonical(p, points) && 0 !in points && |low| <= |points|
    requires forall i :: 0 <= i < |low| ==> Eval(low + [1], points[i]) == 0
    ensures !Cong(p, Eval(low + [1], 0), 0)
  {
    hide Eval, Distinct;
    if Cong(p, Eval(low + [1], 0), 0) {
      var roots := PointsAndZero(p, points, |low|);
      forall x | x in roots ensures Canonical(p, x) && Cong(p, Eval(low + [1], x), 0) {}
      MonicHasFewRoots(p, low, roots);
    }
  }

  /**
   One wrong share past the capacity and the secret is not determined: whatever the points, some
   shares are that close to two polynomials of the degree with different secrets.
   */
  lemma BeyondCapacityIsAmbiguous(p: int, points: seq<int>, degree: nat)
    returns (shares: seq<int>, a: seq<int>, b: seq<int>)
    requires Prime(p) && Distinct(points) && AllCanonical(p, points) && 0 !in points && degree + 1 <= |points|
    ensures |shares| == |points| && AllCanonical(p, shares) && |a| == |b| == degree + 1
    ensures |Wrong(p, a, points, shares)| <= Capacity(|points|, degree) + 1
    ensures |Wrong(p, b, points, shares)| <= Capacity(|points|, degree) + 1
    ensures !Cong(p, a[0], b[0])
  {
    hide Power;
    var k := Capacity(|points|, degree) + 1;
    RangeCard(degree);
    var low := Locator(points, Range(degree), degree);
    a, b := seq(degree + 1, _ => 0), low + [1];
    shares := Halved(p, b, points, degree + k);
    forall i | 0 <= i < |points| ensures !(degree + k <= i < degree + 2 * k) ==> !Off(p, a, points, shares, i) {
      ZeroPolyEval(p, a, points[i]);
    }
    forall i | 0 <= i < |points| ensures !(degree <= i < degree + k) ==> !Off(p, b, points, shares, i) {
      EvalModIsShare(p, b, points[i], EvalMod(p, b, points[i]));
    }
    WrongWithin(p, a, points, shares, degree + k, degree + 2 * k);
    WrongWithin(p, b, points, shares, degree, degree + k);
    MonicMissesZero(p, low, points);
    assert Eval(a, 0) == a[0] && Eval(b, 0) == b[0];
    assert a[0] == 0;
    if Cong(p, 0, b[0]) { CongSym(p, 0, b[0]); }
  }
}
