/**
 Dealing a value to the computing parties over the Ed25519 scalar field, and the weights
 the generated circuit recombines the shares with.  The weights are signed binomials
 written out in decimal, so their strings are modelled digit by digit.
 */
module Dealing {
  import opened Modular
  import opened Polynomials
  import opened Limbs
  import opened Binomial
  import BigNat

  datatype Result<+T> = Ok(value: T) | Err(error: Error)
  datatype Error = TooManyParties | ExceedsField | ThresholdTooHigh

  const U128: int := 0x1_0000_0000_0000_0000_0000_0000_0000_0000

  // ----- decimal strings, most significant digit first -----

  ghost predicate Digits(s: seq<int>) { forall i :: 0 <= i < |s| ==> 0 <= s[i] < 10 }

  function Reversed(s: seq<int>): (r: seq<int>)
    ensures |r| == |s| && forall i :: 0 <= i < |s| ==> r[i] == s[|s| - 1 - i]
  {
    seq(|s|, i requires 0 <= i < |s| => s[|s| - 1 - i])
  }

  ghost function DecVal(s: seq<int>): int { Val(10, Reversed(s)) }

  /** The decimal rendering of a natural. */
  function Decimal(n: nat): (s: seq<int>)
    ensures s != [] && (|s| > 1 ==> s[0] != 0)
  {
    if n < 10 then [n] else Decimal(n / 10) + [n % 10]
  }

  lemma {:induction false} DecimalValue(n: nat)
    ensures Digits(Decimal(n)) && DecVal(Decimal(n)) == n
  {
    if n < 10 {
      assert Reversed([n]) == [n] && [n][1..] == [];
      assert Eval([n], 10) == n + 10 * Eval([], 10);
    } else {
      DecimalValue(n / 10);
      var d := Decimal(n / 10);
      assert Reversed(d + [n % 10]) == [n % 10] + Reversed(d);
      assert ([n % 10] + Reversed(d))[1..] == Reversed(d);
    }
  }

  /** A decimal has no more digits than its value needs. */
  lemma {:induction false} DecimalLength(n: nat, k: nat)
    requires k >= 1 && n < Power(10, k)
    ensures |Decimal(n)| <= k
  {
    var s := Decimal(n);
    if |s| > k {
      DecimalValue(n);
      var r := Reversed(s);
      assert r[|r| - 1] == s[0];
      NormalisedBound(10, r);
      PowerMonotone(10, k, |r| - 1);
    }
  }

  /** The digits of the subtrahend that the value's length leaves; all of them when it is short enough. */
  ghost function LowDigits(rhs: nat, n: nat): (r: nat)
    ensures rhs < Power(10, n) ==> r == rhs
  {
    PowerPositive(10, n);
    if rhs < Power(10, n) then rhs else rhs % Power(10, n)
  }

  /** Subtract a machine integer from a decimal string, digit by digit from the right. */
  method DecimalSub(value: seq<int>, rhs: nat) returns (r: Result<seq<int>>)
    requires Digits(value) && value != []
    ensures r.Ok? ==> Digits(r.value) && r.value != [] && (|r.value| > 1 ==> r.value[0] != 0)
    ensures var cut := LowDigits(rhs, |value|);
            if cut <= DecVal(value) then r.Ok? && DecVal(r.value) == DecVal(value) - cut else r == Err(ExceedsField)
  {
    hide Eval, Power, LowDigits, Decimal;
    var n := |value|;
    var digits := value;
    var rhsDigits := Resize(Reversed(Decimal(rhs)), n);
    ghost var left := Reversed(value);
    ResizedDigits(rhs, n);
    var borrow := 0;
    assert left[..0] == rhsDigits[..0] == Reversed(digits)[..0] == [];
    ValZeros(10, []);
    for offset := 0 to n
      invariant |digits| == n && Digits(digits) && 0 <= borrow <= 1
      invariant forall k :: 0 <= k < n - offset ==> digits[k] == value[k]
      invariant Val(10, Reversed(digits)[..offset]) - borrow * Power(10, offset)
                == Val(10, left[..offset]) - Val(10, rhsDigits[..offset])
    {
      ghost var before, borrowed := Reversed(digits), borrow;
      var index := n - 1 - offset;
      var digit := digits[index] - rhsDigits[offset] - borrow;
      if digit < 0 {
        digit, borrow := digit + 10, 1;
      } else {
        borrow := 0;
      }
      digits := digits[index := digit];
      assert Reversed(digits) == before[offset := digit];
      assert Reversed(digits)[..offset] == before[..offset];
      ValPrefixStep(10, Reversed(digits), offset);
      ValPrefixStep(10, left, offset);
      ValPrefixStep(10, rhsDigits, offset);
      BorrowStep(10, Power(10, offset), digit, left[offset], rhsDigits[offset], borrowed, borrow);
      assert Power(10, offset + 1) == 10 * Power(10, offset) by { NextPowerOfTen(offset); }
    }
    ghost var out := Reversed(digits);
    assert out[..n] == out && left[..n] == left && rhsDigits[..n] == rhsDigits;
    ValBound(10, out);
    BorrowMeansSmaller(Val(10, out), Power(10, n), borrow, Val(10, left) - Val(10, rhsDigits));
    if borrow != 0 { return Err(ExceedsField); }
    var trimmed := TrimZeros(digits);
    r := Ok(trimmed);
  }

  lemma NextPowerOfTen(k: nat)
    ensures Power(10, k + 1) == 10 * Power(10, k)
  {}

  lemma BorrowMeansSmaller(v: int, w: int, borrow: int, difference: int)
    requires 0 <= v < w && 0 <= borrow <= 1 && v - borrow * w == difference
    ensures borrow == 0 <==> difference >= 0
  {}

  lemma ResizedDigits(rhs: nat, n: nat)
    requires n >= 1
    ensures Digits(Resize(Reversed(Decimal(rhs)), n))
    ensures Val(10, Resize(Reversed(Decimal(rhs)), n)) == LowDigits(rhs, n)
  {
    DecimalValue(rhs);
    var s := Reversed(Decimal(rhs));
    var r := Resize(s, n);
    if rhs < Power(10, n) {
      DecimalLength(rhs, n);
      assert r[..|s|] == s;
      ValSplit(10, r, |s|);
      ValZeros(10, r[|s|..]);
    } else {
      LongNumber(rhs, n);
      assert r == s[..n];
      ValSplit(10, s, n);
      ValBound(10, s[..n]);
      LowPart(rhs, Val(10, s[..n]), Power(10, n), Val(10, s[n..]));
    }
  }

  lemma LongNumber(rhs: nat, n: nat)
    requires rhs >= Power(10, n)
    ensures |Decimal(rhs)| >= n
  {
    DecimalValue(rhs);
    ValBound(10, Reversed(Decimal(rhs)));
    if |Decimal(rhs)| < n { PowerMonotone(10, |Decimal(rhs)|, n); }
  }

  lemma LowPart(v: int, low: int, w: int, high: int)
    requires v == low + w * high && 0 <= low < w
    ensures v % w == low
  {
    CongOf(w, v, low, high);
    ModSmall(w, low);
  }

  /** Drop leading zeros, keeping one digit. */
  method TrimZeros(digits: seq<int>) returns (out: seq<int>)
    requires Digits(digits) && digits != []
    ensures Digits(out) && out != [] && DecVal(out) == DecVal(digits) && (|out| > 1 ==> out[0] != 0)
  {
    var first := 0;
    assert digits[0..] == digits;
    while first < |digits| - 1 && digits[first] == 0
      invariant 0 <= first < |digits|
      invariant DecVal(digits[first..]) == DecVal(digits)
    {
      ghost var s, t := digits[first..], digits[first + 1..];
      assert Reversed(s) == Reversed(t) + [0];
      EvalSnoc(Reversed(t), 0, 10);
      first := first + 1;
    }
    out := digits[first..];
  }

  // ----- the circuit's weights -----

  /** The order of the Ed25519 scalar field. */
  const ORDER: nat := 7237005577332262213973186563042994240857116359379907606001950938285454250989

  /** The string the generator holds it as. */
  const ORDER_DIGITS: seq<int> := Decimal(ORDER)

  /** Section 5.1 of RFC 8032: 2^252 + 27742317777372353535851937790883648493. */
  lemma OrderIsEd25519()
    ensures ORDER == Power(2, 252) + 27742317777372353535851937790883648493
  {
    hide Power;
    TwoToTheThirty();
    PowerAdd(2, 6, 6);
    PowerAdd(2, 30, 30);
    PowerAdd(2, 60, 60);
    PowerAdd(2, 120, 120);
    PowerAdd(2, 240, 12);
  }

  lemma TwoToTheThirty()
    ensures Power(2, 6) == 64 && Power(2, 30) == 1073741824
  {
    PowerAdd(2, 6, 6);
    PowerAdd(2, 12, 12);
    PowerAdd(2, 24, 6);
  }

  /** The order is above every machine integer the loop subtracts from it. */
  lemma OrderIsLarge()
    ensures Digits(ORDER_DIGITS) && DecVal(ORDER_DIGITS) == ORDER > U128
    ensures U128 < Power(10, |ORDER_DIGITS|)
  {
    DecimalValue(ORDER);
    ValBound(10, Reversed(ORDER_DIGITS));
  }

  /** The product the loop forms before dividing fits the machine integer. */
  ghost predicate FitsU128(parties: nat, i: nat)
    requires 1 <= i <= parties
  {
    Choose(parties, i - 1) * (parties + 1 - i) < U128
  }

  /** A weight is the signed binomial modulo the order, written without leading zeros. */
  ghost predicate IsWeight(parties: nat, i: nat, s: seq<int>) {
    && Digits(s) && s != [] && (|s| > 1 ==> s[0] != 0)
    && DecVal(s) == if i % 2 == 1 then Choose(parties, i) else ORDER - Choose(parties, i)
  }

  ghost predicate Weights(parties: nat, out: seq<seq<int>>) {
    forall k :: 0 <= k < |out| ==> IsWeight(parties, k + 1, out[k])
  }

  method WriteWeight(ghost parties: nat, i: nat, choose: nat) returns (s: seq<int>)
    requires choose == Choose(parties, i) && choose < U128
    ensures IsWeight(parties, i, s)
  {
    if i % 2 == 1 {
      DecimalValue(choose);
      s := Decimal(choose);
    } else {
      OrderIsLarge();
      var r := DecimalSub(ORDER_DIGITS, choose);
      s := r.value;
    }
  }

  /** The weights for evaluation points 1..=parties, or an error when a product overflows. */
  method LagrangeAtZero(parties: nat) returns (r: Result<seq<seq<int>>>)
    ensures r.Ok? <==> forall i :: 1 <= i <= parties ==> FitsU128(parties, i)
    ensures r.Err? ==> r.error == TooManyParties
    ensures r.Ok? ==> |r.value| == parties && Weights(parties, r.value)
  {
    var choose := 1;
    var out: seq<seq<int>> := [];
    assert Choose(parties, 0) == 1;
    hide Choose, IsWeight;
    for i := 1 to parties + 1
      invariant choose == Choose(parties, i - 1) && choose < U128
      invariant forall k :: 1 <= k < i ==> FitsU128(parties, k)
      invariant |out| == i - 1 && Weights(parties, out)
    {
      var product := choose * (parties + 1 - i);
      if product >= U128 {
        assert !FitsU128(parties, i);
        return Err(TooManyParties);
      }
      Absorption(parties, i);
      ExactDivision(product, i, Choose(parties, i));
      choose := product / i;
      var s := WriteWeight(parties, i, choose);
      out := out + [s];
    }
    r := Ok(out);
  }

  lemma ExactDivision(product: nat, i: nat, c: nat)
    requires i >= 1 && product == i * c
    ensures product / i == c && c <= product
  {
    MultipleGap(i, c - product / i);
    MultipleModIsZero(i, c);
    AtLeastOnce(i, c);
  }

  lemma AtLeastOnce(i: nat, c: nat)
    requires i >= 1
    ensures c <= i * c
  {}

  /** Every committee of up to 120 parties gets weights. */
  lemma SmallCommitteesFit(parties: nat, i: nat)
    requires 1 <= i <= parties <= 120
    ensures FitsU128(parties, i)
  {
    hide Choose, Power;
    ChooseBound(parties, i - 1);
    PowerMonotone(2, parties, 120);
    TwoToTheThirty();
    PowerAdd(2, 30, 30);
    PowerAdd(2, 60, 60);
    SmallProduct(Choose(parties, i - 1), parties + 1 - i, Power(2, 120));
  }

  lemma SmallProduct(c: nat, k: nat, w: nat)
    requires c <= w && k <= 120 && 120 * w < U128
    ensures c * k < U128
  {
    assert c * k <= w * k <= w * 120;
  }

  // ----- dealing -----

  /** The residues of a list of big naturals. */
  ghost function Values(cs: seq<seq<int>>): (r: seq<int>)
    ensures |r| == |cs| && forall i :: 0 <= i < |cs| ==> r[i] == Val(BigNat.BASE, cs[i])
  {
    seq(|cs|, i requires 0 <= i < |cs| => Val(BigNat.BASE, cs[i]))
  }

  ghost predicate AllBelow(cs: seq<seq<int>>, m: seq<int>) {
    forall i :: 0 <= i < |cs| ==> BigNat.Valid(cs[i]) && Val(BigNat.BASE, cs[i]) < Val(BigNat.BASE, m)
  }

  /** One share: Horner from the highest coefficient, reducing after every step. */
  method ShareAt(coefficients: seq<seq<int>>, x: nat, prime: seq<int>) returns (share: seq<int>)
    requires BigNat.Valid(prime) && prime != [] && AllBelow(coefficients, prime)
    ensures BigNat.Valid(share) && Val(BigNat.BASE, prime) > 0
    ensures Canonical(Val(BigNat.BASE, prime), Val(BigNat.BASE, share))
    ensures Cong(Val(BigNat.BASE, prime), Val(BigNat.BASE, share), Eval(Values(coefficients), x))
  {
    ghost var p := Val(BigNat.BASE, prime);
    NormalisedBound(BigNat.BASE, prime);
    PowerPositive(BigNat.BASE, |prime| - 1);
    share := [];
    var k := |coefficients|;
    ghost var cs := Values(coefficients);
    assert cs[k..] == [];
    CongRefl(p, 0);
    ModSmall(p, 0);
    hide Val, Cong;
    assert Val(BigNat.BASE, []) == 0 by { ValZeros(BigNat.BASE, []); }
    while k > 0
      invariant 0 <= k <= |coefficients| && BigNat.Valid(share) && Canonical(p, Val(BigNat.BASE, share))
      invariant Cong(p, Val(BigNat.BASE, share), Eval(cs[k..], x))
    {
      k := k - 1;
      ghost var before := Val(BigNat.BASE, share);
      share := BigNat.MulSmallAddMod(share, x, coefficients[k], prime);
      assert cs[k..][1..] == cs[k + 1..] && cs[k..][0] == cs[k];
      HornerCong(p, before, Eval(cs[k + 1..], x), x, cs[k]);
    }
    assert cs[0..] == cs;
  }

  lemma HornerCong(p: int, acc: int, e: int, x: int, c: int)
    requires p > 0 && Cong(p, acc, e)
    ensures Cong(p, (acc * x + c) % p, c + x * e) && 0 <= (acc * x + c) % p < p
  {
    CongMod(p, acc * x + c);
    hide Cong;
    CongScale(p, x, acc, e);
    CongRefl(p, c);
    CongAdd(p, c, c, x * acc, x * e);
    assert acc * x + c == c + x * acc;
    CongTrans(p, (acc * x + c) % p, acc * x + c, c + x * e);
  }

  /** Every party's share is the dealt polynomial at its point, modulo the prime. */
  ghost predicate Deals(p: int, coefficients: seq<int>, shares: seq<seq<int>>) {
    forall i :: 0 <= i < |shares| ==>
      && BigNat.Valid(shares[i]) && Canonical(p, Val(BigNat.BASE, shares[i]))
      && Cong(p, Val(BigNat.BASE, shares[i]), Eval(coefficients, i + 1))
  }

  /** Deal a value to `nodes` parties; `random` are the drawn higher coefficients. */
  method ShamirSplit(value: BigNat.BigInt, nodes: nat, threshold: nat, prime: seq<int>, random: seq<seq<int>>)
    returns (r: Result<seq<seq<int>>>, ghost coefficients: seq<int>)
    requires BigNat.Valid(prime) && BigNat.Valid(value.magnitude)
    requires Val(BigNat.BASE, value.magnitude) < Val(BigNat.BASE, prime)
    requires |random| == threshold && AllBelow(random, prime)
    ensures r.Err? <==> nodes < 2 * threshold + 1
    ensures r.Err? ==> r.error == ThresholdTooHigh
    ensures r.Ok? ==> |r.value| == nodes && |coefficients| == threshold + 1
    ensures r.Ok? ==> Val(BigNat.BASE, prime) > 0 && Deals(Val(BigNat.BASE, prime), coefficients, r.value)
    ensures r.Ok? ==> coefficients[0] == BigNat.IntVal(value) % Val(BigNat.BASE, prime)
  {
    coefficients := [];
    if nodes < 2 * threshold + 1 { return Err(ThresholdTooHigh), []; }
    var constant := BigNat.Modulo(value, prime);
    assert prime != [] by { if prime == [] { ValZeros(BigNat.BASE, prime); } }
    var cs := [constant] + random;
    coefficients := Values(cs);
    assert AllBelow(cs, prime);
    var shares: seq<seq<int>> := [];
    for x := 1 to nodes + 1
      invariant |shares| == x - 1 && Deals(Val(BigNat.BASE, prime), coefficients, shares)
    {
      var share := ShareAt(cs, x, prime);
      shares := shares + [share];
    }
    r := Ok(shares);
  }

  // ----- recombining -----

  /** The circuit's sum of weight times share, in the field of the given order. */
  method SecretInput(p: int, weights: seq<seq<int>>, shares: seq<seq<int>>) returns (total: int)
    requires p > 0 && |weights| == |shares|
    ensures Canonical(p, total) && Cong(p, total, WeightedSum(weights, shares, |shares|))
  {
    total := 0;
    CongRefl(p, 0);
    hide Cong, DecVal;
    for k := 0 to |shares|
      invariant Canonical(p, total) && Cong(p, total, WeightedSum(weights, shares, k))
    {
      var w, s := ReadDecimal(weights[k]), ReadLimbs(shares[k]);
      CongRefl(p, w * s);
      Ops(p, w, s);
      AddStep(p, total, WeightedSum(weights, shares, k), Mul(p, w, s), w * s);
      total := Add(p, total, Mul(p, w, s));
    }
  }

  ghost function WeightedSum(weights: seq<seq<int>>, shares: seq<seq<int>>, m: nat): int
    requires m <= |weights| && m <= |shares|
  {
    if m == 0 then 0
    else WeightedSum(weights, shares, m - 1) + DecVal(weights[m - 1]) * Val(BigNat.BASE, shares[m - 1])
  }

  function ReadDecimal(s: seq<int>): (v: int)
    ensures v == DecVal(s)
  {
    Eval(Reversed(s), 10)
  }

  function ReadLimbs(s: seq<int>): (v: int)
    ensures v == Val(BigNat.BASE, s)
  {
    Eval(s, BigNat.BASE)
  }

  lemma WeightIsCoefficient(parties: nat, i: nat, s: seq<int>)
    requires IsWeight(parties, i, s)
    ensures Cong(ORDER, DecVal(s), ZeroCoefficient(parties, i))
  {
    var c: int := Choose(parties, i);
    if i % 2 == 1 {
      assert ZeroCoefficient(parties, i) == c;
    } else {
      assert ZeroCoefficient(parties, i) == -c;
      CongOf(ORDER, ORDER - c, -c, 1);
    }
  }

  lemma {:induction false} WeightedSumIsRecombination(parties: nat, coefficients: seq<int>, weights: seq<seq<int>>,
                                                      shares: seq<seq<int>>, m: nat)
    requires |weights| == |shares| == parties && m <= parties
    requires Weights(parties, weights) && Deals(ORDER, coefficients, shares)
    ensures Cong(ORDER, WeightedSum(weights, shares, m), Recombination(parties, coefficients, m))
  {
    hide Cong, IsWeight, DecVal, Val, ZeroCoefficient, Eval;
    if m == 0 {
      CongRefl(ORDER, 0);
    } else {
      WeightedSumIsRecombination(parties, coefficients, weights, shares, m - 1);
      WeightIsCoefficient(parties, m, weights[m - 1]);
      CongMul(ORDER, DecVal(weights[m - 1]), ZeroCoefficient(parties, m),
              Val(BigNat.BASE, shares[m - 1]), Eval(coefficients, m));
      CongAdd(ORDER, WeightedSum(weights, shares, m - 1), Recombination(parties, coefficients, m - 1),
              DecVal(weights[m - 1]) * Val(BigNat.BASE, shares[m - 1]),
              ZeroCoefficient(parties, m) * Eval(coefficients, m));
    }
  }

  /**
   Deal and recombine: for every value and every choice of random coefficients, the
   circuit's weighted sum of the dealt shares is the value modulo the order.
   */
  method DealAndRecombine(value: BigNat.BigInt, nodes: nat, threshold: nat, prime: seq<int>, random: seq<seq<int>>)
    returns (r: Result<int>)
    requires BigNat.Valid(prime) && Val(BigNat.BASE, prime) == ORDER
    requires BigNat.Valid(value.magnitude) && Val(BigNat.BASE, value.magnitude) < ORDER
    requires |random| == threshold && AllBelow(random, prime)
    ensures r.Ok? <==> nodes >= 2 * threshold + 1 && forall i :: 1 <= i <= nodes ==> FitsU128(nodes, i)
    ensures r.Ok? ==> r.value == BigNat.IntVal(value) % ORDER
  {
    var dealt, coefficients := ShamirSplit(value, nodes, threshold, prime, random);
    if dealt.Err? { return Err(dealt.error); }
    var weights := LagrangeAtZero(nodes);
    if weights.Err? { return Err(weights.error); }
    var total := SecretInput(ORDER, weights.value, dealt.value);
    RecombinedValue(nodes, coefficients, weights.value, dealt.value, total, BigNat.IntVal(value));
    r := Ok(total);
  }

  lemma RecombinedValue(nodes: nat, coefficients: seq<int>, weights: seq<seq<int>>, shares: seq<seq<int>>, total: int,
                        value: int)
    requires |weights| == |shares| == nodes && 0 < |coefficients| <= nodes
    requires Weights(nodes, weights) && Deals(ORDER, coefficients, shares)
    requires Canonical(ORDER, total) && Cong(ORDER, total, WeightedSum(weights, shares, nodes))
    requires coefficients[0] == value % ORDER
    ensures total == value % ORDER
  {
    assert Eval(coefficients, 0) == coefficients[0];
    hide Cong, Weights, Deals, Eval;
    WeightedSumIsRecombination(nodes, coefficients, weights, shares, nodes);
    BinomialsInterpolateAtZero(nodes, coefficients);
    CongTrans(ORDER, total, WeightedSum(weights, shares, nodes), coefficients[0]);
    CongMod(ORDER, value);
    CanonicalUnique(ORDER, total, value % ORDER);
  }
}
