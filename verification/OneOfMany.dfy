/**
 Groth-Kohlweiss: one commitment in a set opens to zero, without saying which.  The prover
 spreads the selector polynomials over the coefficients; the verifier recombines them at
 the challenge.  For every set, index, draw and challenge the proof verifies exactly when
 the selected commitment is the claimed multiple of h (or the challenge is zero).
 */
module OneOfMany {
  import opened Modular
  import opened Polynomials
  import opened LinearSystem
  import opened Group
  import opened Sigma
  import opened Interpolation
  import BitRangeProver

  datatype GkProof = GkProof(
    cl: seq<Point>, ca: seq<Point>, cb: seq<Point>, gk: seq<Point>,
    f: seq<int>, za: seq<int>, zb: seq<int>, zd: int)

  datatype Error = BadSize | IndexOutside
  datatype Result = Ok(proof: GkProof) | Err(error: Error)

  /** The prover's draws, one scalar of each kind per bit. */
  datatype Draws = Draws(a: seq<int>, r: seq<int>, s: seq<int>, t: seq<int>, rho: seq<int>)

  ghost predicate AreDraws(d: Draws, bits: nat) {
    |d.a| == |d.r| == |d.s| == |d.t| == |d.rho| == bits
  }

  // ----- sizes and bits -----

  predicate PowerOfTwo(n: nat) { n == 1 || (n > 0 && n % 2 == 0 && PowerOfTwo(n / 2)) }

  function TrailingZeros(n: nat): nat { if n == 0 || n % 2 == 1 then 0 else 1 + TrailingZeros(n / 2) }

  lemma {:induction false} PowerOfTwoIsPower(n: nat)
    requires PowerOfTwo(n)
    ensures n == Power(2, TrailingZeros(n))
  {
    if n > 1 { PowerOfTwoIsPower(n / 2); }
  }

  predicate Bit(i: nat, j: nat) { BitRangeProver.BitAt(i, j) == 1 }

  /** Indices below 2^bits that agree in every bit are equal. */
  lemma SameBits(i: nat, k: nat, bits: nat)
    requires i < Power(2, bits) && k < Power(2, bits)
    requires forall j :: 0 <= j < bits ==> Bit(i, j) == Bit(k, j)
    ensures i == k
  {
    BitRangeProver.BinaryValue(i, bits);
    BitRangeProver.BinaryValue(k, bits);
    forall j | 0 <= j < bits ensures BitRangeProver.BitAt(i, j) == BitRangeProver.BitAt(k, j) {
      BitRangeProver.BitAtIsBit(i, j);
      BitRangeProver.BitAtIsBit(k, j);
      assert Bit(i, j) == Bit(k, j);
    }
    assert BitRangeProver.Binary(i, bits) == BitRangeProver.Binary(k, bits);
  }

  // ----- the selector polynomials -----

  function Ell(p: int, index: nat, bits: nat): (r: seq<int>)
    requires p > 0
    ensures |r| == bits && forall j :: 0 <= j < bits ==> r[j] == if Bit(index, j) then 1 % p else 0
  {
    seq(bits, j requires 0 <= j => if Bit(index, j) then 1 % p else 0)
  }

  /** Factor j of index i's selector, at x. */
  ghost function Factor(i: nat, j: nat, a: int, ell: int, x: int): int {
    if Bit(i, j) then a + ell * x else -a + (1 - ell) * x
  }

  ghost function Selector(i: nat, m: nat, a: seq<int>, ell: seq<int>, x: int): int
    requires m <= |a| && m <= |ell|
  {
    if m == 0 then 1 else Selector(i, m - 1, a, ell, x) * Factor(i, m - 1, a[m - 1], ell[m - 1], x)
  }

  ghost function Lead(i: nat, m: nat, ell: seq<int>): int
    requires m <= |ell|
  {
    if m == 0 then 1 else Lead(i, m - 1, ell) * (if Bit(i, m - 1) then ell[m - 1] else 1 - ell[m - 1])
  }

  /** product := poly * (low + high * X), coefficient by coefficient. */
  method MulLinear(p: int, poly: seq<int>, low: int, high: int) returns (product: seq<int>)
    requires p > 0 && poly != []
    ensures |product| == |poly| + 1 && AllCanonical(p, product)
    ensures forall x :: Cong(p, Eval(product, x), Eval(poly, x) * (low + high * x))
    ensures Cong(p, product[|poly|], poly[|poly| - 1] * high)
  {
    product := seq(|poly| + 1, _ => 0);
    forall x ensures Cong(p, Eval(product, x), Eval(poly[..0], x) * (low + high * x)) { EvalZeros(|poly| + 1, x); }
    CongRefl(p, 0);
    hide Cong;
    for k := 0 to |poly|
      invariant |product| == |poly| + 1 && AllCanonical(p, product)
      invariant forall c :: k < c < |product| ==> product[c] == 0
      invariant k > 0 ==> Cong(p, product[k], poly[k - 1] * high)
      invariant forall x :: Cong(p, Eval(product, x), Eval(poly[..k], x) * (low + high * x))
    {
      ghost var before := product;
      var c := poly[k];
      CongRefl(p, c);
      CongRefl(p, low);
      CongRefl(p, high);
      CongRefl(p, product[k]);
      CongRefl(p, product[k + 1]);
      MulStep(p, c, c, low, low);
      MulStep(p, c, c, high, high);
      var u, v := Add(p, product[k], Mul(p, c, low)), Add(p, product[k + 1], Mul(p, c, high));
      AddStep(p, product[k], product[k], Mul(p, c, low), c * low);
      AddStep(p, product[k + 1], product[k + 1], Mul(p, c, high), c * high);
      product := product[k := u][k + 1 := v];
      forall x ensures Cong(p, Eval(product, x), Eval(poly[..k + 1], x) * (low + high * x)) {
        EvalUpdateCong(p, before, k, u, c * low, x);
        EvalUpdateCong(p, before[k := u], k + 1, v, c * high, x);
        EvalPrefixStep(poly, k, x);
        LinearStep(p, Eval(before, x), Eval(before[k := u], x), Eval(product, x), Eval(poly[..k], x), x, low, high, c,
                   Power(x, k));
      }
    }
    assert poly[..|poly|] == poly;
  }

  lemma LinearStep(p: int, e0: int, e1: int, e2: int, s: int, x: int, low: int, high: int, c: int, w: int)
    requires Cong(p, e0, s * (low + high * x)) && Cong(p, e1, e0 + c * low * w) && Cong(p, e2, e1 + c * high * (x * w))
    ensures Cong(p, e2, (s + c * w) * (low + high * x))
  {
    CongPositive(p, e0, s * (low + high * x));
    hide Cong;
    CongRefl(p, c * low * w);
    CongRefl(p, c * high * (x * w));
    CongAdd(p, e0, s * (low + high * x), c * low * w, c * low * w);
    CongTrans(p, e1, e0 + c * low * w, s * (low + high * x) + c * low * w);
    CongAdd(p, e1, s * (low + high * x) + c * low * w, c * high * (x * w), c * high * (x * w));
    CongTrans(p, e2, e1 + c * high * (x * w), s * (low + high * x) + c * low * w + c * high * (x * w));
    LinearRing(s, x, low, high, c, w);
  }

  lemma LinearRing(s: int, x: int, low: int, high: int, c: int, w: int)
    ensures s * (low + high * x) + c * low * w + c * high * (x * w) == (s + c * w) * (low + high * x)
  {
    assert (s + c * w) * (low + high * x) == s * (low + high * x) + (c * w) * (low + high * x);
    assert (c * w) * (low + high * x) == c * low * w + c * high * (x * w);
  }

  /** The coefficients of index i's selector polynomial. */
  method PolyCoefficients(p: int, i: nat, bits: nat, a: seq<int>, ell: seq<int>) returns (poly: seq<int>)
    requires p > 0 && |a| == |ell| == bits
    ensures |poly| == bits + 1 && AllCanonical(p, poly)
    ensures forall x :: Cong(p, Eval(poly, x), Selector(i, bits, a, ell, x))
    ensures Cong(p, poly[bits], Lead(i, bits, ell))
  {
    poly := [1 % p];
    forall x ensures Cong(p, Eval(poly, x), 1) { CongMod(p, 1); assert poly[1..] == []; }
    CongMod(p, 1);
    hide Cong, Bit;
    for j := 0 to bits
      invariant |poly| == j + 1 && AllCanonical(p, poly)
      invariant forall x :: Cong(p, Eval(poly, x), Selector(i, j, a, ell, x))
      invariant Cong(p, poly[j], Lead(i, j, ell))
    {
      ghost var before := poly;
      ghost var lo, hi := if Bit(i, j) then a[j] else -a[j], if Bit(i, j) then ell[j] else 1 - ell[j];
      var low, high := if Bit(i, j) then a[j] else Neg(p, a[j]), if Bit(i, j) then ell[j] else Sub(p, 1, ell[j]);
      Ops(p, a[j], 0);
      Ops(p, 1, ell[j]);
      CongRefl(p, a[j]);
      CongRefl(p, ell[j]);
      assert Cong(p, low, lo) && Cong(p, high, hi);
      poly := MulLinear(p, poly, low, high);
      forall x ensures Cong(p, Eval(poly, x), Selector(i, j + 1, a, ell, x)) {
        FactorStep(p, Eval(poly, x), Eval(before, x), Selector(i, j, a, ell, x), low, lo, high, hi, x);
        assert Factor(i, j, a[j], ell[j], x) == lo + hi * x;
      }
      CongMul(p, before[j], Lead(i, j, ell), high, hi);
      CongTrans(p, poly[j + 1], before[j] * high, Lead(i, j, ell) * hi);
    }
  }

  lemma FactorStep(p: int, e: int, b: int, s: int, low: int, lo: int, high: int, hi: int, x: int)
    requires Cong(p, e, b * (low + high * x)) && Cong(p, b, s) && Cong(p, low, lo) && Cong(p, high, hi)
    ensures Cong(p, e, s * (lo + hi * x))
  {
    hide Cong;
    CongScale(p, x, high, hi);
    assert x * high == high * x && x * hi == hi * x;
    CongAdd(p, low, lo, high * x, hi * x);
    CongMul(p, b, s, low + high * x, lo + hi * x);
    CongTrans(p, e, b * (low + high * x), s * (lo + hi * x));
  }

  /** The leading coefficient is one for the secret index and zero for every other. */
  lemma LeadIsUnit(p: int, i: nat, index: nat, bits: nat)
    requires p > 0 && i < Power(2, bits) && index < Power(2, bits)
    ensures Cong(p, Lead(i, bits, Ell(p, index, bits)), if i == index then 1 else 0)
  {
    var ell := Ell(p, index, bits);
    if i == index {
      LeadOnes(p, i, bits, bits);
    } else {
      if forall j :: 0 <= j < bits ==> Bit(i, j) == Bit(index, j) { SameBits(i, index, bits); }
      var j :| 0 <= j < bits && Bit(i, j) != Bit(index, j);
      LeadZero(p, i, index, bits, bits, j);
    }
  }

  lemma {:induction false} LeadOnes(p: int, i: nat, bits: nat, m: nat)
    requires p > 0 && m <= bits
    ensures Cong(p, Lead(i, m, Ell(p, i, bits)), 1)
  {
    CongRefl(p, 1);
    if m > 0 {
      var ell := Ell(p, i, bits);
      LeadOnes(p, i, bits, m - 1);
      CongMod(p, 1);
      var f := if Bit(i, m - 1) then ell[m - 1] else 1 - ell[m - 1];
      assert Cong(p, f, 1);
      hide Cong, Bit;
      CongMul(p, Lead(i, m - 1, ell), 1, f, 1);
    }
  }

  lemma {:induction false} LeadZero(p: int, i: nat, index: nat, bits: nat, m: nat, j: nat)
    requires p > 0 && j < m <= bits && Bit(i, j) != Bit(index, j)
    ensures Cong(p, Lead(i, m, Ell(p, index, bits)), 0)
  {
    var ell := Ell(p, index, bits);
    var f := if Bit(i, m - 1) then ell[m - 1] else 1 - ell[m - 1];
    CongRefl(p, f);
    CongRefl(p, Lead(i, m - 1, ell));
    if m - 1 == j {
      CongMod(p, 1);
      CongRefl(p, 1);
      CongSub(p, 1, 1, 1 % p, 1);
      assert Cong(p, f, 0);
      hide Cong, Bit;
      CongMul(p, Lead(i, m - 1, ell), Lead(i, m - 1, ell), f, 0);
    } else {
      LeadZero(p, i, index, bits, m - 1, j);
      hide Cong, Bit;
      CongMul(p, Lead(i, m - 1, ell), 0, f, f);
    }
  }

  // ----- the verifier -----

  function PointMessages(tag: string, s: seq<Point>): Transcript {
    [Num("n", |s|)] + seq(|s|, i requires 0 <= i < |s| => Pt(tag, s[i]))
  }

  /** The set the proof is about goes in first, then every first-move point. */
  function Appended(tr: Transcript, commitments: seq<Point>, cl: seq<Point>, ca: seq<Point>, cb: seq<Point>,
                     gk: seq<Point>): Transcript {
    tr + [Bytes("dom", "qomm/gk")] + PointMessages("C", commitments) + PointMessages("cl", cl)
    + PointMessages("ca", ca) + PointMessages("cb", cb) + PointMessages("gk", gk)
  }

  function GkChallenge(p: int, oracle: Oracle, tr: Transcript, commitments: seq<Point>, cl: seq<Point>, ca: seq<Point>,
                       cb: seq<Point>, gk: seq<Point>): int
    requires p > 0
  {
    Challenge(p, oracle, Appended(tr, commitments, cl, ca, cb, gk), "x")
  }

  /** The product of f_j or x - f_j over the bits of i. */
  function BitProduct(p: int, i: nat, m: nat, f: seq<int>, x: int): int
    requires p > 0 && m <= |f|
  {
    if m == 0 then 1 % p
    else Mul(p, BitProduct(p, i, m - 1, f, x), if Bit(i, m - 1) then f[m - 1] else Sub(p, x, f[m - 1]))
  }

  /** x^k, negated, for each k below m. */
  function NegPowers(p: int, x: int, m: nat): (r: seq<int>)
    requires p > 0
    ensures |r| == m && forall k :: 0 <= k < m ==> r[k] == Neg(p, PowerMod(p, x, k))
  {
    seq(m, k requires 0 <= k => Neg(p, PowerMod(p, x, k)))
  }

  function PowerMod(p: int, x: int, k: nat): int
    requires p > 0
  {
    if k == 0 then 1 % p else Mul(p, PowerMod(p, x, k - 1), x)
  }

  function Products(p: int, size: nat, f: seq<int>, x: int): (r: seq<int>)
    requires p > 0
    ensures |r| == size && forall i :: 0 <= i < size ==> r[i] == BitProduct(p, i, |f|, f, x)
  {
    seq(size, i requires 0 <= i => BitProduct(p, i, |f|, f, x))
  }

  /** The scalars of the one multiscalar multiplication. */
  function Scalars(p: int, size: nat, proof: GkProof, x: int): (r: seq<int>)
    requires p > 0
    ensures |r| == size + |proof.gk| + 1
  {
    Products(p, size, proof.f, x) + NegPowers(p, x, |proof.gk|) + [Neg(p, proof.zd)]
  }

  predicate BitChecks(p: int, key: Key, proof: GkProof, x: int, j: nat)
    requires p > 0 && j < |proof.f| == |proof.cl| == |proof.ca| == |proof.cb| == |proof.za| == |proof.zb|
  {
    && Commit(p, key, proof.f[j], proof.za[j]) == PAdd(p, PScale(p, proof.cl[j], x), proof.ca[j])
    && Commit(p, key, 0, proof.zb[j]) == PAdd(p, PScale(p, proof.cl[j], Sub(p, x, proof.f[j])), proof.cb[j])
  }

  predicate Shape(size: nat, proof: GkProof) {
    && PowerOfTwo(size) && size >= 2
    && |proof.f| == |proof.cl| == |proof.ca| == |proof.cb| == |proof.gk| == |proof.za| == |proof.zb|
       == TrailingZeros(size)
  }

  ghost predicate Accepts(p: int, key: Key, oracle: Oracle, tr: Transcript, commitments: seq<Point>, proof: GkProof)
    requires p > 0
  {
    && Shape(|commitments|, proof)
    && var x := GkChallenge(p, oracle, tr, commitments, proof.cl, proof.ca, proof.cb, proof.gk);
       && (forall j :: 0 <= j < |proof.f| ==> BitChecks(p, key, proof, x, j))
       && Msm(p, Scalars(p, |commitments|, proof, x), commitments + proof.gk + [key.h]) == IDENTITY
  }

  method Verify(p: int, key: Key, oracle: Oracle, tr: Transcript, commitments: seq<Point>, proof: GkProof)
    returns (ok: bool)
    requires p > 0
    ensures ok <==> Accepts(p, key, oracle, tr, commitments, proof)
  {
    var size := |commitments|;
    if !Shape(size, proof) { return false; }
    var bits := TrailingZeros(size);
    var x := GkChallenge(p, oracle, tr, commitments, proof.cl, proof.ca, proof.cb, proof.gk);
    hide BitChecks, GkChallenge;
    for j := 0 to bits
      invariant forall k :: 0 <= k < j ==> BitChecks(p, key, proof, x, k)
    {
      if !BitChecks(p, key, proof, x, j) { return false; }
    }
    var products := BuildProducts(p, size, proof.f, x);
    var powers := BuildPowers(p, |proof.gk|, x);
    hide BitProduct, Msm, PowerMod;
    ok := Msm(p, products + powers + [Neg(p, proof.zd)], commitments + proof.gk + [key.h]) == IDENTITY;
  }

  /** The verifier's loop over the set: one product of responses per index. */
  method BuildProducts(p: int, size: nat, f: seq<int>, x: int) returns (scalars: seq<int>)
    requires p > 0
    ensures scalars == Products(p, size, f, x)
  {
    scalars := [];
    for i := 0 to size
      invariant |scalars| == i && forall k :: 0 <= k < i ==> scalars[k] == BitProduct(p, k, |f|, f, x)
    {
      var value := 1 % p;
      for j := 0 to |f|
        invariant value == BitProduct(p, i, j, f, x)
      {
        value := Mul(p, value, if Bit(i, j) then f[j] else Sub(p, x, f[j]));
      }
      scalars := scalars + [value];
    }
  }

  /** The verifier's loop over the coefficient points: the negated running powers. */
  method BuildPowers(p: int, m: nat, x: int) returns (scalars: seq<int>)
    requires p > 0
    ensures scalars == NegPowers(p, x, m)
  {
    hide Neg, Mul;
    scalars := [];
    var power := 1 % p;
    for k := 0 to m
      invariant power == PowerMod(p, x, k)
      invariant scalars == NegPowers(p, x, k)
    {
      scalars := scalars + [Neg(p, power)];
      NextPower(p, x, k);
      power := Mul(p, power, x);
    }
  }

  lemma NextPower(p: int, x: int, k: nat)
    requires p > 0
    ensures NegPowers(p, x, k + 1) == NegPowers(p, x, k) + [Neg(p, PowerMod(p, x, k))]
  {
    hide *;
  }

  // ----- the prover -----

  /** Coefficient k of every selector polynomial. */
  function Slice(coefficients: seq<seq<int>>, k: nat): (r: seq<int>)
    requires forall i :: 0 <= i < |coefficients| ==> k < |coefficients[i]|
    ensures |r| == |coefficients| && forall i :: 0 <= i < |r| ==> r[i] == coefficients[i][k]
  {
    seq(|coefficients|, i requires 0 <= i < |coefficients| => coefficients[i][k])
  }

  ghost predicate SelectorTable(p: int, size: nat, bits: nat, a: seq<int>, ell: seq<int>, coefficients: seq<seq<int>>)
    requires |a| == |ell| == bits
  {
    && |coefficients| == size
    && forall i :: 0 <= i < size ==>
         && |coefficients[i]| == bits + 1
         && (forall x :: Cong(p, Eval(coefficients[i], x), Selector(i, bits, a, ell, x)))
         && Cong(p, coefficients[i][bits], Lead(i, bits, ell))
  }

  method BuildTable(p: int, size: nat, bits: nat, a: seq<int>, ell: seq<int>) returns (coefficients: seq<seq<int>>)
    requires p > 0 && |a| == |ell| == bits
    ensures SelectorTable(p, size, bits, a, ell, coefficients)
  {
    coefficients := [];
    hide Cong;
    for i := 0 to size
      invariant |coefficients| == i && SelectorTable(p, i, bits, a, ell, coefficients)
    {
      var poly := PolyCoefficients(p, i, bits, a, ell);
      coefficients := coefficients + [poly];
    }
  }

  /** The first-move points: commitments to the bits, the masks, their products, and the low coefficients. */
  function BitMove(p: int, key: Key, ell: seq<int>, d: Draws): (r: (seq<Point>, seq<Point>, seq<Point>))
    requires p > 0 && |ell| == |d.a| == |d.r| == |d.s| == |d.t|
    ensures |r.0| == |r.1| == |r.2| == |ell|
    ensures forall j :: 0 <= j < |ell| ==>
              && r.0[j] == Commit(p, key, ell[j], d.r[j]) && r.1[j] == Commit(p, key, d.a[j], d.s[j])
              && r.2[j] == Commit(p, key, Mul(p, ell[j], d.a[j]), d.t[j])
  {
    (seq(|ell|, j requires 0 <= j < |ell| => Commit(p, key, ell[j], d.r[j])),
     seq(|ell|, j requires 0 <= j < |ell| => Commit(p, key, d.a[j], d.s[j])),
     seq(|ell|, j requires 0 <= j < |ell| => Commit(p, key, Mul(p, ell[j], d.a[j]), d.t[j])))
  }

  method CoefficientMove(p: int, key: Key, commitments: seq<Point>, coefficients: seq<seq<int>>, rho: seq<int>)
    returns (gk: seq<Point>)
    requires p > 0 && |coefficients| == |commitments|
    requires forall i :: 0 <= i < |coefficients| ==> |rho| < |coefficients[i]|
    ensures |gk| == |rho|
    ensures forall k :: 0 <= k < |rho| ==> gk[k] == PAdd(p, Msm(p, Slice(coefficients, k), commitments),
                                                         PScale(p, key.h, rho[k]))
  {
    gk := [];
    for k := 0 to |rho|
      invariant |gk| == k
      invariant forall i :: 0 <= i < k ==> gk[i] == PAdd(p, Msm(p, Slice(coefficients, i), commitments),
                                                         PScale(p, key.h, rho[i]))
    {
      gk := gk + [PAdd(p, Msm(p, Slice(coefficients, k), commitments), PScale(p, key.h, rho[k]))];
    }
  }

  /** randomness * x^bits minus the sum of rho_k * x^k. */
  method FinalResponse(p: int, randomness: int, rho: seq<int>, x: int) returns (zd: int)
    requires p > 0
    ensures Cong(p, zd, Scaled(randomness, Power(x, |rho|)) - Eval(rho, x))
  {
    var top := 1 % p;
    CongMod(p, 1);
    hide Cong;
    CongRefl(p, x);
    for j := 0 to |rho|
      invariant Cong(p, top, Power(x, j))
    {
      MulStep(p, top, Power(x, j), x, x);
      assert Power(x, j) * x == Power(x, j + 1);
      top := Mul(p, top, x);
    }
    CongRefl(p, randomness);
    MulStep(p, randomness, randomness, top, Power(x, |rho|));
    zd := Mul(p, randomness, top);
    ghost var full := randomness * Power(x, |rho|);
    var power := 1 % p;
    CongMod(p, 1);
    for k := 0 to |rho|
      invariant Cong(p, power, Power(x, k)) && Cong(p, zd, full - Eval(rho[..k], x))
    {
      EvalPrefixStep(rho, k, x);
      CongRefl(p, rho[k]);
      MulStep(p, rho[k], rho[k], power, Power(x, k));
      SubStep(p, zd, full - Eval(rho[..k], x), Mul(p, rho[k], power), rho[k] * Power(x, k));
      zd := Sub(p, zd, Mul(p, rho[k], power));
      MulStep(p, power, Power(x, k), x, x);
      assert Power(x, k) * x == Power(x, k + 1);
      power := Mul(p, power, x);
    }
    assert rho[..|rho|] == rho;
  }

  // ----- completeness -----

  /** The bit responses, for a challenge x. */
  function Responses(p: int, ell: seq<int>, d: Draws, x: int): (r: (seq<int>, seq<int>, seq<int>))
    requires p > 0 && |ell| == |d.a| == |d.r| == |d.s| == |d.t|
    ensures |r.0| == |r.1| == |r.2| == |ell|
    ensures forall j :: 0 <= j < |ell| ==>
              && r.0[j] == Add(p, Mul(p, ell[j], x), d.a[j])
              && r.1[j] == Add(p, Mul(p, d.r[j], x), d.s[j])
              && r.2[j] == Add(p, Mul(p, d.r[j], Sub(p, x, r.0[j])), d.t[j])
  {
    var f := seq(|ell|, j requires 0 <= j < |ell| => Add(p, Mul(p, ell[j], x), d.a[j]));
    (f,
     seq(|ell|, j requires 0 <= j < |ell| => Add(p, Mul(p, d.r[j], x), d.s[j])),
     seq(|ell|, j requires 0 <= j < |ell| => Add(p, Mul(p, d.r[j], Sub(p, x, f[j])), d.t[j])))
  }

  lemma MulAdd(p: int, m: int, x: int, a: int)
    requires p > 0
    ensures Cong(p, Add(p, Mul(p, m, x), a), a + m * x)
  {
    CongRefl(p, m);
    CongRefl(p, x);
    CongRefl(p, a);
    MulStep(p, m, m, x, x);
    AddStep(p, Mul(p, m, x), m * x, a, a);
  }

  /** The verifier's product is the prover's selector polynomial at the challenge. */
  lemma {:induction false} ProductIsSelector(p: int, i: nat, m: nat, a: seq<int>, ell: seq<int>, f: seq<int>, x: int)
    requires p > 0 && m <= |a| == |ell| == |f|
    requires forall j :: 0 <= j < |f| ==> Cong(p, f[j], a[j] + ell[j] * x)
    ensures Cong(p, BitProduct(p, i, m, f, x), Selector(i, m, a, ell, x))
  {
    if m == 0 {
      CongMod(p, 1);
    } else {
      hide Cong, Bit;
      ProductIsSelector(p, i, m - 1, a, ell, f, x);
      var j := m - 1;
      var g := a[j] + ell[j] * x;
      CongRefl(p, x);
      Ops(p, x, f[j]);
      CongSub(p, x, x, f[j], g);
      CongTrans(p, Sub(p, x, f[j]), x - f[j], x - g);
      FlippedFactor(x, a[j], ell[j]);
      MulStep(p, BitProduct(p, i, j, f, x), Selector(i, j, a, ell, x), if Bit(i, j) then f[j] else Sub(p, x, f[j]),
              Factor(i, j, a[j], ell[j], x));
    }
  }

  lemma FlippedFactor(x: int, a: int, ell: int)
    ensures x - (a + ell * x) == -a + (1 - ell) * x
  {}

  ghost predicate Rows(coefficients: seq<seq<int>>, n: nat) {
    forall i :: 0 <= i < |coefficients| ==> |coefficients[i]| == n
  }

  /** In one coordinate, point k is the k-th coefficients against the set, plus its mask. */
  ghost predicate Carries(p: int, coefficients: seq<seq<int>>, c: seq<int>, gk: seq<int>, rho: seq<int>, h: int)
    requires |c| == |coefficients| && Rows(coefficients, |rho| + 1)
  {
    |gk| == |rho| && forall k :: 0 <= k < |gk| ==> Cong(p, gk[k], Dot(Slice(coefficients, k), c) + rho[k] * h)
  }

  /** The top coefficients select the index. */
  ghost predicate Selects(p: int, coefficients: seq<seq<int>>, bits: nat, index: nat)
    requires Rows(coefficients, bits + 1)
  {
    forall i :: 0 <= i < |coefficients| ==> Cong(p, coefficients[i][bits], if i == index then 1 else 0)
  }

  ghost predicate Evaluates(p: int, products: seq<int>, coefficients: seq<seq<int>>, x: int) {
    |products| == |coefficients| && forall i :: 0 <= i < |products| ==> Cong(p, products[i], Eval(coefficients[i], x))
  }

  /** The selectors cut to their lowest m coefficients, at x. */
  ghost function LowPart(coefficients: seq<seq<int>>, m: nat, x: int): (r: seq<int>)
    requires forall i :: 0 <= i < |coefficients| ==> m <= |coefficients[i]|
    ensures |r| == |coefficients| && forall i :: 0 <= i < |r| ==> r[i] == Eval(coefficients[i][..m], x)
  {
    seq(|coefficients|, i requires 0 <= i < |coefficients| => Eval(coefficients[i][..m], x))
  }

  /** Recombining the coefficient points at x gives the selectors' low parts back, plus the masks. */
  lemma {:induction false} LowSum(p: int, coefficients: seq<seq<int>>, c: seq<int>, gk: seq<int>, rho: seq<int>,
                                  h: int, x: int, m: nat)
    requires p > 0 && |c| == |coefficients| && Rows(coefficients, |rho| + 1) && m <= |gk|
    requires Carries(p, coefficients, c, gk, rho, h)
    ensures Cong(p, Eval(gk[..m], x), Dot(LowPart(coefficients, m, x), c) + Eval(rho[..m], x) * h)
  {
    if m == 0 {
      var zeros := LowPart(coefficients, 0, x);
      forall i | 0 <= i < |zeros| ensures zeros[i] == 0 { assert coefficients[i][..0] == []; }
      DotZero(zeros, c);
      assert 0 * h == 0;
      CongRefl(p, 0);
    } else {
      LowSum(p, coefficients, c, gk, rho, h, x, m - 1);
      var k, w := m - 1, Power(x, m - 1);
      var before, after, slice := LowPart(coefficients, k, x), LowPart(coefficients, m, x), Slice(coefficients, k);
      assert Combines(p, after, 1, before, w, slice) by {
        forall i | 0 <= i < |after| ensures Cong(p, after[i], 1 * before[i] + w * slice[i]) {
          EvalPrefixStep(coefficients[i], k, x);
          assert slice[i] * w == w * slice[i];
          CongRefl(p, after[i]);
        }
      }
      DotCombines(p, after, 1, before, w, slice, c);
      EvalPrefixStep(gk, k, x);
      EvalPrefixStep(rho, k, x);
      assert Cong(p, gk[k], Dot(slice, c) + rho[k] * h);
      hide Cong, Combines, Dot, Power;
      LowStep(p, Eval(gk[..k], x), gk[k], Dot(before, c), Dot(slice, c), Dot(after, c), Eval(rho[..k], x), rho[k], h,
              w);
    }
  }

  lemma LowStep(p: int, e: int, g: int, db: int, ds: int, da: int, r: int, rk: int, h: int, w: int)
    requires p > 0 && Cong(p, e, db + r * h) && Cong(p, g, ds + rk * h) && Cong(p, da, 1 * db + w * ds)
    ensures Cong(p, e + g * w, da + (r + rk * w) * h)
  {
    hide Cong;
    CongScale(p, w, g, ds + rk * h);
    CongAdd(p, e, db + r * h, w * g, w * (ds + rk * h));
    CongSym(p, da, 1 * db + w * ds);
    CongRefl(p, (r + rk * w) * h);
    CongAdd(p, 1 * db + w * ds, da, (r + rk * w) * h, (r + rk * w) * h);
    LowRing(db, ds, r, rk, h, w);
    assert w * g == g * w;
    CongTrans(p, e + g * w, 1 * db + w * ds + (r + rk * w) * h, da + (r + rk * w) * h);
  }

  lemma LowRing(db: int, ds: int, r: int, rk: int, h: int, w: int)
    ensures db + r * h + w * (ds + rk * h) == 1 * db + w * ds + (r + rk * w) * h
  {}

  ghost function Unit(size: nat, index: nat): (r: seq<int>)
    ensures |r| == size && forall i :: 0 <= i < size ==> r[i] == if i == index then 1 else 0
  {
    seq(size, i requires 0 <= i => if i == index then 1 else 0)
  }

  /** A product whose factors a proof does not need to look into. */
  ghost function Scaled(a: int, b: int): int { a * b }

  ghost function LowDot(coefficients: seq<seq<int>>, m: nat, x: int, c: seq<int>): int
    requires |c| == |coefficients| && Rows(coefficients, m + 1)
  {
    Dot(LowPart(coefficients, m, x), c)
  }

  /** The products split into the low parts and x^bits at the secret index alone. */
  lemma ProductsSplit(p: int, coefficients: seq<seq<int>>, products: seq<int>, c: seq<int>, index: nat, bits: nat,
                      x: int)
    requires p > 0 && |c| == |coefficients| && index < |c| && Rows(coefficients, bits + 1)
    requires Evaluates(p, products, coefficients, x) && Selects(p, coefficients, bits, index)
    ensures Cong(p, Dot(products, c), LowDot(coefficients, bits, x, c) + Scaled(Power(x, bits), c[index]))
  {
    hide Cong, Power, Eval, Dot, LowPart, Unit;
    var low, unit, w := LowPart(coefficients, bits, x), Unit(|c|, index), Power(x, bits);
    forall i | 0 <= i < |c| ensures Cong(p, products[i], 1 * low[i] + w * unit[i]) {
      ProductEntry(p, coefficients[i], products[i], bits, unit[i], x);
    }
    DotCombines(p, products, 1, low, w, unit, c);
    DotSingle(unit, c, index);
    assert 1 * Dot(low, c) + w * Dot(unit, c) == Dot(low, c) + w * c[index];
  }

  lemma ProductEntry(p: int, k: seq<int>, product: int, bits: nat, unit: int, x: int)
    requires p > 0 && |k| == bits + 1 && Cong(p, product, Eval(k, x)) && Cong(p, k[bits], unit)
    ensures Cong(p, product, 1 * Eval(k[..bits], x) + Power(x, bits) * unit)
  {
    hide Cong;
    var w, low := Power(x, bits), Eval(k[..bits], x);
    EvalPrefixStep(k, bits, x);
    assert k[..bits + 1] == k;
    hide Power, Eval;
    CongScale(p, w, k[bits], unit);
    CongRefl(p, low);
    CongAdd(p, low, low, w * k[bits], w * unit);
    assert k[bits] * w == w * k[bits];
    CongTrans(p, product, low + w * k[bits], low + w * unit);
  }

  lemma MaskedSum(p: int, coefficients: seq<seq<int>>, c: seq<int>, gk: seq<int>, rho: seq<int>, h: int, x: int)
    requires p > 0 && |c| == |coefficients| && Rows(coefficients, |rho| + 1) && |gk| == |rho|
    requires Carries(p, coefficients, c, gk, rho, h)
    ensures Cong(p, Eval(gk, x), LowDot(coefficients, |rho|, x, c) + Scaled(Eval(rho, x), h))
  {
    hide Cong, Dot, Eval, Carries;
    LowSum(p, coefficients, c, gk, rho, h, x, |rho|);
    assert gk[..|rho|] == gk && rho[..|rho|] == rho;
  }

  lemma VerifierSum(products: seq<int>, negPowers: seq<int>, z: int, c: seq<int>, gk: seq<int>, h: int)
    requires |products| == |c| && |negPowers| == |gk|
    ensures Dot(products + negPowers + [z], c + gk + [h]) == Dot(products, c) + Dot(negPowers, gk) + Scaled(z, h)
  {
    DotConcat(products, negPowers, c, gk);
    DotConcat(products + negPowers, [z], c + gk, [h]);
    assert [z][1..] == [] && [h][1..] == [];
    assert Dot([z], [h]) == z * h + Dot([], []);
  }

  lemma FinalSum(p: int, dp: int, dg: int, eg: int, nz: int, zd: int, low: int, er: int, r: int, w: int, c: int, h: int)
    requires p > 0 && Cong(p, dp, low + Scaled(w, c)) && Cong(p, eg, low + Scaled(er, h)) && Cong(p, dg, -eg)
    requires Cong(p, nz, -zd) && Cong(p, zd, Scaled(r, w) - er)
    ensures Cong(p, dp + dg + Scaled(nz, h), Scaled(w, c - Scaled(r, h)))
  {
    hide Cong;
    CongScale(p, -1, eg, low + er * h);
    CongTrans(p, dg, -eg, -1 * (low + er * h));
    CongScale(p, -1, zd, r * w - er);
    CongTrans(p, nz, -zd, -1 * (r * w - er));
    CongRefl(p, h);
    CongMul(p, nz, -1 * (r * w - er), h, h);
    CongAdd(p, dp, low + w * c, dg, -1 * (low + er * h));
    CongAdd(p, dp + dg, low + w * c + -1 * (low + er * h), nz * h, -1 * (r * w - er) * h);
    FinalRing(low, w, c, er, h, r);
  }

  lemma FinalRing(low: int, w: int, c: int, er: int, h: int, r: int)
    ensures low + w * c + -1 * (low + er * h) + -1 * (r * w - er) * h == w * (c - r * h)
  {}

  /** Both per-bit equations hold for honest responses, because a bit is its own square. */
  lemma BitChecksHold(p: int, key: Key, ell: seq<int>, d: Draws, x: int, proof: GkProof, j: nat)
    requires p > 0 && AreDraws(d, |ell|) && j < |ell| && (ell[j] == 0 || ell[j] == 1 % p)
    requires (proof.cl, proof.ca, proof.cb) == BitMove(p, key, ell, d)
    requires (proof.f, proof.za, proof.zb) == Responses(p, ell, d, x)
    ensures BitChecks(p, key, proof, x, j)
  {
    var l, a, r, s, t, f := ell[j], d.a[j], d.r[j], d.s[j], d.t[j], proof.f[j];
    var y, m := Sub(p, x, f), Mul(p, l, a);
    MulAdd(p, l, x, a);
    MulAdd(p, r, x, s);
    MulAdd(p, r, y, t);
    Ops(p, x, f);
    Ops(p, l, a);
    BitSquared(p, l);
    LinearCommit(p, key, f, proof.za[j], l, r, x, a, s) by { assert a + l * x == l * x + a && s + r * x == r * x + s; }
    assert Cong(p, 0, l * y + m) by {
      hide Cong, Sub, Mul;
      MaskedBit(p, l, x, a, f, y, m);
    }
    LinearCommit(p, key, 0, proof.zb[j], l, r, y, m, t) by { assert t + r * y == r * y + t; }
  }

  lemma BitSquared(p: int, l: int)
    requires p > 0 && (l == 0 || l == 1 % p)
    ensures Cong(p, l * l, l)
  {
    CongRefl(p, 0);
    CongMod(p, 1);
    CongRefl(p, 1 % p);
    CongMul(p, 1 % p, 1, 1 % p, 1 % p);
  }

  lemma MaskedBit(p: int, l: int, x: int, a: int, f: int, y: int, m: int)
    requires p > 0 && Cong(p, l * l, l) && Cong(p, f, a + l * x) && Cong(p, y, x - f) && Cong(p, m, l * a)
    ensures Cong(p, 0, l * y + m)
  {
    hide Cong;
    CongRefl(p, x);
    CongSub(p, x, x, f, a + l * x);
    CongTrans(p, y, x - f, x - (a + l * x));
    CongScale(p, l, y, x - (a + l * x));
    CongAdd(p, l * y, l * (x - (a + l * x)), m, l * a);
    assert l * (x - (a + l * x)) + l * a == x * l - x * (l * l);
    CongScale(p, x, l * l, l);
    CongRefl(p, x * l);
    CongSub(p, x * l, x * l, x * (l * l), x * l);
    CongTrans(p, l * y + m, x * l - x * (l * l), 0);
    CongSym(p, l * y + m, 0);
  }

  /** Commit(v, z) == u*Commit(l, r) + Commit(a, s) when v = l*u + a and z = r*u + s. */
  lemma LinearCommit(p: int, key: Key, v: int, z: int, l: int, r: int, u: int, a: int, s: int)
    requires p > 0 && Cong(p, v, l * u + a) && Cong(p, z, r * u + s)
    ensures Commit(p, key, v, z) == PAdd(p, PScale(p, Commit(p, key, l, r), u), Commit(p, key, a, s))
  {
    var left, cl, ca := Commit(p, key, v, z), Commit(p, key, l, r), Commit(p, key, a, s);
    var scaled := PScale(p, cl, u);
    var right := PAdd(p, scaled, ca);
    forall first ensures Cong(p, At(left, first), At(right, first)) {
      CommitAt(p, key, v, z, first);
      CommitAt(p, key, l, r, first);
      CommitAt(p, key, a, s, first);
      PointOps(p, cl, cl, u, first);
      PointOps(p, scaled, ca, 0, first);
      hide Cong, Commit, PAdd, PScale;
      LinearCoordinate(p, At(left, first), At(cl, first), At(ca, first), At(scaled, first), At(right, first), v, z, l,
                       r, u, a, s, At(key.g, first), At(key.h, first));
    }
    CommitAt(p, key, v, z, true);
    PointOps(p, scaled, ca, 0, true);
    SamePoint(p, left, right);
  }

  lemma LinearCoordinate(p: int, left: int, cl: int, ca: int, scaled: int, right: int, v: int, z: int, l: int, r: int,
                         u: int, a: int, s: int, g: int, h: int)
    requires p > 0 && Cong(p, v, l * u + a) && Cong(p, z, r * u + s)
    requires Cong(p, left, v * g + z * h) && Cong(p, cl, l * g + r * h) && Cong(p, ca, a * g + s * h)
    requires Cong(p, scaled, u * cl) && Cong(p, right, scaled + ca)
    ensures Cong(p, left, right)
  {
    hide Cong;
    CongRefl(p, g);
    CongRefl(p, h);
    CongMul(p, v, l * u + a, g, g);
    CongMul(p, z, r * u + s, h, h);
    CongAdd(p, v * g, (l * u + a) * g, z * h, (r * u + s) * h);
    CongTrans(p, left, v * g + z * h, (l * u + a) * g + (r * u + s) * h);
    CongScale(p, u, cl, l * g + r * h);
    CongTrans(p, scaled, u * cl, u * (l * g + r * h));
    CongAdd(p, scaled, u * (l * g + r * h), ca, a * g + s * h);
    CongTrans(p, right, scaled + ca, u * (l * g + r * h) + (a * g + s * h));
    LinearCommitRing(l, r, u, a, s, g, h);
    CongSym(p, right, (l * u + a) * g + (r * u + s) * h);
    CongTrans(p, left, (l * u + a) * g + (r * u + s) * h, right);
  }

  lemma LinearCommitRing(l: int, r: int, u: int, a: int, s: int, g: int, h: int)
    ensures u * (l * g + r * h) + (a * g + s * h) == (l * u + a) * g + (r * u + s) * h
  {}

  // ----- the theorem -----

  /** Everything the honest prover fixes, for a given challenge x. */
  ghost predicate Honest(p: int, key: Key, commitments: seq<Point>, index: nat, randomness: int, d: Draws,
                         coefficients: seq<seq<int>>, x: int, proof: GkProof)
    requires p > 0
  {
    && Shape(|commitments|, proof) && index < |commitments| && AreDraws(d, TrailingZeros(|commitments|))
    && var bits := TrailingZeros(|commitments|);
       var ell := Ell(p, index, bits);
       && (proof.cl, proof.ca, proof.cb) == BitMove(p, key, ell, d)
       && (proof.f, proof.za, proof.zb) == Responses(p, ell, d, x)
       && SelectorTable(p, |commitments|, bits, d.a, ell, coefficients)
       && (forall k :: 0 <= k < bits ==>
           proof.gk[k] == PAdd(p, Msm(p, Slice(coefficients, k), commitments), PScale(p, key.h, d.rho[k])))
       && Cong(p, proof.zd, Scaled(randomness, Power(x, bits)) - Eval(d.rho, x))
  }

  lemma HonestBitChecks(p: int, key: Key, commitments: seq<Point>, index: nat, randomness: int, d: Draws,
                        coefficients: seq<seq<int>>, x: int, proof: GkProof, j: nat)
    requires p > 0 && Honest(p, key, commitments, index, randomness, d, coefficients, x, proof) && j < |proof.f|
    ensures BitChecks(p, key, proof, x, j)
  {
    var bits := TrailingZeros(|commitments|);
    hide SelectorTable, Cong, Msm, PowerOfTwo;
    BitChecksHold(p, key, Ell(p, index, bits), d, x, proof, j);
  }

  /** A coefficient table evaluates to the products of responses on its lines, and selects the index. */
  lemma TableSelects(p: int, size: nat, index: nat, a: seq<int>, coefficients: seq<seq<int>>, x: int, f: seq<int>,
                     bits: nat)
    requires p > 0 && PowerOfTwo(size) && bits == TrailingZeros(size) == |a| == |f| && index < size
    requires SelectorTable(p, size, bits, a, Ell(p, index, bits), coefficients)
    requires forall j :: 0 <= j < bits ==> Cong(p, f[j], a[j] + Ell(p, index, bits)[j] * x)
    ensures Rows(coefficients, bits + 1) && Selects(p, coefficients, bits, index)
    ensures Evaluates(p, Products(p, size, f, x), coefficients, x)
  {
    var ell := Ell(p, index, bits);
    PowerOfTwoIsPower(size);
    hide Cong, Power, PowerOfTwo, BitProduct, Selector, Lead, Eval;
    forall i | 0 <= i < size
      ensures Cong(p, BitProduct(p, i, bits, f, x), Eval(coefficients[i], x))
      ensures Cong(p, coefficients[i][bits], if i == index then 1 else 0)
    {
      ProductIsSelector(p, i, bits, a, ell, f, x);
      CongSym(p, Eval(coefficients[i], x), Selector(i, bits, a, ell, x));
      CongTrans(p, BitProduct(p, i, bits, f, x), Selector(i, bits, a, ell, x), Eval(coefficients[i], x));
      LeadIsUnit(p, i, index, bits);
      CongTrans(p, coefficients[i][bits], Lead(i, bits, ell), if i == index then 1 else 0);
    }
  }

  lemma TableRows(p: int, size: nat, bits: nat, a: seq<int>, ell: seq<int>, coefficients: seq<seq<int>>)
    requires |a| == |ell| == bits && SelectorTable(p, size, bits, a, ell, coefficients)
    ensures Rows(coefficients, bits + 1) && |coefficients| == size
  {
    hide Cong, Eval, Selector, Lead;
  }

  lemma HonestCarries(p: int, key: Key, commitments: seq<Point>, coefficients: seq<seq<int>>, rho: seq<int>,
                      gk: seq<Point>, first: bool)
    requires p > 0 && |commitments| == |coefficients| && Rows(coefficients, |rho| + 1) && |gk| == |rho|
    requires forall k :: 0 <= k < |rho| ==>
               gk[k] == PAdd(p, Msm(p, Slice(coefficients, k), commitments), PScale(p, key.h, rho[k]))
    ensures Carries(p, coefficients, Column(commitments, first), Column(gk, first), rho, At(key.h, first))
  {
    var c := Column(commitments, first);
    hide Cong, Msm, PAdd, PScale, Dot;
    forall k | 0 <= k < |rho|
      ensures Cong(p, Column(gk, first)[k], Dot(Slice(coefficients, k), c) + rho[k] * At(key.h, first))
    {
      var slice := Slice(coefficients, k);
      var m, s := Msm(p, slice, commitments), PScale(p, key.h, rho[k]);
      MsmAt(p, slice, commitments, first);
      PointOps(p, key.h, key.h, rho[k], first);
      PointOps(p, m, s, 0, first);
      CongAdd(p, At(m, first), Dot(slice, c), At(s, first), rho[k] * At(key.h, first));
      CongTrans(p, At(gk[k], first), At(m, first) + At(s, first), Dot(slice, c) + rho[k] * At(key.h, first));
    }
  }

  lemma NegPowersGeometric(p: int, x: int, m: nat)
    requires p > 0
    ensures Geometric(p, NegPowers(p, x, m), -1, x, 0)
  {
    forall k | 0 <= k < m ensures Cong(p, NegPowers(p, x, m)[k], -1 * Power(x, 0 + k)) {
      NegPower(p, x, k);
    }
  }

  lemma NegPower(p: int, x: int, k: nat)
    requires p > 0
    ensures Cong(p, Neg(p, PowerMod(p, x, k)), -1 * Power(x, 0 + k))
  {
    PowerModIsPower(p, x, k);
    Ops(p, PowerMod(p, x, k), 0);
    assert 0 + k == k;
    hide Cong, Power, PowerMod, Neg;
    CongScale(p, -1, PowerMod(p, x, k), Power(x, k));
    CongTrans(p, Neg(p, PowerMod(p, x, k)), -PowerMod(p, x, k), -1 * Power(x, k));
  }

  lemma {:induction false} PowerModIsPower(p: int, x: int, k: nat)
    requires p > 0
    ensures Cong(p, PowerMod(p, x, k), Power(x, k))
  {
    if k == 0 {
      CongMod(p, 1);
    } else {
      PowerModIsPower(p, x, k - 1);
      CongRefl(p, x);
      hide Cong;
      MulStep(p, PowerMod(p, x, k - 1), Power(x, k - 1), x, x);
      assert Power(x, k - 1) * x == Power(x, k);
    }
  }

  lemma NegatedPowers(p: int, gk: seq<int>, x: int)
    requires p > 0
    ensures Cong(p, Dot(NegPowers(p, x, |gk|), gk), -Eval(gk, x))
  {
    NegPowersGeometric(p, x, |gk|);
    hide Cong, Geometric;
    DotGeometric(p, NegPowers(p, x, |gk|), -1, x, 0, gk);
  }

  lemma HonestProducts(p: int, commitments: seq<Point>, index: nat, d: Draws, coefficients: seq<seq<int>>, x: int,
                       f: seq<int>,
                       bits: nat, c: seq<int>)
    requires p > 0 && PowerOfTwo(|commitments|) && bits == TrailingZeros(|commitments|) && index < |commitments|
             && AreDraws(d, bits)
    requires SelectorTable(p, |commitments|, bits, d.a, Ell(p, index, bits), coefficients) && |c| == |commitments|
    requires |f| == bits && forall j :: 0 <= j < bits ==> f[j] == Add(p, Mul(p, Ell(p, index, bits)[j], x), d.a[j])
    ensures Rows(coefficients, bits + 1)
    ensures Cong(p, Dot(Products(p, |c|, f, x), c), LowDot(coefficients, bits, x, c) + Scaled(Power(x, bits), c[index]))
  {
    hide SelectorTable, Dot, Eval, PowerOfTwo, TrailingZeros, Products, LowDot, Cong, Add, Mul, Scaled, Power, Rows;
    forall j | 0 <= j < bits ensures Cong(p, f[j], d.a[j] + Ell(p, index, bits)[j] * x) {
      MulAdd(p, Ell(p, index, bits)[j], x, d.a[j]);
    }
    TableSelects(p, |commitments|, index, d.a, coefficients, x, f, bits);
    hide *;
    ProductsSplit(p, coefficients, Products(p, |c|, f, x), c, index, bits, x);
  }

  lemma HonestMasks(p: int, key: Key, commitments: seq<Point>, coefficients: seq<seq<int>>, rho: seq<int>,
                    gk: seq<Point>, first: bool, x: int)
    requires p > 0 && |commitments| == |coefficients| && Rows(coefficients, |rho| + 1) && |gk| == |rho|
    requires forall k :: 0 <= k < |rho| ==>
               gk[k] == PAdd(p, Msm(p, Slice(coefficients, k), commitments), PScale(p, key.h, rho[k]))
    ensures Cong(p, Eval(Column(gk, first), x),
                 LowDot(coefficients, |rho|, x, Column(commitments, first)) + Scaled(Eval(rho, x), At(key.h, first)))
  {
    HonestCarries(p, key, commitments, coefficients, rho, gk, first);
    MaskedSum(p, coefficients, Column(commitments, first), Column(gk, first), rho, At(key.h, first), x);
  }

  /** What the three groups of the verifier's sum come to in one coordinate, up to the same low part. */
  lemma HonestParts(p: int, key: Key, commitments: seq<Point>, index: nat, randomness: int, d: Draws,
                    coefficients: seq<seq<int>>, x: int, proof: GkProof, first: bool) returns (low: int)
    requires p > 0 && Honest(p, key, commitments, index, randomness, d, coefficients, x, proof)
    ensures var bits, c, gk := TrailingZeros(|commitments|), Column(commitments, first), Column(proof.gk, first);
            && Cong(p, Dot(Products(p, |c|, proof.f, x), c), low + Scaled(Power(x, bits), c[index]))
            && Cong(p, Eval(gk, x), low + Scaled(Eval(d.rho, x), At(key.h, first)))
            && Cong(p, Dot(NegPowers(p, x, |gk|), gk), -Eval(gk, x))
            && Cong(p, Neg(p, proof.zd), -proof.zd)
            && Cong(p, proof.zd, Scaled(randomness, Power(x, bits)) - Eval(d.rho, x))
  {
    hide Cong, Msm, PAdd, PScale, Power, Dot, Eval, SelectorTable, BitProduct, NegPowers, Neg, Scaled, Products,
         LowDot, Rows, Slice, PowerOfTwo, TrailingZeros;
    var bits, c, gk := TrailingZeros(|commitments|), Column(commitments, first), Column(proof.gk, first);
    HonestProducts(p, commitments, index, d, coefficients, x, proof.f, bits, c);
    TableRows(p, |commitments|, bits, d.a, Ell(p, index, bits), coefficients);
    low := LowDot(coefficients, bits, x, c);
    HonestMasks(p, key, commitments, coefficients, d.rho, proof.gk, first, x);
    NegatedPowers(p, gk, x);
    Ops(p, proof.zd, 0);
  }

  /** The verifier's point is x^bits times (commitment - randomness*h), coordinate by coordinate. */
  lemma HonestSum(p: int, key: Key, commitments: seq<Point>, index: nat, randomness: int, d: Draws,
                  coefficients: seq<seq<int>>, x: int, proof: GkProof, first: bool) returns (shortfall: int)
    requires p > 0 && Honest(p, key, commitments, index, randomness, d, coefficients, x, proof)
    ensures shortfall == Scaled(Power(x, TrailingZeros(|commitments|)),
                                At(commitments[index], first) - Scaled(randomness, At(key.h, first)))
    ensures var m := Msm(p, Scalars(p, |commitments|, proof, x), commitments + proof.gk + [key.h]);
            IsPoint(p, m) && Cong(p, At(m, first), shortfall)
  {
    hide Cong, Msm, PAdd, PScale, Power, Dot, Eval, SelectorTable, BitProduct, NegPowers, Neg, Scaled, Products, Slice,
         PowerOfTwo, TrailingZeros, BitMove, Responses, Ell;
    var low := HonestParts(p, key, commitments, index, randomness, d, coefficients, x, proof, first);
    hide *;
    assert Column(commitments, first)[index] == At(commitments[index], first);
    shortfall := SumOfParts(p, commitments, proof.gk, key.h, index, Products(p, |commitments|, proof.f, x),
                            NegPowers(p, x, |proof.gk|),
                            proof.zd, low, Eval(d.rho, x), randomness, Power(x, TrailingZeros(|commitments|)),
                            Eval(Column(proof.gk, first), x), first);
  }

  lemma SumOfParts(p: int, commitments: seq<Point>, gk: seq<Point>, h: Point, index: nat, products: seq<int>,
                   negPowers: seq<int>, zd: int,
                   low: int, er: int, randomness: int, w: int, eg: int, first: bool) returns (shortfall: int)
    requires p > 0 && |products| == |commitments| && |negPowers| == |gk| && index < |commitments|
    requires Cong(p, Dot(products, Column(commitments, first)), low + Scaled(w, At(commitments[index], first)))
    requires Cong(p, eg, low + Scaled(er, At(h, first))) && Cong(p, Dot(negPowers, Column(gk, first)), -eg)
    requires Cong(p, Neg(p, zd), -zd) && Cong(p, zd, Scaled(randomness, w) - er)
    ensures shortfall == Scaled(w, At(commitments[index], first) - Scaled(randomness, At(h, first)))
    ensures var m := Msm(p, products + negPowers + [Neg(p, zd)], commitments + gk + [h]);
            IsPoint(p, m) && Cong(p, At(m, first), shortfall)
  {
    hide *;
    VerifierCoordinate(p, commitments, gk, h, products, negPowers, Neg(p, zd), first);
    shortfall := CloseSum(p, At(Msm(p, products + negPowers + [Neg(p, zd)], commitments + gk + [h]), first),
                          Dot(products, Column(commitments, first)), Dot(negPowers, Column(gk, first)), eg, Neg(p, zd),
                          zd, low, er,
                          randomness, w, At(commitments[index], first), At(h, first));
  }

  lemma CloseSum(p: int, m: int, dp: int, dg: int, eg: int, nz: int, zd: int, low: int, er: int, r: int, w: int,
                 c: int, h: int)
    returns (shortfall: int)
    requires p > 0 && Cong(p, dp, low + Scaled(w, c)) && Cong(p, eg, low + Scaled(er, h)) && Cong(p, dg, -eg)
    requires Cong(p, nz, -zd) && Cong(p, zd, Scaled(r, w) - er) && Cong(p, m, dp + dg + Scaled(nz, h))
    ensures shortfall == Scaled(w, c - Scaled(r, h)) && Cong(p, m, shortfall)
  {
    hide *;
    FinalSum(p, dp, dg, eg, nz, zd, low, er, r, w, c, h);
    shortfall := Scaled(w, c - Scaled(r, h));
    CongTrans(p, m, dp + dg + Scaled(nz, h), shortfall);
  }

  /** One coordinate of the verifier's multiscalar multiplication, group by group. */
  lemma VerifierCoordinate(p: int, commitments: seq<Point>, gk: seq<Point>, h: Point, products: seq<int>,
                           negPowers: seq<int>, z: int, first: bool)
    requires p > 0 && |products| == |commitments| && |negPowers| == |gk|
    ensures var m := Msm(p, products + negPowers + [z], commitments + gk + [h]);
            && IsPoint(p, m)
            && Cong(p, At(m, first),
                    Dot(products, Column(commitments, first)) + Dot(negPowers, Column(gk, first))
                        + Scaled(z, At(h, first)))
  {
    MsmAt(p, products + negPowers + [z], commitments + gk + [h], first);
    ColumnConcat(commitments, gk, h, first);
    VerifierSum(products, negPowers, z, Column(commitments, first), Column(gk, first), At(h, first));
  }

  lemma ColumnConcat(a: seq<Point>, b: seq<Point>, h: Point, first: bool)
    ensures Column(a + b + [h], first) == Column(a, first) + Column(b, first) + [At(h, first)]
  {}

  lemma {:induction false} PowerNonzero(p: int, x: int, k: nat)
    requires Prime(p) && !Cong(p, x, 0)
    ensures !Cong(p, Power(x, k), 0)
  {
    if k == 0 {
      ModSmall(p, 1);
      ModSmall(p, 0);
    } else {
      PowerNonzero(p, x, k - 1);
      if Cong(p, Power(x, k), 0) { NoZeroDivisors(p, x, Power(x, k - 1)); }
    }
  }

  /** An honest proof verifies exactly when the commitment is h*randomness, or the challenge is zero. */
  lemma HonestVerifies(p: int, key: Key, oracle: Oracle, tr: Transcript, commitments: seq<Point>, index: nat,
                       randomness: int, d: Draws,
                       coefficients: seq<seq<int>>, proof: GkProof)
    requires Prime(p) && IsKey(p, key) && ArePoints(p, commitments)
    requires var x := GkChallenge(p, oracle, tr, commitments, proof.cl, proof.ca, proof.cb, proof.gk);
             Honest(p, key, commitments, index, randomness, d, coefficients, x, proof)
    ensures var x := GkChallenge(p, oracle, tr, commitments, proof.cl, proof.ca, proof.cb, proof.gk);
            Accepts(p, key, oracle, tr, commitments, proof)
            <==> x == 0 || commitments[index] == PScale(p, key.h, randomness)
  {
    var x := GkChallenge(p, oracle, tr, commitments, proof.cl, proof.ca, proof.cb, proof.gk);
    var m := Msm(p, Scalars(p, |commitments|, proof, x), commitments + proof.gk + [key.h]);
    ChallengeCanonical(p, oracle, Appended(tr, commitments, proof.cl, proof.ca, proof.cb, proof.gk), "x");
    assert Canonical(p, x) && index < |commitments| && TrailingZeros(|commitments|) >= 1;
    hide GkChallenge, Msm, Scalars, Cong, PScale, Prime;
    forall j | 0 <= j < |proof.f| ensures BitChecks(p, key, proof, x, j) {
      HonestBitChecks(p, key, commitments, index, randomness, d, coefficients, x, proof, j);
    }
    forall first
      ensures IsPoint(p, m)
      ensures Cong(p, At(m, first),
                   Scaled(Power(x, TrailingZeros(|commitments|)),
                          At(commitments[index], first) - Scaled(randomness, At(key.h, first))))
    {
      var _ := HonestSum(p, key, commitments, index, randomness, d, coefficients, x, proof, first);
    }
    assert IsPoint(p, m) by {
      var _ := HonestSum(p, key, commitments, index, randomness, d, coefficients, x, proof, true);
    }
    assert Accepts(p, key, oracle, tr, commitments, proof) <==> m == IDENTITY;
    hide Honest, BitChecks, Shape, Accepts;
    ShortfallVanishes(p, key.h, commitments[index], randomness, x, TrailingZeros(|commitments|), m);
  }

  /** x^bits times (c - r*h) is the identity exactly when x is zero or c is r*h. */
  lemma ShortfallVanishes(p: int, h: Point, c: Point, r: int, x: int, bits: nat, m: Point)
    requires Prime(p) && IsPoint(p, c) && IsPoint(p, m) && Canonical(p, x) && bits >= 1
    requires forall first :: Cong(p, At(m, first), Scaled(Power(x, bits), At(c, first) - Scaled(r, At(h, first))))
    ensures m == IDENTITY <==> x == 0 || c == PScale(p, h, r)
  {
    assert p > 0;
    CongRefl(p, 0);
    if x == 0 {
      assert Power(x, bits) == 0;
      forall first ensures Cong(p, At(m, first), At(IDENTITY, first)) {
        assert Cong(p, At(m, first), Scaled(0, At(c, first) - Scaled(r, At(h, first))));
      }
      SamePoint(p, m, IDENTITY);
    } else {
      if Cong(p, x, 0) { CanonicalUnique(p, x, 0); }
      PowerNonzero(p, x, bits);
      hide Power, Prime;
      forall first ensures Cong(p, At(m, first), 0) <==> Cong(p, At(c, first), At(PScale(p, h, r), first)) {
        PointOps(p, h, h, r, first);
        assert Cong(p, At(m, first), Scaled(Power(x, bits), At(c, first) - Scaled(r, At(h, first))));
        hide Cong, PScale;
        Shortfall(p, At(m, first), Power(x, bits), At(c, first), r * At(h, first), At(PScale(p, h, r), first));
      }
      PointOps(p, h, h, r, true);
      hide PScale;
      if m == IDENTITY {
        forall first ensures Cong(p, At(c, first), At(PScale(p, h, r), first)) { assert At(m, first) == 0; }
        SamePoint(p, c, PScale(p, h, r));
      }
      if c == PScale(p, h, r) {
        forall first ensures Cong(p, At(m, first), At(IDENTITY, first)) { CongRefl(p, At(c, first)); }
        SamePoint(p, m, IDENTITY);
      }
    }
  }

  lemma Shortfall(p: int, m: int, w: int, c: int, rh: int, s: int)
    requires Prime(p) && !Cong(p, w, 0) && Cong(p, m, w * (c - rh)) && Cong(p, s, rh)
    ensures Cong(p, m, 0) <==> Cong(p, c, s)
  {
    assert p > 0;
    hide Cong, Prime;
    CongSym(p, m, w * (c - rh));
    CongSym(p, s, rh);
    CongRefl(p, rh);
    if Cong(p, m, 0) {
      CongTrans(p, w * (c - rh), m, 0);
      NoZeroDivisors(p, w, c - rh);
      CongAdd(p, c - rh, 0, rh, rh);
      CongTrans(p, c, rh, s);
    }
    if Cong(p, c, s) {
      CongTrans(p, c, s, rh);
      CongSub(p, c, rh, rh, rh);
      CongScale(p, w, c - rh, 0);
      CongTrans(p, m, w * (c - rh), 0);
    }
  }

  /** Prove that commitments[index] is h*randomness, without saying which index. */
  method Prove(p: int, key: Key, oracle: Oracle, tr: Transcript, commitments: seq<Point>, index: nat, randomness: int,
               d: Draws)
    returns (r: Result)
    requires Prime(p) && IsKey(p, key) && ArePoints(p, commitments) && AreDraws(d, TrailingZeros(|commitments|))
    ensures r == Err(BadSize) <==> !(PowerOfTwo(|commitments|) && |commitments| >= 2)
    ensures r == Err(IndexOutside) <==> PowerOfTwo(|commitments|) && |commitments| >= 2 && index >= |commitments|
    ensures r.Ok? ==>
              var x := GkChallenge(p, oracle, tr, commitments, r.proof.cl, r.proof.ca, r.proof.cb, r.proof.gk);
              Accepts(p, key, oracle, tr, commitments, r.proof)
              <==> x == 0 || commitments[index] == PScale(p, key.h, randomness)
  {
    var size := |commitments|;
    if !PowerOfTwo(size) || size < 2 { return Err(BadSize); }
    if index >= size { return Err(IndexOutside); }
    hide *;
    var proof, coefficients := BuildProof(p, key, oracle, tr, commitments, index, randomness, d);
    HonestVerifies(p, key, oracle, tr, commitments, index, randomness, d, coefficients, proof);
    r := Ok(proof);
  }

  /** Two commitments to one, claimed to open to zero: the honest prover's proof is rejected. */
  method WrongOpeningRejected() returns (ok: bool)
    ensures !ok
  {
    var key, commitments := Key(Point(1, 0), Point(0, 1)), [Point(1, 0), Point(1, 0)];
    var oracle: Oracle := _ => 1;
    assert TrailingZeros(1) == 0 && TrailingZeros(2) == 1 && PowerOfTwo(1) && PowerOfTwo(2);
    hide Accepts, Msm, BitChecks, TrailingZeros, PowerOfTwo, Appended;
    var r := Prove(5, key, oracle, [], commitments, 0, 0, Draws([0], [0], [0], [0], [0]));
    OkOrError(r);
    assert PScale(5, key.h, 0) == IDENTITY;
    ok := Verify(5, key, oracle, [], commitments, r.proof);
  }

  lemma OkOrError(r: Result)
    ensures r.Ok? || r == Err(BadSize) || r == Err(IndexOutside)
  {
    if r.Err? {
      match r.error
      case BadSize =>
      case IndexOutside =>
    }
  }

  method BuildProof(p: int, key: Key, oracle: Oracle, tr: Transcript, commitments: seq<Point>, index: nat,
                    randomness: int, d: Draws)
    returns (proof: GkProof, coefficients: seq<seq<int>>)
    requires p > 0 && PowerOfTwo(|commitments|) && |commitments| >= 2 && index < |commitments|
             && AreDraws(d, TrailingZeros(|commitments|))
    ensures var x := GkChallenge(p, oracle, tr, commitments, proof.cl, proof.ca, proof.cb, proof.gk);
            Honest(p, key, commitments, index, randomness, d, coefficients, x, proof)
  {
    var size := |commitments|;
    var bits := TrailingZeros(size);
    var ell := Ell(p, index, bits);
    var (cl, ca, cb) := BitMove(p, key, ell, d);
    coefficients := BuildTable(p, size, bits, d.a, ell);
    var gk := CoefficientMove(p, key, commitments, coefficients, d.rho);
    var x := GkChallenge(p, oracle, tr, commitments, cl, ca, cb, gk);
    var (f, za, zb) := Responses(p, ell, d, x);
    var zd := FinalResponse(p, randomness, d.rho, x);
    proof := GkProof(cl, ca, cb, gk, f, za, zb, zd);
    hide GkChallenge, SelectorTable, PowerOfTwo, Cong, Msm, PAdd, PScale, Power, Eval, Scaled;
  }
}
