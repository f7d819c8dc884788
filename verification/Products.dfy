/**
 The committed product: a proof that c commits to the product of what a and b commit to.  The two
 equations are checked separately when the proof is verified alone, and with the first and second
 power of one weight when it is part of a batch.
 */
module Products {
  import opened Modular
  import opened Polynomials
  import opened LinearSystem
  import opened Group
  import opened Sigma
  import Counting

  datatype ProductProof = ProductProof(tFactor: Point, tProduct: Point, zB: int, zRb: int, zS: int)

  /** The three commitments a proof is about. */
  datatype Claim = Claim(a: Point, b: Point, c: Point)

  function ProductChallenge(p: int, oracle: Oracle, tr: Transcript, claim: Claim, tFactor: Point, tProduct: Point): int
    requires p > 0
  {
    Challenge(p, oracle, tr + [Bytes("dom", "qomm/product"), Pt("Ca", claim.a), Pt("Cb", claim.b), Pt("Cc", claim.c),
                               Pt("Tf", tFactor), Pt("Tp", tProduct)], "c")
  }

  // ----- the two equations -----

  /** weight * (z1*u + z2*v - t - c*d), rearranged to sum to the identity. */
  function Terms(p: int, weight: int, z1: int, z2: int, c: int): (r: seq<int>)
    requires p > 0
    ensures |r| == 4
  {
    [Mul(p, weight, z1), Mul(p, weight, z2), Neg(p, weight), Neg(p, Mul(p, weight, c))]
  }

  function FactorPoints(key: Key, claim: Claim, proof: ProductProof): (r: seq<Point>)
    ensures |r| == 4
  {
    [key.g, key.h, proof.tFactor, claim.b]
  }

  function ProductPoints(key: Key, claim: Claim, proof: ProductProof): (r: seq<Point>)
    ensures |r| == 4
  {
    [claim.a, key.h, proof.tProduct, claim.c]
  }

  /** Both equations in order, weighted by the weight and by its square. */
  function ProductTerms(p: int, key: Key, claim: Claim, proof: ProductProof, c: int,
                        weight: int): (r: (seq<int>, seq<Point>))
    requires p > 0
    ensures |r.0| == |r.1| == 8
  {
    (Terms(p, weight, proof.zB, proof.zRb, c) + Terms(p, Mul(p, weight, weight), proof.zB, proof.zS, c),
     FactorPoints(key, claim, proof) + ProductPoints(key, claim, proof))
  }

  predicate HalvesHold(p: int, scalars: seq<int>, points: seq<Point>)
    requires p > 0 && |scalars| == |points|
  {
    var half := |scalars| / 2;
    Msm(p, scalars[..half], points[..half]) == IDENTITY && Msm(p, scalars[half..], points[half..]) == IDENTITY
  }

  /** The verifier's check against a given challenge. */
  predicate HoldsAt(p: int, key: Key, claim: Claim, proof: ProductProof, c: int)
    requires p > 0
  {
    var (scalars, points) := ProductTerms(p, key, claim, proof, c, 1);
    HalvesHold(p, scalars, points)
  }

  predicate VerifyProduct(p: int, key: Key, oracle: Oracle, tr: Transcript, claim: Claim, proof: ProductProof)
    requires p > 0
  {
    HoldsAt(p, key, claim, proof, ProductChallenge(p, oracle, tr, claim, proof.tFactor, proof.tProduct))
  }

  /** One coordinate of an equation's residue. */
  ghost function Residue(u: int, v: int, t: int, d: int, z1: int, z2: int, c: int): int {
    z1 * u + z2 * v - (t + c * d)
  }

  ghost function FactorResidue(key: Key, claim: Claim, proof: ProductProof, c: int, first: bool): int {
    Residue(At(key.g, first), At(key.h, first), At(proof.tFactor, first), At(claim.b, first), proof.zB, proof.zRb, c)
  }

  ghost function ProductResidue(key: Key, claim: Claim, proof: ProductProof, c: int, first: bool): int {
    Residue(At(claim.a, first), At(key.h, first), At(proof.tProduct, first), At(claim.c, first), proof.zB, proof.zS, c)
  }

  /** Four terms sum to the weight times the residue. */
  lemma TermsAt(p: int, weight: int, z1: int, z2: int, c: int, points: seq<Point>, first: bool)
    requires p > 0 && |points| == 4
    ensures var m := Msm(p, Terms(p, weight, z1, z2, c), points);
            var residue := Residue(At(points[0], first), At(points[1], first), At(points[2], first),
                                   At(points[3], first), z1, z2, c);
            IsPoint(p, m) && Cong(p, At(m, first), weight * residue)
  {
    hide Msm;
    var s, col := Terms(p, weight, z1, z2, c), Column(points, first);
    MsmAt(p, s, points, first);
    FourTerms(s, col);
    Ops(p, weight, z1);
    Ops(p, weight, z2);
    Ops(p, weight, c);
    Ops(p, weight, 0);
    Ops(p, Mul(p, weight, c), 0);
    hide *;
    TermsSum(p, At(Msm(p, s, points), first), s[0], s[1], s[2], s[3], Mul(p, weight, c), weight, z1, z2, c, col[0],
             col[1], col[2], col[3]);
  }

  lemma TermsSum(p: int, m: int, s0: int, s1: int, s2: int, s3: int, wc: int, w: int, z1: int, z2: int, c: int,
                 u: int, v: int, t: int, d: int)
    requires p > 0 && Cong(p, m, s0 * u + s1 * v + s2 * t + s3 * d)
    requires Cong(p, s0, w * z1) && Cong(p, s1, w * z2) && Cong(p, s2, -w) && Cong(p, s3, -wc) && Cong(p, wc, w * c)
    ensures Cong(p, m, w * Residue(u, v, t, d, z1, z2, c))
  {
    hide Cong;
    Gap(p, m, s0 * u + s1 * v + s2 * t + s3 * d);
    Gap(p, s0, w * z1);
    Gap(p, s1, w * z2);
    Gap(p, s2, -w);
    Gap(p, s3, -wc);
    Gap(p, wc, w * c);
    var e0, e1 := u * (s0 - w * z1) + v * (s1 - w * z2), t * (s2 - -w) + d * (s3 - -wc);
    Vanish(p, u, s0 - w * z1, v, s1 - w * z2);
    Vanish(p, t, s2 - -w, d, s3 - -wc);
    Vanish(p, 1, e0, 1, e1);
    Vanish(p, 1, m - (s0 * u + s1 * v + s2 * t + s3 * d), -d, wc - w * c);
    var f0, f1 := 1 * e0 + 1 * e1, 1 * (m - (s0 * u + s1 * v + s2 * t + s3 * d)) + -d * (wc - w * c);
    Vanish(p, 1, f0, 1, f1);
    TermsRing(m, s0, s1, s2, s3, wc, w, z1, z2, c, u, v, t, d);
    Gap(p, m, w * (z1 * u + z2 * v - (t + c * d)));
  }

  lemma TermsRing(m: int, s0: int, s1: int, s2: int, s3: int, wc: int, w: int, z1: int, z2: int, c: int,
                  u: int, v: int, t: int, d: int)
    ensures var (e0, e1) := (u * (s0 - w * z1) + v * (s1 - w * z2), t * (s2 - -w) + d * (s3 - -wc));
            var (f0, f1) := (1 * e0 + 1 * e1, 1 * (m - (s0 * u + s1 * v + s2 * t + s3 * d)) + -d * (wc - w * c));
            1 * f0 + 1 * f1 == m - w * (z1 * u + z2 * v - (t + c * d))
  {
    assert w * (z1 * u + z2 * v - (t + c * d)) == (w * z1) * u + (w * z2) * v - w * t - (w * c) * d;
  }

  lemma IsIdentity(p: int, m: Point)
    requires p > 0 && IsPoint(p, m)
    ensures m == IDENTITY <==> forall first :: Cong(p, At(m, first), 0)
  {
    if m == IDENTITY {
      forall first ensures Cong(p, At(m, first), 0) { CongRefl(p, 0); }
    }
    if forall first :: Cong(p, At(m, first), 0) {
      CongRefl(p, 0);
      SamePoint(p, m, IDENTITY);
    }
  }

  /** Checking the halves is checking that both residues vanish. */
  lemma HoldsIffResiduesVanish(p: int, key: Key, claim: Claim, proof: ProductProof, c: int)
    requires p > 0
    ensures HoldsAt(p, key, claim, proof, c)
            <==> forall first :: Cong(p, FactorResidue(key, claim, proof, c, first), 0)
                                 && Cong(p, ProductResidue(key, claim, proof, c, first), 0)
  {
    hide Cong, Msm, Residue, Terms;
    var square := Mul(p, 1, 1);
    var s1, s2 := Terms(p, 1, proof.zB, proof.zRb, c), Terms(p, square, proof.zB, proof.zS, c);
    var q1, q2 := FactorPoints(key, claim, proof), ProductPoints(key, claim, proof);
    var m1, m2 := Msm(p, s1, q1), Msm(p, s2, q2);
    assert (s1 + s2)[..4] == s1 && (s1 + s2)[4..] == s2 && (q1 + q2)[..4] == q1 && (q1 + q2)[4..] == q2;
    forall first
      ensures IsPoint(p, m1) && IsPoint(p, m2)
      ensures Cong(p, At(m1, first), 0) <==> Cong(p, FactorResidue(key, claim, proof, c, first), 0)
      ensures Cong(p, At(m2, first), 0) <==> Cong(p, ProductResidue(key, claim, proof, c, first), 0)
    {
      TermsAt(p, 1, proof.zB, proof.zRb, c, q1, first);
      TermsAt(p, square, proof.zB, proof.zS, c, q2, first);
      UnitWeight(p, At(m1, first), 1, FactorResidue(key, claim, proof, c, first));
      Ops(p, 1, 1);
      UnitWeight(p, At(m2, first), square, ProductResidue(key, claim, proof, c, first));
    }
    assert IsPoint(p, m1) && IsPoint(p, m2) by {
      TermsAt(p, 1, proof.zB, proof.zRb, c, q1, true); TermsAt(p, square, proof.zB, proof.zS, c, q2, true);
    }
    IsIdentity(p, m1);
    IsIdentity(p, m2);
  }

  lemma UnitWeight(p: int, m: int, w: int, residue: int)
    requires p > 0 && Cong(p, m, w * residue) && (w == 1 || Cong(p, w, 1 * 1))
    ensures Cong(p, m, 0) <==> Cong(p, residue, 0)
  {
    hide Cong;
    CongRefl(p, 1);
    CongRefl(p, residue);
    CongMul(p, w, 1, residue, residue);
    CongTrans(p, m, w * residue, 1 * residue);
    CongSym(p, m, residue);
    if Cong(p, m, 0) { CongTrans(p, residue, m, 0); }
    if Cong(p, residue, 0) { CongTrans(p, m, residue, 0); }
  }

  // ----- completeness -----

  /** What the prover claims and how it answers; the draws are kB, kRb and kS. */
  function ProveProduct(p: int, key: Key, oracle: Oracle, tr: Transcript, ca: Point, a: int, ra: int, b: int, rb: int,
                        rc: int,
                        kB: int, kRb: int, kS: int): (Claim, ProductProof)
    requires p > 0
  {
    var claim := Claim(ca, Commit(p, key, b, rb), Commit(p, key, Mul(p, a, b), rc));
    var s := Sub(p, rc, Mul(p, ra, b));
    var tFactor := Commit(p, key, kB, kRb);
    var tProduct := PAdd(p, PScale(p, ca, kB), PScale(p, key.h, kS));
    var c := ProductChallenge(p, oracle, tr, claim, tFactor, tProduct);
    (claim, ProductProof(tFactor, tProduct, Add(p, kB, Mul(p, c, b)), Add(p, kRb, Mul(p, c, rb)),
                         Add(p, kS, Mul(p, c, s))))
  }

  /** z*u + z'*v - (k*u + k'*v) is c*(x*u + x'*v) when z = k + c*x and z' = k' + c*x'. */
  lemma AnswersGap(p: int, u: int, v: int, z: int, z': int, k: int, k': int, c: int, x: int, x': int, t: int, d: int)
    requires p > 0 && Cong(p, z, k + c * x) && Cong(p, z', k' + c * x') && Cong(p, t, k * u + k' * v)
    ensures Cong(p, Residue(u, v, t, d, z, z', c), c * (x * u + x' * v - d))
  {
    hide Cong;
    Gap(p, z, k + c * x);
    Gap(p, z', k' + c * x');
    Gap(p, t, k * u + k' * v);
    var e := u * (z - (k + c * x)) + v * (z' - (k' + c * x'));
    Vanish(p, u, z - (k + c * x), v, z' - (k' + c * x'));
    Vanish(p, 1, e, -1, t - (k * u + k' * v));
    AnswersRing(u, v, z, z', k, k', c, x, x', t, d);
    Gap(p, z * u + z' * v - (t + c * d), c * (x * u + x' * v - d));
  }

  lemma AnswersRing(u: int, v: int, z: int, z': int, k: int, k': int, c: int, x: int, x': int, t: int, d: int)
    ensures 1 * (u * (z - (k + c * x)) + v * (z' - (k' + c * x'))) + -1 * (t - (k * u + k' * v))
            == z * u + z' * v - (t + c * d) - c * (x * u + x' * v - d)
  {
    assert c * (x * u + x' * v - d) == (c * x) * u + (c * x') * v - c * d;
  }

  /** In one coordinate: the factor's residue vanishes and the product's is c*b times a's shortfall. */
  lemma HonestResidues(p: int, key: Key, oracle: Oracle, tr: Transcript, ca: Point, a: int, ra: int, b: int, rb: int,
                       rc: int,
                       kB: int, kRb: int, kS: int, first: bool)
    requires p > 0
    ensures var (claim, proof) := ProveProduct(p, key, oracle, tr, ca, a, ra, b, rb, rc, kB, kRb, kS);
            var c := ProductChallenge(p, oracle, tr, claim, proof.tFactor, proof.tProduct);
            && Cong(p, FactorResidue(key, claim, proof, c, first), 0)
            && Cong(p, ProductResidue(key, claim, proof, c, first),
                    c * b * (At(ca, first) - (a * At(key.g, first) + ra * At(key.h, first))))
  {
    var (claim, proof) := ProveProduct(p, key, oracle, tr, ca, a, ra, b, rb, rc, kB, kRb, kS);
    var c := ProductChallenge(p, oracle, tr, claim, proof.tFactor, proof.tProduct);
    var s := Sub(p, rc, Mul(p, ra, b));
    var g, h := At(key.g, first), At(key.h, first);
    hide ProductChallenge, Cong, Commit, PAdd, PScale, Residue, Mul, Add, Sub;
    Response(p, kB, c, b);
    Response(p, kRb, c, rb);
    Response(p, kS, c, s);
    CommitAt(p, key, kB, kRb, first);
    CommitAt(p, key, b, rb, first);
    CommitAt(p, key, Mul(p, a, b), rc, first);
    PointOps(p, ca, ca, kB, first);
    PointOps(p, key.h, key.h, kS, first);
    PointOps(p, PScale(p, ca, kB), PScale(p, key.h, kS), 0, first);
    Ops(p, a, b);
    Ops(p, ra, b);
    Ops(p, rc, Mul(p, ra, b));
    hide *;
    AnswersGap(p, g, h, proof.zB, proof.zRb, kB, kRb, c, b, rb, At(proof.tFactor, first), At(claim.b, first));
    FactorCloses(p, FactorResidue(key, claim, proof, c, first), c, b * g + rb * h, At(claim.b, first));
    FirstMove(p, At(proof.tProduct, first), At(PScale(p, ca, kB), first), At(PScale(p, key.h, kS), first),
              kB * At(ca, first), kS * h);
    AnswersGap(p, At(ca, first), h, proof.zB, proof.zS, kB, kS, c, b, s, At(proof.tProduct, first), At(claim.c, first));
    ProductCloses(p, ProductResidue(key, claim, proof, c, first), c, b, At(ca, first), s, h, At(claim.c, first),
                  Mul(p, a, b), a, ra, rc, g,
                  Mul(p, ra, b));
  }

  lemma FirstMove(p: int, t: int, u: int, v: int, x: int, y: int)
    requires Cong(p, t, u + v) && Cong(p, u, x) && Cong(p, v, y)
    ensures Cong(p, t, x + y)
  {
    hide Cong;
    CongAdd(p, u, x, v, y);
    CongTrans(p, t, u + v, x + y);
  }

  lemma FactorCloses(p: int, residue: int, c: int, opening: int, d: int)
    requires p > 0 && Cong(p, residue, c * (opening - d)) && Cong(p, d, opening)
    ensures Cong(p, residue, 0)
  {
    hide Cong;
    CongSym(p, d, opening);
    Gap(p, opening, d);
    CongScale(p, c, opening - d, 0);
    CongTrans(p, residue, c * (opening - d), c * 0);
  }

  lemma ProductCloses(p: int, residue: int, c: int, b: int, ca: int, s: int, h: int, cc: int, ab: int, a: int, ra: int,
                      rc: int, g: int, rab: int)
    requires p > 0 && Cong(p, residue, c * (b * ca + s * h - cc))
    requires Cong(p, cc, ab * g + rc * h) && Cong(p, ab, a * b) && Cong(p, s, rc - rab) && Cong(p, rab, ra * b)
    ensures Cong(p, residue, c * b * (ca - (a * g + ra * h)))
  {
    hide Cong;
    CongRefl(p, g);
    CongRefl(p, h);
    CongRefl(p, rc);
    CongRefl(p, rc * h);
    CongRefl(p, b * ca);
    CongMul(p, ab, a * b, g, g);
    CongAdd(p, ab * g, a * b * g, rc * h, rc * h);
    CongTrans(p, cc, ab * g + rc * h, a * b * g + rc * h);
    CongSub(p, rc, rc, rab, ra * b);
    CongTrans(p, s, rc - rab, rc - ra * b);
    CongMul(p, s, rc - ra * b, h, h);
    CongAdd(p, b * ca, b * ca, s * h, (rc - ra * b) * h);
    CongSub(p, b * ca + s * h, b * ca + (rc - ra * b) * h, cc, a * b * g + rc * h);
    CongScale(p, c, b * ca + s * h - cc, b * ca + (rc - ra * b) * h - (a * b * g + rc * h));
    CongTrans(p, residue, c * (b * ca + s * h - cc), c * (b * ca + (rc - ra * b) * h - (a * b * g + rc * h)));
    ProductRing(c, b, ca, a, ra, rc, g, h);
  }

  lemma ProductRing(c: int, b: int, ca: int, a: int, ra: int, rc: int, g: int, h: int)
    ensures c * (b * ca + (rc - ra * b) * h - (a * b * g + rc * h)) == c * b * (ca - (a * g + ra * h))
  {
    assert b * ca + (rc - ra * b) * h - (a * b * g + rc * h) == b * (ca - (a * g + ra * h));
  }

  /** An honest proof verifies exactly when the opening of a is right, unless the challenge or the factor is zero. */
  lemma ProductVerifiesIff(p: int, key: Key, oracle: Oracle, tr: Transcript, ca: Point, a: int, ra: int, b: int,
                           rb: int, rc: int,
                           kB: int, kRb: int, kS: int)
    requires Prime(p) && IsPoint(p, ca)
    ensures var (claim, proof) := ProveProduct(p, key, oracle, tr, ca, a, ra, b, rb, rc, kB, kRb, kS);
            var c := ProductChallenge(p, oracle, tr, claim, proof.tFactor, proof.tProduct);
            VerifyProduct(p, key, oracle, tr, claim, proof)
            <==> Cong(p, c, 0) || Cong(p, b, 0) || ca == Commit(p, key, a, ra)
  {
    hide HoldsAt, ProveProduct, FactorResidue, ProductResidue, ProductChallenge, Commit;
    var (claim, proof) := ProveProduct(p, key, oracle, tr, ca, a, ra, b, rb, rc, kB, kRb, kS);
    var c := ProductChallenge(p, oracle, tr, claim, proof.tFactor, proof.tProduct);
    assert p > 0;
    hide Prime, Cong;
    HoldsIffResiduesVanish(p, key, claim, proof, c);
    forall first
      ensures Cong(p, FactorResidue(key, claim, proof, c, first), 0)
      ensures Cong(p, ProductResidue(key, claim, proof, c, first), 0)
              <==> Cong(p, c, 0) || Cong(p, b, 0) || Cong(p, At(ca, first), At(Commit(p, key, a, ra), first))
    {
      HonestResidues(p, key, oracle, tr, ca, a, ra, b, rb, rc, kB, kRb, kS, first);
      CommitAt(p, key, a, ra, first);
      ShortfallVanishes(p, ProductResidue(key, claim, proof, c, first), c, b, At(ca, first),
                        a * At(key.g, first) + ra * At(key.h, first), At(Commit(p, key, a, ra), first));
    }
    CommitAt(p, key, a, ra, true);
    if forall first :: Cong(p, At(ca, first), At(Commit(p, key, a, ra), first)) {
      SamePoint(p, ca, Commit(p, key, a, ra));
    }
    if ca == Commit(p, key, a, ra) {
      forall first ensures Cong(p, At(ca, first), At(Commit(p, key, a, ra), first)) { CongRefl(p, At(ca, first)); }
    }
  }

  lemma ShortfallVanishes(p: int, residue: int, c: int, b: int, ca: int, opening: int, committed: int)
    requires Prime(p) && Cong(p, residue, c * b * (ca - opening)) && Cong(p, committed, opening)
    ensures Cong(p, residue, 0) <==> Cong(p, c, 0) || Cong(p, b, 0) || Cong(p, ca, committed)
  {
    assert p > 0;
    hide Cong, Prime;
    var x := c * b * (ca - opening);
    TripleVanishes(p, c, b, ca - opening);
    SameVanishing(p, residue, x);
    CongSym(p, committed, opening);
    Gap(p, ca, opening);
    if Cong(p, ca, opening) { CongTrans(p, ca, opening, committed); }
    if Cong(p, ca, committed) { CongTrans(p, ca, committed, opening); }
  }

  lemma SameVanishing(p: int, a: int, b: int)
    requires Cong(p, a, b)
    ensures Cong(p, a, 0) <==> Cong(p, b, 0)
  {}

  lemma TripleVanishes(p: int, c: int, b: int, y: int)
    requires Prime(p)
    ensures Cong(p, c * b * y, 0) <==> Cong(p, c, 0) || Cong(p, b, 0) || Cong(p, y, 0)
  {
    assert p > 0;
    hide Cong, Prime;
    if Cong(p, c * b * y, 0) {
      NoZeroDivisors(p, c * b, y);
      if Cong(p, c * b, 0) { NoZeroDivisors(p, c, b); }
    }
    Rotated(c, b, y);
    if Cong(p, c, 0) { CongScale(p, b * y, c, 0); }
    if Cong(p, b, 0) { CongScale(p, c * y, b, 0); }
    if Cong(p, y, 0) { CongScale(p, c * b, y, 0); }
  }

  lemma Rotated(c: int, b: int, y: int)
    ensures b * y * c == c * b * y && c * y * b == c * b * y
  {}

  /** A first factor that commits to zero, claimed to be one: the honest prover's proof is rejected. */
  lemma WrongFactorRejected()
    ensures var key, oracle: Oracle := Key(Point(1, 0), Point(0, 1)), _ => 1;
            var (claim, proof) := ProveProduct(5, key, oracle, [], IDENTITY, 1, 0, 1, 0, 0, 0, 0, 0);
            !VerifyProduct(5, key, oracle, [], claim, proof)
  {
    hide VerifyProduct, ProveProduct;
    var key, oracle: Oracle := Key(Point(1, 0), Point(0, 1)), _ => 1;
    assert Commit(5, key, 1, 0) == Point(1, 0);
    ProductVerifiesIff(5, key, oracle, [], IDENTITY, 1, 0, 1, 0, 0, 0, 0, 0);
  }

  // ----- special soundness -----

  /** Two answers to one first move determine b, its blinding, and the blinding left over. */
  function ExtractProduct(p: int, x: ProductProof, c: int, y: ProductProof, c': int): (int, int, int)
    requires p > 0
  {
    (Quotient(p, x.zB, y.zB, c, c'), Quotient(p, x.zRb, y.zRb, c, c'), Quotient(p, x.zS, y.zS, c, c'))
  }

  /** Two vanishing residues: the point is the quotients' combination, in one coordinate. */
  lemma TwoResidues(p: int, u: int, v: int, t: int, d: int, z1: int, z2: int, c: int, z1': int, z2': int, c': int,
                    q1: int, q2: int)
    requires Prime(p) && !Cong(p, c, c')
    requires Cong(p, Residue(u, v, t, d, z1, z2, c), 0) && Cong(p, Residue(u, v, t, d, z1', z2', c'), 0)
    requires Cong(p, q1 * (c - c') - (z1 - z1'), 0) && Cong(p, q2 * (c - c') - (z2 - z2'), 0)
    ensures Cong(p, d, q1 * u + q2 * v)
  {
    assert p > 0;
    hide Cong, Prime;
    var e, e' := z1 * u + z2 * v - (t + c * d), z1' * u + z2' * v - (t + c' * d);
    var s1, s2 := q1 * (c - c') - (z1 - z1'), q2 * (c - c') - (z2 - z2');
    Vanish(p, -1, e, 1, e');
    Vanish(p, -u, s1, -v, s2);
    Vanish(p, 1, -1 * e + 1 * e', 1, -u * s1 + -v * s2);
    ResidueRing(u, v, t, d, z1, z2, c, z1', z2', c', q1, q2);
    Gap(p, c, c');
    NoZeroDivisors(p, c - c', d - (q1 * u + q2 * v));
    Gap(p, d, q1 * u + q2 * v);
  }

  lemma ResidueRing(u: int, v: int, t: int, d: int, z1: int, z2: int, c: int, z1': int, z2': int, c': int, q1: int,
                    q2: int)
    ensures var (e, e') := (z1 * u + z2 * v - (t + c * d), z1' * u + z2' * v - (t + c' * d));
            var (s1, s2) := (q1 * (c - c') - (z1 - z1'), q2 * (c - c') - (z2 - z2'));
            1 * (-1 * e + 1 * e') + 1 * (-u * s1 + -v * s2) == (c - c') * (d - (q1 * u + q2 * v))
  {
    assert (c - c') * (d - (q1 * u + q2 * v)) == c * d - c' * d - (q1 * (c - c')) * u - (q2 * (c - c')) * v;
  }

  /**
   Two accepted answers to one first move: b opens as extracted, and c is b times a plus a multiple
   of h, so whatever a opens to, c opens to the product.
   */
  lemma ProductSound(p: int, key: Key, claim: Claim, x: ProductProof, c: int, y: ProductProof, c': int)
    requires Prime(p) && IsPoint(p, claim.b) && IsPoint(p, claim.c) && !Cong(p, c, c')
    requires x.tFactor == y.tFactor && x.tProduct == y.tProduct
    requires HoldsAt(p, key, claim, x, c) && HoldsAt(p, key, claim, y, c')
    ensures var (b, rb, s) := ExtractProduct(p, x, c, y, c');
            && claim.b == Commit(p, key, b, rb)
            && forall a: int, ra: int :: claim.a == Commit(p, key, a, ra) ==>
                 claim.c == Commit(p, key, a * b, ra * b + s)
  {
    hide HoldsAt, Commit, FactorResidue, ProductResidue, Quotient;
    var (b, rb, s) := ExtractProduct(p, x, c, y, c');
    assert p > 0;
    QuotientTimes(p, x.zB, y.zB, c, c');
    QuotientTimes(p, x.zRb, y.zRb, c, c');
    QuotientTimes(p, x.zS, y.zS, c, c');
    hide Prime, Cong;
    HoldsIffResiduesVanish(p, key, claim, x, c);
    HoldsIffResiduesVanish(p, key, claim, y, c');
    forall first
      ensures Cong(p, At(claim.b, first), b * At(key.g, first) + rb * At(key.h, first))
      ensures Cong(p, At(claim.c, first), b * At(claim.a, first) + s * At(key.h, first))
    {
      ResiduesOpen(p, key, claim, x, c, y, c', b, rb, s, first);
    }
    OpenedBy(p, key, claim.b, b, rb);
    forall a: int, ra: int | claim.a == Commit(p, key, a, ra) ensures claim.c == Commit(p, key, a * b, ra * b + s) {
      ProductOpens(p, key, claim, a, ra, b, s);
    }
  }

  lemma ResiduesOpen(p: int, key: Key, claim: Claim, x: ProductProof, c: int, y: ProductProof, c': int, b: int,
                     rb: int, s: int, first: bool)
    requires Prime(p) && !Cong(p, c, c') && x.tFactor == y.tFactor && x.tProduct == y.tProduct
    requires Cong(p, FactorResidue(key, claim, x, c, first), 0) && Cong(p, FactorResidue(key, claim, y, c', first), 0)
    requires Cong(p, ProductResidue(key, claim, x, c, first), 0) && Cong(p, ProductResidue(key, claim, y, c', first), 0)
    requires Cong(p, b * (c - c') - (x.zB - y.zB), 0) && Cong(p, rb * (c - c') - (x.zRb - y.zRb), 0)
    requires Cong(p, s * (c - c') - (x.zS - y.zS), 0)
    ensures Cong(p, At(claim.b, first), b * At(key.g, first) + rb * At(key.h, first))
    ensures Cong(p, At(claim.c, first), b * At(claim.a, first) + s * At(key.h, first))
  {
    hide Cong, Prime, Residue;
    TwoResidues(p, At(key.g, first), At(key.h, first), At(x.tFactor, first), At(claim.b, first), x.zB, x.zRb, c, y.zB,
                y.zRb, c', b, rb);
    TwoResidues(p, At(claim.a, first), At(key.h, first), At(x.tProduct, first), At(claim.c, first), x.zB, x.zS, c,
                y.zB, y.zS, c', b, s);
  }

  lemma ProductOpens(p: int, key: Key, claim: Claim, a: int, ra: int, b: int, s: int)
    requires p > 0 && IsPoint(p, claim.c) && claim.a == Commit(p, key, a, ra)
    requires forall first :: Cong(p, At(claim.c, first), b * At(claim.a, first) + s * At(key.h, first))
    ensures claim.c == Commit(p, key, a * b, ra * b + s)
  {
    hide Commit, Cong;
    var v, w := a * b, ra * b + s;
    forall first ensures Cong(p, At(claim.c, first), v * At(key.g, first) + w * At(key.h, first)) {
      CommitAt(p, key, a, ra, first);
      SubstituteRing(b, s, At(key.h, first), a, At(key.g, first), ra);
      Substitute(p, At(claim.c, first), b, At(claim.a, first), s, At(key.h, first), a, At(key.g, first), ra, v, w);
    }
    OpenedBy(p, key, claim.c, v, w);
  }

  lemma Substitute(p: int, c: int, b: int, ca: int, s: int, h: int, a: int, g: int, ra: int, v: int, w: int)
    requires p > 0 && Cong(p, c, b * ca + s * h) && Cong(p, ca, a * g + ra * h)
    requires b * (a * g + ra * h) + s * h == v * g + w * h
    ensures Cong(p, c, v * g + w * h)
  {
    hide Cong;
    CongScale(p, b, ca, a * g + ra * h);
    CongRefl(p, s * h);
    CongAdd(p, b * ca, b * (a * g + ra * h), s * h, s * h);
    CongTrans(p, c, b * ca + s * h, b * (a * g + ra * h) + s * h);
  }

  lemma SubstituteRing(b: int, s: int, h: int, a: int, g: int, ra: int)
    ensures b * (a * g + ra * h) + s * h == a * b * g + (ra * b + s) * h
  {}

  // ----- in a batch -----

  /** The batch's sum once this proof's weighted terms are added to the rest. */
  ghost function Batched(p: int, key: Key, claim: Claim, proof: ProductProof, c: int, rest: Point, weight: int): Point
    requires p > 0
  {
    var (scalars, points) := ProductTerms(p, key, claim, proof, c, weight);
    PAdd(p, rest, Msm(p, scalars, points))
  }

  /** In one coordinate the sum is a quadratic in the weight. */
  lemma BatchedAt(p: int, key: Key, claim: Claim, proof: ProductProof, c: int, rest: Point, weight: int, first: bool)
    requires p > 0
    ensures IsPoint(p, Batched(p, key, claim, proof, c, rest, weight))
    ensures Cong(p, At(Batched(p, key, claim, proof, c, rest, weight), first),
                 Eval([At(rest, first), FactorResidue(key, claim, proof, c, first),
                       ProductResidue(key, claim, proof, c, first)], weight))
  {
    hide Cong, Msm, Residue, Terms, Eval, PAdd;
    var square := Mul(p, weight, weight);
    var s1, s2 := Terms(p, weight, proof.zB, proof.zRb, c), Terms(p, square, proof.zB, proof.zS, c);
    var q1, q2 := FactorPoints(key, claim, proof), ProductPoints(key, claim, proof);
    var m := Msm(p, s1 + s2, q1 + q2);
    var e1, e2 := FactorResidue(key, claim, proof, c, first), ProductResidue(key, claim, proof, c, first);
    MsmAt(p, s1 + s2, q1 + q2, first);
    MsmAt(p, s1, q1, first);
    MsmAt(p, s2, q2, first);
    assert Column(q1 + q2, first) == Column(q1, first) + Column(q2, first);
    DotConcat(s1, s2, Column(q1, first), Column(q2, first));
    TermsAt(p, weight, proof.zB, proof.zRb, c, q1, first);
    TermsAt(p, square, proof.zB, proof.zS, c, q2, first);
    PointOps(p, rest, m, 0, first);
    Ops(p, weight, weight);
    hide *;
    QuadraticEval(At(rest, first), e1, e2, weight);
    SumOfHalves(p, At(PAdd(p, rest, m), first), At(rest, first), At(m, first), Dot(s1, Column(q1, first)),
                Dot(s2, Column(q2, first)),
                At(Msm(p, s1, q1), first), At(Msm(p, s2, q2), first), weight, square, e1, e2);
  }

  lemma QuadraticEval(r: int, e1: int, e2: int, w: int)
    ensures Eval([r, e1, e2], w) == r + w * e1 + w * w * e2
  {
    assert [r, e1, e2][1..] == [e1, e2];
    EvalLinear(e1, e2, w);
    assert w * (e1 + e2 * w) == w * e1 + w * w * e2;
  }

  lemma SumOfHalves(p: int, sum: int, r: int, m: int, d1: int, d2: int, m1: int, m2: int, w: int, square: int, e1: int,
                    e2: int)
    requires p > 0 && Cong(p, sum, r + m) && Cong(p, m, d1 + d2) && Cong(p, m1, d1) && Cong(p, m2, d2)
    requires Cong(p, m1, w * e1) && Cong(p, m2, square * e2) && Cong(p, square, w * w)
    ensures Cong(p, sum, r + w * e1 + w * w * e2)
  {
    hide Cong;
    CongRefl(p, e2);
    CongRefl(p, r);
    CongMul(p, square, w * w, e2, e2);
    CongTrans(p, m2, square * e2, w * w * e2);
    CongSym(p, m1, d1);
    CongTrans(p, d1, m1, w * e1);
    CongSym(p, m2, d2);
    CongTrans(p, d2, m2, w * w * e2);
    CongAdd(p, d1, w * e1, d2, w * w * e2);
    CongTrans(p, m, d1 + d2, w * e1 + w * w * e2);
    CongAdd(p, r, r, m, w * e1 + w * w * e2);
    CongTrans(p, sum, r + m, r + (w * e1 + w * w * e2));
  }

  /**
   A batch settles this proof.  If it holds and the rest sums to the identity, the batch accepts at
   every weight; and if the batch accepts at three different weights, whatever the rest is, both
   halves hold and the rest sums to the identity.
   */
  lemma BatchedIff(p: int, key: Key, claim: Claim, proof: ProductProof, c: int, rest: Point, weights: seq<int>)
    requires Prime(p) && IsPoint(p, rest) && |weights| == 3 && AllCanonical(p, weights) && Counting.Distinct(weights)
    ensures (forall k :: 0 <= k < 3 ==> Batched(p, key, claim, proof, c, rest, weights[k]) == IDENTITY)
            <==> HoldsAt(p, key, claim, proof, c) && rest == IDENTITY
    ensures HoldsAt(p, key, claim, proof, c) && rest == IDENTITY ==>
              forall w: int :: Batched(p, key, claim, proof, c, rest, w) == IDENTITY
  {
    hide HoldsAt, Batched, FactorResidue, ProductResidue, Eval;
    assert p > 0;
    hide Prime, Cong;
    HoldsIffResiduesVanish(p, key, claim, proof, c);
    IsIdentity(p, rest);
    if HoldsAt(p, key, claim, proof, c) && rest == IDENTITY {
      forall w: int ensures Batched(p, key, claim, proof, c, rest, w) == IDENTITY {
        AcceptsEveryWeight(p, key, claim, proof, c, rest, w);
      }
    }
    if forall k :: 0 <= k < 3 ==> Batched(p, key, claim, proof, c, rest, weights[k]) == IDENTITY {
      forall first
        ensures Cong(p, At(rest, first), 0) && Cong(p, FactorResidue(key, claim, proof, c, first), 0)
        ensures Cong(p, ProductResidue(key, claim, proof, c, first), 0)
      {
        ThreeWeights(p, key, claim, proof, c, rest, weights, first);
      }
    }
  }

  lemma AcceptsEveryWeight(p: int, key: Key, claim: Claim, proof: ProductProof, c: int, rest: Point, w: int)
    requires p > 0 && IsPoint(p, rest)
    requires forall first :: Cong(p, At(rest, first), 0) && Cong(p, FactorResidue(key, claim, proof, c, first), 0)
                             && Cong(p, ProductResidue(key, claim, proof, c, first), 0)
    ensures Batched(p, key, claim, proof, c, rest, w) == IDENTITY
  {
    hide Batched, FactorResidue, ProductResidue, Eval, Cong;
    forall first ensures Cong(p, At(Batched(p, key, claim, proof, c, rest, w), first), 0) {
      BatchedAt(p, key, claim, proof, c, rest, w, first);
      var poly := [At(rest, first), FactorResidue(key, claim, proof, c, first),
                   ProductResidue(key, claim, proof, c, first)];
      assert Cong(p, poly[0], 0) && Cong(p, poly[1], 0) && Cong(p, poly[2], 0);
      ZeroPolyEval(p, poly, w);
      CongTrans(p, At(Batched(p, key, claim, proof, c, rest, w), first), Eval(poly, w), 0);
    }
    BatchedAt(p, key, claim, proof, c, rest, w, true);
    IsIdentity(p, Batched(p, key, claim, proof, c, rest, w));
  }

  lemma ThreeWeights(p: int, key: Key, claim: Claim, proof: ProductProof, c: int, rest: Point, weights: seq<int>,
                     first: bool)
    requires Prime(p) && |weights| == 3 && AllCanonical(p, weights) && Counting.Distinct(weights)
    requires forall k :: 0 <= k < 3 ==> Batched(p, key, claim, proof, c, rest, weights[k]) == IDENTITY
    ensures Cong(p, At(rest, first), 0) && Cong(p, FactorResidue(key, claim, proof, c, first), 0)
    ensures Cong(p, ProductResidue(key, claim, proof, c, first), 0)
  {
    hide Batched, FactorResidue, ProductResidue, Eval, Cong;
    assert p > 0;
    hide Prime;
    var poly := [At(rest, first), FactorResidue(key, claim, proof, c, first),
                 ProductResidue(key, claim, proof, c, first)];
    var all := Counting.Range(3);
    Counting.RangeCard(3);
    Counting.AtCard(weights, all);
    forall w | w in Counting.At(weights, all) ensures Canonical(p, w) && Cong(p, Eval(poly, w), 0) {
      var k :| k in all && weights[k] == w;
      BatchedAt(p, key, claim, proof, c, rest, w, first);
      CongSym(p, At(Batched(p, key, claim, proof, c, rest, w), first), Eval(poly, w));
    }
    RootBound(p, poly, Counting.At(weights, all));
    assert Cong(p, poly[0], 0) && Cong(p, poly[1], 0) && Cong(p, poly[2], 0);
  }
}
