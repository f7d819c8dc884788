/**
 The sigma protocols a range proof is made of: an opening with its value generator
 disabled, and the two-branch proof that a commitment hides a bit.  A challenge is an
 arbitrary function of everything appended to its transcript.
 */
module Sigma {
  import opened Modular
  import opened LinearSystem
  import opened Group

  datatype Message =
    | Bytes(tag: string, data: string)
    | Pt(tag: string, point: Point)
    | Num(tag: string, n: nat)
    | Draw(tag: string)

  type Transcript = seq<Message>

  /** The transcript's challenge, as an arbitrary function of what was appended. */
  type Oracle = Transcript -> int

  function Challenge(p: int, oracle: Oracle, t: Transcript, tag: string): int
    requires p > 0
  {
    oracle(t + [Draw(tag)]) % p
  }

  lemma ChallengeCanonical(p: int, oracle: Oracle, t: Transcript, tag: string)
    requires p > 0
    ensures Canonical(p, Challenge(p, oracle, t, tag))
  {
    CongMod(p, oracle(t + [Draw(tag)]));
  }

  // ----- openings -----

  datatype OpeningProof = OpeningProof(t: Point, zValue: int, zBlinding: int)

  function OpeningChallenge(p: int, oracle: Oracle, tr: Transcript, commitment: Point, t: Point): int
    requires p > 0
  {
    Challenge(p, oracle, tr + [Bytes("dom", "qomm/opening"), Pt("C", commitment), Pt("T", t)], "c")
  }

  /** The verification equation rearranged to sum to the identity. */
  function OpeningTerms(p: int, key: Key, oracle: Oracle, tr: Transcript, commitment: Point, proof: OpeningProof,
                        weight: int): (r: (seq<int>, seq<Point>))
    requires p > 0
    ensures |r.0| == |r.1|
  {
    var c := OpeningChallenge(p, oracle, tr, commitment, proof.t);
    ([Mul(p, weight, proof.zValue), Mul(p, weight, proof.zBlinding), Neg(p, weight), Neg(p, Mul(p, weight, c))],
     [key.g, key.h, proof.t, commitment])
  }

  predicate VerifyOpening(p: int, key: Key, oracle: Oracle, tr: Transcript, commitment: Point, proof: OpeningProof)
    requires p > 0
  {
    var (scalars, points) := OpeningTerms(p, key, oracle, tr, commitment, proof, 1);
    Msm(p, scalars, points) == IDENTITY
  }

  function ProveOpening(p: int, key: Key, oracle: Oracle, tr: Transcript, commitment: Point, value: int, blinding: int,
                        kValue: int, kBlinding: int): OpeningProof
    requires p > 0
  {
    var t := PAdd(p, PScale(p, key.g, kValue), PScale(p, key.h, kBlinding));
    var c := OpeningChallenge(p, oracle, tr, commitment, t);
    OpeningProof(t, Add(p, kValue, Mul(p, c, value)), Add(p, kBlinding, Mul(p, c, blinding)))
  }

  function ZeroRelation(tr: Transcript): Transcript { tr + [Bytes("relation", "zero-opening:v2")] }

  function ZeroKey(key: Key): Key { Key(IDENTITY, key.h) }

  predicate VerifyZeroOpening(p: int, key: Key, oracle: Oracle, tr: Transcript, residual: Point, proof: OpeningProof)
    requires p > 0
  {
    proof.zValue == 0 && VerifyOpening(p, ZeroKey(key), oracle, ZeroRelation(tr), residual, proof)
  }

  function ProveZeroOpening(p: int, key: Key, oracle: Oracle, tr: Transcript, residual: Point, blinding: int,
                            kValue: int, kBlinding: int): OpeningProof
    requires p > 0
  {
    ProveOpening(p, ZeroKey(key), oracle, ZeroRelation(tr), residual, 0, blinding, kValue, kBlinding).(zValue := 0)
  }

  function ZeroChallenge(p: int, oracle: Oracle, tr: Transcript, residual: Point, t: Point): int
    requires p > 0
  {
    OpeningChallenge(p, oracle, ZeroRelation(tr), residual, t)
  }

  /** The rearranged sum vanishes exactly when h*z == t + c*residual. */
  lemma ZeroOpeningEquation(p: int, key: Key, oracle: Oracle, tr: Transcript, residual: Point, proof: OpeningProof)
    requires p > 0 && proof.zValue == 0
    ensures VerifyZeroOpening(p, key, oracle, tr, residual, proof)
            <==> PScale(p, key.h, proof.zBlinding)
                 == PAdd(p, proof.t, PScale(p, residual, ZeroChallenge(p, oracle, tr, residual, proof.t)))
  {
    var c := ZeroChallenge(p, oracle, tr, residual, proof.t);
    var (scalars, points) := OpeningTerms(p, ZeroKey(key), oracle, ZeroRelation(tr), residual, proof, 1);
    var m := Msm(p, scalars, points);
    SigmaEquation(p, key.h, proof.zBlinding, proof.t, residual, c);
    forall first
      ensures Cong(p, At(m, first), 0) <==>
              Cong(p, proof.zBlinding * At(key.h, first), At(proof.t, first) + c * At(residual, first))
      ensures IsPoint(p, m)
    {
      MsmAt(p, scalars, points, first);
      FourTerms(scalars, Column(points, first));
      hide Msm, Cong;
      ZeroOpeningCoordinate(p, At(m, first), proof.zBlinding, c, At(key.h, first), At(proof.t, first),
                            At(residual, first));
    }
    if m != IDENTITY && forall first :: Cong(p, At(m, first), 0) {
      assert Cong(p, At(m, true), 0) && Cong(p, At(m, false), 0) && IsPoint(p, m);
      CanonicalUnique(p, m.x, 0);
      CanonicalUnique(p, m.y, 0);
    }
    if m == IDENTITY {
      forall first ensures Cong(p, At(m, first), 0) { CongRefl(p, 0); }
    }
  }

  lemma FourTerms(s: seq<int>, v: seq<int>)
    requires |s| == |v| == 4
    ensures Dot(s, v) == s[0] * v[0] + s[1] * v[1] + s[2] * v[2] + s[3] * v[3]
  {
    assert s[1..][1..] == s[2..] && v[1..][1..] == v[2..] && s[2..][1..] == s[3..] && v[2..][1..] == v[3..];
    assert s[3..][1..] == [] && v[3..][1..] == [];
    assert Dot(s[3..], v[3..]) == s[3] * v[3];
    assert Dot(s[2..], v[2..]) == s[2] * v[2] + Dot(s[3..], v[3..]);
    assert Dot(s[1..], v[1..]) == s[1] * v[1] + Dot(s[2..], v[2..]);
  }

  lemma ZeroOpeningCoordinate(p: int, m: int, z: int, c: int, h: int, t: int, r: int)
    requires p > 0
    requires Cong(p, m, Mul(p, 1, 0) * 0 + Mul(p, 1, z) * h + Neg(p, 1) * t + Neg(p, Mul(p, 1, c)) * r)
    ensures Cong(p, m, 0) <==> Cong(p, z * h, t + c * r)
  {
    var a, b, e := Mul(p, 1, z), Neg(p, 1), Neg(p, Mul(p, 1, c));
    Ops(p, 1, z);
    Ops(p, 1, c);
    Ops(p, Mul(p, 1, c), 0);
    assert Mul(p, 1, 0) * 0 == 0;
    hide Cong, Mul, Neg;
    CongScale(p, -1, Mul(p, 1, c), c);
    CongTrans(p, e, -Mul(p, 1, c), -c);
    ZeroOpeningSum(p, m, a, b, e, z, c, h, t, r);
    GapVanishes(p, m, z * h, t + c * r);
  }

  lemma ZeroOpeningSum(p: int, m: int, a: int, b: int, e: int, z: int, c: int, h: int, t: int, r: int)
    requires p > 0 && Cong(p, m, a * h + b * t + e * r) && Cong(p, a, z) && Cong(p, b, -1) && Cong(p, e, -c)
    ensures Cong(p, m, z * h - (t + c * r))
  {
    hide Cong;
    CongRefl(p, h);
    CongRefl(p, t);
    CongRefl(p, r);
    CongMul(p, a, z, h, h);
    CongMul(p, b, -1, t, t);
    CongMul(p, e, -c, r, r);
    CongAdd(p, a * h, z * h, b * t, -1 * t);
    CongAdd(p, a * h + b * t, z * h + -1 * t, e * r, -c * r);
    assert z * h + -1 * t + -c * r == z * h - (t + c * r);
    CongTrans(p, m, a * h + b * t + e * r, z * h - (t + c * r));
  }

  /** An honest zero opening of h*blinding verifies whatever the challenge. */
  lemma ZeroOpeningComplete(p: int, key: Key, oracle: Oracle, tr: Transcript, residual: Point, blinding: int,
                            kValue: int, kBlinding: int)
    requires p > 0 && residual == PScale(p, key.h, blinding)
    ensures VerifyZeroOpening(p, key, oracle, tr, residual,
                              ProveZeroOpening(p, key, oracle, tr, residual, blinding, kValue, kBlinding))
  {
    var proof := ProveZeroOpening(p, key, oracle, tr, residual, blinding, kValue, kBlinding);
    var c := ZeroChallenge(p, oracle, tr, residual, proof.t);
    forall first
      ensures Cong(p, proof.zBlinding * At(key.h, first), At(proof.t, first) + c * At(residual, first))
    {
      CommitAt(p, ZeroKey(key), kValue, kBlinding, first);
      PointOps(p, key.h, key.h, blinding, first);
      Response(p, kBlinding, c, blinding);
      assert At(ZeroKey(key).g, first) == 0 && kValue * 0 == 0;
      HonestBranch(p, kBlinding, c, blinding, proof.zBlinding, At(key.h, first), At(proof.t, first),
                   At(residual, first));
    }
    SigmaEquation(p, key.h, proof.zBlinding, proof.t, residual, c);
    ZeroOpeningEquation(p, key, oracle, tr, residual, proof);
  }

  lemma Response(p: int, k: int, c: int, r: int)
    requires p > 0
    ensures Cong(p, Add(p, k, Mul(p, c, r)), k + c * r)
  {
    Ops(p, c, r);
    Ops(p, k, Mul(p, c, r));
    CongRefl(p, k);
    CongAdd(p, k, k, Mul(p, c, r), c * r);
  }

  /** z = k + c*r answers the challenge c for the first move k*h and the point r*h. */
  lemma HonestBranch(p: int, k: int, c: int, r: int, z: int, h: int, t: int, point: int)
    requires p > 0 && Cong(p, z, k + c * r) && Cong(p, t, k * h) && Cong(p, point, r * h)
    ensures Cong(p, z * h, t + c * point)
  {
    hide Cong;
    CongRefl(p, h);
    CongMul(p, z, k + c * r, h, h);
    CongScale(p, c, point, r * h);
    CongAdd(p, t, k * h, c * point, c * (r * h));
    assert (k + c * r) * h == k * h + c * (r * h);
    CongSym(p, t + c * point, k * h + c * (r * h));
    CongTrans(p, z * h, k * h + c * (r * h), t + c * point);
  }

  // ----- bits -----

  datatype BitProof = BitProof(t0: Point, t1: Point, c0: int, z0: int, z1: int)

  function BitChallenge(p: int, oracle: Oracle, tr: Transcript, commitment: Point, t0: Point, t1: Point): int
    requires p > 0
  {
    Challenge(p, oracle, tr + [Bytes("dom", "qomm/bit"), Pt("C", commitment), Pt("T0", t0), Pt("T1", t1)], "c")
  }

  /** The two branch equations, for a given total challenge. */
  predicate BitHolds(p: int, key: Key, commitment: Point, proof: BitProof, total: int)
    requires p > 0
  {
    && PScale(p, key.h, proof.z0) == PAdd(p, proof.t0, PScale(p, commitment, proof.c0))
    && PScale(p, key.h, proof.z1)
       == PAdd(p, proof.t1, PScale(p, PSub(p, commitment, key.g), Sub(p, total, proof.c0)))
  }

  predicate VerifyBit(p: int, key: Key, oracle: Oracle, tr: Transcript, commitment: Point, proof: BitProof)
    requires p > 0
  {
    BitHolds(p, key, commitment, proof, BitChallenge(p, oracle, tr, commitment, proof.t0, proof.t1))
  }

  /** The real branch is answered, the other simulated; k, cFake and zFake are the drawn scalars. */
  function ProveBit(p: int, key: Key, oracle: Oracle, tr: Transcript, commitment: Point, bit: bool, blinding: int,
                    k: int, cFake: int, zFake: int): BitProof
    requires p > 0
  {
    var fake := if bit then commitment else PSub(p, commitment, key.g);
    var tReal := PScale(p, key.h, k);
    var tFake := PSub(p, PScale(p, key.h, zFake), PScale(p, fake, cFake));
    var (t0, t1) := if bit then (tFake, tReal) else (tReal, tFake);
    var total := BitChallenge(p, oracle, tr, commitment, t0, t1);
    var cReal := Sub(p, total, cFake);
    var zReal := Add(p, k, Mul(p, cReal, blinding));
    if bit then BitProof(t0, t1, cFake, zFake, zReal) else BitProof(t0, t1, cReal, zReal, zFake)
  }

  function BitValue(bit: bool): int { if bit then 1 else 0 }

  lemma SimulatedBranch(p: int, h: Point, point: Point, c: int, z: int)
    requires p > 0
    ensures PScale(p, h, z) == PAdd(p, PSub(p, PScale(p, h, z), PScale(p, point, c)), PScale(p, point, c))
  {
    var t := PSub(p, PScale(p, h, z), PScale(p, point, c));
    forall first ensures Cong(p, z * At(h, first), At(t, first) + c * At(point, first)) {
      PointOps(p, h, h, z, first);
      PointOps(p, point, point, c, first);
      PointOps(p, PScale(p, h, z), PScale(p, point, c), 0, first);
      hide Cong, PScale, PSub;
      var u, v := At(PScale(p, h, z), first), At(PScale(p, point, c), first);
      CongSub(p, u, z * At(h, first), v, c * At(point, first));
      CongTrans(p, At(t, first), u - v, z * At(h, first) - c * At(point, first));
      CongRefl(p, c * At(point, first));
      CongAdd(p, At(t, first), z * At(h, first) - c * At(point, first), c * At(point, first), c * At(point, first));
      CongSym(p, At(t, first) + c * At(point, first), z * At(h, first));
    }
    SigmaEquation(p, h, z, t, point, c);
  }

  lemma RealBranch(p: int, h: Point, point: Point, k: int, c: int, r: int)
    requires p > 0 && forall first :: Cong(p, At(point, first), r * At(h, first))
    ensures PScale(p, h, Add(p, k, Mul(p, c, r))) == PAdd(p, PScale(p, h, k), PScale(p, point, c))
  {
    var z, t := Add(p, k, Mul(p, c, r)), PScale(p, h, k);
    forall first ensures Cong(p, z * At(h, first), At(t, first) + c * At(point, first)) {
      PointOps(p, h, h, k, first);
      Response(p, k, c, r);
      HonestBranch(p, k, c, r, z, At(h, first), At(t, first), At(point, first));
    }
    SigmaEquation(p, h, z, t, point, c);
  }

  /** An honest bit proof verifies whatever the challenge. */
  lemma BitComplete(p: int, key: Key, oracle: Oracle, tr: Transcript, commitment: Point, bit: bool, blinding: int,
                    k: int, cFake: int, zFake: int)
    requires p > 0 && Canonical(p, cFake) && commitment == Commit(p, key, BitValue(bit), blinding)
    ensures VerifyBit(p, key, oracle, tr, commitment,
                      ProveBit(p, key, oracle, tr, commitment, bit, blinding, k, cFake, zFake))
  {
    var shifted := PSub(p, commitment, key.g);
    var fake, honest := if bit then commitment else shifted, if bit then shifted else commitment;
    forall first ensures Cong(p, At(honest, first), blinding * At(key.h, first)) {
      CommitAt(p, key, BitValue(bit), blinding, first);
      PointOps(p, commitment, key.g, 0, first);
      CongRefl(p, At(key.g, first));
      CongSub(p, At(commitment, first), BitValue(bit) * At(key.g, first) + blinding * At(key.h, first),
              At(key.g, first), At(key.g, first));
    }
    var proof := ProveBit(p, key, oracle, tr, commitment, bit, blinding, k, cFake, zFake);
    var total := BitChallenge(p, oracle, tr, commitment, proof.t0, proof.t1);
    var cReal := Sub(p, total, cFake);
    SimulatedBranch(p, key.h, fake, cFake, zFake);
    RealBranch(p, key.h, honest, k, cReal, blinding);
    if !bit { SubSub(p, total, cFake); }
  }

  lemma SubSub(p: int, total: int, c: int)
    requires p > 0 && Canonical(p, c)
    ensures Sub(p, total, Sub(p, total, c)) == c
  {
    var d := Sub(p, total, c);
    Ops(p, total, c);
    Ops(p, total, d);
    CongRefl(p, total);
    CongSub(p, total, total, d, total - c);
    CanonicalUnique(p, Sub(p, total, d), c);
  }

  // ----- extracting a bit -----

  /** The opening two accepting proofs with one first move determine. */
  function ExtractBit(p: int, a: BitProof, totalA: int, b: BitProof, totalB: int): (r: (int, int))
    requires p > 0
    ensures r.0 == 0 || r.0 == 1
  {
    if a.c0 != b.c0 then (0, Quotient(p, a.z0, b.z0, a.c0, b.c0))
    else (1, Quotient(p, a.z1, b.z1, Sub(p, totalA, a.c0), Sub(p, totalB, b.c0)))
  }

  /** Special soundness of a bit leaf: the extracted bit and blinding open the commitment. */
  lemma BitSound(p: int, key: Key, commitment: Point, a: BitProof, totalA: int, b: BitProof, totalB: int)
    requires Prime(p) && IsKey(p, key) && IsPoint(p, commitment)
    requires Canonical(p, a.c0) && Canonical(p, b.c0) && Canonical(p, totalA) && Canonical(p, totalB)
    requires a.t0 == b.t0 && a.t1 == b.t1 && totalA != totalB
    requires BitHolds(p, key, commitment, a, totalA) && BitHolds(p, key, commitment, b, totalB)
    ensures var (bit, r) := ExtractBit(p, a, totalA, b, totalB);
            forall first :: Cong(p, At(commitment, first), bit * At(key.g, first) + r * At(key.h, first))
  {
    var (bit, r) := ExtractBit(p, a, totalA, b, totalB);
    if a.c0 != b.c0 {
      DifferentScalars(p, a.c0, b.c0);
      TwoAnswersOpen(p, key.h, a.t0, commitment, a.z0, b.z0, a.c0, b.c0);
      forall first ensures Cong(p, At(commitment, first), bit * At(key.g, first) + r * At(key.h, first)) {
        PointOps(p, key.h, key.h, r, first);
      }
    } else {
      var ca, cb := Sub(p, totalA, a.c0), Sub(p, totalB, b.c0);
      var shifted := PSub(p, commitment, key.g);
      DifferentAfterSub(p, totalA, totalB, a.c0);
      PointOps(p, commitment, key.g, 0, true);
      TwoAnswersOpen(p, key.h, a.t1, shifted, a.z1, b.z1, ca, cb);
      forall first ensures Cong(p, At(commitment, first), bit * At(key.g, first) + r * At(key.h, first)) {
        PointOps(p, commitment, key.g, 0, first);
        PointOps(p, key.h, key.h, r, first);
        Unshift(p, At(commitment, first), At(key.g, first), At(shifted, first), r * At(key.h, first));
      }
    }
  }

  lemma DifferentScalars(p: int, a: int, b: int)
    requires Canonical(p, a) && Canonical(p, b) && a != b
    ensures !Cong(p, a, b)
  {
    if Cong(p, a, b) { CanonicalUnique(p, a, b); }
  }

  lemma DifferentAfterSub(p: int, a: int, b: int, c: int)
    requires p > 0 && Canonical(p, a) && Canonical(p, b) && a != b
    ensures !Cong(p, Sub(p, a, c), Sub(p, b, c))
  {
    Ops(p, a, c);
    Ops(p, b, c);
    if Cong(p, Sub(p, a, c), Sub(p, b, c)) {
      CongSym(p, Sub(p, a, c), a - c);
      CongRefl(p, c);
      CongAdd(p, a - c, b - c, c, c);
      CanonicalUnique(p, a, b);
    }
  }

  lemma Unshift(p: int, c: int, g: int, shifted: int, rh: int)
    requires p > 0 && Cong(p, shifted, c - g) && Cong(p, shifted, rh)
    ensures Cong(p, c, 1 * g + rh)
  {
    CongSym(p, shifted, c - g);
    CongRefl(p, g);
    CongAdd(p, c - g, rh, g, g);
  }
}
