/**
 Bit-decomposition range proofs and the two-sided interval proof built from them:
 completeness for every value and every draw, and extraction of an opening inside the
 interval (or a relation between the generators) from two accepting proofs.
 */
module BitRange {
  import opened Basics
  import opened BitWidth
  import opened Modular
  import opened Polynomials
  import opened Limbs
  import opened LinearSystem
  import opened Group
  import opened Sigma

  const I64: int := 0x8000_0000_0000_0000

  datatype RangeProof = RangeProof(bitCommitments: seq<Point>, bitProofs: seq<BitProof>, linkage: OpeningProof,
                                   bits: nat)
  datatype BoundedProof = BoundedProof(above: RangeProof, below: RangeProof, bits: nat)

  datatype Error = OutsideRange | WidthExceedsIndex | EmptyInterval | OutsideInterval
  datatype Result<+T> = Ok(value: T) | Err(error: Error)

  // ----- transcripts -----

  function ComponentTranscript(context: string): Transcript {
    [Bytes("new", "qomm:bitrange:v1"), Bytes("context", context)]
  }

  /** The context of one bit; the index has to fit sixteen bits. */
  function BitContext(context: string, index: nat): Option<string> {
    if index > 65535 then None
    else Some(context + ":bit:" + [(index / 256) as char, (index % 256) as char])
  }

  function BitTranscript(context: string, index: nat): Transcript
    requires index <= 65535
  {
    ComponentTranscript(BitContext(context, index).value)
  }

  /** The context of one side of an interval proof. */
  function SideContext(context: string, above: bool): string { context + if above then "|above" else "|below" }

  function LinkTranscript(context: string): Transcript { ComponentTranscript(context + ":link") }

  // ----- what acceptance says -----

  /** The sum of 2^j times the j-th commitment. */
  ghost function Weighted(p: int, cs: seq<Point>): Point
    requires p > 0
  {
    Point(Eval(Column(cs, true), 2) % p, Eval(Column(cs, false), 2) % p)
  }

  lemma WeightedAt(p: int, cs: seq<Point>, first: bool)
    requires p > 0
    ensures IsPoint(p, Weighted(p, cs)) && Cong(p, At(Weighted(p, cs), first), Eval(Column(cs, first), 2))
  {
    CongMod(p, Eval(Column(cs, true), 2));
    CongMod(p, Eval(Column(cs, false), 2));
  }

  ghost predicate RangeAccepts(p: int, key: Key, oracle: Oracle, commitment: Point, proof: RangeProof, context: string)
    requires p > 0
  {
    && |proof.bitCommitments| == proof.bits == |proof.bitProofs| && proof.bits <= 65536
    && (forall i :: 0 <= i < proof.bits ==>
          VerifyBit(p, key, oracle, BitTranscript(context, i), proof.bitCommitments[i], proof.bitProofs[i]))
    && VerifyZeroOpening(p, key, oracle, LinkTranscript(context),
                         PSub(p, commitment, Weighted(p, proof.bitCommitments)), proof.linkage)
  }

  /** The weighted sum, doubling the weight each time. */
  method Aggregate(p: int, cs: seq<Point>) returns (aggregate: Point)
    requires p > 0
    ensures aggregate == Weighted(p, cs)
  {
    aggregate := IDENTITY;
    var weight := 1 % p;
    CongMod(p, 1);
    CongRefl(p, 0);
    ghost var xs, ys := Column(cs, true), Column(cs, false);
    assert forall first :: Cong(p, At(aggregate, first), Eval(Column(cs, first)[..0], 2));
    hide Cong;
    for j := 0 to |cs|
      invariant IsPoint(p, aggregate) && Cong(p, weight, Power(2, j))
      invariant forall first :: Cong(p, At(aggregate, first), Eval(Column(cs, first)[..j], 2))
    {
      var next := PAdd(p, aggregate, PScale(p, cs[j], weight));
      forall first ensures Cong(p, At(next, first), Eval(Column(cs, first)[..j + 1], 2)) && IsPoint(p, next) {
        WeightedStep(p, aggregate, cs[j], weight, Eval(Column(cs, first)[..j], 2), Power(2, j), first);
        EvalPrefixStep(Column(cs, first), j, 2);
      }
      assert IsPoint(p, next) by { PointOps(p, aggregate, PScale(p, cs[j], weight), 0, true); }
      aggregate := next;
      Ops(p, weight, weight);
      CongAdd(p, weight, Power(2, j), weight, Power(2, j));
      CongTrans(p, Add(p, weight, weight), weight + weight, Power(2, j + 1));
      weight := Add(p, weight, weight);
    }
    assert xs[..|cs|] == xs && ys[..|cs|] == ys;
    forall first ensures Cong(p, At(aggregate, first), At(Weighted(p, cs), first)) {
      assert Column(cs, first)[..|cs|] == Column(cs, first);
      WeightedAt(p, cs, first);
      CongSym(p, At(Weighted(p, cs), first), Eval(Column(cs, first), 2));
      CongTrans(p, At(aggregate, first), Eval(Column(cs, first), 2), At(Weighted(p, cs), first));
    }
    WeightedAt(p, cs, true);
    SamePoint(p, aggregate, Weighted(p, cs));
  }

  lemma WeightedStep(p: int, aggregate: Point, c: Point, weight: int, e: int, w: int, first: bool)
    requires p > 0 && Cong(p, At(aggregate, first), e) && Cong(p, weight, w)
    ensures IsPoint(p, PAdd(p, aggregate, PScale(p, c, weight)))
    ensures Cong(p, At(PAdd(p, aggregate, PScale(p, c, weight)), first), e + At(c, first) * w)
  {
    hide Cong, PAdd, PScale, IsPoint;
    var s := PScale(p, c, weight);
    PointOps(p, c, c, weight, first);
    PointOps(p, aggregate, s, 0, first);
    CongRefl(p, At(c, first));
    CongMul(p, weight, w, At(c, first), At(c, first));
    CongTrans(p, At(s, first), weight * At(c, first), w * At(c, first));
    CongAdd(p, At(aggregate, first), e, At(s, first), w * At(c, first));
    CongTrans(p, At(PAdd(p, aggregate, s), first), At(aggregate, first) + At(s, first), e + w * At(c, first));
    assert w * At(c, first) == At(c, first) * w;
  }

  method VerifyRange(p: int, key: Key, oracle: Oracle, commitment: Point, proof: RangeProof, context: string)
    returns (ok: bool)
    requires p > 0
    ensures ok <==> RangeAccepts(p, key, oracle, commitment, proof, context)
  {
    if |proof.bitCommitments| != proof.bits || |proof.bitProofs| != proof.bits { return false; }
    for i := 0 to proof.bits
      invariant i <= 65536
      invariant forall k :: 0 <= k < i ==>
                  VerifyBit(p, key, oracle, BitTranscript(context, k), proof.bitCommitments[k], proof.bitProofs[k])
    {
      var derived := BitContext(context, i);
      if derived.None? { return false; }
      if !VerifyBit(p, key, oracle, ComponentTranscript(derived.value), proof.bitCommitments[i], proof.bitProofs[i]) {
        assert !VerifyBit(p, key, oracle, BitTranscript(context, i), proof.bitCommitments[i], proof.bitProofs[i]);
        return false;
      }
    }
    var aggregate := Aggregate(p, proof.bitCommitments);
    ok := VerifyZeroOpening(p, key, oracle, LinkTranscript(context), PSub(p, commitment, aggregate), proof.linkage);
  }

  // ----- linear combinations of commitments -----

  /** Every commitment opens to its bit and blinding, in one coordinate. */
  ghost predicate OpensTo(p: int, cs: seq<int>, bits: seq<int>, rs: seq<int>, g: int, h: int) {
    && |cs| == |bits| == |rs|
    && forall i :: 0 <= i < |cs| ==> Cong(p, cs[i], bits[i] * g + rs[i] * h)
  }

  lemma {:induction false} WeightedOpens(p: int, cs: seq<int>, bits: seq<int>, rs: seq<int>, g: int, h: int)
    requires p > 0 && OpensTo(p, cs, bits, rs, g, h)
    ensures Cong(p, Eval(cs, 2), Eval(bits, 2) * g + Eval(rs, 2) * h)
  {
    hide Cong;
    if cs == [] {
      CongRefl(p, 0);
      assert 0 * g + 0 * h == 0;
    } else {
      assert OpensTo(p, cs[1..], bits[1..], rs[1..], g, h) by {
        forall i | 0 <= i < |cs| - 1 ensures Cong(p, cs[1..][i], bits[1..][i] * g + rs[1..][i] * h) {
          assert Cong(p, cs[i + 1], bits[i + 1] * g + rs[i + 1] * h);
        }
      }
      WeightedOpens(p, cs[1..], bits[1..], rs[1..], g, h);
      var v, r := Eval(bits[1..], 2), Eval(rs[1..], 2);
      CongScale(p, 2, Eval(cs[1..], 2), v * g + r * h);
      CongAdd(p, cs[0], bits[0] * g + rs[0] * h, 2 * Eval(cs[1..], 2), 2 * (v * g + r * h));
      OpensRing(bits[0], rs[0], v, r, g, h);
    }
  }

  lemma OpensRing(b: int, s: int, v: int, r: int, g: int, h: int)
    ensures b * g + s * h + 2 * (v * g + r * h) == (b + 2 * v) * g + (s + 2 * r) * h
  {}

  // ----- extraction from a range proof -----

  /** The two proofs answer one first move. */
  ghost predicate SameFirstMoves(a: RangeProof, b: RangeProof) {
    && a.bitCommitments == b.bitCommitments && a.bits == b.bits && |a.bitProofs| == |b.bitProofs|
    && (forall i :: 0 <= i < |a.bitProofs| ==>
        a.bitProofs[i].t0 == b.bitProofs[i].t0 && a.bitProofs[i].t1 == b.bitProofs[i].t1)
    && a.linkage.t == b.linkage.t
  }

  function LeafChallenge(p: int, oracle: Oracle, proof: RangeProof, context: string, i: nat): int
    requires p > 0 && i < |proof.bitProofs| && i < |proof.bitCommitments| && i <= 65535
  {
    BitChallenge(p, oracle, BitTranscript(context, i), proof.bitCommitments[i], proof.bitProofs[i].t0,
                 proof.bitProofs[i].t1)
  }

  ghost function LinkChallenge(p: int, oracle: Oracle, commitment: Point, proof: RangeProof, context: string): int
    requires p > 0
  {
    ZeroChallenge(p, oracle, LinkTranscript(context), PSub(p, commitment, Weighted(p, proof.bitCommitments)),
                  proof.linkage.t)
  }

  /** The two oracles answer every leaf and the linkage differently. */
  ghost predicate ChallengesDiffer(p: int, oracleA: Oracle, oracleB: Oracle, commitment: Point, proof: RangeProof,
                                   context: string)
    requires p > 0 && |proof.bitCommitments| == |proof.bitProofs| <= 65536
  {
    && (forall i :: 0 <= i < |proof.bitProofs| ==>
          LeafChallenge(p, oracleA, proof, context, i) != LeafChallenge(p, oracleB, proof, context, i))
    && LinkChallenge(p, oracleA, commitment, proof, context) != LinkChallenge(p, oracleB, commitment, proof, context)
  }

  ghost predicate WellTyped(p: int, proof: RangeProof) {
    && ArePoints(p, proof.bitCommitments)
    && forall i :: 0 <= i < |proof.bitProofs| ==> Canonical(p, proof.bitProofs[i].c0)
  }

  function ExtractLeaf(p: int, oracleA: Oracle, a: RangeProof, oracleB: Oracle, b: RangeProof, context: string,
                       i: nat): (int, int)
    requires p > 0 && i < |a.bitProofs| && i < |a.bitCommitments| && i < |b.bitProofs| && i < |b.bitCommitments|
             && i <= 65535
  {
    ExtractBit(p, a.bitProofs[i], LeafChallenge(p, oracleA, a, context, i), b.bitProofs[i],
               LeafChallenge(p, oracleB, b, context, i))
  }

  ghost predicate Comparable(a: RangeProof, b: RangeProof) {
    |a.bitProofs| == |a.bitCommitments| == |b.bitProofs| == |b.bitCommitments| <= 65536
  }

  ghost function ExtractedBits(p: int, oracleA: Oracle, a: RangeProof, oracleB: Oracle, b: RangeProof,
                               context: string): (r: seq<int>)
    requires p > 0 && Comparable(a, b)
    ensures |r| == |a.bitProofs|
  {
    seq(|a.bitProofs|, i requires 0 <= i < |a.bitProofs| => ExtractLeaf(p, oracleA, a, oracleB, b, context, i).0)
  }

  ghost function ExtractedBlindings(p: int, oracleA: Oracle, a: RangeProof, oracleB: Oracle, b: RangeProof,
                                    context: string): (r: seq<int>)
    requires p > 0 && Comparable(a, b)
    ensures |r| == |a.bitProofs|
  {
    seq(|a.bitProofs|, i requires 0 <= i < |a.bitProofs| => ExtractLeaf(p, oracleA, a, oracleB, b, context, i).1)
  }

  /** The value and blinding computed from two answers to one first move. */
  ghost function ExtractRange(p: int, oracleA: Oracle, a: RangeProof, oracleB: Oracle, b: RangeProof,
                              commitment: Point, context: string): (int, int)
    requires p > 0 && Comparable(a, b)
  {
    var link := Quotient(p, a.linkage.zBlinding, b.linkage.zBlinding,
                         LinkChallenge(p, oracleA, commitment, a, context),
                         LinkChallenge(p, oracleB, commitment, b, context));
    (Eval(ExtractedBits(p, oracleA, a, oracleB, b, context), 2),
     link + Eval(ExtractedBlindings(p, oracleA, a, oracleB, b, context), 2))
  }

  lemma LeavesOpen(p: int, key: Key, oracleA: Oracle, a: RangeProof, oracleB: Oracle, b: RangeProof, commitment: Point,
                   context: string, first: bool)
    requires Prime(p) && IsKey(p, key) && WellTyped(p, a) && WellTyped(p, b)
    requires RangeAccepts(p, key, oracleA, commitment, a, context)
             && RangeAccepts(p, key, oracleB, commitment, b, context)
    requires SameFirstMoves(a, b) && ChallengesDiffer(p, oracleA, oracleB, commitment, a, context)
    ensures OpensTo(p, Column(a.bitCommitments, first), ExtractedBits(p, oracleA, a, oracleB, b, context),
                    ExtractedBlindings(p, oracleA, a, oracleB, b, context), At(key.g, first), At(key.h, first))
  {
    hide Cong, VerifyBit, ExtractLeaf, LeafChallenge, Prime, VerifyZeroOpening;
    forall i | 0 <= i < a.bits
      ensures var (bit, r) := ExtractLeaf(p, oracleA, a, oracleB, b, context, i);
              Cong(p, At(a.bitCommitments[i], first), bit * At(key.g, first) + r * At(key.h, first))
    {
      LeafOpens(p, key, oracleA, a, oracleB, b, context, i, first);
    }
  }

  lemma LeafOpens(p: int, key: Key, oracleA: Oracle, a: RangeProof, oracleB: Oracle, b: RangeProof, context: string,
                  i: nat, first: bool)
    requires Prime(p) && IsKey(p, key) && Comparable(a, b) && i < |a.bitProofs|
    requires a.bitCommitments[i] == b.bitCommitments[i] && IsPoint(p, a.bitCommitments[i])
    requires Canonical(p, a.bitProofs[i].c0) && Canonical(p, b.bitProofs[i].c0)
    requires a.bitProofs[i].t0 == b.bitProofs[i].t0 && a.bitProofs[i].t1 == b.bitProofs[i].t1
    requires VerifyBit(p, key, oracleA, BitTranscript(context, i), a.bitCommitments[i], a.bitProofs[i])
    requires VerifyBit(p, key, oracleB, BitTranscript(context, i), b.bitCommitments[i], b.bitProofs[i])
    requires LeafChallenge(p, oracleA, a, context, i) != LeafChallenge(p, oracleB, a, context, i)
    ensures var (bit, r) := ExtractLeaf(p, oracleA, a, oracleB, b, context, i);
            Cong(p, At(a.bitCommitments[i], first), bit * At(key.g, first) + r * At(key.h, first))
  {
    var ta, tb := LeafChallenge(p, oracleA, a, context, i), LeafChallenge(p, oracleB, b, context, i);
    LeafCanonical(p, oracleA, a, context, i);
    LeafCanonical(p, oracleB, b, context, i);
    assert BitHolds(p, key, a.bitCommitments[i], a.bitProofs[i], ta);
    assert BitHolds(p, key, b.bitCommitments[i], b.bitProofs[i], tb);
    hide Cong, BitHolds, ExtractBit, Prime, LeafChallenge, VerifyBit;
    BitSound(p, key, a.bitCommitments[i], a.bitProofs[i], ta, b.bitProofs[i], tb);
  }

  lemma LeafCanonical(p: int, oracle: Oracle, proof: RangeProof, context: string, i: nat)
    requires p > 0 && i < |proof.bitProofs| && i < |proof.bitCommitments| && i <= 65535
    ensures Canonical(p, LeafChallenge(p, oracle, proof, context, i))
  {
    var tr := BitTranscript(context, i);
    ChallengeCanonical(p, oracle,
                       tr + [Bytes("dom", "qomm/bit"), Pt("C", proof.bitCommitments[i]),
                             Pt("T0", proof.bitProofs[i].t0), Pt("T1", proof.bitProofs[i].t1)], "c");
  }

  /** The linkage makes the commitment the weighted sum of the bits, up to a multiple of h. */
  lemma LinkOpens(p: int, key: Key, oracleA: Oracle, a: RangeProof, oracleB: Oracle, b: RangeProof, commitment: Point,
                  context: string, first: bool)
    returns (link: int)
    requires Prime(p) && IsKey(p, key) && IsPoint(p, commitment)
    requires RangeAccepts(p, key, oracleA, commitment, a, context)
             && RangeAccepts(p, key, oracleB, commitment, b, context)
    requires SameFirstMoves(a, b)
    requires LinkChallenge(p, oracleA, commitment, a, context) != LinkChallenge(p, oracleB, commitment, a, context)
    ensures Comparable(a, b)
    ensures ExtractRange(p, oracleA, a, oracleB, b, commitment, context).1
            == link + Eval(ExtractedBlindings(p, oracleA, a, oracleB, b, context), 2)
    ensures Cong(p, At(commitment, first), Eval(Column(a.bitCommitments, first), 2) + link * At(key.h, first))
  {
    hide Cong, Eval, VerifyBit, VerifyZeroOpening, Quotient, LinkChallenge, Weighted, PSub, PScale, PAdd, Prime;
    assert p > 0 by { assert Prime(p); }
    var w := Weighted(p, a.bitCommitments);
    var residual := PSub(p, commitment, w);
    var ca, cb := LinkChallenge(p, oracleA, commitment, a, context), LinkChallenge(p, oracleB, commitment, b, context);
    link := Quotient(p, a.linkage.zBlinding, b.linkage.zBlinding, ca, cb);
    LinkAnswer(p, key, oracleA, a, commitment, context);
    LinkAnswer(p, key, oracleB, b, commitment, context);
    SameLink(p, oracleB, commitment, a, b, context);
    DifferentScalars(p, ca, cb);
    PointOps(p, commitment, w, 0, first);
    TwoAnswersOpen(p, key.h, a.linkage.t, residual, a.linkage.zBlinding, b.linkage.zBlinding, ca, cb);
    PointOps(p, key.h, key.h, link, first);
    WeightedAt(p, a.bitCommitments, first);
    Relink(p, At(commitment, first), At(w, first), Eval(Column(a.bitCommitments, first), 2), At(residual, first),
           link * At(key.h, first));
  }

  /** The accepted linkage as the equation of its residual. */
  lemma LinkAnswer(p: int, key: Key, oracle: Oracle, proof: RangeProof, commitment: Point, context: string)
    requires p > 0 && RangeAccepts(p, key, oracle, commitment, proof, context)
    ensures var c := LinkChallenge(p, oracle, commitment, proof, context);
            && Canonical(p, c)
            && PScale(p, key.h, proof.linkage.zBlinding)
               == PAdd(p, proof.linkage.t,
                       PScale(p, PSub(p, commitment, Weighted(p, proof.bitCommitments)), c))
  {
    hide VerifyBit, VerifyOpening, Weighted, PSub, PScale, PAdd, ZeroChallenge;
    LinkCanonical(p, oracle, commitment, proof, context);
    ZeroOpeningEquation(p, key, oracle, LinkTranscript(context),
                        PSub(p, commitment, Weighted(p, proof.bitCommitments)), proof.linkage);
  }

  lemma SameLink(p: int, oracle: Oracle, commitment: Point, a: RangeProof, b: RangeProof, context: string)
    requires p > 0 && SameFirstMoves(a, b)
    ensures LinkChallenge(p, oracle, commitment, a, context) == LinkChallenge(p, oracle, commitment, b, context)
  {}

  lemma LinkCanonical(p: int, oracle: Oracle, commitment: Point, proof: RangeProof, context: string)
    requires p > 0
    ensures Canonical(p, LinkChallenge(p, oracle, commitment, proof, context))
  {
    var residual := PSub(p, commitment, Weighted(p, proof.bitCommitments));
    ChallengeCanonical(p, oracle,
                       ZeroRelation(LinkTranscript(context))
                           + [Bytes("dom", "qomm/opening"), Pt("C", residual), Pt("T", proof.linkage.t)], "c");
  }

  lemma Relink(p: int, c: int, w: int, e: int, residual: int, lh: int)
    requires p > 0 && Cong(p, w, e) && Cong(p, residual, c - w) && Cong(p, residual, lh)
    ensures Cong(p, c, e + lh)
  {
    hide Cong;
    CongSym(p, residual, c - w);
    CongTrans(p, c - w, residual, lh);
    CongAdd(p, w, e, c - w, lh);
  }

  /** Special soundness of a range proof: an opening to an integer of the claimed width. */
  lemma RangeSound(p: int, key: Key, oracleA: Oracle, a: RangeProof, oracleB: Oracle, b: RangeProof, commitment: Point,
                   context: string)
    requires Prime(p) && IsKey(p, key) && IsPoint(p, commitment) && WellTyped(p, a) && WellTyped(p, b)
    requires RangeAccepts(p, key, oracleA, commitment, a, context)
             && RangeAccepts(p, key, oracleB, commitment, b, context)
    requires SameFirstMoves(a, b) && ChallengesDiffer(p, oracleA, oracleB, commitment, a, context)
    ensures var (v, r) := ExtractRange(p, oracleA, a, oracleB, b, commitment, context);
            0 <= v < Power(2, a.bits) && Commit(p, key, v, r) == commitment
  {
    hide Cong, ExtractRange, ChallengesDiffer, VerifyBit, VerifyZeroOpening, Commit, Power, WellTyped, IsKey;
    ExtractedBound(p, oracleA, a, oracleB, b, commitment, context);
    var (v, r) := ExtractRange(p, oracleA, a, oracleB, b, commitment, context);
    forall first ensures Cong(p, At(commitment, first), v * At(key.g, first) + r * At(key.h, first)) {
      var _ := RangeCoordinate(p, key, oracleA, a, oracleB, b, commitment, context, first);
    }
    OpenedBy(p, key, commitment, v, r);
  }

  lemma ExtractedBound(p: int, oracleA: Oracle, a: RangeProof, oracleB: Oracle, b: RangeProof, commitment: Point,
                       context: string)
    requires p > 0 && Comparable(a, b)
    ensures 0 <= ExtractRange(p, oracleA, a, oracleB, b, commitment, context).0 < Power(2, |a.bitProofs|)
  {
    ValBound(2, ExtractedBits(p, oracleA, a, oracleB, b, context));
  }

  lemma RangeCoordinate(p: int, key: Key, oracleA: Oracle, a: RangeProof, oracleB: Oracle, b: RangeProof,
                        commitment: Point, context: string, first: bool)
    returns (combined: int)
    requires Prime(p) && IsKey(p, key) && IsPoint(p, commitment) && WellTyped(p, a) && WellTyped(p, b)
    requires RangeAccepts(p, key, oracleA, commitment, a, context)
             && RangeAccepts(p, key, oracleB, commitment, b, context)
    requires SameFirstMoves(a, b) && ChallengesDiffer(p, oracleA, oracleB, commitment, a, context)
    ensures var (v, r) := ExtractRange(p, oracleA, a, oracleB, b, commitment, context);
            combined == v * At(key.g, first) + r * At(key.h, first)
    ensures Cong(p, At(commitment, first), combined)
  {
    hide Cong, Dot, Eval, VerifyBit, VerifyZeroOpening, LeafChallenge, LinkChallenge, Quotient, OpensTo, ExtractLeaf,
         Weighted, PSub, At,
         BitTranscript, LinkTranscript, WellTyped, IsKey, IsPoint;
    var bits, rs := ExtractedBits(p, oracleA, a, oracleB, b, context),
        ExtractedBlindings(p, oracleA, a, oracleB, b, context);
    LeavesOpen(p, key, oracleA, a, oracleB, b, commitment, context, first);
    var link := LinkOpens(p, key, oracleA, a, oracleB, b, commitment, context, first);
    combined := BitsAndLink(p, Column(a.bitCommitments, first), bits, rs, At(commitment, first), link,
                            At(key.g, first), At(key.h, first));
  }

  lemma BitsAndLink(p: int, cs: seq<int>, bits: seq<int>, rs: seq<int>, c: int, link: int, g: int, h: int)
    returns (combined: int)
    requires p > 0 && |cs| == |bits| == |rs| && OpensTo(p, cs, bits, rs, g, h) && Cong(p, c, Eval(cs, 2) + link * h)
    ensures combined == Eval(bits, 2) * g + (link + Eval(rs, 2)) * h && Cong(p, c, combined)
  {
    hide Cong, OpensTo, Eval;
    WeightedOpens(p, cs, bits, rs, g, h);
    combined := AddLink(p, c, Eval(cs, 2), Eval(bits, 2), Eval(rs, 2), link, g, h);
  }

  lemma AddLink(p: int, c: int, e: int, v: int, s: int, link: int, g: int, h: int) returns (combined: int)
    requires p > 0 && Cong(p, e, v * g + s * h) && Cong(p, c, e + link * h)
    ensures combined == v * g + (link + s) * h && Cong(p, c, combined)
  {
    hide Cong;
    combined := v * g + (link + s) * h;
    CongRefl(p, link * h);
    CongAdd(p, e, v * g + s * h, link * h, link * h);
    CongTrans(p, c, e + link * h, v * g + s * h + link * h);
    LinkRing(v, s, link, g, h);
  }

  lemma LinkRing(v: int, s: int, link: int, g: int, h: int)
    ensures v * g + s * h + link * h == v * g + (link + s) * h
  {}

  // ----- the two-sided interval -----

  function IntervalBits(span: nat): nat { if BitLength(span) == 0 then 1 else BitLength(span) }

  /** The width holds the span, and no smaller width of at least one bit does. */
  ghost predicate LeastWidth(span: int, bits: nat) {
    1 <= bits && span < Power(2, bits) && (bits == 1 || Power(2, bits - 1) <= span)
  }

  lemma IntervalBitsBound(span: nat)
    requires span < U64
    ensures LeastWidth(span, IntervalBits(span))
    ensures Power(2, IntervalBits(span)) <= U64 && IntervalBits(span) <= 64
  {
    BitLengthBound(span);
    TwoToTheWord();
    if IntervalBits(span) > 64 { PowerMonotone(2, 64, BitLength(span) - 1); }
    PowerMonotone(2, IntervalBits(span), 64);
  }

  lemma TwoToTheWord()
    ensures Power(2, 64) == U64
  {
    assert Power(2, 8) == 256;
    PowerAdd(2, 8, 8);
    PowerAdd(2, 16, 16);
    PowerAdd(2, 32, 32);
  }

  predicate IsI64(v: int) { -I64 <= v < I64 }

  function ShiftCommitment(p: int, key: Key, commitment: Point, low: int): Point
    requires p > 0
  {
    PSub(p, commitment, PScale(p, key.g, low % p))
  }

  function BelowCommitment(p: int, key: Key, commitment: Point, high: int): Point
    requires p > 0
  {
    PSub(p, Commit(p, key, high % p, 0), commitment)
  }

  ghost predicate BoundedAccepts(p: int, key: Key, oracle: Oracle, commitment: Point, proof: BoundedProof, low: int,
                                 high: int, context: string)
    requires p > 0
  {
    && low <= high
    && proof.bits == proof.above.bits == proof.below.bits == IntervalBits(high - low)
    && RangeAccepts(p, key, oracle, ShiftCommitment(p, key, commitment, low), proof.above, SideContext(context, true))
    && RangeAccepts(p, key, oracle, BelowCommitment(p, key, commitment, high), proof.below, SideContext(context, false))
  }

  method VerifyBounded(p: int, key: Key, oracle: Oracle, commitment: Point, proof: BoundedProof, low: int, high: int,
                       context: string)
    returns (ok: bool)
    requires p > 0 && IsI64(low) && IsI64(high)
    ensures ok <==> BoundedAccepts(p, key, oracle, commitment, proof, low, high, context)
    ensures ok ==> low <= high && LeastWidth(high - low, proof.above.bits) && LeastWidth(high - low, proof.below.bits)
                   && proof.bits == proof.above.bits == proof.below.bits
  {
    hide RangeAccepts;
    var span := high - low;
    if span < 0 { return false; }
    var bits := IntervalBits(span);
    IntervalBitsBound(span);
    if proof.bits != bits { return false; }
    if proof.above.bits != bits || proof.below.bits != bits { return false; }
    var above := VerifyRange(p, key, oracle, ShiftCommitment(p, key, commitment, low), proof.above,
                             SideContext(context, true));
    if !above { return false; }
    ok := VerifyRange(p, key, oracle, BelowCommitment(p, key, commitment, high), proof.below,
                      SideContext(context, false));
  }

  lemma ShiftedAt(p: int, key: Key, commitment: Point, low: int, high: int, first: bool)
    requires p > 0
    ensures IsPoint(p, ShiftCommitment(p, key, commitment, low))
            && IsPoint(p, BelowCommitment(p, key, commitment, high))
    ensures Cong(p, At(ShiftCommitment(p, key, commitment, low), first), At(commitment, first) - low * At(key.g, first))
    ensures Cong(p, At(BelowCommitment(p, key, commitment, high), first),
                 high * At(key.g, first) - At(commitment, first))
  {
    var g, c := At(key.g, first), At(commitment, first);
    var l, u := PScale(p, key.g, low % p), Commit(p, key, high % p, 0);
    CongMod(p, low);
    CongMod(p, high);
    PointOps(p, key.g, key.g, low % p, first);
    PointOps(p, commitment, l, 0, first);
    CommitAt(p, key, high % p, 0, first);
    PointOps(p, u, commitment, 0, first);
    assert 0 * At(key.h, first) == 0;
    hide Cong, PSub, PScale, Commit;
    CongRefl(p, g);
    CongRefl(p, c);
    CongMul(p, low % p, low, g, g);
    CongTrans(p, At(l, first), (low % p) * g, low * g);
    CongSub(p, c, c, At(l, first), low * g);
    CongTrans(p, At(PSub(p, commitment, l), first), c - At(l, first), c - low * g);
    CongMul(p, high % p, high, g, g);
    CongTrans(p, At(u, first), (high % p) * g, high * g);
    CongSub(p, At(u, first), high * g, c, c);
    CongTrans(p, At(PSub(p, u, commitment), first), At(u, first) - c, high * g - c);
  }

  /** What two accepting proofs yield: an opening, or a relation between the generators. */
  datatype Extracted = Opening(value: int, blinding: int) | Relation(a: int, b: int)

  ghost function Above(p: int, key: Key, oracleA: Oracle, a: BoundedProof, oracleB: Oracle, b: BoundedProof,
                       commitment: Point, low: int, context: string): (int, int)
    requires p > 0 && Comparable(a.above, b.above)
  {
    ExtractRange(p, oracleA, a.above, oracleB, b.above, ShiftCommitment(p, key, commitment, low),
                 SideContext(context, true))
  }

  ghost function Below(p: int, key: Key, oracleA: Oracle, a: BoundedProof, oracleB: Oracle, b: BoundedProof,
                       commitment: Point, high: int, context: string): (int, int)
    requires p > 0 && Comparable(a.below, b.below)
  {
    ExtractRange(p, oracleA, a.below, oracleB, b.below, BelowCommitment(p, key, commitment, high),
                 SideContext(context, false))
  }

  ghost function ExtractBounded(p: int, key: Key, oracleA: Oracle, a: BoundedProof, oracleB: Oracle, b: BoundedProof,
                                commitment: Point, low: int, high: int, context: string): Extracted
    requires p > 0 && Comparable(a.above, b.above) && Comparable(a.below, b.below)
  {
    var (u, r) := Above(p, key, oracleA, a, oracleB, b, commitment, low, context);
    var (v, s) := Below(p, key, oracleA, a, oracleB, b, commitment, high, context);
    Verdict(p, low, high, u, r, v, s)
  }

  /** The two sides add up to the span, or their difference is a relation. */
  ghost function Verdict(p: int, low: int, high: int, u: int, r: int, v: int, s: int): Extracted
    requires p > 0
  {
    if u + v == high - low && (r + s) % p == 0 then Opening(low + u, r) else Relation(u + v - (high - low), r + s)
  }

  /** Both proofs answer one first move with different challenges at every leaf and linkage. */
  ghost predicate Forked(p: int, key: Key, oracleA: Oracle, a: BoundedProof, oracleB: Oracle, b: BoundedProof,
                         commitment: Point, low: int, high: int, context: string)
    requires p > 0
  {
    && WellTyped(p, a.above) && WellTyped(p, b.above) && WellTyped(p, a.below) && WellTyped(p, b.below)
    && Comparable(a.above, b.above) && SameFirstMoves(a.above, b.above)
    && Comparable(a.below, b.below) && SameFirstMoves(a.below, b.below)
    && ChallengesDiffer(p, oracleA, oracleB, ShiftCommitment(p, key, commitment, low), a.above,
                        SideContext(context, true))
    && ChallengesDiffer(p, oracleA, oracleB, BelowCommitment(p, key, commitment, high), a.below,
                        SideContext(context, false))
  }

  /** An opening inside the interval, or a non-trivial relation between g and h. */
  ghost predicate Convincing(p: int, key: Key, commitment: Point, low: int, high: int, e: Extracted)
    requires p > 0
  {
    match e
    case Opening(value, blinding) => low <= value <= high && Commit(p, key, value, blinding) == commitment
    case Relation(a, b) => IsRelation(p, key, a, b)
  }

  /**
   Special soundness of the interval proof.  Both sides have the interval's own width, so
   their two values add up to less than the group order and cannot wrap: they add to exactly
   high - low, or the difference is a relation between the generators.
   */
  lemma BoundedSound(p: int, key: Key, oracleA: Oracle, a: BoundedProof, oracleB: Oracle, b: BoundedProof,
                     commitment: Point, low: int, high: int, context: string)
    requires Prime(p) && p > 2 * U64 && IsKey(p, key) && IsPoint(p, commitment) && IsI64(low) && IsI64(high)
    requires BoundedAccepts(p, key, oracleA, commitment, a, low, high, context)
    requires BoundedAccepts(p, key, oracleB, commitment, b, low, high, context)
    requires Forked(p, key, oracleA, a, oracleB, b, commitment, low, high, context)
    ensures Convincing(p, key, commitment, low, high,
                       ExtractBounded(p, key, oracleA, a, oracleB, b, commitment, low, high, context))
  {
    assert p > 0 && Comparable(a.above, b.above) && Comparable(a.below, b.below) && low <= high;
    var above, below := Above(p, key, oracleA, a, oracleB, b, commitment, low, context),
        Below(p, key, oracleA, a, oracleB, b, commitment, high, context);
    assert ExtractBounded(p, key, oracleA, a, oracleB, b, commitment, low, high, context)
           == Verdict(p, low, high, above.0, above.1, below.0, below.1);
    hide *;
    SidesSound(p, key, oracleA, a, oracleB, b, commitment, low, high, context);
    Conclude(p, key, commitment, low, high, above.0, above.1, below.0, below.1);
  }

  lemma SidesSound(p: int, key: Key, oracleA: Oracle, a: BoundedProof, oracleB: Oracle, b: BoundedProof,
                   commitment: Point, low: int, high: int, context: string)
    requires Prime(p) && IsKey(p, key) && IsPoint(p, commitment) && IsI64(low) && IsI64(high)
    requires BoundedAccepts(p, key, oracleA, commitment, a, low, high, context)
    requires BoundedAccepts(p, key, oracleB, commitment, b, low, high, context)
    requires Forked(p, key, oracleA, a, oracleB, b, commitment, low, high, context)
    ensures 0 <= high - low < U64
    ensures var above := Above(p, key, oracleA, a, oracleB, b, commitment, low, context);
            0 <= above.0 < U64 && Commit(p, key, above.0, above.1) == ShiftCommitment(p, key, commitment, low)
    ensures var below := Below(p, key, oracleA, a, oracleB, b, commitment, high, context);
            0 <= below.0 < U64 && Commit(p, key, below.0, below.1) == BelowCommitment(p, key, commitment, high)
  {
    hide Cong, ShiftCommitment, BelowCommitment, RangeAccepts, ExtractRange, ChallengesDiffer, SameFirstMoves, Commit,
         IntervalBits, Power, SideContext, WellTyped, Comparable, IsKey, IsPoint;
    ShiftedAt(p, key, commitment, low, high, true);
    IntervalBitsBound(high - low);
    RangeSound(p, key, oracleA, a.above, oracleB, b.above, ShiftCommitment(p, key, commitment, low),
               SideContext(context, true));
    RangeSound(p, key, oracleA, a.below, oracleB, b.below, BelowCommitment(p, key, commitment, high),
               SideContext(context, false));
  }

  lemma BothSides(p: int, c: int, up: int, down: int, low: int, high: int, u: int, r: int, v: int, s: int, g: int,
                  h: int)
    requires p > 0 && Cong(p, up, c - low * g) && Cong(p, down, high * g - c)
    requires Cong(p, up, u * g + r * h) && Cong(p, down, v * g + s * h)
    ensures Cong(p, c, (low + u) * g + r * h)
    ensures Cong(p, 0, (u + v - (high - low)) * g + (r + s) * h)
  {
    hide Cong;
    CongSym(p, up, c - low * g);
    CongTrans(p, c - low * g, up, u * g + r * h);
    CongSym(p, down, high * g - c);
    CongTrans(p, high * g - c, down, v * g + s * h);
    CongRefl(p, low * g);
    CongAdd(p, c - low * g, u * g + r * h, low * g, low * g);
    CongAdd(p, c - low * g, u * g + r * h, high * g - c, v * g + s * h);
    CongRefl(p, (high - low) * g);
    CongSub(p, c - low * g + (high * g - c), u * g + r * h + (v * g + s * h), (high - low) * g, (high - low) * g);
    SidesRing(c, low, high, u, r, v, s, g, h);
  }

  lemma SidesRing(c: int, low: int, high: int, u: int, r: int, v: int, s: int, g: int, h: int)
    ensures u * g + r * h + low * g == (low + u) * g + r * h
    ensures c - low * g + (high * g - c) - (high - low) * g == 0
    ensures u * g + r * h + (v * g + s * h) - (high - low) * g == (u + v - (high - low)) * g + (r + s) * h
  {}

  lemma Conclude(p: int, key: Key, commitment: Point, low: int, high: int, u: int, r: int, v: int, s: int)
    requires Prime(p) && p > 2 * U64 && IsPoint(p, commitment) && 0 <= high - low < U64
    requires 0 <= u < U64 && 0 <= v < U64
    requires ShiftCommitment(p, key, commitment, low) == Commit(p, key, u, r)
    requires BelowCommitment(p, key, commitment, high) == Commit(p, key, v, s)
    ensures Convincing(p, key, commitment, low, high, Verdict(p, low, high, u, r, v, s))
  {
    var a, b := u + v - (high - low), r + s;
    NonTrivial(p, a, b);
    hide Cong, Commit, ShiftCommitment, BelowCommitment, Prime;
    forall first
      ensures Cong(p, At(commitment, first), (low + u) * At(key.g, first) + r * At(key.h, first))
      ensures Cong(p, At(IDENTITY, first), a * At(key.g, first) + b * At(key.h, first))
    {
      SidesAt(p, key, commitment, low, high, u, r, v, s, first);
    }
    OpenedBy(p, key, commitment, low + u, r);
    OpenedBy(p, key, IDENTITY, a, b);
  }

  lemma SidesAt(p: int, key: Key, commitment: Point, low: int, high: int, u: int, r: int, v: int, s: int, first: bool)
    requires p > 0
    requires ShiftCommitment(p, key, commitment, low) == Commit(p, key, u, r)
    requires BelowCommitment(p, key, commitment, high) == Commit(p, key, v, s)
    ensures Cong(p, At(commitment, first), (low + u) * At(key.g, first) + r * At(key.h, first))
    ensures Cong(p, At(IDENTITY, first), (u + v - (high - low)) * At(key.g, first) + (r + s) * At(key.h, first))
  {
    ShiftedAt(p, key, commitment, low, high, first);
    CommitAt(p, key, u, r, first);
    CommitAt(p, key, v, s, first);
    hide Cong, Commit, ShiftCommitment, BelowCommitment;
    BothSides(p, At(commitment, first), At(Commit(p, key, u, r), first), At(Commit(p, key, v, s), first), low, high, u,
              r, v, s,
              At(key.g, first), At(key.h, first));
  }

  lemma NonTrivial(p: int, a: int, b: int)
    requires p > 0 && -p < a < p
    ensures Cong(p, a, 0) && Cong(p, b, 0) <==> a == 0 && b % p == 0
  {
    ModSmall(p, 0);
    if a != 0 { SmallIsNonzero(p, a); }
  }

  lemma SmallIsNonzero(p: int, a: int)
    requires p > 0 && -p < a < p && a != 0
    ensures !Cong(p, a, 0)
  {
    if Cong(p, a, 0) {
      var k := CongWitness(p, a, 0);
      MultipleGap(p, k);
    }
  }
}
