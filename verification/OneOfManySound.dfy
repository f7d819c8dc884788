/**
 Special soundness of the one-of-many proof.  From accepting proofs that share their first moves
 and answer one more challenge than there are index bits, an extractor computes an index and a
 multiple of h that the commitment there is, or a non-trivial relation between the generators.
 */
module OneOfManySound {
  import opened Basics
  import opened Modular
  import opened Polynomials
  import opened LinearSystem
  import opened Group
  import opened Sigma
  import opened Interpolation
  import opened OneOfMany
  import BitRangeProver
  import Counting

  // ----- one bit, one coordinate -----

  /** What two answers say of the bit's commitment: (x0 - x1) * (cl - l*g - r*h) vanishes. */
  lemma OpeningVanishes(p: int, g: int, h: int, cl: int, ca: int, f0: int, za0: int, x0: int, f1: int, za1: int,
                        x1: int, l: int, r: int)
    requires Prime(p) && !Cong(p, x0 - x1, 0)
    requires Cong(p, f0 * g + za0 * h - (x0 * cl + ca), 0) && Cong(p, f1 * g + za1 * h - (x1 * cl + ca), 0)
    requires Cong(p, l * (x0 - x1) - (f0 - f1), 0) && Cong(p, r * (x0 - x1) - (za0 - za1), 0)
    ensures Cong(p, cl - l * g - r * h, 0)
  {
    hide Cong, Prime;
    var e0, e1 := f0 * g + za0 * h - (x0 * cl + ca), f1 * g + za1 * h - (x1 * cl + ca);
    var q, s := l * (x0 - x1) - (f0 - f1), r * (x0 - x1) - (za0 - za1);
    Vanish(p, -1, e0, 1, e1);
    Vanish(p, -g, q, -h, s);
    Vanish(p, 1, -1 * e0 + 1 * e1, 1, -g * q + -h * s);
    OpeningRing(g, h, cl, ca, f0, za0, x0, f1, za1, x1, l, r);
    NoZeroDivisors(p, x0 - x1, cl - l * g - r * h);
  }

  lemma OpeningRing(g: int, h: int, cl: int, ca: int, f0: int, za0: int, x0: int, f1: int, za1: int, x1: int, l: int,
                    r: int)
    ensures var (e0, e1) := (f0 * g + za0 * h - (x0 * cl + ca), f1 * g + za1 * h - (x1 * cl + ca));
            var (q, s) := (l * (x0 - x1) - (f0 - f1), r * (x0 - x1) - (za0 - za1));
            1 * (-1 * e0 + 1 * e1) + 1 * (-g * q + -h * s) == (x0 - x1) * (cl - l * g - r * h)
  {}

  /** How far an answer at x is from the line of slope l through the answer at x0. */
  function OffLine(f: int, f0: int, x: int, x0: int, l: int): int { f - f0 - (x - x0) * l }

  /** Any further answer differs from the line through the first two by a relation. */
  lemma AnswerVanishes(p: int, g: int, h: int, cl: int, ca: int, f0: int, za0: int, x0: int, f: int, za: int, x: int,
                       l: int, r: int)
    requires p > 0 && Cong(p, cl - l * g - r * h, 0)
    requires Cong(p, f0 * g + za0 * h - (x0 * cl + ca), 0) && Cong(p, f * g + za * h - (x * cl + ca), 0)
    ensures Cong(p, OffLine(f, f0, x, x0, l) * g + OffLine(za, za0, x, x0, r) * h, 0)
  {
    hide Cong;
    var e0, e, w := f0 * g + za0 * h - (x0 * cl + ca), f * g + za * h - (x * cl + ca), cl - l * g - r * h;
    Vanish(p, 1, e, -1, e0);
    Vanish(p, 1, 1 * e + -1 * e0, x - x0, w);
    AnswerRing(g, h, cl, ca, f0, za0, x0, f, za, x, l, r);
  }

  lemma AnswerRing(g: int, h: int, cl: int, ca: int, f0: int, za0: int, x0: int, f: int, za: int, x: int, l: int,
                   r: int)
    ensures var (e0, e) := (f0 * g + za0 * h - (x0 * cl + ca), f * g + za * h - (x * cl + ca));
            1 * (1 * e + -1 * e0) + (x - x0) * (cl - l * g - r * h)
            == (f - f0 - (x - x0) * l) * g + (za - za0 - (x - x0) * r) * h
  {}

  /** What two answers about a value l amount to: zero when it is a bit, and otherwise half a relation. */
  function NotABit(x0: int, x1: int, l: int): int { (x0 - x1) * (1 - l) * l }

  function LeftOver(x0: int, x1: int, l: int, r: int, z0: int, z1: int): int { (x0 - x1) * (1 - l) * r - (z0 - z1) }

  /** The second pair of answers says that l * (1 - l) is zero, or gives a relation. */
  lemma BitVanishes(p: int, g: int, h: int, cl: int, cb: int, f0: int, zb0: int, x0: int, f1: int, zb1: int, x1: int,
                    l: int, r: int)
    requires p > 0 && Cong(p, cl - l * g - r * h, 0) && Cong(p, l * (x0 - x1) - (f0 - f1), 0)
    requires Cong(p, zb0 * h - ((x0 - f0) * cl + cb), 0) && Cong(p, zb1 * h - ((x1 - f1) * cl + cb), 0)
    ensures Cong(p, NotABit(x0, x1, l) * g + LeftOver(x0, x1, l, r, zb0, zb1) * h, 0)
  {
    hide Cong, NotABit, LeftOver;
    var b0, b1 := zb0 * h - ((x0 - f0) * cl + cb), zb1 * h - ((x1 - f1) * cl + cb);
    var w, q := cl - l * g - r * h, l * (x0 - x1) - (f0 - f1);
    Vanish(p, -1, b0, 1, b1);
    Vanish(p, -((x0 - x1) * (1 - l)), w, -cl, q);
    Vanish(p, 1, -1 * b0 + 1 * b1, 1, -((x0 - x1) * (1 - l)) * w + -cl * q);
    BitRing(g, h, cl, cb, f0, zb0, x0, f1, zb1, x1, l, r);
  }

  lemma BitRing(g: int, h: int, cl: int, cb: int, f0: int, zb0: int, x0: int, f1: int, zb1: int, x1: int, l: int,
                r: int)
    ensures var (b0, b1) := (zb0 * h - ((x0 - f0) * cl + cb), zb1 * h - ((x1 - f1) * cl + cb));
            var (w, q) := (cl - l * g - r * h, l * (x0 - x1) - (f0 - f1));
            1 * (-1 * b0 + 1 * b1) + 1 * (-((x0 - x1) * (1 - l)) * w + -cl * q)
            == NotABit(x0, x1, l) * g + LeftOver(x0, x1, l, r, zb0, zb1) * h
  {
    var d, k := x0 - x1, (x0 - x1) * (1 - l);
    Spread(k, cl, l, g, r, h);
    assert k == d - l * d;
    BitTerms(k, d, l * d, cl, f0 - f1, x0, x1, f0, f1);
    assert (k * r - (zb0 - zb1)) * h == k * r * h - (zb0 * h - zb1 * h);
  }

  lemma Spread(k: int, cl: int, l: int, g: int, r: int, h: int)
    ensures -k * (cl - l * g - r * h) == -(k * cl) + k * l * g + k * r * h
  {}

  lemma BitTerms(k: int, d: int, ld: int, cl: int, f: int, x0: int, x1: int, f0: int, f1: int)
    requires k == d - ld && d == x0 - x1 && f == f0 - f1
    ensures (x0 - f0) * cl - (x1 - f1) * cl - k * cl + -cl * (ld - f) == 0
  {}

  // ----- from points to coordinates -----

  /** The two per-bit checks as congruences. */
  lemma BitCheckAt(p: int, key: Key, proof: GkProof, x: int, j: nat, first: bool)
    requires p > 0 && j < |proof.f| == |proof.cl| == |proof.ca| == |proof.cb| == |proof.za| == |proof.zb|
    requires BitChecks(p, key, proof, x, j)
    ensures var (g, h, cl) := (At(key.g, first), At(key.h, first), At(proof.cl[j], first));
            && Cong(p, proof.f[j] * g + proof.za[j] * h - (x * cl + At(proof.ca[j], first)), 0)
            && Cong(p, proof.zb[j] * h - ((x - proof.f[j]) * cl + At(proof.cb[j], first)), 0)
  {
    var y := Sub(p, x, proof.f[j]);
    Ops(p, x, proof.f[j]);
    hide BitChecks, Sub;
    CheckAt(p, key, proof.f[j], proof.za[j], proof.cl[j], x, proof.ca[j], first) by {
      assert BitChecks(p, key, proof, x, j);
    }
    CheckAt(p, key, 0, proof.zb[j], proof.cl[j], y, proof.cb[j], first) by { assert BitChecks(p, key, proof, x, j); }
    var g, h, cl, cb := At(key.g, first), At(key.h, first), At(proof.cl[j], first), At(proof.cb[j], first);
    hide Cong;
    ShiftedCheck(p, proof.zb[j] * h, y, x - proof.f[j], cl, cb, g);
  }

  lemma ShiftedCheck(p: int, z: int, y: int, y': int, cl: int, cb: int, g: int)
    requires p > 0 && Cong(p, y, y') && Cong(p, 0 * g + z - (y * cl + cb), 0)
    ensures Cong(p, z - (y' * cl + cb), 0)
  {
    hide Cong;
    Gap(p, y, y');
    Vanish(p, 1, 0 * g + z - (y * cl + cb), cl, y - y');
    assert 1 * (0 * g + z - (y * cl + cb)) + cl * (y - y') == z - (y' * cl + cb);
  }

  /** Commit(v, z) == u*c + t, as a congruence. */
  lemma CheckAt(p: int, key: Key, v: int, z: int, c: Point, u: int, t: Point, first: bool)
    requires p > 0 && Commit(p, key, v, z) == PAdd(p, PScale(p, c, u), t)
    ensures Cong(p, v * At(key.g, first) + z * At(key.h, first) - (u * At(c, first) + At(t, first)), 0)
  {
    var scaled := PScale(p, c, u);
    CommitAt(p, key, v, z, first);
    PointOps(p, c, c, u, first);
    PointOps(p, scaled, t, 0, first);
    hide Cong, Commit, PAdd, PScale;
    var m := At(Commit(p, key, v, z), first);
    CongRefl(p, At(t, first));
    CongAdd(p, At(scaled, first), u * At(c, first), At(t, first), At(t, first));
    CongTrans(p, m, At(scaled, first) + At(t, first), u * At(c, first) + At(t, first));
    CongSym(p, m, v * At(key.g, first) + z * At(key.h, first));
    CongTrans(p, v * At(key.g, first) + z * At(key.h, first), m, u * At(c, first) + At(t, first));
    Gap(p, v * At(key.g, first) + z * At(key.h, first), u * At(c, first) + At(t, first));
  }

  // ----- what is given and what is wanted -----

  /** The verifier's checks against a given challenge. */
  ghost predicate AcceptsAt(p: int, key: Key, commitments: seq<Point>, proof: GkProof, x: int)
    requires p > 0
  {
    && Shape(|commitments|, proof)
    && (forall j :: 0 <= j < |proof.f| ==> BitChecks(p, key, proof, x, j))
    && Msm(p, Scalars(p, |commitments|, proof, x), commitments + proof.gk + [key.h]) == IDENTITY
  }

  predicate SameMoves(a: GkProof, b: GkProof) { a.cl == b.cl && a.ca == b.ca && a.cb == b.cb && a.gk == b.gk }

  /** One first move, and an accepted answer to each of bits + 1 different challenges. */
  ghost predicate Forked(p: int, key: Key, commitments: seq<Point>, proofs: seq<GkProof>, xs: seq<int>)
    requires p > 0
  {
    && |proofs| == |xs| == TrailingZeros(|commitments|) + 1 && AllCanonical(p, xs) && Counting.Distinct(xs)
    && forall k :: 0 <= k < |proofs| ==>
         SameMoves(proofs[0], proofs[k]) && AcceptsAt(p, key, commitments, proofs[k], xs[k])
  }

  datatype Extracted = Opened(index: nat, blinding: int) | Related(a: int, b: int)

  /** A commitment of the set that is a known multiple of h, or a relation between the generators. */
  ghost predicate Convincing(p: int, key: Key, commitments: seq<Point>, e: Extracted)
    requires p > 0
  {
    match e
    case Opened(index, blinding) => index < |commitments| && commitments[index] == PScale(p, key.h, blinding)
    case Related(a, b) => IsRelation(p, key, a, b)
  }

  // ----- one bit -----

  /** The lines the first two answers determine, and the combinations that have to vanish. */
  ghost predicate Line(p: int, proofs: seq<GkProof>, xs: seq<int>, j: nat, l: int, r: int)
    requires |proofs| == |xs| >= 2 && forall k :: 0 <= k < |proofs| ==> j < |proofs[k].f| == |proofs[k].za|
  {
    && Canonical(p, l)
    && Cong(p, l * (xs[0] - xs[1]) - (proofs[0].f[j] - proofs[1].f[j]), 0)
    && Cong(p, r * (xs[0] - xs[1]) - (proofs[0].za[j] - proofs[1].za[j]), 0)
  }

  lemma ForkedAt(p: int, key: Key, commitments: seq<Point>, proofs: seq<GkProof>, xs: seq<int>, k: nat)
    requires p > 0 && Forked(p, key, commitments, proofs, xs) && k < |proofs|
    ensures SameMoves(proofs[0], proofs[k]) && AcceptsAt(p, key, commitments, proofs[k], xs[k])
            && Shape(|commitments|, proofs[k])
  {
    hide SameMoves, BitChecks, Msm, Scalars, PowerOfTwo, TrailingZeros;
  }

  lemma ForkedShape(p: int, key: Key, commitments: seq<Point>, proofs: seq<GkProof>, xs: seq<int>, j: nat)
    requires Prime(p) && Forked(p, key, commitments, proofs, xs) && j < TrailingZeros(|commitments|)
    ensures |proofs| == |xs| >= 2 && !Cong(p, xs[0] - xs[1], 0) && !Cong(p, xs[0], xs[1])
    ensures forall k :: 0 <= k < |proofs| ==>
              j < |proofs[k].f| == |proofs[k].za| == |proofs[k].zb| == |proofs[k].cl| == |proofs[k].ca|
                  == |proofs[k].cb|
  {
    hide AcceptsAt, SameMoves, PowerOfTwo, TrailingZeros;
    DistinctDifference(p, xs[0], xs[1]);
    DifferentScalars(p, xs[0], xs[1]);
    forall k | 0 <= k < |proofs|
      ensures j < |proofs[k].f| == |proofs[k].za| == |proofs[k].zb| == |proofs[k].cl| == |proofs[k].ca|
              == |proofs[k].cb|
    {
      ForkedAt(p, key, commitments, proofs, xs, k);
    }
  }

  lemma AcceptedCheck(p: int, key: Key, commitments: seq<Point>, proof: GkProof, x: int, j: nat)
    requires p > 0 && AcceptsAt(p, key, commitments, proof, x) && j < |proof.f|
    ensures Shape(|commitments|, proof) && BitChecks(p, key, proof, x, j)
  {
    hide BitChecks, Msm, Scalars, PowerOfTwo, TrailingZeros;
  }

  lemma AnswerAt(p: int, key: Key, commitments: seq<Point>, proofs: seq<GkProof>, xs: seq<int>, j: nat, k: nat,
                 first: bool)
    requires p > 0 && Forked(p, key, commitments, proofs, xs) && j < TrailingZeros(|commitments|)
             && k < |proofs| == |xs|
    ensures j < |proofs[k].f| == |proofs[k].za| == |proofs[k].zb|
            && j < |proofs[0].cl| == |proofs[0].ca| == |proofs[0].cb|
    ensures var (g, h, cl) := (At(key.g, first), At(key.h, first), At(proofs[0].cl[j], first));
            && Cong(p, proofs[k].f[j] * g + proofs[k].za[j] * h - (xs[k] * cl + At(proofs[0].ca[j], first)), 0)
            && Cong(p, proofs[k].zb[j] * h - ((xs[k] - proofs[k].f[j]) * cl + At(proofs[0].cb[j], first)), 0)
  {
    hide BitChecks, Cong, AcceptsAt, Forked, PowerOfTwo, TrailingZeros;
    ForkedAt(p, key, commitments, proofs, xs, k);
    AcceptedCheck(p, key, commitments, proofs[k], xs[k], j);
    BitCheckAt(p, key, proofs[k], xs[k], j, first);
  }

  lemma LineOpens(p: int, key: Key, commitments: seq<Point>, proofs: seq<GkProof>, xs: seq<int>, j: nat, l: int,
                  r: int, first: bool)
    requires Prime(p) && Forked(p, key, commitments, proofs, xs) && j < TrailingZeros(|commitments|)
    requires |proofs| == |xs| >= 2 && !Cong(p, xs[0] - xs[1], 0)
    requires forall k :: 0 <= k < |proofs| ==> j < |proofs[k].f| == |proofs[k].za|
    requires Line(p, proofs, xs, j, l, r) && j < |proofs[0].cl|
    ensures Cong(p, At(proofs[0].cl[j], first) - l * At(key.g, first) - r * At(key.h, first), 0)
  {
    hide Forked, Cong, Prime;
    assert p > 0 by { assert Prime(p); }
    AnswerAt(p, key, commitments, proofs, xs, j, 0, first);
    AnswerAt(p, key, commitments, proofs, xs, j, 1, first);
    OpeningVanishes(p, At(key.g, first), At(key.h, first), At(proofs[0].cl[j], first), At(proofs[0].ca[j], first),
                    proofs[0].f[j], proofs[0].za[j], xs[0], proofs[1].f[j], proofs[1].za[j], xs[1], l, r);
  }

  /** The relation that a further answer off the line through the first two gives away. */
  lemma AnswerOnLine(p: int, key: Key, commitments: seq<Point>, proofs: seq<GkProof>, xs: seq<int>, j: nat, l: int,
                     r: int, k: nat)
    requires p > 0 && Forked(p, key, commitments, proofs, xs) && j < TrailingZeros(|commitments|)
             && k < |proofs| == |xs|
    requires j < |proofs[0].f| == |proofs[0].za| == |proofs[0].cl| && j < |proofs[k].f| == |proofs[k].za|
    requires forall first :: Cong(p, At(proofs[0].cl[j], first) - l * At(key.g, first) - r * At(key.h, first), 0)
    ensures Commit(p, key, OffLine(proofs[k].f[j], proofs[0].f[j], xs[k], xs[0], l),
                   OffLine(proofs[k].za[j], proofs[0].za[j], xs[k], xs[0], r)) == IDENTITY
  {
    hide Forked, Cong, Commit, TrailingZeros, At, OffLine;
    var u, v := OffLine(proofs[k].f[j], proofs[0].f[j], xs[k], xs[0], l),
        OffLine(proofs[k].za[j], proofs[0].za[j], xs[k], xs[0], r);
    forall first ensures Cong(p, u * At(key.g, first) + v * At(key.h, first), 0) {
      AnswerOnLineAt(p, key, commitments, proofs, xs, j, l, r, k, first);
    }
    VanishingCommit(p, key, u, v);
  }

  lemma AnswerOnLineAt(p: int, key: Key, commitments: seq<Point>, proofs: seq<GkProof>, xs: seq<int>, j: nat, l: int,
                       r: int, k: nat, first: bool)
    requires p > 0 && Forked(p, key, commitments, proofs, xs) && j < TrailingZeros(|commitments|)
             && k < |proofs| == |xs|
    requires j < |proofs[0].f| == |proofs[0].za| == |proofs[0].cl| && j < |proofs[k].f| == |proofs[k].za|
    requires Cong(p, At(proofs[0].cl[j], first) - l * At(key.g, first) - r * At(key.h, first), 0)
    ensures Cong(p, OffLine(proofs[k].f[j], proofs[0].f[j], xs[k], xs[0], l) * At(key.g, first)
                    + OffLine(proofs[k].za[j], proofs[0].za[j], xs[k], xs[0], r) * At(key.h, first), 0)
  {
    hide Forked, Cong, TrailingZeros, At, OffLine;
    AnswerAt(p, key, commitments, proofs, xs, j, 0, first);
    AnswerAt(p, key, commitments, proofs, xs, j, k, first);
    AnswerVanishes(p, At(key.g, first), At(key.h, first), At(proofs[0].cl[j], first), At(proofs[0].ca[j], first),
                   proofs[0].f[j], proofs[0].za[j], xs[0], proofs[k].f[j], proofs[k].za[j], xs[k], l, r);
  }

  /** The relation that a value other than a bit gives away. */
  lemma ValueIsBit(p: int, key: Key, commitments: seq<Point>, proofs: seq<GkProof>, xs: seq<int>, j: nat, l: int,
                   r: int)
    requires p > 0 && Forked(p, key, commitments, proofs, xs) && j < TrailingZeros(|commitments|)
             && |proofs| == |xs| >= 2
    requires j < |proofs[0].f| == |proofs[0].zb| == |proofs[0].cl| && j < |proofs[1].f| == |proofs[1].zb|
    requires Cong(p, l * (xs[0] - xs[1]) - (proofs[0].f[j] - proofs[1].f[j]), 0)
    requires forall first :: Cong(p, At(proofs[0].cl[j], first) - l * At(key.g, first) - r * At(key.h, first), 0)
    ensures Commit(p, key, NotABit(xs[0], xs[1], l),
                   LeftOver(xs[0], xs[1], l, r, proofs[0].zb[j], proofs[1].zb[j])) == IDENTITY
  {
    hide Forked, Cong, Commit, TrailingZeros, At, NotABit, LeftOver;
    var u, v := NotABit(xs[0], xs[1], l), LeftOver(xs[0], xs[1], l, r, proofs[0].zb[j], proofs[1].zb[j]);
    forall first ensures Cong(p, u * At(key.g, first) + v * At(key.h, first), 0) {
      ValueIsBitAt(p, key, commitments, proofs, xs, j, l, r, first);
    }
    VanishingCommit(p, key, u, v);
  }

  lemma ValueIsBitAt(p: int, key: Key, commitments: seq<Point>, proofs: seq<GkProof>, xs: seq<int>, j: nat, l: int,
                     r: int, first: bool)
    requires p > 0 && Forked(p, key, commitments, proofs, xs) && j < TrailingZeros(|commitments|)
             && |proofs| == |xs| >= 2
    requires j < |proofs[0].f| == |proofs[0].zb| == |proofs[0].cl| && j < |proofs[1].f| == |proofs[1].zb|
    requires Cong(p, l * (xs[0] - xs[1]) - (proofs[0].f[j] - proofs[1].f[j]), 0)
    requires Cong(p, At(proofs[0].cl[j], first) - l * At(key.g, first) - r * At(key.h, first), 0)
    ensures Cong(p, NotABit(xs[0], xs[1], l) * At(key.g, first)
                    + LeftOver(xs[0], xs[1], l, r, proofs[0].zb[j], proofs[1].zb[j]) * At(key.h, first), 0)
  {
    hide Forked, Cong, TrailingZeros, At, NotABit, LeftOver;
    AnswerAt(p, key, commitments, proofs, xs, j, 0, first);
    AnswerAt(p, key, commitments, proofs, xs, j, 1, first);
    BitVanishes(p, At(key.g, first), At(key.h, first), At(proofs[0].cl[j], first), At(proofs[0].cb[j], first),
                proofs[0].f[j], proofs[0].zb[j], xs[0], proofs[1].f[j], proofs[1].zb[j], xs[1], l, r);
  }

  lemma BitOrRelation(p: int, x0: int, x1: int, l: int)
    requires Prime(p) && Canonical(p, l) && !Cong(p, x0 - x1, 0) && Cong(p, NotABit(x0, x1, l), 0)
    ensures l == 0 || l == 1
  {
    var d := x0 - x1;
    NoZeroDivisors(p, d * (1 - l), l);
    if Cong(p, l, 0) {
      CanonicalUnique(p, l, 0);
    } else {
      NoZeroDivisors(p, d, 1 - l);
      Gap(p, 1, l);
      CanonicalUnique(p, 1, l);
    }
  }

  /** The answer lies on the line a + l*x, up to the modulus. */
  lemma OnLine(p: int, f: int, f0: int, x: int, x0: int, l: int)
    requires p > 0 && Cong(p, OffLine(f, f0, x, x0, l), 0)
    ensures Cong(p, f, f0 - l * x0 + l * x)
  {
    assert f - f0 - (x - x0) * l == f - (f0 - l * x0 + l * x);
    Gap(p, f, f0 - l * x0 + l * x);
  }

  /** Either a relation, or the bit the first moves commit to and the line all its answers lie on. */
  method ExtractLine(p: int, key: Key, commitments: seq<Point>, proofs: seq<GkProof>, xs: seq<int>, j: nat)
    returns (relation: Option<(int, int)>, l: int, a: int)
    requires Prime(p) && Forked(p, key, commitments, proofs, xs) && j < TrailingZeros(|commitments|)
    ensures relation.Some? ==> IsRelation(p, key, relation.value.0, relation.value.1)
    ensures relation.None? ==> (l == 0 || l == 1) && |proofs| == |xs|
    ensures relation.None? ==> forall k :: 0 <= k < |proofs| ==>
              j < |proofs[k].f| && Cong(p, proofs[k].f[j], a + l * xs[k])
  {
    hide Forked, Commit, TrailingZeros, Quotient, Cong, OffLine, NotABit, LeftOver;
    ForkedShape(p, key, commitments, proofs, xs, j);
    assert p > 0;
    hide Prime;
    var first, second := proofs[0], proofs[1];
    l := Quotient(p, first.f[j], second.f[j], xs[0], xs[1]);
    var r := Quotient(p, first.za[j], second.za[j], xs[0], xs[1]);
    a := first.f[j] - l * xs[0];
    QuotientTimes(p, first.f[j], second.f[j], xs[0], xs[1]);
    QuotientTimes(p, first.za[j], second.za[j], xs[0], xs[1]);
    forall c ensures Cong(p, At(first.cl[j], c) - l * At(key.g, c) - r * At(key.h, c), 0) {
      LineOpens(p, key, commitments, proofs, xs, j, l, r, c);
    }
    ValueIsBit(p, key, commitments, proofs, xs, j, l, r);
    var u := NotABit(xs[0], xs[1], l);
    if !Vanishes(p, u) { return Some((u, LeftOver(xs[0], xs[1], l, r, first.zb[j], second.zb[j]))), l, a; }
    BitOrRelation(p, xs[0], xs[1], l);
    for k := 0 to |proofs|
      invariant forall i :: 0 <= i < k ==> Cong(p, proofs[i].f[j], a + l * xs[i])
    {
      var off := OffLine(proofs[k].f[j], first.f[j], xs[k], xs[0], l);
      AnswerOnLine(p, key, commitments, proofs, xs, j, l, r, k);
      if !Vanishes(p, off) { return Some((off, OffLine(proofs[k].za[j], first.za[j], xs[k], xs[0], r))), l, a; }
      OnLine(p, proofs[k].f[j], first.f[j], xs[k], xs[0], l);
    }
    relation := None;
  }

  predicate Vanishes(p: int, e: int)
    requires p > 0
    ensures Vanishes(p, e) <==> Cong(p, e, 0)
  {
    ModSmall(p, 0);
    e % p == 0
  }

  // ----- the index -----

  function FromBits(bits: seq<int>): (index: nat)
    requires forall j :: 0 <= j < |bits| ==> bits[j] == 0 || bits[j] == 1
    ensures index < Power(2, |bits|)
  {
    if bits == [] then 0 else bits[0] + 2 * FromBits(bits[1..])
  }

  lemma {:induction false} FromBitsAt(bits: seq<int>, j: nat)
    requires forall j :: 0 <= j < |bits| ==> bits[j] == 0 || bits[j] == 1
    requires j < |bits|
    ensures BitRangeProver.BitAt(FromBits(bits), j) == bits[j]
  {
    var rest := FromBits(bits[1..]);
    assert (bits[0] + 2 * rest) / 2 == rest && (bits[0] + 2 * rest) % 2 == bits[0];
    if j > 0 { FromBitsAt(bits[1..], j - 1); }
  }

  lemma BitsAreEll(p: int, bits: seq<int>)
    requires p > 1 && forall j :: 0 <= j < |bits| ==> bits[j] == 0 || bits[j] == 1
    ensures Ell(p, FromBits(bits), |bits|) == bits
  {
    ModSmall(p, 1);
    forall j | 0 <= j < |bits| ensures Ell(p, FromBits(bits), |bits|)[j] == bits[j] { FromBitsAt(bits, j); }
  }

  // ----- the last equation, at one challenge -----

  /** All answers of one proof lie on the lines a + ell*x. */
  ghost predicate OnLines(p: int, f: seq<int>, a: seq<int>, ell: seq<int>, x: int) {
    |f| == |a| == |ell| && forall j :: 0 <= j < |a| ==> Cong(p, f[j], a[j] + ell[j] * x)
  }

  /** In one coordinate: the low parts and x^bits at the index, less the coefficient points and zd*h, vanish. */
  lemma LastCheck(p: int, key: Key, commitments: seq<Point>, proof: GkProof, x: int, index: nat, a: seq<int>,
                  coefficients: seq<seq<int>>, first: bool) returns (sum: int)
    requires p > 0 && AcceptsAt(p, key, commitments, proof, x) && index < |commitments|
             && |a| == TrailingZeros(|commitments|)
    requires SelectorTable(p, |commitments|, |a|, a, Ell(p, index, |a|), coefficients)
    requires OnLines(p, proof.f, a, Ell(p, index, |a|), x)
    ensures Rows(coefficients, |a| + 1) && |coefficients| == |commitments|
    ensures sum == LowDot(coefficients, |a|, x, Column(commitments, first))
            + Scaled(Power(x, |a|), At(commitments[index], first))
                   - Eval(Column(proof.gk, first), x) - Scaled(proof.zd, At(key.h, first))
    ensures Cong(p, sum, 0)
  {
    TableFits(p, key, commitments, proof, x, index, a, coefficients);
    hide *;
    var bits, c, gk := |a|, Column(commitments, first), Column(proof.gk, first);
    var products, powers := Products(p, |commitments|, proof.f, x), NegPowers(p, x, |proof.gk|);
    SumVanishes(p, key, commitments, proof, x, first);
    ProductsSplit(p, coefficients, products, c, index, bits, x);
    NegatedPowers(p, gk, x);
    Ops(p, proof.zd, 0);
    var low := LowDot(coefficients, bits, x, c) + Scaled(Power(x, bits), c[index]);
    CombineCheck(p, Dot(products, c), low, Dot(powers, gk), Eval(gk, x), Neg(p, proof.zd), proof.zd, At(key.h, first));
    sum := low - Eval(gk, x) - Scaled(proof.zd, At(key.h, first));
  }

  lemma TableFits(p: int, key: Key, commitments: seq<Point>, proof: GkProof, x: int, index: nat, a: seq<int>,
                  coefficients: seq<seq<int>>)
    requires p > 0 && AcceptsAt(p, key, commitments, proof, x) && index < |commitments|
             && |a| == TrailingZeros(|commitments|)
    requires SelectorTable(p, |commitments|, |a|, a, Ell(p, index, |a|), coefficients)
    requires OnLines(p, proof.f, a, Ell(p, index, |a|), x)
    ensures Rows(coefficients, |a| + 1) && Selects(p, coefficients, |a|, index) && |coefficients| == |commitments|
    ensures Evaluates(p, Products(p, |commitments|, proof.f, x), coefficients, x)
  {
    hide Cong, BitChecks, Msm, Ell, Scalars, Selects, Evaluates, Eval, Selector, Lead, Products;
    TableSelects(p, |commitments|, index, a, coefficients, x, proof.f, |a|);
  }

  lemma SumVanishes(p: int, key: Key, commitments: seq<Point>, proof: GkProof, x: int, first: bool)
    requires p > 0 && AcceptsAt(p, key, commitments, proof, x)
    ensures Cong(p, Dot(Products(p, |commitments|, proof.f, x), Column(commitments, first))
                    + Dot(NegPowers(p, x, |proof.gk|), Column(proof.gk, first))
                    + Scaled(Neg(p, proof.zd), At(key.h, first)), 0)
  {
    hide Cong, Dot, Msm, BitChecks, Shape, Scaled, Products, NegPowers, Neg;
    VerifierCoordinate(p, commitments, proof.gk, key.h, Products(p, |commitments|, proof.f, x),
                       NegPowers(p, x, |proof.gk|), Neg(p, proof.zd), first);
    var m := Msm(p, Scalars(p, |commitments|, proof, x), commitments + proof.gk + [key.h]);
    CongSym(p, At(m, first), Dot(Products(p, |commitments|, proof.f, x), Column(commitments, first))
                    + Dot(NegPowers(p, x, |proof.gk|), Column(proof.gk, first))
                    + Scaled(Neg(p, proof.zd), At(key.h, first)));
  }

  lemma CombineCheck(p: int, dp: int, low: int, dg: int, eg: int, nz: int, zd: int, h: int)
    requires p > 0 && Cong(p, dp + dg + Scaled(nz, h), 0) && Cong(p, dp, low) && Cong(p, dg, -eg) && Cong(p, nz, -zd)
    ensures Cong(p, low - eg - Scaled(zd, h), 0)
  {
    hide Cong;
    Gap(p, dp, low);
    Gap(p, dg, -eg);
    Gap(p, nz, -zd);
    Vanish(p, 1, dp + dg + nz * h, -1, dp - low);
    Vanish(p, -1, dg - -eg, -h, nz - -zd);
    Vanish(p, 1, 1 * (dp + dg + nz * h) + -1 * (dp - low), 1, -1 * (dg - -eg) + -h * (nz - -zd));
    CombineRing(dp, low, dg, eg, nz, zd, h);
  }

  lemma CombineRing(dp: int, low: int, dg: int, eg: int, nz: int, zd: int, h: int)
    ensures 1 * (1 * (dp + dg + nz * h) + -1 * (dp - low)) + 1 * (-1 * (dg - -eg) + -h * (nz - -zd))
            == low - eg - zd * h
  {}

  // ----- the last equation, at every challenge -----

  /** The low parts against the set, as a polynomial in the challenge. */
  ghost function LowPoly(coefficients: seq<seq<int>>, m: nat, c: seq<int>): (r: seq<int>)
    requires |c| == |coefficients| && Rows(coefficients, m + 1)
    ensures |r| == m && forall k :: 0 <= k < m ==> r[k] == Dot(Slice(coefficients, k), c)
  {
    seq(m, k requires 0 <= k < m => Dot(Slice(coefficients, k), c))
  }

  lemma LowPolyEval(p: int, coefficients: seq<seq<int>>, m: nat, c: seq<int>, x: int)
    requires p > 0 && |c| == |coefficients| && Rows(coefficients, m + 1)
    ensures Cong(p, Eval(LowPoly(coefficients, m, c), x), LowDot(coefficients, m, x, c))
  {
    var d, zeros := LowPoly(coefficients, m, c), seq(m, _ => 0);
    forall k | 0 <= k < m ensures Cong(p, d[k], Dot(Slice(coefficients, k), c) + zeros[k] * 0) { CongRefl(p, d[k]); }
    hide Cong, Dot, Eval;
    LowSum(p, coefficients, c, d, zeros, 0, x, m);
    assert d[..m] == d;
  }

  lemma {:induction false} MinusAt(a: seq<int>, b: seq<int>, i: nat)
    requires i < |a| == |b|
    ensures Minus(a, b)[i] == a[i] - b[i]
  {
    ScaleAt(-1, b, i);
    PlusAt(a, Scale(-1, b), i);
  }

  lemma {:induction false} ScaleAt(k: int, a: seq<int>, i: nat)
    requires i < |a|
    ensures Scale(k, a)[i] == k * a[i]
  {
    if i > 0 { ScaleAt(k, a[1..], i - 1); }
  }

  lemma {:induction false} PlusAt(a: seq<int>, b: seq<int>, i: nat)
    requires i < |a| == |b|
    ensures Plus(a, b)[i] == a[i] + b[i]
  {
    if i > 0 { PlusAt(a[1..], b[1..], i - 1); }
  }

  ghost predicate Vanishing(p: int, poly: seq<int>, xs: seq<int>) {
    forall k :: 0 <= k < |xs| ==> Cong(p, Eval(poly, xs[k]), 0)
  }

  lemma TooManyRoots(p: int, poly: seq<int>, xs: seq<int>)
    requires Prime(p) && AllCanonical(p, xs) && Counting.Distinct(xs) && |poly| <= |xs| && Vanishing(p, poly, xs)
    ensures ZeroPoly(p, poly)
  {
    hide Cong, Prime, Eval, ZeroPoly;
    var all := Counting.Range(|xs|);
    Counting.RangeCard(|xs|);
    Counting.AtCard(xs, all);
    RootBound(p, poly, Counting.At(xs, all));
  }

  /** What the last equation says at every challenge. */
  ghost predicate Balanced(p: int, low: seq<int>, gk: seq<int>, c: int, h: int, zds: seq<int>, xs: seq<int>)
    requires |xs| == |zds|
  {
    forall k :: 0 <= k < |xs| ==>
      Cong(p, Eval(low, xs[k]) + Scaled(Power(xs[k], |low|), c) - Eval(gk, xs[k]) - Scaled(zds[k], h), 0)
  }

  ghost predicate Through(p: int, z: seq<int>, zds: seq<int>, xs: seq<int>)
    requires |xs| == |zds|
  {
    forall k :: 0 <= k < |xs| ==> Cong(p, Eval(z, xs[k]), zds[k])
  }

  ghost function Difference(low: seq<int>, gk: seq<int>, c: int, h: int, z: seq<int>): seq<int> {
    Minus(Minus(low, gk) + [c], Scale(h, z))
  }

  lemma DifferenceVanishes(p: int, low: seq<int>, gk: seq<int>, c: int, h: int, z: seq<int>, zds: seq<int>,
                           xs: seq<int>)
    requires p > 0 && |low| == |gk| && |xs| == |zds| && Balanced(p, low, gk, c, h, zds, xs) && Through(p, z, zds, xs)
    ensures Vanishing(p, Difference(low, gk, c, h, z), xs)
  {
    hide Cong, Eval, Minus, Scale, Scaled, Power;
    forall k | 0 <= k < |xs| ensures Cong(p, Eval(Difference(low, gk, c, h, z), xs[k]), 0) {
      DifferenceAt(p, low, gk, c, h, z, xs[k], zds[k]);
    }
  }

  lemma DifferenceTop(low: seq<int>, gk: seq<int>, c: int, h: int, z: seq<int>)
    requires |low| == |gk| && |z| == |low| + 1
    ensures |Difference(low, gk, c, h, z)| == |z| && Difference(low, gk, c, h, z)[|low|] == c - Scaled(z[|low|], h)
  {
    hide Minus, Scale;
    MinusAt(Minus(low, gk) + [c], Scale(h, z), |low|);
    ScaleAt(h, z, |low|);
    assert h * z[|low|] == z[|low|] * h;
  }

  /** Agreeing with h times the interpolant at enough challenges, the top coefficient is h times the interpolant's. */
  lemma TopCoefficient(p: int, low: seq<int>, gk: seq<int>, c: int, h: int, z: seq<int>, zds: seq<int>, xs: seq<int>)
    returns (gap: int)
    requires Prime(p) && AllCanonical(p, xs) && Counting.Distinct(xs) && |low| == |gk|
             && |z| == |xs| == |zds| == |low| + 1
    requires Balanced(p, low, gk, c, h, zds, xs) && Through(p, z, zds, xs)
    ensures gap == c - Scaled(z[|low|], h) && Cong(p, gap, 0)
  {
    hide Cong, Balanced, Through, Vanishing, Difference, Scaled;
    var difference := Difference(low, gk, c, h, z);
    DifferenceTop(low, gk, c, h, z);
    DifferenceVanishes(p, low, gk, c, h, z, zds, xs);
    TooManyRoots(p, difference, xs);
    gap := difference[|low|];
  }

  lemma DifferenceAt(p: int, low: seq<int>, gk: seq<int>, c: int, h: int, z: seq<int>, x: int, zd: int)
    requires p > 0 && |low| == |gk|
    requires Cong(p, Eval(low, x) + Scaled(Power(x, |low|), c) - Eval(gk, x) - Scaled(zd, h), 0)
    requires Cong(p, Eval(z, x), zd)
    ensures Cong(p, Eval(Difference(low, gk, c, h, z), x), 0)
  {
    hide *;
    DifferenceEval(low, gk, c, h, z, x);
    DifferenceCong(p, Eval(low, x), Eval(gk, x), c, Power(x, |low|), zd, h, Eval(z, x));
  }

  lemma DifferenceEval(low: seq<int>, gk: seq<int>, c: int, h: int, z: seq<int>, x: int)
    requires |low| == |gk|
    ensures Eval(Difference(low, gk, c, h, z), x)
            == Eval(low, x) - Eval(gk, x) + Scaled(Power(x, |low|), c) - Scaled(h, Eval(z, x))
  {
    hide Eval, Minus, Scale, Power;
    EvalMinus(Minus(low, gk) + [c], Scale(h, z), x);
    EvalScale(h, z, x);
    EvalSnoc(Minus(low, gk), c, x);
    EvalMinus(low, gk, x);
    assert c * Power(x, |low|) == Power(x, |low|) * c;
  }

  lemma DifferenceCong(p: int, low: int, gk: int, c: int, power: int, zd: int, h: int, w: int)
    requires p > 0 && Cong(p, low + Scaled(power, c) - gk - Scaled(zd, h), 0) && Cong(p, w, zd)
    ensures Cong(p, low - gk + Scaled(power, c) - Scaled(h, w), 0)
  {
    hide Cong;
    Gap(p, w, zd);
    Vanish(p, 1, low + power * c - gk - zd * h, -h, w - zd);
    DifferenceRing(low, gk, c, power, zd, h, w);
  }

  lemma DifferenceRing(low: int, gk: int, c: int, power: int, zd: int, h: int, w: int)
    ensures 1 * (low + power * c - gk - zd * h) + -h * (w - zd) == low - gk + power * c - h * w
  {}

  // ----- the extractor -----

  ghost predicate AllOnLines(p: int, proofs: seq<GkProof>, xs: seq<int>, a: seq<int>, ell: seq<int>)
    requires |proofs| == |xs|
  {
    forall k :: 0 <= k < |proofs| ==> OnLines(p, proofs[k].f, a, ell, xs[k])
  }

  /** In one coordinate, the indexed commitment is the interpolant's top coefficient times h. */
  lemma OpensAt(p: int, key: Key, commitments: seq<Point>, proofs: seq<GkProof>, xs: seq<int>, index: nat, a: seq<int>,
                coefficients: seq<seq<int>>, z: seq<int>, zds: seq<int>, first: bool) returns (gap: int)
    requires Prime(p) && Forked(p, key, commitments, proofs, xs) && index < |commitments|
             && |a| == TrailingZeros(|commitments|)
    requires |proofs| == |xs| == |z| == |zds| == |a| + 1 && AllCanonical(p, xs) && Counting.Distinct(xs)
    requires SelectorTable(p, |commitments|, |a|, a, Ell(p, index, |a|), coefficients)
    requires AllOnLines(p, proofs, xs, a, Ell(p, index, |a|))
    requires forall k :: 0 <= k < |proofs| ==> zds[k] == proofs[k].zd
    requires Through(p, z, zds, xs)
    ensures gap == At(commitments[index], first) - Scaled(z[|a|], At(key.h, first)) && Cong(p, gap, 0)
  {
    hide Forked, SelectorTable, Cong, Prime, Through, Eval, Ell, Scaled, Power, LowDot, TrailingZeros, OnLines,
         SameMoves, AcceptsAt;
    assert p > 0 by { assert Prime(p); }
    ForkedAt(p, key, commitments, proofs, xs, 0);
    TableRows(p, |commitments|, |a|, a, Ell(p, index, |a|), coefficients);
    var c, gk := Column(commitments, first), Column(proofs[0].gk, first);
    var low := LowPoly(coefficients, |a|, c);
    forall k | 0 <= k < |xs|
      ensures Cong(p, Eval(low, xs[k]) + Scaled(Power(xs[k], |low|), c[index])
                      - Eval(gk, xs[k]) - Scaled(zds[k], At(key.h, first)), 0)
    {
      BalancedAt(p, key, commitments, proofs, xs, index, a, coefficients, first, k);
    }
    gap := TopCoefficient(p, low, gk, c[index], At(key.h, first), z, zds, xs);
  }

  lemma BalancedAt(p: int, key: Key, commitments: seq<Point>, proofs: seq<GkProof>, xs: seq<int>, index: nat,
                   a: seq<int>,
                   coefficients: seq<seq<int>>, first: bool, k: nat)
    requires p > 0 && Forked(p, key, commitments, proofs, xs) && index < |commitments|
             && |a| == TrailingZeros(|commitments|)
    requires |proofs| == |xs| && k < |xs|
    requires SelectorTable(p, |commitments|, |a|, a, Ell(p, index, |a|), coefficients)
    requires AllOnLines(p, proofs, xs, a, Ell(p, index, |a|))
    ensures Rows(coefficients, |a| + 1) && |coefficients| == |commitments|
    ensures Cong(p, Eval(LowPoly(coefficients, |a|, Column(commitments, first)), xs[k])
                    + Scaled(Power(xs[k], |a|), At(commitments[index], first))
                    - Eval(Column(proofs[0].gk, first), xs[k]) - Scaled(proofs[k].zd, At(key.h, first)), 0)
  {
    hide Forked, SelectorTable, Cong, Eval, Ell, Scaled, Power, LowDot, TrailingZeros, OnLines, AcceptsAt, Rows,
         LowPoly;
    ForkedAt(p, key, commitments, proofs, xs, k);
    var sum := LastCheck(p, key, commitments, proofs[k], xs[k], index, a, coefficients, first);
    var c := Column(commitments, first);
    LowPolyEval(p, coefficients, |a|, c, xs[k]);
    Rebase(p, sum, Eval(LowPoly(coefficients, |a|, c), xs[k]), LowDot(coefficients, |a|, xs[k], c),
           Scaled(Power(xs[k], |a|), At(commitments[index], first))
           - Eval(Column(proofs[0].gk, first), xs[k]) - Scaled(proofs[k].zd, At(key.h, first)));
  }

  lemma Rebase(p: int, sum: int, e: int, low: int, rest: int)
    requires p > 0 && Cong(p, sum, 0) && sum == low + rest && Cong(p, e, low)
    ensures Cong(p, e + rest, 0)
  {
    hide Cong;
    Gap(p, e, low);
    Vanish(p, 1, sum, 1, e - low);
  }

  lemma OpensPoint(p: int, c: Point, h: Point, blinding: int)
    requires p > 0 && IsPoint(p, c) && forall first :: Cong(p, At(c, first) - Scaled(blinding, At(h, first)), 0)
    ensures c == PScale(p, h, blinding)
  {
    forall first ensures Cong(p, At(c, first), At(PScale(p, h, blinding), first)) {
      PointOps(p, h, h, blinding, first);
      Gap(p, At(c, first), blinding * At(h, first));
      assert Cong(p, At(c, first) - Scaled(blinding, At(h, first)), 0);
    }
    PointOps(p, h, h, blinding, true);
    SamePoint(p, c, PScale(p, h, blinding));
  }

  /** The first answers lie on the lines found so far. */
  ghost predicate Lines(p: int, f: seq<int>, a: seq<int>, ell: seq<int>, x: int) {
    |a| == |ell| <= |f| && forall j :: 0 <= j < |a| ==> Cong(p, f[j], a[j] + ell[j] * x)
  }

  lemma LinesAreAll(p: int, f: seq<int>, a: seq<int>, ell: seq<int>, x: int)
    requires Lines(p, f, a, ell, x) && |f| == |a|
    ensures OnLines(p, f, a, ell, x)
  {}

  lemma ForkedSizes(p: int, key: Key, commitments: seq<Point>, proofs: seq<GkProof>, xs: seq<int>)
    requires p > 0 && Forked(p, key, commitments, proofs, xs)
    ensures |proofs| == |xs| == TrailingZeros(|commitments|) + 1 && AllCanonical(p, xs) && Counting.Distinct(xs)
    ensures PowerOfTwo(|commitments|) && forall k :: 0 <= k < |proofs| ==> |proofs[k].f| == TrailingZeros(|commitments|)
  {
    hide SameMoves, BitChecks, Msm, Scalars, PowerOfTwo, TrailingZeros;
    assert AcceptsAt(p, key, commitments, proofs[0], xs[0]);
  }

  /** Every bit in turn: a relation, or the bits and the lines of all answers. */
  method ExtractLines(p: int, key: Key, commitments: seq<Point>, proofs: seq<GkProof>, xs: seq<int>)
    returns (relation: Option<(int, int)>, ell: seq<int>, a: seq<int>)
    requires Prime(p) && Forked(p, key, commitments, proofs, xs)
    ensures relation.Some? ==> IsRelation(p, key, relation.value.0, relation.value.1)
    ensures relation.None? ==>
              && |ell| == |a| == TrailingZeros(|commitments|)
                 && (forall j :: 0 <= j < |ell| ==> ell[j] == 0 || ell[j] == 1)
              && |proofs| == |xs| && AllOnLines(p, proofs, xs, a, ell)
  {
    hide Forked, Cong, IsRelation, TrailingZeros, PowerOfTwo;
    assert p > 0;
    ForkedSizes(p, key, commitments, proofs, xs);
    hide Prime;
    ell, a := [], [];
    for j := 0 to TrailingZeros(|commitments|)
      invariant |ell| == |a| == j && forall i :: 0 <= i < j ==> ell[i] == 0 || ell[i] == 1
      invariant forall k :: 0 <= k < |proofs| ==> Lines(p, proofs[k].f, a, ell, xs[k])
    {
      var found, l, b := ExtractLine(p, key, commitments, proofs, xs, j);
      if found.Some? { return found, ell, a; }
      ell, a := ell + [l], a + [b];
    }
    forall k | 0 <= k < |proofs| ensures OnLines(p, proofs[k].f, a, ell, xs[k]) {
      LinesAreAll(p, proofs[k].f, a, ell, xs[k]);
    }
    relation := None;
  }

  /**
   Special soundness: bits + 1 accepted answers to one first move yield a commitment of the set
   that is a computed multiple of h, or a computed non-trivial relation between g and h.
   */
  method Extract(p: int, key: Key, commitments: seq<Point>, proofs: seq<GkProof>, xs: seq<int>) returns (e: Extracted)
    requires Prime(p) && ArePoints(p, commitments) && Forked(p, key, commitments, proofs, xs)
    requires forall k :: 0 <= k < |proofs| ==> Canonical(p, proofs[k].zd)
    ensures Convincing(p, key, commitments, e)
  {
    hide Forked, Cong, IsRelation, SelectorTable, AllOnLines, Through, Eval, PScale, Scaled, TrailingZeros, PowerOfTwo;
    assert p > 1;
    ForkedSizes(p, key, commitments, proofs, xs);
    PowerOfTwoIsPower(|commitments|);
    var relation, ell, a := ExtractLines(p, key, commitments, proofs, xs);
    if relation.Some? { return Related(relation.value.0, relation.value.1); }
    var index := FromBits(ell);
    BitsAreEll(p, ell);
    var coefficients := BuildTable(p, |commitments|, |a|, a, ell);
    var zds := seq(|proofs|, k requires 0 <= k < |proofs| => proofs[k].zd);
    var z := Interpolate(p, xs, zds);
    assert Through(p, z, zds, xs) by { PassesThrough(p, z, zds, xs); }
    hide Prime;
    forall first ensures Cong(p, At(commitments[index], first) - Scaled(z[|a|], At(key.h, first)), 0) {
      var _ := OpensAt(p, key, commitments, proofs, xs, index, a, coefficients, z, zds, first);
    }
    OpensPoint(p, commitments[index], key.h, z[|a|]);
    e := Opened(index, z[|a|]);
  }

  lemma PassesThrough(p: int, z: seq<int>, zds: seq<int>, xs: seq<int>)
    requires |xs| == |zds| && forall k :: 0 <= k < |xs| ==> Cong(p, Eval(z, xs[k]), zds[k])
    ensures Through(p, z, zds, xs)
  {}

  /**
   Special soundness as the verifier sees it: under oracles that answer one first move with
   different challenges, accepted proofs convince.
   */
  method ExtractFromOracles(p: int, key: Key, oracles: seq<Oracle>, tr: Transcript, commitments: seq<Point>,
                            proofs: seq<GkProof>)
    returns (e: Extracted)
    requires Prime(p) && ArePoints(p, commitments) && |oracles| == |proofs| == TrailingZeros(|commitments|) + 1
    requires forall k :: 0 <= k < |proofs| ==> Canonical(p, proofs[k].zd) && SameMoves(proofs[0], proofs[k])
    requires forall k :: 0 <= k < |proofs| ==> Accepts(p, key, oracles[k], tr, commitments, proofs[k])
    requires Counting.Distinct(Challenges(p, oracles, tr, commitments, proofs[0]))
    ensures Convincing(p, key, commitments, e)
  {
    var xs := Challenges(p, oracles, tr, commitments, proofs[0]);
    hide BitChecks, Msm, Scalars, GkChallenge, Prime, Convincing;
    e := Extract(p, key, commitments, proofs, xs);
  }

  function Challenges(p: int, oracles: seq<Oracle>, tr: Transcript, commitments: seq<Point>,
                      proof: GkProof): (r: seq<int>)
    requires p > 0
    ensures |r| == |oracles| && AllCanonical(p, r)
    ensures forall k :: 0 <= k < |r| ==>
              r[k] == GkChallenge(p, oracles[k], tr, commitments, proof.cl, proof.ca, proof.cb, proof.gk)
  {
    seq(|oracles|, k requires 0 <= k < |oracles| =>
      GkChallenge(p, oracles[k], tr, commitments, proof.cl, proof.ca, proof.cb, proof.gk))
  }
}
