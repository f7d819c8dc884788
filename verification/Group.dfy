/**
 The commitment group as a module over the scalar field.  Points are pairs of scalars, so
 the two generators may or may not be related: a prime-order group is the rank-one part of
 this module, and a relation between generators is something a theorem has to exhibit
 rather than something that holds for free.
 */
module Group {
  import opened Modular
  import opened LinearSystem

  datatype Point = Point(x: int, y: int)

  const IDENTITY: Point := Point(0, 0)

  /** A value generator and a blinding generator. */
  datatype Key = Key(g: Point, h: Point)

  ghost predicate IsPoint(p: int, a: Point) { Canonical(p, a.x) && Canonical(p, a.y) }

  ghost predicate ArePoints(p: int, s: seq<Point>) { forall i :: 0 <= i < |s| ==> IsPoint(p, s[i]) }

  ghost predicate IsKey(p: int, key: Key) { IsPoint(p, key.g) && IsPoint(p, key.h) }

  function PAdd(p: int, a: Point, b: Point): Point requires p > 0 { Point(Add(p, a.x, b.x), Add(p, a.y, b.y)) }
  function PSub(p: int, a: Point, b: Point): Point requires p > 0 { Point(Sub(p, a.x, b.x), Sub(p, a.y, b.y)) }
  function PScale(p: int, a: Point, s: int): Point requires p > 0 { Point(Mul(p, a.x, s), Mul(p, a.y, s)) }

  function Commit(p: int, key: Key, value: int, blinding: int): Point requires p > 0 {
    PAdd(p, PScale(p, key.g, value), PScale(p, key.h, blinding))
  }

  /** The sum of scalars[i] * points[i]. */
  function Msm(p: int, scalars: seq<int>, points: seq<Point>): Point
    requires p > 0 && |scalars| == |points|
  {
    if scalars == [] then IDENTITY
    else PAdd(p, PScale(p, points[0], scalars[0]), Msm(p, scalars[1..], points[1..]))
  }

  // ----- coordinates -----

  /** One coordinate of a point; an identity between points is proved coordinate by coordinate. */
  ghost function At(a: Point, first: bool): int { if first then a.x else a.y }

  ghost function Column(s: seq<Point>, first: bool): (r: seq<int>)
    ensures |r| == |s| && forall i :: 0 <= i < |s| ==> r[i] == At(s[i], first)
  {
    seq(|s|, i requires 0 <= i < |s| => At(s[i], first))
  }

  lemma PointOps(p: int, a: Point, b: Point, s: int, first: bool)
    requires p > 0
    ensures IsPoint(p, PAdd(p, a, b)) && Cong(p, At(PAdd(p, a, b), first), At(a, first) + At(b, first))
    ensures IsPoint(p, PSub(p, a, b)) && Cong(p, At(PSub(p, a, b), first), At(a, first) - At(b, first))
    ensures IsPoint(p, PScale(p, a, s)) && Cong(p, At(PScale(p, a, s), first), s * At(a, first))
  {
    Ops(p, a.x, b.x);
    Ops(p, a.y, b.y);
    Ops(p, a.x, s);
    Ops(p, a.y, s);
    assert a.x * s == s * a.x && a.y * s == s * a.y;
  }

  lemma CommitAt(p: int, key: Key, value: int, blinding: int, first: bool)
    requires p > 0
    ensures IsPoint(p, Commit(p, key, value, blinding))
    ensures Cong(p, At(Commit(p, key, value, blinding), first), value * At(key.g, first) + blinding * At(key.h, first))
  {
    hide Cong, PAdd, PScale, IsPoint;
    var u, v := PScale(p, key.g, value), PScale(p, key.h, blinding);
    PointOps(p, key.g, key.g, value, first);
    PointOps(p, key.h, key.h, blinding, first);
    PointOps(p, u, v, 0, first);
    CongAdd(p, At(u, first), value * At(key.g, first), At(v, first), blinding * At(key.h, first));
    CongTrans(p, At(PAdd(p, u, v), first), At(u, first) + At(v, first),
              value * At(key.g, first) + blinding * At(key.h, first));
  }

  lemma {:induction false} MsmAt(p: int, scalars: seq<int>, points: seq<Point>, first: bool)
    requires p > 0 && |scalars| == |points|
    ensures IsPoint(p, Msm(p, scalars, points))
    ensures Cong(p, At(Msm(p, scalars, points), first), Dot(scalars, Column(points, first)))
  {
    if scalars == [] {
      CongRefl(p, 0);
    } else {
      var rest := Msm(p, scalars[1..], points[1..]);
      MsmAt(p, scalars[1..], points[1..], first);
      var u := PScale(p, points[0], scalars[0]);
      PointOps(p, points[0], points[0], scalars[0], first);
      PointOps(p, u, rest, 0, first);
      assert Column(points, first)[1..] == Column(points[1..], first);
      hide Cong, PAdd, PScale;
      CongAdd(p, At(u, first), scalars[0] * At(points[0], first), At(rest, first),
              Dot(scalars[1..], Column(points[1..], first)));
      CongTrans(p, At(PAdd(p, u, rest), first), At(u, first) + At(rest, first), Dot(scalars, Column(points, first)));
    }
  }

  /** Points that agree in both coordinates are one point. */
  lemma SamePoint(p: int, a: Point, b: Point)
    requires IsPoint(p, a) && IsPoint(p, b)
    requires forall first :: Cong(p, At(a, first), At(b, first))
    ensures a == b
  {
    assert Cong(p, At(a, true), At(b, true)) && Cong(p, At(a, false), At(b, false));
    CanonicalUnique(p, a.x, b.x);
    CanonicalUnique(p, a.y, b.y);
  }

  // ----- equations as congruences -----

  /** h*z == t + c*d, as a congruence in each coordinate. */
  lemma SigmaEquation(p: int, h: Point, z: int, t: Point, c: Point, d: int)
    requires p > 0
    ensures PScale(p, h, z) == PAdd(p, t, PScale(p, c, d))
            <==> forall first :: Cong(p, z * At(h, first), At(t, first) + d * At(c, first))
  {
    var l, cd := PScale(p, h, z), PScale(p, c, d);
    var r := PAdd(p, t, cd);
    forall first
      ensures Cong(p, At(l, first), z * At(h, first)) && Cong(p, At(r, first), At(t, first) + d * At(c, first))
      ensures IsPoint(p, l) && IsPoint(p, r)
    {
      PointOps(p, h, h, z, first);
      PointOps(p, c, c, d, first);
      PointOps(p, t, cd, 0, first);
      CongRefl(p, At(t, first));
      CongAdd(p, At(t, first), At(t, first), At(cd, first), d * At(c, first));
    }
    if l == r {
      forall first ensures Cong(p, z * At(h, first), At(t, first) + d * At(c, first)) {
        CongSym(p, At(l, first), z * At(h, first));
      }
    }
    if forall first :: Cong(p, z * At(h, first), At(t, first) + d * At(c, first)) {
      forall first ensures Cong(p, At(l, first), At(r, first)) {
        CongSym(p, At(r, first), At(t, first) + d * At(c, first));
        assert Cong(p, z * At(h, first), At(t, first) + d * At(c, first));
      }
      assert IsPoint(p, l) && IsPoint(p, r) by { PointOps(p, h, h, z, true); PointOps(p, t, cd, 0, true); }
      SamePoint(p, l, r);
    }
  }

  // ----- special soundness of one equation -----

  /** The quotient (z - z') / (d - d') that two answers to one first move determine. */
  function Quotient(p: int, z: int, z': int, d: int, d': int): int
    requires p > 0
  {
    Mul(p, Sub(p, z, z'), Inv(p, Sub(p, d, d')))
  }

  /** Two answers with different challenges open the point as a multiple of h. */
  lemma TwoAnswersOpen(p: int, h: Point, t: Point, c: Point, z: int, z': int, d: int, d': int)
    requires Prime(p) && IsPoint(p, h) && IsPoint(p, c) && !Cong(p, d, d')
    requires PScale(p, h, z) == PAdd(p, t, PScale(p, c, d))
    requires PScale(p, h, z') == PAdd(p, t, PScale(p, c, d'))
    ensures c == PScale(p, h, Quotient(p, z, z', d, d'))
  {
    var w := Quotient(p, z, z', d, d');
    assert p > 0;
    forall first ensures Cong(p, At(c, first), At(PScale(p, h, w), first)) {
      SigmaEquation(p, h, z, t, c, d);
      SigmaEquation(p, h, z', t, c, d');
      AnswersDetermine(p, At(h, first), At(t, first), At(c, first), z, z', d, d');
      PointOps(p, h, h, w, first);
      CongSym(p, At(PScale(p, h, w), first), w * At(h, first));
    }
    PointOps(p, h, h, w, true);
    SamePoint(p, c, PScale(p, h, w));
  }

  lemma AnswersDetermine(p: int, h: int, t: int, c: int, z: int, z': int, d: int, d': int)
    requires Prime(p) && !Cong(p, d, d')
    requires Cong(p, z * h, t + d * c) && Cong(p, z' * h, t + d' * c)
    ensures Cong(p, c, Quotient(p, z, z', d, d') * h)
  {
    assert p > 0;
    var e := Sub(p, d, d');
    Ops(p, d, d');
    Ops(p, z, z');
    DifferenceNonzero(p, d, d');
    InvCorrect(p, e);
    var i, u := Inv(p, e), Sub(p, z, z');
    Ops(p, u, i);
    hide Cong, Sub, Mul, Inv, Prime;
    CongSub(p, z * h, t + d * c, z' * h, t + d' * c);
    assert z * h - z' * h == (z - z') * h && t + d * c - (t + d' * c) == (d - d') * c;
    CongRefl(p, h);
    CongRefl(p, c);
    CongMul(p, u, z - z', h, h);
    CongTrans(p, u * h, (z - z') * h, (d - d') * c);
    CongSym(p, e, d - d');
    CongMul(p, d - d', e, c, c);
    CongTrans(p, u * h, (d - d') * c, e * c);
    CongScale(p, i, u * h, e * c);
    InvTimes(p, e, i, c);
    CongTrans(p, i * (u * h), i * (e * c), c);
    CongMul(p, Mul(p, u, i), u * i, h, h);
    assert u * i * h == i * (u * h);
    CongTrans(p, Mul(p, u, i) * h, i * (u * h), c);
    CongSym(p, Mul(p, u, i) * h, c);
  }

  lemma DifferenceNonzero(p: int, d: int, d': int)
    requires p > 0 && !Cong(p, d, d')
    ensures !Cong(p, Sub(p, d, d'), 0)
  {
    Ops(p, d, d');
    if Cong(p, Sub(p, d, d'), 0) {
      CongSym(p, Sub(p, d, d'), d - d');
      CongRefl(p, d');
      CongAdd(p, d - d', 0, d', d');
    }
  }

  // ----- linear combinations that vanish -----

  lemma Vanish(p: int, c: int, e: int, d: int, f: int)
    requires Cong(p, e, 0) && Cong(p, f, 0)
    ensures Cong(p, c * e + d * f, 0)
  {
    hide Cong;
    CongScale(p, c, e, 0);
    CongScale(p, d, f, 0);
    CongAdd(p, c * e, c * 0, d * f, d * 0);
  }

  lemma GapVanishes(p: int, m: int, left: int, right: int)
    requires p > 0 && Cong(p, m, left - right)
    ensures Cong(p, m, 0) <==> Cong(p, left, right)
  {
    hide Cong;
    CongSym(p, m, left - right);
    CongRefl(p, right);
    if Cong(p, m, 0) {
      CongTrans(p, left - right, m, 0);
      CongAdd(p, left - right, 0, right, right);
    }
    if Cong(p, left, right) {
      CongSub(p, left, right, right, right);
      CongTrans(p, m, left - right, 0);
    }
  }

  lemma Gap(p: int, a: int, b: int)
    requires p > 0
    ensures Cong(p, a, b) <==> Cong(p, a - b, 0)
  {
    hide Cong;
    CongRefl(p, a - b);
    GapVanishes(p, a - b, a, b);
  }

  /** A quotient times its divisor. */
  lemma QuotientTimes(p: int, z: int, z': int, d: int, d': int)
    requires Prime(p) && !Cong(p, d, d')
    ensures Cong(p, Quotient(p, z, z', d, d') * (d - d') - (z - z'), 0) && Canonical(p, Quotient(p, z, z', d, d'))
  {
    assert p > 0;
    var q := Quotient(p, z, z', d, d');
    var e := Sub(p, d, d');
    Ops(p, d, d');
    Ops(p, z, z');
    DifferenceNonzero(p, d, d');
    InvCorrect(p, e);
    var i, u := Inv(p, e), Sub(p, z, z');
    Ops(p, u, i);
    hide Cong, Sub, Mul, Inv, Prime;
    QuotientRing(p, q, u, i, e, d - d', z - z');
  }

  lemma QuotientRing(p: int, q: int, u: int, i: int, e: int, d: int, z: int)
    requires p > 0 && Cong(p, q, u * i) && Cong(p, e, d) && Cong(p, u, z) && Cong(p, e * i, 1)
    ensures Cong(p, q * d - z, 0)
  {
    hide Cong;
    CongSym(p, e, d);
    CongMul(p, q, u * i, d, e);
    CongScale(p, u, e * i, 1);
    assert u * i * e == u * (e * i) && u * 1 == u;
    CongTrans(p, q * d, u * (e * i), u);
    CongTrans(p, q * d, u, z);
    Gap(p, q * d, z);
  }

  /** A combination that vanishes in both coordinates commits to the identity. */
  lemma VanishingCommit(p: int, key: Key, a: int, b: int)
    requires p > 0 && forall first :: Cong(p, a * At(key.g, first) + b * At(key.h, first), 0)
    ensures Commit(p, key, a, b) == IDENTITY
  {
    forall first ensures Cong(p, At(Commit(p, key, a, b), first), At(IDENTITY, first)) {
      CommitAt(p, key, a, b, first);
      assert Cong(p, a * At(key.g, first) + b * At(key.h, first), 0);
    }
    CommitAt(p, key, a, b, true);
    CongRefl(p, 0);
    SamePoint(p, Commit(p, key, a, b), IDENTITY);
  }

  /** The point that opens so in both coordinates is the commitment. */
  lemma OpenedBy(p: int, key: Key, point: Point, v: int, r: int)
    requires p > 0 && IsPoint(p, point)
    requires forall first :: Cong(p, At(point, first), v * At(key.g, first) + r * At(key.h, first))
    ensures Commit(p, key, v, r) == point
  {
    forall first ensures Cong(p, At(Commit(p, key, v, r), first), At(point, first)) {
      CommitAt(p, key, v, r, first);
      assert Cong(p, At(point, first), v * At(key.g, first) + r * At(key.h, first));
    }
    CommitAt(p, key, v, r, true);
    SamePoint(p, Commit(p, key, v, r), point);
  }

  /** A non-trivial relation between the generators. */
  ghost predicate IsRelation(p: int, key: Key, a: int, b: int)
    requires p > 0
  {
    !(Cong(p, a, 0) && Cong(p, b, 0)) && Commit(p, key, a, b) == IDENTITY
  }
}
