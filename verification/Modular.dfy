/**
 Arithmetic modulo a prime, with inverses derived from the extended Euclidean
 algorithm.  A scalar is an integer in [0, p); every algebraic fact is stated as a
 congruence between unbounded integers, so polynomial identities can be proved over
 the integers and reduced only where the program reduces.
 */
module Modular {

  ghost predicate Prime(p: int) {
    p >= 2 && forall d :: 2 <= d < p ==> p % d != 0
  }

  ghost predicate Cong(p: int, a: int, b: int) {
    p > 0 && a % p == b % p
  }

  /** A canonical representative, as every `Scalar` is. */
  predicate Canonical(p: int, a: int) {
    0 <= a < p
  }

  ghost predicate AllCanonical(p: int, s: seq<int>) {
    forall i :: 0 <= i < |s| ==> Canonical(p, s[i])
  }

  // ----- field operations on canonical representatives -----

  function Add(p: int, a: int, b: int): int requires p > 0 { (a + b) % p }
  function Sub(p: int, a: int, b: int): int requires p > 0 { (a - b) % p }
  function Mul(p: int, a: int, b: int): int requires p > 0 { (a * b) % p }
  function Neg(p: int, a: int): int requires p > 0 { (-a) % p }

  /** Bezout coefficients: (g, s, t) with s*a + t*b == g and g the last non-zero remainder. */
  function ExtGcd(a: nat, b: nat): (r: (nat, int, int))
    decreases b
  {
    if b == 0 then (a, 1, 0)
    else
      var (g, s, t) := ExtGcd(b, a % b);
      (g, t, s - (a / b) * t)
  }

  /** The multiplicative inverse; zero is sent to zero, as exponentiation by p-2 does. */
  function Inv(p: int, a: int): int requires p > 0 {
    if a % p == 0 then 0 else ExtGcd(a % p, p).1 % p
  }

  // ----- congruences -----

  /** A non-zero multiple of p is at least p away from zero. */
  lemma MultipleGap(p: int, m: int)
    requires p > 0
    ensures m >= 1 ==> p * m >= p
    ensures m <= -1 ==> p * m <= -p
    ensures m == 0 ==> p * m == 0
  {}

  lemma MultipleModIsZero(p: int, k: int)
    requires p > 0
    ensures (p * k) % p == 0
  {
    CongOf(p, p * k, 0, k);
    ModSmall(p, 0);
  }

  lemma CongOf(p: int, a: int, b: int, k: int)
    requires p > 0 && a == b + p * k
    ensures Cong(p, a, b)
  {
    var qa, ra := a / p, a % p;
    var qb, rb := b / p, b % p;
    assert a == p * qa + ra && b == p * qb + rb;
    var m := qa - qb - k;
    assert p * m == rb - ra;
    MultipleGap(p, m);
  }

  lemma CongWitness(p: int, a: int, b: int) returns (k: int)
    requires Cong(p, a, b)
    ensures a == b + p * k
  {
    k := a / p - b / p;
    assert a == p * (a / p) + a % p && b == p * (b / p) + b % p;
  }

  lemma CongSym(p: int, a: int, b: int)
    requires Cong(p, a, b)
    ensures Cong(p, b, a)
  {}

  lemma CongTrans(p: int, a: int, b: int, c: int)
    requires Cong(p, a, b) && Cong(p, b, c)
    ensures Cong(p, a, c)
  {}

  lemma CongRefl(p: int, a: int)
    requires p > 0
    ensures Cong(p, a, a)
  {}

  lemma CongAdd(p: int, a: int, b: int, c: int, d: int)
    requires Cong(p, a, b) && Cong(p, c, d)
    ensures Cong(p, a + c, b + d)
  {
    var k := CongWitness(p, a, b);
    var l := CongWitness(p, c, d);
    assert a + c == b + d + p * (k + l);
    CongOf(p, a + c, b + d, k + l);
  }

  lemma CongSub(p: int, a: int, b: int, c: int, d: int)
    requires Cong(p, a, b) && Cong(p, c, d)
    ensures Cong(p, a - c, b - d)
  {
    var k := CongWitness(p, a, b);
    var l := CongWitness(p, c, d);
    assert a - c == b - d + p * (k - l);
    CongOf(p, a - c, b - d, k - l);
  }

  lemma CongMul(p: int, a: int, b: int, c: int, d: int)
    requires Cong(p, a, b) && Cong(p, c, d)
    ensures Cong(p, a * c, b * d)
  {
    hide Cong;
    CongScale(p, c, a, b);
    CongScale(p, b, c, d);
    assert c * a == a * c && c * b == b * c;
    CongTrans(p, a * c, b * c, b * d);
  }

  lemma CongScale(p: int, m: int, a: int, b: int)
    requires Cong(p, a, b)
    ensures Cong(p, m * a, m * b)
  {
    var k := CongWitness(p, a, b);
    ScaleRing(p, m, b, k);
    CongOf(p, m * a, m * b, m * k);
  }

  lemma ScaleRing(p: int, m: int, b: int, k: int)
    ensures m * (b + p * k) == m * b + p * (m * k)
  {}

  lemma CongMod(p: int, a: int)
    requires p > 0
    ensures Cong(p, a % p, a)
    ensures 0 <= a % p < p
  {
    CongOf(p, a % p, a, -(a / p));
  }

  lemma CanonicalUnique(p: int, a: int, b: int)
    requires Cong(p, a, b) && Canonical(p, a) && Canonical(p, b)
    ensures a == b
  {
    ModSmall(p, a);
    ModSmall(p, b);
  }

  lemma ModSmall(p: int, a: int)
    requires 0 <= a < p
    ensures a % p == a
  {
    var q, r := a / p, a % p;
    assert a == p * q + r;
    MultipleGap(p, q);
  }

  /** What each executable operation means as a congruence. */
  lemma Ops(p: int, a: int, b: int)
    requires p > 0
    ensures Cong(p, Add(p, a, b), a + b) && Canonical(p, Add(p, a, b))
    ensures Cong(p, Sub(p, a, b), a - b) && Canonical(p, Sub(p, a, b))
    ensures Cong(p, Mul(p, a, b), a * b) && Canonical(p, Mul(p, a, b))
    ensures Cong(p, Neg(p, a), -a) && Canonical(p, Neg(p, a))
  {
    CongMod(p, a + b);
    CongMod(p, a - b);
    CongMod(p, a * b);
    CongMod(p, -a);
  }

  // ----- inverses -----

  /** g divides both arguments, with the cofactors as witnesses. */
  ghost predicate CommonDivisor(g: int, a: int, b: int, x: int, y: int) {
    g > 0 && a == g * x && b == g * y
  }

  lemma {:induction false} ExtGcdBezout(a: nat, b: nat) returns (x: int, y: int)
    requires a > 0 || b > 0
    ensures var (g, s, t) := ExtGcd(a, b); s * a + t * b == g
    ensures CommonDivisor(ExtGcd(a, b).0, a, b, x, y)
    decreases b
  {
    if b == 0 {
      x, y := 1, 0;
    } else {
      var (g, s, t) := ExtGcd(b, a % b);
      var u, v := ExtGcdBezout(b, a % b);
      var q, r := a / b, a % b;
      BezoutStep(a, b, q, r, g, s, t, u, v);
      x, y := u * q + v, u;
    }
  }

  lemma BezoutStep(a: int, b: int, q: int, r: int, g: int, s: int, t: int, u: int, v: int)
    requires a == b * q + r && s * b + t * r == g && b == g * u && r == g * v
    ensures t * a + (s - q * t) * b == g
    ensures a == g * (u * q + v)
  {
    assert t * (b * q) == q * t * b;
    assert (g * u) * q == g * (u * q);
  }

  /** Below a prime, nothing but one divides it. */
  lemma PrimeGcdIsOne(p: int, a: int)
    requires Prime(p) && 0 < a < p
    ensures ExtGcd(a, p).0 == 1
  {
    var x, y := ExtGcdBezout(a, p);
    var g := ExtGcd(a, p).0;
    MultipleGap(g, x);
    MultipleModIsZero(g, y);
  }

  lemma InvCorrect(p: int, a: int)
    requires Prime(p) && !Cong(p, a, 0)
    ensures Cong(p, a * Inv(p, a), 1)
    ensures Canonical(p, Inv(p, a))
  {
    var r := a % p;
    assert 0 < r < p by { MultipleModIsZero(p, 0); }
    var _, _ := ExtGcdBezout(r, p);
    PrimeGcdIsOne(p, r);
    var (_, s, t) := ExtGcd(r, p);
    BezoutInverts(p, a, r, s, t);
  }

  lemma BezoutInverts(p: int, a: int, r: int, s: int, t: int)
    requires p > 0 && r == a % p && s * r + t * p == 1
    ensures Cong(p, a * (s % p), 1) && Canonical(p, s % p)
  {
    hide Cong;
    CongMod(p, s);
    CongMod(p, a);
    CongSym(p, r, a);
    CongMul(p, a, r, s % p, s);
    assert r * s == 1 + p * (-t);
    CongOf(p, r * s, 1, -t);
    CongTrans(p, a * (s % p), r * s, 1);
  }

  /** A factor that is not zero modulo the prime cancels. */
  lemma Cancel(p: int, m: int, a: int, b: int)
    requires Prime(p) && !Cong(p, m, 0) && Cong(p, m * a, m * b)
    ensures Cong(p, a, b)
  {
    var i := Inv(p, m);
    hide Cong, Prime;
    InvCorrect(p, m);
    CongScale(p, i, m * a, m * b);
    InvTimes(p, m, i, a);
    InvTimes(p, m, i, b);
    CongSym(p, i * (m * a), a);
    CongTrans(p, a, i * (m * a), i * (m * b));
    CongTrans(p, a, i * (m * b), b);
  }

  lemma InvTimes(p: int, m: int, i: int, a: int)
    requires Cong(p, m * i, 1)
    ensures Cong(p, i * (m * a), a)
  {
    hide Cong;
    CongScale(p, a, m * i, 1);
    assert a * (m * i) == i * (m * a) && a * 1 == a;
  }

  lemma NoZeroDivisors(p: int, a: int, b: int)
    requires Prime(p) && Cong(p, a * b, 0)
    ensures Cong(p, a, 0) || Cong(p, b, 0)
  {
    hide Cong, Prime;
    if !Cong(p, a, 0) {
      assert a * 0 == 0;
      Cancel(p, a, b, 0);
    }
  }

  /** A difference of distinct canonical scalars is not zero. */
  lemma DistinctDifference(p: int, a: int, b: int)
    requires Canonical(p, a) && Canonical(p, b) && a != b
    ensures !Cong(p, a - b, 0)
  {
    if Cong(p, a - b, 0) {
      CongRefl(p, b);
      CongAdd(p, a - b, 0, b, b);
      CanonicalUnique(p, a, b);
    }
  }

  // ----- small steps shared by the loops -----

  /** Multiply an accumulator that stands for a by something that stands for b. */
  lemma MulStep(p: int, acc: int, a: int, c: int, b: int)
    requires p > 0 && Cong(p, acc, a) && Cong(p, c, b)
    ensures Cong(p, Mul(p, acc, c), a * b) && Canonical(p, Mul(p, acc, c))
  {
    hide Cong, Mul;
    CongMul(p, acc, a, c, b);
    Ops(p, acc, c);
    CongTrans(p, Mul(p, acc, c), acc * c, a * b);
  }

  lemma AddStep(p: int, acc: int, a: int, c: int, b: int)
    requires p > 0 && Cong(p, acc, a) && Cong(p, c, b)
    ensures Cong(p, Add(p, acc, c), a + b) && Canonical(p, Add(p, acc, c))
  {
    hide Cong, Add;
    CongAdd(p, acc, a, c, b);
    Ops(p, acc, c);
    CongTrans(p, Add(p, acc, c), acc + c, a + b);
  }

  lemma SubStep(p: int, acc: int, a: int, c: int, b: int)
    requires p > 0 && Cong(p, acc, a) && Cong(p, c, b)
    ensures Cong(p, Sub(p, acc, c), a - b) && Canonical(p, Sub(p, acc, c))
  {
    hide Cong, Sub;
    CongSub(p, acc, a, c, b);
    Ops(p, acc, c);
    CongTrans(p, Sub(p, acc, c), acc - c, a - b);
  }
}
