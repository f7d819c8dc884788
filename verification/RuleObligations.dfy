/**
 * What the checker's degrees and obligations are worth: an arithmetic rule is a polynomial of its
 * checked degree in the secrets, and every range an audit is obliged to prove is wide enough for
 * the difference the rule takes there, on every in-range binding.
 */
module RuleObligations {
  import opened Basics
  import P = Polynomials
  import opened Intervals
  import opened PriceRules
  import opened PriceEmission

  // ----- degrees -----

  /** Sums, differences, products and signs only. */
  ghost predicate Arithmetic(e: Expr)
    decreases e
  {
    match e
    case Const(_) => true
    case Name(_) => true
    case Neg(inner) => Arithmetic(inner)
    case Binary(_, a, b) => Arithmetic(a) && Arithmetic(b)
    case _ => false
  }

  /** The values met on the way from u in the direction v. */
  ghost function Along(u: Bindings, v: Bindings, t: int): Bindings {
    map n | n in u && n in v :: u[n] + v[n] * t
  }

  /** An accepted arithmetic expression, along any line of bindings, is a polynomial of its degree, at most two. */
  lemma {:induction false} DegreeIsPolynomial(d: Declarations, e: Expr, u: Bindings, v: Bindings)
    returns (p: seq<int>)
    requires Visit(d, e).Ok? && Arithmetic(e) && d.Keys <= u.Keys && d.Keys <= v.Keys
    ensures |p| == Visit(d, e).value.degree + 1 <= 3
    ensures forall t :: Eval(e, Along(u, v, t)) == Ok(P.Eval(p, t))
    decreases e
  {
    hide P.Eval, Compute, Combined;
    match e
    case Const(c) =>
      p := [c];
      forall t ensures P.Eval(p, t) == c { ConstantAt(c, t); }
    case Name(n) =>
      p := [u[n], v[n]];
      forall t ensures Eval(e, Along(u, v, t)) == Ok(P.Eval(p, t)) { P.EvalLinear(u[n], v[n], t); }
    case Neg(inner) =>
      var a := DegreeIsPolynomial(d, inner, u, v);
      p := P.Scale(-1, a);
      forall t ensures Eval(e, Along(u, v, t)) == Ok(P.Eval(p, t)) { P.EvalScale(-1, a, t); }
    case Binary(arith, l, r) =>
      var a := DegreeIsPolynomial(d, l, u, v);
      var b := DegreeIsPolynomial(d, r, u, v);
      p := Combined(arith, a, b);
      forall t ensures Eval(e, Along(u, v, t)) == Ok(P.Eval(p, t)) {
        CombinedAt(arith, a, b, t);
        EvalBinary(e, Along(u, v, t));
      }
  }

  lemma ConstantAt(c: int, t: int)
    ensures P.Eval([c], t) == c
  {
    assert [c][1..] == [];
  }

  ghost function Combined(arith: Arith, a: seq<int>, b: seq<int>): (r: seq<int>)
    requires a != [] && b != []
    ensures |r| == if arith == Mul then |a| + |b| - 1 else Max(|a|, |b|)
  {
    match arith
    case Add => P.Plus(a, b)
    case Sub => P.Minus(a, b)
    case Mul => P.Times(a, b)
  }

  lemma CombinedAt(arith: Arith, a: seq<int>, b: seq<int>, t: int)
    requires a != [] && b != []
    ensures P.Eval(Combined(arith, a, b), t) == Compute(P.Eval(a, t), arith, P.Eval(b, t))
  {
    match arith
    case Add => P.EvalPlus(a, b, t);
    case Sub => P.EvalMinus(a, b, t);
    case Mul => P.EvalTimes(a, b, t);
  }

  // ----- obligations -----

  ghost predicate IsPart(p: Expr, e: Expr) {
    match e
    case Const(_) => false
    case Name(_) => false
    case Neg(inner) => p == inner
    case Binary(_, a, b) => p == a || p == b
    case Compare(a, _, b) => p == a || p == b
    case And(parts) => p in parts
    case Call(_, args) => p in args
  }

  /** s is e or stands somewhere inside it. */
  ghost predicate Inside(s: Expr, e: Expr)
    decreases e
  {
    || s == e
    || match e
       case Const(_) => false
       case Name(_) => false
       case Neg(inner) => Inside(s, inner)
       case Binary(_, a, b) => Inside(s, a) || Inside(s, b)
       case Compare(a, _, b) => Inside(s, a) || Inside(s, b)
       case And(parts) => exists p :: p in parts && Inside(s, p)
       case Call(_, args) => exists p :: p in args && Inside(s, p)
  }

  ghost predicate Carries(d: Declarations, s: Expr, notes: seq<Obligation>) {
    Good(d, s) && forall o :: o in Visit(d, s).value.notes ==> o in notes
  }

  lemma {:induction false} ConditionsCarry(d: Declarations, es: seq<Expr>, p: Expr)
    requires VisitConditions(d, es).Ok? && p in es
    ensures Visit(d, p).Ok? && forall o :: o in Visit(d, p).value.notes ==> o in VisitConditions(d, es).value
  {
    hide Visit;
    if p != es[0] { ConditionsCarry(d, es[1..], p); }
  }

  lemma {:induction false} ArgumentsCarry(d: Declarations, es: seq<Expr>, p: Expr)
    requires VisitAll(d, es).Ok? && p in es
    ensures Visit(d, p).Ok? && forall o :: o in Visit(d, p).value.notes ==> o in AllNotes(VisitAll(d, es).value)
  {
    hide Visit;
    var infos := VisitAll(d, es).value;
    assert infos[1..] == VisitAll(d, es[1..]).value;
    if p != es[0] { ArgumentsCarry(d, es[1..], p); }
  }

  lemma IntrinsicCarries(callee: Callee, infos: seq<Info>, o: Obligation)
    requires Intrinsic(callee, infos).Ok? && o in AllNotes(infos)
    ensures o in Intrinsic(callee, infos).value.notes
  {
    hide AllNotes;
  }

  /** The part's obligations are among the whole's. */
  lemma {:induction false} PartCarries(d: Declarations, e: Expr, p: Expr)
    requires Good(d, e) && IsPart(p, e)
    ensures Carries(d, p, Visit(d, e).value.notes)
  {
    Children(d, e);
    match e
    case Neg(_) =>
    case Binary(_, _, _) =>
    case Compare(_, _, _) =>
    case And(parts) => ConditionsCarry(d, parts, p);
    case Call(callee, args) =>
      ArgumentsCarry(d, args, p);
      var infos := VisitAll(d, args).value;
      forall o | o in Visit(d, p).value.notes ensures o in Intrinsic(callee, infos).value.notes {
        IntrinsicCarries(callee, infos, o);
      }
  }

  /** Every obligation of every part of an accepted expression is an obligation of the expression. */
  lemma {:induction false} PartsCarry(d: Declarations, e: Expr, s: Expr)
    requires Good(d, e) && Inside(s, e)
    ensures Carries(d, s, Visit(d, e).value.notes)
    decreases e
  {
    if s != e {
      var p := NextPart(e, s);
      PartCarries(d, e, p);
      PartsCarry(d, p, s);
    }
  }

  lemma {:induction false} NextPart(e: Expr, s: Expr) returns (p: Expr)
    requires Inside(s, e) && s != e
    ensures Inside(s, p) && IsPart(p, e) && p < e
  {
    match e
    case Neg(inner) => p := inner;
    case Binary(_, a, b) => p := if Inside(s, a) then a else b;
    case Compare(a, _, b) => p := if Inside(s, a) then a else b;
    case And(parts) => p :| p in parts && Inside(s, p);
    case Call(_, args) => p :| p in args && Inside(s, p);
  }

  ghost predicate Wide(notes: seq<Obligation>, v: int) { exists k :: Range(k) in notes && FitsSigned(v, k) }

  /** What a part's own obligations have to hold: the differences it compares, on this binding. */
  ghost predicate Covered(s: Expr, env: Bindings, notes: seq<Obligation>) {
    match s
    case Compare(a, op, b) =>
      op == Eq || op == Ne || (Eval(a, env).Ok? && Eval(b, env).Ok?
                               && Wide(notes, Eval(a, env).value - Eval(b, env).value)
                               && Wide(notes, Eval(b, env).value - Eval(a, env).value))
    case Call(callee, args) =>
      && (forall p :: p in args ==> Eval(p, env).Ok?)
      && (callee in {MinOf, MaxOf} ==>
            |args| == 2 && Wide(notes, Eval(args[0], env).value - Eval(args[1], env).value))
      && (callee == Clamp ==>
            && |args| == 3 && Wide(notes, Eval(args[0], env).value - Eval(args[1], env).value)
            && Wide(notes, Eval(args[2], env).value - Eval(args[0], env).value))
    case _ => true
  }

  /** A member of one interval less a member of another fits the difference's width. */
  lemma DifferenceFits(a: Interval, b: Interval, x: int, y: int)
    requires a.Contains(x) && b.Contains(y)
    ensures FitsSigned(x - y, a.Minus(b).WidthBits())
    ensures var k := a.Minus(b).Minus(Point(1)).WidthBits() + 1;
            FitsSigned(x - y, k) && FitsSigned(y - x, k)
  {
    WidthHolds(a.Minus(b), x - y);
    var i := a.Minus(b).Minus(Point(1));
    WidthHolds(i, x - y - 1);
    assert i.WidthBits() >= 2;
    P.PowerAdd(2, 1, i.WidthBits() - 1);
    PositivePower(i.WidthBits() - 1);
  }

  lemma {:induction false} PositivePower(k: nat)
    ensures P.Power(2, k) >= 1
  {
    if k > 0 { PositivePower(k - 1); }
  }

  lemma InInterval(d: Declarations, e: Expr, env: Bindings)
    requires Good(d, e) && InRange(d, env)
    ensures Eval(e, env).Ok? && Visit(d, e).value.interval.Contains(Eval(e, env).value)
  {
    hide Visit, Eval, Emit, Value, Parsed, SignedCovered;
    Faithful(d, e, env, None, env);
  }

  lemma ComparisonRange(x: Info, op: Cmp, y: Info, vx: int, vy: int)
    requires x.interval.Contains(vx) && y.interval.Contains(vy) && op != Eq && op != Ne
    ensures var notes := ComparisonInfo(x, op, y).notes;
            Wide(notes, vx - vy) && Wide(notes, vy - vx)
  {
    hide FitsSigned;
    var difference := if op == Gt || op == Ge then x.interval.Minus(y.interval) else y.interval.Minus(x.interval);
    var k := difference.Minus(Point(1)).WidthBits() + 1;
    DifferenceFits(x.interval, y.interval, vx, vy);
    DifferenceFits(y.interval, x.interval, vy, vx);
    assert FitsSigned(vx - vy, k) && FitsSigned(vy - vx, k);
    assert ComparisonInfo(x, op, y).notes == x.notes + y.notes + [Bit, Product, Range(k)];
    assert Range(k) in ComparisonInfo(x, op, y).notes;
  }

  lemma IntrinsicRange(callee: Callee, infos: seq<Info>, v: seq<int>)
    requires Intrinsic(callee, infos).Ok? && |v| == |infos|
    requires forall k :: 0 <= k < |v| ==> infos[k].interval.Contains(v[k])
    ensures var notes := Intrinsic(callee, infos).value.notes;
            && (callee in {MinOf, MaxOf} ==> |v| == 2 && Wide(notes, v[0] - v[1]))
            && (callee == Clamp ==> |v| == 3 && Wide(notes, v[0] - v[1]) && Wide(notes, v[2] - v[0]))
  {
    hide FitsSigned, AllNotes;
    IntrinsicArity(callee, infos);
    var notes := Intrinsic(callee, infos).value.notes;
    if callee in {MinOf, MaxOf} {
      DifferenceFits(infos[0].interval, infos[1].interval, v[0], v[1]);
      assert Range(infos[0].interval.Minus(infos[1].interval).WidthBits()) in notes;
    } else if callee == Clamp {
      DifferenceFits(infos[0].interval, infos[1].interval, v[0], v[1]);
      DifferenceFits(infos[2].interval, infos[0].interval, v[2], v[0]);
      assert Range(infos[0].interval.Minus(infos[1].interval).WidthBits()) in notes;
      assert Range(infos[2].interval.Minus(infos[0].interval).WidthBits()) in notes;
    }
  }

  lemma {:induction false} VisitedParts(d: Declarations, s: Expr)
    requires Visit(d, s).Ok?
    ensures s.Compare? ==> Visit(d, s.left).Ok? && Visit(d, s.right).Ok?
                           && Visit(d, s).value == ComparisonInfo(Visit(d, s.left).value, s.op, Visit(d, s.right).value)
    ensures s.Call? ==> VisitAll(d, s.args).Ok? && Visit(d, s) == Intrinsic(s.callee, VisitAll(d, s.args).value)
  {
    hide ComparisonInfo, Intrinsic;
  }

  lemma ComparisonCovered(d: Declarations, s: Expr, env: Bindings)
    requires Good(d, s) && InRange(d, env) && s.Compare?
    ensures Covered(s, env, Visit(d, s).value.notes)
  {
    hide Visit, Eval, Parsed, SignedCovered, ComparisonInfo, Wide, InRange;
    Children(d, s);
    VisitedParts(d, s);
    InInterval(d, s.left, env);
    InInterval(d, s.right, env);
    if s.op != Eq && s.op != Ne {
      ComparisonRange(Visit(d, s.left).value, s.op, Visit(d, s.right).value, Eval(s.left, env).value,
                      Eval(s.right, env).value);
    }
  }

  lemma CallCovered(d: Declarations, s: Expr, env: Bindings)
    requires Good(d, s) && InRange(d, env) && s.Call?
    ensures Covered(s, env, Visit(d, s).value.notes)
  {
    hide Visit, VisitAll, Eval, Parsed, SignedCovered, Intrinsic, Wide, InRange;
    Children(d, s);
    VisitedParts(d, s);
    VisitAllIs(d, s.args);
    var infos := VisitAll(d, s.args).value;
    forall k | 0 <= k < |s.args|
      ensures Eval(s.args[k], env).Ok? && infos[k].interval.Contains(Eval(s.args[k], env).value)
    {
      assert s.args[k] in s.args;
      InInterval(d, s.args[k], env);
    }
    var v := seq(|s.args|, k requires 0 <= k < |s.args| => Eval(s.args[k], env).value);
    IntrinsicRange(s.callee, infos, v);
  }

  /** The proofs a part is owed besides its ranges: a product of two secrets, each selection, each tested bit. */
  ghost predicate Owed(d: Declarations, s: Expr, notes: seq<Obligation>)
    requires Visit(d, s).Ok?
  {
    match s
    case Binary(Mul, _, _) => Visit(d, s).value.degree == 2 ==> Product in notes
    case Compare(_, _, _) => Bit in notes && Product in notes
    case And(parts) => |parts| >= 2 ==> Product in notes
    case Call(_, _) => Product in notes
    case _ => true
  }

  lemma {:induction false} OwedByItself(d: Declarations, s: Expr)
    requires Visit(d, s).Ok?
    ensures Owed(d, s, Visit(d, s).value.notes)
  {
    hide VisitAll, VisitConditions, AllNotes;
    match s
    case And(parts) =>
      if |parts| >= 2 {
        var notes := VisitConditions(d, parts).value;
        assert Visit(d, s).value.notes[|notes|] == Product;
      }
    case _ =>
  }

  /**
   * Wherever an accepted expression compares, takes a minimum or maximum, or clamps, some range
   * among its obligations is wide enough for the difference taken there on every in-range binding;
   * and a bit or a product is owed wherever one is tested or selected by.
   */
  lemma RangesSuffice(d: Declarations, e: Expr, s: Expr, env: Bindings)
    requires Good(d, e) && Inside(s, e) && InRange(d, env)
    ensures Good(d, s) && Covered(s, env, Visit(d, e).value.notes) && Owed(d, s, Visit(d, e).value.notes)
  {
    PartsCarry(d, e, s);
    OwedByItself(d, s);
    if s.Compare? { ComparisonCovered(d, s, env); }
    if s.Call? { CallCovered(d, s, env); }
    hide Visit, Eval, InRange, Inside, Good, FitsSigned;
    CoveredByMore(s, env, Visit(d, s).value.notes, Visit(d, e).value.notes);
  }

  lemma CoveredByMore(s: Expr, env: Bindings, notes: seq<Obligation>, more: seq<Obligation>)
    requires Covered(s, env, notes) && forall o :: o in notes ==> o in more
    ensures Covered(s, env, more)
  {
    hide Eval, FitsSigned;
    forall v | Wide(notes, v) ensures Wide(more, v) {}
  }
}
