/**
 * The venue's own price policy as a rule of the language, and the circuit's price layer emitted
 * from it: the asks and bids the auction gates are the ones the clear reference computes.
 */
module PolicyRule {
  import opened Basics
  import C = Circuit
  import opened Intervals
  import opened PriceRules
  import E = PriceEmission
  import Q = QuoteScan
  import T = Tournament
  import K = Packing
  import P = Polynomials

  // ----- the rule -----

  const PLAIN: Declarations := map[
    "ask_level" := Declaration(Interval(-200000, 200000), Param),
    "spread" := Declaration(Interval(0, 200000), Param),
    "slope" := Declaration(Interval(0, 16), Param),
    "invcoef" := Declaration(Interval(-8, 8), Param),
    "inv" := Declaration(Interval(-4000, 4000), State),
    "qty" := Declaration(Interval(1, 1000), Input)
  ]

  /** An anchored venue declares the reference as well. */
  function Declared(anchored: bool): Declarations {
    if !anchored then PLAIN else
    PLAIN["use_ref" := Declaration(Interval(0, 1), Param)]["ref_price" := Declaration(Interval(0, 1000000), Input)]
  }

  const REFERENCE: Expr := Binary(Mul, Name("use_ref"), Name("ref_price"))

  function Anchor(anchored: bool): Expr {
    if anchored then Binary(Add, Name("ask_level"), REFERENCE) else Name("ask_level")
  }

  const DEPTH: Expr := Binary(Mul, Name("slope"), Name("qty"))

  /** Each price conditional bounds the skew once more, from below and from above by turns. */
  function Skew(conditionals: nat): Expr {
    if conditionals == 0 then Binary(Mul, Name("invcoef"), Name("inv"))
    else if conditionals % 2 == 1 then Call(MaxOf, [Skew(conditionals - 1), Neg(Const(200 * conditionals))])
    else Call(MinOf, [Skew(conditionals - 1), Const(200 * conditionals)])
  }

  function AskExpr(anchored: bool, conditionals: nat): Expr {
    Binary(Add, Binary(Add, Anchor(anchored), DEPTH), Skew(conditionals))
  }

  function BidExpr(anchored: bool, conditionals: nat): Expr {
    Binary(Add, Binary(Sub, Binary(Sub, Anchor(anchored), Name("spread")), DEPTH), Skew(conditionals))
  }

  function Outputs(anchored: bool, conditionals: nat): seq<Output> {
    [Output("anchored", Anchor(anchored)), Output("depth", DEPTH), Output("skew", Skew(conditionals)),
     Output("ask", AskExpr(anchored, conditionals)), Output("bid", BidExpr(anchored, conditionals))]
  }

  function PolicyOf(anchored: bool, conditionals: nat): Rule {
    Rule(Declared(anchored), Outputs(anchored, conditionals))
  }

  // ----- it is accepted -----

  /** Accepted in this interval and degree, with nothing the circuit cannot follow. */
  ghost predicate Typed(d: Declarations, e: Expr, interval: Interval, degree: nat) {
    && Visit(d, e).Ok? && Visit(d, e).value.interval == interval && Visit(d, e).value.degree == degree
    && E.Parsed(e) && E.SignedCovered(d, e)
  }

  lemma TypedName(d: Declarations, n: string)
    requires n in d && n !in FORBIDDEN
    ensures Typed(d, Name(n), d[n].interval, 1)
  {
    hide FORBIDDEN;
  }

  function Combined(arith: Arith, i: Interval, j: Interval): Interval {
    match arith
    case Add => i.Plus(j)
    case Sub => i.Minus(j)
    case Mul => i.Times(j)
  }

  function DegreeOf(arith: Arith, p: nat, q: nat): nat { if arith == Mul then p + q else Max(p, q) }

  lemma CombinedInfo(arith: Arith, x: Info, y: Info)
    requires DegreeOf(arith, x.degree, y.degree) <= 2
    ensures ArithInfo(arith, x, y).Ok? && ArithInfo(arith, x, y).value.degree == DegreeOf(arith, x.degree, y.degree)
    ensures ArithInfo(arith, x, y).value.interval == Combined(arith, x.interval, y.interval)
  {
    hide Interval.Times;
  }

  lemma {:induction false} TypedBinary(d: Declarations, arith: Arith, a: Expr, i: Interval, p: nat, b: Expr,
                                       j: Interval, q: nat)
    requires Typed(d, a, i, p) && Typed(d, b, j, q) && DegreeOf(arith, p, q) <= 2
    ensures Typed(d, Binary(arith, a, b), Combined(arith, i, j), DegreeOf(arith, p, q))
  {
    hide ArithInfo, Combined, DegreeOf;
    CombinedInfo(arith, Visit(d, a).value, Visit(d, b).value);
    assert Visit(d, Binary(arith, a, b)) == ArithInfo(arith, Visit(d, a).value, Visit(d, b).value);
  }

  lemma {:induction false} TypedBound(d: Declarations, e: Expr, i: Interval, p: nat, bound: Expr, v: int)
    requires Typed(d, e, i, p) && Typed(d, bound, Point(v), 0)
    ensures Typed(d, Call(MaxOf, [e, bound]), Interval(Max(i.lo, v), Max(i.hi, v)), p)
    ensures Typed(d, Call(MinOf, [e, bound]), Interval(Min(i.lo, v), Min(i.hi, v)), p)
  {
    E.Two(e, bound);
    E.Two(Visit(d, e).value, Visit(d, bound).value);
    assert VisitAll(d, [bound]) == Ok([Visit(d, bound).value]);
    assert VisitAll(d, [e, bound]) == Ok([Visit(d, e).value, Visit(d, bound).value]);
    hide Visit;
    BoundVisits(d, MaxOf, e, bound);
    BoundVisits(d, MinOf, e, bound);
  }

  lemma {:induction false} BoundVisits(d: Declarations, callee: Callee, e: Expr, bound: Expr)
    requires callee == MaxOf || callee == MinOf
    requires VisitAll(d, [e, bound]).Ok?
    ensures Visit(d, Call(callee, [e, bound])) == Extremum(callee, VisitAll(d, [e, bound]).value)
  {}

  lemma {:induction false} TypedConstants(d: Declarations, v: int)
    ensures Typed(d, Const(v), Point(v), 0) && Typed(d, Neg(Const(v)), Point(-v), 0)
  {}

  /** After two conditionals the bounds only widen and change nothing more. */
  function SkewInterval(conditionals: nat): Interval {
    if conditionals == 0 then Interval(-32000, 32000)
    else if conditionals == 1 then Interval(-200, 32000)
    else Interval(-200, 400)
  }

  lemma {:induction false} TypedSkew(d: Declarations, conditionals: nat)
    requires Typed(d, Name("invcoef"), Interval(-8, 8), 1) && Typed(d, Name("inv"), Interval(-4000, 4000), 1)
    ensures Typed(d, Skew(conditionals), SkewInterval(conditionals), 2)
  {
    hide Typed;
    if conditionals == 0 {
      Products();
      TypedBinary(d, Mul, Name("invcoef"), Interval(-8, 8), 1, Name("inv"), Interval(-4000, 4000), 1);
    } else {
      var bound := 200 * conditionals;
      TypedSkew(d, conditionals - 1);
      TypedConstants(d, bound);
      if conditionals % 2 == 1 {
        TypedBound(d, Skew(conditionals - 1), SkewInterval(conditionals - 1), 2, Neg(Const(bound)), -bound);
      } else {
        TypedBound(d, Skew(conditionals - 1), SkewInterval(conditionals - 1), 2, Const(bound), bound);
      }
    }
  }

  /** None of the policy's names tells who is asking. */
  lemma Allowed()
    ensures "ask_level" !in FORBIDDEN && "spread" !in FORBIDDEN && "slope" !in FORBIDDEN && "invcoef" !in FORBIDDEN
    ensures "use_ref" !in FORBIDDEN && "inv" !in FORBIDDEN && "qty" !in FORBIDDEN && "ref_price" !in FORBIDDEN
  {}

  lemma TypedNames(anchored: bool)
    ensures var d := Declared(anchored);
            && Typed(d, Name("ask_level"), Interval(-200000, 200000), 1)
               && Typed(d, Name("spread"), Interval(0, 200000), 1)
            && Typed(d, Name("slope"), Interval(0, 16), 1) && Typed(d, Name("qty"), Interval(1, 1000), 1)
            && Typed(d, Name("invcoef"), Interval(-8, 8), 1) && Typed(d, Name("inv"), Interval(-4000, 4000), 1)
            && (anchored ==>
                Typed(d, Name("use_ref"), Interval(0, 1), 1) && Typed(d, Name("ref_price"), Interval(0, 1000000), 1))
  {
    hide Typed, FORBIDDEN;
    Allowed();
    var d := Declared(anchored);
    TypedName(d, "ask_level");
    TypedName(d, "spread");
    TypedName(d, "slope");
    TypedName(d, "qty");
    TypedName(d, "invcoef");
    TypedName(d, "inv");
    if anchored {
      TypedName(d, "use_ref");
      TypedName(d, "ref_price");
    }
  }

  function AnchorInterval(anchored: bool): Interval {
    if anchored then Interval(-200000, 1200000) else Interval(-200000, 200000)
  }

  function AskInterval(anchored: bool, conditionals: nat): Interval {
    AnchorInterval(anchored).Plus(Interval(0, 16000)).Plus(SkewInterval(conditionals))
  }

  function BidInterval(anchored: bool, conditionals: nat): Interval {
    AnchorInterval(anchored).Minus(Interval(0, 200000)).Minus(Interval(0, 16000)).Plus(SkewInterval(conditionals))
  }

  lemma Products()
    ensures Interval(0, 1).Times(Interval(0, 1000000)) == Interval(0, 1000000)
    ensures Interval(0, 16).Times(Interval(1, 1000)) == Interval(0, 16000)
    ensures Interval(-8, 8).Times(Interval(-4000, 4000)) == Interval(-32000, 32000)
  {}

  lemma TypedParts(anchored: bool)
    ensures Typed(Declared(anchored), Anchor(anchored), AnchorInterval(anchored), if anchored then 2 else 1)
    ensures Typed(Declared(anchored), DEPTH, Interval(0, 16000), 2)
  {
    hide Typed, Declared, Interval.Times;
    var d := Declared(anchored);
    TypedNames(anchored);
    Products();
    if anchored {
      TypedBinary(d, Mul, Name("use_ref"), Interval(0, 1), 1, Name("ref_price"), Interval(0, 1000000), 1);
      TypedBinary(d, Add, Name("ask_level"), Interval(-200000, 200000), 1, REFERENCE, Interval(0, 1000000), 2);
    }
    TypedBinary(d, Mul, Name("slope"), Interval(0, 16), 1, Name("qty"), Interval(1, 1000), 1);
  }

  lemma TypedPrices(anchored: bool, conditionals: nat)
    ensures Typed(Declared(anchored), Skew(conditionals), SkewInterval(conditionals), 2)
    ensures Typed(Declared(anchored), AskExpr(anchored, conditionals), AskInterval(anchored, conditionals), 2)
    ensures Typed(Declared(anchored), BidExpr(anchored, conditionals), BidInterval(anchored, conditionals), 2)
  {
    hide Typed, Declared, Skew, SkewInterval, Anchor, AnchorInterval, DEPTH;
    var d, anchor, degree := Declared(anchored), Anchor(anchored), if anchored then 2 else 1;
    var i, depth, spread, skew := AnchorInterval(anchored), Interval(0, 16000), Interval(0, 200000),
        SkewInterval(conditionals);
    TypedNames(anchored);
    TypedParts(anchored);
    TypedSkew(d, conditionals);
    TypedBinary(d, Add, anchor, i, degree, DEPTH, depth, 2);
    TypedBinary(d, Add, Binary(Add, anchor, DEPTH), i.Plus(depth), 2, Skew(conditionals), skew, 2);
    TypedBinary(d, Sub, anchor, i, degree, Name("spread"), spread, 1);
    TypedBinary(d, Sub, Binary(Sub, anchor, Name("spread")), i.Minus(spread), degree, DEPTH, depth, 2);
    var quoted := Binary(Sub, Binary(Sub, anchor, Name("spread")), DEPTH);
    TypedBinary(d, Add, quoted, i.Minus(spread).Minus(depth), 2, Skew(conditionals), skew, 2);
  }

  /** The outputs so far pass, with these intervals, and read these names. */
  ghost predicate Passed(d: Declarations, outputs: seq<Output>, intervals: map<string, Interval>, names: set<string>) {
    && VisitOutputs(d, outputs).Ok? && VisitOutputs(d, outputs).value.intervals == intervals && Read(outputs) == names
    && forall o :: o in outputs ==> E.Parsed(o.tree) && E.SignedCovered(d, o.tree)
  }

  lemma {:induction false} PassedOne(d: Declarations, outputs: seq<Output>, intervals: map<string, Interval>,
                                     names: set<string>,
                                     o: Output, interval: Interval, degree: nat)
    requires Passed(d, outputs, intervals, names) && Typed(d, o.tree, interval, degree)
    ensures Passed(d, outputs + [o], intervals[o.name := interval], names + Names(o.tree))
  {
    hide Visit, E.Parsed, E.SignedCovered, Names;
    assert (outputs + [o])[..|outputs|] == outputs;
  }

  function PolicyIntervals(anchored: bool, conditionals: nat): map<string, Interval> {
    map["anchored" := AnchorInterval(anchored), "depth" := Interval(0, 16000), "skew" := SkewInterval(conditionals),
        "ask" := AskInterval(anchored, conditionals), "bid" := BidInterval(anchored, conditionals)]
  }

  lemma {:induction false} PolicyPasses(anchored: bool, conditionals: nat) returns (names: set<string>)
    ensures Passed(Declared(anchored), Outputs(anchored, conditionals), PolicyIntervals(anchored, conditionals), names)
    ensures Names(AskExpr(anchored, conditionals)) + Names(BidExpr(anchored, conditionals)) <= names
  {
    hide Passed, Typed, Declared, Skew, Names, AskInterval, BidInterval, SkewInterval, AnchorInterval;
    var d, o, i := Declared(anchored), Outputs(anchored, conditionals), PolicyIntervals(anchored, conditionals);
    TypedParts(anchored);
    TypedPrices(anchored, conditionals);
    NothingPassed(d);
    PassedOne(d, [], map[], {}, o[0], i["anchored"], if anchored then 2 else 1);
    var n1 := {} + Names(o[0].tree);
    var i1 := map["anchored" := i["anchored"]];
    assert [] + [o[0]] == o[..1] && map[]["anchored" := i["anchored"]] == i1;
    PassedOne(d, o[..1], i1, n1, o[1], i["depth"], 2);
    assert o[..1] + [o[1]] == o[..2];
    PassedOne(d, o[..2], i1["depth" := i["depth"]], n1 + Names(o[1].tree), o[2], i["skew"], 2);
    var n3, i3 := n1 + Names(o[1].tree) + Names(o[2].tree), i1["depth" := i["depth"]]["skew" := i["skew"]];
    assert o[..2] + [o[2]] == o[..3];
    PassedOne(d, o[..3], i3, n3, o[3], i["ask"], 2);
    assert o[..3] + [o[3]] == o[..4];
    PassedOne(d, o[..4], i3["ask" := i["ask"]], n3 + Names(o[3].tree), o[4], i["bid"], 2);
    assert o[..4] + [o[4]] == o && i3["ask" := i["ask"]]["bid" := i["bid"]] == i;
    names := n3 + Names(o[3].tree) + Names(o[4].tree);
  }

  lemma NothingPassed(d: Declarations)
    ensures Passed(d, [], map[], {})
  {}

  lemma {:induction false} SkewReads(conditionals: nat)
    ensures Names(Skew(conditionals)) == {"invcoef", "inv"}
  {
    if conditionals > 0 {
      SkewReads(conditionals - 1);
      var bound := if conditionals % 2 == 1 then Neg(Const(200 * conditionals)) else Const(200 * conditionals);
      E.Two(Skew(conditionals - 1), bound);
      assert Names(Neg(Const(200 * conditionals))) == Names(Const(200 * conditionals)) == {};
      assert AllNames([bound]) == Names(bound) + AllNames([]);
      assert AllNames([Skew(conditionals - 1), bound]) == Names(Skew(conditionals - 1)) + AllNames([bound]);
    }
  }

  lemma {:induction false} PricesReadAll(anchored: bool, conditionals: nat)
    ensures Declared(anchored).Keys <= Names(AskExpr(anchored, conditionals)) + Names(BidExpr(anchored, conditionals))
  {
    hide Skew;
    SkewReads(conditionals);
    ReadsBinary(Binary(Add, Anchor(anchored), DEPTH), Skew(conditionals));
    ReadsBinary(Anchor(anchored), DEPTH);
    ReadsBinary(Name("slope"), Name("qty"));
    ReadsBinary(Name("ask_level"), REFERENCE);
    ReadsBinary(Name("use_ref"), Name("ref_price"));
    ReadsBinary(Binary(Sub, Binary(Sub, Anchor(anchored), Name("spread")), DEPTH), Skew(conditionals));
    ReadsBinary(Binary(Sub, Anchor(anchored), Name("spread")), DEPTH);
    ReadsBinary(Anchor(anchored), Name("spread"));
  }

  lemma {:induction false} ReadsBinary(a: Expr, b: Expr)
    ensures forall arith: Arith :: Names(Binary(arith, a, b)) == Names(a) + Names(b)
  {}

  /** The whole policy passes every static check, anchored or not and with any number of conditionals. */
  lemma {:induction false} PolicyAccepted(anchored: bool, conditionals: nat)
    ensures E.Acceptable(PolicyOf(anchored, conditionals))
    ensures Check(PolicyOf(anchored, conditionals)).value.intervals == PolicyIntervals(anchored, conditionals)
  {
    hide PolicyIntervals, VisitOutputs, Read, Names, Declared, E.Parsed, E.SignedCovered;
    var names := PolicyPasses(anchored, conditionals);
    PricesReadAll(anchored, conditionals);
  }

  // ----- one maker's lane -----

  /** The columns of one maker and one request. */
  ghost function Columns(v: Q.Venue, policy: Q.Policy, req: Q.Request): map<string, int>
    requires Q.Serves(v, req)
  {
    map["ask_level" := policy.askLevel, "spread" := policy.spread, "slope" := policy.slope, "invcoef" := policy.invcoef,
        "use_ref" := policy.useRef, "inv" := policy.inv, "qty" := req.qty,
        "ref_price" := if v.anchored then v.refTable[req.asset] else 0]
  }

  /** The admission bounds of the venue. */
  ghost predicate Admitted(v: Q.Venue, policy: Q.Policy, req: Q.Request)
    requires Q.Serves(v, req)
  {
    && -200000 <= policy.askLevel <= 200000 && 0 <= policy.spread <= 200000 && 0 <= policy.slope <= 16
    && -8 <= policy.invcoef <= 8 && -4000 <= policy.inv <= 4000 && 1 <= req.qty <= 1000
    && (v.anchored ==> 0 <= policy.useRef <= 1 && 0 <= v.refTable[req.asset] <= 1000000)
  }

  lemma AdmittedIsInRange(v: Q.Venue, policy: Q.Policy, req: Q.Request)
    requires Q.Serves(v, req) && Admitted(v, policy, req)
    ensures E.InRange(Declared(v.anchored), Columns(v, policy, req))
  {}

  lemma {:induction false} Evaluated(arith: Arith, a: Expr, b: Expr, env: E.Bindings)
    requires E.Eval(a, env).Ok? && E.Eval(b, env).Ok?
    ensures E.Eval(Binary(arith, a, b), env) == Ok(E.Compute(E.Eval(a, env).value, arith, E.Eval(b, env).value))
  {}

  lemma {:induction false} EvaluatedBound(callee: Callee, e: Expr, bound: Expr, env: E.Bindings, v: int)
    requires E.Eval(e, env).Ok? && E.Eval(bound, env) == Ok(v) && (callee == MaxOf || callee == MinOf)
    ensures E.Eval(Call(callee, [e, bound]), env)
            == Ok(if callee == MaxOf then Max(E.Eval(e, env).value, v) else Min(E.Eval(e, env).value, v))
  {
    E.Two(e, bound);
    E.Two(E.Eval(e, env).value, v);
    assert E.EvalAll([bound], env) == Ok([v]);
    assert E.EvalAll([e, bound], env) == Ok([E.Eval(e, env).value, v]);
  }

  /** The skew as the conditionals leave it. */
  function Bounded(conditionals: nat, skew: int): int {
    if conditionals == 0 then skew
    else if conditionals == 1 then Max(skew, -200)
    else Min(Max(skew, -200), 400)
  }

  lemma {:induction false} SkewEvaluates(conditionals: nat, env: E.Bindings)
    requires "invcoef" in env && "inv" in env
    ensures E.Eval(Skew(conditionals), env) == Ok(Bounded(conditionals, env["invcoef"] * env["inv"]))
  {
    hide E.Eval;
    if conditionals == 0 {
      NameEvaluates("invcoef", env);
      NameEvaluates("inv", env);
      Evaluated(Mul, Name("invcoef"), Name("inv"), env);
    } else {
      var bound, inner := 200 * conditionals, Skew(conditionals - 1);
      SkewEvaluates(conditionals - 1, env);
      ConstantsEvaluate(bound, env);
      if conditionals % 2 == 1 {
        EvaluatedBound(MaxOf, inner, Neg(Const(bound)), env, -bound);
      } else {
        EvaluatedBound(MinOf, inner, Const(bound), env, bound);
      }
    }
  }

  lemma NameEvaluates(n: string, env: E.Bindings)
    requires n in env
    ensures E.Eval(Name(n), env) == Ok(env[n])
  {}

  lemma {:induction false} ConstantsEvaluate(v: int, env: E.Bindings)
    ensures E.Eval(Const(v), env) == Ok(v) && E.Eval(Neg(Const(v)), env) == Ok(-v)
  {}

  lemma ColumnsEvaluate(v: Q.Venue, policy: Q.Policy, req: Q.Request)
    requires Q.Serves(v, req)
    ensures var env := Columns(v, policy, req);
            && E.Eval(Name("ask_level"), env) == Ok(policy.askLevel) && E.Eval(Name("spread"), env) == Ok(policy.spread)
            && E.Eval(Name("slope"), env) == Ok(policy.slope) && E.Eval(Name("qty"), env) == Ok(req.qty)
            && E.Eval(Name("use_ref"), env) == Ok(policy.useRef)
            && (v.anchored ==> E.Eval(Name("ref_price"), env) == Ok(v.refTable[req.asset]))
            && "invcoef" in env && env["invcoef"] == policy.invcoef && "inv" in env && env["inv"] == policy.inv
  {
    hide E.Eval;
    var env := Columns(v, policy, req);
    NameEvaluates("ask_level", env);
    NameEvaluates("spread", env);
    NameEvaluates("slope", env);
    NameEvaluates("qty", env);
    NameEvaluates("use_ref", env);
    NameEvaluates("ref_price", env);
  }

  /** What the conditionals take off or put on the clear reference's prices. */
  function Shift(conditionals: nat, policy: Q.Policy): int {
    Bounded(conditionals, policy.invcoef * policy.inv) - policy.invcoef * policy.inv
  }

  lemma RuleEvaluates(v: Q.Venue, policy: Q.Policy, req: Q.Request, conditionals: nat)
    requires Q.Serves(v, req)
    ensures var env := Columns(v, policy, req);
            && E.Eval(AskExpr(v.anchored, conditionals), env) == Ok(Q.Ask(v, policy, req) + Shift(conditionals, policy))
            && E.Eval(BidExpr(v.anchored, conditionals), env) == Ok(Q.Bid(v, policy, req) + Shift(conditionals, policy))
  {
    hide E.Eval, Columns, Skew, Bounded;
    var env, anchor, skew := Columns(v, policy, req), Anchor(v.anchored), Skew(conditionals);
    ColumnsEvaluate(v, policy, req);
    SkewEvaluates(conditionals, env);
    if v.anchored {
      Evaluated(Mul, Name("use_ref"), Name("ref_price"), env);
      Evaluated(Add, Name("ask_level"), REFERENCE, env);
    }
    Evaluated(Mul, Name("slope"), Name("qty"), env);
    Evaluated(Add, anchor, DEPTH, env);
    Evaluated(Add, Binary(Add, anchor, DEPTH), skew, env);
    Evaluated(Sub, anchor, Name("spread"), env);
    Evaluated(Sub, Binary(Sub, anchor, Name("spread")), DEPTH, env);
    Evaluated(Add, Binary(Sub, Binary(Sub, anchor, Name("spread")), DEPTH), skew, env);
  }

  /** The skew already satisfies the conditionals: a caller can see it before the request. */
  predicate WithinConditionals(conditionals: nat, policy: Q.Policy) {
    && (conditionals >= 1 ==> policy.invcoef * policy.inv >= -200)
    && (conditionals >= 2 ==> policy.invcoef * policy.inv <= 400)
  }

  lemma ShiftIsZeroIff(conditionals: nat, policy: Q.Policy)
    ensures Shift(conditionals, policy) == 0 <==> WithinConditionals(conditionals, policy)
  {}

  /** Evaluating the whole policy succeeds and puts both prices in their static intervals. */
  lemma PolicyEvaluates(v: Q.Venue, policy: Q.Policy, req: Q.Request, conditionals: nat)
    requires Q.Serves(v, req) && Admitted(v, policy, req)
    ensures var (r, shift) := (E.Evaluate(Outputs(v.anchored, conditionals), Columns(v, policy, req)),
                               Shift(conditionals, policy));
            && r.Ok? && r.value.Keys == {"anchored", "depth", "skew", "ask", "bid"}
            && r.value["ask"] == Q.Ask(v, policy, req) + shift && r.value["bid"] == Q.Bid(v, policy, req) + shift
            && AskInterval(v.anchored, conditionals).Contains(Q.Ask(v, policy, req) + shift)
            && BidInterval(v.anchored, conditionals).Contains(Q.Bid(v, policy, req) + shift)
  {
    hide E.Eval, E.InRange, E.Supplies, E.Acceptable, E.Evaluate, Columns, Declared, Q.Ask, Q.Bid, Shift, Check,
         E.EmitOutputs;
    hide AskInterval, BidInterval, AskExpr, BidExpr, Skew, Anchor, SkewInterval, AnchorInterval, Hull;
    var rule, env := PolicyOf(v.anchored, conditionals), Columns(v, policy, req);
    PolicyAccepted(v.anchored, conditionals);
    AdmittedIsInRange(v, policy, req);
    OwnColumns(Declared(v.anchored), env);
    RuleEvaluates(v, policy, req, conditionals);
    E.RuleFaithful(rule, env, None, env);
    E.OutputHasValue(rule.outputs, env, 3);
    E.OutputHasValue(rule.outputs, env, 4);
  }

  lemma OwnColumns(d: Declarations, env: E.Bindings)
    ensures E.Supplies(d, None, env, env)
  {}

  /**
   * The price layer emitted from the approved rule: on every admitted maker and request its ask
   * and bid lanes lie in the static intervals and carry the clear reference's prices, shifted by
   * what the conditionals do to the skew, whatever the circuit binds the names to.
   */
  lemma EmittedPrices(v: Q.Venue, policy: Q.Policy, req: Q.Request, conditionals: nat, bindings: map<string, E.Mpc>,
                      columns: E.Bindings)
    requires Q.Serves(v, req) && Admitted(v, policy, req)
    requires E.Supplies(Declared(v.anchored), Some(bindings), columns, Columns(v, policy, req))
    ensures var (m, shift) := (E.ToMpcWithBindings(PolicyOf(v.anchored, conditionals), bindings),
                               Shift(conditionals, policy));
            && m.Ok? && m.value.Keys == {"anchored", "depth", "skew", "ask", "bid"}
            && E.Value(m.value["ask"], columns) == Some(Q.Ask(v, policy, req) + shift)
            && E.Value(m.value["bid"], columns) == Some(Q.Bid(v, policy, req) + shift)
            && AskInterval(v.anchored, conditionals).Contains(Q.Ask(v, policy, req) + shift)
            && BidInterval(v.anchored, conditionals).Contains(Q.Bid(v, policy, req) + shift)
  {
    hide E.Value, E.InRange, E.Supplies, E.Acceptable, E.Evaluate, Columns, Declared, Q.Ask, Q.Bid, Shift,
         E.ToMpcWithBindings;
    hide AskInterval, BidInterval, Outputs;
    PolicyAccepted(v.anchored, conditionals);
    AdmittedIsInRange(v, policy, req);
    PolicyEvaluates(v, policy, req, conditionals);
    E.BoundRuleFaithful(PolicyOf(v.anchored, conditionals), Columns(v, policy, req), bindings, columns);
  }

  /** The circuit quotes the clear reference's prices exactly when the conditionals leave the skew alone. */
  lemma EmittedPricesAreReferenceIff(v: Q.Venue, policy: Q.Policy, req: Q.Request, conditionals: nat,
                                     bindings: map<string, E.Mpc>,
                                     columns: E.Bindings)
    requires Q.Serves(v, req) && Admitted(v, policy, req)
    requires E.Supplies(Declared(v.anchored), Some(bindings), columns, Columns(v, policy, req))
    ensures var m := E.ToMpcWithBindings(PolicyOf(v.anchored, conditionals), bindings);
            && m.Ok? && "ask" in m.value && "bid" in m.value
            && (E.Value(m.value["ask"], columns) == Some(Q.Ask(v, policy, req))
                <==> WithinConditionals(conditionals, policy))
            && (E.Value(m.value["bid"], columns) == Some(Q.Bid(v, policy, req))
                <==> WithinConditionals(conditionals, policy))
  {
    hide E.Supplies, E.Value, E.ToMpcWithBindings, Q.Ask, Q.Bid, Columns, Admitted, Declared, PolicyOf, Shift,
         WithinConditionals;
    EmittedPrices(v, policy, req, conditionals, bindings, columns);
    ShiftIsZeroIff(conditionals, policy);
  }

  /** The admission bounds bound the clear reference's prices. */
  lemma AdmittedPrices(v: Q.Venue, policy: Q.Policy, req: Q.Request)
    requires Q.Serves(v, req) && Admitted(v, policy, req)
    ensures -232000 <= Q.Ask(v, policy, req) <= 1248000 && -448000 <= Q.Bid(v, policy, req) <= 1232000
  {
    hide E.Evaluate, Columns, Q.Ask, Q.Bid;
    PolicyEvaluates(v, policy, req, 0);
  }

  /** A sentinel above the policy's static interval is above every eligible cost. */
  lemma AuctionOfAdmittedMakers(v: Q.Venue, policies: seq<Q.Policy>, req: Q.Request, large: int, arity: nat,
                                best: Option<Q.Best>)
    requires Q.Serves(v, req) && |policies| >= 1 && Q.ActiveIsABit(policies)
    requires arity >= 2 && T.SplitsEvenly(|policies|, arity) && large > 1248000
    requires forall i :: 0 <= i < |policies| ==> Admitted(v, policies[i], req)
    requires Q.IsBest(Q.Costs(v, policies, req), Q.Gates(v, policies, req), best)
    ensures var winner := T.Winner(Q.Keys(v, policies, req, large), arity);
            && winner == Q.FinishedKey(best, |policies|, large)
            && (winner <= T.PackKey(Q.CostLimit(req), |policies|, |policies| - 1)
                <==> Q.FinishedCost(best, large) <= if req.dir == 1 then -req.limit else req.limit)
  {
    hide Q.Ask, Q.Bid, Q.Eligible, T.Winner, Admitted, T.PackKey, Q.FinishedKey, Q.FinishedCost;
    forall i | 0 <= i < |policies| ensures Q.Cost(v, policies[i], req) < large {
      AdmittedPrices(v, policies[i], req);
    }
    Q.SentinelAboveCosts(v, policies, req, large);
    Q.AuctionIsScan(v, policies, req, large, arity, best);
  }

  // ----- the auction over the emitted lanes -----

  /** Every maker is admitted, and its lane supplies what the circuit binds the policy's names to. */
  ghost predicate Wired(v: Q.Venue, policies: seq<Q.Policy>, req: Q.Request, bindings: map<string, E.Mpc>,
                        lanes: seq<E.Bindings>)
    requires Q.Serves(v, req)
  {
    && |lanes| == |policies|
    && forall i :: 0 <= i < |policies| ==>
         && Admitted(v, policies[i], req)
         && E.Supplies(Declared(v.anchored), Some(bindings), lanes[i], Columns(v, policies[i], req))
  }

  /** The emitted price has a value in every lane. */
  ghost predicate Valued(price: E.Mpc, lanes: seq<E.Bindings>) {
    forall i :: 0 <= i < |lanes| ==> E.Value(price, lanes[i]).Some?
  }

  /** The circuit's gate and selections over the two emitted prices of a lane. */
  function EmittedCost(v: Q.Venue, policy: Q.Policy, req: Q.Request, large: int, ask: int, bid: int): int {
    C.Mux(Q.OkBit(v, policy, req), C.Mux(req.dir, -bid, ask), large)
  }

  ghost function EmittedKeys(v: Q.Venue, policies: seq<Q.Policy>, req: Q.Request, large: int, ask: E.Mpc, bid: E.Mpc,
                             lanes: seq<E.Bindings>): (r: seq<int>)
    requires |lanes| == |policies| && Valued(ask, lanes) && Valued(bid, lanes)
    ensures |r| == |policies|
    ensures forall i :: 0 <= i < |r| ==>
              r[i] == T.PackKey(EmittedCost(v, policies[i], req, large, E.Value(ask, lanes[i]).value,
                                            E.Value(bid, lanes[i]).value), |policies|, i)
  {
    seq(|policies|, i requires 0 <= i < |policies| =>
      T.PackKey(EmittedCost(v, policies[i], req, large, E.Value(ask, lanes[i]).value, E.Value(bid, lanes[i]).value),
                |policies|, i))
  }

  /** A lane's cost is the clear reference's exactly when the maker is excluded or meets the conditionals. */
  lemma LaneCostIff(v: Q.Venue, policy: Q.Policy, req: Q.Request, large: int, conditionals: nat)
    requires Q.Serves(v, req) && (policy.active == 0 || policy.active == 1)
    ensures var shift := Shift(conditionals, policy);
            EmittedCost(v, policy, req, large, Q.Ask(v, policy, req) + shift, Q.Bid(v, policy, req) + shift)
            == Q.GatedCost(v, policy, req, large)
            <==> (Q.Eligible(v, policy, req) ==> WithinConditionals(conditionals, policy))
  {
    hide Q.Ask, Q.Bid, C.Mux, Shift, WithinConditionals;
    var shift := Shift(conditionals, policy);
    var ask, bid := Q.Ask(v, policy, req), Q.Bid(v, policy, req);
    ShiftIsZeroIff(conditionals, policy);
    assert Q.OkBit(v, policy, req) == C.Truth(Q.Eligible(v, policy, req));
    C.MuxSelects(-bid, ask);
    C.MuxSelects(-(bid + shift), ask + shift);
    C.MuxSelects(C.Mux(req.dir, -bid, ask), large);
    C.MuxSelects(C.Mux(req.dir, -(bid + shift), ask + shift), large);
  }

  /** The same of one lane's key, for whatever the lane supplies. */
  lemma LaneKeyIff(v: Q.Venue, policy: Q.Policy, req: Q.Request, large: int, conditionals: nat,
                   bindings: map<string, E.Mpc>, lane: E.Bindings, makers: nat, i: nat)
    requires Q.Serves(v, req) && (policy.active == 0 || policy.active == 1) && Admitted(v, policy, req) && i < makers
    requires E.Supplies(Declared(v.anchored), Some(bindings), lane, Columns(v, policy, req))
    ensures var m := E.ToMpcWithBindings(PolicyOf(v.anchored, conditionals), bindings);
            && m.Ok? && "ask" in m.value && "bid" in m.value
            && var (ask, bid) := (E.Value(m.value["ask"], lane), E.Value(m.value["bid"], lane));
               && ask.Some? && bid.Some?
               && (T.PackKey(EmittedCost(v, policy, req, large, ask.value, bid.value), makers, i)
                   == T.PackKey(Q.GatedCost(v, policy, req, large), makers, i)
                   <==> (Q.Eligible(v, policy, req) ==> WithinConditionals(conditionals, policy)))
  {
    hide E.Supplies, E.Value, E.ToMpcWithBindings, Q.Ask, Q.Bid, Q.Eligible, Q.GatedCost, Columns, Admitted, Declared,
         PolicyOf, Shift, WithinConditionals, EmittedCost, T.PackKey;
    EmittedPrices(v, policy, req, conditionals, bindings, lane);
    LaneCostIff(v, policy, req, large, conditionals);
    var shift := Shift(conditionals, policy);
    T.PackOrders(makers,
                 EmittedCost(v, policy, req, large, Q.Ask(v, policy, req) + shift, Q.Bid(v, policy, req) + shift), i,
                 Q.GatedCost(v, policy, req, large), i);
  }

  /**
   * The keys packed from the emitted ask and bid lanes are the ones packed from the clear
   * reference's prices exactly when every eligible maker meets the price conditionals.
   */
  lemma EmittedKeysIff(v: Q.Venue, policies: seq<Q.Policy>, req: Q.Request, large: int, conditionals: nat,
                       bindings: map<string, E.Mpc>, lanes: seq<E.Bindings>)
    requires Q.Serves(v, req) && |policies| >= 1 && Q.ActiveIsABit(policies)
    requires Wired(v, policies, req, bindings, lanes)
    ensures var m := E.ToMpcWithBindings(PolicyOf(v.anchored, conditionals), bindings);
            && m.Ok? && "ask" in m.value && "bid" in m.value
            && Valued(m.value["ask"], lanes) && Valued(m.value["bid"], lanes)
            && (EmittedKeys(v, policies, req, large, m.value["ask"], m.value["bid"], lanes)
                == Q.Keys(v, policies, req, large)
                <==> forall i :: 0 <= i < |policies| && Q.Eligible(v, policies[i], req) ==>
                       WithinConditionals(conditionals, policies[i]))
  {
    hide E.Supplies, E.Value, E.ToMpcWithBindings, Q.Ask, Q.Bid, Q.Eligible, Q.GatedCost, Columns, Admitted, Declared,
         PolicyOf, WithinConditionals, EmittedCost, T.PackKey;
    var m, makers := E.ToMpcWithBindings(PolicyOf(v.anchored, conditionals), bindings), |policies|;
    LaneKeyIff(v, policies[0], req, large, conditionals, bindings, lanes[0], makers, 0);
    var ask, bid := m.value["ask"], m.value["bid"];
    forall i | 0 <= i < makers ensures E.Value(ask, lanes[i]).Some? && E.Value(bid, lanes[i]).Some? {
      LaneKeyIff(v, policies[i], req, large, conditionals, bindings, lanes[i], makers, i);
    }
    var emitted, keys := EmittedKeys(v, policies, req, large, ask, bid, lanes), Q.Keys(v, policies, req, large);
    forall i | 0 <= i < makers
      ensures emitted[i] == keys[i]
              <==> (Q.Eligible(v, policies[i], req) ==> WithinConditionals(conditionals, policies[i]))
    {
      LaneKeyIff(v, policies[i], req, large, conditionals, bindings, lanes[i], makers, i);
    }
    assert emitted == keys <==> forall i :: 0 <= i < makers ==> emitted[i] == keys[i];
  }

  /**
   * From the approved rule to the opened key: over admitted makers whose eligible ones meet the
   * price conditionals, with a sentinel above the static interval, the tournament over the keys
   * packed from the emitted lanes returns the clear scan's key, and meets the limit key exactly
   * when the scan's best cost meets the limit.
   */
  lemma EmittedAuctionIsScan(v: Q.Venue, policies: seq<Q.Policy>, req: Q.Request, large: int, arity: nat,
                             conditionals: nat, bindings: map<string, E.Mpc>, lanes: seq<E.Bindings>,
                             best: Option<Q.Best>)
    requires Q.Serves(v, req) && |policies| >= 1 && Q.ActiveIsABit(policies)
    requires arity >= 2 && T.SplitsEvenly(|policies|, arity) && large > 1248000
    requires Wired(v, policies, req, bindings, lanes)
    requires forall i :: 0 <= i < |policies| && Q.Eligible(v, policies[i], req) ==>
               WithinConditionals(conditionals, policies[i])
    requires Q.IsBest(Q.Costs(v, policies, req), Q.Gates(v, policies, req), best)
    ensures var m := E.ToMpcWithBindings(PolicyOf(v.anchored, conditionals), bindings);
            && m.Ok? && "ask" in m.value && "bid" in m.value
            && Valued(m.value["ask"], lanes) && Valued(m.value["bid"], lanes)
            && var keys := EmittedKeys(v, policies, req, large, m.value["ask"], m.value["bid"], lanes);
               var winner := T.Winner(keys, arity);
               && winner == Q.FinishedKey(best, |policies|, large)
               && (winner <= T.PackKey(Q.CostLimit(req), |policies|, |policies| - 1)
                   <==> Q.FinishedCost(best, large) <= if req.dir == 1 then -req.limit else req.limit)
  {
    hide E.Supplies, E.ToMpcWithBindings, E.Value, Q.Ask, Q.Bid, Q.Eligible, T.Winner, Admitted, Columns, Declared,
         PolicyOf, WithinConditionals, Q.GatedCost, Q.IsBest, Q.FinishedKey, Q.FinishedCost, T.PackKey, Valued;
    EmittedKeysIff(v, policies, req, large, conditionals, bindings, lanes);
    AuctionOfAdmittedMakers(v, policies, req, large, arity, best);
  }

  // ----- a maker the conditionals move -----

  /** Bind every name to its own column. */
  ghost function OwnNames(d: Declarations): map<string, E.Mpc> { map n | n in d :: E.Column(n) }

  lemma OwnNamesSupply(d: Declarations, env: E.Bindings)
    requires E.InRange(d, env)
    ensures E.Supplies(d, Some(OwnNames(d)), env, env)
  {}

  const SKEWED: Q.Policy := Q.Policy(0, 1000, 0, 0, -8, 4000, 10, 10, 1, 0)

  lemma SkewedQuotes()
    ensures Q.Serves(VENUE, BUY) && Admitted(VENUE, SKEWED, BUY) && Q.Eligible(VENUE, SKEWED, BUY)
    ensures Q.Ask(VENUE, SKEWED, BUY) == -31000 && Shift(1, SKEWED) == 31800 && VENUE.anchored
  {}

  /** What the circuit asks when every name is bound to its own column. */
  ghost function AskedBy(v: Q.Venue, policy: Q.Policy, req: Q.Request, conditionals: nat): Option<int>
    requires Q.Serves(v, req)
  {
    var m := E.ToMpcWithBindings(PolicyOf(v.anchored, conditionals), OwnNames(Declared(v.anchored)));
    if m.Ok? && "ask" in m.value then E.Value(m.value["ask"], Columns(v, policy, req)) else None
  }

  lemma AskedIsShifted(v: Q.Venue, policy: Q.Policy, req: Q.Request, conditionals: nat)
    requires Q.Serves(v, req) && Admitted(v, policy, req)
    ensures AskedBy(v, policy, req, conditionals) == Some(Q.Ask(v, policy, req) + Shift(conditionals, policy))
  {
    hide E.Supplies, E.Value, E.ToMpcWithBindings, PolicyOf, OwnNames, Shift, Q.Ask, Q.Bid, Admitted, Declared, Columns,
         E.InRange;
    AdmittedIsInRange(v, policy, req);
    OwnNamesSupply(Declared(v.anchored), Columns(v, policy, req));
    EmittedPrices(v, policy, req, conditionals, OwnNames(Declared(v.anchored)), Columns(v, policy, req));
  }

  /** An admitted maker with skew -32000: under one conditional the circuit asks 800, the clear reference -31000. */
  lemma ConditionalMovesThePrice()
    ensures Q.Serves(VENUE, BUY) && Admitted(VENUE, SKEWED, BUY) && Q.Eligible(VENUE, SKEWED, BUY)
    ensures Q.Ask(VENUE, SKEWED, BUY) == -31000 && AskedBy(VENUE, SKEWED, BUY, 1) == Some(800)
  {
    hide AskedBy, Admitted, Shift, Q.Eligible;
    SkewedQuotes();
    AskedIsShifted(VENUE, SKEWED, BUY, 1);
  }

  /** The sentinel the packing accepts is only checked against the references: a dear maker can exceed it. */
  lemma AcceptedSentinelUndercuts()
    ensures K.PackingSentinel(K.Config(10, 2, [0], 0, false, 0)) == K.Ok(128)
    ensures var policies := [DEAR, DEAR.(active := 0)];
            && Q.IsBest(Q.Costs(VENUE, policies, BUY), Q.Gates(VENUE, policies, BUY), Some(Q.Best(1000, 0)))
            && T.Winner(Q.Keys(VENUE, policies, BUY, 128), 2) != Q.FinishedKey(Some(Q.Best(1000, 0)), 2, 128)
  {
    var policies, best := [DEAR, DEAR.(active := 0)], Some(Q.Best(1000, 0));
    NarrowSentinel();
    DearScan();
    hide T.Winner, T.Level, Q.GatedCost, Q.IsBest;
    Q.TournamentIsScanIff(VENUE, policies, BUY, 128, 2, best);
  }

  const VENUE: Q.Venue := Q.Venue(true, [0], false)
  const BUY: Q.Request := Q.Request(0, 1, 0, 0, 1, 0)
  const DEAR: Q.Policy := Q.Policy(0, 1000, 0, 0, 0, 0, 10, 10, 1, 0)

  lemma DearScan()
    ensures var (policies, best) := ([DEAR, DEAR.(active := 0)], Some(Q.Best(1000, 0)));
            && Q.ActiveIsABit(policies) && T.SplitsEvenly(|policies|, 2)
            && Q.IsBest(Q.Costs(VENUE, policies, BUY), Q.Gates(VENUE, policies, BUY), best)
            && !Q.SentinelIsClear(VENUE, policies, BUY, 128)
  {
    hide Q.Cost, Q.Eligible, VENUE, BUY;
    var policies := [DEAR, DEAR.(active := 0)];
    DearQuotes();
    assert Q.Eligible(VENUE, policies[0], BUY) && !Q.Eligible(VENUE, policies[1], BUY);
    assert T.PackKey(1000, 2, 0) >= T.PackKey(128, 2, 1);
  }

  lemma DearQuotes()
    ensures Q.Serves(VENUE, BUY) && Q.Cost(VENUE, DEAR, BUY) == 1000
    ensures Q.Eligible(VENUE, DEAR, BUY) && !Q.Eligible(VENUE, DEAR.(active := 0), BUY)
  {}

  lemma NarrowSentinel()
    ensures K.PackingSentinel(K.Config(10, 2, [0], 0, false, 0)) == K.Ok(128)
  {
    assert P.Power(2, 8) == 256;
    assert K.Largest([0]) == 0;
  }
}
