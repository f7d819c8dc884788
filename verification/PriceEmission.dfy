/**
 * What a checked price rule implies: the clear evaluator and the MP-SPDZ expression, and the
 * proof that on every in-range binding the two agree, stay inside the checked interval and
 * never fail.
 */
module PriceEmission {
  import opened Basics
  import P = Polynomials
  import opened BitWidth
  import opened Circuit
  import opened Intervals
  import opened PriceRules

  type Bindings = map<string, int>

  // ----- the clear evaluator -----

  function Holds(l: int, op: Cmp, r: int): bool {
    match op
    case Lt => l < r
    case Le => l <= r
    case Gt => l > r
    case Ge => l >= r
    case Eq => l == r
    case Ne => l != r
  }

  function Compute(x: int, arith: Arith, y: int): int {
    match arith
    case Add => x + y
    case Sub => x - y
    case Mul => x * y
  }

  /** Bitwise and of a bit with any integer: the low bit survives. */
  function BitAnd(bit: int, v: int): int
    requires bit == 0 || bit == 1
  {
    if bit == 0 then 0 else v % 2
  }

  function Eval(e: Expr, env: Bindings): Result<int>
    decreases e
  {
    match e
    case Const(v) => Ok(v)
    case Name(n) => if n in env then Ok(env[n]) else Err(NoValue(n))
    case Neg(inner) =>
      var x :- Eval(inner, env);
      Ok(-x)
    case Binary(arith, a, b) =>
      var x :- Eval(a, env);
      var y :- Eval(b, env);
      Ok(Compute(x, arith, y))
    case Compare(a, op, b) =>
      var x :- Eval(a, env);
      var y :- Eval(b, env);
      Ok(Truth(Holds(x, op, y)))
    case And(parts) => EvalAnd(parts, env, 1)
    case Call(callee, args) =>
      var v :- EvalAll(args, env);
      Apply(callee, v)
  }

  /** The running conjunction over the parts still to come. */
  function EvalAnd(parts: seq<Expr>, env: Bindings, all: int): Result<int>
    requires all == 0 || all == 1
    decreases parts
  {
    if parts == [] then Ok(all) else
    var x :- Eval(parts[0], env);
    EvalAnd(parts[1..], env, BitAnd(all, x))
  }

  function EvalAll(es: seq<Expr>, env: Bindings): (r: Result<seq<int>>)
    ensures r.Ok? ==> |r.value| == |es|
    decreases es
  {
    if es == [] then Ok([]) else
    var first :- Eval(es[0], env);
    var rest :- EvalAll(es[1..], env);
    Ok([first] + rest)
  }

  /** The intrinsics on clear values; clamping between bounds in the wrong order panics. */
  function Apply(callee: Callee, v: seq<int>): Result<int> {
    match (callee, |v|)
    case (MinOf, 2) => Ok(Min(v[0], v[1]))
    case (MaxOf, 2) => Ok(Max(v[0], v[1]))
    case (Clamp, 3) =>
      if v[1] > v[2] then Err(ClampPanics)
      else Ok(if v[0] < v[1] then v[1] else if v[0] > v[2] then v[2] else v[0])
    case (Signed, 2) => Ok(if v[0] == 1 then v[1] else -v[1])
    case _ => Err(CannotEvaluate(callee))
  }

  /** Evaluate every output; the values of a repeated name end as its last. */
  function Evaluate(outputs: seq<Output>, env: Bindings): Result<map<string, int>> {
    if outputs == [] then Ok(map[]) else
    var done :- Evaluate(outputs[..|outputs| - 1], env);
    var last := outputs[|outputs| - 1];
    var v :- Eval(last.tree, env);
    Ok(done[last.name := v])
  }

  // ----- the target -----

  /** MP-SPDZ expressions; `Column` is a secret vector's lane and `NotANumber` a text with no value. */
  datatype Mpc =
    | Sint(v: int)
    | Clear(k: int)
    | Column(name: string)
    | Minus(e: Mpc)
    | Combine(a: Mpc, arith: Arith, b: Mpc)
    | Test(a: Mpc, op: Cmp, b: Mpc)
    | IfElse(c: Mpc, a: Mpc, b: Mpc)
    | NotANumber

  /** The circuit's value, where it has one. */
  function Value(m: Mpc, columns: Bindings): Option<int> {
    match m
    case Sint(v) => Some(v)
    case Clear(k) => Some(k)
    case Column(n) => if n in columns then Some(columns[n]) else None
    case Minus(e) =>
      var x := Value(e, columns);
      if x.Some? then Some(-x.value) else None
    case Combine(a, arith, b) =>
      var (x, y) := (Value(a, columns), Value(b, columns));
      if x.Some? && y.Some? then Some(Compute(x.value, arith, y.value)) else None
    case Test(a, op, b) =>
      var (x, y) := (Value(a, columns), Value(b, columns));
      if x.Some? && y.Some? then Some(Truth(Holds(x.value, op, y.value))) else None
    case IfElse(c, a, b) =>
      var (z, x, y) := (Value(c, columns), Value(a, columns), Value(b, columns));
      if z.Some? && x.Some? && y.Some? then Some(Mux(z.value, x.value, y.value)) else None
    case NotANumber => None
  }

  // ----- emission -----

  /** Names become their own columns, or what the surrounding circuit binds them to. */
  function EmitName(n: string, bindings: Option<map<string, Mpc>>): Result<Mpc> {
    match bindings
    case None => Ok(Column(n))
    case Some(b) => if n in b then Ok(b[n]) else Err(MissingBinding(n))
  }

  function Emit(e: Expr, bindings: Option<map<string, Mpc>>): Result<Mpc>
    decreases e
  {
    match e
    case Const(v) => Ok(Sint(v))
    case Name(n) => EmitName(n, bindings)
    case Neg(inner) =>
      var x :- Emit(inner, bindings);
      Ok(Minus(x))
    case Binary(arith, a, b) =>
      var x :- Emit(a, bindings);
      var y :- Emit(b, bindings);
      Ok(Combine(x, arith, y))
    case Compare(a, op, b) =>
      var x :- Emit(a, bindings);
      var y :- Emit(b, bindings);
      Ok(EmitTest(x, op, y))
    case And(parts) =>
      var ms :- EmitAll(parts, bindings);
      Ok(Joined(ms))
    case Call(callee, args) =>
      var ms :- EmitAll(args, bindings);
      Ok(EmitCall(callee, ms))
  }

  /** There is no inequality test: it is one minus the equality bit. */
  function EmitTest(x: Mpc, op: Cmp, y: Mpc): Mpc {
    if op == Ne then Combine(Clear(1), Sub, Test(x, Eq, y)) else Test(x, op, y)
  }

  function EmitAll(es: seq<Expr>, bindings: Option<map<string, Mpc>>): (r: Result<seq<Mpc>>)
    ensures r.Ok? ==> |r.value| == |es|
    decreases es
  {
    if es == [] then Ok([]) else
    var first :- Emit(es[0], bindings);
    var rest :- EmitAll(es[1..], bindings);
    Ok([first] + rest)
  }

  /** The parts joined by multiplication signs, which associate to the left. */
  function Joined(ms: seq<Mpc>): Mpc {
    if ms == [] then NotANumber
    else if |ms| == 1 then ms[0]
    else Combine(Joined(ms[..|ms| - 1]), Mul, ms[|ms| - 1])
  }

  function EmitCall(callee: Callee, ms: seq<Mpc>): Mpc {
    match (callee, |ms|)
    case (MinOf, 2) => IfElse(Test(ms[0], Lt, ms[1]), ms[0], ms[1])
    case (MaxOf, 2) => IfElse(Test(ms[0], Lt, ms[1]), ms[1], ms[0])
    case (Clamp, 3) => IfElse(Test(ms[0], Lt, ms[1]), ms[1], IfElse(Test(ms[2], Lt, ms[0]), ms[2], ms[0]))
    case (Signed, 2) => IfElse(ms[0], ms[1], Minus(ms[1]))
    case _ => NotANumber
  }

  /** One expression per output; every declared name has to be bound. */
  function ToMpcWithBindings(rule: Rule, bindings: map<string, Mpc>): Result<map<string, Mpc>> {
    var missing := rule.declarations.Keys - bindings.Keys;
    if missing != {} then Err(Unbound(missing)) else EmitOutputs(rule.outputs, Some(bindings))
  }

  function EmitOutputs(outputs: seq<Output>, bindings: Option<map<string, Mpc>>): Result<map<string, Mpc>> {
    if outputs == [] then Ok(map[]) else
    var done :- EmitOutputs(outputs[..|outputs| - 1], bindings);
    var last := outputs[|outputs| - 1];
    var m :- Emit(last.tree, bindings);
    Ok(done[last.name := m])
  }

  // ----- the hypotheses -----

  /** Every value is bound inside its declared interval. */
  ghost predicate InRange(d: Declarations, env: Bindings) {
    forall n :: n in d ==> n in env && d[n].interval.Contains(env[n])
  }

  /** The circuit's columns, or the bound expressions over them, carry the bound values. */
  ghost predicate Supplies(d: Declarations, bindings: Option<map<string, Mpc>>, columns: Bindings, env: Bindings) {
    match bindings
    case None => forall n :: n in d && n in env ==> n in columns && columns[n] == env[n]
    case Some(b) => forall n :: n in d && n in env ==> n in b && Value(b[n], columns) == Some(env[n])
  }

  /** A conjunction has parts; the parser only builds it from two or more. */
  ghost predicate Parsed(e: Expr)
    decreases e
  {
    match e
    case Const(_) => true
    case Name(_) => true
    case Neg(inner) => Parsed(inner)
    case Binary(_, a, b) => Parsed(a) && Parsed(b)
    case Compare(a, _, b) => Parsed(a) && Parsed(b)
    case And(parts) => parts != [] && forall p :: p in parts ==> Parsed(p)
    case Call(_, args) => forall p :: p in args ==> Parsed(p)
  }

  /** No magnitude given to `signed` reaches further below zero than above it. */
  ghost predicate SignedCovered(d: Declarations, e: Expr)
    decreases e
  {
    match e
    case Const(_) => true
    case Name(_) => true
    case Neg(inner) => SignedCovered(d, inner)
    case Binary(_, a, b) => SignedCovered(d, a) && SignedCovered(d, b)
    case Compare(a, _, b) => SignedCovered(d, a) && SignedCovered(d, b)
    case And(parts) => forall p :: p in parts ==> SignedCovered(d, p)
    case Call(callee, args) =>
      && (forall p :: p in args ==> SignedCovered(d, p))
      && (callee == Signed && |args| == 2 && Visit(d, args[1]).Ok? ==>
            Visit(d, args[1]).value.interval.lo >= -Visit(d, args[1]).value.interval.hi)
  }

  // ----- emission preserves meaning -----

  /** What the main theorem says of one expression. */
  ghost predicate Agrees(i: Interval, e: Expr, env: Bindings, bindings: Option<map<string, Mpc>>, columns: Bindings) {
    && Eval(e, env).Ok? && i.Contains(Eval(e, env).value)
    && Emit(e, bindings).Ok? && Value(Emit(e, bindings).value, columns) == Some(Eval(e, env).value)
  }

  /**
   * For every accepted expression and every in-range binding the evaluator succeeds, its value
   * lies in the checked interval, and the emitted expression has the same value.
   */
  lemma {:induction false} Faithful(d: Declarations, e: Expr, env: Bindings, bindings: Option<map<string, Mpc>>,
                                    columns: Bindings)
    requires Visit(d, e).Ok? && Parsed(e) && SignedCovered(d, e)
    requires InRange(d, env) && Supplies(d, bindings, columns, env)
    ensures Agrees(Visit(d, e).value.interval, e, env, bindings, columns)
    decreases e, 1
  {
    match e
    case Const(_) => hide InRange, Supplies;
    case Name(_) =>
    case Neg(_) => FaithfulNeg(d, e, env, bindings, columns);
    case Binary(_, _, _) => FaithfulBinary(d, e, env, bindings, columns);
    case Compare(_, _, _) => FaithfulComparison(d, e, env, bindings, columns);
    case And(_) => FaithfulConjunction(d, e, env, bindings, columns);
    case Call(_, _) => FaithfulCall(d, e, env, bindings, columns);
  }

  /** What acceptance and the two hypotheses say of an expression's parts. */
  lemma {:induction false} Children(d: Declarations, e: Expr)
    requires Visit(d, e).Ok? && Parsed(e) && SignedCovered(d, e)
    ensures e.Neg? ==> Good(d, e.inner)
    ensures e.Binary? ==> Good(d, e.a) && Good(d, e.b)
    ensures e.Compare? ==> Good(d, e.left) && Good(d, e.right)
    ensures e.And? ==>
              && (forall p :: p in e.parts ==> Parsed(p) && SignedCovered(d, p))
              && e.parts != [] && VisitConditions(d, e.parts).Ok?
    ensures e.Call? ==> (forall p :: p in e.args ==> Parsed(p) && SignedCovered(d, p)) && VisitAll(d, e.args).Ok?
  {}

  ghost predicate Good(d: Declarations, e: Expr) { Visit(d, e).Ok? && Parsed(e) && SignedCovered(d, e) }

  lemma {:induction false} FaithfulNeg(d: Declarations, e: Expr, env: Bindings, bindings: Option<map<string, Mpc>>,
                                       columns: Bindings)
    requires e.Neg? && Visit(d, e).Ok? && Parsed(e) && SignedCovered(d, e)
    requires InRange(d, env) && Supplies(d, bindings, columns, env)
    ensures Agrees(Visit(d, e).value.interval, e, env, bindings, columns)
    decreases e, 0
  {
    hide InRange, Supplies, Visit, Parsed, SignedCovered, Eval, Emit, Value;
    Children(d, e);
    Faithful(d, e.inner, env, bindings, columns);
    assert Visit(d, e).value.interval == Visit(d, e.inner).value.interval.Negated() by { VisitNeg(d, e); }
    assert Eval(e, env) == Ok(-Eval(e.inner, env).value) by { EvalNeg(e, env); }
    EmitNeg(e, bindings, columns);
  }

  lemma {:induction false} VisitNeg(d: Declarations, e: Expr)
    requires e.Neg? && Visit(d, e).Ok?
    ensures Visit(d, e.inner).Ok? && Visit(d, e).value.interval == Visit(d, e.inner).value.interval.Negated()
  {}

  lemma {:induction false} EvalNeg(e: Expr, env: Bindings)
    requires e.Neg? && Eval(e.inner, env).Ok?
    ensures Eval(e, env) == Ok(-Eval(e.inner, env).value)
  {}

  lemma {:induction false} EmitNeg(e: Expr, bindings: Option<map<string, Mpc>>, columns: Bindings)
    requires e.Neg? && Emit(e.inner, bindings).Ok? && Value(Emit(e.inner, bindings).value, columns).Some?
    ensures Emit(e, bindings).Ok? && Value(Emit(e, bindings).value, columns)
            == Some(-Value(Emit(e.inner, bindings).value, columns).value)
  {}

  lemma {:induction false} FaithfulBinary(d: Declarations, e: Expr, env: Bindings, bindings: Option<map<string, Mpc>>,
                                          columns: Bindings)
    requires e.Binary? && Visit(d, e).Ok? && Parsed(e) && SignedCovered(d, e)
    requires InRange(d, env) && Supplies(d, bindings, columns, env)
    ensures Agrees(Visit(d, e).value.interval, e, env, bindings, columns)
    decreases e, 0
  {
    hide InRange, Supplies, Visit, Parsed, SignedCovered, Eval, Emit, Value;
    Children(d, e);
    Faithful(d, e.a, env, bindings, columns);
    Faithful(d, e.b, env, bindings, columns);
    var x, y := Eval(e.a, env).value, Eval(e.b, env).value;
    EvalBinary(e, env);
    EmitBinary(e, bindings, columns);
    VisitBinary(d, e, x, y);
  }

  lemma {:induction false} VisitBinary(d: Declarations, e: Expr, x: int, y: int)
    requires e.Binary? && Visit(d, e).Ok? && Visit(d, e.a).Ok? && Visit(d, e.b).Ok?
    requires Visit(d, e.a).value.interval.Contains(x) && Visit(d, e.b).value.interval.Contains(y)
    ensures Visit(d, e).value.interval.Contains(Compute(x, e.arith, y))
  {
    VisitBinaryIs(d, e);
    hide Visit;
    TimesIsExact(Visit(d, e.a).value.interval, Visit(d, e.b).value.interval);
  }

  lemma {:induction false} VisitBinaryIs(d: Declarations, e: Expr)
    requires e.Binary? && Visit(d, e).Ok?
    ensures Visit(d, e.a).Ok? && Visit(d, e.b).Ok?
            && Visit(d, e) == ArithInfo(e.arith, Visit(d, e.a).value, Visit(d, e.b).value)
  {}

  lemma {:induction false} EvalBinary(e: Expr, env: Bindings)
    requires e.Binary? && Eval(e.a, env).Ok? && Eval(e.b, env).Ok?
    ensures Eval(e, env) == Ok(Compute(Eval(e.a, env).value, e.arith, Eval(e.b, env).value))
  {}

  lemma {:induction false} EmitBinary(e: Expr, bindings: Option<map<string, Mpc>>, columns: Bindings)
    requires e.Binary? && Emit(e.a, bindings).Ok? && Emit(e.b, bindings).Ok?
    requires Value(Emit(e.a, bindings).value, columns).Some? && Value(Emit(e.b, bindings).value, columns).Some?
    ensures Emit(e, bindings).Ok?
    ensures Value(Emit(e, bindings).value, columns)
            == Some(Compute(Value(Emit(e.a, bindings).value, columns).value, e.arith,
                            Value(Emit(e.b, bindings).value, columns).value))
  {
    hide Compute;
  }

  lemma {:induction false} FaithfulComparison(d: Declarations, e: Expr, env: Bindings,
                                              bindings: Option<map<string, Mpc>>, columns: Bindings)
    requires e.Compare? && Visit(d, e).Ok? && Parsed(e) && SignedCovered(d, e)
    requires InRange(d, env) && Supplies(d, bindings, columns, env)
    ensures Agrees(Visit(d, e).value.interval, e, env, bindings, columns)
    decreases e, 0
  {
    hide InRange, Supplies, Visit, Parsed, SignedCovered, Eval, Emit, Value;
    Children(d, e);
    Faithful(d, e.left, env, bindings, columns);
    Faithful(d, e.right, env, bindings, columns);
    VisitComparison(d, e);
    EvalComparison(e, env);
    EmitComparison(e, bindings, columns);
  }

  lemma {:induction false} VisitComparison(d: Declarations, e: Expr)
    requires e.Compare? && Visit(d, e).Ok?
    ensures Visit(d, e).value.interval == Interval(0, 1)
  {}

  lemma {:induction false} EvalComparison(e: Expr, env: Bindings)
    requires e.Compare? && Eval(e.left, env).Ok? && Eval(e.right, env).Ok?
    ensures Eval(e, env) == Ok(Truth(Holds(Eval(e.left, env).value, e.op, Eval(e.right, env).value)))
  {}

  lemma {:induction false} EmitComparison(e: Expr, bindings: Option<map<string, Mpc>>, columns: Bindings)
    requires e.Compare? && Emit(e.left, bindings).Ok? && Emit(e.right, bindings).Ok?
    requires Value(Emit(e.left, bindings).value, columns).Some? && Value(Emit(e.right, bindings).value, columns).Some?
    ensures Emit(e, bindings).Ok?
    ensures Value(Emit(e, bindings).value, columns)
            == Some(Truth(Holds(Value(Emit(e.left, bindings).value, columns).value, e.op,
                                Value(Emit(e.right, bindings).value, columns).value)))
  {
    assert Emit(e, bindings) == Ok(EmitTest(Emit(e.left, bindings).value, e.op, Emit(e.right, bindings).value));
    TestValue(Emit(e.left, bindings).value, e.op, Emit(e.right, bindings).value, columns);
  }

  lemma {:induction false} OneMinus(bit: int)
    ensures Compute(1, Sub, bit) == 1 - bit
  {}

  lemma {:induction false} TestValue(x: Mpc, op: Cmp, y: Mpc, columns: Bindings)
    requires Value(x, columns).Some? && Value(y, columns).Some?
    ensures Value(EmitTest(x, op, y), columns)
            == Some(Truth(Holds(Value(x, columns).value, op, Value(y, columns).value)))
  {
    hide Mux, Compute;
    if op == Ne {
      OneMinus(Truth(Value(x, columns).value == Value(y, columns).value));
      assert Value(Clear(1), columns) == Some(1);
      assert Value(Test(x, Eq, y), columns) == Some(Truth(Value(x, columns).value == Value(y, columns).value));
    }
  }

  lemma {:induction false} FaithfulConjunction(d: Declarations, e: Expr, env: Bindings,
                                               bindings: Option<map<string, Mpc>>, columns: Bindings)
    requires e.And? && Visit(d, e).Ok? && Parsed(e) && SignedCovered(d, e)
    requires InRange(d, env) && Supplies(d, bindings, columns, env)
    ensures Agrees(Visit(d, e).value.interval, e, env, bindings, columns)
    decreases e, 0
  {
    hide InRange, Supplies, Visit, Parsed, SignedCovered, Eval, Emit, Value;
    Children(d, e);
    ConditionsVisited(d, e.parts);
    forall k | 0 <= k < |e.parts| && Visit(d, e.parts[k]).Ok?
      ensures Agrees(Visit(d, e.parts[k]).value.interval, e.parts[k], env, bindings, columns)
    {
      Faithful(d, e.parts[k], env, bindings, columns);
    }
    Gathered(d, e.parts, env, bindings, columns);
    var v, ms := EvalAll(e.parts, env).value, EmitAll(e.parts, bindings).value;
    EvalAndIsAll(e.parts, env, 1, v);
    JoinedIsAll(ms, columns, v);
    ConjunctionIs(d, e, env, bindings);
  }

  lemma {:induction false} ConjunctionIs(d: Declarations, e: Expr, env: Bindings, bindings: Option<map<string, Mpc>>)
    requires e.And? && Visit(d, e).Ok?
    ensures Visit(d, e).value.interval == Interval(0, 1) && Eval(e, env) == EvalAnd(e.parts, env, 1)
    ensures EmitAll(e.parts, bindings).Ok? ==> Emit(e, bindings) == Ok(Joined(EmitAll(e.parts, bindings).value))
  {}

  lemma {:induction false} FaithfulCall(d: Declarations, e: Expr, env: Bindings, bindings: Option<map<string, Mpc>>,
                                        columns: Bindings)
    requires e.Call? && Visit(d, e).Ok? && Parsed(e) && SignedCovered(d, e)
    requires InRange(d, env) && Supplies(d, bindings, columns, env)
    ensures Agrees(Visit(d, e).value.interval, e, env, bindings, columns)
    decreases e, 0
  {
    hide InRange, Supplies, Visit, Parsed, SignedCovered, Eval, Emit, Value;
    Children(d, e);
    forall k | 0 <= k < |e.args| && Visit(d, e.args[k]).Ok?
      ensures Agrees(Visit(d, e.args[k]).value.interval, e.args[k], env, bindings, columns)
    {
      Faithful(d, e.args[k], env, bindings, columns);
    }
    Gathered(d, e.args, env, bindings, columns);
    CallIs(d, e, env, bindings);
    VisitAllIs(d, e.args);
    var infos := VisitAll(d, e.args).value;
    IntrinsicArity(e.callee, infos);
    FaithfulIntrinsic(e.callee, infos, EvalAll(e.args, env).value, EmitAll(e.args, bindings).value, columns);
  }

  lemma {:induction false} CallIs(d: Declarations, e: Expr, env: Bindings, bindings: Option<map<string, Mpc>>)
    requires e.Call? && Visit(d, e).Ok? && SignedCovered(d, e)
    ensures VisitAll(d, e.args).Ok? && Visit(d, e) == Intrinsic(e.callee, VisitAll(d, e.args).value)
    ensures EvalAll(e.args, env).Ok? ==> Eval(e, env) == Apply(e.callee, EvalAll(e.args, env).value)
    ensures EmitAll(e.args, bindings).Ok? ==>
              Emit(e, bindings) == Ok(EmitCall(e.callee, EmitAll(e.args, bindings).value))
    ensures e.callee == Signed && |e.args| == 2 && Visit(d, e.args[1]).Ok? ==>
              Visit(d, e.args[1]).value.interval.lo >= -Visit(d, e.args[1]).value.interval.hi
  {}

  lemma {:induction false} IntrinsicArity(callee: Callee, infos: seq<Info>)
    requires Intrinsic(callee, infos).Ok?
    ensures !callee.Other? && |infos| == if callee == Clamp then 3 else 2
  {}

  lemma {:induction false} VisitAllIs(d: Declarations, es: seq<Expr>)
    requires VisitAll(d, es).Ok?
    ensures forall k :: 0 <= k < |es| ==> Visit(d, es[k]).Ok? && VisitAll(d, es).value[k] == Visit(d, es[k]).value
  {
    hide Visit;
    if es != [] { VisitAllIs(d, es[1..]); }
  }

  lemma {:induction false} EvalAllIs(es: seq<Expr>, env: Bindings)
    requires forall k :: 0 <= k < |es| ==> Eval(es[k], env).Ok?
    ensures EvalAll(es, env).Ok? && forall k :: 0 <= k < |es| ==> EvalAll(es, env).value[k] == Eval(es[k], env).value
  {
    hide Eval;
    if es != [] { EvalAllIs(es[1..], env); }
  }

  lemma {:induction false} EmitAllIs(es: seq<Expr>, bindings: Option<map<string, Mpc>>)
    requires forall k :: 0 <= k < |es| ==> Emit(es[k], bindings).Ok?
    ensures EmitAll(es, bindings).Ok? && forall k :: 0 <= k < |es| ==>
              EmitAll(es, bindings).value[k] == Emit(es[k], bindings).value
  {
    hide Emit;
    if es != [] { EmitAllIs(es[1..], bindings); }
  }

  /** The three passes over a list of parts, once every part is known to agree. */
  lemma {:induction false} Gathered(d: Declarations, es: seq<Expr>, env: Bindings, bindings: Option<map<string, Mpc>>,
                                    columns: Bindings)
    requires VisitAll(d, es).Ok?
    requires forall k :: 0 <= k < |es| ==> Visit(d, es[k]).Ok? ==>
               Agrees(Visit(d, es[k]).value.interval, es[k], env, bindings, columns)
    ensures EvalAll(es, env).Ok? && EmitAll(es, bindings).Ok?
    ensures forall k :: 0 <= k < |es| ==> VisitAll(d, es).value[k].interval.Contains(EvalAll(es, env).value[k])
    ensures forall k :: 0 <= k < |es| ==>
              Value(EmitAll(es, bindings).value[k], columns) == Some(EvalAll(es, env).value[k])
  {
    hide Visit, Eval, Emit, Value;
    VisitAllIs(d, es);
    EvalAllIs(es, env);
    EmitAllIs(es, bindings);
  }

  lemma {:induction false} ConditionsVisited(d: Declarations, es: seq<Expr>)
    requires VisitConditions(d, es).Ok?
    ensures VisitAll(d, es).Ok? && forall k :: 0 <= k < |es| ==> VisitAll(d, es).value[k].interval.IsCondition()
  {
    if es != [] { ConditionsVisited(d, es[1..]); }
  }

  ghost predicate AllOnes(v: seq<int>) { forall k :: 0 <= k < |v| ==> v[k] == 1 }

  /** The running conjunction of bits is one exactly when every bit is. */
  lemma {:induction false} EvalAndIsAll(parts: seq<Expr>, env: Bindings, all: int, v: seq<int>)
    requires (all == 0 || all == 1) && EvalAll(parts, env) == Ok(v)
    requires forall k :: 0 <= k < |v| ==> v[k] == 0 || v[k] == 1
    ensures EvalAnd(parts, env, all) == Ok(if all == 1 && AllOnes(v) then 1 else 0)
  {
    if parts != [] {
      assert v[1..] == EvalAll(parts[1..], env).value;
      EvalAndIsAll(parts[1..], env, BitAnd(all, v[0]), v[1..]);
      assert AllOnes(v) <==> v[0] == 1 && AllOnes(v[1..]);
    }
  }

  /** So is the product of the emitted bits. */
  lemma {:induction false} JoinedIsAll(ms: seq<Mpc>, columns: Bindings, v: seq<int>)
    requires |ms| == |v| > 0 && forall k :: 0 <= k < |v| ==> Value(ms[k], columns) == Some(v[k])
    requires forall k :: 0 <= k < |v| ==> v[k] == 0 || v[k] == 1
    ensures Value(Joined(ms), columns) == Some(if AllOnes(v) then 1 else 0)
  {
    var n := |ms| - 1;
    if n > 0 {
      JoinedIsAll(ms[..n], columns, v[..n]);
      assert AllOnes(v) <==> AllOnes(v[..n]) && v[n] == 1;
    }
  }

  lemma {:induction false} FaithfulIntrinsic(callee: Callee, infos: seq<Info>, v: seq<int>, ms: seq<Mpc>,
                                             columns: Bindings)
    requires Intrinsic(callee, infos).Ok? && |infos| == |v| == |ms|
    requires forall k :: 0 <= k < |v| ==> infos[k].interval.Contains(v[k]) && Value(ms[k], columns) == Some(v[k])
    requires callee == Signed && |infos| == 2 ==> infos[1].interval.lo >= -infos[1].interval.hi
    ensures Apply(callee, v).Ok? && Intrinsic(callee, infos).value.interval.Contains(Apply(callee, v).value)
    ensures Value(EmitCall(callee, ms), columns) == Some(Apply(callee, v).value)
  {
    hide Value;
    IntrinsicArity(callee, infos);
    match callee
    case MinOf => SelectValue(ms[0], Lt, ms[1], ms[0], ms[1], columns);
    case MaxOf => SelectValue(ms[0], Lt, ms[1], ms[1], ms[0], columns);
    case Clamp =>
      SelectValue(ms[2], Lt, ms[0], ms[2], ms[0], columns);
      SelectValue(ms[0], Lt, ms[1], ms[1], IfElse(Test(ms[2], Lt, ms[0]), ms[2], ms[0]), columns);
    case Signed => SignedValue(ms[0], ms[1], columns);
  }

  /** Selecting by a test is an oblivious if. */
  lemma {:induction false} SelectValue(l: Mpc, op: Cmp, r: Mpc, a: Mpc, b: Mpc, columns: Bindings)
    requires Value(l, columns).Some? && Value(r, columns).Some? && Value(a, columns).Some? && Value(b, columns).Some?
    ensures Value(IfElse(Test(l, op, r), a, b), columns)
            == if Holds(Value(l, columns).value, op, Value(r, columns).value) then Value(a, columns)
                 else Value(b, columns)
  {
    hide Mux, Compute;
    assert Value(Test(l, op, r), columns) == Some(Truth(Holds(Value(l, columns).value, op, Value(r, columns).value)));
    MuxSelects(Value(a, columns).value, Value(b, columns).value);
  }

  lemma {:induction false} SignedValue(side: Mpc, magnitude: Mpc, columns: Bindings)
    requires Value(side, columns).Some? && 0 <= Value(side, columns).value <= 1 && Value(magnitude, columns).Some?
    ensures Value(IfElse(side, magnitude, Minus(magnitude)), columns)
            == Some(if Value(side, columns).value == 1 then Value(magnitude, columns).value
                    else -Value(magnitude, columns).value)
  {
    hide Mux, Compute;
    assert Value(Minus(magnitude), columns) == Some(-Value(magnitude, columns).value);
    MuxSelects(Value(magnitude, columns).value, -Value(magnitude, columns).value);
  }

  // ----- whole rules -----

  /** Every output of an accepted rule. */
  ghost predicate Acceptable(rule: Rule) {
    && rule.outputs != [] && Check(rule).Ok?
    && forall o :: o in rule.outputs ==> Parsed(o.tree) && SignedCovered(rule.declarations, o.tree)
  }

  lemma {:induction false} OutputsFaithful(d: Declarations, outputs: seq<Output>, env: Bindings,
                                           bindings: Option<map<string, Mpc>>, columns: Bindings)
    requires VisitOutputs(d, outputs).Ok? && InRange(d, env) && Supplies(d, bindings, columns, env)
    requires forall o :: o in outputs ==> Parsed(o.tree) && SignedCovered(d, o.tree)
    ensures Evaluate(outputs, env).Ok? && EmitOutputs(outputs, bindings).Ok?
    ensures var (i, v, m) := (VisitOutputs(d, outputs).value.intervals, Evaluate(outputs, env).value,
                              EmitOutputs(outputs, bindings).value);
            && i.Keys == v.Keys == m.Keys
            && forall n :: n in v ==> i[n].Contains(v[n]) && Value(m[n], columns) == Some(v[n])
  {
    hide Visit, Parsed, SignedCovered, Eval, Emit, Value, InRange, Supplies;
    if outputs != [] {
      var rest, last := outputs[..|outputs| - 1], outputs[|outputs| - 1];
      OutputsFaithful(d, rest, env, bindings, columns);
      Faithful(d, last.tree, env, bindings, columns);
    }
  }

  /** Every value belongs to an output of that name. */
  lemma {:induction false} OutputNamed(outputs: seq<Output>, env: Bindings, n: string) returns (o: Output)
    requires Evaluate(outputs, env).Ok? && n in Evaluate(outputs, env).value
    ensures o in outputs && o.name == n
  {
    hide Eval;
    o := outputs[|outputs| - 1];
    if o.name != n { o := OutputNamed(outputs[..|outputs| - 1], env, n); }
  }

  lemma {:induction false} OutputHasValue(outputs: seq<Output>, env: Bindings, k: nat)
    requires Evaluate(outputs, env).Ok? && k < |outputs|
    ensures outputs[k].name in Evaluate(outputs, env).value
    ensures (forall j :: k < j < |outputs| ==> outputs[j].name != outputs[k].name) ==>
              Eval(outputs[k].tree, env) == Ok(Evaluate(outputs, env).value[outputs[k].name])
  {
    hide Eval;
    if k < |outputs| - 1 { OutputHasValue(outputs[..|outputs| - 1], env, k); }
  }

  /**
   * The compiler's promise: on every in-range binding the clear evaluation of an accepted rule
   * succeeds, the circuit emitted from the same tree computes the same outputs, and each of them
   * lies in its interval and fits a signed word of the required width.
   */
  lemma {:induction false} RuleFaithful(rule: Rule, env: Bindings, bindings: Option<map<string, Mpc>>,
                                        columns: Bindings)
    requires Acceptable(rule) && InRange(rule.declarations, env) && Supplies(rule.declarations, bindings, columns, env)
    ensures Evaluate(rule.outputs, env).Ok? && EmitOutputs(rule.outputs, bindings).Ok?
    ensures forall o :: o in rule.outputs ==> o.name in Check(rule).value.intervals
    ensures var (i, v, m) := (Check(rule).value.intervals, Evaluate(rule.outputs, env).value,
                              EmitOutputs(rule.outputs, bindings).value);
            && v.Keys == m.Keys == i.Keys
            && forall n :: n in v ==>
                 && i[n].Contains(v[n]) && Value(m[n], columns) == Some(v[n])
                 && FitsSigned(v[n], Hull(i, rule.outputs).WidthBits())
  {
    hide Visit, Parsed, SignedCovered, Eval, Emit, Value, InRange, Supplies, FitsSigned;
    OutputsFaithful(rule.declarations, rule.outputs, env, bindings, columns);
    forall o | o in rule.outputs ensures o.name in Evaluate(rule.outputs, env).value {
      var k :| 0 <= k < |rule.outputs| && rule.outputs[k] == o;
      OutputHasValue(rule.outputs, env, k);
    }
    var i, v := Check(rule).value.intervals, Evaluate(rule.outputs, env).value;
    forall n | n in v ensures FitsSigned(v[n], Hull(i, rule.outputs).WidthBits()) {
      var o := OutputNamed(rule.outputs, env, n);
      HullHolds(i, rule.outputs, o);
      WidthHolds(Hull(i, rule.outputs), v[n]);
    }
  }

  /** Binding every declared name is all the circuit has to do. */
  lemma {:induction false} BoundRuleFaithful(rule: Rule, env: Bindings, bindings: map<string, Mpc>, columns: Bindings)
    requires Acceptable(rule) && InRange(rule.declarations, env)
             && Supplies(rule.declarations, Some(bindings), columns, env)
    ensures ToMpcWithBindings(rule, bindings).Ok?
    ensures var (m, v) := (ToMpcWithBindings(rule, bindings).value, Evaluate(rule.outputs, env));
            v.Ok? && m.Keys == v.value.Keys && forall n :: n in m ==> Value(m[n], columns) == Some(v.value[n])
  {
    RuleFaithful(rule, env, Some(bindings), columns);
  }

  // ----- who is asking does not matter -----

  lemma {:induction false} EvalReads(e: Expr, env: Bindings, env': Bindings)
    requires forall n :: n in Names(e) ==> (n in env <==> n in env') && (n in env ==> env[n] == env'[n])
    ensures Eval(e, env) == Eval(e, env')
    decreases e
  {
    match e
    case Const(_) =>
    case Name(_) =>
    case Neg(inner) => EvalReads(inner, env, env');
    case Binary(_, a, b) => EvalReads(a, env, env'); EvalReads(b, env, env');
    case Compare(a, _, b) => EvalReads(a, env, env'); EvalReads(b, env, env');
    case And(parts) => EvalAllReads(parts, env, env', 1);
    case Call(_, args) => EvalAllReads(args, env, env', 1);
  }

  lemma {:induction false} EvalAllReads(es: seq<Expr>, env: Bindings, env': Bindings, all: int)
    requires forall n :: n in AllNames(es) ==> (n in env <==> n in env') && (n in env ==> env[n] == env'[n])
    requires all == 0 || all == 1
    ensures EvalAll(es, env) == EvalAll(es, env') && EvalAnd(es, env, all) == EvalAnd(es, env', all)
    decreases es
  {
    if es != [] {
      EvalReads(es[0], env, env');
      EvalAllReads(es[1..], env, env', if Eval(es[0], env).Ok? then BitAnd(all, Eval(es[0], env).value) else all);
    }
  }

  lemma {:induction false} EvaluateReads(outputs: seq<Output>, env: Bindings, env': Bindings)
    requires forall n :: n in Read(outputs) ==> (n in env <==> n in env') && (n in env ==> env[n] == env'[n])
    ensures Evaluate(outputs, env) == Evaluate(outputs, env')
  {
    if outputs != [] {
      EvaluateReads(outputs[..|outputs| - 1], env, env');
      EvalReads(outputs[|outputs| - 1].tree, env, env');
    }
  }

  /** Two requests that differ only in who asks get the same quotes. */
  lemma {:induction false} QuoteIgnoresIdentity(rule: Rule, env: Bindings, env': Bindings)
    requires rule.outputs != [] && Check(rule).Ok?
    requires forall n :: n !in FORBIDDEN ==> (n in env <==> n in env') && (n in env ==> env[n] == env'[n])
    ensures Evaluate(rule.outputs, env) == Evaluate(rule.outputs, env')
  {
    AcceptedReadsItsDeclarations(rule);
    EvaluateReads(rule.outputs, env, env');
  }

  // ----- what goes wrong without the hypothesis on signed -----

  /** s in [0, 1] and m in [lo, hi]. */
  ghost function Pair(lo: int, hi: int): Declarations {
    map["s" := Declaration(Interval(0, 1), Input), "m" := Declaration(Interval(lo, hi), Param)]
  }

  const SIGNED: Expr := Call(Signed, [Name("s"), Name("m")])

  lemma {:induction false} Two<T>(x: T, y: T)
    ensures [x, y][1..] == [y] && [y][1..] == [] && [y] + [] == [y] && [x] + [y] == [x, y]
  {}

  lemma {:induction false} Three<T>(x: T, y: T, z: T)
    ensures [x, y, z][1..] == [y, z] && [x] + [y, z] == [x, y, z]
  {}

  lemma {:induction false} VisitTwo(d: Declarations, x: Expr, y: Expr)
    requires Visit(d, x).Ok? && Visit(d, y).Ok?
    ensures VisitAll(d, [x, y]) == Ok([Visit(d, x).value, Visit(d, y).value])
  {
    hide Visit;
    Two(x, y);
    Two(Visit(d, x).value, Visit(d, y).value);
    assert VisitAll(d, []) == Ok([]);
    assert VisitAll(d, [y]) == Ok([Visit(d, y).value]);
  }

  lemma {:induction false} EvalTwo(env: Bindings, x: Expr, y: Expr)
    requires Eval(x, env).Ok? && Eval(y, env).Ok?
    ensures EvalAll([x, y], env) == Ok([Eval(x, env).value, Eval(y, env).value])
  {
    hide Eval;
    Two(x, y);
    Two(Eval(x, env).value, Eval(y, env).value);
    assert EvalAll([], env) == Ok([]);
    assert EvalAll([y], env) == Ok([Eval(y, env).value]);
  }

  lemma {:induction false} EmitTwo(bindings: Option<map<string, Mpc>>, x: Expr, y: Expr)
    requires Emit(x, bindings).Ok? && Emit(y, bindings).Ok?
    ensures EmitAll([x, y], bindings) == Ok([Emit(x, bindings).value, Emit(y, bindings).value])
  {
    hide Emit;
    Two(x, y);
    Two(Emit(x, bindings).value, Emit(y, bindings).value);
    assert EmitAll([], bindings) == Ok([]);
    assert EmitAll([y], bindings) == Ok([Emit(y, bindings).value]);
  }

  // ----- the operators one by one -----

  lemma {:induction false} OperatorsMean(a: Expr, b: Expr, env: Bindings, x: int, y: int)
    requires Eval(a, env) == Ok(x) && Eval(b, env) == Ok(y)
    ensures Eval(Neg(a), env) == Ok(0 - x)
    ensures Eval(Binary(Add, a, b), env) == Ok(x + y)
    ensures Eval(Binary(Sub, a, b), env) == Ok(x - y)
    ensures Eval(Binary(Mul, a, b), env) == Ok(x * y)
    ensures Eval(Compare(a, Lt, b), env) == Ok(if x < y then 1 else 0)
    ensures Eval(Compare(a, Le, b), env) == Ok(if x <= y then 1 else 0)
    ensures Eval(Compare(a, Gt, b), env) == Ok(if y < x then 1 else 0)
    ensures Eval(Compare(a, Ge, b), env) == Ok(if y <= x then 1 else 0)
    ensures Eval(Compare(a, Eq, b), env) == Ok(if x == y then 1 else 0)
    ensures Eval(Compare(a, Ne, b), env) == Ok(if x == y then 0 else 1)
  {
    hide BitAnd, EvalAnd, EvalAll, Apply;
  }

  /** The two-place intrinsics and the conjunction of two conditions. */
  lemma {:induction false} PairsMean(a: Expr, b: Expr, env: Bindings, x: int, y: int)
    requires Eval(a, env) == Ok(x) && Eval(b, env) == Ok(y)
    ensures Eval(Call(MinOf, [a, b]), env) == Ok(if x < y then x else y)
    ensures Eval(Call(MaxOf, [a, b]), env) == Ok(if x < y then y else x)
    ensures Eval(Call(Signed, [a, b]), env) == Ok(if x == 1 then y else 0 - y)
    ensures x in {0, 1} && y in {0, 1} ==> Eval(And([a, b]), env) == Ok(if x == 1 && y == 1 then 1 else 0)
  {
    EvalTwo(env, a, b);
    assert forall callee: Callee :: Eval(Call(callee, [a, b]), env) == Apply(callee, [x, y]);
    if x in {0, 1} && y in {0, 1} {
      EvalAndIsAll([a, b], env, 1, [x, y]);
      assert AllOnes([x, y]) <==> [x, y][0] == 1 && [x, y][1] == 1;
      assert Eval(And([a, b]), env) == EvalAnd([a, b], env, 1);
    }
  }

  /** Clamping between bounds in order: inside them, and the value itself when it was. */
  lemma {:induction false} ClampMeans(a: Expr, b: Expr, c: Expr, env: Bindings, x: int, lo: int, hi: int)
    requires Eval(a, env) == Ok(x) && Eval(b, env) == Ok(lo) && Eval(c, env) == Ok(hi)
    ensures lo > hi ==> Eval(Call(Clamp, [a, b, c]), env) == Err(ClampPanics)
    ensures lo <= hi ==>
              var r := Eval(Call(Clamp, [a, b, c]), env);
              && r.Ok? && lo <= r.value <= hi && (lo <= x <= hi ==> r.value == x)
              && (x < lo ==> r.value == lo) && (hi < x ==> r.value == hi)
  {
    EvalTwo(env, b, c);
    Three(a, b, c);
    Three(x, lo, hi);
    assert EvalAll([a, b, c], env) == Ok([x, lo, hi]);
    assert Eval(Call(Clamp, [a, b, c]), env) == Apply(Clamp, [x, lo, hi]);
  }

  lemma {:induction false} SignedVisit(lo: int, hi: int)
    requires lo <= hi && hi >= 0
    ensures Visit(Pair(lo, hi), SIGNED).Ok? && Visit(Pair(lo, hi), SIGNED).value.interval == Interval(-hi, hi)
    ensures Visit(Pair(lo, hi), Name("m")) == Ok(Info(Interval(lo, hi), 1, []))
  {
    var d := Pair(lo, hi);
    assert Visit(d, Name("s")) == Ok(Info(Interval(0, 1), 1, []));
    assert Visit(d, Name("m")) == Ok(Info(Interval(lo, hi), 1, []));
    VisitTwo(d, Name("s"), Name("m"));
  }

  lemma {:induction false} SignedEval(env: Bindings)
    requires "s" in env && "m" in env
    ensures Eval(SIGNED, env) == Ok(if env["s"] == 1 then env["m"] else -env["m"])
  {
    EvalTwo(env, Name("s"), Name("m"));
  }

  /** The one binding of the counterexamples. */
  ghost function Below(m: int): Bindings { map["s" := 0, "m" := m] }

  lemma {:induction false} BelowInRange(lo: int, hi: int)
    requires lo <= hi
    ensures InRange(Pair(lo, hi), Below(lo)) && Eval(SIGNED, Below(lo)) == Ok(-lo)
  {
    SignedEval(Below(lo));
  }

  /** `signed` over a declared magnitude stays in its interval on every binding exactly when lo >= -hi. */
  lemma {:induction false} SignedRuleIff(lo: int, hi: int)
    requires lo <= hi && hi >= 0
    ensures (forall env :: InRange(Pair(lo, hi), env) ==>
               Eval(SIGNED, env).Ok? && Visit(Pair(lo, hi), SIGNED).value.interval.Contains(Eval(SIGNED, env).value))
            <==> SignedCovered(Pair(lo, hi), SIGNED)
  {
    var d := Pair(lo, hi);
    SignedVisit(lo, hi);
    assert SignedCovered(d, SIGNED) <==> lo >= -hi;
    if lo >= -hi {
      forall env | InRange(d, env)
        ensures Eval(SIGNED, env).Ok? && Interval(-hi, hi).Contains(Eval(SIGNED, env).value)
      {
        SignedEval(env);
      }
    } else {
      BelowInRange(lo, hi);
    }
  }

  /** A magnitude in [-10, 2] is given the interval [-2, 2] and three bits, and can be priced at 10. */
  lemma {:induction false} SignedEscapes()
    ensures var d := Pair(-10, 2);
            && Visit(d, SIGNED).Ok? && Visit(d, SIGNED).value.interval.WidthBits() == 3
            && InRange(d, Below(-10)) && Eval(SIGNED, Below(-10)) == Ok(10) && !FitsSigned(10, 3)
  {
    hide Visit, Eval, InRange, Pair, Below;
    SignedVisit(-10, 2);
    BelowInRange(-10, 2);
    assert BitLength(2) == 2;
    assert P.Power(2, 2) == 4;
  }

  /** Read as a condition after `max`, the escaped value makes the circuit and the evaluator disagree. */
  const ESCAPED: Expr := Call(MaxOf, [SIGNED, Const(0)])

  lemma {:induction false} EmissionDiverges()
    ensures var (d, e) := (Pair(-10, 1), And([ESCAPED, ESCAPED]));
            && Visit(d, e).Ok? && InRange(d, Below(-10)) && Eval(e, Below(-10)) == Ok(0)
            && Emit(e, None).Ok? && Value(Emit(e, None).value, Below(-10)) == Some(100)
  {
    EscapedVisit();
    EscapedEval();
    EscapedEmission(Below(-10));
    BelowInRange(-10, 1);
  }

  lemma {:induction false} EscapedVisit()
    ensures Visit(Pair(-10, 1), And([ESCAPED, ESCAPED])).Ok?
  {
    var d := Pair(-10, 1);
    SignedVisit(-10, 1);
    VisitTwo(d, SIGNED, Const(0));
    assert Visit(d, ESCAPED).Ok? && Visit(d, ESCAPED).value.interval == Interval(0, 1);
    hide Visit;
    Two(ESCAPED, ESCAPED);
    assert VisitConditions(d, [ESCAPED]).Ok?;
    assert VisitConditions(d, [ESCAPED, ESCAPED]).Ok?;
    ConjunctionVisited(d, [ESCAPED, ESCAPED]);
  }

  lemma {:induction false} ConjunctionVisited(d: Declarations, parts: seq<Expr>)
    ensures VisitConditions(d, parts).Ok? ==> Visit(d, And(parts)).Ok?
  {}

  lemma {:induction false} EscapedEval()
    ensures Eval(And([ESCAPED, ESCAPED]), Below(-10)) == Ok(0)
  {
    var env := Below(-10);
    SignedEval(env);
    EvalTwo(env, SIGNED, Const(0));
    assert Eval(ESCAPED, env) == Ok(10);
    Two(ESCAPED, ESCAPED);
    assert EvalAnd([ESCAPED], env, 0) == Ok(0);
  }

  /** `signed(s, m)` and its maximum with zero, as emitted. */
  const SIGNED_MPC: Mpc := IfElse(Column("s"), Column("m"), Minus(Column("m")))
  const ESCAPED_MPC: Mpc := IfElse(Test(SIGNED_MPC, Lt, Sint(0)), Sint(0), SIGNED_MPC)

  lemma {:induction false} EscapedEmission(env: Bindings)
    requires "s" in env && "m" in env && env["s"] == 0 && env["m"] == -10
    ensures var e := And([ESCAPED, ESCAPED]);
            Emit(e, None).Ok? && Value(Emit(e, None).value, env) == Some(100)
  {
    hide Value, Emit;
    EscapedEmits();
    EscapedValue(env);
  }

  lemma {:induction false} EscapedEmits()
    ensures Emit(And([ESCAPED, ESCAPED]), None) == Ok(Combine(ESCAPED_MPC, Mul, ESCAPED_MPC))
  {
    var none: Option<map<string, Mpc>> := None;
    var m := ESCAPED_MPC;
    EmitTwo(none, Name("s"), Name("m"));
    assert Emit(SIGNED, none) == Ok(SIGNED_MPC);
    EmitTwo(none, SIGNED, Const(0));
    assert Emit(ESCAPED, none) == Ok(m);
    EmitTwo(none, ESCAPED, ESCAPED);
    assert [m, m][..1] == [m];
    assert Joined([m]) == m && Joined([m, m]) == Combine(m, Mul, m);
    assert Emit(And([ESCAPED, ESCAPED]), none) == Ok(Joined([m, m]));
  }

  lemma {:induction false} EscapedValue(env: Bindings)
    requires "s" in env && "m" in env && env["s"] == 0 && env["m"] == -10
    ensures Value(Combine(ESCAPED_MPC, Mul, ESCAPED_MPC), env) == Some(100)
  {
    assert Value(SIGNED_MPC, env) == Some(10);
    assert Value(Test(SIGNED_MPC, Lt, Sint(0)), env) == Some(0);
    assert Value(ESCAPED_MPC, env) == Some(10);
  }

  /** Taken as a constant bound, the escaped value makes the evaluator panic. */
  lemma {:induction false} EvaluatorPanics()
    ensures var (d, e) := (Pair(-5, 0), Call(Clamp, [Const(0), SIGNED, Const(0)]));
            Visit(d, e).Ok? && InRange(d, Below(-5)) && Eval(e, Below(-5)) == Err(ClampPanics)
  {
    var d, env := Pair(-5, 0), Below(-5);
    SignedVisit(-5, 0);
    BelowInRange(-5, 0);
    ClampVisit(d);
    ClampEval(env);
  }

  lemma {:induction false} ClampVisit(d: Declarations)
    requires Visit(d, SIGNED).Ok? && Visit(d, SIGNED).value.interval == Point(0)
    ensures Visit(d, Call(Clamp, [Const(0), SIGNED, Const(0)])).Ok?
  {
    var i, z := Visit(d, SIGNED).value, Info(Point(0), 0, []);
    VisitTwo(d, SIGNED, Const(0));
    Three(Const(0), SIGNED, Const(0));
    Three(z, i, z);
    assert VisitAll(d, [Const(0), SIGNED, Const(0)]) == Ok([z, i, z]);
  }

  lemma {:induction false} ClampEval(env: Bindings)
    requires Eval(SIGNED, env) == Ok(5)
    ensures Eval(Call(Clamp, [Const(0), SIGNED, Const(0)]), env) == Err(ClampPanics)
  {
    EvalTwo(env, SIGNED, Const(0));
    Three(Const(0), SIGNED, Const(0));
    Three(0, 5, 0);
    assert EvalAll([Const(0), SIGNED, Const(0)], env) == Ok([0, 5, 0]);
  }
}
