/**
 * The price-rule language: its expressions, and the checker that derives an interval, a degree
 * and the proof obligations of every construct in one pass.  Machine integers are unbounded here.
 */
module PriceRules {
  import opened Intervals

  datatype Arith = Add | Sub | Mul
  datatype Cmp = Lt | Le | Gt | Ge | Eq | Ne

  datatype Expr =
    | Const(v: int)
    | Name(name: string)
    | Neg(inner: Expr)
    | Binary(arith: Arith, a: Expr, b: Expr)
    | Compare(left: Expr, op: Cmp, right: Expr)
    | And(parts: seq<Expr>)
    | Call(callee: Callee, args: seq<Expr>)

  /** A called name: one of the four intrinsics, or any other. */
  datatype Callee = MinOf | MaxOf | Clamp | Signed | Other(name: string)

  datatype Error =
    | EmptyInterval(lo: int, hi: int)
    | Forbidden(name: string)
    | Undeclared(name: string)
    | DegreeAboveTwo
    | NotACondition
    | UnknownIntrinsic(callee: Callee)
    | WrongArity(callee: Callee)
    | ClampBoundsNotConstant
    | SideNotACondition
    | Unused(names: set<string>)
    | NoValue(name: string)
    | CannotEvaluate(callee: Callee)
    | ClampPanics
    | MissingBinding(name: string)
    | Unbound(names: set<string>)

  datatype Result<+T> = Ok(value: T) | Err(error: Error) {
    predicate IsFailure() { Err? }
    function PropagateFailure<U>(): Result<U> requires Err? { Err(error) }
    function Extract(): T requires Ok? { value }
  }

  datatype Role = Param | State | Input
  datatype Declaration = Declaration(interval: Interval, role: Role)
  type Declarations = map<string, Declaration>

  datatype Obligation = Product | Bit | Range(bits: nat)
  datatype Info = Info(interval: Interval, degree: nat, notes: seq<Obligation>)

  /** Identifiers a price rule may never read. */
  const FORBIDDEN: set<string> :=
    {"wallet", "address", "entity", "entity_id", "user", "user_id", "client", "counterparty", "name", "kyc_id",
     "nullifier", "ip"}

  function NewInterval(lo: int, hi: int): Result<Interval> {
    if lo > hi then Err(EmptyInterval(lo, hi)) else Ok(Interval(lo, hi))
  }

  // ----- the checker -----

  function Visit(d: Declarations, e: Expr): Result<Info>
    decreases e
  {
    match e
    case Const(v) => Ok(Info(Point(v), 0, []))
    case Name(n) =>
      if n in FORBIDDEN then Err(Forbidden(n))
      else if n !in d then Err(Undeclared(n))
      else Ok(Info(d[n].interval, 1, []))
    case Neg(inner) =>
      var i :- Visit(d, inner);
      Ok(i.(interval := i.interval.Negated()))
    case Binary(arith, a, b) =>
      var x :- Visit(d, a);
      var y :- Visit(d, b);
      ArithInfo(arith, x, y)
    case Compare(a, op, b) =>
      var x :- Visit(d, a);
      var y :- Visit(d, b);
      Ok(ComparisonInfo(x, op, y))
    case And(parts) =>
      var notes :- VisitConditions(d, parts);
      Ok(Info(Interval(0, 1), 0, notes + seq(Max(|parts| - 1, 0), _ => Product)))
    case Call(callee, args) =>
      if callee.Other? then Err(UnknownIntrinsic(callee)) else
      var infos :- VisitAll(d, args);
      Intrinsic(callee, infos)
  }

  /** Sums are free; a secret times a secret costs a product, and no more than one is allowed. */
  function ArithInfo(arith: Arith, x: Info, y: Info): Result<Info> {
    match arith
    case Add => Ok(Info(x.interval.Plus(y.interval), Max(x.degree, y.degree), x.notes + y.notes))
    case Sub => Ok(Info(x.interval.Minus(y.interval), Max(x.degree, y.degree), x.notes + y.notes))
    case Mul =>
      var degree := x.degree + y.degree;
      if degree > 2 then Err(DegreeAboveTwo)
      else Ok(Info(x.interval.Times(y.interval), degree, x.notes + y.notes + if degree == 2 then [Product] else []))
  }

  /** A total comparison costs a bit, a product and a range proof; equality a bit and two products. */
  function ComparisonInfo(x: Info, op: Cmp, y: Info): Info {
    var notes :=
      if op == Eq || op == Ne then [Bit, Product, Product]
      else
        var difference := if op == Gt || op == Ge then x.interval.Minus(y.interval) else y.interval.Minus(x.interval);
        [Bit, Product, Range(difference.Minus(Point(1)).WidthBits() + 1)];
    Info(Interval(0, 1), 0, x.notes + y.notes + notes)
  }

  function VisitAll(d: Declarations, es: seq<Expr>): (r: Result<seq<Info>>)
    ensures r.Ok? ==> |r.value| == |es|
    decreases es
  {
    if es == [] then Ok([]) else
    var first :- Visit(d, es[0]);
    var rest :- VisitAll(d, es[1..]);
    Ok([first] + rest)
  }

  /** Conditions are refused one by one, before the next part is visited. */
  function VisitConditions(d: Declarations, es: seq<Expr>): Result<seq<Obligation>>
    decreases es
  {
    if es == [] then Ok([]) else
    var first :- Visit(d, es[0]);
    if !first.interval.IsCondition() then Err(NotACondition) else
    var rest :- VisitConditions(d, es[1..]);
    Ok(first.notes + rest)
  }

  function AllNotes(infos: seq<Info>): seq<Obligation> {
    if infos == [] then [] else infos[0].notes + AllNotes(infos[1..])
  }

  function Intrinsic(callee: Callee, infos: seq<Info>): Result<Info> {
    match callee
    case MinOf => Extremum(callee, infos)
    case MaxOf => Extremum(callee, infos)
    case Clamp =>
      if |infos| != 3 then Err(WrongArity(callee)) else
      var (value, lo, hi) := (infos[0].interval, infos[1].interval, infos[2].interval);
      if lo.lo != lo.hi || hi.lo != hi.hi then Err(ClampBoundsNotConstant) else
      var range :- NewInterval(lo.lo, hi.hi);
      Ok(Info(range, infos[0].degree,
              AllNotes(infos) + [Range(value.Minus(lo).WidthBits()), Range(hi.Minus(value).WidthBits()), Product]))
    case Signed =>
      if |infos| != 2 then Err(WrongArity(callee)) else
      if !infos[0].interval.IsCondition() then Err(SideNotACondition) else
      var magnitude := infos[1].interval;
      var range :- NewInterval(-magnitude.hi, magnitude.hi);
      Ok(Info(range, infos[1].degree, AllNotes(infos) + [Product]))
    case Other(_) => Err(UnknownIntrinsic(callee))
  }

  function Extremum(callee: Callee, infos: seq<Info>): Result<Info> {
    if |infos| != 2 then Err(WrongArity(callee)) else
    var (a, b) := (infos[0].interval, infos[1].interval);
    var merged := if callee == MinOf then Interval(Min(a.lo, b.lo), Min(a.hi, b.hi))
      else Interval(Max(a.lo, b.lo), Max(a.hi, b.hi));
    Ok(Info(merged, Max(infos[0].degree, infos[1].degree), AllNotes(infos) + [Range(a.Minus(b).WidthBits()), Product]))
  }

  // ----- the checked rule -----

  datatype Output = Output(name: string, tree: Expr)
  datatype Rule = Rule(declarations: Declarations, outputs: seq<Output>)
  datatype Checked = Checked(intervals: map<string, Interval>, degrees: map<string, nat>, obligations: seq<Obligation>)

  /** The names an expression reads. */
  function Names(e: Expr): set<string>
    decreases e
  {
    match e
    case Const(_) => {}
    case Name(n) => {n}
    case Neg(inner) => Names(inner)
    case Binary(_, a, b) => Names(a) + Names(b)
    case Compare(a, _, b) => Names(a) + Names(b)
    case And(parts) => AllNames(parts)
    case Call(_, args) => AllNames(args)
  }

  function AllNames(es: seq<Expr>): set<string>
    decreases es
  {
    if es == [] then {} else Names(es[0]) + AllNames(es[1..])
  }

  function Read(outputs: seq<Output>): set<string> {
    if outputs == [] then {} else Read(outputs[..|outputs| - 1]) + Names(outputs[|outputs| - 1].tree)
  }

  /** Visit the outputs in order; a repeated name keeps the last interval and degree. */
  function VisitOutputs(d: Declarations, outputs: seq<Output>): Result<Checked> {
    if outputs == [] then Ok(Checked(map[], map[], [])) else
    var done :- VisitOutputs(d, outputs[..|outputs| - 1]);
    var last := outputs[|outputs| - 1];
    var info :- Visit(d, last.tree);
    Ok(Checked(done.intervals[last.name := info.interval], done.degrees[last.name := info.degree],
               done.obligations + info.notes))
  }

  /** Every static check; the derived facts are what the circuit and the audit are built from. */
  function Check(rule: Rule): Result<Checked> {
    var checked :- VisitOutputs(rule.declarations, rule.outputs);
    var unused := rule.declarations.Keys - Read(rule.outputs);
    if unused != {} then Err(Unused(unused)) else Ok(checked)
  }

  /** The union over the outputs, scanned in order. */
  method OutputInterval(rule: Rule, checked: Checked) returns (combined: Interval)
    requires rule.outputs != [] && forall o :: o in rule.outputs ==> o.name in checked.intervals
    ensures forall o :: o in rule.outputs ==> checked.intervals[o.name].Within(combined)
    ensures exists o :: o in rule.outputs && checked.intervals[o.name].lo == combined.lo
    ensures exists o :: o in rule.outputs && checked.intervals[o.name].hi == combined.hi
    ensures combined == Hull(checked.intervals, rule.outputs)
  {
    combined := checked.intervals[rule.outputs[0].name];
    for k := 1 to |rule.outputs|
      invariant combined == Hull(checked.intervals, rule.outputs[..k])
      invariant forall j :: 0 <= j < k ==> checked.intervals[rule.outputs[j].name].Within(combined)
      invariant exists j :: 0 <= j < k && checked.intervals[rule.outputs[j].name].lo == combined.lo
      invariant exists j :: 0 <= j < k && checked.intervals[rule.outputs[j].name].hi == combined.hi
    {
      assert rule.outputs[..k + 1][..k] == rule.outputs[..k];
      combined := combined.Union(checked.intervals[rule.outputs[k].name]);
    }
    assert rule.outputs[..|rule.outputs|] == rule.outputs;
  }

  function Hull(intervals: map<string, Interval>, outputs: seq<Output>): Interval
    requires outputs != [] && forall o :: o in outputs ==> o.name in intervals
  {
    var last := intervals[outputs[|outputs| - 1].name];
    if |outputs| == 1 then last else Hull(intervals, outputs[..|outputs| - 1]).Union(last)
  }

  lemma {:induction false} HullHolds(intervals: map<string, Interval>, outputs: seq<Output>, o: Output)
    requires o in outputs && forall o :: o in outputs ==> o.name in intervals
    ensures intervals[o.name].Within(Hull(intervals, outputs))
  {
    var rest := outputs[..|outputs| - 1];
    if o in rest {
      HullHolds(intervals, rest, o);
    } else {
      assert o == outputs[|outputs| - 1];
    }
  }

  // ----- what acceptance means -----

  lemma {:induction false} VisitReads(d: Declarations, e: Expr)
    requires Visit(d, e).Ok?
    ensures Names(e) <= d.Keys && Names(e) !! FORBIDDEN
    decreases e
  {
    match e
    case Const(_) =>
    case Name(_) =>
    case Neg(inner) => VisitReads(d, inner);
    case Binary(_, a, b) => VisitReads(d, a); VisitReads(d, b);
    case Compare(a, _, b) => VisitReads(d, a); VisitReads(d, b);
    case And(parts) => ConditionsRead(d, parts);
    case Call(_, args) => AllRead(d, args);
  }

  lemma {:induction false} AllRead(d: Declarations, es: seq<Expr>)
    requires VisitAll(d, es).Ok?
    ensures AllNames(es) <= d.Keys && AllNames(es) !! FORBIDDEN
    decreases es
  {
    if es != [] {
      VisitReads(d, es[0]);
      AllRead(d, es[1..]);
    }
  }

  lemma {:induction false} ConditionsRead(d: Declarations, es: seq<Expr>)
    requires VisitConditions(d, es).Ok?
    ensures AllNames(es) <= d.Keys && AllNames(es) !! FORBIDDEN
    decreases es
  {
    if es != [] {
      VisitReads(d, es[0]);
      ConditionsRead(d, es[1..]);
    }
  }

  lemma {:induction false} OutputsVisited(d: Declarations, outputs: seq<Output>, k: nat)
    requires VisitOutputs(d, outputs).Ok? && k < |outputs|
    ensures Visit(d, outputs[k].tree).Ok? && outputs[k].name in VisitOutputs(d, outputs).value.intervals
    ensures Read(outputs) <= d.Keys && Read(outputs) !! FORBIDDEN
    ensures (forall j :: k < j < |outputs| ==> outputs[j].name != outputs[k].name) ==>
              VisitOutputs(d, outputs).value.intervals[outputs[k].name] == Visit(d, outputs[k].tree).value.interval
  {
    var rest, last := outputs[..|outputs| - 1], outputs[|outputs| - 1];
    VisitReads(d, last.tree);
    if rest != [] { OutputsVisited(d, rest, if k < |rest| then k else 0); }
  }

  /** An accepted rule reads exactly what it declares, and nothing that tells who is asking. */
  lemma {:induction false} AcceptedReadsItsDeclarations(rule: Rule)
    requires rule.outputs != [] && Check(rule).Ok?
    ensures Read(rule.outputs) == rule.declarations.Keys
    ensures rule.declarations.Keys !! FORBIDDEN
  {
    OutputsVisited(rule.declarations, rule.outputs, 0);
  }
}
