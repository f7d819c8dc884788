/**
 * Whole runs of the publication ledger: what each budget has spent, how its certificates chain,
 * and that nothing is committed twice or ever reset; and the ledger as an object.
 */
module PublicationRuns {
  import opened Basics
  import opened Publication

  /** The certificates published under one budget, in order. */
  ghost function ForKey(log: seq<Certificate>, key: BudgetKey): seq<Certificate> {
    if log == [] then [] else
    var last := log[|log| - 1];
    ForKey(log[..|log| - 1], key) + if KeyOfStatement(last.statement) == key then [last] else []
  }

  ghost function TotalEpsilon(certs: seq<Certificate>): nat {
    if certs == [] then 0 else TotalEpsilon(certs[..|certs| - 1]) + certs[|certs| - 1].statement.epsilon
  }

  ghost function Before(certs: seq<Certificate>, i: nat): Option<Certificate>
    requires i <= |certs|
  {
    if i == 0 then None else Some(certs[i - 1])
  }

  /** Every certificate carries a quorum and continues the one before it; the first opens at zero. */
  ghost predicate Chained(c: Config, certs: seq<Certificate>) {
    && (forall i :: 0 <= i < |certs| ==> Certifies(c, certs[i], Before(certs, i)))
    && (certs != [] ==> certs[0].statement.before == 0)
  }

  ghost predicate RecordOk(c: Config, key: BudgetKey, r: Record, certs: seq<Certificate>) {
    && Chained(c, certs) && KeyOfAllocation(r.allocation) == key && Approves(c, r.allocation, r.approvals)
    && r.latest == Before(certs, |certs|)
    && r.spent == (if certs == [] then 0 else certs[|certs| - 1].statement.after)
    && r.lastEpoch == (if certs == [] then 0 else certs[|certs| - 1].statement.epoch)
    && r.spent <= r.allocation.total
    && forall i :: 0 <= i < |certs| ==> certs[i].statement.total == r.allocation.total
  }

  /** The replay markers are the operations of the log, each once. */
  ghost predicate MarkersOk(operations: map<Digest, Link>, log: seq<Certificate>) {
    && (forall i :: 0 <= i < |log| ==>
          log[i].statement.operation in operations && operations[log[i].statement.operation] == DigestOf(log[i]))
    && (forall i, j :: 0 <= i < j < |log| ==> log[i].statement.operation != log[j].statement.operation)
    && (forall d :: d in operations ==> exists i :: 0 <= i < |log| && log[i].statement.operation == d)
  }

  ghost predicate Inv(c: Config, l: Ledger, log: seq<Certificate>) {
    && MarkersOk(l.operations, log)
    && (forall key :: key in l.budgets ==> RecordOk(c, key, l.budgets[key], ForKey(log, key)))
    && (forall key :: key !in l.budgets ==> ForKey(log, key) == [])
  }

  lemma Appended(log: seq<Certificate>, cert: Certificate, key: BudgetKey)
    ensures ForKey(log + [cert], key) == if KeyOfStatement(cert.statement) == key then ForKey(log, key) + [cert]
              else ForKey(log, key)
  {
    assert (log + [cert])[..|log|] == log;
  }

  lemma ChainGrows(c: Config, certs: seq<Certificate>, cert: Certificate)
    requires Chained(c, certs) && Certifies(c, cert, Before(certs, |certs|))
    requires certs == [] ==> cert.statement.before == 0
    ensures Chained(c, certs + [cert])
  {
    hide Certifies;
    var longer := certs + [cert];
    forall i | 0 <= i < |longer| ensures Certifies(c, longer[i], Before(longer, i)) {
      assert Before(longer, i) == Before(certs, i);
    }
  }

  lemma DebitKeepsRecord(c: Config, l: Ledger, r: Request, m: Mechanism, cert: Certificate, certs: seq<Certificate>)
    requires Draft(l, r, m).Some? && cert.statement == Draft(l, r, m).value && KeyOf(r) in l.budgets
    requires RecordOk(c, KeyOf(r), l.budgets[KeyOf(r)], certs) && Certifies(c, cert, l.budgets[KeyOf(r)].latest)
    ensures RecordOk(c, KeyOf(r),
                     l.budgets[KeyOf(r)].(spent := cert.statement.after, lastEpoch := cert.statement.epoch,
                                          latest := Some(cert)),
                     certs + [cert])
  {
    hide Certifies, Draft, Approves, Predecessor, ByNode, States, Chained;
    DraftIs(l, r, m);
    ChainGrows(c, certs, cert);
  }

  lemma MarkersGrow(operations: map<Digest, Link>, log: seq<Certificate>, cert: Certificate)
    requires MarkersOk(operations, log) && cert.statement.operation !in operations
    ensures MarkersOk(operations[cert.statement.operation := DigestOf(cert)], log + [cert])
  {
    hide ByNode;
    var (longer, marked) := (log + [cert], operations[cert.statement.operation := DigestOf(cert)]);
    forall d | d in marked ensures exists i :: 0 <= i < |longer| && longer[i].statement.operation == d {
      if d in operations {
        var i :| 0 <= i < |log| && log[i].statement.operation == d;
        assert longer[i] == log[i];
      } else {
        assert longer[|log|] == cert;
      }
    }
  }

  lemma PublishKeepsInv(c: Config, l: Ledger, log: seq<Certificate>, r: Request, m: Mechanism,
                        answer: Option<seq<NodeSignature>>)
    requires Inv(c, l, log) && Published(c, l, r, m, answer).Some?
    ensures var cert := Published(c, l, r, m, answer).value;
            KeyOfStatement(cert.statement) in l.budgets && Inv(c, Debited(l, cert), log + [cert])
  {
    hide RecordOk, Certifies, ForKey, ByNode, MarkersOk;
    var cert, key := Published(c, l, r, m, answer).value, KeyOf(r);
    DraftIs(l, r, m);
    hide Draft;
    var after := Debited(l, cert);
    MarkersGrow(l.operations, log, cert);
    forall k | k in after.budgets ensures RecordOk(c, k, after.budgets[k], ForKey(log + [cert], k)) {
      Appended(log, cert, k);
      if k == key { DebitKeepsRecord(c, l, r, m, cert, ForKey(log, key)); }
    }
    forall k | k !in after.budgets ensures ForKey(log + [cert], k) == [] { Appended(log, cert, k); }
  }

  lemma StepKeepsInv(c: Config, l: Ledger, log: seq<Certificate>, e: Event)
    requires Inv(c, l, log)
    ensures Inv(c, Step(c, l, e).0, log + Step(c, l, e).1)
  {
    hide RecordOk, ForKey, Published, Debited, MarkersOk, Approves, Complete;
    assert log + [] == log;
    match e
    case Configure(a, approvals) => FreshRecord(c, l, a, approvals);
    case Publish(r, m, answer) => if Published(c, l, r, m, answer).Some? { PublishKeepsInv(c, l, log, r, m, answer); }
  }

  lemma FreshRecord(c: Config, l: Ledger, a: Allocation, approvals: seq<NodeSignature>)
    ensures Complete(a) && Approves(c, a, approvals) ==>
              RecordOk(c, KeyOfAllocation(a), Record(a, approvals, 0, 0, None), [])
  {
    hide Complete, Approves;
  }

  lemma {:induction false} RunKeepsInv(c: Config, events: seq<Event>)
    ensures Inv(c, Run(c, events).0, Run(c, events).1)
  {
    hide Step, Inv;
    if events == [] {
      NothingPublished(c);
    } else {
      var rest := events[..|events| - 1];
      RunKeepsInv(c, rest);
      StepKeepsInv(c, Run(c, rest).0, Run(c, rest).1, events[|events| - 1]);
    }
  }

  lemma NothingPublished(c: Config)
    ensures Inv(c, EMPTY, [])
  {}

  // ----- what the chain says -----

  /** Along a chain the balance is the sum of what was spent, and epochs only rise. */
  lemma {:induction false} ChainAdds(c: Config, certs: seq<Certificate>)
    requires Chained(c, certs) && certs != []
    ensures TotalEpsilon(certs) == certs[|certs| - 1].statement.after
  {
    hide Chained;
    var n := |certs| - 1;
    BalanceOf(c, certs, n);
    if n > 0 {
      PrefixChained(c, certs, n);
      ChainAdds(c, certs[..n]);
    }
  }

  lemma BalanceOf(c: Config, certs: seq<Certificate>, i: nat)
    requires Chained(c, certs) && i < |certs|
    ensures certs[i].statement.after == certs[i].statement.epsilon + if i == 0 then 0 else certs[i - 1].statement.after
  {
    hide ByNode, Signers, Independent;
    assert Certifies(c, certs[i], Before(certs, i));
  }

  lemma PrefixChained(c: Config, certs: seq<Certificate>, n: nat)
    requires Chained(c, certs) && n <= |certs|
    ensures Chained(c, certs[..n])
  {
    hide Certifies;
    forall i | 0 <= i < n ensures Certifies(c, certs[..n][i], Before(certs[..n], i)) {
      assert Before(certs[..n], i) == Before(certs, i);
    }
  }

  lemma {:induction false} EpochsRise(c: Config, certs: seq<Certificate>, i: nat, j: nat)
    requires Chained(c, certs) && i < j < |certs|
    ensures certs[i].statement.epoch < certs[j].statement.epoch
  {
    hide Chained, LinkedTo;
    FollowsPredecessor(c, certs, j);
    LaterEpoch(certs[j - 1], certs[j]);
    if i + 1 < j { EpochsRise(c, certs, i, j - 1); }
  }

  lemma FollowsPredecessor(c: Config, certs: seq<Certificate>, j: nat)
    requires Chained(c, certs) && 0 < j < |certs|
    ensures LinkedTo(certs[j - 1], certs[j])
  {
    hide ByNode, Signers, Independent, Validates;
    assert Certifies(c, certs[j], Before(certs, j));
  }

  lemma LaterEpoch(a: Certificate, b: Certificate)
    requires LinkedTo(a, b)
    ensures a.statement.epoch < b.statement.epoch
  {}

  /** A certificate names its predecessor's digest and opens at its closing balance. */
  ghost predicate LinkedTo(a: Certificate, b: Certificate) {
    b.statement.previous == DigestOf(a) && b.statement.before == a.statement.after
        && b.statement.epoch > a.statement.epoch
  }

  /**
   * The budget chain of every run: what a budget has spent is the sum of the epsilons of all
   * certificates ever published under it and never exceeds its allocation; each certificate is
   * signed by a quorum, links to its predecessor, and no operation is committed twice.
   */
  lemma BudgetChain(c: Config, events: seq<Event>, key: BudgetKey)
    requires key in Run(c, events).0.budgets
    ensures var (r, certs) := (Run(c, events).0.budgets[key], ForKey(Run(c, events).1, key));
            && r.spent == TotalEpsilon(certs) <= r.allocation.total
            && KeyOfAllocation(r.allocation) == key && Approves(c, r.allocation, r.approvals)
            && (forall i :: 0 <= i < |certs| ==> Certifies(c, certs[i], Before(certs, i)))
            && (forall i :: 0 < i < |certs| ==> LinkedTo(certs[i - 1], certs[i]))
            && (certs != [] ==> certs[0].statement.previous == NoPrevious && certs[0].statement.before == 0)
            && (forall i, j :: 0 <= i < j < |certs| ==> certs[i].statement.epoch < certs[j].statement.epoch)
  {
    hide Run, ForKey, Certifies, MarkersOk, Approves, LinkedTo, TotalEpsilon;
    RunKeepsInv(c, events);
    var certs := ForKey(Run(c, events).1, key);
    if certs != [] {
      ChainAdds(c, certs);
      OpensAtZero(c, certs);
    } else {
      assert TotalEpsilon(certs) == 0 by { NothingSpent(); }
    }
    forall i | 0 < i < |certs| ensures LinkedTo(certs[i - 1], certs[i]) { FollowsPredecessor(c, certs, i); }
    forall i, j | 0 <= i < j < |certs| ensures certs[i].statement.epoch < certs[j].statement.epoch {
      EpochsRise(c, certs, i, j);
    }
  }

  lemma NothingSpent()
    ensures TotalEpsilon([]) == 0
  {}

  lemma OpensAtZero(c: Config, certs: seq<Certificate>)
    requires Chained(c, certs) && certs != []
    ensures certs[0].statement.previous == NoPrevious && certs[0].statement.before == 0
  {
    hide ByNode, Signers, Independent, Validates;
    assert Certifies(c, certs[0], Before(certs, 0));
  }

  /** No operation identifier is ever committed twice, and every certificate belongs to an approved budget. */
  lemma OperationsAreUnique(c: Config, events: seq<Event>)
    ensures var (l, log) := Run(c, events);
            && (forall i, j :: 0 <= i < j < |log| ==> log[i].statement.operation != log[j].statement.operation)
            && (forall i :: 0 <= i < |log| ==> KeyOfStatement(log[i].statement) in l.budgets)
  {
    hide Run;
    RunKeepsInv(c, events);
    var (l, log) := Run(c, events);
    forall i | 0 <= i < |log| ensures KeyOfStatement(log[i].statement) in l.budgets {
      Listed(log, i);
    }
  }

  lemma {:induction false} Listed(log: seq<Certificate>, i: nat)
    requires i < |log|
    ensures log[i] in ForKey(log, KeyOfStatement(log[i].statement))
  {
    var n := |log| - 1;
    if i < n { Listed(log[..n], i); }
  }

  /** A configured budget keeps its allocation, and what it has spent never shrinks. */
  ghost predicate Continued(a: Ledger, b: Ledger) {
    forall key :: key in a.budgets ==>
      key in b.budgets && b.budgets[key].allocation == a.budgets[key].allocation
          && a.budgets[key].spent <= b.budgets[key].spent
  }

  lemma StepContinues(c: Config, l: Ledger, e: Event)
    ensures Continued(l, Step(c, l, e).0)
  {
    hide Certifies, Approves, Complete, Validates, Predecessor, ByNode;
    if e.Publish? && Published(c, l, e.request, e.mechanism, e.answer).Some? { DraftIs(l, e.request, e.mechanism); }
  }

  /** Budgets are never reset, over any continuation of any run. */
  lemma {:induction false} BudgetsNeverReset(c: Config, events: seq<Event>, i: nat, j: nat)
    requires i <= j <= |events|
    ensures Continued(Run(c, events[..i]).0, Run(c, events[..j]).0)
  {
    hide Step;
    if i < j {
      BudgetsNeverReset(c, events, i, j - 1);
      StepContinues(c, Run(c, events[..j - 1]).0, events[j - 1]);
      assert events[..j][..j - 1] == events[..j - 1];
    }
  }

  // ----- the ledger as an object -----

  /** A ledger opens only over two 3-of-7 registries, each of independent keys; the two may be one. */
  method OpenWithRegistries(config: Config) returns (ledger: PublicationLedger?)
    ensures ledger != null <==> Production(config)
    ensures ledger != null ==> fresh(ledger) && ledger.config == config && ledger.Contents() == EMPTY
  {
    if !Production(config) { return null; }
    ledger := new PublicationLedger(config);
  }

  class PublicationLedger {
    const config: Config
    var generation: nat
    var budgets: map<BudgetKey, Record>
    var operations: map<Digest, Link>

    function Contents(): Ledger
      reads this
    {
      Ledger(generation, budgets, operations)
    }

    constructor (config: Config)
      ensures this.config == config && Contents() == EMPTY
    {
      this.config := config;
      generation, budgets, operations := 0, map[], map[];
    }

    /** Install one governance-approved budget; an existing one is never replaced. */
    method ConfigureBudget(allocation: Allocation, approvals: seq<NodeSignature>) returns (ok: bool)
      modifies this
      ensures Contents() == Step(config, old(Contents()), Configure(allocation, approvals)).0
      ensures ok <==> && allocation.scope != ZERO && !Blank(allocation.venue) && !Blank(allocation.outputName)
                      && allocation.total > 0 && allocation.policyVersion > 0
                      && Approves(config, allocation, approvals)
                      && KeyOfAllocation(allocation) !in old(budgets) && old(generation) + 1 < U64
      ensures ok ==> budgets == old(budgets)[KeyOfAllocation(allocation) := Record(allocation, approvals, 0, 0, None)]
      ensures !ok ==> Contents() == old(Contents())
    {
      hide Signers, Independent, Blank;
      if !Complete(allocation) || !Independent(config.governance) { return false; }
      var count := CountSigners(config.governance, AllocationChecks(config, allocation), approvals);
      if count < config.governanceThreshold { return false; }
      var key := KeyOfAllocation(allocation);
      if key in budgets || generation + 1 >= U64 { return false; }
      budgets := budgets[key := Record(allocation, approvals, 0, 0, None)];
      generation := generation + 1;
      ok := true;
    }

    /** Debit the budget and append the certificate in one step; `sign` is asked once, for the final statement. */
    method PublishWith(request: Request, mechanism: Mechanism, sign: Statement -> Option<seq<NodeSignature>>)
      returns (r: Option<Certificate>, ghost answer: Option<seq<NodeSignature>>)
      modifies this
      ensures r == Published(config, old(Contents()), request, mechanism, answer)
      ensures Contents() == Step(config, old(Contents()), Publish(request, mechanism, answer)).0
      ensures Draft(old(Contents()), request, mechanism).Some? ==>
                answer == sign(Draft(old(Contents()), request, mechanism).value)
      ensures r.Some? ==>
                && States(r.value.statement, request, mechanism) && answer == Some(r.value.signatures)
                && KeyOf(request) in old(budgets) && r.value.statement.before == old(budgets)[KeyOf(request)].spent
                && KeyOf(request) in budgets && budgets[KeyOf(request)].latest == r
                && budgets[KeyOf(request)].spent == old(budgets)[KeyOf(request)].spent + mechanism.epsilon
      ensures r.None? ==> Contents() == old(Contents())
    {
      hide Certifies, Predecessor, Validates, ByNode;
      answer := None;
      var draft := Draft(Contents(), request, mechanism);
      if draft.None? { return None, answer; }
      DraftIs(Contents(), request, mechanism);
      var signatures := sign(draft.value);
      answer := signatures;
      if signatures.None? { return None, answer; }
      var cert := Certificate(draft.value, signatures.value);
      var key := KeyOf(request);
      var ok := Verify(config, cert, budgets[key].latest);
      if !ok || generation + 1 >= U64 { return None, answer; }
      var s := cert.statement;
      budgets := budgets[key := budgets[key].(spent := s.after, lastEpoch := s.epoch, latest := Some(cert))];
      operations := operations[s.operation := DigestOf(cert)];
      generation := generation + 1;
      r := Some(cert);
    }
  }
}
