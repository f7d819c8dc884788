/**
 * What the ledger's certificates owe to the requests: each says what its request and mechanism
 * said, a budget's debits are those of the requests it accepted, and a request is accepted exactly
 * when nothing published so far, and nothing in the request itself, stands against it.
 */
module PublicationRequests {
  import opened Basics
  import opened Publication
  import opened PublicationRuns

  /** The publish calls that returned a certificate, in order. */
  ghost function Accepted(c: Config, events: seq<Event>): seq<Event> {
    if events == [] then [] else
    var rest, last := events[..|events| - 1], events[|events| - 1];
    Accepted(c, rest) + if Step(c, Run(c, rest).0, last).1 == [] then [] else [last]
  }

  /** The privacy loss the requests under one budget asked for. */
  ghost function Requested(accepted: seq<Event>, key: BudgetKey): nat {
    if accepted == [] then 0 else
    var last := accepted[|accepted| - 1];
    Requested(accepted[..|accepted| - 1], key)
    + if last.Publish? && KeyOf(last.request) == key then last.mechanism.epsilon else 0
  }

  ghost predicate Answered(e: Event, cert: Certificate) {
    && e.Publish? && States(cert.statement, e.request, e.mechanism) && e.answer == Some(cert.signatures)
    && e.mechanism.deltaSuffices
  }

  lemma StepAnswers(c: Config, l: Ledger, e: Event)
    ensures var certs := Step(c, l, e).1;
            certs == [] || (|certs| == 1 && Answered(e, certs[0]))
  {
    hide Certifies, Draft, Validates, Predecessor, ByNode, Approves, Complete;
    if e.Publish? && Published(c, l, e.request, e.mechanism, e.answer).Some? { DraftIs(l, e.request, e.mechanism); }
  }

  /** Every certificate of every run is the answer to its own accepted request, in the order of the requests. */
  lemma {:induction false} CertificatesAreAsRequested(c: Config, events: seq<Event>)
    ensures var (accepted, log) := (Accepted(c, events), Run(c, events).1);
            && |accepted| == |log|
            && (forall i :: 0 <= i < |log| ==> accepted[i] in events && Answered(accepted[i], log[i]))
  {
    hide Step, Answered;
    if events != [] {
      var rest, last := events[..|events| - 1], events[|events| - 1];
      CertificatesAreAsRequested(c, rest);
      StepAnswers(c, Run(c, rest).0, last);
    }
  }

  lemma {:induction false} EpsilonsAreRequested(accepted: seq<Event>, log: seq<Certificate>, key: BudgetKey)
    requires |accepted| == |log| && forall i :: 0 <= i < |log| ==> Answered(accepted[i], log[i])
    ensures TotalEpsilon(ForKey(log, key)) == Requested(accepted, key)
  {
    if log != [] {
      var n := |log| - 1;
      EpsilonsAreRequested(accepted[..n], log[..n], key);
      var certs := ForKey(log[..n], key);
      assert (certs + [log[n]])[..|certs|] == certs && certs + [] == certs;
      assert Answered(accepted[n], log[n]);
    }
  }

  /** What a budget has spent is what the accepted requests under it asked for. */
  lemma SpentIsRequested(c: Config, events: seq<Event>, key: BudgetKey)
    requires key in Run(c, events).0.budgets
    ensures Run(c, events).0.budgets[key].spent == Requested(Accepted(c, events), key)
  {
    hide Run, Accepted, Answered, Certifies, ForKey;
    CertificatesAreAsRequested(c, events);
    BudgetChain(c, events, key);
    EpsilonsAreRequested(Accepted(c, events), Run(c, events).1, key);
  }

  // ----- when a request is accepted -----

  /** The request is complete in itself. */
  ghost predicate Presentable(r: Request, m: Mechanism) {
    && r.venue != "" && r.outputName != "" && r.slotStart <= r.slotEnd && m.epsilon > 0 && m.deltaSuffices
    && ZERO !in {r.operation, r.scope, r.source, r.rule, m.digest, r.privateInput, r.transcript}
    && m.delta.Some? && m.delta.value.0 < m.delta.value.1
  }

  /** Nothing published so far stands against it: a new operation, a later epoch, and budget left. */
  ghost predicate Timely(l: Ledger, log: seq<Certificate>, r: Request, m: Mechanism) {
    var certs := ForKey(log, KeyOf(r));
    && KeyOf(r) in l.budgets && r.epoch > 0
    && (forall i :: 0 <= i < |log| ==> log[i].statement.operation != r.operation)
    && (forall i :: 0 <= i < |certs| ==> certs[i].statement.epoch < r.epoch)
    && TotalEpsilon(certs) + m.epsilon <= l.budgets[KeyOf(r)].allocation.total
    && TotalEpsilon(certs) + m.epsilon < U64
    && (certs != [] ==> Readable(certs[|certs| - 1]))
  }

  ghost predicate Readable(c: Certificate) {
    forall i :: 0 <= i < |c.signatures| ==> |c.signatures[i].signature| == SIGNATURE_BYTES
  }

  /** The one statement put to the nodes: the request's, from the budget's balance, after its last certificate. */
  ghost predicate Asked(l: Ledger, log: seq<Certificate>, r: Request, m: Mechanism, s: Statement) {
    var certs := ForKey(log, KeyOf(r));
    && States(s, r, m) && s.before == TotalEpsilon(certs)
    && KeyOf(r) in l.budgets && s.total == l.budgets[KeyOf(r)].allocation.total
    && s.previous == if certs == [] then NoPrevious else DigestOf(certs[|certs| - 1])
  }

  ghost predicate Quorate(c: Config, s: Statement, signatures: seq<NodeSignature>) {
    && Independent(c.publication) && 1 <= c.publicationThreshold <= |c.publication|
    && |Signers(c.publication, StatementChecks(c, s), signatures)| >= c.publicationThreshold
  }

  /** What the ledger of a run remembers of one budget. */
  lemma Remembers(c: Config, events: seq<Event>, key: BudgetKey)
    ensures var (l, log) := Run(c, events);
            var certs := ForKey(log, key);
            key in l.budgets ==>
              var b := l.budgets[key];
              && b.spent == TotalEpsilon(certs) && b.latest == Before(certs, |certs|)
              && b.lastEpoch == (if certs == [] then 0 else certs[|certs| - 1].statement.epoch)
              && KeyOfAllocation(b.allocation) == key && Chained(c, certs)
              && forall i :: 0 <= i < |certs| ==> certs[i].statement.total == b.allocation.total
                                                  && KeyOfStatement(certs[i].statement) == key
  {
    hide Run, Certifies, Approves;
    RunKeepsInv(c, events);
    var (l, log) := Run(c, events);
    if key in l.budgets {
      BudgetChain(c, events, key);
      AllOfKey(log, key);
    }
  }

  lemma {:induction false} AllOfKey(log: seq<Certificate>, key: BudgetKey)
    ensures forall i :: 0 <= i < |ForKey(log, key)| ==> KeyOfStatement(ForKey(log, key)[i].statement) == key
  {
    if log != [] { AllOfKey(log[..|log| - 1], key); }
  }

  /** A later epoch than the last certificate's is later than all of them. */
  lemma LaterThanAll(c: Config, certs: seq<Certificate>, epoch: nat)
    requires Chained(c, certs)
    ensures epoch > (if certs == [] then 0 else certs[|certs| - 1].statement.epoch)
            <==> epoch > 0 && forall i :: 0 <= i < |certs| ==> certs[i].statement.epoch < epoch
  {
    hide Chained;
    var n := |certs| - 1;
    forall i | 0 <= i < n ensures certs[i].statement.epoch < certs[n].statement.epoch { EpochsRise(c, certs, i, n); }
  }

  lemma LastIsValid(c: Config, certs: seq<Certificate>)
    requires Chained(c, certs) && certs != []
    ensures Validates(certs[|certs| - 1].statement)
  {
    hide Signers, Independent, ByNode, Validates;
    assert Certifies(c, certs[|certs| - 1], Before(certs, |certs| - 1));
  }

  lemma MarkedIfPublished(c: Config, events: seq<Event>, d: Digest)
    ensures var (l, log) := Run(c, events);
            d in l.operations <==> exists i :: 0 <= i < |log| && log[i].statement.operation == d
  {
    hide Run, ByNode;
    RunKeepsInv(c, events);
  }

  /** Nobody is asked to sign for a request that is incomplete or untimely; for every other one they are. */
  lemma DraftedExactlyWhen(c: Config, events: seq<Event>, r: Request, m: Mechanism)
    ensures var (l, log) := Run(c, events);
            && (Draft(l, r, m).Some? <==> Presentable(r, m) && Timely(l, log, r, m))
            && (Draft(l, r, m).Some? ==> Asked(l, log, r, m, Draft(l, r, m).value))
  {
    hide Run, ForKey, TotalEpsilon, Chained, ByNode;
    var (l, log) := Run(c, events);
    var certs := ForKey(log, KeyOf(r));
    Remembers(c, events, KeyOf(r));
    MarkedIfPublished(c, events, r.operation);
    if KeyOf(r) in l.budgets {
      LaterThanAll(c, certs, r.epoch);
      if certs != [] { LastIsValid(c, certs); }
      assert l.budgets[KeyOf(r)].latest == Before(certs, |certs|);
    }
  }

  /** The chain's conditions on a certificate hold of every drafted statement: only the quorum is left to check. */
  lemma DraftContinues(c: Config, events: seq<Event>, r: Request, m: Mechanism, signatures: seq<NodeSignature>)
    requires var l := Run(c, events).0;
             Draft(l, r, m).Some? && KeyOf(r) in l.budgets
    ensures var l := Run(c, events).0;
            var s := Draft(l, r, m).value;
            Certifies(c, Certificate(s, signatures), l.budgets[KeyOf(r)].latest) <==> Quorate(c, s, signatures)
  {
    hide Run, ForKey, TotalEpsilon, Chained, ByNode, Signers, Independent, Validates, Draft;
    var (l, log) := Run(c, events);
    var certs := ForKey(log, KeyOf(r));
    Remembers(c, events, KeyOf(r));
    DraftIs(l, r, m);
    if certs != [] {
      LastIsValid(c, certs);
      LastBalance(c, certs);
    }
  }

  lemma LastBalance(c: Config, certs: seq<Certificate>)
    requires Chained(c, certs) && certs != []
    ensures TotalEpsilon(certs) == certs[|certs| - 1].statement.after
  {
    ChainAdds(c, certs);
  }

  /**
   * A request is published exactly when it is complete, nothing in the run so far stands against
   * it, the nodes answered, and a quorum of them signed the one statement they were asked.
   */
  lemma PublishedExactlyWhen(c: Config, events: seq<Event>, r: Request, m: Mechanism,
                             answer: Option<seq<NodeSignature>>)
    ensures var (l, log) := Run(c, events);
            Published(c, l, r, m, answer).Some?
            <==> && Presentable(r, m) && Timely(l, log, r, m) && answer.Some? && l.generation + 1 < U64
                 && exists s :: Asked(l, log, r, m, s) && Quorate(c, s, answer.value)
  {
    hide Run, Draft, Presentable, Timely, Certifies, Quorate, Asked;
    var (l, log) := Run(c, events);
    DraftedExactlyWhen(c, events, r, m);
    if Draft(l, r, m).Some? {
      DraftIs(l, r, m);
      if answer.Some? { DraftContinues(c, events, r, m, answer.value); }
      forall s | Asked(l, log, r, m, s) ensures s == Draft(l, r, m).value {
        OneQuestion(l, log, r, m, s, Draft(l, r, m).value);
      }
    }
  }

  lemma OneQuestion(l: Ledger, log: seq<Certificate>, r: Request, m: Mechanism, s: Statement, t: Statement)
    requires Asked(l, log, r, m, s) && Asked(l, log, r, m, t)
    ensures s == t
  {
    hide ForKey, TotalEpsilon, ByNode;
  }
}
