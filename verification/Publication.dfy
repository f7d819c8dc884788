/**
 * The publication budget ledger: quorum certificates over privacy-budget debits, chained per budget.
 *
 * A digest of a statement or certificate is modelled by what it is taken of, and the signature
 * checks by predicates.  A refused call leaves the ledger as it was.
 */
module Publication {
  import opened Basics

  const KEY_BYTES: nat := 1984
  const SIGNATURE_BYTES: nat := 3373

  type Bytes = seq<int>
  type Digest = nat
  const ZERO: Digest := 0

  /** A hybrid public key: its encoded length and its two halves. */
  datatype Key = Key(length: nat, classical: Bytes, postQuantum: Bytes)
  type Registry = map<string, Key>

  datatype NodeSignature = NodeSignature(node: string, signature: Bytes)

  datatype Statement = Statement(
    operation: Digest, scope: Digest, venue: string, epoch: nat, slotStart: nat, slotEnd: nat, source: Digest,
    rule: Digest,
    mechanism: Digest, privateInput: Digest, transcript: Digest, outputName: string, outputValue: int, epsilon: nat,
    deltaNumerator: nat, deltaDenominator: nat, total: nat, before: nat, after: nat, previous: Link)

  /** A predecessor's digest: the statement and, node by node, the signatures it carried. */
  datatype Link = NoPrevious | LinkTo(statement: Statement, signatures: map<string, seq<Bytes>>)

  datatype Certificate = Certificate(statement: Statement, signatures: seq<NodeSignature>)

  predicate Validates(s: Statement) {
    && s.venue != "" && s.outputName != "" && s.slotStart <= s.slotEnd && s.epsilon > 0
    && ZERO !in {s.operation, s.scope, s.source, s.rule, s.mechanism, s.privateInput, s.transcript}
    && s.deltaNumerator < s.deltaDenominator
    && s.before <= s.after <= s.total && s.after - s.before == s.epsilon
  }

  /** The order signatures come in does not matter to the digest, except among one node's own. */
  function ByNode(signatures: seq<NodeSignature>): map<string, seq<Bytes>> {
    if signatures == [] then map[] else
    var rest := ByNode(signatures[..|signatures| - 1]);
    var last := signatures[|signatures| - 1];
    rest[last.node := (if last.node in rest then rest[last.node] else []) + [last.signature]]
  }

  function DigestOf(c: Certificate): Link { LinkTo(c.statement, ByNode(c.signatures)) }

  /** One node's signatures, in the order they came. */
  ghost function SignedBy(signatures: seq<NodeSignature>, node: string): seq<Bytes> {
    if signatures == [] then [] else
    var last := signatures[|signatures| - 1];
    SignedBy(signatures[..|signatures| - 1], node) + if last.node == node then [last.signature] else []
  }

  lemma {:induction false} ByNodeIs(signatures: seq<NodeSignature>, node: string)
    ensures node in ByNode(signatures) <==> SignedBy(signatures, node) != []
    ensures node in ByNode(signatures) ==> ByNode(signatures)[node] == SignedBy(signatures, node)
  {
    if signatures != [] { ByNodeIs(signatures[..|signatures| - 1], node); }
  }

  /** Each node's signatures are the same, in the same order. */
  ghost predicate SameSigners(a: seq<NodeSignature>, b: seq<NodeSignature>) {
    forall n: string :: SignedBy(a, n) == SignedBy(b, n)
  }

  /** A certificate's digest binds its statement and every node's signatures, and nothing about how nodes interleave. */
  lemma DigestBinds(a: Certificate, b: Certificate)
    ensures DigestOf(a) == DigestOf(b) <==> a.statement == b.statement && SameSigners(a.signatures, b.signatures)
  {
    if DigestOf(a) == DigestOf(b) {
      forall n: string ensures SignedBy(a.signatures, n) == SignedBy(b.signatures, n) {
        SameDigestSameSigner(a.signatures, b.signatures, n);
      }
    }
    if SameSigners(a.signatures, b.signatures) { SameSignersSameDigest(a.signatures, b.signatures); }
  }

  lemma SameDigestSameSigner(a: seq<NodeSignature>, b: seq<NodeSignature>, node: string)
    requires ByNode(a) == ByNode(b)
    ensures SignedBy(a, node) == SignedBy(b, node)
  {
    ByNodeIs(a, node);
    ByNodeIs(b, node);
  }

  lemma SameSignersSameDigest(a: seq<NodeSignature>, b: seq<NodeSignature>)
    requires SameSigners(a, b)
    ensures ByNode(a) == ByNode(b)
  {
    forall n: string
      ensures n in ByNode(a) <==> n in ByNode(b)
      ensures n in ByNode(a) && n in ByNode(b) ==> ByNode(a)[n] == ByNode(b)[n]
    {
      ByNodeIs(a, n);
      ByNodeIs(b, n);
    }
  }

  // ----- quorums -----

  predicate Independent(registry: Registry) {
    && (forall n :: n in registry ==> registry[n].length == KEY_BYTES)
    && (forall a, b :: a in registry && b in registry && a != b ==>
          registry[a].classical != registry[b].classical && registry[a].postQuantum != registry[b].postQuantum)
  }

  /** Only a node's first signature is looked at. */
  predicate FirstOf(signatures: seq<NodeSignature>, i: nat)
    requires i < |signatures|
  {
    forall j :: 0 <= j < i ==> signatures[j].node != signatures[i].node
  }

  /** The registered nodes whose first signature checks. */
  ghost function Signers(registry: Registry, checks: (Key, Bytes) -> bool,
                         signatures: seq<NodeSignature>): set<string> {
    set i | 0 <= i < |signatures| && FirstOf(signatures, i) && signatures[i].node in registry
            && checks(registry[signatures[i].node], signatures[i].signature) :: signatures[i].node
  }

  lemma SignersStep(registry: Registry, checks: (Key, Bytes) -> bool, signatures: seq<NodeSignature>, k: nat)
    requires k < |signatures|
    ensures var (before, after, s) := (Signers(registry, checks, signatures[..k]),
                                       Signers(registry, checks, signatures[..k + 1]), signatures[k]);
            if FirstOf(signatures, k) && s.node in registry && checks(registry[s.node], s.signature)
            then s.node !in before && after == before + {s.node} else after == before
  {
    var a, b := signatures[..k], signatures[..k + 1];
    forall i | 0 <= i < k ensures FirstOf(a, i) <==> FirstOf(b, i) {
      assert forall j :: 0 <= j <= i ==> a[j] == b[j];
    }
    assert FirstOf(b, k) <==> FirstOf(signatures, k) by {
      assert forall j :: 0 <= j <= k ==> b[j] == signatures[j];
    }
  }

  /** Count signatures while inserting node ids into a set of those seen. */
  method CountSigners(registry: Registry, checks: (Key, Bytes) -> bool, signatures: seq<NodeSignature>)
    returns (count: nat)
    ensures count == |Signers(registry, checks, signatures)|
  {
    hide Signers;
    var seen: set<string> := {};
    count := 0;
    assert Signers(registry, checks, signatures[..0]) == {} by { EmptySigners(registry, checks, signatures); }
    for k := 0 to |signatures|
      invariant forall n :: n in seen <==> exists j :: 0 <= j < k && signatures[j].node == n
      invariant count == |Signers(registry, checks, signatures[..k])|
    {
      var s := signatures[k];
      SignersStep(registry, checks, signatures, k);
      if s.node !in seen {
        seen := seen + {s.node};
        if s.node in registry && checks(registry[s.node], s.signature) { count := count + 1; }
      }
    }
    assert signatures[..|signatures|] == signatures;
  }

  lemma EmptySigners(registry: Registry, checks: (Key, Bytes) -> bool, signatures: seq<NodeSignature>)
    ensures Signers(registry, checks, signatures[..0]) == {}
  {}

  function Half(k: Key, classical: bool): Bytes { if classical then k.classical else k.postQuantum }

  /** One half of the registered nodes' keys. */
  ghost function KeysOf(registry: Registry, nodes: set<string>, classical: bool): set<Bytes> {
    set n | n in nodes && n in registry :: Half(registry[n], classical)
  }

  /** Over independent keys, counting signers is counting classical keys, and counting post-quantum keys. */
  lemma SignersHaveOwnKeys(registry: Registry, checks: (Key, Bytes) -> bool, signatures: seq<NodeSignature>)
    requires Independent(registry)
    ensures var nodes := Signers(registry, checks, signatures);
            nodes <= registry.Keys && |nodes| == |KeysOf(registry, nodes, true)| == |KeysOf(registry, nodes, false)|
  {
    hide KeysOf, Independent;
    OwnKeys(registry, Signers(registry, checks, signatures), true);
    OwnKeys(registry, Signers(registry, checks, signatures), false);
  }

  lemma {:induction false} OwnKeys(registry: Registry, nodes: set<string>, classical: bool)
    requires Independent(registry) && nodes <= registry.Keys
    ensures |nodes| == |KeysOf(registry, nodes, classical)|
    decreases |nodes|
  {
    if nodes != {} {
      var x :| x in nodes;
      var rest := nodes - {x};
      OwnKeys(registry, rest, classical);
      assert Half(registry[x], classical) !in KeysOf(registry, rest, classical);
      assert KeysOf(registry, nodes, classical) == KeysOf(registry, rest, classical) + {Half(registry[x], classical)};
    } else {
      assert KeysOf(registry, nodes, classical) == {};
    }
  }

  // ----- configuration -----

  datatype Allocation = Allocation(scope: Digest, venue: string, outputName: string, total: nat, policyVersion: nat)

  /** The two registries, their thresholds, and the signature checks. */
  datatype Config = Config(publication: Registry, publicationThreshold: nat, governance: Registry,
                           governanceThreshold: nat,
                           signsStatement: (Key, Statement, Bytes) -> bool,
                           signsAllocation: (Key, Allocation, Bytes) -> bool)

  predicate Production(c: Config) {
    && Independent(c.publication) && Independent(c.governance) && |c.publication| == |c.governance| == 7
    && c.publicationThreshold == c.governanceThreshold == 3
  }

  function StatementChecks(c: Config, s: Statement): (Key, Bytes) -> bool { (k, b) => c.signsStatement(k, s, b) }
  function AllocationChecks(c: Config, a: Allocation): (Key, Bytes) -> bool { (k, b) => c.signsAllocation(k, a, b) }

  /** Spaces count as blank. */
  predicate Blank(s: string) { forall i :: 0 <= i < |s| ==> s[i] in {' ', '\t', '\n', '\r'} }

  predicate Complete(a: Allocation) {
    a.scope != ZERO && !Blank(a.venue) && !Blank(a.outputName) && a.total > 0 && a.policyVersion > 0
  }

  // ----- the ledger -----

  datatype BudgetKey = BudgetKey(scope: Digest, venue: string, outputName: string)
  datatype Record = Record(allocation: Allocation, approvals: seq<NodeSignature>, spent: nat, lastEpoch: nat,
                           latest: Option<Certificate>)
  datatype Ledger = Ledger(generation: nat, budgets: map<BudgetKey, Record>, operations: map<Digest, Link>)

  const EMPTY: Ledger := Ledger(0, map[], map[])

  datatype Mechanism = Mechanism(digest: Digest, epsilon: nat, delta: Option<(nat, nat)>, deltaSuffices: bool)
  datatype Request = Request(
    operation: Digest, scope: Digest, venue: string, epoch: nat, slotStart: nat, slotEnd: nat, source: Digest,
    rule: Digest,
    privateInput: Digest, transcript: Digest, outputName: string, outputValue: int)

  function KeyOf(r: Request): BudgetKey { BudgetKey(r.scope, r.venue, r.outputName) }
  function KeyOfStatement(s: Statement): BudgetKey { BudgetKey(s.scope, s.venue, s.outputName) }
  function KeyOfAllocation(a: Allocation): BudgetKey { BudgetKey(a.scope, a.venue, a.outputName) }

  /** A stored predecessor has to be readable again: full-length signatures over a valid statement. */
  function Predecessor(latest: Option<Certificate>): Option<Link> {
    if latest.None? then Some(NoPrevious)
    else if exists i ::
      0 <= i < |latest.value.signatures| && |latest.value.signatures[i].signature| != SIGNATURE_BYTES then None
    else if !Validates(latest.value.statement) then None
    else Some(DigestOf(latest.value))
  }

  /** The statement the nodes are asked to sign. */
  function Proposed(r: Request, m: Mechanism, budget: Record, previous: Link): Statement
    requires m.delta.Some?
  {
    Statement(r.operation, r.scope, r.venue, r.epoch, r.slotStart, r.slotEnd, r.source, r.rule, m.digest,
              r.privateInput, r.transcript,
              r.outputName, r.outputValue, m.epsilon, m.delta.value.0, m.delta.value.1,
              budget.allocation.total, budget.spent, budget.spent + m.epsilon, previous)
  }

  /** Field by field, the statement says what the request and the mechanism say. */
  ghost predicate States(s: Statement, r: Request, m: Mechanism) {
    && s.operation == r.operation && s.scope == r.scope && s.venue == r.venue && s.epoch == r.epoch
    && s.slotStart == r.slotStart && s.slotEnd == r.slotEnd && s.source == r.source && s.rule == r.rule
    && s.privateInput == r.privateInput && s.transcript == r.transcript
    && s.outputName == r.outputName && s.outputValue == r.outputValue
    && s.mechanism == m.digest && s.epsilon == m.epsilon && m.delta == Some((s.deltaNumerator, s.deltaDenominator))
    && s.after == s.before + m.epsilon
  }

  /** The next link of its predecessor: a later epoch that opens where the last one closed. */
  ghost predicate Continues(s: Statement, previous: Option<Certificate>) {
    if previous.None? then s.previous == NoPrevious
    else
      var p := previous.value.statement;
      && Validates(p) && s.previous == DigestOf(previous.value) && s.epoch > p.epoch && s.before == p.after
      && s.scope == p.scope && s.venue == p.venue && s.outputName == p.outputName && s.total == p.total
  }

  ghost predicate Certifies(c: Config, cert: Certificate, previous: Option<Certificate>) {
    && Independent(c.publication) && Validates(cert.statement) && 1 <= c.publicationThreshold <= |c.publication|
    && Continues(cert.statement, previous)
    && |Signers(c.publication, StatementChecks(c, cert.statement), cert.signatures)| >= c.publicationThreshold
  }

  /** Check a certificate against its predecessor and the registry. */
  method Verify(c: Config, cert: Certificate, previous: Option<Certificate>) returns (ok: bool)
    ensures ok <==> Certifies(c, cert, previous)
  {
    hide Signers, Independent, Validates, ByNode;
    var s := cert.statement;
    if !Independent(c.publication) || !Validates(s) || !(1 <= c.publicationThreshold <= |c.publication|) {
      return false;
    }
    match previous {
      case None => if s.previous != NoPrevious { return false; }
      case Some(p) =>
        if !Validates(p.statement) || DigestOf(p) != s.previous || s.epoch <= p.statement.epoch
            || s.before != p.statement.after
           || s.scope != p.statement.scope || s.venue != p.statement.venue || s.outputName != p.statement.outputName
           || s.total != p.statement.total
        {
          return false;
        }
    }
    var count := CountSigners(c.publication, StatementChecks(c, s), cert.signatures);
    ok := count >= c.publicationThreshold;
  }

  // ----- steps -----

  datatype Event =
    | Configure(allocation: Allocation, approvals: seq<NodeSignature>)
    | Publish(request: Request, mechanism: Mechanism, answer: Option<seq<NodeSignature>>)

  ghost predicate Approves(c: Config, a: Allocation, approvals: seq<NodeSignature>) {
    Independent(c.governance) && |Signers(c.governance, AllocationChecks(c, a), approvals)| >= c.governanceThreshold
  }

  ghost function AfterConfigure(c: Config, l: Ledger, a: Allocation, approvals: seq<NodeSignature>): Ledger {
    if !Complete(a) || !Approves(c, a, approvals) || KeyOfAllocation(a) in l.budgets || l.generation + 1 >= U64 then l
    else Ledger(l.generation + 1, l.budgets[KeyOfAllocation(a) := Record(a, approvals, 0, 0, None)], l.operations)
  }

  /** The statement a request leads to, unless it is refused before anybody signs. */
  function Draft(l: Ledger, r: Request, m: Mechanism): Option<Statement> {
    if r.operation == ZERO || r.operation in l.operations || KeyOf(r) !in l.budgets then None else
    var budget := l.budgets[KeyOf(r)];
    var previous := Predecessor(budget.latest);
    if r.venue != budget.allocation.venue || r.outputName != budget.allocation.outputName || r.epoch <= budget.lastEpoch
       || budget.spent + m.epsilon >= U64 || budget.spent + m.epsilon > budget.allocation.total || previous.None?
          || m.delta.None? then None
    else
      var s := Proposed(r, m, budget, previous.value);
      if !Validates(s) || !m.deltaSuffices then None else Some(s)
  }

  function Debited(l: Ledger, cert: Certificate): Ledger
    requires KeyOfStatement(cert.statement) in l.budgets
  {
    var key := KeyOfStatement(cert.statement);
    var s := cert.statement;
    Ledger(l.generation + 1,
           l.budgets[key := l.budgets[key].(spent := s.after, lastEpoch := s.epoch, latest := Some(cert))],
           l.operations[s.operation := DigestOf(cert)])
  }

  /** What publishing returns; None is a refusal. */
  ghost function Published(c: Config, l: Ledger, r: Request, m: Mechanism,
                           answer: Option<seq<NodeSignature>>): Option<Certificate> {
    var s := Draft(l, r, m);
    if s.None? || answer.None? || l.generation + 1 >= U64 then None else
    var cert := Certificate(s.value, answer.value);
    if Certifies(c, cert, l.budgets[KeyOf(r)].latest) then Some(cert) else None
  }

  lemma DraftIs(l: Ledger, r: Request, m: Mechanism)
    requires Draft(l, r, m).Some?
    ensures KeyOf(r) in l.budgets && m.delta.Some? && Predecessor(l.budgets[KeyOf(r)].latest).Some?
    ensures Draft(l, r, m).value == Proposed(r, m, l.budgets[KeyOf(r)], Predecessor(l.budgets[KeyOf(r)].latest).value)
    ensures r.operation !in l.operations && r.epoch > l.budgets[KeyOf(r)].lastEpoch
    ensures Validates(Draft(l, r, m).value) && KeyOfStatement(Draft(l, r, m).value) == KeyOf(r)
    ensures States(Draft(l, r, m).value, r, m) && m.deltaSuffices
    ensures Draft(l, r, m).value.before == l.budgets[KeyOf(r)].spent
    ensures Draft(l, r, m).value.total == l.budgets[KeyOf(r)].allocation.total
  {
    hide Predecessor, Validates;
  }

  /** The ledger after a call, and the certificate it returned, if any. */
  ghost function Step(c: Config, l: Ledger, e: Event): (Ledger, seq<Certificate>) {
    match e
    case Configure(a, approvals) => (AfterConfigure(c, l, a, approvals), [])
    case Publish(r, m, answer) =>
      var cert := Published(c, l, r, m, answer);
      if cert.None? then (l, []) else
      DraftIs(l, r, m);
      (Debited(l, cert.value), [cert.value])
  }

  ghost function Run(c: Config, events: seq<Event>): (Ledger, seq<Certificate>) {
    if events == [] then (EMPTY, []) else
    var (l, log) := Run(c, events[..|events| - 1]);
    var (after, published) := Step(c, l, events[|events| - 1]);
    (after, log + published)
  }
}
