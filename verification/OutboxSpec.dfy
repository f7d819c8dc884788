/**
 * The corporate outbox as a state machine: its durable data, and what each public call does to it.
 * A call that is refused changes nothing.  Digests are modelled by the bytes they are taken of.
 */
module OutboxSpec {
  import opened Basics
  import Limbs
  import P = Polynomials

  const MAX_ATTEMPTS: nat := 10
  const MAX_REQUEST_ID: nat := 128
  const MAX_RECEIPT_ID: nat := 256
  const MAX_REASON: nat := 512
  const RETRY_LIMIT: string := "automatic MPC dispatch retry limit reached"

  type Bytes = seq<int>
  datatype Digest = Digest(of: Bytes)

  datatype MpcReceipt = MpcReceipt(committee: string, job: string, digest: Digest)
  datatype CanonicalReceipt = CanonicalReceipt(network: string, transaction: string, height: nat, digest: Digest,
                                               finalizedAt: nat)

  datatype State =
    | Queued
    | Dispatching(attempt: nat, startedAt: nat)
    | MpcAdmitted(attempt: nat, admittedAt: nat, mpc: MpcReceipt)
    | Settled(receipt: CanonicalReceipt)
    | Expired(expiredAt: nat)
    | ReleasePending(requestedAt: nat)
    | Released(receipt: CanonicalReceipt)
    | AbortedBeforeReserve(finalizedAt: nat)
    | ManualReview(markedAt: nat, reason: string)

  datatype Core = Core(requestId: string, sequence: nat, acceptedAt: nat, expiresAt: nat, digest: Digest, bytes: Bytes)
  datatype Entry = Entry(core: Core, state: State)
  type Entries = map<string, Entry>

  datatype Data = Data(generation: nat, nextSequence: nat, nextCoverSlot: nat, nextCoverDueAt: Option<nat>,
                       entries: Entries)
  datatype Limits = Limits(maxEntries: nat, maxRequestBytes: nat)

  const EMPTY: Data := Data(0, 0, 0, None, map[])

  datatype Claim = Claim(core: Core, attempt: nat)
  datatype Action = Dispatch(claim: Claim) | Expire(requestId: string, digest: Digest)
  datatype CoverAction = Real(claim: Claim) | Dummy | Release(requestId: string, digest: Digest)
  datatype CoverSlot = CoverSlot(slot: nat, dueAt: nat, action: CoverAction)

  predicate Live(s: State) { s.Queued? || s.Dispatching? }
  predicate Final(s: State) { s.Settled? || s.Released? || s.AbortedBeforeReserve? }

  predicate IdentifierChar(c: char) {
    'a' <= c <= 'z' || 'A' <= c <= 'Z' || '0' <= c <= '9' || c == '-' || c == '_' || c == ':' || c == '.'
  }

  predicate ValidIdentifier(s: string, maximum: nat) {
    1 <= |s| <= maximum && forall i :: 0 <= i < |s| ==> IdentifierChar(s[i])
  }

  /** What the store checks of its data before every write and after every read. */
  predicate Valid(limits: Limits, data: Data) {
    && |data.entries| <= limits.maxEntries
    && UniqueSequences(data.entries)
    && forall id :: id in data.entries ==>
         var c := data.entries[id].core;
         && ValidIdentifier(id, MAX_REQUEST_ID) && c.requestId == id && 1 <= |c.bytes| <= limits.maxRequestBytes
         && c.acceptedAt < c.expiresAt && c.digest == Digest(c.bytes)
  }

  predicate UniqueSequences(entries: Entries) {
    forall a, b :: a in entries && b in entries && entries[a].core.sequence == entries[b].core.sequence ==> a == b
  }

  // ----- the oldest entry of a kind -----

  datatype Kind = AwaitingRelease | Overdue(now: nat) | Dispatchable

  predicate Matches(kind: Kind, e: Entry) {
    match kind
    case AwaitingRelease => e.state.Expired? || e.state.ReleasePending?
    case Overdue(now) => now >= e.core.expiresAt && (Live(e.state) || e.state.ManualReview?)
    case Dispatchable => Live(e.state)
  }

  /** The least sequence number of the kind among the given ids. */
  ghost predicate OldestAmong(entries: Entries, kind: Kind, ids: set<string>, id: string)
    requires ids <= entries.Keys
  {
    && id in ids && Matches(kind, entries[id])
    && forall other :: other in ids && Matches(kind, entries[other]) ==>
         entries[id].core.sequence <= entries[other].core.sequence
  }

  ghost predicate IsOldest(entries: Entries, kind: Kind, id: string) { OldestAmong(entries, kind, entries.Keys, id) }

  ghost function Oldest(entries: Entries, kind: Kind): (r: Option<string>)
    ensures r.Some? ==> IsOldest(entries, kind, r.value)
    ensures r.None? ==> forall id :: id in entries ==> !Matches(kind, entries[id])
  {
    OldestOrNone(entries, kind);
    if id :| IsOldest(entries, kind, id) then Some(id) else None
  }

  lemma OldestOrNone(entries: Entries, kind: Kind)
    ensures (exists id :: IsOldest(entries, kind, id)) || forall id :: id in entries ==> !Matches(kind, entries[id])
  {
    var r := FindAmong(entries, kind, entries.Keys);
    if r.Some? { assert IsOldest(entries, kind, r.value); }
  }

  lemma {:induction false} FindAmong(entries: Entries, kind: Kind, ids: set<string>) returns (r: Option<string>)
    requires ids <= entries.Keys
    ensures r.Some? ==> OldestAmong(entries, kind, ids, r.value)
    ensures r.None? ==> forall id :: id in ids ==> !Matches(kind, entries[id])
    decreases |ids|
  {
    hide Matches;
    r := None;
    if ids != {} {
      var id :| id in ids;
      var best := FindAmong(entries, kind, ids - {id});
      var older := best.None? || entries[id].core.sequence < entries[best.value].core.sequence;
      r := if Matches(kind, entries[id]) && older then Some(id) else best;
    }
  }

  lemma OldestIs(entries: Entries, kind: Kind, id: string)
    requires UniqueSequences(entries) && IsOldest(entries, kind, id)
    ensures Oldest(entries, kind) == Some(id)
  {}

  // ----- claiming -----

  function Least(a: nat, b: nat): nat { if a < b then a else b }

  /** Bounded exponential backoff, saturating at the machine integer and capped at five minutes. */
  function RetryDelay(retryAfter: nat, attempt: nat): nat {
    var exponent := Least(if attempt == 0 then 0 else attempt - 1, 7);
    Limbs.PowerPositive(2, exponent);
    Least(Least(retryAfter * P.Power(2, exponent), U64 - 1), 300)
  }

  function WithState(entries: Entries, id: string, state: State): Entries
    requires id in entries
  {
    entries[id := entries[id].(state := state)]
  }

  ghost function LiveIds(entries: Entries): set<string> { set id | id in entries && Live(entries[id].state) }

  lemma FewerLive(entries: Entries, id: string, state: State)
    requires id in entries && Live(entries[id].state) && !Live(state)
    ensures LiveIds(WithState(entries, id, state)) < LiveIds(entries)
  {
    var after := WithState(entries, id, state);
    assert id in LiveIds(entries) && id !in LiveIds(after) && LiveIds(after) <= LiveIds(entries);
  }

  /** Hand out the oldest live request; one that has used up its attempts is set aside for review. */
  ghost function DispatchNext(entries: Entries, now: nat, retryAfter: nat): (r: (Entries, Option<Action>))
    decreases LiveIds(entries)
  {
    var oldest := Oldest(entries, Dispatchable);
    if oldest.None? then (entries, None) else
    var id := oldest.value;
    var e := entries[id];
    match e.state
    case Dispatching(attempt, startedAt) =>
      if attempt >= MAX_ATTEMPTS then
        var reviewed := WithState(entries, id, ManualReview(now, RETRY_LIMIT));
        assert id in LiveIds(entries) && id !in LiveIds(reviewed);
        assert LiveIds(reviewed) <= LiveIds(entries);
        DispatchNext(reviewed, now, retryAfter)
      else if now < Least(startedAt + RetryDelay(retryAfter, attempt), U64 - 1) then (entries, None)
      else (WithState(entries, id, Dispatching(attempt + 1, now)), Some(Dispatch(Claim(e.core, attempt + 1))))
    case _ =>
      (WithState(entries, id, Dispatching(1, now)), Some(Dispatch(Claim(e.core, 1))))
  }

  /** A pending release comes first, then an overdue request, and only then a dispatch. */
  ghost function ClaimOldest(entries: Entries, now: nat, retryAfter: nat, healthy: bool): (Entries, Option<Action>) {
    var pending := Oldest(entries, AwaitingRelease);
    if pending.Some? then (entries, Some(Expire(pending.value, entries[pending.value].core.digest))) else
    var overdue := Oldest(entries, Overdue(now));
    if overdue.Some? then
      (WithState(entries, overdue.value, Expired(now)), Some(Expire(overdue.value, entries[overdue.value].core.digest)))
    else if !healthy then (entries, None)
    else DispatchNext(entries, now, retryAfter)
  }

  // ----- calls -----

  datatype Call =
    | Enqueue(id: string, bytes: Bytes, acceptedAt: nat, expiresAt: nat)
    | EnqueueFirstSeen(id: string, bytes: Bytes, firstSeenAt: nat, expiresAt: nat)
    | ClaimNext(now: nat, healthy: bool, retryAfter: nat)
    | ClaimCoverSlot(now: nat, healthy: bool, retryAfter: nat, interval: nat)
    | RecordMpcAdmission(id: string, digest: Digest, admittedAt: nat, mpc: MpcReceipt)
    | RecordSettlement(id: string, digest: Digest, receipt: CanonicalReceipt)
    | MarkReleasePending(id: string, digest: Digest, requestedAt: nat)
    | RecordRelease(id: string, digest: Digest, receipt: CanonicalReceipt)
    | RecordPreReserveAbort(id: string, digest: Digest, finalizedAt: nat)
    | MarkManualReview(id: string, digest: Digest, markedAt: nat, reason: string)
    | PruneFinalized(before: nat)

  datatype Response =
    | Refused
    | Enqueued(sequence: nat)
    | AlreadyPresent(sequence: nat)
    | Claimed(action: Option<Action>)
    | Covered(slot: Option<CoverSlot>)
    | Done
    | Pruned(count: nat)

  datatype Outcome = Outcome(data: Data, response: Response)

  /** The same request again, field by field; a first-seen retry keeps its original acceptance time. */
  predicate SameRequest(e: Entry, bytes: Bytes, acceptedAt: Option<nat>, expiresAt: nat) {
    e.core.digest == Digest(bytes) && e.core.bytes == bytes && e.core.expiresAt == expiresAt
    && (acceptedAt.Some? ==> e.core.acceptedAt == acceptedAt.value)
  }

  function Accept(limits: Limits, data: Data, id: string, bytes: Bytes, acceptedAt: nat, expiresAt: nat,
                  exact: bool): Outcome {
    if !ValidIdentifier(id, MAX_REQUEST_ID) || |bytes| == 0 || |bytes| > limits.maxRequestBytes
        || expiresAt <= acceptedAt then
      Outcome(data, Refused)
    else if id in data.entries then
      if SameRequest(data.entries[id], bytes, if exact then Some(acceptedAt) else None, expiresAt) then
        Outcome(data, AlreadyPresent(data.entries[id].core.sequence))
      else Outcome(data, Refused)
    else if |data.entries| >= limits.maxEntries || data.nextSequence + 1 >= U64 then Outcome(data, Refused)
    else
      var entry := Entry(Core(id, data.nextSequence, acceptedAt, expiresAt, Digest(bytes), bytes), Queued);
      Outcome(data.(entries := data.entries[id := entry], nextSequence := data.nextSequence + 1),
              Enqueued(data.nextSequence))
  }

  ghost function Cover(data: Data, now: nat, healthy: bool, retryAfter: nat, interval: nat): Outcome {
    if interval == 0 then Outcome(data, Refused) else
    var due := if data.nextCoverDueAt.Some? then data.nextCoverDueAt.value else now;
    if now < due then Outcome(data, Covered(None))
    else if data.nextCoverSlot + 1 >= U64 || due + interval >= U64 then Outcome(data, Refused)
    else
      var (entries, action) := ClaimOldest(data.entries, now, retryAfter, healthy);
      var cover := match action
        case None => Dummy
        case Some(Dispatch(claim)) => Real(claim)
        case Some(Expire(id, digest)) => Release(id, digest);
      Outcome(data.(nextCoverSlot := data.nextCoverSlot + 1, nextCoverDueAt := Some(due + interval),
                    entries := entries),
              Covered(Some(CoverSlot(data.nextCoverSlot, due, cover))))
  }

  predicate ValidCanonical(receipt: CanonicalReceipt, digest: Digest) {
    ValidIdentifier(receipt.network, MAX_RECEIPT_ID) && ValidIdentifier(receipt.transaction, MAX_RECEIPT_ID)
        && receipt.digest == digest
  }

  /** The time of first local observation is not part of a transition's identity. */
  predicate SameTransition(a: CanonicalReceipt, b: CanonicalReceipt) {
    a.network == b.network && a.transaction == b.transaction && a.height == b.height && a.digest == b.digest
  }

  /** The state a call moves an entry to; None refuses. */
  function Target(call: Call, s: State): Option<State> {
    match call
    case RecordMpcAdmission(_, _, admittedAt, mpc) =>
      if s.Dispatching? then Some(MpcAdmitted(s.attempt, admittedAt, mpc))
      else if (s.MpcAdmitted? && s.mpc == mpc) || s.Settled? then Some(s)
      else None
    case RecordSettlement(_, _, receipt) =>
      if s.Settled? && SameTransition(s.receipt, receipt) then Some(s)
      else if s.Dispatching? || s.MpcAdmitted? then Some(Settled(receipt))
      else None
    case MarkReleasePending(_, _, requestedAt) =>
      if s.Expired? || s.ManualReview? then Some(ReleasePending(requestedAt))
      else if s.ReleasePending? || s.Released? then Some(s)
      else None
    case RecordRelease(_, _, receipt) =>
      if s.Released? && SameTransition(s.receipt, receipt) then Some(s)
      else if Final(s) then None
      else Some(Released(receipt))
    case RecordPreReserveAbort(_, _, finalizedAt) =>
      if Live(s) || s.Expired? || s.ReleasePending? || s.ManualReview? then Some(AbortedBeforeReserve(finalizedAt))
      else if s.AbortedBeforeReserve? then Some(s)
      else None
    case MarkManualReview(_, _, markedAt, reason) => if Final(s) then None else Some(ManualReview(markedAt, reason))
    case _ => None
  }

  predicate WellFormed(call: Call) {
    match call
    case RecordMpcAdmission(_, digest, _, mpc) =>
      ValidIdentifier(mpc.committee, MAX_RECEIPT_ID) && ValidIdentifier(mpc.job, MAX_RECEIPT_ID) && mpc.digest == digest
    case RecordSettlement(_, digest, receipt) => ValidCanonical(receipt, digest)
    case RecordRelease(_, digest, receipt) => ValidCanonical(receipt, digest)
    case MarkManualReview(_, _, _, reason) => 1 <= |reason| <= MAX_REASON
    case _ => true
  }

  predicate Addresses(call: Call) {
    call.RecordMpcAdmission? || call.RecordSettlement? || call.MarkReleasePending? || call.RecordRelease?
    || call.RecordPreReserveAbort? || call.MarkManualReview?
  }

  function Transition(data: Data, call: Call): Outcome
    requires Addresses(call)
  {
    if !WellFormed(call) || call.id !in data.entries || data.entries[call.id].core.digest != call.digest then
      Outcome(data, Refused) else
    var target := Target(call, data.entries[call.id].state);
    if target.None? then Outcome(data, Refused)
    else Outcome(data.(entries := WithState(data.entries, call.id, target.value)), Done)
  }

  function FinalizedAt(s: State): Option<nat> {
    if s.Settled? || s.Released? then Some(s.receipt.finalizedAt)
    else if s.AbortedBeforeReserve? then Some(s.finalizedAt)
    else None
  }

  predicate Prunable(e: Entry, before: nat) { FinalizedAt(e.state).Some? && FinalizedAt(e.state).value < before }

  function Kept(entries: Entries, before: nat): Entries {
    map id | id in entries && !Prunable(entries[id], before) :: entries[id]
  }

  /** What a call does before the store counts the write. */
  ghost function Effect(limits: Limits, data: Data, call: Call): Outcome {
    match call
    case Enqueue(id, bytes, acceptedAt, expiresAt) => Accept(limits, data, id, bytes, acceptedAt, expiresAt, true)
    case EnqueueFirstSeen(id, bytes, firstSeenAt, expiresAt) => Accept(limits, data, id, bytes, firstSeenAt, expiresAt,
                                                                       false)
    case ClaimNext(now, healthy, retryAfter) =>
      var (entries, action) := ClaimOldest(data.entries, now, retryAfter, healthy);
      Outcome(data.(entries := entries), Claimed(action))
    case ClaimCoverSlot(now, healthy, retryAfter, interval) => Cover(data, now, healthy, retryAfter, interval)
    case PruneFinalized(before) =>
      var kept := Kept(data.entries, before);
      Outcome(data.(entries := kept), Pruned(if |kept| <= |data.entries| then |data.entries| - |kept| else 0))
    case _ => Transition(data, call)
  }

  /** One public call: refused calls, and a generation that can no longer be counted, change nothing. */
  ghost function Step(limits: Limits, data: Data, call: Call): Outcome {
    var o := Effect(limits, data, call);
    if o.response.Refused? || data.generation + 1 >= U64 then Outcome(data, Refused)
    else Outcome(o.data.(generation := data.generation + 1), o.response)
  }
}
