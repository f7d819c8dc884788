/**
 * Whole runs of the corporate outbox: in what order and how often requests are dispatched, what is
 * final, and why the cover schedule tells nothing about the queue.
 */
module OutboxRuns {
  import opened Basics
  import opened Counting
  import opened OutboxSpec

  /** One dispatch, with the moment and the health the caller claimed. */
  datatype Emitted = Emitted(claim: Claim, now: nat, healthy: bool)

  ghost function EmittedBy(call: Call, response: Response): seq<Emitted> {
    if call.ClaimNext? && response.Claimed? && response.action.Some? && response.action.value.Dispatch? then
      [Emitted(response.action.value.claim, call.now, call.healthy)]
    else if call.ClaimCoverSlot? && response.Covered? && response.slot.Some? && response.slot.value.action.Real? then
      [Emitted(response.slot.value.action.claim, call.now, call.healthy)]
    else []
  }

  /** The data after the calls, and every dispatch they emitted, in order. */
  ghost function Run(limits: Limits, data: Data, calls: seq<Call>): (Data, seq<Emitted>) {
    if calls == [] then (data, []) else
    var (before, log) := Run(limits, data, calls[..|calls| - 1]);
    var last := calls[|calls| - 1];
    var o := Step(limits, before, last);
    (o.data, log + EmittedBy(last, o.response))
  }

  // ----- the invariant of the data -----

  /** The store's own check, and sequence numbers not handed out yet. */
  ghost predicate Inv(limits: Limits, data: Data) {
    Valid(limits, data) && forall id :: id in data.entries ==> data.entries[id].core.sequence < data.nextSequence
  }

  ghost predicate Keyed(entries: Entries) { forall id :: id in entries ==> entries[id].core.requestId == id }

  /** Requests keep everything but their state; final states stay, and nothing comes back to life. */
  ghost predicate Evolves(before: Entries, after: Entries) {
    && after.Keys == before.Keys
    && forall id :: id in before ==>
         && after[id].core == before[id].core
         && (Final(before[id].state) ==> after[id].state == before[id].state)
         && (Live(after[id].state) ==> Live(before[id].state))
  }

  ghost predicate LiveUnchanged(before: Entries, after: Entries) {
    forall id :: id in after && id in before && Live(after[id].state) ==> after[id] == before[id]
  }

  /** A live request moved to its next attempt, and every other live one is younger. */
  ghost predicate DispatchedFrom(before: Entries, after: Entries, claim: Claim, now: nat) {
    var id := claim.core.requestId;
    && id in before && id in after && before[id].core == claim.core && Live(before[id].state)
    && after[id].state == Dispatching(claim.attempt, now)
    && claim.attempt == (if before[id].state.Queued? then 1 else before[id].state.attempt + 1)
    && claim.attempt <= MAX_ATTEMPTS
    && forall other :: other in after && other in before && other != id && Live(after[other].state) ==>
         after[other] == before[other] && before[other].core.sequence >= claim.core.sequence
  }

  /** Setting one live request aside leaves the others as they were. */
  lemma SetAside(entries: Entries, id: string, state: State)
    requires id in entries && Live(entries[id].state) && !Live(state)
    ensures Evolves(entries, WithState(entries, id, state)) && LiveUnchanged(entries, WithState(entries, id, state))
  {}

  lemma HandOut(entries: Entries, id: string, attempt: nat, now: nat)
    requires IsOldest(entries, Dispatchable, id) && entries[id].core.requestId == id
    requires attempt == (if entries[id].state.Queued? then 1 else entries[id].state.attempt + 1)
             && attempt <= MAX_ATTEMPTS
    ensures var after := WithState(entries, id, Dispatching(attempt, now));
            Evolves(entries, after) && DispatchedFrom(entries, after, Claim(entries[id].core, attempt), now)
  {}

  lemma Chained(a: Entries, b: Entries, c: Entries, action: Option<Action>, now: nat)
    requires Evolves(a, b) && LiveUnchanged(a, b) && Evolves(b, c)
    requires action.None? ==> LiveUnchanged(b, c)
    requires action.Some? ==> action.value.Dispatch? && DispatchedFrom(b, c, action.value.claim, now)
    ensures Evolves(a, c)
    ensures action.None? ==> LiveUnchanged(a, c)
    ensures action.Some? ==> DispatchedFrom(a, c, action.value.claim, now)
  {}

  /** The oldest live request, as the dispatcher sees it. */
  lemma DispatchNextUnfolds(entries: Entries, now: nat, retryAfter: nat)
    ensures var (oldest, r) := (Oldest(entries, Dispatchable), DispatchNext(entries, now, retryAfter));
            if oldest.None? then r == (entries, None)
            else
              var (id, e) := (oldest.value, entries[oldest.value]);
              if e.state.Dispatching? && e.state.attempt >= MAX_ATTEMPTS then
                r == DispatchNext(WithState(entries, id, ManualReview(now, RETRY_LIMIT)), now, retryAfter)
              else
                var attempt := if e.state.Queued? then 1 else e.state.attempt + 1;
                || r == (entries, None)
                || r == (WithState(entries, id, Dispatching(attempt, now)), Some(Dispatch(Claim(e.core, attempt))))
  {
    hide RetryDelay;
  }

  lemma {:induction false} DispatchNextMoves(entries: Entries, now: nat, retryAfter: nat)
    requires Keyed(entries)
    ensures var (after, action) := DispatchNext(entries, now, retryAfter);
            && Evolves(entries, after)
            && (action.None? ==> LiveUnchanged(entries, after))
            && (action.Some? ==> action.value.Dispatch? && DispatchedFrom(entries, after, action.value.claim, now))
    decreases LiveIds(entries)
  {
    hide Keyed, DispatchNext, Evolves, LiveUnchanged, DispatchedFrom, WithState;
    DispatchNextUnfolds(entries, now, retryAfter);
    UnchangedEvolves(entries);
    var oldest := Oldest(entries, Dispatchable);
    if oldest.Some? {
      var id := oldest.value;
      var e := entries[id];
      KeyedAt(entries, id);
      if e.state.Dispatching? && e.state.attempt >= MAX_ATTEMPTS {
        var reviewed := WithState(entries, id, ManualReview(now, RETRY_LIMIT));
        FewerLive(entries, id, ManualReview(now, RETRY_LIMIT));
        StaysKeyed(entries, id, ManualReview(now, RETRY_LIMIT));
        SetAside(entries, id, ManualReview(now, RETRY_LIMIT));
        DispatchNextMoves(reviewed, now, retryAfter);
        var (after, action) := DispatchNext(reviewed, now, retryAfter);
        Chained(entries, reviewed, after, action, now);
      } else {
        HandOut(entries, id, if e.state.Queued? then 1 else e.state.attempt + 1, now);
      }
    }
  }

  lemma KeyedAt(entries: Entries, id: string)
    requires Keyed(entries) && id in entries
    ensures entries[id].core.requestId == id
  {}

  lemma StaysKeyed(entries: Entries, id: string, state: State)
    requires Keyed(entries) && id in entries
    ensures Keyed(WithState(entries, id, state))
  {}

  lemma UnchangedEvolves(entries: Entries)
    ensures Evolves(entries, entries) && LiveUnchanged(entries, entries)
  {}

  /** What a claim does, and that it dispatches only what is not overdue. */
  lemma ClaimMoves(entries: Entries, now: nat, retryAfter: nat, healthy: bool)
    requires Keyed(entries)
    ensures var (after, action) := ClaimOldest(entries, now, retryAfter, healthy);
            && Evolves(entries, after)
            && (!(action.Some? && action.value.Dispatch?) ==> LiveUnchanged(entries, after))
            && (action.Some? && action.value.Dispatch? ==>
                  healthy && now < action.value.claim.core.expiresAt
                      && DispatchedFrom(entries, after, action.value.claim, now))
  {
    hide DispatchNext, Evolves, LiveUnchanged, WithState, IsOldest;
    UnchangedEvolves(entries);
    var overdue := Oldest(entries, Overdue(now));
    if overdue.Some? {
      ExpiringMoves(entries, overdue.value, now);
    } else {
      DispatchNextMoves(entries, now, retryAfter);
      var action := DispatchNext(entries, now, retryAfter).1;
      if action.Some? { assert !Matches(Overdue(now), entries[action.value.claim.core.requestId]); }
    }
  }

  lemma ExpiringMoves(entries: Entries, id: string, now: nat)
    requires IsOldest(entries, Overdue(now), id)
    ensures Evolves(entries, WithState(entries, id, Expired(now)))
            && LiveUnchanged(entries, WithState(entries, id, Expired(now)))
  {}

  // ----- one step -----

  /** A new request enters queued, under the next sequence number. */
  ghost predicate Fresh(data: Data, after: Data, id: string) {
    && id in after.entries && id !in data.entries
    && after.entries[id].core.sequence == data.nextSequence && after.entries[id].state.Queued?
    && after.nextSequence == data.nextSequence + 1 && after.entries == data.entries[id := after.entries[id]]
  }

  ghost predicate Pruning(data: Data, after: Data, call: Call) {
    call.PruneFinalized? && after == data.(entries := Kept(data.entries, call.before), generation := after.generation)
  }

  ghost predicate Advanced(data: Data, after: Data) {
    Evolves(data.entries, after.entries) && after.nextSequence == data.nextSequence
  }

  lemma TransitionMoves(data: Data, call: Call)
    requires Addresses(call)
    ensures var o := Transition(data, call);
            Advanced(data, o.data) && LiveUnchanged(data.entries, o.data.entries)
  {
    hide WellFormed, SameTransition;
  }

  lemma AcceptMoves(limits: Limits, data: Data, id: string, bytes: Bytes, acceptedAt: nat, expiresAt: nat, exact: bool)
    ensures var o := Accept(limits, data, id, bytes, acceptedAt, expiresAt, exact);
            (Advanced(data, o.data) || Fresh(data, o.data, id)) && LiveUnchanged(data.entries, o.data.entries)
  {
    hide ValidIdentifier, SameRequest;
  }

  lemma CoverMoves(data: Data, call: Call)
    requires call.ClaimCoverSlot? && Keyed(data.entries)
    ensures var o := Cover(data, call.now, call.healthy, call.retryAfter, call.interval);
            && Advanced(data, o.data)
            && (EmittedBy(call, o.response) == [] ==> LiveUnchanged(data.entries, o.data.entries))
            && (EmittedBy(call, o.response) != [] ==>
                  var e := EmittedBy(call, o.response)[0];
                  |EmittedBy(call, o.response)| == 1 && e.healthy && e.now < e.claim.core.expiresAt
                  && DispatchedFrom(data.entries, o.data.entries, e.claim, e.now))
  {
    hide ClaimOldest, DispatchedFrom, Evolves, LiveUnchanged, Keyed;
    ClaimMoves(data.entries, call.now, call.retryAfter, call.healthy);
    UnchangedEvolves(data.entries);
    var o := Cover(data, call.now, call.healthy, call.retryAfter, call.interval);
    var (entries, action) := ClaimOldest(data.entries, call.now, call.retryAfter, call.healthy);
    if o.response.Covered? && o.response.slot.Some? {
      assert o.data.entries == entries;
      match action
      case None =>
      case Some(Dispatch(claim)) => assert o.response.slot.value.action == Real(claim);
      case Some(Expire(_, _)) =>
    } else {
      assert o.data == data;
    }
  }

  lemma EffectMoves(limits: Limits, data: Data, call: Call)
    requires Keyed(data.entries)
    ensures var o := Effect(limits, data, call);
            || Advanced(data, o.data) || Pruning(data, o.data, call)
            || ((call.Enqueue? || call.EnqueueFirstSeen?) && Fresh(data, o.data, call.id))
    ensures var o := Effect(limits, data, call);
            EmittedBy(call, o.response) == [] ==> LiveUnchanged(data.entries, o.data.entries)
    ensures var o := Effect(limits, data, call);
            EmittedBy(call, o.response) != [] ==>
              && Advanced(data, o.data)
              && var e := EmittedBy(call, o.response)[0];
                 |EmittedBy(call, o.response)| == 1 && e.healthy && e.now < e.claim.core.expiresAt
                 && DispatchedFrom(data.entries, o.data.entries, e.claim, e.now)
  {
    hide ClaimOldest, DispatchedFrom, Evolves, LiveUnchanged, Keyed, Cover, Accept, Transition, Fresh, Kept;
    match call
    case Enqueue(id, bytes, acceptedAt, expiresAt) => AcceptMoves(limits, data, id, bytes, acceptedAt, expiresAt, true);
    case EnqueueFirstSeen(id, bytes, firstSeenAt, expiresAt) => AcceptMoves(limits, data, id, bytes, firstSeenAt,
                                                                            expiresAt, false);
    case ClaimNext(now, healthy, retryAfter) => ClaimMoves(data.entries, now, retryAfter, healthy);
    case ClaimCoverSlot(_, _, _, _) => CoverMoves(data, call);
    case PruneFinalized(before) => KeptUnchanged(data.entries, before);
    case _ => TransitionMoves(data, call);
  }

  lemma KeptUnchanged(entries: Entries, before: nat)
    ensures LiveUnchanged(entries, Kept(entries, before))
  {}

  lemma StepMoves(limits: Limits, data: Data, call: Call)
    requires Keyed(data.entries)
    ensures var o := Step(limits, data, call);
            || Advanced(data, o.data) || Pruning(data, o.data, call)
            || ((call.Enqueue? || call.EnqueueFirstSeen?) && Fresh(data, o.data, call.id))
    ensures var o := Step(limits, data, call);
            EmittedBy(call, o.response) == [] ==> LiveUnchanged(data.entries, o.data.entries)
    ensures var o := Step(limits, data, call);
            EmittedBy(call, o.response) != [] ==>
              && Advanced(data, o.data)
              && var e := EmittedBy(call, o.response)[0];
                 |EmittedBy(call, o.response)| == 1 && e.healthy && e.now < e.claim.core.expiresAt
                 && DispatchedFrom(data.entries, o.data.entries, e.claim, e.now)
  {
    hide Effect, Keyed, Evolves, DispatchedFrom, LiveUnchanged, Kept;
    EffectMoves(limits, data, call);
    UnchangedEvolves(data.entries);
  }

  // ----- the store's check never refuses a write -----

  lemma EvolvedIsValid(limits: Limits, data: Data, after: Data)
    requires Inv(limits, data) && Advanced(data, after)
    ensures Inv(limits, after)
  {
    hide ValidIdentifier, Final, Live;
    assert |after.entries.Keys| == |data.entries.Keys|;
  }

  lemma PrunedIsValid(limits: Limits, data: Data, before: nat)
    requires Inv(limits, data)
    ensures Inv(limits, data.(entries := Kept(data.entries, before)))
  {
    hide ValidIdentifier, Prunable;
    SubsetCard(Kept(data.entries, before).Keys, data.entries.Keys);
  }

  lemma AcceptedIsValid(limits: Limits, data: Data, id: string, bytes: Bytes, acceptedAt: nat, expiresAt: nat,
                        exact: bool)
    requires Inv(limits, data)
    ensures Inv(limits, Accept(limits, data, id, bytes, acceptedAt, expiresAt, exact).data)
  {
    hide ValidIdentifier, SameRequest, UniqueSequences;
    var o := Accept(limits, data, id, bytes, acceptedAt, expiresAt, exact);
    if o.response.Enqueued? {
      assert o.data.entries.Keys == data.entries.Keys + {id};
      YoungestIsUnique(data.entries, id, o.data.entries[id], data.nextSequence);
    }
  }

  lemma YoungestIsUnique(entries: Entries, id: string, entry: Entry, next: nat)
    requires UniqueSequences(entries) && id !in entries && entry.core.sequence == next
    requires forall other :: other in entries ==> entries[other].core.sequence < next
    ensures UniqueSequences(entries[id := entry])
  {}

  lemma InvKeyed(limits: Limits, data: Data)
    requires Inv(limits, data)
    ensures Keyed(data.entries) && UniqueSequences(data.entries)
    ensures forall generation :: Inv(limits, data.(generation := generation))
  {}

  lemma StepKeepsInv(limits: Limits, data: Data, call: Call)
    requires Inv(limits, data)
    ensures Inv(limits, Step(limits, data, call).data)
  {
    hide Inv, Effect;
    EffectKeepsInv(limits, data, call);
    InvKeyed(limits, Effect(limits, data, call).data);
  }

  lemma EffectKeepsInv(limits: Limits, data: Data, call: Call)
    requires Inv(limits, data)
    ensures Inv(limits, Effect(limits, data, call).data)
  {
    hide ClaimOldest, Evolves, Cover, Accept, Transition, Kept, Inv, LiveUnchanged, EmittedBy, DispatchedFrom;
    InvKeyed(limits, data);
    match call
    case Enqueue(id, bytes, acceptedAt, expiresAt) => AcceptedIsValid(limits, data, id, bytes, acceptedAt, expiresAt,
                                                                      true);
    case EnqueueFirstSeen(id, bytes, firstSeenAt, expiresAt) => AcceptedIsValid(limits, data, id, bytes, firstSeenAt,
                                                                                expiresAt, false);
    case ClaimNext(now, healthy, retryAfter) =>
      ClaimMoves(data.entries, now, retryAfter, healthy);
      EvolvedIsValid(limits, data, Effect(limits, data, call).data);
    case ClaimCoverSlot(_, _, _, _) =>
      CoverMoves(data, call);
      EvolvedIsValid(limits, data, Effect(limits, data, call).data);
    case PruneFinalized(before) => PrunedIsValid(limits, data, before);
    case _ =>
      TransitionMoves(data, call);
      EvolvedIsValid(limits, data, Effect(limits, data, call).data);
  }

  /** Every state a run reaches passes the store's own check. */
  lemma {:induction false} RunKeepsInv(limits: Limits, data: Data, calls: seq<Call>)
    requires Inv(limits, data)
    ensures Inv(limits, Run(limits, data, calls).0)
  {
    hide Step, Inv;
    if calls != [] {
      RunKeepsInv(limits, data, calls[..|calls| - 1]);
      StepKeepsInv(limits, Run(limits, data, calls[..|calls| - 1]).0, calls[|calls| - 1]);
    }
  }

  // ----- the dispatch trace -----

  /** Consecutive dispatches: the next attempt of the same bytes, or the first of a younger request. */
  ghost predicate Follows(a: Emitted, b: Emitted) {
    || (b.claim.core == a.claim.core && b.claim.attempt == a.claim.attempt + 1)
    || (b.claim.core.sequence > a.claim.core.sequence && b.claim.attempt == 1)
  }

  ghost predicate Proper(e: Emitted) {
    1 <= e.claim.attempt <= MAX_ATTEMPTS && e.healthy && e.now < e.claim.core.expiresAt
  }

  ghost predicate TraceOk(log: seq<Emitted>) {
    && (forall i :: 0 <= i < |log| ==> Proper(log[i]))
    && (log != [] ==> log[0].claim.attempt == 1)
    && (forall i :: 0 < i < |log| ==> Follows(log[i - 1], log[i]))
  }

  /** Only the last dispatched request can be dispatching; every queued one is younger. */
  ghost predicate Behind(e: Entry, log: seq<Emitted>) {
    match e.state
    case Queued => log == [] || e.core.sequence > log[|log| - 1].claim.core.sequence
    case Dispatching(attempt, _) => log != [] && log[|log| - 1].claim == Claim(e.core, attempt)
    case _ => true
  }

  ghost predicate Linked(data: Data, log: seq<Emitted>) {
    && (log != [] ==> log[|log| - 1].claim.core.sequence < data.nextSequence)
    && (forall id :: id in data.entries ==> Behind(data.entries[id], log))
  }

  lemma QuietStepStaysLinked(limits: Limits, data: Data, log: seq<Emitted>, call: Call)
    requires Inv(limits, data) && Linked(data, log)
    requires EmittedBy(call, Step(limits, data, call).response) == []
    ensures Linked(Step(limits, data, call).data, log)
  {
    hide Step;
    var after := Step(limits, data, call).data;
    assert Keyed(data.entries);
    StepMoves(limits, data, call);
    hide Inv;
    forall id | id in after.entries ensures Behind(after.entries[id], log) {
      if id in data.entries { assert Behind(data.entries[id], log); }
    }
  }

  lemma DispatchStaysLinked(data: Data, after: Data, log: seq<Emitted>, e: Emitted)
    requires UniqueSequences(data.entries) && Linked(data, log) && Advanced(data, after) && Proper(e)
    requires forall id :: id in data.entries ==> data.entries[id].core.sequence < data.nextSequence
    requires DispatchedFrom(data.entries, after.entries, e.claim, e.now)
    ensures Linked(after, log + [e])
    ensures log != [] ==> Follows(log[|log| - 1], e)
    ensures log == [] ==> e.claim.attempt == 1
  {
    hide Proper;
    var id := e.claim.core.requestId;
    assert Behind(data.entries[id], log);
    forall other | other in after.entries ensures Behind(after.entries[other], log + [e]) {
      assert Behind(data.entries[other], log);
    }
  }

  lemma StepKeepsTrace(limits: Limits, data: Data, log: seq<Emitted>, call: Call)
    requires Inv(limits, data) && Linked(data, log) && TraceOk(log)
    ensures var o := Step(limits, data, call);
            Linked(o.data, log + EmittedBy(call, o.response)) && TraceOk(log + EmittedBy(call, o.response))
  {
    hide Step, Linked, EmittedBy, DispatchedFrom, Follows;
    assert Keyed(data.entries);
    var o := Step(limits, data, call);
    StepMoves(limits, data, call);
    if EmittedBy(call, o.response) == [] {
      assert log + [] == log;
      QuietStepStaysLinked(limits, data, log, call);
    } else {
      var e := EmittedBy(call, o.response)[0];
      assert EmittedBy(call, o.response) == [e];
      DispatchedIsProper(data.entries, o.data.entries, e);
      DispatchStaysLinked(data, o.data, log, e);
    }
  }

  lemma DispatchedIsProper(before: Entries, after: Entries, e: Emitted)
    requires e.healthy && e.now < e.claim.core.expiresAt && DispatchedFrom(before, after, e.claim, e.now)
    ensures Proper(e)
  {}

  lemma {:induction false} RunKeepsTrace(limits: Limits, calls: seq<Call>)
    ensures var (data, log) := Run(limits, EMPTY, calls);
            Inv(limits, data) && Linked(data, log) && TraceOk(log)
  {
    hide Step, Inv, Linked, TraceOk;
    if calls == [] {
      EmptyIsFine(limits);
    } else {
      var rest := calls[..|calls| - 1];
      RunKeepsTrace(limits, rest);
      var (data, log) := Run(limits, EMPTY, rest);
      StepKeepsTrace(limits, data, log, calls[|calls| - 1]);
      StepKeepsInv(limits, data, calls[|calls| - 1]);
    }
  }

  lemma EmptyIsFine(limits: Limits)
    ensures Inv(limits, EMPTY) && Linked(EMPTY, []) && TraceOk([])
  {}

  /** Along a proper trace, sequence numbers never fall and attempts of one request count up by one. */
  lemma {:induction false} TraceOrders(log: seq<Emitted>, i: nat, j: nat)
    requires TraceOk(log) && i <= j < |log|
    ensures log[i].claim.core.sequence <= log[j].claim.core.sequence
    ensures log[i].claim.core.sequence == log[j].claim.core.sequence ==>
              log[i].claim.core == log[j].claim.core && log[j].claim.attempt == log[i].claim.attempt + (j - i)
  {
    hide Proper;
    if i < j {
      TraceOrders(log, i, j - 1);
      assert Follows(log[j - 1], log[j]);
    }
  }

  /**
   * The dispatch trace of every run: in sequence order, each request at attempts 1, 2, ... up to
   * ten with the same bytes, before its expiry, and only to a healthy quorum.
   */
  lemma DispatchTrace(limits: Limits, calls: seq<Call>)
    ensures var log := Run(limits, EMPTY, calls).1;
            && (forall i :: 0 <= i < |log| ==> Proper(log[i]))
            && (forall i, j :: 0 <= i < j < |log| ==> log[i].claim.core.sequence <= log[j].claim.core.sequence)
            && (forall i, j :: 0 <= i < j < |log| && log[i].claim.core.sequence == log[j].claim.core.sequence ==>
                  log[i].claim.core == log[j].claim.core && log[j].claim.attempt == log[i].claim.attempt + (j - i))
            && (forall j ::
                0 <= j < |log| && (j == 0 || log[j - 1].claim.core.sequence != log[j].claim.core.sequence) ==>
                  log[j].claim.attempt == 1)
  {
    hide Run;
    RunKeepsTrace(limits, calls);
    var log := Run(limits, EMPTY, calls).1;
    forall i, j | 0 <= i < j < |log|
      ensures log[i].claim.core.sequence <= log[j].claim.core.sequence
      ensures log[i].claim.core.sequence == log[j].claim.core.sequence ==>
                log[i].claim.core == log[j].claim.core && log[j].claim.attempt == log[i].claim.attempt + (j - i)
    {
      TraceOrders(log, i, j);
    }
    forall j | 0 <= j < |log| && (j == 0 || log[j - 1].claim.core.sequence != log[j].claim.core.sequence)
      ensures log[j].claim.attempt == 1
    {
      if j > 0 { assert Follows(log[j - 1], log[j]); }
    }
  }

  // ----- never again -----

  /** The request was accepted and is no longer waiting or in flight. */
  ghost predicate Gone(data: Data, sequence: nat) {
    && sequence < data.nextSequence
    && forall id :: id in data.entries && data.entries[id].core.sequence == sequence ==> !Live(data.entries[id].state)
  }

  lemma StepStaysGone(limits: Limits, data: Data, call: Call, sequence: nat)
    requires Inv(limits, data) && Gone(data, sequence)
    ensures var o := Step(limits, data, call);
            && Gone(o.data, sequence)
            && forall e :: e in EmittedBy(call, o.response) ==> e.claim.core.sequence != sequence
  {
    hide Step, Kept, LiveUnchanged, EmittedBy, DispatchedFrom, Inv, Keyed;
    InvKeyed(limits, data);
    StepMoves(limits, data, call);
    KeptIsSub(data.entries, if call.PruneFinalized? then call.before else 0);
    var o := Step(limits, data, call);
    if EmittedBy(call, o.response) != [] {
      var e := EmittedBy(call, o.response)[0];
      DispatchedWasLive(data.entries, o.data.entries, e.claim, e.now);
      assert EmittedBy(call, o.response) == [e];
    }
  }

  lemma DispatchedWasLive(before: Entries, after: Entries, claim: Claim, now: nat)
    requires DispatchedFrom(before, after, claim, now)
    ensures claim.core.requestId in before && before[claim.core.requestId].core == claim.core
            && Live(before[claim.core.requestId].state)
  {}

  lemma KeptIsSub(entries: Entries, before: nat)
    ensures forall id :: id in Kept(entries, before) ==> id in entries && Kept(entries, before)[id] == entries[id]
    ensures forall id :: id in entries && id !in Kept(entries, before) ==> Prunable(entries[id], before)
  {}

  /** Once a request has left the queue, no later call of any run dispatches it. */
  lemma {:induction false} NeverDispatchedAgain(limits: Limits, data: Data, calls: seq<Call>, sequence: nat)
    requires Inv(limits, data) && Gone(data, sequence)
    ensures Gone(Run(limits, data, calls).0, sequence)
    ensures forall e :: e in Run(limits, data, calls).1 ==> e.claim.core.sequence != sequence
  {
    hide Step, Inv, Gone, EmittedBy;
    if calls != [] {
      var rest := calls[..|calls| - 1];
      NeverDispatchedAgain(limits, data, rest, sequence);
      RunKeepsInv(limits, data, rest);
      StepStaysGone(limits, Run(limits, data, rest).0, calls[|calls| - 1], sequence);
    }
  }

  // ----- finality -----

  /** The entry under this sequence number, if any, is this one. */
  ghost predicate Only(data: Data, e: Entry) {
    && e.core.sequence < data.nextSequence
    && forall id :: id in data.entries && data.entries[id].core.sequence == e.core.sequence ==> data.entries[id] == e
  }

  lemma StepKeepsFinal(limits: Limits, data: Data, call: Call, e: Entry)
    requires Inv(limits, data) && Only(data, e) && Final(e.state)
    ensures Only(Step(limits, data, call).data, e)
  {
    hide Step, Kept, DispatchedFrom, LiveUnchanged, EmittedBy, ValidIdentifier;
    assert Keyed(data.entries);
    StepMoves(limits, data, call);
    KeptIsSub(data.entries, if call.PruneFinalized? then call.before else 0);
    var after := Step(limits, data, call).data;
    forall id | id in after.entries && after.entries[id].core.sequence == e.core.sequence
      ensures after.entries[id] == e
    {
      assert id in data.entries;
    }
  }

  /** Settled, released and aborted are for good: whatever follows, the request is that or pruned. */
  lemma {:induction false} FinalIsForever(limits: Limits, data: Data, calls: seq<Call>, id: string)
    requires Inv(limits, data) && id in data.entries && Final(data.entries[id].state)
    ensures Only(Run(limits, data, calls).0, data.entries[id])
  {
    hide Step;
    if calls != [] {
      var rest := calls[..|calls| - 1];
      FinalIsForever(limits, data, rest, id);
      RunKeepsInv(limits, data, rest);
      StepKeepsFinal(limits, Run(limits, data, rest).0, calls[|calls| - 1], data.entries[id]);
    }
  }

  /** The request is still there, with everything it was accepted with. */
  ghost predicate Present(data: Data, core: Core) {
    core.requestId in data.entries && data.entries[core.requestId].core == core
  }

  /** The call that removes the request finds it final. */
  ghost predicate PrunedBy(data: Data, call: Call, core: Core) {
    Present(data, core) && call.PruneFinalized? && Final(data.entries[core.requestId].state)
    && Prunable(data.entries[core.requestId], call.before)
  }

  lemma StepKeepsOrPrunes(limits: Limits, data: Data, call: Call, core: Core)
    requires Inv(limits, data) && Present(data, core)
    ensures Present(Step(limits, data, call).data, core) || PrunedBy(data, call, core)
  {
    hide Step, Kept, DispatchedFrom, LiveUnchanged, EmittedBy, ValidIdentifier;
    assert Keyed(data.entries);
    StepMoves(limits, data, call);
    KeptIsSub(data.entries, if call.PruneFinalized? then call.before else 0);
  }

  /** An accepted request disappears only by pruning, and only from a final state. */
  lemma {:induction false} DisappearsOnlyWhenFinal(limits: Limits, data: Data, calls: seq<Call>, id: string)
    returns (k: nat)
    requires Inv(limits, data) && id in data.entries
    ensures k <= |calls|
    ensures k == |calls| ==> Present(Run(limits, data, calls).0, data.entries[id].core)
    ensures k < |calls| ==> PrunedBy(Run(limits, data, calls[..k]).0, calls[k], data.entries[id].core)
  {
    hide Step;
    k := 0;
    var core := data.entries[id].core;
    assert Present(data, core);
    if calls != [] {
      var rest := calls[..|calls| - 1];
      k := DisappearsOnlyWhenFinal(limits, data, rest, id);
      if k < |rest| {
        assert calls[..k] == rest[..k] && calls[k] == rest[k];
      } else {
        RunKeepsInv(limits, data, rest);
        StepKeepsOrPrunes(limits, Run(limits, data, rest).0, calls[|rest|], core);
        if Present(Run(limits, data, calls).0, core) { k := |calls|; }
      }
    }
  }

  // ----- the cover schedule -----

  datatype Schedule = Schedule(nextSlot: nat, nextDue: Option<nat>)
  datatype Tick = Tick(slot: nat, dueAt: nat)

  ghost function ScheduleOf(data: Data): Schedule { Schedule(data.nextCoverSlot, data.nextCoverDueAt) }

  /** What an observer of the schedule sees of one call. */
  ghost function TickOf(response: Response): seq<Tick> {
    if response.Covered? && response.slot.Some? then [Tick(response.slot.value.slot, response.slot.value.dueAt)] else []
  }

  ghost function Ticks(limits: Limits, data: Data, calls: seq<Call>): seq<Tick> {
    if calls == [] then [] else
    var rest := calls[..|calls| - 1];
    Ticks(limits, data, rest) + TickOf(Step(limits, Run(limits, data, rest).0, calls[|calls| - 1]).response)
  }

  /** The schedule on its own: it reads the clock and the interval and nothing else. */
  ghost function Advance(s: Schedule, call: Call): (Schedule, seq<Tick>) {
    if !call.ClaimCoverSlot? || call.interval == 0 then (s, []) else
    var due := if s.nextDue.Some? then s.nextDue.value else call.now;
    if call.now < due || s.nextSlot + 1 >= U64 || due + call.interval >= U64 then (s, [])
    else (Schedule(s.nextSlot + 1, Some(due + call.interval)), [Tick(s.nextSlot, due)])
  }

  ghost function CoverRun(s: Schedule, calls: seq<Call>): (Schedule, seq<Tick>) {
    if calls == [] then (s, []) else
    var (before, ticks) := CoverRun(s, calls[..|calls| - 1]);
    var (after, tick) := Advance(before, calls[|calls| - 1]);
    (after, ticks + tick)
  }

  ghost function CoverCalls(calls: seq<Call>): seq<Call> {
    if calls == [] then [] else
    var last := calls[|calls| - 1];
    CoverCalls(calls[..|calls| - 1]) + if last.ClaimCoverSlot? then [last] else []
  }

  lemma StepSchedule(limits: Limits, data: Data, call: Call)
    requires data.generation + 1 < U64
    ensures var o := Step(limits, data, call);
            && (ScheduleOf(o.data), TickOf(o.response)) == Advance(ScheduleOf(data), call)
            && o.data.generation <= data.generation + 1
  {
    hide ClaimOldest, ValidIdentifier, Kept, Target, WellFormed, SameRequest;
  }

  lemma {:induction false} RunSchedule(limits: Limits, data: Data, calls: seq<Call>)
    requires data.generation + |calls| < U64
    ensures var after := Run(limits, data, calls).0;
            && (ScheduleOf(after), Ticks(limits, data, calls)) == CoverRun(ScheduleOf(data), CoverCalls(calls))
            && after.generation <= data.generation + |calls|
  {
    hide Step, Advance, ScheduleOf, TickOf;
    if calls != [] {
      var rest, last := calls[..|calls| - 1], calls[|calls| - 1];
      RunSchedule(limits, data, rest);
      StepSchedule(limits, Run(limits, data, rest).0, last);
      if last.ClaimCoverSlot? {
        var covers := CoverCalls(rest);
        assert (covers + [last])[..|covers|] == covers;
      } else {
        OtherCallsDoNotTick(ScheduleOf(Run(limits, data, rest).0), last);
        assert CoverCalls(calls) == CoverCalls(rest) && Ticks(limits, data, calls) == Ticks(limits, data, rest);
      }
    }
  }

  lemma OtherCallsDoNotTick(s: Schedule, call: Call)
    requires !call.ClaimCoverSlot?
    ensures Advance(s, call) == (s, [])
  {}

  /** Two runs with the same cover calls tick alike, whatever else was enqueued, claimed or recorded. */
  lemma ScheduleHidesTheQueue(limits: Limits, a: Data, b: Data, callsA: seq<Call>, callsB: seq<Call>)
    requires ScheduleOf(a) == ScheduleOf(b) && CoverCalls(callsA) == CoverCalls(callsB)
    requires a.generation + |callsA| < U64 && b.generation + |callsB| < U64
    ensures Ticks(limits, a, callsA) == Ticks(limits, b, callsB)
  {
    RunSchedule(limits, a, callsA);
    RunSchedule(limits, b, callsB);
  }

  /** The first k ticks of a schedule that started at t0, and the time it is next due. */
  ghost predicate Arithmetic(s: Schedule, ticks: seq<Tick>, interval: nat) {
    && s.nextSlot == |ticks|
    && (ticks == [] ==> s.nextDue == None)
    && (ticks != [] ==> s.nextDue == Some(DueAt(ticks[0].dueAt, |ticks|, interval)))
    && forall k :: 0 <= k < |ticks| ==> ticks[k] == Tick(k, DueAt(ticks[0].dueAt, k, interval))
  }

  ghost function DueAt(start: nat, k: nat, interval: nat): nat { start + k * interval }

  /** The first cover call the schedule accepts is the first with room for the next due time: it starts the clock. */
  ghost function StartOf(calls: seq<Call>): Option<nat> {
    if calls == [] then None else
    var earlier, last := StartOf(calls[..|calls| - 1]), calls[|calls| - 1];
    if earlier.Some? then earlier
    else if last.ClaimCoverSlot? && last.interval > 0 && last.now + last.interval < U64 then Some(last.now)
    else None
  }

  lemma {:induction false} CoverRunIsArithmetic(calls: seq<Call>, interval: nat)
    requires forall i :: 0 <= i < |calls| ==> calls[i].ClaimCoverSlot? && calls[i].interval == interval
    ensures var (s, ticks) := CoverRun(Schedule(0, None), calls);
            Arithmetic(s, ticks, interval) && StartOf(calls) == if ticks == [] then None else Some(ticks[0].dueAt)
  {
    hide DueAt;
    if calls == [] {
    } else {
      CoverRunIsArithmetic(calls[..|calls| - 1], interval);
      var (s, ticks) := CoverRun(Schedule(0, None), calls[..|calls| - 1]);
      TickIsArithmetic(s, ticks, calls[|calls| - 1]);
    }
  }

  lemma TickIsArithmetic(s: Schedule, ticks: seq<Tick>, call: Call)
    requires call.ClaimCoverSlot? && Arithmetic(s, ticks, call.interval)
    ensures Arithmetic(Advance(s, call).0, ticks + Advance(s, call).1, call.interval)
  {
    hide DueAt;
    var start := if ticks == [] then call.now else ticks[0].dueAt;
    NextDue(start, |ticks|, call.interval);
  }

  lemma NextDue(start: nat, k: nat, interval: nat)
    ensures DueAt(start, 0, interval) == start && DueAt(start, k + 1, interval) == DueAt(start, k, interval) + interval
  {}

  /** Only cover calls start the clock, so what else a run does is beside the point. */
  lemma {:induction false} CoverCallsStart(calls: seq<Call>, interval: nat)
    requires forall i :: 0 <= i < |calls| && calls[i].ClaimCoverSlot? ==> calls[i].interval == interval
    ensures StartOf(CoverCalls(calls)) == StartOf(calls)
    ensures forall c :: c in CoverCalls(calls) ==> c.ClaimCoverSlot? && c.interval == interval
  {
    if calls != [] {
      var rest, last := calls[..|calls| - 1], calls[|calls| - 1];
      CoverCallsStart(rest, interval);
      if last.ClaimCoverSlot? {
        assert (CoverCalls(rest) + [last])[..|CoverCalls(rest)|] == CoverCalls(rest);
      } else {
        assert CoverCalls(calls) == CoverCalls(rest);
      }
    }
  }

  /**
   In every run whose cover calls use one interval, whatever else it does, slot k is due k
   intervals after the first, and the first is due when the first accepted cover call was made.
   */
  lemma ScheduleIsArithmetic(limits: Limits, calls: seq<Call>, interval: nat)
    requires |calls| < U64
    requires forall i :: 0 <= i < |calls| && calls[i].ClaimCoverSlot? ==> calls[i].interval == interval
    ensures var ticks := Ticks(limits, EMPTY, calls);
            && Arithmetic(ScheduleOf(Run(limits, EMPTY, calls).0), ticks, interval)
            && StartOf(calls) == if ticks == [] then None else Some(ticks[0].dueAt)
  {
    RunSchedule(limits, EMPTY, calls);
    CoverCallsStart(calls, interval);
    CoverRunIsArithmetic(CoverCalls(calls), interval);
  }

  /**
   The next cover call claims slot k exactly when the schedule has not started or k intervals have
   passed since it did, as long as the next slot number and due time can still be counted.
   */
  lemma TicksWhenDue(limits: Limits, calls: seq<Call>, call: Call)
    requires |calls| + 1 < U64 && call.ClaimCoverSlot? && call.interval > 0
    requires forall i :: 0 <= i < |calls| && calls[i].ClaimCoverSlot? ==> calls[i].interval == call.interval
    ensures var (ticks, more) := (Ticks(limits, EMPTY, calls), Ticks(limits, EMPTY, calls + [call]));
            var due := if ticks == [] then call.now else DueAt(ticks[0].dueAt, |ticks|, call.interval);
            if call.now >= due && |ticks| + 1 < U64 && due + call.interval < U64
            then more == ticks + [Tick(|ticks|, due)] else more == ticks
  {
    hide Step, ScheduleOf, TickOf, DueAt;
    ScheduleIsArithmetic(limits, calls, call.interval);
    RunSchedule(limits, EMPTY, calls);
    assert (calls + [call])[..|calls|] == calls;
    StepSchedule(limits, Run(limits, EMPTY, calls).0, call);
  }

  // ----- a pending release holds the queue -----

  ghost predicate Waiting(data: Data, id: string) {
    id in data.entries && Matches(AwaitingRelease, data.entries[id])
  }

  /** The calls that end a request's wait for its release. */
  ghost predicate Resolves(call: Call, id: string) {
    (call.RecordRelease? || call.RecordPreReserveAbort? || call.MarkManualReview?) && call.id == id
  }

  /** A claim made while a release is pending surfaces the oldest one, moves nothing and dispatches nothing. */
  lemma PendingReleaseBlocks(limits: Limits, data: Data, call: Call, id: string)
    requires Inv(limits, data) && IsOldest(data.entries, AwaitingRelease, id)
    requires call.ClaimNext? || call.ClaimCoverSlot?
    ensures var o := Step(limits, data, call);
            var digest := data.entries[id].core.digest;
            var ticks := Advance(ScheduleOf(data), call).1;
            && o.data.entries == data.entries && EmittedBy(call, o.response) == []
            && (data.generation + 1 < U64 && call.ClaimNext? ==> o.response == Claimed(Some(Expire(id, digest))))
            && (data.generation + 1 < U64 && ticks != [] ==>
                  o.response == Covered(Some(CoverSlot(ticks[0].slot, ticks[0].dueAt, Release(id, digest)))))
  {
    OldestIs(data.entries, AwaitingRelease, id);
    hide Oldest, DispatchNext;
  }

  lemma OldestWaits(data: Data, id: string) returns (oldest: string)
    requires Waiting(data, id)
    ensures IsOldest(data.entries, AwaitingRelease, oldest)
  {
    OldestOrNone(data.entries, AwaitingRelease);
    oldest :| IsOldest(data.entries, AwaitingRelease, oldest);
  }

  lemma StepStaysWaiting(limits: Limits, data: Data, call: Call, id: string)
    requires Inv(limits, data) && Waiting(data, id) && !Resolves(call, id)
    ensures var o := Step(limits, data, call);
            Waiting(o.data, id) && EmittedBy(call, o.response) == []
  {
    if call.ClaimNext? || call.ClaimCoverSlot? {
      hide Step, EmittedBy;
      var oldest := OldestWaits(data, id);
      PendingReleaseBlocks(limits, data, call, oldest);
    } else if Addresses(call) {
      TransitionStaysWaiting(data, call, id);
      hide Inv, Waiting, Transition, Resolves;
    } else {
      OthersStayWaiting(limits, data, call, id);
    }
  }

  lemma OthersStayWaiting(limits: Limits, data: Data, call: Call, id: string)
    requires Waiting(data, id) && (call.Enqueue? || call.EnqueueFirstSeen? || call.PruneFinalized?)
    ensures var o := Step(limits, data, call);
            Waiting(o.data, id) && EmittedBy(call, o.response) == []
  {
    hide Valid, ValidIdentifier, WellFormed, SameRequest, Cover, ClaimOldest, Transition;
  }

  lemma TransitionStaysWaiting(data: Data, call: Call, id: string)
    requires Addresses(call) && Waiting(data, id) && !Resolves(call, id)
    ensures Waiting(Transition(data, call).data, id)
  {
    hide WellFormed, SameTransition;
  }

  /** Until a call resolves it, a pending release stays pending and not one request is dispatched. */
  lemma {:induction false} HeldUntilResolved(limits: Limits, data: Data, calls: seq<Call>, id: string)
    requires Inv(limits, data) && Waiting(data, id)
    requires forall k :: 0 <= k < |calls| ==> !Resolves(calls[k], id)
    ensures Waiting(Run(limits, data, calls).0, id) && Run(limits, data, calls).1 == []
  {
    hide Step, EmittedBy, Waiting, Resolves, Inv;
    if calls != [] {
      var rest := calls[..|calls| - 1];
      HeldUntilResolved(limits, data, rest, id);
      RunKeepsInv(limits, data, rest);
      StepStaysWaiting(limits, Run(limits, data, rest).0, calls[|rest|], id);
    }
  }
}
