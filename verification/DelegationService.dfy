/** The delegation services as they run: each makes its repository calls in order inside one transaction, other
    callers' steps falling anywhere between them, and any call may fail. */
module DelegationService {
  import opened Shared
  import opened Uuids
  import opened Idempotency
  import opened Namespaces
  import opened Publication
  import Guards = NamespaceGuards
  import NamespaceRepository
  import OutboxRepository
  import Ownership = NamespaceOwnership
  import Runs = PublicationRuns

  const INVALID_REVOCATION := Error(Invalid, "namespace.invalid_delegation_revocation")
  const INVALID_KEY := Error(Invalid, "namespace.invalid_idempotency_key")

  /** The failures that are nobody's fault: a database or an identifier source that does not answer. */
  predicate IsOutage(e: Error) {
    e.kind.Unavailable? || e == IDENTIFIER_UNAVAILABLE
  }

  /** The error of a call that the database does not answer. */
  function Silence(step: Step): Error {
    match step
    case Acquire(_, _) => UNAVAILABLE
    case Complete(_) => UNAVAILABLE
    case Allocate(_) => OutboxRepository.UNAVAILABLE
    case RecordEvent(_, _) => OutboxRepository.UNAVAILABLE
    case Commit(_) => TRANSACTION_UNAVAILABLE
    case _ => NamespaceRepository.UNAVAILABLE
  }

  /** The call begins a repository operation that opens its own savepoint. */
  predicate OpensSavepoint(step: Step, t: Tx) {
    step.Acquire? || step.Replay? || step.LockNamespace? || step.Complete?
    || (step.Mutate? && t.request.command.Revoke?)
  }

  /** The error of a call that fails at that place: the savepoint and the audit fact have codes of their own. */
  function SilenceAt(step: Step, t: Tx, outage: Outage): Error {
    if outage.Opening? && OpensSavepoint(step, t) then TRANSACTION_UNAVAILABLE
    else if outage.Auditing? && step.Mutate? then AUDIT_UNAVAILABLE
    else Silence(step)
  }

  /** The call is refused before it reaches the database: no identifier can be drawn, or the event's time has no text
      form. */
  predicate Unsent(step: Step, t: Tx) {
    || (step.Acquire? && !ValidUuid(step.recordId))
    || (step.RecordEvent? && (!ValidUuid(step.eventId) || !Representable(t.request.now)))
  }

  /** The error of a call the tables or the identifier source refuse. */
  function Refusal(db: Db, step: Step, t: Tx): Error {
    match step
    case Acquire(_, recordId) =>
      if !ValidUuid(recordId) then IDENTIFIER_UNAVAILABLE
      else ErrorOr(Acquired(db.records, KeyOf(t.request), NewRecord(recordId, t.request.digest, t.request.now)), step)
    case Replay(_) =>
      if t.phase.Found? then ErrorOr(Replayed(db, t.phase.stored, t.request.command), step) else Silence(step)
    case LockNamespace(_, newId) =>
      if t.request.command.Create? then ErrorOr(Drafted(db, t.request, newId), step) else Silence(step)
    case Mutate(_) => if AtWrite(t) then ErrorOr(Mutated(db, t), step) else Silence(step)
    case RecordEvent(_, eventId) =>
      if !ValidUuid(eventId) then IDENTIFIER_UNAVAILABLE
      else if !Representable(t.request.now) then EVENT_UNAVAILABLE
      else Silence(step)
    case Complete(_) => if t.phase.Recorded? then ErrorOr(Established(db, t), step) else Silence(step)
    case _ => Silence(step)
  }

  function ErrorOr<T>(r: Result<T>, step: Step): Error {
    if r.Err? then r.error else Silence(step)
  }

  /** What a call returns: the delegation, its creation time as the program's memory holds it. */
  datatype Answer = Answer(delegation: Delegation, createdAt: Nanos)

  /** A creation answers with the delegation it made, at the time it read from the clock; every other call answers with
      a row it has read. */
  function AnswerOf(t: Tx): Answer
    requires t.phase.Finished? || t.phase.Answering?
  {
    AnswerTo(t.request, t.phase.result, t.phase.Finished?)
  }

  function AnswerTo(request: Request, d: Delegation, written: bool): Answer {
    Answer(d, if written && request.command.Create? then request.now else ReadBack(d.createdAt))
  }

  /** The answer is committed and from now on the key's established one; it is what was asked for, as it stands. */
  ghost predicate Given(db: Db, request: Request, a: Answer) {
    && Runs.Establishes(db, request, a.delegation.id) && Shows(db, a.delegation) && Asked(request.command, a.delegation)
    && StoredTime(a.createdAt) == a.delegation.createdAt
  }

  /** What the caller of a request learns. `steps` is what happened meanwhile, `before` and `after` the committed
      tables. */
  ghost predicate Answered(before: Db, after: Db, steps: seq<Step>, tx: nat, request: Request, r: Result<Answer>) {
    var key := KeyOf(request);
    && Runs.Extends(before, after)
    && (r.Ok? ==> Commit(tx) in steps && Given(after, request, r.value))
    // Only a commit whose reply is lost is reported as a failure although it took effect.
    && (r.Err? && Commit(tx) in steps ==> r.error == TRANSACTION_UNAVAILABLE)
    // An established key is answered, or refused, from its record; and no message is written for it again.
    && (key in before.records ==>
          && key !in after.origins[|before.origins|..]
          && (if before.records[key].digest == request.digest
              then (if r.Ok? then Repeats(before, request, r.value) else IsOutage(r.error))
              else r.Err? && (r.error == MISMATCH || IsOutage(r.error))))
  }

  /** The answer is the established one, read from its row. */
  ghost predicate Repeats(before: Db, request: Request, a: Answer) {
    Runs.Establishes(before, request, a.delegation.id) && a.createdAt == ReadBack(a.delegation.createdAt)
  }

  /** The phase a successful call leaves its transaction in. */
  predicate Reached(step: Step, phase: Phase) {
    match step
    case Acquire(_, _) => phase.Owning? || phase.Found?
    case Replay(_) => phase.Answering?
    case LockNamespace(_, _) => phase.Nesting?
    case LockPrefix(_) => phase.Naming?
    case Mutate(_) => phase.Changed?
    case Allocate(_) => phase.Allocated?
    case RecordEvent(_, _) => phase.Recorded?
    case Complete(_) => phase.Finished?
    case _ => true
  }

  // ---------------------------------------------------------------- an undisturbed call

  /** The identifiers a call draws: for its record, for a new delegation, and for its message. */
  datatype Ids = Ids(record: Uuid, delegation: Uuid, event: Uuid)

  /** The writes of a call that owns its key, all made. */
  function Written(db: Db, request: Request, ids: Ids, d: Delegation): Tx {
    var own := NewRecord(ids.record, request.digest, request.now)
      .(result := Some(OutcomeOf(db.setup, request.command, d.id)), completedAt := Some(StoredTime(request.now)));
    var event := Event(ids.event, db.next, d, ChangeOf(request.command), request.now);
    Tx(request, Finished(own, d, FactOf(request.command, d.id), event))
  }

  /** The delegation a call with a new key writes, or why it is refused. */
  function Decided(db: Db, request: Request, newId: Uuid): Result<Delegation> {
    if request.command.Revoke? then Withdrawn(db, request)
    else
      var d := Drafted(db, request, newId);
      if d.Err? then d
      else
        var refusal := Guards.InsertRefusal(TablesOf(db), d.value);
        if refusal.Some? then Err(refusal.value) else d
  }

  /** What a call that nothing disturbs leaves and answers, or the error it gets. */
  function Served(db: Db, request: Request, ids: Ids): Result<(Db, Answer)> {
    var key := KeyOf(request);
    if !ValidUuid(ids.record) then Err(IDENTIFIER_UNAVAILABLE)
    else if key !in db.records && IdTaken(db.records, ids.record) then Err(UNAVAILABLE)
    else if key in db.records then
      var known := Replayed(db, db.records[key], request.command);
      if db.records[key].digest != request.digest then Err(MISMATCH)
      else if known.Err? then Err(known.error)
      else Ok((db, AnswerTo(request, known.value, false)))
    else Published(db, request, ids, Decided(db, request, ids.delegation))
  }

  /** The delegation committed with its audit fact, its message and its answer. */
  function Published(db: Db, request: Request, ids: Ids, d: Result<Delegation>): Result<(Db, Answer)> {
    if d.Err? then Err(d.error)
    else if db.next >= MAX_SEQUENCE then Err(OutboxRepository.UNAVAILABLE)
    else if !ValidUuid(ids.event) then Err(IDENTIFIER_UNAVAILABLE)
    else if !Representable(request.now) then Err(EVENT_UNAVAILABLE)
    else if !FreshEvent(db, ids.event) then Err(OutboxRepository.UNAVAILABLE)
    else Ok((Merged(db, Written(db, request, ids, d.value)), AnswerTo(request, d.value, true)))
  }

  /** A creation under a new key, with fresh identifiers, is served exactly when its prefix lies below an existing
      root, is claimed by nobody, nests with the namespace's active delegations, its recipient is verified and its time
      can be written down. */
  lemma CreationIsServedExactly(db: Db, request: Request, ids: Ids)
    requires DbOk(db) && RequestOk(db.setup, request) && request.command.Create? && KeyOf(request) !in db.records
    requires ValidUuid(ids.record) && !IdTaken(db.records, ids.record)
    requires ValidUuid(ids.delegation) && ids.delegation !in db.delegations
    requires FreshEvent(db, ids.event) && db.next < MAX_SEQUENCE
    ensures var t, c := TablesOf(db), request.command;
            Served(db, request, ids).Ok? <==>
              && c.namespaceId in t.namespaces && t.namespaces[c.namespaceId].path + "/" <= c.childPrefix
              && !Ownership.Claimed(Ownership.LiveClaims(t), c.childPrefix)
              && (forall id | Ownership.IsActive(t, id) && t.delegations[id].namespaceId == c.namespaceId ::
                    Ownership.Nested(t.delegations[id].childPrefix, c.childPrefix))
              && Guards.IsVerified(t, c.publisherId) && Representable(request.now)
  {
    hide ValidPath, ValidOwnership, LogOk, OriginsOk, IdTaken, Merged, Guards.InsertRefusal;
    var t, c := TablesOf(db), request.command;
    Guards.FreeMeansUnclaimed(t, c.childPrefix);
    if c.namespaceId in t.namespaces {
      assert Ownership.RootOk(t, c.namespaceId);
      DraftedExactly(db, request, ids.delegation);
      var d := Drafted(db, request, ids.delegation);
      if d.Ok? { Guards.RefusalIsExact(t, d.value); }
    }
  }

  lemma DraftedExactly(db: Db, request: Request, newId: Uuid)
    requires RequestOk(db.setup, request) && request.command.Create? && ValidUuid(newId)
    requires request.command.namespaceId in db.namespaces
    requires ValidPath(db.namespaces[request.command.namespaceId].path)
    ensures var c := request.command;
            var d := Drafted(db, request, newId);
            && (d.Ok? <==> db.namespaces[c.namespaceId].path + "/" <= c.childPrefix)
            && (d.Ok? ==> d.value == Delegation(
                  newId, c.namespaceId, c.publisherId, c.childPrefix, DelegationState.Active, 1,
                  StoredTime(request.now)))
  {
    hide ValidUuid, ValidOwnership, BoundedText;
  }

  function Advance(db: Db, step: Step, t: Tx): Result<Tx>
    requires Continues(step)
  {
    if Ready(db, step, t) then Ok(t.(phase := NextPhase(db, step, t))) else Err(Refusal(db, step, t))
  }

  /** A status says of a call what the result says. */
  predicate Agrees<T>(r: Status, with: Result<T>) {
    if with.Ok? then r.Done? else r == Failed(with.error)
  }

  predicate Alone(open: map<nat, Tx>, tx: nat) {
    forall o | o in open :: o == tx
  }

  /** What the statements of an undisturbed call come to. */
  ghost predicate ServedBy(db: Db, request: Request, ids: Ids, after: Tx, r: Status) {
    var served := Served(db, request, ids);
    && Agrees(r, served)
    && (r.Done? ==>
          (after.phase.Finished? || after.phase.Answering?)
              && served.value == (Committed(db, after), AnswerOf(after)))
  }

  class Service {
    var db: Db
    var open: map<nat, Tx>
    const setup: Setup
    ghost var history: seq<Step>

    ghost function Now(): State
      reads this
    {
      State(db, open)
    }

    /** The tables and open transactions are those of a run from the empty tables. */
    ghost predicate Reachable()
      reads this
    {
      Laws(setup) && Runs.Valid(Init(setup), history) && Runs.Run(Init(setup), history) == Now()
    }

    constructor (setup: Setup)
      requires Laws(setup)
      ensures Reachable() && Now() == Init(setup) && history == []
    {
      db, open := Init(setup).db, map[];
      this.setup := setup;
      history := [];
    }

    /** One step of one transaction. */
    method Perform(step: Step)
      requires Reachable() && Enabled(Now(), step)
      modifies this
      ensures Reachable() && history == old(history) + [step] && Now() == Apply(old(Now()), step)
    {
      hide Enabled, Apply;
      Runs.RunSnoc(Init(setup), history, step);
      var after := Apply(State(db, open), step);
      db, open := after.db, after.open;
      history := history + [step];
    }

    /** What other callers do meanwhile: any of their possible steps, in any order; none while it is calm. */
    method Others(tx: nat, calm: bool)
      requires Reachable()
      modifies this
      ensures Reachable() && old(history) <= history
      ensures OnlyOthers(history, |old(history)|, tx)
      ensures tx in open <==> tx in old(open)
      ensures tx in open ==> open[tx] == old(open)[tx]
      ensures calm ==> Now() == old(Now()) && history == old(history)
    {
      if calm { return; }
      var steps: seq<Step> := *;
      for i := 0 to |steps|
        invariant Reachable() && old(history) <= history
        invariant OnlyOthers(history, |old(history)|, tx)
        invariant tx in open <==> tx in old(open)
        invariant tx in open ==> open[tx] == old(open)[tx]
      {
        if steps[i].tx != tx && Enabled(State(db, open), steps[i]) {
          OthersDoNotTouch(Now(), steps[i], tx);
          Perform(steps[i]);
        }
      }
    }

    lemma ReachableIsSound()
      requires Reachable()
      ensures Inv(Now())
    {
      hide Inv;
      Runs.InitInv(setup);
      Runs.RunKeepsInv(Init(setup), history);
    }

    /** The same, with what it leaves true. */
    method Meanwhile(tx: nat, calm: bool)
      requires Reachable()
      modifies this
      ensures Reachable() && old(history) <= history
      ensures OnlyOthers(history, |old(history)|, tx)
      ensures tx in open <==> tx in old(open)
      ensures tx in open ==> open[tx] == old(open)[tx]
      ensures calm ==> Now() == old(Now()) && history == old(history)
      ensures Runs.Extends(old(db), db) && Inv(Now())
    {
      hide Inv, Runs.Extends, OnlyOthers;
      Others(tx, calm);
      ReachableExtends(setup, old(history), history);
      ReachableIsSound();
    }

    /** One repository call with nothing before it: it succeeds, or fails and changes nothing. */
    method Do(step: Step, outage: Outage, waited: bool) returns (r: Status)
      requires Reachable() && !Opens(step) && !step.Abort? && step.tx in open
      modifies this
      ensures Reachable() && history == if r.Done? then old(history) + [step] else old(history)
      ensures r.Done? ==> Enabled(old(Now()), step) && Now() == Apply(old(Now()), step)
      ensures r.Failed? ==> Now() == old(Now())
      ensures r.Failed? ==> Refuses(old(Now()), step, outage, waited, r.error)
      // A revocation that waited for another of the same delegation is told that there is no such delegation.
      ensures waited && step.Mutate? && !outage.Opening? && !outage.Deciding?
              && old(open)[step.tx].phase.Owning? && old(open)[step.tx].request.command.Revoke?
              && old(open)[step.tx].request.command.delegationId in old(db).delegations
              && old(db).delegations[old(open)[step.tx].request.command.delegationId].state.Revoked? ==>
                r == Failed(Error(NotFound, "namespace.delegation_not_found"))
    {
      hide Reachable;
      var t := open[step.tx];
      if !Unsent(step, t) && (outage.Opening? || outage.Deciding?) { return Failed(SilenceAt(step, t, outage)); }
      if waited && Overtaken(db, step, t) { return Failed(DELEGATION_NOT_FOUND); }
      if !Ready(db, step, t) { return Failed(Refusal(db, step, t)); }
      if !outage.Nowhere? || !LocksFree(State(db, open), step, t) { return Failed(SilenceAt(step, t, outage)); }
      Perform(step);
      r := Done;
    }

    /** One repository call, after whatever others do first. While it is calm they do nothing and the database
        answers. */
    method Try(step: Step, calm: bool) returns (r: Status)
      requires Reachable() && !Opens(step) && !step.Abort? && step.tx in open
      modifies this
      ensures Reachable() && old(history) <= history
      ensures r.Done? ==> |history| > |old(history)| && history[|history| - 1] == step
      ensures (r.Done? && step.Commit?) || Uncommitted(history, |old(history)|, step.tx)
      ensures step.tx in open <==> !(r.Done? && step.Commit?)
      ensures step.tx in open ==> open[step.tx].request == old(open)[step.tx].request
      ensures r.Done? && !step.Commit? ==> Reached(step, open[step.tx].phase)
      ensures r.Done? && step.Commit? ==>
                var t := old(open)[step.tx];
                (t.phase.Finished? || t.phase.Answering?) && Given(db, t.request, AnswerOf(t))
      ensures r.Failed? ==> open[step.tx] == old(open)[step.tx]
      ensures FailsRightly(old(db), old(open)[step.tx], step, r, step.tx in open && open[step.tx].phase.Found?)
      ensures calm && Alone(old(open), step.tx) ==> Undisturbed(old(Now()), step, Now(), r)
    {
      hide Ready, LocksFree, NextPhase, Runs.Establishes, Merged, KeyOf, Undisturbed, Enabled, Apply, FailsRightly;
      hide Refuses, Reachable, Runs.Extends, Inv, Reached, Given, Waits, AnswerOf;
      var waited := Waits(State(db, open), step);
      Meanwhile(step.tx, calm);
      ghost var s := Now();
      var outage: Outage := *;
      if calm { outage := Nowhere; }
      r := Do(step, outage, waited);
      CallOutcome(old(db), s, step, Now(), r, outage, waited);
      if calm && Alone(old(open), step.tx) { CallUndisturbed(s, step, Now(), r, waited); }
    }

    method Start(tx: nat, request: Request)
      requires Reachable() && tx !in open && RequestOk(setup, request)
      modifies this
      ensures Reachable() && history == old(history) + [Begin(tx, request)] && db == old(db)
      ensures open == old(open)[tx := Tx(request, Started)]
    {
      Runs.SetupStays(setup, history, |history|);
      assert history[..|history|] == history;
      Perform(Begin(tx, request));
    }

    method GiveUp(tx: nat)
      requires Reachable() && tx in open
      modifies this
      ensures Reachable() && history == old(history) + [Abort(tx)] && db == old(db) && open == old(open) - {tx}
    {
      Perform(Abort(tx));
    }

    /** The statements of a call, in order: claim the key, then replay its answer, or make the change with its audit
        fact, its message and its answer. */
    method Statements(tx: nat, ids: Ids, calm: bool) returns (r: Status)
      requires Reachable() && tx in open && open[tx].phase.Started?
      modifies this
      ensures Reachable() && old(history) <= history && Uncommitted(history, |old(history)|, tx)
      ensures tx in open && open[tx].request == old(open)[tx].request
      ensures r.Done? ==> open[tx].phase.Finished? || open[tx].phase.Answering?
      ensures var t := old(open)[tx];
              KeyOf(t.request) in old(db.records) ==>
                if old(db.records)[KeyOf(t.request)].digest == t.request.digest
                then (if r.Done? then open[tx].phase.Answering? else IsOutage(r.error))
                else r.Failed? && (r.error == MISMATCH || IsOutage(r.error))
      ensures calm && Alone(old(open), tx) ==> db == old(db) && Alone(open, tx)
      ensures calm && Alone(old(open), tx) ==> ServedBy(old(db), old(open)[tx].request, ids, open[tx], r)
    {
      hide KeyOf, IsOutage, Runs.Establishes, Reachable, Ready, NextPhase, Merged, Served, Committed;
      ghost var t := open[tx];
      AcquiredUndisturbed(db, t, tx, ids);
      r := Try(Acquire(tx, ids.record), calm);
      if r.Failed? { return; }
      if open[tx].phase.Found? {
        r := Try(Replay(tx), calm);
        return;
      }
      r := Change(tx, ids, calm);
    }

    /** A creation's statements up to its insert: read the namespace and draft the row, then the insert's two locks. */
    method Place(tx: nat, ids: Ids, calm: bool) returns (r: Status)
      requires Reachable() && tx in open && open[tx].request.command.Create?
      modifies this
      ensures Reachable() && old(history) <= history && Uncommitted(history, |old(history)|, tx)
      ensures tx in open && open[tx].request == old(open)[tx].request
      ensures calm && Alone(old(open), tx) ==> db == old(db) && Alone(open, tx)
      ensures calm && Alone(old(open), tx) ==>
                var after := Placed(old(db), old(open)[tx], tx, ids);
                Agrees(r, after) && (r.Done? ==> open[tx] == after.value)
    {
      hide KeyOf, IsOutage, Runs.Establishes, Reachable, Ready, NextPhase, Merged, Refusal, FailsRightly;
      r := Try(LockNamespace(tx, ids.delegation), calm);
      if r.Done? { r := Try(LockPrefix(tx), calm); }
    }

    /** The statements of a call that owns its key. */
    method Change(tx: nat, ids: Ids, calm: bool) returns (r: Status)
      requires Reachable() && tx in open
      modifies this
      ensures Reachable() && old(history) <= history && Uncommitted(history, |old(history)|, tx)
      ensures tx in open && open[tx].request == old(open)[tx].request
      ensures r.Done? ==> open[tx].phase.Finished?
      ensures calm && Alone(old(open), tx) ==> db == old(db) && Alone(open, tx)
      ensures calm && Alone(old(open), tx) ==>
                var after := Changes(old(db), old(open)[tx], tx, ids);
                Agrees(r, after) && (r.Done? ==> open[tx] == after.value)
    {
      hide KeyOf, IsOutage, Runs.Establishes, Reachable, Placed, Writes;
      r := Done;
      if open[tx].request.command.Create? { r := Place(tx, ids, calm); }
      if r.Failed? { return; }
      r := Write(tx, ids, calm);
    }

    /** The write, with its audit fact, its message and its answer. */
    method Write(tx: nat, ids: Ids, calm: bool) returns (r: Status)
      requires Reachable() && tx in open
      modifies this
      ensures Reachable() && old(history) <= history && Uncommitted(history, |old(history)|, tx)
      ensures tx in open && open[tx].request == old(open)[tx].request
      ensures r.Done? ==> open[tx].phase.Finished?
      ensures calm && Alone(old(open), tx) ==> db == old(db) && Alone(open, tx)
      ensures calm && Alone(old(open), tx) ==>
                var after := Writes(old(db), old(open)[tx], tx, ids);
                Agrees(r, after) && (r.Done? ==> open[tx] == after.value)
    {
      hide KeyOf, IsOutage, Runs.Establishes, Reachable, Ready, NextPhase, Merged, Refusal, FailsRightly;
      r := Try(Mutate(tx), calm);
      if r.Done? { r := Try(Allocate(tx), calm); }
      if r.Done? { r := Try(RecordEvent(tx, ids.event), calm); }
      if r.Done? { r := Try(Complete(tx), calm); }
    }

    /** The transaction of a call: its statements, then the commit; or all of it is given up. The reply to a commit
        that took effect may be lost. */
    method Within(tx: nat, request: Request, ids: Ids, calm: bool) returns (r: Result<Answer>)
      requires Reachable() && tx !in open && RequestOk(setup, request)
      modifies this
      ensures Reachable() && old(history) <= history && tx !in open
      ensures r.Ok? ==>
                && |history| > |old(history)| && history[|history| - 1] == Commit(tx)
                && Given(db, request, r.value)
      ensures r.Err? ==> r.error == TRANSACTION_UNAVAILABLE || Uncommitted(history, |old(history)|, tx)
      ensures KeyOf(request) in old(db.records) ==>
                if old(db.records)[KeyOf(request)].digest == request.digest
                then (if r.Ok? then r.value.createdAt == ReadBack(r.value.delegation.createdAt) else IsOutage(r.error))
                else r.Err? && (r.error == MISMATCH || IsOutage(r.error))
      ensures calm && old(open) == map[] ==> Answers(old(db), request, ids, Now(), r)
    {
      hide KeyOf, Given, RequestOk, Reachable, Served;
      Start(tx, request);
      var s := Statements(tx, ids, calm);
      if s.Failed? {
        GiveUp(tx);
        return Err(s.error);
      }
      var result := AnswerOf(open[tx]);
      s := Try(Commit(tx), calm);
      if s.Failed? {
        GiveUp(tx);
        return Err(s.error);
      }
      var heard: bool := *;
      r := if heard || calm then Ok(result) else Err(TRANSACTION_UNAVAILABLE);
    }

    /** While it is calm and no other transaction is open, a call does and answers exactly what its request is
        served. */
    method Call(tx: nat, request: Request, ids: Ids, calm: bool) returns (r: Result<Answer>)
      requires Reachable() && tx !in open && RequestOk(setup, request)
      modifies this
      ensures Reachable() && old(history) <= history && tx !in open
      ensures Answered(old(db), db, history[|old(history)|..], tx, request, r)
      ensures calm && old(open) == map[] ==> Answers(old(db), request, ids, Now(), r)
    {
      hide KeyOf, Given, RequestOk, Answered, OnlyOthers, Uncommitted, Runs.Valid, Runs.Run, Answers;
      Others(tx, calm);
      ghost var started := history;
      var up: bool := *;
      if up || calm { r := Within(tx, request, ids, calm); } else { r := Err(TRANSACTION_UNAVAILABLE); }
      AnswerHolds(setup, old(history), started, history, tx, request, r);
    }

    /** Create: a malformed command or key is refused before anything is opened. */
    method Create(
        tx: nat, principal: string, key: string, namespaceId: Uuid, childPrefix: string, publisherId: Uuid,
        now: Nanos, ids: Ids, calm: bool)
        returns (r: Result<Answer>)
      requires Reachable() && tx !in open && StoredTime(now) != ZERO_TIME
      modifies this
      ensures Reachable() && tx !in open
      ensures var command := Publication.Create(namespaceId, childPrefix, publisherId);
              var request := Request(principal, key, setup.hash(command), command, now);
              if !(ValidUuid(namespaceId) && ValidPath(childPrefix) && ValidUuid(publisherId)) then
                r == Err(INVALID_REQUEST) && Now() == old(Now())
              else if !ValidOwnership(KeyOf(request)) then r == Err(INVALID_KEY) && Now() == old(Now())
              else
                && old(history) <= history && Answered(old(db), db, history[|old(history)|..], tx, request, r)
                && (calm && old(open) == map[] ==> Answers(old(db), request, ids, Now(), r))
    {
      hide Answered, Answers, ValidOwnership, ValidUuid, ValidPath;
      if !ValidUuid(namespaceId) || !ValidPath(childPrefix) { return Err(INVALID_REQUEST); }
      if !ValidUuid(publisherId) { return Err(INVALID_REQUEST); }
      var command := Publication.Create(namespaceId, childPrefix, publisherId);
      var request := Request(principal, key, setup.hash(command), command, now);
      if !ValidOwnership(KeyOf(request)) { return Err(INVALID_KEY); }
      r := Call(tx, request, ids, calm);
    }

    /** Revoke: likewise. */
    method Revoke(
        tx: nat, principal: string, key: string, id: Uuid, expectedVersion: int, reason: string, explanation: string,
        now: Nanos, ids: Ids, calm: bool)
        returns (r: Result<Answer>)
      requires Reachable() && tx !in open && StoredTime(now) != ZERO_TIME
      modifies this
      ensures Reachable() && tx !in open
      ensures var command := Publication.Revoke(id, expectedVersion, reason, explanation);
              var request := Request(principal, key, setup.hash(command), command, now);
              if !(ValidUuid(id) && expectedVersion >= 1 && ReasonCode(reason)) then
                r == Err(INVALID_REVOCATION) && Now() == old(Now())
              else if !ValidOwnership(KeyOf(request)) then r == Err(INVALID_KEY) && Now() == old(Now())
              else
                && old(history) <= history && Answered(old(db), db, history[|old(history)|..], tx, request, r)
                && (calm && old(open) == map[] ==> Answers(old(db), request, ids, Now(), r))
    {
      hide Answered, Answers, ValidOwnership, ValidUuid, ReasonCode;
      if !ValidUuid(id) || expectedVersion < 1 || !ReasonCode(reason) { return Err(INVALID_REVOCATION); }
      var command := Publication.Revoke(id, expectedVersion, reason, explanation);
      var request := Request(principal, key, setup.hash(command), command, now);
      if !ValidOwnership(KeyOf(request)) { return Err(INVALID_KEY); }
      r := Call(tx, request, ids, calm);
    }
  }

  ghost predicate Answers(before: Db, request: Request, ids: Ids, after: State, r: Result<Answer>) {
    var served := Served(before, request, ids);
    && after.open == map[]
    && (if served.Ok? then r == Ok(served.value.1) && after.db == served.value.0
        else r == Err(served.error) && after.db == before)
  }

  /** The effect of one call that nothing disturbs. */
  ghost predicate Undisturbed(before: State, step: Step, after: State, r: Status)
    requires !Opens(step) && !step.Abort? && step.tx in before.open
  {
    var t := before.open[step.tx];
    if step.Commit? then
      t.phase.Finished? || t.phase.Answering? ==>
        r.Done? && after.db == Committed(before.db, t) && after.open == before.open - {step.tx}
    else
      var next := Advance(before.db, step, t);
      && after.db == before.db && Agrees(r, next)
      && after.open == if next.Ok? then before.open[step.tx := next.value] else before.open
  }

  /** The call, made now, waits for another transaction's lock. */
  predicate Waits(s: State, step: Step)
    requires step.tx in s.open
  {
    Ready(s.db, step, s.open[step.tx]) && !LocksFree(s, step, s.open[step.tx])
  }

  /** The delegation that a revocation waited for has been revoked: its row is looked at again as it has become, joined
      with the state records as they were, and is not found. */
  predicate Overtaken(db: Db, step: Step, t: Tx) {
    && step.Mutate? && t.phase.Owning? && t.request.command.Revoke? && t.request.command.delegationId in db.delegations
    && db.delegations[t.request.command.delegationId].state.Revoked?
  }

  /** Why a call fails: the tables or the identifier source refuse it, or the database does not answer in time. */
  predicate Refuses(s: State, step: Step, outage: Outage, waited: bool, e: Error)
    requires !Opens(step) && step.tx in s.open
  {
    var t := s.open[step.tx];
    if !Unsent(step, t) && (outage.Opening? || outage.Deciding?) then e == SilenceAt(step, t, outage)
    else if waited && Overtaken(s.db, step, t) then e == DELEGATION_NOT_FOUND
    else if !Ready(s.db, step, t) then e == Refusal(s.db, step, t)
    else (!outage.Nowhere? || !LocksFree(s, step, t)) && e == SilenceAt(step, t, outage)
  }

  /** What a failure may and may not be: an established request is acquired unless there is an outage, a found one
      always replays, and a finished one always commits. */
  ghost predicate FailsRightly(before: Db, t: Tx, step: Step, r: Status, found: bool) {
    && (r.Failed? && step.Commit? && (t.phase.Finished? || t.phase.Answering?) ==> IsOutage(r.error))
    && (r.Failed? && step.Replay? && t.phase.Found? ==> IsOutage(r.error))
    && (step.Acquire? && t.phase.Started? && KeyOf(t.request) in before.records ==>
          if before.records[KeyOf(t.request)].digest == t.request.digest
          then (if r.Done? then found else IsOutage(r.error))
          else r.Failed? && (r.error == MISMATCH || IsOutage(r.error)))
  }

  lemma CallOutcome(before: Db, s: State, step: Step, after: State, r: Status, outage: Outage, waited: bool)
    requires Inv(s) && Runs.Extends(before, s.db) && !Opens(step) && !step.Abort? && step.tx in s.open
    requires if r.Done? then Enabled(s, step) && after == Apply(s, step)
             else after == s && Refuses(s, step, outage, waited, r.error)
    ensures var t := s.open[step.tx];
            && FailsRightly(before, t, step, r, step.tx in after.open && after.open[step.tx].phase.Found?)
            && (step.tx in after.open <==> !(r.Done? && step.Commit?))
            && (step.tx in after.open ==> after.open[step.tx].request == t.request)
            && (r.Done? && !step.Commit? ==> Reached(step, after.open[step.tx].phase))
            && (r.Done? && step.Commit? ==>
                  (t.phase.Finished? || t.phase.Answering?) && Given(after.db, t.request, AnswerOf(t)))
  {
    hide KeyFree, RowFree, AllocatorFree, Replayed, Mutated, Established, ValidUuid, OutcomeOf;
    hide Runs.Establishes, Merged, KeyOf, Given, AnswerOf, Inv;
    if r.Done? && step.Commit? { CommitIsAnswer(s, step); }
    if r.Failed? && s.open[step.tx].phase.Found? { Runs.FoundCanReplay(s, step.tx); }
  }

  lemma CallUndisturbed(s: State, step: Step, after: State, r: Status, waited: bool)
    requires !Opens(step) && !step.Abort? && step.tx in s.open && Alone(s.open, step.tx)
    requires if r.Done? then Enabled(s, step) && after == Apply(s, step)
             else after == s && Refuses(s, step, Nowhere, waited, r.error)
    requires waited == Waits(s, step)
    ensures Undisturbed(s, step, after, r)
  {
    hide Merged, NextPhase;
    if Ready(s.db, step, s.open[step.tx]) { AloneIsFree(s, step); }
  }

  lemma AloneIsFree(s: State, step: Step)
    requires !Opens(step) && step.tx in s.open && Ready(s.db, step, s.open[step.tx]) && Alone(s.open, step.tx)
    ensures LocksFree(s, step, s.open[step.tx])
  {
    hide Ready;
  }

  /** The statements of a change, one after the other. */
  function Changes(db: Db, t: Tx, tx: nat, ids: Ids): Result<Tx> {
    var placed := if t.request.command.Create? then Placed(db, t, tx, ids) else Ok(t);
    if placed.Err? then placed else Writes(db, placed.value, tx, ids)
  }

  function Writes(db: Db, t: Tx, tx: nat, ids: Ids): Result<Tx> {
    var mutated := Advance(db, Mutate(tx), t);
    if mutated.Err? then mutated
    else
      var numbered := Advance(db, Allocate(tx), mutated.value);
      if numbered.Err? then numbered
      else
        var recorded := Advance(db, RecordEvent(tx, ids.event), numbered.value);
        if recorded.Err? then recorded else Advance(db, Complete(tx), recorded.value)
  }

  /** A creation's statements up to its insert. */
  function Placed(db: Db, t: Tx, tx: nat, ids: Ids): Result<Tx> {
    var locked := Advance(db, LockNamespace(tx, ids.delegation), t);
    if locked.Err? then locked else Advance(db, LockPrefix(tx), locked.value)
  }

  /** From the acquisition on, the statements come to what the request is served. */
  lemma AcquiredUndisturbed(db: Db, t: Tx, tx: nat, ids: Ids)
    requires t.phase.Started?
    ensures var acquired := Advance(db, Acquire(tx, ids.record), t);
            var served := Served(db, t.request, ids);
            && (acquired.Err? ==> served == Err(acquired.error))
            && (acquired.Ok? && acquired.value.phase.Found? ==>
                  SameService(db, Advance(db, Replay(tx), acquired.value), served))
            && (acquired.Ok? && !acquired.value.phase.Found? ==>
                  SameService(db, Changes(db, acquired.value, tx, ids), served))
  {
    hide Replayed, Decided, Placed, Writes, Published, ValidUuid, IdTaken, KeyOf;
    var acquired := Advance(db, Acquire(tx, ids.record), t);
    if acquired.Ok? && !acquired.value.phase.Found? { OwningUndisturbed(db, acquired.value, tx, ids); }
  }

  lemma OwningUndisturbed(db: Db, t: Tx, tx: nat, ids: Ids)
    requires t.phase == Owning(NewRecord(ids.record, t.request.digest, t.request.now))
    ensures SameService(
              db, Changes(db, t, tx, ids), Published(db, t.request, ids, Decided(db, t.request, ids.delegation)))
  {
    hide Drafted, Withdrawn, Writes, Guards.InsertRefusal, SameService;
    if t.request.command.Create? {
      var placed := Placed(db, t, tx, ids);
      if placed.Ok? { WritesUndisturbed(db, placed.value, tx, ids); } else { FailsAlike(db, placed.error); }
    } else {
      WritesUndisturbed(db, t, tx, ids);
    }
  }

  lemma FailsAlike(db: Db, e: Error)
    ensures SameService(db, Err(e), Err(e))
  {
  }

  lemma WritesUndisturbed(db: Db, t: Tx, tx: nat, ids: Ids)
    requires AtWrite(t) && t.phase.own == NewRecord(ids.record, t.request.digest, t.request.now)
    ensures SameService(db, Writes(db, t, tx, ids), Published(db, t.request, ids, Mutated(db, t)))
  {
    hide Mutated, ValidUuid, IdTaken, Merged;
  }

  /** The transaction is left ready to commit what is served, or fails as it does. */
  ghost predicate SameService(db: Db, after: Result<Tx>, served: Result<(Db, Answer)>) {
    if after.Err? then served == Err(after.error)
    else
      && (after.value.phase.Finished? || after.value.phase.Answering?)
      && served == Ok((Committed(db, after.value), AnswerOf(after.value)))
  }

  /** A retry under an answered key: with the same digest it gets the same delegation, unless there is an outage;
      with another digest it is refused; and in either case no further message is written for the key. The retry gives
      the creation time as it is stored, which is what the first answer gave exactly if that was a whole microsecond. */
  lemma RetriesAgree(first: Db, answered: Db, later: Db, after: Db, steps: seq<Step>, steps': seq<Step>,
                     tx: nat, tx': nat, request: Request, request': Request,
                     r: Result<Answer>, r': Result<Answer>)
    requires Laws(first.setup) && Answered(first, answered, steps, tx, request, r) && r.Ok?
    requires Runs.Extends(answered, later)
    requires Answered(later, after, steps', tx', request', r') && SameCall(request', request)
    ensures request'.digest == request.digest ==>
              if r'.Err? then IsOutage(r'.error)
              else
                && r'.value.delegation.id == r.value.delegation.id
                && r'.value.createdAt == ReadBack(StoredTime(r.value.createdAt))
                && (r'.value.createdAt == r.value.createdAt <==> r.value.createdAt % 1000 == 0)
    ensures request'.digest != request.digest ==> r'.Err? && (r'.error == MISMATCH || IsOutage(r'.error))
    ensures KeyOf(request) !in after.origins[|later.origins|..]
  {
    hide KeyOf, SameCall, Runs.Establishes, Runs.Extends;
    Runs.KeysTellCallsApart(request', request);
    assert answered.setup == first.setup by { SetupIsKept(first, answered); }
    if request'.digest == request.digest && r'.Ok? {
      assert KeyOf(request') in later.records && later.records[KeyOf(request')].digest == request'.digest by {
        DigestIsKept(answered, later, request, r.value.delegation.id);
      }
      Runs.EstablishedOnce(answered, later, request, request', r.value.delegation.id, r'.value.delegation.id);
      CreationTimeIsKept(answered, later, after, r.value.delegation, r'.value.delegation);
    } else {
      DigestIsKept(answered, later, request, r.value.delegation.id);
    }
  }

  lemma CreationTimeIsKept(answered: Db, later: Db, after: Db, d: Delegation, d': Delegation)
    requires Runs.Extends(answered, later) && Runs.Extends(later, after)
    requires Shows(answered, d) && Shows(after, d') && d.id == d'.id
    ensures d.createdAt == d'.createdAt
  {
  }

  lemma SetupIsKept(before: Db, after: Db)
    requires Runs.Extends(before, after)
    ensures after.setup == before.setup
  {
  }

  lemma DigestIsKept(before: Db, after: Db, request: Request, id: Uuid)
    requires Runs.Establishes(before, request, id) && Runs.Extends(before, after)
    ensures KeyOf(request) in after.records && after.records[KeyOf(request)].digest == request.digest
  {
  }

  /** Nothing has happened since but other transactions' steps. */
  ghost predicate OnlyOthers(history: seq<Step>, since: nat, tx: nat) {
    forall i | since <= i < |history| :: history[i].tx != tx
  }

  /** The transaction has not committed since. */
  ghost predicate Uncommitted(history: seq<Step>, since: nat, tx: nat) {
    forall i | since <= i < |history| :: history[i] != Commit(tx)
  }

  lemma AnswerHolds(
      setup: Setup, before: seq<Step>, started: seq<Step>, after: seq<Step>, tx: nat, request: Request,
      r: Result<Answer>)
    requires Laws(setup) && Runs.Valid(Init(setup), before) && Runs.Valid(Init(setup), started)
             && Runs.Valid(Init(setup), after)
    requires before <= started <= after && OnlyOthers(started, |before|, tx)
    requires r.Ok? ==> |after| > |started| && after[|after| - 1] == Commit(tx)
    requires r.Ok? ==> Given(Runs.Run(Init(setup), after).db, request, r.value)
    requires r.Err? ==> r.error == TRANSACTION_UNAVAILABLE || Uncommitted(after, |started|, tx)
    requires var records, key := Runs.Run(Init(setup), started).db.records, KeyOf(request);
             key in records ==>
               if records[key].digest == request.digest
               then (if r.Ok? then r.value.createdAt == ReadBack(r.value.delegation.createdAt) else IsOutage(r.error))
               else r.Err? && (r.error == MISMATCH || IsOutage(r.error))
    ensures Answered(
              Runs.Run(Init(setup), before).db, Runs.Run(Init(setup), after).db, after[|before|..], tx, request, r)
  {
    hide KeyOf, IsOutage, OutcomeOf, Runs.Valid, Runs.Run, Laws, Given, Answered, Runs.Extends;
    ReachableExtends(setup, before, started);
    ReachableExtends(setup, before, after);
    var steps := after[|before|..];
    if r.Ok? { assert steps[|steps| - 1] == Commit(tx); }
    assert r.Err? && Commit(tx) in steps ==> r.error == TRANSACTION_UNAVAILABLE;
    var first, middle, last := Runs.Run(Init(setup), before).db, Runs.Run(Init(setup), started).db,
                               Runs.Run(Init(setup), after).db;
    var key := KeyOf(request);
    if key in first.records { OriginIsOld(setup, before, after, key); }
    AnswerFollows(first, middle, last, steps, tx, request, r);
  }

  lemma AnswerFollows(
      before: Db, started: Db, after: Db, steps: seq<Step>, tx: nat, request: Request, r: Result<Answer>)
    requires Runs.Extends(before, started) && Runs.Extends(before, after)
    requires r.Ok? ==> Commit(tx) in steps && Given(after, request, r.value)
    requires r.Err? && Commit(tx) in steps ==> r.error == TRANSACTION_UNAVAILABLE
    requires var key := KeyOf(request);
             && (key in started.records ==>
                   if started.records[key].digest == request.digest
                   then (if r.Ok? then r.value.createdAt == ReadBack(r.value.delegation.createdAt)
                         else IsOutage(r.error))
                   else r.Err? && (r.error == MISMATCH || IsOutage(r.error)))
             && (key in before.records ==>
                   |before.origins| <= |after.origins| && key !in after.origins[|before.origins|..])
    ensures Answered(before, after, steps, tx, request, r)
  {
    hide KeyOf, IsOutage, OutcomeOf;
  }

  /** No later message belongs to a key that was established before. */
  lemma OriginIsOld(setup: Setup, before: seq<Step>, after: seq<Step>, key: Key)
    requires Laws(setup) && Runs.Valid(Init(setup), before) && Runs.Valid(Init(setup), after) && before <= after
    requires key in Runs.Run(Init(setup), before).db.records
    ensures |Runs.Run(Init(setup), before).db.origins| <= |Runs.Run(Init(setup), after).db.origins|
    ensures key !in Runs.Run(Init(setup), after).db.origins[|Runs.Run(Init(setup), before).db.origins|..]
  {
    hide OriginOk;
    ReachableExtends(setup, before, after);
    Runs.RecordsAndEventsMatch(setup, before, key);
    Runs.RecordsAndEventsMatch(setup, after, key);
  }

  lemma ReachableExtends(setup: Setup, before: seq<Step>, after: seq<Step>)
    requires Laws(setup) && Runs.Valid(Init(setup), before) && Runs.Valid(Init(setup), after) && before <= after
    ensures Runs.Extends(Runs.Run(Init(setup), before).db, Runs.Run(Init(setup), after).db)
  {
    hide Runs.Extends;
    Runs.InitInv(setup);
    Runs.RunExtends(Init(setup), after, |before|, |after|);
    assert after[..|before|] == before && after[..|after|] == after;
  }

  lemma CommitIsAnswer(s: State, step: Step)
    requires Inv(s) && Enabled(s, step) && step.Commit?
    ensures var t := s.open[step.tx];
            (t.phase.Finished? || t.phase.Answering?) && Given(Apply(s, step).db, t.request, AnswerOf(t))
  {
    hide Runs.Establishes, Shows, Asked, DbOk, Merged, ValidPath, ReasonCode;
    Runs.CommitEstablishes(s, step);
    assert TxOk(s.db, s.open[step.tx]);
  }

  lemma OthersDoNotTouch(s: State, step: Step, tx: nat)
    requires Enabled(s, step) && step.tx != tx
    ensures var u := Apply(s, step);
            && (tx in u.open <==> tx in s.open) && (tx in s.open ==> u.open[tx] == s.open[tx])
  {
    hide Ready, LocksFree, NextPhase, Merged;
  }
}
