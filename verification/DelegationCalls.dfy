/** Which calls of the delegation services are one call, and what a call does, field by field: over every run a request
    is answered, refused or held up for its key by its own call alone, a new request is served exactly under conditions
    read off the tables, and what is committed says what was asked. */
module DelegationCalls {
  import opened Shared
  import opened Uuids
  import opened UuidText
  import opened Idempotency
  import opened Namespaces
  import opened DelegationEvents
  import opened Publication
  import Guards = NamespaceGuards
  import Ownership = NamespaceOwnership
  import PublisherStates
  import NamespaceRepository
  import Runs = PublicationRuns
  import Service = DelegationService

  /** No committed call is the request's. */
  ghost predicate NewCall(db: Db, request: Request) {
    forall i | 0 <= i < |db.requests| :: !SameCall(db.requests[i], request)
  }

  ghost function Tables(setup: Setup, steps: seq<Step>): Db
    requires Runs.Valid(Init(setup), steps)
  {
    Runs.Run(Init(setup), steps).db
  }

  lemma TablesAreOk(setup: Setup, steps: seq<Step>)
    requires Laws(setup) && Runs.Valid(Init(setup), steps)
    ensures DbOk(Tables(setup, steps)) && Tables(setup, steps).setup == setup
  {
    hide DbOk, TxOk;
    Runs.InitInv(setup);
    Runs.RunKeepsInv(Init(setup), steps);
    Runs.SetupStays(setup, steps, |steps|);
    assert steps[..|steps|] == steps;
  }

  /** The records are those of the committed calls: a call has one exactly if it has been committed. */
  lemma RecordsAreOfCalls(db: Db, request: Request)
    requires DbOk(db)
    ensures |db.requests| == |db.events|
    ensures KeyOf(request) in db.records <==> !NewCall(db, request)
    ensures forall i | 0 <= i < |db.requests| && SameCall(db.requests[i], request) ::
              && KeyOf(request) in db.records
              && db.records[KeyOf(request)].digest == db.setup.hash(db.requests[i].command)
              && db.records[KeyOf(request)].result
                   == Some(OutcomeOf(db.setup, db.requests[i].command, db.events[i].subject.id))
              && db.events[i].subject.id in db.delegations && ValidUuid(db.events[i].subject.id)
  {
    hide LogOk, Laws, Ownership.Inv, RequestOk, Asked, Fold, OutcomeOf, ValidUuid;
    Runs.EventsHaveOrigins(db, KeyOf(request));
    forall i | 0 <= i < |db.requests| && SameCall(db.requests[i], request)
      ensures db.origins[i] == KeyOf(request) && ValidUuid(db.events[i].subject.id)
    {
      assert OriginAt(db, i);
      SubjectIsValid(db, i);
      Runs.KeysTellCallsApart(db.requests[i], request);
    }
    if KeyOf(request) in db.records {
      var i :| 0 <= i < |db.events| && db.origins[i] == KeyOf(request);
      assert OriginAt(db, i);
      Runs.KeysTellCallsApart(db.requests[i], request);
      assert SameCall(db.requests[i], request);
    }
  }

  lemma SubjectIsValid(db: Db, i: nat)
    requires LogOk(db) && i < |db.events|
    ensures ValidDelegation(db.events[i].subject) && ValidUuid(db.events[i].subject.id)
  {
    hide ValidUuid, ValidPath, Consistent;
    Runs.EventIsPossible(db.events, i);
  }

  // ---------------------------------------------------------------- acquiring a key

  /** In every reachable state, what a request's acquisition finds is decided by its own call: a committed one with
      the same command answers it, one with another command has it refused, and if there is none it is new. */
  lemma OwnCallDecides(setup: Setup, steps: seq<Step>, tx: nat, recordId: Uuid, i: nat)
    requires Laws(setup) && Runs.Valid(Init(setup), steps) && ValidUuid(recordId)
    requires tx in Runs.Run(Init(setup), steps).open && Runs.Run(Init(setup), steps).open[tx].phase.Started?
    ensures var db, t := Tables(setup, steps), Runs.Run(Init(setup), steps).open[tx];
            var acquired := Service.Advance(db, Acquire(tx, recordId), t);
            && (NewCall(db, t.request) && (forall k | k in db.records :: db.records[k].id != recordId) ==>
                  acquired.Ok? && acquired.value.phase.Owning?)
            && (i < |db.requests| && SameCall(db.requests[i], t.request) ==>
                  if db.requests[i].command == t.request.command then acquired.Ok? && acquired.value.phase.Found?
                  else acquired == Err(Error(Conflict, "idempotency.request_mismatch")))
  {
    hide DbOk, TxOk, Enabled, Apply, ValidUuid, OutcomeOf, KeyOf, SameCall, RequestOk, NewCall;
    TablesAreOk(setup, steps);
    var db, t := Tables(setup, steps), Runs.Run(Init(setup), steps).open[tx];
    RecordsAreOfCalls(db, t.request);
    OpenRequestIsOk(setup, steps, tx);
  }

  lemma OpenRequestIsOk(setup: Setup, steps: seq<Step>, tx: nat)
    requires Laws(setup) && Runs.Valid(Init(setup), steps) && tx in Runs.Run(Init(setup), steps).open
    ensures var request := Runs.Run(Init(setup), steps).open[tx].request;
            RequestOk(setup, request) && request.digest == setup.hash(request.command)
    ensures TxOk(Tables(setup, steps), Runs.Run(Init(setup), steps).open[tx])
  {
    hide DbOk, AnswerOk, KeyOk, RowOk, EventOk, Enabled, Apply, KeyOf;
    Runs.InitInv(setup);
    Runs.RunKeepsInv(Init(setup), steps);
    TablesAreOk(setup, steps);
    assert TxOk(Tables(setup, steps), Runs.Run(Init(setup), steps).open[tx]);
  }

  /** The transaction holds what its call began with an acquisition that found nothing. */
  predicate Owns(t: Tx) {
    !t.phase.Started? && !t.phase.Found? && !t.phase.Answering?
  }

  /** In every reachable state, an acquisition under a fresh record identifier waits exactly for another open
      transaction of its own call that has acquired the key. */
  lemma OnlyItsOwnCallHoldsItUp(setup: Setup, steps: seq<Step>, tx: nat, recordId: Uuid)
    requires Runs.Valid(Init(setup), steps) && tx in Runs.Run(Init(setup), steps).open
    requires var s := Runs.Run(Init(setup), steps);
             && Ready(s.db, Acquire(tx, recordId), s.open[tx])
             && forall o | o in s.open && Owns(s.open[o]) :: s.open[o].phase.own.id != recordId
    ensures var s := Runs.Run(Init(setup), steps);
            LocksFree(s, Acquire(tx, recordId), s.open[tx]) <==>
              forall o | o in s.open && o != tx && Owns(s.open[o]) :: !SameCall(s.open[o].request, s.open[tx].request)
  {
    hide Runs.Valid, Runs.Run, Ready, SameCall, KeyOf;
    var s := Runs.Run(Init(setup), steps);
    forall o | o in s.open
      ensures KeyOf(s.open[o].request) == KeyOf(s.open[tx].request) <==> SameCall(s.open[o].request, s.open[tx].request)
    {
      Runs.KeysTellCallsApart(s.open[o].request, s.open[tx].request);
    }
  }

  /** How far a transaction is with its row: it has the namespace's lock, then the prefix's, then the row, then the
      allocator, and keeps them until it ends. */
  function Reach(t: Tx): nat {
    match t.phase
    case Started => 0
    case Found(_) => 0
    case Answering(_) => 0
    case Owning(_) => 0
    case Nesting(_, _) => 1
    case Naming(_, _) => 2
    case Changed(_, _, _) => 3
    case Allocated(_, _, _, _) => 4
    case Recorded(_, _, _, _) => 4
    case Finished(_, _, _, _) => 4
  }

  lemma WriteIsNamed(db: Db, t: Tx)
    requires AtWrite(t) && Mutated(db, t).Ok? && forall id | id in db.delegations :: db.delegations[id].id == id
    ensures Mutated(db, t).value.id
         == if t.request.command.Create? then t.phase.draft.id else t.request.command.delegationId
  {
    hide Guards.InsertRefusal, RevocationText;
  }

  predicate Creates(t: Tx) {
    t.request.command.Create?
  }

  /** What the calls after the acquisition wait for: a creation for other creations in its namespace and then under its
      prefix, and an allocation for whoever has allocated. */
  lemma WaitsAfterAcquisition(s: State, step: Step)
    requires !Opens(step) && step.tx in s.open && Ready(s.db, step, s.open[step.tx])
    ensures var r := s.open[step.tx].request;
            && (step.LockNamespace? ==>
                  (LocksFree(s, step, s.open[step.tx]) <==>
                     forall o | o in s.open && o != step.tx && Creates(s.open[o]) && Reach(s.open[o]) >= 1 ::
                       s.open[o].request.command.namespaceId != r.command.namespaceId))
            && (step.LockPrefix? ==>
                  (LocksFree(s, step, s.open[step.tx]) <==>
                     forall o | o in s.open && o != step.tx && Creates(s.open[o]) && Reach(s.open[o]) >= 2 ::
                       s.open[o].request.command.childPrefix != r.command.childPrefix))
            && (step.Allocate? ==>
                  (LocksFree(s, step, s.open[step.tx]) <==>
                     forall o | o in s.open && o != step.tx :: Reach(s.open[o]) < 4))
            && (!step.Acquire? && !step.LockNamespace? && !step.LockPrefix? && !step.Mutate? && !step.Allocate? ==>
                  LocksFree(s, step, s.open[step.tx]))
  {
    hide Mutated, Drafted, Acquired, Replayed, Established, KeyOf, ValidUuid, KeyFree;
  }

  /** A write waits for others that have written the same delegation. */
  lemma WriteWaits(s: State, tx: nat)
    requires tx in s.open && AtWrite(s.open[tx]) && Mutated(s.db, s.open[tx]).Ok?
    requires forall id | id in s.db.delegations :: s.db.delegations[id].id == id
    ensures var command := s.open[tx].request.command;
            var written := if command.Create? then s.open[tx].phase.draft.id else command.delegationId;
            LocksFree(s, Mutate(tx), s.open[tx]) <==>
              forall o | o in s.open && o != tx && Reach(s.open[o]) >= 3 :: s.open[o].phase.result.id != written
  {
    hide Mutated;
    WriteIsNamed(s.db, s.open[tx]);
  }

  // ---------------------------------------------------------------- what a new call is served

  /** The identifiers a call draws are new, and there is room for its message. */
  ghost predicate Fresh(db: Db, ids: Service.Ids) {
    && ValidUuid(ids.record) && (forall k | k in db.records :: db.records[k].id != ids.record)
    && ValidUuid(ids.delegation) && ids.delegation !in db.delegations
    && ValidUuid(ids.event) && (forall i | 0 <= i < |db.events| :: db.events[i].id != ids.event)
    && |db.events| + 1 < MAX_SEQUENCE
  }

  /** Why a new creation is refused, looked at in this order: its namespace is unknown, its prefix does not lie below
      the namespace's path or is a namespace's own, it neither contains nor lies in some active delegation of the
      namespace, its recipient is not verified, another namespace's delegation has the prefix, or its time has no text
      form. */
  ghost function CreationRefusal(t: Ownership.Tables, c: Command, now: Nanos): Option<Error>
    requires c.Create?
  {
    if c.namespaceId !in t.namespaces then Some(Error(NotFound, "namespace.not_found"))
    else if !(t.namespaces[c.namespaceId].path + "/" <= c.childPrefix) then
      Some(Error(Invalid, "namespace.invalid_delegation_request"))
    else if exists id :: id in t.namespaces && t.namespaces[id].path == c.childPrefix then
      Some(Error(Conflict, "namespace.delegation_conflict"))
    else if exists id ::
      && id in t.delegations && t.delegations[id].state.Active? && t.delegations[id].namespaceId == c.namespaceId
      && !(t.delegations[id].childPrefix + "/" <= c.childPrefix)
      && !(c.childPrefix + "/" <= t.delegations[id].childPrefix)
    then Some(Error(Conflict, "namespace.invalid_delegation"))
    else if c.publisherId !in t.publishers || !t.publishers[c.publisherId].Verified? then
      Some(Error(Conflict, "namespace.invalid_delegation"))
    else if exists id ::
      id in t.delegations && t.delegations[id].state.Active? && t.delegations[id].childPrefix == c.childPrefix
    then Some(Error(Conflict, "namespace.delegation_conflict"))
    else if !Representable(now) then Some(Error(Internal, "namespace.event_unavailable"))
    else None
  }

  /** The tables after a new creation, and the row it adds. */
  function CreatedRow(request: Request, id: Uuid): Delegation
    requires request.command.Create?
  {
    var c := request.command;
    Delegation(id, c.namespaceId, c.publisherId, c.childPrefix, DelegationState.Active, 1, StoredTime(request.now))
  }

  function WithCreation(db: Db, request: Request, ids: Service.Ids): Db
    requires request.command.Create?
  {
    var row := CreatedRow(request, ids.delegation);
    WithCall(db, request, Key(request.principal, "namespace.delegate", request.key), 201, ids, row,
             Fact("namespace.delegated", ids.delegation, []), Delegated)
  }

  /** The tables with a call's four writes: its completed record, its delegation's row, its audit fact and its
      message. */
  function WithCall(
      db: Db, request: Request, key: Key, status: int, ids: Service.Ids, row: Delegation, fact: Fact, change: Change)
    : Db
  {
    var at := StoredTime(request.now);
    var outcome := Outcome(status, Some(("namespace_delegation", db.setup.text(row.id))));
    var record := Record(ids.record, request.digest, Some(outcome), at, Some(at), at + 86_400_000_000);
    Db(db.setup, db.publishers, db.namespaces, db.records[key := record], db.delegations[row.id := row],
       |db.events| + 2, db.events + [Event(ids.event, |db.events| + 1, row, change, request.now)], db.audit + [fact],
       db.origins + [key], db.requests + [request])
  }

  lemma CreationIsDecided(db: Db, request: Request, newId: Uuid)
    requires DbOk(db) && RequestOk(db.setup, request) && request.command.Create?
    requires ValidUuid(newId) && newId !in db.delegations
    ensures var refusal := CreationRefusal(TablesOf(db), request.command, 0);
            Service.Decided(db, request, newId) ==
            if refusal.Some? then Err(refusal.value) else Ok(CreatedRow(request, newId))
  {
    hide LogOk, OriginsOk, Laws, ValidPath, ValidUuid, ValidOwnership;
    var t, c := TablesOf(db), request.command;
    if c.namespaceId in t.namespaces {
      assert Ownership.RootOk(t, c.namespaceId);
      Service.DraftedExactly(db, request, newId);
      var d := Drafted(db, request, newId);
      if d.Ok? {
        GuardsSay(t, d.value);
      }
    }
  }

  /** The insert guards, on the tables. */
  lemma GuardsSay(t: Ownership.Tables, d: Delegation)
    requires Ownership.Inv(t) && ValidDelegation(d) && d.id !in t.delegations && d.namespaceId in t.namespaces
    ensures Guards.BelowItsRoot(t, d) <==> t.namespaces[d.namespaceId].path + "/" <= d.childPrefix
    ensures Guards.AmbiguousSibling(t, d) <==>
              exists id ::
                && id in t.delegations && t.delegations[id].state.Active?
                && t.delegations[id].namespaceId == d.namespaceId
                && !(t.delegations[id].childPrefix + "/" <= d.childPrefix)
                && !(d.childPrefix + "/" <= t.delegations[id].childPrefix)
  {
    hide ValidPath, ValidUuid, Ownership.Inv;
    Guards.GuardMeansNested(t, d);
  }

  /** Over every run: a creation that is nobody's call yet, with fresh identifiers, is served exactly if nothing in the
      tables stands against it, and otherwise refused for the first such thing; and being served writes and answers
      exactly what it says. */
  lemma NewCreationIsServedExactly(setup: Setup, steps: seq<Step>, request: Request, ids: Service.Ids)
    requires Laws(setup) && Runs.Valid(Init(setup), steps) && RequestOk(setup, request) && request.command.Create?
    requires NewCall(Tables(setup, steps), request) && Fresh(Tables(setup, steps), ids)
    ensures var db := Tables(setup, steps);
            var refusal := CreationRefusal(TablesOf(db), request.command, request.now);
            Service.Served(db, request, ids) ==
            if refusal.Some? then Err(refusal.value)
            else Ok((WithCreation(db, request, ids), Service.Answer(CreatedRow(request, ids.delegation), request.now)))
  {
    hide Runs.Valid, Runs.Run, Laws, ValidUuid, Ownership.Inv, Consistent, Fold, Service.Decided, RequestOk;
    TablesAreOk(setup, steps);
    var db := Tables(setup, steps);
    RecordsAreOfCalls(db, request);
    CreationIsDecided(db, request, ids.delegation);
  }

  /** Why a new revocation is refused, in this order: its delegation is unknown, or of another version than expected, or
      revoked or younger than the request, or its explanation is too long or has control characters, or its time has no
      text form. */
  ghost function RevocationRefusal(db: Db, c: Command, now: Nanos): Option<Error>
    requires c.Revoke?
  {
    if c.delegationId !in db.delegations then Some(Error(NotFound, "namespace.delegation_not_found"))
    else
      var row := db.delegations[c.delegationId];
      if row.version != c.expectedVersion then Some(Error(Conflict, "namespace.stale_delegation_version"))
      else if row.state.Revoked? || now < row.createdAt * 1000 || |c.explanation| > 4096
              || exists i :: 0 <= i < |c.explanation| && IsControl(c.explanation[i])
      then Some(Error(Conflict, "namespace.invalid_delegation_transition"))
      else if !Representable(now) then Some(Error(Internal, "namespace.event_unavailable"))
      else None
  }

  function RevokedRow(db: Db, c: Command): Delegation
    requires c.Revoke? && c.delegationId in db.delegations
  {
    db.delegations[c.delegationId].(state := DelegationState.Revoked, version := 2)
  }

  function WithRevocation(db: Db, request: Request, ids: Service.Ids): Db
    requires request.command.Revoke? && request.command.delegationId in db.delegations
  {
    var c := request.command;
    WithCall(db, request, Key(request.principal, "namespace.delegation_revoke", request.key), 200, ids,
             RevokedRow(db, c), Fact("namespace.delegation_revoked", c.delegationId, [c.reason]),
             DelegationRevoked(c.reason))
  }

  lemma RevocationIsDecided(db: Db, request: Request, newId: Uuid)
    requires DbOk(db) && RequestOk(db.setup, request) && request.command.Revoke?
    ensures var refusal := RevocationRefusal(db, request.command, request.now);
            var decided := Service.Decided(db, request, newId);
            && (decided.Err? ==> refusal == Some(decided.error))
            && (decided.Ok? ==>
                  && decided.value == RevokedRow(db, request.command)
                  && decided.value.id == request.command.delegationId
                  && refusal == (if Representable(request.now) then None else Some(EVENT_UNAVAILABLE)))
  {
    hide LogOk, OriginsOk, Laws, ValidPath, ValidUuid, ValidOwnership, Service.Decided;
    var c := request.command;
    if c.delegationId in db.delegations { assert Ownership.DelegationOk(TablesOf(db), c.delegationId); }
    assert Service.Decided(db, request, newId) == Withdrawn(db, request) by { DecidedIsWithdrawn(db, request, newId); }
  }

  /** The step of a revocation decides as the repository's method does. */
  lemma RepositoryRevokes(db: Db, request: Request)
    requires DbOk(db) && RequestOk(db.setup, request) && request.command.Revoke?
    ensures var c := request.command;
            Withdrawn(db, request)
              == NamespaceRepository.Decided(
                   TablesOf(db), c.delegationId, c.expectedVersion, c.explanation, request.now)
  {
    hide LogOk, OriginsOk, Laws, ValidPath, ValidUuid, ValidOwnership;
    var c := request.command;
    if c.delegationId in db.delegations { assert Ownership.DelegationOk(TablesOf(db), c.delegationId); }
  }

  lemma DecidedIsWithdrawn(db: Db, request: Request, newId: Uuid)
    requires request.command.Revoke?
    ensures Service.Decided(db, request, newId) == Withdrawn(db, request)
  {
    hide Withdrawn;
  }

  /** Over every run: likewise a revocation that is nobody's call yet. */
  lemma NewRevocationIsServedExactly(setup: Setup, steps: seq<Step>, request: Request, ids: Service.Ids)
    requires Laws(setup) && Runs.Valid(Init(setup), steps) && RequestOk(setup, request) && request.command.Revoke?
    requires NewCall(Tables(setup, steps), request) && Fresh(Tables(setup, steps), ids)
    ensures var db := Tables(setup, steps);
            var refusal := RevocationRefusal(db, request.command, request.now);
            if refusal.Some? then Service.Served(db, request, ids) == Err(refusal.value)
            else
              && request.command.delegationId in db.delegations
              && var row := RevokedRow(db, request.command);
                 Service.Served(db, request, ids)
                   == Ok((WithRevocation(db, request, ids), Service.Answer(row, row.createdAt * 1000)))
  {
    hide Runs.Valid, Runs.Run, Laws, ValidUuid, Ownership.Inv, Consistent, Fold, Service.Decided, RequestOk;
    TablesAreOk(setup, steps);
    var db := Tables(setup, steps);
    RecordsAreOfCalls(db, request);
    RevocationIsDecided(db, request, ids.delegation);
  }

  /** Over every run: a request whose own call was committed gets that call's delegation as it now stands, its creation
      time as stored, and writes nothing; with another command it is refused. */
  lemma CommittedCallIsRepeated(setup: Setup, steps: seq<Step>, request: Request, ids: Service.Ids, i: nat)
    requires Laws(setup) && Runs.Valid(Init(setup), steps) && RequestOk(setup, request) && ValidUuid(ids.record)
    requires i < |Tables(setup, steps).requests| && SameCall(Tables(setup, steps).requests[i], request)
    ensures var db := Tables(setup, steps);
            && i < |db.events| && db.events[i].subject.id in db.delegations
            && var row := db.delegations[db.events[i].subject.id];
               Service.Served(db, request, ids) ==
               if db.requests[i].command == request.command then Ok((db, Service.Answer(row, row.createdAt * 1000)))
               else Err(Error(Conflict, "idempotency.request_mismatch"))
  {
    hide Runs.Valid, Runs.Run, DbOk, KeyOf, SameCall;
    TablesAreOk(setup, steps);
    var db := Tables(setup, steps);
    RecordsAreOfCalls(db, request);
    assert setup.parse(setup.text(db.events[i].subject.id)) == Some(db.events[i].subject.id);
  }

  // ---------------------------------------------------------------- what is committed

  /** The committed call says what was asked: its event and its audit fact name the delegation asked for, changed as
      asked and for the reason given, at the request's time and in commit order; and its record, under the call's own
      key, has the command's digest and answers with that delegation. */
  predicate AsAsked(db: Db, i: nat)
    requires i < |db.requests| == |db.events| == |db.audit|
  {
    var r, e := db.requests[i], db.events[i];
    && e.sequence == i + 1 && e.at == r.now && e.subject.id in db.delegations
    && match r.command
       case Create(namespaceId, childPrefix, publisherId) =>
         && e.change == Delegated && db.audit[i] == Fact("namespace.delegated", e.subject.id, [])
         && e.subject == Delegation(e.subject.id, namespaceId, publisherId, childPrefix,
                                    DelegationState.Active, 1, StoredTime(r.now))
         && Answers(db, Key(r.principal, "namespace.delegate", r.key), r.command, 201, e.subject.id)
       case Revoke(delegationId, _, reason, _) =>
         && e.change == DelegationRevoked(reason) && e.subject.id == delegationId
         && db.audit[i] == Fact("namespace.delegation_revoked", delegationId, [reason])
         && e.subject == db.delegations[delegationId] && e.subject.state.Revoked? && e.subject.version == 2
         && Answers(db, Key(r.principal, "namespace.delegation_revoke", r.key), r.command, 200, delegationId)
  }

  /** Over every run, each committed call is another one, and it says what was asked. */
  lemma EveryCommitIsAsAsked(setup: Setup, steps: seq<Step>, i: nat)
    requires Laws(setup) && Runs.Valid(Init(setup), steps) && i < |Tables(setup, steps).requests|
    ensures var db := Tables(setup, steps);
            && |db.events| == |db.audit| == |db.requests| && AsAsked(db, i)
            && (forall j | 0 <= j < |db.requests| && j != i :: !SameCall(db.requests[i], db.requests[j]))
  {
    hide Runs.Valid, Runs.Run, DbOk, AsAsked, SameCall;
    TablesAreOk(setup, steps);
    CommitIsAsAsked(Tables(setup, steps), i);
    CommitsDiffer(Tables(setup, steps), i);
  }

  lemma CommitsDiffer(db: Db, i: nat)
    requires DbOk(db) && i < |db.requests|
    ensures forall j | 0 <= j < |db.requests| && j != i :: !SameCall(db.requests[i], db.requests[j])
  {
    hide KeyOf, SameCall, LogOk, Laws, Ownership.Inv, Asked, OutcomeOf, RequestOk;
    assert OriginAt(db, i);
    forall j | 0 <= j < |db.requests| && j != i ensures !SameCall(db.requests[i], db.requests[j]) {
      assert OriginAt(db, j);
      Runs.KeysTellCallsApart(db.requests[i], db.requests[j]);
    }
  }

  lemma CommitIsAsAsked(db: Db, i: nat)
    requires DbOk(db) && i < |db.requests|
    ensures |db.events| == |db.audit| == |db.requests| && AsAsked(db, i)
  {
    hide Laws, ValidUuid, Ownership.Inv, Consistent, Fold, ValidPath, ReasonCode, ValidOwnership;
    assert OriginAt(db, i);
    SubjectStands(db.events, i);
  }

  /** The record of the key answers with the delegation. */
  predicate Answers(db: Db, key: Key, command: Command, status: int, id: Uuid) {
    && key in db.records && db.records[key].digest == db.setup.hash(command)
    && db.records[key].result == Some(Outcome(status, Some(("namespace_delegation", db.setup.text(id)))))
  }

  /** A creation's event names an active row, and a revocation's the row as it stands ever after. */
  lemma {:induction false} SubjectStands(events: seq<Event>, i: nat)
    requires Consistent(events) && i < |events|
    ensures var e := events[i];
            && e.subject.id in Fold(events)
            && (e.change.Delegated? ==> e.subject.state.Active? && e.subject.version == 1)
            && (e.change.DelegationRevoked? ==>
                  e.subject.state.Revoked? && e.subject.version == 2 && Fold(events)[e.subject.id] == e.subject)
  {
    hide ValidUuid, ValidPath, ReasonCode;
    var n := |events| - 1;
    if i < n {
      SubjectStands(events[..n], i);
      assert events[..n][i] == events[i];
    }
  }

  lemma {:induction false} PrefixIsConsistent(events: seq<Event>, n: nat)
    requires Consistent(events) && n <= |events|
    ensures Consistent(events[..n])
  {
    if n < |events| {
      PrefixIsConsistent(events[..|events| - 1], n);
      assert events[..|events| - 1][..n] == events[..n];
    } else {
      assert events[..n] == events;
    }
  }

  /** The state of a delegation after the first n committed changes, if it had been created by then. */
  function StateAfter(events: seq<Event>, n: nat, id: Uuid): Option<DelegationState>
    requires n <= |events|
  {
    if id in Fold(events[..n]) then Some(Fold(events[..n])[id].state) else None
  }

  /** What an event changes, from the delegation's state before it to the one after it. */
  lemma EventChangesState(events: seq<Event>, i: nat)
    requires Consistent(events) && i < |events|
    ensures var e := events[i];
            && StateAfter(events, i + 1, e.subject.id) == Some(e.subject.state) && ValidDelegation(e.subject)
            && StateAfter(events, i, e.subject.id)
                 == (if e.change.Delegated? then None else Some(DelegationState.Active))
            && (if e.change.Delegated? then e.subject.state.Active? else e.subject.state.Revoked?)
  {
    hide ValidUuid, ValidPath, ReasonCode;
    PrefixIsConsistent(events, i + 1);
    assert events[..i + 1][..i] == events[..i] && events[..i + 1][i] == events[i];
  }

  /** Over every run, the payload of each committed message, its texts parsed, tells whose event it is, its place in the
      order, the delegation with its namespace and its publisher, its state after the change and, for a revocation,
      before it and the reason its request gave. */
  lemma EveryPayloadTells(setup: Setup, steps: seq<Step>, i: nat, tenant: Uuid, source: string)
    requires Laws(setup) && Runs.Valid(Init(setup), steps) && i < |Tables(setup, steps).events| && ValidUuid(tenant)
    ensures var db := Tables(setup, steps);
            && i < |db.requests| && var (r, e) := (db.requests[i], db.events[i]);
               && StateAfter(db.events, i + 1, e.subject.id) == Some(e.subject.state)
               && Tells(BuildEvent(tenant, e.id, i + 1, source, e.subject, e.change, e.at), tenant, e.id, i + 1,
                        e.subject, StateAfter(db.events, i, e.subject.id),
                        if r.command.Create? then None else Some(r.command.reason), r.now)
  {
    hide Runs.Valid, Runs.Run, DbOk, Tells, StateAfter, BuildEvent;
    TablesAreOk(setup, steps);
    PayloadTells(Tables(setup, steps), i, tenant, source);
  }

  lemma PayloadTells(db: Db, i: nat, tenant: Uuid, source: string)
    requires DbOk(db) && i < |db.events| && ValidUuid(tenant)
    ensures i < |db.requests|
    ensures var (r, e) := (db.requests[i], db.events[i]);
            && StateAfter(db.events, i + 1, e.subject.id) == Some(e.subject.state)
            && Tells(BuildEvent(tenant, e.id, i + 1, source, e.subject, e.change, e.at), tenant, e.id, i + 1,
                     e.subject, StateAfter(db.events, i, e.subject.id),
                     if r.command.Create? then None else Some(r.command.reason), r.now)
  {
    hide Laws, ValidUuid, Ownership.Inv, Consistent, Fold, Tells, BuildEvent, RequestOk, Asked, StateAfter, OutcomeOf;
    hide ValidDelegation, KeyOf;
    assert OriginAt(db, i);
    var e := db.events[i];
    EventChangesState(db.events, i);
    BuiltEventTells(tenant, e.id, i + 1, source, e.subject, e.change, e.at);
  }
}
