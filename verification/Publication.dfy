/** The delegation services as a machine of interleaved transactions. Each step
    is one repository call of one open transaction; any number of transactions
    of the tenant are open at once, and any of them may fail at any point.
    Publishers and namespaces change meanwhile. */
module Publication {
  import opened Shared
  import opened Uuids
  import opened Idempotency
  import opened Namespaces
  import opened DelegationEvents
  import PublisherStates
  import Ownership = NamespaceOwnership
  import Guards = NamespaceGuards

  const RESOURCE_TYPE := "namespace_delegation"

  const IDENTIFIER_UNAVAILABLE := Error(Internal, "namespace.identifier_unavailable")
  const EVENT_UNAVAILABLE := Error(Internal, "namespace.event_unavailable")
  const INVALID_REQUEST := Error(Invalid, "namespace.invalid_delegation_request")
  const DELEGATION_NOT_FOUND := Error(NotFound, "namespace.delegation_not_found")

  // ---------------------------------------------------------------- requests

  datatype Command =
    | Create(namespaceId: Uuid, childPrefix: string, publisherId: Uuid)
    | Revoke(delegationId: Uuid, expectedVersion: int, reason: string, explanation: string)

  /** The digest of a command's canonical form, and the text form of identifiers. */
  datatype Setup = Setup(hash: Command -> string, text: Uuid -> string, parse: string -> Option<Uuid>)

  /** What is assumed of them: the digest is never empty and has no collisions, and parsing inverts the text form, as
      UuidText.ParseInvertsText says. */
  ghost predicate Laws(setup: Setup) {
    && (forall c :: setup.hash(c) != "")
    && (forall c, d :: setup.hash(c) == setup.hash(d) ==> c == d)
    && (forall id | ValidUuid(id) :: setup.parse(setup.text(id)) == Some(id))
  }

  /** One call of a service: who asks, under which key, for what, with which digest, and the clock's time. */
  datatype Request = Request(principal: string, key: string, digest: string, command: Command, now: Nanos)

  function KeyOf(r: Request): Key {
    Key(r.principal, ActionOf(r.command), r.key)
  }

  /** A request and its retries: one caller, one kind of command, one idempotency key. */
  predicate SameCall(a: Request, b: Request) {
    a.principal == b.principal && a.command.Create? == b.command.Create? && a.key == b.key
  }

  function ActionOf(c: Command): string {
    if c.Create? then "namespace.delegate" else "namespace.delegation_revoke"
  }

  function StatusOf(c: Command): int {
    if c.Create? then 201 else 200
  }

  /** What the services check before they open a transaction. */
  predicate RequestOk(setup: Setup, r: Request) {
    && ValidOwnership(KeyOf(r)) && r.digest == setup.hash(r.command) && StoredTime(r.now) != ZERO_TIME
    && match r.command
       case Create(namespaceId, childPrefix, publisherId) =>
         ValidUuid(namespaceId) && ValidPath(childPrefix) && ValidUuid(publisherId)
       case Revoke(id, expectedVersion, reason, _) => ValidUuid(id) && expectedVersion >= 1 && ReasonCode(reason)
  }

  function OutcomeOf(setup: Setup, c: Command, id: Uuid): Outcome {
    Outcome(StatusOf(c), Some((RESOURCE_TYPE, setup.text(id))))
  }

  /** The delegation is what the command asks for. */
  predicate Asked(c: Command, d: Delegation) {
    match c
    case Create(namespaceId, childPrefix, publisherId) =>
      d.namespaceId == namespaceId && d.childPrefix == childPrefix && d.publisherId == publisherId
    case Revoke(id, _, _, _) => d.id == id && d.state.Revoked?
  }

  // ---------------------------------------------------------------- state

  /** A committed outbox row, as far as the services write it. */
  datatype Event = Event(id: Uuid, sequence: int, subject: Delegation, change: Change, at: Nanos)

  /** An audit fact written with a mutation. */
  datatype Fact = Fact(action: string, resourceId: Uuid, reasons: seq<string>)

  /** The committed tables of the tenant. next is the allocator's next_sequence, 1 while it has no row. events and
      audit are in commit order; origins and requests are history: the request that committed each event, and its
      key. */
  datatype Db = Db(
    setup: Setup, publishers: map<Uuid, PublisherStates.PublisherState>, namespaces: map<Uuid, Ownership.Namespace>,
    records: map<Key, Record>, delegations: map<Uuid, Delegation>,
    next: int, events: seq<Event>, audit: seq<Fact>, origins: seq<Key>, requests: seq<Request>)

  function TablesOf(db: Db): Ownership.Tables {
    Ownership.Tables(db.publishers, db.namespaces, db.delegations)
  }

  /** How far an open transaction has come, with what it has written or read. A creation takes two advisory locks
      inside its insert, first its namespace's, then its prefix's. */
  datatype Phase =
    | Started
    | Found(stored: Record)
    | Answering(result: Delegation)
    | Owning(own: Record)
    | Nesting(own: Record, draft: Delegation)
    | Naming(own: Record, draft: Delegation)
    | Changed(own: Record, result: Delegation, fact: Fact)
    | Allocated(own: Record, result: Delegation, fact: Fact, sequence: int)
    | Recorded(own: Record, result: Delegation, fact: Fact, event: Event)
    | Finished(own: Record, result: Delegation, fact: Fact, event: Event)

  datatype Tx = Tx(request: Request, phase: Phase)

  datatype State = State(db: Db, open: map<nat, Tx>)

  function Init(setup: Setup): State {
    State(Db(setup, map[], map[], map[], map[], 1, [], [], [], []), map[])
  }

  // ---------------------------------------------------------------- locks

  /** The transaction holds its key: it inserted the record and has not ended. */
  predicate HoldsKey(t: Tx) {
    t.phase.Owning? || t.phase.Nesting? || t.phase.Naming? || HoldsRow(t)
  }

  /** It holds the advisory lock of the namespace it delegates from. */
  predicate HoldsNamespace(t: Tx) {
    t.request.command.Create? && (t.phase.Nesting? || t.phase.Naming? || HoldsRow(t))
  }

  /** It holds the advisory lock of the prefix it delegates. */
  predicate HoldsPrefix(t: Tx) {
    t.request.command.Create? && (t.phase.Naming? || HoldsRow(t))
  }

  /** It holds the delegation row it inserted or locked, and for an insert a share of the recipient's row. */
  predicate HoldsRow(t: Tx) {
    t.phase.Changed? || HoldsAllocator(t)
  }

  /** It holds the allocator row. */
  predicate HoldsAllocator(t: Tx) {
    t.phase.Allocated? || t.phase.Recorded? || t.phase.Finished?
  }

  predicate KeyFree(s: State, tx: nat, key: Key, recordId: Uuid) {
    forall o | o in s.open && o != tx && HoldsKey(s.open[o]) ::
      KeyOf(s.open[o].request) != key && s.open[o].phase.own.id != recordId
  }

  predicate NamespaceFree(s: State, tx: nat, namespaceId: Uuid) {
    forall o | o in s.open && o != tx && HoldsNamespace(s.open[o]) ::
      s.open[o].request.command.namespaceId != namespaceId
  }

  predicate PrefixFree(s: State, tx: nat, prefix: string) {
    forall o | o in s.open && o != tx && HoldsPrefix(s.open[o]) :: s.open[o].request.command.childPrefix != prefix
  }

  predicate RowFree(s: State, tx: nat, id: Uuid) {
    forall o | o in s.open && o != tx && HoldsRow(s.open[o]) :: s.open[o].phase.result.id != id
  }

  predicate AllocatorFree(s: State, tx: nat) {
    forall o | o in s.open && o != tx :: !HoldsAllocator(s.open[o])
  }

  /** No open transaction shares the publisher's row, which an insert does to keep its recipient verified. */
  predicate PublisherFree(s: State, publisher: Uuid) {
    forall o | o in s.open && HoldsRow(s.open[o]) && s.open[o].request.command.Create? ::
      s.open[o].request.command.publisherId != publisher
  }

  // ---------------------------------------------------------------- the mutation and the replay

  /** The delegation a creation is to insert: the namespace is read and the domain checks it. */
  function Drafted(db: Db, r: Request, newId: Uuid): Result<Delegation>
    requires r.command.Create?
  {
    var c := r.command;
    if c.namespaceId !in db.namespaces then Err(Error(NotFound, "namespace.not_found"))
    else if !ValidUuid(newId) then Err(IDENTIFIER_UNAVAILABLE)
    else
      var path := db.namespaces[c.namespaceId].path;
      var d := NewDelegation(newId, c.namespaceId, path, c.publisherId, c.childPrefix, StoredTime(r.now));
      if d.None? then Err(INVALID_REQUEST) else Ok(d.value)
  }

  /** The delegation a revocation writes. */
  function Withdrawn(db: Db, r: Request): Result<Delegation>
    requires r.command.Revoke?
  {
    var c := r.command;
    if c.delegationId !in db.delegations then Err(DELEGATION_NOT_FOUND)
    else if db.delegations[c.delegationId].version != c.expectedVersion then
      Err(Error(Conflict, "namespace.stale_delegation_version"))
    else
      var d := RevokeDelegation(db.delegations[c.delegationId], c.reason, c.explanation, r.now);
      if d.None? then Err(Error(Conflict, "namespace.invalid_delegation_transition")) else Ok(d.value)
  }

  /** The transaction is about to write its delegation. */
  predicate AtWrite(t: Tx) {
    if t.request.command.Create? then t.phase.Naming? else t.phase.Owning?
  }

  /** The delegation the transaction writes: the insert guards and keys let the drafted one in, or refuse it. */
  function Mutated(db: Db, t: Tx): Result<Delegation>
    requires AtWrite(t)
  {
    if t.request.command.Revoke? then Withdrawn(db, t.request)
    else
      var refusal := Guards.InsertRefusal(TablesOf(db), t.phase.draft);
      if refusal.Some? then Err(refusal.value) else Ok(t.phase.draft)
  }

  function FactOf(c: Command, id: Uuid): Fact {
    if c.Create? then Fact("namespace.delegated", id, [])
    else Fact("namespace.delegation_revoked", id, [c.reason])
  }

  function ChangeOf(c: Command): Change {
    if c.Create? then Delegated else DelegationRevoked(c.reason)
  }

  /** replay: the established answer read back from the delegation it names. */
  function Replayed(db: Db, stored: Record, c: Command): Result<Delegation> {
    if stored.result.None? then Err(Error(Conflict, "idempotency.in_progress"))
    else
      var outcome := stored.result.value;
      if outcome.status != StatusOf(c) || outcome.resource.None? || outcome.resource.value.0 != RESOURCE_TYPE then
        Err(Error(Conflict, "idempotency.result_mismatch"))
      else
        var id := db.setup.parse(outcome.resource.value.1);
        if id.None? then Err(Error(Internal, "namespace.result_unavailable"))
        else if id.value !in db.delegations then Err(DELEGATION_NOT_FOUND)
        else Ok(db.delegations[id.value])
  }

  // ---------------------------------------------------------------- steps

  /** NewNamespace and ChangePublisher are whole transactions of other services; Unwind rolls an open transaction back
      to a savepoint, one call at a time. */
  datatype Step =
    | Begin(tx: nat, request: Request)
    | Acquire(tx: nat, recordId: Uuid)
    | Replay(tx: nat)
    | LockNamespace(tx: nat, newId: Uuid)
    | LockPrefix(tx: nat)
    | Mutate(tx: nat)
    | Allocate(tx: nat)
    | RecordEvent(tx: nat, eventId: Uuid)
    | Complete(tx: nat)
    | Unwind(tx: nat)
    | Commit(tx: nat)
    | Abort(tx: nat)
    | NewNamespace(tx: nat, value: Ownership.Namespace)
    | ChangePublisher(tx: nat, publisher: Uuid, state: PublisherStates.PublisherState)

  /** The step begins a transaction, and for other services ends it as well. */
  predicate Opens(step: Step) {
    step.Begin? || Foreign(step)
  }

  predicate Foreign(step: Step) {
    step.NewNamespace? || step.ChangePublisher?
  }

  /** The step goes on with an open transaction. */
  predicate Continues(step: Step) {
    !Opens(step) && !step.Commit? && !step.Abort?
  }

  predicate FreshEvent(db: Db, id: Uuid) {
    ValidUuid(id) && forall i | 0 <= i < |db.events| :: db.events[i].id != id
  }

  /** The call can be made: the transaction is at that point, and the tables it reads let the call succeed. */
  predicate Ready(db: Db, step: Step, t: Tx) {
    match step
    case Acquire(_, recordId) =>
      && t.phase.Started? && ValidUuid(recordId)
      && Acquired(db.records, KeyOf(t.request), NewRecord(recordId, t.request.digest, t.request.now)).Ok?
    case Replay(_) => t.phase.Found? && Replayed(db, t.phase.stored, t.request.command).Ok?
    case LockNamespace(_, newId) => t.phase.Owning? && t.request.command.Create? && Drafted(db, t.request, newId).Ok?
    case LockPrefix(_) => t.phase.Nesting? && t.request.command.Create?
    case Mutate(_) => AtWrite(t) && Mutated(db, t).Ok?
    case Allocate(_) => t.phase.Changed? && db.next < MAX_SEQUENCE
    case RecordEvent(_, eventId) =>
      t.phase.Allocated? && Representable(t.request.now) && FreshEvent(db, eventId)
    case Complete(_) => t.phase.Recorded? && Established(db, t).Ok?
    case Unwind(_) => !t.phase.Started?
    case Commit(_) => t.phase.Finished? || t.phase.Answering?
    case Abort(_) => true
    case _ => false
  }

  /** No other open transaction holds what the call would wait for. */
  predicate LocksFree(s: State, step: Step, t: Tx)
    requires Ready(s.db, step, t)
  {
    match step
    case Acquire(tx, recordId) => KeyFree(s, tx, KeyOf(t.request), recordId)
    case LockNamespace(tx, _) => NamespaceFree(s, tx, t.request.command.namespaceId)
    case LockPrefix(tx) => PrefixFree(s, tx, t.request.command.childPrefix)
    case Mutate(tx) => RowFree(s, tx, Mutated(s.db, t).value.id)
    case Allocate(tx) => AllocatorFree(s, tx)
    case _ => true
  }

  predicate Enabled(s: State, step: Step) {
    if Opens(step) then step.tx !in s.open && OpensRightly(s, step)
    else step.tx in s.open && Ready(s.db, step, s.open[step.tx]) && LocksFree(s, step, s.open[step.tx])
  }

  predicate OpensRightly(s: State, step: Step)
    requires Opens(step)
  {
    match step
    case Begin(_, request) => RequestOk(s.db.setup, request)
    case NewNamespace(tx, value) =>
      && ValidPath(value.path) && Guards.RootRefusal(TablesOf(s.db), value).None? && PrefixFree(s, tx, value.path)
    case ChangePublisher(_, publisher, state) =>
      && PublisherFree(s, publisher)
      && if publisher in s.db.publishers then PublisherStates.Allowed(s.db.publishers[publisher], state)
         else state.Claimed?
  }

  /** The transaction's own record after completion, in the table as the transaction sees it. */
  function Established(db: Db, t: Tx): Result<Record>
    requires t.phase.Recorded?
  {
    var key := KeyOf(t.request);
    var outcome := OutcomeOf(db.setup, t.request.command, t.phase.result.id);
    Completed(db.records[key := t.phase.own], key, t.request.digest, outcome, StoredTime(t.request.now))
  }

  /** Where a transaction stood before its latest call. */
  function Before(t: Tx): Phase
    requires !t.phase.Started?
  {
    match t.phase
    case Found(_) => Started
    case Answering(_) => Started
    case Owning(_) => Started
    case Nesting(own, _) => Owning(own)
    case Naming(own, draft) => Nesting(own, draft)
    case Changed(own, result, _) => if t.request.command.Create? then Naming(own, result) else Owning(own)
    case Allocated(own, result, fact, _) => Changed(own, result, fact)
    case Recorded(own, result, fact, event) => Allocated(own, result, fact, event.sequence)
    case Finished(own, result, fact, event) =>
      Recorded(own.(result := None, completedAt := None), result, fact, event)
  }

  /** What the transaction knows and has written after the call. */
  function NextPhase(db: Db, step: Step, t: Tx): Phase
    requires Ready(db, step, t) && Continues(step)
  {
    match step
    case Acquire(_, recordId) =>
      var offered := NewRecord(recordId, t.request.digest, t.request.now);
      var (stored, created) := Acquired(db.records, KeyOf(t.request), offered).value;
      if created then Owning(stored) else Found(stored)
    case Replay(_) => Answering(Replayed(db, t.phase.stored, t.request.command).value)
    case LockNamespace(_, newId) => Nesting(t.phase.own, Drafted(db, t.request, newId).value)
    case LockPrefix(_) => Naming(t.phase.own, t.phase.draft)
    case Mutate(_) =>
      var d := Mutated(db, t).value;
      Changed(t.phase.own, d, FactOf(t.request.command, d.id))
    case Allocate(_) => Allocated(t.phase.own, t.phase.result, t.phase.fact, db.next)
    case RecordEvent(_, eventId) =>
      var event := Event(eventId, t.phase.sequence, t.phase.result, ChangeOf(t.request.command), t.request.now);
      Recorded(t.phase.own, t.phase.result, t.phase.fact, event)
    case Complete(_) => Finished(Established(db, t).value, t.phase.result, t.phase.fact, t.phase.event)
    case Unwind(_) => Before(t)
  }

  function Apply(s: State, step: Step): State
    requires Enabled(s, step)
  {
    match step
    case Begin(tx, request) => s.(open := s.open[tx := Tx(request, Started)])
    case NewNamespace(_, value) => s.(db := s.db.(namespaces := s.db.namespaces[value.id := value]))
    case ChangePublisher(_, publisher, state) => s.(db := s.db.(publishers := s.db.publishers[publisher := state]))
    case Commit(tx) => State(Committed(s.db, s.open[tx]), s.open - {tx})
    case Abort(tx) => s.(open := s.open - {tx})
    case _ =>
      var t := s.open[step.tx];
      s.(open := s.open[step.tx := t.(phase := NextPhase(s.db, step, t))])
  }

  /** The tables once the transaction has committed; one that only read its answer has no writes. */
  function Committed(db: Db, t: Tx): Db {
    if t.phase.Finished? then Merged(db, t) else db
  }

  /** The tables once the transaction's writes are committed. */
  function Merged(db: Db, t: Tx): Db
    requires t.phase.Finished?
  {
    db.(records := db.records[KeyOf(t.request) := t.phase.own],
        delegations := db.delegations[t.phase.result.id := t.phase.result],
        next := t.phase.event.sequence + 1, events := db.events + [t.phase.event], audit := db.audit + [t.phase.fact],
        origins := db.origins + [KeyOf(t.request)], requests := db.requests + [t.request])
  }

  // ---------------------------------------------------------------- the invariant

  /** The delegation table an event log tells. */
  function Fold(events: seq<Event>): map<Uuid, Delegation> {
    if events == [] then map[]
    else var e := events[|events| - 1]; Fold(events[..|events| - 1])[e.subject.id := e.subject]
  }

  /** The change is possible on the table: a new delegation starts active, and only an active one is revoked. */
  predicate Possible(table: map<Uuid, Delegation>, d: Delegation, change: Change) {
    && ValidDelegation(d)
    && match change
       case Delegated => d.id !in table && d.state.Active?
       case DelegationRevoked(reason) =>
         && ReasonCode(reason) && d.id in table && table[d.id].state.Active?
         && d == table[d.id].(state := Revoked, version := 2)
  }

  predicate Consistent(events: seq<Event>) {
    events == [] ||
    (var last := events[|events| - 1];
     Consistent(events[..|events| - 1]) && Possible(Fold(events[..|events| - 1]), last.subject, last.change))
  }

  function FactOfEvent(e: Event): Fact {
    if e.change.Delegated? then Fact("namespace.delegated", e.subject.id, [])
    else Fact("namespace.delegation_revoked", e.subject.id, [e.change.reason])
  }

  /** The request that committed the event: its record names the event's delegation, which is what it asked for. */
  predicate OriginOk(setup: Setup, records: map<Key, Record>, key: Key, request: Request, e: Event) {
    var command := request.command;
    && RequestOk(setup, request) && key == KeyOf(request) && e.at == request.now && Representable(e.at)
    && (command.Create? ==> e.subject.createdAt == StoredTime(e.at))
    && key in records && e.change == ChangeOf(command) && Asked(command, e.subject)
    && records[key].digest == setup.hash(command)
    && records[key].result == Some(OutcomeOf(setup, command, e.subject.id))
  }

  ghost predicate DbOk(db: Db) {
    LogOk(db) && OriginsOk(db) && Laws(db.setup) && Ownership.Inv(TablesOf(db))
  }

  /** The sequences are 1 to n, identifiers are unique, the audit log matches, and the log tells the table. */
  ghost predicate LogOk(db: Db) {
    && db.next == |db.events| + 1 && db.next <= MAX_SEQUENCE
    && (forall i | 0 <= i < |db.events| :: db.events[i].sequence == i + 1 && ValidUuid(db.events[i].id))
    && (forall i, j | 0 <= i < j < |db.events| :: db.events[i].id != db.events[j].id)
    && Consistent(db.events) && db.delegations == Fold(db.events)
    && |db.audit| == |db.events|
    && (forall i | 0 <= i < |db.events| :: db.audit[i] == FactOfEvent(db.events[i]))
  }

  /** Records and events correspond one to one. */
  ghost predicate OriginsOk(db: Db) {
    && |db.origins| == |db.requests| == |db.events|
    && (forall i | 0 <= i < |db.events| :: OriginAt(db, i))
    && (forall i, j | 0 <= i < j < |db.origins| :: db.origins[i] != db.origins[j])
    && (forall k | k in db.records :: k in db.origins)
  }

  predicate OriginAt(db: Db, i: nat)
    requires i < |db.origins| == |db.requests| == |db.events|
  {
    OriginOk(db.setup, db.records, db.origins[i], db.requests[i], db.events[i])
  }

  /** The delegation as it stands, or as it stood before it was revoked. */
  predicate Shows(db: Db, d: Delegation) {
    && d.id in db.delegations
    && (db.delegations[d.id] == d || (d.state.Active? && db.delegations[d.id] == d.(state := Revoked, version := 2)))
  }

  /** What an open transaction knows, against the committed tables. */
  ghost predicate TxOk(db: Db, t: Tx) {
    RequestOk(db.setup, t.request) && AnswerOk(db, t) && KeyOk(db, t) && RowOk(db, t) && EventOk(db, t)
  }

  /** A record found is the key's, and an answer is what it established. */
  predicate AnswerOk(db: Db, t: Tx) {
    var key := KeyOf(t.request);
    && (t.phase.Found? ==>
          key in db.records && db.records[key] == t.phase.stored && t.phase.stored.digest == t.request.digest)
    && (t.phase.Answering? ==>
          && key in db.records && db.records[key].digest == t.request.digest && ValidUuid(t.phase.result.id)
          && db.records[key].result == Some(OutcomeOf(db.setup, t.request.command, t.phase.result.id))
          && Shows(db, t.phase.result) && Asked(t.request.command, t.phase.result))
  }

  /** A key held has no committed record, and its own record is pending until it is finished. */
  predicate KeyOk(db: Db, t: Tx) {
    HoldsKey(t) ==>
      && KeyOf(t.request) !in db.records && !IdTaken(db.records, t.phase.own.id)
      && t.phase.own.digest == t.request.digest && t.phase.own.createdAt == StoredTime(t.request.now)
      && t.phase.own.result == (
           if t.phase.Finished? then Some(OutcomeOf(db.setup, t.request.command, t.phase.result.id)) else None)
  }

  /** A draft is what was asked for; a row written is still possible, and an inserted one would still be let in. */
  ghost predicate RowOk(db: Db, t: Tx) {
    && (t.phase.Nesting? || t.phase.Naming? ==>
          && t.request.command.Create? && ValidDelegation(t.phase.draft) && t.phase.draft.state.Active?
          && Asked(t.request.command, t.phase.draft) && t.phase.draft.createdAt == StoredTime(t.request.now))
    && (HoldsRow(t) ==>
          && Possible(db.delegations, t.phase.result, ChangeOf(t.request.command))
          && Asked(t.request.command, t.phase.result) && t.phase.fact == FactOf(t.request.command, t.phase.result.id))
    && (HoldsRow(t) && t.request.command.Create? ==>
          InsertStands(TablesOf(db), t.phase.result) && t.phase.result.createdAt == StoredTime(t.request.now))
  }

  ghost predicate InsertStands(tables: Ownership.Tables, d: Delegation) {
    Ownership.Insertable(tables, d) && Guards.IsVerified(tables, d.publisherId)
  }

  /** A number allocated is still the next one. */
  predicate EventOk(db: Db, t: Tx) {
    && (HoldsAllocator(t) ==> db.next < MAX_SEQUENCE)
    && (t.phase.Allocated? ==> t.phase.sequence == db.next)
    && (t.phase.Recorded? || t.phase.Finished? ==>
          && FreshEvent(db, t.phase.event.id) && Representable(t.request.now)
          && t.phase.event
                == Event(t.phase.event.id, db.next, t.phase.result, ChangeOf(t.request.command), t.request.now))
  }

  /** Locks exclude each other. */
  predicate Apart(a: Tx, b: Tx) {
    && (HoldsKey(a) && HoldsKey(b) ==> KeyOf(a.request) != KeyOf(b.request) && a.phase.own.id != b.phase.own.id)
    && (HoldsNamespace(a) && HoldsNamespace(b) ==> a.request.command.namespaceId != b.request.command.namespaceId)
    && (HoldsPrefix(a) && HoldsPrefix(b) ==> a.request.command.childPrefix != b.request.command.childPrefix)
    && (HoldsRow(a) && HoldsRow(b) ==> a.phase.result.id != b.phase.result.id)
    && !(HoldsAllocator(a) && HoldsAllocator(b))
  }

  ghost predicate Inv(s: State) {
    && DbOk(s.db)
    && (forall tx | tx in s.open :: TxOk(s.db, s.open[tx]))
    && (forall a, b | a in s.open && b in s.open && a != b :: Apart(s.open[a], s.open[b]))
  }
}
