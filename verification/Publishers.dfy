/** Publisher state under optimistic concurrency. ChangeState reads without a lock and relies on the primary key
    of the state records, on the insert trigger, and on a compare-and-swap of the current version. */
module Publishers {
  import opened Shared
  import opened Uuids
  import opened PublisherStates

  /** A row of publisher_state_records; only the first has no reason. */
  datatype StateRecord = StateRecord(state: PublisherState, reason: Option<string>, explanation: string, at: Instant)

  predicate OptionalText(value: string, maximum: int) {
    |value| <= maximum && forall i | 0 <= i < |value| :: !IsControl(value[i])
  }

  const INVALID_TRANSITION := Error(Conflict, "publisher.invalid_transition")
  const INVALID_METADATA := Error(Invalid, "publisher.invalid_transition_metadata")
  const STALE := Error(Conflict, "publisher.stale_state_version")
  const NOT_FOUND := Error(NotFound, "publisher.not_found")
  const UNAVAILABLE := Error(Unavailable, "publisher.persistence_unavailable")

  /** One call of ChangeState. */
  datatype Change = Change(
      publisher: Uuid, expected: int, to: PublisherState, reason: string, explanation: string, at: Nanos)

  /** Transition: the record of the next version, from the state read, as it is stored. */
  function Transition(from: PublisherState, c: Change): Result<StateRecord> {
    if !Allowed(from, c.to) || c.reason == "" || c.at == ZERO_NANOS then Err(INVALID_TRANSITION)
    else if !OptionalText(c.explanation, 4096) then Err(INVALID_METADATA)
    else Ok(StateRecord(c.to, Some(c.reason), c.explanation, StoredTime(c.at)))
  }

  // ---------------------------------------------------------------- tables and transactions

  /** The committed rows: state records by publisher and version, and each publisher's current version. */
  datatype Db = Db(records: map<(Uuid, int), StateRecord>, current: map<Uuid, int>)

  /** How far an open transaction has come: it has read the current state, inserted the next record, or moved the
      current version. */
  datatype Phase = Started | Read(seen: PublisherState) | Inserted(record: StateRecord) | Updated(record: StateRecord)

  datatype Tx = Tx(change: Change, phase: Phase)

  /** Besides the open changes, other services' transactions that insert namespaces and delegations share the row of
      the publisher they found verified, and keep it so until they end. */
  datatype State = State(db: Db, open: map<nat, Tx>, shared: map<nat, Uuid>)

  function Init(): State {
    State(Db(map[], map[]), map[], map[])
  }

  /** It holds the record it inserted, until it ends. */
  predicate HoldsRecord(t: Tx) {
    t.phase.Inserted? || t.phase.Updated?
  }

  function RecordKey(c: Change): (Uuid, int) {
    (c.publisher, c.expected + 1)
  }

  datatype Step =
    | Register(publisher: Uuid, at: Instant)
    | Begin(tx: nat, change: Change)
    | Select(tx: nat)
    | Insert(tx: nat)
    | Update(tx: nat)
    | Commit(tx: nat)
    | Abort(tx: nat)
    | Share(holder: nat, publisher: Uuid)
    | Unshare(holder: nat)

  /** The step is not one of a change of state. */
  predicate Elsewhere(step: Step) {
    step.Register? || step.Share? || step.Unshare?
  }

  /** The row ChangeState reads: the publisher joined with the record of its current version. */
  function Selected(db: Db, publisher: Uuid): Option<(PublisherState, int)> {
    if publisher in db.current && (publisher, db.current[publisher]) in db.records
    then Some((db.records[(publisher, db.current[publisher])].state, db.current[publisher]))
    else None
  }

  /** The trigger on inserted state records. */
  predicate InsertAllowed(db: Db, key: (Uuid, int), r: StateRecord) {
    if key.1 == 1 then r.state.Claimed? && r.reason.None? && r.explanation == ""
    else r.reason.Some? && (key.0, key.1 - 1) in db.records && Allowed(db.records[(key.0, key.1 - 1)].state, r.state)
  }

  predicate Enabled(s: State, step: Step) {
    match step
    case Register(publisher, _) => publisher !in s.db.current && (publisher, 1) !in s.db.records
    case Begin(tx, change) => tx !in s.open && change.expected >= 1
    case Select(tx) =>
      tx in s.open && s.open[tx].phase.Started?
      && var row := Selected(s.db, s.open[tx].change.publisher); row.Some? && row.value.1 == s.open[tx].change.expected
    case Insert(tx) =>
      tx in s.open && s.open[tx].phase.Read? && InsertReady(s.db, s.open[tx])
          && KeyFree(s, tx, RecordKey(s.open[tx].change))
    case Update(tx) =>
      tx in s.open && s.open[tx].phase.Inserted? && UpdateReady(s.db, s.open[tx].change)
          && RowFree(s, tx, s.open[tx].change.publisher)
    case Commit(tx) => tx in s.open && s.open[tx].phase.Updated?
    case Abort(tx) => tx in s.open
    case Share(holder, publisher) => holder !in s.shared && IsVerified(s.db, publisher) && NotUpdated(s, publisher)
    case Unshare(holder) => holder in s.shared
  }

  /** What the guards on new namespaces and delegations look up. */
  predicate IsVerified(db: Db, publisher: Uuid) {
    var row := Selected(db, publisher);
    row.Some? && row.value.0.Verified?
  }

  predicate NotUpdated(s: State, publisher: Uuid) {
    forall o | o in s.open && s.open[o].phase.Updated? :: s.open[o].change.publisher != publisher
  }

  /** The transition is allowed from what was read, the primary key is not taken, and the trigger agrees. */
  predicate InsertReady(db: Db, t: Tx)
    requires t.phase.Read?
  {
    var r := Transition(t.phase.seen, t.change);
    r.Ok? && RecordKey(t.change) !in db.records && InsertAllowed(db, RecordKey(t.change), r.value)
  }

  /** WHERE current_state_version = the expected one. The trigger on publishers allows a step of one version. */
  predicate UpdateReady(db: Db, c: Change) {
    c.publisher in db.current && db.current[c.publisher] == c.expected
  }

  /** No other open transaction has inserted the same key; an insert waits for one that has. */
  predicate KeyFree(s: State, tx: nat, key: (Uuid, int)) {
    forall o | o in s.open && o != tx && HoldsRecord(s.open[o]) :: RecordKey(s.open[o].change) != key
  }

  /** Nobody else has updated or shares the publisher's row; an update waits for one that has or does. */
  predicate RowFree(s: State, tx: nat, publisher: Uuid) {
    && (forall o | o in s.open && o != tx && s.open[o].phase.Updated? :: s.open[o].change.publisher != publisher)
    && Unshared(s, publisher)
  }

  predicate Unshared(s: State, publisher: Uuid) {
    forall h | h in s.shared :: s.shared[h] != publisher
  }

  function Moved(s: State, tx: nat, phase: Phase): State
    requires tx in s.open
  {
    s.(open := s.open[tx := s.open[tx].(phase := phase)])
  }

  function Apply(s: State, step: Step): State
    requires Enabled(s, step)
  {
    match step
    case Register(publisher, at) =>
      s.(db := Db(s.db.records[(publisher, 1) := StateRecord(Claimed, None, "", at)], s.db.current[publisher := 1]))
    case Begin(tx, change) => s.(open := s.open[tx := Tx(change, Started)])
    case Select(tx) => Moved(s, tx, Read(Selected(s.db, s.open[tx].change.publisher).value.0))
    case Insert(tx) => Moved(s, tx, Inserted(Transition(s.open[tx].phase.seen, s.open[tx].change).value))
    case Update(tx) => Moved(s, tx, Updated(s.open[tx].phase.record))
    case Commit(tx) => s.(db := Written(s.db, s.open[tx]), open := s.open - {tx})
    case Abort(tx) => s.(open := s.open - {tx})
    case Share(holder, publisher) => s.(shared := s.shared[holder := publisher])
    case Unshare(holder) => s.(shared := s.shared - {holder})
  }

  /** The rows once the transaction's writes are committed. */
  function Written(db: Db, t: Tx): Db
    requires t.phase.Updated?
  {
    Db(db.records[RecordKey(t.change) := t.phase.record], db.current[t.change.publisher := t.change.expected + 1])
  }

  // ---------------------------------------------------------------- the invariant

  /** The publisher's records are exactly the versions 1 up to its current one, and each follows from the one before. */
  ghost predicate HistoryOk(db: Db, publisher: Uuid) {
    && (publisher in db.current ==> db.current[publisher] >= 1)
    && (forall v: int :: (publisher, v) in db.records <==> publisher in db.current && 1 <= v <= db.current[publisher])
    && (forall v: int | (publisher, v) in db.records :: InsertAllowed(db, (publisher, v), db.records[(publisher, v)]))
  }

  ghost predicate TxOk(db: Db, t: Tx) {
    var c := t.change;
    && c.expected >= 1
    && (t.phase.Read? ==>
          (c.publisher, c.expected) in db.records && db.records[(c.publisher, c.expected)].state == t.phase.seen)
    && (HoldsRecord(t) ==>
          && UpdateReady(db, c)
          && (c.publisher, c.expected) in db.records
          && Transition(db.records[(c.publisher, c.expected)].state, c) == Ok(t.phase.record))
  }

  predicate Apart(a: Tx, b: Tx) {
    HoldsRecord(a) && HoldsRecord(b) ==> a.change.publisher != b.change.publisher
  }

  ghost predicate Inv(s: State) {
    && (forall publisher :: HistoryOk(s.db, publisher))
    && (forall tx | tx in s.open :: TxOk(s.db, s.open[tx]))
    && (forall a, b | a in s.open && b in s.open && a != b :: Apart(s.open[a], s.open[b]))
    && (forall h | h in s.shared :: ShareOk(s, s.shared[h]))
  }

  /** A shared publisher is verified and nobody is about to change that. */
  predicate ShareOk(s: State, publisher: Uuid) {
    IsVerified(s.db, publisher) && NotUpdated(s, publisher)
  }

  /** No step changes a publisher that somebody shares. */
  lemma StepKeepsShare(s: State, step: Step, holder: nat)
    requires Inv(s) && Enabled(s, step) && holder in s.shared
    ensures ShareOk(Apply(s, step), s.shared[holder])
    ensures Selected(Apply(s, step).db, s.shared[holder]) == Selected(s.db, s.shared[holder])
  {
    hide HistoryOk, TxOk, Apart, Transition, InsertReady, KeyFree;
    assert ShareOk(s, s.shared[holder]);
    if step.Commit? { assert s.open[step.tx].change.publisher != s.shared[holder]; }
  }

  /** The record a commit writes follows from the one before it. */
  lemma WrittenIsAllowed(db: Db, t: Tx)
    requires TxOk(db, t) && t.phase.Updated?
    ensures InsertAllowed(Written(db, t), RecordKey(t.change), t.phase.record)
  {
  }

  /** Every other record still follows from the one before it. */
  lemma StaysAllowed(db: Db, t: Tx, publisher: Uuid, v: int)
    requires HistoryOk(db, publisher) && TxOk(db, t) && t.phase.Updated?
    requires (publisher, v) in db.records && (publisher, v) != RecordKey(t.change)
    ensures InsertAllowed(Written(db, t), (publisher, v), db.records[(publisher, v)])
  {
    hide Transition;
    assert InsertAllowed(db, (publisher, v), db.records[(publisher, v)]);
  }

  lemma CommitKeepsHistory(db: Db, t: Tx, publisher: Uuid)
    requires HistoryOk(db, publisher) && TxOk(db, t) && t.phase.Updated?
    ensures HistoryOk(Written(db, t), publisher)
  {
    hide InsertAllowed, Transition;
    var after := Written(db, t);
    forall v: int | (publisher, v) in after.records
      ensures InsertAllowed(after, (publisher, v), after.records[(publisher, v)])
    {
      if (publisher, v) == RecordKey(t.change) {
        WrittenIsAllowed(db, t);
      } else {
        StaysAllowed(db, t, publisher, v);
      }
    }
  }

  lemma CommitKeepsOther(db: Db, t: Tx, o: Tx)
    requires TxOk(db, t) && TxOk(db, o) && t.phase.Updated? && Apart(t, o)
    requires HistoryOk(db, t.change.publisher)
    ensures TxOk(Written(db, t), o)
  {
  }

  lemma RegisterKeepsHistory(s: State, publisher: Uuid, at: Instant, other: Uuid)
    requires Enabled(s, Register(publisher, at)) && HistoryOk(s.db, other)
    ensures HistoryOk(Apply(s, Register(publisher, at)).db, other)
  {
    var after := Apply(s, Register(publisher, at)).db;
    forall v: int | (other, v) in after.records ensures InsertAllowed(after, (other, v), after.records[(other, v)]) {
      assert (other, v) != (publisher, 1) ==> InsertAllowed(s.db, (other, v), s.db.records[(other, v)]);
    }
  }

  lemma RegisterKeepsTx(s: State, publisher: Uuid, at: Instant, t: Tx)
    requires Enabled(s, Register(publisher, at)) && TxOk(s.db, t)
    requires HistoryOk(s.db, t.change.publisher)
    ensures TxOk(Apply(s, Register(publisher, at)).db, t)
  {
  }

  /** An insert that succeeds is for the version after the current one. */
  lemma InsertIsNext(db: Db, t: Tx)
    requires HistoryOk(db, t.change.publisher) && TxOk(db, t) && t.phase.Read? && InsertReady(db, t)
    ensures UpdateReady(db, t.change) && TxOk(db, t.(phase := Inserted(Transition(t.phase.seen, t.change).value)))
  {
    hide Transition, InsertAllowed;
  }

  lemma InsertKeepsApart(s: State, tx: nat, o: nat)
    requires Inv(s) && Enabled(s, Insert(tx)) && o in s.open && o != tx
    ensures Apart(Apply(s, Insert(tx)).open[tx], s.open[o]) && Apart(s.open[o], Apply(s, Insert(tx)).open[tx])
  {
    hide Transition, InsertReady, HistoryOk;
    assert TxOk(s.db, s.open[o]);
    InsertIsNext(s.db, s.open[tx]);
  }

  lemma StepKeepsHistory(s: State, step: Step, publisher: Uuid)
    requires Inv(s) && Enabled(s, step)
    ensures HistoryOk(Apply(s, step).db, publisher)
  {
    hide HistoryOk, Transition, ShareOk;
    match step
    case Register(registered, at) => RegisterKeepsHistory(s, registered, at, publisher);
    case Commit(tx) => CommitKeepsHistory(s.db, s.open[tx], publisher);
    case _ =>
  }

  lemma StepKeepsTx(s: State, step: Step, o: nat)
    requires Inv(s) && Enabled(s, step) && o in Apply(s, step).open
    ensures TxOk(Apply(s, step).db, Apply(s, step).open[o])
  {
    hide HistoryOk, Transition, InsertAllowed, ShareOk;
    match step
    case Register(publisher, at) => RegisterKeepsTx(s, publisher, at, s.open[o]);
    case Insert(tx) => InsertIsNext(s.db, s.open[tx]);
    case Commit(tx) => CommitKeepsOther(s.db, s.open[tx], s.open[o]);
    case _ =>
  }

  lemma StepKeepsApart(s: State, step: Step, a: nat, b: nat)
    requires Inv(s) && Enabled(s, step) && a in Apply(s, step).open && b in Apply(s, step).open && a != b
    ensures Apart(Apply(s, step).open[a], Apply(s, step).open[b])
  {
    hide HistoryOk, TxOk, Transition, InsertAllowed, ShareOk;
    if step.Insert? && step.tx == a {
      InsertKeepsApart(s, a, b);
    } else if step.Insert? && step.tx == b {
      InsertKeepsApart(s, b, a);
    }
  }

  lemma StepKeepsInv(s: State, step: Step)
    requires Inv(s) && Enabled(s, step)
    ensures Inv(Apply(s, step))
  {
    hide HistoryOk, TxOk, Apart, Transition, InsertAllowed;
    var u := Apply(s, step);
    forall p ensures HistoryOk(u.db, p) { StepKeepsHistory(s, step, p); }
    forall o | o in u.open ensures TxOk(u.db, u.open[o]) { StepKeepsTx(s, step, o); }
    forall a, b | a in u.open && b in u.open && a != b ensures Apart(u.open[a], u.open[b]) {
      StepKeepsApart(s, step, a, b);
    }
    forall h | h in u.shared ensures ShareOk(u, u.shared[h]) { if h in s.shared { StepKeepsShare(s, step, h); } }
  }
}
