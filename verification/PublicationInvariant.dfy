/** Every step of the delegation services keeps the tables right and every open transaction's knowledge true. */
module PublicationInvariant {
  import opened Shared
  import opened Uuids
  import opened Idempotency
  import opened Namespaces
  import opened DelegationEvents
  import opened Publication
  import Ownership = NamespaceOwnership
  import Guards = NamespaceGuards

  // ---------------------------------------------------------------- the log and the table it tells

  lemma FoldAppend(events: seq<Event>, e: Event)
    ensures Fold(events + [e]) == Fold(events)[e.subject.id := e.subject]
    ensures Consistent(events + [e]) <==> Consistent(events) && Possible(Fold(events), e.subject, e.change)
  {
    assert (events + [e])[..|events|] == events;
  }

  lemma {:induction false} FoldRowsOk(events: seq<Event>, id: Uuid)
    requires Consistent(events)
    ensures id in Fold(events) ==> Fold(events)[id].id == id && ValidDelegation(Fold(events)[id])
    ensures id in Fold(events) <==> exists i :: 0 <= i < |events| && events[i].subject.id == id
  {
    if events != [] {
      var n := |events| - 1;
      FoldRowsOk(events[..n], id);
      if id in Fold(events[..n]) {
        var i :| 0 <= i < n && events[..n][i].subject.id == id;
        assert events[i].subject.id == id;
      } else if events[n].subject.id != id {
        forall i | 0 <= i < |events| ensures events[i].subject.id != id {
          if i < n { assert events[..n][i] == events[i]; }
        }
      }
    }
  }

  /** What a command asked for, its event's delegation stays. */
  lemma {:induction false} FoldKeepsAsked(events: seq<Event>, i: nat, c: Command)
    requires Consistent(events) && i < |events| && Asked(c, events[i].subject)
    ensures var id := events[i].subject.id; id in Fold(events) && Asked(c, Fold(events)[id])
  {
    hide ValidDelegation, ReasonCode;
    var n := |events| - 1;
    if i < n {
      assert events[..n][i] == events[i];
      FoldKeepsAsked(events[..n], i, c);
    }
  }

  /** A committed record names, by its text, a delegation of the table, which is what its request asked for. */
  lemma RecordNamesRow(db: Db, key: Key) returns (i: nat)
    requires LogOk(db) && OriginsOk(db) && Laws(db.setup) && key in db.records
    ensures i < |db.events| == |db.requests|
    ensures OriginOk(db.setup, db.records, key, db.requests[i], db.events[i])
    ensures var id := db.events[i].subject.id;
            && db.setup.parse(db.setup.text(id)) == Some(id) && ValidUuid(id)
            && id in db.delegations && db.delegations[id].id == id && Asked(db.requests[i].command, db.delegations[id])
  {
    i :| 0 <= i < |db.origins| && db.origins[i] == key;
    assert OriginAt(db, i);
    hide ValidPath, BoundedText, ReasonCode, OriginsOk;
    FoldRowsOk(db.events, db.events[i].subject.id);
    FoldKeepsAsked(db.events, i, db.requests[i].command);
  }

  // ---------------------------------------------------------------- a commit keeps the tables right

  lemma CommitKeepsLog(db: Db, t: Tx)
    requires LogOk(db) && t.phase.Finished? && RowOk(db, t) && EventOk(db, t)
    ensures LogOk(Merged(db, t))
  {
    hide ValidPath, ReasonCode, ValidUuid, Possible, InsertStands, Asked, Fold, Consistent, ValidDelegation, KeyOf;
    FoldAppend(db.events, t.phase.event);
  }

  lemma CommitKeepsOrigins(db: Db, t: Tx)
    requires OriginsOk(db) && TxOk(db, t) && t.phase.Finished?
    ensures OriginsOk(Merged(db, t))
  {
    hide ValidPath, BoundedText, ReasonCode, ValidUuid, Possible, InsertStands, Asked, IdTaken;
    var after := Merged(db, t);
    forall i | 0 <= i < |db.origins| ensures db.origins[i] in db.records { assert OriginAt(db, i); }
    forall i | 0 <= i < |after.events| ensures OriginAt(after, i) {
      if i < |db.events| { assert OriginAt(db, i); }
    }
    assert after.origins[|db.origins|] == KeyOf(t.request);
    forall k | k in after.records ensures k in after.origins { assert k == KeyOf(t.request) || k in db.origins; }
  }

  /** What the commit writes was let in by the guards, or revokes an active delegation. */
  lemma CommitKeepsTables(db: Db, t: Tx)
    requires Ownership.Inv(TablesOf(db)) && t.phase.Finished? && RowOk(db, t)
    ensures Ownership.Inv(TablesOf(Merged(db, t)))
  {
    hide ValidPath, ReasonCode, ValidDelegation, Ownership.Inv, Ownership.Insertable;
    if t.request.command.Create? {
      Ownership.NewDelegationKeepsInv(TablesOf(db), t.phase.result);
    } else {
      Ownership.RevocationKeepsInv(TablesOf(db), t.phase.result);
    }
  }

  lemma CommitKeepsDb(db: Db, t: Tx)
    requires DbOk(db) && TxOk(db, t) && t.phase.Finished?
    ensures DbOk(Merged(db, t))
  {
    hide LogOk, OriginsOk, Ownership.Inv, RowOk, EventOk, KeyOk, AnswerOk, RequestOk;
    CommitKeepsLog(db, t);
    CommitKeepsOrigins(db, t);
    CommitKeepsTables(db, t);
  }

  // ---------------------------------------------------------------- a commit disturbs no other open transaction

  lemma CommitKeepsAnswer(db: Db, t: Tx, o: Tx)
    requires AnswerOk(db, o) && t.phase.Finished? && KeyOk(db, t) && RowOk(db, t)
    ensures AnswerOk(Merged(db, t), o)
  {
    hide ValidPath, ValidUuid, ReasonCode, InsertStands, Asked, OutcomeOf, IdTaken;
  }

  lemma CommitKeepsKey(db: Db, t: Tx, o: Tx)
    requires KeyOk(db, o) && t.phase.Finished? && Apart(t, o)
    ensures KeyOk(Merged(db, t), o)
  {
    hide OutcomeOf;
  }

  lemma CommitKeepsRow(db: Db, t: Tx, o: Tx)
    requires RowOk(db, t) && RowOk(db, o) && t.phase.Finished? && Apart(t, o)
    ensures RowOk(Merged(db, t), o)
  {
    hide ValidPath, ValidUuid, ReasonCode, ValidDelegation, InsertStands;
    if HoldsRow(o) && o.request.command.Create? {
      if t.request.command.Create? {
        InsertSurvivesInsert(TablesOf(db), t.phase.result, o.phase.result);
      } else {
        InsertSurvivesRevocation(TablesOf(db), t.phase.result, o.phase.result);
      }
    }
  }

  /** An insert elsewhere changes nothing for this one. */
  lemma InsertSurvivesInsert(tables: Ownership.Tables, other: Delegation, d: Delegation)
    requires InsertStands(tables, d) && other.id != d.id && other.id !in tables.delegations
    requires other.namespaceId != d.namespaceId && other.childPrefix != d.childPrefix
    ensures InsertStands(tables.(delegations := tables.delegations[other.id := other]), d)
  {
    hide ValidDelegation, Ownership.Nested;
    var after := tables.(delegations := tables.delegations[other.id := other]);
    assert forall id | Ownership.IsActive(after, id) :: id == other.id || Ownership.IsActive(tables, id);
  }

  lemma InsertSurvivesRevocation(tables: Ownership.Tables, other: Delegation, d: Delegation)
    requires InsertStands(tables, d) && other.id != d.id && other.state.Revoked?
    ensures InsertStands(tables.(delegations := tables.delegations[other.id := other]), d)
  {
    hide ValidDelegation, Ownership.Nested;
    var after := tables.(delegations := tables.delegations[other.id := other]);
    assert forall id | Ownership.IsActive(after, id) ::
        Ownership.IsActive(tables, id) && after.delegations[id] == tables.delegations[id];
  }

  lemma CommitKeepsOther(db: Db, t: Tx, o: Tx)
    requires TxOk(db, t) && TxOk(db, o) && t.phase.Finished? && Apart(t, o)
    ensures TxOk(Merged(db, t), o)
  {
    CommitKeepsAnswer(db, t, o);
    CommitKeepsKey(db, t, o);
    CommitKeepsRow(db, t, o);
    hide AnswerOk, KeyOk, RowOk, RequestOk, Merged;
    assert !HoldsAllocator(o);
    assert Merged(db, t).setup == db.setup by { MergedKeepsSetup(db, t); }
  }

  lemma MergedKeepsSetup(db: Db, t: Tx)
    requires t.phase.Finished?
    ensures Merged(db, t).setup == db.setup
  {
  }

  // ---------------------------------------------------------------- other services disturb none

  lemma NamespaceKeepsTx(s: State, step: Step, o: nat)
    requires Enabled(s, step) && step.NewNamespace? && o in s.open && TxOk(s.db, s.open[o])
    ensures TxOk(Apply(s, step).db, s.open[o])
  {
    hide ValidPath, ValidUuid, ReasonCode, ValidDelegation, OutcomeOf, RequestOk, Guards.DelegationAt, Ownership.Nested;
    Guards.RootRefusalIsExact(TablesOf(s.db), step.value);
  }

  lemma PublisherKeepsTx(s: State, step: Step, o: nat)
    requires Enabled(s, step) && step.ChangePublisher? && o in s.open && TxOk(s.db, s.open[o])
    ensures TxOk(Apply(s, step).db, s.open[o])
  {
    hide ValidPath, ValidUuid, ReasonCode, ValidDelegation, OutcomeOf, RequestOk, Ownership.Nested;
  }

  /** Other services write neither records nor messages. */
  lemma ForeignKeepsLog(a: Db, b: Db)
    requires LogOk(a) && OriginsOk(a)
    requires b == a.(publishers := b.publishers, namespaces := b.namespaces)
    ensures LogOk(b) && OriginsOk(b)
  {
    hide Consistent, Fold, OriginOk;
    forall i | 0 <= i < |b.events| ensures OriginAt(b, i) { assert OriginAt(a, i); }
  }

  lemma ForeignKeepsDb(s: State, step: Step)
    requires DbOk(s.db) && Enabled(s, step) && Foreign(step)
    ensures DbOk(Apply(s, step).db)
  {
    hide ValidPath, Ownership.Inv, LogOk, OriginsOk, Guards.RootRefusal, PrefixFree, PublisherFree;
    if step.NewNamespace? {
      Guards.RootRefusalIsExact(TablesOf(s.db), step.value);
      Ownership.NewRootKeepsInv(TablesOf(s.db), step.value);
    } else {
      Ownership.PublisherChangeKeepsInv(TablesOf(s.db), step.publisher, step.state);
    }
    ForeignKeepsLog(s.db, Apply(s, step).db);
  }

  // ---------------------------------------------------------------- each call leaves its own transaction right

  lemma CallKeepsTx(db: Db, step: Step, t: Tx)
    requires DbOk(db) && TxOk(db, t) && Ready(db, step, t) && Continues(step)
    ensures TxOk(db, t.(phase := NextPhase(db, step, t)))
  {
    hide ValidPath, ReasonCode, DbOk, ValidDelegation, Asked, Possible, InsertStands, FreshEvent, Shows, RequestOk;
    match step
    case Acquire(_, _) =>
    case Replay(_) => ReplayKeepsTx(db, t);
    case LockNamespace(_, newId) => DraftIsAsked(db, t.request, newId);
    case LockPrefix(_) =>
    case Mutate(_) => WriteKeepsTx(db, t);
    case Allocate(_) =>
    case RecordEvent(_, _) =>
    case Complete(_) =>
    case Unwind(_) => UnwindKeepsTx(db, t);
  }

  lemma ReplayKeepsTx(db: Db, t: Tx)
    requires DbOk(db) && TxOk(db, t) && t.phase.Found? && Replayed(db, t.phase.stored, t.request.command).Ok?
    ensures TxOk(db, t.(phase := Answering(Replayed(db, t.phase.stored, t.request.command).value)))
  {
    hide ValidPath, BoundedText, ReasonCode, LogOk, OriginsOk, Ownership.Inv;
    var i := RecordNamesRow(db, KeyOf(t.request));
    assert db.requests[i].command == t.request.command;
  }

  lemma DraftIsAsked(db: Db, r: Request, newId: Uuid)
    requires r.command.Create? && Drafted(db, r, newId).Ok?
    ensures var d := Drafted(db, r, newId).value;
            ValidDelegation(d) && d.state.Active? && Asked(r.command, d) && d.createdAt == StoredTime(r.now)
  {
    hide ValidPath, ValidUuid;
  }

  lemma WriteKeepsTx(db: Db, t: Tx)
    requires DbOk(db) && TxOk(db, t) && AtWrite(t) && Mutated(db, t).Ok?
    ensures var d := Mutated(db, t).value;
            RowOk(db, t.(phase := Changed(t.phase.own, d, FactOf(t.request.command, d.id))))
  {
    if t.request.command.Create? {
      DraftStands(db, t);
    } else {
      WithdrawnIsPossible(db, t.request);
    }
  }

  lemma DraftStands(db: Db, t: Tx)
    requires Ownership.Inv(TablesOf(db)) && RowOk(db, t) && t.phase.Naming? && t.request.command.Create?
    requires Mutated(db, t).Ok?
    ensures Mutated(db, t).value == t.phase.draft && InsertStands(TablesOf(db), t.phase.draft)
    ensures Possible(db.delegations, t.phase.draft, Delegated) && Asked(t.request.command, t.phase.draft)
  {
    hide ValidPath, ValidUuid, Ownership.Inv, Guards.InsertRefusal, ValidDelegation;
    Guards.RefusalIsExact(TablesOf(db), t.phase.draft);
  }

  lemma WithdrawnIsPossible(db: Db, r: Request)
    requires LogOk(db) && RequestOk(db.setup, r) && r.command.Revoke? && Withdrawn(db, r).Ok?
    ensures var d := Withdrawn(db, r).value; Possible(db.delegations, d, ChangeOf(r.command)) && Asked(r.command, d)
  {
    hide ValidPath, BoundedText, ReasonCode;
    FoldRowsOk(db.events, r.command.delegationId);
  }

  /** Rolled back, a transaction knows what it knew. */
  lemma UnwindKeepsTx(db: Db, t: Tx)
    requires TxOk(db, t) && !t.phase.Started?
    ensures TxOk(db, t.(phase := Before(t)))
  {
    hide ValidPath, ValidUuid, ReasonCode, ValidDelegation, RequestOk, OutcomeOf, IdTaken, InsertStands;
  }

  /** Each call takes only locks that are free. */
  lemma CallKeepsApart(s: State, step: Step, o: nat)
    requires step.tx in s.open && Ready(s.db, step, s.open[step.tx]) && LocksFree(s, step, s.open[step.tx])
             && Continues(step)
    requires o in s.open && o != step.tx && Apart(s.open[step.tx], s.open[o])
    ensures var t := s.open[step.tx].(phase := NextPhase(s.db, step, s.open[step.tx]));
            Apart(t, s.open[o]) && Apart(s.open[o], t)
  {
    hide Mutated, Replayed, Drafted, ValidUuid, IdTaken, KeyOf;
  }

  /** A transaction that has only begun knows and holds nothing. */
  lemma BeginIsHarmless(db: Db, r: Request, o: Tx)
    requires RequestOk(db.setup, r)
    ensures TxOk(db, Tx(r, Started)) && Apart(Tx(r, Started), o) && Apart(o, Tx(r, Started))
  {
    hide RequestOk;
  }

  lemma BeginKeepsInv(s: State, step: Step)
    requires Inv(s) && Enabled(s, step) && step.Begin?
    ensures Inv(Apply(s, step))
  {
    hide DbOk, TxOk, Apart, Ready, LocksFree, RequestOk;
    var u := Apply(s, step);
    BeginIsAllowed(s, step);
    BeginIsHarmless(s.db, step.request, Tx(step.request, Started));
    forall o | o in s.open ensures Apart(u.open[step.tx], u.open[o]) && Apart(u.open[o], u.open[step.tx]) {
      BeginIsHarmless(s.db, step.request, s.open[o]);
    }
  }

  lemma CommitKeepsInv(s: State, step: Step)
    requires Inv(s) && Enabled(s, step) && step.Commit?
    ensures Inv(Apply(s, step))
  {
    hide DbOk, TxOk, Apart, LocksFree, Merged;
    var u := Apply(s, step);
    if s.open[step.tx].phase.Finished? {
      CommitKeepsDb(s.db, s.open[step.tx]);
      forall o | o in u.open ensures TxOk(u.db, u.open[o]) { CommitKeepsOther(s.db, s.open[step.tx], s.open[o]); }
    }
  }

  lemma CallKeepsInv(s: State, step: Step)
    requires Inv(s) && Enabled(s, step) && Continues(step)
    ensures Inv(Apply(s, step))
  {
    hide DbOk, TxOk, Apart, Ready, LocksFree, NextPhase;
    var u := Apply(s, step);
    CallKeepsTx(s.db, step, s.open[step.tx]);
    forall o | o in s.open && o != step.tx
      ensures Apart(u.open[step.tx], u.open[o]) && Apart(u.open[o], u.open[step.tx]) && u.open[o] == s.open[o]
    {
      CallKeepsApart(s, step, o);
    }
  }

  lemma StepKeepsInv(s: State, step: Step)
    requires Inv(s) && Enabled(s, step)
    ensures Inv(Apply(s, step))
  {
    hide DbOk, TxOk, Apart, Ready, LocksFree, NextPhase, Merged, OpensRightly;
    var u := Apply(s, step);
    match step
    case Begin(_, _) => BeginKeepsInv(s, step);
    case NewNamespace(_, _) =>
      ForeignKeepsDb(s, step);
      forall o | o in u.open ensures TxOk(u.db, u.open[o]) { NamespaceKeepsTx(s, step, o); }
    case ChangePublisher(_, _, _) =>
      ForeignKeepsDb(s, step);
      forall o | o in u.open ensures TxOk(u.db, u.open[o]) { PublisherKeepsTx(s, step, o); }
    case Commit(_) => CommitKeepsInv(s, step);
    case Abort(_) =>
    case _ => CallKeepsInv(s, step);
  }

  lemma BeginIsAllowed(s: State, step: Step)
    requires step.Begin? && Enabled(s, step)
    ensures RequestOk(s.db.setup, step.request)
  {
  }
}
