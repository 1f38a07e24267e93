/** ChangeState as it runs: a read, an insert, an update and a commit in one transaction, other callers' steps
    falling anywhere between them. */
module PublisherRepository {
  import opened Shared
  import opened Uuids
  import opened PublisherStates
  import opened Publishers
  import Runs = PublisherRuns

  datatype Publisher = Publisher(id: Uuid, state: PublisherState, version: int)

  predicate Takes(step: Step, tx: nat) {
    !Elsewhere(step) && step.tx == tx
  }

  /** The transaction has not committed since. */
  ghost predicate Uncommitted(history: seq<Step>, since: nat, tx: nat) {
    forall i | since <= i < |history| :: history[i] != Commit(tx)
  }

  class Repository {
    var db: Db
    var open: map<nat, Tx>
    var shared: map<nat, Uuid>
    ghost var history: seq<Step>

    ghost function Now(): State
      reads this
    {
      State(db, open, shared)
    }

    /** The tables and open transactions are those of a run from the empty tables. */
    ghost predicate Reachable()
      reads this
    {
      Runs.Valid(history) && Runs.Run(history) == Now()
    }

    constructor ()
      ensures Reachable() && Now() == Init() && history == []
    {
      db, open, shared, history := Init().db, map[], map[], [];
    }

    method Perform(step: Step)
      requires Reachable() && Enabled(Now(), step)
      modifies this
      ensures Reachable() && history == old(history) + [step] && Now() == Apply(old(Now()), step)
    {
      hide Enabled, Apply;
      Runs.RunSnoc(history, step);
      var after := Apply(State(db, open, shared), step);
      db, open, shared := after.db, after.open, after.shared;
      history := history + [step];
    }

    /** What other callers do meanwhile; nothing while it is calm. */
    method Others(tx: nat, calm: bool)
      requires Reachable()
      modifies this
      ensures Reachable() && old(history) <= history && Runs.Extends(old(db), db)
      ensures Uncommitted(history, |old(history)|, tx)
      ensures tx in open <==> tx in old(open)
      ensures tx in open ==> open[tx] == old(open)[tx]
      ensures calm ==> Now() == old(Now())
    {
      hide Enabled, Apply, Inv;
      if calm { return; }
      var steps: seq<Step> := *;
      for i := 0 to |steps|
        invariant Reachable() && old(history) <= history && Runs.Extends(old(db), db)
        invariant Uncommitted(history, |old(history)|, tx)
        invariant tx in open <==> tx in old(open)
        invariant tx in open ==> open[tx] == old(open)[tx]
      {
        if !Takes(steps[i], tx) && Enabled(State(db, open, shared), steps[i]) {
          Runs.OthersDoNotTouch(Now(), steps[i], tx);
          Runs.RunKeepsInv(history);
          Runs.StepExtends(Now(), steps[i]);
          Perform(steps[i]);
        }
      }
    }

    method GiveUp(tx: nat)
      requires Reachable() && tx in open
      modifies this
      ensures Reachable() && history == old(history) + [Abort(tx)] && db == old(db)
      ensures open == old(open) - {tx} && shared == old(shared)
    {
      Perform(Abort(tx));
    }

    /** The read: the current state, if it is of the expected version and may be left for the requested one. */
    method ReadCurrent(tx: nat, calm: bool) returns (r: Status)
      requires Reachable() && tx in open && open[tx].phase.Started?
      modifies this
      ensures Reachable() && old(history) <= history && Uncommitted(history, |old(history)|, tx)
              && Runs.Extends(old(db), db)
      ensures tx in open && open[tx].change == old(open)[tx].change
      ensures r.Done? ==>
                && open[tx].phase.Read? && Transition(open[tx].phase.seen, open[tx].change).Ok?
                && !Superseded(old(db), old(open)[tx].change)
      ensures r.Failed? ==> Refuses(old(db), db, old(open)[tx].change, r.error)
      ensures calm ==>
                var read := Readable(old(db), old(open)[tx].change);
                && db == old(db) && shared == old(shared)
                && (if read.Ok? then r.Done? && open == old(open)[tx := old(open)[tx].(phase := Read(read.value))]
                    else r == Failed(read.error) && forall o | o in open :: o in old(open))
    {
      Others(tx, calm);
      var c := open[tx].change;
      Runs.RunKeepsInv(history);
      assert HistoryOk(db, c.publisher);
      var up: bool := *;
      if !up && !calm { return Failed(UNAVAILABLE); }
      var row := Selected(db, c.publisher);
      if row.None? { return Failed(NOT_FOUND); }
      if row.value.1 != c.expected { return Failed(STALE); }
      Perform(Select(tx));
      var next := Transition(row.value.0, c);
      r := if next.Ok? then Done else Failed(next.error);
    }

    /** The insert of the next record, which the primary key may refuse. */
    method InsertRecord(tx: nat, calm: bool) returns (r: Status)
      requires Reachable() && tx in open && open[tx].phase.Read? && Transition(open[tx].phase.seen, open[tx].change).Ok?
      modifies this
      ensures Reachable() && old(history) <= history && Uncommitted(history, |old(history)|, tx)
              && Runs.Extends(old(db), db)
      ensures tx in open && open[tx].change == old(open)[tx].change
      ensures r.Done? ==> open[tx].phase.Inserted?
      ensures r.Failed? ==> r.error == UNAVAILABLE || (r.error == STALE && Superseded(db, open[tx].change))
      ensures calm && (forall o | o in old(open) :: o == tx) && UpdateReady(old(db), open[tx].change) ==>
                && r.Done? && db == old(db) && shared == old(shared)
                && var record := Transition(old(open)[tx].phase.seen, open[tx].change).value;
                   open == old(open)[tx := old(open)[tx].(phase := Inserted(record))]
    {
      hide Transition, Runs.Valid, Runs.Run;
      Others(tx, calm);
      Runs.RunKeepsInv(history);
      var t := open[tx];
      var up: bool := *;
      if (!up && !calm) || !KeyFree(State(db, open, shared), tx, RecordKey(t.change)) { return Failed(UNAVAILABLE); }
      if RecordKey(t.change) in db.records {
        assert HistoryOk(db, t.change.publisher);
        return Failed(STALE);
      }
      TriggerAgrees(Now(), tx);
      Perform(Insert(tx));
      r := Done;
    }

    /** The compare-and-swap, which now always finds the version it expects, once nobody shares the row. */
    method UpdateCurrent(tx: nat, calm: bool) returns (r: Status)
      requires Reachable() && tx in open && open[tx].phase.Inserted?
      modifies this
      ensures Reachable() && old(history) <= history && Uncommitted(history, |old(history)|, tx)
              && Runs.Extends(old(db), db)
      ensures tx in open && open[tx].change == old(open)[tx].change
      ensures r.Done? ==> open[tx].phase == Updated(old(open)[tx].phase.record)
      ensures r.Failed? ==> r.error == UNAVAILABLE
      ensures calm && old(shared) == map[] ==>
                r.Done? && db == old(db) && open == old(open)[tx := open[tx]] && shared == old(shared)
    {
      hide Transition, Runs.Valid, Runs.Run;
      Others(tx, calm);
      var up: bool := *;
      if !up && !calm { return Failed(UNAVAILABLE); }
      Runs.RunKeepsInv(history);
      Runs.InsertDecides(Now(), tx);
      if !Unshared(State(db, open, shared), open[tx].change.publisher) { return Failed(UNAVAILABLE); }
      Perform(Update(tx));
      r := Done;
    }

    /** The audit fact, whose write may fail on its own, and the commit. */
    method CommitChange(tx: nat, calm: bool) returns (r: Status)
      requires Reachable() && tx in open && open[tx].phase.Updated?
      modifies this
      ensures Reachable() && old(history) <= history && Runs.Extends(old(db), db)
      ensures r.Done? ==> |history| > |old(history)| && history[|history| - 1] == Commit(tx) && tx !in open
      ensures r.Done? ==> Stored(db, old(open)[tx].change) && Latest(db, old(open)[tx].change)
      ensures r.Failed? ==>
                (r.error == AUDIT_UNAVAILABLE || r.error == UNAVAILABLE)
                    && Uncommitted(history, |old(history)|, tx) && tx in open
      ensures calm ==>
                r.Done? && open == old(open) - {tx} && shared == old(shared) && db == Written(old(db), old(open)[tx])
    {
      hide Transition, Runs.Valid, Runs.Run;
      Others(tx, calm);
      var audited: bool, up: bool := *, *;
      if !audited && !calm { return Failed(AUDIT_UNAVAILABLE); }
      if !up && !calm { return Failed(UNAVAILABLE); }
      Runs.RunKeepsInv(history);
      Runs.CommitWritesTransition(Now(), Commit(tx));
      Runs.StepExtends(Now(), Commit(tx));
      Perform(Commit(tx));
      r := Done;
    }

    method Start(tx: nat, c: Change)
      requires Reachable() && tx !in open && c.expected >= 1
      modifies this
      ensures Reachable() && history == old(history) + [Begin(tx, c)] && db == old(db)
      ensures open == old(open)[tx := Tx(c, Started)] && shared == old(shared)
    {
      Perform(Begin(tx, c));
    }

    /** The statements of one change, in order. */
    method Statements(tx: nat, calm: bool) returns (r: Status)
      requires Reachable() && tx in open && open[tx].phase.Started?
      modifies this
      ensures Reachable() && old(history) <= history && Uncommitted(history, |old(history)|, tx)
              && Runs.Extends(old(db), db)
      ensures tx in open && open[tx].change == old(open)[tx].change
      ensures r.Done? ==> open[tx].phase.Updated? && !Superseded(old(db), open[tx].change)
      ensures r.Failed? ==> Refuses(old(db), db, open[tx].change, r.error)
      ensures calm && (forall o | o in old(open) :: o == tx) && old(shared) == map[] ==>
                && db == old(db) && (forall o | o in open :: o == tx) && shared == map[]
                && var read := Readable(old(db), open[tx].change);
                   if read.Ok? then r.Done? && open[tx].phase.record == Transition(read.value, open[tx].change).value
                   else r == Failed(read.error)
    {
      hide Transition, Superseded, Refuses, Reachable, Runs.Extends;
      ghost var before := db;
      r := ReadCurrent(tx, calm);
      if r.Failed? { return; }
      ghost var between := db;
      r := InsertRecord(tx, calm);
      ExtendsFurther(before, between, db);
      if r.Failed? {
        ContentionIsRefusal(before, db, open[tx].change, r.error);
        return;
      }
      between := db;
      r := UpdateCurrent(tx, calm);
      ExtendsFurther(before, between, db);
      if r.Failed? { ContentionIsRefusal(before, db, open[tx].change, r.error); }
    }

    /** The statements and the commit of one change, or none of it. */
    method Attempt(tx: nat, c: Change, calm: bool) returns (r: Status)
      requires Reachable() && tx !in open && c.expected >= 1
      modifies this
      ensures Reachable() && old(history) <= history && tx !in open && Runs.Extends(old(db), db)
      ensures r.Done? ==>
                && |history| > |old(history)| && history[|history| - 1] == Commit(tx)
                && Stored(db, c) && Latest(db, c) && !Superseded(old(db), c)
      ensures r.Failed? ==> Uncommitted(history, |old(history)|, tx) && Refuses(old(db), db, c, r.error)
      ensures calm && old(open) == map[] && old(shared) == map[] ==> open == map[] && Changed(old(db), c, db, r)
    {
      hide Transition, Stored, Latest, Superseded, Refuses, Reachable, Runs.Extends;
      ghost var before := db;
      Start(tx, c);
      r := Statements(tx, calm);
      if r.Done? {
        ghost var between := db;
        r := CommitChange(tx, calm);
        ExtendsFurther(before, between, db);
      }
      if r.Failed? {
        GiveUp(tx);
        if IsOutage(r.error) { ContentionIsRefusal(before, db, c, r.error); }
      }
    }

    lemma HistoryHolds(publisher: Uuid)
      requires Reachable()
      ensures HistoryOk(db, publisher)
    {
      hide HistoryOk, TxOk;
      Runs.RunKeepsInv(history);
    }

    /** Applies a transition to the version the caller expects. */
    method ChangeState(tx: nat, c: Change, calm: bool) returns (r: Result<Publisher>)
      requires Reachable() && tx !in open
      modifies this
      ensures Reachable() && old(history) <= history && tx !in open && Runs.Extends(old(db), db)
      // Success means that this call stored the transition from the expected version, and that is what it returns.
      ensures r.Ok? ==>
          Commit(tx) in history[|old(history)|..] && Stored(db, c)
              && r.value == Publisher(c.publisher, c.to, c.expected + 1)
      // The version returned is the current one, and its record says what was asked for.
      ensures r.Ok? ==>
          && c.publisher in db.current && r.value.version == db.current[c.publisher] == c.expected + 1
          && (c.publisher, c.expected + 1) in db.records
          && db.records[(c.publisher, c.expected + 1)]
               == StateRecord(c.to, Some(c.reason), c.explanation, StoredTime(c.at))
          && r.value.state == db.records[(c.publisher, c.expected + 1)].state
      // A call that fails has written nothing, unless only the reply to its commit was lost.
      ensures r.Err? && Commit(tx) in history[|old(history)|..] ==> r.error == UNAVAILABLE
      ensures r.Err? && ValidUuid(c.publisher) && c.expected >= 1 ==> Refuses(old(db), db, c, r.error)
      // Malformed arguments are refused before anything is opened.
      ensures !ValidUuid(c.publisher) ==> r == Err(Error(Invalid, "publisher.invalid_id")) && Now() == old(Now())
      ensures ValidUuid(c.publisher) && c.expected < 1 ==>
                r == Err(Error(Invalid, "publisher.invalid_state_version")) && Now() == old(Now())
      // A superseded version is never changed again.
      ensures Superseded(old(db), c) ==> r.Err? && Commit(tx) !in history[|old(history)|..]
      // While nothing disturbs it and nobody shares a publisher's row, the call does exactly what it is for, or gives
      // the exact reason why not.
      ensures calm && old(open) == map[] && old(shared) == map[] && ValidUuid(c.publisher) && c.expected >= 1 ==>
                && open == map[] && Changed(old(db), c, db, if r.Ok? then Done else Failed(r.error))
                && AsAsked(old(db), c, db, r)
    {
      hide Transition, Stored, Latest, Refuses, Reachable, Changed, AsAsked, HistoryOk;
      if !ValidUuid(c.publisher) { return Err(Error(Invalid, "publisher.invalid_id")); }
      if c.expected < 1 { return Err(Error(Invalid, "publisher.invalid_state_version")); }
      HistoryHolds(c.publisher);
      Others(tx, calm);
      ghost var started := db;
      var up: bool := *;
      if !up && !calm {
        ContentionIsRefusal(old(db), db, c, TRANSACTION_UNAVAILABLE);
        return Err(TRANSACTION_UNAVAILABLE);
      }
      var s := Attempt(tx, c, calm);
      if s.Failed? {
        RefusalFromEarlier(old(db), started, db, c, s.error);
        if calm && old(open) == map[] && old(shared) == map[] { ChangedIsAsAsked(old(db), c, db, Err(s.error)); }
        return Err(s.error);
      }
      assert history[|old(history)|..][|history| - 1 - |old(history)|] == Commit(tx);
      StoredAsAsked(db, c);
      ContentionIsRefusal(old(db), db, c, UNAVAILABLE);
      var heard: bool := *;
      r := if heard || calm then Ok(Publisher(c.publisher, c.to, c.expected + 1)) else Err(UNAVAILABLE);
      if calm && old(open) == map[] && old(shared) == map[] { ChangedIsAsAsked(old(db), c, db, r); }
    }
  }

  /** The state a change starts from, or why there is none. */
  function Readable(db: Db, c: Change): Result<PublisherState> {
    var row := Selected(db, c.publisher);
    if row.None? then Err(NOT_FOUND)
    else if row.value.1 != c.expected then Err(STALE)
    else
      var next := Transition(row.value.0, c);
      if next.Err? then Err(next.error) else Ok(row.value.0)
  }

  /** The change is made in full, or refused for what was read. */
  predicate Changed(before: Db, c: Change, after: Db, r: Status) {
    var read := Readable(before, c);
    if read.Ok? then
      && r.Done?
      && after == Db(
           before.records[RecordKey(c) := Transition(read.value, c).value],
           before.current[c.publisher := c.expected + 1])
    else r == Failed(read.error) && after == before
  }

  /** The errors of a call whose transaction cannot be opened, whose audit fact cannot be written, or which the database
      otherwise leaves without an answer. */
  predicate IsOutage(e: Error) {
    e == TRANSACTION_UNAVAILABLE || e == AUDIT_UNAVAILABLE || e == UNAVAILABLE
  }

  /** Why a call fails that began when the committed rows were `before` and ended when they were `after`: an unknown
      publisher, a transition that the stored state forbids, or a version that another writer has taken or is taking. */
  ghost predicate Refuses(before: Db, after: Db, c: Change, e: Error) {
    || IsOutage(e)
    || (e == STALE && (Superseded(after, c) || Unreached(before, c)))
    || (e == NOT_FOUND && c.publisher !in before.current)
    || (!Superseded(before, c) && (c.publisher, c.expected) in after.records
        && Transition(after.records[(c.publisher, c.expected)].state, c) == Err(e))
  }

  lemma ExtendsFurther(a: Db, b: Db, c: Db)
    requires Runs.Extends(a, b) && Runs.Extends(b, c)
    ensures Runs.Extends(a, c)
  {
  }

  lemma ContentionIsRefusal(before: Db, after: Db, c: Change, e: Error)
    requires IsOutage(e) || (e == STALE && Superseded(after, c))
    ensures Refuses(before, after, c, e)
  {
  }

  lemma RefusalFromEarlier(first: Db, before: Db, after: Db, c: Change, e: Error)
    requires Runs.Extends(first, before) && Refuses(before, after, c, e)
    ensures Refuses(first, after, c, e)
  {
  }

  /** The change as it was asked for, in full: which record it adds and which version becomes current; or why it is
      refused, the publisher, its version, the change of state and its metadata looked at in this order. */
  ghost predicate AsAsked(before: Db, c: Change, after: Db, r: Result<Publisher>) {
    var known := c.publisher in before.current;
    if !known then r == Err(Error(NotFound, "publisher.not_found")) && after == before
    else if before.current[c.publisher] != c.expected then
      r == Err(Error(Conflict, "publisher.stale_state_version")) && after == before
    else
      && (c.publisher, c.expected) in before.records
      && var from := before.records[(c.publisher, c.expected)].state;
         if (from, c.to) !in Runs.SEVEN_CHANGES || c.reason == "" || c.at == ZERO_NANOS then
           r == Err(Error(Conflict, "publisher.invalid_transition")) && after == before
         else if |c.explanation| > 4096 || exists i :: 0 <= i < |c.explanation| && IsControl(c.explanation[i]) then
           r == Err(Error(Invalid, "publisher.invalid_transition_metadata")) && after == before
         else
           && r == Ok(Publisher(c.publisher, c.to, c.expected + 1))
           && after == Db(
                before.records[(c.publisher, c.expected + 1)
                  := StateRecord(c.to, Some(c.reason), c.explanation, StoredTime(c.at))],
                before.current[c.publisher := c.expected + 1])
  }

  lemma ChangedIsAsAsked(before: Db, c: Change, after: Db, r: Result<Publisher>)
    requires HistoryOk(before, c.publisher) && Changed(before, c, after, if r.Ok? then Done else Failed(r.error))
    requires r.Ok? ==> r.value == Publisher(c.publisher, c.to, c.expected + 1)
    ensures AsAsked(before, c, after, r)
  {
    hide InsertAllowed, Transition;
    if (c.publisher, c.expected) in before.records {
      Runs.TransitionStoresWhatWasAsked(before.records[(c.publisher, c.expected)].state, c);
    }
  }

  /** The version the change makes is the current one. */
  predicate Latest(db: Db, c: Change) {
    c.publisher in db.current && db.current[c.publisher] == c.expected + 1
  }

  lemma StoredAsAsked(db: Db, c: Change)
    requires Stored(db, c) && Latest(db, c)
    ensures c.publisher in db.current && db.current[c.publisher] == c.expected + 1
    ensures (c.publisher, c.expected + 1) in db.records
    ensures db.records[(c.publisher, c.expected + 1)]
         == StateRecord(c.to, Some(c.reason), c.explanation, StoredTime(c.at))
  {
    Runs.TransitionStoresWhatWasAsked(db.records[(c.publisher, c.expected)].state, c);
  }

  predicate Superseded(db: Db, c: Change) {
    c.publisher in db.current && db.current[c.publisher] > c.expected
  }

  predicate Unreached(db: Db, c: Change) {
    c.publisher in db.current ==> db.current[c.publisher] < c.expected
  }

  /** The change is stored: its record is the transition from the record of the version it expected. */
  ghost predicate Stored(db: Db, c: Change) {
    && (c.publisher, c.expected) in db.records && RecordKey(c) in db.records
    && Transition(db.records[(c.publisher, c.expected)].state, c) == Ok(db.records[RecordKey(c)])
  }

  /** The insert trigger refuses nothing that the domain transition allows. */
  lemma TriggerAgrees(s: State, tx: nat)
    requires Inv(s) && tx in s.open && s.open[tx].phase.Read?
             && Transition(s.open[tx].phase.seen, s.open[tx].change).Ok?
    requires RecordKey(s.open[tx].change) !in s.db.records && KeyFree(s, tx, RecordKey(s.open[tx].change))
    ensures Enabled(s, Insert(tx))
  {
    assert TxOk(s.db, s.open[tx]);
  }
}
