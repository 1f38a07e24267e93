/** From the delegation services to the delivery of their messages: which committed messages a worker can ever read. A
    message's payload keeps its request's time to the nanosecond, its row to the microsecond, and every read compares
    the two. */
module OutboxReadability {
  import opened Shared
  import opened Uuids
  import opened Idempotency
  import opened Namespaces
  import opened DelegationEvents
  import opened Publication
  import Guards = NamespaceGuards
  import Outbox
  import OutboxRepository
  import OutboxRuns
  import Ownership = NamespaceOwnership
  import PublisherStates
  import Runs = PublicationRuns
  import Service = DelegationService

  /** The row that Record inserts for a committed event, given the text parts of its event. */
  function RowOf(e: Event, written: Outbox.Event): Outbox.Message {
    Outbox.Message(e.id, e.sequence, written, StoredTime(e.at), Outbox.Pending, 0, StoredTime(e.at),
                   None, "", None, None, None, None, None, None)
  }

  /** Over every run of the delegation services: the row of a committed message passes the check of stored rows, and it
      can be read back exactly when the request that committed it came at a whole microsecond. */
  lemma CommittedMessageIsReadableExactly(
      setup: Setup, steps: seq<Step>, i: nat, tenant: Uuid, written: Outbox.Event)
    requires Publication.Laws(setup) && ValidUuid(tenant)
    requires Runs.Valid(Init(setup), steps) && i < |Runs.Run(Init(setup), steps).db.events|
    requires written.time == Runs.Run(Init(setup), steps).db.events[i].at
    ensures var db := Runs.Run(Init(setup), steps).db;
            var m := RowOf(db.events[i], written);
            && i < |db.requests| && Outbox.ValidMessage(m) && m.state.Pending?
            && (Outbox.Readable(m) <==> db.requests[i].now % 1000 == 0)
            && (OutboxRuns.Unreadable(m) <==> db.requests[i].now % 1000 != 0)
  {
    hide Enabled, Apply, Fold, Consistent, TxOk, Ownership.Inv, ValidPath, ReasonCode, OutcomeOf, Asked;
    Runs.InitInv(setup);
    Runs.RunKeepsInv(Init(setup), steps);
    var db := Runs.Run(Init(setup), steps).db;
    assert OriginAt(db, i);
    Outbox.ReadableExactly(RowOf(db.events[i], written));
  }

  /** What becomes of a message from a time between two microseconds, in every run of the workers: its row stays pending
      as it was inserted, and no claim takes it. */
  lemma NeverDelivered(
      states: seq<Outbox.Table>, steps: seq<Outbox.Step>, i: nat, j: nat, e: Event, written: Outbox.Event)
    requires OutboxRuns.IsRun(states, steps) && i <= j <= |steps| && written.time == e.at && e.at % 1000 != 0
    requires e.id in states[i].rows && states[i].rows[e.id] == RowOf(e, written)
    ensures e.id in states[j].rows && states[j].rows[e.id] == RowOf(e, written)
    ensures j < |steps| ==> !OutboxRuns.Takes(steps[j], e.id) && !OutboxRuns.Finishes(steps[j], e.id)
  {
    OutboxRuns.StuckForever(states, steps, i, j, e.id);
  }

  /** A claim whose candidate query chooses an unreadable row cannot be made. */
  lemma UnreadableRefusesClaim(
      rows: map<Uuid, Outbox.Message>, at: Instant, locked: set<Uuid>, lease: int, limit: int, taken: seq<Uuid>,
      id: Uuid)
    requires Outbox.IsSelection(rows, Outbox.Candidates(rows, at, locked), limit, taken)
    requires id in taken && id in rows && OutboxRuns.Unreadable(rows[id])
    ensures !OutboxRepository.CanClaim(rows, at, locked, lease, limit)
  {
    assert !Outbox.AllReadable(rows, taken);
    var k :| 0 <= k < |taken| && taken[k] == id;
    assert id in Outbox.Candidates(rows, at, locked);
  }

  // ---------------------------------------------------------------- what is served can happen

  /** A call of the only open transaction that succeeds is a step. */
  lemma StepAlone(setup: Setup, steps: seq<Step>, db: Db, step: Step, t: Tx)
    requires Runs.Valid(Init(setup), steps) && Runs.Run(Init(setup), steps) == State(db, map[step.tx := t])
    requires Continues(step) && Service.Advance(db, step, t).Ok?
    ensures Runs.Valid(Init(setup), steps + [step])
    ensures Runs.Run(Init(setup), steps + [step]) == State(db, map[step.tx := Service.Advance(db, step, t).value])
  {
    hide Ready, NextPhase, LocksFree;
    var s := State(db, map[step.tx := t]);
    Service.AloneIsFree(s, step);
    Runs.RunSnoc(Init(setup), steps, step);
    assert s.open[step.tx := Service.Advance(db, step, t).value] == map[step.tx := Service.Advance(db, step, t).value];
  }

  /** The statements of a change, as steps. */
  lemma ChangeIsARun(setup: Setup, steps: seq<Step>, db: Db, tx: nat, t: Tx, ids: Service.Ids) returns (more: seq<Step>)
    requires Runs.Valid(Init(setup), steps) && Runs.Run(Init(setup), steps) == State(db, map[tx := t])
    requires Service.Changes(db, t, tx, ids).Ok?
    ensures Runs.Valid(Init(setup), more)
    ensures Runs.Run(Init(setup), more) == State(db, map[tx := Service.Changes(db, t, tx, ids).value])
  {
    hide Service.Advance, Runs.Valid, Runs.Run;
    more := steps;
    var at := t;
    if t.request.command.Create? {
      StepAlone(setup, more, db, LockNamespace(tx, ids.delegation), at);
      more := more + [LockNamespace(tx, ids.delegation)];
      at := Service.Advance(db, LockNamespace(tx, ids.delegation), at).value;
      StepAlone(setup, more, db, LockPrefix(tx), at);
      more := more + [LockPrefix(tx)];
      at := Service.Advance(db, LockPrefix(tx), at).value;
    }
    StepAlone(setup, more, db, Mutate(tx), at);
    more := more + [Mutate(tx)];
    at := Service.Advance(db, Mutate(tx), at).value;
    StepAlone(setup, more, db, Allocate(tx), at);
    more := more + [Allocate(tx)];
    at := Service.Advance(db, Allocate(tx), at).value;
    StepAlone(setup, more, db, RecordEvent(tx, ids.event), at);
    more := more + [RecordEvent(tx, ids.event)];
    at := Service.Advance(db, RecordEvent(tx, ids.event), at).value;
    StepAlone(setup, more, db, Complete(tx), at);
    more := more + [Complete(tx)];
  }

  /** Whatever a request is served, some run serves it: the tables it leaves are reached. */
  lemma ServedIsReached(setup: Setup, steps: seq<Step>, request: Request, ids: Service.Ids) returns (more: seq<Step>)
    requires Publication.Laws(setup) && Runs.Valid(Init(setup), steps)
    requires Runs.Run(Init(setup), steps).open == map[] && RequestOk(setup, request)
    requires Service.Served(Runs.Run(Init(setup), steps).db, request, ids).Ok?
    ensures Runs.Valid(Init(setup), more)
    ensures Runs.Run(Init(setup), more) ==
            State(Service.Served(Runs.Run(Init(setup), steps).db, request, ids).value.0, map[])
  {
    hide Service.Advance, Service.Served, Service.Changes, RequestOk, Ready, Merged, Runs.Valid, Runs.Run;
    var db := Runs.Run(Init(setup), steps).db;
    var t := Tx(request, Started);
    BeginIsStep(setup, steps, 0, request);
    more := steps + [Begin(0, request)];
    Service.AcquiredUndisturbed(db, t, 0, ids);
    StepAlone(setup, more, db, Acquire(0, ids.record), t);
    more := more + [Acquire(0, ids.record)];
    t := Service.Advance(db, Acquire(0, ids.record), t).value;
    if t.phase.Found? {
      StepAlone(setup, more, db, Replay(0), t);
      more := more + [Replay(0)];
      t := Service.Advance(db, Replay(0), t).value;
    } else {
      more := ChangeIsARun(setup, more, db, 0, t, ids);
      t := Service.Changes(db, t, 0, ids).value;
    }
    CommitIsStep(setup, more, db, 0, t);
    more := more + [Commit(0)];
  }

  lemma BeginIsStep(setup: Setup, steps: seq<Step>, tx: nat, request: Request)
    requires Publication.Laws(setup) && Runs.Valid(Init(setup), steps) && RequestOk(setup, request)
    requires Runs.Run(Init(setup), steps).open == map[]
    ensures Runs.Valid(Init(setup), steps + [Begin(tx, request)])
    ensures Runs.Run(Init(setup), steps + [Begin(tx, request)])
         == State(Runs.Run(Init(setup), steps).db, map[tx := Tx(request, Started)])
  {
    hide RequestOk;
    Runs.SetupStays(setup, steps, |steps|);
    assert steps[..|steps|] == steps;
    Runs.RunSnoc(Init(setup), steps, Begin(tx, request));
  }

  lemma CommitIsStep(setup: Setup, steps: seq<Step>, db: Db, tx: nat, t: Tx)
    requires Runs.Valid(Init(setup), steps) && Runs.Run(Init(setup), steps) == State(db, map[tx := t])
    requires t.phase.Finished? || t.phase.Answering?
    ensures Runs.Valid(Init(setup), steps + [Commit(tx)])
    ensures Runs.Run(Init(setup), steps + [Commit(tx)]) == State(Committed(db, t), map[])
  {
    hide Merged;
    Runs.RunSnoc(Init(setup), steps, Commit(tx));
    assert map[tx := t] - {tx} == map[];
  }

  // ---------------------------------------------------------------- a creation at any time

  /** An identifier of version 7. */
  function Id(n: Byte): (id: Uuid)
    ensures ValidUuid(id)
  {
    [n, 0, 0, 0, 0, 0, 0x70, 0, 0x80, 0, 0, 0, 0, 0, 0, 0]
  }

  const ROOT := Ownership.Namespace(Id(1), "a", Id(0), 0)

  function Creation(setup: Setup, now: Nanos): Request {
    var command := Create(Id(1), "a/b", Id(0));
    Request("w", "k", setup.hash(command), command, now)
  }

  lemma PathsAreValid()
    ensures ValidPath("a") && ValidPath("a/b")
  {
    assert "a/b"[..1] == "a" && "a/b"[2..] == "b" && "a"[..1] == "a" && "b"[..1] == "b";
    assert FirstSlash("a/b") == 1 && FirstSlash("b") == 1 && FirstSlash("a") == 1;
    assert Segment("a") && Segment("b");
  }

  /** A verified publisher and its namespace. */
  lemma Prelude(setup: Setup) returns (steps: seq<Step>)
    requires Publication.Laws(setup)
    ensures Runs.Valid(Init(setup), steps)
    ensures Runs.Run(Init(setup), steps) == State(Prepared(setup), map[])
  {
    PathsAreValid();
    hide ValidPath, Ownership.Inv, Guards.RootRefusal;
    var claim := ChangePublisher(0, Id(0), PublisherStates.Claimed);
    var verify := ChangePublisher(0, Id(0), PublisherStates.Verified);
    var root := NewNamespace(0, ROOT);
    var s := Runs.Run(Init(setup), []);
    Runs.RunSnoc(Init(setup), [], claim);
    Runs.RunSnoc(Init(setup), [] + [claim], verify);
    var t := TablesOf(Runs.Run(Init(setup), [] + [claim] + [verify]).db);
    Guards.RootRefusalIsExact(t, ROOT);
    Runs.RunSnoc(Init(setup), [] + [claim] + [verify], root);
    steps := [] + [claim] + [verify] + [root];
  }

  function Prepared(setup: Setup): Db {
    Init(setup).db.(publishers := map[Id(0) := PublisherStates.Verified], namespaces := map[Id(1) := ROOT])
  }

  const IDS := Service.Ids(Id(2), Id(3), Id(4))

  lemma CreationIsAllowed(setup: Setup, now: Nanos)
    requires StoredTime(now) != ZERO_TIME
    ensures RequestOk(setup, Creation(setup, now))
  {
    PathsAreValid();
  }

  lemma CreationIsServed(setup: Setup, now: Nanos)
    requires DbOk(Prepared(setup)) && StoredTime(now) != ZERO_TIME && Representable(now)
    ensures Service.Served(Prepared(setup), Creation(setup, now), IDS).Ok?
  {
    hide DbOk, RequestOk, Service.Served, ValidUuid, Id;
    CreationIsAllowed(setup, now);
    var t := TablesOf(Prepared(setup));
    assert t.delegations == map[] && t.namespaces == map[Id(1) := ROOT];
    assert t.namespaces[Id(1)].path == "a" && "a" + "/" <= "a/b";
    Guards.FreeMeansUnclaimed(t, "a/b");
    IdsAreDistinct();
    Service.CreationIsServedExactly(Prepared(setup), Creation(setup, now), IDS);
  }

  lemma IdsAreDistinct()
    ensures ValidUuid(Id(0)) && ValidUuid(Id(1)) && ValidUuid(Id(2)) && ValidUuid(Id(3)) && ValidUuid(Id(4))
  {
  }

  lemma ServedCommits(setup: Setup, now: Nanos)
    requires Service.Served(Prepared(setup), Creation(setup, now), IDS).Ok?
    ensures var db := Service.Served(Prepared(setup), Creation(setup, now), IDS).value.0;
            |db.events| == 1 && db.events[0].at == now && db.requests == [Creation(setup, now)]
  {
    hide Service.Decided, ValidUuid, Id, IdTaken;
    var request := Creation(setup, now);
    assert [] + [request] == [request];
  }

  /** For every time of the years 0 to 9999 there is a run in which a creation at that time commits. */
  lemma CreationCommitsAtAnyTime(setup: Setup, now: Nanos) returns (steps: seq<Step>)
    requires Publication.Laws(setup) && StoredTime(now) != ZERO_TIME && Representable(now)
    ensures CommitsAt(setup, now, steps)
  {
    hide Publication.Laws, Runs.Valid, Runs.Run, Creation, Service.Served, DbOk, TxOk, RequestOk;
    var before := Prelude(setup);
    Runs.InitInv(setup);
    Runs.RunKeepsInv(Init(setup), before);
    CreationIsAllowed(setup, now);
    CreationIsServed(setup, now);
    ServedCommits(setup, now);
    steps := ServedIsReached(setup, before, Creation(setup, now), IDS);
  }

  /** The run commits one message, for a creation at that time. */
  ghost predicate CommitsAt(setup: Setup, now: Nanos, steps: seq<Step>) {
    && Runs.Valid(Init(setup), steps)
    && var db := Runs.Run(Init(setup), steps).db;
       |db.events| == 1 && db.events[0].at == now && db.requests == [Creation(setup, now)]
  }

  lemma RowIsReadableExactly(e: Event, written: Outbox.Event)
    requires written.time == e.at
    ensures Outbox.Readable(RowOf(e, written)) <==> e.at % 1000 == 0
    ensures OutboxRuns.Unreadable(RowOf(e, written)) <==> e.at % 1000 != 0
  {
  }

  /** One nanosecond is enough: a creation at one nanosecond past a whole microsecond commits and records its message,
      and the message's row cannot be read back; the row of one at the whole microsecond can. */
  lemma OneNanosecondIsEnough(setup: Setup, late: Outbox.Event, whole: Outbox.Event)
      returns (a: seq<Step>, b: seq<Step>)
    requires Publication.Laws(setup) && late.time == 1_000_001 && whole.time == 1_000_000
    ensures CommitsAt(setup, 1_000_001, a) && CommitsAt(setup, 1_000_000, b)
    ensures OutboxRuns.Unreadable(RowOf(Runs.Run(Init(setup), a).db.events[0], late))
    ensures Outbox.Readable(RowOf(Runs.Run(Init(setup), b).db.events[0], whole))
  {
    hide Publication.Laws, Runs.Valid, Runs.Run, Creation, RowOf, Outbox.Readable, OutboxRuns.Unreadable;
    a := CreationCommitsAtAnyTime(setup, 1_000_001);
    b := CreationCommitsAtAnyTime(setup, 1_000_000);
    RowIsReadableExactly(Runs.Run(Init(setup), a).db.events[0], late);
    RowIsReadableExactly(Runs.Run(Init(setup), b).db.events[0], whole);
  }
}
