/** The outbox repository: each call is one transaction over the tenant's rows.
    `outage` says where the database fails a call, and `up` whether it does a call inside the caller's transaction. */
module OutboxRepository {
  import opened Shared
  import opened Uuids
  import opened Outbox

  const UNAVAILABLE := Error(Unavailable, "outbox.persistence_unavailable")

  class Repository {
    const tenant: Uuid
    var rows: map<Uuid, Message>
    var nextSequence: Option<int>

    ghost function State(): Table
      reads this
    {
      Table(rows, nextSequence)
    }

    constructor (tenant: Uuid)
      ensures this.tenant == tenant && State() == EMPTY && Inv(State())
    {
      this.tenant := tenant;
      rows, nextSequence := map[], None;
    }

    /** Allocates the next sequence; the first is 1 and the last 2^63 - 2. */
    method NextSequence(up: bool) returns (r: Result<int>)
      requires Inv(State())
      modifies this
      ensures Inv(State())
      ensures r.Ok? <==> ValidUuid(tenant) && up && old(nextSequence) != Some(MAX_SEQUENCE)
      ensures r.Ok? ==> Next(old(State()), Allocate(r.value), State())
      ensures r.Ok? ==> r.value == (if old(nextSequence).None? then 1 else old(nextSequence).value)
      ensures r.Ok? ==> rows == old(rows) && nextSequence == Some(r.value + 1)
      ensures r.Err? ==> State() == old(State())
      ensures r.Err? ==>
                r.error ==
                if ValidUuid(tenant) then UNAVAILABLE else Error(Invalid, "outbox.invalid_sequence_request")
    {
      if !ValidUuid(tenant) { return Err(Error(Invalid, "outbox.invalid_sequence_request")); }
      if !up { return Err(UNAVAILABLE); }
      match nextSequence
      case None =>
        nextSequence := Some(2);
        r := Ok(1);
      case Some(n) =>
        if n >= MAX_SEQUENCE { return Err(UNAVAILABLE); }
        nextSequence := Some(n + 1);
        r := Ok(n);
      StepKeepsInv(old(State()), Allocate(r.value), State());
    }

    /** Inserts a pending message whose sequence is the one allocated last. */
    method Record(value: Message, up: bool) returns (r: Status)
      requires Inv(State()) && ValidMessage(value) && value.createdAt == StoredTime(value.event.time)
      modifies this
      ensures Inv(State())
      ensures r.Done? <==>
        && ValidUuid(tenant) && value.state.Pending? && up
        && AppendAllowed(old(State()), value.(availableAt := value.createdAt))
      ensures r.Done? ==> Next(old(State()), Append(value.(availableAt := value.createdAt)), State())
      ensures r.Done? ==>
                && old(nextSequence) == Some(value.sequence + 1) && nextSequence == old(nextSequence)
                && rows == old(rows)[value.id := value.(availableAt := value.createdAt)]
      ensures r.Failed? ==> State() == old(State())
      ensures r.Failed? ==>
                r.error ==
                if ValidUuid(tenant) && value.state.Pending?
                then UNAVAILABLE
                else Error(Invalid, "outbox.invalid_message")
    {
      if !ValidUuid(tenant) || value.sequence == 0 || !value.state.Pending? || value.attempts != 0 {
        return Failed(Error(Invalid, "outbox.invalid_message"));
      }
      var row := value.(availableAt := value.createdAt);
      if !up || !AppendAllowed(Table(rows, nextSequence), row) { return Failed(UNAVAILABLE); }
      rows := rows[row.id := row];
      StepKeepsInv(old(State()), Append(row), State());
      r := Done;
    }

    /** Sweeps exhausted claims, then claims the due rows of lowest sequence that no other transaction has locked. It
        fails as a whole if one of the rows it chose cannot be read back. */
    method Claim(
        worker: string, claimToken: Uuid, claimedAt: Nanos, lease: int, limit: int, locked: set<Uuid>,
        outage: Outage)
        returns (r: Result<seq<Message>>)
      requires !outage.Auditing? && Inv(State())
      modifies this
      ensures Inv(State())
      ensures var at := StoredTime(claimedAt);
              var valid := ValidClaim(worker, claimToken, lease, limit) && claimedAt != ZERO_NANOS;
              var claimed :=
                valid && ValidUuid(tenant) && Commits(outage) && CanClaim(old(rows), at, locked, lease, limit);
              && (r.Ok? <==> claimed && outage.Nowhere?)
              && (claimed ==> exists taken ::
                    var swept := old(State()).(rows := AfterSweep(old(rows), at));
                    && Next(old(State()), Sweep(at), swept)
                    && Next(swept, Take(claimToken, worker, at, lease, limit, locked, taken), State())
                    && (r.Ok? ==> Answers(rows, r.value, taken)))
              && (claimed ==> exists values ::
                    && TakesTheDue(old(rows), rows, values, claimToken, worker, at, lease, limit, locked)
                    && (r.Ok? ==> values == r.value))
              && (!claimed ==> State() == old(State()))
              && (r.Err? ==> r.error == (if !valid then Error(Invalid, "outbox.invalid_claim")
                                         else if !ValidUuid(tenant) then Error(Invalid, "outbox.invalid_tenant")
                                         else if outage.Opening? then TRANSACTION_UNAVAILABLE
                                         else UNAVAILABLE))
    {
      if !ValidUuid(claimToken) || claimedAt == ZERO_NANOS || lease <= 0 || lease > MAX_LEASE_NANOS || limit < 1
          || limit > MAX_CLAIM_BATCH {
        return Err(Error(Invalid, "outbox.invalid_claim"));
      }
      if !BoundedText(worker, 255) { return Err(Error(Invalid, "outbox.invalid_claim")); }
      if !ValidUuid(tenant) { return Err(Error(Invalid, "outbox.invalid_tenant")); }
      if outage.Opening? { return Err(TRANSACTION_UNAVAILABLE); }
      if outage.Deciding? { return Err(UNAVAILABLE); }

      hide Inv, Sound, IsSelection, AfterSweep, AfterTake, Candidates, Restorable, AllReadable, CanClaim, Answers, Next;
      hide TakesTheDue;
      // first statement: the sweep
      var at := StoredTime(claimedAt);
      var swept := AfterSweep(rows, at);
      SweptIsSound(State(), at);
      // second statement: choose, lock and update
      var accepted, taken, updated := UpdateCandidates(swept, worker, claimToken, at, lease, limit, locked);
      ClaimDecided(rows, at, locked, lease, limit, taken);
      if !accepted { return Err(UNAVAILABLE); }
      var values := ReadReturned(updated, taken);
      if values.None? || outage.Finishing? { return Err(UNAVAILABLE); }
      rows := updated;
      ClaimRefines(old(State()), worker, claimToken, at, lease, limit, locked, taken, State());
      ClaimTakesTheDue(old(rows), rows, values.value, claimToken, worker, at, lease, limit, locked, taken);
      r := if outage.Nowhere? then Ok(values.value) else Err(UNAVAILABLE);
    }

    /** Puts the message back for a later attempt. Done exactly when the caller holds the
        message and the new time is after the claim by at most a day. */
    method RetryLater(id: Uuid, token: Uuid, reason: string, availableAt: Nanos, outage: Outage)
        returns (r: Result<Message>)
      requires !outage.Auditing? && Inv(State())
      modifies this
      ensures Inv(State())
      ensures var at := StoredTime(availableAt);
              var done :=
                && reason != "" && availableAt != ZERO_NANOS && CanFinish(old(rows), id, token, outage)
                && old(rows)[id].claimedAt.value < at <= old(rows)[id].claimedAt.value + DAY;
              && Finished(old(State()), id, token, Retried(reason), at, done, outage, State(), r)
              && (done ==> State() == old(State()).(rows := old(rows)[
                    id := old(rows)[id].(state := Retry, token := None, worker := "", claimedAt := None,
                                         leaseUntil := None, lastError := Some(reason), availableAt := at)]))
              && (r.Err? ==> r.error == (if reason == "" || availableAt == ZERO_NANOS
                                         then Error(Invalid, "outbox.invalid_retry")
                                         else FinishError(id, token, outage, HeldWith(old(rows), id, token))))
    {
      if reason == "" || availableAt == ZERO_NANOS { return Err(Error(Invalid, "outbox.invalid_retry")); }
      r := Complete(id, token, Retried(reason), StoredTime(availableAt), outage);
    }

    /** Marks the message delivered. Done exactly when the caller holds it and the time is not before the claim. */
    method Deliver(id: Uuid, token: Uuid, deliveredAt: Nanos, outage: Outage) returns (r: Result<Message>)
      requires !outage.Auditing? && Inv(State())
      modifies this
      ensures Inv(State())
      ensures var at := StoredTime(deliveredAt);
              var done :=
                && deliveredAt != ZERO_NANOS && CanFinish(old(rows), id, token, outage)
                && at >= old(rows)[id].claimedAt.value;
              && Finished(old(State()), id, token, Acknowledged, at, done, outage, State(), r)
              && (done ==> State() == old(State()).(rows := old(rows)[
                    id := old(rows)[id].(state := Delivered, token := None, worker := "", claimedAt := None,
                                         leaseUntil := None, deliveredAt := Some(at),
                                         retainUntil := Some(at + 2_592_000_000_000))]))
              && (r.Err? ==> r.error == (if deliveredAt == ZERO_NANOS then Error(Invalid, "outbox.invalid_delivery")
                                         else FinishError(id, token, outage, HeldWith(old(rows), id, token))))
    {
      if deliveredAt == ZERO_NANOS { return Err(Error(Invalid, "outbox.invalid_delivery")); }
      r := Complete(id, token, Acknowledged, StoredTime(deliveredAt), outage);
    }

    /** Gives the message up. Done exactly when the caller holds it and the time is not before the claim. */
    method DeadLetterMessage(id: Uuid, token: Uuid, reason: string, deadLetteredAt: Nanos, outage: Outage)
        returns (r: Result<Message>)
      requires !outage.Auditing? && Inv(State())
      modifies this
      ensures Inv(State())
      ensures var at := StoredTime(deadLetteredAt);
              var done :=
                && reason != "" && deadLetteredAt != ZERO_NANOS && CanFinish(old(rows), id, token, outage)
                && at >= old(rows)[id].claimedAt.value;
              && Finished(old(State()), id, token, Abandoned(reason), at, done, outage, State(), r)
              && (done ==> State() == old(State()).(rows := old(rows)[
                    id := old(rows)[id].(state := DeadLetter, token := None, worker := "", claimedAt := None,
                                         leaseUntil := None, lastError := Some(reason), deadAt := Some(at),
                                         retainUntil := Some(at + 7_776_000_000_000))]))
              && (r.Err? ==> r.error == (if reason == "" || deadLetteredAt == ZERO_NANOS
                                         then Error(Invalid, "outbox.invalid_dead_letter")
                                         else FinishError(id, token, outage, HeldWith(old(rows), id, token))))
    {
      if reason == "" || deadLetteredAt == ZERO_NANOS { return Err(Error(Invalid, "outbox.invalid_dead_letter")); }
      r := Complete(id, token, Abandoned(reason), StoredTime(deadLetteredAt), outage);
    }

    /** The caller holds the message, and the database answers. */
    predicate CanFinish(rows: map<Uuid, Message>, id: Uuid, token: Uuid, outage: Outage) {
      ValidUuid(id) && ValidUuid(token) && ValidUuid(tenant) && Commits(outage) && HeldWith(rows, id, token)
    }

    /** Why a completion was refused, once its own arguments were accepted. */
    ghost function FinishError(id: Uuid, token: Uuid, outage: Outage, held: bool): Error {
      if !ValidUuid(id) || !ValidUuid(token) then Error(Invalid, "outbox.invalid_completion")
      else if !ValidUuid(tenant) then Error(Invalid, "outbox.invalid_tenant")
      else if outage.Opening? then TRANSACTION_UNAVAILABLE
      else if !outage.Deciding? && !held then Error(Conflict, "outbox.stale_claim")
      else UNAVAILABLE
    }

    /** finish: the update is guarded by the claim token, not by the lease. */
    method Complete(id: Uuid, token: Uuid, how: Completion, at: Instant, outage: Outage)
        returns (r: Result<Message>)
      requires !outage.Auditing? && Inv(State())
      requires (how.Retried? ==> how.reason != "") && (how.Abandoned? ==> how.reason != "")
      modifies this
      ensures Inv(State())
      ensures var done :=
                && CanFinish(old(rows), id, token, outage)
                && UpdateAllowed(old(rows)[id], FinishRow(old(rows)[id], how, at));
              Finished(old(State()), id, token, how, at, done, outage, State(), r)
      ensures r.Err? ==> r.error == FinishError(id, token, outage, HeldWith(old(rows), id, token))
    {
      if !ValidUuid(id) || !ValidUuid(token) { return Err(Error(Invalid, "outbox.invalid_completion")); }
      if !ValidUuid(tenant) { return Err(Error(Invalid, "outbox.invalid_tenant")); }
      if outage.Opening? { return Err(TRANSACTION_UNAVAILABLE); }
      if outage.Deciding? { return Err(UNAVAILABLE); }
      if !HeldWith(rows, id, token) { return Err(Error(Conflict, "outbox.stale_claim")); }
      var row := FinishRow(rows[id], how, at);
      if !UpdateAllowed(rows[id], row) { return Err(UNAVAILABLE); }
      FinishRowOk(rows[id], how, at);
      assert RowCheck(row) && Restorable(row);
      if outage.Finishing? { return Err(UNAVAILABLE); }
      rows := rows[id := row];
      r := if outage.Nowhere? then Ok(row) else Err(UNAVAILABLE);
      StepKeepsInv(old(State()), Finish(id, token, how, at), State());
    }
  }

  /** What a completion leaves: its step if it is done, and nothing otherwise. Its message is returned if it is done and
      the reply arrives. */
  ghost predicate Finished(
      s: Table, id: Uuid, token: Uuid, how: Completion, at: Instant, done: bool, outage: Outage, t: Table,
      r: Result<Message>)
  {
    && (r.Ok? <==> done && outage.Nowhere?)
    && (if done then Next(s, Finish(id, token, how, at), t) else t == s)
    && (r.Ok? ==> id in t.rows && r.value == t.rows[id])
  }

  /** A claim can be made: there is nothing to claim, or the lease is a microsecond or more and every row that the
      candidate query chooses can be read back. */
  ghost predicate CanClaim(rows: map<Uuid, Message>, at: Instant, locked: set<Uuid>, lease: int, limit: int) {
    var candidates := Candidates(rows, at, locked);
    || candidates == {}
    || (lease >= 1000 && forall taken | IsSelection(rows, candidates, limit, taken) :: AllReadable(rows, taken))
  }

  // ---------------------------------------------------------------- a claim, row by row

  /** The message may be claimed at that time: it has attempts left, and it waits and its time has come, or it is
      claimed and its lease has run out. */
  predicate IsDue(m: Message, at: Instant) {
    && m.attempts < 1000
    && match m.state
       case Pending => m.availableAt <= at
       case Retry => m.availableAt <= at
       case Claimed => m.leaseUntil.Some? && m.leaseUntil.value <= at
       case Delivered => false
       case DeadLetter => false
  }

  /** Its last attempt is claimed, and that lease has run out. */
  predicate IsExhausted(m: Message, at: Instant) {
    m.state.Claimed? && m.attempts >= 1000 && m.leaseUntil.Some? && m.leaseUntil.value <= at
  }

  /** The messages returned, in ascending sequence, are due ones that nobody has locked, each held by the caller from
      that time on for the lease in whole microseconds. One that is due and not locked is among them, unless they are
      as many as was asked for and all of lower sequence. Exhausted messages are dead-lettered, and the rest are
      untouched. */
  ghost predicate TakesTheDue(
      before: map<Uuid, Message>, after: map<Uuid, Message>, values: seq<Message>, token: Uuid, worker: string,
      at: Instant, lease: int, limit: int, locked: set<Uuid>)
  {
    && |values| <= limit && Ascending(values)
    && (forall v | v in values ::
          && v.id in before && v.id !in locked && IsDue(before[v.id], at)
          && v == AsClaimed(before[v.id], token, worker, at, lease))
    && (forall id | id in before && id !in locked && IsDue(before[id], at) ::
          ReturnedOrLater(values, before[id], limit))
    && after.Keys == before.Keys
    && (forall id | id in before :: after[id] in values || after[id] == AtRest(before[id], at))
    && (forall v | v in values :: v.id in after && after[v.id] == v)
  }

  function AsClaimed(m: Message, token: Uuid, worker: string, at: Instant, lease: int): Message {
    m.(state := Claimed, attempts := m.attempts + 1, token := Some(token), worker := worker, claimedAt := Some(at),
       leaseUntil := Some(at + lease / 1000))
  }

  /** The message is among those returned, or they are as many as was asked for and all of lower sequence. */
  ghost predicate ReturnedOrLater(values: seq<Message>, m: Message, limit: int) {
    || (exists v :: v in values && v.id == m.id)
    || (|values| == limit && forall v | v in values :: v.sequence < m.sequence)
  }

  /** A message that a claim does not take. */
  function AtRest(m: Message, at: Instant): Message {
    if IsExhausted(m, at) then
      m.(state := DeadLetter, token := None, worker := "", claimedAt := None, leaseUntil := None,
         lastError := Some("outbox.attempts_exhausted"), deadAt := Some(at),
         retainUntil := Some(at + 7_776_000_000_000))
    else m
  }

  /** What is claimable is what is due, before the sweep and after it. */
  lemma SweepLeavesTheDue(m: Message, at: Instant)
    ensures Claimable(m, at) <==> IsDue(m, at)
    ensures Sweepable(m, at) <==> IsExhausted(m, at)
    ensures Sweepable(m, at) ==> SweepRow(m, at) == AtRest(m, at) && !Claimable(SweepRow(m, at), at)
    ensures !(Sweepable(m, at) && Claimable(m, at))
  {
  }

  /** What the two statements do to each row. */
  lemma ClaimByRow(
      before: map<Uuid, Message>, token: Uuid, worker: string, at: Instant, lease: int, limit: int, locked: set<Uuid>,
      taken: seq<Uuid>, id: Uuid)
    requires IsSelection(AfterSweep(before, at), Candidates(AfterSweep(before, at), at, locked), limit, taken)
    requires id in before
    ensures var swept := AfterSweep(before, at);
            var after := AfterTake(swept, taken, token, worker, at, lease / 1000);
            && id in swept && id in after && swept[id].sequence == before[id].sequence
            && (id in Candidates(swept, at, locked) <==> id !in locked && IsDue(before[id], at))
            && (id in taken ==> id in Candidates(swept, at, locked))
            && after[id]
                 == if id in taken then AsClaimed(before[id], token, worker, at, lease) else AtRest(before[id], at)
  {
    hide IsDue, SweepRow;
    SweepLeavesTheDue(before[id], at);
    if id in taken { var i :| 0 <= i < |taken| && taken[i] == id; }
  }

  lemma ClaimTakesTheDue(
      before: map<Uuid, Message>, after: map<Uuid, Message>, values: seq<Message>, token: Uuid, worker: string,
      at: Instant, lease: int, limit: int, locked: set<Uuid>, taken: seq<Uuid>)
    requires forall id | id in before :: before[id].id == id
    requires IsSelection(AfterSweep(before, at), Candidates(AfterSweep(before, at), at, locked), limit, taken)
    requires after == AfterTake(AfterSweep(before, at), taken, token, worker, at, lease / 1000)
    requires Answers(after, values, taken)
    ensures TakesTheDue(before, after, values, token, worker, at, lease, limit, locked)
  {
    var swept := AfterSweep(before, at);
    var candidates := Candidates(swept, at, locked);
    assert after.Keys == before.Keys;
    forall id | id in before
      ensures id in swept && swept[id].sequence == before[id].sequence
      ensures id in candidates <==> id !in locked && IsDue(before[id], at)
      ensures id in taken ==> id in candidates
      ensures after[id]
           == if id in taken then AsClaimed(before[id], token, worker, at, lease) else AtRest(before[id], at)
    {
      ClaimByRow(before, token, worker, at, lease, limit, locked, taken, id);
    }
    assert forall id | id in candidates && id !in taken ::
        |taken| == limit && forall i | 0 <= i < |taken| :: before[taken[i]].sequence < before[id].sequence;
    hide AfterSweep, AfterTake, Candidates, IsDue, AtRest, IsSelection;
    forall i | 0 <= i < |taken|
      ensures taken[i] in before && values[i] == AsClaimed(before[taken[i]], token, worker, at, lease)
      ensures values[i].id == taken[i] && values[i].sequence == before[taken[i]].sequence
    {
      assert taken[i] in taken;
    }
    ReturnedAreAll(before, after, values, at, limit, locked, taken);
  }

  lemma ReturnedAreAll(
      before: map<Uuid, Message>, after: map<Uuid, Message>, values: seq<Message>, at: Instant, limit: int,
      locked: set<Uuid>, taken: seq<Uuid>)
    requires |values| == |taken| && (forall id | id in before :: before[id].id == id)
    requires forall i | 0 <= i < |taken| :: taken[i] in before && taken[i] in after && values[i] == after[taken[i]]
    requires forall i | 0 <= i < |taken| :: values[i].id == taken[i] && values[i].sequence == before[taken[i]].sequence
    requires forall id | id in before && id !in locked && IsDue(before[id], at) && id !in taken ::
               |taken| == limit && forall i | 0 <= i < |taken| :: before[taken[i]].sequence < before[id].sequence
    ensures forall id | id in before && id !in locked && IsDue(before[id], at) ::
              ReturnedOrLater(values, before[id], limit)
    ensures forall id | id in taken :: id in after && after[id] in values
    ensures forall v | v in values :: v.id in taken && v.id in after && after[v.id] == v
  {
    hide IsDue;
    forall id | id in taken ensures id in after && after[id] in values && after[id].id == id {
      var i :| 0 <= i < |taken| && taken[i] == id;
      assert values[i] == after[id];
    }
    forall v | v in values ensures v.id in taken && after[v.id] == v {
      var i :| 0 <= i < |values| && values[i] == v;
    }
  }

  // ---------------------------------------------------------------- reading the returned rows

  /** The returned messages are the stored rows of the taken ids, in that order. */
  ghost predicate Answers(rows: map<Uuid, Message>, values: seq<Message>, taken: seq<Uuid>) {
    |values| == |taken| && forall i | 0 <= i < |taken| :: taken[i] in rows && values[i] == rows[taken[i]]
  }

  /** The taken rows exist, and are taken in ascending sequence. */
  ghost predicate Returnable(rows: map<Uuid, Message>, taken: seq<Uuid>) {
    && (forall i | 0 <= i < |taken| :: taken[i] in rows && rows[taken[i]].id == taken[i])
    && (forall i, j | 0 <= i < j < |taken| :: rows[taken[i]].sequence < rows[taken[j]].sequence)
  }

  /** The row loop of Claim: rows arrive in any order, each must pass the domain check, and the result is sorted. */
  method ReadReturned(rows: map<Uuid, Message>, taken: seq<Uuid>) returns (r: Option<seq<Message>>)
    requires Returnable(rows, taken)
    ensures r.Some? <==> forall id | id in taken :: Restorable(rows[id])
    ensures r.Some? ==> Answers(rows, r.value, taken)
  {
    var values := [];
    var returned := set id | id in taken;
    while returned != {}
      invariant returned <= set id | id in taken
      invariant forall id | id in taken :: id in returned || (rows[id] in values && Restorable(rows[id]))
      invariant forall i | 0 <= i < |values| ::
                  values[i].id in taken && values[i].id !in returned && values[i] == rows[values[i].id]
      invariant forall i, j | 0 <= i < j < |values| :: values[i].id != values[j].id
    {
      var id :| id in returned;
      if !Restorable(rows[id]) { return None; }
      values := values + [rows[id]];
      returned := returned - {id};
    }
    forall i, j | 0 <= i < j < |values| ensures values[i].sequence != values[j].sequence {
      SequencesDiffer(rows, taken, values[i].id, values[j].id);
    }
    values := SortBySequence(values);
    SortedAnswer(rows, values, taken);
    r := Some(values);
  }

  lemma SequencesDiffer(rows: map<Uuid, Message>, taken: seq<Uuid>, a: Uuid, b: Uuid)
    requires Returnable(rows, taken) && a in taken && b in taken && a != b
    ensures rows[a].sequence != rows[b].sequence
  {
    var i :| 0 <= i < |taken| && taken[i] == a;
    var j :| 0 <= j < |taken| && taken[j] == b;
  }

  lemma SortedAnswer(rows: map<Uuid, Message>, values: seq<Message>, taken: seq<Uuid>)
    requires Ascending(values)
    requires forall i | 0 <= i < |taken| :: taken[i] in rows && rows[taken[i]] in values
    requires forall v | v in values :: v.id in taken && v == rows[v.id]
    requires forall i, j | 0 <= i < j < |taken| :: rows[taken[i]].sequence < rows[taken[j]].sequence
    ensures Answers(rows, values, taken)
  {
    var expected := seq(|taken|, i requires 0 <= i < |taken| => rows[taken[i]]);
    forall v | v in values ensures v in expected {
      var i :| 0 <= i < |taken| && taken[i] == v.id;
      assert expected[i] == v;
    }
    AscendingUnique(values, expected);
  }

  // ---------------------------------------------------------------- the two statements of a claim

  /** Every row is good and under its own identifier, and no two have one sequence. */
  ghost predicate Sound(rows: map<Uuid, Message>) {
    && (forall id | id in rows :: rows[id].id == id && RowOk(rows[id]))
    && (forall a, b | a in rows && b in rows && a != b :: rows[a].sequence != rows[b].sequence)
  }

  /** The sweep is a step that leaves sound rows; its updates pass the trigger and the row CHECK. */
  lemma SweptIsSound(s: Table, at: Instant)
    requires Inv(s)
    ensures Sound(s.rows) && Sound(AfterSweep(s.rows, at))
    ensures forall id | id in s.rows && Sweepable(s.rows[id], at) ::
              UpdateAllowed(s.rows[id], AfterSweep(s.rows, at)[id]) && RowCheck(AfterSweep(s.rows, at)[id])
  {
    StepKeepsInv(s, Sweep(at), s.(rows := AfterSweep(s.rows, at)));
    forall id | id in s.rows && Sweepable(s.rows[id], at)
      ensures UpdateAllowed(s.rows[id], AfterSweep(s.rows, at)[id]) && RowCheck(AfterSweep(s.rows, at)[id])
    {
      SweepRowOk(s.rows[id], at);
    }
  }

  /** The sweep and the claim of one call never compete for a row, so the sweep does not change what is chosen; and
      whether the claim can be made is decided by the one selection there is. */
  lemma ClaimDecided(
      rows: map<Uuid, Message>, at: Instant, locked: set<Uuid>, lease: int, limit: int, taken: seq<Uuid>)
    requires Sound(rows)
    requires IsSelection(AfterSweep(rows, at), Candidates(AfterSweep(rows, at), at, locked), limit, taken)
    ensures Candidates(AfterSweep(rows, at), at, locked) == Candidates(rows, at, locked)
    ensures CanClaim(rows, at, locked, lease, limit) <==>
        Candidates(rows, at, locked) == {} || (lease >= 1000 && AllReadable(rows, taken))
    ensures AllReadable(rows, taken) <==> AllReadable(AfterSweep(rows, at), taken)
  {
    var candidates := Candidates(rows, at, locked);
    assert Candidates(AfterSweep(rows, at), at, locked) == candidates;
    assert IsSelection(rows, candidates, limit, taken);
    forall other | IsSelection(rows, candidates, limit, other) ensures other == taken {
      SelectionUnique(rows, candidates, limit, other, taken);
    }
  }

  /** The claim update is accepted exactly when nothing is claimed or the lease is a microsecond or more. */
  lemma TakeDecided(rows: map<Uuid, Message>, candidates: set<Uuid>, limit: int, taken: seq<Uuid>,
                    token: Uuid, worker: string, at: Instant, lease: int, updated: map<Uuid, Message>)
    requires forall id | id in rows :: RowOk(rows[id])
    requires candidates <= rows.Keys && (forall id | id in candidates :: Claimable(rows[id], at))
    requires ValidClaim(worker, token, lease, limit) && IsSelection(rows, candidates, limit, taken)
    requires updated == AfterTake(rows, taken, token, worker, at, lease / 1000)
    ensures taken == [] <==> candidates == {}
    ensures (forall id | id in taken :: UpdateAllowed(rows[id], updated[id]) && RowCheck(updated[id]))
        <==> taken == [] || lease >= 1000
    ensures lease >= 1000 ==> forall id | id in taken :: Restorable(updated[id]) <==> Readable(rows[id])
  {
    forall id | id in taken
      ensures UpdateAllowed(rows[id], updated[id]) && (RowCheck(updated[id]) <==> lease >= 1000)
      ensures Restorable(updated[id]) <==> lease >= 1000 && Readable(rows[id])
    {
      TakeRowOk(rows[id], token, worker, at, lease / 1000);
    }
    if taken != [] { assert taken[0] in taken && taken[0] in candidates; }
    if candidates != {} {
      var id :| id in candidates;
      assert id in taken || |taken| == limit;
    }
  }

  /** The candidate query and its update: the choice is the database's, and so is the refusal. */
  method UpdateCandidates(
      rows: map<Uuid, Message>, worker: string, token: Uuid, at: Instant, lease: int, limit: int, locked: set<Uuid>)
      returns (accepted: bool, taken: seq<Uuid>, updated: map<Uuid, Message>)
    requires Sound(rows) && ValidClaim(worker, token, lease, limit)
    ensures accepted <==> lease >= 1000 || Candidates(rows, at, locked) == {}
    ensures IsSelection(rows, Candidates(rows, at, locked), limit, taken)
    ensures updated == AfterTake(rows, taken, token, worker, at, lease / 1000)
    ensures accepted ==> taken == [] || lease >= 1000
    ensures Returnable(updated, taken)
    ensures accepted ==> ((forall id | id in taken :: Restorable(updated[id])) <==> AllReadable(rows, taken))
  {
    var candidates := Candidates(rows, at, locked);
    ghost var some := SelectionExists(rows, candidates, limit);
    taken :| IsSelection(rows, candidates, limit, taken);
    updated := AfterTake(rows, taken, token, worker, at, lease / 1000);
    TakeDecided(rows, candidates, limit, taken, token, worker, at, lease, updated);
    accepted := forall id :: id in taken ==> UpdateAllowed(rows[id], updated[id]) && RowCheck(updated[id]);
  }

  lemma ClaimRefines(
      s: Table, worker: string, token: Uuid, at: Instant, lease: int, limit: int, locked: set<Uuid>, taken: seq<Uuid>,
      t: Table)
    requires Inv(s) && ValidClaim(worker, token, lease, limit) && (taken == [] || lease >= 1000)
    requires AllReadable(AfterSweep(s.rows, at), taken)
    requires IsSelection(AfterSweep(s.rows, at), Candidates(AfterSweep(s.rows, at), at, locked), limit, taken)
    requires t == s.(rows := AfterTake(AfterSweep(s.rows, at), taken, token, worker, at, lease / 1000))
    ensures var swept := s.(rows := AfterSweep(s.rows, at));
            && Next(s, Sweep(at), swept) && Next(swept, Take(token, worker, at, lease, limit, locked, taken), t)
    ensures Inv(t)
  {
    var swept := s.(rows := AfterSweep(s.rows, at));
    StepKeepsInv(s, Sweep(at), swept);
    StepKeepsInv(swept, Take(token, worker, at, lease, limit, locked, taken), t);
  }

  /** There is always a selection: the query returns something for every candidate set. */
  lemma {:induction false} SelectionExists(
      rows: map<Uuid, Message>, candidates: set<Uuid>, limit: int)
    returns (taken: seq<Uuid>)
    requires candidates <= rows.Keys && limit >= 0
    requires forall a, b | a in candidates && b in candidates && a != b :: rows[a].sequence != rows[b].sequence
    ensures IsSelection(rows, candidates, limit, taken)
    decreases limit
  {
    if limit == 0 || candidates == {} {
      taken := [];
    } else {
      var low := LowestExists(rows, candidates);
      var rest := SelectionExists(rows, candidates - {low}, limit - 1);
      taken := [low] + rest;
      PrependLowest(rows, candidates, limit, low, rest);
    }
  }

  lemma PrependLowest(rows: map<Uuid, Message>, candidates: set<Uuid>, limit: int, low: Uuid, rest: seq<Uuid>)
    requires candidates <= rows.Keys && limit > 0 && low in candidates
    requires forall id | id in candidates && id != low :: rows[low].sequence < rows[id].sequence
    requires IsSelection(rows, candidates - {low}, limit - 1, rest)
    ensures IsSelection(rows, candidates, limit, [low] + rest)
  {
    var taken := [low] + rest;
    assert forall i | 0 < i < |taken| :: taken[i] == rest[i - 1];
    forall id | id in candidates && id !in taken
      ensures |taken| == limit && forall i | 0 <= i < |taken| :: rows[taken[i]].sequence < rows[id].sequence
    {
      assert low in taken;
      assert id !in rest;
    }
  }

  lemma {:induction false} LowestExists(rows: map<Uuid, Message>, candidates: set<Uuid>) returns (low: Uuid)
    requires candidates <= rows.Keys && candidates != {}
    requires forall a, b | a in candidates && b in candidates && a != b :: rows[a].sequence != rows[b].sequence
    ensures low in candidates && forall id | id in candidates && id != low :: rows[low].sequence < rows[id].sequence
    decreases |candidates|
  {
    low :| low in candidates;
    if candidates != {low} {
      var other := LowestExists(rows, candidates - {low});
      if rows[other].sequence < rows[low].sequence { low := other; }
    }
  }

  /** A selection is determined by the rows, the candidates and the limit. */
  lemma SelectionUnique(rows: map<Uuid, Message>, candidates: set<Uuid>, limit: int, a: seq<Uuid>, b: seq<Uuid>)
    requires candidates <= rows.Keys
    requires IsSelection(rows, candidates, limit, a) && IsSelection(rows, candidates, limit, b)
    requires forall x, y | x in candidates && y in candidates && x != y :: rows[x].sequence != rows[y].sequence
    ensures a == b
  {
    SelectionWithin(rows, candidates, limit, a, b);
    SelectionWithin(rows, candidates, limit, b, a);
    var va := seq(|a|, i requires 0 <= i < |a| => rows[a[i]].(id := a[i]));
    var vb := seq(|b|, i requires 0 <= i < |b| => rows[b[i]].(id := b[i]));
    forall v | v in va ensures v in vb {
      var i :| 0 <= i < |va| && va[i] == v;
      assert a[i] in b;
      var j :| 0 <= j < |b| && b[j] == a[i];
      assert vb[j] == v;
    }
    forall v | v in vb ensures v in va {
      var i :| 0 <= i < |vb| && vb[i] == v;
      assert b[i] in a;
      var j :| 0 <= j < |a| && a[j] == b[i];
      assert va[j] == v;
    }
    AscendingUnique(va, vb);
    forall i | 0 <= i < |a| ensures a[i] == b[i] { assert va[i] == vb[i]; }
  }

  lemma SelectionWithin(rows: map<Uuid, Message>, candidates: set<Uuid>, limit: int, a: seq<Uuid>, b: seq<Uuid>)
    requires candidates <= rows.Keys
    requires IsSelection(rows, candidates, limit, a) && IsSelection(rows, candidates, limit, b)
    ensures forall id | id in a :: id in b
  {
    if x :| x in a && x !in b {
      var i :| 0 <= i < |a| && a[i] == x;
      assert |b| == limit;
      // every chosen row of b lies below x, so it is in a; then a has limit + 1 rows
      forall y | y in b ensures y in a && y != x {
        var j :| 0 <= j < |b| && b[j] == y;
        assert rows[y].sequence < rows[a[i]].sequence;
      }
      assert forall i, j | 0 <= i < j < |a| :: a[i] != a[j];
      assert forall i, j | 0 <= i < j < |b| :: b[i] != b[j];
      var sa, sb := set id | id in a, set id | id in b;
      DistinctSize(a);
      DistinctSize(b);
      assert sb <= sa - {x};
      SubsetSize(sb, sa - {x});
      assert false;
    }
  }

  lemma {:induction false} DistinctSize<T>(s: seq<T>)
    requires forall i, j | 0 <= i < j < |s| :: s[i] != s[j]
    ensures |set x | x in s| == |s|
  {
    if s != [] {
      var n := |s| - 1;
      DistinctSize(s[..n]);
      assert (set x | x in s) == (set x | x in s[..n]) + {s[n]};
    }
  }

  lemma {:induction false} SubsetSize<T>(a: set<T>, b: set<T>)
    requires a <= b
    ensures |a| <= |b|
  {
    assert b == a + (b - a);
  }

  // ---------------------------------------------------------------- sorting the returned rows

  predicate Ascending(values: seq<Message>) {
    forall i, j | 0 <= i < j < |values| :: values[i].sequence < values[j].sequence
  }

  ghost predicate Within(a: seq<Message>, b: seq<Message>) {
    forall v | v in a :: v in b
  }

  /** Two ascending sequences of the same messages are equal. */
  lemma {:induction false} AscendingUnique(a: seq<Message>, b: seq<Message>)
    requires Ascending(a) && Ascending(b) && Within(a, b) && Within(b, a)
    ensures a == b
  {
    if a == [] {
      if b != [] { HeadsAgree(b, a); }
    } else {
      HeadsAgree(a, b);
      TailsAgree(a, b);
      TailsAgree(b, a);
      AscendingUnique(a[1..], b[1..]);
      assert a == [a[0]] + a[1..] && b == [b[0]] + b[1..];
    }
  }

  lemma HeadsAgree(a: seq<Message>, b: seq<Message>)
    requires Ascending(a) && Ascending(b) && Within(a, b) && Within(b, a) && a != []
    ensures b != [] && a[0] == b[0]
  {
    assert a[0] in b;
    var i :| 0 <= i < |b| && b[i] == a[0];
    assert b[0] in a;
    var j :| 0 <= j < |a| && a[j] == b[0];
  }

  lemma TailsAgree(a: seq<Message>, b: seq<Message>)
    requires Ascending(a) && a != [] && b != [] && a[0] == b[0] && Within(a, b)
    ensures Within(a[1..], b[1..])
  {
    forall v | v in a[1..] ensures v in b[1..] {
      var i :| 0 <= i < |a[1..]| && a[1..][i] == v;
      assert a[i + 1] == v && v in a;
      var j :| 0 <= j < |b| && b[j] == v;
      assert j > 0 && b[1..][j - 1] == v;
    }
  }

  /** sort.Slice by sequence, for rows of distinct sequences. */
  method SortBySequence(values: seq<Message>) returns (sorted: seq<Message>)
    requires forall i, j | 0 <= i < j < |values| :: values[i].sequence != values[j].sequence
    ensures Ascending(sorted) && |sorted| == |values|
    ensures forall v :: v in sorted <==> v in values
  {
    sorted := [];
    for n := 0 to |values|
      invariant Ascending(sorted) && |sorted| == n
      invariant forall v :: v in sorted <==> v in values[..n]
    {
      var v := values[n];
      var at := 0;
      while at < |sorted| && sorted[at].sequence < v.sequence
        invariant 0 <= at <= |sorted| && forall i | 0 <= i < at :: sorted[i].sequence < v.sequence
      {
        at := at + 1;
      }
      forall i | 0 <= i < |sorted| ensures sorted[i].sequence != v.sequence {
        assert sorted[i] in values[..n];
      }
      sorted := sorted[..at] + [v] + sorted[at..];
      assert values[..n + 1] == values[..n] + [v];
    }
    assert values[..|values|] == values;
  }
}
