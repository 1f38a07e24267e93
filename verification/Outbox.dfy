/** The outbox delivery protocol: one tenant's outbox_messages rows and its
    sequence allocator, the SQL statements that change them, the domain check
    every returned row passes, and what all runs of these steps keep. */
module Outbox {
  import opened Shared
  import opened Uuids

  const MAX_CLAIM_BATCH := 100
  const MAX_ATTEMPTS := 1000
  const MAX_LEASE_NANOS := 900_000_000_000
  const MAX_LEASE := 900_000_000
  const MAX_RETRY_DELAY := DAY
  const DELIVERED_RETENTION := 30 * DAY
  const DEAD_LETTER_RETENTION := 90 * DAY

  datatype State = Pending | Claimed | Retry | Delivered | DeadLetter

  /** The immutable event carried by a message. time is the one the payload states, read from its text. */
  datatype Event = Event(
    source: string, eventType: string, subject: string, payload: seq<Byte>, digest: string, time: Nanos)

  /** A row of outbox_messages, which is also the domain's Message, its times as stored. An absent
      worker is the empty string. A message in memory that has not been stored yet was created at its event's time,
      and createdAt is what the database will keep of that. */
  datatype Message = Message(
    id: Uuid, sequence: int, event: Event, createdAt: Instant,
    state: State, attempts: int, availableAt: Instant,
    token: Option<Uuid>, worker: string, claimedAt: Option<Instant>, leaseUntil: Option<Instant>,
    lastError: Option<string>, deliveredAt: Option<Instant>, deadAt: Option<Instant>, retainUntil: Option<Instant>)

  predicate Live(m: Message) {
    m.state.Pending? || m.state.Claimed? || m.state.Retry?
  }

  // ---------------------------------------------------------------- domain check

  predicate HoldsClaim(m: Message) {
    m.token.Some? || m.worker != "" || m.claimedAt.Some? || m.leaseUntil.Some?
  }

  /** validateDelivery. */
  predicate ValidDelivery(m: Message) {
    match m.state
    case Pending =>
      !HoldsClaim(m) && m.deliveredAt.None? && m.deadAt.None? && m.retainUntil.None? && m.attempts == 0
          && m.lastError.None?
    case Retry =>
      !HoldsClaim(m) && m.deliveredAt.None? && m.deadAt.None? && m.retainUntil.None? && m.attempts != 0
          && m.lastError.Some?
    case Claimed =>
      && m.token.Some? && m.attempts != 0 && BoundedText(m.worker, 255) && m.claimedAt.Some? && m.leaseUntil.Some?
      && m.leaseUntil.value > m.claimedAt.value && m.leaseUntil.value <= m.claimedAt.value + MAX_LEASE
      && m.deliveredAt.None? && m.deadAt.None? && m.retainUntil.None? && ValidUuid(m.token.value)
    case Delivered =>
      && !HoldsClaim(m) && m.deliveredAt.Some? && m.deadAt.None? && m.retainUntil.Some?
      && m.retainUntil.value >= m.deliveredAt.value + DELIVERED_RETENTION
    case DeadLetter =>
      && !HoldsClaim(m) && m.deadAt.Some? && m.lastError.Some? && m.lastError.value != "" && m.deliveredAt.None?
      && m.retainUntil.Some? && m.retainUntil.value >= m.deadAt.value + DEAD_LETTER_RETENTION
  }

  /** Restore's checks on everything but the immutable event. */
  predicate ValidMessage(m: Message) {
    && ValidUuid(m.id) && 1 <= m.sequence <= MAX_SEQUENCE
    && m.createdAt != ZERO_TIME && m.availableAt >= m.createdAt
    && 0 <= m.attempts <= MAX_ATTEMPTS && ValidDelivery(m)
  }

  /** validateEnvelope's comparison of the payload's time with the row's creation time, when the row is read back. The
      rest of the envelope was checked when the message was made and cannot have changed. */
  predicate Readable(m: Message) {
    m.event.time == ReadBack(m.createdAt)
  }

  /** The check of every row that is returned to the program. */
  predicate Restorable(m: Message) {
    ValidMessage(m) && Readable(m)
  }

  // ---------------------------------------------------------------- database guards

  /** The row CHECK of outbox_messages. As in SQL, a comparison with an absent
      value does not reject the row. */
  predicate RowCheck(m: Message) {
    && m.sequence > 0 && 0 <= m.attempts <= 1000 && m.availableAt >= m.createdAt
    && match m.state
       case Pending => m.attempts == 0 && m.lastError.None? && NoClaim(m) && NoEnd(m)
       case Retry => m.attempts > 0 && m.lastError.Some? && NoClaim(m) && NoEnd(m)
       case Claimed =>
         && m.token.Some? && m.worker != "" && m.claimedAt.Some?
         && (m.leaseUntil.None?
            || (m.leaseUntil.value > m.claimedAt.value && m.leaseUntil.value <= m.claimedAt.value + MAX_LEASE))
         && m.attempts > 0 && NoEnd(m)
       case Delivered =>
         && NoClaim(m) && m.deliveredAt.Some? && m.deadAt.None?
         && (m.retainUntil.None? || m.retainUntil.value >= m.deliveredAt.value + 30 * DAY)
       case DeadLetter =>
         && NoClaim(m) && m.deliveredAt.None? && m.deadAt.Some? && m.lastError.Some?
         && (m.retainUntil.None? || m.retainUntil.value >= m.deadAt.value + 90 * DAY)
  }

  predicate NoClaim(m: Message) {
    m.token.None? && m.worker == "" && m.claimedAt.None? && m.leaseUntil.None?
  }

  predicate NoEnd(m: Message) {
    m.deliveredAt.None? && m.deadAt.None? && m.retainUntil.None?
  }

  /** guard_outbox_message_update: which updates the trigger lets through. */
  predicate UpdateAllowed(o: Message, n: Message) {
    && o.id == n.id && o.sequence == n.sequence && o.event == n.event && o.createdAt == n.createdAt
    && o.attempts <= n.attempts <= o.attempts + 1
    && (n.state.Claimed? ==> n.attempts == o.attempts + 1)
    && (!n.state.Claimed? ==> n.attempts == o.attempts)
    && (o.state.Claimed? && n.state.Claimed? ==>
          o.leaseUntil.None? || n.claimedAt.None? || o.leaseUntil.value <= n.claimedAt.value)
    && (n.state.Retry? ==>
          && n.lastError.Some?
          && (o.claimedAt.None? || o.claimedAt.value < n.availableAt <= o.claimedAt.value + MAX_RETRY_DELAY))
    && (n.state.Delivered? ==> o.claimedAt.None? || n.deliveredAt.None? || n.deliveredAt.value >= o.claimedAt.value)
    && (n.state.DeadLetter? ==> o.claimedAt.None? || n.deadAt.None? || n.deadAt.value >= o.claimedAt.value)
    && (((o.state.Pending? || o.state.Retry?) && n.state.Claimed?)
        || (o.state.Claimed? && !n.state.Pending?))
  }

  // ---------------------------------------------------------------- row assignments

  function Released(m: Message): Message {
    m.(token := None, worker := "", claimedAt := None, leaseUntil := None)
  }

  predicate Sweepable(m: Message, at: Instant) {
    m.state.Claimed? && m.leaseUntil.Some? && m.leaseUntil.value <= at && m.attempts >= 1000
  }

  function SweepRow(m: Message, at: Instant): Message {
    Released(m).(state := DeadLetter, lastError := Some("outbox.attempts_exhausted"),
                 deadAt := Some(at), retainUntil := Some(at + 90 * DAY))
  }

  predicate Claimable(m: Message, at: Instant) {
    && m.attempts < 1000
    && (((m.state.Pending? || m.state.Retry?) && m.availableAt <= at)
        || (m.state.Claimed? && m.leaseUntil.Some? && m.leaseUntil.value <= at))
  }

  /** lease is in microseconds. */
  function TakeRow(m: Message, token: Uuid, worker: string, at: Instant, lease: int): Message {
    m.(state := Claimed, attempts := m.attempts + 1, token := Some(token), worker := worker,
       claimedAt := Some(at), leaseUntil := Some(at + lease))
  }

  /** What a worker may report about a message it holds. */
  datatype Completion = Retried(reason: string) | Acknowledged | Abandoned(reason: string)

  function FinishRow(m: Message, how: Completion, at: Instant): Message {
    match how
    case Retried(reason) =>
      Released(m).(lastError := Some(reason), state := Retry, availableAt := at)
    case Acknowledged =>
      Released(m).(state := Delivered, deliveredAt := Some(at), retainUntil := Some(at + 30 * DAY))
    case Abandoned(reason) =>
      Released(m).(lastError := Some(reason), state := DeadLetter, deadAt := Some(at),
          retainUntil := Some(at + 90 * DAY))
  }

  // ---------------------------------------------------------------- table and steps

  /** One tenant's rows, and its allocator row when there is one. */
  datatype Table = Table(rows: map<Uuid, Message>, nextSequence: Option<int>)

  const EMPTY := Table(map[], None)

  /** A committed statement. Take carries the rows other transactions had locked
      and the rows it chose; its lease is in nanoseconds, as the caller gave it. */
  datatype Step =
    | Allocate(sequence: int)
    | Append(message: Message)
    | Sweep(at: Instant)
    | Take(token: Uuid, worker: string, at: Instant, lease: int, limit: int, locked: set<Uuid>, taken: seq<Uuid>)
    | Finish(id: Uuid, token: Uuid, how: Completion, at: Instant)

  function AfterSweep(rows: map<Uuid, Message>, at: Instant): map<Uuid, Message> {
    map id | id in rows :: if Sweepable(rows[id], at) then SweepRow(rows[id], at) else rows[id]
  }

  function AfterTake(
      rows: map<Uuid, Message>, taken: seq<Uuid>, token: Uuid, worker: string, at: Instant, lease: int)
    : map<Uuid, Message>
  {
    map id | id in rows :: if id in taken then TakeRow(rows[id], token, worker, at, lease) else rows[id]
  }

  /** The rows the candidate query may lock. */
  function Candidates(rows: map<Uuid, Message>, at: Instant, locked: set<Uuid>): set<Uuid> {
    set id | id in rows && id !in locked && Claimable(rows[id], at)
  }

  /** taken is the candidates of lowest sequence, up to the limit, ascending. */
  predicate IsSelection(rows: map<Uuid, Message>, candidates: set<Uuid>, limit: int, taken: seq<Uuid>)
    requires candidates <= rows.Keys
  {
    && |taken| <= limit
    && (forall i | 0 <= i < |taken| :: taken[i] in candidates)
    && (forall i, j | 0 <= i < j < |taken| :: rows[taken[i]].sequence < rows[taken[j]].sequence)
    && (forall id | id in candidates && id !in taken ::
          |taken| == limit && forall i | 0 <= i < |taken| :: rows[taken[i]].sequence < rows[id].sequence)
  }

  predicate ValidClaim(worker: string, token: Uuid, lease: int, limit: int) {
    && ValidUuid(token) && 0 < lease <= MAX_LEASE_NANOS && 1 <= limit <= MAX_CLAIM_BATCH
    && BoundedText(worker, 255)
  }

  predicate ValidFinish(id: Uuid, token: Uuid, how: Completion) {
    && ValidUuid(id) && ValidUuid(token)
    && (how.Retried? ==> how.reason != "") && (how.Abandoned? ==> how.reason != "")
  }

  predicate HeldWith(rows: map<Uuid, Message>, id: Uuid, token: Uuid) {
    id in rows && rows[id].state.Claimed? && rows[id].token == Some(token)
  }

  predicate AppendAllowed(s: Table, m: Message) {
    && ValidMessage(m) && m.state.Pending? && m.availableAt == m.createdAt && m.createdAt == StoredTime(m.event.time)
    && m.id !in s.rows && (forall id | id in s.rows :: s.rows[id].sequence != m.sequence)
    && s.nextSequence == Some(m.sequence + 1)
  }

  ghost predicate Next(s: Table, step: Step, t: Table) {
    match step
    case Allocate(sequence) =>
      && t.rows == s.rows && sequence < MAX_SEQUENCE
      && sequence == (if s.nextSequence.None? then 1 else s.nextSequence.value)
      && t.nextSequence == Some(sequence + 1)
    case Append(m) =>
      AppendAllowed(s, m) && t == s.(rows := s.rows[m.id := m])
    case Sweep(at) =>
      t == s.(rows := AfterSweep(s.rows, at))
    case Take(token, worker, at, lease, limit, locked, taken) =>
      && ValidClaim(worker, token, lease, limit)
      && IsSelection(s.rows, Candidates(s.rows, at, locked), limit, taken)
      && (taken != [] ==> lease >= 1000) && AllReadable(s.rows, taken)
      && t == s.(rows := AfterTake(s.rows, taken, token, worker, at, lease / 1000))
    case Finish(id, token, how, at) =>
      && ValidFinish(id, token, how) && HeldWith(s.rows, id, token)
      && UpdateAllowed(s.rows[id], FinishRow(s.rows[id], how, at))
      && t == s.(rows := s.rows[id := FinishRow(s.rows[id], how, at)])
  }

  predicate AllReadable(rows: map<Uuid, Message>, ids: seq<Uuid>) {
    forall id | id in ids && id in rows :: Readable(rows[id])
  }

  /** What every stored row satisfies: the checks on its delivery, the order of its times, and that it is readable
      unless it is still pending. */
  predicate RowOk(m: Message) {
    && ValidMessage(m) && m.createdAt == StoredTime(m.event.time) && (!m.state.Pending? ==> Readable(m))
    && (m.state.Claimed? ==> m.claimedAt.value >= m.createdAt)
    && (m.state.Retry? ==> m.availableAt > m.createdAt)
  }

  predicate AllocatorOk(s: Table) {
    if s.nextSequence.None? then s.rows == map[] else 2 <= s.nextSequence.value <= MAX_SEQUENCE
  }

  ghost predicate Inv(s: Table) {
    && (forall id | id in s.rows :: s.rows[id].id == id && RowOk(s.rows[id]))
    && (forall a, b | a in s.rows && b in s.rows && a != b :: s.rows[a].sequence != s.rows[b].sequence)
    && AllocatorOk(s)
    && (forall id | id in s.rows :: s.nextSequence.Some? && s.rows[id].sequence < s.nextSequence.value)
  }

  // ---------------------------------------------------------------- one step

  /** Every update the steps make on a good row passes the trigger and the row
      CHECK, and yields a row the domain accepts. */
  lemma SweepRowOk(m: Message, at: Instant)
    requires RowOk(m) && Sweepable(m, at)
    ensures RowOk(SweepRow(m, at)) && UpdateAllowed(m, SweepRow(m, at)) && RowCheck(SweepRow(m, at))
  {
  }

  /** Claiming a claimable row is accepted by trigger and CHECK exactly when the lease is at least one microsecond,
      and the row it returns by the domain exactly when the row is readable as well. */
  lemma TakeRowOk(m: Message, token: Uuid, worker: string, at: Instant, lease: int)
    requires RowOk(m) && Claimable(m, at) && ValidUuid(token) && BoundedText(worker, 255) && 0 <= lease <= MAX_LEASE
    ensures UpdateAllowed(m, TakeRow(m, token, worker, at, lease))
    ensures RowCheck(TakeRow(m, token, worker, at, lease)) <==> lease > 0
    ensures RowOk(TakeRow(m, token, worker, at, lease)) <==> lease > 0 && Readable(m)
    ensures Restorable(TakeRow(m, token, worker, at, lease)) <==> lease > 0 && Readable(m)
  {
  }

  lemma FinishRowOk(m: Message, how: Completion, at: Instant)
    requires RowOk(m) && m.state.Claimed? && UpdateAllowed(m, FinishRow(m, how, at))
    requires (how.Retried? ==> how.reason != "") && (how.Abandoned? ==> how.reason != "")
    ensures RowOk(FinishRow(m, how, at)) && RowCheck(FinishRow(m, how, at)) && Restorable(FinishRow(m, how, at))
  {
  }

  /** A stored row can be read back exactly when its event's time is a whole microsecond. */
  lemma ReadableExactly(m: Message)
    requires m.createdAt == StoredTime(m.event.time)
    ensures Readable(m) <==> m.event.time % 1000 == 0
  {
  }

  lemma StepKeepsInv(s: Table, step: Step, t: Table)
    requires Inv(s) && Next(s, step, t)
    ensures Inv(t)
  {
    forall id | id in t.rows
      ensures t.rows[id].id == id && RowOk(t.rows[id])
      ensures t.nextSequence.Some? && t.rows[id].sequence < t.nextSequence.value
    {
      StepKeepsRow(s, step, t, id);
    }
    forall a, b | a in t.rows && b in t.rows && a != b ensures t.rows[a].sequence != t.rows[b].sequence {
      StepKeepsRow(s, step, t, a);
      StepKeepsRow(s, step, t, b);
    }
    StepKeepsAllocator(s, step, t);
  }

  lemma StepKeepsAllocator(s: Table, step: Step, t: Table)
    requires Inv(s) && Next(s, step, t)
    ensures AllocatorOk(t)
  {
  }

  lemma AppendKeepsRow(s: Table, step: Step, t: Table, id: Uuid)
    requires Inv(s) && Next(s, step, t) && id in t.rows && step.Append?
    ensures t.rows[id].id == id && RowOk(t.rows[id])
    ensures t.nextSequence.Some? && t.rows[id].sequence < t.nextSequence.value
    ensures id in s.rows ==> t.rows[id].sequence == s.rows[id].sequence
    ensures id !in s.rows ==> step.Append? && step.message == t.rows[id] && AppendAllowed(s, step.message)
  {
  }

  lemma SweepKeepsRow(s: Table, step: Step, t: Table, id: Uuid)
    requires Inv(s) && Next(s, step, t) && id in t.rows && step.Sweep?
    ensures t.rows[id].id == id && RowOk(t.rows[id])
    ensures t.nextSequence.Some? && t.rows[id].sequence < t.nextSequence.value
    ensures id in s.rows ==> t.rows[id].sequence == s.rows[id].sequence
    ensures id !in s.rows ==> step.Append? && step.message == t.rows[id] && AppendAllowed(s, step.message)
  {
    if Sweepable(s.rows[id], step.at) { SweepRowOk(s.rows[id], step.at); }
    hide RowOk;
  }

  lemma TakeKeepsRow(s: Table, step: Step, t: Table, id: Uuid)
    requires Inv(s) && Next(s, step, t) && id in t.rows && step.Take?
    ensures t.rows[id].id == id && RowOk(t.rows[id])
    ensures t.nextSequence.Some? && t.rows[id].sequence < t.nextSequence.value
    ensures id in s.rows ==> t.rows[id].sequence == s.rows[id].sequence
    ensures id !in s.rows ==> step.Append? && step.message == t.rows[id] && AppendAllowed(s, step.message)
  {
    if id in step.taken { TakeRowOk(s.rows[id], step.token, step.worker, step.at, step.lease / 1000); }
    hide RowOk;
  }

  lemma FinishKeepsRow(s: Table, step: Step, t: Table, id: Uuid)
    requires Inv(s) && Next(s, step, t) && id in t.rows && step.Finish?
    ensures t.rows[id].id == id && RowOk(t.rows[id])
    ensures t.nextSequence.Some? && t.rows[id].sequence < t.nextSequence.value
    ensures id in s.rows ==> t.rows[id].sequence == s.rows[id].sequence
    ensures id !in s.rows ==> step.Append? && step.message == t.rows[id] && AppendAllowed(s, step.message)
  {
    if id == step.id { FinishRowOk(s.rows[id], step.how, step.at); }
    hide RowOk;
  }

  lemma StepKeepsRow(s: Table, step: Step, t: Table, id: Uuid)
    requires Inv(s) && Next(s, step, t) && id in t.rows
    ensures t.rows[id].id == id && RowOk(t.rows[id])
    ensures t.nextSequence.Some? && t.rows[id].sequence < t.nextSequence.value
    ensures id in s.rows ==> t.rows[id].sequence == s.rows[id].sequence
    ensures id !in s.rows ==> step.Append? && step.message == t.rows[id] && AppendAllowed(s, step.message)
  {
    hide RowOk, AppendAllowed;
    match step
    case Allocate(_) =>
    case Append(_) => AppendKeepsRow(s, step, t, id);
    case Sweep(_) => SweepKeepsRow(s, step, t, id);
    case Take(_, _, _, _, _, _, _) => TakeKeepsRow(s, step, t, id);
    case Finish(_, _, _, _) => FinishKeepsRow(s, step, t, id);
  }
}
