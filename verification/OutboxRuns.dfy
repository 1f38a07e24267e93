/** What every run of outbox steps keeps: attempt counts, fencing by claim token,
    lease order, one ending per message, a bound on updates, and the exact rows
    no claim can ever move. */
module OutboxRuns {
  import opened Shared
  import opened Uuids
  import opened Outbox

  /** A run from the empty table: any steps, by any workers, in any order. */
  ghost predicate IsRun(states: seq<Table>, steps: seq<Step>) {
    && |states| == |steps| + 1 && states[0] == EMPTY
    && forall k | 0 <= k < |steps| :: StepAt(states, steps, k)
  }

  ghost predicate StepAt(states: seq<Table>, steps: seq<Step>, k: nat)
    requires |states| == |steps| + 1 && k < |steps|
  {
    Next(states[k], steps[k], states[k + 1])
  }

  predicate Takes(step: Step, id: Uuid) {
    step.Take? && id in step.taken
  }

  predicate Finishes(step: Step, id: Uuid) {
    step.Finish? && step.id == id
  }

  /** The steps that end a message's life, if it is live before them. */
  predicate Ends(s: Table, step: Step, id: Uuid) {
    || (step.Finish? && step.id == id && !step.how.Retried?)
    || (step.Sweep? && id in s.rows && Sweepable(s.rows[id], step.at))
  }

  /** No two claims use the same token. */
  ghost predicate FreshTokens(steps: seq<Step>) {
    forall i, j | 0 <= i < j < |steps| && steps[i].Take? && steps[j].Take? :: steps[i].token != steps[j].token
  }

  function TakeCount(steps: seq<Step>, id: Uuid): nat {
    if steps == [] then 0
    else TakeCount(steps[..|steps| - 1], id) + if Takes(steps[|steps| - 1], id) then 1 else 0
  }

  /** The index of the last claim that took the message, or -1. */
  function LastTake(steps: seq<Step>, id: Uuid): (i: int)
    ensures -1 <= i < |steps| && (i >= 0 ==> Takes(steps[i], id))
    ensures forall k | i < k < |steps| :: !Takes(steps[k], id)
  {
    if steps == [] then -1
    else if Takes(steps[|steps| - 1], id) then |steps| - 1
    else LastTake(steps[..|steps| - 1], id)
  }

  /** The index of the last completion of the message, or -1. */
  function LastFinish(steps: seq<Step>, id: Uuid): (i: int)
    ensures -1 <= i < |steps| && (i >= 0 ==> Finishes(steps[i], id))
    ensures forall k | i < k < |steps| :: !Finishes(steps[k], id)
  {
    if steps == [] then -1
    else if Finishes(steps[|steps| - 1], id) then |steps| - 1
    else LastFinish(steps[..|steps| - 1], id)
  }

  lemma RunPrefix(states: seq<Table>, steps: seq<Step>, k: nat)
    requires IsRun(states, steps) && k <= |steps|
    ensures IsRun(states[..k + 1], steps[..k]) && states[..k + 1][k] == states[k]
  {
    var front, done := states[..k + 1], steps[..k];
    forall i | 0 <= i < k ensures StepAt(front, done, i) {
      assert StepAt(states, steps, i);
    }
  }

  /** Every reachable table satisfies the invariant, so every stored row passes validateDelivery. */
  lemma {:induction false} RunKeepsInv(states: seq<Table>, steps: seq<Step>, k: nat)
    requires IsRun(states, steps) && k <= |steps|
    ensures Inv(states[k])
  {
    if k > 0 {
      RunKeepsInv(states, steps, k - 1);
      assert StepAt(states, steps, k - 1);
      StepKeepsInv(states[k - 1], steps[k - 1], states[k]);
    }
  }

  lemma RunStep(states: seq<Table>, steps: seq<Step>, k: nat)
    requires IsRun(states, steps) && k < |steps|
    ensures Inv(states[k]) && Next(states[k], steps[k], states[k + 1])
  {
    RunKeepsInv(states, steps, k);
    assert StepAt(states, steps, k);
  }

  // ---------------------------------------------------------------- rows agree with history

  /** The stored row of a message, told from the steps alone. */
  ghost predicate Agrees(steps: seq<Step>, m: Message) {
    var l := LastTake(steps, m.id);
    && m.attempts == TakeCount(steps, m.id)
    && (m.state.Pending? ==> l == -1)
    && (m.state.Claimed? ==>
          && l >= 0 && LastFinish(steps, m.id) < l
          && m.token == Some(steps[l].token) && m.worker == steps[l].worker && m.claimedAt == Some(steps[l].at)
          && m.leaseUntil == Some(steps[l].at + steps[l].lease / 1000))
    && (m.state.Retry? ==> l >= 0 && LastFinish(steps, m.id) > l && m.availableAt > steps[l].at)
  }

  ghost predicate HistoryOk(s: Table, steps: seq<Step>, id: Uuid) {
    if id in s.rows then s.rows[id].id == id && Agrees(steps, s.rows[id])
    else TakeCount(steps, id) == 0 && LastTake(steps, id) == -1
  }

  lemma {:induction false} RunAgrees(states: seq<Table>, steps: seq<Step>, id: Uuid)
    requires IsRun(states, steps)
    ensures HistoryOk(states[|steps|], steps, id)
  {
    if steps != [] {
      var n := |steps| - 1;
      RunPrefix(states, steps, n);
      RunAgrees(states[..n + 1], steps[..n], id);
      RunStep(states, steps, n);
      StepAgrees(states[n], steps[..n], steps[n], states[n + 1], id);
      assert steps == steps[..n] + [steps[n]];
    }
  }

  /** What a step does to one stored row. */
  function RowUpdate(step: Step, m: Message): Message {
    match step
    case Sweep(at) => if Sweepable(m, at) then SweepRow(m, at) else m
    case Take(token, worker, at, lease, _, _, taken) =>
      if m.id in taken then TakeRow(m, token, worker, at, lease / 1000) else m
    case Finish(id, _, how, at) => if m.id == id then FinishRow(m, how, at) else m
    case _ => m
  }

  /** What a step that touches the row needs of it. */
  predicate RowEnabled(step: Step, m: Message) {
    && (Takes(step, m.id) ==> Claimable(m, step.at) && step.lease >= 1000 && Readable(m))
    && (Finishes(step, m.id) ==>
          m.state.Claimed? && m.token == Some(step.token) && UpdateAllowed(m, FinishRow(m, step.how, step.at)))
  }

  lemma RowAfter(s: Table, step: Step, t: Table, id: Uuid)
    requires Inv(s) && Next(s, step, t) && id in s.rows
    ensures id in t.rows && t.rows[id] == RowUpdate(step, s.rows[id]) && RowEnabled(step, s.rows[id])
  {
  }

  lemma RunRow(states: seq<Table>, steps: seq<Step>, k: nat, id: Uuid)
    requires IsRun(states, steps) && k < |steps| && id in states[k].rows
    ensures id in states[k + 1].rows && states[k].rows[id].id == id && RowOk(states[k].rows[id])
    ensures states[k + 1].rows[id] == RowUpdate(steps[k], states[k].rows[id])
            && RowEnabled(steps[k], states[k].rows[id])
  {
    RunStep(states, steps, k);
    RowAfter(states[k], steps[k], states[k + 1], id);
  }

  lemma Untouched(s: Table, step: Step, t: Table, id: Uuid)
    requires Inv(s) && Next(s, step, t) && id !in s.rows
    ensures !Takes(step, id) && !Finishes(step, id)
    ensures id in t.rows ==> t.rows[id].id == id && t.rows[id].state.Pending? && t.rows[id].attempts == 0
  {
  }

  lemma Extend(before: seq<Step>, step: Step, id: Uuid)
    ensures var steps := before + [step];
            && TakeCount(steps, id) == TakeCount(before, id) + (if Takes(step, id) then 1 else 0)
            && LastTake(steps, id) == (if Takes(step, id) then |before| else LastTake(before, id))
            && LastFinish(steps, id) == (if Finishes(step, id) then |before| else LastFinish(before, id))
            && forall k | 0 <= k < |before| :: steps[k] == before[k]
  {
    var steps := before + [step];
    assert steps[..|steps| - 1] == before;
  }

  lemma StepAgrees(s: Table, before: seq<Step>, step: Step, t: Table, id: Uuid)
    requires Inv(s) && Next(s, step, t) && HistoryOk(s, before, id)
    ensures HistoryOk(t, before + [step], id)
  {
    Extend(before, step, id);
    if id in s.rows {
      RowAfter(s, step, t, id);
      RowAgrees(before, step, s.rows[id]);
    } else {
      Untouched(s, step, t, id);
    }
  }

  lemma RowAgrees(before: seq<Step>, step: Step, m: Message)
    requires Agrees(before, m) && RowEnabled(step, m)
    ensures Agrees(before + [step], RowUpdate(step, m))
  {
    Extend(before, step, m.id);
    var n := RowUpdate(step, m);
    if Takes(step, m.id) {
      assert n.state.Claimed? && n.attempts == m.attempts + 1;
    } else if Finishes(step, m.id) {
      assert !n.state.Claimed? && !n.state.Pending? && n.attempts == m.attempts;
    } else if n != m {
      assert n.state.DeadLetter? && n.attempts == m.attempts;
    }
  }

  // ---------------------------------------------------------------- attempts and immutability

  /** A stored message's attempt count is the number of claims that took it, and never exceeds 1000. */
  lemma AttemptsCountClaims(states: seq<Table>, steps: seq<Step>, id: Uuid)
    requires IsRun(states, steps) && id in states[|steps|].rows
    ensures states[|steps|].rows[id].attempts == TakeCount(steps, id) <= MAX_ATTEMPTS
  {
    RunAgrees(states, steps, id);
    RunKeepsInv(states, steps, |steps|);
  }

  /** A message, once stored, is never removed, and its identity, sequence, event
      and creation time never change; once it has ended nothing about it changes. */
  lemma {:induction false} MessagesAreStable(states: seq<Table>, steps: seq<Step>, i: nat, j: nat, id: Uuid)
    requires IsRun(states, steps) && i <= j <= |steps| && id in states[i].rows
    ensures id in states[j].rows
    ensures SameMessage(states[i].rows[id], states[j].rows[id])
  {
    if i < j {
      MessagesAreStable(states, steps, i, j - 1, id);
      RunRow(states, steps, j - 1, id);
      UpdateKeepsMessage(steps[j - 1], states[j - 1].rows[id]);
    }
  }

  predicate SameMessage(m: Message, n: Message) {
    && n.id == m.id && n.sequence == m.sequence && n.event == m.event && n.createdAt == m.createdAt
    && (!Live(m) ==> n == m)
  }

  lemma UpdateKeepsMessage(step: Step, m: Message)
    requires RowEnabled(step, m)
    ensures SameMessage(m, RowUpdate(step, m))
    ensures Stuck(m) ==> RowUpdate(step, m) == m
    ensures !Live(m) ==> !Takes(step, m.id) && !Finishes(step, m.id)
  {
  }

  // ---------------------------------------------------------------- fencing

  /** A completion that succeeds carries the token of the latest claim of its message. */
  lemma CompletionUsesLatestClaim(states: seq<Table>, steps: seq<Step>, k: nat, id: Uuid)
    requires IsRun(states, steps) && k < |steps| && Finishes(steps[k], id)
    ensures LastTake(steps[..k], id) >= 0 && steps[k].token == steps[LastTake(steps[..k], id)].token
    ensures LastFinish(steps[..k], id) < LastTake(steps[..k], id)
    ensures id in states[k].rows
  {
    RunPrefix(states, steps, k);
    RunAgrees(states[..k + 1], steps[..k], id);
    RunStep(states, steps, k);
    RowAfter(states[k], steps[k], states[k + 1], id);
    assert steps[..k][LastTake(steps[..k], id)] == steps[LastTake(steps[..k], id)];
  }

  /** Fencing: once a later claim has taken the message, the earlier claim's token
      completes nothing on it, whatever the lease. */
  lemma SupersededTokenIsFenced(states: seq<Table>, steps: seq<Step>, i: nat, j: nat, k: nat, id: Uuid)
    requires IsRun(states, steps) && FreshTokens(steps)
    requires i < j < k < |steps| && Takes(steps[i], id) && Takes(steps[j], id) && Finishes(steps[k], id)
    ensures steps[k].token != steps[i].token
  {
    CompletionUsesLatestClaim(states, steps, k, id);
    var l := LastTake(steps[..k], id);
    assert steps[..k][j] == steps[j];
    assert steps[..k][l] == steps[l];
  }

  /** Each claim of a message is completed at most once: a second completion with the
      same token needs a new claim of the message in between. */
  lemma OneCompletionPerClaim(states: seq<Table>, steps: seq<Step>, j: nat, k: nat, id: Uuid)
    requires IsRun(states, steps) && FreshTokens(steps)
    requires j < k < |steps| && Finishes(steps[j], id) && Finishes(steps[k], id)
    ensures steps[k].token != steps[j].token
    ensures exists i :: j < i < k && Takes(steps[i], id)
  {
    CompletionUsesLatestClaim(states, steps, j, id);
    CompletionUsesLatestClaim(states, steps, k, id);
    var l, i := LastTake(steps[..j], id), LastTake(steps[..k], id);
    assert steps[..k][j] == steps[j];
    assert steps[..k][i] == steps[i] && steps[..j][l] == steps[l];
  }

  /** A message ends at most once: of Deliver, DeadLetter and the exhausted sweep,
      one step in the whole run succeeds. */
  lemma EndsAtMostOnce(states: seq<Table>, steps: seq<Step>, j: nat, k: nat, id: Uuid)
    requires IsRun(states, steps) && j < k < |steps|
    requires Ends(states[j], steps[j], id)
    ensures !Ends(states[k], steps[k], id) && !Takes(steps[k], id) && !Finishes(steps[k], id)
  {
    if !steps[j].Sweep? { CompletionUsesLatestClaim(states, steps, j, id); }
    RunRow(states, steps, j, id);
    MessagesAreStable(states, steps, j + 1, k, id);
    RunRow(states, steps, k, id);
    UpdateKeepsMessage(steps[k], states[k].rows[id]);
  }

  // ---------------------------------------------------------------- leases

  /** The claims of one message happen at strictly increasing times, whichever workers' clocks set them. */
  lemma {:induction false} ClaimTimesIncrease(states: seq<Table>, steps: seq<Step>, i: nat, j: nat, id: Uuid)
    requires IsRun(states, steps) && i < j < |steps| && Takes(steps[i], id) && Takes(steps[j], id)
    ensures steps[i].at < steps[j].at
    decreases j
  {
    var l := LatestBefore(states, steps, i, j, id);
    if i < l { ClaimTimesIncrease(states, steps, i, l, id); }
  }

  /** The lease of a claim has run out before any later claim that no retry made room for. */
  lemma {:induction false} LeasesAreDisjoint(states: seq<Table>, steps: seq<Step>, i: nat, j: nat, id: Uuid)
    requires IsRun(states, steps) && i < j < |steps| && Takes(steps[i], id) && Takes(steps[j], id)
    requires forall k | i < k < j :: !Finishes(steps[k], id)
    ensures steps[i].at + steps[i].lease / 1000 <= steps[j].at
    decreases j
  {
    var l := LatestBefore(states, steps, i, j, id);
    assert forall k | 0 <= k < j :: steps[..j][k] == steps[k];
    if i < l {
      LeasesAreDisjoint(states, steps, i, l, id);
      ClaimTimesIncrease(states, steps, l, j, id);
    }
  }

  /** The claim just before claim j, with what its row says at j. */
  lemma LatestBefore(states: seq<Table>, steps: seq<Step>, i: nat, j: nat, id: Uuid) returns (l: nat)
    requires IsRun(states, steps) && i < j < |steps| && Takes(steps[i], id) && Takes(steps[j], id)
    ensures l == LastTake(steps[..j], id) && i <= l < j && Takes(steps[l], id)
    ensures steps[l].at < steps[j].at
    ensures steps[l].at + steps[l].lease / 1000 <= steps[j].at || LastFinish(steps[..j], id) > l
  {
    RunPrefix(states, steps, j);
    RunAgrees(states[..j + 1], steps[..j], id);
    RunStep(states, steps, j);
    assert steps[..j][i] == steps[i];
    l := LastTake(steps[..j], id);
    assert steps[..j][l] == steps[l];
    assert id in states[j].rows;
    RowAfter(states[j], steps[j], states[j + 1], id);
  }

  // ---------------------------------------------------------------- bound on updates

  /** How many steps changed the stored row of the message. */
  ghost function Updates(states: seq<Table>, steps: seq<Step>, id: Uuid): nat
    requires |states| == |steps| + 1
  {
    if steps == [] then 0
    else
      var n := |steps| - 1;
      Updates(states[..n + 1], steps[..n], id)
      + if id in states[n].rows && id in states[n + 1].rows && states[n].rows[id] != states[n + 1].rows[id]
        then 1
        else 0
  }

  function Potential(m: Message): int {
    2 * (1000 - m.attempts) + (if Live(m) then 1 else 0) + (if m.state.Claimed? then 1 else 0)
  }

  lemma UpdateLowersPotential(step: Step, m: Message)
    requires RowOk(m) && RowEnabled(step, m)
    ensures var n := RowUpdate(step, m);
            n != m ==> Potential(n) <= Potential(m) - (if Live(n) then 1 else 2)
  {
  }

  lemma {:induction false} PotentialPaysForUpdates(states: seq<Table>, steps: seq<Step>, id: Uuid)
    requires IsRun(states, steps)
    ensures id !in states[|steps|].rows ==> Updates(states, steps, id) == 0
    ensures id in states[|steps|].rows ==>
              var m := states[|steps|].rows[id];
              Updates(states, steps, id) + Potential(m) + (if Live(m) then 0 else 1) <= 2001
  {
    if steps != [] {
      var n := |steps| - 1;
      RunPrefix(states, steps, n);
      PotentialPaysForUpdates(states[..n + 1], steps[..n], id);
      RunStep(states, steps, n);
      if id in states[n].rows {
        RowAfter(states[n], steps[n], states[n + 1], id);
        UpdateLowersPotential(steps[n], states[n].rows[id]);
      } else {
        Untouched(states[n], steps[n], states[n + 1], id);
      }
    }
  }

  /** No run updates a message more than 2000 times, so its life is at most 2001 steps with its insertion. */
  lemma UpdatesAreBounded(states: seq<Table>, steps: seq<Step>, id: Uuid)
    requires IsRun(states, steps)
    ensures Updates(states, steps, id) <= 2000
  {
    PotentialPaysForUpdates(states, steps, id);
    RunKeepsInv(states, steps, |steps|);
  }

  // ---------------------------------------------------------------- stuck rows

  /** A retry row that has used all its attempts, or a pending row that cannot be read back. */
  predicate Stuck(m: Message) {
    (m.state.Retry? && m.attempts == MAX_ATTEMPTS) || Unreadable(m)
  }

  predicate Unreadable(m: Message) {
    m.state.Pending? && m.event.time % 1000 != 0
  }

  /** Some claim, at some time, with some other rows locked, changes the message. */
  ghost predicate ClaimCanMove(s: Table, id: Uuid)
    requires id in s.rows
  {
    exists step: Step, t: Table :: (step.Sweep? || step.Take?) && Next(s, step, t) && id in t.rows
        && t.rows[id] != s.rows[id]
  }

  /** The live messages that no claim at any time can move are exactly the stuck ones: retry rows with 1000 attempts,
      and pending rows whose event's time is not a whole microsecond. */
  lemma ExactlyStuckRowsCannotMove(s: Table, id: Uuid)
    requires Inv(s) && id in s.rows && Live(s.rows[id])
    ensures ClaimCanMove(s, id) <==> !Stuck(s.rows[id])
  {
    var m := s.rows[id];
    if Stuck(m) {
      forall step: Step, t: Table | (step.Sweep? || step.Take?) && Next(s, step, t)
        ensures id in t.rows && t.rows[id] == m
      {
        StuckStays(s, step, t, id);
      }
    } else if m.state.Claimed? && m.attempts == MAX_ATTEMPTS {
      var at := m.leaseUntil.value;
      var t := s.(rows := AfterSweep(s.rows, at));
      assert Next(s, Sweep(at), t) && t.rows[id] != m;
    } else {
      MovedByTake(s, id);
    }
  }

  lemma MovedByTake(s: Table, id: Uuid)
    requires Inv(s) && id in s.rows && Live(s.rows[id]) && s.rows[id].attempts < MAX_ATTEMPTS
    requires !Unreadable(s.rows[id])
    ensures ClaimCanMove(s, id)
  {
    var m := s.rows[id];
    ReadableExactly(m);
    assert RowOk(m);
    var due := if m.state.Claimed? then m.leaseUntil.value else m.availableAt;
    var at := if due < 0 then 0 else due;
    assert Claimable(m, at);
    hide RowOk, ValidMessage, Claimable;
    var locked := s.rows.Keys - {id};
    OnlyCandidate(s.rows, id, at);
    var step := Take(id, "w", at, 1000, 1, locked, [id]);
    var t := s.(rows := AfterTake(s.rows, [id], id, "w", at, 1));
    assert Next(s, step, t) && t.rows[id] != m;
  }

  /** With every other row locked a claimable one is all that can be chosen. */
  lemma OnlyCandidate(rows: map<Uuid, Message>, id: Uuid, at: Instant)
    requires id in rows && Claimable(rows[id], at) && Readable(rows[id])
    ensures Candidates(rows, at, rows.Keys - {id}) == {id} && AllReadable(rows, [id])
    ensures IsSelection(rows, Candidates(rows, at, rows.Keys - {id}), 1, [id])
  {
    hide Claimable, Readable;
    assert Candidates(rows, at, rows.Keys - {id}) == {id};
  }

  /** A stuck message stays exactly as it is for the rest of every run: it is never claimed again, nor delivered, nor
      dead-lettered. */
  lemma {:induction false} StuckForever(states: seq<Table>, steps: seq<Step>, i: nat, j: nat, id: Uuid)
    requires IsRun(states, steps) && i <= j <= |steps| && id in states[i].rows && Stuck(states[i].rows[id])
    ensures id in states[j].rows && states[j].rows[id] == states[i].rows[id]
    ensures j < |steps| ==> !Takes(steps[j], id) && !Finishes(steps[j], id)
  {
    if i < j {
      StuckForever(states, steps, i, j - 1, id);
      RunRow(states, steps, j - 1, id);
      UpdateKeepsMessage(steps[j - 1], states[j - 1].rows[id]);
    }
    if j < |steps| {
      RunRow(states, steps, j, id);
      ReadableExactly(states[j].rows[id]);
    }
  }

  /** An unreadable message stands in the way of all later ones: for the rest of every run, a claim that finds it due
      and not locked takes only messages of lower sequence, and as many as it may; so once no lower one is due no such
      claim succeeds, whatever its limit. */
  lemma UnreadableBlocksLater(states: seq<Table>, steps: seq<Step>, i: nat, k: nat, id: Uuid)
    requires IsRun(states, steps) && i <= k < |steps| && id in states[i].rows && Unreadable(states[i].rows[id])
    requires steps[k].Take? && steps[k].at >= states[i].rows[id].availableAt && id !in steps[k].locked
    ensures |steps[k].taken| == steps[k].limit >= 1
    ensures forall other | other in steps[k].taken ::
              && other in states[k].rows && Claimable(states[k].rows[other], steps[k].at)
              && states[k].rows[other].sequence < states[i].rows[id].sequence
  {
    StuckForever(states, steps, i, k, id);
    RunStep(states, steps, k);
    assert id in Candidates(states[k].rows, steps[k].at, steps[k].locked);
  }

  lemma StuckStays(s: Table, step: Step, t: Table, id: Uuid)
    requires Inv(s) && Next(s, step, t) && id in s.rows && Stuck(s.rows[id])
    ensures id in t.rows && t.rows[id] == s.rows[id]
  {
    RowAfter(s, step, t, id);
  }

  // ---------------------------------------------------------------- a stuck retry row is reached

  /** A message as it is first recorded, which can be read back. */
  predicate FirstMessage(m: Message) {
    && ValidMessage(m) && m.state.Pending? && m.sequence == 1
    && m.availableAt == m.createdAt == StoredTime(m.event.time) && Readable(m)
  }

  /** The message after n claims that were each put back a microsecond later. */
  function Waiting(m: Message, n: nat): Message {
    if n == 0 then m
    else m.(state := Retry, attempts := n, lastError := Some("busy"), availableAt := m.createdAt + n)
  }

  function OnlyRow(m: Message, row: Message): Table {
    Table(map[m.id := row], Some(2))
  }

  /** The token of the n-th claim. */
  function Token(n: nat): (token: Uuid)
    requires n <= MAX_ATTEMPTS
    ensures ValidUuid(token) && 256 * token[0] as nat + token[1] as nat == n
  {
    [(n / 256) as Byte, (n % 256) as Byte, 0, 0, 0, 0, 0x70, 0, 0x80, 0, 0, 0, 0, 0, 0, 0]
  }

  lemma TokensDiffer(a: nat, b: nat)
    requires a <= MAX_ATTEMPTS && b <= MAX_ATTEMPTS && a != b
    ensures Token(a) != Token(b)
  {
  }

  /** The claims so far, in order, have used the tokens 1 to n. */
  ghost predicate Tokens(steps: seq<Step>, n: nat) {
    && FreshTokens(steps)
    && forall i | 0 <= i < |steps| && steps[i].Take? ::
         exists k :: 1 <= k <= n && k <= MAX_ATTEMPTS && steps[i].token == Token(k)
  }

  lemma OneMoreToken(steps: seq<Step>, n: nat, take: Step, finish: Step)
    requires 1 <= n <= MAX_ATTEMPTS && Tokens(steps, n - 1)
    requires take.Take? && take.token == Token(n) && finish.Finish?
    ensures Tokens(steps + [take] + [finish], n)
  {
    hide Token;
    var more := steps + [take] + [finish];
    forall i | 0 <= i < |more| && more[i].Take?
      ensures exists k :: 1 <= k <= n && k <= MAX_ATTEMPTS && more[i].token == Token(k)
      ensures i < |steps| ==> more[i].token != Token(n)
    {
      if i < |steps| {
        assert more[i] == steps[i];
        var k :| 1 <= k <= n - 1 && k <= MAX_ATTEMPTS && steps[i].token == Token(k);
        TokensDiffer(k, n);
      } else {
        assert more[i].token == Token(n);
      }
    }
  }

  lemma ExtendRun(states: seq<Table>, steps: seq<Step>, step: Step, t: Table)
    requires IsRun(states, steps) && Next(states[|steps|], step, t)
    ensures IsRun(states + [t], steps + [step])
  {
    hide Next;
    var front, done := states + [t], steps + [step];
    forall k | 0 <= k < |done| ensures StepAt(front, done, k) {
      if k < |steps| { assert StepAt(states, steps, k); }
    }
  }

  /** One more claim of a waiting message, and one more report that puts it back. */
  lemma OneMoreRetry(m: Message, n: nat)
    requires FirstMessage(m) && 1 <= n <= MAX_ATTEMPTS
    ensures var at := m.createdAt + n - 1;
            var held := TakeRow(Waiting(m, n - 1), Token(n), "w", at, 1);
            && Next(OnlyRow(m, Waiting(m, n - 1)), Take(Token(n), "w", at, 1000, 1, {}, [m.id]), OnlyRow(m, held))
            && Next(OnlyRow(m, held), Finish(m.id, Token(n), Retried("busy"), at + 1), OnlyRow(m, Waiting(m, n)))
  {
    hide ValidUuid;
    var at := m.createdAt + n - 1;
    var row := Waiting(m, n - 1);
    var held := TakeRow(row, Token(n), "w", at, 1);
    var rows := map[m.id := row];
    assert Candidates(rows, at, {}) == {m.id};
    assert AfterTake(rows, [m.id], Token(n), "w", at, 1) == map[m.id := held];
    assert FinishRow(held, Retried("busy"), at + 1) == Waiting(m, n);
    assert map[m.id := held][m.id := Waiting(m, n)] == map[m.id := Waiting(m, n)];
  }

  lemma FirstSteps(m: Message) returns (states: seq<Table>, steps: seq<Step>)
    requires FirstMessage(m)
    ensures IsRun(states, steps) && Tokens(steps, 0) && states[|steps|] == OnlyRow(m, Waiting(m, 0))
  {
    var numbered := Table(map[], Some(2));
    states, steps := [EMPTY], [];
    ExtendRun(states, steps, Allocate(1), numbered);
    states, steps := states + [numbered], steps + [Allocate(1)];
    ExtendRun(states, steps, Append(m), OnlyRow(m, m));
    states, steps := states + [OnlyRow(m, m)], steps + [Append(m)];
  }

  lemma {:induction false} WaitingIsReached(m: Message, n: nat) returns (states: seq<Table>, steps: seq<Step>)
    requires FirstMessage(m) && n <= MAX_ATTEMPTS
    ensures IsRun(states, steps) && Tokens(steps, n) && states[|steps|] == OnlyRow(m, Waiting(m, n))
  {
    hide Next, Waiting, OnlyRow, Token, Tokens, StepAt, ValidUuid;
    if n == 0 {
      states, steps := FirstSteps(m);
    } else {
      states, steps := WaitingIsReached(m, n - 1);
      var at := m.createdAt + n - 1;
      var take := Take(Token(n), "w", at, 1000, 1, {}, [m.id]);
      var finish := Finish(m.id, Token(n), Retried("busy"), at + 1);
      var held := OnlyRow(m, TakeRow(Waiting(m, n - 1), Token(n), "w", at, 1));
      OneMoreRetry(m, n);
      ExtendRun(states, steps, take, held);
      ExtendRun(states + [held], steps + [take], finish, OnlyRow(m, Waiting(m, n)));
      OneMoreToken(steps, n, take, finish);
      states, steps := states + [held] + [OnlyRow(m, Waiting(m, n))], steps + [take] + [finish];
    }
  }

  /** Over-using a message is easy: any readable first message can be claimed a thousand times, under different tokens,
      and put back each time; then it waits for ever. */
  lemma ExhaustedRetryIsReached(m: Message) returns (states: seq<Table>, steps: seq<Step>)
    requires FirstMessage(m)
    ensures IsRun(states, steps) && FreshTokens(steps) && m.id in states[|steps|].rows
    ensures var row := states[|steps|].rows[m.id];
            row.state.Retry? && row.attempts == MAX_ATTEMPTS && Stuck(row)
  {
    states, steps := WaitingIsReached(m, MAX_ATTEMPTS);
  }
}
