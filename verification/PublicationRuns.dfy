/** What holds over whole runs of the delegation services, whatever the interleaving and the failures. */
module PublicationRuns {
  import opened Shared
  import opened Uuids
  import opened UuidText
  import opened Idempotency
  import opened Namespaces
  import opened DelegationEvents
  import opened Publication
  import opened PublicationInvariant
  import Ownership = NamespaceOwnership
  import Guards = NamespaceGuards

  ghost predicate Valid(s: State, steps: seq<Step>)
    decreases |steps|, 0
  {
    steps == [] ||
    (var front, last := steps[..|steps| - 1], steps[|steps| - 1];
     Valid(s, front) && Enabled(Run(s, front), last))
  }

  ghost function Run(s: State, steps: seq<Step>): State
    requires Valid(s, steps)
    decreases |steps|, 1
  {
    if steps == [] then s else Apply(Run(s, steps[..|steps| - 1]), steps[|steps| - 1])
  }

  /** A run followed by one step. */
  lemma RunSnoc(s: State, steps: seq<Step>, step: Step)
    requires Valid(s, steps) && Enabled(Run(s, steps), step)
    ensures Valid(s, steps + [step]) && Run(s, steps + [step]) == Apply(Run(s, steps), step)
  {
    hide Enabled, Apply;
    assert (steps + [step])[..|steps|] == steps;
  }

  /** A run can be cut anywhere. */
  lemma {:induction false} RunPrefix(s: State, steps: seq<Step>, n: nat)
    requires Valid(s, steps) && n <= |steps|
    ensures Valid(s, steps[..n])
    ensures n < |steps| ==>
              && Enabled(Run(s, steps[..n]), steps[n]) && Valid(s, steps[..n + 1])
              && Run(s, steps[..n + 1]) == Apply(Run(s, steps[..n]), steps[n])
  {
    hide Enabled, Apply;
    assert n == |steps| ==> steps[..n] == steps;
    if n < |steps| {
      if n + 1 < |steps| {
        RunPrefix(s, steps[..|steps| - 1], n);
        assert steps[..|steps| - 1][..n] == steps[..n] && steps[..|steps| - 1][..n + 1] == steps[..n + 1];
      } else {
        assert steps[..n + 1] == steps;
      }
    }
  }

  /** The state after the first n steps of a run. */
  ghost function At(s: State, steps: seq<Step>, n: nat): State
    requires Valid(s, steps) && n <= |steps|
  {
    RunPrefix(s, steps, n);
    Run(s, steps[..n])
  }

  /** The transaction that takes step i, as it stands before the step. */
  ghost function Caller(s: State, steps: seq<Step>, i: nat): Tx
    requires Valid(s, steps) && i < |steps| && !Opens(steps[i])
  {
    RunPrefix(s, steps, i);
    At(s, steps, i).open[steps[i].tx]
  }

  lemma InitInv(setup: Setup)
    requires Laws(setup)
    ensures Inv(Init(setup))
  {
  }

  lemma {:induction false} RunKeepsInv(s: State, steps: seq<Step>)
    requires Inv(s) && Valid(s, steps)
    ensures Inv(Run(s, steps))
  {
    hide Enabled, Apply, Inv;
    if steps != [] {
      RunKeepsInv(s, steps[..|steps| - 1]);
      StepKeepsInv(Run(s, steps[..|steps| - 1]), steps[|steps| - 1]);
    }
  }

  // ---------------------------------------------------------------- history is only ever added to

  /** The committed tables only grow: records are never changed, and the logs are only appended to. */
  ghost predicate Extends(a: Db, b: Db) {
    && b.setup == a.setup && a.events <= b.events && a.audit <= b.audit
    && a.origins <= b.origins && a.requests <= b.requests
    && (forall k | k in a.records :: k in b.records && b.records[k] == a.records[k])
    && (forall id | id in a.delegations :: id in b.delegations && SameOrRevoked(a.delegations[id], b.delegations[id]))
    && a.publishers.Keys <= b.publishers.Keys
    && (forall id | id in a.namespaces :: id in b.namespaces && b.namespaces[id] == a.namespaces[id])
  }

  /** The delegation is as it was, or has been revoked since. */
  predicate SameOrRevoked(earlier: Delegation, later: Delegation) {
    later == earlier || (earlier.state.Active? && later == earlier.(state := Revoked, version := 2))
  }

  lemma StepExtends(s: State, step: Step)
    requires Inv(s) && Enabled(s, step)
    ensures Extends(s.db, Apply(s, step).db)
  {
    hide ValidPath, Ready, LocksFree, NextPhase, Apart, DbOk, TxOk, Merged, PrefixFree, PublisherFree;
    if step.Commit? && s.open[step.tx].phase.Finished? { MergedExtends(s.db, s.open[step.tx]); }
  }

  lemma MergedExtends(db: Db, t: Tx)
    requires TxOk(db, t) && t.phase.Finished?
    ensures Extends(db, Merged(db, t))
  {
    hide RequestOk, AnswerOk, EventOk, IdTaken, OutcomeOf, ValidDelegation, ReasonCode, InsertStands, Asked;
  }

  lemma {:induction false} RunExtends(s: State, steps: seq<Step>, m: nat, n: nat)
    requires Inv(s) && Valid(s, steps) && m <= n <= |steps|
    ensures Extends(At(s, steps, m).db, At(s, steps, n).db)
    decreases n - m
  {
    hide Enabled, Apply, Inv;
    if m < n {
      RunPrefix(s, steps, m);
      RunKeepsInv(s, steps[..m]);
      StepExtends(At(s, steps, m), steps[m]);
      RunExtends(s, steps, m + 1, n);
    }
  }

  // ---------------------------------------------------------------- sequences

  /** At every moment the committed sequences are exactly 1, 2, .. n in commit order, and an earlier moment's
      messages are the first of a later moment's, unchanged. */
  lemma SequencesFollowCommits(setup: Setup, steps: seq<Step>, m: nat, n: nat)
    requires Laws(setup)
    requires Valid(Init(setup), steps) && m <= n <= |steps|
    ensures var before, after := At(Init(setup), steps, m).db, At(Init(setup), steps, n).db;
            && before.events <= after.events
            && after.next == |after.events| + 1 <= MAX_SEQUENCE
            && forall i | 0 <= i < |after.events| :: after.events[i].sequence == i + 1
  {
    hide Enabled, Apply, Fold, Consistent, OriginsOk, TxOk;
    InitInv(setup);
    RunExtends(Init(setup), steps, m, n);
    RunPrefix(Init(setup), steps, n);
    RunKeepsInv(Init(setup), steps[..n]);
  }

  // ---------------------------------------------------------------- live prefixes

  /** In every reachable state, however creations, revocations, new namespaces and publisher changes interleave, no two
      live claims have one prefix, and the active delegations of a namespace lie below its root and one inside
      another. */
  lemma LivePrefixesAreUnique(setup: Setup, steps: seq<Step>)
    requires Laws(setup)
    requires Valid(Init(setup), steps)
    ensures var t := TablesOf(Run(Init(setup), steps).db);
            && Ownership.UniqueClaims(Ownership.LiveClaims(t))
            && (forall id | Ownership.IsActive(t, id) ::
                  t.delegations[id].namespaceId in t.namespaces
                  && t.namespaces[t.delegations[id].namespaceId].path + "/" <= t.delegations[id].childPrefix)
            && Ownership.NestedInv(t)
  {
    hide Enabled, Apply, TxOk, LogOk, OriginsOk, Ownership.LiveClaims, Ownership.UniqueClaims;
    InitInv(setup);
    RunKeepsInv(Init(setup), steps);
    var t := TablesOf(Run(Init(setup), steps).db);
    Ownership.ClaimsAreUnique(t);
    forall id | Ownership.IsActive(t, id) ensures Ownership.DelegationOk(t, id) {}
  }

  /** When a creation commits, its prefix is free, it nests with its siblings and its recipient is verified: whatever
      happened since the guards let it in, they still would. And the commit adds exactly its delegation. */
  lemma CreationStandsAtCommit(setup: Setup, steps: seq<Step>, i: nat)
    requires Laws(setup)
    requires Valid(Init(setup), steps) && i < |steps| && steps[i].Commit?
    requires var t := Caller(Init(setup), steps, i); t.phase.Finished? && t.request.command.Create?
    ensures var before, d := TablesOf(At(Init(setup), steps, i).db), Caller(Init(setup), steps, i).phase.result;
            && Guards.InsertRefusal(before, d).None?
            && TablesOf(At(Init(setup), steps, i + 1).db) == before.(delegations := before.delegations[d.id := d])
            && Asked(Caller(Init(setup), steps, i).request.command, d)
  {
    hide Enabled, Apply, Inv, Asked;
    InitInv(setup);
    RunPrefix(Init(setup), steps, i);
    RunKeepsInv(Init(setup), steps[..i]);
    FinishedStands(At(Init(setup), steps, i), steps[i]);
  }

  lemma FinishedStands(s: State, step: Step)
    requires Inv(s) && step.Commit? && Enabled(s, step)
    requires s.open[step.tx].phase.Finished? && s.open[step.tx].request.command.Create?
    ensures var d := s.open[step.tx].phase.result;
            && Guards.InsertRefusal(TablesOf(s.db), d).None?
            && TablesOf(Apply(s, step).db) == TablesOf(s.db).(delegations := s.db.delegations[d.id := d])
            && Asked(s.open[step.tx].request.command, d)
  {
    hide ValidPath, ReasonCode, Guards.InsertRefusal, Ownership.Inv, LogOk, OriginsOk, Asked;
    assert TxOk(s.db, s.open[step.tx]);
    Guards.RefusalIsExact(TablesOf(s.db), s.open[step.tx].phase.result);
  }

  // ---------------------------------------------------------------- exactly once

  /** Every committed record is complete and answers with an existing delegation; each belongs to exactly one
      committed event, and each committed event to exactly one record. */
  lemma RecordsAndEventsMatch(setup: Setup, steps: seq<Step>, key: Key)
    requires Laws(setup)
    requires Valid(Init(setup), steps)
    ensures var db := Run(Init(setup), steps).db;
            && db.setup == setup && |db.origins| == |db.requests| == |db.events|
            && (key in db.records <==> exists i :: 0 <= i < |db.events| && db.origins[i] == key)
            && (key in db.records ==> db.records[key].result.Some?)
            && (forall i, j | 0 <= i < j < |db.events| :: db.origins[i] != db.origins[j])
            && (forall i | 0 <= i < |db.events| && db.origins[i] == key ::
                  OriginOk(setup, db.records, key, db.requests[i], db.events[i])
                      && db.events[i].subject.id in db.delegations)
  {
    hide Enabled, Apply, TxOk, Fold, Consistent, OriginOk;
    InitInv(setup);
    RunKeepsInv(Init(setup), steps);
    SetupStays(setup, steps, |steps|);
    assert steps[..|steps|] == steps;
    EventsHaveOrigins(Run(Init(setup), steps).db, key);
  }

  lemma EventsHaveOrigins(db: Db, key: Key)
    requires DbOk(db)
    ensures |db.origins| == |db.requests| == |db.events|
    ensures key in db.records <==> exists i :: 0 <= i < |db.events| && db.origins[i] == key
    ensures key in db.records ==> db.records[key].result.Some?
    ensures forall i | 0 <= i < |db.events| && db.origins[i] == key ::
              OriginOk(db.setup, db.records, key, db.requests[i], db.events[i])
                  && db.events[i].subject.id in db.delegations
  {
    hide ValidPath, ValidUuid, ReasonCode, Consistent, Asked, OutcomeOf, ActionOf, ChangeOf;
    forall i | 0 <= i < |db.events| && db.origins[i] == key
      ensures OriginOk(db.setup, db.records, key, db.requests[i], db.events[i])
              && db.events[i].subject.id in db.delegations
    {
      assert OriginAt(db, i);
      FoldRowsOk(db.events, db.events[i].subject.id);
    }
  }

  /** A replay never fails: for a request whose key is established with its digest, the record is complete, its
      status and type fit, and the delegation it names is read back as it stands now. */
  lemma ReplayNeverFails(setup: Setup, steps: seq<Step>, tx: nat)
    requires Laws(setup)
    requires Valid(Init(setup), steps)
    requires tx in Run(Init(setup), steps).open && Run(Init(setup), steps).open[tx].phase.Found?
    ensures var s := Run(Init(setup), steps);
            var t := s.open[tx];
            && Enabled(s, Replay(tx))
            && t.phase.stored.result.Some? && t.phase.stored.result.value.resource.Some?
            && var id := s.db.setup.parse(t.phase.stored.result.value.resource.value.1);
               && id.Some? && id.value in s.db.delegations
               && Replayed(s.db, t.phase.stored, t.request.command) == Ok(s.db.delegations[id.value])
  {
    InitInv(setup);
    RunKeepsInv(Init(setup), steps);
    FoundCanReplay(Run(Init(setup), steps), tx);
  }

  lemma FoundCanReplay(s: State, tx: nat)
    requires Inv(s) && tx in s.open && s.open[tx].phase.Found?
    ensures var t := s.open[tx];
            && Enabled(s, Replay(tx))
            && t.phase.stored.result.Some? && t.phase.stored.result.value.resource.Some?
            && var id := s.db.setup.parse(t.phase.stored.result.value.resource.value.1);
               && id.Some? && id.value in s.db.delegations
               && Replayed(s.db, t.phase.stored, t.request.command) == Ok(s.db.delegations[id.value])
  {
    hide ValidPath, BoundedText, ReasonCode, Fold, Consistent, OriginsOk;
    var i := RecordNamesRow(s.db, KeyOf(s.open[tx].request));
  }

  /** A request under a key established with another digest can only be given up, and giving up changes nothing. */
  lemma OtherDigestIsRefused(s: State, step: Step)
    requires Inv(s) && !Opens(step) && step.tx in s.open && s.open[step.tx].phase.Started?
    requires var key := KeyOf(s.open[step.tx].request);
             key in s.db.records && s.db.records[key].digest != s.open[step.tx].request.digest
    ensures Enabled(s, step) <==> step.Abort?
    ensures Enabled(s, step) ==> Apply(s, step).db == s.db
  {
    hide ValidPath, BoundedText, ReasonCode, Fold, Consistent, OriginsOk, DbOk;
  }

  /** The request's key is settled: its record has the request's digest, and answers with the delegation. */
  ghost predicate Establishes(db: Db, request: Request, id: Uuid) {
    && ValidUuid(id) && KeyOf(request) in db.records
    && db.records[KeyOf(request)].digest == request.digest == db.setup.hash(request.command)
    && db.records[KeyOf(request)].result == Some(OutcomeOf(db.setup, request.command, id))
  }

  /** What settled a key settles it for good. */
  lemma EstablishedOnce(first: Db, later: Db, a: Request, b: Request, x: Uuid, y: Uuid)
    requires Laws(first.setup) && Extends(first, later) && KeyOf(a) == KeyOf(b)
    requires Establishes(first, a, x) && Establishes(later, b, y)
    ensures a.digest == b.digest && a.command == b.command && x == y
  {
    hide KeyOf, ValidUuid;
    var setup := first.setup;
    assert setup.parse(setup.text(x)) == Some(x);
    assert setup.parse(setup.text(y)) == Some(y);
  }

  /** Requests have one key exactly if they are one call: the same caller, kind of command and idempotency key. */
  lemma KeysTellCallsApart(a: Request, b: Request)
    ensures KeyOf(a) == KeyOf(b) <==> SameCall(a, b)
  {
  }

  /** Two commits of one call, by the same caller under the same idempotency key: same command, same delegation; and the
      later one read its answer from the record and changed nothing. */
  lemma SameKeySameAnswer(setup: Setup, steps: seq<Step>, i: nat, j: nat)
    requires Laws(setup)
    requires Valid(Init(setup), steps) && i < j < |steps| && steps[i].Commit? && steps[j].Commit?
    requires SameCall(Caller(Init(setup), steps, i).request, Caller(Init(setup), steps, j).request)
    ensures var earlier, later := Caller(Init(setup), steps, i), Caller(Init(setup), steps, j);
            && (earlier.phase.Finished? || earlier.phase.Answering?) && later.phase.Answering?
            && later.request.digest == earlier.request.digest && later.request.command == earlier.request.command
            && later.phase.result.id == earlier.phase.result.id
    ensures At(Init(setup), steps, j + 1).db == At(Init(setup), steps, j).db
  {
    hide Enabled, Apply, Inv, KeyOf, SameCall, Extends, Laws, Establishes, Valid, Run;
    KeysTellCallsApart(Caller(Init(setup), steps, i).request, Caller(Init(setup), steps, j).request);
    var s := Init(setup);
    InitInv(setup);
    RunPrefix(s, steps, i);
    RunPrefix(s, steps, j);
    RunKeepsInv(s, steps[..i]);
    RunKeepsInv(s, steps[..j]);
    RunExtends(s, steps, i + 1, j);
    SetupStays(setup, steps, i + 1);
    CommitsAgree(At(s, steps, i), steps[i], At(s, steps, j), steps[j]);
  }

  lemma CommitsAgree(first: State, earlier: Step, later: State, step: Step)
    requires Inv(first) && Enabled(first, earlier) && earlier.Commit? && Laws(Apply(first, earlier).db.setup)
    requires Inv(later) && Enabled(later, step) && step.Commit? && Extends(Apply(first, earlier).db, later.db)
    requires KeyOf(first.open[earlier.tx].request) == KeyOf(later.open[step.tx].request)
    ensures var a, b := first.open[earlier.tx], later.open[step.tx];
            && (a.phase.Finished? || a.phase.Answering?) && b.phase.Answering?
            && b.request.digest == a.request.digest && b.request.command == a.request.command
            && b.phase.result.id == a.phase.result.id
    ensures Apply(later, step).db == later.db
  {
    var a, b := first.open[earlier.tx], later.open[step.tx];
    var db := Apply(first, earlier).db;
    hide Enabled, Apply, Inv, KeyOf, Establishes, Extends, Laws;
    CommitEstablishes(first, earlier);
    KeyStaysKnown(db, later.db, a.request, a.phase.result.id);
    EstablishedIsReplayed(later, step);
    EstablishedOnce(db, later.db, a.request, b.request, a.phase.result.id, b.phase.result.id);
  }

  lemma KeyStaysKnown(first: Db, later: Db, request: Request, id: Uuid)
    requires Extends(first, later) && Establishes(first, request, id)
    ensures KeyOf(request) in later.records
  {
  }

  lemma SetupStays(setup: Setup, steps: seq<Step>, n: nat)
    requires Laws(setup) && Valid(Init(setup), steps) && n <= |steps|
    ensures At(Init(setup), steps, n).db.setup == setup
  {
    hide Enabled, Apply, Inv;
    InitInv(setup);
    RunExtends(Init(setup), steps, 0, n);
  }

  /** After a commit the key answers with the call's own result. */
  lemma CommitEstablishes(s: State, step: Step)
    requires Inv(s) && Enabled(s, step) && step.Commit?
    ensures var t := s.open[step.tx];
            var db := Apply(s, step).db;
            && (t.phase.Finished? || t.phase.Answering?) && Establishes(db, t.request, t.phase.result.id)
            && Shows(db, t.phase.result) && Asked(t.request.command, t.phase.result)
  {
    hide ValidPath, BoundedText, ReasonCode, Fold, Consistent, OriginsOk, DbOk;
  }

  /** A call that commits under an established key has read its answer from the record, and writes nothing. */
  lemma EstablishedIsReplayed(s: State, step: Step)
    requires Inv(s) && Enabled(s, step) && step.Commit? && KeyOf(s.open[step.tx].request) in s.db.records
    ensures var t := s.open[step.tx];
            && t.phase.Answering? && Apply(s, step).db == s.db && Establishes(s.db, t.request, t.phase.result.id)
  {
    hide ValidPath, BoundedText, ReasonCode, Fold, Consistent, OriginsOk, DbOk;
  }

  // ---------------------------------------------------------------- a failed call leaves no trace

  /** The run without one transaction's steps. */
  function Without(steps: seq<Step>, tx: nat): seq<Step> {
    if steps == [] then []
    else
      var front, last := Without(steps[..|steps| - 1], tx), steps[|steps| - 1];
      if last.tx == tx then front else front + [last]
  }

  function Erase(s: State, tx: nat): State {
    s.(open := s.open - {tx})
  }

  lemma EraseKeepsEnabled(s: State, step: Step, tx: nat)
    requires Enabled(s, step) && step.tx != tx
    ensures Enabled(Erase(s, tx), step)
  {
    hide Ready, RequestOk, Mutated;
    assert step.tx in s.open ==> Erase(s, tx).open[step.tx] == s.open[step.tx];
  }

  /** The step changes committed tables. */
  predicate Lasting(step: Step) {
    step.Commit? || Foreign(step)
  }

  lemma EraseStep(s: State, step: Step, tx: nat)
    requires Enabled(s, step) && !(step.tx == tx && Lasting(step))
    ensures step.tx == tx ==> Erase(Apply(s, step), tx) == Erase(s, tx)
    ensures step.tx != tx ==> Enabled(Erase(s, tx), step) && Apply(Erase(s, tx), step) == Erase(Apply(s, step), tx)
  {
    hide Ready, RequestOk, LocksFree, NextPhase, Merged;
    if step.tx != tx {
      EraseKeepsEnabled(s, step, tx);
      assert Apply(Erase(s, tx), step).open == Apply(s, step).open - {tx};
    } else {
      assert Apply(s, step).open - {tx} == s.open - {tx};
    }
  }

  /** A call that does not commit is as if it had never been made: taking its steps out of the run leaves a run
      that commits exactly the same tables. */
  lemma {:induction false} FailedCallsLeaveNoTrace(s: State, steps: seq<Step>, tx: nat)
    requires Valid(s, steps) && tx !in s.open && forall i | 0 <= i < |steps| && steps[i].tx == tx :: !Lasting(steps[i])
    ensures Valid(s, Without(steps, tx))
    ensures Run(s, Without(steps, tx)).db == Run(s, steps).db
    ensures Run(s, Without(steps, tx)) == Erase(Run(s, steps), tx)
  {
    hide Enabled, Apply;
    if steps == [] {
      assert s.open - {tx} == s.open;
    } else {
      var front, last := steps[..|steps| - 1], steps[|steps| - 1];
      FailedCallsLeaveNoTrace(s, front, tx);
      EraseStep(Run(s, front), last, tx);
      if last.tx != tx { RunSnoc(s, Without(front, tx), last); }
    }
  }

  // ---------------------------------------------------------------- waiting

  /** The other transaction holds a lock that the call needs. */
  predicate Blocks(s: State, step: Step, t: Tx, o: Tx)
    requires Ready(s.db, step, t)
  {
    match step
    case Acquire(_, recordId) =>
      HoldsKey(o) && (KeyOf(o.request) == KeyOf(t.request) || o.phase.own.id == recordId)
    case LockNamespace(_, _) => HoldsNamespace(o) && o.request.command.namespaceId == t.request.command.namespaceId
    case LockPrefix(_) => HoldsPrefix(o) && o.request.command.childPrefix == t.request.command.childPrefix
    case Mutate(_) => HoldsRow(o) && o.phase.result.id == Mutated(s.db, t).value.id
    case Allocate(_) => HoldsAllocator(o)
    case _ => false
  }

  /** A call waits exactly when some other transaction blocks it. */
  lemma BlockedMeansWaiting(s: State, step: Step)
    requires !Opens(step) && step.tx in s.open && Ready(s.db, step, s.open[step.tx])
    ensures LocksFree(s, step, s.open[step.tx]) <==>
            forall o | o in s.open && o != step.tx :: !Blocks(s, step, s.open[step.tx], s.open[o])
  {
    hide Mutated, Drafted, Acquired, Replayed, Established, ValidUuid, KeyOf, HoldsKey, HoldsNamespace, HoldsPrefix;
  }

  /** The transaction's next call waits for a lock that the other one holds. */
  ghost predicate WaitsFor(s: State, tx: nat, o: nat) {
    && tx in s.open && o in s.open && o != tx
    && exists step: Step ::
         !Opens(step) && step.tx == tx && Ready(s.db, step, s.open[tx]) && Blocks(s, step, s.open[tx], s.open[o])
  }

  /** How far a transaction is in the order in which the services take locks: key, namespace, prefix, row, allocator. */
  function Rank(t: Tx): nat {
    if HoldsAllocator(t) then 5
    else if HoldsRow(t) then 4
    else if HoldsPrefix(t) then 3
    else if HoldsNamespace(t) then 2
    else if HoldsKey(t) then 1
    else 0
  }

  lemma WaitingGoesUp(s: State, tx: nat, o: nat)
    requires WaitsFor(s, tx, o)
    ensures Rank(s.open[tx]) < Rank(s.open[o])
  {
    hide Mutated, Drafted, Acquired, Replayed, Established, ValidUuid, KeyOf;
  }

  /** Each transaction of the chain waits for the next. */
  ghost predicate Chain(s: State, chain: seq<nat>) {
    forall i | 0 <= i < |chain| - 1 :: WaitsAt(s, chain, i)
  }

  ghost predicate WaitsAt(s: State, chain: seq<nat>, i: nat)
    requires i + 1 < |chain|
  {
    WaitsFor(s, chain[i], chain[i + 1])
  }

  /** There is no deadlock: no chain of transactions that wait for one another comes back to where it began. */
  lemma {:induction false} NoDeadlock(s: State, chain: seq<nat>)
    requires |chain| > 1 && Chain(s, chain)
    ensures chain[0] in s.open && chain[|chain| - 1] in s.open
    ensures Rank(s.open[chain[0]]) < Rank(s.open[chain[|chain| - 1]])
    ensures chain[0] != chain[|chain| - 1]
  {
    hide Rank;
    var n := |chain| - 1;
    assert WaitsAt(s, chain, n - 1);
    WaitingGoesUp(s, chain[n - 1], chain[n]);
    if n > 1 {
      var front := chain[..n];
      forall i | 0 <= i < |front| - 1 ensures WaitsAt(s, front, i) { assert WaitsAt(s, chain, i); }
      NoDeadlock(s, front);
    }
  }

  /** Of any set of open transactions, one that has come farthest waits for none of the set. */
  lemma SomeoneProceeds(s: State, among: set<nat>)
    requires among != {} && among <= s.open.Keys
    ensures exists tx :: tx in among && forall o | o in among :: !WaitsFor(s, tx, o)
  {
    var tx := Farthest(s, among);
    forall o | o in among ensures !WaitsFor(s, tx, o) {
      if WaitsFor(s, tx, o) { WaitingGoesUp(s, tx, o); }
    }
  }

  lemma {:induction false} Farthest(s: State, among: set<nat>) returns (tx: nat)
    requires among != {} && among <= s.open.Keys
    ensures tx in among && forall o | o in among :: Rank(s.open[o]) <= Rank(s.open[tx])
    decreases |among|
  {
    tx :| tx in among;
    var others := among - {tx};
    assert forall o | o in among :: o == tx || o in others;
    if others != {} {
      var other := Farthest(s, others);
      if Rank(s.open[other]) > Rank(s.open[tx]) { tx := other; }
    }
  }

  // ---------------------------------------------------------------- conservation

  function RevokedIn<K>(table: map<K, Delegation>): set<K> {
    set id | id in table && table[id].state.Revoked?
  }

  lemma {:induction false} EventsCountChanges(events: seq<Event>)
    requires Consistent(events)
    ensures |events| == |Fold(events)| + |RevokedIn(Fold(events))|
  {
    if events != [] {
      var e := events[|events| - 1];
      EventsCountChanges(events[..|events| - 1]);
      hide ValidDelegation, ReasonCode;
      ChangeCounts(Fold(events[..|events| - 1]), e.subject.id, e.subject);
    }
  }

  /** A change adds an active delegation, or turns an active one into a revoked one. */
  lemma ChangeCounts<K>(before: map<K, Delegation>, id: K, d: Delegation)
    requires if d.state.Active? then id !in before else id in before && before[id].state.Active?
    ensures var after := before[id := d];
            |after| + |RevokedIn(after)| == |before| + |RevokedIn(before)| + 1
  {
    if d.state.Active? { ActiveCounts(before, id, d); } else { RevokedCounts(before, id, d); }
  }

  lemma ActiveCounts<K>(before: map<K, Delegation>, id: K, d: Delegation)
    requires d.state.Active? && id !in before
    ensures |before[id := d]| == |before| + 1 && RevokedIn(before[id := d]) == RevokedIn(before)
  {
    assert before[id := d].Keys == before.Keys + {id};
  }

  lemma RevokedCounts<K>(before: map<K, Delegation>, id: K, d: Delegation)
    requires d.state.Revoked? && id in before && before[id].state.Active?
    ensures |before[id := d]| == |before| && |RevokedIn(before[id := d])| == |RevokedIn(before)| + 1
  {
    assert before[id := d].Keys == before.Keys;
    assert RevokedIn(before[id := d]) == RevokedIn(before) + {id};
  }

  /** In every committed state the outbox holds one message for each delegation created and one for each revoked,
      the audit log one fact for each message, and the events replayed in order give the delegation table. */
  lemma Conservation(setup: Setup, steps: seq<Step>)
    requires Laws(setup)
    requires Valid(Init(setup), steps)
    ensures var db := Run(Init(setup), steps).db;
            && |db.events| == |db.delegations| + |RevokedIn(db.delegations)| == |db.audit| == |db.records|
            && (forall i | 0 <= i < |db.events| :: db.audit[i] == FactOfEvent(db.events[i]))
            && db.delegations == Fold(db.events) && Consistent(db.events)
  {
    hide Enabled, Apply, TxOk, Fold, Consistent, OriginOk, FactOfEvent;
    InitInv(setup);
    RunKeepsInv(Init(setup), steps);
    var db := Run(Init(setup), steps).db;
    EventsCountChanges(db.events);
    forall i | 0 <= i < |db.origins| ensures db.origins[i] in db.records { OriginHasRecord(db, i); }
    CountDistinct(db.origins, db.records.Keys);
  }

  lemma OriginHasRecord(db: Db, i: nat)
    requires OriginsOk(db) && i < |db.origins|
    ensures db.origins[i] in db.records
  {
    assert OriginAt(db, i);
  }

  /** A list without repetition has as many entries as its set. */
  lemma {:induction false} CountDistinct<T>(list: seq<T>, all: set<T>)
    requires forall i, j | 0 <= i < j < |list| :: list[i] != list[j]
    requires forall x :: x in all <==> x in list
    ensures |list| == |all|
  {
    if list != [] {
      var n := |list| - 1;
      CountDistinct(list[..n], all - {list[n]});
    }
  }

  /** A delegation's events: first its creation, then at most its revocation; and it stands as the last of them
      left it. */
  lemma {:induction false} DelegationHistory(events: seq<Event>, i: nat, j: nat)
    requires Consistent(events) && i < j < |events| && events[i].subject.id == events[j].subject.id
    ensures events[i].change.Delegated? && events[j].change.DelegationRevoked?
    ensures var id := events[j].subject.id;
            && id in Fold(events)
            && Fold(events)[id] == events[j].subject == events[i].subject.(state := Revoked, version := 2)
  {
    hide ValidDelegation, ReasonCode;
    var n := |events| - 1;
    var front := events[..n];
    var id := events[i].subject.id;
    FoldRowsOk(front, id);
    assert front[i] == events[i];
    if j < n {
      DelegationHistory(front, i, j);
      assert front[j] == events[j];
      assert events[n].subject.id != id;
    } else {
      OnlyEvent(front, i);
    }
  }

  /** The only event so far of a delegation still active is its creation, and it stands as created. */
  lemma {:induction false} OnlyEvent(events: seq<Event>, i: nat)
    requires Consistent(events) && i < |events|
    requires var id := events[i].subject.id; id in Fold(events) && Fold(events)[id].state.Active?
    ensures events[i].change.Delegated? && Fold(events)[events[i].subject.id] == events[i].subject
  {
    hide ValidDelegation, ReasonCode;
    var n := |events| - 1;
    if i < n {
      assert events[..n][i] == events[i];
      FoldRowsOk(events[..n], events[i].subject.id);
      OnlyEvent(events[..n], i);
    }
  }

  /** Every committed message, its payload built for it, passes the checks that are made before it is recorded; and read
      back from its row it passes them again exactly when the request that committed it came at a whole microsecond. */
  lemma EveryEventIsValid(setup: Setup, steps: seq<Step>, i: nat, tenant: Uuid, source: string)
    requires Laws(setup)
    requires Valid(Init(setup), steps) && i < |Run(Init(setup), steps).db.events| && ValidUuid(tenant)
    ensures var db := Run(Init(setup), steps).db;
            var e := db.events[i];
            && e.sequence > 0 && Representable(e.at)
            && ValidEnvelope(BuildEvent(tenant, e.id, e.sequence, source, e.subject, e.change, e.at),
                             Text(tenant), Text(e.id), e.sequence, source, TypeOf(e.change), Text(e.subject.id), e.at,
                             Parses)
            && i < |db.requests|
            && (ReadsBack(tenant, e.id, e.sequence, source, e.subject, e.change, e.at)
                <==> db.requests[i].now % 1000 == 0)
  {
    hide Enabled, Apply, TxOk, Fold, Text, BuildEvent, ValidEnvelope, ReadsBack, ReasonCode, ValidDelegation;
    InitInv(setup);
    RunKeepsInv(Init(setup), steps);
    var db := Run(Init(setup), steps).db;
    EventIsPossible(db.events, i);
    var e := db.events[i];
    assert e.at == db.requests[i].now by { assert OriginAt(db, i); }
    BuiltEventIsValid(tenant, e.id, e.sequence, source, e.subject, e.change, e.at);
    BuiltEventReadsBack(tenant, e.id, e.sequence, source, e.subject, e.change, e.at);
  }

  lemma {:induction false} EventIsPossible(events: seq<Event>, i: nat)
    requires Consistent(events) && i < |events|
    ensures ValidDelegation(events[i].subject)
            && (events[i].change.DelegationRevoked? ==> ReasonCode(events[i].change.reason))
  {
    hide ValidDelegation, ReasonCode;
    var n := |events| - 1;
    if i < n {
      assert events[..n][i] == events[i];
      EventIsPossible(events[..n], i);
    }
  }
}
