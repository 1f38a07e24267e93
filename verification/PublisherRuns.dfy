/** Publisher state over whole runs: any number of writers, interleaved and failing anywhere. */
module PublisherRuns {
  import opened Shared
  import opened Uuids
  import opened PublisherStates
  import opened Publishers

  ghost predicate Valid(steps: seq<Step>)
    decreases |steps|, 0
  {
    steps == [] || (Valid(steps[..|steps| - 1]) && Enabled(Run(steps[..|steps| - 1]), steps[|steps| - 1]))
  }

  ghost function Run(steps: seq<Step>): State
    requires Valid(steps)
    decreases |steps|, 1
  {
    if steps == [] then Init() else Apply(Run(steps[..|steps| - 1]), steps[|steps| - 1])
  }

  lemma RunSnoc(steps: seq<Step>, step: Step)
    requires Valid(steps) && Enabled(Run(steps), step)
    ensures Valid(steps + [step]) && Run(steps + [step]) == Apply(Run(steps), step)
  {
    hide Enabled, Apply;
    assert (steps + [step])[..|steps|] == steps;
  }

  lemma {:induction false} RunPrefix(steps: seq<Step>, n: nat)
    requires Valid(steps) && n <= |steps|
    ensures Valid(steps[..n])
    ensures n < |steps| ==>
              && Enabled(Run(steps[..n]), steps[n]) && Valid(steps[..n + 1])
              && Run(steps[..n + 1]) == Apply(Run(steps[..n]), steps[n])
  {
    hide Enabled, Apply;
    assert n == |steps| ==> steps[..n] == steps;
    if n < |steps| {
      if n + 1 < |steps| {
        RunPrefix(steps[..|steps| - 1], n);
        assert steps[..|steps| - 1][..n] == steps[..n] && steps[..|steps| - 1][..n + 1] == steps[..n + 1];
      } else {
        assert steps[..n + 1] == steps;
      }
    }
  }

  /** The state after the first n steps. */
  ghost function At(steps: seq<Step>, n: nat): State
    requires Valid(steps) && n <= |steps|
  {
    RunPrefix(steps, n);
    Run(steps[..n])
  }

  lemma {:induction false} RunKeepsInv(steps: seq<Step>)
    requires Valid(steps)
    ensures Inv(Run(steps))
  {
    hide Enabled, Apply;
    if steps != [] {
      RunKeepsInv(steps[..|steps| - 1]);
      StepKeepsInv(Run(steps[..|steps| - 1]), steps[|steps| - 1]);
    }
  }

  lemma InvAt(steps: seq<Step>, n: nat)
    requires Valid(steps) && n <= |steps|
    ensures Inv(At(steps, n))
  {
    RunPrefix(steps, n);
    RunKeepsInv(steps[..n]);
  }

  // ---------------------------------------------------------------- history

  /** Records are never changed, and versions never go back. */
  ghost predicate Extends(a: Db, b: Db) {
    && (forall k | k in a.records :: k in b.records && b.records[k] == a.records[k])
    && (forall p | p in a.current :: p in b.current && a.current[p] <= b.current[p])
  }

  lemma StepExtends(s: State, step: Step)
    requires Inv(s) && Enabled(s, step)
    ensures Extends(s.db, Apply(s, step).db)
  {
    if step.Commit? {
      var t := s.open[step.tx];
      assert TxOk(s.db, t) && HistoryOk(s.db, t.change.publisher);
    }
  }

  lemma {:induction false} RunExtends(steps: seq<Step>, m: nat, n: nat)
    requires Valid(steps) && m <= n <= |steps|
    ensures Extends(At(steps, m).db, At(steps, n).db)
    decreases n - m
  {
    hide Enabled, Apply, Inv;
    if m < n {
      RunPrefix(steps, m);
      InvAt(steps, m);
      StepExtends(At(steps, m), steps[m]);
      RunExtends(steps, m + 1, n);
    }
  }

  /** At every moment a publisher's records are exactly versions 1 to n, where n is its current version; the first is
      the claim, each later one is reached from the one before along the state graph and has a reason. */
  lemma HistoryIsAPath(steps: seq<Step>, publisher: Uuid, v: int)
    requires Valid(steps)
    ensures var db := Run(steps).db;
            && ((publisher, v) in db.records <==> publisher in db.current && 1 <= v <= db.current[publisher])
            && ((publisher, v) in db.records && v == 1 ==> db.records[(publisher, v)].state.Claimed?)
            && ((publisher, v) in db.records && v > 1 ==>
                  && (publisher, v - 1) in db.records
                  && Allowed(db.records[(publisher, v - 1)].state, db.records[(publisher, v)].state)
                  && db.records[(publisher, v)].reason.Some?)
  {
    hide Enabled, Apply;
    RunKeepsInv(steps);
    var db := Run(steps).db;
    assert HistoryOk(db, publisher);
    assert (publisher, v) in db.records ==> InsertAllowed(db, (publisher, v), db.records[(publisher, v)]);
  }

  /** A publisher's current state, for one that is registered. */
  ghost function Current(steps: seq<Step>, n: nat, publisher: Uuid): (PublisherState, int)
    requires Valid(steps) && n <= |steps| && publisher in At(steps, n).db.current
  {
    InvAt(steps, n);
    assert HistoryOk(At(steps, n).db, publisher);
    Selected(At(steps, n).db, publisher).value
  }

  /** Once revoked, a publisher stays as it is for good. */
  lemma RevokedIsAbsorbing(steps: seq<Step>, m: nat, n: nat, publisher: Uuid)
    requires Valid(steps) && m <= n <= |steps| && publisher in At(steps, m).db.current
    requires Current(steps, m, publisher).0.Revoked?
    ensures publisher in At(steps, n).db.current && Current(steps, n, publisher) == Current(steps, m, publisher)
  {
    RunExtends(steps, m, n);
    InvAt(steps, m);
    InvAt(steps, n);
    RevokedIsLast(At(steps, m).db, At(steps, n).db, publisher);
  }

  lemma RevokedIsLast(a: Db, b: Db, publisher: Uuid)
    requires HistoryOk(a, publisher) && HistoryOk(b, publisher) && Extends(a, b)
    requires var row := Selected(a, publisher); row.Some? && row.value.0.Revoked?
    ensures Selected(b, publisher) == Selected(a, publisher)
  {
    var v := a.current[publisher];
    assert (publisher, v + 1) in b.records ==> InsertAllowed(b, (publisher, v + 1), b.records[(publisher, v + 1)]);
    assert v + 1 > b.current[publisher];
  }

  // ---------------------------------------------------------------- writers

  /** The change of the transaction that takes step i. */
  ghost function ChangeAt(steps: seq<Step>, i: nat): Change
    requires Valid(steps) && i < |steps| && !Elsewhere(steps[i]) && !steps[i].Begin?
  {
    RunPrefix(steps, i);
    At(steps, i).open[steps[i].tx].change
  }

  /** A commit stores the call's own transition from the state its caller expected, as the next version. */
  lemma CommitStoresTransition(steps: seq<Step>, i: nat)
    requires Valid(steps) && i < |steps| && steps[i].Commit?
    ensures var c := ChangeAt(steps, i);
            var before, after := At(steps, i).db, At(steps, i + 1).db;
            && c.publisher in before.current && before.current[c.publisher] == c.expected
            && (c.publisher, c.expected) in before.records && RecordKey(c) !in before.records
            && RecordKey(c) in after.records
            && Transition(before.records[(c.publisher, c.expected)].state, c) == Ok(after.records[RecordKey(c)])
            && after == Db(
                 before.records[RecordKey(c) := after.records[RecordKey(c)]],
                 before.current[c.publisher := c.expected + 1])
  {
    hide Enabled, Apply, Inv, Transition;
    RunPrefix(steps, i);
    InvAt(steps, i);
    CommitWritesTransition(At(steps, i), steps[i]);
  }

  lemma CommitWritesTransition(s: State, step: Step)
    requires Inv(s) && Enabled(s, step) && step.Commit?
    ensures var t := s.open[step.tx];
            var c := t.change;
            && UpdateReady(s.db, c) && (c.publisher, c.expected) in s.db.records && RecordKey(c) !in s.db.records
            && t.phase.Updated? && Transition(s.db.records[(c.publisher, c.expected)].state, c) == Ok(t.phase.record)
            && Apply(s, step).db == Written(s.db, t)
  {
    assert TxOk(s.db, s.open[step.tx]) && HistoryOk(s.db, s.open[step.tx].change.publisher);
  }

  /** What the commit stores, field by field: the state, reason, explanation and time the call named, as the next and
      now current version, after one of the seven changes of state there are; and nothing else. */
  lemma CommitStoresWhatWasAsked(steps: seq<Step>, i: nat)
    requires Valid(steps) && i < |steps| && steps[i].Commit?
    ensures var c := ChangeAt(steps, i);
            var before, after := At(steps, i).db, At(steps, i + 1).db;
            var record := StateRecord(c.to, Some(c.reason), c.explanation, StoredTime(c.at));
            && after.records == before.records[(c.publisher, c.expected + 1) := record]
            && after.current == before.current[c.publisher := c.expected + 1]
            && c.publisher in before.current && before.current[c.publisher] == c.expected
            && (c.publisher, c.expected) in before.records && (c.publisher, c.expected + 1) !in before.records
            && (before.records[(c.publisher, c.expected)].state, c.to) in SEVEN_CHANGES
            && c.reason != "" && c.at != ZERO_NANOS
  {
    hide Enabled, Apply, Inv;
    CommitStoresTransition(steps, i);
    var c := ChangeAt(steps, i);
    TransitionStoresWhatWasAsked(At(steps, i).db.records[(c.publisher, c.expected)].state, c);
  }

  /** The changes of state there are. */
  const SEVEN_CHANGES: set<(PublisherState, PublisherState)> := {
    (Claimed, Verified), (Claimed, Suspended), (Claimed, Revoked), (Verified, Suspended), (Verified, Revoked),
    (Suspended, Verified), (Suspended, Revoked)}

  /** A transition is refused outside the seven changes and for want of a reason or a time, then for an explanation
      that is too long or has control characters, and is otherwise what was asked for. */
  lemma TransitionStoresWhatWasAsked(from: PublisherState, c: Change)
    ensures Transition(from, c) ==
            if (from, c.to) !in SEVEN_CHANGES || c.reason == "" || c.at == ZERO_NANOS
            then Err(Error(Conflict, "publisher.invalid_transition"))
            else if |c.explanation| > 4096 || exists i :: 0 <= i < |c.explanation| && IsControl(c.explanation[i])
            then Err(Error(Invalid, "publisher.invalid_transition_metadata"))
            else Ok(StateRecord(c.to, Some(c.reason), c.explanation, StoredTime(c.at)))
  {
  }

  /** Of all writers that expect one version of one publisher, at most one commits. */
  lemma OneWinnerPerVersion(steps: seq<Step>, i: nat, j: nat)
    requires Valid(steps) && i < j < |steps| && steps[i].Commit? && steps[j].Commit?
    ensures RecordKey(ChangeAt(steps, i)) != RecordKey(ChangeAt(steps, j))
  {
    CommitStoresTransition(steps, i);
    RunExtends(steps, i + 1, j);
    CommitStoresTransition(steps, j);
  }

  /** A writer whose expected version has been superseded can only give up. */
  lemma StaleWritersLose(s: State, step: Step)
    requires Inv(s) && !Elsewhere(step) && !step.Begin? && step.tx in s.open
    requires var c := s.open[step.tx].change; c.publisher in s.db.current && s.db.current[c.publisher] > c.expected
    ensures Enabled(s, step) ==> step.Abort?
  {
    var t := s.open[step.tx];
    assert TxOk(s.db, t) && HistoryOk(s.db, t.change.publisher);
  }

  /** The insert decides: a writer whose insert succeeded finds the version it expects at its compare-and-swap, so
      the stale-update path is never taken. The swap waits only for transactions that share the publisher's row, never
      for another writer; and a writer that has made it has only to commit. */
  lemma InsertDecides(s: State, tx: nat)
    requires Inv(s) && tx in s.open
    ensures s.open[tx].phase.Inserted? ==>
              var c := s.open[tx].change; UpdateReady(s.db, c) && (Enabled(s, Update(tx)) <==> Unshared(s, c.publisher))
    ensures s.open[tx].phase.Updated? ==> Enabled(s, Commit(tx))
  {
    assert TxOk(s.db, s.open[tx]);
  }

  /** A publisher whose row is shared from one moment to another stays verified, at the version it had, in between. */
  lemma {:induction false} SharedStaysVerified(steps: seq<Step>, m: nat, n: nat, holder: nat, publisher: Uuid)
    requires Valid(steps) && m <= n <= |steps|
    requires forall i | m <= i <= n :: holder in At(steps, i).shared && At(steps, i).shared[holder] == publisher
    ensures Selected(At(steps, n).db, publisher) == Selected(At(steps, m).db, publisher)
    ensures IsVerified(At(steps, n).db, publisher)
  {
    hide Enabled, Apply, Inv, Selected;
    InvAt(steps, n);
    assert ShareOk(At(steps, n), publisher) by { SharesAreOk(At(steps, n), holder); }
    if m < n {
      SharedStaysVerified(steps, m, n - 1, holder, publisher);
      RunPrefix(steps, n - 1);
      InvAt(steps, n - 1);
      StepKeepsShare(At(steps, n - 1), steps[n - 1], holder);
    }
  }

  lemma SharesAreOk(s: State, holder: nat)
    requires Inv(s) && holder in s.shared
    ensures ShareOk(s, s.shared[holder])
  {
  }

  /** Nobody else can undo that: other transactions' steps leave a writer that has inserted where it is. */
  lemma OthersDoNotTouch(s: State, step: Step, tx: nat)
    requires Enabled(s, step) && (Elsewhere(step) || step.tx != tx)
    ensures tx in Apply(s, step).open <==> tx in s.open
    ensures tx in s.open ==> Apply(s, step).open[tx] == s.open[tx]
  {
  }

  /** A version somebody has read as current can be followed: if no open transaction has inserted the next one, the
      reader's insert succeeds whenever its transition is allowed. */
  lemma CurrentReaderCanInsert(s: State, tx: nat)
    requires Inv(s) && tx in s.open && s.open[tx].phase.Read?
    requires UpdateReady(s.db, s.open[tx].change) && KeyFree(s, tx, RecordKey(s.open[tx].change))
    ensures Enabled(s, Insert(tx)) <==> Transition(s.open[tx].phase.seen, s.open[tx].change).Ok?
  {
    assert TxOk(s.db, s.open[tx]) && HistoryOk(s.db, s.open[tx].change.publisher);
  }
}
