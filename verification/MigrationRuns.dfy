/** Migration runs: one is atomic, and over any number of them, failing or not, each migration is applied once and
    in order. */
module MigrationRuns {
  import opened Shared
  import opened Migrations

  /** The committed state: the ledger table, once it exists, and the migrations whose statements have taken effect,
      in order. */
  datatype Db = Db(ledger: Option<map<string, string>>, executed: seq<Step>)

  function Rows(db: Db): map<string, string> {
    if db.ledger.Some? then db.ledger.value else map[]
  }

  /** The ledger is that of as many shipped steps as it has rows. */
  predicate Accepts(db: Db, steps: seq<Step>) {
    |Rows(db)| <= |steps| && Rows(db) == LedgerOf(steps[..|Rows(db)|])
  }

  lemma {:induction false} LedgerSize(steps: seq<Step>, k: nat)
    requires Named(steps) && k <= |steps|
    ensures |LedgerOf(steps[..k])| == k
  {
    if k > 0 {
      LedgerSize(steps, k - 1);
      LedgerContents(steps, k - 1, steps[k - 1].name);
      assert steps[..k][..k - 1] == steps[..k - 1];
      var before := LedgerOf(steps[..k - 1]);
      assert LedgerOf(steps[..k]).Keys == before.Keys + {steps[k - 1].name};
    }
  }

  /** After a run that takes effect: the pending steps are executed and recorded. */
  function Migrated(db: Db, steps: seq<Step>): Db
    requires Accepts(db, steps)
  {
    Db(Some(LedgerOf(steps)), db.executed + steps[|Rows(db)|..])
  }

  /** What a run does to the committed state, and reports. */
  ghost predicate Ran(before: Db, steps: seq<Step>, apply: bool, after: Db, r: Outcome) {
    // A success found a beginning of the shipped steps and, applying, executed exactly the rest.
    && (r.States? ==>
          && Accepts(before, steps)
          && r.states == StatesOf(steps, if apply then |steps| else |Rows(before)|)
          && after == if apply then Migrated(before, steps) else before)
    // A failure changed nothing, unless only the reply to the commit was lost.
    && (r.Refused? ==>
          || after == before
          || (r.failure == Database && apply && Accepts(before, steps) && after == Migrated(before, steps)))
    // Drift and unknown migrations are reported for no other ledgers than those.
    && (r == Refused(Drift) ==> forall n | 0 <= n <= |steps| :: !Agrees(Rows(before), steps, n))
    && (r == Refused(Unknown) ==>
          !Accepts(before, steps) && exists n :: 0 <= n <= |steps| && Agrees(Rows(before), steps, n))
  }

  class Connection {
    var db: Db

    /** A run from the shipped files: they are checked before anything else. */
    method RunFiles(files: seq<(string, string)>, sha256: string -> string, apply: bool, calm: bool)
      returns (r: Outcome)
      modifies this
      ensures var shipped := files != [] && forall i | 0 <= i < |files| :: WellShipped(files, i);
              if !shipped then r == Refused(InvalidSequence) && db == old(db)
              else
                && Named(StepsOf(files, sha256)) && Ran(old(db), StepsOf(files, sha256), apply, db, r)
                && (calm ==> (r.States? <==> Accepts(old(db), StepsOf(files, sha256))))
    {
      hide WellShipped, Ran, Accepts, Named;
      var steps := Load(files, sha256);
      if steps.None? { return Refused(InvalidSequence); }
      r := Run(steps.value, apply, calm);
    }

    /** Checks the history and, if asked to, applies what is pending; all in one transaction. While it is calm the
        database answers and every statement succeeds. */
    method Run(steps: seq<Step>, apply: bool, calm: bool) returns (r: Outcome)
      requires Named(steps)
      modifies this
      ensures Ran(old(db), steps, apply, db, r)
      ensures calm ==> (r.States? <==> Accepts(old(db), steps))
    {
      hide LedgerOf, Agrees;
      var working := db;
      var up: bool := *;
      if !up && !calm { return Refused(Database); }
      if apply && working.ledger.None? { working := working.(ledger := Some(map[])); }
      var k: nat;
      r, k := Check(steps, Rows(working));
      if k <= |steps| { LedgerSize(steps, k); }
      if r.Refused? {
        RefusedMeansNone(db, steps);
        return;
      }
      if apply {
        var done, states := ApplyPending(working, steps, k, r.states, calm);
        if done.None? { return Refused(Database); }
        working := done.value;
        r := States(states);
      }
      up := *;
      if !up && !calm { return Refused(Database); }
      db := working;
      var heard: bool := *;
      if !heard && !calm { r := Refused(Database); }
    }
  }

  /** Executes and records each pending step in order; nothing is committed yet. */
  method ApplyPending(
      start: Db, steps: seq<Step>, k: nat, found: seq<Applied>, calm: bool)
    returns (done: Option<Db>, states: seq<Applied>)
    requires Named(steps) && k <= |steps| && start.ledger == Some(LedgerOf(steps[..k])) && found == StatesOf(steps, k)
    ensures calm ==> done.Some?
    ensures done.Some? ==>
        done.value == Db(Some(LedgerOf(steps)), start.executed + steps[k..]) && states == StatesOf(steps, |steps|)
  {
    hide LedgerOf;
    var working := start;
    states := found;
    for i := 0 to |steps|
      invariant |states| == |steps|
      invariant forall j | 0 <= j < |steps| :: states[j] == Applied(steps[j].name, j < i || j < k)
      invariant var n := if i < k then k else i;
                working == Db(Some(LedgerOf(steps[..n])), start.executed + steps[k..n])
    {
      if !states[i].applied {
        var up: bool := *;
        if !up && !calm { return None, states; }
        LedgerGrows(steps, i);
        assert start.executed + steps[k..i] + [steps[i]] == start.executed + steps[k..i + 1];
        working := working.(executed := working.executed + [steps[i]]);
        working := working.(ledger := Some(working.ledger.value[steps[i].name := steps[i].checksum]));
        states := states[i := Applied(steps[i].name, true)];
      }
    }
    assert steps[..|steps|] == steps && steps[k..|steps|] == steps[k..];
    assert states == StatesOf(steps, |steps|);
    done := Some(working);
  }

  /** The ledger's primary key has room for the next step. */
  lemma LedgerGrows(steps: seq<Step>, i: nat)
    requires Named(steps) && i < |steps|
    ensures steps[i].name !in LedgerOf(steps[..i])
    ensures LedgerOf(steps[..i + 1]) == LedgerOf(steps[..i])[steps[i].name := steps[i].checksum]
  {
    LedgerContents(steps, i, steps[i].name);
    assert steps[..i + 1][..i] == steps[..i];
  }

  lemma RefusedMeansNone(db: Db, steps: seq<Step>)
    requires Named(steps) && !exists n :: 0 <= n <= |steps| && Rows(db) == LedgerOf(steps[..n])
    ensures !Accepts(db, steps)
  {
  }

  // ---------------------------------------------------------------- over runs

  /** One run by a program that ships the first `shipped` of the migrations ever written. */
  datatype Attempt = Attempt(shipped: nat, apply: bool, outcome: Outcome)

  /** A history of serialised runs from an empty database. Programs old and new take part; what each ships is a
      beginning of one growing list. */
  ghost predicate History(all: seq<Step>, runs: seq<Attempt>, dbs: seq<Db>) {
    && Named(all) && |dbs| == |runs| + 1 && dbs[0] == Db(None, [])
    && forall i | 0 <= i < |runs| :: RunAt(all, runs, dbs, i)
  }

  ghost predicate RunAt(all: seq<Step>, runs: seq<Attempt>, dbs: seq<Db>, i: nat)
    requires i < |runs| && |dbs| == |runs| + 1
  {
    runs[i].shipped <= |all| && Ran(dbs[i], all[..runs[i].shipped], runs[i].apply, dbs[i + 1], runs[i].outcome)
  }

  /** What has been executed is a beginning of the list, each migration once and in order, and the ledger is its. */
  predicate InOrder(all: seq<Step>, db: Db) {
    db.executed <= all && Rows(db) == LedgerOf(db.executed)
  }

  /** A beginning of what is shipped is a beginning of everything. */
  lemma AcceptedBeginning(all: seq<Step>, shipped: nat, db: Db)
    requires Named(all) && shipped <= |all| && InOrder(all, db)
    ensures |Rows(db)| == |db.executed|
    ensures Accepts(db, all[..shipped]) <==> |db.executed| <= shipped
    ensures |db.executed| <= shipped ==> all[..shipped][..|db.executed|] == db.executed
  {
    assert db.executed == all[..|db.executed|];
    LedgerSize(all, |db.executed|);
    if |db.executed| <= shipped { assert all[..shipped][..|db.executed|] == db.executed; }
  }

  lemma RunKeepsOrder(all: seq<Step>, shipped: nat, apply: bool, before: Db, after: Db, r: Outcome)
    requires Named(all) && shipped <= |all| && InOrder(all, before) && Ran(before, all[..shipped], apply, after, r)
    ensures InOrder(all, after) && before.executed <= after.executed
    ensures after.executed == before.executed || after.executed == all[..shipped]
    ensures r.States? ==> |before.executed| <= shipped && (apply ==> after.executed == all[..shipped])
  {
    hide LedgerOf, Agrees;
    AcceptedBeginning(all, shipped, before);
    if |before.executed| <= shipped {
      assert before.executed + all[..shipped][|before.executed|..] == all[..shipped];
    }
  }

  /** At every moment the executed migrations are a beginning of the list and the ledger says so; and no run ever
      takes one back. */
  lemma {:induction false} EachOnceInOrder(all: seq<Step>, runs: seq<Attempt>, dbs: seq<Db>, m: nat, n: nat)
    requires History(all, runs, dbs) && m <= n <= |runs|
    ensures InOrder(all, dbs[m]) && InOrder(all, dbs[n]) && dbs[m].executed <= dbs[n].executed
    decreases n
  {
    assert LedgerOf([]) == map[];
    if n > 0 {
      hide Ran, InOrder;
      assert RunAt(all, runs, dbs, n - 1);
      EachOnceInOrder(all, runs, dbs, if m < n then m else n - 1, n - 1);
      RunKeepsOrder(all, runs[n - 1].shipped, runs[n - 1].apply, dbs[n - 1], dbs[n], runs[n - 1].outcome);
    }
  }

  /** After a successful application, a later run that ships no more applies nothing; one that ships less, or that
      finds more applied than it ships, cannot succeed. */
  lemma SecondRunAppliesNothing(all: seq<Step>, runs: seq<Attempt>, dbs: seq<Db>, i: nat, j: nat)
    requires History(all, runs, dbs) && i < j < |runs|
    requires runs[i].apply && runs[i].outcome.States? && runs[j].shipped <= runs[i].shipped
    ensures dbs[j + 1].executed == dbs[j].executed
    ensures runs[j].outcome.States? ==>
              && runs[j].shipped == runs[i].shipped <= |all| && dbs[j].executed == all[..runs[i].shipped]
              && runs[j].outcome.states == StatesOf(all[..runs[j].shipped], runs[j].shipped)
  {
    hide Ran, InOrder;
    assert RunAt(all, runs, dbs, i) && RunAt(all, runs, dbs, j);
    EachOnceInOrder(all, runs, dbs, i, i);
    EachOnceInOrder(all, runs, dbs, i + 1, j);
    RunKeepsOrder(all, runs[i].shipped, runs[i].apply, dbs[i], dbs[i + 1], runs[i].outcome);
    RunKeepsOrder(all, runs[j].shipped, runs[j].apply, dbs[j], dbs[j + 1], runs[j].outcome);
    if runs[j].outcome.States? {
      AcceptedBeginning(all, runs[j].shipped, dbs[j]);
      StatesReported(dbs[j], all[..runs[j].shipped], runs[j].apply, dbs[j + 1], runs[j].outcome);
    }
  }

  lemma StatesReported(before: Db, steps: seq<Step>, apply: bool, after: Db, r: Outcome)
    requires Ran(before, steps, apply, after, r) && r.States?
    ensures r.states == StatesOf(steps, if apply then |steps| else |Rows(before)|)
  {
  }

  /** A program that ships everything applied so far is never refused for its history; one that ships less always is,
      unless the database fails first. */
  lemma RefusedExactlyWhenBehind(all: seq<Step>, runs: seq<Attempt>, dbs: seq<Db>, i: nat)
    requires History(all, runs, dbs) && i < |runs|
    ensures runs[i].shipped >= |dbs[i].executed| ==>
        runs[i].outcome.States? || runs[i].outcome.failure !in {Drift, Unknown}
    ensures runs[i].shipped < |dbs[i].executed| ==>
        runs[i].outcome.Refused? && runs[i].outcome.failure != Drift && dbs[i + 1] == dbs[i]
  {
    hide LedgerOf, Agrees;
    assert RunAt(all, runs, dbs, i);
    EachOnceInOrder(all, runs, dbs, i, i);
    AcceptedBeginning(all, runs[i].shipped, dbs[i]);
    AgreesWithPart(all, runs[i].shipped, dbs[i]);
  }

  lemma AgreesWithPart(all: seq<Step>, shipped: nat, db: Db)
    requires Named(all) && shipped <= |all| && InOrder(all, db)
    ensures Agrees(Rows(db), all[..shipped], if |db.executed| < shipped then |db.executed| else shipped)
  {
    var k := |db.executed|;
    assert db.executed == all[..k];
    LedgerIsPrefix(Rows(db), all, k);
    var steps := all[..shipped];
    forall i | 0 <= i < |steps|
      ensures Holds(Rows(db), steps[i]) == (i < if k < shipped then k else shipped)
      ensures i >= (if k < shipped then k else shipped) ==> steps[i].name !in Rows(db)
    {
      assert steps[i] == all[i];
    }
  }
}
