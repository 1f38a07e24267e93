/** The transaction manager: tenant-scoped transactions with savepoints for nested ones, over a connection whose
    statements may fail. A program of writes and nested transactions run through it means what its text says. */
module Transactions {
  import opened Shared
  import opened Uuids

  const INVALID_REQUEST := Error(Invalid, "transaction.invalid_request")
  const TENANT_MISMATCH := Error(Invalid, "transaction.tenant_mismatch")
  const REQUIRED := Error(Invalid, "transaction.required")

  /** A tenant's rows, by tenant and key. */
  type Table = map<(Uuid, string), string>

  /** What becomes of one statement: fine, refused by the database, or the connection drops before or after it takes
      effect. */
  datatype Fault = Fine | Refused | DroppedBefore | DroppedAfter

  /** A connection inside a transaction. After a failed statement it refuses everything but a rollback. */
  datatype Health = Healthy | Poisoned | Lost

  function After(h: Health, fault: Fault): Health {
    if h.Lost? || fault.DroppedBefore? || fault.DroppedAfter? then Lost
    else if h.Poisoned? || fault.Refused? then Poisoned
    else Healthy
  }

  // ---------------------------------------------------------------- programs and their meaning

  /** What an application operation does with its context: writes a row through the current transaction, fails by
      itself, goes on only while nothing fails, swallows an error, or runs an operation in a transaction. `commit` is
      what becomes of the statement that ends the transaction: its commit, a nested one's release, or the rollback to
      its savepoint. */
  datatype Program =
    | Skip
    | Put(tenant: Uuid, key: string, value: string, fault: Fault)
    | Raise(error: Error)
    | Then(first: Program, second: Program)
    | Ignore(body: Program)
    | Within(tenant: Uuid, begin: Fault, setup: Fault, body: Program, commit: Fault)

  /** What the program can see: the rows, and the state of its transaction. */
  datatype Session = Session(table: Table, health: Health)

  /** The direct meaning of a program, in the context of a transaction for a tenant or of none. */
  function Meaning(p: Program, context: Option<Uuid>, s: Session): (Status, Session)
  {
    match p
    case Skip => (Done, s)
    case Put(tenant, key, value, fault) =>
      if !ValidUuid(tenant) then (Failed(INVALID_REQUEST), s)
      else if context.None? then (Failed(REQUIRED), s)
      else if context.value != tenant then (Failed(TENANT_MISMATCH), s)
      else if s.health.Healthy? && fault.Fine? then (Done, s.(table := s.table[(tenant, key) := value]))
      else (Failed(TRANSACTION_UNAVAILABLE), s.(health := After(s.health, fault)))
    case Raise(error) => (Failed(error), s)
    case Then(first, second) =>
      var (r, next) := Meaning(first, context, s);
      if r.Failed? then (r, next) else Meaning(second, context, next)
    case Ignore(body) => (Done, Meaning(body, context, s).1)
    case Within(tenant, begin, setup, body, commit) =>
      if !ValidUuid(tenant) then (Failed(INVALID_REQUEST), s)
      else if context.Some? && context.value != tenant then (Failed(TENANT_MISMATCH), s)
      else if context.Some? then
        if !s.health.Healthy? || !begin.Fine? then
          (Failed(TRANSACTION_UNAVAILABLE), s.(health := After(s.health, begin)))
        else NestedEnd(Meaning(body, context, s), commit, s)
      else if !begin.Fine? || !setup.Fine? then (Failed(TRANSACTION_UNAVAILABLE), s)
      else TransactionEnd(Meaning(body, Some(tenant), Session(s.table, Healthy)), commit, s)
  }

  /** How a nested transaction ends: its body's writes join the outer one's, or leave no trace in it, unless the
      rollback to its savepoint fails. */
  function NestedEnd(inner: (Status, Session), commit: Fault, s: Session): (Status, Session) {
    if inner.0.Failed? then (inner.0, Undone(inner.1, commit, s))
    else if !inner.1.health.Healthy? || !commit.Fine?
    then (Failed(TRANSACTION_UNAVAILABLE), inner.1.(health := After(inner.1.health, commit)))
    else inner
  }

  /** A rollback to a savepoint heals the connection and takes back what was written since. */
  function Undone(inner: Session, fault: Fault, s: Session): Session {
    if !inner.health.Lost? && fault.Fine? then Session(s.table, Healthy)
    else inner.(health := After(inner.health, fault))
  }

  /** How a transaction of its own ends: with all of its body's writes, or none of them. */
  function TransactionEnd(inner: (Status, Session), commit: Fault, s: Session): (Status, Session) {
    if inner.0.Failed? then (inner.0, s)
    else if !inner.1.health.Healthy? || commit.Refused? || commit.DroppedBefore? then
      (Failed(TRANSACTION_UNAVAILABLE), s)
    else (if commit.Fine? then Done else Failed(TRANSACTION_UNAVAILABLE), s.(table := inner.1.table))
  }

  /** The meaning inside a tenant's transaction. */
  function Inside(p: Program, tenant: Uuid, s: Session): (Status, Session) {
    Meaning(p, Some(tenant), s)
  }

  // ---------------------------------------------------------------- laws

  /** A failed statement is final within its transaction: nothing later is written, and nothing heals it. */
  lemma {:induction false} PoisonPersists(p: Program, tenant: Uuid, s: Session)
    requires !s.health.Healthy?
    ensures !Inside(p, tenant, s).1.health.Healthy? && Inside(p, tenant, s).1.table == s.table
  {
    match p
    case Then(first, second) =>
      PoisonPersists(first, tenant, s);
      PoisonPersists(second, tenant, Inside(first, tenant, s).1);
    case Ignore(body) => PoisonPersists(body, tenant, s);
    case _ =>
  }

  /** A transaction whose connection a refused statement has left failed never commits, even when the operation
      swallowed the error and reported success. (A savepoint rolled back heals it; see NestedFailureIsContained.) */
  lemma SwallowedRefusalNeverCommits(
      tenant: Uuid, begin: Fault, setup: Fault, first: Program, second: Program, commit: Fault, s: Session)
    requires !Inside(first, tenant, Session(s.table, Healthy)).1.health.Healthy?
    ensures var (r, after) := Meaning(Within(tenant, begin, setup, Then(first, second), commit), None, s);
            r.Failed? && after == s
  {
    var start := Session(s.table, Healthy);
    var (failed, next) := Inside(first, tenant, start);
    PoisonPersists(second, tenant, next);
    OneTransaction(tenant, begin, setup, Then(first, second), commit, s);
    assert Inside(Then(first, second), tenant, start) ==
      if failed.Failed? then (failed, next) else Inside(second, tenant, next);
    hide Meaning;
  }

  /** A transaction that cannot be begun does nothing; one that can ends as its operation leaves it. */
  lemma OneTransaction(tenant: Uuid, begin: Fault, setup: Fault, body: Program, commit: Fault, s: Session)
    ensures Meaning(Within(tenant, begin, setup, body, commit), None, s) ==
            if !ValidUuid(tenant) then (Failed(INVALID_REQUEST), s)
            else if !begin.Fine? || !setup.Fine? then (Failed(TRANSACTION_UNAVAILABLE), s)
            else TransactionEnd(Inside(body, tenant, Session(s.table, Healthy)), commit, s)
  {
  }

  /** A nested transaction contains its failures exactly while the connection lasts: an outer operation that swallows
      the error of its body continues as if it had never been started, if the rollback to the savepoint succeeds, and
      otherwise on a connection that no longer works. */
  lemma NestedFailureIsContained(tenant: Uuid, setup: Fault, body: Program, commit: Fault, s: Session)
    requires ValidUuid(tenant) && s.health.Healthy? && Inside(body, tenant, s).0.Failed?
    ensures var nested := Inside(Ignore(Within(tenant, Fine, setup, body, commit)), tenant, s);
            if !Inside(body, tenant, s).1.health.Lost? && commit.Fine? then nested == Inside(Skip, tenant, s)
            else nested.0.Done? && !nested.1.health.Healthy?
  {
    var block := Within(tenant, Fine, setup, body, commit);
    assert Inside(block, tenant, s) == NestedEnd(Inside(body, tenant, s), commit, s);
    assert Inside(Ignore(block), tenant, s) == (Done, Inside(block, tenant, s).1);
  }

  /** Rows of other tenants are never touched. */
  lemma {:induction false} TenantsAreIsolated(p: Program, tenant: Uuid, s: Session, row: (Uuid, string))
    requires row.0 != tenant
    ensures var table := Inside(p, tenant, s).1.table;
            (row in table <==> row in s.table) && (row in table ==> table[row] == s.table[row])
  {
    match p
    case Then(first, second) =>
      TenantsAreIsolated(first, tenant, s, row);
      TenantsAreIsolated(second, tenant, Inside(first, tenant, s).1, row);
    case Ignore(body) => TenantsAreIsolated(body, tenant, s, row);
    case Within(_, _, _, body, _) => TenantsAreIsolated(body, tenant, s, row);
    case _ =>
  }

  /** The program with everything for another tenant replaced by the refusal it gets. */
  function Refused(p: Program, tenant: Uuid): Program {
    match p
    case Put(t, _, _, _) =>
      if !ValidUuid(t) then Raise(INVALID_REQUEST) else if t != tenant then Raise(TENANT_MISMATCH) else p
    case Then(first, second) => Then(Refused(first, tenant), Refused(second, tenant))
    case Ignore(body) => Ignore(Refused(body, tenant))
    case Within(t, begin, setup, body, commit) =>
      if !ValidUuid(t) then Raise(INVALID_REQUEST)
      else if t != tenant then Raise(TENANT_MISMATCH)
      else Within(t, begin, setup, Refused(body, tenant), commit)
    case _ => p
  }

  /** Writes and transactions for another tenant are refused without effect, at every depth. */
  lemma {:induction false} OtherTenantsAreRefused(p: Program, tenant: Uuid, s: Session)
    ensures Inside(p, tenant, s) == Inside(Refused(p, tenant), tenant, s)
  {
    match p
    case Then(first, second) =>
      OtherTenantsAreRefused(first, tenant, s);
      OtherTenantsAreRefused(second, tenant, Inside(first, tenant, s).1);
    case Ignore(body) => OtherTenantsAreRefused(body, tenant, s);
    case Within(_, _, _, body, _) => OtherTenantsAreRefused(body, tenant, s);
    case _ =>
  }

  /** The program without its nested transactions: their operations run in the outer one. */
  function Flat(p: Program): Program {
    match p
    case Then(first, second) => Then(Flat(first), Flat(second))
    case Ignore(body) => Ignore(Flat(body))
    case Within(_, _, _, body, _) => Flat(body)
    case _ => p
  }

  predicate Swallows(p: Program) {
    match p
    case Then(first, second) => Swallows(first) || Swallows(second)
    case Ignore(_) => true
    case Within(_, _, _, body, _) => Swallows(body)
    case _ => false
  }

  /** Nesting does not change what a successful operation does, as long as it swallows no error: its nested
      transactions could as well have been run in the outer one. */
  lemma {:induction false} SuccessIgnoresNesting(p: Program, tenant: Uuid, s: Session)
    requires !Swallows(p) && Inside(p, tenant, s).0.Done?
    ensures Inside(Flat(p), tenant, s) == Inside(p, tenant, s)
  {
    match p
    case Then(first, second) =>
      SuccessIgnoresNesting(first, tenant, s);
      SuccessIgnoresNesting(second, tenant, Inside(first, tenant, s).1);
    case Within(_, _, _, body, _) => SuccessIgnoresNesting(body, tenant, s);
    case _ =>
  }

  /** The program swallows no error, its nested transactions are the tenant's own, and their savepoints are made and
      released without a fault; what becomes of its writes does not matter. */
  predicate Clean(p: Program, tenant: Uuid) {
    match p
    case Then(first, second) => Clean(first, tenant) && Clean(second, tenant)
    case Ignore(_) => false
    case Within(t, begin, _, body, commit) => t == tenant && begin.Fine? && commit.Fine? && Clean(body, tenant)
    case _ => true
  }

  /** A clean program succeeds and fails as its flat form does, with the same rows if it succeeds. */
  lemma {:induction false} CleanFailsAlike(p: Program, tenant: Uuid, s: Session)
    requires ValidUuid(tenant) && Clean(p, tenant) && s.health.Healthy?
    ensures var (nested, flat) := (Inside(p, tenant, s), Inside(Flat(p), tenant, s));
            && nested.0 == flat.0 && (nested.0.Done? ==> nested == flat && nested.1.health.Healthy?)
            && (nested.1.health.Lost? <==> flat.1.health.Lost?)
  {
    match p
    case Then(first, second) =>
      CleanFailsAlike(first, tenant, s);
      if Inside(first, tenant, s).0.Done? { CleanFailsAlike(second, tenant, Inside(first, tenant, s).1); }
    case Within(_, _, _, body, _) => CleanFailsAlike(body, tenant, s);
    case _ =>
  }

  /** Savepoints are transparent in a transaction whose operation is clean, whether it succeeds or fails: the whole
      transaction does and reports what its flat form does. */
  lemma NestingIsTransparent(p: Program, tenant: Uuid, begin: Fault, setup: Fault, commit: Fault, s: Session)
    requires Clean(p, tenant)
    ensures Meaning(Within(tenant, begin, setup, p, commit), None, s)
         == Meaning(Within(tenant, begin, setup, Flat(p), commit), None, s)
  {
    if ValidUuid(tenant) { CleanFailsAlike(p, tenant, Session(s.table, Healthy)); }
  }

  /** A fault at a savepoint is no part of a clean program: nested the write then fails, and flat it does not. */
  lemma SavepointFaultsShow(tenant: Uuid, key: string, value: string, fault: Fault, s: Session)
    requires ValidUuid(tenant) && s.health.Healthy? && !fault.Fine?
    ensures var p := Within(tenant, fault, Fine, Put(tenant, key, value, Fine), Fine);
            Inside(p, tenant, s).0 == Failed(TRANSACTION_UNAVAILABLE) && Inside(Flat(p), tenant, s).0.Done?
  {
    assert Flat(Put(tenant, key, value, Fine)) == Put(tenant, key, value, Fine);
  }

  // ---------------------------------------------------------------- one swallowed block

  /** The writes and the failures of its own that a program comes to, in order. */
  function Atoms(p: Program): (atoms: seq<Program>)
    ensures forall i | 0 <= i < |atoms| :: atoms[i].Put? || atoms[i].Raise?
  {
    match p
    case Skip => []
    case Then(first, second) => Atoms(first) + Atoms(second)
    case Ignore(body) => Atoms(body)
    case Within(_, _, _, body, _) => Atoms(body)
    case _ => [p]
  }

  predicate OwnPut(atom: Program, tenant: Uuid) {
    atom.Put? && ValidUuid(atom.tenant) && atom.tenant == tenant
  }

  predicate Fails(atom: Program, tenant: Uuid) {
    !(OwnPut(atom, tenant) && atom.fault.Fine?)
  }

  /** The first of the atoms that fails, or their number if none does. */
  function FirstFailure(atoms: seq<Program>, tenant: Uuid): (k: nat)
    ensures k <= |atoms| && (k < |atoms| ==> Fails(atoms[k], tenant))
  {
    if atoms == [] || Fails(atoms[0], tenant) then 0 else 1 + FirstFailure(atoms[1..], tenant)
  }

  /** The rows after the writes. */
  function Stored(table: Table, atoms: seq<Program>): Table {
    if atoms == [] then table
    else
      var rest := atoms[..|atoms| - 1];
      var last := atoms[|atoms| - 1];
      if last.Put? then Stored(table, rest)[(last.tenant, last.key) := last.value] else Stored(table, rest)
  }

  lemma {:induction false} StoredAppend(table: Table, a: seq<Program>, b: seq<Program>)
    ensures Stored(table, a + b) == Stored(Stored(table, a), b)
  {
    if b == [] {
      assert a + b == a;
    } else {
      assert (a + b)[..|a + b| - 1] == a + b[..|b| - 1];
      StoredAppend(table, a, b[..|b| - 1]);
    }
  }

  lemma {:induction false} FailureAppend(a: seq<Program>, b: seq<Program>, tenant: Uuid)
    ensures FirstFailure(a + b, tenant) ==
            if FirstFailure(a, tenant) < |a| then FirstFailure(a, tenant) else |a| + FirstFailure(b, tenant)
  {
    if a == [] {
      assert a + b == b;
    } else {
      assert (a + b)[1..] == a[1..] + b;
      FailureAppend(a[1..], b, tenant);
    }
  }

  /** What a clean program's flat form comes to, read off its atoms: the writes before the first that fails, and
      that failure. */
  function Read(atoms: seq<Program>, tenant: Uuid, s: Session): (Status, Session) {
    var k := FirstFailure(atoms, tenant);
    var before := s.(table := Stored(s.table, atoms[..k]));
    if k < |atoms| then Inside(atoms[k], tenant, before) else (Done, before)
  }

  lemma ReadFails(atoms: seq<Program>, tenant: Uuid, s: Session)
    requires s.health.Healthy? && forall i | 0 <= i < |atoms| :: atoms[i].Put? || atoms[i].Raise?
    ensures Read(atoms, tenant, s).0.Done? <==> FirstFailure(atoms, tenant) == |atoms|
  {
    hide Stored;
  }

  lemma ReadUpToFailure(a: seq<Program>, b: seq<Program>, tenant: Uuid, s: Session)
    requires FirstFailure(a, tenant) < |a|
    ensures Read(a + b, tenant, s) == Read(a, tenant, s)
  {
    hide Stored, Inside, FirstFailure;
    var k := FirstFailure(a, tenant);
    FailureAppend(a, b, tenant);
    assert (a + b)[..k] == a[..k] && (a + b)[k] == a[k];
  }

  lemma ReadPast(a: seq<Program>, b: seq<Program>, tenant: Uuid, s: Session)
    requires FirstFailure(a, tenant) == |a|
    ensures Read(a, tenant, s) == (Done, s.(table := Stored(s.table, a)))
    ensures Read(a + b, tenant, s) == Read(b, tenant, s.(table := Stored(s.table, a)))
  {
    hide Stored, Inside, FirstFailure;
    var m := FirstFailure(b, tenant);
    FailureAppend(a, b, tenant);
    assert a[..|a|] == a;
    assert (a + b)[..|a| + m] == a + b[..m];
    StoredAppend(s.table, a, b[..m]);
    assert m < |b| ==> (a + b)[|a| + m] == b[m];
  }

  lemma ReadAppend(a: seq<Program>, b: seq<Program>, tenant: Uuid, s: Session)
    requires s.health.Healthy? && forall i | 0 <= i < |a| :: a[i].Put? || a[i].Raise?
    ensures Read(a + b, tenant, s) ==
            if Read(a, tenant, s).0.Failed? then Read(a, tenant, s) else Read(b, tenant, Read(a, tenant, s).1)
  {
    hide Read, FirstFailure;
    ReadFails(a, tenant, s);
    if FirstFailure(a, tenant) < |a| { ReadUpToFailure(a, b, tenant, s); } else { ReadPast(a, b, tenant, s); }
  }

  lemma ReadAtom(atom: Program, tenant: Uuid, s: Session)
    requires (atom.Put? || atom.Raise?) && s.health.Healthy?
    ensures Read([atom], tenant, s) == Inside(atom, tenant, s)
  {
    assert [atom][1..] == [] && [atom][..0] == [] && [atom][..1] == [atom];
    assert FirstFailure([atom], tenant) == if Fails(atom, tenant) then 0 else 1;
    if atom.Put? { assert Stored(s.table, [atom]) == s.table[(atom.tenant, atom.key) := atom.value]; }
  }

  lemma {:induction false} FlatIsItsAtoms(p: Program, tenant: Uuid, s: Session)
    requires ValidUuid(tenant) && Clean(p, tenant) && s.health.Healthy?
    ensures Inside(Flat(p), tenant, s) == Read(Atoms(p), tenant, s)
  {
    match p
    case Skip =>
    case Then(first, second) =>
      hide Read;
      FlatIsItsAtoms(first, tenant, s);
      CleanFailsAlike(first, tenant, s);
      ReadFails(Atoms(first), tenant, s);
      ReadAppend(Atoms(first), Atoms(second), tenant, s);
      var (r, next) := Inside(Flat(first), tenant, s);
      if r.Done? { FlatIsItsAtoms(second, tenant, next); }
    case Within(_, _, _, body, _) => FlatIsItsAtoms(body, tenant, s);
    case _ => ReadAtom(p, tenant, s);
  }

  // ---------------------------------------------------------------- one transaction after the other

  /** What runs with no transaction around it: writes, failures of its own, and transactions of clean operations, one
      after the other. */
  predicate Outermost(p: Program) {
    match p
    case Then(first, second) => Outermost(first) && Outermost(second)
    case Ignore(_) => false
    case Within(tenant, _, _, body, _) => Clean(body, tenant)
    case _ => true
  }

  /** The writes, failures and transactions of such a program, in order. */
  function Units(p: Program): (units: seq<Program>)
    requires Outermost(p)
    ensures forall i | 0 <= i < |units| :: IsUnit(units[i])
  {
    match p
    case Skip => []
    case Then(first, second) => Units(first) + Units(second)
    case _ => [p]
  }

  predicate IsUnit(u: Program) {
    u.Put? || u.Raise? || (u.Within? && Clean(u.body, u.tenant))
  }

  /** Why one of them fails, if it does: a write has no transaction to go through, and a transaction fails if it cannot
      be begun, by the first of its atoms that fails, or at its commit. */
  function Reason(u: Program): Option<Error> {
    match u
    case Put(tenant, _, _, _) =>
      Some(Error(Invalid, if ValidUuid(tenant) then "transaction.required" else "transaction.invalid_request"))
    case Raise(error) => Some(error)
    case Within(tenant, begin, setup, body, commit) =>
      var atoms := Atoms(body);
      var k := FirstFailure(atoms, tenant);
      if !ValidUuid(tenant) then Some(Error(Invalid, "transaction.invalid_request"))
      else if begin != Fine || setup != Fine then Some(TRANSACTION_UNAVAILABLE)
      else if k < |atoms| then Some(AtomError(atoms[k], tenant))
      else if commit != Fine then Some(TRANSACTION_UNAVAILABLE)
      else None
    case _ => None
  }

  function AtomError(atom: Program, tenant: Uuid): Error
    requires atom.Put? || atom.Raise?
  {
    if atom.Raise? then atom.error
    else if !ValidUuid(atom.tenant) then Error(Invalid, "transaction.invalid_request")
    else if atom.tenant != tenant then Error(Invalid, "transaction.tenant_mismatch")
    else TRANSACTION_UNAVAILABLE
  }

  /** It has failed, or seems to have, and yet its writes are there: only the reply to its commit was lost. */
  predicate StoredUnheard(u: Program) {
    && u.Within? && ValidUuid(u.tenant) && u.begin == u.setup == Fine && u.commit == DroppedAfter
    && FirstFailure(Atoms(u.body), u.tenant) == |Atoms(u.body)|
  }

  /** How many of them succeed before the first that fails. */
  function Succeed(units: seq<Program>): (n: nat)
    ensures n <= |units| && (n < |units| ==> Reason(units[n]).Some?)
    ensures forall i | 0 <= i < n :: Reason(units[i]).None?
  {
    if units == [] || Reason(units[0]).Some? then 0 else 1 + Succeed(units[1..])
  }

  /** The atoms of them all, in order. */
  function AtomsOf(units: seq<Program>): seq<Program> {
    if units == [] then [] else Atoms(units[0]) + AtomsOf(units[1..])
  }

  /** What they come to: with the writes of those that succeed, in order, and the error of the first that fails. */
  function InOrder(units: seq<Program>, table: Table): (Status, Table) {
    var n := Succeed(units);
    var before := Stored(table, AtomsOf(units[..n]));
    if n == |units| then (Done, before)
    else (Failed(Reason(units[n]).value), if StoredUnheard(units[n]) then Stored(before, Atoms(units[n])) else before)
  }

  lemma UnitMeans(u: Program, s: Session)
    requires IsUnit(u)
    ensures Reason(u).None? ==> Meaning(u, None, s) == (Done, s.(table := Stored(s.table, Atoms(u))))
    ensures Reason(u).Some? ==>
              Meaning(u, None, s) ==
              (Failed(Reason(u).value), if StoredUnheard(u) then s.(table := Stored(s.table, Atoms(u))) else s)
  {
    if u.Within? {
      OneTransaction(u.tenant, u.begin, u.setup, u.body, u.commit, s);
      if ValidUuid(u.tenant) {
        var start := Session(s.table, Healthy);
        CleanFailsAlike(u.body, u.tenant, start);
        FlatIsItsAtoms(u.body, u.tenant, start);
        var atoms := Atoms(u.body);
        ReadFails(atoms, u.tenant, start);
        assert FirstFailure(atoms, u.tenant) == |atoms| ==> atoms[..|atoms|] == atoms;
        hide Clean, Flat, Stored;
      }
    }
  }

  lemma InOrderFirst(u: Program, rest: seq<Program>, table: Table)
    ensures InOrder([u] + rest, table) ==
            if Reason(u).None? then InOrder(rest, Stored(table, Atoms(u)))
            else (Failed(Reason(u).value), if StoredUnheard(u) then Stored(table, Atoms(u)) else table)
  {
    hide Reason, StoredUnheard, Atoms;
    var units := [u] + rest;
    assert units[1..] == rest;
    var n := Succeed(units);
    if Reason(u).None? {
      assert units[..n][1..] == rest[..n - 1] && units[..n][0] == u;
      StoredAppend(table, Atoms(u), AtomsOf(rest[..n - 1]));
    } else {
      assert units[..0] == [] && AtomsOf([]) == [] && Stored(table, []) == table;
    }
  }

  lemma {:induction false} InOrderAppend(a: seq<Program>, b: seq<Program>, table: Table)
    ensures InOrder(a + b, table) ==
            if InOrder(a, table).0.Failed? then InOrder(a, table) else InOrder(b, InOrder(a, table).1)
  {
    hide Reason, StoredUnheard, Atoms, InOrder;
    if a == [] {
      assert a + b == b;
      InOrderNone(table);
    } else {
      assert a == [a[0]] + a[1..] && a + b == [a[0]] + (a[1..] + b);
      InOrderFirst(a[0], a[1..], table);
      InOrderFirst(a[0], a[1..] + b, table);
      if Reason(a[0]).None? { InOrderAppend(a[1..], b, Stored(table, Atoms(a[0]))); }
    }
  }

  lemma InOrderNone(table: Table)
    ensures InOrder([], table) == (Done, table)
  {
    assert AtomsOf([]) == [] && Stored(table, []) == table;
  }

  /** Transactions run one after the other, with nothing around them, leave exactly the writes of those before the first
      that fails, all of them if none does, and report that failure. A write among them is refused. */
  lemma {:induction false} OneAfterTheOther(p: Program, s: Session)
    requires Outermost(p)
    ensures var (r, table) := InOrder(Units(p), s.table); Meaning(p, None, s) == (r, s.(table := table))
  {
    hide Reason, StoredUnheard, InOrder;
    match p
    case Skip => InOrderNone(s.table);
    case Then(first, second) =>
      OneAfterTheOther(first, s);
      InOrderAppend(Units(first), Units(second), s.table);
      if InOrder(Units(first), s.table).0.Done? { OneAfterTheOther(second, Meaning(first, None, s).1); }
    case Ignore(_) =>
    case _ =>
      UnitMeans(p, s);
      InOrderFirst(p, [], s.table);
      assert [p] + [] == [p];
      InOrderNone(Stored(s.table, Atoms(p)));
  }

  /** With its error swallowed it has left the same writes, and what follows goes on from there. */
  lemma SwallowedAtTheTop(p: Program, next: Program, s: Session)
    requires Outermost(p)
    ensures Meaning(Then(Ignore(p), next), None, s)
         == Meaning(next, None, s.(table := InOrder(Units(p), s.table).1))
  {
    hide InOrder, Units;
    OneAfterTheOther(p, s);
    assert Meaning(Ignore(p), None, s) == (Done, s.(table := InOrder(Units(p), s.table).1));
  }

  /** The block run flat leaves the connection working: nothing fails, or what fails first does not reach the
      database. */
  predicate StaysHealthy(body: Program, tenant: Uuid) {
    var atoms := Atoms(body);
    var k := FirstFailure(atoms, tenant);
    k == |atoms| || !OwnPut(atoms[k], tenant)
  }

  /** When a swallowed block, run flat instead of nested, changes the transaction around it. If the savepoint fails at
      either end: when the flat block leaves the connection working. Otherwise, when its first failure is a write of its
      own that the database refuses, which only the savepoint heals, or is no write of its own and comes after writes
      that changed a row, which only the savepoint takes back. */
  predicate LeavesTrace(body: Program, tenant: Uuid, table: Table, begin: Fault, end: Fault) {
    var atoms := Atoms(body);
    var k := FirstFailure(atoms, tenant);
    if !begin.Fine? || !end.Fine? then StaysHealthy(body, tenant)
    else
      && k < |atoms|
      && if OwnPut(atoms[k], tenant) then atoms[k].fault.Refused? else Stored(table, atoms[..k]) != table
  }

  /** The transaction that swallows the block's error and goes on does and reports the same, nested or flat. */
  predicate SameEitherWay(
      body: Program, rest: Program, tenant: Uuid, begin: Fault, setup: Fault, end: Fault, commit: Fault, s: Session)
  {
    var nested := Ignore(Within(tenant, begin, setup, body, end));
    Meaning(Within(tenant, Fine, Fine, Then(nested, rest), commit), None, s)
      == Meaning(Within(tenant, Fine, Fine, Then(Ignore(Flat(body)), rest), commit), None, s)
  }

  /** Once the connection does not work, neither the rows nor the reason make a difference. */
  lemma {:induction false} BrokenAlike(p: Program, tenant: Uuid, s: Session, u: Session)
    requires !s.health.Healthy? && !u.health.Healthy?
    ensures Inside(p, tenant, s).0 == Inside(p, tenant, u).0
    ensures !Inside(p, tenant, s).1.health.Healthy? && !Inside(p, tenant, u).1.health.Healthy?
  {
    match p
    case Then(first, second) =>
      BrokenAlike(first, tenant, s, u);
      BrokenAlike(second, tenant, Inside(first, tenant, s).1, Inside(first, tenant, u).1);
    case Ignore(body) => BrokenAlike(body, tenant, s, u);
    case _ =>
  }

  /** For a clean block whose error is swallowed, and whatever becomes of its savepoint, the savepoint makes no
      difference, whatever follows and whatever becomes of the commit, exactly when the block leaves no trace. */
  lemma SwallowedBlockIsTransparentExactly(
      body: Program, tenant: Uuid, begin: Fault, setup: Fault, end: Fault, s: Session)
    requires ValidUuid(tenant) && Clean(body, tenant)
    ensures (forall rest, commit :: SameEitherWay(body, rest, tenant, begin, setup, end, commit, s))
            <==> !LeavesTrace(body, tenant, s.table, begin, end)
  {
    if LeavesTrace(body, tenant, s.table, begin, end) {
      TraceShows(body, tenant, begin, setup, end, s);
    } else {
      forall rest, commit ensures SameEitherWay(body, rest, tenant, begin, setup, end, commit, s) {
        NoTraceNoDifference(body, rest, tenant, begin, setup, end, commit, s);
      }
    }
  }

  /** What the swallowed block leaves, nested and flat. */
  lemma BlockEnds(body: Program, tenant: Uuid, begin: Fault, setup: Fault, end: Fault, s: Session)
      returns (nested: Session, flat: Session)
    requires ValidUuid(tenant) && Clean(body, tenant) && s.health.Healthy?
    ensures Inside(Ignore(Within(tenant, begin, setup, body, end)), tenant, s) == (Done, nested)
    ensures Inside(Ignore(Flat(body)), tenant, s) == (Done, flat) && flat == Read(Atoms(body), tenant, s).1
    ensures flat.health.Healthy? <==> StaysHealthy(body, tenant)
    ensures if !begin.Fine? || !end.Fine? then !nested.health.Healthy?
            else
              && (nested.health.Lost? <==> flat.health.Lost?)
              && (FirstFailure(Atoms(body), tenant) == |Atoms(body)| ==> nested == flat)
              && (FirstFailure(Atoms(body), tenant) < |Atoms(body)| && !flat.health.Lost? ==> nested == s)
  {
    CleanFailsAlike(body, tenant, s);
    FlatIsItsAtoms(body, tenant, s);
    var block := Within(tenant, begin, setup, body, end);
    var inner := Inside(body, tenant, s);
    assert begin.Fine? ==> Inside(block, tenant, s) == NestedEnd(inner, end, s);
    nested := Inside(block, tenant, s).1;
    flat := Inside(Flat(body), tenant, s).1;
    assert Inside(Ignore(block), tenant, s) == (Done, nested);
    assert Inside(Ignore(Flat(body)), tenant, s) == (Done, flat);
  }

  /** A transaction of a first part that succeeds is its second part, from there. */
  lemma ThenIsNext(
      first: Program, rest: Program, tenant: Uuid, start: Session, next: Session, commit: Fault, s: Session)
    requires ValidUuid(tenant) && start == Session(s.table, Healthy) && Inside(first, tenant, start) == (Done, next)
    ensures Meaning(Within(tenant, Fine, Fine, Then(first, rest), commit), None, s)
         == TransactionEnd(Inside(rest, tenant, next), commit, s)
  {
    assert Inside(Then(first, rest), tenant, start) == Inside(rest, tenant, next);
  }

  lemma NoTraceNoDifference(
      body: Program, rest: Program, tenant: Uuid, begin: Fault, setup: Fault, end: Fault, commit: Fault, s: Session)
    requires ValidUuid(tenant) && Clean(body, tenant) && !LeavesTrace(body, tenant, s.table, begin, end)
    ensures SameEitherWay(body, rest, tenant, begin, setup, end, commit, s)
  {
    var start := Session(s.table, Healthy);
    var nested, flat := BlockEnds(body, tenant, begin, setup, end, start);
    ThenIsNext(Ignore(Within(tenant, begin, setup, body, end)), rest, tenant, start, nested, commit, s);
    ThenIsNext(Ignore(Flat(body)), rest, tenant, start, flat, commit, s);
    if !flat.health.Healthy? { BrokenAlike(rest, tenant, nested, flat); }
  }

  lemma TraceShows(body: Program, tenant: Uuid, begin: Fault, setup: Fault, end: Fault, s: Session)
    requires ValidUuid(tenant) && Clean(body, tenant) && LeavesTrace(body, tenant, s.table, begin, end)
    ensures !SameEitherWay(body, Skip, tenant, begin, setup, end, Fine, s)
  {
    var start := Session(s.table, Healthy);
    var nested, flat := BlockEnds(body, tenant, begin, setup, end, start);
    ThenIsNext(Ignore(Within(tenant, begin, setup, body, end)), Skip, tenant, start, nested, Fine, s);
    ThenIsNext(Ignore(Flat(body)), Skip, tenant, start, flat, Fine, s);
  }

  /** The smallest such trace: an operation writes, fails, and has its error swallowed; nested, its write is gone, and
      flat it stays. */
  lemma NestingMattersWhenErrorsAreSwallowed(tenant: Uuid, key: string, value: string, e: Error, s: Session)
    requires ValidUuid(tenant) && s.health.Healthy? && (tenant, key) !in s.table
    ensures var p := Ignore(Within(tenant, Fine, Fine, Then(Put(tenant, key, value, Fine), Raise(e)), Fine));
            && Inside(p, tenant, s) == (Done, s)
            && Inside(Flat(p), tenant, s) == (Done, s.(table := s.table[(tenant, key) := value]))
            && Inside(Flat(p), tenant, s) != Inside(p, tenant, s)
  {
    var put := Put(tenant, key, value, Fine);
    var next := s.(table := s.table[(tenant, key) := value]);
    var fails := Then(put, Raise(e));
    assert Inside(put, tenant, s) == (Done, next);
    assert Inside(Raise(e), tenant, next) == (Failed(e), next);
    assert Inside(fails, tenant, s) == (Failed(e), next);
    NestedFailureIsContained(tenant, Fine, fails, Fine, s);
    assert Flat(Raise(e)) == Raise(e) && Flat(put) == put;
    assert Flat(fails) == fails;
    assert Inside(Ignore(fails), tenant, s) == (Done, next);
    assert (tenant, key) in next.table;
  }

  // ---------------------------------------------------------------- the connection

  /** A database connection. `frames` holds the rows as they were at BEGIN and at each open savepoint. */
  class Connection {
    var committed: Table
    var working: Table
    var frames: seq<Table>
    var health: Health

    ghost function Now(): Session
      reads this
    {
      if frames == [] then Session(committed, Healthy) else Session(working, health)
    }

    ghost predicate Valid()
      reads this
    {
      frames != [] ==> frames[0] == committed
    }

    constructor (rows: Table)
      ensures Valid() && frames == [] && Now() == Session(rows, Healthy)
    {
      committed, working, frames, health := rows, rows, [], Healthy;
    }

    method Begin(fault: Fault) returns (ok: bool)
      requires Valid() && frames == []
      modifies this
      ensures Valid() && ok == fault.Fine? && committed == old(committed)
      ensures frames == if ok then [committed] else []
      ensures ok ==> Now() == Session(committed, Healthy)
    {
      if !fault.Fine? { return false; }
      working, frames, health := committed, [committed], Healthy;
      ok := true;
    }

    /** Any statement: inside a failed transaction it is refused. */
    method Exec(row: Option<((Uuid, string), string)>, fault: Fault) returns (ok: bool)
      requires Valid() && frames != []
      modifies this`working, this`health
      ensures Valid() && ok == (old(health).Healthy? && fault.Fine?) && health == After(old(health), fault)
      ensures working == if ok && row.Some? then old(working)[row.value.0 := row.value.1] else old(working)
    {
      ok := health.Healthy? && fault.Fine?;
      health := After(health, fault);
      if ok && row.Some? { working := working[row.value.0 := row.value.1]; }
    }

    method Savepoint(fault: Fault) returns (ok: bool)
      requires Valid() && frames != []
      modifies this`frames, this`health
      ensures Valid() && ok == (old(health).Healthy? && fault.Fine?) && health == After(old(health), fault)
      ensures frames == if ok then old(frames) + [working] else old(frames)
    {
      ok := health.Healthy? && fault.Fine?;
      health := After(health, fault);
      if ok { frames := frames + [working]; }
    }

    /** Keeps the savepoint's writes. The savepoint is gone either way: a failed release leaves the
        transaction failed. */
    method Release(fault: Fault) returns (ok: bool)
      requires Valid() && |frames| > 1
      modifies this`frames, this`health
      ensures Valid() && ok == (old(health).Healthy? && fault.Fine?) && health == After(old(health), fault)
      ensures frames == old(frames)[..|old(frames)| - 1]
    {
      ok := health.Healthy? && fault.Fine?;
      health := After(health, fault);
      frames := frames[..|frames| - 1];
    }

    /** Takes back everything since the savepoint, a failed statement included; on a lost connection, or if it is lost
        now, nothing is taken back. */
    method RollbackTo(fault: Fault)
      requires Valid() && |frames| > 1
      modifies this`frames, this`working, this`health
      ensures Valid() && frames == old(frames)[..|old(frames)| - 1]
      ensures var ok := !old(health).Lost? && fault.Fine?;
              && working == (if ok then old(frames)[|old(frames)| - 1] else old(working))
              && health == (if ok then Healthy else After(old(health), fault))
    {
      if !health.Lost? && fault.Fine? {
        working, health := frames[|frames| - 1], Healthy;
      } else {
        health := After(health, fault);
      }
      frames := frames[..|frames| - 1];
    }

    /** A failed transaction cannot be committed: it is rolled back instead. */
    method Commit(fault: Fault) returns (ok: bool)
      requires Valid() && |frames| == 1
      modifies this
      ensures Valid() && frames == [] && ok == (old(health).Healthy? && fault.Fine?)
      ensures committed == if old(health).Healthy? && (fault.Fine? || fault.DroppedAfter?)
                           then old(working)
                           else old(committed)
    {
      ok := health.Healthy? && fault.Fine?;
      if health.Healthy? && (fault.Fine? || fault.DroppedAfter?) { committed := working; }
      frames := [];
    }

    method Rollback()
      requires Valid() && |frames| == 1
      modifies this`frames
      ensures Valid() && frames == []
    {
      frames := [];
    }
  }

  // ---------------------------------------------------------------- the manager

  /** The context carries a tenant exactly when the connection is inside a transaction. */
  ghost predicate Fits(connection: Connection, context: Option<Uuid>)
    reads connection
  {
    connection.Valid() && (context.Some? <==> connection.frames != [])
  }

  /** An operation run against the connection does what it means, and leaves the savepoint stack and everything
      other sessions see as a program of its meaning would. */
  method Operate(connection: Connection, context: Option<Uuid>, p: Program) returns (r: Status)
    requires Fits(connection, context)
    modifies connection
    ensures Fits(connection, context) && connection.frames == old(connection.frames)
    ensures (r, connection.Now()) == Meaning(p, context, old(connection.Now()))
    ensures context.Some? ==> connection.committed == old(connection.committed)
    decreases p, 2
  {
    match p
    case Skip => r := Done;
    case Put(tenant, key, value, fault) => r := Write(connection, context, tenant, key, value, fault);
    case Raise(error) => r := Failed(error);
    case Then(first, second) =>
      r := Operate(connection, context, first);
      if r.Done? { r := Operate(connection, context, second); }
    case Ignore(body) =>
      var ignored := Operate(connection, context, body);
      r := Done;
    case Within(tenant, begin, setup, body, commit) =>
      r := WithinTransaction(connection, context, tenant, begin, setup, body, commit);
  }

  /** A repository write through CurrentTransaction. */
  method Write(
      connection: Connection, context: Option<Uuid>, tenant: Uuid, key: string, value: string, fault: Fault)
    returns (r: Status)
    requires Fits(connection, context)
    modifies connection
    ensures Fits(connection, context) && connection.frames == old(connection.frames)
    ensures (r, connection.Now()) == Meaning(Put(tenant, key, value, fault), context, old(connection.Now()))
    ensures connection.committed == old(connection.committed)
    ensures context.None? ==>
              && connection.Now() == old(connection.Now())
              && r == Failed(Error(
                   Invalid, if ValidUuid(tenant) then "transaction.required" else "transaction.invalid_request"))
  {
    if !ValidUuid(tenant) { return Failed(INVALID_REQUEST); }
    if context.None? { return Failed(REQUIRED); }
    if context.value != tenant { return Failed(TENANT_MISMATCH); }
    var ok := connection.Exec(Some(((tenant, key), value)), fault);
    r := if ok then Done else Failed(TRANSACTION_UNAVAILABLE);
  }

  method WithinTransaction(
      connection: Connection, context: Option<Uuid>, tenant: Uuid, begin: Fault, setup: Fault, body: Program,
      commit: Fault)
    returns (r: Status)
    requires Fits(connection, context)
    modifies connection
    ensures Fits(connection, context) && connection.frames == old(connection.frames)
    ensures (r, connection.Now()) == Meaning(Within(tenant, begin, setup, body, commit), context, old(connection.Now()))
    ensures context.Some? ==> connection.committed == old(connection.committed)
    decreases body, 4
  {
    if !ValidUuid(tenant) { return Failed(INVALID_REQUEST); }
    if context.Some? {
      if context.value != tenant { return Failed(TENANT_MISMATCH); }
      r := WithinNested(connection, tenant, begin, body, commit);
      return;
    }
    var ok := connection.Begin(begin);
    if !ok { return Failed(TRANSACTION_UNAVAILABLE); }
    ok := connection.Exec(None, setup);
    if !ok {
      connection.Rollback();
      return Failed(TRANSACTION_UNAVAILABLE);
    }
    r := Operate(connection, Some(tenant), body);
    if r.Failed? {
      connection.Rollback();
      return;
    }
    ok := connection.Commit(commit);
    r := if ok then Done else Failed(TRANSACTION_UNAVAILABLE);
  }

  method WithinNested(
      connection: Connection, tenant: Uuid, begin: Fault, body: Program, commit: Fault)
    returns (r: Status)
    requires Fits(connection, Some(tenant)) && ValidUuid(tenant)
    modifies connection
    ensures Fits(connection, Some(tenant)) && connection.frames == old(connection.frames)
    ensures (r, connection.Now())
        == Meaning(Within(tenant, begin, Fine, body, commit), Some(tenant), old(connection.Now()))
    ensures connection.committed == old(connection.committed)
    decreases body, 3
  {
    var ok := connection.Savepoint(begin);
    if !ok { return Failed(TRANSACTION_UNAVAILABLE); }
    r := Operate(connection, Some(tenant), body);
    if r.Failed? {
      connection.RollbackTo(commit);
      return;
    }
    ok := connection.Release(commit);
    r := if ok then Done else Failed(TRANSACTION_UNAVAILABLE);
  }
}
