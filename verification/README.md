# ThinkPixelMP: a verified model of its transactional core

ThinkPixelMP is a tenant-scoped control plane over PostgreSQL. This project models the protocols on which its
guarantees rest and proves those guarantees for all inputs and all runs. Tables are maps and sequences, each repository
call is a step with the guard its SQL states, triggers and row checks included, and each transaction commits all of its
writes or none. `dafny verify dfyconfig.toml` checks everything.

| files | what they model |
|---|---|
| `Outbox`, `OutboxRuns`, `OutboxRepository`, `OutboxReadability` | delivery of outbox messages: sequence allocation, leased claims with fencing tokens, retry, deliver, dead-letter, the sweep of exhausted claims; which messages can be read back at all |
| `Idempotency`, `DelegationEvents`, `Publication`, `PublicationInvariant`, `PublicationRuns`, `PublicationLaws`, `DelegationService`, `DelegationCalls` | the delegation services: idempotency key, guarded domain change, audit fact and event in one transaction, any number of transactions interleaved and failing while publishers and namespaces change |
| `Transactions` | the transaction manager: nested transactions as savepoints, tenant match, failed statements and lost connections |
| `PublisherStates`, `Publishers`, `PublisherRuns`, `PublisherRepository` | publisher state under optimistic concurrency, and the shared locks of those who rely on it |
| `Namespaces`, `NamespaceOwnership`, `NamespaceGuards`, `NamespaceRepository`, `Like` | namespace ownership and delegation, the guards on inserts, LIKE matching and escaping |
| `Cursors`, `CursorLaws`, `Pagination`, `PaginationWalk`, `UuidText`, `Uuids` | keyset pagination with signed cursors over UUIDv7 identifiers |
| `Migrations`, `MigrationRuns` | the migration ledger and its runs |
| `JsonTokens`, `Sanitize`, `LogAttributes`, `Utf8` | duplicate-key detection over a token stream, and the bounded log sanitizer |
| `ArtifactReferences`, `Splitting`, `Tallies`, `Shared` | artifact references; texts split and read back; shared types |

Where the code makes several calls in order, the class of that name makes the same calls in the same order: between any
two of them a method `Others` lets other callers take any steps they can, and each call may fail. A parameter `calm` rules
that out, and with nothing else open the contract then says exactly what the call does, the error it gives included. What
such a class promises is tied to a run of the step machine by its `Reachable` predicate, and the theorems about runs then
hold of it.

The main results:

- Outbox: attempts count claims, a superseded claim token completes nothing, a message ends at most once, and the rows that
  can never move again are known exactly (`OutboxRuns.AttemptsCountClaims`, `OutboxRuns.SupersededTokenIsFenced`,
  `OutboxRuns.EndsAtMostOnce`, `OutboxRuns.ExactlyStuckRowsCannotMove`); which committed messages can ever be delivered
  (`OutboxReadability.CommittedMessageIsReadableExactly`, `OutboxRuns.UnreadableBlocksLater`).
- Delegation services, over every interleaving: live prefixes stay unique and nested, a creation's guards still hold when it
  commits, sequences follow commits without gaps, one key gets one answer, messages, audit facts, records and changes
  correspond one to one, and the order of locks rules out deadlock (`PublicationRuns.LivePrefixesAreUnique`,
  `PublicationRuns.CreationStandsAtCommit`, `PublicationRuns.SequencesFollowCommits`, `PublicationRuns.SameKeySameAnswer`,
  `PublicationRuns.Conservation`, `PublicationRuns.NoDeadlock`); the service answers accordingly
  (`DelegationService.Service.Call`, `DelegationService.RetriesAgree`); over every run a new call is served exactly when the
  tables allow it and writes exactly what it asks (`DelegationCalls.NewCreationIsServedExactly`,
  `DelegationCalls.NewRevocationIsServedExactly`), a committed one is repeated (`DelegationCalls.CommittedCallIsRepeated`),
  and payloads tell what happened (`DelegationCalls.EveryPayloadTells`); and whatever it may answer undisturbed some run
  answers (`OutboxReadability.ServedIsReached`).
- Transactions: running on a stack of savepoints computes the meaning of every program (`Transactions.Operate`);
  transactions in a row leave the writes of those before the first failure (`Transactions.OneAfterTheOther`); a static
  condition under which the savepoints never show, and exactly when one block whose error is swallowed does
  (`Transactions.NestingIsTransparent`, `Transactions.SwallowedBlockIsTransparentExactly`).
- Publishers: one winner for each version, and a shared publisher stays verified (`PublisherRuns.OneWinnerPerVersion`,
  `PublisherRuns.SharedStaysVerified`).
- Ownership: the longest-prefix query walks up the parents, and a revocation hands exactly its own paths to the next claim
  (`NamespaceOwnership.LongestIsNearest`, `NamespaceOwnership.RevocationEffect`); LIKE with escaping searches literally
  (`Like.EscapedSearchIsLiteral`).
- Pagination: following cursors shows nothing twice and misses nothing, and gets to the end exactly if every request is
  answered and comes in time for its cursor (`PaginationWalk.FollowAll`), over identifiers whose
  text, byte and time orders agree (`UuidText.TextOrderIsByteOrder`, `UuidText.EarlierIsSmaller`).
- Migrations: over runs of any programs each is executed once, in order (`MigrationRuns.EachOnceInOrder`).
- JSON and logs: the duplicate-key scan accepts exactly the token forms of trees (`JsonTokens.AcceptsExactlyTrees`), and no
  log line depends on what lies behind a sensitive key, while everything else shows at its place
  (`Sanitize.SecretsNeverShow`, `Sanitize.LooksAsItShould`).

What the proofs brought to light, each stated exactly in the model:

- A completion checks the claim token and not the lease, so a worker whose lease has run out can still complete its
  message until another claim supersedes it (`OutboxRuns.CompletionUsesLatestClaim`).
- The system clock reads nanoseconds, and so does an event's payload; the row's creation time keeps microseconds, and every
  read of the row compares the two. A message can therefore be read back exactly if its request came at a whole
  microsecond (`OutboxReadability.CommittedMessageIsReadableExactly`, `DelegationEvents.BuiltEventReadsBack`); one
  nanosecond more is enough to lose it (`OutboxReadability.OneNanosecondIsEnough`). Its call commits, its row stays
  `pending` for good, and every claim that chooses it fails as a whole, with its sweep
  (`OutboxReadability.NeverDelivered`, `OutboxReadability.UnreadableRefusesClaim`, `OutboxRepository.Repository.Claim`); so
  once no due message has a lower sequence, no claim that finds it unlocked succeeds (`OutboxRuns.UnreadableBlocksLater`).
- For the same reason the answer of a creation shows a creation time that no retry of it repeats, unless it was a whole
  microsecond (`DelegationService.RetriesAgree`).
- `Retry` does not look at the attempt count. The live messages that no claim can ever move are exactly the `retry` rows
  with 1000 attempts and the unreadable `pending` rows (`OutboxRuns.ExactlyStuckRowsCannotMove`,
  `OutboxRuns.StuckForever`), and both are reached (`OutboxRuns.ExhaustedRetryIsReached`,
  `OutboxReadability.OneNanosecondIsEnough`).
- Of two revocations of one delegation at once, the one that waits for the other is told that there is no such delegation,
  and one that comes later that its version is stale (`DelegationService.Service.Call`, by `Overtaken`).
- A lease under one microsecond is accepted as an argument and then fails if there is anything to claim
  (`Outbox.TakeRowOk`).
- The service accepts artifact pages of 200 rows, asks the repository for 201, and is refused; the largest page that works
  is 199. Publishers and namespaces allow the extra row (`Pagination.Service.List`, `Pagination.ServableSizes`).
- A cursor is made against its exact expiry and read against the whole second, so one that expires within the current
  second is refused from the start (`Cursors.ShortLivedCursorIsRefused`).
- Nested transactions do not show where an operation swallows no error and their savepoints are made and ended without a
  fault, whether the operation succeeds or fails (`Transactions.NestingIsTransparent`). For one block of that kind whose
  error is then swallowed, with any fault at its own savepoint, the exact condition is
  `Transactions.LeavesTrace` (`Transactions.SwallowedBlockIsTransparentExactly`).
- A namespace path may have segments longer than an artifact reference can name
  (`ArtifactReferences.LongSegmentsAreNotReferable`).
- After the insert of a publisher state record the compare-and-swap that follows always finds its version; the
  stale-version branch is never taken (`PublisherRuns.InsertDecides`). Likewise the `idempotency.in_progress` and
  not-found branches of a replay (`PublicationRuns.ReplayNeverFails`).

## Model

| member | source | states |
|---|---|---|
| `Outbox.SweepRowOk` | internal/adapters/postgres/outbox/repository.go:122-126 | every row the sweep dead-letters passes the update trigger, the row CHECK and the domain check |
| `Outbox.TakeRowOk` | internal/adapters/postgres/outbox/repository.go:139-144 | the claim update passes the trigger always, the CHECK exactly when the lease is at least a microsecond, and the check of the returned row exactly when the row is readable as well |
| `Outbox.FinishRowOk` | internal/adapters/postgres/outbox/repository.go:167-210 | whatever the trigger lets a retry, delivery or dead-lettering do leaves a row that the CHECK and the domain accept, read back included |
| `Outbox.StepKeepsInv` | internal/domain/outbox/outbox_message.go:99-147 | every committed statement keeps every stored row acceptable to Restore but for the comparison of its payload's time, that comparison too once it has left pending, sequences distinct, and the allocator ahead of all of them |
| `Outbox.ReadableExactly` | internal/domain/outbox/outbox_message.go:149-157 | a stored row passes the comparison of its payload's time exactly when that time is a whole microsecond |
| `OutboxRepository.Repository.NextSequence` | internal/adapters/postgres/outbox/repository.go:51-64 | allocates the next sequence from 1, refused at the largest; a failure changes nothing |
| `OutboxRepository.Repository.Record` | internal/adapters/postgres/outbox/repository.go:70-84 | appends exactly a pending message with the sequence just allocated and fresh id, as the trigger demands, its creation time kept to the microsecond |
| `OutboxRepository.Repository.Claim` | internal/adapters/postgres/outbox/repository.go:108-165 | a sweep, then a claim of the lowest-sequence due unlocked rows up to the limit, returned ascending, exactly when the lease is a microsecond or more and every chosen row is readable, or there is none; otherwise no change. Row by row: every message returned was due and unlocked, pending or waiting for a retry with its time come, or claimed with its lease run out, and has attempts left; every such message is returned unless as many as asked for, all of lower sequence, are; exhausted ones are dead-lettered and the rest untouched. Exact errors, that of an outage by the place where it comes; the reply to the commit may be lost |
| `OutboxRepository.Repository.RetryLater` | internal/adapters/postgres/outbox/repository.go:167-175 | releases a held message for later, field by field, or changes nothing, with the exact error, that of an outage by the place where it comes; the reply to the commit may be lost |
| `OutboxRepository.Repository.Deliver` | internal/adapters/postgres/outbox/repository.go:177-184 | ends a held message as delivered, kept for thirty days, field by field, or changes nothing, with the exact error, that of an outage by the place where it comes; the reply to the commit may be lost |
| `OutboxRepository.Repository.DeadLetterMessage` | internal/adapters/postgres/outbox/repository.go:186-195 | ends a held message as dead-lettered, kept for ninety days, field by field, or changes nothing, with the exact error, that of an outage by the place where it comes; the reply to the commit may be lost |
| `OutboxRepository.Repository.Complete` | internal/adapters/postgres/outbox/repository.go:197-221 | a completion takes effect exactly for the message claimed with this token when the trigger allows it, whatever the lease; otherwise the exact error, that of an outage by the place where it comes; the reply to the commit may be lost |
| `OutboxRepository.SelectionExists` | internal/adapters/postgres/outbox/repository.go:130-138 | the candidate query always has an answer |
| `OutboxRepository.SelectionUnique` | internal/adapters/postgres/outbox/repository.go:130-138 | and only one: ordered, limited and skipping locked rows |
| `OutboxRepository.SortBySequence` | internal/adapters/postgres/outbox/repository.go:149-160 | the returned messages are those read, ascending by sequence |
| `OutboxRuns.RunKeepsInv` | internal/domain/outbox/outbox_message.go:319-350 | over every run of all workers every stored row satisfies the delivery invariant, and is readable once it has left pending |
| `OutboxRuns.AttemptsCountClaims` | internal/adapters/postgres/outbox/repository.go:139-144 | a message's attempt count is the number of claims that took it, at most 1000 |
| `OutboxRuns.MessagesAreStable` | migrations/000013_outbox_messages.sql:91-123 | a stored message keeps id, sequence, event and creation time, and once ended never changes |
| `OutboxRuns.CompletionUsesLatestClaim` | internal/adapters/postgres/outbox/repository.go:208-210 | a completion carries the token of the latest claim, not yet completed |
| `OutboxRuns.SupersededTokenIsFenced` | internal/adapters/postgres/outbox/repository.go:208-210 | with fresh tokens, a token superseded by a later claim completes nothing |
| `OutboxRuns.OneCompletionPerClaim` | internal/adapters/postgres/outbox/repository.go:197-221 | no claim is completed twice |
| `OutboxRuns.EndsAtMostOnce` | internal/adapters/postgres/outbox/repository.go:177-195 | of all deliveries, dead-letterings and sweeps of a message at most one succeeds, and nothing claims it afterwards |
| `OutboxRuns.ClaimTimesIncrease` | internal/adapters/postgres/outbox/repository.go:133-141 | the claims of one message have strictly increasing times |
| `OutboxRuns.LeasesAreDisjoint` | internal/adapters/postgres/outbox/repository.go:133-141 | the leases of successive claims between which nothing released the message do not overlap |
| `OutboxRuns.UpdatesAreBounded` | internal/adapters/postgres/outbox/repository.go:122-144 | a message is updated at most 2000 times in any run |
| `OutboxRuns.ExactlyStuckRowsCannotMove` | internal/adapters/postgres/outbox/repository.go:122-165 | the live messages no sweep or claim at any time can move are exactly the retry rows with 1000 attempts and the pending rows whose payload's time is not a whole microsecond |
| `OutboxRuns.StuckForever` | internal/adapters/postgres/outbox/repository.go:167-175 | such a message stays as it is for the rest of every run, and nothing claims or completes it |
| `OutboxRuns.ExhaustedRetryIsReached` | internal/adapters/postgres/outbox/repository.go:139-175 | some run, its claim tokens all different, brings any readable first message to a retry row with 1000 attempts |
| `OutboxRuns.UnreadableBlocksLater` | internal/adapters/postgres/outbox/repository.go:130-157 | for the rest of every run a claim that finds an unreadable message due and unlocked takes its full limit of messages, all of lower sequence |
| `OutboxReadability.CommittedMessageIsReadableExactly` | internal/domain/outbox/outbox_message.go:149-157 | over every run of the delegation services, the row of a committed message can be read back exactly when its request came at a whole microsecond |
| `OutboxReadability.OneNanosecondIsEnough` | internal/ports/clock/doc.go:13 | a run commits a creation one nanosecond past a whole microsecond and its message is unreadable; at the whole microsecond it is readable |
| `OutboxReadability.CreationCommitsAtAnyTime` | internal/app/publication/delegation.go:67-121 | for every time of the years 0 to 9999 some run commits a creation at that time |
| `OutboxReadability.NeverDelivered` | internal/adapters/postgres/outbox/repository.go:130-157 | the row of a message from a time between two microseconds stays pending in every run of the workers |
| `OutboxReadability.UnreadableRefusesClaim` | internal/adapters/postgres/outbox/repository.go:150-157 | a claim that would choose an unreadable row cannot be made |
| `Idempotency.Repository.Acquire` | internal/adapters/postgres/idempotency/repository.go:31-60 | inserts the record or returns the holder of the key; another request digest is refused without change; an outage is reported by the place where it comes; the reply to the commit may be lost |
| `Idempotency.Repository.Complete` | internal/adapters/postgres/idempotency/repository.go:81-124 | sets a pending result once; afterwards confirms an equal one and refuses any other; an outage is reported by the place where it comes; the reply to the commit may be lost |
| `Idempotency.CompletionsAgree` | migrations/000012_idempotency_records.sql:37-58 | two successful completions of one key, however far apart, name the same request and outcome, and the second changes nothing |
| `DelegationEvents.ValidateEventData` | internal/domain/outbox/outbox_message.go:173-309 | accepts, for each of the fifteen event types, exactly the data with no unknown, missing or malformed field |
| `DelegationEvents.BuiltEventIsValid` | internal/app/publication/delegation.go:174-206 | every payload the services build passes the envelope and data checks made before its message is recorded |
| `DelegationEvents.BuiltEventReadsBack` | internal/domain/outbox/outbox_message.go:149-157 | checked against its stored row it passes exactly when its time is a whole microsecond |
| `DelegationEvents.BuiltEventTells` | internal/app/publication/delegation.go:174-206 | read back from its texts, the payload tells tenant, namespace, delegation and publisher each under its own name, a cursor whose digits spell the sequence, the states before and after, and the reason; and nothing else |
| `PublicationInvariant.StepKeepsInv` | internal/app/publication/delegation.go:86-206 | every call of every interleaved transaction, savepoint rollbacks and other services' changes included, keeps: sequences 1..n, the event log telling the delegation table, records and events one to one, audit one to one, live claims unique and nested, every open insert still admissible, locks exclusive |
| `PublicationInvariant.CommitKeepsDb` | internal/app/publication/delegation.go:147-171 | a commit of change, audit fact, event and record together keeps the tables consistent, live claims included |
| `PublicationInvariant.CommitKeepsOther` | internal/adapters/postgres/outbox/repository.go:51-64 | a commit leaves what every other open transaction has read and written true |
| `PublicationRuns.SequencesFollowCommits` | internal/adapters/postgres/outbox/repository.go:51-84 | at every moment the committed sequences are exactly 1..n in commit order and the log is only ever appended to, whatever aborts and savepoint rollbacks gave back |
| `PublicationRuns.LivePrefixesAreUnique` | migrations/000014_namespace_delegations.sql:50-148 | over every interleaving of creations, revocations, new namespaces and publisher changes no two live claims share a prefix, and active delegations lie below their root and nest |
| `PublicationRuns.CreationStandsAtCommit` | migrations/000014_namespace_delegations.sql:50-93 | when a creation commits, the guards that let it in would still let it in, its recipient verified; the commit adds exactly the delegation asked for |
| `PublicationRuns.RecordsAndEventsMatch` | internal/app/publication/delegation.go:239-246 | no committed record is pending; each belongs to exactly one committed event, whose delegation exists and is what the recorded request asked for |
| `PublicationRuns.ReplayNeverFails` | internal/app/publication/delegation.go:248-264 | a replay is always possible and reads the named delegation as it stands, so the in-progress, mismatch and not-found branches are unreachable |
| `PublicationRuns.OtherDigestIsRefused` | internal/adapters/postgres/idempotency/repository.go:31-60 | a request under an established key with another digest can only be given up, changing nothing |
| `PublicationRuns.SameKeySameAnswer` | internal/app/publication/delegation.go:86-120 | two committed calls under one key asked for the same and got the same delegation, and the later wrote nothing |
| `PublicationRuns.KeysTellCallsApart` | internal/adapters/postgres/idempotency/repository.go:38-41 | requests have one idempotency record exactly if caller, kind of command and idempotency key are the same |
| `PublicationRuns.FailedCallsLeaveNoTrace` | internal/app/publication/delegation.go:86-120 | taking a call that never commits out of a run leaves a run that commits the same tables |
| `PublicationRuns.NoDeadlock` | migrations/000014_namespace_delegations.sql:55-56 | no chain of transactions that wait for one another comes back to where it began: waiting goes up the order key, namespace lock, prefix lock, row, allocator. Shares of a publisher's row wait only for a publisher's change of state, here one step |
| `PublicationRuns.SomeoneProceeds` | migrations/000014_namespace_delegations.sql:55-56 | of any set of open transactions one waits for none of the set |
| `PublicationRuns.BlockedMeansWaiting` | migrations/000014_namespace_delegations.sql:55-56 | a call waits exactly when some other transaction holds a lock it needs |
| `PublicationRuns.Conservation` | internal/app/publication/delegation.go:67-206 | messages = delegations created + revoked = audit facts = records; each fact matches its message; replaying the events gives the table |
| `PublicationRuns.DelegationHistory` | internal/domain/namespace/namespace.go:101-113 | a delegation's events are its creation and then at most its revocation, and it stands as the last left it |
| `PublicationRuns.EveryEventIsValid` | internal/domain/outbox/outbox_message.go:149-309 | every committed message passes the envelope and data checks made before it was recorded, and those of every later read exactly when its request came at a whole microsecond |
| `PublicationLaws.LawsCanHold` | internal/domain/shared/uuid.go:46-77 | the laws assumed of digests and identifier texts hold of the real text form and of a digest that writes the command out |
| `DelegationService.Service.Create` | internal/app/publication/delegation.go:67-121 | refuses malformed commands and keys before a transaction; otherwise, under interference and failure anywhere, answers as `Answered` says, and undisturbed leaves and answers exactly what `Served` says, with the exact error of each refusal, the insert guards' in their order |
| `DelegationService.CreationIsServedExactly` | migrations/000014_namespace_delegations.sql:50-93 | a creation under a new key with fresh identifiers is served exactly when its prefix lies below an existing root, nobody claims it, it nests with the active delegations, its recipient is verified, and its time lies in the years 0 to 9999, which JSON can express |
| `DelegationService.Service.Revoke` | internal/app/publication/delegation.go:130-172 | likewise for a revocation, expected version and reason included |
| `DelegationService.Service.Do` | internal/adapters/postgres/transaction.go:83-105 | one call is a step of the machine, or fails and changes nothing: with the reason in the tables, or, where an outage comes first or a lock is waited for in vain, with the error of that place |
| `DelegationService.Service.Call` | internal/adapters/postgres/transaction.go:36-63 | an answer is committed, established, what was asked for and as it stands; an established key is answered from its record or refused, writing no message; only a lost commit reply reports a failure that took effect |
| `DelegationService.Service.Statements` | internal/app/publication/delegation.go:93-119 | the calls in order end ready to commit; an established request fails only by an outage; undisturbed they come to what the request is served |
| `DelegationService.RetriesAgree` | internal/app/publication/delegation.go:86-120 | whatever happened in between, a retry of an answered call gets the same delegation or an outage, and another digest is refused; its creation time is the stored one, which the first answer gave exactly if that was a whole microsecond |
| `DelegationCalls.NewCreationIsServedExactly` | internal/app/publication/delegation.go:67-121 | over every run, a creation under a caller, kind and key that no committed call has is served exactly if nothing in the tables stands against it, refused for the first thing that does, with its error; and served it adds exactly its record, row, audit fact and message, field by field |
| `DelegationCalls.NewRevocationIsServedExactly` | internal/app/publication/delegation.go:130-172 | likewise a revocation |
| `DelegationCalls.CommittedCallIsRepeated` | internal/app/publication/delegation.go:248-264 | over every run, a request whose own call was committed gets that call's delegation as it stands and writes nothing, or is refused if its command is another |
| `DelegationCalls.OwnCallDecides` | internal/adapters/postgres/idempotency/repository.go:31-60 | in every reachable state the acquisition is decided by the committed call of the same caller, kind and key alone |
| `DelegationCalls.OnlyItsOwnCallHoldsItUp` | internal/adapters/postgres/idempotency/repository.go:37-47 | and waits exactly for an open transaction of the same caller, kind and key |
| `DelegationCalls.WaitsAfterAcquisition` | migrations/000014_namespace_delegations.sql:55-56 | what the later calls wait for, by how far the others have come: the namespace, then the prefix, then the allocator |
| `DelegationCalls.WriteWaits` | internal/adapters/postgres/namespace/delegation.go:68-104 | a write waits exactly for another that has written the same delegation |
| `DelegationCalls.EveryCommitIsAsAsked` | internal/app/publication/delegation.go:88-172 | over every run, the committed calls differ pairwise in caller, kind or key, and event, audit fact, row and record of each say what its request asked |
| `DelegationCalls.EveryPayloadTells` | internal/app/publication/delegation.go:174-206 | over every run, each committed payload read back tells its request's change: identifiers under their names, place in the order, state before and after, reason |
| `DelegationCalls.RepositoryRevokes` | internal/adapters/postgres/namespace/delegation.go:75-90 | the revocation step decides as the repository's method does |
| `OutboxReadability.ServedIsReached` | internal/app/publication/delegation.go:67-172 | whatever a request is served when nothing disturbs it, some run serves it |
| `Transactions.Operate` | internal/adapters/postgres/transaction.go:36-123 | the savepoint-stack execution of any program of writes, nested transactions, swallowed errors and faults computes its recursive meaning |
| `Transactions.WithinTransaction` | internal/adapters/postgres/transaction.go:36-63 | so does a transaction of its own or, inside one, a nested one |
| `Transactions.WithinNested` | internal/adapters/postgres/transaction.go:65-79 | so does a nested transaction, leaving the savepoint stack as it was |
| `Transactions.Write` | internal/adapters/postgres/transaction.go:111-123 | a write needs a current transaction of its own tenant, and without one is refused as `transaction.required` |
| `Transactions.PoisonPersists` | internal/adapters/postgres/transaction.go:36-79 | after a failed statement nothing later in the transaction writes or heals it |
| `Transactions.SwallowedRefusalNeverCommits` | internal/adapters/postgres/transaction.go:56-61 | a transaction whose operation leaves the connection failed by a refused statement never commits, even if the operation swallowed the error; a savepoint rolled back heals the connection and is the other case |
| `Transactions.NestedFailureIsContained` | internal/adapters/postgres/transaction.go:65-79 | a failing nested transaction whose error is swallowed is as if never started, if the connection lasts and the rollback to its savepoint succeeds; otherwise the connection no longer works |
| `Transactions.TenantsAreIsolated` | internal/adapters/postgres/transaction.go:40-45 | no program inside a tenant's transaction changes another tenant's rows |
| `Transactions.OtherTenantsAreRefused` | internal/adapters/postgres/transaction.go:40-45 | everything for another tenant, at any depth, means its refusal and nothing else |
| `Transactions.NestingIsTransparent` | internal/adapters/postgres/transaction.go:65-79 | a transaction whose operation swallows no error and whose savepoints are its tenant's own and without a fault does and reports, success or failure, what it does without them |
| `Transactions.SwallowedBlockIsTransparentExactly` | internal/adapters/postgres/transaction.go:65-79 | a swallowed block of that kind, with any fault at its own savepoint's beginning and end, is indistinguishable from its flat form, in every continuation, exactly when it leaves no trace: `LeavesTrace` says when, from its writes and faults alone |
| `Transactions.SuccessIgnoresNesting` | internal/adapters/postgres/transaction.go:65-79 | an operation that swallows nothing and succeeds, whatever the faults, does the same without its nested transactions |
| `Transactions.NestingMattersWhenErrorsAreSwallowed` | internal/adapters/postgres/transaction.go:65-79 | the smallest swallowed block that shows |
| `Transactions.OneAfterTheOther` | internal/adapters/postgres/transaction.go:36-63 | transactions in any number one after the other, with nothing around them, leave the writes of all in order, or of those before the first that fails, with its error; a write among them is refused for want of a transaction |
| `Transactions.SwallowedAtTheTop` | internal/adapters/postgres/transaction.go:36-63 | if that error is swallowed, what follows goes on from those writes |
| `Publishers.StepKeepsInv` | internal/adapters/postgres/publisher/repository.go:146-207 | every step of every interleaved ChangeState keeps each history contiguous and on the graph, and every insert at the version after the current |
| `Publishers.InsertIsNext` | migrations/000002_publishers.sql:48-81 | primary key and trigger together let through only the transition from the current version |
| `PublisherRuns.HistoryIsAPath` | migrations/000002_publishers.sql:48-81 | a publisher's records are exactly versions 1..n along the state graph, from claimed, each later one with a reason |
| `PublisherRuns.RevokedIsAbsorbing` | internal/domain/publisher/publisher.go:134-148 | a revoked publisher never changes again |
| `PublisherRuns.CommitStoresTransition` | internal/adapters/postgres/publisher/repository.go:166-187 | a commit stores exactly its own transition from the version it expected |
| `PublisherRuns.CommitStoresWhatWasAsked` | internal/adapters/postgres/publisher/repository.go:170-190 | field by field: the state, reason, explanation and time asked for, as the next and now current version, after one of the seven changes of state; nothing else changes |
| `PublisherRuns.TransitionStoresWhatWasAsked` | internal/domain/publisher/publisher.go:134-149 | a transition is refused outside the seven changes, without reason or time, or for its explanation, and is otherwise exactly what was asked for |
| `PublisherRuns.OneWinnerPerVersion` | internal/adapters/postgres/publisher/repository.go:166-192 | of the writers that expect one version at most one commits |
| `PublisherRuns.StaleWritersLose` | internal/adapters/postgres/publisher/repository.go:166-192 | a writer whose expected version is superseded can only give up |
| `PublisherRuns.InsertDecides` | internal/adapters/postgres/publisher/repository.go:177-187 | after its insert a writer's update finds its version and waits for nobody but those who share the publisher's row; after its update the commit is always possible |
| `PublisherRuns.SharedStaysVerified` | migrations/000003_namespaces.sql:19-41 | a publisher whose row somebody shares stays verified, at its version, until it is released |
| `PublisherRuns.CurrentReaderCanInsert` | internal/adapters/postgres/publisher/repository.go:170-180 | a reader of the current version, none other having inserted, can insert exactly when its transition is allowed |
| `PublisherRepository.Repository.ChangeState` | internal/adapters/postgres/publisher/repository.go:146-207 | success means this call's transition is stored and returned; failure means nothing was written, or only the reply was lost, and has one of the exact reasons, an outage its own where the transaction cannot be opened or the audit fact not be written; the returned version is current and its record has the state, reason, explanation and time asked for; undisturbed, the call succeeds exactly for the seven changes of state with their metadata, or gives the exact error |
| `PublisherRepository.TriggerAgrees` | migrations/000002_publishers.sql:67-78 | the insert trigger refuses nothing the domain transition allows |
| `Like.EscapeIsPerCharacter` | internal/adapters/postgres/artifact/repository.go:163-167 | the three replacements in order equal one escape of each special character |
| `Like.EscapedSearchIsLiteral` | internal/adapters/postgres/artifact/repository.go:131-133 | under full LIKE semantics the escaped search matches exactly the texts that contain the query, for any character fold |
| `Like.SearchFindsSubstrings` | internal/adapters/postgres/artifact/repository.go:131-134 | the listing's condition holds exactly when the query is empty or occurs in path, name or display name |
| `Namespaces.LikeMeansCovers` | internal/adapters/postgres/namespace/delegation.go:134-143 | on valid prefixes the query's LIKE means "is, or lies below" |
| `Namespaces.GrammarIsExactlyLocal` | internal/domain/namespace/namespace.go:22 | the path pattern lets in exactly the texts well formed character by character |
| `NamespaceOwnership.LongestIsNearest` | internal/adapters/postgres/namespace/delegation.go:145-148 | the longest covering claim is the first met walking up from the path |
| `NamespaceOwnership.ClaimsAreUnique` | migrations/README.md:140-142 | no two live claims share a prefix |
| `NamespaceOwnership.RootControlsItsPath` | internal/adapters/postgres/namespace/delegation.go:129-147 | a namespace's own path is controlled by its owner |
| `NamespaceOwnership.NewDelegationKeepsInv` | migrations/000014_namespace_delegations.sql:50-93 | an insert the guards accept keeps claims unique and nested |
| `NamespaceOwnership.NewRootKeepsInv` | migrations/000014_namespace_delegations.sql:133-148 | so does a new namespace |
| `NamespaceOwnership.RevocationKeepsInv` | internal/adapters/postgres/namespace/delegation.go:91-104 | so does a revocation |
| `NamespaceOwnership.RemovalMovesOnlyItsPaths` | internal/adapters/postgres/namespace/delegation.go:129-147 | removing a claim moves exactly the paths it controlled, to the controller of its prefix's parent |
| `NamespaceOwnership.RevocationRemovesClaim` | internal/adapters/postgres/namespace/delegation.go:91-104 | a revocation removes exactly the delegation's claim |
| `NamespaceOwnership.RevocationNeverOrphans` | internal/adapters/postgres/namespace/delegation.go:129-147 | a path a revoked delegation controlled always has another controller |
| `NamespaceOwnership.RevocationEffect` | internal/adapters/postgres/namespace/delegation.go:68-147 | a revocation changes the controller only of paths at or below its prefix that nothing nearer covers |
| `NamespaceOwnership.CreationEffect` | internal/adapters/postgres/namespace/delegation.go:15-44 | a creation takes over exactly the paths at or below its prefix that nothing nearer claims, for its publisher |
| `NamespaceOwnership.OwnerIsNearest` | internal/adapters/postgres/namespace/delegation.go:129-148 | the owner found walking up is the one whose row gives it the longest prefix at or above the path |
| `NamespaceRepository.Repository.CreateNamespace` | internal/adapters/postgres/namespace/repository.go:33-62 | takes effect exactly for an unclaimed path and a verified owner, and otherwise changes nothing, with the exact error, that of an outage by the place where it comes; the reply to the commit may be lost |
| `NamespaceRepository.Repository.CreateDelegation` | internal/adapters/postgres/namespace/delegation.go:15-44 | takes effect exactly for a strict child that collides with and straddles no live claim, and a verified recipient; otherwise no change and the exact error, that of an outage by the place where it comes; the reply to the commit may be lost |
| `NamespaceRepository.Repository.Revoke` | internal/adapters/postgres/namespace/delegation.go:68-120 | takes effect exactly for an active delegation at the expected version; otherwise no change and the exact error, that of an outage by the place where it comes; the reply to the commit may be lost |
| `NamespaceRepository.Repository.ResolveOwner` | internal/adapters/postgres/namespace/delegation.go:122-163 | the LIKE and maximum-length query returns the publisher whose row gives it the longest prefix at or above the path, if verified, and otherwise gives the exact error, that of an outage by the place where it comes |
| `NamespaceRepository.Repository.AuthorizePublication` | internal/app/publication/delegation.go:210-225 | authorizes exactly the verified controller of the nearest claim, and otherwise gives the exact error, that of an outage by the place where it comes |
| `NamespaceGuards.GuardMeansNested` | migrations/000014_namespace_delegations.sql:60-77 | the trigger's LIKE conditions mean strict nesting |
| `NamespaceGuards.RefusalIsExact` | migrations/000014_namespace_delegations.sql:50-93 | trigger and indexes refuse a delegation exactly when it does not fit the claims or its recipient is not verified |
| `NamespaceGuards.RootRefusalIsExact` | migrations/000014_namespace_delegations.sql:133-148 | and a namespace exactly when its path is claimed, its identifier taken or its owner not verified |
| `NamespaceGuards.RootRefusalSays` | migrations/000014_namespace_delegations.sql:133-148 | with these errors, in this order |
| `NamespaceRepository.Repository.SetPublisher` | internal/adapters/postgres/publisher/repository.go:146-207 | a publisher's change of state keeps claims unique and nested |
| `UuidText.New` | internal/domain/shared/uuid.go:29-45 | a generated identifier is valid, encodes its millisecond big-endian and keeps the random bits |
| `UuidText.EarlierIsSmaller` | internal/domain/shared/uuid.go:29-45 | an identifier of a smaller millisecond is smaller in byte order and in text order |
| `UuidText.BytesOrderIsNumberOrder` | internal/adapters/postgres/publisher/repository.go:117-123 | the database's byte order of identifiers is the order of the numbers they spell |
| `UuidText.TextOrderIsByteOrder` | internal/domain/shared/uuid.go:65-77 | text order and byte order agree on all identifiers |
| `UuidText.ParseInvertsText` | internal/domain/shared/uuid.go:46-64 | parsing gives back exactly the valid identifiers from their texts |
| `UuidText.AcceptedTexts` | internal/domain/shared/uuid.go:46-64 | the accepted texts are exactly the canonical ones, one for each valid identifier |
| `UuidText.AcceptedForm` | internal/domain/shared/uuid.go:46-77 | character by character: lower-case digits grouped 8-4-4-4-12, the version digit a 7 and the variant digit 8, 9, a or b |
| `UuidText.String` | internal/domain/shared/uuid.go:65-77 | the buffer written part by part is the canonical text |
| `UuidText.ParseUuid` | internal/domain/shared/uuid.go:46-64 | accepts exactly the canonical texts and returns their identifiers |
| `Cursors.DecodeInvertsEncode` | internal/domain/shared/cursor.go:65-120 | an encoded cursor decodes exactly in its own scope and before its whole-second expiry, to its position and that second |
| `Cursors.ShortLivedCursorIsRefused` | internal/domain/shared/cursor.go:69-113 | exactly when a fresh cursor is already refused |
| `Cursors.AcceptedIsSigned` | internal/domain/shared/cursor.go:83-116 | every accepted text carries the signature of its own payload, made for this scope and unexpired |
| `CursorLaws.LawsCanHold` | internal/domain/shared/cursor.go:65-120 | the laws assumed of a codec's library parts can hold together |
| `CursorLaws.CursorsCanFit` | internal/domain/shared/cursor.go:65-82 | and with them every cursor of a listing can keep within its 4096 bytes, for every scope, position and time of the years 0 to 9999 |
| `CursorLaws.EveryPositionGetsACursor` | internal/app/publication/publisher.go:205-214 | so there is a service in which every position gets a cursor at every such time, which is what a walk asks for |
| `Splitting.SplitInvertsJoin` | internal/domain/shared/cursor.go:90-93 | parts without the separator come back from their joined text |
| `Splitting.JoinInvertsSplit` | internal/domain/shared/artifact_reference.go:18-27 | joining the parts of a text gives it back |
| `Pagination.Table.List` | internal/adapters/postgres/publisher/repository.go:102-144 | the first rows after the position, in identifier order, up to the limit; limits outside the repository's are refused |
| `Pagination.Service.List` | internal/app/publication/publisher.go:181-216 | exactly when a page is given; its rows; a next cursor exactly when rows remain; a page size at or above the repository's limit always refused |
| `Pagination.CursorResumes` | internal/app/publication/publisher.go:189-215 | a next cursor presented in time resumes right after its page, and later is refused |
| `Pagination.CursorBelongsToItsListing` | internal/app/publication/publisher.go:188-200 | a cursor is good exactly for the tenant, endpoint, query and page size it was made for, and within its fifteen minutes |
| `Pagination.BeyondIsRest` | internal/adapters/postgres/publisher/repository.go:117-123 | the rows after a position are the tail of those that spell a greater number |
| `PaginationWalk.FollowAll` | internal/app/publication/publisher.go:181-216 | following the cursors: nothing twice, nothing missed that was there, with rows arriving; each request but the last was answered and came before the whole second its cursor expires, and the walk gets to the end exactly if the last did too, its size being served and its positions getting cursors; over a quiet table the whole list in max(1, ceil(N / size)) pages, exactly if each of so many requests was met |
| `Migrations.Load` | internal/adapters/postgres/migration/migration.go:27-51 | accepts exactly the consecutively numbered, well-named, non-empty files, whose names are then distinct |
| `Migrations.WellShippedExactly` | internal/adapters/postgres/migration/migration.go:25-40 | a file is accepted exactly if its name is six digits that spell its number, an underscore, a name and .sql, and it is not empty |
| `Migrations.Check` | internal/adapters/postgres/migration/migration.go:110-125 | the one-pass scan accepts exactly the ledgers of the first k steps; drift exactly when the shipped part is no such beginning |
| `MigrationRuns.Connection.Run` | internal/adapters/postgres/migration/migration.go:57-144 | a run executes and records exactly what is pending, or changes nothing, unless only the commit's reply was lost; undisturbed it succeeds exactly on a ledger of the first shipped steps |
| `MigrationRuns.Connection.RunFiles` | internal/adapters/postgres/migration/migration.go:57-61 | a run from files refuses ill-shipped ones before anything else, and is otherwise the run of their steps |
| `MigrationRuns.ApplyPending` | internal/adapters/postgres/migration/migration.go:126-139 | the pending steps in order, each recorded under a free name |
| `MigrationRuns.EachOnceInOrder` | internal/adapters/postgres/migration/migration.go:57-144 | over any serialised runs of programs old and new, failing or not, the executed migrations are a growing beginning of the list |
| `MigrationRuns.SecondRunAppliesNothing` | internal/adapters/postgres/migration/migration.go:126-139 | after a successful application a run shipping no more applies nothing |
| `MigrationRuns.RefusedExactlyWhenBehind` | internal/adapters/postgres/migration/migration.go:110-125 | history refuses a run exactly when it ships less than is applied |
| `JsonTokens.HasDuplicateKeyOrTrailingContent` | internal/domain/artifactdescriptor/artifact_descriptor.go:127-135 | false exactly for the token form of one tree with distinct keys in every object (section 4 of RFC 8259), ending cleanly |
| `JsonTokens.DuplicateJsonValue` | internal/domain/artifactdescriptor/artifact_descriptor.go:137-176 | terminates on every stream and consumes exactly one value if it accepts |
| `JsonTokens.AcceptsExactlyTrees` | internal/domain/artifactdescriptor/artifact_descriptor.go:137-176 | the accepted streams are exactly the token forms of such trees |
| `JsonTokens.TreeIsUnique` | internal/domain/artifactdescriptor/artifact_descriptor.go:137-176 | different trees have different token forms |
| `JsonTokens.DistinctEverywhere` | internal/domain/artifactdescriptor/artifact_descriptor.go:147-162 | such a tree is one in which no object at any place has two members of one key |
| `JsonTokens.ObjectsAreValuesExactly` | internal/domain/artifactdescriptor/artifact_descriptor.go:147-164 | accepted values under keys make an accepted object exactly if the keys differ pairwise |
| `JsonTokens.ArraysAreValues` | internal/domain/artifactdescriptor/artifact_descriptor.go:165-172 | accepted values make an accepted array |
| `Utf8.BoundedString` | internal/telemetry/logging/sanitize.go:192-201 | the loop finds the last character boundary that leaves room for the marker |
| `Utf8.BoundedIsSafe` | internal/telemetry/logging/sanitize.go:192-201 | at most 4096 bytes; valid UTF-8 (section 3 of RFC 3629) stays valid; at most three bytes more than necessary are lost |
| `Sanitize.SanitizeReflect` | internal/telemetry/logging/sanitize.go:84-189 | terminates on every graph, computes the sanitized form, and restores the visited pointers |
| `Sanitize.SanitizedIsSmall` | internal/telemetry/logging/sanitize.go:9-13 | at most nine levels of collections from the top, 65 entries each, strings of at most 4096 bytes |
| `Sanitize.SecretsNeverShow` | internal/telemetry/logging/sanitize.go:122-170 | what is logged does not depend on anything behind a sensitive or reserved key, or in a skipped field |
| `Sanitize.LooksAsItShould` | internal/telemetry/logging/sanitize.go:84-189 | what is logged shows every value at its place: texts, scalars, the first 64 entries and items, redaction, truncation and cycle marks exactly where they are due |
| `Sanitize.LooksOneWay` | internal/telemetry/logging/sanitize.go:84-189 | and nothing else looks so |
| `LogAttributes.SanitizeAttrs` | internal/telemetry/logging/sanitize.go:23-35 | computes the sanitized attributes, groups included |
| `LogAttributes.AttributesAreSmall` | internal/telemetry/logging/sanitize.go:23-61 | at most 65 attributes a group, bounded nesting, small values |
| `LogAttributes.AttributeSecretsNeverShow` | internal/telemetry/logging/sanitize.go:37-61 | nor do attributes depend on anything behind a sensitive key, in any group |
| `LogAttributes.AttributesLookAsTheyShould` | internal/telemetry/logging/sanitize.go:23-61 | logged attributes show the first 64 that have a key and none reserved, in order, each as its value looks |
| `LogAttributes.AttributesLookOneWay` | internal/telemetry/logging/sanitize.go:23-61 | and nothing else looks so |
| `ArtifactReferences.ParseInvertsString` | internal/domain/shared/artifact_reference.go:14-55 | a written reference parses back to itself exactly when it is valid |
| `ArtifactReferences.StringInvertsParse` | internal/domain/shared/artifact_reference.go:14-55 | an accepted text is that of the valid reference it parses to, so there is one text for each |
| `ArtifactReferences.LongSegmentsAreNotReferable` | internal/domain/shared/artifact_reference.go:33-47 | a valid namespace path that no artifact reference can name |

## Left out

- Times are UTC, in nanoseconds where the program holds them and in microseconds where the database does; that a stored time is cut and not rounded is the driver's doing, whose source is not part of this model. The clock does not show the first microsecond of year 1, which is Go's zero time. PostgreSQL's own bounds on times, 4713 BC and AD 294276, are not modelled: a call outside them fails at its first insert.
- Text is a sequence of byte-sized characters. Whether it is valid UTF-8 is modelled only for the log sanitizer; control characters are those below 0x20 and 0x7f to 0x9f. Go's JSON encoding replaces bytes that are not valid UTF-8, so what `Cursors.Laws` says of marshalling and `Publication.Laws` of digests holds for scopes and commands in valid UTF-8 only; those of a listing and those decoded from a JSON request always are.
- One tenant's rows at a time, except in `Transactions`. Row-level security, roles and grants are not modelled.
- The triggers of migrations 000002, 000003, 000012, 000013 and 000014 are modelled as guards. The deferred constraints of 000011 that demand an audit event are not; `PublicationRuns.Conservation` proves what they check for the delegation services.
- In `Publication` a new namespace and a publisher's change of state are single steps; what happens inside them is in `NamespaceRepository` and `Publishers`. Advisory locks are keyed by namespace and prefix themselves, so that a collision of their 64-bit hashes is not modelled. `Outbox` commits the sweep and the claim of one `Claim` call as two steps, which allows more interleavings than the code does.
- Creation of publishers, namespaces and artifacts and registration of artifact versions follow the same idempotent protocol without an event; only the delegation services are modelled.
- The checks `Restore` makes on an event's source and subject text, which no later step changes.
- `PaginationWalk.FollowAll`: reads the clock once for a request; the code reads it once to check the cursor and twice more to make the next one.
- Read-only lookups by identifier, slug or path, and the audit listing.
- SHA-256, HMAC, base64url and JSON encoding are functions with the laws that `Cursors.Laws` and `Publication.Laws` state: they are inverse where they should be, and digests do not collide. That a signature cannot be forged is not stated.
- The JSON lexer: `JsonTokens` starts from tokens, and takes any stream of them, not only those the decoder can produce. The copies of the detector in artifact dependencies and requirements are the same algorithm.
- The sanitizer's lists of reserved and sensitive keys are parameters. Reflection is a graph of shapes; map entries come in any order.
- The connection of `Transactions` and the behaviour of its savepoints after a failed statement follow PostgreSQL and the pgx driver, whose source is not part of this model.
- A wait for a lock that another transaction holds either ends with the lock free or fails as an outage. A creation whose insert waits for its recipient's change of state is refused as unverified whatever the state becomes; publisher changes are single steps here, so no insert waits for one.
- `Cursors.AcceptedIsSigned`: does not say that a cursor is the only text for its payload, because base64url decoding ignores unused trailing bits.
- HTTP, CLI, configuration, authentication, role checks, metrics, tracing, retention deletion and eventual delivery.
