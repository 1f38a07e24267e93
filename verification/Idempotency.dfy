/** Idempotency records: one owner per (principal, action, key), one request
    digest, and one result, set once. */
module Idempotency {
  import opened Shared
  import opened Uuids

  const MINIMUM_RETENTION := DAY

  datatype Key = Key(principal: string, action: string, key: string)

  /** The established response; the resource's type and identifier come together or not at all. */
  datatype Outcome = Outcome(status: int, resource: Option<(string, string)>)

  /** A record is pending while it has no result. */
  datatype Record = Record(id: Uuid, digest: string, result: Option<Outcome>,
                           createdAt: Instant, completedAt: Option<Instant>, expiresAt: Instant)

  predicate ValidOwnership(key: Key) {
    BoundedText(key.principal, 255) && key.action != "" && BoundedText(key.key, 255)
  }

  predicate ValidOutcome(o: Outcome) {
    100 <= o.status <= 599
        && (o.resource.Some? ==> ReasonCode(o.resource.value.0) && BoundedText(o.resource.value.1, 512))
  }

  /** restore's check of a record read back. */
  predicate ValidRecord(key: Key, r: Record) {
    && ValidUuid(r.id) && ValidOwnership(key) && r.digest != "" && r.createdAt != ZERO_TIME
    && r.expiresAt >= r.createdAt + MINIMUM_RETENTION
    && (if r.result.None? then r.completedAt.None?
        else ValidOutcome(r.result.value) && r.completedAt.Some? && r.completedAt.value >= r.createdAt)
  }

  /** A new record as it is stored. */
  function NewRecord(id: Uuid, digest: string, now: Nanos): Record {
    Record(id, digest, None, StoredTime(now), None, StoredTime(now) + MINIMUM_RETENTION)
  }

  const UNAVAILABLE := Error(Unavailable, "idempotency.persistence_unavailable")
  const MISMATCH := Error(Conflict, "idempotency.request_mismatch")
  const RESULT_MISMATCH := Error(Conflict, "idempotency.result_mismatch")

  /** Another record has the identifier, which is the primary key. */
  predicate IdTaken(records: map<Key, Record>, id: Uuid) {
    exists k :: k in records && records[k].id == id
  }

  /** The record that holds the key after an insert that does nothing on a conflict of keys, or a refusal. */
  function Acquired(records: map<Key, Record>, key: Key, offered: Record): Result<(Record, bool)> {
    var stored := if key in records then records[key] else offered;
    if key !in records && IdTaken(records, offered.id) then Err(UNAVAILABLE)
    else if stored.digest != offered.digest then Err(MISMATCH) else Ok((stored, key !in records))
  }

  /** The record after a completion: set once, and afterwards only confirmed. */
  function Completed(
      records: map<Key, Record>, key: Key, digest: string, outcome: Outcome, at: Instant): Result<Record>
  {
    if key !in records then Err(Error(NotFound, "idempotency.not_found"))
    else if records[key].digest != digest then Err(MISMATCH)
    else if records[key].result.None? then
      if at < records[key].createdAt then Err(UNAVAILABLE)
      else Ok(records[key].(result := Some(outcome), completedAt := Some(at)))
    else if records[key].result.value != outcome then Err(RESULT_MISMATCH)
    else Ok(records[key])
  }

  /** The order of record tables: keys are kept with their request, and results are kept for good. */
  predicate Grows(a: map<Key, Record>, b: map<Key, Record>) {
    forall k | k in a ::
      && k in b && b[k].id == a[k].id && b[k].digest == a[k].digest && b[k].createdAt == a[k].createdAt
      && (a[k].result.Some? ==> b[k] == a[k])
  }

  /** Whatever happens between them, two completions of one key that both succeed name the same
      request and the same outcome, and the second changes nothing. */
  lemma CompletionsAgree(first: map<Key, Record>, later: map<Key, Record>, key: Key,
                         digest: string, outcome: Outcome, at: Instant,
                         digest': string, outcome': Outcome, at': Instant)
    requires Completed(first, key, digest, outcome, at).Ok?
    requires Grows(first[key := Completed(first, key, digest, outcome, at).value], later)
    requires Completed(later, key, digest', outcome', at').Ok?
    ensures digest' == digest && outcome' == outcome && Completed(later, key, digest', outcome', at') == Ok(later[key])
  {
    var done := first[key := Completed(first, key, digest, outcome, at).value];
    assert key in done && done[key].result == Some(outcome);
  }

  /** Every record reads back, and no two have one identifier. */
  ghost predicate Sound(records: map<Key, Record>) {
    && (forall k | k in records :: ValidRecord(k, records[k]))
    && (forall k, l | k in records && l in records && k != l :: records[k].id != records[l].id)
  }

  lemma NewRecordIsSound(records: map<Key, Record>, key: Key, value: Record)
    requires Sound(records) && ValidRecord(key, value) && key !in records && !IdTaken(records, value.id)
    ensures Sound(records[key := value])
  {
    hide ValidRecord;
  }

  lemma CompletedRecordIsSound(records: map<Key, Record>, key: Key, outcome: Outcome, at: Instant)
    requires Sound(records) && key in records && ValidOutcome(outcome) && at >= records[key].createdAt
    ensures Sound(records[key := records[key].(result := Some(outcome), completedAt := Some(at))])
  {
    hide ValidUuid, ValidOutcome, ValidOwnership;
    assert ValidRecord(key, records[key].(result := Some(outcome), completedAt := Some(at)));
    hide ValidRecord;
  }

  class Repository {
    const tenant: Uuid
    var records: map<Key, Record>

    ghost predicate Valid()
      reads this
    {
      Sound(records)
    }

    constructor (tenant: Uuid)
      ensures this.tenant == tenant && records == map[] && Valid()
    {
      this.tenant := tenant;
      records := map[];
    }

    /** Claims the key, or returns the record that holds it; a request with another digest changes nothing. */
    method Acquire(key: Key, value: Record, outage: Outage) returns (r: Result<(Record, bool)>)
      requires !outage.Auditing? && Valid() && ValidRecord(key, value) && value.result.None?
      modifies this
      ensures Valid() && Grows(old(records), records)
      ensures var decided := Acquired(old(records), key, value);
              && r == (if !ValidUuid(tenant) then Err(Error(Invalid, "idempotency.invalid_tenant"))
                       else Carried(outage, UNAVAILABLE, decided))
              && records == (if ValidUuid(tenant) && Commits(outage) && decided.Ok?
                             then old(records)[key := decided.value.0] else old(records))
      ensures r.Ok? ==>
                if key in old(records)
                then r.value == (old(records)[key], false) && old(records)[key].digest == value.digest
                     && records == old(records)
                else r.value == (value, true) && records == old(records)[key := value]
      ensures ValidUuid(tenant) && outage.Nowhere? && key in old(records) ==>
                (r.Err? <==> old(records)[key].digest != value.digest)
                && (r.Err? ==> r.error == Error(Conflict, "idempotency.request_mismatch"))
    {
      hide ValidRecord, ValidUuid, Sound;
      if key !in records && !IdTaken(records, value.id) { NewRecordIsSound(records, key, value); }
      hide IdTaken;
      if !ValidUuid(tenant) { return Err(Error(Invalid, "idempotency.invalid_tenant")); }
      if outage.Opening? { return Err(TRANSACTION_UNAVAILABLE); }
      if outage.Deciding? { return Err(UNAVAILABLE); }
      var created := key !in records;
      if created && IdTaken(records, value.id) { return Err(UNAVAILABLE); }
      var working := if created then records[key := value] else records;
      var stored := working[key];
      if stored.digest != value.digest { return Err(MISMATCH); }
      if outage.Finishing? { return Err(UNAVAILABLE); }
      records := working;
      r := if outage.Nowhere? then Ok((stored, created)) else Err(UNAVAILABLE);
      assert created || records == old(records)[key := stored];
    }

    /** Establishes the result of a pending record, or confirms an equal one. */
    method Complete(key: Key, digest: string, outcome: Outcome, at: Nanos, outage: Outage)
        returns (r: Result<Record>)
      requires !outage.Auditing? && Valid() && ValidOutcome(outcome)
      modifies this
      ensures Valid() && Grows(old(records), records)
      ensures var decided := Completed(old(records), key, digest, outcome, StoredTime(at));
              var valid := ValidOwnership(key) && digest != "" && at != ZERO_NANOS;
              && r == (if !valid then Err(Error(Invalid, "idempotency.invalid_completion"))
                       else if !ValidUuid(tenant) then Err(Error(Invalid, "idempotency.invalid_tenant"))
                       else Carried(outage, UNAVAILABLE, decided))
              && records == (if valid && ValidUuid(tenant) && Commits(outage) && decided.Ok?
                             then old(records)[key := decided.value] else old(records))
      ensures r.Ok? ==>
                && key in old(records) && old(records)[key].digest == digest
                && (if old(records)[key].result.None?
                    then
                      && r.value
                           == old(records)[key].(result := Some(outcome), completedAt := Some(StoredTime(at)))
                      && records == old(records)[key := r.value]
                    else
                      && r.value == old(records)[key] && r.value.result == Some(outcome) && records == old(records))
    {
      hide ValidOwnership, ValidOutcome, ValidUuid, IdTaken, Sound;
      if key in records && StoredTime(at) >= records[key].createdAt {
        CompletedRecordIsSound(records, key, outcome, StoredTime(at));
      }
      if !ValidOwnership(key) || digest == "" || at == ZERO_NANOS {
        return Err(Error(Invalid, "idempotency.invalid_completion"));
      }
      if !ValidUuid(tenant) { return Err(Error(Invalid, "idempotency.invalid_tenant")); }
      if outage.Opening? { return Err(TRANSACTION_UNAVAILABLE); }
      if outage.Deciding? { return Err(UNAVAILABLE); }
      if key in records && records[key].digest == digest && records[key].result.None? {
        var value := records[key].(result := Some(outcome), completedAt := Some(StoredTime(at)));
        if StoredTime(at) < value.createdAt { return Err(UNAVAILABLE); }
        if outage.Finishing? { return Err(UNAVAILABLE); }
        records := records[key := value];
        return if outage.Nowhere? then Ok(value) else Err(UNAVAILABLE);
      }
      if key !in records { return Err(Error(NotFound, "idempotency.not_found")); }
      var value := records[key];
      if value.digest != digest { return Err(MISMATCH); }
      if value.result.value != outcome { return Err(RESULT_MISMATCH); }
      r := if outage.Nowhere? then Ok(value) else Err(UNAVAILABLE);
      assert records == records[key := value];
    }
  }
}
