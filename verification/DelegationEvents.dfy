/** The events the delegation services record, and the checks every recorded
    event's payload must pass. A payload is taken as its decoded JSON. */
module DelegationEvents {
  import opened Shared
  import opened Uuids
  import opened UuidText
  import opened Namespaces

  const DATA_CONTENT_TYPE := "application/vnd.thinkpixel.marketplace-event.v1+json"

  /** The event types of the specification table, io.thinkpixel.mp.namespace.delegated.v1 and so on, and any other. */
  datatype EventType =
    | DelegatedV1 | DelegationRevokedV1
    | ArtifactRegisteredV1 | ArtifactDeprecatedV1 | ArtifactQuarantinedV1 | QuarantineReleasedV1 | ArtifactRevokedV1
    | EvidenceAcceptedV1 | PolicyActivatedV1 | PromotionDecidedV1 | CatalogEntryChangedV1 | ResolutionCreatedV1
    | ImportCompletedV1 | ImportFailedV1 | ImportConflictedV1
    | OtherType(name: string)

  /** The data fields the table names, and any other name. */
  datatype Field =
    | TenantId | TransactionCursor | NamespaceId | DelegationId | PublisherId
    | PreviousState | CurrentState | ReasonCodeField
    | ArtifactVersionId | ArtifactDigest | DescriptorDigest
    | EvidenceRecordId | Category | Conclusion | ReportDigest
    | CatalogId | CatalogEntryId | PolicyDigest | ActivationDigest
    | PromotionRequestId | PromotionDecisionId | Decision
    | ResolutionId | ResolutionDigest | RootDigest | LockDigest
    | ImportSourceId | ImportRunId | ImportOutcome
    | OtherField(name: string)

  /** Decoded event data. A value that is not a JSON string is None. */
  type Data = map<Field, Option<string>>

  datatype Envelope = Envelope(
    specVersion: string, id: string, source: string, eventType: EventType, subject: string, time: Nanos,
    dataContentType: string, sequence: int, data: Data)

  datatype DataSpec = DataSpec(
    required: seq<Field>, optional: seq<Field>, uuids: seq<Field>, digests: seq<Field>, reasons: seq<Field>,
    enums: map<Field, seq<string>>)

  /** eventDataSpecs. */
  function SpecOf(eventType: EventType): Option<DataSpec> {
    match eventType
    case DelegatedV1 => Some(DataSpec(
      [TenantId, TransactionCursor, NamespaceId, DelegationId, PublisherId, CurrentState], [],
      [TenantId, NamespaceId, DelegationId, PublisherId], [], [],
      map[CurrentState := ["active"]]))
    case DelegationRevokedV1 => Some(DataSpec(
      [TenantId, TransactionCursor, NamespaceId, DelegationId, PublisherId, PreviousState, CurrentState,
          ReasonCodeField],
      [], [TenantId, NamespaceId, DelegationId, PublisherId], [], [ReasonCodeField],
      map[PreviousState := ["active"], CurrentState := ["revoked"]]))
    case ArtifactRegisteredV1 => Some(DataSpec(
      [TenantId, TransactionCursor, ArtifactVersionId, ArtifactDigest, DescriptorDigest], [],
      [TenantId, ArtifactVersionId], [ArtifactDigest, DescriptorDigest], [], map[]))
    case ArtifactDeprecatedV1 => Some(LifecycleSpec("deprecated"))
    case ArtifactQuarantinedV1 => Some(LifecycleSpec("quarantined"))
    case QuarantineReleasedV1 => Some(LifecycleSpec("active"))
    case ArtifactRevokedV1 => Some(LifecycleSpec("revoked"))
    case EvidenceAcceptedV1 => Some(DataSpec(
      [TenantId, TransactionCursor, EvidenceRecordId, ArtifactDigest, Category, Conclusion, ReportDigest], [],
      [TenantId, EvidenceRecordId], [ArtifactDigest, ReportDigest], [Category],
      map[Conclusion := ["pass", "fail", "warning", "unknown", "not-applicable"]]))
    case PolicyActivatedV1 => Some(DataSpec(
      [TenantId, TransactionCursor, CatalogId, PolicyDigest, ActivationDigest], [],
      [TenantId, CatalogId], [PolicyDigest, ActivationDigest], [], map[]))
    case PromotionDecidedV1 => Some(DataSpec(
      [TenantId, TransactionCursor, PromotionRequestId, PromotionDecisionId, ArtifactDigest, CatalogId, Decision], [],
      [TenantId, PromotionRequestId, PromotionDecisionId, CatalogId], [ArtifactDigest], [],
      map[Decision := ["approved", "denied", "expired", "cancelled"]]))
    case CatalogEntryChangedV1 => Some(DataSpec(
      [TenantId, TransactionCursor, CatalogId, CatalogEntryId, ArtifactDigest, PreviousState, CurrentState], [],
      [TenantId, CatalogId, CatalogEntryId], [ArtifactDigest], [],
      map[PreviousState := ["absent", "active", "removed"], CurrentState := ["active", "removed"]]))
    case ResolutionCreatedV1 => Some(DataSpec(
      [TenantId, TransactionCursor, ResolutionId, ResolutionDigest, RootDigest, LockDigest], [],
      [TenantId, ResolutionId], [ResolutionDigest, RootDigest, LockDigest], [], map[]))
    case ImportCompletedV1 => Some(ImportSpec("completed"))
    case ImportFailedV1 => Some(ImportSpec("failed"))
    case ImportConflictedV1 => Some(ImportSpec("conflicted"))
    case OtherType(_) => None
  }

  /** artifactLifecycleSpec. */
  function LifecycleSpec(current: string): DataSpec {
    DataSpec(
      [TenantId, TransactionCursor, ArtifactVersionId, ArtifactDigest, PreviousState, CurrentState, ReasonCodeField],
          [],
      [TenantId, ArtifactVersionId], [ArtifactDigest], [ReasonCodeField],
      map[PreviousState := ["active", "deprecated", "quarantined"], CurrentState := [current]])
  }

  /** importFinishedSpec. */
  function ImportSpec(outcome: string): DataSpec {
    DataSpec(
      [TenantId, TransactionCursor, ImportSourceId, ImportRunId, ImportOutcome], [ReasonCodeField],
      [TenantId, ImportSourceId, ImportRunId], [], [ReasonCodeField], map[ImportOutcome := [outcome]])
  }

  predicate DigestText(value: string) {
    && |value| == 71 && value[..7] == "sha256:"
    && forall i | 7 <= i < 71 :: '0' <= value[i] <= '9' || 'a' <= value[i] <= 'f'
  }

  predicate StringAt(data: Data, key: Field) {
    key in data && data[key].Some?
  }

  predicate UuidField(data: Data, key: Field, accepts: string -> bool) {
    key in data ==> data[key].Some? && accepts(data[key].value)
  }

  predicate DigestField(data: Data, key: Field) {
    StringAt(data, key) && DigestText(data[key].value)
  }

  predicate ReasonField(data: Data, key: Field) {
    key in data ==> data[key].Some? && ReasonCode(data[key].value)
  }

  predicate EnumField(data: Data, key: Field, values: seq<string>) {
    StringAt(data, key) && data[key].value in values
  }

  /** ParseUUID succeeds. */
  predicate Parses(text: string) {
    Parse(text).Some?
  }

  /** The fields fit the specification: none unknown, none missing, each well formed. `accepts` says which
      texts are identifiers; the services use Parses. */
  predicate DataFits(spec: DataSpec, data: Data, accepts: string -> bool) {
    && (forall key | key in data :: key in spec.required || key in spec.optional)
    && (forall key | key in spec.required :: key in data)
    && (forall key | key in spec.uuids :: UuidField(data, key, accepts))
    && (forall key | key in spec.digests :: DigestField(data, key))
    && (forall key | key in spec.reasons :: ReasonField(data, key))
    && (forall key | key in spec.enums :: EnumField(data, key, spec.enums[key]))
  }

  /** validateEventData: accepts exactly the data that fits its type's specification. */
  method ValidateEventData(eventType: EventType, data: Data) returns (valid: bool)
    ensures valid <==> SpecOf(eventType).Some? && DataFits(SpecOf(eventType).value, data, Parses)
  {
    hide SpecOf, UuidField, DigestField, ReasonField, EnumField;
    var spec := SpecOf(eventType);
    if spec.None? { return false; }
    valid := CheckKeys(spec.value, data);
    if valid { valid := CheckUuids(spec.value.uuids, data); }
    if valid { valid := CheckDigests(spec.value.digests, data); }
    if valid { valid := CheckReasons(spec.value.reasons, data); }
    if valid { valid := CheckEnums(spec.value.enums, data); }
  }

  method CheckKeys(spec: DataSpec, data: Data) returns (valid: bool)
    ensures valid <==>
              && (forall key | key in data :: key in spec.required || key in spec.optional)
              && (forall key | key in spec.required :: key in data)
  {
    var keys := spec.required + spec.optional;
    var allowed: set<Field> := {};
    for i := 0 to |keys|
      invariant forall key :: key in allowed <==> key in keys[..i]
    {
      allowed := allowed + {keys[i]};
    }
    assert keys[..|keys|] == keys;
    if exists key :: key in data && key !in allowed { return false; }
    for i := 0 to |spec.required|
      invariant forall k | 0 <= k < i :: spec.required[k] in data
    {
      if spec.required[i] !in data { return false; }
    }
    valid := true;
  }

  method CheckUuids(keys: seq<Field>, data: Data) returns (valid: bool)
    ensures valid <==> forall key | key in keys :: UuidField(data, key, Parses)
  {
    for i := 0 to |keys|
      invariant forall k | 0 <= k < i :: UuidField(data, keys[k], Parses)
    {
      assert keys[i] in keys;
      if keys[i] in data {
        if data[keys[i]].None? { return false; }
        var parsed := ParseUuid(data[keys[i]].value);
        if parsed.Err? { return false; }
      }
    }
    valid := true;
  }

  method CheckDigests(keys: seq<Field>, data: Data) returns (valid: bool)
    ensures valid <==> forall key | key in keys :: DigestField(data, key)
  {
    for i := 0 to |keys|
      invariant forall k | 0 <= k < i :: DigestField(data, keys[k])
    {
      assert keys[i] in keys;
      if !StringAt(data, keys[i]) || !DigestText(data[keys[i]].value) { return false; }
    }
    valid := true;
  }

  method CheckReasons(keys: seq<Field>, data: Data) returns (valid: bool)
    ensures valid <==> forall key | key in keys :: ReasonField(data, key)
  {
    for i := 0 to |keys|
      invariant forall k | 0 <= k < i :: ReasonField(data, keys[k])
    {
      assert keys[i] in keys;
      if keys[i] in data {
        if data[keys[i]].None? || !ReasonCode(data[keys[i]].value) { return false; }
      }
    }
    valid := true;
  }

  method CheckEnums(enums: map<Field, seq<string>>, data: Data) returns (valid: bool)
    ensures valid <==> forall key | key in enums :: EnumField(data, key, enums[key])
  {
    var remaining := enums.Keys;
    while remaining != {}
      invariant remaining <= enums.Keys
      invariant forall key | key in enums && key !in remaining :: EnumField(data, key, enums[key])
    {
      var key :| key in remaining;
      if !StringAt(data, key) { return false; }
      var found := false;
      for i := 0 to |enums[key]|
        invariant found <==> data[key].value in enums[key][..i]
      {
        found := found || data[key].value == enums[key][i];
      }
      assert enums[key][..|enums[key]|] == enums[key];
      if !found { return false; }
      remaining := remaining - {key};
    }
    valid := true;
  }

  /** validateEnvelope, against the message's metadata as it is in memory; tenant and id are their texts. */
  predicate ValidEnvelope(e: Envelope, tenant: string, id: string, sequence: int, source: string,
                          eventType: EventType, subject: string, createdAt: Nanos, accepts: string -> bool)
  {
    && e.specVersion == "1.0" && e.id == id && e.source == source && e.eventType == eventType && e.subject == subject
    && e.dataContentType == DATA_CONTENT_TYPE && e.sequence == sequence && e.time == createdAt
    && StringAt(e.data, TenantId) && e.data[TenantId].value == tenant
    && StringAt(e.data, TransactionCursor) && 1 <= |e.data[TransactionCursor].value| <= 1024
    && SpecOf(eventType).Some? && DataFits(SpecOf(eventType).value, e.data, accepts)
  }

  // ---------------------------------------------------------------- building

  /** strconv.FormatUint(n, 10). */
  function Decimal(n: nat): (text: string)
    ensures text != ""
  {
    if n < 10 then [DIGITS[n]] else Decimal(n / 10) + [DIGITS[n % 10]]
  }

  /** A number's decimal form: digits, and no zero before others. */
  predicate IsDecimal(text: string) {
    && text != "" && (|text| > 1 ==> text[0] != '0')
    && forall i | 0 <= i < |text| :: '0' <= text[i] <= '9'
  }

  /** The number that digits spell. */
  function ValueOf(digits: string): int {
    if digits == "" then 0
    else 10 * ValueOf(digits[..|digits| - 1]) + (digits[|digits| - 1] as int - '0' as int)
  }

  lemma {:induction false} DecimalReadsBack(n: nat)
    ensures IsDecimal(Decimal(n)) && ValueOf(Decimal(n)) == n && (n > 0 ==> Decimal(n)[0] != '0')
  {
    DigitSpells(n % 10);
    if n >= 10 {
      DecimalReadsBack(n / 10);
      assert Decimal(n)[..|Decimal(n)| - 1] == Decimal(n / 10);
    } else {
      assert Decimal(n)[..0] == "";
    }
  }

  lemma DigitSpells(d: nat)
    requires d < 10
    ensures '0' <= DIGITS[d] <= '9' && DIGITS[d] as int - '0' as int == d && (d > 0 ==> DIGITS[d] != '0')
  {
  }

  function Power10(n: nat): nat {
    if n == 0 then 1 else 10 * Power10(n - 1)
  }

  lemma {:induction false} DecimalLength(n: nat, digits: nat)
    requires n < Power10(digits) && digits >= 1
    ensures |Decimal(n)| <= digits
  {
    if n >= 10 {
      assert digits >= 2 by { assert Power10(1) == 10; }
      DecimalLength(n / 10, digits - 1);
    }
  }

  lemma CursorLength(sequence: nat)
    requires sequence < 0x8000_0000_0000_0000
    ensures 1 <= |Decimal(sequence)| <= 19
  {
    assert Power10(5) == 100_000;
    assert Power10(10) == 10_000_000_000;
    assert Power10(15) == 1_000_000_000_000_000;
    assert Power10(19) == 10_000_000_000_000_000_000;
    DecimalLength(sequence, 19);
  }

  datatype Change = Delegated | DelegationRevoked(reason: string)

  function TypeOf(change: Change): EventType {
    if change.Delegated? then DelegatedV1 else DelegationRevokedV1
  }

  /** The payload recordEvent builds. */
  function BuildEvent(
      tenant: Uuid, eventId: Uuid, sequence: nat, source: string, d: Delegation, change: Change, now: Nanos): Envelope
  {
    Envelope("1.0", Text(eventId), source, TypeOf(change), Text(d.id), now, DATA_CONTENT_TYPE, sequence,
             DataOf(Text(tenant), Decimal(sequence), Text(d.namespaceId), Text(d.id), Text(d.publisherId), change))
  }

  function DataOf(
      tenant: string, cursor: string, namespaceId: string, id: string, publisher: string, change: Change): Data
  {
    var data: Data := map[
      TenantId := Some(tenant), TransactionCursor := Some(cursor), NamespaceId := Some(namespaceId),
      DelegationId := Some(id), PublisherId := Some(publisher),
      CurrentState := Some(if change.Delegated? then "active" else "revoked")];
    if change.Delegated? then data
    else data[PreviousState := Some("active")][ReasonCodeField := Some(change.reason)]
  }

  /** Every payload the services build passes the envelope and data checks for the message it goes into. */
  lemma BuiltEventIsValid(
      tenant: Uuid, eventId: Uuid, sequence: nat, source: string, d: Delegation, change: Change, now: Nanos)
    requires ValidUuid(tenant) && ValidUuid(eventId) && ValidDelegation(d) && sequence < 0x8000_0000_0000_0000
    requires change.DelegationRevoked? ==> ReasonCode(change.reason)
    ensures ValidEnvelope(BuildEvent(tenant, eventId, sequence, source, d, change, now),
                          Text(tenant), Text(eventId), sequence, source, TypeOf(change), Text(d.id), now, Parses)
  {
    forall id: Uuid | ValidUuid(id) ensures Parses(Text(id)) { ParseInvertsText(id); }
    CursorLength(sequence);
    BuiltFromTexts(Text(tenant), Text(eventId), sequence, source, Text(d.namespaceId), Text(d.id), Text(d.publisherId),
        change, now, Parses);
  }

  /** What such a payload tells a consumer, read back from its texts: whose event it is, where it stands in the order,
      which delegation of which namespace to which publisher, from which state to which, and why. There is nothing
      else in its data. */
  ghost predicate Tells(
      e: Envelope, tenant: Uuid, eventId: Uuid, sequence: nat, d: Delegation, before: Option<DelegationState>,
      reason: Option<string>, at: Nanos)
  {
    && Parse(e.id) == Some(eventId) && Parse(e.subject) == Some(d.id) && e.sequence == sequence && e.time == at
    && e.eventType == (if before.None? then DelegatedV1 else DelegationRevokedV1)
    && Identifies(e.data, TenantId, tenant) && Identifies(e.data, NamespaceId, d.namespaceId)
    && Identifies(e.data, DelegationId, d.id) && Identifies(e.data, PublisherId, d.publisherId)
    && StringAt(e.data, TransactionCursor) && IsDecimal(e.data[TransactionCursor].value)
    && ValueOf(e.data[TransactionCursor].value) == sequence
    && StringAt(e.data, CurrentState) && e.data[CurrentState].value == StateText(d.state)
    && (if before.None? then PreviousState !in e.data
        else StringAt(e.data, PreviousState) && e.data[PreviousState].value == StateText(before.value))
    && (if reason.None? then ReasonCodeField !in e.data
        else StringAt(e.data, ReasonCodeField) && e.data[ReasonCodeField].value == reason.value)
    && (forall key | key in e.data ::
          key in [TenantId, TransactionCursor, NamespaceId, DelegationId, PublisherId, PreviousState, CurrentState,
                  ReasonCodeField])
  }

  predicate Identifies(data: Data, key: Field, id: Uuid) {
    StringAt(data, key) && Parse(data[key].value) == Some(id)
  }

  function StateText(state: DelegationState): string {
    if state.Active? then "active" else "revoked"
  }

  lemma BuiltEventTells(
      tenant: Uuid, eventId: Uuid, sequence: nat, source: string, d: Delegation, change: Change, now: Nanos)
    requires ValidUuid(tenant) && ValidUuid(eventId) && ValidDelegation(d)
    requires if change.Delegated? then d.state.Active? else d.state.Revoked?
    ensures Tells(BuildEvent(tenant, eventId, sequence, source, d, change, now), tenant, eventId, sequence, d,
                  if change.Delegated? then None else Some(DelegationState.Active),
                  if change.Delegated? then None else Some(change.reason), now)
  {
    hide Text, Parse, Decimal, ValidUuid, IsDecimal, ValueOf;
    ParseInvertsText(tenant);
    ParseInvertsText(eventId);
    ParseInvertsText(d.id);
    ParseInvertsText(d.namespaceId);
    ParseInvertsText(d.publisherId);
    DecimalReadsBack(sequence);
  }

  /** Read back from its row, such a payload passes the same checks exactly when its time is a whole microsecond: the
      payload keeps the nanoseconds and the row's creation time does not. */
  lemma BuiltEventReadsBack(
      tenant: Uuid, eventId: Uuid, sequence: nat, source: string, d: Delegation, change: Change, now: Nanos)
    requires ValidUuid(tenant) && ValidUuid(eventId) && ValidDelegation(d) && sequence < 0x8000_0000_0000_0000
    requires change.DelegationRevoked? ==> ReasonCode(change.reason)
    ensures ReadsBack(tenant, eventId, sequence, source, d, change, now) <==> now % 1000 == 0
  {
    hide Text, DataFits, SpecOf, DataOf, Decimal, ReasonCode, ValidDelegation;
    BuiltEventIsValid(tenant, eventId, sequence, source, d, change, now);
  }

  /** The stored payload passes validateEnvelope against its row. */
  predicate ReadsBack(
      tenant: Uuid, eventId: Uuid, sequence: nat, source: string, d: Delegation, change: Change, now: Nanos)
  {
    ValidEnvelope(BuildEvent(tenant, eventId, sequence, source, d, change, now), Text(tenant), Text(eventId), sequence,
                  source, TypeOf(change), Text(d.id), ReadBack(StoredTime(now)), Parses)
  }

  lemma BuiltFromTexts(tenant: string, eventId: string, sequence: nat, source: string,
                       namespaceId: string, id: string, publisher: string, change: Change, now: Nanos,
                       accepts: string -> bool)
    requires accepts(tenant) && accepts(namespaceId) && accepts(id) && accepts(publisher)
    requires change.DelegationRevoked? ==> ReasonCode(change.reason)
    requires 1 <= |Decimal(sequence)| <= 1024
    ensures ValidEnvelope(Envelope("1.0", eventId, source, TypeOf(change), id, now, DATA_CONTENT_TYPE, sequence,
                                   DataOf(tenant, Decimal(sequence), namespaceId, id, publisher, change)),
                          tenant, eventId, sequence, source, TypeOf(change), id, now, accepts)
  {
    DataOfFits(tenant, Decimal(sequence), namespaceId, id, publisher, change, accepts);
  }

  lemma DataOfFits(
      tenant: string, cursor: string, namespaceId: string, id: string, publisher: string, change: Change,
      accepts: string -> bool)
    requires accepts(tenant) && accepts(namespaceId) && accepts(id) && accepts(publisher)
    requires change.DelegationRevoked? ==> ReasonCode(change.reason)
    ensures DataFits(SpecOf(TypeOf(change)).value, DataOf(tenant, cursor, namespaceId, id, publisher, change), accepts)
  {
    DataOfKeys(tenant, cursor, namespaceId, id, publisher, change);
    DataOfUuids(tenant, cursor, namespaceId, id, publisher, change, accepts);
    DataOfEnums(tenant, cursor, namespaceId, id, publisher, change);
  }

  lemma DataOfKeys(tenant: string, cursor: string, namespaceId: string, id: string, publisher: string, change: Change)
    ensures var spec, data := SpecOf(TypeOf(change)).value, DataOf(tenant, cursor, namespaceId, id, publisher, change);
            && (forall key | key in data :: key in spec.required)
            && (forall key | key in spec.required :: key in data)
  {
  }

  lemma DataOfUuids(
      tenant: string, cursor: string, namespaceId: string, id: string, publisher: string, change: Change,
      accepts: string -> bool)
    requires accepts(tenant) && accepts(namespaceId) && accepts(id) && accepts(publisher)
    ensures var spec, data := SpecOf(TypeOf(change)).value, DataOf(tenant, cursor, namespaceId, id, publisher, change);
            forall key | key in spec.uuids :: key in data && data[key].Some? && accepts(data[key].value)
  {
  }

  lemma DataOfEnums(tenant: string, cursor: string, namespaceId: string, id: string, publisher: string, change: Change)
    requires change.DelegationRevoked? ==> ReasonCode(change.reason)
    ensures var spec, data := SpecOf(TypeOf(change)).value, DataOf(tenant, cursor, namespaceId, id, publisher, change);
            && (forall key | key in spec.reasons :: ReasonField(data, key))
            && (forall key | key in spec.enums :: EnumField(data, key, spec.enums[key]))
  {
  }
}
