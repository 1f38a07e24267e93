/** What every module shares: optional values, typed errors, time and text. */
module Shared {

  datatype Option<+T> = None | Some(value: T)

  /** The error classes the repositories and services use. */
  datatype ErrorClass = Invalid | Unauthorized | Forbidden | NotFound | Conflict | Unavailable | Internal

  /** A typed error: its class and its stable reason code. */
  datatype Error = Error(kind: ErrorClass, code: string)

  datatype Result<+T> = Ok(value: T) | Err(error: Error)

  /** The outcome of an operation that returns no value. */
  datatype Status = Done | Failed(error: Error)

  /** Where the database fails a repository call, if it does: at opening its transaction or savepoint, at a statement
      before its outcome is decided, at its audit fact, at a statement after that or its commit, or with the reply to a
      commit that has taken effect. */
  datatype Outage = Nowhere | Opening | Deciding | Auditing | Finishing | Replying

  const TRANSACTION_UNAVAILABLE := Error(Unavailable, "transaction.persistence_unavailable")
  const AUDIT_UNAVAILABLE := Error(Unavailable, "audit.persistence_unavailable")

  /** The call's writes are committed, if it has any. */
  predicate Commits(outage: Outage) {
    outage.Nowhere? || outage.Replying?
  }

  /** Why a call fails, whose own refusal and own error of an outage are given. */
  function Hindrance(outage: Outage, own: Error, refusal: Option<Error>): Option<Error> {
    if outage.Opening? then Some(TRANSACTION_UNAVAILABLE)
    else if outage.Deciding? then Some(own)
    else if refusal.Some? || outage.Nowhere? then refusal
    else Some(if outage.Auditing? then AUDIT_UNAVAILABLE else own)
  }

  /** What a call comes to, given what it decides. */
  function Carried<T>(outage: Outage, own: Error, decided: Result<T>): Result<T> {
    var e := Hindrance(outage, own, if decided.Ok? then None else Some(decided.error));
    if e.None? then decided else Err(e.value)
  }

  /** A stored time: microseconds since the Unix epoch, UTC. */
  type Instant = int

  /** A time as the program's clock reads it and its memory holds it: nanoseconds since the Unix epoch, UTC. */
  type Nanos = int

  /** The stored form of a time: the database keeps whole microseconds. */
  function StoredTime(t: Nanos): Instant {
    t / 1000
  }

  /** A stored time read back into memory. */
  function ReadBack(t: Instant): Nanos {
    t * 1000
  }

  /** A stored time is the last whole microsecond that is not later. */
  lemma StoredTimeIsCut(t: Nanos)
    ensures ReadBack(StoredTime(t)) <= t < ReadBack(StoredTime(t)) + 1000
    ensures forall at: Instant :: ReadBack(at) <= t <==> at <= StoredTime(t)
  {
  }

  /** Go's zero time, the first instant of year 1. */
  const ZERO_TIME: Instant := -62_135_596_800_000_000
  const ZERO_NANOS: Nanos := ReadBack(ZERO_TIME)

  /** The beginning of year 0 and of year 10000. */
  const YEAR_0: Nanos := -62_167_219_200_000_000_000
  const YEAR_10000: Nanos := 253_402_300_800_000_000_000

  /** The times that JSON can express (section 5.6 of RFC 3339): those of the years 0 to 9999. */
  predicate Representable(t: Nanos) {
    YEAR_0 <= t < YEAR_10000
  }
  const DAY := 86_400_000_000

  /** The largest bigint, which no event sequence reaches. */
  const MAX_SEQUENCE := 0x7fff_ffff_ffff_ffff

  predicate IsControl(c: char) {
    c < ' ' || '\U{7f}' <= c <= '\U{9f}'
  }

  /** NewBoundedString, and the bounded text of idempotency records. */
  predicate BoundedText(value: string, maximum: int) {
    value != "" && |value| <= maximum && forall i | 0 <= i < |value| :: !IsControl(value[i])
  }

  predicate LowerAlphanumeric(c: char) {
    'a' <= c <= 'z' || '0' <= c <= '9'
  }

  /** NewReasonCode. */
  predicate ReasonCode(value: string) {
    && 1 <= |value| <= 128
    && forall i | 0 <= i < |value| ::
         LowerAlphanumeric(value[i]) || (0 < i < |value| - 1 && value[i] in {'.', '_', '-'})
  }
}
