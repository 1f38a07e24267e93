/** UUIDv7 identifiers: what makes one valid. Generation, text form and order
    are in module UuidText. */
module Uuids {

  type Byte = b: int | 0 <= b < 256

  /** Sixteen bytes, not necessarily a valid identifier (the zero value is one). */
  type Uuid = s: seq<Byte> | |s| == 16 witness seq(16, _ => 0)

  /** The check MarshalText makes: version 7, RFC variant. */
  predicate ValidUuid(id: Uuid) {
    id[6] / 16 == 7 && id[8] / 64 == 2
  }
}
