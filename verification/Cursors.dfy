/** Signed pagination cursors: bound to a tenant, an endpoint, a query and a page size, and good until a second. */
module Cursors {
  import opened Shared
  import opened Uuids
  import opened UuidText
  import opened Splitting

  const MAX_CURSOR_BYTES := 4096
  const SECOND := 1_000_000_000

  /** digest is the query's SHA-256 digest text; the zero digest is empty. */
  datatype Scope = Scope(tenant: Uuid, endpoint: string, digest: string, pageSize: int)

  datatype Cursor = Cursor(position: string, expiresAt: Nanos)

  /** The signed payload; expires is in seconds. */
  datatype Payload = Payload(
      version: int, tenant: string, endpoint: string, query: string, pageSize: int, position: string, expires: int)

  /** The library parts of a codec with its key: raw base64url, strict JSON of a payload with nothing after it, the
      keyed signature and the keyed binding of a query digest. */
  datatype Codec = Codec(
    encode64: seq<Byte> -> string, decode64: string -> Option<seq<Byte>>,
    marshal: Payload -> seq<Byte>, unmarshal: seq<Byte> -> Option<Payload>,
    sign: seq<Byte> -> seq<Byte>, bind: string -> string)

  /** What is assumed of them: decoding inverts encoding, base64url has no dot (section 5 of RFC 4648), and different
      query digests are bound differently. */
  ghost predicate Laws(c: Codec) {
    && (forall b :: c.decode64(c.encode64(b)) == Some(b))
    && (forall b :: '.' !in c.encode64(b))
    && (forall p :: c.unmarshal(c.marshal(p)) == Some(p))
    && (forall d, e :: c.bind(d) == c.bind(e) ==> d == e)
  }

  predicate ValidScope(s: Scope) {
    && ValidUuid(s.tenant)
    && s.endpoint != "" && |s.endpoint| <= 256 && s.endpoint[0] == '/'
    && (forall i | 0 <= i < |s.endpoint| :: s.endpoint[i] !in {'?', '#', '\r', '\n'})
    && s.digest != "" && 1 <= s.pageSize <= 200
  }

  function PayloadOf(c: Codec, s: Scope, cursor: Cursor): Payload {
    Payload(1, Text(s.tenant), s.endpoint, c.bind(s.digest), s.pageSize, cursor.position, cursor.expiresAt / SECOND)
  }

  function Encode(c: Codec, now: Nanos, s: Scope, cursor: Cursor): Option<string> {
    if !ValidScope(s) || !BoundedText(cursor.position, 1024) || cursor.expiresAt <= now then None
    else
      var encoded := c.marshal(PayloadOf(c, s, cursor));
      var text := c.encode64(encoded) + "." + c.encode64(c.sign(encoded));
      if |text| > MAX_CURSOR_BYTES then None else Some(text)
  }

  function Decode(c: Codec, now: Nanos, text: string, expected: Scope): Option<Cursor> {
    if !ValidScope(expected) || text == "" || |text| > MAX_CURSOR_BYTES then None
    else
      var parts := Split(text, '.');
      if |parts| != 2 then None
      else
        var payload := c.decode64(parts[0]);
        if payload.None? then None
        else
          var signature := c.decode64(parts[1]);
          if signature.None? || signature.value != c.sign(payload.value) then None
          else
            var decoded := c.unmarshal(payload.value);
            if decoded.None? then None else Checked(c, now, decoded.value, expected)
  }

  /** The checks of an authentic payload against the expected scope and the time. */
  function Checked(c: Codec, now: Nanos, p: Payload, expected: Scope): Option<Cursor> {
    if p.version != 1 || p.tenant != Text(expected.tenant) || p.endpoint != expected.endpoint
       || p.query != c.bind(expected.digest) || p.pageSize != expected.pageSize then None
    else if !BoundedText(p.position, 1024) || p.expires * SECOND <= now then None
    else Some(Cursor(p.position, p.expires * SECOND))
  }

  // ---------------------------------------------------------------- round trip

  /** A cursor decodes exactly in the scope it was encoded for, and until the start of the second it expires in; it
      comes back with its position and that second. */
  lemma DecodeInvertsEncode(c: Codec, made: Nanos, now: Nanos, s: Scope, t: Scope, cursor: Cursor)
    requires Laws(c) && ValidScope(t) && Encode(c, made, s, cursor).Some?
    ensures Decode(c, now, Encode(c, made, s, cursor).value, t) ==
            if t == s && cursor.expiresAt / SECOND * SECOND > now
            then Some(Cursor(cursor.position, cursor.expiresAt / SECOND * SECOND)) else None
  {
    var p := PayloadOf(c, s, cursor);
    var a, b := c.encode64(c.marshal(p)), c.encode64(c.sign(c.marshal(p)));
    assert a + "." + b == Join([a, b], '.');
    SplitInvertsJoin([a, b], '.');
    CheckedOfPayload(c, now, s, t, cursor);
  }

  lemma CheckedOfPayload(c: Codec, now: Nanos, s: Scope, t: Scope, cursor: Cursor)
    requires Laws(c) && ValidScope(s) && ValidScope(t) && BoundedText(cursor.position, 1024)
    ensures Checked(c, now, PayloadOf(c, s, cursor), t) ==
            if t == s && cursor.expiresAt / SECOND * SECOND > now
            then Some(Cursor(cursor.position, cursor.expiresAt / SECOND * SECOND)) else None
  {
    hide Text, Parse, BoundedText;
    ParseInvertsText(s.tenant);
    ParseInvertsText(t.tenant);
  }

  /** A cursor made to expire within the second it is made in is refused from the start: encoding compares the exact
      expiry, decoding the whole second. */
  lemma ShortLivedCursorIsRefused(c: Codec, now: Nanos, s: Scope, cursor: Cursor)
    requires Laws(c) && Encode(c, now, s, cursor).Some?
    ensures Decode(c, now, Encode(c, now, s, cursor).value, s).None? <==> cursor.expiresAt / SECOND <= now / SECOND
  {
    DecodeInvertsEncode(c, now, now, s, s, cursor);
  }

  /** Whatever is accepted carries this codec's signature of its own payload, made for this scope, unexpired. */
  lemma AcceptedIsSigned(c: Codec, now: Nanos, text: string, s: Scope)
    requires Decode(c, now, text, s).Some?
    ensures exists a: string, b: string, payload: seq<Byte> ::
              && text == a + "." + b && c.decode64(a) == Some(payload) && c.decode64(b) == Some(c.sign(payload))
              && c.unmarshal(payload) == Some(PayloadOf(c, s, Decode(c, now, text, s).value))
    ensures Decode(c, now, text, s).value.expiresAt > now
  {
    var parts := Split(text, '.');
    JoinInvertsSplit(text, '.');
    assert Join(parts[1..], '.') == parts[1];
    assert text == parts[0] + "." + parts[1];
    var payload := c.decode64(parts[0]).value;
    assert c.unmarshal(payload) == Some(PayloadOf(c, s, Decode(c, now, text, s).value));
  }
}
