/** The laws assumed of a cursor codec's library parts can hold together, and with them every cursor of a listing can be
    small enough: hexadecimal digits for base64url, and a payload written out field by field for its JSON. */
module CursorLaws {
  import opened Shared
  import opened Uuids
  import opened UuidText
  import opened Cursors
  import opened Tallies
  import Pagination
  import Walk = PaginationWalk

  // ---------------------------------------------------------------- numbers

  /** The base-256 digits, the lowest first, each after a one, and a zero at the end. */
  function Digits(n: nat): seq<Byte> {
    if n == 0 then [0] else [1, n % 256] + Digits(n / 256)
  }

  lemma DigitsBegin(n: nat, x: seq<Byte>)
    ensures n == 0 ==> Digits(n) + x == [0] + x
    ensures n != 0 ==> Digits(n) + x == [1, n % 256] + (Digits(n / 256) + x)
  {
  }

  lemma {:induction false} DigitsReadBack(m: nat, x: seq<Byte>, n: nat, y: seq<Byte>)
    requires Digits(m) + x == Digits(n) + y
    ensures m == n && x == y
  {
    DigitsBegin(m, x);
    DigitsBegin(n, y);
    var s, t := Digits(m) + x, Digits(n) + y;
    hide Digits;
    assert s[0] == (if m == 0 then 0 else 1) && t[0] == (if n == 0 then 0 else 1);
    if m == 0 {
      assert x == s[1..] && y == t[1..];
    } else {
      assert s[1] == m % 256 && t[1] == n % 256;
      assert s[2..] == Digits(m / 256) + x && t[2..] == Digits(n / 256) + y;
      DigitsReadBack(m / 256, x, n / 256, y);
    }
  }

  function Power(k: nat): nat {
    if k == 0 then 1 else 256 * Power(k - 1)
  }

  lemma {:induction false} DigitsAreFew(n: nat, k: nat)
    requires n < Power(k)
    ensures |Digits(n)| <= 2 * k + 1
  {
    if n != 0 { DigitsAreFew(n / 256, k - 1); }
  }

  function Signed(n: int): seq<Byte> {
    if n < 0 then [0] + Digits(-n) else [1] + Digits(n)
  }

  lemma SignedReadsBack(m: int, x: seq<Byte>, n: int, y: seq<Byte>)
    requires Signed(m) + x == Signed(n) + y
    ensures m == n && x == y
  {
    hide Digits;
    var a, b := if m < 0 then -m else m, if n < 0 then -n else n;
    HeadOff<Byte>(if m < 0 then 0 else 1, Digits(a), x);
    HeadOff<Byte>(if n < 0 then 0 else 1, Digits(b), y);
    DigitsReadBack(a, x, b, y);
  }

  // ---------------------------------------------------------------- texts

  /** The three bytes of a character, after a one. */
  function Bytes(c: char): (b: seq<Byte>)
    ensures |b| == 4 && b[0] == 1
  {
    [1, c as int / 65536, c as int / 256 % 256, c as int % 256]
  }

  lemma BytesReadBack(c: char, d: char)
    requires Bytes(c) == Bytes(d)
    ensures c == d
  {
    var m, n := c as int, d as int;
    assert Bytes(c)[1] == m / 65536 && Bytes(c)[2] == m / 256 % 256 && Bytes(c)[3] == m % 256;
    assert Bytes(d)[1] == n / 65536 && Bytes(d)[2] == n / 256 % 256 && Bytes(d)[3] == n % 256;
    assert m / 256 / 256 == m / 65536 && n / 256 / 256 == n / 65536;
    assert c == m as char && d == n as char;
  }

  function Chars(s: string): (b: seq<Byte>)
    ensures |b| == 4 * |s| + 1
  {
    if s == "" then [0] else Bytes(s[0]) + Chars(s[1..])
  }

  lemma {:induction false} CharsReadBack(s: string, x: seq<Byte>, t: string, y: seq<Byte>)
    requires Chars(s) + x == Chars(t) + y
    ensures s == t && x == y
  {
    hide Bytes;
    assert (Chars(s) + x)[0] == (Chars(t) + y)[0];
    if s != "" && t != "" {
      var a, b := Chars(s[1..]), Chars(t[1..]);
      Regroup(Bytes(s[0]), a, x);
      Regroup(Bytes(t[0]), b, y);
      BeginningsAgree(Bytes(s[0]), a + x, Bytes(t[0]), b + y);
      BytesReadBack(s[0], t[0]);
      CharsReadBack(s[1..], x, t[1..], y);
      assert s == [s[0]] + s[1..] && t == [t[0]] + t[1..];
    } else if s == "" && t == "" {
      BeginningsAgree(Chars(s), x, Chars(t), y);
    }
  }

  // ---------------------------------------------------------------- payloads

  function Marshal(p: Payload): seq<Byte> {
    Signed(p.version) + (Signed(p.pageSize) + (Signed(p.expires) + Texts(p)))
  }

  function Texts(p: Payload): (b: seq<Byte>)
    ensures |b| == 4 * (|p.tenant| + |p.endpoint| + |p.query| + |p.position|) + 4
  {
    Chars(p.tenant) + (Chars(p.endpoint) + (Chars(p.query) + (Chars(p.position) + [])))
  }

  lemma TextsReadBack(p: Payload, q: Payload)
    requires Texts(p) == Texts(q)
    ensures p.tenant == q.tenant && p.endpoint == q.endpoint && p.query == q.query && p.position == q.position
  {
    hide Chars;
    CharsReadBack(p.tenant, Chars(p.endpoint) + (Chars(p.query) + (Chars(p.position) + [])),
                  q.tenant, Chars(q.endpoint) + (Chars(q.query) + (Chars(q.position) + [])));
    CharsReadBack(p.endpoint, Chars(p.query) + (Chars(p.position) + []),
                  q.endpoint, Chars(q.query) + (Chars(q.position) + []));
    CharsReadBack(p.query, Chars(p.position) + [], q.query, Chars(q.position) + []);
    CharsReadBack(p.position, [], q.position, []);
  }

  lemma MarshalReadsBack(p: Payload, q: Payload)
    requires Marshal(p) == Marshal(q)
    ensures p == q
  {
    hide Signed, Texts;
    SignedReadsBack(p.version, Signed(p.pageSize) + (Signed(p.expires) + Texts(p)),
                    q.version, Signed(q.pageSize) + (Signed(q.expires) + Texts(q)));
    SignedReadsBack(p.pageSize, Signed(p.expires) + Texts(p), q.pageSize, Signed(q.expires) + Texts(q));
    SignedReadsBack(p.expires, Texts(p), q.expires, Texts(q));
    TextsReadBack(p, q);
  }

  /** The payload that is written so, if there is one. */
  ghost function Unmarshal(b: seq<Byte>): Option<Payload> {
    if p :| Marshal(p) == b then Some(p) else None
  }

  lemma {:induction false} HexHasNoDot(b: seq<Byte>)
    ensures '.' !in Hex(b)
  {
    if b != [] { HexHasNoDot(b[1..]); }
  }

  ghost function Small(): Codec {
    Codec(Hex, DecodeHex, Marshal, Unmarshal, b => [0], d => d)
  }

  lemma LawsCanHold()
    ensures Laws(Small())
  {
    forall b ensures DecodeHex(Hex(b)) == Some(b) && '.' !in Hex(b) {
      DecodeInvertsHex(b);
      HexHasNoDot(b);
    }
    forall p ensures Unmarshal(Marshal(p)) == Some(p) {
      var q :| Marshal(q) == Marshal(p) && Unmarshal(Marshal(p)) == Some(q);
      MarshalReadsBack(p, q);
    }
  }

  /** Together with the laws, every listing can give a cursor for every position at every time of the years 0 to 9999.
      The digest of its query is a SHA-256 digest's text. */
  lemma CursorsCanFit(now: Nanos, scope: Scope, last: Uuid)
    requires ValidScope(scope) && |scope.digest| <= 71 && ValidUuid(last) && Representable(now)
    ensures Laws(Small()) && Pagination.NextCursor(Small(), now, scope, last).Some?
  {
    LawsCanHold();
    var cursor := Cursor(Text(last), now + Pagination.CURSOR_LIFETIME);
    var p := PayloadOf(Small(), scope, cursor);
    IdentifierIsBounded(last);
    MarshalIsSmall(p);
  }

  lemma MarshalIsSmall(p: Payload)
    requires p.version == 1 && |p.tenant| == |p.position| == 36 && |p.endpoint| <= 256 && |p.query| <= 71
    requires 1 <= p.pageSize <= 200 && -0x1_0000_0000_0000 < p.expires < 0x1_0000_0000_0000
    ensures |Marshal(p)| <= 2000
  {
    hide Texts;
    assert Power(1) == 256;
    assert Power(3) == 0x100_0000;
    assert Power(6) == 0x1_0000_0000_0000;
    DigitsAreFew(1, 1);
    DigitsAreFew(p.pageSize, 1);
    DigitsAreFew(if p.expires < 0 then -p.expires else p.expires, 6);
  }

  /** An identifier's text has no control character. */
  lemma IdentifierIsBounded(id: Uuid)
    ensures BoundedText(Text(id), 1024)
  {
    var a, b, c, d, e := Hex(id[0..4]), Hex(id[4..6]), Hex(id[6..8]), Hex(id[8..10]), Hex(id[10..16]);
    HexIsPlain(id[0..4]);
    HexIsPlain(id[4..6]);
    HexIsPlain(id[6..8]);
    HexIsPlain(id[8..10]);
    HexIsPlain(id[10..16]);
    assert Text(id) == a + ("-" + (b + ("-" + (c + ("-" + (d + ("-" + e)))))));
    hide Hex;
    DashIsPlain(d, e);
    DashIsPlain(c, d + ("-" + e));
    DashIsPlain(b, c + ("-" + (d + ("-" + e))));
    DashIsPlain(a, b + ("-" + (c + ("-" + (d + ("-" + e))))));
  }

  predicate Plain(t: string) {
    forall i | 0 <= i < |t| :: !IsControl(t[i])
  }

  lemma DashIsPlain(a: string, b: string)
    requires Plain(a) && Plain(b)
    ensures Plain(a + ("-" + b))
  {
  }

  lemma {:induction false} HexIsPlain(b: seq<Byte>)
    ensures Plain(Hex(b))
  {
    if b != [] {
      var two, rest := [DIGITS[b[0] / 16], DIGITS[b[0] % 16]], Hex(b[1..]);
      HexIsPlain(b[1..]);
      DigitIsPlain(b[0] / 16);
      DigitIsPlain(b[0] % 16);
      assert Hex(b) == two + rest;
      hide Hex, IsControl;
      assert Plain(two);
      PlainConcat(two, rest);
    }
  }

  lemma DigitIsPlain(n: nat)
    requires n < 16
    ensures !IsControl(DIGITS[n])
  {
  }

  lemma PlainConcat(a: string, b: string)
    requires Plain(a) && Plain(b)
    ensures Plain(a + b)
  {
  }

  /** So a service with such a codec can give every position a cursor at every such time. */
  lemma EveryPositionGetsACursor(service: Pagination.Service, pageSize: int, now: Nanos)
    requires service.codec == Small() && ValidScope(service.ScopeOf(pageSize)) && |service.digest| <= 71
    requires Representable(now)
    ensures Laws(service.codec) && Walk.Cursorable(service, pageSize, now)
  {
    hide Laws, Text, Parse, Pagination.NextCursor;
    LawsCanHold();
    forall id: Uuid | ValidUuid(id)
      ensures Pagination.NextCursor(service.codec, now, service.ScopeOf(pageSize), id).Some?
    {
      CursorsCanFit(now, service.ScopeOf(pageSize), id);
    }
  }
}
