/** UUIDv7 generation, canonical text and order. */
module UuidText {
  import opened Shared
  import opened Uuids

  // ---------------------------------------------------------------- numbers and bytes

  function Power256(n: nat): (p: nat)
    ensures p > 0
  {
    if n == 0 then 1 else 256 * Power256(n - 1)
  }

  /** The number a byte string stands for, most significant byte first. */
  function BigEndian(s: seq<Byte>): (n: nat) {
    if s == [] then 0 else s[0] * Power256(|s| - 1) + BigEndian(s[1..])
  }

  lemma {:induction false} BigEndianBound(s: seq<Byte>)
    ensures BigEndian(s) < Power256(|s|)
  {
    if s != [] {
      BigEndianBound(s[1..]);
      Scale(s[0], 255, Power256(|s| - 1));
    }
  }

  lemma Scale(m: int, n: int, p: nat)
    requires m <= n
    ensures m * p <= n * p && (m + 1) * p == m * p + p
  {
  }

  /** Order of byte strings, as the database compares uuid values. */
  predicate BytesLess(a: seq<Byte>, b: seq<Byte>) {
    b != [] && (a == [] || a[0] < b[0] || (a[0] == b[0] && BytesLess(a[1..], b[1..])))
  }

  /** On strings of one length, the order of the bytes is the order of the numbers. */
  lemma {:induction false} BytesOrderIsNumberOrder(a: seq<Byte>, b: seq<Byte>)
    requires |a| == |b|
    ensures BytesLess(a, b) <==> BigEndian(a) < BigEndian(b)
    ensures BigEndian(a) == BigEndian(b) ==> a == b
  {
    if a != [] {
      BytesOrderIsNumberOrder(a[1..], b[1..]);
      BigEndianBound(a[1..]);
      BigEndianBound(b[1..]);
      var p := Power256(|a| - 1);
      if a[0] < b[0] {
        Scale(a[0] + 1, b[0], p);
        Scale(a[0], b[0], p);
      } else if b[0] < a[0] {
        Scale(b[0] + 1, a[0], p);
        Scale(b[0], a[0], p);
      } else {
        assert a == [a[0]] + a[1..] && b == [b[0]] + b[1..];
      }
    }
  }

  lemma {:induction false} BytesLessPrefix(a: seq<Byte>, x: seq<Byte>, b: seq<Byte>, y: seq<Byte>)
    requires |a| == |b|
    ensures BytesLess(a + x, b + y) <==> BytesLess(a, b) || (a == b && BytesLess(x, y))
  {
    if a == [] {
      assert a + x == x && b + y == y;
    } else {
      BytesLessPrefix(a[1..], x, b[1..], y);
      assert (a + x)[1..] == a[1..] + x && (b + y)[1..] == b[1..] + y;
      assert a == [a[0]] + a[1..] && b == [b[0]] + b[1..];
    }
  }

  // ---------------------------------------------------------------- generation

  const INVALID_TIME := Error(Invalid, "uuid: time out of range")
  const NO_RANDOM := Error(Unavailable, "uuid: random source")

  /** A new identifier from the clock's millisecond and ten random bytes, if the source gives them. */
  method New(now: int, random: Option<seq<Byte>>) returns (r: Result<Uuid>)
    requires random.Some? ==> |random.value| == 10
    ensures r.Ok? <==> 0 <= now < Power256(6) && random.Some?
    ensures r.Ok? ==>
              && ValidUuid(r.value) && BigEndian(r.value[..6]) == now
              && r.value[6] % 16 == random.value[0] % 16 && r.value[7] == random.value[1]
              && r.value[8] % 64 == random.value[2] % 64 && r.value[9..] == random.value[3..]
    ensures r.Err? ==> r.error == if 0 <= now < Power256(6) then NO_RANDOM else INVALID_TIME
  {
    var id := new Byte[16](_ => 0);
    var milliseconds := now;
    assert Power256(6) == 0x1_0000_0000_0000;
    if milliseconds < 0 || milliseconds > 0xffff_ffff_ffff { return Err(INVALID_TIME); }
    if random.None? { return Err(NO_RANDOM); }
    forall i | 6 <= i < 16 { id[i] := random.value[i - 6]; }
    var index := 5;
    while index >= 0
      invariant -1 <= index <= 5 && milliseconds >= 0
      invariant milliseconds * Power256(5 - index) + BigEndian(id[index + 1..6]) == now
      invariant id[6..] == random.value
    {
      ghost var tail := id[index + 1..6];
      id[index] := milliseconds % 256;
      assert id[index..6] == [milliseconds % 256] + tail;
      ShiftByte(milliseconds, tail);
      milliseconds := milliseconds / 256;
      index := index - 1;
    }
    Scale(if milliseconds > 0 then 1 else 0, milliseconds, Power256(6));
    assert milliseconds == 0;
    id[6] := id[6] % 16 + 0x70;
    id[8] := id[8] % 64 + 0x80;
    r := Ok(id[..]);
    assert id[..][..6] == id[0..6];
    assert id[..][9..] == random.value[3..];
  }

  lemma ShiftByte(n: nat, tail: seq<Byte>)
    ensures n * Power256(|tail|) + BigEndian(tail) == n / 256 * Power256(|tail| + 1) + BigEndian([n % 256] + tail)
  {
    assert ([n % 256] + tail)[1..] == tail;
    SplitDigit(n / 256, n % 256, Power256(|tail|));
  }

  lemma SplitDigit(q: nat, r: nat, p: nat)
    ensures (q * 256 + r) * p == q * (256 * p) + r * p
  {
  }

  /** An identifier from an earlier millisecond is smaller in the database's order and in text order. */
  lemma EarlierIsSmaller(a: Uuid, b: Uuid)
    requires BigEndian(a[..6]) < BigEndian(b[..6])
    ensures BytesLess(a, b) && TextLess(Text(a), Text(b))
  {
    BytesOrderIsNumberOrder(a[..6], b[..6]);
    BytesLessPrefix(a[..6], a[6..], b[..6], b[6..]);
    assert a == a[..6] + a[6..] && b == b[..6] + b[6..];
    TextOrderIsByteOrder(a, b);
  }

  // ---------------------------------------------------------------- text

  const DIGITS := "0123456789abcdef"

  function Hex(s: seq<Byte>): (t: string)
    ensures |t| == 2 * |s|
  {
    if s == [] then "" else [DIGITS[s[0] / 16], DIGITS[s[0] % 16]] + Hex(s[1..])
  }

  /** The canonical text of any sixteen bytes. */
  function Text(id: Uuid): (t: string)
    ensures |t| == 36
  {
    Hex(id[0..4])
        + ("-" + (Hex(id[4..6]) + ("-" + (Hex(id[6..8]) + ("-" + (Hex(id[8..10]) + ("-" + Hex(id[10..16]))))))))
  }

  /** A text with these parts is the text of the identifier. */
  lemma TextOfParts(id: Uuid, t: string)
    requires |t| == 36 && t[8] == '-' && t[13] == '-' && t[18] == '-' && t[23] == '-'
    requires t[0..8] == Hex(id[0..4]) && t[9..13] == Hex(id[4..6]) && t[14..18] == Hex(id[6..8])
    requires t[19..23] == Hex(id[8..10]) && t[24..36] == Hex(id[10..16])
    ensures t == Text(id)
  {
    hide Hex;
    assert t[23..] == "-" + t[24..36];
    assert t[19..] == t[19..23] + t[23..];
    assert t[18..] == "-" + t[19..];
    assert t[14..] == t[14..18] + t[18..];
    assert t[13..] == "-" + t[14..];
    assert t[9..] == t[9..13] + t[13..];
    assert t[8..] == "-" + t[9..];
    assert t == t[0..8] + t[8..];
  }

  /** hex.DecodeString's digit: both letter cases are accepted. */
  function Nibble(c: char): (r: Option<int>)
    ensures r.Some? ==> 0 <= r.value < 16
  {
    if '0' <= c <= '9' then Some(c as int - '0' as int)
    else if 'a' <= c <= 'f' then Some(c as int - 'a' as int + 10)
    else if 'A' <= c <= 'F' then Some(c as int - 'A' as int + 10)
    else None
  }

  function DecodeHex(t: string): (r: Option<seq<Byte>>)
    ensures r.Some? ==> |t| == 2 * |r.value|
  {
    if t == "" then Some([])
    else if |t| == 1 || Nibble(t[0]).None? || Nibble(t[1]).None? then None
    else
      var rest := DecodeHex(t[2..]);
      if rest.None? then None else Some([Nibble(t[0]).value * 16 + Nibble(t[1]).value] + rest.value)
  }

  function Parse(t: string): Option<Uuid> {
    if |t| != 36 || t[8] != '-' || t[13] != '-' || t[18] != '-' || t[23] != '-' then None
    else
      var decoded := DecodeHex(t[..8] + t[9..13] + t[14..18] + t[19..23] + t[24..]);
      if decoded.None? then None
      else
        var id: Uuid := decoded.value;
        if !ValidUuid(id) || Text(id) != t then None else Some(id)
  }

  lemma {:induction false} HexOfConcat(a: seq<Byte>, b: seq<Byte>)
    ensures Hex(a + b) == Hex(a) + Hex(b)
  {
    if a == [] {
      assert a + b == b;
    } else {
      HexOfConcat(a[1..], b);
      assert (a + b)[1..] == a[1..] + b;
    }
  }

  lemma HexFirst(s: seq<Byte>)
    requires s != []
    ensures Hex(s) != "" && Hex(s)[0] == DIGITS[s[0] / 16] && Hex(s)[1] == DIGITS[s[0] % 16]
    ensures Hex(s)[2..] == Hex(s[1..])
  {
  }

  lemma {:induction false} DecodeInvertsHex(s: seq<Byte>)
    ensures DecodeHex(Hex(s)) == Some(s)
  {
    if s == [] {
      assert Hex(s) == "" && DecodeHex("") == Some([]);
    } else {
      DecodeInvertsHex(s[1..]);
      FirstByte(s);
      assert s == [s[0]] + s[1..];
    }
  }

  lemma FirstByte(s: seq<Byte>)
    requires s != [] && DecodeHex(Hex(s[1..])) == Some(s[1..])
    ensures DecodeHex(Hex(s)) == Some([s[0]] + s[1..])
  {
    hide Nibble, DecodeHex, Hex;
    FirstNibbles(s);
    ByteOfNibbles(Hex(s), s[0], s[1..]);
  }

  lemma FirstNibbles(s: seq<Byte>)
    requires s != []
    ensures Hex(s) != "" && Hex(s)[2..] == Hex(s[1..])
    ensures Nibble(Hex(s)[0]) == Some(s[0] / 16) && Nibble(Hex(s)[1]) == Some(s[0] % 16)
  {
    HexFirst(s);
    DigitInvertsNibble(s[0] / 16);
    DigitInvertsNibble(s[0] % 16);
    hide Nibble, Hex;
  }

  lemma ByteOfNibbles(t: string, b: Byte, rest: seq<Byte>)
    requires |t| >= 2 && Nibble(t[0]) == Some(b / 16) && Nibble(t[1]) == Some(b % 16)
    requires DecodeHex(t[2..]) == Some(rest)
    ensures DecodeHex(t) == Some([b] + rest)
  {
    hide Nibble, DecodeHex;
    DecodeStep(t);
    Recombined(b);
  }

  lemma Recombined(n: int)
    ensures n / 16 * 16 + n % 16 == n
  {
  }

  lemma DigitInvertsNibble(n: int)
    requires 0 <= n < 16
    ensures Nibble(DIGITS[n]) == Some(n)
  {
  }

  /** Parsing the text of an identifier gives it back exactly when it is a valid UUIDv7. */
  lemma ParseInvertsText(id: Uuid)
    ensures Parse(Text(id)) == if ValidUuid(id) then Some(id) else None
  {
    var t := Text(id);
    TextParts(id);
    HexOfParts(id);
    DecodeInvertsHex(id);
  }

  lemma TextParts(id: Uuid)
    ensures var t := Text(id);
            && t[..8] == Hex(id[0..4]) && t[9..13] == Hex(id[4..6]) && t[14..18] == Hex(id[6..8])
            && t[19..23] == Hex(id[8..10]) && t[24..] == Hex(id[10..16])
            && t[8] == '-' && t[13] == '-' && t[18] == '-' && t[23] == '-'
  {
    hide Hex;
  }

  lemma HexOfParts(id: Uuid)
    ensures Hex(id[0..4]) + Hex(id[4..6]) + Hex(id[6..8]) + Hex(id[8..10]) + Hex(id[10..16]) == Hex(id)
  {
    HexSplit(id, 4, 6);
    HexSplit(id, 6, 8);
    HexSplit(id, 8, 10);
    HexSplit(id, 10, 16);
    assert id[0..16] == id;
  }

  lemma HexSplit(id: Uuid, i: nat, j: nat)
    requires i <= j <= 16
    ensures Hex(id[0..i]) + Hex(id[i..j]) == Hex(id[0..j])
  {
    HexOfConcat(id[0..i], id[i..j]);
    assert id[0..j] == id[0..i] + id[i..j];
  }

  /** A text some valid identifier has. */
  ghost predicate IsUuidText(t: string) {
    exists id: Uuid :: ValidUuid(id) && Text(id) == t
  }

  /** The accepted texts are exactly the canonical texts of valid identifiers, one text for each. */
  lemma AcceptedTexts(t: string)
    ensures Parse(t).Some? <==> IsUuidText(t)
    ensures forall a: Uuid, b: Uuid :: ValidUuid(a) && ValidUuid(b) && Text(a) == Text(b) ==> a == b
  {
    forall id: Uuid | ValidUuid(id) ensures Parse(Text(id)) == Some(id) {
      ParseInvertsText(id);
    }
  }

  predicate LowerHex(c: char) {
    '0' <= c <= '9' || 'a' <= c <= 'f'
  }

  lemma NibbleOfDigit(c: char)
    requires LowerHex(c)
    ensures Nibble(c).Some? && DIGITS[Nibble(c).value] == c
  {
    var letters := "abcdef";
    if 'a' <= c { assert letters[c as int - 'a' as int] == c; }
  }

  lemma TwoDigits(high: nat, low: nat)
    requires high < 16 && low < 16
    ensures (high * 16 + low) / 16 == high && (high * 16 + low) % 16 == low
  {
  }

  lemma DecodeStep(t: string)
    requires |t| >= 2 && Nibble(t[0]).Some? && Nibble(t[1]).Some? && DecodeHex(t[2..]).Some?
    ensures DecodeHex(t) == Some([Nibble(t[0]).value * 16 + Nibble(t[1]).value] + DecodeHex(t[2..]).value)
  {
    hide Nibble;
  }

  /** Two digits and what follows them decode to their byte and what follows it. */
  lemma DecodeFirst(t: string)
    requires |t| >= 2 && LowerHex(t[0]) && LowerHex(t[1]) && DecodeHex(t[2..]).Some?
    ensures DecodeHex(t).Some? && DecodeHex(t).value != [] && DecodeHex(t).value[1..] == DecodeHex(t[2..]).value
    ensures var b := DecodeHex(t).value[0]; DIGITS[b / 16] == t[0] && DIGITS[b % 16] == t[1]
  {
    hide Nibble, LowerHex, DecodeHex;
    NibbleOfDigit(t[0]);
    NibbleOfDigit(t[1]);
    DecodeStep(t);
    TwoDigits(Nibble(t[0]).value, Nibble(t[1]).value);
  }

  lemma {:induction false} HexInvertsDecode(t: string)
    requires |t| % 2 == 0 && forall i | 0 <= i < |t| :: LowerHex(t[i])
    ensures DecodeHex(t).Some? && Hex(DecodeHex(t).value) == t
  {
    if t != "" {
      HexInvertsDecode(t[2..]);
      DecodeFirst(t);
      hide LowerHex, Nibble, DecodeHex;
      assert t == [t[0], t[1]] + t[2..];
    }
  }

  /** The digits of a text are small hexadecimal ones. */
  lemma {:induction false} HexIsLower(s: seq<Byte>)
    ensures forall i | 0 <= i < |Hex(s)| :: LowerHex(Hex(s)[i])
    ensures forall k | 0 <= k < |s| :: Hex(s)[2 * k] == DIGITS[s[k] / 16] && Hex(s)[2 * k + 1] == DIGITS[s[k] % 16]
  {
    if s != [] {
      HexIsLower(s[1..]);
      DigitIsLower(s[0] / 16);
      DigitIsLower(s[0] % 16);
    }
  }

  lemma DigitIsLower(n: nat)
    requires n < 16
    ensures LowerHex(DIGITS[n])
  {
  }

  /** Digits in groups of eight, four, four, four and twelve, with dashes between them. */
  predicate Grouped(t: string) {
    && |t| == 36 && t[8] == '-' && t[13] == '-' && t[18] == '-' && t[23] == '-'
    && forall i | 0 <= i < 36 && i != 8 && i != 13 && i != 18 && i != 23 :: LowerHex(t[i])
  }

  /** The accepted texts, character by character: digits in their groups, the first of the third group a 7 and the first
      of the fourth 8, 9, a or b. */
  lemma AcceptedForm(t: string)
    ensures Parse(t).Some? <==> Grouped(t) && t[14] == '7' && t[19] in "89ab"
  {
    if Parse(t).Some? {
      var id := Parse(t).value;
      TextIsGrouped(id);
      SeventhDigits(id);
    }
    if Grouped(t) && t[14] == '7' && t[19] in "89ab" { GroupedIsText(t); }
  }

  lemma TextIsGrouped(id: Uuid)
    ensures Grouped(Text(id))
    ensures Text(id)[14] == DIGITS[id[6] / 16] && Text(id)[19] == DIGITS[id[8] / 16]
  {
    HexIsLower(id[0..4]);
    HexIsLower(id[4..6]);
    HexIsLower(id[6..8]);
    HexIsLower(id[8..10]);
    HexIsLower(id[10..16]);
    assert id[6..8][0] == id[6] && id[8..10][0] == id[8];
    GroupsJoin(Hex(id[0..4]), Hex(id[4..6]), Hex(id[6..8]), Hex(id[8..10]), Hex(id[10..16]));
    assert Hex(id[6..8])[2 * 0] == DIGITS[id[6] / 16] && Hex(id[8..10])[2 * 0] == DIGITS[id[8] / 16];
  }

  lemma GroupsJoin(a: string, b: string, c: string, d: string, e: string)
    requires |a| == 8 && |b| == |c| == |d| == 4 && |e| == 12
    requires forall i | 0 <= i < 8 :: LowerHex(a[i])
    requires forall i | 0 <= i < 4 :: LowerHex(b[i]) && LowerHex(c[i]) && LowerHex(d[i])
    requires forall i | 0 <= i < 12 :: LowerHex(e[i])
    ensures var t := a + ("-" + (b + ("-" + (c + ("-" + (d + ("-" + e)))))));
            Grouped(t) && t[14] == c[0] && t[19] == d[0]
  {
    hide LowerHex;
  }

  lemma SeventhDigits(id: Uuid)
    ensures ValidUuid(id) <==> DIGITS[id[6] / 16] == '7' && DIGITS[id[8] / 16] in "89ab"
  {
    assert DIGITS[8] == '8' && DIGITS[9] == '9' && DIGITS[10] == 'a' && DIGITS[11] == 'b' && DIGITS[7] == '7';
    NibbleOfIndex(id[6] / 16);
    NibbleOfIndex(id[8] / 16);
  }

  lemma NibbleOfIndex(n: nat)
    requires n < 16
    ensures DIGITS[n] == '7' <==> n == 7
    ensures DIGITS[n] in "89ab" <==> n / 4 == 2
  {
  }

  lemma HexOfGroups(id: Uuid)
    ensures Hex(id) == Hex(id[0..4]) + Hex(id[4..6]) + Hex(id[6..8]) + Hex(id[8..10]) + Hex(id[10..16])
  {
    hide Hex;
    HexOfConcat(id[0..4], id[4..6]);
    HexOfConcat(id[0..4] + id[4..6], id[6..8]);
    HexOfConcat(id[0..4] + id[4..6] + id[6..8], id[8..10]);
    HexOfConcat(id[0..4] + id[4..6] + id[6..8] + id[8..10], id[10..16]);
    assert id == id[0..4] + id[4..6] + id[6..8] + id[8..10] + id[10..16];
  }

  lemma GroupedIsText(t: string)
    requires Grouped(t) && t[14] == '7' && t[19] in "89ab"
    ensures Parse(t).Some?
  {
    var digits := t[..8] + t[9..13] + t[14..18] + t[19..23] + t[24..];
    HexInvertsDecode(digits);
    var id: Uuid := DecodeHex(digits).value;
    hide Hex, LowerHex, DecodeHex, Text, ValidUuid;
    HexOfGroups(id);
    PartsAreGroups(digits, Hex(id[0..4]), Hex(id[4..6]), Hex(id[6..8]), Hex(id[8..10]), Hex(id[10..16]), t);
    TextOfParts(id, t);
    TextIsGrouped(id);
    SeventhDigits(id);
  }

  lemma PartsAreGroups(digits: string, a: string, b: string, c: string, d: string, e: string, t: string)
    requires |t| == 36 && digits == t[..8] + t[9..13] + t[14..18] + t[19..23] + t[24..] == a + b + c + d + e
    requires |a| == 8 && |b| == |c| == |d| == 4 && |e| == 12
    ensures t[0..8] == a && t[9..13] == b && t[14..18] == c && t[19..23] == d && t[24..36] == e
  {
    assert digits[0..8] == a == t[0..8];
    assert digits[8..12] == b == t[9..13];
    assert digits[12..16] == c == t[14..18];
    assert digits[16..20] == d == t[19..23];
    assert digits[20..32] == e == t[24..36];
  }

  predicate TextLess(a: string, b: string) {
    b != [] && (a == [] || a[0] < b[0] || (a[0] == b[0] && TextLess(a[1..], b[1..])))
  }

  lemma {:induction false} TextLessPrefix(a: string, x: string, b: string, y: string)
    requires |a| == |b|
    ensures TextLess(a + x, b + y) <==> TextLess(a, b) || (a == b && TextLess(x, y))
  {
    if a == [] {
      assert a + x == x && b + y == y;
    } else {
      TextLessPrefix(a[1..], x, b[1..], y);
      assert (a + x)[1..] == a[1..] + x && (b + y)[1..] == b[1..] + y;
      assert a == [a[0]] + a[1..] && b == [b[0]] + b[1..];
    }
  }

  lemma {:induction false} HexOrder(a: seq<Byte>, b: seq<Byte>)
    requires |a| == |b|
    ensures TextLess(Hex(a), Hex(b)) <==> BytesLess(a, b)
    ensures Hex(a) == Hex(b) ==> a == b
  {
    DecodeInvertsHex(a);
    DecodeInvertsHex(b);
    if a != [] {
      HexOrder(a[1..], b[1..]);
      DigitOrder(a[0], b[0]);
      TextLessPrefix([DIGITS[a[0] / 16], DIGITS[a[0] % 16]], Hex(a[1..]), [DIGITS[b[0] / 16], DIGITS[b[0] % 16]],
          Hex(b[1..]));
    }
  }

  lemma DigitOrder(m: Byte, n: Byte)
    ensures var s, t := [DIGITS[m / 16], DIGITS[m % 16]], [DIGITS[n / 16], DIGITS[n % 16]];
            (TextLess(s, t) <==> m < n) && (s == t <==> m == n)
  {
    var s, t := [DIGITS[m / 16], DIGITS[m % 16]], [DIGITS[n / 16], DIGITS[n % 16]];
    DigitsAscend(m / 16, n / 16);
    DigitsAscend(m % 16, n % 16);
    assert TextLess(s, t) <==> DIGITS[m / 16] < DIGITS[n / 16] || (m / 16 == n / 16 && TextLess(s[1..], t[1..]));
    assert s[1..] == [DIGITS[m % 16]] && t[1..] == [DIGITS[n % 16]];
    assert TextLess(s[1..], t[1..]) <==> DIGITS[m % 16] < DIGITS[n % 16];
    assert m < n <==> m / 16 < n / 16 || (m / 16 == n / 16 && m % 16 < n % 16);
    assert s == t ==> s[0] == t[0] && s[1] == t[1];
  }

  lemma DigitsAscend(i: int, j: int)
    requires 0 <= i < 16 && 0 <= j < 16
    ensures DIGITS[i] < DIGITS[j] <==> i < j
    ensures DIGITS[i] == DIGITS[j] <==> i == j
  {
    DigitInvertsNibble(i);
    DigitInvertsNibble(j);
  }

  /** Text order and byte order agree on all identifiers, valid or not. */
  lemma TextOrderIsByteOrder(a: Uuid, b: Uuid)
    ensures TextLess(Text(a), Text(b)) <==> BytesLess(a, b)
  {
    hide Hex, TextLess, BytesLess;
    HexOrder(a[10..16], b[10..16]);
    var s4, t4 := Hex(a[10..16]), Hex(b[10..16]);
    PartOrder(a, b, 8, 10, s4, t4);
    var s3, t3 := Hex(a[8..10]) + ("-" + s4), Hex(b[8..10]) + ("-" + t4);
    PartOrder(a, b, 6, 8, s3, t3);
    var s2, t2 := Hex(a[6..8]) + ("-" + s3), Hex(b[6..8]) + ("-" + t3);
    PartOrder(a, b, 4, 6, s2, t2);
    PartOrder(a, b, 0, 4, Hex(a[4..6]) + ("-" + s2), Hex(b[4..6]) + ("-" + t2));
    assert a[0..16] == a && b[0..16] == b;
  }

  lemma PartOrder(a: Uuid, b: Uuid, i: nat, j: nat, s: string, t: string)
    requires i <= j <= 16 && (TextLess(s, t) <==> BytesLess(a[j..16], b[j..16]))
    ensures TextLess(Hex(a[i..j]) + ("-" + s), Hex(b[i..j]) + ("-" + t)) <==> BytesLess(a[i..16], b[i..16])
  {
    TextLessPrefix("-", s, "-", t);
    HexOrder(a[i..j], b[i..j]);
    TextLessPrefix(Hex(a[i..j]), "-" + s, Hex(b[i..j]), "-" + t);
    BytesLessPrefix(a[i..j], a[j..16], b[i..j], b[j..16]);
    assert a[i..16] == a[i..j] + a[j..16] && b[i..16] == b[i..j] + b[j..16];
  }

  // ---------------------------------------------------------------- the text buffers

  /** hex.Encode: writes the two digits of each byte into output from position `at`. */
  method EncodeHex(output: array<char>, at: nat, src: seq<Byte>)
    requires at + 2 * |src| <= output.Length
    modifies output
    ensures output[at..at + 2 * |src|] == Hex(src)
    ensures forall k | 0 <= k < at || at + 2 * |src| <= k < output.Length :: output[k] == old(output[k])
  {
    for i := 0 to |src|
      invariant output[at..at + 2 * i] == Hex(src[..i])
      invariant forall k | 0 <= k < at || at + 2 * i <= k < output.Length :: output[k] == old(output[k])
    {
      ghost var done := output[at..at + 2 * i];
      output[at + 2 * i] := DIGITS[src[i] / 16];
      output[at + 2 * i + 1] := DIGITS[src[i] % 16];
      HexOfConcat(src[..i], [src[i]]);
      assert src[..i + 1] == src[..i] + [src[i]];
      assert output[at..at + 2 * (i + 1)] == done + Hex([src[i]]);
    }
    assert src[..|src|] == src;
  }

  /** String: the text written into one buffer, part by part. */
  method String(id: Uuid) returns (text: string)
    ensures text == Text(id)
  {
    hide Hex, Text;
    var output := new char[36](_ => '0');
    EncodeHex(output, 0, id[0..4]);
    output[8] := '-';
    assert output[0..8] == Hex(id[0..4]);
    EncodeHex(output, 9, id[4..6]);
    output[13] := '-';
    assert output[0..8] == Hex(id[0..4]) && output[9..13] == Hex(id[4..6]);
    EncodeHex(output, 14, id[6..8]);
    output[18] := '-';
    assert output[0..8] == Hex(id[0..4]) && output[9..13] == Hex(id[4..6]) && output[14..18] == Hex(id[6..8]);
    EncodeHex(output, 19, id[8..10]);
    output[23] := '-';
    EncodeHex(output, 24, id[10..16]);
    text := output[..];
    assert text[0..8] == Hex(id[0..4]) && text[9..13] == Hex(id[4..6]) && text[14..18] == Hex(id[6..8]);
    assert text[19..23] == Hex(id[8..10]) && text[24..36] == Hex(id[10..16]);
    TextOfParts(id, text);
  }

  /** ParseUUID: the decoded bytes are copied into the identifier, then checked. */
  method ParseUuid(value: string) returns (r: Result<Uuid>)
    ensures r.Ok? <==> Parse(value).Some?
    ensures r.Ok? ==> Parse(value) == Some(r.value) && Text(r.value) == value && ValidUuid(r.value)
  {
    if |value| != 36 || value[8] != '-' || value[13] != '-' || value[18] != '-' || value[23] != '-' {
      return Err(Error(Invalid, "uuid: invalid canonical form"));
    }
    var decoded := DecodeHex(value[..8] + value[9..13] + value[14..18] + value[19..23] + value[24..]);
    if decoded.None? { return Err(Error(Invalid, "uuid: invalid hexadecimal")); }
    var id: Uuid := decoded.value;
    if id[6] / 16 != 7 || id[8] / 64 != 2 { return Err(Error(Invalid, "uuid: UUIDv7 required")); }
    var text := String(id);
    if text != value { return Err(Error(Invalid, "uuid: non-canonical form")); }
    r := Ok(id);
  }
}
