/** UTF-8 text as bytes (section 3 of RFC 3629), and the log sanitizer's bound on strings. */
module Utf8 {
  import opened Uuids

  const MAX_STRING_BYTES := 4096

  /** [TRUNCATED] */
  const TRUNCATED: seq<Byte> := [0x5b, 0x54, 0x52, 0x55, 0x4e, 0x43, 0x41, 0x54, 0x45, 0x44, 0x5d]

  /** A byte that continues a character: value & 0xc0 == 0x80. */
  predicate Continues(b: Byte) {
    b / 64 == 2
  }

  /** The length of the character the bytes begin with, or 0 if they begin with none. */
  function CharLength(s: seq<Byte>): (n: nat)
    ensures n <= 4 && n <= |s|
  {
    if s == [] then 0
    else if s[0] < 0x80 then 1
    else if 0xc2 <= s[0] < 0xe0 && |s| >= 2 && Continues(s[1]) then 2
    else if 0xe0 <= s[0] < 0xf0 && |s| >= 3 && Continues(s[1]) && Continues(s[2])
            && (s[0] == 0xe0 ==> s[1] >= 0xa0) && (s[0] == 0xed ==> s[1] < 0xa0) then 3
    else if 0xf0 <= s[0] < 0xf5 && |s| >= 4 && Continues(s[1]) && Continues(s[2]) && Continues(s[3])
            && (s[0] == 0xf0 ==> s[1] >= 0x90) && (s[0] == 0xf4 ==> s[1] < 0x90) then 4
    else 0
  }

  predicate ValidUtf8(s: seq<Byte>) {
    s == [] || (CharLength(s) > 0 && ValidUtf8(s[CharLength(s)..]))
  }

  /** The first character depends on no byte after it. */
  lemma CharLengthOfPrefix(s: seq<Byte>, k: nat)
    requires CharLength(s) <= k <= |s| && CharLength(s) > 0
    ensures CharLength(s[..k]) == CharLength(s)
  {
  }

  lemma CharBytes(s: seq<Byte>)
    requires CharLength(s) > 0
    ensures !Continues(s[0]) && forall i | 1 <= i < CharLength(s) :: Continues(s[i])
  {
  }

  /** Cutting valid text where no character continues leaves valid text on both sides. */
  lemma {:induction false} CutAtBoundary(s: seq<Byte>, k: nat)
    requires ValidUtf8(s) && k <= |s| && (k < |s| ==> !Continues(s[k]))
    ensures ValidUtf8(s[..k]) && ValidUtf8(s[k..])
    decreases |s|
  {
    if k > 0 {
      var n := CharLength(s);
      CharBytes(s);
      assert n <= k;
      var rest := s[n..];
      CutAtBoundary(rest, k - n);
      CharLengthOfPrefix(s, k);
      assert s[..k][n..] == rest[..k - n] && s[k..] == rest[k - n..];
    } else {
      assert s[k..] == s;
    }
  }

  lemma {:induction false} ConcatIsValid(a: seq<Byte>, b: seq<Byte>)
    requires ValidUtf8(a) && ValidUtf8(b)
    ensures ValidUtf8(a + b)
    decreases |a|
  {
    hide CharLength;
    if a == [] {
      assert a + b == b;
    } else {
      var n := CharLength(a);
      ConcatIsValid(a[n..], b);
      CharLengthOfExtension(a, b);
      assert (a + b)[n..] == a[n..] + b;
    }
  }

  lemma CharLengthOfExtension(a: seq<Byte>, b: seq<Byte>)
    requires CharLength(a) > 0
    ensures CharLength(a + b) == CharLength(a)
  {
    var n := CharLength(a);
    assert forall i | 0 <= i < n :: (a + b)[i] == a[i];
  }

  lemma {:induction false} AsciiIsValid(s: seq<Byte>)
    requires forall i | 0 <= i < |s| :: s[i] < 0x80
    ensures ValidUtf8(s)
  {
    if s != [] { AsciiIsValid(s[1..]); }
  }

  /** The last place at or before k where no character continues, or 0. */
  function Boundary(s: seq<Byte>, k: nat): (cut: nat)
    requires k < |s|
    ensures cut <= k && (cut > 0 ==> !Continues(s[cut])) && forall i | cut < i <= k :: Continues(s[i])
  {
    if k > 0 && Continues(s[k]) then Boundary(s, k - 1) else k
  }

  /** Text that is too long keeps its beginning, up to whole characters, and the marker. */
  function Bounded(s: seq<Byte>): seq<Byte> {
    if |s| <= MAX_STRING_BYTES then s else s[..Boundary(s, MAX_STRING_BYTES - |TRUNCATED|)] + TRUNCATED
  }

  /** Bounded text fits; valid text stays valid; and of valid text at most three bytes more than necessary go. */
  lemma BoundedIsSafe(s: seq<Byte>)
    ensures |Bounded(s)| <= MAX_STRING_BYTES
    ensures ValidUtf8(s) ==> ValidUtf8(Bounded(s))
    ensures ValidUtf8(s) && |s| > MAX_STRING_BYTES ==> |Bounded(s)| >= MAX_STRING_BYTES - 3
  {
    if |s| > MAX_STRING_BYTES && ValidUtf8(s) {
      var k := MAX_STRING_BYTES - |TRUNCATED|;
      var cut := Boundary(s, k);
      FirstByteStarts(s);
      CutAtBoundary(s, cut);
      AsciiIsValid(TRUNCATED);
      ConcatIsValid(s[..cut], TRUNCATED);
      RunsAreShort(s, cut, k);
    }
  }

  lemma FirstByteStarts(s: seq<Byte>)
    requires ValidUtf8(s) && s != []
    ensures !Continues(s[0])
  {
    CharBytes(s);
  }

  /** Valid text never has more than three continuing bytes after a boundary. */
  lemma RunsAreShort(s: seq<Byte>, cut: nat, k: nat)
    requires ValidUtf8(s) && cut <= k < |s| && !Continues(s[cut]) && forall i | cut < i <= k :: Continues(s[i])
    ensures k - cut <= 3
  {
    CutAtBoundary(s, cut);
    var rest := s[cut..];
    var n := CharLength(rest);
    CharBytes(rest);
    if n <= k - cut {
      CutAtBoundary(s, cut);
      assert ValidUtf8(rest[n..]);
      FirstByteStarts(rest[n..]);
      assert rest[n..][0] == s[cut + n];
    }
  }

  /** boundedString. */
  method BoundedString(value: seq<Byte>) returns (r: seq<Byte>)
    ensures r == Bounded(value)
    // Short text is kept; of long text the beginning, up to the last place at or before 4085 where a character begins.
    ensures |value| <= 4096 ==> r == value
    ensures |value| > 4096 ==>
              exists cut: nat ::
                && cut <= 4085 && r == value[..cut] + TRUNCATED && (cut > 0 ==> !Continues(value[cut]))
                && forall i | cut < i <= 4085 :: Continues(value[i])
  {
    if |value| <= MAX_STRING_BYTES { return value; }
    var cut := MAX_STRING_BYTES - |TRUNCATED|;
    while cut > 0 && Continues(value[cut])
      invariant 0 <= cut <= MAX_STRING_BYTES - |TRUNCATED|
      invariant Boundary(value, cut) == Boundary(value, MAX_STRING_BYTES - |TRUNCATED|)
    {
      cut := cut - 1;
    }
    r := value[..cut] + TRUNCATED;
  }
}
