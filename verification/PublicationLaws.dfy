/** The laws assumed of digests and of identifier texts can be met: by the real text form of identifiers, and by a
    digest that writes the whole command out. */
module PublicationLaws {
  import opened Shared
  import opened Uuids
  import opened UuidText
  import opened Publication
  import opened Tallies

  function Written(c: Command): string {
    match c
    case Create(namespaceId, childPrefix, publisherId) => "C" + (Hex(namespaceId) + (Hex(publisherId) + childPrefix))
    case Revoke(id, version, reason, explanation) =>
      "R" + (Hex(id) + (if version < 0 then "-" + (Tally('0', '1', -version) + Reasons(reason, explanation))
                        else "+" + (Tally('0', '1', version) + Reasons(reason, explanation))))
  }

  function Reasons(reason: string, explanation: string): string {
    Tally('0', '1', |reason|) + (reason + explanation)
  }

  lemma ReasonsReadBack(a: string, x: string, b: string, y: string)
    requires Reasons(a, x) == Reasons(b, y)
    ensures a == b && x == y
  {
    TallyReadsBack('0', '1', |a|, a + x, |b|, b + y);
    BeginningsAgree(a, x, b, y);
  }

  /** Identifiers are all of one length, so a text beginning with one can be read back. */
  lemma HexReadsBack(a: Uuid, x: string, b: Uuid, y: string)
    requires Hex(a) + x == Hex(b) + y
    ensures a == b && x == y
  {
    BeginningsAgree(Hex(a), x, Hex(b), y);
    DecodeInvertsHex(a);
    DecodeInvertsHex(b);
  }

  lemma WrittenReadsBack(c: Command, d: Command)
    requires Written(c) == Written(d)
    ensures c == d
  {
    hide Hex, Tally, Reasons;
    assert Written(c)[0] == Written(d)[0];
    assert Written(c)[1..] == Written(d)[1..];
    match c
    case Create(namespaceId, childPrefix, publisherId) =>
      HexReadsBack(namespaceId, Hex(publisherId) + childPrefix, d.namespaceId, Hex(d.publisherId) + d.childPrefix);
      HexReadsBack(publisherId, childPrefix, d.publisherId, d.childPrefix);
    case Revoke(id, version, reason, explanation) =>
      RevocationReadsBack(c, d);
  }

  lemma RevocationReadsBack(c: Command, d: Command)
    requires c.Revoke? && d.Revoke? && Written(c)[1..] == Written(d)[1..]
    ensures c == d
  {
    hide Hex, Tally, Reasons;
    var m := if c.expectedVersion < 0 then -c.expectedVersion else c.expectedVersion;
    var n := if d.expectedVersion < 0 then -d.expectedVersion else d.expectedVersion;
    var a := Tally('0', '1', m) + Reasons(c.reason, c.explanation);
    var b := Tally('0', '1', n) + Reasons(d.reason, d.explanation);
    var x := [if c.expectedVersion < 0 then '-' else '+'] + a;
    var y := [if d.expectedVersion < 0 then '-' else '+'] + b;
    assert Written(c) == "R" + (Hex(c.delegationId) + x) && Written(d) == "R" + (Hex(d.delegationId) + y);
    HexReadsBack(c.delegationId, x, d.delegationId, y);
    assert x[0] == y[0] && x[1..] == a && y[1..] == b;
    TallyReadsBack('0', '1', m, Reasons(c.reason, c.explanation), n, Reasons(d.reason, d.explanation));
    ReasonsReadBack(c.reason, c.explanation, d.reason, d.explanation);
  }

  lemma LawsCanHold()
    ensures Laws(Setup(Written, Text, Parse))
  {
    forall c, d | Written(c) == Written(d) ensures c == d { WrittenReadsBack(c, d); }
    forall id | ValidUuid(id) ensures Parse(Text(id)) == Some(id) { ParseInvertsText(id); }
  }
}
