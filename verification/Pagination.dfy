/** Keyset pagination over rows ordered by identifier, with signed cursors: the listing of publishers, namespaces
    and artifacts, and a client that follows the cursors to the end. */
module Pagination {
  import opened Shared
  import opened Uuids
  import opened UuidText
  import Cursors

  const MAX_PAGE_SIZE := 200
  const CURSOR_LIFETIME := 900 * Cursors.SECOND

  /** What the repositories accept as a limit: publishers and namespaces allow the extra row the services ask for to
      see whether there is another page, artifacts do not. */
  const LOOKAHEAD_LIMIT := 201
  const ARTIFACT_LIMIT := 200

  const INVALID_PAGE_SIZE := Error(Invalid, "publisher.invalid_page_size")
  const INVALID_CURSOR := Error(Invalid, "publisher.invalid_cursor")
  const CURSOR_UNAVAILABLE := Error(Internal, "publisher.cursor_unavailable")
  const UNAVAILABLE := Error(Unavailable, "publisher.persistence_unavailable")

  // ---------------------------------------------------------------- ordered rows

  ghost predicate Ascending(rows: seq<Uuid>) {
    forall i, j | 0 <= i < j < |rows| :: BytesLess(rows[i], rows[j])
  }

  lemma Ordered(a: Uuid, b: Uuid, c: Uuid)
    ensures !BytesLess(a, a)
    ensures BytesLess(a, b) && BytesLess(b, c) ==> BytesLess(a, c)
    ensures BytesLess(a, b) || a == b || BytesLess(b, a)
    ensures !(BytesLess(a, b) && BytesLess(b, a))
  {
    hide BytesLess, BigEndian;
    BytesOrderIsNumberOrder(a, a);
    BytesOrderIsNumberOrder(a, b);
    BytesOrderIsNumberOrder(b, a);
    BytesOrderIsNumberOrder(b, c);
    BytesOrderIsNumberOrder(a, c);
  }

  predicate Follows(after: Option<Uuid>, id: Uuid) {
    after.None? || BytesLess(after.value, id)
  }

  /** The rows after a position, in order. */
  function Beyond(rows: seq<Uuid>, after: Option<Uuid>): seq<Uuid> {
    if rows == [] then []
    else if Follows(after, rows[0]) then [rows[0]] + Beyond(rows[1..], after)
    else Beyond(rows[1..], after)
  }

  function Taken(rows: seq<Uuid>, n: nat): seq<Uuid> {
    if |rows| <= n then rows else rows[..n]
  }

  lemma {:induction false} BeyondContents(rows: seq<Uuid>, after: Option<Uuid>, id: Uuid)
    ensures id in Beyond(rows, after) <==> id in rows && Follows(after, id)
  {
    hide BytesLess;
    if rows != [] { BeyondContents(rows[1..], after, id); }
  }

  lemma {:induction false} BeyondAscends(rows: seq<Uuid>, after: Option<Uuid>)
    requires Ascending(rows)
    ensures Ascending(Beyond(rows, after))
  {
    hide BytesLess;
    if rows != [] {
      var rest := Beyond(rows[1..], after);
      BeyondAscends(rows[1..], after);
      forall k | 0 <= k < |rest| ensures BytesLess(rows[0], rest[k]) {
        BeyondContents(rows[1..], after, rest[k]);
      }
    }
  }

  /** In ordered rows, what follows the k-th is the tail after it. */
  lemma {:induction false} BeyondIsTail(rows: seq<Uuid>, k: nat)
    requires Ascending(rows) && k < |rows|
    ensures Beyond(rows, Some(rows[k])) == rows[k + 1..]
  {
    hide BytesLess;
    if k == 0 {
      Ordered(rows[0], rows[0], rows[0]);
      AllBeyond(rows[1..], Some(rows[0]));
    } else {
      Ordered(rows[0], rows[k], rows[0]);
      BeyondIsTail(rows[1..], k - 1);
      assert rows[1..][k - 1] == rows[k] && rows[1..][k..] == rows[k + 1..];
    }
  }

  lemma {:induction false} AllBeyond(rows: seq<Uuid>, after: Option<Uuid>)
    requires forall i | 0 <= i < |rows| :: Follows(after, rows[i])
    ensures Beyond(rows, after) == rows
  {
    hide BytesLess;
    if rows != [] { AllBeyond(rows[1..], after); }
  }

  lemma BeyondConcat(a: seq<Uuid>, id: Uuid, after: Option<Uuid>)
    ensures Beyond(a + [id], after) == Beyond(a, after) + if Follows(after, id) then [id] else []
  {
    hide BytesLess;
    if a != [] {
      BeyondConcat(a[1..], id, after);
      assert (a + [id])[1..] == a[1..] + [id];
    }
  }

  // ---------------------------------------------------------------- the table and its listing

  class Table {
    const limit: int
    var rows: seq<Uuid>

    ghost predicate Valid()
      reads this
    {
      Ascending(rows) && forall i | 0 <= i < |rows| :: ValidUuid(rows[i])
    }

    constructor (limit: int)
      ensures Valid() && rows == [] && this.limit == limit
    {
      this.limit, rows := limit, [];
    }

    /** A new row takes its place in the order. */
    method Insert(id: Uuid)
      requires Valid() && ValidUuid(id)
      modifies this
      ensures Valid() && forall x :: x in rows <==> x in old(rows) || x == id
    {
      hide BytesLess, ValidUuid;
      var k := 0;
      while k < |rows| && BytesLess(rows[k], id)
        invariant k <= |rows| && forall i | 0 <= i < k :: BytesLess(rows[i], id)
      {
        k := k + 1;
      }
      if k < |rows| && rows[k] == id { return; }
      forall i | k <= i < |rows| ensures BytesLess(id, rows[i]) {
        Ordered(id, rows[k], rows[i]);
      }
      var before := rows;
      rows := before[..k] + [id] + before[k..];
      forall x ensures x in rows <==> x in before || x == id {
        assert before == before[..k] + before[k..];
      }
    }

    /** The first rows after a position. */
    method List(after: Option<Uuid>, limit: int, up: bool) returns (r: Result<seq<Uuid>>)
      requires Valid()
      ensures r.Ok? <==> 1 <= limit <= this.limit && (after.Some? ==> ValidUuid(after.value)) && up
      ensures r.Ok? ==> r.value == Taken(Beyond(rows, after), limit)
      ensures r.Err? ==>
                if !(1 <= limit <= this.limit) then r.error == INVALID_PAGE_SIZE
                else if after.Some? && !ValidUuid(after.value) then r.error == INVALID_CURSOR
                else r.error == TRANSACTION_UNAVAILABLE || r.error == UNAVAILABLE
    {
      hide BytesLess, ValidUuid;
      if limit < 1 || limit > this.limit { return Err(INVALID_PAGE_SIZE); }
      if after.Some? && !ValidUuid(after.value) { return Err(INVALID_CURSOR); }
      if !up {
        var begun: bool := *;
        return Err(if begun then UNAVAILABLE else TRANSACTION_UNAVAILABLE);
      }
      var values: seq<Uuid> := [];
      for i := 0 to |rows|
        invariant values == Taken(Beyond(rows[..i], after), limit)
      {
        assert rows[..i + 1] == rows[..i] + [rows[i]];
        BeyondConcat(rows[..i], rows[i], after);
        if Follows(after, rows[i]) && |values| < limit { values := values + [rows[i]]; }
      }
      assert rows[..|rows|] == rows;
      r := Ok(values);
    }
  }

  // ---------------------------------------------------------------- the service

  /** A page and the cursor of the next one, empty on the last. */
  datatype Page = Page(items: seq<Uuid>, next: string)

  function NextCursor(c: Cursors.Codec, now: Nanos, scope: Cursors.Scope, last: Uuid): Option<string> {
    Cursors.Encode(c, now, scope, Cursors.Cursor(Text(last), now + CURSOR_LIFETIME))
  }

  /** Where a request resumes: at the start without a cursor, after the cursor's position with one. */
  function Resume(c: Cursors.Codec, now: Nanos, scope: Cursors.Scope, encoded: string): Option<Option<Uuid>> {
    if encoded == "" then Some(None)
    else
      var cursor := Cursors.Decode(c, now, encoded, scope);
      if cursor.None? then None
      else
        var position := Parse(cursor.value.position);
        if position.None? then None else Some(position)
  }

  /** A next cursor, presented in its time, resumes after the row it was made for; later it is refused. */
  lemma CursorResumes(c: Cursors.Codec, made: Nanos, now: Nanos, scope: Cursors.Scope, last: Uuid)
    requires Cursors.Laws(c) && ValidUuid(last) && NextCursor(c, made, scope, last).Some?
    ensures var encoded := NextCursor(c, made, scope, last).value;
            encoded != "" && Resume(c, now, scope, encoded) ==
               if (made + CURSOR_LIFETIME) / Cursors.SECOND * Cursors.SECOND > now then Some(Some(last)) else None
  {
    hide Text, Parse;
    Cursors.DecodeInvertsEncode(c, made, now, scope, scope, Cursors.Cursor(Text(last), made + CURSOR_LIFETIME));
    ParseInvertsText(last);
  }

  /** A cursor belongs to the listing it was made for: of whatever listings with one codec, the tenant, the endpoint,
      the query and the page size have to be the same, and fifteen minutes must not have passed to the whole second. */
  lemma CursorBelongsToItsListing(
      made: Service, shown: Service, pageSize: int, pageSize': int, before: Nanos, now: Nanos, last: Uuid)
    requires Cursors.Laws(made.codec) && shown.codec == made.codec && ValidUuid(last)
    requires NextCursor(made.codec, before, made.ScopeOf(pageSize), last).Some?
    requires Cursors.ValidScope(shown.ScopeOf(pageSize'))
    ensures var encoded := NextCursor(made.codec, before, made.ScopeOf(pageSize), last).value;
            Resume(shown.codec, now, shown.ScopeOf(pageSize'), encoded) ==
            if shown.tenant == made.tenant && shown.endpoint == made.endpoint && shown.digest == made.digest
               && pageSize' == pageSize && (before + 900_000_000_000) / 1_000_000_000 * 1_000_000_000 > now
            then Some(Some(last)) else None
  {
    hide Text, Parse, Cursors.ValidScope;
    var cursor := Cursors.Cursor(Text(last), before + CURSOR_LIFETIME);
    CursorResumes(made.codec, before, now, made.ScopeOf(pageSize), last);
    Cursors.DecodeInvertsEncode(
      made.codec, before, now, made.ScopeOf(pageSize), shown.ScopeOf(pageSize'), cursor);
    ParseInvertsText(last);
  }

  /** The rows after a position are a tail of the ordered rows: those that spell a greater number. */
  lemma {:induction false} BeyondIsRest(rows: seq<Uuid>, after: Uuid) returns (k: nat)
    requires Ascending(rows)
    ensures k <= |rows| && Beyond(rows, Some(after)) == rows[k..]
    ensures forall i | 0 <= i < |rows| :: i >= k <==> BigEndian(rows[i]) > BigEndian(after)
  {
    hide BytesLess, BigEndian;
    if rows == [] {
      k := 0;
    } else {
      BytesOrderIsNumberOrder(after, rows[0]);
      if Follows(Some(after), rows[0]) {
        forall i | 0 <= i < |rows| ensures Follows(Some(after), rows[i]) && BigEndian(rows[i]) > BigEndian(after) {
          Ordered(after, rows[0], rows[i]);
          BytesOrderIsNumberOrder(after, rows[i]);
        }
        AllBeyond(rows, Some(after));
        k := 0;
      } else {
        k := BeyondIsRest(rows[1..], after);
        k := k + 1;
        assert rows[1..][k - 1..] == rows[k..];
      }
    }
  }

  class Service {
    const codec: Cursors.Codec
    const tenant: Uuid
    const endpoint: string
    const digest: string
    const table: Table

    constructor (codec: Cursors.Codec, tenant: Uuid, endpoint: string, digest: string, table: Table)
      ensures this.codec == codec && this.tenant == tenant && this.endpoint == endpoint && this.digest == digest
              && this.table == table
    {
      this.codec, this.tenant, this.endpoint, this.digest, this.table := codec, tenant, endpoint, digest, table;
    }

    function ScopeOf(pageSize: int): Cursors.Scope {
      Cursors.Scope(tenant, endpoint, digest, pageSize)
    }

    /** One page: the first rows after the cursor's position, and a cursor for the rest if there is any. A page of
        pageSize rows needs a repository that lists pageSize + 1. */
    method List(pageSize: int, encoded: string, now: Nanos, up: bool) returns (r: Result<Page>)
      requires table.Valid()
      ensures r.Ok? <==>
                && 1 <= pageSize <= MAX_PAGE_SIZE && pageSize < table.limit
                && Resume(codec, now, ScopeOf(pageSize), encoded).Some? && up
                && var ahead := Beyond(table.rows, Resume(codec, now, ScopeOf(pageSize), encoded).value);
                   |ahead| > pageSize ==> NextCursor(codec, now, ScopeOf(pageSize), ahead[pageSize - 1]).Some?
      ensures r.Ok? ==>
                var ahead := Beyond(table.rows, Resume(codec, now, ScopeOf(pageSize), encoded).value);
                && r.value.items == Taken(ahead, pageSize)
                && (r.value.next == "" <==> |ahead| <= pageSize)
                && (|ahead| > pageSize ==>
                      NextCursor(codec, now, ScopeOf(pageSize), ahead[pageSize - 1]) == Some(r.value.next))
      ensures r.Err? ==>
                if pageSize < 1 || pageSize > 200 then r.error == INVALID_PAGE_SIZE
                else if Resume(codec, now, ScopeOf(pageSize), encoded).None? then r.error == INVALID_CURSOR
                else if pageSize >= table.limit then r.error == INVALID_PAGE_SIZE
                else if !up then r.error == TRANSACTION_UNAVAILABLE || r.error == UNAVAILABLE
                else r.error == CURSOR_UNAVAILABLE
    {
      hide Text, Parse, Cursors.Encode, Cursors.Decode, BytesLess, Beyond;
      if pageSize < 1 || pageSize > MAX_PAGE_SIZE { return Err(INVALID_PAGE_SIZE); }
      var scope := ScopeOf(pageSize);
      var after := None;
      if encoded != "" {
        var cursor := Cursors.Decode(codec, now, encoded, scope);
        if cursor.None? { return Err(INVALID_CURSOR); }
        after := Parse(cursor.value.position);
        if after.None? { return Err(INVALID_CURSOR); }
        ParsedIsValid(cursor.value.position);
      }
      var values := table.List(after, pageSize + 1, up);
      if values.Err? { return Err(values.error); }
      if |values.value| <= pageSize { return Ok(Page(values.value, "")); }
      var items := values.value[..pageSize];
      var next := NextCursor(codec, now, scope, items[|items| - 1]);
      if next.None? { return Err(CURSOR_UNAVAILABLE); }
      CursorIsNotEmpty(codec, now, scope, items[|items| - 1]);
      r := Ok(Page(items, next.value));
    }
  }

  /** Of the page sizes the services accept, publishers and namespaces can serve all, artifacts all but the largest. */
  lemma ServableSizes(pageSize: int)
    requires 1 <= pageSize <= MAX_PAGE_SIZE
    ensures pageSize < LOOKAHEAD_LIMIT
    ensures pageSize < ARTIFACT_LIMIT <==> pageSize != MAX_PAGE_SIZE
  {
  }

  lemma CursorIsNotEmpty(c: Cursors.Codec, now: Nanos, scope: Cursors.Scope, last: Uuid)
    ensures NextCursor(c, now, scope, last) != Some("")
  {
    hide Text;
  }

  lemma ParsedIsValid(text: string)
    ensures Parse(text).Some? ==> ValidUuid(Parse(text).value)
  {
  }
}
