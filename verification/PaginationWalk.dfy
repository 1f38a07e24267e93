/** Following the cursors of a listing to its end: over a table that stays as it is the pages are the whole table,
    and over one that grows meanwhile nothing is seen twice and nothing that was there is missed. */
module PaginationWalk {
  import opened Shared
  import opened Uuids
  import opened UuidText
  import opened Pagination
  import Cursors

  function Flatten(pages: seq<seq<Uuid>>): seq<Uuid> {
    if pages == [] then [] else Flatten(pages[..|pages| - 1]) + pages[|pages| - 1]
  }

  function LastOf(seen: seq<Uuid>): Option<Uuid> {
    if seen == [] then None else Some(seen[|seen| - 1])
  }

  /** What has been seen is in order and is there; what was there at the start has been seen or lies ahead. */
  ghost predicate Progress(start: seq<Uuid>, rows: seq<Uuid>, seen: seq<Uuid>, more: bool) {
    && Ascending(seen)
    && (forall id | id in seen :: id in rows)
    && (forall id | id in start :: id in rows && (id in seen || (more && Follows(LastOf(seen), id))))
  }

  /** A page more. */
  lemma NextPageProgresses(start: seq<Uuid>, rows: seq<Uuid>, seen: seq<Uuid>, pageSize: nat)
    requires Ascending(rows) && pageSize >= 1 && Progress(start, rows, seen, true)
    ensures var ahead := Beyond(rows, LastOf(seen));
            Progress(start, rows, seen + Taken(ahead, pageSize), |ahead| > pageSize)
  {
    hide BytesLess, Beyond;
    var ahead := Beyond(rows, LastOf(seen));
    var items := Taken(ahead, pageSize);
    BeyondAscends(rows, LastOf(seen));
    forall id
      ensures id in ahead <==> id in rows && Follows(LastOf(seen), id)
    {
      BeyondContents(rows, LastOf(seen), id);
    }
    forall i, j | 0 <= i < j < |seen + items| ensures BytesLess((seen + items)[i], (seen + items)[j]) {
      if i < |seen| <= j {
        assert items[j - |seen|] in ahead;
        Ordered(seen[i], seen[|seen| - 1], items[j - |seen|]);
      }
    }
    forall id | id in start ensures id in seen + items || (|ahead| > pageSize && Follows(LastOf(seen + items), id)) {
      if id !in seen {
        var k :| 0 <= k < |ahead| && ahead[k] == id;
        assert k < |items| ==> items[k] == id;
      }
    }
  }

  lemma ArrivalsKeepProgress(start: seq<Uuid>, rows: seq<Uuid>, after: seq<Uuid>, seen: seq<Uuid>, more: bool)
    requires Progress(start, rows, seen, more) && forall id | id in rows :: id in after
    ensures Progress(start, after, seen, more)
  {
  }

  /** Over a table that stays as it is, the pages so far are its first rows, all full, and not all of them. */
  ghost predicate Steady(rows: seq<Uuid>, pages: seq<seq<Uuid>>, pageSize: nat) {
    && (forall i | 0 <= i < |pages| :: |pages[i]| == pageSize)
    && Flatten(pages) <= rows && (pages != [] ==> |Flatten(pages)| < |rows|)
  }

  lemma {:induction false} FullPages(pages: seq<seq<Uuid>>, pageSize: nat)
    requires forall i | 0 <= i < |pages| :: |pages[i]| == pageSize
    ensures |Flatten(pages)| == |pages| * pageSize
  {
    if pages != [] {
      FullPages(pages[..|pages| - 1], pageSize);
      assert |pages| * pageSize == (|pages| - 1) * pageSize + pageSize;
    }
  }

  /** The next page of such a table is its next rows. */
  lemma NextPageIsSteady(rows: seq<Uuid>, pages: seq<seq<Uuid>>, pageSize: nat)
    requires Ascending(rows) && Steady(rows, pages, pageSize)
    ensures var ahead := Beyond(rows, LastOf(Flatten(pages)));
            && ahead == rows[|Flatten(pages)|..]
            && (if |ahead| > pageSize then Steady(rows, pages + [Taken(ahead, pageSize)], pageSize)
                else Flatten(pages + [Taken(ahead, pageSize)]) == rows)
  {
    hide BytesLess, Beyond, Flatten, Ascending;
    var seen := Flatten(pages);
    BeyondTheSeen(rows, seen);
    var ahead := rows[|seen|..];
    var items := Taken(ahead, pageSize);
    FlattenSnoc(pages, items);
    assert rows == seen + ahead;
    if |ahead| > pageSize {
      assert seen + items == rows[..|seen| + pageSize];
      assert forall i | 0 <= i < |pages + [items]| :: |(pages + [items])[i]| == pageSize;
    }
  }

  lemma BeyondTheSeen(rows: seq<Uuid>, seen: seq<Uuid>)
    requires Ascending(rows) && seen <= rows
    ensures Beyond(rows, LastOf(seen)) == rows[|seen|..]
  {
    hide BytesLess, Beyond, Ascending;
    if seen == [] {
      AllBeyond(rows, None);
      assert rows[0..] == rows;
    } else {
      assert rows[|seen| - 1] == seen[|seen| - 1];
      BeyondIsTail(rows, |seen| - 1);
    }
  }

  function PagesNeeded(rows: nat, pageSize: nat): nat
    requires pageSize >= 1
  {
    if rows == 0 then 1 else (rows + pageSize - 1) / pageSize
  }

  lemma LastPageNumber(rows: nat, pageSize: nat, full: nat)
    requires pageSize >= 1 && full * pageSize <= rows <= full * pageSize + pageSize
             && (full > 0 ==> full * pageSize < rows)
    ensures full + 1 == PagesNeeded(rows, pageSize)
  {
    if rows > 0 {
      var over := rows - full * pageSize;
      assert rows + pageSize - 1 == (full + 1) * pageSize + (over - 1);
      DivideExactly(full + 1, pageSize, over - 1);
    }
  }

  lemma DivideExactly(q: nat, d: nat, r: int)
    requires d >= 1 && 0 <= r < d
    ensures (q * d + r) / d == q
  {
    var t := (q * d + r) / d;
    assert t * d <= q * d + r < t * d + d;
    if t < q {
      Scale(t + 1, q, d);
      Scale(t, t, d);
    } else if q < t {
      Scale(q + 1, t, d);
      Scale(q, q, d);
    }
  }

  /** How much of the identifier space lies ahead: every page but the last moves on. */
  function Distance(seen: seq<Uuid>): int {
    if seen == [] then Power256(16) else Power256(16) - 1 - BigEndian(seen[|seen| - 1])
  }

  lemma DistanceShrinks(seen: seq<Uuid>, items: seq<Uuid>)
    requires items != [] && Ascending(seen + items)
    ensures 0 <= Distance(seen + items) < Distance(seen)
  {
    var all := seen + items;
    BigEndianBound(all[|all| - 1]);
    if seen != [] {
      assert BytesLess(all[|seen| - 1], all[|all| - 1]);
      BytesOrderIsNumberOrder(seen[|seen| - 1], items[|items| - 1]);
    }
  }

  /** Rows that other callers add. */
  method Arrivals(table: Table)
    requires table.Valid()
    modifies table
    ensures table.Valid() && forall id | id in old(table.rows) :: id in table.rows
  {
    hide ValidUuid;
    var added: seq<Uuid> := *;
    for i := 0 to |added|
      invariant table.Valid() && forall id | id in old(table.rows) :: id in table.rows
    {
      if ValidUuid(added[i]) { table.Insert(added[i]); }
    }
  }

  /** The cursor in hand is the one made for the last row seen, or none before the first page. */
  ghost predicate InHand(service: Service, pageSize: int, encoded: string, made: Nanos, seen: seq<Uuid>) {
    if encoded == "" then seen == []
    else
      && seen != [] && ValidUuid(seen[|seen| - 1])
      && NextCursor(service.codec, made, service.ScopeOf(pageSize), seen[|seen| - 1]) == Some(encoded)
  }

  /** Pages of this size are accepted by the service and by its repository. */
  predicate Sized(service: Service, pageSize: int) {
    1 <= pageSize <= MAX_PAGE_SIZE && pageSize < service.table.limit
  }

  /** At this time every position gets a cursor. */
  ghost predicate Cursorable(service: Service, pageSize: int, now: Nanos) {
    forall id: Uuid | ValidUuid(id) :: NextCursor(service.codec, now, service.ScopeOf(pageSize), id).Some?
  }

  /** A cursor made at one time is presented before the whole second in which it expires. */
  predicate InTime(made: Nanos, now: Nanos) {
    (made + CURSOR_LIFETIME) / Cursors.SECOND * Cursors.SECOND > now
  }

  /** Whoever comes at least a second before a cursor's lifetime is over is in time. */
  lemma LifetimeLessASecond(made: Nanos, now: Nanos)
    requires now <= made + CURSOR_LIFETIME - Cursors.SECOND
    ensures InTime(made, now)
  {
  }

  /** The k-th request, counted from 0, is answered by the database, and comes in time for the cursor that the one
      before it got. */
  predicate Met(clock: nat -> Nanos, up: nat -> bool, k: nat) {
    up(k) && (k > 0 ==> InTime(clock(k - 1), clock(k)))
  }

  /** The cursor in hand resumes after the last row seen, exactly while it is in time. */
  lemma InHandResumes(service: Service, pageSize: int, encoded: string, made: Nanos, seen: seq<Uuid>, now: Nanos)
    requires Cursors.Laws(service.codec) && InHand(service, pageSize, encoded, made, seen)
    ensures Resume(service.codec, now, service.ScopeOf(pageSize), encoded) ==
            if encoded == "" || InTime(made, now) then Some(LastOf(seen)) else None
  {
    if encoded != "" { CursorResumes(service.codec, made, now, service.ScopeOf(pageSize), seen[|seen| - 1]); }
  }

  /** One request of the client, rows arriving before it unless the table is quiet. */
  method Fetch(
      service: Service, pageSize: int, quiet: bool, encoded: string, made: Nanos, now: Nanos, up: bool,
      ghost start: seq<Uuid>, ghost pages: seq<seq<Uuid>>)
      returns (r: Result<Page>)
    requires service.table.Valid() && Cursors.Laws(service.codec)
    requires InHand(service, pageSize, encoded, made, Flatten(pages))
             && Progress(start, service.table.rows, Flatten(pages), true)
    requires quiet && pageSize >= 1 ==> Steady(service.table.rows, pages, pageSize)
    modifies service.table
    ensures service.table.Valid() && (quiet ==> service.table.rows == old(service.table.rows))
    ensures r.Ok? ==> Sized(service, pageSize) && up && (encoded == "" || InTime(made, now))
    ensures Sized(service, pageSize) && up && (encoded == "" || InTime(made, now))
            && Cursorable(service, pageSize, now) ==>
              r.Ok?
    ensures r.Ok? ==> After(service, pageSize, quiet, now, start, pages, r.value, service.table.rows)
  {
    hide Beyond, BytesLess, Text, Parse, Cursors.Laws, NextCursor, Resume, ValidUuid, InTime, InHand, After, Steady;
    ghost var seen := Flatten(pages);
    if !quiet {
      ghost var before := service.table.rows;
      Arrivals(service.table);
      ArrivalsKeepProgress(start, before, service.table.rows, seen, true);
    }
    InHandResumes(service, pageSize, encoded, made, seen, now);
    AheadIsValid(service.table.rows, LastOf(seen));
    r := service.List(pageSize, encoded, now, up);
    if r.Ok? { PageFollows(service, pageSize, quiet, now, start, pages, r.value); }
  }

  /** What a page adds: it is in order, nothing was missed, and over a quiet table it is the next rows. */
  ghost predicate After(
      service: Service, pageSize: int, quiet: bool, now: Nanos, start: seq<Uuid>, pages: seq<seq<Uuid>>, page: Page,
      rows: seq<Uuid>)
  {
    var seen := Flatten(pages) + page.items;
    && pageSize >= 1 && Progress(start, rows, seen, page.next != "")
    && (page.next != "" ==> page.items != [] && InHand(service, pageSize, page.next, now, seen))
    && (quiet ==> if page.next != "" then Steady(rows, pages + [page.items], pageSize)
                  else Flatten(pages + [page.items]) == rows && |page.items| <= pageSize)
  }

  lemma PageFollows(
      service: Service, pageSize: int, quiet: bool, now: Nanos, start: seq<Uuid>, pages: seq<seq<Uuid>>, page: Page)
    requires service.table.Valid() && pageSize >= 1
    requires Progress(start, service.table.rows, Flatten(pages), true)
    requires quiet ==> Steady(service.table.rows, pages, pageSize)
    requires var ahead := Beyond(service.table.rows, LastOf(Flatten(pages)));
             && page.items == Taken(ahead, pageSize)
             && (page.next == "" <==> |ahead| <= pageSize)
             && (|ahead| > pageSize ==>
                   NextCursor(service.codec, now, service.ScopeOf(pageSize), ahead[pageSize - 1]) == Some(page.next))
    ensures After(service, pageSize, quiet, now, start, pages, page, service.table.rows)
  {
    hide Beyond, BytesLess, NextCursor, ValidUuid, Steady, Flatten;
    var seen := Flatten(pages);
    NextPageProgresses(start, service.table.rows, seen, pageSize);
    if quiet { NextPageIsSteady(service.table.rows, pages, pageSize); }
    if page.next != "" { LastIsValid(service.table.rows, seen + page.items); }
  }

  lemma AheadIsValid(rows: seq<Uuid>, after: Option<Uuid>)
    requires forall i | 0 <= i < |rows| :: ValidUuid(rows[i])
    ensures forall i | 0 <= i < |Beyond(rows, after)| :: ValidUuid(Beyond(rows, after)[i])
  {
    hide BytesLess, ValidUuid;
    var ahead := Beyond(rows, after);
    forall i | 0 <= i < |ahead| ensures ValidUuid(ahead[i]) { BeyondContents(rows, after, ahead[i]); }
  }

  /** Asks for pages until there is no next cursor, or a request fails. clock and up say of each request when it comes
      and whether the database answers it. */
  method FollowAll(service: Service, pageSize: int, quiet: bool, clock: nat -> Nanos, up: nat -> bool)
    returns (r: Result<seq<seq<Uuid>>>, requests: nat)
    requires service.table.Valid() && Cursors.Laws(service.codec)
    modifies service.table
    ensures service.table.Valid()
    // Nothing twice, nothing made up, nothing missed.
    ensures r.Ok? ==> Progress(old(service.table.rows), service.table.rows, Flatten(r.value), false)
    // Each request but the last was met; and the walk got to the end exactly if the last was met as well.
    ensures requests >= 1 && forall k | 0 <= k < requests - 1 :: Met(clock, up, k)
    ensures r.Ok? ==> |r.value| == requests && Sized(service, pageSize) && Met(clock, up, requests - 1)
    ensures Sized(service, pageSize) && Met(clock, up, requests - 1)
            && Cursorable(service, pageSize, clock(requests - 1)) ==>
              r.Ok?
    // A table that stays as it is comes back whole, in as few pages as there can be, exactly if each request is met.
    ensures r.Ok? && quiet ==>
              && service.table.rows == old(service.table.rows) && Flatten(r.value) == service.table.rows
              && pageSize >= 1 && |r.value| == PagesNeeded(|service.table.rows|, pageSize)
    ensures quiet && Sized(service, pageSize) ==>
              var needed := PagesNeeded(|old(service.table.rows)|, pageSize);
              GoesThrough(service, pageSize, clock, up, needed, requests, r.Ok?)
  {
    hide Cursors.Laws, Walking, Progress, Cursorable, Met, After, PagesNeeded, GoesThrough;
    var pages: seq<seq<Uuid>> := [];
    var encoded := "";
    var made := clock(0);
    ghost var start := service.table.rows;
    WalkStarts(service, pageSize, quiet, clock, up);
    while true
      invariant service.table.Valid() && (quiet ==> service.table.rows == start)
      invariant Walking(service, pageSize, quiet, clock, up, start, service.table.rows, pages, encoded, made)
      decreases Distance(Flatten(pages))
    {
      requests := |pages| + 1;
      ghost var before := service.table.rows;
      WalkCanFetch(service, pageSize, quiet, clock, up, start, before, pages, encoded, made);
      var now := clock(|pages|);
      var page := Fetch(service, pageSize, quiet, encoded, made, now, up(|pages|), start, pages);
      if page.Err? {
        if quiet && Sized(service, pageSize) {
          ThroughOrNot(service, pageSize, clock, up, PagesNeeded(|start|, pageSize), requests, false);
        }
        return Err(page.error), requests;
      }
      WalkGoesOn(
        service, pageSize, quiet, clock, up, start, before, service.table.rows, pages, encoded, made, page.value);
      pages := pages + [page.value.items];
      if page.value.next == "" {
        if quiet { ThroughOrNot(service, pageSize, clock, up, PagesNeeded(|start|, pageSize), requests, true); }
        return Ok(pages), requests;
      }
      encoded, made := page.value.next, now;
    }
    assert false;
  }

  /** A walk over a quiet table asks for no more pages than are needed, and gets to the end exactly if each of them is
      met, provided that its last position gets a cursor. */
  ghost predicate GoesThrough(
      service: Service, pageSize: int, clock: nat -> Nanos, up: nat -> bool, needed: nat, requests: nat, ok: bool)
  {
    && requests <= needed
    && ((forall k | 0 <= k < needed :: Cursorable(service, pageSize, clock(k))) ==>
          (ok <==> forall k | 0 <= k < needed :: Met(clock, up, k)))
  }

  lemma ThroughOrNot(
      service: Service, pageSize: int, clock: nat -> Nanos, up: nat -> bool, needed: nat, requests: nat, ok: bool)
    requires 1 <= requests <= needed && forall k | 0 <= k < requests - 1 :: Met(clock, up, k)
    requires ok ==> requests == needed && Met(clock, up, requests - 1)
    requires !ok ==> !(Met(clock, up, requests - 1) && Cursorable(service, pageSize, clock(requests - 1)))
    ensures GoesThrough(service, pageSize, clock, up, needed, requests, ok)
  {
    hide Met, Cursorable;
  }

  /** The walk so far, which is to go on: what the cursor in hand is, what has been seen, and that each request was
      met. */
  ghost predicate Walking(
      service: Service, pageSize: int, quiet: bool, clock: nat -> Nanos, up: nat -> bool,
      start: seq<Uuid>, rows: seq<Uuid>, pages: seq<seq<Uuid>>, encoded: string, made: Nanos)
  {
    && InHand(service, pageSize, encoded, made, Flatten(pages)) && Progress(start, rows, Flatten(pages), true)
    && (quiet && pageSize >= 1 ==> Steady(rows, pages, pageSize))
    && (encoded == "" <==> pages == []) && (pages != [] ==> made == clock(|pages| - 1))
    && forall k | 0 <= k < |pages| :: Met(clock, up, k)
  }

  lemma WalkStarts(service: Service, pageSize: int, quiet: bool, clock: nat -> Nanos, up: nat -> bool)
    requires service.table.Valid()
    ensures var rows := service.table.rows;
            Walking(service, pageSize, quiet, clock, up, rows, rows, [], "", clock(0))
  {
  }

  /** The next request is met exactly if it is answered and its cursor in time; on a quiet table it is needed. */
  lemma WalkCanFetch(
      service: Service, pageSize: int, quiet: bool, clock: nat -> Nanos, up: nat -> bool,
      start: seq<Uuid>, rows: seq<Uuid>, pages: seq<seq<Uuid>>, encoded: string, made: Nanos)
    requires Walking(service, pageSize, quiet, clock, up, start, rows, pages, encoded, made)
    ensures InHand(service, pageSize, encoded, made, Flatten(pages)) && Progress(start, rows, Flatten(pages), true)
    ensures quiet && pageSize >= 1 ==> Steady(rows, pages, pageSize) && |pages| + 1 <= PagesNeeded(|rows|, pageSize)
    ensures Met(clock, up, |pages|) <==> up(|pages|) && (encoded == "" || InTime(made, clock(|pages|)))
    ensures forall k | 0 <= k < |pages| :: Met(clock, up, k)
  {
    hide InHand, Progress, InTime, Steady, PagesNeeded;
    if quiet && pageSize >= 1 { MorePagesNeeded(rows, pages, pageSize); }
  }

  lemma WalkGoesOn(
      service: Service, pageSize: int, quiet: bool, clock: nat -> Nanos, up: nat -> bool,
      start: seq<Uuid>, before: seq<Uuid>, rows: seq<Uuid>, pages: seq<seq<Uuid>>, encoded: string, made: Nanos,
      page: Page)
    requires Walking(service, pageSize, quiet, clock, up, start, before, pages, encoded, made)
    requires Met(clock, up, |pages|) && (quiet ==> before == rows)
    requires After(service, pageSize, quiet, clock(|pages|), start, pages, page, rows)
    ensures var all := pages + [page.items];
            if page.next == "" then
              && Progress(start, rows, Flatten(all), false)
              && (quiet ==> Flatten(all) == rows && pageSize >= 1 && |all| == PagesNeeded(|rows|, pageSize))
            else
              && Walking(service, pageSize, quiet, clock, up, start, rows, all, page.next, clock(|pages|))
              && 0 <= Distance(Flatten(all)) < Distance(Flatten(pages))
  {
    hide Progress, InHand, Steady, InTime, PagesNeeded, Distance;
    FlattenSnoc(pages, page.items);
    if page.next == "" {
      if quiet { LastPage(rows, pages, page.items, pageSize); }
    } else {
      ProgressMovesOn(start, rows, Flatten(pages), page.items);
    }
  }

  /** While pages are still to come, one more is needed. */
  lemma MorePagesNeeded(rows: seq<Uuid>, pages: seq<seq<Uuid>>, pageSize: nat)
    requires pageSize >= 1 && Steady(rows, pages, pageSize)
    ensures |pages| + 1 <= PagesNeeded(|rows|, pageSize)
  {
    FullPages(pages, pageSize);
    if pages != [] {
      var over := |rows| - |pages| * pageSize;
      assert |rows| + pageSize - 1 == (|pages| + 1) * pageSize + (over - 1);
      DivideAtLeast(|pages| + 1, pageSize, over - 1);
    }
  }

  lemma DivideAtLeast(q: nat, d: nat, r: nat)
    requires d >= 1
    ensures (q * d + r) / d >= q
  {
    var t := (q * d + r) / d;
    assert t * d <= q * d + r < t * d + d;
    if t < q { Scale(t + 1, q, d); }
  }

  lemma ProgressMovesOn(start: seq<Uuid>, rows: seq<Uuid>, seen: seq<Uuid>, items: seq<Uuid>)
    requires Progress(start, rows, seen + items, true) && items != []
    ensures 0 <= Distance(seen + items) < Distance(seen)
  {
    DistanceShrinks(seen, items);
  }

  lemma LastPage(rows: seq<Uuid>, pages: seq<seq<Uuid>>, items: seq<Uuid>, pageSize: nat)
    requires pageSize >= 1 && Steady(rows, pages, pageSize) && Flatten(pages) + items == rows && |items| <= pageSize
    ensures |pages + [items]| == PagesNeeded(|rows|, pageSize)
  {
    FullPages(pages, pageSize);
    LastPageNumber(|rows|, pageSize, |pages|);
  }

  lemma FlattenSnoc(pages: seq<seq<Uuid>>, items: seq<Uuid>)
    ensures Flatten(pages + [items]) == Flatten(pages) + items
  {
    assert (pages + [items])[..|pages|] == pages;
  }

  lemma LastIsValid(rows: seq<Uuid>, seen: seq<Uuid>)
    requires seen != [] && (forall id | id in seen :: id in rows) && forall i | 0 <= i < |rows| :: ValidUuid(rows[i])
    ensures ValidUuid(LastOf(seen).value)
  {
    assert seen[|seen| - 1] in rows;
  }
}
