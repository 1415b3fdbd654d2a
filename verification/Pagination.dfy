/**
 Keyset pagination: pages of rows in descending (created_at, id) order, chained by cursors.

 A row is represented by its sort key. `created_at` is a timestamptz and counts microseconds;
 a cursor is printed from a JavaScript `Date` and keeps milliseconds only. The text encoding
 of a cursor (ISO date, base64url) is taken to be invertible.
 */
module Pagination {
  import opened Forest
  import opened Ordering

  const MICROS_PER_MILLI: int := 1000

  datatype Key = Key(createdAt: int, id: Id) {
    function Milli(): int {
      createdAt / MICROS_PER_MILLI
    }
  }

  datatype Cursor = Cursor(createdMs: int, id: Id)

  /** What a client sends back: a cursor it was given, or text that does not decode. */
  datatype SentCursor = Absent | Undecodable | Sent(cursor: Cursor)

  datatype Page<T, C> = Page(data: seq<T>, limit: nat, count: nat, hasMore: bool, nextCursor: Option<C>)

  predicate Less(a: Key, b: Key) {
    a.createdAt < b.createdAt || (a.createdAt == b.createdAt && a.id < b.id)
  }

  function Encode(k: Key): Cursor {
    Cursor(k.Milli(), k.id)
  }

  /** `decodeCursor`: text that does not decode counts as no cursor. */
  function Decode(c: SentCursor): Option<Cursor> {
    if c.Sent? then Some(c.cursor) else None
  }

  /** (created_at, id) < (CAST(:cc AS timestamptz), CAST(:ci AS uuid)) */
  predicate Below(k: Key, c: Cursor) {
    Less(k, Key(c.createdMs * MICROS_PER_MILLI, c.id))
  }

  /** ORDER BY created_at DESC, id DESC */
  function Descending(): (Key, Key) -> bool {
    (a: Key, b: Key) => a == b || Less(b, a)
  }

  function BuildPage<T, C>(rows: seq<T>, limit: nat, toCursor: T -> C): (p: Page<T, C>)
    requires limit >= 1
    ensures p.data <= rows && p.count == |p.data| <= limit
    ensures p.hasMore <==> |p.data| < |rows|
    ensures p.nextCursor.Some? <==> p.hasMore
    ensures p.hasMore ==> |p.data| == limit && p.nextCursor.value == toCursor(p.data[limit - 1])
  {
    var hasMore := |rows| > limit;
    var data := if hasMore then rows[..limit] else rows;
    var nextCursor := if hasMore then Some(toCursor(data[|data| - 1])) else None;
    Page(data, limit, |data|, hasMore, nextCursor)
  }

  function Filter(rows: seq<Key>, c: Option<Cursor>): seq<Key> {
    if rows == [] then []
    else (if c.None? || Below(rows[0], c.value) then [rows[0]] else []) + Filter(rows[1..], c)
  }

  function Take<T>(s: seq<T>, n: nat): seq<T> {
    if |s| <= n then s else s[..n]
  }

  /** The rows after the cursor, in listing order. */
  function Listing(rows: seq<Key>, c: Option<Cursor>): seq<Key> {
    OrderBy(Filter(rows, c), Descending())
  }

  /** One list request over the matching rows of a table. */
  function FetchPage(rows: seq<Key>, limit: nat, c: Option<Cursor>): Page<Key, Cursor>
    requires limit >= 1
  {
    BuildPage(Take(Listing(rows, c), limit + 1), limit, Encode)
  }

  // ---------------------------------------------------------------------------
  // Listings

  /** Ids are primary keys: no two rows of a table share one. */
  ghost predicate DistinctKeys(rows: seq<Key>) {
    forall i, j :: 0 <= i < j < |rows| ==> rows[i].id != rows[j].id
  }

  ghost predicate StrictlyDescending(s: seq<Key>) {
    forall i, j :: 0 <= i < j < |s| ==> Less(s[j], s[i])
  }

  lemma {:induction false} FilterMember(rows: seq<Key>, c: Option<Cursor>, k: Key)
    ensures k in Filter(rows, c) <==> k in rows && (c.Some? ==> Below(k, c.value))
  {
    if rows != [] {
      FilterMember(rows[1..], c, k);
      assert rows == [rows[0]] + rows[1..];
    }
  }

  lemma {:induction false} FilterDistinct(rows: seq<Key>, c: Option<Cursor>)
    requires DistinctKeys(rows)
    ensures DistinctKeys(Filter(rows, c))
  {
    if rows != [] {
      FilterDistinct(rows[1..], c);
      forall k | k in Filter(rows[1..], c) ensures k.id != rows[0].id {
        FilterMember(rows[1..], c, k);
      }
    }
  }

  /** A listing holds exactly the rows below the cursor, in strictly descending order. */
  lemma ListingExact(rows: seq<Key>, c: Option<Cursor>)
    requires DistinctKeys(rows)
    ensures StrictlyDescending(Listing(rows, c))
    ensures forall k :: k in Listing(rows, c) <==> k in rows && (c.Some? ==> Below(k, c.value))
  {
    var raw, s := Filter(rows, c), Listing(rows, c);
    FilterDistinct(rows, c);
    OrderBySorts(raw, Descending());
    SameMembers(raw, s);
    ReorderedDistinct(raw, s);
    forall i, j | 0 <= i < j < |s| ensures Less(s[j], s[i]) {
      assert Descending()(s[i], s[j]);
    }
    forall k ensures k in s <==> k in rows && (c.Some? ==> Below(k, c.value)) {
      FilterMember(rows, c, k);
    }
  }

  /** Strictly descending sequences with the same rows are equal. */
  lemma {:induction false} DescendingUnique(a: seq<Key>, b: seq<Key>)
    requires StrictlyDescending(a) && StrictlyDescending(b) && forall k :: k in a <==> k in b
    ensures a == b
  {
    assert |a| > 0 ==> a[0] in a;
    assert |b| > 0 ==> b[0] in b;
    if a != [] && b != [] {
      forall k ensures k in a[1..] <==> k in b[1..] {
        assert k in a <==> k == a[0] || k in a[1..];
        assert k in b <==> k == b[0] || k in b[1..];
      }
      DescendingUnique(a[1..], b[1..]);
    }
  }

  /** The rows of a listing from the first one below the cursor on. */
  function DropTo(s: seq<Key>, c: Cursor): (rest: seq<Key>)
    ensures |rest| <= |s|
    ensures StrictlyDescending(s) ==> StrictlyDescending(rest)
  {
    if s == [] || Below(s[0], c) then s else DropTo(s[1..], c)
  }

  lemma {:induction false} DropToMember(s: seq<Key>, c: Cursor, k: Key)
    requires StrictlyDescending(s)
    ensures k in DropTo(s, c) <==> k in s && Below(k, c)
  {
    if s != [] && !Below(s[0], c) {
      DropToMember(s[1..], c, k);
      assert s == [s[0]] + s[1..];
    }
  }

  /** A cursor never lies above the row it was made from. */
  lemma EncodeNotAbove(k: Key)
    ensures !Below(k, Encode(k))
    ensures forall j :: Below(j, Encode(k)) ==> Less(j, k)
  {
  }

  /** Asking for the rows below a cursor is dropping the head of the listing. */
  lemma ListingBelow(rows: seq<Key>, c: Option<Cursor>, k: Key)
    requires DistinctKeys(rows) && k in Listing(rows, c)
    ensures Listing(rows, Some(Encode(k))) == DropTo(Listing(rows, c), Encode(k))
  {
    var s, next := Listing(rows, c), Listing(rows, Some(Encode(k)));
    ListingExact(rows, c);
    ListingExact(rows, Some(Encode(k)));
    EncodeNotAbove(k);
    var rest := DropTo(s, Encode(k));
    forall j ensures j in next <==> j in rest {
      DropToMember(s, Encode(k), j);
    }
    DescendingUnique(next, rest);
  }

  // ---------------------------------------------------------------------------
  // Walking the pages of an unchanging table

  lemma {:induction false} DropToShrinks(s: seq<Key>, m: nat)
    requires StrictlyDescending(s) && m < |s|
    ensures |DropTo(s, Encode(s[m]))| < |s| - m
  {
    assert !Below(s[0], Encode(s[m]));
    if m > 0 {
      DropToShrinks(s[1..], m - 1);
    }
  }

  /** All rows returned by following `nextCursor` from cursor `c` until it is null. */
  function Walk(rows: seq<Key>, limit: nat, c: Option<Cursor>): seq<Key>
    requires limit >= 1 && DistinctKeys(rows)
    decreases |Listing(rows, c)|
  {
    var p := FetchPage(rows, limit, c);
    if p.nextCursor.None? then p.data
    else
      NextIsShorter(rows, limit, c);
      p.data + Walk(rows, limit, p.nextCursor)
  }

  /** A page is the head of the listing, and its cursor that of its last row. */
  lemma PageOfListing(rows: seq<Key>, limit: nat, c: Option<Cursor>)
    requires limit >= 1
    ensures var p, s := FetchPage(rows, limit, c), Listing(rows, c);
      if |s| <= limit then p.data == s && p.nextCursor.None?
      else p.data == s[..limit] && p.nextCursor == Some(Encode(s[limit - 1]))
  {
  }

  lemma NextIsShorter(rows: seq<Key>, limit: nat, c: Option<Cursor>)
    requires limit >= 1 && DistinctKeys(rows) && FetchPage(rows, limit, c).hasMore
    ensures var next := FetchPage(rows, limit, c).nextCursor;
      && |Listing(rows, c)| > limit
      && next == Some(Encode(Listing(rows, c)[limit - 1]))
      && Listing(rows, next) == DropTo(Listing(rows, c), next.value)
      && |Listing(rows, next)| <= |Listing(rows, c)| - limit
  {
    var s := Listing(rows, c);
    ListingExact(rows, c);
    ListingBelow(rows, c, s[limit - 1]);
    DropToShrinks(s, limit - 1);
  }

  /** The walk seen from its listing: a page, then the pages of what the cursor leaves. */
  function PagesOf(s: seq<Key>, limit: nat): seq<Key>
    requires limit >= 1 && StrictlyDescending(s)
    decreases |s|
  {
    if |s| <= limit then s
    else
      DropToShrinks(s, limit - 1);
      s[..limit] + PagesOf(DropTo(s, Encode(s[limit - 1])), limit)
  }

  lemma {:induction false} WalkIsPages(rows: seq<Key>, limit: nat, c: Option<Cursor>)
    requires limit >= 1 && DistinctKeys(rows)
    ensures StrictlyDescending(Listing(rows, c))
    ensures Walk(rows, limit, c) == PagesOf(Listing(rows, c), limit)
    decreases |Listing(rows, c)|
  {
    var s := Listing(rows, c);
    ListingExact(rows, c);
    WalkUnfold(rows, limit, c);
    if |s| > limit {
      WalkIsPages(rows, limit, Some(Encode(s[limit - 1])));
    }
  }

  lemma WalkUnfold(rows: seq<Key>, limit: nat, c: Option<Cursor>)
    requires limit >= 1 && DistinctKeys(rows)
    ensures var s := Listing(rows, c);
      if |s| <= limit then Walk(rows, limit, c) == s
      else
        var next := Some(Encode(s[limit - 1]));
        && Walk(rows, limit, c) == s[..limit] + Walk(rows, limit, next)
        && Listing(rows, next) == DropTo(s, next.value) && |Listing(rows, next)| < |s|
  {
    PageOfListing(rows, limit, c);
    if |Listing(rows, c)| > limit {
      NextIsShorter(rows, limit, c);
    }
  }

  lemma {:induction false} PagesDescend(s: seq<Key>, limit: nat)
    requires limit >= 1 && StrictlyDescending(s)
    ensures StrictlyDescending(PagesOf(s, limit))
    ensures forall k :: k in PagesOf(s, limit) ==> k in s
    ensures |PagesOf(s, limit)| <= |s|
    decreases |s|
  {
    if |s| > limit {
      var c := Encode(s[limit - 1]);
      var left := DropTo(s, c);
      DropToShrinks(s, limit - 1);
      PagesDescend(left, limit);
      var rest := PagesOf(left, limit);
      forall j | 0 <= j < |rest| ensures Less(rest[j], s[limit - 1]) && rest[j] in s {
        assert rest[j] in rest;
        DropToMember(s, c, rest[j]);
        EncodeNotAbove(s[limit - 1]);
      }
    }
  }

  /** Rows come in strictly descending order, so none is repeated; none is invented. */
  lemma WalkDescends(rows: seq<Key>, limit: nat, c: Option<Cursor>)
    requires limit >= 1 && DistinctKeys(rows)
    ensures StrictlyDescending(Walk(rows, limit, c))
    ensures forall k :: k in Walk(rows, limit, c) ==> k in rows && (c.Some? ==> Below(k, c.value))
  {
    WalkIsPages(rows, limit, c);
    PagesDescend(Listing(rows, c), limit);
    ListingExact(rows, c);
  }

  /** At every page boundary the first row of the next page lies below the cursor of the last row. */
  ghost predicate BoundariesClear(s: seq<Key>, limit: nat)
    requires limit >= 1
    decreases |s|
  {
    |s| > limit ==> Below(s[limit], Encode(s[limit - 1])) && BoundariesClear(s[limit..], limit)
  }

  lemma {:induction false} DropToExact(s: seq<Key>, m: nat, c: Cursor)
    requires StrictlyDescending(s) && m < |s| && (m > 0 ==> !Below(s[m - 1], c))
    ensures Below(s[m], c) ==> DropTo(s, c) == s[m..]
    ensures !Below(s[m], c) ==> |DropTo(s, c)| < |s| - m
  {
    assert m > 0 ==> !Below(s[0], c);
    if m > 0 {
      DropToExact(s[1..], m - 1, c);
      assert s[1..][m - 1..] == s[m..];
    }
  }

  lemma {:induction false} PagesCompleteIff(s: seq<Key>, limit: nat)
    requires limit >= 1 && StrictlyDescending(s)
    ensures PagesOf(s, limit) == s <==> BoundariesClear(s, limit)
    decreases |s|
  {
    if |s| > limit {
      var c := Encode(s[limit - 1]);
      var left := DropTo(s, c);
      DropToShrinks(s, limit - 1);
      DropToExact(s, limit, c);
      assert s == s[..limit] + s[limit..];
      PagesDescend(left, limit);
      if Below(s[limit], c) {
        PagesCompleteIff(s[limit..], limit);
        SameTail(s[..limit], PagesOf(left, limit), s[limit..]);
      } else {
        assert |PagesOf(s, limit)| < |s|;
      }
    }
  }

  lemma SameTail(a: seq<Key>, b: seq<Key>, c: seq<Key>)
    ensures a + b == a + c <==> b == c
  {
    if a + b == a + c {
      assert b == (a + b)[|a|..] && c == (a + c)[|a|..];
    }
  }

  /**
   The walk returns the whole listing exactly when, at every page boundary, the first row of
   the next page lies below the millisecond cursor of the last row returned.
   */
  lemma WalkCompleteIff(rows: seq<Key>, limit: nat)
    requires limit >= 1 && DistinctKeys(rows)
    ensures Walk(rows, limit, None) == Listing(rows, None) <==> BoundariesClear(Listing(rows, None), limit)
  {
    WalkIsPages(rows, limit, None);
    PagesCompleteIff(Listing(rows, None), limit);
  }

  /** `k` is found by a page that ends in `j`: it is below the cursor `j` leaves. */
  predicate Apart(j: Key, k: Key) {
    Less(k, j) ==> Below(k, Encode(j))
  }

  /** An older row is lost exactly when it shares the millisecond and is neither on its start nor smaller by id. */
  lemma ApartIff(j: Key, k: Key)
    requires Less(k, j)
    ensures Apart(j, k) <==>
      j.Milli() != k.Milli() || (k.createdAt % MICROS_PER_MILLI == 0 && k.id < j.id)
  {
  }

  lemma {:induction false} ApartClears(s: seq<Key>, limit: nat)
    requires limit >= 1 && StrictlyDescending(s)
    requires forall j, k :: j in s && k in s ==> Apart(j, k)
    ensures BoundariesClear(s, limit)
    decreases |s|
  {
    if |s| > limit {
      assert s[limit - 1] in s && s[limit] in s;
      ApartClears(s[limit..], limit);
    }
  }

  /** The walk is complete for every page size when all stamps are whole milliseconds. */
  lemma WalkCompleteAligned(rows: seq<Key>, limit: nat)
    requires limit >= 1 && DistinctKeys(rows)
    requires forall k :: k in rows ==> k.createdAt % MICROS_PER_MILLI == 0
    ensures Walk(rows, limit, None) == Listing(rows, None)
  {
    ListingExact(rows, None);
    ApartClears(Listing(rows, None), limit);
    WalkCompleteIff(rows, limit);
  }

  /** The walk is complete for every page size when no two rows share a millisecond. */
  lemma WalkCompleteSpaced(rows: seq<Key>, limit: nat)
    requires limit >= 1 && DistinctKeys(rows)
    requires forall j, k :: j in rows && k in rows && j != k ==> j.Milli() != k.Milli()
    ensures Walk(rows, limit, None) == Listing(rows, None)
  {
    ListingExact(rows, None);
    ApartClears(Listing(rows, None), limit);
    WalkCompleteIff(rows, limit);
  }

  /** Each row lies below the cursor of the row before it. */
  ghost predicate NeighboursClear(s: seq<Key>) {
    forall j :: 0 < j < |s| ==> Below(s[j], Encode(s[j - 1]))
  }

  lemma {:induction false} NeighboursBoundaries(s: seq<Key>, limit: nat)
    requires limit >= 1
    ensures NeighboursClear(s) ==> BoundariesClear(s, limit)
    ensures limit == 1 && BoundariesClear(s, limit) ==> NeighboursClear(s)
    decreases |s|
  {
    if |s| > limit {
      var rest := s[limit..];
      NeighboursBoundaries(rest, limit);
      if NeighboursClear(s) {
        forall j | 0 < j < |rest| ensures Below(rest[j], Encode(rest[j - 1])) {
          assert rest[j] == s[j + limit] && rest[j - 1] == s[j + limit - 1];
        }
      }
      if limit == 1 && BoundariesClear(s, limit) {
        forall j | 0 < j < |s| ensures Below(s[j], Encode(s[j - 1])) {
          if j > 1 {
            assert s[j] == rest[j - 1] && s[j - 1] == rest[j - 2];
          }
        }
      }
    }
  }

  /** No page size loses a row exactly when every row lies below the cursor of the row before it. */
  lemma EveryLimitCompleteIff(rows: seq<Key>)
    requires DistinctKeys(rows)
    ensures (forall limit: nat :: limit >= 1 ==> Walk(rows, limit, None) == Listing(rows, None)) <==>
      NeighboursClear(Listing(rows, None))
  {
    var s := Listing(rows, None);
    forall limit: nat | limit >= 1
      ensures Walk(rows, limit, None) == s <==> BoundariesClear(s, limit)
      ensures NeighboursClear(s) ==> BoundariesClear(s, limit)
    {
      WalkCompleteIff(rows, limit);
      NeighboursBoundaries(s, limit);
    }
    WalkCompleteIff(rows, 1);
    NeighboursBoundaries(s, 1);
  }

  /** Two rows half a millisecond apart: with one row per page the older one is never returned. */
  lemma WalkCanDropRow()
    ensures var rows := [Key(1500, 1), Key(1200, 2)];
      Listing(rows, None) == rows && Walk(rows, 1, None) == [Key(1500, 1)]
  {
    var rows := [Key(1500, 1), Key(1200, 2)];
    ListingExact(rows, None);
    DescendingUnique(Listing(rows, None), rows);
    WalkIsPages(rows, 1, None);
    assert DropTo(rows, Encode(rows[0])) == DropTo(rows[1..], Encode(rows[0])) ==
      DropTo(rows[1..][1..], Encode(rows[0])) == [];
    assert PagesOf(rows, 1) == rows[..1] + PagesOf([], 1);
  }

  /** A row the walk misses shares its millisecond with a newer row that ends a page. */
  lemma {:induction false} PagesMiss(s: seq<Key>, limit: nat, k: Key)
    requires limit >= 1 && StrictlyDescending(s) && k in s && k !in PagesOf(s, limit)
    ensures exists j :: j in PagesOf(s, limit) && Less(k, j) && j.Milli() == k.Milli()
    decreases |s|
  {
    if |s| > limit {
      var j := s[limit - 1];
      var left := DropTo(s, Encode(j));
      DropToShrinks(s, limit - 1);
      DropToMember(s, Encode(j), k);
      assert s == s[..limit] + s[limit..];
      if k in left {
        PagesMiss(left, limit, k);
        var i :| i in PagesOf(left, limit) && Less(k, i) && i.Milli() == k.Milli();
        assert i in PagesOf(s, limit);
      } else {
        assert j in s[..limit];
        assert j in PagesOf(s, limit);
      }
    }
  }

  // ---------------------------------------------------------------------------
  // Walking the pages of a table that changes between requests

  /**
   The rows returned by successive requests when request `i` finds the rows `tables[i]`, and
   whether the last request answered without a next cursor.
   */
  function Visit(tables: seq<seq<Key>>, limit: nat, c: Option<Cursor>): (seq<Key>, bool)
    requires limit >= 1
  {
    if tables == [] then ([], false)
    else
      var p := FetchPage(tables[0], limit, c);
      if p.nextCursor.None? then (p.data, true)
      else
        var (rest, done) := Visit(tables[1..], limit, p.nextCursor);
        (p.data + rest, done)
  }

  ghost predicate AllDistinct(tables: seq<seq<Key>>) {
    forall i :: 0 <= i < |tables| ==> DistinctKeys(tables[i])
  }

  lemma PageExact(rows: seq<Key>, limit: nat, c: Option<Cursor>)
    requires limit >= 1 && DistinctKeys(rows)
    ensures var p := FetchPage(rows, limit, c);
      && StrictlyDescending(p.data)
      && (forall k :: k in p.data ==> k in rows && (c.Some? ==> Below(k, c.value)))
      && (p.nextCursor.None? ==> p.data == Listing(rows, c))
      && (p.nextCursor.Some? ==>
            && |p.data| == limit
            && p.nextCursor.value == Encode(p.data[limit - 1])
            && forall k :: k in rows && (c.Some? ==> Below(k, c.value)) && k !in p.data ==> Less(k, p.data[limit - 1]))
  {
    var s := Listing(rows, c);
    ListingExact(rows, c);
    var p := FetchPage(rows, limit, c);
    if |s| > limit {
      assert Take(s, limit + 1)[..limit] == s[..limit];
      assert s == s[..limit] + s[limit..];
      assert forall k :: k in s[limit..] ==> Less(k, s[limit - 1]);
    }
  }

  lemma DescendingConcat(a: seq<Key>, b: seq<Key>)
    requires StrictlyDescending(a) && StrictlyDescending(b)
    requires forall k :: k in b ==> a != [] && Less(k, a[|a| - 1])
    ensures StrictlyDescending(a + b)
  {
    forall i, j | 0 <= i < |a| && 0 <= j < |b| ensures Less(b[j], a[i]) {
      assert b[j] in b;
    }
  }

  /** Whatever happens between requests, rows come in strictly descending order below the cursor. */
  lemma {:induction false} VisitDescends(tables: seq<seq<Key>>, limit: nat, c: Option<Cursor>)
    requires limit >= 1 && AllDistinct(tables)
    ensures StrictlyDescending(Visit(tables, limit, c).0)
    ensures forall k :: k in Visit(tables, limit, c).0 ==> c.Some? ==> Below(k, c.value)
  {
    if tables != [] {
      var p := FetchPage(tables[0], limit, c);
      PageExact(tables[0], limit, c);
      if p.nextCursor.Some? {
        VisitDescends(tables[1..], limit, p.nextCursor);
        var last := p.data[limit - 1];
        var rest := Visit(tables[1..], limit, p.nextCursor).0;
        EncodeNotAbove(last);
        assert last in p.data;
        assert forall k :: k in rest ==> Less(k, last);
        DescendingConcat(p.data, rest);
        assert Visit(tables, limit, c).0 == p.data + rest;
      }
    }
  }

  /**
   A row present in every table that is asked, and apart from every other row of them, is
   returned by a walk that ends, and by VisitDescends only once. Rows may be inserted and
   deleted freely between the requests.
   */
  lemma {:induction false} VisitFinds(tables: seq<seq<Key>>, limit: nat, c: Option<Cursor>, k: Key)
    requires limit >= 1 && AllDistinct(tables)
    requires forall i :: 0 <= i < |tables| ==> k in tables[i] && forall j :: j in tables[i] ==> Apart(j, k)
    requires c.Some? ==> Below(k, c.value)
    ensures Visit(tables, limit, c).1 ==> k in Visit(tables, limit, c).0
  {
    if tables != [] {
      var p := FetchPage(tables[0], limit, c);
      PageExact(tables[0], limit, c);
      ListingExact(tables[0], c);
      if p.nextCursor.Some? {
        var last := p.data[limit - 1];
        assert last in p.data;
        if k !in p.data {
          assert Apart(last, k);
          VisitFinds(tables[1..], limit, p.nextCursor, k);
        }
      }
    }
  }

  /** A row that matches throughout a finished walk is returned exactly once. */
  lemma VisitExactlyOnce(tables: seq<seq<Key>>, limit: nat, k: Key)
    requires limit >= 1 && AllDistinct(tables)
    requires forall i :: 0 <= i < |tables| ==> k in tables[i] && forall j :: j in tables[i] ==> Apart(j, k)
    ensures Visit(tables, limit, None).1 ==> multiset(Visit(tables, limit, None).0)[k] == 1
  {
    VisitFinds(tables, limit, None, k);
    VisitDescends(tables, limit, None);
    DistinctOnce(Visit(tables, limit, None).0, k);
  }

  // Rows inserted above the cursor, and rows deleted anywhere

  /** Between requests nothing new appears below the cursor the walk has reached. */
  ghost predicate NothingNewBelow(tables: seq<seq<Key>>, limit: nat, c: Option<Cursor>)
    requires limit >= 1
  {
    |tables| <= 1 ||
    var next := FetchPage(tables[0], limit, c).nextCursor;
    next.Some? ==>
      && (forall k :: k in tables[1] && Below(k, next.value) ==> k in tables[0])
      && NothingNewBelow(tables[1..], limit, next)
  }

  lemma {:induction false} SubsequenceIsShorter(a: seq<Key>, b: seq<Key>)
    requires StrictlyDescending(a) && StrictlyDescending(b) && forall k :: k in a ==> k in b
    ensures |a| <= |b|
    decreases |b|
  {
    if a != [] {
      assert a[0] in a && a[0] in b;
      assert b == [b[0]] + b[1..];
      var rest := if a[0] == b[0] then a[1..] else a;
      forall k | k in rest ensures k in b[1..] {
        assert k in a;
      }
      SubsequenceIsShorter(rest, b[1..]);
    }
  }

  lemma ListingShrinks(rows: seq<Key>, rows': seq<Key>, c: Cursor)
    requires DistinctKeys(rows) && DistinctKeys(rows') && forall k :: k in rows' && Below(k, c) ==> k in rows
    ensures |Listing(rows', Some(c))| <= |Listing(rows, Some(c))|
  {
    ListingExact(rows, Some(c));
    ListingExact(rows', Some(c));
    SubsequenceIsShorter(Listing(rows', Some(c)), Listing(rows, Some(c)));
  }

  lemma PagesLeft(rows: nat, pages: nat, limit: nat)
    requires limit < rows <= pages * limit
    ensures pages > 1 && rows - limit <= (pages - 1) * limit
  {
  }

  /** Then the walk ends, within as many requests as the rows first found below the cursor fill pages. */
  lemma {:induction false} VisitEnds(tables: seq<seq<Key>>, limit: nat, c: Option<Cursor>)
    requires limit >= 1 && AllDistinct(tables) && NothingNewBelow(tables, limit, c)
    requires tables != [] && |Listing(tables[0], c)| <= |tables| * limit
    ensures Visit(tables, limit, c).1
  {
    var p := FetchPage(tables[0], limit, c);
    if p.nextCursor.Some? {
      NextIsShorter(tables[0], limit, c);
      PagesLeft(|Listing(tables[0], c)|, |tables|, limit);
      ListingShrinks(tables[0], tables[1], p.nextCursor.value);
      VisitEnds(tables[1..], limit, p.nextCursor);
    }
  }

  /**
   While rows are inserted only above the cursor and deleted anywhere, a walk that makes enough
   requests for the rows first found ends, in strictly descending order, and returns exactly once every
   row that is there throughout and apart from the others.
   */
  lemma StableWalk(tables: seq<seq<Key>>, limit: nat)
    requires limit >= 1 && AllDistinct(tables) && NothingNewBelow(tables, limit, None)
    requires tables != [] && |Listing(tables[0], None)| <= |tables| * limit
    ensures Visit(tables, limit, None).1 && StrictlyDescending(Visit(tables, limit, None).0)
    ensures forall k ::
      (forall i :: 0 <= i < |tables| ==> k in tables[i] && forall j :: j in tables[i] ==> Apart(j, k)) ==>
      multiset(Visit(tables, limit, None).0)[k] == 1
  {
    VisitEnds(tables, limit, None);
    VisitDescends(tables, limit, None);
    forall k | forall i :: 0 <= i < |tables| ==> k in tables[i] && forall j :: j in tables[i] ==> Apart(j, k)
      ensures multiset(Visit(tables, limit, None).0)[k] == 1
    {
      VisitExactlyOnce(tables, limit, k);
    }
  }

  /** Every row that is new is newer than all rows there were. */
  ghost predicate OnlyNewer(rows: seq<Key>, rows': seq<Key>) {
    forall j, k :: k in rows' && k !in rows && j in rows ==> Less(j, k)
  }

  ghost predicate NewRowsAreNewest(tables: seq<seq<Key>>) {
    forall i :: 0 < i < |tables| ==> OnlyNewer(tables[i - 1], tables[i])
  }

  /** In particular inserts of newest rows are above every cursor. */
  lemma {:induction false} NewestAreNotBelow(tables: seq<seq<Key>>, limit: nat, c: Option<Cursor>)
    requires limit >= 1 && AllDistinct(tables) && NewRowsAreNewest(tables)
    ensures NothingNewBelow(tables, limit, c)
  {
    if |tables| > 1 {
      var p := FetchPage(tables[0], limit, c);
      PageExact(tables[0], limit, c);
      if p.nextCursor.Some? {
        var last := p.data[limit - 1];
        assert last in p.data;
        EncodeNotAbove(last);
        assert OnlyNewer(tables[0], tables[1]) && last in tables[0];
        forall k | k in tables[1] && Below(k, p.nextCursor.value) ensures k in tables[0] {
          assert Less(k, last) && !Less(last, k);
        }
        assert forall i :: 0 <= i < |tables[1..]| ==> tables[1..][i] == tables[i + 1];
        NewestAreNotBelow(tables[1..], limit, p.nextCursor);
      }
    }
  }
}
