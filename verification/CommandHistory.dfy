/** The command history table: keyset paging and retention (apps/worker/src/storage/history.ts). */
module CommandHistory {
  import opened Common

  const MAX_COMMAND_HISTORY := 100_000

  datatype Row = Row(id: string, ownerId: string, sessionId: string, profileId: Option<string>, command: string, createdAt: string)

  type Table = seq<Row>

  // ---------------------------------------------------------------- the order of rows

  /** Comparison of texts by their characters. */
  predicate Less(a: string, b: string) {
    b != "" && (a == "" || a[0] < b[0] || (a[0] == b[0] && Less(a[1..], b[1..])))
  }

  lemma {:induction false} LessTotal(a: string, b: string)
    ensures Less(a, b) || Less(b, a) || a == b
    ensures !(Less(a, b) && Less(b, a)) && !Less(a, a)
  {
    if a != "" { LessTotal(a[1..], a[1..]); }
    if a != "" && b != "" {
      LessTotal(a[1..], b[1..]);
      assert a == [a[0]] + a[1..] && b == [b[0]] + b[1..];
    }
  }

  lemma {:induction false} LessTransitive(a: string, b: string, c: string)
    requires Less(a, b) && Less(b, c)
    ensures Less(a, c)
  {
    if a != "" && a[0] == b[0] && b[0] == c[0] { LessTransitive(a[1..], b[1..], c[1..]); }
  }

  datatype Key = Key(createdAt: string, id: string)

  function KeyOf(r: Row): Key { Key(r.createdAt, r.id) }

  /** `ORDER BY created_at DESC, id DESC`: a is listed before b. */
  predicate Before(a: Key, b: Key) {
    Less(b.createdAt, a.createdAt) || (a.createdAt == b.createdAt && Less(b.id, a.id))
  }

  lemma BeforeTotal(a: Key, b: Key)
    ensures Before(a, b) || Before(b, a) || a == b
    ensures !(Before(a, b) && Before(b, a)) && !Before(a, a)
  {
    LessTotal(a.createdAt, b.createdAt);
    LessTotal(a.id, b.id);
  }

  lemma BeforeTransitive(a: Key, b: Key, c: Key)
    requires Before(a, b) && Before(b, c)
    ensures Before(a, c)
  {
    LessTotal(b.createdAt, b.createdAt);
    if Less(b.createdAt, a.createdAt) && Less(c.createdAt, b.createdAt) { LessTransitive(c.createdAt, b.createdAt, a.createdAt); }
    if a.createdAt == b.createdAt && b.createdAt == c.createdAt { LessTransitive(c.id, b.id, a.id); }
  }

  /** Listed in strictly descending order: in particular no row twice. */
  ghost predicate Descending(rows: seq<Row>) {
    forall i, j :: 0 <= i < j < |rows| ==> Before(KeyOf(rows[i]), KeyOf(rows[j]))
  }

  ghost predicate UniqueIds(t: Table) {
    forall i, j :: 0 <= i < j < |t| ==> t[i].id != t[j].id
  }

  function Insert(r: Row, rows: seq<Row>): seq<Row> {
    if rows == [] then [r]
    else if Before(KeyOf(r), KeyOf(rows[0])) then [r] + rows
    else [rows[0]] + Insert(r, rows[1..])
  }

  function Sort(t: seq<Row>): seq<Row> {
    if t == [] then [] else Insert(t[0], Sort(t[1..]))
  }

  lemma {:induction false} InsertSorts(r: Row, rows: seq<Row>)
    requires Descending(rows) && forall x :: x in rows ==> x.id != r.id
    ensures Descending(Insert(r, rows)) && |Insert(r, rows)| == |rows| + 1
    ensures forall x :: x in Insert(r, rows) <==> x == r || x in rows
  {
    if rows != [] {
      BeforeTotal(KeyOf(r), KeyOf(rows[0]));
      var out := Insert(r, rows);
      if Before(KeyOf(r), KeyOf(rows[0])) {
        forall j | 0 < j < |out| ensures Before(KeyOf(r), KeyOf(out[j])) {
          if j > 1 { BeforeTransitive(KeyOf(r), KeyOf(rows[0]), KeyOf(rows[j - 1])); }
        }
      } else {
        InsertSorts(r, rows[1..]);
        var rest := Insert(r, rows[1..]);
        forall j | 0 <= j < |rest| ensures Before(KeyOf(rows[0]), KeyOf(rest[j])) {
          assert rest[j] == r || rest[j] in rows[1..];
        }
      }
    }
  }

  lemma {:induction false} SortSorts(t: seq<Row>)
    requires UniqueIds(t)
    ensures Descending(Sort(t)) && |Sort(t)| == |t| && forall x :: x in Sort(t) <==> x in t
  {
    if t != [] {
      SortSorts(t[1..]);
      InsertSorts(t[0], Sort(t[1..]));
      assert t == [t[0]] + t[1..];
    }
  }

  /** A descending listing is determined by its rows. */
  lemma {:induction false} DescendingUnique(a: seq<Row>, b: seq<Row>)
    requires Descending(a) && Descending(b) && forall x :: x in a <==> x in b
    ensures a == b
  {
    if a == [] {
      NonEmptyHasRow(b);
    } else {
      assert a[0] in b && b != [] && b[0] in a;
      HeadsAgree(a, b);
      assert a == [a[0]] + a[1..] && b == [b[0]] + b[1..];
      forall x | x in a[1..] ensures x in b[1..] { TailDiffers(a, x); assert x in b; }
      forall x | x in b[1..] ensures x in a[1..] { TailDiffers(b, x); assert x in a; }
      DescendingUnique(a[1..], b[1..]);
    }
  }

  lemma HeadsAgree(a: seq<Row>, b: seq<Row>)
    requires Descending(a) && Descending(b) && a != [] && b != [] && a[0] in b && b[0] in a
    ensures a[0] == b[0]
  {
    BeforeTotal(KeyOf(a[0]), KeyOf(b[0]));
    HeadFirst(a, b[0]);
    HeadFirst(b, a[0]);
  }

  lemma HeadFirst(rows: seq<Row>, x: Row)
    requires Descending(rows) && x in rows
    ensures x == rows[0] || Before(KeyOf(rows[0]), KeyOf(x))
  {
  }

  lemma NonEmptyHasRow(rows: seq<Row>)
    ensures rows == [] || exists x :: x in rows
  {
    if rows != [] { assert rows[0] in rows; }
  }

  lemma TailDiffers(a: seq<Row>, x: Row)
    requires Descending(a) && a != [] && x in a[1..]
    ensures x != a[0]
  {
    BeforeTotal(KeyOf(x), KeyOf(x));
    var j :| 0 <= j < |a[1..]| && a[1..][j] == x;
    assert Before(KeyOf(a[0]), KeyOf(a[j + 1]));
  }

  function Filter(t: seq<Row>, keep: Row -> bool): (r: seq<Row>)
    ensures forall x :: x in r <==> x in t && keep(x)
    ensures |r| <= |t|
  {
    if t == [] then []
    else
      assert t == [t[0]] + t[1..];
      (if keep(t[0]) then [t[0]] else []) + Filter(t[1..], keep)
  }

  lemma {:induction false} FilterUnique(t: seq<Row>, keep: Row -> bool)
    requires UniqueIds(t)
    ensures UniqueIds(Filter(t, keep))
  {
    if t != [] {
      FilterUnique(t[1..], keep);
      var rest := Filter(t[1..], keep);
      forall j | 0 <= j < |rest| ensures rest[j].id != t[0].id {
        assert rest[j] in t[1..];
      }
    }
  }

  // ---------------------------------------------------------------- a page

  /** The optional filters of a query; an empty text filters nothing.  `contains` is the LIKE clause. */
  datatype Query = Query(ownerId: string, profileId: string, sessionId: string, contains: Row -> bool, since: string, until: string)

  predicate Matches(r: Row, q: Query) {
    && r.ownerId == q.ownerId
    && (q.profileId != "" ==> r.profileId == Some(q.profileId))
    && (q.sessionId != "" ==> r.sessionId == q.sessionId)
    && q.contains(r)
    && (q.since != "" ==> !Less(r.createdAt, q.since))
    && (q.until != "" ==> !Less(q.until, r.createdAt))
  }

  datatype Page = Page(items: seq<Row>, nextCursor: Option<Key>, hasMore: bool)

  function Limit(requested: Option<int>): (n: nat)
    ensures 1 <= n <= 100
  {
    Min(Max(requested.GetOr(50), 1), 100)
  }

  /** The rows a page query selects, before LIMIT. */
  function Selected(t: Table, q: Query, cursor: Option<Key>): seq<Row> {
    Sort(Filter(t, r => Matches(r, q) && (cursor.None? || Before(cursor.value, KeyOf(r)))))
  }

  function List(t: Table, q: Query, cursor: Option<Key>, limit: nat): Page
    requires limit >= 1
  {
    var all := Selected(t, q, cursor);
    var rows := all[..Min(|all|, limit + 1)];
    var hasMore := |rows| > limit;
    var items := rows[..Min(|rows|, limit)];
    Page(items, if hasMore then Some(KeyOf(items[|items| - 1])) else None, hasMore)
  }

  lemma SelectedRows(t: Table, q: Query, cursor: Option<Key>)
    requires UniqueIds(t)
    ensures Descending(Selected(t, q, cursor))
    ensures forall r :: r in Selected(t, q, cursor) <==>
              r in t && Matches(r, q) && (cursor.None? || Before(cursor.value, KeyOf(r)))
  {
    var keep := r => Matches(r, q) && (cursor.None? || Before(cursor.value, KeyOf(r)));
    FilterUnique(t, keep);
    SortSorts(Filter(t, keep));
  }

  // ---------------------------------------------------------------- following the cursor

  /** The rows received by following `nextCursor` while the table goes through the given states, and
      whether the end was reached. */
  function Follow(tables: seq<Table>, q: Query, cursor: Option<Key>, limit: nat): (seq<Row>, bool)
    requires limit >= 1
    decreases |tables|
  {
    if tables == [] then ([], false)
    else
      var page := List(tables[0], q, cursor, limit);
      if !page.hasMore then (page.items, true)
      else
        var (rest, done) := Follow(tables[1..], q, page.nextCursor, limit);
        (page.items + rest, done)
  }

  /** Rows are only inserted, anywhere, between the pages. */
  ghost predicate Growing(tables: seq<Table>) {
    && (forall i :: 0 <= i < |tables| ==> UniqueIds(tables[i]))
    && forall i, j :: 0 <= i <= j < |tables| ==> forall r :: r in tables[i] ==> r in tables[j]
  }

  /** A row that a query from this cursor may return. */
  predicate Due(t: Table, q: Query, cursor: Option<Key>, r: Row) {
    r in t && Matches(r, q) && (cursor.None? || Before(cursor.value, KeyOf(r)))
  }

  /** One page: its rows are due and descending, and every other due row comes after its last. */
  lemma PageSplits(t: Table, q: Query, cursor: Option<Key>, limit: nat)
    requires limit >= 1 && UniqueIds(t)
    ensures var page := List(t, q, cursor, limit);
            && Descending(page.items) && |page.items| <= limit && (forall r :: r in page.items ==> Due(t, q, cursor, r))
            && (page.hasMore ==> |page.items| == limit && page.nextCursor == Some(KeyOf(page.items[limit - 1])))
            && forall r :: Due(t, q, cursor, r) ==>
                 r in page.items || (page.hasMore && Before(page.nextCursor.value, KeyOf(r)))
  {
    hide Selected, Before, Matches, Descending, UniqueIds;
    SelectedRows(t, q, cursor);
    var all, page := Selected(t, q, cursor), List(t, q, cursor, limit);
    assert page.items == all[..Min(|all|, limit)];
    DescendingPrefix(all, Min(|all|, limit));
    forall r | Due(t, q, cursor, r)
      ensures r in page.items || (page.hasMore && Before(page.nextCursor.value, KeyOf(r)))
    {
      assert r in all;
      var k :| 0 <= k < |all| && all[k] == r;
      if k < limit { assert page.items[k] == r; } else { DescendingAt(all, limit - 1, k); }
    }
  }

  lemma DescendingPrefix(rows: seq<Row>, n: nat)
    requires Descending(rows) && n <= |rows|
    ensures Descending(rows[..n])
  {
  }

  lemma DescendingAt(rows: seq<Row>, i: nat, j: nat)
    requires Descending(rows) && i < j < |rows|
    ensures Before(KeyOf(rows[i]), KeyOf(rows[j]))
  {
  }

  /** Following the cursor to the end yields every matching row that was present at the start exactly
      once, in descending order, and nothing that does not match. */
  lemma {:induction false} FollowExact(tables: seq<Table>, q: Query, cursor: Option<Key>, limit: nat)
    requires limit >= 1 && tables != [] && Growing(tables) && Follow(tables, q, cursor, limit).1
    ensures var rows := Follow(tables, q, cursor, limit).0;
            && Descending(rows)
            && (forall r :: Due(tables[0], q, cursor, r) ==> r in rows)
            && (forall r :: r in rows ==> Due(tables[|tables| - 1], q, cursor, r))
    decreases |tables|
  {
    hide List, Matches, Before;
    var page := List(tables[0], q, cursor, limit);
    PageSplits(tables[0], q, cursor, limit);
    if page.hasMore {
      var last, later := page.items[limit - 1], tables[1..];
      assert later != [];
      FollowExact(later, q, page.nextCursor, limit);
      var rest := Follow(later, q, page.nextCursor, limit).0;
      PagesJoin(page.items, rest, last);
      forall r | Due(tables[0], q, cursor, r) ensures r in page.items + rest {
        if r !in page.items { assert Due(later[0], q, page.nextCursor, r); }
      }
      forall r | r in rest ensures Due(tables[|tables| - 1], q, cursor, r) {
        assert Due(later[|later| - 1], q, page.nextCursor, r);
        assert last in page.items;
        if cursor.Some? { BeforeTransitive(cursor.value, KeyOf(last), KeyOf(r)); }
      }
    }
  }

  lemma PagesJoin(items: seq<Row>, rest: seq<Row>, last: Row)
    requires Descending(items) && Descending(rest) && items != [] && last == items[|items| - 1]
    requires forall r :: r in rest ==> Before(KeyOf(last), KeyOf(r))
    ensures Descending(items + rest)
  {
    forall i, j | 0 <= i < |items| && 0 <= j < |rest| ensures Before(KeyOf(items[i]), KeyOf(rest[j])) {
      assert rest[j] in rest;
      if i < |items| - 1 { BeforeTransitive(KeyOf(items[i]), KeyOf(last), KeyOf(rest[j])); }
    }
  }

  /** On a table that does not change the pages are exactly the matching rows, cut up. */
  lemma FollowUnchanged(tables: seq<Table>, q: Query, limit: nat)
    requires limit >= 1 && tables != [] && Growing(tables) && Follow(tables, q, None, limit).1
    requires forall i :: 0 <= i < |tables| ==> tables[i] == tables[0]
    ensures Follow(tables, q, None, limit).0 == Selected(tables[0], q, None)
  {
    FollowExact(tables, q, None, limit);
    SelectedRows(tables[0], q, None);
    hide Follow, Selected, Matches, Before;
    forall r ensures r in Follow(tables, q, None, limit).0 <==> r in Selected(tables[0], q, None) {
      assert Due(tables[0], q, None, r) <==> r in Selected(tables[0], q, None);
    }
    DescendingUnique(Follow(tables, q, None, limit).0, Selected(tables[0], q, None));
  }

  // ---------------------------------------------------------------- retention

  function IsOwnedBy(ownerId: string): Row -> bool { (r: Row) => r.ownerId == ownerId }

  function OwnedBy(t: Table, ownerId: string): seq<Row> { Filter(t, IsOwnedBy(ownerId)) }

  function Batch(requested: int): (n: nat)
    ensures 1 <= n <= 1000
  {
    Min(Max(requested, 1), 1000)
  }

  /** The ids selected by `LIMIT ? OFFSET 100000`. */
  function Surplus(t: Table, ownerId: string, batch: nat): seq<Row> {
    var newest := Sort(OwnedBy(t, ownerId));
    if |newest| <= MAX_COMMAND_HISTORY then [] else newest[MAX_COMMAND_HISTORY..Min(|newest|, MAX_COMMAND_HISTORY + batch)]
  }

  function Survives(t: Table, ownerId: string, batch: nat): Row -> bool {
    var ids := set s | s in Surplus(t, ownerId, batch) :: s.id;
    (r: Row) => r.id !in ids
  }

  function Prune(t: Table, ownerId: string, batch: nat): Table { Filter(t, Survives(t, ownerId, batch)) }

  class CommandHistoryRepository {
    var table: Table
    var sessions: set<(string, string)>

    ghost predicate Valid()
      reads this
    {
      UniqueIds(table)
    }

    constructor (sessions: set<(string, string)>)
      ensures Valid() && table == [] && this.sessions == sessions
    {
      this.sessions, table := sessions, [];
    }

    /** The guarded insert; the id is drawn at random and the command has been redacted. */
    method Append(row: Row) returns (inserted: bool)
      requires Valid() && forall k :: 0 <= k < |table| ==> table[k].id != row.id
      modifies this`table
      ensures Valid() && inserted == ((row.sessionId, row.ownerId) in sessions)
      ensures table == if inserted then old(table) + [row] else old(table)
    {
      if (row.sessionId, row.ownerId) !in sessions { return false; }
      table := table + [row];
      return true;
    }

    method ListPage(q: Query, cursor: Option<Key>, requested: Option<int>) returns (page: Page)
      requires Valid()
      ensures page == List(table, q, cursor, Limit(requested))
    {
      var limit := Limit(requested);
      var selected := Selected(table, q, cursor);
      var results := selected[..Min(|selected|, limit + 1)];
      var hasMore := |results| > limit;
      var rows := results[..Min(|results|, limit)];
      var nextCursor := if hasMore then Some(KeyOf(rows[|rows| - 1])) else None;
      return Page(rows, nextCursor, hasMore);
    }

    method PruneOwner(ownerId: string, batchSize: int) returns (changes: nat)
      requires Valid()
      modifies this`table
      ensures Valid() && table == Prune(old(table), ownerId, Batch(batchSize))
      ensures changes == |old(table)| - |table|
    {
      var before := |table|;
      FilterUnique(table, Survives(table, ownerId, Batch(batchSize)));
      table := Prune(table, ownerId, Batch(batchSize));
      changes := before - |table|;
    }
  }

  lemma OwnedSorted(t: Table, ownerId: string)
    requires UniqueIds(t)
    ensures var s := Sort(OwnedBy(t, ownerId));
            Descending(s) && |s| == |OwnedBy(t, ownerId)| && forall r :: r in s <==> r in t && r.ownerId == ownerId
  {
    FilterUnique(t, IsOwnedBy(ownerId));
    SortSorts(OwnedBy(t, ownerId));
  }

  lemma SameIdSameRow(t: Table, a: Row, b: Row)
    requires UniqueIds(t) && a in t && b in t && a.id == b.id
    ensures a == b
  {
  }

  lemma PruneRows(t: Table, ownerId: string, batch: nat)
    requires UniqueIds(t)
    ensures UniqueIds(Prune(t, ownerId, batch))
    ensures forall r :: r in Prune(t, ownerId, batch) <==> r in t && r !in Surplus(t, ownerId, batch)
  {
    FilterUnique(t, Survives(t, ownerId, batch));
    OwnedSorted(t, ownerId);
    var gone := Surplus(t, ownerId, batch);
    var s := Sort(OwnedBy(t, ownerId));
    forall g | g in gone ensures g in t {
      assert g in s;
    }
    forall r ensures r in Prune(t, ownerId, batch) <==> r in t && r !in gone {
      if r in t && r.id in (set g | g in gone :: g.id) {
        var g :| g in gone && g.id == r.id;
        SameIdSameRow(t, g, r);
      }
    }
  }

  /** A descending listing with a stretch cut out. */
  lemma CutOut(s: seq<Row>, a: nat, b: nat)
    requires Descending(s) && a <= b <= |s|
    ensures Descending(s[..a] + s[b..])
    ensures forall r :: r in s[..a] + s[b..] <==> r in s && r !in s[a..b]
  {
    forall r ensures r in s[..a] + s[b..] <==> r in s && r !in s[a..b] {
      assert s == s[..a] + s[a..b] + s[b..];
      if r in s[..a] && r in s[a..b] {
        var i :| 0 <= i < a && s[i] == r;
        var j :| a <= j < b && s[j] == r;
        Distinct(s, i, j);
      }
      if r in s[b..] && r in s[a..b] {
        var i :| a <= i < b && s[i] == r;
        var j :| b <= j < |s| && s[j] == r;
        Distinct(s, i, j);
      }
    }
  }

  lemma Distinct(s: seq<Row>, i: nat, j: nat)
    requires Descending(s) && i < j < |s|
    ensures s[i] != s[j]
  {
    BeforeTotal(KeyOf(s[i]), KeyOf(s[i]));
    assert Before(KeyOf(s[i]), KeyOf(s[j]));
  }

  /** One prune drops exactly the owner's rows at positions 100000 to 100000 + batch of the newest-first
      order, and no row of anyone else. */
  lemma PruneExact(t: Table, ownerId: string, batch: nat)
    requires UniqueIds(t)
    ensures UniqueIds(Prune(t, ownerId, batch))
    ensures forall r :: r in t && r.ownerId != ownerId ==> r in Prune(t, ownerId, batch)
    ensures var s := Sort(OwnedBy(t, ownerId));
            Sort(OwnedBy(Prune(t, ownerId, batch), ownerId)) ==
            (if |s| <= MAX_COMMAND_HISTORY then s
             else s[..MAX_COMMAND_HISTORY] + s[Min(|s|, MAX_COMMAND_HISTORY + batch)..])
  {
    hide Sort, OwnedBy, Prune;
    PruneRows(t, ownerId, batch);
    OwnedSorted(t, ownerId);
    OwnedSorted(Prune(t, ownerId, batch), ownerId);
    var s, after := Sort(OwnedBy(t, ownerId)), Sort(OwnedBy(Prune(t, ownerId, batch), ownerId));
    if |s| <= MAX_COMMAND_HISTORY {
      DescendingUnique(after, s);
    } else {
      var b := Min(|s|, MAX_COMMAND_HISTORY + batch);
      CutOut(s, MAX_COMMAND_HISTORY, b);
      DescendingUnique(after, s[..MAX_COMMAND_HISTORY] + s[b..]);
    }
  }

  /** An append followed by its prune keeps exactly the newest 100000 rows of the owner. */
  lemma PairKeepsNewest(t: Table, row: Row, batch: nat)
    requires UniqueIds(t + [row]) && batch >= 1 && |OwnedBy(t, row.ownerId)| <= MAX_COMMAND_HISTORY
    ensures var s := Sort(OwnedBy(t + [row], row.ownerId));
            Sort(OwnedBy(Prune(t + [row], row.ownerId, batch), row.ownerId)) == s[..Min(|s|, MAX_COMMAND_HISTORY)]
  {
    hide *;
    PruneExact(t + [row], row.ownerId, batch);
    OwnedSorted(t + [row], row.ownerId);
    OwnedAppend(t, row, row.ownerId);
    var s := Sort(OwnedBy(t + [row], row.ownerId));
    if |s| <= MAX_COMMAND_HISTORY {
      assert s[..|s|] == s;
    } else {
      assert s[|s|..] == [] && s[..MAX_COMMAND_HISTORY] + [] == s[..MAX_COMMAND_HISTORY];
    }
  }

  lemma {:induction false} FilterAppend(t: seq<Row>, r: Row, keep: Row -> bool)
    ensures Filter(t + [r], keep) == Filter(t, keep) + if keep(r) then [r] else []
  {
    hide Filter;
    FirstFiltered(t, keep);
    FirstFiltered(t + [r], keep);
    if t == [] {
      assert (t + [r])[1..] == t;
    } else {
      FilterAppend(t[1..], r, keep);
      assert (t + [r])[1..] == t[1..] + [r];
    }
  }

  lemma FirstFiltered(t: seq<Row>, keep: Row -> bool)
    ensures Filter(t, keep) == if t == [] then [] else (if keep(t[0]) then [t[0]] else []) + Filter(t[1..], keep)
  {
  }

  lemma OwnedAppend(t: Table, row: Row, ownerId: string)
    ensures OwnedBy(t + [row], ownerId) == OwnedBy(t, ownerId) + if row.ownerId == ownerId then [row] else []
  {
    hide Filter;
    FilterAppend(t, row, IsOwnedBy(ownerId));
  }

  datatype Event = Appended(row: Row) | Pruned(ownerId: string, batchSize: int)

  function After(t: Table, events: seq<Event>): Table {
    if events == [] then t
    else
      var before := After(t, events[..|events| - 1]);
      match events[|events| - 1]
      case Appended(row) => before + [row]
      case Pruned(ownerId, batchSize) => Prune(before, ownerId, Batch(batchSize))
  }

  /** Appends of the owner whose prune has not run yet. */
  function Outstanding(events: seq<Event>, ownerId: string): int {
    if events == [] then 0
    else
      var before := Outstanding(events[..|events| - 1], ownerId);
      match events[|events| - 1]
      case Appended(row) => if row.ownerId == ownerId then before + 1 else before
      case Pruned(owner, _) => if owner == ownerId then before - 1 else before
  }

  /** Ids are never reused, and a prune of the owner follows an append of its own. */
  ghost predicate Interleaved(t: Table, events: seq<Event>, ownerId: string) {
    forall n :: 0 <= n <= |events| ==> UniqueIds(After(t, events[..n])) && Outstanding(events[..n], ownerId) >= 0
  }

  /** For any interleaving of append-then-prune pairs the owner has at most 100000 rows and the ones whose
      prune has not run yet. */
  lemma {:induction false} RetentionBound(t: Table, events: seq<Event>, ownerId: string)
    requires Interleaved(t, events, ownerId) && |OwnedBy(t, ownerId)| <= MAX_COMMAND_HISTORY
    ensures |OwnedBy(After(t, events), ownerId)| <= MAX_COMMAND_HISTORY + Outstanding(events, ownerId)
  {
    if events != [] {
      var last := |events| - 1;
      var before := events[..last];
      forall n | 0 <= n <= |before| ensures before[..n] == events[..n] {}
      RetentionBound(t, before, ownerId);
      assert events[..|events|] == events && Outstanding(events, ownerId) >= 0;
      assert UniqueIds(After(t, events[..last]));
      match events[last]
      case Appended(row) => OwnedAppend(After(t, before), row, ownerId);
      case Pruned(owner, batchSize) => PruneCounts(After(t, before), owner, Batch(batchSize), ownerId);
    }
  }

  lemma PruneCounts(t: Table, pruned: string, batch: nat, ownerId: string)
    requires UniqueIds(t) && batch >= 1
    ensures var m, n := |OwnedBy(t, ownerId)|, |OwnedBy(Prune(t, pruned, batch), ownerId)|;
            n <= m && (pruned == ownerId && m > MAX_COMMAND_HISTORY ==> n < m)
  {
    hide Sort, OwnedBy, Prune;
    PruneExact(t, pruned, batch);
    OwnedSorted(t, ownerId);
    OwnedSorted(Prune(t, pruned, batch), ownerId);
    if pruned != ownerId {
      var s, after := Sort(OwnedBy(t, ownerId)), Sort(OwnedBy(Prune(t, pruned, batch), ownerId));
      PruneRows(t, pruned, batch);
      DescendingUnique(after, s);
    }
  }
}
