/** What a query of the command history returns, filter by filter (apps/worker/src/storage/history.ts). */
module CommandHistoryQueries {
  import opened Common
  import opened CommandHistory

  // ---------------------------------------------------------------- the order of texts

  /** The first k characters agree, and there a ends or has the smaller character. */
  predicate SmallerAt(a: string, b: string, k: nat) {
    k <= |a| && k < |b| && a[..k] == b[..k] && (k == |a| || a[k] < b[k])
  }

  /** Texts are compared like a dictionary does. */
  lemma {:induction false} LessExact(a: string, b: string)
    ensures Less(a, b) <==> exists k: nat :: SmallerAt(a, b, k)
  {
    if a == "" || b == "" {
      if b != "" { assert SmallerAt(a, b, 0); }
    } else {
      var x, y := a[1..], b[1..];
      LessExact(x, y);
      if a[0] < b[0] { assert SmallerAt(a, b, 0); }
      if a[0] == b[0] && Less(x, y) {
        var k: nat :| SmallerAt(x, y, k);
        LongerPrefix(a, b, k);
        assert SmallerAt(a, b, k + 1);
      }
      forall k: nat | SmallerAt(a, b, k) ensures Less(a, b) {
        if k > 0 {
          LongerPrefix(a, b, k - 1);
          assert SmallerAt(x, y, k - 1);
        }
      }
    }
  }

  lemma LongerPrefix(a: string, b: string, k: nat)
    requires a != "" && b != "" && k <= |a| - 1 && k <= |b| - 1
    ensures a[..k + 1] == b[..k + 1] <==> a[0] == b[0] && a[1..][..k] == b[1..][..k]
  {
    assert a[..k + 1] == [a[0]] + a[1..][..k] && b[..k + 1] == [b[0]] + b[1..][..k];
  }

  /** Not later than. */
  predicate UpTo(a: string, b: string) { a == b || Less(a, b) }

  // ---------------------------------------------------------------- what is returned

  /** The row belongs to the asking owner and meets each filter that was given. */
  predicate Meets(r: Row, q: Query) {
    && r.ownerId == q.ownerId
    && q.profileId in {"", r.profileId.GetOr("")}
    && q.sessionId in {"", r.sessionId}
    && q.contains(r)
    && (q.since == "" || UpTo(q.since, r.createdAt))
    && (q.until == "" || UpTo(r.createdAt, q.until))
  }

  /** The clauses of the statement select exactly these rows. */
  lemma MeetsIff(r: Row, q: Query)
    ensures Matches(r, q) <==> Meets(r, q)
  {
    LessTotal(r.createdAt, q.since);
    LessTotal(q.until, r.createdAt);
    hide Less;
  }

  /** Every row of a page is a row of the table that belongs to the asking owner and meets each filter
      that was given. */
  lemma PageRowsMeetFilters(t: Table, q: Query, cursor: Option<Key>, limit: nat)
    requires limit >= 1 && UniqueIds(t)
    ensures forall r :: r in List(t, q, cursor, limit).items ==>
              r in t && Meets(r, q)
  {
    PageSplits(t, q, cursor, limit);
    hide List;
    forall r | r in List(t, q, cursor, limit).items ensures r in t && Meets(r, q) {
      assert Due(t, q, cursor, r);
      MeetsIff(r, q);
    }
  }

  /** Followed to the end, a query returns every row of the owner that was present at the start and
      meets each filter that was given, and only rows of the owner that do. */
  lemma FollowedRowsAreThose(tables: seq<Table>, q: Query, limit: nat)
    requires limit >= 1 && tables != [] && Growing(tables) && Follow(tables, q, None, limit).1
    ensures var rows := Follow(tables, q, None, limit).0;
            && (forall r :: r in tables[0] && Meets(r, q) ==> r in rows)
            && forall r :: r in rows ==> r in tables[|tables| - 1] && Meets(r, q)
  {
    FollowExact(tables, q, None, limit);
    hide Follow, Matches, Meets;
    var rows := Follow(tables, q, None, limit).0;
    forall r | r in tables[0] && Meets(r, q) ensures r in rows {
      MeetsIff(r, q);
      assert Due(tables[0], q, None, r);
    }
    forall r | r in rows ensures r in tables[|tables| - 1] && Meets(r, q) {
      assert Due(tables[|tables| - 1], q, None, r);
      MeetsIff(r, q);
    }
  }

  /** The newest row comes first, and among rows of one moment the greatest id. */
  lemma NewestFirst(tables: seq<Table>, q: Query, limit: nat, i: nat, j: nat)
    requires limit >= 1 && tables != [] && Growing(tables) && Follow(tables, q, None, limit).1
    requires i < j < |Follow(tables, q, None, limit).0|
    ensures var rows := Follow(tables, q, None, limit).0;
            Less(rows[j].createdAt, rows[i].createdAt) || (rows[j].createdAt == rows[i].createdAt && Less(rows[j].id, rows[i].id))
  {
    FollowExact(tables, q, None, limit);
    hide Follow;
    DescendingAt(Follow(tables, q, None, limit).0, i, j);
  }

  /** The page size asked for, moved to the nearest allowed one; 50 when none is asked for. */
  lemma LimitExact(requested: Option<int>)
    ensures requested == None ==> Limit(requested) == 50
    ensures requested.Some? && 1 <= requested.value <= 100 ==> Limit(requested) == requested.value
    ensures requested.Some? && requested.value < 1 ==> Limit(requested) == 1
    ensures requested.Some? && requested.value > 100 ==> Limit(requested) == 100
  {
  }

  /** The batch size of a prune, likewise. */
  lemma BatchExact(requested: int)
    ensures 1 <= requested <= 1000 ==> Batch(requested) == requested
    ensures requested < 1 ==> Batch(requested) == 1
    ensures requested > 1000 ==> Batch(requested) == 1000
  {
  }

  // ---------------------------------------------------------------- the end is reached

  /** The rows behind a full page are what the next page starts from. */
  lemma NextSelects(t: Table, q: Query, cursor: Option<Key>, limit: nat)
    requires limit >= 1 && UniqueIds(t) && List(t, q, cursor, limit).hasMore
    ensures |Selected(t, q, cursor)| > limit
    ensures Selected(t, q, List(t, q, cursor, limit).nextCursor) == Selected(t, q, cursor)[limit..]
  {
    SelectedRows(t, q, cursor);
    PageSplits(t, q, cursor, limit);
    var all, page := Selected(t, q, cursor), List(t, q, cursor, limit);
    var last := page.items[limit - 1];
    assert page.items == all[..limit];
    SelectedRows(t, q, page.nextCursor);
    hide List, Selected, Matches, Before;
    forall r ensures r in all[limit..] <==> r in Selected(t, q, page.nextCursor) {
      RestIsAfter(all, limit, r);
      if r in Selected(t, q, page.nextCursor) {
        assert last in page.items && Due(t, q, cursor, last);
        if cursor.Some? { BeforeTransitive(cursor.value, KeyOf(last), KeyOf(r)); }
        assert Due(t, q, cursor, r);
      }
    }
    SuffixDescends(all, limit);
    DescendingUnique(Selected(t, q, page.nextCursor), all[limit..]);
  }

  lemma SuffixDescends(all: seq<Row>, n: nat)
    requires Descending(all) && n <= |all|
    ensures Descending(all[n..])
  {
  }

  lemma RestIsAfter(all: seq<Row>, limit: nat, r: Row)
    requires Descending(all) && 1 <= limit <= |all|
    ensures r in all[limit..] <==> r in all && Before(KeyOf(all[limit - 1]), KeyOf(r))
  {
    hide Before;
    if r in all {
      var k :| 0 <= k < |all| && all[k] == r;
      if k < limit {
        if k < limit - 1 { DescendingAt(all, k, limit - 1); }
        BeforeTotal(KeyOf(r), KeyOf(all[limit - 1]));
        forall j | limit <= j < |all| ensures all[j] != r {
          DescendingAt(all, k, j);
          BeforeTotal(KeyOf(r), KeyOf(all[j]));
        }
      } else {
        assert all[limit..][k - limit] == r;
        DescendingAt(all, limit - 1, k);
      }
    }
  }

  lemma MorePages(rows: nat, limit: nat, pages: nat)
    requires limit < rows <= limit * pages
    ensures pages > 1 && rows - limit <= limit * (pages - 1)
  {
    assert limit * pages == limit * (pages - 1) + limit;
  }

  /** On a table that does not change, one page more than there are full pages reaches the end. */
  lemma {:induction false} FollowEnds(tables: seq<Table>, q: Query, cursor: Option<Key>, limit: nat)
    requires limit >= 1 && tables != [] && UniqueIds(tables[0])
    requires forall i :: 0 <= i < |tables| ==> tables[i] == tables[0]
    requires |Selected(tables[0], q, cursor)| <= limit * |tables|
    ensures Follow(tables, q, cursor, limit).1
    decreases |tables|
  {
    var page := List(tables[0], q, cursor, limit);
    if page.hasMore {
      NextSelects(tables[0], q, cursor, limit);
      var later := tables[1..];
      MorePages(|Selected(tables[0], q, cursor)|, limit, |tables|);
      hide List, Selected;
      FollowEnds(later, q, page.nextCursor, limit);
    }
  }
}
