/** GET /history: newest first, one page at a time. */
module History {
  import opened Model
  import opened Sorting
  import opened Tables
  import opened Store

  const DEFAULT_LIMIT := 50
  const MAX_LIMIT := 200

  datatype Page = BadRequest | Page(items: seq<Id>, nextBefore: Option<Time>)

  /** The page a query limit and a table give: one row more is asked for, and
      dropped when it comes back. */
  ghost function PageOf(t: Requests, servers: Servers, f: Filter, limit: nat): Page
    requires limit > 0
  {
    var rows := Rows(t, servers, f);
    if |rows| > limit then Page(rows[..limit], Some(t[rows[limit - 1]].createdAt)) else Page(rows, None)
  }

  /** Every matching row, newest first. */
  ghost function Rows(t: Requests, servers: Servers, f: Filter): (rows: seq<Id>)
    ensures IsListing(rows, SelectedIds(t, servers, f), RequestKeys(t))
  {
    Listing(SelectedIds(t, servers, f), RequestKeys(t))
  }

  /** The limit query parameter: absent means the default, and a cap applies. */
  function Clamp(limit: Option<int>): int {
    if limit.None? then DEFAULT_LIMIT else Min(limit.value, MAX_LIMIT)
  }

  /** One row more than the page tells whether there is a next one. */
  lemma OneRowMore(t: Requests, servers: Servers, f: Filter, n: nat, rows: seq<Id>)
    requires n > 0 && rows == SelectRequests(t, servers, f.(limit := n + 1))
    ensures forall i :: 0 <= i < |rows| ==> rows[i] in t
    ensures PageOf(t, servers, f, n)
            == if |rows| > n then Page(rows[..n], Some(t[rows[n - 1]].createdAt)) else Page(rows, None)
  {
    var all := Rows(t, servers, f);
    assert SelectedIds(t, servers, f.(limit := n + 1)) == SelectedIds(t, servers, f);
    assert rows == Take(all, n + 1);
    assert forall i :: 0 <= i < |all| ==> all[i] in all && all[i] in t;
    assert |all| > n ==> rows[..n] == all[..n];
  }

  /** At most n matching rows, the newest; a cursor exactly when a matching row is
      left out, and then it is the creation instant of the last of n. */
  ghost predicate IsPage(t: Requests, servers: Servers, f: Filter, page: Page, n: int) {
    && page.Page? && IsHistory(t, servers, f.(limit := n), page.items)
    && (page.nextBefore.Some? <==>
          exists id :: id in t && Matches(servers, f.(limit := n), t[id]) && id !in page.items)
    && (page.nextBefore.Some? ==>
          |page.items| == n > 0 && page.items[n - 1] in t && page.nextBefore == Some(t[page.items[n - 1]].createdAt))
  }

  lemma PageMeans(t: Requests, servers: Servers, f: Filter, n: nat)
    requires n > 0
    ensures IsPage(t, servers, f, PageOf(t, servers, f, n), n)
  {
    var g, rows := f.(limit := n), Rows(t, servers, f);
    SelectMeans(t, servers, g);
    assert SelectedIds(t, servers, g) == SelectedIds(t, servers, f);
    assert forall id :: id in rows <==> id in t && Matches(servers, g, t[id]);
    if |rows| > n {
      var x := rows[n];
      assert x in rows && rows[n - 1] in rows;
      assert x !in rows[..n] by {
        assert Ascending(rows, RequestKeys(t));
        assert forall i :: 0 <= i < n ==> Before(RequestKeys(t)[rows[i]], RequestKeys(t)[x]);
      }
    }
  }

  /** The handler; limit is the parsed query parameter. */
  method GetHistory(m: Memory, limit: Option<int>, f: Filter) returns (page: Page)
    ensures page.BadRequest? <==> limit.Some? && limit.value < 1
    ensures !page.BadRequest? ==>
              IsPage(m.requests, m.servers, f, page,
                     if limit.None? then 50 else if limit.value > 200 then 200 else limit.value)
    ensures !page.BadRequest? ==> page == PageOf(m.requests, m.servers, f, Clamp(limit))
  {
    var n := DEFAULT_LIMIT;
    if limit.Some? {
      if limit.value < 1 {
        return BadRequest;
      }
      n := Min(limit.value, MAX_LIMIT);
    }
    var rows := m.ListRequests(f.(limit := n + 1));
    OneRowMore(m.requests, m.servers, f, n, rows);
    var next: Option<Time> := None;
    if |rows| > n {
      rows := rows[..n];
      next := Some(m.requests[rows[|rows| - 1]].createdAt);
    }
    page := Page(rows, next);
    PageMeans(m.requests, m.servers, f, n);
  }

  // ---- following next_before ------------------------------------------------------------

  lemma NextPageSmaller(t: Requests, servers: Servers, f: Filter, limit: nat)
    requires limit > 0 && |Rows(t, servers, f)| > limit
    ensures var x := t[Rows(t, servers, f)[limit - 1]].createdAt;
            SelectedIds(t, servers, f.(before := Some(x))) < SelectedIds(t, servers, f)
  {
    var rows := Rows(t, servers, f);
    var last := rows[limit - 1];
    var ids, next := SelectedIds(t, servers, f), SelectedIds(t, servers, f.(before := Some(t[last].createdAt)));
    assert last in rows && last in ids && last !in next;
    forall id | id in next ensures id in ids {
      assert f.before.Some? ==> t[last].createdAt < f.before.value;
    }
  }

  /** All pages one after the other; the walk ends because each page leaves fewer rows. */
  ghost function Walk(t: Requests, servers: Servers, f: Filter, limit: nat): seq<Id>
    requires limit > 0
    decreases SelectedIds(t, servers, f)
  {
    var page := PageOf(t, servers, f, limit);
    if page.nextBefore.None? then page.items
    else
      NextPageSmaller(t, servers, f, limit);
      page.items + Walk(t, servers, f.(before := page.nextBefore), limit)
  }

  lemma AscendingConcat(a: seq<Id>, b: seq<Id>, key: map<Id, Key>)
    requires Ascending(a, key) && Ascending(b, key)
    requires forall i, j :: 0 <= i < |a| && 0 <= j < |b| ==> Before(key[a[i]], key[b[j]])
    ensures Ascending(a + b, key)
  {
  }

  /** Pages never overlap: the walk is strictly newest first, over matching rows only. */
  lemma {:induction false} WalkDescends(t: Requests, servers: Servers, f: Filter, limit: nat)
    requires limit > 0
    ensures Ascending(Walk(t, servers, f, limit), RequestKeys(t))
    ensures forall id :: id in Walk(t, servers, f, limit) ==> id in SelectedIds(t, servers, f)
    decreases SelectedIds(t, servers, f)
  {
    var rows, key := Rows(t, servers, f), RequestKeys(t);
    assert forall i :: 0 <= i < |rows| ==> rows[i] in rows;
    if |rows| > limit {
      var x := t[rows[limit - 1]].createdAt;
      var f' := f.(before := Some(x));
      NextPageSmaller(t, servers, f, limit);
      WalkDescends(t, servers, f', limit);
      var rest := Walk(t, servers, f', limit);
      forall i, j | 0 <= i < limit && 0 <= j < |rest| ensures Before(key[rows[..limit][i]], key[rest[j]]) {
        assert rest[j] in rest && t[rest[j]].createdAt < x;
        assert i < limit - 1 ==> Before(key[rows[i]], key[rows[limit - 1]]);
      }
      AscendingConcat(rows[..limit], rest, key);
      assert Walk(t, servers, f, limit) == rows[..limit] + rest;
    }
  }

  /** No two rows of the same creation instant straddle a page boundary. */
  ghost predicate NoTieAcrossPages(t: Requests, rows: seq<Id>, limit: nat)
    requires limit > 0 && forall i :: 0 <= i < |rows| ==> rows[i] in t
    decreases |rows|
  {
    |rows| > limit ==>
      t[rows[limit]].createdAt < t[rows[limit - 1]].createdAt && NoTieAcrossPages(t, rows[limit..], limit)
  }

  /** After a clean boundary the next page starts right after this one. */
  lemma NextRowsAreSuffix(t: Requests, servers: Servers, f: Filter, limit: nat)
    requires limit > 0 && |Rows(t, servers, f)| > limit
    requires t[Rows(t, servers, f)[limit]].createdAt < t[Rows(t, servers, f)[limit - 1]].createdAt
    ensures Rows(t, servers, f.(before := Some(t[Rows(t, servers, f)[limit - 1]].createdAt)))
            == Rows(t, servers, f)[limit..]
  {
    var rows, key := Rows(t, servers, f), RequestKeys(t);
    var x := t[rows[limit - 1]].createdAt;
    var ids, next := SelectedIds(t, servers, f), SelectedIds(t, servers, f.(before := Some(x)));
    assert rows[limit - 1] in rows;
    forall i | 0 <= i < |rows| ensures rows[i] in next <==> i >= limit {
      assert rows[i] in rows && rows[limit] in rows;
      assert i < limit - 1 ==> Before(key[rows[i]], key[rows[limit - 1]]);
      assert i > limit ==> Before(key[rows[limit]], key[rows[i]]);
    }
    assert rows == rows[..limit] + rows[limit..];
    forall id ensures id in rows[limit..] <==> id in next {
      assert id in next ==> id in ids && id in rows;
    }
    assert Ascending(rows[limit..], key);
    ListingUnique(Rows(t, servers, f.(before := Some(x))), rows[limit..], next, key);
  }

  /** Following next_before gives exactly the matching rows, in order, when and
      only when no tie straddles a page boundary. */
  lemma {:induction false} WalkCompleteExactly(t: Requests, servers: Servers, f: Filter, limit: nat)
    requires limit > 0
    ensures forall i :: 0 <= i < |Rows(t, servers, f)| ==> Rows(t, servers, f)[i] in t
    ensures Walk(t, servers, f, limit) == Rows(t, servers, f) <==> NoTieAcrossPages(t, Rows(t, servers, f), limit)
    decreases SelectedIds(t, servers, f)
  {
    var rows := Rows(t, servers, f);
    assert forall i :: 0 <= i < |rows| ==> rows[i] in rows;
    if |rows| > limit {
      var f' := f.(before := Some(t[rows[limit - 1]].createdAt));
      NextPageSmaller(t, servers, f, limit);
      assert rows == rows[..limit] + rows[limit..];
      if t[rows[limit]].createdAt < t[rows[limit - 1]].createdAt {
        NextRowsAreSuffix(t, servers, f, limit);
        WalkCompleteExactly(t, servers, f', limit);
        assert Walk(t, servers, f, limit)[limit..] == Walk(t, servers, f', limit);
      } else {
        WalkDescends(t, servers, f', limit);
        var walk := Walk(t, servers, f, limit);
        assert walk == rows[..limit] + Walk(t, servers, f', limit);
        var rest := Walk(t, servers, f', limit);
        assert |walk| > limit ==> walk[limit] == rest[0] && rest[0] in rest;
        assert rows[limit] !in SelectedIds(t, servers, f');
      }
    }
  }

  lemma {:induction false} DistinctTimesHaveNoTies(t: Requests, rows: seq<Id>, limit: nat)
    requires limit > 0 && Ascending(rows, RequestKeys(t)) && forall i :: 0 <= i < |rows| ==> rows[i] in t
    requires forall i, j :: 0 <= i < j < |rows| ==> t[rows[i]].createdAt != t[rows[j]].createdAt
    ensures NoTieAcrossPages(t, rows, limit)
    decreases |rows|
  {
    if |rows| > limit {
      assert Before(RequestKeys(t)[rows[limit - 1]], RequestKeys(t)[rows[limit]]);
      DistinctTimesHaveNoTies(t, rows[limit..], limit);
    }
  }

  /** With distinct creation instants the walk is exactly the matching rows. */
  lemma WalkCompleteWhenDistinct(t: Requests, servers: Servers, f: Filter, limit: nat)
    requires limit > 0
    requires forall a, b :: a in t && b in t && a != b ==> t[a].createdAt != t[b].createdAt
    ensures Walk(t, servers, f, limit) == Rows(t, servers, f)
  {
    var rows := Rows(t, servers, f);
    assert forall i :: 0 <= i < |rows| ==> rows[i] in rows;
    forall i, j | 0 <= i < j < |rows| ensures t[rows[i]].createdAt != t[rows[j]].createdAt {
      assert Before(RequestKeys(t)[rows[i]], RequestKeys(t)[rows[j]]);
    }
    DistinctTimesHaveNoTies(t, rows, limit);
    WalkCompleteExactly(t, servers, f, limit);
  }

  /** Rows created at or after the cursor while the app is walking change none of
      the pages still to come. */
  lemma {:induction false} NewerRowsDoNotDisturb(t: Requests, t': Requests, servers: Servers, f: Filter, limit: nat)
    requires limit > 0 && f.before.Some?
    requires forall id :: id in t ==> id in t' && t'[id] == t[id]
    requires forall id :: id in t' && id !in t ==> t'[id].createdAt >= f.before.value
    ensures PageOf(t', servers, f, limit) == PageOf(t, servers, f, limit)
    ensures Walk(t', servers, f, limit) == Walk(t, servers, f, limit)
    decreases SelectedIds(t, servers, f)
  {
    var ids := SelectedIds(t, servers, f);
    assert SelectedIds(t', servers, f) == ids;
    var rows := Rows(t, servers, f);
    assert Ascending(rows, RequestKeys(t')) by {
      assert forall i :: 0 <= i < |rows| ==> rows[i] in rows && RequestKeys(t')[rows[i]] == RequestKeys(t)[rows[i]];
    }
    ListingUnique(Rows(t', servers, f), rows, ids, RequestKeys(t'));
    assert forall i :: 0 <= i < |rows| ==> rows[i] in rows;
    var page := PageOf(t, servers, f, limit);
    if page.nextBefore.Some? {
      NextPageSmaller(t, servers, f, limit);
      assert page.nextBefore.value < f.before.value;
      NewerRowsDoNotDisturb(t, t', servers, f.(before := page.nextBefore), limit);
    }
  }
}
