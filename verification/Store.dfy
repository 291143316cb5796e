/** The in-memory store: maps whose rows change in place, scanned in whatever
    order a map iteration takes. Each method refines the SQL statement of the
    same name in Tables. A new id is a parameter: a value no row has. */
module Store {
  import opened Model
  import opened Rules
  import opened Sorting
  import opened Tables

  datatype DecideResult = NotFound | AlreadyDecided | Changed(row: Row)

  /** Every filter that is set agrees with the row. */
  predicate Matches(servers: Servers, f: Filter, r: Row) {
    && (f.before == None || r.createdAt < f.before.value)
    && (f.server == "" || (if r.serverId in servers then servers[r.serverId] else "") == f.server)
    && (f.username == "" || r.username == f.username)
    && (f.context == None || f.context == Some(r.context))
    && (f.status == None || f.status == Some(r.status))
  }

  /** a comes before b in the listing. */
  predicate Newer(t: Requests, a: Id, b: Id) {
    a in t && b in t && (t[a].createdAt > t[b].createdAt || (t[a].createdAt == t[b].createdAt && a > b))
  }

  /** rows are the matching rows, newest first, ties broken by id; with a limit,
      the newest of them, the rows left out being older than those listed. */
  ghost predicate IsHistory(t: Requests, servers: Servers, f: Filter, rows: seq<Id>) {
    && (forall id :: id in rows ==> id in t && Matches(servers, f, t[id]))
    && (forall i, j :: 0 <= i < j < |rows| ==> Newer(t, rows[i], rows[j]))
    && (f.limit > 0 ==> |rows| <= f.limit)
    && (f.limit <= 0 || |rows| < f.limit ==> forall id :: id in t && Matches(servers, f, t[id]) ==> id in rows)
    && (forall id, i :: id in t && Matches(servers, f, t[id]) && id !in rows && 0 <= i < |rows| ==>
          Newer(t, rows[i], id))
  }

  lemma ListingMeans(t: Requests, servers: Servers, f: Filter, rows: seq<Id>)
    requires IsListing(rows, SelectedIds(t, servers, f), RequestKeys(t))
    ensures IsHistory(t, servers, f.(limit := 0), rows)
  {
    forall i, j | 0 <= i < j < |rows| ensures Newer(t, rows[i], rows[j]) {
      assert rows[i] in rows && rows[j] in rows;
      assert Before(RequestKeys(t)[rows[i]], RequestKeys(t)[rows[j]]);
    }
  }

  lemma CutMeans(t: Requests, servers: Servers, f: Filter, rows: seq<Id>)
    requires IsHistory(t, servers, f.(limit := 0), rows) && 0 < f.limit <= |rows|
    ensures IsHistory(t, servers, f, rows[..f.limit])
  {
    var kept, left := rows[..f.limit], rows[f.limit..];
    assert rows == kept + left;
    forall id, i | id in t && Matches(servers, f, t[id]) && id !in kept && 0 <= i < |kept|
      ensures Newer(t, kept[i], id)
    {
      assert Matches(servers, f.(limit := 0), t[id]);
      var j :| 0 <= j < |left| && left[j] == id;
      assert rows[f.limit + j] == id;
    }
    forall id | id in kept ensures id in t && Matches(servers, f, t[id]) {
      assert id in rows && Matches(servers, f.(limit := 0), t[id]);
    }
  }

  /** What the SELECT of GET /history returns. */
  lemma SelectMeans(t: Requests, servers: Servers, f: Filter)
    ensures IsHistory(t, servers, f, SelectRequests(t, servers, f))
  {
    var all := Listing(SelectedIds(t, servers, f), RequestKeys(t));
    ListingMeans(t, servers, f, all);
    if 0 < f.limit < |all| {
      CutMeans(t, servers, f, all);
    } else {
      assert forall id :: id in t ==> Matches(servers, f, t[id]) == Matches(servers, f.(limit := 0), t[id]);
    }
  }

  /** The entries of one server and the global ones, or all of them, newest first,
      ties broken by id. */
  ghost predicate IsEntryList(t: Whitelist, serverId: Option<Id>, ids: seq<Id>) {
    && (forall id :: id in ids <==>
          id in t && (serverId == None || t[id].serverId == None || t[id].serverId == serverId))
    && (forall i, j :: 0 <= i < j < |ids| ==> NewerEntry(t, ids[i], ids[j]))
  }

  predicate NewerEntry(t: Whitelist, a: Id, b: Id) {
    a in t && b in t && (t[a].createdAt > t[b].createdAt || (t[a].createdAt == t[b].createdAt && a < b))
  }

  /** What the SELECT of GET /whitelist returns. */
  lemma EntryListMeans(t: Whitelist, serverId: Option<Id>)
    ensures IsEntryList(t, serverId, SelectWhitelist(t, serverId))
  {
    var ids := SelectWhitelist(t, serverId);
    assert IsListing(ids, ScopedEntries(t, serverId), EntryKeys(t));
    forall i, j | 0 <= i < j < |ids| ensures NewerEntry(t, ids[i], ids[j]) {
      assert ids[i] in ids && ids[j] in ids;
      assert Before(EntryKeys(t)[ids[i]], EntryKeys(t)[ids[j]]);
    }
  }

  class Memory {
    var servers: Servers
    var requests: Requests
    var whitelist: Whitelist
    var blocked: Blocked

    ghost predicate Valid()
      reads this
    {
      UniqueEntries(whitelist) && UniqueIps(blocked)
    }

    constructor (servers: Servers)
      ensures Valid() && this.servers == servers
      ensures requests == map[] && whitelist == map[] && blocked == map[]
    {
      this.servers := servers;
      requests, whitelist, blocked := map[], map[], map[];
    }

    // ---- requests -------------------------------------------------------------------

    method CreateRequest(r: Row, newId: Id) returns (created: bool)
      requires newId !in requests
      modifies this`requests
      ensures created == (r.serverId in servers)
      ensures requests == if created then old(requests)[newId := r] else old(requests)
    {
      if r.serverId !in servers {
        return false;
      }
      requests := requests[newId := r];
      created := true;
    }

    method RequestById(id: Id) returns (r: Option<Row>)
      ensures r == if id in requests then Some(requests[id]) else None
    {
      r := if id in requests then Some(requests[id]) else None;
    }

    method DecideRequest(id: Id, status: Status, device: Option<Id>, now: Time) returns (r: DecideResult)
      modifies this`requests
      ensures requests == DecideRows(old(requests), id, status, device, now)
      ensures r.NotFound? <==> id !in old(requests)
      ensures r.Changed? <==>
                id in old(requests) && old(requests)[id].status == Pending && now < old(requests)[id].expiresAt
      ensures !r.Changed? ==> requests == old(requests)
      ensures r.Changed? ==>
                && r.row == old(requests)[id].(
                     status := status, decidedBy := Some(Admin), device := device, decidedAt := Some(now))
                && requests == old(requests)[id := r.row]
    {
      if id !in requests {
        return NotFound;
      }
      if requests[id].status != Pending || requests[id].expiresAt <= now {
        return AlreadyDecided;
      }
      var row := requests[id].(status := status, decidedBy := Some(Admin), device := device, decidedAt := Some(now));
      requests := requests[id := row];
      r := Changed(row);
    }

    method MarkTimeout(id: Id) returns (marked: Option<bool>)
      modifies this`requests
      ensures requests == TimeoutRows(old(requests), id)
      ensures marked.None? <==> id !in old(requests)
      ensures marked == Some(true) <==> id in old(requests) && old(requests)[id].status == Pending
      ensures requests == if marked == Some(true)
                          then old(requests)[id := old(requests)[id].(
                                 status := Timeout, decidedBy := Some(ByTimeout), decidedAt := None)]
                          else old(requests)
    {
      if id !in requests {
        return None;
      }
      if requests[id].status != Pending {
        return Some(false);
      }
      requests := requests[id := requests[id].(status := Timeout, decidedBy := Some(ByTimeout), decidedAt := None)];
      marked := Some(true);
    }

    method ListRequests(f: Filter) returns (out: seq<Id>)
      ensures IsHistory(requests, servers, f, out)
      ensures out == SelectRequests(requests, servers, f)
    {
      var key := RequestKeys(requests);
      out := [];
      var rest := requests.Keys;
      ghost var done: set<Id> := {};
      while rest != {}
        invariant rest <= requests.Keys
        invariant done == SelectedIds(requests, servers, f) - rest
        invariant IsListing(out, done, key)
        decreases |rest|
      {
        var id :| id in rest;
        rest := rest - {id};
        if Selected(servers, f, requests[id]) {
          InsertListing(out, done, id, key);
          out := Insert(out, id, key);
          done := done + {id};
        }
      }
      assert done == SelectedIds(requests, servers, f);
      ListingUnique(out, Listing(done, key), done, key);
      SelectMeans(requests, servers, f);
      if f.limit > 0 && |out| > f.limit {
        out := out[..f.limit];
      }
    }

    method CountDenials(ip: Ip, since: Time) returns (st: Stats)
      ensures IsStats(st, requests, ip, since)
    {
      st := Stats(0, None, None);
      var rest := requests.Keys;
      assert Denials(requests, ip, since) - rest == {};
      while rest != {}
        invariant rest <= requests.Keys
        invariant StatsOver(st, requests, Denials(requests, ip, since) - rest)
        decreases |rest|
      {
        var id :| id in rest;
        var r := requests[id];
        CountOne(requests, ip, since, rest, id, st);
        rest := rest - {id};
        if r.status != Denied || r.sourceIp != Some(ip) || r.decidedAt.None? || r.decidedAt.value < since {
          continue;
        }
        st := Add(st, r.decidedAt.value);
      }
      assert Denials(requests, ip, since) - rest == Denials(requests, ip, since);
    }

    // ---- whitelist ------------------------------------------------------------------

    method FindWhitelist(username: User, context: Context, serverId: Id, now: Time) returns (found: Option<Id>)
      ensures IsFound(whitelist, username, context, serverId, now, found)
    {
      var global: Option<Id> := None;
      var rest := whitelist.Keys;
      while rest != {}
        invariant rest <= whitelist.Keys
        invariant global.Some? ==>
                    global.value in whitelist && Covers(whitelist[global.value], username, context, serverId, now)
                    && whitelist[global.value].serverId.None?
        invariant forall x :: x in whitelist && x !in rest && Covers(whitelist[x], username, context, serverId, now) ==>
                                global.Some? && whitelist[x].serverId.None?
        decreases |rest|
      {
        var id :| id in rest;
        rest := rest - {id};
        var e := whitelist[id];
        if e.username != username || e.context != context || !Unexpired(e.expiresAt, now) {
          continue;
        }
        if e.serverId.None? {
          global := Some(id);
          continue;
        }
        if e.serverId.value == serverId {
          return Some(id);
        }
      }
      found := global;
    }

    method ListWhitelist(serverId: Option<Id>, now: Time) returns (out: seq<Id>)
      requires Valid()
      modifies this`whitelist
      ensures Valid()
      ensures forall id :: id in whitelist <==>
                id in old(whitelist)
                && (old(whitelist)[id].expiresAt.None? || now < old(whitelist)[id].expiresAt.value)
      ensures forall id :: id in whitelist ==> whitelist[id] == old(whitelist)[id]
      ensures IsEntryList(whitelist, serverId, out)
      ensures whitelist == DeleteExpired(old(whitelist), now)
      ensures out == SelectWhitelist(whitelist, serverId)
    {
      DropExpired(now);
      out := ListScoped(serverId);
      EntryListMeans(whitelist, serverId);
    }

    method ListScoped(serverId: Option<Id>) returns (out: seq<Id>)
      ensures out == SelectWhitelist(whitelist, serverId)
    {
      var key := EntryKeys(whitelist);
      out := [];
      var rest := whitelist.Keys;
      ghost var done: set<Id> := {};
      while rest != {}
        invariant rest <= whitelist.Keys
        invariant done == ScopedEntries(whitelist, serverId) - rest
        invariant IsListing(out, done, key)
        decreases |rest|
      {
        var id :| id in rest;
        rest := rest - {id};
        var e := whitelist[id];
        if serverId.Some? && e.serverId.Some? && e.serverId.value != serverId.value {
          continue;
        }
        InsertListing(out, done, id, key);
        out := Insert(out, id, key);
        done := done + {id};
      }
      assert done == ScopedEntries(whitelist, serverId);
      ListingUnique(out, Listing(done, key), done, key);
    }

    /** The lazy deletion: rows go while the map is being scanned. */
    method DropExpired(now: Time)
      requires Valid()
      modifies this`whitelist
      ensures Valid()
      ensures whitelist == DeleteExpired(old(whitelist), now)
    {
      var rest := whitelist.Keys;
      while rest != {}
        invariant rest <= whitelist.Keys
        invariant whitelist == map id | id in old(whitelist)
                                        && (id in rest || Unexpired(old(whitelist)[id].expiresAt, now))
                                        :: old(whitelist)[id]
        decreases |rest|
      {
        var id :| id in rest;
        rest := rest - {id};
        if !Unexpired(whitelist[id].expiresAt, now) {
          whitelist := whitelist - {id};
        }
      }
    }

    method UpsertWhitelist(e: Entry, newId: Id, now: Time) returns (id: Option<Id>, created: bool)
      requires Valid() && newId !in whitelist
      modifies this`whitelist
      ensures Valid()
      ensures id.None? <==> e.serverId.Some? && e.serverId.value !in servers
      ensures id.None? ==> whitelist == old(whitelist)
      ensures id.Some? ==> IsEntryUpsert(old(whitelist), whitelist, e, newId, now, id.value, created)
    {
      if e.serverId.Some? && e.serverId.value !in servers {
        return None, false;
      }
      var rest := whitelist.Keys;
      while rest != {}
        invariant rest <= whitelist.Keys && whitelist == old(whitelist)
        invariant forall x :: x in whitelist && x !in rest ==> !SameKey(whitelist[x], e)
        decreases |rest|
      {
        var x :| x in rest;
        rest := rest - {x};
        if SameKey(whitelist[x], e) {
          whitelist := whitelist[x := whitelist[x].(expiresAt := e.expiresAt)];
          return Some(x), false;
        }
      }
      whitelist := whitelist[newId := e.(createdAt := now)];
      return Some(newId), true;
    }

    // ---- blocked IPs ----------------------------------------------------------------

    method BlockedIpByIp(ip: Ip) returns (found: Option<Id>)
      ensures IsBlockOf(blocked, ip, found)
    {
      var rest := blocked.Keys;
      while rest != {}
        invariant rest <= blocked.Keys
        invariant forall x :: x in blocked && x !in rest ==> blocked[x].ip != ip
        decreases |rest|
      {
        var id :| id in rest;
        rest := rest - {id};
        if blocked[id].ip == ip {
          return Some(id);
        }
      }
      found := None;
    }

    method RecordBlockedIpHit(id: Id, now: Time) returns (ok: bool)
      requires Valid()
      modifies this`blocked
      ensures Valid() && ok == (id in old(blocked))
      ensures blocked == if ok
                         then old(blocked)[id := old(blocked)[id].(
                                hitCount := old(blocked)[id].hitCount + 1, lastHitAt := Some(now))]
                         else old(blocked)
    {
      if id !in blocked {
        return false;
      }
      blocked := blocked[id := blocked[id].(hitCount := blocked[id].hitCount + 1, lastHitAt := Some(now))];
      ok := true;
    }

    method UpsertBlockedIp(b: Block, newId: Id) returns (id: Id)
      requires Valid() && newId !in blocked
      modifies this`blocked
      ensures Valid() && IsMemoryBlockUpsert(old(blocked), blocked, b, newId, id)
      ensures id in blocked && blocked[id] == Rearmed(b)
    {
      var c := b.(hitCount := 0, lastHitAt := None);
      var rest := blocked.Keys;
      while rest != {}
        invariant rest <= blocked.Keys && blocked == old(blocked)
        invariant forall x :: x in blocked && x !in rest ==> blocked[x].ip != b.ip
        decreases |rest|
      {
        var x :| x in rest;
        rest := rest - {x};
        if blocked[x].ip == b.ip {
          blocked := blocked[x := c];
          return x;
        }
      }
      blocked := blocked[newId := c];
      id := newId;
    }

    method UnblockIp(id: Id, now: Time) returns (ok: bool)
      requires Valid()
      modifies this`blocked
      ensures Valid()
      ensures ok <==>
                id in old(blocked)
                && (old(blocked)[id].expiresAt.None? || now < old(blocked)[id].expiresAt.value)
      ensures blocked == if ok then old(blocked)[id := old(blocked)[id].(expiresAt := Some(now))] else old(blocked)
      ensures ok ==> !blocked[id].Active(now)
    {
      if id !in blocked || !blocked[id].Active(now) {
        return false;
      }
      blocked := blocked[id := blocked[id].(expiresAt := Some(now))];
      ok := true;
    }
  }

  lemma CountOne(t: Requests, ip: Ip, since: Time, rest: set<Id>, id: Id, st: Stats)
    requires id in rest && id in t && StatsOver(st, t, Denials(t, ip, since) - rest)
    ensures StatsOver(if IsDenial(t[id], ip, since) then Add(st, t[id].decidedAt.value) else st,
                      t, Denials(t, ip, since) - (rest - {id}))
  {
    var done := Denials(t, ip, since) - rest;
    if IsDenial(t[id], ip, since) {
      AddCounts(st, t, done, id);
      assert done + {id} == Denials(t, ip, since) - (rest - {id});
    } else {
      assert done == Denials(t, ip, since) - (rest - {id});
    }
  }
}
