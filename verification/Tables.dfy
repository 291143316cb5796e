/** What each SQL statement on the tables means: a relation between the table
    before and the table after, or the row a SELECT returns. */
module Tables {
  import opened Model
  import opened Sorting

  type Requests = map<Id, Row>
  type Whitelist = map<Id, Entry>
  type Blocked = map<Id, Block>

  /** UPDATE ... WHERE id = $1 AND status = 'pending' AND expires_at > now. */
  predicate Decidable(r: Row, now: Time) {
    r.status == Pending && r.expiresAt > now
  }

  function Decided(r: Row, status: Status, device: Option<Id>, now: Time): Row {
    r.(status := status, decidedBy := Some(Admin), device := device, decidedAt := Some(now))
  }

  function DecideRows(t: Requests, id: Id, status: Status, device: Option<Id>, now: Time): (t': Requests)
    ensures t' == if id in t && Decidable(t[id], now) then t[id := Decided(t[id], status, device, now)] else t
  {
    map k | k in t :: if k == id && Decidable(t[k], now) then Decided(t[k], status, device, now) else t[k]
  }

  /** A timeout has no decision instant. */
  function TimedOut(r: Row): Row {
    r.(status := Timeout, decidedBy := Some(ByTimeout), decidedAt := None)
  }

  /** UPDATE ... WHERE id = $1 AND status = 'pending'. */
  function TimeoutRows(t: Requests, id: Id): (t': Requests)
    ensures t' == if id in t && t[id].status == Pending then t[id := TimedOut(t[id])] else t
  {
    map k | k in t :: if k == id && t[k].status == Pending then TimedOut(t[k]) else t[k]
  }

  // ---- GET /history ---------------------------------------------------------------

  /** The WHERE clause of ListRequests: "" and None mean no filter. */
  datatype Filter = Filter(limit: int, before: Option<Time>, server: string, username: User,
                           context: Option<Context>, status: Option<Status>)

  type Servers = map<Id, string>

  function ServerName(servers: Servers, id: Id): string {
    if id in servers then servers[id] else ""
  }

  predicate Selected(servers: Servers, f: Filter, r: Row) {
    && (f.before.Some? ==> r.createdAt < f.before.value)
    && (f.server != "" ==> ServerName(servers, r.serverId) == f.server)
    && (f.username != "" ==> r.username == f.username)
    && (f.context.Some? ==> r.context == f.context.value)
    && (f.status.Some? ==> r.status == f.status.value)
  }

  function SelectedIds(t: Requests, servers: Servers, f: Filter): set<Id> {
    set id | id in t && Selected(servers, f, t[id])
  }

  /** ORDER BY created_at DESC, id DESC. */
  function RequestKeys(t: Requests): map<Id, Key> {
    map id | id in t :: Key(-t[id].createdAt, -(id as int))
  }

  function Take<T>(s: seq<T>, limit: int): seq<T> {
    if 0 < limit < |s| then s[..limit] else s
  }

  ghost function SelectRequests(t: Requests, servers: Servers, f: Filter): seq<Id> {
    Take(Listing(SelectedIds(t, servers, f), RequestKeys(t)), f.limit)
  }

  // ---- whitelist ------------------------------------------------------------------

  predicate SameKey(a: Entry, b: Entry) {
    a.username == b.username && a.context == b.context && a.serverId == b.serverId
  }

  /** The two unique indexes: per server, and one for the global entries. */
  ghost predicate UniqueEntries(t: Whitelist) {
    forall a, b :: a in t && b in t && SameKey(t[a], t[b]) ==> a == b
  }

  /** The WHERE clause of FindWhitelist. */
  predicate Covers(e: Entry, username: User, context: Context, serverId: Id, now: Time) {
    && e.username == username && e.context == context
    && (e.serverId == Some(serverId) || e.serverId.None?)
    && Unexpired(e.expiresAt, now)
  }

  /** ORDER BY server_id NULLS LAST LIMIT 1: a covering entry that none precedes. */
  ghost predicate IsFound(t: Whitelist, username: User, context: Context, serverId: Id, now: Time, r: Option<Id>) {
    match r
    case None => forall id :: id in t ==> !Covers(t[id], username, context, serverId, now)
    case Some(id) =>
      && id in t && Covers(t[id], username, context, serverId, now)
      && (forall x :: x in t && Covers(t[x], username, context, serverId, now) && t[id].serverId.None?
            ==> t[x].serverId.None?)
  }

  /** With unique entries there is one right answer, whatever the scan order. */
  lemma FoundUnique(t: Whitelist, username: User, context: Context, serverId: Id, now: Time,
                    a: Option<Id>, b: Option<Id>)
    requires UniqueEntries(t)
    requires IsFound(t, username, context, serverId, now, a) && IsFound(t, username, context, serverId, now, b)
    ensures a == b
  {
    if a.Some? && b.Some? {
      assert SameKey(t[a.value], t[b.value]);
    }
  }

  /** DELETE ... WHERE expires_at <= now. */
  function DeleteExpired(t: Whitelist, now: Time): Whitelist {
    map id | id in t && Unexpired(t[id].expiresAt, now) :: t[id]
  }

  /** The lazy deletion changes no lookup at the same or a later instant. */
  lemma LazyDeletionInvisible(t: Whitelist, deletedAt: Time, username: User, context: Context, serverId: Id,
                              now: Time, r: Option<Id>)
    requires deletedAt <= now
    ensures UniqueEntries(t) ==> UniqueEntries(DeleteExpired(t, deletedAt))
    ensures IsFound(DeleteExpired(t, deletedAt), username, context, serverId, now, r)
            <==> IsFound(t, username, context, serverId, now, r)
  {
    var t' := DeleteExpired(t, deletedAt);
    forall id | id in t && Covers(t[id], username, context, serverId, now) ensures id in t' && t'[id] == t[id] {
    }
  }

  /** The rows of GET /whitelist: every entry, or those of one server and the global ones. */
  function ScopedEntries(t: Whitelist, serverId: Option<Id>): set<Id> {
    set id | id in t && (serverId.None? || t[id].serverId.None? || t[id].serverId == serverId)
  }

  /** ORDER BY created_at DESC, id. */
  function EntryKeys(t: Whitelist): map<Id, Key> {
    map id | id in t :: Key(-t[id].createdAt, id)
  }

  ghost function SelectWhitelist(t: Whitelist, serverId: Option<Id>): seq<Id> {
    Listing(ScopedEntries(t, serverId), EntryKeys(t))
  }

  /** INSERT ... ON CONFLICT DO UPDATE SET expires_at: id is the row inserted or refreshed. */
  ghost predicate IsEntryUpsert(t: Whitelist, t': Whitelist, e: Entry, newId: Id, now: Time, id: Id, created: bool) {
    if exists x :: x in t && SameKey(t[x], e)
    then !created && id in t && SameKey(t[id], e) && t' == t[id := t[id].(expiresAt := e.expiresAt)]
    else created && id == newId && t' == t[newId := e.(createdAt := now)]
  }

  lemma UpsertKeepsUnique(t: Whitelist, t': Whitelist, e: Entry, newId: Id, now: Time, id: Id, created: bool)
    requires UniqueEntries(t) && newId !in t && IsEntryUpsert(t, t', e, newId, now, id, created)
    ensures UniqueEntries(t')
  {
  }

  // ---- blocked_ips ----------------------------------------------------------------

  ghost predicate UniqueIps(t: Blocked) {
    forall a, b :: a in t && b in t && t[a].ip == t[b].ip ==> a == b
  }

  ghost predicate IsBlockOf(t: Blocked, ip: Ip, r: Option<Id>) {
    match r
    case None => forall id :: id in t ==> t[id].ip != ip
    case Some(id) => id in t && t[id].ip == ip
  }

  /** The row ON CONFLICT (ip) DO UPDATE leaves: the hit counter starts again. */
  function Rearmed(b: Block): Block {
    b.(hitCount := 0, lastHitAt := None)
  }

  /** Upsert by address. The SQL statement inserts a new row as given; only the
      conflict branch resets the hit counter. */
  ghost predicate IsBlockUpsert(t: Blocked, t': Blocked, b: Block, newId: Id, id: Id) {
    if exists x :: x in t && t[x].ip == b.ip
    then id in t && t[id].ip == b.ip && t' == t[id := Rearmed(b)]
    else id == newId && t' == t[newId := b]
  }

  /** The in-memory upsert resets the hit counter in both branches. */
  ghost predicate IsMemoryBlockUpsert(t: Blocked, t': Blocked, b: Block, newId: Id, id: Id) {
    if exists x :: x in t && t[x].ip == b.ip
    then id in t && t[id].ip == b.ip && t' == t[id := Rearmed(b)]
    else id == newId && t' == t[newId := Rearmed(b)]
  }

  /** The two upserts agree exactly when the address already has a row or the new
      block comes with no hits. */
  lemma BlockUpsertsAgreeExactly(t: Blocked, t': Blocked, b: Block, newId: Id, id: Id)
    requires UniqueIps(t) && newId !in t && IsMemoryBlockUpsert(t, t', b, newId, id)
    ensures IsBlockUpsert(t, t', b, newId, id) <==>
              (exists x :: x in t && t[x].ip == b.ip) || (b.hitCount == 0 && b.lastHitAt.None?)
    ensures UniqueIps(t')
  {
    if !(exists x :: x in t && t[x].ip == b.ip) {
      assert t' == t[newId := b] ==> t'[newId] == b;
    }
  }
}
