/** The rules engine and the handlers as they run on one store, a call at a
    time. RecordDenial and the verdict handler, run without interleaving, are
    the events of Autoblock. */
module Handlers {
  import opened Model
  import opened Rules
  import opened Tables
  import opened Store
  import Autoblock

  /** The row of an address, if it has one. */
  ghost function BlockFor(t: Blocked, ip: Ip): (r: Option<Block>)
    ensures r.Some? <==> exists id :: id in t && t[id].ip == ip
    ensures r.Some? ==> exists id :: id in t && t[id].ip == ip && r.value == t[id]
  {
    if x: Id :| x in t && t[x].ip == ip then Some(t[x]) else None
  }

  /** blocked_ips by address. */
  ghost function ByIp(t: Blocked): map<Ip, Block> {
    map ip | ip in (set id | id in t :: t[id].ip) && BlockFor(t, ip).Some? :: BlockFor(t, ip).value
  }

  lemma ByIpAt(t: Blocked, ip: Ip)
    ensures BlockFor(t, ip) == if ip in ByIp(t) then Some(ByIp(t)[ip]) else None
  {
  }

  lemma FoundBlock(t: Blocked, ip: Ip, r: Option<Id>)
    requires UniqueIps(t) && IsBlockOf(t, ip, r)
    ensures BlockFor(t, ip) == if r.Some? then Some(t[r.value]) else None
  {
  }

  lemma UpsertFor(t: Blocked, t': Blocked, b: Block, newId: Id, id: Id, ip: Ip)
    requires UniqueIps(t) && UniqueIps(t') && newId !in t && IsMemoryBlockUpsert(t, t', b, newId, id)
    ensures BlockFor(t', ip) == if ip == b.ip then Some(Rearmed(b)) else BlockFor(t, ip)
  {
    if ip == b.ip {
      FoundBlock(t', ip, Some(id));
    } else if x: Id :| x in t && t[x].ip == ip {
      FoundBlock(t, ip, Some(x));
      FoundBlock(t', ip, Some(x));
    } else {
      FoundBlock(t, ip, None);
      FoundBlock(t', ip, None);
    }
  }

  lemma UpsertByIp(t: Blocked, t': Blocked, b: Block, newId: Id, id: Id)
    requires UniqueIps(t) && UniqueIps(t') && newId !in t && IsMemoryBlockUpsert(t, t', b, newId, id)
    ensures ByIp(t') == ByIp(t)[b.ip := Rearmed(b)]
  {
    var want := ByIp(t)[b.ip := Rearmed(b)];
    forall ip ensures (ip in ByIp(t') <==> ip in want) && (ip in want ==> ByIp(t')[ip] == want[ip]) {
      UpsertFor(t, t', b, newId, id, ip);
      ByIpAt(t, ip);
      ByIpAt(t', ip);
    }
  }

  /** The address has a block that is permanent or ends after now. */
  ghost predicate AddressBlocked(blocked: Blocked, sourceIp: Option<Ip>, now: Time) {
    && sourceIp.Some? && sourceIp.value != ""
    && exists id :: id in blocked && blocked[id].ip == sourceIp.value
                    && (blocked[id].expiresAt.None? || now < blocked[id].expiresAt.value)
  }

  predicate CountryBlocked(geoRules: set<string>, country: string) {
    country != "" && country in geoRules
  }

  /** An entry for this user and context, of this server or of every server, that
      never expires or expires after now. */
  ghost predicate UserListed(whitelist: Whitelist, serverId: Id, username: User, context: Context, now: Time) {
    exists id :: id in whitelist && whitelist[id].username == username && whitelist[id].context == context
                 && (whitelist[id].serverId == None || whitelist[id].serverId == Some(serverId))
                 && (whitelist[id].expiresAt.None? || now < whitelist[id].expiresAt.value)
  }

  /** Evaluate: a blocked address, then a blocked country, then the whitelist,
      then notify mode; only a blocked address counts a hit. */
  method Evaluate(m: Memory, geoRules: set<string>, serverId: Id, username: User, context: Context,
                  sourceIp: Option<Ip>, country: string, mode: Mode, now: Time)
    returns (status: Status, decidedBy: Option<DecidedBy>)
    requires m.Valid()
    modifies m`blocked
    ensures m.Valid()
    ensures var address := AddressBlocked(old(m.blocked), sourceIp, now);
            var geo := CountryBlocked(geoRules, country);
            var listed := UserListed(m.whitelist, serverId, username, context, now);
            && (status == BlockedByIp <==> address)
            && (status == BlockedByGeo <==> !address && geo)
            && (status == Whitelisted <==> !address && !geo && listed)
            && (status == Notified <==> !address && !geo && !listed && mode == Notify)
            && (status == Pending <==> !address && !geo && !listed && mode == Enforce)
            && status == Outcome(Findings(address, geo, listed), mode)
    ensures decidedBy == Some(Autoblock) <==> status == BlockedByIp
    ensures decidedBy == Some(GeoRule) <==> status == BlockedByGeo
    ensures decidedBy == Some(ByWhitelist) <==> status == Whitelisted
    ensures decidedBy == None <==> status == Notified || status == Pending
    ensures status != BlockedByIp ==> m.blocked == old(m.blocked)
    ensures status == BlockedByIp ==>
              exists id :: id in old(m.blocked) && old(m.blocked)[id].ip == sourceIp.value
                && m.blocked == old(m.blocked)[id := old(m.blocked)[id].(
                     hitCount := old(m.blocked)[id].hitCount + 1, lastHitAt := Some(now))]
  {
    if sourceIp.Some? && sourceIp.value != "" {
      var b := m.BlockedIpByIp(sourceIp.value);
      if b.Some? && m.blocked[b.value].Active(now) {
        var _ := m.RecordBlockedIpHit(b.value, now);
        return BlockedByIp, Some(Autoblock);
      }
    }
    if country != "" {
      if country in geoRules {
        return BlockedByGeo, Some(GeoRule);
      }
    }
    var w := m.FindWhitelist(username, context, serverId, now);
    if w.Some? {
      return Whitelisted, Some(ByWhitelist);
    }
    if mode == Notify {
      return Notified, None;
    }
    return Pending, None;
  }

  /** The address's row is a block that is permanent or ends after now. */
  predicate InForce(existing: Option<Block>, now: Time) {
    existing.Some? && (existing.value.expiresAt.None? || now < existing.value.expiresAt.value)
  }

  /** The block's first and last instants are those of the earliest and the latest of the denials. */
  ghost predicate FirstAndLast(b: Block, requests: Requests, ids: set<Id>) {
    && b.firstDeniedAt.Some? && b.lastDeniedAt.Some?
    && (forall id :: id in ids ==>
          && id in requests && requests[id].decidedAt.Some?
          && b.firstDeniedAt.value <= requests[id].decidedAt.value <= b.lastDeniedAt.value)
    && (exists id :: id in ids && id in requests && requests[id].decidedAt == b.firstDeniedAt)
    && (exists id :: id in ids && id in requests && requests[id].decidedAt == b.lastDeniedAt)
  }

  /** RecordDenial: with no block in force, a block is inserted exactly when at least
      Threshold denials count, those within Window and not before the end of the
      last block; it stands for them all and lasts BlockDuration, or for good. */
  method RecordDenial(m: Memory, cfg: Config, ip: Ip, now: Time, newId: Id) returns (block: Option<Block>)
    requires m.Valid() && newId !in m.blocked
    modifies m`blocked
    ensures m.Valid()
    ensures var existing := BlockFor(old(m.blocked), ip);
            var counted := CountedDenials(m.requests, ip, now, cfg.window, EndOf(existing));
            && (block.Some? <==> !InForce(existing, now) && |counted| >= cfg.threshold)
            && (block.Some? ==>
                  && block.value.ip == ip && block.value.denialCount == |counted| && block.value.createdAt == now
                  && block.value.hitCount == 0 && block.value.lastHitAt == None
                  && block.value.expiresAt == (if cfg.blockDuration > 0 then Some(now + cfg.blockDuration) else None)
                  && (counted != {} ==> FirstAndLast(block.value, m.requests, counted)))
            && block == DenialVerdict(cfg, existing, StatsOf(m.requests, ip, Since(cfg, existing, now)), ip, now)
    ensures ByIp(m.blocked) == if block.Some? then ByIp(old(m.blocked))[ip := block.value] else ByIp(old(m.blocked))
  {
    var since := now - cfg.window;
    var existing := m.BlockedIpByIp(ip);
    FoundBlock(m.blocked, ip, existing);
    SinceSelects(cfg, m.requests, BlockFor(m.blocked, ip), ip, now);
    if existing.Some? {
      var b := m.blocked[existing.value];
      if b.Active(now) {
        return None;
      }
      if b.expiresAt.Some? && b.expiresAt.value > since {
        since := b.expiresAt.value;
      }
    }
    var st := m.CountDenials(ip, since);
    StatsUnique(st, StatsOf(m.requests, ip, since), m.requests, ip, since);
    if st.count < cfg.threshold {
      return None;
    }
    var b := Block(ip, st.count, st.first, st.last, 0, None, now,
                   if cfg.blockDuration > 0 then Some(now + cfg.blockDuration) else None);
    var id := m.UpsertBlockedIp(b, newId);
    UpsertByIp(old(m.blocked), m.blocked, b, newId, id);
    block := Some(m.blocked[id]);
  }

  datatype Response =
    | Ok200(status: Status, decidedAt: Option<Time>, entry: Option<Id>, autoBlocked: Option<Block>)
    | NotFound404
    | Conflict409(status: Status, decidedAt: Option<Time>)
    | Error500

  /** The whitelist entry of approve_always: this user, this context, this server. */
  function AlwaysEntry(row: Row, id: Id, device: Option<Id>, ttl: int, now: Time): Entry {
    Entry(row.username, row.context, Some(row.serverId), if ttl > 0 then Some(now + ttl) else None,
          now, Some(id), device)
  }

  /** The block a decided row inserts: only a denial with a source address counts. */
  ghost function BlockAfter(cfg: Config, blocked: Blocked, t: Requests, row: Row, now: Time): (b: Option<Block>)
    ensures b.Some? <==>
              && row.status == Denied && row.sourceIp.Some? && row.sourceIp.value != ""
              && !InForce(BlockFor(blocked, row.sourceIp.value), now)
              && |CountedDenials(t, row.sourceIp.value, now, cfg.window, EndOf(BlockFor(blocked, row.sourceIp.value)))|
                 >= cfg.threshold
    ensures b.Some? ==> b.value.ip == row.sourceIp.value && b.value.createdAt == now
  {
    if row.status != Denied || row.sourceIp.None? || row.sourceIp.value == "" then None
    else
      var existing := BlockFor(blocked, row.sourceIp.value);
      SinceSelects(cfg, t, existing, row.sourceIp.value, now);
      DenialVerdict(cfg, existing, StatsOf(t, row.sourceIp.value, Since(cfg, existing, now)), row.sourceIp.value, now)
  }

  /** A verdict can still decide the row. */
  predicate Open(r: Row, now: Time) {
    r.status == Pending && now < r.expiresAt
  }

  /** The entry lists the row's user, context and server until the given instant. */
  predicate ListsRow(e: Entry, r: Row, until: Option<Time>) {
    e.username == r.username && e.context == r.context && e.serverId == Some(r.serverId) && e.expiresAt == until
  }

  /** approve_always: the entry of the row's user, context and server, inserted or
      refreshed, unless the server is unknown. */
  method SaveAlways(m: Memory, row: Row, id: Id, device: Option<Id>, ttl: int, now: Time, entryId: Id)
    returns (entry: Option<Id>)
    requires m.Valid() && entryId !in m.whitelist
    modifies m`whitelist
    ensures m.Valid()
    ensures entry.None? <==> row.serverId !in m.servers
    ensures entry.None? ==> m.whitelist == old(m.whitelist)
    ensures entry.Some? ==> Saved(old(m.whitelist), m.whitelist, entry.value, row, id, device,
                                  if ttl > 0 then Some(now + ttl) else None, now)
    ensures entry.Some? ==>
              exists created ::
                IsEntryUpsert(old(m.whitelist), m.whitelist, AlwaysEntry(row, id, device, ttl, now),
                              entryId, now, entry.value, created)
  {
    var created;
    entry, created := m.UpsertWhitelist(AlwaysEntry(row, id, device, ttl, now), entryId, now);
  }

  /** Entry e lists the row's user, context and server until the given instant; a new
      one says where it came from; every other entry is as it was. */
  predicate Saved(t: Whitelist, t': Whitelist, e: Id, row: Row, id: Id, device: Option<Id>,
                  until: Option<Time>, now: Time)
  {
    && e in t' && ListsRow(t'[e], row, until)
    && (e !in t ==>
          t'[e].createdAt == now && t'[e].createdFrom == Some(id) && t'[e].createdByDevice == device)
    && (forall x :: x in t ==> x in t' && (x != e ==> t'[x] == t[x]))
    && (forall x :: x in t' ==> x in t || x == e)
  }

  /** POST /verdict, undisturbed. The rows and blocks after it are those of the
      Verdict event, and the answer reports the final state of the row. A decision
      stands even when the whitelist entry of approve_always cannot be saved. */
  method HandleVerdict(m: Memory, cfg: Config, id: Id, choice: Choice, device: Option<Id>, ttl: int, now: Time,
                       entryId: Id, blockId: Id, ghost counted: seq<Autoblock.Count>, ghost shadowed: set<Id>)
    returns (r: Response)
    requires m.Valid() && entryId !in m.whitelist && blockId !in m.blocked
    modifies m`requests, m`whitelist, m`blocked
    ensures m.Valid()
    ensures var before := Autoblock.System(now, old(m.requests), ByIp(old(m.blocked)), counted, shadowed);
            var s := Autoblock.Apply(cfg, before, Autoblock.Event.Verdict(now, id, choice, device));
            m.requests == s.requests && ByIp(m.blocked) == s.blocks
    ensures r.NotFound404? <==> id !in old(m.requests)
    ensures r.Conflict409? <==> id in old(m.requests) && !Open(old(m.requests)[id], now)
    ensures r.Error500? <==>
              && id in old(m.requests) && Open(old(m.requests)[id], now)
              && choice == ChooseAlways && old(m.requests)[id].serverId !in m.servers
    ensures id in m.requests && (r.Ok200? || r.Error500?) ==>
              && m.requests[id] == old(m.requests)[id].(
                   status := if choice == ChooseDeny then Denied else Approved,
                   decidedBy := Some(Admin), device := device, decidedAt := Some(now))
    ensures r.Conflict409? ==>
              && id in m.requests && m.requests[id].status != Pending
              && m.requests[id] == (if old(m.requests)[id].status != Pending then old(m.requests)[id] else
                   old(m.requests)[id].(status := Timeout, decidedBy := Some(ByTimeout), decidedAt := None))
              && r.status == m.requests[id].status && r.decidedAt == m.requests[id].decidedAt
    ensures r.Ok200? ==>
              && id in m.requests && r.status == m.requests[id].status && r.decidedAt == m.requests[id].decidedAt
              && r.autoBlocked == BlockAfter(cfg, old(m.blocked), m.requests, m.requests[id], now)
              && (r.entry.Some? <==> choice == ChooseAlways)
    ensures !(r.Ok200? && choice == ChooseAlways) ==> m.whitelist == old(m.whitelist)
    ensures !r.Ok200? ==> m.blocked == old(m.blocked)
    ensures r.Ok200? && choice == ChooseAlways ==>
              Saved(old(m.whitelist), m.whitelist, r.entry.value, m.requests[id], id, device,
                    if ttl > 0 then Some(now + ttl) else None, now)
    ensures r.Ok200? && choice == ChooseAlways ==>
              exists created ::
                IsEntryUpsert(old(m.whitelist), m.whitelist, AlwaysEntry(m.requests[id], id, device, ttl, now),
                              entryId, now, r.entry.value, created)
  {
    var decided := m.DecideRequest(id, StatusOf(choice), device, now);
    match decided {
      case NotFound => return NotFound404;
      case AlreadyDecided =>
        r := VerdictConflict(m, id);
        return;
      case Changed(row) =>
        var entry: Option<Id> := None;
        if choice == ChooseAlways {
          entry := SaveAlways(m, row, id, device, ttl, now, entryId);
          if entry.None? {
            return Error500;
          }
        }
        var block: Option<Block> := None;
        if row.status == Denied && row.sourceIp.Some? && row.sourceIp.value != "" {
          block := RecordDenial(m, cfg, row.sourceIp.value, now, blockId);
        }
        r := Ok200(row.status, row.decidedAt, entry, block);
    }
  }

  /** The 409 answer: an expired row still marked pending is timed out here. */
  method VerdictConflict(m: Memory, id: Id) returns (r: Response)
    modifies m`requests
    ensures m.requests == TimeoutRows(old(m.requests), id)
    ensures r == if id in m.requests then Conflict409(m.requests[id].status, m.requests[id].decidedAt) else NotFound404
  {
    var found := m.RequestById(id);
    if found.None? {
      return NotFound404;
    }
    var row := found.value;
    if row.status == Pending {
      var _ := m.MarkTimeout(id);
      row := row.(status := Timeout, decidedAt := None);
    }
    r := Conflict409(row.status, row.decidedAt);
  }

  lemma ReplaceByIp(t: Blocked, id: Id, b: Block)
    requires UniqueIps(t) && id in t && b.ip == t[id].ip
    ensures ByIp(t[id := b]) == ByIp(t)[b.ip := b]
  {
    var t', want := t[id := b], ByIp(t)[b.ip := b];
    forall ip ensures (ip in ByIp(t') <==> ip in want) && (ip in want ==> ByIp(t')[ip] == want[ip]) {
      if ip == b.ip {
        FoundBlock(t', ip, Some(id));
      } else if x: Id :| x in t && t[x].ip == ip {
        FoundBlock(t, ip, Some(x));
        FoundBlock(t', ip, Some(x));
      } else {
        FoundBlock(t, ip, None);
        FoundBlock(t', ip, None);
      }
      ByIpAt(t, ip);
      ByIpAt(t', ip);
    }
  }

  /** DELETE /blocked-ips/{id}: the Unblock event of the block's address, or 404. */
  method HandleUnblock(m: Memory, cfg: Config, id: Id, now: Time,
                       ghost counted: seq<Autoblock.Count>, ghost shadowed: set<Id>)
    returns (ok: bool)
    requires m.Valid()
    modifies m`blocked
    ensures m.Valid()
    ensures ok <==> id in old(m.blocked) && InForce(Some(old(m.blocked)[id]), now)
    ensures !ok ==> m.blocked == old(m.blocked)
    ensures ok ==> m.blocked == old(m.blocked)[id := old(m.blocked)[id].(expiresAt := Some(now))]
    ensures ok ==>
              var before := Autoblock.System(now, m.requests, ByIp(old(m.blocked)), counted, shadowed);
              var event := Autoblock.Event.Unblock(now, old(m.blocked)[id].ip);
              ByIp(m.blocked) == Autoblock.Apply(cfg, before, event).blocks
  {
    if id in m.blocked {
      FoundBlock(m.blocked, m.blocked[id].ip, Some(id));
      ByIpAt(m.blocked, m.blocked[id].ip);
      ReplaceByIp(m.blocked, id, m.blocked[id].(expiresAt := Some(now)));
    }
    ok := m.UnblockIp(id, now);
  }
}
