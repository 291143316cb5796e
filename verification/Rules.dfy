/** The rules engine as functions of what its store calls return: the order of
    the rules, and the arithmetic of the auto-block. */
module Rules {
  import opened Model
  import opened Sets

  datatype Config = Config(threshold: int, window: int, blockDuration: int, ttl: int)

  const DEFAULT_THRESHOLD := 3
  const DEFAULT_WINDOW := 3_600_000_000_000

  /** A threshold or window that is not positive falls back to the default. */
  function New(cfg: Config): (r: Config)
    ensures r.threshold > 0 && r.window > 0
    ensures cfg.threshold > 0 ==> r.threshold == cfg.threshold
    ensures cfg.window > 0 ==> r.window == cfg.window
    ensures cfg.threshold <= 0 ==> r.threshold == 3
    ensures cfg.window <= 0 ==> r.window == 3600 * 1_000_000_000
    ensures r.blockDuration == cfg.blockDuration && r.ttl == cfg.ttl
  {
    cfg.(threshold := if cfg.threshold <= 0 then DEFAULT_THRESHOLD else cfg.threshold,
         window := if cfg.window <= 0 then DEFAULT_WINDOW else cfg.window)
  }

  /** What the three lookups of Evaluate found. */
  datatype Findings = Findings(blockActive: bool, geoRule: bool, whitelisted: bool)

  /** The first rule that applies decides; otherwise the request is pending. */
  function Outcome(f: Findings, mode: Mode): Status {
    if f.blockActive then BlockedByIp
    else if f.geoRule then BlockedByGeo
    else if f.whitelisted then Whitelisted
    else if mode == Notify then Notified
    else Pending
  }

  /** decided_by of a row a rule decided; nobody decides a notified row. */
  function OutcomeBy(status: Status): Option<DecidedBy> {
    match status
    case BlockedByIp => Some(Autoblock)
    case BlockedByGeo => Some(GeoRule)
    case Whitelisted => Some(ByWhitelist)
    case _ => None
  }

  /** Rows the denial count looks at. */
  predicate IsDenial(r: Row, ip: Ip, since: Time) {
    r.status == Denied && r.sourceIp == Some(ip) && r.decidedAt.Some? && r.decidedAt.value >= since
  }

  function Denials(requests: map<Id, Row>, ip: Ip, since: Time): set<Id> {
    set id | id in requests && IsDenial(requests[id], ip, since)
  }

  lemma FewerDenialsLater(requests: map<Id, Row>, ip: Ip, early: Time, late: Time)
    requires early <= late
    ensures Denials(requests, ip, late) <= Denials(requests, ip, early)
    ensures |Denials(requests, ip, late)| <= |Denials(requests, ip, early)|
  {
    assert forall id :: id in Denials(requests, ip, late) ==> id in Denials(requests, ip, early);
    SubsetSize(Denials(requests, ip, late), Denials(requests, ip, early));
  }

  datatype Stats = Stats(count: nat, first: Option<Time>, last: Option<Time>)

  /** count, min and max of decided_at over a set of decided rows. */
  ghost predicate StatsOver(st: Stats, requests: map<Id, Row>, ds: set<Id>) {
    && (forall id :: id in ds ==> id in requests && requests[id].decidedAt.Some?)
    && st.count == |ds|
    && (ds == {} ==> st.first.None? && st.last.None?)
    && (ds != {} ==>
          && st.first.Some? && st.last.Some?
          && (exists id :: id in ds && requests[id].decidedAt == st.first)
          && (exists id :: id in ds && requests[id].decidedAt == st.last)
          && (forall id :: id in ds ==> st.first.value <= requests[id].decidedAt.value <= st.last.value))
  }

  /** count(*), min(decided_at), max(decided_at) over the denials. */
  ghost predicate IsStats(st: Stats, requests: map<Id, Row>, ip: Ip, since: Time) {
    StatsOver(st, requests, Denials(requests, ip, since))
  }

  /** One more row with this decision instant. */
  function Add(st: Stats, at: Time): Stats {
    Stats(st.count + 1,
          if st.first.None? || at < st.first.value then Some(at) else st.first,
          if st.last.None? || at > st.last.value then Some(at) else st.last)
  }

  lemma AddCounts(st: Stats, requests: map<Id, Row>, ds: set<Id>, x: Id)
    requires StatsOver(st, requests, ds) && x !in ds && x in requests && requests[x].decidedAt.Some?
    ensures StatsOver(Add(st, requests[x].decidedAt.value), requests, ds + {x})
  {
    var st' := Add(st, requests[x].decidedAt.value);
    assert x in ds + {x};
    assert |ds + {x}| == |ds| + 1;
    if ds != {} {
      var f :| f in ds && requests[f].decidedAt == st.first;
      var l :| l in ds && requests[l].decidedAt == st.last;
      assert f in ds + {x} && l in ds + {x};
      assert exists id :: id in ds + {x} && requests[id].decidedAt == st'.first;
      assert exists id :: id in ds + {x} && requests[id].decidedAt == st'.last;
    }
  }

  /** The three aggregates are determined by the table. */
  lemma StatsUnique(a: Stats, b: Stats, requests: map<Id, Row>, ip: Ip, since: Time)
    requires IsStats(a, requests, ip, since) && IsStats(b, requests, ip, since)
    ensures a == b
  {
    var ds := Denials(requests, ip, since);
    if ds != {} {
      var fa :| fa in ds && requests[fa].decidedAt == a.first;
      var fb :| fb in ds && requests[fb].decidedAt == b.first;
      var la :| la in ds && requests[la].decidedAt == a.last;
      var lb :| lb in ds && requests[lb].decidedAt == b.last;
    }
  }

  /** The aggregates over a part of the denials, one row at a time. */
  lemma {:induction false} PartialStats(requests: map<Id, Row>, ds: set<Id>) returns (first: Id, last: Id)
    requires |ds| > 0 && forall id :: id in ds ==> id in requests && requests[id].decidedAt.Some?
    ensures first in ds && last in ds
    ensures forall id :: id in ds ==>
              requests[first].decidedAt.value <= requests[id].decidedAt.value <= requests[last].decidedAt.value
    decreases |ds|
  {
    var id :| id in ds;
    first, last := id, id;
    if |ds - {id}| > 0 {
      var f, l := PartialStats(requests, ds - {id});
      if requests[f].decidedAt.value < requests[id].decidedAt.value { first := f; }
      if requests[l].decidedAt.value > requests[id].decidedAt.value { last := l; }
    }
  }

  lemma StatsExist(requests: map<Id, Row>, ip: Ip, since: Time)
    ensures exists st :: IsStats(st, requests, ip, since)
  {
    var ds := Denials(requests, ip, since);
    if ds == {} {
      assert IsStats(Stats(0, None, None), requests, ip, since);
    } else {
      var first, last := PartialStats(requests, ds);
      assert IsStats(Stats(|ds|, requests[first].decidedAt, requests[last].decidedAt), requests, ip, since);
    }
  }

  ghost function StatsOf(requests: map<Id, Row>, ip: Ip, since: Time): (st: Stats)
    ensures IsStats(st, requests, ip, since)
  {
    StatsExist(requests, ip, since);
    var st :| IsStats(st, requests, ip, since);
    st
  }

  /** The lower bound of the count: the window, or the end of the last block
      when that is later, so that denials before it do not count again. */
  function Since(cfg: Config, existing: Option<Block>, now: Time): Time {
    var since := now - cfg.window;
    if existing.Some? && existing.value.expiresAt.Some? && existing.value.expiresAt.value > since
    then existing.value.expiresAt.value
    else since
  }

  /** A denial counts at now when it was made within Window before now and not
      before the end of the address's last block. */
  predicate Counts(r: Row, ip: Ip, now: Time, window: int, ended: Option<Time>) {
    && r.status == Denied && r.sourceIp == Some(ip) && r.decidedAt.Some?
    && now - window <= r.decidedAt.value
    && (ended.Some? ==> ended.value <= r.decidedAt.value)
  }

  function CountedDenials(requests: map<Id, Row>, ip: Ip, now: Time, window: int, ended: Option<Time>): set<Id> {
    set id | id in requests && Counts(requests[id], ip, now, window, ended)
  }

  /** When the address's last block ended, or will end. */
  function EndOf(existing: Option<Block>): Option<Time> {
    if existing.Some? then existing.value.expiresAt else None
  }

  /** The bound of the query selects exactly the denials that count. */
  lemma SinceSelects(cfg: Config, requests: map<Id, Row>, existing: Option<Block>, ip: Ip, now: Time)
    ensures Denials(requests, ip, Since(cfg, existing, now))
            == CountedDenials(requests, ip, now, cfg.window, EndOf(existing))
  {
  }

  /** The block a denial at now inserts once the threshold is reached. */
  function NewBlock(cfg: Config, ip: Ip, st: Stats, now: Time): Block {
    Block(ip, st.count, st.first, st.last, 0, None, now,
          if cfg.blockDuration > 0 then Some(now + cfg.blockDuration) else None)
  }

  /** The whole of RecordDenial as one step: the block it inserts, if any. */
  function DenialVerdict(cfg: Config, existing: Option<Block>, st: Stats, ip: Ip, now: Time): Option<Block> {
    if existing.Some? && existing.value.Active(now) then None
    else if st.count < cfg.threshold then None
    else Some(NewBlock(cfg, ip, st, now))
  }
}
