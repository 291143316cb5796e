/** The auto-block over whole runs, with each verdict handled as one step: the
    row is decided and the denial counted before anything else happens.
    Events carry the instant they happen at. */
module Autoblock {
  import opened Model
  import opened Sets
  import opened Tables
  import opened Rules
  import opened Protocol

  datatype Event =
    | Tick(at: Time)
    | Create(at: Time, id: Id, row: Row)
    | Verdict(at: Time, id: Id, choice: Choice, device: Option<Id>)
    | TimesOut(at: Time, id: Id)
    | Unblock(at: Time, ip: Ip)

  /** One insertion of a block: the denials it counted. */
  datatype Count = Count(ip: Ip, ids: set<Id>)

  /** counted and shadowed are history: every insertion so far, and the denials
      made while their address was blocked. */
  datatype System = System(
    now: Time,
    requests: Requests,
    blocks: map<Ip, Block>,
    counted: seq<Count>,
    shadowed: set<Id>)

  /** The rows after a verdict: the row is decided, or, when its time is over, timed out. */
  function VerdictRows(t: Requests, id: Id, status: Status, device: Option<Id>, now: Time): Requests {
    if id in t && Decidable(t[id], now) then DecideRows(t, id, status, device, now) else TimeoutRows(t, id)
  }

  ghost function Apply(cfg: Config, s: System, e: Event): System {
    var s := s.(now := e.at);
    match e
    case Tick(_) => s
    case Create(at, id, row) =>
      // Whatever the rules say; a request enters the auto-block only through a verdict.
      if id in s.requests || row.status == Denied then s else s.(requests := s.requests[id := row])
    case Verdict(at, id, choice, device) =>
      var t := VerdictRows(s.requests, id, StatusOf(choice), device, at);
      if id in s.requests && Decidable(s.requests[id], at) && choice == ChooseDeny
         && s.requests[id].sourceIp.Some? && s.requests[id].sourceIp.value != ""
      then OnDenial(cfg, s.(requests := t), id, s.requests[id].sourceIp.value)
      else s.(requests := t)
    case TimesOut(at, id) => s.(requests := TimeoutRows(s.requests, id))
    case Unblock(at, ip) =>
      if ip in s.blocks && s.blocks[ip].Active(at)
      then s.(blocks := s.blocks[ip := s.blocks[ip].(expiresAt := Some(at))])
      else s
  }

  /** RecordDenial, after row id from ip was denied. */
  ghost function OnDenial(cfg: Config, s: System, id: Id, ip: Ip): System {
    var existing := BlockOf(s.blocks, ip);
    var since := Since(cfg, existing, s.now);
    var block := DenialVerdict(cfg, existing, StatsOf(s.requests, ip, since), ip, s.now);
    if existing.Some? && existing.value.Active(s.now) then s.(shadowed := s.shadowed + {id})
    else if block.None? then s
    else s.(blocks := s.blocks[ip := block.value], counted := s.counted + [Count(ip, Denials(s.requests, ip, since))])
  }

  ghost function Play(cfg: Config, s: System, es: seq<Event>): System
    decreases |es|
  {
    if es == [] then s else Play(cfg, Apply(cfg, s, es[0]), es[1..])
  }

  function Empty(now: Time): System {
    System(now, map[], map[], [], {})
  }

  predicate InOrder(now: Time, es: seq<Event>)
    decreases |es|
  {
    es == [] || (now <= es[0].at && InOrder(es[0].at, es[1..]))
  }

  predicate StrictlyInOrder(now: Time, es: seq<Event>)
    decreases |es|
  {
    es == [] || (now < es[0].at && StrictlyInOrder(es[0].at, es[1..]))
  }

  /** No denial is dated in the future. */
  ghost predicate Dated(s: System) {
    forall id :: id in s.requests && s.requests[id].status == Denied ==>
      s.requests[id].decidedAt.Some? && s.requests[id].decidedAt.value <= s.now
  }

  lemma ApplyKeepsDated(cfg: Config, s: System, e: Event)
    requires Dated(s) && s.now <= e.at
    ensures Dated(Apply(cfg, s, e))
  {
  }

  lemma NoneSince(s: System, ip: Ip, since: Time)
    requires Dated(s) && s.now < since
    ensures Denials(s.requests, ip, since) == {} && |Denials(s.requests, ip, since)| == 0
  {
    forall id ensures id !in Denials(s.requests, ip, since) {
    }
  }

  predicate Blocked(s: System, ip: Ip) {
    ip in s.blocks && (s.blocks[ip].expiresAt.None? || s.now < s.blocks[ip].expiresAt.value)
  }

  // ---- an unblocked address is below the threshold -------------------------------------

  /** How many denials count toward the next block of ip: those dated within Window
      before now and not before the end of its last block. */
  ghost function Pressure(cfg: Config, s: System, ip: Ip): nat {
    |CountedDenials(s.requests, ip, s.now, cfg.window, if ip in s.blocks then s.blocks[ip].expiresAt else None)|
  }

  /** That is what RecordDenial would count. */
  lemma PressureCounts(cfg: Config, s: System, ip: Ip)
    ensures Pressure(cfg, s, ip) == |Denials(s.requests, ip, Since(cfg, BlockOf(s.blocks, ip), s.now))|
  {
    SinceSelects(cfg, s.requests, BlockOf(s.blocks, ip), ip, s.now);
  }

  ghost predicate BelowThreshold(cfg: Config, s: System, ip: Ip) {
    !Blocked(s, ip) ==> Pressure(cfg, s, ip) < cfg.threshold
  }

  /** The event is a denial of a request of ip. */
  predicate Denies(s: System, e: Event, ip: Ip) {
    && e.Verdict? && e.choice == ChooseDeny && e.id in s.requests
    && s.requests[e.id].sourceIp == Some(ip) && Decidable(s.requests[e.id], e.at)
  }

  /** Only a verdict on a row of ip changes the denials of ip. */
  lemma OtherDenials(cfg: Config, s: System, e: Event, ip: Ip, since: Time)
    requires !Denies(s, e, ip)
    ensures Denials(Apply(cfg, s, e).requests, ip, since) == Denials(s.requests, ip, since)
  {
    var t' := Apply(cfg, s, e).requests;
    forall id ensures id in Denials(t', ip, since) <==> id in Denials(s.requests, ip, since) {
    }
  }

  /** Time passing can only lower the pressure, and ends a block with none left. */
  lemma TimePasses(cfg: Config, s: System, at: Time, ip: Ip)
    requires Dated(s) && s.now <= at && BelowThreshold(cfg, s, ip) && cfg.threshold > 0
    ensures BelowThreshold(cfg, s.(now := at), ip)
  {
    var b := BlockOf(s.blocks, ip);
    PressureCounts(cfg, s, ip);
    PressureCounts(cfg, s.(now := at), ip);
    if !Blocked(s.(now := at), ip) {
      if Blocked(s, ip) {
        NoneSince(s, ip, Since(cfg, b, at));
      } else {
        FewerDenialsLater(s.requests, ip, Since(cfg, b, s.now), Since(cfg, b, at));
      }
    }
  }

  /** The event ends an active block of ip. */
  predicate Lifts(s: System, e: Event, ip: Ip) {
    e.Unblock? && e.ip == ip && ip in s.blocks && s.blocks[ip].Active(e.at)
  }

  lemma ApplyKeepsBelow(cfg: Config, s: System, e: Event, ip: Ip)
    requires Dated(s) && s.now <= e.at && BelowThreshold(cfg, s, ip)
    requires cfg.threshold > 0 && cfg.window > 0 && ip != ""
    ensures Lifts(s, e, ip) ==>
              (BelowThreshold(cfg, Apply(cfg, s, e), ip) <==> |Denials(s.requests, ip, e.at)| < cfg.threshold)
    ensures !Lifts(s, e, ip) ==> BelowThreshold(cfg, Apply(cfg, s, e), ip)
  {
    TimePasses(cfg, s, e.at, ip);
    PressureCounts(cfg, s.(now := e.at), ip);
    PressureCounts(cfg, Apply(cfg, s, e), ip);
    if !Denies(s, e, ip) {
      OtherDenials(cfg, s, e, ip, Since(cfg, BlockOf(Apply(cfg, s, e).blocks, ip), e.at));
    }
  }

  ghost predicate AlwaysBelow(cfg: Config, s: System, es: seq<Event>, ip: Ip)
    decreases |es|
  {
    BelowThreshold(cfg, s, ip) && (es == [] || AlwaysBelow(cfg, Apply(cfg, s, es[0]), es[1..], ip))
  }

  /** Fewer than Threshold denials of ip fall on the very instant of any of its unblocks. */
  ghost predicate CleanUnblocks(cfg: Config, s: System, es: seq<Event>, ip: Ip)
    decreases |es|
  {
    es == [] ||
    (&& (Lifts(s, es[0], ip) ==> |Denials(s.requests, ip, es[0].at)| < cfg.threshold)
     && CleanUnblocks(cfg, Apply(cfg, s, es[0]), es[1..], ip))
  }

  /** With verdicts handled one at a time by a clock that never goes back: in
      every state of a run an address that is not blocked has fewer than Threshold
      denials since max(now - Window, end of its last block), exactly when no
      unblock falls on the instant of Threshold denials. */
  lemma {:induction false} BelowThresholdExactly(cfg: Config, s: System, es: seq<Event>, ip: Ip)
    requires Dated(s) && BelowThreshold(cfg, s, ip) && InOrder(s.now, es)
    requires cfg.threshold > 0 && cfg.window > 0 && ip != ""
    ensures AlwaysBelow(cfg, s, es, ip) <==> CleanUnblocks(cfg, s, es, ip)
    decreases |es|
  {
    if es != [] {
      var s' := Apply(cfg, s, es[0]);
      ApplyKeepsDated(cfg, s, es[0]);
      ApplyKeepsBelow(cfg, s, es[0], ip);
      if BelowThreshold(cfg, s', ip) {
        BelowThresholdExactly(cfg, s', es[1..], ip);
      } else {
        assert !AlwaysBelow(cfg, s', es[1..], ip);
      }
    }
  }

  /** At strictly increasing instants every unblock is clean. */
  lemma {:induction false} StrictTimesAreClean(cfg: Config, s: System, es: seq<Event>, ip: Ip)
    requires Dated(s) && StrictlyInOrder(s.now, es) && cfg.threshold > 0
    ensures CleanUnblocks(cfg, s, es, ip) && InOrder(s.now, es)
    decreases |es|
  {
    if es != [] {
      NoneSince(s, ip, es[0].at);
      ApplyKeepsDated(cfg, s, es[0]);
      StrictTimesAreClean(cfg, Apply(cfg, s, es[0]), es[1..], ip);
    }
  }

  /** From an empty history and at strictly increasing instants, an unblocked
      address is below the threshold throughout. */
  lemma UnblockedIsBelowThreshold(cfg: Config, start: Time, es: seq<Event>, ip: Ip)
    requires cfg.threshold > 0 && cfg.window > 0 && ip != "" && StrictlyInOrder(start, es)
    ensures AlwaysBelow(cfg, Empty(start), es, ip)
  {
    assert CountedDenials(Empty(start).requests, ip, start, cfg.window, None) == {};
    StrictTimesAreClean(cfg, Empty(start), es, ip);
    BelowThresholdExactly(cfg, Empty(start), es, ip);
  }

  // ---- no denial counts toward two blocks --------------------------------------------------

  /** id is a denial of ip dated before the end of the current block of ip. */
  predicate Spent(s: System, ip: Ip, id: Id) {
    && id in s.requests && s.requests[id].status == Denied && s.requests[id].sourceIp == Some(ip)
    && s.requests[id].decidedAt.Some? && ip in s.blocks
    && (s.blocks[ip].expiresAt.Some? ==> s.requests[id].decidedAt.value < s.blocks[ip].expiresAt.value)
  }

  /** Everything counted so far is dated at or before its block's last denial,
      which the block outlives. */
  ghost predicate CountedSpent(s: System) {
    && (forall i :: 0 <= i < |s.counted| ==>
          forall id :: id in s.counted[i].ids ==>
            Spent(s, s.counted[i].ip, id)
            && s.blocks[s.counted[i].ip].lastDeniedAt.Some?
            && s.requests[id].decidedAt.value <= s.blocks[s.counted[i].ip].lastDeniedAt.value)
    && (forall ip :: ip in s.blocks ==>
          s.blocks[ip].lastDeniedAt.Some? && s.blocks[ip].lastDeniedAt.value <= s.now
          && (s.blocks[ip].expiresAt.Some? ==> s.blocks[ip].lastDeniedAt.value < s.blocks[ip].expiresAt.value))
  }

  ghost predicate CountedOnce(s: System) {
    forall i, j :: 0 <= i < j < |s.counted| && s.counted[i].ip == s.counted[j].ip ==>
      s.counted[i].ids !! s.counted[j].ids
  }

  /** The unblock falls strictly after the last denial its block counted. */
  predicate EndsAfterCounted(s: System, e: Event) {
    e.Unblock? && Lifts(s, e, e.ip) && s.blocks[e.ip].lastDeniedAt.Some? ==> s.blocks[e.ip].lastDeniedAt.value < e.at
  }

  /** What RecordDenial leaves in the counters: the block's last denial is the
      one that created it, and nothing counted before counts again. */
  lemma DenialKeepsCounted(cfg: Config, s: System, id: Id, ip: Ip)
    requires Dated(s) && CountedSpent(s) && CountedOnce(s) && cfg.window > 0
    requires id in Denials(s.requests, ip, s.now)
    ensures CountedSpent(OnDenial(cfg, s, id, ip)) && CountedOnce(OnDenial(cfg, s, id, ip))
  {
    var s' := OnDenial(cfg, s, id, ip);
    if s'.counted != s.counted {
      var since := Since(cfg, BlockOf(s.blocks, ip), s.now);
      assert id in Denials(s.requests, ip, since);
      assert s'.blocks[ip].lastDeniedAt == Some(s.now);
      var n := |s.counted|;
      forall i | 0 <= i < n && s.counted[i].ip == ip ensures s.counted[i].ids !! s'.counted[n].ids {
        forall x | x in s.counted[i].ids ensures x !in s'.counted[n].ids {
          assert Spent(s, ip, x);
        }
      }
    }
  }

  lemma ApplyKeepsCounted(cfg: Config, s: System, e: Event)
    requires Dated(s) && CountedSpent(s) && CountedOnce(s) && cfg.window > 0
    requires s.now <= e.at && EndsAfterCounted(s, e)
    ensures CountedSpent(Apply(cfg, s, e)) && CountedOnce(Apply(cfg, s, e))
  {
    if e.Verdict? {
      var t := VerdictRows(s.requests, e.id, StatusOf(e.choice), e.device, e.at);
      var s1 := s.(now := e.at, requests := t);
      assert CountedSpent(s1);
      ApplyKeepsDated(cfg, s, e);
      if e.id in s.requests && Decidable(s.requests[e.id], e.at) && e.choice == ChooseDeny
         && s.requests[e.id].sourceIp.Some? && s.requests[e.id].sourceIp.value != "" {
        DenialKeepsCounted(cfg, s1, e.id, s.requests[e.id].sourceIp.value);
      }
    }
  }

  ghost predicate EndAfterCounted(cfg: Config, s: System, es: seq<Event>)
    decreases |es|
  {
    es == [] || (EndsAfterCounted(s, es[0]) && EndAfterCounted(cfg, Apply(cfg, s, es[0]), es[1..]))
  }

  /** When the clock never goes back and every block ends strictly after the last
      denial it counted, no denial is counted toward two blocks of its address. */
  lemma {:induction false} CountedAtMostOnce(cfg: Config, s: System, es: seq<Event>)
    requires Dated(s) && CountedSpent(s) && CountedOnce(s) && cfg.window > 0
    requires InOrder(s.now, es) && EndAfterCounted(cfg, s, es)
    ensures CountedSpent(Play(cfg, s, es)) && CountedOnce(Play(cfg, s, es))
    decreases |es|
  {
    if es != [] {
      ApplyKeepsDated(cfg, s, es[0]);
      ApplyKeepsCounted(cfg, s, es[0]);
      CountedAtMostOnce(cfg, Apply(cfg, s, es[0]), es[1..]);
    }
  }

  // ---- which denials an unblock lets count again ---------------------------------------------

  /** Some block of ip inserted during the events counts denial id. */
  ghost predicate CountsLater(cfg: Config, s: System, es: seq<Event>, ip: Ip, id: Id) {
    var counted := Play(cfg, s, es).counted;
    exists i :: |s.counted| <= i < |counted| && counted[i].ip == ip && id in counted[i].ids
  }

  /** The last block of ip ended, or will end, at u or later. */
  predicate EndedSince(s: System, ip: Ip, u: Time) {
    u <= s.now && ip in s.blocks && (s.blocks[ip].expiresAt.Some? ==> u <= s.blocks[ip].expiresAt.value)
  }

  predicate DeniedBefore(s: System, ip: Ip, id: Id, u: Time) {
    && id in s.requests && s.requests[id].status == Denied && s.requests[id].sourceIp == Some(ip)
    && s.requests[id].decidedAt.Some? && s.requests[id].decidedAt.value < u
  }

  lemma ApplySkipsOlder(cfg: Config, s: System, e: Event, ip: Ip, id: Id, u: Time)
    requires EndedSince(s, ip, u) && DeniedBefore(s, ip, id, u) && s.now <= e.at
    ensures EndedSince(Apply(cfg, s, e), ip, u) && DeniedBefore(Apply(cfg, s, e), ip, id, u)
    ensures var counted := Apply(cfg, s, e).counted;
            |s.counted| <= |counted| <= |s.counted| + 1 && counted[..|s.counted|] == s.counted
            && (|counted| > |s.counted| && counted[|s.counted|].ip == ip ==> id !in counted[|s.counted|].ids)
  {
  }

  /** Denials older than the end of a block never count again. */
  lemma {:induction false} OlderNeverCounts(cfg: Config, s: System, es: seq<Event>, ip: Ip, id: Id, u: Time)
    requires EndedSince(s, ip, u) && DeniedBefore(s, ip, id, u) && InOrder(s.now, es)
    ensures |s.counted| <= |Play(cfg, s, es).counted| && Play(cfg, s, es).counted[..|s.counted|] == s.counted
    ensures !CountsLater(cfg, s, es, ip, id)
    decreases |es|
  {
    if es != [] {
      var s1, s' := Apply(cfg, s, es[0]), Play(cfg, s, es);
      ApplySkipsOlder(cfg, s, es[0], ip, id, u);
      OlderNeverCounts(cfg, s1, es[1..], ip, id, u);
      assert s'.counted[..|s.counted|] == s'.counted[..|s1.counted|][..|s.counted|];
      forall i | |s.counted| <= i < |s'.counted| && s'.counted[i].ip == ip ensures id !in s'.counted[i].ids {
        if i < |s1.counted| {
          assert s'.counted[i] == s'.counted[..|s1.counted|][i];
        }
      }
    }
  }

  lemma {:induction false} UnusedId(t: set<Id>) returns (n: Id)
    ensures forall id :: id in t ==> id < n
    decreases |t|
  {
    if |t| == 0 {
      n := 0;
    } else {
      var x :| x in t;
      n := UnusedId(t - {x});
      n := Max(n, x + 1);
      forall id | id in t ensures id < n {
        assert id == x || id in t - {x};
      }
    }
  }

  /** A request of ip made, and denied, at instant now. */
  function AskedAndDenied(ip: Ip, now: Time): Row {
    Decided(Asked(ip, now), Denied, None, now)
  }

  function Asked(ip: Ip, now: Time): Row {
    Row(0, Ssh, "", Some(ip), Pending, None, None, now, now + 1, None)
  }

  lemma OneMoreDenial(t: Requests, n: Id, ip: Ip, now: Time, since: Time)
    requires n !in t && since <= now
    ensures var t' := t[n := AskedAndDenied(ip, now)];
            Denials(t', ip, since) == Denials(t, ip, since) + {n}
            && |Denials(t', ip, since)| == |Denials(t, ip, since)| + 1
  {
    var t' := t[n := AskedAndDenied(ip, now)];
    forall id ensures id in Denials(t', ip, since) <==> id in Denials(t, ip, since) + {n} {
    }
    assert Denials(t', ip, since) == Denials(t, ip, since) + {n};
  }

  lemma AskAndDeny(cfg: Config, s: System, ip: Ip, n: Id)
    requires n !in s.requests && ip != ""
    ensures var es := [Create(s.now, n, Asked(ip, s.now)), Event.Verdict(s.now, n, ChooseDeny, None)];
            InOrder(s.now, es)
            && Play(cfg, s, es) == OnDenial(cfg, s.(requests := s.requests[n := AskedAndDenied(ip, s.now)]), n, ip)
  {
    var es := [Create(s.now, n, Asked(ip, s.now)), Event.Verdict(s.now, n, ChooseDeny, None)];
    var s1 := Apply(cfg, s, es[0]);
    var s2 := Apply(cfg, s1, es[1]);
    assert es[1..] == [es[1]] && es[1..][1..] == [];
    assert Play(cfg, s, es) == Play(cfg, s1, es[1..]) == Play(cfg, s2, []) == s2;
    assert VerdictRows(s1.requests, n, Denied, None, s.now) == s.requests[n := AskedAndDenied(ip, s.now)];
  }

  /** One more denial from ip at the current instant, for a request made then. */
  lemma DenyOneMore(cfg: Config, s: System, ip: Ip) returns (es: seq<Event>, n: Id)
    requires Dated(s) && !Blocked(s, ip) && ip != "" && cfg.window > 0
    ensures InOrder(s.now, es) && (forall i :: 0 <= i < |es| ==> !es[i].Unblock?)
    ensures var s' := Play(cfg, s, es);
            var since := Since(cfg, BlockOf(s.blocks, ip), s.now);
            && n !in s.requests && Dated(s') && s'.now == s.now
            && Denials(s'.requests, ip, since) == Denials(s.requests, ip, since) + {n}
            && |Denials(s'.requests, ip, since)| == |Denials(s.requests, ip, since)| + 1
            && (if |Denials(s'.requests, ip, since)| < cfg.threshold
                then s'.blocks == s.blocks && s'.counted == s.counted
                else s'.counted == s.counted + [Count(ip, Denials(s'.requests, ip, since))])
  {
    n := UnusedId(s.requests.Keys);
    assert n !in s.requests;
    es := [Create(s.now, n, Asked(ip, s.now)), Event.Verdict(s.now, n, ChooseDeny, None)];
    AskAndDeny(cfg, s, ip, n);
    OneMoreDenial(s.requests, n, ip, s.now, Since(cfg, BlockOf(s.blocks, ip), s.now));
    DenialOutcome(cfg, s.(requests := s.requests[n := AskedAndDenied(ip, s.now)]), n, ip);
  }

  /** RecordDenial for an address that is not blocked. */
  lemma DenialOutcome(cfg: Config, s: System, id: Id, ip: Ip)
    requires !Blocked(s, ip)
    ensures var s' := OnDenial(cfg, s, id, ip);
            var since := Since(cfg, BlockOf(s.blocks, ip), s.now);
            && s'.requests == s.requests && s'.now == s.now
            && (if |Denials(s.requests, ip, since)| < cfg.threshold
                then s'.blocks == s.blocks && s'.counted == s.counted
                else s'.counted == s.counted + [Count(ip, Denials(s.requests, ip, since))])
  {
  }

  /** A denial inside the next count does count toward a block, if enough denials follow. */
  lemma {:induction false} CountsAgain(cfg: Config, s: System, ip: Ip, id: Id) returns (es: seq<Event>)
    requires Dated(s) && !Blocked(s, ip) && ip != "" && cfg.window > 0
    requires id in Denials(s.requests, ip, Since(cfg, BlockOf(s.blocks, ip), s.now))
    ensures InOrder(s.now, es) && (forall i :: 0 <= i < |es| ==> !es[i].Unblock?)
    ensures CountsLater(cfg, s, es, ip, id)
    decreases cfg.threshold - Pressure(cfg, s, ip)
  {
    var n: Id;
    es, n := DenyOneMore(cfg, s, ip);
    var s1 := Play(cfg, s, es);
    PressureCounts(cfg, s, ip);
    PressureCounts(cfg, s1, ip);
    if Pressure(cfg, s, ip) + 1 < cfg.threshold {
      var more := CountsAgain(cfg, s1, ip, id);
      PlaySplit(cfg, s, es, more);
      es := es + more;
    } else {
      assert s1.counted[|s.counted|].ip == ip && id in s1.counted[|s.counted|].ids;
    }
  }

  lemma {:induction false} PlaySplit(cfg: Config, s: System, a: seq<Event>, b: seq<Event>)
    requires InOrder(s.now, a) && InOrder(Play(cfg, s, a).now, b)
    ensures Play(cfg, s, a + b) == Play(cfg, Play(cfg, s, a), b)
    ensures InOrder(s.now, a + b)
    decreases |a|
  {
    if a == [] {
      assert a + b == b;
    } else {
      assert (a + b)[0] == a[0] && (a + b)[1..] == a[1..] + b;
      PlaySplit(cfg, Apply(cfg, s, a[0]), a[1..], b);
    }
  }

  /** Lifting a block at an instant frees exactly the denials dated at that
      instant or later: one of them can count toward a later block, an older one
      never does. */
  lemma UnblockFreesExactly(cfg: Config, s: System, e: Event, id: Id)
    requires Dated(s) && s.now <= e.at && e.Unblock? && Lifts(s, e, e.ip) && e.ip != "" && cfg.window > 0
    requires IsDenialOf(s, e.ip, id)
    ensures var s' := Apply(cfg, s, e);
            (exists es :: InOrder(s'.now, es) && CountsLater(cfg, s', es, e.ip, id))
            <==> e.at <= s.requests[id].decidedAt.value
  {
    var s' := Apply(cfg, s, e);
    ApplyKeepsDated(cfg, s, e);
    if e.at <= s.requests[id].decidedAt.value {
      var es := CountsAgain(cfg, s', e.ip, id);
      assert InOrder(s'.now, es) && CountsLater(cfg, s', es, e.ip, id);
    } else {
      forall es | InOrder(s'.now, es) ensures !CountsLater(cfg, s', es, e.ip, id) {
        OlderNeverCounts(cfg, s', es, e.ip, id, e.at);
      }
    }
  }

  // ---- denials made under a block ------------------------------------------------------------

  ghost predicate ShadowSpent(s: System) {
    && (forall id :: id in s.shadowed ==>
          id in s.requests && s.requests[id].sourceIp.Some? && Spent(s, s.requests[id].sourceIp.value, id))
    && (forall i :: 0 <= i < |s.counted| ==> forall id :: id in s.counted[i].ids ==>
          id in s.requests && s.requests[id].status == Denied && id !in s.shadowed)
  }

  predicate IsDenialOf(s: System, ip: Ip, id: Id) {
    id in s.requests && s.requests[id].status == Denied && s.requests[id].sourceIp == Some(ip)
  }

  /** The unblock falls strictly after every denial made under the block it ends. */
  predicate EndsAfterShadowed(s: System, e: Event) {
    e.Unblock? && Lifts(s, e, e.ip) ==>
      forall id :: id in s.shadowed ==> DeniedBefore(s, e.ip, id, e.at) || !IsDenialOf(s, e.ip, id)
  }

  lemma ApplyKeepsShadow(cfg: Config, s: System, e: Event)
    requires Dated(s) && ShadowSpent(s) && s.now <= e.at && EndsAfterShadowed(s, e)
    ensures ShadowSpent(Apply(cfg, s, e))
  {
    if e.Verdict? {
      var s1 := s.(now := e.at, requests := VerdictRows(s.requests, e.id, StatusOf(e.choice), e.device, e.at));
      assert ShadowSpent(s1);
      if e.id in s.requests && Decidable(s.requests[e.id], e.at) && e.choice == ChooseDeny
         && s.requests[e.id].sourceIp.Some? && s.requests[e.id].sourceIp.value != "" {
        DenialKeepsShadow(cfg, s1, e.id, s.requests[e.id].sourceIp.value);
      }
    }
  }

  lemma DenialKeepsShadow(cfg: Config, s: System, id: Id, ip: Ip)
    requires ShadowSpent(s) && id in Denials(s.requests, ip, s.now) && s.requests[id].decidedAt.value == s.now
    requires forall i :: 0 <= i < |s.counted| ==> id !in s.counted[i].ids
    requires id !in s.shadowed
    ensures ShadowSpent(OnDenial(cfg, s, id, ip))
  {
    var s' := OnDenial(cfg, s, id, ip);
    if s'.counted != s.counted {
      var n := |s.counted|;
      forall x | x in s'.counted[n].ids ensures x !in s'.shadowed {
        assert x in s.shadowed ==> Spent(s, ip, x);
      }
    }
  }

  ghost predicate EndAfterShadowed(cfg: Config, s: System, es: seq<Event>)
    decreases |es|
  {
    es == [] || (EndsAfterShadowed(s, es[0]) && EndAfterShadowed(cfg, Apply(cfg, s, es[0]), es[1..]))
  }

  /** When the clock never goes back and no unblock falls on the instant of a
      denial made under the block it ends, such denials never count toward a block. */
  lemma {:induction false} ShadowedNeverCount(cfg: Config, s: System, es: seq<Event>)
    requires Dated(s) && ShadowSpent(s) && InOrder(s.now, es) && EndAfterShadowed(cfg, s, es)
    ensures ShadowSpent(Play(cfg, s, es))
    decreases |es|
  {
    if es != [] {
      ApplyKeepsDated(cfg, s, es[0]);
      ApplyKeepsShadow(cfg, s, es[0]);
      ShadowedNeverCount(cfg, Apply(cfg, s, es[0]), es[1..]);
    }
  }

  /** From an empty history, by a clock that never goes back: when every block ends
      strictly after its last counted denial, no denial counts toward two blocks;
      when it also ends strictly after the denials made under it, those count
      toward none. */
  lemma NoDenialCountsTwice(cfg: Config, start: Time, es: seq<Event>)
    requires cfg.window > 0 && InOrder(start, es) && EndAfterCounted(cfg, Empty(start), es)
    ensures CountedOnce(Play(cfg, Empty(start), es))
    ensures EndAfterShadowed(cfg, Empty(start), es) ==>
              var s := Play(cfg, Empty(start), es);
              forall i :: 0 <= i < |s.counted| ==> s.counted[i].ids !! s.shadowed
  {
    CountedAtMostOnce(cfg, Empty(start), es);
    if EndAfterShadowed(cfg, Empty(start), es) {
      ShadowedNeverCount(cfg, Empty(start), es);
    }
  }

  /** s is reached from an empty history at instant 0. */
  ghost predicate HasPast(cfg: Config, s: System) {
    exists past :: InOrder(0, past) && Play(cfg, Empty(0), past) == s
  }

  lemma Next(cfg: Config, s: System, e: Event) returns (s': System)
    requires HasPast(cfg, s) && s.now <= e.at
    ensures s' == Apply(cfg, s, e) && HasPast(cfg, s')
  {
    s' := Apply(cfg, s, e);
    var past :| InOrder(0, past) && Play(cfg, Empty(0), past) == s;
    assert [e][1..] == [] && Play(cfg, s', []) == s' && Play(cfg, s, [e]) == s';
    PlaySplit(cfg, Empty(0), past, [e]);
    assert InOrder(0, past + [e]) && Play(cfg, Empty(0), past + [e]) == s';
  }

  const ONE_DENIAL := Config(1, 3600, 0, 30)
  const ASKED := Row(7, Ssh, "deploy", Some("203.0.113.42"), Pending, None, None, 0, 30, None)

  lemma DeniedOnly(t: Requests, ip: Ip, denied: Row, pending: Row)
    requires t == map[1 := denied, 2 := pending] && pending.status == Pending
    requires IsDenial(denied, ip, -3599) && denied.decidedAt == Some(1)
    ensures StatsOf(t, ip, -3599) == Stats(1, Some(1), Some(1))
  {
    forall id ensures id in Denials(t, ip, -3599) <==> id in {1} {
    }
    assert Denials(t, ip, -3599) == {1};
    assert 1 in Denials(t, ip, -3599);
    StatsUnique(StatsOf(t, ip, -3599), Stats(1, Some(1), Some(1)), t, ip, -3599);
  }

  lemma FirstDenialBlocks(ip: Ip) returns (s: System)
    requires ASKED.sourceIp == Some(ip)
    ensures HasPast(ONE_DENIAL, s) && s.now == 1 && Dated(s)
    ensures 2 in s.requests && s.requests[2] == ASKED
    ensures ip in s.blocks && s.blocks[ip].lastDeniedAt == Some(1) && s.blocks[ip].expiresAt.None?
  {
    assert InOrder(0, []) && Play(ONE_DENIAL, Empty(0), []) == Empty(0);
    s := Next(ONE_DENIAL, Empty(0), Create(0, 1, ASKED));
    s := Next(ONE_DENIAL, s, Create(0, 2, ASKED));
    assert s == Empty(0).(requests := map[1 := ASKED, 2 := ASKED]);
    s := Next(ONE_DENIAL, s, Event.Verdict(1, 1, ChooseDeny, None));
    assert s.requests == map[1 := Decided(ASKED, Denied, None, 1), 2 := ASKED];
    DeniedOnly(s.requests, ip, Decided(ASKED, Denied, None, 1), ASKED);
  }

  /** Ending after the last counted denial is not enough for that: with threshold
      1, request 2 denied at 5 under a block made at 1, and lifted at 5, can count
      toward the next block. */
  lemma ShadowedCanCount() returns (s: System, lift: Event, es: seq<Event>)
    ensures ONE_DENIAL.threshold == 1 && HasPast(ONE_DENIAL, s) && s.now == 5 && 2 in s.shadowed
    ensures lift.Unblock? && lift.at == 5 && Lifts(s, lift, lift.ip)
    ensures s.blocks[lift.ip].lastDeniedAt.Some? && EndsAfterCounted(s, lift)
    ensures InOrder(lift.at, es) && CountsLater(ONE_DENIAL, Apply(ONE_DENIAL, s, lift), es, lift.ip, 2)
  {
    var ip := ASKED.sourceIp.value;
    var before := FirstDenialBlocks(ip);
    s := Next(ONE_DENIAL, before, Event.Verdict(5, 2, ChooseDeny, None));
    ApplyKeepsDated(ONE_DENIAL, before, Event.Verdict(5, 2, ChooseDeny, None));
    lift := Event.Unblock(5, ip);
    ApplyKeepsDated(ONE_DENIAL, s, lift);
    es := CountsAgain(ONE_DENIAL, Apply(ONE_DENIAL, s, lift), ip, 2);
  }
}
