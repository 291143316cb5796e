/** The promises of the verdict protocol, over every interleaving. */
module ProtocolTheorems {
  import opened Model
  import opened Tables
  import opened Rules
  import opened Protocol
  import opened ProtocolSafety

  lemma ReachableInv(cfg: Config, acts: seq<Action>)
    ensures Inv(Run(cfg, INIT, acts))
  {
    RunKeepsInv(cfg, INIT, acts);
  }

  /** What an answer says of a row: who let the login in or kept it out. */
  predicate ReplyTells(reply: Reply, r: Row) {
    && (reply.verdict == Approve <==> r.status in {Approved, Whitelisted, Notified})
    && (reply.reason == AdminReason <==> r.status in {Approved, Denied})
    && (reply.reason == WhitelistReason <==> r.status == Whitelisted)
    && (reply.reason == TimeoutReason <==> r.status == Timeout)
    && (reply.reason == BlockedIpReason <==> r.status == BlockedByIp)
    && (reply.reason == BlockedGeoReason <==> r.status == BlockedByGeo)
    && (reply.reason == NotifyReason <==> r.status == Notified)
    && reply.decidedAt == r.decidedAt
  }

  /** An answer sent to an agent, at any point of any run and in either mode, tells
      the row's status then and at the end of every continuation. */
  lemma AnswersAgreeWithFinalStatus(cfg: Config, past: seq<Action>, future: seq<Action>, p: Id)
    requires var s := Run(cfg, INIT, past); p in s.access && s.access[p].pc.Sent?
    ensures var reply := Run(cfg, INIT, past).access[p].pc.reply;
            var t := Run(cfg, INIT, past + future).requests;
            && reply.id in t && t[reply.id].status != Pending
            && ReplyTells(reply, t[reply.id])
            && (reply.verdict, reply.reason) == VerdictFor(t[reply.id].status)
            && reply.decidedAt == t[reply.id].decidedAt
  {
    ReachableInv(cfg, past);
    RunSplit(cfg, INIT, past, future);
    var s := Run(cfg, INIT, past);
    assert AccessOk(s.requests, s.access[p]);
    WriteOnce(cfg, s, future, s.access[p].pc.reply.id);
  }

  /** At most one verdict call ever decides a row, also when the call that did
      fails on a later store call. A verdict answered 200 is the row's final status,
      made by that call: its choice, its clock reading, its device. */
  lemma OneVerdictDecides(cfg: Config, past: seq<Action>, future: seq<Action>, v: Id, w: Id)
    requires var s := Run(cfg, INIT, past); v in s.verdicts && Winner(s.verdicts[v].pc)
    requires var s := Run(cfg, INIT, past + future); w in s.verdicts && Winner(s.verdicts[w].pc)
    requires Run(cfg, INIT, past + future).verdicts[w].id == Run(cfg, INIT, past).verdicts[v].id
    ensures var h := Run(cfg, INIT, past).verdicts[v];
            var t := Run(cfg, INIT, past + future).requests;
            && h.id in t && WonRow(t[h.id], h)
            && (h.pc.Answered200? ==> h.pc.status == t[h.id].status && h.pc.decidedAt == t[h.id].decidedAt)
            && h.now.Some? && h.now.value < t[h.id].expiresAt
    ensures v == w && Run(cfg, INIT, past + future).verdicts[w].now == Run(cfg, INIT, past).verdicts[v].now
  {
    ReachableInv(cfg, past);
    ReachableInv(cfg, past + future);
    RunSplit(cfg, INIT, past, future);
    var s := Run(cfg, INIT, past);
    assert VerdictOk(s.requests, s.verdicts[v]);
    WriteOnce(cfg, s, future, s.verdicts[v].id);
    if v != w {
      LosersStayLosers(cfg, s, future, w, s.verdicts[v].id);
    }
  }

  /** The call has not decided this row: it is not there yet, is about another
      row, or its UPDATE has not run or did not match. */
  predicate NotWon(s: State, w: Id, id: Id) {
    w in s.verdicts && s.verdicts[w].id == id ==> !Winner(s.verdicts[w].pc)
  }

  /** Once a row is decided, no other call comes to decide it. */
  lemma {:induction false} LosersStayLosers(cfg: Config, s: State, acts: seq<Action>, w: Id, id: Id)
    requires id in s.requests && s.requests[id].status != Pending && NotWon(s, w, id)
    ensures NotWon(Run(cfg, s, acts), w, id)
    decreases |acts|
  {
    if acts != [] {
      var s' := Step(cfg, s, acts[0]);
      StepEvolves(cfg, s, acts[0]);
      if acts[0].VerdictDoes? && acts[0].v in s.verdicts {
        VerdictMoveWins(cfg, s.requests, s.blocked, s.verdicts[acts[0].v], acts[0].vop);
      }
      LosersStayLosers(cfg, s', acts[1..], w, id);
    }
  }

  /** In every reachable table, status, decided_by, device and decided_at agree. */
  lemma RowsAlwaysConsistent(cfg: Config, acts: seq<Action>, id: Id)
    requires id in Run(cfg, INIT, acts).requests
    ensures RowConsistent(Run(cfg, INIT, acts).requests[id])
  {
    ReachableInv(cfg, acts);
  }

  /** An enforce-mode request is approved by a whitelist entry or by an admin
      before it expired, and by nothing else. */
  lemma EnforceApproval(cfg: Config, acts: seq<Action>, p: Id)
    requires var s := Run(cfg, INIT, acts); p in s.access && s.access[p].mode == Enforce && s.access[p].pc.Sent?
    ensures var h := Run(cfg, INIT, acts).access[p];
            var t := Run(cfg, INIT, acts).requests;
            h.pc.reply.id in t
            && OwnRow(t[h.pc.reply.id], h)
            && (h.pc.reply.verdict == Approve <==>
                  t[h.pc.reply.id].status == Whitelisted || ApprovedInTime(t[h.pc.reply.id]))
  {
    ReachableInv(cfg, acts);
    var s := Run(cfg, INIT, acts);
    assert AccessOk(s.requests, s.access[p]);
  }

  predicate ApprovedInTime(r: Row) {
    r.status == Approved && r.decidedBy == Some(Admin) && r.decidedAt.Some? && r.decidedAt.value < r.expiresAt
  }

  /** decided_by a row must carry for a reason given to the agent. */
  function DeciderFor(reason: Reason): Option<DecidedBy> {
    match reason
    case AdminReason => Some(Admin)
    case WhitelistReason => Some(ByWhitelist)
    case TimeoutReason => Some(ByTimeout)
    case BlockedIpReason => Some(Autoblock)
    case BlockedGeoReason => Some(GeoRule)
    case NotifyReason => None
  }

  /** The reason an agent is given names whoever decided its row, and carries an
      instant exactly when nobody let it time out. */
  lemma ReasonNamesDecider(cfg: Config, acts: seq<Action>, p: Id)
    requires var s := Run(cfg, INIT, acts); p in s.access && s.access[p].pc.Sent?
    ensures var s := Run(cfg, INIT, acts);
            var reply := s.access[p].pc.reply;
            && reply.id in s.requests
            && s.requests[reply.id].decidedBy == DeciderFor(reply.reason)
            && (reply.decidedAt.None? <==> reply.reason == TimeoutReason)
            && (reply.verdict == Approve ==> reply.reason in {AdminReason, WhitelistReason, NotifyReason})
            && (reply.verdict == Approve <==>
                  s.requests[reply.id].status in {Whitelisted, Notified} || ApprovedInTime(s.requests[reply.id]))
  {
    ReachableInv(cfg, acts);
    var s := Run(cfg, INIT, acts);
    assert AccessOk(s.requests, s.access[p]);
    assert RowConsistent(s.requests[s.access[p].pc.reply.id]);
  }

  // ---- what the rules decide for good -----------------------------------------------

  /** A handler works on one row only, for the request it got. */
  lemma {:induction false} HandlerKeepsRow(cfg: Config, s: State, acts: seq<Action>, p: Id, id: Id)
    requires p in s.access && (s.access[p].pc.Gone? || RowOf(s.access[p].pc) == Some(id))
    ensures var s' := Run(cfg, s, acts);
            && p in s'.access && (s'.access[p].pc.Gone? || RowOf(s'.access[p].pc) == Some(id))
            && s'.access[p].(pc := Arrived) == s.access[p].(pc := Arrived)
    decreases |acts|
  {
    if acts != [] {
      HandlerKeepsRow(cfg, Step(cfg, s, acts[0]), acts[1..], p, id);
    }
  }

  /** What a reply is when a rule applied, or none did. */
  predicate RuledReply(reply: Reply, r: Row, f: Findings, mode: Mode) {
    if f.blockActive then reply.verdict == Deny && reply.reason == BlockedIpReason
    else if f.geoRule then reply.verdict == Deny && reply.reason == BlockedGeoReason
    else if f.whitelisted then reply.verdict == Approve && reply.reason == WhitelistReason
    else if mode == Notify then reply.verdict == Approve && reply.reason == NotifyReason
    else reply.reason in {AdminReason, TimeoutReason} && (reply.verdict == Approve <==> ApprovedInTime(r))
  }

  /** The rules are final and in order, whatever happens after the INSERT: an answer
      to a request from a blocked address or country is a denial, whatever else was
      found; only then does a whitelist entry approve it, and only then notify mode;
      otherwise it is approved exactly by an admin before it expired. The row keeps
      what the request said. */
  lemma RulesDecide(cfg: Config, past: seq<Action>, future: seq<Action>, p: Id, id: Id, f: Findings)
    requires var s := Run(cfg, INIT, past); p in s.access && s.access[p].pc.Arrived? && FreshId(s, id)
    ensures var h := Run(cfg, INIT, past).access[p];
            var s' := Run(cfg, INIT, past + [AccessDoes(p, Insert(id, f))] + future);
            && p in s'.access && id in s'.requests && RowKeeps(cfg, s'.requests[id], h)
            && (s'.access[p].pc.Sent? ==>
                  && s'.access[p].pc.reply.id == id
                  && RuledReply(s'.access[p].pc.reply, s'.requests[id], f, h.mode))
  {
    var s, a := Run(cfg, INIT, past), AccessDoes(p, Insert(id, f));
    var s1 := Step(cfg, s, a);
    RunSplit(cfg, INIT, past, [a]);
    assert [a][1..] == [] && Run(cfg, s, [a]) == Run(cfg, s1, []) == s1;
    RunSplit(cfg, INIT, past + [a], future);
    ReachableInv(cfg, past + [a] + future);
    HandlerKeepsRow(cfg, s1, future, p, id);
    WriteOnce(cfg, s1, future, id);
    var s' := Run(cfg, s1, future);
    assert AccessOk(s'.requests, s'.access[p]) && RowConsistent(s'.requests[id]);
  }

  /** The request's own columns, and its deadline. */
  predicate RowKeeps(cfg: Config, r: Row, h: Access) {
    && r.serverId == h.serverId && r.context == h.context && r.username == h.username && r.sourceIp == h.sourceIp
    && r.createdAt == h.now && r.expiresAt == h.now + cfg.ttl
  }

  // ---- the 409 answer -------------------------------------------------------------

  /** The clock reading a Decide statement is about to use. */
  function DecideClock(s: State, a: Action): Option<Time> {
    if a.VerdictDoes? && a.vop.Decide? && a.v in s.verdicts && s.verdicts[a.v].pc.Clocked?
    then s.verdicts[a.v].now else None
  }

  /** The clock assumption: Decide statements run in the order of the readings they use. */
  ghost predicate DecidesInClockOrder(cfg: Config, s: State, acts: seq<Action>, bound: Time)
    decreases |acts|
  {
    acts == [] ||
    (var now := DecideClock(s, acts[0]);
     && (now.Some? ==> bound <= now.value)
     && DecidesInClockOrder(cfg, Step(cfg, s, acts[0]), acts[1..], if now.Some? then now.value else bound))
  }

  /** No Decide statement can change the row any more. */
  predicate Closed(r: Row, bound: Time) {
    r.status != Pending || r.expiresAt <= bound
  }

  predicate ConflictOk(t: Requests, h: Verdict, bound: Time) {
    match h.pc
    case Refused => h.id in t ==> Closed(t[h.id], bound)
    case Conflict => h.id in t && Closed(t[h.id], bound)
    case ExpiredPending => h.id in t && t[h.id].status in {Pending, Timeout} && t[h.id].expiresAt <= bound
    case Answered409(status, decidedAt) =>
      h.id in t && status == t[h.id].status != Pending && decidedAt == t[h.id].decidedAt
    case _ => true
  }

  ghost predicate ConflictsOk(s: State, bound: Time) {
    forall v :: v in s.verdicts ==> ConflictOk(s.requests, s.verdicts[v], bound)
  }

  /** One step under the clock assumption: a row changed by an admin expires after the new bound. */
  ghost predicate EvolvesAfter(t: Requests, t': Requests, bound: Time) {
    forall id :: id in t ==> id in t' && (t'[id] == t[id] || (t[id].status == Pending && t'[id] == TimedOut(t[id]))
                                          || (t[id].status == Pending && t[id].expiresAt > bound
                                              && t'[id].status != Pending && t'[id].expiresAt == t[id].expiresAt))
  }

  lemma ConflictOkStable(t: Requests, t': Requests, h: Verdict, bound: Time, bound': Time)
    requires ConflictOk(t, h, bound) && EvolvesAfter(t, t', bound') && bound <= bound'
    requires h.id !in t ==> h.id !in t'
    ensures ConflictOk(t', h, bound')
  {
  }

  lemma StepEvolvesAfter(cfg: Config, s: State, a: Action, bound: Time)
    requires DecideClock(s, a).Some? ==> bound <= DecideClock(s, a).value
    ensures EvolvesAfter(s.requests, Step(cfg, s, a).requests,
                         if DecideClock(s, a).Some? then DecideClock(s, a).value else bound)
  {
  }

  lemma ConflictsStable(s: State, t': Requests, bound: Time, bound': Time)
    requires ConflictsOk(s, bound) && EvolvesAfter(s.requests, t', bound') && bound <= bound'
    requires forall v :: v in s.verdicts ==> s.verdicts[v].id in s.requests || s.verdicts[v].id !in t'
    ensures forall v :: v in s.verdicts ==> ConflictOk(t', s.verdicts[v], bound')
  {
    forall v | v in s.verdicts ensures ConflictOk(t', s.verdicts[v], bound') {
      ConflictOkStable(s.requests, t', s.verdicts[v], bound, bound');
    }
  }

  lemma StepKeepsConflicts(cfg: Config, s: State, a: Action, bound: Time)
    requires Inv(s) && ConflictsOk(s, bound)
    requires DecideClock(s, a).Some? ==> bound <= DecideClock(s, a).value
    ensures ConflictsOk(Step(cfg, s, a), if DecideClock(s, a).Some? then DecideClock(s, a).value else bound)
  {
    var bound' := if DecideClock(s, a).Some? then DecideClock(s, a).value else bound;
    StepEvolvesAfter(cfg, s, a, bound);
    NamedIdsStay(cfg, s, a);
    ConflictsStable(s, Step(cfg, s, a).requests, bound, bound');
    if a.VerdictDoes? && a.v in s.verdicts {
      assert VerdictOk(s.requests, s.verdicts[a.v]);
      ConflictMove(cfg, s, a.v, a.vop, bound, bound');
    }
  }

  /** A new row never takes an id somebody has already named. */
  lemma NamedIdsStay(cfg: Config, s: State, a: Action)
    ensures forall v :: v in s.verdicts ==>
              s.verdicts[v].id in s.requests || s.verdicts[v].id !in Step(cfg, s, a).requests
  {
  }

  lemma ConflictMove(cfg: Config, s: State, v: Id, op: VerdictOp, bound: Time, bound': Time)
    requires v in s.verdicts && ConflictOk(s.requests, s.verdicts[v], bound) && VerdictOk(s.requests, s.verdicts[v])
    requires RowsOk(s.requests) && bound <= bound'
    requires op.Decide? && s.verdicts[v].pc.Clocked? ==> s.verdicts[v].now == Some(bound')
    ensures var e := VerdictMove(cfg, s.requests, s.blocked, s.verdicts[v], op);
            ConflictOk(e.requests, e.handler, bound')
  {
  }

  lemma {:induction false} RunKeepsConflicts(cfg: Config, s: State, acts: seq<Action>, bound: Time) returns (last: Time)
    requires Inv(s) && ConflictsOk(s, bound) && DecidesInClockOrder(cfg, s, acts, bound)
    ensures ConflictsOk(Run(cfg, s, acts), last)
    decreases |acts|
  {
    if acts == [] {
      last := bound;
    } else {
      StepKeepsInv(cfg, s, acts[0]);
      StepKeepsConflicts(cfg, s, acts[0], bound);
      var now := DecideClock(s, acts[0]);
      last := RunKeepsConflicts(cfg, Step(cfg, s, acts[0]), acts[1..], if now.Some? then now.value else bound);
    }
  }

  /** The 409 tells how the row stands in a table. */
  predicate ConflictReports(pc: VerdictPc, t: Requests, id: Id) {
    pc.Answered409? && id in t && pc.status == t[id].status && pc.decidedAt == t[id].decidedAt
  }

  /** When Decide statements run in clock order, every 409 carries the row's final status. */
  lemma ConflictReportsFinalStatus(cfg: Config, past: seq<Action>, future: seq<Action>, v: Id, bound: Time)
    requires DecidesInClockOrder(cfg, INIT, past, bound)
    requires var s := Run(cfg, INIT, past); v in s.verdicts && s.verdicts[v].pc.Answered409?
    ensures var h := Run(cfg, INIT, past).verdicts[v];
            var t := Run(cfg, INIT, past + future).requests;
            h.id in t && t[h.id].status != Pending && ConflictReports(h.pc, t, h.id)
  {
    var _ := RunKeepsConflicts(cfg, INIT, past, bound);
    RunSplit(cfg, INIT, past, future);
    WriteOnce(cfg, Run(cfg, INIT, past), future, Run(cfg, INIT, past).verdicts[v].id);
  }

  // ---- the 409 answer, whatever the clocks do -------------------------------------

  predicate AnsweredConflict(s: State, v: Id) {
    v in s.verdicts && s.verdicts[v].pc.Answered409?
  }

  /** The handler is about to answer 409, from a decided row it reads or after its own timeout. */
  predicate AboutToConflict(s: State, v: Id, op: VerdictOp) {
    && v in s.verdicts && s.verdicts[v].id in s.requests
    && (|| (s.verdicts[v].pc.Conflict? && op.ReadConflict? && s.requests[s.verdicts[v].id].status != Pending)
        || (s.verdicts[v].pc.ExpiredPending? && op.MarkConflict?))
  }

  /** No verdict had decided the row when the handler ran the update whose result it ignores. */
  predicate ConflictInTime(s: State, v: Id)
    requires v in s.verdicts && s.verdicts[v].id in s.requests
  {
    s.verdicts[v].pc.ExpiredPending? ==> s.requests[s.verdicts[v].id].status in {Pending, Timeout}
  }

  /** The step that answers 409 reports the row's final state, in every continuation,
      exactly when it read a decided row or its update came before any decision. */
  lemma ConflictStep(cfg: Config, s: State, v: Id, op: VerdictOp, future: seq<Action>)
    requires Inv(s) && AboutToConflict(s, v, op)
    ensures var s' := Step(cfg, s, VerdictDoes(v, op));
            && AnsweredConflict(s', v)
            && (ConflictReports(s'.verdicts[v].pc, Run(cfg, s', future).requests, s.verdicts[v].id)
                <==> ConflictInTime(s, v))
  {
    var s', id := Step(cfg, s, VerdictDoes(v, op)), s.verdicts[v].id;
    assert RowConsistent(s.requests[id]);
    StepEvolves(cfg, s, VerdictDoes(v, op));
    WriteOnce(cfg, s', future, id);
  }

  lemma {:induction false} AnsweredStays(cfg: Config, s: State, acts: seq<Action>, v: Id)
    requires AnsweredConflict(s, v)
    ensures AnsweredConflict(Run(cfg, s, acts), v) && Run(cfg, s, acts).verdicts[v] == s.verdicts[v]
    decreases |acts|
  {
    if acts != [] {
      AnsweredStays(cfg, Step(cfg, s, acts[0]), acts[1..], v);
    }
  }

  /** Only the handler's own step answers 409. */
  lemma ConflictComesFrom(cfg: Config, s: State, a: Action, v: Id)
    requires Inv(s) && !AnsweredConflict(s, v) && AnsweredConflict(Step(cfg, s, a), v)
    ensures a.VerdictDoes? && a.v == v && AboutToConflict(s, v, a.vop)
    ensures Step(cfg, s, a).verdicts[v].id == s.verdicts[v].id
  {
    assert v in s.verdicts ==> VerdictOk(s.requests, s.verdicts[v]);
  }

  /** Every 409 was answered by one step of the run. */
  lemma {:induction false} ConflictAnswered(cfg: Config, s: State, acts: seq<Action>, v: Id)
    returns (past: seq<Action>, op: VerdictOp, rest: seq<Action>)
    requires Inv(s) && !AnsweredConflict(s, v) && AnsweredConflict(Run(cfg, s, acts), v)
    ensures acts == past + [VerdictDoes(v, op)] + rest
    ensures Inv(Run(cfg, s, past)) && AboutToConflict(Run(cfg, s, past), v, op)
    ensures var s' := Step(cfg, Run(cfg, s, past), VerdictDoes(v, op));
            && Run(cfg, s, acts) == Run(cfg, s', rest)
            && AnsweredConflict(s', v) && Run(cfg, s, acts).verdicts[v] == s'.verdicts[v]
            && s'.verdicts[v].id == Run(cfg, s, past).verdicts[v].id
    decreases |acts|
  {
    var s' := Step(cfg, s, acts[0]);
    assert acts == [acts[0]] + acts[1..];
    StepKeepsInv(cfg, s, acts[0]);
    if AnsweredConflict(s', v) {
      ConflictComesFrom(cfg, s, acts[0], v);
      AnsweredStays(cfg, s', acts[1..], v);
      past, op, rest := [], acts[0].vop, acts[1..];
    } else {
      past, op, rest := ConflictAnswered(cfg, s', acts[1..], v);
      assert ([acts[0]] + past)[1..] == past;
      past := [acts[0]] + past;
    }
  }

  /** Whatever the clocks do: every 409 was answered by one step of its run, and
      carries the final status and decision instant exactly when that step read a
      decided row, or its own update, whose result it ignores, came before any verdict. */
  lemma ConflictReportExact(cfg: Config, acts: seq<Action>, future: seq<Action>, v: Id)
    returns (past: seq<Action>, op: VerdictOp, rest: seq<Action>)
    requires AnsweredConflict(Run(cfg, INIT, acts), v)
    ensures acts == past + [VerdictDoes(v, op)] + rest && AboutToConflict(Run(cfg, INIT, past), v, op)
    ensures op.MarkConflict? ==> Run(cfg, INIT, acts).verdicts[v].pc.status == Timeout
    ensures var h := Run(cfg, INIT, acts).verdicts[v];
            ConflictReports(h.pc, Run(cfg, INIT, acts + future).requests, h.id)
            <==> ConflictInTime(Run(cfg, INIT, past), v)
  {
    past, op, rest := ConflictAnswered(cfg, INIT, acts, v);
    var s := Run(cfg, INIT, past);
    ConflictStep(cfg, s, v, op, rest + future);
    RunSplit(cfg, Step(cfg, s, VerdictDoes(v, op)), rest, future);
    RunSplit(cfg, INIT, acts, future);
  }

  /** A 409 that reports anything but a timeout is always right. */
  lemma OnlyTimeoutsCanBeWrong(cfg: Config, acts: seq<Action>, future: seq<Action>, v: Id)
    requires AnsweredConflict(Run(cfg, INIT, acts), v)
    ensures var h := Run(cfg, INIT, acts).verdicts[v];
            h.pc.status != Timeout ==> ConflictReports(h.pc, Run(cfg, INIT, acts + future).requests, h.id)
  {
    var past, op, rest := ConflictReportExact(cfg, acts, future, v);
  }

  ghost predicate Reachable(cfg: Config, s: State) {
    exists acts :: Run(cfg, INIT, acts) == s
  }

  lemma ReachableStep(cfg: Config, s: State, a: Action)
    requires Reachable(cfg, s)
    ensures Reachable(cfg, Step(cfg, s, a))
  {
    var acts :| Run(cfg, INIT, acts) == s;
    RunSplit(cfg, INIT, acts, [a]);
    assert [a][1..] == [] && Run(cfg, Step(cfg, s, a), []) == Step(cfg, s, a);
    assert Run(cfg, INIT, acts + [a]) == Step(cfg, s, a);
  }

  lemma Advance(cfg: Config, s: State, a: Action) returns (s': State)
    requires Reachable(cfg, s)
    ensures s' == Step(cfg, s, a) && Reachable(cfg, s')
  {
    s' := Step(cfg, s, a);
    ReachableStep(cfg, s, a);
  }

  /** Request 100 with two verdict handlers on it. */
  predicate Race(s: State, row: Row, h1: Verdict, h2: Verdict) {
    && 100 in s.requests && s.requests[100] == row
    && 1 in s.verdicts && s.verdicts[1] == h1
    && 2 in s.verdicts && s.verdicts[2] == h2
  }

  const RACE_CONFIG := Config(3, 3600, 0, 30)
  const RACE_ROW := Row(7, Ssh, "deploy", None, Pending, None, None, 0, 30, None)
  const EARLY := Verdict(100, ChooseApprove, None, Some(5), Clocked)
  const LATE := Verdict(100, ChooseDeny, None, Some(30), Clocked)

  lemma RaceBegins() returns (s: State)
    ensures Reachable(RACE_CONFIG, s)
    ensures Race(s, RACE_ROW, EARLY.(now := None, pc := Posted), LATE.(now := None, pc := Posted))
  {
    assert Run(RACE_CONFIG, INIT, []) == INIT;
    s := Advance(RACE_CONFIG, INIT, Arrive(1, Access(Enforce, Ssh, "deploy", 7, None, 0, Arrived)));
    s := Advance(RACE_CONFIG, s, AccessDoes(1, Insert(100, Findings(false, false, false))));
    assert 100 in s.requests && s.requests[100] == RACE_ROW;
    s := Advance(RACE_CONFIG, s, Post(1, 100, ChooseApprove, None));
    s := Advance(RACE_CONFIG, s, Post(2, 100, ChooseDeny, None));
  }

  lemma RaceMove(s: State, row: Row, h1: Verdict, h2: Verdict, v: Id, op: VerdictOp)
    returns (s': State, e: VerdictEffect)
    requires Reachable(RACE_CONFIG, s) && Race(s, row, h1, h2) && (v == 1 || v == 2)
    ensures e == VerdictMove(RACE_CONFIG, s.requests, s.blocked, if v == 1 then h1 else h2, op)
    ensures Reachable(RACE_CONFIG, s') && s'.requests == e.requests && 100 in s'.requests
    ensures Race(s', s'.requests[100], if v == 1 then e.handler else h1, if v == 2 then e.handler else h2)
  {
    s' := Advance(RACE_CONFIG, s, VerdictDoes(v, op));
    e := VerdictMove(RACE_CONFIG, s.requests, s.blocked, s.verdicts[v], op);
    StepEvolves(RACE_CONFIG, s, VerdictDoes(v, op));
  }

  /** The later caller is refused and sees a pending row. */
  lemma RaceClocksRead() returns (s: State)
    ensures Reachable(RACE_CONFIG, s) && Race(s, RACE_ROW, EARLY, LATE)
  {
    var e: VerdictEffect;
    s := RaceBegins();
    s, e := RaceMove(s, RACE_ROW, EARLY.(now := None, pc := Posted), LATE.(now := None, pc := Posted), 1, ReadClock(5));
    s, e := RaceMove(s, RACE_ROW, EARLY, LATE.(now := None, pc := Posted), 2, ReadClock(30));
  }

  lemma RaceRefused() returns (s: State)
    ensures Reachable(RACE_CONFIG, s) && Race(s, RACE_ROW, EARLY, LATE.(pc := ExpiredPending))
  {
    var e: VerdictEffect;
    s := RaceClocksRead();
    s, e := RaceMove(s, RACE_ROW, EARLY, LATE, 2, Decide);
    s, e := RaceMove(s, RACE_ROW, EARLY, LATE.(pc := Refused), 2, LookUp);
    s, e := RaceMove(s, RACE_ROW, EARLY, LATE.(pc := Conflict), 2, ReadConflict);
  }

  /** The clock assumption is needed: a verdict that reads its clock before the
      expiry but whose UPDATE runs after a refused one makes the second caller
      report a timeout for an approved request. */
  lemma ConflictNeedsClockOrder() returns (s: State)
    ensures Reachable(RACE_CONFIG, s)
    ensures 100 in s.requests && Race(s, s.requests[100], EARLY.(pc := Won), LATE.(pc := Answered409(Timeout, None)))
    ensures s.requests[100].status == Approved
  {
    var e: VerdictEffect;
    s := RaceRefused();
    s, e := RaceMove(s, RACE_ROW, EARLY, LATE.(pc := ExpiredPending), 1, Decide);
    var row := s.requests[100];
    assert row.status == Approved;
    s, e := RaceMove(s, row, EARLY.(pc := Won), LATE.(pc := ExpiredPending), 2, MarkConflict);
  }
}
