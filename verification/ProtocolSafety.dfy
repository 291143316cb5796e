/** What every interleaving of the handlers keeps. */
module ProtocolSafety {
  import opened Model
  import opened Tables
  import opened Rules
  import opened Protocol

  // ---- runs -----------------------------------------------------------------

  lemma {:induction false} RunSplit(cfg: Config, s: State, a: seq<Action>, b: seq<Action>)
    ensures Run(cfg, s, a + b) == Run(cfg, Run(cfg, s, a), b)
    decreases |a|
  {
    if a == [] {
      assert a + b == b;
    } else {
      assert (a + b)[0] == a[0] && (a + b)[1..] == a[1..] + b;
      RunSplit(cfg, Step(cfg, s, a[0]), a[1..], b);
    }
  }

  // ---- write-once rows --------------------------------------------------------

  /** What one row may become: itself, or, if pending, decided or timed out. */
  ghost predicate RowEvolves(r: Row, r': Row) {
    r' == r || (r.status == Pending && (r' == TimedOut(r) || DecidedByAdmin(r, r')))
  }

  ghost predicate DecidedByAdmin(r: Row, r': Row) {
    exists choice, device, now :: Decidable(r, now) && r' == Decided(r, StatusOf(choice), device, now)
  }

  /** No row disappears and every row evolves. */
  ghost predicate TableEvolves(t: Requests, t': Requests) {
    forall id :: id in t ==> id in t' && RowEvolves(t[id], t'[id])
  }

  lemma DecideEvolves(t: Requests, h: Verdict, now: Time)
    ensures TableEvolves(t, DecideRows(t, h.id, StatusOf(h.choice), h.device, now))
  {
    if h.id in t && Decidable(t[h.id], now) {
      assert DecidedByAdmin(t[h.id], Decided(t[h.id], StatusOf(h.choice), h.device, now));
    }
  }

  lemma StepEvolves(cfg: Config, s: State, a: Action)
    ensures TableEvolves(s.requests, Step(cfg, s, a).requests)
  {
    if a.VerdictDoes? && a.v in s.verdicts && s.verdicts[a.v].now.Some? {
      DecideEvolves(s.requests, s.verdicts[a.v], s.verdicts[a.v].now.value);
    }
  }

  /** Over every run, a row leaves pending at most once, to exactly one of the
      three outcomes, and never changes again: a decided row is the same in
      every later state. */
  lemma {:induction false} WriteOnce(cfg: Config, s: State, acts: seq<Action>, id: Id)
    requires id in s.requests
    ensures id in Run(cfg, s, acts).requests
    ensures RowEvolves(s.requests[id], Run(cfg, s, acts).requests[id])
    ensures s.requests[id].status != Pending ==> Run(cfg, s, acts).requests[id] == s.requests[id]
    decreases |acts|
  {
    if acts != [] {
      StepEvolves(cfg, s, acts[0]);
      WriteOnce(cfg, Step(cfg, s, acts[0]), acts[1..], id);
    }
  }

  // ---- the invariant ------------------------------------------------------------

  /** Status, decided_by, device and decided_at always agree. */
  predicate RowConsistent(r: Row) {
    match r.status
    case Pending => r.decidedBy.None? && r.device.None? && r.decidedAt.None?
    case Approved | Denied => r.decidedBy == Some(Admin) && r.decidedAt.Some? && r.decidedAt.value < r.expiresAt
    case Timeout => r.decidedBy == Some(ByTimeout) && r.device.None? && r.decidedAt.None?
    case Whitelisted => r.decidedBy == Some(ByWhitelist) && r.device.None? && r.decidedAt == Some(r.createdAt)
    case BlockedByIp => r.decidedBy == Some(Autoblock) && r.device.None? && r.decidedAt == Some(r.createdAt)
    case BlockedByGeo => r.decidedBy == Some(GeoRule) && r.device.None? && r.decidedAt == Some(r.createdAt)
    case Notified => r.decidedBy.None? && r.device.None? && r.decidedAt == Some(r.createdAt)
  }

  /** The row a handler works on, once it has one. */
  function RowOf(pc: AccessPc): Option<Id> {
    match pc
    case Arrived | Gone => None
    case Inserted(id) => Some(id)
    case Waiting(id) => Some(id)
    case LostRace(id) => Some(id)
    case Answering(id, _, _) => Some(id)
    case Sent(reply) => Some(reply.id)
  }

  /** The handler's row is its own, and whatever the handler has in hand or has
      sent is the row's final state. */
  predicate AccessOk(t: Requests, h: Access) {
    RowOf(h.pc).Some? ==>
      var id := RowOf(h.pc).value;
      id in t && OwnRow(t[id], h) && HasFinal(t[id], h.pc)
  }

  predicate OwnRow(r: Row, h: Access) {
    && r.username == h.username && r.context == h.context && r.serverId == h.serverId && r.createdAt == h.now
    && (h.mode == Enforce ==> r.status != Notified)
  }

  predicate HasFinal(r: Row, pc: AccessPc) {
    match pc
    case LostRace(_) => r.status != Pending
    case Answering(_, status, decidedAt) => status == r.status != Pending && decidedAt == r.decidedAt
    case Sent(reply) =>
      r.status != Pending && (reply.verdict, reply.reason) == VerdictFor(r.status) && reply.decidedAt == r.decidedAt
    case _ => true
  }

  /** The handler's UPDATE decided its row. */
  predicate Winner(pc: VerdictPc) {
    pc.Won? || pc.ReadBack? || pc.Counting? || pc.Blocking? || pc.Finished? || pc.Answered200?
  }

  predicate VerdictOk(t: Requests, h: Verdict) {
    && (h.pc.Clocked? || h.pc.Refused? ==> h.now.Some?)
    && (h.pc.Conflict? || h.pc.ExpiredPending? || h.pc.Answered409? ==> h.id in t)
    && (Winner(h.pc) ==> h.now.Some? && h.id in t && WonRow(t[h.id], h) && HasDecided(t[h.id], h.pc))
  }

  /** The row says what this handler decided, when and from which device. */
  predicate WonRow(r: Row, h: Verdict) {
    && r.status == (if h.choice == ChooseDeny then Denied else Approved) && r.decidedBy == Some(Admin)
    && r.device == h.device && r.decidedAt == h.now
  }

  predicate HasDecided(r: Row, pc: VerdictPc) {
    match pc
    case ReadBack(row) => row == r
    case Counting(row, ip, _) => row == r && row.status == Denied && row.sourceIp == Some(ip)
    case Blocking(row, block) => row == r && row.status == Denied && row.sourceIp == Some(block.ip)
    case Finished(row, _) => row == r
    case Answered200(status, decidedAt, _) => status == r.status && decidedAt == r.decidedAt
    case _ => true
  }

  ghost predicate RowsOk(t: Requests) {
    forall id :: id in t ==> RowConsistent(t[id])
  }

  ghost predicate UniqueWinners(verdicts: map<Id, Verdict>) {
    forall v, w :: v in verdicts && w in verdicts && v != w && Winner(verdicts[v].pc) && Winner(verdicts[w].pc)
      ==> verdicts[v].id != verdicts[w].id
  }

  ghost predicate Inv(s: State) {
    && RowsOk(s.requests)
    && (forall p :: p in s.access ==> AccessOk(s.requests, s.access[p]))
    && (forall v :: v in s.verdicts ==> VerdictOk(s.requests, s.verdicts[v]))
    && UniqueWinners(s.verdicts)
  }

  /** A table that evolves keeps what is known about a handler that did not move. */
  lemma AccessOkStable(t: Requests, t': Requests, h: Access)
    requires TableEvolves(t, t') && AccessOk(t, h)
    ensures AccessOk(t', h)
  {
    if RowOf(h.pc).Some? {
      assert RowEvolves(t[RowOf(h.pc).value], t'[RowOf(h.pc).value]);
    }
  }

  lemma VerdictOkStable(t: Requests, t': Requests, h: Verdict)
    requires TableEvolves(t, t') && VerdictOk(t, h)
    ensures VerdictOk(t', h)
  {
    if h.id in t {
      assert RowEvolves(t[h.id], t'[h.id]);
    }
  }

  lemma UnmovedStayOk(s: State, t': Requests)
    requires TableEvolves(s.requests, t') && Inv(s)
    ensures forall p :: p in s.access ==> AccessOk(t', s.access[p])
    ensures forall v :: v in s.verdicts ==> VerdictOk(t', s.verdicts[v])
  {
    forall p | p in s.access ensures AccessOk(t', s.access[p]) {
      AccessOkStable(s.requests, t', s.access[p]);
    }
    forall v | v in s.verdicts ensures VerdictOk(t', s.verdicts[v]) {
      VerdictOkStable(s.requests, t', s.verdicts[v]);
    }
  }

  lemma AccessMoveOk(cfg: Config, t: Requests, isNew: bool, h: Access, op: AccessOp)
    requires RowsOk(t) && AccessOk(t, h)
    ensures var (t', pc) := AccessMove(cfg, t, isNew, h, op); RowsOk(t') && AccessOk(t', h.(pc := pc))
  {
  }

  lemma VerdictMoveOk(cfg: Config, t: Requests, b: map<Ip, Block>, h: Verdict, op: VerdictOp)
    requires RowsOk(t) && VerdictOk(t, h)
    ensures var e := VerdictMove(cfg, t, b, h, op); RowsOk(e.requests) && VerdictOk(e.requests, e.handler)
  {
  }

  lemma VerdictMoveWins(cfg: Config, t: Requests, b: map<Ip, Block>, h: Verdict, op: VerdictOp)
    ensures var e := VerdictMove(cfg, t, b, h, op);
            e.handler.id == h.id
            && (Winner(e.handler.pc) ==> Winner(h.pc) || (h.id in t && t[h.id].status == Pending))
  {
  }

  lemma WinnersStayUnique(cfg: Config, s: State, a: Action)
    requires Inv(s)
    ensures UniqueWinners(Step(cfg, s, a).verdicts)
  {
    if a.VerdictDoes? && a.v in s.verdicts {
      var h := s.verdicts[a.v];
      VerdictMoveOk(cfg, s.requests, s.blocked, h, a.vop);
      VerdictMoveWins(cfg, s.requests, s.blocked, h, a.vop);
      forall w | w in s.verdicts && Winner(s.verdicts[w].pc) ensures s.requests[s.verdicts[w].id].status != Pending {
        assert VerdictOk(s.requests, s.verdicts[w]);
      }
    }
  }

  lemma StepKeepsInv(cfg: Config, s: State, a: Action)
    requires Inv(s)
    ensures Inv(Step(cfg, s, a))
  {
    StepEvolves(cfg, s, a);
    UnmovedStayOk(s, Step(cfg, s, a).requests);
    WinnersStayUnique(cfg, s, a);
    match a {
      case AccessDoes(p, op) =>
        if p in s.access {
          AccessMoveOk(cfg, s.requests, op.Insert? && FreshId(s, op.newId), s.access[p], op);
        }
      case VerdictDoes(v, op) =>
        if v in s.verdicts {
          VerdictMoveOk(cfg, s.requests, s.blocked, s.verdicts[v], op);
        }
      case _ =>
    }
  }

  lemma {:induction false} RunKeepsInv(cfg: Config, s: State, acts: seq<Action>)
    requires Inv(s)
    ensures Inv(Run(cfg, s, acts))
    decreases |acts|
  {
    if acts != [] {
      StepKeepsInv(cfg, s, acts[0]);
      RunKeepsInv(cfg, Step(cfg, s, acts[0]), acts[1..]);
    }
  }
}
