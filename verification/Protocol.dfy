/** Any number of POST /access-request and POST /verdict handlers over one
    database. A handler is a program with a program counter; every store
    statement, every clock reading and every answer is one atomic step, and the
    steps of different handlers interleave in any order. An action that its
    handler is not ready for leaves the state unchanged.

    Several processes share only the tables, so the verdict travels through the
    requests row. Every clock reading is an arbitrary instant: the theorems that
    need an ordering of readings say so. */
module Protocol {
  import opened Model
  import opened Tables
  import opened Rules

  /** The answer of POST /access-request. */
  datatype Reply = Reply(id: Id, verdict: AgentVerdict, reason: Reason, decidedAt: Option<Time>)

  datatype AccessPc =
    | Arrived                                  // body accepted, creation instant read
    | Inserted(id: Id)                         // INSERT done, read-back to come
    | Waiting(id: Id)                          // pending: polling
    | LostRace(id: Id)                         // MarkTimeout matched no row
    | Answering(id: Id, status: Status, decidedAt: Option<Time>)  // final row in hand
    | Sent(reply: Reply)
    | Gone                                     // agent hung up, or a store error

  datatype Access = Access(mode: Mode, context: Context, username: User, serverId: Id,
                           sourceIp: Option<Ip>, now: Time, pc: AccessPc)

  datatype VerdictPc =
    | Posted                                   // body accepted
    | Clocked                                  // clock read
    | Refused                                  // UPDATE matched no row
    | Conflict                                 // the row exists: already decided
    | ExpiredPending                           // the conflict read found it pending
    | Won                                      // UPDATE matched the row
    | ReadBack(row: Row)                       // decided row in hand
    | Counting(row: Row, ip: Ip, since: Time)  // no active block, denials to count
    | Blocking(row: Row, block: Block)         // threshold reached, upsert to come
    | Finished(row: Row, autoBlocked: Option<Block>)
    | Answered200(status: Status, decidedAt: Option<Time>, autoBlocked: Option<Block>)
    | Answered404
    | Answered409(status: Status, decidedAt: Option<Time>)
    | Failed                                   // 500

  datatype Verdict = Verdict(id: Id, choice: Choice, device: Option<Id>, now: Option<Time>, pc: VerdictPc)

  datatype State = State(
    requests: Requests,
    blocked: map<Ip, Block>,      // blocked_ips has a unique index on ip
    access: map<Id, Access>,
    verdicts: map<Id, Verdict>)

  const INIT := State(map[], map[], map[], map[])

  /** The next statement of an access-request handler. */
  datatype AccessOp =
    | Insert(newId: Id, findings: Findings)
    | ReadCreated
    | Poll
    | MarkTimeout
    | ReadAfterRace
    | SendReply
    | AccessFails

  /** The next statement of a verdict handler. */
  datatype VerdictOp =
    | ReadClock(now: Time)
    | Decide
    | LookUp
    | ReadConflict
    | MarkConflict
    | ReadDecided
    | LookUpBlock
    | CountDenials(stats: Stats)
    | InsertBlock
    | SendVerdict
    | VerdictFails

  datatype Action =
    | Arrive(p: Id, handler: Access)
    | Post(v: Id, id: Id, choice: Choice, device: Option<Id>)
    | Unblock(ip: Ip, now: Time)
    | AccessDoes(p: Id, aop: AccessOp)
    | VerdictDoes(v: Id, vop: VerdictOp)

  /** The row of a new request. A rule decides it on the spot, at its creation instant. */
  function NewRow(cfg: Config, h: Access, outcome: Status): Row {
    Row(h.serverId, h.context, h.username, h.sourceIp, outcome, OutcomeBy(outcome), None,
        h.now, h.now + cfg.ttl, if outcome == Pending then None else Some(h.now))
  }

  /** The read of a row by a waiting handler: a row that is still pending keeps it waiting. */
  function OnRead(t: Requests, id: Id): AccessPc {
    if id !in t then Gone
    else if t[id].status == Pending then Waiting(id)
    else Answering(id, t[id].status, t[id].decidedAt)
  }

  /** One step of one access-request handler: the table after it, and the handler's new place. */
  function AccessMove(cfg: Config, t: Requests, isNew: bool, h: Access, op: AccessOp): (Requests, AccessPc) {
    match (op, h.pc)
    case (Insert(id, f), Arrived) =>
      if isNew then (t[id := NewRow(cfg, h, Outcome(f, h.mode))], Inserted(id)) else (t, h.pc)
    case (ReadCreated, Inserted(id)) => (t, OnRead(t, id))
    case (Poll, Waiting(id)) => (t, OnRead(t, id))
    case (MarkTimeout, Waiting(id)) =>
      (TimeoutRows(t, id),
       if id in t && t[id].status == Pending then Answering(id, Timeout, None) else LostRace(id))
    case (ReadAfterRace, LostRace(id)) =>
      (t, if id in t then Answering(id, t[id].status, t[id].decidedAt) else Gone)
    case (SendReply, Answering(id, status, decidedAt)) =>
      (t, Sent(Reply(id, VerdictFor(status).0, VerdictFor(status).1, decidedAt)))
    case (AccessFails, pc) => (t, if pc.Sent? then pc else Gone)
    case _ => (t, h.pc)
  }

  function BlockOf(blocked: map<Ip, Block>, ip: Ip): Option<Block> {
    if ip in blocked then Some(blocked[ip]) else None
  }

  predicate Answered(pc: VerdictPc) {
    pc.Answered200? || pc.Answered404? || pc.Answered409?
  }

  datatype VerdictEffect = VerdictEffect(requests: Requests, blocked: map<Ip, Block>, handler: Verdict)

  /** One step of one verdict handler: the tables after it, and the handler. */
  ghost function VerdictMove(cfg: Config, t: Requests, b: map<Ip, Block>, h: Verdict, op: VerdictOp): VerdictEffect {
    match (op, h.pc)
    case (ReadClock(now), Posted) => VerdictEffect(t, b, h.(now := Some(now), pc := Clocked))
    case (Decide, Clocked) =>
      if h.now.None? then VerdictEffect(t, b, h)
      else VerdictEffect(DecideRows(t, h.id, StatusOf(h.choice), h.device, h.now.value), b,
                         h.(pc := if h.id in t && Decidable(t[h.id], h.now.value) then Won else Refused))
    case (LookUp, Refused) => VerdictEffect(t, b, h.(pc := if h.id in t then Conflict else Answered404))
    case (ReadConflict, Conflict) =>
      VerdictEffect(t, b, h.(pc := if h.id !in t then Answered404
                                   else if t[h.id].status == Pending then ExpiredPending
                                   else Answered409(t[h.id].status, t[h.id].decidedAt)))
    case (MarkConflict, ExpiredPending) =>
      // The result of this update is ignored: timeout is reported either way.
      VerdictEffect(TimeoutRows(t, h.id), b, h.(pc := Answered409(Timeout, None)))
    case (ReadDecided, Won) => VerdictEffect(t, b, h.(pc := if h.id in t then ReadBack(t[h.id]) else Failed))
    case (LookUpBlock, ReadBack(row)) =>
      VerdictEffect(t, b, h.(pc := AfterLookUp(cfg, b, h, row)))
    case (CountDenials(st), Counting(row, ip, since)) =>
      if !IsStats(st, t, ip, since) || h.now.None? then VerdictEffect(t, b, h)
      else VerdictEffect(t, b, h.(pc := if st.count < cfg.threshold then Finished(row, None)
                                        else Blocking(row, NewBlock(cfg, ip, st, h.now.value))))
    case (InsertBlock, Blocking(row, block)) =>
      VerdictEffect(t, b[block.ip := block], h.(pc := Finished(row, Some(block))))
    case (SendVerdict, Finished(row, block)) =>
      VerdictEffect(t, b, h.(pc := Answered200(row.status, row.decidedAt, block)))
    case (VerdictFails, pc) => VerdictEffect(t, b, h.(pc := if Answered(pc) then pc else Failed))
    case _ => VerdictEffect(t, b, h)
  }

  /** Only a denial with a source address goes on to the auto-block, and only when no block is active. */
  function AfterLookUp(cfg: Config, b: map<Ip, Block>, h: Verdict, row: Row): VerdictPc {
    if row.status != Denied || row.sourceIp.None? || row.sourceIp.value == "" || h.now.None? then Finished(row, None)
    else
      var existing := BlockOf(b, row.sourceIp.value);
      if existing.Some? && existing.value.Active(h.now.value) then Finished(row, None)
      else Counting(row, row.sourceIp.value, Since(cfg, existing, h.now.value))
  }

  /** The id column default: a value no row has and no caller has named yet. */
  predicate FreshId(s: State, id: Id) {
    id !in s.requests && forall v :: v in s.verdicts ==> s.verdicts[v].id != id
  }

  ghost function Step(cfg: Config, s: State, a: Action): State {
    match a
    case Arrive(p, h) =>
      if p in s.access then s else s.(access := s.access[p := h.(pc := Arrived)])
    case Post(v, id, choice, device) =>
      if v in s.verdicts then s else s.(verdicts := s.verdicts[v := Verdict(id, choice, device, None, Posted)])
    case Unblock(ip, now) =>
      if ip in s.blocked && s.blocked[ip].Active(now)
      then s.(blocked := s.blocked[ip := s.blocked[ip].(expiresAt := Some(now))])
      else s
    case AccessDoes(p, op) =>
      if p !in s.access then s else
      var (t, pc) := AccessMove(cfg, s.requests, op.Insert? && FreshId(s, op.newId), s.access[p], op);
      s.(requests := t, access := s.access[p := s.access[p].(pc := pc)])
    case VerdictDoes(v, op) =>
      if v !in s.verdicts then s else
      var e := VerdictMove(cfg, s.requests, s.blocked, s.verdicts[v], op);
      s.(requests := e.requests, blocked := e.blocked, verdicts := s.verdicts[v := e.handler])
  }

  ghost function Run(cfg: Config, s: State, acts: seq<Action>): State
    decreases |acts|
  {
    if acts == [] then s else Run(cfg, Step(cfg, s, acts[0]), acts[1..])
  }
}
