/** The auto-block under concurrent denials: the three store calls of each
    RecordDenial interleave with everything else. */
module ProtocolAutoblock {
  import opened Model
  import opened Sets
  import opened Tables
  import opened Rules
  import opened Protocol
  import opened ProtocolSafety
  import opened ProtocolTheorems

  // ---- no block without enough denials ---------------------------------------------

  /** The denials a block stands for: from Window before it on, dated between its
      own first and last denial. */
  ghost function CountedBy(cfg: Config, t: Requests, b: Block): set<Id> {
    set id | id in Denials(t, b.ip, b.createdAt - cfg.window)
             && (b.firstDeniedAt.Some? ==> b.firstDeniedAt.value <= t[id].decidedAt.value)
             && (b.lastDeniedAt.Some? ==> t[id].decidedAt.value <= b.lastDeniedAt.value)
  }

  /** The block's own count is at least Threshold, its first denial is no older than
      Window before it, and the table has as many denials as it counted. */
  ghost predicate Earned(cfg: Config, t: Requests, b: Block) {
    && b.denialCount >= cfg.threshold
    && (b.denialCount > 0 ==>
          && b.firstDeniedAt.Some? && b.lastDeniedAt.Some?
          && b.createdAt - cfg.window <= b.firstDeniedAt.value <= b.lastDeniedAt.value)
    && |CountedBy(cfg, t, b)| >= b.denialCount
  }

  lemma EarnedStable(cfg: Config, t: Requests, t': Requests, b: Block)
    requires TableEvolves(t, t') && Earned(cfg, t, b)
    ensures Earned(cfg, t', b)
  {
    var was, now := CountedBy(cfg, t, b), CountedBy(cfg, t', b);
    forall id | id in was ensures id in now {
      assert id in Denials(t, b.ip, b.createdAt - cfg.window);
      assert RowEvolves(t[id], t'[id]);
    }
    SubsetSize(was, now);
  }

  /** A block made from a count is earned: every denial counted lies between the first and the last. */
  lemma CountEarns(cfg: Config, t: Requests, ip: Ip, since: Time, st: Stats, now: Time)
    requires IsStats(st, t, ip, since) && st.count >= cfg.threshold && since >= now - cfg.window
    ensures Earned(cfg, t, NewBlock(cfg, ip, st, now))
  {
    var b := NewBlock(cfg, ip, st, now);
    var ds := Denials(t, ip, since);
    forall id | id in ds ensures id in CountedBy(cfg, t, b) {
    }
    SubsetSize(ds, CountedBy(cfg, t, b));
  }

  ghost predicate EarnedPc(cfg: Config, t: Requests, h: Verdict) {
    match h.pc
    case Counting(_, ip, since) => h.now.Some? && since >= h.now.value - cfg.window
    case Blocking(_, block) => Earned(cfg, t, block)
    case _ => true
  }

  ghost predicate TableEarned(cfg: Config, t: Requests, blocked: map<Ip, Block>) {
    forall ip :: ip in blocked ==> blocked[ip].ip == ip && Earned(cfg, t, blocked[ip])
  }

  ghost predicate HandlersEarned(cfg: Config, t: Requests, verdicts: map<Id, Verdict>) {
    forall v :: v in verdicts ==> EarnedPc(cfg, t, verdicts[v])
  }

  ghost predicate BlocksEarned(cfg: Config, s: State) {
    TableEarned(cfg, s.requests, s.blocked) && HandlersEarned(cfg, s.requests, s.verdicts)
  }

  lemma EarnedAllStable(cfg: Config, s: State, t': Requests)
    requires TableEvolves(s.requests, t') && BlocksEarned(cfg, s)
    ensures TableEarned(cfg, t', s.blocked) && HandlersEarned(cfg, t', s.verdicts)
  {
    forall ip | ip in s.blocked ensures Earned(cfg, t', s.blocked[ip]) {
      EarnedStable(cfg, s.requests, t', s.blocked[ip]);
    }
    forall v | v in s.verdicts ensures EarnedPc(cfg, t', s.verdicts[v]) {
      if s.verdicts[v].pc.Blocking? {
        EarnedStable(cfg, s.requests, t', s.verdicts[v].pc.block);
      }
    }
  }

  lemma MoveEarns(cfg: Config, t: Requests, b: map<Ip, Block>, h: Verdict, op: VerdictOp)
    requires EarnedPc(cfg, t, h)
    ensures var e := VerdictMove(cfg, t, b, h, op); EarnedPc(cfg, e.requests, e.handler)
  {
    var e := VerdictMove(cfg, t, b, h, op);
    if op.CountDenials? && h.pc.Counting? && e.handler.pc.Blocking? {
      CountEarns(cfg, t, h.pc.ip, h.pc.since, op.stats, h.now.value);
    }
  }

  lemma MoveKeepsTableEarned(cfg: Config, t: Requests, b: map<Ip, Block>, h: Verdict, op: VerdictOp)
    requires EarnedPc(cfg, t, h) && TableEarned(cfg, t, b)
    ensures var e := VerdictMove(cfg, t, b, h, op); e.blocked == b || TableEarned(cfg, e.requests, e.blocked)
  {
  }

  lemma StepKeepsEarned(cfg: Config, s: State, a: Action)
    requires BlocksEarned(cfg, s)
    ensures BlocksEarned(cfg, Step(cfg, s, a))
  {
    StepEvolves(cfg, s, a);
    EarnedAllStable(cfg, s, Step(cfg, s, a).requests);
    if a.VerdictDoes? && a.v in s.verdicts {
      MoveEarns(cfg, s.requests, s.blocked, s.verdicts[a.v], a.vop);
      MoveKeepsTableEarned(cfg, s.requests, s.blocked, s.verdicts[a.v], a.vop);
    }
  }

  lemma {:induction false} RunKeepsEarned(cfg: Config, s: State, acts: seq<Action>)
    requires BlocksEarned(cfg, s)
    ensures BlocksEarned(cfg, Run(cfg, s, acts))
    decreases |acts|
  {
    if acts != [] {
      StepKeepsEarned(cfg, s, acts[0]);
      RunKeepsEarned(cfg, Step(cfg, s, acts[0]), acts[1..]);
    }
  }

  /** In every reachable state, whatever interleaved, failed or was unblocked on
      the way, a block stands for at least Threshold admin denials of its address:
      as many as it counted, dated between its first denial, no older than Window
      before the block, and its last, which a late clock may put after the block. */
  lemma NoBlockWithoutDenials(cfg: Config, acts: seq<Action>, ip: Ip)
    requires ip in Run(cfg, INIT, acts).blocked
    ensures var s := Run(cfg, INIT, acts);
            && s.blocked[ip].ip == ip && Earned(cfg, s.requests, s.blocked[ip])
            && |Denials(s.requests, ip, s.blocked[ip].createdAt - cfg.window)| >= cfg.threshold
  {
    RunKeepsEarned(cfg, INIT, acts);
    var s := Run(cfg, INIT, acts);
    var b := s.blocked[ip];
    SubsetSize(CountedBy(cfg, s.requests, b), Denials(s.requests, ip, b.createdAt - cfg.window));
  }

  // ---- which call reports a block ------------------------------------------------------

  /** The block the call inserts by an action, if that is what the action does. */
  function Inserts(s: State, a: Action, v: Id): seq<Block> {
    if a == VerdictDoes(v, InsertBlock) && v in s.verdicts && s.verdicts[v].pc.Blocking?
    then [s.verdicts[v].pc.block] else []
  }

  /** The blocks the call inserts during a run. */
  ghost function Insertions(cfg: Config, s: State, acts: seq<Action>, v: Id): seq<Block>
    decreases |acts|
  {
    if acts == [] then [] else Inserts(s, acts[0], v) + Insertions(cfg, Step(cfg, s, acts[0]), acts[1..], v)
  }

  function Listed(b: Option<Block>): seq<Block> {
    if b.Some? then [b.value] else []
  }

  /** What a call has inserted by the time it is where it is. */
  predicate HasInserted(s: State, v: Id, inserted: seq<Block>) {
    if v !in s.verdicts then inserted == []
    else match s.verdicts[v].pc
         case Finished(_, block) => inserted == Listed(block)
         case Answered200(_, _, block) => inserted == Listed(block)
         case Failed => |inserted| <= 1
         case _ => inserted == []
  }

  lemma MoveInserts(cfg: Config, s: State, op: VerdictOp, v: Id, inserted: seq<Block>)
    requires v in s.verdicts && HasInserted(s, v, inserted)
    ensures HasInserted(Step(cfg, s, VerdictDoes(v, op)), v, inserted + Inserts(s, VerdictDoes(v, op), v))
  {
    var one := Inserts(s, VerdictDoes(v, op), v);
    assert inserted + [] == inserted && [] + one == one;
  }

  lemma StepInserts(cfg: Config, s: State, a: Action, v: Id, inserted: seq<Block>)
    requires HasInserted(s, v, inserted)
    ensures HasInserted(Step(cfg, s, a), v, inserted + Inserts(s, a, v))
  {
    if a.VerdictDoes? && a.v == v && v in s.verdicts {
      MoveInserts(cfg, s, a.vop, v, inserted);
    } else {
      assert inserted + Inserts(s, a, v) == inserted;
      if v in s.verdicts {
        Moved(cfg, s, a, v);
      }
    }
  }

  lemma {:induction false} RunInserts(cfg: Config, s: State, acts: seq<Action>, v: Id, inserted: seq<Block>)
    requires HasInserted(s, v, inserted)
    ensures HasInserted(Run(cfg, s, acts), v, inserted + Insertions(cfg, s, acts, v))
    decreases |acts|
  {
    if acts == [] {
      assert inserted + [] == inserted;
    } else {
      var s', one := Step(cfg, s, acts[0]), Inserts(s, acts[0], v);
      var rest := Insertions(cfg, s', acts[1..], v);
      StepInserts(cfg, s, acts[0], v, inserted);
      RunInserts(cfg, s', acts[1..], v, inserted + one);
      assert (inserted + one) + rest == inserted + (one + rest);
    }
  }

  /** A 200 reports an auto-block exactly when this very call inserted it, and every
      call inserts at most one. */
  lemma AutoBlockedIsOwn(cfg: Config, acts: seq<Action>, v: Id)
    requires v in Run(cfg, INIT, acts).verdicts
    ensures |Insertions(cfg, INIT, acts, v)| <= 1
    ensures var pc := Run(cfg, INIT, acts).verdicts[v].pc;
            pc.Answered200? ==>
              && (pc.autoBlocked.Some? <==> Insertions(cfg, INIT, acts, v) != [])
              && (pc.autoBlocked.Some? ==> Insertions(cfg, INIT, acts, v) == [pc.autoBlocked.value])
  {
    RunInserts(cfg, INIT, acts, v, []);
    assert [] + Insertions(cfg, INIT, acts, v) == Insertions(cfg, INIT, acts, v);
  }

  // ---- no missed block ----------------------------------------------------------------

  /** Neither an unblock nor a store error of a verdict handler. */
  predicate Quiet(a: Action) {
    !a.Unblock? && !(a.VerdictDoes? && a.vop.VerdictFails?)
  }

  /** The handler decided its row and has not finished the auto-block yet. */
  predicate InFlight(pc: VerdictPc) {
    pc.Won? || pc.ReadBack? || pc.Counting? || pc.Blocking?
  }

  ghost predicate Permanent(blocked: map<Ip, Block>) {
    forall ip :: ip in blocked ==> blocked[ip].expiresAt.None?
  }

  /** While no block exists, a count starts exactly at the handler's own window. */
  predicate WindowPc(cfg: Config, h: Verdict) {
    match h.pc
    case Posted => h.now.None?
    case Counting(_, _, since) => h.now.Some? && since == h.now.value - cfg.window
    case Blocking(_, block) => block.expiresAt.None?
    case _ => true
  }

  ghost predicate QuietInv(cfg: Config, s: State) {
    && Inv(s) && Permanent(s.blocked)
    && (forall v :: v in s.verdicts ==> WindowPc(cfg, s.verdicts[v]))
  }

  lemma StepKeepsQuiet(cfg: Config, s: State, a: Action)
    requires QuietInv(cfg, s) && Quiet(a) && cfg.blockDuration <= 0
    ensures QuietInv(cfg, Step(cfg, s, a))
  {
    StepKeepsInv(cfg, s, a);
    if a.VerdictDoes? && a.v in s.verdicts {
      MoveKeepsWindow(cfg, s.requests, s.blocked, s.verdicts[a.v], a.vop);
    }
  }

  lemma MoveKeepsWindow(cfg: Config, t: Requests, b: map<Ip, Block>, h: Verdict, op: VerdictOp)
    requires WindowPc(cfg, h) && Permanent(b) && cfg.blockDuration <= 0
    ensures var e := VerdictMove(cfg, t, b, h, op); WindowPc(cfg, e.handler) && Permanent(e.blocked)
  {
  }

  /** Every clock reading so far is at most Window after since. */
  ghost predicate WindowsReach(cfg: Config, s: State, since: Time) {
    forall v :: v in s.verdicts && s.verdicts[v].now.Some? ==> s.verdicts[v].now.value - cfg.window <= since
  }

  ghost predicate SomeoneCounts(s: State, ip: Ip, since: Time) {
    exists v :: v in s.verdicts && InFlight(s.verdicts[v].pc) && s.verdicts[v].id in Denials(s.requests, ip, since)
  }

  /** An unblocked address with enough recent denials still has a handler in
      flight whose own denial is among them: the last of them to count sees all. */
  ghost predicate NotMissed(cfg: Config, s: State, ip: Ip, since: Time) {
    ip !in s.blocked && WindowsReach(cfg, s, since) && |Denials(s.requests, ip, since)| >= cfg.threshold
    ==> SomeoneCounts(s, ip, since)
  }

  /** Clock readings are only added. */
  lemma ReachedBefore(cfg: Config, s: State, a: Action, since: Time)
    requires QuietInv(cfg, s) && WindowsReach(cfg, Step(cfg, s, a), since)
    ensures WindowsReach(cfg, s, since)
  {
    var s' := Step(cfg, s, a);
    forall v | v in s.verdicts && s.verdicts[v].now.Some? ensures s.verdicts[v].now.value - cfg.window <= since {
      Moved(cfg, s, a, v);
      assert WindowPc(cfg, s.verdicts[v]);
      assert s'.verdicts[v].now == s.verdicts[v].now;
    }
  }

  predicate Wins(s: State, a: Action) {
    && a.VerdictDoes? && a.vop.Decide? && a.v in s.verdicts
    && s.verdicts[a.v].pc.Clocked? && s.verdicts[a.v].now.Some?
    && s.verdicts[a.v].id in s.requests && Decidable(s.requests[s.verdicts[a.v].id], s.verdicts[a.v].now.value)
  }

  lemma StepKeepsNotMissed(cfg: Config, s: State, a: Action, ip: Ip, since: Time)
    requires QuietInv(cfg, s) && Quiet(a) && NotMissed(cfg, s, ip, since) && ip != ""
    ensures NotMissed(cfg, Step(cfg, s, a), ip, since)
  {
    var s' := Step(cfg, s, a);
    if ip !in s'.blocked && WindowsReach(cfg, s', since) && |Denials(s'.requests, ip, since)| >= cfg.threshold {
      ReachedBefore(cfg, s, a, since);
      if Wins(s, a) {
        DecidedCounts(cfg, s, a.v, ip, since);
      } else {
        SameDenials(cfg, s, a, ip, since);
        StillCounts(cfg, s, a, ip, since);
      }
    }
  }

  lemma StillCounts(cfg: Config, s: State, a: Action, ip: Ip, since: Time)
    requires QuietInv(cfg, s) && Quiet(a) && SomeoneCounts(s, ip, since) && ip != ""
    requires ip !in s.blocked && ip !in Step(cfg, s, a).blocked
    requires WindowsReach(cfg, s, since) && |Denials(s.requests, ip, since)| >= cfg.threshold
    requires Denials(Step(cfg, s, a).requests, ip, since) == Denials(s.requests, ip, since)
    ensures SomeoneCounts(Step(cfg, s, a), ip, since)
  {
    var s' := Step(cfg, s, a);
    var w :| w in s.verdicts && InFlight(s.verdicts[w].pc) && s.verdicts[w].id in Denials(s.requests, ip, since);
    Moved(cfg, s, a, w);
    if a.VerdictDoes? && a.v == w {
      assert VerdictOk(s.requests, s.verdicts[w]) && WindowPc(cfg, s.verdicts[w]);
      StaysInFlight(cfg, s, w, a.vop, ip, since);
    }
    assert w in s'.verdicts && InFlight(s'.verdicts[w].pc) && s'.verdicts[w].id in Denials(s'.requests, ip, since);
  }

  /** Only the handler an action names moves. */
  lemma Moved(cfg: Config, s: State, a: Action, w: Id)
    requires w in s.verdicts
    ensures w in Step(cfg, s, a).verdicts && Step(cfg, s, a).verdicts[w].id == s.verdicts[w].id
    ensures a.VerdictDoes? && a.v == w ==>
              var e := VerdictMove(cfg, s.requests, s.blocked, s.verdicts[w], a.vop);
              Step(cfg, s, a).verdicts[w] == e.handler && Step(cfg, s, a).blocked == e.blocked
    ensures !(a.VerdictDoes? && a.v == w) ==> Step(cfg, s, a).verdicts[w] == s.verdicts[w]
  {
  }

  /** The winning UPDATE itself: either the new denial counts, and its own
      handler is in flight, or the recent denials are the old ones. */
  lemma DecidedCounts(cfg: Config, s: State, v: Id, ip: Ip, since: Time)
    requires QuietInv(cfg, s) && NotMissed(cfg, s, ip, since)
    requires ip !in s.blocked && WindowsReach(cfg, s, since)
    requires Wins(s, VerdictDoes(v, Decide))
    requires |Denials(Step(cfg, s, VerdictDoes(v, Decide)).requests, ip, since)| >= cfg.threshold
    ensures SomeoneCounts(Step(cfg, s, VerdictDoes(v, Decide)), ip, since)
  {
    var s' := Step(cfg, s, VerdictDoes(v, Decide));
    var id := s.verdicts[v].id;
    if id in Denials(s'.requests, ip, since) {
      assert v in s'.verdicts && InFlight(s'.verdicts[v].pc) && s'.verdicts[v].id in Denials(s'.requests, ip, since);
    } else {
      assert Denials(s'.requests, ip, since) == Denials(s.requests, ip, since);
      var w :| w in s.verdicts && InFlight(s.verdicts[w].pc) && s.verdicts[w].id in Denials(s.requests, ip, since);
      assert w in s'.verdicts && InFlight(s'.verdicts[w].pc) && s'.verdicts[w].id in Denials(s'.requests, ip, since);
    }
  }

  lemma AccessSameDenials(cfg: Config, t: Requests, isNew: bool, h: Access, op: AccessOp, ip: Ip, since: Time)
    requires isNew && op.Insert? ==> op.newId !in t
    ensures Denials(AccessMove(cfg, t, isNew, h, op).0, ip, since) == Denials(t, ip, since)
  {
    var t' := AccessMove(cfg, t, isNew, h, op).0;
    forall id ensures id in Denials(t', ip, since) <==> id in Denials(t, ip, since) {
    }
  }

  /** Every other step leaves the denials as they are. */
  lemma SameDenials(cfg: Config, s: State, a: Action, ip: Ip, since: Time)
    requires Inv(s)
    requires !Wins(s, a)
    ensures Denials(Step(cfg, s, a).requests, ip, since) == Denials(s.requests, ip, since)
  {
    var s' := Step(cfg, s, a);
    if a.AccessDoes? {
      if a.p in s.access {
        AccessSameDenials(cfg, s.requests, a.aop.Insert? && FreshId(s, a.aop.newId), s.access[a.p], a.aop, ip, since);
      }
    } else {
      forall id ensures id in Denials(s'.requests, ip, since) <==> id in Denials(s.requests, ip, since) {
      }
    }
  }

  /** A handler whose denial is among enough recent ones cannot drop out before the block exists. */
  lemma StaysInFlight(cfg: Config, s: State, v: Id, op: VerdictOp, ip: Ip, since: Time)
    requires v in s.verdicts && VerdictOk(s.requests, s.verdicts[v]) && WindowPc(cfg, s.verdicts[v])
    requires InFlight(s.verdicts[v].pc) && s.verdicts[v].id in Denials(s.requests, ip, since)
    requires WindowsReach(cfg, s, since) && |Denials(s.requests, ip, since)| >= cfg.threshold
    requires !op.VerdictFails? && ip != "" && ip !in s.blocked
    requires ip !in VerdictMove(cfg, s.requests, s.blocked, s.verdicts[v], op).blocked
    ensures InFlight(VerdictMove(cfg, s.requests, s.blocked, s.verdicts[v], op).handler.pc)
  {
    var h := s.verdicts[v];
    if op.CountDenials? && h.pc.Counting? {
      FewerDenialsLater(s.requests, ip, h.pc.since, since);
    }
  }

  lemma {:induction false} RunKeepsNotMissed(cfg: Config, s: State, acts: seq<Action>, ip: Ip, since: Time)
    requires QuietInv(cfg, s) && NotMissed(cfg, s, ip, since) && ip != "" && cfg.blockDuration <= 0
    requires forall i :: 0 <= i < |acts| ==> Quiet(acts[i])
    ensures QuietInv(cfg, Run(cfg, s, acts)) && NotMissed(cfg, Run(cfg, s, acts), ip, since)
    decreases |acts|
  {
    if acts != [] {
      StepKeepsQuiet(cfg, s, acts[0]);
      StepKeepsNotMissed(cfg, s, acts[0], ip, since);
      RunKeepsNotMissed(cfg, Step(cfg, s, acts[0]), acts[1..], ip, since);
    }
  }

  /** With permanent blocks, no unblock and no store error: however the store
      calls of concurrent denials interleave, once every verdict handler is done,
      an address with Threshold denials within Window of the latest clock reading
      is blocked, for good. No ordering of the clock readings is assumed. */
  lemma EnoughDenialsBlock(cfg: Config, acts: seq<Action>, ip: Ip, latest: Time)
    requires cfg.threshold > 0 && cfg.blockDuration <= 0 && ip != ""
    requires forall i :: 0 <= i < |acts| ==> Quiet(acts[i])
    requires var s := Run(cfg, INIT, acts);
             && (forall v :: v in s.verdicts ==> !InFlight(s.verdicts[v].pc))
             && (forall v :: v in s.verdicts && s.verdicts[v].now.Some? ==> s.verdicts[v].now.value <= latest)
             && |Denials(s.requests, ip, latest - cfg.window)| >= cfg.threshold
    ensures var s := Run(cfg, INIT, acts);
            ip in s.blocked && forall t :: s.blocked[ip].Active(t)
  {
    assert Denials(INIT.requests, ip, latest - cfg.window) == {};
    RunKeepsNotMissed(cfg, INIT, acts, ip, latest - cfg.window);
  }
}
