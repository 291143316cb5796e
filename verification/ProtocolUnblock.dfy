/** What an unblock frees while the store calls of denials interleave. A handler
    that has looked up its address's block before the unblock may count, or be
    about to insert, denials from before it. */
module ProtocolUnblock {
  import opened Model
  import opened Sets
  import opened Tables
  import opened Rules
  import opened Protocol
  import opened ProtocolSafety
  import opened ProtocolTheorems
  import opened ProtocolAutoblock

  /** The block counts no denial from before the unblock and does not end before it. */
  predicate BlockAfter(b: Block, at: Time) {
    && b.firstDeniedAt.Some? && at <= b.firstDeniedAt.value
    && (b.expiresAt.Some? ==> at <= b.expiresAt.value)
  }

  predicate PcAfter(pc: VerdictPc, ip: Ip, at: Time) {
    match pc
    case Counting(_, x, since) => x == ip ==> at <= since
    case Blocking(_, b) => b.ip == ip ==> BlockAfter(b, at)
    case _ => true
  }

  /** No handler of the address is past its block lookup with a count that reaches
      behind the instant; in particular when none is in Counting or Blocking. */
  ghost predicate Clear(s: State, ip: Ip, at: Time) {
    forall v :: v in s.verdicts ==> PcAfter(s.verdicts[v].pc, ip, at)
  }

  /** Some handler is about to insert a block that counts a denial from before the instant. */
  ghost predicate Recounts(s: State, ip: Ip, at: Time) {
    exists v :: v in s.verdicts && s.verdicts[v].pc.Blocking? && s.verdicts[v].pc.block.ip == ip
                && s.verdicts[v].pc.block.firstDeniedAt.Some? && s.verdicts[v].pc.block.firstDeniedAt.value < at
  }

  /** Later unblocks of the address carry later instants. */
  predicate UnblocksAfter(acts: seq<Action>, ip: Ip, at: Time) {
    forall i :: 0 <= i < |acts| && acts[i].Unblock? && acts[i].ip == ip ==> at <= acts[i].now
  }

  ghost predicate NeverRecounts(cfg: Config, s: State, ip: Ip, at: Time) {
    forall future :: UnblocksAfter(future, ip, at) ==> !Recounts(Run(cfg, s, future), ip, at)
  }

  // ---- a count starts no later than its own clock reading -------------------------------

  predicate SinceOk(h: Verdict) {
    h.pc.Counting? ==> h.now.Some? && h.pc.since <= h.now.value
  }

  ghost predicate SincesOk(s: State) {
    forall v :: v in s.verdicts ==> SinceOk(s.verdicts[v])
  }

  lemma {:induction false} RunKeepsSinces(cfg: Config, s: State, acts: seq<Action>)
    requires SincesOk(s) && cfg.window >= 0
    ensures SincesOk(Run(cfg, s, acts))
    decreases |acts|
  {
    if acts != [] {
      RunKeepsSinces(cfg, Step(cfg, s, acts[0]), acts[1..]);
    }
  }

  // ---- a clear unblock stays clear ---------------------------------------------------------

  /** The address still has the lifted block, or one made of denials from after the unblock. */
  ghost predicate Freed(s: State, ip: Ip, at: Time, lifted: Block) {
    && ip in s.blocked && lifted.expiresAt == Some(at)
    && (s.blocked[ip] == lifted || BlockAfter(s.blocked[ip], at))
    && Clear(s, ip, at) && SincesOk(s)
  }

  lemma MoveKeepsFreed(cfg: Config, t: Requests, b: map<Ip, Block>, h: Verdict, op: VerdictOp,
                       ip: Ip, at: Time, lifted: Block)
    requires cfg.threshold > 0 && cfg.window >= 0 && lifted.expiresAt == Some(at)
    requires ip in b && (b[ip] == lifted || BlockAfter(b[ip], at))
    requires PcAfter(h.pc, ip, at) && SinceOk(h)
    ensures var e := VerdictMove(cfg, t, b, h, op);
            && ip in e.blocked && (e.blocked[ip] == lifted || BlockAfter(e.blocked[ip], at))
            && PcAfter(e.handler.pc, ip, at) && SinceOk(e.handler)
  {
  }

  lemma StepKeepsFreed(cfg: Config, s: State, a: Action, ip: Ip, at: Time, lifted: Block)
    requires cfg.threshold > 0 && cfg.window >= 0 && Freed(s, ip, at, lifted)
    requires a.Unblock? && a.ip == ip ==> at <= a.now
    ensures Freed(Step(cfg, s, a), ip, at, lifted)
  {
    if a.VerdictDoes? && a.v in s.verdicts {
      MoveKeepsFreed(cfg, s.requests, s.blocked, s.verdicts[a.v], a.vop, ip, at, lifted);
    }
  }

  lemma {:induction false} RunKeepsFreed(cfg: Config, s: State, acts: seq<Action>, ip: Ip, at: Time, lifted: Block)
    requires cfg.threshold > 0 && cfg.window >= 0 && Freed(s, ip, at, lifted)
    requires UnblocksAfter(acts, ip, at)
    ensures Freed(Run(cfg, s, acts), ip, at, lifted)
    decreases |acts|
  {
    if acts != [] {
      StepKeepsFreed(cfg, s, acts[0], ip, at, lifted);
      RunKeepsFreed(cfg, Step(cfg, s, acts[0]), acts[1..], ip, at, lifted);
    }
  }

  /** When no handler of the address is in Counting or Blocking at the unblock (or
      none reaches behind it), the address is blocked again only by Threshold
      denials dated at or after the unblock, whatever interleaves. */
  lemma OnlyNewDenialsBlockAgain(cfg: Config, past: seq<Action>, future: seq<Action>, ip: Ip, at: Time)
    requires cfg.threshold > 0 && cfg.window >= 0 && UnblocksAfter(future, ip, at)
    requires var s := Run(cfg, INIT, past); ip in s.blocked && s.blocked[ip].Active(at) && Clear(s, ip, at)
    ensures var s := Run(cfg, INIT, past);
            var s' := Run(cfg, INIT, past + [Unblock(ip, at)] + future);
            && ip in s'.blocked
            && (s'.blocked[ip] == s.blocked[ip].(expiresAt := Some(at))
                || (|Denials(s'.requests, ip, at)| >= cfg.threshold && BlockAfter(s'.blocked[ip], at)))
  {
    var s := Run(cfg, INIT, past);
    var lifted := s.blocked[ip].(expiresAt := Some(at));
    RunKeepsSinces(cfg, INIT, past);
    assert Freed(Step(cfg, s, Unblock(ip, at)), ip, at, lifted);
    RunThenStep(cfg, INIT, past, Unblock(ip, at));
    RunSplit(cfg, INIT, past + [Unblock(ip, at)], future);
    RunKeepsFreed(cfg, Step(cfg, s, Unblock(ip, at)), future, ip, at, lifted);
    var s' := Run(cfg, INIT, past + [Unblock(ip, at)] + future);
    NoBlockWithoutDenials(cfg, past + [Unblock(ip, at)] + future, ip);
    if BlockAfter(s'.blocked[ip], at) {
      forall id | id in CountedBy(cfg, s'.requests, s'.blocked[ip]) ensures id in Denials(s'.requests, ip, at) {
      }
      SubsetSize(CountedBy(cfg, s'.requests, s'.blocked[ip]), Denials(s'.requests, ip, at));
    }
  }

  // ---- what an unclear one can lead to --------------------------------------------------------

  lemma RunThenStep(cfg: Config, s: State, acts: seq<Action>, a: Action)
    ensures Run(cfg, s, acts + [a]) == Step(cfg, Run(cfg, s, acts), a)
  {
    RunSplit(cfg, s, acts, [a]);
    assert [a][1..] == [];
    assert Run(cfg, Step(cfg, Run(cfg, s, acts), a), []) == Step(cfg, Run(cfg, s, acts), a);
  }

  lemma {:induction false} FreshNat(used: set<Id>) returns (x: Id)
    ensures x !in used && forall y :: y in used ==> y < x
    decreases |used|
  {
    if used == {} {
      x := 0;
    } else {
      var y :| y in used;
      var z := FreshNat(used - {y});
      x := Max(y + 1, z);
      assert forall k :: k in used ==> k == y || k in used - {y};
    }
  }

  predicate NoUnblocks(acts: seq<Action>) {
    forall i :: 0 <= i < |acts| ==> !acts[i].Unblock?
  }

  function DeniedRow(cfg: Config, ip: Ip, at: Time): Row {
    Row(0, Ssh, "", Some(ip), Denied, Some(Admin), None, at, at + cfg.ttl, Some(at))
  }

  function PendingRow(cfg: Config, ip: Ip, at: Time): Row {
    DeniedRow(cfg, ip, at).(status := Pending, decidedBy := None, decidedAt := None)
  }

  /** A new request from the address, and a verdict handler posted for it. */
  lemma OpenRequest(cfg: Config, s: State, ip: Ip, at: Time) returns (acts: seq<Action>, id: Id, w: Id)
    ensures NoUnblocks(acts) && id !in s.requests && w !in s.verdicts
    ensures var s' := Run(cfg, s, acts);
            && s'.requests == s.requests[id := PendingRow(cfg, ip, at)] && s'.blocked == s.blocked
            && s'.verdicts == s.verdicts[w := Verdict(id, ChooseDeny, None, None, Posted)]
  {
    var p := FreshNat(s.access.Keys);
    w := FreshNat(s.verdicts.Keys);
    id := FreshNat(s.requests.Keys + set v | v in s.verdicts :: s.verdicts[v].id);
    var arrive := Arrive(p, Access(Enforce, Ssh, "", 0, Some(ip), at, Arrived));
    var insert := AccessDoes(p, Insert(id, Findings(false, false, false)));
    var post := Post(w, id, ChooseDeny, None);
    var s1 := Step(cfg, s, arrive);
    assert FreshId(s1, id) by {
      forall v | v in s1.verdicts ensures s1.verdicts[v].id != id {
        assert s.verdicts[v].id in set v | v in s.verdicts :: s.verdicts[v].id;
      }
    }
    RunThenStep(cfg, s, [], arrive);
    RunThenStep(cfg, s, [arrive], insert);
    RunThenStep(cfg, s, [arrive, insert], post);
    assert [] + [arrive] == [arrive] && [arrive] + [insert] == [arrive, insert];
    acts := [arrive, insert] + [post];
  }

  /** One more request from the address, denied at its creation instant. */
  lemma OneMoreDenial(cfg: Config, s: State, ip: Ip, at: Time) returns (acts: seq<Action>, id: Id, w: Id)
    requires cfg.ttl > 0
    ensures NoUnblocks(acts) && id !in s.requests && w !in s.verdicts
    ensures var s' := Run(cfg, s, acts);
            && s'.requests == s.requests[id := DeniedRow(cfg, ip, at)] && s'.blocked == s.blocked
            && s'.verdicts == s.verdicts[w := Verdict(id, ChooseDeny, None, Some(at), Won)]
  {
    var open: seq<Action>;
    open, id, w := OpenRequest(cfg, s, ip, at);
    var read, decide := VerdictDoes(w, ReadClock(at)), VerdictDoes(w, Decide);
    RunThenStep(cfg, s, open, read);
    RunThenStep(cfg, s, open + [read], decide);
    acts := open + [read] + [decide];
  }

  /** Any number of further denials at one instant; nobody else moves. */
  lemma {:induction false} ManyDenials(cfg: Config, s: State, ip: Ip, at: Time, n: nat) returns (acts: seq<Action>)
    requires cfg.ttl > 0
    ensures NoUnblocks(acts)
    ensures var s' := Run(cfg, s, acts);
            && |Denials(s'.requests, ip, at)| >= n
            && (n > 0 ==> exists id :: id in Denials(s'.requests, ip, at) && s'.requests[id].decidedAt == Some(at))
            && (forall v :: v in s.verdicts ==> v in s'.verdicts && s'.verdicts[v] == s.verdicts[v])
    decreases n
  {
    if n == 0 {
      acts := [];
    } else {
      var before := ManyDenials(cfg, s, ip, at, n - 1);
      var s1 := Run(cfg, s, before);
      var more, id, w := OneMoreDenial(cfg, s1, ip, at);
      acts := before + more;
      RunSplit(cfg, s, before, more);
      var s' := Run(cfg, s, acts);
      assert Denials(s'.requests, ip, at) == Denials(s1.requests, ip, at) + {id};
      assert s'.requests[id].decidedAt == Some(at);
    }
  }

  /** A handler that counts from a bound before the unblock can come to block on older denials. */
  lemma CountingCanRecount(cfg: Config, s: State, v: Id, ip: Ip, at: Time) returns (acts: seq<Action>)
    requires cfg.threshold > 0 && cfg.ttl > 0
    requires v in s.verdicts && s.verdicts[v].pc.Counting? && s.verdicts[v].now.Some?
    requires s.verdicts[v].pc.ip == ip && s.verdicts[v].pc.since < at
    ensures NoUnblocks(acts) && Recounts(Run(cfg, s, acts), ip, at)
  {
    var since := s.verdicts[v].pc.since;
    var before := ManyDenials(cfg, s, ip, since, cfg.threshold);
    var s1 := Run(cfg, s, before);
    var id :| id in Denials(s1.requests, ip, since) && s1.requests[id].decidedAt == Some(since);
    var count := VerdictDoes(v, CountDenials(StatsOf(s1.requests, ip, since)));
    acts := before + [count];
    RunThenStep(cfg, s, before, count);
    var s2 := Step(cfg, s1, count);
    assert v in s2.verdicts && s2.verdicts[v].pc.Blocking? && s2.verdicts[v].pc.block.ip == ip;
  }

  /** The handler of a fresh denial gets to count when the address is not blocked at its reading. */
  lemma GetsToCount(cfg: Config, s: State, w: Id, ip: Ip, at: Time) returns (acts: seq<Action>)
    requires ip != "" && (ip in s.blocked ==> !s.blocked[ip].Active(at))
    requires w in s.verdicts && s.verdicts[w].pc.Won? && s.verdicts[w].now == Some(at)
    requires s.verdicts[w].id in s.requests && s.requests[s.verdicts[w].id] == DeniedRow(cfg, ip, at)
    ensures NoUnblocks(acts)
    ensures var h := s.verdicts[w];
            Run(cfg, s, acts) == s.(verdicts := s.verdicts[w := h.(pc :=
              Counting(DeniedRow(cfg, ip, at), ip, Since(cfg, BlockOf(s.blocked, ip), at)))])
  {
    var s1 := Step(cfg, s, VerdictDoes(w, ReadDecided));
    var s2 := Step(cfg, s1, VerdictDoes(w, LookUpBlock));
    acts := [VerdictDoes(w, ReadDecided)] + [VerdictDoes(w, LookUpBlock)];
    assert Run(cfg, s, []) == s && [] + [VerdictDoes(w, ReadDecided)] == [VerdictDoes(w, ReadDecided)];
    RunThenStep(cfg, s, [], VerdictDoes(w, ReadDecided));
    RunThenStep(cfg, s, [VerdictDoes(w, ReadDecided)], VerdictDoes(w, LookUpBlock));
    assert s2.verdicts == s.verdicts[w := s.verdicts[w].(pc :=
      Counting(DeniedRow(cfg, ip, at), ip, Since(cfg, BlockOf(s.blocked, ip), at)))];
  }

  /** A handler that inserts a block ending before the unblock opens the way for
      a count from that end on. */
  lemma EarlyEndCanRecount(cfg: Config, s: State, v: Id, ip: Ip, at: Time) returns (acts: seq<Action>)
    requires cfg.threshold > 0 && cfg.ttl > 0 && cfg.window >= 0 && ip != ""
    requires v in s.verdicts && s.verdicts[v].pc.Blocking?
    requires s.verdicts[v].pc.block.ip == ip
    requires s.verdicts[v].pc.block.expiresAt.Some? && s.verdicts[v].pc.block.expiresAt.value < at
    ensures NoUnblocks(acts) && Recounts(Run(cfg, s, acts), ip, at)
  {
    var end := s.verdicts[v].pc.block.expiresAt.value;
    var insert := VerdictDoes(v, InsertBlock);
    var s1 := Step(cfg, s, insert);
    assert Run(cfg, s, []) == s && [] + [insert] == [insert];
    RunThenStep(cfg, s, [], insert);
    var deny, id, w := OneMoreDenial(cfg, s1, ip, end);
    var s2 := Run(cfg, s1, deny);
    RunSplit(cfg, s, [insert], deny);
    var look := GetsToCount(cfg, s2, w, ip, end);
    var s3 := Run(cfg, s2, look);
    RunSplit(cfg, s, [insert] + deny, look);
    var rest := CountingCanRecount(cfg, s3, w, ip, at);
    RunSplit(cfg, s, [insert] + deny + look, rest);
    acts := [insert] + deny + look + rest;
  }

  /** Once an address is unblocked, some interleaving lets a block count a denial
      from before the unblock exactly when, at the unblock, a handler of the address
      counts from an earlier bound, or is about to insert a block that counts such
      a denial or ends before it. */
  lemma NeverRecountsExactly(cfg: Config, past: seq<Action>, ip: Ip, at: Time)
    requires cfg.threshold > 0 && cfg.ttl > 0 && cfg.window >= 0 && ip != ""
    requires var s := Run(cfg, INIT, past); ip in s.blocked && s.blocked[ip].Active(at)
    ensures var s := Step(cfg, Run(cfg, INIT, past), Unblock(ip, at));
            NeverRecounts(cfg, s, ip, at) <==> Clear(s, ip, at)
  {
    var s := Step(cfg, Run(cfg, INIT, past), Unblock(ip, at));
    RunThenStep(cfg, INIT, past, Unblock(ip, at));
    RunKeepsSinces(cfg, INIT, past + [Unblock(ip, at)]);
    if Clear(s, ip, at) {
      forall future | UnblocksAfter(future, ip, at) ensures !Recounts(Run(cfg, s, future), ip, at) {
        RunKeepsFreed(cfg, s, future, ip, at, s.blocked[ip]);
      }
    } else {
      var v :| v in s.verdicts && !PcAfter(s.verdicts[v].pc, ip, at);
      RunKeepsEarned(cfg, INIT, past + [Unblock(ip, at)]);
      assert EarnedPc(cfg, s.requests, s.verdicts[v]);
      UnclearRecounts(cfg, s, v, ip, at);
    }
  }

  lemma UnclearRecounts(cfg: Config, s: State, v: Id, ip: Ip, at: Time)
    requires cfg.threshold > 0 && cfg.ttl > 0 && cfg.window >= 0 && ip != ""
    requires v in s.verdicts && EarnedPc(cfg, s.requests, s.verdicts[v]) && !PcAfter(s.verdicts[v].pc, ip, at)
    ensures !NeverRecounts(cfg, s, ip, at)
  {
    var acts: seq<Action> := [];
    if s.verdicts[v].pc.Counting? {
      acts := CountingCanRecount(cfg, s, v, ip, at);
    } else if s.verdicts[v].pc.block.firstDeniedAt.value < at {
      assert Run(cfg, s, []) == s;
    } else {
      acts := EarlyEndCanRecount(cfg, s, v, ip, at);
    }
    assert UnblocksAfter(acts, ip, at) && Recounts(Run(cfg, s, acts), ip, at);
  }

  // ---- an example ---------------------------------------------------------------------------

  const TWICE := Config(2, 3600, 0, 30)
  const ADDRESS := "203.0.113.7"

  lemma ReachableRun(cfg: Config, s: State, acts: seq<Action>)
    requires Reachable(cfg, s)
    ensures Reachable(cfg, Run(cfg, s, acts))
  {
    var before :| Run(cfg, INIT, before) == s;
    RunSplit(cfg, INIT, before, acts);
  }

  /** Two denied requests x and y of the address, and nothing blocked. */
  predicate TwoDenied(s: State, x: Id, y: Id) {
    && x != y && s.blocked == map[]
    && s.requests == map[x := DeniedRow(TWICE, ADDRESS, 10), y := DeniedRow(TWICE, ADDRESS, 10)]
  }

  lemma BothWon() returns (s: State, x: Id, y: Id, v: Id, w: Id)
    ensures Reachable(TWICE, s) && TwoDenied(s, x, y) && v != w
    ensures v in s.verdicts && s.verdicts[v] == Verdict(x, ChooseDeny, None, Some(10), Won)
    ensures w in s.verdicts && s.verdicts[w] == Verdict(y, ChooseDeny, None, Some(10), Won)
  {
    var first, second: seq<Action>;
    first, x, v := OneMoreDenial(TWICE, INIT, ADDRESS, 10);
    var s1 := Run(TWICE, INIT, first);
    second, y, w := OneMoreDenial(TWICE, s1, ADDRESS, 10);
    s := Run(TWICE, s1, second);
    RunSplit(TWICE, INIT, first, second);
  }

  predicate CountsFrom(s: State, v: Id, since: Time) {
    && v in s.verdicts && s.verdicts[v].now == Some(10)
    && s.verdicts[v].pc == Counting(DeniedRow(TWICE, ADDRESS, 10), ADDRESS, since)
  }

  lemma BothCounting() returns (s: State, x: Id, y: Id, v: Id, w: Id)
    ensures Reachable(TWICE, s) && TwoDenied(s, x, y) && v != w
    ensures CountsFrom(s, v, -3590) && CountsFrom(s, w, -3590)
  {
    s, x, y, v, w := BothWon();
    assert ADDRESS[0] == '2';
    var look := GetsToCount(TWICE, s, v, ADDRESS, 10);
    ReachableRun(TWICE, s, look);
    s := Run(TWICE, s, look);
    look := GetsToCount(TWICE, s, w, ADDRESS, 10);
    ReachableRun(TWICE, s, look);
    s := Run(TWICE, s, look);
  }

  predicate BlocksForever(s: State, v: Id) {
    && v in s.verdicts && s.verdicts[v].pc.Blocking?
    && s.verdicts[v].pc.block.ip == ADDRESS && s.verdicts[v].pc.block.expiresAt.None?
  }

  /** Both handlers have counted both denials. */
  lemma BothReady() returns (s: State, v: Id, w: Id)
    ensures Reachable(TWICE, s) && v != w && BlocksForever(s, v) && BlocksForever(s, w)
    ensures Denials(s.requests, ADDRESS, 20) == {}
  {
    var x, y;
    s, x, y, v, w := BothCounting();
    assert Denials(s.requests, ADDRESS, -3590) == {x, y};
    var st := StatsOf(s.requests, ADDRESS, -3590);
    s := Advance(TWICE, s, VerdictDoes(v, CountDenials(st)));
    s := Advance(TWICE, s, VerdictDoes(w, CountDenials(st)));
  }

  /** A reachable run in which an unblocked address is blocked again although no
      denial is dated at or after the unblock: the second of two handlers that
      counted the same denials inserts its block late. */
  lemma UnblockUndone() returns (blocked: State, freed: State, again: State, w: Id)
    ensures Reachable(TWICE, blocked) && ADDRESS in blocked.blocked && blocked.blocked[ADDRESS].Active(20)
    ensures freed == Step(TWICE, blocked, Unblock(ADDRESS, 20)) && !freed.blocked[ADDRESS].Active(20)
    ensures again == Step(TWICE, freed, VerdictDoes(w, InsertBlock)) && again.blocked[ADDRESS].Active(20)
    ensures again.requests == blocked.requests && Denials(again.requests, ADDRESS, 20) == {}
  {
    var s, v, w' := BothReady();
    w := w';
    blocked := Advance(TWICE, s, VerdictDoes(v, InsertBlock));
    freed := Step(TWICE, blocked, Unblock(ADDRESS, 20));
    again := Step(TWICE, freed, VerdictDoes(w, InsertBlock));
  }
}
