/** Migrate, run by any number of replicas on one database. A step is one
    transaction under the advisory lock; any replica may fail, crash, lose the
    answer of its COMMIT, or start again at any moment. The schema is the list of
    the files whose body has been committed, in order: every schema is a fold
    over that list. */
module Migrations {
  import opened Model

  datatype Db = Db(tableExists: bool, versions: set<string>, schema: seq<string>)

  /** What a transaction has done so far and COMMIT will publish. */
  datatype Tx = Tx(creates: bool, body: Option<string>, record: Option<string>)

  const EMPTY_TX := Tx(false, None, None)

  /** Step 0 creates schema_migrations; step i + 1 applies file i. */
  datatype Pc =
    | Begin(step: nat)
    | Locked(step: nat)                // lock held, nothing done yet
    | New(step: nat)                   // the version is not recorded
    | Executed(step: nat, tx: Tx)      // the body ran
    | Ready(step: nat, tx: Tx)         // COMMIT is next
    | Finished
    | Failed

  datatype System = System(db: Db, lock: Option<Id>, replicas: map<Id, Pc>)

  datatype Action =
    | Start(r: Id)
    | Acquire(r: Id)
    | Check(r: Id)
    | Execute(r: Id)
    | Record(r: Id)
    | Commit(r: Id)
    | LoseCommit(r: Id)                // committed, but the replica sees an error
    | Fail(r: Id)                      // error or crash: rollback

  const SUFFIX := ".sql"

  function Version(name: string): string
    requires |name| >= |SUFFIX|
  {
    name[..|name| - |SUFFIX|]
  }

  predicate IsSql(name: string) {
    |name| >= |SUFFIX| && name[|name| - |SUFFIX|..] == SUFFIX
  }

  /** The .sql files of one directory in the order they are applied. */
  ghost predicate FileList(names: seq<string>) {
    && (forall i :: 0 <= i < |names| ==> IsSql(names[i]))
    && (forall i, j :: 0 <= i < j < |names| ==> names[i] != names[j])
  }

  function Publish(db: Db, tx: Tx): Db {
    Db(db.tableExists || tx.creates,
       if tx.record.Some? then db.versions + {tx.record.value} else db.versions,
       if tx.body.Some? then db.schema + [tx.body.value] else db.schema)
  }

  function After(names: seq<string>, step: nat): Pc {
    if step < |names| then Begin(step + 1) else Finished
  }

  predicate InTx(pc: Pc) {
    pc.Locked? || pc.New? || pc.Executed? || pc.Ready?
  }

  /** The first statements after the lock: create the table, or look the version up. */
  function Checked(names: seq<string>, db: Db, step: nat): Pc
    requires FileList(names) && step <= |names|
  {
    if step == 0 then Ready(0, EMPTY_TX.(creates := true))
    else if Version(names[step - 1]) in db.versions then Ready(step, EMPTY_TX)
    else New(step)
  }

  datatype Effect = Effect(db: Db, lock: Option<Id>, pc: Pc)

  /** One statement of replica r. */
  function Move(names: seq<string>, db: Db, lock: Option<Id>, r: Id, pc: Pc, a: Action): Effect
    requires FileList(names)
  {
    match (a, pc)
    case (Start(_), Finished) => Effect(db, lock, Begin(0))
    case (Start(_), Failed) => Effect(db, lock, Begin(0))
    case (Acquire(_), Begin(step)) => if lock.None? then Effect(db, Some(r), Locked(step)) else Effect(db, lock, pc)
    case (Check(_), Locked(step)) => Effect(db, lock, if step <= |names| then Checked(names, db, step) else pc)
    case (Execute(_), New(step)) =>
      Effect(db, lock, if 0 < step <= |names| then Executed(step, EMPTY_TX.(body := Some(names[step - 1]))) else pc)
    case (Record(_), Executed(step, tx)) =>
      Effect(db, lock, if 0 < step <= |names| then Ready(step, tx.(record := Some(Version(names[step - 1])))) else pc)
    case (Commit(_), Ready(step, tx)) => Effect(Publish(db, tx), None, After(names, step))
    case (LoseCommit(_), Ready(step, tx)) => Effect(Publish(db, tx), None, Failed)
    case (Fail(_), _) => Effect(db, if InTx(pc) then None else lock, if pc.Finished? then pc else Failed)
    case _ => Effect(db, lock, pc)
  }

  function Step(names: seq<string>, s: System, a: Action): System
    requires FileList(names)
  {
    if a.r in s.replicas then
      var e := Move(names, s.db, s.lock, a.r, s.replicas[a.r], a);
      System(e.db, e.lock, s.replicas[a.r := e.pc])
    else if a.Start? then s.(replicas := s.replicas[a.r := Begin(0)])
    else s
  }

  function Run(names: seq<string>, s: System, acts: seq<Action>): System
    requires FileList(names)
    decreases |acts|
  {
    if acts == [] then s else Run(names, Step(names, s, acts[0]), acts[1..])
  }

  // ---- the invariant ----------------------------------------------------------------

  function Versions(names: seq<string>, k: nat): set<string>
    requires FileList(names) && k <= |names|
  {
    set i | 0 <= i < k :: Version(names[i])
  }

  /** A prefix of the files, applied and recorded. */
  ghost predicate PrefixApplied(names: seq<string>, db: Db)
    requires FileList(names)
  {
    && |db.schema| <= |names|
    && db.schema == names[..|db.schema|]
    && db.versions == Versions(names, |db.schema|)
  }

  predicate PcOk(names: seq<string>, db: Db, pc: Pc)
    requires FileList(names)
  {
    var k := |db.schema|;
    match pc
    case Begin(step) => step <= |names| && step <= k + 1
    case Locked(step) => step <= |names| && step <= k + 1
    case New(step) => 0 < step <= |names| && step == k + 1
    case Executed(step, tx) =>
      0 < step <= |names| && step == k + 1 && tx == Tx(false, Some(names[step - 1]), None)
    case Ready(step, tx) =>
      && step <= |names|
      && (|| (step == 0 && tx == Tx(true, None, None))
          || (0 < step <= k && tx == EMPTY_TX)
          || (0 < step == k + 1 && tx == Tx(false, Some(names[step - 1]), Some(Version(names[step - 1])))))
    case Finished => k == |names|
    case Failed => true
  }

  ghost predicate Inv(names: seq<string>, s: System)
    requires FileList(names)
  {
    && PrefixApplied(names, s.db)
    && (forall r :: r in s.replicas ==> PcOk(names, s.db, s.replicas[r]))
    && (forall r :: r in s.replicas && InTx(s.replicas[r]) ==> s.lock == Some(r))
    && (s.lock.Some? ==> s.lock.value in s.replicas && InTx(s.replicas[s.lock.value]))
  }

  /** Distinct .sql names have distinct versions. */
  lemma VersionInjective(a: string, b: string)
    requires IsSql(a) && IsSql(b) && Version(a) == Version(b)
    ensures a == b
  {
    assert a == Version(a) + SUFFIX && b == Version(b) + SUFFIX;
  }

  lemma RecordedExactly(names: seq<string>, k: nat, i: nat)
    requires FileList(names) && k <= |names| && i < |names|
    ensures Version(names[i]) in Versions(names, k) <==> i < k
  {
    if Version(names[i]) in Versions(names, k) {
      var j :| 0 <= j < k && Version(names[j]) == Version(names[i]);
      VersionInjective(names[j], names[i]);
    }
  }

  lemma PublishNext(names: seq<string>, db: Db)
    requires FileList(names) && PrefixApplied(names, db) && |db.schema| < |names|
    ensures var k := |db.schema|;
            PrefixApplied(names, Publish(db, Tx(false, Some(names[k]), Some(Version(names[k])))))
  {
    var k := |db.schema|;
    assert names[..k + 1] == names[..k] + [names[k]];
    assert Versions(names, k + 1) == Versions(names, k) + {Version(names[k])};
  }

  lemma CheckOk(names: seq<string>, db: Db, step: nat)
    requires FileList(names) && PrefixApplied(names, db) && PcOk(names, db, Locked(step))
    ensures PcOk(names, db, Checked(names, db, step))
  {
    if step > 0 {
      RecordedExactly(names, |db.schema|, step - 1);
    }
  }

  lemma CommitOk(names: seq<string>, db: Db, step: nat, tx: Tx)
    requires FileList(names) && PrefixApplied(names, db) && PcOk(names, db, Ready(step, tx))
    ensures var db' := Publish(db, tx);
            && PrefixApplied(names, db') && PcOk(names, db', After(names, step))
            && db.schema <= db'.schema && db.versions <= db'.versions
  {
    if tx.body.Some? {
      PublishNext(names, db);
    } else {
      assert Publish(db, tx).schema == db.schema && Publish(db, tx).versions == db.versions;
    }
  }

  lemma MoveOk(names: seq<string>, db: Db, lock: Option<Id>, r: Id, pc: Pc, a: Action)
    requires FileList(names) && PrefixApplied(names, db) && PcOk(names, db, pc) && (InTx(pc) ==> lock == Some(r))
    ensures var e := Move(names, db, lock, r, pc, a);
            && PrefixApplied(names, e.db) && PcOk(names, e.db, e.pc)
            && (InTx(e.pc) ==> e.lock == Some(r))
            && (e.lock == Some(r) && lock.None? ==> InTx(e.pc))
            && (e.lock == Some(r) && lock == Some(r) && InTx(pc) ==> InTx(e.pc))
            && (e.lock != lock ==> lock.None? || lock == Some(r))
            && (e.db != db ==> lock == Some(r))
            && db.schema <= e.db.schema && db.versions <= e.db.versions
  {
    match pc {
      case Locked(step) => CheckOk(names, db, step);
      case Ready(step, tx) => CommitOk(names, db, step, tx);
      case _ =>
    }
  }

  lemma StepKeepsInv(names: seq<string>, s: System, a: Action)
    requires FileList(names) && Inv(names, s)
    ensures Inv(names, Step(names, s, a))
    ensures s.db.schema <= Step(names, s, a).db.schema && s.db.versions <= Step(names, s, a).db.versions
  {
    if a.r in s.replicas {
      MoveOk(names, s.db, s.lock, a.r, s.replicas[a.r], a);
      forall q | q in s.replicas && q != a.r ensures PcOk(names, Step(names, s, a).db, s.replicas[q]) {
        assert PcOk(names, s.db, s.replicas[q]);
      }
    }
  }

  /** The versions of a prefix are its names without the suffix. */
  lemma VersionsAreNames(names: seq<string>, k: nat)
    requires FileList(names) && k <= |names|
    ensures forall v :: v in Versions(names, k) <==> exists i :: 0 <= i < k && names[i] == v + ".sql"
  {
    forall v ensures v in Versions(names, k) <==> exists i :: 0 <= i < k && names[i] == v + ".sql" {
      if v in Versions(names, k) {
        var i :| 0 <= i < k && Version(names[i]) == v;
        assert names[i] == v + ".sql";
      }
      if i :| 0 <= i < k && names[i] == v + ".sql" {
        assert Version(names[i]) == v;
      }
    }
  }

  /** However replicas interleave, fail, crash and restart: the recorded versions
      are those of a prefix of the files, the committed schema is that prefix and
      so holds each file at most once, it only grows, and a replica that finished
      has seen every file applied. */
  lemma {:induction false} MigrationsApplyPrefix(names: seq<string>, s: System, acts: seq<Action>)
    requires FileList(names) && Inv(names, s)
    ensures var s' := Run(names, s, acts);
            && Inv(names, s')
            && |s'.db.schema| <= |names| && s'.db.schema == names[..|s'.db.schema|]
            && (forall v :: v in s'.db.versions <==>
                  exists i :: 0 <= i < |s'.db.schema| && names[i] == v + ".sql")
            && s.db.schema <= s'.db.schema && s.db.versions <= s'.db.versions
            && (forall i, j :: 0 <= i < j < |s'.db.schema| ==> s'.db.schema[i] != s'.db.schema[j])
            && (forall r :: r in s'.replicas && s'.replicas[r].Finished? ==> s'.db.schema == names)
    decreases |acts|
  {
    if acts != [] {
      StepKeepsInv(names, s, acts[0]);
      MigrationsApplyPrefix(names, Step(names, s, acts[0]), acts[1..]);
    } else {
      VersionsAreNames(names, |s.db.schema|);
      forall r | r in s.replicas && s.replicas[r].Finished? ensures s.db.schema == names {
        assert PcOk(names, s.db, s.replicas[r]);
      }
    }
  }

  /** A database nobody has migrated, or that earlier releases migrated part of the way. */
  lemma InitialInv(names: seq<string>, k: nat, hasTable: bool)
    requires FileList(names) && k <= |names|
    ensures Inv(names, System(Db(hasTable, Versions(names, k), names[..k]), None, map[]))
  {
  }

  // ---- a replica can always finish -----------------------------------------------------

  lemma {:induction false} RunSplit(names: seq<string>, s: System, a: seq<Action>, b: seq<Action>)
    requires FileList(names)
    ensures Run(names, s, a + b) == Run(names, Run(names, s, a), b)
    decreases |a|
  {
    if a == [] {
      assert a + b == b;
    } else {
      assert (a + b)[0] == a[0] && (a + b)[1..] == a[1..] + b;
      RunSplit(names, Step(names, s, a[0]), a[1..], b);
    }
  }

  lemma ThenStep(names: seq<string>, s: System, acts: seq<Action>, a: Action) returns (s': System)
    requires FileList(names) && Inv(names, Run(names, s, acts))
    ensures s' == Run(names, s, acts + [a]) == Step(names, Run(names, s, acts), a) && Inv(names, s')
  {
    s' := Step(names, Run(names, s, acts), a);
    RunSplit(names, s, acts, [a]);
    assert [a][1..] == [] && Run(names, s', []) == s';
    StepKeepsInv(names, Run(names, s, acts), a);
  }

  /** The lock is taken and the first statement run. */
  lemma Checks(names: seq<string>, s: System, r: Id, step: nat) returns (acts: seq<Action>)
    requires FileList(names) && Inv(names, s) && r in s.replicas && s.replicas[r] == Begin(step) && s.lock.None?
    ensures var s' := Run(names, s, acts);
            && Inv(names, s') && r in s'.replicas && step <= |names|
            && ((s'.replicas[r].New? && s'.replicas[r].step == step)
                || (s'.replicas[r].Ready? && s'.replicas[r].step == step))
  {
    assert PcOk(names, s.db, s.replicas[r]);
    assert Run(names, s, []) == s;
    var s1 := ThenStep(names, s, [], Acquire(r));
    var s2 := ThenStep(names, s, [] + [Acquire(r)], Check(r));
    acts := [] + [Acquire(r)] + [Check(r)];
  }

  /** The body runs and the version is recorded. */
  lemma AppliesFile(names: seq<string>, s: System, r: Id, step: nat) returns (acts: seq<Action>)
    requires FileList(names) && Inv(names, s) && r in s.replicas && s.replicas[r] == New(step)
    ensures var s' := Run(names, s, acts);
            Inv(names, s') && r in s'.replicas && s'.replicas[r].Ready? && s'.replicas[r].step == step
  {
    assert PcOk(names, s.db, s.replicas[r]);
    assert Run(names, s, []) == s;
    var s1 := ThenStep(names, s, [], Execute(r));
    var s2 := ThenStep(names, s, [] + [Execute(r)], Record(r));
    acts := [] + [Execute(r)] + [Record(r)];
  }

  /** The transaction of one step, undisturbed. */
  lemma OneStep(names: seq<string>, s: System, r: Id, step: nat) returns (acts: seq<Action>)
    requires FileList(names) && Inv(names, s) && r in s.replicas && s.replicas[r] == Begin(step) && s.lock.None?
    ensures var s' := Run(names, s, acts);
            && Inv(names, s') && r in s'.replicas && s'.replicas[r] == After(names, step) && s'.lock.None?
  {
    acts := Checks(names, s, r, step);
    var s1 := Run(names, s, acts);
    if s1.replicas[r].New? {
      var more := AppliesFile(names, s1, r, step);
      RunSplit(names, s, acts, more);
      acts := acts + more;
    }
    var s2 := ThenStep(names, s, acts, Commit(r));
    acts := acts + [Commit(r)];
  }

  lemma {:induction false} RemainingSteps(names: seq<string>, s: System, r: Id, step: nat) returns (acts: seq<Action>)
    requires FileList(names) && Inv(names, s) && r in s.replicas && s.replicas[r] == Begin(step) && s.lock.None?
    ensures r in Run(names, s, acts).replicas && Run(names, s, acts).replicas[r].Finished?
    decreases |names| - step
  {
    assert PcOk(names, s.db, s.replicas[r]);
    acts := OneStep(names, s, r, step);
    if step < |names| {
      var rest := RemainingSteps(names, Run(names, s, acts), r, step + 1);
      RunSplit(names, s, acts, rest);
      acts := acts + rest;
    }
  }

  /** In every reachable state nobody is stuck: when the holder of the lock, if any,
      is rolled back, any replica can start and finish alone. */
  lemma CanAlwaysFinish(names: seq<string>, s: System, r: Id) returns (acts: seq<Action>)
    requires FileList(names) && Inv(names, s)
    ensures var s' := Run(names, s, acts);
            && r in s'.replicas && s'.replicas[r].Finished? && s'.db.schema == names
  {
    assert Run(names, s, []) == s;
    var s1 := s;
    acts := [];
    if s.lock.Some? {
      s1 := ThenStep(names, s, acts, Fail(s.lock.value));
      acts := acts + [Fail(s.lock.value)];
    }
    if r !in s1.replicas {
      s1 := ThenStep(names, s, acts, Start(r));
      acts := acts + [Start(r)];
    } else if s1.replicas[r].Failed? || s1.replicas[r].Finished? {
      s1 := ThenStep(names, s, acts, Start(r));
      acts := acts + [Start(r)];
    }
    var rest := RemainingSteps(names, s1, r, s1.replicas[r].step);
    RunSplit(names, s, acts, rest);
    acts := acts + rest;
    MigrationsApplyPrefix(names, s, acts);
  }

  // ---- one replica alone ----------------------------------------------------------------

  class Database {
    var db: Db

    constructor (db: Db)
      ensures this.db == db
    {
      this.db := db;
    }

    /** Migrate, undisturbed; failAt is the file whose transaction fails, if any.
        The files from the first unapplied one up to the failure are applied, all
        of them when nothing fails, and none when all are recorded already. */
    method Migrate(names: seq<string>, failAt: Option<nat>) returns (ok: bool)
      requires FileList(names) && PrefixApplied(names, db)
      modifies this
      ensures PrefixApplied(names, db) && db.tableExists
      ensures |db.schema| <= |names| && db.schema == names[..|db.schema|]
      ensures forall v :: v in db.versions <==> exists i :: 0 <= i < |db.schema| && names[i] == v + ".sql"
      ensures ok <==> failAt.None? || failAt.value >= |names|
      ensures ok ==> db.schema == names
      ensures !ok ==> |db.schema| == Max(|old(db).schema|, failAt.value)
      ensures old(db).schema == names && old(db).tableExists ==> db == old(db)
    {
      db := Publish(db, EMPTY_TX.(creates := true));
      for i := 0 to |names|
        invariant PrefixApplied(names, db) && db.tableExists
        invariant |db.schema| == Max(|old(db).schema|, i)
        invariant failAt.Some? ==> i <= failAt.value
        invariant old(db).schema == names && old(db).tableExists ==> db == old(db)
      {
        if failAt == Some(i) {
          VersionsAreNames(names, |db.schema|);
          return false;
        }
        RecordedExactly(names, |db.schema|, i);
        if Version(names[i]) in db.versions {
          continue;
        }
        PublishNext(names, db);
        db := Publish(db, Tx(false, Some(names[i]), Some(Version(names[i]))));
      }
      VersionsAreNames(names, |db.schema|);
      ok := true;
    }
  }
}
