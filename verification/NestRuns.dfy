/**
 * Whole runs of the database object: stores, transactions, commits, garbage
 * collection and index maintenance in any order, from an empty database.
 */
module NestRuns {
  import opened Base
  import opened VersionChains
  import opened MvccModel
  import opened MvccInvariants
  import MvccSerializability
  import opened MvccOver
  import opened MvccManager
  import opened HnswSearch
  import opened HnswGraph
  import opened HnswIndex
  import opened Pages
  import opened WalCodec
  import WalReader
  import WalLog
  import opened NestStore

  datatype Op =
    | DoStore(id: Id, vector: Vector, level: nat)
    | DoBegin
    | DoGet(t: TxId, id: Id)
    | DoTxStore(t: TxId, id: Id, vector: Vector, meta: Option<Meta>)
    | DoRollback(t: TxId)
    | DoCommit(t: TxId, versionPage: Id -> Option<Page>, levels: Id -> nat)
    | DoCollect
    | DoOptimize

  /** Random levels are at most the greatest one. */
  ghost predicate Legal(op: Op) {
    && (op.DoStore? ==> op.level <= MAX_LEVEL)
    && (op.DoCommit? ==> forall id :: op.levels(id) <= MAX_LEVEL)
  }

  /** No vector and no version is too large for a page. */
  ghost predicate Fits(op: Op) {
    && (op.DoStore? || op.DoTxStore? ==> |op.vector| <= 988)
    && (op.DoCommit? ==> forall id :: op.versionPage(id).Some?)
  }

  /** No transaction has a vector to write that is too large. */
  ghost predicate SmallWrites(s: Sys) {
    forall t, id :: t in s.txs && id in s.txs[t].writeSet && s.txs[t].writeSet[id].vector.Some? ==>
      |s.txs[t].writeSet[id].vector.value| <= 988
  }

  /** Between two operations. */
  ghost predicate Steady(nest: Nest)
    reads nest, nest.index, nest.storage, nest.mvcc, nest.wal
  {
    nest.Valid() && nest.Agree() && Quiet(nest.mvcc.Abs()) && nest.wal.file.Some?
  }

  /** A step of one running transaction, or a collection. */
  predicate Local(step: Step) {
    step.Begin? || step.Get? || step.Store? || step.Rollback? || step.CollectGarbage?
  }

  lemma LocalKeeps(s: Sys, step: Step, vectors: map<Id, Vector>)
    requires Quiet(s) && Local(step) && HeadsAgree(s.chains, vectors)
    ensures Quiet(Apply(s, step).0) && HeadsAgree(Apply(s, step).0.chains, vectors)
    ensures SmallWrites(s) && (step.Store? ==> |step.vector| <= 988) ==> SmallWrites(Apply(s, step).0)
  {
    if step.CollectGarbage? {
      CollectKeeps(s, vectors);
    } else {
      LocalTx(s, step);
      if SmallWrites(s) && (step.Store? ==> |step.vector| <= 988) { LocalSmall(s, step); }
    }
  }

  lemma LocalTx(s: Sys, step: Step)
    requires Quiet(s) && Local(step) && !step.CollectGarbage?
    ensures Quiet(Apply(s, step).0) && Apply(s, step).0.chains == s.chains
  {
  }

  lemma LocalSmall(s: Sys, step: Step)
    requires Local(step) && !step.CollectGarbage? && SmallWrites(s) && (step.Store? ==> |step.vector| <= 988)
    ensures SmallWrites(Apply(s, step).0)
  {
  }

  lemma CollectKeeps(s: Sys, vectors: map<Id, Vector>)
    requires HeadsAgree(s.chains, vectors)
    ensures HeadsAgree(Collected(s).chains, vectors)
  {
    forall id | id in s.chains
      ensures id in Collected(s).chains && Collected(s).chains[id] != []
              && Collected(s).chains[id][0] == s.chains[id][0]
    {
      CutIsPrefix(s.chains[id], Floor(s));
    }
  }

  /**
   * The operations that touch nothing but the transaction manager; a transaction that does not
   * exist is no operation.
   */
  method DoLocal(mvcc: Manager, op: Op, ghost vectors: map<Id, Vector>) returns (ghost steps: seq<Step>)
    requires mvcc.Valid() && Quiet(mvcc.Abs()) && HeadsAgree(mvcc.versionChains, vectors)
    requires op.DoBegin? || op.DoGet? || op.DoTxStore? || op.DoRollback? || op.DoCollect?
    modifies mvcc
    ensures mvcc.Valid() && Quiet(mvcc.Abs()) && HeadsAgree(mvcc.versionChains, vectors)
    ensures mvcc.Abs() == ApplyAll(old(mvcc.Abs()), steps) && forall step :: step in steps ==> Local(step)
    ensures SmallWrites(old(mvcc.Abs())) && Fits(op) ==> SmallWrites(mvcc.Abs())
  {
    ghost var s := mvcc.Abs();
    steps := [];
    if (op.DoGet? || op.DoTxStore? || op.DoRollback?) && op.t !in mvcc.transactions {
      return;
    }
    ghost var step;
    var obs;
    match op {
      case DoBegin =>
        var t := mvcc.BeginTx();
        step := Begin;
      case DoGet(t, id) =>
        obs := mvcc.Get(t, id);
        step := Get(t, id);
      case DoTxStore(t, id, vector, meta) =>
        obs := mvcc.Store(t, id, vector, meta);
        step := Store(t, id, vector, meta);
      case DoRollback(t) =>
        obs := mvcc.Rollback(t);
        step := Rollback(t);
      case DoCollect =>
        mvcc.GarbageCollect();
        step := CollectGarbage;
    }
    LocalKeeps(s, step, vectors);
    OneStep(s, step);
    steps := [step];
  }

  /** The steps a commit can take without an I/O failure. */
  predicate OfCommit(step: Step) {
    step.StartCommit? || step.LogFails? || step.Publish? || step.FinishCommit?
  }

  lemma CommitKeeps(s: Sys, now: Sys, t: TxId, obs: Obs, steps: seq<Step>)
    requires Quiet(s) && CommitEnds(s, now, t, obs, steps) && obs in {NotActive, Conflict, LogFailed, Done}
    ensures Quiet(now) && (forall step :: step in steps ==> OfCommit(step))
    ensures obs in {NotActive, Conflict, LogFailed} ==> now.chains == s.chains
  {
    if obs == Done { AllOfCommit(steps, t); }
  }

  lemma AllOfCommit(steps: seq<Step>, t: TxId)
    requires IsCommit(steps, t, FinishCommit(t))
    ensures forall step :: step in steps ==> OfCommit(step)
  {
    var n := |steps| - 1;
    forall step | step in steps ensures OfCommit(step) {
      var i :| 0 <= i < |steps| && steps[i] == step;
      assert i < n ==> steps[..n][i] == step;
    }
  }

  /** An aborted transaction has nothing to write any more. */
  lemma CommitKeepsSmall(s: Sys, now: Sys, t: TxId, obs: Obs, steps: seq<Step>)
    requires SmallWrites(s) && CommitEnds(s, now, t, obs, steps) && obs in {NotActive, Conflict, LogFailed, Done}
    ensures SmallWrites(now)
  {
  }

  lemma SmallIsNotOversized(s: Sys, t: TxId)
    requires t in s.txs && AllStores(s.txs[t].writeSet) && SmallWrites(s)
    ensures !Oversized(VectorsOf(s.txs[t].writeSet))
  {
  }

  /** One commit; failed means a page or the index could not be written. */
  method DoACommit(nest: Nest, t: TxId, versionPage: Id -> Option<Page>, levels: Id -> nat)
    returns (failed: bool, ghost steps: seq<Step>)
    requires Steady(nest) && t in nest.mvcc.transactions && forall id :: levels(id) <= MAX_LEVEL
    modifies nest, nest.index`nodes, nest.index`entryPoint, nest.index`maxLevel, nest.storage, nest.mvcc, nest.wal
    ensures !failed ==> Steady(nest) && nest.mvcc.Abs() == ApplyAll(old(nest.mvcc.Abs()), steps)
    ensures !failed ==> forall step :: step in steps ==> OfCommit(step)
    ensures SmallWrites(old(nest.mvcc.Abs())) && (forall id :: versionPage(id).Some?) ==>
              if failed then |nest.storage.pages| == nest.storage.limit else SmallWrites(nest.mvcc.Abs())
  {
    ghost var s, open := nest.mvcc.Abs(), nest.wal.file.Some?;
    var obs;
    ghost var order;
    obs, steps, order := nest.Commit(t, versionPage, levels, s, nest.Indexed(),
                                     nest.storage.limit - |nest.storage.pages|);
    failed := obs == PersistFailed || obs == IndexFailed;
    if !failed {
      CommitKeeps(s, nest.mvcc.Abs(), t, obs, steps);
      if SmallWrites(s) { CommitKeepsSmall(s, nest.mvcc.Abs(), t, obs, steps); }
    } else if SmallWrites(s) {
      SmallIsNotOversized(s, t);
    }
  }

  /** One store; failed means its page could not be written. */
  method DoAStore(nest: Nest, id: Id, vector: Vector, level: nat) returns (failed: bool, ghost steps: seq<Step>)
    requires Steady(nest) && level <= MAX_LEVEL
    modifies nest, nest.index`nodes, nest.index`entryPoint, nest.index`maxLevel, nest.storage, nest.mvcc, nest.wal
    ensures !failed ==> Steady(nest) && nest.mvcc.Abs() == ApplyAll(old(nest.mvcc.Abs()), steps)
    ensures !failed ==> steps in {[], [NestStore(id, vector, None)]}
    ensures SmallWrites(old(nest.mvcc.Abs())) && |vector| <= 988 ==>
              if failed then |nest.storage.pages| == nest.storage.limit else SmallWrites(nest.mvcc.Abs())
  {
    ghost var s := nest.mvcc.Abs();
    var r := nest.Store(id, vector, level);
    failed := r == NotWritten;
    assert r in {BadId, BadDimensions} ==> nest.mvcc.Abs() == s;
    steps := if r == Kept then [NestStore(id, vector, None)] else [];
    if !failed { StoreSteps(s, nest.mvcc.Abs(), id, vector, r); }
    StoreKeeps(s, id, vector);
  }

  lemma StoreSteps(s: Sys, now: Sys, id: Id, vector: Vector, r: StoreResult)
    requires r in {BadId, BadDimensions, Kept}
    requires r.Kept? ==> now == ApplyNestStore(s, id, vector, None).0
    requires !r.Kept? ==> now == s
    ensures now == ApplyAll(s, if r == Kept then [NestStore(id, vector, None)] else [])
  {
    OneStep(s, NestStore(id, vector, None));
    NoStep(s);
  }

  lemma NoStep(s: Sys)
    ensures ApplyAll(s, []) == s
  {
  }

  lemma StoreKeeps(s: Sys, id: Id, vector: Vector)
    requires Quiet(s)
    ensures Quiet(ApplyNestStore(s, id, vector, None).0)
    ensures SmallWrites(s) ==> SmallWrites(ApplyNestStore(s, id, vector, None).0)
  {
  }

  /** The steps keep a run clean if no commit is under way at its end. */
  predicate Harmless(steps: seq<Step>) {
    || (forall step :: step in steps ==> Local(step) || OfCommit(step))
    || (|steps| == 1 && steps[0].NestStore?)
  }

  method DoOn(nest: Nest, op: Op) returns (ghost steps: seq<Step>)
    requires Steady(nest) && (op.DoBegin? || op.DoGet? || op.DoTxStore? || op.DoRollback? || op.DoCollect?)
    modifies nest.mvcc
    ensures Steady(nest) && nest.mvcc.Abs() == ApplyAll(old(nest.mvcc.Abs()), steps)
    ensures forall step :: step in steps ==> Local(step)
    ensures SmallWrites(old(nest.mvcc.Abs())) && Fits(op) ==> SmallWrites(nest.mvcc.Abs())
  {
    steps := DoLocal(nest.mvcc, op, nest.Indexed());
  }

  method Optimize(nest: Nest)
    requires Steady(nest)
    modifies nest.index`nodes, nest.index`entryPoint, nest.index`maxLevel
    ensures Steady(nest) && nest.mvcc.Abs() == old(nest.mvcc.Abs())
  {
    nest.Optimize();
  }

  /** One operation; failed means that a page could not be written, and then nothing more is said. */
  method Do(nest: Nest, op: Op) returns (failed: bool, ghost steps: seq<Step>)
    requires Steady(nest) && Legal(op)
    modifies nest, nest.index`nodes, nest.index`entryPoint, nest.index`maxLevel, nest.storage, nest.mvcc, nest.wal
    ensures !failed ==> Steady(nest) && nest.mvcc.Abs() == ApplyAll(old(nest.mvcc.Abs()), steps) && Harmless(steps)
    ensures SmallWrites(old(nest.mvcc.Abs())) && Fits(op) ==>
              if failed then |nest.storage.pages| == nest.storage.limit else SmallWrites(nest.mvcc.Abs())
  {
    failed, steps := false, [];
    NoStep(nest.mvcc.Abs());
    match op {
      case DoStore(id, vector, level) => failed, steps := DoAStore(nest, id, vector, level);
      case DoCommit(t, versionPage, levels) =>
        if t in nest.mvcc.transactions {
          failed, steps := DoACommit(nest, t, versionPage, levels);
        }
      case DoOptimize => Optimize(nest);
      case _ => steps := DoOn(nest, op);
    }
  }

  /** The index holds what the serial execution of the run holds. */
  ghost predicate IsSerial(vectors: map<Id, Vector>, db: MvccSerializability.Db) {
    vectors.Keys == db.Keys && forall id :: id in vectors ==> db[id].vector == Some(vectors[id])
  }

  lemma IndexIsSerial(d: nat, run: seq<Step>, vectors: map<Id, Vector>)
    requires CleanRun(d, run) && MvccModel.Run(d, run).sys.lock == None
    requires HeadsAgree(MvccModel.Run(d, run).sys.chains, vectors)
    ensures IsSerial(vectors, MvccSerializability.Replay(MvccModel.Run(d, run).trace))
  {
    MvccSerializability.RunHeads(d, run);
  }

  lemma {:induction false} RunOn(d: nat, run: seq<Step>, steps: seq<Step>)
    ensures MvccModel.Run(d, run + steps).sys == ApplyAll(MvccModel.Run(d, run).sys, steps)
  {
    if steps == [] {
      assert run + [] == run;
      NoStep(MvccModel.Run(d, run).sys);
    } else {
      var n := |steps| - 1;
      RunOn(d, run, steps[..n]);
      assert (run + steps)[..|run + steps| - 1] == run + steps[..n];
    }
  }

  lemma {:induction false} CleanOn(d: nat, run: seq<Step>, steps: seq<Step>)
    requires CleanRun(d, run) && forall step :: step in steps ==> Local(step) || OfCommit(step)
    ensures CleanRun(d, run + steps)
  {
    if steps == [] {
      assert run + [] == run;
    } else {
      var n := |steps| - 1;
      assert steps[n] in steps;
      CleanOn(d, run, steps[..n]);
      CleanSnoc(d, run + steps[..n], steps[n]);
      assert run + steps == run + steps[..n] + [steps[n]];
    }
  }

  lemma CleanSnoc(d: nat, run: seq<Step>, step: Step)
    requires CleanRun(d, run) && (Local(step) || OfCommit(step))
    ensures CleanRun(d, run + [step])
  {
    assert (run + [step])[..|run|] == run;
  }

  lemma StaysClean(d: nat, run: seq<Step>, steps: seq<Step>)
    requires CleanRun(d, run) && MvccModel.Run(d, run).sys.lock == None && Harmless(steps)
    ensures CleanRun(d, run + steps)
  {
    if |steps| == 1 && steps[0].NestStore? {
      assert (run + steps)[..|run|] == run;
    } else {
      CleanOn(d, run, steps);
    }
  }

  /** A new database on an empty file and an empty log. */
  method New(env: Env, dimensions: nat, m: nat, efConstruct: nat, distance: DistanceFunc, header: Page, limit: nat)
    returns (nest: Nest)
    requires 1 <= limit <= MAX_PAGES
    ensures Steady(nest) && nest.mvcc.Abs() == Init(dimensions) && nest.Indexed() == map[]
    ensures nest.storage.pages == [header] && nest.storage.limit == limit && nest.env == env
    ensures fresh(nest) && fresh(nest.index) && fresh(nest.storage) && fresh(nest.mvcc) && fresh(nest.wal)
  {
    var index := new Index(m, efConstruct, distance);
    var storage := new Storage(header, limit);
    var mvcc := new Manager(dimensions);
    var wal := new WalLog.Wal(env);
    EmptyOpens(env);
    var ok := wal.Open([]);
    nest := new Nest(env, index, storage, mvcc, wal);
  }

  lemma EmptyOpens(env: Env)
    ensures WalReader.LastSequenceOf(env, []).Some?
  {
    WalReader.ScanEmpty(env);
  }

  /**
   * Any run from an empty database, as long as every page can be written: the
   * count, the index, the vector pages and the newest versions agree after
   * every operation, and the index holds exactly what the serial execution of
   * the committed transactions and stores holds. It stops at the first page
   * that cannot be written, which means that the file is full or that
   * something was too large for a page.
   */
  method Run(env: Env, dimensions: nat, m: nat, efConstruct: nat, distance: DistanceFunc, header: Page, limit: nat,
             ops: seq<Op>)
    returns (nest: Nest, failed: bool, ghost steps: seq<Step>)
    requires 1 <= limit <= MAX_PAGES && forall op :: op in ops ==> Legal(op)
    ensures !failed ==> Steady(nest) && CleanRun(dimensions, steps)
    ensures !failed ==> nest.mvcc.Abs() == MvccModel.Run(dimensions, steps).sys
    ensures !failed ==> IsSerial(nest.Indexed(), MvccSerializability.Replay(MvccModel.Run(dimensions, steps).trace))
    ensures failed && (forall op :: op in ops ==> Fits(op)) ==> |nest.storage.pages| == nest.storage.limit
  {
    nest := New(env, dimensions, m, efConstruct, distance, header, limit);
    steps := [];
    ghost var small := forall op :: op in ops ==> Fits(op);
    for i := 0 to |ops|
      invariant Steady(nest) && nest.mvcc.Abs() == MvccModel.Run(dimensions, steps).sys && CleanRun(dimensions, steps)
      invariant fresh(nest) && fresh(nest.index) && fresh(nest.storage) && fresh(nest.mvcc) && fresh(nest.wal)
      invariant small ==> SmallWrites(nest.mvcc.Abs())
    {
      assert ops[i] in ops;
      ghost var more;
      failed, more := Do(nest, ops[i]);
      if failed {
        return;
      }
      RunOn(dimensions, steps, more);
      StaysClean(dimensions, steps, more);
      steps := steps + more;
    }
    IndexIsSerial(dimensions, steps, nest.Indexed());
    failed := false;
  }

  /** Operations one after the other; they stop at the first page that cannot be written. */
  method DoAll(nest: Nest, ops: seq<Op>) returns (failed: bool, ghost steps: seq<Step>)
    requires Steady(nest) && forall op :: op in ops ==> Legal(op)
    modifies nest, nest.index`nodes, nest.index`entryPoint, nest.index`maxLevel, nest.storage, nest.mvcc, nest.wal
    ensures !failed ==> Steady(nest) && nest.mvcc.Abs() == ApplyAll(old(nest.mvcc.Abs()), steps)
  {
    failed, steps := false, [];
    ghost var s := nest.mvcc.Abs();
    NoStep(s);
    for i := 0 to |ops|
      invariant Steady(nest) && nest.mvcc.Abs() == ApplyAll(s, steps)
    {
      assert ops[i] in ops;
      ghost var more;
      failed, more := Do(nest, ops[i]);
      if failed {
        return;
      }
      ApplyCat(s, steps, more);
      steps := steps + more;
    }
    failed := false;
  }

  lemma CommitOfOver(s: Sys, steps: seq<Step>, t: TxId)
    requires OwnNumbers(s) && t in s.txs && !s.txs[t].status.Committing?
    ensures var rolledBack := Apply(s, Rollback(t)).0;
            IsOver(ApplyAll(rolledBack, steps), t) && NoneAdded(s, ApplyAll(rolledBack, steps), t)
  {
    RollbackEnds(s, t);
    if !IsOver(s, t) { EndsIt(s, Rollback(t), t); }
    OwnNumbersStep(s, Rollback(t));
    var rolledBack := Apply(s, Rollback(t)).0;
    OverStays(rolledBack, t, steps);
    forall k, v | v in ChainOf(ApplyAll(rolledBack, steps), k) && v.version == t ensures v in ChainOf(s, k) {
      assert v in ChainOf(rolledBack, k);
    }
  }

  /**
   * A rollback, any operations of anyone, and then a commit of the transaction
   * all the same: it is refused, and nothing it wrote was published in between.
   */
  method RollbackThenCommit(nest: Nest, t: TxId, ops: seq<Op>, versionPage: Id -> Option<Page>, levels: Id -> nat)
    returns (failed: bool, obs: Obs)
    requires Steady(nest) && OwnNumbers(nest.mvcc.Abs()) && t in nest.mvcc.transactions
    requires (forall op :: op in ops ==> Legal(op)) && forall id :: levels(id) <= MAX_LEVEL
    modifies nest, nest.index`nodes, nest.index`entryPoint, nest.index`maxLevel, nest.storage, nest.mvcc, nest.wal
    ensures !failed ==> Steady(nest) && obs == NotActive && NoneAdded(old(nest.mvcc.Abs()), nest.mvcc.Abs(), t)
  {
    ghost var s := nest.mvcc.Abs();
    ghost var steps;
    obs := RollBack(nest, t);
    failed, steps := DoAll(nest, ops);
    if !failed {
      CommitOfOver(s, steps, t);
      obs := RefusedCommit(nest, t, versionPage, levels);
    }
  }

  method RollBack(nest: Nest, t: TxId) returns (obs: Obs)
    requires Steady(nest) && t in nest.mvcc.transactions
    modifies nest.mvcc
    ensures Steady(nest) && (nest.mvcc.Abs(), obs) == Apply(old(nest.mvcc.Abs()), Rollback(t))
  {
    ghost var s := nest.mvcc.Abs();
    ghost var step: Step := Rollback(t);
    obs := nest.mvcc.Rollback(t);
    LocalKeeps(s, step, nest.Indexed());
  }

  /** A commit of a transaction that is over changes neither chains, index nor log. */
  method RefusedCommit(nest: Nest, t: TxId, versionPage: Id -> Option<Page>, levels: Id -> nat) returns (obs: Obs)
    requires Steady(nest) && IsOver(nest.mvcc.Abs(), t) && forall id :: levels(id) <= MAX_LEVEL
    modifies nest, nest.index`nodes, nest.index`entryPoint, nest.index`maxLevel, nest.storage, nest.mvcc, nest.wal
    ensures Steady(nest) && obs == NotActive && nest.mvcc.Abs() == old(nest.mvcc.Abs())
    ensures nest.Indexed() == old(nest.Indexed()) && nest.wal.Abs() == old(nest.wal.Abs())
  {
    ghost var steps, order;
    obs, steps, order := nest.Commit(t, versionPage, levels, nest.mvcc.Abs(), nest.Indexed(),
                                     nest.storage.limit - |nest.storage.pages|);
  }

  /** The transaction as it is after storing and then removing the ID. */
  ghost function StoredAndRemoved(s: Sys, t: TxId, id: Id, vector: Vector): Sys {
    Apply(Apply(s, Store(t, id, vector, None)).0, Remove(t, id)).0
  }

  /** The version that is then in the write set. */
  function MarkedStore(t: TxId, id: Id, vector: Vector): Version {
    NewVersion(t, id, vector, None).(deletedByTx := t)
  }

  lemma WritesMarked(s: Sys, t: TxId, id: Id, vector: Vector)
    requires MayCommit(s, t) && Apply(s, Store(t, id, vector, None)).1.Done?
    ensures var now := StoredAndRemoved(s, t, id, vector);
            && MayCommit(now, t) && now.chains == s.chains
            && WritesOf(now, t) == WritesOf(s, t)[id := MarkedStore(t, id, vector)]
  {
  }

  /** What a snapshot reads. */
  function ReadAt(chains: map<Id, Chain>, id: Id, snapshot: TxId): Option<Version> {
    if id in chains then VisibleIn(chains[id], snapshot) else None
  }

  /** No snapshot sees a difference at the ID. */
  ghost predicate ReadAlike(before: map<Id, Chain>, after: map<Id, Chain>, id: Id) {
    forall snapshot :: ReadAt(after, id, snapshot) == ReadAt(before, id, snapshot)
  }

  /** A version that was stored and removed by one transaction is read by nobody. */
  lemma MarkedIsUnread(before: map<Id, Chain>, after: map<Id, Chain>, writes: map<Id, Version>, t: TxId, id: Id,
                       vector: Vector)
    requires Prepended(before, after, writes, writes.Keys) && t > 0
    requires id in writes && writes[id] == MarkedStore(t, id, vector)
    ensures ReadAlike(before, after, id)
  {
    var older := if id in before then before[id] else [];
    assert after[id][0] == writes[id] && after[id][1..] == older;
    forall snapshot ensures ReadAt(after, id, snapshot) == ReadAt(before, id, snapshot) {
      assert VisibleIn(after[id], snapshot) == VisibleIn(older, snapshot);
    }
  }

  /** A store and a removal of one ID in one transaction. */
  method StoreAndMark(mvcc: Manager, t: TxId, id: Id, vector: Vector, ghost s: Sys) returns (ok: bool)
    requires mvcc.Valid() && s == mvcc.Abs() && MayCommit(s, t)
    modifies mvcc`transactions
    ensures mvcc.Valid() && ok == Apply(s, Store(t, id, vector, None)).1.Done?
    ensures ok ==> mvcc.Abs() == StoredAndRemoved(s, t, id, vector) && MayCommit(mvcc.Abs(), t)
    ensures ok ==> mvcc.versionChains == s.chains
                   && WritesOf(mvcc.Abs(), t) == WritesOf(s, t)[id := MarkedStore(t, id, vector)]
    ensures !ok ==> mvcc.Abs() == s
  {
    var obs := mvcc.Store(t, id, vector, None);
    ok := obs == Obs.Done;
    if ok {
      WritesMarked(s, t, id, vector);
      obs := mvcc.Remove(t, id);
    }
  }

  lemma MarkedCommitted(s: Sys, now: Sys, t: TxId, steps: seq<Step>, before: map<Id, Vector>, indexed: map<Id, Vector>,
                        id: Id, vector: Vector)
    requires CommitLeaves(s, now, t, Obs.Done, steps, before, indexed) && t > 0
    requires id in WritesOf(s, t) && WritesOf(s, t)[id] == MarkedStore(t, id, vector)
    ensures ReadAlike(s.chains, now.chains, id) && id in indexed && indexed[id] == vector
  {
    MarkedIsUnread(s.chains, now.chains, WritesOf(s, t), t, id, vector);
  }

  /**
   * Storing and removing one ID in one transaction, and committing it: the
   * index, its page and the newest version have the vector, but no snapshot
   * whatever reads it.
   */
  method StoreThenRemove(nest: Nest, t: TxId, id: Id, vector: Vector, versionPage: Id -> Option<Page>,
                         levels: Id -> nat, ghost s: Sys, ghost left: int)
    returns (done: bool)
    requires nest.Valid() && nest.Agree() && t > 0 && forall a :: levels(a) <= MAX_LEVEL
    requires s == nest.mvcc.Abs() && MayCommit(s, t) && left == nest.storage.limit - |nest.storage.pages|
    modifies nest, nest.index`nodes, nest.index`entryPoint, nest.index`maxLevel, nest.storage, nest.mvcc, nest.wal
    ensures done ==> nest.Valid() && nest.Agree() && id in nest.Indexed() && nest.Indexed()[id] == vector
    ensures done ==> ReadAlike(s.chains, nest.mvcc.versionChains, id)
    ensures Apply(s, Store(t, id, vector, None)).1.Done? ==>
              var now := StoredAndRemoved(s, t, id, vector);
              MayCommit(now, t) && CommitFits(now, t, left) &&
              OutcomeOf(now, t, old(nest.wal.file.Some?), versionPage, left).Done? ==>
                done
  {
    ghost var indexed := nest.Indexed();
    done := StoreAndMark(nest.mvcc, t, id, vector, s);
    if done {
      ghost var marked, steps, order := nest.mvcc.Abs(), [], [];
      var obs;
      obs, steps, order := nest.Commit(t, versionPage, levels, marked, indexed, left);
      done := obs == Obs.Done;
      if done { MarkedCommitted(marked, nest.mvcc.Abs(), t, steps, indexed, nest.Indexed(), id, vector); }
    }
  }

  const X: Id := [120]
  const SIMPLE_ENV: Env := Env(_ => 0, _ => [0], _ => None)

  /**
   * The overtaking store for real: one transaction writes X, and between its
   * publication and its index update a store writes another vector to X. All
   * of it goes through, and the views disagree.
   */
  method OvertakenRun(distance: DistanceFunc) returns (nest: Nest, done: bool)
    ensures done && nest.Ready() && !nest.Agree()
  {
    var written: Id -> Option<Page>, levels: Id -> nat := _ => Some(ZeroBytes(PAGE_SIZE)), _ => 0;
    var t;
    nest, t := OneWriter(distance);
    ReadyToOvertake(nest.mvcc.Abs(), t, written);
    done := nest.StoreOvertakesCommit(t, X, [2], 0, written, levels);
  }

  /** A new database of ten pages in which one transaction is about to write X. */
  method OneWriter(distance: DistanceFunc) returns (nest: Nest, t: TxId)
    ensures fresh(nest) && fresh(nest.index) && fresh(nest.storage) && fresh(nest.mvcc) && fresh(nest.wal)
    ensures Steady(nest) && nest.wal.file.Some? && nest.storage.limit - |nest.storage.pages| == 9 && t == 1
    ensures nest.mvcc.Abs() == Apply(Apply(Init(1), Begin).0, Store(1, X, [1], None)).0
  {
    nest := New(SIMPLE_ENV, 1, 1, 1, distance, ZeroBytes(PAGE_SIZE), 10);
    t := BeginAndStore(nest.mvcc, X, [1]);
    WriterIsSteady(nest.mvcc.Abs(), nest.Indexed());
  }

  method BeginAndStore(mvcc: Manager, id: Id, vector: Vector) returns (t: TxId)
    requires mvcc.Valid() && mvcc.Abs() == Init(|vector|)
    modifies mvcc
    ensures mvcc.Valid() && t == 1
    ensures mvcc.Abs() == Apply(Apply(Init(|vector|), Begin).0, Store(1, id, vector, None)).0
  {
    t := mvcc.BeginTx();
    var obs := mvcc.Store(t, id, vector, None);
  }

  lemma WriterIsSteady(s: Sys, indexed: map<Id, Vector>)
    requires s == Apply(Apply(Init(1), Begin).0, Store(1, X, [1], None)).0 && indexed == map[]
    ensures Quiet(s) && HeadsAgree(s.chains, indexed)
  {
  }

  lemma ReadyToOvertake(s: Sys, t: TxId, written: Id -> Option<Page>)
    requires written(X) == Some(ZeroBytes(PAGE_SIZE))
    requires s == Apply(Apply(Init(1), Begin).0, Store(1, X, [1], None)).0 && t == 1
    ensures MayCommit(s, t) && s.txs[t].writeSet == map[X := NewVersion(1, X, [1], None)]
    ensures OvertakeFits(s, t, X, [2], written, 9)
  {
  }
}
