/**
 * Serializability: running the validated transactions one at a time on a
 * plain map, in the order of their validation and mixed with the Nest.Store
 * calls, gives every Get what it returned in the run. When that holds, for
 * the Gets that found a value and for those that did not.
 */
module MvccSerializability {
  import opened Base
  import opened VersionChains
  import opened MvccModel
  import opened MvccInvariants
  import opened MvccVisibility

  type Db = map<Id, Value>

  /** What one transaction did, as its client saw it. */
  datatype Op = DidGet(id: Id, value: Value) | DidMiss(id: Id) | DidStore(id: Id, value: Value)

  function OpOf(e: Event, t: TxId): seq<Op> {
    match e.step
    case Get(u, id) =>
      if u != t then []
      else if e.obs.Found? then [DidGet(id, e.obs.value)]
      else if e.obs.NotFound? then [DidMiss(id)] else []
    case Store(u, id, vector, meta) =>
      if u == t && e.obs == Done then [DidStore(id, Value(Some(vector), meta))] else []
    case _ => []
  }

  function OpsOf(trace: seq<Event>, t: TxId): seq<Op> {
    if trace == [] then [] else OpsOf(trace[..|trace| - 1], t) + OpOf(trace[|trace| - 1], t)
  }

  /** The database after the stores of a list of operations. */
  function Stores(db: Db, ops: seq<Op>): Db {
    if ops == [] then db
    else
      var db' := Stores(db, ops[..|ops| - 1]);
      match ops[|ops| - 1]
      case DidStore(id, value) => db'[id := value]
      case _ => db'
  }

  /** Run alone on db, every Get of the list that found a value returns it again. */
  ghost predicate GetsMatch(db: Db, ops: seq<Op>) {
    forall i :: 0 <= i < |ops| && ops[i].DidGet? ==>
      ops[i].id in Stores(db, ops[..i]) && Stores(db, ops[..i])[ops[i].id] == ops[i].value
  }

  /** And every Get that found nothing finds nothing again. */
  ghost predicate MissesMatch(db: Db, ops: seq<Op>) {
    forall i :: 0 <= i < |ops| && ops[i].DidMiss? ==> ops[i].id !in Stores(db, ops[..i])
  }

  predicate Commits(e: Event) {
    e.step.StartCommit? && e.obs == Validated
  }

  /** The plain map after the serial execution of everything committed so far. */
  function Replay(trace: seq<Event>): Db {
    if trace == [] then map[]
    else
      var before := trace[..|trace| - 1];
      var e := trace[|trace| - 1];
      if Commits(e) then Stores(Replay(before), OpsOf(before, e.step.t))
      else if e.step.NestStore? && e.obs.Stored? then
        Replay(before)[e.step.id := Value(Some(e.step.vector), e.step.meta)]
      else Replay(before)
  }

  ghost predicate Serializable(trace: seq<Event>) {
    forall i :: 0 <= i < |trace| && Commits(trace[i]) ==>
      GetsMatch(Replay(trace[..i]), OpsOf(trace[..i], trace[i].step.t))
  }

  ghost predicate MissesRepeat(trace: seq<Event>) {
    forall i :: 0 <= i < |trace| && Commits(trace[i]) ==>
      MissesMatch(Replay(trace[..i]), OpsOf(trace[..i], trace[i].step.t))
  }

  lemma {:induction false} StoresOverlay(db: Db, ops: seq<Op>)
    ensures Stores(db, ops) == db + Stores(map[], ops)
  {
    if ops != [] {
      StoresOverlay(db, ops[..|ops| - 1]);
    }
  }

  /** A Get of the list is explained by an earlier store of the list or by a snapshot read on record. */
  ghost predicate GetExplained(s: Sys, t: TxId, written: Db, get: Op)
    requires t in s.txs && get.DidGet?
  {
    var rec := s.txs[t];
    if get.id in written then written[get.id] == get.value
    else
      && get.id in rec.readSet
      && VisibleIn(ChainOf(s, get.id), rec.snapshot).Some?
      && var v := VisibleIn(ChainOf(s, get.id), rec.snapshot).value;
         v.version == rec.readSet[get.id] && ValueOf(v) == get.value
  }

  ghost predicate OpsExplained(w: World, t: TxId)
    requires t in w.sys.txs
  {
    var ops := OpsOf(w.trace, t);
    forall i :: 0 <= i < |ops| && ops[i].DidGet? ==> GetExplained(w.sys, t, Stores(map[], ops[..i]), ops[i])
  }

  /** The write set as a database. */
  function Written(s: Sys, t: TxId): Db
    requires t in s.txs
  {
    map k | k in s.txs[t].writeSet :: ValueOf(s.txs[t].writeSet[k])
  }

  ghost predicate WritesMatch(w: World, t: TxId)
    requires t in w.sys.txs
  {
    Stores(map[], OpsOf(w.trace, t)) == Written(w.sys, t)
  }

  /** Whatever the database: a Get after an own store of its key returned that store, and was no miss. */
  ghost predicate OwnOps(ops: seq<Op>) {
    forall i :: 0 <= i < |ops| && !ops[i].DidStore? && ops[i].id in Stores(map[], ops[..i]) ==>
      ops[i] == DidGet(ops[i].id, Stores(map[], ops[..i])[ops[i].id])
  }

  /** Transactions that have not begun have done nothing; the active ones know their own writes. */
  ghost predicate Linked(w: World) {
    && (forall t :: t !in w.sys.txs ==> OpsOf(w.trace, t) == [])
    && (forall t :: IsActive(w.sys, t) ==> OwnOps(OpsOf(w.trace, t)) && WritesMatch(w, t))
  }

  /** All Gets on record still read what they read. */
  ghost predicate Explained(w: World) {
    forall t :: IsActive(w.sys, t) ==> OpsExplained(w, t)
  }

  /** The Gets before any own store of their key hold what is at the head of its chain now. */
  ghost predicate GetsCurrent(s: Sys, ops: seq<Op>) {
    forall i :: 0 <= i < |ops| && ops[i].DidGet? && ops[i].id !in Stores(map[], ops[..i]) ==>
      && ops[i].id in s.chains && s.chains[ops[i].id] != []
      && ValueOf(s.chains[ops[i].id][0]) == ops[i].value
  }

  /** The keys that were not found still have no chain. */
  ghost predicate MissesCurrent(s: Sys, ops: seq<Op>) {
    forall i :: 0 <= i < |ops| && ops[i].DidMiss? ==> ChainOf(s, ops[i].id) == []
  }

  /** The step publishes no key below the snapshot of an active transaction that has read it. */
  ghost predicate Undisturbed(s: Sys, step: Step) {
    step.Publish? && MayPublish(s, step.t, step.id) ==>
      forall t :: IsActive(s, t) && step.t <= s.txs[t].snapshot ==> step.id !in s.txs[t].readSet
  }

  ghost predicate UndisturbedRun(d: nat, run: seq<Step>) {
    run == [] || (UndisturbedRun(d, run[..|run| - 1]) && Undisturbed(Run(d, run[..|run| - 1]).sys, run[|run| - 1]))
  }

  /** An ordered run is undisturbed. */
  lemma {:induction false} OrderedIsUndisturbed(d: nat, run: seq<Step>)
    requires OrderedRun(d, run)
    ensures UndisturbedRun(d, run)
  {
    if run != [] {
      var s, step := Run(d, run[..|run| - 1]).sys, run[|run| - 1];
      OrderedIsUndisturbed(d, run[..|run| - 1]);
      assert Ordered(s);
      assert forall t :: IsActive(s, t) ==> s.txs[t].Running();
    }
  }

  /** The newest value of each key, counting the keys still to be published. */
  ghost predicate Heads(s: Sys, db: Db) {
    && db.Keys == s.chains.Keys + Pending(s)
    && (forall k :: k in Pending(s) ==>
          k in s.txs[s.lock.value].writeSet && db[k] == ValueOf(s.txs[s.lock.value].writeSet[k]))
    && (forall k :: k in s.chains && k !in Pending(s) ==>
          s.chains[k] != [] && db[k] == ValueOf(s.chains[k][0]))
  }

  lemma SnapshotStable(s: Sys, step: Step, t: TxId, k: Id)
    requires Inv(s) && Clean(s, step) && Undisturbed(s, step) && IsActive(s, t) && k in s.txs[t].readSet
    requires IsActive(Apply(s, step).0, t)
    ensures VisibleIn(ChainOf(Apply(s, step).0, k), s.txs[t].snapshot) == VisibleIn(ChainOf(s, k), s.txs[t].snapshot)
  {
    var s' := Apply(s, step).0;
    var x := s.txs[t].snapshot;
    assert TxOk(s, t);
    match step {
      case CollectGarbage =>
        InvCollect(s);
        assert IsFloor(s, Floor(s)) && IsRunning(s, t);
        if k in s.chains { CutKeepsVisible(s.chains[k], Floor(s), x); }
      case Publish(u, id) =>
        if MayPublish(s, u, id) && id == k {
          assert TxOk(s, u);
          assert ChainOf(s', k)[1..] == ChainOf(s, k);
        }
      case NestStore(id, vector, meta) =>
        if Apply(s, step).1.Stored? && id == k { assert ChainOf(s', k)[1..] == ChainOf(s, k); }
      case _ =>
    }
  }

  lemma OpsStep(w: World, step: Step, t: TxId)
    ensures OpsOf(Next(w, step).trace, t)
            == OpsOf(w.trace, t) + OpOf(Event(step, Apply(w.sys, step).1), t)
  {
    assert Next(w, step).trace[..|w.trace|] == w.trace;
  }

  lemma ReadSetEffect(s: Sys, step: Step, t: TxId)
    requires Inv(s) && IsActive(s, t) && IsActive(Apply(s, step).0, t)
    ensures var rec, rec' := s.txs[t], Apply(s, step).0.txs[t];
            && rec'.snapshot == rec.snapshot
            && forall k :: k in rec.readSet ==>
                 && k in rec'.readSet
                 && (rec'.readSet[k] == rec.readSet[k]
                     || var r := VisibleIn(ChainOf(s, k), rec.snapshot); r.Some? && rec'.readSet[k] == r.value.version)
  {
    assert TxOk(s, t);
  }

  lemma WriteSetEffect(s: Sys, step: Step, t: TxId)
    requires Inv(s) && Clean(s, step) && IsActive(s, t) && IsActive(Apply(s, step).0, t)
    ensures var op := OpOf(Event(step, Apply(s, step).1), t);
            Written(Apply(s, step).0, t)
            == if op != [] && op[0].DidStore? then Written(s, t)[op[0].id := op[0].value] else Written(s, t)
  {
    assert TxOk(s, t);
    var s' := Apply(s, step).0;
    match step {
      case Store(u, id, vector, meta) =>
        if u == t && Apply(s, step).1 == Done {
          assert s'.txs[t].writeSet == s.txs[t].writeSet[id := NewVersion(t, id, vector, meta)];
        } else {
          assert s'.txs[t] == s.txs[t];
        }
      case Get(u, id) => assert s'.txs[t].writeSet == s.txs[t].writeSet;
      case _ =>
    }
  }

  lemma GetStaysExplained(s: Sys, step: Step, t: TxId, written: Db, get: Op)
    requires Inv(s) && Clean(s, step) && Undisturbed(s, step) && IsActive(s, t) && IsActive(Apply(s, step).0, t)
    requires get.DidGet? && GetExplained(s, t, written, get)
    ensures GetExplained(Apply(s, step).0, t, written, get)
  {
    if get.id !in written { SnapshotStable(s, step, t, get.id); }
    ReadSetEffect(s, step, t);
  }

  lemma NewGetExplained(s: Sys, t: TxId, id: Id)
    requires Inv(s) && IsActive(s, t) && ApplyGet(s, t, id).1.Found?
    ensures GetExplained(ApplyGet(s, t, id).0, t, Written(s, t), DidGet(id, ApplyGet(s, t, id).1.value))
  {
    assert TxOk(s, t);
  }

  /** The operations on record stay explained while the transaction is active. */
  lemma ExplainedStep(w: World, step: Step, t: TxId)
    requires Inv(w.sys) && Clean(w.sys, step) && Undisturbed(w.sys, step)
    requires IsActive(w.sys, t) && IsActive(Apply(w.sys, step).0, t)
    requires OpsExplained(w, t) && WritesMatch(w, t)
    ensures OpsExplained(Next(w, step), t)
  {
    var ops' := OpsOf(Next(w, step).trace, t);
    forall i | 0 <= i < |ops'| && ops'[i].DidGet?
      ensures GetExplained(Next(w, step).sys, t, Stores(map[], ops'[..i]), ops'[i])
    {
      ExplainedAt(w, step, t, i);
    }
  }

  lemma ExplainedAt(w: World, step: Step, t: TxId, i: nat)
    requires Inv(w.sys) && Clean(w.sys, step) && Undisturbed(w.sys, step)
    requires IsActive(w.sys, t) && IsActive(Apply(w.sys, step).0, t)
    requires OpsExplained(w, t) && WritesMatch(w, t)
    requires i < |OpsOf(Next(w, step).trace, t)| && OpsOf(Next(w, step).trace, t)[i].DidGet?
    ensures var ops' := OpsOf(Next(w, step).trace, t);
            GetExplained(Next(w, step).sys, t, Stores(map[], ops'[..i]), ops'[i])
  {
    var ops, ops' := OpsOf(w.trace, t), OpsOf(Next(w, step).trace, t);
    OpsStep(w, step, t);
    OldOrNewest(ops, OpOf(Event(step, Apply(w.sys, step).1), t), i);
    if i < |ops| {
      GetStaysExplained(w.sys, step, t, Stores(map[], ops[..i]), ops[i]);
    } else {
      NewestExplained(w, step, t, ops'[i]);
    }
  }

  lemma OldOrNewest(ops: seq<Op>, more: seq<Op>, i: nat)
    requires i < |ops + more| && |more| <= 1
    ensures if i < |ops| then (ops + more)[..i] == ops[..i] && (ops + more)[i] == ops[i]
            else (ops + more)[..i] == ops && more == [(ops + more)[i]]
  {
  }

  lemma NewestExplained(w: World, step: Step, t: TxId, get: Op)
    requires Inv(w.sys) && IsActive(w.sys, t) && WritesMatch(w, t)
    requires OpOf(Event(step, Apply(w.sys, step).1), t) == [get] && get.DidGet?
    ensures GetExplained(Next(w, step).sys, t, Stores(map[], OpsOf(w.trace, t)), get)
  {
    assert step == Get(t, get.id);
    NewGetExplained(w.sys, t, step.id);
  }

  lemma WritesStep(w: World, step: Step, t: TxId)
    requires Inv(w.sys) && Clean(w.sys, step)
    requires IsActive(w.sys, t) && IsActive(Apply(w.sys, step).0, t) && WritesMatch(w, t)
    ensures WritesMatch(Next(w, step), t)
  {
    OpsStep(w, step, t);
    WriteSetEffect(w.sys, step, t);
    StoresMore(OpsOf(w.trace, t), OpOf(Event(step, Apply(w.sys, step).1), t));
  }

  lemma StoresMore(ops: seq<Op>, more: seq<Op>)
    requires |more| <= 1
    ensures Stores(map[], ops + more)
            == if more != [] && more[0].DidStore? then Stores(map[], ops)[more[0].id := more[0].value]
              else Stores(map[], ops)
  {
    if more != [] {
      assert (ops + more)[..|ops|] == ops;
    } else {
      assert ops + more == ops;
    }
  }

  /** A transaction that is active after a step was so before it, or has just begun. */
  lemma ActiveBefore(s: Sys, step: Step, t: TxId)
    requires Inv(s) && Clean(s, step) && IsActive(Apply(s, step).0, t)
    ensures IsActive(s, t) || (t !in s.txs && step == Begin && Apply(s, step).0.txs[t].writeSet == map[])
  {
    assert s.lock.Some? ==> TxOk(s, s.lock.value);
    assert forall u :: u in s.txs ==> TxOk(s, u);
  }

  lemma TxsGrow(s: Sys, step: Step)
    ensures s.txs.Keys <= Apply(s, step).0.txs.Keys
    ensures OpOf(Event(step, Apply(s, step).1), if step.Get? || step.Store? then step.t else 0) != [] ==>
              step.t in s.txs
  {
  }

  /** A Get of a key that the transaction has stored finds the store. */
  lemma OwnGet(s: Sys, t: TxId, id: Id)
    requires Inv(s) && IsActive(s, t) && id in s.txs[t].writeSet
    ensures OpOf(Event(Get(t, id), Apply(s, Get(t, id)).1), t) == [DidGet(id, Written(s, t)[id])]
  {
    assert TxOk(s, t);
  }

  lemma OwnOpsStep(w: World, step: Step, t: TxId)
    requires Inv(w.sys) && IsActive(w.sys, t) && OwnOps(OpsOf(w.trace, t)) && WritesMatch(w, t)
    ensures OwnOps(OpsOf(Next(w, step).trace, t))
  {
    var ops, ops' := OpsOf(w.trace, t), OpsOf(Next(w, step).trace, t);
    OpsStep(w, step, t);
    forall i | 0 <= i < |ops'| && !ops'[i].DidStore? && ops'[i].id in Stores(map[], ops'[..i])
      ensures ops'[i] == DidGet(ops'[i].id, Stores(map[], ops'[..i])[ops'[i].id])
    {
      if i < |ops| {
        assert ops'[..i] == ops[..i] && ops'[i] == ops[i];
      } else {
        assert ops'[..i] == ops && step == Get(t, ops'[i].id);
        OwnGet(w.sys, t, step.id);
      }
    }
  }

  lemma LinkedStep(w: World, step: Step)
    requires Inv(w.sys) && Clean(w.sys, step) && Linked(w)
    ensures Linked(Next(w, step))
  {
    var w' := Next(w, step);
    TxsGrow(w.sys, step);
    forall t | t !in w'.sys.txs ensures OpsOf(w'.trace, t) == [] {
      OpsStep(w, step, t);
    }
    forall t | IsActive(w'.sys, t) ensures OwnOps(OpsOf(w'.trace, t)) && WritesMatch(w', t) {
      ActiveBefore(w.sys, step, t);
      if t in w.sys.txs {
        OwnOpsStep(w, step, t);
        WritesStep(w, step, t);
      } else {
        OpsStep(w, step, t);
      }
    }
  }

  lemma ExplainedAllStep(w: World, step: Step)
    requires Inv(w.sys) && Clean(w.sys, step) && Undisturbed(w.sys, step) && Linked(w) && Explained(w)
    ensures Explained(Next(w, step))
  {
    var w' := Next(w, step);
    forall t | IsActive(w'.sys, t) ensures OpsExplained(w', t) {
      ActiveBefore(w.sys, step, t);
      if t in w.sys.txs {
        ExplainedStep(w, step, t);
      } else {
        OpsStep(w, step, t);
      }
    }
  }

  /** With the commit lock free, the serial run repeats exactly the Gets that are current. */
  lemma GetsMatchIff(s: Sys, db: Db, ops: seq<Op>)
    requires Heads(s, db) && Pending(s) == {} && OwnOps(ops)
    ensures GetsMatch(db, ops) <==> GetsCurrent(s, ops)
  {
    forall i | 0 <= i < |ops| && ops[i].DidGet?
      ensures (ops[i].id in Stores(db, ops[..i]) && Stores(db, ops[..i])[ops[i].id] == ops[i].value)
              <==> (ops[i].id in Stores(map[], ops[..i])
                    || (ops[i].id in s.chains && s.chains[ops[i].id] != []
                        && ValueOf(s.chains[ops[i].id][0]) == ops[i].value))
    {
      StoresOverlay(db, ops[..i]);
    }
  }

  /** And exactly the misses of keys that still have no chain. */
  lemma MissesMatchIff(s: Sys, db: Db, ops: seq<Op>)
    requires Heads(s, db) && Pending(s) == {} && OwnOps(ops)
    ensures MissesMatch(db, ops) <==> MissesCurrent(s, ops)
  {
    forall i | 0 <= i < |ops| && ops[i].DidMiss?
      ensures ops[i].id !in Stores(db, ops[..i]) <==> ChainOf(s, ops[i].id) == []
    {
      StoresOverlay(db, ops[..i]);
    }
  }

  /** Validation leaves every read that is still explained at the head. */
  lemma ValidatedGetsCurrent(w: World, t: TxId)
    requires Inv(w.sys) && ReadsOk(w.sys) && Explained(w)
    requires IsActive(w.sys, t) && ApplyStartCommit(w.sys, t).1 == Validated
    ensures GetsCurrent(w.sys, OpsOf(w.trace, t))
  {
    var s, ops := w.sys, OpsOf(w.trace, t);
    forall i | 0 <= i < |ops| && ops[i].DidGet? && ops[i].id !in Stores(map[], ops[..i])
      ensures ops[i].id in s.chains && s.chains[ops[i].id] != [] && ValueOf(s.chains[ops[i].id][0]) == ops[i].value
    {
      assert GetExplained(s, t, Stores(map[], ops[..i]), ops[i]);
      ReadIsHead(s, t, ops[i].id);
    }
  }

  /** So the serial run repeats it. */
  lemma ValidatedGetsMatch(w: World, t: TxId, db: Db)
    requires Inv(w.sys) && ReadsOk(w.sys) && Linked(w) && Explained(w) && Heads(w.sys, db)
    requires IsActive(w.sys, t) && ApplyStartCommit(w.sys, t).1 == Validated
    ensures GetsMatch(db, OpsOf(w.trace, t))
  {
    ValidatedGetsCurrent(w, t);
    GetsMatchIff(w.sys, db, OpsOf(w.trace, t));
  }

  lemma ReadIsHead(s: Sys, t: TxId, k: Id)
    requires Inv(s) && ReadsOk(s) && t in s.txs && k in s.txs[t].readSet && Validates(s, s.txs[t])
    requires VisibleIn(ChainOf(s, k), s.txs[t].snapshot).Some?
    requires VisibleIn(ChainOf(s, k), s.txs[t].snapshot).value.version == s.txs[t].readSet[k]
    ensures k in s.chains && s.chains[k] != []
    ensures VisibleIn(ChainOf(s, k), s.txs[t].snapshot) == Some(s.chains[k][0])
  {
    VisibleAt(ChainOf(s, k), s.txs[t].snapshot);
    assert ReadHolds(ChainOf(s, k), s.txs[t].readSet[k], s.txs[t].snapshot);
    assert ChainOk(k, s.chains[k], s.counter);
  }

  lemma HeadsStartCommit(s: Sys, t: TxId, db: Db)
    requires Inv(s) && Heads(s, db) && IsActive(s, t)
    ensures var (s', obs) := ApplyStartCommit(s, t);
            Heads(s', if obs == Validated then db + Written(s, t) else db)
  {
    var (s', obs) := ApplyStartCommit(s, t);
    if obs == Validated {
      HeadsOverlay(s, s', t, db);
    } else {
      assert TxOk(s, t);
      HeadsSame(s, s', db);
    }
  }

  lemma HeadsOverlay(s: Sys, s': Sys, t: TxId, db: Db)
    requires Heads(s, db) && Pending(s) == {} && t in s.txs && s'.chains == s.chains
    requires s'.lock == Some(t) && t in s'.txs && s'.txs[t].writeSet == s.txs[t].writeSet
    requires Pending(s') == s.txs[t].writeSet.Keys
    ensures Heads(s', db + Written(s, t))
  {
  }

  lemma HeadsPublish(s: Sys, t: TxId, id: Id, db: Db)
    requires Inv(s) && Heads(s, db) && MayPublish(s, t, id)
    ensures Heads(Published(s, t, id), db)
  {
    var s' := Published(s, t, id);
    assert Pending(s) == Pending(s') + {id};
  }

  lemma HeadsCollect(s: Sys, db: Db)
    requires Inv(s) && Heads(s, db)
    ensures Heads(Collected(s), db)
  {
    InvCollect(s);
  }

  lemma HeadsNestStore(s: Sys, id: Id, vector: Vector, meta: Option<Meta>, db: Db)
    requires Inv(s) && Heads(s, db) && id !in Pending(s)
    ensures var (s', obs) := ApplyNestStore(s, id, vector, meta);
            Heads(s', if obs.Stored? then db[id := Value(Some(vector), meta)] else db)
  {
    var (s', obs) := ApplyNestStore(s, id, vector, meta);
    if obs.Stored? {
      LockHolderKept(s, NestStore(id, vector, meta));
      HeadsAdd(s, s', id, NewVersion(s.counter + 1, id, vector, meta), db);
    }
  }

  lemma HeadsAdd(s: Sys, s': Sys, id: Id, v: Version, db: Db)
    requires Heads(s, db) && s'.chains == Added(s, id, v).chains && Pending(s') == Pending(s) && id !in Pending(s)
    requires Pending(s) != {} ==> s'.lock == s.lock && s'.txs[s.lock.value] == s.txs[s.lock.value]
    ensures Heads(s', db[id := ValueOf(v)])
  {
  }

  /** Only the steps of a commit change what the lock holder has still to publish. */
  lemma LockHolderKept(s: Sys, step: Step)
    requires Inv(s)
    requires step.Begin? || step.Get? || step.Store? || step.Rollback? || step.LogFails? || step.NestStore?
    ensures var s' := Apply(s, step).0;
            && s'.lock == s.lock && Pending(s') == Pending(s)
            && (s.lock.Some? ==> s'.txs[s.lock.value] == s.txs[s.lock.value])
  {
    assert s.lock.Some? ==> TxOk(s, s.lock.value);
  }

  lemma HeadsSame(s: Sys, s': Sys, db: Db)
    requires Heads(s, db) && s'.chains == s.chains && Pending(s') == Pending(s)
    requires Pending(s) != {} ==> s'.lock == s.lock && s'.txs[s.lock.value] == s.txs[s.lock.value]
    ensures Heads(s', db)
  {
  }

  /** The other steps change neither chains nor what is pending. */
  lemma HeadsElsewhere(s: Sys, step: Step, db: Db)
    requires Inv(s) && Heads(s, db)
    requires step.Begin? || step.Get? || step.Store? || step.FinishCommit? || step.Rollback? || step.LogFails?
    ensures Heads(Apply(s, step).0, db)
  {
    if !step.FinishCommit? { LockHolderKept(s, step); }
    HeadsSame(s, Apply(s, step).0, db);
  }

  lemma HeadsStep(w: World, step: Step)
    requires Inv(w.sys) && Clean(w.sys, step) && Linked(w) && Heads(w.sys, Replay(w.trace))
    ensures Heads(Next(w, step).sys, Replay(Next(w, step).trace))
  {
    var db := Replay(w.trace);
    assert Next(w, step).trace[..|w.trace|] == w.trace;
    match step {
      case StartCommit(t) =>
        if IsActive(w.sys, t) {
          StoresOverlay(db, OpsOf(w.trace, t));
          HeadsStartCommit(w.sys, t, db);
        }
      case Publish(t, id) => if MayPublish(w.sys, t, id) { HeadsPublish(w.sys, t, id, db); }
      case CollectGarbage => HeadsCollect(w.sys, db);
      case NestStore(id, vector, meta) => HeadsNestStore(w.sys, id, vector, meta, db);
      case _ => if !step.Remove? && !step.PublishFails? && !step.IndexFails? { HeadsElsewhere(w.sys, step, db); }
    }
  }

  /** Heads newer than lastCommittedTx belong to the transaction that holds the lock. */
  ghost predicate Sealed(s: Sys) {
    forall k :: k in s.chains && s.chains[k] != [] ==>
      s.chains[k][0].createdByTx <= s.last || s.lock == Some(s.chains[k][0].createdByTx)
  }

  lemma SealedStep(s: Sys, step: Step)
    requires Inv(s) && Clean(s, step) && Sealed(s)
    ensures Sealed(Apply(s, step).0)
  {
    assert s.lock.Some? ==> TxOk(s, s.lock.value);
    match step {
      case CollectGarbage => InvCollect(s);
      case Publish(t, id) => if MayPublish(s, t, id) { assert TxOk(s, t); }
      case FinishCommit(t) =>
      case NestStore(id, vector, meta) => LockHolderKept(s, step);
      case StartCommit(t) =>
      case _ => if !step.Remove? && !step.PublishFails? && !step.IndexFails? { LockHolderKept(s, step); }
    }
  }

  lemma {:induction false} RunSealed(d: nat, run: seq<Step>)
    requires CleanRun(d, run)
    ensures Sealed(Run(d, run).sys)
  {
    if run != [] {
      RunSealed(d, run[..|run| - 1]);
      RunInv(d, run[..|run| - 1]);
      SealedStep(Run(d, run[..|run| - 1]).sys, run[|run| - 1]);
    }
  }

  /** In every clean run, ordered or not, the chain heads are the serial database. */
  lemma {:induction false} RunHeads(d: nat, run: seq<Step>)
    requires CleanRun(d, run)
    ensures Linked(Run(d, run)) && Heads(Run(d, run).sys, Replay(Run(d, run).trace))
  {
    if run != [] {
      var run', step := run[..|run| - 1], run[|run| - 1];
      RunHeads(d, run');
      RunInv(d, run');
      LinkedStep(Run(d, run'), step);
      HeadsStep(Run(d, run'), step);
    }
  }

  /**
   * A transaction begun while no commit is under way reads exactly the
   * database the serial execution has produced, found or not found.
   */
  lemma FreshSnapshotIsSerial(d: nat, run: seq<Step>, k: Id)
    requires CleanRun(d, run) && Run(d, run).sys.lock == None
    ensures var w := Next(Run(d, run), Begin);
            var t := w.sys.counter;
            && IsActive(w.sys, t)
            && ApplyGet(w.sys, t, k).1
               == if k in Replay(Run(d, run).trace) then Found(Replay(Run(d, run).trace)[k]) else NotFound
  {
    RunHeads(d, run);
    RunSealed(d, run);
    RunInv(d, run);
    var s := Run(d, run).sys;
    if k in s.chains { assert ChainOk(k, s.chains[k], s.counter); }
  }

  /** If step n of the run is a validated commit, the reads of its transaction are current there. */
  ghost predicate GetsCurrentAt(d: nat, run: seq<Step>, n: nat)
    requires n < |run|
  {
    var w := Run(d, run[..n]);
    run[n].StartCommit? && Apply(w.sys, run[n]).1 == Validated ==> GetsCurrent(w.sys, OpsOf(w.trace, run[n].t))
  }

  /** And so are its misses. */
  ghost predicate MissesCurrentAt(d: nat, run: seq<Step>, n: nat)
    requires n < |run|
  {
    var w := Run(d, run[..n]);
    run[n].StartCommit? && Apply(w.sys, run[n]).1 == Validated ==> MissesCurrent(w.sys, OpsOf(w.trace, run[n].t))
  }

  lemma ReplayedAtIff(d: nat, run: seq<Step>, n: nat)
    requires CleanRun(d, run) && n < |run| && |Run(d, run).trace| == |run|
    ensures var trace := Run(d, run).trace; Commits(trace[n]) ==>
              && (GetsMatch(Replay(trace[..n]), OpsOf(trace[..n], trace[n].step.t)) <==> GetsCurrentAt(d, run, n))
              && (MissesMatch(Replay(trace[..n]), OpsOf(trace[..n], trace[n].step.t)) <==> MissesCurrentAt(d, run, n))
    ensures !Commits(Run(d, run).trace[n]) ==> GetsCurrentAt(d, run, n) && MissesCurrentAt(d, run, n)
  {
    TraceAt(d, run, n);
    CleanPart(d, run, n);
    RunHeads(d, run[..n]);
    var w := Run(d, run[..n]);
    if Commits(Run(d, run).trace[n]) {
      GetsMatchIff(w.sys, Replay(w.trace), OpsOf(w.trace, run[n].t));
      MissesMatchIff(w.sys, Replay(w.trace), OpsOf(w.trace, run[n].t));
    }
  }

  /**
   * Exactly when a clean run is serializable, ordered or not: whenever a
   * transaction is validated, the Gets it has on record, except those of keys
   * it had stored itself, returned what is at the heads of the chains then.
   */
  lemma SerializableIff(d: nat, run: seq<Step>)
    requires CleanRun(d, run)
    ensures Serializable(Run(d, run).trace) <==> forall n :: 0 <= n < |run| ==> GetsCurrentAt(d, run, n)
  {
    TraceAt(d, run, 0);
    forall n | 0 <= n < |run|
      ensures (Commits(Run(d, run).trace[n]) ==>
                 GetsMatch(Replay(Run(d, run).trace[..n]), OpsOf(Run(d, run).trace[..n], Run(d, run).trace[n].step.t)))
              <==> GetsCurrentAt(d, run, n)
    {
      ReplayedAtIff(d, run, n);
    }
  }

  /** Exactly when its misses repeat as well: whenever a transaction is validated, no key it missed has a chain. */
  lemma MissesRepeatIff(d: nat, run: seq<Step>)
    requires CleanRun(d, run)
    ensures MissesRepeat(Run(d, run).trace) <==> forall n :: 0 <= n < |run| ==> MissesCurrentAt(d, run, n)
  {
    TraceAt(d, run, 0);
    forall n | 0 <= n < |run|
      ensures (Commits(Run(d, run).trace[n]) ==>
                 MissesMatch(Replay(Run(d, run).trace[..n]),
                             OpsOf(Run(d, run).trace[..n], Run(d, run).trace[n].step.t)))
              <==> MissesCurrentAt(d, run, n)
    {
      ReplayedAtIff(d, run, n);
    }
  }

  /**
   * A condition that can be checked publication by publication: a clean run is
   * serializable if no key is published below the snapshot of an active
   * transaction that has read it. Every ordered run is such a run.
   */
  lemma {:induction false} RunSerial(d: nat, run: seq<Step>)
    requires CleanRun(d, run) && UndisturbedRun(d, run)
    ensures Explained(Run(d, run)) && Serializable(Run(d, run).trace)
  {
    if run != [] {
      var run', step := run[..|run| - 1], run[|run| - 1];
      var w, w' := Run(d, run'), Run(d, run);
      RunSerial(d, run');
      RunInv(d, run');
      RunHeads(d, run');
      ExplainedAllStep(w, step);
      var n := |w.trace|;
      assert forall i :: 0 <= i <= n ==> w'.trace[..i] == w.trace[..i];
      assert w.trace[..n] == w.trace;
      forall i | 0 <= i < |w'.trace| && Commits(w'.trace[i])
        ensures GetsMatch(Replay(w'.trace[..i]), OpsOf(w'.trace[..i], w'.trace[i].step.t))
      {
        if i == n { ValidatedGetsMatch(w, step.t, Replay(w.trace)); }
      }
    }
  }

  /** So every clean ordered run is serializable in commit order. */
  lemma OrderedRunSerial(d: nat, run: seq<Step>)
    requires CleanRun(d, run) && OrderedRun(d, run)
    ensures Serializable(Run(d, run).trace)
  {
    OrderedIsUndisturbed(d, run);
    RunSerial(d, run);
  }
}
