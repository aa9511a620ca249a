/**
 * What every step of the transaction machine keeps, on the runs for which the
 * code keeps it, and what follows for the written keys: version chains stay
 * strictly descending, and validation puts every head at or below the snapshot.
 */
module MvccInvariants {
  import opened Base
  import opened VersionChains
  import opened MvccModel

  /** Keys the holder of the commit lock has validated and not yet published. */
  function Pending(s: Sys): set<Id> {
    if s.lock.Some? && s.lock.value in s.txs && s.txs[s.lock.value].status.Committing?
    then s.txs[s.lock.value].status.remaining else {}
  }

  /**
   * The steps for which the code keeps its promises: no delete, no failing
   * page write or index update once publication has begun, and no Nest.Store
   * on a key that the committing transaction has validated but not yet published.
   */
  predicate Clean(s: Sys, step: Step) {
    match step
    case Remove(_, _) => false
    case PublishFails(_, _) => false
    case IndexFails(_) => false
    case NestStore(id, _, _) => id !in Pending(s)
    case _ => true
  }

  ghost predicate CleanRun(d: nat, run: seq<Step>) {
    run == [] || (CleanRun(d, run[..|run| - 1]) && Clean(Run(d, run[..|run| - 1]).sys, run[|run| - 1]))
  }

  ghost predicate ChainOk(id: Id, c: Chain, counter: TxId) {
    && c != []
    && StoreOnly(c)
    && Descending(c)
    && (forall i :: 0 <= i < |c| ==> c[i].id == id && c[i].version == c[i].createdByTx
                                     && 1 <= c[i].createdByTx <= counter && c[i].vector.Some?)
  }

  ghost predicate WritesOk(t: TxId, rec: TxRec) {
    forall k :: k in rec.writeSet ==>
      var v := rec.writeSet[k];
      v.id == k && v.version == t && v.createdByTx == t && v.deletedByTx == 0 && v.vector.Some?
  }

  ghost predicate TxOk(s: Sys, t: TxId) {
    && t in s.txs
    && 1 <= t <= s.counter
    && s.txs[t].snapshot < t && s.txs[t].snapshot <= s.last
    && WritesOk(t, s.txs[t])
    && (s.txs[t].status.Committing? <==> s.lock == Some(t))
  }

  /** Every key still to be published has a head at or below the snapshot. */
  ghost predicate PendingOk(s: Sys, t: TxId) {
    && t in s.txs && s.txs[t].status.Committing?
    && s.txs[t].status.remaining <= s.txs[t].writeSet.Keys
    && forall k :: k in s.txs[t].status.remaining ==> WriteHolds(ChainOf(s, k), s.txs[t].snapshot)
  }

  ghost predicate Inv(s: Sys) {
    && s.last <= s.counter
    && (forall t :: t in s.txs ==> TxOk(s, t))
    && (forall k :: k in s.chains ==> ChainOk(k, s.chains[k], s.counter))
    && (s.lock.Some? ==> PendingOk(s, s.lock.value))
  }

  lemma AddedChainOk(c: Chain, v: Version, counter: TxId)
    requires c != [] ==> ChainOk(v.id, c, counter)
    requires v.version == v.createdByTx && v.deletedByTx == 0 && v.vector.Some?
    requires 1 <= v.createdByTx <= counter
    requires c == [] || c[0].createdByTx < v.createdByTx
    ensures ChainOk(v.id, [v] + c, counter)
  {
  }

  lemma CutChainOk(id: Id, c: Chain, counter: TxId, floor: TxId)
    requires ChainOk(id, c, counter)
    ensures ChainOk(id, Cut(c, floor), counter)
  {
    CutIsPrefix(c, floor);
  }

  /** What a read validated under the lock says about the head. */
  lemma ValidatedHead(s: Sys, t: TxId, k: Id)
    requires Inv(s) && t in s.txs && k in s.txs[t].writeSet
    requires k in s.txs[t].readSet ==> ReadHolds(ChainOf(s, k), s.txs[t].readSet[k], s.txs[t].snapshot)
    requires k in s.txs[t].readSet ==> s.txs[t].readSet[k] <= s.txs[t].snapshot
    requires k !in s.txs[t].readSet ==> WriteHolds(ChainOf(s, k), s.txs[t].snapshot)
    ensures WriteHolds(ChainOf(s, k), s.txs[t].snapshot)
  {
  }

  /** Versions recorded in a read set were visible, so at or below the snapshot. */
  ghost predicate ReadsOk(s: Sys) {
    forall t, k :: t in s.txs && k in s.txs[t].readSet ==> s.txs[t].readSet[k] <= s.txs[t].snapshot
  }

  lemma ReadsOkStep(s: Sys, step: Step)
    requires Inv(s) && ReadsOk(s)
    ensures ReadsOk(Apply(s, step).0)
  {
    var s' := Apply(s, step).0;
    if step.Get? && IsActive(s, step.t) && step.id !in s.txs[step.t].writeSet {
      VisibleAt(ChainOf(s, step.id), s.txs[step.t].snapshot);
    }
  }

  lemma InvPublish(s: Sys, t: TxId, id: Id)
    requires Inv(s) && MayPublish(s, t, id)
    ensures Inv(Published(s, t, id))
  {
    var s' := Published(s, t, id);
    AddedChainOk(ChainOf(s, id), s.txs[t].writeSet[id], s.counter);
    assert TxOk(s, t);
    forall u | u in s'.txs ensures TxOk(s', u) { assert TxOk(s, u); }
  }

  lemma InvStartCommit(s: Sys, t: TxId)
    requires Inv(s) && ReadsOk(s) && IsActive(s, t)
    ensures Inv(ApplyStartCommit(s, t).0)
  {
    var (s', obs) := ApplyStartCommit(s, t);
    if obs == Validated {
      forall k | k in s.txs[t].writeSet
        ensures WriteHolds(ChainOf(s, k), s.txs[t].snapshot)
      {
        ValidatedHead(s, t, k);
      }
    }
    forall u | u in s'.txs ensures TxOk(s', u) { assert TxOk(s, u); }
  }

  lemma InvFinish(s: Sys, t: TxId)
    requires Inv(s) && MayFinish(s, t)
    ensures Inv(Finished(s, t))
  {
    assert TxOk(s, t);
    forall u | u in s.txs ensures TxOk(Finished(s, t), u) { assert TxOk(s, u); }
  }

  lemma InvCollect(s: Sys)
    requires Inv(s)
    ensures Inv(Collected(s))
    ensures forall k :: k in s.chains <==> k in Collected(s).chains
    ensures forall k :: k in s.chains ==> Collected(s).chains[k] == Cut(s.chains[k], Floor(s))
                                          && Collected(s).chains[k][0] == s.chains[k][0]
  {
    var s' := Collected(s);
    forall k | k in s.chains
      ensures k in s'.chains && ChainOk(k, s'.chains[k], s.counter) && s'.chains[k][0] == s.chains[k][0]
    {
      CutChainOk(k, s.chains[k], s.counter, Floor(s));
      CutIsPrefix(s.chains[k], Floor(s));
    }
    forall u | u in s'.txs ensures TxOk(s', u) { assert TxOk(s, u); }
  }

  lemma InvNestStore(s: Sys, id: Id, vector: Vector, meta: Option<Meta>)
    requires Inv(s) && id !in Pending(s)
    ensures Inv(ApplyNestStore(s, id, vector, meta).0)
  {
    var (s', obs) := ApplyNestStore(s, id, vector, meta);
    if obs.Stored? {
      AddedChainOk(ChainOf(s, id), NewVersion(s.counter + 1, id, vector, meta), s.counter + 1);
      forall k | k in s'.chains ensures ChainOk(k, s'.chains[k], s'.counter) {
        assert k != id ==> ChainOk(k, s.chains[k], s.counter);
      }
      forall u | u in s'.txs ensures TxOk(s', u) { assert u in s.txs ==> TxOk(s, u); }
    }
  }

  /** Replacing or adding one transaction record, the chains untouched. */
  lemma InvOneTx(s: Sys, s': Sys, t: TxId)
    requires Inv(s)
    requires s'.chains == s.chains && s'.last == s.last && s'.lock == s.lock && s'.counter >= s.counter
    requires s.lock != Some(t) && s'.txs.Keys == s.txs.Keys + {t}
    requires forall u :: u in s.txs && u != t ==> s'.txs[u] == s.txs[u]
    requires TxOk(s', t)
    ensures Inv(s')
  {
    forall k | k in s'.chains ensures ChainOk(k, s'.chains[k], s'.counter) {
      assert ChainOk(k, s.chains[k], s.counter);
    }
    forall u | u in s'.txs ensures TxOk(s', u) { assert u != t ==> TxOk(s, u); }
  }

  /** The steps of one transaction that touch neither chains nor lock. */
  lemma InvLocal(s: Sys, step: Step)
    requires Inv(s)
    requires step.Begin? || step.Get? || step.Store? || step.Rollback? || step.LogFails?
    ensures Inv(Apply(s, step).0)
  {
    var s' := Apply(s, step).0;
    if step.Begin? {
      assert s.lock.Some? ==> TxOk(s, s.lock.value);
      InvOneTx(s, s', s.counter + 1);
    } else if IsActive(s, step.t) {
      assert TxOk(s, step.t);
      InvOneTx(s, s', step.t);
    }
  }

  lemma InvStep(s: Sys, step: Step)
    requires Inv(s) && ReadsOk(s) && Clean(s, step)
    ensures Inv(Apply(s, step).0)
  {
    match step {
      case StartCommit(t) => if IsActive(s, t) { InvStartCommit(s, t); }
      case Publish(t, id) => if MayPublish(s, t, id) { InvPublish(s, t, id); }
      case FinishCommit(t) => if MayFinish(s, t) { InvFinish(s, t); }
      case CollectGarbage => InvCollect(s);
      case NestStore(id, vector, meta) => InvNestStore(s, id, vector, meta);
      case _ => if !step.PublishFails? && !step.IndexFails? { InvLocal(s, step); }
    }
  }

  lemma {:induction false} RunInv(d: nat, run: seq<Step>)
    requires CleanRun(d, run)
    ensures Inv(Run(d, run).sys) && ReadsOk(Run(d, run).sys)
  {
    if run != [] {
      RunInv(d, run[..|run| - 1]);
      var s := Run(d, run[..|run| - 1]).sys;
      InvStep(s, run[|run| - 1]);
      ReadsOkStep(s, run[|run| - 1]);
    }
  }

  lemma {:induction false} CleanPart(d: nat, run: seq<Step>, n: nat)
    requires n <= |run| && CleanRun(d, run)
    ensures CleanRun(d, run[..n])
  {
    if n == |run| {
      assert run[..n] == run;
    } else {
      CleanPart(d, run[..|run| - 1], n);
      assert run[..|run| - 1][..n] == run[..n];
    }
  }

  /** The transaction read or wrote the key, and its newest version came after the snapshot. */
  ghost predicate Overtaken(s: Sys, t: TxId, k: Id)
    requires t in s.txs
  {
    && (k in s.txs[t].readSet || k in s.txs[t].writeSet)
    && ChainOf(s, k) != [] && ChainOf(s, k)[0].createdByTx > s.txs[t].snapshot
  }

  /**
   * In every clean run a commit that gets the lock conflicts exactly if a key
   * that the transaction has found or written has a version newer than its
   * snapshot; otherwise it is validated.
   */
  lemma ConflictIff(d: nat, run: seq<Step>, t: TxId)
    requires CleanRun(d, run) && IsActive(Run(d, run).sys, t) && Run(d, run).sys.lock == None
    ensures var s := Run(d, run).sys;
            Apply(s, StartCommit(t)).1 == if exists k :: Overtaken(s, t, k) then Conflict else Validated
  {
    RunInv(d, run);
    var s := Run(d, run).sys;
    var rec := s.txs[t];
    if Validates(s, rec) {
      forall k ensures !Overtaken(s, t, k) {
        assert k in rec.readSet ==> ReadHolds(ChainOf(s, k), rec.readSet[k], rec.snapshot);
        assert k in s.chains ==> ChainOk(k, s.chains[k], s.counter);
      }
    } else if k :| k in rec.readSet && !ReadHolds(ChainOf(s, k), rec.readSet[k], rec.snapshot) {
      assert Overtaken(s, t, k);
    } else {
      var k :| k in rec.writeSet && k !in rec.readSet && !WriteHolds(ChainOf(s, k), rec.snapshot);
      assert Overtaken(s, t, k);
    }
  }
}
