/**
 * mvcc.go and transaction.go in the source's own form: the manager as
 * an object whose maps the methods update. Every method is tied to the step
 * of MvccModel it performs.
 */
module MvccManager {
  import opened Base
  import opened VersionChains
  import opened MvccModel

  /** A validation followed by publications of one transaction. */
  ghost predicate Publications(steps: seq<Step>, t: TxId) {
    && steps != [] && steps[0] == StartCommit(t)
    && forall i :: 0 < i < |steps| ==> steps[i].Publish? && steps[i].t == t
  }

  /** And a closing step. */
  ghost predicate IsCommit(steps: seq<Step>, t: TxId, closing: Step) {
    |steps| >= 2 && Publications(steps[..|steps| - 1], t) && steps[|steps| - 1] == closing
  }

  /** What the caller of a commit is told: the first of its phases that fails. */
  ghost function CommitResult(s: Sys, t: TxId, logFails: bool, unwritable: set<Id>, indexFails: bool): Obs
    requires t in s.txs
  {
    var tx := s.txs[t];
    if !tx.status.Active? then NotActive
    else if !Validates(s, tx) then Conflict
    else if logFails then LogFailed
    else if !(tx.writeSet.Keys !! unwritable) then PersistFailed
    else if indexFails then IndexFailed else Done
  }

  class Manager {
    var dimensions: nat
    var txIDCounter: TxId
    var lastCommittedTx: TxId
    var versionChains: map<Id, Chain>
    /** The transaction objects by ID, and the IDs of the registered ones. */
    var transactions: map<TxId, TxRec>
    var activeTxs: set<TxId>
    /** Holder of the commit lock. */
    var commitLock: Option<TxId>

    ghost predicate Valid()
      reads this
    {
      && (forall t :: t in activeTxs <==> IsRunning(Abs(), t))
      && (forall t :: t in transactions ==> t <= txIDCounter)
    }

    /** The state of the machine this object is in. */
    ghost function Abs(): Sys
      reads this
    {
      Sys(dimensions, txIDCounter, lastCommittedTx, versionChains, transactions, commitLock)
    }

    constructor (dimensions: nat)
      ensures Valid() && Abs() == Init(dimensions)
    {
      this.dimensions, txIDCounter, lastCommittedTx := dimensions, 0, 0;
      versionChains, transactions, activeTxs, commitLock := map[], map[], {}, None;
    }

    method BeginTx() returns (t: TxId)
      requires Valid()
      modifies this
      ensures Valid() && (Abs(), Began(t)) == Apply(old(Abs()), Begin)
    {
      txIDCounter := txIDCounter + 1;
      t := txIDCounter;
      transactions := transactions[t := TxRec(lastCommittedTx, Active, map[], map[])];
      activeTxs := activeTxs + {t};
    }

    method Get(t: TxId, id: Id) returns (obs: Obs)
      requires Valid() && t in transactions && !transactions[t].status.Committing?
      modifies this`transactions
      ensures Valid() && (Abs(), obs) == Apply(old(Abs()), MvccModel.Get(t, id))
    {
      var tx := transactions[t];
      if !tx.status.Active? {
        return NotActive;
      }
      if id in tx.writeSet {
        var version := tx.writeSet[id];
        if version.deletedByTx != 0 {
          return NotFound;
        }
        return Found(ValueOf(version));
      }
      var chain := if id in versionChains then versionChains[id] else [];
      var version := GetVisibleVersion(chain, tx.snapshot);
      if version == None {
        return NotFound;
      }
      transactions := transactions[t := tx.(readSet := tx.readSet[id := version.value.version])];
      return Found(ValueOf(version.value));
    }

    method Store(t: TxId, id: Id, vector: Vector, meta: Option<Meta>) returns (obs: Obs)
      requires Valid() && t in transactions && !transactions[t].status.Committing?
      modifies this`transactions
      ensures Valid() && (Abs(), obs) == Apply(old(Abs()), MvccModel.Store(t, id, vector, meta))
    {
      var tx := transactions[t];
      if !tx.status.Active? {
        return NotActive;
      }
      if |id| == 0 || |id| > MAX_ID_LENGTH {
        return InvalidId;
      }
      if dimensions != 0 && |vector| != dimensions {
        return InvalidDimensions;
      }
      transactions := transactions[t := tx.(writeSet := tx.writeSet[id := NewVersion(t, id, vector, meta)])];
      return Done;
    }

    method Remove(t: TxId, id: Id) returns (obs: Obs)
      requires Valid() && t in transactions && !transactions[t].status.Committing?
      modifies this`transactions
      ensures Valid() && (Abs(), obs) == Apply(old(Abs()), MvccModel.Remove(t, id))
    {
      var tx := transactions[t];
      if !tx.status.Active? {
        return NotActive;
      }
      if id in tx.writeSet {
        var marked := tx.writeSet[id].(deletedByTx := t);
        transactions := transactions[t := tx.(writeSet := tx.writeSet[id := marked])];
        return Done;
      }
      var chain := if id in versionChains then versionChains[id] else [];
      var current := GetVisibleVersion(chain, tx.snapshot);
      if current == None {
        return NotFound;
      }
      transactions := transactions[t := tx.(writeSet := tx.writeSet[id := DeleteMarker(t, id, current.value)])];
      return Done;
    }

    /** Two loops over the maps, in any order, that stop at the first conflict. */
    method ValidateTransaction(tx: TxRec) returns (ok: bool)
      ensures ok <==> Validates(Abs(), tx)
    {
      var keys := tx.readSet.Keys;
      while keys != {}
        invariant keys <= tx.readSet.Keys
        invariant forall id :: id in tx.readSet && id !in keys ==>
                    ReadHolds(ChainOf(Abs(), id), tx.readSet[id], tx.snapshot)
      {
        var id :| id in keys;
        if id in versionChains && versionChains[id] != [] && versionChains[id][0].version != tx.readSet[id] {
          if versionChains[id][0].createdByTx > tx.snapshot {
            assert !ReadHolds(ChainOf(Abs(), id), tx.readSet[id], tx.snapshot);
            return false;
          }
        }
        keys := keys - {id};
      }
      keys := tx.writeSet.Keys;
      while keys != {}
        invariant keys <= tx.writeSet.Keys
        invariant forall id :: id in tx.writeSet && id !in tx.readSet && id !in keys ==>
                    WriteHolds(ChainOf(Abs(), id), tx.snapshot)
      {
        var id :| id in keys;
        if id !in tx.readSet && id in versionChains && versionChains[id] != [] {
          if versionChains[id][0].createdByTx > tx.snapshot {
            assert !WriteHolds(ChainOf(Abs(), id), tx.snapshot);
            return false;
          }
        }
        keys := keys - {id};
      }
      return true;
    }

    method AddVersion(id: Id, version: Version)
      requires Valid()
      modifies this`versionChains
      ensures Valid() && Abs() == Added(old(Abs()), id, version)
    {
      versionChains := versionChains[id := [version] + (if id in versionChains then versionChains[id] else [])];
    }

    /** AbortTx, the clearing of both sets, and the deferred release of a held commit lock. */
    method Abort(t: TxId)
      requires Valid() && t in transactions
      modifies this`transactions, this`activeTxs, this`commitLock
      ensures Valid() && Abs() == Aborting(old(Abs()), t)
    {
      transactions := transactions[t := TxRec(transactions[t].snapshot, Aborted, map[], map[])];
      activeTxs := activeTxs - {t};
      commitLock := if commitLock == Some(t) then None else commitLock;
    }

    method Rollback(t: TxId) returns (obs: Obs)
      requires Valid() && t in transactions && !transactions[t].status.Committing?
      modifies this`transactions, this`activeTxs, this`commitLock
      ensures Valid() && (Abs(), obs) == Apply(old(Abs()), MvccModel.Rollback(t))
    {
      if !transactions[t].status.Active? {
        return NotActive;
      }
      Abort(t);
      return Done;
    }

    /** One critical section of makeVisibleMVCC, and the rollback if its page write fails. */
    method PublishOne(t: TxId, id: Id, writable: bool) returns (ghost step: Step)
      requires Valid() && MayPublish(Abs(), t, id)
      modifies this`versionChains, this`transactions, this`activeTxs, this`commitLock
      ensures Valid() && t in transactions && Abs() == Apply(old(Abs()), step).0
      ensures step == if writable then Publish(t, id) else PublishFails(t, id)
      ensures writable ==> commitLock == Some(t) && transactions[t].writeSet == old(transactions)[t].writeSet
      ensures writable ==> transactions[t].status == Committing(old(transactions)[t].status.remaining - {id})
      ensures !writable ==> commitLock == None && transactions[t].status == Aborted
    {
      var tx := transactions[t];
      AddVersion(id, tx.writeSet[id]);
      transactions := transactions[t := tx.(status := Committing(tx.status.remaining - {id}))];
      step := Publish(t, id);
      if !writable {
        Abort(t);
        step := PublishFails(t, id);
      }
    }

    /**
     * The loop of makeVisibleMVCC: in any order, until a page write fails. The
     * steps taken are returned and are what happened to the abstract state.
     */
    method MakeVisible(t: TxId, unwritable: set<Id>) returns (ok: bool, ghost steps: seq<Step>)
      requires Valid() && commitLock == Some(t) && t in transactions
      requires transactions[t].status == Committing(transactions[t].writeSet.Keys)
      modifies this`versionChains, this`transactions, this`activeTxs, this`commitLock
      ensures Valid() && Abs() == ApplyAll(old(Abs()), steps)
      ensures ok <==> old(transactions)[t].writeSet.Keys !! unwritable
      ensures forall i :: 0 <= i < |steps| - (if ok then 0 else 1) ==> steps[i].Publish? && steps[i].t == t
      ensures ok ==> |steps| == |old(transactions)[t].writeSet.Keys| && MayFinish(Abs(), t)
      ensures !ok ==> steps != [] && steps[|steps| - 1].PublishFails? && steps[|steps| - 1].t == t && commitLock == None
      ensures !ok ==> t in transactions && transactions[t].status == Aborted
    {
      steps := [];
      var writes := transactions[t].writeSet;
      var keys := writes.Keys;
      while keys != {}
        invariant keys <= writes.Keys && (writes.Keys - keys) !! unwritable
        invariant Valid() && commitLock == Some(t) && t in transactions
        invariant transactions[t].status == Committing(keys) && transactions[t].writeSet == writes
        invariant |steps| == |writes.Keys| - |keys|
        invariant forall i :: 0 <= i < |steps| ==> steps[i].Publish? && steps[i].t == t
        invariant Abs() == ApplyAll(old(Abs()), steps)
      {
        var id :| id in keys;
        ghost var step := PublishOne(t, id, id !in unwritable);
        ApplySnoc(old(Abs()), steps, step);
        steps := steps + [step];
        if id in unwritable {
          return false, steps;
        }
        keys := keys - {id};
      }
      return true, steps;
    }

    method CommitTx(t: TxId)
      requires Valid() && t in transactions
      modifies this`transactions, this`lastCommittedTx, this`activeTxs
      ensures Valid()
      ensures Abs() == old(Abs()).(last := Max(old(lastCommittedTx), t),
                                   txs := old(transactions)[t := old(transactions)[t].(status := Committed)])
    {
      transactions := transactions[t := transactions[t].(status := Committed)];
      if t > lastCommittedTx {
        lastCommittedTx := t;
      }
      activeTxs := activeTxs - {t};
    }

    /**
     * commitMVCC on one thread. Whether the log can be written, the keys whose
     * page write fails and whether the index can be updated are given; the
     * steps taken are returned and are what happened to the abstract state.
     */
    method Commit(t: TxId, logFails: bool, unwritable: set<Id>, indexFails: bool)
      returns (obs: Obs, ghost steps: seq<Step>)
      requires Valid() && commitLock == None && t in transactions && !transactions[t].status.Committing?
      modifies this`versionChains, this`transactions, this`lastCommittedTx, this`activeTxs, this`commitLock
      ensures Valid() && commitLock == None && t in transactions
      ensures Abs() == ApplyAll(old(Abs()), steps)
      ensures obs == CommitResult(old(Abs()), t, logFails, unwritable, indexFails)
      ensures obs in {Conflict, LogFailed} ==> transactions[t].status == Aborted && versionChains == old(versionChains)
      ensures obs == PersistFailed ==>
                transactions[t].status == Aborted && |steps| > 1 && steps[|steps| - 1].PublishFails?
      ensures obs == IndexFailed ==> IsCommit(steps, t, IndexFails(t)) && transactions[t].status == Active
      ensures obs == Done ==> IsCommit(steps, t, FinishCommit(t)) && transactions[t].status == Committed
      ensures obs in {IndexFailed, Done} ==> |steps| == |old(transactions)[t].writeSet.Keys| + 2
    {
      obs, steps := PublishAll(t, logFails, unwritable);
      if obs != Done {
        return;
      }
      ghost var published := steps;
      if indexFails {
        Reopen(t);
        obs, steps := IndexFailed, steps + [IndexFails(t)];
      } else {
        Finish(t);
        steps := steps + [FinishCommit(t)];
      }
      ApplySnoc(old(Abs()), published, steps[|steps| - 1]);
    }

    /** Phases 1 to 3: validation, the log, and publication; on success the commit lock is still held. */
    method PublishAll(t: TxId, logFails: bool, unwritable: set<Id>) returns (obs: Obs, ghost steps: seq<Step>)
      requires Valid() && commitLock == None && t in transactions && !transactions[t].status.Committing?
      modifies this`versionChains, this`transactions, this`activeTxs, this`commitLock
      ensures Valid() && t in transactions && Abs() == ApplyAll(old(Abs()), steps)
      ensures obs == CommitResult(old(Abs()), t, logFails, unwritable, false)
      ensures obs == NotActive ==> Abs() == old(Abs())
      ensures obs in {Conflict, LogFailed} ==> Abs() == Aborting(old(Abs()), t)
      ensures obs == PersistFailed ==>
                |steps| > 1 && steps[|steps| - 1].PublishFails? && transactions[t].status == Aborted
      ensures obs == Done ==> MayFinish(Abs(), t) && Publications(steps, t)
      ensures obs == Done ==> |steps| == |old(transactions)[t].writeSet.Keys| + 1
      ensures obs != Done ==> commitLock == None
    {
      ghost var s := Abs();
      ghost var first;
      obs, first := Validate(t, logFails);
      steps := [first];
      ApplySnoc(s, [], first);
      assert [] + steps == steps;
      if obs != Validated {
        return;
      }
      ghost var rest;
      var ok;
      ok, rest := MakeVisible(t, unwritable);
      ApplyCat(s, steps, rest);
      steps := steps + rest;
      obs := if ok then Done else PersistFailed;
    }

    /** Phases 1 and 2, under the commit lock from here on. */
    method Validate(t: TxId, logFails: bool) returns (obs: Obs, ghost step: Step)
      requires Valid() && commitLock == None && t in transactions && !transactions[t].status.Committing?
      modifies this`transactions, this`activeTxs, this`commitLock
      ensures Valid() && t in transactions && step == if logFails then LogFails(t) else StartCommit(t)
      ensures (Abs(), obs) == Apply(old(Abs()), step)
      ensures obs == Validated ==> commitLock == Some(t)
      ensures obs == Validated ==>
                transactions[t] == old(transactions)[t].(status := Committing(old(transactions)[t].writeSet.Keys))
      ensures obs != Validated ==> commitLock == None
      ensures old(transactions)[t].status.Active? && obs != Validated ==> Abs() == Aborting(old(Abs()), t)
    {
      step := if logFails then LogFails(t) else StartCommit(t);
      var tx := transactions[t];
      if !tx.status.Active? {
        return NotActive, step;
      }
      var ok := ValidateTransaction(tx);
      if !ok || logFails {
        Abort(t);
        return if ok then LogFailed else Conflict, step;
      }
      transactions := transactions[t := tx.(status := Committing(tx.writeSet.Keys))];
      commitLock := Some(t);
      obs := Validated;
    }

    /** CommitTx, and the release of the commit lock. */
    method Finish(t: TxId)
      requires Valid() && MayFinish(Abs(), t)
      modifies this`transactions, this`lastCommittedTx, this`activeTxs, this`commitLock
      ensures Valid() && Abs() == Finished(old(Abs()), t)
    {
      CommitTx(t);
      commitLock := None;
    }

    /** An error of the index update is returned as it is: the transaction is neither committed nor rolled back. */
    method Reopen(t: TxId)
      requires Valid() && MayFinish(Abs(), t)
      modifies this`transactions, this`commitLock
      ensures Valid() && Abs() == Reopened(old(Abs()), t)
    {
      transactions := transactions[t := transactions[t].(status := Active)];
      commitLock := None;
    }

    /** The transaction part of Nest.Store. */
    method NestStore(id: Id, vector: Vector, meta: Option<Meta>) returns (obs: Obs)
      requires Valid()
      modifies this
      ensures Valid() && (Abs(), obs) == Apply(old(Abs()), MvccModel.NestStore(id, vector, meta))
    {
      if |id| == 0 || |id| > MAX_ID_LENGTH {
        return InvalidId;
      }
      if dimensions != 0 && |vector| != dimensions {
        return InvalidDimensions;
      }
      if dimensions == 0 {
        dimensions := |vector|;
      }
      var t := BeginTx();
      AddVersion(id, NewVersion(t, id, vector, meta));
      CommitTx(t);
      assert transactions == old(transactions)[t := TxRec(old(lastCommittedTx), Committed, map[], map[])];
      return Stored(t);
    }

    method GetMinActiveSnapshot() returns (minSnapshot: TxId)
      requires Valid()
      ensures minSnapshot == Floor(Abs())
    {
      minSnapshot := lastCommittedTx;
      var ids := activeTxs;
      while ids != {}
        invariant ids <= activeTxs
        invariant minSnapshot <= lastCommittedTx
        invariant forall t :: t in activeTxs && t !in ids ==> minSnapshot <= transactions[t].snapshot
        invariant minSnapshot == lastCommittedTx
                  || exists t :: IsRunning(Abs(), t) && minSnapshot == transactions[t].snapshot
      {
        var t :| t in ids;
        if transactions[t].snapshot < minSnapshot {
          minSnapshot := transactions[t].snapshot;
        }
        ids := ids - {t};
      }
      FloorIsUnique(Abs(), minSnapshot);
    }

    method CollectChains(minSnapshot: TxId)
      modifies this`versionChains
      ensures versionChains == map k | k in old(versionChains) && Cut(old(versionChains)[k], minSnapshot) != []
                                   :: Cut(old(versionChains)[k], minSnapshot)
    {
      var ids := versionChains.Keys;
      ghost var before := versionChains;
      while ids != {}
        invariant ids <= before.Keys && ids <= versionChains.Keys <= before.Keys
        invariant forall id :: id in ids ==> versionChains[id] == before[id]
        invariant forall id :: id in before && id !in ids ==>
                    (id in versionChains <==> Cut(before[id], minSnapshot) != [])
        invariant forall id :: id in versionChains && id !in ids ==> versionChains[id] == Cut(before[id], minSnapshot)
      {
        var id :| id in ids;
        var newChain := GcVersionChain(versionChains[id], minSnapshot);
        if newChain == [] {
          versionChains := versionChains - {id};
        } else {
          versionChains := versionChains[id := newChain];
        }
        ids := ids - {id};
      }
    }

    method GarbageCollect()
      requires Valid()
      modifies this`versionChains
      ensures Valid() && (Abs(), Done) == Apply(old(Abs()), CollectGarbage)
      ensures AllTrimmed(old(versionChains), versionChains, Floor(old(Abs())))
    {
      ghost var s := Abs();
      var minSnapshot := GetMinActiveSnapshot();
      CollectChains(minSnapshot);
      assert versionChains == Collected(s).chains;
      CollectedTrimmed(s);
    }
  }
}
