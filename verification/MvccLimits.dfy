/**
 * Where the transaction code falls short of serializability, and the
 * condition of the main theorems that each shortfall is the reason for.
 */
module MvccLimits {
  import opened Base
  import opened VersionChains
  import opened MvccModel
  import opened MvccInvariants
  import opened MvccVisibility
  import opened MvccSerializability
  import opened MvccOverlap

  /**
   * As long as nothing is collected, a committed Remove hides nothing: a
   * snapshot that should see the deletion still finds the old version behind
   * the marker, and a snapshot that should still see the old version finds the
   * marker, which has no vector.
   */
  lemma DeleteMarkerHidesNothing(c: Chain, id: Id, t: TxId, snapshot: TxId, x: TxId)
    requires StoreOnly(c) && snapshot < t && VisibleIn(c, snapshot).Some?
    ensures var hidden := VisibleIn(c, snapshot).value;
            var marked := [DeleteMarker(t, id, hidden)] + c;
            && (t <= x ==> VisibleIn(marked, x) == VisibleIn(c, x))
            && (hidden.createdByTx <= x < t ==> VisibleIn(marked, x).Some?
                                                && VisibleIn(marked, x).value.vector == None)
  {
    var marked := [DeleteMarker(t, id, VisibleIn(c, snapshot).value)] + c;
    assert marked[1..] == c;
  }

  /** Remove finds nothing exactly if neither the transaction nor its snapshot has the ID; then it is gone for t. */
  lemma RemoveFinds(s: Sys, t: TxId, id: Id)
    requires IsActive(s, t) && t > 0
    ensures var (now, obs) := Apply(s, Remove(t, id));
            if id !in s.txs[t].writeSet && VisibleIn(ChainOf(s, id), s.txs[t].snapshot) == None
            then obs == NotFound && now == s
            else obs == Done && Apply(now, Get(t, id)) == (now, NotFound)
  {
  }

  /**
   * What a Remove of a committed version leaves once it is published: a marker
   * without a vector on top of the chain, with the creator of the version that
   * was visible. Snapshots from the removal on read what they read before.
   */
  lemma RemoveLands(s: Sys, t: TxId, id: Id)
    requires IsActive(s, t) && t > 0 && id !in s.txs[t].writeSet
    requires VisibleIn(ChainOf(s, id), s.txs[t].snapshot).Some?
    ensures var hidden := VisibleIn(ChainOf(s, id), s.txs[t].snapshot).value;
            var (started, obs) := Apply(Apply(s, Remove(t, id)).0, StartCommit(t));
            obs == Validated ==>
              var c := ChainOf(Apply(started, Publish(t, id)).0, id);
              && c == [Version(id, None, None, t, hidden.createdByTx, t)] + ChainOf(s, id)
              && forall x :: t <= x ==> VisibleIn(c, x) == VisibleIn(ChainOf(s, id), x)
  {
    var started := Apply(Apply(s, Remove(t, id)).0, StartCommit(t)).0;
    var c := ChainOf(Apply(started, Publish(t, id)).0, id);
    if Apply(Apply(s, Remove(t, id)).0, StartCommit(t)).1 == Validated {
      assert c[1..] == ChainOf(s, id);
    }
  }

  /**
   * The marker carries the number of the version it hides, so a collection
   * whose floor has reached that version stops at the marker and drops the
   * version. From then on, and only then, the Remove takes effect.
   */
  lemma CollectedMarkerHidesIff(c: Chain, id: Id, t: TxId, snapshot: TxId, floor: TxId, x: TxId)
    requires StoreOnly(c) && snapshot < t <= x && floor <= x && VisibleIn(c, snapshot).Some?
    ensures var hidden := VisibleIn(c, snapshot).value;
            var collected := Cut([DeleteMarker(t, id, hidden)] + c, floor);
            && (VisibleIn(collected, x) == None <==> hidden.createdByTx <= floor)
            && (floor < hidden.createdByTx ==> VisibleIn(collected, x) == VisibleIn(c, x))
  {
    var hidden := VisibleIn(c, snapshot).value;
    var marked := [DeleteMarker(t, id, hidden)] + c;
    assert marked[1..] == c;
    StaysVisible(c, snapshot, x);
    if hidden.createdByTx <= floor {
      assert Cut(marked, floor)[1..] == [];
    } else {
      CutKeepsVisible(c, floor, x);
      assert Cut(marked, floor)[1..] == Cut(c, floor);
    }
  }

  /** What a snapshot finds, every later one finds or something in front of it. */
  lemma {:induction false} StaysVisible(c: Chain, snapshot: TxId, x: TxId)
    requires StoreOnly(c) && snapshot <= x && VisibleIn(c, snapshot).Some?
    ensures VisibleIn(c, x).Some?
  {
    if !Visible(c[0], snapshot) && !Visible(c[0], x) { StaysVisible(c[1..], snapshot, x); }
  }

  /**
   * In the machine: after a collection a running snapshot from t on finds
   * nothing exactly if the floor was that high.
   */
  lemma RemoveTakesEffectIff(s: Sys, c: Chain, id: Id, t: TxId, snapshot: TxId, u: TxId)
    requires StoreOnly(c) && snapshot < t && VisibleIn(c, snapshot).Some? && id in s.chains
    requires s.chains[id] == [DeleteMarker(t, id, VisibleIn(c, snapshot).value)] + c
    requires IsRunning(s, u) && t <= s.txs[u].snapshot
    ensures VisibleIn(ChainOf(Collected(s), id), s.txs[u].snapshot) == None <==>
            VisibleIn(c, snapshot).value.createdByTx <= Floor(s)
  {
    CollectedMarkerHidesIff(c, id, t, snapshot, Floor(s), s.txs[u].snapshot);
  }

  /** Nest.Store takes no commit lock: on a key still to be published it puts the chain out of order. */
  lemma NestStoreMidCommitBreaksOrder(s: Sys, id: Id, vector: Vector, meta: Option<Meta>)
    requires Inv(s) && id in Pending(s) && ApplyNestStore(s, id, vector, meta).1.Stored?
    ensures var s' := ApplyNestStore(s, id, vector, meta).0;
            && MayPublish(s', s.lock.value, id)
            && !Descending(Published(s', s.lock.value, id).chains[id])
  {
    var t := s.lock.value;
    assert TxOk(s, t) && PendingOk(s, t);
    var s' := ApplyNestStore(s, id, vector, meta).0;
    var c := Published(s', t, id).chains[id];
    assert c[0].createdByTx == t && c[1].createdByTx == s.counter + 1;
  }

  /**
   * A publication that fails half way aborts the transaction but leaves the
   * version in its chain, where a transaction begun after any later store finds it.
   */
  lemma FailedPublishStaysVisible(s: Sys, t: TxId, id: Id, other: Id, vector: Vector, meta: Option<Meta>)
    requires Inv(s) && MayPublish(s, t, id) && other != id
    requires ApplyNestStore(s, other, vector, meta).1.Stored?
    ensures var s1 := Apply(s, PublishFails(t, id)).0;
            var s2 := Apply(s1, NestStore(other, vector, meta)).0;
            var s3 := Apply(s2, Begin).0;
            && s3.txs[t].status == Aborted
            && IsActive(s3, s3.counter)
            && ApplyGet(s3, s3.counter, id).1 == Found(ValueOf(s.txs[t].writeSet[id]))
  {
    assert TxOk(s, t);
  }

  /**
   * Right after the failure, a running transaction without an own write of
   * the key reads the aborted version exactly if its snapshot has reached the
   * ID. Whoever reads it or not, the chain has grown: no failing publication
   * leaves the chains as they were.
   */
  lemma FailedPublishSeenIff(s: Sys, t: TxId, id: Id, reader: TxId)
    requires Inv(s) && MayPublish(s, t, id) && IsActive(s, reader) && id !in s.txs[reader].writeSet
    ensures var s' := Apply(s, PublishFails(t, id)).0;
            var v := s.txs[t].writeSet[id];
            && s'.txs[t].status == Aborted && IsActive(s', reader)
            && ChainOf(s', id) == [v] + ChainOf(s, id)
            && (VisibleIn(ChainOf(s', id), s'.txs[reader].snapshot) == Some(v) <==> t <= s.txs[reader].snapshot)
            && (t <= s.txs[reader].snapshot ==> ApplyGet(s', reader, id).1 == Found(ValueOf(v)))
  {
    assert TxOk(s, t) && TxOk(s, reader);
    var v := s.txs[t].writeSet[id];
    var c := [v] + ChainOf(s, id);
    assert c[1..] == ChainOf(s, id);
    VisibleAt(c[1..], s.txs[reader].snapshot);
    assert WriteHolds(ChainOf(s, id), s.txs[t].snapshot);
    assert id in s.chains ==> ChainOk(id, s.chains[id], s.counter);
  }

  /** A Get that finds nothing is not recorded, so a later store of its key is no conflict. */
  lemma MissIsNotValidated(s: Sys, t: TxId, id: Id, vector: Vector, meta: Option<Meta>)
    requires Inv(s) && IsActive(s, t) && ApplyGet(s, t, id).1 == NotFound
    requires id !in s.txs[t].readSet && id !in s.txs[t].writeSet
    ensures var s1 := Apply(s, Get(t, id)).0;
            var s2 := Apply(s1, NestStore(id, vector, meta)).0;
            && t in s2.txs && s2.txs[t] == s.txs[t]
            && (Validates(s2, s2.txs[t]) <==> Validates(s, s.txs[t]))
  {
    assert TxOk(s, t);
    var s2 := Apply(s, NestStore(id, vector, meta)).0;
    assert forall k :: k != id ==> ChainOf(s2, k) == ChainOf(s, k);
  }

  lemma RunSnoc(d: nat, run: seq<Step>, step: Step)
    ensures Run(d, run + [step]) == Next(Run(d, run), step)
    ensures CleanRun(d, run + [step]) <==> CleanRun(d, run) && Clean(Run(d, run).sys, step)
    ensures OrderedRun(d, run + [step]) <==> OrderedRun(d, run) && Ordered(Apply(Run(d, run).sys, step).0)
  {
    assert (run + [step])[..|run|] == run;
  }

  /** A clean and ordered run has reached s, where transaction t has these operations on record. */
  ghost predicate At(run: seq<Step>, s: Sys, t: TxId, ops: seq<Op>) {
    CleanRun(0, run) && OrderedRun(0, run) && Run(0, run).sys == s && OpsOf(Run(0, run).trace, t) == ops
  }

  lemma Extend(run: seq<Step>, s: Sys, t: TxId, ops: seq<Op>, step: Step)
    requires At(run, s, t, ops) && Clean(s, step) && Ordered(Apply(s, step).0)
    ensures At(run + [step], Apply(s, step).0, t, ops + OpOf(Event(step, Apply(s, step).1), t))
  {
    RunSnoc(0, run, step);
    OpsStep(Run(0, run), step, t);
  }

  /** The head of the chain is newer than x, and versions carry the number of their creator. */
  predicate NewerThan(c: Chain, x: TxId) {
    c != [] && x < c[0].createdByTx && forall i :: 0 <= i < |c| ==> c[i].version == c[i].createdByTx
  }

  /** As far as k goes, the record is an ordinary one; that of t, whose snapshot is x, is open or aborted. */
  predicate RecordFor(u: TxId, rec: TxRec, t: TxId, k: Id, x: TxId) {
    && rec.snapshot < u
    && (k in rec.readSet ==> rec.readSet[k] <= rec.snapshot)
    && (k in rec.writeSet ==> rec.writeSet[k].version == rec.writeSet[k].createdByTx == u)
    && (rec.status.Committing? && k in rec.status.remaining ==> x < u)
    && (u == t ==> rec.snapshot == x && rec.status in {Active, Aborted} && (rec.status.Active? ==> k in rec.writeSet))
  }

  /** t is open or aborted; it wrote k, and whatever is or will be at the head of k is newer than its snapshot x. */
  predicate Stuck(s: Sys, t: TxId, k: Id, x: TxId) {
    && s.last <= s.counter && x < s.counter && t in s.txs && NewerThan(ChainOf(s, k), x)
    && forall u :: u in s.txs ==> u <= s.counter && RecordFor(u, s.txs[u], t, k, x)
  }

  lemma ValidatedIsLater(s: Sys, t: TxId, k: Id, x: TxId, u: TxId)
    requires Stuck(s, t, k, x) && u in s.txs && k in s.txs[u].writeSet && Validates(s, s.txs[u])
    ensures x < u && u != t
  {
    assert RecordFor(u, s.txs[u], t, k, x);
    assert k in s.txs[u].readSet ==> ReadHolds(ChainOf(s, k), s.txs[u].readSet[k], s.txs[u].snapshot);
    assert k !in s.txs[u].readSet ==> WriteHolds(ChainOf(s, k), s.txs[u].snapshot);
  }

  /** One record has changed, and perhaps the chain of k. */
  lemma StuckOneTx(s: Sys, s': Sys, t: TxId, k: Id, x: TxId, u: TxId)
    requires Stuck(s, t, k, x) && NewerThan(ChainOf(s', k), x)
    requires s'.last <= s'.counter && s.counter <= s'.counter && s'.txs.Keys == s.txs.Keys + {u}
    requires forall v :: v in s.txs && v != u ==> s'.txs[v] == s.txs[v]
    requires u <= s'.counter && RecordFor(u, s'.txs[u], t, k, x)
    ensures Stuck(s', t, k, x)
  {
  }

  lemma LocalRecord(s: Sys, t: TxId, k: Id, x: TxId, step: Step)
    requires Stuck(s, t, k, x) && !(step.Remove? && step.id == k)
    requires step.Get? || step.Store? || step.Remove? || step.StartCommit? || step.LogFails? || step.Rollback?
    requires IsActive(s, step.t)
    ensures RecordFor(step.t, Apply(s, step).0.txs[step.t], t, k, x)
  {
    var u := step.t;
    assert RecordFor(u, s.txs[u], t, k, x);
    if step.StartCommit? {
      if k in s.txs[u].writeSet && Validates(s, s.txs[u]) { ValidatedIsLater(s, t, k, x, u); }
    } else if step.Get? {
      if step.id == k { VisibleAt(ChainOf(s, k), s.txs[u].snapshot); }
    }
  }

  /** The steps of one transaction before and after its publications. */
  lemma StuckLocal(s: Sys, t: TxId, k: Id, x: TxId, step: Step)
    requires Stuck(s, t, k, x) && !(step.Remove? && step.id == k)
    requires step.Get? || step.Store? || step.Remove? || step.StartCommit? || step.LogFails? || step.Rollback?
    ensures Stuck(Apply(s, step).0, t, k, x)
  {
    if IsActive(s, step.t) {
      var u, s' := step.t, Apply(s, step).0;
      assert RecordFor(u, s.txs[u], t, k, x);
      LocalRecord(s, t, k, x, step);
      StuckOneTx(s, s', t, k, x, u);
    }
  }

  lemma StuckPublish(s: Sys, t: TxId, k: Id, x: TxId, u: TxId, id: Id)
    requires Stuck(s, t, k, x) && MayPublish(s, u, id)
    ensures Stuck(Published(s, u, id), t, k, x) && Stuck(Aborting(Published(s, u, id), u), t, k, x)
  {
    assert RecordFor(u, s.txs[u], t, k, x);
    var s' := Published(s, u, id);
    assert id != k ==> ChainOf(s', k) == ChainOf(s, k);
    StuckOneTx(s, s', t, k, x, u);
    StuckOneTx(s', Aborting(s', u), t, k, x, u);
  }

  lemma StuckStep(s: Sys, t: TxId, k: Id, x: TxId, step: Step)
    requires Stuck(s, t, k, x) && !(step.Remove? && step.id == k)
    ensures Stuck(Apply(s, step).0, t, k, x)
  {
    var s' := Apply(s, step).0;
    match step
    case Begin => StuckOneTx(s, s', t, k, x, s.counter + 1);
    case Publish(u, id) => if MayPublish(s, u, id) { StuckPublish(s, t, k, x, u, id); }
    case PublishFails(u, id) => if MayPublish(s, u, id) { StuckPublish(s, t, k, x, u, id); }
    case FinishCommit(u) => if MayFinish(s, u) { StuckOneTx(s, s', t, k, x, u); }
    case IndexFails(u) => if MayFinish(s, u) { StuckOneTx(s, s', t, k, x, u); }
    case CollectGarbage => CutIsPrefix(ChainOf(s, k), Floor(s));
    case NestStore(id, _, _) =>
      if Apply(s, step).1.Stored? {
        assert id != k ==> ChainOf(s', k) == ChainOf(s, k);
        StuckOneTx(s, s', t, k, x, s.counter + 1);
      }
    case _ => StuckLocal(s, t, k, x, step);
  }

  lemma StuckStart(s: Sys, t: TxId, k: Id)
    requires Inv(s) && ReadsOk(s) && History(s) && MayFinish(s, t) && k in s.txs[t].writeSet
    ensures Stuck(Apply(s, IndexFails(t)).0, t, k, s.txs[t].snapshot)
  {
    assert TxOk(s, t) && Landed(s, t, k) && LandedOk(s, t, k);
    assert ChainOk(k, s.chains[k], s.counter);
    var s' := Apply(s, IndexFails(t)).0;
    forall u | u in s'.txs ensures u <= s'.counter && RecordFor(u, s'.txs[u], t, k, s.txs[t].snapshot) {
      assert TxOk(s, u);
    }
  }

  /**
   * And so it stays, whatever the other transactions, collections and stores
   * do, as long as nobody removes the key: the transaction can never commit.
   */
  lemma {:induction false} NeverCommits(d: nat, run: seq<Step>, t: TxId, k: Id, steps: seq<Step>)
    requires CleanRun(d, run) && MayFinish(Run(d, run).sys, t) && k in Run(d, run).sys.txs[t].writeSet
    requires forall i :: 0 <= i < |steps| ==> !(steps[i].Remove? && steps[i].id == k)
    ensures var s := ApplyAll(Apply(Run(d, run).sys, IndexFails(t)).0, steps);
            Stuck(s, t, k, Run(d, run).sys.txs[t].snapshot) && s.txs[t].status in {Active, Aborted}
  {
    if steps == [] {
      RunInv(d, run);
      RunHistory(d, run);
      StuckStart(Run(d, run).sys, t, k);
    } else {
      NeverCommits(d, run, t, k, steps[..|steps| - 1]);
      StuckStep(ApplyAll(Apply(Run(d, run).sys, IndexFails(t)).0, steps[..|steps| - 1]), t, k,
                Run(d, run).sys.txs[t].snapshot, steps[|steps| - 1]);
    }
  }

  /**
   * After a failing index update everything is published but not committed:
   * the transaction is still open, a snapshot reads its versions or newer
   * ones from its ID on, and as soon as it has written anything, committing
   * again is refused because it conflicts with itself.
   */
  lemma FailedIndexCannotRetry(s: Sys, t: TxId, k: Id)
    requires Inv(s) && History(s) && MayFinish(s, t) && k in s.txs[t].writeSet
    requires k in s.txs[t].readSet ==> s.txs[t].readSet[k] <= s.txs[t].snapshot
    ensures var s' := Apply(s, IndexFails(t)).0;
            && IsActive(s', t) && s'.last == s.last && s'.chains == s.chains && s'.lock == None
            && ChainOf(s', k) != [] && t <= ChainOf(s', k)[0].createdByTx
            && Apply(s', StartCommit(t)).1 == Conflict
            && Apply(s', StartCommit(t)).0.txs[t].status == Aborted
            && Apply(s', StartCommit(t)).0.chains == s.chains
  {
    assert TxOk(s, t) && Landed(s, t, k) && LandedOk(s, t, k);
    assert ChainOk(k, s.chains[k], s.counter);
    var s' := Apply(s, IndexFails(t)).0;
    assert !Validates(s', s'.txs[t]);
  }

  /**
   * When a transaction of a clean run is validated, a miss it has on record
   * repeats in the serial run exactly if the key still has no chain.
   */
  lemma MissRepeatsIff(d: nat, run: seq<Step>, t: TxId, i: nat)
    requires CleanRun(d, run) && IsActive(Run(d, run).sys, t) && ApplyStartCommit(Run(d, run).sys, t).1 == Validated
    requires i < |OpsOf(Run(d, run).trace, t)| && OpsOf(Run(d, run).trace, t)[i].DidMiss?
    ensures var w := Run(d, run);
            var ops := OpsOf(w.trace, t);
            ops[i].id !in Stores(Replay(w.trace), ops[..i]) <==> ChainOf(w.sys, ops[i].id) == []
  {
    RunHeads(d, run);
    RunInv(d, run);
    StoresOverlay(Replay(Run(d, run).trace), OpsOf(Run(d, run).trace, t)[..i]);
  }

  /** Transaction 1 looks for X before it is stored, and commits after. */
  function Misses(): seq<Step> { [Begin] + [Get(1, X)] + [NestStore(X, [1], None)] }

  lemma AtMisses() returns (s: Sys)
    ensures At(Misses(), s, 1, [DidMiss(X)]) && s.lock == None && IsActive(s, 1)
    ensures Apply(s, StartCommit(1)).1 == Validated && Ordered(Apply(s, StartCommit(1)).0) && ChainOf(s, X) != []
  {
    AtLooked();
    var s1: Sys;
    s1, s := MissStates();
    Extend([Begin] + [Get(1, X)], s1, 1, [DidMiss(X)], NestStore(X, [1], None));
  }

  lemma AtLooked()
    ensures At([Begin] + [Get(1, X)], Apply(Init(0), Begin).0, 1, [DidMiss(X)])
  {
    var s1, s := MissStates();
    Extend([], Init(0), 1, [], Begin);
    assert [] + [Begin] == [Begin];
    Extend([Begin], s1, 1, [], Get(1, X));
  }

  lemma MissStates() returns (s1: Sys, s: Sys)
    ensures s1 == Apply(Init(0), Begin).0 && s == Apply(s1, NestStore(X, [1], None)).0
    ensures s1.lock == None && Apply(s1, Get(1, X)) == (s1, NotFound)
    ensures s.lock == None && IsActive(s, 1) && ChainOf(s, X) != []
    ensures Apply(s, StartCommit(1)).1 == Validated && Ordered(Apply(s, StartCommit(1)).0)
  {
    s1 := Apply(Init(0), Begin).0;
    s := Apply(s1, NestStore(X, [1], None)).0;
    assert s.txs[1] == TxRec(0, Active, map[], map[]);
  }

  /**
   * A clean and ordered run, serializable as far as its successful Gets go, whose miss the serial
   * run does not repeat.
   */
  lemma OrderedRunMisses()
    ensures exists run :: CleanRun(0, run) && OrderedRun(0, run)
                          && Serializable(Run(0, run).trace) && !MissesRepeat(Run(0, run).trace)
  {
    var s := AtMisses();
    MissThenCommit(Misses(), s);
  }

  lemma MissThenCommit(run: seq<Step>, s: Sys)
    requires At(run, s, 1, [DidMiss(X)]) && ChainOf(s, X) != [] && IsActive(s, 1)
    requires Apply(s, StartCommit(1)).1 == Validated && Ordered(Apply(s, StartCommit(1)).0)
    ensures exists r :: CleanRun(0, r) && OrderedRun(0, r)
                        && Serializable(Run(0, r).trace) && !MissesRepeat(Run(0, r).trace)
  {
    var ops := OpsOf(Run(0, run).trace, 1);
    assert ops[0] == DidMiss(X);
    var r, n := run + [StartCommit(1)], |run|;
    RunSnoc(0, run, StartCommit(1));
    assert r[..n] == run;
    assert !MissesCurrentAt(0, r, n);
    MissesRepeatIff(0, r);
    OrderedRunSerial(0, r);
  }

  const X: Id := [120]
  const Y: Id := [121]
  const Z: Id := [122]

  function Stored1(k: Id, t: TxId): Chain {
    [NewVersion(t, k, [t % 2], None)]
  }

  /**
   * X is stored, transaction 2 begins, Y is stored under ID 3, transaction 4
   * begins with snapshot 3 and reads X, and transaction 2 writes X and Z.
   */
  function Stores1(): seq<Step> { [NestStore(X, [1], None)] }
  function Stores2(): seq<Step> { Stores1() + [Begin] + [NestStore(Y, [1], None)] }
  function Reads(): seq<Step> { Stores2() + [Begin] + [Get(4, X)] }
  function Writes(): seq<Step> { Reads() + [Store(2, X, [2], None)] }

  function StateStores1(): Sys {
    Sys(1, 1, 1, map[X := Stored1(X, 1)], map[1 := TxRec(0, Committed, map[], map[])], None)
  }

  function StateStores2(): Sys {
    Sys(1, 3, 3, map[X := Stored1(X, 1), Y := Stored1(Y, 3)],
        map[1 := TxRec(0, Committed, map[], map[]), 2 := TxRec(1, Active, map[], map[]),
            3 := TxRec(1, Committed, map[], map[])], None)
  }

  function StateReads(): Sys {
    StateStores2().(counter := 4, txs := StateStores2().txs[4 := TxRec(3, Active, map[X := 1], map[])])
  }

  lemma AtStores1()
    ensures At(Stores1(), StateStores1(), 4, [])
  {
    Extend([], Init(0), 4, [], NestStore(X, [1], None));
    assert Stored1(X, 1) + [] == Stored1(X, 1);
    assert [] + [NestStore(X, [1], None)] == Stores1();
  }

  lemma AtStores2()
    ensures At(Stores2(), StateStores2(), 4, [])
  {
    AtStores1();
    Extend(Stores1(), StateStores1(), 4, [], Begin);
    var s := Apply(StateStores1(), Begin).0;
    Extend(Stores1() + [Begin], s, 4, [], NestStore(Y, [1], None));
    assert Stored1(Y, 3) + [] == Stored1(Y, 3);
    assert Apply(s, NestStore(Y, [1], None)).0 == StateStores2();
  }

  lemma AtReads()
    ensures At(Reads(), StateReads(), 4, [DidGet(X, Value(Some([1]), None))])
  {
    AtStores2();
    Extend(Stores2(), StateStores2(), 4, [], Begin);
    ReadStep();
    Extend(Stores2() + [Begin], Apply(StateStores2(), Begin).0, 4, [], Get(4, X));
  }

  lemma ReadStep()
    ensures var s := Apply(StateStores2(), Begin).0;
            && Clean(s, Get(4, X)) && Ordered(Apply(s, Get(4, X)).0)
            && Apply(s, Get(4, X)) == (StateReads(), Found(Value(Some([1]), None)))
  {
    var s := Apply(StateStores2(), Begin).0;
    var none: map<Id, TxId> := map[];
    assert none[X := 1] == map[X := 1];
    assert VisibleIn(ChainOf(s, X), 3) == Some(Stored1(X, 1)[0]);
    assert StateReads().txs == s.txs[4 := TxRec(3, Active, map[X := 1], map[])];
  }

  lemma AtWrites() returns (s: Sys)
    ensures At(Writes(), s, 4, [DidGet(X, Value(Some([1]), None))])
    ensures s == StateReads().(txs := StateReads().txs[2 :=
                                 TxRec(1, Active, map[], map[X := NewVersion(2, X, [2], None)])])
  {
    AtReads();
    Extend(Reads(), StateReads(), 4, [DidGet(X, Value(Some([1]), None))], Store(2, X, [2], None));
    s := Apply(StateReads(), Store(2, X, [2], None)).0;
  }

  /**
   * Whenever a transaction commits below the snapshot of a running one, the
   * running one is caught between two of its publications.
   */
  lemma LateCommitTears(s: Sys, t: TxId, reader: TxId, k: Id, later: Id)
    requires Inv(s) && ReadsOk(s) && History(s) && s.lock == None
    requires IsActive(s, t) && Validates(s, s.txs[t]) && IsActive(s, reader) && t <= s.txs[reader].snapshot
    requires k != later && k in s.txs[t].writeSet && later in s.txs[t].writeSet && t != reader
    ensures var s' := Apply(Apply(s, StartCommit(t)).0, Publish(t, k)).0;
            !AllOrNothing(s') && !Ordered(s')
  {
    InvStep(s, StartCommit(t));
    HistoryStep(s, StartCommit(t));
    var s1 := Apply(s, StartCommit(t)).0;
    InvStep(s1, Publish(t, k));
    HistoryStep(s1, Publish(t, k));
    var s2 := Apply(s1, Publish(t, k)).0;
    assert later in Unpublished(s2.txs[t]) && Landed(s2, t, k);
    assert TxOk(s, t);
    assert s2.chains[k][0].createdByTx == t;
    assert !SeesNoVersionOf(s2, reader, t, k);
    assert TornFor(s2, reader);
    AllOrNothingIff(s2);
  }

  /** And what it has read stays valid, although the serial execution has moved on. */
  lemma LateCommitIsUndetected(s: Sys, t: TxId, reader: TxId, k: Id)
    requires Inv(s) && MayPublish(s, t, k)
    requires IsActive(s, reader) && t <= s.txs[reader].snapshot && Validates(s, s.txs[reader])
    ensures var s' := Published(s, t, k);
            && s'.txs[reader] == s.txs[reader]
            && Validates(s', s'.txs[reader])
            && VisibleIn(ChainOf(s', k), s.txs[reader].snapshot) == Some(s.txs[t].writeSet[k])
  {
    assert TxOk(s, t) && TxOk(s, reader);
    var s' := Published(s, t, k);
    assert forall id :: id != k ==> ChainOf(s', id) == ChainOf(s, id);
  }

  lemma LateCommitRun(d: nat, run: seq<Step>, t: TxId, reader: TxId, k: Id, later: Id)
    requires CleanRun(d, run)
    requires var s := Run(d, run).sys;
             && s.lock == None && IsActive(s, t) && IsActive(s, reader) && t != reader
             && Validates(s, s.txs[t]) && t <= s.txs[reader].snapshot
             && k != later && k in s.txs[t].writeSet && later in s.txs[t].writeSet
    ensures var torn := run + [StartCommit(t)] + [Publish(t, k)];
            CleanRun(d, torn) && !OrderedRun(d, torn) && !AllOrNothing(Run(d, torn).sys)
  {
    RunHistory(d, run);
    LateCommitTears(Run(d, run).sys, t, reader, k, later);
    RunSnoc(d, run, StartCommit(t));
    RunSnoc(d, run + [StartCommit(t)], Publish(t, k));
  }

  lemma TornAfter(run: seq<Step>, s: Sys, ops: seq<Op>)
    requires At(run, s, 4, ops) && s.lock == None && IsActive(s, 2) && IsActive(s, 4) && 2 <= s.txs[4].snapshot
    requires X in s.txs[2].writeSet && Z in s.txs[2].writeSet && Validates(s, s.txs[2])
    ensures exists r :: CleanRun(0, r) && !OrderedRun(0, r) && !AllOrNothing(Run(0, r).sys)
  {
    assert X[0] != Z[0];
    LateCommitRun(0, run, 2, 4, X, Z);
  }

  /** A clean run whose only defect is its order shows a torn commit. */
  lemma UnorderedRunIsTorn()
    ensures exists run :: CleanRun(0, run) && !OrderedRun(0, run) && !AllOrNothing(Run(0, run).sys)
  {
    var s := AtWrites();
    var step := Store(2, Z, [2], None);
    Extend(Writes(), s, 4, [DidGet(X, Value(Some([1]), None))], step);
    var s' := Apply(s, step).0;
    assert s'.txs[2] == TxRec(1, Active, map[], s.txs[2].writeSet[Z := NewVersion(2, Z, [2], None)]);
    TornAfter(Writes() + [step], s', [DidGet(X, Value(Some([1]), None))]);
  }

  /** Serially, a transaction replayed after k was set to another value cannot repeat its Get of k. */
  lemma StaleGet(db: Db, ops: seq<Op>, i: nat)
    requires i < |ops| && ops[i].DidGet?
    requires ops[i].id !in Stores(map[], ops[..i])
    requires ops[i].id in db && db[ops[i].id] != ops[i].value
    ensures !GetsMatch(db, ops)
  {
    StoresOverlay(db, ops[..i]);
  }

  /** StartCommit, one publication and FinishCommit of a transaction that wrote one key. */
  function CommitOf(t: TxId, k: Id): seq<Step> {
    [StartCommit(t), Publish(t, k), FinishCommit(t)]
  }

  lemma CommitSteps(s: Sys, t: TxId, k: Id)
    requires s.lock == None && IsActive(s, t) && Validates(s, s.txs[t]) && s.txs[t].writeSet.Keys == {k}
    ensures var s1 := s.(txs := s.txs[t := s.txs[t].(status := Committing({k}))], lock := Some(t));
            var s2 := Added(s1, k, s.txs[t].writeSet[k]).(txs := s.txs[t := s.txs[t].(status := Committing({}))]);
            && Apply(s, StartCommit(t)) == (s1, Validated)
            && Apply(s1, Publish(t, k)) == (s2, Done)
            && Apply(s2, FinishCommit(t))
               == (s2.(last := Max(s.last, t), txs := s.txs[t := s.txs[t].(status := Committed)], lock := None), Done)
  {
    var rec := s.txs[t];
    var locked := s.txs[t := rec.(status := Committing({k}))];
    var empty: set<Id> := {k} - {k};
    assert empty == {};
    assert locked[t := rec.(status := Committing({}))] == s.txs[t := rec.(status := Committing({}))];
    assert s.txs[t := rec.(status := Committing({}))][t := rec.(status := Committed)]
        == s.txs[t := rec.(status := Committed)];
  }

  /** The state and the serial database after a transaction has committed one key. */
  ghost predicate OneKeyCommitted(w: World, w': World, t: TxId, k: Id)
    requires t in w.sys.txs && k in w.sys.txs[t].writeSet
  {
    && w'.sys == Added(w.sys, k, w.sys.txs[t].writeSet[k]).(
                   last := Max(w.sys.last, t), txs := w.sys.txs[t := w.sys.txs[t].(status := Committed)])
    && Replay(w'.trace) == Replay(w.trace)[k := ValueOf(w.sys.txs[t].writeSet[k])]
    && forall u :: OpsOf(w'.trace, u) == OpsOf(w.trace, u)
  }

  lemma ReplayCommit(w: World, t: TxId, k: Id)
    requires Linked(w) && w.sys.lock == None && IsActive(w.sys, t)
    requires Validates(w.sys, w.sys.txs[t]) && w.sys.txs[t].writeSet.Keys == {k}
    ensures Replay(Next(Next(Next(w, StartCommit(t)), Publish(t, k)), FinishCommit(t)).trace)
            == Replay(w.trace)[k := ValueOf(w.sys.txs[t].writeSet[k])]
  {
    var w1 := Next(w, StartCommit(t));
    ReplayStart(w, t, k);
    ReplayQuiet(w1, Publish(t, k));
    ReplayQuiet(Next(w1, Publish(t, k)), FinishCommit(t));
  }

  lemma ReplayStart(w: World, t: TxId, k: Id)
    requires Linked(w) && w.sys.lock == None && IsActive(w.sys, t)
    requires Validates(w.sys, w.sys.txs[t]) && w.sys.txs[t].writeSet.Keys == {k}
    ensures Replay(Next(w, StartCommit(t)).trace) == Replay(w.trace)[k := ValueOf(w.sys.txs[t].writeSet[k])]
  {
    assert Next(w, StartCommit(t)).trace[..|w.trace|] == w.trace;
    assert WritesMatch(w, t);
    StoresOverlay(Replay(w.trace), OpsOf(w.trace, t));
    assert Written(w.sys, t) == map[k := ValueOf(w.sys.txs[t].writeSet[k])];
  }

  lemma ReplayQuiet(w: World, step: Step)
    requires step.Publish? || step.FinishCommit?
    ensures Replay(Next(w, step).trace) == Replay(w.trace)
  {
    assert Next(w, step).trace[..|w.trace|] == w.trace;
  }

  lemma CommitIsNoOp(w: World, t: TxId, k: Id)
    ensures forall u :: OpsOf(Next(Next(Next(w, StartCommit(t)), Publish(t, k)), FinishCommit(t)).trace, u)
                        == OpsOf(w.trace, u)
  {
    var w1 := Next(w, StartCommit(t));
    var w2 := Next(w1, Publish(t, k));
    forall u ensures OpsOf(Next(w2, FinishCommit(t)).trace, u) == OpsOf(w.trace, u) {
      OpsStep(w, StartCommit(t), u);
      OpsStep(w1, Publish(t, k), u);
      OpsStep(w2, FinishCommit(t), u);
    }
  }

  lemma CommitWorlds(w: World, t: TxId, k: Id)
    requires Linked(w) && w.sys.lock == None && IsActive(w.sys, t)
    requires Validates(w.sys, w.sys.txs[t]) && w.sys.txs[t].writeSet.Keys == {k}
    ensures OneKeyCommitted(w, Next(Next(Next(w, StartCommit(t)), Publish(t, k)), FinishCommit(t)), t, k)
  {
    CommitSteps(w.sys, t, k);
    ReplayCommit(w, t, k);
    CommitIsNoOp(w, t, k);
  }

  lemma CommitOneKey(d: nat, run: seq<Step>, t: TxId, k: Id)
    requires CleanRun(d, run) && OrderedRun(d, run)
    requires var s := Run(d, run).sys;
             s.lock == None && IsActive(s, t) && Validates(s, s.txs[t]) && s.txs[t].writeSet.Keys == {k}
    ensures CleanRun(d, run + CommitOf(t, k))
    ensures OneKeyCommitted(Run(d, run), Run(d, run + CommitOf(t, k)), t, k)
  {
    RunHeads(d, run);
    CommitWorlds(Run(d, run), t, k);
    ThreeSteps(d, run, StartCommit(t), Publish(t, k), FinishCommit(t));
  }

  lemma ThreeSteps(d: nat, run: seq<Step>, a: Step, b: Step, c: Step)
    ensures Run(d, run + [a, b, c]) == Next(Next(Next(Run(d, run), a), b), c)
    ensures a.StartCommit? && b.Publish? && c.FinishCommit? ==>
              (CleanRun(d, run + [a, b, c]) <==> CleanRun(d, run))
  {
    RunSnoc(d, run, a);
    RunSnoc(d, run + [a], b);
    RunSnoc(d, run + [a] + [b], c);
    assert run + [a, b, c] == run + [a] + [b] + [c];
  }

  /** t is about to commit k alone, below the snapshot of a reader whose i-th operation got another value of k. */
  ghost predicate LateFor(w: World, t: TxId, reader: TxId, k: Id, i: nat) {
    var s, ops := w.sys, OpsOf(w.trace, reader);
    && s.lock == None && IsActive(s, t) && IsActive(s, reader) && t != reader
    && Validates(s, s.txs[t]) && Validates(s, s.txs[reader]) && t <= s.txs[reader].snapshot
    && s.txs[t].writeSet.Keys == {k}
    && i < |ops| && ops[i].DidGet? && ops[i].id == k && k !in Stores(map[], ops[..i])
    && ops[i].value != ValueOf(s.txs[t].writeSet[k])
  }

  /** Then the reader still commits, and the run is not serializable. */
  lemma LateCommitNotSerializable(d: nat, run: seq<Step>, t: TxId, reader: TxId, k: Id, i: nat)
    requires CleanRun(d, run) && OrderedRun(d, run) && LateFor(Run(d, run), t, reader, k, i)
    ensures var late := run + CommitOf(t, k) + [StartCommit(reader)];
            CleanRun(d, late) && !Serializable(Run(d, late).trace)
  {
    RunInv(d, run);
    CommitOneKey(d, run, t, k);
    ValidAfterCommit(Run(d, run), Run(d, run + CommitOf(t, k)), t, reader, k);
    StartLate(d, run + CommitOf(t, k), reader, i);
  }

  lemma ValidAfterCommit(w: World, w': World, t: TxId, reader: TxId, k: Id)
    requires Inv(w.sys) && IsActive(w.sys, t) && IsActive(w.sys, reader) && t != reader && w.sys.lock == None
    requires k in w.sys.txs[t].writeSet && OneKeyCommitted(w, w', t, k)
    requires t <= w.sys.txs[reader].snapshot && Validates(w.sys, w.sys.txs[reader])
    ensures w'.sys.lock == None && IsActive(w'.sys, reader) && Validates(w'.sys, w'.sys.txs[reader])
  {
    assert TxOk(w.sys, t);
    forall id ensures id != k ==> ChainOf(w'.sys, id) == ChainOf(w.sys, id) {
    }
    assert ChainOf(w'.sys, k)[0].createdByTx == t;
  }

  lemma StartLate(d: nat, run: seq<Step>, reader: TxId, i: nat)
    requires CleanRun(d, run)
    requires var w := Run(d, run);
             && w.sys.lock == None && IsActive(w.sys, reader) && Validates(w.sys, w.sys.txs[reader])
             && i < |OpsOf(w.trace, reader)| && OpsOf(w.trace, reader)[i].DidGet?
             && var get := OpsOf(w.trace, reader)[i];
             && get.id !in Stores(map[], OpsOf(w.trace, reader)[..i])
             && get.id in Replay(w.trace) && Replay(w.trace)[get.id] != get.value
    ensures CleanRun(d, run + [StartCommit(reader)]) && !Serializable(Run(d, run + [StartCommit(reader)]).trace)
  {
    var w := Run(d, run);
    RunSnoc(d, run, StartCommit(reader));
    StaleGet(Replay(w.trace), OpsOf(w.trace, reader), i);
    var w' := Next(w, StartCommit(reader));
    assert w'.trace[..|w.trace|] == w.trace && Commits(w'.trace[|w.trace|]);
  }

  ghost predicate StaleState(s: Sys) {
    && s.lock == None && IsActive(s, 2) && IsActive(s, 4) && 2 <= s.txs[4].snapshot
    && Validates(s, s.txs[2]) && Validates(s, s.txs[4]) && s.txs[2].writeSet.Keys == {X}
    && ValueOf(s.txs[2].writeSet[X]) != Value(Some([1]), None)
  }

  lemma WritesStateIsStale(s: Sys)
    requires s == StateReads().(txs := StateReads().txs[2 :=
                                  TxRec(1, Active, map[], map[X := NewVersion(2, X, [2], None)])])
    ensures StaleState(s)
  {
    var two: Vector, one: Vector := [2], [1];
    assert two[0] != one[0];
    assert s.txs[2].writeSet.Keys == {X};
  }

  lemma StaleIsLate(w: World)
    requires StaleState(w.sys) && OpsOf(w.trace, 4) == [DidGet(X, Value(Some([1]), None))]
    ensures LateFor(w, 2, 4, X, 0)
  {
    assert OpsOf(w.trace, 4)[..0] == [];
  }

  lemma StaleAfter(run: seq<Step>, s: Sys)
    requires At(run, s, 4, [DidGet(X, Value(Some([1]), None))]) && StaleState(s)
    ensures CleanRun(0, run + CommitOf(2, X) + [StartCommit(4)])
    ensures !Serializable(Run(0, run + CommitOf(2, X) + [StartCommit(4)]).trace)
  {
    StaleIsLate(Run(0, run));
    LateCommitNotSerializable(0, run, 2, 4, X, 0);
  }

  /** A clean run whose only defect is its order commits a transaction that read a stale value. */
  lemma UnorderedRunNotSerializable()
    ensures exists run :: CleanRun(0, run) && !Serializable(Run(0, run).trace)
  {
    var s := AtWrites();
    WritesStateIsStale(s);
    StaleAfter(Writes(), s);
  }

  /** Transaction 4, having read X before 2 committed it, writes X and is validated all the same. */
  function Overwrites(): seq<Step> { Writes() + CommitOf(2, X) + [Store(4, X, [3], None)] + [StartCommit(4)] }

  ghost predicate LostIn(w: World) {
    && BothWrote(w.sys, 2, 4) && IsRunning(w.sys, 4)
    && OpsOf(w.trace, 4) == [DidGet(X, Value(Some([1]), None)), DidStore(X, Value(Some([3]), None))]
    && w.sys.txs[2].status.Committed? && X in w.sys.txs[2].writeSet && w.sys.txs[2].writeSet[X].vector == Some([2])
  }

  lemma OverwriteAfter(w: World)
    requires OpsOf(w.trace, 4) == [DidGet(X, Value(Some([1]), None))] && w.sys.lock == None && w.sys.dimensions == 1
    requires 2 in w.sys.txs && w.sys.txs[2] == TxRec(1, Committed, map[], map[X := NewVersion(2, X, [2], None)])
    requires 4 in w.sys.txs && w.sys.txs[4] == TxRec(3, Active, map[X := 1], map[])
    requires ChainOf(w.sys, X) != [] && ChainOf(w.sys, X)[0].createdByTx == 2
    ensures LostIn(Next(Next(w, Store(4, X, [3], None)), StartCommit(4)))
  {
    var store := Store(4, X, [3], None);
    var w1 := Next(w, store);
    OpsStep(w, store, 4);
    OpsStep(w1, StartCommit(4), 4);
    assert w1.sys.txs[4].writeSet.Keys == {X} && w1.sys.txs[4].readSet == map[X := 1];
    assert Validates(w1.sys, w1.sys.txs[4]);
    var s' := Next(w1, StartCommit(4)).sys;
    assert X in s'.txs[2].writeSet.Keys * s'.txs[4].writeSet.Keys;
  }

  lemma OverwritesLose()
    ensures CleanRun(0, Overwrites()) && LostIn(Run(0, Overwrites()))
  {
    var s := AtWrites();
    WritesStateIsStale(s);
    CommitOneKey(0, Writes(), 2, X);
    var run := Writes() + CommitOf(2, X);
    OverwriteAfter(Run(0, run));
    RunSnoc(0, run, Store(4, X, [3], None));
    RunSnoc(0, run + [Store(4, X, [3], None)], StartCommit(4));
  }

  /** While 2 held the lock, 4 was running. */
  lemma OverwritesTogether()
    ensures !NeverTogether(0, Overwrites(), 2, 4)
  {
    var s := AtWrites();
    WritesStateIsStale(s);
    var n := |Writes()| + 1;
    assert Overwrites()[..n] == Writes() + [StartCommit(2)];
    RunSnoc(0, Writes(), StartCommit(2));
    assert Together(Run(0, Overwrites()[..n]).sys, 2, 4);
  }

  /**
   * A lost update: a clean run in which two transactions that were running
   * together both commit X, and the second, which had read X before the
   * first wrote it, overwrites a committed value it never saw.
   */
  lemma UnorderedRunLosesUpdate()
    ensures exists run :: CleanRun(0, run) && LostIn(Run(0, run))
                          && !FinishedBefore(Run(0, run).trace, 2, 4) && !FinishedBefore(Run(0, run).trace, 4, 2)
  {
    OverwritesLose();
    OverwritesTogether();
    LostIsOverlap(Overwrites());
  }

  lemma LostIsOverlap(run: seq<Step>)
    requires CleanRun(0, run) && LostIn(Run(0, run)) && !NeverTogether(0, run, 2, 4)
    ensures !FinishedBefore(Run(0, run).trace, 2, 4) && !FinishedBefore(Run(0, run).trace, 4, 2)
  {
    var trace := Run(0, run).trace;
    if FinishedBefore(trace, 2, 4) {
      forall n | 0 <= n <= |run| ensures !Together(Run(0, run[..n]).sys, 2, 4) { BeforeIsApart(0, run, 2, 4, n); }
    }
    if FinishedBefore(trace, 4, 2) {
      RunFinishKnown(0, run, 4);
      BeforeHasFinished(trace, 4, 2);
    }
  }

  lemma BeforeHasFinished(trace: seq<Event>, t: TxId, u: TxId)
    requires FinishedBefore(trace, t, u)
    ensures HasFinished(trace, t)
  {
    var j :| 0 <= j < |trace| && trace[j] == Event(Begin, Began(u)) && HasFinished(trace[..j], t);
    var i :| 0 <= i < j && trace[..j][i] == Event(FinishCommit(t), Done);
    assert trace[i] == Event(FinishCommit(t), Done);
  }
}
