/**
 * What other transactions see of a commit: first-committer-wins, and
 * all-or-nothing visibility although the keys are published one by one.
 */
module MvccVisibility {
  import opened Base
  import opened VersionChains
  import opened MvccModel
  import opened MvccInvariants

  /** Validated: the transaction is publishing or has finished. */
  predicate Writer(s: Sys, t: TxId) {
    t in s.txs && (s.txs[t].status.Committed? || s.txs[t].status.Committing?)
  }

  function Unpublished(rec: TxRec): set<Id> {
    if rec.status.Committing? then rec.status.remaining else {}
  }

  predicate Landed(s: Sys, t: TxId, k: Id) {
    Writer(s, t) && k in s.txs[t].writeSet && k !in Unpublished(s.txs[t])
  }

  /** Every snapshot from t on that is not below the floor sees version t of the chain or a newer one. */
  ghost predicate SeenFrom(c: Chain, t: TxId, floor: TxId) {
    forall x: TxId {:trigger VisibleIn(c, x)} :: t <= x && floor <= x ==>
      VisibleIn(c, x).Some? && t <= VisibleIn(c, x).value.createdByTx
  }

  ghost predicate LandedOk(s: Sys, t: TxId, k: Id) {
    k in s.chains && s.chains[k] != [] && t <= s.chains[k][0].createdByTx && SeenFrom(s.chains[k], t, Floor(s))
  }

  ghost predicate History(s: Sys) {
    forall t, k :: Landed(s, t, k) ==> LandedOk(s, t, k)
  }

  lemma FloorRises(s: Sys, step: Step)
    ensures Floor(s) <= Floor(Apply(s, step).0)
  {
    var s' := Apply(s, step).0;
    assert s.last <= s'.last;
    forall u | IsRunning(s', u)
      ensures (IsRunning(s, u) && s'.txs[u].snapshot == s.txs[u].snapshot) || s'.txs[u].snapshot == s.last
    {
      RunningBefore(s, step, u);
    }
    FloorRisesTo(s, s');
  }

  lemma RunningBefore(s: Sys, step: Step, u: TxId)
    requires IsRunning(Apply(s, step).0, u)
    ensures (IsRunning(s, u) && Apply(s, step).0.txs[u].snapshot == s.txs[u].snapshot)
            || Apply(s, step).0.txs[u].snapshot == s.last
  {
    match step {
      case Get(t, id) =>
      case Store(t, id, vector, meta) =>
      case StartCommit(t) =>
      case _ =>
    }
  }

  lemma FloorRisesTo(s: Sys, s': Sys)
    requires s.last <= s'.last
    requires forall u :: IsRunning(s', u) ==>
               (IsRunning(s, u) && s'.txs[u].snapshot == s.txs[u].snapshot) || s'.txs[u].snapshot == s.last
    ensures Floor(s) <= Floor(s')
  {
    assert IsFloor(s, Floor(s)) && IsFloor(s', Floor(s'));
  }

  lemma SeenAfterAdd(c: Chain, v: Version, t: TxId, floor: TxId, floor': TxId)
    requires SeenFrom(c, t, floor) && floor <= floor' && t <= v.createdByTx && v.deletedByTx == 0
    ensures SeenFrom([v] + c, t, floor')
  {
    assert ([v] + c)[1..] == c;
  }

  lemma SeenAfterCut(c: Chain, t: TxId, floor: TxId, floor': TxId)
    requires SeenFrom(c, t, floor) && floor <= floor' && StoreOnly(c)
    ensures SeenFrom(Cut(c, floor), t, floor')
  {
    forall x: TxId | t <= x && floor' <= x
      ensures VisibleIn(Cut(c, floor), x).Some? && t <= VisibleIn(Cut(c, floor), x).value.createdByTx
    {
      CutKeepsVisible(c, floor, x);
    }
  }

  lemma SeenFresh(c: Chain, v: Version, floor: TxId)
    requires v.deletedByTx == 0
    ensures SeenFrom([v] + c, v.createdByTx, floor)
  {
  }

  lemma HistoryPublish(s: Sys, t: TxId, id: Id)
    requires Inv(s) && History(s) && MayPublish(s, t, id)
    ensures History(Published(s, t, id))
  {
    var s' := Published(s, t, id);
    FloorRises(s, Publish(t, id));
    assert TxOk(s, t);
    var v := s.txs[t].writeSet[id];
    forall u, k | Landed(s', u, k) ensures LandedOk(s', u, k) {
      if u == t && k == id {
        SeenFresh(ChainOf(s, id), v, Floor(s'));
      } else {
        assert Landed(s, u, k);
        if k == id { SeenAfterAdd(s.chains[id], v, u, Floor(s), Floor(s')); }
      }
    }
  }

  lemma HistoryNestStore(s: Sys, id: Id, vector: Vector, meta: Option<Meta>)
    requires Inv(s) && History(s)
    ensures History(ApplyNestStore(s, id, vector, meta).0)
  {
    var (s', obs) := ApplyNestStore(s, id, vector, meta);
    FloorRises(s, NestStore(id, vector, meta));
    forall u, k | Landed(s', u, k) ensures LandedOk(s', u, k) {
      assert u in s.txs ==> TxOk(s, u);
      assert Landed(s, u, k);
      if obs.Stored? && k == id {
        SeenAfterAdd(s.chains[id], NewVersion(s.counter + 1, id, vector, meta), u, Floor(s), Floor(s'));
      }
    }
  }

  lemma HistoryCollect(s: Sys)
    requires Inv(s) && History(s)
    ensures History(Collected(s))
  {
    var s' := Collected(s);
    FloorRises(s, CollectGarbage);
    InvCollect(s);
    forall u, k | Landed(s', u, k) ensures LandedOk(s', u, k) {
      assert Landed(s, u, k);
      SeenAfterCut(s.chains[k], u, Floor(s), Floor(s'));
    }
  }

  /** The other steps add no version and land no key. */
  lemma LandedBefore(s: Sys, step: Step, u: TxId, k: Id)
    requires Inv(s)
    requires step.Begin? || step.Get? || step.Store? || step.Rollback? || step.LogFails? || step.StartCommit?
             || step.FinishCommit?
    requires Landed(Apply(s, step).0, u, k)
    ensures Landed(s, u, k)
  {
    assert u in s.txs ==> TxOk(s, u);
  }

  lemma HistoryElsewhere(s: Sys, step: Step)
    requires Inv(s) && History(s)
    requires step.Begin? || step.Get? || step.Store? || step.Rollback? || step.LogFails? || step.StartCommit?
             || step.FinishCommit?
    ensures History(Apply(s, step).0)
  {
    var s' := Apply(s, step).0;
    FloorRises(s, step);
    assert s'.chains == s.chains;
    forall u, k | Landed(s', u, k) ensures LandedOk(s', u, k) {
      LandedBefore(s, step, u, k);
    }
  }

  lemma HistoryStep(s: Sys, step: Step)
    requires Inv(s) && History(s) && Clean(s, step)
    ensures History(Apply(s, step).0)
  {
    match step {
      case Publish(t, id) => if MayPublish(s, t, id) { HistoryPublish(s, t, id); }
      case CollectGarbage => HistoryCollect(s);
      case NestStore(id, vector, meta) => HistoryNestStore(s, id, vector, meta);
      case _ => if !step.PublishFails? && !step.IndexFails? && !step.Remove? { HistoryElsewhere(s, step); }
    }
  }

  /** Of two transactions that both committed a key, one has its ID at or below the other's snapshot. */
  ghost predicate IdsApart(s: Sys, t: TxId, u: TxId) {
    Writer(s, t) && Writer(s, u) && t != u && s.txs[t].writeSet.Keys * s.txs[u].writeSet.Keys != {} ==>
      t <= s.txs[u].snapshot || u <= s.txs[t].snapshot
  }

  ghost predicate FirstCommitterWins(s: Sys) {
    forall t, u :: IdsApart(s, t, u)
  }

  lemma ValidatedAfterOthers(s: Sys, t: TxId, u: TxId)
    requires Inv(s) && ReadsOk(s) && History(s) && IsActive(s, u)
    requires ApplyStartCommit(s, u).1 == Validated && Writer(s, t)
    ensures forall k :: k in s.txs[t].writeSet && k in s.txs[u].writeSet ==> t <= s.txs[u].snapshot
  {
    assert TxOk(s, t);
    forall k | k in s.txs[t].writeSet && k in s.txs[u].writeSet ensures t <= s.txs[u].snapshot {
      assert Landed(s, t, k);
      ValidatedHead(s, u, k);
    }
  }

  /** A writer after a step was one before it, unless the step validated it. */
  lemma WriterBefore(s: Sys, step: Step, t: TxId)
    requires Inv(s) && Clean(s, step) && Writer(Apply(s, step).0, t)
    requires Apply(s, step).0.txs[t].writeSet != map[]
    ensures t in s.txs && Apply(s, step).0.txs[t].snapshot == s.txs[t].snapshot
    ensures Apply(s, step).0.txs[t].writeSet == s.txs[t].writeSet
    ensures Writer(s, t) || (IsActive(s, t) && step == StartCommit(t) && ApplyStartCommit(s, t).1 == Validated)
  {
    assert t in s.txs ==> TxOk(s, t);
    match step {
      case NestStore(id, vector, meta) =>
      case Publish(u, id) =>
      case StartCommit(u) =>
      case _ =>
    }
  }

  lemma FirstCommitterStep(s: Sys, step: Step)
    requires Inv(s) && ReadsOk(s) && History(s) && FirstCommitterWins(s) && Clean(s, step)
    ensures FirstCommitterWins(Apply(s, step).0)
  {
    var s' := Apply(s, step).0;
    forall t, u ensures IdsApart(s', t, u) {
      if Writer(s', t) && Writer(s', u) && t != u && s'.txs[t].writeSet.Keys * s'.txs[u].writeSet.Keys != {} {
        WriterBefore(s, step, t);
        WriterBefore(s, step, u);
        var k :| k in s.txs[t].writeSet && k in s.txs[u].writeSet;
        assert k in s.txs[t].writeSet.Keys * s.txs[u].writeSet.Keys;
        assert IdsApart(s, t, u);
        if !Writer(s, u) { ValidatedAfterOthers(s, t, u); }
        if !Writer(s, t) { ValidatedAfterOthers(s, u, t); }
      }
    }
  }

  lemma {:induction false} RunHistory(d: nat, run: seq<Step>)
    requires CleanRun(d, run)
    ensures Inv(Run(d, run).sys) && ReadsOk(Run(d, run).sys)
    ensures History(Run(d, run).sys) && FirstCommitterWins(Run(d, run).sys)
  {
    RunInv(d, run);
    if run != [] {
      var run' := run[..|run| - 1];
      RunHistory(d, run');
      HistoryStep(Run(d, run').sys, run[|run| - 1]);
      FirstCommitterStep(Run(d, run').sys, run[|run| - 1]);
    }
  }

  /**
   * The committing transaction is newer than every snapshot another running
   * transaction reads from. IDs are given out at begin, so this can fail.
   */
  predicate Ordered(s: Sys) {
    s.lock.Some? ==>
      forall u :: u in s.txs && s.txs[u].Running() && u != s.lock.value ==> s.txs[u].snapshot < s.lock.value
  }

  ghost predicate OrderedRun(d: nat, run: seq<Step>) {
    Ordered(Run(d, run).sys) && (run == [] || OrderedRun(d, run[..|run| - 1]))
  }

  /** The reader sees the writer's version of the key or a newer one. */
  predicate SeesWrite(s: Sys, reader: TxId, writer: TxId, k: Id)
    requires reader in s.txs
  {
    var r := VisibleIn(ChainOf(s, k), s.txs[reader].snapshot);
    r.Some? && writer <= r.value.createdByTx
  }

  predicate SeesNoVersionOf(s: Sys, reader: TxId, writer: TxId, k: Id)
    requires reader in s.txs
  {
    var r := VisibleIn(ChainOf(s, k), s.txs[reader].snapshot);
    r.None? || r.value.createdByTx != writer
  }

  ghost predicate AllOrNothing(s: Sys) {
    forall reader, writer :: IsRunning(s, reader) && Writer(s, writer) && reader != writer ==>
      || (forall k :: k in s.txs[writer].writeSet ==> SeesWrite(s, reader, writer, k))
      || (forall k :: k in s.txs[writer].writeSet ==> SeesNoVersionOf(s, reader, writer, k))
  }

  lemma AllOrNothingIn(s: Sys)
    requires Inv(s) && History(s) && Ordered(s)
    ensures AllOrNothing(s)
  {
    AllOrNothingIff(s);
  }

  /** Mid-commit, a running snapshot at or above the committer's ID sees a version it has already published. */
  ghost predicate TornFor(s: Sys, reader: TxId) {
    && s.lock.Some? && s.lock.value in s.txs && IsRunning(s, reader) && reader != s.lock.value
    && s.lock.value <= s.txs[reader].snapshot
    && Unpublished(s.txs[s.lock.value]) != {}
    && exists k :: Landed(s, s.lock.value, k) && !SeesNoVersionOf(s, reader, s.lock.value, k)
  }

  /** Without the order condition, visibility is all-or-nothing exactly when no reader is caught mid-commit. */
  lemma AllOrNothingIff(s: Sys)
    requires Inv(s) && History(s)
    ensures AllOrNothing(s) <==> forall reader :: !TornFor(s, reader)
  {
    assert IsFloor(s, Floor(s));
    if reader :| TornFor(s, reader) {
      var t := s.lock.value;
      assert TxOk(s, t);
      var k :| k in Unpublished(s.txs[t]);
      assert WriteHolds(ChainOf(s, k), s.txs[t].snapshot);
      VisibleAt(ChainOf(s, k), s.txs[reader].snapshot);
      assert k in s.chains ==> ChainOk(k, s.chains[k], s.counter);
      assert !SeesWrite(s, reader, t, k);
    } else {
      forall reader, writer | IsRunning(s, reader) && Writer(s, writer) && reader != writer
        ensures (forall k :: k in s.txs[writer].writeSet ==> SeesWrite(s, reader, writer, k))
                || (forall k :: k in s.txs[writer].writeSet ==> SeesNoVersionOf(s, reader, writer, k))
      {
        assert !TornFor(s, reader);
        NotTorn(s, reader, writer);
      }
    }
  }

  lemma NotTorn(s: Sys, reader: TxId, writer: TxId)
    requires Inv(s) && History(s) && IsRunning(s, reader) && Writer(s, writer) && reader != writer
    requires !TornFor(s, reader)
    ensures (forall k :: k in s.txs[writer].writeSet ==> SeesWrite(s, reader, writer, k))
            || (forall k :: k in s.txs[writer].writeSet ==> SeesNoVersionOf(s, reader, writer, k))
  {
    assert IsFloor(s, Floor(s));
    var x := s.txs[reader].snapshot;
    assert TxOk(s, writer);
    if writer <= x && Unpublished(s.txs[writer]) == {} {
      forall k | k in s.txs[writer].writeSet ensures SeesWrite(s, reader, writer, k) {
        assert Landed(s, writer, k);
        assert LandedOk(s, writer, k);
        assert VisibleIn(s.chains[k], x).Some?;
      }
    } else {
      forall k | k in s.txs[writer].writeSet ensures SeesNoVersionOf(s, reader, writer, k) {
        VisibleAt(ChainOf(s, k), x);
        if writer <= x && k in Unpublished(s.txs[writer]) {
          assert WriteHolds(ChainOf(s, k), s.txs[writer].snapshot);
          assert k in s.chains ==> ChainOk(k, s.chains[k], s.counter);
        }
      }
    }
  }

  /**
   * All-or-nothing: at every point of a clean ordered run, with readers,
   * collections and Nest.Store calls interleaved anywhere, a running
   * transaction sees all of another's commit (or newer versions) or none of it.
   */
  lemma RunAllOrNothing(d: nat, run: seq<Step>, n: nat)
    requires n <= |run| && CleanRun(d, run) && OrderedRun(d, run)
    ensures AllOrNothing(Run(d, run[..n]).sys)
  {
    CleanPart(d, run, n);
    OrderedPart(d, run, n);
    RunHistory(d, run[..n]);
    AllOrNothingIn(Run(d, run[..n]).sys);
  }

  lemma {:induction false} OrderedPart(d: nat, run: seq<Step>, n: nat)
    requires n <= |run| && OrderedRun(d, run)
    ensures OrderedRun(d, run[..n])
  {
    if n == |run| {
      assert run[..n] == run;
    } else {
      OrderedPart(d, run[..|run| - 1], n);
      assert run[..|run| - 1][..n] == run[..n];
    }
  }

  /** Every version was put into its chain by a transaction that is publishing or has committed. */
  ghost predicate Authored(s: Sys) {
    forall k, i :: k in s.chains && 0 <= i < |s.chains[k]| ==> Writer(s, s.chains[k][i].createdByTx)
  }

  lemma AuthoredAdded(s: Sys, s': Sys, id: Id, v: Version)
    requires Authored(s) && s'.chains == Added(s, id, v).chains
    requires forall t :: Writer(s, t) ==> Writer(s', t)
    requires Writer(s', v.createdByTx)
    ensures Authored(s')
  {
  }

  /** A transaction that has been validated stays a writer; only a failing publication ends that. */
  lemma WriterStays(s: Sys, step: Step, t: TxId)
    requires Inv(s) && Clean(s, step) && Writer(s, t)
    ensures Writer(Apply(s, step).0, t)
  {
    assert TxOk(s, t);
    match step {
      case NestStore(id, vector, meta) =>
      case StartCommit(u) =>
      case _ =>
    }
  }

  lemma AuthoredCollect(s: Sys)
    requires Inv(s) && Authored(s)
    ensures Authored(Collected(s))
  {
    InvCollect(s);
    forall k, i | k in Collected(s).chains && 0 <= i < |Collected(s).chains[k]|
      ensures Writer(s, Collected(s).chains[k][i].createdByTx)
    {
      CutIsPrefix(s.chains[k], Floor(s));
      assert Collected(s).chains[k][i] == s.chains[k][i];
    }
  }

  lemma AuthoredStep(s: Sys, step: Step)
    requires Inv(s) && Clean(s, step) && Authored(s)
    ensures Authored(Apply(s, step).0)
  {
    var s' := Apply(s, step).0;
    forall t | Writer(s, t) ensures Writer(s', t) { WriterStays(s, step, t); }
    match step {
      case CollectGarbage => AuthoredCollect(s);
      case Publish(t, id) =>
        if MayPublish(s, t, id) {
          assert TxOk(s, t);
          AuthoredAdded(s, s', id, s.txs[t].writeSet[id]);
        }
      case NestStore(id, vector, meta) =>
        if Apply(s, step).1.Stored? { AuthoredAdded(s, s', id, NewVersion(s.counter + 1, id, vector, meta)); }
      case _ =>
    }
  }

  lemma {:induction false} RunAuthored(d: nat, run: seq<Step>)
    requires CleanRun(d, run)
    ensures Authored(Run(d, run).sys)
  {
    if run != [] {
      RunAuthored(d, run[..|run| - 1]);
      RunInv(d, run[..|run| - 1]);
      AuthoredStep(Run(d, run[..|run| - 1]).sys, run[|run| - 1]);
    }
  }

  /**
   * No dirty reads: in a clean run what a snapshot read finds was written by a
   * transaction that has committed, or by the one that is publishing right
   * now; in an ordered run only by a committed one.
   */
  lemma NoDirtyRead(d: nat, run: seq<Step>, t: TxId, k: Id)
    requires CleanRun(d, run) && IsActive(Run(d, run).sys, t)
    requires VisibleIn(ChainOf(Run(d, run).sys, k), Run(d, run).sys.txs[t].snapshot).Some?
    ensures var s := Run(d, run).sys;
            var author := VisibleIn(ChainOf(s, k), s.txs[t].snapshot).value.createdByTx;
            && author in s.txs
            && (s.txs[author].status.Committed? || (s.lock == Some(author) && s.txs[author].status.Committing?))
            && (Ordered(s) ==> s.txs[author].status.Committed?)
  {
    var s := Run(d, run).sys;
    RunAuthored(d, run);
    RunInv(d, run);
    VisibleAt(ChainOf(s, k), s.txs[t].snapshot);
    var author := VisibleIn(ChainOf(s, k), s.txs[t].snapshot).value.createdByTx;
    assert Writer(s, author) && TxOk(s, author);
    assert s.txs[t].Running();
  }
}
