/**
 * Garbage collection is invisible: in every store-only run, erasing or
 * inserting collections changes no read, no validation verdict and no other
 * observation of any transaction.
 */
module MvccGarbage {
  import opened Base
  import opened VersionChains
  import opened MvccModel
  import opened MvccVisibility

  predicate StoreOnlyRun(run: seq<Step>) {
    forall i :: 0 <= i < |run| ==> !run[i].Remove?
  }

  function EraseCollections(run: seq<Step>): seq<Step> {
    if run == [] then []
    else
      var last := run[|run| - 1];
      EraseCollections(run[..|run| - 1]) + if last == CollectGarbage then [] else [last]
  }

  /** What the transactions of a run observe. */
  function Observed(trace: seq<Event>): seq<Event> {
    if trace == [] then []
    else
      var last := trace[|trace| - 1];
      Observed(trace[..|trace| - 1]) + if last.step == CollectGarbage then [] else [last]
  }

  ghost predicate NoDeletes(s: Sys) {
    && (forall k :: k in s.chains ==> s.chains[k] != [] && StoreOnly(s.chains[k]))
    && (forall t, k :: t in s.txs && k in s.txs[t].writeSet ==> s.txs[t].writeSet[k].deletedByTx == 0)
  }

  /** The chains agree on the head and for every snapshot from the floor on. */
  ghost predicate SameChain(c: Chain, d: Chain, floor: TxId) {
    && c != [] && d != [] && c[0] == d[0]
    && forall x: TxId :: floor <= x ==> VisibleIn(c, x) == VisibleIn(d, x)
  }

  /** a has been collected, b has not. */
  ghost predicate SameView(a: Sys, b: Sys) {
    && a.(chains := map[]) == b.(chains := map[])
    && a.chains.Keys == b.chains.Keys
    && forall k :: k in a.chains ==> SameChain(a.chains[k], b.chains[k], Floor(a))
  }

  lemma NoDeletesStep(s: Sys, step: Step)
    requires NoDeletes(s) && !step.Remove?
    ensures NoDeletes(Apply(s, step).0)
  {
    match step {
      case CollectGarbage =>
        forall k | k in s.chains ensures StoreOnly(Cut(s.chains[k], Floor(s))) {
          CutIsPrefix(s.chains[k], Floor(s));
        }
      case NestStore(id, vector, meta) =>
        NoDeletesAdded(s, id, NewVersion(s.counter + 1, id, vector, meta));
      case Publish(t, id) => NoDeletesPublish(s, t, id);
      case PublishFails(t, id) => NoDeletesPublish(s, t, id);
      case _ => NoDeletesElsewhere(s, step);
    }
  }

  lemma NoDeletesPublish(s: Sys, t: TxId, id: Id)
    requires NoDeletes(s)
    ensures NoDeletes(Apply(s, Publish(t, id)).0) && NoDeletes(Apply(s, PublishFails(t, id)).0)
  {
    if MayPublish(s, t, id) { NoDeletesAdded(s, id, s.txs[t].writeSet[id]); }
  }

  lemma NoDeletesElsewhere(s: Sys, step: Step)
    requires NoDeletes(s) && !step.Remove? && !step.Publish? && !step.PublishFails?
    requires !step.NestStore? && !step.CollectGarbage?
    ensures NoDeletes(Apply(s, step).0)
  {
  }

  lemma NoDeletesAdded(s: Sys, id: Id, v: Version)
    requires NoDeletes(s) && v.deletedByTx == 0
    ensures NoDeletes(Added(s, id, v))
  {
  }

  lemma SameFloor(a: Sys, b: Sys)
    requires a.(chains := map[]) == b.(chains := map[])
    ensures Floor(a) == Floor(b)
  {
    assert IsFloor(a, Floor(a)) && IsFloor(b, Floor(b));
    assert forall t :: IsRunning(a, t) <==> IsRunning(b, t);
  }

  lemma SameAdded(c: Chain, d: Chain, v: Version, floor: TxId, floor': TxId)
    requires (c == [] && d == []) || SameChain(c, d, floor)
    requires floor <= floor'
    ensures SameChain([v] + c, [v] + d, floor')
  {
    assert ([v] + c)[1..] == c && ([v] + d)[1..] == d;
  }

  /** Collecting the one side. */
  lemma CollectKeepsView(a: Sys, b: Sys)
    requires NoDeletes(a) && SameView(a, b)
    ensures SameView(Collected(a), b)
  {
    SameFloor(Collected(a), a);
    forall k | k in a.chains
      ensures k in Collected(a).chains && SameChain(Collected(a).chains[k], b.chains[k], Floor(a))
    {
      CutIsPrefix(a.chains[k], Floor(a));
      forall x: TxId | Floor(a) <= x ensures VisibleIn(Cut(a.chains[k], Floor(a)), x) == VisibleIn(b.chains[k], x) {
        CutKeepsVisible(a.chains[k], Floor(a), x);
      }
    }
  }

  /** One key gets the same new head on both sides, and everything else keeps its chain. */
  lemma AddKeepsView(a: Sys, b: Sys, a': Sys, b': Sys, id: Id, v: Version)
    requires SameView(a, b) && Floor(a) <= Floor(a')
    requires a'.(chains := map[]) == b'.(chains := map[])
    requires a'.chains == Added(a, id, v).chains && b'.chains == Added(b, id, v).chains
    ensures SameView(a', b')
  {
    forall k | k in a'.chains ensures SameChain(a'.chains[k], b'.chains[k], Floor(a')) {
      if k == id { SameAdded(ChainOf(a, id), ChainOf(b, id), v, Floor(a), Floor(a')); }
    }
  }

  lemma KeepView(a: Sys, b: Sys, a': Sys, b': Sys)
    requires SameView(a, b) && Floor(a) <= Floor(a')
    requires a'.(chains := map[]) == b'.(chains := map[])
    requires a'.chains == a.chains && b'.chains == b.chains
    ensures SameView(a', b')
  {
  }

  lemma SameReads(a: Sys, b: Sys, t: TxId, id: Id)
    requires SameView(a, b) && IsActive(a, t)
    ensures VisibleIn(ChainOf(a, id), a.txs[t].snapshot) == VisibleIn(ChainOf(b, id), b.txs[t].snapshot)
  {
    assert IsFloor(a, Floor(a)) && IsRunning(a, t);
  }

  lemma SameVerdict(a: Sys, b: Sys, rec: TxRec)
    requires SameView(a, b)
    ensures Validates(a, rec) <==> Validates(b, rec)
  {
    assert forall k :: ChainOf(a, k) == [] <==> ChainOf(b, k) == [];
    assert forall k :: ChainOf(a, k) != [] ==> ChainOf(a, k)[0] == ChainOf(b, k)[0];
  }

  /** The steps that put a version in front of a chain. */
  lemma ViewAddStep(a: Sys, b: Sys, step: Step)
    requires SameView(a, b) && (step.Publish? || step.PublishFails? || step.NestStore?)
    ensures Apply(a, step).1 == Apply(b, step).1 && SameView(Apply(a, step).0, Apply(b, step).0)
  {
    var a', b' := Apply(a, step).0, Apply(b, step).0;
    FloorRises(a, step);
    if step.NestStore? {
      if Apply(a, step).1.Stored? {
        AddKeepsView(a, b, a', b', step.id, NewVersion(a.counter + 1, step.id, step.vector, step.meta));
      }
    } else if MayPublish(a, step.t, step.id) {
      AddKeepsView(a, b, a', b', step.id, a.txs[step.t].writeSet[step.id]);
    }
  }

  lemma ViewGet(a: Sys, b: Sys, t: TxId, id: Id)
    requires SameView(a, b)
    ensures Apply(a, Get(t, id)).1 == Apply(b, Get(t, id)).1
    ensures SameView(Apply(a, Get(t, id)).0, Apply(b, Get(t, id)).0)
  {
    FloorRises(a, Get(t, id));
    if IsActive(a, t) { SameReads(a, b, t, id); }
    KeepView(a, b, Apply(a, Get(t, id)).0, Apply(b, Get(t, id)).0);
  }

  lemma ViewStartCommit(a: Sys, b: Sys, t: TxId)
    requires SameView(a, b)
    ensures Apply(a, StartCommit(t)).1 == Apply(b, StartCommit(t)).1
    ensures SameView(Apply(a, StartCommit(t)).0, Apply(b, StartCommit(t)).0)
  {
    FloorRises(a, StartCommit(t));
    if IsActive(a, t) { SameVerdict(a, b, a.txs[t]); }
    KeepView(a, b, Apply(a, StartCommit(t)).0, Apply(b, StartCommit(t)).0);
  }

  lemma ViewLogFails(a: Sys, b: Sys, t: TxId)
    requires SameView(a, b)
    ensures Apply(a, LogFails(t)).1 == Apply(b, LogFails(t)).1
    ensures SameView(Apply(a, LogFails(t)).0, Apply(b, LogFails(t)).0)
  {
    FloorRises(a, LogFails(t));
    if IsActive(a, t) { SameVerdict(a, b, a.txs[t]); }
    KeepView(a, b, Apply(a, LogFails(t)).0, Apply(b, LogFails(t)).0);
  }

  /** These steps do not look at the chains, nor change them. */
  lemma ChainsApart(a: Sys, chains: map<Id, Chain>, step: Step)
    requires step.Begin? || step.Store? || step.FinishCommit? || step.IndexFails? || step.Rollback?
    ensures Apply(a.(chains := chains), step).1 == Apply(a, step).1
    ensures Apply(a.(chains := chains), step).0 == Apply(a, step).0.(chains := chains)
    ensures Apply(a, step).0.chains == a.chains
  {
  }

  lemma ViewElsewhere(a: Sys, b: Sys, step: Step)
    requires SameView(a, b) && (step.Begin? || step.Store? || step.FinishCommit? || step.IndexFails? || step.Rollback?)
    ensures Apply(a, step).1 == Apply(b, step).1 && SameView(Apply(a, step).0, Apply(b, step).0)
  {
    FloorRises(a, step);
    ChainsApart(a, b.chains, step);
    assert b == a.(chains := b.chains);
    KeepView(a, b, Apply(a, step).0, Apply(b, step).0);
  }

  lemma ViewStep(a: Sys, b: Sys, step: Step)
    requires SameView(a, b) && !step.CollectGarbage? && !step.Remove?
    ensures Apply(a, step).1 == Apply(b, step).1 && SameView(Apply(a, step).0, Apply(b, step).0)
  {
    if step.Publish? || step.PublishFails? || step.NestStore? {
      ViewAddStep(a, b, step);
    } else if step.Get? {
      ViewGet(a, b, step.t, step.id);
    } else if step.StartCommit? {
      ViewStartCommit(a, b, step.t);
    } else if step.LogFails? {
      ViewLogFails(a, b, step.t);
    } else {
      ViewElsewhere(a, b, step);
    }
  }

  /** Running with the collections and running without them. */
  lemma {:induction false} CollectionsInvisible(d: nat, run: seq<Step>)
    requires StoreOnlyRun(run)
    ensures NoDeletes(Run(d, run).sys)
    ensures SameView(Run(d, run).sys, Run(d, EraseCollections(run)).sys)
    ensures Observed(Run(d, run).trace) == Run(d, EraseCollections(run)).trace
  {
    if run == [] {
      assert Run(d, []).sys == Init(d);
    } else {
      var run', step := run[..|run| - 1], run[|run| - 1];
      CollectionsInvisible(d, run');
      var w, v := Run(d, run'), Run(d, EraseCollections(run'));
      NoDeletesStep(w.sys, step);
      assert Next(w, step).trace[..|w.trace|] == w.trace;
      if step == CollectGarbage {
        CollectKeepsView(w.sys, v.sys);
        assert EraseCollections(run) == EraseCollections(run');
      } else {
        ViewStep(w.sys, v.sys, step);
        assert EraseCollections(run) == EraseCollections(run') + [step];
        assert EraseCollections(run)[..|EraseCollections(run')|] == EraseCollections(run');
      }
    }
  }

  /** Two store-only runs that differ only in their collections are observed alike. */
  lemma CollectionsInterchangeable(d: nat, run: seq<Step>, run': seq<Step>)
    requires StoreOnlyRun(run) && StoreOnlyRun(run') && EraseCollections(run) == EraseCollections(run')
    ensures Observed(Run(d, run).trace) == Observed(Run(d, run').trace)
  {
    CollectionsInvisible(d, run);
    CollectionsInvisible(d, run');
  }
}
