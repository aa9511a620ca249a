/**
 * First committer wins, in time: of two transactions that committed the same
 * key, one had finished before the other began. When that holds.
 */
module MvccOverlap {
  import opened Base
  import opened MvccModel
  import opened MvccInvariants
  import opened MvccVisibility

  ghost predicate HasFinished(trace: seq<Event>, t: TxId) {
    exists i :: 0 <= i < |trace| && trace[i] == Event(FinishCommit(t), Done)
  }

  /** The commit of t was over when u took its snapshot. */
  ghost predicate FinishedBefore(trace: seq<Event>, t: TxId, u: TxId) {
    exists j :: 0 <= j < |trace| && trace[j] == Event(Begin, Began(u)) && HasFinished(trace[..j], t)
  }

  /** t holds the commit lock while u is running. */
  predicate Together(s: Sys, t: TxId, u: TxId) {
    s.lock == Some(t) && IsRunning(s, u)
  }

  ghost predicate NeverTogether(d: nat, run: seq<Step>, t: TxId, u: TxId) {
    forall n :: 0 <= n <= |run| ==> !Together(Run(d, run[..n]).sys, t, u)
  }

  ghost predicate BothWrote(s: Sys, t: TxId, u: TxId) {
    t != u && Writer(s, t) && Writer(s, u) && s.txs[t].writeSet.Keys * s.txs[u].writeSet.Keys != {}
  }

  lemma FinishedMore(trace: seq<Event>, e: Event, t: TxId)
    ensures HasFinished(trace, t) ==> HasFinished(trace + [e], t)
    ensures e == Event(FinishCommit(t), Done) ==> HasFinished(trace + [e], t)
  {
    if i :| 0 <= i < |trace| && trace[i] == Event(FinishCommit(t), Done) {
      assert (trace + [e])[i] == trace[i];
    }
    assert (trace + [e])[|trace|] == e;
  }

  lemma BeforeMore(trace: seq<Event>, e: Event, t: TxId, u: TxId)
    ensures FinishedBefore(trace, t, u) ==> FinishedBefore(trace + [e], t, u)
    ensures e == Event(Begin, Began(u)) && HasFinished(trace, t) ==> FinishedBefore(trace + [e], t, u)
  {
    assert (trace + [e])[..|trace|] == trace;
    if j :| 0 <= j < |trace| && trace[j] == Event(Begin, Began(u)) && HasFinished(trace[..j], t) {
      assert (trace + [e])[j] == trace[j] && (trace + [e])[..j] == trace[..j];
    }
    assert (trace + [e])[|trace|] == e;
  }

  /** A transaction with writes is committed once its commit has finished, and only then. */
  ghost predicate FinishKnown(w: World, t: TxId) {
    && (HasFinished(w.trace, t) ==> t in w.sys.txs && w.sys.txs[t].status.Committed?)
    && (t in w.sys.txs && w.sys.txs[t].status.Committed? && w.sys.txs[t].writeSet != map[] ==> HasFinished(w.trace, t))
    && (forall u :: FinishedBefore(w.trace, t, u) ==> u in w.sys.txs)
  }

  /** What one step can do to the standing of a transaction. */
  lemma CommittedBefore(s: Sys, step: Step, t: TxId)
    requires Inv(s) && Clean(s, step)
    ensures var (s', obs) := Apply(s, step);
            && (t in s.txs && s.txs[t].status.Committed? ==> t in s'.txs && s'.txs[t] == s.txs[t])
            && (step == FinishCommit(t) && obs == Done ==> t in s'.txs && s'.txs[t].status.Committed?)
            && (t in s'.txs && s'.txs[t].status.Committed? && s'.txs[t].writeSet != map[] ==>
                  (t in s.txs && s.txs[t].status.Committed? && s.txs[t].writeSet != map[])
                  || (step == FinishCommit(t) && obs == Done))
  {
    assert t in s.txs ==> TxOk(s, t);
    match step {
      case NestStore(id, vector, meta) =>
      case StartCommit(u) =>
      case _ =>
    }
  }

  lemma FinishedWas(trace: seq<Event>, e: Event, t: TxId)
    requires HasFinished(trace + [e], t)
    ensures HasFinished(trace, t) || e == Event(FinishCommit(t), Done)
  {
    var i :| 0 <= i < |trace + [e]| && (trace + [e])[i] == Event(FinishCommit(t), Done);
    if i < |trace| { assert trace[i] == (trace + [e])[i]; }
  }

  lemma BeforeWas(trace: seq<Event>, e: Event, t: TxId, u: TxId)
    requires FinishedBefore(trace + [e], t, u)
    ensures FinishedBefore(trace, t, u) || e == Event(Begin, Began(u))
  {
    var j :| 0 <= j < |trace + [e]| && (trace + [e])[j] == Event(Begin, Began(u)) && HasFinished((trace + [e])[..j], t);
    if j < |trace| { assert trace[j] == (trace + [e])[j] && trace[..j] == (trace + [e])[..j]; }
  }

  lemma FinishKnownStep(w: World, step: Step, t: TxId)
    requires Inv(w.sys) && Clean(w.sys, step) && FinishKnown(w, t)
    ensures FinishKnown(Next(w, step), t)
  {
    var e := Event(step, Apply(w.sys, step).1);
    CommittedBefore(w.sys, step, t);
    FinishedMore(w.trace, e, t);
    if HasFinished(w.trace + [e], t) { FinishedWas(w.trace, e, t); }
    forall u | FinishedBefore(w.trace + [e], t, u) ensures u in Next(w, step).sys.txs {
      BeforeWas(w.trace, e, t, u);
      TxsStay(w.sys, step);
    }
  }

  lemma TxsStay(s: Sys, step: Step)
    ensures s.txs.Keys <= Apply(s, step).0.txs.Keys
    ensures forall u :: Apply(s, step).1 == Began(u) ==> u == s.counter + 1 && u in Apply(s, step).0.txs
  {
  }

  lemma {:induction false} RunFinishKnown(d: nat, run: seq<Step>, t: TxId)
    requires CleanRun(d, run)
    ensures FinishKnown(Run(d, run), t)
  {
    if run != [] {
      RunFinishKnown(d, run[..|run| - 1], t);
      RunInv(d, run[..|run| - 1]);
      FinishKnownStep(Run(d, run[..|run| - 1]), run[|run| - 1], t);
    }
  }

  /** t, if it has writes and its ID is at or below the snapshot of u, was over before u began. */
  ghost predicate Settled(w: World, t: TxId, u: TxId) {
    && u in w.sys.txs && Writer(w.sys, t) && t != u && w.sys.txs[t].writeSet != map[] && t <= w.sys.txs[u].snapshot
    && (IsRunning(w.sys, u) || BothWrote(w.sys, t, u))
    ==> FinishedBefore(w.trace, t, u)
  }

  /** Where u comes from when it runs or has written after the step. */
  lemma ReaderBefore(s: Sys, step: Step, u: TxId)
    requires Inv(s) && Clean(s, step) && u in Apply(s, step).0.txs
    requires IsRunning(Apply(s, step).0, u) || Apply(s, step).0.txs[u].writeSet != map[]
    ensures var s' := Apply(s, step).0;
            || (u in s.txs && s'.txs[u].snapshot == s.txs[u].snapshot
                && (IsRunning(s', u) ==> IsRunning(s, u))
                && (Writer(s', u) && !IsRunning(s, u) ==> s'.txs[u] == s.txs[u]))
            || (step == Begin && Apply(s, step).1 == Began(u) && s'.txs[u] == TxRec(s.last, Active, map[], map[]))
  {
    assert u in s.txs ==> TxOk(s, u);
    match step {
      case NestStore(id, vector, meta) =>
      case Publish(t, id) =>
      case StartCommit(t) =>
      case _ =>
    }
  }

  /** A transaction that begins now finds every writer at or below the last commit finished, or holding the lock. */
  lemma SettledBegin(w: World, t: TxId, u: TxId)
    requires Inv(w.sys) && FinishKnown(w, t) && Apply(w.sys, Begin).1 == Began(u)
    requires !Together(Apply(w.sys, Begin).0, t, u)
    ensures Settled(Next(w, Begin), t, u)
  {
    var w' := Next(w, Begin);
    BeforeMore(w.trace, Event(Begin, Began(u)), t, u);
    if t in w.sys.txs && t != u && Writer(w'.sys, t) && w'.sys.txs[t].writeSet != map[] {
      assert TxOk(w.sys, t);
    }
  }

  /** A transaction validated after another that wrote one of its keys has the higher ID. */
  lemma ValidatedLater(s: Sys, u: TxId, t: TxId)
    requires Inv(s) && ReadsOk(s) && History(s) && IsActive(s, t)
    requires ApplyStartCommit(s, t).1 == Validated && Writer(s, u)
    requires s.txs[t].writeSet.Keys * s.txs[u].writeSet.Keys != {}
    ensures s.txs[u].snapshot < t
  {
    ValidatedAfterOthers(s, u, t);
    var k :| k in s.txs[t].writeSet && k in s.txs[u].writeSet;
    assert TxOk(s, t) && TxOk(s, u);
  }

  /** The step validates t while u has already been validated: then their IDs are the other way round. */
  lemma SettledOthers(w: World, step: Step, t: TxId, u: TxId)
    requires Inv(w.sys) && ReadsOk(w.sys) && History(w.sys) && Clean(w.sys, step) && FinishKnown(w, t)
    requires Settled(w, t, u) && !Together(Next(w, step).sys, t, u) && u in w.sys.txs
    ensures Settled(Next(w, step), t, u)
  {
    var w' := Next(w, step);
    BeforeMore(w.trace, Event(step, Apply(w.sys, step).1), t, u);
    if Writer(w'.sys, t) && t != u && w'.sys.txs[t].writeSet != map[] && t <= w'.sys.txs[u].snapshot
      && (IsRunning(w'.sys, u) || BothWrote(w'.sys, t, u)) {
      ReaderBefore(w.sys, step, u);
      WriterBefore(w.sys, step, t);
      if Writer(w.sys, t) {
        SettledWriter(w, step, t, u);
      } else {
        assert w'.sys.lock == Some(t) && BothWrote(w'.sys, t, u);
        WriterBefore(w.sys, step, u);
        ValidatedLater(w.sys, u, t);
      }
    }
  }

  lemma SettledWriter(w: World, step: Step, t: TxId, u: TxId)
    requires Inv(w.sys) && Clean(w.sys, step) && Settled(w, t, u) && Writer(w.sys, t) && t != u && u in w.sys.txs
    requires var s' := Apply(w.sys, step).0;
             && t in s'.txs && s'.txs[t].writeSet == w.sys.txs[t].writeSet && s'.txs[t].writeSet != map[]
             && u in s'.txs && s'.txs[u].snapshot == w.sys.txs[u].snapshot && t <= s'.txs[u].snapshot
             && (IsRunning(s', u) || BothWrote(s', t, u))
             && (IsRunning(s', u) ==> IsRunning(w.sys, u))
             && (Writer(s', u) && !IsRunning(w.sys, u) ==> s'.txs[u] == w.sys.txs[u])
    ensures FinishedBefore(w.trace, t, u)
  {
  }

  lemma SettledStep(w: World, step: Step, t: TxId, u: TxId)
    requires Inv(w.sys) && ReadsOk(w.sys) && History(w.sys) && Clean(w.sys, step) && FinishKnown(w, t)
    requires Settled(w, t, u) && !Together(Next(w, step).sys, t, u)
    ensures Settled(Next(w, step), t, u)
  {
    if u in w.sys.txs {
      SettledOthers(w, step, t, u);
    } else if u in Next(w, step).sys.txs {
      if IsRunning(Next(w, step).sys, u) || Next(w, step).sys.txs[u].writeSet != map[] {
        ReaderBefore(w.sys, step, u);
        SettledBegin(w, t, u);
      }
    }
  }

  lemma {:induction false} RunSettled(d: nat, run: seq<Step>, t: TxId, u: TxId)
    requires CleanRun(d, run) && NeverTogether(d, run, t, u)
    ensures Settled(Run(d, run), t, u)
  {
    if run != [] {
      var n := |run| - 1;
      assert run[..n + 1] == run && !Together(Run(d, run).sys, t, u);
      forall m | 0 <= m <= n ensures !Together(Run(d, run[..n][..m]).sys, t, u) {
        assert run[..n][..m] == run[..m];
      }
      RunSettled(d, run[..n], t, u);
      RunHistory(d, run[..n]);
      RunFinishKnown(d, run[..n], t);
      SettledStep(Run(d, run[..n]), run[n], t, u);
    }
  }

  lemma FinishedStays(trace: seq<Event>, t: TxId, j: nat, n: nat)
    requires j <= n <= |trace| && HasFinished(trace[..j], t)
    ensures HasFinished(trace[..n], t)
  {
    var i :| 0 <= i < j && trace[..j][i] == Event(FinishCommit(t), Done);
    assert trace[..n][i] == Event(FinishCommit(t), Done);
  }

  /** If t was over before u began, t never again holds the lock while u runs, and did not before. */
  lemma BeforeIsApart(d: nat, run: seq<Step>, t: TxId, u: TxId, n: nat)
    requires CleanRun(d, run) && FinishedBefore(Run(d, run).trace, t, u) && n <= |run|
    ensures !Together(Run(d, run[..n]).sys, t, u)
  {
    TraceAt(d, run, 0);
    var trace := Run(d, run).trace;
    var j :| 0 <= j < |trace| && trace[j] == Event(Begin, Began(u)) && HasFinished(trace[..j], t);
    TraceAt(d, run, j);
    TraceAt(d, run, n);
    CleanPart(d, run, j);
    CleanPart(d, run, n);
    RunInv(d, run[..j]);
    RunInv(d, run[..n]);
    if n <= j {
      TxsOfPart(d, run, n, j);
      var s := Run(d, run[..j]).sys;
      assert u == s.counter + 1 && u in s.txs ==> TxOk(s, u);
    } else {
      RunFinishKnown(d, run[..n], t);
      FinishedStays(trace, t, j, n);
      assert TxOk(Run(d, run[..n]).sys, t);
    }
  }

  lemma {:induction false} TxsOfPart(d: nat, run: seq<Step>, n: nat, m: nat)
    requires n <= m <= |run|
    ensures Run(d, run[..n]).sys.txs.Keys <= Run(d, run[..m]).sys.txs.Keys
  {
    if n < m {
      TxsOfPart(d, run, n, m - 1);
      var w := Run(d, run[..m - 1]);
      assert run[..m][..m - 1] == run[..m - 1] && run[..m][m - 1] == run[m - 1];
      assert Run(d, run[..m]) == Next(w, run[m - 1]);
      TxsStay(w.sys, run[m - 1]);
    }
  }

  /**
   * Two transactions have committed a common key. By their IDs one comes
   * first; its commit was over before the other began exactly if it never
   * held the commit lock while the other was running.
   */
  lemma OverlapIff(d: nat, run: seq<Step>, t: TxId, u: TxId)
    requires CleanRun(d, run) && BothWrote(Run(d, run).sys, t, u)
    ensures t <= Run(d, run).sys.txs[u].snapshot || u <= Run(d, run).sys.txs[t].snapshot
    ensures t <= Run(d, run).sys.txs[u].snapshot ==>
              (FinishedBefore(Run(d, run).trace, t, u) <==> NeverTogether(d, run, t, u))
  {
    RunHistory(d, run);
    assert IdsApart(Run(d, run).sys, t, u);
    if t <= Run(d, run).sys.txs[u].snapshot {
      if FinishedBefore(Run(d, run).trace, t, u) {
        forall n | 0 <= n <= |run| ensures !Together(Run(d, run[..n]).sys, t, u) { BeforeIsApart(d, run, t, u, n); }
      }
      if NeverTogether(d, run, t, u) { RunSettled(d, run, t, u); }
    }
  }

  /** Snapshots never change. */
  lemma SnapshotKept(s: Sys, step: Step, u: TxId)
    requires Inv(s) && u in s.txs
    ensures u in Apply(s, step).0.txs && Apply(s, step).0.txs[u].snapshot == s.txs[u].snapshot
  {
    assert TxOk(s, u);
    match step {
      case NestStore(id, vector, meta) =>
      case StartCommit(t) =>
      case _ =>
    }
  }

  lemma {:induction false} SnapshotOfPart(d: nat, run: seq<Step>, n: nat, u: TxId)
    requires CleanRun(d, run) && n <= |run| && u in Run(d, run[..n]).sys.txs
    ensures u in Run(d, run).sys.txs && Run(d, run).sys.txs[u].snapshot == Run(d, run[..n]).sys.txs[u].snapshot
  {
    if n == |run| {
      assert run[..n] == run;
    } else {
      var run' := run[..|run| - 1];
      assert run'[..n] == run[..n];
      SnapshotOfPart(d, run', n, u);
      RunInv(d, run');
      SnapshotKept(Run(d, run').sys, run[|run| - 1], u);
    }
  }

  /**
   * First committer wins: in a clean ordered run, of two transactions that
   * committed a common key one had finished before the other began.
   */
  lemma FirstCommitterFinished(d: nat, run: seq<Step>, t: TxId, u: TxId)
    requires CleanRun(d, run) && OrderedRun(d, run) && BothWrote(Run(d, run).sys, t, u)
    ensures FinishedBefore(Run(d, run).trace, t, u) || FinishedBefore(Run(d, run).trace, u, t)
  {
    OverlapIff(d, run, t, u);
    OverlapIff(d, run, u, t);
    if t <= Run(d, run).sys.txs[u].snapshot { OrderedApart(d, run, t, u); } else { OrderedApart(d, run, u, t); }
  }

  lemma OrderedApart(d: nat, run: seq<Step>, t: TxId, u: TxId)
    requires CleanRun(d, run) && OrderedRun(d, run) && u in Run(d, run).sys.txs && t != u
    requires t <= Run(d, run).sys.txs[u].snapshot
    ensures NeverTogether(d, run, t, u)
  {
    forall n | 0 <= n <= |run| ensures !Together(Run(d, run[..n]).sys, t, u) {
      OrderedPart(d, run, n);
      if u in Run(d, run[..n]).sys.txs { SnapshotOfPart(d, run, n, u); }
      assert Ordered(Run(d, run[..n]).sys);
    }
  }
}
