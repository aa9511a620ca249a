/**
 * Transactions that are over: rolled back, refused, failed or committed. In
 * every run, clean or not, they stay so, and no version of theirs appears any
 * more.
 */
module MvccOver {
  import opened Base
  import opened VersionChains
  import opened MvccModel

  predicate IsOver(s: Sys, t: TxId) {
    t in s.txs && (s.txs[t].status.Committed? || s.txs[t].status.Aborted?)
  }

  /** The step and its answer put an end to t. */
  predicate Ends(step: Step, obs: Obs, t: TxId) {
    || (step == Rollback(t) && obs == Done)
    || (step in {StartCommit(t), LogFails(t)} && obs in {Conflict, LogFailed})
    || (step.PublishFails? && step.t == t && obs == PersistFailed)
    || (step == FinishCommit(t) && obs == Done)
  }

  /** The steps that the caller of a transaction can make it take. */
  predicate Called(step: Step, t: TxId) {
    match step
    case Get(u, _) => u == t
    case Store(u, _, _, _) => u == t
    case Remove(u, _) => u == t
    case StartCommit(u) => u == t
    case LogFails(u) => u == t
    case Rollback(u) => u == t
    case _ => false
  }

  /** Every version that waits to be published carries the number of its transaction. */
  ghost predicate OwnNumbers(s: Sys) {
    forall u :: u in s.txs ==>
      u <= s.counter && forall k :: k in s.txs[u].writeSet ==> s.txs[u].writeSet[k].version == u
  }

  /** No chain has a version of t that it did not have. */
  ghost predicate NoneAdded(before: Sys, after: Sys, t: TxId) {
    forall k, v :: v in ChainOf(after, k) && v.version == t ==> v in ChainOf(before, k)
  }

  lemma OwnNumbersStep(s: Sys, step: Step)
    requires OwnNumbers(s)
    ensures OwnNumbers(Apply(s, step).0)
  {
  }

  lemma {:induction false} RunOwnNumbers(d: nat, run: seq<Step>)
    ensures OwnNumbers(Run(d, run).sys)
  {
    if run != [] {
      RunOwnNumbers(d, run[..|run| - 1]);
      OwnNumbersStep(Run(d, run[..|run| - 1]).sys, run[|run| - 1]);
    }
  }

  lemma CollectAddsNone(s: Sys, t: TxId)
    ensures NoneAdded(s, Collected(s), t)
  {
    forall k, v | v in ChainOf(Collected(s), k) ensures v in ChainOf(s, k) {
      CutIsPrefix(s.chains[k], Floor(s));
    }
  }

  /** A transaction that is over is not touched by any step, refuses its own, and gets no version published. */
  lemma OverStep(s: Sys, step: Step, t: TxId)
    requires OwnNumbers(s) && IsOver(s, t)
    ensures var now := Apply(s, step).0;
            t in now.txs && now.txs[t] == s.txs[t] && NoneAdded(s, now, t)
    ensures Called(step, t) ==> Apply(s, step) == (s, NotActive)
  {
    match step
    case CollectGarbage => CollectAddsNone(s, t);
    case _ =>
  }

  lemma {:induction false} OverStays(s: Sys, t: TxId, steps: seq<Step>)
    requires OwnNumbers(s) && IsOver(s, t)
    ensures var now := ApplyAll(s, steps);
            && OwnNumbers(now) && t in now.txs && now.txs[t] == s.txs[t] && NoneAdded(s, now, t)
            && forall step :: Called(step, t) ==> Apply(now, step) == (now, NotActive)
  {
    if steps == [] {
      forall step | Called(step, t) ensures Apply(s, step) == (s, NotActive) { OverStep(s, step, t); }
    } else {
      var before, now := ApplyAll(s, steps[..|steps| - 1]), ApplyAll(s, steps);
      OverStays(s, t, steps[..|steps| - 1]);
      OverStep(before, steps[|steps| - 1], t);
      OwnNumbersStep(before, steps[|steps| - 1]);
      forall step | Called(step, t) ensures Apply(now, step) == (now, NotActive) { OverStep(now, step, t); }
    }
  }

  /** What the ending steps leave: committed after a finished commit, aborted and emptied otherwise. */
  lemma EndsIt(s: Sys, step: Step, t: TxId)
    requires Ends(step, Apply(s, step).1, t)
    ensures IsOver(Apply(s, step).0, t)
    ensures Apply(s, step).0.txs[t].status == if step.FinishCommit? then Committed else Aborted
    ensures !step.FinishCommit? ==> Apply(s, step).0.txs[t].writeSet == map[]
    ensures !step.PublishFails? ==> Apply(s, step).0.chains == s.chains
  {
  }

  /** A transaction that is not committing can always be rolled back, unless it is over. */
  lemma RollbackEnds(s: Sys, t: TxId)
    requires t in s.txs && !s.txs[t].status.Committing?
    ensures IsOver(s, t) <==> Apply(s, Rollback(t)).1 == NotActive
    ensures !IsOver(s, t) ==> Ends(Rollback(t), Apply(s, Rollback(t)).1, t)
  {
  }

  /**
   * Over is over: after a step that ended t in any run, and whatever follows,
   * t keeps its record, every call on it is answered with not active and does
   * nothing, and no chain ever gains a version written by t.
   */
  lemma OverForGood(d: nat, run: seq<Step>, step: Step, t: TxId, steps: seq<Step>)
    requires Ends(step, Apply(Run(d, run).sys, step).1, t)
    ensures var ended := Apply(Run(d, run).sys, step).0;
            var now := ApplyAll(ended, steps);
            && t in now.txs && now.txs[t].status == (if step.FinishCommit? then Committed else Aborted)
            && (forall call :: Called(call, t) ==> Apply(now, call) == (now, NotActive))
            && NoneAdded(ended, now, t)
  {
    RunOwnNumbers(d, run);
    OwnNumbersStep(Run(d, run).sys, step);
    EndsIt(Run(d, run).sys, step, t);
    OverStays(Apply(Run(d, run).sys, step).0, t, steps);
  }
}
