/**
 * mvcc.go and transaction.go as a state machine. One step is one critical
 * section of the code; a commit is a step that validates and logs under the
 * commit lock, one publication step per written key in any order, and a closing step.
 * A run is any sequence of steps: a step the code would refuse or make wait
 * leaves the state as it is.
 */
module MvccModel {
  import opened Base
  import opened VersionChains

  /** Committing: the transaction holds the commit lock and has yet to publish these keys. */
  datatype Status = Active | Committing(remaining: set<Id>) | Committed | Aborted

  datatype TxRec = TxRec(
    snapshot: TxId,
    status: Status,
    readSet: map<Id, TxId>,
    writeSet: map<Id, Version>)
  {
    /** Registered in activeTxs. */
    predicate Running() {
      status.Active? || status.Committing?
    }
  }

  datatype Sys = Sys(
    dimensions: nat,
    counter: TxId,
    last: TxId,
    chains: map<Id, Chain>,
    txs: map<TxId, TxRec>,
    lock: Option<TxId>)

  /** What a Treasure carries besides its ID. */
  datatype Value = Value(vector: Option<Vector>, meta: Option<Meta>)

  datatype Step =
    | Begin
    | Get(t: TxId, id: Id)
    | Store(t: TxId, id: Id, vector: Vector, meta: Option<Meta>)
    | Remove(t: TxId, id: Id)
    | StartCommit(t: TxId)
    | Publish(t: TxId, id: Id)
    | LogFails(t: TxId)
    | PublishFails(t: TxId, id: Id)
    | IndexFails(t: TxId)
    | FinishCommit(t: TxId)
    | Rollback(t: TxId)
    | CollectGarbage
    | NestStore(id: Id, vector: Vector, meta: Option<Meta>)

  /** What the caller of the step observes. */
  datatype Obs =
    | Began(t: TxId)
    | Found(value: Value)
    | NotFound
    | Done
    | InvalidId
    | InvalidDimensions
    | NotActive
    | Waiting
    | Validated
    | Conflict
    | LogFailed
    | PersistFailed
    | IndexFailed
    | Stored(t: TxId)

  /** NewMVCCManager on an empty database opened with this Dimensions option. */
  function Init(dimensions: nat): Sys {
    Sys(dimensions, 0, 0, map[], map[], None)
  }

  function ChainOf(s: Sys, id: Id): Chain {
    if id in s.chains then s.chains[id] else []
  }

  function ValueOf(v: Version): Value {
    Value(v.vector, v.meta)
  }

  predicate IsActive(s: Sys, t: TxId) {
    t in s.txs && s.txs[t].status.Active?
  }

  predicate IsRunning(s: Sys, t: TxId) {
    t in s.txs && s.txs[t].Running()
  }

  /** CreateVersion: a version not yet in any chain. */
  function NewVersion(t: TxId, id: Id, vector: Vector, meta: Option<Meta>): Version {
    Version(id, Some(vector), meta, t, t, 0)
  }

  /** Remove's marker: it copies the creator of the version it hides. */
  function DeleteMarker(t: TxId, id: Id, hidden: Version): Version {
    Version(id, None, None, t, hidden.createdByTx, t)
  }

  /** AddVersion: the new version becomes the head. */
  function Added(s: Sys, id: Id, v: Version): Sys {
    s.(chains := s.chains[id := [v] + ChainOf(s, id)])
  }

  /** The read part of ValidateTransaction, for one key. */
  predicate ReadHolds(c: Chain, version: TxId, snapshot: TxId) {
    c == [] || c[0].version == version || c[0].createdByTx <= snapshot
  }

  /** The blind-write part of ValidateTransaction, for one key. */
  predicate WriteHolds(c: Chain, snapshot: TxId) {
    c == [] || c[0].createdByTx <= snapshot
  }

  ghost predicate Validates(s: Sys, rec: TxRec) {
    && (forall id :: id in rec.readSet ==> ReadHolds(ChainOf(s, id), rec.readSet[id], rec.snapshot))
    && (forall id :: id in rec.writeSet && id !in rec.readSet ==> WriteHolds(ChainOf(s, id), rec.snapshot))
  }

  /** The floor garbage collection uses: the least of lastCommittedTx and the running snapshots. */
  ghost predicate IsFloor(s: Sys, m: TxId) {
    && m <= s.last
    && (forall t :: IsRunning(s, t) ==> m <= s.txs[t].snapshot)
    && (m == s.last || exists t :: IsRunning(s, t) && m == s.txs[t].snapshot)
  }

  lemma {:induction false} FloorExistsFor(s: Sys, ts: set<TxId>) returns (m: TxId)
    requires ts <= s.txs.Keys
    ensures m <= s.last
    ensures forall t :: t in ts && s.txs[t].Running() ==> m <= s.txs[t].snapshot
    ensures m == s.last || exists t :: IsRunning(s, t) && m == s.txs[t].snapshot
  {
    if ts == {} {
      m := s.last;
    } else {
      var t :| t in ts;
      m := FloorExistsFor(s, ts - {t});
      if s.txs[t].Running() && s.txs[t].snapshot < m {
        m := s.txs[t].snapshot;
        assert IsRunning(s, t);
      }
    }
  }

  lemma FloorExists(s: Sys)
    ensures exists m :: IsFloor(s, m)
  {
    var m := FloorExistsFor(s, s.txs.Keys);
    assert IsFloor(s, m);
  }

  ghost function Floor(s: Sys): (m: TxId)
    ensures IsFloor(s, m)
  {
    FloorExists(s);
    var m :| IsFloor(s, m);
    m
  }

  lemma FloorIsUnique(s: Sys, m: TxId)
    requires IsFloor(s, m)
    ensures m == Floor(s)
  {
  }

  function Aborting(s: Sys, t: TxId): Sys
    requires t in s.txs
  {
    s.(txs := s.txs[t := TxRec(s.txs[t].snapshot, Aborted, map[], map[])],
       lock := if s.lock == Some(t) then None else s.lock)
  }

  ghost function Collected(s: Sys): Sys {
    s.(chains := map k | k in s.chains && Cut(s.chains[k], Floor(s)) != [] :: Cut(s.chains[k], Floor(s)))
  }

  /** Every chain is trimmed, and none is gone that had a version. */
  ghost predicate AllTrimmed(before: map<Id, Chain>, after: map<Id, Chain>, floor: TxId) {
    && after.Keys <= before.Keys && (forall id :: id in before && before[id] != [] ==> id in after)
    && forall id :: id in after ==> Trimmed(before[id], after[id], floor)
  }

  lemma CollectedTrimmed(s: Sys)
    ensures AllTrimmed(s.chains, Collected(s).chains, Floor(s))
  {
    forall id | id in s.chains ensures Trimmed(s.chains[id], Cut(s.chains[id], Floor(s)), Floor(s)) {
      TrimmedIff(s.chains[id], Cut(s.chains[id], Floor(s)), Floor(s));
    }
  }

  function ApplyGet(s: Sys, t: TxId, id: Id): (Sys, Obs)
    requires IsActive(s, t)
  {
    var rec := s.txs[t];
    if id in rec.writeSet then
      (s, if rec.writeSet[id].deletedByTx != 0 then NotFound else Found(ValueOf(rec.writeSet[id])))
    else
      match VisibleIn(ChainOf(s, id), rec.snapshot)
      case None => (s, NotFound)
      case Some(v) =>
        (s.(txs := s.txs[t := rec.(readSet := rec.readSet[id := v.version])]), Found(ValueOf(v)))
  }

  function ApplyStore(s: Sys, t: TxId, id: Id, vector: Vector, meta: Option<Meta>): (Sys, Obs)
    requires IsActive(s, t)
  {
    if id == [] || |id| > MAX_ID_LENGTH then (s, InvalidId)
    else if s.dimensions != 0 && |vector| != s.dimensions then (s, InvalidDimensions)
    else
      var rec := s.txs[t];
      (s.(txs := s.txs[t := rec.(writeSet := rec.writeSet[id := NewVersion(t, id, vector, meta)])]), Done)
  }

  function ApplyRemove(s: Sys, t: TxId, id: Id): (Sys, Obs)
    requires IsActive(s, t)
  {
    var rec := s.txs[t];
    if id in rec.writeSet then
      var marked := rec.writeSet[id].(deletedByTx := t);
      (s.(txs := s.txs[t := rec.(writeSet := rec.writeSet[id := marked])]), Done)
    else
      match VisibleIn(ChainOf(s, id), rec.snapshot)
      case None => (s, NotFound)
      case Some(v) =>
        (s.(txs := s.txs[t := rec.(writeSet := rec.writeSet[id := DeleteMarker(t, id, v)])]), Done)
  }

  ghost function ApplyStartCommit(s: Sys, t: TxId): (Sys, Obs)
    requires IsActive(s, t)
  {
    var rec := s.txs[t];
    if s.lock != None then (s, Waiting)
    else if !Validates(s, rec) then (Aborting(s, t), Conflict)
    else (s.(txs := s.txs[t := rec.(status := Committing(rec.writeSet.Keys))], lock := Some(t)), Validated)
  }

  /** The transaction holds the lock and this key is one it has still to publish. */
  predicate MayPublish(s: Sys, t: TxId, id: Id) {
    && s.lock == Some(t) && t in s.txs
    && s.txs[t].status.Committing? && id in s.txs[t].status.remaining && id in s.txs[t].writeSet
  }

  function Published(s: Sys, t: TxId, id: Id): Sys
    requires MayPublish(s, t, id)
  {
    var rec := s.txs[t];
    Added(s, id, rec.writeSet[id]).(txs := s.txs[t := rec.(status := Committing(rec.status.remaining - {id}))])
  }

  /** A commit whose log write fails, after validation and before anything is visible. */
  ghost function ApplyLogFails(s: Sys, t: TxId): (Sys, Obs)
    requires IsActive(s, t)
  {
    if s.lock != None then (s, Waiting)
    else (Aborting(s, t), if Validates(s, s.txs[t]) then LogFailed else Conflict)
  }

  predicate MayFinish(s: Sys, t: TxId) {
    s.lock == Some(t) && t in s.txs && s.txs[t].status == Committing({})
  }

  function Finished(s: Sys, t: TxId): Sys
    requires MayFinish(s, t)
  {
    s.(last := Max(s.last, t), txs := s.txs[t := s.txs[t].(status := Committed)], lock := None)
  }

  /** The index update fails when everything is published: the lock is released, and the transaction stays open. */
  function Reopened(s: Sys, t: TxId): Sys
    requires MayFinish(s, t)
  {
    s.(txs := s.txs[t := s.txs[t].(status := Active)], lock := None)
  }

  /** Nest.Store: begin, add and commit at once, without validation and without the commit lock. */
  function ApplyNestStore(s: Sys, id: Id, vector: Vector, meta: Option<Meta>): (Sys, Obs) {
    if id == [] || |id| > MAX_ID_LENGTH then (s, InvalidId)
    else if s.dimensions != 0 && |vector| != s.dimensions then (s, InvalidDimensions)
    else
      var t := s.counter + 1;
      var added := Added(s, id, NewVersion(t, id, vector, meta));
      (added.(dimensions := |vector|, counter := t, last := Max(s.last, t),
              txs := s.txs[t := TxRec(s.last, Committed, map[], map[])]),
       Stored(t))
  }

  ghost function Apply(s: Sys, step: Step): (Sys, Obs) {
    match step
    case Begin =>
      var t := s.counter + 1;
      (s.(counter := t, txs := s.txs[t := TxRec(s.last, Active, map[], map[])]), Began(t))
    case Get(t, id) => if IsActive(s, t) then ApplyGet(s, t, id) else (s, NotActive)
    case Store(t, id, vector, meta) =>
      if IsActive(s, t) then ApplyStore(s, t, id, vector, meta) else (s, NotActive)
    case Remove(t, id) => if IsActive(s, t) then ApplyRemove(s, t, id) else (s, NotActive)
    case StartCommit(t) => if IsActive(s, t) then ApplyStartCommit(s, t) else (s, NotActive)
    case Publish(t, id) => if MayPublish(s, t, id) then (Published(s, t, id), Done) else (s, Waiting)
    case LogFails(t) => if IsActive(s, t) then ApplyLogFails(s, t) else (s, NotActive)
    case PublishFails(t, id) =>
      if MayPublish(s, t, id) then (Aborting(Published(s, t, id), t), PersistFailed) else (s, Waiting)
    case FinishCommit(t) => if MayFinish(s, t) then (Finished(s, t), Done) else (s, Waiting)
    case IndexFails(t) => if MayFinish(s, t) then (Reopened(s, t), IndexFailed) else (s, Waiting)
    case Rollback(t) => if IsActive(s, t) then (Aborting(s, t), Done) else (s, NotActive)
    case CollectGarbage => (Collected(s), Done)
    case NestStore(id, vector, meta) => ApplyNestStore(s, id, vector, meta)
  }

  /** The state after some more steps. */
  ghost function ApplyAll(s: Sys, steps: seq<Step>): Sys {
    if steps == [] then s else Apply(ApplyAll(s, steps[..|steps| - 1]), steps[|steps| - 1]).0
  }

  lemma ApplySnoc(s: Sys, steps: seq<Step>, step: Step)
    ensures ApplyAll(s, steps + [step]) == Apply(ApplyAll(s, steps), step).0
  {
    assert (steps + [step])[..|steps|] == steps;
  }

  lemma {:induction false} ApplyCat(s: Sys, a: seq<Step>, b: seq<Step>)
    ensures ApplyAll(s, a + b) == ApplyAll(ApplyAll(s, a), b)
  {
    if b == [] {
      assert a + b == a;
    } else {
      ApplyCat(s, a, b[..|b| - 1]);
      assert (a + b)[..|a + b| - 1] == a + b[..|b| - 1];
    }
  }

  datatype Event = Event(step: Step, obs: Obs)

  /** The state a run reaches from a start state, and the events along the way. */
  datatype World = World(sys: Sys, trace: seq<Event>)

  ghost function Next(w: World, step: Step): World {
    var (s, obs) := Apply(w.sys, step);
    World(s, w.trace + [Event(step, obs)])
  }

  ghost function Run(dimensions: nat, run: seq<Step>): World {
    if run == [] then World(Init(dimensions), [])
    else Next(Run(dimensions, run[..|run| - 1]), run[|run| - 1])
  }

  /** The n-th event of a run is that of its n-th step, in the state that the steps before it reach. */
  lemma {:induction false} TraceAt(d: nat, run: seq<Step>, n: nat)
    requires n <= |run|
    ensures |Run(d, run).trace| == |run| && Run(d, run).trace[..n] == Run(d, run[..n]).trace
    ensures n < |run| ==> Run(d, run).trace[n] == Event(run[n], Apply(Run(d, run[..n]).sys, run[n]).1)
  {
    if n == |run| {
      assert run[..n] == run;
      if n > 0 { TraceAt(d, run[..n - 1], n - 1); }
    } else {
      var run' := run[..|run| - 1];
      TraceAt(d, run', n);
      assert run'[..n] == run[..n];
    }
  }
}
