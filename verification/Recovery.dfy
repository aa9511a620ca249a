/**
 * recovery.go: replaying the log onto what was loaded from the pages.
 */
module Recovery {
  import opened Base
  import opened WalCodec
  import opened WalReader
  import WalLog

  const WAL_INSERT: byte := 1
  const WAL_DELETE: byte := 2
  const WAL_UPDATE: byte := 3
  const COUNT_LIMIT := 0x1_0000_0000_0000_0000

  predicate Known(e: Entry) {
    WAL_INSERT <= e.kind <= WAL_UPDATE
  }

  /** An insert keeps what is there; an update does not. */
  function Effect(v: map<Id, Vector>, e: Entry): map<Id, Vector> {
    if e.kind == WAL_INSERT then if e.id in v then v else v[e.id := e.vector]
    else if e.kind == WAL_DELETE then v - {e.id}
    else if e.kind == WAL_UPDATE then v[e.id := e.vector]
    else v
  }

  function Replay(v: map<Id, Vector>, es: seq<Entry>): map<Id, Vector> {
    if es == [] then v else Effect(Replay(v, es[..|es| - 1]), es[|es| - 1])
  }

  function Lookup(v: map<Id, Vector>, id: Id): Option<Vector> {
    if id in v then Some(v[id]) else None
  }

  /** What a log does to one ID. */
  function KeyAfter(x: Option<Vector>, es: seq<Entry>, id: Id): Option<Vector> {
    if es == [] then x
    else
      var before, e := KeyAfter(x, es[..|es| - 1], id), es[|es| - 1];
      if e.id != id then before
      else if e.kind == WAL_INSERT then if before.Some? then before else Some(e.vector)
      else if e.kind == WAL_DELETE then None
      else if e.kind == WAL_UPDATE then Some(e.vector)
      else before
  }

  lemma {:induction false} ReplayByKey(v: map<Id, Vector>, es: seq<Entry>, id: Id)
    ensures Lookup(Replay(v, es), id) == KeyAfter(Lookup(v, id), es, id)
  {
    if es != [] { ReplayByKey(v, es[..|es| - 1], id); }
  }

  /** The log decides the ID by itself: it has a delete or an update of it. */
  predicate Decided(es: seq<Entry>, id: Id) {
    exists i :: 0 <= i < |es| && es[i].id == id && (es[i].kind == WAL_DELETE || es[i].kind == WAL_UPDATE)
  }

  lemma {:induction false} DecidedForgets(x: Option<Vector>, y: Option<Vector>, es: seq<Entry>, id: Id)
    requires Decided(es, id)
    ensures KeyAfter(x, es, id) == KeyAfter(y, es, id)
  {
    var n := |es| - 1;
    if !(es[n].id == id && (es[n].kind == WAL_DELETE || es[n].kind == WAL_UPDATE)) {
      var i :| 0 <= i < |es| && es[i].id == id && (es[i].kind == WAL_DELETE || es[i].kind == WAL_UPDATE);
      assert es[..n][i] == es[i];
      DecidedForgets(x, y, es[..n], id);
    }
  }

  /** Without a delete or an update, a value once there stays. */
  lemma {:induction false} UndecidedKeeps(x: Option<Vector>, es: seq<Entry>, n: nat, id: Id)
    requires !Decided(es, id) && n <= |es| && KeyAfter(x, es[..n], id).Some?
    ensures KeyAfter(x, es, id) == KeyAfter(x, es[..n], id)
  {
    if n < |es| {
      var k := |es| - 1;
      assert es[..k][..n] == es[..n];
      forall i | 0 <= i < k ensures es[..k][i] == es[i] {}
      UndecidedKeeps(x, es[..k], n, id);
    } else {
      assert es[..n] == es;
    }
  }

  lemma KeyTwice(x: Option<Vector>, es: seq<Entry>, n: nat, id: Id)
    requires n <= |es|
    ensures KeyAfter(KeyAfter(x, es[..n], id), es, id) == KeyAfter(x, es, id)
  {
    var y := KeyAfter(x, es[..n], id);
    if Decided(es, id) {
      DecidedForgets(x, y, es, id);
    } else {
      assert es[..0] == [];
      if y.Some? {
        UndecidedKeeps(x, es, n, id);
        UndecidedKeeps(y, es, 0, id);
      } else if x.Some? {
        assert es[..n][..0] == [];
        forall i | 0 <= i < n ensures es[..n][i] == es[i] {}
        UndecidedKeeps(x, es[..n], 0, id);
      }
    }
  }

  predicate Inserts(e: Entry, id: Id) {
    e.id == id && e.kind == WAL_INSERT
  }

  predicate Decides(e: Entry, id: Id) {
    e.id == id && e.kind in {WAL_DELETE, WAL_UPDATE}
  }

  /** From here on the log only has inserts of the ID: the first one counts, if the ID is not there. */
  lemma {:induction false} OnlyInserts(x: Option<Vector>, es: seq<Entry>, id: Id, from: nat, j: nat)
    requires from <= j <= |es| && forall i :: from <= i < |es| ==> !Decides(es[i], id)
    requires forall i :: from <= i < j ==> !Inserts(es[i], id)
    ensures var before := KeyAfter(x, es[..from], id);
            && (before.Some? || j == |es| ==> KeyAfter(x, es, id) == before)
            && (before.None? && j < |es| && Inserts(es[j], id) ==> KeyAfter(x, es, id) == Some(es[j].vector))
  {
    if |es| == from {
      assert es[..from] == es;
    } else {
      var n := |es| - 1;
      assert es[..n][..from] == es[..from];
      OnlyInserts(x, es[..n], id, from, Min(j, n));
    }
  }

  /**
   * What a replay leaves of an ID. If i is its last update or delete, an update
   * leaves its own vector; after a delete, or with neither and the ID not there
   * before, it is the vector of the first insert that follows, or nothing; and
   * with neither an ID that was there keeps its vector.
   */
  lemma ReplayedVector(v: map<Id, Vector>, es: seq<Entry>, id: Id, i: int, j: nat)
    requires -1 <= i < j <= |es| && (i >= 0 ==> Decides(es[i], id))
    requires forall k :: i < k < |es| ==> !Decides(es[k], id)
    requires (forall k :: i < k < j ==> !Inserts(es[k], id)) && (j < |es| ==> Inserts(es[j], id))
    ensures Lookup(Replay(v, es), id) ==
            if i >= 0 && es[i].kind == WAL_UPDATE then Some(es[i].vector)
            else if i == -1 && id in v then Some(v[id])
            else if j < |es| then Some(es[j].vector) else None
  {
    ReplayByKey(v, es, id);
    OnlyInserts(Lookup(v, id), es, id, i + 1, j);
    if i >= 0 { assert es[..i + 1][..i] == es[..i]; }
  }

  /** Replaying part of a log and then, after a crash, all of it is like replaying it once. */
  lemma ReplayTwice(v: map<Id, Vector>, es: seq<Entry>, n: nat)
    requires n <= |es|
    ensures Replay(Replay(v, es[..n]), es) == Replay(v, es)
  {
    var once, twice := Replay(v, es), Replay(Replay(v, es[..n]), es);
    forall id ensures Lookup(twice, id) == Lookup(once, id) {
      ReplayByKey(v, es[..n], id);
      ReplayByKey(Replay(v, es[..n]), es, id);
      ReplayByKey(v, es, id);
      KeyTwice(Lookup(v, id), es, n, id);
    }
    forall id ensures id in twice <==> id in once { assert Lookup(twice, id) == Lookup(once, id); }
    forall id | id in once ensures twice[id] == once[id] { assert Lookup(twice, id) == Lookup(once, id); }
  }

  /**
   * From bytes to map: whatever part of a log a crash leaves in its file, and
   * however far an earlier recovery got, recovery either fails because the cut
   * is right after a length, or gives what the whole entries give.
   */
  lemma CrashRecovery(env: Env, ops: seq<WalLog.Op>, n: nat, v: map<Id, Vector>, done: nat)
    requires JsonOk(env) && WalLog.Proper(env, ops) && WalLog.Appends(ops) < WalLog.SEQ_LIMIT
    requires n <= |LogBytes(env, WalLog.Run(env, WalLog.Log([], [], 0), ops).flushed)|
    requires done <= WholeIn(env, WalLog.Run(env, WalLog.Log([], [], 0), ops).flushed, n)
    ensures var es := WalLog.Run(env, WalLog.Log([], [], 0), ops).flushed;
            var k := WholeIn(env, es, n);
            var r := ReadAllOf(env, LogBytes(env, es)[..n]);
            && (r.ReadError? <==> n == |LogBytes(env, es[..k])| + 4)
            && (!r.ReadError? ==> r.Entries? && Replay(Replay(v, es[..done]), r.entries) == Replay(v, es[..k]))
  {
    var es := WalLog.Run(env, WalLog.Log([], [], 0), ops).flushed;
    var k := WholeIn(env, es, n);
    WalLog.Torn(env, ops, n);
    assert es[..k][..done] == es[..done];
    ReplayTwice(v, es[..k], done);
  }

  /** Store logs an insert, whether or not the ID is new. */
  datatype Put = Put(id: Id, vector: Vector)

  function Logged(puts: seq<Put>): (es: seq<Entry>)
    ensures |es| == |puts|
  {
    seq(|puts|, i requires 0 <= i < |puts| => Entry(0, WAL_INSERT, puts[i].id, puts[i].vector, None, 0))
  }

  /** The vectors users see: the last one stored. */
  function Live(v: map<Id, Vector>, puts: seq<Put>): map<Id, Vector> {
    if puts == [] then v else Live(v, puts[..|puts| - 1])[puts[|puts| - 1].id := puts[|puts| - 1].vector]
  }

  /** Each store is of a new ID, or of the vector its ID already has. */
  predicate NeverChanges(v: map<Id, Vector>, puts: seq<Put>) {
    forall i :: 0 <= i < |puts| ==>
      puts[i].id !in Live(v, puts[..i]) || Live(v, puts[..i])[puts[i].id] == puts[i].vector
  }

  /** A crash now recovers what users saw. */
  ghost predicate Recovers(v: map<Id, Vector>, puts: seq<Put>) {
    Replay(v, Logged(puts)) == Live(v, puts)
  }

  lemma LoggedPrefix(puts: seq<Put>)
    requires puts != []
    ensures Logged(puts)[..|puts| - 1] == Logged(puts[..|puts| - 1])
  {
  }

  ghost predicate AlwaysRecovers(v: map<Id, Vector>, puts: seq<Put>) {
    forall n :: 0 <= n <= |puts| ==> Recovers(v, puts[..n])
  }

  lemma AlwaysSnoc(v: map<Id, Vector>, puts: seq<Put>)
    requires puts != []
    ensures AlwaysRecovers(v, puts) <==> AlwaysRecovers(v, puts[..|puts| - 1]) && Recovers(v, puts)
  {
    var front := puts[..|puts| - 1];
    assert puts[..|puts|] == puts;
    forall n | 0 <= n <= |front| ensures puts[..n] == front[..n] {}
  }

  lemma NeverSnoc(v: map<Id, Vector>, puts: seq<Put>)
    requires puts != []
    ensures var p, before := puts[|puts| - 1], Live(v, puts[..|puts| - 1]);
            NeverChanges(v, puts) <==>
            NeverChanges(v, puts[..|puts| - 1]) && (p.id !in before || before[p.id] == p.vector)
  {
    var front := puts[..|puts| - 1];
    forall i | 0 <= i < |front| ensures puts[..i] == front[..i] && puts[i] == front[i] {}
  }

  /** Replay recovers the stored vectors at every moment exactly if no store ever changed a vector. */
  lemma {:induction false} RecoversIff(v: map<Id, Vector>, puts: seq<Put>)
    ensures AlwaysRecovers(v, puts) <==> NeverChanges(v, puts)
  {
    if puts == [] {
      assert Logged([]) == [];
      forall n | 0 <= n <= |puts| ensures Recovers(v, puts[..n]) { assert puts[..n] == []; }
    } else {
      RecoversIff(v, puts[..|puts| - 1]);
      AlwaysSnoc(v, puts);
      NeverSnoc(v, puts);
      if AlwaysRecovers(v, puts[..|puts| - 1]) {
        assert puts[..|puts| - 1][..|puts| - 1] == puts[..|puts| - 1];
        LastRecovers(v, puts);
      }
    }
  }

  lemma LastRecovers(v: map<Id, Vector>, puts: seq<Put>)
    requires puts != [] && Recovers(v, puts[..|puts| - 1])
    ensures var p, before := puts[|puts| - 1], Live(v, puts[..|puts| - 1]);
            Recovers(v, puts) <==> p.id !in before || before[p.id] == p.vector
  {
    LoggedPrefix(puts);
    var p, before := puts[|puts| - 1], Live(v, puts[..|puts| - 1]);
    assert Replay(v, Logged(puts)) == if p.id in before then before else before[p.id := p.vector];
    if p.id in before && before[p.id] == p.vector { assert before[p.id := p.vector] == before; }
    if p.id in before { assert before[p.id := p.vector][p.id] == p.vector; }
  }

  /** The header's count after one entry: 64 bits wide, and not always in step with the map. */
  function Counted(count: nat, v: map<Id, Vector>, e: Entry): nat {
    if e.kind == WAL_INSERT && e.id !in v then if count + 1 == COUNT_LIMIT then 0 else count + 1
    else if e.kind == WAL_DELETE then if count == 0 then COUNT_LIMIT - 1 else count - 1
    else count
  }

  function CountAfter(count: nat, v: map<Id, Vector>, es: seq<Entry>): nat {
    if es == [] then count
    else Counted(CountAfter(count, v, es[..|es| - 1]), Replay(v, es[..|es| - 1]), es[|es| - 1])
  }

  /** A delete or update of an ID that is not there. */
  predicate Misses(v: map<Id, Vector>, e: Entry) {
    (e.kind == WAL_DELETE || e.kind == WAL_UPDATE) && e.id !in v
  }

  function MissCount(v: map<Id, Vector>, es: seq<Entry>): nat {
    if es == [] then 0
    else MissCount(v, es[..|es| - 1]) + if Misses(Replay(v, es[..|es| - 1]), es[|es| - 1]) then 1 else 0
  }

  lemma SizeWith(v: map<Id, Vector>, id: Id, x: Vector)
    ensures |v[id := x]| == if id in v then |v| else |v| + 1
  {
    assert |v| == |v.Keys| && |v[id := x]| == |v[id := x].Keys|;
    assert v[id := x].Keys == v.Keys + {id};
    if id in v { assert v.Keys + {id} == v.Keys; }
  }

  lemma SizeWithout(v: map<Id, Vector>, id: Id)
    ensures |v - {id}| == if id in v then |v| - 1 else |v|
  {
    assert |v| == |v.Keys| && |v - {id}| == |(v - {id}).Keys|;
    assert (v - {id}).Keys == v.Keys - {id};
    if id !in v { assert v.Keys - {id} == v.Keys; }
  }

  /** The count as a difference: the 64-bit counter wraps below zero. */
  function Wrapped(d: int): int {
    if d < 0 then d + COUNT_LIMIT else d
  }

  lemma CountStep(v: map<Id, Vector>, e: Entry, d: int)
    requires -COUNT_LIMIT + 1 < d < COUNT_LIMIT - 1
    ensures var change := |Effect(v, e)| - |v| - if Misses(v, e) then 1 else 0;
            Counted(Wrapped(d), v, e) == Wrapped(d + change) && -1 <= change <= 1
  {
    SizeWith(v, e.id, e.vector);
    SizeWithout(v, e.id);
  }

  /** Every miss leaves the count one short of the map, for good. */
  lemma {:induction false} CountDrifts(v: map<Id, Vector>, es: seq<Entry>)
    requires |v| + |es| < COUNT_LIMIT - 1
    ensures CountAfter(|v|, v, es) == Wrapped(|Replay(v, es)| - MissCount(v, es))
    ensures -|es| <= |Replay(v, es)| - MissCount(v, es) <= |v| + |es| && MissCount(v, es) <= |es|
  {
    if es != [] {
      var n := |es| - 1;
      CountDrifts(v, es[..n]);
      CountStep(Replay(v, es[..n]), es[n], |Replay(v, es[..n])| - MissCount(v, es[..n]));
    }
  }

  lemma WrappedIff(r: nat, misses: nat)
    requires misses < COUNT_LIMIT
    ensures Wrapped(r - misses) == r <==> misses == 0
  {
  }

  /**
   * Replay's own count is right exactly if no entry missed; which is why the
   * count is taken from the index again when replay is over.
   */
  lemma CountRightIff(v: map<Id, Vector>, es: seq<Entry>)
    requires |v| + |es| < COUNT_LIMIT - 1
    ensures CountAfter(|v|, v, es) == |Replay(v, es)| <==> MissCount(v, es) == 0
  {
    CountDrifts(v, es);
    WrappedIff(|Replay(v, es)|, MissCount(v, es));
  }

  /** The entry that a store of a vector logs, before it is numbered. */
  function InsertOf(id: Id, vector: Vector): WalCodec.Entry {
    Entry(0, WAL_INSERT, id, vector, None, 0)
  }

  /** What replay makes of an entry does not depend on its number, metadata or checksum. */
  predicate SameEffect(a: Entry, b: Entry) {
    a.kind == b.kind && a.id == b.id && a.vector == b.vector
  }

  predicate SameEffects(a: seq<Entry>, b: seq<Entry>) {
    |a| == |b| && forall i :: 0 <= i < |a| ==> SameEffect(a[i], b[i])
  }

  lemma {:induction false} ReplaySame(v: map<Id, Vector>, a: seq<Entry>, b: seq<Entry>)
    requires SameEffects(a, b)
    ensures Replay(v, a) == Replay(v, b)
  {
    if a != [] { ReplaySame(v, a[..|a| - 1], b[..|b| - 1]); }
  }

  lemma {:induction false} ReplayCat(v: map<Id, Vector>, a: seq<Entry>, b: seq<Entry>)
    ensures Replay(v, a + b) == Replay(Replay(v, a), b)
  {
    if b == [] {
      assert a + b == a;
    } else {
      var n := |b| - 1;
      ReplayCat(v, a, b[..n]);
      assert (a + b)[..|a + b| - 1] == a + b[..n];
    }
  }

  /** The log calls of stores, one after the other. */
  function StoreOps(puts: seq<Put>): (ops: seq<WalLog.Op>)
    ensures |ops| == |puts| && forall i :: 0 <= i < |puts| ==>
              ops[i] == WalLog.OpAppend(InsertOf(puts[i].id, puts[i].vector))
  {
    if puts == [] then []
    else StoreOps(puts[..|puts| - 1]) + [WalLog.OpAppend(InsertOf(puts[|puts| - 1].id, puts[|puts| - 1].vector))]
  }

  /** Everything appended, whether still in the buffer or not. */
  function AllOf(l: WalLog.Log): seq<Entry> {
    l.flushed + l.buffer
  }

  lemma StepSame(env: Env, l: WalLog.Log, es: seq<Entry>, e: Entry)
    requires SameEffects(AllOf(l), es) && |l.buffer| < WalLog.BATCH
    ensures SameEffects(AllOf(WalLog.Step(env, l, WalLog.OpAppend(e))), es + [e])
    ensures |WalLog.Step(env, l, WalLog.OpAppend(e)).buffer| < WalLog.BATCH
  {
    var last := (l.last + 1) % WalLog.SEQ_LIMIT;
    var s := WalLog.Stamp(env, last, e);
    WalLog.BufferedAtEnd(l, s, last);
    assert SameEffect(s, e);
  }

  lemma {:induction false} StoresLogged(env: Env, puts: seq<Put>)
    ensures var l := WalLog.Run(env, WalLog.Log([], [], 0), StoreOps(puts));
            SameEffects(AllOf(l), Logged(puts)) && |l.buffer| < WalLog.BATCH
  {
    if puts != [] {
      var n := |puts| - 1;
      StoresLogged(env, puts[..n]);
      assert StoreOps(puts)[..n] == StoreOps(puts[..n]);
      StepSame(env, WalLog.Run(env, WalLog.Log([], [], 0), StoreOps(puts[..n])), Logged(puts[..n]),
               InsertOf(puts[n].id, puts[n].vector));
      assert Logged(puts[..n]) + [InsertOf(puts[n].id, puts[n].vector)] == Logged(puts);
    }
  }

  /**
   * What a crash right after the last of n stores leaves in the log: all but
   * the last n % 100 of them, although every one had returned. So from the
   * log the last store is recovered exactly if it filled a batch.
   */
  lemma StoresLostInCrash(env: Env, puts: seq<Put>, v: map<Id, Vector>)
    ensures var l := WalLog.Run(env, WalLog.Log([], [], 0), StoreOps(puts));
            var kept := |puts| - |puts| % WalLog.BATCH;
            && |l.flushed| == kept
            && Replay(v, l.flushed) == Replay(v, Logged(puts[..kept]))
            && (kept == |puts| <==> |puts| % WalLog.BATCH == 0)
  {
    var l := WalLog.Run(env, WalLog.Log([], [], 0), StoreOps(puts));
    var kept := |puts| - |puts| % WalLog.BATCH;
    WalLog.OnlyBatches(env, StoreOps(puts));
    StoresLogged(env, puts);
    FrontSame(l.flushed, l.buffer, Logged(puts), Logged(puts[..kept]));
    ReplaySame(v, l.flushed, Logged(puts[..kept]));
  }

  lemma FrontSame(a: seq<Entry>, b: seq<Entry>, all: seq<Entry>, front: seq<Entry>)
    requires SameEffects(a + b, all) && |front| == |a| && front <= all
    ensures SameEffects(a, front)
  {
    forall i | 0 <= i < |a| ensures SameEffect(a[i], front[i]) { assert (a + b)[i] == a[i]; }
  }

  /** Replayed onto vectors without it, an ID stored for the first time in the lost part of the log is not recovered. */
  lemma LostStoreIsGone(env: Env, puts: seq<Put>, v: map<Id, Vector>, i: nat)
    requires |puts| - |puts| % WalLog.BATCH <= i < |puts|
    requires puts[i].id !in v && forall j :: 0 <= j < i ==> puts[j].id != puts[i].id
    ensures puts[i].id !in Replay(v, WalLog.Run(env, WalLog.Log([], [], 0), StoreOps(puts)).flushed)
  {
    var kept := |puts| - |puts| % WalLog.BATCH;
    StoresLostInCrash(env, puts, v);
    NeverLogged(v, puts[..kept], puts[i].id);
  }

  lemma {:induction false} NeverLogged(v: map<Id, Vector>, puts: seq<Put>, id: Id)
    requires id !in v && forall j :: 0 <= j < |puts| ==> puts[j].id != id
    ensures id !in Replay(v, Logged(puts))
  {
    if puts != [] {
      LoggedPrefix(puts);
      NeverLogged(v, puts[..|puts| - 1], id);
    }
  }

  /** The log calls of a commit: its writes in some order, and a flush. */
  function AppendsOf(order: seq<Id>, writes: map<Id, Vector>): seq<WalLog.Op>
    requires forall i :: 0 <= i < |order| ==> order[i] in writes
  {
    if order == [] then []
    else
      var id := order[|order| - 1];
      AppendsOf(order[..|order| - 1], writes) + [WalLog.OpAppend(InsertOf(id, writes[id]))]
  }

  function CommitOps(order: seq<Id>, writes: map<Id, Vector>): seq<WalLog.Op>
    requires forall i :: 0 <= i < |order| ==> order[i] in writes
  {
    AppendsOf(order, writes) + [WalLog.OpFlush]
  }

  ghost predicate IsOrder(order: seq<Id>, writes: map<Id, Vector>) {
    Unique(order) && forall id :: id in order <==> id in writes
  }

  function InsertsOf(order: seq<Id>, writes: map<Id, Vector>): seq<Entry>
    requires forall i :: 0 <= i < |order| ==> order[i] in writes
  {
    if order == [] then []
    else
      var id := order[|order| - 1];
      InsertsOf(order[..|order| - 1], writes) + [InsertOf(id, writes[id])]
  }

  lemma {:induction false} AppendsLogged(env: Env, l: WalLog.Log, order: seq<Id>, writes: map<Id, Vector>)
    requires |l.buffer| < WalLog.BATCH && forall i :: 0 <= i < |order| ==> order[i] in writes
    ensures var next := WalLog.Run(env, l, AppendsOf(order, writes));
            SameEffects(AllOf(next), AllOf(l) + InsertsOf(order, writes)) && |next.buffer| < WalLog.BATCH
  {
    if order == [] {
      assert AllOf(l) + [] == AllOf(l);
    } else {
      var n := |order| - 1;
      AppendsLogged(env, l, order[..n], writes);
      var e := InsertOf(order[n], writes[order[n]]);
      var ops := AppendsOf(order, writes);
      assert ops[..|ops| - 1] == AppendsOf(order[..n], writes);
      StepSame(env, WalLog.Run(env, l, AppendsOf(order[..n], writes)), AllOf(l) + InsertsOf(order[..n], writes), e);
      CatAssoc(AllOf(l), InsertsOf(order[..n], writes), [e]);
    }
  }

  /**
   * Inserts keep what is there, so each written ID that is absent comes in with its vector, and
   * nothing else changes.
   */
  lemma {:induction false} InsertsReplayed(v: map<Id, Vector>, order: seq<Id>, writes: map<Id, Vector>, id: Id)
    requires forall i :: 0 <= i < |order| ==> order[i] in writes
    ensures Lookup(Replay(v, InsertsOf(order, writes)), id)
            == if id in v then Some(v[id]) else if id in order then Some(writes[id]) else None
  {
    if order != [] {
      var n := |order| - 1;
      InsertsReplayed(v, order[..n], writes, id);
      assert order == order[..n] + [order[n]];
    }
  }

  /**
   * A commit logs and flushes its writes before it publishes any. If it then
   * fails and is rolled back, replay brings back every write of an ID that
   * the log so far did not leave in the database, and nothing takes it out again.
   */
  lemma AbortedComesBack(env: Env, l: WalLog.Log, order: seq<Id>, writes: map<Id, Vector>, v: map<Id, Vector>, id: Id)
    requires |l.buffer| < WalLog.BATCH && IsOrder(order, writes)
    ensures var next := WalLog.Run(env, l, CommitOps(order, writes));
            var before := Replay(v, AllOf(l));
            && next.buffer == []
            && Lookup(Replay(v, next.flushed), id)
               == if id in before then Some(before[id]) else if id in writes then Some(writes[id]) else None
  {
    AppendsLogged(env, l, order, writes);
    var ops := CommitOps(order, writes);
    assert ops[..|ops| - 1] == AppendsOf(order, writes);
    var next := WalLog.Run(env, l, ops);
    ReplaySame(v, next.flushed, AllOf(l) + InsertsOf(order, writes));
    ReplayCat(v, AllOf(l), InsertsOf(order, writes));
    InsertsReplayed(Replay(v, AllOf(l)), order, writes, id);
  }
}
