/**
 * recovery.go: what an opened database holds. Without a saved index it is
 * rebuilt from the vector pages; the log is replayed onto it in any case.
 */
module NestOpening {
  import opened Base
  import opened HnswSearch
  import opened HnswGraph
  import opened HnswIndex
  import opened MvccManager
  import opened Pages
  import opened PackedPage
  import opened PageScan
  import opened WalCodec
  import opened WalReader
  import WalLog
  import opened Recovery
  import opened NestStore
  import opened NestRecovery

  /** The vectors that the log is replayed onto: those of the saved index, or the first of every ID on the pages. */
  function StartOf(onPages: seq<VectorData>, saved: Option<map<Id, Vector>>): map<Id, Vector> {
    match saved
    case None => FirstOf(onPages)
    case Some(v) => v
  }

  ghost function SavedVectors(saved: Option<Index>): Option<map<Id, Vector>>
    reads if saved.Some? then {saved.value} else {}
  {
    match saved
    case None => None
    case Some(index) => Some(Vectors(index.nodes))
  }

  /** The log is open, and nothing was ever appended to it. */
  ghost predicate NewLog(wal: WalLog.Wal)
    reads wal
  {
    wal.Valid() && wal.file.Some? && wal.base == [] && wal.Abs() == WalLog.Log([], [], 0)
  }

  /** The index that opening starts from, and the page map beside it. */
  method StartIndex(crc: Crc, storage: Storage, saved: Option<Index>, distance: DistanceFunc,
                    levels: (nat, nat) -> nat)
    returns (index: Index, places: map<Id, nat>)
    requires (saved.Some? ==> saved.value.Valid()) && forall a: nat, b: nat :: levels(a, b) <= MAX_LEVEL
    ensures index.Valid() && Vectors(index.nodes) == StartOf(OnPages(crc, storage.pages), SavedVectors(saved))
    ensures if saved.Some? then index == saved.value else fresh(index)
    ensures saved.Some? ==> MapsLast(crc, storage.pages, places)
    ensures saved.None? ==> HasFirstShown(crc, storage.pages, Vectors(index.nodes))
                            && MapsLastShown(crc, storage.pages, places)
  {
    if saved.Some? {
      index := saved.value;
      places := MapPages(crc, storage);
    } else {
      index := new Index(16, 200, distance);
      places := Rebuild(crc, storage, index, levels);
    }
  }

  /** Of all pages but the first, the n-th is the last on which the ID is live. */
  ghost predicate LiveLastOn(crc: Crc, pages: seq<Page>, id: Id, n: nat) {
    1 <= n < |pages| && LiveOn(crc, pages[n], id) && forall k :: n < k < |pages| ==> !LiveOn(crc, pages[k], id)
  }

  /** Every ID that is live on some page and has no entry in the log is mapped to the last such page. */
  ghost predicate MappedRight(crc: Crc, pages: seq<Page>, es: seq<Entry>, places: map<Id, nat>) {
    forall id, n :: LiveLastOn(crc, pages, id, n) && NoEntryOf(es, id) ==> id in places && places[id] == n
  }

  lemma MappedAfter(crc: Crc, pages: seq<Page>, es: seq<Entry>, before: map<Id, nat>, after: map<Id, nat>)
    requires MapsLast(crc, pages, before) && SamePlaces(before, after, es)
    ensures MappedRight(crc, pages, es, after)
  {
    forall id, n | LiveLastOn(crc, pages, id, n) && NoEntryOf(es, id) ensures id in after && after[id] == n {
      assert LiveOn(crc, pages[before[id]], id);
    }
  }

  /**
   * Opening a file: the saved index, if there is one, was loaded as it is
   * given; the levels of rebuilt and of replayed nodes are random. Afterwards
   * the log is open and empty, and the index holds what replay makes of the
   * map it started from.
   */
  method Open(env: Env, storage: Storage, saved: Option<Index>, mvcc: Manager, distance: DistanceFunc, bytes: seq<byte>,
              rebuilt: (nat, nat) -> nat, levels: nat -> nat, ghost start: map<Id, Vector>,
              ghost left: int)
    returns (nest: Nest, r: Recovered, ghost read: ReadResult)
    requires storage.Valid() && storage.freeList == [] && mvcc.Valid() && (saved.Some? ==> saved.value.Valid())
    requires (forall a: nat, b: nat :: rebuilt(a, b) <= MAX_LEVEL) && forall i: nat :: levels(i) <= MAX_LEVEL
    requires start == StartOf(OnPages(env.crc, storage.pages), SavedVectors(saved))
    requires left == storage.limit - |storage.pages|
    modifies storage, if saved.Some? then {saved.value} else {}
    ensures read == ReadAllOf(env, bytes)
    ensures r == OutcomeOfReading(read, start, left)
    ensures nest.env == env && nest.storage == storage && nest.mvcc == mvcc
    ensures r.Recovered? ==> nest.Sound() && nest.count == |nest.Indexed()| && NewLog(nest.wal)
    ensures r.Recovered? ==> read.Entries? && nest.Indexed() == Replay(start, read.entries)
    ensures r.Recovered? ==> old(storage.pages) <= storage.pages
    ensures r.Recovered? && saved.Some? ==> MappedRight(env.crc, old(storage.pages), read.entries, nest.vectorPages)
  {
    ghost var pages := storage.pages;
    var index, places := StartIndex(env.crc, storage, saved, distance, rebuilt);
    nest := new Nest.Opened(env, index, storage, mvcc, places);
    var log;
    r, log, read := Recover(nest, bytes, levels, start, left);
    if r.Recovered? {
      if saved.Some? { MappedAfter(env.crc, pages, read.entries, places, nest.vectorPages); }
      WalReader.ScanEmpty(env);
      var ok := nest.wal.Open(log);
    }
  }

  function ShownPut(p: Put): VectorData {
    VectorData(Shown(p.id), p.vector)
  }

  /** What the vector pages written by these stores give. */
  function ShownAll(puts: seq<Put>): (shown: seq<VectorData>)
    ensures |shown| == |puts|
  {
    seq(|puts|, i requires 0 <= i < |puts| => ShownPut(puts[i]))
  }

  ghost predicate Acceptable(puts: seq<Put>) {
    forall i :: 0 <= i < |puts| ==> 0 < |puts[i].id| <= MAX_ID_LENGTH
  }

  /** The i-th store is the first of an ID that was not there before. */
  ghost predicate IsNew(puts: seq<Put>, i: nat, before: map<Id, Vector>) {
    i < |puts| && puts[i].id !in before && forall j :: 0 <= j < i ==> puts[j].id != puts[i].id
  }

  lemma {:induction false} LoggedHas(v: map<Id, Vector>, puts: seq<Put>, id: Id)
    ensures id in Replay(v, Logged(puts)) <==> id in v || exists j :: 0 <= j < |puts| && puts[j].id == id
    ensures id in v ==> Replay(v, Logged(puts))[id] == v[id]
  {
    if puts != [] {
      LoggedPrefix(puts);
      LoggedHas(v, puts[..|puts| - 1], id);
      if j :| 0 <= j < |puts| && puts[j].id == id {
        assert j < |puts| - 1 ==> puts[..|puts| - 1][j].id == id;
      }
    }
  }

  /** Among the pages, a new ID is found exactly if it can be read back from a page at all. */
  lemma NewOnPages(puts: seq<Put>, i: nat, earlier: seq<VectorData>)
    requires Acceptable(puts) && IsNew(puts, i, FirstOf(earlier))
    ensures puts[i].id in FirstOf(earlier + ShownAll(puts)) <==> Survives(puts[i].id)
  {
    var id, shown := puts[i].id, ShownAll(puts);
    FirstOverCat(map[], earlier, shown);
    FirstOfHas(FirstOf(earlier), shown, id);
    if Survives(id) {
      assert shown[i].id == id;
    } else {
      forall j | 0 <= j < |shown| ensures shown[j].id != id {
        ShownSurvives(PackId(puts[j].id));
      }
    }
  }

  /** The first stores have a new ID exactly if they reach its store. */
  lemma StoredAmong(puts: seq<Put>, i: nat, before: map<Id, Vector>, kept: nat)
    requires IsNew(puts, i, before) && kept <= |puts|
    ensures (exists j :: 0 <= j < |puts[..kept]| && puts[..kept][j].id == puts[i].id) <==> i < kept
  {
    if i < kept { assert puts[..kept][i].id == puts[i].id; }
    if j :| 0 <= j < kept && puts[..kept][j].id == puts[i].id { assert puts[j].id == puts[i].id && i <= j; }
  }

  /**
   * After n stores that returned and a crash, the log has all but the last
   * n % 100 of them, but every vector is on its page. A store of a new ID is
   * in the recovered index exactly if its batch was written, or the index is
   * rebuilt from the pages because none was saved and the ID can be read back
   * from a page.
   */
  lemma NewStoreIsBackIff(env: Env, puts: seq<Put>, i: nat, earlier: seq<VectorData>, saved: Option<map<Id, Vector>>)
    requires Acceptable(puts) && IsNew(puts, i, StartOf(earlier, saved))
    ensures var l := WalLog.Run(env, WalLog.Log([], [], 0), StoreOps(puts));
            puts[i].id in Replay(StartOf(earlier + ShownAll(puts), saved), l.flushed) <==>
            (saved.None? && Survives(puts[i].id)) || i < |puts| - |puts| % WalLog.BATCH
  {
    var start, kept := StartOf(earlier + ShownAll(puts), saved), |puts| - |puts| % WalLog.BATCH;
    StoresLostInCrash(env, puts, start);
    LoggedHas(start, puts[..kept], puts[i].id);
    StoredAmong(puts, i, StartOf(earlier, saved), kept);
    if saved.None? { NewOnPages(puts, i, earlier); }
  }

  /** The first vector under its ID. */
  ghost predicate IsFirst(vs: seq<VectorData>, i: nat) {
    i < |vs| && forall j :: 0 <= j < i ==> vs[j].id != vs[i].id
  }

  lemma {:induction false} FirstIsKept(vs: seq<VectorData>, i: nat)
    requires IsFirst(vs, i)
    ensures vs[i].id in FirstOf(vs) && FirstOf(vs)[vs[i].id] == vs[i].vector
  {
    var front := vs[..|vs| - 1];
    if i < |front| {
      FirstIsKept(front, i);
    } else {
      FirstOfHas(map[], front, vs[i].id);
    }
  }

  /**
   * A rebuilt index has the first vector of an ID that is on file, and replay
   * leaves it so: a vector stored over another one is not what comes back.
   */
  lemma FirstIsBack(env: Env, puts: seq<Put>, onFile: seq<VectorData>, i: nat)
    requires IsFirst(onFile, i)
    ensures var after := Replay(FirstOf(onFile), WalLog.Run(env, WalLog.Log([], [], 0), StoreOps(puts)).flushed);
            onFile[i].id in after && after[onFile[i].id] == onFile[i].vector
  {
    var kept := |puts| - |puts| % WalLog.BATCH;
    StoresLostInCrash(env, puts, FirstOf(onFile));
    FirstIsKept(onFile, i);
    LoggedHas(FirstOf(onFile), puts[..kept], onFile[i].id);
  }

  predicate Accepted(p: Put, dimensions: nat, room: int) {
    0 < |p.id| <= MAX_ID_LENGTH && |p.vector| <= 988 && (dimensions == 0 || |p.vector| == dimensions) && 0 < room
  }

  /** Stores of vectors of one dimension, that of the database, with a page for each. */
  ghost predicate AllAccepted(puts: seq<Put>, dimensions: nat, room: int) {
    |puts| <= room && forall i :: 0 <= i < |puts| ==>
      Accepted(puts[i], dimensions, 1) && |puts[i].vector| == |puts[0].vector|
  }

  function DimensionAfter(puts: seq<Put>, i: nat, dimensions: nat): nat
    requires i <= |puts|
  {
    if i == 0 then dimensions else |puts[i - 1].vector|
  }

  lemma NextAccepted(puts: seq<Put>, i: nat, dimensions: nat, room: int)
    requires AllAccepted(puts, dimensions, room) && i < |puts|
    ensures Accepted(puts[i], DimensionAfter(puts, i, dimensions), room - i)
  {
    assert i > 0 ==> |puts[i - 1].vector| == |puts[i].vector|;
  }

  /** One store; false if it is refused. */
  method StoreOne(nest: Nest, p: Put, level: nat, ghost onFile: seq<VectorData>, ghost log: WalLog.Log,
                  ghost dimensions: nat, ghost room: int)
    returns (ok: bool)
    requires nest.Valid() && nest.wal.file.Some? && level <= MAX_LEVEL
    requires nest.OnFile() == onFile && nest.wal.Abs() == log
    requires nest.mvcc.dimensions == dimensions && nest.storage.limit - |nest.storage.pages| == room
    modifies nest, nest.index`nodes, nest.index`entryPoint, nest.index`maxLevel, nest.storage, nest.mvcc, nest.wal
    ensures nest.Valid() && nest.wal.file.Some? && nest.wal.base == old(nest.wal.base)
    ensures ok ==> 0 < |p.id| <= MAX_ID_LENGTH && |p.vector| <= 988
    ensures ok ==> nest.OnFile() == onFile + [ShownPut(p)]
    ensures ok ==> nest.wal.Abs() == WalLog.Step(nest.env, log, WalLog.OpAppend(InsertOf(p.id, p.vector)))
    ensures ok == Accepted(p, dimensions, room)
    ensures ok ==> nest.mvcc.dimensions == |p.vector| && nest.storage.limit - |nest.storage.pages| == room - 1
  {
    var r := nest.Store(p.id, p.vector, level);
    ok := r.Kept?;
  }

  /** After i stores that returned: their vectors on file behind the earlier ones, and their entries in the log. */
  ghost predicate StoredTo(env: Env, puts: seq<Put>, i: nat, earlier: seq<VectorData>, onFile: seq<VectorData>,
                           log: WalLog.Log)
  {
    && i <= |puts|
    && (forall j :: 0 <= j < i ==> 0 < |puts[j].id| <= MAX_ID_LENGTH && |puts[j].vector| <= 988)
    && onFile == earlier + ShownAll(puts[..i])
    && log == WalLog.Run(env, WalLog.Log([], [], 0), StoreOps(puts[..i]))
  }

  lemma ShownSnoc(puts: seq<Put>, i: nat, earlier: seq<VectorData>)
    requires i < |puts|
    ensures earlier + ShownAll(puts[..i + 1]) == earlier + ShownAll(puts[..i]) + [ShownPut(puts[i])]
  {
    assert ShownAll(puts[..i + 1]) == ShownAll(puts[..i]) + [ShownPut(puts[i])];
  }

  lemma OpsSnoc(env: Env, puts: seq<Put>, i: nat, l: WalLog.Log)
    requires i < |puts|
    ensures WalLog.Run(env, l, StoreOps(puts[..i + 1]))
            == WalLog.Step(env, WalLog.Run(env, l, StoreOps(puts[..i])),
                           WalLog.OpAppend(InsertOf(puts[i].id, puts[i].vector)))
  {
    assert puts[..i + 1][..i] == puts[..i];
    var ops := StoreOps(puts[..i + 1]);
    assert ops[..|ops| - 1] == StoreOps(puts[..i]);
  }

  lemma OneMoreStored(env: Env, puts: seq<Put>, i: nat, earlier: seq<VectorData>, onFile: seq<VectorData>,
                      log: WalLog.Log)
    requires i < |puts| && StoredTo(env, puts, i, earlier, onFile, log)
    requires 0 < |puts[i].id| <= MAX_ID_LENGTH && |puts[i].vector| <= 988
    ensures StoredTo(env, puts, i + 1, earlier, onFile + [ShownPut(puts[i])],
                     WalLog.Step(env, log, WalLog.OpAppend(InsertOf(puts[i].id, puts[i].vector))))
  {
    ShownSnoc(puts, i, earlier);
    OpsSnoc(env, puts, i, WalLog.Log([], [], 0));
  }

  /** The stores one after the other, until one is refused. */
  method StoreAll(nest: Nest, puts: seq<Put>, levels: nat -> nat, ghost earlier: seq<VectorData>,
                  ghost dimensions: nat, ghost room: int)
    returns (ok: bool)
    requires nest.Valid() && NewLog(nest.wal) && nest.OnFile() == earlier
    requires nest.mvcc.dimensions == dimensions && nest.storage.limit - |nest.storage.pages| == room
    requires forall i: nat :: levels(i) <= MAX_LEVEL
    modifies nest, nest.index`nodes, nest.index`entryPoint, nest.index`maxLevel, nest.storage, nest.mvcc, nest.wal
    ensures nest.Valid() && nest.wal.file.Some? && nest.wal.base == []
    ensures ok ==> StoredTo(nest.env, puts, |puts|, earlier, nest.OnFile(), nest.wal.Abs())
    ensures ok ==> nest.storage.limit - |nest.storage.pages| == room - |puts|
    ensures AllAccepted(puts, dimensions, room) ==> ok
  {
    ghost var onFile, log := earlier, nest.wal.Abs();
    for i := 0 to |puts|
      invariant nest.Valid() && nest.wal.file.Some? && nest.wal.base == []
      invariant nest.OnFile() == onFile && nest.wal.Abs() == log
      invariant StoredTo(nest.env, puts, i, earlier, onFile, log)
      invariant nest.mvcc.dimensions == DimensionAfter(puts, i, dimensions)
      invariant nest.storage.limit - |nest.storage.pages| == room - i
    {
      if AllAccepted(puts, dimensions, room) { NextAccepted(puts, i, dimensions, room); }
      ok := StoreOne(nest, puts[i], levels(i), onFile, log, DimensionAfter(puts, i, dimensions), room - i);
      if !ok {
        return;
      }
      OneMoreStored(nest.env, puts, i, earlier, onFile, log);
      onFile, log := nest.OnFile(), nest.wal.Abs();
    }
    ok := true;
  }

  lemma StoresProper(env: Env, puts: seq<Put>)
    requires forall i :: 0 <= i < |puts| ==> 0 < |puts[i].id| <= MAX_ID_LENGTH && |puts[i].vector| <= 988
    ensures WalLog.Proper(env, StoreOps(puts))
  {
    forall op | op in StoreOps(puts) && op.OpAppend?
      ensures op.entry.checksum == 0 && |Encode(env, op.entry)| <= MAX_ENTRY
    {
      var i :| 0 <= i < |puts| && op == WalLog.OpAppend(InsertOf(puts[i].id, puts[i].vector));
    }
  }

  lemma {:induction false} AppendsOfStores(puts: seq<Put>)
    ensures WalLog.Appends(StoreOps(puts)) == |puts|
  {
    if puts != [] {
      AppendsOfStores(puts[..|puts| - 1]);
      assert StoreOps(puts)[..|puts| - 1] == StoreOps(puts[..|puts| - 1]);
    }
  }

  lemma StoresRead(env: Env, puts: seq<Put>)
    requires JsonOk(env) && |puts| < WalLog.SEQ_LIMIT
    requires forall i :: 0 <= i < |puts| ==> 0 < |puts[i].id| <= MAX_ID_LENGTH && |puts[i].vector| <= 988
    ensures var l := WalLog.Run(env, WalLog.Log([], [], 0), StoreOps(puts));
            ReadAllOf(env, LogBytes(env, l.flushed)) == Entries(l.flushed)
  {
    StoresProper(env, puts);
    AppendsOfStores(puts);
    WalLog.Fidelity(env, StoreOps(puts));
  }

  /**
   * Of the IDs that were not there before, those are back that had their
   * batch written, and if the index is rebuilt also those that can be read
   * back from a page.
   */
  ghost predicate ExactlyBack(puts: seq<Put>, rebuilt: bool, before: map<Id, Vector>, after: map<Id, Vector>) {
    forall i: nat :: IsNew(puts, i, before) ==>
      (puts[i].id in after <==> (rebuilt && Survives(puts[i].id)) || i < |puts| - |puts| % WalLog.BATCH)
  }

  /** The first vector of every ID on file is the indexed one. */
  ghost predicate FirstsBack(onFile: seq<VectorData>, after: map<Id, Vector>) {
    forall i: nat :: IsFirst(onFile, i) ==> onFile[i].id in after && after[onFile[i].id] == onFile[i].vector
  }

  /** With a page for each, the entries of the stores can all be replayed. */
  lemma StoresApply(env: Env, puts: seq<Put>, v: map<Id, Vector>, left: int)
    requires forall i :: 0 <= i < |puts| ==> |puts[i].vector| <= 988
    ensures |puts| <= left ==> AllApply(v, WalLog.Run(env, WalLog.Log([], [], 0), StoreOps(puts)).flushed, left)
  {
    var l := WalLog.Run(env, WalLog.Log([], [], 0), StoreOps(puts));
    StoresLogged(env, puts);
    forall i | 0 <= i < |l.flushed| ensures Known(l.flushed[i]) && |l.flushed[i].vector| <= 988 {
      assert AllOf(l)[i] == l.flushed[i] && SameEffect(AllOf(l)[i], Logged(puts)[i]);
    }
    if |puts| <= left { RoomForAll(v, l.flushed, left); }
  }

  /** What reading the file gives after the stores, and what replaying it does. */
  lemma StoredThenRead(env: Env, puts: seq<Put>, earlier: seq<VectorData>, saved: Option<map<Id, Vector>>,
                       onFile: seq<VectorData>, log: WalLog.Log, left: int)
    requires JsonOk(env) && |puts| < WalLog.SEQ_LIMIT && StoredTo(env, puts, |puts|, earlier, onFile, log)
    ensures ReadAllOf(env, LogBytes(env, log.flushed)) == Entries(log.flushed)
    ensures OutcomeOfReading(Entries(log.flushed), StartOf(onFile, saved), left) in {Recovered.Recovered, EntryFailed}
    ensures |puts| <= left ==> OutcomeOfReading(Entries(log.flushed), StartOf(onFile, saved), left).Recovered?
    ensures ExactlyBack(puts, saved.None?, StartOf(earlier, saved), Replay(StartOf(onFile, saved), log.flushed))
    ensures onFile == earlier + ShownAll(puts)
    ensures saved.None? ==> FirstsBack(onFile, Replay(StartOf(onFile, saved), log.flushed))
  {
    assert puts[..|puts|] == puts;
    StoresRead(env, puts);
    StoresApply(env, puts, StartOf(onFile, saved), left);
    if saved.None? {
      forall i: nat | IsFirst(onFile, i) { FirstIsBack(env, puts, onFile, i); }
    }
    forall i: nat | IsNew(puts, i, StartOf(earlier, saved))
      ensures puts[i].id in Replay(StartOf(onFile, saved), log.flushed) <==>
              (saved.None? && Survives(puts[i].id)) || i < |puts| - |puts| % WalLog.BATCH
    {
      NewStoreIsBackIff(env, puts, i, earlier, saved);
    }
  }

  /**
   * The same on the database: a run of stores, a crash right after the last
   * one, and the file opened again, with the index that was last saved in it,
   * if any. The log is read without an error, and if there is room for what
   * has to be written again, the new IDs are back exactly as said; without a
   * saved index every ID that was ever stored and can be read back has its
   * first vector again, whatever was stored over it.
   */
  method StoresThenCrash(nest: Nest, puts: seq<Put>, levels: nat -> nat, saved: Option<Index>, mvcc: Manager,
                         distance: DistanceFunc, rebuilt: (nat, nat) -> nat, replayed: nat -> nat,
                         ghost earlier: seq<VectorData>, ghost image: Option<map<Id, Vector>>, ghost dimensions: nat,
                         ghost room: int)
    returns (ok: bool, reopened: Nest, r: Recovered)
    requires JsonOk(nest.env) && nest.Valid() && NewLog(nest.wal) && |puts| < WalLog.SEQ_LIMIT
    requires earlier == nest.OnFile() && image == SavedVectors(saved)
    requires nest.mvcc.dimensions == dimensions && nest.storage.limit - |nest.storage.pages| == room
    requires mvcc.Valid() && mvcc != nest.mvcc && (saved.Some? ==> saved.value.Valid() && saved.value != nest.index)
    requires (forall i: nat :: levels(i) <= MAX_LEVEL) && (forall i: nat :: replayed(i) <= MAX_LEVEL)
    requires forall a: nat, b: nat :: rebuilt(a, b) <= MAX_LEVEL
    modifies nest, nest.index`nodes, nest.index`entryPoint, nest.index`maxLevel, nest.storage, nest.mvcc, nest.wal,
             if saved.Some? then {saved.value} else {}
    ensures AllAccepted(puts, dimensions, room) ==> ok
    ensures ok ==> r in {Recovered.Recovered, EntryFailed} && (2 * |puts| <= room ==> r.Recovered?)
    ensures ok && r.Recovered? ==> reopened.Sound() && reopened.count == |reopened.Indexed()|
    ensures ok && r.Recovered? ==> ExactlyBack(puts, image.None?, StartOf(earlier, image), reopened.Indexed())
    ensures ok && r.Recovered? && image.None? ==> FirstsBack(earlier + ShownAll(puts), reopened.Indexed())
  {
    ok := StoreAll(nest, puts, levels, earlier, dimensions, room);
    reopened, r := nest, EntryFailed;
    if ok {
      ghost var onFile, log, read := nest.OnFile(), nest.wal.Abs(), Entries([]);
      ghost var left := nest.storage.limit - |nest.storage.pages|;
      StoredThenRead(nest.env, puts, earlier, image, onFile, log, left);
      var bytes := nest.wal.file.value;
      assert bytes == LogBytes(nest.env, log.flushed);
      reopened, r, read := Open(nest.env, nest.storage, saved, mvcc, distance, bytes, rebuilt, replayed,
                                StartOf(onFile, image), left);
    }
  }
}
