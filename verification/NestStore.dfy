/**
 * magpie.go and transaction.go: storing through the database, where the log,
 * the index, the vector pages and the version chains have to tell the same story.
 */
module NestStore {
  import opened Base
  import opened VersionChains
  import opened MvccModel
  import opened MvccManager
  import opened HnswGraph
  import opened HnswIndex
  import opened Pages
  import opened PackedPage
  import opened VectorPages
  import opened PageScan
  import opened WalCodec
  import WalLog
  import opened Recovery

  /** The newest version of every ID has the vector that the index has. */
  ghost predicate HeadsAgree(chains: map<Id, Chain>, vectors: map<Id, Vector>) {
    chains.Keys == vectors.Keys
    && forall id :: id in chains ==> chains[id] != [] && chains[id][0].vector == Some(vectors[id])
  }

  /** So does the page that the page map names. */
  ghost predicate PagesAgree(crc: Crc, vectors: map<Id, Vector>, vectorPages: map<Id, nat>, pages: seq<Page>) {
    forall id :: id in vectors && Survives(id) ==>
      id in vectorPages && vectorPages[id] < |pages| && LoadFrom(crc, pages[vectorPages[id]], id) == Some(vectors[id])
  }

  lemma PagesAgreeAfter(crc: Crc, vectors: map<Id, Vector>, places: map<Id, nat>, before: seq<Page>, after: seq<Page>,
                        id: Id, v: Vector)
    requires PagesAgree(crc, vectors, places, before) && before <= after && |before| < |after|
    requires Survives(id) ==> LoadFrom(crc, after[|before|], id) == Some(v)
    ensures PagesAgree(crc, vectors[id := v], places[id := |before|], after)
  {
    forall a | a in vectors && Survives(a) ensures after[places[a]] == before[places[a]] {}
  }

  lemma PagesAgreeGrown(crc: Crc, vectors: map<Id, Vector>, places: map<Id, nat>, before: seq<Page>, after: seq<Page>)
    requires PagesAgree(crc, vectors, places, before) && before <= after
    ensures PagesAgree(crc, vectors, places, after)
  {
    forall a | a in vectors && Survives(a) ensures after[places[a]] == before[places[a]] {}
  }

  lemma HeadsAgreeAfter(before: map<Id, Chain>, after: map<Id, Chain>, vectors: map<Id, Vector>, id: Id, v: Vector)
    requires HeadsAgree(before, vectors) && after.Keys == before.Keys + {id}
    requires after[id] != [] && after[id][0].vector == Some(v)
    requires forall a :: a in before && a != id ==> after[a] == before[a]
    ensures HeadsAgree(after, vectors[id := v])
  {
  }

  /** The chains after the given writes were prepended, those of done so far. */
  ghost predicate Prepended(before: map<Id, Chain>, after: map<Id, Chain>, writes: map<Id, Version>, done: set<Id>) {
    && done <= writes.Keys && after.Keys == before.Keys + done
    && forall id :: id in after ==>
         after[id] == if id in done then [writes[id]] + (if id in before then before[id] else []) else before[id]
  }

  /** The IDs whose chains have changed. */
  function Touched(before: map<Id, Chain>, after: map<Id, Chain>): set<Id> {
    set id | id in after && (id !in before || after[id] != before[id])
  }

  /** Some of the writes, or all, were put on top of their chains, and nothing else. */
  ghost predicate PartlyPrepended(before: map<Id, Chain>, after: map<Id, Chain>, writes: map<Id, Version>) {
    Prepended(before, after, writes, Touched(before, after))
  }

  lemma PrependedPartly(before: map<Id, Chain>, after: map<Id, Chain>, writes: map<Id, Version>, done: set<Id>)
    requires Prepended(before, after, writes, done)
    ensures Touched(before, after) == done && PartlyPrepended(before, after, writes)
  {
    forall id | id in before && id in done ensures after[id] != before[id] {
      assert |after[id]| == |before[id]| + 1;
    }
  }

  /**
   * After a commit that failed under way: some of its writes, or all, are on
   * top of their chains, and chains and index agree exactly if the index has
   * each of those vectors.
   */
  ghost predicate AgreesIff(before: map<Id, Chain>, after: map<Id, Chain>, writes: map<Id, Vector>,
                            now: map<Id, Vector>)
  {
    var published := Touched(before, after);
    && published <= writes.Keys
    && (HeadsAgree(after, now) <==> forall id :: id in published ==> id in now && now[id] == writes[id])
  }

  lemma AgreeIffTouched(before: map<Id, Chain>, after: map<Id, Chain>, writes: map<Id, Version>, done: set<Id>,
                        vectors: map<Id, Vector>, now: map<Id, Vector>)
    requires AllStores(writes) && Prepended(before, after, writes, done) && done == Touched(before, after)
    requires ChangedOn(done, vectors, now)
    ensures HeadsAgree(before, vectors) ==> AgreesIff(before, after, VectorsOf(writes), now)
  {
  }

  /** Only these IDs have changed, and none has gone. */
  ghost predicate ChangedOn(ids: set<Id>, before: map<Id, Vector>, now: map<Id, Vector>) {
    before.Keys <= now.Keys && forall id :: id in now && id !in ids ==> id in before && now[id] == before[id]
  }

  /** One transaction's record has changed, nothing else. */
  ghost predicate OnlyTx(s: Sys, now: Sys, t: TxId) {
    && now.txs.Keys == s.txs.Keys + {t} && forall u :: u in s.txs && u != t ==> now.txs[u] == s.txs[u]
  }

  /** The transaction is aborted, and its sets are empty. */
  ghost predicate Dropped(tx: TxRec) {
    tx.status == Aborted && tx.readSet == map[] && tx.writeSet == map[]
  }

  /** The publications of one transaction, up to those still to come. */
  ghost predicate PublishedSoFar(s: Sys, now: Sys, t: TxId) {
    && t in s.txs && s.txs[t].status == Committing(s.txs[t].writeSet.Keys) && t in now.txs
    && now.txs[t].status.Committing? && now.txs[t].writeSet == s.txs[t].writeSet
    && now.txs[t].status.remaining <= s.txs[t].writeSet.Keys
    && OnlyTx(s, now, t) && now.dimensions == s.dimensions
    && Prepended(s.chains, now.chains, s.txs[t].writeSet, s.txs[t].writeSet.Keys - now.txs[t].status.remaining)
  }

  lemma PublishStep(s: Sys, now: Sys, t: TxId, id: Id)
    requires PublishedSoFar(s, now, t)
    ensures PublishedSoFar(s, Apply(now, Publish(t, id)).0, t)
  {
    if MayPublish(now, t, id) {
      var keys, left := s.txs[t].writeSet.Keys, now.txs[t].status.remaining;
      assert keys - (left - {id}) == keys - left + {id};
    }
  }

  lemma {:induction false} PublishedAll(s: Sys, steps: seq<Step>, t: TxId)
    requires t in s.txs && s.txs[t].status == Committing(s.txs[t].writeSet.Keys)
    requires forall i :: 0 <= i < |steps| ==> steps[i].Publish? && steps[i].t == t
    ensures PublishedSoFar(s, ApplyAll(s, steps), t)
  {
    if steps == [] {
      assert s.txs[t].writeSet.Keys - s.txs[t].writeSet.Keys == {};
    } else {
      var n := |steps| - 1;
      PublishedAll(s, steps[..n], t);
      PublishStep(s, ApplyAll(s, steps[..n]), t, steps[n].id);
    }
  }

  /** A publication that went through put the writes on top of their chains, and nothing else. */
  lemma PublishedChains(s: Sys, steps: seq<Step>, t: TxId)
    requires t in s.txs && s.txs[t].status == Committing(s.txs[t].writeSet.Keys)
    requires forall i :: 0 <= i < |steps| ==> steps[i].Publish? && steps[i].t == t
    requires MayFinish(ApplyAll(s, steps), t)
    ensures var now := ApplyAll(s, steps);
            && Prepended(s.chains, now.chains, s.txs[t].writeSet, s.txs[t].writeSet.Keys)
            && OnlyTx(s, now, t) && now.dimensions == s.dimensions && now.txs[t].writeSet == s.txs[t].writeSet
  {
    PublishedAll(s, steps, t);
    assert s.txs[t].writeSet.Keys - {} == s.txs[t].writeSet.Keys;
  }

  /** And one that failed changed no other transaction. */
  lemma FailedPublications(s: Sys, steps: seq<Step>, t: TxId)
    requires t in s.txs && s.txs[t].status == Committing(s.txs[t].writeSet.Keys) && steps != []
    requires forall i :: 0 <= i < |steps| - 1 ==> steps[i].Publish? && steps[i].t == t
    requires steps[|steps| - 1].PublishFails? && steps[|steps| - 1].t == t
    requires t in ApplyAll(s, steps).txs && ApplyAll(s, steps).txs[t].status == Aborted
    ensures OnlyTx(s, ApplyAll(s, steps), t) && ApplyAll(s, steps).dimensions == s.dimensions
    ensures Dropped(ApplyAll(s, steps).txs[t])
    ensures PartlyPrepended(s.chains, ApplyAll(s, steps).chains, s.txs[t].writeSet)
  {
    var n := |steps| - 1;
    var before := ApplyAll(s, steps[..n]);
    PublishedAll(s, steps[..n], t);
    PublishStep(s, before, t, steps[n].id);
    var now := ApplyAll(s, steps);
    var published := Apply(before, Publish(t, steps[n].id)).0;
    assert now.chains == published.chains;
    PrependedPartly(s.chains, now.chains, s.txs[t].writeSet,
                    s.txs[t].writeSet.Keys - published.txs[t].status.remaining);
  }

  /** No transaction is committing, and none has anything but stores to write. */
  ghost predicate Quiet(s: Sys) {
    s.lock == None && forall t :: t in s.txs ==> !s.txs[t].status.Committing? && AllStores(s.txs[t].writeSet)
  }

  /** What the caller of Nest.Store is told. */
  datatype StoreResult = Kept | BadId | BadDimensions | NotLogged | NotWritten

  function PutResult(logOpen: bool, writable: bool): StoreResult {
    if !logOpen then NotLogged else if !writable then NotWritten else Kept
  }

  /** The checks in their order, the log, and the page write. */
  function ResultOfStore(id: Id, vector: Vector, dimensions: nat, logOpen: bool, writable: bool): StoreResult {
    if id == [] || |id| > MAX_ID_LENGTH then BadId
    else if dimensions != 0 && |vector| != dimensions then BadDimensions
    else PutResult(logOpen, writable)
  }

  lemma NoMore(vs: seq<VectorData>)
    ensures vs + [] == vs
  {
  }

  /** A new page of zeros holds no vector, and with a vector on it that one. */
  lemma ZeroAdded(crc: Crc, pages: seq<Page>)
    requires pages != []
    ensures OnPages(crc, pages + [ZeroBytes(PAGE_SIZE)]) == OnPages(crc, pages)
  {
    PagesSnoc(crc, pages, ZeroBytes(PAGE_SIZE));
    ZeroPage(crc);
    NoMore(OnPages(crc, pages));
  }

  lemma VectorAdded(crc: Crc, pages: seq<Page>, id: Id, v: Vector, p: Page, after: seq<Page>)
    requires pages != [] && PageWithVector(crc, ZeroBytes(PAGE_SIZE), id, v) == Some(p)
    requires after == (pages + [ZeroBytes(PAGE_SIZE)])[|pages| := p]
    ensures OnPages(crc, after) == OnPages(crc, pages) + [VectorData(Shown(id), v)]
  {
    assert after == pages + [p];
    PagesSnoc(crc, pages, p);
    StoredPage(crc, id, v, p);
  }

  /** Add and Remove as far as the stored vectors go. */
  method AddTo(index: Index, id: Id, vector: Vector, level: nat) returns (ok: bool)
    requires index.Valid() && level <= MAX_LEVEL
    modifies index`nodes, index`entryPoint, index`maxLevel
    ensures index.Valid() && ok == (id !in old(Vectors(index.nodes)))
    ensures Vectors(index.nodes) == if ok then old(Vectors(index.nodes))[id := vector] else old(Vectors(index.nodes))
  {
    ok := index.Add(id, vector, level);
  }

  method RemoveFrom(index: Index, id: Id) returns (ok: bool)
    requires index.Valid()
    modifies index`nodes, index`entryPoint, index`maxLevel
    ensures index.Valid() && ok == (id in old(Vectors(index.nodes)))
    ensures Vectors(index.nodes) == old(Vectors(index.nodes)) - {id}
  {
    ghost var before := Vectors(index.nodes);
    ok := index.Remove(id);
    assert !ok ==> before - {id} == before;
  }

  class Nest {
    const env: Env
    const index: Index
    const storage: Storage
    const mvcc: Manager
    const wal: WalLog.Wal
    var count: nat
    var vectorPages: map<Id, nat>

    ghost function Indexed(): map<Id, Vector>
      reads this, index
    {
      Vectors(index.nodes)
    }

    /** The vectors on the pages of the file, in their order. */
    ghost function OnFile(): seq<VectorData>
      reads this, storage
    {
      OnPages(env.crc, storage.pages)
    }

    ghost predicate Sound()
      reads this, index, storage
    {
      index.Valid() && storage.Valid() && storage.freeList == []
    }

    /** Every indexed vector is on the page that the page map names. */
    ghost predicate Paged()
      reads this, index, storage
    {
      Sound() && PagesAgree(env.crc, Indexed(), vectorPages, storage.pages)
    }

    /** And the count is right: index, pages and count agree. */
    ghost predicate Ready()
      reads this, index, storage
    {
      Paged() && count == |Indexed()|
    }

    ghost predicate Valid()
      reads this, index, storage, mvcc, wal
    {
      Ready() && mvcc.Valid() && wal.Valid() && wal.env == env
    }

    /** The newest versions agree with the index. */
    ghost predicate Agree()
      reads this, index, mvcc
    {
      HeadsAgree(mvcc.versionChains, Indexed())
    }

    constructor (env: Env, index: Index, storage: Storage, mvcc: Manager, wal: WalLog.Wal)
      requires index.Valid() && index.nodes == map[] && storage.Valid() && storage.freeList == []
      requires mvcc.Valid() && mvcc.versionChains == map[] && wal.Valid() && wal.env == env
      ensures Valid() && Agree() && Indexed() == map[]
      ensures this.env == env && this.index == index && this.storage == storage && this.mvcc == mvcc && this.wal == wal
    {
      this.env, this.index, this.storage, this.mvcc, this.wal := env, index, storage, mvcc, wal;
      count, vectorPages := 0, map[];
    }

    /** The database as opening first makes it, around an index that was loaded or rebuilt. */
    constructor Opened(env: Env, index: Index, storage: Storage, mvcc: Manager, vectorPages: map<Id, nat>)
      requires index.Valid() && storage.Valid() && storage.freeList == [] && mvcc.Valid()
      ensures Sound() && this.env == env && this.index == index && this.storage == storage && this.mvcc == mvcc
      ensures this.vectorPages == vectorPages && count == 0
      ensures fresh(wal) && wal.Valid() && wal.env == env && wal.file == None && wal.buffer == []
    {
      this.env, this.index, this.storage, this.mvcc, this.vectorPages := env, index, storage, mvcc, vectorPages;
      count := 0;
      wal := new WalLog.Wal(env);
    }

    /** storeVector on a page of its own; false if the file cannot grow or the vector does not fit. */
    method StoreVector(id: Id, vector: Vector) returns (ok: bool)
      requires storage.Valid() && storage.freeList == []
      modifies this`vectorPages, storage
      ensures storage.Valid() && storage.freeList == []
      ensures ok <==> |old(storage.pages)| < storage.limit && |vector| <= 988
      ensures ok ==> vectorPages == old(vectorPages)[id := |old(storage.pages)|]
      ensures ok ==> |storage.pages| == |old(storage.pages)| + 1
      ensures ok && Survives(id) ==> LoadFrom(env.crc, storage.pages[|old(storage.pages)|], id) == Some(vector)
      ensures !ok ==> vectorPages == old(vectorPages)
      ensures old(storage.pages) <= storage.pages
      ensures OnFile() == old(OnFile()) + if ok then [VectorData(Shown(id), vector)] else []
    {
      ghost var pages := storage.pages;
      NoMore(OnFile());
      var p := storage.AllocatePage();
      if p.None? {
        return false;
      }
      ZeroAdded(env.crc, pages);
      var was := storage.ReadPage(p.value);
      FreshFitsIff(env.crc, id, vector);
      var page := PageWithVector(env.crc, was.value, id, vector);
      if page.None? {
        return false;
      }
      if Survives(id) { FreshLoads(env.crc, id, vector); }
      ok := storage.WritePage(p.value, page.value);
      VectorAdded(env.crc, pages, id, vector, page.value, storage.pages);
      vectorPages := vectorPages[id := p.value];
    }

    /** The index part of a store: add, or remove and add again. */
    method IndexVector(id: Id, vector: Vector, level: nat)
      requires index.Valid() && level <= MAX_LEVEL
      modifies this`count, index`nodes, index`entryPoint, index`maxLevel
      ensures index.Valid() && Indexed() == old(Indexed())[id := vector]
      ensures count == old(count) + if id in old(Indexed()) then 0 else 1
    {
      ghost var before := Indexed();
      var added := AddTo(index, id, vector, level);
      if !added {
        var removed := RemoveFrom(index, id);
        assert (before - {id})[id := vector] == before[id := vector];
        added := AddTo(index, id, vector, level);
      } else {
        count := count + 1;
      }
    }

    /** A new entry point of the greatest level; no vector changes. */
    method Optimize()
      requires Ready()
      modifies index`nodes, index`entryPoint, index`maxLevel
      ensures Ready() && Indexed() == old(Indexed())
    {
      index.OptimizeIndex();
    }

    /** The index entry is taken back after a failed page write. */
    method UnindexVector(id: Id)
      requires index.Valid() && id in Indexed() && count > 0
      modifies this`count, index`nodes, index`entryPoint, index`maxLevel
      ensures index.Valid() && Indexed() == old(Indexed()) - {id} && count == old(count) - 1
    {
      var removed := RemoveFrom(index, id);
      count := count - 1;
    }

    /** The version chain part of a store. */
    method ChainVector(id: Id, vector: Vector)
      requires mvcc.Valid() && id != [] && |id| <= MAX_ID_LENGTH && |vector| == mvcc.dimensions
      modifies mvcc
      ensures mvcc.Valid() && mvcc.Abs() == ApplyNestStore(old(mvcc.Abs()), id, vector, None).0
    {
      var obs := mvcc.NestStore(id, vector, None);
    }

    method SetDimensions(d: nat)
      requires mvcc.Valid()
      modifies mvcc`dimensions
      ensures mvcc.Valid() && mvcc.Abs() == old(mvcc.Abs()).(dimensions := d)
    {
      mvcc.dimensions := d;
      assert forall t :: MvccModel.IsRunning(mvcc.Abs(), t) <==> old(MvccModel.IsRunning(mvcc.Abs(), t));
    }

    /** One key of a store or of updateIndexMVCC: index, then page. */
    method UpdateOne(id: Id, vector: Vector, level: nat) returns (ok: bool)
      requires Ready() && level <= MAX_LEVEL
      modifies this, index`nodes, index`entryPoint, index`maxLevel, storage
      ensures index.Valid() && storage.Valid() && storage.freeList == []
      ensures Indexed() == old(Indexed())[id := vector] && count == |Indexed()|
      ensures ok ==> Ready() && |storage.pages| == |old(storage.pages)| + 1
      ensures !ok ==> PagesAgree(env.crc, old(Indexed()), vectorPages, storage.pages)
      ensures ok <==> |old(storage.pages)| < storage.limit && |vector| <= 988
      ensures old(storage.pages) <= storage.pages
      ensures OnFile() == old(OnFile()) + if ok then [VectorData(Shown(id), vector)] else []
    {
      ghost var before, places, file := Indexed(), vectorPages, storage.pages;
      SizeWith(before, id, vector);
      IndexVector(id, vector, level);
      ok := StoreVector(id, vector);
      if ok {
        PagesAgreeAfter(env.crc, before, places, file, storage.pages, id, vector);
      } else {
        PagesAgreeGrown(env.crc, before, places, file, storage.pages);
      }
    }

    /**
     * The index and page part of a store; if the page write fails the ID leaves the index, also if it
     * was there before.
     */
    method PutVector(id: Id, vector: Vector, level: nat) returns (ok: bool)
      requires Ready() && level <= MAX_LEVEL
      modifies this, index`nodes, index`entryPoint, index`maxLevel, storage
      ensures Ready() && old(storage.pages) <= storage.pages
      ensures ok <==> |old(storage.pages)| < storage.limit && |vector| <= 988
      ensures ok ==> |storage.pages| == |old(storage.pages)| + 1
      ensures Indexed() == if ok then old(Indexed())[id := vector] else old(Indexed()) - {id}
      ensures OnFile() == old(OnFile()) + if ok then [VectorData(Shown(id), vector)] else []
    {
      ghost var before := Indexed();
      ok := UpdateOne(id, vector, level);
      if !ok {
        SizeWithout(before[id := vector], id);
        UnindexVector(id);
        TakenBack(before, id, vector);
      }
    }

    /** Log, index and page of a store whose ID and dimensions are accepted. */
    method PutLogged(id: Id, vector: Vector, level: nat) returns (ok: bool)
      requires Ready() && level <= MAX_LEVEL && wal.Valid() && wal.file.Some? && wal.env == env
      modifies this, index`nodes, index`entryPoint, index`maxLevel, storage, wal
      ensures Ready() && wal.Valid() && wal.file.Some? && old(storage.pages) <= storage.pages
      ensures ok <==> |old(storage.pages)| < storage.limit && |vector| <= 988
      ensures ok ==> |storage.pages| == |old(storage.pages)| + 1
      ensures Indexed() == if ok then old(Indexed())[id := vector] else old(Indexed()) - {id}
      ensures OnFile() == old(OnFile()) + if ok then [VectorData(Shown(id), vector)] else []
      ensures wal.Abs() == WalLog.Step(env, old(wal.Abs()), WalLog.OpAppend(InsertOf(id, vector)))
      ensures wal.base == old(wal.base)
    {
      WalLog.Do(wal, WalLog.OpAppend(InsertOf(id, vector)));
      ok := PutVector(id, vector, level);
    }

    /** Nest.Store once ID and dimensions are accepted: log, index and page, version chain. */
    method StoreChecked(id: Id, vector: Vector, level: nat) returns (r: StoreResult)
      requires Valid() && level <= MAX_LEVEL && id != [] && |id| <= MAX_ID_LENGTH && |vector| == mvcc.dimensions
      modifies this, index`nodes, index`entryPoint, index`maxLevel, storage, mvcc, wal
      ensures Valid() && wal.file.Some? == old(wal.file.Some?) && wal.base == old(wal.base)
      ensures r == PutResult(old(wal.file.Some?), |old(storage.pages)| < storage.limit && |vector| <= 988)
      ensures wal.Abs() == if r.NotLogged? then old(wal.Abs())
                           else WalLog.Step(env, old(wal.Abs()), WalLog.OpAppend(InsertOf(id, vector)))
      ensures Indexed() == if r.Kept? then old(Indexed())[id := vector]
                           else if r.NotWritten? then old(Indexed()) - {id} else old(Indexed())
      ensures old(storage.pages) <= storage.pages && (r.Kept? ==> |storage.pages| == |old(storage.pages)| + 1)
      ensures OnFile() == old(OnFile()) + if r.Kept? then [VectorData(Shown(id), vector)] else []
      ensures mvcc.Abs() == if r.Kept? then ApplyNestStore(old(mvcc.Abs()), id, vector, None).0 else old(mvcc.Abs())
    {
      NoMore(OnFile());
      if wal.file.None? {
        return NotLogged;
      }
      var ok := PutLogged(id, vector, level);
      if !ok {
        return NotWritten;
      }
      ChainVector(id, vector);
      r := Kept;
    }

    /**
     * Nest.Store without metadata. The log comes first. If the page write
     * fails, an ID that was there before leaves the index while its old
     * version stays in its chain; that is the only way to lose agreement.
     */
    method Store(id: Id, vector: Vector, level: nat) returns (r: StoreResult)
      requires Valid() && level <= MAX_LEVEL
      modifies this, index`nodes, index`entryPoint, index`maxLevel, storage, mvcc, wal
      ensures Valid() && wal.file.Some? == old(wal.file.Some?) && wal.base == old(wal.base)
      ensures r == ResultOfStore(id, vector, old(mvcc.dimensions), old(wal.file.Some?),
                                 |old(storage.pages)| < storage.limit && |vector| <= 988)
      ensures wal.Abs() == if r in {Kept, NotWritten}
                           then WalLog.Step(env, old(wal.Abs()), WalLog.OpAppend(InsertOf(id, vector)))
                           else old(wal.Abs())
      ensures Indexed() == if r.Kept? then old(Indexed())[id := vector]
                           else if r.NotWritten? then old(Indexed()) - {id} else old(Indexed())
      ensures old(storage.pages) <= storage.pages && (r.Kept? ==> |storage.pages| == |old(storage.pages)| + 1)
      ensures r.Kept? ==> mvcc.Abs() == ApplyNestStore(old(mvcc.Abs()), id, vector, None).0
      ensures !r.Kept? ==> mvcc.Abs() == old(mvcc.Abs()).(dimensions := mvcc.dimensions)
      ensures r in {BadId, BadDimensions} ==> mvcc.dimensions == old(mvcc.dimensions)
      ensures OnFile() == old(OnFile()) + if r.Kept? then [VectorData(Shown(id), vector)] else []
      ensures old(Agree()) ==> (Agree() <==> (r.NotWritten? ==> id !in old(Indexed())))
    {
      NoMore(OnFile());
      if |id| == 0 || |id| > MAX_ID_LENGTH {
        return BadId;
      }
      if mvcc.dimensions != 0 && |vector| != mvcc.dimensions {
        return BadDimensions;
      }
      ghost var s, before := mvcc.Abs(), Indexed();
      if mvcc.dimensions == 0 {
        SetDimensions(|vector|);
      }
      AgreeAfter(s, before, id, vector);
      r := StoreChecked(id, vector, level);
    }

    /** updateIndexMVCC for a store-only write set, in any order; it stops at the first page that cannot be written. */
    method UpdateIndex(writes: map<Id, Vector>, levels: Id -> nat) returns (ok: bool)
      requires Ready() && forall id :: levels(id) <= MAX_LEVEL
      modifies this, index`nodes, index`entryPoint, index`maxLevel, storage
      ensures index.Valid() && storage.Valid() && storage.freeList == [] && count == |Indexed()|
      ensures ok ==> Ready() && Indexed() == old(Indexed()) + writes
      ensures ChangedOn(writes.Keys, old(Indexed()), Indexed())
      ensures old(storage.pages) <= storage.pages
      ensures !ok ==> |storage.pages| == storage.limit || Oversized(writes)
      ensures |old(storage.pages)| + |writes.Keys| <= storage.limit && !Oversized(writes) ==> ok
    {
      ghost var before, file := Indexed(), storage.pages;
      var todo := writes.Keys;
      while todo != {}
        invariant todo <= writes.Keys && Ready() && Merged(before, writes, todo, Indexed())
        invariant file <= storage.pages && |storage.pages| + |todo| == |file| + |writes.Keys|
        decreases todo
      {
        var id :| id in todo;
        MergeStep(before, writes, todo, id, Indexed());
        ok := UpdateOne(id, writes[id], levels(id));
        if !ok {
          assert |todo| >= 1;
          MergedChanged(before, writes, todo - {id}, Indexed());
          return;
        }
        todo := todo - {id};
      }
      MergedChanged(before, writes, {}, Indexed());
      MergedAll(before, writes, Indexed());
      ok := true;
    }

    /** writeWALMVCC: an insert for each write, in any order, and a flush. */
    method LogWrites(writes: map<Id, Vector>) returns (ghost order: seq<Id>)
      requires wal.Valid() && wal.file.Some? && wal.env == env
      modifies wal
      ensures wal.Valid() && wal.file.Some? && LoggedWrites(env, old(wal.Abs()), wal.Abs(), order, writes)
    {
      ghost var l := wal.Abs();
      order := [];
      var todo := writes.Keys;
      while todo != {}
        invariant todo <= writes.Keys && Listed(order, writes.Keys - todo) && wal.Valid() && wal.file.Some?
        invariant AppendedWrites(env, l, wal.Abs(), order, writes)
        decreases todo
      {
        var id :| id in todo;
        WalLog.Do(wal, WalLog.OpAppend(InsertOf(id, writes[id])));
        ListedMore(order, writes.Keys - todo, id);
        AppendsMore(env, l, order, writes, id);
        OneLess(writes.Keys, todo, id);
        order, todo := order + [id], todo - {id};
      }
      assert writes.Keys - {} == writes.Keys;
      ghost var appended := wal.Abs();
      WalLog.Do(wal, WalLog.OpFlush);
      FlushMore(env, l, appended, order, writes);
    }

    /** The version pages written during publication: one after the other at the end of the file, with any content. */
    method WriteVersionPages(ids: set<Id>, versionPage: Id -> Option<Page>) returns (unwritable: set<Id>)
      requires storage.Valid() && storage.freeList == []
      modifies storage
      ensures storage.Valid() && storage.freeList == [] && old(storage.pages) <= storage.pages && unwritable <= ids
      ensures unwritable != {} ==> Starved(ids, versionPage)
      ensures unwritable == {} ==> |storage.pages| == |old(storage.pages)| + |ids|
      ensures unwritable == {} <==> Room(ids, versionPage, storage.limit - |old(storage.pages)|)
    {
      var todo := ids;
      while todo != {}
        invariant todo <= ids && storage.Valid() && storage.freeList == [] && old(storage.pages) <= storage.pages
        invariant |storage.pages| + |todo| == |old(storage.pages)| + |ids|
        invariant forall id :: id in ids && id !in todo ==> versionPage(id).Some?
        decreases todo
      {
        var id :| id in todo;
        assert |todo - {id}| == |todo| - 1;
        var p := storage.AllocatePage();
        if p.None? || versionPage(id).None? {
          return {id};
        }
        var ok := storage.WritePage(p.value, versionPage(id).value);
        todo := todo - {id};
      }
      unwritable := {};
    }

    /** Phases 1 and 2 of commitMVCC: validation and log. */
    method StartCommit(t: TxId)
      returns (obs: Obs, ghost step: Step, ghost order: seq<Id>)
      requires mvcc.Valid() && MayCommit(mvcc.Abs(), t) && wal.Valid() && wal.env == env
      modifies mvcc, wal
      ensures mvcc.Valid() && wal.Valid() && wal.file.Some? == old(wal.file.Some?)
      ensures obs == StartOutcome(old(mvcc.Abs()), t, old(wal.file.Some?))
      ensures obs != Validated ==> CommitSteps(old(mvcc.Abs()), mvcc.Abs(), t, obs, [step])
      ensures obs == Validated ==> StartedFrom(old(mvcc.Abs()), mvcc.Abs(), t, step)
      ensures obs != Validated || old(wal.file.None?) ==> wal.Abs() == old(wal.Abs())
      ensures obs == Validated && old(wal.file.Some?) ==>
                LoggedWrites(env, old(wal.Abs()), wal.Abs(), order, VectorsOf(WritesOf(old(mvcc.Abs()), t)))
    {
      order := [];
      ghost var s := mvcc.Abs();
      var writes := mvcc.transactions[t].writeSet;
      obs, step := mvcc.Validate(t, wal.file.None? && writes != map[]);
      StartIs(s, mvcc.Abs(), t, obs, step, wal.file.Some?);
      if obs == Validated && wal.file.Some? {
        order := LogWrites(VectorsOf(writes));
      }
    }

    /** The file is full, or a version does not fit a page. */
    ghost predicate Starved(ids: set<Id>, versionPage: Id -> Option<Page>)
      reads storage
    {
      |storage.pages| == storage.limit || exists id :: id in ids && versionPage(id).None?
    }

    /** Phase 3: the versions and their pages. */
    method MakeVisible(t: TxId, versionPage: Id -> Option<Page>) returns (ok: bool, ghost steps: seq<Step>)
      requires storage.Valid() && storage.freeList == [] && mvcc.Valid() && IsStarted(mvcc.Abs(), t)
      modifies storage, mvcc
      ensures storage.Valid() && storage.freeList == [] && mvcc.Valid() && old(storage.pages) <= storage.pages
      ensures ok <==> Room(old(mvcc.transactions)[t].writeSet.Keys, versionPage, storage.limit - |old(storage.pages)|)
      ensures ok ==> |storage.pages| == |old(storage.pages)| + |old(mvcc.transactions)[t].writeSet.Keys|
      ensures !ok ==> Starved(old(mvcc.transactions)[t].writeSet.Keys, versionPage)
      ensures IsPublished(old(mvcc.Abs()), mvcc.Abs(), t, steps, ok)
    {
      var writes := mvcc.transactions[t].writeSet;
      ghost var started := mvcc.Abs();
      var unwritable := WriteVersionPages(writes.Keys, versionPage);
      ok, steps := mvcc.MakeVisible(t, unwritable);
      if ok {
        PublishedChains(started, steps, t);
      } else {
        FailedPublications(started, steps, t);
      }
    }

    /** Phases 1 to 3. */
    method Publish(t: TxId, versionPage: Id -> Option<Page>)
      returns (obs: Obs, ghost steps: seq<Step>, ghost order: seq<Id>)
      requires storage.Valid() && storage.freeList == [] && mvcc.Valid() && wal.Valid() && wal.env == env
      requires MayCommit(mvcc.Abs(), t)
      modifies storage, mvcc, wal
      ensures storage.Valid() && storage.freeList == [] && mvcc.Valid() && wal.Valid()
              && old(storage.pages) <= storage.pages
      ensures wal.file.Some? == old(wal.file.Some?)
      ensures obs == OutcomeOf(old(mvcc.Abs()), t, old(wal.file.Some?), versionPage,
                               storage.limit - |old(storage.pages)|)
      ensures CommitSteps(old(mvcc.Abs()), mvcc.Abs(), t, obs, steps)
      ensures obs in {NotActive, Conflict, LogFailed} ==> wal.Abs() == old(wal.Abs())
      ensures obs in {PersistFailed, Done} && old(wal.file.Some?) ==>
                LoggedWrites(env, old(wal.Abs()), wal.Abs(), order, VectorsOf(WritesOf(old(mvcc.Abs()), t)))
      ensures obs == PersistFailed ==> Starved(WritesOf(old(mvcc.Abs()), t).Keys, versionPage)
      ensures obs == Done ==> |storage.pages| == |old(storage.pages)| + |WritesOf(old(mvcc.Abs()), t).Keys|
    {
      ghost var s, first, rest := mvcc.Abs(), MvccModel.StartCommit(t), [];
      obs, first, order := StartCommit(t);
      steps := [first];
      if obs != Validated {
        return;
      }
      ghost var started := mvcc.Abs();
      var ok;
      ok, rest := MakeVisible(t, versionPage);
      StartedThen(s, started, mvcc.Abs(), t, first, rest, ok);
      obs, steps := if ok then Done else PersistFailed, steps + rest;
    }

    /** Seen from index and pages: the file has grown. */
    method PublishOn(t: TxId, versionPage: Id -> Option<Page>)
      returns (obs: Obs, ghost steps: seq<Step>, ghost order: seq<Id>)
      requires Valid() && MayCommit(mvcc.Abs(), t)
      modifies storage, mvcc, wal
      ensures Valid() && Indexed() == old(Indexed()) && old(storage.pages) <= storage.pages
      ensures obs == OutcomeOf(old(mvcc.Abs()), t, old(wal.file.Some?), versionPage,
                               storage.limit - |old(storage.pages)|)
      ensures if obs == Done then CommitSteps(old(mvcc.Abs()), mvcc.Abs(), t, Done, steps)
              else CommitLeaves(old(mvcc.Abs()), mvcc.Abs(), t, obs, steps, old(Indexed()), Indexed())
      ensures wal.file.Some? == old(wal.file.Some?)
      ensures obs in {NotActive, Conflict, LogFailed} ==> wal.Abs() == old(wal.Abs())
      ensures obs in {PersistFailed, Done} && old(wal.file.Some?) ==>
                LoggedWrites(env, old(wal.Abs()), wal.Abs(), order, VectorsOf(WritesOf(old(mvcc.Abs()), t)))
      ensures obs == PersistFailed ==> Starved(WritesOf(old(mvcc.Abs()), t).Keys, versionPage)
      ensures obs == Done ==> |storage.pages| == |old(storage.pages)| + |WritesOf(old(mvcc.Abs()), t).Keys|
    {
      ghost var s, indexed, places, file := mvcc.Abs(), Indexed(), vectorPages, storage.pages;
      obs, steps, order := Publish(t, versionPage);
      PagesAgreeGrown(env.crc, indexed, places, file, storage.pages);
      if obs != Done {
        NotPublished(s, mvcc.Abs(), t, obs, steps, indexed);
      }
    }

    /** Phase 4 on the whole write set, and phase 5, or the error that leaves the transaction open. */
    method UpdateAndClose(t: TxId, levels: Id -> nat) returns (ok: bool)
      requires Ready() && mvcc.Valid() && MayFinish(mvcc.Abs(), t) && AllStores(mvcc.transactions[t].writeSet)
      requires forall id :: levels(id) <= MAX_LEVEL
      modifies this, index`nodes, index`entryPoint, index`maxLevel, storage, mvcc
      ensures index.Valid() && storage.Valid() && mvcc.Valid() && storage.freeList == []
      ensures count == |Indexed()| && old(storage.pages) <= storage.pages
      ensures ok ==> Ready() && Indexed() == old(Indexed()) + VectorsOf(old(mvcc.transactions)[t].writeSet)
      ensures ChangedOn(old(mvcc.transactions)[t].writeSet.Keys, old(Indexed()), Indexed())
      ensures !ok ==> |storage.pages| == storage.limit || Oversized(VectorsOf(old(mvcc.transactions)[t].writeSet))
      ensures !Oversized(VectorsOf(old(mvcc.transactions)[t].writeSet)) ==>
                |old(storage.pages)| + |old(mvcc.transactions)[t].writeSet.Keys| <= storage.limit ==> ok
      ensures mvcc.Abs() == if ok then Finished(old(mvcc.Abs()), t) else Reopened(old(mvcc.Abs()), t)
    {
      var writes := VectorsOf(mvcc.transactions[t].writeSet);
      assert writes.Keys == mvcc.transactions[t].writeSet.Keys;
      ok := UpdateIndex(writes, levels);
      if ok {
        mvcc.Finish(t);
      } else {
        mvcc.Reopen(t);
      }
    }

    /** Phases 4 and 5 after the phases that led from s to here. */
    method EndCommit(t: TxId, levels: Id -> nat, ghost s: Sys, ghost before: map<Id, Vector>,
                     ghost writes: map<Id, Version>, ghost publication: seq<Step>, ghost left: int)
      returns (obs: Obs, ghost steps: seq<Step>)
      requires Ready() && mvcc.Valid() && wal.Valid() && Indexed() == before
      requires CommitSteps(s, mvcc.Abs(), t, Done, publication) && writes == WritesOf(s, t) && AllStores(writes)
      requires storage.limit - |storage.pages| == left - |writes.Keys|
      requires forall id :: levels(id) <= MAX_LEVEL
      modifies this, index`nodes, index`entryPoint, index`maxLevel, storage, mvcc
      ensures index.Valid() && storage.Valid() && mvcc.Valid() && storage.freeList == []
      ensures count == |Indexed()| && old(storage.pages) <= storage.pages
      ensures obs in {IndexFailed, Done} && CommitLeaves(s, mvcc.Abs(), t, obs, steps, before, Indexed())
      ensures wal.Valid() && wal.file == old(wal.file) && wal.Abs() == old(wal.Abs()) && (obs == Done ==> Ready())
      ensures obs == IndexFailed ==> |storage.pages| == storage.limit || Oversized(VectorsOf(writes))
      ensures CommitFits(s, t, left) ==> obs == Done
    {
      ghost var published := mvcc.Abs();
      var ok := UpdateAndClose(t, levels);
      EndedBy(s, published, t, publication, ok, before, Indexed());
      obs, steps := if ok then Done else IndexFailed, publication + [if ok then FinishCommit(t) else IndexFails(t)];
    }

    /** A commit of stores in state s: publication, then index and pages, then the closing step. */
    method Commit(t: TxId, versionPage: Id -> Option<Page>, levels: Id -> nat, ghost s: Sys,
                  ghost before: map<Id, Vector>, ghost left: int)
      returns (obs: Obs, ghost steps: seq<Step>, ghost order: seq<Id>)
      requires Valid() && MayCommit(s, t)
      requires s == mvcc.Abs() && before == Indexed() && left == storage.limit - |storage.pages|
      requires forall id :: levels(id) <= MAX_LEVEL
      modifies this, index`nodes, index`entryPoint, index`maxLevel, storage, mvcc, wal
      ensures index.Valid() && storage.Valid() && mvcc.Valid() && wal.Valid() && storage.freeList == []
      ensures count == |Indexed()| && old(storage.pages) <= storage.pages
      ensures wal.file.Some? == old(wal.file.Some?) && (obs != IndexFailed ==> Valid())
      ensures CommitLeaves(s, mvcc.Abs(), t, obs, steps, before, Indexed())
      ensures OutcomeOf(s, t, old(wal.file.Some?), versionPage, left) == if obs == IndexFailed then Done else obs
      ensures CommitFits(s, t, left) ==> obs != IndexFailed
      ensures obs in {NotActive, Conflict, LogFailed} ==> wal.Abs() == old(wal.Abs())
      ensures obs in {PersistFailed, IndexFailed, Done} && old(wal.file.Some?) ==>
                LoggedWrites(env, old(wal.Abs()), wal.Abs(), order, VectorsOf(WritesOf(s, t)))
      ensures obs in {PersistFailed, IndexFailed} ==>
                Starved(WritesOf(s, t).Keys, versionPage) || Oversized(VectorsOf(WritesOf(s, t)))
    {
      obs, steps, order := PublishOn(t, versionPage);
      if obs != Done {
        return;
      }
      obs, steps := EndCommit(t, levels, s, before, WritesOf(s, t), steps, left);
    }

    /**
     * A store does not take the commit lock, so it can fall between the
     * publication of a commit and its index update. If all three go through,
     * the views agree exactly if the commit did not write the ID, or wrote
     * the same vector: the newest version is the store's, but index and page
     * end up with the commit's.
     */
    method StoreOvertakesCommit(t: TxId, id: Id, vector: Vector, level: nat, versionPage: Id -> Option<Page>,
                                levels: Id -> nat) returns (done: bool)
      requires Valid() && Agree() && MayCommit(mvcc.Abs(), t)
      requires level <= MAX_LEVEL && forall a :: levels(a) <= MAX_LEVEL
      modifies this, index`nodes, index`entryPoint, index`maxLevel, storage, mvcc, wal
      ensures done ==> Ready() && (Agree() <==> (id in WritesOf(old(mvcc.Abs()), t) ==>
                                        WritesOf(old(mvcc.Abs()), t)[id].vector == Some(vector)))
      ensures old(wal.file.Some?) && OvertakeFits(old(mvcc.Abs()), t, id, vector, versionPage,
                                                  storage.limit - |old(storage.pages)|) ==>
                done
    {
      ghost var s, before, left := mvcc.Abs(), Indexed(), storage.limit - |storage.pages|;
      OvertakeStarts(s, t, id, vector, versionPage, left);
      var obs;
      ghost var steps, order;
      obs, steps, order := PublishOn(t, versionPage);
      if obs != Done {
        return false;
      }
      OvertakeGoesOn(s, mvcc.Abs(), t, steps, id, vector, versionPage, left);
      OvertakenHeads(s, mvcc.Abs(), before, t, id, vector);
      done := StoreThenUpdate(t, id, vector, level, levels);
    }

    /** Phases 4 and 5 of a commit after a store of someone else. */
    method StoreThenUpdate(t: TxId, id: Id, vector: Vector, level: nat, levels: Id -> nat) returns (done: bool)
      requires Valid() && MayFinish(mvcc.Abs(), t) && AllStores(mvcc.transactions[t].writeSet)
      requires level <= MAX_LEVEL && forall a :: levels(a) <= MAX_LEVEL
      modifies this, index`nodes, index`entryPoint, index`maxLevel, storage, mvcc, wal
      ensures done ==>
                Ready() && Indexed() == old(Indexed())[id := vector] + VectorsOf(old(mvcc.transactions)[t].writeSet)
      ensures done ==> mvcc.versionChains == ApplyNestStore(old(mvcc.Abs()), id, vector, None).0.chains
      ensures done ==> ApplyNestStore(old(mvcc.Abs()), id, vector, None).1.Stored?
      ensures old(wal.file.Some?) && UpdateFits(old(mvcc.Abs()), t, id, vector,
                                                storage.limit - |old(storage.pages)|) ==>
                done
    {
      ghost var s := mvcc.Abs();
      var r := Store(id, vector, level);
      if r != Kept {
        return false;
      }
      OvertakingKeeps(s, t, id, vector);
      done := UpdateAndClose(t, levels);
    }
  }

  /** No commit is under way, and the transaction has nothing but stores to write. */
  ghost predicate MayCommit(s: Sys, t: TxId) {
    s.lock == None && t in s.txs && !s.txs[t].status.Committing? && AllStores(s.txs[t].writeSet)
  }

  function WritesOf(s: Sys, t: TxId): map<Id, Version>
    requires t in s.txs
  {
    s.txs[t].writeSet
  }

  /** Validated, and nothing published yet. */
  ghost predicate IsStarted(s: Sys, t: TxId) {
    s.lock == Some(t) && t in s.txs && s.txs[t].status == Committing(s.txs[t].writeSet.Keys)
        && AllStores(s.txs[t].writeSet)
  }

  /** The publications of t, all of them or up to a failure, lead from s to now. */
  ghost predicate IsPublished(s: Sys, now: Sys, t: TxId, steps: seq<Step>, ok: bool) {
    && t in s.txs && t in now.txs && now == ApplyAll(s, steps) && OnlyTx(s, now, t) && now.dimensions == s.dimensions
    && (ok ==> MayFinish(now, t) && now.txs[t].writeSet == s.txs[t].writeSet
               && Prepended(s.chains, now.chains, s.txs[t].writeSet, s.txs[t].writeSet.Keys)
               && forall i :: 0 <= i < |steps| ==> steps[i].Publish? && steps[i].t == t)
    && (!ok ==> now.lock == None && Dropped(now.txs[t])
                && PartlyPrepended(s.chains, now.chains, s.txs[t].writeSet))
  }

  /** How the first three phases, told obs, lead from s to now; on success the commit is still open. */
  ghost predicate CommitSteps(s: Sys, now: Sys, t: TxId, obs: Obs, steps: seq<Step>) {
    && t in s.txs && t in now.txs && now == ApplyAll(s, steps) && OnlyTx(s, now, t) && now.dimensions == s.dimensions
    && obs in {NotActive, Conflict, LogFailed, PersistFailed, Done}
    && (obs in {NotActive, Conflict, LogFailed} ==>
          now.chains == s.chains && |steps| == 1 && steps[0] in {StartCommit(t), LogFails(t)})
    && (obs == NotActive ==> now == s)
    && (obs in {Conflict, LogFailed, PersistFailed} ==> now.lock == None && Dropped(now.txs[t]))
    && (obs == PersistFailed ==> PartlyPrepended(s.chains, now.chains, s.txs[t].writeSet))
    && (obs == Done ==> MayFinish(now, t) && now.txs[t].writeSet == s.txs[t].writeSet && Publications(steps, t)
                        && Prepended(s.chains, now.chains, s.txs[t].writeSet, s.txs[t].writeSet.Keys))
  }

  /** How all phases do. */
  ghost predicate CommitEnds(s: Sys, now: Sys, t: TxId, obs: Obs, steps: seq<Step>) {
    && t in s.txs && t in now.txs && now == ApplyAll(s, steps) && OnlyTx(s, now, t) && now.dimensions == s.dimensions
    && now.lock == None && obs in {NotActive, Conflict, LogFailed, PersistFailed, IndexFailed, Done}
    && (obs in {NotActive, Conflict, LogFailed} ==>
          now.chains == s.chains && |steps| == 1 && steps[0] in {StartCommit(t), LogFails(t)})
    && (obs == NotActive ==> now == s)
    && (obs in {Conflict, LogFailed, PersistFailed} ==> Dropped(now.txs[t]))
    && (obs == PersistFailed ==> PartlyPrepended(s.chains, now.chains, s.txs[t].writeSet))
    && (obs == IndexFailed ==> now.txs[t].status == Active && IsCommit(steps, t, IndexFails(t)))
    && (obs == Done ==> now.txs[t].status == Committed && IsCommit(steps, t, FinishCommit(t)))
    && (obs in {IndexFailed, Done} ==> now.txs[t].writeSet == s.txs[t].writeSet
                                       && Prepended(s.chains, now.chains, s.txs[t].writeSet, s.txs[t].writeSet.Keys))
  }

  /** t has been validated and logged. */
  ghost predicate StartedFrom(s: Sys, started: Sys, t: TxId, first: Step) {
    && t in s.txs && first == StartCommit(t) && started == ApplyAll(s, [first])
    && IsStarted(started, t) && OnlyTx(s, started, t) && started.dimensions == s.dimensions
    && started.txs[t].writeSet == s.txs[t].writeSet && started.chains == s.chains
  }

  ghost function StartOutcome(s: Sys, t: TxId, logOpen: bool): Obs
    requires t in s.txs
  {
    var tx := s.txs[t];
    if !tx.status.Active? then NotActive
    else if !Validates(s, tx) then Conflict
    else if !logOpen && tx.writeSet != map[] then LogFailed else Validated
  }

  lemma StartIs(s: Sys, now: Sys, t: TxId, obs: Obs, first: Step, logOpen: bool)
    requires MayCommit(s, t) && (now, obs) == Apply(s, first)
    requires first == if !logOpen && s.txs[t].writeSet != map[] then LogFails(t) else StartCommit(t)
    ensures obs == StartOutcome(s, t, logOpen)
    ensures if obs == Validated then StartedFrom(s, now, t, first) else CommitSteps(s, now, t, obs, [first])
  {
    OneStep(s, first);
  }

  lemma StartedThen(s: Sys, started: Sys, now: Sys, t: TxId, first: Step, rest: seq<Step>, ok: bool)
    requires StartedFrom(s, started, t, first) && IsPublished(started, now, t, rest, ok)
    ensures CommitSteps(s, now, t, if ok then Done else PersistFailed, [first] + rest)
  {
    ApplyCat(s, [first], rest);
  }

  /** And in the index: agreement of the views stays, or after a failure under way it has its condition. */
  ghost predicate CommitLeaves(s: Sys, now: Sys, t: TxId, obs: Obs, steps: seq<Step>, before: map<Id, Vector>,
                               indexed: map<Id, Vector>)
  {
    && CommitEnds(s, now, t, obs, steps) && AllStores(s.txs[t].writeSet)
    && (obs == Done ==> indexed == before + VectorsOf(s.txs[t].writeSet))
    && (obs in {NotActive, Conflict, LogFailed, PersistFailed} ==> indexed == before)
    && (HeadsAgree(s.chains, before) ==>
          if obs in {PersistFailed, IndexFailed}
          then AgreesIff(s.chains, now.chains, VectorsOf(s.txs[t].writeSet), indexed)
          else HeadsAgree(now.chains, indexed))
  }

  lemma NotPublished(s: Sys, now: Sys, t: TxId, obs: Obs, steps: seq<Step>, before: map<Id, Vector>)
    requires CommitSteps(s, now, t, obs, steps) && obs != Done && s.lock == None && AllStores(s.txs[t].writeSet)
    ensures CommitLeaves(s, now, t, obs, steps, before, before)
  {
    if obs == PersistFailed {
      AgreeIffTouched(s.chains, now.chains, s.txs[t].writeSet, Touched(s.chains, now.chains), before, before);
    }
  }

  lemma EndedBy(s: Sys, published: Sys, t: TxId, steps: seq<Step>, ok: bool, before: map<Id, Vector>,
                indexed: map<Id, Vector>)
    requires CommitSteps(s, published, t, Done, steps) && AllStores(s.txs[t].writeSet)
    requires ok ==> indexed == before + VectorsOf(s.txs[t].writeSet)
    requires ChangedOn(s.txs[t].writeSet.Keys, before, indexed)
    ensures CommitLeaves(s, if ok then Finished(published, t) else Reopened(published, t), t,
                         if ok then Done else IndexFailed, steps + [if ok then FinishCommit(t) else IndexFails(t)],
                         before, indexed)
  {
    var last := if ok then FinishCommit(t) else IndexFails(t);
    UpdatedHeads(s.chains, published.chains, s.txs[t].writeSet, before, indexed);
    Ended(s, published, t, steps, last);
  }

  lemma Ended(s: Sys, published: Sys, t: TxId, steps: seq<Step>, last: Step)
    requires CommitSteps(s, published, t, Done, steps) && last in {FinishCommit(t), IndexFails(t)}
    ensures var ok := last == FinishCommit(t);
            CommitEnds(s, if ok then Finished(published, t) else Reopened(published, t), t,
                       if ok then Done else IndexFailed, steps + [last])
  {
    ApplySnoc(s, steps, last);
  }

  lemma UpdatedHeads(before: map<Id, Chain>, after: map<Id, Chain>, writes: map<Id, Version>, vectors: map<Id, Vector>,
                     now: map<Id, Vector>)
    requires AllStores(writes) && Prepended(before, after, writes, writes.Keys)
    requires ChangedOn(writes.Keys, vectors, now)
    ensures HeadsAgree(before, vectors) ==>
              AgreesIff(before, after, VectorsOf(writes), now) &&
              (now == vectors + VectorsOf(writes) ==> HeadsAgree(after, now))
  {
    PrependedPartly(before, after, writes, writes.Keys);
    AgreeIffTouched(before, after, writes, writes.Keys, vectors, now);
    if HeadsAgree(before, vectors) { HeadsAgreeCommitted(before, after, vectors, writes); }
  }

  /** The store leaves the commit as it is. */
  lemma OvertakingKeeps(published: Sys, t: TxId, id: Id, vector: Vector)
    requires MayFinish(published, t) && t <= published.counter
    ensures MayFinish(ApplyNestStore(published, id, vector, None).0, t)
    ensures ApplyNestStore(published, id, vector, None).0.txs[t] == published.txs[t]
  {
  }

  /** A vector that does not fit a page of its own. */
  ghost predicate Oversized(writes: map<Id, Vector>) {
    exists id :: id in writes && |writes[id]| > 988
  }

  /** The pages that the versions need are there. */
  ghost predicate Room(ids: set<Id>, versionPage: Id -> Option<Page>, left: int) {
    |ids| <= left && forall id :: id in ids ==> versionPage(id).Some?
  }

  /** Nothing stands in the way of a commit and of a store that overtakes it. */
  ghost predicate OvertakeFits(s: Sys, t: TxId, id: Id, vector: Vector, versionPage: Id -> Option<Page>, left: int)
    requires t in s.txs && AllStores(s.txs[t].writeSet)
  {
    var writes := s.txs[t].writeSet;
    && s.txs[t].status.Active? && Validates(s, s.txs[t])
    && ResultOfStore(id, vector, s.dimensions, true, |vector| <= 988).Kept?
    && !Oversized(VectorsOf(writes)) && 2 * |writes.Keys| + 1 <= left
    && forall a :: a in writes ==> versionPage(a).Some?
  }

  /** The writes of the transaction fit the pages, those of versions and those of vectors. */
  ghost predicate CommitFits(s: Sys, t: TxId, left: int)
    requires t in s.txs && AllStores(s.txs[t].writeSet)
  {
    !Oversized(VectorsOf(s.txs[t].writeSet)) && 2 * |s.txs[t].writeSet.Keys| <= left
  }

  ghost predicate UpdateFits(s: Sys, t: TxId, id: Id, vector: Vector, left: int)
    requires t in s.txs && AllStores(s.txs[t].writeSet)
  {
    && ResultOfStore(id, vector, s.dimensions, true, |vector| <= 988).Kept?
    && !Oversized(VectorsOf(s.txs[t].writeSet)) && |s.txs[t].writeSet.Keys| + 1 <= left
  }

  lemma OvertakeStarts(s: Sys, t: TxId, id: Id, vector: Vector, versionPage: Id -> Option<Page>, left: int)
    requires MayCommit(s, t)
    ensures OvertakeFits(s, t, id, vector, versionPage, left) ==> OutcomeOf(s, t, true, versionPage, left) == Done
  {
  }

  lemma OvertakeGoesOn(s: Sys, published: Sys, t: TxId, steps: seq<Step>, id: Id, vector: Vector,
                       versionPage: Id -> Option<Page>, left: int)
    requires MayCommit(s, t) && CommitSteps(s, published, t, Done, steps)
    ensures OvertakeFits(s, t, id, vector, versionPage, left) ==>
              UpdateFits(published, t, id, vector, left - |s.txs[t].writeSet.Keys|)
  {
  }

  /** How the phases before the index update end. */
  ghost function OutcomeOf(s: Sys, t: TxId, logOpen: bool, versionPage: Id -> Option<Page>, left: int): Obs
    requires t in s.txs
  {
    var start := StartOutcome(s, t, logOpen);
    if start != Validated then start
    else if !Room(s.txs[t].writeSet.Keys, versionPage, left) then PersistFailed else Done
  }

  lemma OvertakenHeads(s: Sys, published: Sys, vectors: map<Id, Vector>, t: TxId, id: Id, vector: Vector)
    requires t in s.txs && AllStores(s.txs[t].writeSet) && HeadsAgree(s.chains, vectors)
    requires Prepended(s.chains, published.chains, s.txs[t].writeSet, s.txs[t].writeSet.Keys)
    ensures ApplyNestStore(published, id, vector, None).1.Stored? ==>
              (HeadsAgree(ApplyNestStore(published, id, vector, None).0.chains,
                          vectors[id := vector] + VectorsOf(s.txs[t].writeSet))
               <==> (id in s.txs[t].writeSet ==> s.txs[t].writeSet[id].vector == Some(vector)))
  {
    if ApplyNestStore(published, id, vector, None).1.Stored? {
      OvertakenBy(s, published, ApplyNestStore(published, id, vector, None).0, vectors, t, id, vector);
    }
  }

  lemma OvertakenBy(s: Sys, published: Sys, stored: Sys, vectors: map<Id, Vector>, t: TxId, id: Id, vector: Vector)
    requires t in s.txs && AllStores(s.txs[t].writeSet) && HeadsAgree(s.chains, vectors)
    requires Prepended(s.chains, published.chains, s.txs[t].writeSet, s.txs[t].writeSet.Keys)
    requires stored.chains == Added(published, id, NewVersion(published.counter + 1, id, vector, None)).chains
    ensures HeadsAgree(stored.chains, vectors[id := vector] + VectorsOf(s.txs[t].writeSet))
            <==> (id in s.txs[t].writeSet ==> s.txs[t].writeSet[id].vector == Some(vector))
  {
    var writes := VectorsOf(s.txs[t].writeSet);
    HeadsAgreeCommitted(s.chains, published.chains, vectors, s.txs[t].writeSet);
    OvertakenMaps(vectors, writes, id, vector);
    OvertakenHead(published.chains, stored.chains, vectors + writes, vectors[id := vector] + writes, id, vector);
  }

  lemma OvertakenMaps(vectors: map<Id, Vector>, writes: map<Id, Vector>, id: Id, vector: Vector)
    ensures var expected, now := vectors + writes, vectors[id := vector] + writes;
            && now.Keys == expected.Keys + {id} && (forall a :: a in expected && a != id ==> now[a] == expected[a])
            && now[id] == if id in writes then writes[id] else vector
  {
  }

  lemma OvertakenHead(published: map<Id, Chain>, after: map<Id, Chain>, expected: map<Id, Vector>, now: map<Id, Vector>,
                      id: Id, vector: Vector)
    requires HeadsAgree(published, expected) && now.Keys == expected.Keys + {id}
    requires forall a :: a in expected && a != id ==> now[a] == expected[a]
    requires id in after && after == published[id := after[id]] && after[id] != []
             && after[id][0].vector == Some(vector)
    ensures HeadsAgree(after, now) <==> now[id] == vector
  {
  }

  lemma AgreeWithout(chains: map<Id, Chain>, vectors: map<Id, Vector>, id: Id)
    ensures HeadsAgree(chains, vectors) ==> (HeadsAgree(chains, vectors - {id}) <==> id !in vectors)
  {
    if id !in vectors { assert vectors - {id} == vectors; }
  }

  lemma DimensionsAlike(s: Sys, id: Id, v: Vector)
    requires id != [] && |id| <= MAX_ID_LENGTH && (s.dimensions == 0 || |v| == s.dimensions)
    ensures ApplyNestStore(s.(dimensions := |v|), id, v, None).0 == ApplyNestStore(s, id, v, None).0
  {
  }

  lemma StoredAgrees(s: Sys, vectors: map<Id, Vector>, id: Id, v: Vector)
    requires id != [] && |id| <= MAX_ID_LENGTH && (s.dimensions == 0 || |v| == s.dimensions)
    ensures HeadsAgree(s.chains, vectors) ==> HeadsAgree(ApplyNestStore(s, id, v, None).0.chains, vectors[id := v])
  {
    if HeadsAgree(s.chains, vectors) {
      HeadsAgreeAfter(s.chains, ApplyNestStore(s, id, v, None).0.chains, vectors, id, v);
    }
  }

  /** What a store does to chains and index, and what it does if its page write fails. */
  lemma AgreeAfter(s: Sys, vectors: map<Id, Vector>, id: Id, v: Vector)
    requires id != [] && |id| <= MAX_ID_LENGTH && (s.dimensions == 0 || |v| == s.dimensions)
    ensures ApplyNestStore(s.(dimensions := |v|), id, v, None).0 == ApplyNestStore(s, id, v, None).0
    ensures HeadsAgree(s.chains, vectors) ==> HeadsAgree(ApplyNestStore(s, id, v, None).0.chains, vectors[id := v])
    ensures HeadsAgree(s.chains, vectors) ==> (HeadsAgree(s.chains, vectors - {id}) <==> id !in vectors)
  {
    DimensionsAlike(s, id, v);
    StoredAgrees(s, vectors, id, v);
    AgreeWithout(s.chains, vectors, id);
  }

  ghost predicate Listed(order: seq<Id>, ids: set<Id>) {
    Unique(order) && forall id :: id in order <==> id in ids
  }

  lemma ListedMore(order: seq<Id>, ids: set<Id>, id: Id)
    requires Listed(order, ids) && id !in ids
    ensures Listed(order + [id], ids + {id})
  {
  }

  lemma OneLess(keys: set<Id>, todo: set<Id>, id: Id)
    requires id in keys
    ensures keys - (todo - {id}) == keys - todo + {id}
  {
  }

  /** The log has had the writes appended in this order. */
  ghost predicate AppendedWrites(env: Env, l: WalLog.Log, now: WalLog.Log, order: seq<Id>, writes: map<Id, Vector>) {
    (forall i :: 0 <= i < |order| ==> order[i] in writes) && now == WalLog.Run(env, l, AppendsOf(order, writes))
  }

  /** All writes, and a flush. */
  ghost predicate LoggedWrites(env: Env, l: WalLog.Log, now: WalLog.Log, order: seq<Id>, writes: map<Id, Vector>) {
    IsOrder(order, writes) && now == WalLog.Run(env, l, CommitOps(order, writes))
  }

  lemma AppendsMore(env: Env, l: WalLog.Log, order: seq<Id>, writes: map<Id, Vector>, id: Id)
    requires id in writes && forall i :: 0 <= i < |order| ==> order[i] in writes
    ensures forall i :: 0 <= i < |order + [id]| ==> (order + [id])[i] in writes
    ensures WalLog.Run(env, l, AppendsOf(order + [id], writes))
            == WalLog.Step(env, WalLog.Run(env, l, AppendsOf(order, writes)), WalLog.OpAppend(InsertOf(id, writes[id])))
  {
    assert (order + [id])[..|order|] == order;
    var ops := AppendsOf(order + [id], writes);
    assert ops[..|ops| - 1] == AppendsOf(order, writes);
  }

  lemma FlushMore(env: Env, l: WalLog.Log, appended: WalLog.Log, order: seq<Id>, writes: map<Id, Vector>)
    requires AppendedWrites(env, l, appended, order, writes) && Listed(order, writes.Keys)
    ensures LoggedWrites(env, l, WalLog.Step(env, appended, WalLog.OpFlush), order, writes)
  {
    var ops := CommitOps(order, writes);
    assert ops[..|ops| - 1] == AppendsOf(order, writes);
  }

  predicate AllStores(writes: map<Id, Version>) {
    forall id :: id in writes ==> writes[id].vector.Some?
  }

  function VectorsOf(writes: map<Id, Version>): map<Id, Vector>
    requires AllStores(writes)
  {
    map id | id in writes :: writes[id].vector.value
  }

  /** The map after all writes but those still to do. */
  ghost predicate Merged(before: map<Id, Vector>, writes: map<Id, Vector>, todo: set<Id>, now: map<Id, Vector>) {
    && now.Keys == before.Keys + (writes.Keys - todo)
    && forall id :: id in now ==> now[id] == if id in writes && id !in todo then writes[id] else before[id]
  }

  lemma MergeStep(before: map<Id, Vector>, writes: map<Id, Vector>, todo: set<Id>, id: Id, now: map<Id, Vector>)
    requires Merged(before, writes, todo, now) && id in todo && todo <= writes.Keys
    ensures Merged(before, writes, todo - {id}, now[id := writes[id]])
  {
  }

  lemma MergedChanged(before: map<Id, Vector>, writes: map<Id, Vector>, todo: set<Id>, now: map<Id, Vector>)
    requires Merged(before, writes, todo, now)
    ensures ChangedOn(writes.Keys, before, now)
  {
  }

  lemma MergedAll(before: map<Id, Vector>, writes: map<Id, Vector>, now: map<Id, Vector>)
    requires Merged(before, writes, {}, now)
    ensures now == before + writes
  {
  }

  lemma HeadsAgreeCommitted(before: map<Id, Chain>, after: map<Id, Chain>, vectors: map<Id, Vector>,
                            writes: map<Id, Version>)
    requires HeadsAgree(before, vectors) && AllStores(writes) && Prepended(before, after, writes, writes.Keys)
    ensures HeadsAgree(after, vectors + VectorsOf(writes))
  {
  }

  lemma TakenBack(before: map<Id, Vector>, id: Id, vector: Vector)
    ensures before[id := vector] - {id} == before - {id} && (id !in before ==> before - {id} == before)
  {
  }

  lemma OneStep(s: Sys, step: Step)
    ensures ApplyAll(s, [step]) == Apply(s, step).0
  {
    assert [step][..0] == [];
    assert ApplyAll(s, []) == s;
  }
}
