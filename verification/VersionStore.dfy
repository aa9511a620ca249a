/**
 * storage_mvcc.go: MVCCStorage over the page file. No page that holds a listed
 * version is ever free, shared or handed out.
 */
module VersionStore {
  import opened Base
  import opened WalCodec
  import opened Pages
  import opened VersionPage
  import opened DiskChains

  ghost predicate Listed(index: PageIndex, p: nat) {
    exists a :: Lists(index, a, p)
  }

  /** Every page that was free, listed or not there yet is free or listed afterwards, or is the lost one. */
  ghost predicate Accounted(index: PageIndex, free: seq<nat>, count: nat, index': PageIndex, free': seq<nat>,
                            count': nat, lost: Option<nat>)
  {
    forall p: nat {:trigger Listed(index', p)} ::
      1 <= p < count' && (p >= count || p in free || Listed(index, p)) ==>
        p in free' || Listed(index', p) || lost == Some(p)
  }

  ghost predicate Sound(env: Env, index: PageIndex, pages: seq<Page>, freeList: seq<nat>) {
    && FreeOk(pages, freeList) && Placed(index, |pages|, freeList)
    && Readable(ReaderOf(env, pages), index) && Ordered(index, NumberIn(pages))
  }

  /** The listed pages have the same content in both files. */
  ghost predicate SamePages(index: PageIndex, before: seq<Page>, after: seq<Page>) {
    forall id, p: nat :: Lists(index, id, p) && p < |before| ==> p < |after| && after[p] == before[p]
  }

  /** Changes to pages that are not listed, and changes to the free list that keep clear of the listed, do no harm. */
  lemma FrameSound(env: Env, index: PageIndex, before: seq<Page>, after: seq<Page>, freeBefore: seq<nat>,
                   freeAfter: seq<nat>)
    requires Sound(env, index, before, freeBefore) && SamePages(index, before, after) && |before| <= |after|
    requires FreeOk(after, freeAfter) && forall id, p: nat :: Lists(index, id, p) ==> p !in freeAfter
    ensures Sound(env, index, after, freeAfter)
  {
    forall id, p: nat | Lists(index, id, p)
      ensures ReaderOf(env, after)(p) == ReaderOf(env, before)(p) && NumberIn(after)(p) == NumberIn(before)(p)
    {
      assert 1 <= p < |before|;
    }
    forall id | id in index ensures NewestFirst(NumberIn(after), index[id]) {
      forall i | 0 <= i < |index[id]| ensures NumberIn(after)(index[id][i]) == NumberIn(before)(index[id][i]) {
        assert Lists(index, id, index[id][i]);
      }
    }
  }

  /** A chain with one more page, sorted again, is as good as before. */
  lemma AddedSound(env: Env, index: PageIndex, pages: seq<Page>, freeList: seq<nat>, id: Id, p: nat, chain: seq<nat>)
    requires Sound(env, index, pages, freeList)
    requires 1 <= p < |pages| && p !in freeList && (forall a :: !Lists(index, a, p))
    requires ReaderOf(env, pages)(p).Some? && ReaderOf(env, pages)(p).value.id == id
    requires multiset(chain) == multiset([p] + ChainOf(index, id)) && NewestFirst(NumberIn(pages), chain)
    ensures Sound(env, index[id := chain], pages, freeList)
  {
    var before := ChainOf(index, id);
    var after := index[id := chain];
    SameElements(chain, [p] + before);
    DistinctIff([p] + before);
    DistinctIff(chain);
    assert p in before ==> Lists(index, id, p);
    assert p in [p] + before;
    forall a, q: nat | Lists(after, a, q) ensures Lists(index, a, q) || (a == id && q == p) {
      if a == id { assert q in [p] + before; }
    }
  }

  lemma SameElements(a: seq<nat>, b: seq<nat>)
    requires multiset(a) == multiset(b)
    ensures forall x :: x in a <==> x in b
    ensures |a| == |b|
  {
    forall x ensures x in a <==> x in b { assert x in multiset(a) <==> x in multiset(b); }
    assert |multiset(a)| == |a| && |multiset(b)| == |b|;
  }

  lemma CancelOne(a: seq<nat>, b: seq<nat>, c: seq<nat>, p: nat)
    requires multiset(a + [p]) == multiset(b + [p] + c)
    ensures multiset(a) == multiset(b + c)
  {
    assert multiset(a + [p]) == multiset(a) + multiset{p};
    assert multiset(b + [p] + c) == multiset(b + c) + multiset{p};
    assert multiset(a) == multiset(a) + multiset{p} - multiset{p};
  }

  lemma {:induction false} VersionsMultiset(at: Reader, ps: seq<nat>, qs: seq<nat>)
    requires multiset(ps) == multiset(qs)
    ensures multiset(VersionsOf(at, ps)) == multiset(VersionsOf(at, qs))
  {
    if ps == [] {
      SameElements(ps, qs);
    } else {
      var p := ps[|ps| - 1];
      assert ps == ps[..|ps| - 1] + [p];
      assert p in multiset(qs);
      var k :| 0 <= k < |qs| && qs[k] == p;
      var rest := qs[..k] + qs[k + 1..];
      assert qs == qs[..k] + [p] + qs[k + 1..];
      CancelOne(ps[..|ps| - 1], qs[..k], qs[k + 1..], p);
      VersionsMultiset(at, ps[..|ps| - 1], rest);
      VersionsMove(at, qs[..k], p, qs[k + 1..]);
      VersionsSnoc(at, ps[..|ps| - 1], p);
    }
  }

  function VersionBag(at: Reader, p: nat): multiset<DiskVersion> {
    match at(p)
    case None => multiset{}
    case Some(v) => multiset{v}
  }

  lemma VersionsSnoc(at: Reader, ps: seq<nat>, p: nat)
    ensures multiset(VersionsOf(at, ps + [p])) == multiset(VersionsOf(at, ps)) + VersionBag(at, p)
  {
    assert (ps + [p])[..|ps|] == ps;
  }

  lemma {:induction false} VersionsMove(at: Reader, a: seq<nat>, p: nat, b: seq<nat>)
    ensures multiset(VersionsOf(at, a + [p] + b)) == multiset(VersionsOf(at, a + b)) + VersionBag(at, p)
  {
    if b == [] {
      assert a + [p] + b == a + [p] && a + b == a;
      VersionsSnoc(at, a, p);
    } else {
      var front, last := b[..|b| - 1], b[|b| - 1];
      VersionsMove(at, a, p, front);
      assert a + [p] + b == (a + [p] + front) + [last] && a + b == (a + front) + [last];
      VersionsSnoc(at, a + [p] + front, last);
      VersionsSnoc(at, a + front, last);
    }
  }

  lemma {:induction false} VersionsSame(at: Reader, at': Reader, ps: seq<nat>)
    requires forall p :: p in ps ==> at(p) == at'(p)
    ensures VersionsOf(at, ps) == VersionsOf(at', ps)
  {
    if ps != [] { VersionsSame(at, at', ps[..|ps| - 1]); }
  }

  function ChainOf(index: PageIndex, id: Id): seq<nat> {
    if id in index then index[id] else []
  }

  /** What GetAllVersions finds for an ID. */
  function Found(env: Env, index: PageIndex, pages: seq<Page>, id: Id): seq<DiskVersion> {
    VersionsOf(ReaderOf(env, pages), ChainOf(index, id))
  }

  /** The listed pages read the same. */
  ghost predicate SameReads(env: Env, index: PageIndex, before: seq<Page>, after: seq<Page>) {
    forall id, q: nat :: Lists(index, id, q) ==> ReaderOf(env, after)(q) == ReaderOf(env, before)(q)
  }

  lemma FoundSame(env: Env, index: PageIndex, before: seq<Page>, after: seq<Page>)
    requires SameReads(env, index, before, after)
    ensures forall id :: Found(env, index, after, id) == Found(env, index, before, id)
  {
    forall id ensures Found(env, index, after, id) == Found(env, index, before, id) {
      forall q | q in ChainOf(index, id) ensures ReaderOf(env, after)(q) == ReaderOf(env, before)(q) {
        assert Lists(index, id, q);
      }
      VersionsSame(ReaderOf(env, before), ReaderOf(env, after), ChainOf(index, id));
    }
  }

  /** What is found after one more version was stored. */
  lemma FoundStored(env: Env, index: PageIndex, pages: seq<Page>, p: nat, chain: seq<nat>, v: DiskVersion)
    requires multiset(chain) == multiset([p] + ChainOf(index, v.id)) && ReaderOf(env, pages)(p) == Some(v)
    ensures multiset(Found(env, index[v.id := chain], pages, v.id)) == multiset(Found(env, index, pages, v.id))
            + multiset{v}
  {
    var at, before := ReaderOf(env, pages), ChainOf(index, v.id);
    VersionsMultiset(at, chain, [p] + before);
    VersionsMove(at, [], p, before);
    assert [] + [p] + before == [p] + before && [] + before == before;
  }

  lemma NewestVersions(at: Reader, number: nat -> nat, ps: seq<nat>)
    requires forall p :: p in ps ==> at(p).Some? && number(p) == at(p).value.version
    requires NewestFirst(number, ps)
    ensures var vs := VersionsOf(at, ps);
            |vs| == |ps| && forall i, j :: 0 <= i < j < |vs| ==> vs[i].version >= vs[j].version
  {
    VersionsAt(at, ps);
  }

  class Store {
    const env: Env
    const storage: Storage
    var versionIndex: PageIndex

    ghost predicate Valid()
      reads this, storage
    {
      storage.Valid() && Sound(env, versionIndex, storage.pages, storage.freeList)
    }

    /** What GetAllVersions returns for an ID. */
    ghost function Versions(id: Id): seq<DiskVersion>
      reads this, storage
    {
      Found(env, versionIndex, storage.pages, id)
    }

    constructor (env: Env, storage: Storage)
      requires storage.Valid()
      ensures Valid() && this.env == env && this.storage == storage && versionIndex == map[]
    {
      this.env, this.storage, versionIndex := env, storage, map[];
    }

    method GetAllVersions(id: Id) returns (versions: seq<DiskVersion>)
      requires Valid()
      ensures versions == Versions(id)
      ensures forall i, j :: 0 <= i < j < |versions| ==> versions[i].version >= versions[j].version
      ensures forall i :: 0 <= i < |versions| ==> versions[i].id == id
    {
      versions := [];
      if id !in versionIndex {
        return;
      }
      var ps := versionIndex[id];
      for i := 0 to |ps|
        invariant versions == VersionsOf(ReaderOf(env, storage.pages), ps[..i])
      {
        assert ps[..i + 1][..i] == ps[..i];
        var page := storage.ReadPage(ps[i]);
        if page.Some? {
          var v := PageToVersion(env, page.value);
          if v.Some? {
            versions := versions + [v.value];
          }
        }
      }
      assert ps[..|ps|] == ps;
      ChainFacts(env, versionIndex, storage.pages, storage.freeList, id);
    }

    /**
     * A page is allocated before the version is checked: one that does not fit
     * costs its page, which is then neither free nor listed.
     */
    method StoreVersion(v: DiskVersion) returns (ok: bool, ghost lost: Option<nat>)
      requires Valid() && JsonOk(env) && NumbersFit(v)
      modifies this`versionIndex, storage
      ensures Valid()
      ensures ok <==> FitsPage(env, v) && (old(storage.freeList) != [] || |old(storage.pages)| < storage.limit)
      ensures ok ==> multiset(Versions(v.id)) == multiset(old(Versions(v.id))) + multiset{v}
      ensures forall id :: !ok || id != v.id ==> Versions(id) == old(Versions(id))
      ensures versionIndex.Keys == old(versionIndex.Keys) + if ok then {v.id} else {}
      ensures storage.freeList <= old(storage.freeList)
      ensures |old(storage.pages)| <= |storage.pages| <= |old(storage.pages)| + 1
      ensures forall a, q: nat :: Lists(versionIndex, a, q) ==>
                Lists(old(versionIndex), a, q) || q in old(storage.freeList) || q >= |old(storage.pages)|
      ensures lost.Some? <==>
              !FitsPage(env, v) && (old(storage.freeList) != [] || |old(storage.pages)| < storage.limit)
      ensures lost.Some? ==> 1 <= lost.value < |storage.pages| && lost.value !in storage.freeList
                             && !Listed(versionIndex, lost.value)
                             && (lost.value in old(storage.freeList) || lost.value == |old(storage.pages)|)
      ensures Accounted(old(versionIndex), old(storage.freeList), |old(storage.pages)|,
                        versionIndex, storage.freeList, |storage.pages|, lost)
    {
      ghost var index, before, free := versionIndex, storage.pages, storage.freeList;
      var p := storage.AllocatePage();
      AllocatedFrame(env, index, before, free, storage.pages, storage.freeList, p);
      AllocatedAccounted(index, before, free, storage.pages, storage.freeList, p);
      if p.None? {
        return false, None;
      }
      var page := VersionToPage(env, v);
      if page.None? {
        return false, p;
      }
      VersionRoundTrip(env, v);
      Link(v, p.value, page.value);
      ok, lost := true, None;
    }

    /** The page is written, put at the front of its chain, and the chain is sorted again. */
    method Link(v: DiskVersion, p: nat, page: Page)
      requires Valid() && 1 <= p < |storage.pages| && p !in storage.freeList && (forall a :: !Lists(versionIndex, a, p))
      requires PageToVersion(env, page) == Some(v)
      modifies this`versionIndex, storage`pages
      ensures Valid() && |storage.pages| == |old(storage.pages)|
      ensures multiset(Versions(v.id)) == multiset(old(Versions(v.id))) + multiset{v}
      ensures forall id :: id != v.id ==> Versions(id) == old(Versions(id))
      ensures versionIndex.Keys == old(versionIndex.Keys) + {v.id}
      ensures forall a, q: nat :: Lists(versionIndex, a, q) ==> Lists(old(versionIndex), a, q) || q == p
      ensures Gains(old(versionIndex), versionIndex, p)
    {
      ghost var before := storage.pages;
      var ok := storage.WritePage(p, page);
      var chain := [p] + ChainOf(versionIndex, v.id);
      var sorted := SortChain(NumberIn(storage.pages), chain);
      LinkOk(env, versionIndex, before, storage.pages, storage.freeList, v, p, sorted);
      LinkGains(versionIndex, v.id, p, sorted);
      versionIndex := versionIndex[v.id := sorted];
    }

    /** One chain of the collection: what is kept stays in order, the rest goes to the free list. */
    method CollectChain(id: Id, oldest: TxId) returns (removed: nat)
      requires Valid() && id in versionIndex
      modifies this`versionIndex, storage`freeList
      ensures Valid()
      ensures versionIndex == old(versionIndex)[id := Kept(ReaderOf(env, storage.pages), old(versionIndex[id]), oldest)]
      ensures storage.freeList == old(storage.freeList)
              + Freed(ReaderOf(env, storage.pages), old(versionIndex[id]), oldest)
      ensures removed == |storage.freeList| - |old(storage.freeList)|
      ensures OnlyFrom(old(versionIndex), versionIndex, old(storage.freeList), storage.freeList)
    {
      var ps, kept := versionIndex[id], [];
      removed := 0;
      ghost var at, free := ReaderOf(env, storage.pages), storage.freeList;
      assert free + [] == free;
      for i := 0 to |ps|
        invariant kept == Kept(at, ps[..i], oldest) && versionIndex == old(versionIndex)
        invariant storage.freeList == free + Freed(at, ps[..i], oldest) && removed == |Freed(at, ps[..i], oldest)|
      {
        assert ps[..i + 1][..i] == ps[..i];
        assert Lists(versionIndex, id, ps[i]);
        var page := storage.ReadPage(ps[i]);
        var v := PageToVersion(env, page.value).value;
        if v.created >= oldest || v.deleted == 0 || |kept| == 0 {
          kept := kept + [ps[i]];
        } else {
          assert free + (Freed(at, ps[..i], oldest) + [ps[i]]) == free + Freed(at, ps[..i], oldest) + [ps[i]];
          var ok := storage.FreePage(ps[i]);
          removed := removed + 1;
        }
      }
      assert ps[..|ps|] == ps;
      CollectedSound(env, versionIndex, storage.pages, free, id, oldest);
      CollectedFrom(env, versionIndex, storage.pages, free, id, oldest);
      versionIndex := versionIndex[id := kept];
    }

    /** Every chain is collected, in any order of the IDs. */
    method GCVersionsOlderThan(oldest: TxId) returns (removed: nat)
      requires Valid()
      modifies this`versionIndex, storage`freeList
      ensures Valid() && versionIndex.Keys == old(versionIndex.Keys) && old(storage.freeList) <= storage.freeList
      ensures Collected(ReaderOf(env, storage.pages), old(versionIndex), versionIndex, {}, oldest)
      ensures removed == |storage.freeList| - |old(storage.freeList)|
      ensures OnlyFrom(old(versionIndex), versionIndex, old(storage.freeList), storage.freeList)
      ensures ExactlyDead(ReaderOf(env, storage.pages), old(versionIndex), versionIndex, old(storage.freeList),
                          storage.freeList, oldest, removed)
    {
      removed := 0;
      ghost var at, index, free := ReaderOf(env, storage.pages), versionIndex, storage.freeList;
      var todo := versionIndex.Keys;
      while todo != {}
        invariant Valid() && todo <= versionIndex.Keys && Collected(at, index, versionIndex, todo, oldest)
        invariant old(storage.freeList) <= storage.freeList && removed == |storage.freeList| - |old(storage.freeList)|
        invariant OnlyFrom(index, versionIndex, old(storage.freeList), storage.freeList)
        decreases todo
      {
        var id :| id in todo;
        ghost var before, freeBefore := versionIndex, storage.freeList;
        var n := CollectChain(id, oldest);
        CollectedStep(at, index, before, versionIndex, todo, oldest, id);
        OnlyFromStep(index, before, versionIndex, old(storage.freeList), freeBefore, storage.freeList);
        removed, todo := removed + n, todo - {id};
      }
      CollectedDead(env, index, versionIndex, storage.pages, free, storage.freeList, oldest);
    }
  }

  /** What linking a freshly written page does. */
  lemma LinkOk(env: Env, index: PageIndex, before: seq<Page>, after: seq<Page>, freeList: seq<nat>, v: DiskVersion,
               p: nat, chain: seq<nat>)
    requires Sound(env, index, before, freeList) && 1 <= p < |before| == |after| && p !in freeList
    requires (forall a :: !Lists(index, a, p)) && (forall q :: 0 <= q < |before| && q != p ==> after[q] == before[q])
    requires PageToVersion(env, after[p]) == Some(v)
    requires multiset(chain) == multiset([p] + ChainOf(index, v.id)) && NewestFirst(NumberIn(after), chain)
    ensures Sound(env, index[v.id := chain], after, freeList)
    ensures multiset(Found(env, index[v.id := chain], after, v.id)) == multiset(Found(env, index, before, v.id))
            + multiset{v}
    ensures forall id :: id != v.id ==> Found(env, index[v.id := chain], after, id) == Found(env, index, before, id)
    ensures forall a, q: nat :: Lists(index[v.id := chain], a, q) ==> Lists(index, a, q) || q == p
  {
    WrittenFrame(env, index, before, freeList, after, freeList, p);
    AddedSound(env, index, after, freeList, v.id, p, chain);
    FoundStored(env, index, after, p, chain, v);
    SameElements(chain, [p] + ChainOf(index, v.id));
  }

  /** The pages listed before are still listed, and so is the new one. */
  ghost predicate Gains(index: PageIndex, index': PageIndex, p: nat) {
    forall q: nat {:trigger Listed(index', q)} :: Listed(index, q) || q == p ==> Listed(index', q)
  }

  lemma LinkGains(index: PageIndex, id: Id, p: nat, chain: seq<nat>)
    requires multiset(chain) == multiset([p] + ChainOf(index, id))
    ensures Gains(index, index[id := chain], p)
  {
    var after := index[id := chain];
    SameElements(chain, [p] + ChainOf(index, id));
    forall q: nat | Listed(index, q) || q == p ensures Listed(after, q) {
      if q == p {
        assert q in [p] + ChainOf(index, id);
        assert Lists(after, id, q);
      } else {
        var a :| Lists(index, a, q);
        assert a == id ==> q in [p] + ChainOf(index, id);
        assert Lists(after, a, q);
      }
    }
  }

  lemma AllocatedAccounted(index: PageIndex, before: seq<Page>, free: seq<nat>, after: seq<Page>, free': seq<nat>,
                           p: Option<nat>)
    requires p.None? ==> after == before && free' == free
    requires p.Some? && free != [] ==> free == free' + [p.value] && after == before
    requires p.Some? && free == [] ==> p.value == |before| && |after| == |before| + 1
    ensures Accounted(index, free, |before|, index, free', |after|, p)
  {
  }

  /** All chains but those still to do are what collection keeps of them. */
  ghost predicate Collected(at: Reader, before: PageIndex, after: PageIndex, todo: set<Id>, oldest: TxId) {
    && after.Keys == before.Keys
    && forall id :: id in before ==> after[id] == if id in todo then before[id] else Kept(at, before[id], oldest)
  }

  lemma CollectedStep(at: Reader, before: PageIndex, during: PageIndex, after: PageIndex, todo: set<Id>, oldest: TxId,
                      id: Id)
    requires Collected(at, before, during, todo, oldest) && id in todo && id in during
    requires after == during[id := Kept(at, during[id], oldest)]
    ensures Collected(at, before, after, todo - {id}, oldest)
  {
  }

  /** Chains only lose pages, to the free list, and the pages that became free are pages that were listed. */
  ghost predicate OnlyFrom(before: PageIndex, after: PageIndex, freeBefore: seq<nat>, freeAfter: seq<nat>) {
    && (forall a, q: nat :: Lists(after, a, q) ==> Lists(before, a, q))
    && (forall q :: q in freeAfter ==> q in freeBefore || Listed(before, q))
    && (forall q: nat :: q in freeBefore || Listed(before, q) ==> q in freeAfter || Listed(after, q))
  }

  lemma OnlyFromStep(a: PageIndex, b: PageIndex, c: PageIndex, freeA: seq<nat>, freeB: seq<nat>, freeC: seq<nat>)
    requires OnlyFrom(a, b, freeA, freeB) && OnlyFrom(b, c, freeB, freeC)
    ensures OnlyFrom(a, c, freeA, freeC)
  {
    forall q | q in freeC && q !in freeB ensures Listed(a, q) {
      var id :| Lists(b, id, q);
      assert Lists(a, id, q);
    }
  }

  lemma KeptOrFreed(at: Reader, ps: seq<nat>, oldest: TxId, q: nat)
    requires (forall p :: p in ps ==> at(p).Some?) && q in ps
    ensures q in Kept(at, ps, oldest) || q in Freed(at, ps, oldest)
  {
    KeptAndFreed(at, ps, oldest);
    assert q in multiset(ps);
  }

  lemma CollectedFrom(env: Env, index: PageIndex, pages: seq<Page>, freeList: seq<nat>, id: Id, oldest: TxId)
    requires Sound(env, index, pages, freeList) && id in index
    ensures var at := ReaderOf(env, pages);
            OnlyFrom(index, index[id := Kept(at, index[id], oldest)], freeList, freeList + Freed(at, index[id], oldest))
  {
    var at, ps := ReaderOf(env, pages), index[id];
    ChainReadable(env, index, pages, freeList, id);
    ChainSplit(at, NumberIn(pages), ps, oldest);
    var after := index[id := Kept(at, ps, oldest)];
    forall a, q: nat | Lists(after, a, q) ensures Lists(index, a, q) {
      if a == id { assert q in Kept(at, ps, oldest); }
    }
    forall q | q in Freed(at, ps, oldest) ensures Listed(index, q) { assert Lists(index, id, q); }
    forall q: nat | Listed(index, q) ensures q in Freed(at, ps, oldest) || Listed(after, q) {
      var a :| Lists(index, a, q);
      if a == id {
        KeptOrFreed(at, ps, oldest, q);
        assert q in Kept(at, ps, oldest) ==> Lists(after, id, q);
      } else {
        assert Lists(after, a, q);
      }
    }
  }

  /** Pages that move from a chain to the free list are listed no more; the others stay where they were. */
  lemma PlacedAfter(index: PageIndex, count: nat, free: seq<nat>, id: Id, kept: seq<nat>, freed: seq<nat>)
    requires Placed(index, count, free) && id in index && Unique(kept)
    requires forall p :: p in kept ==> p in index[id] && p !in freed
    requires forall p :: p in freed ==> p in index[id]
    ensures Placed(index[id := kept], count, free + freed)
    ensures forall a, p: nat :: Lists(index[id := kept], a, p) ==> Lists(index, a, p)
  {
    var after := index[id := kept];
    forall a, p: nat | Lists(after, a, p) ensures Lists(index, a, p) && p !in freed {
      if a == id {
        assert p in kept;
      } else {
        assert p in index[id] ==> Lists(index, id, p);
        assert Lists(index, a, p);
      }
    }
  }

  lemma ChainsAfter(at: Reader, number: nat -> nat, index: PageIndex, id: Id, kept: seq<nat>)
    requires Readable(at, index) && Ordered(index, number) && id in index
    requires kept != [] && NewestFirst(number, kept) && forall p :: p in kept ==> p in index[id]
    ensures Readable(at, index[id := kept]) && Ordered(index[id := kept], number)
  {
    var after := index[id := kept];
    forall a, p: nat | Lists(after, a, p) ensures at(p).Some? && at(p).value.id == a {
      if a == id { assert p in kept; }
      assert Lists(index, a, p);
    }
  }

  /** What a chain of a sound store is split into. */
  lemma ChainSplit(at: Reader, number: nat -> nat, ps: seq<nat>, oldest: TxId)
    requires ps != [] && Unique(ps) && NewestFirst(number, ps) && forall p :: p in ps ==> at(p).Some?
    ensures var kept, freed := Kept(at, ps, oldest), Freed(at, ps, oldest);
            && kept != [] && Unique(kept) && NewestFirst(number, kept)
            && (forall p :: p in kept ==> p in ps && p !in freed)
            && Unique(freed) && (forall p :: p in freed ==> p in ps)
  {
    KeptAndFreed(at, ps, oldest);
    LatestKept(at, ps, oldest);
    KeptSorted(at, number, ps, oldest);
    SplitDistinct(ps, Kept(at, ps, oldest), Freed(at, ps, oldest));
  }

  lemma ChainReadable(env: Env, index: PageIndex, pages: seq<Page>, freeList: seq<nat>, id: Id)
    requires Sound(env, index, pages, freeList) && id in index
    ensures forall p :: p in index[id] ==> ReaderOf(env, pages)(p).Some? && 1 <= p < |pages| && p !in freeList
  {
    forall p | p in index[id] ensures ReaderOf(env, pages)(p).Some? && 1 <= p < |pages| && p !in freeList {
      assert Lists(index, id, p);
    }
  }

  lemma KeptIff(at: Reader, number: nat -> nat, ps: seq<nat>, oldest: TxId, p: nat)
    requires ps != [] && Unique(ps) && NewestFirst(number, ps) && forall q :: q in ps ==> at(q).Some?
    ensures p in Kept(at, ps, oldest) <==> p in ps && !Dead(at, ps, oldest, p)
  {
    ChainSplit(at, number, ps, oldest);
    FreedIff(at, ps, oldest, p);
    if p in ps { KeptOrFreed(at, ps, oldest, p); }
  }

  ghost predicate Dies(at: Reader, index: PageIndex, oldest: TxId, p: nat) {
    exists id :: id in index && Dead(at, index[id], oldest, p)
  }

  /** Exactly the dead pages of all chains have left their chains and become free, and so many are counted. */
  ghost predicate ExactlyDead(at: Reader, before: PageIndex, after: PageIndex, freeBefore: seq<nat>,
                              freeAfter: seq<nat>, oldest: TxId, removed: nat)
  {
    && (forall id, p: nat :: Lists(after, id, p) <==> Lists(before, id, p) && !Dead(at, before[id], oldest, p))
    && (forall p: nat :: p in freeAfter <==> p in freeBefore || Dies(at, before, oldest, p))
    && removed == |set p: nat | p in freeAfter && Dies(at, before, oldest, p)|
  }

  lemma DeadIsFree(env: Env, before: PageIndex, after: PageIndex, pages: seq<Page>, free: seq<nat>, free': seq<nat>,
                   oldest: TxId, p: nat)
    requires Sound(env, before, pages, free) && Sound(env, after, pages, free') && free <= free'
    requires OnlyFrom(before, after, free, free')
    requires forall id, q: nat :: Lists(after, id, q) <==>
               Lists(before, id, q) && !Dead(ReaderOf(env, pages), before[id], oldest, q)
    ensures p in free' <==> p in free || Dies(ReaderOf(env, pages), before, oldest, p)
  {
    if p in free' && p !in free {
      var id :| Lists(before, id, p);
      assert !Lists(after, id, p);
    }
    if Dies(ReaderOf(env, pages), before, oldest, p) {
      var id :| id in before && Dead(ReaderOf(env, pages), before[id], oldest, p);
      assert Lists(before, id, p) && Listed(before, p);
    }
  }

  function Elements(ps: seq<nat>): set<nat> {
    set p | p in ps
  }

  lemma {:induction false} DistinctSize(ps: seq<nat>)
    requires Unique(ps)
    ensures |Elements(ps)| == |ps|
  {
    if ps != [] {
      var n := |ps| - 1;
      DistinctSize(ps[..n]);
      assert ps[n] !in ps[..n];
      assert Elements(ps) == Elements(ps[..n]) + {ps[n]};
    }
  }

  /** The new elements of a list that has only grown. */
  lemma NewCount(free: seq<nat>, free': seq<nat>, added: set<nat>)
    requires free <= free' && Unique(free') && forall p :: p in added <==> p in free' && p !in free
    ensures |added| == |free'| - |free|
  {
    var tail := free'[|free|..];
    assert free' == free + tail;
    DistinctSize(tail);
    assert added == Elements(tail);
  }

  /** A dead page was listed, so it was not free. */
  lemma DeadWasNotFree(env: Env, index: PageIndex, pages: seq<Page>, free: seq<nat>, oldest: TxId, p: nat)
    requires Sound(env, index, pages, free) && Dies(ReaderOf(env, pages), index, oldest, p)
    ensures p !in free
  {
    var id :| id in index && Dead(ReaderOf(env, pages), index[id], oldest, p);
    assert Lists(index, id, p);
  }

  lemma LeftIff(env: Env, before: PageIndex, after: PageIndex, pages: seq<Page>, free: seq<nat>, oldest: TxId, id: Id,
                p: nat)
    requires Sound(env, before, pages, free) && Collected(ReaderOf(env, pages), before, after, {}, oldest)
    ensures Lists(after, id, p) <==> Lists(before, id, p) && !Dead(ReaderOf(env, pages), before[id], oldest, p)
  {
    if id in before {
      ChainReadable(env, before, pages, free, id);
      KeptIff(ReaderOf(env, pages), NumberIn(pages), before[id], oldest, p);
    }
  }

  lemma CollectedDead(env: Env, before: PageIndex, after: PageIndex, pages: seq<Page>, free: seq<nat>, free': seq<nat>,
                      oldest: TxId)
    requires Sound(env, before, pages, free) && Sound(env, after, pages, free') && free <= free'
    requires Collected(ReaderOf(env, pages), before, after, {}, oldest) && OnlyFrom(before, after, free, free')
    ensures ExactlyDead(ReaderOf(env, pages), before, after, free, free', oldest, |free'| - |free|)
  {
    var at := ReaderOf(env, pages);
    forall id, p: nat ensures Lists(after, id, p) <==> Lists(before, id, p) && !Dead(at, before[id], oldest, p) {
      LeftIff(env, before, after, pages, free, oldest, id, p);
    }
    forall p: nat ensures p in free' <==> p in free || Dies(at, before, oldest, p) {
      DeadIsFree(env, before, after, pages, free, free', oldest, p);
    }
    forall p: nat | Dies(at, before, oldest, p) ensures p !in free {
      DeadWasNotFree(env, before, pages, free, oldest, p);
    }
    NewCount(free, free', set p: nat | p in free' && Dies(at, before, oldest, p));
  }

  /** Keeping some pages of a chain and freeing the others is sound: no freed page is listed any more, or was free. */
  lemma CollectedSound(env: Env, index: PageIndex, pages: seq<Page>, freeList: seq<nat>, id: Id, oldest: TxId)
    requires Sound(env, index, pages, freeList) && id in index
    ensures var at := ReaderOf(env, pages);
            Sound(env, index[id := Kept(at, index[id], oldest)], pages, freeList + Freed(at, index[id], oldest))
  {
    var at, ps := ReaderOf(env, pages), index[id];
    var kept, freed := Kept(at, ps, oldest), Freed(at, ps, oldest);
    ChainReadable(env, index, pages, freeList, id);
    ChainSplit(at, NumberIn(pages), ps, oldest);
    PlacedAfter(index, |pages|, freeList, id, kept, freed);
    ChainsAfter(at, NumberIn(pages), index, id, kept);
    FreedOk(pages, freeList, freed);
  }

  lemma FreedOk(pages: seq<Page>, freeList: seq<nat>, freed: seq<nat>)
    requires FreeOk(pages, freeList) && Unique(freed) && forall p :: p in freed ==> 1 <= p < |pages| && p !in freeList
    ensures FreeOk(pages, freeList + freed)
  {
    forall i | 0 <= i < |freed| ensures freed[i] !in freeList { assert freed[i] in freed; }
    forall i | 0 <= i < |freeList| ensures freeList[i] in freeList {}
  }

  /** Two parts of a list without duplicates have none, and nothing in common. */
  lemma SplitDistinct(ps: seq<nat>, kept: seq<nat>, freed: seq<nat>)
    requires Unique(ps) && multiset(kept) + multiset(freed) == multiset(ps)
    ensures Unique(kept) && Unique(freed) && forall p :: p in freed ==> p !in kept && p in ps
  {
    DistinctIff(ps);
    forall x: nat ensures multiset(kept)[x] + multiset(freed)[x] == multiset(ps)[x] {}
    DistinctIff(kept);
    DistinctIff(freed);
    forall p | p in freed ensures p !in kept && p in ps {
      assert p in multiset(freed);
      assert p in kept <==> p in multiset(kept);
      assert p in multiset(ps);
    }
  }

  lemma ChainFacts(env: Env, index: PageIndex, pages: seq<Page>, freeList: seq<nat>, id: Id)
    requires Sound(env, index, pages, freeList) && id in index
    ensures var vs := VersionsOf(ReaderOf(env, pages), index[id]);
            && (forall i, j :: 0 <= i < j < |vs| ==> vs[i].version >= vs[j].version)
            && (forall i :: 0 <= i < |vs| ==> vs[i].id == id)
  {
    var ps := index[id];
    forall p | p in ps ensures ReaderOf(env, pages)(p).Some? && ReaderOf(env, pages)(p).value.id == id {
      assert Lists(index, id, p);
    }
    VersionsAt(ReaderOf(env, pages), ps);
    forall p | p in ps ensures NumberIn(pages)(p) == ReaderOf(env, pages)(p).value.version {
      NumberIsVersion(env, pages[p]);
    }
    NewestVersions(ReaderOf(env, pages), NumberIn(pages), ps);
  }

  /** Allocation gives a page that no chain lists, and leaves every chain readable. */
  lemma AllocatedFrame(env: Env, index: PageIndex, before: seq<Page>, freeBefore: seq<nat>,
                       after: seq<Page>, freeAfter: seq<nat>, p: Option<nat>)
    requires Sound(env, index, before, freeBefore) && FreeOk(after, freeAfter) && |before| <= |after|
    requires forall q :: 0 <= q < |before| ==> after[q] == before[q]
    requires freeAfter <= freeBefore
    requires p.Some? ==> p.value in freeBefore || p.value >= |before|
    ensures Sound(env, index, after, freeAfter)
    ensures p.Some? ==> forall a :: !Lists(index, a, p.value)
    ensures forall id :: Found(env, index, after, id) == Found(env, index, before, id)
  {
    forall id, q: nat | Lists(index, id, q) ensures q !in freeAfter && 1 <= q < |before| {}
    FrameSound(env, index, before, after, freeBefore, freeAfter);
    FoundSame(env, index, before, after);
  }

  lemma WrittenFrame(env: Env, index: PageIndex, before: seq<Page>, freeBefore: seq<nat>,
                     after: seq<Page>, freeAfter: seq<nat>, p: nat)
    requires Sound(env, index, before, freeBefore) && FreeOk(after, freeAfter) && |before| <= |after|
    requires forall q :: 0 <= q < |before| && q != p ==> after[q] == before[q]
    requires freeAfter <= freeBefore && forall a :: !Lists(index, a, p)
    ensures Sound(env, index, after, freeAfter)
    ensures forall id :: Found(env, index, after, id) == Found(env, index, before, id)
  {
    forall id, q: nat | Lists(index, id, q) ensures q !in freeAfter && 1 <= q < |before| && q != p {}
    FrameSound(env, index, before, after, freeBefore, freeAfter);
    FoundSame(env, index, before, after);
  }
}
