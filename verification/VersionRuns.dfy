/**
 * Runs of the version store with other users of the same page file in between.
 */
module VersionRuns {
  import opened Base
  import opened WalCodec
  import opened Pages
  import opened VersionPage
  import opened DiskChains
  import opened VersionStore

  /** OpTake is an allocation by someone else: an index page, a vector page. */
  datatype Op = OpStore(version: DiskVersion) | OpCollect(oldest: TxId) | OpTake

  /** The pages taken by others are neither free nor listed. */
  ghost predicate Apart(index: PageIndex, count: nat, freeList: seq<nat>, taken: set<nat>) {
    forall p :: p in taken ==> p < count && p !in freeList && forall a :: !Lists(index, a, p)
  }

  function Undeleted(vs: seq<DiskVersion>): multiset<DiskVersion> {
    if vs == [] then multiset{}
    else Undeleted(vs[..|vs| - 1]) + if vs[|vs| - 1].deleted == 0 then multiset{vs[|vs| - 1]} else multiset{}
  }

  lemma {:induction false} UndeletedCount(vs: seq<DiskVersion>, v: DiskVersion)
    ensures Undeleted(vs)[v] == if v.deleted == 0 then multiset(vs)[v] else 0
  {
    if vs != [] {
      UndeletedCount(vs[..|vs| - 1], v);
      assert vs == vs[..|vs| - 1] + [vs[|vs| - 1]];
    }
  }

  lemma UndeletedAdd(before: seq<DiskVersion>, after: seq<DiskVersion>, v: DiskVersion)
    requires multiset(after) == multiset(before) + multiset{v}
    ensures Undeleted(after) == Undeleted(before) + if v.deleted == 0 then multiset{v} else multiset{}
  {
    forall u
      ensures Undeleted(after)[u] == (Undeleted(before) + if v.deleted == 0 then multiset{v} else multiset{})[u]
    {
      UndeletedCount(before, u);
      UndeletedCount(after, u);
    }
  }

  /** Collection removes no version without a delete marker. */
  lemma {:induction false} UndeletedStay(at: Reader, ps: seq<nat>, oldest: TxId)
    ensures Undeleted(VersionsOf(at, Kept(at, ps, oldest))) == Undeleted(VersionsOf(at, ps))
  {
    if ps != [] {
      var front, p := ps[..|ps| - 1], ps[|ps| - 1];
      UndeletedStay(at, front, oldest);
      var before := Kept(at, front, oldest);
      assert (before + [p])[..|before|] == before;
      if at(p).Some? {
        UndeletedSnoc(VersionsOf(at, front), at(p).value);
        UndeletedSnoc(VersionsOf(at, before), at(p).value);
      }
    }
  }

  lemma UndeletedSnoc(vs: seq<DiskVersion>, v: DiskVersion)
    ensures Undeleted(vs + [v]) == Undeleted(vs) + if v.deleted == 0 then multiset{v} else multiset{}
  {
    assert (vs + [v])[..|vs|] == vs;
  }

  /** The versions without a delete marker that were stored under an ID. */
  function Stored(ops: seq<Op>, oks: seq<bool>, id: Id): multiset<DiskVersion>
    requires |ops| == |oks|
  {
    if ops == [] then multiset{}
    else
      var n := |ops| - 1;
      Stored(ops[..n], oks[..n], id)
      + if oks[n] && ops[n].OpStore? && ops[n].version.id == id && ops[n].version.deleted == 0
        then multiset{ops[n].version} else multiset{}
  }

  ghost predicate Proper(ops: seq<Op>) {
    forall op :: op in ops && op.OpStore? ==> NumbersFit(op.version)
  }

  /** Every chain still has exactly the unmarked versions stored under its ID. */
  ghost predicate Complete(store: Store, ops: seq<Op>, oks: seq<bool>)
    requires |ops| == |oks|
    reads store, store.storage
  {
    forall id :: Undeleted(store.Versions(id)) == Stored(ops, oks, id)
  }

  lemma StillApart(before: PageIndex, after: PageIndex, count: nat, count': nat, free: seq<nat>, free': seq<nat>,
                   taken: set<nat>)
    requires Apart(before, count, free, taken) && count <= count' && free' <= free
    requires forall a, q: nat :: Lists(after, a, q) ==> Lists(before, a, q) || q in free || q >= count
    ensures Apart(after, count', free', taken)
  {
  }

  function Unmarked(op: Op, ok: bool, id: Id): multiset<DiskVersion> {
    if ok && op.OpStore? && op.version.id == id && op.version.deleted == 0 then multiset{op.version} else multiset{}
  }

  lemma NoneUnmarked(op: Op, id: Id, m: multiset<DiskVersion>)
    requires !op.OpStore?
    ensures m == m + Unmarked(op, true, id)
  {
  }

  /** Every page of the file but the first is free, listed, or one of the others. */
  ghost predicate Whole(index: PageIndex, count: nat, free: seq<nat>, others: set<nat>) {
    forall p: nat {:trigger Listed(index, p)} :: 1 <= p < count ==> p in free || Listed(index, p) || p in others
  }

  /**
   * The pages taken by others and the lost ones are apart from each other and
   * from the store, and that is the whole file.
   */
  ghost predicate Shared(store: Store, taken: set<nat>, lost: set<nat>)
    reads store, store.storage
  {
    && Apart(store.versionIndex, |store.storage.pages|, store.storage.freeList, taken)
    && Apart(store.versionIndex, |store.storage.pages|, store.storage.freeList, lost) && taken !! lost
    && Whole(store.versionIndex, |store.storage.pages|, store.storage.freeList, taken + lost)
  }

  function LostSet(p: Option<nat>): set<nat> {
    match p
    case None => {}
    case Some(q) => {q}
  }

  lemma LostApart(before: PageIndex, after: PageIndex, count: nat, count': nat, free: seq<nat>, free': seq<nat>,
                  taken: set<nat>, lost: set<nat>, p: Option<nat>)
    requires Apart(before, count, free, taken) && Apart(before, count, free, lost) && taken !! lost
    requires Apart(after, count', free', taken) && Apart(after, count', free', lost)
    requires p.Some? ==> 1 <= p.value < count' && p.value !in free' && !Listed(after, p.value)
                         && (p.value in free || p.value == count)
    ensures Apart(after, count', free', lost + LostSet(p)) && taken !! lost + LostSet(p) && lost !! LostSet(p)
  {
    forall q | q in lost + LostSet(p) ensures q < count' && q !in free' && forall a :: !Lists(after, a, q) {
      if q !in lost {
        forall a ensures !Lists(after, a, q) {}
      }
    }
  }

  lemma StillWhole(before: PageIndex, after: PageIndex, count: nat, count': nat, free: seq<nat>, free': seq<nat>,
                   taken: set<nat>, lost: set<nat>, p: Option<nat>)
    requires Whole(before, count, free, taken + lost) && Accounted(before, free, count, after, free', count', p)
    ensures Whole(after, count', free', taken + (lost + LostSet(p)))
  {
  }

  lemma OneStored(v: DiskVersion, ok: bool, before: seq<DiskVersion>, after: seq<DiskVersion>, id: Id)
    requires ok && id == v.id ==> multiset(after) == multiset(before) + multiset{v}
    requires !ok || id != v.id ==> after == before
    ensures Undeleted(after) == Undeleted(before) + Unmarked(OpStore(v), ok, id)
  {
    if ok && id == v.id { UndeletedAdd(before, after, v); }
  }

  /** A store of a version that does not fit loses a page, if there is one to be had. */
  method DoStore(store: Store, v: DiskVersion, ghost taken: set<nat>, ghost lost: set<nat>)
    returns (ok: bool, ghost lost': set<nat>)
    requires store.Valid() && JsonOk(store.env) && NumbersFit(v) && Shared(store, taken, lost)
    modifies store`versionIndex, store.storage
    ensures store.Valid() && Shared(store, taken, lost') && lost <= lost'
    ensures |store.storage.pages| <= |old(store.storage.pages)| + 1
    ensures |lost'| == |lost| + if !FitsPage(store.env, v) && (old(store.storage.freeList) != []
                                    || |old(store.storage.pages)| < store.storage.limit) then 1 else 0
    ensures forall id ::
              Undeleted(store.Versions(id)) == old(Undeleted(store.Versions(id))) + Unmarked(OpStore(v), ok, id)
  {
    ghost var index, pages, free := store.versionIndex, store.storage.pages, store.storage.freeList;
    ghost var count, p := |pages|, None;
    ok, p := store.StoreVersion(v);
    StillApart(index, store.versionIndex, count, |store.storage.pages|, free, store.storage.freeList, taken);
    StillApart(index, store.versionIndex, count, |store.storage.pages|, free, store.storage.freeList, lost);
    LostApart(index, store.versionIndex, count, |store.storage.pages|, free, store.storage.freeList, taken, lost, p);
    StillWhole(index, store.versionIndex, count, |store.storage.pages|, free, store.storage.freeList, taken, lost, p);
    lost' := lost + LostSet(p);
    forall id
      ensures Undeleted(store.Versions(id))
              == Undeleted(Found(store.env, index, pages, id)) + Unmarked(OpStore(v), ok, id)
    {
      OneStored(v, ok, Found(store.env, index, pages, id), store.Versions(id), id);
    }
  }

  method DoCollect(store: Store, oldest: TxId, ghost taken: set<nat>, ghost lost: set<nat>)
    requires store.Valid() && Shared(store, taken, lost)
    modifies store`versionIndex, store.storage`freeList
    ensures store.Valid() && Shared(store, taken, lost)
    ensures forall id ::
              Undeleted(store.Versions(id))
              == old(Undeleted(store.Versions(id))) + Unmarked(OpCollect(oldest), true, id)
  {
    ghost var at, index := ReaderOf(store.env, store.storage.pages), store.versionIndex;
    var removed := store.GCVersionsOlderThan(oldest);
    forall id
      ensures Undeleted(store.Versions(id))
              == Undeleted(VersionsOf(at, ChainOf(index, id))) + Unmarked(OpCollect(oldest), true, id)
    {
      if id in index { UndeletedStay(at, index[id], oldest); }
      NoneUnmarked(OpCollect(oldest), id, Undeleted(store.Versions(id)));
    }
  }

  /** An allocation by someone else never gets a page that is live or lost. */
  method DoTake(store: Store, ghost taken: set<nat>, ghost lost: set<nat>) returns (ghost taken': set<nat>)
    requires store.Valid() && Shared(store, taken, lost)
    modifies store.storage
    ensures store.Valid() && Shared(store, taken', lost) && taken <= taken'
    ensures |store.storage.pages| <= |old(store.storage.pages)| + 1
    ensures forall id ::
              Undeleted(store.Versions(id)) == old(Undeleted(store.Versions(id))) + Unmarked(OpTake, true, id)
  {
    ghost var before, free := store.storage.pages, store.storage.freeList;
    var p := store.storage.AllocatePage();
    AllocatedFrame(store.env, store.versionIndex, before, free, store.storage.pages, store.storage.freeList, p);
    forall id
      ensures Undeleted(store.Versions(id)) == old(Undeleted(store.Versions(id))) + Unmarked(OpTake, true, id)
    {
      NoneUnmarked(OpTake, id, Undeleted(store.Versions(id)));
    }
    taken' := if p.Some? then taken + {p.value} else taken;
  }

  lemma StoredStep(ops: seq<Op>, oks: seq<bool>, op: Op, ok: bool, id: Id)
    requires |ops| == |oks|
    ensures Stored(ops + [op], oks + [ok], id) ==
            Stored(ops, oks, id) + if ok && op.OpStore? && op.version.id == id && op.version.deleted == 0
                                   then multiset{op.version} else multiset{}
  {
    assert (ops + [op])[..|ops|] == ops && (oks + [ok])[..|oks|] == oks;
  }

  /** The stores of versions that fit no page. */
  function TooLarge(env: Env, ops: seq<Op>): nat {
    if ops == [] then 0 else TooLarge(env, ops[..|ops| - 1]) + Oversize(env, ops[|ops| - 1])
  }

  function Oversize(env: Env, op: Op): nat {
    if op.OpStore? && !FitsPage(env, op.version) then 1 else 0
  }

  lemma OneOp(env: Env, ops: seq<Op>, i: nat)
    requires i < |ops|
    ensures ops[i] in ops && ops[..i + 1] == ops[..i] + [ops[i]]
    ensures TooLarge(env, ops[..i + 1]) == TooLarge(env, ops[..i]) + Oversize(env, ops[i])
  {
    assert ops[..i + 1][..i] == ops[..i];
  }

  /** One operation; taken are the pages that others have, lost those that nobody has any more. */
  method DoAny(store: Store, op: Op, ghost taken: set<nat>, ghost lost: set<nat>)
    returns (ok: bool, ghost taken': set<nat>, ghost lost': set<nat>)
    requires store.Valid() && JsonOk(store.env) && (op.OpStore? ==> NumbersFit(op.version))
    requires Shared(store, taken, lost)
    modifies store`versionIndex, store.storage
    ensures store.Valid() && Shared(store, taken', lost') && taken <= taken' && lost <= lost'
    ensures |store.storage.pages| <= |old(store.storage.pages)| + 1
    ensures |lost'| <= |lost| + Oversize(store.env, op)
    ensures old(store.storage.freeList) != [] || |old(store.storage.pages)| < store.storage.limit ==>
              |lost'| == |lost| + Oversize(store.env, op)
    ensures forall id :: Undeleted(store.Versions(id)) == old(Undeleted(store.Versions(id))) + Unmarked(op, ok, id)
  {
    ok, taken', lost' := true, taken, lost;
    match op
    case OpStore(v) => ok, lost' := DoStore(store, v, taken, lost);
    case OpCollect(oldest) => DoCollect(store, oldest, taken, lost);
    case OpTake => taken' := DoTake(store, taken, lost);
  }

  /** What i operations have lost and allocated, where the file had so many pages before. */
  ghost predicate Costed(env: Env, ops: seq<Op>, i: nat, lost: nat, before: nat, pages: nat, limit: nat)
    requires i <= |ops|
  {
    && pages <= before + i && lost <= TooLarge(env, ops[..i])
    && (before + |ops| <= limit ==> lost == TooLarge(env, ops[..i]))
  }

  lemma CostedMore(env: Env, ops: seq<Op>, i: nat, lost: nat, lost': nat, before: nat, pages: nat, pages': nat,
                   limit: nat)
    requires i < |ops| && Costed(env, ops, i, lost, before, pages, limit)
    requires pages' <= pages + 1 && lost' <= lost + Oversize(env, ops[i])
    requires pages < limit ==> lost' == lost + Oversize(env, ops[i])
    ensures Costed(env, ops, i + 1, lost', before, pages', limit)
  {
    OneOp(env, ops, i);
  }

  /** The same, seen as the next operation of a run. */
  method DoNext(store: Store, ops: seq<Op>, i: nat, oks: seq<bool>, ghost taken: set<nat>, ghost lost: set<nat>,
                ghost before: nat)
    returns (oks': seq<bool>, ghost taken': set<nat>, ghost lost': set<nat>)
    requires store.Valid() && JsonOk(store.env) && Proper(ops) && |oks| == i < |ops|
    requires Shared(store, taken, lost) && Complete(store, ops[..i], oks)
    requires Costed(store.env, ops, i, |lost|, before, |store.storage.pages|, store.storage.limit)
    modifies store`versionIndex, store.storage
    ensures store.Valid() && |oks'| == i + 1
    ensures Shared(store, taken', lost') && Complete(store, ops[..i + 1], oks')
    ensures Costed(store.env, ops, i + 1, |lost'|, before, |store.storage.pages|, store.storage.limit)
  {
    var ok;
    ghost var pages := |store.storage.pages|;
    OneOp(store.env, ops, i);
    ok, taken', lost' := DoAny(store, ops[i], taken, lost);
    oks' := oks + [ok];
    forall id ensures Undeleted(store.Versions(id)) == Stored(ops[..i + 1], oks', id) {
      StoredStep(ops[..i], oks, ops[i], ok, id);
    }
    CostedMore(store.env, ops, i, |lost|, |lost'|, before, pages, |store.storage.pages|, store.storage.limit);
  }

  /**
   * Any run: nothing live is ever shared or free, and no unmarked version is
   * ever lost. But pages are: each version that is too large costs one, unless
   * the file is full, and a lost page is never free, listed or handed out
   * again. Nothing else is lost.
   */
  method Run(env: Env, storage: Storage, ops: seq<Op>)
    returns (store: Store, oks: seq<bool>, ghost taken: set<nat>, ghost lost: set<nat>)
    requires storage.Valid() && JsonOk(env) && Proper(ops)
    modifies storage
    ensures store.storage == storage && store.Valid() && |oks| == |ops| && Complete(store, ops, oks)
    ensures Shared(store, taken, lost) && |lost| <= TooLarge(env, ops)
    ensures |old(storage.pages)| + |ops| <= storage.limit ==> |lost| == TooLarge(env, ops)
  {
    taken := set p: nat | 1 <= p < |storage.pages| && p !in storage.freeList;
    store := new Store(env, storage);
    ghost var before := |storage.pages|;
    oks, lost := [], {};
    for i := 0 to |ops|
      invariant fresh(store) && store.storage == storage && store.env == env && store.Valid()
      invariant |oks| == i && Complete(store, ops[..i], oks)
      invariant Shared(store, taken, lost)
      invariant Costed(env, ops, i, |lost|, before, |storage.pages|, storage.limit)
    {
      oks, taken, lost := DoNext(store, ops, i, oks, taken, lost, before);
    }
    WholeRun(ops);
  }

  lemma WholeRun(ops: seq<Op>)
    ensures ops[..|ops|] == ops
  {
  }
}
