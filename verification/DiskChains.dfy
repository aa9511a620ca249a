/**
 * storage_mvcc.go: the on-disk version store. Each ID lists the pages of its
 * versions, newest first; pages come from and go back to the allocator.
 */
module DiskChains {
  import opened Base
  import opened WalCodec
  import opened Pages
  import opened VersionPage

  type PageIndex = map<Id, seq<nat>>

  predicate Lists(index: PageIndex, id: Id, p: nat) {
    id in index && p in index[id]
  }

  /** The listed pages are of the file, not free, and each is listed once under one ID. */
  ghost predicate Placed(index: PageIndex, count: nat, free: seq<nat>) {
    && (forall id :: id in index ==> Unique(index[id]))
    && (forall id, p: nat :: Lists(index, id, p) ==> 1 <= p < count && p !in free)
    && (forall a, b, p: nat :: Lists(index, a, p) && Lists(index, b, p) ==> a == b)
  }

  /** What the store reads from a page: the version, if the page is good. */
  type Reader = nat -> Option<DiskVersion>

  function ReaderOf(env: Env, pages: seq<Page>): Reader {
    (p: nat) => if p < |pages| then PageToVersion(env, pages[p]) else None
  }

  /** The number a page is sorted by, good or not. */
  function NumberIn(pages: seq<Page>): nat -> nat {
    (p: nat) => if p < |pages| then NumberOf(pages[p]) else 0
  }

  /** Every page listed under an ID holds a version of it. */
  ghost predicate Readable(at: Reader, index: PageIndex) {
    forall id, p: nat :: Lists(index, id, p) ==> at(p).Some? && at(p).value.id == id
  }

  ghost predicate NewestFirst(number: nat -> nat, ps: seq<nat>) {
    forall i, j :: 0 <= i < j < |ps| ==> number(ps[i]) >= number(ps[j])
  }

  ghost predicate Ordered(index: PageIndex, number: nat -> nat) {
    forall id :: id in index ==> index[id] != [] && NewestFirst(number, index[id])
  }

  lemma {:induction false} DistinctIff(s: seq<nat>)
    ensures Unique(s) <==> forall x :: multiset(s)[x] <= 1
  {
    if s != [] {
      var n := |s| - 1;
      DistinctIff(s[..n]);
      assert s == s[..n] + [s[n]];
      if Unique(s) {
        assert s[n] !in s[..n];
      } else if Unique(s[..n]) {
        assert s[n] in s[..n];
        assert multiset(s)[s[n]] >= 2;
      } else {
        var x :| multiset(s[..n])[x] > 1;
        assert multiset(s)[x] > 1;
      }
    }
  }

  /** sort.Slice by version number, descending; equal numbers end up in any order. */
  method SortChain(number: nat -> nat, ps: seq<nat>) returns (r: seq<nat>)
    ensures multiset(r) == multiset(ps) && NewestFirst(number, r)
  {
    r := [];
    for i := 0 to |ps|
      invariant multiset(r) == multiset(ps[..i]) && NewestFirst(number, r)
    {
      r := Insert(number, r, ps[i]);
      assert ps[..i + 1] == ps[..i] + [ps[i]];
    }
    assert ps[..|ps|] == ps;
  }

  method Insert(number: nat -> nat, sorted: seq<nat>, p: nat) returns (r: seq<nat>)
    requires NewestFirst(number, sorted)
    ensures multiset(r) == multiset(sorted) + multiset{p} && NewestFirst(number, r)
  {
    var k := 0;
    while k < |sorted| && number(sorted[k]) > number(p)
      invariant 0 <= k <= |sorted| && forall i :: 0 <= i < k ==> number(sorted[i]) > number(p)
    {
      k := k + 1;
    }
    r := sorted[..k] + [p] + sorted[k..];
    assert sorted == sorted[..k] + sorted[k..];
    InsertedElements(sorted[..k], p, sorted[k..]);
    InsertedOrder(number, sorted[..k], p, sorted[k..]);
  }

  lemma InsertedElements(a: seq<nat>, p: nat, b: seq<nat>)
    ensures multiset(a + [p] + b) == multiset(a + b) + multiset{p}
  {
  }

  lemma InsertedOrder(number: nat -> nat, a: seq<nat>, p: nat, b: seq<nat>)
    requires NewestFirst(number, a) && NewestFirst(number, b)
    requires forall i :: 0 <= i < |a| ==> number(a[i]) >= number(p)
    requires forall j :: 0 <= j < |b| ==> number(p) >= number(b[j])
    ensures NewestFirst(number, a + [p] + b)
  {
    var r, k := a + [p] + b, |a|;
    forall i, j | 0 <= i < j < |r| ensures number(r[i]) >= number(r[j]) {
      if j < k {
        assert r[i] == a[i] && r[j] == a[j];
      } else if i > k {
        assert r[i] == b[i - k - 1] && r[j] == b[j - k - 1];
      } else {
        assert number(r[i]) >= number(p) by { assert r[i] == if i < k then a[i] else p; }
        assert number(p) >= number(r[j]) by { assert r[j] == if j == k then p else b[j - k - 1]; }
      }
    }
  }

  /** GetAllVersions: the versions of the pages that can be read, in the order of the list. */
  function VersionsOf(at: Reader, ps: seq<nat>): seq<DiskVersion> {
    if ps == [] then []
    else
      var before := VersionsOf(at, ps[..|ps| - 1]);
      match at(ps[|ps| - 1])
      case None => before
      case Some(v) => before + [v]
  }

  lemma {:induction false} VersionsAt(at: Reader, ps: seq<nat>)
    requires forall p :: p in ps ==> at(p).Some?
    ensures |VersionsOf(at, ps)| == |ps| && forall i :: 0 <= i < |ps| ==> at(ps[i]) == Some(VersionsOf(at, ps)[i])
  {
    if ps != [] { VersionsAt(at, ps[..|ps| - 1]); }
  }

  /** Which pages of a chain garbage collection keeps, oldest being the oldest active transaction. */
  function Kept(at: Reader, ps: seq<nat>, oldest: TxId): seq<nat> {
    if ps == [] then []
    else
      var before, p := Kept(at, ps[..|ps| - 1], oldest), ps[|ps| - 1];
      match at(p)
      case None => before
      case Some(v) => if v.created >= oldest || v.deleted == 0 || before == [] then before + [p] else before
  }

  /** The pages it gives back. */
  function Freed(at: Reader, ps: seq<nat>, oldest: TxId): seq<nat> {
    if ps == [] then []
    else
      var before, p := Freed(at, ps[..|ps| - 1], oldest), ps[|ps| - 1];
      match at(p)
      case None => before
      case Some(v) =>
        if v.created >= oldest || v.deleted == 0 || Kept(at, ps[..|ps| - 1], oldest) == [] then before else before + [p]
  }

  lemma OneMore(ps: seq<nat>, k: seq<nat>, f: seq<nat>, p: nat)
    requires multiset(k) + multiset(f) == multiset(ps)
    ensures multiset(k + [p]) + multiset(f) == multiset(ps + [p]) == multiset(k) + multiset(f + [p])
  {
  }

  /** Of a readable chain every page is either kept or given back. */
  lemma {:induction false} KeptAndFreed(at: Reader, ps: seq<nat>, oldest: TxId)
    requires forall p :: p in ps ==> at(p).Some?
    ensures multiset(Kept(at, ps, oldest)) + multiset(Freed(at, ps, oldest)) == multiset(ps)
  {
    if ps != [] {
      var front, p := ps[..|ps| - 1], ps[|ps| - 1];
      KeptAndFreed(at, front, oldest);
      OneMore(front, Kept(at, front, oldest), Freed(at, front, oldest), p);
      assert ps == front + [p];
    }
  }

  /** The latest version is always kept. */
  lemma {:induction false} LatestKept(at: Reader, ps: seq<nat>, oldest: TxId)
    requires ps != [] && at(ps[0]).Some?
    ensures Kept(at, ps, oldest) != [] && Kept(at, ps, oldest)[0] == ps[0]
  {
    if |ps| > 1 {
      LatestKept(at, ps[..|ps| - 1], oldest);
    } else {
      assert ps[..0] == [];
    }
  }

  lemma {:induction false} KeptSorted(at: Reader, number: nat -> nat, ps: seq<nat>, oldest: TxId)
    requires NewestFirst(number, ps)
    ensures NewestFirst(number, Kept(at, ps, oldest)) && forall p :: p in Kept(at, ps, oldest) ==> p in ps
  {
    if ps != [] {
      var n := |ps| - 1;
      KeptSorted(at, number, ps[..n], oldest);
      forall p | p in Kept(at, ps[..n], oldest) ensures number(p) >= number(ps[n]) { assert p in ps[..n]; }
    }
  }

  /** What is given back was created before the oldest active transaction, is deleted, and is not the latest. */
  lemma {:induction false} FreedIsDead(at: Reader, ps: seq<nat>, oldest: TxId, p: nat)
    requires p in Freed(at, ps, oldest) && Unique(ps)
    ensures p in ps && p != ps[0] && at(p).Some? && at(p).value.created < oldest && at(p).value.deleted != 0
  {
    var n := |ps| - 1;
    if p in Freed(at, ps[..n], oldest) {
      FreedIsDead(at, ps[..n], oldest, p);
      assert p in ps[..n];
    } else {
      KeptOnlyOf(at, ps[..n], oldest);
      assert ps[n] == p;
    }
  }

  /** A page that is not the latest of its chain, whose version is deleted and older than all active transactions. */
  predicate Dead(at: Reader, ps: seq<nat>, oldest: TxId, p: nat) {
    p in ps && p != ps[0] && at(p).Some? && at(p).value.created < oldest && at(p).value.deleted != 0
  }

  /** Exactly the dead pages are given back. */
  lemma {:induction false} FreedIff(at: Reader, ps: seq<nat>, oldest: TxId, p: nat)
    requires Unique(ps) && forall q :: q in ps ==> at(q).Some?
    ensures p in Freed(at, ps, oldest) <==> Dead(at, ps, oldest, p)
  {
    if p in Freed(at, ps, oldest) { FreedIsDead(at, ps, oldest, p); }
    if Dead(at, ps, oldest, p) {
      var front := ps[..|ps| - 1];
      LatestKept(at, front, oldest);
      if p != ps[|ps| - 1] {
        assert p in front;
        FreedIff(at, front, oldest, p);
      }
    }
  }

  lemma {:induction false} KeptOnlyOf(at: Reader, ps: seq<nat>, oldest: TxId)
    ensures Kept(at, ps, oldest) != [] ==> ps != []
  {
  }

  /** Without delete markers nothing is ever given back. */
  lemma {:induction false} UndeletedKept(at: Reader, ps: seq<nat>, oldest: TxId)
    requires forall p :: p in ps ==> at(p).Some? && at(p).value.deleted == 0
    ensures Kept(at, ps, oldest) == ps && Freed(at, ps, oldest) == []
  {
    if ps != [] {
      UndeletedKept(at, ps[..|ps| - 1], oldest);
      assert ps == ps[..|ps| - 1] + [ps[|ps| - 1]];
    }
  }
}
