/**
 * storage.go and recovery.go: the serialized index cut into a chain of pages,
 * and the chain walked back into bytes.
 */
module IndexPages {
  import opened Base
  import opened Fields
  import opened Pages

  function PageCount(data: seq<byte>): nat {
    (|data| + BODY_SIZE - 1) / BODY_SIZE
  }

  /** The part of the data on the i-th page, filled up with zeros. */
  function Chunk(data: seq<byte>, i: nat): Body {
    var start := Min(i * BODY_SIZE, |data|);
    var end := Min(start + BODY_SIZE, |data|);
    data[start..end] + ZeroBytes(BODY_SIZE - (end - start))
  }

  function IndexPageOf(crc: Crc, data: seq<byte>, ps: seq<nat>, i: nat): Page
    requires i < |ps|
  {
    SealPage(crc, Header(INDEX_PAGE, 0, 0, if i + 1 < |ps| then ps[i + 1] else 0, 0), Chunk(data, i))
  }

  /** The pages ps are distinct pages of the file, none of them the header page. */
  ghost predicate PagesOf(count: nat, ps: seq<nat>) {
    Unique(ps) && forall i :: 0 <= i < |ps| ==> 1 <= ps[i] < count
  }

  /** The first n of the pages ps hold the data as a chain. */
  ghost predicate HeldUpTo(pages: seq<Page>, crc: Crc, ps: seq<nat>, data: seq<byte>, n: nat) {
    && n <= |ps| && PagesOf(|pages|, ps)
    && forall i {:trigger IndexPageOf(crc, data, ps, i)} :: 0 <= i < n ==> pages[ps[i]] == IndexPageOf(crc, data, ps, i)
  }

  ghost predicate Held(pages: seq<Page>, crc: Crc, ps: seq<nat>, data: seq<byte>) {
    |ps| == PageCount(data) && HeldUpTo(pages, crc, ps, data, |ps|)
  }

  /** Pages for the data: the root, then whatever the allocator hands out until it has no more. */
  method AllocateChain(s: Storage, root: nat, count: nat) returns (ok: bool, ps: seq<nat>)
    requires s.Valid() && 1 <= root < |s.pages| && root !in s.freeList && 1 <= count
    modifies s
    ensures s.Valid() && 1 <= |ps| <= count && ps[0] == root && PagesOf(|s.pages|, ps) && (ok ==> |ps| == count)
    ensures !ok ==> s.freeList == [] && |s.pages| == s.limit
    ensures old(s.pages) <= s.pages && s.freeList <= old(s.freeList)
    ensures forall i :: 0 <= i < |ps| ==> ps[i] !in s.freeList
    ensures forall i :: 0 < i < |ps| ==> ps[i] in old(s.freeList) || ps[i] >= |old(s.pages)|
  {
    ps := [root];
    while |ps| < count
      invariant 1 <= |ps| <= count && ps[0] == root
      invariant s.Valid() && PagesOf(|s.pages|, ps)
      invariant old(s.pages) <= s.pages && s.freeList <= old(s.freeList)
      invariant forall i :: 0 <= i < |ps| ==> ps[i] !in s.freeList
      invariant forall i :: 0 < i < |ps| ==> ps[i] in old(s.freeList) || ps[i] >= |old(s.pages)|
      decreases count - |ps|
    {
      ghost var free := s.freeList;
      var p := s.AllocatePage();
      if p.None? {
        return false, ps;
      }
      assert free != [] ==> p.value in free && s.freeList <= free;
      ps := ps + [p.value];
    }
    ok := true;
  }

  lemma HeldStep(before: seq<Page>, crc: Crc, ps: seq<nat>, data: seq<byte>, i: nat)
    requires i < |ps| && HeldUpTo(before, crc, ps, data, i)
    ensures HeldUpTo(before[ps[i] := IndexPageOf(crc, data, ps, i)], crc, ps, data, i + 1)
  {
  }

  /** The chunks written page by page, each linked to the next. */
  method WriteChain(s: Storage, crc: Crc, ps: seq<nat>, data: seq<byte>)
    requires s.Valid() && PagesOf(|s.pages|, ps) && |ps| == PageCount(data)
    modifies s`pages
    ensures s.Valid() && |s.pages| == |old(s.pages)| && Held(s.pages, crc, ps, data)
    ensures forall p :: 0 <= p < |s.pages| && p !in ps ==> s.pages[p] == old(s.pages)[p]
  {
    for i := 0 to |ps|
      invariant |s.pages| == |old(s.pages)| && HeldUpTo(s.pages, crc, ps, data, i)
      invariant forall p :: 0 <= p < |s.pages| && p !in ps ==> s.pages[p] == old(s.pages)[p]
    {
      HeldStep(s.pages, crc, ps, data, i);
      var header := Header(INDEX_PAGE, 0, 0, if i + 1 < |ps| then ps[i + 1] else 0, 0);
      var ok := s.WritePage(ps[i], SealPage(crc, header, Chunk(data, i)));
    }
  }

  /** persistIndex, once the index is serialized. If it fails for lack of pages it has written nothing. */
  method PersistData(s: Storage, crc: Crc, root: nat, data: seq<byte>) returns (ok: bool, ghost ps: seq<nat>)
    requires s.Valid() && 1 <= root < |s.pages| && root !in s.freeList && data != []
    modifies s
    ensures s.Valid() && |old(s.pages)| <= |s.pages|
    ensures ok ==> ps != [] && ps[0] == root && Held(s.pages, crc, ps, data)
    ensures !ok ==> |s.pages| == s.limit && s.freeList == [] && old(s.pages) <= s.pages
    ensures forall p :: 0 <= p < |old(s.pages)| && p != root && p !in old(s.freeList) ==> s.pages[p] == old(s.pages)[p]
    ensures forall i :: 0 <= i < |ps| ==> ps[i] !in s.freeList
  {
    var pages;
    ok, pages := AllocateChain(s, root, PageCount(data));
    ps := pages;
    if ok {
      WriteChain(s, crc, pages, data);
    }
  }

  /** A page that loadIndex accepts. */
  predicate Good(crc: Crc, p: Page) {
    Verified(crc, p) && HeaderOf(p).kind == INDEX_PAGE
  }

  /** What a walk gives; one that has not ended is running. */
  datatype Load = Loaded(data: seq<byte>) | Unreadable | Running

  /** The walk from page p, up to its end, the first bad page, or n pages. */
  function LoadWithin(pages: seq<Page>, crc: Crc, p: nat, n: nat): Load
    decreases n
  {
    if p == 0 then Loaded([])
    else if n == 0 then Running
    else if p >= |pages| || !Good(crc, pages[p]) then Unreadable
    else Ahead(pages[p][HEADER_SIZE..], LoadWithin(pages, crc, HeaderOf(pages[p]).next, n - 1))
  }

  function Ahead(data: seq<byte>, rest: Load): Load {
    match rest
    case Loaded(more) => Loaded(data + more)
    case _ => rest
  }

  function Trimmed(r: Load): Load {
    match r
    case Loaded(data) => Loaded(Trim(data))
    case _ => r
  }

  /** The walk of loadIndex, or its first n pages. */
  method LoadData(s: Storage, crc: Crc, root: nat, n: nat) returns (r: Load)
    ensures r == Trimmed(LoadWithin(s.pages, crc, root, n))
  {
    var data: seq<byte> := [];
    var p, left := root, n;
    AheadNone(LoadWithin(s.pages, crc, root, n));
    while p > 0
      invariant LoadWithin(s.pages, crc, root, n) == Ahead(data, LoadWithin(s.pages, crc, p, left))
      decreases left
    {
      if left == 0 {
        return Running;
      }
      var page := s.ReadPage(p);
      if page.None? || !Verified(crc, page.value) || HeaderOf(page.value).kind != INDEX_PAGE {
        return Unreadable;
      }
      AheadMore(data, page.value[HEADER_SIZE..], LoadWithin(s.pages, crc, HeaderOf(page.value).next, left - 1));
      data := data + page.value[HEADER_SIZE..];
      p, left := HeaderOf(page.value).next, left - 1;
    }
    assert data + [] == data;
    r := Loaded(TrimZeros(data));
  }

  lemma AheadNone(rest: Load)
    ensures Ahead([], rest) == rest
  {
    match rest
    case Loaded(more) => assert [] + more == more;
    case _ =>
  }

  lemma AheadMore(a: seq<byte>, b: seq<byte>, rest: Load)
    ensures Ahead(a, Ahead(b, rest)) == Ahead(a + b, rest)
  {
    match rest
    case Loaded(more) => CatAssoc(a, b, more);
    case _ =>
  }

  /** A walk that has ended does not change. */
  lemma {:induction false} EndedStays(pages: seq<Page>, crc: Crc, p: nat, n: nat, m: nat)
    requires n <= m && !LoadWithin(pages, crc, p, n).Running?
    ensures LoadWithin(pages, crc, p, m) == LoadWithin(pages, crc, p, n)
    decreases n
  {
    if p != 0 && p < |pages| && Good(crc, pages[p]) { EndedStays(pages, crc, HeaderOf(pages[p]).next, n - 1, m - 1); }
  }

  /** The good pages among the first n of a walk. */
  ghost function Visited(pages: seq<Page>, crc: Crc, p: nat, n: nat): set<nat>
    decreases n
  {
    if p == 0 || n == 0 || p >= |pages| || !Good(crc, pages[p]) then {}
    else {p} + Visited(pages, crc, HeaderOf(pages[p]).next, n - 1)
  }

  lemma {:induction false} VisitedEnd(pages: seq<Page>, crc: Crc, p: nat, n: nat, q: nat)
    requires !LoadWithin(pages, crc, p, n).Running? && q in Visited(pages, crc, p, n)
    ensures q < |pages| && !LoadWithin(pages, crc, q, n).Running?
    decreases n
  {
    if q != p {
      VisitedEnd(pages, crc, HeaderOf(pages[p]).next, n - 1, q);
      EndedStays(pages, crc, q, n - 1, n);
    }
  }

  /** A walk that ends after exactly n pages visits no page twice. */
  lemma {:induction false} VisitedSize(pages: seq<Page>, crc: Crc, p: nat, n: nat)
    requires n > 0 && LoadWithin(pages, crc, p, n - 1).Running? && !LoadWithin(pages, crc, p, n).Running?
    ensures |Visited(pages, crc, p, n)| >= n - 1
    decreases n
  {
    if n > 1 {
      var next := HeaderOf(pages[p]).next;
      VisitedSize(pages, crc, next, n - 1);
      if p in Visited(pages, crc, next, n - 1) { VisitedEnd(pages, crc, next, n - 1, p); }
    }
  }

  lemma {:induction false} BelowSize(s: set<nat>, n: nat)
    requires forall q :: q in s ==> q < n
    ensures |s| <= n
  {
    if n > 0 {
      BelowSize(s - {n - 1}, n - 1);
      assert s <= s - {n - 1} + {n - 1};
    } else {
      assert s == {};
    }
  }

  /**
   * The walk ends exactly if it ends within one page more than the file has;
   * otherwise its good pages form a circle, and the loader never returns.
   */
  lemma {:induction false} EndsWithinFile(pages: seq<Page>, crc: Crc, p: nat, n: nat)
    ensures !LoadWithin(pages, crc, p, n).Running? ==>
              LoadWithin(pages, crc, p, |pages| + 1) == LoadWithin(pages, crc, p, n)
    decreases n
  {
    if !LoadWithin(pages, crc, p, n).Running? {
      if n <= |pages| + 1 {
        EndedStays(pages, crc, p, n, |pages| + 1);
      } else {
        if LoadWithin(pages, crc, p, n - 1).Running? {
          VisitedSize(pages, crc, p, n);
          forall q | q in Visited(pages, crc, p, n) ensures q < |pages| { VisitedEnd(pages, crc, p, n, q); }
          BelowSize(Visited(pages, crc, p, n), |pages|);
          assert false;
        }
        EndedStays(pages, crc, p, n - 1, n);
        EndsWithinFile(pages, crc, p, n - 1);
      }
    }
  }

  function TrimZeros(data: seq<byte>): (r: seq<byte>)
    ensures r == Trim(data)
  {
    Trim(data)
  }

  /** The data of the pages from the i-th on, with the zeros that fill the last. */
  function Tail(data: seq<byte>, i: nat): seq<byte> {
    data[Min(i * BODY_SIZE, |data|)..] + ZeroBytes(PageCount(data) * BODY_SIZE - |data|)
  }

  lemma CountCovers(data: seq<byte>)
    ensures 0 <= PageCount(data) * BODY_SIZE - |data| < BODY_SIZE
  {
  }

  lemma TailStep(data: seq<byte>, i: nat)
    requires i < PageCount(data)
    ensures Tail(data, i) == Chunk(data, i) + if i + 1 < PageCount(data) then Tail(data, i + 1) else []
  {
    CountCovers(data);
    if i + 1 < PageCount(data) {
      assert data[i * BODY_SIZE..] == data[i * BODY_SIZE..(i + 1) * BODY_SIZE] + data[(i + 1) * BODY_SIZE..];
    }
  }

  /** A held page is good, links to the next one and holds its chunk. */
  lemma HeldPage(pages: seq<Page>, crc: Crc, ps: seq<nat>, data: seq<byte>, i: nat)
    requires Held(pages, crc, ps, data) && i < |ps| && |pages| < 0x1_0000_0000_0000_0000
    ensures 1 <= ps[i] < |pages| && Good(crc, pages[ps[i]]) && pages[ps[i]][HEADER_SIZE..] == Chunk(data, i)
    ensures HeaderOf(pages[ps[i]]).next == if i + 1 < |ps| then ps[i + 1] else 0
  {
    SealedVerifies(crc, Header(INDEX_PAGE, 0, 0, if i + 1 < |ps| then ps[i + 1] else 0, 0), Chunk(data, i));
    assert pages[ps[i]] == IndexPageOf(crc, data, ps, i);
  }

  lemma GoodStep(pages: seq<Page>, crc: Crc, p: nat, n: nat, next: nat, body: seq<byte>, rest: seq<byte>)
    requires n > 0 && 1 <= p < |pages| && Good(crc, pages[p]) && HeaderOf(pages[p]).next == next
    requires pages[p][HEADER_SIZE..] == body && LoadWithin(pages, crc, next, n - 1) == Loaded(rest)
    ensures LoadWithin(pages, crc, p, n) == Loaded(body + rest)
  {
  }

  lemma HeldNext(pages: seq<Page>, crc: Crc, ps: seq<nat>, data: seq<byte>, i: nat)
    requires Held(pages, crc, ps, data) && i + 1 < |ps| && |pages| < 0x1_0000_0000_0000_0000
    requires LoadWithin(pages, crc, ps[i + 1], |ps| - i - 1) == Loaded(Tail(data, i + 1))
    ensures LoadWithin(pages, crc, ps[i], |ps| - i) == Loaded(Tail(data, i))
  {
    TailStep(data, i);
    HeldPage(pages, crc, ps, data, i);
    GoodStep(pages, crc, ps[i], |ps| - i, ps[i + 1], Chunk(data, i), Tail(data, i + 1));
  }

  lemma HeldLast(pages: seq<Page>, crc: Crc, ps: seq<nat>, data: seq<byte>, i: nat)
    requires Held(pages, crc, ps, data) && i + 1 == |ps| && |pages| < 0x1_0000_0000_0000_0000
    ensures LoadWithin(pages, crc, ps[i], |ps| - i) == Loaded(Tail(data, i))
  {
    TailStep(data, i);
    HeldPage(pages, crc, ps, data, i);
    GoodStep(pages, crc, ps[i], 1, 0, Chunk(data, i), []);
  }

  /** A held chain is walked to its end and loads the data followed by zeros. */
  lemma {:induction false} HeldLoads(pages: seq<Page>, crc: Crc, ps: seq<nat>, data: seq<byte>, i: nat)
    requires Held(pages, crc, ps, data) && i < |ps| && |pages| < 0x1_0000_0000_0000_0000
    ensures LoadWithin(pages, crc, ps[i], |ps| - i) == Loaded(Tail(data, i))
    decreases |ps| - i
  {
    if i + 1 < |ps| {
      HeldLoads(pages, crc, ps, data, i + 1);
      HeldNext(pages, crc, ps, data, i);
    } else {
      HeldLast(pages, crc, ps, data, i);
    }
  }

  lemma LoadsInFile(pages: seq<Page>, crc: Crc, p: nat, n: nat, data: seq<byte>)
    requires LoadWithin(pages, crc, p, n) == Loaded(data)
    ensures Trimmed(LoadWithin(pages, crc, p, |pages| + 1)) == Loaded(Trim(data))
  {
    EndsWithinFile(pages, crc, p, n);
  }

  lemma {:induction false} TrimPadded(data: seq<byte>, n: nat)
    ensures Trim(data + ZeroBytes(n)) == Trim(data)
  {
    if n == 0 {
      assert data + ZeroBytes(0) == data;
    } else {
      var s := data + ZeroBytes(n);
      assert s[..|s| - 1] == data + ZeroBytes(n - 1);
      TrimPadded(data, n - 1);
    }
  }

  lemma TailAll(data: seq<byte>)
    ensures Trim(Tail(data, 0)) == Trim(data)
  {
    CountCovers(data);
    assert data[0..] == data;
    TrimPadded(data, PageCount(data) * BODY_SIZE - |data|);
  }

  /** Persisted bytes load back without their trailing zeros, so unchanged if the last one is not zero. */
  lemma HeldLoadsTrimmed(pages: seq<Page>, crc: Crc, ps: seq<nat>, data: seq<byte>)
    requires Held(pages, crc, ps, data) && data != [] && |pages| < 0x1_0000_0000_0000_0000
    ensures ps != [] && Trimmed(LoadWithin(pages, crc, ps[0], |pages| + 1)) == Loaded(Trim(data))
    ensures data[|data| - 1] != 0 ==> Trim(data) == data
  {
    CountCovers(data);
    HeldLoads(pages, crc, ps, data, 0);
    LoadsInFile(pages, crc, ps[0], |ps|, Tail(data, 0));
    TailAll(data);
  }
}
