/**
 * recovery.go: what the vector pages of a file hold, and the index that opening
 * rebuilds from them when none was saved.
 */
module PageScan {
  import opened Base
  import opened HnswGraph
  import opened HnswIndex
  import opened Pages
  import opened PackedPage
  import opened VectorPages

  /** readVectorPage reads it: verified, of the right type, and all entries are on it. */
  predicate IsVectorPage(crc: Crc, p: Page) {
    Verified(crc, p) && HeaderOf(p).kind == VECTOR_PAGE && SlotStart(HeaderOf(p).count) <= PAGE_SIZE
  }

  /** The vector of an entry, unless it is marked as deleted or points past the page. */
  function OnSlot(p: Page, i: nat): seq<VectorData>
    requires SlotStart(i + 1) <= PAGE_SIZE
  {
    if SlotAt(p, i)[70] % 2 == 1 then []
    else
      match VectorOfSlot(p, i)
      case None => []
      case Some(v) => [VectorData(SlotId(p, i), v)]
  }

  /** What the first n of some entries give, in their order. */
  function Upto<T>(f: nat -> seq<T>, n: nat): seq<T> {
    if n == 0 then [] else Upto(f, n - 1) + f(n - 1)
  }

  lemma {:induction false} UptoHas<T>(f: nat -> seq<T>, n: nat, x: T)
    ensures x in Upto(f, n) <==> exists i: nat :: i < n && x in f(i)
  {
    if n > 0 { UptoHas(f, n - 1, x); }
  }

  function VectorsOn(p: Page): nat -> seq<VectorData> {
    (i: nat) => if SlotStart(i + 1) <= PAGE_SIZE then OnSlot(p, i) else []
  }

  function OnSlots(p: Page, n: nat): seq<VectorData>
    requires SlotStart(n) <= PAGE_SIZE
  {
    Upto(VectorsOn(p), n)
  }

  lemma OneMoreSlot(p: Page, i: nat)
    requires SlotStart(i + 1) <= PAGE_SIZE
    ensures OnSlots(p, i + 1) == OnSlots(p, i) + OnSlot(p, i)
  {
  }

  function OnPage(crc: Crc, p: Page): seq<VectorData> {
    if IsVectorPage(crc, p) then OnSlots(p, HeaderOf(p).count) else []
  }

  /** What the pages but the header page give, in their order. */
  function Gathered(at: Page -> seq<VectorData>, pages: seq<Page>): seq<VectorData> {
    if |pages| <= 1 then [] else Gathered(at, pages[..|pages| - 1]) + at(pages[|pages| - 1])
  }

  function Reading(crc: Crc): Page -> seq<VectorData> {
    (p: Page) => OnPage(crc, p)
  }

  /** The vectors of all pages. */
  function OnPages(crc: Crc, pages: seq<Page>): seq<VectorData> {
    Gathered(Reading(crc), pages)
  }

  /** The page has an entry of the ID that is not marked as deleted. */
  ghost predicate LiveOn(crc: Crc, p: Page, id: Id) {
    IsVectorPage(crc, p) && exists i: nat :: i < HeaderOf(p).count && IsLive(p, i) && SlotId(p, i) == id
  }

  /** Such an entry leads to the vector. */
  ghost predicate ShowsOn(crc: Crc, p: Page, id: Id, v: Vector) {
    IsVectorPage(crc, p) && exists i: nat :: i < HeaderOf(p).count && ShowsAt(p, i, id, v)
  }

  predicate ShowsAt(p: Page, i: nat, id: Id, v: Vector)
    requires SlotStart(i + 1) <= PAGE_SIZE
  {
    IsLive(p, i) && SlotId(p, i) == id && VectorOfSlot(p, i) == Some(v)
  }

  predicate IsLive(p: Page, i: nat)
    requires SlotStart(i + 1) <= PAGE_SIZE
  {
    SlotAt(p, i)[70] % 2 == 0
  }

  /** The page map names the last page, but the first, on which an ID is live, for exactly the IDs that are. */
  ghost predicate MapsLast(crc: Crc, pages: seq<Page>, places: map<Id, nat>) {
    && (forall id, n: nat :: 1 <= n < |pages| && LiveOn(crc, pages[n], id) ==> id in places && n <= places[id])
    && forall id :: id in places ==> 1 <= places[id] < |pages| && LiveOn(crc, pages[places[id]], id)
  }

  /** The same for entries with a vector that can be read. */
  ghost predicate MapsLastShown(crc: Crc, pages: seq<Page>, places: map<Id, nat>) {
    && (forall id, v, n: nat :: 1 <= n < |pages| && ShowsOn(crc, pages[n], id, v) ==> id in places && n <= places[id])
    && forall id :: id in places ==> 1 <= places[id] < |pages| && exists v :: ShowsOn(crc, pages[places[id]], id, v)
  }

  /** Exactly the IDs that are shown on some page are there, with a vector that the first such page shows. */
  ghost predicate HasFirstShown(crc: Crc, pages: seq<Page>, m: map<Id, Vector>) {
    && (forall id, v, n: nat :: 1 <= n < |pages| && ShowsOn(crc, pages[n], id, v) ==> id in m)
    && forall id :: id in m ==> exists n: nat :: ShowsFirst(crc, pages, id, m[id], n)
  }

  ghost predicate ShowsFirst(crc: Crc, pages: seq<Page>, id: Id, v: Vector, n: nat) {
    1 <= n < |pages| && ShowsOn(crc, pages[n], id, v) && forall k, w :: 1 <= k < n ==> !ShowsOn(crc, pages[k], id, w)
  }

  /** Added one after the other, those of IDs already there being refused. */
  function FirstOver(m: map<Id, Vector>, vs: seq<VectorData>): map<Id, Vector> {
    if vs == [] then m
    else
      var before, last := FirstOver(m, vs[..|vs| - 1]), vs[|vs| - 1];
      if last.id in before then before else before[last.id := last.vector]
  }

  /** The first vector of every ID. */
  function FirstOf(vs: seq<VectorData>): map<Id, Vector> {
    FirstOver(map[], vs)
  }

  function IdsIn(vs: seq<VectorData>): seq<Id> {
    if vs == [] then [] else IdsIn(vs[..|vs| - 1]) + [vs[|vs| - 1].id]
  }

  /** The page map after a page: each ID on it is found there. */
  function Marked(places: map<Id, nat>, ids: seq<Id>, n: nat): map<Id, nat> {
    if ids == [] then places else Marked(places, ids[..|ids| - 1], n)[ids[|ids| - 1] := n]
  }

  /** The page map after all pages: the last page of every ID. */
  function LastOn(at: Page -> seq<Id>, pages: seq<Page>): map<Id, nat> {
    if |pages| <= 1 then map[]
    else Marked(LastOn(at, pages[..|pages| - 1]), at(pages[|pages| - 1]), |pages| - 1)
  }

  function ReadingIds(crc: Crc): Page -> seq<Id> {
    (p: Page) => IdsIn(OnPage(crc, p))
  }

  /** The page map that rebuilding makes. */
  function PlacesOn(crc: Crc, pages: seq<Page>): map<Id, nat> {
    LastOn(ReadingIds(crc), pages)
  }

  lemma {:induction false} FirstOverCat(m: map<Id, Vector>, a: seq<VectorData>, b: seq<VectorData>)
    ensures FirstOver(m, a + b) == FirstOver(FirstOver(m, a), b)
  {
    if b == [] {
      assert a + b == a;
    } else {
      FirstOverCat(m, a, b[..|b| - 1]);
      assert (a + b)[..|a + b| - 1] == a + b[..|b| - 1];
    }
  }

  /** An ID is there exactly if some vector has it. */
  lemma {:induction false} FirstOfHas(m: map<Id, Vector>, vs: seq<VectorData>, id: Id)
    ensures id in FirstOver(m, vs) <==> id in m || exists i :: 0 <= i < |vs| && vs[i].id == id
  {
    if vs != [] {
      FirstOfHas(m, vs[..|vs| - 1], id);
      if i :| 0 <= i < |vs| && vs[i].id == id {
        assert i < |vs| - 1 ==> vs[..|vs| - 1][i].id == id;
      }
    }
  }

  /** One entry of a page: added to the index if its ID is new, and to the page map in any case. */
  method RebuildSlot(index: Index, p: Page, i: nat, n: nat, places: map<Id, nat>, level: nat)
    returns (places': map<Id, nat>)
    requires index.Valid() && level <= MAX_LEVEL && SlotStart(i + 1) <= PAGE_SIZE
    modifies index`nodes, index`entryPoint, index`maxLevel
    ensures index.Valid() && Vectors(index.nodes) == FirstOver(old(Vectors(index.nodes)), OnSlot(p, i))
    ensures places' == Marked(places, IdsIn(OnSlot(p, i)), n)
  {
    places' := places;
    if SlotAt(p, i)[70] % 2 == 1 {
      return;
    }
    var vector := VectorOfSlot(p, i);
    if vector.None? {
      return;
    }
    var id := SlotId(p, i);
    OneEntry(Vectors(index.nodes), places, VectorData(id, vector.value), n);
    var added := index.Add(id, vector.value, level);
    places' := places[id := n];
  }

  lemma OneEntry(m: map<Id, Vector>, places: map<Id, nat>, x: VectorData, n: nat)
    ensures FirstOver(m, [x]) == if x.id in m then m else m[x.id := x.vector]
    ensures IdsIn([x]) == [x.id] && Marked(places, [x.id], n) == places[x.id := n]
  {
    assert [x][..0] == [] && [x.id][..0] == [];
  }

  /** The entries of one page. */
  method RebuildPage(crc: Crc, index: Index, p: Page, n: nat, places: map<Id, nat>, levels: (nat, nat) -> nat)
    returns (places': map<Id, nat>)
    requires index.Valid() && forall a: nat, b: nat :: levels(a, b) <= MAX_LEVEL
    modifies index`nodes, index`entryPoint, index`maxLevel
    ensures index.Valid() && Vectors(index.nodes) == FirstOver(old(Vectors(index.nodes)), OnPage(crc, p))
    ensures places' == Marked(places, IdsIn(OnPage(crc, p)), n)
  {
    places' := places;
    if HeaderOf(p).kind != VECTOR_PAGE || !Verified(crc, p) || SlotStart(HeaderOf(p).count) > PAGE_SIZE {
      return;
    }
    ghost var before := Vectors(index.nodes);
    for i := 0 to HeaderOf(p).count
      invariant index.Valid() && Vectors(index.nodes) == FirstOver(before, OnSlots(p, i))
      invariant places' == Marked(places, IdsIn(OnSlots(p, i)), n)
    {
      places' := RebuildSlot(index, p, i, n, places', levels(n, i));
      OneMoreSlot(p, i);
      FirstOverCat(before, OnSlots(p, i), OnSlot(p, i));
      IdsInCat(OnSlots(p, i), OnSlot(p, i));
      MarkedCat(places, IdsIn(OnSlots(p, i)), IdsIn(OnSlot(p, i)), n);
    }
  }

  lemma {:induction false} IdsInCat(a: seq<VectorData>, b: seq<VectorData>)
    ensures IdsIn(a + b) == IdsIn(a) + IdsIn(b)
  {
    if b == [] {
      assert a + b == a;
    } else {
      IdsInCat(a, b[..|b| - 1]);
      assert (a + b)[..|a + b| - 1] == a + b[..|b| - 1];
    }
  }

  lemma {:induction false} MarkedCat(places: map<Id, nat>, a: seq<Id>, b: seq<Id>, n: nat)
    ensures Marked(places, a + b, n) == Marked(Marked(places, a, n), b, n)
  {
    if b == [] {
      assert a + b == a;
    } else {
      MarkedCat(places, a, b[..|b| - 1], n);
      assert (a + b)[..|a + b| - 1] == a + b[..|b| - 1];
    }
  }

  /** The loop over the pages. */
  method RebuildPages(crc: Crc, storage: Storage, index: Index, levels: (nat, nat) -> nat, ghost pages: seq<Page>)
    returns (places: map<Id, nat>)
    requires storage.pages == pages
    requires index.Valid() && index.nodes == map[] && forall a: nat, b: nat :: levels(a, b) <= MAX_LEVEL
    modifies index`nodes, index`entryPoint, index`maxLevel
    ensures index.Valid() && RebuiltTo(crc, pages, |pages| + 1, Vectors(index.nodes), places)
  {
    places := map[];
    var n := 1;
    RebuiltNone(crc, pages);
    while n < |storage.pages|
      invariant 1 <= n && index.Valid()
      invariant RebuiltTo(crc, pages, n, Vectors(index.nodes), places)
    {
      var page := storage.ReadPage(n);
      RebuiltMore(crc, pages, n, Vectors(index.nodes), places);
      places := RebuildPage(crc, index, page.value, n, places, levels);
      n := n + 1;
    }
    RebuiltAll(crc, pages, n, Vectors(index.nodes), places);
  }

  /**
   * rebuildIndexFromPages: the index gets the first vector of every ID, and the
   * page map its last page.
   */
  method Rebuild(crc: Crc, storage: Storage, index: Index, levels: (nat, nat) -> nat)
    returns (places: map<Id, nat>)
    requires index.Valid() && index.nodes == map[] && forall a: nat, b: nat :: levels(a, b) <= MAX_LEVEL
    modifies index`nodes, index`entryPoint, index`maxLevel
    ensures index.Valid() && Vectors(index.nodes) == FirstOf(OnPages(crc, storage.pages))
    ensures places == PlacesOn(crc, storage.pages)
    ensures HasFirstShown(crc, storage.pages, Vectors(index.nodes)) && MapsLastShown(crc, storage.pages, places)
  {
    places := RebuildPages(crc, storage, index, levels, storage.pages);
    RebuiltShows(crc, storage.pages);
  }

  /** The pages before the n-th are done. */
  ghost predicate RebuiltTo(crc: Crc, pages: seq<Page>, n: nat, m: map<Id, Vector>, places: map<Id, nat>) {
    var done := if n <= |pages| then pages[..n] else pages;
    m == FirstOf(OnPages(crc, done)) && places == PlacesOn(crc, done)
  }

  lemma RebuiltNone(crc: Crc, pages: seq<Page>)
    ensures RebuiltTo(crc, pages, 1, map[], map[])
  {
  }

  lemma RebuiltAll(crc: Crc, pages: seq<Page>, n: nat, m: map<Id, Vector>, places: map<Id, nat>)
    requires RebuiltTo(crc, pages, n, m, places) && n >= |pages|
    ensures RebuiltTo(crc, pages, |pages| + 1, m, places)
  {
    assert n == |pages| ==> pages[..n] == pages;
  }

  lemma RebuiltMore(crc: Crc, pages: seq<Page>, n: nat, m: map<Id, Vector>, places: map<Id, nat>)
    requires 1 <= n < |pages| && RebuiltTo(crc, pages, n, m, places)
    ensures RebuiltTo(crc, pages, n + 1, FirstOver(m, OnPage(crc, pages[n])),
                      Marked(places, IdsIn(OnPage(crc, pages[n])), n))
  {
    PagesTo(crc, pages, n);
    FirstOverCat(map[], OnPages(crc, pages[..n]), OnPage(crc, pages[n]));
  }

  lemma GatheredSnoc(at: Page -> seq<VectorData>, front: seq<Page>, p: Page)
    requires front != []
    ensures Gathered(at, front + [p]) == Gathered(at, front) + at(p)
  {
    assert (front + [p])[..|front|] == front;
  }

  lemma LastSnoc(at: Page -> seq<Id>, front: seq<Page>, p: Page)
    requires front != []
    ensures LastOn(at, front + [p]) == Marked(LastOn(at, front), at(p), |front|)
  {
    assert (front + [p])[..|front|] == front;
  }

  lemma LastTo(at: Page -> seq<Id>, pages: seq<Page>, n: nat)
    requires 1 <= n < |pages|
    ensures LastOn(at, pages[..n + 1]) == Marked(LastOn(at, pages[..n]), at(pages[n]), n)
  {
    assert pages[..n + 1] == pages[..n] + [pages[n]];
    LastSnoc(at, pages[..n], pages[n]);
  }

  lemma PagesSnoc(crc: Crc, front: seq<Page>, p: Page)
    requires front != []
    ensures OnPages(crc, front + [p]) == OnPages(crc, front) + OnPage(crc, p)
    ensures PlacesOn(crc, front + [p]) == Marked(PlacesOn(crc, front), IdsIn(OnPage(crc, p)), |front|)
  {
    GatheredSnoc(Reading(crc), front, p);
    LastSnoc(ReadingIds(crc), front, p);
  }

  lemma PagesTo(crc: Crc, pages: seq<Page>, n: nat)
    requires 1 <= n < |pages|
    ensures OnPages(crc, pages[..n + 1]) == OnPages(crc, pages[..n]) + OnPage(crc, pages[n])
    ensures PlacesOn(crc, pages[..n + 1]) == Marked(PlacesOn(crc, pages[..n]), IdsIn(OnPage(crc, pages[n])), n)
  {
    assert pages[..n + 1] == pages[..n] + [pages[n]];
    PagesSnoc(crc, pages[..n], pages[n]);
  }

  /** The ID of an entry that is not marked as deleted, whether its vector can be read or not. */
  function NameOnSlot(p: Page, i: nat): seq<Id>
    requires SlotStart(i + 1) <= PAGE_SIZE
  {
    if SlotAt(p, i)[70] % 2 == 1 then [] else [SlotId(p, i)]
  }

  function NamesOf(p: Page): nat -> seq<Id> {
    (i: nat) => if SlotStart(i + 1) <= PAGE_SIZE then NameOnSlot(p, i) else []
  }

  function NamesOnSlots(p: Page, n: nat): seq<Id>
    requires SlotStart(n) <= PAGE_SIZE
  {
    Upto(NamesOf(p), n)
  }

  lemma OneMoreName(p: Page, i: nat)
    requires SlotStart(i + 1) <= PAGE_SIZE
    ensures NamesOnSlots(p, i + 1) == NamesOnSlots(p, i) + NameOnSlot(p, i)
  {
  }

  function NamesOnPage(crc: Crc, p: Page): seq<Id> {
    if IsVectorPage(crc, p) then NamesOnSlots(p, HeaderOf(p).count) else []
  }

  function ReadingNames(crc: Crc): Page -> seq<Id> {
    (p: Page) => NamesOnPage(crc, p)
  }

  method MapSlot(p: Page, i: nat, n: nat, places: map<Id, nat>) returns (places': map<Id, nat>)
    requires SlotStart(i + 1) <= PAGE_SIZE
    ensures places' == Marked(places, NameOnSlot(p, i), n)
  {
    places' := if SlotAt(p, i)[70] % 2 == 0 then places[SlotId(p, i) := n] else places;
  }

  method MapSlots(p: Page, count: nat, n: nat, places: map<Id, nat>) returns (places': map<Id, nat>)
    requires SlotStart(count) <= PAGE_SIZE
    ensures places' == Marked(places, NamesOnSlots(p, count), n)
  {
    places' := places;
    for i := 0 to count
      invariant places' == Marked(places, NamesOnSlots(p, i), n)
    {
      OneMoreName(p, i);
      MarkedCat(places, NamesOnSlots(p, i), NameOnSlot(p, i), n);
      places' := MapSlot(p, i, n, places');
    }
  }

  method MapPage(crc: Crc, p: Page, n: nat, places: map<Id, nat>) returns (places': map<Id, nat>)
    ensures places' == Marked(places, NamesOnPage(crc, p), n)
  {
    if HeaderOf(p).kind != VECTOR_PAGE || !Verified(crc, p) || SlotStart(HeaderOf(p).count) > PAGE_SIZE {
      return places;
    }
    places' := MapSlots(p, HeaderOf(p).count, n, places);
  }

  /** The loop over the pages. */
  method MapAll(crc: Crc, storage: Storage) returns (places: map<Id, nat>)
    ensures places == LastOn(ReadingNames(crc), storage.pages)
  {
    places := map[];
    var pages := storage.pages;
    if |pages| <= 1 {
      return;
    }
    for n := 1 to |pages|
      invariant places == LastOn(ReadingNames(crc), pages[..n])
    {
      LastTo(ReadingNames(crc), pages, n);
      places := MapPage(crc, pages[n], n, places);
    }
    assert pages[..|pages|] == pages;
  }

  /** buildVectorPageMap: the page map beside a saved index. */
  method MapPages(crc: Crc, storage: Storage) returns (places: map<Id, nat>)
    ensures places == LastOn(ReadingNames(crc), storage.pages) && MapsLast(crc, storage.pages, places)
  {
    places := MapAll(crc, storage);
    NamedLast(crc, storage.pages);
  }

  lemma {:induction false} MarkedHas(places: map<Id, nat>, ids: seq<Id>, n: nat, id: Id)
    ensures id in Marked(places, ids, n) <==> id in places || id in ids
    ensures id in ids ==> Marked(places, ids, n)[id] == n
    ensures id in places && id !in ids ==> Marked(places, ids, n)[id] == places[id]
  {
    if ids != [] {
      var m := |ids| - 1;
      MarkedHas(places, ids[..m], n, id);
      assert ids == ids[..m] + [ids[m]];
    }
  }

  lemma {:induction false} LastOnHas(at: Page -> seq<Id>, pages: seq<Page>, id: Id)
    ensures var places := LastOn(at, pages);
            && (forall n: nat :: 1 <= n < |pages| && id in at(pages[n]) ==> id in places && n <= places[id])
            && (id in places ==> 1 <= places[id] < |pages| && id in at(pages[places[id]]))
  {
    if |pages| > 1 {
      var m := |pages| - 1;
      LastOnHas(at, pages[..m], id);
      MarkedHas(LastOn(at, pages[..m]), at(pages[m]), m, id);
      forall n: nat | 1 <= n < m ensures pages[..m][n] == pages[n] {}
    }
  }

  lemma NameHas(p: Page, i: nat, id: Id)
    requires SlotStart(i + 1) <= PAGE_SIZE
    ensures id in NamesOf(p)(i) <==> IsLive(p, i) && SlotId(p, i) == id
  {
  }

  lemma NamesHas(p: Page, n: nat, id: Id)
    requires SlotStart(n) <= PAGE_SIZE
    ensures id in NamesOnSlots(p, n) <==> exists i: nat :: i < n && IsLive(p, i) && SlotId(p, i) == id
  {
    UptoHas(NamesOf(p), n, id);
    forall i: nat | i < n ensures id in NamesOf(p)(i) <==> IsLive(p, i) && SlotId(p, i) == id { NameHas(p, i, id); }
  }

  lemma NamedLast(crc: Crc, pages: seq<Page>)
    ensures MapsLast(crc, pages, LastOn(ReadingNames(crc), pages))
  {
    forall id, p: Page ensures id in ReadingNames(crc)(p) <==> LiveOn(crc, p, id) {
      if IsVectorPage(crc, p) { NamesHas(p, HeaderOf(p).count, id); }
    }
    forall id { LastOnHas(ReadingNames(crc), pages, id); }
  }

  lemma SlotHas(p: Page, i: nat, x: VectorData)
    requires SlotStart(i + 1) <= PAGE_SIZE
    ensures x in VectorsOn(p)(i) <==> ShowsAt(p, i, x.id, x.vector)
  {
    var v := VectorOfSlot(p, i);
    if v.Some? { assert x in [VectorData(SlotId(p, i), v.value)] <==> x == VectorData(SlotId(p, i), v.value); }
  }

  lemma SlotsHave(p: Page, n: nat, x: VectorData)
    requires SlotStart(n) <= PAGE_SIZE
    ensures x in OnSlots(p, n) <==> exists i: nat :: i < n && ShowsAt(p, i, x.id, x.vector)
  {
    UptoHas(VectorsOn(p), n, x);
    forall i: nat | i < n ensures x in VectorsOn(p)(i) <==> ShowsAt(p, i, x.id, x.vector) { SlotHas(p, i, x); }
  }

  lemma OnPageHas(crc: Crc, p: Page, id: Id, v: Vector)
    ensures VectorData(id, v) in OnPage(crc, p) <==> ShowsOn(crc, p, id, v)
  {
    if IsVectorPage(crc, p) { SlotsHave(p, HeaderOf(p).count, VectorData(id, v)); }
  }

  lemma {:induction false} IdsInHas(vs: seq<VectorData>, id: Id)
    ensures id in IdsIn(vs) <==> exists v :: VectorData(id, v) in vs
  {
    if vs != [] {
      var m := |vs| - 1;
      IdsInHas(vs[..m], id);
      assert vs == vs[..m] + [vs[m]];
      assert vs[m].id == id ==> VectorData(id, vs[m].vector) in vs;
    }
  }

  /** Whether added before or not, and if not, with which vector. */
  lemma {:induction false} FirstOverHas(m: map<Id, Vector>, vs: seq<VectorData>, id: Id)
    ensures id in m ==> id in FirstOver(m, vs) && FirstOver(m, vs)[id] == m[id]
    ensures id !in m && id in FirstOver(m, vs) ==> VectorData(id, FirstOver(m, vs)[id]) in vs
    ensures forall v :: VectorData(id, v) in vs ==> id in FirstOver(m, vs)
  {
    if vs != [] {
      var n := |vs| - 1;
      FirstOverHas(m, vs[..n], id);
      assert vs == vs[..n] + [vs[n]];
    }
  }

  /** The first of the pages with a vector of the ID gives it. */
  ghost predicate FirstAt(at: Page -> seq<VectorData>, pages: seq<Page>, id: Id, v: Vector, n: nat) {
    1 <= n < |pages| && VectorData(id, v) in at(pages[n])
    && forall k, w :: 1 <= k < n ==> VectorData(id, w) !in at(pages[k])
  }

  lemma {:induction false} GatheredFirst(at: Page -> seq<VectorData>, pages: seq<Page>, id: Id)
    ensures var m := FirstOf(Gathered(at, pages));
            && (forall v, n: nat :: 1 <= n < |pages| && VectorData(id, v) in at(pages[n]) ==> id in m)
            && (id in m ==> exists n: nat :: FirstAt(at, pages, id, m[id], n))
  {
    if |pages| > 1 {
      var l := |pages| - 1;
      var before := FirstOf(Gathered(at, pages[..l]));
      GatheredFirst(at, pages[..l], id);
      FirstOverCat(map[], Gathered(at, pages[..l]), at(pages[l]));
      FirstOverHas(before, at(pages[l]), id);
      forall n: nat | 1 <= n < l ensures pages[..l][n] == pages[n] {}
      var m := FirstOf(Gathered(at, pages));
      if id in m {
        if id in before {
          var n: nat :| FirstAt(at, pages[..l], id, before[id], n);
          assert FirstAt(at, pages, id, m[id], n);
        } else {
          assert FirstAt(at, pages, id, m[id], l);
        }
      }
    }
  }

  lemma RebuiltShows(crc: Crc, pages: seq<Page>)
    ensures HasFirstShown(crc, pages, FirstOf(OnPages(crc, pages))) && MapsLastShown(crc, pages, PlacesOn(crc, pages))
  {
    forall p: Page, id, v ensures VectorData(id, v) in Reading(crc)(p) <==> ShowsOn(crc, p, id, v) {
      OnPageHas(crc, p, id, v);
    }
    forall id | id in FirstOf(OnPages(crc, pages))
      ensures exists n: nat :: ShowsFirst(crc, pages, id, FirstOf(OnPages(crc, pages))[id], n)
    {
      GatheredFirst(Reading(crc), pages, id);
      var n: nat :| FirstAt(Reading(crc), pages, id, FirstOf(OnPages(crc, pages))[id], n);
      assert ShowsFirst(crc, pages, id, FirstOf(OnPages(crc, pages))[id], n);
    }
    forall id { GatheredFirst(Reading(crc), pages, id); }
    ShownLast(crc, pages);
  }

  lemma ShownLast(crc: Crc, pages: seq<Page>)
    ensures MapsLastShown(crc, pages, PlacesOn(crc, pages))
  {
    forall id, p: Page ensures id in ReadingIds(crc)(p) <==> exists v :: ShowsOn(crc, p, id, v) {
      IdsInHas(OnPage(crc, p), id);
      forall v { OnPageHas(crc, p, id, v); }
    }
    forall id { LastOnHas(ReadingIds(crc), pages, id); }
  }

  /** The ID that a stored ID is read back as. */
  function Shown(id: Id): Id {
    ExtractId(PackId(id))
  }

  /** A page with one vector, as a store writes it, gives that vector under the ID as it is read back. */
  lemma StoredPage(crc: Crc, id: Id, v: Vector, p: Page)
    requires PageWithVector(crc, ZeroBytes(PAGE_SIZE), id, v) == Some(p)
    ensures OnPage(crc, p) == [VectorData(Shown(id), v)]
  {
    var zero: Page := ZeroBytes(PAGE_SIZE);
    assert HeaderFor(zero).count == 0;
    NewPageHeader(crc, zero, id, v, p);
    StoredSlot(zero, id, v, p);
    OneSlot(crc, p, VectorData(Shown(id), v));
  }

  lemma StoredSlot(zero: Page, id: Id, v: Vector, p: Page)
    requires SlotStart(1) + 4 * |v| <= PAGE_SIZE && p[HEADER_SIZE..] == BodyWith(zero, 0, id, v)
    ensures SlotAt(p, 0)[70] == 0 && SlotId(p, 0) == Shown(id) && VectorOfSlot(p, 0) == Some(v)
  {
    NewSlotFields(zero, 0, id, v, p);
    NewPageEntry(zero, 0, id, v, p);
    EntryFlag(id, SlotStart(1), |v|);
    NewPageData(zero, 0, id, v, p);
    SlotVector(p, 0, SlotStart(1), v);
  }

  lemma OneSlot(crc: Crc, p: Page, x: VectorData)
    requires IsVectorPage(crc, p) && HeaderOf(p).count == 1
    requires SlotAt(p, 0)[70] == 0 && SlotId(p, 0) == x.id && VectorOfSlot(p, 0) == Some(x.vector)
    ensures OnPage(crc, p) == [x]
  {
    assert OnSlots(p, 0) == [] && OnSlots(p, 1) == [] + OnSlot(p, 0);
  }

  lemma EntryFlag(id: Id, offset: nat, length: nat)
    ensures EntryBytes(id, offset, length)[70] == 0
  {
  }

  /** A page of zeros gives nothing. */
  lemma ZeroPage(crc: Crc)
    ensures OnPage(crc, ZeroBytes(PAGE_SIZE)) == []
  {
    var p: Page := ZeroBytes(PAGE_SIZE);
    assert HeaderOf(p).kind == 0;
  }

  /** An ID read back is read back as itself from then on. */
  lemma ShownSurvives(s: seq<byte>)
    requires |s| == ID_SIZE
    ensures Survives(ExtractId(s))
  {
    var id, end := ExtractId(s), FirstZero(s);
    if 0 < end < ID_SIZE {
      assert NoZero(id);
    }
    IdSurvivesIff(id);
  }
}
