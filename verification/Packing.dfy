/**
 * page_packing.go: packing vectors into as few pages as the layout allows, and
 * getting them back.
 */
module Packing {
  import opened Base
  import opened LittleEndian
  import opened Pages
  import opened PackedPage

  /** A slice past the page is a panic; the checks that fail are errors. */
  datatype Unpacked = Vectors(vectors: seq<VectorData>) | UnpackError | UnpackPanic

  function EntryAt(p: Page, i: nat): seq<byte>
    requires DataStart(i + 1) <= PAGE_SIZE
  {
    p[DataStart(i)..DataStart(i + 1)]
  }

  function VectorAt(p: Page, i: nat): Option<VectorData>
    requires DataStart(i + 1) <= PAGE_SIZE
  {
    var e := EntryAt(p, i);
    var offset, length := U32(e[64..68]), FromLE(e[68..70]);
    if offset + 4 * length > PAGE_SIZE then None
    else Some(VectorData(ExtractId(e[..64]), VectorFrom(p[offset..offset + 4 * length])))
  }

  type Slots = nat -> Option<VectorData>

  /** The vector that the i-th entry points at, if it is on the page. */
  function SlotsOf(p: Page): Slots {
    (i: nat) => if DataStart(i + 1) <= PAGE_SIZE then VectorAt(p, i) else None
  }

  function Collect(at: Slots, n: nat): Option<seq<VectorData>> {
    if n == 0 then Some([])
    else
      match Collect(at, n - 1)
      case None => None
      case Some(before) =>
        match at(n - 1)
        case None => None
        case Some(v) => Some(before + [v])
  }

  function CountOn(p: Page): nat {
    FromLE(p[64..66])
  }

  function UnpackOf(crc: Crc, p: Page): Unpacked {
    if !Verified(crc, p) then UnpackError
    else if DataStart(CountOn(p)) > PAGE_SIZE then UnpackPanic
    else
      match Collect(SlotsOf(p), CountOn(p))
      case None => UnpackError
      case Some(vs) => Vectors(vs)
  }

  lemma {:induction false} CollectFails(at: Slots, i: nat, n: nat)
    requires i < n && at(i).None?
    ensures Collect(at, n).None?
  {
    if i < n - 1 { CollectFails(at, i, n - 1); }
  }

  lemma {:induction false} CollectSize(at: Slots, n: nat)
    ensures Collect(at, n).Some? ==> |Collect(at, n).value| == n
    ensures Collect(at, n).Some? && n > 0 ==> at(n - 1) == Some(Collect(at, n).value[n - 1])
  {
    if n > 0 { CollectSize(at, n - 1); }
  }

  /** All entries first; None is a slice past the page. */
  method ReadEntries(p: Page, count: nat) returns (r: Option<seq<seq<byte>>>)
    ensures r.None? <==> DataStart(count) > PAGE_SIZE
    ensures r.Some? ==> |r.value| == count && forall j :: 0 <= j < count ==> r.value[j] == EntryAt(p, j)
  {
    var entries: seq<seq<byte>> := [];
    var offset := DATA_START;
    for i := 0 to count
      invariant |entries| == i && offset == DataStart(i) <= PAGE_SIZE
      invariant forall j :: 0 <= j < i ==> entries[j] == EntryAt(p, j)
    {
      if offset + ENTRY_SIZE > PAGE_SIZE {
        return None;
      }
      entries := entries + [p[offset..offset + ENTRY_SIZE]];
      offset := offset + ENTRY_SIZE;
    }
    r := Some(entries);
  }

  /** The vector an entry points at. */
  method ReadVector(p: Page, e: seq<byte>, ghost i: nat) returns (v: Option<VectorData>)
    requires DataStart(i + 1) <= PAGE_SIZE && e == EntryAt(p, i)
    ensures v == VectorAt(p, i)
  {
    var start, length := U32(e[64..68]), FromLE(e[68..70]);
    if start + length * 4 > PAGE_SIZE {
      return None;
    }
    var vector := DeserializeVector(p[start..start + length * 4]);
    v := Some(VectorData(ExtractId(e[..64]), vector));
  }

  /** UnpackVectorsFromPage. */
  method UnpackVectorsFromPage(crc: Crc, p: Page) returns (r: Unpacked)
    ensures r == UnpackOf(crc, p)
  {
    if !Verified(crc, p) {
      return UnpackError;
    }
    var count := CountOn(p);
    var entries := ReadEntries(p, count);
    if entries.None? {
      return UnpackPanic;
    }
    var vectors: seq<VectorData> := [];
    for i := 0 to count
      invariant Collect(SlotsOf(p), i) == Some(vectors)
    {
      var v := ReadVector(p, entries.value[i], i);
      if v.None? {
        CollectFails(SlotsOf(p), i, count);
        return UnpackError;
      }
      vectors := vectors + [v.value];
    }
    r := Vectors(vectors);
  }

  /** The content is on the page from the end of the header on, as far as it fits. */
  ghost predicate Carries(p: Page, content: seq<byte>) {
    p[HEADER_SIZE..HEADER_SIZE + Min(|content|, BODY_SIZE)] == content[..Min(|content|, BODY_SIZE)]
  }

  lemma PackedCarries(crc: Crc, vs: seq<VectorData>)
    ensures Carries(PackedPageOf(crc, vs), Content(vs))
  {
    var h := Header(VECTOR_PAGE, 0, |vs| % 0x1_0000, 0, 0);
    var body := FitBody(Content(vs));
    SliceOfBack(HeaderBytes(h.(checksum := Pages.Sum(crc, PageWith(h, body)))), body, 0, Min(|Content(vs)|, BODY_SIZE));
  }

  lemma CarriedSlice(p: Page, content: seq<byte>, i: nat, j: nat)
    requires Carries(p, content) && i <= j <= Min(|content|, BODY_SIZE)
    ensures p[HEADER_SIZE + i..HEADER_SIZE + j] == content[i..j]
  {
    var m := Min(|content|, BODY_SIZE);
    forall k | 0 <= k < j - i ensures p[HEADER_SIZE + i..HEADER_SIZE + j][k] == content[i..j][k] {
      assert p[HEADER_SIZE..HEADER_SIZE + m][i + k] == content[..m][i + k];
    }
  }

  /** A chunk of a list of chunks, with something before the list and something after. */
  lemma CarriedChunk(p: Page, a: seq<byte>, cs: seq<seq<byte>>, b: seq<byte>, k: nat, o: nat)
    requires Carries(p, a + Concat(cs) + b) && k < |cs| && o == |a| + |Concat(cs[..k])| && o + |cs[k]| <= BODY_SIZE
    ensures o + |cs[k]| <= |a| + |Concat(cs)|
    ensures p[HEADER_SIZE + o..HEADER_SIZE + o + |cs[k]|] == cs[k]
  {
    ConcatSlice(cs, k);
    var n := |Concat(cs[..k])|;
    CarriedSlice(p, a + Concat(cs) + b, o, o + |cs[k]|);
    SliceOfFront(a + Concat(cs), b, o, o + |cs[k]|);
    SliceOfBack(a, Concat(cs), n, n + |cs[k]|);
  }

  lemma CarriedLast(p: Page, a: seq<byte>, cs: seq<seq<byte>>, k: nat, o: nat)
    requires Carries(p, a + Concat(cs)) && k < |cs| && o == |a| + |Concat(cs[..k])| && o + |cs[k]| <= BODY_SIZE
    ensures p[HEADER_SIZE + o..HEADER_SIZE + o + |cs[k]|] == cs[k]
  {
    assert a + Concat(cs) + [] == a + Concat(cs);
    CarriedChunk(p, a, cs, [], k, o);
  }

  lemma CountRegion(p: Page, vs: seq<VectorData>)
    requires Carries(p, Content(vs)) && DataStart(|vs|) <= PAGE_SIZE
    ensures CountOn(p) == |vs|
  {
    var a, b, c := LE(|vs|, 2), Concat(Entries(vs)), Concat(Datas(vs));
    CarriedSlice(p, a + b + c, 0, 2);
    SliceOfFront(a + b, c, 0, 2);
    SliceOfFront(a, b, 0, 2);
    assert a[0..2] == a;
    Widths();
    RoundTrip(|vs|, 2);
  }

  /** The i-th of a list of entries right after the count. */
  lemma EntryChunk(p: Page, count: seq<byte>, es: seq<seq<byte>>, rest: seq<byte>, i: nat)
    requires Carries(p, count + Concat(es) + rest) && |count| == 2 && i < |es| && DataStart(|es|) <= PAGE_SIZE
    requires forall j :: 0 <= j < |es| ==> |es[j]| == ENTRY_SIZE
    ensures EntryAt(p, i) == es[i]
  {
    EntryOffset(es, i);
    CarriedChunk(p, count, es, rest, i, 2 + 80 * i);
  }

  lemma EntryRegion(p: Page, vs: seq<VectorData>, i: nat)
    requires Carries(p, Content(vs)) && DataStart(|vs|) <= PAGE_SIZE && i < |vs|
    ensures DataStart(i + 1) <= DataStart(|vs|) && EntryAt(p, i) == Entries(vs)[i]
  {
    EntryChunk(p, LE(|vs|, 2), Entries(vs), Concat(Datas(vs)), i);
  }

  lemma {:induction false} TotalPrefix(vs: seq<VectorData>, i: nat)
    requires i < |vs|
    ensures Total(vs[..i]) + |vs[i].vector| <= Total(vs)
  {
    var n := |vs| - 1;
    if i < n {
      TotalPrefix(vs[..n], i);
      assert vs[..n][..i] == vs[..i];
    }
  }

  /** Entries and data do not overlap: each ends before the next begins, and the last inside the page. */
  lemma Disjoint(vs: seq<VectorData>, i: nat, j: nat)
    requires PageFits(vs) && i < j < |vs|
    ensures DataStart(i + 1) <= DataStart(j) < DataStart(|vs|) <= DataStart(|vs|) + 4 * Total(vs[..i])
    ensures 4 * Total(vs[..i]) + 4 * |vs[i].vector| <= 4 * Total(vs[..j])
    ensures DataStart(|vs|) + 4 * Total(vs[..j]) + 4 * |vs[j].vector| <= PAGE_SIZE
  {
    TotalPrefix(vs, j);
    TotalPrefix(vs[..j], i);
    assert vs[..j][..i] == vs[..i];
  }

  lemma ReadBack(p: Page, i: nat, offset: nat, v: VectorData)
    requires DataStart(i + 1) <= PAGE_SIZE && offset + 4 * |v.vector| <= PAGE_SIZE && Survives(v.id)
    requires EntryAt(p, i) == EntryBytes(v.id, offset, |v.vector|)
    requires p[offset..offset + 4 * |v.vector|] == VectorBytes(v.vector)
    ensures VectorAt(p, i) == Some(v)
  {
    EntryFields(v.id, offset, |v.vector|);
    VectorRoundTrip(v.vector);
  }

  /** All vectors are found where their entries say. */
  ghost predicate Laid(p: Page, vs: seq<VectorData>) {
    CountOn(p) == |vs| && DataStart(|vs|) <= PAGE_SIZE && forall i :: 0 <= i < |vs| ==> VectorAt(p, i) == Some(vs[i])
  }

  /** The i-th of a list of vectors after the entries. */
  lemma DataChunk(p: Page, front: seq<byte>, ds: seq<seq<byte>>, vs: seq<VectorData>, i: nat)
    requires Carries(p, front + Concat(ds)) && |front| == COUNT_SIZE + 80 * |vs| && PageFits(vs) && i < |vs| == |ds|
    requires forall j :: 0 <= j < |ds| ==> |ds[j]| == 4 * |vs[j].vector|
    ensures var offset := DataStart(|vs|) + 4 * Total(vs[..i]);
            offset + 4 * |vs[i].vector| <= PAGE_SIZE && p[offset..offset + 4 * |vs[i].vector|] == ds[i]
  {
    DataOffset(ds, vs, i);
    TotalPrefix(vs, i);
    CarriedLast(p, front, ds, i, COUNT_SIZE + 80 * |vs| + 4 * Total(vs[..i]));
  }

  lemma ReadBackAt(p: Page, vs: seq<VectorData>, i: nat, offset: nat)
    requires PageFits(vs) && i < |vs| && Survives(vs[i].id) && DataStart(i + 1) <= PAGE_SIZE
    requires EntryAt(p, i) == EntryBytes(vs[i].id, offset, |vs[i].vector|)
    requires offset + 4 * |vs[i].vector| <= PAGE_SIZE
             && p[offset..offset + 4 * |vs[i].vector|] == VectorBytes(vs[i].vector)
    ensures VectorAt(p, i) == Some(vs[i])
  {
    ReadBack(p, i, offset, vs[i]);
  }

  lemma EntryFound(p: Page, vs: seq<VectorData>, i: nat, offset: nat)
    requires Carries(p, Content(vs)) && DataStart(|vs|) <= PAGE_SIZE && i < |vs|
             && offset == DataStart(|vs|) + 4 * Total(vs[..i])
    ensures DataStart(i + 1) <= PAGE_SIZE && EntryAt(p, i) == EntryBytes(vs[i].id, offset, |vs[i].vector|)
  {
    EntryRegion(p, vs, i);
    EntryIs(vs, i);
  }

  lemma FrontSize(vs: seq<VectorData>)
    ensures |LE(|vs|, 2) + Concat(Entries(vs))| == COUNT_SIZE + 80 * |vs|
  {
    EntryOffset(Entries(vs), |vs|);
    assert Entries(vs)[..|vs|] == Entries(vs);
  }

  lemma DataFound(p: Page, vs: seq<VectorData>, i: nat, offset: nat)
    requires Carries(p, Content(vs)) && PageFits(vs) && i < |vs| && offset == DataStart(|vs|) + 4 * Total(vs[..i])
    ensures offset + 4 * |vs[i].vector| <= PAGE_SIZE
            && p[offset..offset + 4 * |vs[i].vector|] == VectorBytes(vs[i].vector)
  {
    FrontSize(vs);
    DataIs(vs, i);
    DataChunk(p, LE(|vs|, 2) + Concat(Entries(vs)), Datas(vs), vs, i);
  }

  lemma CarriedVector(p: Page, vs: seq<VectorData>, i: nat)
    requires Carries(p, Content(vs)) && PageFits(vs) && i < |vs| && Survives(vs[i].id)
    ensures DataStart(i + 1) <= PAGE_SIZE && VectorAt(p, i) == Some(vs[i])
  {
    var offset := DataStart(|vs|) + 4 * Total(vs[..i]);
    EntryFound(p, vs, i, offset);
    DataFound(p, vs, i, offset);
    ReadBackAt(p, vs, i, offset);
  }

  lemma CarriedIsLaid(p: Page, vs: seq<VectorData>)
    requires Carries(p, Content(vs)) && PageFits(vs) && forall i :: 0 <= i < |vs| ==> Survives(vs[i].id)
    ensures Laid(p, vs)
  {
    CountRegion(p, vs);
    forall i | 0 <= i < |vs| ensures VectorAt(p, i) == Some(vs[i]) { CarriedVector(p, vs, i); }
  }

  lemma {:induction false} CollectAll(at: Slots, vs: seq<VectorData>, n: nat)
    requires n <= |vs| && forall i :: 0 <= i < |vs| ==> at(i) == Some(vs[i])
    ensures Collect(at, n) == Some(vs[..n])
  {
    if n > 0 {
      CollectAll(at, vs, n - 1);
      assert vs[..n] == vs[..n - 1] + [vs[n - 1]];
    }
  }

  lemma PageVerifies(crc: Crc, vs: seq<VectorData>)
    ensures Verified(crc, PackedPageOf(crc, vs))
  {
    SealedVerifies(crc, Header(VECTOR_PAGE, 0, |vs| % 0x1_0000, 0, 0), FitBody(Content(vs)));
  }

  lemma LaidUnpacks(crc: Crc, p: Page, vs: seq<VectorData>)
    requires Verified(crc, p) && Laid(p, vs)
    ensures UnpackOf(crc, p) == Vectors(vs)
  {
    CollectAll(SlotsOf(p), vs, |vs|);
    assert vs[..|vs|] == vs;
  }

  /** A page that fits gives its vectors back. */
  lemma PageRoundTrip(crc: Crc, vs: seq<VectorData>)
    requires PageFits(vs) && forall i :: 0 <= i < |vs| ==> Survives(vs[i].id)
    ensures UnpackOf(crc, PackedPageOf(crc, vs)) == Vectors(vs)
  {
    PageVerifies(crc, vs);
    PackedCarries(crc, vs);
    CarriedIsLaid(PackedPageOf(crc, vs), vs);
    LaidUnpacks(crc, PackedPageOf(crc, vs), vs);
  }

  /** A single vector that does not fit is written in part and never read back. */
  lemma OverflowNotBack(crc: Crc, v: VectorData)
    requires !PageFits([v])
    ensures UnpackOf(crc, PackedPageOf(crc, [v])) != Vectors([v])
  {
    PackedCarries(crc, [v]);
    PartNotRead(crc, PackedPageOf(crc, [v]), v);
  }

  lemma PartNotRead(crc: Crc, p: Page, v: VectorData)
    requires !PageFits([v]) && Carries(p, Content([v]))
    ensures UnpackOf(crc, p) != Vectors([v])
  {
    CountRegion(p, [v]);
    EntryRegion(p, [v], 0);
    TotalOne(v);
    EntryFieldsCut(v.id, 146, |v.vector|);
    CollectSize(SlotsOf(p), 1);
  }

  lemma EntryFieldsCut(id: Id, offset: nat, length: nat)
    requires offset < 0x1_0000_0000
    ensures U32(EntryBytes(id, offset, length)[64..68]) == offset
  {
    assert EntryBytes(id, offset, length)[64..68] == LE(offset, 4);
    U32RoundTrip(offset);
  }

  lemma TotalOne(v: VectorData)
    ensures Total([v]) == |v.vector| && Entries([v])[0] == EntryBytes(v.id, 146, |v.vector|)
  {
    assert [v][..0] == [];
    EntryIs([v], 0);
  }

  /** CalculateVectorsPerPage: at least one, even if one does not fit. */
  function PerPage(d: nat): (v: nat)
    ensures v >= 1
  {
    var fit := (PAGE_SIZE - 66) / (80 + 4 * d);
    if fit < 1 then 1 else fit
  }

  /** One vector fits exactly up to 987 dimensions. */
  lemma OneFitsIff(d: nat)
    ensures 80 + 4 * d <= 4030 <==> d <= 987
    ensures d > 987 ==> PerPage(d) == 1
  {
    if d > 987 { DivSmall(4030, 80 + 4 * d); }
  }

  lemma DivSmall(n: nat, d: nat)
    requires n < d
    ensures n / d == 0
  {
  }

  /** How many bytes n vectors take on one page: linear in n. */
  function Room(n: nat, d: nat): nat {
    if n == 0 then 0 else Room(n - 1, d) + (80 + 4 * d)
  }

  lemma {:induction false} RoomIs(n: nat, d: nat)
    ensures Room(n, d) == n * (80 + 4 * d)
  {
    if n > 0 { RoomIs(n - 1, d); }
  }

  lemma {:induction false} RoomGrows(a: nat, b: nat, d: nat)
    requires a <= b
    ensures Room(a, d) + 80 * (b - a) <= Room(b, d)
  {
    if a < b { RoomGrows(a, b - 1, d); }
  }

  /** The capacity is the greatest number of vectors that fit. */
  lemma CapacityIs(d: nat, k: nat)
    requires d <= 987
    ensures Room(k, d) <= 4030 <==> k <= PerPage(d)
  {
    var s, v := 80 + 4 * d, 4030 / (80 + 4 * d);
    DivBounds(4030, s);
    RoomIs(v, d);
    AtLeastOne(4030, s);
    if k <= v {
      RoomGrows(k, v, d);
    } else {
      RoomGrows(v + 1, k, d);
      RoomIs(v + 1, d);
      assert (v + 1) * s == v * s + s;
    }
  }

  lemma AtLeastOne(n: nat, d: nat)
    requires 0 < d <= n
    ensures n / d >= 1
  {
  }

  lemma DivBounds(n: nat, d: nat)
    requires d > 0
    ensures (n / d) * d <= n < (n / d) * d + d
  {
    assert n == d * (n / d) + n % d;
  }

  ghost predicate AllDims(vs: seq<VectorData>, d: nat) {
    forall i :: 0 <= i < |vs| ==> |vs[i].vector| == d
  }

  lemma {:induction false} TotalEqual(vs: seq<VectorData>, d: nat)
    requires AllDims(vs, d)
    ensures 80 * |vs| + 4 * Total(vs) == Room(|vs|, d)
  {
    if vs != [] { TotalEqual(vs[..|vs| - 1], d); }
  }

  lemma EqualFits(vs: seq<VectorData>, d: nat)
    requires AllDims(vs, d)
    ensures PageFits(vs) <==> Room(|vs|, d) <= 4030
  {
    TotalEqual(vs, d);
  }

  /** The i-th group of n vectors, at most v on a page. */
  function Group(vs: seq<VectorData>, v: nat): seq<seq<VectorData>>
    requires v >= 1
  {
    if |vs| <= v then if vs == [] then [] else [vs] else [vs[..v]] + Group(vs[v..], v)
  }

  function Flatten(groups: seq<seq<VectorData>>): seq<VectorData> {
    if groups == [] then [] else groups[0] + Flatten(groups[1..])
  }

  lemma {:induction false} GroupFlatten(vs: seq<VectorData>, v: nat)
    requires v >= 1
    ensures Flatten(Group(vs, v)) == vs
    ensures forall i :: 0 <= i < |Group(vs, v)| ==> 1 <= |Group(vs, v)[i]| <= v
  {
    if |vs| > v {
      GroupFlatten(vs[v..], v);
      assert vs == vs[..v] + vs[v..];
    } else if vs != [] {
      assert [vs][1..] == [];
    }
  }

  function PagesOf(crc: Crc, groups: seq<seq<VectorData>>): seq<Page> {
    if groups == [] then [] else [PackedPageOf(crc, groups[0])] + PagesOf(crc, groups[1..])
  }

  /** All pages unpacked, one after the other. */
  function UnpackPages(crc: Crc, pages: seq<Page>): Option<seq<VectorData>> {
    if pages == [] then Some([])
    else
      match UnpackOf(crc, pages[0])
      case Vectors(vs) =>
        (match UnpackPages(crc, pages[1..])
         case None => None
         case Some(rest) => Some(vs + rest))
      case _ => None
  }

  lemma {:induction false} FittingGroupsBack(crc: Crc, groups: seq<seq<VectorData>>)
    requires forall i :: 0 <= i < |groups| ==>
               PageFits(groups[i]) && forall j :: 0 <= j < |groups[i]| ==> Survives(groups[i][j].id)
    ensures UnpackPages(crc, PagesOf(crc, groups)) == Some(Flatten(groups))
  {
    if groups != [] {
      assert groups[0] == groups[0];
      PageRoundTrip(crc, groups[0]);
      FittingGroupsBack(crc, groups[1..]);
      assert PagesOf(crc, groups)[1..] == PagesOf(crc, groups[1..]);
    }
  }

  ghost predicate AllSurvive(vs: seq<VectorData>) {
    forall i :: 0 <= i < |vs| ==> Survives(vs[i].id)
  }

  /** Packing and unpacking gives all vectors back exactly if one of them fits a page. */
  lemma PackRoundTripIff(crc: Crc, vs: seq<VectorData>, d: nat)
    requires AllDims(vs, d) && AllSurvive(vs)
    ensures UnpackPages(crc, PagesOf(crc, Group(vs, PerPage(d)))) == Some(vs) <==> vs == [] || d <= 987
  {
    var v := PerPage(d);
    if d <= 987 {
      GroupFlatten(vs, v);
      GroupDims(vs, v, d);
      GroupSurvives(vs, v);
      forall i | 0 <= i < |Group(vs, v)| ensures PageFits(Group(vs, v)[i]) {
        CapacityIs(d, |Group(vs, v)[i]|);
        EqualFits(Group(vs, v)[i], d);
      }
      FittingGroupsBack(crc, Group(vs, v));
    } else if vs != [] {
      OneFitsIff(d);
      FirstLost(crc, vs, d);
    }
  }

  /** The page of a vector that does not fit unpacks to something else, or not at all. */
  lemma LostOnPage(crc: Crc, v: VectorData, rest: seq<Page>, vs: seq<VectorData>)
    requires !PageFits([v]) && vs != [] && vs[0] == v
    ensures UnpackPages(crc, [PackedPageOf(crc, [v])] + rest) != Some(vs)
  {
    OverflowNotBack(crc, v);
    var p := PackedPageOf(crc, [v]);
    PackedCarries(crc, [v]);
    CountRegion(p, [v]);
    OneUnpacked(crc, p);
    assert ([p] + rest)[1..] == rest;
    match UnpackOf(crc, p)
    case Vectors(f) => assert f[0] != v by { assert f == [f[0]]; }
    case _ =>
  }

  lemma OneUnpacked(crc: Crc, p: Page)
    requires CountOn(p) == 1
    ensures UnpackOf(crc, p).Vectors? ==> |UnpackOf(crc, p).vectors| == 1
  {
    CollectSize(SlotsOf(p), 1);
  }

  lemma FirstLost(crc: Crc, vs: seq<VectorData>, d: nat)
    requires d > 987 && vs != [] && |vs[0].vector| == d
    ensures UnpackPages(crc, PagesOf(crc, Group(vs, 1))) != Some(vs)
  {
    var groups := Group(vs, 1);
    assert groups[0] == [vs[0]];
    TotalOne(vs[0]);
    LostOnPage(crc, vs[0], PagesOf(crc, groups[1..]), vs);
  }

  function PageCountFor(n: nat, v: nat): nat
    requires v >= 1
  {
    if n == 0 then 0 else if n <= v then 1 else 1 + PageCountFor(n - v, v)
  }

  lemma {:induction false} GroupCount(vs: seq<VectorData>, v: nat)
    requires v >= 1
    ensures |Group(vs, v)| == PageCountFor(|vs|, v)
  {
    if |vs| > v { GroupCount(vs[v..], v); }
  }

  lemma {:induction false} CountGrows(a: nat, b: nat, v: nat)
    requires v >= 1 && a <= b
    ensures PageCountFor(a, v) <= PageCountFor(b, v)
    decreases b
  {
    if a > v { CountGrows(a - v, b - v, v); }
  }

  function TotalOf(ks: seq<nat>): nat {
    if ks == [] then 0 else ks[0] + TotalOf(ks[1..])
  }

  lemma {:induction false} FewestPages(ks: seq<nat>, v: nat)
    requires v >= 1 && forall i :: 0 <= i < |ks| ==> ks[i] <= v
    ensures PageCountFor(TotalOf(ks), v) <= |ks|
  {
    if ks != [] {
      FewestPages(ks[1..], v);
      var n := TotalOf(ks);
      if n > v { CountGrows(n - v, n - ks[0], v); }
      if n <= v && n > 0 { assert PageCountFor(n, v) == 1; }
    }
  }

  /** No other way to spread the vectors over pages of this layout needs fewer pages. */
  lemma PackingIsMinimal(vs: seq<VectorData>, d: nat, ks: seq<nat>)
    requires d <= 987 && TotalOf(ks) == |vs| && forall i :: 0 <= i < |ks| ==> Room(ks[i], d) <= 4030
    ensures |Group(vs, PerPage(d))| <= |ks|
  {
    forall i | 0 <= i < |ks| ensures ks[i] <= PerPage(d) { CapacityIs(d, ks[i]); }
    FewestPages(ks, PerPage(d));
    GroupCount(vs, PerPage(d));
  }

  lemma GroupStep(vs: seq<VectorData>, v: nat, start: nat)
    requires v >= 1 && start < |vs|
    ensures var end := Min(start + v, |vs|);
            Group(vs[start..], v) == [vs[start..end]] + Group(vs[end..], v)
  {
    var end := Min(start + v, |vs|);
    if |vs| - start > v {
      assert vs[start..][..v] == vs[start..end] && vs[start..][v..] == vs[end..];
    } else {
      assert vs[start..end] == vs[start..] && vs[end..] == [];
    }
  }

  /** The pages as they are written one by one; None if one of them panics. */
  function Written(crc: Crc, groups: seq<seq<VectorData>>): Option<seq<Page>> {
    if groups == [] then Some([])
    else if !Writable(groups[0]) then None
    else Behind([PackedPageOf(crc, groups[0])], Written(crc, groups[1..]))
  }

  function Behind(pages: seq<Page>, rest: Option<seq<Page>>): Option<seq<Page>> {
    match rest
    case None => None
    case Some(more) => Some(pages + more)
  }

  lemma WrittenStep(crc: Crc, pages: seq<Page>, g: seq<VectorData>, rest: seq<seq<VectorData>>)
    requires Writable(g)
    ensures Behind(pages, Written(crc, [g] + rest)) == Behind(pages + [PackedPageOf(crc, g)], Written(crc, rest))
  {
    assert ([g] + rest)[1..] == rest;
    match Written(crc, rest)
    case None =>
    case Some(more) => CatAssoc(pages, [PackedPageOf(crc, g)], more);
  }

  lemma WrittenStops(crc: Crc, pages: seq<Page>, g: seq<VectorData>, rest: seq<seq<VectorData>>)
    requires !Writable(g)
    ensures Behind(pages, Written(crc, [g] + rest)) == None
  {
  }

  lemma BehindNone(rest: Option<seq<Page>>)
    ensures Behind([], rest) == rest
  {
    match rest
    case None =>
    case Some(more) => assert [] + more == more;
  }

  /** How many vectors go on a page: the first vector's dimension decides. */
  function FirstPerPage(vs: seq<VectorData>): (v: nat)
    ensures v >= 1
  {
    if vs == [] then 1 else PerPage(|vs[0].vector|)
  }

  /** PackVectorsIntoPages and SerializePackedPage, for vectors of any dimensions; None is a panic. */
  method PackVectorsIntoPages(crc: Crc, vs: seq<VectorData>) returns (pages: Option<seq<Page>>)
    ensures pages == Written(crc, Group(vs, FirstPerPage(vs)))
  {
    var done: seq<Page> := [];
    if |vs| == 0 {
      return Some([]);
    }
    var v := PerPage(|vs[0].vector|);
    var start := 0;
    assert vs[0..] == vs;
    BehindNone(Written(crc, Group(vs, v)));
    while start < |vs|
      invariant start <= |vs| && Behind(done, Written(crc, Group(vs[start..], v))) == Written(crc, Group(vs, v))
    {
      var end := Min(start + v, |vs|);
      GroupStep(vs, v, start);
      var page := SerializePackedPage(crc, vs[start..end]);
      if page.None? {
        WrittenStops(crc, done, vs[start..end], Group(vs[end..], v));
        return None;
      }
      WrittenStep(crc, done, vs[start..end], Group(vs[end..], v));
      done := done + [page.value];
      start := end;
    }
    assert Group(vs[start..], v) == [] && done + [] == done;
    pages := Some(done);
  }

  lemma {:induction false} AllWritten(crc: Crc, groups: seq<seq<VectorData>>)
    requires forall i :: 0 <= i < |groups| ==> Writable(groups[i])
    ensures Written(crc, groups) == Some(PagesOf(crc, groups))
  {
    if groups != [] { AllWritten(crc, groups[1..]); }
  }

  /** Packing panics exactly if a part of some page would start past its end. */
  lemma {:induction false} WrittenIff(crc: Crc, groups: seq<seq<VectorData>>)
    ensures Written(crc, groups) == None <==> exists i :: 0 <= i < |groups| && !Writable(groups[i])
  {
    if groups != [] && Writable(groups[0]) {
      WrittenIff(crc, groups[1..]);
      if i :| 0 <= i < |groups| && !Writable(groups[i]) {
        assert groups[1..][i - 1] == groups[i];
      }
    }
  }

  /** Vectors of one dimension never make a page panic. */
  lemma EqualWritten(crc: Crc, vs: seq<VectorData>, d: nat)
    requires AllDims(vs, d)
    ensures Written(crc, Group(vs, PerPage(d))) == Some(PagesOf(crc, Group(vs, PerPage(d))))
  {
    var groups := Group(vs, PerPage(d));
    GroupFlatten(vs, PerPage(d));
    GroupDims(vs, PerPage(d), d);
    forall i | 0 <= i < |groups| ensures Writable(groups[i]) { EqualWritable(groups[i], d); }
    AllWritten(crc, groups);
  }

  lemma {:induction false} GroupDims(vs: seq<VectorData>, v: nat, d: nat)
    requires v >= 1 && AllDims(vs, d)
    ensures forall i :: 0 <= i < |Group(vs, v)| ==> AllDims(Group(vs, v)[i], d)
  {
    if |vs| > v { GroupDims(vs[v..], v, d); }
  }

  /** A page that fits is written. */
  lemma FitIsWritten(vs: seq<VectorData>)
    requires PageFits(vs)
    ensures Writable(vs)
  {
    forall i | 0 <= i < |vs| ensures DataStart(|vs|) + 4 * Total(vs[..i]) <= PAGE_SIZE { TotalPrefix(vs, i); }
  }

  /** Small vectors first, and a large one in the middle panics. */
  lemma MixedPanics(crc: Crc, a: VectorData, b: VectorData, c: VectorData)
    requires |a.vector| == 1 && |b.vector| >= 990
    ensures Written(crc, Group([a, b, c], FirstPerPage([a, b, c]))) == None
  {
    var vs := [a, b, c];
    TotalPrefix(vs[..2], 1);
    assert vs[..2][1] == b;
    assert Group(vs, FirstPerPage(vs)) == [vs];
  }

  /** Of any dimensions: if every page fits, packing panics nowhere and unpacking gives all vectors back. */
  lemma MixedRoundTrip(crc: Crc, vs: seq<VectorData>)
    requires AllSurvive(vs)
    requires forall i :: 0 <= i < |Group(vs, FirstPerPage(vs))| ==> PageFits(Group(vs, FirstPerPage(vs))[i])
    ensures Written(crc, Group(vs, FirstPerPage(vs))).Some?
    ensures UnpackPages(crc, Written(crc, Group(vs, FirstPerPage(vs))).value) == Some(vs)
  {
    var v := FirstPerPage(vs);
    GroupFlatten(vs, v);
    GroupSurvives(vs, v);
    forall i | 0 <= i < |Group(vs, v)| ensures Writable(Group(vs, v)[i]) { FitIsWritten(Group(vs, v)[i]); }
    AllWritten(crc, Group(vs, v));
    FittingGroupsBack(crc, Group(vs, v));
  }

  lemma {:induction false} GroupSurvives(vs: seq<VectorData>, v: nat)
    requires v >= 1 && AllSurvive(vs)
    ensures forall i :: 0 <= i < |Group(vs, v)| ==> AllSurvive(Group(vs, v)[i])
  {
    if |vs| > v { GroupSurvives(vs[v..], v); }
  }

  /** Groups of equal vectors never start one past the end of the page. */
  lemma EqualWritable(vs: seq<VectorData>, d: nat)
    requires AllDims(vs, d) && |vs| <= PerPage(d)
    ensures Writable(vs)
  {
    OneFitsIff(d);
    if d <= 987 {
      CapacityIs(d, |vs|);
      EqualFits(vs, d);
      forall i | 0 <= i < |vs| ensures DataStart(|vs|) + 4 * Total(vs[..i]) <= PAGE_SIZE { TotalPrefix(vs, i); }
    } else {
      assert vs[..0] == [];
    }
  }
}
