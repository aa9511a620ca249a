/**
 * magpie.go and storage.go: one vector added to a page, and looked up again.
 */
module VectorPages {
  import opened Base
  import opened LittleEndian
  import opened Pages
  import opened PackedPage

  /** Vector entries on these pages start right after the header. */
  function SlotStart(i: nat): nat {
    64 + 80 * i
  }

  /** The page that a new entry goes to: its own header and count if it already is a vector page. */
  function HeaderFor(was: Page): Header {
    if HeaderOf(was).kind == VECTOR_PAGE then HeaderOf(was) else Header(VECTOR_PAGE, 0, 0, 0, 0)
  }

  function Stamp(s: seq<byte>, offset: nat, bytes: seq<byte>): (r: seq<byte>)
    requires offset + |bytes| <= |s|
    ensures |r| == |s|
  {
    s[..offset] + bytes + s[offset + |bytes|..]
  }

  /** The body of the page with one more entry and its data. */
  function BodyWith(was: Page, n: nat, id: Id, v: Vector): Body
    requires SlotStart(n + 1) + 4 * |v| <= PAGE_SIZE
  {
    Stamp(Stamp(was, SlotStart(n), EntryBytes(id, SlotStart(n + 1), |v|)), SlotStart(n + 1),
          VectorBytes(v))[HEADER_SIZE..]
  }

  /** writeVectorToPage, up to the page write; None if the vector does not fit. */
  function PageWithVector(crc: Crc, was: Page, id: Id, v: Vector): Option<Page> {
    var h := HeaderFor(was);
    if SlotStart(h.count + 1) + 4 * |v| > PAGE_SIZE then None
    else
      var counted := h.(count := h.count + 1);
      Some(SealPage(crc, counted, BodyWith(was, h.count, id, v)))
  }

  function SlotAt(p: Page, i: nat): seq<byte>
    requires SlotStart(i + 1) <= PAGE_SIZE
  {
    p[SlotStart(i)..SlotStart(i + 1)]
  }

  function SlotId(p: Page, i: nat): Id
    requires SlotStart(i + 1) <= PAGE_SIZE
  {
    ExtractId(SlotAt(p, i)[..64])
  }

  /** The first entry with the ID, or the count if there is none. */
  function FindSlot(p: Page, id: Id, i: nat, count: nat): (k: nat)
    requires i <= count && SlotStart(count) <= PAGE_SIZE
    ensures i <= k <= count && (k < count ==> SlotId(p, k) == id)
    ensures forall j :: i <= j < k ==> SlotId(p, j) != id
    decreases count - i
  {
    if i == count || SlotId(p, i) == id then i else FindSlot(p, id, i + 1, count)
  }

  function VectorOfSlot(p: Page, i: nat): Option<Vector>
    requires SlotStart(i + 1) <= PAGE_SIZE
  {
    var e := SlotAt(p, i);
    var offset, length := U32(e[64..68]), FromLE(e[68..70]);
    if offset + 4 * length > PAGE_SIZE then None else Some(VectorFrom(p[offset..offset + 4 * length]))
  }

  /** loadVector on the page it finds in the page map; None for its errors. */
  function LoadFrom(crc: Crc, p: Page, id: Id): Option<Vector> {
    var h := HeaderOf(p);
    if !Verified(crc, p) || h.kind != VECTOR_PAGE || SlotStart(h.count) > PAGE_SIZE then None
    else
      var k := FindSlot(p, id, 0, h.count);
      if k == h.count then None else VectorOfSlot(p, k)
  }

  /** On a page of zeros a vector fits exactly up to 988 dimensions. */
  lemma FreshFitsIff(crc: Crc, id: Id, v: Vector)
    ensures PageWithVector(crc, ZeroBytes(PAGE_SIZE), id, v).Some? <==> |v| <= 988
  {
    var p: Page := ZeroBytes(PAGE_SIZE);
    assert HeaderOf(p).kind == 0;
  }

  lemma StampInside(s: seq<byte>, offset: nat, bytes: seq<byte>)
    requires offset + |bytes| <= |s|
    ensures Stamp(s, offset, bytes)[offset..offset + |bytes|] == bytes
  {
  }

  lemma StampOutside(s: seq<byte>, offset: nat, bytes: seq<byte>, i: nat, j: nat)
    requires offset + |bytes| <= |s| && i <= j <= |s| && (j <= offset || i >= offset + |bytes|)
    ensures Stamp(s, offset, bytes)[i..j] == s[i..j]
  {
    var r := Stamp(s, offset, bytes);
    forall k | i <= k < j ensures r[k] == s[k] {
      assert k >= offset + |bytes| ==> r[k] == s[offset + |bytes|..][k - offset - |bytes|];
    }
  }

  /** Two stamps side by side, the second right after the first. */
  lemma TwoStamps(s: seq<byte>, a: nat, x: seq<byte>, b: nat, y: seq<byte>, i: nat, j: nat)
    requires a + |x| == b && b + |y| <= |s|
    requires i <= j <= a
    ensures var r := Stamp(Stamp(s, a, x), b, y);
            r[a..b] == x && r[b..b + |y|] == y && r[i..j] == s[i..j]
  {
    var once := Stamp(s, a, x);
    StampInside(s, a, x);
    StampInside(once, b, y);
    StampOutside(once, b, y, a, b);
    StampOutside(once, b, y, i, j);
    StampOutside(s, a, x, i, j);
  }

  /** The same seen on a page that shares all but the header. */
  lemma StampedParts(was: Page, n: nat, x: seq<byte>, y: seq<byte>, p: Page, i: nat)
    requires |x| == ENTRY_SIZE && SlotStart(n + 1) + |y| <= PAGE_SIZE && i <= n
    requires p[HEADER_SIZE..] == Stamp(Stamp(was, SlotStart(n), x), SlotStart(n + 1), y)[HEADER_SIZE..]
    ensures SlotAt(p, n) == x && p[SlotStart(n + 1)..SlotStart(n + 1) + |y|] == y
    ensures i < n ==> SlotAt(p, i) == SlotAt(was, i)
  {
    var data, twice := SlotStart(n + 1), Stamp(Stamp(was, SlotStart(n), x), SlotStart(n + 1), y);
    TailSlice(p, twice, SlotStart(n), data);
    TailSlice(p, twice, data, data + |y|);
    TailSlice(p, twice, SlotStart(i), SlotStart(i + 1));
    TwoStamps(was, SlotStart(n), x, data, y, SlotStart(i), if i < n then SlotStart(i + 1) else SlotStart(i));
  }

  lemma NewPageHeader(crc: Crc, was: Page, id: Id, v: Vector, p: Page)
    requires PageWithVector(crc, was, id, v) == Some(p)
    ensures var n := HeaderFor(was).count;
            && SlotStart(n + 1) + 4 * |v| <= PAGE_SIZE && p[HEADER_SIZE..] == BodyWith(was, n, id, v)
            && Verified(crc, p) && HeaderOf(p).kind == VECTOR_PAGE && HeaderOf(p).count == n + 1
  {
    var h := HeaderFor(was);
    HeaderBounds(was);
    SealedVerifies(crc, h.(count := h.count + 1), BodyWith(was, h.count, id, v));
  }

  lemma NewPageEntry(was: Page, n: nat, id: Id, v: Vector, p: Page)
    requires SlotStart(n + 1) + 4 * |v| <= PAGE_SIZE && p[HEADER_SIZE..] == BodyWith(was, n, id, v)
    ensures SlotAt(p, n) == EntryBytes(id, SlotStart(n + 1), |v|)
  {
    StampedParts(was, n, EntryBytes(id, SlotStart(n + 1), |v|), VectorBytes(v), p, n);
  }

  lemma NewPageData(was: Page, n: nat, id: Id, v: Vector, p: Page)
    requires SlotStart(n + 1) + 4 * |v| <= PAGE_SIZE && p[HEADER_SIZE..] == BodyWith(was, n, id, v)
    ensures p[SlotStart(n + 1)..SlotStart(n + 1) + |VectorBytes(v)|] == VectorBytes(v)
  {
    StampedParts(was, n, EntryBytes(id, SlotStart(n + 1), |v|), VectorBytes(v), p, n);
  }

  lemma OldSlot(was: Page, n: nat, id: Id, v: Vector, p: Page, i: nat)
    requires SlotStart(n + 1) + 4 * |v| <= PAGE_SIZE && p[HEADER_SIZE..] == BodyWith(was, n, id, v) && i < n
    ensures SlotId(p, i) == SlotId(was, i)
  {
    StampedParts(was, n, EntryBytes(id, SlotStart(n + 1), |v|), VectorBytes(v), p, i);
  }

  lemma HeaderBounds(was: Page)
    ensures HeaderFits(HeaderFor(was)) && HeaderOf(was).count < 0x1_0000
  {
    Widths();
    Bound(was[2..4]);
    Bound(was[4..12]);
  }

  lemma TailSlice(a: seq<byte>, b: seq<byte>, i: nat, j: nat)
    requires |a| == |b| == PAGE_SIZE && a[HEADER_SIZE..] == b[HEADER_SIZE..] && HEADER_SIZE <= i <= j <= PAGE_SIZE
    ensures a[i..j] == b[i..j]
  {
    assert a[i..j] == a[HEADER_SIZE..][i - HEADER_SIZE..j - HEADER_SIZE];
    assert b[i..j] == b[HEADER_SIZE..][i - HEADER_SIZE..j - HEADER_SIZE];
  }

  lemma SlotFields(p: Page, n: nat, id: Id, data: nat, length: nat)
    requires SlotStart(n + 1) <= PAGE_SIZE && data < PAGE_SIZE && length < 0x1_0000
    requires SlotAt(p, n) == EntryBytes(id, data, length)
    ensures SlotId(p, n) == ExtractId(PackId(id))
    ensures U32(SlotAt(p, n)[64..68]) == data && FromLE(SlotAt(p, n)[68..70]) == length
  {
    EntryFields(id, data, length);
  }

  lemma SlotVector(p: Page, i: nat, data: nat, v: Vector)
    requires SlotStart(i + 1) <= PAGE_SIZE && data + 4 * |v| <= PAGE_SIZE
    requires U32(SlotAt(p, i)[64..68]) == data && FromLE(SlotAt(p, i)[68..70]) == |v|
    requires p[data..data + 4 * |v|] == VectorBytes(v)
    ensures VectorOfSlot(p, i) == Some(v)
  {
    VectorRoundTrip(v);
  }

  lemma NewSlotFields(was: Page, n: nat, id: Id, v: Vector, p: Page)
    requires SlotStart(n + 1) + 4 * |v| <= PAGE_SIZE && p[HEADER_SIZE..] == BodyWith(was, n, id, v)
    ensures SlotId(p, n) == ExtractId(PackId(id))
    ensures U32(SlotAt(p, n)[64..68]) == SlotStart(n + 1) && FromLE(SlotAt(p, n)[68..70]) == |v|
  {
    NewPageEntry(was, n, id, v, p);
    SlotFields(p, n, id, SlotStart(n + 1), |v|);
  }

  /** Where the new entry is found, and what it gives. */
  lemma NewSlot(crc: Crc, was: Page, id: Id, v: Vector, p: Page)
    requires PageWithVector(crc, was, id, v) == Some(p) && Survives(id)
    ensures var n := HeaderFor(was).count;
            && SlotStart(n + 1) <= PAGE_SIZE && SlotId(p, n) == id && VectorOfSlot(p, n) == Some(v)
            && forall i :: 0 <= i < n ==> SlotId(p, i) == SlotId(was, i)
  {
    var n := HeaderFor(was).count;
    NewPageHeader(crc, was, id, v, p);
    NewSlotFields(was, n, id, v, p);
    NewPageData(was, n, id, v, p);
    SlotVector(p, n, SlotStart(n + 1), v);
    forall i | 0 <= i < n ensures SlotId(p, i) == SlotId(was, i) { OldSlot(was, n, id, v, p, i); }
  }

  /**
   * The vector just written is the one that is loaded exactly if no older
   * entry of the page carries its ID; otherwise the first such entry is.
   */
  lemma LoadsNewestIff(crc: Crc, was: Page, id: Id, v: Vector, p: Page)
    requires PageWithVector(crc, was, id, v) == Some(p) && Survives(id)
    ensures var n := HeaderFor(was).count;
            && SlotStart(n + 1) <= PAGE_SIZE && FindSlot(p, id, 0, n + 1) <= n
            && LoadFrom(crc, p, id) == VectorOfSlot(p, FindSlot(p, id, 0, n + 1))
            && (FindSlot(p, id, 0, n + 1) == n <==> forall i :: 0 <= i < n ==> SlotId(was, i) != id)
            && (FindSlot(p, id, 0, n + 1) == n ==> LoadFrom(crc, p, id) == Some(v))
  {
    NewPageHeader(crc, was, id, v, p);
    NewSlot(crc, was, id, v, p);
    var n := HeaderFor(was).count;
    var k := FindSlot(p, id, 0, n + 1);
    assert k <= n;
  }

  /** On a page of zeros nothing shadows the vector. */
  lemma FreshLoads(crc: Crc, id: Id, v: Vector)
    requires |v| <= 988 && Survives(id)
    ensures PageWithVector(crc, ZeroBytes(PAGE_SIZE), id, v).Some?
    ensures LoadFrom(crc, PageWithVector(crc, ZeroBytes(PAGE_SIZE), id, v).value, id) == Some(v)
  {
    FreshFitsIff(crc, id, v);
    var zero: Page := ZeroBytes(PAGE_SIZE);
    assert HeaderFor(zero).count == 0;
    LoadsNewestIff(crc, zero, id, v, PageWithVector(crc, zero, id, v).value);
  }
}
