/**
 * page_packing.go and the entry codec of page.go: several vectors on one page.
 */
module PackedPage {
  import opened Base
  import opened LittleEndian
  import opened Pages

  const ENTRY_SIZE := 80
  const ID_SIZE := 64
  const COUNT_SIZE := 2
  const DATA_START := 66

  datatype VectorData = VectorData(id: Id, vector: Vector)

  /** packIDString: cut at 64 bytes, filled up with zeros. */
  function PackId(id: Id): (s: seq<byte>)
    ensures |s| == ID_SIZE
  {
    if |id| >= ID_SIZE then id[..ID_SIZE] else id + ZeroBytes(ID_SIZE - |id|)
  }

  function FirstZero(s: seq<byte>): (k: nat)
    ensures k <= |s| && (forall i :: 0 <= i < k ==> s[i] != 0) && (k < |s| ==> s[k] == 0)
  {
    if s == [] || s[0] == 0 then 0 else 1 + FirstZero(s[1..])
  }

  /** extractIDString: up to the first zero byte, but all 64 bytes if that is the first or there is none. */
  function ExtractId(s: seq<byte>): Id
    requires |s| == ID_SIZE
  {
    var end := FirstZero(s);
    if end == ID_SIZE || end == 0 then s else s[..end]
  }

  ghost predicate NoZero(id: Id) {
    forall i :: 0 <= i < |id| ==> id[i] != 0
  }

  /** An ID survives exactly if it has 1 to 64 bytes and none is zero, or has 64 bytes and the first is zero. */
  lemma IdSurvivesIff(id: Id)
    ensures Survives(id) <==> |id| <= ID_SIZE && ((id != [] && NoZero(id)) || (|id| == ID_SIZE && id[0] == 0))
  {
    var s := PackId(id);
    var k := FirstZero(s);
    if |id| < ID_SIZE {
      assert s[|id|] == 0;
      assert k <= |id|;
      if k == |id| {
        assert s[..k] == id;
        forall i | 0 <= i < |id| ensures id[i] != 0 { assert s[i] == id[i]; }
      } else {
        assert id[k] == s[k] == 0;
      }
    } else if |id| == ID_SIZE {
      assert s == id;
    }
  }

  function EntryBytes(id: Id, offset: nat, length: nat): (s: seq<byte>)
    ensures |s| == ENTRY_SIZE
  {
    PackId(id) + LE(offset, 4) + LE(length, 2) + ZeroBytes(10)
  }

  /** The ID comes back from an entry. */
  predicate Survives(id: Id) {
    ExtractId(PackId(id)) == id
  }

  lemma EntryFields(id: Id, offset: nat, length: nat)
    requires offset < 0x1_0000_0000 && length < 0x1_0000
    ensures var e := EntryBytes(id, offset, length);
            e[..64] == PackId(id) && U32(e[64..68]) == offset && FromLE(e[68..70]) == length
  {
    var e := EntryBytes(id, offset, length);
    assert e[..64] == PackId(id) && e[64..68] == LE(offset, 4) && e[68..70] == LE(length, 2);
    U32RoundTrip(offset);
    Widths();
    RoundTrip(length, 2);
  }

  /** The components of the vectors together. */
  function Total(vs: seq<VectorData>): nat {
    if vs == [] then 0 else Total(vs[..|vs| - 1]) + |vs[|vs| - 1].vector|
  }

  function DataStart(n: nat): nat {
    DATA_START + 80 * n
  }

  function Concat(chunks: seq<seq<byte>>): seq<byte> {
    if chunks == [] then [] else Concat(chunks[..|chunks| - 1]) + chunks[|chunks| - 1]
  }

  lemma SliceOfFront(a: seq<byte>, b: seq<byte>, i: nat, j: nat)
    requires i <= j <= |a|
    ensures (a + b)[i..j] == a[i..j]
  {
  }

  lemma SliceOfBack(a: seq<byte>, b: seq<byte>, i: nat, j: nat)
    requires i <= j <= |b|
    ensures (a + b)[|a| + i..|a| + j] == b[i..j]
  {
  }

  /** Where a chunk starts, and that it is found there. */
  lemma {:induction false} ConcatSlice(chunks: seq<seq<byte>>, i: nat)
    requires i < |chunks|
    ensures var o := |Concat(chunks[..i])|;
            o + |chunks[i]| <= |Concat(chunks)| && Concat(chunks)[o..o + |chunks[i]|] == chunks[i]
    ensures |Concat(chunks[..i + 1])| == |Concat(chunks[..i])| + |chunks[i]|
  {
    var n := |chunks| - 1;
    var front, o := chunks[..n], |Concat(chunks[..i])|;
    assert chunks[..i + 1][..i] == chunks[..i];
    if i < n {
      ConcatSlice(front, i);
      assert front[..i] == chunks[..i] && front[i] == chunks[i];
      SliceOfFront(Concat(front), chunks[n], o, o + |chunks[i]|);
    } else {
      SliceOfBack(Concat(front), chunks[n], 0, |chunks[n]|);
    }
  }

  /** The entry of each vector, pointing at the data from start on. */
  function EntriesFrom(vs: seq<VectorData>, start: nat): (es: seq<seq<byte>>)
    ensures |es| == |vs| && forall i :: 0 <= i < |es| ==> |es[i]| == ENTRY_SIZE
  {
    if vs == [] then []
    else
      var n := |vs| - 1;
      EntriesFrom(vs[..n], start) + [EntryBytes(vs[n].id, start + 4 * Total(vs[..n]), |vs[n].vector|)]
  }

  function Entries(vs: seq<VectorData>): (es: seq<seq<byte>>)
    ensures |es| == |vs| && forall i :: 0 <= i < |es| ==> |es[i]| == ENTRY_SIZE
  {
    EntriesFrom(vs, DataStart(|vs|))
  }

  function Datas(vs: seq<VectorData>): (ds: seq<seq<byte>>)
    ensures |ds| == |vs| && forall i :: 0 <= i < |ds| ==> |ds[i]| == 4 * |vs[i].vector|
  {
    if vs == [] then [] else Datas(vs[..|vs| - 1]) + [VectorBytes(vs[|vs| - 1].vector)]
  }

  /** Everything after the header: the count, the entries, the data. */
  function Content(vs: seq<VectorData>): seq<byte> {
    LE(|vs|, 2) + Concat(Entries(vs)) + Concat(Datas(vs))
  }

  /** What of it gets onto a page. */
  function FitBody(content: seq<byte>): Body {
    if |content| >= BODY_SIZE then content[..BODY_SIZE] else content + ZeroBytes(BODY_SIZE - |content|)
  }

  ghost predicate PageFits(vs: seq<VectorData>) {
    DataStart(|vs|) + 4 * Total(vs) <= PAGE_SIZE
  }

  /** createPackedPage and SerializePackedPage. */
  function PackedPageOf(crc: Crc, vs: seq<VectorData>): Page {
    SealPage(crc, Header(VECTOR_PAGE, 0, |vs| % 0x1_0000, 0, 0), FitBody(Content(vs)))
  }

  /** copy(pageData[offset:], src). */
  function Put(s: seq<byte>, offset: nat, src: seq<byte>): (r: seq<byte>)
    requires offset <= |s|
    ensures |r| == |s|
  {
    var n := Min(|src|, |s| - offset);
    s[..offset] + src[..n] + s[offset + n..]
  }

  method CopyInto(buf: array<byte>, offset: nat, src: seq<byte>)
    requires offset <= buf.Length
    modifies buf
    ensures buf[..] == Put(old(buf[..]), offset, src)
  {
    var n := Min(|src|, buf.Length - offset);
    forall i | 0 <= i < n {
      buf[offset + i] := src[i];
    }
    assert buf[..offset] == old(buf[..])[..offset];
    assert buf[offset..offset + n] == src[..n];
    assert buf[offset + n..] == old(buf[..])[offset + n..];
    assert buf[..] == buf[..offset] + buf[offset..offset + n] + buf[offset + n..];
  }

  /** A buffer of zeros into which the bytes were written from the front, as far as they fit. */
  ghost predicate Filled(buf: seq<byte>, bytes: seq<byte>) {
    |buf| == PAGE_SIZE
    && buf == if |bytes| >= PAGE_SIZE then bytes[..PAGE_SIZE] else bytes + ZeroBytes(PAGE_SIZE - |bytes|)
  }

  lemma FilledMore(buf: seq<byte>, bytes: seq<byte>, more: seq<byte>)
    requires Filled(buf, bytes) && |bytes| <= PAGE_SIZE
    ensures Filled(Put(buf, |bytes|, more), bytes + more)
  {
    var n := Min(|more|, PAGE_SIZE - |bytes|);
    assert buf[..|bytes|] == bytes;
    if |bytes| + |more| < PAGE_SIZE {
      assert buf[|bytes| + n..] == ZeroBytes(PAGE_SIZE - |bytes| - |more|);
    } else {
      assert (bytes + more)[..PAGE_SIZE] == bytes + more[..n];
    }
  }

  /** The next bytes, where the last ones ended. */
  method Emit(buf: array<byte>, offset: nat, more: seq<byte>, ghost bytes: seq<byte>)
    requires Filled(buf[..], bytes) && |bytes| == offset <= PAGE_SIZE
    modifies buf
    ensures Filled(buf[..], bytes + more)
  {
    FilledMore(buf[..], bytes, more);
    CopyInto(buf, offset, more);
  }

  /** The source slices the page at each offset: all vectors but the last must end inside it. */
  predicate Writable(vs: seq<VectorData>) {
    DataStart(|vs|) <= PAGE_SIZE && forall i :: 0 <= i < |vs| ==> DataStart(|vs|) + 4 * Total(vs[..i]) <= PAGE_SIZE
  }

  /** Entries all have the same size. */
  lemma {:induction false} EntryOffset(es: seq<seq<byte>>, i: nat)
    requires i <= |es| && forall j :: 0 <= j < |es| ==> |es[j]| == ENTRY_SIZE
    ensures |Concat(es[..i])| == 80 * i
  {
    if i > 0 {
      EntryOffset(es, i - 1);
      assert es[..i][..i - 1] == es[..i - 1];
    }
  }

  lemma {:induction false} DataOffset(ds: seq<seq<byte>>, vs: seq<VectorData>, i: nat)
    requires i <= |ds| == |vs| && forall j :: 0 <= j < |ds| ==> |ds[j]| == 4 * |vs[j].vector|
    ensures |Concat(ds[..i])| == 4 * Total(vs[..i])
  {
    if i > 0 {
      DataOffset(ds, vs, i - 1);
      assert ds[..i][..i - 1] == ds[..i - 1] && vs[..i][..i - 1] == vs[..i - 1];
    }
  }

  lemma ChunkSnoc(front: seq<byte>, cs: seq<seq<byte>>, k: nat)
    requires k < |cs|
    ensures front + Concat(cs[..k]) + cs[k] == front + Concat(cs[..k + 1])
  {
    assert cs[..k + 1][..k] == cs[..k];
    CatAssoc(front, Concat(cs[..k]), cs[k]);
  }

  method EmitChunk(buf: array<byte>, offset: nat, ghost front: seq<byte>, ghost cs: seq<seq<byte>>, ghost k: nat,
                   chunk: seq<byte>)
    requires k < |cs| && chunk == cs[k] && Filled(buf[..], front + Concat(cs[..k]))
    requires offset == |front| + |Concat(cs[..k])| <= PAGE_SIZE
    modifies buf
    ensures Filled(buf[..], front + Concat(cs[..k + 1]))
  {
    ChunkSnoc(front, cs, k);
    Emit(buf, offset, chunk, front + Concat(cs[..k]));
  }

  lemma NoChunks(front: seq<byte>, cs: seq<seq<byte>>)
    ensures front + Concat(cs[..0]) == front
  {
  }

  lemma TotalSnoc(vs: seq<VectorData>, i: nat)
    requires i < |vs|
    ensures Total(vs[..i + 1]) == Total(vs[..i]) + |vs[i].vector|
  {
    assert vs[..i + 1][..i] == vs[..i];
  }

  lemma EntryFront(vs: seq<VectorData>, start: nat, i: nat)
    requires i < |vs| - 1
    ensures EntriesFrom(vs, start)[i] == EntriesFrom(vs[..|vs| - 1], start)[i]
  {
  }

  lemma EntryLast(vs: seq<VectorData>, start: nat)
    requires vs != []
    ensures var n := |vs| - 1;
            EntriesFrom(vs, start)[n] == EntryBytes(vs[n].id, start + 4 * Total(vs[..n]), |vs[n].vector|)
  {
  }

  lemma PrefixOfPrefix(vs: seq<VectorData>, n: nat, i: nat)
    requires i < n <= |vs|
    ensures vs[..n][..i] == vs[..i] && vs[..n][i] == vs[i]
  {
  }

  lemma {:induction false} EntryFromIs(vs: seq<VectorData>, start: nat, i: nat)
    requires i < |vs|
    ensures EntriesFrom(vs, start)[i] == EntryBytes(vs[i].id, start + 4 * Total(vs[..i]), |vs[i].vector|)
  {
    if i < |vs| - 1 {
      var front := vs[..|vs| - 1];
      EntryFromIs(front, start, i);
      PrefixOfPrefix(vs, |vs| - 1, i);
      assert front[..i] == vs[..i] && front[i] == vs[i];
      EntryFront(vs, start, i);
    } else {
      EntryLast(vs, start);
    }
  }

  lemma EntryIs(vs: seq<VectorData>, i: nat)
    requires i < |vs|
    ensures Entries(vs)[i] == EntryBytes(vs[i].id, DataStart(|vs|) + 4 * Total(vs[..i]), |vs[i].vector|)
  {
    EntryFromIs(vs, DataStart(|vs|), i);
  }

  lemma {:induction false} DataIs(vs: seq<VectorData>, i: nat)
    requires i < |vs|
    ensures Datas(vs)[i] == VectorBytes(vs[i].vector)
  {
    if i < |vs| - 1 { DataIs(vs[..|vs| - 1], i); }
  }

  method WriteEntry(buf: array<byte>, offset: nat, ghost front: seq<byte>, ghost es: seq<seq<byte>>, ghost i: nat,
                    v: VectorData, data: nat)
    requires i < |es| && es[i] == EntryBytes(v.id, data, |v.vector|) && Filled(buf[..], front + Concat(es[..i]))
    requires offset == |front| + |Concat(es[..i])| <= PAGE_SIZE
    modifies buf
    ensures Filled(buf[..], front + Concat(es[..i + 1]))
  {
    EmitChunk(buf, offset, front, es, i, EntryBytes(v.id, data, |v.vector|));
  }

  method WriteEntries(buf: array<byte>, vs: seq<VectorData>, ghost front: seq<byte>)
    requires |front| == DATA_START && Filled(buf[..], front) && Writable(vs)
    modifies buf
    ensures Filled(buf[..], front + Concat(Entries(vs)))
  {
    ghost var es := Entries(vs);
    NoChunks(front, es);
    var offset := DATA_START;
    var data := DataStart(|vs|);
    for i := 0 to |vs|
      invariant offset == DATA_START + 80 * i && data == DataStart(|vs|) + 4 * Total(vs[..i])
      invariant Filled(buf[..], front + Concat(es[..i]))
    {
      EntryOffset(es, i);
      TotalSnoc(vs, i);
      EntryIs(vs, i);
      WriteEntry(buf, offset, front, es, i, vs[i], data);
      offset, data := offset + ENTRY_SIZE, data + 4 * |vs[i].vector|;
    }
    assert es[..|vs|] == es;
  }

  method WriteData(buf: array<byte>, vs: seq<VectorData>, ghost front: seq<byte>)
    requires |front| == DataStart(|vs|) && Filled(buf[..], front) && Writable(vs)
    modifies buf
    ensures Filled(buf[..], front + Concat(Datas(vs)))
  {
    ghost var ds := Datas(vs);
    NoChunks(front, ds);
    var offset := DataStart(|vs|);
    for i := 0 to |vs|
      invariant offset == DataStart(|vs|) + 4 * Total(vs[..i])
      invariant Filled(buf[..], front + Concat(ds[..i]))
    {
      DataOffset(ds, vs, i);
      TotalSnoc(vs, i);
      DataIs(vs, i);
      var bytes := SerializeVector(vs[i].vector);
      EmitChunk(buf, offset, front, ds, i, bytes);
      offset := offset + 4 * |vs[i].vector|;
    }
    assert ds[..|vs|] == ds;
  }

  lemma FilledIsPage(buf: seq<byte>, h: Header, content: seq<byte>)
    requires Filled(buf, HeaderBytes(h) + content)
    ensures buf == PageWith(h, FitBody(content))
  {
  }

  /** The header, the count, the entries and the data, one after the other. */
  method WriteContent(buf: array<byte>, vs: seq<VectorData>, h: Header)
    requires Filled(buf[..], []) && Writable(vs)
    modifies buf
    ensures buf[..] == PageWith(h, FitBody(Content(vs)))
  {
    ghost var front, es := HeaderBytes(h), Entries(vs);
    assert [] + front == front && es[..|vs|] == es;
    EntryOffset(es, |vs|);
    Emit(buf, 0, HeaderBytes(h), []);
    Emit(buf, HEADER_SIZE, LE(|vs|, 2), front);
    WriteEntries(buf, vs, front + LE(|vs|, 2));
    WriteData(buf, vs, front + LE(|vs|, 2) + Concat(es));
    CatAssoc(front, LE(|vs|, 2), Concat(es));
    CatAssoc(front, LE(|vs|, 2) + Concat(es), Concat(Datas(vs)));
    FilledIsPage(buf[..], h, Content(vs));
  }

  /** createPackedPage and SerializePackedPage into a page buffer; None is a slice past its end, which panics. */
  method SerializePackedPage(crc: Crc, vs: seq<VectorData>) returns (page: Option<Page>)
    ensures page == if Writable(vs) then Some(PackedPageOf(crc, vs)) else None
  {
    if !Writable(vs) {
      return None;
    }
    var buf := new byte[PAGE_SIZE](_ => 0);
    var header := Header(VECTOR_PAGE, 0, |vs| % 0x1_0000, 0, 0);
    WriteContent(buf, vs, header);
    var checksum := Sum(crc, buf[..]);
    Resealed(header, header.(checksum := checksum), FitBody(Content(vs)));
    CopyInto(buf, 0, HeaderBytes(header.(checksum := checksum)));
    page := Some(buf[..]);
  }

  lemma Resealed(h: Header, k: Header, body: Body)
    ensures Put(PageWith(h, body), 0, HeaderBytes(k)) == PageWith(k, body)
  {
  }
}
