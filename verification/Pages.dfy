/**
 * page.go and storage.go: the page header, the checksum that skips its own
 * field, and the page file with its free list.
 */
module Pages {
  import opened Base
  import opened LittleEndian

  const PAGE_SIZE := 4096
  const HEADER_SIZE := 64
  const BODY_SIZE := 4032

  type Page = p: seq<byte> | |p| == PAGE_SIZE witness seq(PAGE_SIZE, _ => 0)
  type Body = b: seq<byte> | |b| == BODY_SIZE witness seq(BODY_SIZE, _ => 0)

  const VECTOR_PAGE: byte := 1
  const INDEX_PAGE: byte := 2

  type Crc = seq<byte> -> word

  datatype Header = Header(kind: byte, flags: byte, count: nat, next: nat, checksum: word)

  function ZeroBytes(n: nat): (s: seq<byte>)
    ensures |s| == n
  {
    seq(n, _ => 0)
  }

  /** SerializeHeader; the reserved bytes stay zero. */
  function HeaderBytes(h: Header): (s: seq<byte>)
    ensures |s| == HEADER_SIZE
  {
    [h.kind, h.flags] + LE(h.count, 2) + LE(h.next, 8) + LE(h.checksum, 4) + ZeroBytes(48)
  }

  /** DeserializeHeader of a whole page. */
  function HeaderOf(p: Page): Header {
    Header(p[0], p[1], FromLE(p[2..4]), FromLE(p[4..12]), U32(p[12..16]))
  }

  /** CalculatePageChecksum: bytes 12 to 16 are left out. */
  function Sum(crc: Crc, p: Page): word {
    crc(p[..12] + p[16..])
  }

  /** VerifyPageChecksum. */
  predicate Verified(crc: Crc, p: Page) {
    U32(p[12..16]) == Sum(crc, p)
  }

  function PageWith(h: Header, body: Body): Page {
    HeaderBytes(h) + body
  }

  /** How every page is finished: the checksum of the page without it goes into the header. */
  function SealPage(crc: Crc, h: Header, body: Body): Page {
    PageWith(h.(checksum := Sum(crc, PageWith(h, body))), body)
  }

  predicate HeaderFits(h: Header) {
    h.count < 0x1_0000 && h.next < 0x1_0000_0000_0000_0000
  }

  lemma HeaderRoundTrip(h: Header, body: Body)
    requires HeaderFits(h)
    ensures HeaderOf(PageWith(h, body)) == h && PageWith(h, body)[HEADER_SIZE..] == body
  {
    var p := PageWith(h, body);
    Widths();
    assert p[2..4] == LE(h.count, 2) && p[4..12] == LE(h.next, 8) && p[12..16] == LE(h.checksum, 4);
    RoundTrip(h.count, 2);
    RoundTrip(h.next, 8);
    U32RoundTrip(h.checksum);
  }

  /** The sum does not depend on the checksum field, so a sealed page verifies and reads back. */
  lemma SealedVerifies(crc: Crc, h: Header, body: Body)
    requires HeaderFits(h)
    ensures var p := SealPage(crc, h, body);
            && Verified(crc, p) && HeaderOf(p) == h.(checksum := Sum(crc, p)) && p[HEADER_SIZE..] == body
  {
    var p, sealed := PageWith(h, body), SealPage(crc, h, body);
    assert p[..12] == sealed[..12] && p[16..] == sealed[16..];
    HeaderRoundTrip(h.(checksum := Sum(crc, p)), body);
  }

  /** A file is at most 2^63 bytes long. */
  const MAX_PAGES := 0x8_0000_0000_0000

  class Storage {
    /** How far the operating system lets the file grow. */
    const limit: nat
    var pages: seq<Page>
    var freeList: seq<nat>

    /** The free list names pages of the file, none twice, and never the header page. */
    ghost predicate Valid()
      reads this
    {
      FreeOk(pages, freeList) && 1 <= |pages| <= limit <= MAX_PAGES
    }

    constructor (header: Page, limit: nat)
      requires 1 <= limit <= MAX_PAGES
      ensures Valid() && pages == [header] && freeList == [] && this.limit == limit
    {
      this.limit, pages, freeList := limit, [header], [];
    }

    method ReadPage(p: nat) returns (r: Option<Page>)
      ensures r == if p < |pages| then Some(pages[p]) else None
    {
      if p * PAGE_SIZE + PAGE_SIZE > |pages| * PAGE_SIZE {
        return None;
      }
      r := Some(pages[p]);
    }

    method WritePage(p: nat, data: Page) returns (ok: bool)
      modifies this`pages
      ensures ok == (p < |pages|)
      ensures pages == if p < |old(pages)| then old(pages)[p := data] else old(pages)
    {
      if p * PAGE_SIZE + PAGE_SIZE > |pages| * PAGE_SIZE {
        return false;
      }
      pages := pages[p := data];
      ok := true;
    }

    /** A free page, last freed first and with its old content; else a new one of zeros, if the file can grow. */
    method AllocatePage() returns (r: Option<nat>)
      requires Valid()
      modifies this
      ensures Valid() && (r.None? <==> old(freeList) == [] && |old(pages)| == limit)
      ensures r.None? ==> pages == old(pages) && freeList == old(freeList)
      ensures r.Some? ==> 1 <= r.value < |pages| && r.value !in freeList
      ensures old(freeList) != [] ==> old(freeList) == freeList + [r.value] && pages == old(pages)
      ensures old(freeList) == [] && r.Some? ==>
                freeList == [] && r.value == |old(pages)| && pages == old(pages) + [ZeroBytes(PAGE_SIZE)]
    {
      if |freeList| > 0 {
        r := Some(freeList[|freeList| - 1]);
        freeList := freeList[..|freeList| - 1];
        return;
      }
      if |pages| == limit {
        return None;
      }
      r := Some(|pages|);
      pages := pages + [ZeroBytes(PAGE_SIZE)];
    }

    /** Any page of the file is accepted: it is up to the caller not to free one twice. */
    method FreePage(p: nat) returns (ok: bool)
      modifies this`freeList
      ensures ok == (p < |pages|) && freeList == if ok then old(freeList) + [p] else old(freeList)
      ensures old(Valid()) && p !in old(freeList) && p > 0 ==> Valid()
      ensures ok && (p in old(freeList) || p == 0) ==> !FreeOk(pages, freeList)
    {
      if p >= |pages| {
        return false;
      }
      freeList := freeList + [p];
      ok := true;
      ghost var n := |freeList| - 1;
      if p in old(freeList) {
        ghost var i :| 0 <= i < n && old(freeList)[i] == p;
        assert freeList[i] == freeList[n];
      }
      assert freeList[n] == p;
    }
  }

  ghost predicate FreeOk(pages: seq<Page>, freeList: seq<nat>) {
    Unique(freeList) && forall i :: 0 <= i < |freeList| ==> 1 <= freeList[i] < |pages|
  }
}
