/**
 * storage_mvcc.go: one version on one page.
 */
module VersionPage {
  import opened Base
  import opened LittleEndian
  import opened WalCodec
  import opened Pages

  datatype DiskVersion = DiskVersion(id: Id, vector: Vector, meta: Option<Meta>, version: nat, created: nat,
                                     deleted: nat)

  /** Everything of the page but its filling zeros. */
  function Content(env: Env, v: DiskVersion): (s: seq<byte>)
    ensures |s| == 36 + |v.id| + 4 * |v.vector| + |MetaBytes(env, v.meta)|
  {
    LE(v.version, 8) + (LE(v.created, 8) + (LE(v.deleted, 8) + (Block(|v.id|, v.id)
    + (Block(4 * |v.vector|, VectorBytes(v.vector)) + Block(|MetaBytes(env, v.meta)|, MetaBytes(env, v.meta))))))
  }

  /** The size checks: the ID, then the vector, then the metadata if there is any. */
  predicate FitsPage(env: Env, v: DiskVersion) {
    && |v.id| <= 255
    && 96 + |v.id| + 4 * |v.vector| <= PAGE_SIZE - 100
    && (v.meta.Some? ==> 100 + |v.id| + 4 * |v.vector| + |MetaBytes(env, v.meta)| <= PAGE_SIZE - 20)
  }

  function PageBody(env: Env, v: DiskVersion): Body
    requires FitsPage(env, v)
  {
    Content(env, v) + ZeroBytes(BODY_SIZE - |Content(env, v)|)
  }

  /** serializeVersionToPage. */
  function VersionToPage(env: Env, v: DiskVersion): Option<Page> {
    if FitsPage(env, v) then Some(SealPage(env.crc, Header(VECTOR_PAGE, 0, 1, 0, 0), PageBody(env, v))) else None
  }

  function MetaFrom(env: Env, s: seq<byte>): Option<Option<Meta>> {
    if s == [] then Some(None)
    else match env.unmarshal(s)
      case None => None
      case Some(m) => Some(Some(m))
  }

  /** deserializeVersionFromPage: every length is checked against the page. */
  function PageToVersion(env: Env, p: Page): Option<DiskVersion> {
    if !Verified(env.crc, p) then None
    else
      match TakeBlock(p[88..], 1)
      case None => None
      case Some((id, s1)) =>
        match TakeBlock(s1, 1)
        case None => None
        case Some((components, s2)) =>
          match TakeBlock(s2, 1)
          case None => None
          case Some((metaBytes, s3)) =>
            match MetaFrom(env, metaBytes)
            case None => None
            case Some(meta) =>
              Some(DiskVersion(id, VectorFrom(components), meta, FromLE(p[64..72]), FromLE(p[72..80]),
                               FromLE(p[80..88])))
  }

  ghost predicate NumbersFit(v: DiskVersion) {
    v.version < 0x1_0000_0000_0000_0000 && v.created < 0x1_0000_0000_0000_0000 && v.deleted < 0x1_0000_0000_0000_0000
  }

  lemma BodyParts(env: Env, v: DiskVersion, p: Page)
    requires FitsPage(env, v) && p[HEADER_SIZE..] == PageBody(env, v)
    ensures p[64..72] == LE(v.version, 8) && p[72..80] == LE(v.created, 8) && p[80..88] == LE(v.deleted, 8)
    ensures p[88..] == Block(|v.id|, v.id) + (Block(4 * |v.vector|, VectorBytes(v.vector))
                       + (Block(|MetaBytes(env, v.meta)|, MetaBytes(env, v.meta))
                          + ZeroBytes(BODY_SIZE - |Content(env, v)|)))
  {
    var b := p[HEADER_SIZE..];
    assert p[64..72] == b[..8] && p[72..80] == b[8..16] && p[80..88] == b[16..24] && p[88..] == b[24..];
  }

  lemma BlocksUndo(env: Env, v: DiskVersion, zeros: seq<byte>)
    requires FitsPage(env, v)
    ensures var s2 := Block(|MetaBytes(env, v.meta)|, MetaBytes(env, v.meta)) + zeros;
            var s1 := Block(4 * |v.vector|, VectorBytes(v.vector)) + s2;
            && TakeBlock(Block(|v.id|, v.id) + s1, 1) == Some((v.id, s1))
            && TakeBlock(s1, 1) == Some((VectorBytes(v.vector), s2))
            && TakeBlock(s2, 1) == Some((MetaBytes(env, v.meta), zeros))
  {
    var s2 := Block(|MetaBytes(env, v.meta)|, MetaBytes(env, v.meta)) + zeros;
    var s1 := Block(4 * |v.vector|, VectorBytes(v.vector)) + s2;
    TakeBlockUndoes(|v.id|, v.id, s1, 1);
    TakeBlockUndoes(4 * |v.vector|, VectorBytes(v.vector), s2, 1);
    TakeBlockUndoes(|MetaBytes(env, v.meta)|, MetaBytes(env, v.meta), zeros, 1);
  }

  /** A version that fits its page is read back from it. */
  lemma VersionRoundTrip(env: Env, v: DiskVersion)
    requires JsonOk(env) && NumbersFit(v) && FitsPage(env, v)
    ensures PageToVersion(env, VersionToPage(env, v).value) == Some(v)
  {
    var p := VersionToPage(env, v).value;
    SealedVerifies(env.crc, Header(VECTOR_PAGE, 0, 1, 0, 0), PageBody(env, v));
    BodyParts(env, v, p);
    BlocksUndo(env, v, ZeroBytes(BODY_SIZE - |Content(env, v)|));
    VectorRoundTrip(v.vector);
    U64RoundTrip(v.version);
    U64RoundTrip(v.created);
    U64RoundTrip(v.deleted);
  }

  /** Where sortVersionChain looks for the version number, checksum or not. */
  function NumberOf(p: Page): nat {
    FromLE(p[64..72])
  }

  lemma NumberIsVersion(env: Env, p: Page)
    requires PageToVersion(env, p).Some?
    ensures NumberOf(p) == PageToVersion(env, p).value.version
  {
  }
}
