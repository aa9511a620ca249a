/**
 * storage_mvcc.go and magpie.go: a vector stored on a page that a collected
 * version has left behind.
 */
module PageReuse {
  import opened Base
  import opened LittleEndian
  import opened WalCodec
  import opened Pages
  import opened PackedPage
  import opened VectorPages
  import opened VersionPage

  lemma FirstSlotStart(p: Page)
    ensures SlotAt(p, 0)[..64] == p[HEADER_SIZE..][..64]
  {
  }

  /**
   * A freed version page keeps its content. If a vector is stored on it, the
   * first 64 bytes of the version are read as the ID of an older entry: a
   * vector with that ID is shadowed, any other one is not.
   */
  lemma VersionPageShadows(env: Env, version: DiskVersion, id: Id, v: Vector)
    requires FitsPage(env, version) && Survives(id)
    requires PageWithVector(env.crc, VersionToPage(env, version).value, id, v).Some?
    ensures var was := VersionToPage(env, version).value;
            var p := PageWithVector(env.crc, was, id, v).value;
            && SlotId(was, 0) == ExtractId(PageBody(env, version)[..64])
            && (id != SlotId(was, 0) ==> LoadFrom(env.crc, p, id) == Some(v))
            && (id == SlotId(was, 0) ==> LoadFrom(env.crc, p, id) == VectorOfSlot(p, 0))
  {
    var was := VersionToPage(env, version).value;
    var p := PageWithVector(env.crc, was, id, v).value;
    SealedVerifies(env.crc, Header(VECTOR_PAGE, 0, 1, 0, 0), PageBody(env, version));
    FirstSlotStart(was);
    LoadsNewestIff(env.crc, was, id, v, p);
    NewSlot(env.crc, was, id, v, p);
  }

  lemma ComponentBytes(s: seq<byte>, i: nat)
    requires |s| % 4 == 0 && i < |s| / 4
    ensures VectorBytes(VectorFrom(s))[4 * i..4 * i + 4] == s[4 * i..4 * i + 4]
  {
    VectorBytesAt(VectorFrom(s), i);
    Canonical(s[4 * i..4 * i + 4]);
  }

  lemma SameInFours(a: seq<byte>, b: seq<byte>)
    requires |a| == |b| && |a| % 4 == 0
    requires forall i :: 0 <= i < |a| / 4 ==> a[4 * i..4 * i + 4] == b[4 * i..4 * i + 4]
    ensures a == b
  {
    forall k | 0 <= k < |a| ensures a[k] == b[k] {
      var i := k / 4;
      assert a[k] == a[4 * i..4 * i + 4][k - 4 * i] && b[k] == b[4 * i..4 * i + 4][k - 4 * i];
    }
  }

  /** A byte string of whole components denotes one vector, and is the string that vector is written as. */
  lemma VectorFromIff(s: seq<byte>, v: Vector)
    requires |s| % 4 == 0
    ensures VectorFrom(s) == v <==> s == VectorBytes(v)
  {
    VectorRoundTrip(v);
    forall i | 0 <= i < |s| / 4 ensures VectorBytes(VectorFrom(s))[4 * i..4 * i + 4] == s[4 * i..4 * i + 4] {
      ComponentBytes(s, i);
    }
    SameInFours(VectorBytes(VectorFrom(s)), s);
  }

  /**
   * What a stale entry gives is the vector just stored exactly if it points at
   * as many components, and the bytes it points at are that vector's by chance.
   */
  lemma ShadowedRightIff(p: Page, i: nat, v: Vector)
    requires SlotStart(i + 1) <= PAGE_SIZE
    ensures var offset, length := U32(SlotAt(p, i)[64..68]), FromLE(SlotAt(p, i)[68..70]);
            VectorOfSlot(p, i) == Some(v)
            <==> length == |v| && offset + 4 * |v| <= PAGE_SIZE && p[offset..offset + 4 * |v|] == VectorBytes(v)
  {
    var offset, length := U32(SlotAt(p, i)[64..68]), FromLE(SlotAt(p, i)[68..70]);
    if offset + 4 * length <= PAGE_SIZE {
      VectorFromIff(p[offset..offset + 4 * length], v);
    }
  }

  /** For a version number below 256 the shadowed ID is that byte. */
  lemma SmallVersionShadows(env: Env, version: DiskVersion)
    requires FitsPage(env, version) && 1 <= version.version < 256
    ensures SlotId(VersionToPage(env, version).value, 0) == [version.version]
  {
    SealedVerifies(env.crc, Header(VECTOR_PAGE, 0, 1, 0, 0), PageBody(env, version));
    SlotOfVersion(env, version, VersionToPage(env, version).value);
  }

  /** The first eight bytes of the body are the version number, low byte first. */
  lemma SlotOfVersion(env: Env, version: DiskVersion, p: Page)
    requires FitsPage(env, version) && 1 <= version.version < 256 && p[HEADER_SIZE..] == PageBody(env, version)
    ensures SlotId(p, 0) == [version.version]
  {
    BodyParts(env, version, p);
    SmallNumber(version.version);
    var e := SlotAt(p, 0)[..64];
    assert e[0] == p[64..72][0] && e[1] == p[64..72][1];
    assert FirstZero(e) == 1;
  }

  lemma SmallNumber(n: nat)
    requires n < 256
    ensures LE(n, 8)[0] == n && LE(n, 8)[1] == 0
  {
    assert LE(n, 8) == [n] + LE(0, 7) && LE(0, 7) == [0] + LE(0, 6);
  }

  /**
   * A version page has less room than a vector page. Vectors of 976 to 988
   * components fit the one but not the other, whatever the ID: a plain store
   * takes them, and no transaction can publish them.
   */
  lemma StoredButNotPublished(env: Env, id: Id, v: Vector, version: DiskVersion)
    requires 975 < |v| && version.vector == v
    ensures VersionToPage(env, version) == None
    ensures PageWithVector(env.crc, ZeroBytes(PAGE_SIZE), id, v).Some? <==> |v| <= 988
  {
    FreshFitsIff(env.crc, id, v);
  }

  /** And with the IDs that the database takes, a version without metadata fits up to 959 components. */
  lemma SmallVersionsFit(env: Env, version: DiskVersion)
    requires |version.id| <= MAX_ID_LENGTH && |version.vector| <= 959 && version.meta == None
    ensures VersionToPage(env, version).Some?
  {
  }
}
