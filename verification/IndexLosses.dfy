/**
 * Indexes that do not come back from their pages as they were saved: the empty
 * one, and one whose only vector is all zeros.
 */
module IndexLosses {
  import opened Base
  import opened LittleEndian
  import opened Fields
  import opened HnswSearch
  import opened HnswGraph
  import opened IndexCodec
  import opened IndexDecode
  import opened Pages
  import opened IndexPages
  import opened IndexReload

  lemma {:induction false} SeesPrefix(s: seq<byte>, a: seq<Field>, b: seq<Field>)
    requires Sees(s, a + b)
    ensures Sees(s, a)
    decreases |a|
  {
    if a != [] {
      assert (a + b)[1..] == a[1..] + b;
      SeesPrefix(Rest(s, |FieldBytes(a[0])|), a[1..], b);
    }
  }

  lemma ShortNumber(n: word)
    requires 0 < n < 0x100_0000
    ensures 0 < |Trim(LE(n, 4))| < 4
  {
    ZeroNum(n);
    var b := LE(n, 4);
    assert LE(n / 0x100_0000, 1)[0] == 0;
    assert b[3] == LE(n / 256, 3)[2] == LE(n / 256 / 256, 2)[1] == LE(n / 256 / 256 / 256, 1)[0];
    assert b[0..] == b;
  }

  /** A number cut short by the trimming is read as zero. */
  lemma TornReadsZero(a: seq<Field>, n: word, z: seq<Field>)
    requires 0 < n < 0x100_0000 && Zeros(Bytes(z))
    ensures Sees(Trim(Bytes(a + ([Num(n)] + z))), a + ([Num(0)] + z))
  {
    var part := Trim(LE(n, 4));
    ShortNumber(n);
    BytesNum(n);
    BytesCat([Num(n)], z);
    BytesCat(a, [Num(n)] + z);
    var solid := Bytes(a) + part;
    var tail := LE(n, 4)[|part|..];
    ZerosCat(tail, Bytes(z));
    assert Bytes(a + ([Num(n)] + z)) == solid + (tail + Bytes(z)) by {
      assert LE(n, 4) == part + tail;
    }
    assert solid[|solid| - 1] == part[|part| - 1];
    TrimIs(solid, tail + Bytes(z));
    SeesNothing(z);
    SeesNum(part, 0, z);
    SeesAfter(a, part, [Num(0)] + z);
  }

  /** What a loader makes of saved data. */
  method SaveData(s: Storage, crc: Crc, root: nat, data: seq<byte>, ghost seen: Image, ghost seenOrder: seq<Id>)
    returns (r: Option<Image>)
    requires s.Valid() && 1 <= root < |s.pages| && root !in s.freeList && data != []
    modifies s
    ensures r.Some? && Shows(Trim(data), seen, seenOrder) ==> r.value == seen
  {
    var ok;
    ghost var ps;
    ok, ps := PersistData(s, crc, root, data);
    if !ok {
      return None;
    }
    var loaded := Reload(s, crc, root, data, ps);
    var back;
    ghost var read, entryId;
    back, read, entryId := Deserialize(loaded);
    if Shows(Trim(data), seen, seenOrder) { ShownIsRead(loaded, seen, seenOrder, back, read, entryId); }
    r := Some(back);
  }

  lemma EmptyShows(m: word, efConstruct: word)
    requires 0 < efConstruct < 0x100_0000
    ensures Shows(Trim(Bytes(ImageFields(Image(map[], None, 0, m, efConstruct), []))), Image(map[], None, 0, m, 0), [])
  {
    var z := IdFields([]);
    var a := [Num(0), Num(0), Num(m)];
    assert ImageFields(Image(map[], None, 0, m, efConstruct), []) == a + ([Num(efConstruct)] + z);
    assert ImageFields(Image(map[], None, 0, m, 0), []) == a + ([Num(0)] + z);
    BytesId([]);
    ZeroNum(0);
    assert LE(0, 4) + [] == LE(0, 4);
    TornReadsZero(a, efConstruct, z);
  }

  /** An empty index comes back with efConstruct zero. */
  method EmptyIndexReload(s: Storage, crc: Crc, root: nat, m: word, efConstruct: word) returns (r: Option<Image>)
    requires s.Valid() && 1 <= root < |s.pages| && root !in s.freeList && 0 < efConstruct < 0x100_0000
    modifies s
    ensures r.Some? ==> r.value == Image(map[], None, 0, m, 0)
  {
    var image := Image(map[], None, 0, m, efConstruct);
    var data, order := Serialize(image);
    UniqueSize(order);
    ImageBytesNonempty(image, order);
    EmptyShows(m, efConstruct);
    r := SaveData(s, crc, root, data, Image(map[], None, 0, m, 0), []);
  }

  /** Empty neighbour lists for layers below n. */
  function Empties(n: nat): (lists: seq<seq<Id>>)
    ensures |lists| == n && forall l :: 0 <= l < n ==> lists[l] == []
  {
    if n == 0 then [] else Empties(n - 1) + [[]]
  }

  function LoneImage(id: Id, v: Vector, level: nat, m: word, efConstruct: word): Image {
    Image(map[id := Node(v, level, Empties(level + 1))], Some(id), level, m, efConstruct)
  }

  lemma {:induction false} ZeroVectorFields(v: Vector)
    requires forall i :: 0 <= i < |v| ==> v[i] == 0
    ensures AllZeroNums(VectorFields(v)) && |VectorFields(v)| == |v|
  {
    if v != [] { ZeroVectorFields(v[1..]); }
  }

  lemma LoneSize(image: Image, id: Id)
    requires image.nodes.Keys == {id}
    ensures |image.nodes| == 1 && Members([id]) == {id}
  {
    assert |image.nodes| == |image.nodes.Keys|;
  }

  /** The fields of a lone node before the length of its vector. */
  function LoneFront(id: Id, level: word, m: word, efConstruct: word): seq<Field> {
    [Num(1), Num(level), Num(m), Num(efConstruct)] + IdFields(id) + IdFields(id) + [Num(level)]
  }

  lemma LoneFields(id: Id, v: Vector, level: word, m: word, efConstruct: word)
    requires Members([id]) == {id}
    ensures Members([id]) <= LoneImage(id, v, level, m, efConstruct).nodes.Keys
    ensures ImageFields(LoneImage(id, v, level, m, efConstruct), [id]) ==
              LoneFront(id, level, m, efConstruct)
              + ([Num(Uint32(|v|))] + (VectorFields(v) + ListsFields(Empties(level + 1))))
  {
    var image := LoneImage(id, v, level, m, efConstruct);
    assert image.nodes.Keys == {id};
    LoneSize(image, id);
    OneNode(image.nodes, id);
    var header := [Num(1), Num(level), Num(m), Num(efConstruct)] + IdFields(id);
    assert HeaderFields(image) == header;
    ShiftOne(header, IdFields(id), Num(level), Num(Uint32(|v|)), VectorFields(v) + ListsFields(Empties(level + 1)));
  }

  lemma ShiftOne(a: seq<Field>, b: seq<Field>, x: Field, y: Field, more: seq<Field>)
    ensures a + (b + ([x, y] + more)) == a + b + [x] + ([y] + more)
  {
  }

  lemma LoneOk(id: Id, level: nat, m: word, efConstruct: word)
    requires Fits(|id|) && Fits(level + 1) && Members([id]) == {id}
    ensures var image := LoneImage(id, [], level, m, efConstruct); ImageOk(image) && OrderOf(image.nodes, [id])
  {
    var image := LoneImage(id, [], level, m, efConstruct);
    assert image.nodes.Keys == {id};
    LoneSize(image, id);
    assert ListsFit(Empties(level + 1));
  }

  lemma LoneShows(id: Id, v: Vector, level: word, m: word, efConstruct: word)
    requires Fits(|id|) && Fits(level + 1) && 0 < |v| < 0x100_0000 && forall i :: 0 <= i < |v| ==> v[i] == 0
    requires Members([id]) == {id}
    ensures Members([id]) <= LoneImage(id, v, level, m, efConstruct).nodes.Keys
    ensures Shows(Trim(Bytes(ImageFields(LoneImage(id, v, level, m, efConstruct), [id]))),
                  LoneImage(id, [], level, m, efConstruct), [id])
  {
    var lists := ListsFields(Empties(level + 1));
    LoneFields(id, v, level, m, efConstruct);
    LoneFields(id, [], level, m, efConstruct);
    LoneOk(id, level, m, efConstruct);
    ZeroVectorFields(v);
    EmptyListsZero(Empties(level + 1));
    LoneTorn(LoneFront(id, level, m, efConstruct), v, lists);
    assert VectorFields([]) + lists == lists;
  }

  lemma DropRest(s: seq<byte>, a: seq<Field>, z: seq<Field>, lists: seq<Field>)
    requires AllZeroNums(z) && AllZeroNums(lists) && |lists| <= |z| && Sees(s, a + ([Num(0)] + z))
    ensures Sees(s, a + ([Num(0)] + lists))
  {
    assert z == lists + z[|lists|..];
    assert a + ([Num(0)] + z) == a + ([Num(0)] + lists) + z[|lists|..];
    SeesPrefix(s, a + ([Num(0)] + lists), z[|lists|..]);
  }

  lemma LoneTorn(a: seq<Field>, v: Vector, lists: seq<Field>)
    requires 0 < |v| < 0x100_0000 && AllZeroNums(VectorFields(v)) && AllZeroNums(lists)
    ensures Sees(Trim(Bytes(a + ([Num(Uint32(|v|))] + (VectorFields(v) + lists)))), a + ([Num(0)] + lists))
  {
    var z := VectorFields(v) + lists;
    ZeroNumsBytes(z);
    var s := Trim(Bytes(a + ([Num(Uint32(|v|))] + z)));
    TornReadsZero(a, Uint32(|v|), z);
    DropRest(s, a, z, lists);
  }

  /** An index whose only vector is all zeros comes back without the vector's components, whatever its level. */
  method ZeroVectorReload(s: Storage, crc: Crc, root: nat, id: Id, v: Vector, level: nat, m: word, efConstruct: word)
    returns (r: Option<Image>)
    requires s.Valid() && 1 <= root < |s.pages| && root !in s.freeList
    requires Fits(|id|) && Fits(level + 1) && 0 < |v| < 0x100_0000 && forall i :: 0 <= i < |v| ==> v[i] == 0
    modifies s
    ensures r.Some? ==> r.value == LoneImage(id, [], level, m, efConstruct)
  {
    var image := LoneImage(id, v, level, m, efConstruct);
    var data, order := Serialize(image);
    assert image.nodes.Keys == {id};
    OnlyOrder(order, id);
    ImageBytesNonempty(image, order);
    LoneShows(id, v, level, m, efConstruct);
    r := SaveData(s, crc, root, data, LoneImage(id, [], level, m, efConstruct), [id]);
  }

  lemma OnlyOrder(order: seq<Id>, id: Id)
    requires Unique(order) && Members(order) == {id}
    ensures order == [id] && Members([id]) == {id}
  {
    UniqueSize(order);
    assert order[0] in Members(order);
  }
}
