/**
 * Saving the index to pages and loading it again. The trimmed zeros are harmless
 * unless the last byte that is not zero is inside a number.
 */
module IndexReload {
  import opened Base
  import opened Fields
  import opened HnswSearch
  import opened IndexCodec
  import opened IndexDecode
  import opened IndexTorn
  import opened Pages
  import opened IndexPages

  lemma ImageBytesNonempty(image: Image, order: seq<Id>)
    requires Members(order) <= image.nodes.Keys
    ensures Bytes(ImageFields(image, order)) != []
  {
    assert ImageFields(image, order)[0] == Num(Uint32(|image.nodes|));
  }

  /** Saved bytes, walked and trimmed. */
  method Reload(s: Storage, crc: Crc, root: nat, ghost data: seq<byte>, ghost ps: seq<nat>) returns (r: seq<byte>)
    requires s.Valid() && ps != [] && ps[0] == root && data != [] && Held(s.pages, crc, ps, data)
    ensures r == Trim(data)
  {
    HeldLoadsTrimmed(s.pages, crc, ps, data);
    var loaded := LoadData(s, crc, root, |s.pages| + 1);
    r := loaded.data;
  }

  /** persistIndex and then loadIndex; None if the file has no room. */
  method PersistAndLoad(s: Storage, crc: Crc, root: nat, image: Image) returns (r: Option<Image>, ghost order: seq<Id>)
    requires s.Valid() && 1 <= root < |s.pages| && root !in s.freeList
    modifies s
    ensures s.Valid() && OrderOf(image.nodes, order)
    ensures r.Some? && ImageOk(image) ==> (r.value == image <==> !Torn(image, order))
    ensures r.None? ==> |s.pages| == s.limit && s.freeList == []
  {
    var data;
    data, order := Serialize(image);
    ImageBytesNonempty(image, order);
    var ok;
    ghost var ps;
    ok, ps := PersistData(s, crc, root, data);
    if !ok {
      return None, order;
    }
    var loaded := Reload(s, crc, root, data, ps);
    var back;
    ghost var read, entryId;
    back, read, entryId := Deserialize(loaded);
    if ImageOk(image) { ReadBackIff(image, order, back, read, entryId); }
    r := Some(back);
  }

  /** The fields end in raw bytes, the last not zero, and numbers that are all zero. */
  ghost predicate EndsSolid(fs: seq<Field>) {
    exists k :: 0 <= k < |fs| && SolidAt(fs, k)
  }

  predicate Solid(id: Id) {
    id != [] && id[|id| - 1] != 0
  }

  ghost predicate SolidAt(fs: seq<Field>, k: nat)
    requires k < |fs|
  {
    fs[k].Raw? && Solid(fs[k].bytes) && forall j :: k < j < |fs| ==> fs[j] == Num(0)
  }

  lemma EndsSolidAfter(a: seq<Field>, b: seq<Field>)
    requires EndsSolid(b)
    ensures EndsSolid(a + b)
  {
    var k :| 0 <= k < |b| && SolidAt(b, k);
    assert SolidAt(a + b, |a| + k);
  }

  ghost predicate AllZeroNums(fs: seq<Field>) {
    forall j :: 0 <= j < |fs| ==> fs[j] == Num(0)
  }

  lemma EndsSolidBefore(a: seq<Field>, z: seq<Field>)
    requires EndsSolid(a) && AllZeroNums(z)
    ensures EndsSolid(a + z)
  {
    var k :| 0 <= k < |a| && SolidAt(a, k);
    assert SolidAt(a + z, k);
  }

  lemma {:induction false} ZeroNumsBytes(z: seq<Field>)
    requires AllZeroNums(z)
    ensures Zeros(Bytes(z))
  {
    if z != [] {
      ZeroNumsBytes(z[1..]);
      ZeroNum(0);
      ZerosCat(FieldBytes(z[0]), Bytes(z[1..]));
    }
  }

  lemma {:induction false} TrimIs(a: seq<byte>, z: seq<byte>)
    requires a != [] && a[|a| - 1] != 0 && Zeros(z)
    ensures Trim(a + z) == a
  {
    if z == [] {
      assert a + z == a;
    } else {
      assert (a + z)[..|a + z| - 1] == a + z[..|z| - 1];
      TrimIs(a, z[..|z| - 1]);
    }
  }

  lemma {:induction false} NoSplitBetween(a: seq<Field>, z: seq<Field>)
    ensures !Splits(a + z, |Bytes(a)|)
  {
    if a == [] {
      assert a + z == z;
      NoSplit(z);
    } else {
      assert (a + z)[1..] == a[1..] + z;
      NoSplitBetween(a[1..], z);
    }
  }

  lemma SolidNotSplit(fs: seq<Field>)
    requires EndsSolid(fs)
    ensures !Splits(fs, |Trim(Bytes(fs))|)
  {
    var k :| 0 <= k < |fs| && SolidAt(fs, k);
    var front, id, z := fs[..k], fs[k].bytes, fs[k + 1..];
    assert fs == (front + [fs[k]]) + z;
    BytesCat(front, [fs[k]]);
    BytesCat(front + [fs[k]], z);
    RawBytes(id);
    ZeroNumsBytes(z);
    var solid := Bytes(front) + id;
    assert solid[|solid| - 1] == id[|id| - 1];
    TrimIs(solid, Bytes(z));
    NoSplitBetween(front + [fs[k]], z);
  }

  lemma RawBytes(bytes: seq<byte>)
    ensures Bytes([Raw(bytes)]) == bytes
  {
    assert [Raw(bytes)][1..] == [];
    assert bytes + [] == bytes;
  }

  ghost predicate SolidIds(ids: seq<Id>) {
    forall i :: 0 <= i < |ids| ==> Solid(ids[i])
  }

  lemma {:induction false} IdsEndSolid(ids: seq<Id>)
    requires ids != [] && SolidIds(ids)
    ensures EndsSolid(IdsFields(ids))
  {
    if |ids| == 1 {
      assert IdsFields(ids[1..]) == [];
      assert SolidAt(IdsFields(ids), 1);
    } else {
      IdsEndSolid(ids[1..]);
      EndsSolidAfter(IdFields(ids[0]), IdsFields(ids[1..]));
    }
  }

  lemma {:induction false} EmptyListsZero(lists: seq<seq<Id>>)
    requires forall l :: 0 <= l < |lists| ==> lists[l] == []
    ensures AllZeroNums(ListsFields(lists))
  {
    if lists != [] {
      EmptyListsZero(lists[1..]);
      assert ListFields(lists[0]) == [Num(0)];
    }
  }

  lemma {:induction false} ListsEndSolid(lists: seq<seq<Id>>)
    requires exists l :: 0 <= l < |lists| && lists[l] != []
    requires forall l :: 0 <= l < |lists| ==> SolidIds(lists[l])
    ensures EndsSolid(ListsFields(lists))
  {
    var first, rest := lists[0], lists[1..];
    if exists l :: 0 <= l < |rest| && rest[l] != [] {
      ListsEndSolid(rest);
      EndsSolidAfter(ListFields(first), ListsFields(rest));
    } else {
      EmptyListsZero(rest);
      assert first != [];
      IdsEndSolid(first);
      EndsSolidAfter([Num(Uint32(|first|))], IdsFields(first));
      EndsSolidBefore(ListFields(first), ListsFields(rest));
    }
  }

  /** The node has a link on some layer, and the IDs in its lists do not end in a zero byte. */
  ghost predicate Linked(node: Node) {
    && (exists l :: 0 <= l < |node.neighbors| && node.neighbors[l] != [])
    && (forall l :: 0 <= l < |node.neighbors| ==> SolidIds(node.neighbors[l]))
  }

  lemma NodeEndsSolid(id: Id, node: Node)
    requires Linked(node)
    ensures EndsSolid(NodeFields(id, node))
  {
    ListsEndSolid(node.neighbors);
    EndsSolidAfter(VectorFields(node.vector), ListsFields(node.neighbors));
    EndsSolidAfter([Num(Uint32(node.level)), Num(Uint32(|node.vector|))],
                   VectorFields(node.vector) + ListsFields(node.neighbors));
    EndsSolidAfter(IdFields(id), [Num(Uint32(node.level)), Num(Uint32(|node.vector|))]
                                 + (VectorFields(node.vector) + ListsFields(node.neighbors)));
  }

  lemma OneNode(g: Graph, id: Id)
    requires id in g && Members([id]) <= g.Keys
    ensures NodesFields(g, [id]) == NodeFields(id, g[id])
  {
    assert [id][1..] == [];
    assert NodeFields(id, g[id]) + [] == NodeFields(id, g[id]);
  }

  lemma {:induction false} NodesEndSolid(g: Graph, order: seq<Id>)
    requires order != [] && Members(order) <= g.Keys && forall id :: id in g ==> Linked(g[id])
    ensures EndsSolid(NodesFields(g, order))
  {
    var id, rest := order[0], order[1..];
    assert id in Members(order) && Members(rest) <= Members(order);
    if rest == [] {
      NodeEndsSolid(id, g[id]);
      assert order == [id];
      OneNode(g, id);
    } else {
      NodesEndSolid(g, rest);
      EndsSolidAfter(NodeFields(id, g[id]), NodesFields(g, rest));
    }
  }

  /** An index in which every node has a link is never torn, in whatever order it was written. */
  lemma LinkedNotTorn(image: Image, order: seq<Id>)
    requires OrderOf(image.nodes, order) && image.nodes != map[] && forall id :: id in image.nodes ==>
               Linked(image.nodes[id])
    ensures !Torn(image, order)
  {
    assert Members([]) == {};
    NodesEndSolid(image.nodes, order);
    EndsSolidAfter(HeaderFields(image), NodesFields(image.nodes, order));
    SolidNotSplit(ImageFields(image, order));
  }
}
