/**
 * What is read back from a saved index whose trailing zeros are missing: the
 * index itself exactly if the last byte that is not zero is not inside a number.
 */
module IndexTorn {
  import opened Base
  import opened Fields
  import opened HnswSearch
  import opened HnswGraph
  import opened IndexCodec
  import opened IndexDecode

  /** The loader's cut falls inside a number of the saved image. */
  predicate Torn(image: Image, order: seq<Id>)
    requires Members(order) <= image.nodes.Keys
  {
    var fs := ImageFields(image, order);
    Splits(fs, |Trim(Bytes(fs))|)
  }

  lemma {:induction false} AsManyMembers(ids: seq<Id>)
    ensures |Members(ids)| <= |ids| && (|Members(ids)| == |ids| ==> Unique(ids))
  {
    if ids != [] {
      var n := |ids| - 1;
      AsManyMembers(ids[..n]);
      assert ids[..n] + [ids[n]] == ids;
      assert Members(ids) == Members(ids[..n]) + {ids[n]};
      if |Members(ids)| == |ids| { AppendUnique(ids[..n], ids[n]); }
    }
  }

  /** Nodes with IDs of their own all stay in the map. */
  lemma {:induction false} OnceIsFrom(read: seq<Saved>)
    requires Unique(ReadOrder(read))
    ensures From(MapOf(read), read)
  {
    if read != [] {
      var n := |read| - 1;
      ReadOrderAt(read);
      ReadOrderAt(read[..n]);
      OnceIsFrom(read[..n]);
      assert forall i :: 0 <= i < n ==> read[..n][i] == read[i] && read[i].id != read[n].id;
    }
  }

  lemma {:induction false} FieldsOf(g: Graph, read: seq<Saved>)
    requires From(g, read)
    ensures Members(ReadOrder(read)) <= g.Keys && SavedFields(read) == NodesFields(g, ReadOrder(read))
  {
    if read == [] {
      assert Members([]) == {};
    } else {
      FieldsOf(g, read[1..]);
      assert ReadOrder(read)[1..] == ReadOrder(read[1..]);
      assert Members(ReadOrder(read)) == {read[0].id} + Members(ReadOrder(read[1..]));
    }
  }

  /** As many nodes were read as the graph has, and they give the graph: it was read in some order. */
  lemma ReadInOrder(g: Graph, read: seq<Saved>)
    requires |read| == |g| && MapOf(read) == g
    ensures OrderOf(g, ReadOrder(read)) && SavedFields(read) == NodesFields(g, ReadOrder(read))
  {
    KeysOfRead(read);
    ReadOrderAt(read);
    assert |g.Keys| == |g|;
    AsManyMembers(ReadOrder(read));
    OnceIsFrom(read);
    FieldsOf(g, read);
  }

  lemma IdParts(id: Id, body: seq<Field>, more: seq<Field>)
    requires Fits(|id|)
    ensures IdFields(id) + body + more == [Num(|id|)] + ([Raw(id)] + body + more)
  {
  }

  /** The fields of the first node after the length of its ID. */
  function FirstRest(g: Graph, order: seq<Id>): seq<Field>
    requires order != [] && order[0] in g
  {
    var node := g[order[0]];
    [Raw(order[0])] + ([Num(Uint32(node.level)), Num(Uint32(|node.vector|))]
                       + (VectorFields(node.vector) + ListsFields(node.neighbors)))
  }

  lemma FirstFields(g: Graph, order: seq<Id>)
    requires order != [] && Members(order) <= g.Keys && Fits(|order[0]|)
    ensures order[0] in g && Members(order[1..]) <= g.Keys
    ensures NodesFields(g, order) == NodeFields(order[0], g[order[0]]) + NodesFields(g, order[1..])
    ensures NodesFields(g, order) == [Num(|order[0]|)] + (FirstRest(g, order) + NodesFields(g, order[1..]))
  {
    assert order[0] in Members(order) && Members(order[1..]) <= Members(order);
    var node := g[order[0]];
    IdParts(order[0], [Num(Uint32(node.level)), Num(Uint32(|node.vector|))]
                      + (VectorFields(node.vector) + ListsFields(node.neighbors)), NodesFields(g, order[1..]));
  }

  lemma NothingRead(g: Graph, ids: seq<Id>)
    requires ids != [] && Members(ids) <= g.Keys && Fits(|ids[0]|) && Sees([], NodesFields(g, ids))
    ensures ids[0] == []
  {
    FirstFields(g, ids);
    SeesNum([], |ids[0]|, FirstRest(g, ids) + NodesFields(g, ids[1..]));
  }

  /** A run of fields that starts with raw bytes. */
  lemma RawFirst(s: seq<byte>, a: seq<byte>, x: seq<Field>, b: seq<byte>, y: seq<Field>)
    requires |a| == |b| && Sees(s, [Raw(a)] + x) && IsCut(s, [Raw(b)] + y)
    ensures a == b
  {
    CutRaw(s, b, y);
  }

  lemma FirstAgrees(s: seq<byte>, g: Graph, ids: seq<Id>, order: seq<Id>)
    requires Unique(ids) && |ids| == |order| > 0 && Members(ids) == Members(order) <= g.Keys
    requires forall id :: id in g ==> Fits(|id|)
    requires Sees(s, NodesFields(g, ids)) && IsCut(s, NodesFields(g, order))
    ensures ids[0] == order[0]
  {
    assert ids[0] in Members(ids) && order[0] in Members(order);
    FirstFields(g, ids);
    FirstFields(g, order);
    var x, y := FirstRest(g, ids) + NodesFields(g, ids[1..]), FirstRest(g, order) + NodesFields(g, order[1..]);
    SeesNum(s, |ids[0]|, x);
    CutNumber(s, |order[0]|, y);
    if NumAt(s) == |order[0]| {
      CutOne(s, Num(|order[0]|), y);
      RawFirst(Rest(s, 4), ids[0], x[1..], order[0], y[1..]);
    } else if |ids| > 1 {
      NothingLater(FirstRest(g, ids), NodesFields(g, ids[1..]));
      assert ids[1..][0] == ids[1] && ids[1] in Members(ids);
      NothingRead(g, ids[1..]);
    }
  }

  /** Bytes cut from the nodes in one order that show the nodes in another: the orders are one. */
  lemma {:induction false} OneOrder(s: seq<byte>, g: Graph, ids: seq<Id>, order: seq<Id>)
    requires Unique(ids) && Unique(order) && Members(ids) == Members(order) <= g.Keys
    requires forall id :: id in g ==> Fits(|id|)
    requires Sees(s, NodesFields(g, ids)) && IsCut(s, NodesFields(g, order))
    ensures ids == order
    decreases |ids|
  {
    UniqueSize(ids);
    UniqueSize(order);
    if ids != [] {
      FirstAgrees(s, g, ids, order);
      var id := ids[0];
      assert id in Members(ids);
      assert Members(ids[1..]) == Members(ids) - {id} && Members(order[1..]) == Members(order) - {id};
      FirstFields(g, ids);
      FirstFields(g, order);
      SeesCat(s, NodeFields(id, g[id]), NodesFields(g, ids[1..]));
      CutAfter(s, NodeFields(id, g[id]), NodesFields(g, order[1..]));
      OneOrder(After(s, NodeFields(id, g[id])), g, ids[1..], order[1..]);
    }
  }

  lemma CutNums(s: seq<byte>, a: word, b: word, c: word, d: word, more: seq<Field>)
    requires IsCut(s, [Num(a), Num(b)] + ([Num(c), Num(d)] + more))
    ensures NumAt(s) == a || NumAt(s) == 0
    ensures IsCut(Rest(Rest(Rest(Rest(s, 4), 4), 4), 4), more)
  {
    var f3 := [Num(c)] + ([Num(d)] + more);
    var f2 := [Num(b)] + f3;
    assert [Num(a), Num(b)] + ([Num(c), Num(d)] + more) == [Num(a)] + f2;
    CutNumber(s, a, f2);
    CutOne(s, Num(a), f2);
    CutOne(Rest(s, 4), Num(b), f3);
    CutOne(Rest(Rest(s, 4), 4), Num(c), [Num(d)] + more);
    CutOne(Rest(Rest(Rest(s, 4), 4), 4), Num(d), more);
  }

  lemma CutId(s: seq<byte>, id: Id, more: seq<Field>)
    requires Fits(|id|) && IsCut(s, IdFields(id) + more)
    ensures NumAt(s) == |id| || NumAt(s) == 0
  {
    assert IdFields(id) + more == [Num(|id|)] + ([Raw(id)] + more);
    CutNumber(s, |id|, [Raw(id)] + more);
  }

  /** The count and the length of the entry ID, in bytes cut from an image. */
  lemma FrontCut(s: seq<byte>, image: Image, order: seq<Id>)
    requires ImageOk(image) && OrderOf(image.nodes, order) && IsCut(s, ImageFields(image, order))
    ensures NumAt(s) == |image.nodes| || NumAt(s) == 0
    ensures var n := NumAt(Rest(Rest(Rest(Rest(s, 4), 4), 4), 4)); n == |EntryId(image.entryPoint)| || n == 0
  {
    PickedSized(image, order);
    var entry, more := EntryId(image.entryPoint), NodesFields(image.nodes, order);
    FrontParts(|image.nodes|, image, entry, more);
    CutNums(s, |image.nodes|, image.maxLevel, image.m, image.efConstruct, IdFields(entry) + more);
    CutId(Rest(Rest(Rest(Rest(s, 4), 4), 4), 4), entry, more);
  }

  lemma SomeRead(read: seq<Saved>)
    ensures read != [] ==> MapOf(read) != map[]
  {
    if read != [] { assert read[|read| - 1].id in MapOf(read); }
  }

  lemma IdSize(s: seq<byte>, id: Id)
    requires Fits(|id|) && Sees(s, IdFields(id))
    ensures NumAt(s) == |id|
  {
    assert IdFields(id) == [Num(|id|)] + [Raw(id)];
    SeesNum(s, |id|, [Raw(id)]);
  }

  /** The header is read as it was written: a torn count would leave no nodes, a torn entry ID no entry point. */
  lemma HeaderIsRead(s: seq<byte>, image: Image, order: seq<Id>, read: seq<Saved>, entryId: Id)
    requires ImageOk(image) && OrderOf(image.nodes, order) && IsCut(s, ImageFields(image, order))
    requires Saw(s, image, read, entryId)
    ensures |read| == |image.nodes| && entryId == EntryId(image.entryPoint)
  {
    FrontSeen(s, |read|, image, entryId, SavedFields(read));
    FrontCut(s, image, order);
    SomeRead(read);
    IdSize(Rest(Rest(Rest(Rest(s, 4), 4), 4), 4), entryId);
  }

  /** The image is read back from a cut stream only if the stream shows it. */
  lemma ReadIsShown(s: seq<byte>, image: Image, order: seq<Id>, read: seq<Saved>, entryId: Id)
    requires ImageOk(image) && OrderOf(image.nodes, order) && IsCut(s, ImageFields(image, order))
    requires Saw(s, image, read, entryId)
    ensures Sees(s, ImageFields(image, order))
  {
    var g, ids := image.nodes, ReadOrder(read);
    HeaderIsRead(s, image, order, read, entryId);
    ReadInOrder(g, read);
    SeesCat(s, HeaderFields(image), NodesFields(g, ids));
    CutAfter(s, HeaderFields(image), NodesFields(g, order));
    forall id | id in g ensures Fits(|id|) { assert NodeFits(id, g[id]); }
    OneOrder(After(s, HeaderFields(image)), g, ids, order);
  }

  /** What the trimmed stream of an image is read as: the image, exactly if the stream is not torn. */
  lemma ReadBackIff(image: Image, order: seq<Id>, r: Image, read: seq<Saved>, entryId: Id)
    requires ImageOk(image) && OrderOf(image.nodes, order)
    requires Saw(Trim(Bytes(ImageFields(image, order))), r, read, entryId)
    ensures r == image <==> !Torn(image, order)
  {
    var fs := ImageFields(image, order);
    TrimCuts(fs);
    CutSeesIff(Trim(Bytes(fs)), fs);
    if !Torn(image, order) { ShownIsRead(Trim(Bytes(fs)), image, order, r, read, entryId); }
    if r == image { ReadIsShown(Trim(Bytes(fs)), image, order, read, entryId); }
  }
}
