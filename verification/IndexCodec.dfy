/**
 * index.go: the saved form of an index and Serialize. The nodes are written in
 * whatever order the map is visited.
 */
module IndexCodec {
  import opened Base
  import opened LittleEndian
  import opened Fields
  import opened HnswSearch
  import opened HnswGraph

  /** The parts of an index that are saved; the distance function is not. */
  datatype Image = Image(nodes: Graph, entryPoint: Option<Id>, maxLevel: nat, m: nat, efConstruct: nat)

  function Uint32(n: nat): word {
    n % 0x1_0000_0000
  }

  function IdFields(id: Id): seq<Field> {
    [Num(Uint32(|id|)), Raw(id)]
  }

  function IdsFields(ids: seq<Id>): seq<Field> {
    if ids == [] then [] else IdFields(ids[0]) + IdsFields(ids[1..])
  }

  function ListFields(links: seq<Id>): seq<Field> {
    [Num(Uint32(|links|))] + IdsFields(links)
  }

  function ListsFields(lists: seq<seq<Id>>): seq<Field> {
    if lists == [] then [] else ListFields(lists[0]) + ListsFields(lists[1..])
  }

  function VectorFields(v: Vector): seq<Field> {
    if v == [] then [] else [Num(v[0])] + VectorFields(v[1..])
  }

  function NodeFields(id: Id, node: Node): seq<Field> {
    IdFields(id) + ([Num(Uint32(node.level)), Num(Uint32(|node.vector|))]
                    + (VectorFields(node.vector) + ListsFields(node.neighbors)))
  }

  function NodesFields(g: Graph, order: seq<Id>): seq<Field>
    requires Members(order) <= g.Keys
  {
    if order == [] then []
    else
      assert order[0] in Members(order) && Members(order[1..]) <= Members(order);
      NodeFields(order[0], g[order[0]]) + NodesFields(g, order[1..])
  }

  function EntryId(e: Option<Id>): Id {
    if e.Some? then e.value else []
  }

  /** The numbers and the entry ID in front of the nodes. */
  function FrontFields(count: nat, image: Image, entryId: Id): seq<Field> {
    [Num(Uint32(count)), Num(Uint32(image.maxLevel)), Num(Uint32(image.m)), Num(Uint32(image.efConstruct))]
    + IdFields(entryId)
  }

  function HeaderFields(image: Image): seq<Field> {
    FrontFields(|image.nodes|, image, EntryId(image.entryPoint))
  }

  function ImageFields(image: Image, order: seq<Id>): seq<Field>
    requires Members(order) <= image.nodes.Keys
  {
    HeaderFields(image) + NodesFields(image.nodes, order)
  }

  ghost predicate Fits(n: nat) {
    n < 0x1_0000_0000
  }

  ghost predicate NodeFits(id: Id, node: Node) {
    && Fits(|id|) && Fits(node.level + 1) && Fits(|node.vector|) && |node.neighbors| == node.level + 1
    && ListsFit(node.neighbors)
  }

  ghost predicate ListsFit(lists: seq<seq<Id>>) {
    forall l :: 0 <= l < |lists| ==> ListFits(lists[l])
  }

  ghost predicate ListFits(links: seq<Id>) {
    Fits(|links|) && forall i :: 0 <= i < |links| ==> Fits(|links[i]|)
  }

  /** Everything fits its 32-bit field, and the entry point is nil exactly if there are no nodes. */
  ghost predicate ImageOk(image: Image) {
    && Fits(|image.nodes|) && Fits(image.maxLevel) && Fits(image.m) && Fits(image.efConstruct)
    && (forall id :: id in image.nodes ==> NodeFits(id, image.nodes[id]))
    && match image.entryPoint
       case None => image.nodes == map[]
       case Some(e) => e in image.nodes
  }

  /** The order names every node once. */
  ghost predicate OrderOf(g: Graph, order: seq<Id>) {
    Unique(order) && Members(order) == g.Keys
  }

  lemma BytesNum(n: word)
    ensures Bytes([Num(n)]) == LE(n, 4)
  {
    assert [Num(n)][1..] == [];
    assert LE(n, 4) + [] == LE(n, 4);
  }

  lemma BytesId(id: Id)
    ensures Bytes(IdFields(id)) == LE(Uint32(|id|), 4) + id
  {
    BytesNum(Uint32(|id|));
    assert [Raw(id)][1..] == [];
    assert id + [] == id;
    BytesCat([Num(Uint32(|id|))], [Raw(id)]);
    assert IdFields(id) == [Num(Uint32(|id|))] + [Raw(id)];
  }

  /** Appending the bytes of one more run of fields. */
  lemma Append(buf: seq<byte>, a: seq<Field>, b: seq<Field>, bytes: seq<byte>)
    requires Bytes(b) == bytes
    ensures buf + Bytes(a) + bytes == buf + Bytes(a + b)
  {
    BytesCat(a, b);
  }

  lemma AppendNone(buf: seq<byte>)
    ensures buf + Bytes([]) == buf
  {
  }

  method WriteId(buf: seq<byte>, id: Id) returns (r: seq<byte>)
    ensures r == buf + Bytes(IdFields(id))
  {
    BytesId(id);
    r := buf + LE(Uint32(|id|), 4);
    r := r + id;
  }

  lemma {:induction false} IdsSnoc(ids: seq<Id>, i: nat)
    requires i < |ids|
    ensures IdsFields(ids[..i + 1]) == IdsFields(ids[..i]) + IdFields(ids[i])
  {
    if i == 0 {
      assert ids[..1] == [ids[0]] && ids[..1][1..] == [];
    } else {
      assert ids[..i + 1][1..] == ids[1..][..i] && ids[..i][1..] == ids[1..][..i - 1];
      IdsSnoc(ids[1..], i - 1);
    }
  }

  method WriteIds(buf: seq<byte>, ids: seq<Id>) returns (r: seq<byte>)
    ensures r == buf + Bytes(IdsFields(ids))
  {
    r := buf;
    AppendNone(buf);
    for j := 0 to |ids|
      invariant r == buf + Bytes(IdsFields(ids[..j]))
    {
      IdsSnoc(ids, j);
      Append(buf, IdsFields(ids[..j]), IdFields(ids[j]), Bytes(IdFields(ids[j])));
      r := WriteId(r, ids[j]);
    }
    assert ids[..|ids|] == ids;
  }

  method WriteList(buf: seq<byte>, links: seq<Id>) returns (r: seq<byte>)
    ensures r == buf + Bytes(ListFields(links))
  {
    BytesNum(Uint32(|links|));
    Append(buf, [Num(Uint32(|links|))], IdsFields(links), Bytes(IdsFields(links)));
    r := buf + LE(Uint32(|links|), 4);
    r := WriteIds(r, links);
  }

  lemma {:induction false} ListsSnoc(lists: seq<seq<Id>>, i: nat)
    requires i < |lists|
    ensures ListsFields(lists[..i + 1]) == ListsFields(lists[..i]) + ListFields(lists[i])
  {
    if i == 0 {
      assert lists[..1] == [lists[0]] && lists[..1][1..] == [];
    } else {
      assert lists[..i + 1][1..] == lists[1..][..i] && lists[..i][1..] == lists[1..][..i - 1];
      ListsSnoc(lists[1..], i - 1);
    }
  }

  method WriteLists(buf: seq<byte>, lists: seq<seq<Id>>) returns (r: seq<byte>)
    ensures r == buf + Bytes(ListsFields(lists))
  {
    r := buf;
    AppendNone(buf);
    for l := 0 to |lists|
      invariant r == buf + Bytes(ListsFields(lists[..l]))
    {
      ListsSnoc(lists, l);
      Append(buf, ListsFields(lists[..l]), ListFields(lists[l]), Bytes(ListFields(lists[l])));
      r := WriteList(r, lists[l]);
    }
    assert lists[..|lists|] == lists;
  }

  lemma {:induction false} VectorSnoc(v: Vector, i: nat)
    requires i < |v|
    ensures VectorFields(v[..i + 1]) == VectorFields(v[..i]) + [Num(v[i])]
  {
    if i == 0 {
      assert v[..1] == [v[0]] && v[..1][1..] == [];
    } else {
      assert v[..i + 1][1..] == v[1..][..i] && v[..i][1..] == v[1..][..i - 1];
      VectorSnoc(v[1..], i - 1);
    }
  }

  method WriteVector(buf: seq<byte>, v: Vector) returns (r: seq<byte>)
    ensures r == buf + Bytes(VectorFields(v))
  {
    r := buf;
    AppendNone(buf);
    for i := 0 to |v|
      invariant r == buf + Bytes(VectorFields(v[..i]))
    {
      VectorSnoc(v, i);
      BytesNum(v[i]);
      Append(buf, VectorFields(v[..i]), [Num(v[i])], LE(v[i], 4));
      r := r + LE(v[i], 4);
    }
    assert v[..|v|] == v;
  }

  method WriteNums(buf: seq<byte>, a: word, b: word) returns (r: seq<byte>)
    ensures r == buf + Bytes([Num(a), Num(b)])
  {
    BytesNum(a);
    BytesNum(b);
    BytesCat([Num(a)], [Num(b)]);
    assert [Num(a)] + [Num(b)] == [Num(a), Num(b)];
    r := buf + LE(a, 4);
    r := r + LE(b, 4);
  }

  /** Four runs of fields written one after the other. */
  lemma FourParts(buf: seq<byte>, a: seq<Field>, b: seq<Field>, c: seq<Field>, d: seq<Field>)
    ensures buf + Bytes(a) + Bytes(b) + Bytes(c) + Bytes(d) == buf + Bytes(a + (b + (c + d)))
  {
    Append(buf, a, b, Bytes(b));
    Append(buf, a + b, c, Bytes(c));
    Append(buf, a + b + c, d, Bytes(d));
    Regroup(a, b, c, d);
  }

  lemma Regroup(a: seq<Field>, b: seq<Field>, c: seq<Field>, d: seq<Field>)
    ensures a + b + c + d == a + (b + (c + d))
  {
  }

  method WriteNode(buf: seq<byte>, id: Id, node: Node) returns (r: seq<byte>)
    ensures r == buf + Bytes(NodeFields(id, node))
  {
    FourParts(buf, IdFields(id), [Num(Uint32(node.level)), Num(Uint32(|node.vector|))], VectorFields(node.vector),
              ListsFields(node.neighbors));
    r := WriteId(buf, id);
    r := WriteNums(r, Uint32(node.level), Uint32(|node.vector|));
    r := WriteVector(r, node.vector);
    r := WriteLists(r, node.neighbors);
  }

  lemma {:induction false} NodesSnoc(g: Graph, order: seq<Id>, id: Id)
    requires Members(order) <= g.Keys && id in g && Members(order + [id]) <= g.Keys
    ensures NodesFields(g, order + [id]) == NodesFields(g, order) + NodeFields(id, g[id])
  {
    if order == [] {
      assert [id][1..] == [];
    } else {
      assert (order + [id])[1..] == order[1..] + [id];
      assert Members(order[1..]) <= Members(order) && Members(order[1..] + [id]) <= Members(order + [id]);
      NodesSnoc(g, order[1..], id);
      CatAssoc(NodeFields(order[0], g[order[0]]), NodesFields(g, order[1..]), NodeFields(id, g[id]));
    }
  }

  /** The nodes written so far. */
  ghost predicate Written(buf: seq<byte>, r: seq<byte>, g: Graph, order: seq<Id>, todo: set<Id>) {
    Unique(order) && Members(order) == g.Keys - todo && r == buf + Bytes(NodesFields(g, order))
  }

  lemma WrittenStep(buf: seq<byte>, r: seq<byte>, g: Graph, order: seq<Id>, todo: set<Id>, id: Id)
    requires Written(buf, r, g, order, todo) && id in todo && todo <= g.Keys
    ensures Written(buf, r + Bytes(NodeFields(id, g[id])), g, order + [id], todo - {id})
  {
    assert id in order ==> id in Members(order);
    AppendUnique(order, id);
    NodesSnoc(g, order, id);
    Append(buf, NodesFields(g, order), NodeFields(id, g[id]), Bytes(NodeFields(id, g[id])));
  }

  /** The nodes in whatever order the map yields them. */
  method WriteNodes(buf: seq<byte>, g: Graph) returns (r: seq<byte>, ghost order: seq<Id>)
    ensures OrderOf(g, order) && r == buf + Bytes(NodesFields(g, order))
  {
    r, order := buf, [];
    AppendNone(buf);
    var todo := g.Keys;
    while todo != {}
      invariant todo <= g.Keys && Written(buf, r, g, order, todo)
      decreases todo
    {
      var id :| id in todo;
      WrittenStep(buf, r, g, order, todo, id);
      r := WriteNode(r, id, g[id]);
      order, todo := order + [id], todo - {id};
    }
  }

  method WriteHeader(image: Image) returns (r: seq<byte>)
    ensures r == Bytes(HeaderFields(image))
  {
    var a, b, c, d := Uint32(|image.nodes|), Uint32(image.maxLevel), Uint32(image.m), Uint32(image.efConstruct);
    BytesNum(a);
    BytesNum(b);
    BytesNum(c);
    BytesNum(d);
    r := LE(a, 4);
    r := r + LE(b, 4);
    BytesCat([Num(a)], [Num(b)]);
    r := r + LE(c, 4);
    BytesCat([Num(a)] + [Num(b)], [Num(c)]);
    r := r + LE(d, 4);
    BytesCat([Num(a)] + [Num(b)] + [Num(c)], [Num(d)]);
    r := WriteId(r, EntryId(image.entryPoint));
    BytesCat([Num(a)] + [Num(b)] + [Num(c)] + [Num(d)], IdFields(EntryId(image.entryPoint)));
    assert [Num(a)] + [Num(b)] + [Num(c)] + [Num(d)] == [Num(a), Num(b), Num(c), Num(d)];
  }

  /** Serialize. */
  method Serialize(image: Image) returns (r: seq<byte>, ghost order: seq<Id>)
    ensures OrderOf(image.nodes, order) && r == Bytes(ImageFields(image, order))
  {
    r := WriteHeader(image);
    r, order := WriteNodes(r, image.nodes);
    BytesCat(HeaderFields(image), NodesFields(image.nodes, order));
  }
}
