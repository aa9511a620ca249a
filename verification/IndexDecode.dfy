/**
 * index.go: Deserialize. Whatever the bytes, the index that is built is the one
 * that the bytes show to a reader that takes missing bytes for zeros.
 */
module IndexDecode {
  import opened Base
  import opened Fields
  import opened HnswSearch
  import opened HnswGraph
  import opened IndexCodec

  /** Reading these fields leaves rest, and they are what the stream shows. */
  ghost predicate Reads(s: seq<byte>, fs: seq<Field>, rest: seq<byte>) {
    Sees(s, fs) && rest == After(s, fs)
  }

  lemma ReadsCat(s: seq<byte>, a: seq<Field>, mid: seq<byte>, b: seq<Field>, rest: seq<byte>)
    requires Reads(s, a, mid) && Reads(mid, b, rest)
    ensures Reads(s, a + b, rest)
  {
    SeesCat(s, a, b);
  }

  lemma ReadsNum(s: seq<byte>)
    ensures Reads(s, [Num(NumAt(s))], Rest(s, 4))
  {
    assert [Num(NumAt(s))][1..] == [];
  }

  lemma ReadsRaw(s: seq<byte>, n: nat)
    ensures |RawAt(s, n)| == n && Reads(s, [Raw(RawAt(s, n))], Rest(s, n))
  {
    assert [Raw(RawAt(s, n))][1..] == [];
  }

  lemma ReadsId(s: seq<byte>)
    ensures var id := RawAt(Rest(s, 4), NumAt(s));
            Fits(|id|) && Reads(s, IdFields(id), Rest(Rest(s, 4), NumAt(s)))
  {
    var n := NumAt(s);
    ReadsNum(s);
    ReadsRaw(Rest(s, 4), n);
    ReadsCat(s, [Num(n)], Rest(s, 4), [Raw(RawAt(Rest(s, 4), n))], Rest(Rest(s, 4), n));
    assert [Num(n)] + [Raw(RawAt(Rest(s, 4), n))] == IdFields(RawAt(Rest(s, 4), n));
  }

  lemma IdsMore(ids: seq<Id>, id: Id)
    ensures IdsFields(ids + [id]) == IdsFields(ids) + IdFields(id)
  {
    IdsSnoc(ids + [id], |ids|);
    assert (ids + [id])[..|ids|] == ids && (ids + [id])[..|ids| + 1] == ids + [id];
  }

  lemma ListsMore(lists: seq<seq<Id>>, links: seq<Id>)
    ensures ListsFields(lists + [links]) == ListsFields(lists) + ListFields(links)
  {
    ListsSnoc(lists + [links], |lists|);
    assert (lists + [links])[..|lists|] == lists && (lists + [links])[..|lists| + 1] == lists + [links];
  }

  lemma VectorMore(v: Vector, x: word)
    ensures VectorFields(v + [x]) == VectorFields(v) + [Num(x)]
  {
    VectorSnoc(v + [x], |v|);
    assert (v + [x])[..|v|] == v && (v + [x])[..|v| + 1] == v + [x];
  }

  /** A length-prefixed ID, and what is left. */
  method ReadId(s: seq<byte>) returns (id: Id, rest: seq<byte>)
    ensures Fits(|id|) && Reads(s, IdFields(id), rest)
  {
    ReadsId(s);
    var len := NumAt(s);
    id, rest := RawAt(Rest(s, 4), len), Rest(Rest(s, 4), len);
  }

  ghost predicate AllFit(ids: seq<Id>) {
    forall i :: 0 <= i < |ids| ==> Fits(|ids[i]|)
  }

  ghost predicate IdsRead(s: seq<byte>, ids: seq<Id>, rest: seq<byte>) {
    AllFit(ids) && Reads(s, IdsFields(ids), rest)
  }

  lemma IdsReadMore(s: seq<byte>, ids: seq<Id>, mid: seq<byte>, id: Id, rest: seq<byte>)
    requires IdsRead(s, ids, mid) && Fits(|id|) && Reads(mid, IdFields(id), rest)
    ensures IdsRead(s, ids + [id], rest)
  {
    IdsMore(ids, id);
    ReadsCat(s, IdsFields(ids), mid, IdFields(id), rest);
  }

  method ReadIds(s: seq<byte>, count: nat) returns (ids: seq<Id>, rest: seq<byte>)
    ensures |ids| == count && IdsRead(s, ids, rest)
  {
    ids, rest := [], s;
    for j := 0 to count
      invariant |ids| == j && IdsRead(s, ids, rest)
    {
      ghost var mid := rest;
      var id;
      id, rest := ReadId(rest);
      IdsReadMore(s, ids, mid, id, rest);
      ids := ids + [id];
    }
  }

  /** One neighbour list: its length and its IDs. */
  method ReadList(s: seq<byte>) returns (links: seq<Id>, rest: seq<byte>)
    ensures ListFits(links) && Reads(s, ListFields(links), rest)
  {
    links, rest := ReadIds(Rest(s, 4), NumAt(s));
    ReadsNum(s);
    ReadsCat(s, [Num(NumAt(s))], Rest(s, 4), IdsFields(links), rest);
  }

  ghost predicate ListsRead(s: seq<byte>, lists: seq<seq<Id>>, rest: seq<byte>) {
    ListsFit(lists) && Reads(s, ListsFields(lists), rest)
  }

  lemma ListsReadMore(s: seq<byte>, lists: seq<seq<Id>>, mid: seq<byte>, links: seq<Id>, rest: seq<byte>)
    requires ListsRead(s, lists, mid) && ListFits(links) && Reads(mid, ListFields(links), rest)
    ensures ListsRead(s, lists + [links], rest)
  {
    ListsMore(lists, links);
    ReadsCat(s, ListsFields(lists), mid, ListFields(links), rest);
  }

  method ReadLists(s: seq<byte>, count: nat) returns (lists: seq<seq<Id>>, rest: seq<byte>)
    ensures |lists| == count && ListsRead(s, lists, rest)
  {
    lists, rest := [], s;
    for l := 0 to count
      invariant |lists| == l && ListsRead(s, lists, rest)
    {
      ghost var mid := rest;
      var links;
      links, rest := ReadList(rest);
      ListsReadMore(s, lists, mid, links, rest);
      lists := lists + [links];
    }
  }

  lemma VectorReadMore(s: seq<byte>, v: Vector, mid: seq<byte>)
    requires Reads(s, VectorFields(v), mid)
    ensures Reads(s, VectorFields(v + [NumAt(mid)]), Rest(mid, 4))
  {
    VectorMore(v, NumAt(mid));
    ReadsNum(mid);
    ReadsCat(s, VectorFields(v), mid, [Num(NumAt(mid))], Rest(mid, 4));
  }

  method ReadVector(s: seq<byte>, count: nat) returns (v: Vector, rest: seq<byte>)
    ensures |v| == count && Reads(s, VectorFields(v), rest)
  {
    v, rest := [], s;
    for j := 0 to count
      invariant |v| == j && Reads(s, VectorFields(v), rest)
    {
      VectorReadMore(s, v, rest);
      v := v + [NumAt(rest)];
      rest := Rest(rest, 4);
    }
  }

  /** A node as the stream gives it. */
  datatype Saved = Saved(id: Id, node: Node)

  /** All its lengths fit their fields. */
  ghost predicate Sized(x: Saved) {
    && Fits(|x.id|) && Fits(x.node.level) && Fits(|x.node.vector|) && |x.node.neighbors| == x.node.level + 1
    && ListsFit(x.node.neighbors)
  }

  /** Four runs of fields, read one after the other. */
  lemma ReadsFour(s: seq<byte>, a: seq<Field>, s1: seq<byte>, b: seq<Field>, s2: seq<byte>, c: seq<Field>,
                  s3: seq<byte>, d: seq<Field>, rest: seq<byte>)
    requires Reads(s, a, s1) && Reads(s1, b, s2) && Reads(s2, c, s3) && Reads(s3, d, rest)
    ensures Reads(s, a + (b + (c + d)), rest)
  {
    ReadsCat(s2, c, s3, d, rest);
    ReadsCat(s1, b, s2, c + d, rest);
    ReadsCat(s, a, s1, b + (c + d), rest);
  }

  lemma ReadsTwo(s: seq<byte>)
    ensures Reads(s, [Num(NumAt(s)), Num(NumAt(Rest(s, 4)))], Rest(Rest(s, 4), 4))
  {
    ReadsNum(s);
    ReadsNum(Rest(s, 4));
    ReadsCat(s, [Num(NumAt(s))], Rest(s, 4), [Num(NumAt(Rest(s, 4)))], Rest(Rest(s, 4), 4));
    assert [Num(NumAt(s))] + [Num(NumAt(Rest(s, 4)))] == [Num(NumAt(s)), Num(NumAt(Rest(s, 4)))];
  }

  ghost function SizeFields(x: Saved): seq<Field> {
    [Num(Uint32(x.node.level)), Num(Uint32(|x.node.vector|))]
  }

  lemma NodeIsRead(s: seq<byte>, x: Saved, s1: seq<byte>, s2: seq<byte>, s3: seq<byte>, rest: seq<byte>)
    requires Reads(s, IdFields(x.id), s1) && Reads(s2, VectorFields(x.node.vector), s3)
    requires Reads(s1, [Num(NumAt(s1)), Num(NumAt(Rest(s1, 4)))], s2) && x.node.level == NumAt(s1)
    requires |x.node.vector| == NumAt(Rest(s1, 4)) && Reads(s3, ListsFields(x.node.neighbors), rest)
    ensures Reads(s, NodeFields(x.id, x.node), rest)
  {
    assert SizeFields(x) == [Num(NumAt(s1)), Num(NumAt(Rest(s1, 4)))];
    ReadsFour(s, IdFields(x.id), s1, SizeFields(x), s2, VectorFields(x.node.vector), s3, ListsFields(x.node.neighbors),
              rest);
  }

  /** One turn of the loop over the nodes: a node's ID, level, vector and neighbour lists. */
  method ReadNode(s: seq<byte>) returns (x: Saved, rest: seq<byte>)
    ensures Sized(x) && Reads(s, NodeFields(x.id, x.node), rest)
  {
    var id, afterId := ReadId(s);
    var level: nat, size := NumAt(afterId), NumAt(Rest(afterId, 4));
    ReadsTwo(afterId);
    var afterNumbers := Rest(Rest(afterId, 4), 4);
    var vector, afterVector := ReadVector(afterNumbers, size);
    var neighbors;
    neighbors, rest := ReadLists(afterVector, level + 1);
    x := Saved(id, Node(vector, level, neighbors));
    NodeIsRead(s, x, afterId, afterNumbers, afterVector, rest);
  }

  ghost predicate AllSized(read: seq<Saved>) {
    forall i :: 0 <= i < |read| ==> Sized(read[i])
  }

  function SavedFields(read: seq<Saved>): seq<Field> {
    if read == [] then [] else NodeFields(read[0].id, read[0].node) + SavedFields(read[1..])
  }

  function ReadOrder(read: seq<Saved>): seq<Id> {
    if read == [] then [] else [read[0].id] + ReadOrder(read[1..])
  }

  /** A node read later under the same ID takes the place of an earlier one. */
  function MapOf(read: seq<Saved>): Graph {
    if read == [] then map[] else MapOf(read[..|read| - 1])[read[|read| - 1].id := read[|read| - 1].node]
  }

  lemma {:induction false} SavedMore(read: seq<Saved>, x: Saved)
    ensures SavedFields(read + [x]) == SavedFields(read) + NodeFields(x.id, x.node)
    ensures ReadOrder(read + [x]) == ReadOrder(read) + [x.id]
  {
    if read == [] {
      assert [x][1..] == [];
    } else {
      assert (read + [x])[1..] == read[1..] + [x];
      SavedMore(read[1..], x);
    }
  }

  /** The nodes read so far, and the entry point as the loop leaves it: the node last read under the saved ID. */
  ghost predicate NodesRead(s: seq<byte>, read: seq<Saved>, rest: seq<byte>, nodes: Graph, entryId: Id, e: Option<Id>) {
    && AllSized(read) && Reads(s, SavedFields(read), rest)
    && nodes == MapOf(read) && e == if entryId in ReadOrder(read) then Some(entryId) else None
  }

  lemma NodesReadMore(s: seq<byte>, read: seq<Saved>, mid: seq<byte>, nodes: Graph, entryId: Id, e: Option<Id>,
                      x: Saved, rest: seq<byte>)
    requires NodesRead(s, read, mid, nodes, entryId, e) && Sized(x) && Reads(mid, NodeFields(x.id, x.node), rest)
    ensures NodesRead(s, read + [x], rest, nodes[x.id := x.node], entryId, if x.id == entryId then Some(x.id) else e)
  {
    SavedMore(read, x);
    ReadsCat(s, SavedFields(read), mid, NodeFields(x.id, x.node), rest);
    assert (read + [x])[..|read|] == read;
  }

  method ReadNodes(s: seq<byte>, count: nat, entryId: Id)
    returns (nodes: Graph, entryPoint: Option<Id>, ghost read: seq<Saved>, ghost rest: seq<byte>)
    ensures |read| == count && NodesRead(s, read, rest, nodes, entryId, entryPoint)
  {
    nodes, entryPoint, read := map[], None, [];
    var at := s;
    for i := 0 to count
      invariant |read| == i && NodesRead(s, read, at, nodes, entryId, entryPoint)
    {
      ghost var mid := at;
      var x;
      x, at := ReadNode(at);
      NodesReadMore(s, read, mid, nodes, entryId, entryPoint, x, at);
      nodes := nodes[x.id := x.node];
      entryPoint := if x.id == entryId then Some(x.id) else entryPoint;
      read := read + [x];
    }
    rest := at;
  }

  /** The bytes show this header and these nodes, and the index is made of them. */
  ghost predicate Saw(data: seq<byte>, r: Image, read: seq<Saved>, entryId: Id) {
    && Fits(|read|) && Fits(r.maxLevel) && Fits(r.m) && Fits(r.efConstruct) && Fits(|entryId|)
    && AllSized(read)
    && Sees(data, FrontFields(|read|, r, entryId) + SavedFields(read))
    && r.nodes == MapOf(read) && r.entryPoint == if entryId in ReadOrder(read) then Some(entryId) else None
  }

  lemma FrontParts(count: nat, r: Image, entryId: Id, more: seq<Field>)
    requires Fits(count) && Fits(r.maxLevel) && Fits(r.m) && Fits(r.efConstruct)
    ensures FrontFields(count, r, entryId) + more ==
              [Num(count), Num(r.maxLevel)] + ([Num(r.m), Num(r.efConstruct)] + (IdFields(entryId) + more))
  {
    var a, b := [Num(count), Num(r.maxLevel)], [Num(r.m), Num(r.efConstruct)];
    assert a + b == [Num(count), Num(r.maxLevel), Num(r.m), Num(r.efConstruct)];
    Regroup(a, b, IdFields(entryId), more);
  }

  lemma ReadsFront(s: seq<byte>, read: seq<Saved>, r: Image, entryId: Id, nodesAt: seq<byte>, rest: seq<byte>)
    requires Fits(|read|) && Fits(r.maxLevel) && Fits(r.m) && Fits(r.efConstruct)
    requires |read| == NumAt(s) && r.maxLevel == NumAt(Rest(s, 4))
    requires var s2 := Rest(Rest(s, 4), 4);
             r.m == NumAt(s2) && r.efConstruct == NumAt(Rest(s2, 4))
                 && Reads(Rest(Rest(s2, 4), 4), IdFields(entryId), nodesAt)
    requires Reads(nodesAt, SavedFields(read), rest)
    ensures Sees(s, FrontFields(|read|, r, entryId) + SavedFields(read))
  {
    var s2 := Rest(Rest(s, 4), 4);
    var a, b := [Num(|read|), Num(r.maxLevel)], [Num(r.m), Num(r.efConstruct)];
    ReadsTwo(s);
    ReadsTwo(s2);
    ReadsFour(s, a, s2, b, Rest(Rest(s2, 4), 4), IdFields(entryId), nodesAt, SavedFields(read), rest);
    FrontParts(|read|, r, entryId, SavedFields(read));
  }

  /** Deserialize: the index that the bytes show. */
  method Deserialize(data: seq<byte>) returns (r: Image, ghost read: seq<Saved>, ghost entryId: Id)
    ensures Saw(data, r, read, entryId)
    ensures var s2 := Rest(Rest(data, 4), 4);
            r.maxLevel == NumAt(Rest(data, 4)) && r.m == NumAt(s2) && r.efConstruct == NumAt(Rest(s2, 4))
  {
    var s2 := Rest(Rest(data, 4), 4);
    var nodeCount, maxLevel, m, efConstruct := NumAt(data), NumAt(Rest(data, 4)), NumAt(s2), NumAt(Rest(s2, 4));
    var entry, nodesAt := ReadId(Rest(Rest(s2, 4), 4));
    var nodes, entryPoint;
    ghost var rest;
    nodes, entryPoint, read, rest := ReadNodes(nodesAt, nodeCount, entry);
    r, entryId := Image(nodes, entryPoint, maxLevel, m, efConstruct), entry;
    ReadsFront(data, read, r, entryId, nodesAt, rest);
  }

  lemma SeesNum(s: seq<byte>, n: word, tail: seq<Field>)
    ensures Sees(s, [Num(n)] + tail) <==> NumAt(s) == n && Sees(Rest(s, 4), tail)
  {
    assert ([Num(n)] + tail)[1..] == tail;
  }

  /** Two IDs that the same bytes show are one; likewise lists, vectors and nodes of the same sizes. */
  lemma SameId(s: seq<byte>, a: Id, b: Id)
    requires Fits(|a|) && Fits(|b|) && Sees(s, IdFields(a)) && Sees(s, IdFields(b))
    ensures a == b
  {
    assert IdFields(a) == [Num(|a|)] + [Raw(a)] && IdFields(b) == [Num(|b|)] + [Raw(b)];
    SeesNum(s, |a|, [Raw(a)]);
    SeesNum(s, |b|, [Raw(b)]);
  }

  lemma {:induction false} SameIds(s: seq<byte>, a: seq<Id>, b: seq<Id>)
    requires |a| == |b| && AllFit(a) && AllFit(b) && Sees(s, IdsFields(a)) && Sees(s, IdsFields(b))
    ensures a == b
    decreases |a|
  {
    if a != [] {
      SeesCat(s, IdFields(a[0]), IdsFields(a[1..]));
      SeesCat(s, IdFields(b[0]), IdsFields(b[1..]));
      SameId(s, a[0], b[0]);
      SameIds(After(s, IdFields(a[0])), a[1..], b[1..]);
    }
  }

  lemma SameList(s: seq<byte>, a: seq<Id>, b: seq<Id>)
    requires ListFits(a) && ListFits(b) && Sees(s, ListFields(a)) && Sees(s, ListFields(b))
    ensures a == b
  {
    SeesNum(s, |a|, IdsFields(a));
    SeesNum(s, |b|, IdsFields(b));
    SameIds(Rest(s, 4), a, b);
  }

  lemma {:induction false} SameLists(s: seq<byte>, a: seq<seq<Id>>, b: seq<seq<Id>>)
    requires |a| == |b| && ListsFit(a) && ListsFit(b) && Sees(s, ListsFields(a)) && Sees(s, ListsFields(b))
    ensures a == b
    decreases |a|
  {
    if a != [] {
      SeesCat(s, ListFields(a[0]), ListsFields(a[1..]));
      SeesCat(s, ListFields(b[0]), ListsFields(b[1..]));
      SameList(s, a[0], b[0]);
      SameLists(After(s, ListFields(a[0])), a[1..], b[1..]);
    }
  }

  lemma {:induction false} SameVector(s: seq<byte>, a: Vector, b: Vector)
    requires |a| == |b| && Sees(s, VectorFields(a)) && Sees(s, VectorFields(b))
    ensures a == b
    decreases |a|
  {
    if a != [] {
      SeesNum(s, a[0], VectorFields(a[1..]));
      SeesNum(s, b[0], VectorFields(b[1..]));
      SameVector(Rest(s, 4), a[1..], b[1..]);
    }
  }

  lemma SameNums(s: seq<byte>, a: word, b: word, c: word, d: word)
    requires Sees(s, [Num(a), Num(b)]) && Sees(s, [Num(c), Num(d)])
    ensures a == c && b == d
  {
    assert [Num(a), Num(b)] == [Num(a)] + [Num(b)] && [Num(c), Num(d)] == [Num(c)] + [Num(d)];
    SeesNum(s, a, [Num(b)]);
    SeesNum(s, c, [Num(d)]);
  }

  /** Reading four runs of fields, one after the other. */
  lemma SeesFour(s: seq<byte>, a: seq<Field>, b: seq<Field>, c: seq<Field>, d: seq<Field>)
    ensures var s1, s2, s3 := After(s, a), After(After(s, a), b), After(After(After(s, a), b), c);
            Sees(s, a + (b + (c + d))) <==> Sees(s, a) && Sees(s1, b) && Sees(s2, c) && Sees(s3, d)
  {
    SeesCat(s, a, b + (c + d));
    SeesCat(After(s, a), b, c + d);
    SeesCat(After(After(s, a), b), c, d);
  }

  lemma NodeSeen(s: seq<byte>, x: Saved)
    requires Sees(s, NodeFields(x.id, x.node))
    ensures Sees(s, IdFields(x.id)) && Sees(After(s, IdFields(x.id)), SizeFields(x))
    ensures Sees(After(After(s, IdFields(x.id)), SizeFields(x)), VectorFields(x.node.vector))
    ensures Sees(After(After(After(s, IdFields(x.id)), SizeFields(x)), VectorFields(x.node.vector)),
                 ListsFields(x.node.neighbors))
  {
    SeesFour(s, IdFields(x.id), SizeFields(x), VectorFields(x.node.vector), ListsFields(x.node.neighbors));
  }

  lemma SameHead(s: seq<byte>, x: Saved, y: Saved)
    requires Sized(x) && Sized(y) && Sees(s, IdFields(x.id)) && Sees(After(s, IdFields(x.id)), SizeFields(x))
    requires Sees(s, IdFields(y.id)) && Sees(After(s, IdFields(y.id)), SizeFields(y))
    ensures x.id == y.id && SizeFields(x) == SizeFields(y)
    ensures x.node.level == y.node.level && |x.node.vector| == |y.node.vector|
  {
    SameId(s, x.id, y.id);
    SameNums(After(s, IdFields(x.id)), x.node.level, |x.node.vector|, y.node.level, |y.node.vector|);
  }

  lemma SameNode(s: seq<byte>, x: Saved, y: Saved)
    requires Sized(x) && Sized(y) && Sees(s, NodeFields(x.id, x.node)) && Sees(s, NodeFields(y.id, y.node))
    ensures x == y
  {
    NodeSeen(s, x);
    NodeSeen(s, y);
    SameHead(s, x, y);
    var s2 := After(After(s, IdFields(x.id)), SizeFields(x));
    SameVector(s2, x.node.vector, y.node.vector);
    SameLists(After(s2, VectorFields(x.node.vector)), x.node.neighbors, y.node.neighbors);
  }

  lemma {:induction false} SameNodes(s: seq<byte>, a: seq<Saved>, b: seq<Saved>)
    requires |a| == |b| && AllSized(a) && AllSized(b) && Sees(s, SavedFields(a)) && Sees(s, SavedFields(b))
    ensures a == b
    decreases |a|
  {
    if a != [] {
      SeesCat(s, NodeFields(a[0].id, a[0].node), SavedFields(a[1..]));
      SeesCat(s, NodeFields(b[0].id, b[0].node), SavedFields(b[1..]));
      SameNode(s, a[0], b[0]);
      SameNodes(After(s, NodeFields(a[0].id, a[0].node)), a[1..], b[1..]);
    }
  }

  /** The nodes of a graph in the order they are written. */
  function Picked(g: Graph, order: seq<Id>): seq<Saved>
    requires Members(order) <= g.Keys
  {
    if order == [] then []
    else
      assert order[0] in Members(order) && Members(order[1..]) <= Members(order);
      [Saved(order[0], g[order[0]])] + Picked(g, order[1..])
  }

  lemma {:induction false} PickedFields(g: Graph, order: seq<Id>)
    requires Members(order) <= g.Keys
    ensures SavedFields(Picked(g, order)) == NodesFields(g, order) && ReadOrder(Picked(g, order)) == order
  {
    if order != [] {
      assert order[0] in Members(order) && Members(order[1..]) <= Members(order);
      PickedFields(g, order[1..]);
    }
  }

  /** Every node read is the graph's. */
  ghost predicate From(g: Graph, read: seq<Saved>) {
    forall i :: 0 <= i < |read| ==> read[i].id in g && g[read[i].id] == read[i].node
  }

  lemma {:induction false} PickedFrom(g: Graph, order: seq<Id>)
    requires Members(order) <= g.Keys
    ensures From(g, Picked(g, order)) && |Picked(g, order)| == |order|
  {
    if order != [] {
      assert order[0] in Members(order) && Members(order[1..]) <= Members(order);
      PickedFrom(g, order[1..]);
    }
  }

  lemma {:induction false} ReadOrderAt(read: seq<Saved>)
    ensures |ReadOrder(read)| == |read| && forall i :: 0 <= i < |read| ==> ReadOrder(read)[i] == read[i].id
  {
    if read != [] { ReadOrderAt(read[1..]); }
  }

  lemma {:induction false} KeysOfRead(read: seq<Saved>)
    ensures MapOf(read).Keys == Members(ReadOrder(read))
  {
    if read == [] {
      assert Members([]) == {};
    } else {
      var n := |read| - 1;
      KeysOfRead(read[..n]);
      SavedMore(read[..n], read[n]);
      assert read[..n] + [read[n]] == read;
      assert Members(ReadOrder(read)) == Members(ReadOrder(read[..n])) + {read[n].id};
    }
  }

  lemma {:induction false} MapOfFrom(g: Graph, read: seq<Saved>)
    requires From(g, read)
    ensures forall id :: id in MapOf(read) ==> id in g && MapOf(read)[id] == g[id]
  {
    if read != [] { MapOfFrom(g, read[..|read| - 1]); }
  }

  /** What the writer of s meant, if s is what a reader of that image sees. */
  ghost predicate Shows(s: seq<byte>, image: Image, order: seq<Id>) {
    ImageOk(image) && OrderOf(image.nodes, order) && Sees(s, ImageFields(image, order))
  }

  lemma FrontSeen(s: seq<byte>, count: nat, r: Image, entryId: Id, more: seq<Field>)
    requires Fits(count) && Fits(r.maxLevel) && Fits(r.m) && Fits(r.efConstruct)
    ensures var s1, s2, s3 := Rest(s, 4), Rest(Rest(s, 4), 4), Rest(Rest(Rest(s, 4), 4), 4);
            Sees(s, FrontFields(count, r, entryId) + more) <==>
            NumAt(s) == count && NumAt(s1) == r.maxLevel && NumAt(s2) == r.m && NumAt(s3) == r.efConstruct
            && Sees(Rest(s3, 4), IdFields(entryId)) && Sees(After(Rest(s3, 4), IdFields(entryId)), more)
  {
    var s1, s2, s3 := Rest(s, 4), Rest(Rest(s, 4), 4), Rest(Rest(Rest(s, 4), 4), 4);
    var f4 := [Num(r.efConstruct)] + (IdFields(entryId) + more);
    var f3 := [Num(r.m)] + f4;
    var f2 := [Num(r.maxLevel)] + f3;
    assert FrontFields(count, r, entryId) + more == [Num(count)] + f2;
    SeesNum(s, count, f2);
    SeesNum(s1, r.maxLevel, f3);
    SeesNum(s2, r.m, f4);
    SeesNum(s3, r.efConstruct, IdFields(entryId) + more);
    SeesCat(Rest(s3, 4), IdFields(entryId), more);
  }

  lemma CountOf(g: Graph, order: seq<Id>)
    requires OrderOf(g, order)
    ensures |g| == |order|
  {
    UniqueSize(order);
    assert |g.Keys| == |g|;
  }

  /** Bytes that show an image give that image. */
  lemma ShownIsRead(data: seq<byte>, image: Image, order: seq<Id>, r: Image, read: seq<Saved>, entryId: Id)
    requires Shows(data, image, order) && Saw(data, r, read, entryId)
    ensures r == image
  {
    var g := image.nodes;
    CountOf(g, order);
    PickedFields(g, order);
    PickedFrom(g, order);
    var entry := EntryId(image.entryPoint);
    FrontSeen(data, |g|, image, entry, NodesFields(g, order));
    FrontSeen(data, |read|, r, entryId, SavedFields(read));
    var s4 := Rest(Rest(Rest(Rest(data, 4), 4), 4), 4);
    PickedSized(image, order);
    SameId(s4, entry, entryId);
    SameNodes(After(s4, IdFields(entry)), Picked(g, order), read);
    MapOfAll(g, read, order);
    EntryIsRead(image, order, entryId);
  }

  lemma MapOfAll(g: Graph, read: seq<Saved>, order: seq<Id>)
    requires From(g, read) && ReadOrder(read) == order && Members(order) == g.Keys
    ensures MapOf(read) == g
  {
    KeysOfRead(read);
    MapOfFrom(g, read);
  }

  lemma EntryIsRead(image: Image, order: seq<Id>, entryId: Id)
    requires ImageOk(image) && OrderOf(image.nodes, order) && entryId == EntryId(image.entryPoint)
    ensures image.entryPoint == if entryId in order then Some(entryId) else None
  {
    assert entryId in order <==> entryId in Members(order);
  }

  lemma PickedSized(image: Image, order: seq<Id>)
    requires ImageOk(image) && Members(order) <= image.nodes.Keys
    ensures AllSized(Picked(image.nodes, order)) && Fits(|EntryId(image.entryPoint)|)
  {
    var read := Picked(image.nodes, order);
    PickedFrom(image.nodes, order);
    forall i | 0 <= i < |read| ensures Sized(read[i]) {
      assert NodeFits(read[i].id, image.nodes[read[i].id]);
    }
  }

  /** Saving and loading gives the index back, for any order of the nodes. */
  method SaveAndLoad(image: Image) returns (r: Image)
    ensures ImageOk(image) ==> r == image
  {
    var data, order := Serialize(image);
    SeesAll(ImageFields(image, order));
    ghost var read, entryId;
    r, read, entryId := Deserialize(data);
    if ImageOk(image) { ShownIsRead(data, image, order, r, read, entryId); }
  }
}
