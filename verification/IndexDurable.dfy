/**
 * An index built by insertions alone survives saving and loading: with two
 * nodes or more, each has a link, so its stream is never torn.
 */
module IndexDurable {
  import opened Base
  import opened HnswSearch
  import opened HnswGraph
  import opened HnswInsert
  import opened HnswIndex
  import opened HnswRuns
  import opened IndexCodec
  import opened Pages
  import opened IndexReload
  import opened IndexTorn

  /** With two nodes or more, every node has a link on layer 0. */
  ghost predicate NoneAlone(g: Graph) {
    |g| >= 2 ==> forall id :: id in g ==> ListAt(g, id, 0) != []
  }

  /** Insertion leaves no node alone: the new one has links, and pruning never empties a list. */
  lemma GrownNoneAlone(g: Graph, h: Graph, distance: DistanceFunc, x: Id, vector: Vector, level: nat, e: Option<Id>,
                       m: nat)
    requires 1 <= m && GraphOk(g, m) && NoneAlone(g) && Grown(g, h, distance, x, vector, level, e, m, true)
    requires e.None? ==> g == map[]
    ensures NoneAlone(h)
  {
    GrownComplete(g, h, x);
    if |h| >= 2 {
      var unlinked := g[x := NewNode(vector, level)];
      assert HnswInsert.Linked(unlinked, h, distance, x, 0, Cap(m, 0), true);
      forall id | id in h ensures ListAt(h, id, 0) != [] {
        if id != x { OldNodeKeepsLink(g, h, distance, x, vector, level, m, id); }
      }
    }
  }

  lemma OldNodeKeepsLink(g: Graph, h: Graph, distance: DistanceFunc, x: Id, vector: Vector, level: nat, m: nat, id: Id)
    requires 1 <= m && GraphOk(g, m) && NoneAlone(g) && x !in g && id in g && h.Keys == g.Keys + {x}
    requires SameNodes(g[x := NewNode(vector, level)], h)
    requires HnswInsert.Linked(g[x := NewNode(vector, level)], h, distance, x, 0, Cap(m, 0), true)
    ensures ListAt(h, id, 0) != []
  {
    var unlinked := g[x := NewNode(vector, level)];
    var links := h[x].neighbors[0];
    assert unlinked[id] == g[id];
    if id in links {
      assert Relinked(Vectors(unlinked), distance, id, unlinked[id].neighbors[0], h[id].neighbors[0], x, Cap(m, 0));
    } else {
      assert h[id].neighbors[0] == g[id].neighbors[0];
      assert links[0] in Members(links);
      TwoMembers(g, id, links[0]);
    }
  }

  lemma TwoMembers(g: Graph, a: Id, b: Id)
    requires a in g && b in g && a != b
    ensures |g| >= 2
  {
    assert {a, b} <= g.Keys;
    SubsetSize({a, b}, g.Keys);
    assert |g.Keys| == |g|;
  }

  /** The saved parts of an index. */
  function ImageOf(index: Index): Image
    reads index
  {
    Image(index.nodes, index.entryPoint, index.maxLevel, index.m, index.efConstruct)
  }

  predicate SolidKeys(g: Graph) {
    forall id :: id in g ==> Solid(id)
  }

  lemma NoneAloneNotTorn(image: Image, order: seq<Id>, m: nat)
    requires GraphOk(image.nodes, m) && NoneAlone(image.nodes) && |image.nodes| >= 2 && SolidKeys(image.nodes)
    requires OrderOf(image.nodes, order)
    ensures !Torn(image, order)
  {
    forall id | id in image.nodes ensures IndexReload.Linked(image.nodes[id]) {
      var node := image.nodes[id];
      assert ListAt(image.nodes, id, 0) != [] && node.neighbors[0] != [];
      forall l | 0 <= l < |node.neighbors| ensures SolidIds(node.neighbors[l]) {
        assert LinksOk(image.nodes, id, node.neighbors[l], 2 * m);
        forall i | 0 <= i < |node.neighbors[l]| ensures Solid(node.neighbors[l][i]) {
          assert node.neighbors[l][i] in Members(node.neighbors[l]);
        }
      }
    }
    assert |image.nodes| > 0;
    LinkedNotTorn(image, order);
  }

  /** Insertions into a new index. */
  method Build(ops: seq<Op>, m: nat, efConstruct: nat, distance: DistanceFunc) returns (index: Index)
    requires 1 <= m && 1 <= efConstruct && LevelsOk(ops) && AddOnly(ops)
    ensures fresh(index) && index.Valid() && index.m == m && index.efConstruct == efConstruct
    ensures Vectors(index.nodes) == AfterAll(ops) && NoneAlone(index.nodes)
  {
    index := new Index(m, efConstruct, distance);
    for i := 0 to |ops|
      invariant fresh(index) && index.Valid() && index.m == m && index.efConstruct == efConstruct
                && index.distance == distance
      invariant Vectors(index.nodes) == AfterAll(ops[..i]) && NoneAlone(index.nodes)
    {
      assert ops[..i + 1][..i] == ops[..i] && ops[i] in ops;
      AddOne(index, ops[i]);
      assert AfterAll(ops[..i + 1]) == After(AfterAll(ops[..i]), ops[i]);
    }
    assert ops[..|ops|] == ops;
  }

  method AddOne(index: Index, op: Op)
    requires index.Valid() && op.OpAdd? && op.level <= MAX_LEVEL && NoneAlone(index.nodes)
    requires 1 <= index.m && 1 <= index.efConstruct
    modifies index`nodes, index`entryPoint, index`maxLevel
    ensures index.Valid() && Vectors(index.nodes) == After(old(Vectors(index.nodes)), op) && NoneAlone(index.nodes)
  {
    ghost var g, e := index.nodes, index.entryPoint;
    var ok := index.Add(op.id, op.vector, op.level);
    if ok {
      GrownNoneAlone(g, index.nodes, index.distance, op.id, op.vector, op.level, e, index.m);
    }
  }

  /** Build, save, load: the same index, if it has two nodes or more and no ID ends in a zero byte. */
  method BuildAndReload(s: Storage, crc: Crc, root: nat, ops: seq<Op>, m: nat, efConstruct: nat, distance: DistanceFunc)
    returns (saved: Image, loaded: Option<Image>)
    requires s.Valid() && 1 <= root < |s.pages| && root !in s.freeList
    requires 1 <= m && 1 <= efConstruct && LevelsOk(ops) && AddOnly(ops)
    modifies s
    ensures Vectors(saved.nodes) == AfterAll(ops) && GraphOk(saved.nodes, m)
    ensures EntryOk(saved.nodes, saved.entryPoint, saved.maxLevel)
    ensures loaded.Some? && ImageOk(saved) && |saved.nodes| >= 2 && SolidKeys(saved.nodes) ==> loaded.value == saved
  {
    var index := Build(ops, m, efConstruct, distance);
    saved := ImageOf(index);
    ghost var order;
    loaded, order := PersistAndLoad(s, crc, root, saved);
    if |saved.nodes| >= 2 && SolidKeys(saved.nodes) {
      NoneAloneNotTorn(saved, order, m);
    }
  }
}
