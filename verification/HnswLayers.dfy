/**
 * Whole layers: as long as the nodes of every layer fit beam and lists, each
 * layer links all of them, and a new node is linked to all of them. But a
 * search that starts below a layer does not find it.
 */
module HnswLayers {
  import opened Base
  import opened HnswSearch
  import opened HnswGraph
  import opened HnswSweep
  import opened HnswInsert

  /** The nodes of a layer. */
  function AtLevel(g: Graph, l: nat): set<Id> {
    set id | id in g && g[id].level >= l
  }

  /** Every layer up to the top one links each of its nodes to all others. */
  ghost predicate Whole(g: Graph, top: nat) {
    forall l: nat :: l <= top ==> CompleteOn(g, l, AtLevel(g, l))
  }

  /** The same, and beam and lists have room for one more node on each layer. */
  ghost predicate LayersComplete(g: Graph, top: nat, m: nat, ef: nat) {
    forall l: nat :: l <= top ==> CompleteOn(g, l, AtLevel(g, l)) && |AtLevel(g, l)| <= Min(ef, Cap(m, l))
  }

  lemma Lower(g: Graph, k: nat, l: nat)
    requires k <= l
    ensures AtLevel(g, l) <= AtLevel(g, k)
  {
  }

  /** Graphs that differ in one node without links have the same complete layers. */
  lemma CompleteWith(g: Graph, x: Id, vector: Vector, level: nat, l: nat)
    requires x !in g && CompleteOn(g, l, AtLevel(g, l))
    ensures CompleteOn(g[x := NewNode(vector, level)], l, AtLevel(g, l))
  {
    var k := g[x := NewNode(vector, level)];
    forall a | a in AtLevel(g, l) ensures ListAt(k, a, l) == ListAt(g, a, l) {}
  }

  /** A descent through complete layers stays in them. */
  lemma {:induction false} PathWithin(before: Graph, g: Graph, distance: DistanceFunc, query: Vector, from: nat,
                                      downTo: nat, path: seq<Id>, i: nat)
    requires DescendsBy(g, distance, query, from, downTo, path) && i < |path| && path[0] in AtLevel(before, from)
    requires forall l: nat :: l <= from ==> CompleteOn(g, l, AtLevel(before, l))
    ensures i <= from && path[i] in AtLevel(before, from - i)
  {
    if i > 0 {
      PathWithin(before, g, distance, query, from, downTo, path, i - 1);
      var l := from - (i - 1);
      assert GreedyStep(g, distance, query, l, path[i - 1], path[i]);
      CompleteClosed(g, l, AtLevel(before, l));
      assert {path[i]} <= AtLevel(before, l);
      Lower(before, from - i, l);
    }
  }

  /**
   * Every search of an insertion starts in its layer: above the top layer with
   * the node where the descent ended, which is the entry point there.
   */
  lemma {:induction false} EntriesWithin(before: Graph, g: Graph, h: Graph, distance: DistanceFunc, x: Id, top: nat,
                                         m: nat, ef: nat, start: Id, sweeps: seq<Sweep>, layer: nat)
    requires LinkedBy(g, h, distance, x, m, ef, -1, start, sweeps) && layer < |sweeps|
    requires start in AtLevel(before, Min(g[x].level, top)) && start in g
    requires g[x].level > top ==> g[start].level <= top && |g[start].neighbors| == g[start].level + 1
    requires forall l: nat :: l <= top ==> CompleteOn(g, l, AtLevel(before, l))
    ensures var entries := Members(EntriesAt(sweeps, layer, start));
            entries <= AtLevel(before, Min(layer, top)) && (layer >= top ==> entries <= {start})
    decreases |sweeps| - layer
  {
    var above := layer + 1;
    if above < |sweeps| {
      EntriesWithin(before, g, h, distance, x, top, m, ef, start, sweeps, above);
      var from := Members(EntriesAt(sweeps, above, start));
      assert LinksFrom(g, distance, x, above, m, ef, from, sweeps[above], h[x].neighbors[above]);
      Lower(before, Min(layer, top), Min(above, top));
      Lower(before, Min(layer, top), Min(g[x].level, top));
      if above <= top {
        CompleteClosed(g, above, AtLevel(before, above));
      } else {
        LinkedToEntries(g, distance, x, above, m, ef, from, sweeps[above], h[x].neighbors[above]);
      }
    }
  }

  /** The layers above the new node are as they were. */
  lemma HigherLayers(before: Graph, h: Graph, distance: DistanceFunc, x: Id, vector: Vector, level: nat, m: nat, l: nat,
                     linking: bool)
    requires CompleteOn(before, l, AtLevel(before, l)) && x !in before && level < l
    requires InsertedDownTo(before[x := NewNode(vector, level)], h, distance, x, -1, m, linking)
    ensures CompleteOn(h, l, AtLevel(h, l))
  {
    var g := before[x := NewNode(vector, level)];
    assert AtLevel(h, l) == AtLevel(before, l);
    forall a | a in AtLevel(before, l) ensures ListAt(h, a, l) == ListAt(before, a, l) {
      assert ListAt(h, a, l) == ListAt(g, a, l);
    }
  }

  lemma StartWithin(before: Graph, g: Graph, distance: DistanceFunc, query: Vector, e: Id, top: nat, level: nat,
                    path: seq<Id>)
    requires DescendsBy(g, distance, query, top, level, path) && path[0] == e
    requires e in AtLevel(before, top) && forall l: nat :: l <= top ==> CompleteOn(g, l, AtLevel(before, l))
    ensures path[|path| - 1] in AtLevel(before, Min(level, top)) && (level >= top ==> path[|path| - 1] == e)
  {
    PathWithin(before, g, distance, query, top, level, path, |path| - 1);
  }

  /** Nodes of the layer and of the layers above it, in the graph with the new node. */
  lemma NewAtLevel(before: Graph, h: Graph, x: Id, vector: Vector, level: nat, l: nat)
    requires x !in before && SameNodes(before[x := NewNode(vector, level)], h) && l <= level
    ensures AtLevel(h, l) == AtLevel(before, l) + {x} && x !in AtLevel(before, l)
  {
  }

  /** The layers of the new node: it is linked to everything there, and they stay complete. */
  lemma OwnLayers(before: Graph, g: Graph, h: Graph, distance: DistanceFunc, x: Id, e: Id, top: nat, m: nat, ef: nat,
                  path: seq<Id>, sweeps: seq<Sweep>, l: nat)
    requires LayersComplete(before, top, m, ef) && e in AtLevel(before, top) && before.Keys <= g.Keys && x !in before
    requires forall k: nat :: k <= top ==> CompleteOn(g, k, AtLevel(before, k))
    requires forall a :: a in before ==> g[a].level == before[a].level <= top
    requires GraphOk(g, m) && InsertedBy(g, h, distance, x, e, top, m, ef, path, sweeps)
    requires InsertedDownTo(g, h, distance, x, -1, m, Linking(m, ef)) && l <= top && l <= g[x].level
    ensures Members(h[x].neighbors[l]) == AtLevel(before, l) && CompleteOn(h, l, AtLevel(before, l) + {x})
  {
    StartWithin(before, g, distance, g[x].vector, e, top, g[x].level, path);
    var start := path[|path| - 1];
    EntriesWithin(before, g, h, distance, x, top, m, ef, start, sweeps, l);
    var entries := EntriesAt(sweeps, l, start);
    assert entries[0] in Members(entries);
    LayerStaysComplete(g, h, distance, x, m, ef, l, start, sweeps, AtLevel(before, l));
  }

  /** One more node in complete layers: it is linked to the whole of each layer there was, and they stay complete. */
  lemma LayersStayComplete(before: Graph, h: Graph, distance: DistanceFunc, x: Id, vector: Vector, level: nat, e: Id,
                           top: nat, m: nat, ef: nat, path: seq<Id>, sweeps: seq<Sweep>, l: nat)
    requires LayersComplete(before, top, m, ef) && EntryOk(before, Some(e), top) && x !in before && l <= top
    requires InsertedDownTo(before[x := NewNode(vector, level)], h, distance, x, -1, m, Linking(m, ef))
    requires GraphOk(before[x := NewNode(vector, level)], m)
    requires InsertedBy(before[x := NewNode(vector, level)], h, distance, x, e, top, m, ef, path, sweeps)
    ensures CompleteOn(h, l, AtLevel(h, l))
    ensures l <= level ==> Members(ListAt(h, x, l)) == AtLevel(before, l)
  {
    if l <= level {
      forall k: nat | k <= top ensures CompleteOn(before[x := NewNode(vector, level)], k, AtLevel(before, k)) {
        CompleteWith(before, x, vector, level, k);
      }
      OwnLayers(before, before[x := NewNode(vector, level)], h, distance, x, e, top, m, ef, path, sweeps, l);
      NewAtLevel(before, h, x, vector, level, l);
    } else {
      HigherLayers(before, h, distance, x, vector, level, m, l, Linking(m, ef));
    }
  }

  /**
   * Without complete layers above it that need not be. On its own top layer,
   * if that is complete and has room, the new node is linked to all of it
   * exactly if the descent ended in it; otherwise to none of it.
   */
  lemma TopLayerIff(g: Graph, h: Graph, distance: DistanceFunc, x: Id, e: Id, top: nat, m: nat, ef: nat, path: seq<Id>,
                    sweeps: seq<Sweep>, w: set<Id>)
    requires GraphOk(g, m) && InsertedBy(g, h, distance, x, e, top, m, ef, path, sweeps)
    requires CompleteOn(g, g[x].level, w) && 0 < |w| <= Min(ef, Cap(m, g[x].level)) && w == AtLevel(g, g[x].level) - {x}
    requires path[|path| - 1] in g && path[|path| - 1] != x
    ensures var links := Members(h[x].neighbors[g[x].level]);
            if path[|path| - 1] in w then links == w else links !! w
  {
    var start, l := path[|path| - 1], g[x].level;
    var entries, s, links := EntriesAt(sweeps, l, start), sweeps[l], h[x].neighbors[l];
    assert Members([start]) == {start};
    assert LinksFrom(g, distance, x, l, m, ef, Members(entries), s, links);
    if start in w {
      LinkedToAll(g, distance, x, l, m, ef, Members(entries), s, links, w);
    } else {
      LinkedToEntries(g, distance, x, l, m, ef, Members(entries), s, links);
    }
  }

  /** Two nodes, of which the lower one is linked only on the layers that the higher one has besides. */
  function LowAndHigh(a: Id, va: Vector, b: Id, vb: Vector): Graph {
    map[a := Node(va, 0, [[b]]), b := Node(vb, 2, [[a], [], [a]])]
  }

  /** Such a graph meets all invariants, and its layer 1 is complete, with b alone on it. */
  lemma LowAndHighOk(a: Id, va: Vector, b: Id, vb: Vector, m: nat)
    requires a != b && 1 <= m
    ensures GraphOk(LowAndHigh(a, va, b, vb), m) && EntryOk(LowAndHigh(a, va, b, vb), Some(b), 2)
    ensures AtLevel(LowAndHigh(a, va, b, vb), 1) == {b} && CompleteOn(LowAndHigh(a, va, b, vb), 1, {b})
  {
    assert Members([a]) == {a} && Members([b]) == {b} && Members([]) == {};
  }

  /** A step on layer 2 from b, when a is nearer, goes to a. */
  lemma StepsDown(g: Graph, distance: DistanceFunc, query: Vector, a: Id, b: Id, next: Id)
    requires a in g && b in g && ListAt(g, b, 2) == [a] && ListAt(g, a, 2) == []
    requires 0.0 <= distance(query, g[a].vector) < distance(query, g[b].vector)
    requires GreedyStep(g, distance, query, 2, b, next)
    ensures next == a
  {
    assert Members([a]) == {a} && Members([]) == {};
    assert Closed(g, 2, {a, b}) && {next} <= {a, b};
    assert a in Members(ListAt(g, b, 2));
  }

  /**
   * A new node of level 1 that is nearer to a is not linked to b on layer 1,
   * however wide the beam: the descent leaves the layer through a.
   */
  lemma LowStartMisses(h: Graph, distance: DistanceFunc, a: Id, va: Vector, b: Id, vb: Vector, x: Id, vx: Vector,
                       m: nat, ef: nat, path: seq<Id>, sweeps: seq<Sweep>)
    requires a != b && a != x && b != x && 0.0 <= distance(vx, va) < distance(vx, vb)
    requires InsertedBy(LowAndHigh(a, va, b, vb)[x := NewNode(vx, 1)], h, distance, x, b, 2, m, ef, path, sweeps)
    ensures b !in h[x].neighbors[1]
  {
    var g := LowAndHigh(a, va, b, vb)[x := NewNode(vx, 1)];
    assert GreedyStep(g, distance, vx, 2, path[0], path[1]);
    StepsDown(g, distance, vx, a, b, path[1]);
    FromLowOnly(g, h, distance, x, m, ef, a, sweeps);
    assert b !in Members(h[x].neighbors[1]);
  }

  lemma FromLowOnly(g: Graph, h: Graph, distance: DistanceFunc, x: Id, m: nat, ef: nat, a: Id, sweeps: seq<Sweep>)
    requires LinkedBy(g, h, distance, x, m, ef, -1, a, sweeps) && |sweeps| == 2 && a in g && ListAt(g, a, 1) == []
    ensures Members(h[x].neighbors[1]) <= {a}
  {
    var entries := EntriesAt(sweeps, 1, a);
    assert Members([a]) == {a};
    assert LinksFrom(g, distance, x, 1, m, ef, Members(entries), sweeps[1], h[x].neighbors[1]);
    LinkedToEntries(g, distance, x, 1, m, ef, Members(entries), sweeps[1], h[x].neighbors[1]);
  }
}
