/**
 * What insertNode leaves behind, layer by layer.
 */
module HnswInsert {
  import opened Base
  import opened HnswHeap
  import opened HnswSearch
  import opened HnswGraph
  import opened HnswSweep

  function NewNode(vector: Vector, level: nat): Node {
    Node(vector, level, seq(level + 1, _ => []))
  }

  /** From g to h, x got its list at the layer and each listed node was linked back. */
  ghost predicate LayerDone(g: Graph, h: Graph, distance: DistanceFunc, x: Id, layer: nat, cap: nat) {
    && SameNodes(g, h) && x in g && layer < |g[x].neighbors|
    && LinkedBack(WithList(g, x, layer, h[x].neighbors[layer]), h, distance, x, layer, cap,
                  Members(h[x].neighbors[layer]))
  }

  /** An index with room for no link, or a beam of no width, links nothing. */
  predicate Linking(m: nat, ef: nat) {
    1 <= m && 1 <= ef
  }

  /** The final lists of one layer, compared with those before x was inserted. */
  ghost predicate Linked(g: Graph, h: Graph, distance: DistanceFunc, x: Id, layer: nat, cap: nat, linking: bool)
    requires SameNodes(g, h) && x in g && layer < |g[x].neighbors|
  {
    var links := h[x].neighbors[layer];
    && (links != [] <==> linking) && LinksOk(g, x, links, cap)
    && forall id :: id in g && id != x && layer < |g[id].neighbors| ==>
         if id in links
         then Relinked(Vectors(g), distance, id, g[id].neighbors[layer], h[id].neighbors[layer], x, cap)
         else h[id].neighbors[layer] == g[id].neighbors[layer]
  }

  /** Layers from x's level down to above lc have been linked; the others are as before. */
  ghost predicate InsertedDownTo(g: Graph, h: Graph, distance: DistanceFunc, x: Id, lc: int, m: nat, linking: bool) {
    && SameNodes(g, h) && x in g && |g[x].neighbors| == g[x].level + 1 && -1 <= lc <= g[x].level
    && (forall l: nat :: lc < l <= g[x].level ==> Linked(g, h, distance, x, l, Cap(m, l), linking))
    && (forall id, l: nat :: id in g && (l <= lc || g[x].level < l) ==> ListAt(h, id, l) == ListAt(g, id, l))
  }

  lemma SameVectors(g: Graph, h: Graph)
    requires SameNodes(g, h)
    ensures Vectors(g) == Vectors(h)
  {
  }

  lemma InsertedStep(g: Graph, h: Graph, h': Graph, distance: DistanceFunc, x: Id, lc: nat, m: nat, linking: bool)
    requires InsertedDownTo(g, h, distance, x, lc, m, linking) && LayerDone(h, h', distance, x, lc, Cap(m, lc))
    requires (h'[x].neighbors[lc] != [] <==> linking) && LinksOk(g, x, h'[x].neighbors[lc], Cap(m, lc))
    ensures InsertedDownTo(g, h', distance, x, lc - 1, m, linking)
  {
    var h1 := WithList(h, x, lc, h'[x].neighbors[lc]);
    SameVectors(g, h);
    SameVectors(h, h1);
    forall id, l: nat | id in g && l != lc ensures ListAt(h', id, l) == ListAt(h, id, l) {
      assert l < |g[id].neighbors| ==> h'[id].neighbors[l] == h1[id].neighbors[l];
    }
    assert Linked(g, h', distance, x, lc, Cap(m, lc), linking) by {
      forall id | id in g && id != x && lc < |g[id].neighbors|
        ensures if id in h'[x].neighbors[lc]
                then Relinked(Vectors(g), distance, id, g[id].neighbors[lc], h'[id].neighbors[lc], x, Cap(m, lc))
                else h'[id].neighbors[lc] == g[id].neighbors[lc]
      {
        assert ListAt(h, id, lc) == ListAt(g, id, lc);
      }
    }
    forall l: nat | lc - 1 < l <= g[x].level ensures Linked(g, h', distance, x, l, Cap(m, l), linking) {
      if l != lc {
        assert Linked(g, h, distance, x, l, Cap(m, l), linking);
        assert ListAt(h', x, l) == ListAt(h, x, l);
        forall id | id in g && id != x && l < |g[id].neighbors| ensures h'[id].neighbors[l] == h[id].neighbors[l] {
          assert ListAt(h', id, l) == ListAt(h, id, l);
        }
      }
    }
  }

  /** Adding the unlinked node keeps the graph well formed, and nothing links to it yet. */
  lemma FreshNodeOk(g: Graph, x: Id, vector: Vector, level: nat, m: nat)
    requires GraphOk(g, m) && x !in g && level <= MAX_LEVEL
    ensures var h := g[x := NewNode(vector, level)];
            && GraphOk(h, m) && (forall l: nat :: NoLinksTo(h, x, l) && ListAt(h, x, l) == [])
            && (AddOnlyDegrees(g, m) ==> AddOnlyDegrees(h, m))
            && (CompleteOn(g, 0, g.Keys) ==> CompleteOn(h, 0, h.Keys - {x}))
  {
    var h := g[x := NewNode(vector, level)];
    forall id, l: nat | id in h && l <= h[id].level ensures LinksOk(h, id, h[id].neighbors[l], 2 * m) {
      if id != x { assert LinksOk(g, id, g[id].neighbors[l], 2 * m); }
    }
    forall id, l: nat | id in h ensures x !in ListAt(h, id, l) {
      if id != x && l < |h[id].neighbors| {
        assert LinksOk(g, id, g[id].neighbors[l], 2 * m);
        assert forall a :: a in g[id].neighbors[l] ==> a in Members(g[id].neighbors[l]);
      }
    }
    assert h.Keys - {x} == g.Keys;
    forall a | a in g ensures ListAt(h, a, 0) == ListAt(g, a, 0) {
    }
  }

  /** What a search returns is part of what it evaluated. */
  lemma HitsOfSearch(g: Graph, distance: DistanceFunc, query: Vector, r: seq<Hit>, ev: seq<Hit>, ef: nat)
    requires TopOf(multiset(r), multiset(ev), ef) && UniqueHits(ev) && Evaluated(g, distance, query, ev)
    ensures UniqueHits(r) && IdsOf(r) <= IdsOf(ev) && Evaluated(g, distance, query, r)
  {
    PartUnique(r, ev);
    forall h | h in r ensures h in ev { assert h in multiset(r); }
  }

  /** One neighbour gets the link back to x and is pruned if its list is too long. */
  method LinkTo(ghost g: Graph, h: Graph, distance: DistanceFunc, x: Id, layer: nat, m: nat, id: Id,
                ghost done: set<Id>)
    returns (k: Graph)
    requires GraphOk(g, m) && x in g && NoLinksTo(g, x, layer) && id != x && id !in done
    requires LinkedBack(g, h, distance, x, layer, Cap(m, layer), done)
    ensures LinkedBack(g, k, distance, x, layer, Cap(m, layer), done + {id})
  {
    k := h;
    if id in h && layer < |h[id].neighbors| {
      assert LinksOk(g, id, g[id].neighbors[layer], 2 * m);
      assert x !in ListAt(g, id, layer);
      AppendUnique(g[id].neighbors[layer], x);
      SameVectors(g, h);
      var links := h[id].neighbors[layer] + [x];
      var maxConn := Cap(m, layer);
      if |links| > maxConn {
        links := Prune(h, distance, id, links, maxConn);
      }
      k := WithList(h, id, layer, links);
      LinkedBackStep(g, h, k, distance, x, layer, maxConn, done, id, links);
    } else {
      LinkedBackSkip(g, h, distance, x, layer, Cap(m, layer), done, id);
    }
  }

  /** Every chosen neighbour is linked back to x. */
  method LinkBack(g: Graph, distance: DistanceFunc, x: Id, layer: nat, m: nat, links: seq<Id>) returns (h: Graph)
    requires GraphOk(g, m) && x in g && NoLinksTo(g, x, layer) && Unique(links) && x !in links
    ensures LinkedBack(g, h, distance, x, layer, Cap(m, layer), Members(links))
  {
    h := g;
    for i := 0 to |links|
      invariant LinkedBack(g, h, distance, x, layer, Cap(m, layer), Members(links[..i]))
    {
      MembersSnoc(links, i);
      h := LinkTo(g, h, distance, x, layer, m, links[i], Members(links[..i]));
    }
    assert links[..|links|] == links;
  }

  /** Only the list of x differs, and nothing linked to x before. */
  lemma OwnListOk(g: Graph, x: Id, layer: nat, links: seq<Id>, m: nat)
    requires GraphOk(g, m) && x in g && layer <= g[x].level && NoLinksTo(g, x, layer)
    requires LinksOk(g, x, links, Cap(m, layer))
    ensures var h := WithList(g, x, layer, links);
            && GraphOk(h, m) && NoLinksTo(h, x, layer) && SameNodes(g, h)
            && (AddOnlyDegrees(g, m) ==> AddOnlyDegrees(h, m))
  {
    var h := WithList(g, x, layer, links);
    forall id, l: nat | id in h && l <= h[id].level ensures LinksOk(h, id, h[id].neighbors[l], 2 * m) {
      assert LinksOk(g, id, g[id].neighbors[l], 2 * m);
    }
    forall id | id in h ensures x !in ListAt(h, id, layer) {
      assert x !in ListAt(g, id, layer);
    }
  }

  /** The search of one layer for the neighbours of x; P holds of every such search. */
  method SearchFor(g: Graph, distance: DistanceFunc, x: Id, layer: nat, m: nat, ef: nat, entries: seq<Id>,
                   ghost P: Finding)
    returns (hits: seq<Hit>, ghost s: Sweep)
    requires GraphOk(g, m) && x in g && NoLinksTo(g, x, layer)
    requires Unique(entries) && entries != [] && Members(entries) <= g.Keys - {x}
    requires ExplainsAt(g, distance, x, ef, P, layer, entries)
    ensures P(layer, entries, s) && IdsAre(s.hits, hits)
    ensures Unique(s.hits) && Members(s.hits) <= g.Keys - {x} && (hits == [] <==> ef == 0)
  {
    ClosedWithout(g, m, layer, x);
    ghost var ev;
    hits, ev, s := Sweeping(g, distance, g[x].vector, entries, ef, layer, g.Keys - {x}, 2 * m);
    SomethingGiven(g, distance, g[x].vector, ef, entries, s);
  }

  lemma SomethingGiven(g: Graph, distance: DistanceFunc, query: Vector, ef: nat, entries: seq<Id>, s: Sweep)
    requires NearestOf(g, distance, query, ef, s) && entries != [] && Members(entries) <= s.looked
    ensures s.hits == [] <==> ef == 0
  {
    assert entries[0] in s.looked;
  }

  lemma FirstHitsOk(g: Graph, x: Id, s: Sweep, cap: nat, links: seq<Id>)
    requires FirstHits(links, s, cap) && Unique(s.hits) && Members(s.hits) <= g.Keys - {x}
    ensures LinksOk(g, x, links, cap)
  {
    forall id | id in links ensures id in Members(s.hits) {}
  }

  /** x gets its list at the layer, and every listed node is linked back. */
  method LinkBoth(g: Graph, distance: DistanceFunc, x: Id, layer: nat, m: nat, links: seq<Id>) returns (h: Graph)
    requires GraphOk(g, m) && x in g && layer <= g[x].level && NoLinksTo(g, x, layer)
    requires LinksOk(g, x, links, Cap(m, layer))
    ensures GraphOk(h, m) && (AddOnlyDegrees(g, m) ==> AddOnlyDegrees(h, m))
    ensures LayerDone(g, h, distance, x, layer, Cap(m, layer)) && h[x].neighbors[layer] == links
  {
    OwnListOk(g, x, layer, links, m);
    var own := WithList(g, x, layer, links);
    h := LinkBack(own, distance, x, layer, m, links);
    assert x !in Members(links);
    LinkedBackOk(own, h, distance, x, layer, m, Members(links));
  }

  /** One layer of insertNode: search, choose, link both ways, prune. */
  method InsertAt(g: Graph, distance: DistanceFunc, x: Id, layer: nat, m: nat, ef: nat, entries: seq<Id>,
                  ghost P: Finding)
    returns (h: Graph, hits: seq<Hit>, ghost s: Sweep)
    requires GraphOk(g, m) && x in g && layer <= g[x].level && NoLinksTo(g, x, layer)
    requires Unique(entries) && entries != [] && Members(entries) <= g.Keys - {x}
    requires ExplainsAt(g, distance, x, ef, P, layer, entries)
    ensures GraphOk(h, m) && (AddOnlyDegrees(g, m) ==> AddOnlyDegrees(h, m))
    ensures LayerDone(g, h, distance, x, layer, Cap(m, layer))
    ensures LinksOk(g, x, h[x].neighbors[layer], Cap(m, layer))
    ensures P(layer, entries, s) && FirstHits(h[x].neighbors[layer], s, Cap(m, layer))
    ensures IdsAre(s.hits, hits) && Unique(s.hits) && Members(s.hits) <= g.Keys - {x} && (hits == [] <==> ef == 0)
  {
    hits, s := SearchFor(g, distance, x, layer, m, ef, entries, P);
    var links := SelectNeighbors(hits, Cap(m, layer));
    assert FirstHits(links, s, Cap(m, layer));
    FirstHitsOk(g, x, s, Cap(m, layer), links);
    h := LinkBoth(g, distance, x, layer, m, links);
  }

  /** No layer has a link out of the set, or more links than the degree. */
  ghost predicate Confined(g: Graph, within: set<Id>, degree: nat) {
    forall l: nat :: Closed(g, l, within) && DegreesAt(g, l, degree)
  }

  /**
   * One greedy step of a descent: to the nearest of the links, unless the
   * distance is negative, when the early exit keeps it where it is.
   */
  method NearestAt(g: Graph, distance: DistanceFunc, query: Vector, start: Id, layer: nat, ghost within: set<Id>,
                   ghost degree: nat)
    returns (best: Id, ghost evaluations: nat)
    requires start in within * g.Keys && Confined(g, within, degree)
    ensures best in within * g.Keys && GreedyStep(g, distance, query, layer, start, best)
    ensures evaluations <= 1 + 3 * degree && (degree == 0 ==> best == start)
    ensures BeatsLinks(g, distance, query, best, start, layer) <==>
            distance(query, g[start].vector) >= 0.0 || BeatsLinks(g, distance, query, start, start, layer)
  {
    best := start;
    assert Closed(g, layer, within) && Members([start]) == {start};
    var r;
    ghost var ev, s;
    r, ev, s := Sweeping(g, distance, query, [start], 1, layer, within, degree);
    evaluations := |ev|;
    StepIsGreedy(g, distance, query, start, layer, ev, s);
    if |ev| == 1 { OneLookedAt(ev, s, start); }
    if |r| > 0 {
      best := r[0].id;
    }
  }

  lemma OneLookedAt(ev: seq<Hit>, s: Sweep, start: Id)
    requires |ev| == 1 && s.looked == IdsOf(ev) && start in s.looked && |s.hits| == 1 && Members(s.hits) <= s.looked
    ensures s.hits[0] == start
  {
    assert ev == [ev[0]];
    assert s.hits[0] in Members(s.hits);
  }

  lemma StepIsGreedy(g: Graph, distance: DistanceFunc, query: Vector, start: Id, layer: nat, ev: seq<Hit>, s: Sweep)
    requires LooksOnIff(g, distance, query, layer, start, ev) && s.looked == IdsOf(ev)
    requires Swept(g, distance, query, layer, 1, {start}, s)
    ensures |s.hits| == 1 && s.hits[0] in s.looked && GreedyStep(g, distance, query, layer, start, s.hits[0])
    ensures BeatsLinks(g, distance, query, s.hits[0], start, layer) <==>
            distance(query, g[start].vector) >= 0.0 || BeatsLinks(g, distance, query, start, start, layer)
  {
    var best := FirstOfSweep(g, distance, query, layer, start, s);
    forall n | n in s.looked ensures NoFartherThan(g, distance, query, best, n) {
      assert best in s.hits;
      assert n in s.hits ==> n == best;
    }
    assert OnlyReached(g, layer, {start}, {best}) by {
      forall w: set<Id> | Closed(g, layer, w) && {start} <= w ensures {best} <= w { assert s.looked <= w; }
    }
    LinksBeaten(g, distance, query, start, layer, ev, best);
  }

  lemma LinksBeaten(g: Graph, distance: DistanceFunc, query: Vector, start: Id, layer: nat, ev: seq<Hit>, best: Id)
    requires LooksOnIff(g, distance, query, layer, start, ev) && best in IdsOf(ev)
    requires forall n :: n in IdsOf(ev) ==> NoFartherThan(g, distance, query, best, n)
    requires start in IdsOf(ev)
    ensures IsNegative(g, distance, query, start) ==> best == start
    ensures distance(query, g[start].vector) >= 0.0 ==> BeatsLinks(g, distance, query, best, start, layer)
    ensures !IsNegative(g, distance, query, start) || BeatsLinks(g, distance, query, start, start, layer) <==>
            BeatsLinks(g, distance, query, best, start, layer)
  {
    if distance(query, g[start].vector) >= 0.0 {
      forall n | n in Members(ListAt(g, start, layer)) && n in g ensures n in IdsOf(ev) {
        assert n in Members(ListAt(g, start, layer)) * g.Keys;
      }
    }
  }

  lemma FirstOfSweep(g: Graph, distance: DistanceFunc, query: Vector, layer: nat, start: Id, s: Sweep)
    returns (best: Id)
    requires Swept(g, distance, query, layer, 1, {start}, s)
    ensures s.hits == [best] && best in s.looked && best in g
  {
    assert start in s.looked && |s.looked| >= 1;
    best := s.hits[0];
    assert best in Members(s.hits);
  }

  lemma DescentBound(layers: nat, degree: nat)
    requires layers <= MAX_LEVEL
    ensures Times(layers, 1 + 3 * degree) <= 16 + 48 * degree
  {
    TimesGrows(layers, MAX_LEVEL, 1 + 3 * degree);
    TimesIs(MAX_LEVEL, 1 + 3 * degree);
  }

  /**
   * The greedy descent that insertion and querying share: layer by layer, the
   * nearest node found so far. It never gets farther from the query, and from
   * a negative distance it never gets anywhere.
   */
  method Descend(g: Graph, distance: DistanceFunc, query: Vector, start: Id, from: nat, downTo: nat,
                 ghost within: set<Id>, ghost degree: nat)
    returns (best: Id, ghost evaluations: nat, ghost path: seq<Id>)
    requires start in within * g.Keys && Confined(g, within, degree) && from <= MAX_LEVEL
    ensures DescendsBy(g, distance, query, from, downTo, path) && path[0] == start && path[|path| - 1] == best
    ensures best in within * g.Keys && distance(query, g[best].vector) <= distance(query, g[start].vector)
    ensures evaluations <= 16 + 48 * degree && (degree == 0 ==> best == start)
    ensures distance(query, g[start].vector) < 0.0 ==> best == start
  {
    best, evaluations, path := start, 0, [start];
    var level: nat := from;
    while level > downTo
      invariant DescendsBy(g, distance, query, from, level, path) && path[0] == start && path[|path| - 1] == best
      invariant level <= from && (downTo <= level || level == from)
      invariant best in within * g.Keys && distance(query, g[best].vector) <= distance(query, g[start].vector)
      invariant evaluations <= Times(from - level, 1 + 3 * degree) && (degree == 0 ==> best == start)
      invariant distance(query, g[start].vector) < 0.0 ==> best == start
    {
      ghost var n;
      best, n := NearestAt(g, distance, query, best, level, within, degree);
      DescendMore(g, distance, query, from, level, path, best);
      evaluations, path := evaluations + n, path + [best];
      level := level - 1;
    }
    DescentBound(from - level, degree);
  }

  /** On every layer above lc the first link of x is no farther from x than e is. */
  ghost predicate NoFarther(h: Graph, distance: DistanceFunc, x: Id, e: Id, lc: int) {
    && x in h && e in h
    && forall l: nat :: lc < l < |h[x].neighbors| ==>
         && h[x].neighbors[l] != [] && h[x].neighbors[l][0] in h
         && distance(h[x].vector, h[h[x].neighbors[l][0]].vector) <= distance(h[x].vector, h[e].vector)
  }

  /** Where insertNode stands after the layers above lc. */
  ghost predicate Inserting(g: Graph, h: Graph, distance: DistanceFunc, x: Id, lc: int, m: nat, entries: seq<Id>,
                            linking: bool)
  {
    && InsertedDownTo(g, h, distance, x, lc, m, linking)
    && GraphOk(h, m) && (AddOnlyDegrees(g, m) ==> AddOnlyDegrees(h, m))
    && Unique(entries) && entries != [] && Members(entries) <= g.Keys - {x}
  }

  lemma UntouchedBelow(g: Graph, h: Graph, distance: DistanceFunc, x: Id, lc: nat, m: nat, linking: bool)
    requires InsertedDownTo(g, h, distance, x, lc, m, linking) && NoLinksTo(g, x, lc)
    ensures NoLinksTo(h, x, lc) && SameLayer(g, h, lc)
  {
    forall id | id in h ensures x !in ListAt(h, id, lc) {
      assert ListAt(h, id, lc) == ListAt(g, id, lc) && x !in ListAt(g, id, lc);
    }
  }

  lemma NextStart(sweeps: seq<Sweep>, lc: nat, ef: nat, start: Id, entries: seq<Id>, s: Sweep, next: seq<Id>)
    requires (ef == 0 ==> entries == [start]) && lc < |sweeps| && (ef == 0 <==> s.hits == [])
    requires next == if s.hits == [] then entries else s.hits
    ensures (ef == 0 ==> next == [start]) && next == EntriesAt(sweeps[lc := s], lc - 1, start)
  {
  }

  lemma LinkedOneMore(P: Finding, h: Graph, k: Graph, distance: DistanceFunc, x: Id, m: nat, lc: nat, start: Id,
                      sweeps: seq<Sweep>, s: Sweep)
    requires LinkedAs(P, h, x, m, lc, start, sweeps) && lc < |sweeps| && LayerDone(h, k, distance, x, lc, Cap(m, lc))
    requires P(lc, EntriesAt(sweeps, lc, start), s) && FirstHits(k[x].neighbors[lc], s, Cap(m, lc))
    ensures LinkedAs(P, k, x, m, lc - 1, start, sweeps[lc := s])
  {
    forall l | lc < l < |sweeps| ensures k[x].neighbors[l] == h[x].neighbors[l] {
      assert WithList(h, x, lc, k[x].neighbors[lc])[x].neighbors[l] == h[x].neighbors[l];
    }
    LinkedMore(P, h, k, x, m, lc, start, sweeps, s);
  }

  /** One turn of the insertion loop. */
  method InsertLayer(g: Graph, h: Graph, distance: DistanceFunc, x: Id, lc: nat, m: nat, ef: nat, entries: seq<Id>,
                     ghost P: Finding, ghost start: Id, ghost sweeps: seq<Sweep>)
    returns (k: Graph, next: seq<Id>, ghost sweeps': seq<Sweep>)
    requires Inserting(g, h, distance, x, lc, m, entries, Linking(m, ef)) && NoLinksTo(g, x, lc)
    requires Explains(g, distance, x, ef)(P) && LinkedAs(P, h, x, m, lc, start, sweeps)
    requires (ef == 0 ==> entries == [start]) && entries == EntriesAt(sweeps, lc, start)
    ensures Inserting(g, k, distance, x, lc - 1, m, next, Linking(m, ef))
    ensures LinkedAs(P, k, x, m, lc - 1, start, sweeps')
    ensures (ef == 0 ==> next == [start]) && next == EntriesAt(sweeps', lc - 1, start)
  {
    UntouchedBelow(g, h, distance, x, lc, m, Linking(m, ef));
    ExplainedAt(g, h, distance, x, ef, P, lc, entries);
    var hits;
    ghost var s;
    k, hits, s := InsertAt(h, distance, x, lc, m, ef, entries, P);
    next := entries;
    if |hits| > 0 {
      next := SelectNeighbors(hits, |hits|);
      assert next == s.hits;
    }
    InsertedStep(g, h, k, distance, x, lc, m, Linking(m, ef));
    LinkedOneMore(P, h, k, distance, x, m, lc, start, sweeps, s);
    NextStart(sweeps, lc, ef, start, entries, s, next);
    sweeps' := sweeps[lc := s];
  }

  /** The insertion loop: every layer of x from the top down. */
  method InsertLayers(g: Graph, distance: DistanceFunc, x: Id, start: Id, m: nat, ef: nat, ghost P: Finding)
    returns (h: Graph, ghost sweeps: seq<Sweep>)
    requires x in g && Inserting(g, g, distance, x, g[x].level, m, [start], Linking(m, ef))
    requires (forall l: nat :: NoLinksTo(g, x, l)) && Explains(g, distance, x, ef)(P)
    ensures InsertedDownTo(g, h, distance, x, -1, m, Linking(m, ef))
    ensures GraphOk(h, m) && (AddOnlyDegrees(g, m) ==> AddOnlyDegrees(h, m))
    ensures LinkedAs(P, h, x, m, -1, start, sweeps)
  {
    var entries := [start];
    h, sweeps := g, seq(g[x].level + 1, _ => Sweep({}, []));
    for lc := g[x].level + 1 downto 0
      invariant Inserting(g, h, distance, x, lc - 1, m, entries, Linking(m, ef))
      invariant LinkedAs(P, h, x, m, lc - 1, start, sweeps)
      invariant ef == 0 ==> entries == [start]
      invariant entries == EntriesAt(sweeps, lc - 1, start)
    {
      h, entries, sweeps := InsertLayer(g, h, distance, x, lc, m, ef, entries, P, start, sweeps);
    }
  }

  ghost function FindingOf(g: Graph, distance: DistanceFunc, x: Id, ef: nat): Finding
    requires x in g
  {
    (l: nat, es: seq<Id>, s: Sweep) => Swept(g, distance, g[x].vector, l, ef, Members(es), s) && x !in s.looked
  }

  lemma FindingExplains(g: Graph, distance: DistanceFunc, x: Id, ef: nat)
    requires x in g
    ensures Explains(g, distance, x, ef)(FindingOf(g, distance, x, ef))
  {
  }

  lemma FoundBy(g: Graph, h: Graph, distance: DistanceFunc, x: Id, m: nat, ef: nat, start: Id, sweeps: seq<Sweep>)
    requires x in g && SameNodes(g, h) && |h[x].neighbors| == g[x].level + 1
    requires LinkedAs(FindingOf(g, distance, x, ef), h, x, m, -1, start, sweeps)
    ensures LinkedBy(g, h, distance, x, m, ef, -1, start, sweeps)
  {
    var P := FindingOf(g, distance, x, ef);
    forall l: nat | l < |sweeps|
      ensures LinksFrom(g, distance, x, l, m, ef, Members(EntriesAt(sweeps, l, start)), sweeps[l], h[x].neighbors[l])
    {
      assert P(l, EntriesAt(sweeps, l, start), sweeps[l]);
    }
  }

  /** insertNode: x, already in the graph and linked to nothing, gets its links on every layer. */
  method InsertNode(g: Graph, distance: DistanceFunc, x: Id, e: Id, maxLevel: nat, m: nat, ef: nat)
    returns (h: Graph, ghost path: seq<Id>, ghost sweeps: seq<Sweep>)
    requires GraphOk(g, m) && x in g && e in g && e != x && maxLevel <= MAX_LEVEL
    requires forall l: nat :: NoLinksTo(g, x, l)
    ensures InsertedBy(g, h, distance, x, e, maxLevel, m, ef, path, sweeps) && path[|path| - 1] in g.Keys - {x}
    ensures GraphOk(h, m) && (AddOnlyDegrees(g, m) ==> AddOnlyDegrees(h, m))
    ensures InsertedDownTo(g, h, distance, x, -1, m, Linking(m, ef))
  {
    forall l: nat ensures Closed(g, l, g.Keys - {x}) && DegreesAt(g, l, 2 * m) { ClosedWithout(g, m, l, x); }
    var start, _, p := Descend(g, distance, g[x].vector, e, maxLevel, g[x].level, g.Keys - {x}, 2 * m);
    path := p;
    assert Members([start]) == {start};
    ghost var P := FindingOf(g, distance, x, ef);
    FindingExplains(g, distance, x, ef);
    h, sweeps := InsertLayers(g, distance, x, start, m, ef, P);
    FoundBy(g, h, distance, x, m, ef, start, sweeps);
  }

  /** What Add does to the graph: one more node, linked into what was there. */
  ghost predicate Grown(g: Graph, h: Graph, distance: DistanceFunc, x: Id, vector: Vector, level: nat, e: Option<Id>,
                        m: nat, linking: bool)
  {
    && x !in g && h.Keys == g.Keys + {x} && Vectors(h) == Vectors(g)[x := vector]
    && h[x].level == level && (forall id :: id in g ==> h[id].level == g[id].level)
    && (e.Some? ==> InsertedDownTo(g[x := NewNode(vector, level)], h, distance, x, -1, m, linking))
    && (e.Some? && linking ==> NoFarther(h, distance, x, e.value, -1))
  }

  lemma GrownIs(g: Graph, h: Graph, distance: DistanceFunc, x: Id, vector: Vector, level: nat, e: Id, m: nat,
                linking: bool)
    requires x !in g && InsertedDownTo(g[x := NewNode(vector, level)], h, distance, x, -1, m, linking)
    requires linking ==> NoFarther(h, distance, x, e, -1)
    ensures Grown(g, h, distance, x, vector, level, Some(e), m, linking)
  {
    SameVectors(g[x := NewNode(vector, level)], h);
    assert Vectors(g[x := NewNode(vector, level)]) == Vectors(g)[x := vector];
  }

  lemma GrownEntry(g: Graph, h: Graph, distance: DistanceFunc, x: Id, vector: Vector, level: nat, e: Option<Id>,
                   m: nat, maxLevel: nat, linking: bool)
    requires Grown(g, h, distance, x, vector, level, e, m, linking) && EntryOk(g, e, maxLevel)
    ensures EntryOk(h, if e.None? || level > maxLevel then Some(x) else e,
                    if e.None? then level else Max(level, maxLevel))
  {
  }

  lemma GrownComplete(g: Graph, h: Graph, x: Id)
    requires x !in g && x in h && h.Keys == g.Keys + {x}
    ensures h.Keys - {x} == g.Keys && |h| == |g| + 1
  {
    assert |h.Keys| == |g.Keys| + 1;
  }

  lemma FirstNode(x: Id, vector: Vector, level: nat, m: nat, distance: DistanceFunc, linking: bool)
    requires level <= MAX_LEVEL
    ensures var h: Graph := map[x := NewNode(vector, level)];
            && GraphOk(h, m) && AddOnlyDegrees(h, m) && CompleteOn(h, 0, h.Keys)
            && Grown(map[], h, distance, x, vector, level, None, m, linking)
  {
    var h: Graph := map[x := NewNode(vector, level)];
    assert Members([]) == {};
    assert h.Keys == {x};
    assert ListAt(h, x, 0) == [];
  }

  /** A search that starts in a complete set with room for it links x to exactly that set. */
  lemma LinkedToAll(g: Graph, distance: DistanceFunc, x: Id, layer: nat, m: nat, ef: nat, entries: set<Id>, s: Sweep,
                    links: seq<Id>, w: set<Id>)
    requires LinksFrom(g, distance, x, layer, m, ef, entries, s, links) && entries != {} && entries <= w
    requires CompleteOn(g, layer, w) && |w| <= Min(ef, Cap(m, layer))
    ensures Members(links) == w
  {
    CompleteClosed(g, layer, w);
    assert s.looked == w;
    UniqueSize(s.hits);
    SubsetSize(Members(s.hits), w);
    assert links == s.hits;
  }

  /** A search that starts with nodes that have no list at the layer finds nothing else. */
  lemma LinkedToEntries(g: Graph, distance: DistanceFunc, x: Id, layer: nat, m: nat, ef: nat, entries: set<Id>,
                        s: Sweep, links: seq<Id>)
    requires LinksFrom(g, distance, x, layer, m, ef, entries, s, links)
    requires forall e :: e in entries && e in g ==> ListAt(g, e, layer) == []
    ensures s.looked == entries && Members(links) <= entries
  {
    assert Closed(g, layer, entries);
    assert forall id :: id in links ==> id in Members(s.hits);
  }

  /** What the search of every layer starts with is of the graph, and not x. */
  lemma {:induction false} StartsWithin(g: Graph, h: Graph, distance: DistanceFunc, x: Id, m: nat, ef: nat, start: Id,
                                        sweeps: seq<Sweep>, layer: nat)
    requires LinkedBy(g, h, distance, x, m, ef, -1, start, sweeps) && start in g && start != x && layer < |sweeps|
    ensures var entries := Members(EntriesAt(sweeps, layer, start)); entries != {} && entries <= g.Keys - {x}
  {
    var entries := EntriesAt(sweeps, layer, start);
    assert entries[0] in Members(entries);
    if layer + 1 < |sweeps| {
      assert LinksFrom(g, distance, x, layer + 1, m, ef, Members(EntriesAt(sweeps, layer + 1, start)),
                       sweeps[layer + 1], h[x].neighbors[layer + 1]);
    }
  }

  /** A complete layer with room for one more stays complete if the search of it starts within it. */
  lemma LayerStaysComplete(g: Graph, h: Graph, distance: DistanceFunc, x: Id, m: nat, ef: nat, layer: nat, start: Id,
                           sweeps: seq<Sweep>, w: set<Id>)
    requires InsertedDownTo(g, h, distance, x, -1, m, Linking(m, ef)) && GraphOk(g, m)
    requires LinkedBy(g, h, distance, x, m, ef, -1, start, sweeps) && layer <= g[x].level && x !in w
    requires var entries := Members(EntriesAt(sweeps, layer, start)); entries != {} && entries <= w
    requires CompleteOn(g, layer, w) && |w| <= Min(ef, Cap(m, layer)) && forall a :: a in w ==> layer <= g[a].level
    ensures Members(h[x].neighbors[layer]) == w && CompleteOn(h, layer, w + {x})
  {
    var links := h[x].neighbors[layer];
    LinkedToAll(g, distance, x, layer, m, ef, Members(EntriesAt(sweeps, layer, start)), sweeps[layer], links, w);
    assert Linked(g, h, distance, x, layer, Cap(m, layer), Linking(m, ef));
    forall a | a in w
      ensures Unique(ListAt(g, a, layer)) &&
              Relinked(Vectors(g), distance, a, ListAt(g, a, layer), ListAt(h, a, layer), x, Cap(m, layer))
    {
      assert LinksOk(g, a, g[a].neighbors[layer], 2 * m);
      assert a in Members(links);
    }
    CompleteAfterLink(g, h, distance, x, layer, Cap(m, layer), w);
  }

  lemma FirstIsNearest(g: Graph, distance: DistanceFunc, query: Vector, ef: nat, s: Sweep, b: Id)
    requires NearestOf(g, distance, query, ef, s) && b in s.looked && 1 <= ef
    ensures s.hits != [] && NoFartherThan(g, distance, query, s.hits[0], b)
  {
    if b in s.hits {
      var i :| 0 <= i < |s.hits| && s.hits[i] == b;
    } else {
      assert s.hits[0] in s.hits;
    }
  }

  /** From layer to layer the first hit gets no farther, so it is as near as the entry point. */
  lemma {:induction false} FirstHitNear(g: Graph, h: Graph, distance: DistanceFunc, x: Id, e: Id, m: nat, ef: nat,
                                        start: Id, sweeps: seq<Sweep>, layer: nat)
    requires LinkedBy(g, h, distance, x, m, ef, -1, start, sweeps) && 1 <= ef && layer < |sweeps|
    requires NoFartherThan(g, distance, g[x].vector, start, e)
    ensures sweeps[layer].hits != [] && NoFartherThan(g, distance, g[x].vector, sweeps[layer].hits[0], e)
    decreases |sweeps| - layer
  {
    if layer + 1 < |sweeps| { FirstHitNear(g, h, distance, x, e, m, ef, start, sweeps, layer + 1); }
    FirstHitNearer(g, distance, x, layer, m, ef, EntriesAt(sweeps, layer, start), sweeps[layer], h[x].neighbors[layer]);
  }

  lemma FirstHitNearer(g: Graph, distance: DistanceFunc, x: Id, layer: nat, m: nat, ef: nat, entries: seq<Id>, s: Sweep,
                       links: seq<Id>)
    requires LinksFrom(g, distance, x, layer, m, ef, Members(entries), s, links) && 1 <= ef && entries != []
    ensures s.hits != [] && NoFartherThan(g, distance, g[x].vector, s.hits[0], entries[0])
  {
    assert entries[0] in Members(entries);
    FirstIsNearest(g, distance, g[x].vector, ef, s, entries[0]);
  }

  lemma FirstLinksNear(g: Graph, h: Graph, distance: DistanceFunc, x: Id, e: Id, maxLevel: nat, m: nat, ef: nat,
                       path: seq<Id>, sweeps: seq<Sweep>)
    requires InsertedBy(g, h, distance, x, e, maxLevel, m, ef, path, sweeps) && Linking(m, ef) && SameNodes(g, h)
    requires e in g
    ensures NoFarther(h, distance, x, e, -1)
  {
    DescentNearer(g, distance, g[x].vector, maxLevel, g[x].level, path, 0);
    forall l: nat | l < |h[x].neighbors|
      ensures h[x].neighbors[l] != [] && h[x].neighbors[l][0] in h
              && distance(h[x].vector, h[h[x].neighbors[l][0]].vector) <= distance(h[x].vector, h[e].vector)
    {
      FirstHitNear(g, h, distance, x, e, m, ef, path[|path| - 1], sweeps, l);
      assert LinksFrom(g, distance, x, l, m, ef, Members(EntriesAt(sweeps, l, path[|path| - 1])), sweeps[l],
                       h[x].neighbors[l]);
    }
  }

  lemma GrownStaysComplete(g: Graph, unlinked: Graph, h: Graph, distance: DistanceFunc, x: Id, m: nat, ef: nat,
                           start: Id, sweeps: seq<Sweep>)
    requires x !in g && unlinked.Keys == g.Keys + {x} && GraphOk(unlinked, m) && start in g
    requires InsertedDownTo(unlinked, h, distance, x, -1, m, Linking(m, ef))
    requires LinkedBy(unlinked, h, distance, x, m, ef, -1, start, sweeps)
    requires CompleteOn(unlinked, 0, unlinked.Keys - {x}) && |g| <= Min(ef, 2 * m)
    ensures CompleteOn(h, 0, h.Keys)
  {
    assert unlinked.Keys - {x} == g.Keys && |g.Keys| == |g|;
    StartsWithin(unlinked, h, distance, x, m, ef, start, sweeps, 0);
    LayerStaysComplete(unlinked, h, distance, x, m, ef, 0, start, sweeps, g.Keys);
    assert h.Keys == g.Keys + {x};
  }

  /** The new node is put into the map and linked. */
  method Grow(g: Graph, distance: DistanceFunc, x: Id, vector: Vector, level: nat, e: Id, maxLevel: nat, m: nat,
              ef: nat)
    returns (h: Graph, ghost path: seq<Id>, ghost sweeps: seq<Sweep>)
    requires GraphOk(g, m) && x !in g && e in g && level <= MAX_LEVEL && maxLevel <= MAX_LEVEL
    ensures GraphOk(h, m) && (AddOnlyDegrees(g, m) ==> AddOnlyDegrees(h, m))
    ensures Grown(g, h, distance, x, vector, level, Some(e), m, Linking(m, ef))
    ensures InsertedBy(g[x := NewNode(vector, level)], h, distance, x, e, maxLevel, m, ef, path, sweeps)
    ensures CompleteOn(g, 0, g.Keys) && |h| <= Min(ef, 2 * m) + 1 ==> CompleteOn(h, 0, h.Keys)
  {
    FreshNodeOk(g, x, vector, level, m);
    var unlinked := g[x := NewNode(vector, level)];
    h, path, sweeps := InsertNode(unlinked, distance, x, e, maxLevel, m, ef);
    GrownComplete(g, h, x);
    if Linking(m, ef) { FirstLinksNear(unlinked, h, distance, x, e, maxLevel, m, ef, path, sweeps); }
    GrownIs(g, h, distance, x, vector, level, e, m, Linking(m, ef));
    if CompleteOn(g, 0, g.Keys) && |h| <= Min(ef, 2 * m) + 1 {
      GrownStaysComplete(g, unlinked, h, distance, x, m, ef, path[|path| - 1], sweeps);
    }
  }

  /** No node has any link. */
  ghost predicate Unlinked(g: Graph) {
    forall id, l: nat :: id in g ==> ListAt(g, id, l) == []
  }

  /** Without linking, insertion into an unlinked graph only adds a node. */
  lemma GrownUnlinked(g: Graph, h: Graph, distance: DistanceFunc, x: Id, vector: Vector, level: nat, e: Option<Id>,
                      m: nat)
    requires Grown(g, h, distance, x, vector, level, e, m, false) && Unlinked(g)
    requires e.None? ==> h == map[x := NewNode(vector, level)]
    ensures Unlinked(h)
  {
    if e.Some? {
      var unlinked := g[x := NewNode(vector, level)];
      forall id, l: nat | id in h ensures ListAt(h, id, l) == [] {
        if l <= level { assert Linked(unlinked, h, distance, x, l, Cap(m, l), false); }
        assert id != x ==> ListAt(unlinked, id, l) == ListAt(g, id, l);
      }
    }
  }
}
