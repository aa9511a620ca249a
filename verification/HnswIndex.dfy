/**
 * index.go: HSNWIndex. Nodes are named by the key they are stored under, so
 * the entry point is an ID and a neighbour list is looked up in the map.
 */
module HnswIndex {
  import opened Base
  import opened HnswHeap
  import opened HnswSearch
  import opened HnswGraph
  import opened HnswSweep
  import opened HnswInsert
  import opened HnswLayers
  import opened HnswRemove

  /** A search result as the caller sees it. */
  datatype Treasure = Treasure(id: Id, vector: Vector, distance: real)

  /** r lists, nearest first, the k nearest to the query of the nodes in seen. */
  ghost predicate KNearest(v: map<Id, Vector>, distance: DistanceFunc, query: Vector, seen: set<Id>, k: nat,
                           r: seq<Treasure>) {
    && seen <= v.Keys && |r| == Min(k, |seen|)
    && (forall t :: t in r ==> t.id in seen && t.vector == v[t.id] && t.distance == distance(query, v[t.id]))
    && (forall i, j :: 0 <= i < j < |r| ==> r[i].id != r[j].id && r[i].distance <= r[j].distance)
    && (forall b, t :: b in seen && t in r && Treasure(b, v[b], distance(query, v[b])) !in r ==>
        t.distance <= distance(query, v[b]))
  }

  function TreasureOf(g: Graph, h: Hit): Treasure
    requires h.id in g
  {
    Treasure(h.id, g[h.id].vector, h.distance)
  }

  lemma FirstHitsNearest(g: Graph, distance: DistanceFunc, query: Vector, hits: seq<Hit>, ev: seq<Hit>, ef: nat,
                         k: nat, r: seq<Treasure>)
    requires SortedHits(hits) && TopOf(multiset(hits), multiset(ev), ef) && UniqueHits(ev) && k <= ef
    requires Evaluated(g, distance, query, ev) && Evaluated(g, distance, query, hits)
    requires UniqueHits(hits) && IdsOf(hits) <= IdsOf(ev) && |IdsOf(ev)| == |ev|
    requires |r| == Min(k, |hits|) && forall i :: 0 <= i < |r| ==> r[i] == TreasureOf(g, hits[i])
    ensures KNearest(Vectors(g), distance, query, IdsOf(ev), k, r)
  {
    assert |multiset(ev)| == |ev| && |multiset(hits)| == |hits|;
    forall t | t in r
      ensures t.id in IdsOf(ev) && t.vector == g[t.id].vector && t.distance == distance(query, g[t.id].vector)
    {
      var i :| 0 <= i < |r| && r[i] == t;
      assert hits[i] in hits;
    }
    forall b, t | b in IdsOf(ev) && t in r && Treasure(b, g[b].vector, distance(query, g[b].vector)) !in r
      ensures t.distance <= distance(query, g[b].vector)
    {
      var i :| 0 <= i < |r| && r[i] == t;
      var h :| h in ev && h.id == b;
      LeftOutIsFarther(g, hits, ev, ef, r, i, h);
    }
  }

  /** A hit that is not among the first ones is no nearer than any of them. */
  lemma LeftOutIsFarther(g: Graph, hits: seq<Hit>, ev: seq<Hit>, ef: nat, r: seq<Treasure>, i: nat, h: Hit)
    requires SortedHits(hits) && TopOf(multiset(hits), multiset(ev), ef) && h in ev && h.id in g
    requires forall x :: x in hits ==> x.id in g
    requires i < |r| <= |hits| && (forall j :: 0 <= j < |r| ==> r[j] == TreasureOf(g, hits[j]))
    requires TreasureOf(g, h) !in r
    ensures hits[i].distance <= h.distance
  {
    forall j | 0 <= j < |r| ensures hits[j] != h { assert r[j] in r; }
    assert hits[i] in multiset(hits);
    if h in hits {
      var j :| 0 <= j < |hits| && hits[j] == h;
    } else {
      assert h in multiset(ev) - multiset(hits);
    }
  }

  lemma GraphConfined(g: Graph, m: nat)
    requires GraphOk(g, m)
    ensures Confined(g, g.Keys, 2 * m)
  {
    forall l: nat ensures Closed(g, l, g.Keys) && DegreesAt(g, l, 2 * m) { GraphClosed(g, m, l); }
  }

  lemma SearchWork(upper: nat, found: nat, ef: nat, degree: nat)
    requires upper <= 16 + 48 * degree && 1 <= found <= 1 + 3 * ef * degree
    ensures upper + found <= MaxWork(ef, degree) && (degree == 0 ==> found == 1)
  {
  }

  /** The descent through the upper layers and the wider search of layer 0. */
  method SearchGraph(g: Graph, distance: DistanceFunc, query: Vector, e: Id, maxLevel: nat, ef: nat, ghost degree: nat)
    returns (hits: seq<Hit>, ghost ev: seq<Hit>, ghost path: seq<Id>, ghost s: Sweep, ghost evaluations: nat)
    requires Confined(g, g.Keys, degree) && e in g && maxLevel <= MAX_LEVEL
    ensures SortedHits(hits) && TopOf(multiset(hits), multiset(ev), ef) && UniqueHits(ev)
    ensures Evaluated(g, distance, query, ev) && IdsOf(ev) <= g.Keys && s.looked == IdsOf(ev) && IdsAre(s.hits, hits)
    ensures DescendsBy(g, distance, query, maxLevel, 0, path) && path[0] == e
    ensures Swept(g, distance, query, 0, ef, {path[|path| - 1]}, s)
    ensures |ev| <= evaluations <= MaxWork(ef, degree)
    ensures degree == 0 ==> |ev| == 1 && path[|path| - 1] == e
  {
    var start, upper, p := Descend(g, distance, query, e, maxLevel, 0, g.Keys, degree);
    assert Members([start]) == {start} && Closed(g, 0, g.Keys) && DegreesAt(g, 0, degree);
    hits, ev, s := Sweeping(g, distance, query, [start], ef, 0, g.Keys, degree);
    path, evaluations := p, upper + |ev|;
    SearchWork(upper, |ev|, ef, degree);
  }

  /** The distances of the nodes looked at are not negative. */
  ghost predicate NoNegative(g: Graph, distance: DistanceFunc, query: Vector, seen: set<Id>) {
    forall id :: id in seen && id in g ==> distance(query, g[id].vector) >= 0.0
  }

  /** How many distances a search computes at most, given the beam and the degrees. */
  function MaxWork(ef: nat, degree: nat): nat {
    16 * (1 + 3 * degree) + 1 + 3 * ef * degree
  }

  lemma WorkBound(ef: nat, degree: nat, m: nat)
    requires degree == 0 || degree == 2 * m
    ensures MaxWork(ef, degree) <= MaxWork(ef, 2 * m) == 16 * (1 + 6 * m) + 1 + 6 * m * ef
  {
    assert 3 * ef * (2 * m) == 6 * m * ef;
  }

  lemma UnlinkedConfined(g: Graph)
    requires Unlinked(g)
    ensures Confined(g, g.Keys, 0)
  {
    forall l: nat ensures Closed(g, l, g.Keys) && DegreesAt(g, l, 0) {
      forall id | id in g ensures ListAt(g, id, l) == [] && Members(ListAt(g, id, l)) == {} {}
    }
  }

  /** The answers are the first hits of the search, so unless it was cut short their neighbours were all looked at. */
  lemma AnswersLooked(g: Graph, m: nat, distance: DistanceFunc, query: Vector, s: Sweep, ef: nat, k: nat,
                      r: seq<Treasure>)
    requires GraphOk(g, m) && LinksFollowed(g, distance, query, 0, ef, s) && FirstOnes(r, s.hits, k)
    requires forall t :: t in r ==> t.id in g
    ensures NoNegative(g, distance, query, s.looked) && |s.looked| <= 3 * ef ==>
              forall t :: t in r ==> t.id in g && Members(ListAt(g, t.id, 0)) <= s.looked
  {
    GraphClosed(g, m, 0);
    if NoNegative(g, distance, query, s.looked) && |s.looked| <= 3 * ef {
      forall t | t in r ensures Members(ListAt(g, t.id, 0)) <= s.looked {
        var j :| 0 <= j < |r| && r[j] == t;
        assert s.hits[j] in s.hits;
        assert Members(ListAt(g, t.id, 0)) * g.Keys == Members(ListAt(g, t.id, 0));
      }
    }
  }

  /** The answers are the first k of the hits. */
  ghost predicate FirstOnes(r: seq<Treasure>, hits: seq<Id>, k: nat) {
    |r| == Min(k, |hits|) && forall j :: 0 <= j < |r| ==> r[j].id == hits[j]
  }

  /**
   * The distance is no greater than that of any node of the descent, and of any
   * link of such a node on its layer, unless the node's distance is negative.
   */
  ghost predicate NearerThanPath(g: Graph, distance: DistanceFunc, query: Vector, top: nat, path: seq<Id>, d: real) {
    forall i: nat :: i < |path| ==> path[i] in g && i <= top + 1 && d <= distance(query, g[path[i]].vector)
                                    && (i < |path| - 1 && distance(query, g[path[i]].vector) >= 0.0 ==>
                                          NearerThanLinks(g, distance, query, path[i], top - i, d))
  }

  ghost predicate NearerThanLinks(g: Graph, distance: DistanceFunc, query: Vector, id: Id, layer: int, d: real) {
    && id in g && layer >= 0
    && forall n :: n in Members(ListAt(g, id, layer)) && n in g ==> d <= distance(query, g[n].vector)
  }

  lemma NearerAlong(g: Graph, distance: DistanceFunc, query: Vector, top: nat, path: seq<Id>, d: real)
    requires DescendsBy(g, distance, query, top, 0, path) && path[|path| - 1] in g
    requires d <= distance(query, g[path[|path| - 1]].vector)
    ensures NearerThanPath(g, distance, query, top, path, d)
  {
    forall i: nat | i < |path|
      ensures path[i] in g && i <= top + 1 && d <= distance(query, g[path[i]].vector)
      ensures i < |path| - 1 && distance(query, g[path[i]].vector) >= 0.0 ==>
                NearerThanLinks(g, distance, query, path[i], top - i, d)
    {
      DescentNearer(g, distance, query, top, 0, path, i);
      if i < |path| - 1 && distance(query, g[path[i]].vector) >= 0.0 {
        DescentBeatsLinks(g, distance, query, top, 0, path, i);
      }
    }
  }

  lemma AllSeen(g: Graph, ef: nat, start: Id, s: Sweep)
    requires AllOfSmall(g, 0, ef, {start}, s.looked) && CompleteOn(g, 0, g.Keys) && |g| <= ef
    requires start in g && s.looked <= g.Keys
    ensures s.looked == g.Keys
  {
    assert |g.Keys| == |g|;
  }

  lemma OnlySeen(ev: seq<Hit>, best: Id)
    requires |ev| == 1 && best in IdsOf(ev)
    ensures IdsOf(ev) == {best}
  {
    assert ev == [ev[0]];
  }

  /** From g, where x has no links yet, to h x was inserted from e by a descent and a search of each layer. */
  ghost predicate WasInserted(g: Graph, h: Graph, distance: DistanceFunc, x: Id, e: Id, maxLevel: nat, m: nat,
                              ef: nat)
  {
    exists path, sweeps :: InsertedBy(g, h, distance, x, e, maxLevel, m, ef, path, sweeps)
  }

  /** The conversion of the first k results. */
  method Top(g: Graph, distance: DistanceFunc, query: Vector, hits: seq<Hit>, ghost ev: seq<Hit>, ghost ef: nat, k: nat)
    returns (r: seq<Treasure>)
    requires SortedHits(hits) && TopOf(multiset(hits), multiset(ev), ef) && UniqueHits(ev) && k <= ef
    requires Evaluated(g, distance, query, ev)
    ensures KNearest(Vectors(g), distance, query, IdsOf(ev), k, r)
    ensures |r| == Min(k, |hits|) && forall j :: 0 <= j < |r| ==> hits[j].id in g && r[j] == TreasureOf(g, hits[j])
  {
    HitsOfSearch(g, distance, query, hits, ev, ef);
    UniqueCount(ev);
    r := [];
    for i := 0 to Min(k, |hits|)
      invariant |r| == i && forall j :: 0 <= j < i ==> r[j] == TreasureOf(g, hits[j])
    {
      assert hits[i] in hits;
      r := r + [TreasureOf(g, hits[i])];
    }
    forall j | 0 <= j < |r| ensures hits[j].id in g { assert hits[j] in hits; }
    FirstHitsNearest(g, distance, query, hits, ev, ef, k, r);
  }

  /** The first answer is no farther than where the search of layer 0 started, nor than anything on the way there. */
  lemma NearFirst(g: Graph, distance: DistanceFunc, query: Vector, top: nat, path: seq<Id>, seen: set<Id>, k: nat,
                  r: seq<Treasure>)
    requires DescendsBy(g, distance, query, top, 0, path) && path[|path| - 1] in seen
    requires KNearest(Vectors(g), distance, query, seen, k, r) && r != []
    ensures NearerThanPath(g, distance, query, top, path, r[0].distance)
  {
    var last := path[|path| - 1];
    DescentNearer(g, distance, query, top, 0, path, 0);
    var t := Treasure(last, Vectors(g)[last], distance(query, Vectors(g)[last]));
    if t in r {
      var j :| 0 <= j < |r| && r[j] == t;
    } else {
      assert r[0] in r;
    }
    NearerAlong(g, distance, query, top, path, r[0].distance);
  }

  /** Search of an index that is not empty. */
  method SearchIn(g: Graph, ghost m: nat, distance: DistanceFunc, query: Vector, e: Id, maxLevel: nat, ef: nat, k: nat)
    returns (r: seq<Treasure>, ghost seen: set<Id>, ghost evaluations: nat, ghost path: seq<Id>, ghost beam: seq<Id>)
    requires GraphOk(g, m) && e in g && maxLevel <= MAX_LEVEL && k <= ef
    ensures KNearest(Vectors(g), distance, query, seen, k, r) && e in g && FirstOnes(r, beam, k)
    ensures DescendsBy(g, distance, query, maxLevel, 0, path) && path[0] == e
    ensures Swept(g, distance, query, 0, ef, {path[|path| - 1]}, Sweep(seen, beam))
    ensures r != [] ==> NearerThanPath(g, distance, query, maxLevel, path, r[0].distance)
    ensures |seen| <= evaluations <= MaxWork(ef, 2 * m)
    ensures Unlinked(g) ==> seen == {e}
  {
    GraphConfined(g, m);
    ghost var degree := if Unlinked(g) then 0 else 2 * m;
    if Unlinked(g) { UnlinkedConfined(g); }
    var hits;
    ghost var ev, s;
    hits, ev, path, s, evaluations := SearchGraph(g, distance, query, e, maxLevel, ef, degree);
    seen, beam := IdsOf(ev), s.hits;
    UniqueCount(ev);
    WorkBound(ef, degree, m);
    r := Top(g, distance, query, hits, ev, ef, k);
    assert path[|path| - 1] in s.looked;
    if r != [] { NearFirst(g, distance, query, maxLevel, path, seen, k, r); }
    if Unlinked(g) { OnlySeen(ev, e); }
  }

  /** What follows: of a small complete index everything is seen, and else the neighbours of the answers. */
  lemma SearchSees(g: Graph, m: nat, distance: DistanceFunc, query: Vector, ef: nat, k: nat, start: Id,
                   r: seq<Treasure>, seen: set<Id>, beam: seq<Id>)
    requires GraphOk(g, m) && Swept(g, distance, query, 0, ef, {start}, Sweep(seen, beam)) && FirstOnes(r, beam, k)
    requires forall t :: t in r ==> t.id in g
    ensures start in g && start in seen
    ensures CompleteOn(g, 0, g.Keys) && |g| <= ef ==> seen == g.Keys
    ensures NoNegative(g, distance, query, seen) && |seen| <= 3 * ef ==>
              forall t :: t in r ==> t.id in g && Members(ListAt(g, t.id, 0)) <= seen
  {
    AnswersLooked(g, m, distance, query, Sweep(seen, beam), ef, k, r);
    if CompleteOn(g, 0, g.Keys) && |g| <= ef { AllSeen(g, ef, start, Sweep(seen, beam)); }
  }

  /** Every layer that there was is complete, and on its own layers x is linked to all that were there. */
  ghost predicate GrownLayers(g: Graph, h: Graph, x: Id, level: nat, top: nat) {
    forall l: nat :: l <= top ==>
      CompleteOn(h, l, AtLevel(h, l)) && (l <= level ==> x in h && Members(ListAt(h, x, l)) == AtLevel(g, l))
  }

  lemma AllLayersGrown(g: Graph, h: Graph, distance: DistanceFunc, x: Id, vector: Vector, level: nat, e: Id, top: nat,
                       m: nat, ef: nat, path: seq<Id>, sweeps: seq<Sweep>)
    requires LayersComplete(g, top, m, ef) && EntryOk(g, Some(e), top) && x !in g && GraphOk(g, m) && level <= MAX_LEVEL
    requires InsertedDownTo(g[x := NewNode(vector, level)], h, distance, x, -1, m, Linking(m, ef))
    requires InsertedBy(g[x := NewNode(vector, level)], h, distance, x, e, top, m, ef, path, sweeps)
    ensures GrownLayers(g, h, x, level, top)
  {
    FreshNodeOk(g, x, vector, level, m);
    forall l: nat | l <= top
      ensures CompleteOn(h, l, AtLevel(h, l)) && (l <= level ==> x in h && Members(ListAt(h, x, l)) == AtLevel(g, l))
    {
      LayersStayComplete(g, h, distance, x, vector, level, e, top, m, ef, path, sweeps, l);
    }
  }

  /** Insertion into an index that is not empty. */
  method AddToGraph(g: Graph, distance: DistanceFunc, id: Id, vector: Vector, level: nat, e: Id, maxLevel: nat,
                    m: nat, ef: nat)
    returns (h: Graph)
    requires GraphOk(g, m) && EntryOk(g, Some(e), maxLevel) && id !in g && level <= MAX_LEVEL
    ensures GraphOk(h, m) && (AddOnlyDegrees(g, m) ==> AddOnlyDegrees(h, m))
    ensures Grown(g, h, distance, id, vector, level, Some(e), m, Linking(m, ef))
    ensures EntryOk(h, if level > maxLevel then Some(id) else Some(e), Max(level, maxLevel))
    ensures !Linking(m, ef) && Unlinked(g) ==> Unlinked(h)
    ensures CompleteOn(g, 0, g.Keys) && |h| <= Min(ef, 2 * m) + 1 ==> CompleteOn(h, 0, h.Keys)
    ensures WasInserted(g[id := NewNode(vector, level)], h, distance, id, e, maxLevel, m, ef)
    ensures LayersComplete(g, maxLevel, m, ef) ==> GrownLayers(g, h, id, level, maxLevel)
  {
    ghost var path, sweeps;
    h, path, sweeps := Grow(g, distance, id, vector, level, e, maxLevel, m, ef);
    if LayersComplete(g, maxLevel, m, ef) {
      AllLayersGrown(g, h, distance, id, vector, level, e, maxLevel, m, ef, path, sweeps);
    }
    GrownEntry(g, h, distance, id, vector, level, Some(e), m, maxLevel, Linking(m, ef));
    if !Linking(m, ef) && Unlinked(g) {
      GrownUnlinked(g, h, distance, id, vector, level, Some(e), m);
    }
  }

  lemma OneNodeWhole(g: Graph, id: Id, m: nat, top: nat)
    requires g.Keys == {id} && GraphOk(g, m)
    ensures Whole(g, top)
  {
    forall l: nat | l <= top ensures CompleteOn(g, l, AtLevel(g, l)) {
      GraphClosed(g, m, l);
      assert AtLevel(g, l) <= {id};
    }
  }

  /** Whole layers of a small index, to which a node is added that is no higher. */
  lemma StaysWhole(g: Graph, h: Graph, x: Id, level: nat, top: nat, m: nat, ef: nat)
    requires LayersComplete(g, top, m, ef) ==> GrownLayers(g, h, x, level, top)
    requires Whole(g, top) && h.Keys == g.Keys + {x} && x !in g && |h| <= Min(ef, m) + 1
    ensures Whole(h, top)
  {
    assert |h.Keys| == |g.Keys| + 1 && |h| == |h.Keys| && |g| == |g.Keys|;
    forall l: nat | l <= top ensures |AtLevel(g, l)| <= Min(ef, Cap(m, l)) {
      SubsetSize(AtLevel(g, l), g.Keys);
    }
  }

  class Index {
    const m: nat
    const efConstruct: nat
    const distance: DistanceFunc
    var nodes: Graph
    var entryPoint: Option<Id>
    var maxLevel: nat

    ghost predicate Valid()
      reads this
    {
      GraphOk(nodes, m) && EntryOk(nodes, entryPoint, maxLevel)
    }

    /** Layer 0 links every node to every other. */
    ghost predicate Complete()
      reads this
    {
      CompleteOn(nodes, 0, nodes.Keys)
    }

    /** Every layer links each of its nodes to all others, and has room for one more. */
    ghost predicate Layered()
      reads this
    {
      entryPoint.Some? && LayersComplete(nodes, maxLevel, m, efConstruct)
    }

    /** Every layer links each of its nodes to all others. */
    ghost predicate LayersWhole()
      reads this
    {
      Whole(nodes, maxLevel)
    }

    constructor (m: nat, efConstruct: nat, distance: DistanceFunc)
      ensures Valid() && nodes == map[] && Complete() && LayersWhole()
      ensures this.m == m && this.efConstruct == efConstruct && this.distance == distance
    {
      this.m, this.efConstruct, this.distance := m, efConstruct, distance;
      nodes, entryPoint, maxLevel := map[], None, 0;
    }

    /** The random level of assignLevel is an argument. */
    method Add(id: Id, vector: Vector, level: nat) returns (ok: bool)
      requires Valid() && level <= MAX_LEVEL
      modifies this`nodes, this`entryPoint, this`maxLevel
      ensures Valid() && ok == (id !in old(nodes))
      ensures !ok ==> nodes == old(nodes) && entryPoint == old(entryPoint) && maxLevel == old(maxLevel)
      ensures ok ==> Grown(old(nodes), nodes, distance, id, vector, level, old(entryPoint), m, Linking(m, efConstruct))
      ensures !Linking(m, efConstruct) && old(Unlinked(nodes)) ==> Unlinked(nodes)
      ensures ok ==> entryPoint == if old(nodes) == map[] || level > old(maxLevel) then Some(id) else old(entryPoint)
      ensures ok ==> maxLevel == if old(nodes) == map[] then level else Max(old(maxLevel), level)
      ensures old(AddOnlyDegrees(nodes, m)) ==> AddOnlyDegrees(nodes, m)
      ensures old(Complete()) && |nodes| <= Min(efConstruct, 2 * m) + 1 ==> Complete()
      ensures ok && old(entryPoint).Some? ==>
                WasInserted(old(nodes)[id := NewNode(vector, level)], nodes, distance, id, old(entryPoint).value,
                            old(maxLevel), m, efConstruct)
      ensures ok && old(Layered()) ==> GrownLayers(old(nodes), nodes, id, level, old(maxLevel))
      ensures old(LayersWhole()) && (old(nodes) == map[] || level <= old(maxLevel))
              && |nodes| <= Min(efConstruct, m) + 1 ==>
                LayersWhole()
    {
      if id in nodes {
        return false;
      }
      ok := true;
      if entryPoint.None? {
        FirstNode(id, vector, level, m, distance, Linking(m, efConstruct));
        nodes := nodes[id := NewNode(vector, level)];
        entryPoint, maxLevel := Some(id), level;
        OneNodeWhole(nodes, id, m, maxLevel);
        return;
      }
      ghost var before := nodes;
      nodes := AddToGraph(nodes, distance, id, vector, level, entryPoint.value, maxLevel, m, efConstruct);
      if Whole(before, maxLevel) && |nodes| <= Min(efConstruct, m) + 1 {
        StaysWhole(before, nodes, id, level, maxLevel, m, efConstruct);
      }
      if level > maxLevel {
        maxLevel, entryPoint := level, Some(id);
      }
    }

    /**
     * The k nearest; the ghost results are what was looked at on layer 0, how
     * many distances were computed, the nodes of the descent and the hits of
     * layer 0. Distances that are not negative and a search that the visit
     * threshold has not cut short leave no neighbour of an answer out.
     */
    method Search(query: Vector, k: nat)
      returns (r: seq<Treasure>, ghost seen: set<Id>, ghost evaluations: nat, ghost path: seq<Id>, ghost beam: seq<Id>)
      requires Valid()
      ensures KNearest(Vectors(nodes), distance, query, seen, k, r)
      ensures nodes != map[] ==> seen != {} && entryPoint.Some?
      ensures entryPoint.Some? ==> DescendsBy(nodes, distance, query, maxLevel, 0, path) && path[0] == entryPoint.value
      ensures entryPoint.Some? ==>
                Swept(nodes, distance, query, 0, Max(efConstruct, k), {path[|path| - 1]}, Sweep(seen, beam))
      ensures FirstOnes(r, beam, k)
      ensures r != [] ==> NearerThanPath(nodes, distance, query, maxLevel, path, r[0].distance)
      ensures r != [] ==> r[0].distance <= distance(query, nodes[entryPoint.value].vector)
      ensures Complete() && |nodes| <= Max(efConstruct, k) ==> seen == nodes.Keys
      ensures |seen| <= evaluations <= MaxWork(Max(efConstruct, k), 2 * m)
      ensures NoNegative(nodes, distance, query, seen) && |seen| <= 3 * Max(efConstruct, k) ==>
                forall t :: t in r ==> t.id in nodes && Members(ListAt(nodes, t.id, 0)) <= seen
      ensures Unlinked(nodes) && nodes != map[] ==> seen == {entryPoint.value}
    {
      if entryPoint.None? {
        return [], {}, 0, [], [];
      }
      var ef: nat := efConstruct;
      if ef < k {
        ef := k;
      }
      r, seen, evaluations, path, beam := SearchIn(nodes, m, distance, query, entryPoint.value, maxLevel, ef, k);
      SearchSees(nodes, m, distance, query, ef, k, path[|path| - 1], r, seen, beam);
    }

    method Remove(id: Id) returns (ok: bool)
      requires Valid()
      modifies this`nodes, this`entryPoint, this`maxLevel
      ensures Valid() && ok == (id in old(nodes))
      ensures !ok ==> nodes == old(nodes) && entryPoint == old(entryPoint) && maxLevel == old(maxLevel)
      ensures ok ==> Removed(old(nodes), nodes, id, m) && Vectors(nodes) == old(Vectors(nodes)) - {id}
      ensures old(entryPoint) != Some(id) ==> entryPoint == old(entryPoint) && maxLevel == old(maxLevel)
      ensures old(Complete()) ==> Complete()
    {
      if id !in nodes {
        return false;
      }
      ok := true;
      ghost var before := nodes;
      nodes := RemoveNode(nodes, id, m);
      RemovedRest(before, nodes, id, m, entryPoint, maxLevel);
      if entryPoint == Some(id) {
        entryPoint := SelectNewEntryPoint();
        maxLevel := if entryPoint.Some? then nodes[entryPoint.value].level else 0;
      }
    }

    /** Any node of the greatest level; the nodes are visited in any order. */
    method SelectNewEntryPoint() returns (best: Option<Id>)
      ensures best.None? <==> nodes == map[]
      ensures best.Some? ==>
                best.value in nodes && forall id :: id in nodes ==> nodes[id].level <= nodes[best.value].level
    {
      best := None;
      var maxLevel: int := -1;
      var todo := nodes.Keys;
      while todo != {}
        invariant todo <= nodes.Keys
        invariant best.None? ==> maxLevel == -1 && todo == nodes.Keys
        invariant best.Some? ==> best.value in nodes && maxLevel == nodes[best.value].level
        invariant forall id :: id in nodes && id !in todo ==> nodes[id].level <= maxLevel
        decreases todo
      {
        var id :| id in todo;
        if nodes[id].level > maxLevel {
          maxLevel, best := nodes[id].level, Some(id);
        }
        todo := todo - {id};
      }
    }

    /** A new entry point of the greatest level, and no links lost: a valid graph has none that dangle. */
    method OptimizeIndex()
      requires Valid()
      modifies this`nodes, this`entryPoint, this`maxLevel
      ensures Valid() && nodes == old(nodes) && maxLevel == old(maxLevel)
    {
      var best := SelectNewEntryPoint();
      if best.Some? {
        entryPoint, maxLevel := best, nodes[best.value].level;
      }
      ghost var before := nodes;
      nodes := CleanupDanglingReferences(nodes);
      WellFormedIsClean(before, nodes, m);
    }

    method Clear()
      requires Valid()
      modifies this`nodes, this`entryPoint, this`maxLevel
      ensures Valid() && nodes == map[] && Complete()
    {
      nodes, entryPoint, maxLevel := map[], None, 0;
    }
  }
}
