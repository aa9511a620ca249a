/**
 * hnsw.go: the layered graph and searchLayer, the beam search that insertion
 * and querying share.
 */
module HnswSearch {
  import opened Base
  import opened HnswHeap

  /** HSNWNode; its ID is the key it is stored under. */
  datatype Node = Node(vector: Vector, level: nat, neighbors: seq<seq<Id>>)

  type Graph = map<Id, Node>

  /** Lower is more similar; any function into a total order will do. */
  type DistanceFunc = (Vector, Vector) -> real

  /** The neighbour list of a node at a layer, empty above its own level. */
  function ListAt(g: Graph, id: Id, layer: nat): seq<Id>
    requires id in g
  {
    if layer < |g[id].neighbors| then g[id].neighbors[layer] else []
  }

  function IdsOf(hits: seq<Hit>): set<Id> {
    set h | h in hits :: h.id
  }

  function Members(s: seq<Id>): set<Id> {
    set id | id in s
  }

  lemma MembersSnoc(s: seq<Id>, i: nat)
    requires i < |s|
    ensures Members(s[..i + 1]) == Members(s[..i]) + {s[i]}
    ensures Unique(s) ==> s[i] !in Members(s[..i])
  {
    assert s[..i + 1] == s[..i] + [s[i]];
  }

  predicate UniqueHits(hits: seq<Hit>) {
    forall i, j :: 0 <= i < j < |hits| ==> hits[i].id != hits[j].id
  }

  /** The hits of the search res are the ef nearest of everything evaluated in ev. */
  ghost predicate TopOf(res: multiset<Hit>, ev: multiset<Hit>, ef: nat) {
    && res <= ev
    && |res| == Min(ef, |ev|)
    && forall x, y :: x in ev - res && y in res ==> y.distance <= x.distance
  }

  /** No link at the layer leads out of the set. */
  ghost predicate Closed(g: Graph, layer: nat, within: set<Id>) {
    forall a :: a in within && a in g ==> Members(ListAt(g, a, layer)) <= within
  }

  /** Every node of the set is linked at the layer to exactly the others. */
  ghost predicate CompleteOn(g: Graph, layer: nat, all: set<Id>) {
    forall a :: a in all ==> a in g && Members(ListAt(g, a, layer)) == all - {a}
  }

  ghost predicate DegreesAt(g: Graph, layer: nat, d: nat) {
    forall id :: id in g ==> |ListAt(g, id, layer)| <= d
  }

  /** What the search has evaluated: nodes of the graph, with their distances. */
  ghost predicate Evaluated(g: Graph, distance: DistanceFunc, query: Vector, ev: seq<Hit>) {
    forall h :: h in ev ==> h.id in g && h.distance == distance(query, g[h.id].vector)
  }

  lemma TopGrow(res: multiset<Hit>, ev: multiset<Hit>, ef: nat, h: Hit)
    requires TopOf(res, ev, ef) && |res| < ef
    ensures TopOf(res + multiset{h}, ev + multiset{h}, ef)
  {
    assert ev + multiset{h} - (res + multiset{h}) == ev - res;
    assert |ev - res| == 0;
  }

  lemma TopReplace(res: multiset<Hit>, ev: multiset<Hit>, ef: nat, h: Hit, w: Hit)
    requires TopOf(res, ev, ef) && |res| == ef && w in res + multiset{h}
    requires forall x :: x in res + multiset{h} ==> x.distance <= w.distance
    ensures TopOf(res + multiset{h} - multiset{w}, ev + multiset{h}, ef)
  {
    var res' := res + multiset{h} - multiset{w};
    assert ev + multiset{h} - res' == (ev - res) + multiset{w};
  }

  lemma TopSkip(res: multiset<Hit>, ev: multiset<Hit>, ef: nat, h: Hit)
    requires TopOf(res, ev, ef) && |res| == ef
    requires forall x :: x in res ==> x.distance <= h.distance
    ensures TopOf(res, ev + multiset{h}, ef)
  {
    assert ev + multiset{h} - res == (ev - res) + multiset{h};
  }

  /** Pushes a hit on the result heap and pops the worst beyond ef. */
  method KeepTop(results: Heap, h: Hit, ef: nat, ghost ev: seq<Hit>)
    requires results.Valid() && results.maxFirst
    requires TopOf(multiset(results.data), multiset(ev), ef)
    modifies results
    ensures results.Valid() && TopOf(multiset(results.data), multiset(ev + [h]), ef)
    ensures multiset(results.data) <= multiset(old(results.data)) + multiset{h}
  {
    ghost var before := multiset(results.data);
    assert multiset(ev + [h]) == multiset(ev) + multiset{h};
    results.Push(h);
    if |results.data| > ef {
      assert |multiset(results.data)| == |results.data|;
      ghost var pushed := multiset(results.data);
      var w := results.Pop();
      forall x | x in pushed ensures x.distance <= w.distance {
        assert Rank(true, w) <= Rank(true, x);
      }
      TopReplace(before, multiset(ev), ef, h, w);
    } else {
      assert |multiset(results.data)| == |results.data|;
      TopGrow(before, multiset(ev), ef, h);
    }
  }

  /** At most n candidates have come in, and none has gone; every new result is a candidate. */
  ghost predicate Queued(cs: multiset<Hit>, rs: multiset<Hit>, cs': multiset<Hit>, rs': multiset<Hit>, n: nat) {
    cs <= cs' && |cs'| <= |cs| + n && forall h :: h in rs' ==> h in rs || h in cs'
  }

  /** One neighbour: kept in both heaps if there is room or it beats the worst result. */
  method Offer(candidates: Heap, results: Heap, h: Hit, ef: nat, ghost ev: seq<Hit>)
    requires candidates != results && candidates.Valid() && results.Valid() && results.maxFirst && 1 <= ef
    requires TopOf(multiset(results.data), multiset(ev), ef)
    requires forall x :: x in multiset(candidates.data) ==> x in ev
    modifies candidates, results
    ensures candidates.Valid() && results.Valid()
    ensures TopOf(multiset(results.data), multiset(ev + [h]), ef)
    ensures forall x :: x in multiset(candidates.data) ==> x in ev + [h]
    ensures Queued(multiset(old(candidates.data)), multiset(old(results.data)), multiset(candidates.data),
                   multiset(results.data), 1)
  {
    assert |multiset(results.data)| == |results.data|;
    if |results.data| < ef || h.distance < results.data[0].distance {
      candidates.Push(h);
      KeepTop(results, h, ef, ev);
    } else {
      forall x | x in multiset(results.data) ensures x.distance <= h.distance {
        RootFirstOf(true, results.data, x);
      }
      assert multiset(ev + [h]) == multiset(ev) + multiset{h};
      TopSkip(multiset(results.data), multiset(ev), ef, h);
    }
  }

  /** The facts that hold between any two evaluations of a search. */
  ghost predicate Progress(g: Graph, distance: DistanceFunc, query: Vector, entries: seq<Id>, within: set<Id>,
                           visited: set<Id>, ev: seq<Hit>)
  {
    && Evaluated(g, distance, query, ev)
    && IdsOf(ev) <= within
    && IdsOf(ev) == visited * g.Keys
    && (Unique(entries) ==> UniqueHits(ev))
  }

  lemma ProgressEvaluate(g: Graph, distance: DistanceFunc, query: Vector, entries: seq<Id>, within: set<Id>,
                         visited: set<Id>, ev: seq<Hit>, h: Hit)
    requires Progress(g, distance, query, entries, within, visited, ev)
    requires h.id in g && h.distance == distance(query, g[h.id].vector)
    requires h.id in within
    requires Unique(entries) ==> h.id !in visited
    ensures Progress(g, distance, query, entries, within, visited + {h.id}, ev + [h])
  {
    assert IdsOf(ev + [h]) == IdsOf(ev) + {h.id};
  }

  /** The two heaps hold what a search has to keep of its evaluations. */
  ghost predicate HeapsOk(candidates: Heap, results: Heap, ef: nat, ev: seq<Hit>)
    reads candidates, results
  {
    && candidates != results && !candidates.maxFirst && results.maxFirst
    && candidates.Valid() && results.Valid() && TopOf(multiset(results.data), multiset(ev), ef)
    && forall x :: x in multiset(candidates.data) ==> x in ev
  }

  /** The node's links at the layer have all been visited. */
  ghost predicate Expanded(g: Graph, layer: nat, h: Hit, visited: set<Id>) {
    h.id in g && Members(ListAt(g, h.id, layer)) <= visited
  }

  /** Every result is still a candidate, or its links have been visited. */
  ghost predicate Waiting(g: Graph, layer: nat, candidates: Heap, results: Heap, visited: set<Id>)
    reads candidates, results
  {
    forall h :: h in multiset(results.data) ==> h in multiset(candidates.data) || Expanded(g, layer, h, visited)
  }

  /** The entry points in order, each evaluated once. */
  method SeedSearch(g: Graph, distance: DistanceFunc, query: Vector, entryPoints: seq<Id>, ef: nat, ghost layer: nat,
                    ghost within: set<Id>, candidates: Heap, results: Heap)
    returns (visited: set<Id>, ghost ev: seq<Hit>)
    requires Members(entryPoints) <= within * g.Keys
    requires HeapsOk(candidates, results, ef, []) && candidates.data == []
    modifies candidates, results
    ensures HeapsOk(candidates, results, ef, ev) && |candidates.data| == |entryPoints|
    ensures Waiting(g, layer, candidates, results, visited)
    ensures Progress(g, distance, query, entryPoints, within, visited, ev)
    ensures visited == Members(entryPoints) && |ev| == |entryPoints|
  {
    visited, ev := {}, [];
    for i := 0 to |entryPoints|
      invariant HeapsOk(candidates, results, ef, ev) && |candidates.data| == i
      invariant forall h :: h in multiset(results.data) ==> h in multiset(candidates.data)
      invariant Progress(g, distance, query, entryPoints, within, visited, ev)
      invariant visited == Members(entryPoints[..i]) && |ev| == i
    {
      MembersSnoc(entryPoints, i);
      assert entryPoints[i] in Members(entryPoints);
      var h := Hit(entryPoints[i], distance(query, g[entryPoints[i]].vector));
      ProgressEvaluate(g, distance, query, entryPoints, within, visited, ev, h);
      visited := visited + {h.id};
      Seed(candidates, results, h, ef, ev);
      ev := ev + [h];
    }
    assert entryPoints[..|entryPoints|] == entryPoints;
  }

  method Seed(candidates: Heap, results: Heap, h: Hit, ef: nat, ghost ev: seq<Hit>)
    requires HeapsOk(candidates, results, ef, ev)
    modifies candidates, results
    ensures HeapsOk(candidates, results, ef, ev + [h]) && |candidates.data| == |old(candidates.data)| + 1
    ensures multiset(candidates.data) == multiset(old(candidates.data)) + multiset{h}
    ensures multiset(results.data) <= multiset(old(results.data)) + multiset{h}
  {
    candidates.Push(h);
    assert |multiset(candidates.data)| == |candidates.data|
           && |multiset(old(candidates.data))| == |old(candidates.data)|;
    KeepTop(results, h, ef, ev);
  }

  /** One neighbour of a candidate: skipped if visited or gone, else evaluated. */
  method Visit(g: Graph, distance: DistanceFunc, query: Vector, ghost entries: seq<Id>, ef: nat, ghost within: set<Id>,
               candidates: Heap, results: Heap, id: Id, visited: set<Id>, ghost ev: seq<Hit>)
    returns (ghost ev': seq<Hit>)
    requires 1 <= ef && HeapsOk(candidates, results, ef, ev)
    requires id in within
    requires Progress(g, distance, query, entries, within, visited, ev)
    modifies candidates, results
    ensures HeapsOk(candidates, results, ef, ev') && ev <= ev' && |ev'| <= |ev| + 1
    ensures Queued(multiset(old(candidates.data)), multiset(old(results.data)), multiset(candidates.data),
                   multiset(results.data), |ev'| - |ev|)
    ensures Progress(g, distance, query, entries, within, visited + {id}, ev')
  {
    ev' := ev;
    if id in visited {
      assert visited + {id} == visited;
      return;
    }
    if id in g {
      var h := Hit(id, distance(query, g[id].vector));
      ProgressEvaluate(g, distance, query, entries, within, visited, ev, h);
      Offer(candidates, results, h, ef, ev);
      ev' := ev + [h];
    }
  }

  /** The neighbours of one candidate at the layer. */
  method Expand(g: Graph, distance: DistanceFunc, query: Vector, ghost entries: seq<Id>, ef: nat, layer: nat,
                ghost within: set<Id>, candidates: Heap, results: Heap, current: Hit, visited: set<Id>,
                    ghost ev: seq<Hit>)
    returns (visited': set<Id>, ghost ev': seq<Hit>)
    requires 1 <= ef && HeapsOk(candidates, results, ef, ev)
    requires current.id in g && layer < |g[current.id].neighbors|
    requires Members(g[current.id].neighbors[layer]) <= within
    requires Progress(g, distance, query, entries, within, visited, ev)
    modifies candidates, results
    ensures HeapsOk(candidates, results, ef, ev') && |ev| <= |ev'| <= |ev| + |g[current.id].neighbors[layer]|
    ensures Queued(multiset(old(candidates.data)), multiset(old(results.data)), multiset(candidates.data),
                   multiset(results.data), |ev'| - |ev|)
    ensures Progress(g, distance, query, entries, within, visited', ev')
    ensures visited' == visited + Members(g[current.id].neighbors[layer])
  {
    var neighbors := g[current.id].neighbors[layer];
    visited', ev' := visited, ev;
    for i := 0 to |neighbors|
      invariant HeapsOk(candidates, results, ef, ev') && ev <= ev' && |ev'| <= |ev| + i
      invariant Queued(multiset(old(candidates.data)), multiset(old(results.data)), multiset(candidates.data),
                       multiset(results.data), |ev'| - |ev|)
      invariant Progress(g, distance, query, entries, within, visited', ev')
      invariant visited' == visited + Members(neighbors[..i])
    {
      MembersSnoc(neighbors, i);
      ev' := Visit(g, distance, query, entries, ef, within, candidates, results, neighbors[i], visited', ev');
      visited' := visited' + {neighbors[i]};
    }
    assert neighbors[..|neighbors|] == neighbors;
  }

  lemma {:induction false} UniqueCount(hits: seq<Hit>)
    requires UniqueHits(hits)
    ensures |IdsOf(hits)| == |hits|
  {
    if hits != [] {
      var n := |hits| - 1;
      UniqueCount(hits[..n]);
      assert hits == hits[..n] + [hits[n]];
      assert IdsOf(hits) == IdsOf(hits[..n]) + {hits[n].id};
    }
  }

  lemma SubsetSize(a: set<Id>, b: set<Id>)
    requires a <= b
    ensures |a| <= |b| && (|a| == |b| ==> a == b)
  {
    assert b == a + (b - a);
  }

  /** A full result heap on a set no larger than ef means that everything has been evaluated. */
  lemma FullMeansAll(ev: seq<Hit>, within: set<Id>, ef: nat)
    requires UniqueHits(ev) && IdsOf(ev) <= within && |within| <= ef <= |ev|
    ensures IdsOf(ev) == within
  {
    UniqueCount(ev);
    SubsetSize(IdsOf(ev), within);
  }

  /** A search on a complete set no larger than ef. */
  ghost predicate Small(g: Graph, entries: seq<Id>, ef: nat, layer: nat, within: set<Id>) {
    Unique(entries) && entries != [] && CompleteOn(g, layer, within) && |within| <= ef
  }

  /** Once the neighbours of one node have been visited, a small search has evaluated the whole set. */
  lemma SmallExpanded(g: Graph, entries: seq<Id>, ef: nat, layer: nat, within: set<Id>, current: Id,
                      visited: set<Id>, ev: seq<Hit>)
    requires Small(g, entries, ef, layer, within) && current in within
    requires IdsOf(ev) == visited * g.Keys && IdsOf(ev) <= within
    requires current in visited && Members(ListAt(g, current, layer)) <= visited
    ensures IdsOf(ev) == within
  {
    assert within - {current} <= visited;
  }

  lemma SmallFull(g: Graph, entries: seq<Id>, ef: nat, layer: nat, within: set<Id>, found: int, ev: seq<Hit>)
    requires Unique(entries) ==> UniqueHits(ev)
    requires IdsOf(ev) <= within && found == Min(ef, |ev|) && found >= ef
    ensures Small(g, entries, ef, layer, within) ==> IdsOf(ev) == within
  {
    if Small(g, entries, ef, layer, within) { FullMeansAll(ev, within, ef); }
  }

  /** All but the candidate just popped, which is the nearest, are still waiting or expanded. */
  ghost predicate WaitingBut(g: Graph, layer: nat, cs: multiset<Hit>, rs: multiset<Hit>, visited: set<Id>,
                             current: Hit) {
    && (forall h :: h in rs ==> h in cs || Expanded(g, layer, h, visited) || h == current)
    && (forall h :: h in cs ==> current.distance <= h.distance)
  }

  /** The root of the results is the worst of them, and was evaluated. */
  lemma WorstIsLast(results: seq<Hit>, ev: multiset<Hit>)
    requires OrderedBut(true, results, |results|, 0) && multiset(results) <= ev && results != []
    ensures forall h :: h in multiset(results) ==> h.distance <= results[0].distance
    ensures results[0] in ev
  {
    forall h | h in multiset(results) ensures h.distance <= results[0].distance { RootFirstOf(true, results, h); }
    assert results[0] in multiset(results);
  }

  lemma StillWaiting(g: Graph, layer: nat, cs: multiset<Hit>, rs: multiset<Hit>, cs': multiset<Hit>, rs': multiset<Hit>,
                     visited: set<Id>, visited': set<Id>, current: Hit, n: nat)
    requires WaitingBut(g, layer, cs, rs, visited, current) && Queued(cs, rs, cs', rs', n) && visited <= visited'
    requires Expanded(g, layer, current, visited')
    ensures forall h :: h in rs' ==> h in cs' || Expanded(g, layer, h, visited')
  {
  }

  /** A turn with a single evaluation behind it and room for one result stops if the distance is negative. */
  ghost predicate FirstTurn(g: Graph, layer: nat, ef: nat, ev: seq<Hit>, stop: bool, visited: set<Id>, ev': seq<Hit>) {
    ef == 1 && |ev| == 1 ==>
      if ev[0].distance < 0.0 then stop && ev' == ev else !stop && Expanded(g, layer, ev[0], visited)
  }

  lemma OnlyOne(ev: seq<Hit>, rs: seq<Hit>, h: Hit)
    requires |ev| == 1 && h in ev && multiset(rs) <= multiset(ev) && |rs| == 1
    ensures ev[0] == h == rs[0]
  {
    assert rs[0] in multiset(rs);
  }

  /** One candidate after it was popped: stop, skip or expand. */
  method Examine(g: Graph, distance: DistanceFunc, query: Vector, ghost entries: seq<Id>, ef: nat, layer: nat,
                 ghost within: set<Id>, ghost degree: nat, candidates: Heap, results: Heap, current: Hit,
                 visited: set<Id>, ghost ev: seq<Hit>)
    returns (stop: bool, visited': set<Id>, ghost ev': seq<Hit>)
    requires 1 <= ef && HeapsOk(candidates, results, ef, ev) && current in ev
    requires Closed(g, layer, within) && DegreesAt(g, layer, degree)
    requires Progress(g, distance, query, entries, within, visited, ev)
    requires WaitingBut(g, layer, multiset(candidates.data), multiset(results.data), visited, current)
    modifies candidates, results
    ensures HeapsOk(candidates, results, ef, ev')
    ensures Progress(g, distance, query, entries, within, visited', ev')
    ensures visited <= visited' && |ev| <= |ev'| <= |ev| + degree
    ensures |candidates.data| - |old(candidates.data)| <= |ev'| - |ev|
    ensures !stop ==> Waiting(g, layer, candidates, results, visited')
    ensures stop && NonNegative(ev') ==> forall h :: h in multiset(results.data) ==> Expanded(g, layer, h, visited')
    ensures FirstTurn(g, layer, ef, ev, stop, visited', ev')
    ensures Small(g, entries, ef, layer, within) ==> IdsOf(ev') == within
  {
    stop, visited', ev' := false, visited, ev;
    assert current.id in IdsOf(ev);
    assert |multiset(results.data)| == |results.data| && |multiset(ev)| == |ev|;
    if ef == 1 && |ev| == 1 { OnlyOne(ev, results.data, current); }
    if |results.data| >= ef {
      SmallFull(g, entries, ef, layer, within, |results.data|, ev);
      WorstIsLast(results.data, multiset(ev));
      if current.distance > results.data[0].distance * 1.1 {
        stop := true;
        return;
      }
    }
    if |results.data| >= ef && current.distance > results.data[0].distance {
      return;
    }
    ghost var cs, rs := multiset(candidates.data), multiset(results.data);
    if layer < |g[current.id].neighbors| {
      visited', ev' := Expand(g, distance, query, entries, ef, layer, within, candidates, results, current, visited,
                              ev);
    }
    StillWaiting(g, layer, cs, rs, multiset(candidates.data), multiset(results.data), visited, visited', current,
                 |ev'| - |ev|);
    assert |multiset(candidates.data)| == |candidates.data|
           && |multiset(old(candidates.data))| == |old(candidates.data)|;
    if Small(g, entries, ef, layer, within) {
      SmallExpanded(g, entries, ef, layer, within, current.id, visited', ev');
    }
  }

  /**
   * searchLayer. The ghost results are everything that was evaluated; the
   * ghost parameters name a set of nodes the search cannot leave and a bound
   * on the degrees at the layer.
   */
  method SearchLayer(g: Graph, distance: DistanceFunc, query: Vector, entryPoints: seq<Id>, ef: nat, layer: nat,
                     ghost within: set<Id>, ghost degree: nat)
    returns (r: seq<Hit>, ghost ev: seq<Hit>)
    requires Members(entryPoints) <= within * g.Keys
    requires Closed(g, layer, within) && DegreesAt(g, layer, degree)
    ensures SortedHits(r) && TopOf(multiset(r), multiset(ev), ef)
    ensures Evaluated(g, distance, query, ev) && Members(entryPoints) <= IdsOf(ev) <= within * g.Keys
    ensures Unique(entryPoints) ==> UniqueHits(ev)
    ensures |entryPoints| <= |ev| <= |entryPoints| + 3 * ef * degree
    ensures Small(g, entryPoints, ef, layer, within) ==> IdsOf(ev) == within
    ensures NonNegative(ev) && |ev| <= 3 * ef ==> forall h :: h in r ==> Looked(g, layer, h.id, ev)
    ensures ef == 1 && |entryPoints| == 1 ==> LooksOnIff(g, distance, query, layer, entryPoints[0], ev)
  {
    var candidates := new Heap(false);
    var results := new Heap(true);
    var visited;
    visited, ev := SeedSearch(g, distance, query, entryPoints, ef, layer, within, candidates, results);
    ghost var seeds := ev;
    visited, ev := Explore(g, distance, query, entryPoints, ef, layer, within, degree, candidates, results, visited,
                           ev);
    TimesIs(3 * ef, degree);
    r := SortHits(results.data);
    AllLooked(g, layer, ef, r, visited, ev);
    if ef == 1 && |entryPoints| == 1 { OneLooked(g, distance, query, layer, entryPoints, within, seeds, visited, ev); }
  }

  /**
   * With one entry and room for one result, a search of negative distance
   * evaluates the entry and nothing else, so that it looks at the neighbours
   * exactly if the distance is not negative or there are none.
   */
  ghost predicate LooksOnIff(g: Graph, distance: DistanceFunc, query: Vector, layer: nat, entry: Id, ev: seq<Hit>)
  {
    && entry in g
    && (distance(query, g[entry].vector) < 0.0 ==> IdsOf(ev) == {entry})
    && (Looked(g, layer, entry, ev) <==>
        distance(query, g[entry].vector) >= 0.0 || Members(ListAt(g, entry, layer)) * g.Keys <= {entry})
  }

  lemma OneLooked(g: Graph, distance: DistanceFunc, query: Vector, layer: nat, entries: seq<Id>,
                  within: set<Id>, seeds: seq<Hit>, visited: set<Id>, ev: seq<Hit>)
    requires |entries| == 1 && |seeds| == 1 && Members(entries) <= visited * within * g.Keys
    requires Progress(g, distance, query, entries, within, Members(entries), seeds)
    requires IdsOf(ev) == visited * g.Keys
    requires if seeds[0].distance < 0.0 then ev == seeds else Expanded(g, layer, seeds[0], visited)
    ensures LooksOnIff(g, distance, query, layer, entries[0], ev)
  {
    assert entries[0] in Members(entries) && seeds[0] in seeds;
    assert seeds[0].id in IdsOf(seeds) && seeds[0].id == entries[0];
    assert distance(query, g[entries[0]].vector) == seeds[0].distance;
    assert IdsOf(seeds) == {entries[0]};
  }

  lemma AllLooked(g: Graph, layer: nat, ef: nat, r: seq<Hit>, visited: set<Id>, ev: seq<Hit>)
    requires AllExpanded(g, layer, ef, multiset(r), visited, ev) && IdsOf(ev) == visited * g.Keys
    ensures NonNegative(ev) && |ev| <= 3 * ef ==> forall h :: h in r ==> Looked(g, layer, h.id, ev)
  {
    forall h | h in r ensures h in multiset(r) {}
  }

  ghost predicate NonNegative(ev: seq<Hit>) {
    forall h :: h in ev ==> h.distance >= 0.0
  }

  /** Every link of the node at the layer leads to a node that was evaluated, or to none. */
  ghost predicate Looked(g: Graph, layer: nat, id: Id, ev: seq<Hit>) {
    id in g && Members(ListAt(g, id, layer)) * g.Keys <= IdsOf(ev)
  }

  /** The search loop: pops the nearest candidate until the visit threshold or an early exit. */
  method Explore(g: Graph, distance: DistanceFunc, query: Vector, ghost entries: seq<Id>, ef: nat, layer: nat,
                 ghost within: set<Id>, ghost degree: nat, candidates: Heap, results: Heap, seeded: set<Id>,
                 ghost seeds: seq<Hit>)
    returns (visited: set<Id>, ghost ev: seq<Hit>)
    requires HeapsOk(candidates, results, ef, seeds) && Waiting(g, layer, candidates, results, seeded)
    requires |candidates.data| == |seeds|
    requires Closed(g, layer, within) && DegreesAt(g, layer, degree)
    requires Progress(g, distance, query, entries, within, seeded, seeds)
    requires |candidates.data| == |entries| && Members(entries) <= g.Keys * within && Members(entries) <= seeded
    modifies candidates, results
    ensures HeapsOk(candidates, results, ef, ev)
    ensures AllExpanded(g, layer, ef, multiset(results.data), visited, ev)
    ensures Members(entries) <= visited && Progress(g, distance, query, entries, within, visited, ev)
    ensures |seeds| <= |ev| <= |seeds| + Times(3 * ef, degree)
    ensures Small(g, entries, ef, layer, within) ==> IdsOf(ev) == within
    ensures ef == 1 && |seeds| == 1 ==>
              if seeds[0].distance < 0.0 then ev == seeds else Expanded(g, layer, seeds[0], visited)
  {
    visited, ev := seeded, seeds;
    var visitThreshold: nat := 3 * ef;
    var visitCount: nat := 0;
    var stop := false;
    ghost var calls: nat, bound: nat := 0, 0;
    ghost var small := Small(g, entries, ef, layer, within);
    SmallHasRoom(g, entries, ef, layer, within);
    while |candidates.data| > 0 && !stop
      invariant HeapsOk(candidates, results, ef, ev)
      invariant Members(entries) <= visited && Progress(g, distance, query, entries, within, visited, ev)
      invariant visitCount <= visitThreshold || stop
      invariant calls <= visitCount && calls <= visitThreshold && |seeds| <= |ev| <= |seeds| + bound
      invariant bound == Times(calls, degree)
      invariant Exploring(g, layer, ef, candidates, results, visited, ev, visitCount, stop)
      invariant Alone(g, layer, ef, seeds, visitCount, |candidates.data|, stop, visited, ev)
      invariant small ==> 1 <= ef && (IdsOf(ev) == within || (visitCount == 0 && |candidates.data| > 0 && !stop))
      decreases !stop, visitThreshold + 1 - visitCount
    {
      visitCount := visitCount + 1;
      ghost var before, seen := ev, visited;
      stop, visited, ev := Turn(g, distance, query, entries, ef, layer, within, degree,
                                candidates, results, visitCount, visited, ev);
      AloneStep(g, layer, ef, seeds, visitCount, |candidates.data|, stop, seen, before, visited, ev);
      if visitCount <= visitThreshold {
        calls, bound := calls + 1, bound + degree;
      }
    }
    TimesGrows(calls, visitThreshold, degree);
  }

  /** A search with one entry and room for one result: at its start, or past its first turn. */
  ghost predicate Alone(g: Graph, layer: nat, ef: nat, seeds: seq<Hit>, visitCount: nat, waiting: nat, stop: bool,
                        visited: set<Id>, ev: seq<Hit>)
  {
    ef == 1 && |seeds| == 1 ==>
      if visitCount == 0 then ev == seeds && waiting > 0 && !stop
      else if seeds[0].distance < 0.0 then ev == seeds && stop
      else Expanded(g, layer, seeds[0], visited)
  }

  lemma AloneStep(g: Graph, layer: nat, ef: nat, seeds: seq<Hit>, visitCount: nat, waiting: nat, stop: bool,
                  seen: set<Id>, before: seq<Hit>, visited: set<Id>, ev: seq<Hit>)
    requires visitCount > 0 && Alone(g, layer, ef, seeds, visitCount - 1, 1, false, seen, before)
    requires seen <= visited && (visitCount <= 3 * ef ==> FirstTurn(g, layer, ef, before, stop, visited, ev))
    ensures Alone(g, layer, ef, seeds, visitCount, waiting, stop, visited, ev)
  {
  }

  /** Where the loop stands: how often it has popped, and which results it still has to look at. */
  ghost predicate Exploring(g: Graph, layer: nat, ef: nat, candidates: Heap, results: Heap, visited: set<Id>,
                            ev: seq<Hit>, visitCount: nat, stop: bool)
    reads candidates, results
  {
    && visitCount + |candidates.data| <= |ev|
    && (!stop ==> Waiting(g, layer, candidates, results, visited))
    && (stop ==> AllExpanded(g, layer, ef, multiset(results.data), visited, ev))
  }

  /** Unless the visit threshold has ended the search, the links of all results have been visited. */
  ghost predicate AllExpanded(g: Graph, layer: nat, ef: nat, rs: multiset<Hit>, visited: set<Id>, ev: seq<Hit>) {
    NonNegative(ev) && |ev| <= 3 * ef ==> forall h :: h in rs ==> Expanded(g, layer, h, visited)
  }

  /** One turn of the loop. */
  method Turn(g: Graph, distance: DistanceFunc, query: Vector, ghost entries: seq<Id>, ef: nat, layer: nat,
              ghost within: set<Id>, ghost degree: nat, candidates: Heap, results: Heap, visitCount: nat,
              visited: set<Id>, ghost ev: seq<Hit>)
    returns (stop: bool, visited': set<Id>, ghost ev': seq<Hit>)
    requires HeapsOk(candidates, results, ef, ev) && |candidates.data| > 0
    requires Closed(g, layer, within) && DegreesAt(g, layer, degree)
    requires Progress(g, distance, query, entries, within, visited, ev)
    requires 1 <= visitCount <= 3 * ef + 1
    requires Exploring(g, layer, ef, candidates, results, visited, ev, visitCount - 1, false)
    modifies candidates, results
    ensures HeapsOk(candidates, results, ef, ev') && Progress(g, distance, query, entries, within, visited', ev')
    ensures Exploring(g, layer, ef, candidates, results, visited', ev', visitCount, stop)
    ensures visited <= visited' && |ev| <= |ev'| <= |ev| + degree
    ensures visitCount > 3 * ef ==> stop && ev' == ev
    ensures visitCount <= 3 * ef && Small(g, entries, ef, layer, within) ==> IdsOf(ev') == within
    ensures visitCount <= 3 * ef ==> FirstTurn(g, layer, ef, ev, stop, visited', ev')
  {
    ghost var queue := multiset(candidates.data);
    var current := candidates.Pop();
    if visitCount > 3 * ef {
      return true, visited, ev;
    }
    Popped(g, layer, queue, multiset(candidates.data), multiset(results.data), visited, current);
    stop, visited', ev' := Examine(g, distance, query, entries, ef, layer, within, degree,
                                   candidates, results, current, visited, ev);
  }

  lemma Popped(g: Graph, layer: nat, cs: multiset<Hit>, left: multiset<Hit>, rs: multiset<Hit>, visited: set<Id>,
               current: Hit)
    requires cs == left + multiset{current}
    requires forall h :: h in cs ==> Rank(false, current) <= Rank(false, h)
    requires forall h :: h in rs ==> h in cs || Expanded(g, layer, h, visited)
    ensures WaitingBut(g, layer, left, rs, visited, current)
  {
    forall h | h in left ensures current.distance <= h.distance { assert Rank(false, current) <= Rank(false, h); }
  }

  /** A small search has at least its entry point to return. */
  lemma SmallHasRoom(g: Graph, entries: seq<Id>, ef: nat, layer: nat, within: set<Id>)
    requires Members(entries) <= within
    ensures Small(g, entries, ef, layer, within) ==> 1 <= ef
  {
    if Small(g, entries, ef, layer, within) { assert entries[0] in within; }
  }

  ghost function Times(n: nat, d: nat): nat {
    if n == 0 then 0 else Times(n - 1, d) + d
  }

  lemma {:induction false} TimesIs(n: nat, d: nat)
    ensures Times(n, d) == n * d
  {
    if n > 0 { TimesIs(n - 1, d); }
  }

  lemma {:induction false} TimesGrows(a: nat, b: nat, d: nat)
    requires a <= b
    ensures Times(a, d) <= Times(b, d)
  {
    if a < b { TimesGrows(a, b - 1, d); }
  }
}
