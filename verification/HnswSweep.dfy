/**
 * What one search of a layer amounts to, in terms of the graph alone: what it
 * looked at and what it gave, and a descent as the path of such searches.
 */
module HnswSweep {
  import opened Base
  import opened HnswHeap
  import opened HnswSearch
  import opened HnswGraph

  /** The nodes looked at, and the ones given, nearest first. */
  datatype Sweep = Sweep(looked: set<Id>, hits: seq<Id>)

  predicate NoFartherThan(g: Graph, distance: DistanceFunc, query: Vector, a: Id, b: Id) {
    a in g && b in g && distance(query, g[a].vector) <= distance(query, g[b].vector)
  }

  predicate IsNegative(g: Graph, distance: DistanceFunc, query: Vector, id: Id) {
    id in g && distance(query, g[id].vector) < 0.0
  }

  /** hits are the ef nearest of the nodes looked at, nearest first. */
  ghost predicate NearestOf(g: Graph, distance: DistanceFunc, query: Vector, ef: nat, s: Sweep) {
    && s.looked <= g.Keys && Unique(s.hits) && Members(s.hits) <= s.looked && |s.hits| == Min(ef, |s.looked|)
    && (forall i, j :: 0 <= i < j < |s.hits| ==> NoFartherThan(g, distance, query, s.hits[i], s.hits[j]))
    && (forall a, b :: a in s.hits && b in s.looked && b !in s.hits ==> NoFartherThan(g, distance, query, a, b))
  }

  /** Nothing was looked at that the links of the layer do not lead to. */
  ghost predicate OnlyReached(g: Graph, layer: nat, entries: set<Id>, looked: set<Id>) {
    forall w: set<Id> :: Closed(g, layer, w) && entries <= w ==> looked <= w
  }

  /** Of a complete set no larger than the beam, everything was looked at. */
  ghost predicate AllOfSmall(g: Graph, layer: nat, ef: nat, entries: set<Id>, looked: set<Id>) {
    forall w: set<Id> :: CompleteOn(g, layer, w) && entries <= w && |w| <= ef ==> w <= looked
  }

  /** The links of everything that was given were followed, unless a distance is negative or too much was looked at. */
  ghost predicate LinksFollowed(g: Graph, distance: DistanceFunc, query: Vector, layer: nat, ef: nat, s: Sweep) {
    (forall id :: id in s.looked ==> !IsNegative(g, distance, query, id)) && |s.looked| <= 3 * ef ==>
      forall a :: a in s.hits ==> a in g && Members(ListAt(g, a, layer)) * g.Keys <= s.looked
  }

  /** A search of a layer from the entries, with a beam of ef. */
  ghost predicate Swept(g: Graph, distance: DistanceFunc, query: Vector, layer: nat, ef: nat, entries: set<Id>,
                        s: Sweep)
  {
    && entries <= s.looked && NearestOf(g, distance, query, ef, s)
    && OnlyReached(g, layer, entries, s.looked) && AllOfSmall(g, layer, ef, entries, s.looked)
    && LinksFollowed(g, distance, query, layer, ef, s)
  }

  /** The nodes of a closed set that cannot be left out of any closed set around the entries. */
  ghost function Reach(g: Graph, layer: nat, within: set<Id>, entries: set<Id>): set<Id> {
    set a | a in within && forall w: set<Id> :: Closed(g, layer, w) && entries <= w ==> a in w
  }

  lemma ReachIsLeast(g: Graph, layer: nat, within: set<Id>, entries: set<Id>)
    requires Closed(g, layer, within) && entries <= within
    ensures var r := Reach(g, layer, within, entries);
            Closed(g, layer, r) && entries <= r <= within && OnlyReached(g, layer, entries, r)
  {
    var r := Reach(g, layer, within, entries);
    forall a | a in r && a in g ensures Members(ListAt(g, a, layer)) <= r {
      forall n | n in Members(ListAt(g, a, layer)) ensures n in r {
        forall w: set<Id> | Closed(g, layer, w) && entries <= w ensures n in w {
          assert a in w;
        }
      }
    }
  }

  lemma CompleteClosed(g: Graph, layer: nat, w: set<Id>)
    requires CompleteOn(g, layer, w)
    ensures Closed(g, layer, w)
  {
  }

  /** A complete set with an entry in it is what the entry reaches. */
  lemma CompleteIsReach(g: Graph, layer: nat, within: set<Id>, entries: set<Id>, w: set<Id>)
    requires Closed(g, layer, within) && entries <= within && entries != {}
    requires CompleteOn(g, layer, w) && entries <= w
    ensures Reach(g, layer, within, entries) == w
  {
    CompleteClosed(g, layer, w);
    ReachIsLeast(g, layer, within, entries);
    var r := Reach(g, layer, within, entries);
    var e :| e in entries;
    assert e in r && Members(ListAt(g, e, layer)) == w - {e};
  }

  ghost predicate IdsAre(ids: seq<Id>, hits: seq<Hit>) {
    |ids| == |hits| && forall i :: 0 <= i < |ids| ==> ids[i] == hits[i].id
  }

  lemma HitsFromLooked(g: Graph, distance: DistanceFunc, query: Vector, ef: nat, r: seq<Hit>, ev: seq<Hit>, s: Sweep)
    requires TopOf(multiset(r), multiset(ev), ef) && UniqueHits(ev) && Evaluated(g, distance, query, ev)
    requires s.looked == IdsOf(ev) && IdsAre(s.hits, r)
    ensures |s.hits| == Min(ef, |s.looked|) && Unique(s.hits) && s.looked <= g.Keys
    ensures Members(s.hits) <= s.looked && forall h :: h in r ==> h in ev
  {
    UniqueCount(ev);
    PartUnique(r, ev);
    assert |multiset(ev)| == |ev| && |multiset(r)| == |r|;
    forall h | h in r ensures h in ev { assert h in multiset(r); }
    forall i | 0 <= i < |r| ensures s.hits[i] in s.looked { assert r[i] in r; }
  }

  lemma HitsNearest(g: Graph, distance: DistanceFunc, query: Vector, ef: nat, r: seq<Hit>, ev: seq<Hit>, s: Sweep)
    requires SortedHits(r) && TopOf(multiset(r), multiset(ev), ef)
    requires UniqueHits(ev) && Evaluated(g, distance, query, ev)
    requires s.looked == IdsOf(ev) && IdsAre(s.hits, r)
    ensures NearestOf(g, distance, query, ef, s)
  {
    HitsFromLooked(g, distance, query, ef, r, ev, s);
    forall i, j | 0 <= i < j < |r| ensures NoFartherThan(g, distance, query, s.hits[i], s.hits[j]) {
      assert r[i] in r && r[j] in r;
    }
    forall a, b | a in s.hits && b in s.looked && b !in s.hits ensures NoFartherThan(g, distance, query, a, b) {
      var i :| 0 <= i < |r| && s.hits[i] == a;
      var h :| h in ev && h.id == b;
      LeftOut(r, ev, ef, i, h);
      assert r[i] in r;
    }
  }

  /** What was evaluated but not given is no nearer than what was given. */
  lemma LeftOut(r: seq<Hit>, ev: seq<Hit>, ef: nat, i: nat, h: Hit)
    requires TopOf(multiset(r), multiset(ev), ef) && i < |r| && h in ev && forall j :: 0 <= j < |r| ==> r[j].id != h.id
    ensures r[i].distance <= h.distance
  {
    assert h !in r;
    assert h in multiset(ev) - multiset(r) && r[i] in multiset(r);
  }

  lemma HitsFollowed(g: Graph, distance: DistanceFunc, query: Vector, layer: nat, ef: nat, r: seq<Hit>, ev: seq<Hit>,
                     s: Sweep)
    requires UniqueHits(ev) && Evaluated(g, distance, query, ev) && s.looked == IdsOf(ev) && IdsAre(s.hits, r)
    requires NonNegative(ev) && |ev| <= 3 * ef ==> forall h :: h in r ==> Looked(g, layer, h.id, ev)
    ensures LinksFollowed(g, distance, query, layer, ef, s)
  {
    UniqueCount(ev);
    if (forall id :: id in s.looked ==> !IsNegative(g, distance, query, id)) && |s.looked| <= 3 * ef {
      forall h | h in ev ensures h.distance >= 0.0 { assert h.id in s.looked && !IsNegative(g, distance, query, h.id); }
      forall a | a in s.hits ensures a in g && Members(ListAt(g, a, layer)) * g.Keys <= s.looked {
        var i :| 0 <= i < |r| && s.hits[i] == a;
        assert r[i] in r;
      }
    }
  }

  lemma SmallLooked(g: Graph, layer: nat, ef: nat, within: set<Id>, entryPoints: seq<Id>, looked: set<Id>)
    requires Closed(g, layer, within) && Members(entryPoints) <= within && Unique(entryPoints) && entryPoints != []
    requires var reach := Reach(g, layer, within, Members(entryPoints));
             Small(g, entryPoints, ef, layer, reach) ==> looked == reach
    ensures AllOfSmall(g, layer, ef, Members(entryPoints), looked)
  {
    var entries := Members(entryPoints);
    assert entryPoints[0] in entries;
    forall w: set<Id> | CompleteOn(g, layer, w) && entries <= w && |w| <= ef ensures w <= looked {
      CompleteIsReach(g, layer, within, entries, w);
    }
  }

  lemma ReachedOnly(g: Graph, layer: nat, entries: set<Id>, reach: set<Id>, looked: set<Id>)
    requires OnlyReached(g, layer, entries, reach) && looked <= reach
    ensures OnlyReached(g, layer, entries, looked)
  {
    forall w: set<Id> | Closed(g, layer, w) && entries <= w ensures looked <= w { assert reach <= w; }
  }

  /** The search of a layer, as a sweep. */
  method Sweeping(g: Graph, distance: DistanceFunc, query: Vector, entryPoints: seq<Id>, ef: nat, layer: nat,
                  ghost within: set<Id>, ghost degree: nat)
    returns (r: seq<Hit>, ghost ev: seq<Hit>, ghost s: Sweep)
    requires Members(entryPoints) <= within * g.Keys && Unique(entryPoints) && entryPoints != []
    requires Closed(g, layer, within) && DegreesAt(g, layer, degree)
    ensures SortedHits(r) && TopOf(multiset(r), multiset(ev), ef) && UniqueHits(ev) && Evaluated(g, distance, query, ev)
    ensures Members(entryPoints) <= IdsOf(ev) <= within * g.Keys
    ensures |entryPoints| <= |ev| <= |entryPoints| + 3 * ef * degree
    ensures ef == 1 && |entryPoints| == 1 ==> LooksOnIff(g, distance, query, layer, entryPoints[0], ev)
    ensures Swept(g, distance, query, layer, ef, Members(entryPoints), s) && s.looked == IdsOf(ev) && IdsAre(s.hits, r)
  {
    ghost var entries := Members(entryPoints);
    ghost var reach := Reach(g, layer, within, entries);
    ReachIsLeast(g, layer, within, entries);
    r, ev := SearchLayer(g, distance, query, entryPoints, ef, layer, reach, degree);
    s := Sweep(IdsOf(ev), seq(|r|, i requires 0 <= i < |r| => r[i].id));
    HitsNearest(g, distance, query, ef, r, ev, s);
    HitsFollowed(g, distance, query, layer, ef, r, ev, s);
    SmallLooked(g, layer, ef, within, entryPoints, s.looked);
    ReachedOnly(g, layer, entries, reach, s.looked);
  }

  /** No node that start links to is nearer to the query than best. */
  ghost predicate BeatsLinks(g: Graph, distance: DistanceFunc, query: Vector, best: Id, start: Id, layer: nat) {
    best in g && start in g && forall n :: n in Members(ListAt(g, start, layer)) && n in g ==>
      distance(query, g[best].vector) <= distance(query, g[n].vector)
  }

  /**
   * One step of a descent: to a node that the layer leads to and that is no
   * farther than any link, unless the distance is negative, when the early
   * exit keeps it where it is.
   */
  ghost predicate GreedyStep(g: Graph, distance: DistanceFunc, query: Vector, layer: nat, a: Id, b: Id) {
    && NoFartherThan(g, distance, query, b, a) && OnlyReached(g, layer, {a}, {b})
    && if IsNegative(g, distance, query, a) then b == a else BeatsLinks(g, distance, query, b, a, layer)
  }

  /** A descent from one layer down to another, with a step on each but the last. */
  ghost predicate DescendsBy(g: Graph, distance: DistanceFunc, query: Vector, from: nat, downTo: nat, path: seq<Id>) {
    && |path| == 1 + Max(0, from - downTo) && path[0] in g
    && forall i :: 0 <= i < |path| - 1 ==> GreedyStep(g, distance, query, from - i, path[i], path[i + 1])
  }

  lemma DescendMore(g: Graph, distance: DistanceFunc, query: Vector, from: nat, level: nat, path: seq<Id>, b: Id)
    requires 1 <= level <= from && DescendsBy(g, distance, query, from, level, path)
    requires GreedyStep(g, distance, query, level, path[|path| - 1], b)
    ensures DescendsBy(g, distance, query, from, level - 1, path + [b])
  {
    var longer := path + [b];
    forall i | 0 <= i < |path| ensures GreedyStep(g, distance, query, from - i, longer[i], longer[i + 1]) {
      assert longer[i] == path[i];
    }
  }

  /** Along a descent nothing gets farther. */
  lemma {:induction false} DescentNearer(g: Graph, distance: DistanceFunc, query: Vector, from: nat, downTo: nat,
                                         path: seq<Id>, i: nat)
    requires DescendsBy(g, distance, query, from, downTo, path) && i < |path|
    ensures NoFartherThan(g, distance, query, path[|path| - 1], path[i])
    decreases |path| - i
  {
    if i < |path| - 1 {
      assert GreedyStep(g, distance, query, from - i, path[i], path[i + 1]);
      DescentNearer(g, distance, query, from, downTo, path, i + 1);
    } else if i > 0 {
      assert GreedyStep(g, distance, query, from - (i - 1), path[i - 1], path[i]);
    }
  }

  /** Where a descent ends is no farther than any link of any of its nodes on that node's layer. */
  lemma DescentBeatsLinks(g: Graph, distance: DistanceFunc, query: Vector, from: nat, downTo: nat, path: seq<Id>,
                          i: nat)
    requires DescendsBy(g, distance, query, from, downTo, path) && i < |path| - 1
    requires !IsNegative(g, distance, query, path[i])
    ensures BeatsLinks(g, distance, query, path[|path| - 1], path[i], from - i)
  {
    assert GreedyStep(g, distance, query, from - i, path[i], path[i + 1]);
    DescentNearer(g, distance, query, from, downTo, path, i + 1);
  }

  /** Graphs with the same vectors and the same lists at a layer are searched alike. */
  ghost predicate SameLayer(g: Graph, h: Graph, layer: nat) {
    SameNodes(g, h) && forall id :: id in g ==> ListAt(h, id, layer) == ListAt(g, id, layer)
  }

  lemma SweptAlike(g: Graph, h: Graph, distance: DistanceFunc, query: Vector, layer: nat, ef: nat, entries: set<Id>,
                   s: Sweep)
    requires SameLayer(g, h, layer) && Swept(h, distance, query, layer, ef, entries, s)
    ensures Swept(g, distance, query, layer, ef, entries, s)
  {
    forall w: set<Id> | Closed(g, layer, w) && entries <= w ensures s.looked <= w { assert Closed(h, layer, w); }
    forall w: set<Id> | CompleteOn(g, layer, w) && entries <= w && |w| <= ef ensures w <= s.looked {
      assert CompleteOn(h, layer, w);
    }
    NearestAlike(g, h, distance, query, ef, s);
    FollowedAlike(g, h, distance, query, layer, ef, s);
  }

  lemma NearestAlike(g: Graph, h: Graph, distance: DistanceFunc, query: Vector, ef: nat, s: Sweep)
    requires SameNodes(g, h) && NearestOf(h, distance, query, ef, s)
    ensures NearestOf(g, distance, query, ef, s)
  {
    forall a, b | NoFartherThan(h, distance, query, a, b) ensures NoFartherThan(g, distance, query, a, b) {}
  }

  lemma FollowedAlike(g: Graph, h: Graph, distance: DistanceFunc, query: Vector, layer: nat, ef: nat, s: Sweep)
    requires SameLayer(g, h, layer) && LinksFollowed(h, distance, query, layer, ef, s)
    ensures LinksFollowed(g, distance, query, layer, ef, s)
  {
    forall id ensures IsNegative(h, distance, query, id) == IsNegative(g, distance, query, id) {}
  }

  /** x is linked to the nearest nodes that a search from the entries looked at, as many as beam and cap allow. */
  ghost predicate LinksFrom(g: Graph, distance: DistanceFunc, x: Id, layer: nat, m: nat, ef: nat, entries: set<Id>,
                            s: Sweep, links: seq<Id>)
  {
    && x in g && Swept(g, distance, g[x].vector, layer, ef, entries, s) && x !in s.looked
    && FirstHits(links, s, Cap(m, layer))
  }

  /** Where the search of a layer starts: with what the layer above gave, or where the descent ended. */
  function EntriesAt(sweeps: seq<Sweep>, layer: int, start: Id): seq<Id>
    requires -1 <= layer
  {
    if layer + 1 < |sweeps| && sweeps[layer + 1].hits != [] then sweeps[layer + 1].hits else [start]
  }

  /** The layers of x above lc, linked as the searches say. */
  ghost predicate LinkedBy(g: Graph, h: Graph, distance: DistanceFunc, x: Id, m: nat, ef: nat, lc: int, start: Id,
                           sweeps: seq<Sweep>)
  {
    && x in g && x in h && |sweeps| == g[x].level + 1 == |h[x].neighbors|
    && forall l: nat :: lc < l < |sweeps| ==>
         LinksFrom(g, distance, x, l, m, ef, Members(EntriesAt(sweeps, l, start)), sweeps[l], h[x].neighbors[l])
  }

  /** A property of searches, given by their layer and their entries. */
  type Finding = (nat, seq<Id>, Sweep) -> bool

  /** Every search of the graph that does not look at x has the property. */
  ghost function Explains(g: Graph, distance: DistanceFunc, x: Id, ef: nat): Finding -> bool {
    (P: Finding) =>
      x in g
      && forall l: nat, es: seq<Id>, s: Sweep {:trigger Swept(g, distance, g[x].vector, l, ef, Members(es), s)} ::
        Swept(g, distance, g[x].vector, l, ef, Members(es), s) && x !in s.looked ==> P(l, es, s)
  }

  /** So has every search of one layer from these entries. */
  ghost predicate ExplainsAt(h: Graph, distance: DistanceFunc, x: Id, ef: nat, P: Finding, layer: nat, es: seq<Id>) {
    x in h && forall s: Sweep {:trigger Swept(h, distance, h[x].vector, layer, ef, Members(es), s)} ::
      Swept(h, distance, h[x].vector, layer, ef, Members(es), s) && x !in s.looked ==> P(layer, es, s)
  }

  lemma ExplainedAt(g: Graph, h: Graph, distance: DistanceFunc, x: Id, ef: nat, P: Finding, layer: nat, es: seq<Id>)
    requires Explains(g, distance, x, ef)(P) && SameLayer(g, h, layer)
    ensures ExplainsAt(h, distance, x, ef, P, layer, es)
  {
    forall s: Sweep | Swept(h, distance, h[x].vector, layer, ef, Members(es), s) && x !in s.looked
      ensures P(layer, es, s)
    {
      SweptAlike(g, h, distance, g[x].vector, layer, ef, Members(es), s);
    }
  }

  /** The links chosen after a search: the first hits, as many as the cap allows. */
  predicate FirstHits(links: seq<Id>, s: Sweep, cap: nat) {
    links == s.hits[..Min(cap, |s.hits|)]
  }

  /** The layers of x above lc, each with the first hits of a search that has the property. */
  ghost predicate LinkedAs(P: Finding, h: Graph, x: Id, m: nat, lc: int, start: Id, sweeps: seq<Sweep>) {
    && x in h && |sweeps| == |h[x].neighbors|
    && forall l: nat :: lc < l < |sweeps| ==>
         P(l, EntriesAt(sweeps, l, start), sweeps[l]) && FirstHits(h[x].neighbors[l], sweeps[l], Cap(m, l))
  }

  lemma LinkedMore(P: Finding, h: Graph, k: Graph, x: Id, m: nat, lc: nat, start: Id, sweeps: seq<Sweep>, s: Sweep)
    requires LinkedAs(P, h, x, m, lc, start, sweeps) && lc < |sweeps| && x in k
    requires |k[x].neighbors| == |h[x].neighbors|
    requires forall l :: lc < l < |sweeps| ==> k[x].neighbors[l] == h[x].neighbors[l]
    requires P(lc, EntriesAt(sweeps, lc, start), s) && FirstHits(k[x].neighbors[lc], s, Cap(m, lc))
    ensures LinkedAs(P, k, x, m, lc - 1, start, sweeps[lc := s])
  {
    forall l: nat | lc - 1 < l < |sweeps| ensures EntriesAt(sweeps[lc := s], l, start) == EntriesAt(sweeps, l, start) {}
  }

  /**
   * What an insertion from e does: a descent to the layer above the new node,
   * and from there down one search a layer, each starting with what the one
   * before gave.
   */
  ghost predicate InsertedBy(g: Graph, h: Graph, distance: DistanceFunc, x: Id, e: Id, maxLevel: nat, m: nat, ef: nat,
                             path: seq<Id>, sweeps: seq<Sweep>)
  {
    && x in g && DescendsBy(g, distance, g[x].vector, maxLevel, g[x].level, path) && path[0] == e
    && LinkedBy(g, h, distance, x, m, ef, -1, path[|path| - 1], sweeps)
  }
}
