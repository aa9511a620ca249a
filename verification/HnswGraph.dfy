/**
 * The invariants of the index graph, and what linking one new node at one
 * layer does to it.
 */
module HnswGraph {
  import opened Base
  import opened HnswHeap
  import opened HnswSearch

  const MAX_LEVEL := 16

  /** At most 2m links everywhere; insertion alone keeps at most m above layer 0. */
  function Cap(m: nat, layer: nat): nat {
    if layer == 0 then 2 * m else m
  }

  ghost predicate LinksOk(g: Graph, id: Id, links: seq<Id>, d: nat) {
    Unique(links) && id !in links && Members(links) <= g.Keys && |links| <= d
  }

  ghost predicate GraphOk(g: Graph, m: nat) {
    forall id :: id in g ==>
      && |g[id].neighbors| == g[id].level + 1 && g[id].level <= MAX_LEVEL
      && forall l :: 0 <= l <= g[id].level ==> LinksOk(g, id, g[id].neighbors[l], 2 * m)
  }

  /** Nil exactly when the graph is empty; else a present node of the greatest level. */
  ghost predicate EntryOk(g: Graph, entryPoint: Option<Id>, maxLevel: nat) {
    match entryPoint
    case None => g == map[] && maxLevel == 0
    case Some(e) => e in g && g[e].level == maxLevel && forall id :: id in g ==> g[id].level <= maxLevel
  }

  /** The degrees a graph has if nothing was ever removed. */
  ghost predicate AddOnlyDegrees(g: Graph, m: nat) {
    forall id, l :: id in g && 0 < l < |g[id].neighbors| ==> |g[id].neighbors[l]| <= m
  }

  function Vectors(g: Graph): map<Id, Vector> {
    map id | id in g :: g[id].vector
  }

  /** Same nodes, same vectors, same levels; only links may differ. */
  ghost predicate SameNodes(g: Graph, h: Graph) {
    && g.Keys == h.Keys
    && forall id :: id in g ==>
         h[id].vector == g[id].vector && h[id].level == g[id].level && |h[id].neighbors| == |g[id].neighbors|
  }

  function WithList(g: Graph, id: Id, layer: nat, links: seq<Id>): Graph
    requires id in g && layer < |g[id].neighbors|
  {
    g[id := g[id].(neighbors := g[id].neighbors[layer := links])]
  }

  /** kept are the nodes of from nearest to id. */
  ghost predicate Nearest(v: map<Id, Vector>, distance: DistanceFunc, id: Id, from: seq<Id>, kept: seq<Id>) {
    && id in v && Members(from) <= v.Keys
    && Unique(kept) && Members(kept) <= Members(from)
    && forall a, b :: a in kept && b in from && b !in kept ==> distance(v[id], v[a]) <= distance(v[id], v[b])
  }

  /** The list of a neighbour after x was appended to it and, beyond the cap, only the nearest were kept. */
  ghost predicate Relinked(v: map<Id, Vector>, distance: DistanceFunc, id: Id, before: seq<Id>, after: seq<Id>,
                           x: Id, cap: nat)
  {
    if |before| + 1 <= cap then after == before + [x]
    else |after| == cap && Nearest(v, distance, id, before + [x], after)
  }

  ghost predicate NoLinksTo(g: Graph, x: Id, layer: nat) {
    forall id :: id in g ==> x !in ListAt(g, id, layer)
  }

  /** From g to h the nodes in done were linked back to x at the layer, and nothing else changed. */
  ghost predicate LinkedBack(g: Graph, h: Graph, distance: DistanceFunc, x: Id, layer: nat, cap: nat, done: set<Id>) {
    && SameNodes(g, h)
    && (forall id, l :: id in g && 0 <= l < |g[id].neighbors| && l != layer ==>
        h[id].neighbors[l] == g[id].neighbors[l])
    && (forall id :: id in g && layer < |g[id].neighbors| ==>
          if id in done
          then Relinked(Vectors(g), distance, id, g[id].neighbors[layer], h[id].neighbors[layer], x, cap)
          else h[id].neighbors[layer] == g[id].neighbors[layer])
  }

  lemma UniqueSize(s: seq<Id>)
    requires Unique(s)
    ensures |Members(s)| == |s|
  {
    if s != [] {
      var n := |s| - 1;
      UniqueSize(s[..n]);
      MembersSnoc(s, n);
      assert s[..n + 1] == s;
    }
  }

  lemma AppendUnique(s: seq<Id>, x: Id)
    requires Unique(s) && x !in s
    ensures Unique(s + [x]) && Members(s + [x]) == Members(s) + {x}
  {
  }

  lemma GraphClosed(g: Graph, m: nat, layer: nat)
    requires GraphOk(g, m)
    ensures Closed(g, layer, g.Keys) && DegreesAt(g, layer, 2 * m)
  {
    forall id | id in g ensures Members(ListAt(g, id, layer)) <= g.Keys && |ListAt(g, id, layer)| <= 2 * m {
      if layer < |g[id].neighbors| {
        assert LinksOk(g, id, g[id].neighbors[layer], 2 * m);
      } else {
        assert Members([]) == {};
      }
    }
  }

  /** Without links to x at the layer, a search that starts elsewhere never meets x. */
  lemma ClosedWithout(g: Graph, m: nat, layer: nat, x: Id)
    requires GraphOk(g, m) && NoLinksTo(g, x, layer)
    ensures Closed(g, layer, g.Keys - {x}) && DegreesAt(g, layer, 2 * m)
  {
    GraphClosed(g, m, layer);
  }

  lemma RelinkedOk(g: Graph, distance: DistanceFunc, id: Id, before: seq<Id>, after: seq<Id>, x: Id, cap: nat, m: nat)
    requires id in g && x in g && x != id && x !in before && LinksOk(g, id, before, 2 * m) && cap <= 2 * m
    requires Relinked(Vectors(g), distance, id, before, after, x, cap)
    ensures LinksOk(g, id, after, 2 * m) && |after| <= cap && Members(after) <= Members(before) + {x}
  {
    AppendUnique(before, x);
    assert Vectors(g).Keys == g.Keys;
    assert forall a :: a in after ==> a in Members(after);
    assert forall a :: a in Members(before) + {x} ==> a == x || a in before;
  }

  lemma LinkedBackOk(g: Graph, h: Graph, distance: DistanceFunc, x: Id, layer: nat, m: nat, done: set<Id>)
    requires GraphOk(g, m) && x in g && x !in done && NoLinksTo(g, x, layer)
    requires LinkedBack(g, h, distance, x, layer, Cap(m, layer), done)
    ensures GraphOk(h, m)
    ensures AddOnlyDegrees(g, m) ==> AddOnlyDegrees(h, m)
  {
    forall id, l | id in h && 0 <= l <= h[id].level
      ensures LinksOk(h, id, h[id].neighbors[l], 2 * m)
      ensures AddOnlyDegrees(g, m) && l > 0 ==> |h[id].neighbors[l]| <= m
    {
      assert LinksOk(g, id, g[id].neighbors[l], 2 * m);
      if l == layer && id in done {
        assert x !in ListAt(g, id, layer);
        RelinkedOk(g, distance, id, g[id].neighbors[l], h[id].neighbors[l], x, Cap(m, layer), m);
      }
    }
  }

  /** One more neighbour of the list has been linked back. */
  lemma LinkedBackStep(g: Graph, h: Graph, h': Graph, distance: DistanceFunc, x: Id, layer: nat, cap: nat,
                       done: set<Id>, id: Id, links: seq<Id>)
    requires LinkedBack(g, h, distance, x, layer, cap, done) && id in g && id !in done
    requires layer < |g[id].neighbors| && h' == WithList(h, id, layer, links)
    requires Relinked(Vectors(g), distance, id, g[id].neighbors[layer], links, x, cap)
    ensures LinkedBack(g, h', distance, x, layer, cap, done + {id})
  {
  }

  lemma LinkedBackSkip(g: Graph, h: Graph, distance: DistanceFunc, x: Id, layer: nat, cap: nat, done: set<Id>, id: Id)
    requires LinkedBack(g, h, distance, x, layer, cap, done)
    requires id in g ==> layer >= |g[id].neighbors|
    ensures LinkedBack(g, h, distance, x, layer, cap, done + {id})
  {
  }

  /** The nodes of a complete set fit in the caps: they all stay linked, and x is linked to all of them. */
  lemma CompleteAfterLink(g: Graph, h: Graph, distance: DistanceFunc, x: Id, layer: nat, cap: nat, w: set<Id>)
    requires CompleteOn(g, layer, w) && |w| <= cap && x !in w && x in h && w <= h.Keys
    requires Members(ListAt(h, x, layer)) == w
    requires forall a :: a in w ==>
               Unique(ListAt(g, a, layer)) &&
               Relinked(Vectors(g), distance, a, ListAt(g, a, layer), ListAt(h, a, layer), x, cap)
    ensures CompleteOn(h, layer, w + {x})
  {
    forall a | a in w + {x} ensures Members(ListAt(h, a, layer)) == w + {x} - {a} {
      if a != x {
        var links := ListAt(g, a, layer);
        UniqueSize(links);
        assert |w - {a}| == |w| - 1;
        assert x !in Members(links);
        AppendUnique(links, x);
      }
    }
  }

  lemma CountsTwice(s: seq<Hit>, i: nat, j: nat)
    requires i < j < |s| && s[i] == s[j]
    ensures multiset(s)[s[i]] >= 2
  {
    assert s == s[..j] + [s[j]] + s[j + 1..];
    assert s[i] in s[..j];
  }

  lemma {:induction false} FoundTwice(s: seq<Hit>, h: Hit) returns (i: nat, j: nat)
    requires multiset(s)[h] >= 2
    ensures i < j < |s| && s[i] == s[j] == h
  {
    var n := |s| - 1;
    assert s == s[..n] + [s[n]];
    if s[n] == h {
      assert h in s[..n];
      i :| 0 <= i < n && s[i] == h;
      j := n;
    } else {
      i, j := FoundTwice(s[..n], h);
    }
  }

  /** Part of a list of hits with distinct nodes has distinct nodes. */
  lemma PartUnique(part: seq<Hit>, all: seq<Hit>)
    requires multiset(part) <= multiset(all) && UniqueHits(all)
    ensures UniqueHits(part) && IdsOf(part) <= IdsOf(all)
  {
    forall h | h in part ensures h in all { assert h in multiset(part); }
    forall i, j | 0 <= i < j < |part| ensures part[i].id != part[j].id {
      assert part[i] in all && part[j] in all;
      if part[i] == part[j] {
        CountsTwice(part, i, j);
        var a, b := FoundTwice(all, part[i]);
      }
    }
  }

  lemma SameMembers(a: seq<Hit>, b: seq<Hit>)
    requires multiset(a) == multiset(b)
    ensures IdsOf(a) == IdsOf(b)
  {
    forall h ensures h in a <==> h in b { assert h in multiset(a) <==> h in multiset(b); }
  }

  /** selectNeighbors: the first n of the candidates. */
  method SelectNeighbors(candidates: seq<Hit>, n: nat) returns (ids: seq<Id>)
    ensures |ids| == Min(n, |candidates|) && forall i :: 0 <= i < |ids| ==> ids[i] == candidates[i].id
  {
    ids := [];
    for i := 0 to Min(n, |candidates|)
      invariant |ids| == i && forall j :: 0 <= j < i ==> ids[j] == candidates[j].id
    {
      ids := ids + [candidates[i].id];
    }
  }

  /** The first ids of sorted, distinct candidates are the nearest of them. */
  lemma SelectedNearest(v: map<Id, Vector>, distance: DistanceFunc, id: Id, from: seq<Id>, sorted: seq<Hit>,
                        ids: seq<Id>)
    requires id in v && Members(from) <= v.Keys
    requires SortedHits(sorted) && UniqueHits(sorted) && IdsOf(sorted) == Members(from)
    requires forall h :: h in sorted ==> h.id in v && h.distance == distance(v[id], v[h.id])
    requires |ids| <= |sorted| && forall i :: 0 <= i < |ids| ==> ids[i] == sorted[i].id
    ensures Nearest(v, distance, id, from, ids)
  {
    forall a | a in ids ensures a in Members(from) {
      var i :| 0 <= i < |ids| && ids[i] == a;
      assert sorted[i] in sorted && sorted[i].id in IdsOf(sorted);
    }
    forall a, b | a in ids && b in from && b !in ids ensures distance(v[id], v[a]) <= distance(v[id], v[b]) {
      var i :| 0 <= i < |ids| && ids[i] == a;
      assert b in IdsOf(sorted);
      var j :| 0 <= j < |sorted| && sorted[j].id == b;
      assert j >= |ids|;
      assert sorted[i].distance <= sorted[j].distance;
    }
  }

  /** Re-selection of an over-long neighbour list. */
  method Prune(g: Graph, distance: DistanceFunc, id: Id, links: seq<Id>, cap: nat) returns (kept: seq<Id>)
    requires id in g && Unique(links) && Members(links) <= g.Keys && |links| > cap
    ensures |kept| == cap && Nearest(Vectors(g), distance, id, links, kept)
  {
    var candidates: seq<Hit> := [];
    for i := 0 to |links|
      invariant |candidates| == i
      invariant forall j :: 0 <= j < i ==>
                  candidates[j].id == links[j]
                  && candidates[j] == Hit(links[j], distance(g[id].vector, Vectors(g)[links[j]]))
    {
      assert links[i] in Members(links);
      candidates := candidates + [Hit(links[i], distance(g[id].vector, g[links[i]].vector))];
    }
    ghost var before := candidates;
    assert UniqueHits(before);
    assert IdsOf(before) == Members(links) by {
      assert forall h :: h in before ==> h.id in links;
      forall a | a in links ensures a in IdsOf(before) {
        var i :| 0 <= i < |links| && links[i] == a;
        assert before[i] in before;
      }
    }
    candidates := SortHits(candidates);
    SameMembers(candidates, before);
    PartUnique(candidates, before);
    forall h | h in candidates ensures h in before { assert h in multiset(candidates); }
    kept := SelectNeighbors(candidates, cap);
    SelectedNearest(Vectors(g), distance, id, links, candidates, kept);
  }

  lemma SameSize(g: Graph)
    ensures |Vectors(g)| == |g| && Vectors(g).Keys == g.Keys
  {
    assert Vectors(g).Keys == g.Keys;
    assert |Vectors(g).Keys| == |g.Keys|;
  }
}
