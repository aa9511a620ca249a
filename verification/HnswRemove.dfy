/**
 * index.go: taking a node out of the graph. Incoming links are dropped, the
 * node's own neighbours are joined to each other, and then the node goes.
 */
module HnswRemove {
  import opened Base
  import opened HnswSearch
  import opened HnswGraph

  function Without(s: seq<Id>, x: Id): seq<Id> {
    if s == [] then []
    else if s[|s| - 1] == x then Without(s[..|s| - 1], x)
    else Without(s[..|s| - 1], x) + [s[|s| - 1]]
  }

  lemma {:induction false} WithoutMembers(s: seq<Id>, x: Id)
    ensures Members(Without(s, x)) == Members(s) - {x} && |Without(s, x)| <= |s|
    ensures x !in s ==> Without(s, x) == s
  {
    if s != [] {
      var n := |s| - 1;
      WithoutMembers(s[..n], x);
      assert s == s[..n] + [s[n]];
      assert Members(s) == Members(s[..n]) + {s[n]};
      if s[n] != x {
        assert Members(Without(s[..n], x) + [s[n]]) == Members(Without(s[..n], x)) + {s[n]};
      }
    }
  }

  lemma {:induction false} WithoutUnique(s: seq<Id>, x: Id)
    requires Unique(s)
    ensures Unique(Without(s, x))
  {
    if s != [] {
      var n := |s| - 1;
      WithoutUnique(s[..n], x);
      WithoutMembers(s[..n], x);
      if s[n] != x {
        assert s[n] !in Members(s[..n]);
        assert s[n] !in Members(Without(s[..n], x));
        AppendUnique(Without(s[..n], x), s[n]);
      }
    }
  }

  lemma WithoutIs(s: seq<Id>, x: Id)
    ensures Members(Without(s, x)) == Members(s) - {x} && |Without(s, x)| <= |s|
    ensures Unique(s) ==> Unique(Without(s, x))
    ensures x !in s ==> Without(s, x) == s
  {
    WithoutMembers(s, x);
    if Unique(s) { WithoutUnique(s, x); }
  }

  /** removeFromSlice. */
  method RemoveFromSlice(s: seq<Id>, x: Id) returns (r: seq<Id>)
    ensures r == Without(s, x)
  {
    r := [];
    for i := 0 to |s|
      invariant r == Without(s[..i], x)
    {
      assert s[..i + 1][..i] == s[..i];
      if s[i] != x {
        r := r + [s[i]];
      }
    }
    assert s[..|s|] == s;
  }

  /** From g to h every node of done lost its links to x. */
  ghost predicate Detached(g: Graph, h: Graph, x: Id, done: set<Id>) {
    && SameNodes(g, h)
    && forall id, l: nat :: id in g && l < |g[id].neighbors| ==>
         h[id].neighbors[l] == if id in done then Without(g[id].neighbors[l], x) else g[id].neighbors[l]
  }

  method DetachNode(node: Node, x: Id) returns (r: Node)
    ensures r.vector == node.vector && r.level == node.level && |r.neighbors| == |node.neighbors|
    ensures forall l :: 0 <= l < |node.neighbors| ==> r.neighbors[l] == Without(node.neighbors[l], x)
  {
    r := node;
    for l := 0 to |node.neighbors|
      invariant r.vector == node.vector && r.level == node.level && |r.neighbors| == |node.neighbors|
      invariant forall i :: 0 <= i < |node.neighbors| ==>
                  r.neighbors[i] == if i < l then Without(node.neighbors[i], x) else node.neighbors[i]
    {
      var links := RemoveFromSlice(r.neighbors[l], x);
      r := r.(neighbors := r.neighbors[l := links]);
    }
  }

  /** The incoming links of x are dropped, node by node in any order. */
  method Detach(g: Graph, x: Id) returns (h: Graph)
    ensures Detached(g, h, x, g.Keys - {x})
  {
    h := g;
    var todo := g.Keys - {x};
    while todo != {}
      invariant todo <= g.Keys - {x} && Detached(g, h, x, g.Keys - {x} - todo)
      decreases todo
    {
      var id :| id in todo;
      var node := DetachNode(h[id], x);
      DetachedStep(g, h, h[id := node], x, g.Keys - {x} - todo, id);
      assert g.Keys - {x} - todo + {id} == g.Keys - {x} - (todo - {id});
      h, todo := h[id := node], todo - {id};
    }
    assert g.Keys - {x} - {} == g.Keys - {x};
  }

  lemma DetachedStep(g: Graph, h: Graph, h': Graph, x: Id, done: set<Id>, id: Id)
    requires Detached(g, h, x, done) && id in g && id !in done
    requires id in h' && h' == h[id := h'[id]]
    requires h'[id].vector == h[id].vector && h'[id].level == h[id].level && |h'[id].neighbors| == |h[id].neighbors|
    requires forall l :: 0 <= l < |h[id].neighbors| ==> h'[id].neighbors[l] == Without(h[id].neighbors[l], x)
    ensures Detached(g, h', x, done + {id})
  {
  }

  /** b is among the links of a at the layer, or a has no room left, or one of the two does not reach the layer. */
  ghost predicate Joined(g: Graph, a: Id, b: Id, layer: nat, m: nat) {
    a in g && b in g && layer <= g[a].level && layer <= g[b].level ==>
      b in ListAt(g, a, layer) || |ListAt(g, a, layer)| >= 2 * m
  }

  /** From g to h the nodes of among may have gained links to each other at the layer; nothing else changed. */
  ghost predicate Extended(g: Graph, h: Graph, layer: nat, among: set<Id>) {
    && SameNodes(g, h)
    && forall id, l: nat :: id in g && l < |g[id].neighbors| ==>
         if l == layer && id in among
         then g[id].neighbors[l] <= h[id].neighbors[l]
           && Members(h[id].neighbors[l]) <= Members(g[id].neighbors[l]) + among
         else h[id].neighbors[l] == g[id].neighbors[l]
  }

  lemma ExtendedOn(g: Graph, h: Graph, k: Graph, layer: nat, among: set<Id>)
    requires Extended(g, h, layer, among) && Extended(h, k, layer, among)
    ensures Extended(g, k, layer, among)
  {
    forall id, l: nat | id in g && l < |g[id].neighbors| && l == layer && id in among
      ensures g[id].neighbors[l] <= k[id].neighbors[l]
      ensures Members(k[id].neighbors[l]) <= Members(g[id].neighbors[l]) + among
    {
      assert h[id].neighbors[l] <= k[id].neighbors[l];
      assert Members(k[id].neighbors[l]) <= Members(h[id].neighbors[l]) + among;
    }
  }

  lemma JoinedKept(g: Graph, h: Graph, layer: nat, among: set<Id>, a: Id, b: Id, m: nat)
    requires GraphOk(g, m) && Extended(g, h, layer, among) && Joined(g, a, b, layer, m)
    ensures Joined(h, a, b, layer, m)
  {
  }

  /** One half of a mutual connection: appended unless present or full. */
  method AddLink(g: Graph, a: Id, b: Id, layer: nat, m: nat, ghost among: set<Id>) returns (h: Graph)
    requires GraphOk(g, m) && a in g && b in g && a != b && layer <= g[a].level && a in among && b in among
    ensures GraphOk(h, m) && Extended(g, h, layer, among) && Joined(h, a, b, layer, m)
  {
    h := g;
    var links := g[a].neighbors[layer];
    if b !in links && |links| < 2 * m {
      assert LinksOk(g, a, links, 2 * m);
      AppendUnique(links, b);
      h := WithList(g, a, layer, links + [b]);
      forall id, l: nat | id in h && l <= h[id].level ensures LinksOk(h, id, h[id].neighbors[l], 2 * m) {
        assert LinksOk(g, id, g[id].neighbors[l], 2 * m);
      }
    }
  }

  /** All pairs of the first i neighbours, and those of neighbour i with the ones before j, are joined. */
  ghost predicate PairsJoined(g: Graph, neighbors: seq<Id>, layer: nat, m: nat, i: nat, j: nat) {
    forall p, q :: 0 <= p < q < |neighbors| && (p < i || (p == i && q < j)) ==>
      Joined(g, neighbors[p], neighbors[q], layer, m) && Joined(g, neighbors[q], neighbors[p], layer, m)
  }

  lemma PairsKept(g: Graph, h: Graph, neighbors: seq<Id>, layer: nat, m: nat, i: nat, j: nat)
    requires GraphOk(g, m) && Extended(g, h, layer, Members(neighbors))
    requires PairsJoined(g, neighbors, layer, m, i, j)
    ensures PairsJoined(h, neighbors, layer, m, i, j)
  {
    forall p, q | 0 <= p < q < |neighbors| && (p < i || (p == i && q < j))
      ensures Joined(h, neighbors[p], neighbors[q], layer, m) && Joined(h, neighbors[q], neighbors[p], layer, m)
    {
      JoinedKept(g, h, layer, Members(neighbors), neighbors[p], neighbors[q], m);
      JoinedKept(g, h, layer, Members(neighbors), neighbors[q], neighbors[p], m);
    }
  }

  /** The body of the inner loop: one pair of neighbours. */
  method Connect(g: Graph, neighbors: seq<Id>, i: nat, j: nat, layer: nat, m: nat) returns (h: Graph)
    requires GraphOk(g, m) && Unique(neighbors) && i < j < |neighbors|
    requires neighbors[i] in g && layer <= g[neighbors[i]].level
    requires PairsJoined(g, neighbors, layer, m, i, j)
    ensures GraphOk(h, m) && Extended(g, h, layer, Members(neighbors))
    ensures PairsJoined(h, neighbors, layer, m, i, j + 1)
  {
    h := g;
    var a, b := neighbors[i], neighbors[j];
    ghost var among := Members(neighbors);
    if b in g && layer <= g[b].level {
      var k := AddLink(g, a, b, layer, m, among);
      h := AddLink(k, b, a, layer, m, among);
      JoinedKept(k, h, layer, among, a, b, m);
      ExtendedOn(g, k, h, layer, among);
      PairsKept(g, h, neighbors, layer, m, i, j);
    }
  }

  /** All pairs of one neighbour with the later ones. */
  method ConnectAll(g: Graph, neighbors: seq<Id>, i: nat, layer: nat, m: nat) returns (h: Graph)
    requires GraphOk(g, m) && Unique(neighbors) && i < |neighbors|
    requires neighbors[i] in g && layer <= g[neighbors[i]].level
    requires PairsJoined(g, neighbors, layer, m, i, 0)
    ensures GraphOk(h, m) && Extended(g, h, layer, Members(neighbors))
    ensures PairsJoined(h, neighbors, layer, m, i + 1, 0)
  {
    h := g;
    for j := i + 1 to |neighbors|
      invariant GraphOk(h, m) && Extended(g, h, layer, Members(neighbors))
      invariant PairsJoined(h, neighbors, layer, m, i, j)
    {
      var k := Connect(h, neighbors, i, j, layer, m);
      ExtendedOn(g, h, k, layer, Members(neighbors));
      h := k;
    }
  }

  /** reconnectNeighbors: every pair is linked both ways as long as there is room. */
  method ReconnectNeighbors(g: Graph, neighbors: seq<Id>, layer: nat, m: nat) returns (h: Graph)
    requires GraphOk(g, m) && Unique(neighbors)
    ensures GraphOk(h, m) && Extended(g, h, layer, Members(neighbors))
    ensures PairsJoined(h, neighbors, layer, m, |neighbors|, 0)
  {
    h := g;
    for i := 0 to |neighbors|
      invariant GraphOk(h, m) && Extended(g, h, layer, Members(neighbors))
      invariant PairsJoined(h, neighbors, layer, m, i, 0)
    {
      if neighbors[i] in h && layer <= h[neighbors[i]].level {
        var k := ConnectAll(h, neighbors, i, layer, m);
        ExtendedOn(g, h, k, layer, Members(neighbors));
        h := k;
      }
    }
  }

  /** The neighbours of the removed node at a layer. */
  function LayerOf(lists: seq<seq<Id>>, l: nat): seq<Id> {
    if l < |lists| then lists[l] else []
  }

  /** The first n layers of the removed node have been reconnected. */
  ghost predicate Rejoined(g: Graph, h: Graph, lists: seq<seq<Id>>, n: nat, m: nat) {
    && SameNodes(g, h) && n <= |lists|
    && (forall id, l: nat :: id in g && l < |g[id].neighbors| ==>
          if l < n && id in Members(LayerOf(lists, l))
          then g[id].neighbors[l] <= h[id].neighbors[l]
               && Members(h[id].neighbors[l]) <= Members(g[id].neighbors[l]) + Members(LayerOf(lists, l))
          else h[id].neighbors[l] == g[id].neighbors[l])
    && (forall l :: 0 <= l < n ==> PairsJoined(h, lists[l], l, m, |lists[l]|, 0))
  }

  lemma RejoinedStep(g: Graph, h: Graph, k: Graph, lists: seq<seq<Id>>, n: nat, m: nat)
    requires n < |lists| && Rejoined(g, h, lists, n, m) && Extended(h, k, n, Members(lists[n]))
    requires PairsJoined(k, lists[n], n, m, |lists[n]|, 0)
    ensures Rejoined(g, k, lists, n + 1, m)
  {
    forall l, p, q | 0 <= l < n && 0 <= p < q < |lists[l]|
      ensures Joined(k, lists[l][p], lists[l][q], l, m) && Joined(k, lists[l][q], lists[l][p], l, m)
    {
      assert PairsJoined(h, lists[l], l, m, |lists[l]|, 0);
      forall id | id in h ensures ListAt(k, id, l) == ListAt(h, id, l) {}
    }
  }

  method Rejoin(g: Graph, x: Id, m: nat) returns (h: Graph)
    requires GraphOk(g, m) && x in g
    ensures GraphOk(h, m) && Rejoined(g, h, g[x].neighbors, |g[x].neighbors|, m)
  {
    h := g;
    for l := 0 to |g[x].neighbors|
      invariant GraphOk(h, m) && Rejoined(g, h, g[x].neighbors, l, m)
    {
      assert LinksOk(g, x, g[x].neighbors[l], 2 * m);
      var k := ReconnectNeighbors(h, g[x].neighbors[l], l, m);
      RejoinedStep(g, h, k, g[x].neighbors, l, m);
      h := k;
    }
  }

  /** What remains of g after x was removed. */
  ghost predicate Removed(g: Graph, h: Graph, x: Id, m: nat) {
    && x in g && h.Keys == g.Keys - {x}
    && (forall id :: id in h ==>
          h[id].vector == g[id].vector && h[id].level == g[id].level && |h[id].neighbors| == |g[id].neighbors|)
    && (forall id, l: nat :: id in h && l < |g[id].neighbors| ==>
          if id in ListAt(g, x, l)
          then Without(g[id].neighbors[l], x) <= h[id].neighbors[l]
               && Members(h[id].neighbors[l]) <= Members(g[id].neighbors[l]) + Members(ListAt(g, x, l)) - {x}
          else h[id].neighbors[l] == Without(g[id].neighbors[l], x))
    && (forall a, b, l: nat :: a in ListAt(g, x, l) && b in ListAt(g, x, l) && a != b ==> Joined(h, a, b, l, m))
  }

  lemma DetachedOk(g: Graph, h: Graph, x: Id, m: nat)
    requires GraphOk(g, m) && x in g && Detached(g, h, x, g.Keys - {x})
    ensures GraphOk(h, m) && h[x] == g[x]
  {
    forall id, l: nat | id in h && l <= h[id].level ensures LinksOk(h, id, h[id].neighbors[l], 2 * m) {
      assert LinksOk(g, id, g[id].neighbors[l], 2 * m);
      WithoutIs(g[id].neighbors[l], x);
      assert id !in Members(Without(g[id].neighbors[l], x));
    }
    assert h[x].neighbors == g[x].neighbors;
  }

  lemma KeptList(g: Graph, d: Graph, x: Id, id: Id, l: nat)
    requires Detached(g, d, x, g.Keys - {x}) && id in g && id != x && l < |g[id].neighbors|
    ensures id in d && l < |d[id].neighbors| && d[id].neighbors[l] == Without(g[id].neighbors[l], x)
    ensures Members(d[id].neighbors[l]) == Members(g[id].neighbors[l]) - {x}
  {
    WithoutIs(g[id].neighbors[l], x);
  }

  /** A list that only gained some of x's neighbours. */
  lemma RejoinedList(d: Graph, k: Graph, lists: seq<seq<Id>>, m: nat, id: Id, l: nat)
    requires Rejoined(d, k, lists, |lists|, m) && id in d && l < |d[id].neighbors|
    ensures id in k && l < |k[id].neighbors|
    ensures if id in Members(LayerOf(lists, l))
            then d[id].neighbors[l] <= k[id].neighbors[l]
                 && Members(k[id].neighbors[l]) <= Members(d[id].neighbors[l]) + Members(LayerOf(lists, l))
            else k[id].neighbors[l] == d[id].neighbors[l]
  {
    assert Members([]) == {};
  }

  lemma RemovedLists(g: Graph, d: Graph, k: Graph, h: Graph, x: Id, m: nat, id: Id, l: nat)
    requires GraphOk(g, m) && x in g && Detached(g, d, x, g.Keys - {x})
    requires Rejoined(d, k, g[x].neighbors, |g[x].neighbors|, m) && h == k - {x}
    requires id in h && l < |g[id].neighbors|
    ensures if id in ListAt(g, x, l)
            then Without(g[id].neighbors[l], x) <= h[id].neighbors[l]
                 && Members(h[id].neighbors[l]) <= Members(g[id].neighbors[l]) + Members(ListAt(g, x, l)) - {x}
            else h[id].neighbors[l] == Without(g[id].neighbors[l], x)
  {
    KeptList(g, d, x, id, l);
    RejoinedList(d, k, g[x].neighbors, m, id, l);
    if l < |g[x].neighbors| {
      assert LinksOk(g, x, g[x].neighbors[l], 2 * m);
      assert x !in Members(g[x].neighbors[l]);
      assert id in g[x].neighbors[l] <==> id in Members(g[x].neighbors[l]);
    }
  }

  lemma RemovedIs(g: Graph, d: Graph, k: Graph, h: Graph, x: Id, m: nat)
    requires GraphOk(g, m) && x in g && Detached(g, d, x, g.Keys - {x})
    requires GraphOk(k, m) && Rejoined(d, k, g[x].neighbors, |g[x].neighbors|, m) && h == k - {x}
    ensures Removed(g, h, x, m)
  {
    forall id, l: nat | id in h && l < |g[id].neighbors|
      ensures if id in ListAt(g, x, l)
              then Without(g[id].neighbors[l], x) <= h[id].neighbors[l]
                   && Members(h[id].neighbors[l]) <= Members(g[id].neighbors[l]) + Members(ListAt(g, x, l)) - {x}
              else h[id].neighbors[l] == Without(g[id].neighbors[l], x)
    {
      RemovedLists(g, d, k, h, x, m, id, l);
    }
    forall a, b, l: nat | a in ListAt(g, x, l) && b in ListAt(g, x, l) && a != b ensures Joined(h, a, b, l, m) {
      assert PairsJoined(k, g[x].neighbors[l], l, m, |g[x].neighbors[l]|, 0);
      var links := g[x].neighbors[l];
      var p :| 0 <= p < |links| && links[p] == a;
      var q :| 0 <= q < |links| && links[q] == b;
      assert Joined(k, a, b, l, m) by {
        if p < q {} else {}
      }
    }
  }

  /** No link to x is left, so the graph without x is well formed. */
  lemma RemovedOk(g: Graph, h: Graph, x: Id, m: nat)
    requires GraphOk(g, m) && Removed(g, h, x, m)
    requires forall id, l: nat :: id in h && l <= h[id].level ==>
               Unique(h[id].neighbors[l]) && |h[id].neighbors[l]| <= 2 * m && id !in h[id].neighbors[l]
    ensures GraphOk(h, m)
  {
    forall id, l: nat | id in h && l <= h[id].level ensures LinksOk(h, id, h[id].neighbors[l], 2 * m) {
      assert LinksOk(g, id, g[id].neighbors[l], 2 * m);
      WithoutIs(g[id].neighbors[l], x);
      if id in ListAt(g, x, l) { assert LinksOk(g, x, g[x].neighbors[l], 2 * m); }
    }
  }

  lemma PrefixMembers(a: seq<Id>, b: seq<Id>)
    requires a <= b
    ensures Members(a) <= Members(b)
  {
    assert forall i :: 0 <= i < |a| ==> a[i] == b[i];
  }

  /** Removal keeps a complete layer 0 complete. */
  lemma RemovedComplete(g: Graph, h: Graph, x: Id, m: nat)
    requires GraphOk(g, m) && GraphOk(h, m) && Removed(g, h, x, m) && CompleteOn(g, 0, g.Keys)
    ensures CompleteOn(h, 0, h.Keys)
  {
    forall a | a in h ensures Members(ListAt(h, a, 0)) == h.Keys - {a} { RemovedCompleteAt(g, h, x, m, a); }
  }

  lemma RemovedCompleteAt(g: Graph, h: Graph, x: Id, m: nat, a: Id)
    requires GraphOk(g, m) && GraphOk(h, m) && Removed(g, h, x, m) && CompleteOn(g, 0, g.Keys) && a in h
    ensures Members(ListAt(h, a, 0)) == h.Keys - {a}
  {
    var before, after := g[a].neighbors[0], h[a].neighbors[0];
    assert Members(ListAt(g, x, 0)) == g.Keys - {x};
    assert a in Members(ListAt(g, x, 0));
    WithoutIs(before, x);
    PrefixMembers(Without(before, x), after);
    assert LinksOk(h, a, after, 2 * m);
    assert Members(ListAt(g, a, 0)) == g.Keys - {a};
  }

  /** Steps 1 to 3 of Remove. */
  method RemoveNode(g: Graph, x: Id, m: nat) returns (h: Graph)
    requires GraphOk(g, m) && x in g
    ensures GraphOk(h, m) && Removed(g, h, x, m)
    ensures CompleteOn(g, 0, g.Keys) ==> CompleteOn(h, 0, h.Keys)
  {
    var d := Detach(g, x);
    DetachedOk(g, d, x, m);
    var k := Rejoin(d, x, m);
    h := k - {x};
    RemovedIs(g, d, k, h, x, m);
    forall id, l: nat | id in h && l <= h[id].level
      ensures Unique(h[id].neighbors[l]) && |h[id].neighbors[l]| <= 2 * m && id !in h[id].neighbors[l]
    {
      assert LinksOk(k, id, k[id].neighbors[l], 2 * m);
    }
    RemovedOk(g, h, x, m);
    if CompleteOn(g, 0, g.Keys) { RemovedComplete(g, h, x, m); }
  }

  /** The entry point stays good if another node goes; the vectors that remain are unchanged. */
  lemma RemovedRest(g: Graph, h: Graph, x: Id, m: nat, e: Option<Id>, maxLevel: nat)
    requires Removed(g, h, x, m) && EntryOk(g, e, maxLevel)
    ensures Vectors(h) == Vectors(g) - {x}
    ensures e != Some(x) ==> EntryOk(h, e, maxLevel)
  {
    if e != Some(x) && e.Some? { assert e.value in h; }
  }

  /** The existing nodes of a list, in its order. */
  function Present(g: Graph, links: seq<Id>): seq<Id> {
    if links == [] then []
    else
      var front, last := Present(g, links[..|links| - 1]), links[|links| - 1];
      if last in g then front + [last] else front
  }

  lemma {:induction false} PresentIs(g: Graph, links: seq<Id>)
    ensures Members(Present(g, links)) == Members(links) * g.Keys && |Present(g, links)| <= |links|
    ensures Present(g, links) == links <==> Members(links) <= g.Keys
  {
    if links != [] {
      var n := |links| - 1;
      PresentIs(g, links[..n]);
      assert links == links[..n] + [links[n]];
      assert Members(links) == Members(links[..n]) + {links[n]};
      if links[n] in g {
        assert Present(g, links) == links ==> Present(g, links)[..n] == Present(g, links[..n]);
        assert Members(Present(g, links[..n]) + [links[n]]) == Members(Present(g, links[..n])) + {links[n]};
      } else {
        assert links[n] in Members(links);
      }
    }
  }

  method CleanList(g: Graph, links: seq<Id>) returns (r: seq<Id>)
    ensures r == Present(g, links)
  {
    r := [];
    for i := 0 to |links|
      invariant r == Present(g, links[..i])
    {
      assert links[..i + 1][..i] == links[..i];
      if links[i] in g {
        r := r + [links[i]];
      }
    }
    assert links[..|links|] == links;
  }

  /** The node with clean lists up to its level, as far as the loop over them has come. */
  ghost predicate CleanedTo(g: Graph, was: Node, now: Node, n: nat) {
    && now.vector == was.vector && now.level == was.level && |now.neighbors| == |was.neighbors|
    && forall l :: 0 <= l < |was.neighbors| ==>
         now.neighbors[l] == if l < n then Present(g, was.neighbors[l]) else was.neighbors[l]
  }

  method CleanNode(g: Graph, was: Node) returns (r: Node)
    requires was.level < |was.neighbors|
    ensures CleanedTo(g, was, r, was.level + 1)
  {
    r := was;
    for l := 0 to was.level + 1
      invariant CleanedTo(g, was, r, l)
    {
      var links := CleanList(g, r.neighbors[l]);
      r := r.(neighbors := r.neighbors[l := links]);
    }
  }

  /** From g to h the nodes of done lost their links to absent nodes, and nothing else changed. */
  ghost predicate Cleaned(g: Graph, h: Graph, done: set<Id>) {
    && h.Keys == g.Keys
    && forall id :: id in g ==> if id in done then CleanedTo(g, g[id], h[id], g[id].level + 1) else h[id] == g[id]
  }

  lemma CleanSameKeys(g: Graph, h: Graph, was: Node, now: Node, n: nat)
    requires h.Keys == g.Keys && CleanedTo(h, was, now, n)
    ensures CleanedTo(g, was, now, n)
  {
    forall l | 0 <= l < n && l < |was.neighbors| ensures Present(h, was.neighbors[l]) == Present(g, was.neighbors[l]) {
      PresentSameKeys(g, h, was.neighbors[l]);
    }
  }

  lemma {:induction false} PresentSameKeys(g: Graph, h: Graph, links: seq<Id>)
    requires h.Keys == g.Keys
    ensures Present(h, links) == Present(g, links)
  {
    if links != [] {
      PresentSameKeys(g, h, links[..|links| - 1]);
      assert links[|links| - 1] in h <==> links[|links| - 1] in h.Keys;
    }
  }

  /** Links to absent nodes are dropped, node by node in any order; a node with too few lists would panic. */
  method CleanupDanglingReferences(g: Graph) returns (h: Graph)
    requires forall id :: id in g ==> g[id].level < |g[id].neighbors|
    ensures Cleaned(g, h, g.Keys)
  {
    h := g;
    var todo := g.Keys;
    while todo != {}
      invariant todo <= g.Keys && Cleaned(g, h, g.Keys - todo)
      decreases todo
    {
      var id :| id in todo;
      var node := CleanNode(h, h[id]);
      CleanSameKeys(g, h, g[id], node, g[id].level + 1);
      h, todo := h[id := node], todo - {id};
    }
  }

  /**
   * After a clean-up no list up to a node's level has an absent node, and every
   * present one is still there. A graph was clean exactly if that changed
   * nothing, and a well-formed graph is.
   */
  lemma CleanedIff(g: Graph, h: Graph)
    requires Cleaned(g, h, g.Keys) && forall id :: id in g ==> |g[id].neighbors| == g[id].level + 1
    ensures forall id, l: nat :: id in g && l <= g[id].level ==>
              Members(h[id].neighbors[l]) == Members(g[id].neighbors[l]) * g.Keys
    ensures h == g <==> forall id, l: nat :: id in g && l <= g[id].level ==> Members(g[id].neighbors[l]) <= g.Keys
  {
    forall id, l: nat | id in g && l <= g[id].level
      ensures Members(h[id].neighbors[l]) == Members(g[id].neighbors[l]) * g.Keys
      ensures h[id].neighbors[l] == g[id].neighbors[l] <==> Members(g[id].neighbors[l]) <= g.Keys
    {
      PresentIs(g, g[id].neighbors[l]);
    }
    if forall id, l: nat :: id in g && l <= g[id].level ==> Members(g[id].neighbors[l]) <= g.Keys {
      forall id | id in g ensures h[id] == g[id] { assert h[id].neighbors == g[id].neighbors; }
    }
  }

  lemma WellFormedIsClean(g: Graph, h: Graph, m: nat)
    requires GraphOk(g, m) && Cleaned(g, h, g.Keys)
    ensures h == g
  {
    CleanedIff(g, h);
    forall id, l: nat | id in g && l <= g[id].level ensures Members(g[id].neighbors[l]) <= g.Keys {
      assert LinksOk(g, id, g[id].neighbors[l], 2 * m);
    }
  }
}
