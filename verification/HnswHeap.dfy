/**
 * hnsw.go: MinHeap and MaxHeap as container/heap drives them, and the swap
 * sort used by ToSlice and by neighbour pruning.
 */
module HnswHeap {
  import opened Base

  /** SearchResult: a node, named by its ID, and its distance from the query. */
  datatype Hit = Hit(id: Id, distance: real)

  predicate SortedHits(s: seq<Hit>) {
    forall i, j :: 0 <= i < j < |s| ==> s[i].distance <= s[j].distance
  }

  /** s with the elements at i and j exchanged. */
  ghost predicate Exchanged(s: seq<Hit>, t: seq<Hit>, i: nat, j: nat) {
    && i < |s| && j < |s| && |t| == |s|
    && t[i] == s[j] && t[j] == s[i]
    && forall k :: 0 <= k < |s| && k != i && k != j ==> t[k] == s[k]
  }

  method Exchange(s: seq<Hit>, i: nat, j: nat) returns (t: seq<Hit>)
    requires i < |s| && j < |s|
    ensures Exchanged(s, t, i, j) && multiset(t) == multiset(s)
  {
    t := s[i := s[j]][j := s[i]];
  }

  function Parent(j: int): int
    requires j > 0
  {
    (j - 1) / 2
  }

  lemma ParentIs(i: nat, j: int)
    requires j > 0
    ensures Parent(j) == i <==> j == 2 * i + 1 || j == 2 * i + 2
    ensures 0 <= Parent(j) < j
  {
  }

  /** A min-heap ranks by distance, a max-heap by its negation. */
  function Rank(maxFirst: bool, h: Hit): real {
    if maxFirst then -h.distance else h.distance
  }

  /** Every element of the first n but skip ranks no lower than its parent. */
  ghost predicate OrderedBut(maxFirst: bool, s: seq<Hit>, n: nat, skip: int) {
    n <= |s| && forall j :: 0 < j < n && j != skip ==> Rank(maxFirst, s[Parent(j)]) <= Rank(maxFirst, s[j])
  }

  /** Every element of the first n but the children of top ranks no lower than its parent. */
  ghost predicate OrderedBelow(maxFirst: bool, s: seq<Hit>, n: nat, top: int) {
    n <= |s| && forall j :: 0 < j < n && Parent(j) != top ==> Rank(maxFirst, s[Parent(j)]) <= Rank(maxFirst, s[j])
  }

  /** The parent of j ranks no higher than the children of j. */
  ghost predicate Bridged(maxFirst: bool, s: seq<Hit>, n: nat, j: nat) {
    n <= |s| && forall c :: 0 < c < n && Parent(c) == j && j > 0 && j < n ==>
      Rank(maxFirst, s[Parent(j)]) <= Rank(maxFirst, s[c])
  }

  lemma UpStep(maxFirst: bool, s: seq<Hit>, t: seq<Hit>, j: nat)
    requires 0 < j < |s| && OrderedBut(maxFirst, s, |s|, j) && Bridged(maxFirst, s, |s|, j)
    requires Rank(maxFirst, s[j]) < Rank(maxFirst, s[Parent(j)])
    requires Exchanged(s, t, Parent(j), j)
    ensures OrderedBut(maxFirst, t, |t|, Parent(j)) && Bridged(maxFirst, t, |t|, Parent(j))
  {
    var i := Parent(j);
    forall k | 0 < k < |t| && k != i ensures Rank(maxFirst, t[Parent(k)]) <= Rank(maxFirst, t[k]) {
      ParentIs(i, k);
      ParentIs(j, k);
      ParentIs(i, j);
    }
    forall c | 0 < c < |t| && Parent(c) == i && i > 0 ensures Rank(maxFirst, t[Parent(i)]) <= Rank(maxFirst, t[c]) {
      ParentIs(i, c);
      ParentIs(i, j);
      ParentIs(Parent(i), i);
    }
  }

  lemma DownStep(maxFirst: bool, s: seq<Hit>, t: seq<Hit>, n: nat, i: nat, j: nat)
    requires n <= |s| && i < j < n && Parent(j) == i
    requires OrderedBelow(maxFirst, s, n, i) && Bridged(maxFirst, s, n, i)
    requires Rank(maxFirst, s[j]) <= Rank(maxFirst, s[i])
    requires forall c :: 0 < c < n && Parent(c) == i ==> Rank(maxFirst, s[j]) <= Rank(maxFirst, s[c])
    requires Exchanged(s, t, i, j)
    ensures OrderedBelow(maxFirst, t, n, j) && Bridged(maxFirst, t, n, j)
  {
    forall k | 0 < k < n && Parent(k) != j ensures Rank(maxFirst, t[Parent(k)]) <= Rank(maxFirst, t[k]) {
      ParentIs(i, k);
      ParentIs(j, k);
      ParentIs(Parent(k), k);
    }
    forall c | 0 < c < n && Parent(c) == j ensures Rank(maxFirst, t[Parent(j)]) <= Rank(maxFirst, t[c]) {
      ParentIs(j, c);
    }
  }

  lemma Childless(maxFirst: bool, s: seq<Hit>, n: nat, i: nat)
    requires OrderedBelow(maxFirst, s, n, i) && n <= 2 * i + 1
    ensures OrderedBut(maxFirst, s, n, 0)
  {
    forall c | 0 < c < n ensures Parent(c) != i { ParentIs(i, c); }
  }

  lemma WithoutLast(s: seq<Hit>)
    requires s != []
    ensures multiset(s[..|s| - 1]) == multiset(s) - multiset{s[|s| - 1]}
  {
    assert s == s[..|s| - 1] + [s[|s| - 1]];
  }

  /** Moving the last element to the root disturbs only the root. */
  lemma RootReplaced(maxFirst: bool, s: seq<Hit>, t: seq<Hit>)
    requires s != [] && OrderedBut(maxFirst, s, |s|, 0) && Exchanged(s, t, 0, |s| - 1)
    ensures OrderedBelow(maxFirst, t, |s| - 1, 0)
  {
    forall c | 0 < c < |s| - 1 && Parent(c) != 0 ensures Rank(maxFirst, t[Parent(c)]) <= Rank(maxFirst, t[c]) {
      ParentIs(Parent(c), c);
    }
  }

  lemma {:induction false} RootFirst(maxFirst: bool, s: seq<Hit>, k: nat)
    requires OrderedBut(maxFirst, s, |s|, 0) && k < |s|
    ensures Rank(maxFirst, s[0]) <= Rank(maxFirst, s[k])
  {
    if k > 0 {
      ParentIs(Parent(k), k);
      RootFirst(maxFirst, s, Parent(k));
    }
  }

  lemma RootFirstOf(maxFirst: bool, s: seq<Hit>, h: Hit)
    requires OrderedBut(maxFirst, s, |s|, 0) && h in multiset(s)
    ensures s != [] && Rank(maxFirst, s[0]) <= Rank(maxFirst, h)
  {
    var k :| 0 <= k < |s| && s[k] == h;
    RootFirst(maxFirst, s, k);
  }

  lemma RootFirstOfAll(maxFirst: bool, s: seq<Hit>)
    requires OrderedBut(maxFirst, s, |s|, 0) && s != []
    ensures forall h :: h in multiset(s) ==> Rank(maxFirst, s[0]) <= Rank(maxFirst, h)
  {
    forall h | h in multiset(s) ensures Rank(maxFirst, s[0]) <= Rank(maxFirst, h) { RootFirstOf(maxFirst, s, h); }
  }

  class Heap {
    const maxFirst: bool
    var data: seq<Hit>

    ghost predicate Valid()
      reads this
    {
      OrderedBut(maxFirst, data, |data|, 0)
    }

    constructor (maxFirst: bool)
      ensures Valid() && data == [] && this.maxFirst == maxFirst
    {
      this.maxFirst, data := maxFirst, [];
    }

    method Up(from: nat)
      requires from < |data| && OrderedBut(maxFirst, data, |data|, from) && Bridged(maxFirst, data, |data|, from)
      modifies this
      ensures Valid() && multiset(data) == multiset(old(data))
    {
      var j: nat := from;
      while j > 0 && Rank(maxFirst, data[j]) < Rank(maxFirst, data[Parent(j)])
        invariant j < |data| && OrderedBut(maxFirst, data, |data|, j) && Bridged(maxFirst, data, |data|, j)
        invariant multiset(data) == multiset(old(data))
      {
        ParentIs(Parent(j), j);
        var next := Exchange(data, Parent(j), j);
        UpStep(maxFirst, data, next, j);
        data := next;
        j := Parent(j);
      }
    }

    method Push(x: Hit)
      requires Valid()
      modifies this
      ensures Valid() && multiset(data) == multiset(old(data)) + multiset{x}
    {
      data := data + [x];
      forall c | 0 < c < |data| ensures Parent(c) < |data| - 1 { ParentIs(Parent(c), c); }
      assert OrderedBut(maxFirst, data, |data|, |data| - 1) && Bridged(maxFirst, data, |data|, |data| - 1);
      Up(|data| - 1);
    }

    /** The child of i that ranks first. */
    method FirstChild(i: nat, n: nat) returns (j: nat)
      requires 2 * i + 1 < n <= |data|
      ensures i < j < n && Parent(j) == i
      ensures forall c :: 0 < c < n && Parent(c) == i ==> Rank(maxFirst, data[j]) <= Rank(maxFirst, data[c])
    {
      j := 2 * i + 1;
      if j + 1 < n && Rank(maxFirst, data[j + 1]) < Rank(maxFirst, data[j]) {
        j := j + 1;
      }
      ParentIs(i, j);
      forall c | 0 < c < n && Parent(c) == i ensures Rank(maxFirst, data[j]) <= Rank(maxFirst, data[c]) {
        ParentIs(i, c);
      }
    }

    /** Sifts the root down inside the first n elements. */
    method Down(n: nat)
      requires n <= |data| && OrderedBelow(maxFirst, data, n, 0)
      modifies this
      ensures |data| == |old(data)| && forall k :: n <= k < |data| ==> data[k] == old(data)[k]
      ensures multiset(data) == multiset(old(data)) && OrderedBut(maxFirst, data, n, 0)
    {
      var i: nat := 0;
      while 2 * i + 1 < n
        invariant |data| == |old(data)| && forall k :: n <= k < |data| ==> data[k] == old(data)[k]
        invariant multiset(data) == multiset(old(data))
        invariant OrderedBelow(maxFirst, data, n, i) && Bridged(maxFirst, data, n, i)
        decreases n - i
      {
        var j := FirstChild(i, n);
        if Rank(maxFirst, data[i]) <= Rank(maxFirst, data[j]) {
          return;
        }
        var next := Exchange(data, i, j);
        DownStep(maxFirst, data, next, n, i, j);
        data := next;
        i := j;
      }
      Childless(maxFirst, data, n, i);
    }

    method Pop() returns (x: Hit)
      requires Valid() && data != []
      modifies this
      ensures Valid() && x == old(data)[0] && |data| == |old(data)| - 1
      ensures multiset(data) == multiset(old(data)) - multiset{x}
      ensures forall h :: h in multiset(old(data)) ==> Rank(maxFirst, x) <= Rank(maxFirst, h)
    {
      RootFirstOfAll(maxFirst, data);
      x := TakeRoot();
    }

    /** The last element takes the place of the root and sinks. */
    method TakeRoot() returns (x: Hit)
      requires Valid() && data != []
      modifies this
      ensures Valid() && x == old(data)[0] && |data| == |old(data)| - 1
      ensures multiset(data) == multiset(old(data)) - multiset{x}
    {
      var n := |data| - 1;
      var moved := Exchange(data, 0, n);
      RootReplaced(maxFirst, data, moved);
      data := moved;
      Down(n);
      x := data[n];
      WithoutLast(data);
      data := data[..n];
    }
  }

  /** Swaps every later smaller element to the front, position by position. */
  method SortHits(s: seq<Hit>) returns (r: seq<Hit>)
    ensures SortedHits(r) && multiset(r) == multiset(s) && |r| == |s|
  {
    r := s;
    for i := 0 to |r|
      invariant |r| == |s| && multiset(r) == multiset(s)
      invariant forall a, b :: 0 <= a < i && a < b < |r| ==> r[a].distance <= r[b].distance
    {
      for j := i + 1 to |r|
        invariant |r| == |s| && multiset(r) == multiset(s)
        invariant forall a, b :: 0 <= a < i && a < b < |r| ==> r[a].distance <= r[b].distance
        invariant forall b :: i <= b < j ==> r[i].distance <= r[b].distance
      {
        if r[j].distance < r[i].distance {
          r := Exchange(r, i, j);
        }
      }
    }
  }
}
