/**
 * Runs of index operations against a plain map, and small indexes against an
 * exhaustive search of that map.
 */
module HnswRuns {
  import opened Base
  import opened HnswSearch
  import opened HnswGraph
  import opened HnswSweep
  import opened HnswInsert
  import opened HnswIndex

  datatype Op = OpAdd(id: Id, vector: Vector, level: nat) | OpRemove(id: Id) | OpOptimize | OpClear

  /** The first vector stored under an ID stays until the ID is removed. */
  function After(v: map<Id, Vector>, op: Op): map<Id, Vector> {
    match op
    case OpAdd(id, vector, _) => if id in v then v else v[id := vector]
    case OpRemove(id) => v - {id}
    case OpOptimize => v
    case OpClear => map[]
  }

  function AfterAll(ops: seq<Op>): map<Id, Vector> {
    if ops == [] then map[] else After(AfterAll(ops[..|ops| - 1]), ops[|ops| - 1])
  }

  predicate LevelsOk(ops: seq<Op>) {
    forall op :: op in ops && op.OpAdd? ==> op.level <= MAX_LEVEL
  }

  ghost predicate NeverAbove(ops: seq<Op>, n: nat) {
    forall i :: 0 <= i <= |ops| ==> |AfterAll(ops[..i])| <= n
  }

  predicate AddOnly(ops: seq<Op>) {
    forall op :: op in ops ==> op.OpAdd?
  }

  /** The first node put in is as high as any. */
  predicate FirstHighest(ops: seq<Op>) {
    forall op :: op in ops ==> op.OpAdd? && ops[0].OpAdd? && op.level <= ops[0].level
  }

  method Do(index: Index, op: Op)
    requires index.Valid() && (op.OpAdd? ==> op.level <= MAX_LEVEL)
    modifies index`nodes, index`entryPoint, index`maxLevel
    ensures index.Valid() && Vectors(index.nodes) == After(old(Vectors(index.nodes)), op)
    ensures op.OpAdd? && old(AddOnlyDegrees(index.nodes, index.m)) ==> AddOnlyDegrees(index.nodes, index.m)
    ensures op.OpAdd? && !Linking(index.m, index.efConstruct) && old(Unlinked(index.nodes)) ==> Unlinked(index.nodes)
    ensures old(index.Complete())
            && |After(old(Vectors(index.nodes)), op)| <= Min(index.efConstruct, 2 * index.m) + 1 ==>
              index.Complete()
    ensures op.OpAdd? && (old(index.nodes) == map[] || op.level <= old(index.maxLevel)) ==>
              index.maxLevel == if old(index.nodes) == map[] then op.level else old(index.maxLevel)
    ensures op.OpAdd? && (old(index.nodes) == map[] || op.level <= old(index.maxLevel)) && old(index.LayersWhole())
            && |After(old(Vectors(index.nodes)), op)| <= Min(index.efConstruct, index.m) + 1 ==>
              index.LayersWhole()
  {
    ghost var before := Vectors(index.nodes);
    match op
    case OpAdd(id, vector, level) =>
      var ok := index.Add(id, vector, level);
      SameSize(index.nodes);
    case OpRemove(id) =>
      var ok := index.Remove(id);
      assert !ok ==> before - {id} == before;
    case OpOptimize =>
      index.OptimizeIndex();
    case OpClear =>
      index.Clear();
  }

  /** A run from the empty index. */
  method Run(ops: seq<Op>, m: nat, efConstruct: nat, distance: DistanceFunc) returns (index: Index)
    requires LevelsOk(ops)
    ensures index.Valid() && index.m == m && index.efConstruct == efConstruct && index.distance == distance
    ensures Vectors(index.nodes) == AfterAll(ops)
    ensures AddOnly(ops) ==> AddOnlyDegrees(index.nodes, m)
    ensures AddOnly(ops) && !Linking(m, efConstruct) ==> Unlinked(index.nodes)
    ensures NeverAbove(ops, Min(efConstruct, 2 * m) + 1) ==> index.Complete()
    ensures FirstHighest(ops) && NeverAbove(ops, Min(efConstruct, m) + 1) ==> index.LayersWhole()
  {
    index := new Index(m, efConstruct, distance);
    ghost var small := NeverAbove(ops, Min(efConstruct, 2 * m) + 1);
    ghost var layered := FirstHighest(ops) && NeverAbove(ops, Min(efConstruct, m) + 1);
    for i := 0 to |ops|
      invariant index.Valid() && index.m == m && index.efConstruct == efConstruct && index.distance == distance
      invariant fresh(index) && Vectors(index.nodes) == AfterAll(ops[..i])
      invariant AddOnly(ops) ==> AddOnlyDegrees(index.nodes, m)
      invariant AddOnly(ops) && !Linking(m, efConstruct) ==> Unlinked(index.nodes)
      invariant small ==> index.Complete()
      invariant layered ==> index.LayersWhole() && (index.nodes == map[] || index.maxLevel == ops[0].level)
    {
      assert ops[..i + 1][..i] == ops[..i];
      assert ops[i] in ops;
      Do(index, ops[i]);
      assert AfterAll(ops[..i + 1]) == After(AfterAll(ops[..i]), ops[i]);
    }
    assert ops[..|ops|] == ops;
  }

  /** What an answer is by itself: at most k stored vectors with their true distances, nearest first, none twice. */
  ghost predicate Answer(v: map<Id, Vector>, distance: DistanceFunc, query: Vector, k: nat, r: seq<Treasure>) {
    && |r| <= k && (r == [] ==> k == 0 || v == map[])
    && (forall t :: t in r ==> t.id in v && t.vector == v[t.id] && t.distance == distance(query, v[t.id]))
    && (forall i, j :: 0 <= i < j < |r| ==> r[i].id != r[j].id && r[i].distance <= r[j].distance)
  }

  /**
   * A query at the end of any run: the answer lists the k nearest of the nodes
   * looked at, and every neighbour of an answer was looked at unless the
   * search was cut short; no answer is nearer than the first, and that is no
   * farther than any node the descent came through nor any link of these on
   * their layers; the cost does not depend on the number of vectors.
   * If the index never outgrew its lists and beam, the answer is that of an
   * exhaustive search of the plain map.
   */
  method RunAndSearch(ops: seq<Op>, m: nat, efConstruct: nat, distance: DistanceFunc, query: Vector, k: nat)
    returns (index: Index, r: seq<Treasure>, ghost seen: set<Id>, ghost evaluations: nat, ghost path: seq<Id>)
    requires LevelsOk(ops)
    ensures index.Valid() && Vectors(index.nodes) == AfterAll(ops)
    ensures Answer(AfterAll(ops), distance, query, k, r)
    ensures NeverAbove(ops, Min(efConstruct, 2 * m) + 1) && |AfterAll(ops)| <= Max(efConstruct, k) ==>
              KNearest(AfterAll(ops), distance, query, AfterAll(ops).Keys, k, r)
    ensures KNearest(AfterAll(ops), distance, query, seen, k, r) && (AfterAll(ops) != map[] ==> seen != {})
    ensures NoNegative(index.nodes, distance, query, seen) && |seen| <= 3 * Max(efConstruct, k) ==>
              forall t :: t in r ==> t.id in index.nodes && Members(ListAt(index.nodes, t.id, 0)) <= seen
    ensures |seen| <= evaluations <= 16 * (1 + 6 * m) + 1 + 6 * m * Max(efConstruct, k)
    ensures index.entryPoint.Some? <==> AfterAll(ops) != map[]
    ensures index.entryPoint.Some? ==>
              && DescendsBy(index.nodes, distance, query, index.maxLevel, 0, path) && path[0] == index.entryPoint.value
              && path[|path| - 1] in seen
    ensures r != [] ==> NearerThanPath(index.nodes, distance, query, index.maxLevel, path, r[0].distance)
  {
    index := Run(ops, m, efConstruct, distance);
    SameSize(index.nodes);
    ghost var beam;
    r, seen, evaluations, path, beam := index.Search(query, k);
    WorkBound(Max(efConstruct, k), 2 * m, m);
    if seen != {} { NonEmpty(seen); }
  }

  lemma NonEmpty(s: set<Id>)
    requires s != {}
    ensures |s| >= 1
  {
  }

  /**
   * An index whose beam has no width, as an empty index has after it was
   * saved and loaded, or whose lists have no room, links nothing: however
   * many vectors are added, a query looks at the entry point alone.
   */
  method AddAndSearchUnlinked(ops: seq<Op>, m: nat, efConstruct: nat, distance: DistanceFunc, query: Vector, k: nat)
    returns (r: seq<Treasure>)
    requires LevelsOk(ops) && AddOnly(ops) && (m == 0 || efConstruct == 0)
    ensures |r| == if AfterAll(ops) == map[] then 0 else Min(k, 1)
    ensures forall t :: t in r ==> t.id in AfterAll(ops) && t.vector == AfterAll(ops)[t.id]
  {
    var index := Run(ops, m, efConstruct, distance);
    SameSize(index.nodes);
    ghost var seen, evaluations, path, beam;
    r, seen, evaluations, path, beam := index.Search(query, k);
    if AfterAll(ops) == map[] { SubsetSize(seen, {}); }
  }

  function TreasureIds(r: seq<Treasure>): set<Id> {
    set t | t in r :: t.id
  }

  lemma {:induction false} DistinctIds(r: seq<Treasure>)
    requires forall i, j :: 0 <= i < j < |r| ==> r[i].id != r[j].id
    ensures |TreasureIds(r)| == |r|
  {
    if r != [] {
      var n := |r| - 1;
      DistinctIds(r[..n]);
      assert r == r[..n] + [r[n]];
      assert TreasureIds(r) == TreasureIds(r[..n]) + {r[n].id};
    }
  }

  /** Of i + 1 distinct nodes one is not among i others. */
  lemma OneMore(a: seq<Treasure>, b: seq<Treasure>) returns (p: nat)
    requires forall i, j :: 0 <= i < j < |a| ==> a[i].id != a[j].id
    requires forall i, j :: 0 <= i < j < |b| ==> b[i].id != b[j].id
    requires |b| < |a|
    ensures p < |a| && a[p] !in b
  {
    DistinctIds(a);
    DistinctIds(b);
    if forall i :: 0 <= i < |a| ==> a[i] in b {
      forall id | id in TreasureIds(a) ensures id in TreasureIds(b) {
        var i :| 0 <= i < |a| && a[i].id == id;
        assert a[i] in b;
      }
      SubsetSize(TreasureIds(a), TreasureIds(b));
      assert false;
    }
    p :| 0 <= p < |a| && a[p] !in b;
  }

  lemma NoNearer(v: map<Id, Vector>, distance: DistanceFunc, query: Vector, seen: set<Id>, k: nat,
                 a: seq<Treasure>, b: seq<Treasure>, i: nat)
    requires KNearest(v, distance, query, seen, k, a) && KNearest(v, distance, query, seen, k, b) && i < |a|
    ensures b[i].distance <= a[i].distance
  {
    var p := OneMore(a[..i + 1], b[..i]);
    var t := a[p];
    assert t in a && b[i] in b && t.distance <= a[i].distance;
    forall q | 0 <= q < i ensures b[q] != t { assert b[..i][q] == b[q]; }
    if t in b {
      var q :| 0 <= q < |b| && b[q] == t;
    }
  }

  /** The answer over a set of nodes is unique up to ties: any two have the same distances, place by place. */
  lemma KNearestUnique(v: map<Id, Vector>, distance: DistanceFunc, query: Vector, seen: set<Id>, k: nat,
                       a: seq<Treasure>, b: seq<Treasure>)
    requires KNearest(v, distance, query, seen, k, a) && KNearest(v, distance, query, seen, k, b)
    ensures |a| == |b| && forall i :: 0 <= i < |a| ==> a[i].distance == b[i].distance
  {
    forall i | 0 <= i < |a| ensures a[i].distance == b[i].distance {
      NoNearer(v, distance, query, seen, k, a, b, i);
      NoNearer(v, distance, query, seen, k, b, a, i);
    }
  }
}
