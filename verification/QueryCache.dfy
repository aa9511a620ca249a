/**
 * cache.go: the LRU cache of query results. A map and a list of keys, most
 * recently used first, refine one recency-ordered sequence of pairs.
 */
module QueryCache {
  import opened Base
  import opened HnswSearch
  import opened HnswIndex

  type Results = seq<Treasure>

  datatype Pair = Pair(key: Id, results: Results)

  function KeysOf(s: seq<Pair>): seq<Id> {
    seq(|s|, i requires 0 <= i < |s| => s[i].key)
  }

  /** Where a key is, or the length if it is not there. */
  function Find(s: seq<Pair>, key: Id): (i: nat)
    ensures i <= |s| && (i < |s| ==> s[i].key == key) && forall j :: 0 <= j < i ==> s[j].key != key
  {
    if s == [] || s[0].key == key then 0 else 1 + Find(s[1..], key)
  }

  /** The i-th element first, the others in their order. */
  function Rotate<T>(s: seq<T>, i: nat): (r: seq<T>)
    requires i < |s|
    ensures |r| == |s| && r[0] == s[i]
    ensures forall k :: 0 < k <= i ==> r[k] == s[k - 1]
    ensures forall k :: i < k < |s| ==> r[k] == s[k]
  {
    [s[i]] + s[..i] + s[i + 1..]
  }

  /** A hit brings the pair to the front. */
  function Got(s: seq<Pair>, key: Id): seq<Pair> {
    var i := Find(s, key);
    if i < |s| then Rotate(s, i) else s
  }

  /** A pair put replaces that of its key, or else the last ones make room for it. */
  function PutIn(s: seq<Pair>, key: Id, results: Results, maxSize: nat): seq<Pair>
    requires maxSize >= 1
  {
    var i := Find(s, key);
    if i < |s| then Rotate(s, i)[0 := Pair(key, results)]
    else [Pair(key, results)] + s[..Min(|s|, maxSize - 1)]
  }

  class Cache {
    const maxSize: nat
    var entries: map<Id, Results>
    var lru: seq<Id>
    var hits: nat
    var misses: nat

    /** Map and list name the same keys, each once, and no more than fit. */
    ghost predicate Valid()
      reads this
    {
      1 <= maxSize && Unique(lru) && Members(lru) == entries.Keys && |lru| <= maxSize
    }

    ghost function Pairs(): seq<Pair>
      requires Valid()
      reads this
    {
      PairsOf(entries, lru)
    }

    constructor (maxSize: nat)
      requires 1 <= maxSize
      ensures Valid() && this.maxSize == maxSize && Pairs() == [] && hits == 0 && misses == 0
    {
      this.maxSize, entries, lru, hits, misses := maxSize, map[], [], 0, 0;
      new;
      assert Members([]) == {};
    }

    /** container/list keeps the element; here it is found by its key. */
    method MoveToFront(key: Id)
      requires Valid() && key in entries
      modifies this`lru
      ensures Valid() && Pairs() == Got(old(Pairs()), key)
    {
      var i := IndexOf(lru, key);
      MovedToFront(entries, lru, i, key);
      lru := Rotate(lru, i);
    }

    method Get(key: Id) returns (r: Option<Results>)
      requires Valid()
      modifies this`lru, this`hits, this`misses
      ensures Valid() && Pairs() == Got(old(Pairs()), key)
      ensures var i := Find(old(Pairs()), key);
              r == if i < |old(Pairs())| then Some(old(Pairs())[i].results) else None
      ensures hits == old(hits) + (if r.Some? then 1 else 0) && misses == old(misses) + (if r.None? then 1 else 0)
    {
      FindInPairs(entries, lru, key);
      if key !in entries {
        misses := misses + 1;
        return None;
      }
      MoveToFront(key);
      hits := hits + 1;
      r := Some(entries[key]);
    }

    /** The loop ends because there is always a last element: maxSize is at least 1. */
    method Put(key: Id, results: Results)
      requires Valid()
      modifies this`entries, this`lru
      ensures Valid() && Pairs() == PutIn(old(Pairs()), key, results, maxSize)
    {
      FindInPairs(entries, lru, key);
      if key in entries {
        Replace(key, results);
        return;
      }
      Evict();
      AddFront(key, results);
    }

    method Replace(key: Id, results: Results)
      requires Valid() && key in entries
      modifies this`entries, this`lru
      ensures Valid() && |old(Pairs())| > 0 && Pairs() == Got(old(Pairs()), key)[0 := Pair(key, results)]
    {
      FindInPairs(entries, lru, key);
      MoveToFront(key);
      assert Pairs()[0].key == key;
      UpdatedFront(entries, lru, key, results);
      entries := entries[key := results];
    }

    method AddFront(key: Id, results: Results)
      requires Valid() && key !in entries && |lru| < maxSize
      modifies this`entries, this`lru
      ensures Valid() && Pairs() == [Pair(key, results)] + old(Pairs())
    {
      assert key in lru ==> key in Members(lru);
      AddedFront(entries, lru, key, results);
      lru := [key] + lru;
      entries := entries[key := results];
    }

    /** Evict from the back until there is room for one more. */
    method Evict()
      requires Valid()
      modifies this`entries, this`lru
      ensures Valid() && |lru| < maxSize && Pairs() == old(Pairs())[..Min(|old(Pairs())|, maxSize - 1)]
      ensures entries.Keys <= old(entries.Keys)
    {
      ghost var all := Pairs();
      assert all[..|lru|] == all;
      while |lru| >= maxSize
        invariant Valid() && |lru| <= |all| && Pairs() == all[..|lru|] && entries.Keys <= old(entries.Keys)
        invariant |lru| >= maxSize - 1 || |lru| == |all|
        decreases |lru|
      {
        var oldKey := lru[|lru| - 1];
        DroppedLast(entries, lru);
        entries := entries - {oldKey};
        lru := lru[..|lru| - 1];
        assert all[..|lru| + 1][..|lru|] == all[..|lru|];
      }
    }

    method Invalidate()
      requires Valid()
      modifies this`entries, this`lru
      ensures Valid() && Pairs() == []
    {
      entries, lru := map[], [];
      assert Members([]) == {};
    }
  }

  /** The list as pairs. */
  function PairsOf(entries: map<Id, Results>, lru: seq<Id>): (s: seq<Pair>)
    requires Members(lru) <= entries.Keys
    ensures |s| == |lru| && forall i :: 0 <= i < |lru| ==> lru[i] in entries && s[i] == Pair(lru[i], entries[lru[i]])
  {
    assert forall i :: 0 <= i < |lru| ==> lru[i] in Members(lru);
    seq(|lru|, i requires 0 <= i < |lru| => Pair(lru[i], entries[lru[i]]))
  }

  method IndexOf(s: seq<Id>, key: Id) returns (i: nat)
    requires key in s
    ensures i < |s| && s[i] == key
  {
    i := 0;
    while s[i] != key
      invariant i < |s| && key !in s[..i]
      decreases |s| - i
    {
      i := i + 1;
    }
  }

  lemma FindAt(s: seq<Pair>, key: Id, i: nat)
    requires i < |s| && s[i].key == key && forall j :: 0 <= j < i ==> s[j].key != key
    ensures Find(s, key) == i
  {
  }

  lemma FindInPairs(entries: map<Id, Results>, lru: seq<Id>, key: Id)
    requires Unique(lru) && Members(lru) == entries.Keys
    ensures var s := PairsOf(entries, lru);
            key in entries <==> Find(s, key) < |s|
    ensures key in entries ==>
              key in lru && PairsOf(entries, lru)[Find(PairsOf(entries, lru), key)] == Pair(key, entries[key])
  {
    var s := PairsOf(entries, lru);
    forall i | 0 <= i < |lru| ensures s[i].key in entries { assert lru[i] in Members(lru); }
    if key in entries {
      assert key in Members(lru);
      var i :| 0 <= i < |lru| && lru[i] == key;
      assert s[i].key == key;
    }
  }

  lemma RotatedUnique(lru: seq<Id>, i: nat)
    requires Unique(lru) && i < |lru|
    ensures Unique(Rotate(lru, i)) && Members(Rotate(lru, i)) == Members(lru)
  {
    assert lru == lru[..i] + [lru[i]] + lru[i + 1..];
    forall k ensures k in Rotate(lru, i) <==> k in lru {}
  }

  lemma MovedToFront(entries: map<Id, Results>, lru: seq<Id>, i: nat, key: Id)
    requires Unique(lru) && Members(lru) == entries.Keys && i < |lru| && lru[i] == key
    ensures var after := Rotate(lru, i);
            && Unique(after) && Members(after) == entries.Keys
            && PairsOf(entries, after) == Got(PairsOf(entries, lru), key)
  {
    RotatedUnique(lru, i);
    FindAt(PairsOf(entries, lru), key, i);
    RotatedPairs(entries, lru, i);
  }

  lemma RotatedPairs(entries: map<Id, Results>, lru: seq<Id>, i: nat)
    requires i < |lru| && Members(lru) <= entries.Keys && Members(Rotate(lru, i)) <= entries.Keys
    ensures PairsOf(entries, Rotate(lru, i)) == Rotate(PairsOf(entries, lru), i)
  {
  }

  lemma UpdatedFront(entries: map<Id, Results>, lru: seq<Id>, key: Id, results: Results)
    requires Unique(lru) && Members(lru) == entries.Keys && lru != [] && lru[0] == key
    ensures Members(lru) == entries[key := results].Keys
    ensures PairsOf(entries[key := results], lru) == PairsOf(entries, lru)[0 := Pair(key, results)]
  {
    assert key in Members(lru);
  }

  lemma AddedFront(entries: map<Id, Results>, lru: seq<Id>, key: Id, results: Results)
    requires Unique(lru) && Members(lru) == entries.Keys && key !in lru && key !in entries
    ensures var after := [key] + lru;
            && Unique(after) && Members(after) == entries[key := results].Keys
            && PairsOf(entries[key := results], after) == [Pair(key, results)] + PairsOf(entries, lru)
  {
    var after := [key] + lru;
    forall k ensures k in after <==> k == key || k in lru {}
  }

  lemma DroppedLast(entries: map<Id, Results>, lru: seq<Id>)
    requires Unique(lru) && Members(lru) == entries.Keys && lru != []
    ensures var n := |lru| - 1;
            && Unique(lru[..n]) && Members(lru[..n]) == (entries - {lru[n]}).Keys
            && PairsOf(entries - {lru[n]}, lru[..n]) == PairsOf(entries, lru)[..n]
  {
    var n := |lru| - 1;
    MembersSnoc(lru, n);
    assert lru[..n + 1] == lru;
    assert Members(lru[..n]) == Members(lru) - {lru[n]};
  }

  /** The unbounded recency list of the keys used: to the front, whether new or not. */
  function Touch(keys: seq<Id>, key: Id): seq<Id> {
    [key] + Dropped(keys, key)
  }

  function Dropped(keys: seq<Id>, key: Id): seq<Id> {
    if keys == [] then []
    else if keys[0] == key then Dropped(keys[1..], key)
    else [keys[0]] + Dropped(keys[1..], key)
  }

  /** Use of a key as queries do it: get it, and put it after a miss. */
  function Used(s: seq<Pair>, key: Id, results: Results, maxSize: nat): seq<Pair>
    requires maxSize >= 1
  {
    if Find(s, key) < |s| then Got(s, key) else PutIn(s, key, results, maxSize)
  }

  lemma {:induction false} DroppedAbsent(keys: seq<Id>, key: Id)
    requires key !in keys
    ensures Dropped(keys, key) == keys
  {
    if keys != [] { DroppedAbsent(keys[1..], key); }
  }

  lemma {:induction false} DroppedIs(keys: seq<Id>, i: nat)
    requires Unique(keys) && i < |keys|
    ensures Dropped(keys, keys[i]) == keys[..i] + keys[i + 1..]
  {
    if i == 0 {
      assert keys[0] !in keys[1..];
      DroppedAbsent(keys[1..], keys[0]);
    } else {
      DroppedIs(keys[1..], i - 1);
      assert keys[..i] + keys[i + 1..] == [keys[0]] + (keys[1..][..i - 1] + keys[1..][i..]);
    }
  }

  lemma DroppedAt(keys: seq<Id>, i: nat)
    requires Unique(keys) && i < |keys|
    ensures Touch(keys, keys[i]) == Rotate(keys, i)
  {
    DroppedIs(keys, i);
    assert [keys[i]] + (keys[..i] + keys[i + 1..]) == Rotate(keys, i);
  }

  lemma {:induction false} DroppedUnique(keys: seq<Id>, key: Id)
    requires Unique(keys)
    ensures Unique(Dropped(keys, key)) && forall k :: k in Dropped(keys, key) ==> k in keys && k != key
  {
    if keys != [] {
      DroppedUnique(keys[1..], key);
      assert keys[0] !in keys[1..];
    }
  }

  lemma TouchUnique(keys: seq<Id>, key: Id)
    requires Unique(keys)
    ensures Unique(Touch(keys, key))
  {
    DroppedUnique(keys, key);
    forall i | 0 <= i < |Dropped(keys, key)| ensures Dropped(keys, key)[i] != key {
      assert Dropped(keys, key)[i] in Dropped(keys, key);
    }
  }

  lemma KeyPlaces(s: seq<Pair>, all: seq<Id>, maxSize: nat)
    requires KeysOf(s) == all[..Min(|all|, maxSize)]
    ensures |s| == Min(|all|, maxSize) && forall k :: 0 <= k < |s| ==> s[k].key == all[k]
  {
    assert |KeysOf(s)| == |s|;
    forall k | 0 <= k < |s| ensures s[k].key == all[k] { assert KeysOf(s)[k] == all[k]; }
  }

  lemma UsedHit(s: seq<Pair>, all: seq<Id>, key: Id, j: nat, maxSize: nat)
    requires maxSize >= 1 && Unique(all) && KeysOf(s) == all[..Min(|all|, maxSize)] && j < |s| && all[j] == key
    ensures |Touch(all, key)| == |all|
    ensures Find(s, key) == j && KeysOf(Got(s, key)) == Touch(all, key)[..Min(|all|, maxSize)]
  {
    KeyPlaces(s, all, maxSize);
    FindAt(s, key, j);
    DroppedAt(all, j);
    forall k | 0 <= k < |s| ensures KeysOf(Rotate(s, j))[k] == Rotate(all, j)[k] {}
  }

  lemma UsedMiss(s: seq<Pair>, all: seq<Id>, key: Id, results: Results, maxSize: nat)
    requires maxSize >= 1 && Unique(all) && KeysOf(s) == all[..Min(|all|, maxSize)] && Find(s, key) == |s|
    ensures var after := Touch(all, key);
            KeysOf(PutIn(s, key, results, maxSize)) == after[..Min(|after|, maxSize)]
  {
    KeyPlaces(s, all, maxSize);
    assert KeysOf(PutIn(s, key, results, maxSize)) == [key] + all[..Min(|s|, maxSize - 1)];
    if key in all {
      var j :| 0 <= j < |all| && all[j] == key;
      assert j >= |s| == maxSize;
      DroppedAt(all, j);
      assert Rotate(all, j)[..maxSize] == [key] + all[..maxSize - 1];
    } else {
      DroppedAbsent(all, key);
    }
  }

  /** One use of a bounded cache agrees with the unbounded list as far as the cache reaches. */
  lemma UsedIsTouch(s: seq<Pair>, all: seq<Id>, key: Id, results: Results, maxSize: nat)
    requires maxSize >= 1 && Unique(all) && KeysOf(s) == all[..Min(|all|, maxSize)]
    ensures var after := Touch(all, key);
            Unique(after) && KeysOf(Used(s, key, results, maxSize)) == after[..Min(|after|, maxSize)]
  {
    TouchUnique(all, key);
    KeyPlaces(s, all, maxSize);
    if Find(s, key) < |s| {
      UsedHit(s, all, key, Find(s, key), maxSize);
    } else {
      UsedMiss(s, all, key, results, maxSize);
    }
  }

  /** Queries that use the cache: each is answered from it, or its answer is put into it. */
  datatype Query = Ask(key: Id, results: Results) | Change

  function CacheAfter(queries: seq<Query>, maxSize: nat): seq<Pair>
    requires maxSize >= 1
  {
    if queries == [] then []
    else
      match queries[|queries| - 1]
      case Ask(key, results) => Used(CacheAfter(queries[..|queries| - 1], maxSize), key, results, maxSize)
      case Change => []
  }

  function Recent(queries: seq<Query>): seq<Id> {
    if queries == [] then []
    else
      match queries[|queries| - 1]
      case Ask(key, _) => Touch(Recent(queries[..|queries| - 1]), key)
      case Change => []
  }

  /** The cache holds exactly the maxSize keys asked for last since the data last changed. */
  lemma {:induction false} HoldsMostRecent(queries: seq<Query>, maxSize: nat)
    requires maxSize >= 1
    ensures Unique(Recent(queries))
    ensures KeysOf(CacheAfter(queries, maxSize)) == Recent(queries)[..Min(|Recent(queries)|, maxSize)]
  {
    if queries != [] {
      var front := queries[..|queries| - 1];
      HoldsMostRecent(front, maxSize);
      match queries[|queries| - 1]
      case Ask(key, results) => UsedIsTouch(CacheAfter(front, maxSize), Recent(front), key, results, maxSize);
      case Change =>
    }
  }

  /** A larger cache holds whatever a smaller one does, so it hits whenever that one hits. */
  lemma LargerHitsMore(queries: seq<Query>, small: nat, large: nat)
    requires 1 <= small <= large
    ensures KeysOf(CacheAfter(queries, small)) <= KeysOf(CacheAfter(queries, large))
  {
    HoldsMostRecent(queries, small);
    HoldsMostRecent(queries, large);
  }

  /** The calls themselves, in any order: concurrent queries may put a key twice, or get it and never put it. */
  datatype Op = OpGet(key: Id) | OpPut(key: Id, results: Results) | OpInvalidate

  function Called(s: seq<Pair>, op: Op, maxSize: nat): seq<Pair>
    requires maxSize >= 1
  {
    match op
    case OpGet(key) => Got(s, key)
    case OpPut(key, results) => PutIn(s, key, results, maxSize)
    case OpInvalidate => []
  }

  function PairsAfter(ops: seq<Op>, maxSize: nat): seq<Pair>
    requires maxSize >= 1
  {
    if ops == [] then [] else Called(PairsAfter(ops[..|ops| - 1], maxSize), ops[|ops| - 1], maxSize)
  }

  /** What a Get returns. */
  function AnswerIn(s: seq<Pair>, key: Id): Option<Results> {
    if Find(s, key) < |s| then Some(s[Find(s, key)].results) else None
  }

  /** What the calls return; a Get is answered from what the calls before it left. */
  function Answers(ops: seq<Op>, maxSize: nat): (answers: seq<Option<Results>>)
    requires maxSize >= 1
    ensures |answers| == |ops|
  {
    if ops == [] then []
    else
      var front, op := ops[..|ops| - 1], ops[|ops| - 1];
      Answers(front, maxSize) + [if op.OpGet? then AnswerIn(PairsAfter(front, maxSize), op.key) else None]
  }

  function Gets(ops: seq<Op>): nat {
    if ops == [] then 0 else Gets(ops[..|ops| - 1]) + if ops[|ops| - 1].OpGet? then 1 else 0
  }

  function Hits(ops: seq<Op>, maxSize: nat): nat
    requires maxSize >= 1
  {
    if ops == [] then 0
    else
      var front, op := ops[..|ops| - 1], ops[|ops| - 1];
      Hits(front, maxSize) + if op.OpGet? && AnswerIn(PairsAfter(front, maxSize), op.key).Some? then 1 else 0
  }

  lemma CallsSnoc(ops: seq<Op>, i: nat, maxSize: nat)
    requires maxSize >= 1 && i < |ops|
    ensures var before, op := PairsAfter(ops[..i], maxSize), ops[i];
            var answer := if op.OpGet? then AnswerIn(before, op.key) else None;
            && PairsAfter(ops[..i + 1], maxSize) == Called(before, op, maxSize)
            && Answers(ops[..i + 1], maxSize) == Answers(ops[..i], maxSize) + [answer]
            && Gets(ops[..i + 1]) == Gets(ops[..i]) + (if op.OpGet? then 1 else 0)
            && Hits(ops[..i + 1], maxSize) == Hits(ops[..i], maxSize) + if answer.Some? then 1 else 0
  {
    assert ops[..i + 1][..i] == ops[..i];
  }

  method Call(cache: Cache, op: Op) returns (r: Option<Results>)
    requires cache.Valid()
    modifies cache
    ensures cache.Valid() && cache.Pairs() == Called(old(cache.Pairs()), op, cache.maxSize)
    ensures r == if op.OpGet? then AnswerIn(old(cache.Pairs()), op.key) else None
    ensures cache.hits + cache.misses == old(cache.hits + cache.misses) + if op.OpGet? then 1 else 0
    ensures cache.hits == old(cache.hits) + if op.OpGet? && AnswerIn(old(cache.Pairs()), op.key).Some? then 1 else 0
  {
    r := None;
    match op {
      case OpGet(key) => r := cache.Get(key);
      case OpPut(key, results) => cache.Put(key, results);
      case OpInvalidate => cache.Invalidate();
    }
  }

  /** Any calls in any order, and the answers to the Gets among them. */
  method Run(ops: seq<Op>, maxSize: nat) returns (cache: Cache, answers: seq<Option<Results>>)
    requires 1 <= maxSize
    ensures cache.Valid() && cache.Pairs() == PairsAfter(ops, maxSize)
    ensures cache.hits == Hits(ops, maxSize) && cache.hits + cache.misses == Gets(ops)
    ensures answers == Answers(ops, maxSize)
  {
    cache := new Cache(maxSize);
    answers := [];
    for i := 0 to |ops|
      invariant fresh(cache) && cache.Valid() && cache.maxSize == maxSize
                && cache.Pairs() == PairsAfter(ops[..i], maxSize)
      invariant cache.hits == Hits(ops[..i], maxSize) && cache.hits + cache.misses == Gets(ops[..i])
      invariant answers == Answers(ops[..i], maxSize)
    {
      CallsSnoc(ops, i, maxSize);
      var r := Call(cache, ops[i]);
      answers := answers + [r];
    }
    assert ops[..|ops|] == ops;
  }

  /** Queries are such calls: a Get, and a Put if it found nothing. */
  function CallsOf(queries: seq<Query>, maxSize: nat): seq<Op>
    requires maxSize >= 1
  {
    if queries == [] then []
    else
      var front := queries[..|queries| - 1];
      match queries[|queries| - 1]
      case Ask(key, results) =>
        var s := CacheAfter(front, maxSize);
        CallsOf(front, maxSize) + [OpGet(key)] + if Find(s, key) < |s| then [] else [OpPut(key, results)]
      case Change => CallsOf(front, maxSize) + [OpInvalidate]
  }

  lemma PairsSnoc(ops: seq<Op>, op: Op, maxSize: nat)
    requires maxSize >= 1
    ensures PairsAfter(ops + [op], maxSize) == Called(PairsAfter(ops, maxSize), op, maxSize)
  {
    assert (ops + [op])[..|ops|] == ops;
  }

  lemma {:induction false} QueriesAreCalls(queries: seq<Query>, maxSize: nat)
    requires maxSize >= 1
    ensures PairsAfter(CallsOf(queries, maxSize), maxSize) == CacheAfter(queries, maxSize)
  {
    if queries != [] {
      var front := queries[..|queries| - 1];
      QueriesAreCalls(front, maxSize);
      var calls := CallsOf(front, maxSize);
      match queries[|queries| - 1]
      case Ask(key, results) =>
        PairsSnoc(calls, OpGet(key), maxSize);
        PairsSnoc(calls + [OpGet(key)], OpPut(key, results), maxSize);
        assert calls + [OpGet(key)] + [] == calls + [OpGet(key)];
      case Change => PairsSnoc(calls, OpInvalidate, maxSize);
    }
  }

  /** The last Put of a key, as long as it is neither invalidated nor evicted: what a Get may return. */
  function LastPut(ops: seq<Op>, key: Id): Option<Results> {
    if ops == [] then None
    else
      var op := ops[|ops| - 1];
      if op.OpInvalidate? then None
      else if op.OpPut? && op.key == key then Some(op.results)
      else LastPut(ops[..|ops| - 1], key)
  }

  lemma RotatedHas(s: seq<Pair>, i: nat, p: Pair)
    requires i < |s|
    ensures p in Rotate(s, i) <==> p in s
  {
    assert s == s[..i] + [s[i]] + s[i + 1..];
  }

  /** The cache never makes anything up: each pair it holds is the last one put under its key. */
  lemma {:induction false} HoldsLastPut(ops: seq<Op>, maxSize: nat, p: Pair)
    requires maxSize >= 1 && p in PairsAfter(ops, maxSize)
    ensures LastPut(ops, p.key) == Some(p.results)
  {
    var before, op := PairsAfter(ops[..|ops| - 1], maxSize), ops[|ops| - 1];
    match op
    case OpGet(key) =>
      if Find(before, key) < |before| { RotatedHas(before, Find(before, key), p); }
      HoldsLastPut(ops[..|ops| - 1], maxSize, p);
    case OpPut(key, results) =>
      if p != Pair(key, results) {
        OthersWere(before, key, results, maxSize, p);
        HoldsLastPut(ops[..|ops| - 1], maxSize, p);
        PairsUnique(ops[..|ops| - 1], maxSize);
        NotThatKey(before, key, results, maxSize, p);
      }
    case OpInvalidate =>
  }

  lemma OthersWere(s: seq<Pair>, key: Id, results: Results, maxSize: nat, p: Pair)
    requires maxSize >= 1 && p in PutIn(s, key, results, maxSize) && p != Pair(key, results)
    ensures p in s
  {
    var i := Find(s, key);
    if i < |s| { RotatedHas(s, i, p); }
  }

  lemma NotThatKey(s: seq<Pair>, key: Id, results: Results, maxSize: nat, p: Pair)
    requires maxSize >= 1 && p in PutIn(s, key, results, maxSize) && p != Pair(key, results) && Unique(KeysOf(s))
    ensures p.key != key
  {
    var i := Find(s, key);
    if i < |s| {
      var r := Rotate(s, i);
      var k :| 0 < k < |s| && r[k] == p;
      var j := if k <= i then k - 1 else k;
      assert s[j] == p && j != i;
      assert KeysOf(s)[j] == p.key && KeysOf(s)[i] == key;
    }
  }

  lemma {:induction false} PairsUnique(ops: seq<Op>, maxSize: nat)
    requires maxSize >= 1
    ensures Unique(KeysOf(PairsAfter(ops, maxSize))) && |PairsAfter(ops, maxSize)| <= maxSize
  {
    if ops != [] {
      var before := PairsAfter(ops[..|ops| - 1], maxSize);
      PairsUnique(ops[..|ops| - 1], maxSize);
      match ops[|ops| - 1]
      case OpGet(key) => GotUnique(before, key);
      case OpPut(key, results) => PutUnique(before, key, results, maxSize);
      case OpInvalidate =>
    }
  }

  lemma GotUnique(s: seq<Pair>, key: Id)
    requires Unique(KeysOf(s))
    ensures Unique(KeysOf(Got(s, key)))
  {
    var i := Find(s, key);
    if i < |s| {
      RotatedUnique(KeysOf(s), i);
      assert KeysOf(Rotate(s, i)) == Rotate(KeysOf(s), i);
    }
  }

  lemma PutUnique(s: seq<Pair>, key: Id, results: Results, maxSize: nat)
    requires Unique(KeysOf(s)) && maxSize >= 1 && |s| <= maxSize
    ensures Unique(KeysOf(PutIn(s, key, results, maxSize))) && |PutIn(s, key, results, maxSize)| <= maxSize
  {
    var i := Find(s, key);
    if i < |s| {
      GotUnique(s, key);
      assert KeysOf(PutIn(s, key, results, maxSize)) == KeysOf(Got(s, key));
    } else {
      var r := PutIn(s, key, results, maxSize);
      forall j, k | 0 <= j < k < |r| ensures KeysOf(r)[j] != KeysOf(r)[k] {
        assert r[k] == s[k - 1] && KeysOf(s)[k - 1] == s[k - 1].key;
        assert j > 0 ==> r[j] == s[j - 1] && KeysOf(s)[j - 1] == s[j - 1].key;
      }
    }
  }
}
