/**
 * mvcc.go: one version chain, newest first, and the two loops that walk it:
 * the snapshot reader and the garbage collector.
 */
module VersionChains {
  import opened Base

  datatype Version = Version(
    id: Id,
    vector: Option<Vector>,
    meta: Option<Meta>,
    version: TxId,
    createdByTx: TxId,
    deletedByTx: TxId)

  /** The list linked by NextVersion; the empty sequence is the nil pointer. */
  type Chain = seq<Version>

  predicate Visible(v: Version, snapshot: TxId) {
    v.createdByTx <= snapshot && (v.deletedByTx == 0 || v.deletedByTx > snapshot)
  }

  /** The first version of the chain visible to the snapshot. */
  function VisibleIn(c: Chain, snapshot: TxId): Option<Version> {
    if c == [] then None
    else if Visible(c[0], snapshot) then Some(c[0])
    else VisibleIn(c[1..], snapshot)
  }

  /** The part of a chain that garbage collection keeps. */
  function Cut(c: Chain, floor: TxId): Chain {
    if c == [] then []
    else if c[0].createdByTx <= floor then [c[0]]
    else [c[0]] + Cut(c[1..], floor)
  }

  /** No version carries a deletion. */
  predicate StoreOnly(c: Chain) {
    forall i :: 0 <= i < |c| ==> c[i].deletedByTx == 0
  }

  predicate Descending(c: Chain) {
    forall i, j :: 0 <= i < j < |c| ==> c[i].createdByTx > c[j].createdByTx
  }

  method GetVisibleVersion(chain: Chain, snapshot: TxId) returns (r: Option<Version>)
    ensures r == VisibleIn(chain, snapshot)
  {
    var version := chain;
    while version != []
      invariant VisibleIn(chain, snapshot) == VisibleIn(version, snapshot)
    {
      if version[0].createdByTx <= snapshot {
        if version[0].deletedByTx == 0 || version[0].deletedByTx > snapshot {
          return Some(version[0]);
        }
      }
      version := version[1..];
    }
    return None;
  }

  /**
   * What a collection at a floor leaves of a chain: its front, with at most one
   * version at or below the floor, the last; and if it drops anything, it has
   * one.
   */
  ghost predicate Trimmed(before: Chain, after: Chain, floor: TxId) {
    && |after| <= |before| && after == before[..|after|] && (before != [] ==> after != [])
    && (forall i :: 0 <= i < |after| - 1 ==> after[i].createdByTx > floor)
    && (|after| < |before| ==> after[|after| - 1].createdByTx <= floor)
  }

  /** Collection trims, and nothing else that trims is longer or shorter. */
  lemma {:induction false} TrimmedIff(before: Chain, after: Chain, floor: TxId)
    ensures Trimmed(before, after, floor) <==> after == Cut(before, floor)
  {
    if before != [] && before[0].createdByTx > floor {
      if after != [] && after[0] == before[0] {
        TrimmedIff(before[1..], after[1..], floor);
        TrimmedFront(before, after, floor);
      }
    } else if before != [] && after != [] {
      assert |after| <= |before| && after == before[..|after|] ==> after[0] == before[0];
    }
  }

  lemma TrimmedFront(before: Chain, after: Chain, floor: TxId)
    requires before != [] && after != [] && after[0] == before[0] && before[0].createdByTx > floor
    ensures Trimmed(before, after, floor) <==> Trimmed(before[1..], after[1..], floor)
  {
    assert after == [after[0]] + after[1..] && before == [before[0]] + before[1..];
    if Trimmed(before[1..], after[1..], floor) {
      assert before[..|after|] == [before[0]] + before[1..][..|after[1..]|];
    }
    if Trimmed(before, after, floor) {
      assert after[1..] == before[1..][..|after[1..]|];
    }
  }

  method GcVersionChain(chain: Chain, minSnapshot: TxId) returns (kept: Chain)
    ensures kept == Cut(chain, minSnapshot) && Trimmed(chain, kept, minSnapshot)
  {
    TrimmedIff(chain, Cut(chain, minSnapshot), minSnapshot);
    kept := [];
    var version := chain;
    while version != []
      invariant kept + Cut(version, minSnapshot) == Cut(chain, minSnapshot)
    {
      if version[0].createdByTx <= minSnapshot {
        kept := kept + [version[0]];
        return;
      } else {
        kept := kept + [version[0]];
      }
      version := version[1..];
    }
  }

  /** Where the reader stops: everything in front is hidden from the snapshot. */
  lemma {:induction false} VisibleAt(c: Chain, snapshot: TxId)
    ensures VisibleIn(c, snapshot) == None ==> forall i :: 0 <= i < |c| ==> !Visible(c[i], snapshot)
    ensures VisibleIn(c, snapshot).Some? ==>
              exists i :: 0 <= i < |c| && c[i] == VisibleIn(c, snapshot).value && Visible(c[i], snapshot)
                          && forall j :: 0 <= j < i ==> !Visible(c[j], snapshot)
  {
    if c != [] && !Visible(c[0], snapshot) {
      VisibleAt(c[1..], snapshot);
      var r := VisibleIn(c[1..], snapshot);
      if r.Some? {
        var i :| 0 <= i < |c[1..]| && c[1..][i] == r.value && Visible(c[1..][i], snapshot)
                 && forall j :: 0 <= j < i ==> !Visible(c[1..][j], snapshot);
        assert c[i + 1] == r.value;
        forall j | 0 <= j < i + 1
          ensures !Visible(c[j], snapshot)
        {
          if j > 0 { assert c[j] == c[1..][j - 1]; }
        }
      } else {
        forall i | 0 <= i < |c|
          ensures !Visible(c[i], snapshot)
        {
          if i > 0 { assert c[i] == c[1..][i - 1]; }
        }
      }
    }
  }

  /** On a store-only descending chain a snapshot read returns the newest version at or below the snapshot. */
  lemma VisibleIsNewest(c: Chain, snapshot: TxId, k: nat)
    requires StoreOnly(c) && Descending(c)
    requires k < |c| && c[k].createdByTx <= snapshot
    ensures VisibleIn(c, snapshot).Some?
    ensures c[k].createdByTx <= VisibleIn(c, snapshot).value.createdByTx <= snapshot
    ensures VisibleIn(c, snapshot).value in c
  {
    VisibleAt(c, snapshot);
  }

  /** Collection keeps a prefix of the chain, and at least its head. */
  lemma {:induction false} CutIsPrefix(c: Chain, floor: TxId)
    ensures |Cut(c, floor)| <= |c| && Cut(c, floor) == c[..|Cut(c, floor)|]
    ensures c != [] ==> Cut(c, floor) != [] && Cut(c, floor)[0] == c[0]
  {
    if c != [] && c[0].createdByTx > floor {
      CutIsPrefix(c[1..], floor);
      var n := |Cut(c[1..], floor)|;
      assert c[..n + 1] == [c[0]] + c[1..][..n];
    }
  }

  /** Collection at a floor is invisible to every snapshot at or above the floor. */
  lemma {:induction false} CutKeepsVisible(c: Chain, floor: TxId, snapshot: TxId)
    requires StoreOnly(c) && floor <= snapshot
    ensures VisibleIn(Cut(c, floor), snapshot) == VisibleIn(c, snapshot)
  {
    if c != [] && !Visible(c[0], snapshot) {
      CutKeepsVisible(c[1..], floor, snapshot);
      assert Cut(c, floor)[1..] == Cut(c[1..], floor);
    }
  }

  /** Two collections are one collection at the higher floor. */
  lemma {:induction false} CutCut(c: Chain, a: TxId, b: TxId)
    ensures Cut(Cut(c, a), b) == Cut(c, Max(a, b))
  {
    if c != [] && c[0].createdByTx > a {
      CutCut(c[1..], a, b);
      assert Cut(c, a)[1..] == Cut(c[1..], a);
    }
  }

  /**
   * With deletions, collection is invisible to a snapshot exactly when the
   * version it stops at is visible, or nothing behind that version is, or
   * something in front of it already is.
   */
  lemma {:induction false} CutVisibleIff(c: Chain, floor: TxId, snapshot: TxId)
    requires floor <= snapshot
    ensures var n := |Cut(c, floor)|;
            n <= |c| &&
            (VisibleIn(Cut(c, floor), snapshot) == VisibleIn(c, snapshot)
             <==> ((exists i :: 0 <= i < n && Visible(c[i], snapshot))
                   || (forall i :: n <= i < |c| ==> !Visible(c[i], snapshot))))
  {
    CutIsPrefix(c, floor);
    VisibleAt(c, snapshot);
    VisibleAt(Cut(c, floor), snapshot);
    var n := |Cut(c, floor)|;
    var kept := Cut(c, floor);
    assert forall i :: 0 <= i < n ==> kept[i] == c[i];
  }
}
