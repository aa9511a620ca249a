/**
 * recovery.go: opening a database replays the log onto index and pages, empties
 * it, and takes the vector count from the index.
 */
module NestRecovery {
  import opened Base
  import opened HnswGraph
  import opened Pages
  import opened PackedPage
  import opened VectorPages
  import opened WalCodec
  import opened WalReader
  import WalLog
  import opened Recovery
  import opened NestStore

  /** The entry brings a vector that has to be written to a page. */
  predicate NeedsPage(v: map<Id, Vector>, e: Entry) {
    (e.kind == WAL_INSERT && e.id !in v) || e.kind == WAL_UPDATE
  }

  /** The entry is understood, and its vector finds a page. */
  predicate Applies(v: map<Id, Vector>, e: Entry, left: int) {
    Known(e) && (NeedsPage(v, e) ==> 0 < left && |e.vector| <= 988)
  }

  /** How many pages a replay takes. */
  function PagesFor(v: map<Id, Vector>, es: seq<Entry>): nat {
    if es == [] then 0
    else PagesFor(v, es[..|es| - 1]) + if NeedsPage(Replay(v, es[..|es| - 1]), es[|es| - 1]) then 1 else 0
  }

  /** Every entry is understood and finds its page. */
  predicate AllApply(v: map<Id, Vector>, es: seq<Entry>, left: int) {
    es == [] || var n := |es| - 1;
                AllApply(v, es[..n], left) && Applies(Replay(v, es[..n]), es[n], left - PagesFor(v, es[..n]))
  }

  lemma {:induction false} AllApplyPart(v: map<Id, Vector>, es: seq<Entry>, left: int, n: nat)
    requires n <= |es| && AllApply(v, es, left)
    ensures AllApply(v, es[..n], left)
  {
    if n == |es| {
      assert es[..n] == es;
    } else {
      AllApplyPart(v, es[..|es| - 1], left, n);
      assert es[..|es| - 1][..n] == es[..n];
    }
  }

  ghost predicate NoEntryOf(es: seq<Entry>, id: Id) {
    forall i :: 0 <= i < |es| ==> es[i].id != id
  }

  /** The page map is the same for the IDs without an entry. */
  ghost predicate SamePlaces(before: map<Id, nat>, after: map<Id, nat>, es: seq<Entry>) {
    forall id :: NoEntryOf(es, id) ==> (id in after <==> id in before) && (id in before ==> after[id] == before[id])
  }

  lemma SamePlacesStep(a: map<Id, nat>, b: map<Id, nat>, c: map<Id, nat>, es: seq<Entry>, i: nat)
    requires i < |es| && SamePlaces(a, b, es[..i])
    requires forall id :: id != es[i].id ==> (id in c <==> id in b) && (id in b ==> c[id] == b[id])
    ensures SamePlaces(a, c, es[..i + 1])
  {
    forall id | NoEntryOf(es[..i + 1], id) ensures (id in c <==> id in a) && (id in a ==> c[id] == a[id]) {
      assert es[..i + 1][i] == es[i];
      forall j | 0 <= j < i ensures es[..i][j].id != id { assert es[..i + 1][j] == es[..i][j]; }
      assert NoEntryOf(es[..i], id);
    }
  }

  /** With a page for every entry, entries of small vectors all apply. */
  lemma {:induction false} RoomForAll(v: map<Id, Vector>, es: seq<Entry>, left: int)
    requires |es| <= left && forall i :: 0 <= i < |es| ==> Known(es[i]) && |es[i].vector| <= 988
    ensures AllApply(v, es, left) && PagesFor(v, es) <= |es|
  {
    if es != [] { RoomForAll(v, es[..|es| - 1], left); }
  }

  /** The index part of an entry, and the count; false if there is nothing to write to a page. */
  method IndexEntry(nest: Nest, e: Entry, level: nat) returns (write: bool)
    requires nest.index.Valid() && level <= MAX_LEVEL && Known(e) && nest.count < COUNT_LIMIT
    modifies nest`count, nest.index`nodes, nest.index`entryPoint, nest.index`maxLevel
    ensures nest.index.Valid() && write == NeedsPage(old(nest.Indexed()), e)
    ensures nest.Indexed() == Effect(old(nest.Indexed()), e)
    ensures nest.count == Counted(old(nest.count), old(nest.Indexed()), e) < COUNT_LIMIT
  {
    ghost var before := nest.Indexed();
    if e.kind == WAL_INSERT {
      write := AddTo(nest.index, e.id, e.vector, level);
      if write {
        nest.count := if nest.count + 1 == COUNT_LIMIT then 0 else nest.count + 1;
      }
    } else if e.kind == WAL_DELETE {
      var removed := RemoveFrom(nest.index, e.id);
      nest.count := if nest.count == 0 then COUNT_LIMIT - 1 else nest.count - 1;
      write := false;
    } else {
      var removed := RemoveFrom(nest.index, e.id);
      var added := AddTo(nest.index, e.id, e.vector, level);
      assert (before - {e.id})[e.id := e.vector] == before[e.id := e.vector];
      write := true;
    }
  }

  lemma EffectPaged(crc: Crc, v: map<Id, Vector>, e: Entry, places: map<Id, nat>, before: seq<Page>, after: seq<Page>)
    requires PagesAgree(crc, v, places, before)
    requires !NeedsPage(v, e) ==> after == before
    requires NeedsPage(v, e) ==> before <= after && |after| == |before| + 1
    requires NeedsPage(v, e) && Survives(e.id) ==> LoadFrom(crc, after[|before|], e.id) == Some(e.vector)
    ensures PagesAgree(crc, Effect(v, e), if NeedsPage(v, e) then places[e.id := |before|] else places, after)
  {
    if NeedsPage(v, e) { PagesAgreeAfter(crc, v, places, before, after, e.id, e.vector); }
  }

  /** applyWALEntry without metadata; the errors are an unknown type and a vector that finds no page. */
  method ApplyEntry(nest: Nest, e: Entry, level: nat) returns (ok: bool)
    requires nest.Sound() && level <= MAX_LEVEL && nest.count < COUNT_LIMIT
    modifies nest, nest.index`nodes, nest.index`entryPoint, nest.index`maxLevel, nest.storage
    ensures ok == Applies(old(nest.Indexed()), e, nest.storage.limit - |old(nest.storage.pages)|)
    ensures ok ==> nest.Sound() && nest.Indexed() == Effect(old(nest.Indexed()), e)
    ensures ok && old(nest.Paged()) ==> nest.Paged()
    ensures ok ==> nest.count == Counted(old(nest.count), old(nest.Indexed()), e) < COUNT_LIMIT
    ensures ok ==>
              |nest.storage.pages| == |old(nest.storage.pages)| + if NeedsPage(old(nest.Indexed()), e) then 1 else 0
    ensures old(nest.storage.pages) <= nest.storage.pages
    ensures nest.vectorPages in {old(nest.vectorPages), old(nest.vectorPages)[e.id := |old(nest.storage.pages)|]}
  {
    if !Known(e) {
      return false;
    }
    ghost var before, places, file := nest.Indexed(), nest.vectorPages, nest.storage.pages;
    var write := IndexEntry(nest, e, level);
    ok := true;
    if write {
      ok := nest.StoreVector(e.id, e.vector);
    }
    if ok && PagesAgree(nest.env.crc, before, places, file) {
      EffectPaged(nest.env.crc, before, e, places, file, nest.storage.pages);
    }
  }

  lemma StopsHere(v: map<Id, Vector>, es: seq<Entry>, left: int, i: nat)
    requires i < |es| && !Applies(Replay(v, es[..i]), es[i], left - PagesFor(v, es[..i]))
    ensures !AllApply(v, es, left)
  {
    assert es[..i + 1][..i] == es[..i];
    if AllApply(v, es, left) { AllApplyPart(v, es, left, i + 1); }
  }

  /**
   * replayWAL on the entries read, on a database that holds v and has that many pages left: one after the other
   * until one fails; the levels are the random ones.
   */
  method ReplayAll(nest: Nest, es: seq<Entry>, levels: nat -> nat, ghost v: map<Id, Vector>, ghost left: int)
    returns (ok: bool)
    requires nest.Sound() && nest.count < COUNT_LIMIT && forall i: nat :: levels(i) <= MAX_LEVEL
    requires nest.Indexed() == v && nest.storage.limit - |nest.storage.pages| == left
    modifies nest, nest.index`nodes, nest.index`entryPoint, nest.index`maxLevel, nest.storage
    ensures ok == AllApply(v, es, left)
    ensures ok ==> nest.Sound() && nest.Indexed() == Replay(v, es)
    ensures ok && old(nest.Paged()) ==> nest.Paged()
    ensures ok ==> nest.count == CountAfter(old(nest.count), v, es)
    ensures ok ==> old(nest.storage.pages) <= nest.storage.pages
                   && SamePlaces(old(nest.vectorPages), nest.vectorPages, es)
  {
    ghost var count, paged, pages, places := nest.count, nest.Paged(), nest.storage.pages, nest.vectorPages;
    for i := 0 to |es|
      invariant nest.Sound() && nest.count < COUNT_LIMIT && AllApply(v, es[..i], left)
      invariant paged ==> nest.Paged()
      invariant nest.Indexed() == Replay(v, es[..i]) && nest.count == CountAfter(count, v, es[..i])
      invariant nest.storage.limit - |nest.storage.pages| == left - PagesFor(v, es[..i])
      invariant pages <= nest.storage.pages && SamePlaces(places, nest.vectorPages, es[..i])
    {
      ghost var before := nest.vectorPages;
      assert es[..i + 1][..i] == es[..i];
      ok := ApplyEntry(nest, es[i], levels(i));
      if !ok {
        StopsHere(v, es, left, i);
        return;
      }
      SamePlacesStep(places, before, nest.vectorPages, es, i);
    }
    assert es[..|es|] == es;
    ok := true;
  }

  datatype Recovered = Recovered | LogUnreadable | EntryFailed | LogPanics

  /** How opening ends, given what was read of the log. */
  ghost function OutcomeOfReading(read: ReadResult, v: map<Id, Vector>, left: int): Recovered {
    match read
    case ReadPanic => LogPanics
    case ReadError => LogUnreadable
    case Entries(es) => if AllApply(v, es, left) then Recovered.Recovered else EntryFailed
  }

  /** replayWAL: the entries that were read, if they could be read. */
  method ReplayRead(nest: Nest, read: ReadResult, levels: nat -> nat, ghost v: map<Id, Vector>, ghost left: int)
    returns (r: Recovered)
    requires nest.Sound() && nest.count < COUNT_LIMIT && forall i: nat :: levels(i) <= MAX_LEVEL
    requires nest.Indexed() == v && nest.storage.limit - |nest.storage.pages| == left
    modifies nest, nest.index`nodes, nest.index`entryPoint, nest.index`maxLevel, nest.storage
    ensures r == OutcomeOfReading(read, v, left)
    ensures r.Recovered? ==> nest.Sound() && read.Entries? && nest.Indexed() == Replay(v, read.entries)
    ensures r.Recovered? && old(nest.Paged()) ==> nest.Paged()
    ensures r.Recovered? ==> old(nest.storage.pages) <= nest.storage.pages
                             && SamePlaces(old(nest.vectorPages), nest.vectorPages, read.entries)
  {
    match read
    case ReadPanic => r := LogPanics;
    case ReadError => r := LogUnreadable;
    case Entries(es) =>
      var ok := ReplayAll(nest, es, levels, v, left);
      r := if ok then Recovered.Recovered else EntryFailed;
  }

  /** The number of the last entry cannot be found exactly if reading the log panics. */
  lemma PanicsAlike(env: Env, bytes: seq<byte>)
    ensures WalReader.LastSequenceOf(env, bytes).None? <==> ReadAllOf(env, bytes).ReadPanic?
  {
  }

  /** The log is opened, and read unless opening it panicked. */
  method OpenAndRead(env: Env, bytes: seq<byte>) returns (wal: WalLog.Wal, read: ReadResult)
    ensures fresh(wal) && wal.Valid() && wal.file == Some(bytes) && read == ReadAllOf(env, bytes)
  {
    wal := new WalLog.Wal(env);
    PanicsAlike(env, bytes);
    var ok := wal.Open(bytes);
    if !ok {
      return wal, ReadPanic;
    }
    read := ReadAll(env, bytes);
  }

  /** The count becomes that of the index. */
  method ResetCount(nest: Nest)
    requires nest.Sound()
    modifies nest`count
    ensures nest.Sound() && nest.count == |nest.Indexed()| && nest.Indexed() == old(nest.Indexed())
    ensures old(nest.Paged()) ==> nest.Ready()
  {
    SameSize(nest.index.nodes);
    nest.count := |nest.index.nodes|;
  }

  /** The log is emptied and the count reset. */
  method EmptyAndCount(nest: Nest, wal: WalLog.Wal)
    requires nest.Sound() && wal.Valid() && wal.file.Some? && wal != nest.wal
    modifies nest`count, wal
    ensures nest.Sound() && nest.count == |nest.Indexed()| && wal.file == Some([])
    ensures nest.Indexed() == old(nest.Indexed()) && (old(nest.Paged()) ==> nest.Ready())
  {
    var ok := wal.Truncate();
    ResetCount(nest);
  }

  /** Replays what was read; if that goes through, empties the log and sets the count. */
  method RecoverFrom(nest: Nest, wal: WalLog.Wal, read: ReadResult, levels: nat -> nat, ghost v: map<Id, Vector>,
                     ghost left: int)
    returns (r: Recovered)
    requires nest.Sound() && nest.count < COUNT_LIMIT && forall i: nat :: levels(i) <= MAX_LEVEL
    requires wal.Valid() && wal.file.Some? && wal != nest.wal
    requires nest.Indexed() == v && nest.storage.limit - |nest.storage.pages| == left
    modifies nest, nest.index`nodes, nest.index`entryPoint, nest.index`maxLevel, nest.storage, wal
    ensures r == OutcomeOfReading(read, v, left)
    ensures r.Recovered? ==> nest.Sound() && nest.count == |nest.Indexed()| && wal.file == Some([]) && read.Entries?
    ensures r.Recovered? && old(nest.Paged()) ==> nest.Ready()
    ensures r.Recovered? ==> nest.Indexed() == Replay(v, read.entries)
    ensures r.Recovered? ==> old(nest.storage.pages) <= nest.storage.pages
                             && SamePlaces(old(nest.vectorPages), nest.vectorPages, read.entries)
    ensures !r.Recovered? ==> wal.file == old(wal.file)
  {
    r := ReplayRead(nest, read, levels, v, left);
    if r.Recovered? {
      EmptyAndCount(nest, wal);
    }
  }

  /**
   * Opening, once the index has been loaded and holds v, with that many pages
   * left: the log is opened, read, replayed, and emptied, and then the count is
   * that of the index, whatever it was. If index and pages agreed they still do.
   */
  method Recover(nest: Nest, bytes: seq<byte>, levels: nat -> nat, ghost v: map<Id, Vector>, ghost left: int)
    returns (r: Recovered, log: seq<byte>, ghost read: ReadResult)
    requires nest.Sound() && nest.count < COUNT_LIMIT && forall i: nat :: levels(i) <= MAX_LEVEL
    requires nest.Indexed() == v && nest.storage.limit - |nest.storage.pages| == left
    modifies nest, nest.index`nodes, nest.index`entryPoint, nest.index`maxLevel, nest.storage
    ensures read == ReadAllOf(nest.env, bytes) && r == OutcomeOfReading(read, v, left)
    ensures r.Recovered? ==> nest.Sound() && nest.count == |nest.Indexed()| && log == []
    ensures r.Recovered? ==> read.Entries? && nest.Indexed() == Replay(v, read.entries)
    ensures r.Recovered? && old(nest.Paged()) ==> nest.Ready()
    ensures r.Recovered? ==> old(nest.storage.pages) <= nest.storage.pages
                             && SamePlaces(old(nest.vectorPages), nest.vectorPages, read.entries)
    ensures !r.Recovered? ==> log == bytes
  {
    var wal, found := OpenAndRead(nest.env, bytes);
    read := found;
    r := RecoverFrom(nest, wal, found, levels, v, left);
    log := wal.file.value;
  }

  ghost function Flushed(env: Env, ops: seq<WalLog.Op>): seq<Entry> {
    WalLog.Run(env, WalLog.Log([], [], 0), ops).flushed
  }

  /**
   * A crash at any moment of any run of the log, and however far an earlier
   * recovery of v got: opening never panics, finds the log unreadable exactly
   * if the cut follows a length, and otherwise recovers what the whole entries
   * give as long as their vectors find pages.
   */
  lemma OpeningAfterCrash(env: Env, ops: seq<WalLog.Op>, n: nat, v: map<Id, Vector>, done: nat, left: int)
    requires JsonOk(env) && WalLog.Proper(env, ops) && WalLog.Appends(ops) < WalLog.SEQ_LIMIT
    requires n <= |LogBytes(env, Flushed(env, ops))| && done <= WholeIn(env, Flushed(env, ops), n)
    ensures var es := Flushed(env, ops);
            var bytes, k, now := LogBytes(env, es)[..n], WholeIn(env, es, n), Replay(v, es[..done]);
            var r := OutcomeOfReading(ReadAllOf(env, bytes), now, left);
            && !r.LogPanics? && (r.LogUnreadable? <==> n == |LogBytes(env, es[..k])| + 4)
            && (r.Recovered? ==> ReadAllOf(env, bytes).Entries?
                                 && Replay(now, ReadAllOf(env, bytes).entries) == Replay(v, es[..k]))
  {
    CrashRecovery(env, ops, n, v, done);
  }
}
