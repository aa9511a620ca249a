/**
 * wal.go: the log as its users see it. Entries are numbered and sealed when
 * they are appended, written out in batches, and read back in order.
 */
module WalLog {
  import opened Base
  import opened LittleEndian
  import opened WalCodec
  import opened WalReader

  const BATCH := 100
  const SEQ_LIMIT := 0x1_0000_0000_0000_0000

  /** The numbered entry with the checksum of its own bytes as given. */
  function Stamp(env: Env, seqNo: nat, e: Entry): Entry {
    var numbered := e.(seqNo := seqNo);
    numbered.(checksum := env.crc(Encode(env, numbered)))
  }

  /**
   * Readers accept a stamped entry exactly if the caller's checksum field did not change the CRC,
   * as zero never does.
   */
  lemma StampSealedIff(env: Env, seqNo: nat, e: Entry)
    ensures var numbered := e.(seqNo := seqNo);
            Sealed(env, Stamp(env, seqNo, e)) <==>
            env.crc(Encode(env, numbered)) == env.crc(Encode(env, numbered.(checksum := 0)))
    ensures e.checksum == 0 ==> Sealed(env, Stamp(env, seqNo, e))
  {
    var numbered := e.(seqNo := seqNo);
    assert Stamp(env, seqNo, e).(checksum := 0) == numbered.(checksum := 0);
    assert e.checksum == 0 ==> numbered.(checksum := 0) == numbered;
  }

  /** The state of an open log: what its file holds, what is still buffered, the last number given out. */
  datatype Log = Log(flushed: seq<Entry>, buffer: seq<Entry>, last: nat)

  datatype Op = OpAppend(entry: Entry) | OpFlush | OpTruncate

  function Flushed(l: Log): Log {
    Log(l.flushed + l.buffer, [], l.last)
  }

  /** One more entry, and a flush if that fills a batch. */
  function Buffered(l: Log, e: Entry, last: nat): Log {
    var next := Log(l.flushed, l.buffer + [e], last);
    if |next.buffer| >= BATCH then Flushed(next) else next
  }

  function Step(env: Env, l: Log, op: Op): Log {
    match op
    case OpAppend(e) =>
      var last := (l.last + 1) % SEQ_LIMIT;
      Buffered(l, Stamp(env, last, e), last)
    case OpFlush => Flushed(l)
    case OpTruncate => Log([], [], l.last)
  }

  function Run(env: Env, l: Log, ops: seq<Op>): Log {
    if ops == [] then l else Step(env, Run(env, l, ops[..|ops| - 1]), ops[|ops| - 1])
  }

  /** The entries appended since the last truncation. */
  function Pending(ops: seq<Op>): seq<Entry> {
    if ops == [] then []
    else
      var before := Pending(ops[..|ops| - 1]);
      match ops[|ops| - 1]
      case OpAppend(e) => before + [e]
      case OpFlush => before
      case OpTruncate => []
  }

  function Appends(ops: seq<Op>): nat {
    if ops == [] then 0 else Appends(ops[..|ops| - 1]) + if ops[|ops| - 1].OpAppend? then 1 else 0
  }

  /** The entries given, numbered upwards to last and made into entries of the log. */
  function Numbered(make: (nat, Entry) -> Entry, es: seq<Entry>, last: nat): (r: seq<Entry>)
    requires |es| <= last
    ensures |r| == |es|
  {
    if es == [] then [] else Numbered(make, es[..|es| - 1], last - 1) + [make(last, es[|es| - 1])]
  }

  lemma {:induction false} NumberedAt(make: (nat, Entry) -> Entry, es: seq<Entry>, last: nat, i: nat)
    requires i < |es| <= last
    ensures Numbered(make, es, last)[i] == make(last - |es| + 1 + i, es[i])
  {
    if i < |es| - 1 { NumberedAt(make, es[..|es| - 1], last - 1, i); }
  }

  lemma NumberedSnoc(make: (nat, Entry) -> Entry, es: seq<Entry>, e: Entry, last: nat)
    requires |es| <= last
    ensures Numbered(make, es + [e], last + 1) == Numbered(make, es, last) + [make(last + 1, e)]
  {
    assert (es + [e])[..|es|] == es;
  }

  function Stamper(env: Env): (nat, Entry) -> Entry {
    (n: nat, e: Entry) => Stamp(env, n, e)
  }

  function Stamps(env: Env, es: seq<Entry>, last: nat): (r: seq<Entry>)
    requires |es| <= last
    ensures |r| == |es|
  {
    Numbered(Stamper(env), es, last)
  }

  lemma StampsAt(env: Env, es: seq<Entry>, last: nat, i: nat)
    requires i < |es| <= last
    ensures Stamps(env, es, last)[i] == Stamp(env, last - |es| + 1 + i, es[i])
  {
    NumberedAt(Stamper(env), es, last, i);
  }

  /**
   * A new log keeps every entry appended since the last truncation, once and
   * in order, numbered one by one without a gap, and fewer than a batch of
   * them are still to be written.
   */
  lemma {:induction false} RunKeeps(env: Env, ops: seq<Op>)
    requires Appends(ops) < SEQ_LIMIT
    ensures Keeps(env, Run(env, Log([], [], 0), ops), Pending(ops), Appends(ops))
  {
    if ops == [] {
      assert Stamps(env, [], 0) == [];
    } else {
      var n := |ops| - 1;
      RunKeeps(env, ops[..n]);
      var l := Run(env, Log([], [], 0), ops[..n]);
      match ops[n]
      case OpAppend(e) => KeepsAppend(env, l, Pending(ops[..n]), Appends(ops[..n]), e);
      case OpFlush => KeepsOther(env, l, Pending(ops[..n]), Appends(ops[..n]));
      case OpTruncate => KeepsOther(env, l, Pending(ops[..n]), Appends(ops[..n]));
    }
  }

  lemma StampsSnoc(env: Env, es: seq<Entry>, e: Entry, last: nat)
    requires |es| <= last
    ensures Stamps(env, es + [e], last + 1) == Stamps(env, es, last) + [Stamp(env, last + 1, e)]
  {
    NumberedSnoc(Stamper(env), es, e, last);
  }

  /** What holds of a log after n appends, of which es came after the last truncation. */
  ghost predicate Keeps(env: Env, l: Log, es: seq<Entry>, n: nat) {
    && l.last == n && |l.buffer| < BATCH && |es| <= l.last
    && l.flushed + l.buffer == Stamps(env, es, l.last)
  }

  lemma KeepsAppend(env: Env, l: Log, es: seq<Entry>, n: nat, e: Entry)
    requires Keeps(env, l, es, n) && n + 1 < SEQ_LIMIT
    ensures Keeps(env, Step(env, l, OpAppend(e)), es + [e], n + 1)
  {
    StepAppends(env, l, e);
    BufferedAtEnd(l, Stamp(env, n + 1, e), n + 1);
    KeepsNext(env, l, Step(env, l, OpAppend(e)), es, n, e);
  }

  lemma KeepsNext(env: Env, l: Log, next: Log, es: seq<Entry>, n: nat, e: Entry)
    requires Keeps(env, l, es, n) && next.last == n + 1 && |next.buffer| < BATCH
    requires next.flushed + next.buffer == l.flushed + l.buffer + [Stamp(env, n + 1, e)]
    ensures Keeps(env, next, es + [e], n + 1)
  {
    StampsSnoc(env, es, e, n);
  }

  lemma StepAppends(env: Env, l: Log, e: Entry)
    requires l.last + 1 < SEQ_LIMIT
    ensures Step(env, l, OpAppend(e)) == Buffered(l, Stamp(env, l.last + 1, e), l.last + 1)
  {
    assert (l.last + 1) % SEQ_LIMIT == l.last + 1;
  }

  lemma BufferedAtEnd(l: Log, e: Entry, last: nat)
    requires |l.buffer| < BATCH
    ensures var next := Buffered(l, e, last);
            next.last == last && |next.buffer| < BATCH && next.flushed + next.buffer == l.flushed + l.buffer + [e]
  {
    var all := l.flushed + (l.buffer + [e]);
    assert all == l.flushed + l.buffer + [e];
    assert all + [] == all;
  }

  lemma KeepsOther(env: Env, l: Log, es: seq<Entry>, n: nat)
    requires Keeps(env, l, es, n)
    ensures Keeps(env, Step(env, l, OpFlush), es, n) && Keeps(env, Step(env, l, OpTruncate), [], n)
  {
    assert l.flushed + l.buffer + [] == l.flushed + l.buffer;
    assert Stamps(env, [], n) == [];
  }

  /** Numbers increase one by one along the log. */
  lemma NumbersIncrease(env: Env, ops: seq<Op>, i: nat, j: nat)
    requires Appends(ops) < SEQ_LIMIT
    requires var l := Run(env, Log([], [], 0), ops); i < j < |l.flushed + l.buffer|
    ensures var es := Run(env, Log([], [], 0), ops).flushed + Run(env, Log([], [], 0), ops).buffer;
            es[i].seqNo + (j - i) == es[j].seqNo <= Appends(ops)
  {
    RunKeeps(env, ops);
    StampNumber(env, Pending(ops), Appends(ops), i);
    StampNumber(env, Pending(ops), Appends(ops), j);
  }

  lemma StampNumber(env: Env, es: seq<Entry>, last: nat, i: nat)
    requires i < |es| <= last
    ensures Stamps(env, es, last)[i].seqNo == last - |es| + 1 + i
  {
    StampsAt(env, es, last, i);
  }

  /** A number that was read is one of eight bytes. */
  lemma {:induction false} ScanBound(env: Env, s: seq<byte>)
    ensures forall e :: e in Scan(env, s).0 ==> e.seqNo < SEQ_LIMIT
    decreases |s|
  {
    if Next(env, s).Whole? {
      NextBound(env, s);
      ScanBound(env, Next(env, s).rest);
    }
  }

  lemma NextBound(env: Env, s: seq<byte>)
    requires Next(env, s).Whole?
    ensures Next(env, s).entry.seqNo < SEQ_LIMIT && |Next(env, s).rest| < |s|
  {
    Widths();
    Bound(NextData(s).value[..8]);
  }

  lemma LastBound(env: Env, s: seq<byte>)
    ensures LastSequenceOf(env, s).Some? ==> LastSequenceOf(env, s).value < SEQ_LIMIT
  {
    ScanBound(env, s);
  }

  class Wal {
    const env: Env
    var file: Option<seq<byte>>
    var buffer: seq<Entry>
    var last: nat
    /** What was in the file when it was opened, and the entries written behind it. */
    ghost var base: seq<byte>
    ghost var flushed: seq<Entry>

    ghost predicate Valid()
      reads this
    {
      && last < SEQ_LIMIT && |buffer| < BATCH
      && (file.Some? ==> file.value == base + LogBytes(env, flushed))
    }

    ghost function Abs(): Log
      reads this
    {
      Log(flushed, buffer, last)
    }

    constructor (env: Env)
      ensures Valid() && this.env == env && file.None? && buffer == [] && last == 0
    {
      this.env, file, buffer, last := env, None, [], 0;
    }

    /**
     * Numbering resumes after the last entry that can be read; the file may be torn. False is a panic
     * on a damaged entry.
     */
    method Open(bytes: seq<byte>) returns (ok: bool)
      requires Valid() && file.None?
      modifies this
      ensures Valid() && ok == LastSequenceOf(env, bytes).Some?
      ensures file == Some(bytes) && base == bytes && flushed == [] && buffer == old(buffer)
      ensures ok ==> last == LastSequenceOf(env, bytes).value
    {
      file, base, flushed := Some(bytes), bytes, [];
      assert bytes + LogBytes(env, []) == bytes;
      LastBound(env, bytes);
      var r := ReadLastSequence(env, bytes);
      ok := r.Some?;
      if ok {
        last := r.value;
      }
    }

    method Append(entry: Entry) returns (ok: bool)
      requires Valid()
      modifies this
      ensures Valid() && ok == old(file.Some?) && file.Some? == ok && base == old(base)
      ensures Abs() == if ok then Step(env, old(Abs()), OpAppend(entry)) else old(Abs())
    {
      if file.None? {
        return false;
      }
      ghost var before := Abs();
      var e := Number(entry);
      Enqueue(e);
      assert Step(env, before, OpAppend(entry)) == Buffered(before, e, last);
      ok := true;
    }

    method Enqueue(e: Entry)
      requires Valid() && file.Some?
      modifies this
      ensures Valid() && file.Some? && base == old(base)
      ensures Abs() == Buffered(old(Abs()), e, old(last))
    {
      buffer := buffer + [e];
      if |buffer| >= BATCH {
        WriteBatch();
      }
    }

    /** The next number, and the checksum of the entry that carries it. */
    method Number(entry: Entry) returns (e: Entry)
      modifies this`last
      ensures last == (old(last) + 1) % SEQ_LIMIT && e == Stamp(env, last, entry)
    {
      last := (last + 1) % SEQ_LIMIT;
      e := entry.(seqNo := last);
      var data := SerializeEntry(env, e);
      e := e.(checksum := env.crc(data));
    }

    method Flush()
      requires Valid()
      modifies this
      ensures Valid() && file.Some? == old(file.Some?) && base == old(base)
      ensures Abs() == if file.Some? then Flushed(old(Abs())) else old(Abs())
    {
      if file.None? || |buffer| == 0 {
        assert flushed + [] == flushed;
        return;
      }
      WriteBatch();
    }

    /** The rest of flushLocked: all buffered entries in one write. */
    method WriteBatch()
      requires file.Some? && file.value == base + LogBytes(env, flushed)
      modifies this
      ensures file == Some(old(file.value) + LogBytes(env, old(buffer))) && buffer == [] && last == old(last)
      ensures base == old(base) && flushed == old(flushed) + old(buffer)
      ensures file.value == base + LogBytes(env, flushed)
    {
      var batch: seq<byte> := [];
      for i := 0 to |buffer|
        invariant buffer == old(buffer) && file == old(file) && last == old(last)
        invariant base == old(base) && flushed == old(flushed)
        invariant batch == LogBytes(env, buffer[..i])
      {
        var data := SerializeEntry(env, buffer[i]);
        BatchStep(env, buffer, i);
        batch := batch + LE(|data|, 4);
        batch := batch + data;
      }
      assert buffer[..|buffer|] == buffer;
      FileCat(env, base, flushed, buffer);
      file, flushed := Some(file.value + batch), flushed + buffer;
      buffer := [];
    }

    method Truncate() returns (ok: bool)
      requires Valid()
      modifies this
      ensures Valid() && ok == old(file.Some?)
      ensures ok ==> file == Some([]) && base == [] && Abs() == Log([], [], old(last))
      ensures !ok ==> file == old(file) && base == old(base) && Abs() == old(Abs())
    {
      if file.None? {
        return false;
      }
      file, buffer, base, flushed := Some([]), [], [], [];
      assert [] + LogBytes(env, []) == [];
      ok := true;
    }

    method Close() returns (bytes: Option<seq<byte>>)
      requires Valid()
      modifies this
      ensures Valid() && file.None? && Abs() == if old(file.Some?) then Flushed(old(Abs())) else old(Abs())
      ensures bytes == if old(file.Some?) then Some(old(base) + LogBytes(env, old(flushed + buffer))) else None
    {
      Flush();
      bytes := file;
      file := None;
    }
  }

  lemma BatchStep(env: Env, es: seq<Entry>, i: nat)
    requires i < |es|
    ensures LogBytes(env, es[..i + 1]) == LogBytes(env, es[..i]) + LE(|Encode(env, es[i])|, 4) + Encode(env, es[i])
  {
    assert es[..i + 1] == es[..i] + [es[i]];
    LogBytesCat(env, es[..i], [es[i]]);
    assert [es[i]][1..] == [];
    assert LogBytes(env, [es[i]]) == Frame(env, es[i]);
  }

  function BaseAfter(base: seq<byte>, op: Op): seq<byte> {
    if op.OpTruncate? then [] else base
  }

  lemma FileCat(env: Env, base: seq<byte>, a: seq<Entry>, b: seq<Entry>)
    ensures base + LogBytes(env, a) + LogBytes(env, b) == base + LogBytes(env, a + b)
  {
    LogBytesCat(env, a, b);
    CatAssoc(base, LogBytes(env, a), LogBytes(env, b));
  }

  method Do(wal: Wal, op: Op)
    requires wal.Valid() && wal.file.Some?
    modifies wal
    ensures wal.Valid() && wal.file.Some?
    ensures wal.Abs() == Step(wal.env, old(wal.Abs()), op) && wal.base == BaseAfter(old(wal.base), op)
  {
    var ok;
    match op
    case OpAppend(e) => ok := wal.Append(e);
    case OpFlush => wal.Flush();
    case OpTruncate => ok := wal.Truncate();
  }

  /** The bytes of the file that are older than the run: none once it has been truncated. */
  function BaseOf(base: seq<byte>, ops: seq<Op>): seq<byte> {
    if ops == [] then base else BaseAfter(BaseOf(base, ops[..|ops| - 1]), ops[|ops| - 1])
  }

  /**
   * Any run on a file opened with any bytes, torn or not, and a reader at its
   * end; None is the panic of opening.
   */
  method RunAndRead(env: Env, bytes: seq<byte>, ops: seq<Op>) returns (r: Option<ReadResult>)
    ensures r.None? <==> LastSequenceOf(env, bytes).None?
    ensures r.Some? ==>
              var l := Run(env, Log([], [], LastSequenceOf(env, bytes).value), ops);
              r.value == ReadAllOf(env, BaseOf(bytes, ops) + LogBytes(env, l.flushed))
  {
    var wal := new Wal(env);
    var ok := wal.Open(bytes);
    if !ok {
      return None;
    }
    ghost var start := Log([], [], wal.last);
    for i := 0 to |ops|
      invariant wal.env == env && fresh(wal) && wal.Valid() && wal.file.Some?
      invariant wal.Abs() == Run(env, start, ops[..i]) && wal.base == BaseOf(bytes, ops[..i])
    {
      assert ops[..i + 1][..i] == ops[..i];
      Do(wal, ops[i]);
    }
    assert ops[..|ops|] == ops;
    var read := ReadAll(env, wal.file.value);
    r := Some(read);
  }

  ghost predicate Proper(env: Env, ops: seq<Op>) {
    forall op :: op in ops && op.OpAppend? ==>
      op.entry.checksum == 0 && |Encode(env, op.entry)| <= MAX_ENTRY
  }

  lemma {:induction false} PendingProper(env: Env, ops: seq<Op>)
    requires Proper(env, ops)
    ensures forall e :: e in Pending(ops) ==> e.checksum == 0 && |Encode(env, e)| <= MAX_ENTRY
  {
    if ops != [] {
      assert Proper(env, ops[..|ops| - 1]);
      PendingProper(env, ops[..|ops| - 1]);
    }
  }

  lemma StampReadable(env: Env, e: Entry, seqNo: nat)
    requires e.checksum == 0 && |Encode(env, e)| <= MAX_ENTRY && seqNo < SEQ_LIMIT
    ensures Readable(env, Stamp(env, seqNo, e))
  {
    StampSealedIff(env, seqNo, e);
  }

  /** Proper entries are readable once stamped. */
  lemma StampsReadable(env: Env, es: seq<Entry>, last: nat)
    requires |es| <= last < SEQ_LIMIT && forall e :: e in es ==> e.checksum == 0 && |Encode(env, e)| <= MAX_ENTRY
    ensures AllReadable(env, Stamps(env, es, last))
  {
    forall i | 0 <= i < |es| ensures Readable(env, Stamps(env, es, last)[i]) {
      StampsAt(env, es, last, i);
      StampReadable(env, es[i], last - |es| + 1 + i);
    }
  }

  /**
   * Log fidelity: reading gives exactly the flushed entries, which with the
   * buffered ones are what was appended since the last truncation.
   */
  lemma Fidelity(env: Env, ops: seq<Op>)
    requires JsonOk(env) && Proper(env, ops) && Appends(ops) < SEQ_LIMIT
    ensures var l := Run(env, Log([], [], 0), ops);
            && ReadAllOf(env, LogBytes(env, l.flushed)) == Entries(l.flushed)
            && Keeps(env, l, Pending(ops), Appends(ops))
  {
    var l := Run(env, Log([], [], 0), ops);
    FlushedReadable(env, ops);
    ReadWhole(env, l.flushed);
    RunKeeps(env, ops);
  }

  lemma FlushedReadable(env: Env, ops: seq<Op>)
    requires Proper(env, ops) && Appends(ops) < SEQ_LIMIT
    ensures AllReadable(env, Run(env, Log([], [], 0), ops).flushed)
  {
    var l := Run(env, Log([], [], 0), ops);
    RunKeeps(env, ops);
    PendingProper(env, ops);
    StampsReadable(env, Pending(ops), l.last);
    forall e | e in l.flushed ensures Readable(env, e) { assert e in l.flushed + l.buffer; }
  }

  lemma ReadWhole(env: Env, es: seq<Entry>)
    requires JsonOk(env) && AllReadable(env, es)
    ensures ReadAllOf(env, LogBytes(env, es)) == Entries(es)
  {
    assert AllSealed(env, es);
    ReadBackIff(env, es);
    ScanAll(env, es);
  }

  /**
   * A crash that leaves any byte prefix of the file: both readers find its
   * whole entries, but reading fails if the cut is right after a length.
   */
  lemma Torn(env: Env, ops: seq<Op>, n: nat)
    requires JsonOk(env) && Proper(env, ops) && Appends(ops) < SEQ_LIMIT
    requires n <= |LogBytes(env, Run(env, Log([], [], 0), ops).flushed)|
    ensures var es := Run(env, Log([], [], 0), ops).flushed;
            var k := WholeIn(env, es, n);
            && LastSequenceOf(env, LogBytes(env, es)[..n]) == Some(LastOf(es[..k]))
            && ReadAllOf(env, LogBytes(env, es)[..n]) ==
               if n == |LogBytes(env, es[..k])| + 4 then ReadError else Entries(es[..k])
  {
    FlushedReadable(env, ops);
    ScanPrefix(env, Run(env, Log([], [], 0), ops).flushed, n);
  }

  lemma LastFlushed(env: Env, l: Log, es: seq<Entry>, n: nat)
    requires Keeps(env, l, es, n)
    ensures LastOf(l.flushed) == n <==> n == 0 || (es != [] && l.buffer == [])
  {
    var all := l.flushed + l.buffer;
    if l.flushed != [] {
      var i := |l.flushed| - 1;
      assert all[i] == l.flushed[i];
      StampNumber(env, es, n, i);
    }
  }

  /**
   * Reopening: numbering resumes where it stopped exactly if nothing was lost
   * in the buffer and something was written since the last truncation; after a
   * truncation alone it starts again from 1.
   */
  lemma ReopenResumesIff(env: Env, ops: seq<Op>)
    requires JsonOk(env) && Proper(env, ops) && Appends(ops) < SEQ_LIMIT
    ensures var l := Run(env, Log([], [], 0), ops);
            LastSequenceOf(env, LogBytes(env, l.flushed)) == Some(Appends(ops)) <==>
            Appends(ops) == 0 || (Pending(ops) != [] && l.buffer == [])
  {
    var l := Run(env, Log([], [], 0), ops);
    FlushedReadable(env, ops);
    assert AllSealed(env, l.flushed);
    ReadBackIff(env, l.flushed);
    ScanAll(env, l.flushed);
    RunKeeps(env, ops);
    LastFlushed(env, l, Pending(ops), Appends(ops));
  }

  /**
   * A log of whole entries with anything behind it: opening it panics exactly
   * if what follows the last entry that can be read is an entry of readable
   * length in which the ID, the vector or the metadata runs past the end or
   * leaves no room for the next field.
   */
  lemma OpeningPanicsIff(env: Env, es: seq<Entry>, rest: seq<byte>)
    requires JsonOk(env) && AllReadable(env, es)
    ensures var file := LogBytes(env, es) + rest;
            && (LastSequenceOf(env, file) == None <==> BadEntry(env, Left(env, rest)))
            && (ReadAllOf(env, file) == ReadPanic <==> BadEntry(env, Left(env, rest)))
  {
    ReadersPanicIff(env, LogBytes(env, es) + rest);
    LeftBehind(env, es, rest);
  }

  /** An ID length that runs past its entry makes both readers panic, not stop. */
  lemma OverlongIdPanics(env: Env, data: seq<byte>, rest: seq<byte>)
    requires 25 <= |data| <= MAX_ENTRY && U32(data[9..13]) > |data| - 13
    ensures LastSequenceOf(env, Block(|data|, data) + rest) == None
    ensures ReadAllOf(env, Block(|data|, data) + rest) == ReadPanic
  {
    var s := Block(|data|, data) + rest;
    assert s[..4] == LE(|data|, 4);
    U32RoundTrip(|data|);
    assert s[4..4 + |data|] == data;
    TakeBlockAt(data, 9, 1);
    ScanEnd(env, s, Crash);
  }

  /** A cut log is its whole entries and, behind them, the beginning of the next one. */
  lemma {:induction false} CutAt(env: Env, es: seq<Entry>, n: nat) returns (tail: seq<byte>)
    requires n <= |LogBytes(env, es)|
    ensures var k := WholeIn(env, es, n);
            && LogBytes(env, es)[..n] == LogBytes(env, es[..k]) + tail
            && (k < |es| ==> |tail| < |Frame(env, es[k])| && tail == Frame(env, es[k])[..|tail|])
            && (k == |es| ==> tail == [])
  {
    if es == [] {
      tail := [];
    } else {
      CutLog(env, es, n);
      var f := Frame(env, es[0]);
      if n < |f| {
        tail := f[..n];
        assert es[..0] == [] && [] + tail == tail;
      } else {
        tail := CutAt(env, es[1..], n - |f|);
        CutOn(env, es, WholeIn(env, es[1..], n - |f|), tail);
      }
    }
  }

  lemma CutOn(env: Env, es: seq<Entry>, k: nat, tail: seq<byte>)
    requires k < |es|
    ensures LogBytes(env, es[..k + 1]) + tail == Frame(env, es[0]) + (LogBytes(env, es[1..][..k]) + tail)
  {
    assert es[..k + 1][1..] == es[1..][..k];
    CatAssoc(Frame(env, es[0]), LogBytes(env, es[1..][..k]), tail);
  }

  /**
   * A log that was torn at byte n and reopened without being truncated: its
   * whole entries are still read, and then what a reader makes of the torn
   * rest with the new entries behind it. If nothing was torn these are the
   * new entries; otherwise any of them come back exactly if the rest and the
   * first of the new bytes happen to form a sealed entry, and if the rest has
   * its length they stay hidden until that length is filled up.
   */
  lemma ReopenedTorn(env: Env, es: seq<Entry>, n: nat, more: seq<Entry>) returns (tail: seq<byte>)
    requires JsonOk(env) && AllReadable(env, es) && AllReadable(env, more) && n <= |LogBytes(env, es)|
    ensures var k := WholeIn(env, es, n);
            var file := LogBytes(env, es)[..n] + LogBytes(env, more);
            && LogBytes(env, es)[..n] == LogBytes(env, es[..k]) + tail
            && Scan(env, file) == (es[..k] + Scan(env, tail + LogBytes(env, more)).0,
                                   Scan(env, tail + LogBytes(env, more)).1)
            && (tail == [] ==> ReadAllOf(env, file) == Entries(es[..k] + more))
            && (tail != [] ==>
                (|Scan(env, file).0| > k <==> Next(env, tail + LogBytes(env, more)).Whole?))
            && (k < |es| && |tail| >= 4 && |tail| + |LogBytes(env, more)| < |Frame(env, es[k])| ==>
                Scan(env, file).0 == es[..k])
  {
    tail := CutAt(env, es, n);
    var k, new' := WholeIn(env, es, n), LogBytes(env, more);
    CatAssoc(LogBytes(env, es[..k]), tail, new');
    ScanOn(env, es[..k], tail + new');
    if tail == [] {
      assert tail + new' == new' && es[..k] + more == es[..k] + Scan(env, new').0 by { ReadWhole(env, more); }
      ReadWhole(env, more);
    }
    if k < |es| && |tail| >= 4 && |tail| + |new'| < |Frame(env, es[k])| {
      assert es[k] in es;
      TailHides(env, es[k], |tail|, new');
      assert es[..k] + [] == es[..k];
    }
  }

  predicate AppendsOnly(ops: seq<Op>) {
    forall op :: op in ops ==> op.OpAppend?
  }

  /** Without a flush only full batches are in the file. */
  lemma {:induction false} OnlyBatches(env: Env, ops: seq<Op>)
    requires AppendsOnly(ops)
    ensures var l := Run(env, Log([], [], 0), ops);
            |l.buffer| == |ops| % BATCH && |l.flushed| == |ops| - |ops| % BATCH
  {
    if ops != [] {
      var n := |ops| - 1;
      OnlyBatches(env, ops[..n]);
      assert ops[n] in ops;
      CountBuffered(Run(env, Log([], [], 0), ops[..n]), Run(env, Log([], [], 0), ops), n);
    }
  }

  lemma CountBuffered(l: Log, next: Log, n: nat)
    requires |l.buffer| == n % BATCH && |l.flushed| == n - n % BATCH
    requires if |l.buffer| + 1 >= BATCH then next.buffer == [] && |next.flushed| == |l.flushed| + |l.buffer| + 1
             else |next.buffer| == |l.buffer| + 1 && next.flushed == l.flushed
    ensures |next.buffer| == (n + 1) % BATCH && |next.flushed| == n + 1 - (n + 1) % BATCH
  {
  }
}
