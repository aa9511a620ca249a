/**
 * wal.go: reading a log file back, whole or torn.
 */
module WalReader {
  import opened Base
  import opened LittleEndian
  import opened WalCodec

  const MAX_ENTRY := 10 * 1024 * 1024

  /** Why a scan ends: nothing more to read, nothing after a length, a bad entry, or a panic. */
  datatype Stop = AtEnd | NoData | Bad | Crash

  datatype Item = Whole(entry: Entry, rest: seq<byte>) | End(stop: Stop)

  /** The checksum is that of the entry with a zero checksum field. */
  predicate Sealed(env: Env, e: Entry) {
    e.checksum == env.crc(Encode(env, e.(checksum := 0)))
  }

  function Frame(env: Env, e: Entry): seq<byte> {
    Block(|Encode(env, e)|, Encode(env, e))
  }

  function LogBytes(env: Env, es: seq<Entry>): seq<byte> {
    if es == [] then [] else Frame(env, es[0]) + LogBytes(env, es[1..])
  }

  /** The next length and the data it announces. */
  function NextData(s: seq<byte>): Option<seq<byte>> {
    if |s| < 4 then None
    else
      var n := U32(s[..4]);
      if n == 0 || n > MAX_ENTRY || |s| < 4 + n then None else Some(s[4..4 + n])
  }

  function Next(env: Env, s: seq<byte>): Item {
    match NextData(s)
    case None => End(if |s| == 4 && 0 < U32(s) <= MAX_ENTRY then NoData else AtEnd)
    case Some(data) =>
      match Decode(env, data)
      case Panic => End(Crash)
      case Rejected => End(Bad)
      case Ok(e) => if Sealed(env, e) then Whole(e, s[4 + |data|..]) else End(Bad)
  }

  /** The entries before the first stop, and the stop. */
  function Scan(env: Env, s: seq<byte>): (seq<Entry>, Stop)
    decreases |s|
  {
    match Next(env, s)
    case End(stop) => ([], stop)
    case Whole(e, rest) =>
      var (es, stop) := Scan(env, rest);
      ([e] + es, stop)
  }

  lemma NextWhole(env: Env, e: Entry, rest: seq<byte>)
    requires JsonOk(env) && Fits(env, e) && Sealed(env, e) && |Encode(env, e)| <= MAX_ENTRY
    ensures Next(env, Frame(env, e) + rest) == Whole(e, rest)
  {
    var data := Encode(env, e);
    var s := Frame(env, e) + rest;
    assert s[..4] == LE(|data|, 4);
    U32RoundTrip(|data|);
    assert s[4..4 + |data|] == data && s[4 + |data|..] == rest;
    DecodeUndoes(env, e);
  }

  /** A frame cut short ends the scan; cut right after its length it leaves nothing to read. */
  lemma NextTorn(env: Env, e: Entry, n: nat)
    requires Fits(env, e) && |Encode(env, e)| <= MAX_ENTRY && n < |Frame(env, e)|
    ensures Next(env, Frame(env, e)[..n]) == End(if n == 4 then NoData else AtEnd)
  {
    var data := Encode(env, e);
    var s := Frame(env, e)[..n];
    if n >= 4 {
      assert s[..4] == LE(|data|, 4);
      U32RoundTrip(|data|);
      assert n == 4 ==> s == s[..4];
    }
  }

  /** An entry over the limit ends the scan, whatever follows. */
  lemma NextOversize(env: Env, e: Entry, rest: seq<byte>)
    requires Fits(env, e) && |Encode(env, e)| > MAX_ENTRY
    ensures Next(env, Frame(env, e) + rest) == End(AtEnd)
  {
    var data := Encode(env, e);
    var s := Frame(env, e) + rest;
    assert s[..4] == LE(|data|, 4);
    U32RoundTrip(|data|);
  }

  ghost predicate Readable(env: Env, e: Entry) {
    Fits(env, e) && Sealed(env, e) && |Encode(env, e)| <= MAX_ENTRY
  }

  lemma ScanWhole(env: Env, s: seq<byte>, e: Entry, rest: seq<byte>)
    requires Next(env, s) == Whole(e, rest)
    ensures Scan(env, s) == ([e] + Scan(env, rest).0, Scan(env, rest).1)
  {
  }

  lemma ScanEnd(env: Env, s: seq<byte>, stop: Stop)
    requires Next(env, s) == End(stop)
    ensures Scan(env, s) == ([], stop)
  {
  }

  lemma ScanEmpty(env: Env)
    ensures Scan(env, []) == ([], AtEnd)
  {
    ScanEnd(env, [], AtEnd);
  }

  lemma ScanFrame(env: Env, e: Entry, rest: seq<byte>)
    requires JsonOk(env) && Readable(env, e)
    ensures Scan(env, Frame(env, e) + rest) == ([e] + Scan(env, rest).0, Scan(env, rest).1)
  {
    NextWhole(env, e, rest);
    ScanWhole(env, Frame(env, e) + rest, e, rest);
  }

  lemma ScanTorn(env: Env, e: Entry, n: nat)
    requires Readable(env, e) && n < |Frame(env, e)|
    ensures Scan(env, Frame(env, e)[..n]) == ([], if n == 4 then NoData else AtEnd)
  {
    NextTorn(env, e, n);
    ScanEnd(env, Frame(env, e)[..n], if n == 4 then NoData else AtEnd);
  }

  lemma ScanOversize(env: Env, e: Entry, rest: seq<byte>)
    requires Fits(env, e) && |Encode(env, e)| > MAX_ENTRY
    ensures Scan(env, Frame(env, e) + rest) == ([], AtEnd)
  {
    NextOversize(env, e, rest);
    ScanEnd(env, Frame(env, e) + rest, AtEnd);
  }

  /** How many whole entries the first n bytes hold. */
  function WholeIn(env: Env, es: seq<Entry>, n: nat): (k: nat)
    ensures k <= |es|
  {
    if es == [] || n < |Frame(env, es[0])| then 0 else 1 + WholeIn(env, es[1..], n - |Frame(env, es[0])|)
  }

  /** How many entries precede the first one over the limit. */
  function BeforeOversize(env: Env, es: seq<Entry>): (k: nat)
    ensures k <= |es|
    ensures k == |es| <==> forall e :: e in es ==> |Encode(env, e)| <= MAX_ENTRY
  {
    if es == [] then 0
    else if |Encode(env, es[0])| > MAX_ENTRY then 0
    else
      assert forall e :: e in es <==> e == es[0] || e in es[1..];
      1 + BeforeOversize(env, es[1..])
  }

  /** What a scan finds in the first n bytes of a log. */
  function ScanOfPrefix(env: Env, es: seq<Entry>, n: nat): (seq<Entry>, Stop) {
    var k := WholeIn(env, es, n);
    (es[..k], if n == |LogBytes(env, es[..k])| + 4 then NoData else AtEnd)
  }

  lemma PrefixUnfold(env: Env, es: seq<Entry>, n: nat)
    requires es != [] && |Frame(env, es[0])| <= n
    ensures var inner := ScanOfPrefix(env, es[1..], n - |Frame(env, es[0])|);
            ScanOfPrefix(env, es, n) == ([es[0]] + inner.0, inner.1)
  {
    var k := WholeIn(env, es[1..], n - |Frame(env, es[0])|);
    assert es[..k + 1] == [es[0]] + es[1..][..k] && es[..k + 1][1..] == es[1..][..k];
  }

  lemma PrefixOfCat(f: seq<byte>, r: seq<byte>, n: nat)
    requires n <= |f| + |r|
    ensures n < |f| ==> (f + r)[..n] == f[..n]
    ensures n >= |f| ==> (f + r)[..n] == f + r[..n - |f|]
  {
  }

  ghost predicate AllReadable(env: Env, es: seq<Entry>) {
    forall e :: e in es ==> Readable(env, e)
  }

  lemma AllReadableTail(env: Env, es: seq<Entry>)
    requires AllReadable(env, es) && es != []
    ensures Readable(env, es[0]) && AllReadable(env, es[1..])
  {
  }

  lemma PrefixTorn(env: Env, es: seq<Entry>, n: nat)
    requires es != [] && Readable(env, es[0]) && n < |Frame(env, es[0])|
    ensures Scan(env, LogBytes(env, es)[..n]) == ScanOfPrefix(env, es, n)
  {
    CutLog(env, es, n);
    ScanTorn(env, es[0], n);
    NoneWhole(env, es, n);
  }

  /** A cut log starts with the first frame, or with part of it. */
  lemma CutLog(env: Env, es: seq<Entry>, n: nat)
    requires es != [] && n <= |LogBytes(env, es)|
    ensures var f := |Frame(env, es[0])|;
            LogBytes(env, es)[..n] == if n < f then Frame(env, es[0])[..n]
                                      else Frame(env, es[0]) + LogBytes(env, es[1..])[..n - f]
  {
    PrefixOfCat(Frame(env, es[0]), LogBytes(env, es[1..]), n);
  }

  lemma NoneWhole(env: Env, es: seq<Entry>, n: nat)
    requires es != [] && n < |Frame(env, es[0])|
    ensures ScanOfPrefix(env, es, n) == ([], if n == 4 then NoData else AtEnd)
  {
    assert es[..0] == [];
  }

  lemma PrefixWhole(env: Env, es: seq<Entry>, n: nat, inner: (seq<Entry>, Stop))
    requires JsonOk(env) && es != [] && Readable(env, es[0]) && |Frame(env, es[0])| <= n <= |LogBytes(env, es)|
    requires Scan(env, LogBytes(env, es[1..])[..n - |Frame(env, es[0])|]) == inner
    requires ScanOfPrefix(env, es[1..], n - |Frame(env, es[0])|) == inner
    ensures Scan(env, LogBytes(env, es)[..n]) == ([es[0]] + inner.0, inner.1) == ScanOfPrefix(env, es, n)
  {
    CutLog(env, es, n);
    ScanFrame(env, es[0], LogBytes(env, es[1..])[..n - |Frame(env, es[0])|]);
    PrefixUnfold(env, es, n);
  }

  lemma PrefixOfNone(env: Env)
    ensures Scan(env, LogBytes(env, [])[..0]) == ScanOfPrefix(env, [], 0)
  {
    ScanEmpty(env);
    assert LogBytes(env, [])[..0] == [];
  }

  /** Any byte prefix of a log reads as its whole entries. */
  lemma {:induction false} ScanPrefix(env: Env, es: seq<Entry>, n: nat)
    requires JsonOk(env) && AllReadable(env, es) && n <= |LogBytes(env, es)|
    ensures Scan(env, LogBytes(env, es)[..n]) == ScanOfPrefix(env, es, n)
  {
    if es == [] {
      PrefixOfNone(env);
    } else {
      AllReadableTail(env, es);
      if n < |Frame(env, es[0])| {
        PrefixTorn(env, es, n);
      } else {
        ScanPrefix(env, es[1..], n - |Frame(env, es[0])|);
        PrefixWhole(env, es, n, ScanOfPrefix(env, es[1..], n - |Frame(env, es[0])|));
      }
    }
  }

  ghost predicate AllSealed(env: Env, es: seq<Entry>) {
    forall e :: e in es ==> Fits(env, e) && Sealed(env, e)
  }

  lemma AllSealedTail(env: Env, es: seq<Entry>)
    requires AllSealed(env, es) && es != []
    ensures Fits(env, es[0]) && Sealed(env, es[0]) && AllSealed(env, es[1..])
  {
  }

  lemma BeforeUnfold(env: Env, es: seq<Entry>)
    requires es != [] && |Encode(env, es[0])| <= MAX_ENTRY
    ensures es[..BeforeOversize(env, es)] == [es[0]] + es[1..][..BeforeOversize(env, es[1..])]
  {
  }

  lemma ScanAllStep(env: Env, es: seq<Entry>, inner: seq<Entry>)
    requires JsonOk(env) && es != [] && Readable(env, es[0])
    requires Scan(env, LogBytes(env, es[1..])) == (inner, AtEnd)
    ensures Scan(env, LogBytes(env, es)) == ([es[0]] + inner, AtEnd)
  {
    ScanFrame(env, es[0], LogBytes(env, es[1..]));
  }

  /** A whole log reads as the entries before the first one over the limit, and no error tells of the rest. */
  lemma {:induction false} ScanAll(env: Env, es: seq<Entry>)
    requires JsonOk(env) && AllSealed(env, es)
    ensures Scan(env, LogBytes(env, es)) == (es[..BeforeOversize(env, es)], AtEnd)
  {
    if es == [] {
      ScanEmpty(env);
    } else {
      AllSealedTail(env, es);
      if |Encode(env, es[0])| > MAX_ENTRY {
        ScanOversize(env, es[0], LogBytes(env, es[1..]));
        assert es[..0] == [];
      } else {
        ScanAll(env, es[1..]);
        ScanAllStep(env, es, es[1..][..BeforeOversize(env, es[1..])]);
        BeforeUnfold(env, es);
      }
    }
  }

  /** A log is read back in full exactly if none of its entries is over the limit. */
  lemma ReadBackIff(env: Env, es: seq<Entry>)
    requires JsonOk(env) && AllSealed(env, es)
    ensures Scan(env, LogBytes(env, es)).0 == es <==> forall e :: e in es ==> |Encode(env, e)| <= MAX_ENTRY
  {
    ScanAll(env, es);
    assert |es[..BeforeOversize(env, es)]| == BeforeOversize(env, es);
    assert es[..|es|] == es;
  }

  lemma {:induction false} LogBytesCat(env: Env, a: seq<Entry>, b: seq<Entry>)
    ensures LogBytes(env, a + b) == LogBytes(env, a) + LogBytes(env, b)
  {
    if a == [] {
      assert a + b == b;
    } else {
      assert (a + b)[1..] == a[1..] + b;
      LogBytesCat(env, a[1..], b);
    }
  }

  lemma ScanOnStep(env: Env, es: seq<Entry>, rest: seq<byte>)
    requires JsonOk(env) && es != [] && Readable(env, es[0])
    ensures Scan(env, LogBytes(env, es) + rest)
            == ([es[0]] + Scan(env, LogBytes(env, es[1..]) + rest).0, Scan(env, LogBytes(env, es[1..]) + rest).1)
  {
    CatAssoc(Frame(env, es[0]), LogBytes(env, es[1..]), rest);
    ScanFrame(env, es[0], LogBytes(env, es[1..]) + rest);
  }

  lemma Uncut(es: seq<Entry>, more: seq<Entry>)
    requires es != []
    ensures [es[0]] + (es[1..] + more) == es + more
  {
  }

  /** Readable entries are read whatever follows them, and what follows is read as if it stood alone. */
  lemma {:induction false} ScanOn(env: Env, es: seq<Entry>, rest: seq<byte>)
    requires JsonOk(env) && AllReadable(env, es)
    ensures Scan(env, LogBytes(env, es) + rest) == (es + Scan(env, rest).0, Scan(env, rest).1)
  {
    if es == [] {
      assert [] + rest == rest && [] + Scan(env, rest).0 == Scan(env, rest).0;
    } else {
      AllReadableTail(env, es);
      ScanOn(env, es[1..], rest);
      ScanOnStep(env, es, rest);
      Uncut(es, Scan(env, rest).0);
    }
  }

  /** A torn frame that has its length hides whatever is written behind it until that length is reached. */
  lemma TailHides(env: Env, e: Entry, n: nat, more: seq<byte>)
    requires Readable(env, e) && 4 <= n && n + |more| < |Frame(env, e)|
    ensures Scan(env, Frame(env, e)[..n] + more) == ([], if n + |more| == 4 then NoData else AtEnd)
  {
    var data, s := Encode(env, e), Frame(env, e)[..n] + more;
    assert s[..4] == LE(|data|, 4);
    U32RoundTrip(|data|);
    assert |s| == 4 ==> s == s[..4];
    ScanEnd(env, s, if |s| == 4 then NoData else AtEnd);
  }

  datatype ReadResult = Entries(entries: seq<Entry>) | ReadError | ReadPanic

  function ReadAllOf(env: Env, s: seq<byte>): ReadResult {
    var (es, stop) := Scan(env, s);
    match stop
    case AtEnd => Entries(es)
    case NoData => ReadError
    case Bad => ReadError
    case Crash => ReadPanic
  }

  /** The tolerant scan: the last entry's number, zero if there is none; None is a panic. */
  function LastSequenceOf(env: Env, s: seq<byte>): Option<nat> {
    var (es, stop) := Scan(env, s);
    if stop.Crash? then None else Some(LastOf(es))
  }

  /** What is left where a scan stops. */
  function Left(env: Env, s: seq<byte>): seq<byte>
    decreases |s|
  {
    match Next(env, s)
    case End(_) => s
    case Whole(_, rest) => Left(env, rest)
  }

  /** The entry at the front of the bytes has a length in range, is all there, and has a field that runs past it. */
  predicate BadEntry(env: Env, s: seq<byte>) {
    NextData(s).Some? && |NextData(s).value| >= 25 && Overruns(env, NextData(s).value)
  }

  /** Both readers panic exactly if the first entry that cannot be read is such an entry. */
  lemma {:induction false} ReadersPanicIff(env: Env, s: seq<byte>)
    ensures LastSequenceOf(env, s) == None <==> BadEntry(env, Left(env, s))
    ensures ReadAllOf(env, s) == ReadPanic <==> BadEntry(env, Left(env, s))
    decreases |s|
  {
    match Next(env, s)
    case End(_) => if NextData(s).Some? { PanicsIff(env, NextData(s).value); }
    case Whole(_, rest) => ReadersPanicIff(env, rest);
  }

  /** Behind whole entries it is what follows them that decides. */
  lemma {:induction false} LeftBehind(env: Env, es: seq<Entry>, rest: seq<byte>)
    requires JsonOk(env) && AllReadable(env, es)
    ensures Left(env, LogBytes(env, es) + rest) == Left(env, rest)
  {
    if es == [] {
      assert LogBytes(env, es) + rest == rest;
    } else {
      AllReadableTail(env, es);
      LeftBehind(env, es[1..], rest);
      CatAssoc(Frame(env, es[0]), LogBytes(env, es[1..]), rest);
      NextWhole(env, es[0], LogBytes(env, es[1..]) + rest);
    }
  }

  /** Reads one length prefix and the data after it from the file at pos. */
  method ReadFrame(file: seq<byte>, pos: nat) returns (data: Option<seq<byte>>, eof: bool)
    requires pos <= |file|
    ensures data == NextData(file[pos..])
    ensures data.None? ==> (eof <==> |file[pos..]| == 4 && 0 < U32(file[pos..]) <= MAX_ENTRY)
  {
    data, eof := None, false;
    var n := Min(4, |file| - pos);
    if n < 4 {
      return;
    }
    assert file[pos..][..4] == file[pos..pos + 4];
    assert pos + 4 == |file| ==> file[pos..] == file[pos..pos + 4];
    var length := U32(file[pos..pos + 4]);
    if length == 0 || length > MAX_ENTRY {
      return;
    }
    var left := |file| - (pos + 4);
    if left == 0 {
      eof := true;
      return;
    }
    if Min(length, left) != length {
      return;
    }
    data := Some(file[pos + 4..pos + 4 + length]);
    assert file[pos..][4..4 + length] == file[pos + 4..pos + 4 + length];
  }

  /** Decodes an entry and compares its checksum. */
  method VerifyEntry(env: Env, data: seq<byte>) returns (r: Decoded)
    ensures r == match Decode(env, data)
                 case Ok(e) => if Sealed(env, e) then Ok(e) else Rejected
                 case other => other
  {
    r := DeserializeEntry(env, data);
    if r.Ok? {
      var expectedData := SerializeEntry(env, r.entry.(checksum := 0));
      if r.entry.checksum != env.crc(expectedData) {
        r := Rejected;
      }
    }
  }

  lemma DropDrop(file: seq<byte>, pos: nat, n: nat)
    requires pos + n <= |file|
    ensures file[pos..][n..] == file[pos + n..]
  {
  }

  datatype Found = Got(entry: Entry, pos: nat) | Stopped(stop: Stop)

  /** What both readers do with the file at pos: length, data, decoding, checksum. */
  method ReadNext(env: Env, file: seq<byte>, pos: nat) returns (r: Found)
    requires pos <= |file|
    ensures match r
            case Got(e, p) => pos < p <= |file| && Next(env, file[pos..]) == Whole(e, file[p..])
            case Stopped(stop) => Next(env, file[pos..]) == End(stop)
  {
    var data, eof := ReadFrame(file, pos);
    if data.None? {
      return Stopped(if eof then NoData else AtEnd);
    }
    var d := VerifyEntry(env, data.value);
    match d
    case Panic => return Stopped(Crash);
    case Rejected => return Stopped(Bad);
    case Ok(e) =>
      var next: nat := pos + 4 + |data.value|;
      DropDrop(file, pos, 4 + |data.value|);
      return Got(e, next);
  }

  /** The entries found before pos are the first of the scan. */
  ghost predicate Reached(env: Env, file: seq<byte>, entries: seq<Entry>, pos: nat) {
    pos <= |file| && Scan(env, file) == (entries + Scan(env, file[pos..]).0, Scan(env, file[pos..]).1)
  }

  lemma ReachedStart(env: Env, file: seq<byte>)
    ensures Reached(env, file, [], 0)
  {
    assert file[0..] == file;
    assert [] + Scan(env, file).0 == Scan(env, file).0;
  }

  lemma ReachedStep(env: Env, file: seq<byte>, entries: seq<Entry>, pos: nat, e: Entry, p: nat)
    requires Reached(env, file, entries, pos) && p <= |file| && Next(env, file[pos..]) == Whole(e, file[p..])
    ensures Reached(env, file, entries + [e], p)
  {
    ScanWhole(env, file[pos..], e, file[p..]);
    assert entries + ([e] + Scan(env, file[p..]).0) == entries + [e] + Scan(env, file[p..]).0;
  }

  lemma ReachedEnd(env: Env, file: seq<byte>, entries: seq<Entry>, pos: nat, stop: Stop)
    requires Reached(env, file, entries, pos) && Next(env, file[pos..]) == End(stop)
    ensures Scan(env, file) == (entries, stop)
  {
    ScanEnd(env, file[pos..], stop);
    assert entries + [] == entries;
  }

  function LastOf(es: seq<Entry>): nat {
    if es == [] then 0 else es[|es| - 1].seqNo
  }

  /** readAllLocked. */
  method ReadAll(env: Env, file: seq<byte>) returns (r: ReadResult)
    ensures r == ReadAllOf(env, file)
  {
    var entries: seq<Entry> := [];
    var pos: nat := 0;
    ReachedStart(env, file);
    while true
      invariant Reached(env, file, entries, pos)
      decreases |file| - pos
    {
      var step := ReadNext(env, file, pos);
      match step
      case Got(e, p) =>
        ReachedStep(env, file, entries, pos, e, p);
        entries, pos := entries + [e], p;
      case Stopped(stop) =>
        ReachedEnd(env, file, entries, pos, stop);
        return if stop.AtEnd? then Entries(entries) else if stop.Crash? then ReadPanic else ReadError;
    }
  }

  /** readLastSequenceLocked: stops at the first entry it cannot use. */
  method ReadLastSequence(env: Env, file: seq<byte>) returns (r: Option<nat>)
    ensures r == LastSequenceOf(env, file)
  {
    ghost var entries: seq<Entry> := [];
    var lastSeq: nat, pos: nat := 0, 0;
    ReachedStart(env, file);
    while true
      invariant Reached(env, file, entries, pos) && lastSeq == LastOf(entries)
      decreases |file| - pos
    {
      var step := ReadNext(env, file, pos);
      match step
      case Got(e, p) =>
        ReachedStep(env, file, entries, pos, e, p);
        entries, pos, lastSeq := entries + [e], p, e.seqNo;
      case Stopped(stop) =>
        ReachedEnd(env, file, entries, pos, stop);
        return if stop.Crash? then None else Some(lastSeq);
    }
  }
}
