/**
 * wal.go: the byte form of one log entry.
 */
module WalCodec {
  import opened Base
  import opened LittleEndian

  datatype Entry = Entry(seqNo: nat, kind: byte, id: Id, vector: Vector, meta: Option<Meta>, checksum: word)

  /** The library calls the log relies on: CRC-32 and JSON. */
  datatype Env = Env(crc: seq<byte> -> word, marshal: Meta -> seq<byte>, unmarshal: seq<byte> -> Option<Meta>)

  /** JSON text is never empty and decoding undoes encoding. */
  ghost predicate JsonOk(env: Env) {
    forall m :: env.marshal(m) != [] && env.unmarshal(env.marshal(m)) == Some(m)
  }

  /** A slice out of range ends the program; the other failures are errors. */
  datatype Decoded = Ok(entry: Entry) | Rejected | Panic

  function MetaBytes(env: Env, meta: Option<Meta>): seq<byte> {
    match meta
    case None => []
    case Some(m) => env.marshal(m)
  }

  function Block(n: nat, payload: seq<byte>): seq<byte> {
    LE(n, 4) + payload
  }

  function Encode(env: Env, e: Entry): (s: seq<byte>)
    ensures |s| == 25 + |e.id| + 4 * |e.vector| + |MetaBytes(env, e.meta)|
  {
    LE(e.seqNo, 8) + [e.kind] + (Block(|e.id|, e.id) + (Block(|e.vector|, VectorBytes(e.vector))
    + (Block(|MetaBytes(env, e.meta)|, MetaBytes(env, e.meta)) + LE(e.checksum, 4))))
  }

  /** A length-prefixed block of items of the given size, and what follows it. */
  function TakeBlock(s: seq<byte>, size: nat): Option<(seq<byte>, seq<byte>)> {
    if |s| < 4 then None
    else
      var n := U32(s[..4]) * size;
      if |s| < 4 + n then None else Some((s[4..4 + n], s[4 + n..]))
  }

  lemma TakeBlockUndoes(n: nat, payload: seq<byte>, rest: seq<byte>, size: nat)
    requires n < 0x1_0000_0000 && |payload| == n * size
    ensures TakeBlock(Block(n, payload) + rest, size) == Some((payload, rest))
  {
    var s := Block(n, payload) + rest;
    assert s[..4] == LE(n, 4);
    U32RoundTrip(n);
    assert s[4..4 + n * size] == payload;
    assert s[4 + n * size..] == rest;
  }

  function DecodeTail(env: Env, seqNo: nat, kind: byte, id: Id, vector: Vector, meta: seq<byte>,
                      rest: seq<byte>): Decoded {
    if meta != [] && env.unmarshal(meta).None? then Rejected
    else if |rest| < 4 then Panic
    else Ok(Entry(seqNo, kind, id, vector, if meta == [] then None else env.unmarshal(meta), U32(rest[..4])))
  }

  function DecodeEnd(env: Env, seqNo: nat, kind: byte, id: Id, vector: Vector, s: seq<byte>): Decoded {
    match TakeBlock(s, 1)
    case None => Panic
    case Some((meta, rest)) => DecodeTail(env, seqNo, kind, id, vector, meta, rest)
  }

  function Decode(env: Env, data: seq<byte>): Decoded {
    if |data| < 25 then Rejected
    else
      match TakeBlock(data[9..], 1)
      case None => Panic
      case Some((id, s1)) =>
        match TakeBlock(s1, 4)
        case None => Panic
        case Some((components, s2)) =>
          DecodeEnd(env, FromLE(data[..8]), data[8], id, VectorFrom(components), s2)
  }

  /** Where a block of items of this size ends that starts at the offset, by the length it gives. */
  function BlockEnd(data: seq<byte>, offset: nat, size: nat): nat
    requires offset + 4 <= |data|
  {
    offset + 4 + U32(data[offset..offset + 4]) * size
  }

  /**
   * The metadata that starts at the offset runs past the end, or leaves no room
   * for the checksum, unless it is rejected.
   */
  predicate TailOverruns(env: Env, data: seq<byte>, offset: nat) {
    offset + 4 > |data| ||
    var end := BlockEnd(data, offset, 1);
    end > |data| || (end + 4 > |data| && (end == offset + 4 || env.unmarshal(data[offset + 4..end]).Some?))
  }

  /** The ID, the vector or what follows them does not fit into the data. */
  predicate Overruns(env: Env, data: seq<byte>)
    requires |data| >= 25
  {
    var id := BlockEnd(data, 9, 1);
    id + 4 > |data| || TailOverruns(env, data, BlockEnd(data, id, 4))
  }

  lemma BlockIs(data: seq<byte>, offset: nat, size: nat)
    requires offset + 4 <= |data|
    ensures TakeBlock(data[offset..], size) ==
              var end := BlockEnd(data, offset, size);
              if end > |data| then None else Some((data[offset + 4..end], data[end..]))
  {
    TakeBlockAt(data, offset, size);
  }

  lemma NoBlock(data: seq<byte>, offset: nat, size: nat)
    requires offset <= |data| < offset + 4
    ensures TakeBlock(data[offset..], size) == None
  {
  }

  lemma TailPanicsIff(env: Env, data: seq<byte>, offset: nat, seqNo: nat, kind: byte, id: Id, vector: Vector)
    requires offset <= |data|
    ensures DecodeEnd(env, seqNo, kind, id, vector, data[offset..]) == Panic <==> TailOverruns(env, data, offset)
  {
    if offset + 4 > |data| {
      NoBlock(data, offset, 1);
    } else {
      BlockIs(data, offset, 1);
    }
  }

  /** Decoding panics exactly if the data is long enough to be looked at and a field runs past its end. */
  lemma PanicsIff(env: Env, data: seq<byte>)
    ensures Decode(env, data) == Panic <==> |data| >= 25 && Overruns(env, data)
  {
    if |data| >= 25 {
      BlockIs(data, 9, 1);
      var end := BlockEnd(data, 9, 1);
      if end + 4 <= |data| {
        BlockIs(data, end, 4);
        var id, vectorEnd := data[13..end], BlockEnd(data, end, 4);
        if vectorEnd <= |data| {
          TailPanicsIff(env, data, vectorEnd, FromLE(data[..8]), data[8], id, VectorFrom(data[end + 4..vectorEnd]));
        }
      } else if end <= |data| {
        NoBlock(data, end, 4);
      }
    }
  }

  /** The sequence number and all lengths fit their fields. */
  ghost predicate Fits(env: Env, e: Entry) {
    e.seqNo < 0x1_0000_0000_0000_0000 && |Encode(env, e)| < 0x1_0000_0000
  }

  /** Decoding undoes encoding. */
  lemma DecodeUndoes(env: Env, e: Entry)
    requires JsonOk(env) && Fits(env, e)
    ensures Decode(env, Encode(env, e)) == Ok(e)
  {
    var data, mb := Encode(env, e), MetaBytes(env, e.meta);
    var s2 := Block(|mb|, mb) + LE(e.checksum, 4);
    var s1 := Block(|e.vector|, VectorBytes(e.vector)) + s2;
    assert data[9..] == Block(|e.id|, e.id) + s1;
    TakeBlockUndoes(|e.id|, e.id, s1, 1);
    TakeBlockUndoes(|e.vector|, VectorBytes(e.vector), s2, 4);
    TakeBlockUndoes(|mb|, mb, LE(e.checksum, 4), 1);
    VectorRoundTrip(e.vector);
    TailUndoes(env, e);
    assert data[..8] == LE(e.seqNo, 8);
    U64RoundTrip(e.seqNo);
  }

  lemma TailUndoes(env: Env, e: Entry)
    requires JsonOk(env)
    ensures DecodeTail(env, e.seqNo, e.kind, e.id, e.vector, MetaBytes(env, e.meta), LE(e.checksum, 4)) == Ok(e)
  {
    U32RoundTrip(e.checksum);
    assert LE(e.checksum, 4)[..4] == LE(e.checksum, 4);
  }

  /** serializeEntry: field after field is appended. */
  method SerializeEntry(env: Env, e: Entry) returns (buf: seq<byte>)
    ensures buf == Encode(env, e)
  {
    buf := LE(e.seqNo, 8);
    buf := buf + [e.kind];
    buf := buf + LE(|e.id|, 4);
    buf := buf + e.id;
    buf := buf + LE(|e.vector|, 4);
    var components := SerializeVector(e.vector);
    buf := buf + components;
    var metaBytes: seq<byte> := [];
    if e.meta.Some? {
      metaBytes := env.marshal(e.meta.value);
    }
    buf := buf + LE(|metaBytes|, 4);
    buf := buf + metaBytes;
    buf := buf + LE(e.checksum, 4);
  }

  lemma TakeBlockAt(data: seq<byte>, offset: nat, size: nat)
    requires offset <= |data|
    ensures TakeBlock(data[offset..], size) ==
              if |data| < offset + 4 then None
              else
                var n := U32(data[offset..offset + 4]) * size;
                if |data| < offset + 4 + n then None
                else Some((data[offset + 4..offset + 4 + n], data[offset + 4 + n..]))
  {
    if |data| >= offset + 4 {
      assert data[offset..][..4] == data[offset..offset + 4];
      var n := U32(data[offset..offset + 4]) * size;
      if |data| >= offset + 4 + n {
        assert data[offset..][4..4 + n] == data[offset + 4..offset + 4 + n];
        assert data[offset..][4 + n..] == data[offset + 4 + n..];
      }
    }
  }

  /** deserializeEntry: a moving offset; a slice that runs past the data is a panic. */
  method DeserializeEntry(env: Env, data: seq<byte>) returns (r: Decoded)
    ensures r == Decode(env, data)
  {
    if |data| < 25 {
      return Rejected;
    }
    var offset: nat := 9;
    TakeBlockAt(data, offset, 1);
    var idLen := U32(data[offset..offset + 4]);
    offset := offset + 4;
    if |data| < offset + idLen {
      return Panic;
    }
    var id := data[offset..offset + idLen];
    offset := offset + idLen;
    r := DeserializeRest(env, data, offset, FromLE(data[..8]), data[8], id);
  }

  /** The fields after the ID. */
  method DeserializeRest(env: Env, data: seq<byte>, start: nat, seqNo: nat, kind: byte, id: Id) returns (r: Decoded)
    requires start <= |data|
    ensures r ==
              match TakeBlock(data[start..], 4)
              case None => Panic
              case Some((components, s2)) => DecodeEnd(env, seqNo, kind, id, VectorFrom(components), s2)
  {
    var offset: nat := start;
    TakeBlockAt(data, offset, 4);
    if |data| < offset + 4 {
      return Panic;
    }
    var vecBytes := U32(data[offset..offset + 4]) * 4;
    offset := offset + 4;
    if |data| < offset + vecBytes {
      return Panic;
    }
    var vector := DeserializeVector(data[offset..offset + vecBytes]);
    offset := offset + vecBytes;
    TakeBlockAt(data, offset, 1);
    if |data| < offset + 4 {
      return Panic;
    }
    var metaLen := U32(data[offset..offset + 4]);
    offset := offset + 4;
    if |data| < offset + metaLen {
      return Panic;
    }
    var meta := data[offset..offset + metaLen];
    offset := offset + metaLen;
    assert data[offset..][..] == data[offset..];
    if |data| >= offset + 4 {
      assert data[offset..][..4] == data[offset..offset + 4];
    }
    r := DecodeTail(env, seqNo, kind, id, vector, meta, data[offset..]);
  }
}
