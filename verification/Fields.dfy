/**
 * The field stream that the index is saved as, and what a bytes.Reader makes
 * of it when the end of the stream is missing.
 */
module Fields {
  import opened Base
  import opened LittleEndian

  /** A 32-bit number, or raw bytes whose number the reader knows. */
  datatype Field = Num(n: word) | Raw(bytes: seq<byte>)

  function FieldBytes(f: Field): seq<byte> {
    match f
    case Num(n) => LE(n, 4)
    case Raw(bytes) => bytes
  }

  function Bytes(fs: seq<Field>): seq<byte> {
    if fs == [] then [] else FieldBytes(fs[0]) + Bytes(fs[1..])
  }

  predicate Zeros(s: seq<byte>) {
    forall i :: 0 <= i < |s| ==> s[i] == 0
  }

  /** binary.Read with its error ignored: a number cut short counts as zero. */
  function NumAt(s: seq<byte>): word {
    if |s| >= 4 then U32(s[..4]) else 0
  }

  /** Read into a zeroed buffer of n bytes: what is missing stays zero. */
  function RawAt(s: seq<byte>, n: nat): seq<byte> {
    if |s| >= n then s[..n] else s + seq(n - |s|, _ => 0)
  }

  function Rest(s: seq<byte>, n: nat): seq<byte> {
    if |s| >= n then s[n..] else []
  }

  /** A reader that asks for fields of these kinds and sizes gets these values. */
  ghost predicate Sees(s: seq<byte>, fs: seq<Field>)
    decreases |fs|
  {
    if fs == [] then true
    else
      match fs[0]
      case Num(n) => NumAt(s) == n && Sees(Rest(s, 4), fs[1..])
      case Raw(bytes) => RawAt(s, |bytes|) == bytes && Sees(Rest(s, |bytes|), fs[1..])
  }

  /** A whole field is read as itself, and reading goes on after it. */
  lemma SeesOne(f: Field, rest: seq<byte>, fs: seq<Field>)
    ensures Sees(FieldBytes(f) + rest, [f] + fs) <==> Sees(rest, fs)
  {
    var b := FieldBytes(f);
    var s := b + rest;
    assert s[..|b|] == b && s[|b|..] == rest && ([f] + fs)[1..] == fs;
    if f.Num? { U32RoundTrip(f.n); }
  }

  /** After whole fields, what is left is read on. */
  lemma {:induction false} SeesAfter(a: seq<Field>, rest: seq<byte>, b: seq<Field>)
    ensures Sees(Bytes(a) + rest, a + b) <==> Sees(rest, b)
  {
    if a == [] {
      assert Bytes(a) + rest == rest && a + b == b;
    } else {
      SeesAfter(a[1..], rest, b);
      SeesOne(a[0], Bytes(a[1..]) + rest, a[1..] + b);
      Uncons(a, b);
      CatAssoc(FieldBytes(a[0]), Bytes(a[1..]), rest);
    }
  }

  lemma Uncons(a: seq<Field>, b: seq<Field>)
    requires a != []
    ensures a + b == [a[0]] + (a[1..] + b)
  {
  }

  lemma SeesAll(fs: seq<Field>)
    ensures Sees(Bytes(fs), fs)
  {
    SeesAfter(fs, [], []);
    assert Bytes(fs) + [] == Bytes(fs) && fs + [] == fs;
  }

  /** Nothing is left: every field reads as zeros. */
  lemma {:induction false} SeesNothing(fs: seq<Field>)
    ensures Sees([], fs) <==> Zeros(Bytes(fs))
  {
    if fs != [] {
      SeesNothing(fs[1..]);
      ZerosCat(FieldBytes(fs[0]), Bytes(fs[1..]));
      match fs[0]
      case Num(n) => ZeroNum(n);
      case Raw(bytes) => assert Zeros(bytes) <==> RawAt([], |bytes|) == bytes by {
        if Zeros(bytes) { assert RawAt([], |bytes|) == bytes; }
      }
    }
  }

  lemma ZerosCat(a: seq<byte>, b: seq<byte>)
    ensures Zeros(a + b) <==> Zeros(a) && Zeros(b)
  {
    forall i | 0 <= i < |a| ensures (a + b)[i] == a[i] {}
    forall i | 0 <= i < |b| ensures (a + b)[|a| + i] == b[i] {}
  }

  lemma ZeroNum(n: word)
    ensures Zeros(LE(n, 4)) <==> n == 0
  {
    U32RoundTrip(n);
    U32RoundTrip(0);
    var z := LE(0, 4);
    assert LE(0, 4) == [0] + LE(0, 3) && LE(0, 3) == [0] + LE(0, 2) && LE(0, 2) == [0] + LE(0, 1) && LE(0, 1) == [0];
    if Zeros(LE(n, 4)) { assert LE(n, 4) == z; }
  }

  /** The cut at t falls inside a number. */
  predicate Splits(fs: seq<Field>, t: nat) {
    if fs == [] then false
    else (fs[0].Num? && 0 < t < 4) || (t >= |FieldBytes(fs[0])| && Splits(fs[1..], t - |FieldBytes(fs[0])|))
  }

  /**
   * A stream whose zeros from t on are missing is read correctly exactly if
   * the cut does not fall inside a number.
   */
  lemma {:induction false} SeesCutIff(fs: seq<Field>, t: nat)
    requires t <= |Bytes(fs)| && Zeros(Bytes(fs)[t..]) && (t > 0 ==> Bytes(fs)[t - 1] != 0)
    ensures Sees(Bytes(fs)[..t], fs) <==> !Splits(fs, t)
  {
    if fs != [] {
      var b, r := FieldBytes(fs[0]), Bytes(fs[1..]);
      var s := Bytes(fs)[..t];
      if t >= |b| {
        assert s[..|b|] == b && s[|b|..] == r[..t - |b|] && Bytes(fs)[t..] == r[t - |b|..];
        if t > |b| {
          assert r[t - |b| - 1] == Bytes(fs)[t - 1];
          SeesCutIff(fs[1..], t - |b|);
        } else {
          SeesCutAt(fs[1..]);
        }
        if fs[0].Num? { U32RoundTrip(fs[0].n); }
      } else {
        CutInside(fs, t);
      }
    }
  }

  /** The cut is right at the start of these fields: all of them are zero. */
  lemma {:induction false} SeesCutAt(fs: seq<Field>)
    requires Zeros(Bytes(fs))
    ensures Sees(Bytes(fs)[..0], fs) && !Splits(fs, 0)
  {
    SeesNothing(fs);
    assert Bytes(fs)[..0] == [];
    NoSplit(fs);
  }

  lemma {:induction false} NoSplit(fs: seq<Field>)
    ensures !Splits(fs, 0)
  {
    if fs != [] { NoSplit(fs[1..]); }
  }

  /** The cut is inside the first field, after a byte that is not zero. */
  lemma CutInside(fs: seq<Field>, t: nat)
    requires fs != [] && t < |FieldBytes(fs[0])| && Zeros(Bytes(fs)[t..]) && (t > 0 ==> Bytes(fs)[t - 1] != 0)
    ensures Sees(Bytes(fs)[..t], fs) <==> !Splits(fs, t)
  {
    var b, r := FieldBytes(fs[0]), Bytes(fs[1..]);
    var s := Bytes(fs)[..t];
    assert s == b[..t] && Bytes(fs)[t..] == b[t..] + r;
    ZerosCat(b[t..], r);
    SeesNothing(fs[1..]);
    match fs[0]
    case Num(n) =>
      ZeroNum(n);
      if t > 0 { assert b[t - 1] != 0; }
      if t == 0 { assert b[t..] == b; }
    case Raw(bytes) =>
      assert RawAt(s, |bytes|) == bytes by {
        forall i | t <= i < |bytes| ensures bytes[i] == 0 { assert b[t..][i - t] == 0; }
      }
  }

  lemma {:induction false} BytesCat(a: seq<Field>, b: seq<Field>)
    ensures Bytes(a + b) == Bytes(a) + Bytes(b)
  {
    if a == [] {
      assert a + b == b;
    } else {
      assert (a + b)[1..] == a[1..] + b;
      BytesCat(a[1..], b);
    }
  }

  /** The stream without its trailing zeros. */
  function Trim(s: seq<byte>): (t: seq<byte>)
    ensures t <= s && Zeros(s[|t|..]) && (t != [] ==> t[|t| - 1] != 0)
  {
    if s != [] && s[|s| - 1] == 0 then
      assert forall k :: 0 <= k < |s| - 1 ==> s[..|s| - 1][k] == s[k];
      Trim(s[..|s| - 1])
    else s
  }

  /** What is left when fields of these kinds and sizes have been read. */
  function After(s: seq<byte>, fs: seq<Field>): seq<byte>
    decreases |fs|
  {
    if fs == [] then s else After(Rest(s, |FieldBytes(fs[0])|), fs[1..])
  }

  /** Reading fields in two runs. */
  lemma {:induction false} SeesCat(s: seq<byte>, a: seq<Field>, b: seq<Field>)
    ensures Sees(s, a + b) <==> Sees(s, a) && Sees(After(s, a), b)
    ensures After(s, a + b) == After(After(s, a), b)
    decreases |a|
  {
    if a == [] {
      assert a + b == b;
    } else {
      assert (a + b)[1..] == a[1..] + b;
      SeesCat(Rest(s, |FieldBytes(a[0])|), a[1..], b);
    }
  }

  /** The bytes of the fields without their trailing zeros. */
  ghost predicate IsCut(s: seq<byte>, fs: seq<Field>) {
    s <= Bytes(fs) && Zeros(Bytes(fs)[|s|..]) && (s != [] ==> s[|s| - 1] != 0)
  }

  lemma CutSeesIff(s: seq<byte>, fs: seq<Field>)
    requires IsCut(s, fs)
    ensures Sees(s, fs) <==> !Splits(fs, |s|)
  {
    assert Bytes(fs)[..|s|] == s;
    SeesCutIff(fs, |s|);
  }

  lemma CutOne(s: seq<byte>, f: Field, fs: seq<Field>)
    requires IsCut(s, [f] + fs)
    ensures IsCut(Rest(s, |FieldBytes(f)|), fs)
  {
    var b, r := FieldBytes(f), Bytes(fs);
    assert ([f] + fs)[1..] == fs && Bytes([f] + fs) == b + r;
    if |s| >= |b| {
      CutPast(s, b, r);
    } else {
      assert r == (b + r)[|s|..][|b| - |s|..];
    }
  }

  lemma CutPast(s: seq<byte>, b: seq<byte>, r: seq<byte>)
    requires s <= b + r && |s| >= |b|
    ensures s[|b|..] <= r && r[|s| - |b|..] == (b + r)[|s|..]
  {
  }

  /** What is left of a cut stream is a cut stream of the fields left. */
  lemma {:induction false} CutAfter(s: seq<byte>, a: seq<Field>, b: seq<Field>)
    requires IsCut(s, a + b)
    ensures IsCut(After(s, a), b)
    decreases |a|
  {
    if a == [] {
      assert a + b == b;
    } else {
      Uncons(a, b);
      CutOne(s, a[0], a[1..] + b);
      CutAfter(Rest(s, |FieldBytes(a[0])|), a[1..], b);
    }
  }

  /** A number at the start of a cut stream is read as itself, or as zero if it is cut; then nothing is left. */
  lemma CutNumber(s: seq<byte>, n: word, fs: seq<Field>)
    requires IsCut(s, [Num(n)] + fs)
    ensures NumAt(s) == n || (NumAt(s) == 0 && Rest(s, 4) == [])
  {
    assert ([Num(n)] + fs)[1..] == fs;
    if |s| >= 4 {
      assert s[..4] == LE(n, 4);
      U32RoundTrip(n);
    }
  }

  /** The trimmed stream is cut. */
  lemma TrimCuts(fs: seq<Field>)
    ensures IsCut(Trim(Bytes(fs)), fs)
  {
  }

  /** Raw bytes at the start of a cut stream are read as themselves. */
  lemma CutRaw(s: seq<byte>, b: seq<byte>, fs: seq<Field>)
    requires IsCut(s, [Raw(b)] + fs)
    ensures RawAt(s, |b|) == b
  {
    assert ([Raw(b)] + fs)[1..] == fs && Bytes([Raw(b)] + fs) == b + Bytes(fs);
    if |s| >= |b| {
      assert s[..|b|] == b;
    } else {
      assert s == b[..|s|];
      forall i | |s| <= i < |b| ensures b[i] == 0 { assert (b + Bytes(fs))[|s|..][i - |s|] == b[i]; }
    }
  }

  /** Once nothing is left, what comes later is read from nothing. */
  lemma NothingLater(a: seq<Field>, b: seq<Field>)
    requires Sees([], a + b)
    ensures Sees([], b)
  {
    SeesNothing(a + b);
    BytesCat(a, b);
    ZerosCat(Bytes(a), Bytes(b));
    SeesNothing(b);
  }
}
