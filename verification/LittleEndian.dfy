/**
 * Little-endian integers of a given width, and vectors of 32-bit words.
 */
module LittleEndian {
  import opened Base

  function Pow256(width: nat): (p: nat)
    ensures p >= 1
  {
    if width == 0 then 1 else 256 * Pow256(width - 1)
  }

  /** PutUint: the low width bytes of n. */
  function LE(n: nat, width: nat): (s: seq<byte>)
    ensures |s| == width
  {
    if width == 0 then [] else [n % 256] + LE(n / 256, width - 1)
  }

  /** Uint: the number that a byte string denotes. */
  function FromLE(s: seq<byte>): nat {
    if s == [] then 0 else s[0] + 256 * FromLE(s[1..])
  }

  /** A number that fits the width is read back unchanged. */
  lemma {:induction false} RoundTrip(n: nat, width: nat)
    requires n < Pow256(width)
    ensures FromLE(LE(n, width)) == n
  {
    if width > 0 {
      RoundTrip(n / 256, width - 1);
      assert LE(n, width)[1..] == LE(n / 256, width - 1);
    }
  }

  lemma {:induction false} Bound(s: seq<byte>)
    ensures FromLE(s) < Pow256(|s|)
  {
    if s != [] { Bound(s[1..]); }
  }

  /** Any byte string is the encoding of the number it denotes. */
  lemma {:induction false} Canonical(s: seq<byte>)
    ensures LE(FromLE(s), |s|) == s
  {
    if s != [] {
      Canonical(s[1..]);
      assert FromLE(s) % 256 == s[0] && FromLE(s) / 256 == FromLE(s[1..]);
    }
  }

  lemma Widths()
    ensures Pow256(2) == 0x1_0000 && Pow256(4) == 0x1_0000_0000 && Pow256(8) == 0x1_0000_0000_0000_0000
  {
    assert Pow256(1) == 256;
    assert Pow256(3) == 256 * Pow256(2);
    assert Pow256(5) == 256 * Pow256(4);
    assert Pow256(6) == 256 * Pow256(5);
    assert Pow256(7) == 256 * Pow256(6);
  }

  function U32(s: seq<byte>): (n: word)
    requires |s| == 4
  {
    Bound(s);
    Widths();
    FromLE(s)
  }

  lemma U32RoundTrip(n: nat)
    requires n < 0x1_0000_0000
    ensures U32(LE(n, 4)) == n
  {
    Widths();
    RoundTrip(n, 4);
  }

  lemma U64RoundTrip(n: nat)
    requires n < 0x1_0000_0000_0000_0000
    ensures FromLE(LE(n, 8)) == n
  {
    Widths();
    RoundTrip(n, 8);
  }

  /** The bytes of a vector: four for each component. */
  function VectorBytes(v: Vector): (s: seq<byte>)
    ensures |s| == 4 * |v|
  {
    if v == [] then [] else VectorBytes(v[..|v| - 1]) + LE(v[|v| - 1], 4)
  }

  /** The vector a byte string denotes; up to three bytes at the end are ignored. */
  function VectorFrom(s: seq<byte>): (v: Vector)
    ensures |v| == |s| / 4
  {
    seq(|s| / 4, i requires 0 <= i < |s| / 4 => U32(s[4 * i..4 * i + 4]))
  }

  lemma {:induction false} VectorBytesAt(v: Vector, i: nat)
    requires i < |v|
    ensures VectorBytes(v)[4 * i..4 * i + 4] == LE(v[i], 4)
  {
    var n := |v| - 1;
    if i < n {
      VectorBytesAt(v[..n], i);
      assert VectorBytes(v)[4 * i..4 * i + 4] == VectorBytes(v[..n])[4 * i..4 * i + 4];
    }
  }

  lemma VectorRoundTrip(v: Vector)
    ensures VectorFrom(VectorBytes(v)) == v
  {
    forall i | 0 <= i < |v| ensures VectorFrom(VectorBytes(v))[i] == v[i] {
      VectorBytesAt(v, i);
      U32RoundTrip(v[i]);
    }
  }

  /** SerializeVector. */
  method SerializeVector(v: Vector) returns (s: seq<byte>)
    ensures s == VectorBytes(v)
  {
    s := [];
    for i := 0 to |v|
      invariant s == VectorBytes(v[..i])
    {
      assert v[..i + 1][..i] == v[..i];
      s := s + LE(v[i], 4);
    }
    assert v[..|v|] == v;
  }

  /** DeserializeVector. */
  method DeserializeVector(s: seq<byte>) returns (v: Vector)
    ensures v == VectorFrom(s)
  {
    v := [];
    for i := 0 to |s| / 4
      invariant v == VectorFrom(s)[..i]
    {
      v := v + [U32(s[4 * i..4 * i + 4])];
    }
  }
}
