/** Value types shared by every part of the model. */
module Base {
  datatype Option<+T> = None | Some(value: T)

  type byte = x: int | 0 <= x < 0x100
  type word = x: int | 0 <= x < 0x1_0000_0000

  /** A Go string is a sequence of bytes. */
  type Id = seq<byte>

  /** A []float32, each component as its 32-bit pattern. */
  type Vector = seq<word>

  /** A metadata map: keys and rendered values as byte strings. */
  type Meta = map<seq<byte>, seq<byte>>

  type TxId = nat

  const MAX_ID_LENGTH := 63

  function Min(a: int, b: int): int {
    if a <= b then a else b
  }

  function Max(a: int, b: int): int {
    if a >= b then a else b
  }

  predicate Unique<T(==)>(s: seq<T>) {
    forall i, j :: 0 <= i < j < |s| ==> s[i] != s[j]
  }

  lemma CatAssoc<T>(a: seq<T>, b: seq<T>, c: seq<T>)
    ensures a + b + c == a + (b + c)
  {
  }
}
