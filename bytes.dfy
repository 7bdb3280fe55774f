/** The byte buffers every codec reads and writes. */
module Bytes {

  /** One 8-bit value of a `bytes` / `bytearray` buffer. */
  type Byte = x: int | 0 <= x < 256

  /** `[v] * n`: n copies of v. */
  function Repeat(v: Byte, n: nat): (r: seq<Byte>)
    ensures |r| == n
    ensures forall k :: 0 <= k < n ==> r[k] == v
  {
    if n == 0 then [] else [v] + Repeat(v, n - 1)
  }

  lemma AppendAssoc<T>(a: seq<T>, b: seq<T>, c: seq<T>)
    ensures (a + b) + c == a + (b + c)
  {
  }

  lemma AppendEmpty<T>(s: seq<T>)
    ensures [] + s == s && s + [] == s
  {
  }

  /** Appending one more copy extends a repetition. */
  lemma RepeatSnoc(v: Byte, n: nat)
    ensures Repeat(v, n) + [v] == Repeat(v, n + 1)
  {
    assert forall k :: 0 <= k < n + 1 ==> (Repeat(v, n) + [v])[k] == v;
  }
}
