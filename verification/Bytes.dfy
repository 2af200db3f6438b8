/** Byte strings and the ordering `ngx_memn2cmp` puts on them. */
module Bytes {

  type Byte = b: nat | b < 0x100

  type Bytes = seq<Byte>

  /** `memcmp` on the common length; when that is equal the shorter string is the smaller. */
  function Memn2Cmp(a: Bytes, b: Bytes): int
  {
    if a == [] && b == [] then 0
    else if a == [] then -1
    else if b == [] then 1
    else if a[0] != b[0] then a[0] - b[0]
    else Memn2Cmp(a[1..], b[1..])
  }

  lemma {:induction false} CompareZero(a: Bytes, b: Bytes)
    ensures Memn2Cmp(a, b) == 0 <==> a == b
  {
    if a != [] && b != [] && a[0] == b[0] {
      CompareZero(a[1..], b[1..]);
      assert a == [a[0]] + a[1..] && b == [b[0]] + b[1..];
    }
  }

  lemma {:induction false} CompareFlips(a: Bytes, b: Bytes)
    ensures Memn2Cmp(a, b) < 0 <==> Memn2Cmp(b, a) > 0
  {
    if a != [] && b != [] && a[0] == b[0] {
      CompareFlips(a[1..], b[1..]);
    }
  }

  lemma {:induction false} CompareTransitive(a: Bytes, b: Bytes, c: Bytes)
    requires Memn2Cmp(a, b) < 0 && Memn2Cmp(b, c) < 0
    ensures Memn2Cmp(a, c) < 0
  {
    if a != [] && a[0] == b[0] == c[0] {
      CompareTransitive(a[1..], b[1..], c[1..]);
    }
  }
}
