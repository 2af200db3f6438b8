/** Bitwise operations on non-negative integers, and the masking identity the hash table relies on. */
module Bits {

  function Pow2(k: nat): (p: nat)
    ensures p > 0
  {
    if k == 0 then 1 else 2 * Pow2(k - 1)
  }

  function And(a: nat, b: nat): nat
  {
    if a == 0 || b == 0 then 0
    else (if a % 2 == 1 && b % 2 == 1 then 1 else 0) + 2 * And(a / 2, b / 2)
  }

  function Xor(a: nat, b: nat): nat
    decreases a + b
  {
    if a == 0 then b else if b == 0 then a
    else (if a % 2 != b % 2 then 1 else 0) + 2 * Xor(a / 2, b / 2)
  }

  /** The binary digit of weight `2^k`. */
  function Digit(a: nat, k: nat): (d: nat)
    ensures d < 2
  {
    if k == 0 then a % 2 else Digit(a / 2, k - 1)
  }

  /** Exclusive or has a digit exactly where its operands differ. */
  lemma {:induction false} XorDigits(a: nat, b: nat, k: nat)
    ensures Digit(Xor(a, b), k) == 1 <==> Digit(a, k) != Digit(b, k)
    decreases k
  {
    if a == 0 || b == 0 {
      NoDigits(k);
    } else if k > 0 {
      XorDigits(a / 2, b / 2, k - 1);
    }
  }

  lemma {:induction false} NoDigits(k: nat)
    ensures Digit(0, k) == 0
  {
    if k > 0 { NoDigits(k - 1); }
  }

  /** Exclusive or of two `k`-bit words is a `k`-bit word. */
  lemma {:induction false} XorFits(a: nat, b: nat, k: nat)
    requires a < Pow2(k) && b < Pow2(k)
    ensures Xor(a, b) < Pow2(k)
    decreases k
  {
    if a != 0 && b != 0 { XorFits(a / 2, b / 2, k - 1); }
  }

  lemma QuotientUnique(h: int, m: int, q: int, r: int)
    requires m > 0 && h == q * m + r && 0 <= r < m
    ensures h % m == r
  {
    var d := h / m - q;
    assert h == (h / m) * m + h % m;
    assert d * m == r - h % m;
    assert d >= 1 ==> d * m >= m;
    assert d <= -1 ==> d * m <= -m;
  }

  lemma ModTwice(h: nat, m: nat)
    requires m > 0
    ensures h % (2 * m) == h % 2 + 2 * ((h / 2) % m)
  {
    var q, r := (h / 2) / m, (h / 2) % m;
    assert h / 2 == q * m + r;
    assert h == q * (2 * m) + (h % 2 + 2 * r);
    QuotientUnique(h, 2 * m, q, h % 2 + 2 * r);
  }

  /** Masking with a power of two less one is the remainder by that power. */
  lemma {:induction false} MaskIsMod(h: nat, k: nat)
    ensures And(h, Pow2(k) - 1) == h % Pow2(k)
    decreases k
  {
    if h == 0 || k == 0 {
    } else {
      var m := Pow2(k - 1);
      MaskIsMod(h / 2, k - 1);
      ModTwice(h, m);
      assert (Pow2(k) - 1) / 2 == m - 1 && (Pow2(k) - 1) % 2 == 1;
    }
  }
}
