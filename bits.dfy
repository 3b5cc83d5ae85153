/** JavaScript's 32-bit integer operators, restricted to the non-negative
    operands below 2^17 that the codec in lib/errplane.js ever feeds them.
    On such operands `x >> k` is `x / 2^k`, `x << k` is `x * 2^k` (no
    32-bit wrap-around can occur), and `x & (2^k - 1)` is `x % 2^k`; the
    codec writes those directly.  Only `|` needs a definition of its own,
    because the decoder applies it to overlapping bit patterns when its
    input is padding or garbage. */
module Bits {

  function Pow2(k: nat): (r: nat)
    ensures r >= 1
  {
    if k == 0 then 1 else 2 * Pow2(k - 1)
  }

  /** Bitwise OR of two naturals, bit by bit from the least significant. */
  function BitOr(a: nat, b: nat): (r: nat)
    ensures a <= r && b <= r
    ensures r <= a + b
    decreases a + b
  {
    if a == 0 then b
    else if b == 0 then a
    else 2 * BitOr(a / 2, b / 2) + (if a % 2 == 1 || b % 2 == 1 then 1 else 0)
  }

  /** When the low k bits of `a` are clear and `b` fits in them, OR is addition. */
  lemma {:induction false} BitOrDisjoint(h: nat, k: nat, b: nat)
    requires b < Pow2(k)
    ensures BitOr(h * Pow2(k), b) == h * Pow2(k) + b
    decreases k
  {
    if k == 0 {
      assert b == 0;
    } else if h == 0 || b == 0 {
    } else {
      var p := Pow2(k - 1);
      assert h * Pow2(k) == 2 * (h * p);
      assert (h * Pow2(k)) / 2 == h * p;
      assert (h * Pow2(k)) % 2 == 0;
      assert b / 2 < p;
      BitOrDisjoint(h, k - 1, b / 2);
    }
  }

  lemma {:induction false} BitOrCommutes(a: nat, b: nat)
    ensures BitOr(a, b) == BitOr(b, a)
    decreases a + b
  {
    if a != 0 && b != 0 {
      BitOrCommutes(a / 2, b / 2);
    }
  }

  /** `(h << k) | b` for the shift amounts the codec uses. */
  lemma OrShifted(h: nat, m: nat, b: nat)
    requires m in {4, 16, 64, 4096}
    requires b < m
    ensures BitOr(h * m, b) == h * m + b
  {
    if m == 4 { assert Pow2(2) == 4; BitOrDisjoint(h, 2, b); }
    else if m == 16 { assert Pow2(4) == 16; BitOrDisjoint(h, 4, b); }
    else if m == 64 { assert Pow2(6) == 64; BitOrDisjoint(h, 6, b); }
    else { assert Pow2(12) == 4096; BitOrDisjoint(h, 12, b); }
  }
}
