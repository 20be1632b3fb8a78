/** Quotients and remainders, bitwise AND on naturals, and masking by a power of two. */
module Bits {
  function Pow2(k: nat): (p: nat)
    ensures 0 < p
  {
    if k == 0 then 1 else 2 * Pow2(k - 1)
  }

  ghost predicate IsPow2(n: nat) {
    exists k: nat :: n == Pow2(k)
  }

  function BitAnd(a: nat, b: nat): nat {
    if a == 0 || b == 0 then 0 else 2 * BitAnd(a / 2, b / 2) + (if a % 2 == 1 && b % 2 == 1 then 1 else 0)
  }

  /** Masking with `2^k - 1` is the remainder modulo `2^k`. */
  lemma {:induction false} MaskIsMod(x: nat, k: nat)
    ensures BitAnd(x, Pow2(k) - 1) == x % Pow2(k)
  {
    if k == 0 {
      assert x % 1 == 0;
    } else {
      var m := Pow2(k - 1);
      MaskIsMod(x / 2, k - 1);
      HalfMask(m);
      DoubleRemainder(x, m);
    }
  }

  lemma HalfMask(m: nat)
    requires 0 < m
    ensures (2 * m - 1) / 2 == m - 1 && (2 * m - 1) % 2 == 1
  {
  }

  lemma DoubleRemainder(x: nat, m: nat)
    requires 0 < m
    ensures x % (2 * m) == 2 * (x / 2 % m) + x % 2
  {
    var q, r := x / 2 / m, x / 2 % m;
    assert x / 2 == m * q + r;
    assert x == (2 * m) * q + (2 * r + x % 2);
    RemainderIs(x, 2 * m, q, 2 * r + x % 2);
  }

  lemma RemainderIs(x: int, d: nat, q: int, r: nat)
    requires r < d && x == d * q + r
    ensures x % d == r && x / d == q
  {
    var a, b := x / d, x % d;
    assert d * (a - q) == r - b;
    Multiple(d, a - q);
  }

  lemma Multiple(d: nat, t: int)
    ensures t >= 1 ==> d * t >= d
    ensures t <= -1 ==> d * t <= 0 - d
  {
  }

  /** `x | 1` */
  function WithBit0(x: nat): nat {
    if x % 2 == 0 then x + 1 else x
  }

  /** The two 32-bit writes of a 64-bit register: low half, then high half. */
  function Halves(x: nat): (nat, nat) {
    (x % 0x1_0000_0000, x / 0x1_0000_0000)
  }
}
