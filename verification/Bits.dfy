/** Powers of two and bit lengths. */
module Bits {
  import opened Bytes
  import opened Arith

  /** Bits up to and including the highest set one: 64 minus the leading-zero count. */
  function BitLength(n: nat): nat {
    if n == 0 then 0 else 1 + BitLength(n / 2)
  }

  function Pow2(k: nat): (p: nat)
    ensures p >= 1
  {
    if k == 0 then 1 else 2 * Pow2(k - 1)
  }

  lemma {:induction false} BitLengthBound(n: nat, k: nat)
    ensures BitLength(n) <= k <==> n < Pow2(k)
  {
    if n > 0 && k > 0 { BitLengthBound(n / 2, k - 1); }
  }

  lemma {:induction false} Pow2Add(a: nat, b: nat)
    ensures Pow2(a + b) == Pow2(a) * Pow2(b)
  {
    if a > 0 {
      Pow2Add(a - 1, b);
      assert 2 * (Pow2(a - 1) * Pow2(b)) == (2 * Pow2(a - 1)) * Pow2(b);
    }
  }

  lemma Pow2Values()
    ensures Pow2(8) == 256 && Pow2(63) == TWO_64 / 2 && Pow2(64) == TWO_64
  {
    assert Pow2(4) == 16;
    Pow2Add(4, 4);
    Pow2Add(8, 8);
    Pow2Add(16, 16);
    Pow2Add(32, 32);
    assert Pow2(64) == 2 * Pow2(63);
  }

  /** Shifts by `s` and by `64 - s` together move a whole limb. */
  lemma Complement(s: nat)
    requires s <= 64
    ensures Pow2(s) * Pow2(64 - s) == TWO_64
  {
    Pow2Add(s, 64 - s);
    Pow2Values();
  }

  /** The number of leading zeros of a 64-bit word, as `__builtin_clzll` counts them. */
  function LeadingZeros(x: nat): nat
    requires 0 < x < TWO_64
  {
    Pow2Values();
    BitLengthBound(x, 64);
    64 - BitLength(x)
  }

  /** Shifting by the leading zeros puts the highest bit on top. */
  lemma Normalizes(x: nat)
    requires 0 < x < TWO_64
    ensures LeadingZeros(x) <= 63
    ensures TWO_64 / 2 <= x * Pow2(LeadingZeros(x)) < TWO_64
  {
    var k := BitLength(x);
    Pow2Values();
    BitLengthBound(x, 64);
    BitLengthBound(x, k);
    BitLengthBound(x, k - 1);
    var p := Pow2(64 - k);
    Complement(k);
    MulLt(x, Pow2(k), p);
    MulLe(Pow2(k - 1), x, p);
    MulAssoc(2, Pow2(k - 1), p);
  }
}
