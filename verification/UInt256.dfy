/** 256-bit words as four limbs: carry chains, comparison, wrapping product and division. */
module UInt256 {
  import opened Arith
  import opened Limbs
  import LongDivision
  import Reciprocal

  const TWO_256: int := BASE * BASE * BASE * BASE

  type Word = w: Limbs | |w| == 4 witness [0, 0, 0, 0]

  const ZERO: Word := [0, 0, 0, 0]

  function Small(x: u64): Word {
    [x, 0, 0, 0]
  }

  /** The limbs of a word spelled out, with the bound every caller needs. */
  lemma WordValue(w: Word)
    ensures Val(w) == w[0] + BASE * (w[1] + BASE * (w[2] + BASE * w[3]))
    ensures 0 <= Val(w) < TWO_256
  {
    assert w == [w[0], w[1], w[2], w[3]];
    Val4(w[0], w[1], w[2], w[3]);
  }

  lemma WordOf(a: u64, b: u64, c: u64, d: u64)
    ensures Val([a, b, c, d]) == a + BASE * (b + BASE * (c + BASE * d))
    ensures 0 <= Val([a, b, c, d]) < TWO_256
  {
    Val4(a, b, c, d);
  }

  lemma SmallValue(x: u64)
    ensures Val(Small(x)) == x
  {
    WordOf(x, 0, 0, 0);
  }

  // ---------------------------------------------------------------------------
  // Carry chains
  // ---------------------------------------------------------------------------

  method AddLimb(x: u64, y: u64, carry: u64) returns (r: u64, out: u64)
    requires carry <= 1
    ensures r + BASE * out == x + y + carry && out <= 1
  {
    var sum: int := x as int + y + carry;
    r, out := sum % BASE, sum / BASE;
  }

  method SubLimb(x: u64, y: u64, borrow: u64) returns (r: u64, out: u64)
    requires borrow <= 1
    ensures r as int - BASE * out == x as int - y - borrow && out <= 1
  {
    var diff: int := x as int - y - borrow;
    r, out := diff % BASE, if diff < 0 then 1 else 0;
  }

  /** Addition with the carry out of the top limb. */
  method AddCarry(a: Word, b: Word) returns (r: Word, carry: u64)
    ensures Val(r) + TWO_256 * carry == Val(a) + Val(b) && carry <= 1
  {
    var r0, c0 := AddLimb(a[0], b[0], 0);
    var r1, c1 := AddLimb(a[1], b[1], c0);
    var r2, c2 := AddLimb(a[2], b[2], c1);
    var r3, c3 := AddLimb(a[3], b[3], c2);
    r, carry := [r0, r1, r2, r3], c3;
    WordValue(a);
    WordValue(b);
    WordOf(r0, r1, r2, r3);
    CarryChain(a[0], a[1], a[2], a[3], b[0], b[1], b[2], b[3], r0, r1, r2, r3, c0, c1, c2, c3);
  }

  lemma CarryChain(a0: int, a1: int, a2: int, a3: int, b0: int, b1: int, b2: int, b3: int,
                   r0: int, r1: int, r2: int, r3: int, c0: int, c1: int, c2: int, c3: int)
    requires r0 + BASE * c0 == a0 + b0 && r1 + BASE * c1 == a1 + b1 + c0
    requires r2 + BASE * c2 == a2 + b2 + c1 && r3 + BASE * c3 == a3 + b3 + c2
    ensures r0 + BASE * (r1 + BASE * (r2 + BASE * r3)) + TWO_256 * c3
         == a0 + BASE * (a1 + BASE * (a2 + BASE * a3)) + b0 + BASE * (b1 + BASE * (b2 + BASE * b3))
  {}

  method Add(a: Word, b: Word) returns (r: Word)
    ensures Val(r) == (Val(a) + Val(b)) % TWO_256
  {
    var carry;
    r, carry := AddCarry(a, b);
    WordValue(r);
    DivModUnique(Val(a) + Val(b), TWO_256, carry, Val(r));
  }

  method Sub(a: Word, b: Word) returns (r: Word)
    ensures Val(r) == (Val(a) - Val(b)) % TWO_256
  {
    var r0, c0 := SubLimb(a[0], b[0], 0);
    var r1, c1 := SubLimb(a[1], b[1], c0);
    var r2, c2 := SubLimb(a[2], b[2], c1);
    var r3, c3 := SubLimb(a[3], b[3], c2);
    r := [r0, r1, r2, r3];
    WordValue(a);
    WordValue(b);
    WordOf(r0, r1, r2, r3);
    CarryChain(b[0], b[1], b[2], b[3], r0, r1, r2, r3, a[0], a[1], a[2], a[3], c0, c1, c2, c3);
    Wrap(Val(a) - Val(b), Val(r), 0 - c3 as int);
  }

  /** A value in range congruent to `n` is `n` modulo the word size. */
  lemma Wrap(n: int, r: int, k: int)
    requires n == r + TWO_256 * k && 0 <= r < TWO_256
    ensures n % TWO_256 == r
  {
    var q, rest := n / TWO_256, n % TWO_256;
    assert TWO_256 * (q - k) == r - rest;
  }

  /** The upper limbs decide a comparison unless they are equal. */
  lemma UpperDecides(x: int, xs: int, y: int, ys: int)
    requires 0 <= x < BASE && 0 <= y < BASE
    ensures x + BASE * xs < y + BASE * ys <==> xs < ys || (xs == ys && x < y)
    ensures x + BASE * xs == y + BASE * ys <==> xs == ys && x == y
  {}

  method Less(a: Word, b: Word) returns (r: bool)
    ensures r <==> Val(a) < Val(b)
  {
    WordValue(a);
    WordValue(b);
    ghost var as2, bs2 := a[2] + BASE * a[3], b[2] + BASE * b[3];
    ghost var as1, bs1 := a[1] + BASE * as2, b[1] + BASE * bs2;
    UpperDecides(a[2], a[3], b[2], b[3]);
    UpperDecides(a[1], as2, b[1], bs2);
    UpperDecides(a[0], as1, b[0], bs1);
    if a[3] != b[3] { return a[3] < b[3]; }
    if a[2] != b[2] { return a[2] < b[2]; }
    if a[1] != b[1] { return a[1] < b[1]; }
    return a[0] < b[0];
  }

  // ---------------------------------------------------------------------------
  // Wrapping product
  // ---------------------------------------------------------------------------

  lemma ProductRow(x: int, b0: int, b1: int, b2: int, b3: int, b: int)
    requires b == b0 + BASE * (b1 + BASE * (b2 + BASE * b3))
    ensures x * b == x * b0 + BASE * (x * b1) + BASE * BASE * (x * b2) + BASE * BASE * BASE * (x * b3)
  {
    MulAdd(b0, BASE * (b1 + BASE * (b2 + BASE * b3)), x);
    MulAdd(b1, BASE * (b2 + BASE * b3), x);
    MulAdd(b2, BASE * b3, x);
  }

  /** What the code keeps of the sixteen partial products, and that the rest is a multiple of
      2^256. */
  lemma ProductColumns(a0: int, a1: int, a2: int, a3: int, b0: int, b1: int, b2: int, b3: int, a: int, b: int)
      returns (above: int)
    requires a == a0 + BASE * (a1 + BASE * (a2 + BASE * a3))
    requires b == b0 + BASE * (b1 + BASE * (b2 + BASE * b3))
    ensures a * b == a0 * b0 + BASE * (a0 * b1 + a1 * b0) + BASE * BASE * (a0 * b2 + a1 * b1 + a2 * b0)
                     + BASE * BASE * BASE * (a0 * b3 + a1 * b2 + a2 * b1 + a3 * b0) + TWO_256 * above
  {
    above := a1 * b3 + a2 * b2 + a3 * b1 + BASE * (a2 * b3 + a3 * b2) + BASE * BASE * (a3 * b3);
    ProductRow(a0, b0, b1, b2, b3, b);
    ProductRow(a1, b0, b1, b2, b3, b);
    ProductRow(a2, b0, b1, b2, b3, b);
    ProductRow(a3, b0, b1, b2, b3, b);
    ProductRow(b, a0, a1, a2, a3, a);
  }

  method Mul(a: Word, b: Word) returns (r: Word)
    ensures Val(r) == (Val(a) * Val(b)) % TWO_256
  {
    var a0: int, a1: int, a2: int, a3: int := a[0], a[1], a[2], a[3];
    var b0: int, b1: int, b2: int, b3: int := b[0], b[1], b[2], b[3];
    WordValue(a);
    WordValue(b);
    ghost var above := ProductColumns(a0, a1, a2, a3, b0, b1, b2, b3, Val(a), Val(b));
    r := AddColumns(a0 * b0, a0 * b1, a1 * b0, a0 * b2, a1 * b1, a2 * b0,
                    a0 * b3 + a1 * b2 + a2 * b1 + a3 * b0, Val(a) * Val(b), above);
  }

  /** Carrying from column to column loses only what leaves the top limb. */
  method AddColumns(p00: int, p01: int, p10: int, p02: int, p11: int, p20: int, top: int,
                    ghost product: int, ghost above: int) returns (r: Word)
    requires product == p00 + BASE * (p01 + p10) + BASE * BASE * (p02 + p11 + p20) + BASE * BASE * BASE * top
                        + TWO_256 * above
    ensures Val(r) == product % TWO_256
  {
    var col1 := p00 / BASE + p01 % BASE + p10 % BASE;
    var col2 := col1 / BASE + p01 / BASE + p10 / BASE + p02 % BASE + p11 % BASE + p20 % BASE;
    var col3 := col2 / BASE + p02 / BASE + p11 / BASE + p20 / BASE + top;
    r := [p00 % BASE, col1 % BASE, col2 % BASE, col3 % BASE];
    WordOf(p00 % BASE, col1 % BASE, col2 % BASE, col3 % BASE);
    Wrap(product, Val(r), col3 / BASE + above);
  }

  // ---------------------------------------------------------------------------
  // Division
  // ---------------------------------------------------------------------------

  /** What EVM division asks for: quotient and remainder, both zero on a zero divisor. */
  predicate Divided(a: int, b: int, q: int, r: int) {
    if b == 0 then q == 0 && r == 0 else a == q * b + r && 0 <= r < b
  }

  lemma ValZeros(s: Limbs)
    requires forall i :: 0 <= i < |s| ==> s[i] == 0
    ensures Val(s) == 0
  {}

  /** Limbs above the first `k`, all zero, do not count. */
  lemma ValTruncate(s: Limbs, k: nat)
    requires k <= |s| && forall i :: k <= i < |s| ==> s[i] == 0
    ensures Val(s) == Val(s[..k])
  {
    ValSplit(s, k);
    ValZeros(s[k..]);
  }

  function Zeros(k: nat): (z: Limbs)
    ensures |z| == k && Val(z) == 0
  {
    if k == 0 then [] else [0] + Zeros(k - 1)
  }

  function Padded(s: Limbs): (w: Word)
    requires |s| <= 4
  {
    s + Zeros(4 - |s|)
  }

  lemma PaddedValue(s: Limbs)
    requires |s| <= 4
    ensures Val(Padded(s)) == Val(s)
  {
    AppendZeros(s, Zeros(4 - |s|));
  }

  lemma AppendZeros(s: Limbs, z: Limbs)
    requires Val(z) == 0
    ensures Val(s + z) == Val(s)
  {
    ValConcat(s, z);
    assert PowBase(|s|) * 0 == 0;
  }

  method TopLimb(b: Word) returns (top: nat)
    requires Val(b) != 0
    ensures top < 4 && b[top] != 0 && forall i :: top < i < 4 ==> b[i] == 0
  {
    if b[3] != 0 { return 3; }
    if b[2] != 0 { return 2; }
    if b[1] != 0 { return 1; }
    WordValue(b);
    return 0;
  }

  /** The one-limb fast path and the general long division, after the trivial cases. */
  method DivideWord(a: Word, b: Word) returns (q: Word, r: Word)
    requires Val(b) != 0
    ensures Val(a) == Val(q) * Val(b) + Val(r) && Val(r) < Val(b)
  {
    var top := TopLimb(b);
    ValTruncate(b, top + 1);
    if top == 0 {
      assert b[..1] == [b[0]];
      Val1(b[0]);
      var rest;
      q, rest := Reciprocal.DivideByLimb(a, b[0]);
      r := Small(rest);
      SmallValue(rest);
    } else {
      var ql, rl := LongDivision.DivideLimbs(a, b[..top + 1]);
      PaddedValue(ql);
      PaddedValue(rl);
      q, r := Padded(ql), Padded(rl);
    }
  }

  method DivMod256(a: Word, b: Word) returns (q: Word, r: Word)
    ensures Divided(Val(a), Val(b), Val(q), Val(r))
  {
    WordValue(a);
    WordValue(b);
    SmallValue(0);
    if b == ZERO { return ZERO, ZERO; }
    var less := Less(a, b);
    if less { return ZERO, a; }
    if a[1] == 0 && a[2] == 0 && a[3] == 0 && b[1] == 0 && b[2] == 0 && b[3] == 0 {
      q, r := Small(a[0] / b[0]), Small(a[0] % b[0]);
      SmallValue(a[0] / b[0]);
      SmallValue(a[0] % b[0]);
      DivMod(a[0], b[0]);
    } else {
      q, r := DivideWord(a, b);
    }
  }
}
