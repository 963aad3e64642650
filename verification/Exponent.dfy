/** EXP by square-and-multiply, with its shortcuts. */
module Exponent {
  import opened Arith
  import opened Bits
  import opened Limbs
  import opened UInt256
  import LimbShift

  function Pow(b: nat, e: nat): nat {
    if e == 0 then 1 else b * Pow(b, e - 1)
  }

  /** The 256-bit word a number wraps to. */
  function Wrapped(n: nat): (w: nat)
    ensures w < TWO_256
  {
    n % TWO_256
  }

  /** Two numbers that differ by a multiple of 2^256 wrap alike. */
  lemma WrapsAlike(n: nat, m: nat, k: int)
    requires n == m + k * TWO_256
    ensures Wrapped(n) == Wrapped(m)
  {
    DivMod(m, TWO_256);
    Wrap(n, m % TWO_256, m / TWO_256 + k);
  }

  lemma WrapsFactor(a: nat, b: nat)
    ensures Wrapped(Wrapped(a) * b) == Wrapped(a * b)
  {
    var q := a / TWO_256;
    DivMod(a, TWO_256);
    MulAdd(q * TWO_256, Wrapped(a), b);
    MulAssoc(TWO_256, q, b);
    MulAssoc(q, b, TWO_256);
    WrapsAlike(a * b, Wrapped(a) * b, q * b);
  }

  lemma {:induction false} WrapsPower(b: nat, e: nat)
    ensures Wrapped(Pow(Wrapped(b), e)) == Wrapped(Pow(b, e))
  {
    if e > 0 {
      WrapsPower(b, e - 1);
      WrapsFactor(b, Pow(Wrapped(b), e - 1));
      WrapsPowerFactor(b, Pow(Wrapped(b), e - 1), Pow(b, e - 1));
    }
  }

  lemma {:induction false} PowAdd(b: nat, e: nat, f: nat)
    ensures Pow(b, e + f) == Pow(b, e) * Pow(b, f)
  {
    if e > 0 {
      PowAdd(b, e - 1, f);
      MulAssoc(b, Pow(b, e - 1), Pow(b, f));
    }
  }

  lemma {:induction false} PowTimes(a: nat, b: nat, e: nat)
    ensures Pow(a * b, e) == Pow(a, e) * Pow(b, e)
  {
    if e > 0 {
      PowTimes(a, b, e - 1);
      Regroup(a, b, Pow(a, e - 1), Pow(b, e - 1));
    }
  }

  lemma Regroup(a: int, b: int, x: int, y: int)
    ensures (a * b) * (x * y) == (a * x) * (b * y)
  {
    MulAssoc(a, b, x * y);
    MulAssoc(b, x, y);
    assert b * x == x * b;
    MulAssoc(x, b, y);
    MulAssoc(a, x, b * y);
  }

  /** Squaring the base halves the exponent. */
  lemma Squared(m: nat, h: nat, bit: nat)
    requires bit <= 1
    ensures Pow(m, 2 * h + bit) == (if bit == 1 then m else 1) * Pow(m * m, h)
  {
    PowAdd(m, h, h);
    PowTimes(m, m, h);
    assert h + h == 2 * h;
  }

  /** What is still to be multiplied in, given the result so far, the multiplier and the exponent. */
  function Pending(result: nat, multiplier: nat, e: nat): nat {
    Wrapped(result * Pow(multiplier, e))
  }

  lemma PendingStep(result: nat, m: nat, e: nat, result': nat, m': nat)
    requires e > 0 && m' == Wrapped(m * m)
    requires result' == if e % 2 == 1 then Wrapped(result * m) else result
    ensures Pending(result', m', e / 2) == Pending(result, m, e)
  {
    var h, bit := e / 2, e % 2;
    var p := Pow(m * m, h);
    Squared(m, h, bit);
    assert 2 * h + bit == e;
    MultiplyIn(result, if bit == 1 then m else 1, result', p);
    WrapsPower(m * m, h);
    WrapsPowerFactor(result', Pow(m', h), p);
  }

  /** A factor may be multiplied into the result before or after wrapping. */
  lemma MultiplyIn(result: nat, factor: nat, result': nat, p: nat)
    requires result' == Wrapped(result * factor) || (factor == 1 && result' == result)
    ensures Wrapped(result' * p) == Wrapped(result * (factor * p))
  {
    MulAssoc(result, factor, p);
    WrapsFactor(result * factor, p);
  }

  lemma WrapsPowerFactor(r: nat, x: nat, y: nat)
    requires Wrapped(x) == Wrapped(y)
    ensures Wrapped(r * x) == Wrapped(r * y)
  {
    WrapsFactor(x, r);
    WrapsFactor(y, r);
    assert x * r == r * x && y * r == r * y;
  }

  lemma TwosOfEven(half: nat, n: nat)
    requires n == 256
    ensures Pow(2 * half, n) == TWO_256 * Pow(half, n)
  {
    PowTimes(2, half, n);
    PowOfTwo(n);
    WordSize(n);
  }

  lemma WordSize(n: nat)
    requires n == 256
    ensures Pow2(n) == TWO_256
  {
    Pow2Values();
    Pow2Add(64, 64);
    Pow2Add(128, 128);
  }

  /** An even base raised above 255 has at least 256 factors two. */
  lemma EvenVanishes(b: nat, e: nat, n: nat)
    requires b % 2 == 0 && n == 256 && e >= n
    ensures Wrapped(Pow(b, e)) == 0
  {
    var p, rest := Pow(b / 2, n), Pow(b, e - n);
    PowAdd(b, n, e - n);
    TwosOfEven(b / 2, n);
    assert 2 * (b / 2) == b;
    MulAssoc(TWO_256, p, rest);
    WrapsAlike(Pow(b, e), 0, p * rest);
  }

  lemma {:induction false} PowOfTwo(e: nat)
    ensures Pow(2, e) == Pow2(e)
  {
    if e > 0 { PowOfTwo(e - 1); }
  }

  lemma {:induction false} PowTrivial(b: nat, e: nat)
    requires b <= 1 && e > 0
    ensures Pow(b, e) == b
  {
    if e > 1 { PowTrivial(b, e - 1); }
  }

  method SquareAndMultiply(base: Word, exponent: Word) returns (result: Word)
    ensures Val(result) == Wrapped(Pow(Val(base), Val(exponent)))
  {
    SmallValue(1);
    SmallValue(0);
    result := Small(1);
    var multiplier, exp := base, exponent;
    while exp != ZERO
      invariant Pending(Val(result), Val(multiplier), Val(exp)) == Wrapped(Pow(Val(base), Val(exponent)))
      decreases Val(exp)
    {
      ghost var before, m, e := Val(result), Val(multiplier), Val(exp);
      Positive(exp);
      LowBit(exp);
      if exp[0] % 2 == 1 {
        result := Mul(result, multiplier);
      }
      multiplier := Mul(multiplier, multiplier);
      exp := LimbShift.ShiftRight(exp, 1);
      HalfPower(e);
      PendingStep(before, m, e, Val(result), Val(multiplier));
    }
    WordValue(result);
    Finished(Val(result), Val(multiplier));
  }

  lemma HalfPower(e: nat)
    ensures e / Pow2(1) == e / 2
  {
    assert Pow2(1) == 2 * Pow2(0);
  }

  lemma Finished(result: nat, m: nat)
    requires result < TWO_256
    ensures Pending(result, m, 0) == result
  {
    assert result * Pow(m, 0) == result;
    Wrap(result, result, 0);
  }

  lemma Positive(w: Word)
    requires w != ZERO
    ensures Val(w) > 0
  {
    SmallValue(0);
    if Val(w) == 0 { ValInjective(w, ZERO); }
  }

  lemma LowBit(w: Word)
    ensures w[0] % 2 == Val(w) % 2
  {
    WordValue(w);
    Even(w[0], w[1] + BASE * (w[2] + BASE * w[3]));
  }

  lemma Even(x: int, y: int)
    ensures (x + BASE * y) % 2 == x % 2
  {
    assert x + BASE * y == x + 2 * ((BASE / 2) * y);
  }

  /** EXP is the wrapped power; the shortcuts agree with it. */
  method Exp(base: Word, exponent: Word) returns (r: Word)
    ensures Val(r) == Wrapped(Pow(Val(base), Val(exponent)))
  {
    SmallValue(0);
    SmallValue(1);
    LowBit(base);
    if exponent == ZERO {
      r := Small(1);
    } else if base == ZERO || base == Small(1) {
      Positive(exponent);
      PowTrivial(Val(base), Val(exponent));
      r := base;
    } else if base[0] % 2 == 0
           && (exponent[0] > 255 || exponent[1] != 0 || exponent[2] != 0 || exponent[3] != 0) {
      WordValue(exponent);
      EvenVanishes(Val(base), Val(exponent), 256);
      r := ZERO;
    } else {
      r := SquareAndMultiply(base, exponent);
    }
  }
}
