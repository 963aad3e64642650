/** Shifting limb strings by less than a limb, with the carry passed from limb to limb. The two
    parts joined by a bitwise or never share a bit, so the model adds them. */
module LimbShift {
  import opened Arith
  import opened Bits
  import opened Limbs

  /** `x * p` splits at the limb boundary into `x / q` above and `(x % q) * p` below. */
  lemma ShiftLimb(x: u64, p: int, q: int)
    requires p >= 1 && q >= 1 && p * q == BASE
    ensures x * p == (x / q) * BASE + (x % q) * p
    ensures (x * p) % BASE == (x % q) * p
    ensures 0 <= (x % q) * p <= BASE - p
    ensures 0 <= x / q < p
  {
    DivMod(x, q);
    MulAdd((x / q) * q, x % q, p);
    MulAssoc(x / q, q, p);
    MulLe(x % q, q - 1, p);
    MulLe(0, x % q, p);
    MulAdd(q, -1, p);
    DivModUnique(x * p, BASE, x / q, (x % q) * p);
    if x / q >= p { MulLe(p, x / q, q); }
  }

  // ---------------------------------------------------------------------------
  // Left
  // ---------------------------------------------------------------------------

  /** The limbs of `s` shifted left by `p == 2^shift`, with `carry` coming in from below. */
  function Left(s: Limbs, p: int, q: int, carry: int): (r: Limbs)
    requires p >= 1 && q >= 1 && p * q == BASE && 0 <= carry < p
    ensures |r| == |s|
  {
    if |s| == 0 then []
    else [LeftLimb(s[0], p, q, carry)] + Left(s[1..], p, q, LeftCarry(s[0], p, q))
  }

  function LeftLimb(x: u64, p: int, q: int, carry: int): (r: u64)
    requires p >= 1 && q >= 1 && p * q == BASE && 0 <= carry < p
  {
    ShiftLimb(x, p, q);
    (x * p) % BASE + carry
  }

  function LeftCarry(x: u64, p: int, q: int): (r: int)
    requires p >= 1 && q >= 1 && p * q == BASE
    ensures 0 <= r < p
  {
    ShiftLimb(x, p, q);
    x / q
  }

  /** What is shifted out at the top. */
  function LeftOut(s: Limbs, p: int, q: int, carry: int): (c: int)
    requires p >= 1 && q >= 1 && p * q == BASE && 0 <= carry < p
    ensures 0 <= c < p
  {
    if |s| == 0 then carry else LeftOut(s[1..], p, q, LeftCarry(s[0], p, q))
  }

  lemma {:induction false} LeftValue(s: Limbs, p: int, q: int, carry: int)
    requires p >= 1 && q >= 1 && p * q == BASE && 0 <= carry < p
    ensures Val(Left(s, p, q, carry)) + PowBase(|s|) * LeftOut(s, p, q, carry) == Val(s) * p + carry
  {
    if |s| > 0 {
      var x, rest := s[0], s[1..];
      ShiftLimb(x, p, q);
      LeftValue(rest, p, q, x / q);
      LeftLinear(x * p, (x * p) % BASE, x / q, carry, Val(rest), p, Val(rest) * p,
                 Val(Left(rest, p, q, x / q)), PowBase(|rest|), LeftOut(rest, p, q, x / q),
                 PowBase(|rest|) * LeftOut(rest, p, q, x / q));
      assert Left(s, p, q, carry)[1..] == Left(rest, p, q, x / q);
      MulAdd(x, BASE * Val(rest), p);
      MulAssoc(BASE, Val(rest), p);
      MulAssoc(BASE, PowBase(|rest|), LeftOut(rest, p, q, x / q));
    }
  }

  lemma LeftLinear(xp: int, low: int, high: int, carry: int, rest: int, p: int, restP: int,
                   left: int, pow: int, out: int, powOut: int)
    requires xp == high * BASE + low
    requires left + powOut == restP + high
    ensures (low + carry) + BASE * left + BASE * powOut == xp + BASE * restP + carry
  {}

  /** The normalising loop. */
  method LeftLoop(s: Limbs, p: int, q: int) returns (r: Limbs, carry: int)
    requires p >= 1 && q >= 1 && p * q == BASE
    ensures r == Left(s, p, q, 0) && carry == LeftOut(s, p, q, 0)
  {
    carry, r := 0, [];
    var i := 0;
    assert s[0..] == s;
    while i < |s|
      invariant 0 <= i <= |s| && 0 <= carry < p
      invariant r + Left(s[i..], p, q, carry) == Left(s, p, q, 0)
      invariant LeftOut(s[i..], p, q, carry) == LeftOut(s, p, q, 0)
    {
      assert s[i..][1..] == s[i + 1..];
      r := r + [LeftLimb(s[i], p, q, carry)];
      carry := LeftCarry(s[i], p, q);
      i := i + 1;
    }
  }

  method ShiftLeft(s: Limbs, shift: nat) returns (r: Limbs, out: int)
    requires 0 < shift < 64
    ensures |r| == |s| && 0 <= out < Pow2(shift)
    ensures Val(r) + PowBase(|s|) * out == Val(s) * Pow2(shift)
  {
    var p, q := Pow2(shift), Pow2(64 - shift);
    Complement(shift);
    r, out := LeftLoop(s, p, q);
    LeftValue(s, p, q, 0);
  }

  // ---------------------------------------------------------------------------
  // Right
  // ---------------------------------------------------------------------------

  /** The limbs of `s` shifted right by `p == 2^shift`: each limb takes in the low bits of the
      one above it. */
  function Right(s: Limbs, p: int, q: int): (r: Limbs)
    requires p >= 1 && q >= 1 && p * q == BASE
    ensures |r| == |s|
  {
    if |s| == 0 then [] else [RightLimb(s, p, q)] + Right(s[1..], p, q)
  }

  function RightLimb(s: Limbs, p: int, q: int): (r: u64)
    requires p >= 1 && q >= 1 && p * q == BASE && |s| > 0
  {
    ShiftLimb(s[0], q, p);
    if |s| == 1 then s[0] / p
    else
      ShiftLimb(s[1], q, p);
      s[0] / p + (s[1] * q) % BASE
  }

  lemma {:induction false} RightValue(s: Limbs, p: int, q: int)
    requires p >= 1 && q >= 1 && p * q == BASE
    ensures Val(Right(s, p, q)) * p + (if |s| == 0 then 0 else s[0] % p) == Val(s)
  {
    if |s| > 0 {
      var rest := s[1..];
      RightValue(rest, p, q);
      var low := if |s| == 1 then 0 else s[1] % p;
      DivMod(s[0], p);
      if |s| > 1 {
        ShiftLimb(s[1], q, p);
        MulAssoc(s[1] % p, q, p);
      }
      var limb := RightLimb(s, p, q);
      assert limb == s[0] / p + low * q;
      MulAdd(s[0] / p, low * q, p);
      MulAssoc(low, q, p);
      assert Right(s, p, q)[1..] == Right(rest, p, q);
      MulAdd(limb, BASE * Val(Right(rest, p, q)), p);
      MulAssoc(BASE, Val(Right(rest, p, q)), p);
    }
  }

  method RightLoop(s: Limbs, p: int, q: int) returns (r: Limbs)
    requires p >= 1 && q >= 1 && p * q == BASE
    ensures r == Right(s, p, q)
  {
    r := [];
    var i := 0;
    assert s[0..] == s;
    while i < |s|
      invariant 0 <= i <= |s|
      invariant r + Right(s[i..], p, q) == Right(s, p, q)
    {
      assert s[i..][1..] == s[i + 1..];
      r := r + [RightLimb(s[i..], p, q)];
      i := i + 1;
    }
  }

  method ShiftRight(s: Limbs, shift: nat) returns (r: Limbs)
    requires 0 < shift < 64
    ensures |r| == |s|
    ensures Val(r) == Val(s) / Pow2(shift)
  {
    var p, q := Pow2(shift), Pow2(64 - shift);
    Complement(shift);
    r := RightLoop(s, p, q);
    RightValue(s, p, q);
    DivModUnique(Val(s), p, Val(r), if |s| == 0 then 0 else s[0] % p);
  }
}
