/** Division of limb strings: normalise, one digit at a time, denormalise. */
module LongDivision {
  import opened Arith
  import opened Bits
  import opened Limbs
  import opened LimbShift
  import opened KnuthD

  /** Digits above `j` are final: `qs` are those digits, the limbs of `u` from `j` on hold the
      running remainder, and nothing of the dividend `d` is lost. */
  ghost predicate Progress(d: int, u: Limbs, j: nat, n: nat, qs: Limbs, v: int) {
    && j + n <= |u|
    && Val(u[j..j + n]) < v
    && (forall k | j + n <= k < |u| :: u[k] == 0)
    && d == Val(u[..j + n]) + PowBase(j) * (Val(qs) * v)
  }

  /** The next digit sees a dividend below BASE times the divisor. */
  lemma NextDigitFits(u: Limbs, j: nat, n: nat, v: int)
    requires 1 <= j && j + n <= |u| && Val(u[j..j + n]) < v
    ensures Val(u[j - 1..j + n]) < BASE * v
  {
    assert u[j - 1..j + n] == [u[j - 1]] + u[j..j + n];
  }

  /** A remainder below an `n`-limb divisor leaves limb `n` zero. */
  lemma TopLimbCleared(r: Limbs, n: nat, v: int)
    requires |r| == n + 1 && Val(r) < v < PowBase(n)
    ensures r[n] == 0 && Val(r[..n]) == Val(r)
  {
    assert r == r[..n] + [r[n]];
    ValAppend(r[..n], r[n]);
    TopZero(Val(r[..n]), PowBase(n), r[n]);
  }

  lemma TopZero(low: int, p: int, x: int)
    requires low >= 0 && x >= 0 && p >= 1 && low + p * x < p
    ensures x == 0 && low + p * x == low
  {
    if x >= 1 { MulLe(1, x, p); }
  }

  lemma ProgressStep(d: int, before: Limbs, after: Limbs, j: nat, n: nat, qs: Limbs, q: u64, v: int)
    requires 1 <= j && |before| == |after| && Progress(d, before, j, n, qs, v)
    requires v < PowBase(n)
    requires forall k | 0 <= k < |before| && !(j - 1 <= k <= j - 1 + n) :: after[k] == before[k]
    requires DigitDone(Val(before[j - 1..j + n]), Val(after[j - 1..j + n]), q, v)
    ensures Progress(d, after, j - 1, n, [q] + qs, v)
  {
    var i := j - 1;
    var r := after[i..j + n];
    TopLimbCleared(r, n, v);
    assert r[..n] == after[i..i + n] && r[n] == after[i + n];
    ProgressValue(d, before, after, i, n, qs, q, v, Val(r));
  }

  lemma ProgressValue(d: int, before: Limbs, after: Limbs, i: nat, n: nat, qs: Limbs, q: u64, v: int, r: int)
    requires i + 1 + n <= |before| == |after| && before[..i] == after[..i]
    requires d == Val(before[..i + 1 + n]) + PowBase(i + 1) * (Val(qs) * v)
    requires Val(before[i..i + 1 + n]) == q * v + r && Val(after[i..i + n]) == r
    ensures d == Val(after[..i + n]) + PowBase(i) * (Val([q] + qs) * v)
  {
    var low := before[..i];
    assert before[..i + 1 + n] == low + before[i..i + 1 + n];
    ValConcat(low, before[i..i + 1 + n]);
    assert after[..i + n] == low + after[i..i + n];
    ValConcat(low, after[i..i + n]);
    assert ([q] + qs)[1..] == qs;
    Account(PowBase(i), PowBase(i + 1), Val(low), Val(before[i..i + 1 + n]), r, q, v, Val(qs), Val([q] + qs));
  }

  lemma Account(p: int, pNext: int, low: int, before: int, r: int, q: int, v: int, qs: int, qAll: int)
    requires before == q * v + r
    requires pNext == BASE * p && qAll == q + BASE * qs
    ensures (low + p * before) + pNext * (qs * v) == (low + p * r) + p * (qAll * v)
  {
    assert p * before == p * (q * v) + p * r;
    assert (q + BASE * qs) * v == q * v + BASE * (qs * v);
    assert p * (q * v + BASE * (qs * v)) == p * (q * v) + (BASE * p) * (qs * v);
  }

  method NextDigit(u: array<u64>, j: nat, v: Limbs, ghost d: int, ghost qs: Limbs) returns (digit: u64)
    requires |v| >= 1 && v[|v| - 1] >= BASE / 2 && 1 <= j
    requires Progress(d, u[..], j, |v|, qs, Val(v))
    modifies u
    ensures Progress(d, u[..], j - 1, |v|, [digit] + qs, Val(v))
  {
    ghost var before := u[..];
    NextDigitFits(before, j, |v|, Val(v));
    assert u[j - 1..j - 1 + |v| + 1] == before[j - 1..j + |v|];
    digit := DivideDigit(u, j - 1, v);
    ghost var after := u[..];
    assert u[j - 1..j - 1 + |v| + 1] == after[j - 1..j + |v|];
    ValBound(v);
    ProgressStep(d, before, after, j, |v|, qs, digit, Val(v));
  }

  /** The main loop, from the top digit down. */
  method DivideDigits(u: array<u64>, v: Limbs) returns (q: Limbs)
    requires |v| >= 1 && v[|v| - 1] >= BASE / 2 && u.Length >= |v| + 1
    requires Val(u[u.Length - |v|..]) < Val(v)
    modifies u
    ensures |q| == u.Length - |v|
    ensures Val(old(u[..])) == Val(u[..|v|]) + Val(q) * Val(v)
    ensures Val(u[..|v|]) < Val(v)
  {
    var n := |v|;
    ghost var d := Val(u[..]);
    ValBound(v);
    q := [];
    var j := u.Length - n;
    assert u[..] == u[..][..j + n] && u[..][j..j + n] == u[j..];
    while j > 0
      invariant 0 <= j <= u.Length - n && |q| == u.Length - n - j
      invariant Progress(d, u[..], j, n, q, Val(v))
    {
      var digit := NextDigit(u, j, v, d, q);
      q := [digit] + q;
      j := j - 1;
    }
    assert u[..][..0 + n] == u[..n] == u[..][0..0 + n];
  }

  // ---------------------------------------------------------------------------
  // D1 and D8: normalisation
  // ---------------------------------------------------------------------------

  /** A number and its top limb. */
  lemma TopLimb(s: Limbs)
    requires |s| >= 1
    ensures var p := PowBase(|s| - 1);
            s[|s| - 1] * p <= Val(s) < (s[|s| - 1] + 1) * p
  {
    var n := |s| - 1;
    assert s == s[..n] + [s[n]];
    ValAppend(s[..n], s[n]);
    ValBound(s[..n]);
    MulAdd(s[n], 1, PowBase(n));
  }

  /** The divisor shifted by the leading zeros of its top limb: nothing falls out, and the new top
      limb has its high bit set. */
  lemma NormalizedDivisor(d: Limbs, v: Limbs, out: int, p: int, q: int)
    requires |d| == |v| >= 1 && p >= 1 && q >= 1 && p * q == BASE
    requires d[|d| - 1] < q && BASE / 2 <= d[|d| - 1] * p
    requires 0 <= out && Val(v) + PowBase(|d|) * out == Val(d) * p
    ensures out == 0 && v[|v| - 1] >= BASE / 2
  {
    var n := |d| - 1;
    TopLimb(d);
    TopLimb(v);
    var dp := Val(d) * p;
    NormalizedValue(d[n], PowBase(n), PowBase(n + 1), Val(d), p, q, dp);
    TopZero(Val(v), PowBase(n + 1), out);
    HighTop(v[n], PowBase(n), dp);
  }

  lemma HighTop(top: int, w: int, x: int)
    requires w >= 1 && BASE / 2 * w <= x < (top + 1) * w
    ensures top >= BASE / 2
  {
    if top < BASE / 2 { MulLe(top + 1, BASE / 2, w); }
  }

  lemma NormalizedValue(top: int, w: int, wNext: int, d: int, p: int, q: int, dp: int)
    requires p >= 1 && q >= 1 && w >= 1 && p * q == BASE && wNext == BASE * w && dp == d * p
    requires 0 <= top < q && BASE / 2 <= top * p
    requires top * w <= d < (top + 1) * w
    ensures BASE / 2 * w <= dp < wNext
  {
    MulLe(top + 1, q, p);
    MulLt(d, (top + 1) * w, p);
    MulLe(top * w, d, p);
    Swap(top + 1, w, p);
    Swap(top, w, p);
    MulLe((top + 1) * p, BASE, w);
    MulLe(BASE / 2, top * p, w);
  }

  lemma Swap(x: int, w: int, p: int)
    ensures (x * w) * p == (x * p) * w
  {
    MulAssoc(x, w, p);
    MulAssoc(x, p, w);
  }

  /** The first digit already sees a small enough dividend. */
  lemma UpperPartFits(upper: Limbs, v: Limbs)
    requires |upper| == |v| >= 1 && upper[|v| - 1] < v[|v| - 1]
    ensures Val(upper) < Val(v)
  {
    TopLimb(upper);
    TopLimb(v);
    MulLe(upper[|v| - 1] + 1, v[|v| - 1], PowBase(|v| - 1));
  }

  /** Undoing the normalisation of the remainder. */
  lemma Denormalized(a: int, d: int, p: int, q: int, rest: int)
    requires p >= 1 && d >= 1 && a >= 0
    requires a * p == rest + q * (d * p) && 0 <= rest < d * p
    ensures a == q * d + rest / p && 0 <= rest / p < d
  {
    var r := a - q * d;
    MulAssoc(q, d, p);
    MulAdd(a, -(q * d), p);
    assert (-(q * d)) * p == -((q * d) * p);
    assert r * p == rest;
    if r < 0 { MulLe(r, -1, p); }
    if r >= d { MulLe(d, r, p); }
    DivModUnique(rest, p, r, 0);
  }

  lemma NonZero(d: Limbs)
    requires |d| >= 1 && d[|d| - 1] != 0
    ensures Val(d) >= 1
  {
    TopLimb(d);
    MulLe(1, d[|d| - 1], PowBase(|d| - 1));
  }

  method DivideLimbs(a: Limbs, d: Limbs) returns (q: Limbs, r: Limbs)
    requires 1 <= |d| <= |a| && d[|d| - 1] != 0
    ensures |q| == |a| - |d| + 1 && |r| == |d|
    ensures Val(a) == Val(q) * Val(d) + Val(r) && Val(r) < Val(d)
  {
    var n := |d|;
    var shift := LeadingZeros(d[n - 1]);
    Normalizes(d[n - 1]);
    NonZero(d);
    if shift == 0 {
      q, r := DivideNormalized(a, d, a, 0, d, 0);
    } else {
      var v := ShiftDivisor(d, shift);
      var w, carry := ShiftLeft(a, shift);
      CarryIsSmall(shift, carry);
      q, r := DivideNormalized(a, d, w, carry, v, shift);
    }
  }

  method ShiftDivisor(d: Limbs, shift: nat) returns (v: Limbs)
    requires |d| >= 1 && d[|d| - 1] != 0 && shift == LeadingZeros(d[|d| - 1]) && 0 < shift <= 63
    ensures |v| == |d| && Val(v) == Val(d) * Pow2(shift) && v[|v| - 1] >= BASE / 2
  {
    var n := |d|;
    var out;
    v, out := ShiftLeft(d, shift);
    Normalizes(d[n - 1]);
    Complement(shift);
    BitLengthBound(d[n - 1], 64 - shift);
    NormalizedDivisor(d, v, out, Pow2(shift), Pow2(64 - shift));
  }

  /** The division proper, once `v == d << shift` and `w` with `carry` above it is `a << shift`. */
  method DivideNormalized(ghost a: Limbs, ghost d: Limbs, w: Limbs, carry: u64, v: Limbs, shift: nat)
      returns (q: Limbs, r: Limbs)
    requires 1 <= |d| <= |a| && |v| == |d| && |w| == |a| && shift <= 63
    requires v[|v| - 1] >= BASE / 2 && carry < Pow2(shift) && Val(d) >= 1
    requires Val(v) == Val(d) * Pow2(shift)
    requires Val(w) + PowBase(|a|) * carry == Val(a) * Pow2(shift)
    requires shift == 0 ==> carry == 0
    ensures |q| == |a| - |d| + 1 && |r| == |d|
    ensures Val(a) == Val(q) * Val(d) + Val(r) && Val(r) < Val(d)
  {
    var n := |v|;
    var u := new u64[|w| + 1];
    var limbs := w + [carry];
    forall i | 0 <= i <= |w| { u[i] := limbs[i]; }
    assert u[..] == limbs;
    ValAppend(w, carry);
    CarryIsSmall(shift, carry);
    UpperPartFits(u[u.Length - n..], v);
    q := DivideDigits(u, v);
    ghost var rest := Val(u[..n]);
    Denormalized(Val(a), Val(d), Pow2(shift), Val(q), rest);
    if shift == 0 {
      r := u[..n];
    } else {
      r := ShiftRight(u[..n], shift);
    }
  }

  lemma CarryIsSmall(shift: nat, carry: int)
    requires shift <= 63 && carry < Pow2(shift)
    ensures carry < BASE / 2
  {
    Pow2Values();
    Pow2Add(shift, 63 - shift);
    MulLe(1, Pow2(63 - shift), Pow2(shift));
  }
}
