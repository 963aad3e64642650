/** The reciprocal of a normalised 64-bit divisor, and division of two limbs by one with it.

    The code refines a nine-bit table entry in three rounds. Each round is described by the error
    it leaves, `e_k == 2^m - v_k * d`, and each lemma below turns one error into the next. */
module Reciprocal {
  import opened Arith
  import opened Bits
  import opened Limbs
  import opened LimbShift
  import LongDivision
  import opened ReciprocalTable

  const P24: int := 0x100_0000
  const P31: int := 0x8000_0000
  const P40: int := 0x100_0000_0000
  const P47: int := 0x8000_0000_0000
  const P50: int := 0x4_0000_0000_0000
  const P60: int := 0x1000_0000_0000_0000
  const P63: int := 0x8000_0000_0000_0000
  const P65: int := 2 * BASE
  const P73: int := 512 * BASE
  const P97: int := 2 * BASE * 0x1_0000_0000
  const P128: int := BASE * BASE

  /** The reciprocal the code promises: `(2^128 - 1) / d == 2^64 + v`. */
  predicate IsReciprocal(v: int, d: int) {
    (BASE + v) * d < P128 <= (BASE + v + 1) * d
  }

  // ---------------------------------------------------------------------------
  // The four rounds
  // ---------------------------------------------------------------------------

  /** The table entry is right to within `1279 / 2^19`. */
  lemma TableError(v0: int, d9: int, x: int, d40: int)
    requires Fits(v0, d9) && 256 <= d9 < 512 && 1 <= x <= P31 && d40 == d9 * P31 + x
    ensures 1020 <= v0 <= 2045
    ensures -1279 * P31 <= P50 - v0 * d40 <= 1279 * P31
  {
    if v0 > 2045 { MulLe(2046, v0, d9); }
    if v0 < 1020 { MulLe(v0 + 1, 1020, d9); }
    assert v0 * d40 == v0 * d9 * P31 + v0 * x by {
      MulAdd(d9 * P31, x, v0);
      MulAssoc(v0, d9, P31);
    }
    MulLe(x, P31, v0);
    MulLe(1, x, v0);
    MulAdd(v0, 1, d9);
  }

  /** First round: the error after a Newton step in fixed point. */
  lemma FirstRound(v0: int, d40: int, a: int, t: int, x: int, y: int)
    requires x == v0 * d40 && y == a * d40
    requires v0 * v0 * d40 == P40 * a + t
    ensures P40 * (P60 - (2048 * v0 - a - 1) * d40) == (P50 - x) * (P50 - x) + (P40 - t) * d40
  {
    assert (2048 * v0 - a - 1) * d40 == 2048 * x - y - d40;
    assert x * x == P40 * y + t * d40 by {
      MulAssoc(v0, v0, d40);
      assert x * x == (v0 * x) * d40;
      assert v0 * x == P40 * a + t;
      MulAdd(P40 * a, t, d40);
      MulAssoc(P40, a, d40);
    }
    MulAdd(P40, -t, d40);
    assert (P50 - x) * (P50 - x) == P50 * P50 - 2 * P50 * x + x * x;
  }

  lemma SquareBound(x: int, m: int)
    requires -m <= x <= m
    ensures 0 <= x * x <= m * m
  {
    if x >= 0 { MulLe(x, m, x); MulLe(x, m, m); }
    else { MulLe(-x, m, -x); MulLe(-x, m, m); assert x * x == (-x) * (-x); }
  }

  lemma FirstBound(e0: int, d40: int, t: int, e1: int)
    requires -1279 * P31 <= e0 <= 1279 * P31 && 0 <= t < P40 && P31 * 256 < d40 <= P40
    requires P40 * e1 == e0 * e0 + (P40 - t) * d40
    ensures 0 < e1 && 4 * e1 < 29 * P40
  {
    SquareBound(e0, 1279 * P31);
    MulLe(P40 - t, P40, d40);
    MulLe(1, P40 - t, d40);
  }

  /** Second round, still against the forty-bit divisor. */
  lemma SecondRound(v1: int, d40: int, e1: int, b: int, s: int, z: int)
    requires z == v1 * d40 && e1 == P60 - z
    requires v1 * e1 == P47 * b + s
    ensures P47 * (P73 - (8192 * v1 + b) * d40) == e1 * e1 + s * d40
  {
    assert (8192 * v1 + b) * d40 == 8192 * z + b * d40;
    assert z * e1 == P47 * (b * d40) + s * d40 by {
      assert z * e1 == (v1 * e1) * d40;
      MulAdd(P47 * b, s, d40);
      MulAssoc(P47, b, d40);
    }
    assert e1 * e1 == P60 * e1 - z * e1;
  }

  /** The same value against the full divisor `d == 2^24 * d40 - eps`. */
  lemma SecondError(v2: int, d40: int, eps: int, d: int, f2: int)
    requires d == P24 * d40 - eps && f2 == P73 - v2 * d40
    ensures P97 - v2 * d == P24 * f2 + v2 * eps
  {
    MulAdd(P24 * d40, -eps, v2);
    MulAssoc(P24, d40, v2);
  }

  lemma SecondBound(e1: int, s: int, d40: int, f2: int)
    requires 0 < e1 && 4 * e1 < 29 * P40 && 0 <= s < P47 && 0 < d40
    requires P47 * f2 == e1 * e1 + s * d40
    ensures 0 < f2 && 2048 * f2 <= 841 * P40 + 2048 * d40
  {
    SquareBound(e1, 29 * (P40 / 4));
    MulLe(1, e1, e1);
    MulLe(s, P47, d40);
    MulLe(0, s, d40);
    SecondLinear(e1 * e1, s * d40, d40, f2);
  }

  lemma SecondLinear(square: int, sd: int, d40: int, f2: int)
    requires 0 < square <= 841 * (P40 / 4) * (P40 / 4) && 0 <= sd <= P47 * d40
    requires P47 * f2 == square + sd
    ensures 0 < f2 && 2048 * f2 <= 841 * P40 + 2048 * d40
  {}

  lemma SecondErrorBound(d40: int, f2: int, v2: int, eps: int, d: int, e2: int)
    requires 0 < f2 && 2048 * f2 <= 841 * P40 + 2048 * d40 && P31 * 256 < d40
    requires 0 < v2 && f2 == P73 - v2 * d40
    requires 0 < eps <= P24 && d == P24 * d40 - eps && e2 == P24 * f2 + v2 * eps
    requires P63 <= d
    ensures 0 < e2 && 10 * e2 <= 19 * d && v2 <= 8 * P31
  {
    if v2 > 8 * P31 { MulLe(8 * P31, v2, d40); }
    MulLe(eps, P24, v2);
    MulLe(1, eps, v2);
  }

  /** The wrapped 64-bit expression of the source is half the error, rounded down. */
  lemma HalfError(d: int, v2: int, e2: int, d0: int, d63: int, k: int)
    requires 0 <= v2 && d == 2 * (d63 - d0) + d0 && 0 <= d0 <= 1
    requires k == v2 * d63 && e2 == P97 - v2 * d && 0 <= e2 < P65
    ensures (d0 * (v2 / 2) - k) % BASE == e2 / 2
  {
    assert v2 * d == 2 * k - d0 * v2 by { MulAdd(2 * d63, -d0, v2); MulAssoc(2, d63, v2); }
    var half := e2 / 2;
    var wraps := 0x1_0000_0000;
    assert P97 == 2 * (wraps * BASE);
    assert d0 * (v2 / 2) - k == half - wraps * BASE by {
      if d0 == 0 { assert e2 == 2 * (wraps * BASE - k); }
      else { assert e2 == 2 * (wraps * BASE - k) + v2; }
    }
    DivModUnique(half, BASE, 0, half);
    ModShift(half, wraps);
  }

  lemma ModShift(x: int, k: int)
    requires 0 <= x < BASE
    ensures (x - k * BASE) % BASE == x
  {
    var n := x - k * BASE;
    var q := n / BASE;
    assert n == q * BASE + n % BASE;
  }

  /** Third round. */
  lemma ThirdRound(v2: int, d: int, e2: int, delta: int, c: int, w: int, x: int, y: int)
    requires x == v2 * d && e2 == P97 - x && y == c * d
    requires v2 * (e2 - delta) == 2 * P65 * c + 2 * w
    ensures 2 * P65 * (P128 - (P31 * v2 + c) * d) == P97 * delta + e2 * (e2 - delta) + 2 * (w * d)
  {
    assert (P31 * v2 + c) * d == P31 * x + y;
    assert x * (e2 - delta) == 2 * P65 * y + 2 * (w * d) by {
      assert x * (e2 - delta) == (v2 * (e2 - delta)) * d;
      MulAdd(2 * P65 * c, 2 * w, d);
      MulAssoc(2 * P65, c, d);
      MulAssoc(2, w, d);
    }
    assert e2 * (e2 - delta) == P97 * (e2 - delta) - x * (e2 - delta);
  }

  lemma ThirdBound(d: int, e2: int, delta: int, w: int, e3: int, m: int)
    requires P63 <= d < BASE && 0 < e2 && 10 * e2 <= 19 * d && delta == e2 % 2
    requires 0 <= w < P65 && m == e2 * (e2 - delta)
    requires 2 * P65 * e3 == P97 * delta + m + 2 * (w * d)
    ensures 0 < e3 < 2 * d
  {
    MulLe(w, P65 - 1, d);
    MulLe(0, w, d);
    MulLe(0, e2 - delta, e2);
    MulLe(e2 - delta, e2, e2);
    SquareRatio(e2, d);
    MulLe(d, BASE, d);
    if delta == 0 { MulLe(1, e2 - delta, e2); }
    ThirdLinear(d, e3, delta, m, w * d, e2 * e2, d * d);
  }

  lemma SquareRatio(e: int, d: int)
    requires 0 < e && 10 * e <= 19 * d
    ensures 100 * (e * e) <= 361 * (d * d)
  {
    MulLe(10 * e, 19 * d, e);
    MulLe(10 * e, 19 * d, d);
  }

  lemma ThirdLinear(d: int, e3: int, delta: int, m: int, wd: int, square: int, dd: int)
    requires P63 <= d < BASE && 0 <= delta <= 1 && 0 <= wd <= (P65 - 1) * d && 0 <= m <= square
    requires 100 * square <= 361 * dd && dd <= BASE * d && (delta == 1 || m > 0)
    requires 2 * P65 * e3 == P97 * delta + m + 2 * wd
    ensures 0 < e3 < 2 * d
  {}

  /** The last correction: adding `d` once more tells whether the value was one too small. */
  lemma LastStep(d: int, v3: int, e3: int)
    requires P63 <= d < BASE && 0 < e3 < 2 * d && (BASE + v3) * d == P128 - e3
    ensures 0 <= v3 < BASE
    ensures v3 * d + d < P128
    ensures (v3 - (v3 * d + d) / BASE - d) % BASE == if e3 <= d then v3 else v3 + 1
    ensures IsReciprocal(if e3 <= d then v3 else v3 + 1, d)
  {
    MulAdd(BASE, v3, d);
    if v3 < 0 { MulLe(v3, -1, d); }
    if v3 >= BASE { MulLe(BASE, v3, d); }
    MulLe(v3, BASE - 1, d);
    MulLe(0, v3, d);
    var p := v3 * d + d;
    assert p == BASE * (BASE - d) + (d - e3);
    MulAdd(BASE + v3, 1, d);
    MulAdd(BASE + v3, 2, d);
    if e3 <= d {
      DivModUnique(p, BASE, BASE - d, d - e3);
      ModShift(v3, 1);
    } else {
      DivModUnique(p, BASE, BASE - d - 1, BASE + d - e3);
      if v3 + 1 >= BASE { MulLe(BASE, v3 + 1, d); MulAdd(v3, 1, d); }
      ModShift(v3 + 1, 1);
    }
  }

  // ---------------------------------------------------------------------------
  // The reciprocal
  // ---------------------------------------------------------------------------

  method TableValue(d: u64) returns (v0: u64, d40: u64)
    requires d >= P63
    ensures d40 == d / P24 + 1 && P31 * 256 < d40 <= P40 && 1020 <= v0 <= 2045
    ensures -1279 * P31 <= P50 - v0 * d40 <= 1279 * P31
  {
    var d9 := d / 0x80_0000_0000_0000;
    EntryFits(d9 - 256);
    d40 := d / P24 + 1;
    TableError(Entry(d9 - 256), d9, d40 - d9 * P31, d40);
    v0 := Entry(d9 - 256);
  }

  /** First value, from the table; every intermediate fits its machine word. */
  method FirstValue(d: u64) returns (v1: u64, d40: u64, e1: u64)
    requires d >= P63
    ensures d40 == d / P24 + 1 && P31 * 256 < d40 <= P40
    ensures e1 == P60 - v1 * d40 && 0 < e1 && 4 * e1 < 29 * P40
    ensures 0 < v1 <= 0x20_0000
  {
    var v0;
    v0, d40 := TableValue(d);
    var product := v0 * v0 * d40;
    SquareBound(v0, 2045);
    MulLe(v0 * v0, 2045 * 2045, d40);
    MulLe(0, v0 * v0, d40);
    var a, t := product / P40, product % P40;
    var v := 2048 * v0 - a - 1;
    FirstRound(v0, d40, a, t, v0 * d40, a * d40);
    FirstBound(P50 - v0 * d40, d40, t, P60 - v * d40);
    FirstRange(v, d40, v * d40);
    v1 := v;
    e1 := P60 - v1 * d40;
  }

  lemma FirstRange(v: int, d40: int, x: int)
    requires x == v * d40 && P31 * 256 < d40 <= P40 && 0 < P60 - x && 4 * (P60 - x) < 29 * P40
    ensures 0 < v <= 0x20_0000
  {
    if v <= 0 { MulLe(v, 0, d40); }
    if v > 0x20_0000 { MulLe(0x20_0000, v, d40); }
  }

  method SecondValue(d: u64, v1: u64, d40: u64, e1: u64) returns (v2: u64)
    requires d >= P63 && d40 == d / P24 + 1 && P31 * 256 < d40 <= P40
    requires e1 == P60 - v1 * d40 && 0 < e1 && 4 * e1 < 29 * P40
    requires 0 < v1 <= 0x20_0000
    ensures 0 < v2 <= 8 * P31
    ensures var e2 := P97 - v2 * d; 0 < e2 && 10 * e2 <= 19 * d
  {
    var product := v1 * e1;
    MulLe(v1, 0x20_0000, e1);
    MulLe(0, v1, e1);
    assert product < BASE;
    var b, s := product / P47, product % P47;
    var v := 8192 * v1 + b;
    SecondRound(v1, d40, e1, b, s, v1 * d40);
    var f2 := P73 - v * d40;
    SecondBound(e1, s, d40, f2);
    var eps := P24 * d40 - d;
    SecondError(v, d40, eps, d, f2);
    SecondErrorBound(d40, f2, v, eps, d, P97 - v * d);
    v2 := v;
  }

  method ThirdValue(d: u64, v2: u64) returns (v3: u64, ghost e3: int)
    requires d >= P63 && 0 < v2 <= 8 * P31
    requires var e2 := P97 - v2 * d; 0 < e2 && 10 * e2 <= 19 * d
    ensures 0 < e3 < 2 * d && (BASE + v3) * d == P128 - e3
  {
    var d0 := d % 2;
    var d63 := d / 2 + d0;
    ghost var e2 := P97 - v2 * d;
    HalfError(d, v2, e2, d0, d63, v2 * d63);
    var e := (d0 * (v2 / 2) - v2 * d63) % BASE;
    var product := v2 * e;
    MulLe(0, v2, e);
    var c, w := product / P65, product % P65;
    v3 := (product / BASE / 2 + v2 * P31) % BASE;
    e3 := P128 - (P31 * v2 + c) * d;
    assert product / BASE / 2 == c by { HalfLimb(product); }
    ghost var delta := e2 % 2;
    DoubleError(v2, e, e2 - delta, c, w);
    ThirdRound(v2, d, e2, delta, c, w, v2 * d, c * d);
    ThirdBound(d, e2, delta, w, e3, e2 * (e2 - delta));
    DropTop(d, P31 * v2 + c, e3, (P31 * v2 + c) * d);
  }

  lemma DoubleError(v2: int, e: int, twice: int, c: int, w: int)
    requires twice == 2 * e && v2 * e == P65 * c + w
    ensures v2 * twice == 2 * P65 * c + 2 * w
  {}

  lemma HalfLimb(n: int)
    requires n >= 0
    ensures n / BASE / 2 == n / P65
  {
    DivMod(n, BASE);
    DivMod(n / BASE, 2);
    DivModUnique(n, P65, n / BASE / 2, BASE * (n / BASE % 2) + n % BASE);
  }

  /** The third value has its 65th bit set, so the wrapped sum just loses that bit. */
  lemma DropTop(d: int, big: int, e3: int, x: int)
    requires P63 <= d < BASE && x == big * d && 0 < e3 < 2 * d && x == P128 - e3
    ensures 0 <= big - BASE < BASE && big % BASE == big - BASE
    ensures (BASE + (big - BASE)) * d == P128 - e3
  {
    if big < BASE { MulLe(big, BASE - 1, d); MulAdd(BASE, -1, d); MulLe(d, BASE - 1, BASE + 1); }
    if big >= P65 { MulLe(P65, big, d); }
    DivModUnique(big, BASE, 1, big - BASE);
  }

  /** The reciprocal of a normalised divisor. */
  method Compute(d: u64) returns (v: u64)
    requires d >= P63
    ensures IsReciprocal(v, d)
  {
    var v1, d40, e1 := FirstValue(d);
    var v2 := SecondValue(d, v1, d40, e1);
    var v3, e3 := ThirdValue(d, v2);
    LastStep(d, v3, e3);
    var sum := v3 * d + d;
    v := (v3 - sum / BASE - d) % BASE;
  }

  // ---------------------------------------------------------------------------
  // Two limbs by one
  // ---------------------------------------------------------------------------

  /** The estimate built from the reciprocal fits two limbs. */
  lemma EstimateFits(hi: int, lo: int, d: int, v: int, product: int)
    requires IsReciprocal(v, d) && 0 <= hi < d < BASE && 0 <= lo < BASE && 0 <= v
    requires product == (BASE + v) * hi
    ensures product + lo < P128
  {
    MulLe(hi, d - 1, BASE + v);
    MulAdd(d, -1, BASE + v);
  }

  /** How far the candidate quotient `q1 + 1` is off, where the estimate is `q1 * 2^64 + q0`.
      `k` is what the reciprocal leaves of `2^128`. */
  lemma CandidateError(hi: int, lo: int, d: int, v: int, k: int, q1: int, q0: int, r: int)
    requires (BASE + v) * d == P128 - k
    requires (BASE + v) * hi + lo == q1 * BASE + q0
    requires r == hi * BASE + lo - (q1 + 1) * d
    ensures BASE * r == k * hi + (BASE - d) * lo + q0 * d - BASE * d
  {
    var x, y := (BASE + v) * hi, q1 * d;
    assert x * d == P128 * hi - k * hi by {
      assert x * d == ((BASE + v) * d) * hi;
      MulAdd(P128, -k, hi);
    }
    assert x * d + lo * d == BASE * y + q0 * d by {
      MulAdd(x, lo, d);
      MulAdd(q1 * BASE, q0, d);
      MulAssoc(BASE, q1, d);
    }
    MulAdd(q1, 1, d);
    MulAdd(BASE, -d, lo);
  }

  /** The two one-sided bounds that make the comparison with the low half decisive. */
  lemma CandidateBounds(hi: int, lo: int, d: int, k: int, q0: int, r: int)
    requires P63 <= d < BASE && 0 <= hi < d && 0 <= lo < BASE && 0 <= q0 < BASE && 0 < k <= d
    requires BASE * r == k * hi + (BASE - d) * lo + q0 * d - BASE * d
    ensures -d <= r && q0 - BASE < r
    ensures r < BASE - d || r < q0
  {
    MulLe(0, k, hi);
    MulLe(k, d, hi);
    MulLe(hi, d - 1, d);
    MulLe(0, BASE - d, lo);
    MulLe(lo, BASE - 1, BASE - d);
    MulLe(0, q0, d);
    LowerBound(d, q0, r, k * hi, (BASE - d) * lo);
    UpperBound(d, q0, r, k * hi, (BASE - d) * lo);
  }

  lemma LowerBound(d: int, q0: int, r: int, kh: int, dl: int)
    requires d < BASE && 0 <= q0 < BASE && 0 <= kh && 0 <= dl && 0 <= q0 * d
    requires BASE * r == kh + dl + q0 * d - BASE * d
    ensures -d <= r && q0 - BASE < r
  {
    assert (BASE - d) * (BASE - q0) > 0 by { MulLt(0, BASE - d, BASE - q0); }
    assert (BASE - d) * (BASE - q0) == BASE * BASE - BASE * d - BASE * q0 + q0 * d;
  }

  lemma UpperBound(d: int, q0: int, r: int, kh: int, dl: int)
    requires 0 < d < BASE && 0 <= q0 < BASE && kh <= d * d - d && dl <= (BASE - d) * (BASE - 1)
    requires BASE * r == kh + dl + q0 * d - BASE * d
    ensures r < BASE - d || r < q0
  {
    assert BASE * r < (BASE - d) * (BASE - d) + q0 * d;
    assert (BASE - d) * r + d * r == BASE * r;
    if r >= BASE - d && r >= q0 {
      MulLe(BASE - d, r, BASE - d);
      MulLe(q0, r, d);
    }
  }

  /** A quotient digit below the base is known from its residue. */
  lemma DigitFromResidue(hi: int, lo: int, d: int, q: int, r: int)
    requires 0 <= hi < d && 0 <= lo < BASE && 0 <= r < d && hi * BASE + lo == q * d + r
    ensures 0 <= q < BASE && q % BASE == q
  {
    if q < 0 { MulLe(q, -1, d); }
    if q >= BASE { MulLe(BASE, q, d); MulLe(hi, d - 1, BASE); }
  }

  /** The quotient and remainder of two limbs by a normalised limb. The remainder and the
      quotient are kept modulo 2^64 until the two corrections have been made. */
  method DivRem2By1(lo: u64, hi: u64, d: u64, v: u64) returns (q: u64, r: u64)
    requires d >= P63 && hi < d && IsReciprocal(v, d)
    ensures hi * BASE + lo == q * d + r && r < d
  {
    var estimate := v * hi + lo + hi * BASE;
    EstimateFits(hi, lo, d, v, (BASE + v) * hi);
    MulAdd(BASE, v, hi);
    MulLe(0, v, hi);
    var q0, q1 := estimate % BASE, estimate / BASE;
    ghost var exact := hi * BASE + lo - (q1 + 1) * d;
    CandidateError(hi, lo, d, v, P128 - (BASE + v) * d, q1, q0, exact);
    MulAdd(BASE + v, 1, d);
    CandidateBounds(hi, lo, d, P128 - (BASE + v) * d, q0, exact);
    q, r := Correct(lo, hi, d, q1, q0, exact);
  }

  method Correct(lo: u64, hi: u64, d: u64, q1: u64, q0: u64, ghost exact: int) returns (q: u64, r: u64)
    requires d >= P63 && hi < d
    requires exact == hi * BASE + lo - (q1 + 1) * d
    requires 0 <= exact + d && q0 - BASE < exact && (exact < BASE - d || exact < q0)
    ensures hi * BASE + lo == q * d + r && r < d
  {
    q := (q1 + 1) % BASE;
    r := (lo - q * d) % BASE;
    ghost var digit := q1 + 1;
    WrappedRemainder(lo, hi, d, digit, exact);
    if r > q0 {
      StepBack(q1, q0, d, exact, r);
      q := (q - 1) % BASE;
      r := (r + d) % BASE;
      MulAdd(q1, 1, d);
      digit := q1;
    }
    if r >= d {
      q := (q + 1) % BASE;
      r := r - d;
      MulAdd(digit, 1, d);
      StepUp(digit);
      digit := digit + 1;
    }
    DigitFromResidue(hi, lo, d, digit, r);
  }

  /** A remainder above the low half of the estimate calls for one step back. */
  lemma StepBack(q1: int, q0: int, d: int, exact: int, r: int)
    requires 0 <= q1 < BASE && 0 < d < BASE && 0 <= q0
    requires 0 <= exact + d && q0 - BASE < exact && (exact < BASE - d || exact < q0)
    requires r == (if exact < 0 then exact + BASE else exact) && r > q0
    ensures (r + d) % BASE == exact + d
    ensures ((q1 + 1) % BASE - 1) % BASE == q1
  {
    if exact < 0 { ModShift(exact + d, -1); } else { ModShift(exact + d, 0); }
    if q1 + 1 == BASE { ModShift(q1, 1); } else { ModShift(q1, 0); }
  }

  lemma StepUp(digit: int)
    ensures (digit % BASE + 1) % BASE == (digit + 1) % BASE
  {
    var q, r := digit / BASE, digit % BASE;
    if r + 1 == BASE { ModShift(0, -q - 1); } else { ModShift(r + 1, -q); }
  }

  /** The remainder computed from the wrapped candidate is the exact one modulo 2^64. */
  lemma WrappedRemainder(lo: int, hi: int, d: int, candidate: int, exact: int)
    requires 0 <= candidate <= BASE && exact == hi * BASE + lo - candidate * d && -BASE < exact < BASE
    ensures (lo - (candidate % BASE) * d) % BASE == if exact < 0 then exact + BASE else exact
  {
    var rest := if exact < 0 then exact + BASE else exact;
    if candidate == BASE {
      ModShift(rest, hi - d + (if exact < 0 then 1 else 0));
    } else {
      ModShift(rest, hi + (if exact < 0 then 1 else 0));
    }
  }

  // ---------------------------------------------------------------------------
  // Four limbs by one
  // ---------------------------------------------------------------------------

  /** `q` and `r` are the quotient and remainder by `d` of `a` with the limb `top` above it. */
  predicate Divided(a: Limbs, top: int, d: int, q: Limbs, r: int) {
    |q| == |a| && 0 <= r < d && Val(a) + PowBase(|a|) * top == Val(q) * d + r
  }

  /** Long division by one limb, from the top limb down. */
  method DivideDown(u: Limbs, top: u64, d: u64) returns (q: Limbs, r: u64)
    requires d >= P63 && top < d
    ensures Divided(u, top, d, q, r)
  {
    var v := Compute(d);
    q, r := [], top;
    var i := |u|;
    while i > 0
      invariant 0 <= i <= |u|
      invariant Divided(u[i..], top, d, q, r)
    {
      i := i - 1;
      var digit, rest := DivRem2By1(u[i], r, d, v);
      assert u[i..] == [u[i]] + u[i + 1..];
      DownStep(u[i + 1..], top, d, q, r, u[i], digit, rest);
      q, r := [digit] + q, rest;
    }
    assert u[0..] == u;
  }

  lemma DownStep(a: Limbs, top: int, d: int, q: Limbs, r: int, limb: u64, digit: u64, rest: int)
    requires Divided(a, top, d, q, r) && r * BASE + limb == digit * d + rest && 0 <= rest < d
    ensures Divided([limb] + a, top, d, [digit] + q, rest)
  {
    assert ([limb] + a)[1..] == a && ([digit] + q)[1..] == q;
    DownLinear(Val(a), PowBase(|a|) * top, Val(q), d, Val(q) * d, r, limb, digit, rest);
    MulAssoc(BASE, PowBase(|a|), top);
  }

  lemma DownLinear(val: int, powTop: int, vq: int, d: int, vqd: int, r: int, limb: int, digit: int, rest: int)
    requires vqd == vq * d && val + powTop == vqd + r && r * BASE + limb == digit * d + rest
    ensures limb + BASE * val + BASE * powTop == (digit + BASE * vq) * d + rest
  {
    MulAdd(digit, BASE * vq, d);
    MulAssoc(BASE, vq, d);
  }

  /** Division of a limb string by one limb: normalise, divide down, shift the remainder back. */
  method DivideByLimb(a: Limbs, divisor: u64) returns (q: Limbs, r: u64)
    requires divisor != 0
    ensures |q| == |a| && Val(a) == Val(q) * divisor + r && r < divisor
  {
    var shift := LeadingZeros(divisor);
    Normalizes(divisor);
    if shift == 0 {
      q, r := DivideDown(a, 0, divisor);
    } else {
      var p := Pow2(shift);
      var u, top := ShiftLeft(a, shift);
      LongDivision.CarryIsSmall(shift, top);
      var rest;
      q, rest := DivideDown(u, top, divisor * p);
      LongDivision.Denormalized(Val(a), divisor, p, Val(q), rest);
      r := rest / p;
    }
  }
}
