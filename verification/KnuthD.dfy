/** One quotient digit of Knuth's Algorithm D (section 4.3.1 of The Art of Computer Programming,
    volume 2): estimate, multiply and subtract, add back. */
module KnuthD {
  import opened Limbs
  import opened Arith

  // ---------------------------------------------------------------------------
  // D3: the estimate
  // ---------------------------------------------------------------------------

  /** What is left of the three-limb dividend after taking `q` times the two-limb divisor. */
  lemma LeftOver(q: int, r: int, v1: int, v0: int, tmp: int, u0: int)
    requires q * v1 + r == tmp
    ensures (tmp * BASE + u0) - q * (v1 * BASE + v0) == (r * BASE + u0) - q * v0
  {
    assert q * (v1 * BASE + v0) == (q * v1) * BASE + q * v0;
  }

  /** A digit of `BASE` or more leaves less than `BASE`. */
  lemma LargeDigit(q: int, r: int, u2: u64, u1: u64, v1: u64)
    requires q * v1 + r == u2 * BASE + u1 && u2 <= v1
    ensures q >= BASE ==> r < BASE
    ensures q >= BASE + 2 && v1 >= BASE / 2 ==> r < 0
  {
    if q >= BASE { MulLe(BASE, q, v1); }
    if q >= BASE + 2 { MulLe(BASE + 2, q, v1); }
  }

  /** The state of the refinement: `q` is a quotient estimate with remainder `r` against the top
      divisor limb, and nothing above `q` fits the three-limb dividend `n`. */
  ghost predicate Estimate(q: int, r: int, tmp: int, v1: int, v2: int, n: int) {
    && 0 <= q && 0 <= r && q * v1 + r == tmp
    && (q >= BASE - 1 || (q + 1) * v2 > n)
  }

  lemma FirstEstimate(q: int, r: int, u2: u64, u1: u64, u0: u64, v1: u64, v0: u64)
    requires v1 >= BASE / 2 && u2 <= v1
    requires u2 * BASE + u1 == q * v1 + r && 0 <= r < v1 && 0 <= q
    ensures Estimate(q, r, u2 * BASE + u1, v1, v1 * BASE + v0, (u2 * BASE + u1) * BASE + u0)
    ensures q <= BASE + 1
  {
    var tmp := u2 * BASE + u1;
    LargeDigit(q, r, u2, u1, v1);
    assert (q + 1) * v1 + (r - v1) == tmp by { MulAdd(q, 1, v1); }
    LeftOver(q + 1, r - v1, v1, v0, tmp, u0);
    MulLe(0, q + 1, v0);
  }

  lemma RefineEstimate(q: int, r: int, u2: u64, u1: u64, u0: u64, v1: u64, v0: u64)
    requires v1 >= BASE / 2 && u2 <= v1
    requires Estimate(q, r, u2 * BASE + u1, v1, v1 * BASE + v0, (u2 * BASE + u1) * BASE + u0)
    requires 0 < q <= BASE + 1 && r < BASE
    requires q >= BASE || q * v0 > r * BASE + u0
    ensures Estimate(q - 1, r + v1, u2 * BASE + u1, v1, v1 * BASE + v0, (u2 * BASE + u1) * BASE + u0)
    ensures q - 1 >= BASE ==> r + v1 < BASE
  {
    var tmp := u2 * BASE + u1;
    assert (q - 1) * v1 + (r + v1) == tmp;
    LeftOver(q, r, v1, v0, tmp, u0);
    LargeDigit(q - 1, r + v1, u2, u1, v1);
  }

  lemma FinalEstimate(q: int, r: int, tmp: int, u0: u64, v1: u64, v0: u64)
    requires 0 <= q < BASE && q * v1 + r == tmp
    requires r >= BASE || q * v0 <= r * BASE + u0
    ensures q * (v1 * BASE + v0) <= tmp * BASE + u0
  {
    if r >= BASE {
      MulLe(q, BASE, v0);
      MulLe(BASE, r, BASE);
    }
    LeftOver(q, r, v1, v0, tmp, u0);
  }

  /** The digit estimated from the top three dividend limbs and the top two divisor limbs is the
      largest digit that fits them: no refinement overshoots and none is missed. */
  method EstimateDigit(u2: u64, u1: u64, u0: u64, v1: u64, v0: u64, ghost n: int, ghost v2: int)
      returns (qHat: int)
    requires v1 >= BASE / 2 && u2 <= v1
    requires n == (u2 * BASE + u1) * BASE + u0 && v2 == v1 * BASE + v0
    ensures 0 <= qHat < BASE
    ensures qHat * v2 <= n
    ensures qHat == BASE - 1 || (qHat + 1) * v2 > n
  {
    var tmp := u2 * BASE + u1;
    qHat := tmp / v1;
    var rHat := tmp % v1;
    DivMod(tmp, v1);
    FirstEstimate(qHat, rHat, u2, u1, u0, v1, v0);
    while qHat >= BASE || qHat * v0 > rHat * BASE + u0
      invariant Estimate(qHat, rHat, tmp, v1, v2, n) && qHat <= BASE + 1 && rHat < BASE
      decreases qHat
    {
      RefineEstimate(qHat, rHat, u2, u1, u0, v1, v0);
      qHat := qHat - 1;
      rHat := rHat + v1;
      if rHat >= BASE { break; }
    }
    FinalEstimate(qHat, rHat, tmp, u0, v1, v0);
  }

  /** Splitting off the low `w` limbs of a number leaves a remainder below BASE^w. */
  lemma TopPart(s: Limbs, w: nat)
    requires w <= |s|
    ensures 0 <= Val(s) - PowBase(w) * Val(s[w..]) < PowBase(w)
  {
    ValSplit(s, w);
    ValBound(s[..w]);
  }

  /** The estimate is the true digit or one more: `u` and `v` are the whole numbers, `u3` and `v2`
      their top limbs above `w`. */
  lemma DigitWithinOne(qHat: int, w: int, u: int, u3: int, v: int, v2: int)
    requires 0 <= qHat < BASE && w >= 1
    requires 0 <= u - w * u3 < w && 0 <= v - w * v2 < w
    requires v2 >= BASE && u < BASE * v
    requires qHat * v2 <= u3
    requires qHat == BASE - 1 || (qHat + 1) * v2 > u3
    ensures qHat * v - v <= u < qHat * v + v
  {
    var low := v - w * v2;
    ProductSplit(qHat, w, v2, low);
    MulLe(qHat * v2, u3, w);
    MulLe(low, w, qHat);
    MulLe(qHat, v2, w);
    MulAdd(qHat, 1, v);
    if qHat != BASE - 1 {
      ProductSplit(qHat + 1, w, v2, low);
      MulLe(u3 + 1, (qHat + 1) * v2, w);
      MulAdd(u3, 1, w);
      MulLe(0, low, qHat + 1);
    }
    Bracket(qHat, w, u, v, qHat * v, (qHat + 1) * v, (qHat * v2) * w, low * qHat, u3 * w, w * qHat, v2 * w, low,
            ((qHat + 1) * v2) * w, low * (qHat + 1));
  }

  /** The comparison of the two sides once every product has a name. */
  lemma Bracket(q: int, w: int, u: int, v: int, qv: int, qv': int, x: int, y: int, z: int, t: int, s: int, low: int,
                x': int, y': int)
    requires qv == x + y && x <= z && y <= t && t <= s && v == s + low && 0 <= low
    requires z <= u < z + w && (q == BASE - 1 || (qv' == x' + y' && z + w <= x' && 0 <= y'))
    requires q == BASE - 1 ==> u < qv'
    ensures qv - v <= u < qv'
  {}

  lemma ProductSplit(q: int, w: int, v2: int, low: int)
    ensures q * (w * v2 + low) == (q * v2) * w + low * q
  {
    assert q * (w * v2 + low) == q * (w * v2) + q * low;
    assert q * (w * v2) == (q * v2) * w;
  }

  // ---------------------------------------------------------------------------
  // D4: multiply and subtract
  // ---------------------------------------------------------------------------

  /** One more limb of `a + carry == n + product`, scaled by the weight `p` of the limb. */
  lemma Accumulate(p: int, a: int, n: int, product: int, carry: int,
                   limb: int, newLimb: int, limbProduct: int, newCarry: int)
    requires a + carry * p == n + product
    requires limb + newCarry * BASE == carry + newLimb + limbProduct
    ensures (a + p * limb) + newCarry * (BASE * p) == (n + p * newLimb) + (product + p * limbProduct)
  {
    assert p * (limb + newCarry * BASE) == p * limb + newCarry * (BASE * p);
    assert p * (carry + newLimb + limbProduct) == carry * p + p * newLimb + p * limbProduct;
  }

  lemma Spread(q: int, low: int, p: int, limb: int)
    ensures q * (low + p * limb) == q * low + p * (q * limb)
  {
    assert q * (p * limb) == p * (q * limb);
  }

  lemma ProductOfPrefix(q: int, v: Limbs, i: nat)
    requires i < |v|
    ensures q * Val(v[..i + 1]) == q * Val(v[..i]) + PowBase(i) * (q * v[i])
  {
    assert v[..i + 1] == v[..i] + [v[i]];
    ValAppend(v[..i], v[i]);
    Spread(q, Val(v[..i]), PowBase(i), v[i]);
  }

  /** The subtraction so far: `done` are the new limbs, `w` the old ones. */
  ghost predicate Subtracted(w: Limbs, done: Limbs, q: int, v: Limbs, owed: int) {
    && |done| <= |w| && |done| <= |v|
    && Val(w[..|done|]) + owed * PowBase(|done|) == Val(done) + q * Val(v[..|done|])
  }

  lemma SubtractStep(w: Limbs, done: Limbs, q: int, v: Limbs, limbProduct: int, owed: int,
                     newLimb: u64, newOwed: int)
    requires |done| < |w| && |done| < |v|
    requires limbProduct == q * v[|done|]
    requires Subtracted(w, done, q, v, owed)
    requires w[|done|] + newOwed * BASE == owed + newLimb + limbProduct
    ensures Subtracted(w, done + [newLimb], q, v, newOwed)
  {
    var i := |done|;
    Accumulate(PowBase(i), Val(w[..i]), Val(done), q * Val(v[..i]), owed, w[i], newLimb, limbProduct, newOwed);
    assert w[..i + 1] == w[..i] + [w[i]];
    ValAppend(w[..i], w[i]);
    ValAppend(done, newLimb);
    ProductOfPrefix(q, v, i);
  }

  lemma SubtractedAll(w: Limbs, done: Limbs, q: int, v: Limbs, owed: int)
    requires Subtracted(w, done, q, v + [0], owed) && |done| == |w| == |v| + 1 && 0 <= owed <= 1
    ensures Val(w) + (if owed == 1 then PowBase(|v| + 1) else 0) == Val(done) + q * Val(v)
  {
    var vTop := v + [0];
    assert w[..|done|] == w && vTop[..|done|] == vTop;
    ValZeroTop(v);
    OneOrNone(owed, PowBase(|done|));
  }

  lemma OneOrNone(c: int, p: int)
    requires 0 <= c <= 1
    ensures c * p == if c == 1 then p else 0
  {}

  lemma ValZeroTop(v: Limbs)
    ensures Val(v + [0]) == Val(v)
  {
    ValAppend(v, 0);
  }

  lemma ZeroTopProduct(q: int, v: Limbs)
    ensures q * (v + [0])[|v|] == 0
  {}

  /** The subtraction loop over the limbs of the divisor; what is still owed goes to the caller. */
  method SubtractRow(u: array<u64>, j: nat, v: Limbs, q: u64)
      returns (carry: int, borrow: int, ghost done: Limbs)
    requires j + |v| < u.Length
    modifies u
    ensures 0 <= carry < BASE && 0 <= borrow <= 1 && |done| == |v|
    ensures forall k | 0 <= k < |v| :: u[j + k] == done[k]
    ensures forall k | 0 <= k < u.Length && !(j <= k < j + |v|) :: u[k] == old(u[k])
    ensures Subtracted(old(u[j..j + |v| + 1]), done, q, v + [0], carry + borrow)
  {
    ghost var w := u[j..j + |v| + 1];
    carry, borrow, done := 0, 0, [];
    var i := 0;
    while i < |v|
      invariant 0 <= i <= |v| && |done| == i
      invariant 0 <= carry < BASE && 0 <= borrow <= 1
      invariant forall k | 0 <= k < i :: u[j + k] == done[k]
      invariant forall k | 0 <= k < u.Length && !(j <= k < j + i) :: u[k] == old(u[k])
      invariant Subtracted(w, done, q, v + [0], carry + borrow)
    {
      var prod := q * v[i] + carry;
      ProductBound(q, v[i], carry);
      var diff := u[j + i] + BASE - (prod % BASE + borrow);
      SubtractStep(w, done, q, v + [0], q * v[i], carry + borrow,
                   diff % BASE, prod / BASE + (1 - diff / BASE));
      u[j + i] := diff % BASE;
      done := done + [u[j + i]];
      carry := prod / BASE;
      borrow := 1 - diff / BASE;
      i := i + 1;
    }
  }

  /** Subtract `q * v` from the limbs of `u` at `j`, in place; the result is exact up to one
      borrow out of the top limb. */
  method MultiplySubtract(u: array<u64>, j: nat, v: Limbs, q: u64) returns (borrowOut: int)
    requires j + |v| < u.Length
    modifies u
    ensures 0 <= borrowOut <= 1
    ensures forall k | 0 <= k < u.Length && !(j <= k <= j + |v|) :: u[k] == old(u[k])
    ensures Val(u[j..j + |v| + 1]) + q * Val(v)
         == Val(old(u[j..j + |v| + 1])) + if borrowOut == 1 then PowBase(|v| + 1) else 0
  {
    var n := |v|;
    ghost var w := u[j..j + n + 1];
    var carry, borrow;
    ghost var done;
    carry, borrow, done := SubtractRow(u, j, v, q);
    var diff := u[j + n] + BASE - (carry + borrow);
    borrowOut := 1 - diff / BASE;
    ZeroTopProduct(q, v);
    SubtractStep(w, done, q, v + [0], 0, carry + borrow, diff % BASE, borrowOut);
    u[j + n] := diff % BASE;
    done := done + [u[j + n]];
    SubtractedAll(w, done, q, v, borrowOut);
    assert u[j..j + n + 1] == done;
  }

  lemma ProductBound(q: u64, x: u64, carry: u64)
    ensures 0 <= q * x + carry < BASE * BASE
    ensures (q * x + carry) / BASE < BASE
  {
    MulLe(q, BASE - 1, x);
    MulLe(0, q, x);
  }

  // ---------------------------------------------------------------------------
  // D6: add back
  // ---------------------------------------------------------------------------

  ghost predicate Added(w: Limbs, done: Limbs, v: Limbs, carry: int) {
    && |done| <= |w| && |done| <= |v|
    && Val(done) + carry * PowBase(|done|) == Val(w[..|done|]) + Val(v[..|done|])
  }

  lemma AddStep(w: Limbs, done: Limbs, v: Limbs, carry: int, newLimb: u64, newCarry: int)
    requires |done| < |w| && |done| < |v|
    requires Added(w, done, v, carry)
    requires newLimb + newCarry * BASE == carry + w[|done|] + v[|done|]
    ensures Added(w, done + [newLimb], v, newCarry)
  {
    var i := |done|;
    Accumulate(PowBase(i), Val(done), Val(w[..i]), Val(v[..i]), carry, newLimb, w[i], v[i], newCarry);
    assert w[..i + 1] == w[..i] + [w[i]] && v[..i + 1] == v[..i] + [v[i]];
    ValAppend(w[..i], w[i]);
    ValAppend(v[..i], v[i]);
    ValAppend(done, newLimb);
  }

  lemma AddedAll(w: Limbs, done: Limbs, v: Limbs, carry: int)
    requires Added(w, done, v + [0], carry) && |done| == |w| == |v| + 1 && 0 <= carry <= 1
    ensures Val(done) + (if carry == 1 then PowBase(|v| + 1) else 0) == Val(w) + Val(v)
  {
    var vTop := v + [0];
    assert w[..|done|] == w && vTop[..|done|] == vTop;
    ValZeroTop(v);
    OneOrNone(carry, PowBase(|done|));
  }

  /** Add `v` to the limbs of `u` at `j`, dropping the carry out of the top limb. */
  method AddBack(u: array<u64>, j: nat, v: Limbs) returns (ghost carryOut: int)
    requires j + |v| < u.Length
    modifies u
    ensures 0 <= carryOut <= 1
    ensures forall k | 0 <= k < u.Length && !(j <= k <= j + |v|) :: u[k] == old(u[k])
    ensures Val(u[j..j + |v| + 1]) + (if carryOut == 1 then PowBase(|v| + 1) else 0)
         == Val(old(u[j..j + |v| + 1])) + Val(v)
  {
    var n := |v|;
    ghost var w := u[j..j + n + 1];
    ghost var done: Limbs := [];
    var carry := 0;
    var i := 0;
    while i < n
      invariant 0 <= i <= n && |done| == i && 0 <= carry <= 1
      invariant forall k | 0 <= k < i :: u[j + k] == done[k]
      invariant forall k | 0 <= k < u.Length && !(j <= k < j + i) :: u[k] == old(u[k])
      invariant Added(w, done, v + [0], carry)
    {
      var sum: int := u[j + i] as int + v[i] + carry;
      AddStep(w, done, v + [0], carry, sum % BASE, sum / BASE);
      u[j + i] := sum % BASE;
      done := done + [u[j + i]];
      carry := sum / BASE;
      i := i + 1;
    }
    var sum: int := u[j + n] as int + carry;
    carryOut := sum / BASE;
    AddStep(w, done, v + [0], carry, sum % BASE, carryOut);
    u[j + n] := sum % BASE;
    done := done + [u[j + n]];
    AddedAll(w, done, v, carryOut);
    assert u[j..j + n + 1] == done;
  }

  // ---------------------------------------------------------------------------
  // One digit
  // ---------------------------------------------------------------------------

  /** The top dividend limb never exceeds the top divisor limb. */
  lemma TopLimbOrder(us: Limbs, v: Limbs)
    requires |v| >= 1 && |us| == |v| + 1
    requires Val(us) < BASE * Val(v)
    ensures us[|v|] <= v[|v| - 1]
  {
    var n := |v|;
    TopPart(us, n);
    TopPart(v, n - 1);
    assert us[n..] == [us[n]] && v[n - 1..] == [v[n - 1]];
    Val1(us[n]);
    Val1(v[n - 1]);
    LeadingOrder(us[n], v[n - 1], PowBase(n - 1), PowBase(n), Val(us), Val(v));
  }

  lemma LeadingOrder(x: int, y: int, p: int, bp: int, us: int, v: int)
    requires p > 0 && bp == BASE * p && us < BASE * v
    requires bp * x <= us && v < p * y + p
    ensures x <= y
  {
    if x > y {
      MulLe(y + 1, x, bp);
      ShiftUp(p, bp, y);
    }
  }

  lemma ShiftUp(p: int, bp: int, x: int)
    requires bp == BASE * p
    ensures (x + 1) * bp == BASE * (p * x + p)
  {
    MulAssoc(BASE, p, x + 1);
  }

  lemma TopThree(us: Limbs)
    requires |us| >= 3
    ensures var n := |us| - 1;
            Val(us[n - 2..]) == (us[n] * BASE + us[n - 1]) * BASE + us[n - 2]
  {
    var n := |us| - 1;
    assert us[n - 2..] == [us[n - 2], us[n - 1], us[n]];
    Val3(us[n - 2], us[n - 1], us[n]);
  }

  lemma TopTwo(v: Limbs)
    requires |v| >= 2
    ensures Val(v[|v| - 2..]) == v[|v| - 1] * BASE + v[|v| - 2]
  {
    var n := |v|;
    assert v[n - 2..] == [v[n - 2], v[n - 1]];
    Val2(v[n - 2], v[n - 1]);
  }

  /** What the estimate says about the whole numbers. */
  lemma EstimateBrackets(us: Limbs, v: Limbs, q: int)
    requires |v| >= 2 && |us| == |v| + 1
    requires v[|v| - 1] >= BASE / 2 && Val(us) < BASE * Val(v)
    requires var u3, v2 := Val(us[|v| - 2..]), Val(v[|v| - 2..]);
             0 <= q < BASE && q * v2 <= u3 && (q == BASE - 1 || (q + 1) * v2 > u3)
    ensures q * Val(v) - Val(v) <= Val(us) < q * Val(v) + Val(v)
  {
    var w := |v| - 2;
    TopPart(us, w);
    TopPart(v, w);
    TopTwo(v);
    DigitWithinOne(q, PowBase(w), Val(us), Val(us[w..]), Val(v), Val(v[w..]));
  }

  /** The true digit `q` leaves a remainder below the divisor. */
  ghost predicate DigitDone(before: int, after: int, q: int, v: int) {
    before == q * v + after && 0 <= after < v
  }

  // After the subtraction: no borrow means that the estimate was right. A borrow means that it was one
  // too large, and then adding the divisor back carries out of the top limb and leaves the true remainder.

  lemma AddBackRestores(before: int, v: int, q: int, qv: int, top: int, left: int, sum: int, carry: int)
    requires qv == q * v && 0 <= before && 0 < top
    requires qv - v <= before
    requires left + qv == before + top && 0 <= left < top
    requires sum + (if carry == 1 then top else 0) == left + v && 0 <= sum < top && 0 <= carry <= 1
    ensures DigitDone(before, sum, q - 1, v)
  {
    MulAdd(q, -1, v);
  }

  /** One quotient digit: divide the limbs of `u` at `j` by `v`, leaving the remainder there. */
  method DivideDigit(u: array<u64>, j: nat, v: Limbs) returns (q: u64)
    requires |v| >= 1 && v[|v| - 1] >= BASE / 2 && j + |v| < u.Length
    requires Val(u[j..j + |v| + 1]) < BASE * Val(v)
    modifies u
    ensures forall k | 0 <= k < u.Length && !(j <= k <= j + |v|) :: u[k] == old(u[k])
    ensures DigitDone(Val(old(u[j..j + |v| + 1])), Val(u[j..j + |v| + 1]), q, Val(v))
  {
    ghost var us := u[j..j + |v| + 1];
    var qHat := EstimateFor(u, j, v);
    var borrow := MultiplySubtract(u, j, v, qHat);
    q := Correct(u, j, v, qHat, borrow, Val(us), qHat * Val(v));
  }

  /** Add back once if the subtraction borrowed. */
  method Correct(u: array<u64>, j: nat, v: Limbs, qHat: u64, borrow: int, ghost before: int, ghost qv: int)
      returns (q: u64)
    requires j + |v| < u.Length && 0 <= borrow <= 1 && 0 <= before && qv == qHat * Val(v)
    requires qv - Val(v) <= before < qv + Val(v)
    requires Val(u[j..j + |v| + 1]) + qv == before + if borrow == 1 then PowBase(|v| + 1) else 0
    modifies u
    ensures forall k | 0 <= k < u.Length && !(j <= k <= j + |v|) :: u[k] == old(u[k])
    ensures DigitDone(before, Val(u[j..j + |v| + 1]), q, Val(v))
  {
    ghost var left := Val(u[j..j + |v| + 1]);
    ValBound(u[j..j + |v| + 1]);
    q := qHat;
    if borrow == 1 {
      PositiveDigit(qHat, Val(v), qv, before, left, PowBase(|v| + 1));
      q := qHat - 1;
      ghost var carry := AddBack(u, j, v);
      ValBound(u[j..j + |v| + 1]);
      AddBackRestores(before, Val(v), qHat, qv, PowBase(|v| + 1), left, Val(u[j..j + |v| + 1]), carry);
    }
  }

  /** An estimate of zero never borrows. */
  lemma PositiveDigit(q: int, v: int, qv: int, before: int, left: int, top: int)
    requires 0 <= q && qv == q * v && 0 <= before && left + qv == before + top && left < top
    ensures q > 0
  {}

  method EstimateFor(u: array<u64>, j: nat, v: Limbs) returns (qHat: u64)
    requires |v| >= 1 && v[|v| - 1] >= BASE / 2 && j + |v| < u.Length
    requires Val(u[j..j + |v| + 1]) < BASE * Val(v)
    ensures qHat * Val(v) - Val(v) <= Val(u[j..j + |v| + 1]) < qHat * Val(v) + Val(v)
  {
    var n := |v|;
    ghost var us := u[j..j + n + 1];
    TopLimbOrder(us, v);
    if n >= 2 {
      TopThree(us);
      TopTwo(v);
      qHat := EstimateDigit(u[j + n], u[j + n - 1], u[j + n - 2], v[n - 1], v[n - 2],
                            Val(us[n - 2..]), Val(v[n - 2..]));
      EstimateBrackets(us, v, qHat);
    } else {
      assert us == [u[j], u[j + 1]] && v == [v[0]];
      Val2(u[j], u[j + 1]);
      Val1(v[0]);
      var tmp := u[j + 1] * BASE + u[j];
      DivMod(tmp, v[0]);
      OneLimbDigit(tmp, v[0]);
      qHat := tmp / v[0];
    }
  }

  lemma OneLimbDigit(n: int, d: int)
    requires 0 <= n < BASE * d && d > 0
    ensures 0 <= n / d < BASE
    ensures (n / d) * d - d <= n < (n / d) * d + d
  {
    DivMod(n, d);
    if n / d >= BASE { MulLe(BASE, n / d, d); }
  }
}
