/** ADDMOD and MULMOD: exact results through a 257-bit sum and a 512-bit product. */
module ModularArith {
  import opened Arith
  import opened Limbs
  import opened UInt256
  import KnuthD
  import LongDivision

  // ---------------------------------------------------------------------------
  // The full product
  // ---------------------------------------------------------------------------

  /** The row so far: `done` are the new limbs, `w` the old ones. */
  ghost predicate RowAdded(w: Limbs, done: Limbs, x: int, v: Limbs, carry: int) {
    && |done| <= |w| && |done| <= |v|
    && Val(done) + carry * PowBase(|done|) == Val(w[..|done|]) + x * Val(v[..|done|])
  }

  lemma RowStep(w: Limbs, done: Limbs, x: int, v: Limbs, limbProduct: int, carry: int, limb: u64, newCarry: int)
    requires |done| < |w| && |done| < |v| && limbProduct == x * v[|done|]
    requires RowAdded(w, done, x, v, carry)
    requires limb + newCarry * BASE == carry + w[|done|] + limbProduct
    ensures RowAdded(w, done + [limb], x, v, newCarry)
  {
    var i := |done|;
    KnuthD.Accumulate(PowBase(i), Val(done), Val(w[..i]), x * Val(v[..i]), carry, limb, w[i], limbProduct, newCarry);
    assert w[..i + 1] == w[..i] + [w[i]];
    ValAppend(w[..i], w[i]);
    ValAppend(done, limb);
    KnuthD.ProductOfPrefix(x, v, i);
  }

  lemma CellBound(x: u64, y: u64, cell: u64, carry: u64)
    ensures 0 <= x * y + cell + carry < BASE * BASE
    ensures (x * y + cell + carry) / BASE < BASE
  {
    MulLe(x, BASE - 1, y);
    MulLe(0, x, y);
  }

  /** Add `x * v` to the limbs of `result` at `i`, with the final carry in the limb above. */
  method AddRow(result: array<u64>, i: nat, x: u64, v: Limbs)
    requires i + |v| < result.Length
    modifies result
    ensures forall k | 0 <= k < result.Length && !(i <= k <= i + |v|) :: result[k] == old(result[k])
    ensures Val(result[i..i + |v| + 1]) == Val(old(result[i..i + |v|])) + x * Val(v)
  {
    var n := |v|;
    ghost var w := result[i..i + n];
    ghost var done: Limbs := [];
    var carry: u64 := 0;
    var j := 0;
    while j < n
      invariant 0 <= j <= n && |done| == j
      invariant forall k | 0 <= k < j :: result[i + k] == done[k]
      invariant forall k | 0 <= k < result.Length && !(i <= k < i + j) :: result[k] == old(result[k])
      invariant RowAdded(w, done, x, v, carry)
    {
      CellBound(x, v[j], result[i + j], carry);
      var cell: int := x as int * v[j] + result[i + j] + carry;
      RowStep(w, done, x, v, x as int * v[j], carry, cell % BASE, cell / BASE);
      result[i + j] := cell % BASE;
      done := done + [result[i + j]];
      carry := cell / BASE;
      j := j + 1;
    }
    result[i + n] := carry;
    RowAll(w, done, x, v, carry);
    assert result[i..i + n + 1] == done + [carry];
  }

  lemma RowAll(w: Limbs, done: Limbs, x: int, v: Limbs, carry: u64)
    requires RowAdded(w, done, x, v, carry) && |done| == |w| == |v|
    ensures Val(done + [carry]) == Val(w) + x * Val(v)
  {
    assert w[..|w|] == w && v[..|v|] == v;
    ValAppend(done, carry);
    Commute(carry, PowBase(|done|));
  }

  lemma Commute(x: int, y: int)
    ensures x * y == y * x
  {}

  /** One more row raises the product by that row, whatever lies below it. */
  lemma RowsStep(low: Limbs, before: Limbs, after: Limbs, done: Limbs, x: u64, b: int)
    requires |low| == |done| && Val(low + before) == Val(done) * b && Val(after) == Val(before) + x * b
    ensures Val(low + after) == Val(done + [x]) * b
  {
    ValConcat(low, before);
    ValConcat(low, after);
    ValAppend(done, x);
    Distribute(PowBase(|low|), Val(before), Val(after), x, b, Val(done), Val(low), Val(done + [x]));
  }

  lemma Distribute(p: int, w: int, w': int, x: int, b: int, low: int, below: int, high: int)
    requires w' == w + x * b && below + p * w == low * b && high == low + p * x
    ensures below + p * w' == high * b
  {
    MulAdd(w, x * b, p);
    MulAdd(low, p * x, b);
    MulAssoc(p, x, b);
  }

  /** The exact product of two words in eight limbs. */
  method MulFull(a: Word, b: Word) returns (product: Limbs)
    ensures |product| == 8 && Val(product) == Val(a) * Val(b)
  {
    var result := new u64[8](i => 0);
    assert result[..4] == Zeros(4);
    var i := 0;
    while i < 4
      invariant 0 <= i <= 4
      invariant Val(result[..i + 4]) == Val(a[..i]) * Val(b)
    {
      ghost var before := result[..i + 4];
      AddRow(result, i, a[i], b);
      ghost var low := before[..i];
      assert before == low + before[i..] && result[..i + 5] == low + result[i..i + 5];
      assert a[..i + 1] == a[..i] + [a[i]];
      RowsStep(low, before[i..], result[i..i + 5], a[..i], a[i], Val(b));
      i := i + 1;
    }
    product := result[..];
    assert a[..4] == a && result[..8] == result[..];
  }

  // ---------------------------------------------------------------------------
  // Reduction of 512 bits
  // ---------------------------------------------------------------------------

  /** The EVM's modulus: zero when the divisor is zero. */
  function Residue(n: int, d: int): int {
    if d == 0 then 0 else n % d
  }

  lemma ResidueIs(n: int, d: int, q: int, r: int)
    requires d > 0 && n == q * d + r && 0 <= r < d
    ensures Residue(n, d) == r
  {
    DivModUnique(n, d, q, r);
  }

  lemma ResidueOfZero(d: int)
    ensures Residue(0, d) == 0
  {}

  method Mod(a: Word, b: Word) returns (r: Word)
    ensures Val(r) == Residue(Val(a), Val(b))
  {
    var q;
    q, r := DivMod256(a, b);
    if Val(b) != 0 { ResidueIs(Val(a), Val(b), Val(q), Val(r)); }
  }

  method FitsWord(a: Limbs) returns (fits: bool)
    requires |a| == 8
    ensures fits <==> forall i :: 4 <= i < 8 ==> a[i] == 0
  {
    fits := a[4] == 0 && a[5] == 0 && a[6] == 0 && a[7] == 0;
  }

  /** A product that fits four limbs is reduced as a word. */
  method ModLow(a: Limbs, b: Word) returns (r: Word)
    requires |a| == 8 && forall i :: 4 <= i < 8 ==> a[i] == 0
    ensures Val(r) == Residue(Val(a), Val(b))
  {
    ValTruncate(a, 4);
    r := Mod(a[..4], b);
  }

  /** Long division of all eight limbs, by one limb or more. */
  method ModWide(a: Limbs, b: Word) returns (r: Word)
    requires |a| == 8 && Val(b) != 0
    ensures Val(r) == Residue(Val(a), Val(b))
  {
    var top := TopLimb(b);
    ValTruncate(b, top + 1);
    var q, rest := LongDivision.DivideLimbs(a, b[..top + 1]);
    PaddedValue(rest);
    r := Padded(rest);
    ResidueIs(Val(a), Val(b), Val(q), Val(rest));
  }

  method Mod512(a: Limbs, b: Word) returns (r: Word)
    requires |a| == 8
    ensures Val(r) == Residue(Val(a), Val(b))
  {
    SmallValue(0);
    ResidueOfZero(Val(b));
    if b == ZERO || a == Zeros(8) {
      r := ZERO;
    } else {
      NonZeroWord(b);
      var fits := FitsWord(a);
      if fits { r := ModLow(a, b); } else { r := ModWide(a, b); }
    }
  }

  // ---------------------------------------------------------------------------
  // MULMOD
  // ---------------------------------------------------------------------------

  lemma ZeroProduct(a: int, b: int, n: int)
    requires a == 0 || b == 0 || n == 0
    ensures Residue(a * b, n) == 0
  {}

  /** MULMOD reduces the exact product, for every modulus; a zero modulus gives zero. */
  method MulMod(a: Word, b: Word, n: Word) returns (r: Word)
    ensures Val(r) == Residue(Val(a) * Val(b), Val(n))
  {
    SmallValue(0);
    if n == ZERO || a == ZERO || b == ZERO {
      ZeroProduct(Val(a), Val(b), Val(n));
      r := ZERO;
    } else {
      var product := MulFull(a, b);
      var fits := FitsWord(product);
      if fits { r := ModLow(product, n); } else { r := Mod512(product, n); }
    }
  }

  lemma NonZeroWord(n: Word)
    requires n != ZERO
    ensures Val(n) != 0
  {
    SmallValue(0);
    if Val(n) == 0 { ValInjective(n, ZERO); }
  }

  // ---------------------------------------------------------------------------
  // ADDMOD
  // ---------------------------------------------------------------------------

  /** The sum of the two residues stays below 2^256: for a modulus above 2^255 because the first
      residue is the complement `2^256 - n` itself, below it because both residues are below `n`. */
  lemma ResiduesFit(n: int, pow: int, sum: int)
    requires 0 < n < TWO_256 && pow == (TWO_256 - n) % n && 0 <= sum < n
    ensures pow + sum < TWO_256 && pow + sum < 2 * n
  {
    DivMod(TWO_256 - n, n);
    if TWO_256 < 2 * n {
      DivModUnique(TWO_256 - n, n, 0, TWO_256 - n);
    }
  }

  /** Dividing out `n` from the two parts of a 257-bit sum divides it out of the sum. */
  lemma SplitSum(n: int, sum: int, q1: int, r1: int, q2: int, r2: int, k: int, r: int)
    requires TWO_256 - n == q1 * n + r1 && sum == q2 * n + r2 && r1 + r2 == r + k * n
    ensures TWO_256 + sum == (q1 + q2 + 1 + k) * n + r
  {
    MulAdd(q1, q2, n);
    MulAdd(q1 + q2, 1 + k, n);
    MulAdd(1, k, n);
  }

  const MAX: Word := [BASE - 1, BASE - 1, BASE - 1, BASE - 1]

  /** `2^256 mod n`, computed as `(MAX - n + 1) mod n`. */
  method PowMod(n: Word) returns (r: Word)
    requires Val(n) != 0
    ensures Val(r) == (TWO_256 - Val(n)) % Val(n)
  {
    WordOf(BASE - 1, BASE - 1, BASE - 1, BASE - 1);
    WordValue(n);
    SmallValue(1);
    var less := Sub(MAX, n);
    Wrap(Val(MAX) - Val(n), Val(MAX) - Val(n), 0);
    var complement := Add(less, Small(1));
    Wrap(Val(less) + 1, Val(less) + 1, 0);
    r := Mod(complement, n);
  }

  /** ADDMOD reduces the 257-bit sum, for every modulus; the branch for an overflow of the partial
      sum is never taken. */
  method AddMod(a: Word, b: Word, n: Word) returns (r: Word)
    ensures Val(r) == Residue(Val(a) + Val(b), Val(n))
  {
    SmallValue(0);
    if n == ZERO { return ZERO; }
    NonZeroWord(n);
    var sum, carry := AddCarry(a, b);
    if carry == 0 {
      r := Mod(sum, n);
      return;
    }
    r := AddResidues(sum, n, Val(a) + Val(b));
  }

  method AddResidues(sum: Word, n: Word, ghost total: int) returns (r: Word)
    requires Val(n) != 0 && total == TWO_256 + Val(sum)
    ensures Val(r) == Residue(total, Val(n))
  {
    WordValue(n);
    var pow := PowMod(n);
    var rest := Mod(sum, n);
    DivMod(Val(sum), Val(n));
    DivMod(TWO_256 - Val(n), Val(n));
    ResiduesFit(Val(n), Val(pow), Val(rest));
    var partial := Add(pow, rest);
    Wrap(Val(pow) + Val(rest), Val(pow) + Val(rest), 0);
    var overflow := Less(partial, pow);
    if overflow {
      assert false;
    }
    r := ReduceOnce(partial, n);
    ghost var k := if Val(r) == Val(partial) then 0 else 1;
    ghost var q1, q2 := (TWO_256 - Val(n)) / Val(n), Val(sum) / Val(n);
    SplitSum(Val(n), Val(sum), q1, Val(pow), q2, Val(rest), k, Val(r));
    ResidueIs(total, Val(n), q1 + q2 + 1 + k, Val(r));
  }

  method ReduceOnce(partial: Word, n: Word) returns (r: Word)
    requires Val(partial) < 2 * Val(n)
    ensures Val(r) < Val(n) && (Val(r) == Val(partial) || Val(r) == Val(partial) - Val(n))
  {
    var below := Less(partial, n);
    if below { return partial; }
    WordValue(partial);
    r := Sub(partial, n);
    Wrap(Val(partial) - Val(n), Val(partial) - Val(n), 0);
  }
}
