/** SDIV and SMOD on two's complement words. */
module SignedArith {
  import opened Arith
  import opened Limbs
  import opened UInt256

  const TWO_255: int := TWO_256 / 2

  const MIN: Word := [0, 0, 0, BASE / 2]
  const MINUS_ONE: Word := [BASE - 1, BASE - 1, BASE - 1, BASE - 1]

  /** The two's complement reading of a word. */
  function Signed(w: Word): (n: int) {
    if Val(w) < TWO_255 then Val(w) else Val(w) - TWO_256
  }

  function Abs(n: int): nat {
    if n < 0 then -n else n
  }

  /** Division rounding toward zero, and the remainder that goes with it. */
  function Quotient(x: int, y: int): int
    requires y != 0
  {
    if (x < 0) == (y < 0) then Abs(x) / Abs(y) else -(Abs(x) / Abs(y))
  }

  function Remainder(x: int, y: int): int
    requires y != 0
  {
    if x < 0 then -(Abs(x) % Abs(y)) else Abs(x) % Abs(y)
  }

  /** The pair is the division that truncates: the remainder is smaller than the divisor and takes
      the dividend's sign. */
  lemma Truncates(x: int, y: int)
    requires y != 0
    ensures x == Quotient(x, y) * y + Remainder(x, y)
    ensures Abs(Remainder(x, y)) < Abs(y)
    ensures Remainder(x, y) == 0 || (Remainder(x, y) < 0 <==> x < 0)
  {
    var a, b := Abs(x), Abs(y);
    DivMod(a, b);
    var q := a / b;
    assert (-q) * y == -(q * y) && q * (-y) == -(q * y);
  }

  lemma SignBit(w: Word)
    ensures w[3] >= BASE / 2 <==> Signed(w) < 0
    ensures -TWO_255 <= Signed(w) < TWO_255
  {
    WordValue(w);
  }

  method IsNegative(w: Word) returns (negative: bool)
    ensures negative <==> Signed(w) < 0
  {
    SignBit(w);
    negative := w[3] >= BASE / 2;
  }

  /** Complement and add one. */
  method Negate(w: Word) returns (r: Word)
    ensures Val(r) == if Val(w) == 0 then 0 else TWO_256 - Val(w)
  {
    var flipped: Word := [BASE - 1 - w[0], BASE - 1 - w[1], BASE - 1 - w[2], BASE - 1 - w[3]];
    WordValue(w);
    WordOf(BASE - 1 - w[0], BASE - 1 - w[1], BASE - 1 - w[2], BASE - 1 - w[3]);
    SmallValue(1);
    r := Add(flipped, Small(1));
    if Val(w) == 0 { Wrap(TWO_256, 0, 1); } else { Wrap(TWO_256 - Val(w), TWO_256 - Val(w), 0); }
  }

  method Magnitude(w: Word) returns (negative: bool, m: Word)
    ensures negative <==> Signed(w) < 0
    ensures Val(m) == Abs(Signed(w))
  {
    WordValue(w);
    negative := IsNegative(w);
    if negative { m := Negate(w); } else { m := w; }
  }

  method WithSign(negative: bool, m: Word) returns (r: Word)
    requires Val(m) < TWO_255 || (negative && Val(m) == TWO_255)
    ensures Signed(r) == if negative then -Val(m) else Val(m)
  {
    if negative { r := Negate(m); } else { r := m; }
  }

  method DivideSmall(x: u64, y: u64) returns (q: Word, r: Word)
    requires y != 0
    ensures Divided(x, y, Val(q), Val(r))
  {
    DivMod(x, y);
    var d, m := x / y, x % y;
    q, r := Small(d), Small(m);
    SmallValue(d);
    SmallValue(m);
  }

  /** The quotient of the magnitudes; words of one limb take the machine's division. */
  method DivideMagnitudes(a: Word, b: Word) returns (q: Word, r: Word)
    requires Val(b) != 0
    ensures Val(q) == Val(a) / Val(b) && Val(r) == Val(a) % Val(b)
  {
    if a == Small(a[0]) && b == Small(b[0]) {
      SmallValue(a[0]);
      SmallValue(b[0]);
      q, r := DivideSmall(a[0], b[0]);
    } else {
      q, r := DivMod256(a, b);
    }
    DivModUnique(Val(a), Val(b), Val(q), Val(r));
  }

  /** The quotient of magnitudes overflows only for the least word over minus one. */
  lemma QuotientFits(x: int, y: int)
    requires -TWO_255 <= x < TWO_255 && y != 0
    ensures Abs(x) / Abs(y) <= TWO_255
    ensures Abs(x) / Abs(y) == TWO_255 && (x < 0) == (y < 0) ==> x == -TWO_255 && y == -1
  {
    var a, b := Abs(x), Abs(y);
    DivMod(a, b);
    if b >= 2 { MulLe(2, b, a / b); } else { assert a / b == a; }
  }

  lemma ExtremeValues()
    ensures Signed(MIN) == -TWO_255 && Signed(MINUS_ONE) == -1
  {
    WordOf(0, 0, 0, BASE / 2);
    WordOf(BASE - 1, BASE - 1, BASE - 1, BASE - 1);
  }

  lemma SignedInjective(v: Word, w: Word)
    requires Signed(v) == Signed(w)
    ensures v == w
  {
    WordValue(v);
    WordValue(w);
    ValInjective(v, w);
  }

  /** SDIV: zero on a zero divisor, the least word over minus one wraps to itself, and otherwise the
      quotient truncated toward zero. */
  method SDiv(a: Word, b: Word) returns (r: Word)
    ensures Signed(r) == if Signed(b) == 0 then 0
                         else if Signed(a) == -TWO_255 && Signed(b) == -1 then -TWO_255
                         else Quotient(Signed(a), Signed(b))
  {
    SmallValue(0);
    ExtremeValues();
    SignBit(a);
    SignBit(b);
    if b == ZERO {
      r := ZERO;
    } else if a == MIN && b == MINUS_ONE {
      r := MIN;
    } else {
      if Signed(b) == 0 { SignedInjective(b, ZERO); }
      if Signed(a) == -TWO_255 && Signed(b) == -1 { SignedInjective(a, MIN); SignedInjective(b, MINUS_ONE); }
      r := DivideSigned(a, b);
    }
  }

  method DivideSigned(a: Word, b: Word) returns (r: Word)
    requires Signed(b) != 0 && !(Signed(a) == -TWO_255 && Signed(b) == -1)
    ensures Signed(r) == Quotient(Signed(a), Signed(b))
  {
    var aNegative, x := Magnitude(a);
    var bNegative, y := Magnitude(b);
    var q, rest := DivideMagnitudes(x, y);
    SignBit(a);
    QuotientFits(Signed(a), Signed(b));
    r := WithSign(aNegative != bNegative, q);
  }

  /** SMOD: zero on a zero divisor, otherwise the remainder with the sign of the dividend. */
  method SMod(a: Word, b: Word) returns (r: Word)
    ensures Signed(r) == if Signed(b) == 0 then 0 else Remainder(Signed(a), Signed(b))
  {
    SmallValue(0);
    if b == ZERO {
      r := ZERO;
    } else {
      if Signed(b) == 0 { SignedInjective(b, ZERO); }
      var aNegative, x := Magnitude(a);
      var bNegative, y := Magnitude(b);
      var q, rest := DivideMagnitudes(x, y);
      SignBit(b);
      DivMod(Abs(Signed(a)), Abs(Signed(b)));
      r := WithSign(aNegative, rest);
    }
  }
}
