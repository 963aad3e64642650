/** Little-endian multi-limb numbers in base 2^64. */
module Limbs {
  import opened Bytes

  const BASE: int := TWO_64

  type u64 = x: int | 0 <= x < BASE

  type Limbs = seq<u64>

  function PowBase(k: nat): (p: int)
    ensures p >= 1
  {
    if k == 0 then 1 else BASE * PowBase(k - 1)
  }

  /** The number a limb string stands for, least significant limb first. */
  function Val(s: Limbs): (n: int)
    ensures n >= 0
  {
    if |s| == 0 then 0 else s[0] + BASE * Val(s[1..])
  }

  lemma {:induction false} ValBound(s: Limbs)
    ensures Val(s) < PowBase(|s|)
  {
    if |s| > 0 { ValBound(s[1..]); }
  }

  lemma {:induction false} PowBaseAdd(a: nat, b: nat)
    ensures PowBase(a + b) == PowBase(a) * PowBase(b)
  {
    if a > 0 {
      PowBaseAdd(a - 1, b);
      assert BASE * (PowBase(a - 1) * PowBase(b)) == (BASE * PowBase(a - 1)) * PowBase(b);
    }
  }

  lemma {:induction false} ValConcat(s: Limbs, t: Limbs)
    ensures Val(s + t) == Val(s) + PowBase(|s|) * Val(t)
  {
    if |s| == 0 {
      assert s + t == t;
    } else {
      ValConcat(s[1..], t);
      assert (s + t)[1..] == s[1..] + t;
      assert BASE * (PowBase(|s| - 1) * Val(t)) == (BASE * PowBase(|s| - 1)) * Val(t);
    }
  }

  lemma ValAppend(s: Limbs, x: u64)
    ensures Val(s + [x]) == Val(s) + PowBase(|s|) * x
  {
    ValConcat(s, [x]);
    assert Val([x]) == x;
  }

  lemma ValSplit(s: Limbs, k: nat)
    requires k <= |s|
    ensures Val(s) == Val(s[..k]) + PowBase(k) * Val(s[k..])
  {
    assert s == s[..k] + s[k..];
    ValConcat(s[..k], s[k..]);
  }

  /** Limb strings of one length are equal when their values are. */
  lemma {:induction false} ValInjective(s: Limbs, t: Limbs)
    requires |s| == |t| && Val(s) == Val(t)
    ensures s == t
  {
    if |s| > 0 {
      assert s[0] == t[0] && Val(s[1..]) == Val(t[1..]);
      ValInjective(s[1..], t[1..]);
      assert s == [s[0]] + s[1..] && t == [t[0]] + t[1..];
    }
  }

  lemma Val1(a: u64)
    ensures Val([a]) == a
  {}

  lemma Val2(a: u64, b: u64)
    ensures Val([a, b]) == a + BASE * b
  {
    assert [a, b][1..] == [b];
    Val1(b);
  }

  lemma Val3(a: u64, b: u64, c: u64)
    ensures Val([a, b, c]) == a + BASE * b + BASE * BASE * c
  {
    assert [a, b, c][1..] == [b, c];
    Val2(b, c);
  }

  lemma Val4(a: u64, b: u64, c: u64, d: u64)
    ensures Val([a, b, c, d]) == a + BASE * b + BASE * BASE * c + BASE * BASE * BASE * d
  {
    assert [a, b, c, d][1..] == [b, c, d];
    Val3(b, c, d);
  }
}
