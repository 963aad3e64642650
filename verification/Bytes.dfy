/** Bytes, sizes and minimal big-endian numerals shared by every component. */
module Bytes {

  type byte = x: int | 0 <= x < 256

  type Bytes = seq<byte>

  datatype Option<+T> = None | Some(value: T)

  /** One more than the largest `size_t` / `uint64_t`. */
  const TWO_64: int := 0x1_0000_0000_0000_0000

  /** The value of a byte string read most significant byte first. */
  function FromBigEndian(s: Bytes): (n: nat)
    ensures forall i | 0 <= i < |s| :: s[i] == 0 || n > 0
  {
    if |s| == 0 then 0
    else FromBigEndian(s[..|s| - 1]) * 256 + s[|s| - 1]
  }

  /** The shortest byte string with the given value: no leading zero byte. */
  function ToBigEndian(n: nat): (s: Bytes)
    ensures |s| > 0 <==> n > 0
    ensures |s| > 0 ==> s[0] != 0
  {
    if n == 0 then [] else ToBigEndian(n / 256) + [n % 256]
  }

  function Pow256(k: nat): (p: nat)
    ensures p >= 1
  {
    if k == 0 then 1 else 256 * Pow256(k - 1)
  }

  /** The first byte counts most. */
  lemma {:induction false} Positional(b: byte, s: Bytes)
    ensures FromBigEndian([b] + s) == b * Pow256(|s|) + FromBigEndian(s)
  {
    var whole := [b] + s;
    if |s| == 0 {
      assert whole[..0] == [] && whole[0] == b;
    } else {
      var front := s[..|s| - 1];
      assert whole[..|whole| - 1] == [b] + front;
      Positional(b, front);
    }
  }

  lemma {:induction false} FromToBigEndian(n: nat)
    ensures FromBigEndian(ToBigEndian(n)) == n
  {
    if n > 0 {
      FromToBigEndian(n / 256);
      var s := ToBigEndian(n);
      assert s[..|s| - 1] == ToBigEndian(n / 256);
    }
  }

  lemma {:induction false} ToFromBigEndian(s: Bytes)
    requires |s| > 0 ==> s[0] != 0
    ensures ToBigEndian(FromBigEndian(s)) == s
  {
    if |s| > 0 {
      var t := s[..|s| - 1];
      ToFromBigEndian(t);
      assert s == t + [s[|s| - 1]];
      assert |t| > 0 ==> FromBigEndian(t) > 0;
    }
  }

  /** The number of bytes is at most `k` exactly when the value is below 256^k. */
  lemma {:induction false} ToBigEndianLength(n: nat, k: nat)
    ensures |ToBigEndian(n)| <= k <==> n < Pow256(k)
  {
    if n > 0 && k > 0 {
      ToBigEndianLength(n / 256, k - 1);
    }
  }

  lemma Pow256Values()
    ensures Pow256(1) == 256
    ensures Pow256(8) == TWO_64
    ensures Pow256(32) == TWO_64 * TWO_64 * TWO_64 * TWO_64
  {
    assert Pow256(4) == 0x1_0000_0000;
    assert Pow256(8) == TWO_64;
    assert Pow256(12) == TWO_64 * 0x1_0000_0000;
    assert Pow256(16) == TWO_64 * TWO_64;
    assert Pow256(20) == TWO_64 * TWO_64 * 0x1_0000_0000;
    assert Pow256(24) == TWO_64 * TWO_64 * TWO_64;
    assert Pow256(28) == TWO_64 * TWO_64 * TWO_64 * 0x1_0000_0000;
  }

  /** Lengths that fit a `size_t` need at most eight bytes. */
  lemma SizeFitsEightBytes(n: nat)
    ensures |ToBigEndian(n)| <= 8 <==> n < TWO_64
  {
    Pow256Values();
    ToBigEndianLength(n, 8);
  }

  lemma {:induction false} FromBigEndianBound(s: Bytes)
    ensures FromBigEndian(s) < Pow256(|s|)
  {
    if |s| > 0 {
      FromBigEndianBound(s[..|s| - 1]);
    }
  }
}
