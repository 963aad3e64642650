/** 256-bit words as big-endian byte strings, and their RLP encoding. */
module WordBytes {
  import opened Bytes
  import opened Rlp
  import opened Arith
  import opened Limbs
  import opened UInt256
  import opened RlpEncoder

  lemma {:induction false} FromBigEndianConcat(a: Bytes, b: Bytes)
    ensures FromBigEndian(a + b) == FromBigEndian(a) * Pow256(|b|) + FromBigEndian(b)
  {
    if |b| == 0 {
      assert a + b == a;
    } else {
      var last := |b| - 1;
      FromBigEndianConcat(a, b[..last]);
      assert (a + b)[..|a| + last] == a + b[..last];
      MulAssoc(FromBigEndian(a), Pow256(last), 256);
    }
  }

  lemma {:induction false} LeadingZerosVanish(zeros: Bytes, b: Bytes)
    requires forall i | 0 <= i < |zeros| :: zeros[i] == 0
    ensures FromBigEndian(zeros + b) == FromBigEndian(b)
  {
    FromBigEndianConcat(zeros, b);
    ZeroBytes(zeros);
  }

  lemma {:induction false} ZeroBytes(zeros: Bytes)
    requires forall i | 0 <= i < |zeros| :: zeros[i] == 0
    ensures FromBigEndian(zeros) == 0
  {
    if |zeros| > 0 { ZeroBytes(zeros[..|zeros| - 1]); }
  }

  // ---------------------------------------------------------------------------
  // Bytes to words
  // ---------------------------------------------------------------------------

  method LimbFromBytes(p: Bytes) returns (limb: u64)
    requires |p| == 8
    ensures limb == FromBigEndian(p)
  {
    var n: nat := 0;
    for j := 0 to 8
      invariant n == FromBigEndian(p[..j])
    {
      assert p[..j + 1][..j] == p[..j];
      n := n * 256 + p[j];
    }
    assert p[..8] == p;
    FromBigEndianBound(p);
    Pow256Values();
    limb := n;
  }

  function ZeroPad(k: nat): (z: Bytes)
    ensures |z| == k && forall i | 0 <= i < k :: z[i] == 0
  {
    if k == 0 then [] else ZeroPad(k - 1) + [0]
  }

  /** Eight bytes below a number shift it by one limb. */
  lemma LimbBelow(high: Bytes, p: Bytes)
    requires |p| == 8
    ensures FromBigEndian(high + p) == FromBigEndian(high) * BASE + FromBigEndian(p)
  {
    FromBigEndianConcat(high, p);
    Pow256Values();
  }

  /** The word with a big-endian value; more than 32 bytes lose the leading ones. */
  method FromBytes(data: Bytes) returns (w: Word)
    ensures Val(w) == FromBigEndian(if |data| > 32 then data[|data| - 32..] else data)
  {
    var tail := if |data| > 32 then data[|data| - 32..] else data;
    var pad := ZeroPad(32 - |tail|);
    var p := pad + tail;
    LeadingZerosVanish(pad, tail);
    var l3 := LimbFromBytes(p[..8]);
    var l2 := LimbFromBytes(p[8..16]);
    var l1 := LimbFromBytes(p[16..24]);
    var l0 := LimbFromBytes(p[24..]);
    assert p[..8] + p[8..16] == p[..16] && p[..16] + p[16..24] == p[..24] && p[..24] + p[24..] == p;
    LimbBelow(p[..8], p[8..16]);
    LimbBelow(p[..16], p[16..24]);
    LimbBelow(p[..24], p[24..]);
    w := [l0, l1, l2, l3];
    WordOf(l0, l1, l2, l3);
  }

  // ---------------------------------------------------------------------------
  // Words to bytes
  // ---------------------------------------------------------------------------

  /** The low `k` bytes of `n`, most significant first. */
  function FixedBytes(n: nat, k: nat): (b: Bytes)
    ensures |b| == k
  {
    if k == 0 then [] else FixedBytes(n / 256, k - 1) + [n % 256]
  }

  lemma {:induction false} FixedBytesValue(n: nat, k: nat)
    requires n < Pow256(k)
    ensures FromBigEndian(FixedBytes(n, k)) == n
  {
    if k > 0 {
      FixedBytesValue(n / 256, k - 1);
      var b := FixedBytes(n, k);
      assert b[..k - 1] == FixedBytes(n / 256, k - 1);
    }
  }

  method LimbToBytes(limb: u64) returns (b: Bytes)
    ensures |b| == 8 && FromBigEndian(b) == limb
  {
    b := [];
    var rest: nat := limb;
    for j := 0 to 8
      invariant |b| == j && FixedBytes(rest, 8 - j) + b == FixedBytes(limb, 8)
    {
      assert FixedBytes(rest, 8 - j) == FixedBytes(rest / 256, 8 - (j + 1)) + [rest % 256];
      b := [rest % 256] + b;
      rest := rest / 256;
    }
    assert FixedBytes(rest, 0) + b == b;
    Pow256Values();
    FixedBytesValue(limb, 8);
  }

  method ToBytes(w: Word) returns (b: Bytes)
    ensures |b| == 32 && FromBigEndian(b) == Val(w)
  {
    var b3 := LimbToBytes(w[3]);
    var b2 := LimbToBytes(w[2]);
    var b1 := LimbToBytes(w[1]);
    var b0 := LimbToBytes(w[0]);
    LimbBelow(b3, b2);
    LimbBelow(b3 + b2, b1);
    LimbBelow(b3 + b2 + b1, b0);
    WordValue(w);
    b := b3 + b2 + b1 + b0;
  }

  // ---------------------------------------------------------------------------
  // RLP
  // ---------------------------------------------------------------------------

  method FirstNonZero(b: Bytes) returns (start: nat)
    requires FromBigEndian(b) > 0
    ensures start < |b| && b[start] != 0 && forall i | 0 <= i < start :: b[i] == 0
  {
    start := 0;
    while start < |b| && b[start] == 0
      invariant start <= |b| && forall i | 0 <= i < start :: b[i] == 0
    {
      start := start + 1;
    }
    if start == |b| { ZeroBytes(b); }
  }

  lemma StrippedIsMinimal(b: Bytes, start: nat)
    requires start < |b| && b[start] != 0 && forall i | 0 <= i < start :: b[i] == 0
    ensures ToBigEndian(FromBigEndian(b)) == b[start..]
  {
    assert b == b[..start] + b[start..];
    LeadingZerosVanish(b[..start], b[start..]);
    ToFromBigEndian(b[start..]);
  }

  method EncodeUint256(w: Word) returns (r: Bytes)
    ensures r == EncodeInt(Val(w))
  {
    SmallValue(0);
    WordValue(w);
    if w == ZERO {
      return [EMPTY_STRING_BYTE];
    }
    if w[3] == 0 && w[2] == 0 && w[1] == 0 && w[0] < 128 {
      assert ToBigEndian(Val(w)) == [Val(w)];
      return [w[0]];
    }
    r := EncodeLarge(w);
  }

  method EncodeLarge(w: Word) returns (r: Bytes)
    requires Val(w) >= 128
    ensures r == EncodeInt(Val(w))
  {
    var bytes := ToBytes(w);
    var start := FirstNonZero(bytes);
    StrippedIsMinimal(bytes, start);
    var digits := bytes[start..];
    LargeEncoding(Val(w), digits);
    var b := Reserved(1 + |digits|);
    Push(b, [EMPTY_STRING_BYTE + |digits|]);
    Push(b, digits);
    r := b.data[..b.size];
  }

  lemma LargeEncoding(n: nat, digits: Bytes)
    requires n >= 128 && digits == ToBigEndian(n) && |digits| <= 32
    ensures EncodeInt(n) == [EMPTY_STRING_BYTE + |digits|] + digits
  {
    FromToBigEndian(n);
    if |digits| == 1 {
      assert digits[..0] == [];
    }
  }
}
