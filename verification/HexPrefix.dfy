/** Nibble strings and the hex-prefix code (Appendix C of the Yellow Paper). */
module HexPrefix {
  import opened Bytes

  type nibble = x: int | 0 <= x < 16

  type Nibbles = seq<nibble>

  // ---------------------------------------------------------------------------
  // Nibble strings
  // ---------------------------------------------------------------------------

  function High(b: byte): nibble { b / 16 }

  function Low(b: byte): nibble { b % 16 }

  function Pack(high: nibble, low: nibble): (b: byte)
    ensures High(b) == high && Low(b) == low
  {
    (high as int) * 16 + low
  }

  /** Each byte as its high nibble followed by its low nibble. */
  function ToNibbles(bytes: Bytes): (r: Nibbles)
    ensures |r| == 2 * |bytes|
  {
    if |bytes| == 0 then [] else [High(bytes[0]), Low(bytes[0])] + ToNibbles(bytes[1..])
  }

  /** Pairs of nibbles as bytes; an odd last nibble is dropped. */
  function ToBytes(nibbles: Nibbles): (r: Bytes)
    ensures |r| == |nibbles| / 2
  {
    if |nibbles| < 2 then [] else [Pack(nibbles[0], nibbles[1])] + ToBytes(nibbles[2..])
  }

  /** Expanding to nibbles loses nothing, so distinct keys stay distinct. */
  lemma {:induction false} ToBytesToNibbles(bytes: Bytes)
    ensures ToBytes(ToNibbles(bytes)) == bytes
  {
    if |bytes| > 0 {
      ToBytesToNibbles(bytes[1..]);
      assert ToNibbles(bytes)[2..] == ToNibbles(bytes[1..]);
      assert bytes == [bytes[0]] + bytes[1..];
    }
  }

  /** Every nibble string of even length is the expansion of the bytes it packs to. */
  lemma {:induction false} ToNibblesToBytes(nibbles: Nibbles)
    requires |nibbles| % 2 == 0
    ensures ToNibbles(ToBytes(nibbles)) == nibbles
  {
    if |nibbles| > 0 {
      ToNibblesToBytes(nibbles[2..]);
      assert ToBytes(nibbles)[1..] == ToBytes(nibbles[2..]);
      assert nibbles == [nibbles[0], nibbles[1]] + nibbles[2..];
    }
  }

  lemma NextByte(done: Nibbles, bytes: Bytes, i: nat)
    requires i < |bytes|
    ensures done + ToNibbles(bytes[i..]) == done + [High(bytes[i]), Low(bytes[i])] + ToNibbles(bytes[i + 1..])
  {
    assert bytes[i..][1..] == bytes[i + 1..];
  }

  /** The expansion loop: two nibbles per byte, written in place from `start` on. */
  method Unpack(bytes: Bytes, data: array<nibble>, start: nat)
    requires start + 2 * |bytes| <= data.Length
    modifies data
    ensures data[..start + 2 * |bytes|] == old(data[..start]) + ToNibbles(bytes)
  {
    var i := 0;
    while i < |bytes|
      invariant 0 <= i <= |bytes|
      invariant data[..start + 2 * i] + ToNibbles(bytes[i..]) == old(data[..start]) + ToNibbles(bytes)
    {
      ghost var done := data[..start + 2 * i];
      NextByte(done, bytes, i);
      data[start + i * 2] := High(bytes[i]);
      data[start + i * 2 + 1] := Low(bytes[i]);
      assert data[..start + 2 * i + 2] == done + [High(bytes[i]), Low(bytes[i])];
      i := i + 1;
    }
  }

  method NibblesFromBytes(bytes: Bytes) returns (r: Nibbles)
    ensures r == ToNibbles(bytes)
  {
    if |bytes| == 0 { return []; }
    var data := new nibble[2 * |bytes|];
    Unpack(bytes, data, 0);
    r := data[..];
  }

  /** The length of the longest common prefix of `path` and `key`. */
  function CommonPrefix(path: Nibbles, key: Nibbles): (m: nat)
    ensures m <= |path| && m <= |key|
    ensures path[..m] == key[..m]
    ensures m < |path| && m < |key| ==> path[m] != key[m]
  {
    if |path| > 0 && |key| > 0 && path[0] == key[0] then
      var m := 1 + CommonPrefix(path[1..], key[1..]);
      assert path[..m] == [path[0]] + path[1..][..m - 1];
      assert key[..m] == [key[0]] + key[1..][..m - 1];
      m
    else 0
  }

  lemma CommonPrefixUnique(path: Nibbles, key: Nibbles, m: nat)
    requires m <= |path| && m <= |key|
    requires path[..m] == key[..m]
    requires m < |path| && m < |key| ==> path[m] != key[m]
    ensures m == CommonPrefix(path, key)
  {
    var c := CommonPrefix(path, key);
    assert forall i | 0 <= i < m :: path[i] == path[..m][i] == key[..m][i] == key[i];
    assert forall i | 0 <= i < c :: path[i] == path[..c][i] == key[..c][i] == key[i];
  }

  // ---------------------------------------------------------------------------
  // Hex-prefix encoding
  // ---------------------------------------------------------------------------

  function Flags(odd: bool, leaf: bool): (f: nibble)
    ensures f < 4
  {
    (if leaf then 2 else 0) + (if odd then 1 else 0)
  }

  /** First byte: flags in the high nibble and, for odd paths, the first nibble below
      them; then the remaining nibbles in pairs. */
  function Encode(path: Nibbles, leaf: bool): (e: Bytes)
    ensures |e| == 1 + |path| / 2
  {
    if |path| % 2 == 1 then [Pack(Flags(true, leaf), path[0])] + ToBytes(path[1..])
    else [Pack(Flags(false, leaf), 0)] + ToBytes(path)
  }

  datatype Decoded = Failure | Success(path: Nibbles, leaf: bool)

  /** Only flag bits 0 and 1 are looked at, and the padding nibble of an even path is skipped. */
  function Decode(data: Bytes): Decoded {
    if |data| == 0 then Failure
    else
      var flags := High(data[0]) % 4;
      var rest := ToNibbles(data[1..]);
      Success(if flags % 2 == 1 then [Low(data[0])] + rest else rest, flags / 2 == 1)
  }

  lemma DecodeEncode(path: Nibbles, leaf: bool)
    ensures Decode(Encode(path, leaf)) == Success(path, leaf)
  {
    var e := Encode(path, leaf);
    if |path| % 2 == 1 {
      assert e[1..] == ToBytes(path[1..]);
      ToNibblesToBytes(path[1..]);
      assert path == [path[0]] + path[1..];
    } else {
      assert e[1..] == ToBytes(path);
      ToNibblesToBytes(path);
    }
  }

  lemma EncodeInjective(p: Nibbles, pLeaf: bool, q: Nibbles, qLeaf: bool)
    requires Encode(p, pLeaf) == Encode(q, qLeaf)
    ensures p == q && pLeaf == qLeaf
  {
    DecodeEncode(p, pLeaf);
    DecodeEncode(q, qLeaf);
  }

  /** Decoding accepts more than encoding produces: re-encoding gives the input back exactly
      when the two unused flag bits are clear and an even path is padded with zero. */
  lemma EncodeDecode(data: Bytes)
    requires |data| > 0
    ensures var d := Decode(data);
            Encode(d.path, d.leaf) == data
            <==> High(data[0]) < 4 && (High(data[0]) % 2 == 0 ==> Low(data[0]) == 0)
  {
    var d := Decode(data);
    var rest := ToNibbles(data[1..]);
    ToBytesToNibbles(data[1..]);
    var e := Encode(d.path, d.leaf);
    if High(data[0]) % 2 == 1 {
      assert d.path[1..] == rest;
    }
    assert e[1..] == data[1..];
    SameTail(e, data);
    PackHighLow(data[0]);
  }

  lemma SameTail(a: Bytes, b: Bytes)
    requires |a| > 0 && |b| > 0 && a[1..] == b[1..]
    ensures a == b <==> a[0] == b[0]
  {
    assert a == [a[0]] + a[1..] && b == [b[0]] + b[1..];
  }

  lemma PackHighLow(b: byte)
    ensures Pack(High(b), Low(b)) == b
  {}

  method EncodePath(path: Nibbles, leaf: bool) returns (result: Bytes)
    ensures result == Encode(path, leaf)
  {
    var odd := |path| % 2 == 1;
    var flags: nibble := 0;
    if leaf { flags := flags + 2; }
    if odd { flags := flags + 1; }
    if odd {
      var rest := PackPairs(path[1..]);
      result := [Pack(flags, path[0])] + rest;
    } else {
      var rest := PackPairs(path);
      result := [Pack(flags, 0)] + rest;
    }
  }

  method PackPairs(path: Nibbles) returns (result: Bytes)
    requires |path| % 2 == 0
    ensures result == ToBytes(path)
  {
    result := [];
    assert path[0..] == path;
    for k := 0 to |path| / 2
      invariant result + ToBytes(path[2 * k..]) == ToBytes(path)
    {
      NextPair(result, path, 2 * k);
      result := result + [Pack(path[2 * k], path[2 * k + 1])];
    }
    assert path[2 * (|path| / 2)..] == [];
  }

  lemma NextPair(done: Bytes, path: Nibbles, i: nat)
    requires i + 2 <= |path|
    ensures done + ToBytes(path[i..]) == done + [Pack(path[i], path[i + 1])] + ToBytes(path[i + 2..])
  {
    var rest := path[i..];
    assert rest[2..] == path[i + 2..];
    assert ToBytes(rest) == [Pack(rest[0], rest[1])] + ToBytes(rest[2..]);
  }

  method DecodePath(data: Bytes) returns (result: Decoded)
    ensures result == Decode(data)
  {
    if |data| == 0 { return Failure; }
    var flags := High(data[0]) % 4;
    var leaf := flags / 2 == 1;
    var odd := flags % 2 == 1;
    var path := UnpackAfter(if odd then [Low(data[0])] else [], data[1..]);
    return Success(path, leaf);
  }

  /** The nibbles of `bytes` in a fresh array, after the nibbles already known. */
  method UnpackAfter(first: Nibbles, bytes: Bytes) returns (path: Nibbles)
    ensures path == first + ToNibbles(bytes)
  {
    var count := |first| + |bytes| * 2;
    if count == 0 { return []; }
    var nibbles := new nibble[count];
    forall i | 0 <= i < |first| { nibbles[i] := first[i]; }
    assert nibbles[..|first|] == first;
    Unpack(bytes, nibbles, |first|);
    path := nibbles[..];
  }
}
