/** The RLP decoder: a cursor over the input, specified by functions on the bytes still to come.
    The main facts are equivalences: an item is accepted exactly when its canonical encoding stands
    at the cursor. */
module RlpDecoder {
  import opened Bytes
  import opened Rlp

  datatype Error = InputTooShort | LeadingZeros | NonCanonical | IntegerOverflow | InvalidPrefix | WrongSize

  datatype Result<+T> = Ok(value: T) | Err(error: Error)

  // ---------------------------------------------------------------------------
  // Reading the bytes ahead
  // ---------------------------------------------------------------------------

  function ReadLength(s: Bytes, k: nat): Result<nat>
    requires 1 <= k
  {
    if |s| < k then Err(InputTooShort)
    else if s[0] == 0 then Err(LeadingZeros)
    else Ok(FromBigEndian(s[..k]))
  }

  function ReadBytes(s: Bytes): Result<Bytes> {
    if |s| == 0 then Err(InputTooShort)
    else
      var prefix := s[0];
      if prefix <= SINGLE_BYTE_MAX then Ok([prefix])
      else if prefix <= SHORT_STRING_MAX then ReadShort(s[1..], prefix - EMPTY_STRING_BYTE)
      else if prefix <= LONG_STRING_MAX then ReadLong(s[1..], prefix - SHORT_STRING_MAX)
      else Err(InvalidPrefix)
  }

  function ReadShort(s: Bytes, len: nat): Result<Bytes> {
    if |s| < len then Err(InputTooShort)
    else if len == 1 && s[0] <= SINGLE_BYTE_MAX then Err(NonCanonical)
    else Ok(s[..len])
  }

  function ReadLong(s: Bytes, k: nat): Result<Bytes>
    requires 1 <= k
  {
    match ReadLength(s, k)
    case Err(e) => Err(e)
    case Ok(len) =>
      if len < SMALL_PREFIX_BARRIER then Err(NonCanonical)
      else if |s| - k < len then Err(InputTooShort)
      else Ok(s[k..k + len])
  }

  /** An unsigned integer of at most `width` bytes. */
  function ReadInt(s: Bytes, width: nat): Result<nat> {
    match ReadBytes(s)
    case Err(e) => Err(e)
    case Ok(b) =>
      if |b| > width then Err(IntegerOverflow)
      else if |b| > 1 && b[0] == 0 then Err(LeadingZeros)
      else Ok(FromBigEndian(b))
  }

  function ReadAddress(s: Bytes): Result<Bytes> {
    match ReadBytes(s)
    case Err(e) => Err(e)
    case Ok(b) => if |b| != 20 then Err(WrongSize) else Ok(b)
  }

  /** The payload length announced by a list header. */
  function ReadListHeader(s: Bytes): Result<nat> {
    if |s| == 0 then Err(InputTooShort)
    else
      var prefix := s[0];
      if prefix <= LONG_STRING_MAX then Err(InvalidPrefix)
      else if prefix <= SHORT_LIST_MAX then Ok(prefix - EMPTY_LIST_BYTE)
      else
        match ReadLength(s[1..], prefix - SHORT_LIST_MAX)
        case Err(e) => Err(e)
        case Ok(len) => if len < SMALL_PREFIX_BARRIER then Err(NonCanonical) else Ok(len)
  }

  // ---------------------------------------------------------------------------
  // Canonicity
  // ---------------------------------------------------------------------------

  /** Accepted length digits are the shortest ones. */
  lemma LengthCanonical(s: Bytes, k: nat)
    requires 1 <= k <= 8 && ReadLength(s, k).Ok?
    ensures var len := ReadLength(s, k).value;
            len < TWO_64 && ToBigEndian(len) == s[..k]
  {
    ToFromBigEndian(s[..k]);
    SizeFitsEightBytes(FromBigEndian(s[..k]));
  }

  /** Whatever is accepted re-encodes to the bytes that were read. */
  lemma AcceptedReencodes(s: Bytes)
    requires ReadBytes(s).Ok? && |s| < TWO_64
    ensures var d := ReadBytes(s).value;
            |d| < TWO_64 && EncodeBytes(d) <= s
  {
    var prefix, rest := s[0], s[1..];
    assert s == [prefix] + rest;
    if SINGLE_BYTE_MAX < prefix <= SHORT_STRING_MAX {
      ShortReencodes(rest, prefix - EMPTY_STRING_BYTE);
      assert [prefix] + rest[..prefix - EMPTY_STRING_BYTE] <= s;
    } else if SHORT_STRING_MAX < prefix {
      LongReencodes(rest, prefix - SHORT_STRING_MAX);
    }
  }

  lemma ShortReencodes(rest: Bytes, len: nat)
    requires len < SMALL_PREFIX_BARRIER && ReadShort(rest, len).Ok?
    ensures EncodeBytes(ReadShort(rest, len).value) == [EMPTY_STRING_BYTE + len] + rest[..len]
  {}

  lemma LongReencodes(rest: Bytes, k: nat)
    requires 1 <= k <= 8 && ReadLong(rest, k).Ok? && |rest| < TWO_64
    ensures var d := ReadLong(rest, k).value;
            && |d| >= SMALL_PREFIX_BARRIER
            && EncodeBytes(d) == [SHORT_STRING_MAX + k] + rest[..k + |d|]
  {
    var d := ReadLong(rest, k).value;
    LengthCanonical(rest, k);
    LongEncoding(d, rest[..k]);
    assert rest[..k] + d == rest[..k + |d|];
    assert [SHORT_STRING_MAX + k] + rest[..k] + d == [SHORT_STRING_MAX + k] + (rest[..k] + d);
  }

  /** The digits of a length, read back. */
  lemma ReadHeaderLength(s: Bytes, len: nat, digits: Bytes)
    requires |digits| > 0 && digits[0] != 0 && FromBigEndian(digits) == len && digits <= s
    ensures ReadLength(s, |digits|) == Ok(len)
  {
    assert s[..|digits|] == digits;
    assert s[0] == digits[0];
  }

  lemma EncodedIsAccepted(s: Bytes, d: Bytes)
    requires |d| < TWO_64 && EncodeBytes(d) <= s
    ensures ReadBytes(s) == Ok(d)
  {
    var e := EncodeBytes(d);
    assert s[0] == e[0];
    if |d| == 1 { assert d == [d[0]]; }
    if !(|d| == 1 && d[0] <= SINGLE_BYTE_MAX) {
      HeaderPrefix(EMPTY_STRING_BYTE, |d|);
      var header := Header(EMPTY_STRING_BYTE, |d|);
      assert s[|header|..|e|] == d by { assert s[..|e|] == e; }
      if |d| < SMALL_PREFIX_BARRIER {
        assert s[1..][..|d|] == d;
      } else {
        FromToBigEndian(|d|);
        LongIsAccepted(s, d, ToBigEndian(|d|));
      }
    }
  }

  lemma LongIsAccepted(s: Bytes, d: Bytes, digits: Bytes)
    requires SMALL_PREFIX_BARRIER <= |d| < TWO_64 && 1 <= |digits| <= 8
    requires digits[0] != 0 && FromBigEndian(digits) == |d|
    requires [EMPTY_STRING_BYTE + 55 + |digits|] + digits + d <= s
    ensures ReadBytes(s) == Ok(d)
  {
    LongSlices(s, EMPTY_STRING_BYTE + 55 + |digits|, digits, d);
    ReadHeaderLength(s[1..], |d|, digits);
    LongRead(s, |digits|, d);
  }

  lemma LongRead(s: Bytes, k: nat, d: Bytes)
    requires |s| > 0 && 1 <= k <= 8 && s[0] == SHORT_STRING_MAX + k && |d| >= SMALL_PREFIX_BARRIER
    requires ReadLength(s[1..], k) == Ok(|d|) && k + |d| <= |s| - 1 && s[1..][k..k + |d|] == d
    ensures ReadBytes(s) == Ok(d)
  {}

  lemma LongSlices(s: Bytes, prefix: byte, digits: Bytes, d: Bytes)
    requires [prefix] + digits + d <= s
    ensures s[0] == prefix && digits <= s[1..] && s[1..][|digits|..|digits| + |d|] == d
  {
    var k := |digits|;
    var e := [prefix] + digits + d;
    assert e[0] == prefix && e[1..1 + k] == digits && e[1 + k..] == d;
    assert s[..|e|] == e;
    assert s[1..][..k] == s[..|e|][1..1 + k];
    assert s[1..][k..k + |d|] == s[..|e|][1 + k..];
  }

  /** Byte strings: accepted exactly in their canonical form. */
  lemma BytesCanonical(s: Bytes, d: Bytes)
    requires |s| < TWO_64
    ensures ReadBytes(s) == Ok(d) <==> |d| < TWO_64 && EncodeBytes(d) <= s
  {
    if ReadBytes(s).Ok? { AcceptedReencodes(s); }
    if |d| < TWO_64 && EncodeBytes(d) <= s { EncodedIsAccepted(s, d); }
  }

  lemma HeaderIsAccepted(s: Bytes, len: nat)
    requires len < TWO_64 && Header(EMPTY_LIST_BYTE, len) <= s
    ensures ReadListHeader(s) == Ok(len)
  {
    HeaderPrefix(EMPTY_LIST_BYTE, len);
    if len >= SMALL_PREFIX_BARRIER {
      var digits := ToBigEndian(len);
      FromToBigEndian(len);
      LongHeaderRead(s, EMPTY_LIST_BYTE + 55 + |digits|, digits, len);
    }
  }

  lemma LongHeaderRead(s: Bytes, prefix: byte, digits: Bytes, len: nat)
    requires 1 <= |digits| <= 8 && digits[0] != 0 && FromBigEndian(digits) == len >= SMALL_PREFIX_BARRIER
    requires prefix == SHORT_LIST_MAX + |digits| && [prefix] + digits <= s
    ensures ReadListHeader(s) == Ok(len)
  {
    assert [prefix] + digits + [] == [prefix] + digits;
    LongSlices(s, prefix, digits, []);
    ReadHeaderLength(s[1..], len, digits);
  }

  lemma AcceptedHeader(s: Bytes)
    requires ReadListHeader(s).Ok?
    ensures var len := ReadListHeader(s).value;
            len < TWO_64 && Header(EMPTY_LIST_BYTE, len) <= s
  {
    var prefix, rest := s[0], s[1..];
    assert s == [prefix] + rest;
    if prefix > SHORT_LIST_MAX {
      var k := prefix - SHORT_LIST_MAX;
      LengthCanonical(rest, k);
      HeaderPrefix(EMPTY_LIST_BYTE, ReadListHeader(s).value);
      assert [prefix] + rest[..k] <= s;
    }
  }

  /** List headers: accepted exactly in their canonical form. */
  lemma ListHeaderCanonical(s: Bytes, len: nat)
    ensures ReadListHeader(s) == Ok(len) <==> len < TWO_64 && Header(EMPTY_LIST_BYTE, len) <= s
  {
    if ReadListHeader(s).Ok? { AcceptedHeader(s); }
    if len < TWO_64 && Header(EMPTY_LIST_BYTE, len) <= s { HeaderIsAccepted(s, len); }
  }

  /** Integers: accepted in canonical form, and in one other form: zero as the single byte 0x00. */
  lemma IntCanonical(s: Bytes, width: nat, n: nat)
    requires width <= 32 && |s| < TWO_64
    ensures ReadInt(s, width) == Ok(n) <==>
            (|ToBigEndian(n)| <= width && EncodeInt(n) <= s) || (width > 0 && n == 0 && [0] <= s)
  {
    var digits := ToBigEndian(n);
    BytesCanonical(s, digits);
    BytesCanonical(s, [0]);
    FromToBigEndian(n);
    assert FromBigEndian([0]) == 0 by { assert [0][..0] == []; }
    if ReadBytes(s).Ok? {
      var b := ReadBytes(s).value;
      if |b| > 0 && b[0] != 0 { ToFromBigEndian(b); }
      if |b| == 0 { assert b == []; }
      if |b| == 1 && b[0] == 0 { assert b == [0]; }
    }
  }

  // ---------------------------------------------------------------------------
  // Tokens
  // ---------------------------------------------------------------------------

  // Every read takes one token: a byte string with its header, or the header of a list without its
  // payload. Where the tokens of an input end does not depend on what is being read.

  function TokenLength(s: Bytes): (n: nat)
    requires 0 < |s| < TWO_64
    ensures 1 <= n <= |s|
  {
    if ReadBytes(s).Ok? then AcceptedReencodes(s); |EncodeBytes(ReadBytes(s).value)|
    else if ReadListHeader(s).Ok? then AcceptedHeader(s); |Header(EMPTY_LIST_BYTE, ReadListHeader(s).value)|
    else |s|
  }

  /** The number of tokens in an input; what cannot be read counts as one. */
  function Tokens(s: Bytes): nat
    requires |s| < TWO_64
    decreases |s|
  {
    if |s| == 0 then 0 else 1 + Tokens(s[TokenLength(s)..])
  }

  /** `left` tells for every position how many tokens are still to come. */
  ghost predicate Counts(s: Bytes, left: seq<nat>)
    requires |s| < TWO_64
  {
    |left| == |s| + 1 && forall p {:trigger Tokens(s[p..])} | 0 <= p <= |s| :: left[p] == Tokens(s[p..])
  }

  /** A read takes one token off. */
  lemma OneTaken(s: Bytes, left: seq<nat>, p: nat, n: nat)
    requires p < |s| < TWO_64 && Counts(s, left) && n == TokenLength(s[p..])
    ensures p + n <= |s| && left[p] == 1 + left[p + n]
  {
    assert Tokens(s[p..]) == 1 + Tokens(s[p..][n..]);
    assert s[p..][n..] == s[p + n..];
  }

  /** An encoded byte string is one token. */
  lemma BytesToken(d: Bytes, rest: Bytes)
    requires |EncodeBytes(d) + rest| < TWO_64
    ensures Tokens(EncodeBytes(d) + rest) == 1 + Tokens(rest)
  {
    var s := EncodeBytes(d) + rest;
    EncodeBytesNotShorter(d);
    BytesCanonical(s, d);
    assert s[|EncodeBytes(d)|..] == rest;
  }

  lemma EncodeBytesNotShorter(d: Bytes)
    ensures |d| <= |EncodeBytes(d)|
  {}

  /** An encoded list is the token of its header, and then the tokens of its payload. */
  lemma ListToken(payload: Bytes, rest: Bytes)
    requires |EncodeList(payload) + rest| < TWO_64
    ensures Tokens(EncodeList(payload) + rest) == 1 + Tokens(payload + rest)
  {
    var header := Header(EMPTY_LIST_BYTE, |payload|);
    var s := EncodeList(payload) + rest;
    assert s == header + (payload + rest);
    ListHeaderCanonical(s, |payload|);
    HeaderPrefix(EMPTY_LIST_BYTE, |payload|);
    assert s[0] == header[0];
    assert ReadBytes(s).Err?;
    assert s[|header|..] == payload + rest;
  }

  // ---------------------------------------------------------------------------
  // The cursor
  // ---------------------------------------------------------------------------

  lemma SliceAhead(input: Bytes, start: nat, k: nat, len: nat)
    requires start + k + len <= |input|
    ensures input[start..][k..k + len] == input[start + k..start + k + len]
  {}

  class Decoder {
    const input: Bytes
    var pos: nat
    ghost const left: seq<nat>

    ghost predicate Valid()
      reads this
    {
      pos <= |input| < TWO_64 && Counts(input, left)
    }

    /** How many tokens are still to come. */
    ghost function Left(): nat
      requires Valid()
      reads this
    {
      left[pos]
    }

    ghost function Rest(): Bytes
      requires Valid()
      reads this
    {
      input[pos..]
    }

    constructor (input: Bytes)
      requires |input| < TWO_64
      ensures Valid() && this.input == input && pos == 0 && Left() == Tokens(input)
    {
      this.input := input;
      pos := 0;
      left := seq(|input| + 1, p requires 0 <= p <= |input| => Tokens(input[p..]));
      assert input[0..] == input;
    }

    method DecodeLength(k: nat) returns (r: Result<nat>)
      requires Valid() && 1 <= k <= 8
      modifies this`pos
      ensures Valid() && r == ReadLength(old(Rest()), k)
      ensures pos == old(pos) + if r.Ok? then k else 0
    {
      if |input| - pos < k { return Err(InputTooShort); }
      if input[pos] == 0 { return Err(LeadingZeros); }
      ghost var digits := Rest()[..k];
      var start := pos;
      var length: nat := 0;
      assert digits[..0] == [];
      for i := 0 to k
        invariant pos == start + i && Valid()
        invariant length == FromBigEndian(digits[..i])
      {
        assert digits[..i + 1][..i] == digits[..i];
        length := length * 256 + input[pos];
        pos := pos + 1;
      }
      assert digits[..k] == digits;
      return Ok(length);
    }

    method DecodeBytes() returns (r: Result<Bytes>)
      requires Valid()
      modifies this
      ensures Valid() && r == ReadBytes(old(Rest()))
      ensures r.Ok? ==> pos == old(pos) + |EncodeBytes(r.value)| && old(Left()) == 1 + Left()
    {
      r := TakeBytes();
      if r.Ok? { OneTaken(input, left, old(pos), |EncodeBytes(r.value)|); }
    }

    method TakeBytes() returns (r: Result<Bytes>)
      requires Valid()
      modifies this`pos
      ensures Valid() && r == ReadBytes(old(Rest()))
      ensures r.Ok? ==> pos == old(pos) + |EncodeBytes(r.value)|
    {
      if pos == |input| { return Err(InputTooShort); }
      var prefix := input[pos];
      pos := pos + 1;
      ghost var rest := Rest();
      assert rest == old(Rest())[1..];
      if prefix <= SINGLE_BYTE_MAX {
        r := Ok([prefix]);
      } else if prefix <= SHORT_STRING_MAX {
        r := TakeShort(prefix - EMPTY_STRING_BYTE);
        if r.Ok? { ShortReencodes(rest, prefix - EMPTY_STRING_BYTE); }
      } else if prefix <= LONG_STRING_MAX {
        r := TakeLong(prefix - SHORT_STRING_MAX);
        if r.Ok? { LongReencodes(rest, prefix - SHORT_STRING_MAX); }
      } else {
        r := Err(InvalidPrefix);
      }
    }

    method TakeShort(len: nat) returns (r: Result<Bytes>)
      requires Valid()
      modifies this`pos
      ensures Valid() && r == ReadShort(old(Rest()), len)
      ensures pos == old(pos) + if r.Ok? then len else 0
    {
      if |input| - pos < len { return Err(InputTooShort); }
      if len == 1 && input[pos] <= SINGLE_BYTE_MAX { return Err(NonCanonical); }
      r := Ok(input[pos..pos + len]);
      assert r.value == Rest()[..len];
      pos := pos + len;
    }

    method TakeLong(k: nat) returns (r: Result<Bytes>)
      requires Valid() && 1 <= k <= 8
      modifies this`pos
      ensures Valid() && r == ReadLong(old(Rest()), k)
      ensures r.Ok? ==> pos == old(pos) + k + |r.value|
    {
      ghost var s := Rest();
      var length := DecodeLength(k);
      if length.Err? { return Err(length.error); }
      var len := length.value;
      if len < SMALL_PREFIX_BARRIER { return Err(NonCanonical); }
      if |input| - pos < len { return Err(InputTooShort); }
      r := Ok(input[pos..pos + len]);
      SliceAhead(input, pos - k, k, len);
      pos := pos + len;
    }

    method DecodeInt(width: nat) returns (r: Result<nat>)
      requires Valid() && width <= 32
      modifies this
      ensures Valid() && r == ReadInt(old(Rest()), width)
      ensures r.Ok? ==> pos == old(pos) + |EncodeInt(r.value)| && old(Left()) == 1 + Left()
    {
      ghost var s := Rest();
      var bytes := DecodeBytes();
      if bytes.Err? { return Err(bytes.error); }
      var b := bytes.value;
      if |b| > width { return Err(IntegerOverflow); }
      if |b| > 1 && b[0] == 0 { return Err(LeadingZeros); }
      var value: nat := 0;
      for i := 0 to |b|
        invariant value == FromBigEndian(b[..i])
      {
        assert b[..i + 1][..i] == b[..i];
        value := value * 256 + b[i];
      }
      assert b[..|b|] == b;
      if |b| == 1 && b[0] == 0 { assert b == [0]; } else { ToFromBigEndian(b); }
      return Ok(value);
    }

    method DecodeAddress() returns (r: Result<Bytes>)
      requires Valid()
      modifies this
      ensures Valid() && r == ReadAddress(old(Rest()))
      ensures r.Ok? ==> pos == old(pos) + |EncodeBytes(r.value)| && old(Left()) == 1 + Left()
    {
      r := DecodeBytes();
      if r.Ok? && |r.value| != 20 { return Err(WrongSize); }
    }

    method DecodeListHeader() returns (r: Result<nat>)
      requires Valid()
      modifies this
      ensures Valid() && r == ReadListHeader(old(Rest()))
      ensures r.Ok? ==> pos == old(pos) + |Header(EMPTY_LIST_BYTE, r.value)| && old(Left()) == 1 + Left()
    {
      r := TakeListHeader();
      if r.Ok? { OneTaken(input, left, old(pos), |Header(EMPTY_LIST_BYTE, r.value)|); }
    }

    method TakeListHeader() returns (r: Result<nat>)
      requires Valid()
      modifies this`pos
      ensures Valid() && r == ReadListHeader(old(Rest()))
      ensures r.Ok? ==> pos == old(pos) + |Header(EMPTY_LIST_BYTE, r.value)|
    {
      if pos == |input| { return Err(InputTooShort); }
      ghost var s := Rest();
      var prefix := input[pos];
      pos := pos + 1;
      assert s[1..] == Rest();
      if prefix <= LONG_STRING_MAX { return Err(InvalidPrefix); }
      if prefix <= SHORT_LIST_MAX { return Ok(prefix - EMPTY_LIST_BYTE); }
      var length := DecodeLength(prefix - SHORT_LIST_MAX);
      if length.Err? { return Err(length.error); }
      if length.value < SMALL_PREFIX_BARRIER { return Err(NonCanonical); }
      LengthCanonical(s[1..], prefix - SHORT_LIST_MAX);
      return Ok(length.value);
    }
  }
}
