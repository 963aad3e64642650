/** Accounts as they are stored in the state trie. */
module Accounts {
  import opened Bytes
  import opened Rlp
  import opened ByteBuffer
  import opened RlpEncoder
  import opened RlpDecoder
  import opened Limbs
  import opened UInt256
  import opened WordBytes
  import opened TxFields

  datatype Account = Account(nonce: nat, balance: Word, storageRoot: Bytes, codeHash: Bytes)

  ghost predicate Formed(a: Account) {
    a.nonce < TWO_64 && |a.storageRoot| == 32 && |a.codeHash| == 32
  }

  /** The payload with the given bytes for the two integers. */
  function Payload(nonce: Bytes, balance: Bytes, a: Account): Bytes {
    nonce + (balance + (EncodeBytes(a.storageRoot) + EncodeBytes(a.codeHash)))
  }

  function Encoding(a: Account): Bytes {
    EncodeList(Payload(EncodeInt(a.nonce), EncodeInt(Val(a.balance)), a))
  }

  /** Integers of `k` bytes encode in `k + 1`. */
  lemma IntSize(n: nat, k: nat)
    requires |ToBigEndian(n)| <= k < SMALL_PREFIX_BARRIER
    ensures |EncodeInt(n)| <= k + 1
  {}

  /** Every account fits the 128 bytes the encoder reserves. */
  lemma AccountFits(a: Account)
    requires Formed(a)
    ensures MAX_HEADER_SIZE + |Payload(EncodeInt(a.nonce), EncodeInt(Val(a.balance)), a)| <= 117
  {
    SizeFitsEightBytes(a.nonce);
    IntSize(a.nonce, 8);
    WordFits(a.balance);
    IntSize(Val(a.balance), 32);
  }

  method EncodeAccount(a: Account) returns (out: Bytes)
    requires Formed(a)
    ensures out == Encoding(a)
  {
    AccountFits(a);
    var nonce := EncodeU64(a.nonce);
    var balance := EncodeUint256(a.balance);
    var root := EncodeByteString(a.storageRoot);
    var code := EncodeByteString(a.codeHash);
    var b := Reserved(128);
    var headerPos := ListStart(b);
    assert nonce + balance + root + code == Payload(nonce, balance, a);
    PushFour(b, nonce, balance, root, code);
    assert b.Contents()[MAX_HEADER_SIZE..] == Payload(nonce, balance, a);
    ListEnd(b, headerPos);
    out := b.data[..b.size];
  }

  method PushFour(b: Buffer, w: Bytes, x: Bytes, y: Bytes, z: Bytes)
    requires Fixed(b) && b.size + |w + x + y + z| <= b.capacity
    modifies b, b.data
    ensures Fixed(b) && b.data == old(b.data) && b.capacity == old(b.capacity)
    ensures b.Contents() == old(b.Contents()) + (w + x + y + z)
  {
    ghost var before := b.Contents();
    Push(b, w);
    Push(b, x);
    Push(b, y);
    Push(b, z);
    assert before + w + x + y + z == before + (w + x + y + z);
  }

  // ---------------------------------------------------------------------------
  // Decoding
  // ---------------------------------------------------------------------------

  // Each step splits what is ahead into the bytes it read and the rest. Expecting `want` in the bytes
  // `form`, followed by `tail`, it finds them.

  method TakeU64(dec: Decoder, ghost want: nat, ghost form: Bytes, ghost tail: Bytes)
      returns (r: Option<nat>, ghost read: Bytes)
    requires dec.Valid()
    modifies dec
    ensures dec.Valid()
    ensures r.Some? ==> r.value < TWO_64 && IntForm(r.value, read) && old(dec.Rest()) == read + dec.Rest()
    ensures want < TWO_64 && IntForm(want, form) && old(dec.Rest()) == form + tail
            ==> r == Some(want) && dec.Rest() == tail
  {
    ghost var s, start := dec.Rest(), dec.pos;
    r := DecodeU64(dec, want);
    read := [];
    if r.Some? {
      RestAfter(dec.input, start, dec.pos - start);
      read := s[..dec.pos - start];
      FormRead(s, r.value, dec.pos - start);
    }
    if IntForm(want, form) { IntFormLength(want, form); }
  }

  method TakeWord(dec: Decoder, ghost want: Word, ghost form: Bytes, ghost tail: Bytes)
      returns (r: Option<Word>, ghost read: Bytes)
    requires dec.Valid()
    modifies dec
    ensures dec.Valid()
    ensures r.Some? ==> IntForm(Val(r.value), read) && old(dec.Rest()) == read + dec.Rest()
    ensures IntForm(Val(want), form) && old(dec.Rest()) == form + tail ==> r == Some(want) && dec.Rest() == tail
  {
    ghost var s, start := dec.Rest(), dec.pos;
    ghost var wanted := Val(want);
    r := DecodeWord(dec, want);
    read := [];
    if r.Some? {
      ghost var n, size := Val(r.value), dec.pos - start;
      RestAfter(dec.input, start, size);
      read := s[..size];
      FormRead(s, n, size);
    }
    if IntForm(wanted, form) { IntFormLength(wanted, form); }
  }

  method TakeHash(dec: Decoder, ghost want: Bytes, ghost tail: Bytes) returns (r: Option<Bytes>)
    requires dec.Valid()
    modifies dec
    ensures dec.Valid()
    ensures r.Some? ==> |r.value| == 32 && old(dec.Rest()) == EncodeBytes(r.value) + dec.Rest()
    ensures |want| == 32 && old(dec.Rest()) == EncodeBytes(want) + tail ==> r == Some(want) && dec.Rest() == tail
  {
    ghost var start := dec.pos;
    r := DecodeString(dec, want);
    if r.Some? {
      RestAfter(dec.input, start, dec.pos - start);
      if |r.value| != 32 { return None; }
    }
  }

  /** `bytes` are `form`, the form of the account `a` with `x` and `y` for its integers. */
  ghost predicate Expected(form: Bytes, a: Account, x: Bytes, y: Bytes, bytes: Bytes) {
    Formed(a) && IntForm(a.nonce, x) && IntForm(Val(a.balance), y) && bytes == form
  }

  /** An account is accepted exactly when the input is one list holding its fields and nothing else;
      a zero nonce or balance may also be written as the byte 0x00. `x` and `y` are the bytes found
      for the two integers; `want`, `wx` and `wy` are any account and bytes. */
  method DecodeAccount(data: Bytes, ghost want: Account, ghost wx: Bytes, ghost wy: Bytes)
      returns (r: Option<Account>, ghost x: Bytes, ghost y: Bytes)
    requires |data| < TWO_64
    ensures r.Some? ==> Formed(r.value) && IntForm(r.value.nonce, x) && IntForm(Val(r.value.balance), y)
    ensures r.Some? ==> data == EncodeList(Payload(x, y, r.value))
    ensures Expected(EncodeList(Payload(wx, wy, want)), want, wx, wy, data) ==> r == Some(want)
  {
    x, y := [], [];
    if |data| == 0 { return None, x, y; }
    var dec := new Decoder(data);
    assert dec.Rest() == data;
    var whole := OpenList(dec, Payload(wx, wy, want));
    if !whole { return None, x, y; }
    r, x, y := DecodePayload(dec, want, wx, wy);
  }

  /** The header of a list that takes up all of the input. */
  method OpenList(dec: Decoder, ghost payload: Bytes) returns (ok: bool)
    requires dec.Valid()
    modifies dec
    ensures dec.Valid() && (ok ==> old(dec.Rest()) == EncodeList(dec.Rest()))
    ensures old(dec.Rest()) == EncodeList(payload) ==> ok && dec.Rest() == payload
  {
    ghost var s, start := dec.Rest(), dec.pos;
    var header := DecodeHeader(dec, payload);
    if header.None? || header.value != |dec.input| - dec.pos { return false; }
    ListHeaderCanonical(s, header.value);
    RestAfter(dec.input, start, dec.pos - start);
    assert s == Header(EMPTY_LIST_BYTE, header.value) + dec.Rest();
    return true;
  }

  method DecodePayload(dec: Decoder, ghost want: Account, ghost wx: Bytes, ghost wy: Bytes)
      returns (r: Option<Account>, ghost x: Bytes, ghost y: Bytes)
    requires dec.Valid()
    modifies dec
    ensures dec.Valid()
    ensures r.Some? ==> Formed(r.value) && IntForm(r.value.nonce, x) && IntForm(Val(r.value.balance), y)
    ensures r.Some? ==> old(dec.Rest()) == Payload(x, y, r.value)
    ensures Expected(Payload(wx, wy, want), want, wx, wy, old(dec.Rest())) ==> r == Some(want)
  {
    y := [];
    ghost var tail := EncodeBytes(want.storageRoot) + EncodeBytes(want.codeHash);
    var nonce, balance;
    nonce, x := TakeU64(dec, want.nonce, wx, wy + tail);
    if nonce.None? { return None, x, y; }
    balance, y := TakeWord(dec, want.balance, wy, tail);
    if balance.None? { return None, x, y; }
    var hashes := TakeHashes(dec, want);
    if hashes.None? { return None, x, y; }
    r := Some(Account(nonce.value, balance.value, hashes.value.0, hashes.value.1));
  }

  method TakeHashes(dec: Decoder, ghost want: Account) returns (r: Option<(Bytes, Bytes)>)
    requires dec.Valid()
    modifies dec
    ensures dec.Valid()
    ensures r.Some? ==> |r.value.0| == 32 && |r.value.1| == 32
    ensures r.Some? ==> old(dec.Rest()) == EncodeBytes(r.value.0) + EncodeBytes(r.value.1)
    ensures Formed(want) && old(dec.Rest()) == EncodeBytes(want.storageRoot) + EncodeBytes(want.codeHash)
            ==> r == Some((want.storageRoot, want.codeHash))
  {
    ghost var e := EncodeBytes(want.codeHash);
    assert e == e + [];
    var root := TakeHash(dec, want.storageRoot, e);
    if root.None? { return None; }
    var code := TakeHash(dec, want.codeHash, []);
    if code.None? { return None; }
    if dec.pos < |dec.input| { return None; }
    assert dec.Rest() == [];
    return Some((root.value, code.value));
  }

  /** Every account decodes to itself. */
  method RoundTrip(a: Account) returns (r: Option<Account>)
    requires Formed(a)
    ensures r == Some(a)
  {
    var e := EncodeAccount(a);
    AccountFits(a);
    HeaderPrefix(EMPTY_LIST_BYTE, |Payload(EncodeInt(a.nonce), EncodeInt(Val(a.balance)), a)|);
    ghost var x, y;
    r, x, y := DecodeAccount(e, a, EncodeInt(a.nonce), EncodeInt(Val(a.balance)));
  }
}
