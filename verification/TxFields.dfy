/** The kinds of field an Ethereum transaction or account is made of, as RLP values, and the decoders
    that read them back. Each decoder takes, as a ghost, the value it is expected to find: the
    contract holds for every such value. */
module TxFields {
  import opened Bytes
  import opened Rlp
  import opened RlpEncoder
  import opened RlpDecoder
  import opened Limbs
  import opened UInt256
  import opened WordBytes

  datatype Entry = Entry(address: Bytes, keys: seq<Word>)

  datatype Auth = Auth(chainId: nat, address: Bytes, nonce: nat, yParity: byte, r: Word, s: Word)

  datatype Field =
    | U64(n: nat)
    | Big(w: Word)
    | MaybeAddress(target: Option<Bytes>)
    | Address(a: Bytes)
    | Data(b: Bytes)
    | Parity(p: byte)
    | Access(entries: seq<Entry>)
    | Auths(auths: seq<Auth>)
    | Hashes(hashes: seq<Bytes>)

  datatype Kind = U64Kind | BigKind | MaybeAddressKind | AddressKind | DataKind | ParityKind | AccessKind
                | AuthsKind | HashesKind

  function KindOf(f: Field): Kind {
    match f
    case U64(_) => U64Kind
    case Big(_) => BigKind
    case MaybeAddress(_) => MaybeAddressKind
    case Address(_) => AddressKind
    case Data(_) => DataKind
    case Parity(_) => ParityKind
    case Access(_) => AccessKind
    case Auths(_) => AuthsKind
    case Hashes(_) => HashesKind
  }

  predicate IsAddress(a: Bytes) {
    |a| == 20
  }

  ghost predicate Formed(f: Field) {
    match f
    case U64(n) => n < TWO_64
    case MaybeAddress(target) => target.Some? ==> IsAddress(target.value)
    case Address(a) => IsAddress(a)
    case Access(entries) => EntriesFormed(entries)
    case Auths(auths) => AuthsFormed(auths)
    case Hashes(hashes) => HashesFormed(hashes)
    case _ => true
  }

  ghost predicate AuthFormed(a: Auth) {
    a.chainId < TWO_64 && a.nonce < TWO_64 && IsAddress(a.address)
  }

  // ---------------------------------------------------------------------------
  // Fields as RLP values
  // ---------------------------------------------------------------------------

  function IntItem(n: nat): Item {
    Str(ToBigEndian(n))
  }

  function WordItem(w: Word): Item {
    IntItem(Val(w))
  }

  function KeyItems(keys: seq<Word>): (items: seq<Item>)
    ensures |items| == |keys| && forall i | 0 <= i < |items| :: items[i] == WordItem(keys[i])
  {
    if |keys| == 0 then [] else [WordItem(keys[0])] + KeyItems(keys[1..])
  }

  function EntryItem(e: Entry): Item {
    List([Str(e.address), List(KeyItems(e.keys))])
  }

  function EntryItems(entries: seq<Entry>): (items: seq<Item>)
    ensures |items| == |entries| && forall i | 0 <= i < |items| :: items[i] == EntryItem(entries[i])
  {
    if |entries| == 0 then [] else [EntryItem(entries[0])] + EntryItems(entries[1..])
  }

  function AuthItem(a: Auth): Item {
    List([IntItem(a.chainId), Str(a.address), IntItem(a.nonce), IntItem(a.yParity), WordItem(a.r), WordItem(a.s)])
  }

  function AuthItems(auths: seq<Auth>): (items: seq<Item>)
    ensures |items| == |auths| && forall i | 0 <= i < |items| :: items[i] == AuthItem(auths[i])
  {
    if |auths| == 0 then [] else [AuthItem(auths[0])] + AuthItems(auths[1..])
  }

  function HashItems(hashes: seq<Bytes>): (items: seq<Item>)
    ensures |items| == |hashes| && forall i | 0 <= i < |items| :: items[i] == Str(hashes[i])
  {
    if |hashes| == 0 then [] else [Str(hashes[0])] + HashItems(hashes[1..])
  }

  function ToItem(f: Field): Item {
    match f
    case U64(n) => IntItem(n)
    case Big(w) => WordItem(w)
    case MaybeAddress(target) => Str(if target.Some? then target.value else [])
    case Address(a) => Str(a)
    case Data(b) => Str(b)
    case Parity(p) => IntItem(p)
    case Access(entries) => List(EntryItems(entries))
    case Auths(auths) => List(AuthItems(auths))
    case Hashes(hashes) => List(HashItems(hashes))
  }

  function FieldItems(fields: seq<Field>): (items: seq<Item>)
    ensures |items| == |fields| && forall i | 0 <= i < |items| :: items[i] == ToItem(fields[i])
  {
    if |fields| == 0 then [] else [ToItem(fields[0])] + FieldItems(fields[1..])
  }

  /** The values from index `i` on stand at `pos` and end at `end`. */
  ghost predicate Ahead(rest: Bytes, pos: nat, end: nat, items: seq<Item>, i: nat) {
    i <= |items| && EncodeItems(items[i..]) <= rest && pos + |EncodeItems(items[i..])| == end
  }

  /** Before the end there is a next value, and the others follow it. */
  lemma AheadStep(rest: Bytes, pos: nat, end: nat, items: seq<Item>, i: nat)
    requires Ahead(rest, pos, end, items, i) && (pos < end || i < |items|)
    ensures pos < end && i < |items| && EncodeItem(items[i]) <= rest
    ensures var n := |EncodeItem(items[i])|; Ahead(rest[n..], pos + n, end, items, i + 1)
  {
    assert items[i..][1..] == items[i + 1..];
    AfterFirst(rest, EncodeItem(items[i]), EncodeItems(items[i + 1..]));
  }

  lemma AheadDone(rest: Bytes, pos: nat, end: nat, items: seq<Item>, i: nat)
    requires Ahead(rest, pos, end, items, i) && pos >= end
    ensures i == |items| && pos == end
  {}

  lemma AfterFirst(s: Bytes, first: Bytes, second: Bytes)
    requires first + second <= s
    ensures first <= s && second <= s[|first|..]
  {
    assert first == (first + second)[..|first|];
    assert second == (first + second)[|first|..];
  }

  lemma RestAfter(input: Bytes, pos: nat, n: nat)
    requires pos + n <= |input|
    ensures input[pos + n..] == input[pos..][n..]
  {}

  // ---------------------------------------------------------------------------
  // Scalars
  // ---------------------------------------------------------------------------

  lemma WordFits(w: Word)
    ensures |ToBigEndian(Val(w))| <= 32
  {
    WordValue(w);
    Pow256Values();
    ToBigEndianLength(Val(w), 32);
  }

  /** The two byte strings accepted for an integer. */
  predicate IntForm(n: nat, b: Bytes) {
    b == EncodeInt(n) || (n == 0 && b == [0])
  }

  lemma IntFormLength(n: nat, b: Bytes)
    requires IntForm(n, b)
    ensures |b| == |EncodeInt(n)|
  {
    if n == 0 { assert ToBigEndian(0) == []; }
  }

  lemma FormRead(s: Bytes, n: nat, k: nat)
    requires EncodeInt(n) <= s || (n == 0 && [0] <= s)
    requires k == |EncodeInt(n)| <= |s|
    ensures IntForm(n, s[..k])
  {
    if !(EncodeInt(n) <= s) {
      IntFormLength(0, [0]);
      assert s[..1] == [0];
    }
  }

  method DecodeU64(dec: Decoder, ghost want: nat) returns (r: Option<nat>)
    requires dec.Valid()
    modifies dec
    ensures dec.Valid()
    ensures r.Some? ==> old(dec.Left()) == 1 + dec.Left()
    ensures r.Some? ==> r.value < TWO_64 && dec.pos == old(dec.pos) + |EncodeInt(r.value)|
    ensures r.Some? ==> EncodeInt(r.value) <= old(dec.Rest()) || (r.value == 0 && [0] <= old(dec.Rest()))
    ensures want < TWO_64 && EncodeInt(want) <= old(dec.Rest()) ==> r == Some(want)
    ensures want == 0 && [0] <= old(dec.Rest()) ==> r == Some(want)
  {
    IntCanonical(dec.Rest(), 8, want);
    SizeFitsEightBytes(want);
    ghost var s := dec.Rest();
    var read := dec.DecodeInt(8);
    if read.Err? { return None; }
    IntCanonical(s, 8, read.value);
    SizeFitsEightBytes(read.value);
    return Some(read.value);
  }

  method DecodeWord(dec: Decoder, ghost want: Word) returns (r: Option<Word>)
    requires dec.Valid()
    modifies dec
    ensures dec.Valid()
    ensures r.Some? ==> old(dec.Left()) == 1 + dec.Left()
    ensures r.Some? ==> dec.pos == old(dec.pos) + |EncodeInt(Val(r.value))|
    ensures r.Some? ==> EncodeInt(Val(r.value)) <= old(dec.Rest()) || (Val(r.value) == 0 && [0] <= old(dec.Rest()))
    ensures EncodeInt(Val(want)) <= old(dec.Rest()) ==> r == Some(want)
    ensures Val(want) == 0 && [0] <= old(dec.Rest()) ==> r == Some(want)
  {
    ghost var s := dec.Rest();
    IntCanonical(s, 32, Val(want));
    WordFits(want);
    var read := dec.DecodeBytes();
    if read.Err? { return None; }
    var b := read.value;
    if |b| > 32 || (|b| > 1 && b[0] == 0) { return None; }
    var w := FromBytes(b);
    if |b| == 1 && b[0] == 0 { assert b == [0]; } else { ToFromBigEndian(b); }
    IntCanonical(s, 32, Val(w));
    if Val(w) == Val(want) { ValInjective(w, want); }
    return Some(w);
  }

  method DecodeString(dec: Decoder, ghost want: Bytes) returns (r: Option<Bytes>)
    requires dec.Valid()
    modifies dec
    ensures dec.Valid()
    ensures r.Some? ==> old(dec.Left()) == 1 + dec.Left()
    ensures r.Some? ==> dec.pos == old(dec.pos) + |EncodeBytes(r.value)|
    ensures r.Some? ==> EncodeBytes(r.value) <= old(dec.Rest())
    ensures |want| < TWO_64 && EncodeBytes(want) <= old(dec.Rest()) ==> r == Some(want)
  {
    ghost var s := dec.Rest();
    BytesCanonical(s, want);
    var read := dec.DecodeBytes();
    if read.Err? { return None; }
    BytesCanonical(s, read.value);
    return Some(read.value);
  }

  // ---------------------------------------------------------------------------
  // Lists
  // ---------------------------------------------------------------------------

  /** Where a list ends, in 64-bit arithmetic as the source computes it. */
  function ListLimit(pos: nat, len: nat): nat {
    (pos + len) % TWO_64
  }

  method DecodeHeader(dec: Decoder, ghost payload: Bytes) returns (r: Option<nat>)
    requires dec.Valid()
    modifies dec
    ensures dec.Valid()
    ensures r.Some? ==> old(dec.Left()) == 1 + dec.Left()
    ensures r.Some? ==> ReadListHeader(old(dec.Rest())) == Ok(r.value)
    ensures r.Some? ==> dec.pos > old(dec.pos) && dec.pos == old(dec.pos) + |Header(EMPTY_LIST_BYTE, r.value)|
    ensures EncodeList(payload) <= old(dec.Rest()) ==>
              && r == Some(|payload|) && payload <= dec.Rest()
              && dec.pos + |payload| == old(dec.pos) + |EncodeList(payload)|
              && ListLimit(dec.pos, |payload|) == dec.pos + |payload|
  {
    ghost var s := dec.Rest();
    ListHeaderCanonical(s, |payload|);
    var read := dec.DecodeListHeader();
    if EncodeList(payload) <= s {
      AfterFirst(s, Header(EMPTY_LIST_BYTE, |payload|), payload);
    }
    if read.Err? { return None; }
    return Some(read.value);
  }

  method DecodeKeys(dec: Decoder, end: nat, ghost want: seq<Word>) returns (r: Option<seq<Word>>)
    requires dec.Valid()
    modifies dec
    ensures dec.Valid()
    ensures r.Some? ==> old(dec.Left()) == |r.value| + dec.Left()
    ensures r.Some? ==> dec.pos >= old(dec.pos)
    ensures Ahead(old(dec.Rest()), old(dec.pos), end, KeyItems(want), 0) ==> r == Some(want) && dec.pos == end
  {
    var keys: seq<Word> := [];
    ghost var items := KeyItems(want);
    ghost var good := Ahead(dec.Rest(), dec.pos, end, items, 0);
    while dec.pos < end
      invariant dec.Valid() && dec.pos >= old(dec.pos) && old(dec.Left()) == |keys| + dec.Left()
      invariant good ==> |keys| <= |want| && keys == want[..|keys|]
      invariant good ==> Ahead(dec.Rest(), dec.pos, end, items, |keys|)
      decreases |dec.input| - dec.pos
    {
      ghost var start, next := dec.pos, ZERO;
      if good {
        AheadStep(dec.Rest(), dec.pos, end, items, |keys|);
        next := want[|keys|];
      }
      var key := DecodeWord(dec, next);
      if key.None? { return None; }
      RestAfter(dec.input, start, |EncodeInt(Val(key.value))|);
      keys := keys + [key.value];
    }
    if good {
      AheadDone(dec.Rest(), dec.pos, end, items, |keys|);
      assert want[..|want|] == want;
    }
    return Some(keys);
  }

  method DecodeSized(dec: Decoder, size: nat, ghost want: Bytes) returns (r: Option<Bytes>)
    requires dec.Valid()
    modifies dec
    ensures dec.Valid()
    ensures r.Some? ==> old(dec.Left()) == 1 + dec.Left()
    ensures r.Some? ==> |r.value| == size && dec.pos == old(dec.pos) + |EncodeBytes(r.value)|
    ensures |want| == size < TWO_64 && EncodeBytes(want) <= old(dec.Rest()) ==> r == Some(want)
  {
    r := DecodeString(dec, want);
    if r.Some? && |r.value| != size { return None; }
  }

  /** A list whose items are known to come next: after its header they are ahead. */
  lemma PayloadAhead(rest: Bytes, pos: nat, items: seq<Item>)
    requires EncodeItems(items) <= rest
    ensures Ahead(rest, pos, pos + |EncodeItems(items)|, items, 0)
  {
    assert items[0..] == items;
  }

  method DecodeKeyList(dec: Decoder, ghost want: seq<Word>) returns (r: Option<seq<Word>>)
    requires dec.Valid()
    modifies dec
    ensures dec.Valid()
    ensures r.Some? ==> old(dec.Left()) == 1 + |r.value| + dec.Left()
    ensures r.Some? ==> dec.pos > old(dec.pos)
    ensures var e := EncodeItem(List(KeyItems(want)));
            e <= old(dec.Rest()) ==> r == Some(want) && dec.pos == old(dec.pos) + |e|
  {
    ghost var payload := EncodeItems(KeyItems(want));
    ghost var good := EncodeList(payload) <= dec.Rest();
    var header := DecodeHeader(dec, payload);
    if header.None? { return None; }
    if good { PayloadAhead(dec.Rest(), dec.pos, KeyItems(want)); }
    if header.value == 0 {
      if good { assert |KeyItems(want)| == 0; }
      return Some([]);
    }
    r := DecodeKeys(dec, ListLimit(dec.pos, header.value), want);
  }

  /** How many tokens an entry takes: its header, the address, the header of the keys and the keys. */
  function EntrySize(e: Entry): nat {
    3 + |e.keys|
  }

  function EntriesSize(entries: seq<Entry>): nat {
    if |entries| == 0 then 0 else EntriesSize(entries[..|entries| - 1]) + EntrySize(entries[|entries| - 1])
  }

  method DecodeEntry(dec: Decoder, ghost want: Entry) returns (r: Option<Entry>)
    requires dec.Valid()
    modifies dec
    ensures dec.Valid()
    ensures r.Some? ==> old(dec.Left()) == EntrySize(r.value) + dec.Left()
    ensures r.Some? ==> dec.pos > old(dec.pos)
    ensures var e := EncodeItem(EntryItem(want));
            IsAddress(want.address) && e <= old(dec.Rest()) ==> r == Some(want) && dec.pos == old(dec.pos) + |e|
  {
    ghost var items := [Str(want.address), List(KeyItems(want.keys))];
    ghost var good := IsAddress(want.address) && EncodeItem(EntryItem(want)) <= dec.Rest();
    var header := DecodeHeader(dec, EncodeItems(items));
    if header.None? { return None; }
    ghost var start, end := dec.pos, dec.pos + |EncodeItems(items)|;
    if good {
      PayloadAhead(dec.Rest(), dec.pos, items);
      AheadStep(dec.Rest(), dec.pos, end, items, 0);
    }
    var address := DecodeSized(dec, 20, want.address);
    if address.None? { return None; }
    RestAfter(dec.input, start, |EncodeBytes(address.value)|);
    if good { AheadStep(dec.Rest(), dec.pos, end, items, 1); }
    var keys := DecodeKeyList(dec, want.keys);
    if keys.None? { return None; }
    return Some(Entry(address.value, keys.value));
  }

  method NextEntry(dec: Decoder, ghost good: bool, ghost end: nat, ghost items: seq<Item>, ghost i: nat,
                ghost want: Entry) returns (r: Option<Entry>)
    requires dec.Valid()
    requires good ==> Ahead(dec.Rest(), dec.pos, end, items, i)
    requires good ==> i < |items| && items[i] == EntryItem(want) && IsAddress(want.address)
    modifies dec
    ensures dec.Valid()
    ensures r.Some? ==> old(dec.Left()) == EntrySize(r.value) + dec.Left()
    ensures r.Some? ==> dec.pos > old(dec.pos)
    ensures good ==> r == Some(want) && Ahead(dec.Rest(), dec.pos, end, items, i + 1)
  {
    ghost var start := dec.pos;
    if good { AheadStep(dec.Rest(), dec.pos, end, items, i); }
    r := DecodeEntry(dec, want);
    if good { RestAfter(dec.input, start, |EncodeItem(EntryItem(want))|); }
  }

  ghost predicate EntriesFormed(list: seq<Entry>) {
    forall i | 0 <= i < |list| :: IsAddress(list[i].address)
  }

  method DecodeEntries(dec: Decoder, end: nat, ghost want: seq<Entry>) returns (r: Option<seq<Entry>>)
    requires dec.Valid()
    modifies dec
    ensures dec.Valid()
    ensures r.Some? ==> old(dec.Left()) == EntriesSize(r.value) + dec.Left()
    ensures r.Some? ==> dec.pos >= old(dec.pos)
    ensures EntriesFormed(want) && Ahead(old(dec.Rest()), old(dec.pos), end, EntryItems(want), 0)
            ==> r == Some(want) && dec.pos == end
  {
    var list: seq<Entry> := [];
    ghost var items := EntryItems(want);
    ghost var good := EntriesFormed(want) && Ahead(dec.Rest(), dec.pos, end, items, 0);
    while dec.pos < end
      invariant dec.Valid() && dec.pos >= old(dec.pos) && old(dec.Left()) == EntriesSize(list) + dec.Left()
      invariant good ==> |list| <= |want| && list == want[..|list|]
      invariant good ==> Ahead(dec.Rest(), dec.pos, end, items, |list|)
      decreases |dec.input| - dec.pos
    {
      ghost var next := Entry([], []);
      if good {
        AheadStep(dec.Rest(), dec.pos, end, items, |list|);
        next := want[|list|];
      }
      var one := NextEntry(dec, good, end, items, |list|, next);
      if one.None? { return None; }
      assert (list + [one.value])[..|list|] == list;
      list := list + [one.value];
    }
    if good {
      AheadDone(dec.Rest(), dec.pos, end, items, |list|);
      assert want[..|want|] == want;
    }
    return Some(list);
  }

  method DecodeEntriesList(dec: Decoder, ghost want: seq<Entry>) returns (r: Option<seq<Entry>>)
    requires dec.Valid()
    modifies dec
    ensures dec.Valid()
    ensures r.Some? ==> old(dec.Left()) == 1 + EntriesSize(r.value) + dec.Left()
    ensures r.Some? ==> dec.pos > old(dec.pos)
    ensures var e := EncodeItem(List(EntryItems(want)));
            EntriesFormed(want) && e <= old(dec.Rest()) ==> r == Some(want) && dec.pos == old(dec.pos) + |e|
  {
    ghost var items := EntryItems(want);
    ghost var good := EncodeList(EncodeItems(items)) <= dec.Rest();
    var header := DecodeHeader(dec, EncodeItems(items));
    if header.None? { return None; }
    if good { PayloadAhead(dec.Rest(), dec.pos, items); }
    if header.value == 0 {
      if good { assert |items| == 0; }
      return Some([]);
    }
    r := DecodeEntries(dec, ListLimit(dec.pos, header.value), want);
  }

  // The next field of a record whose fields `items` are ahead.

  method NextInt(dec: Decoder, ghost good: bool, ghost end: nat, ghost items: seq<Item>, ghost i: nat, ghost want: nat)
      returns (r: Option<nat>)
    requires dec.Valid()
    requires good ==> Ahead(dec.Rest(), dec.pos, end, items, i)
    requires good ==> i < |items| && items[i] == IntItem(want) && want < TWO_64
    modifies dec
    ensures dec.Valid()
    ensures r.Some? ==> old(dec.Left()) == 1 + dec.Left()
    ensures r.Some? ==> dec.pos > old(dec.pos)
    ensures good ==> r == Some(want) && Ahead(dec.Rest(), dec.pos, end, items, i + 1)
  {
    ghost var start := dec.pos;
    if good { AheadStep(dec.Rest(), dec.pos, end, items, i); }
    r := DecodeU64(dec, want);
    if r.Some? { RestAfter(dec.input, start, |EncodeInt(r.value)|); }
  }

  method NextWord(dec: Decoder, ghost good: bool, ghost end: nat, ghost items: seq<Item>, ghost i: nat, ghost want: Word)
      returns (r: Option<Word>)
    requires dec.Valid()
    requires good ==> Ahead(dec.Rest(), dec.pos, end, items, i)
    requires good ==> i < |items| && items[i] == WordItem(want)
    modifies dec
    ensures dec.Valid()
    ensures r.Some? ==> old(dec.Left()) == 1 + dec.Left()
    ensures r.Some? ==> dec.pos > old(dec.pos)
    ensures good ==> r == Some(want) && Ahead(dec.Rest(), dec.pos, end, items, i + 1)
  {
    ghost var start := dec.pos;
    if good { AheadStep(dec.Rest(), dec.pos, end, items, i); }
    r := DecodeWord(dec, want);
    if r.Some? { RestAfter(dec.input, start, |EncodeInt(Val(r.value))|); }
  }

  method NextSized(dec: Decoder, size: nat, ghost good: bool, ghost end: nat, ghost items: seq<Item>, ghost i: nat,
                   ghost want: Bytes) returns (r: Option<Bytes>)
    requires dec.Valid()
    requires good ==> Ahead(dec.Rest(), dec.pos, end, items, i)
    requires good ==> i < |items| && items[i] == Str(want) && |want| == size < TWO_64
    modifies dec
    ensures dec.Valid()
    ensures r.Some? ==> old(dec.Left()) == 1 + dec.Left()
    ensures r.Some? ==> dec.pos > old(dec.pos) && |r.value| == size
    ensures good ==> r == Some(want) && Ahead(dec.Rest(), dec.pos, end, items, i + 1)
  {
    ghost var start := dec.pos;
    if good { AheadStep(dec.Rest(), dec.pos, end, items, i); }
    r := DecodeSized(dec, size, want);
    if r.Some? { RestAfter(dec.input, start, |EncodeBytes(r.value)|); }
  }

  /** The six fields of an authorization; the parity keeps only the low byte of what was read. */
  method DecodeAuth(dec: Decoder, ghost want: Auth) returns (r: Option<Auth>)
    requires dec.Valid()
    modifies dec
    ensures dec.Valid()
    ensures r.Some? ==> old(dec.Left()) == 7 + dec.Left()
    ensures r.Some? ==> dec.pos > old(dec.pos)
    ensures var e := EncodeItem(AuthItem(want));
            AuthFormed(want) && e <= old(dec.Rest()) ==> r == Some(want) && dec.pos == old(dec.pos) + |e|
  {
    ghost var items := AuthItem(want).items;
    ghost var good := AuthFormed(want) && EncodeItem(AuthItem(want)) <= dec.Rest();
    var header := DecodeHeader(dec, EncodeItems(items));
    if header.None? { return None; }
    if good { PayloadAhead(dec.Rest(), dec.pos, items); }
    r := DecodeAuthFields(dec, good, dec.pos + |EncodeItems(items)|, items, want);
  }

  ghost predicate FieldsOfAuth(items: seq<Item>, a: Auth) {
    && |items| == 6 && items[0] == IntItem(a.chainId) && items[1] == Str(a.address) && items[2] == IntItem(a.nonce)
    && items[3] == IntItem(a.yParity) && items[4] == WordItem(a.r) && items[5] == WordItem(a.s)
  }

  method DecodeAuthFields(dec: Decoder, ghost good: bool, ghost end: nat, ghost items: seq<Item>, ghost want: Auth)
      returns (r: Option<Auth>)
    requires dec.Valid() && FieldsOfAuth(items, want)
    requires good ==> AuthFormed(want) && Ahead(dec.Rest(), dec.pos, end, items, 0)
    modifies dec
    ensures dec.Valid()
    ensures r.Some? ==> old(dec.Left()) == 6 + dec.Left()
    ensures r.Some? ==> dec.pos >= old(dec.pos)
    ensures good ==> r == Some(want) && dec.pos == end
  {
    var chainId := NextInt(dec, good, end, items, 0, want.chainId);
    if chainId.None? { return None; }
    var address := NextSized(dec, 20, good, end, items, 1, want.address);
    if address.None? { return None; }
    var nonce := NextInt(dec, good, end, items, 2, want.nonce);
    if nonce.None? { return None; }
    var signature := DecodeSignature(dec, good, end, items, want);
    if signature.None? { return None; }
    var (parity, x, y) := signature.value;
    return Some(Auth(chainId.value, address.value, nonce.value, parity, x, y));
  }

  method DecodeSignature(dec: Decoder, ghost good: bool, ghost end: nat, ghost items: seq<Item>, ghost want: Auth)
      returns (r: Option<(byte, Word, Word)>)
    requires dec.Valid() && FieldsOfAuth(items, want)
    requires good ==> Ahead(dec.Rest(), dec.pos, end, items, 3)
    modifies dec
    ensures dec.Valid()
    ensures r.Some? ==> old(dec.Left()) == 3 + dec.Left()
    ensures r.Some? ==> dec.pos >= old(dec.pos)
    ensures good ==> r == Some((want.yParity, want.r, want.s)) && dec.pos == end
  {
    var parity := NextInt(dec, good, end, items, 3, want.yParity);
    if parity.None? { return None; }
    var x := NextWord(dec, good, end, items, 4, want.r);
    if x.None? { return None; }
    var y := NextWord(dec, good, end, items, 5, want.s);
    if y.None? { return None; }
    if good { assert items[6..] == []; }
    return Some((parity.value % 256, x.value, y.value));
  }

  method NextAuth(dec: Decoder, ghost good: bool, ghost end: nat, ghost items: seq<Item>, ghost i: nat,
                ghost want: Auth) returns (r: Option<Auth>)
    requires dec.Valid()
    requires good ==> Ahead(dec.Rest(), dec.pos, end, items, i)
    requires good ==> i < |items| && items[i] == AuthItem(want) && AuthFormed(want)
    modifies dec
    ensures dec.Valid()
    ensures r.Some? ==> old(dec.Left()) == 7 + dec.Left()
    ensures r.Some? ==> dec.pos > old(dec.pos)
    ensures good ==> r == Some(want) && Ahead(dec.Rest(), dec.pos, end, items, i + 1)
  {
    ghost var start := dec.pos;
    if good { AheadStep(dec.Rest(), dec.pos, end, items, i); }
    r := DecodeAuth(dec, want);
    if good { RestAfter(dec.input, start, |EncodeItem(AuthItem(want))|); }
  }

  ghost predicate AuthsFormed(list: seq<Auth>) {
    forall i | 0 <= i < |list| :: AuthFormed(list[i])
  }

  method DecodeAuths(dec: Decoder, end: nat, ghost want: seq<Auth>) returns (r: Option<seq<Auth>>)
    requires dec.Valid()
    modifies dec
    ensures dec.Valid()
    ensures r.Some? ==> old(dec.Left()) == 7 * |r.value| + dec.Left()
    ensures r.Some? ==> dec.pos >= old(dec.pos)
    ensures AuthsFormed(want) && Ahead(old(dec.Rest()), old(dec.pos), end, AuthItems(want), 0)
            ==> r == Some(want) && dec.pos == end
  {
    var list: seq<Auth> := [];
    ghost var items := AuthItems(want);
    ghost var good := AuthsFormed(want) && Ahead(dec.Rest(), dec.pos, end, items, 0);
    while dec.pos < end
      invariant dec.Valid() && dec.pos >= old(dec.pos) && old(dec.Left()) == 7 * |list| + dec.Left()
      invariant good ==> |list| <= |want| && list == want[..|list|]
      invariant good ==> Ahead(dec.Rest(), dec.pos, end, items, |list|)
      decreases |dec.input| - dec.pos
    {
      if good { AheadStep(dec.Rest(), dec.pos, end, items, |list|); }
      ghost var next := if good then want[|list|] else Auth(0, [], 0, 0, ZERO, ZERO);
      var one := NextAuth(dec, good, end, items, |list|, next);
      if one.None? { return None; }
      list := list + [one.value];
    }
    if good {
      AheadDone(dec.Rest(), dec.pos, end, items, |list|);
      assert want[..|want|] == want;
    }
    return Some(list);
  }

  method DecodeAuthsList(dec: Decoder, ghost want: seq<Auth>) returns (r: Option<seq<Auth>>)
    requires dec.Valid()
    modifies dec
    ensures dec.Valid()
    ensures r.Some? ==> old(dec.Left()) == 1 + 7 * |r.value| + dec.Left()
    ensures r.Some? ==> dec.pos > old(dec.pos)
    ensures var e := EncodeItem(List(AuthItems(want)));
            AuthsFormed(want) && e <= old(dec.Rest()) ==> r == Some(want) && dec.pos == old(dec.pos) + |e|
  {
    ghost var items := AuthItems(want);
    ghost var good := EncodeList(EncodeItems(items)) <= dec.Rest();
    var header := DecodeHeader(dec, EncodeItems(items));
    if header.None? { return None; }
    if good { PayloadAhead(dec.Rest(), dec.pos, items); }
    if header.value == 0 {
      if good { assert |items| == 0; }
      return Some([]);
    }
    r := DecodeAuths(dec, ListLimit(dec.pos, header.value), want);
  }

  ghost predicate HashesFormed(list: seq<Bytes>) {
    forall i | 0 <= i < |list| :: |list[i]| == 32
  }

  method DecodeHashes(dec: Decoder, end: nat, ghost want: seq<Bytes>) returns (r: Option<seq<Bytes>>)
    requires dec.Valid()
    modifies dec
    ensures dec.Valid()
    ensures r.Some? ==> old(dec.Left()) == |r.value| + dec.Left()
    ensures r.Some? ==> dec.pos >= old(dec.pos)
    ensures HashesFormed(want) && Ahead(old(dec.Rest()), old(dec.pos), end, HashItems(want), 0)
            ==> r == Some(want) && dec.pos == end
  {
    var list: seq<Bytes> := [];
    ghost var items := HashItems(want);
    ghost var good := HashesFormed(want) && Ahead(dec.Rest(), dec.pos, end, items, 0);
    while dec.pos < end
      invariant dec.Valid() && dec.pos >= old(dec.pos) && old(dec.Left()) == |list| + dec.Left()
      invariant good ==> |list| <= |want| && list == want[..|list|]
      invariant good ==> Ahead(dec.Rest(), dec.pos, end, items, |list|)
      decreases |dec.input| - dec.pos
    {
      ghost var next: Bytes := [];
      if good {
        AheadStep(dec.Rest(), dec.pos, end, items, |list|);
        next := want[|list|];
      }
      var one := NextSized(dec, 32, good, end, items, |list|, next);
      if one.None? { return None; }
      list := list + [one.value];
    }
    if good {
      AheadDone(dec.Rest(), dec.pos, end, items, |list|);
      assert want[..|want|] == want;
    }
    return Some(list);
  }

  method DecodeHashesList(dec: Decoder, ghost want: seq<Bytes>) returns (r: Option<seq<Bytes>>)
    requires dec.Valid()
    modifies dec
    ensures dec.Valid()
    ensures r.Some? ==> old(dec.Left()) == 1 + |r.value| + dec.Left()
    ensures r.Some? ==> dec.pos > old(dec.pos)
    ensures var e := EncodeItem(List(HashItems(want)));
            HashesFormed(want) && e <= old(dec.Rest()) ==> r == Some(want) && dec.pos == old(dec.pos) + |e|
  {
    ghost var items := HashItems(want);
    ghost var good := EncodeList(EncodeItems(items)) <= dec.Rest();
    var header := DecodeHeader(dec, EncodeItems(items));
    if header.None? { return None; }
    if good { PayloadAhead(dec.Rest(), dec.pos, items); }
    if header.value == 0 {
      if good { assert |items| == 0; }
      return Some([]);
    }
    r := DecodeHashes(dec, ListLimit(dec.pos, header.value), want);
  }

  // ---------------------------------------------------------------------------
  // A whole record
  // ---------------------------------------------------------------------------

  /** How many tokens a field takes. */
  function FieldSize(f: Field): nat {
    match f
    case Access(entries) => 1 + EntriesSize(entries)
    case Auths(auths) => 1 + 7 * |auths|
    case Hashes(hashes) => 1 + |hashes|
    case _ => 1
  }

  /** Kinds of which is known exactly what is accepted for them. */
  predicate Flat(k: Kind) {
    k.U64Kind? || k.BigKind? || k.MaybeAddressKind? || k.AddressKind? || k.DataKind?
  }

  /** Bytes that are accepted for a field: its encoding, and the byte 0x00 for an integer that is zero. */
  predicate FieldForm(f: Field, b: Bytes) {
    match f
    case U64(n) => IntForm(n, b)
    case Big(w) => IntForm(Val(w), b)
    case Parity(p) => IntForm(p, b)
    case _ => b == EncodeItem(ToItem(f))
  }

  lemma FieldFormLength(f: Field, b: Bytes)
    requires FieldForm(f, b)
    ensures |b| == |EncodeItem(ToItem(f))|
  {
    match f
    case U64(n) => IntFormLength(n, b);
    case Big(w) => IntFormLength(Val(w), b);
    case Parity(p) => IntFormLength(p, b);
    case _ =>
  }

  /** The field `want` stands ahead, in the bytes `form`. */
  ghost predicate Expects(k: Kind, want: Field, form: Bytes, s: Bytes) {
    KindOf(want) == k && Formed(want) && FieldForm(want, form) && form <= s
  }

  /** What every field decoder promises about its result: for the flat kinds, that what it has read are bytes
      accepted for what it returns. */
  ghost predicate Read(k: Kind, r: Option<Field>, s: Bytes, consumed: int) {
    && (r.Some? ==> KindOf(r.value) == k && 0 < consumed <= |s|)
    && (r.Some? && Flat(k) ==> Formed(r.value) && FieldForm(r.value, s[..consumed]))
  }

  method DecodeBig(dec: Decoder, ghost want: Field, ghost form: Bytes) returns (r: Option<Field>)
    requires dec.Valid()
    modifies dec
    ensures dec.Valid() && Read(BigKind, r, old(dec.Rest()), dec.pos - old(dec.pos))
    ensures r.Some? ==> old(dec.Left()) == 1 + dec.Left()
    ensures Expects(BigKind, want, form, old(dec.Rest())) ==> r == Some(want) && dec.pos == old(dec.pos) + |form|
  {
    ghost var s, start := dec.Rest(), dec.pos;
    if FieldForm(want, form) { FieldFormLength(want, form); }
    var w := DecodeWord(dec, if want.Big? then want.w else ZERO);
    if w.None? { return None; }
    FormRead(s, Val(w.value), dec.pos - start);
    r := Some(Big(w.value));
  }

  /** A 64-bit number; the parity keeps only the low byte of what was read. */
  method DecodeNumber(dec: Decoder, k: Kind, ghost want: Field, ghost form: Bytes) returns (r: Option<Field>)
    requires dec.Valid() && (k.U64Kind? || k.ParityKind?)
    modifies dec
    ensures dec.Valid() && Read(k, r, old(dec.Rest()), dec.pos - old(dec.pos))
    ensures r.Some? ==> old(dec.Left()) == 1 + dec.Left()
    ensures Expects(k, want, form, old(dec.Rest())) ==> r == Some(want) && dec.pos == old(dec.pos) + |form|
  {
    ghost var s, start := dec.Rest(), dec.pos;
    if FieldForm(want, form) { FieldFormLength(want, form); }
    var n := DecodeU64(dec, if want.U64? then want.n else if want.Parity? then want.p else 0);
    if n.None? { return None; }
    FormRead(s, n.value, dec.pos - start);
    r := Some(if k.U64Kind? then U64(n.value) else Parity(n.value % 256));
  }

  method DecodeText(dec: Decoder, k: Kind, ghost want: Field, ghost form: Bytes) returns (r: Option<Field>)
    requires dec.Valid() && (k.MaybeAddressKind? || k.AddressKind? || k.DataKind?)
    modifies dec
    ensures dec.Valid() && Read(k, r, old(dec.Rest()), dec.pos - old(dec.pos))
    ensures r.Some? ==> old(dec.Left()) == 1 + dec.Left()
    ensures Expects(k, want, form, old(dec.Rest())) ==> r == Some(want) && dec.pos == old(dec.pos) + |form|
  {
    ghost var expected: Bytes := if KindOf(want) == k then ToItem(want).bytes else [];
    var b := DecodeString(dec, expected);
    if b.None? { return None; }
    if k.DataKind? { return Some(Data(b.value)); }
    if k.MaybeAddressKind? && b.value == [] { return Some(MaybeAddress(None)); }
    if |b.value| != 20 { return None; }
    return Some(if k.AddressKind? then Address(b.value) else MaybeAddress(Some(b.value)));
  }

  method DecodeAccess(dec: Decoder, ghost want: Field, ghost form: Bytes) returns (r: Option<Field>)
    requires dec.Valid()
    modifies dec
    ensures dec.Valid() && Read(AccessKind, r, old(dec.Rest()), dec.pos - old(dec.pos))
    ensures r.Some? ==> old(dec.Left()) == FieldSize(r.value) + dec.Left()
    ensures Expects(AccessKind, want, form, old(dec.Rest())) ==> r == Some(want) && dec.pos == old(dec.pos) + |form|
  {
    var list := DecodeEntriesList(dec, if want.Access? then want.entries else []);
    if list.None? { return None; }
    r := Some(Access(list.value));
  }

  method DecodeAuthorizations(dec: Decoder, ghost want: Field, ghost form: Bytes) returns (r: Option<Field>)
    requires dec.Valid()
    modifies dec
    ensures dec.Valid() && Read(AuthsKind, r, old(dec.Rest()), dec.pos - old(dec.pos))
    ensures r.Some? ==> old(dec.Left()) == FieldSize(r.value) + dec.Left()
    ensures Expects(AuthsKind, want, form, old(dec.Rest())) ==> r == Some(want) && dec.pos == old(dec.pos) + |form|
  {
    var list := DecodeAuthsList(dec, if want.Auths? then want.auths else []);
    if list.None? { return None; }
    r := Some(Auths(list.value));
  }

  method DecodeBlobHashes(dec: Decoder, ghost want: Field, ghost form: Bytes) returns (r: Option<Field>)
    requires dec.Valid()
    modifies dec
    ensures dec.Valid() && Read(HashesKind, r, old(dec.Rest()), dec.pos - old(dec.pos))
    ensures r.Some? ==> old(dec.Left()) == FieldSize(r.value) + dec.Left()
    ensures Expects(HashesKind, want, form, old(dec.Rest())) ==> r == Some(want) && dec.pos == old(dec.pos) + |form|
  {
    var list := DecodeHashesList(dec, if want.Hashes? then want.hashes else []);
    if list.None? { return None; }
    r := Some(Hashes(list.value));
  }

  method DecodeField(dec: Decoder, k: Kind, ghost want: Field, ghost form: Bytes) returns (r: Option<Field>)
    requires dec.Valid()
    modifies dec
    ensures dec.Valid() && Read(k, r, old(dec.Rest()), dec.pos - old(dec.pos))
    ensures r.Some? ==> old(dec.Left()) == FieldSize(r.value) + dec.Left()
    ensures Expects(k, want, form, old(dec.Rest())) ==> r == Some(want) && dec.pos == old(dec.pos) + |form|
  {
    if k.BigKind? {
      r := DecodeBig(dec, want, form);
    } else if k.U64Kind? || k.ParityKind? {
      r := DecodeNumber(dec, k, want, form);
    } else if k.MaybeAddressKind? || k.AddressKind? || k.DataKind? {
      r := DecodeText(dec, k, want, form);
    } else if k.AccessKind? {
      r := DecodeAccess(dec, want, form);
    } else if k.AuthsKind? {
      r := DecodeAuthorizations(dec, want, form);
    } else {
      r := DecodeBlobHashes(dec, want, form);
    }
  }
}
