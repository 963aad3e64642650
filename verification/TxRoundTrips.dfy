/** Round trips of transactions: exactly when a transaction of any type survives encoding and decoding. */
module TxRoundTrips {
  import opened Bytes
  import opened Rlp
  import opened ByteBuffer
  import opened RlpEncoder
  import opened RlpDecoder
  import opened KeptItems
  import opened Limbs
  import opened UInt256
  import opened TxFields
  import opened Transactions

  // ---------------------------------------------------------------------------
  // Tokens of a transaction
  // ---------------------------------------------------------------------------

  lemma {:induction false} KeysSize(keys: seq<Word>)
    ensures SizeAll(KeyItems(keys)) == |keys|
  {
    if |keys| > 0 {
      assert KeyItems(keys)[1..] == KeyItems(keys[1..]);
      KeysSize(keys[1..]);
    }
  }

  lemma EntryItemSize(e: Entry)
    ensures Size(EntryItem(e)) == EntrySize(e)
  {
    var keys := List(KeyItems(e.keys));
    assert [Str(e.address), keys] == [Str(e.address)] + [keys];
    SizeAppend([Str(e.address)], [keys]);
    OneSize(Str(e.address));
    OneSize(keys);
    KeysSize(e.keys);
  }

  lemma {:induction false} EntryItemsSize(entries: seq<Entry>)
    ensures SizeAll(EntryItems(entries)) == EntriesSize(entries)
  {
    if |entries| > 0 {
      var init, last := entries[..|entries| - 1], entries[|entries| - 1];
      EntryItemsSize(init);
      EntryItemSize(last);
      assert EntryItems(entries) == EntryItems(init) + [EntryItem(last)];
      SizeAppend(EntryItems(init), [EntryItem(last)]);
      OneSize(EntryItem(last));
    }
  }

  lemma {:induction false} AuthItemsSize(auths: seq<Auth>)
    ensures SizeAll(AuthItems(auths)) == 7 * |auths|
  {
    if |auths| > 0 {
      StringsSize(AuthItem(auths[0]).items);
      assert AuthItems(auths)[1..] == AuthItems(auths[1..]);
      AuthItemsSize(auths[1..]);
    }
  }

  lemma FieldItemSize(f: Field)
    ensures Size(ToItem(f)) == FieldSize(f)
  {
    match f
    case Access(entries) => EntryItemsSize(entries);
    case Auths(auths) => AuthItemsSize(auths);
    case Hashes(hashes) => StringsSize(HashItems(hashes));
    case _ =>
  }

  lemma {:induction false} FieldItemsSize(fields: seq<Field>)
    ensures SizeAll(FieldItems(fields)) == FieldsSize(fields)
  {
    if |fields| > 0 {
      var last := |fields| - 1;
      FieldItemsSize(fields[..last]);
      FieldItemSize(fields[last]);
      assert FieldItems(fields) == FieldItems(fields[..last]) + [ToItem(fields[last])];
      SizeAppend(FieldItems(fields[..last]), [ToItem(fields[last])]);
      OneSize(ToItem(fields[last]));
    }
  }

  // ---------------------------------------------------------------------------
  // Round trips
  // ---------------------------------------------------------------------------

  /** What is kept of a record in `room` bytes has fewer tokens than the record, unless all of it fits. */
  lemma KeptTokens(fields: seq<Field>, room: nat)
    requires room < TWO_64 && Keep(List(FieldItems(fields)), room).Some?
    ensures var x := List(FieldItems(fields));
            var kept := EncodeItems(Keep(x, room).value);
            && (Peak(x) <= room ==> kept == EncodeItem(x))
            && |kept| > 0 && (Peak(x) > room ==> Tokens(kept) < 1 + FieldsSize(fields))
  {
    var x := List(FieldItems(fields));
    var kept := Keep(x, room).value;
    KeepsWhole(x, room);
    KeptLoses(x, room);
    OneItem(x);
    OneItem(kept[0]);
    FieldItemsSize(fields);
    ItemsTokens(kept, []);
    assert EncodeItems(kept) + [] == EncodeItems(kept);
  }

  lemma AfterTypeByte(t: Type, kept: Bytes, room: nat)
    requires 0 < |kept| <= room == ListRoom(t)
    ensures 0 < |TypeByte(t) + kept| < TWO_64 && AfterType(t, TypeByte(t) + kept) == kept
  {}

  /** What was written: the whole envelope exactly when the builder's peak fits, and otherwise a list with
      fewer tokens than the transaction has. */
  lemma WrittenTokens(tx: Transaction)
    requires ListsStart(tx)
    ensures FitsRoom(tx) ==> Written(tx) == Envelope(tx)
    ensures 0 < |Written(tx)| < TWO_64
    ensures !FitsRoom(tx) ==> Tokens(AfterType(TypeOf(tx), Written(tx))) < TxSize(tx)
  {
    var t, fields := TypeOf(tx), Fields(tx);
    var room := ListRoom(t);
    KeptTokens(fields, room);
    AfterTypeByte(t, EncodeItems(Keep(List(FieldItems(fields)), room).value), room);
  }

  /** The data of the transaction is of a size the encoder of byte strings can handle. */
  predicate Storable(tx: Transaction) {
    |tx.data| + 9 < TWO_64
  }

  /** A transaction of any type decodes to itself exactly when the builder's peak fits the room reserved for
      the type. */
  method RoundTrip(tx: Transaction) returns (r: Option<(Transaction, nat)>)
    requires AllFormed(Fields(tx)) && Storable(tx) && ListsStart(tx)
    ensures r.Some? && r.value.0 == tx <==> FitsRoom(tx)
    ensures FitsRoom(tx) ==> r == Some((tx, |Envelope(tx)|))
  {
    FieldsEncodable(tx);
    var e := EncodeTransaction(tx);
    WrittenTokens(tx);
    ghost var f := Fields(tx);
    if FitsRoom(tx) { EnvelopeAnnounces(tx, e); }
    ghost var len, forms;
    r, len, forms := DecodeTransaction(e, tx, |EncodeItems(FieldItems(f))|, Encodings(f));
  }

  // A transaction that fits starts all its lists, and a legacy transaction has only the one.

  lemma FittingStarts(tx: Transaction)
    requires FitsRoom(tx)
    ensures ListsStart(tx)
  {
    KeepsWhole(Record(tx), ListRoom(TypeOf(tx)));
  }

  lemma LegacyStarts(tx: Transaction)
    requires tx.Legacy?
    ensures ListsStart(tx)
  {
    StringsKeep(FieldItems(Fields(tx)), 247);
  }

  /** A legacy transaction, of whatever size: the peak is that of one flat list. */
  method LegacyRoundTrip(tx: Transaction) returns (r: Option<(Transaction, nat)>)
    requires tx.Legacy? && AllFormed(Fields(tx)) && Storable(tx)
    ensures r.Some? && r.value.0 == tx <==> MAX_HEADER_SIZE + |EncodeItems(FieldItems(Fields(tx)))| <= 256
  {
    LegacyStarts(tx);
    FlatPeak(FieldItems(Fields(tx)));
    r := RoundTrip(tx);
  }

  // ---------------------------------------------------------------------------
  // Fields the encoder can handle
  // ---------------------------------------------------------------------------

  lemma FieldsEncodable(tx: Transaction)
    requires AllFormed(Fields(tx)) && Storable(tx)
    ensures Encodable(Record(tx))
  {
    OneDataField(tx);
    AllFieldsEncodable(Fields(tx), tx.data);
  }

  /** No field but the data is of any length. */
  lemma OneDataField(tx: Transaction)
    ensures forall i | 0 <= i < |Fields(tx)| && Fields(tx)[i].Data? :: Fields(tx)[i].b == tx.data
  {}

  lemma AllFieldsEncodable(f: seq<Field>, data: Bytes)
    requires AllFormed(f) && |data| + 9 < TWO_64
    requires forall i | 0 <= i < |f| && f[i].Data? :: f[i].b == data
    ensures AllEncodable(FieldItems(f))
  {
    forall i | 0 <= i < |f| ensures Encodable(ToItem(f[i])) {
      assert Formed(f[i]);
      FieldEncodable(f[i]);
    }
    AllOfThem(FieldItems(f));
  }

  lemma ShortEncodable(b: Bytes)
    requires |b| + 9 < TWO_64
    ensures |EncodeBytes(b)| <= |b| + 9 && (|b| < SMALL_PREFIX_BARRIER ==> |EncodeBytes(b)| <= |b| + 1)
  {
    HeaderPrefix(EMPTY_STRING_BYTE, |b|);
  }

  lemma IntEncodable(n: nat)
    requires n < TWO_64
    ensures |EncodeItem(IntItem(n))| <= 9
  {
    SizeFitsEightBytes(n);
    ShortEncodable(ToBigEndian(n));
  }

  lemma WordEncodable(w: Word)
    ensures |EncodeItem(WordItem(w))| <= 33
  {
    WordFits(w);
    ShortEncodable(ToBigEndian(Val(w)));
  }

  lemma EntryEncodable(e: Entry)
    requires IsAddress(e.address)
    ensures Encodable(EntryItem(e))
  {
    forall i | 0 <= i < |e.keys| ensures Encodable(KeyItems(e.keys)[i]) { WordEncodable(e.keys[i]); }
    AllOfThem(KeyItems(e.keys));
    ShortEncodable(e.address);
    AllOfThem([Str(e.address), List(KeyItems(e.keys))]);
  }

  lemma AuthEncodable(a: Auth)
    requires AuthFormed(a)
    ensures Encodable(AuthItem(a))
  {
    IntEncodable(a.chainId);
    ShortEncodable(a.address);
    IntEncodable(a.nonce);
    IntEncodable(a.yParity);
    WordEncodable(a.r);
    WordEncodable(a.s);
    AllOfThem(AuthItem(a).items);
  }

  lemma FieldEncodable(f: Field)
    requires Formed(f) && (f.Data? ==> |f.b| + 9 < TWO_64)
    ensures Encodable(ToItem(f))
  {
    match f
    case U64(n) => IntEncodable(n);
    case Big(w) => WordEncodable(w);
    case Parity(p) => IntEncodable(p);
    case MaybeAddress(target) => ShortEncodable(if target.Some? then target.value else []);
    case Address(a) => ShortEncodable(a);
    case Data(b) => ShortEncodable(b);
    case Access(entries) =>
      forall i | 0 <= i < |entries| ensures Encodable(EntryItems(entries)[i]) { EntryEncodable(entries[i]); }
      AllOfThem(EntryItems(entries));
    case Auths(auths) =>
      forall i | 0 <= i < |auths| ensures Encodable(AuthItems(auths)[i]) { AuthEncodable(auths[i]); }
      AllOfThem(AuthItems(auths));
    case Hashes(hashes) =>
      forall i | 0 <= i < |hashes| ensures Encodable(HashItems(hashes)[i]) { ShortEncodable(hashes[i]); }
      AllOfThem(HashItems(hashes));
  }

  // ---------------------------------------------------------------------------
  // Inputs that do not survive
  // ---------------------------------------------------------------------------

  lemma {:induction false} FieldWithin(fields: seq<Field>, i: nat)
    requires i < |fields|
    ensures |EncodeItem(ToItem(fields[i]))| <= PeakAll(FieldItems(fields))
  {
    assert FieldItems(fields)[1..] == FieldItems(fields[1..]);
    if i > 0 {
      FieldWithin(fields[1..], i - 1);
    } else if PeakAll(FieldItems(fields)) < TWO_64 {
      PeakCoversEncoding(ToItem(fields[0]));
    }
  }

  lemma DataWithin(fields: seq<Field>, i: nat, data: Bytes)
    requires i < |fields| && fields[i] == Data(data)
    ensures |data| <= PeakAll(FieldItems(fields))
  {
    EncodeBytesNotShorter(data);
    FieldWithin(fields, i);
  }

  /** Data as large as the room is never written. */
  lemma LargeDataIsLost(tx: Transaction)
    requires |tx.data| + MAX_HEADER_SIZE > Room(TypeOf(tx))
    ensures !FitsRoom(tx)
  {
    if tx.Legacy? { DataWithin(Fields(tx), 5, tx.data); }
    else if tx.Eip2930? { DataWithin(Fields(tx), 6, tx.data); }
    else { DataWithin(Fields(tx), 7, tx.data); }
  }

  lemma ShortFields(f: seq<Field>)
    requires AllFormed(f) && forall i | 0 <= i < |f| :: f[i].U64? || f[i].Big? || f[i].MaybeAddress?
    ensures forall i | 0 <= i < |f| :: FieldItems(f)[i].Str? && |EncodeItem(FieldItems(f)[i])| <= 33
  {
    forall i | 0 <= i < |f| ensures FieldItems(f)[i].Str? && |EncodeItem(FieldItems(f)[i])| <= 33 {
      assert Formed(f[i]);
      ShortField(f[i]);
    }
  }

  /** Seven short fields, data larger than the room, an empty access list and three more scalars. */
  lemma DataDropped(f: seq<Field>, room: nat)
    requires |f| == 12 && AllFormed(f) && 33 * 7 + MAX_HEADER_SIZE <= room < TWO_64
    requires forall i | 0 <= i < 7 :: f[i].U64? || f[i].Big? || f[i].MaybeAddress?
    requires f[7].Data? && |f[7].b| > room && f[8] == Access([]) && f[9].Parity? && f[10].Big? && f[11].Big?
    ensures KeepAll(FieldItems(f), room).Some?
  {
    var short, long, others := FieldItems(f[..7]), ToItem(f[7]), FieldItems(f[9..]);
    ShortFields(f[..7]);
    EncodeBytesNotShorter(f[7].b);
    forall i | 0 <= i < |others| ensures others[i].Str? {}
    LongStringDropped(short, long, others, room);
    ItemsAround(f, 7);
  }

  lemma ItemsAround(f: seq<Field>, i: nat)
    requires i + 1 < |f|
    ensures FieldItems(f) == FieldItems(f[..i]) + ([ToItem(f[i])] + ([ToItem(f[i + 1])] + FieldItems(f[i + 2..])))
  {
    var items := FieldItems(f);
    Around(items, i);
    assert items[..i] == FieldItems(f[..i]);
    assert items[i + 2..] == FieldItems(f[i + 2..]);
  }

  lemma Around(items: seq<Item>, i: nat)
    requires i + 1 < |items|
    ensures items == items[..i] + ([items[i]] + ([items[i + 1]] + items[i + 2..]))
  {}

  lemma RecordDropped(f: seq<Field>, room: nat, inner: nat)
    requires inner + MAX_HEADER_SIZE == room < TWO_64 && KeepAll(FieldItems(f), inner).Some?
    ensures Keep(List(FieldItems(f)), room).Some?
  {}

  lemma DynamicFields(tx: Transaction, f: seq<Field>)
    requires tx.Eip1559? && f == Fields(tx) && tx.accessList == []
    ensures |f| == 12 && forall i | 0 <= i < 7 :: f[i].U64? || f[i].Big? || f[i].MaybeAddress?
    ensures f[7] == Data(tx.data) && f[8] == Access([]) && f[9].Parity? && f[10].Big? && f[11].Big?
  {}

  /** Such a transaction of a typed kind is still written, without its data, when its access list is empty. */
  lemma TypedDataIsLost(tx: Transaction)
    requires tx.Eip1559? && AllFormed(Fields(tx)) && tx.accessList == [] && |tx.data| >= 512
    ensures ListsStart(tx) && !FitsRoom(tx)
  {
    LargeDataIsLost(tx);
    var f, room := Fields(tx), ListRoom(Eip1559Type);
    var inner := room - MAX_HEADER_SIZE;
    DynamicFields(tx, f);
    DataDropped(f, inner);
    RecordDropped(f, room, inner);
  }

  lemma ShortField(f: Field)
    requires Formed(f) && (f.U64? || f.Big? || f.MaybeAddress?)
    ensures ToItem(f).Str? && |EncodeItem(ToItem(f))| <= 33
  {
    match f
    case U64(n) => IntEncodable(n);
    case Big(w) => WordEncodable(w);
    case MaybeAddress(target) => ShortEncodable(if target.Some? then target.value else []);
  }
}
