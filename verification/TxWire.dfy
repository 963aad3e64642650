/** Transactions and accounts on the wire, field by field: where in the bytes each field stands and how it
    reads, by name and without reference to how the encoder and the decoder are put together. */
module TxWire {
  import opened Bytes
  import opened Rlp
  import opened RlpEncoder
  import opened RlpDecoder
  import opened Limbs
  import opened UInt256
  import opened TxFields
  import opened Transactions
  import TxRoundTrips
  import Accounts

  // ---------------------------------------------------------------------------
  // Walking a payload
  // ---------------------------------------------------------------------------

  /** The bytes from the i-th item on, skipping items by the length their headers tell. */
  function Nth(s: Bytes, i: nat): Bytes
    decreases |s|
  {
    if i == 0 then s
    else if |s| == 0 || !(0 < Span(s) <= |s|) then []
    else Nth(s[Span(s)..], i - 1)
  }

  /** What follows the header of a list at the front. */
  function AfterHeader(s: Bytes): Bytes {
    if ReadListHeader(s).Err? then []
    else
      AcceptedHeader(s);
      s[|Header(EMPTY_LIST_BYTE, ReadListHeader(s).value)|..]
  }

  /** The i-th item is an integer of at most `width` bytes. */
  predicate IntAt(s: Bytes, i: nat, width: nat, n: nat) {
    ReadInt(Nth(s, i), width) == Ok(n)
  }

  predicate WordAt(s: Bytes, i: nat, w: Word) {
    IntAt(s, i, 32, Val(w))
  }

  /** The i-th item is a byte string. */
  predicate TextAt(s: Bytes, i: nat, b: Bytes) {
    ReadBytes(Nth(s, i)) == Ok(b)
  }

  /** The i-th item is a twenty-byte address, or empty for none. */
  predicate TargetAt(s: Bytes, i: nat, target: Option<Bytes>) {
    TextAt(s, i, if target.Some? then target.value else []) && (target.Some? ==> |target.value| == 20)
  }

  predicate AddressAt(s: Bytes, i: nat, a: Bytes) {
    TextAt(s, i, a) && |a| == 20
  }

  // Lists, by their bytes.

  function KeysBytes(keys: seq<Word>): Bytes {
    if |keys| == 0 then [] else EncodeInt(Val(keys[0])) + KeysBytes(keys[1..])
  }

  function EntriesBytes(entries: seq<Entry>): Bytes {
    if |entries| == 0 then []
    else EncodeList(EncodeBytes(entries[0].address) + EncodeList(KeysBytes(entries[0].keys))) + EntriesBytes(entries[1..])
  }

  function AuthsBytes(auths: seq<Auth>): Bytes {
    if |auths| == 0 then []
    else
      var a := auths[0];
      EncodeList(EncodeInt(a.chainId) + (EncodeBytes(a.address) + (EncodeInt(a.nonce) + (EncodeInt(a.yParity)
                 + (EncodeInt(Val(a.r)) + EncodeInt(Val(a.s)))))))
      + AuthsBytes(auths[1..])
  }

  function HashesBytes(hashes: seq<Bytes>): Bytes {
    if |hashes| == 0 then [] else EncodeBytes(hashes[0]) + HashesBytes(hashes[1..])
  }

  ghost predicate AccessAt(s: Bytes, i: nat, entries: seq<Entry>) {
    EncodeList(EntriesBytes(entries)) <= Nth(s, i) && forall j | 0 <= j < |entries| :: |entries[j].address| == 20
  }

  ghost predicate AuthsAt(s: Bytes, i: nat, auths: seq<Auth>) {
    && EncodeList(AuthsBytes(auths)) <= Nth(s, i)
    && forall j | 0 <= j < |auths| :: |auths[j].address| == 20 && auths[j].chainId < TWO_64 && auths[j].nonce < TWO_64
  }

  ghost predicate HashesAt(s: Bytes, i: nat, hashes: seq<Bytes>) {
    EncodeList(HashesBytes(hashes)) <= Nth(s, i) && forall j | 0 <= j < |hashes| :: |hashes[j]| == 32
  }

  // ---------------------------------------------------------------------------
  // The five types
  // ---------------------------------------------------------------------------

  ghost predicate LegacyAt(p: Bytes, tx: Transaction)
    requires tx.Legacy?
  {
    && IntAt(p, 0, 8, tx.nonce) && WordAt(p, 1, tx.gasPrice) && IntAt(p, 2, 8, tx.gasLimit) && TargetAt(p, 3, tx.target)
    && WordAt(p, 4, tx.amount) && TextAt(p, 5, tx.data) && IntAt(p, 6, 8, tx.v) && WordAt(p, 7, tx.r)
    && WordAt(p, 8, tx.s)
  }

  // Up to the data, and from the access list on.

  ghost predicate Eip2930Head(p: Bytes, tx: Transaction)
    requires tx.Eip2930?
  {
    && IntAt(p, 0, 8, tx.chainId) && IntAt(p, 1, 8, tx.nonce) && WordAt(p, 2, tx.gasPrice) && IntAt(p, 3, 8, tx.gasLimit)
    && TargetAt(p, 4, tx.target) && WordAt(p, 5, tx.amount) && TextAt(p, 6, tx.data)
  }

  ghost predicate Eip2930Tail(p: Bytes, tx: Transaction)
    requires tx.Eip2930?
  {
    AccessAt(p, 7, tx.accessList) && IntAt(p, 8, 8, tx.yParity) && WordAt(p, 9, tx.r) && WordAt(p, 10, tx.s)
  }

  ghost predicate Eip1559Head(p: Bytes, tx: Transaction)
    requires tx.Eip1559?
  {
    && IntAt(p, 0, 8, tx.chainId) && IntAt(p, 1, 8, tx.nonce) && WordAt(p, 2, tx.maxPriorityFee)
    && WordAt(p, 3, tx.maxFee) && IntAt(p, 4, 8, tx.gasLimit) && TargetAt(p, 5, tx.target) && WordAt(p, 6, tx.amount)
    && TextAt(p, 7, tx.data)
  }

  ghost predicate Eip1559Tail(p: Bytes, tx: Transaction)
    requires tx.Eip1559?
  {
    AccessAt(p, 8, tx.accessList) && IntAt(p, 9, 8, tx.yParity) && WordAt(p, 10, tx.r) && WordAt(p, 11, tx.s)
  }

  ghost predicate Eip4844Head(p: Bytes, tx: Transaction)
    requires tx.Eip4844?
  {
    && IntAt(p, 0, 8, tx.chainId) && IntAt(p, 1, 8, tx.nonce) && WordAt(p, 2, tx.maxPriorityFee)
    && WordAt(p, 3, tx.maxFee) && IntAt(p, 4, 8, tx.gasLimit) && AddressAt(p, 5, tx.recipient)
    && WordAt(p, 6, tx.amount) && TextAt(p, 7, tx.data)
  }

  ghost predicate Eip4844Tail(p: Bytes, tx: Transaction)
    requires tx.Eip4844?
  {
    && AccessAt(p, 8, tx.accessList) && WordAt(p, 9, tx.maxBlobFee) && HashesAt(p, 10, tx.blobHashes)
    && IntAt(p, 11, 8, tx.yParity) && WordAt(p, 12, tx.r) && WordAt(p, 13, tx.s)
  }

  ghost predicate Eip7702Head(p: Bytes, tx: Transaction)
    requires tx.Eip7702?
  {
    && IntAt(p, 0, 8, tx.chainId) && IntAt(p, 1, 8, tx.nonce) && WordAt(p, 2, tx.maxPriorityFee)
    && WordAt(p, 3, tx.maxFee) && IntAt(p, 4, 8, tx.gasLimit) && AddressAt(p, 5, tx.recipient)
    && WordAt(p, 6, tx.amount) && TextAt(p, 7, tx.data)
  }

  ghost predicate Eip7702Tail(p: Bytes, tx: Transaction)
    requires tx.Eip7702?
  {
    && AccessAt(p, 8, tx.accessList) && AuthsAt(p, 9, tx.authorizations) && IntAt(p, 10, 8, tx.yParity)
    && WordAt(p, 11, tx.r) && WordAt(p, 12, tx.s)
  }

  /** The fields up to the access list. */
  ghost predicate HeadAt(p: Bytes, tx: Transaction) {
    match tx
    case Legacy(_, _, _, _, _, _, _, _, _) => LegacyAt(p, tx)
    case Eip2930(_, _, _, _, _, _, _, _, _, _, _) => Eip2930Head(p, tx)
    case Eip1559(_, _, _, _, _, _, _, _, _, _, _, _) => Eip1559Head(p, tx)
    case Eip4844(_, _, _, _, _, _, _, _, _, _, _, _, _, _) => Eip4844Head(p, tx)
    case Eip7702(_, _, _, _, _, _, _, _, _, _, _, _, _) => Eip7702Head(p, tx)
  }

  /** The fields from the access list on. */
  ghost predicate TailAt(p: Bytes, tx: Transaction) {
    match tx
    case Legacy(_, _, _, _, _, _, _, _, _) => true
    case Eip2930(_, _, _, _, _, _, _, _, _, _, _) => Eip2930Tail(p, tx)
    case Eip1559(_, _, _, _, _, _, _, _, _, _, _, _) => Eip1559Tail(p, tx)
    case Eip4844(_, _, _, _, _, _, _, _, _, _, _, _, _, _) => Eip4844Tail(p, tx)
    case Eip7702(_, _, _, _, _, _, _, _, _, _, _, _, _) => Eip7702Tail(p, tx)
  }

  /** The first byte tells the type; that of a legacy transaction belongs to its list header. */
  predicate MarkedAs(first: byte, tx: Transaction) {
    match tx
    case Legacy(_, _, _, _, _, _, _, _, _) => first >= 0xC0
    case Eip2930(_, _, _, _, _, _, _, _, _, _, _) => first == 1
    case Eip1559(_, _, _, _, _, _, _, _, _, _, _, _) => first == 2
    case Eip4844(_, _, _, _, _, _, _, _, _, _, _, _, _, _) => first == 3
    case Eip7702(_, _, _, _, _, _, _, _, _, _, _, _, _) => first == 4
  }

  /** The list of fields. */
  function RecordOf(data: Bytes, legacy: bool): Bytes
    requires |data| > 0
  {
    if legacy then data else data[1..]
  }

  /** Type byte, list header, and the fields up to the access list. */
  ghost predicate HeadOnWire(data: Bytes, tx: Transaction) {
    && |data| > 0 && MarkedAs(data[0], tx) && ReadListHeader(RecordOf(data, tx.Legacy?)).Ok?
    && HeadAt(AfterHeader(RecordOf(data, tx.Legacy?)), tx)
  }

  /** And the fields after it. */
  ghost predicate OnWire(data: Bytes, tx: Transaction) {
    HeadOnWire(data, tx) && TailAt(AfterHeader(RecordOf(data, tx.Legacy?)), tx)
  }

  // ---------------------------------------------------------------------------
  // One field
  // ---------------------------------------------------------------------------

  /** How a field of each kind stands at a position. */
  ghost predicate FieldAt(s: Bytes, i: nat, f: Field) {
    match f
    case U64(n) => IntAt(s, i, 8, n)
    case Big(w) => WordAt(s, i, w)
    case MaybeAddress(target) => TargetAt(s, i, target)
    case Address(a) => AddressAt(s, i, a)
    case Data(b) => TextAt(s, i, b)
    case Parity(p) => IntAt(s, i, 8, p)
    case Access(entries) => AccessAt(s, i, entries)
    case Auths(auths) => AuthsAt(s, i, auths)
    case Hashes(hashes) => HashesAt(s, i, hashes)
  }

  lemma {:induction false} KeysAreBytes(keys: seq<Word>)
    ensures EncodeItems(KeyItems(keys)) == KeysBytes(keys)
  {
    if |keys| > 0 {
      assert KeyItems(keys)[1..] == KeyItems(keys[1..]);
      KeysAreBytes(keys[1..]);
    }
  }

  lemma EntryIsBytes(e: Entry)
    ensures EncodeItem(EntryItem(e)) == EncodeList(EncodeBytes(e.address) + EncodeList(KeysBytes(e.keys)))
  {
    KeysAreBytes(e.keys);
    TwoItems(Str(e.address), List(KeyItems(e.keys)));
  }

  lemma TwoItems(x: Item, y: Item)
    ensures EncodeItems([x, y]) == EncodeItem(x) + EncodeItem(y)
  {
    assert [x, y][1..] == [y] && [y][1..] == [];
    assert EncodeItems([y]) == EncodeItem(y) + EncodeItems([]);
  }

  lemma {:induction false} EntriesAreBytes(entries: seq<Entry>)
    ensures EncodeItems(EntryItems(entries)) == EntriesBytes(entries)
  {
    if |entries| > 0 {
      EntryIsBytes(entries[0]);
      assert EntryItems(entries)[1..] == EntryItems(entries[1..]);
      EntriesAreBytes(entries[1..]);
    }
  }

  lemma AuthIsBytes(a: Auth)
    ensures EncodeItems(AuthItem(a).items)
         == EncodeInt(a.chainId) + (EncodeBytes(a.address) + (EncodeInt(a.nonce) + (EncodeInt(a.yParity)
            + (EncodeInt(Val(a.r)) + EncodeInt(Val(a.s))))))
  {
    var u, v, w, x, y, z := IntItem(a.chainId), Str(a.address), IntItem(a.nonce), IntItem(a.yParity), WordItem(a.r),
                            WordItem(a.s);
    TwoItems(y, z);
    ItemThen(x, [y, z]);
    ItemThen(w, [x] + [y, z]);
    ItemThen(v, [w] + ([x] + [y, z]));
    ItemThen(u, [v] + ([w] + ([x] + [y, z])));
    assert AuthItem(a).items == [u] + ([v] + ([w] + ([x] + [y, z])));
  }

  lemma ItemThen(x: Item, items: seq<Item>)
    ensures EncodeItems([x] + items) == EncodeItem(x) + EncodeItems(items)
  {
    assert ([x] + items)[1..] == items;
  }

  lemma {:induction false} AuthsAreBytes(auths: seq<Auth>)
    ensures EncodeItems(AuthItems(auths)) == AuthsBytes(auths)
  {
    if |auths| > 0 {
      AuthIsBytes(auths[0]);
      assert AuthItems(auths)[1..] == AuthItems(auths[1..]);
      AuthsAreBytes(auths[1..]);
    }
  }

  lemma {:induction false} HashesAreBytes(hashes: seq<Bytes>)
    ensures EncodeItems(HashItems(hashes)) == HashesBytes(hashes)
  {
    if |hashes| > 0 {
      assert HashItems(hashes)[1..] == HashItems(hashes[1..]);
      HashesAreBytes(hashes[1..]);
    }
  }

  /** A field at the front reads as what it is, from any bytes accepted for it, and its header tells where it
      ends. */
  lemma FieldReads(f: Field, form: Bytes, rest: Bytes)
    requires Formed(f) && FieldForm(f, form) && |form + rest| < TWO_64
    ensures FieldAt(form + rest, 0, f) && |form| > 0 && Span(form + rest) == |form|
  {
    if f.U64? || f.Big? || f.Parity? { NumberReads(f, form, rest); }
    else if f.MaybeAddress? || f.Address? || f.Data? { StringReads(f, form, rest); }
    else { RecordsRead(f, form, rest); }
  }

  lemma NumberReads(f: Field, form: Bytes, rest: Bytes)
    requires (f.U64? || f.Big? || f.Parity?) && Formed(f) && FieldForm(f, form) && |form + rest| < TWO_64
    ensures FieldAt(form + rest, 0, f) && |form| > 0 && Span(form + rest) == |form|
  {
    match f
    case U64(n) => SizeFitsEightBytes(n); IntReads(n, 8, form, rest);
    case Big(w) => WordFits(w); IntReads(Val(w), 32, form, rest);
    case Parity(p) => SizeFitsEightBytes(p); IntReads(p, 8, form, rest);
  }

  lemma StringReads(f: Field, form: Bytes, rest: Bytes)
    requires (f.MaybeAddress? || f.Address? || f.Data?) && Formed(f) && FieldForm(f, form) && |form + rest| < TWO_64
    ensures FieldAt(form + rest, 0, f) && |form| > 0 && Span(form + rest) == |form|
  {
    TextReads(ToItem(f).bytes, form, rest);
  }

  lemma RecordsRead(f: Field, form: Bytes, rest: Bytes)
    requires (f.Access? || f.Auths? || f.Hashes?) && Formed(f) && FieldForm(f, form) && |form + rest| < TWO_64
    ensures FieldAt(form + rest, 0, f) && |form| > 0 && Span(form + rest) == |form|
  {
    match f
    case Access(entries) => EntriesAreBytes(entries); ListReads(EntriesBytes(entries), form, rest);
    case Auths(auths) => AuthsAreBytes(auths); ListReads(AuthsBytes(auths), form, rest);
    case Hashes(hashes) => HashesAreBytes(hashes); ListReads(HashesBytes(hashes), form, rest);
  }

  lemma IntReads(n: nat, width: nat, form: Bytes, rest: Bytes)
    requires IntForm(n, form) && |form + rest| < TWO_64 && 0 < width <= 32 && |ToBigEndian(n)| <= width
    ensures ReadInt(form + rest, width) == Ok(n) && |form| > 0 && Span(form + rest) == |form|
  {
    IntCanonical(form + rest, width, n);
    if form == EncodeInt(n) { BytesSelfDelimiting(ToBigEndian(n)); }
  }

  lemma TextReads(b: Bytes, form: Bytes, rest: Bytes)
    requires form == EncodeBytes(b) && |form + rest| < TWO_64
    ensures ReadBytes(form + rest) == Ok(b) && Span(form + rest) == |form|
  {
    EncodeBytesNotShorter(b);
    BytesCanonical(form + rest, b);
    BytesSelfDelimiting(b);
  }

  lemma ListReads(payload: Bytes, form: Bytes, rest: Bytes)
    requires form == EncodeList(payload) && |form + rest| < TWO_64
    ensures Span(form + rest) == |form|
  {
    ListSelfDelimiting(payload);
  }

  /** And the other way: a field that reads stands there in bytes accepted for it. */
  lemma FieldStands(s: Bytes, f: Field)
    requires FieldAt(s, 0, f) && |s| < TWO_64
    ensures Formed(f) && 0 < |s| && Span(s) <= |s| && FieldForm(f, s[..Span(s)]) && Span(s) > 0
  {
    match f
    case U64(n) => IntStands(s, 8, n);
    case Big(w) => IntStands(s, 32, Val(w));
    case Parity(p) => IntStands(s, 8, p);
    case MaybeAddress(target) => TextStands(s, if target.Some? then target.value else []);
    case Address(a) => TextStands(s, a);
    case Data(b) => TextStands(s, b);
    case Access(entries) => EntriesAreBytes(entries); ListStands(s, EntriesBytes(entries));
    case Auths(auths) => AuthsAreBytes(auths); ListStands(s, AuthsBytes(auths));
    case Hashes(hashes) => HashesAreBytes(hashes); ListStands(s, HashesBytes(hashes));
  }

  lemma IntStands(s: Bytes, width: nat, n: nat)
    requires ReadInt(s, width) == Ok(n) && |s| < TWO_64 && 0 < width <= 32
    ensures 0 < Span(s) <= |s| && IntForm(n, s[..Span(s)]) && (width == 8 ==> n < TWO_64)
  {
    IntCanonical(s, width, n);
    if width == 8 && |ToBigEndian(n)| <= 8 { SizeFitsEightBytes(n); }
    var form := if EncodeInt(n) <= s then EncodeInt(n) else [0];
    assert s == form + s[|form|..];
    IntReads(n, width, form, s[|form|..]);
  }

  lemma TextStands(s: Bytes, b: Bytes)
    requires ReadBytes(s) == Ok(b) && |s| < TWO_64
    ensures 0 < Span(s) <= |s| && s[..Span(s)] == EncodeBytes(b)
  {
    BytesCanonical(s, b);
    var form := EncodeBytes(b);
    assert s == form + s[|form|..];
    TextReads(b, form, s[|form|..]);
  }

  lemma ListStands(s: Bytes, payload: Bytes)
    requires EncodeList(payload) <= s && |s| < TWO_64
    ensures 0 < Span(s) <= |s| && s[..Span(s)] == EncodeList(payload)
  {
    var form := EncodeList(payload);
    assert s == form + s[|form|..];
    ListReads(payload, form, s[|form|..]);
  }

  // ---------------------------------------------------------------------------
  // All fields
  // ---------------------------------------------------------------------------

  ghost predicate AllAt(s: Bytes, fields: seq<Field>) {
    forall i | 0 <= i < |fields| :: FieldAt(s, i, fields[i])
  }

  /** The fields from index `a` to index `b` stand at their positions. */
  ghost predicate Between(s: Bytes, fields: seq<Field>, a: nat, b: nat)
    requires b <= |fields|
  {
    forall i | a <= i < b :: FieldAt(s, i, fields[i])
  }

  lemma NthNext(s: Bytes, i: nat)
    requires |s| > 0 && 0 < Span(s) <= |s|
    ensures Nth(s, i + 1) == Nth(s[Span(s)..], i)
  {}

  lemma SameFieldAt(s: Bytes, i: nat, t: Bytes, j: nat, f: Field)
    requires Nth(s, i) == Nth(t, j)
    ensures FieldAt(s, i, f) <==> FieldAt(t, j, f)
  {}

  /** Fields spelled one after the other stand at their positions. */
  lemma {:induction false} SpelledStand(fields: seq<Field>, forms: seq<Bytes>, rest: Bytes)
    requires Spelled(fields, forms) && AllFormed(fields) && |Flatten(forms) + rest| < TWO_64
    ensures AllAt(Flatten(forms) + rest, fields)
    decreases |fields|
  {
    var s := Flatten(forms) + rest;
    if |fields| > 0 {
      var tail := Flatten(forms[1..]) + rest;
      assert s == forms[0] + tail;
      FieldReads(fields[0], forms[0], tail);
      assert s[Span(s)..] == tail;
      SpelledStand(fields[1..], forms[1..], rest);
      forall i | 0 <= i < |fields| ensures FieldAt(s, i, fields[i]) {
        if i > 0 {
          NthNext(s, i - 1);
          assert FieldAt(tail, i - 1, fields[1..][i - 1]);
          SameFieldAt(s, i, tail, i - 1, fields[i]);
        }
      }
    }
  }

  /** Fields that stand at their positions are spelled one after the other. */
  lemma {:induction false} StandingSpelled(s: Bytes, fields: seq<Field>) returns (forms: seq<Bytes>)
    requires AllAt(s, fields) && |s| < TWO_64
    ensures Spelled(fields, forms) && AllFormed(fields) && Flatten(forms) <= s
    decreases |fields|
  {
    if |fields| == 0 {
      forms := [];
    } else {
      assert FieldAt(s, 0, fields[0]);
      FieldStands(s, fields[0]);
      var first, tail, others := s[..Span(s)], s[Span(s)..], fields[1..];
      OthersStand(s, fields, tail, others);
      var rest := StandingSpelled(tail, others);
      forms := [first] + rest;
      SpelledOneMore(fields[0], first, others, rest);
      assert fields == [fields[0]] + others;
      FlattenFirst(first, rest);
      FrontThenMore(s, first, tail, Flatten(rest));
    }
  }

  lemma OthersStand(s: Bytes, fields: seq<Field>, tail: Bytes, others: seq<Field>)
    requires |fields| > 0 && |s| > 0 && 0 < Span(s) <= |s| && AllAt(s, fields)
    requires tail == s[Span(s)..] && others == fields[1..]
    ensures AllAt(tail, others)
  {
    forall i | 0 <= i < |others| ensures FieldAt(tail, i, others[i]) {
      NthNext(s, i);
      assert FieldAt(s, i + 1, fields[i + 1]);
      SameFieldAt(s, i + 1, tail, i, fields[i + 1]);
    }
  }

  lemma FrontThenMore(s: Bytes, first: Bytes, tail: Bytes, more: Bytes)
    requires s == first + tail && more <= tail
    ensures first + more <= s
  {}

  lemma FlattenFirst(first: Bytes, others: seq<Bytes>)
    ensures Flatten([first] + others) == first + Flatten(others)
  {
    assert ([first] + others)[1..] == others;
  }

  lemma SpelledOneMore(f: Field, form: Bytes, fields: seq<Field>, forms: seq<Bytes>)
    requires FieldForm(f, form) && Formed(f) && Spelled(fields, forms) && AllFormed(fields)
    ensures Spelled([f] + fields, [form] + forms) && AllFormed([f] + fields)
  {}

  // The fields by name are the fields in order.

  lemma LegacyInOrder(p: Bytes, tx: Transaction)
    requires tx.Legacy?
    ensures LegacyAt(p, tx) <==> AllAt(p, Fields(tx))
  {
    var f := Fields(tx);
    if AllAt(p, f) {
      assert FieldAt(p, 0, f[0]) && FieldAt(p, 1, f[1]) && FieldAt(p, 2, f[2]) && FieldAt(p, 3, f[3]) && FieldAt(p, 4, f[4])
             && FieldAt(p, 5, f[5]) && FieldAt(p, 6, f[6]) && FieldAt(p, 7, f[7]) && FieldAt(p, 8, f[8]);
    }
  }

  lemma Joined(p: Bytes, f: seq<Field>, a: nat, b: nat, c: nat)
    requires a <= b <= c <= |f|
    ensures Between(p, f, a, c) <==> Between(p, f, a, b) && Between(p, f, b, c)
  {}

  lemma Next1(p: Bytes, f: seq<Field>, i: nat)
    requires i + 1 <= |f|
    ensures Between(p, f, i, i + 1) <==> FieldAt(p, i, f[i])
  {}

  lemma Next2(p: Bytes, f: seq<Field>, i: nat)
    requires i + 2 <= |f|
    ensures Between(p, f, i, i + 2) <==> FieldAt(p, i, f[i]) && FieldAt(p, i + 1, f[i + 1])
  {
    Next1(p, f, i);
    Next1(p, f, i + 1);
    Joined(p, f, i, i + 1, i + 2);
  }

  lemma Next3(p: Bytes, f: seq<Field>, i: nat)
    requires i + 3 <= |f|
    ensures Between(p, f, i, i + 3) <==> FieldAt(p, i, f[i]) && FieldAt(p, i + 1, f[i + 1]) && FieldAt(p, i + 2, f[i + 2])
  {
    Next2(p, f, i);
    Next1(p, f, i + 2);
    Joined(p, f, i, i + 2, i + 3);
  }

  lemma Next4(p: Bytes, f: seq<Field>, i: nat)
    requires i + 4 <= |f|
    ensures Between(p, f, i, i + 4) <==> FieldAt(p, i, f[i]) && FieldAt(p, i + 1, f[i + 1]) && FieldAt(p, i + 2, f[i + 2]) && FieldAt(p, i + 3, f[i
            + 3])
  {
    Next2(p, f, i);
    Next2(p, f, i + 2);
    Joined(p, f, i, i + 2, i + 4);
  }

  // Some fields in a row, by kind: N for numbers, W for words, T and A for addresses, D for data, L, U and H for
  // lists of entries, authorizations and hashes, P for a parity.

  lemma RunNNWN(p: Bytes, f: seq<Field>, i: nat, a: nat, b: nat, c: Word, d: nat)
    requires i + 4 <= |f| && f[i] == U64(a) && f[i + 1] == U64(b) && f[i + 2] == Big(c) && f[i + 3] == U64(d)
    ensures Between(p, f, i, i + 4) <==> IntAt(p, i, 8, a) && IntAt(p, i + 1, 8, b) && WordAt(p, i + 2, c) && IntAt(p, i + 3, 8, d)
  {
    Next4(p, f, i);
  }

  lemma RunTWD(p: Bytes, f: seq<Field>, i: nat, a: Option<Bytes>, b: Word, c: Bytes)
    requires i + 3 <= |f| && f[i] == MaybeAddress(a) && f[i + 1] == Big(b) && f[i + 2] == Data(c)
    ensures Between(p, f, i, i + 3) <==> TargetAt(p, i, a) && WordAt(p, i + 1, b) && TextAt(p, i + 2, c)
  {
    Next3(p, f, i);
  }

  lemma RunLPWW(p: Bytes, f: seq<Field>, i: nat, a: seq<Entry>, b: byte, c: Word, d: Word)
    requires i + 4 <= |f| && f[i] == Access(a) && f[i + 1] == Parity(b) && f[i + 2] == Big(c) && f[i + 3] == Big(d)
    ensures Between(p, f, i, i + 4) <==> AccessAt(p, i, a) && IntAt(p, i + 1, 8, b) && WordAt(p, i + 2, c) && WordAt(p, i + 3, d)
  {
    Next4(p, f, i);
  }

  lemma RunNNWW(p: Bytes, f: seq<Field>, i: nat, a: nat, b: nat, c: Word, d: Word)
    requires i + 4 <= |f| && f[i] == U64(a) && f[i + 1] == U64(b) && f[i + 2] == Big(c) && f[i + 3] == Big(d)
    ensures Between(p, f, i, i + 4) <==> IntAt(p, i, 8, a) && IntAt(p, i + 1, 8, b) && WordAt(p, i + 2, c) && WordAt(p, i + 3, d)
  {
    Next4(p, f, i);
  }

  lemma RunNTWD(p: Bytes, f: seq<Field>, i: nat, a: nat, b: Option<Bytes>, c: Word, d: Bytes)
    requires i + 4 <= |f| && f[i] == U64(a) && f[i + 1] == MaybeAddress(b) && f[i + 2] == Big(c) && f[i + 3] == Data(d)
    ensures Between(p, f, i, i + 4) <==> IntAt(p, i, 8, a) && TargetAt(p, i + 1, b) && WordAt(p, i + 2, c) && TextAt(p, i + 3, d)
  {
    Next4(p, f, i);
  }

  lemma RunNAWD(p: Bytes, f: seq<Field>, i: nat, a: nat, b: Bytes, c: Word, d: Bytes)
    requires i + 4 <= |f| && f[i] == U64(a) && f[i + 1] == Address(b) && f[i + 2] == Big(c) && f[i + 3] == Data(d)
    ensures Between(p, f, i, i + 4) <==> IntAt(p, i, 8, a) && AddressAt(p, i + 1, b) && WordAt(p, i + 2, c) && TextAt(p, i + 3, d)
  {
    Next4(p, f, i);
  }

  lemma RunLWH(p: Bytes, f: seq<Field>, i: nat, a: seq<Entry>, b: Word, c: seq<Bytes>)
    requires i + 3 <= |f| && f[i] == Access(a) && f[i + 1] == Big(b) && f[i + 2] == Hashes(c)
    ensures Between(p, f, i, i + 3) <==> AccessAt(p, i, a) && WordAt(p, i + 1, b) && HashesAt(p, i + 2, c)
  {
    Next3(p, f, i);
  }

  lemma RunPWW(p: Bytes, f: seq<Field>, i: nat, a: byte, b: Word, c: Word)
    requires i + 3 <= |f| && f[i] == Parity(a) && f[i + 1] == Big(b) && f[i + 2] == Big(c)
    ensures Between(p, f, i, i + 3) <==> IntAt(p, i, 8, a) && WordAt(p, i + 1, b) && WordAt(p, i + 2, c)
  {
    Next3(p, f, i);
  }

  lemma RunLUP(p: Bytes, f: seq<Field>, i: nat, a: seq<Entry>, b: seq<Auth>, c: byte)
    requires i + 3 <= |f| && f[i] == Access(a) && f[i + 1] == Auths(b) && f[i + 2] == Parity(c)
    ensures Between(p, f, i, i + 3) <==> AccessAt(p, i, a) && AuthsAt(p, i + 1, b) && IntAt(p, i + 2, 8, c)
  {
    Next3(p, f, i);
  }

  lemma RunWW(p: Bytes, f: seq<Field>, i: nat, a: Word, b: Word)
    requires i + 2 <= |f| && f[i] == Big(a) && f[i + 1] == Big(b)
    ensures Between(p, f, i, i + 2) <==> WordAt(p, i, a) && WordAt(p, i + 1, b)
  {
    Next2(p, f, i);
  }

  lemma Eip2930HeadInOrder(p: Bytes, tx: Transaction, f: seq<Field>)
    requires tx.Eip2930? && |f| == 11
    requires f[0] == U64(tx.chainId) && f[1] == U64(tx.nonce) && f[2] == Big(tx.gasPrice) && f[3] == U64(tx.gasLimit)
             && f[4] == MaybeAddress(tx.target) && f[5] == Big(tx.amount) && f[6] == Data(tx.data)
    ensures Eip2930Head(p, tx) <==> Between(p, f, 0, 7)
  {
    RunNNWN(p, f, 0, tx.chainId, tx.nonce, tx.gasPrice, tx.gasLimit);
    RunTWD(p, f, 4, tx.target, tx.amount, tx.data);
    Joined(p, f, 0, 4, 7);
  }

  lemma Eip2930TailInOrder(p: Bytes, tx: Transaction, f: seq<Field>)
    requires tx.Eip2930? && |f| == 11
    requires f[7] == Access(tx.accessList) && f[8] == Parity(tx.yParity) && f[9] == Big(tx.r) && f[10] == Big(tx.s)
    ensures Eip2930Tail(p, tx) <==> Between(p, f, 7, 11)
  {
    RunLPWW(p, f, 7, tx.accessList, tx.yParity, tx.r, tx.s);
  }

  lemma Eip1559HeadInOrder(p: Bytes, tx: Transaction, f: seq<Field>)
    requires tx.Eip1559? && |f| == 12
    requires f[0] == U64(tx.chainId) && f[1] == U64(tx.nonce) && f[2] == Big(tx.maxPriorityFee) && f[3] ==
             Big(tx.maxFee) && f[4] == U64(tx.gasLimit) && f[5] == MaybeAddress(tx.target) && f[6] == Big(tx.amount)
             && f[7] == Data(tx.data)
    ensures Eip1559Head(p, tx) <==> Between(p, f, 0, 8)
  {
    RunNNWW(p, f, 0, tx.chainId, tx.nonce, tx.maxPriorityFee, tx.maxFee);
    RunNTWD(p, f, 4, tx.gasLimit, tx.target, tx.amount, tx.data);
    Joined(p, f, 0, 4, 8);
  }

  lemma Eip1559TailInOrder(p: Bytes, tx: Transaction, f: seq<Field>)
    requires tx.Eip1559? && |f| == 12
    requires f[8] == Access(tx.accessList) && f[9] == Parity(tx.yParity) && f[10] == Big(tx.r) && f[11] == Big(tx.s)
    ensures Eip1559Tail(p, tx) <==> Between(p, f, 8, 12)
  {
    RunLPWW(p, f, 8, tx.accessList, tx.yParity, tx.r, tx.s);
  }

  lemma Eip4844HeadInOrder(p: Bytes, tx: Transaction, f: seq<Field>)
    requires tx.Eip4844? && |f| == 14
    requires f[0] == U64(tx.chainId) && f[1] == U64(tx.nonce) && f[2] == Big(tx.maxPriorityFee) && f[3] ==
             Big(tx.maxFee) && f[4] == U64(tx.gasLimit) && f[5] == Address(tx.recipient) && f[6] == Big(tx.amount) &&
             f[7] == Data(tx.data)
    ensures Eip4844Head(p, tx) <==> Between(p, f, 0, 8)
  {
    RunNNWW(p, f, 0, tx.chainId, tx.nonce, tx.maxPriorityFee, tx.maxFee);
    RunNAWD(p, f, 4, tx.gasLimit, tx.recipient, tx.amount, tx.data);
    Joined(p, f, 0, 4, 8);
  }

  lemma Eip4844TailInOrder(p: Bytes, tx: Transaction, f: seq<Field>)
    requires tx.Eip4844? && |f| == 14
    requires f[8] == Access(tx.accessList) && f[9] == Big(tx.maxBlobFee) && f[10] == Hashes(tx.blobHashes) && f[11] ==
             Parity(tx.yParity) && f[12] == Big(tx.r) && f[13] == Big(tx.s)
    ensures Eip4844Tail(p, tx) <==> Between(p, f, 8, 14)
  {
    RunLWH(p, f, 8, tx.accessList, tx.maxBlobFee, tx.blobHashes);
    RunPWW(p, f, 11, tx.yParity, tx.r, tx.s);
    Joined(p, f, 8, 11, 14);
  }

  lemma Eip7702HeadInOrder(p: Bytes, tx: Transaction, f: seq<Field>)
    requires tx.Eip7702? && |f| == 13
    requires f[0] == U64(tx.chainId) && f[1] == U64(tx.nonce) && f[2] == Big(tx.maxPriorityFee) && f[3] ==
             Big(tx.maxFee) && f[4] == U64(tx.gasLimit) && f[5] == Address(tx.recipient) && f[6] == Big(tx.amount) &&
             f[7] == Data(tx.data)
    ensures Eip7702Head(p, tx) <==> Between(p, f, 0, 8)
  {
    RunNNWW(p, f, 0, tx.chainId, tx.nonce, tx.maxPriorityFee, tx.maxFee);
    RunNAWD(p, f, 4, tx.gasLimit, tx.recipient, tx.amount, tx.data);
    Joined(p, f, 0, 4, 8);
  }

  lemma Eip7702TailInOrder(p: Bytes, tx: Transaction, f: seq<Field>)
    requires tx.Eip7702? && |f| == 13
    requires f[8] == Access(tx.accessList) && f[9] == Auths(tx.authorizations) && f[10] == Parity(tx.yParity) && f[11]
             == Big(tx.r) && f[12] == Big(tx.s)
    ensures Eip7702Tail(p, tx) <==> Between(p, f, 8, 13)
  {
    RunLUP(p, f, 8, tx.accessList, tx.authorizations, tx.yParity);
    RunWW(p, f, 11, tx.r, tx.s);
    Joined(p, f, 8, 11, 13);
  }

  // ---------------------------------------------------------------------------
  // Encoder and decoder
  // ---------------------------------------------------------------------------

  /** How many fields stand before the access list. */
  function HeadLength(t: Type): nat {
    match t
    case LegacyType => 9
    case Eip2930Type => 7
    case Eip1559Type => 8
    case Eip4844Type => 8
    case Eip7702Type => 8
  }

  /** A list header and, after it, the payload. */
  lemma AfterListHeader(s: Bytes, len: nat, payload: Bytes)
    requires len < TWO_64 && Header(EMPTY_LIST_BYTE, len) + payload <= s && |s| < TWO_64
    ensures ReadListHeader(s) == Ok(len) && payload <= AfterHeader(s)
  {
    AfterFirst(s, Header(EMPTY_LIST_BYTE, len), payload);
    ListHeaderCanonical(s, len);
  }

  lemma HeadInOrder(p: Bytes, tx: Transaction, f: seq<Field>)
    requires f == Fields(tx)
    ensures |f| >= HeadLength(TypeOf(tx)) && (HeadAt(p, tx) <==> Between(p, f, 0, HeadLength(TypeOf(tx))))
  {
    if tx.Legacy? { LegacyInOrder(p, tx); }
    else if tx.Eip2930? { Eip2930HeadInOrder(p, tx, f); }
    else if tx.Eip1559? { Eip1559HeadInOrder(p, tx, f); }
    else if tx.Eip4844? { Eip4844HeadInOrder(p, tx, f); }
    else { Eip7702HeadInOrder(p, tx, f); }
  }

  lemma TailInOrder(p: Bytes, tx: Transaction, f: seq<Field>)
    requires f == Fields(tx)
    ensures |f| >= HeadLength(TypeOf(tx)) && (TailAt(p, tx) <==> Between(p, f, HeadLength(TypeOf(tx)), |f|))
  {
    if tx.Eip2930? { Eip2930TailInOrder(p, tx, f); }
    else if tx.Eip1559? { Eip1559TailInOrder(p, tx, f); }
    else if tx.Eip4844? { Eip4844TailInOrder(p, tx, f); }
    else if tx.Eip7702? { Eip7702TailInOrder(p, tx, f); }
  }

  lemma AllInOrder(p: Bytes, tx: Transaction, f: seq<Field>)
    requires f == Fields(tx)
    ensures HeadAt(p, tx) && TailAt(p, tx) <==> AllAt(p, f)
  {
    HeadInOrder(p, tx, f);
    TailInOrder(p, tx, f);
    Joined(p, f, 0, HeadLength(TypeOf(tx)), |f|);
  }

  lemma MarkIsType(first: byte, tx: Transaction)
    ensures MarkedAs(first, tx) <==> TypeFor(first) == Some(TypeOf(tx))
  {}

  /** A record of fields spelled after a header: each stands at its position in the payload. */
  lemma RecordStands(s: Bytes, f: seq<Field>, len: nat, forms: seq<Bytes>)
    requires Spells(s, f, len, forms) && |s| < TWO_64
    ensures ReadListHeader(s).Ok? && AllAt(AfterHeader(s), f)
  {
    AfterListHeader(s, len, Flatten(forms));
    var p := AfterHeader(s);
    var rest := p[|Flatten(forms)|..];
    assert p == Flatten(forms) + rest;
    SpelledStand(f, forms, rest);
  }

  lemma RecordSpelled(s: Bytes, f: seq<Field>) returns (len: nat, forms: seq<Bytes>)
    requires ReadListHeader(s).Ok? && AllAt(AfterHeader(s), f) && |s| < TWO_64
    ensures Spells(s, f, len, forms)
  {
    len := ReadListHeader(s).value;
    AcceptedHeader(s);
    forms := StandingSpelled(AfterHeader(s), f);
    FrontThenMore(s, Header(EMPTY_LIST_BYTE, len), AfterHeader(s), Flatten(forms));
  }

  /** What the decoder takes for a transaction of given bytes is what stands on the wire, and the other way
      round. */
  lemma AnnouncedOnWire(data: Bytes, tx: Transaction, len: nat, forms: seq<Bytes>)
    requires Announces(data, tx, len, forms) && |data| < TWO_64
    ensures OnWire(data, tx)
  {
    var s := RecordOf(data, tx.Legacy?);
    MarkIsType(data[0], tx);
    RecordStands(s, Fields(tx), len, forms);
    AllInOrder(AfterHeader(s), tx, Fields(tx));
  }

  lemma WireAnnounced(data: Bytes, tx: Transaction) returns (len: nat, forms: seq<Bytes>)
    requires OnWire(data, tx) && |data| < TWO_64
    ensures Announces(data, tx, len, forms)
  {
    var s := RecordOf(data, tx.Legacy?);
    MarkIsType(data[0], tx);
    AllInOrder(AfterHeader(s), tx, Fields(tx));
    len, forms := RecordSpelled(s, Fields(tx));
  }

  lemma {:induction false} FlattenSplit(forms: seq<Bytes>, k: nat)
    requires k <= |forms|
    ensures Flatten(forms) == Flatten(forms[..k]) + Flatten(forms[k..])
  {
    if k > 0 {
      FlattenSplit(forms[1..], k - 1);
      assert forms[..k][1..] == forms[1..][..k - 1];
      assert forms[1..][k - 1..] == forms[k..];
    } else {
      assert forms[..0] == [] && forms[0..] == forms;
    }
  }

  /** Before the first list nothing can be amiss: the scalars stand at their positions in whatever is
      accepted. */
  lemma ScalarsStand(s: Bytes, f: seq<Field>, kinds: seq<Kind>, len: nat, forms: seq<Bytes>, k: nat)
    requires SpellsScalars(s, f, kinds, len, forms) && |s| < TWO_64
    requires k <= |f| && forall i | 0 <= i < k :: Flat(kinds[i])
    ensures ReadListHeader(s).Ok? && Between(AfterHeader(s), f, 0, k)
  {
    FlattenSplit(forms, k);
    assert Header(EMPTY_LIST_BYTE, len) + Flatten(forms[..k]) <= Header(EMPTY_LIST_BYTE, len) + Flatten(forms);
    assert Spelled(f[..k], forms[..k]) && AllFormed(f[..k]);
    RecordStands(s, f[..k], len, forms[..k]);
    var p := AfterHeader(s);
    forall i | 0 <= i < k ensures FieldAt(p, i, f[i]) { assert FieldAt(p, i, f[..k][i]); }
  }

  lemma HeadIsFlat(t: Type)
    ensures HeadLength(t) <= |Kinds(t)| && forall i | 0 <= i < HeadLength(t) :: Flat(Kinds(t)[i])
  {}

  /** The encoder puts every field of a transaction that fits in its place. */
  method Encode(tx: Transaction) returns (out: Bytes)
    requires AllFormed(Fields(tx)) && |tx.data| + 9 < TWO_64 && ListsStart(tx)
    ensures FitsRoom(tx) ==> OnWire(out, tx)
  {
    TxRoundTrips.FieldsEncodable(tx);
    out := EncodeTransaction(tx);
    TxRoundTrips.WrittenTokens(tx);
    if FitsRoom(tx) {
      EnvelopeAnnounces(tx, out);
      AnnouncedOnWire(out, tx, |EncodeItems(FieldItems(Fields(tx)))|, Encodings(Fields(tx)));
    }
  }

  /** The decoder takes every field from its place: a transaction on the wire is the one returned, and the
      fields of whatever is returned stand where they should, for legacy transactions all of them and for the
      others up to the access list. */
  method Decode(data: Bytes, ghost want: Transaction) returns (r: Option<Transaction>)
    requires |data| < TWO_64
    ensures OnWire(data, want) ==> r == Some(want)
    ensures r.Some? ==> HeadOnWire(data, r.value)
    ensures r.Some? && r.value.Legacy? ==> OnWire(data, r.value)
  {
    ghost var wantLen, wantForms: seq<Bytes> := 0, [];
    if OnWire(data, want) { wantLen, wantForms := WireAnnounced(data, want); }
    ghost var len, forms;
    var read;
    read, len, forms := DecodeTransaction(data, want, wantLen, wantForms);
    if read.None? { return None; }
    ReadOnWire(data, read.value.0, len, forms);
    return Some(read.value.0);
  }

  lemma ReadOnWire(data: Bytes, tx: Transaction, len: nat, forms: seq<Bytes>)
    requires 0 < |data| < TWO_64 && TypeFor(data[0]) == Some(TypeOf(tx))
    requires SpellsScalars(AfterType(TypeOf(tx), data), Fields(tx), Kinds(TypeOf(tx)), len, forms)
    ensures HeadOnWire(data, tx)
  {
    var s := RecordOf(data, tx.Legacy?);
    FieldsMatch(tx);
    MarkIsType(data[0], tx);
    HeadIsFlat(TypeOf(tx));
    ScalarsStand(s, Fields(tx), Kinds(TypeOf(tx)), len, forms, HeadLength(TypeOf(tx)));
    HeadInOrder(AfterHeader(s), tx, Fields(tx));
  }

  // ---------------------------------------------------------------------------
  // Accounts
  // ---------------------------------------------------------------------------

  /** Nonce, balance, storage root and code hash, in this order and nothing after them. */
  predicate AccountOnWire(data: Bytes, a: Accounts.Account) {
    && ReadListHeader(data).Ok?
    && var p := AfterHeader(data);
       && IntAt(p, 0, 8, a.nonce) && WordAt(p, 1, a.balance) && TextAt(p, 2, a.storageRoot) && TextAt(p, 3, a.codeHash)
       && Nth(p, 4) == []
  }

  lemma AccountStands(a: Accounts.Account, x: Bytes, y: Bytes, data: Bytes)
    requires Accounts.Formed(a) && IntForm(a.nonce, x) && IntForm(Val(a.balance), y)
    requires data == EncodeList(Accounts.Payload(x, y, a)) && |data| < TWO_64
    ensures AccountOnWire(data, a)
  {
    var root, code := EncodeBytes(a.storageRoot), EncodeBytes(a.codeHash);
    var p := Accounts.Payload(x, y, a);
    AfterListHeader(data, |p|, p);
    assert AfterHeader(data) == p;
    SizeFitsEightBytes(a.nonce);
    IntReads(a.nonce, 8, x, y + (root + code));
    WordFits(a.balance);
    IntReads(Val(a.balance), 32, y, root + code);
    TextReads(a.storageRoot, root, code);
    assert code == code + [];
    TextReads(a.codeHash, code, []);
    FourItems(x, y, root, code);
  }

  lemma FourItems(u: Bytes, v: Bytes, w: Bytes, x: Bytes)
    requires |u| > 0 && |v| > 0 && |w| > 0 && |x| > 0
    requires Span(u + (v + (w + x))) == |u| && Span(v + (w + x)) == |v| && Span(w + x) == |w| && Span(x) == |x|
    ensures var p := u + (v + (w + x));
            Nth(p, 0) == p && Nth(p, 1) == v + (w + x) && Nth(p, 2) == w + x && Nth(p, 3) == x && Nth(p, 4) == []
  {
    var p := u + (v + (w + x));
    assert p[|u|..] == v + (w + x) && (v + (w + x))[|v|..] == w + x && (w + x)[|w|..] == x && x[|x|..] == [];
    var n := 0;
    NthNext(p, n);
    NthNext(p, n + 1);
    NthNext(v + (w + x), n);
    NthNext(w + x, n);
    NthNext(x, n);
    NthNext(v + (w + x), n + 1);
    NthNext(w + x, n + 1);
    NthNext(p, n + 2);
    NthNext(v + (w + x), n + 2);
    NthNext(p, n + 3);
  }

  /** Every account is written and read in that order. */
  method EncodeAccount(a: Accounts.Account) returns (out: Bytes)
    requires Accounts.Formed(a)
    ensures AccountOnWire(out, a)
  {
    out := Accounts.EncodeAccount(a);
    Accounts.AccountFits(a);
    var x, y := EncodeInt(a.nonce), EncodeInt(Val(a.balance));
    HeaderPrefix(EMPTY_LIST_BYTE, |Accounts.Payload(x, y, a)|);
    AccountStands(a, x, y, out);
  }

  method DecodeAccount(data: Bytes) returns (r: Option<Accounts.Account>)
    requires |data| < TWO_64
    ensures r.Some? ==> AccountOnWire(data, r.value)
  {
    ghost var x, y;
    r, x, y := Accounts.DecodeAccount(data, Accounts.Account(0, ZERO, [], []), [], []);
    if r.Some? { AccountStands(r.value, x, y, data); }
  }
}
