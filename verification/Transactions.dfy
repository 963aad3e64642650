/** The five transaction types: encoding into a reserved buffer, decoding, and exactly when a transaction
    survives the two. */
module Transactions {
  import opened Bytes
  import opened Rlp
  import opened ByteBuffer
  import opened RlpEncoder
  import opened RlpDecoder
  import opened KeptItems
  import opened UInt256
  import opened WordBytes
  import opened TxFields

  datatype Transaction =
    | Legacy(nonce: nat, gasPrice: Word, gasLimit: nat, target: Option<Bytes>, amount: Word, data: Bytes,
             v: nat, r: Word, s: Word)
    | Eip2930(chainId: nat, nonce: nat, gasPrice: Word, gasLimit: nat, target: Option<Bytes>, amount: Word,
              data: Bytes, accessList: seq<Entry>, yParity: byte, r: Word, s: Word)
    | Eip1559(chainId: nat, nonce: nat, maxPriorityFee: Word, maxFee: Word, gasLimit: nat, target: Option<Bytes>,
              amount: Word, data: Bytes, accessList: seq<Entry>, yParity: byte, r: Word, s: Word)
    | Eip4844(chainId: nat, nonce: nat, maxPriorityFee: Word, maxFee: Word, gasLimit: nat, recipient: Bytes,
              amount: Word, data: Bytes, accessList: seq<Entry>, maxBlobFee: Word, blobHashes: seq<Bytes>,
              yParity: byte, r: Word, s: Word)
    | Eip7702(chainId: nat, nonce: nat, maxPriorityFee: Word, maxFee: Word, gasLimit: nat, recipient: Bytes,
              amount: Word, data: Bytes, accessList: seq<Entry>, authorizations: seq<Auth>,
              yParity: byte, r: Word, s: Word)

  datatype Type = LegacyType | Eip2930Type | Eip1559Type | Eip4844Type | Eip7702Type

  function TypeOf(tx: Transaction): Type {
    match tx
    case Legacy(_, _, _, _, _, _, _, _, _) => LegacyType
    case Eip2930(_, _, _, _, _, _, _, _, _, _, _) => Eip2930Type
    case Eip1559(_, _, _, _, _, _, _, _, _, _, _, _) => Eip1559Type
    case Eip4844(_, _, _, _, _, _, _, _, _, _, _, _, _, _) => Eip4844Type
    case Eip7702(_, _, _, _, _, _, _, _, _, _, _, _, _) => Eip7702Type
  }

  /** The order of the fields on the wire. */
  function Fields(tx: Transaction): seq<Field> {
    match tx
    case Legacy(nonce, gasPrice, gasLimit, target, amount, data, v, r, s) =>
      [U64(nonce), Big(gasPrice), U64(gasLimit), MaybeAddress(target), Big(amount), Data(data), U64(v), Big(r), Big(s)]
    case Eip2930(chainId, nonce, gasPrice, gasLimit, target, amount, data, access, parity, r, s) =>
      [U64(chainId), U64(nonce), Big(gasPrice), U64(gasLimit), MaybeAddress(target), Big(amount), Data(data),
       Access(access), Parity(parity), Big(r), Big(s)]
    case Eip1559(chainId, nonce, priority, fee, gasLimit, target, amount, data, access, parity, r, s) =>
      [U64(chainId), U64(nonce), Big(priority), Big(fee), U64(gasLimit), MaybeAddress(target), Big(amount),
       Data(data), Access(access), Parity(parity), Big(r), Big(s)]
    case Eip4844(chainId, nonce, priority, fee, gasLimit, to, amount, data, access, blobFee, hashes, parity, r, s) =>
      [U64(chainId), U64(nonce), Big(priority), Big(fee), U64(gasLimit), Address(to), Big(amount), Data(data),
       Access(access), Big(blobFee), Hashes(hashes), Parity(parity), Big(r), Big(s)]
    case Eip7702(chainId, nonce, priority, fee, gasLimit, to, amount, data, access, auths, parity, r, s) =>
      [U64(chainId), U64(nonce), Big(priority), Big(fee), U64(gasLimit), Address(to), Big(amount), Data(data),
       Access(access), Auths(auths), Parity(parity), Big(r), Big(s)]
  }

  /** The order in which the decoders read. */
  function Kinds(t: Type): seq<Kind> {
    match t
    case LegacyType =>
      [U64Kind, BigKind, U64Kind, MaybeAddressKind, BigKind, DataKind, U64Kind, BigKind, BigKind]
    case Eip2930Type =>
      [U64Kind, U64Kind, BigKind, U64Kind, MaybeAddressKind, BigKind, DataKind, AccessKind, ParityKind, BigKind, BigKind]
    case Eip1559Type =>
      [U64Kind, U64Kind, BigKind, BigKind, U64Kind, MaybeAddressKind, BigKind, DataKind, AccessKind, ParityKind,
       BigKind, BigKind]
    case Eip4844Type =>
      [U64Kind, U64Kind, BigKind, BigKind, U64Kind, AddressKind, BigKind, DataKind, AccessKind, BigKind, HashesKind,
       ParityKind, BigKind, BigKind]
    case Eip7702Type =>
      [U64Kind, U64Kind, BigKind, BigKind, U64Kind, AddressKind, BigKind, DataKind, AccessKind, AuthsKind, ParityKind,
       BigKind, BigKind]
  }

  ghost predicate Matches(fields: seq<Field>, kinds: seq<Kind>) {
    |fields| == |kinds| && forall i | 0 <= i < |kinds| :: KindOf(fields[i]) == kinds[i]
  }

  // The transaction with the given fields, type by type.

  function AssembleLegacy(f: seq<Field>): (tx: Transaction)
    requires Matches(f, Kinds(LegacyType))
    ensures Fields(tx) == f
  {
    Legacy(f[0].n, f[1].w, f[2].n, f[3].target, f[4].w, f[5].b, f[6].n, f[7].w, f[8].w)
  }

  function AssembleEip2930(f: seq<Field>): (tx: Transaction)
    requires Matches(f, Kinds(Eip2930Type))
    ensures Fields(tx) == f
  {
    Eip2930(f[0].n, f[1].n, f[2].w, f[3].n, f[4].target, f[5].w, f[6].b, f[7].entries, f[8].p, f[9].w, f[10].w)
  }

  function AssembleEip1559(f: seq<Field>): (tx: Transaction)
    requires Matches(f, Kinds(Eip1559Type))
    ensures Fields(tx) == f
  {
    Eip1559(f[0].n, f[1].n, f[2].w, f[3].w, f[4].n, f[5].target, f[6].w, f[7].b, f[8].entries, f[9].p, f[10].w,
            f[11].w)
  }

  function AssembleEip4844(f: seq<Field>): (tx: Transaction)
    requires Matches(f, Kinds(Eip4844Type))
    ensures Fields(tx) == f
  {
    Eip4844(f[0].n, f[1].n, f[2].w, f[3].w, f[4].n, f[5].a, f[6].w, f[7].b, f[8].entries, f[9].w, f[10].hashes,
            f[11].p, f[12].w, f[13].w)
  }

  function AssembleEip7702(f: seq<Field>): (tx: Transaction)
    requires Matches(f, Kinds(Eip7702Type))
    ensures Fields(tx) == f
  {
    Eip7702(f[0].n, f[1].n, f[2].w, f[3].w, f[4].n, f[5].a, f[6].w, f[7].b, f[8].entries, f[9].auths, f[10].p,
            f[11].w, f[12].w)
  }

  function Assemble(t: Type, f: seq<Field>): (tx: Transaction)
    requires Matches(f, Kinds(t))
    ensures TypeOf(tx) == t && Fields(tx) == f
  {
    match t
    case LegacyType => AssembleLegacy(f)
    case Eip2930Type => AssembleEip2930(f)
    case Eip1559Type => AssembleEip1559(f)
    case Eip4844Type => AssembleEip4844(f)
    case Eip7702Type => AssembleEip7702(f)
  }

  // The decoders read the fields in the order the encoders write them.

  lemma LegacyMatch(tx: Transaction)
    requires tx.Legacy?
    ensures Matches(Fields(tx), Kinds(LegacyType))
  {}

  lemma Eip2930Match(tx: Transaction)
    requires tx.Eip2930?
    ensures Matches(Fields(tx), Kinds(Eip2930Type))
  {}

  lemma Eip1559Match(tx: Transaction)
    requires tx.Eip1559?
    ensures Matches(Fields(tx), Kinds(Eip1559Type))
  {}

  lemma Eip4844Match(tx: Transaction)
    requires tx.Eip4844?
    ensures Matches(Fields(tx), Kinds(Eip4844Type))
  {}

  lemma Eip7702Match(tx: Transaction)
    requires tx.Eip7702?
    ensures Matches(Fields(tx), Kinds(Eip7702Type))
  {}

  lemma FieldsMatch(tx: Transaction)
    ensures Matches(Fields(tx), Kinds(TypeOf(tx)))
  {
    if tx.Legacy? { LegacyMatch(tx); }
    else if tx.Eip2930? { Eip2930Match(tx); }
    else if tx.Eip1559? { Eip1559Match(tx); }
    else if tx.Eip4844? { Eip4844Match(tx); }
    else { Eip7702Match(tx); }
  }

  lemma FieldsDetermine(a: Transaction, b: Transaction)
    requires TypeOf(a) == TypeOf(b) && Fields(a) == Fields(b)
    ensures a == b
  {}

  ghost predicate AllFormed(fields: seq<Field>) {
    forall i | 0 <= i < |fields| :: Formed(fields[i])
  }

  // ---------------------------------------------------------------------------
  // Encoding
  // ---------------------------------------------------------------------------

  function TypeByte(t: Type): Bytes {
    match t
    case LegacyType => []
    case Eip2930Type => [1]
    case Eip1559Type => [2]
    case Eip4844Type => [3]
    case Eip7702Type => [4]
  }

  /** How much the encoder reserves; an arena buffer never grows. */
  function Room(t: Type): nat {
    match t
    case LegacyType => 256
    case Eip2930Type => 512
    case Eip1559Type => 512
    case Eip4844Type => 1024
    case Eip7702Type => 1024
  }

  /** The wire form: the type byte, then the list of fields. */
  function Envelope(tx: Transaction): Bytes {
    TypeByte(TypeOf(tx)) + Body(tx)
  }

  function Body(tx: Transaction): Bytes {
    EncodeItem(List(FieldItems(Fields(tx))))
  }

  predicate FitsRoom(tx: Transaction) {
    |TypeByte(TypeOf(tx))| + Peak(List(FieldItems(Fields(tx)))) <= Room(TypeOf(tx))
  }

  /** The bytes left for the list of fields. */
  function ListRoom(t: Type): nat {
    Room(t) - |TypeByte(t)|
  }

  function Record(tx: Transaction): Item {
    List(FieldItems(Fields(tx)))
  }

  /** Wherever a list is started, its nine header bytes still fit. */
  predicate ListsStart(tx: Transaction) {
    Keep(Record(tx), ListRoom(TypeOf(tx))).Some?
  }

  /** What the encoder writes: what is kept of the record, behind the type byte. */
  function Written(tx: Transaction): Bytes
    requires ListsStart(tx)
  {
    TypeByte(TypeOf(tx)) + EncodeItems(Keep(Record(tx), ListRoom(TypeOf(tx))).value)
  }

  /** The bytes of one scalar field. */
  method EncodeScalar(f: Field) returns (e: Bytes)
    requires Formed(f) && !f.Access? && !f.Auths? && !f.Hashes? && Encodable(ToItem(f))
    ensures e == EncodeItem(ToItem(f))
  {
    match f
    case U64(n) => e := EncodeU64(n);
    case Big(w) => e := EncodeUint256(w);
    case MaybeAddress(target) =>
      if target.None? { e := EncodeByteString([]); } else { e := EncodeAddress(target.value); }
    case Address(a) => e := EncodeAddress(a);
    case Data(b) => e := EncodeByteString(b);
    case Parity(p) => e := EncodeU64(p);
  }

  /** One field into the buffer, or nothing of a scalar that does not fit. */
  method EncodeField(b: Buffer, f: Field, ghost room: nat)
    requires Fixed(b) && Formed(f) && Encodable(ToItem(f))
    requires room == b.capacity - b.size && Keep(ToItem(f), room).Some?
    modifies b, b.data
    ensures Fixed(b) && b.data == old(b.data) && b.capacity == old(b.capacity)
    ensures b.Contents() == old(b.Contents()) + EncodeItems(Keep(ToItem(f), room).value)
  {
    if f.Access? || f.Auths? || f.Hashes? {
      EmitKept(b, ToItem(f), room);
    } else {
      OneItem(ToItem(f));
      var e := EncodeScalar(f);
      AppendKept(b, e);
    }
  }

  method EncodeFields(b: Buffer, fields: seq<Field>, ghost room: nat)
    requires Fixed(b) && AllFormed(fields) && AllEncodable(FieldItems(fields))
    requires room == b.capacity - b.size && KeepAll(FieldItems(fields), room).Some?
    modifies b, b.data
    ensures Fixed(b) && b.data == old(b.data) && b.capacity == old(b.capacity)
    ensures b.Contents() == old(b.Contents()) + EncodeItems(KeepAll(FieldItems(fields), room).value)
    decreases |fields|
  {
    if |fields| > 0 {
      assert FieldItems(fields)[1..] == FieldItems(fields[1..]);
      ghost var before, first := b.Contents(), Keep(ToItem(fields[0]), room).value;
      EncodeField(b, fields[0], room);
      ghost var left := room - |EncodeItems(first)|;
      EncodeFields(b, fields[1..], left);
      ghost var rest := KeepAll(FieldItems(fields[1..]), left).value;
      EncodeAppend(first, rest);
      Regroup(before, EncodeItems(first), EncodeItems(rest));
    }
  }

  /** Type byte, list start, fields, list end; the results of the appends are not looked at. */
  method EncodeTransaction(tx: Transaction) returns (out: Bytes)
    requires AllFormed(Fields(tx)) && Encodable(Record(tx)) && ListsStart(tx)
    ensures out == Written(tx)
  {
    out := EncodeRecord(TypeByte(TypeOf(tx)), Fields(tx), Room(TypeOf(tx)), ListRoom(TypeOf(tx)));
  }

  /** What is kept of a record is a list of what is kept of its fields in the room that its header leaves. */
  lemma KeptRecord(items: seq<Item>, left: nat) returns (inner: nat, kept: seq<Item>)
    requires left < TWO_64 && Keep(List(items), left).Some?
    ensures left == inner + MAX_HEADER_SIZE && KeepAll(items, inner) == Some(kept)
    ensures EncodeItems(Keep(List(items), left).value) == EncodeList(EncodeItems(kept))
  {
    inner := left - MAX_HEADER_SIZE;
    kept := KeepAll(items, inner).value;
    OneItem(List(kept));
  }

  /** List start, fields, list end. */
  method EncodeListed(b: Buffer, fields: seq<Field>, ghost inner: nat, ghost kept: seq<Item>)
    requires Fixed(b) && AllFormed(fields) && AllEncodable(FieldItems(fields))
    requires b.capacity - b.size == inner + MAX_HEADER_SIZE && KeepAll(FieldItems(fields), inner) == Some(kept)
    modifies b, b.data
    ensures Fixed(b) && b.Contents() == old(b.Contents()) + EncodeList(EncodeItems(kept))
  {
    ghost var before := b.Contents();
    var headerPos := ListStart(b);
    EncodeFields(b, fields, inner);
    assert b.Contents()[..headerPos] == before;
    assert b.Contents()[headerPos + MAX_HEADER_SIZE..] == EncodeItems(kept);
    ListEnd(b, headerPos);
  }

  method EncodeRecord(prefix: Bytes, fields: seq<Field>, room: nat, ghost left: nat) returns (out: Bytes)
    requires AllFormed(fields) && AllEncodable(FieldItems(fields)) && |prefix| + left == room < TWO_64
    requires Keep(List(FieldItems(fields)), left).Some?
    ensures out == prefix + EncodeItems(Keep(List(FieldItems(fields)), left).value)
  {
    ghost var inner, kept := KeptRecord(FieldItems(fields), left);
    out := EncodeAfter(prefix, fields, room, inner, kept);
  }

  method EncodeAfter(prefix: Bytes, fields: seq<Field>, room: nat, ghost inner: nat, ghost kept: seq<Item>)
      returns (out: Bytes)
    requires AllFormed(fields) && AllEncodable(FieldItems(fields))
    requires |prefix| + inner + MAX_HEADER_SIZE == room < TWO_64 && KeepAll(FieldItems(fields), inner) == Some(kept)
    ensures out == prefix + EncodeList(EncodeItems(kept))
  {
    var b := Reserved(room);
    Push(b, prefix);
    assert b.Contents() == prefix;
    EncodeListed(b, fields, inner, kept);
    out := b.data[..b.size];
  }

  // ---------------------------------------------------------------------------
  // Decoding
  // ---------------------------------------------------------------------------

  /** How many tokens the fields take. */
  function FieldsSize(fields: seq<Field>): nat {
    if |fields| == 0 then 0 else FieldsSize(fields[..|fields| - 1]) + FieldSize(fields[|fields| - 1])
  }

  lemma FieldsSizeAppend(fields: seq<Field>, f: Field)
    ensures FieldsSize(fields + [f]) == FieldsSize(fields) + FieldSize(f)
  {
    assert (fields + [f])[..|fields|] == fields;
  }

  predicate AllFlat(kinds: seq<Kind>) {
    forall i | 0 <= i < |kinds| :: Flat(kinds[i])
  }

  function Flatten(forms: seq<Bytes>): Bytes {
    if |forms| == 0 then [] else forms[0] + Flatten(forms[1..])
  }

  lemma {:induction false} FlattenAppend(forms: seq<Bytes>, b: Bytes)
    ensures Flatten(forms + [b]) == Flatten(forms) + b
  {
    if |forms| == 0 {
      assert (forms + [b])[1..] == [];
    } else {
      FlattenAppend(forms[1..], b);
      assert (forms + [b])[1..] == forms[1..] + [b];
    }
  }

  /** `forms` are bytes accepted for the fields, one by one. */
  ghost predicate Spelled(fields: seq<Field>, forms: seq<Bytes>) {
    |forms| == |fields| && forall i | 0 <= i < |fields| :: FieldForm(fields[i], forms[i])
  }

  /** For the fields of flat kinds, that is; for lists nothing is said. */
  ghost predicate ScalarsSpelled(fields: seq<Field>, forms: seq<Bytes>, kinds: seq<Kind>) {
    && |forms| == |fields| <= |kinds|
    && forall i | 0 <= i < |fields| && Flat(kinds[i]) :: FieldForm(fields[i], forms[i]) && Formed(fields[i])
  }

  lemma AllSpelled(fields: seq<Field>, forms: seq<Bytes>, kinds: seq<Kind>)
    requires ScalarsSpelled(fields, forms, kinds) && |fields| == |kinds| && AllFlat(kinds)
    ensures Spelled(fields, forms) && AllFormed(fields)
  {}

  /** Some fields have been read from `s`: of the right kinds, with the tokens they took, one after the other
      and, where a kind is flat, from bytes accepted for the field. */
  ghost predicate ReadSoFar(s: Bytes, fields: seq<Field>, forms: seq<Bytes>, kinds: seq<Kind>, taken: int, rest: Bytes) {
    && |fields| <= |kinds| && taken == FieldsSize(fields)
    && (forall i | 0 <= i < |fields| :: KindOf(fields[i]) == kinds[i])
    && s == Flatten(forms) + rest
    && ScalarsSpelled(fields, forms, kinds)
  }

  lemma ReadOneMore(s: Bytes, fields: seq<Field>, forms: seq<Bytes>, kinds: seq<Kind>, taken: int, rest: Bytes,
                    r: Option<Field>, n: int)
    requires ReadSoFar(s, fields, forms, kinds, taken, rest) && |fields| < |kinds|
    requires r.Some? && Read(kinds[|fields|], r, rest, n)
    ensures ReadSoFar(s, fields + [r.value], forms + [rest[..n]], kinds, taken + FieldSize(r.value), rest[n..])
  {
    FieldsSizeAppend(fields, r.value);
    FlattenAppend(forms, rest[..n]);
    assert Flatten(forms) + rest == Flatten(forms) + rest[..n] + rest[n..];
  }

  /** The forms from index `i` on stand ahead. */
  ghost predicate Follow(rest: Bytes, forms: seq<Bytes>, i: nat) {
    i <= |forms| && Flatten(forms[i..]) <= rest
  }

  lemma FollowStep(rest: Bytes, forms: seq<Bytes>, i: nat)
    requires Follow(rest, forms, i) && i < |forms|
    ensures forms[i] <= rest && Follow(rest[|forms[i]|..], forms, i + 1)
  {
    assert forms[i..][1..] == forms[i + 1..];
    AfterFirst(rest, forms[i], Flatten(forms[i + 1..]));
  }

  /** The fields read so far are the first of those expected, and the others follow. */
  ghost predicate OnTrack(rest: Bytes, want: seq<Field>, wantForms: seq<Bytes>, fields: seq<Field>) {
    |fields| <= |want| && fields == want[..|fields|] && Follow(rest, wantForms, |fields|)
  }

  /** The next field is expected where the others left off, and once it is read the rest still follow. */
  lemma StaysOnTrack(rest: Bytes, want: seq<Field>, wantForms: seq<Bytes>, kinds: seq<Kind>, fields: seq<Field>, i: nat)
    requires Matches(want, kinds) && AllFormed(want) && Spelled(want, wantForms)
    requires OnTrack(rest, want, wantForms, fields) && i == |fields| < |kinds|
    ensures Expects(kinds[i], want[i], wantForms[i], rest) && |wantForms[i]| <= |rest|
    ensures OnTrack(rest[|wantForms[i]|..], want, wantForms, fields + [want[i]])
  {
    FollowStep(rest, wantForms, i);
    assert want[..i + 1] == want[..i] + [want[i]];
  }

  method NextField(dec: Decoder, k: Kind, ghost good: bool, ghost want: Field, ghost form: Bytes)
      returns (r: Option<Field>)
    requires dec.Valid() && (good ==> Expects(k, want, form, dec.Rest()))
    modifies dec
    ensures dec.Valid() && Read(k, r, old(dec.Rest()), dec.pos - old(dec.pos))
    ensures r.Some? ==> dec.Rest() == old(dec.Rest())[dec.pos - old(dec.pos)..]
    ensures r.Some? ==> old(dec.Left()) == FieldSize(r.value) + dec.Left()
    ensures good ==> r == Some(want) && dec.pos == old(dec.pos) + |form|
  {
    ghost var start := dec.pos;
    r := DecodeField(dec, k, want, form);
    if r.Some? { RestAfter(dec.input, start, dec.pos - start); }
  }

  method ReadNext(dec: Decoder, fields: seq<Field>, ghost forms: seq<Bytes>, kinds: seq<Kind>, ghost good: bool,
                  ghost want: seq<Field>, ghost wantForms: seq<Bytes>, ghost s: Bytes, ghost taken: int)
      returns (r: Option<Field>, ghost form: Bytes)
    requires dec.Valid() && |fields| < |kinds| && ReadSoFar(s, fields, forms, kinds, taken, dec.Rest())
    requires good ==> Matches(want, kinds) && AllFormed(want) && Spelled(want, wantForms)
    requires good ==> OnTrack(dec.Rest(), want, wantForms, fields)
    modifies dec
    ensures dec.Valid()
    ensures r.Some? ==> ReadSoFar(s, fields + [r.value], forms + [form], kinds, taken + old(dec.Left()) - dec.Left(),
                                  dec.Rest())
    ensures good ==> r.Some? && OnTrack(dec.Rest(), want, wantForms, fields + [r.value])
  {
    ghost var rest, start := dec.Rest(), dec.pos;
    ghost var i, next, nextForm := |fields|, U64(0), [];
    if good {
      next, nextForm := want[i], wantForms[i];
      StaysOnTrack(rest, want, wantForms, kinds, fields, i);
    }
    r := NextField(dec, kinds[|fields|], good, next, nextForm);
    form := [];
    if r.Some? {
      ghost var n, size := dec.pos - start, FieldSize(r.value);
      assert dec.Rest() == rest[n..] && size == old(dec.Left()) - dec.Left();
      form := rest[..n];
      ReadOneMore(s, fields, forms, kinds, taken, rest, r, n);
    }
  }

  method DecodeFields(dec: Decoder, kinds: seq<Kind>, ghost good: bool, ghost want: seq<Field>, ghost wantForms: seq<Bytes>)
      returns (r: Option<seq<Field>>, ghost forms: seq<Bytes>)
    requires dec.Valid()
    requires good ==> Matches(want, kinds) && AllFormed(want) && Spelled(want, wantForms)
    requires good ==> Flatten(wantForms) <= dec.Rest()
    modifies dec
    ensures dec.Valid()
    ensures r.Some? ==> |r.value| == |kinds|
    ensures r.Some? ==> ReadSoFar(old(dec.Rest()), r.value, forms, kinds, old(dec.Left()) - dec.Left(), dec.Rest())
    ensures good ==> r == Some(want)
  {
    var fields: seq<Field> := [];
    forms := [];
    assert wantForms[0..] == wantForms;
    while |fields| < |kinds|
      invariant dec.Valid()
      invariant ReadSoFar(old(dec.Rest()), fields, forms, kinds, old(dec.Left()) - dec.Left(), dec.Rest())
      invariant good ==> OnTrack(dec.Rest(), want, wantForms, fields)
      decreases |kinds| - |fields|
    {
      ghost var taken, form := old(dec.Left()) - dec.Left(), [];
      var one;
      one, form := ReadNext(dec, fields, forms, kinds, good, want, wantForms, old(dec.Rest()), taken);
      if one.None? { return None, forms; }
      fields, forms := fields + [one.value], forms + [form];
    }
    if good { assert want[..|want|] == want; }
    return Some(fields), forms;
  }

  /** `data` begins with the header of a list of `len` bytes and bytes accepted for the fields. That the header
      announces as many bytes as the fields have is nowhere asked for. */
  ghost predicate Spells(data: Bytes, fields: seq<Field>, len: nat, forms: seq<Bytes>) {
    && AllFormed(fields) && Spelled(fields, forms)
    && len < TWO_64 && Header(EMPTY_LIST_BYTE, len) + Flatten(forms) <= data
  }

  /** `data` begins with the header of a list of `len` bytes and the bytes of the fields, of which those of flat
      kinds are bytes accepted for them. */
  ghost predicate SpellsScalars(data: Bytes, fields: seq<Field>, kinds: seq<Kind>, len: nat, forms: seq<Bytes>) {
    && ScalarsSpelled(fields, forms, kinds)
    && len < TWO_64 && Header(EMPTY_LIST_BYTE, len) + Flatten(forms) <= data
  }

  /** What a decoder reports as consumed. */
  function Consumed(len: nat): nat {
    ListLimit(|Header(EMPTY_LIST_BYTE, len)|, len)
  }

  lemma HeaderThenForms(data: Bytes, header: Bytes, payload: Bytes, rest: Bytes)
    requires header <= data && data[|header|..] == payload + rest
    ensures header + payload <= data
  {
    assert data == header + data[|header|..] == header + payload + rest;
  }

  /** One record: a list header and fields of the given kinds, with nothing checked after them. Records of flat
      kinds are accepted exactly when they are spelled at the front of the data. */
  method DecodeRecord(data: Bytes, kinds: seq<Kind>, ghost want: seq<Field>, ghost wantLen: nat,
                      ghost wantForms: seq<Bytes>)
      returns (r: Option<(seq<Field>, nat)>, ghost len: nat, ghost forms: seq<Bytes>)
    requires |data| < TWO_64
    ensures r.Some? ==> Matches(r.value.0, kinds) && 1 + FieldsSize(r.value.0) <= Tokens(data)
    ensures r.Some? ==> r.value.1 == Consumed(len)
    ensures r.Some? ==> SpellsScalars(data, r.value.0, kinds, len, forms)
    ensures Matches(want, kinds) && Spells(data, want, wantLen, wantForms) ==> r == Some((want, Consumed(wantLen)))
  {
    len, forms := 0, [];
    if |data| == 0 { return None, len, forms; }
    ghost var good := Matches(want, kinds) && Spells(data, want, wantLen, wantForms);
    var dec := new Decoder(data);
    assert dec.Rest() == data;
    ListHeaderCanonical(data, wantLen);
    if good { AfterFirst(data, Header(EMPTY_LIST_BYTE, wantLen), Flatten(wantForms)); }
    var header := dec.DecodeListHeader();
    if header.Err? { return None, len, forms; }
    len := header.value;
    AcceptedHeader(data);
    var consumed := ListLimit(dec.pos, header.value);
    var fields;
    fields, forms := DecodeFields(dec, kinds, good, want, wantForms);
    if fields.None? { return None, len, forms; }
    HeaderThenForms(data, Header(EMPTY_LIST_BYTE, len), Flatten(forms), dec.Rest());
    return Some((fields.value, consumed)), len, forms;
  }

  /** The tokens of a transaction: its list header and its fields. */
  function TxSize(tx: Transaction): nat {
    1 + FieldsSize(Fields(tx))
  }

  method DecodeBody(data: Bytes, t: Type, ghost want: Transaction, ghost wantLen: nat, ghost wantForms: seq<Bytes>)
      returns (r: Option<(Transaction, nat)>, ghost len: nat, ghost forms: seq<Bytes>)
    requires |data| < TWO_64
    ensures r.Some? ==> TypeOf(r.value.0) == t && TxSize(r.value.0) <= Tokens(data) && r.value.1 == Consumed(len)
    ensures r.Some? ==> SpellsScalars(data, Fields(r.value.0), Kinds(t), len, forms)
    ensures TypeOf(want) == t && Spells(data, Fields(want), wantLen, wantForms) ==> r == Some((want, Consumed(wantLen)))
  {
    FieldsMatch(want);
    var record;
    record, len, forms := DecodeRecord(data, Kinds(t), Fields(want), wantLen, wantForms);
    if record.None? { return None, len, forms; }
    var (fields, consumed) := record.value;
    var tx := Assemble(t, fields);
    if TypeOf(want) == t && fields == Fields(want) { FieldsDetermine(tx, want); }
    r := Some((tx, consumed));
  }

  lemma LegacyIsFlat()
    ensures AllFlat(Kinds(LegacyType))
  {}

  /** A legacy transaction is accepted exactly when it is spelled at the front of the data: a list header of any
      length, and after it the nine fields, each in its encoding or, for a zero, as the byte 0x00. */
  method DecodeLegacy(data: Bytes, ghost want: Transaction, ghost wantLen: nat, ghost wantForms: seq<Bytes>)
      returns (r: Option<(Transaction, nat)>, ghost len: nat, ghost forms: seq<Bytes>)
    requires |data| < TWO_64
    ensures r.Some? ==> r.value.0.Legacy? && Spells(data, Fields(r.value.0), len, forms) && r.value.1 == Consumed(len)
    ensures want.Legacy? && Spells(data, Fields(want), wantLen, wantForms) ==> r == Some((want, Consumed(wantLen)))
  {
    r, len, forms := DecodeBody(data, LegacyType, want, wantLen, wantForms);
    LegacyIsFlat();
    if r.Some? {
      FieldsMatch(r.value.0);
      FlatSpells(data, Fields(r.value.0), Kinds(LegacyType), len, forms);
    }
  }

  lemma FlatSpells(data: Bytes, fields: seq<Field>, kinds: seq<Kind>, len: nat, forms: seq<Bytes>)
    requires SpellsScalars(data, fields, kinds, len, forms) && |fields| == |kinds| && AllFlat(kinds)
    ensures Spells(data, fields, len, forms)
  {
    AllSpelled(fields, forms, kinds);
  }

  // An encoded transaction spells itself.

  function Encodings(fields: seq<Field>): (forms: seq<Bytes>)
    ensures |forms| == |fields| && forall i | 0 <= i < |forms| :: forms[i] == EncodeItem(ToItem(fields[i]))
  {
    seq(|fields|, i requires 0 <= i < |fields| => EncodeItem(ToItem(fields[i])))
  }

  lemma {:induction false} EncodingsFlatten(fields: seq<Field>)
    ensures Flatten(Encodings(fields)) == EncodeItems(FieldItems(fields))
  {
    if |fields| > 0 {
      EncodingsFlatten(fields[1..]);
      assert Encodings(fields)[1..] == Encodings(fields[1..]);
      assert FieldItems(fields)[1..] == FieldItems(fields[1..]);
    }
  }

  lemma EncodedSpells(tx: Transaction, data: Bytes)
    requires AllFormed(Fields(tx)) && Body(tx) <= data && |data| < TWO_64
    ensures var len := |EncodeItems(FieldItems(Fields(tx)))|;
            Spells(data, Fields(tx), len, Encodings(Fields(tx))) && Consumed(len) == |Body(tx)|
  {
    var f := Fields(tx);
    EncodingsFlatten(f);
    forall i | 0 <= i < |f| ensures FieldForm(f[i], Encodings(f)[i]) {}
  }

  /** The type a leading byte stands for. */
  function TypeFor(b: byte): Option<Type> {
    if b >= EMPTY_LIST_BYTE then Some(LegacyType)
    else match b
      case 1 => Some(Eip2930Type)
      case 2 => Some(Eip1559Type)
      case 3 => Some(Eip4844Type)
      case 4 => Some(Eip7702Type)
      case _ => None
  }

  /** The bytes after the type byte. */
  function AfterType(t: Type, data: Bytes): Bytes
    requires |data| > 0
  {
    if t.LegacyType? then data else data[1..]
  }

  /** The transaction stands at the front of the data: its type byte, if it has one, and then bytes accepted for
      its fields. */
  ghost predicate Announces(data: Bytes, tx: Transaction, len: nat, forms: seq<Bytes>) {
    && |data| > 0 && TypeFor(data[0]) == Some(TypeOf(tx))
    && Spells(AfterType(TypeOf(tx), data), Fields(tx), len, forms)
  }

  function OneMore(n: nat): nat {
    if n + 1 == TWO_64 then 0 else n + 1
  }

  /** What is reported as consumed; the type byte counts. */
  function Taken(t: Type, len: nat): nat {
    if t.LegacyType? then Consumed(len) else OneMore(Consumed(len))
  }

  method DecodeTransaction(data: Bytes, ghost want: Transaction, ghost wantLen: nat, ghost wantForms: seq<Bytes>)
      returns (r: Option<(Transaction, nat)>, ghost len: nat, ghost forms: seq<Bytes>)
    requires |data| < TWO_64
    ensures r.Some? ==> |data| > 0 && TypeFor(data[0]) == Some(TypeOf(r.value.0))
    ensures r.Some? ==> TxSize(r.value.0) <= Tokens(AfterType(TypeOf(r.value.0), data))
    ensures r.Some? ==> var t := TypeOf(r.value.0);
                        SpellsScalars(AfterType(t, data), Fields(r.value.0), Kinds(t), len, forms)
    ensures Announces(data, want, wantLen, wantForms) ==> r == Some((want, Taken(TypeOf(want), wantLen)))
  {
    len, forms := 0, [];
    if |data| == 0 { return None, len, forms; }
    var t := TypeFor(data[0]);
    if t.None? { return None, len, forms; }
    if t.value.LegacyType? {
      r, len, forms := DecodeBody(data, LegacyType, want, wantLen, wantForms);
    } else {
      r, len, forms := DecodeTyped(data[1..], t.value, want, wantLen, wantForms);
    }
  }

  method DecodeTyped(data: Bytes, t: Type, ghost want: Transaction, ghost wantLen: nat, ghost wantForms: seq<Bytes>)
      returns (r: Option<(Transaction, nat)>, ghost len: nat, ghost forms: seq<Bytes>)
    requires |data| + 1 < TWO_64 && !t.LegacyType?
    ensures r.Some? ==> TypeOf(r.value.0) == t && TxSize(r.value.0) <= Tokens(data)
    ensures r.Some? ==> SpellsScalars(data, Fields(r.value.0), Kinds(t), len, forms)
    ensures TypeOf(want) == t && Spells(data, Fields(want), wantLen, wantForms) ==> r == Some((want, Taken(t, wantLen)))
  {
    var body;
    body, len, forms := DecodeBody(data, t, want, wantLen, wantForms);
    if body.None? { return None, len, forms; }
    var (tx, consumed) := body.value;
    r := Some((tx, OneMore(consumed)));
  }

  /** An encoded transaction announces itself. */
  lemma EnvelopeAnnounces(tx: Transaction, data: Bytes)
    requires AllFormed(Fields(tx)) && Envelope(tx) <= data && |data| < TWO_64
    ensures var len := |EncodeItems(FieldItems(Fields(tx)))|;
            Announces(data, tx, len, Encodings(Fields(tx))) && Taken(TypeOf(tx), len) == |Envelope(tx)|
  {
    FirstByte(tx, data);
    EncodedSpells(tx, AfterType(TypeOf(tx), data));
  }

  lemma FirstByte(tx: Transaction, data: Bytes)
    requires Envelope(tx) <= data && |data| < TWO_64
    ensures TypeFor(data[0]) == Some(TypeOf(tx))
    ensures tx.Legacy? ==> Body(tx) <= data && |Envelope(tx)| == |Body(tx)|
    ensures !tx.Legacy? ==> Body(tx) <= data[1..] && |Envelope(tx)| == 1 + |Body(tx)|
  {
    if tx.Legacy? {
      assert Envelope(tx) == Body(tx);
      ListSelfDelimiting(EncodeItems(FieldItems(Fields(tx))));
    } else {
      AfterFirst(data, TypeByte(TypeOf(tx)), Body(tx));
    }
  }
}
