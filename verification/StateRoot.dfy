/** The state root: accounts stored in the trie under the hash of their address, empty accounts left out
    (EIP-161). */
module StateRoot {
  import opened Bytes
  import opened Rlp
  import opened Limbs
  import opened UInt256
  import opened TrieRuns
  import opened TrieCommitment
  import opened Accounts
  import TxFields

  const EMPTY_CODE_HASH: Bytes := [
    0xc5, 0xd2, 0x46, 0x01, 0x86, 0xf7, 0x23, 0x3c, 0x92, 0x7e, 0x7d, 0xb2, 0xdc, 0xc7, 0x03, 0xc0,
    0xe5, 0x00, 0xb6, 0x53, 0xca, 0x82, 0x27, 0x3b, 0x7b, 0xfa, 0xd8, 0x04, 0x5d, 0x85, 0xa4, 0x70]

  predicate IsEmpty(a: Account) {
    a.nonce == 0 && a.balance == ZERO && a.codeHash == EMPTY_CODE_HASH
  }

  /** One write of an account. */
  datatype Change = Change(address: Bytes, account: Account)

  /** A write as an operation on a map from addresses to encoded accounts. */
  function ToOp(c: Change): Op {
    if IsEmpty(c.account) then Erase(c.address) else Write(c.address, Encoding(c.account))
  }

  function PlainOps(changes: seq<Change>): (ops: seq<Op>)
    ensures |ops| == |changes| && forall i | 0 <= i < |ops| :: ops[i] == ToOp(changes[i])
  {
    if |changes| == 0 then [] else PlainOps(changes[..|changes| - 1]) + [ToOp(changes[|changes| - 1])]
  }

  /** The state trie is keyed by the hash of the address. */
  function HashKey(h: Hasher, op: Op): Op {
    match op case Write(key, value) => Write(h(key), value) case Erase(key) => Erase(h(key))
  }

  function HashKeys(h: Hasher, ops: seq<Op>): (hashed: seq<Op>)
    ensures |hashed| == |ops|
  {
    if |ops| == 0 then [] else HashKeys(h, ops[..|ops| - 1]) + [HashKey(h, ops[|ops| - 1])]
  }

  function Ops(h: Hasher, changes: seq<Change>): seq<Op> {
    HashKeys(h, PlainOps(changes))
  }

  /** The accounts after a sequence of writes. */
  function Ledger(changes: seq<Change>): map<Bytes, Account> {
    if |changes| == 0 then map[]
    else
      var before, c := Ledger(changes[..|changes| - 1]), changes[|changes| - 1];
      if IsEmpty(c.account) then before - {c.address} else before[c.address := c.account]
  }

  ghost function Root(h: Hasher, changes: seq<Change>): Hash {
    RootHash(h, Run(Ops(h, changes)))
  }

  // ---------------------------------------------------------------------------
  // Account encodings are injective
  // ---------------------------------------------------------------------------

  lemma IntInjective(m: nat, n: nat)
    requires |ToBigEndian(m)| < TWO_64 && |ToBigEndian(n)| < TWO_64 && EncodeInt(m) == EncodeInt(n)
    ensures m == n
  {
    EncodeBytesInjective(ToBigEndian(m), ToBigEndian(n));
    FromToBigEndian(m);
    FromToBigEndian(n);
  }

  lemma FieldsDelimited(a: Account)
    requires Formed(a)
    ensures SelfDelimiting(EncodeInt(a.nonce)) && SelfDelimiting(EncodeInt(Val(a.balance)))
    ensures SelfDelimiting(EncodeBytes(a.storageRoot))
    ensures |ToBigEndian(a.nonce)| <= 8 && |ToBigEndian(Val(a.balance))| <= 32
  {
    SizeFitsEightBytes(a.nonce);
    TxFields.WordFits(a.balance);
    BytesSelfDelimiting(ToBigEndian(a.nonce));
    BytesSelfDelimiting(ToBigEndian(Val(a.balance)));
    BytesSelfDelimiting(a.storageRoot);
  }

  lemma EncodingInjective(a: Account, b: Account)
    requires Formed(a) && Formed(b) && Encoding(a) == Encoding(b)
    ensures a == b
  {
    AccountFits(a);
    AccountFits(b);
    FieldsDelimited(a);
    FieldsDelimited(b);
    var (x, y) := (EncodeInt(a.nonce), EncodeInt(b.nonce));
    var (u, v) := (EncodeInt(Val(a.balance)), EncodeInt(Val(b.balance)));
    EncodeListInjective(Payload(x, u, a), Payload(y, v, b));
    var (p, q) := (EncodeBytes(a.storageRoot), EncodeBytes(b.storageRoot));
    var (s, t) := (EncodeBytes(a.codeHash), EncodeBytes(b.codeHash));
    PrefixFree(x, u + (p + s), y, v + (q + t));
    PrefixFree(u, p + s, v, q + t);
    PrefixFree(p, s, q, t);
    IntInjective(a.nonce, b.nonce);
    IntInjective(Val(a.balance), Val(b.balance));
    ValInjective(a.balance, b.balance);
    EncodeBytesInjective(a.storageRoot, b.storageRoot);
    EncodeBytesInjective(a.codeHash, b.codeHash);
  }

  // ---------------------------------------------------------------------------
  // Hashed keys mirror plain ones
  // ---------------------------------------------------------------------------

  /** The map under hashed keys says of every known key what the plain map says, and nothing else. */
  ghost predicate Mirrors(h: Hasher, m: map<Bytes, Bytes>, plain: map<Bytes, Bytes>, known: iset<Bytes>) {
    && (forall a | a in plain :: a in known)
    && (forall a | a in known :: MapGet(m, h(a)) == MapGet(plain, a))
    && (forall k | k in m :: k in Image(h, known))
  }

  ghost function Image(h: Hasher, known: iset<Bytes>): iset<Bytes> {
    iset a | a in known :: h(a)
  }

  lemma OpMirrors(h: Hasher, m: map<Bytes, Bytes>, plain: map<Bytes, Bytes>, known: iset<Bytes>, op: Op)
    requires Mirrors(h, m, plain, known) && NoCollision(h, known) && op.key in known
    ensures Mirrors(h, ApplyToMap(m, HashKey(h, op)), ApplyToMap(plain, op), known)
  {
    var (m', plain') := (ApplyToMap(m, HashKey(h, op)), ApplyToMap(plain, op));
    forall a | a in known ensures MapGet(m', h(a)) == MapGet(plain', a) {
      assert MapGet(m, h(a)) == MapGet(plain, a);
      assert h(a) == h(op.key) <==> a == op.key;
    }
    assert h(op.key) in Image(h, known);
  }

  lemma {:induction false} RunMirrors(h: Hasher, ops: seq<Op>, known: iset<Bytes>)
    requires NoCollision(h, known) && forall i | 0 <= i < |ops| :: ops[i].key in known
    ensures Mirrors(h, RunOnMap(HashKeys(h, ops)), RunOnMap(ops), known)
  {
    if |ops| > 0 {
      var before, op := ops[..|ops| - 1], ops[|ops| - 1];
      RunMirrors(h, before, known);
      OpMirrors(h, RunOnMap(HashKeys(h, before)), RunOnMap(before), known, op);
      var hashed := HashKeys(h, ops);
      assert hashed[..|hashed| - 1] == HashKeys(h, before);
    }
  }

  /** Mirrors of equal maps are equal, and conversely. */
  lemma MirrorsAgree(h: Hasher, m: map<Bytes, Bytes>, n: map<Bytes, Bytes>, x: map<Bytes, Bytes>,
                     y: map<Bytes, Bytes>, known: iset<Bytes>)
    requires Mirrors(h, m, x, known) && Mirrors(h, n, y, known)
    ensures m == n <==> x == y
  {
    if m == n {
      forall a | a in known ensures MapGet(x, a) == MapGet(y, a) {
        assert MapGet(m, h(a)) == MapGet(x, a) && MapGet(n, h(a)) == MapGet(y, a);
      }
      SameEverywhere(x, y, known);
    }
    if x == y {
      forall k | k in Image(h, known) ensures MapGet(m, k) == MapGet(n, k) {
        var a :| a in known && h(a) == k;
        assert MapGet(m, h(a)) == MapGet(x, a) && MapGet(n, h(a)) == MapGet(y, a);
      }
      SameEverywhere(m, n, Image(h, known));
    }
  }

  lemma SameEverywhere(x: map<Bytes, Bytes>, y: map<Bytes, Bytes>, known: iset<Bytes>)
    requires forall a | a in known :: MapGet(x, a) == MapGet(y, a)
    requires (forall a | a in x :: a in known) && (forall a | a in y :: a in known)
    ensures x == y
  {
    forall a | a in x ensures a in y && y[a] == x[a] { assert MapGet(x, a) == MapGet(y, a); }
    forall a | a in y ensures a in x { assert MapGet(x, a) == MapGet(y, a); }
  }

  // ---------------------------------------------------------------------------
  // The ledger and its encoding
  // ---------------------------------------------------------------------------

  ghost predicate AllFormed(changes: seq<Change>) {
    forall i | 0 <= i < |changes| :: Formed(changes[i].account)
  }

  ghost function Addresses(changes: seq<Change>): iset<Bytes> {
    iset i | 0 <= i < |changes| :: changes[i].address
  }

  ghost function Encoded(ledger: map<Bytes, Account>): map<Bytes, Bytes> {
    map a | a in ledger :: Encoding(ledger[a])
  }

  /** The plain operations leave the encoded ledger. */
  lemma {:induction false} PlainRun(changes: seq<Change>)
    requires AllFormed(changes)
    ensures RunOnMap(PlainOps(changes)) == Encoded(Ledger(changes))
    ensures forall a | a in Ledger(changes) :: Formed(Ledger(changes)[a])
  {
    if |changes| > 0 {
      var before, c := changes[..|changes| - 1], changes[|changes| - 1];
      PlainRun(before);
      var ops := PlainOps(changes);
      assert ops[..|ops| - 1] == PlainOps(before);
      LedgerStep(Ledger(before), c);
      assert Formed(c.account);
    }
  }

  lemma LedgerStep(ledger: map<Bytes, Account>, c: Change)
    ensures var after := if IsEmpty(c.account) then ledger - {c.address} else ledger[c.address := c.account];
            ApplyToMap(Encoded(ledger), ToOp(c)) == Encoded(after)
  {}

  lemma EntryInjective(x: map<Bytes, Account>, y: map<Bytes, Account>, a: Bytes)
    requires a in x && a in y && Formed(x[a]) && Formed(y[a]) && Encoded(x) == Encoded(y)
    ensures x[a] == y[a]
  {
    assert Encoded(x)[a] == Encoding(x[a]) && Encoded(y)[a] == Encoding(y[a]);
    EncodingInjective(x[a], y[a]);
  }

  lemma EncodedInjective(x: map<Bytes, Account>, y: map<Bytes, Account>)
    requires (forall a | a in x :: Formed(x[a])) && (forall a | a in y :: Formed(y[a]))
    requires Encoded(x) == Encoded(y)
    ensures x == y
  {
    SameKeys(x, y);
    forall a | a in x ensures x[a] == y[a] { EntryInjective(x, y, a); }
  }

  lemma SameKeys(x: map<Bytes, Account>, y: map<Bytes, Account>)
    requires Encoded(x) == Encoded(y)
    ensures x.Keys == y.Keys
  {
    assert Encoded(x).Keys == x.Keys && Encoded(y).Keys == y.Keys;
  }

  lemma NoEmptyEncoding(ledger: map<Bytes, Account>)
    ensures [] !in Encoded(ledger).Values
  {}

  lemma MirrorValues(h: Hasher, m: map<Bytes, Bytes>, plain: map<Bytes, Bytes>, known: iset<Bytes>, v: Bytes)
    requires Mirrors(h, m, plain, known) && v !in plain.Values
    ensures v !in m.Values
  {
    forall k | k in m ensures m[k] != v {
      var a :| a in known && h(a) == k;
      assert MapGet(m, h(a)) == MapGet(plain, a);
    }
  }

  /** The state root commits to the accounts: two histories of account writes end in the same root exactly
      when they end in the same accounts, unless the hash collides on their addresses or node encodings. */
  lemma StateRootCommits(h: Hasher, a: seq<Change>, b: seq<Change>)
    requires h([EMPTY_STRING_BYTE]) == EMPTY_ROOT
    requires AllFormed(a) && AllFormed(b)
    requires NoCollision(h, Addresses(a) + Addresses(b))
    requires SizedTrie(h, Run(Ops(h, a))) && SizedTrie(h, Run(Ops(h, b)))
    requires NoCollision(h, TrieEncodings(h, Run(Ops(h, a))) + TrieEncodings(h, Run(Ops(h, b))))
    ensures Root(h, a) == Root(h, b) <==> Ledger(a) == Ledger(b)
  {
    var known := Addresses(a) + Addresses(b);
    LedgerMirrored(h, a, known);
    LedgerMirrored(h, b, known);
    LedgersAgree(h, RunOnMap(Ops(h, a)), RunOnMap(Ops(h, b)), Ledger(a), Ledger(b), known);
    RunsCommit(h, Ops(h, a), Ops(h, b));
  }

  lemma LedgerMirrored(h: Hasher, changes: seq<Change>, known: iset<Bytes>)
    requires AllFormed(changes) && NoCollision(h, known) && Addresses(changes) <= known
    ensures Mirrors(h, RunOnMap(Ops(h, changes)), Encoded(Ledger(changes)), known)
    ensures forall a | a in Ledger(changes) :: Formed(Ledger(changes)[a])
  {
    RunMirrors(h, PlainOps(changes), known);
    PlainRun(changes);
  }

  lemma LedgersAgree(h: Hasher, m: map<Bytes, Bytes>, n: map<Bytes, Bytes>, a: map<Bytes, Account>,
                     b: map<Bytes, Account>, known: iset<Bytes>)
    requires Mirrors(h, m, Encoded(a), known) && Mirrors(h, n, Encoded(b), known)
    requires (forall x | x in a :: Formed(a[x])) && (forall x | x in b :: Formed(b[x]))
    ensures [] !in m.Values && [] !in n.Values && (m == n <==> a == b)
  {
    NoEmptyEncoding(a);
    NoEmptyEncoding(b);
    MirrorValues(h, m, Encoded(a), known, []);
    MirrorValues(h, n, Encoded(b), known, []);
    MirrorsAgree(h, m, n, Encoded(a), Encoded(b), known);
    if Encoded(a) == Encoded(b) { EncodedInjective(a, b); }
  }
}
