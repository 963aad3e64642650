/** Node encoding, node references and the root hash (Appendix D of the Yellow Paper), and why
    the root hash commits to the contents. The hash function is a parameter: what is needed of
    it is said where it is needed. */
module TrieCommitment {
  import opened Bytes
  import opened Rlp
  import opened Trie
  import opened TrieRuns
  import HexPrefix

  type Hash = s: Bytes | |s| == 32 witness seq(32, i => 0)

  type Hasher = Bytes -> Hash

  /** The hash of the RLP empty string, precomputed in the source. */
  const EMPTY_ROOT: Hash := [
    0x56, 0xe8, 0x1f, 0x17, 0x1b, 0xcc, 0x55, 0xa6, 0xff, 0x83, 0x45, 0xe6, 0x92, 0xc0, 0xf8, 0x6e,
    0x5b, 0x48, 0xe0, 0x1b, 0x99, 0x6c, 0xad, 0xc0, 0x01, 0x62, 0x2f, 0xb5, 0xe3, 0x63, 0xb4, 0x21]

  /** How a parent refers to a child: not at all, by the child's bytes, or by their hash. */
  datatype Ref = NullRef | Embedded(bytes: Bytes) | Hashed(hash: Hash)

  function EncodeRef(r: Ref): Bytes {
    match r
    case NullRef => EncodeBytes([])
    case Embedded(bytes) => bytes
    case Hashed(hash) => EncodeBytes(hash)
  }

  /** The reference to a node with the given encoding. */
  function MakeRef(h: Hasher, encoded: Bytes): Ref {
    if |encoded| < 32 then Embedded(encoded) else Hashed(h(encoded))
  }

  /** A branch without a value and one holding an empty value are written alike. */
  function OwnBytes(own: Option<Bytes>): Bytes {
    if own.Some? then own.value else []
  }

  function Encode(h: Hasher, t: Node): (e: Bytes)
    ensures |e| > 0
    decreases t, 1
  {
    EncodeList(Concat(Items(h, t)))
  }

  function RefOf(h: Hasher, t: Node): (r: Ref)
    ensures !r.NullRef?
    decreases t, 2
  {
    MakeRef(h, Encode(h, t))
  }

  function ChildRef(h: Hasher, child: Option<Node>): Ref
    decreases child, 3
  {
    if child.None? then NullRef else RefOf(h, child.value)
  }

  /** The items of a node's list: path and value, path and child, or sixteen children and value. */
  function Items(h: Hasher, t: Node): (items: seq<Bytes>)
    ensures |items| == if t.Branch? then |t.children| + 1 else 2
    decreases t, 0
  {
    match t
    case Leaf(path, value) => [EncodeBytes(HexPrefix.Encode(path, true)), EncodeBytes(value)]
    case Extension(path, child) =>
      [EncodeBytes(HexPrefix.Encode(path, false)), EncodeRef(RefOf(h, child))]
    case Branch(children, own) =>
      seq(|children|, i requires 0 <= i < |children| => EncodeRef(ChildRef(h, children[i])))
      + [EncodeBytes(OwnBytes(own))]
  }

  function RootHash(h: Hasher, t: Trie): Hash {
    if t.None? then EMPTY_ROOT else h(Encode(h, t.value))
  }

  // ---------------------------------------------------------------------------
  // What the root hash cannot see
  // ---------------------------------------------------------------------------

  /** The subtrie with empty branch values dropped. */
  function Strip(t: Node): Node
    decreases t
  {
    match t
    case Leaf(_, _) => t
    case Extension(path, child) => Extension(path, Strip(child))
    case Branch(children, own) =>
      Branch(seq(|children|, i requires 0 <= i < |children| =>
                 if children[i].None? then None else Some(Strip(children[i].value))),
             if own == Some([]) then None else own)
  }

  function StripTrie(t: Trie): Trie {
    if t.None? then None else Some(Strip(t.value))
  }

  /** Dropping empty branch values changes no encoding. */
  lemma {:induction false} StripKeepsEncoding(h: Hasher, t: Node)
    ensures Items(h, Strip(t)) == Items(h, t)
    ensures RefOf(h, Strip(t)) == RefOf(h, t)
    decreases t
  {
    match t
    case Leaf(_, _) =>
    case Extension(_, child) => StripKeepsEncoding(h, child);
    case Branch(children, own) =>
      var s := Strip(t);
      forall i | 0 <= i < |children| ensures Items(h, s)[i] == Items(h, t)[i] {
        if children[i].Some? { StripKeepsEncoding(h, children[i].value); }
      }
      assert Items(h, s)[|children|] == Items(h, t)[|children|];
  }

  // ---------------------------------------------------------------------------
  // Sizes and collisions
  // ---------------------------------------------------------------------------

  /** Every part of every node fits a `size_t`. */
  ghost predicate Sized(h: Hasher, t: Node)
    decreases t
  {
    && |Concat(Items(h, t))| < TWO_64
    && match t
       case Leaf(path, value) => |path| < TWO_64 && |value| < TWO_64
       case Extension(path, child) => |path| < TWO_64 && Sized(h, child)
       case Branch(children, own) =>
         && |OwnBytes(own)| < TWO_64
         && forall i | 0 <= i < |children| :: children[i].Some? ==> Sized(h, children[i].value)
  }

  /** The encodings of all nodes of a subtrie. */
  ghost function Encodings(h: Hasher, t: Node): (s: iset<Bytes>)
    ensures Encode(h, t) in s
    decreases t
  {
    iset{Encode(h, t)} +
    match t
    case Leaf(_, _) => iset{}
    case Extension(_, child) => Encodings(h, child)
    case Branch(children, _) =>
      iset i, e | 0 <= i < |children| && children[i].Some? && e in Encodings(h, children[i].value) :: e
  }

  /** The hash tells the given byte strings apart. */
  ghost predicate NoCollision(h: Hasher, s: iset<Bytes>) {
    forall x, y | x in s && y in s :: h(x) == h(y) ==> x == y
  }

  // ---------------------------------------------------------------------------
  // The encoding is injective
  // ---------------------------------------------------------------------------

  lemma EncodeStartsAsList(h: Hasher, t: Node)
    requires Sized(h, t)
    ensures SelfDelimiting(Encode(h, t))
    ensures Encode(h, t)[0] >= EMPTY_LIST_BYTE
  {
    ListSelfDelimiting(Concat(Items(h, t)));
  }

  lemma RefSelfDelimiting(h: Hasher, child: Option<Node>)
    requires child.Some? ==> Sized(h, child.value)
    ensures SelfDelimiting(EncodeRef(ChildRef(h, child)))
  {
    if child.None? {
      BytesSelfDelimiting([]);
    } else {
      EncodeStartsAsList(h, child.value);
      BytesSelfDelimiting(h(Encode(h, child.value)));
    }
  }

  lemma ItemsSelfDelimiting(h: Hasher, t: Node)
    requires Sized(h, t)
    ensures forall i | 0 <= i < |Items(h, t)| :: SelfDelimiting(Items(h, t)[i])
  {
    match t
    case Leaf(path, value) =>
      BytesSelfDelimiting(HexPrefix.Encode(path, true));
      BytesSelfDelimiting(value);
    case Extension(path, child) =>
      BytesSelfDelimiting(HexPrefix.Encode(path, false));
      RefSelfDelimiting(h, Some(child));
    case Branch(children, own) =>
      forall i | 0 <= i < |children| ensures SelfDelimiting(Items(h, t)[i]) {
        RefSelfDelimiting(h, children[i]);
      }
      BytesSelfDelimiting(OwnBytes(own));
  }

  lemma SameEncodingSameItems(h: Hasher, a: Node, b: Node)
    requires Sized(h, a) && Sized(h, b)
    requires Encode(h, a) == Encode(h, b)
    ensures Items(h, a) == Items(h, b)
  {
    EncodeListInjective(Concat(Items(h, a)), Concat(Items(h, b)));
    ItemsSelfDelimiting(h, a);
    ItemsSelfDelimiting(h, b);
    UniqueSplit(Items(h, a), Items(h, b));
  }

  /** Equal references are references to nodes with equal encodings. */
  lemma SameRefSameEncoding(h: Hasher, a: Option<Node>, b: Option<Node>, s: iset<Bytes>)
    requires a.Some? ==> Sized(h, a.value) && Encode(h, a.value) in s
    requires b.Some? ==> Sized(h, b.value) && Encode(h, b.value) in s
    requires NoCollision(h, s)
    requires EncodeRef(ChildRef(h, a)) == EncodeRef(ChildRef(h, b))
    ensures a.Some? <==> b.Some?
    ensures a.Some? ==> Encode(h, a.value) == Encode(h, b.value)
  {
    assert EncodeBytes([]) == [0x80];
    if a.Some? {
      EncodeStartsAsList(h, a.value);
      BytesSelfDelimiting(h(Encode(h, a.value)));
    }
    if b.Some? {
      EncodeStartsAsList(h, b.value);
      BytesSelfDelimiting(h(Encode(h, b.value)));
    }
    if a.Some? && b.Some? && |Encode(h, a.value)| >= 32 && |Encode(h, b.value)| >= 32 {
      EncodeBytesInjective(h(Encode(h, a.value)), h(Encode(h, b.value)));
    }
  }

  lemma {:induction false} EncodeInjective(h: Hasher, a: Node, b: Node, s: iset<Bytes>)
    requires Sized(h, a) && Sized(h, b)
    requires WellFormed(a) && WellFormed(b)
    requires Encodings(h, a) <= s && Encodings(h, b) <= s && NoCollision(h, s)
    requires Encode(h, a) == Encode(h, b)
    ensures Strip(a) == Strip(b)
    decreases a
  {
    SameEncodingSameItems(h, a, b);
    var items := Items(h, a);
    assert items[0] == Items(h, b)[0] && items[1] == Items(h, b)[1];
    match a
    case Leaf(path, value) =>
      SamePath(h, a, b);
      EncodeBytesInjective(value, b.value);
    case Extension(path, child) =>
      SamePath(h, a, b);
      SameRefSameEncoding(h, Some(child), Some(b.child), s);
      EncodeInjective(h, child, b.child, s);
    case Branch(children, own) =>
      forall i | 0 <= i < 16 ensures Strip(a).children[i] == Strip(b).children[i] {
        assert items[i] == Items(h, b)[i];
        SubEncodings(h, a, i, s);
        SubEncodings(h, b, i, s);
        SameRefSameEncoding(h, children[i], b.children[i], s);
        if children[i].Some? {
          EncodeInjective(h, children[i].value, b.children[i].value, s);
        }
      }
      assert items[16] == Items(h, b)[16];
      EncodeBytesInjective(OwnBytes(own), OwnBytes(b.own));
      assert Strip(a).children == Strip(b).children;
  }

  lemma SubEncodings(h: Hasher, t: Node, i: nat, s: iset<Bytes>)
    requires t.Branch? && i < |t.children|
    requires Encodings(h, t) <= s
    ensures t.children[i].Some? ==> Encodings(h, t.children[i].value) <= s
  {}

  /** The flag in the first item tells leaves from extensions. */
  lemma SamePath(h: Hasher, a: Node, b: Node)
    requires Sized(h, a) && Sized(h, b)
    requires !a.Branch? && !b.Branch?
    requires Items(h, a)[0] == Items(h, b)[0]
    ensures a.Leaf? <==> b.Leaf?
    ensures a.path == b.path
  {
    EncodeBytesInjective(HexPrefix.Encode(a.path, a.Leaf?), HexPrefix.Encode(b.path, b.Leaf?));
    HexPrefix.EncodeInjective(a.path, a.Leaf?, b.path, b.Leaf?);
  }

  // ---------------------------------------------------------------------------
  // Commitment
  // ---------------------------------------------------------------------------

  ghost function TrieEncodings(h: Hasher, t: Trie): iset<Bytes> {
    iset{[EMPTY_STRING_BYTE]} + if t.None? then iset{} else Encodings(h, t.value)
  }

  ghost predicate SizedTrie(h: Hasher, t: Trie) { t.Some? ==> Sized(h, t.value) }

  /** Unless the hash collides on two node encodings, equal root hashes mean equal tries, up to
      the empty branch values that the encoding does not show; and conversely. */
  lemma RootHashCommits(h: Hasher, a: Trie, b: Trie)
    requires h([EMPTY_STRING_BYTE]) == EMPTY_ROOT
    requires WellFormedTrie(a) && WellFormedTrie(b)
    requires SizedTrie(h, a) && SizedTrie(h, b)
    requires NoCollision(h, TrieEncodings(h, a) + TrieEncodings(h, b))
    ensures RootHash(h, a) == RootHash(h, b) <==> StripTrie(a) == StripTrie(b)
  {
    var s := TrieEncodings(h, a) + TrieEncodings(h, b);
    if a.Some? {
      EncodeStartsAsList(h, a.value);
      StripKeepsEncoding(h, a.value);
      assert Encode(h, a.value) in s;
    }
    if b.Some? {
      EncodeStartsAsList(h, b.value);
      StripKeepsEncoding(h, b.value);
      assert Encode(h, b.value) in s;
    }
    if RootHash(h, a) == RootHash(h, b) && a.Some? && b.Some? {
      EncodeInjective(h, a.value, b.value, s);
    }
  }

  /** A subtrie that holds no empty value has nothing to strip. */
  lemma {:induction false} NothingToStrip(t: Node)
    requires WellFormed(t)
    requires forall k: HexPrefix.Nibbles :: Lookup(t, k) != Some([])
    ensures Strip(t) == t
    decreases t
  {
    match t
    case Leaf(_, _) =>
    case Extension(path, child) =>
      forall k: HexPrefix.Nibbles ensures Lookup(child, k) != Some([]) {
        assert (path + k)[|path|..] == k;
        assert Lookup(t, path + k) == Lookup(child, k);
      }
      NothingToStrip(child);
    case Branch(children, own) =>
      assert Lookup(t, []) == own;
      forall i | 0 <= i < 16 ensures Strip(t).children[i] == children[i] {
        if children[i].Some? {
          forall k: HexPrefix.Nibbles ensures Lookup(children[i].value, k) != Some([]) {
            assert ([i] + k)[1..] == k;
            assert Lookup(t, [i] + k) == Lookup(children[i].value, k);
          }
          NothingToStrip(children[i].value);
        }
      }
      assert Strip(t).children == children;
  }

  lemma NothingToStripInTrie(t: Trie, m: map<Bytes, Bytes>)
    requires WellFormedTrie(t) && Holds(t, m)
    requires [] !in m.Values
    ensures StripTrie(t) == t
  {
    if t.Some? {
      forall k: HexPrefix.Nibbles ensures Lookup(t.value, k) != Some([]) {
        assert Lookup(t.value, k) == Get(t, k);
        if |k| % 2 == 0 {
          HexPrefix.ToNibblesToBytes(k);
          assert Get(t, HexPrefix.ToNibbles(HexPrefix.ToBytes(k))) == MapGet(m, HexPrefix.ToBytes(k));
        }
      }
      NothingToStrip(t.value);
    }
  }

  /** The root hash is a faithful commitment: two runs whose surviving values are all non-empty
      end in equal root hashes exactly when they end in the same map. */
  lemma RunsCommit(h: Hasher, a: seq<Op>, b: seq<Op>)
    requires h([EMPTY_STRING_BYTE]) == EMPTY_ROOT
    requires SizedTrie(h, Run(a)) && SizedTrie(h, Run(b))
    requires NoCollision(h, TrieEncodings(h, Run(a)) + TrieEncodings(h, Run(b)))
    requires [] !in RunOnMap(a).Values && [] !in RunOnMap(b).Values
    ensures RootHash(h, Run(a)) == RootHash(h, Run(b)) <==> RunOnMap(a) == RunOnMap(b)
  {
    RunRefinesMap(a);
    RunRefinesMap(b);
    NothingToStripInTrie(Run(a), RunOnMap(a));
    NothingToStripInTrie(Run(b), RunOnMap(b));
    RootHashCommits(h, Run(a), Run(b));
    if RunOnMap(a) == RunOnMap(b) {
      OrderIrrelevant(a, b);
    } else if RootHash(h, Run(a)) == RootHash(h, Run(b)) {
      SameTrieSameMap(Run(a), RunOnMap(a), RunOnMap(b));
    }
  }

  lemma SameTrieSameMap(t: Trie, m: map<Bytes, Bytes>, n: map<Bytes, Bytes>)
    requires WellFormedTrie(t) && Holds(t, m) && Holds(t, n)
    ensures m == n
  {
    forall key: Bytes ensures MapGet(m, key) == MapGet(n, key) {
      assert Get(t, HexPrefix.ToNibbles(key)) == MapGet(m, key);
    }
    assert forall key :: key in m <==> MapGet(m, key).Some?;
    assert forall key :: key in n <==> MapGet(n, key).Some?;
    assert forall key | key in m :: MapGet(m, key) == MapGet(n, key);
  }

  /** A branch with equal leaves in its first two slots. */
  function TwoLeaves(own: Option<Bytes>): Node {
    var leaf := Some(Leaf([0], [1]));
    Branch(seq(16, i => None)[0 := leaf][1 := leaf], own)
  }

  lemma RunOfTwo()
    ensures var b := [Write([0x00], [1]), Write([0x10], [1])];
            Run(b) == Some(TwoLeaves(None)) && [] !in RunOnMap(b)
  {
    var b := [Write([0x00], [1]), Write([0x10], [1])];
    assert HexPrefix.ToNibbles([0x00]) == [0, 0] && HexPrefix.ToNibbles([0x10]) == [1, 0];
    assert b[..1] == [Write([0x00], [1])] && b[..|b| - 1] == b[..1];
    assert Run(b[..1]) == Some(Leaf([0, 0], [1]));
  }

  lemma RunOfThree()
    ensures var a := [Write([], []), Write([0x00], [1]), Write([0x10], [1])];
            Run(a) == Some(TwoLeaves(Some([]))) && [] in RunOnMap(a)
  {
    var a := [Write([], []), Write([0x00], [1]), Write([0x10], [1])];
    assert HexPrefix.ToNibbles([0x00]) == [0, 0] && HexPrefix.ToNibbles([0x10]) == [1, 0];
    var leaf := Some(Leaf([0], [1]));
    assert a[..1] == [Write([], [])] && a[..2][..1] == a[..1] && a[..|a| - 1] == a[..2];
    assert Run(a[..1]) == Some(Leaf([], []));
    assert Run(a[..2]) == Some(Branch(seq(16, i => None)[0 := leaf], Some([])));
  }

  /** Non-empty values are needed: an empty value stored under a key that is a prefix of the
      others is invisible in the root hash, whatever the hash function. */
  lemma EmptyValueIsInvisible(h: Hasher)
    ensures var a := [Write([], []), Write([0x00], [1]), Write([0x10], [1])];
            var b := [Write([0x00], [1]), Write([0x10], [1])];
            RootHash(h, Run(a)) == RootHash(h, Run(b)) && RunOnMap(a) != RunOnMap(b)
  {
    RunOfTwo();
    RunOfThree();
    StripKeepsEncoding(h, TwoLeaves(Some([])));
    StripKeepsEncoding(h, TwoLeaves(None));
    assert Strip(TwoLeaves(Some([]))) == Strip(TwoLeaves(None));
  }
}
