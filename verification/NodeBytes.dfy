/** Nodes and root hashes by their bytes: what a parent writes for a child, and root hashes of small tries
    spelled out, for every hash function. */
module NodeBytes {
  import opened Bytes
  import opened HexPrefix
  import opened Rlp
  import opened Trie
  import opened TrieRuns
  import TrieCommitment

  type Hasher = TrieCommitment.Hasher

  // ---------------------------------------------------------------------------
  // Paths
  // ---------------------------------------------------------------------------

  lemma {:induction false} PairAt(nibbles: Nibbles, i: nat)
    requires 2 * i + 1 < |nibbles|
    ensures i < |ToBytes(nibbles)| && ToBytes(nibbles)[i] == 16 * (nibbles[2 * i] as int) + nibbles[2 * i + 1]
  {
    if i > 0 { PairAt(nibbles[2..], i - 1); }
  }

  /** The first byte of the hex-prefix code: 0 or 1 for the path of an extension and 2 or 3 for that of a leaf,
      by parity, in the high nibble; below it the first nibble of an odd path, or zero. */
  lemma PathStarts(path: Nibbles, leaf: bool)
    ensures var e, odd := HexPrefix.Encode(path, leaf), |path| % 2;
            && |e| == 1 + |path| / 2
            && e[0] == 16 * ((if leaf then 2 else 0) + odd) + (if odd == 1 then path[0] as int else 0)
  {}

  /** The others: the rest of the path in pairs. */
  lemma PathGoesOn(path: Nibbles, leaf: bool, i: nat)
    requires i < |path| / 2
    ensures var e, odd := HexPrefix.Encode(path, leaf), |path| % 2;
            |e| == 1 + |path| / 2 && e[1 + i] == 16 * (path[odd + 2 * i] as int) + path[odd + 2 * i + 1]
  {
    var odd := |path| % 2;
    var rest := path[odd..];
    assert odd == 0 ==> rest == path;
    PairAt(rest, i);
    assert HexPrefix.Encode(path, leaf)[1 + i] == ToBytes(rest)[i];
    assert rest[2 * i] == path[odd + 2 * i] && rest[2 * i + 1] == path[odd + 2 * i + 1];
  }

  lemma ShortPath(path: Nibbles, leaf: bool, x: byte)
    requires |path| <= 1
    requires x == (if leaf then 0x20 else 0x00) + if path == [] then 0 else 0x10 + path[0] as int
    ensures HexPrefix.Encode(path, leaf) == [x]
  {
    PathStarts(path, leaf);
  }

  // ---------------------------------------------------------------------------
  // Nodes
  // ---------------------------------------------------------------------------

  /** What stands in a parent for a child: the child's own bytes when there are fewer than 32 of them, and
      otherwise their hash as a string of 32 bytes; 0x80 for no child. */
  function ChildBytes(h: Hasher, child: Option<Node>): Bytes {
    if child.None? then [0x80]
    else
      var e := TrieCommitment.Encode(h, child.value);
      if |e| < 32 then e else [0xA0] + h(e)
  }

  lemma LeafBytes(h: Hasher, path: Nibbles, value: Bytes)
    ensures TrieCommitment.Encode(h, Leaf(path, value))
         == EncodeList(EncodeBytes(HexPrefix.Encode(path, true)) + EncodeBytes(value))
  {
    TwoItems(EncodeBytes(HexPrefix.Encode(path, true)), EncodeBytes(value));
  }

  lemma TwoItems(a: Bytes, b: Bytes)
    ensures Concat([a, b]) == a + b
  {
    assert [a, b][1..] == [b] && [b][1..] == [];
    assert Concat([b]) == b + Concat([]);
  }

  lemma HashItem(hash: TrieCommitment.Hash)
    ensures EncodeBytes(hash) == [0xA0] + hash
  {
    HeaderPrefix(EMPTY_STRING_BYTE, 32);
  }

  lemma ChildItem(h: Hasher, child: Option<Node>)
    ensures TrieCommitment.EncodeRef(TrieCommitment.ChildRef(h, child)) == ChildBytes(h, child)
  {
    HeaderPrefix(EMPTY_STRING_BYTE, 0);
    if child.Some? { HashItem(h(TrieCommitment.Encode(h, child.value))); }
  }

  /** An extension is its path and its child. */
  lemma ExtensionBytes(h: Hasher, path: Nibbles, child: Node)
    ensures TrieCommitment.Encode(h, Extension(path, child))
         == EncodeList(EncodeBytes(HexPrefix.Encode(path, false)) + ChildBytes(h, Some(child)))
  {
    ChildItem(h, Some(child));
    TwoItems(EncodeBytes(HexPrefix.Encode(path, false)), ChildBytes(h, Some(child)));
  }

  function ChildrenBytes(h: Hasher, children: seq<Option<Node>>): Bytes {
    if |children| == 0 then [] else ChildBytes(h, children[0]) + ChildrenBytes(h, children[1..])
  }

  /** A branch is its children from slot zero up, and then its value. */
  lemma BranchBytes(h: Hasher, children: seq<Option<Node>>, own: Option<Bytes>)
    ensures TrieCommitment.Encode(h, Branch(children, own))
         == EncodeList(ChildrenBytes(h, children) + EncodeBytes(if own.Some? then own.value else []))
  {
    var slots := seq(|children|, i requires 0 <= i < |children| => ChildBytes(h, children[i]));
    var last := EncodeBytes(if own.Some? then own.value else []);
    forall i | 0 <= i < |children|
      ensures TrieCommitment.EncodeRef(TrieCommitment.ChildRef(h, children[i])) == slots[i]
    {
      ChildItem(h, children[i]);
    }
    assert TrieCommitment.Items(h, Branch(children, own)) == slots + [last];
    ConcatAppend(slots, last);
    SlotsJoin(h, children, slots);
  }

  lemma {:induction false} SlotsJoin(h: Hasher, children: seq<Option<Node>>, slots: seq<Bytes>)
    requires |slots| == |children| && forall i | 0 <= i < |slots| :: slots[i] == ChildBytes(h, children[i])
    ensures Concat(slots) == ChildrenBytes(h, children)
  {
    if |slots| > 0 { SlotsJoin(h, children[1..], slots[1..]); }
  }

  // ---------------------------------------------------------------------------
  // Root hashes spelled out
  // ---------------------------------------------------------------------------

  lemma {:induction false} NoChildren(h: Hasher, children: seq<Option<Node>>)
    requires forall i | 0 <= i < |children| :: children[i].None?
    ensures ChildrenBytes(h, children) == seq(|children|, _ => 0x80)
  {
    if |children| > 0 {
      NoChildren(h, children[1..]);
      assert [0x80] + seq(|children| - 1, _ => 0x80) == seq(|children|, _ => 0x80);
    }
  }

  /** A branch with nothing but two children in its first slots. */
  function Pair(a: Node, b: Node): Node {
    Branch(seq(16, i => if i == 0 then Some(a) else if i == 1 then Some(b) else None), None)
  }

  lemma TwoChildren(h: Hasher, children: seq<Option<Node>>)
    requires |children| == 16 && forall i | 2 <= i < 16 :: children[i].None?
    ensures ChildrenBytes(h, children) == ChildBytes(h, children[0]) + (ChildBytes(h, children[1]) + seq(14, _ => 0x80))
  {
    var rest := children[1..];
    NoChildren(h, rest[1..]);
    assert ChildrenBytes(h, rest) == ChildBytes(h, children[1]) + seq(14, _ => 0x80);
  }

  lemma PairBytes(h: Hasher, a: Node, b: Node)
    ensures TrieCommitment.Encode(h, Pair(a, b))
         == EncodeList(ChildBytes(h, Some(a)) + ChildBytes(h, Some(b)) + seq(15, _ => 0x80))
  {
    var children := Pair(a, b).children;
    var x, y := ChildBytes(h, Some(a)), ChildBytes(h, Some(b));
    BranchBytes(h, children, None);
    TwoChildren(h, children);
    HeaderPrefix(EMPTY_STRING_BYTE, 0);
    assert EncodeBytes([]) == [0x80];
    assert x + (y + seq(14, _ => 0x80)) + [0x80] == x + y + seq(15, _ => 0x80);
  }

  /** A leaf with a path of at most one nibble, which takes the byte `x`. */
  lemma SmallLeaf(h: Hasher, path: Nibbles, x: byte)
    requires |path| <= 1 && x == 0x20 + if path == [] then 0 else 0x10 + path[0] as int
    ensures TrieCommitment.Encode(h, Leaf(path, [1])) == [0xC2, x, 0x01]
  {
    LeafBytes(h, path, [1]);
    ShortPath(path, true, x);
    HeaderPrefix(EMPTY_LIST_BYTE, 2);
  }

  lemma SmallPair(h: Hasher, path: Nibbles, x: byte)
    requires |path| <= 1 && x == 0x20 + if path == [] then 0 else 0x10 + path[0] as int
    ensures TrieCommitment.Encode(h, Pair(Leaf(path, [1]), Leaf(path, [1])))
         == [0xD5, 0xC2, x, 0x01, 0xC2, x, 0x01] + seq(15, _ => 0x80)
  {
    var leaf := Leaf(path, [1]);
    SmallLeaf(h, path, x);
    PairBytes(h, leaf, leaf);
    ListOf21(x, seq(15, _ => 0x80));
  }

  lemma ListOf21(x: byte, rest: Bytes)
    requires |rest| == 15
    ensures EncodeList([0xC2, x, 0x01] + [0xC2, x, 0x01] + rest) == [0xD5, 0xC2, x, 0x01, 0xC2, x, 0x01] + rest
  {
    var payload := [0xC2, x, 0x01] + [0xC2, x, 0x01] + rest;
    HeaderPrefix(EMPTY_LIST_BYTE, |payload|);
    assert [0xD5] + payload == [0xD5, 0xC2, x, 0x01, 0xC2, x, 0x01] + rest;
  }

  lemma RunOfTwo(a: Bytes, b: Bytes, value: Bytes)
    requires |a| == |b| == 1 && a[0] / 16 == 0 && b[0] / 16 == 1
    ensures Run([Write(a, value), Write(b, value)])
         == Some(Pair(Leaf([a[0] % 16], value), Leaf([b[0] % 16], value)))
  {
    var ops := [Write(a, value), Write(b, value)];
    assert ToNibbles(a) == [0, a[0] % 16] && ToNibbles(b) == [1, b[0] % 16] by {
      assert a[1..] == [] && b[1..] == [];
    }
    assert ops[..1] == [Write(a, value)] && ops[..|ops| - 1] == ops[..1];
    assert Run(ops[..1]) == Some(Leaf([0, a[0] % 16], value)) by { assert ops[..1][..0] == []; }
    var x, y := [0, a[0] % 16], [1, b[0] % 16];
    assert CommonPrefix(x, y) == 0;
    assert x[0..] == x && y[0..] == y && x[1..] == [a[0] % 16] && y[1..] == [b[0] % 16];
    var r := Run(ops).value;
    assert r.children == Pair(Leaf([a[0] % 16], value), Leaf([b[0] % 16], value)).children;
  }

  /** Keys 0x00 and 0x10: two leaves of three bytes each, embedded in a branch of 22 bytes. */
  lemma EmbeddedLeaves(h: Hasher)
    ensures TrieCommitment.RootHash(h, Run([Write([0x00], [1]), Write([0x10], [1])]))
         == h([0xD5, 0xC2, 0x30, 0x01, 0xC2, 0x30, 0x01, 0x80, 0x80, 0x80, 0x80, 0x80, 0x80, 0x80, 0x80, 0x80, 0x80,
               0x80, 0x80, 0x80, 0x80, 0x80])
  {
    RunOfTwo([0x00], [0x10], [1]);
    SmallPair(h, [0], 0x30);
    assert [0xD5, 0xC2, 0x30, 0x01, 0xC2, 0x30, 0x01] + seq(15, _ => 0x80)
        == [0xD5, 0xC2, 0x30, 0x01, 0xC2, 0x30, 0x01, 0x80, 0x80, 0x80, 0x80, 0x80, 0x80, 0x80, 0x80, 0x80, 0x80,
            0x80, 0x80, 0x80, 0x80, 0x80];
  }

  lemma RunOfSiblings()
    ensures Run([Write([0x00], [1]), Write([0x01], [1])]) == Some(Extension([0], Pair(Leaf([], [1]), Leaf([], [1]))))
  {
    var ops := [Write([0x00], [1]), Write([0x01], [1])];
    assert ToNibbles([0x00]) == [0, 0] && ToNibbles([0x01]) == [0, 1];
    assert ops[..1] == [Write([0x00], [1])] && ops[..|ops| - 1] == ops[..1];
    assert Run(ops[..1]) == Some(Leaf([0, 0], [1])) by { assert ops[..1][..0] == []; }
    var x: Nibbles, y: Nibbles := [0, 0], [0, 1];
    CommonPrefixUnique(x, y, 1);
    assert x[..1] == [0] && x[1..] == [0] && y[1..] == [1] && x[1..][1..] == [] && y[1..][1..] == [];
    var r := Run(ops).value;
    assert r.Extension? && r.path == [0] && r.child.Branch?;
    assert r.child.children == Pair(Leaf([], [1]), Leaf([], [1])).children;
  }

  lemma ShortListBytes(x: byte, e: Bytes)
    requires |e| == 22
    ensures EncodeList([x] + e) == [0xD7, x] + e
  {
    HeaderPrefix(EMPTY_LIST_BYTE, |[x] + e|);
    assert [0xD7] + ([x] + e) == [0xD7, x] + e;
  }

  lemma ExtensionOver(h: Hasher, path: Nibbles, branch: Node, e: Bytes)
    requires path == [0] && e == TrieCommitment.Encode(h, branch) && |e| == 22
    ensures TrieCommitment.Encode(h, Extension(path, branch)) == [0xD7, 0x10] + e
  {
    ExtensionBytes(h, path, branch);
    ShortPath(path, false, 0x10);
    ShortListBytes(0x10, e);
  }

  /** Keys 0x00 and 0x01: the branch is embedded in turn, below an extension. */
  lemma EmbeddedBranch(h: Hasher)
    ensures TrieCommitment.RootHash(h, Run([Write([0x00], [1]), Write([0x01], [1])]))
         == h([0xD7, 0x10] + ([0xD5, 0xC2, 0x20, 0x01, 0xC2, 0x20, 0x01] + seq(15, _ => 0x80)))
  {
    RunOfSiblings();
    SmallPair(h, [], 0x20);
    ExtensionOver(h, [0], Pair(Leaf([], [1]), Leaf([], [1])),
                  [0xD5, 0xC2, 0x20, 0x01, 0xC2, 0x20, 0x01] + seq(15, _ => 0x80));
  }

  lemma LargeLeaf(h: Hasher, value: Bytes)
    requires |value| == 32
    ensures TrieCommitment.Encode(h, Leaf([0], value)) == [0xE2, 0x30, 0xA0] + value
  {
    LeafBytes(h, [0], value);
    ShortPath([0], true, 0x30);
    HashItem(value);
    HeaderPrefix(EMPTY_LIST_BYTE, 34);
    assert [0xE2] + ([0x30] + ([0xA0] + value)) == [0xE2, 0x30, 0xA0] + value;
  }

  lemma HashedPair(h: Hasher, node: Node, hash: TrieCommitment.Hash)
    requires |TrieCommitment.Encode(h, node)| >= 32 && hash == h(TrieCommitment.Encode(h, node))
    ensures TrieCommitment.Encode(h, Pair(node, node))
         == [0xF8, 0x51] + ([0xA0] + hash + ([0xA0] + hash) + seq(15, _ => 0x80))
  {
    PairBytes(h, node, node);
    assert ChildBytes(h, Some(node)) == [0xA0] + hash;
    ListOf81([0xA0] + hash + ([0xA0] + hash) + seq(15, _ => 0x80));
  }

  lemma ListOf81(payload: Bytes)
    requires |payload| == 81
    ensures EncodeList(payload) == [0xF8, 0x51] + payload
  {
    HeaderPrefix(EMPTY_LIST_BYTE, |payload|);
    assert ToBigEndian(81) == [81] by { assert ToBigEndian(0) == []; }
  }

  /** Values of 32 bytes: the leaves have 35 bytes and stand in the branch by their hash. */
  lemma HashedLeaves(h: Hasher, value: Bytes)
    requires |value| == 32
    ensures var leaf := h([0xE2, 0x30, 0xA0] + value);
            TrieCommitment.RootHash(h, Run([Write([0x00], value), Write([0x10], value)]))
            == h([0xF8, 0x51] + ([0xA0] + leaf + ([0xA0] + leaf) + seq(15, _ => 0x80)))
  {
    RunOfTwo([0x00], [0x10], value);
    LargeLeaf(h, value);
    HashedPair(h, Leaf([0], value), h([0xE2, 0x30, 0xA0] + value));
  }
}
