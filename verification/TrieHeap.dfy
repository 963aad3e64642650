/** The trie as it lives in memory: nodes overwritten in place through pointers, references to
    children stored in their parents, and a hash cached in each node. Every operation is proved
    against the value-level trie, and every stored reference and valid cached hash is proved to
    be the one recomputation would give. */
module TrieHeap {
  import opened Bytes
  import opened HexPrefix
  import opened Rlp
  import opened TrieCommitment
  import T = Trie
  import TrieMap

  // ---------------------------------------------------------------------------
  // Nodes
  // ---------------------------------------------------------------------------

  /** A stored child reference: what is written into the parent's encoding, and the pointer
      used for traversal. */
  datatype Link = Link(node: MptNode?, data: Ref)

  const NULL_LINK := Link(null, NullRef)

  predicate IsNullLink(l: Link) {
    && l.node == null
    && match l.data
       case NullRef => true
       case Embedded(bytes) => |bytes| == 0
       case Hashed(hash) => forall i | 0 <= i < 32 :: hash[i] == 0
  }

  /** The tagged union inside a node. */
  datatype Body =
    | EmptyBody
    | LeafBody(path: Nibbles, value: Bytes)
    | ExtensionBody(path: Nibbles, child: Link)
    | BranchBody(children: seq<Link>, own: Option<Bytes>)

  /** What is written for a stored reference: the empty string for a null one, a hash as a string, and the
      bytes of an embedded node as they are. */
  function LinkBytes(l: Link): Bytes {
    if IsNullLink(l) then EncodeBytes([])
    else match l.data
      case NullRef => []
      case Embedded(bytes) => bytes
      case Hashed(hash) => EncodeBytes(hash)
  }

  /** The encoding of a node from its own fields, using the stored references. */
  function BodyItems(body: Body): seq<Bytes>
    requires !body.EmptyBody?
  {
    match body
    case LeafBody(path, value) => [EncodeBytes(HexPrefix.Encode(path, true)), EncodeBytes(value)]
    case ExtensionBody(path, child) =>
      [EncodeBytes(HexPrefix.Encode(path, false)), LinkBytes(child)]
    case BranchBody(children, own) =>
      seq(|children|, i requires 0 <= i < |children| => LinkBytes(children[i]))
      + [EncodeBytes(OwnBytes(own))]
  }

  function EncodeBody(body: Body): Bytes {
    if body.EmptyBody? then [EMPTY_STRING_BYTE] else EncodeList(Concat(BodyItems(body)))
  }

  class MptNode {
    var body: Body
    var cachedHash: Hash
    var hashValid: bool
    ghost var repr: set<MptNode>
    ghost var tree: T.Node

    /** The memory below this node is a tree and spells out `tree`. */
    ghost predicate Shape(h: Hasher)
      reads this`body, this`repr, this`tree, repr - {this}
      decreases repr, 0
    {
      && this in repr
      && T.WellFormed(tree)
      && match body
         case EmptyBody => false
         case LeafBody(path, value) => tree == T.Leaf(path, value)
         case ExtensionBody(path, child) =>
           && Owned(h, this, repr, child) && child.node.Valid(h)
           && tree == T.Extension(path, child.node.tree)
         case BranchBody(children, own) =>
           && |children| == 16 && tree.Branch? && tree.own == own
           && (forall i | 0 <= i < 16 :: SlotOk(h, this, repr, children[i], tree.children[i]))
           && (forall i | 0 <= i < 16 && children[i].node != null :: children[i].node.Valid(h))
           && (forall i, j | 0 <= i < j < 16 :: Apart(repr - {this}, children[i], children[j]))
    }

    /** A node is valid when its shape is and a cached hash marked valid is the current one. */
    ghost predicate Valid(h: Hasher)
      reads this, repr
      ensures Valid(h) ==> this in repr && T.WellFormed(tree)
      decreases repr, 1
    {
      Shape(h) && (hashValid ==> cachedHash == h(TrieCommitment.Encode(h, tree)))
    }

    constructor Leaf(h: Hasher, path: Nibbles, value: Bytes)
      ensures Valid(h) && tree == T.Leaf(path, value)
      ensures body == LeafBody(path, value) && repr == {this}
    {
      body := LeafBody(path, value);
      hashValid, cachedHash := false, EMPTY_ROOT;
      repr, tree := {this}, T.Leaf(path, value);
    }

    constructor Extension(h: Hasher, path: Nibbles, child: Link)
      requires child.node != null && child.node.Valid(h)
      requires child.data == RefOf(h, child.node.tree)
      ensures Valid(h) && tree == T.Extension(path, child.node.tree)
      ensures body == ExtensionBody(path, child) && repr == {this} + child.node.repr
    {
      body := ExtensionBody(path, child);
      hashValid, cachedHash := false, EMPTY_ROOT;
      repr, tree := {this} + child.node.repr, T.Extension(path, child.node.tree);
    }

    constructor Branch(h: Hasher)
      ensures Valid(h) && tree == T.EmptyBranch() && !hashValid
      ensures body == BranchBody(seq(16, i => NULL_LINK), None) && repr == {this}
    {
      body := BranchBody(seq(16, i => NULL_LINK), None);
      hashValid, cachedHash := false, EMPTY_ROOT;
      repr, tree := {this}, T.EmptyBranch();
    }
  }

  /** `child` is a subtrie that `owner` owns, and the reference stored for it is current. */
  ghost predicate Owned(h: Hasher, owner: MptNode, repr: set<MptNode>, child: Link)
    reads repr - {owner}
  {
    && owner in repr
    && child.node != null && child.node in repr - {owner} && child.node.repr <= repr - {owner}
    && child.data == RefOf(h, child.node.tree)
  }

  ghost predicate SlotOk(h: Hasher, owner: MptNode, repr: set<MptNode>, slot: Link, t: Option<T.Node>)
    reads repr - {owner}
  {
    if slot.node == null then slot == NULL_LINK && t == None
    else Owned(h, owner, repr, slot) && t == Some(slot.node.tree)
  }

  ghost predicate Apart(nodes: set<MptNode>, a: Link, b: Link)
    reads nodes
  {
    a.node in nodes && b.node in nodes ==> a.node.repr !! b.node.repr
  }

  /** Stored references are current, so a node's own fields encode the whole subtrie. */
  lemma BodyEncodesTree(h: Hasher, n: MptNode)
    requires n.Shape(h)
    ensures EncodeBody(n.body) == TrieCommitment.Encode(h, n.tree)
  {
    var x, y := BodyItems(n.body), Items(h, n.tree);
    if n.body.BranchBody? {
      forall i | 0 <= i < 16 ensures x[i] == y[i] {
        assert SlotOk(h, n, n.repr, n.body.children[i], n.tree.children[i]);
        assert n.body.children[i].data == ChildRef(h, n.tree.children[i]);
      }
    }
    assert x == y;
  }

  /** The reference to a node, recomputed from its fields. */
  method NodeRef(h: Hasher, n: MptNode) returns (l: Link)
    requires n.Shape(h)
    ensures l.node == n && l.data == RefOf(h, n.tree)
    ensures var e := TrieCommitment.Encode(h, n.tree);
            l.data == if |e| < 32 then Embedded(e) else Hashed(h(e))
  {
    BodyEncodesTree(h, n);
    var encoded := EncodeBody(n.body);
    l := Link(n, if |encoded| < 32 then Embedded(encoded) else Hashed(h(encoded)));
  }

  /** The hash of a node, from the cache when the cache is valid. */
  method NodeHash(h: Hasher, n: MptNode) returns (hash: Hash)
    requires n.Valid(h)
    modifies n`cachedHash, n`hashValid
    ensures n.Valid(h) && hash == h(TrieCommitment.Encode(h, n.tree))
  {
    if n.hashValid { return n.cachedHash; }
    BodyEncodesTree(h, n);
    n.cachedHash := h(EncodeBody(n.body));
    n.hashValid := true;
    hash := n.cachedHash;
  }

  // ---------------------------------------------------------------------------
  // Updating one slot of a branch
  // ---------------------------------------------------------------------------

  /** The memory below the slots of a branch other than `i`. */
  ghost function Area(b: MptNode, i: nat): set<MptNode>
    reads b, b.repr
    requires b.body.BranchBody? && i < |b.body.children|
    requires b.body.children[i].node != null ==> b.body.children[i].node in b.repr
  {
    var slot := b.body.children[i];
    b.repr - {b} - if slot.node == null then {} else slot.node.repr
  }

  /** A branch whose slots other than `i` are in order and live in `area`; slot `i` is about to
      be overwritten. */
  ghost predicate OthersOk(h: Hasher, b: MptNode, i: nat, area: set<MptNode>)
    reads b`body, b`repr, b`tree, area
  {
    && b in b.repr && b !in area && area <= b.repr && T.WellFormed(b.tree)
    && b.body.BranchBody? && b.tree.Branch? && |b.body.children| == 16 && b.tree.own == b.body.own
    && (forall j | 0 <= j < 16 && j != i :: OtherOk(h, area, b.body.children[j], b.tree.children[j]))
    && (forall j | 0 <= j < 16 && j != i && b.body.children[j].node != null ::
          b.body.children[j].node.Valid(h))
    && (forall j, k | 0 <= j < k < 16 && j != i && k != i ::
          Apart(area, b.body.children[j], b.body.children[k]))
  }

  ghost predicate OtherOk(h: Hasher, area: set<MptNode>, slot: Link, t: Option<T.Node>)
    reads area
  {
    if slot.node == null then slot == NULL_LINK && t == None
    else
      && slot.node in area && slot.node.repr <= area
      && slot.data == RefOf(h, slot.node.tree) && t == Some(slot.node.tree)
  }

  lemma ShapeGivesOthers(h: Hasher, b: MptNode, i: nat)
    requires b.Shape(h) && b.body.BranchBody? && i < 16
    ensures b.body.children[i].node != null ==> b.body.children[i].node in b.repr
    ensures OthersOk(h, b, i, Area(b, i))
  {
    assert SlotOk(h, b, b.repr, b.body.children[i], b.tree.children[i]);
    forall j | 0 <= j < 16 && j != i
      ensures OtherOk(h, Area(b, i), b.body.children[j], b.tree.children[j])
    {
      assert SlotOk(h, b, b.repr, b.body.children[j], b.tree.children[j]);
      var lo, hi := if i < j then i else j, if i < j then j else i;
      assert Apart(b.repr - {b}, b.body.children[lo], b.body.children[hi]);
    }
    forall j, k | 0 <= j < k < 16 && j != i && k != i
      ensures Apart(Area(b, i), b.body.children[j], b.body.children[k])
    {
      assert Apart(b.repr - {b}, b.body.children[j], b.body.children[k]);
    }
  }

  method PutChild(h: Hasher, b: MptNode, i: nibble, l: Link, ghost area: set<MptNode>)
    requires OthersOk(h, b, i, area)
    requires l.node != null && l.node.Valid(h) && l.data == RefOf(h, l.node.tree)
    requires b !in l.node.repr && area !! l.node.repr
    modifies b`body, b`tree, b`repr
    ensures b.Shape(h) && b.repr == old(b.repr) + l.node.repr
    ensures b.tree == T.Branch(old(b.tree).children[i := Some(l.node.tree)], old(b.tree).own)
    ensures b.body == BranchBody(old(b.body).children[i := l], old(b.body).own)
  {
    b.body := BranchBody(b.body.children[i := l], b.body.own);
    b.tree := T.Branch(b.tree.children[i := Some(l.node.tree)], b.tree.own);
    b.repr := b.repr + l.node.repr;
    forall j | 0 <= j < 16
      ensures SlotOk(h, b, b.repr, b.body.children[j], b.tree.children[j])
    {
      if j != i { assert old(OtherOk(h, area, b.body.children[j], b.tree.children[j])); }
    }
    forall j, k | 0 <= j < k < 16
      ensures Apart(b.repr - {b}, b.body.children[j], b.body.children[k])
    {
      if j != i { assert old(OtherOk(h, area, b.body.children[j], b.tree.children[j])); }
      if k != i { assert old(OtherOk(h, area, b.body.children[k], b.tree.children[k])); }
      if j != i && k != i { assert old(Apart(area, b.body.children[j], b.body.children[k])); }
    }
  }

  /** Empty slot `i` of a branch. */
  method DropChild(h: Hasher, b: MptNode, i: nibble, ghost area: set<MptNode>)
    requires OthersOk(h, b, i, area)
    modifies b`body, b`tree
    ensures b.Shape(h)
    ensures b.tree == T.Branch(old(b.tree).children[i := None], old(b.tree).own)
    ensures b.body == BranchBody(old(b.body).children[i := NULL_LINK], old(b.body).own)
  {
    b.body := BranchBody(b.body.children[i := NULL_LINK], b.body.own);
    b.tree := T.Branch(b.tree.children[i := None], b.tree.own);
    forall j | 0 <= j < 16
      ensures SlotOk(h, b, b.repr, b.body.children[j], b.tree.children[j])
    {
      if j != i { assert old(OtherOk(h, area, b.body.children[j], b.tree.children[j])); }
    }
    forall j, k | 0 <= j < k < 16
      ensures Apart(b.repr - {b}, b.body.children[j], b.body.children[k])
    {
      if j != i && k != i {
        assert old(OtherOk(h, area, b.body.children[j], b.tree.children[j]));
        assert old(OtherOk(h, area, b.body.children[k], b.tree.children[k]));
        assert old(Apart(area, b.body.children[j], b.body.children[k]));
      }
    }
  }

  /** Set the value a branch holds for the key that ends at it. */
  method PutOwn(h: Hasher, b: MptNode, own: Option<Bytes>)
    requires b.Shape(h) && b.body.BranchBody?
    modifies b`body, b`tree
    ensures b.Shape(h)
    ensures b.tree == T.Branch(old(b.tree).children, own)
    ensures b.body == BranchBody(old(b.body).children, own)
  {
    b.body := BranchBody(b.body.children, own);
    b.tree := T.Branch(b.tree.children, own);
    forall i | 0 <= i < 16 ensures SlotOk(h, b, b.repr, b.body.children[i], b.tree.children[i]) {
      assert old(SlotOk(h, b, b.repr, b.body.children[i], b.tree.children[i]));
    }
    forall i, j | 0 <= i < j < 16 ensures Apart(b.repr - {b}, b.body.children[i], b.body.children[j]) {
      assert old(Apart(b.repr - {b}, b.body.children[i], b.body.children[j]));
    }
  }

  /** Hang a value below a branch: at the branch itself or in a new leaf. */
  method AttachValue(h: Hasher, b: MptNode, key: Nibbles, value: Bytes)
    requires b.Shape(h) && b.body.BranchBody?
    requires key != [] ==> b.body.children[key[0]].node == null
    modifies b`body, b`tree, b`repr
    ensures b.Shape(h) && b.body.BranchBody? && fresh(b.repr - old(b.repr))
    ensures b.tree == T.Attach(old(b.tree), key, value)
    ensures forall i | 0 <= i < 16 && !(key != [] && i == key[0]) ::
              b.body.children[i] == old(b.body.children)[i]
  {
    if key == [] {
      PutOwn(h, b, Some(value));
    } else {
      var leaf := new MptNode.Leaf(h, key[1..], value);
      var l := NodeRef(h, leaf);
      ShapeGivesOthers(h, b, key[0]);
      PutChild(h, b, key[0], l, Area(b, key[0]));
    }
  }

  method FindDivergence(path: Nibbles, key: Nibbles, offset: nat) returns (i: nat)
    requires offset <= |key|
    ensures i == CommonPrefix(path, key[offset..])
  {
    i := 0;
    while i < |path| && offset + i < |key|
      invariant i <= |path| && offset + i <= |key|
      invariant path[..i] == key[offset..][..i]
    {
      if path[i] != key[offset + i] { break; }
      assert key[offset..][i] == key[offset + i];
      assert path[..i + 1] == path[..i] + [path[i]];
      assert key[offset..][..i + 1] == key[offset..][..i] + [key[offset..][i]];
      i := i + 1;
    }
    CommonPrefixUnique(path, key[offset..], i);
  }

  // ---------------------------------------------------------------------------
  // Insertion
  // ---------------------------------------------------------------------------

  method InsertAtLeaf(h: Hasher, node: MptNode, key: Nibbles, offset: nat, value: Bytes)
      returns (r: MptNode)
    requires node.Valid(h) && node.body.LeafBody? && offset <= |key|
    modifies node
    ensures r.Valid(h) && fresh(r.repr - {node})
    ensures r.tree == T.Insert(old(node.tree), key[offset..], value)
  {
    var path, prior := node.body.path, node.body.value;
    var m := FindDivergence(path, key, offset);
    if m == |path| && offset + m == |key| {
      node.body := LeafBody(path, value);
      node.hashValid := false;
      node.tree, node.repr := T.Leaf(path, value), {node};
      return node;
    }
    var b := TwoWayBranch(h, path[m..], prior, key[offset..][m..], value);
    r := Reach(h, path[..m], b);
  }

  /** A new branch holding two keys that part at once. When one of them is empty its value goes
      to the branch itself; the source spells out the case of a used-up key separately. */
  method TwoWayBranch(h: Hasher, path: Nibbles, prior: Bytes, key: Nibbles, value: Bytes)
      returns (b: MptNode)
    requires path != [] && key != [] ==> path[0] != key[0]
    ensures b.Valid(h) && fresh(b.repr)
    ensures b.tree == T.Attach(T.Attach(T.EmptyBranch(), path, prior), key, value)
  {
    b := new MptNode.Branch(h);
    AttachValue(h, b, path, prior);
    AttachValue(h, b, key, value);
  }

  /** Put an extension in front of a branch when there is a common path. */
  method Reach(h: Hasher, path: Nibbles, b: MptNode) returns (r: MptNode)
    requires b.Valid(h)
    ensures r.Valid(h) && fresh(r.repr - b.repr)
    ensures r.tree == T.Prefixed(path, b.tree)
  {
    if path == [] { return b; }
    var l := NodeRef(h, b);
    r := new MptNode.Extension(h, path, l);
  }

  /** A new branch whose only entry is the old child of a split extension. */
  method ForkBranch(h: Hasher, slot: nibble, path: Nibbles, child: Link) returns (b: MptNode)
    requires child.node != null && child.node.Valid(h) && child.data == RefOf(h, child.node.tree)
    ensures b.Valid(h) && !b.hashValid && fresh(b) && fresh(b.repr - child.node.repr)
    ensures b.tree == T.Fork(slot, path, child.node.tree)
    ensures b.body.BranchBody? && |b.body.children| == 16
    ensures forall i | 0 <= i < 16 && i != slot :: b.body.children[i].node == null
  {
    b := new MptNode.Branch(h);
    if |path| > 0 {
      var ext := new MptNode.Extension(h, path, child);
      var l := NodeRef(h, ext);
      PutChild(h, b, slot, l, {});
    } else {
      PutChild(h, b, slot, child, {});
    }
  }

  method SplitExtension(h: Hasher, node: MptNode, key: Nibbles, offset: nat, value: Bytes, m: nat)
      returns (r: MptNode)
    requires node.Valid(h) && node.body.ExtensionBody? && offset <= |key|
    requires m == CommonPrefix(node.body.path, key[offset..]) < |node.body.path|
    ensures r.Valid(h) && fresh(r.repr - node.repr)
    ensures r.tree == T.Insert(node.tree, key[offset..], value)
  {
    var path, child := node.body.path, node.body.child;
    var b := ForkBranch(h, path[m], path[m + 1..], child);
    AttachValue(h, b, key[offset..][m..], value);
    r := Reach(h, path[..m], b);
  }

  method InsertRecursive(h: Hasher, node: MptNode?, key: Nibbles, offset: nat, value: Bytes)
      returns (r: MptNode)
    requires node != null ==> node.Valid(h)
    requires offset <= |key|
    modifies if node == null then {} else node.repr
    ensures r.Valid(h)
    ensures fresh(r.repr - if node == null then {} else old(node.repr))
    ensures r.tree == if node == null then T.Leaf(key[offset..], value)
                      else T.Insert(old(node.tree), key[offset..], value)
    decreases if node == null then {} else node.repr
  {
    if node == null || node.body.EmptyBody? {
      r := new MptNode.Leaf(h, key[offset..], value);
      return;
    }
    match node.body
    case LeafBody(_, _) => r := InsertAtLeaf(h, node, key, offset, value);
    case ExtensionBody(path, child) =>
      var m := FindDivergence(path, key, offset);
      if m < |path| {
        r := SplitExtension(h, node, key, offset, value, m);
      } else {
        r := InsertBelowExtension(h, node, key, offset, value);
      }
    case BranchBody(_, _) => r := InsertAtBranch(h, node, key, offset, value);
  }

  /** Point an extension at its updated child and drop its cached hash. */
  method Rehang(h: Hasher, node: MptNode, path: Nibbles, c: MptNode)
    requires c.Valid(h) && node !in c.repr && node in node.repr
    modifies node
    ensures node.Valid(h) && node.repr == old(node.repr) + c.repr
    ensures node.tree == T.Extension(path, c.tree)
  {
    var l := NodeRef(h, c);
    node.body := ExtensionBody(path, l);
    node.hashValid := false;
    node.tree, node.repr := T.Extension(path, c.tree), node.repr + c.repr;
  }

  method InsertBelowExtension(h: Hasher, node: MptNode, key: Nibbles, offset: nat, value: Bytes)
      returns (r: MptNode)
    requires node.Valid(h) && node.body.ExtensionBody? && offset <= |key|
    requires CommonPrefix(node.body.path, key[offset..]) == |node.body.path|
    modifies node.repr
    ensures r.Valid(h) && fresh(r.repr - old(node.repr))
    ensures r.tree == T.Insert(old(node.tree), key[offset..], value)
    decreases node.repr, 0
  {
    var path, child := node.body.path, node.body.child;
    var m := |path|;
    assert key[offset..][m..] == key[offset + m..];
    var c := InsertRecursive(h, child.node, key, offset + m, value);
    Rehang(h, node, path, c);
    r := node;
  }

  method InsertAtBranch(h: Hasher, node: MptNode, key: Nibbles, offset: nat, value: Bytes)
      returns (r: MptNode)
    requires node.Valid(h) && node.body.BranchBody? && offset <= |key|
    modifies node.repr
    ensures r.Valid(h) && fresh(r.repr - old(node.repr))
    ensures r.tree == T.Insert(old(node.tree), key[offset..], value)
    decreases node.repr, 1
  {
    r := node;
    if offset >= |key| {
      PutOwn(h, node, Some(value));
      node.hashValid := false;
      return;
    }
    var nibble := key[offset];
    assert key[offset..][0] == nibble && key[offset..][1..] == key[offset + 1..];
    var slot := node.body.children[nibble];
    assert SlotOk(h, node, node.repr, slot, node.tree.children[nibble]);
    if IsNullLink(slot) {
      AttachValue(h, node, key[offset..], value);
    } else if slot.node != null {
      InsertIntoSlot(h, node, key, offset, value);
    }
    node.hashValid := false;
  }

  method InsertIntoSlot(h: Hasher, node: MptNode, key: Nibbles, offset: nat, value: Bytes)
    requires node.Shape(h) && node.Valid(h) && node.body.BranchBody? && offset < |key|
    requires node.body.children[key[offset]].node != null
    modifies node.repr
    ensures node.Shape(h) && fresh(node.repr - old(node.repr))
    ensures old(node.tree).children[key[offset]].Some?
    ensures var i := key[offset];
            var c := old(node.tree).children[i].value;
            node.tree == T.Branch(old(node.tree).children[i := Some(T.Insert(c, key[offset + 1..], value))],
                                  old(node.tree).own)
    decreases node.repr, 0
  {
    var nibble := key[offset];
    var slot := node.body.children[nibble];
    assert SlotOk(h, node, node.repr, slot, node.tree.children[nibble]);
    ShapeGivesOthers(h, node, nibble);
    ghost var area := Area(node, nibble);
    var c := InsertRecursive(h, slot.node, key, offset + 1, value);
    var l := NodeRef(h, c);
    PutChild(h, node, nibble, l, area);
  }

  // ---------------------------------------------------------------------------
  // Deletion
  // ---------------------------------------------------------------------------

  datatype DeleteOutcome = DELETE_NOT_FOUND | DELETE_UPDATED | DELETE_REMOVED

  lemma SlotsMatch(h: Hasher, b: MptNode)
    requires b.Shape(h) && b.body.BranchBody?
    ensures forall i | 0 <= i < 16 :: IsNullLink(b.body.children[i]) <==> b.tree.children[i].None?
    ensures forall i | 0 <= i < 16 :: b.body.children[i].node != null ==> b.body.children[i].node in b.repr
  {
    forall i | 0 <= i < 16
      ensures IsNullLink(b.body.children[i]) <==> b.tree.children[i].None?
      ensures b.body.children[i].node != null ==> b.body.children[i].node in b.repr
    {
      assert SlotOk(h, b, b.repr, b.body.children[i], b.tree.children[i]);
    }
  }

  /** The occupied slot when there is exactly one, -1 otherwise. */
  method FindSingleChild(h: Hasher, b: MptNode) returns (found: int)
    requires b.Shape(h) && b.body.BranchBody?
    ensures found >= 0 <==> T.Count(b.tree.children, 16) == 1
    ensures found >= 0 ==> found == T.Only(b.tree.children)
    ensures -1 <= found < 16
  {
    SlotsMatch(h, b);
    ghost var slots := b.tree.children;
    found := -1;
    var i := 0;
    while i < 16
      invariant 0 <= i <= 16
      invariant found == -1 ==> T.Count(slots, i) == 0
      invariant found != -1 ==> 0 <= found < i && slots[found].Some? && T.Count(slots, i) == 1
    {
      if !IsNullLink(b.body.children[i]) {
        if found >= 0 {
          TrieMap.CountOne(slots, 16, found, i);
          return -1;
        }
        found := i;
      }
      i := i + 1;
    }
    if found >= 0 && found != T.Only(slots) {
      TrieMap.CountOne(slots, 16, found, T.Only(slots));
    }
  }

  method BranchChildCount(h: Hasher, b: MptNode) returns (count: nat)
    requires b.Shape(h) && b.body.BranchBody?
    ensures count == T.Count(b.tree.children, 16)
  {
    SlotsMatch(h, b);
    count := 0;
    for i := 0 to 16
      invariant count == T.Count(b.tree.children, i)
    {
      if !IsNullLink(b.body.children[i]) { count := count + 1; }
    }
  }

  /** A new leaf or extension with `path` in front of the path of an old one. */
  method MergePath(h: Hasher, path: Nibbles, c: MptNode) returns (r: MptNode)
    requires c.Valid(h) && !c.body.BranchBody?
    ensures r.Valid(h) && fresh(r.repr - c.repr)
    ensures r.tree == T.Merge(path, c.tree)
  {
    assert c.Shape(h);
    if c.body.LeafBody? {
      r := new MptNode.Leaf(h, path + c.body.path, c.body.value);
    } else {
      r := new MptNode.Extension(h, path + c.body.path, c.body.child);
    }
  }

  method CollapseBranch(h: Hasher, b: MptNode) returns (r: MptNode)
    requires b.Shape(h) && b.body.BranchBody?
    modifies b`hashValid
    ensures r.Valid(h) && fresh(r.repr - b.repr)
    ensures r.tree == T.Collapse(b.tree)
  {
    var hasValue := b.body.own.Some?;
    var single := FindSingleChild(h, b);
    if single < 0 {
      var count := BranchChildCount(h, b);
      if count == 0 && hasValue {
        r := new MptNode.Leaf(h, [], b.body.own.value);
        return;
      }
      b.hashValid := false;
      return b;
    }
    if hasValue {
      b.hashValid := false;
      return b;
    }
    assert SlotOk(h, b, b.repr, b.body.children[single], b.tree.children[single]);
    var child := b.body.children[single].node;
    assert child.Shape(h);
    if !child.body.BranchBody? {
      r := MergePath(h, [single], child);
      return;
    }
    var l := NodeRef(h, child);
    r := new MptNode.Extension(h, [single], l);
  }

  /** The outcome and the node handed back, against what deletion does to the value. */
  ghost predicate DeleteDone(h: Hasher, spec: T.DeleteResult, result: DeleteOutcome, node: MptNode,
                             before: T.Node, beforeRepr: set<MptNode>, out: MptNode?)
    reads node, node.repr, out, if out == null then {} else out.repr
  {
    match spec
    case NotFound =>
      && result == DELETE_NOT_FOUND && out == node
      && node.Valid(h) && node.tree == before && node.repr == beforeRepr
    case Removed => result == DELETE_REMOVED && out == null
    case Updated(t) => result == DELETE_UPDATED && out != null && out.Valid(h) && out.tree == t
  }

  lemma FullMatchIsPrefix(path: Nibbles, key: Nibbles)
    ensures CommonPrefix(path, key) == |path| <==> path <= key
  {
    if path <= key { CommonPrefixUnique(path, key, |path|); }
  }

  method DeleteRecursive(h: Hasher, node: MptNode, key: Nibbles, offset: nat)
      returns (result: DeleteOutcome, out: MptNode?)
    requires node.Valid(h) && offset <= |key|
    modifies node.repr
    ensures DeleteDone(h, T.Delete(old(node.tree), key[offset..]), result, node,
                       old(node.tree), old(node.repr), out)
    ensures out != null ==> fresh(out.repr - old(node.repr))
    decreases node.repr, 1
  {
    out := node;
    match node.body
    case EmptyBody => result := DELETE_NOT_FOUND;
    case LeafBody(path, _) =>
      if |key| - offset != |path| || path != key[offset..] {
        result := DELETE_NOT_FOUND;
      } else {
        result, out := DELETE_REMOVED, null;
      }
    case ExtensionBody(path, _) =>
      var m := FindDivergence(path, key, offset);
      FullMatchIsPrefix(path, key[offset..]);
      if m != |path| {
        result := DELETE_NOT_FOUND;
      } else {
        result, out := DeleteBelowExtension(h, node, key, offset);
      }
    case BranchBody(_, _) => result, out := DeleteAtBranch(h, node, key, offset);
  }

  method DeleteBelowExtension(h: Hasher, node: MptNode, key: Nibbles, offset: nat)
      returns (result: DeleteOutcome, out: MptNode?)
    requires node.Valid(h) && node.body.ExtensionBody? && offset <= |key|
    requires node.body.path <= key[offset..]
    modifies node.repr
    ensures DeleteDone(h, T.Delete(old(node.tree), key[offset..]), result, node,
                       old(node.tree), old(node.repr), out)
    ensures out != null ==> fresh(out.repr - old(node.repr))
    decreases node.repr, 0
  {
    var path, child := node.body.path, node.body.child;
    assert key[offset..][|path|..] == key[offset + |path|..];
    var c;
    result, c := DeleteRecursive(h, child.node, key, offset + |path|);
    if result == DELETE_NOT_FOUND { return result, node; }
    if result == DELETE_REMOVED || c == null { return DELETE_REMOVED, null; }
    if !c.body.BranchBody? {
      out := MergePath(h, path, c);
      return DELETE_UPDATED, out;
    }
    assert c.Shape(h);
    Rehang(h, node, path, c);
    out := node;
  }

  method DeleteAtBranch(h: Hasher, node: MptNode, key: Nibbles, offset: nat)
      returns (result: DeleteOutcome, out: MptNode?)
    requires node.Valid(h) && node.body.BranchBody? && offset <= |key|
    modifies node.repr
    ensures DeleteDone(h, T.Delete(old(node.tree), key[offset..]), result, node,
                       old(node.tree), old(node.repr), out)
    ensures out != null ==> fresh(out.repr - old(node.repr))
    decreases node.repr, 0
  {
    assert node.Shape(h);
    if offset >= |key| {
      if node.body.own.None? { return DELETE_NOT_FOUND, node; }
      PutOwn(h, node, None);
      out := CollapseBranch(h, node);
      return DELETE_UPDATED, out;
    }
    var nibble := key[offset];
    assert key[offset..][0] == nibble && key[offset..][1..] == key[offset + 1..];
    var slot := node.body.children[nibble];
    assert SlotOk(h, node, node.repr, slot, node.tree.children[nibble]);
    if IsNullLink(slot) { return DELETE_NOT_FOUND, node; }
    ShapeGivesOthers(h, node, nibble);
    ghost var area := Area(node, nibble);
    var c;
    result, c := DeleteRecursive(h, slot.node, key, offset + 1);
    if result == DELETE_NOT_FOUND {
      PutBack(h, node, nibble, area);
      return DELETE_NOT_FOUND, node;
    }
    if result == DELETE_REMOVED || c == null {
      DropChild(h, node, nibble, area);
    } else {
      var l := NodeRef(h, c);
      PutChild(h, node, nibble, l, area);
    }
    out := CollapseBranch(h, node);
    result := DELETE_UPDATED;
  }

  /** A subtrie that came back unchanged still fits its slot. */
  lemma PutBack(h: Hasher, b: MptNode, i: nibble, area: set<MptNode>)
    requires OthersOk(h, b, i, area)
    requires b.body.children[i].node != null && b.body.children[i].node.Valid(h)
    requires b.body.children[i].node.repr <= b.repr - {b} && area !! b.body.children[i].node.repr
    requires b.body.children[i].data == RefOf(h, b.body.children[i].node.tree)
    requires b.tree.children[i] == Some(b.body.children[i].node.tree)
    ensures b.Shape(h)
  {
    forall j | 0 <= j < 16
      ensures SlotOk(h, b, b.repr, b.body.children[j], b.tree.children[j])
    {
      if j != i { assert OtherOk(h, area, b.body.children[j], b.tree.children[j]); }
    }
    forall j, k | 0 <= j < k < 16
      ensures Apart(b.repr - {b}, b.body.children[j], b.body.children[k])
    {
      if j != i { assert OtherOk(h, area, b.body.children[j], b.tree.children[j]); }
      if k != i { assert OtherOk(h, area, b.body.children[k], b.tree.children[k]); }
      if j != i && k != i { assert Apart(area, b.body.children[j], b.body.children[k]); }
    }
  }
}
