/** The public trie: an object whose operations are those of a finite map from byte strings, and
    whose root hash is always the one a fresh computation would give. */
module Mpt {
  import opened Bytes
  import opened HexPrefix
  import opened TrieCommitment
  import opened TrieHeap
  import opened TrieRuns
  import T = Trie
  import TrieMap

  /** Deleting from the root node is removal from the map, and it is found exactly when present. */
  lemma EraseRefinesMap(t: T.Node, m: map<Bytes, Bytes>, key: Bytes, nibbles: Nibbles)
    requires T.NormalTrie(Some(t)) && Holds(Some(t), m) && nibbles == ToNibbles(key)
    ensures var r := T.Remove(Some(t), nibbles);
            T.NormalTrie(r) && Holds(r, m - {key})
    ensures T.Delete(t, nibbles).NotFound? <==> key !in m
  {
    assert T.Get(Some(t), ToNibbles(key)) == MapGet(m, key);
    TrieMap.DeleteIsRemove(t, nibbles, nibbles);
    ApplyRefinesMap(Some(t), m, Erase(key));
  }

  class MerklePatriciaTrie {
    const h: Hasher
    var root: MptNode?
    ghost var contents: map<Bytes, Bytes>

    ghost function Trie(): T.Trie
      reads this, root
    {
      if root == null then None else Some(root.tree)
    }

    ghost function Repr(): set<object>
      reads this, root
    {
      {this} + if root == null then {} else root.repr
    }

    ghost predicate Valid()
      reads this, root, if root == null then {} else root.repr
    {
      && (root != null ==> root.Valid(h))
      && T.NormalTrie(Trie())
      && Holds(Trie(), contents)
    }

    constructor (h: Hasher)
      ensures Valid() && contents == map[] && this.h == h && fresh(Repr())
    {
      this.h := h;
      root := null;
      contents := map[];
    }

    method Insert(key: Bytes, value: Bytes)
      requires Valid()
      modifies Repr()
      ensures Valid() && fresh(Repr() - old(Repr()))
      ensures contents == old(contents)[key := value]
    {
      var keyNibbles := NibblesFromBytes(key);
      ghost var before := Trie();
      assert keyNibbles[0..] == keyNibbles;
      var newRoot := InsertRecursive(h, root, keyNibbles, 0, value);
      root := newRoot;
      ApplyRefinesMap(before, contents, Write(key, value));
      contents := contents[key := value];
    }

    /** Returns whether the key was present. */
    method Delete(key: Bytes) returns (found: bool)
      requires Valid()
      modifies Repr()
      ensures Valid() && fresh(Repr() - old(Repr()))
      ensures found == (key in old(contents))
      ensures contents == old(contents) - {key}
    {
      assert root != null ==> root.Shape(h);
      assert T.Get(Trie(), ToNibbles(key)) == MapGet(contents, key);
      if root == null || root.body.EmptyBody? { return false; }
      found := DeleteFromRoot(key);
    }

    method DeleteFromRoot(key: Bytes) returns (found: bool)
      requires Valid() && root != null
      modifies Repr()
      ensures Valid() && fresh(Repr() - old(Repr()))
      ensures found == (key in old(contents))
      ensures contents == old(contents) - {key}
    {
      var keyNibbles := NibblesFromBytes(key);
      assert keyNibbles[0..] == keyNibbles;
      EraseRefinesMap(root.tree, contents, key, keyNibbles);
      var result, newRoot := DeleteRecursive(h, root, keyNibbles, 0);
      found := result != DELETE_NOT_FOUND;
      if found { root := newRoot; }
      contents := contents - {key};
    }

    /** The value of a key; a key that is present with an empty value is told apart. */
    method Lookup(key: Bytes) returns (value: Option<Bytes>)
      requires Valid()
      ensures value == MapGet(contents, key)
    {
      var keyNibbles := NibblesFromBytes(key);
      assert T.Get(Trie(), ToNibbles(key)) == MapGet(contents, key);
      value := Descend(h, root, keyNibbles);
    }

    method Contains(key: Bytes) returns (present: bool)
      requires Valid()
      ensures present == (key in contents)
    {
      var keyNibbles := NibblesFromBytes(key);
      assert T.Get(Trie(), ToNibbles(key)) == MapGet(contents, key);
      var value := Descend(h, root, keyNibbles);
      present := value.Some?;
    }

    /** The root hash, through the caches, is the root hash of the trie from scratch. */
    method ComputeRootHash() returns (hash: Hash)
      requires Valid()
      modifies if root == null then {} else {root}
      ensures Valid() && contents == old(contents)
      ensures hash == RootHash(h, Trie()) && Trie() == old(Trie())
    {
      assert root != null ==> root.Shape(h);
      if root == null || root.body.EmptyBody? { return EMPTY_ROOT; }
      ghost var before := Trie();
      hash := NodeHash(h, root);
      assert Trie() == before;
    }
  }

  /** The lookup loop over `node` and `offset`. */
  method Descend(h: Hasher, root: MptNode?, key: Nibbles) returns (value: Option<Bytes>)
    requires root != null ==> root.Valid(h)
    ensures value == if root == null then None else T.Lookup(root.tree, key)
  {
    var node := root;
    var offset := 0;
    assert key[0..] == key;
    while node != null && !node.body.EmptyBody?
      invariant offset <= |key|
      invariant node != null ==> root != null && node.Valid(h)
      invariant node != null ==> T.Lookup(root.tree, key) == T.Lookup(node.tree, key[offset..])
      invariant node == null ==> root == null
      decreases if node == null then {} else node.repr
    {
      assert node.Shape(h);
      match node.body
      case LeafBody(path, v) =>
        return if |key| - offset == |path| && path == key[offset..] then Some(v) else None;
      case ExtensionBody(path, child) =>
        var m := FindDivergence(path, key, offset);
        FullMatchIsPrefix(path, key[offset..]);
        if m != |path| { return None; }
        assert key[offset..][m..] == key[offset + m..];
        offset := offset + m;
        node := child.node;
      case BranchBody(children, own) =>
        if offset >= |key| { return own; }
        var nibble := key[offset];
        assert key[offset..][0] == nibble && key[offset..][1..] == key[offset + 1..];
        assert SlotOk(h, node, node.repr, children[nibble], node.tree.children[nibble]);
        if IsNullLink(children[nibble]) { return None; }
        offset := offset + 1;
        node := children[nibble].node;
    }
    return None;
  }
}
