/** Normal form: every operation keeps it, and a map has only one trie in normal form, so
    the order in which keys were written never shows. */
module TrieNormal {
  import opened Bytes
  import opened HexPrefix
  import opened Trie
  import opened TrieMap

  // ---------------------------------------------------------------------------
  // Insertion and deletion keep the normal form
  // ---------------------------------------------------------------------------

  lemma EmptyBranchCount(n: nat)
    requires n <= 16
    ensures Count(EmptyBranch().children, n) == 0
  {
    if n > 0 { EmptyBranchCount(n - 1); }
  }

  /** Attaching to a free place adds one entry. */
  lemma AttachEntries(b: Node, key: Nibbles, value: Bytes)
    requires b.Branch? && WellFormed(b)
    requires if key == [] then b.own.None? else b.children[key[0]].None?
    ensures Entries(Attach(b, key, value)) == Entries(b) + 1
  {
    if key != [] { CountReplace(b.children, key[0], Some(Leaf(key[1..], value)), 16); }
  }

  ghost predicate NormalChildren(b: Node)
    requires b.Branch? && WellFormed(b)
  {
    forall i | 0 <= i < 16 :: b.children[i].Some? ==> Normal(b.children[i].value)
  }

  lemma SplitLeafIsNormal(path: Nibbles, prior: Bytes, key: Nibbles, value: Bytes)
    requires CommonPrefix(path, key) != |path| || |path| != |key|
    ensures Normal(Insert(Leaf(path, prior), key, value))
  {
    var m := CommonPrefix(path, key);
    EmptyBranchCount(16);
    var b := Attach(EmptyBranch(), path[m..], prior);
    AttachEntries(EmptyBranch(), path[m..], prior);
    AttachEntries(b, key[m..], value);
    assert NormalChildren(Attach(b, key[m..], value));
  }

  lemma SplitExtensionIsNormal(path: Nibbles, child: Node, key: Nibbles, value: Bytes)
    requires Normal(Extension(path, child)) && CommonPrefix(path, key) < |path|
    ensures Normal(Insert(Extension(path, child), key, value))
  {
    var m := CommonPrefix(path, key);
    var b := Fork(path[m], path[m + 1..], child);
    ForkEntries(path[m], path[m + 1..], child);
    AttachEntries(b, key[m..], value);
    assert NormalChildren(Attach(b, key[m..], value));
  }

  lemma {:induction false} InsertKeepsNormal(t: Node, key: Nibbles, value: Bytes)
    requires Normal(t)
    ensures Normal(Insert(t, key, value))
    ensures t.Branch? ==> Insert(t, key, value).Branch?
    decreases t
  {
    match t
    case Leaf(path, prior) =>
      if CommonPrefix(path, key) != |path| || |path| != |key| { SplitLeafIsNormal(path, prior, key, value); }
    case Extension(path, child) =>
      var m := CommonPrefix(path, key);
      if m == |path| {
        InsertKeepsNormal(child, key[m..], value);
      } else {
        SplitExtensionIsNormal(path, child, key, value);
      }
    case Branch(children, _) =>
      if key != [] {
        var r := Insert(t, key, value);
        if children[key[0]].Some? {
          InsertKeepsNormal(children[key[0]].value, key[1..], value);
        }
        CountReplace(children, key[0], r.children[key[0]], 16);
        assert NormalChildren(r);
      }
  }

  lemma ForkEntries(slot: nibble, path: Nibbles, child: Node)
    requires WellFormed(child)
    ensures Entries(Fork(slot, path, child)) == 1
  {
    EmptyBranchCount(16);
    CountReplace(EmptyBranch().children, slot, Some(Prefixed(path, child)), 16);
  }

  lemma MergeKeepsNormal(path: Nibbles, t: Node)
    requires Normal(t) && path != []
    ensures Normal(Merge(path, t))
  {}

  lemma CollapseIsNormal(b: Node)
    requires b.Branch? && WellFormed(b)
    requires Entries(b) >= 1 && NormalChildren(b)
    ensures Normal(Collapse(b))
  {
    if Count(b.children, 16) == 1 && b.own.None? {
      var i := Only(b.children);
      MergeKeepsNormal([i], b.children[i].value);
    }
  }

  lemma {:induction false} DeleteKeepsNormal(t: Node, key: Nibbles)
    requires Normal(t)
    ensures Delete(t, key).Updated? ==> Normal(Delete(t, key).node)
    ensures Delete(t, key).Removed? ==> t.Leaf?
    decreases t
  {
    match t
    case Leaf(_, _) =>
    case Extension(path, child) =>
      if path <= key {
        DeleteKeepsNormal(child, key[|path|..]);
        var r := Delete(child, key[|path|..]);
        if r.Updated? { MergeKeepsNormal(path, r.node); }
      }
    case Branch(children, own) =>
      if key == [] {
        if own.Some? { CollapseIsNormal(Branch(children, None)); }
      } else if children[key[0]].Some? {
        DeleteKeepsNormal(children[key[0]].value, key[1..]);
        var r := Delete(children[key[0]].value, key[1..]);
        if !r.NotFound? {
          var slot := if r.Removed? then None else Some(r.node);
          CountReplace(children, key[0], slot, 16);
          CollapseIsNormal(Branch(children[key[0] := slot], own));
        }
      }
  }

  // ---------------------------------------------------------------------------
  // Uniqueness
  // ---------------------------------------------------------------------------

  /** Some key of a subtrie in normal form. */
  ghost function AKey(t: Node): (k: Nibbles)
    requires Normal(t)
    ensures Lookup(t, k).Some?
    decreases t
  {
    match t
    case Leaf(path, _) => path
    case Extension(path, child) =>
      var k := path + AKey(child);
      assert k[|path|..] == AKey(child);
      k
    case Branch(children, own) =>
      if own.Some? then []
      else
        var i := Only(children);
        var k := [i] + AKey(children[i].value);
        assert k[1..] == AKey(children[i].value);
        k
  }

  /** A branch in normal form has a key that does not start with a given nibble. */
  ghost function KeyAvoiding(b: Node, n: nibble): (k: Nibbles)
    requires Normal(b) && b.Branch?
    ensures Lookup(b, k).Some?
    ensures k != [] ==> k[0] != n
  {
    if b.own.Some? then []
    else
      var others := b.children[n := None];
      CountReplace(b.children, n, None, 16);
      var i := Only(others);
      var k := [i] + AKey(b.children[i].value);
      assert k[1..] == AKey(b.children[i].value);
      k
  }

  ghost predicate SameMap(a: Node, b: Node)
    requires WellFormed(a) && WellFormed(b)
  {
    forall k: Nibbles :: Lookup(a, k) == Lookup(b, k)
  }

  /** A branch in normal form has a non-empty key. */
  ghost function LongKey(b: Node): (k: Nibbles)
    requires Normal(b) && b.Branch?
    ensures Lookup(b, k).Some? && k != []
  {
    var i := Only(b.children);
    var k := [i] + AKey(b.children[i].value);
    assert k[1..] == AKey(b.children[i].value);
    k
  }

  /** A key of `t` other than `AKey(t)`; only a leaf has none. */
  ghost function OtherKey(t: Node): (k: Nibbles)
    requires Normal(t)
    ensures Lookup(t, k).Some?
    ensures !t.Leaf? ==> k != AKey(t)
    decreases t
  {
    match t
    case Leaf(path, _) => path
    case Extension(path, child) =>
      var k := path + OtherKey(child);
      assert k[|path|..] == OtherKey(child) && AKey(t)[|path|..] == AKey(child);
      k
    case Branch(_, _) => if AKey(t) == [] then LongKey(t) else KeyAvoiding(t, AKey(t)[0])
  }

  /** A leaf holds one key, so nothing else in normal form holds the same map. */
  lemma LeafIsAlone(path: Nibbles, value: Bytes, t: Node)
    requires Normal(t) && SameMap(Leaf(path, value), t)
    ensures t == Leaf(path, value)
  {
    var leaf := Leaf(path, value);
    assert Lookup(leaf, AKey(t)) == Lookup(t, AKey(t));
    assert Lookup(leaf, OtherKey(t)) == Lookup(t, OtherKey(t));
  }

  /** All keys below an extension share its path; the keys of a branch share nothing. */
  lemma ExtensionIsNotBranch(path: Nibbles, child: Node, b: Node)
    requires Normal(Extension(path, child)) && Normal(b) && b.Branch?
    ensures !SameMap(Extension(path, child), b)
  {
    var k := KeyAvoiding(b, path[0]);
    assert Lookup(Extension(path, child), k) != Lookup(b, k);
  }

  lemma ExtensionPathLength(p: Nibbles, c: Node, q: Nibbles, d: Node)
    requires Normal(Extension(p, c)) && Normal(Extension(q, d))
    requires SameMap(Extension(p, c), Extension(q, d))
    ensures |p| >= |q| && p[..|q|] == q
  {
    var a, b := Extension(p, c), Extension(q, d);
    var k0 := AKey(c);
    var k1 := if |p| < |q| then KeyAvoiding(c, q[|p|]) else k0;
    assert (p + k0)[|p|..] == k0 && (p + k1)[|p|..] == k1;
    assert Lookup(a, p + k0) == Lookup(b, p + k0);
    assert Lookup(a, p + k1) == Lookup(b, p + k1);
    assert q <= p + k0 && q <= p + k1;
  }

  /** A map has at most one trie in normal form. */
  lemma {:induction false} NormalFormUnique(a: Node, b: Node)
    requires Normal(a) && Normal(b) && SameMap(a, b)
    ensures a == b
    decreases a
  {
    match a
    case Leaf(path, value) => LeafIsAlone(path, value, b);
    case Extension(p, c) =>
      match b {
        case Leaf(path, value) => LeafIsAlone(path, value, a);
        case Branch(_, _) => ExtensionIsNotBranch(p, c, b);
        case Extension(q, d) =>
          ExtensionPathLength(p, c, q, d);
          ExtensionPathLength(q, d, p, c);
          assert p == q;
          forall k: Nibbles ensures Lookup(c, k) == Lookup(d, k) {
            assert (p + k)[|p|..] == k;
            assert Lookup(a, p + k) == Lookup(b, p + k);
          }
          NormalFormUnique(c, d);
      }
    case Branch(children, own) =>
      match b {
        case Leaf(path, value) => LeafIsAlone(path, value, a);
        case Extension(q, d) => ExtensionIsNotBranch(q, d, a);
        case Branch(others, _) =>
          assert own == b.own by { assert Lookup(a, []) == Lookup(b, []); }
          forall i | 0 <= i < 16 ensures children[i] == others[i] {
            ChildMaps(a, b, i);
            if children[i].Some? && others[i].Some? {
              NormalFormUnique(children[i].value, others[i].value);
            }
          }
          assert children == others;
      }
  }

  lemma ChildMaps(a: Node, b: Node, i: nibble)
    requires Normal(a) && Normal(b) && a.Branch? && b.Branch? && SameMap(a, b)
    ensures a.children[i].Some? <==> b.children[i].Some?
    ensures a.children[i].Some? ==> SameMap(a.children[i].value, b.children[i].value)
  {
    forall k: Nibbles
      ensures a.children[i].Some? && b.children[i].Some?
              ==> Lookup(a.children[i].value, k) == Lookup(b.children[i].value, k)
    {
      assert ([i] + k)[1..] == k;
      assert Lookup(a, [i] + k) == Lookup(b, [i] + k);
    }
    var k := if a.children[i].Some? then AKey(a.children[i].value)
             else if b.children[i].Some? then AKey(b.children[i].value) else [];
    assert ([i] + k)[1..] == k;
    assert Lookup(a, [i] + k) == Lookup(b, [i] + k);
  }
}
