/** The trie behaves as a finite map: insertion is update, deletion is removal. */
module TrieMap {
  import opened Bytes
  import opened HexPrefix
  import opened Trie

  // ---------------------------------------------------------------------------
  // Prefixes of keys
  // ---------------------------------------------------------------------------

  lemma PrefixSplit(p: Nibbles, j: Nibbles)
    ensures p <= j <==> |p| <= |j| && j[..|p|] == p
    ensures p <= j ==> j == p + j[|p|..]
  {}

  /** Keys that agree on the first `m` nibbles are equal exactly when their rests are. */
  lemma SameRest(key: Nibbles, m: nat, j: Nibbles)
    requires m <= |key|
    ensures j == key <==> key[..m] <= j && j[m..] == key[m..]
  {
    assert key == key[..m] + key[m..];
    if key[..m] <= j { PrefixSplit(key[..m], j); }
  }

  /** Following `p` then `q` is following `p + q`. */
  lemma PrefixTwice(p: Nibbles, q: Nibbles, j: Nibbles)
    ensures p + q <= j <==> p <= j && q <= j[|p|..]
    ensures p + q <= j ==> j[|p + q|..] == j[|p|..][|q|..]
  {
    if p + q <= j {
      assert j == p + q + j[|p + q|..];
      assert j[|p|..] == q + j[|p + q|..];
    }
  }

  // ---------------------------------------------------------------------------
  // Lookup through the building blocks
  // ---------------------------------------------------------------------------

  lemma LookupPrefixed(path: Nibbles, t: Node, j: Nibbles)
    requires WellFormed(t)
    ensures Lookup(Prefixed(path, t), j) == if path <= j then Lookup(t, j[|path|..]) else None
  {
    if path == [] { assert j[0..] == j; }
  }

  lemma LookupAttach(b: Node, key: Nibbles, value: Bytes, j: Nibbles)
    requires b.Branch? && WellFormed(b)
    requires key != [] ==> b.children[key[0]].None?
    ensures Lookup(Attach(b, key, value), j) == if j == key then Some(value) else Lookup(b, j)
  {
    if j != [] && key != [] && j[0] == key[0] {
      assert j == [j[0]] + j[1..] && key == [key[0]] + key[1..];
    }
  }

  lemma LookupFork(slot: nibble, path: Nibbles, child: Node, j: Nibbles)
    requires WellFormed(child)
    ensures Lookup(Fork(slot, path, child), j)
         == if [slot] + path <= j then Lookup(child, j[1 + |path|..]) else None
  {
    PrefixTwice([slot], path, j);
    if j != [] && j[0] == slot {
      LookupPrefixed(path, child, j[1..]);
      assert [slot] <= j;
    }
  }

  lemma LookupMerge(path: Nibbles, t: Node, j: Nibbles)
    requires WellFormed(t)
    ensures Lookup(Merge(path, t), j) == if path <= j then Lookup(t, j[|path|..]) else None
  {
    match t
    case Leaf(rest, _) =>
      PrefixSplit(path, j);
      assert j == path + rest <==> path <= j && j[|path|..] == rest;
    case Extension(rest, _) => PrefixTwice(path, rest, j);
    case Branch(_, _) =>
  }

  // ---------------------------------------------------------------------------
  // Insertion
  // ---------------------------------------------------------------------------

  lemma {:induction false} InsertIsUpdate(t: Node, key: Nibbles, value: Bytes, j: Nibbles)
    requires WellFormed(t)
    ensures Lookup(Insert(t, key, value), j) == if j == key then Some(value) else Lookup(t, j)
    decreases t
  {
    match t
    case Leaf(path, prior) => InsertAtLeaf(path, prior, key, value, j);
    case Extension(path, child) =>
      var m := CommonPrefix(path, key);
      if m == |path| {
        SameRest(key, m, j);
        if path <= j { InsertIsUpdate(child, key[m..], value, j[m..]); }
      } else {
        InsertAtExtension(path, child, key, value, j);
      }
    case Branch(children, _) =>
      if key != [] {
        if children[key[0]].None? {
          LookupAttach(t, key, value, j);
        } else if j != [] && j[0] == key[0] {
          InsertIsUpdate(children[key[0]].value, key[1..], value, j[1..]);
          assert j == [j[0]] + j[1..] && key == [key[0]] + key[1..];
        }
      }
  }

  lemma InsertAtLeaf(path: Nibbles, prior: Bytes, key: Nibbles, value: Bytes, j: Nibbles)
    ensures Lookup(Insert(Leaf(path, prior), key, value), j)
         == if j == key then Some(value) else Lookup(Leaf(path, prior), j)
  {
    var m := CommonPrefix(path, key);
    var common := path[..m];
    if m == |path| == |key| {
      assert path == common == key;
    } else {
      var b := Attach(EmptyBranch(), path[m..], prior);
      LookupPrefixed(common, Attach(b, key[m..], value), j);
      SameRest(key, m, j);
      SameRest(path, m, j);
      if common <= j {
        LookupAttach(b, key[m..], value, j[m..]);
        LookupAttach(EmptyBranch(), path[m..], prior, j[m..]);
      }
    }
  }

  lemma InsertAtExtension(path: Nibbles, child: Node, key: Nibbles, value: Bytes, j: Nibbles)
    requires WellFormed(child)
    requires CommonPrefix(path, key) < |path|
    ensures Lookup(Insert(Extension(path, child), key, value), j)
         == if j == key then Some(value) else Lookup(Extension(path, child), j)
  {
    var m := CommonPrefix(path, key);
    var common := path[..m];
    var b := Fork(path[m], path[m + 1..], child);
    LookupPrefixed(common, Attach(b, key[m..], value), j);
    SameRest(key, m, j);
    assert path == common + ([path[m]] + path[m + 1..]);
    PrefixTwice(common, [path[m]] + path[m + 1..], j);
    if common <= j {
      LookupAttach(b, key[m..], value, j[m..]);
      LookupFork(path[m], path[m + 1..], child, j[m..]);
    }
  }

  // ---------------------------------------------------------------------------
  // Deletion
  // ---------------------------------------------------------------------------

  lemma {:induction false} CountZero(children: seq<Option<Node>>, n: nat, i: nat)
    requires i < n <= |children|
    ensures children[i].Some? ==> Count(children, n) >= 1
  {
    if i < n - 1 { CountZero(children, n - 1, i); }
  }

  lemma {:induction false} CountOne(children: seq<Option<Node>>, n: nat, i: nat, k: nat)
    requires i < n <= |children| && k < n && i != k
    ensures children[i].Some? && children[k].Some? ==> Count(children, n) >= 2
  {
    if i < n - 1 && k < n - 1 { CountOne(children, n - 1, i, k); }
    else if i < n - 1 { CountZero(children, n - 1, i); }
    else { CountZero(children, n - 1, k); }
  }

  /** Collapsing never changes what a branch holds. */
  lemma CollapseKeepsLookup(b: Node, j: Nibbles)
    requires b.Branch? && WellFormed(b)
    requires Entries(b) >= 1
    ensures Lookup(Collapse(b), j) == Lookup(b, j)
  {
    var n := Count(b.children, 16);
    if n == 0 && b.own.Some? {
      if j != [] { CountZero(b.children, 16, j[0]); }
    } else if n == 1 && b.own.None? {
      var i := Only(b.children);
      LookupMerge([i], b.children[i].value, j);
      if j != [] && j[0] != i { CountOne(b.children, 16, i, j[0]); }
    }
  }

  /** What deletion promises: `NotFound` exactly for absent keys, `Removed` when nothing is
      left, and otherwise a subtrie that differs in the deleted key only. */
  ghost predicate DeleteSpec(t: Node, key: Nibbles, r: DeleteResult, j: Nibbles)
    requires WellFormed(t)
    requires r.Updated? ==> WellFormed(r.node)
  {
    && (r.NotFound? <==> Lookup(t, key).None?)
    && (r.Removed? ==> (j != key ==> Lookup(t, j).None?))
    && (r.Updated? ==> Lookup(r.node, j) == if j == key then None else Lookup(t, j))
  }

  lemma {:induction false} DeleteIsRemove(t: Node, key: Nibbles, j: Nibbles)
    requires Normal(t)
    ensures DeleteSpec(t, key, Delete(t, key), j)
    decreases t
  {
    match t
    case Leaf(_, _) =>
    case Extension(path, child) =>
      if path <= key {
        var rest := key[|path|..];
        PrefixSplit(path, key);
        PrefixSplit(path, j);
        if path <= j { DeleteIsRemove(child, rest, j[|path|..]); }
        else { DeleteIsRemove(child, rest, rest); }
        var r := Delete(child, rest);
        if r.Updated? { LookupMerge(path, r.node, j); }
      }
    case Branch(children, own) =>
      if key == [] {
        if own.Some? { CollapseKeepsLookup(Branch(children, None), j); }
      } else if children[key[0]].Some? {
        DeleteInSlot(t, key, j);
      }
  }

  lemma {:induction false} CountReplace(children: seq<Option<Node>>, i: nat, c: Option<Node>, n: nat)
    requires i < |children| && n <= |children|
    ensures Count(children[i := c], n)
         == Count(children, n)
            + if i < n then (if c.Some? then 1 else 0) - (if children[i].Some? then 1 else 0) else 0
  {
    if n > 0 { CountReplace(children, i, c, n - 1); }
  }

  lemma {:induction false} DeleteInSlot(t: Node, key: Nibbles, j: Nibbles)
    requires Normal(t) && t.Branch? && key != [] && t.children[key[0]].Some?
    ensures DeleteSpec(t, key, Delete(t, key), j)
    decreases t, 0
  {
    var child := t.children[key[0]].value;
    var here := j != [] && j[0] == key[0];
    if here {
      assert j == [j[0]] + j[1..] && key == [key[0]] + key[1..];
    }
    DeleteIsRemove(child, key[1..], if here then j[1..] else key[1..]);
    var r := Delete(child, key[1..]);
    if !r.NotFound? {
      var slot := if r.Removed? then None else Some(r.node);
      var b := Branch(t.children[key[0] := slot], t.own);
      CountReplace(t.children, key[0], slot, 16);
      CollapseKeepsLookup(b, j);
    }
  }
}
