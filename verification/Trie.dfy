/** The Merkle Patricia trie as a value: lookup, insertion with path splitting, deletion with
    branch collapse. The in-place implementation is proved against these functions, and what
    the trie is for is proved about them: it behaves as a finite map, it stays in a normal
    form, and the normal form of a map is unique. */
module Trie {
  import opened Bytes
  import opened HexPrefix

  /** A non-empty subtrie. The value a branch holds for the key that ends at it is
      `own`: `None` when absent, `Some([])` when present but empty. */
  datatype Node =
    | Leaf(path: Nibbles, value: Bytes)
    | Extension(path: Nibbles, child: Node)
    | Branch(children: seq<Option<Node>>, own: Option<Bytes>)

  /** A whole trie: `None` when it holds no key. */
  type Trie = Option<Node>

  predicate WellFormed(t: Node) {
    match t
    case Leaf(_, _) => true
    case Extension(_, child) => WellFormed(child)
    case Branch(children, _) =>
      |children| == 16 && forall i | 0 <= i < 16 :: children[i].Some? ==> WellFormed(children[i].value)
  }

  // ---------------------------------------------------------------------------
  // Lookup
  // ---------------------------------------------------------------------------

  function Lookup(t: Node, key: Nibbles): Option<Bytes>
    requires WellFormed(t)
    decreases t
  {
    match t
    case Leaf(path, value) => if key == path then Some(value) else None
    case Extension(path, child) => if path <= key then Lookup(child, key[|path|..]) else None
    case Branch(children, own) =>
      if key == [] then own
      else match children[key[0]]
        case None => None
        case Some(child) => Lookup(child, key[1..])
  }

  predicate WellFormedTrie(t: Trie) { t.Some? ==> WellFormed(t.value) }

  function Get(t: Trie, key: Nibbles): Option<Bytes>
    requires WellFormedTrie(t)
  {
    match t
    case None => None
    case Some(root) => Lookup(root, key)
  }

  // ---------------------------------------------------------------------------
  // Insertion
  // ---------------------------------------------------------------------------

  function EmptyBranch(): (b: Node)
    ensures WellFormed(b)
  {
    Branch(seq(16, i => None), None)
  }

  /** Hang a value below a branch: at the branch itself or as a new leaf in a slot. */
  function Attach(b: Node, key: Nibbles, value: Bytes): (r: Node)
    requires b.Branch? && WellFormed(b)
    ensures r.Branch? && WellFormed(r)
  {
    if key == [] then b.(own := Some(value))
    else b.(children := b.children[key[0] := Some(Leaf(key[1..], value))])
  }

  /** `t` reached through `path`; no extension is made for an empty path. */
  function Prefixed(path: Nibbles, t: Node): (r: Node)
    requires WellFormed(t)
    ensures WellFormed(r)
  {
    if path == [] then t else Extension(path, t)
  }

  function Insert(t: Node, key: Nibbles, value: Bytes): (r: Node)
    requires WellFormed(t)
    ensures WellFormed(r)
    decreases t
  {
    match t
    case Leaf(path, prior) =>
      var m := CommonPrefix(path, key);
      if m == |path| == |key| then Leaf(path, value)
      else Prefixed(path[..m], Attach(Attach(EmptyBranch(), path[m..], prior), key[m..], value))
    case Extension(path, child) =>
      var m := CommonPrefix(path, key);
      if m == |path| then Extension(path, Insert(child, key[m..], value))
      else Prefixed(path[..m], Attach(Fork(path[m], path[m + 1..], child), key[m..], value))
    case Branch(children, prior) =>
      if key == [] then Branch(children, Some(value))
      else match children[key[0]]
        case None => Attach(t, key, value)
        case Some(child) => Branch(children[key[0] := Some(Insert(child, key[1..], value))], prior)
  }

  /** A branch whose only entry is `child`, in slot `slot`, below the rest of its old path. */
  function Fork(slot: nibble, path: Nibbles, child: Node): (r: Node)
    requires WellFormed(child)
    ensures r.Branch? && WellFormed(r)
  {
    Branch(seq(16, i => None)[slot := Some(Prefixed(path, child))], None)
  }

  function Put(t: Trie, key: Nibbles, value: Bytes): (r: Trie)
    requires WellFormedTrie(t)
    ensures WellFormedTrie(r)
  {
    match t
    case None => Some(Leaf(key, value))
    case Some(root) => Some(Insert(root, key, value))
  }

  // ---------------------------------------------------------------------------
  // Deletion
  // ---------------------------------------------------------------------------

  datatype DeleteResult = NotFound | Removed | Updated(node: Node)

  /** Put `path` in front of a node, merging it into the node's own path. */
  function Merge(path: Nibbles, t: Node): (r: Node)
    requires WellFormed(t)
    ensures WellFormed(r)
  {
    match t
    case Leaf(rest, value) => Leaf(path + rest, value)
    case Extension(rest, child) => Extension(path + rest, child)
    case Branch(_, _) => Extension(path, t)
  }

  /** The number of occupied slots among the first `n`. */
  function Count(children: seq<Option<Node>>, n: nat): (c: nat)
    requires n <= |children|
    ensures c <= n
  {
    if n == 0 then 0 else Count(children, n - 1) + if children[n - 1].Some? then 1 else 0
  }

  /** The first occupied slot. */
  function Only(children: seq<Option<Node>>): (i: nat)
    requires Count(children, |children|) > 0
    ensures i < |children| && children[i].Some?
  {
    if children[0].Some? then 0
    else
      assert Count(children[1..], |children| - 1) > 0 by { CountTail(children, |children|); }
      1 + Only(children[1..])
  }

  lemma {:induction false} CountTail(children: seq<Option<Node>>, n: nat)
    requires 0 < n <= |children| && children[0].None?
    ensures Count(children, n) == Count(children[1..], n - 1)
  {
    if n > 1 { CountTail(children, n - 1); }
  }

  /** Re-normalise a branch that has just lost a child or its value. */
  function Collapse(b: Node): (r: Node)
    requires b.Branch? && WellFormed(b)
    ensures WellFormed(r)
  {
    var n := Count(b.children, 16);
    if n == 0 && b.own.Some? then Leaf([], b.own.value)
    else if n == 1 && b.own.None? then
      var i := Only(b.children);
      Merge([i], b.children[i].value)
    else b
  }

  function Delete(t: Node, key: Nibbles): (r: DeleteResult)
    requires WellFormed(t)
    ensures r.Updated? ==> WellFormed(r.node)
    decreases t
  {
    match t
    case Leaf(path, _) => if key == path then Removed else NotFound
    case Extension(path, child) =>
      if !(path <= key) then NotFound
      else (match Delete(child, key[|path|..])
            case NotFound => NotFound
            case Removed => Removed
            case Updated(c) => Updated(Merge(path, c)))
    case Branch(children, own) =>
      if key == [] then
        if own.None? then NotFound else Updated(Collapse(Branch(children, None)))
      else match children[key[0]]
        case None => NotFound
        case Some(child) =>
          match Delete(child, key[1..])
          case NotFound => NotFound
          case Removed => Updated(Collapse(Branch(children[key[0] := None], own)))
          case Updated(c) => Updated(Collapse(Branch(children[key[0] := Some(c)], own)))
  }

  function Remove(t: Trie, key: Nibbles): (r: Trie)
    requires WellFormedTrie(t)
    ensures WellFormedTrie(r)
  {
    if t.None? then None
    else match Delete(t.value, key)
      case NotFound => t
      case Removed => None
      case Updated(root) => Some(root)
  }

  // ---------------------------------------------------------------------------
  // Normal form
  // ---------------------------------------------------------------------------

  /** Entries of a branch: occupied slots plus the value. */
  function Entries(b: Node): nat
    requires b.Branch? && |b.children| == 16
  {
    Count(b.children, 16) + if b.own.Some? then 1 else 0
  }

  /** Extensions have a non-empty path and lead to a branch; a branch has at least two entries. */
  predicate Normal(t: Node) {
    && WellFormed(t)
    && match t
       case Leaf(_, _) => true
       case Extension(path, child) => path != [] && child.Branch? && Normal(child)
       case Branch(children, _) =>
         Entries(t) >= 2 && forall i | 0 <= i < 16 :: children[i].Some? ==> Normal(children[i].value)
  }

  predicate NormalTrie(t: Trie) { t.Some? ==> Normal(t.value) }
}
