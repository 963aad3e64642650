/** Exactly when two maps share a root: they agree, except for empty values at keys where the map forks. */
module TrieInvisible {
  import opened Bytes
  import opened HexPrefix
  import opened Rlp
  import opened Trie
  import opened TrieMap
  import opened TrieNormal
  import opened TrieRuns
  import opened TrieCommitment

  // ---------------------------------------------------------------------------
  // Branches under a key
  // ---------------------------------------------------------------------------

  /** A branch stands where the key ends. */
  predicate AtBranch(t: Node, k: Nibbles)
    requires WellFormed(t)
    decreases t
  {
    match t
    case Leaf(_, _) => false
    case Extension(path, child) => path <= k && AtBranch(child, k[|path|..])
    case Branch(children, _) =>
      k == [] || (children[k[0]].Some? && AtBranch(children[k[0]].value, k[1..]))
  }

  /** And at least two of its slots are occupied. */
  predicate Splits(t: Node, k: Nibbles)
    requires WellFormed(t)
    decreases t
  {
    match t
    case Leaf(_, _) => false
    case Extension(path, child) => path <= k && Splits(child, k[|path|..])
    case Branch(children, _) =>
      if k == [] then Count(children, 16) >= 2
      else children[k[0]].Some? && Splits(children[k[0]].value, k[1..])
  }

  /** Two keys go on from `p` with different nibbles. */
  predicate Diverge(p: Nibbles, x: Nibbles, y: Nibbles) {
    p < x && p < y && x[|p|] != y[|p|]
  }

  lemma {:induction false} DivergenceIsBranch(t: Node, p: Nibbles, x: Nibbles, y: Nibbles)
    requires WellFormed(t) && Lookup(t, x).Some? && Lookup(t, y).Some? && Diverge(p, x, y)
    ensures AtBranch(t, p)
    decreases t
  {
    match t
    case Leaf(_, _) =>
    case Extension(path, child) =>
      assert |path| <= |p|;
      assert path <= p by { assert path == x[..|path|] == p[..|path|]; }
      DivergenceIsBranch(child, p[|path|..], x[|path|..], y[|path|..]);
    case Branch(children, _) =>
      if p != [] { DivergenceIsBranch(children[p[0]].value, p[1..], x[1..], y[1..]); }
  }

  lemma {:induction false} ASlot(children: seq<Option<Node>>, n: nat) returns (i: nat)
    requires n <= |children| && Count(children, n) >= 1
    ensures i < n && children[i].Some?
  {
    if children[n - 1].Some? { i := n - 1; } else { i := ASlot(children, n - 1); }
  }

  lemma {:induction false} TwoSlots(children: seq<Option<Node>>, n: nat) returns (i: nat, j: nat)
    requires n <= |children| && Count(children, n) >= 2
    ensures i < j < n && children[i].Some? && children[j].Some?
  {
    if children[n - 1].Some? {
      i := ASlot(children, n - 1);
      j := n - 1;
    } else {
      i, j := TwoSlots(children, n - 1);
    }
  }

  /** Where a trie splits, two of its keys diverge. */
  lemma {:induction false} SplitDiverges(t: Node, p: Nibbles) returns (x: Nibbles, y: Nibbles)
    requires Normal(t) && Splits(t, p)
    ensures Lookup(t, x).Some? && Lookup(t, y).Some? && Diverge(p, x, y)
    decreases t
  {
    match t
    case Extension(path, child) =>
      var u, v := SplitDiverges(child, p[|path|..]);
      x, y := path + u, path + v;
      assert x[|path|..] == u && y[|path|..] == v;
    case Branch(children, _) =>
      if p == [] {
        var i, j := TwoSlots(children, 16);
        x, y := [i] + AKey(children[i].value), [j] + AKey(children[j].value);
        assert x[1..] == AKey(children[i].value) && y[1..] == AKey(children[j].value);
      } else {
        var u, v := SplitDiverges(children[p[0]].value, p[1..]);
        x, y := [p[0]] + u, [p[0]] + v;
        assert x[1..] == u && y[1..] == v;
      }
  }

  /** A branch without a value has two occupied slots. */
  lemma {:induction false} BareBranchSplits(t: Node, p: Nibbles)
    requires Normal(t) && AtBranch(t, p) && Lookup(t, p) == None
    ensures Splits(t, p)
    decreases t
  {
    match t
    case Extension(path, child) => BareBranchSplits(child, p[|path|..]);
    case Branch(children, _) => if p != [] { BareBranchSplits(children[p[0]].value, p[1..]); }
  }

  // ---------------------------------------------------------------------------
  // Equal after stripping
  // ---------------------------------------------------------------------------

  /** Absent or empty. */
  predicate Blank(v: Option<Bytes>) {
    v == None || v == Some([])
  }

  lemma {:induction false} SameCount(s: seq<Option<Node>>, t: seq<Option<Node>>, n: nat)
    requires n <= |s| && n <= |t| && forall i | 0 <= i < n :: s[i].Some? <==> t[i].Some?
    ensures Count(s, n) == Count(t, n)
  {
    if n > 0 { SameCount(s, t, n - 1); }
  }

  /** Tries that strip alike agree at every key, or both have a branch there with nothing to see in it. */
  lemma {:induction false} StrippedAgree(s: Node, t: Node, k: Nibbles)
    requires WellFormed(s) && WellFormed(t) && Strip(s) == Strip(t)
    ensures Lookup(s, k) == Lookup(t, k)
            || (Blank(Lookup(s, k)) && Blank(Lookup(t, k)) && AtBranch(s, k) && AtBranch(t, k))
    ensures Splits(s, k) <==> Splits(t, k)
    decreases s
  {
    match s
    case Leaf(_, _) =>
    case Extension(path, child) => if path <= k { StrippedAgree(child, t.child, k[|path|..]); }
    case Branch(children, _) =>
      SlotsMatch(s, t);
      if k == [] { SameCount(children, t.children, 16); }
      else if children[k[0]].Some? { StrippedAgree(children[k[0]].value, t.children[k[0]].value, k[1..]); }
  }

  lemma SlotsMatch(s: Node, t: Node)
    requires s.Branch? && WellFormed(s) && WellFormed(t) && Strip(s) == Strip(t)
    ensures t.Branch? && (forall i | 0 <= i < 16 :: s.children[i].Some? <==> t.children[i].Some?)
    ensures forall i | 0 <= i < 16 && s.children[i].Some? :: Strip(s.children[i].value) == Strip(t.children[i].value)
  {
    forall i | 0 <= i < 16
      ensures s.children[i].Some? <==> t.children[i].Some?
      ensures s.children[i].Some? ==> Strip(s.children[i].value) == Strip(t.children[i].value)
    {
      assert Strip(s).children[i] == Strip(t).children[i];
    }
  }

  // ---------------------------------------------------------------------------
  // Writing empty values where they do not show
  // ---------------------------------------------------------------------------

  /** An empty value written at a branch that shows none changes neither what the trie strips to nor where its
      branches are. */
  lemma {:induction false} WriteBlank(t: Node, k: Nibbles, j: Nibbles)
    requires WellFormed(t) && AtBranch(t, k) && Blank(Lookup(t, k))
    ensures Strip(Insert(t, k, [])) == Strip(t)
    ensures AtBranch(Insert(t, k, []), j) <==> AtBranch(t, j)
    decreases t
  {
    match t
    case Extension(path, child) =>
      assert CommonPrefix(path, k) == |path|;
      WriteBlank(child, k[|path|..], if path <= j then j[|path|..] else []);
    case Branch(children, own) =>
      if k == [] {
        assert Strip(Insert(t, k, [])).children == Strip(t).children;
      } else {
        var i := k[0];
        WriteBlank(children[i].value, k[1..], if j != [] && j[0] == i then j[1..] else []);
        var u := Insert(t, k, []);
        forall n | 0 <= n < 16 ensures Strip(u).children[n] == Strip(t).children[n] {}
        assert Strip(u).children == Strip(t).children;
      }
  }

  /** Tries that agree but for such keys strip alike: write the empty value at each of them, in both. */
  lemma {:induction false} StripsAlike(s: Node, t: Node, d: set<Nibbles>)
    requires Normal(s) && Normal(t)
    requires forall k: Nibbles :: k !in d ==> Lookup(s, k) == Lookup(t, k)
    requires forall k | k in d :: Blank(Lookup(s, k)) && Blank(Lookup(t, k)) && AtBranch(s, k) && AtBranch(t, k)
    ensures Strip(s) == Strip(t)
    decreases |d|
  {
    if d == {} {
      NormalFormUnique(s, t);
    } else {
      var k :| k in d;
      var s', t' := Insert(s, k, []), Insert(t, k, []);
      InsertKeepsNormal(s, k, []);
      InsertKeepsNormal(t, k, []);
      WriteBlank(s, k, []);
      WriteBlank(t, k, []);
      forall j: Nibbles
        ensures Lookup(s', j) == if j == k then Some([]) else Lookup(s, j)
        ensures Lookup(t', j) == if j == k then Some([]) else Lookup(t, j)
        ensures AtBranch(s', j) == AtBranch(s, j) && AtBranch(t', j) == AtBranch(t, j)
      {
        InsertIsUpdate(s, k, [], j);
        InsertIsUpdate(t, k, [], j);
        WriteBlank(s, k, j);
        WriteBlank(t, k, j);
      }
      StripsAlike(s', t', d - {k});
    }
  }

  // ---------------------------------------------------------------------------
  // Maps
  // ---------------------------------------------------------------------------

  /** Two keys of the map go on from `key` with different nibbles. */
  ghost predicate Forks(m: map<Bytes, Bytes>, key: Bytes) {
    exists x, y | x in m && y in m :: Diverge(ToNibbles(key), ToNibbles(x), ToNibbles(y))
  }

  /** The maps agree, except that a key at which both fork may be absent from one and empty in the other. */
  ghost predicate LookAlike(m: map<Bytes, Bytes>, n: map<Bytes, Bytes>) {
    forall key: Bytes ::
      || MapGet(m, key) == MapGet(n, key)
      || (Blank(MapGet(m, key)) && Blank(MapGet(n, key)) && Forks(m, key) && Forks(n, key))
  }

  lemma ForksAtBranch(t: Node, m: map<Bytes, Bytes>, key: Bytes)
    requires Normal(t) && Holds(Some(t), m)
    ensures Forks(m, key) ==> AtBranch(t, ToNibbles(key))
    ensures Splits(t, ToNibbles(key)) ==> Forks(m, key)
  {
    var p := ToNibbles(key);
    if Forks(m, key) {
      var x, y :| x in m && y in m && Diverge(p, ToNibbles(x), ToNibbles(y));
      assert Get(Some(t), ToNibbles(x)) == MapGet(m, x) && Get(Some(t), ToNibbles(y)) == MapGet(m, y);
      DivergenceIsBranch(t, p, ToNibbles(x), ToNibbles(y));
    }
    if Splits(t, p) {
      var x, y := SplitDiverges(t, p);
      KeyOf(t, m, x);
      KeyOf(t, m, y);
    }
  }

  lemma KeyOf(t: Node, m: map<Bytes, Bytes>, x: Nibbles)
    requires Normal(t) && Holds(Some(t), m) && Lookup(t, x).Some?
    ensures |x| % 2 == 0 && ToNibbles(ToBytes(x)) == x && ToBytes(x) in m
  {
    assert Get(Some(t), x) == Lookup(t, x);
    assert |x| % 2 == 0;
    ToNibblesToBytes(x);
    assert Get(Some(t), ToNibbles(ToBytes(x))) == MapGet(m, ToBytes(x));
  }

  lemma StripsLookAlike(s: Node, t: Node, m: map<Bytes, Bytes>, n: map<Bytes, Bytes>)
    requires Normal(s) && Normal(t) && Holds(Some(s), m) && Holds(Some(t), n) && Strip(s) == Strip(t)
    ensures LookAlike(m, n)
  {
    forall key: Bytes | MapGet(m, key) != MapGet(n, key)
      ensures Blank(MapGet(m, key)) && Blank(MapGet(n, key)) && Forks(m, key) && Forks(n, key)
    {
      var k := ToNibbles(key);
      assert Get(Some(s), k) == MapGet(m, key) && Get(Some(t), k) == MapGet(n, key);
      StrippedAgree(s, t, k);
      if Lookup(s, k) == None { BareBranchSplits(s, k); } else { BareBranchSplits(t, k); }
      ForksAtBranch(s, m, key);
      ForksAtBranch(t, n, key);
    }
  }

  lemma LookAlikeStrips(s: Node, t: Node, m: map<Bytes, Bytes>, n: map<Bytes, Bytes>)
    requires Normal(s) && Normal(t) && Holds(Some(s), m) && Holds(Some(t), n) && LookAlike(m, n)
    ensures Strip(s) == Strip(t)
  {
    var d := set key | key in m.Keys + n.Keys && MapGet(m, key) != MapGet(n, key) :: ToNibbles(key);
    forall k: Nibbles | k !in d ensures Lookup(s, k) == Lookup(t, k) {
      assert Get(Some(s), k) == Lookup(s, k) && Get(Some(t), k) == Lookup(t, k);
      if |k| % 2 == 0 {
        ToNibblesToBytes(k);
        var key := ToBytes(k);
        assert Get(Some(s), ToNibbles(key)) == MapGet(m, key) && Get(Some(t), ToNibbles(key)) == MapGet(n, key);
      }
    }
    forall k | k in d
      ensures Blank(Lookup(s, k)) && Blank(Lookup(t, k)) && AtBranch(s, k) && AtBranch(t, k)
    {
      var key :| k == ToNibbles(key) && MapGet(m, key) != MapGet(n, key);
      assert Get(Some(s), k) == MapGet(m, key) && Get(Some(t), k) == MapGet(n, key);
      ForksAtBranch(s, m, key);
      ForksAtBranch(t, n, key);
    }
    StripsAlike(s, t, d);
  }

  lemma EmptyLooksAlone(t: Node, m: map<Bytes, Bytes>)
    requires Normal(t) && Holds(Some(t), m)
    ensures !LookAlike(map[], m) && !LookAlike(m, map[])
  {
    KeyOf(t, m, AKey(t));
    var key := ToBytes(AKey(t));
    assert MapGet(map[], key) != MapGet(m, key) && !Forks(map[], key);
  }

  lemma NoTrieNoMap(m: map<Bytes, Bytes>)
    requires Holds(None, m)
    ensures m == map[]
  {
    forall key: Bytes ensures key !in m { assert Get(None, ToNibbles(key)) == MapGet(m, key); }
  }

  /** Two runs, whatever values they leave, end in equal root hashes exactly when their maps agree but for
      empty values at keys where both maps fork. */
  lemma RunsShareRoot(h: Hasher, a: seq<Op>, b: seq<Op>)
    requires h([EMPTY_STRING_BYTE]) == EMPTY_ROOT
    requires SizedTrie(h, Run(a)) && SizedTrie(h, Run(b))
    requires NoCollision(h, TrieEncodings(h, Run(a)) + TrieEncodings(h, Run(b)))
    ensures RootHash(h, Run(a)) == RootHash(h, Run(b)) <==> LookAlike(RunOnMap(a), RunOnMap(b))
  {
    RunRefinesMap(a);
    RunRefinesMap(b);
    RootHashCommits(h, Run(a), Run(b));
    var s, t, m, n := Run(a), Run(b), RunOnMap(a), RunOnMap(b);
    if s.None? { NoTrieNoMap(m); }
    if t.None? { NoTrieNoMap(n); }
    if s.Some? && t.Some? {
      if Strip(s.value) == Strip(t.value) { StripsLookAlike(s.value, t.value, m, n); }
      if LookAlike(m, n) { LookAlikeStrips(s.value, t.value, m, n); }
    } else if s.Some? {
      EmptyLooksAlone(s.value, m);
    } else if t.Some? {
      EmptyLooksAlone(t.value, n);
    }
  }
}
