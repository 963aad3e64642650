/** Whole runs of writes and erasures on a trie keyed by byte strings. */
module TrieRuns {
  import opened Bytes
  import opened HexPrefix
  import opened Trie
  import opened TrieMap
  import opened TrieNormal

  datatype Op = Write(key: Bytes, value: Bytes) | Erase(key: Bytes)

  function Apply(t: Trie, op: Op): (r: Trie)
    requires WellFormedTrie(t)
    ensures WellFormedTrie(r)
  {
    match op
    case Write(key, value) => Put(t, ToNibbles(key), value)
    case Erase(key) => Remove(t, ToNibbles(key))
  }

  function ApplyToMap(m: map<Bytes, Bytes>, op: Op): map<Bytes, Bytes> {
    match op
    case Write(key, value) => m[key := value]
    case Erase(key) => m - {key}
  }

  /** The trie after a run that starts empty. */
  function Run(ops: seq<Op>): (t: Trie)
    ensures WellFormedTrie(t)
  {
    if |ops| == 0 then None else Apply(Run(ops[..|ops| - 1]), ops[|ops| - 1])
  }

  /** The plain map after the same run. */
  function RunOnMap(ops: seq<Op>): map<Bytes, Bytes> {
    if |ops| == 0 then map[] else ApplyToMap(RunOnMap(ops[..|ops| - 1]), ops[|ops| - 1])
  }

  function MapGet(m: map<Bytes, Bytes>, key: Bytes): Option<Bytes> {
    if key in m then Some(m[key]) else None
  }

  /** The trie holds exactly the entries of the map: at the nibbles of byte keys, and nowhere else. */
  ghost predicate Holds(t: Trie, m: map<Bytes, Bytes>)
    requires WellFormedTrie(t)
  {
    && (forall key: Bytes :: Get(t, ToNibbles(key)) == MapGet(m, key))
    && (forall j: Nibbles :: |j| % 2 == 1 ==> Get(t, j) == None)
  }

  lemma ToNibblesInjective(a: Bytes, b: Bytes)
    ensures ToNibbles(a) == ToNibbles(b) <==> a == b
  {
    ToBytesToNibbles(a);
    ToBytesToNibbles(b);
  }

  lemma PutGet(t: Trie, key: Nibbles, value: Bytes, j: Nibbles)
    requires NormalTrie(t)
    ensures NormalTrie(Put(t, key, value))
    ensures Get(Put(t, key, value), j) == if j == key then Some(value) else Get(t, j)
  {
    if t.Some? {
      InsertKeepsNormal(t.value, key, value);
      InsertIsUpdate(t.value, key, value, j);
    }
  }

  lemma RemoveGet(t: Trie, key: Nibbles, j: Nibbles)
    requires NormalTrie(t)
    ensures NormalTrie(Remove(t, key))
    ensures Get(Remove(t, key), j) == if j == key then None else Get(t, j)
  {
    if t.Some? {
      DeleteKeepsNormal(t.value, key);
      DeleteIsRemove(t.value, key, j);
    }
  }

  lemma ApplyGet(t: Trie, op: Op, j: Nibbles)
    requires NormalTrie(t)
    ensures NormalTrie(Apply(t, op))
    ensures Get(Apply(t, op), j)
         == if j != ToNibbles(op.key) then Get(t, j) else if op.Write? then Some(op.value) else None
  {
    match op
    case Write(key, value) => PutGet(t, ToNibbles(key), value, j);
    case Erase(key) => RemoveGet(t, ToNibbles(key), j);
  }

  /** One operation keeps the normal form and does to the map what it says. */
  lemma ApplyRefinesMap(t: Trie, m: map<Bytes, Bytes>, op: Op)
    requires NormalTrie(t) && Holds(t, m)
    ensures NormalTrie(Apply(t, op)) && Holds(Apply(t, op), ApplyToMap(m, op))
  {
    ApplyGet(t, op, []);
    forall key: Bytes ensures Get(Apply(t, op), ToNibbles(key)) == MapGet(ApplyToMap(m, op), key) {
      ApplyGet(t, op, ToNibbles(key));
      ToNibblesInjective(key, op.key);
    }
    forall j: Nibbles | |j| % 2 == 1 ensures Get(Apply(t, op), j) == None {
      ApplyGet(t, op, j);
    }
  }

  /** After any run the trie is in normal form and holds exactly the map. */
  lemma {:induction false} RunRefinesMap(ops: seq<Op>)
    ensures NormalTrie(Run(ops))
    ensures Holds(Run(ops), RunOnMap(ops))
  {
    if |ops| > 0 {
      RunRefinesMap(ops[..|ops| - 1]);
      ApplyRefinesMap(Run(ops[..|ops| - 1]), RunOnMap(ops[..|ops| - 1]), ops[|ops| - 1]);
    }
  }

  /** Tries in normal form that hold the same map are the same trie. */
  lemma SameMapSameTrie(s: Trie, t: Trie, m: map<Bytes, Bytes>)
    requires NormalTrie(s) && NormalTrie(t)
    requires Holds(s, m) && Holds(t, m)
    ensures s == t
  {
    forall j: Nibbles ensures Get(s, j) == Get(t, j) {
      if |j| % 2 == 0 {
        ToNibblesToBytes(j);
        assert Get(s, ToNibbles(ToBytes(j))) == Get(t, ToNibbles(ToBytes(j)));
      }
    }
    if s.Some? && t.Some? {
      forall j: Nibbles ensures Lookup(s.value, j) == Lookup(t.value, j) {
        assert Get(s, j) == Get(t, j);
      }
      NormalFormUnique(s.value, t.value);
    } else {
      var k := if s.Some? then AKey(s.value) else if t.Some? then AKey(t.value) else [];
      assert Get(s, k) == Get(t, k);
    }
  }

  /** Operation order never matters: runs that end in the same map end in the same trie. */
  lemma OrderIrrelevant(a: seq<Op>, b: seq<Op>)
    requires RunOnMap(a) == RunOnMap(b)
    ensures Run(a) == Run(b)
  {
    RunRefinesMap(a);
    RunRefinesMap(b);
    SameMapSameTrie(Run(a), Run(b), RunOnMap(a));
  }
}
