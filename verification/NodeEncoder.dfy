/** Node encoding into an arena buffer that is reserved once: the reservation of nine bytes plus
    the sizes of the encoded items always suffices. */
module NodeEncoder {
  import opened Bytes
  import opened Rlp
  import opened ByteBuffer
  import opened RlpEncoder
  import opened TrieCommitment
  import opened TrieHeap
  import HexPrefix

  /** Reserve for the largest header and the items, then build the list in place. */
  method BuildList(items: seq<Bytes>, total: nat) returns (r: Bytes)
    requires total == MAX_HEADER_SIZE + |Concat(items)| < TWO_64
    ensures r == EncodeList(Concat(items))
  {
    var b := Reserved(total);
    var headerPos := ListStart(b);
    ghost var room := b.Contents();
    var i := 0;
    assert items[..0] == [];
    while i < |items|
      invariant 0 <= i <= |items|
      invariant Fixed(b) && fresh(b) && fresh(b.data) && b.capacity == total
      invariant b.Contents() == room + Concat(items[..i])
    {
      ConcatSplit(items, i);
      Push(b, items[i]);
      i := i + 1;
    }
    assert items[..|items|] == items;
    assert b.Contents()[MAX_HEADER_SIZE..] == Concat(items);
    ListEnd(b, headerPos);
    r := b.data[..b.size];
  }

  lemma ConcatSplit(items: seq<Bytes>, i: nat)
    requires i < |items|
    ensures Concat(items[..i + 1]) == Concat(items[..i]) + items[i]
    ensures |Concat(items[..i])| + |items[i]| <= |Concat(items)|
  {
    assert items[..i + 1] == items[..i] + [items[i]];
    ConcatAppend(items[..i], items[i]);
    ConcatPrefix(items, i + 1);
  }

  lemma {:induction false} ConcatPrefix(items: seq<Bytes>, n: nat)
    requires n <= |items|
    ensures |Concat(items[..n])| <= |Concat(items)|
  {
    if n > 0 {
      assert items[..n][1..] == items[1..][..n - 1];
      ConcatPrefix(items[1..], n - 1);
    }
  }

  lemma ConcatBound(items: seq<Bytes>, i: nat)
    requires i < |items|
    ensures |items[i]| <= |Concat(items)|
  {
    ConcatSplit(items, i);
  }

  /** Nothing to refer to is written as the empty string, whatever stands for it: no reference, no embedded
      bytes or a hash of zeros, without a node. */
  method EncodeLink(l: Link) returns (r: Bytes)
    ensures r == LinkBytes(l)
    ensures l.node == null && (l.data.NullRef? || l.data == Embedded([])) ==> r == [EMPTY_STRING_BYTE]
    ensures l.node != null && !l.data.NullRef? ==> r == EncodeRef(l.data)
  {
    if IsNullLink(l) {
      r := EncodeByteString([]);
    } else {
      match l.data
      case NullRef => r := [];
      case Hashed(hash) => r := EncodeByteString(hash);
      case Embedded(bytes) => r := bytes;
    }
  }

  method EncodeNode(body: Body) returns (r: Bytes)
    requires !body.EmptyBody? ==> MAX_HEADER_SIZE + |Concat(BodyItems(body))| < TWO_64
    ensures r == EncodeBody(body)
  {
    if body.EmptyBody? { return [EMPTY_STRING_BYTE]; }
    ghost var items := BodyItems(body);
    ConcatBound(items, |items| - 1);
    if body.BranchBody? {
      r := EncodeBranch(body);
      return;
    }
    ConcatBound(items, 0);
    var hpPath := HexPrefix.EncodePath(body.path, body.LeafBody?);
    var rlpPath := EncodeByteString(hpPath);
    var second;
    if body.LeafBody? {
      second := EncodeByteString(body.value);
    } else {
      second := EncodeLink(body.child);
    }
    assert items == [rlpPath, second];
    assert Concat(items) == rlpPath + second by {
      assert items[1..] == [second];
      assert Concat([second]) == second + Concat([]);
    }
    r := BuildList([rlpPath, second], MAX_HEADER_SIZE + |rlpPath| + |second|);
  }

  /** All children are encoded first, to know the size to reserve. */
  method EncodeBranch(body: Body) returns (r: Bytes)
    requires body.BranchBody?
    requires MAX_HEADER_SIZE + |Concat(BodyItems(body))| < TWO_64
    ensures r == EncodeList(Concat(BodyItems(body)))
  {
    ghost var items := BodyItems(body);
    var encodings: seq<Bytes> := [];
    var total := MAX_HEADER_SIZE;
    var i := 0;
    while i < |body.children|
      invariant 0 <= i <= |body.children|
      invariant encodings == items[..i]
      invariant total == MAX_HEADER_SIZE + |Concat(encodings)|
    {
      var e := EncodeLink(body.children[i]);
      ConcatAppend(encodings, e);
      encodings := encodings + [e];
      total := total + |e|;
      i := i + 1;
    }
    ConcatBound(items, |body.children|);
    var own := EncodeByteString(OwnBytes(body.own));
    ConcatAppend(encodings, own);
    encodings := encodings + [own];
    assert encodings == items;
    r := BuildList(encodings, total + |own|);
  }
}
