/** The encoders: each reserves an arena buffer once and appends into it. */
module RlpEncoder {
  import opened Bytes
  import opened Rlp
  import opened ByteBuffer

  /** An arena buffer with memory: it will neither grow nor move. */
  ghost predicate Fixed(b: Buffer)
    reads b
  {
    b.Valid() && b.arena && b.data != null
  }

  /** A fresh arena buffer with room for exactly `room` bytes. */
  method Reserved(room: nat) returns (b: Buffer)
    requires 0 < room < TWO_64
    ensures fresh(b) && Fixed(b) && fresh(b.data) && b.capacity == room && b.Contents() == []
  {
    b := new Buffer(true);
    var _ := b.Reserve(room);
  }

  /** An append that fits. */
  method Push(b: Buffer, bytes: Bytes)
    requires Fixed(b) && b.size + |bytes| <= b.capacity
    modifies b, b.data
    ensures Fixed(b) && b.data == old(b.data) && b.capacity == old(b.capacity)
    ensures b.Contents() == old(b.Contents()) + bytes
  {
    var ok := b.Append(bytes);
    assert ok;
  }

  method EncodeByteString(data: Bytes) returns (r: Bytes)
    requires |EncodeBytes(data)| < TWO_64  // the reservation does not wrap
    ensures r == EncodeBytes(data)
  {
    HeaderPrefix(EMPTY_STRING_BYTE, |data|);
    if |data| == 1 && data[0] <= SINGLE_BYTE_MAX {
      var b := Reserved(1);
      Push(b, [data[0]]);
      return b.data[..b.size];
    }
    if |data| < SMALL_PREFIX_BARRIER {
      var b := Reserved(1 + |data|);
      Push(b, [EMPTY_STRING_BYTE + |data|]);
      Push(b, data);
      return b.data[..b.size];
    }
    r := EncodeLongString(data);
  }

  method EncodeLongString(data: Bytes) returns (r: Bytes)
    requires |data| >= SMALL_PREFIX_BARRIER && |EncodeBytes(data)| < TWO_64
    ensures r == EncodeBytes(data)
  {
    var lenBytes := ByteLength(|data|);
    LongEncoding(data, ToBigEndian(|data|));
    ByteLengthCounts(|data|);
    var lenBuf := WriteLengthBytes(|data|);
    r := Joined(SHORT_STRING_MAX + lenBytes, lenBuf, data);
  }

  /** A prefix, a length and a payload in a buffer reserved for the three. */
  method Joined(prefix: byte, length: Bytes, data: Bytes) returns (r: Bytes)
    requires 1 + |length| + |data| < TWO_64
    ensures r == [prefix] + length + data
  {
    var b := Reserved(1 + |length| + |data|);
    Push(b, [prefix]);
    Push(b, length);
    Push(b, data);
    r := b.data[..b.size];
  }

  method EncodeU64(value: nat) returns (r: Bytes)
    requires value < TWO_64
    ensures r == EncodeInt(value)
  {
    if value == 0 {
      return [EMPTY_STRING_BYTE];
    }
    if value < 128 {
      assert ToBigEndian(value) == [value];
      return [value];
    }
    ByteLengthCounts(value);
    SizeFitsEightBytes(value);
    var numBytes := ByteLength(value);
    assert value < 256 ==> ToBigEndian(value) == [value];
    assert numBytes == 1 ==> value < 256 by { ToBigEndianLength(value, 1); }
    var b := Reserved(1 + numBytes);
    Push(b, [EMPTY_STRING_BYTE + numBytes]);
    var digits := WriteBigEndian(value, numBytes);
    Push(b, digits);
    r := b.data[..b.size];
  }

  /** Addresses are 20 bytes, so the prefix is a constant. */
  method EncodeAddress(address: Bytes) returns (r: Bytes)
    requires |address| == 20
    ensures r == EncodeBytes(address)
  {
    var b := Reserved(21);
    Push(b, [0x94]);
    Push(b, address);
    r := b.data[..b.size];
  }

  // ---------------------------------------------------------------------------
  // Well-nested lists
  // ---------------------------------------------------------------------------

  /** An RLP value: a byte string or a list of values. */
  datatype Item = Str(bytes: Bytes) | List(items: seq<Item>)

  /** The recursive encoding of Appendix B of the Yellow Paper. */
  function EncodeItem(x: Item): (e: Bytes)
    ensures |e| > 0
    decreases x, 1
  {
    match x
    case Str(bytes) => EncodeBytes(bytes)
    case List(items) => EncodeList(EncodeItems(items))
  }

  function EncodeItems(items: seq<Item>): Bytes
    decreases items, 0
  {
    if |items| == 0 then [] else EncodeItem(items[0]) + EncodeItems(items[1..])
  }

  /** The most room the builder ever uses while it emits an item: open lists hold nine header
      bytes that closing them gives back. */
  function Peak(x: Item): nat
    decreases x, 1
  {
    match x
    case Str(bytes) => |EncodeBytes(bytes)|
    case List(items) => MAX_HEADER_SIZE + PeakAll(items)
  }

  function PeakAll(items: seq<Item>): nat
    decreases items, 0
  {
    if |items| == 0 then 0
    else
      var first, rest := Peak(items[0]), |EncodeItem(items[0])| + PeakAll(items[1..]);
      if first < rest then rest else first
  }

  lemma {:induction false} PeakCoversEncoding(x: Item)
    requires Peak(x) < TWO_64
    ensures |EncodeItem(x)| <= Peak(x)
    decreases x, 1
  {
    match x
    case Str(_) =>
    case List(items) =>
      PeakAllCoversEncoding(items);
      HeaderPrefix(EMPTY_LIST_BYTE, |EncodeItems(items)|);
  }

  lemma {:induction false} PeakAllCoversEncoding(items: seq<Item>)
    requires PeakAll(items) < TWO_64
    ensures |EncodeItems(items)| <= PeakAll(items)
    decreases items, 0
  {
    if |items| > 0 {
      PeakCoversEncoding(items[0]);
      PeakAllCoversEncoding(items[1..]);
    }
  }

  /** Any well-nested use of the builder appends the recursive encoding and touches nothing
      that was already in the buffer. */
  method Emit(b: Buffer, x: Item)
    requires Fixed(b) && b.size + Peak(x) <= b.capacity
    modifies b, b.data
    ensures Fixed(b) && b.data == old(b.data) && b.capacity == old(b.capacity)
    ensures b.Contents() == old(b.Contents()) + EncodeItem(x)
    decreases x, 1
  {
    match x
    case Str(bytes) =>
      var e := EncodeByteString(bytes);
      Push(b, e);
    case List(items) =>
      ghost var before := b.Contents();
      var headerPos := ListStart(b);
      EmitAll(b, items);
      assert b.Contents()[..headerPos] == before;
      assert b.Contents()[headerPos + MAX_HEADER_SIZE..] == EncodeItems(items);
      ListEnd(b, headerPos);
  }

  lemma FirstThenRest(items: seq<Item>)
    requires |items| > 0
    ensures Peak(items[0]) <= PeakAll(items)
    ensures |EncodeItem(items[0])| + PeakAll(items[1..]) <= PeakAll(items)
    ensures EncodeItems(items) == EncodeItem(items[0]) + EncodeItems(items[1..])
  {}

  method EmitAll(b: Buffer, items: seq<Item>)
    requires Fixed(b) && b.size + PeakAll(items) <= b.capacity
    modifies b, b.data
    ensures Fixed(b) && b.data == old(b.data) && b.capacity == old(b.capacity)
    ensures b.Contents() == old(b.Contents()) + EncodeItems(items)
    decreases items, 0
  {
    if |items| > 0 {
      ghost var before, first, rest := b.Contents(), EncodeItem(items[0]), EncodeItems(items[1..]);
      FirstThenRest(items);
      Emit(b, items[0]);
      EmitAll(b, items[1..]);
      assert b.Contents() == before + first + rest == before + (first + rest);
    }
  }
}
