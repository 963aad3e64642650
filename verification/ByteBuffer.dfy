/** Growable byte buffers and the RLP list builder that works inside them: it reserves room for
    the largest header, lets items be appended, then writes the real header and moves the payload
    left over the unused room. Arena-backed buffers allocate once and never grow. */
module ByteBuffer {
  import opened Bytes
  import opened Rlp
  import opened Bits

  /** Largest RLP header: one prefix byte and eight length bytes. */
  const MAX_HEADER_SIZE := 9
  const MIN_CAPACITY := 32

  /** `memcpy` into an array at `at`. */
  method CopyBytes(a: array<byte>, at: nat, bytes: Bytes)
    requires at + |bytes| <= a.Length
    modifies a
    ensures a[..] == old(a[..])[..at] + bytes + old(a[..])[at + |bytes|..]
  {
    forall i | 0 <= i < |bytes| { a[at + i] := bytes[i]; }
  }

  class Buffer {
    var data: array?<byte>
    var size: nat
    var capacity: nat
    const arena: bool

    ghost predicate Valid()
      reads this
    {
      && size <= capacity < TWO_64
      && capacity == if data == null then 0 else data.Length
    }

    ghost function Contents(): (s: Bytes)
      requires Valid()
      reads this, data
      ensures |s| == size
    {
      if data == null then [] else data[..size]
    }

    constructor (arena: bool)
      ensures Valid() && Contents() == [] && data == null && this.arena == arena
    {
      data, size, capacity := null, 0, 0;
      this.arena := arena;
    }

    /** Can `wanted` bytes be held? An arena buffer that has memory cannot get more. */
    ghost predicate CanHold(wanted: nat)
      reads this
    {
      wanted <= capacity || !arena || data == null
    }

    method Reserve(wanted: nat) returns (ok: bool)
      requires Valid() && wanted < TWO_64
      requires arena || wanted <= TWO_64 / 2  // the doubling below stays within 64 bits
      modifies this
      ensures Valid() && Contents() == old(Contents())
      ensures ok == old(CanHold(wanted))
      ensures ok ==> wanted <= capacity
      ensures !ok ==> capacity == old(capacity)
      ensures data == old(data) || (data != null && fresh(data))
      ensures old(data) != null && (arena || wanted <= old(capacity)) ==> data == old(data) && capacity == old(capacity)
      ensures old(data) == null && arena && wanted > 0 ==> data != null && capacity == wanted
    {
      if wanted <= capacity { return true; }
      var room := wanted;
      if arena {
        if data != null { return false; }
      } else {
        room := if capacity == 0 then MIN_CAPACITY else capacity;
        while room < wanted
          invariant 0 < room < TWO_64
          decreases wanted - room
        {
          room := room * 2;
        }
      }
      var fresh_data := new byte[room](_ => 0);
      if data != null {
        forall i | 0 <= i < size { fresh_data[i] := data[i]; }
        assert fresh_data[..size] == data[..size];
      } else {
        assert fresh_data[..size] == [];
      }
      data, capacity := fresh_data, room;
      return true;
    }

    method Append(bytes: Bytes) returns (ok: bool)
      requires Valid()
      requires arena || size + |bytes| <= TWO_64 / 2
      modifies this, data
      ensures Valid()
      ensures ok == (|bytes| == 0 || (old(size) + |bytes| < TWO_64 && old(CanHold(size + |bytes|))))
      ensures Contents() == if ok then old(Contents()) + bytes else old(Contents())
      ensures data == old(data) || fresh(data)
      ensures old(data) != null && arena ==> data == old(data) && capacity == old(capacity)
    {
      if |bytes| == 0 { return true; }
      if size + |bytes| >= TWO_64 { return false; }  // the 64-bit sum wraps
      ok := Reserve(size + |bytes|);
      if !ok { return; }
      CopyBytes(data, size, bytes);
      size := size + |bytes|;
    }
  }

  // ---------------------------------------------------------------------------
  // Lengths in the header
  // ---------------------------------------------------------------------------

  lemma BitLengthOfByteShift(n: nat)
    requires n >= 256
    ensures BitLength(n) == 8 + BitLength(n / 256)
  {
    var n1 := n / 2;
    var n2 := n1 / 2;
    var n3 := n2 / 2;
    var n4 := n3 / 2;
    var n5 := n4 / 2;
    var n6 := n5 / 2;
    var n7 := n6 / 2;
    assert BitLength(n) == 1 + BitLength(n1) == 2 + BitLength(n2) == 3 + BitLength(n3);
    assert BitLength(n3) == 1 + BitLength(n4) == 2 + BitLength(n5) == 3 + BitLength(n6);
    assert BitLength(n6) == 1 + BitLength(n7) == 2 + BitLength(n7 / 2);
    assert n7 / 2 == n / 256;
  }

  /** Bytes needed for a number, from its bit length. */
  function ByteLength(n: nat): nat { (BitLength(n) + 7) / 8 }

  lemma {:induction false} ByteLengthCounts(n: nat)
    ensures ByteLength(n) == |ToBigEndian(n)|
  {
    if n >= 256 {
      BitLengthOfByteShift(n);
      ByteLengthCounts(n / 256);
    } else if n > 0 {
      assert ToBigEndian(n) == [n];
      BitLengthBound(n, 8);
    }
  }

  /** `n >> (8 * i)`. */
  function ShiftBytes(n: nat, i: nat): nat {
    if i == 0 then n else ShiftBytes(n / 256, i - 1)
  }

  lemma {:induction false} ShiftStep(n: nat, i: nat)
    ensures ShiftBytes(n, i + 1) == ShiftBytes(n, i) / 256
    ensures |ToBigEndian(ShiftBytes(n, i))| == if i < |ToBigEndian(n)| then |ToBigEndian(n)| - i else 0
  {
    if i > 0 { ShiftStep(n / 256, i - 1); }
  }

  /** Bytes from the most significant one down, as the encoder's shift loops write them. */
  method WriteBigEndian(n: nat, count: nat) returns (buf: Bytes)
    requires count == |ToBigEndian(n)|
    ensures buf == ToBigEndian(n)
  {
    buf := [];
    var i := count;
    ShiftStep(n, count);
    while i > 0
      invariant 0 <= i <= count
      invariant buf == ToBigEndian(ShiftBytes(n, i))
    {
      i := i - 1;
      ShiftStep(n, i);
      buf := buf + [ShiftBytes(n, i) % 256];
    }
  }

  method WriteLengthBytes(len: nat) returns (buf: Bytes)
    ensures buf == ToBigEndian(len)
  {
    ByteLengthCounts(len);
    buf := WriteBigEndian(len, ByteLength(len));
  }

  // ---------------------------------------------------------------------------
  // List builder
  // ---------------------------------------------------------------------------

  /** Remember where the list begins and append room for the largest header. */
  method ListStart(output: Buffer) returns (headerPos: nat)
    requires output.Valid()
    requires output.arena || output.size + MAX_HEADER_SIZE <= TWO_64 / 2
    modifies output, output.data
    ensures output.Valid() && headerPos == old(output.size)
    ensures output.data == old(output.data) || fresh(output.data)
    ensures old(output.data) != null && output.arena
            ==> output.data == old(output.data) && output.capacity == old(output.capacity)
    ensures var fits := old(output.size) + MAX_HEADER_SIZE < TWO_64 && old(output.CanHold(output.size + MAX_HEADER_SIZE));
            output.Contents() == old(output.Contents()) + if fits then seq(MAX_HEADER_SIZE, i => 0) else []
  {
    headerPos := output.size;
    var placeholder := seq(MAX_HEADER_SIZE, i => 0);
    var _ := output.Append(placeholder);
  }

  /** Write the real header where the room was left and close the gap. Bytes before the list are
      untouched; the list becomes the RLP list of everything appended since it was started. */
  method ListEnd(output: Buffer, headerPos: nat)
    requires output.Valid()
    requires headerPos + MAX_HEADER_SIZE <= output.size
    modifies output, output.data
    ensures output.Valid() && output.data == old(output.data) && output.capacity == old(output.capacity)
    ensures var before := old(output.Contents());
            output.Contents() == before[..headerPos] + EncodeList(before[headerPos + MAX_HEADER_SIZE..])
  {
    var payloadLen := output.size - headerPos - MAX_HEADER_SIZE;
    ghost var before := output.Contents();
    ghost var payload := before[headerPos + MAX_HEADER_SIZE..];
    HeaderPrefix(EMPTY_LIST_BYTE, payloadLen);
    var header: Bytes;
    if payloadLen < SMALL_PREFIX_BARRIER {
      header := [EMPTY_LIST_BYTE + payloadLen];
    } else {
      var lengthBytes := WriteLengthBytes(payloadLen);
      header := [SHORT_LIST_MAX + |lengthBytes|] + lengthBytes;
    }
    assert header == Header(EMPTY_LIST_BYTE, payloadLen);
    MoveIntoPlace(output, headerPos, header, payloadLen);
  }

  /** Write the header at `pos` and move the `count` bytes that start at `pos + MAX_HEADER_SIZE` down
      behind it. */
  method Splice(data: array<byte>, pos: nat, header: Bytes, count: nat)
    requires |header| <= MAX_HEADER_SIZE && pos + MAX_HEADER_SIZE + count <= data.Length
    modifies data
    ensures forall i | 0 <= i < pos :: data[i] == old(data[i])
    ensures forall i | pos <= i < pos + |header| :: data[i] == header[i - pos]
    ensures forall i | pos + |header| <= i < pos + |header| + count ::
              data[i] == old(data[i + (MAX_HEADER_SIZE - |header|)])
  {
    forall i | 0 <= i < |header| { data[pos + i] := header[i]; }
    if |header| < MAX_HEADER_SIZE {
      forall i | pos + |header| <= i < pos + |header| + count { data[i] := data[i + (MAX_HEADER_SIZE - |header|)]; }
    }
  }

  /** Prefix, header and payload read off position by position. */
  lemma Spliced(before: Bytes, after: Bytes, pos: nat, header: Bytes, count: nat)
    requires |header| <= MAX_HEADER_SIZE && |before| == pos + MAX_HEADER_SIZE + count
    requires |after| == pos + |header| + count
    requires forall i | 0 <= i < pos :: after[i] == before[i]
    requires forall i | pos <= i < pos + |header| :: after[i] == header[i - pos]
    requires forall i | pos + |header| <= i < |after| :: after[i] == before[i + (MAX_HEADER_SIZE - |header|)]
    ensures after == before[..pos] + header + before[pos + MAX_HEADER_SIZE..]
  {
    assert after[..pos] == before[..pos];
    assert after[pos..pos + |header|] == header;
    assert after[pos + |header|..] == before[pos + MAX_HEADER_SIZE..];
    assert after == after[..pos] + after[pos..pos + |header|] + after[pos + |header|..];
  }

  /** The copy of the header and the left move of the payload over the unused room. */
  method MoveIntoPlace(output: Buffer, headerPos: nat, header: Bytes, payloadLen: nat)
    requires output.Valid() && |header| <= MAX_HEADER_SIZE
    requires headerPos + MAX_HEADER_SIZE + payloadLen == output.size
    modifies output, output.data
    ensures output.Valid() && output.data == old(output.data) && output.capacity == old(output.capacity)
    ensures var before := old(output.Contents());
            output.Contents() == before[..headerPos] + header + before[headerPos + MAX_HEADER_SIZE..]
  {
    ghost var before := output.Contents();
    Splice(output.data, headerPos, header, payloadLen);
    output.size := output.size - (MAX_HEADER_SIZE - |header|);
    Spliced(before, output.Contents(), headerPos, header, payloadLen);
  }
}
