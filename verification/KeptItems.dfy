/** What the list builder makes of a record that may not fit. Buffers never grow and refused appends are
    not noticed, so byte strings that do not fit are dropped; a list is closed around what was kept. The
    source has no meaning where not even the nine bytes of a list header fit. */
module KeptItems {
  import opened Bytes
  import opened Rlp
  import opened ByteBuffer
  import opened RlpEncoder
  import opened RlpDecoder

  // ---------------------------------------------------------------------------
  // What is kept
  // ---------------------------------------------------------------------------

  /** What is kept of a value when `room` bytes are left: the value, or nothing of a byte string, or a list of
      what is kept of its items. No answer where a list cannot be started. */
  function Keep(x: Item, room: nat): (k: Option<seq<Item>>)
    requires room < TWO_64
    ensures k.Some? ==> |EncodeItems(k.value)| <= room
    decreases x, 1
  {
    match x
    case Str(bytes) =>
      OneItem(x);
      Some(if |EncodeBytes(bytes)| <= room then [x] else [])
    case List(items) =>
      if room < MAX_HEADER_SIZE then None
      else
        var kept := KeepAll(items, room - MAX_HEADER_SIZE);
        if kept.None? then None
        else
          OneItem(List(kept.value));
          HeaderPrefix(EMPTY_LIST_BYTE, |EncodeItems(kept.value)|);
          Some([List(kept.value)])
  }

  function KeepAll(items: seq<Item>, room: nat): (k: Option<seq<Item>>)
    requires room < TWO_64
    ensures k.Some? ==> |EncodeItems(k.value)| <= room
    decreases items, 0
  {
    if |items| == 0 then Some([])
    else
      var first := Keep(items[0], room);
      if first.None? then None
      else
        var rest := KeepAll(items[1..], room - |EncodeItems(first.value)|);
        if rest.None? then None
        else
          EncodeAppend(first.value, rest.value);
          Some(first.value + rest.value)
  }

  lemma OneItem(x: Item)
    ensures EncodeItems([x]) == EncodeItem(x)
  {
    assert [x][1..] == [];
  }

  lemma {:induction false} EncodeAppend(a: seq<Item>, b: seq<Item>)
    ensures EncodeItems(a + b) == EncodeItems(a) + EncodeItems(b)
  {
    if |a| == 0 {
      assert a + b == b;
    } else {
      EncodeAppend(a[1..], b);
      EncodeFirst(a + b, a[0], a[1..] + b);
      EncodeFirst(a, a[0], a[1..]);
      Regroup(EncodeItem(a[0]), EncodeItems(a[1..]), EncodeItems(b));
    }
  }

  lemma EncodeFirst(items: seq<Item>, first: Item, rest: seq<Item>)
    requires items == [first] + rest
    ensures EncodeItems(items) == EncodeItem(first) + EncodeItems(rest)
  {
    assert items[1..] == rest;
  }

  lemma Regroup(a: Bytes, b: Bytes, c: Bytes)
    ensures a + (b + c) == a + b + c
  {}

  // ---------------------------------------------------------------------------
  // Tokens
  // ---------------------------------------------------------------------------

  /** The tokens of an encoded value: one for a byte string, one for the header of a list. */
  function Size(x: Item): (n: nat)
    ensures n > 0
    decreases x, 1
  {
    match x
    case Str(_) => 1
    case List(items) => 1 + SizeAll(items)
  }

  function SizeAll(items: seq<Item>): nat
    decreases items, 0
  {
    if |items| == 0 then 0 else Size(items[0]) + SizeAll(items[1..])
  }

  lemma {:induction false} SizeAppend(a: seq<Item>, b: seq<Item>)
    ensures SizeAll(a + b) == SizeAll(a) + SizeAll(b)
  {
    if |a| == 0 {
      assert a + b == b;
    } else {
      SizeAppend(a[1..], b);
      assert (a + b)[1..] == a[1..] + b;
    }
  }

  lemma {:induction false} ItemTokens(x: Item, rest: Bytes)
    requires |EncodeItem(x) + rest| < TWO_64
    ensures Tokens(EncodeItem(x) + rest) == Size(x) + Tokens(rest)
    decreases x, 1
  {
    match x
    case Str(bytes) => BytesToken(bytes, rest);
    case List(items) =>
      ListToken(EncodeItems(items), rest);
      ItemsTokens(items, rest);
  }

  lemma {:induction false} ItemsTokens(items: seq<Item>, rest: Bytes)
    requires |EncodeItems(items) + rest| < TWO_64
    ensures Tokens(EncodeItems(items) + rest) == SizeAll(items) + Tokens(rest)
    decreases items, 0
  {
    if |items| == 0 {
      assert EncodeItems(items) + rest == rest;
    } else {
      var first, others := EncodeItem(items[0]), EncodeItems(items[1..]);
      assert EncodeItems(items) + rest == first + (others + rest);
      ItemTokens(items[0], others + rest);
      ItemsTokens(items[1..], rest);
    }
  }

  /** Whatever is not kept whole loses tokens. */
  lemma {:induction false} KeptLoses(x: Item, room: nat)
    requires room < TWO_64 && Keep(x, room).Some?
    ensures var k := Keep(x, room).value; |k| <= 1 && (k == [x] || SizeAll(k) < Size(x))
    decreases x, 1
  {
    match x
    case Str(_) =>
    case List(items) =>
      KeptAllLoses(items, room - MAX_HEADER_SIZE);
      var kept := KeepAll(items, room - MAX_HEADER_SIZE).value;
      assert SizeAll([List(kept)]) == 1 + SizeAll(kept) by { assert [List(kept)][1..] == []; }
  }

  lemma {:induction false} KeptAllLoses(items: seq<Item>, room: nat)
    requires room < TWO_64 && KeepAll(items, room).Some?
    ensures var k := KeepAll(items, room).value; |k| <= |items| && (k == items || SizeAll(k) < SizeAll(items))
    decreases items, 0
  {
    if |items| > 0 {
      var first := Keep(items[0], room).value;
      var left := room - |EncodeItems(first)|;
      var rest := KeepAll(items[1..], left).value;
      KeptLoses(items[0], room);
      KeptAllLoses(items[1..], left);
      SizeAppend(first, rest);
      assert items == [items[0]] + items[1..];
      if first == [items[0]] { assert SizeAll(first) == Size(items[0]) by { assert first[1..] == []; } }
    }
  }

  // ---------------------------------------------------------------------------
  // Whole records
  // ---------------------------------------------------------------------------

  /** A value is kept whole exactly when the builder's peak fits. */
  lemma {:induction false} KeepsWhole(x: Item, room: nat)
    requires room < TWO_64
    ensures Keep(x, room) == Some([x]) <==> Peak(x) <= room
    decreases x, 1
  {
    match x
    case Str(_) =>
    case List(items) =>
      if room >= MAX_HEADER_SIZE {
        KeepsAllWhole(items, room - MAX_HEADER_SIZE);
        var kept := KeepAll(items, room - MAX_HEADER_SIZE);
        if kept.Some? && [List(kept.value)] == [x] { assert [List(kept.value)][0] == [x][0]; }
      }
  }

  lemma {:induction false} KeepsAllWhole(items: seq<Item>, room: nat)
    requires room < TWO_64
    ensures KeepAll(items, room) == Some(items) <==> PeakAll(items) <= room
    decreases items, 0
  {
    if |items| > 0 {
      KeepsWhole(items[0], room);
      OneItem(items[0]);
      assert items == [items[0]] + items[1..];
      if Keep(items[0], room) == Some([items[0]]) {
        KeepsAllWhole(items[1..], room - |EncodeItem(items[0])|);
      } else if KeepAll(items, room).Some? {
        NotWhole(items, room);
      }
    }
  }

  /** If the first item is not kept whole, neither are all of them. */
  lemma NotWhole(items: seq<Item>, room: nat)
    requires room < TWO_64 && |items| > 0 && KeepAll(items, room).Some? && Keep(items[0], room) != Some([items[0]])
    ensures KeepAll(items, room) != Some(items)
  {
    var first, others := Keep(items[0], room).value, items[1..];
    var left := room - |EncodeItems(first)|;
    var rest := KeepAll(others, left).value;
    KeptLoses(items[0], room);
    KeptAllLoses(others, left);
    SizeAppend(first, rest);
    assert SizeAll(items) == Size(items[0]) + SizeAll(others);
    assert KeepAll(items, room).value == first + rest;
  }

  // ---------------------------------------------------------------------------
  // The builder
  // ---------------------------------------------------------------------------

  /** Sizes that the encoder of byte strings can handle. */
  predicate Encodable(x: Item)
    decreases x, 1
  {
    match x
    case Str(bytes) => |EncodeBytes(bytes)| < TWO_64
    case List(items) => AllEncodable(items)
  }

  predicate AllEncodable(items: seq<Item>)
    decreases items, 0
  {
    |items| == 0 || (Encodable(items[0]) && AllEncodable(items[1..]))
  }

  /** An append that may be refused. */
  method AppendKept(b: Buffer, e: Bytes)
    requires Fixed(b) && |e| > 0
    modifies b, b.data
    ensures Fixed(b) && b.data == old(b.data) && b.capacity == old(b.capacity)
    ensures b.Contents() == old(b.Contents()) + if |e| <= b.capacity - old(b.size) then e else []
  {
    var ok := b.Append(e);
  }

  method EmitKept(b: Buffer, x: Item, ghost room: nat)
    requires Fixed(b) && Encodable(x) && room == b.capacity - b.size && Keep(x, room).Some?
    modifies b, b.data
    ensures Fixed(b) && b.data == old(b.data) && b.capacity == old(b.capacity)
    ensures b.Contents() == old(b.Contents()) + EncodeItems(Keep(x, room).value)
    decreases x, 1
  {
    match x
    case Str(bytes) =>
      OneItem(x);
      var e := EncodeByteString(bytes);
      AppendKept(b, e);
    case List(items) =>
      ghost var before, left := b.Contents(), room - MAX_HEADER_SIZE;
      ghost var kept := KeepAll(items, left).value;
      OneItem(List(kept));
      var headerPos := ListStart(b);
      EmitAllKept(b, items, left);
      assert b.Contents()[..headerPos] == before;
      assert b.Contents()[headerPos + MAX_HEADER_SIZE..] == EncodeItems(kept);
      ListEnd(b, headerPos);
  }

  method EmitAllKept(b: Buffer, items: seq<Item>, ghost room: nat)
    requires Fixed(b) && AllEncodable(items) && room == b.capacity - b.size && KeepAll(items, room).Some?
    modifies b, b.data
    ensures Fixed(b) && b.data == old(b.data) && b.capacity == old(b.capacity)
    ensures b.Contents() == old(b.Contents()) + EncodeItems(KeepAll(items, room).value)
    decreases items, 0
  {
    if |items| > 0 {
      ghost var before, first, left := b.Contents(), Keep(items[0], room).value, room;
      EmitKept(b, items[0], room);
      left := room - |EncodeItems(first)|;
      EmitAllKept(b, items[1..], left);
      EncodeAppend(first, KeepAll(items[1..], left).value);
      Regroup(before, EncodeItems(first), EncodeItems(KeepAll(items[1..], left).value));
    }
  }

  // ---------------------------------------------------------------------------
  // Flat records
  // ---------------------------------------------------------------------------

  lemma KeepFirst(items: seq<Item>, first: Item, rest: seq<Item>, room: nat)
    requires room < TWO_64 && items == [first] + rest && Keep(first, room).Some?
    ensures KeepAll(items, room).Some? <==> KeepAll(rest, room - |EncodeItems(Keep(first, room).value)|).Some?
  {
    assert items[1..] == rest;
  }

  lemma {:induction false} StringsKeep(items: seq<Item>, room: nat)
    requires room < TWO_64 && forall i | 0 <= i < |items| :: items[i].Str?
    ensures KeepAll(items, room).Some?
  {
    if |items| > 0 { StringsKeep(items[1..], room - |EncodeItems(Keep(items[0], room).value)|); }
  }

  lemma {:induction false} KeepAppend(a: seq<Item>, b: seq<Item>, room: nat, left: nat)
    requires room < TWO_64 && KeepAll(a, room).Some? && left == room - |EncodeItems(KeepAll(a, room).value)|
    ensures KeepAll(a + b, room).Some? <==> KeepAll(b, left).Some?
    decreases |a|
  {
    if |a| == 0 {
      assert a + b == b;
    } else {
      var first := Keep(a[0], room).value;
      var inner := room - |EncodeItems(first)|;
      var others := a[1..];
      EncodeAppend(first, KeepAll(others, inner).value);
      KeepAppend(others, b, inner, left);
      var tail := others + b;
      assert a + b == [a[0]] + tail;
      KeepFirst(a + b, a[0], tail, room);
    }
  }

  /** Short strings take at most 33 bytes each. */
  lemma {:induction false} ShortKept(items: seq<Item>, room: nat)
    requires room < TWO_64 && forall i | 0 <= i < |items| :: items[i].Str? && |EncodeItem(items[i])| <= 33
    ensures KeepAll(items, room).Some? && |EncodeItems(KeepAll(items, room).value)| <= 33 * |items|
  {
    if |items| > 0 {
      var first := Keep(items[0], room).value;
      OneItem(items[0]);
      var left := room - |EncodeItems(first)|;
      ShortKept(items[1..], left);
      EncodeAppend(first, KeepAll(items[1..], left).value);
    }
  }

  lemma EmptyListKept(room: nat, rest: seq<Item>)
    requires MAX_HEADER_SIZE <= room < TWO_64 && forall i | 0 <= i < |rest| :: rest[i].Str?
    ensures KeepAll([List([])] + rest, room).Some?
  {
    assert ([List([])] + rest)[1..] == rest;
    StringsKeep(rest, room - |EncodeItems(Keep(List([]), room).value)|);
  }

  lemma OneSize(x: Item)
    ensures SizeAll([x]) == Size(x)
  {
    assert [x][1..] == [];
  }

  lemma {:induction false} StringsSize(items: seq<Item>)
    requires forall i | 0 <= i < |items| :: items[i].Str?
    ensures SizeAll(items) == |items|
  {
    if |items| > 0 { StringsSize(items[1..]); }
  }

  lemma {:induction false} FlatPeak(items: seq<Item>)
    requires forall i | 0 <= i < |items| :: items[i].Str?
    ensures PeakAll(items) == |EncodeItems(items)|
  {
    if |items| > 0 { FlatPeak(items[1..]); }
  }

  lemma {:induction false} AllOfThem(items: seq<Item>)
    requires forall i | 0 <= i < |items| :: Encodable(items[i])
    ensures AllEncodable(items)
  {
    if |items| > 0 { AllOfThem(items[1..]); }
  }

  /** Short strings, a string too long for the room, an empty list and more strings: the long one is dropped
      and the list still starts. */
  lemma LongStringDropped(short: seq<Item>, long: Item, others: seq<Item>, room: nat)
    requires 33 * |short| + MAX_HEADER_SIZE <= room < TWO_64
    requires forall i | 0 <= i < |short| :: short[i].Str? && |EncodeItem(short[i])| <= 33
    requires long.Str? && |EncodeItem(long)| > room
    requires forall i | 0 <= i < |others| :: others[i].Str?
    ensures KeepAll(short + ([long] + ([List([])] + others)), room).Some?
  {
    var rest := [List([])] + others;
    var tail := [long] + rest;
    ShortKept(short, room);
    var left := room - |EncodeItems(KeepAll(short, room).value)|;
    EmptyListKept(left, others);
    KeepFirst(tail, long, rest, left);
    KeepAppend(short, tail, room, left);
  }
}
