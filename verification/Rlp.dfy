/** The RLP serialisation (Appendix B of the Yellow Paper) as functions on byte strings,
    and the facts that make it a code: every item announces its own length, so a
    concatenation of items splits in exactly one way. */
module Rlp {
  import opened Bytes

  /** Payloads shorter than this carry their length in the prefix byte. */
  const SMALL_PREFIX_BARRIER := 56
  const EMPTY_STRING_BYTE := 0x80
  const EMPTY_LIST_BYTE := 0xC0
  const SINGLE_BYTE_MAX := 0x7F
  const SHORT_STRING_MAX := 0xB7
  const LONG_STRING_MAX := 0xBF
  const SHORT_LIST_MAX := 0xF7

  /** The header of a payload of `len` bytes; `base` is 0x80 for strings and 0xC0 for lists.
      The prefix is cast to a byte as in the encoder; the cast is exact for 64-bit lengths. */
  function Header(base: byte, len: nat): (h: Bytes)
    ensures |h| > 0
  {
    if len < SMALL_PREFIX_BARRIER then [(base + len) % 256]
    else [(base + 55 + |ToBigEndian(len)|) % 256] + ToBigEndian(len)
  }

  function EncodeBytes(b: Bytes): (e: Bytes)
    ensures |e| > 0
  {
    if |b| == 1 && b[0] <= SINGLE_BYTE_MAX then b
    else Header(EMPTY_STRING_BYTE, |b|) + b
  }

  function EncodeList(payload: Bytes): (e: Bytes)
    ensures |e| > 0
  {
    Header(EMPTY_LIST_BYTE, |payload|) + payload
  }

  function EncodeInt(n: nat): (e: Bytes)
    ensures |e| > 0
  {
    EncodeBytes(ToBigEndian(n))
  }

  function Concat(items: seq<Bytes>): Bytes {
    if |items| == 0 then [] else items[0] + Concat(items[1..])
  }

  lemma {:induction false} ConcatAppend(items: seq<Bytes>, last: Bytes)
    ensures Concat(items + [last]) == Concat(items) + last
  {
    if |items| == 0 {
      assert items + [last] == [last];
      assert Concat([last]) == last + Concat([]) == last;
    } else {
      assert (items + [last])[1..] == items[1..] + [last];
      ConcatAppend(items[1..], last);
    }
  }

  /** How many bytes the item at the front of `s` occupies, read off its header;
      0 when the header itself is cut short. */
  function Span(s: Bytes): nat
    requires |s| > 0
  {
    var p := s[0];
    if p <= SINGLE_BYTE_MAX then 1
    else if p <= SHORT_STRING_MAX then 1 + (p - EMPTY_STRING_BYTE)
    else if p <= LONG_STRING_MAX then LongSpan(s, p - SHORT_STRING_MAX)
    else if p <= SHORT_LIST_MAX then 1 + (p - EMPTY_LIST_BYTE)
    else LongSpan(s, p - SHORT_LIST_MAX)
  }

  function LongSpan(s: Bytes, lengthBytes: nat): nat
  {
    if |s| < 1 + lengthBytes then 0
    else 1 + lengthBytes + FromBigEndian(s[1..1 + lengthBytes])
  }

  /** An encoding whose own header tells where it ends, whatever follows it. */
  ghost predicate SelfDelimiting(e: Bytes) {
    |e| > 0 && forall rest: Bytes :: Span(e + rest) == |e|
  }

  /** The prefix byte of a header, without the cast: strings stay below the lists. */
  lemma HeaderPrefix(base: byte, len: nat)
    requires base == EMPTY_STRING_BYTE || base == EMPTY_LIST_BYTE
    requires len < TWO_64
    ensures len < SMALL_PREFIX_BARRIER ==> Header(base, len) == [base + len]
    ensures len >= SMALL_PREFIX_BARRIER ==>
              var digits := ToBigEndian(len);
              && 1 <= |digits| <= 8
              && Header(base, len) == [base + 55 + |digits|] + digits
  {
    SizeFitsEightBytes(len);
  }

  /** A header, by its bytes: one byte for payloads up to 55 bytes, and otherwise the length in big-endian digits
      without a leading zero, after a byte that counts them. */
  ghost predicate IsHeader(base: nat, len: nat, h: Bytes) {
    if len <= 55 then h == [base + len]
    else 2 <= |h| <= 9 && h[0] == base + 55 + (|h| - 1) && h[1] != 0 && FromBigEndian(h[1..]) == len
  }

  lemma HeaderBytes(base: byte, len: nat)
    requires base == EMPTY_STRING_BYTE || base == EMPTY_LIST_BYTE
    requires len < TWO_64
    ensures IsHeader(base, len, Header(base, len))
  {
    HeaderPrefix(base, len);
    if len > 55 {
      var digits := ToBigEndian(len);
      FromToBigEndian(len);
      assert Header(base, len)[1..] == digits;
    }
  }

  /** A string by its bytes: itself if it is one byte below 0x80, and otherwise after a header on 0x80. */
  lemma StringBytes(b: Bytes, header: nat)
    requires |b| < TWO_64 && header == |EncodeBytes(b)| - |b|
    ensures if |b| == 1 && b[0] < 0x80 then EncodeBytes(b) == b
            else EncodeBytes(b)[header..] == b && IsHeader(0x80, |b|, EncodeBytes(b)[..header])
  {
    HeaderBytes(0x80, |b|);
  }

  /** A list by its bytes: its payload after a header on 0xC0. */
  lemma ListBytes(payload: Bytes, header: nat)
    requires |payload| < TWO_64 && header == |EncodeList(payload)| - |payload|
    ensures EncodeList(payload)[header..] == payload && IsHeader(0xC0, |payload|, EncodeList(payload)[..header])
  {
    HeaderBytes(0xC0, |payload|);
  }

  /** A string too long for its length to fit the prefix byte. */
  lemma LongEncoding(d: Bytes, digits: Bytes)
    requires SMALL_PREFIX_BARRIER <= |d| < TWO_64 && digits == ToBigEndian(|d|)
    ensures 1 <= |digits| <= 8 && EncodeBytes(d) == [SHORT_STRING_MAX + |digits|] + digits + d
  {
    HeaderPrefix(EMPTY_STRING_BYTE, |d|);
  }

  lemma LongHeaderSpan(s: Bytes, digits: Bytes, len: nat)
    requires |s| >= 1 + |digits| && s[1..1 + |digits|] == digits
    requires digits == ToBigEndian(len)
    ensures LongSpan(s, |digits|) == 1 + |digits| + len
  {
    FromToBigEndian(len);
  }

  lemma HeaderSpan(base: byte, payload: Bytes, rest: Bytes)
    requires base == EMPTY_STRING_BYTE || base == EMPTY_LIST_BYTE
    requires |payload| < TWO_64
    ensures Span(Header(base, |payload|) + payload + rest) == |Header(base, |payload|)| + |payload|
    ensures Header(base, |payload|)[0] >= base
    ensures base == EMPTY_STRING_BYTE ==> Header(base, |payload|)[0] < EMPTY_LIST_BYTE
  {
    var len := |payload|;
    var header := Header(base, len);
    var s := header + payload + rest;
    HeaderPrefix(base, len);
    assert s[0] == header[0];
    if len >= SMALL_PREFIX_BARRIER {
      var digits := ToBigEndian(len);
      assert s[1..1 + |digits|] == digits;
      LongHeaderSpan(s, digits, len);
    }
  }

  lemma BytesSelfDelimiting(b: Bytes)
    requires |b| < TWO_64
    ensures SelfDelimiting(EncodeBytes(b))
    ensures EncodeBytes(b)[0] < EMPTY_LIST_BYTE
  {
    if !(|b| == 1 && b[0] <= SINGLE_BYTE_MAX) {
      forall rest: Bytes ensures Span(EncodeBytes(b) + rest) == |EncodeBytes(b)| {
        HeaderSpan(EMPTY_STRING_BYTE, b, rest);
      }
      HeaderSpan(EMPTY_STRING_BYTE, b, []);
    }
  }

  lemma ListSelfDelimiting(payload: Bytes)
    requires |payload| < TWO_64
    ensures SelfDelimiting(EncodeList(payload))
    ensures EncodeList(payload)[0] >= EMPTY_LIST_BYTE
  {
    forall rest: Bytes ensures Span(EncodeList(payload) + rest) == |EncodeList(payload)| {
      HeaderSpan(EMPTY_LIST_BYTE, payload, rest);
    }
    HeaderSpan(EMPTY_LIST_BYTE, payload, []);
  }

  /** Two items at the front of the same bytes are the same item. */
  lemma PrefixFree(x: Bytes, s: Bytes, y: Bytes, t: Bytes)
    requires SelfDelimiting(x) && SelfDelimiting(y)
    requires x + s == y + t
    ensures x == y && s == t
  {
    assert Span(x + s) == |x| && Span(y + t) == |y|;
    assert x == (x + s)[..|x|] && y == (y + t)[..|y|];
    assert s == (x + s)[|x|..] && t == (y + t)[|y|..];
  }

  /** A payload splits into items in exactly one way. */
  lemma {:induction false} UniqueSplit(xs: seq<Bytes>, ys: seq<Bytes>)
    requires forall i | 0 <= i < |xs| :: SelfDelimiting(xs[i])
    requires forall i | 0 <= i < |ys| :: SelfDelimiting(ys[i])
    requires Concat(xs) == Concat(ys)
    ensures xs == ys
  {
    if |xs| > 0 && |ys| > 0 {
      PrefixFree(xs[0], Concat(xs[1..]), ys[0], Concat(ys[1..]));
      UniqueSplit(xs[1..], ys[1..]);
      assert xs == [xs[0]] + xs[1..] && ys == [ys[0]] + ys[1..];
    }
  }

  lemma EncodeBytesInjective(a: Bytes, b: Bytes)
    requires |a| < TWO_64 && |b| < TWO_64
    requires EncodeBytes(a) == EncodeBytes(b)
    ensures a == b
  {
    var single := (x: Bytes) => |x| == 1 && x[0] <= SINGLE_BYTE_MAX;
    if !single(a) { HeaderSpan(EMPTY_STRING_BYTE, a, []); }
    if !single(b) { HeaderSpan(EMPTY_STRING_BYTE, b, []); }
    if !single(a) && !single(b) {
      HeaderInjective(EMPTY_STRING_BYTE, a, b);
    }
  }

  lemma EncodeListInjective(a: Bytes, b: Bytes)
    requires |a| < TWO_64 && |b| < TWO_64
    requires EncodeList(a) == EncodeList(b)
    ensures a == b
  {
    HeaderInjective(EMPTY_LIST_BYTE, a, b);
  }

  lemma HeaderInjective(base: byte, a: Bytes, b: Bytes)
    requires base == EMPTY_STRING_BYTE || base == EMPTY_LIST_BYTE
    requires |a| < TWO_64 && |b| < TWO_64
    requires Header(base, |a|) + a == Header(base, |b|) + b
    ensures a == b
  {
    HeaderPrefix(base, |a|);
    HeaderPrefix(base, |b|);
    var s := Header(base, |a|) + a;
    assert s == Header(base, |b|) + b;
    assert s[0] == Header(base, |a|)[0] == Header(base, |b|)[0];
    assert |Header(base, |a|)| == |Header(base, |b|)|;
    assert a == s[|Header(base, |a|)|..];
    assert b == s[|Header(base, |b|)|..];
  }
}
