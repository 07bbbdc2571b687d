/** Recursive Length Prefix, Appendix B of the Ethereum Yellow Paper, and the encoder of RLP.swift. */
module Rlp {
  import opened Arith
  import opened Digits
  import opened ByteStrings
  import opened Options

  /** Byte strings and lists, nested at will. */
  datatype Item = Bytes(bytes: seq<u8>) | List(items: seq<Item>)

  // ---- the encoding ----

  /** Sizes are 64-bit numbers. */
  const LIMIT := TWO64

  lemma SizeBytes(size: nat)
    requires size < LIMIT
    ensures |Serialize(size)| <= 8
  {
    EightBytes();
    PaddedSerialization(size, 8);
  }

  lemma EightBytes()
    ensures Pow(256, 8) == TWO64
  {
    assert Pow(256, 2) == 65536 by { assert Pow(256, 1) == 256; }
    PowAdd(256, 2, 2);
    PowAdd(256, 4, 4);
  }

  /** The prefix of a payload: a tag with its size, or with the size of its size, which then follows. */
  function Header(size: nat, small: u8, large: u8): seq<u8>
    requires small <= 0xc0 && large <= 0xf7
  {
    if size < 56 then [small + size]
    else if size >= LIMIT then []
    else
      SizeBytes(size);
      [large + |Serialize(size)|] + Serialize(size)
  }

  function Encode(x: Item): seq<u8>
    decreases x, 0
  {
    match x
    case Bytes(b) => if |b| == 1 && b[0] <= 0x7f then b else Header(|b|, 0x80, 0xb7) + b
    case List(items) => Header(|EncodeAll(items)|, 0xc0, 0xf7) + EncodeAll(items)
  }

  function EncodeAll(items: seq<Item>): seq<u8>
    decreases items, |items|
  {
    if |items| == 0 then [] else Encode(items[0]) + EncodeAll(items[1..])
  }

  /** Every payload has a 64-bit size. */
  predicate Fits(x: Item)
  {
    match x
    case Bytes(b) => |b| < LIMIT
    case List(items) => (forall i :: 0 <= i < |items| ==> Fits(items[i])) && |EncodeAll(items)| < LIMIT
  }

  /** The bytes after the tag, in a form that does not say how it is computed. */
  ghost predicate Tagged(e: seq<u8>, tag: nat, payload: seq<u8>)
  {
    if |payload| < 56 then e == [tag + |payload|] + payload
    else
      && |e| > |payload| + 1 && e[|e| - |payload|..] == payload
      && var size := e[1..|e| - |payload|];
         Number(size) == |payload| && size[0] != 0 && e[0] == tag + 55 + |size|
  }

  /** A byte below 0x80 stands for itself; other strings are tagged from 0x80 on, lists from 0xc0 on. */
  lemma EncodeExact(x: Item)
    requires Fits(x)
    ensures match x
      case Bytes(b) => if |b| == 1 && b[0] < 0x80 then Encode(x) == b else Tagged(Encode(x), 0x80, b)
      case List(items) => Tagged(Encode(x), 0xc0, EncodeAll(items))
  {
    hide EncodeAll;
    match x
    case Bytes(b) => HeaderTags(b, 0x80, 0xb7);
    case List(items) => HeaderTags(EncodeAll(items), 0xc0, 0xf7);
  }

  lemma HeaderTags(payload: seq<u8>, small: u8, large: u8)
    requires small <= 0xc0 && large == small + 55 && |payload| < LIMIT
    ensures Tagged(Header(|payload|, small, large) + payload, small, payload)
  {
    var n := |payload|;
    if n >= 56 {
      SizeBytes(n);
      SerializeLeads(n);
      var e := Header(n, small, large) + payload;
      assert e[1..|e| - n] == Serialize(n) && e[|e| - n..] == payload;
    }
  }

  /** The items of a list follow each other. */
  lemma {:induction false} EncodeAllInOrder(items: seq<Item>, more: seq<Item>)
    ensures EncodeAll(items + more) == EncodeAll(items) + EncodeAll(more)
    ensures |items| == 1 ==> EncodeAll(items) == Encode(items[0])
  {
    if |items| == 0 {
      assert items + more == more;
    } else {
      assert (items + more)[1..] == items[1..] + more;
      EncodeAllInOrder(items[1..], more);
    }
  }

  // ---- decoding ----

  /** A tag and size in front of a payload, and what follows it. */
  datatype Payload = Payload(isList: bool, bytes: seq<u8>, rest: seq<u8>)

  /** Reads the size after a long tag: it must be minimal and at least 56. */
  function LongSize(s: seq<u8>, n: nat): (r: Option<nat>)
    ensures r.Some? ==> 1 + n <= |s| && 56 <= r.value
  {
    if |s| < 1 + n || n == 0 || s[1] == 0 || Number(s[1..1 + n]) < 56 then None else Some(Number(s[1..1 + n]))
  }

  /** Splits off the payload after a header of the given length. */
  function Split(s: seq<u8>, isList: bool, header: nat, size: nat): (r: Option<Payload>)
    ensures r.Some? ==> |r.value.bytes| + |r.value.rest| + header == |s|
  {
    if header + size <= |s| then Some(Payload(isList, s[header..header + size], s[header + size..])) else None
  }

  /** The first payload of a byte string. A single byte below 0x80 must not have a tag. */
  function FirstPayload(s: seq<u8>): (r: Option<Payload>)
    ensures r.Some? ==> |r.value.rest| < |s| && (r.value.isList ==> |r.value.bytes| < |s|)
  {
    if |s| == 0 then None
    else if s[0] < 0x80 then Some(Payload(false, s[..1], s[1..]))
    else if s[0] < 0xb8 then
      var r := Split(s, false, 1, s[0] - 0x80);
      if r.Some? && |r.value.bytes| == 1 && r.value.bytes[0] < 0x80 then None else r
    else if s[0] < 0xc0 then
      var n := s[0] - 0xb7;
      var size := LongSize(s, n);
      if size.Some? then Split(s, false, 1 + n, size.value) else None
    else if s[0] < 0xf8 then Split(s, true, 1, s[0] - 0xc0)
    else
      var n := s[0] - 0xf7;
      var size := LongSize(s, n);
      if size.Some? then Split(s, true, 1 + n, size.value) else None
  }

  /** An item and the bytes after it. */
  datatype Decoded = Decoded(item: Item, rest: seq<u8>)

  function Decode(s: seq<u8>): (r: Option<Decoded>)
    ensures r.Some? ==> |r.value.rest| < |s|
    decreases |s|, 0
  {
    var p := FirstPayload(s);
    if p.None? then None
    else if !p.value.isList then Some(Decoded(Bytes(p.value.bytes), p.value.rest))
    else
      var items := DecodeAll(p.value.bytes);
      if items.Some? then Some(Decoded(List(items.value), p.value.rest)) else None
  }

  function DecodeAll(s: seq<u8>): Option<seq<Item>>
    decreases |s|, 1
  {
    if |s| == 0 then Some([]) else
    var first := Decode(s);
    if first.None? then None else
    var others := DecodeAll(first.value.rest);
    if others.Some? then Some([first.value.item] + others.value) else None
  }

  // ---- decoding undoes encoding ----

  lemma SplitOf(h: seq<u8>, isList: bool, payload: seq<u8>, rest: seq<u8>)
    ensures Split(h + payload + rest, isList, |h|, |payload|) == Some(Payload(isList, payload, rest))
  {
    var s, n := h + payload + rest, |h|;
    assert s[n..n + |payload|] == payload && s[n + |payload|..] == rest;
  }

  lemma LongHeaderRead(size: nat, small: u8, large: u8, rest: seq<u8>)
    requires 56 <= size < LIMIT && small <= 0xc0 && large <= 0xf7
    ensures var h := Header(size, small, large);
      var n := |h| - 1;
      1 <= n <= 8 && h[0] == large + n && LongSize(h + rest, n) == Some(size)
  {
    hide BigEndian, Serialize;
    SizeBytes(size);
    SerializeLeads(size);
    var n, s := |Serialize(size)|, Header(size, small, large) + rest;
    assert s[1..1 + n] == Serialize(size);
    assert s[1] == Serialize(size)[0];
  }

  /** A header with its payload is read back. */
  lemma HeaderRoundTrip(isList: bool, payload: seq<u8>, rest: seq<u8>)
    requires |payload| < LIMIT && (isList || |payload| != 1 || payload[0] >= 0x80)
    ensures var h := if isList then Header(|payload|, 0xc0, 0xf7) else Header(|payload|, 0x80, 0xb7);
      FirstPayload(h + payload + rest) == Some(Payload(isList, payload, rest))
  {
    hide BigEndian, Serialize, Header, LongSize, Split;
    var size, tag := |payload|, if isList then 0xc0 else 0x80;
    var h := Header(size, tag, tag + 0x37);
    var s := h + payload + rest;
    if size < 56 { ShortHeaders(); } else { LongHeaderRead(size, tag, tag + 0x37, payload + rest); }
    assert s == h + (payload + rest);
    SplitOf(h, isList, payload, rest);
  }

  /** Decoding the encoding of an item, whatever follows it, gives the item and what follows. */
  lemma {:induction false} DecodeOfEncode(x: Item, rest: seq<u8>)
    requires Fits(x)
    ensures Encode(x) != [] && Decode(Encode(x) + rest) == Some(Decoded(x, rest))
    decreases x, 0
  {
    match x {
      case Bytes(b) =>
        if |b| == 1 && b[0] <= 0x7f {
          assert (b + rest)[..1] == b && (b + rest)[1..] == rest;
        } else {
          HeaderRoundTrip(false, b, rest);
        }
      case List(items) =>
        DecodeOfEncodeAll(items);
        HeaderRoundTrip(true, EncodeAll(items), rest);
    }
  }

  lemma {:induction false} DecodeOfEncodeAll(items: seq<Item>)
    requires forall i :: 0 <= i < |items| ==> Fits(items[i])
    ensures DecodeAll(EncodeAll(items)) == Some(items)
    decreases items, |items|
  {
    hide Fits, Decode, Encode;
    if |items| > 0 {
      DecodeOfEncode(items[0], EncodeAll(items[1..]));
      DecodeOfEncodeAll(items[1..]);
      assert items == [items[0]] + items[1..];
    }
  }

  /** No encoding is a prefix of another. */
  lemma PrefixFree(x: Item, y: Item, more: seq<u8>)
    requires Fits(x) && Fits(y) && Encode(y) == Encode(x) + more
    ensures x == y && more == []
  {
    DecodeOfEncode(x, more);
    DecodeOfEncode(y, []);
    assert Encode(y) + [] == Encode(y);
  }

  // ---- only encodings are decoded ----

  lemma SplitExact(s: seq<u8>, isList: bool, header: nat, size: nat)
    requires Split(s, isList, header, size).Some?
    ensures var p := Split(s, isList, header, size).value;
      p.isList == isList && |p.bytes| == size && s == s[..header] + p.bytes + p.rest
  {}

  lemma HeaderExact(s: seq<u8>)
    requires FirstPayload(s).Some? && |s| < LIMIT
    ensures var p := FirstPayload(s).value;
      s == (if p.isList then Header(|p.bytes|, 0xc0, 0xf7)
            else if |p.bytes| == 1 && p.bytes[0] <= 0x7f then [] else Header(|p.bytes|, 0x80, 0xb7)) + p.bytes + p.rest
  {
    hide BigEndian, Serialize, Header, LongSize, Number, Split;
    ShortHeaders();
    var isList := s[0] >= 0xc0;
    if s[0] < 0x80 {
      assert s == [] + s[..1] + s[1..];
    } else if s[0] < 0xb8 || 0xc0 <= s[0] < 0xf8 {
      SplitExact(s, isList, 1, s[0] - if isList then 0xc0 else 0x80);
      assert s[..1] == [s[0]];
    } else {
      var n := if s[0] < 0xc0 then s[0] - 0xb7 else s[0] - 0xf7;
      SplitExact(s, isList, 1 + n, LongSize(s, n).value);
      LongHeader(s, n, isList);
      assert s[..1 + n] == [s[0]] + s[1..1 + n];
    }
  }

  lemma ShortHeaders()
    ensures forall size: nat, small: u8, large: u8 :: size < 56 && small <= 0xc0 && large <= 0xf7 ==>
      Header(size, small, large) == [small + size]
  {}

  lemma LongHeader(s: seq<u8>, n: nat, isList: bool)
    requires LongSize(s, n).Some? && LongSize(s, n).value < LIMIT && s[0] == (if isList then 0xf7 else 0xb7) + n
    ensures var size := LongSize(s, n).value;
      [s[0]] + s[1..1 + n] == if isList then Header(size, 0xc0, 0xf7) else Header(size, 0x80, 0xb7)
  {
    hide BigEndian;
    assert s[1..1 + n][0] == s[1];
    SerializeNumber(s[1..1 + n]);
  }

  /** Whatever is decoded was the encoding of the item, with the rest after it. */
  lemma {:induction false} EncodeOfDecode(s: seq<u8>)
    requires Decode(s).Some? && |s| < LIMIT
    ensures Fits(Decode(s).value.item) && s == Encode(Decode(s).value.item) + Decode(s).value.rest
    decreases |s|, 0
  {
    HeaderExact(s);
    var p := FirstPayload(s).value;
    if p.isList { EncodeOfDecodeAll(p.bytes); }
  }

  lemma {:induction false} EncodeOfDecodeAll(s: seq<u8>)
    requires DecodeAll(s).Some? && |s| < LIMIT
    ensures (forall i :: 0 <= i < |DecodeAll(s).value| ==> Fits(DecodeAll(s).value[i]))
      && s == EncodeAll(DecodeAll(s).value)
    decreases |s|, 1
  {
    if |s| > 0 {
      EncodeOfDecode(s);
      EncodeOfDecodeAll(Decode(s).value.rest);
    }
  }
}
