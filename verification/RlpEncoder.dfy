/** RLP.swift: the encoder, on the kinds of element it accepts. */
module RlpEncoder {
  import opened Arith
  import opened ByteStrings
  import opened Options
  import opened Rlp

  /** Strings as UTF-8, numbers of any width, data, and lists. */
  datatype Element = Str(utf8: seq<u8>) | Num(i: int) | Data(bytes: seq<u8>) | Elements(elements: seq<Element>)

  /** The item an element stands for: numbers are their bytes, and negative ones have none. */
  function ToItem(e: Element): Option<Item>
    decreases e, 0
  {
    match e
    case Str(b) => Some(Bytes(b))
    case Data(b) => Some(Bytes(b))
    case Num(i) => if i < 0 then None else Some(Bytes(Serialize(i)))
    case Elements(es) => var items := ToItems(es); if items.Some? then Some(List(items.value)) else None
  }

  function ToItems(es: seq<Element>): Option<seq<Item>>
    decreases es, |es|
  {
    if |es| == 0 then Some([]) else
    var first, others := ToItem(es[0]), ToItems(es[1..]);
    if first.Some? && others.Some? then Some([first.value] + others.value) else None
  }

  lemma NextByte(i: nat)
    requires i > 0
    ensures Serialize(i) == Serialize(i / 0x100) + [i % 0x100]
  {}

  /** Dividing by 256 first changes no later quotient. */
  lemma DivTwice(i: nat)
    ensures i / 0x100 / 0x100 == i / 0x1_0000
    ensures i / 0x100 / 0x1_0000 == i / 0x100_0000
    ensures i / 0x100 / 0x100_0000 == i / 0x1_0000_0000
    ensures i / 0x100 / 0x1_0000_0000 == i / 0x100_0000_0000
    ensures i / 0x100 / 0x100_0000_0000 == i / 0x1_0000_0000_0000
    ensures i / 0x100 / 0x1_0000_0000_0000 == i / 0x100_0000_0000_0000
  {
    Nested(i, 0x100, 0x1_0000);
    Nested(i, 0x1_0000, 0x100_0000);
    Nested(i, 0x100_0000, 0x1_0000_0000);
    Nested(i, 0x1_0000_0000, 0x100_0000_0000);
    Nested(i, 0x100_0000_0000, 0x1_0000_0000_0000);
    Nested(i, 0x1_0000_0000_0000, 0x100_0000_0000_0000);
  }

  lemma Nested(i: nat, c: nat, d: nat)
    requires c > 0 && d == 0x100 * c
    ensures i / 0x100 / c == i / d
  {
    var q, r := i / 0x100, i % 0x100;
    var a, b := q / c, q % c;
    DivMod(q, c);
    assert i == a * c * 0x100 + b * 0x100 + r;
    assert a * c * 0x100 == a * d;
    DivModUnique(i, d, a, b * 0x100 + r);
  }

  lemma OneByte(i: nat)
    requires 0 < i < 0x100
    ensures Serialize(i) == [i]
  {
    NextByte(i);
    assert Serialize(0) == [];
  }

  lemma TwoBytes(i: nat)
    requires 0x100 <= i < 0x1_0000
    ensures Serialize(i) == [i / 0x100, i % 0x100]
  {
    hide Serialize;
    NextByte(i);
    OneByte(i / 0x100);
  }

  lemma ThreeBytes(i: nat)
    requires 0x1_0000 <= i < 0x100_0000
    ensures Serialize(i) == [i / 0x1_0000, i / 0x100 % 0x100, i % 0x100]
  {
    hide Serialize;
    NextByte(i);
    TwoBytes(i / 0x100);
  }

  lemma FourBytes(i: nat)
    requires 0x100_0000 <= i < 0x1_0000_0000
    ensures Serialize(i) == [i / 0x100_0000, i / 0x1_0000 % 0x100, i / 0x100 % 0x100, i % 0x100]
  {
    hide Serialize;
    NextByte(i);
    DivTwice(i);
    ThreeBytes(i / 0x100);
  }

  lemma FiveBytes(i: nat)
    requires 0x1_0000_0000 <= i < 0x100_0000_0000
    ensures Serialize(i) == [i / 0x1_0000_0000, i / 0x100_0000 % 0x100, i / 0x1_0000 % 0x100, i / 0x100 % 0x100,
      i % 0x100]
  {
    hide Serialize;
    NextByte(i);
    DivTwice(i);
    FourBytes(i / 0x100);
  }

  lemma SixBytes(i: nat)
    requires 0x100_0000_0000 <= i < 0x1_0000_0000_0000
    ensures Serialize(i) == [i / 0x100_0000_0000, i / 0x1_0000_0000 % 0x100, i / 0x100_0000 % 0x100,
      i / 0x1_0000 % 0x100, i / 0x100 % 0x100, i % 0x100]
  {
    hide Serialize;
    NextByte(i);
    DivTwice(i);
    FiveBytes(i / 0x100);
  }

  lemma SevenBytes(i: nat)
    requires 0x1_0000_0000_0000 <= i < 0x100_0000_0000_0000
    ensures Serialize(i) == [i / 0x1_0000_0000_0000, i / 0x100_0000_0000 % 0x100, i / 0x1_0000_0000 % 0x100,
      i / 0x100_0000 % 0x100, i / 0x1_0000 % 0x100, i / 0x100 % 0x100, i % 0x100]
  {
    hide Serialize;
    NextByte(i);
    DivTwice(i);
    SixBytes(i / 0x100);
  }

  lemma EightBytes(i: nat)
    requires 0x100_0000_0000_0000 <= i < 0x1_0000_0000_0000_0000
    ensures Serialize(i) == [i / 0x100_0000_0000_0000, i / 0x1_0000_0000_0000 % 0x100, i / 0x100_0000_0000 % 0x100,
      i / 0x1_0000_0000 % 0x100, i / 0x100_0000 % 0x100, i / 0x1_0000 % 0x100, i / 0x100 % 0x100, i % 0x100]
  {
    hide Serialize;
    NextByte(i);
    DivTwice(i);
    SevenBytes(i / 0x100);
  }

  /** putint: the fewest bytes, one for zero. */
  method PutInt(i: u64) returns (r: seq<u8>)
    ensures r == if i == 0 then [0] else Serialize(i)
  {
    hide Serialize;
    if i < 0x100 {
      if i > 0 { OneByte(i); }
      return [i];
    }
    if i < 0x1_0000 {
      TwoBytes(i);
      return [i / 0x100, i % 0x100];
    }
    if i < 0x100_0000 {
      ThreeBytes(i);
      return [i / 0x1_0000, i / 0x100 % 0x100, i % 0x100];
    }
    if i < 0x1_0000_0000 {
      FourBytes(i);
      return [i / 0x100_0000, i / 0x1_0000 % 0x100, i / 0x100 % 0x100, i % 0x100];
    }
    if i < 0x100_0000_0000 {
      FiveBytes(i);
      return [i / 0x1_0000_0000, i / 0x100_0000 % 0x100, i / 0x1_0000 % 0x100, i / 0x100 % 0x100, i % 0x100];
    }
    if i < 0x1_0000_0000_0000 {
      SixBytes(i);
      return [i / 0x100_0000_0000, i / 0x1_0000_0000 % 0x100, i / 0x100_0000 % 0x100, i / 0x1_0000 % 0x100,
        i / 0x100 % 0x100, i % 0x100];
    }
    if i < 0x100_0000_0000_0000 {
      SevenBytes(i);
      return [i / 0x1_0000_0000_0000, i / 0x100_0000_0000 % 0x100, i / 0x1_0000_0000 % 0x100, i / 0x100_0000 % 0x100,
        i / 0x1_0000 % 0x100, i / 0x100 % 0x100, i % 0x100];
    }
    EightBytes(i);
    return [i / 0x100_0000_0000_0000, i / 0x1_0000_0000_0000 % 0x100, i / 0x100_0000_0000 % 0x100,
      i / 0x1_0000_0000 % 0x100, i / 0x100_0000 % 0x100, i / 0x1_0000 % 0x100, i / 0x100 % 0x100, i % 0x100];
  }

  /** encodeHeader */
  method EncodeHeader(size: u64, smallTag: u8, largeTag: u8) returns (r: seq<u8>)
    requires smallTag <= 0xc0 && largeTag <= 0xf7
    ensures r == Header(size, smallTag, largeTag)
  {
    if size < 56 { return [smallTag + size]; }
    SizeBytes(size);
    var sizeData := PutInt(size);
    return [largeTag + |sizeData|] + sizeData;
  }

  /** encodeData */
  method EncodeData(data: seq<u8>) returns (r: seq<u8>)
    requires |data| < LIMIT
    ensures r == Encode(Bytes(data))
  {
    if |data| == 1 && data[0] <= 0x7f { return data; }
    var encoded := EncodeHeader(|data|, 0x80, 0xb7);
    return encoded + data;
  }

  /** encodeBigUInt, to which all number kinds lead */
  method EncodeNumber(number: nat) returns (r: seq<u8>)
    requires |Serialize(number)| < LIMIT
    ensures r == Encode(Bytes(Serialize(number)))
  {
    var encoded := Serialize(number);
    if |encoded| == 0 { return [0x80]; }
    r := EncodeData(encoded);
  }

  predicate HasNegative(e: Element)
  {
    (e.Num? && e.i < 0) || (e.Elements? && exists j :: 0 <= j < |e.elements| && HasNegative(e.elements[j]))
  }

  /** The item of an element: its bytes, the fewest big-endian bytes of a number, or the items of its elements in their
      order. It has none exactly if it holds a negative number. */
  lemma {:induction false} ItemExact(e: Element)
    ensures ToItem(e).None? <==> HasNegative(e)
    ensures ToItem(e).Some? ==>
      match e
      case Str(b) => ToItem(e).value == Bytes(b)
      case Data(b) => ToItem(e).value == Bytes(b)
      case Num(i) =>
        var x := ToItem(e).value;
        x.Bytes? && Number(x.bytes) == i && (|x.bytes| > 0 ==> x.bytes[0] != 0)
      case Elements(es) =>
        var x := ToItem(e).value;
        x.List? && |x.items| == |es| && forall j :: 0 <= j < |es| ==> ToItem(es[j]) == Some(x.items[j])
    decreases e, 0
  {
    match e {
      case Num(i) => if i > 0 { SerializeLeads(i); }
      case Elements(es) => ItemsExact(es);
      case _ =>
    }
  }

  lemma {:induction false} ItemsExact(es: seq<Element>)
    ensures ToItems(es).None? <==> exists j :: 0 <= j < |es| && HasNegative(es[j])
    ensures ToItems(es).Some? ==>
      var xs := ToItems(es).value;
      |xs| == |es| && forall j :: 0 <= j < |es| ==> ToItem(es[j]) == Some(xs[j])
    decreases es, |es|
  {
    if |es| > 0 {
      ItemExact(es[0]);
      ItemsExact(es[1..]);
      hide ToItem, HasNegative;
      forall j | 1 <= j < |es| ensures es[j] == es[1..][j - 1] {}
    }
  }

  /** An element as it would be if no number were negative; only its size matters. */
  function Unsigned(e: Element): Item
    decreases e, 0
  {
    match e
    case Str(b) => Bytes(b)
    case Data(b) => Bytes(b)
    case Num(i) => Bytes(Serialize(if i < 0 then -i else i))
    case Elements(es) => List(UnsignedAll(es))
  }

  function UnsignedAll(es: seq<Element>): (r: seq<Item>)
    ensures |r| == |es| && forall i :: 0 <= i < |es| ==> r[i] == Unsigned(es[i])
    decreases es, |es|
  {
    if |es| == 0 then [] else [Unsigned(es[0])] + UnsignedAll(es[1..])
  }

  lemma {:induction false} SameItem(e: Element)
    ensures ToItem(e).Some? ==> ToItem(e).value == Unsigned(e)
    decreases e, 0
  {
    if e.Elements? { SameItems(e.elements); }
  }

  lemma {:induction false} SameItems(es: seq<Element>)
    ensures ToItems(es).Some? ==> ToItems(es).value == UnsignedAll(es)
    decreases es, |es|
  {
    if |es| > 0 {
      SameItem(es[0]);
      SameItems(es[1..]);
    }
  }

  /** encode: the encoding of the item, or nil if there is a negative number in it. The sizes of data in
      memory are below 2^64. */
  method EncodeElement(e: Element) returns (r: Option<seq<u8>>)
    requires Fits(Unsigned(e))
    ensures r.Some? <==> ToItem(e).Some?
    ensures r.Some? ==> r.value == Encode(ToItem(e).value)
    decreases e, 0
  {
    match e {
      case Str(b) => var encoded := EncodeData(b); return Some(encoded);
      case Data(b) => var encoded := EncodeData(b); return Some(encoded);
      case Num(i) =>
        if i < 0 { return None; }
        var encoded := EncodeNumber(i);
        return Some(encoded);
      case Elements(es) => r := EncodeList(es);
    }
  }

  /** encodeList */
  method EncodeList(es: seq<Element>) returns (r: Option<seq<u8>>)
    requires Fits(List(UnsignedAll(es)))
    ensures r.Some? <==> ToItems(es).Some?
    ensures r.Some? ==> r.value == Encode(List(ToItems(es).value))
    decreases es, |es| + 1
  {
    hide Encode, Header;
    var encodedData: seq<u8> := [];
    var i := 0;
    assert es[0..] == es;
    while i < |es|
      invariant 0 <= i <= |es|
      invariant ToItems(es).Some? <==> ToItems(es[i..]).Some?
      invariant encodedData + EncodeAll(UnsignedAll(es[i..])) == EncodeAll(UnsignedAll(es))
    {
      NextElement(es, i);
      assert UnsignedAll(es)[i] == Unsigned(es[i]);
      var encoded := EncodeElement(es[i]);
      if encoded.None? { return None; }
      SameItem(es[i]);
      encodedData := encodedData + encoded.value;
      i := i + 1;
    }
    assert es[|es|..] == [];
    SameItems(es);
    assert encodedData == EncodeAll(UnsignedAll(es));
    var header := EncodeHeader(|encodedData|, 0xc0, 0xf7);
    ListForm(ToItems(es).value);
    return Some(header + encodedData);
  }

  lemma ListForm(items: seq<Item>)
    ensures Encode(List(items)) == Header(|EncodeAll(items)|, 0xc0, 0xf7) + EncodeAll(items)
  {}

  lemma NextElement(es: seq<Element>, i: nat)
    requires i < |es|
    ensures ToItems(es[i..]).Some? <==> ToItem(es[i]).Some? && ToItems(es[i + 1..]).Some?
    ensures EncodeAll(UnsignedAll(es[i..])) == Encode(Unsigned(es[i])) + EncodeAll(UnsignedAll(es[i + 1..]))
  {
    assert es[i..][1..] == es[i + 1..];
    assert UnsignedAll(es[i..])[1..] == UnsignedAll(es[i + 1..]);
  }
}
