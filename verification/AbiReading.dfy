/** What the decoder makes of its input when no budget runs out, and that this inverts the encoding. */
module AbiReading {
  import opened Arith
  import opened ByteStrings
  import opened AbiTypes
  import opened Options
  import opened AbiSpec

  /** ABIv2Decoder.read */
  function Read(data: seq<u8>, offset: nat, count: nat): Option<seq<u8>>
  {
    if offset + count <= |data| then Some(data[offset..offset + count]) else None
  }

  /** ABIv2Decoder.boundedWord */
  function BoundedWord(data: seq<u8>, offset: nat, maximum: nat): (r: Option<nat>)
    ensures r.Some? ==> r.value <= maximum && offset + 32 <= |data|
  {
    var word := Read(data, offset, 32);
    if word.Some? && Number(word.value) <= maximum then Some(Number(word.value)) else None
  }

  /** A word as a two's complement number. */
  function Signed(word: seq<u8>): int
    requires |word| == 32
  {
    if word[0] < 0x80 then Number(word) else Number(word) - TWO256
  }

  /** A value of one word. */
  function FromWord(t: Type, word: seq<u8>): Option<Value>
    requires |word| == 32
  {
    match t
    case Uint(bits) => if FitsUnsigned(Number(word), bits) then Some(Integer(Number(word))) else None
    case UFixed(bits, d) => if FitsUnsigned(Number(word), bits) then Some(FixedPoint(Number(word), d)) else None
    case Int(bits) => if FitsSigned(Signed(word), bits) then Some(Integer(Signed(word))) else None
    case Fixed(bits, d) => if FitsSigned(Signed(word), bits) then Some(FixedPoint(Signed(word), d)) else None
    case Address => if AllZero(word[..12]) then Some(AddressBytes(word[12..])) else None
    case Bool => if Number(word) <= 1 then Some(Flag(Number(word) == 1)) else None
    case Bytes(length) => if length <= 32 && AllZero(word[length..]) then Some(Octets(word[..length])) else None
    case Function => if AllZero(word[24..]) then Some(Octets(word[..24])) else None
    case _ => None
  }

  predicate IsContainer(t: Type)
  {
    IsArray(t) || t.Tuple?
  }

  /** The payload of a string or bytes value: a length, that many bytes, zeros up to a whole word. */
  function Payload(data: seq<u8>, start: nat): Option<seq<u8>>
    requires start <= |data|
  {
    if |data| - start < 32 then None else
    var length := BoundedWord(data, start, |data| - start - 32);
    if length.None? then None else
    var n := length.value;
    if n + Padding(n) <= |data| - start - 32 && AllZero(data[start + 32 + n..start + 32 + n + Padding(n)])
    then Some(data[start + 32..start + 32 + n]) else None
  }

  /** Where a value announced by the head at base + at is: a static one right there, a dynamic one at the
      offset found there, which must be whole words, past all heads of the container, within the data. */
  function Start(u: Type, data: seq<u8>, base: nat, at: nat, minimumTail: nat): (r: Option<nat>)
    ensures r.Some? ==> r.value <= |data|
  {
    if base + at + HeadSize(u) > |data| then None
    else if Static(u) then Some(base + at)
    else
      var offset := BoundedWord(data, base + at, |data| - base);
      if offset.Some? && minimumTail <= offset.value && Whole(offset.value) then Some(base + offset.value) else None
  }

  /** Where the heads of a container's elements start, and how many there are. */
  function Place(t: Type, data: seq<u8>, start: nat): (r: Option<(nat, nat)>)
    requires IsContainer(t) && start <= |data|
    ensures r.Some? ==> HasCount(t, r.value.1) && r.value.0 + HeadTotal(t, r.value.1) <= |data|
  {
    if IsDynamicArray(t) then
      var count := BoundedWord(data, start, INT_MAX);
      if count.Some? && start + 32 + HeadTotal(t, count.value) <= |data| then Some((start + 32, count.value)) else None
    else
      var n := if t.Tuple? then |t.types| else t.length;
      if start + HeadTotal(t, n) <= |data| then Some((start, n)) else None
  }

  /** A list of all the results, if each is there. */
  function Collect(rs: seq<Option<Value>>): Option<Value>
  {
    if forall i :: 0 <= i < |rs| ==> rs[i].Some?
    then Some(List(seq(|rs|, i requires 0 <= i < |rs| => rs[i].value))) else None
  }

  lemma Collected(rs: seq<Option<Value>>, vs: seq<Value>)
    requires |rs| == |vs| && forall i :: 0 <= i < |rs| ==> rs[i] == Some(vs[i])
    ensures Collect(rs) == Some(List(vs))
  {
    assert Collect(rs).value.elements == vs;
  }

  /** The value at a place. */
  function Body(t: Type, data: seq<u8>, start: nat): Option<Value>
    requires start <= |data|
    decreases t
  {
    if t.String? then
      var b := Payload(data, start); if b.Some? && ValidUtf8(b.value) then Some(Text(b.value)) else None
    else if t.DynamicBytes? then
      var b := Payload(data, start); if b.Some? then Some(Octets(b.value)) else None
    else if !IsContainer(t) then
      var word := Read(data, start, 32); if word.Some? then FromWord(t, word.value) else None
    else
      var place := Place(t, data, start);
      if place.None? then None else
      var (base, n) := place.value;
      Collect(seq(n, i requires 0 <= i < n =>
        var at := Start(ElementType(t, i), data, base, HeadTotal(t, i), HeadTotal(t, n));
        if at.Some? then Body(ElementType(t, i), data, at.value) else None))
  }

  /** The value announced by a head. */
  function Announced(u: Type, data: seq<u8>, base: nat, at: nat, minimumTail: nat): Option<Value>
  {
    var start := Start(u, data, base, at, minimumTail);
    if start.Some? then Body(u, data, start.value) else None
  }

  /** Element i of n. */
  function Item(t: Type, data: seq<u8>, base: nat, n: nat, i: nat): Option<Value>
    requires HasCount(t, n) && i < n
  {
    Announced(ElementType(t, i), data, base, HeadTotal(t, i), HeadTotal(t, n))
  }

  function Items(t: Type, data: seq<u8>, base: nat, n: nat): Option<Value>
    requires HasCount(t, n)
  {
    Collect(seq(n, i requires 0 <= i < n => Item(t, data, base, n, i)))
  }

  lemma BodyOfContainer(t: Type, data: seq<u8>, start: nat)
    requires IsContainer(t) && start <= |data|
    ensures var place := Place(t, data, start);
      Body(t, data, start) == if place.None? then None else Items(t, data, place.value.0, place.value.1)
  {
    hide ElementType, HeadTotal, Place, Start, AllZero, Padding;
    var place := Place(t, data, start);
    if place.Some? {
      var (base, n) := place.value;
      var rs := seq(n, i requires 0 <= i < n =>
        var at := Start(ElementType(t, i), data, base, HeadTotal(t, i), HeadTotal(t, n));
        if at.Some? then Body(ElementType(t, i), data, at.value) else None);
      assert rs == seq(n, i requires 0 <= i < n => Item(t, data, base, n, i));
      assert Body(t, data, start) == Collect(rs);
    }
  }

  lemma {:induction false} HeadTotalGrows(t: Type, m: nat, n: nat)
    requires n > 0 ==> HasElement(t, n - 1)
    requires m <= n
    ensures HeadTotal(t, m) <= HeadTotal(t, n)
    decreases n
  {
    if m < n { HeadTotalGrows(t, m, n - 1); }
  }
}
