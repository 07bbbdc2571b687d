/** When decoded data is the encoding of what was decoded: exactly if every tail starts where the one before it
    ends, the first one right behind the heads. */
module AbiExtent {
  import opened Arith
  import opened Digits
  import opened ByteStrings
  import opened AbiTypes
  import opened Options
  import opened AbiSpec
  import opened AbiReading
  import opened AbiRoundTrip
  import opened AbiDecoder
  import opened AbiCanonical

  /** Where the value at a place ends if it lies as the encoder would lay it: read off from the data alone. */
  function Extent(t: Type, data: seq<u8>, start: nat): Option<nat>
    requires start <= |data|
    decreases t, 1, 0
  {
    if Static(t) then Some(start + HeadSize(t))
    else if !IsContainer(t) then
      var b := Payload(data, start);
      if b.Some? then Some(start + 32 + |b.value| + Padding(|b.value|)) else None
    else
      var place := Place(t, data, start);
      if place.Some? then TailsEnd(t, data, place.value.0, place.value.1, place.value.1) else None
  }

  /** Where the tails of the first i of n elements end if each dynamic one starts where the one before it ended. */
  function TailsEnd(t: Type, data: seq<u8>, base: nat, n: nat, i: nat): (r: Option<nat>)
    requires HasCount(t, n) && i <= n
    decreases t, 0, i
  {
    if i == 0 then Some(base + HeadTotal(t, n)) else
    var end := TailsEnd(t, data, base, n, i - 1);
    var u := ElementType(t, i - 1);
    if end.None? || Static(u) then end
    else if Start(u, data, base, HeadTotal(t, i - 1), HeadTotal(t, n)) != end then None
    else Extent(u, data, end.value)
  }

  // ---- the parts of an encoding in data ----

  lemma AtConcat(data: seq<u8>, at: nat, s: seq<u8>, e: seq<u8>)
    ensures At(data, at, s + e) <==> At(data, at, s) && At(data, at + |s|, e)
  {
    if At(data, at, s + e) {
      AtExtends(s, 0, s, e);
      AtEnd(s, e);
      Within(data, at, s + e, 0, s);
      Within(data, at, s + e, |s|, e);
    }
    if At(data, at, s) && At(data, at + |s|, e) { Adjacent(data, at, s, e, at + |s|); }
  }

  lemma AtWithin(data: seq<u8>, at: nat, e: seq<u8>)
    requires At(data, at, e)
    ensures at + |e| <= |data|
  {}

  /** A bounded word is the word of its number. */
  lemma BoundedWordIs(data: seq<u8>, at: nat, maximum: nat)
    requires BoundedWord(data, at, maximum).Some?
    ensures At(data, at, Word(BoundedWord(data, at, maximum).value))
  {
    hide ToBytes, BigEndian;
    BytesOfNumber(data[at..at + 32]);
  }

  lemma WordIs(data: seq<u8>, at: nat, n: nat, maximum: nat)
    requires n < TWO256 && At(data, at, Word(n)) && n <= maximum
    ensures BoundedWord(data, at, maximum) == Some(n)
  {
    hide ToBytes, BigEndian, Pow;
    NumberOfWord(n);
  }

  /** Strings and bytes can lie in only one way. */
  lemma PayloadExact(data: seq<u8>, start: nat)
    requires start <= |data| && Payload(data, start).Some?
    ensures var b := Payload(data, start).value; At(data, start, Word(|b|) + PadRight(b))
  {
    hide ToBytes, BigEndian;
    var b := Payload(data, start).value;
    BoundedWordIs(data, start, |data| - start - 32);
    var from := start + 32 + |b|;
    assert data[from..from + Padding(|b|)] == Zeros(Padding(|b|));
    AtConcat(data, start + 32, b, Zeros(Padding(|b|)));
    AtConcat(data, start, Word(|b|), PadRight(b));
  }

  /** A dynamic element's head is the word the encoder writes exactly if its tail is announced there. */
  lemma OffsetIs(u: Type, data: seq<u8>, base: nat, at: nat, minimumTail: nat, end: nat)
    requires !Static(u) && Start(u, data, base, at, minimumTail).Some? && base <= end <= |data| && |data| <= INT_MAX
    ensures Start(u, data, base, at, minimumTail) == Some(end) <==> At(data, base + at, Word(end - base))
  {
    hide HeadSize, Whole;
    BoundedWordIs(data, base + at, |data| - base);
    if At(data, base + at, Word(end - base)) { WordIs(data, base + at, end - base, |data| - base); }
  }

  /** A dynamic element is looked for at a place exactly if its head holds the offset of that place, a whole number of
      words past all heads and within the data. */
  lemma OffsetExact(u: Type, data: seq<u8>, base: nat, at: nat, minimumTail: nat, start: nat)
    requires !Static(u) && |data| <= INT_MAX
    ensures Start(u, data, base, at, minimumTail) == Some(start) <==>
      && base + minimumTail <= start <= |data| && (start - base) % 32 == 0
      && At(data, base + at, Word(start - base))
  {
    hide ToBytes, BigEndian, Static;
    assert HeadSize(u) == 32;
    hide HeadSize;
    if base <= start {
      WholeIsMultiple(start - base);
      if start <= |data| && At(data, base + at, Word(start - base)) {
        WordIs(data, base + at, start - base, |data| - base);
      }
    }
    if Start(u, data, base, at, minimumTail).Some? { BoundedWordIs(data, base + at, |data| - base); }
  }

  /** Text or bytes are read at a place exactly if their length, they themselves and zeros up to a whole number of words
      stand there. */
  lemma PayloadIs(data: seq<u8>, start: nat, b: seq<u8>)
    requires start <= |data| <= INT_MAX
    ensures Payload(data, start) == Some(b) <==> At(data, start, Word(|b|) + PadRight(b))
  {
    hide Payload;
    if Payload(data, start) == Some(b) { PayloadExact(data, start); }
    if At(data, start, Word(|b|) + PadRight(b)) { PayloadRoundTrip(data, start, b); }
  }

  // ---- containers ----

  /** The encodings of the elements, as far as heads and tails of the first i lie where they should. */
  ghost predicate Laid(t: Type, data: seq<u8>, base: nat, items: seq<seq<u8>>, i: nat)
    requires HasCount(t, |items|) && i <= |items|
  {
    At(data, base, Heads(t, items, i)) && At(data, base + HeadTotal(t, |items|), Tails(t, items, i))
  }

  /** The end found in the data tells whether the first i elements lie as they should, and where they end. */
  ghost predicate Tells(t: Type, data: seq<u8>, base: nat, items: seq<seq<u8>>, i: nat, end: Option<nat>)
    requires HasCount(t, |items|) && i <= |items|
  {
    && (end.Some? <==> Laid(t, data, base, items, i))
    && (end.Some? ==> end.value == base + TailStart(t, items, i))
  }

  lemma NothingLaid(t: Type, data: seq<u8>, base: nat, items: seq<seq<u8>>)
    requires HasCount(t, |items|) && base + HeadTotal(t, |items|) <= |data|
    ensures Tells(t, data, base, items, 0, Some(base + HeadTotal(t, |items|)))
  {}

  /** A static element stands in its place and leaves the tails alone. */
  lemma StaticTells(t: Type, data: seq<u8>, base: nat, items: seq<seq<u8>>, i: nat, end: Option<nat>)
    requires Sized(t, items) && i < |items| && Static(ElementType(t, i)) && At(data, base + HeadTotal(t, i), items[i])
    requires Tells(t, data, base, items, i, end)
    ensures Tells(t, data, base, items, i + 1, end)
  {
    hide Static, HeadSize, HeadTotal, ItemSized;
    AssembledSize(t, items, i);
    StaticParts(t, items, i);
    AtConcat(data, base, Heads(t, items, i), items[i]);
  }

  lemma StaticParts(t: Type, items: seq<seq<u8>>, i: nat)
    requires HasCount(t, |items|) && i < |items| && Static(ElementType(t, i))
    ensures Heads(t, items, i + 1) == Heads(t, items, i) + items[i] && Tails(t, items, i + 1) == Tails(t, items, i)
  {
    hide Static, HeadTotal;
  }

  lemma DynamicParts(t: Type, items: seq<seq<u8>>, i: nat)
    requires HasCount(t, |items|) && i < |items| && !Static(ElementType(t, i))
    ensures Heads(t, items, i + 1) == Heads(t, items, i) + Word(TailStart(t, items, i))
    ensures Tails(t, items, i + 1) == Tails(t, items, i) + items[i]
  {
    hide Static, HeadTotal, Word;
  }

  /** A dynamic element lies as it should exactly if it starts where the tails so far end and does so itself. */
  lemma DynamicTells(
    t: Type, data: seq<u8>, base: nat, items: seq<seq<u8>>, i: nat, end: Option<nat>, next: Option<nat>)
    requires Sized(t, items) && i < |items| && !Static(ElementType(t, i)) && |data| <= INT_MAX
    requires Tells(t, data, base, items, i, end)
    requires Start(ElementType(t, i), data, base, HeadTotal(t, i), HeadTotal(t, |items|)).Some?
    requires next.Some? ==> Start(ElementType(t, i), data, base, HeadTotal(t, i), HeadTotal(t, |items|)) == end
    requires end.Some? && Start(ElementType(t, i), data, base, HeadTotal(t, i), HeadTotal(t, |items|)) == end ==>
      (next.Some? <==> At(data, end.value, items[i])) && (next.Some? ==> next.value == end.value + |items[i]|)
    ensures Tells(t, data, base, items, i + 1, next)
  {
    hide Static, HeadTotal, Word, Start, Heads, Tails, At, ItemSized;
    var tail := base + TailStart(t, items, i);
    AssembledSize(t, items, i);
    DynamicParts(t, items, i);
    AtConcat(data, base, Heads(t, items, i), Word(TailStart(t, items, i)));
    AtConcat(data, base + HeadTotal(t, |items|), Tails(t, items, i), items[i]);
    if Laid(t, data, base, items, i) {
      AtWithin(data, base + HeadTotal(t, |items|), Tails(t, items, i));
      OffsetIs(ElementType(t, i), data, base, HeadTotal(t, i), HeadTotal(t, |items|), tail);
    }
  }

  /** What is read of an element: a static one right in its place. */
  lemma ElementRead(t: Type, data: seq<u8>, base: nat, n: nat, i: nat, v: Value)
    requires HasCount(t, n) && i < n && Item(t, data, base, n, i) == Some(v)
    ensures var start := Start(ElementType(t, i), data, base, HeadTotal(t, i), HeadTotal(t, n));
      start.Some? && Body(ElementType(t, i), data, start.value) == Some(v)
  {
    hide Body, Start, HeadTotal;
  }

  /** The encoded elements of what was read. */
  lemma ItemIs(t: Type, es: seq<Value>, i: nat)
    requires Encodable(t, List(es)) && i < |es|
    ensures Encodable(ElementType(t, i), es[i]) && EncItems(t, es)[i] == Enc(ElementType(t, i), es[i])
  {
    hide Enc, Encodable;
    ElementEncodable(t, es, i);
  }

  lemma TailsEndNext(t: Type, data: seq<u8>, base: nat, n: nat, i: nat)
    requires HasCount(t, n) && i < n
    ensures var end, next := TailsEnd(t, data, base, n, i), TailsEnd(t, data, base, n, i + 1);
      var u := ElementType(t, i);
      if end.None? || Static(u) then next == end
      else if Start(u, data, base, HeadTotal(t, i), HeadTotal(t, n)) != end then next == None
      else next == Extent(u, data, end.value)
  {
    hide Static, Start, HeadTotal, Extent;
  }

  lemma {:induction false} TailsExact(t: Type, data: seq<u8>, base: nat, es: seq<Value>, i: nat)
    requires WellFormed(t) && |data| <= INT_MAX && Encodable(t, List(es)) && i <= |es|
    requires base + HeadTotal(t, |es|) <= |data|
    requires forall j :: 0 <= j < |es| ==> Item(t, data, base, |es|, j) == Some(es[j])
    ensures Tells(t, data, base, EncItems(t, es), i, TailsEnd(t, data, base, |es|, i))
    decreases t, 0, i
  {
    hide Static, HeadSize, HeadTotal, Body, Start, Enc, Encodable, WellFormed, Extent, Tells, Announced, EncItems,
      ElementType, At, Sized;
    var n, items := |es|, EncItems(t, es);
    EncItemsSized(t, es);
    if i == 0 {
      NothingLaid(t, data, base, items);
      StartsAt(t, data, base, n);
    } else {
      TailsExact(t, data, base, es, i - 1);
      TailsEndNext(t, data, base, n, i - 1);
      var end := TailsEnd(t, data, base, n, i - 1);
      var u := ElementType(t, i - 1);
      ItemIs(t, es, i - 1);
      if Static(u) {
        ItemExact(t, data, base, n, i - 1, es[i - 1]);
        StaticTells(t, data, base, items, i - 1, end);
      } else {
        ElementRead(t, data, base, n, i - 1, es[i - 1]);
        ElementWellFormed(t, i - 1);
        if end.Some? && Start(u, data, base, HeadTotal(t, i - 1), HeadTotal(t, n)) == end {
          ExtentExact(u, data, end.value);
        }
        DynamicTells(t, data, base, items, i - 1, end, TailsEnd(t, data, base, n, i));
      }
    }
  }

  lemma StartsAt(t: Type, data: seq<u8>, base: nat, n: nat)
    requires HasCount(t, n)
    ensures TailsEnd(t, data, base, n, 0) == Some(base + HeadTotal(t, n))
  {}

  /** The length word of a dynamic array lies in only one way; the rest is heads and tails. */
  lemma ContainerLies(t: Type, data: seq<u8>, start: nat, es: seq<Value>)
    requires IsContainer(t) && start <= |data| && Place(t, data, start).Some? && Encodable(t, List(es))
    requires |es| == Place(t, data, start).value.1
    ensures var base := Place(t, data, start).value.0;
      && base + HeadTotal(t, |es|) <= |data|
      && (At(data, start, Enc(t, List(es))) <==> Laid(t, data, base, EncItems(t, es), |es|))
      && start + |Enc(t, List(es))| == base + TailStart(t, EncItems(t, es), |es|)
  {
    hide Enc, Encodable, HeadTotal, HeadSize, Static, Heads, Tails, EncItems, Word, BoundedWord, At, ElementType,
      EvmAddress20, FitsSigned, FitsUnsigned, HasCount;
    var base, items, n := Place(t, data, start).value.0, EncItems(t, es), |es|;
    EncOfList(t, es);
    EncItemsSized(t, es);
    AssembledSize(t, items, n);
    AtConcat(data, base, Heads(t, items, n), Tails(t, items, n));
    if IsDynamicArray(t) {
      BoundedWordIs(data, start, INT_MAX);
      AtConcat(data, start, Word(n), EncSeq(t, es));
    }
  }

  /** Decoded data is the encoding of the decoded value exactly if it has an extent, and then it ends there. */
  lemma {:induction false} ExtentExact(t: Type, data: seq<u8>, start: nat)
    requires WellFormed(t) && start <= |data| <= INT_MAX && Body(t, data, start).Some?
    ensures var v := Body(t, data, start).value;
      && Encodable(t, v)
      && (At(data, start, Enc(t, v)) <==> Extent(t, data, start).Some?)
      && (Extent(t, data, start).Some? ==> Extent(t, data, start).value == start + |Enc(t, v)|)
    decreases t, 1, 0
  {
    hide HeadSize, HeadTotal, Body, Enc, Encodable, WellFormed, Normalize, Place, Payload, EncItems, Laid, TailStart;
    var v := Body(t, data, start).value;
    BodyCanonical(t, data, start);
    if Static(t) {
      StaticExact(t, data, start);
      EncSize(t, v);
      assert ItemSized(t, Enc(t, v));
    } else if IsContainer(t) {
      BodyOfContainer(t, data, start);
      var place := Place(t, data, start).value;
      var es := ItemsOf(t, data, place.0, place.1);
      ContainerLies(t, data, start, es);
      TailsExact(t, data, place.0, es, |es|);
    } else {
      PayloadLies(t, data, start);
    }
  }

  lemma PayloadLies(t: Type, data: seq<u8>, start: nat)
    requires start <= |data| && !Static(t) && !IsContainer(t) && Body(t, data, start).Some?
    requires Encodable(t, Body(t, data, start).value)
    ensures var v := Body(t, data, start).value;
      && Payload(data, start).Some? && At(data, start, Enc(t, v))
      && |Enc(t, v)| == 32 + |Payload(data, start).value| + Padding(|Payload(data, start).value|)
  {
    hide Payload, Word, Padding, Place, HeadTotal;
    PayloadExact(data, start);
  }

  /** For whole inputs: encoding the decoded values again gives the same bytes exactly if the data has an extent that
      is all of it. */
  lemma ReencodedSame(types: seq<Type>, data: seq<u8>, values: seq<Value>)
    requires WellFormed(Tuple(types)) && |data| <= INT_MAX && |values| == |types|
      && HeadTotal(Tuple(types), |types|) <= |data|
    requires Items(Tuple(types), data, 0, |types|) == Some(List(values))
    ensures Encodable(Tuple(types), List(values))
    ensures EncSeq(Tuple(types), values) == data <==> Extent(Tuple(types), data, 0) == Some(|data|)
  {
    hide HeadTotal, Body, Enc, Encodable, WellFormed, Items, EncSeq, Extent;
    var t := Tuple(types);
    BodyOfContainer(t, data, 0);
    ExtentExact(t, data, 0);
    EncOfList(t, values);
    assert data[0..|data|] == data;
  }

  // ---- data without an extent ----

  /** Two empty byte strings that share their length word are decoded, but such data has no extent, and the encoding
      of what was decoded is not even as long. */
  lemma SharedTail()
    ensures var t, v := Tuple([DynamicBytes, DynamicBytes]), List([Octets([]), Octets([])]);
      var data := Word(64) + Word(64) + Word(0);
      && Body(t, data, 0) == Some(v) && Encodable(t, v)
      && Extent(t, data, 0) == None && !At(data, 0, Enc(t, v)) && |Enc(t, v)| != |data|
  {
    hide Body, Enc, Encodable, Word, Extent;
    var t, v := Tuple([DynamicBytes, DynamicBytes]), List([Octets([]), Octets([])]);
    SharedTailDecodes();
    SharedTailEncodes();
    SharedTailType();
    ExtentExact(t, Word(64) + Word(64) + Word(0), 0);
  }

  lemma SharedTailType()
    ensures WellFormed(Tuple([DynamicBytes, DynamicBytes]))
  {
    assert HeadSizes([DynamicBytes, DynamicBytes], 1) == 32;
    assert AllWellFormed([DynamicBytes, DynamicBytes], 1);
  }

  lemma SharedTailDecodes()
    ensures Body(Tuple([DynamicBytes, DynamicBytes]), Word(64) + Word(64) + Word(0), 0)
      == Some(List([Octets([]), Octets([])]))
  {
    hide ToBytes, BigEndian;
    var t, es := Tuple([DynamicBytes, DynamicBytes]), [Octets([]), Octets([])];
    var data := Word(64) + Word(64) + Word(0);
    assert HeadTotal(t, 2) == 64;
    assert data[0..32] == Word(64) && data[32..64] == Word(64) && data[64..96] == Word(0);
    NumberOfWord(64);
    NumberOfWord(0);
    assert Whole(64);
    assert Payload(data, 64) == Some([]);
    BodyOfContainer(t, data, 0);
    assert Item(t, data, 0, 2, 0) == Some(es[0]) && Item(t, data, 0, 2, 1) == Some(es[1]);
    Collected(seq(2, i requires 0 <= i < 2 => Item(t, data, 0, 2, i)), es);
  }

  lemma SharedTailEncodes()
    ensures var t, v := Tuple([DynamicBytes, DynamicBytes]), List([Octets([]), Octets([])]);
      Encodable(t, v) && |Enc(t, v)| == 128
  {
    hide ToBytes;
    var t, es := Tuple([DynamicBytes, DynamicBytes]), [Octets([]), Octets([])];
    var item := Word(0) + PadRight([]);
    assert PadRight([]) == [];
    var items := [item, item];
    assert EncItems(t, es) == items;
    assert Tails(t, items, 1) == Tails(t, items, 0) + item;
    assert Tails(t, items, 2) == Tails(t, items, 1) + item;
    EncItemsSized(t, es);
    AssembledSize(t, items, 2);
    assert HeadTotal(t, 2) == 64;
  }
}
