/** Decoding inverts encoding: whatever encodes a value is read back as that value, normalized. */
module AbiRoundTrip {
  import opened Arith
  import opened Digits
  import opened ByteStrings
  import opened AbiTypes
  import opened Options
  import opened AbiSpec
  import opened AbiReading

  const TWO255 := 0x80000000_00000000_00000000_00000000_00000000_00000000_00000000_00000000
  const TWO248 := 0x1_00000000_00000000_00000000_00000000_00000000_00000000_00000000_000000

  // ---- one word ----

  lemma Square(b: nat, e: nat, r: nat)
    requires Pow(b, e) == r
    ensures Pow(b, 2 * e) == r * r
  {
    PowAdd(b, e, e);
  }

  lemma WordPowers()
    ensures Pow(2, 256) == Pow(256, 32) == TWO256 && Pow(2, 255) == TWO255 && Pow(256, 31) == TWO248
  {
    assert Pow(2, 2) == 4 && Pow(256, 1) == 256 by { assert Pow(2, 1) == 2; }
    Square(2, 2, 16 / 4);
    Square(2, 4, 16);
    Square(2, 8, 256);
    Square(2, 16, 0x10000);
    Square(2, 32, TWO32);
    Square(2, 64, TWO64);
    Square(2, 128, TWO64 * TWO64);
    assert Pow(2, 256) == 2 * Pow(2, 255);
    Square(256, 1, 256);
    Square(256, 2, 0x10000);
    Square(256, 4, TWO32);
    Square(256, 8, TWO64);
    Square(256, 16, TWO64 * TWO64);
    assert Pow(256, 32) == 256 * Pow(256, 31);
  }

  lemma WidthBound(bits: nat)
    requires bits <= 256
    ensures Pow(2, bits) <= TWO256 && (bits < 256 ==> Pow(2, bits) <= TWO255)
  {
    WordPowers();
    if bits < 256 { PowStrict(2, bits, 256); }
    if bits < 255 { PowStrict(2, bits, 255); }
  }

  lemma NumberOfWord(n: nat)
    requires n < TWO256
    ensures Number(Word(n)) == n
  {
    WordPowers();
    NumberOfBytes(n, 32);
  }

  /** The top bit is the sign. */
  lemma SignBit(word: seq<u8>)
    requires |word| == 32
    ensures word[0] < 0x80 <==> Number(word) < TWO255
  {
    WordPowers();
    assert word == word[..1] + word[1..];
    NumberConcat(word[..1], word[1..]);
    BytesOfNumber(word[1..]);
    NumberOfOne(word[..1]);
    SignBitOf(word[0], Number(word[1..]));
  }

  lemma NumberOfOne(s: seq<u8>)
    requires |s| == 1
    ensures Number(s) == s[0]
  {
    assert s[..0] == [];
    assert BigEndian(256, s) == BigEndian(256, []) * 256 + s[0];
  }

  lemma SignBitOf(top: u8, rest: nat)
    requires rest < TWO248
    ensures top < 0x80 <==> top * TWO248 + rest < TWO255
  {}

  lemma SignedOfWord(i: int)
    requires -TWO255 <= i < TWO255
    ensures Signed(SignedWord(i)) == i
  {
    NumberOfWord(i % TWO256);
    SignBit(SignedWord(i));
    if i < 0 { DivModUnique(i, TWO256, -1, i + TWO256); } else { DivModUnique(i, TWO256, 0, i); }
  }

  lemma SignedFits(i: int, bits: nat)
    requires FitsSigned(i, bits) && bits <= 256
    ensures -TWO255 <= i < TWO255
  {
    WidthBound(bits - 1);
  }

  lemma UnsignedWord(i: int, bits: nat)
    requires FitsUnsigned(i, bits) && bits <= 256
    ensures Number(SignedWord(i)) == i
  {
    WidthBound(bits);
    DivModUnique(i, TWO256, 0, i);
    NumberOfWord(i);
  }

  /** Types whose values take one word. */
  predicate OneWord(t: Type)
  {
    !t.String? && !t.DynamicBytes? && !IsArray(t) && !t.Tuple?
  }

  lemma WordRoundTrip(t: Type, v: Value)
    requires WellFormed(t) && OneWord(t) && Encodable(t, v)
    ensures |Enc(t, v)| == 32 && FromWord(t, Enc(t, v)) == Some(Normalize(t, v))
  {
    match t {
      case Uint(bits) => UnsignedWord(v.i, bits);
      case UFixed(bits, _) => UnsignedWord(v.scaled, bits);
      case Int(bits) => SignedFits(v.i, bits); SignedOfWord(v.i);
      case Fixed(bits, _) => SignedFits(v.scaled, bits); SignedOfWord(v.scaled);
      case Bool => NumberOfWord(if v.b then 1 else 0);
      case Bytes(length) => RightPadded(v.bytes, length);
      case Function => RightPadded(v.bytes, 24);
      case Address => LeftPadded(EvmAddress20(v.raw).value);
    }
  }

  /** A length word, the bytes, and zeros up to the next whole word. */
  ghost predicate HoldsPayload(e: seq<u8>, b: seq<u8>)
  {
    && |b| + 32 <= |e| < |b| + 64 && |e| % 32 == 0
    && Number(e[..32]) == |b| % TWO256 && e[32..32 + |b|] == b && AllZero(e[32 + |b|..])
  }

  /** What the encoding of a value that is not a list holds. */
  lemma LeafExact(t: Type, v: Value)
    requires WellFormed(t) && Encodable(t, v) && !v.List?
    ensures v.Text? || (v.Octets? && t.DynamicBytes?) || |Enc(t, v)| == 32
    ensures match v
      case Integer(i) => Number(Enc(t, v)) == if i < 0 then TWO256 + i else i
      case FixedPoint(i, _) => Number(Enc(t, v)) == if i < 0 then TWO256 + i else i
      case AddressBytes(raw) => exists a :: StandsFor(raw, a) && Enc(t, v) == Zeros(12) + a
      case Flag(b) => Number(Enc(t, v)) == if b then 1 else 0
      case Octets(b) =>
        if t.DynamicBytes? then HoldsPayload(Enc(t, v), b) else Enc(t, v)[..|b|] == b && AllZero(Enc(t, v)[|b|..])
      case Text(b) => HoldsPayload(Enc(t, v), b)
  {
    hide Pow, ValidUtf8, EvmAddress20;
    match v
    case Integer(i) => SignedNumber(t, i);
    case FixedPoint(i, _) => SignedNumber(t, i);
    case AddressBytes(raw) =>
      AddressOfForm(raw);
      var a :| StandsFor(raw, a);
      AddressWord(raw, a);
    case Flag(b) => NumberOfWord(if b then 1 else 0);
    case Octets(b) => PayloadForm(b);
    case Text(b) => PayloadForm(b);
  }

  lemma SignedNumber(t: Type, i: int)
    requires WellFormed(t)
    requires ((t.Uint? || t.UFixed?) && FitsUnsigned(i, t.bits)) || ((t.Int? || t.Fixed?) && FitsSigned(i, t.bits))
    ensures Number(SignedWord(i)) == if i < 0 then TWO256 + i else i
  {
    hide Pow;
    if t.Uint? || t.UFixed? {
      UnsignedWord(i, t.bits);
    } else {
      SignedFits(i, t.bits);
      NumberOfWord(i % TWO256);
      if i < 0 { DivModUnique(i, TWO256, -1, i + TWO256); } else { DivModUnique(i, TWO256, 0, i); }
    }
  }

  lemma PayloadForm(b: seq<u8>)
    ensures HoldsPayload(Word(|b|) + PadRight(b), b)
  {
    hide Whole, Number, ToBytes;
    WholeIsMultiple(|PadRight(b)|);
    NumberOfAnyWord(|b|);
    var e := Word(|b|) + PadRight(b);
    assert e[..32] == Word(|b|) && e[32..32 + |b|] == b && e[32 + |b|..] == Zeros(Padding(|b|));
  }

  lemma NumberOfAnyWord(n: nat)
    ensures Number(Word(n)) == n % TWO256
  {
    WordPowers();
    LowestBytes(n, 32);
  }

  /** The encoding of a list: the count of a dynamic array, then every element where its head says. */
  lemma ListExact(t: Type, es: seq<Value>, i: nat)
    requires Encodable(t, List(es)) && i < |es|
    ensures var e, items := Enc(t, List(es)), EncItems(t, es);
      var base := if IsDynamicArray(t) then 32 else 0;
      && base <= |e| && (IsDynamicArray(t) ==> Number(e[..32]) == |es|)
      && Placed(e[base..], HeadTotal(t, i), TailStart(t, items, i), ElementType(t, i), Enc(ElementType(t, i), es[i]))
  {
    hide Assembled, Placed, HeadTotal, TailStart;
    var e, items := Enc(t, List(es)), EncItems(t, es);
    EncOfList(t, es);
    EncItemsSized(t, es);
    ElementPlace(t, items, i);
    assert EncSeq(t, es) == Assembled(t, items);
    hide Enc, EncSeq;
    if IsDynamicArray(t) {
      assert e[32..] == Assembled(t, items) && e[..32] == Word(|es|);
      NumberOfWord(|es|);
    } else {
      assert e[0..] == e;
    }
  }

  lemma RightPadded(b: seq<u8>, n: nat)
    requires |b| <= n <= 32
    ensures var w := b + Zeros(32 - |b|); w[..n] == b + Zeros(n - |b|) && AllZero(w[n..])
  {}

  lemma LeftPadded(a: seq<u8>)
    requires |a| == 20
    ensures var w := Zeros(12) + a; AllZero(w[..12]) && w[12..] == a
  {}

  // ---- strings and bytes ----

  lemma PayloadRoundTrip(data: seq<u8>, start: nat, b: seq<u8>)
    requires At(data, start, Word(|b|) + PadRight(b)) && |data| <= INT_MAX
    ensures Payload(data, start) == Some(b)
  {
    hide Zeros;
    var e, pad := Word(|b|) + PadRight(b), Zeros(Padding(|b|));
    NumberOfWord(|b|);
    AtEnd(Word(|b|), PadRight(b));
    assert At(e, 0, Word(|b|));
    Within(data, start, e, 0, Word(|b|));
    Within(data, start, e, 32, PadRight(b));
    assert At(PadRight(b), 0, b);
    AtEnd(b, pad);
    Within(data, start + 32, PadRight(b), 0, b);
    Within(data, start + 32, PadRight(b), |b|, pad);
  }

  // ---- all values ----

  /** A value whose encoding stands at a place is read back from there. */
  lemma {:induction false} BodyRoundTrip(t: Type, v: Value, data: seq<u8>, start: nat)
    requires WellFormed(t) && Encodable(t, v) && |data| <= INT_MAX
    requires At(data, start, Enc(t, v))
    ensures Body(t, data, start) == Some(Normalize(t, v))
    decreases t, 1
  {
    hide WellFormed, Assembled, BoundedWord, Collect, FromWord, PadRight, SignedWord, Static, ValidUtf8, Word;
    match v {
      case Text(b) => PayloadRoundTrip(data, start, b);
      case Octets(b) => if t.DynamicBytes? { PayloadRoundTrip(data, start, b); } else { WordRoundTrip(t, v); }
      case List(es) =>
        var base := PlaceRoundTrip(t, es, data, start);
        BodyOfContainer(t, data, start);
        ItemsRoundTrip(t, es, data, base);
      case _ => WordRoundTrip(t, v);
    }
  }

  lemma {:induction false} ItemsRoundTrip(t: Type, es: seq<Value>, data: seq<u8>, base: nat)
    requires WellFormed(t) && Encodable(t, List(es)) && |data| <= INT_MAX
    requires At(data, base, EncSeq(t, es))
    ensures Items(t, data, base, |es|) == Some(Normalize(t, List(es)))
    decreases t, 0
  {
    hide WellFormed, Body, Collect, Enc, EvmAddress20, HeadTotal, Heads, Start, Static, Tails, ValidUtf8, Whole,
      Zeros;
    var items, vs := EncItems(t, es), Normalize(t, List(es)).elements;
    var rs := seq(|es|, i requires 0 <= i < |es| => Item(t, data, base, |es|, i));
    EncItemsSized(t, es);
    forall i | 0 <= i < |es| ensures rs[i] == Some(vs[i]) {
      var start := ItemStart(t, items, data, base, i);
      ElementWellFormed(t, i);
      BodyRoundTrip(ElementType(t, i), es[i], data, start);
    }
    Collected(rs, vs);
  }

  lemma PlaceRoundTrip(t: Type, es: seq<Value>, data: seq<u8>, start: nat) returns (base: nat)
    requires Encodable(t, List(es)) && |data| <= INT_MAX && At(data, start, Enc(t, List(es)))
    ensures Place(t, data, start) == Some((base, |es|)) && At(data, base, EncSeq(t, es))
  {
    hide Word, EncItems, AllZero, Assembled;
    EncItemsSized(t, es);
    SequenceSize(t, EncItems(t, es));
    if IsDynamicArray(t) {
      AtEnd(Word(|es|), EncSeq(t, es));
      Within(data, start, Enc(t, List(es)), 0, Word(|es|));
      Within(data, start, Enc(t, List(es)), 32, EncSeq(t, es));
      NumberOfWord(|es|);
      base := start + 32;
    } else {
      assert Enc(t, List(es)) == EncSeq(t, es);
      base := start;
    }
  }

  lemma ElementWellFormed(t: Type, i: nat)
    requires WellFormed(t) && HasElement(t, i)
    ensures WellFormed(ElementType(t, i))
  {
    if t.Tuple? { WellFormedMember(t.types, |t.types|, i); }
  }

  /** The place of an element is found from its head. */
  lemma ItemStart(t: Type, items: seq<seq<u8>>, data: seq<u8>, base: nat, i: nat) returns (start: nat)
    requires Sized(t, items) && |data| <= INT_MAX
    requires At(data, base, Assembled(t, items)) && i < |items|
    ensures At(data, start, items[i])
    ensures Start(ElementType(t, i), data, base, HeadTotal(t, i), HeadTotal(t, |items|)) == Some(start)
  {
    ElementPlace(t, items, i);
    assert ItemSized(ElementType(t, i), items[i]);
    start := Located(
      ElementType(t, i), items[i], Assembled(t, items), data, base, HeadTotal(t, i), HeadTotal(t, |items|),
      TailStart(t, items, i));
  }

  lemma Located(u: Type, e: seq<u8>, s: seq<u8>, data: seq<u8>, base: nat, at: nat, minimumTail: nat, offset: nat)
    returns (start: nat)
    requires Placed(s, at, offset, u, e) && ItemSized(u, e) && At(data, base, s) && |data| <= INT_MAX
    requires minimumTail <= offset
    ensures At(data, start, e) && Start(u, data, base, at, minimumTail) == Some(start)
  {
    hide BigEndian, ToBytes, Pow;
    if Static(u) {
      Within(data, base, s, at, e);
      start := base + at;
    } else {
      Within(data, base, s, at, Word(offset));
      Within(data, base, s, offset, e);
      NumberOfWord(offset);
      start := base + offset;
    }
  }
}
