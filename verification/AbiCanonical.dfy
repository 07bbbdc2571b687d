/** What the decoder returns is in canonical form; for static types, so is what it accepts. */
module AbiCanonical {
  import opened Arith
  import opened Digits
  import opened ByteStrings
  import opened AbiTypes
  import opened Options
  import opened AbiSpec
  import opened AbiReading
  import opened AbiRoundTrip
  import opened AbiDecoder

  /** A value of the type in the form the decoder uses: encoding and decoding leave it as it is. */
  predicate Canonical(t: Type, v: Value)
  {
    Encodable(t, v) && Normalize(t, v) == v
  }

  lemma WordCanonical(t: Type, word: seq<u8>)
    requires |word| == 32 && FromWord(t, word).Some?
    ensures Canonical(t, FromWord(t, word).value)
  {
    hide Pow, BigEndian;
    var v := FromWord(t, word).value;
    if t.Bytes? {
      assert v.bytes + Zeros(0) == v.bytes;
    }
  }

  /** Whatever is read from any data is a canonical value of its type. */
  lemma {:induction false} BodyCanonical(t: Type, data: seq<u8>, start: nat)
    requires start <= |data| && Body(t, data, start).Some?
    ensures Canonical(t, Body(t, data, start).value)
    decreases t, 1
  {
    hide BigEndian, Pow, HeadSize, Static;
    if IsContainer(t) {
      BodyOfContainer(t, data, start);
      var place := Place(t, data, start).value;
      ItemsCanonical(t, data, place.0, place.1);
    } else if OneWord(t) {
      BodyOfWord(t, data, start);
      WordCanonical(t, Read(data, start, 32).value);
    }
  }

  lemma {:induction false} ItemsCanonical(t: Type, data: seq<u8>, base: nat, n: nat)
    requires HasCount(t, n) && Items(t, data, base, n).Some? && (IsDynamicArray(t) ==> n <= INT_MAX)
    ensures Canonical(t, Items(t, data, base, n).value)
    decreases t, 0
  {
    hide Body, Start, HeadTotal, Static, HeadSize;
    var es := ItemsOf(t, data, base, n);
    forall i | 0 <= i < n ensures Canonical(ElementType(t, i), es[i]) {
      var u := ElementType(t, i);
      assert Item(t, data, base, n, i) == Some(es[i]);
      BodyCanonical(u, data, Start(u, data, base, HeadTotal(t, i), HeadTotal(t, n)).value);
    }
    CanonicalList(t, es);
  }

  lemma CanonicalList(t: Type, es: seq<Value>)
    requires HasCount(t, |es|) && (IsDynamicArray(t) ==> |es| <= INT_MAX)
    requires forall i :: 0 <= i < |es| ==> Canonical(ElementType(t, i), es[i])
    ensures Canonical(t, List(es))
  {
    assert forall i :: 0 <= i < |es| ==> Canonical(ElementType(t, i), es[i]) && Encodable(ElementType(t, i), es[i]);
    assert Normalize(t, List(es)).elements == es;
  }

  // ---- static types: only the encoding is accepted ----

  lemma SignedIsWord(word: seq<u8>)
    requires |word| == 32
    ensures SignedWord(Signed(word)) == word && -TWO255 <= Signed(word) < TWO255
    ensures SignedWord(Number(word)) == word
  {
    hide Pow, BigEndian, ToBytes;
    BytesOfNumber(word);
    WordPowers();
    SignBit(word);
    var n := Number(word);
    DivModUnique(n, TWO256, 0, n);
    if word[0] >= 0x80 { DivModUnique(n - TWO256, TWO256, -1, n); }
  }

  lemma WordExact(t: Type, word: seq<u8>)
    requires |word| == 32 && FromWord(t, word).Some? && WellFormed(t)
    ensures Encodable(t, FromWord(t, word).value) && Enc(t, FromWord(t, word).value) == word
  {
    hide Pow, BigEndian;
    SignedIsWord(word);
    WordCanonical(t, word);
    if t.Address? || t.Bytes? || t.Function? {
      PaddingExact(word, if t.Bytes? then t.length else 24);
    }
    if t.Bool? { BoolExact(word); }
  }

  lemma PaddingExact(word: seq<u8>, n: nat)
    requires |word| == 32 && n <= 32
    ensures AllZero(word[n..]) ==> word[..n] + Zeros(32 - n) == word
    ensures AllZero(word[..12]) ==> Zeros(12) + word[12..] == word
  {
    assert word == word[..n] + word[n..] && word == word[..12] + word[12..];
  }

  lemma BoolExact(word: seq<u8>)
    requires |word| == 32 && Number(word) <= 1
    ensures Word(if Number(word) == 1 then 1 else 0) == word
  {
    hide BigEndian, Pow, ToBytes;
    BytesOfNumber(word);
  }

  /** A static value is accepted only in the form the encoder gives it. */
  lemma {:induction false} StaticExact(t: Type, data: seq<u8>, start: nat)
    requires Static(t) && WellFormed(t) && start <= |data| && Body(t, data, start).Some?
    ensures var v := Body(t, data, start).value; Encodable(t, v) && At(data, start, Enc(t, v))
    decreases t, 2
  {
    hide BigEndian, Pow, HeadSize, HeadTotal, Body, Enc, Encodable, WellFormed;
    StaticKinds(t);
    if IsContainer(t) {
      BodyOfContainer(t, data, start);
      ItemsExact(t, data, start, Place(t, data, start).value.1);
      EncOfList(t, ItemsOf(t, data, start, Place(t, data, start).value.1));
    } else {
      BodyOfWord(t, data, start);
      WordExact(t, Read(data, start, 32).value);
    }
  }

  lemma StaticKinds(t: Type)
    requires Static(t)
    ensures !IsDynamicArray(t) && (IsContainer(t) || OneWord(t))
  {}

  /** A static element stands right where its head is. */
  lemma StaticAnnounced(u: Type, data: seq<u8>, base: nat, at: nat, minimumTail: nat)
    requires Static(u) && Announced(u, data, base, at, minimumTail).Some?
    ensures base + at <= |data| && Body(u, data, base + at) == Announced(u, data, base, at, minimumTail)
  {
    hide Body, Static, HeadSize;
  }

  lemma {:induction false} ItemExact(t: Type, data: seq<u8>, base: nat, n: nat, i: nat, v: Value)
    requires WellFormed(t) && HasCount(t, n) && i < n && Static(ElementType(t, i))
      && Item(t, data, base, n, i) == Some(v)
    ensures Encodable(ElementType(t, i), v) && At(data, base + HeadTotal(t, i), Enc(ElementType(t, i), v))
    decreases t, 0
  {
    hide Body, HeadTotal, HeadSize, Enc, Encodable, WellFormed, Static, Announced;
    ElementWellFormed(t, i);
    StaticAnnounced(ElementType(t, i), data, base, HeadTotal(t, i), HeadTotal(t, n));
    StaticExact(ElementType(t, i), data, base + HeadTotal(t, i));
  }

  lemma {:induction false} ItemsExact(t: Type, data: seq<u8>, base: nat, n: nat)
    requires Static(t) && WellFormed(t) && HasCount(t, n) && base + HeadTotal(t, n) <= |data|
      && Items(t, data, base, n).Some?
    ensures var es := ItemsOf(t, data, base, n); Encodable(t, List(es)) && At(data, base, EncSeq(t, es))
    decreases t, 1
  {
    hide Body, HeadTotal, HeadSize, Enc, Static, Item, Items, ItemsOf, WellFormed, Normalize, Announced, Encodable,
      ElementType, FitsUnsigned, Heads, IsContainer, ItemSized, OneWord, Pow, Sized, Tails, ValidUtf8;
    var es := ItemsOf(t, data, base, n);
    StaticKinds(t);
    ItemsCanonical(t, data, base, n);
    StaticHeadTotal(t, n);
    var items := EncItems(t, es);
    EncItemsSized(t, es);
    forall i | 0 <= i < n ensures InPlace(t, data, base, items, i) { ItemExact(t, data, base, n, i, es[i]); }
    HeadsExact(t, data, base, items, n);
    NoTails(t, items, n);
  }

  ghost predicate InPlace(t: Type, data: seq<u8>, base: nat, items: seq<seq<u8>>, i: nat)
    requires HasElement(t, i) && i < |items|
  {
    Static(ElementType(t, i)) && At(data, base + HeadTotal(t, i), items[i])
  }

  lemma {:induction false} HeadsExact(t: Type, data: seq<u8>, base: nat, items: seq<seq<u8>>, n: nat)
    requires Sized(t, items) && n <= |items| && base <= |data|
    requires forall i :: 0 <= i < n ==> InPlace(t, data, base, items, i)
    ensures At(data, base, Heads(t, items, n))
  {
    hide HeadSize, HeadTotal, Word, Static, ElementType, ItemSized;
    if n > 0 {
      HeadsExact(t, data, base, items, n - 1);
      AssembledSize(t, items, n - 1);
      assert InPlace(t, data, base, items, n - 1);
      Adjacent(data, base, Heads(t, items, n - 1), items[n - 1], base + HeadTotal(t, n - 1));
      assert HeadOf(t, items, n - 1) == items[n - 1];
    }
  }

  lemma Adjacent(data: seq<u8>, at: nat, s: seq<u8>, e: seq<u8>, next: nat)
    requires At(data, at, s) && At(data, next, e) && next == at + |s|
    ensures At(data, at, s + e)
  {
    assert data[at..at + |s| + |e|] == data[at..at + |s|] + data[at + |s|..at + |s| + |e|];
  }
}
