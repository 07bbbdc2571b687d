/** ABIEncoder, the older encoder: it appends exactly the bytes the newer one produces. */
module SolidityEncoder {
  import opened Arith
  import opened ByteStrings
  import opened AbiTypes
  import opened Options
  import opened AbiSpec
  import opened AbiRoundTrip
  import opened SolidityValues
  import TwosComplement

  // ---- lengths ----

  lemma WordsPadded(n: nat)
    ensures Words(n) == n + Padding(n) && Whole(Words(n)) && (1 <= n <= 32 ==> Words(n) == 32)
  {
    var q, r := n / 32, n % 32;
    assert n == 32 * q + r;
    assert (n + 31) / 32 == if r == 0 then q else q + 1;
    PaddedWhole(n);
  }

  /** What a value contributes: its encoding, or as many bytes if an address in it is unusable. */
  function Contribution(v: ABIValue): seq<u8>
    requires InMemory(v) && Valid(v)
  {
    SameEncodable(v);
    if Usable(v) then Enc(NewType(v), ToValue(v)) else Zeros(Length(v))
  }

  function Contributions(values: seq<ABIValue>): (r: seq<seq<u8>>)
    requires AllValid(values)
    ensures |r| == |values|
  {
    seq(|values|, i requires 0 <= i < |values| => Contribution(values[i]))
  }

  predicate AllValid(values: seq<ABIValue>)
  {
    forall i :: 0 <= i < |values| ==> InMemory(values[i]) && Valid(values[i])
  }

  /** The values are the elements of a container of type t. */
  ghost predicate ElementsOf(t: Type, values: seq<ABIValue>)
    requires AllValid(values)
  {
    HasCount(t, |values|) && forall i :: 0 <= i < |values| ==> ElementType(t, i) == NewType(values[i])
  }

  /** length is the number of bytes a value encodes to; for a static one it is the head size of its type. */
  lemma {:induction false} LengthIsSize(v: ABIValue)
    requires InMemory(v) && Valid(v)
    ensures Whole(Length(v)) && |Contribution(v)| == Length(v)
    ensures IsDynamic(v) <==> !Static(NewType(v))
    ensures !IsDynamic(v) ==> Length(v) == HeadSize(NewType(v))
    decreases v, 1, 0
  {
    DynamicByType(v);
    SameStatic(TypeOf(v));
    SameEncodable(v);
    if IsList(v) {
      ElementLengths(v, NewType(v));
      ListLength(v, NewType(v));
    } else {
      LeafLength(v);
    }
  }

  lemma ListLength(v: ABIValue, t: Type)
    requires InMemory(v) && Valid(v) && IsList(v) && t == NewType(v)
    requires AllValid(Elements(v)) && ElementsOf(t, Elements(v)) && Sized(t, Contributions(Elements(v)))
    requires forall i :: 0 <= i < |Elements(v)| ==> LengthFits(Elements(v)[i])
    ensures Whole(Length(v)) && |Contribution(v)| == Length(v)
    ensures Static(t) ==> Length(v) == HeadSize(t)
  {
    hide Static, HeadSize, HeadTotal, Heads, Tails, Enc, Encodable, Valid, InMemory, Usable, TypeOf, ToType, ToValue,
      LengthFits;
    var vs := Elements(v);
    var items := Contributions(vs);
    TupleLengthIsSize(t, vs, |vs|);
    SequenceSize(t, items);
    WholeSum(32, |Assembled(t, items)|);
    LengthOfList(v, t);
    if Usable(v) { UsableList(v, t); }
  }

  lemma LengthOfList(v: ABIValue, t: Type)
    requires InMemory(v) && Valid(v) && IsList(v) && t == NewType(v)
    ensures Length(v) == (if IsDynamicArray(t) then 32 else 0) + TupleLength(Elements(v), |Elements(v)|)
    ensures Static(t) ==> !IsDynamicArray(t)
    ensures Whole(0) && Whole(32)
  {
    ValidElements(v);
  }

  lemma UsableList(v: ABIValue, t: Type)
    requires InMemory(v) && Valid(v) && IsList(v) && t == NewType(v) && Usable(v)
    requires AllValid(Elements(v)) && ElementsOf(t, Elements(v))
    ensures Contribution(v) == (if IsDynamicArray(t) then Word(|Elements(v)|) else [])
      + Assembled(t, Contributions(Elements(v)))
  {
    hide Static, HeadSize, HeadTotal, Heads, Tails, Encodable, Valid, InMemory, TypeOf, ToType;
    SameEncodable(v);
    var es := ToValue(v).elements;
    forall i | 0 <= i < |es| ensures EncItems(t, es)[i] == Contributions(Elements(v))[i] {
      SameEncodable(Elements(v)[i]);
    }
    assert EncItems(t, es) == Contributions(Elements(v));
    EncOfList(t, es);
    assert [] + EncSeq(t, es) == EncSeq(t, es);
    assert Contribution(v) == Enc(t, List(es));
  }

  lemma LeafLength(v: ABIValue)
    requires InMemory(v) && Valid(v) && !IsList(v)
    ensures Whole(Length(v)) && |Contribution(v)| == Length(v)
    ensures !IsDynamic(v) ==> Length(v) == HeadSize(NewType(v))
  {
    hide Words, Pow, Product, Static;
    SameEncodable(v);
    assert Whole(32);
    match v {
      case BytesValue(bytes) => WordsPadded(|bytes|);
      case DynamicBytesValue(bytes) => WordsPadded(|bytes|); WholeSum(32, Words(|bytes|));
      case StringValue(utf8) => WordsPadded(|utf8|); WholeSum(32, Words(|utf8|));
      case _ =>
    }
  }

  lemma {:induction false} ElementLengths(v: ABIValue, t: Type)
    requires InMemory(v) && Valid(v) && IsList(v) && t == NewType(v)
    ensures AllValid(Elements(v)) && ElementsOf(t, Elements(v)) && Sized(t, Contributions(Elements(v)))
    ensures forall i :: 0 <= i < |Elements(v)| ==> LengthFits(Elements(v)[i])
    decreases v, 0, 0
  {
    ValidElements(v);
    var items := Contributions(Elements(v));
    forall i | 0 <= i < |Elements(v)| ensures ItemSized(ElementType(t, i), items[i]) && LengthFits(Elements(v)[i]) {
      LengthIsSize(Elements(v)[i]);
    }
  }

  /** length and isDynamic agree with the type of the value. */
  ghost predicate LengthFits(v: ABIValue)
    requires InMemory(v) && Valid(v)
  {
    && |Contribution(v)| == Length(v) && (IsDynamic(v) <==> !Static(NewType(v)))
    && (!IsDynamic(v) ==> Length(v) == HeadSize(NewType(v)))
  }

  lemma {:induction false} TupleLengthIsSize(t: Type, values: seq<ABIValue>, n: nat)
    requires AllValid(values) && ElementsOf(t, values) && n <= |values|
    requires forall i :: 0 <= i < |values| ==> LengthFits(values[i])
    ensures TupleLength(values, n) == |Heads(t, Contributions(values), n)| + |Tails(t, Contributions(values), n)|
    decreases n
  {
    hide Valid, InMemory, TypeOf, ToType, Static, HeadSize, Contribution, Word, ElementType, IsDynamic, NewType, Pow,
      TailStart, ToBytes;
    if n > 0 {
      TupleLengthIsSize(t, values, n - 1);
      assert LengthFits(values[n - 1]);
    }
  }

  // ---- what has been written ----

  /** Elements whose addresses can all be encoded. */
  predicate AllUsable(values: seq<ABIValue>, n: nat)
    requires n <= |values|
  {
    forall i :: 0 <= i < n ==> Usable(values[i])
  }

  lemma AllFit(t: Type, values: seq<ABIValue>)
    requires AllValid(values) && ElementsOf(t, values)
    ensures forall i :: 0 <= i < |values| ==> LengthFits(values[i])
    ensures Sized(t, Contributions(values))
  {
    var items := Contributions(values);
    forall i | 0 <= i < |values| ensures LengthFits(values[i]) && ItemSized(ElementType(t, i), items[i]) {
      LengthIsSize(values[i]);
    }
  }

  /** Offsets are within the length of the whole. */
  lemma OffsetsFit(t: Type, values: seq<ABIValue>, n: nat)
    requires AllValid(values) && ElementsOf(t, values) && n <= |values|
    ensures HeadTotal(t, |values|) + |Tails(t, Contributions(values), n)| <= TupleLength(values, |values|)
    ensures HeadTotal(t, n) <= HeadTotal(t, |values|)
  {
    hide Valid, InMemory, TypeOf, ToType, Static, HeadSize, Contribution, Word, Heads, Tails, LengthFits;
    AllFit(t, values);
    TupleLengthIsSize(t, values, |values|);
    AssembledSize(t, Contributions(values), |values|);
    TailsGrow(t, Contributions(values), n, |values|);
    HeadsGrow(t, n, |values|);
  }

  lemma {:induction false} TailsGrow(t: Type, items: seq<seq<u8>>, m: nat, n: nat)
    requires HasCount(t, |items|) && m <= n <= |items|
    ensures |Tails(t, items, m)| <= |Tails(t, items, n)|
    decreases n
  {
    if m < n { TailsGrow(t, items, m, n - 1); }
  }

  lemma {:induction false} HeadsGrow(t: Type, m: nat, n: nat)
    requires HasCount(t, n) && m <= n
    ensures HeadTotal(t, m) <= HeadTotal(t, n)
  {
    AbiReading.HeadTotalGrows(t, m, n);
  }

  /** The older encoder: every encode call appends to data, or reports an error. */
  class ABIEncoder {
    var data: seq<u8>

    constructor ()
      ensures data == []
    {
      data := [];
    }

    method EncodeBool(value: bool)
      modifies this
      ensures data == old(data) + Word(if value then 1 else 0)
    {
      BoolWord(if value then 1 else 0);
      data := data + Zeros(31);
      data := data + [if value then 1 else 0];
    }

    /** encode(_: BigUInt) */
    method EncodeBigUInt(value: nat) returns (ok: bool)
      modifies this
      ensures ok <==> value < TWO256
      ensures data == if ok then old(data) + Word(value) else old(data)
    {
      WordPowers();
      PaddedSerialization(value, 32);
      var valueData := Serialize(value);
      if |valueData| > 32 { return false; }
      data := data + Zeros(32 - |valueData|);
      data := data + valueData;
      assert old(data) + Zeros(32 - |valueData|) + valueData == old(data) + (Zeros(32 - |valueData|) + valueData);
      return true;
    }

    /** encode(_: BigInt) */
    method EncodeBigInt(value: int) returns (ok: bool)
      modifies this
      ensures ok <==> FitsSigned(value, 256)
      ensures data == if ok then old(data) + SignedWord(value) else old(data)
    {
      WordPowers();
      WidthsExact(256);
      var valueData := TwosComplement.AbiEncode(value, 256);
      if valueData.None? { return false; }
      if value < 0 { DivModUnique(value, TWO256, -1, TWO256 + value); } else { DivModUnique(value, TWO256, 0, value); }
      data := data + valueData.value;
      return true;
    }

    /** encode(_: Int) */
    method EncodeInt(value: Int64) returns (ok: bool)
      requires value >= 0
      modifies this
      ensures ok && data == old(data) + Word(value)
    {
      WordPowers();
      DivModUnique(value, TWO256, 0, value);
      ok := EncodeBigInt(value);
    }

    /** encode(_:static:) */
    method EncodeBytes(bytes: seq<u8>, isStatic: bool) returns (ok: bool)
      requires |bytes| <= INT_MAX
      modifies this
      ensures ok <==> (isStatic ==> 1 <= |bytes| <= 32)
      ensures data == if ok then old(data) + (if isStatic then [] else Word(|bytes|)) + PadRight(bytes) else old(data)
    {
      hide Words, Padding, Whole, ToBytes;
      if isStatic && !ValidType(BytesType(|bytes|)) { return false; }
      ok := true;
      if !isStatic { ok := EncodeInt(|bytes|); }
      WordsPadded(|bytes|);
      var padding := Words(|bytes|) - |bytes|;
      ghost var before := data;
      data := data + bytes;
      data := data + Zeros(padding);
      assert before + bytes + Zeros(padding) == before + (bytes + Zeros(padding));
      assert old(data) + [] == old(data);
    }

    /** encode(_: Address) */
    method EncodeAddress(raw: seq<u8>) returns (ok: bool)
      modifies this
      ensures ok <==> EvmAddress20(raw).Some?
      ensures data == if ok then old(data) + (Zeros(12) + EvmAddress20(raw).value) else old(data)
      ensures ok <==> exists a :: StandsFor(raw, a)
      ensures forall a :: StandsFor(raw, a) ==> data == old(data) + (Zeros(12) + a)
    {
      forall a | StandsFor(raw, a) ensures EvmAddress20(raw) == Some(a) { FormOfAddress(raw, a); }
      if EvmAddress20(raw).Some? { AddressOfForm(raw); }
      var addressData := EvmAddress20(raw);
      if addressData.None? { return false; }
      data := data + Zeros(32 - |addressData.value|);
      data := data + addressData.value;
      assert old(data) + Zeros(12) + addressData.value == old(data) + (Zeros(12) + addressData.value);
      return true;
    }

    /** encode(_: String) */
    method EncodeString(utf8: seq<u8>) returns (ok: bool)
      requires |utf8| <= INT_MAX
      modifies this
      ensures ok <==> ValidUtf8(utf8)
      ensures data == if ok then old(data) + Word(|utf8|) + PadRight(utf8) else old(data)
    {
      if !ValidUtf8(utf8) { return false; }
      ok := EncodeBytes(utf8, false);
    }

    /** encode(_: ABIValue): succeeds exactly on valid values with usable addresses, and then appends the
        newer encoder's bytes for the same value of the same type. */
    method Encode(value: ABIValue) returns (ok: bool)
      requires InMemory(value)
      modifies this
      ensures ok <==> Valid(value) && Usable(value)
      ensures ok ==> data == old(data) + Contribution(value)
      decreases value, 3
    {
      hide Contribution, Enc, Encodable, Static, AbiTypes.HeadSize, HeadTotal, ToType, TypeOf, Heads, Tails,
        LengthFits, Contributions, Word, Valid, Assembled, ElementsOf, EncItems, Sized, TailStart, ToBytes,
        TupleLength, ValidUtf8, Words;
      if !Valid(value) { return false; }
      if !IsList(value) {
        ok := EncodeLeaf(value);
        return;
      }
      ghost var t := NewType(value);
      ElementLengths(value, t);
      LengthOfList(value, t);
      if value.DynamicArrayValue? { ok := EncodeInt(|value.values|); }
      ok := EncodeTuple(value.values, t);
      if ok {
        UsableList(value, t);
        ghost var body := Assembled(t, Contributions(value.values));
        assert old(data) + Word(|value.values|) + body == old(data) + (Word(|value.values|) + body);
        assert old(data) + body == old(data) + ([] + body);
      }
    }

    /** The branches of encode for values that are not lists. */
    method EncodeLeaf(value: ABIValue) returns (ok: bool)
      requires InMemory(value) && Valid(value) && !IsList(value)
      modifies this
      ensures ok <==> Usable(value)
      ensures ok ==> data == old(data) + Contribution(value)
    {
      hide *;
      LeafRanges(value);
      UsableLeaf(value);
      if Usable(value) { LeafForm(value); }
      match value {
        case UIntValue(_, n) => ok := EncodeBigUInt(n);
        case UFixedValue(_, _, n) => ok := EncodeBigUInt(n);
        case IntValue(_, i) => ok := EncodeBigInt(i);
        case FixedValue(_, _, i) => ok := EncodeBigInt(i);
        case AddressValue(raw) => ok := EncodeAddress(raw);
        case BoolValue(b) => EncodeBool(b); ok := true;
        case BytesValue(bytes) => ok := EncodeBytes(bytes, true); assert old(data) + [] == old(data);
        case DynamicBytesValue(bytes) => ok := EncodeBytes(bytes, false);
          assert old(data) + Word(|bytes|) + PadRight(bytes) == old(data) + (Word(|bytes|) + PadRight(bytes));
        case StringValue(utf8) => ok := EncodeString(utf8);
          assert old(data) + Word(|utf8|) + PadRight(utf8) == old(data) + (Word(|utf8|) + PadRight(utf8));
      }
    }

    /** encode(tuple:), of the elements of a container of type t. */
    method EncodeTuple(values: seq<ABIValue>, ghost t: Type) returns (ok: bool)
      requires forall i :: 0 <= i < |values| ==> InMemory(values[i])
      requires TupleLength(values, |values|) <= INT_MAX
      requires AllValid(values) ==> ElementsOf(t, values)
      modifies this
      ensures ok <==> AllValid(values) && AllUsable(values, |values|)
      ensures ok ==> data == old(data) + Assembled(t, Contributions(values))
      decreases values, 2
    {
      hide Valid, Contribution, TypeOf, ToType, Usable, AllValid, Contributions, Heads, Tails, ElementType, Elements,
        HasCount, HeadTotal, IsDynamic, IsList, Length, NewType;
      var headSize;
      ok, headSize := HeadSize(values, t);
      if !ok { return; }
      ok := EncodeHeads(values, headSize, t);
      if !ok { return; }
      ghost var items := Contributions(values);
      ghost var heads := data;
      ok := EncodeTails(values, t);
      assert old(data) + Heads(t, items, |values|) + Tails(t, items, |values|)
        == old(data) + (Heads(t, items, |values|) + Tails(t, items, |values|));
    }

    /** The first loop of encode(tuple:): the size of all heads, of valid values. */
    method HeadSize(values: seq<ABIValue>, ghost t: Type) returns (ok: bool, headSize: Int64)
      requires forall i :: 0 <= i < |values| ==> InMemory(values[i])
      requires TupleLength(values, |values|) <= INT_MAX
      requires AllValid(values) ==> ElementsOf(t, values)
      ensures ok <==> AllValid(values)
      ensures ok ==> headSize == HeadTotal(t, |values|)
      decreases values, 1
    {
      hide TypeOf, ToType, Valid, IsDynamic, Length;
      headSize := 0;
      var i := 0;
      while i < |values|
        invariant 0 <= i <= |values|
        invariant forall j :: 0 <= j < i ==> Valid(values[j])
        invariant headSize == HeadSum(values, i)
      {
        var value := values[i];
        HeadSumFits(values, i + 1);
        if !Valid(value) { return false, headSize; }
        if IsDynamic(value) {
          headSize := headSize + 32;
        } else {
          headSize := headSize + Length(value);
        }
        i := i + 1;
      }
      assert AllValid(values);
      HeadSumIsTotal(t, values, |values|);
      ok := true;
    }

    /** The second loop: static values, and the offsets of dynamic ones. */
    method EncodeHeads(values: seq<ABIValue>, headSize: Int64, ghost t: Type) returns (ok: bool)
      requires AllValid(values) && ElementsOf(t, values) && TupleLength(values, |values|) <= INT_MAX
      requires headSize == HeadTotal(t, |values|)
      modifies this
      ensures ok <==> forall i :: 0 <= i < |values| && !IsDynamic(values[i]) ==> Usable(values[i])
      ensures ok ==> data == old(data) + Heads(t, Contributions(values), |values|)
      decreases values, 1
    {
      hide Valid, Contribution, TypeOf, ToType, Static, AbiTypes.HeadSize, HeadTotal, Word, Heads, Tails, InMemory,
        Usable;
      ghost var items := Contributions(values);
      NoContribution(t, values);
      var dynamicOffset: Int64, i := 0, 0;
      while i < |values|
        invariant 0 <= i <= |values|
        invariant forall j :: 0 <= j < i && !IsDynamic(values[j]) ==> Usable(values[j])
        invariant dynamicOffset == |Tails(t, items, i)|
        invariant data == old(data) + Heads(t, items, i)
      {
        var value := values[i];
        OffsetsFit(t, values, i);
        OffsetsFit(t, values, i + 1);
        NextContribution(t, values, i);
        if IsDynamic(value) {
          ok := EncodeInt(headSize + dynamicOffset);
          dynamicOffset := dynamicOffset + Length(value);
        } else {
          ok := Encode(value);
          if !ok { return; }
        }
        i := i + 1;
      }
      ok := true;
    }

    /** The third loop: the dynamic values. */
    method EncodeTails(values: seq<ABIValue>, ghost t: Type) returns (ok: bool)
      requires AllValid(values) && ElementsOf(t, values) && TupleLength(values, |values|) <= INT_MAX
      modifies this
      ensures ok <==> forall i :: 0 <= i < |values| && IsDynamic(values[i]) ==> Usable(values[i])
      ensures ok ==> data == old(data) + Tails(t, Contributions(values), |values|)
      decreases values, 1
    {
      hide Valid, Contribution, TypeOf, ToType, Static, AbiTypes.HeadSize, HeadTotal, Word, Heads, Tails, InMemory,
        Usable;
      ghost var items := Contributions(values);
      NoContribution(t, values);
      var i := 0;
      while i < |values|
        invariant 0 <= i <= |values|
        invariant forall j :: 0 <= j < i && IsDynamic(values[j]) ==> Usable(values[j])
        invariant data == old(data) + Tails(t, items, i)
      {
        NextContribution(t, values, i);
        if IsDynamic(values[i]) {
          ok := Encode(values[i]);
          if !ok { return; }
        }
        i := i + 1;
      }
      ok := true;
    }
  }

  /** What the first loop of encode(tuple:) adds up. */
  function HeadSum(values: seq<ABIValue>, n: nat): nat
    requires n <= |values|
  {
    if n == 0 then 0 else HeadSum(values, n - 1) + if IsDynamic(values[n - 1]) then 32 else Length(values[n - 1])
  }

  lemma HeadSumFits(values: seq<ABIValue>, n: nat)
    requires n <= |values|
    ensures HeadSum(values, n) <= TupleLength(values, |values|)
  {
    HeadSumBelow(values, n, |values|);
  }

  lemma {:induction false} HeadSumBelow(values: seq<ABIValue>, m: nat, n: nat)
    requires m <= n <= |values|
    ensures HeadSum(values, m) <= TupleLength(values, n)
    decreases n
  {
    hide IsDynamic, Length;
    if m < n { HeadSumBelow(values, m, n - 1); } else if n > 0 { HeadSumBelow(values, m - 1, n - 1); }
  }

  lemma {:induction false} HeadSumIsTotal(t: Type, values: seq<ABIValue>, n: nat)
    requires AllValid(values) && ElementsOf(t, values) && n <= |values|
    ensures HeadSum(values, n) == HeadTotal(t, n)
  {
    hide Valid, TypeOf, ToType, Static, HeadSize, IsDynamic, Length;
    if n > 0 {
      HeadSumIsTotal(t, values, n - 1);
      LengthIsSize(values[n - 1]);
      DynamicHead(NewType(values[n - 1]));
    }
  }

  lemma DynamicHead(t: Type)
    ensures !Static(t) ==> HeadSize(t) == 32
  {}

  lemma NoContribution(t: Type, values: seq<ABIValue>)
    requires AllValid(values) && ElementsOf(t, values)
    ensures Heads(t, Contributions(values), 0) == [] && Tails(t, Contributions(values), 0) == []
  {}

  /** What an element adds to the heads and to the tails. */
  lemma NextContribution(t: Type, values: seq<ABIValue>, i: nat)
    requires AllValid(values) && ElementsOf(t, values) && i < |values|
    ensures var items, e := Contributions(values), Contribution(values[i]);
      && Heads(t, items, i + 1) == Heads(t, items, i) +
           (if IsDynamic(values[i]) then Word(HeadTotal(t, |values|) + |Tails(t, items, i)|) else e)
      && Tails(t, items, i + 1) == Tails(t, items, i) + (if IsDynamic(values[i]) then e else [])
      && |e| == Length(values[i])
  {
    hide Valid, Contribution, TypeOf, ToType, Static, HeadSize, HeadTotal, Word, Length, ElementType, Elements,
      EncItems;
    LengthIsSize(values[i]);
  }

  /** Numbers of a valid width fit a word. */
  lemma LeafRanges(v: ABIValue)
    requires InMemory(v) && Valid(v)
    ensures v.UIntValue? || v.UFixedValue? ==> v.n < TWO256
    ensures v.IntValue? || v.FixedValue? ==> FitsSigned(v.i, 256)
    ensures v.BytesValue? ==> 1 <= |v.bytes| <= 32 && |v.bytes| <= INT_MAX
    ensures v.DynamicBytesValue? ==> |v.bytes| <= INT_MAX
    ensures v.StringValue? ==> |v.utf8| <= INT_MAX
  {
    hide ToType;
    match v {
      case UIntValue(bits, n) => WidthBound(bits);
      case UFixedValue(bits, _, n) => WidthBound(bits);
      case IntValue(bits, i) => TwosComplement.FitsMono(i, bits, 256);
      case FixedValue(bits, _, i) => TwosComplement.FitsMono(i, bits, 256);
      case _ =>
    }
  }

  lemma UsableLeaf(v: ABIValue)
    requires InMemory(v) && Valid(v) && !IsList(v)
    ensures Usable(v) <==> (v.AddressValue? ==> EvmAddress20(v.raw).Some?) && (v.StringValue? ==> ValidUtf8(v.utf8))
    ensures !v.TupleValue? && !v.ArrayValue? && !v.DynamicArrayValue?
  {
    hide Valid, EvmAddress20, ValidUtf8;
  }

  lemma SmallWord(n: nat)
    requires n < TWO256
    ensures SignedWord(n) == Word(n)
  {
    DivModUnique(n, TWO256, 0, n);
  }

  lemma EncOfLeaf(t: Type, v: Value)
    requires Encodable(t, v) && !v.List?
    ensures Enc(t, v) ==
      match v
      case Integer(i) => SignedWord(i)
      case FixedPoint(i, _) => SignedWord(i)
      case AddressBytes(raw) => Zeros(12) + EvmAddress20(raw).value
      case Flag(b) => Word(if b then 1 else 0)
      case Octets(b) => if t.DynamicBytes? then Word(|b|) + PadRight(b) else b + Zeros(32 - |b|)
      case Text(b) => Word(|b|) + PadRight(b)
  {
    hide SignedWord, Word, PadRight, EvmAddress20, ValidUtf8, FitsSigned, FitsUnsigned;
  }

  /** The newer ABI's value and type of a value that is not a list. */
  lemma LeafValue(v: ABIValue)
    requires InMemory(v) && Valid(v) && !IsList(v)
    ensures var w := ToValue(v);
      match v
      case UIntValue(_, n) => w == Integer(n)
      case UFixedValue(_, _, n) => w.FixedPoint? && w.scaled == n
      case IntValue(_, i) => w == Integer(i)
      case FixedValue(_, _, i) => w.FixedPoint? && w.scaled == i
      case AddressValue(raw) => w == AddressBytes(raw)
      case BoolValue(b) => w == Flag(b)
      case BytesValue(bytes) => w == Octets(bytes) && !NewType(v).DynamicBytes?
      case DynamicBytesValue(bytes) => w == Octets(bytes) && NewType(v).DynamicBytes?
      case StringValue(utf8) => w == Text(utf8)
      case _ => true
  {
    hide EvmAddress20, ValidUtf8, FitsSigned, FitsUnsigned, Usable;
  }

  lemma LeafForm(v: ABIValue)
    requires InMemory(v) && Valid(v) && !IsList(v) && Usable(v)
    ensures Contribution(v) ==
      match v
      case UIntValue(_, n) => Word(n)
      case UFixedValue(_, _, n) => Word(n)
      case IntValue(_, i) => SignedWord(i)
      case FixedValue(_, _, i) => SignedWord(i)
      case AddressValue(raw) => Zeros(12) + EvmAddress20(raw).value
      case BoolValue(b) => Word(if b then 1 else 0)
      case BytesValue(bytes) => PadRight(bytes)
      case DynamicBytesValue(bytes) => Word(|bytes|) + PadRight(bytes)
      case StringValue(utf8) => Word(|utf8|) + PadRight(utf8)
      case _ => []
  {
    hide SignedWord, Word, PadRight, EvmAddress20, ValidUtf8, Enc, Encodable, ToValue, NewType, Valid, InMemory, Usable;
    LeafRanges(v);
    SameEncodable(v);
    LeafValue(v);
    UsableLeaf(v);
    EncOfLeaf(NewType(v), ToValue(v));
    match v {
      case UIntValue(_, n) => SmallWord(n);
      case UFixedValue(_, _, n) => SmallWord(n);
      case BytesValue(bytes) => OneWordPadded(bytes);
      case _ =>
    }
  }

  lemma OneWordPadded(bytes: seq<u8>)
    requires 1 <= |bytes| <= 32
    ensures PadRight(bytes) == bytes + Zeros(32 - |bytes|)
  {}

  lemma BoolWord(b: nat)
    requires b <= 1
    ensures Zeros(31) + [b] == Word(b)
  {
    hide ToBytes, Zeros;
    ZeroBytes(31);
    LastByte(0, b, 31);
  }
}
