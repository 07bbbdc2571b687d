/** Encoder and decoder together: what one does the other undoes, and what both take from the budgets. */
module AbiCodec {
  import opened Arith
  import opened ByteStrings
  import opened AbiTypes
  import opened Options
  import opened AbiSpec
  import opened AbiReading
  import opened AbiRoundTrip
  import opened AbiCosts
  import opened AbiCanonical
  import AbiEncoder
  import AbiDecoder

  // ---- the entry points ----

  /** ABIv2Encoder.encode(types:values:) */
  method Encode(types: seq<Type>, values: seq<Value>) returns (r: Option<seq<u8>>)
    ensures r.Some? <==>
      && Encodable(Tuple(types), List(values)) && AbiEncoder.AllAccepted(types, 0)
      && Covers(INITIAL, SequenceCost(Encoding, Tuple(types), values))
    ensures r.Some? ==> r.value == EncSeq(Tuple(types), values)
  {
    hide Encodable, Cost, EncSeq, Height, WellFormed;
    assert Encodable(Tuple(types), List(values)) ==> |types| == |values| by { CountOfTuple(types, values); }
    var left;
    r, left := AbiEncoder.EncodeSequence(types, values, 0, INITIAL, Tuple(types));
  }

  lemma CountOfTuple(types: seq<Type>, values: seq<Value>)
    ensures Encodable(Tuple(types), List(values)) ==> |types| == |values|
  {}

  /** ABIv2Encoder.encodeSingleType */
  method EncodeSingleType(t: Type, v: Value) returns (r: Option<seq<u8>>)
    ensures r.Some? <==> Encodable(t, v) && Accepted(t, 0) && Covers(INITIAL, Cost(Encoding, t, v))
    ensures r.Some? ==> r.value == Enc(t, v)
  {
    hide Encodable, Cost, Enc, Height, WellFormed;
    var left;
    r, left := AbiEncoder.EncodeValue(t, v, 0, INITIAL);
  }

  /** ABIv2Decoder.decode(types:data:allowLegacyBytes32: false). On any data, the result is the canonical
      values of the types that the specification's reading finds, or none; nodes and payload left over
      are what the budget held less the values and the payload bytes returned. */
  method Decode(types: seq<Type>, data: seq<u8>) returns (r: Option<seq<Value>>, left: Budget)
    requires |data| <= INT_MAX
    ensures r.Some? <==> AbiDecoder.ItemsDecodable(Tuple(types), data, 0, |types|, 0, INITIAL)
    ensures r.Some? ==> Items(Tuple(types), data, 0, |types|) == Some(List(r.value))
    ensures r.Some? ==> Canonical(Tuple(types), List(r.value))
    ensures r.Some? ==>
      && left.nodes + ValueCounts(r.value) == MAX_NODES
      && left.payload + PayloadOf(Tuple(types), List(r.value)) == MAX_PAYLOAD
  {
    hide Encodable, Cost, Height, WellFormed, Normalize;
    r, left := AbiDecoder.DecodeTuple(types, data, 0, 0, INITIAL);
    if r.Some? {
      ItemsCanonical(Tuple(types), data, 0, |types|);
      ItemsCounted(Decoding, Tuple(types), r.value, |types|);
    }
  }

  // ---- conservation ----

  /** The values in a value, itself included. */
  function ValueCount(v: Value): nat
    decreases v, 0
  {
    if v.List? then 1 + ValueCounts(v.elements) else 1
  }

  function ValueCounts(vs: seq<Value>): nat
    decreases vs, 1
  {
    if |vs| == 0 then 0 else ValueCounts(vs[..|vs| - 1]) + ValueCount(vs[|vs| - 1])
  }

  /** The bytes of all strings and bytes values in a value. */
  function PayloadOf(t: Type, v: Value): nat
    decreases t, 1
  {
    if v.Text? then |v.utf8|
    else if v.Octets? then (if t.DynamicBytes? then |v.bytes| else 0)
    else if v.List? && HasCount(t, |v.elements|) then PayloadsOf(t, v.elements, |v.elements|)
    else 0
  }

  function PayloadsOf(t: Type, vs: seq<Value>, n: nat): nat
    requires n <= |vs| && (n > 0 ==> HasElement(t, n - 1))
    decreases t, 0, n
  {
    if n == 0 then 0 else PayloadsOf(t, vs, n - 1) + PayloadOf(ElementType(t, n - 1), vs[n - 1])
  }

  /** Either direction takes a node for every value and a payload byte for every byte of text or bytes. */
  lemma {:induction false} CostCounted(d: Direction, t: Type, v: Value)
    requires Encodable(t, v)
    ensures Cost(d, t, v).nodes == ValueCount(v) && Cost(d, t, v).payload == PayloadOf(t, v)
    decreases t, 1
  {
    hide Continuation, ElementNodes, ElementType, EvmAddress20, FitsSigned, FitsUnsigned, HasCount;
    if v.List? { ItemsCounted(d, t, v.elements, |v.elements|); }
  }

  lemma {:induction false} ItemsCounted(d: Direction, t: Type, vs: seq<Value>, n: nat)
    requires Encodable(t, List(vs)) && n <= |vs|
    ensures ItemsCost(d, t, vs, n).payload == PayloadsOf(t, vs, n)
    ensures ItemsCost(d, t, vs, n).nodes == ValueCounts(vs[..n])
    ensures n == |vs| ==> vs[..n] == vs
    decreases t, 0, n
  {
    hide Cost, Encodable, PayloadOf, ValueCount;
    if n > 0 {
      ElementEncodable(t, vs, n - 1);
      ItemsCounted(d, t, vs, n - 1);
      CostCounted(d, ElementType(t, n - 1), vs[n - 1]);
      assert vs[..n][..n - 1] == vs[..n - 1];
    }
  }

  // ---- normal forms ----

  /** Normal forms are canonical and have the encoding of the value they come from. */
  lemma {:induction false} NormalizeCanonical(t: Type, v: Value)
    requires Encodable(t, v)
    ensures Canonical(t, Normalize(t, v)) && Enc(t, Normalize(t, v)) == Enc(t, v)
    decreases t, 1
  {
    hide EncSeq, FitsSigned, FitsUnsigned, SignedWord, ValidUtf8;
    match v {
      case Octets(b) =>
        if t.Bytes? {
          assert Normalize(t, v).bytes + Zeros(0) == Normalize(t, v).bytes;
          assert Zeros(t.length - |b|) + Zeros(32 - t.length) == Zeros(32 - |b|);
        }
      case List(es) => NormalizeListCanonical(t, es);
      case _ =>
    }
  }

  lemma {:induction false} NormalizeListCanonical(t: Type, es: seq<Value>)
    requires Encodable(t, List(es))
    ensures Canonical(t, Normalize(t, List(es))) && Enc(t, Normalize(t, List(es))) == Enc(t, List(es))
    decreases t, 0
  {
    hide Enc, EncSeq;
    var fs := Normalize(t, List(es)).elements;
    forall i | 0 <= i < |es|
      ensures Canonical(ElementType(t, i), fs[i]) && Enc(ElementType(t, i), fs[i]) == Enc(ElementType(t, i), es[i])
    {
      ElementEncodable(t, es, i);
      NormalizeCanonical(ElementType(t, i), es[i]);
    }
    CanonicalList(t, fs);
    assert EncItems(t, fs) == EncItems(t, es);
    EncOfList(t, es);
    EncOfList(t, fs);
    SequenceOf(t, es);
    SequenceOf(t, fs);
  }

  lemma SequenceOf(t: Type, es: seq<Value>)
    requires Encodable(t, List(es))
    ensures EncSeq(t, es) == Assembled(t, EncItems(t, es))
  {}

  /** The canonical form costs the same. */
  lemma {:induction false} NormalizedCost(d: Direction, t: Type, v: Value)
    requires Encodable(t, v)
    ensures Cost(d, t, Normalize(t, v)) == Cost(d, t, v)
    decreases t, 1
  {
    if v.List? { NormalizedItemsCost(d, t, v.elements, |v.elements|); }
  }

  lemma {:induction false} NormalizedItemsCost(d: Direction, t: Type, es: seq<Value>, n: nat)
    requires Encodable(t, List(es)) && n <= |es|
    ensures ItemsCost(d, t, Normalize(t, List(es)).elements, n) == ItemsCost(d, t, es, n)
    decreases t, 0, n
  {
    hide Cost, Encodable, Normalize;
    NormalizedElements(t, es);
    if n > 0 {
      ElementEncodable(t, es, n - 1);
      NormalizedItemsCost(d, t, es, n - 1);
      NormalizedCost(d, ElementType(t, n - 1), es[n - 1]);
    }
  }

  lemma NormalizedElements(t: Type, es: seq<Value>)
    requires Encodable(t, List(es))
    ensures HasCount(t, |es|) && forall i :: 0 <= i < |es| ==> Encodable(ElementType(t, i), es[i])
    ensures Normalize(t, List(es)).List? && |Normalize(t, List(es)).elements| == |es|
    ensures forall i :: 0 <= i < |es| ==> Normalize(t, List(es)).elements[i] == Normalize(ElementType(t, i), es[i])
  {
    hide FitsSigned, FitsUnsigned, EvmAddress20, ValidUtf8;
  }

  // ---- round trips ----

  /** Encoding and then decoding, whatever follows the encoding, gives back the values in canonical form.
      The decoder lays out more types than the encoder: its budget of type nodes must suffice for that,
      and it does if the encoder left half of its own. */
  method EncodeThenDecode(types: seq<Type>, values: seq<Value>, trailing: seq<u8>)
    returns (encoded: Option<seq<u8>>, r: Option<seq<Value>>)
    ensures encoded.Some? ==> Encodable(Tuple(types), List(values)) && |types| == |values|
    ensures r.Some? ==> encoded.Some? && List(r.value) == Normalize(Tuple(types), List(values))
    ensures encoded.Some? && |encoded.value| + |trailing| <= INT_MAX ==>
      && (r.Some? <==> SequenceCost(Decoding, Tuple(types), values).typeNodes <= MAX_NODES)
      && (2 * SequenceCost(Encoding, Tuple(types), values).typeNodes <= MAX_NODES ==> r.Some?)
  {
    hide Encodable, Cost, EncSeq, Height, WellFormed, Normalize, Body, Static, HeadSize, HeadTotal;
    CountOfTuple(types, values);
    encoded := Encode(types, values);
    r := None;
    if encoded.Some? && |encoded.value| + |trailing| <= INT_MAX {
      CountOfTuple(types, values);
      var left;
      r, left := Decode(types, encoded.value + trailing);
      SequenceRoundTrip(types, values, encoded.value + trailing);
    }
  }

  lemma SequenceRoundTrip(types: seq<Type>, values: seq<Value>, data: seq<u8>)
    requires Encodable(Tuple(types), List(values)) && AbiEncoder.AllAccepted(types, 0) && |data| <= INT_MAX
    requires At(data, 0, EncSeq(Tuple(types), values))
    requires Covers(INITIAL, SequenceCost(Encoding, Tuple(types), values))
    ensures Items(Tuple(types), data, 0, |types|) == Some(Normalize(Tuple(types), List(values)))
    ensures AbiDecoder.ItemsDecodable(Tuple(types), data, 0, |types|, 0, INITIAL)
      <==> SequenceCost(Decoding, Tuple(types), values).typeNodes <= MAX_NODES
    ensures 2 * SequenceCost(Encoding, Tuple(types), values).typeNodes <= MAX_NODES
      ==> SequenceCost(Decoding, Tuple(types), values).typeNodes <= MAX_NODES
  {
    hide Encodable, Cost, ItemsCost, EncSeq, AbiDecoder.ItemsDecodable, Items, Normalize;
    CountOfTuple(types, values);
    SequenceReadBack(types, values, data);
    ItemsCompared(Tuple(types), values, |types|);
  }

  /** An encoding in front of any data is read back; whether the decoder can afford that depends on its own cost. */
  lemma SequenceReadBack(types: seq<Type>, values: seq<Value>, data: seq<u8>)
    requires Encodable(Tuple(types), List(values)) && AbiEncoder.AllAccepted(types, 0) && |data| <= INT_MAX
    requires At(data, 0, EncSeq(Tuple(types), values))
    ensures |types| == |values| && Items(Tuple(types), data, 0, |types|) == Some(Normalize(Tuple(types), List(values)))
    ensures AbiDecoder.ItemsDecodable(Tuple(types), data, 0, |types|, 0, INITIAL)
      <==> Covers(INITIAL, SequenceCost(Decoding, Tuple(types), values))
  {
    hide Encodable, Cost, Enc, Height, Static, HeadSize, HeadTotal, Body, Start;
    var t, n := Tuple(types), |types|;
    CountOfTuple(types, values);
    EncItemsSized(t, values);
    SequenceSize(t, EncItems(t, values));
    AllWellFormedTuple(types, n);
    ItemsRoundTrip(t, values, data, 0);
    NormalizedItemsCost(Decoding, t, values, n);
    assert AbiDecoder.ItemsOf(t, data, 0, n) == Normalize(t, List(values)).elements;
  }

  // ---- what only the encoder accepts ----

  const FIELD := Uint(256)

  function Fields(n: nat): Type { Tuple(seq(n, _ => FIELD)) }

  function FieldValues(n: nat): seq<Value> { seq(n, _ => Integer(0)) }

  /** A tuple of n numbers lays out 2n types for the encoder and 3n for the decoder: from 333,334 to 500,000 numbers,
      such as 400,000, can be encoded, but the decoder refuses their encoding. */
  lemma FieldsRefused(n: nat)
    ensures Encodable(Fields(n), List(FieldValues(n))) && AbiEncoder.AllAccepted(Fields(n).types, 0)
    ensures Covers(INITIAL, SequenceCost(Encoding, Fields(n), FieldValues(n))) <==> 2 * n <= MAX_NODES
    ensures 2 * n <= MAX_NODES ==>
      var data := EncSeq(Fields(n), FieldValues(n));
      AbiDecoder.ItemsDecodable(Fields(n), data, 0, n, 0, INITIAL) <==> 3 * n <= MAX_NODES
  {
    hide SequenceCost, EncSeq, Encodable, AbiDecoder.ItemsDecodable, AbiEncoder.AllAccepted;
    FieldsEncodable(n);
    FieldsTotals(n);
    if 2 * n <= MAX_NODES { EncodedIsRead(Fields(n).types, FieldValues(n)); }
  }

  lemma EncodedIsRead(types: seq<Type>, values: seq<Value>)
    requires Encodable(Tuple(types), List(values)) && AbiEncoder.AllAccepted(types, 0) && |types| == |values|
    requires Covers(INITIAL, SequenceCost(Encoding, Tuple(types), values))
    ensures AbiDecoder.ItemsDecodable(Tuple(types), EncSeq(Tuple(types), values), 0, |types|, 0, INITIAL)
      <==> SequenceCost(Decoding, Tuple(types), values).typeNodes <= MAX_NODES
  {
    hide EncSeq, Encodable, AbiDecoder.ItemsDecodable, AbiEncoder.AllAccepted, Cost, ItemsCost, HeadTotal;
    AbiEncoder.AffordableFits(Tuple(types), values, INITIAL);
    SequenceRoundTrip(types, values, EncSeq(Tuple(types), values));
  }

  lemma FieldsTotals(n: nat)
    ensures SequenceCost(Encoding, Fields(n), FieldValues(n)) == Budget(n, 2 * n, 0)
    ensures SequenceCost(Decoding, Fields(n), FieldValues(n)) == Budget(n, 3 * n, 0)
  {
    hide ItemsCost, ElementNodes;
    FieldsCost(Encoding, n, n);
    FieldsCost(Decoding, n, n);
  }

  lemma FieldsEncodable(n: nat)
    ensures Encodable(Fields(n), List(FieldValues(n))) && AbiEncoder.AllAccepted(Fields(n).types, 0)
  {}

  lemma {:induction false} FieldsCost(d: Direction, n: nat, k: nat)
    requires k <= n
    ensures ItemsCost(d, Fields(n), FieldValues(n), k) == Budget(k, k, 0) && ElementNodes(Fields(n), k) == k
    decreases k
  {
    hide Cost, ItemsCost, ElementNodes, Nodes;
    var t, vs := Fields(n), FieldValues(n);
    if k == 0 {
      NoCost(d, t, vs);
    } else {
      FieldsCost(d, n, k - 1);
      ItemsCostNext(d, t, vs, k - 1);
      NextNodes(t, k - 1);
      FieldCost(d);
    }
  }

  lemma NoCost(d: Direction, t: Type, vs: seq<Value>)
    ensures ItemsCost(d, t, vs, 0) == Budget(0, 0, 0) && ElementNodes(t, 0) == 0
  {}

  lemma NextNodes(t: Type, k: nat)
    requires HasElement(t, k)
    ensures ElementNodes(t, k + 1) == ElementNodes(t, k) + Nodes(ElementType(t, k))
  {
    hide Nodes;
  }

  lemma FieldCost(d: Direction)
    ensures Cost(d, FIELD, Integer(0)) == Budget(1, 1, 0) && Nodes(FIELD) == 1
  {}

  lemma {:induction false} AllWellFormedTuple(ts: seq<Type>, n: nat)
    requires AbiEncoder.AllAccepted(ts, 0) && n <= |ts| && HeadTotal(Tuple(ts), n) <= INT_MAX
    ensures AllWellFormed(ts, n)
  {
    hide Static, HeadSize, Height, WellFormed;
    HeadTotalOfTuple(ts, n);
    if n > 0 { AllWellFormedTuple(ts, n - 1); }
  }

  // ---- injectivity ----

  /** No data starts with the encodings of two different values: in particular encodings are different, and
      none is a prefix of another. */
  lemma EncodingsDiffer(t: Type, v: Value, w: Value, data: seq<u8>)
    requires WellFormed(t) && Encodable(t, v) && Encodable(t, w) && |data| <= INT_MAX
    requires At(data, 0, Enc(t, v)) && At(data, 0, Enc(t, w))
    ensures Normalize(t, v) == Normalize(t, w) && (Canonical(t, v) && Canonical(t, w) ==> v == w)
  {
    hide At, Enc;
    BodyRoundTrip(t, v, data, 0);
    BodyRoundTrip(t, w, data, 0);
  }

  /** Two values have the same encoding exactly if they have the same normal form. */
  lemma SameEncoding(t: Type, v: Value, w: Value)
    requires WellFormed(t) && Encodable(t, v) && Encodable(t, w) && |Enc(t, v)| <= INT_MAX
    ensures Enc(t, v) == Enc(t, w) <==> Normalize(t, v) == Normalize(t, w)
  {
    hide Enc, Normalize, WellFormed, Encodable;
    NormalizeCanonical(t, v);
    NormalizeCanonical(t, w);
    if Enc(t, v) == Enc(t, w) { EncodingsDiffer(t, v, w, Enc(t, v)); }
  }

  /** Decoded values can be encoded again, and that encoding decodes to the same values. */
  lemma DecodedAgain(t: Type, data: seq<u8>, start: nat)
    requires WellFormed(t) && start <= |data| && Body(t, data, start).Some?
    ensures var v := Body(t, data, start).value;
      Encodable(t, v) && (|Enc(t, v)| <= INT_MAX ==> Body(t, Enc(t, v), 0) == Some(v))
  {
    var v := Body(t, data, start).value;
    BodyCanonical(t, data, start);
    if |Enc(t, v)| <= INT_MAX { BodyRoundTrip(t, v, Enc(t, v), 0); }
  }
}
