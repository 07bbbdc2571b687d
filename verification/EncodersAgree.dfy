/** The two ABI encoders on the same values. */
module EncodersAgree {
  import opened Arith
  import opened AbiTypes
  import opened Options
  import opened AbiSpec
  import opened AbiCosts
  import opened SolidityValues
  import opened SolidityEncoder
  import AbiEncoder
  import AbiCodec

  /** Whenever the newer encoder accepts valid values of the older ABI, the older one does too, and both
      yield the same bytes. The older one has no limits on nesting and size. */
  method EncodeBoth(values: seq<ABIValue>) returns (older: Option<seq<u8>>, newer: Option<seq<u8>>)
    requires InMemory(TupleValue(values)) && Valid(TupleValue(values))
    ensures older.Some? <==> Usable(TupleValue(values))
    ensures newer.Some? ==> older == newer
    ensures var t, es := NewType(TupleValue(values)), ToValue(TupleValue(values)).elements;
      newer.Some? <==>
        older.Some? && AbiEncoder.AllAccepted(t.types, 0) && Covers(INITIAL, SequenceCost(Encoding, t, es))
  {
    hide Contribution, Contributions, Assembled, EncSeq, Enc, Encodable, Cost, ItemsCost, LengthFits, Valid;
    var v := TupleValue(values);
    var t, es := NewType(v), ToValue(v).elements;
    SameEncodable(v);
    ElementLengths(v, t);
    var encoder := new ABIEncoder();
    var ok := encoder.EncodeTuple(values, t);
    older := if ok then Some(encoder.data) else None;
    newer := AbiCodec.Encode(t.types, es);
    if ok {
      TupleBytes(v);
      assert encoder.data == Assembled(t, Contributions(values)) == EncSeq(t, es);
      assert t == Tuple(t.types);
    }
  }

  lemma TupleBytes(v: ABIValue)
    requires InMemory(v) && Valid(v) && v.TupleValue? && Usable(v)
    ensures AllValid(v.values) && Encodable(NewType(v), ToValue(v)) && ElementsOf(NewType(v), v.values)
    ensures Assembled(NewType(v), Contributions(v.values)) == EncSeq(NewType(v), ToValue(v).elements)
  {
    hide Static, HeadSize, HeadTotal, Heads, Tails;
    SameEncodable(v);
    ElementLengths(v, NewType(v));
    UsableList(v, NewType(v));
    EncOfList(NewType(v), ToValue(v).elements);
    var body := Assembled(NewType(v), Contributions(v.values));
    assert [] + body == body;
  }
}
