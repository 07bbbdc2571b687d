/** Function calls in the older ABI: a selector made from the signature, and the arguments as a tuple. */
module SolidityCall {
  import opened Arith
  import opened ByteStrings
  import opened A = AbiTypes
  import opened Options
  import opened AbiSpec
  import opened AbiReading
  import opened AbiCosts
  import opened SolidityValues
  import opened SolidityEncoder
  import TypeStrings
  import TypeParser
  import TypeRoundTrip
  import EncodersAgree
  import AbiEncoder
  import AbiDecoder
  import AbiCodec

  datatype Function = Function(name: string, parameters: seq<ABIType>)

  /** EthereumCrypto.hash, of text. */
  type Hash = h: seq<u8> | |h| == 32 witness Zeros(32)

  // ---- signatures ----

  /** ABIType.description */
  function Description(t: ABIType): string
    requires ValidType(t)
    decreases t, 0
  {
    match t
    case UIntType(bits) => "uint" + TypeStrings.Decimal(bits)
    case IntType(bits) => "int" + TypeStrings.Decimal(bits)
    case AddressType => "address"
    case BoolType => "bool"
    case FixedType(bits, scale) => "fixed" + TypeStrings.Decimal(bits) + "x" + TypeStrings.Decimal(scale)
    case UFixedType(bits, scale) => "ufixed" + TypeStrings.Decimal(bits) + "x" + TypeStrings.Decimal(scale)
    case BytesType(count) => "bytes" + TypeStrings.Decimal(count)
    case ArrayType(element, count) => Description(element) + ("[" + TypeStrings.Decimal(count) + "]")
    case DynamicBytesType => "bytes"
    case StringType => "string"
    case DynamicArrayType(element) => Description(element) + "[]"
    case TupleType(types) => "(" + (if |types| == 0 then "" else Joined(types, 0)) + ")"
  }

  /** The descriptions from i on, separated by commas. */
  function Joined(types: seq<ABIType>, i: nat): string
    requires i < |types| && AllTypesValid(types)
    decreases types, |types| - i
  {
    Description(types[i]) + if i == |types| - 1 then "" else "," + Joined(types, i + 1)
  }

  predicate AllTypesValid(types: seq<ABIType>)
  {
    forall i :: 0 <= i < |types| ==> ValidType(types[i])
  }

  lemma TupleOfValid(types: seq<ABIType>)
    ensures ValidType(TupleType(types)) <==> AllTypesValid(types)
  {
    if ValidType(TupleType(types)) {
      forall i | 0 <= i < |types| ensures ValidType(types[i]) { assert types[i] in types; }
    }
  }

  /** The parameters as a tuple of the newer ABI. */
  function Parameters(f: Function): Type
    requires AllTypesValid(f.parameters)
  {
    TupleOfValid(f.parameters);
    ToType(TupleType(f.parameters))
  }

  /** The two ABIs have the same names for the same types. */
  lemma {:induction false} DescriptionIsRepr(t: ABIType)
    requires ValidType(t)
    ensures Description(t) == TypeStrings.Repr(ToType(t))
    decreases t, 0
  {
    hide TypeStrings.Decimal, Joined, TypeStrings.Joined;
    match t {
      case ArrayType(element, _) => DescriptionIsRepr(element);
      case DynamicArrayType(element) => DescriptionIsRepr(element);
      case TupleType(types) => TupleIsRepr(types);
      case _ =>
    }
  }

  lemma {:induction false} TupleIsRepr(types: seq<ABIType>)
    requires ValidType(TupleType(types))
    ensures Description(TupleType(types)) == TypeStrings.Repr(ToType(TupleType(types)))
    decreases types, |types| + 1
  {
    TupleOfValid(types);
    TupleDescription(types);
    if |types| > 0 {
      JoinedIsRepr(types, 0);
      hide Joined, TypeStrings.Joined, Description;
      assert "(" + Joined(types, 0) + ")" == "(" + (Joined(types, 0) + ")");
    }
  }

  lemma {:induction false} JoinedIsRepr(types: seq<ABIType>, i: nat)
    requires i < |types| && AllTypesValid(types) && ValidType(TupleType(types))
    ensures Joined(types, i) + ")" == TypeStrings.Joined(ToType(TupleType(types)).types, i)
    decreases types, |types| - i
  {
    var us := ToType(TupleType(types)).types;
    DescriptionIsRepr(types[i]);
    assert us[i] == ToType(types[i]);
    if i < |types| - 1 {
      JoinedIsRepr(types, i + 1);
      assert Joined(types, i) + ")" == Description(types[i]) + ("," + (Joined(types, i + 1) + ")"));
    }
  }

  /** The text the selector is made from. */
  function Signature(f: Function): string
    requires AllTypesValid(f.parameters)
  {
    f.name + TypeStrings.Repr(Parameters(f))
  }

  /** Every description followed by a comma. */
  function Listed(types: seq<ABIType>, n: nat): string
    requires n <= |types| && AllTypesValid(types)
  {
    if n == 0 then "" else Listed(types, n - 1) + (Description(types[n - 1]) + ",")
  }

  lemma {:induction false} ListedIsJoined(types: seq<ABIType>, i: nat)
    requires i < |types| && AllTypesValid(types)
    ensures Listed(types, |types|) == Listed(types, i) + (Joined(types, i) + ",")
    decreases |types| - i
  {
    hide *;
    NextListed(types, i);
    if i < |types| - 1 {
      ListedIsJoined(types, i + 1);
      Regrouped(Listed(types, i), Description(types[i]), Joined(types, i + 1));
    }
  }

  lemma NextListed(types: seq<ABIType>, i: nat)
    requires i < |types| && AllTypesValid(types)
    ensures ValidType(types[i]) && Listed(types, i + 1) == Listed(types, i) + (Description(types[i]) + ",")
    ensures Joined(types, i) ==
      if i == |types| - 1 then Description(types[i]) else Description(types[i]) + ("," + Joined(types, i + 1))
  {
    hide Description, ValidType;
  }

  lemma Regrouped(a: string, d: string, j: string)
    ensures a + (d + ",") + (j + ",") == a + ((d + ("," + j)) + ",")
  {}

  /** Function.description */
  method SignatureOf(f: Function) returns (text: string)
    requires AllTypesValid(f.parameters)
    ensures text == Signature(f)
  {
    hide Description, Joined;
    text := f.name + "(";
    for i := 0 to |f.parameters|
      invariant text == f.name + "(" + Listed(f.parameters, i)
    {
      text := text + (Description(f.parameters[i]) + ",");
    }
    if text[|text| - 1] == ',' { text := text[..|text| - 1]; }
    text := text + ")";
    SignatureText(f, text);
  }

  lemma SignatureText(f: Function, text: string)
    requires AllTypesValid(f.parameters)
    requires var s := f.name + "(" + Listed(f.parameters, |f.parameters|);
      text == (if s[|s| - 1] == ',' then s[..|s| - 1] else s) + ")"
    ensures text == Signature(f)
  {
    hide Description, Joined, ToType, ValidType;
    TupleOfValid(f.parameters);
    DescriptionIsRepr(TupleType(f.parameters));
    if |f.parameters| > 0 {
      ListedIsJoined(f.parameters, 0);
      var s := f.name + "(" + Listed(f.parameters, |f.parameters|);
      assert s == (f.name + "(" + Joined(f.parameters, 0)) + ",";
      assert text == f.name + ("(" + Joined(f.parameters, 0) + ")");
      TupleDescription(f.parameters);
    } else {
      assert text == f.name + "()";
      TupleDescription(f.parameters);
    }
  }

  lemma TupleDescription(types: seq<ABIType>)
    requires AllTypesValid(types) && ValidType(TupleType(types))
    ensures Description(TupleType(types)) == if |types| == 0 then "()" else "(" + Joined(types, 0) + ")"
  {}

  // ---- which functions have the same signature ----

  /** The custom equality of the newer ABI's types is plain equality on types of the older one. */
  lemma {:induction false} SameTypesEqual(t: ABIType, u: ABIType)
    requires ValidType(t) && ValidType(u)
    ensures TypeStrings.Same(ToType(t), ToType(u)) <==> t == u
  {
    hide Static;
    if (t.ArrayType? && u.ArrayType?) || (t.DynamicArrayType? && u.DynamicArrayType?) {
      SameTypesEqual(t.element, u.element);
    } else if t.TupleType? && u.TupleType? && |t.types| == |u.types| {
      TupleOfValid(t.types);
      TupleOfValid(u.types);
      forall i | 0 <= i < |t.types|
        ensures TypeStrings.Same(ToType(t).types[i], ToType(u).types[i]) <==> t.types[i] == u.types[i]
      {
        SameTypesEqual(t.types[i], u.types[i]);
      }
    }
  }

  /** Functions have the same signature exactly if they have the same name and parameters; a name has no parenthesis. */
  lemma SignaturesIdentify(f: Function, g: Function)
    requires AllTypesValid(f.parameters) && AllTypesValid(g.parameters) && '(' !in f.name && '(' !in g.name
    requires TypeParser.LayoutOk(Parameters(f), 0) && TypeParser.LayoutOk(Parameters(g), 0)
    ensures Signature(f) == Signature(g) <==> f == g
  {
    hide TypeStrings.Same, TypeParser.LayoutOk, ToType, ValidType;
    TupleOfValid(f.parameters);
    TupleOfValid(g.parameters);
    if Signature(f) == Signature(g) {
      ReprStart(f);
      ReprStart(g);
      SplitAtParenthesis(f.name, TypeStrings.Repr(Parameters(f)), g.name, TypeStrings.Repr(Parameters(g)));
      TypeRoundTrip.NamesIdentifyTypes(Parameters(f), Parameters(g));
      SameTypesEqual(TupleType(f.parameters), TupleType(g.parameters));
    }
  }

  lemma ReprStart(f: Function)
    requires AllTypesValid(f.parameters)
    ensures |TypeStrings.Repr(Parameters(f))| > 0 && TypeStrings.Repr(Parameters(f))[0] == '('
  {}

  lemma Prefix(m: string, r: string, n: string, s: string)
    requires '(' !in n && |r| > 0 && r[0] == '(' && m + r == n + s
    ensures |m| >= |n|
  {
    var text := m + r;
    assert text[|m|] == '(';
    assert forall i :: 0 <= i < |n| ==> text[i] == n[i];
  }

  lemma SplitAtParenthesis(m: string, r: string, n: string, s: string)
    requires '(' !in m && '(' !in n && |r| > 0 && |s| > 0 && r[0] == s[0] == '(' && m + r == n + s
    ensures m == n && r == s
  {
    Prefix(m, r, n, s);
    Prefix(n, s, m, r);
    assert m == (m + r)[..|m|] && n == (n + s)[..|n|];
    assert r == (m + r)[|m|..] && s == (n + s)[|n|..];
  }

  // ---- calls ----

  /** ABIValue.validate of a call. */
  predicate ValidCall(f: Function, args: seq<ABIValue>)
    requires InMemory(TupleValue(args))
  {
    && AllTypesValid(f.parameters) && |args| == |f.parameters|
    && forall i :: 0 <= i < |args| ==> TypeOf(args[i]) == f.parameters[i] && Valid(args[i])
  }

  lemma CallTypes(f: Function, args: seq<ABIValue>)
    requires InMemory(TupleValue(args)) && ValidCall(f, args)
    ensures Valid(TupleValue(args)) && NewType(TupleValue(args)) == Parameters(f)
  {
    hide Valid, ToType;
    TupleOfValid(f.parameters);
    assert TypeOf(TupleValue(args)) == TupleType(f.parameters);
    ValidTuple(args);
  }

  lemma ValidTuple(args: seq<ABIValue>)
    requires InMemory(TupleValue(args)) && ValidType(TypeOf(TupleValue(args)))
    requires forall i :: 0 <= i < |args| ==> Valid(args[i])
    ensures Valid(TupleValue(args))
  {}

  /** The arguments in the newer ABI. */
  function Arguments(args: seq<ABIValue>): seq<Value>
    requires InMemory(TupleValue(args))
  {
    ToValue(TupleValue(args)).elements
  }

  /** A call that can be encoded. */
  predicate Callable(f: Function, args: seq<ABIValue>)
    requires InMemory(TupleValue(args))
  {
    ValidCall(f, args) && Usable(TupleValue(args))
  }

  lemma CallableEncodable(f: Function, args: seq<ABIValue>)
    requires InMemory(TupleValue(args)) && Callable(f, args)
    ensures AllTypesValid(f.parameters) && Encodable(Parameters(f), List(Arguments(args)))
    ensures Parameters(f).Tuple? && |Parameters(f).types| == |Arguments(args)|
  {
    hide ValidCall, Usable, Encodable, Valid;
    ValidParameters(f, args);
    CallTypes(f, args);
    SameEncodable(TupleValue(args));
    assert |Parameters(f).types| == |args|;
  }

  lemma ValidParameters(f: Function, args: seq<ABIValue>)
    requires InMemory(TupleValue(args)) && ValidCall(f, args)
    ensures AllTypesValid(f.parameters) && |args| == |f.parameters|
  {}

  /** The selector, and the arguments as the newer ABI has them. */
  ghost function CallBytes(f: Function, args: seq<ABIValue>, hash: string -> Hash): seq<u8>
    requires InMemory(TupleValue(args)) && Callable(f, args)
  {
    CallableEncodable(f, args);
    hash(Signature(f))[..4] + EncSeq(Parameters(f), Arguments(args))
  }

  /** What a decoder makes of the arguments. */
  ghost function Received(f: Function, args: seq<ABIValue>): Value
    requires InMemory(TupleValue(args)) && Callable(f, args)
  {
    CallableEncodable(f, args);
    Normalize(Parameters(f), List(Arguments(args)))
  }

  /** Whether a decoder accepts the parameters and can afford the arguments. */
  ghost predicate Receivable(f: Function, args: seq<ABIValue>)
    requires InMemory(TupleValue(args)) && Callable(f, args)
  {
    CallableEncodable(f, args);
    && AbiEncoder.AllAccepted(Parameters(f).types, 0)
    && Covers(INITIAL, SequenceCost(Decoding, Parameters(f), Arguments(args)))
  }

  /** encode of a call: succeeds exactly on arguments that are valid for the parameters and usable, and appends the
      selector and the arguments. */
  method EncodeCall(encoder: ABIEncoder, f: Function, args: seq<ABIValue>, hash: string -> Hash) returns (ok: bool)
    requires InMemory(TupleValue(args))
    modifies encoder
    ensures ok <==> Callable(f, args)
    ensures ok ==> encoder.data == old(encoder.data) + CallBytes(f, args, hash)
    ensures ok ==> var n := |old(encoder.data)|;
      && |encoder.data| >= n + 4 && encoder.data[n..n + 4] == hash(Signature(f))[..4]
      && encoder.data[n + 4..] == Assembled(Parameters(f), Contributions(args))
  {
    hide *;
    CallableIsValid(f, args);
    if !ValidCall(f, args) { return false; }
    CallReady(f, args);
    var text := SignatureOf(f);
    encoder.data := encoder.data + hash(text)[..4];
    ok := encoder.EncodeTuple(args, Parameters(f));
    if ok {
      CallIs(f, args, hash);
      var rest := Assembled(Parameters(f), Contributions(args));
      assert old(encoder.data) + hash(text)[..4] + rest == old(encoder.data) + (hash(text)[..4] + rest);
    }
  }

  lemma CallableIsValid(f: Function, args: seq<ABIValue>)
    requires InMemory(TupleValue(args))
    ensures Callable(f, args) ==> ValidCall(f, args)
  {}

  lemma CallReady(f: Function, args: seq<ABIValue>)
    requires InMemory(TupleValue(args)) && ValidCall(f, args)
    ensures AllTypesValid(f.parameters) && AllValid(args) && ElementsOf(Parameters(f), args)
    ensures TupleLength(args, |args|) <= INT_MAX && forall i :: 0 <= i < |args| ==> InMemory(args[i])
    ensures Callable(f, args) <==> AllUsable(args, |args|)
    ensures HasCount(Parameters(f), |args|)
  {
    hide Usable, Valid, ValidCall, Parameters, TypeOf, ToType;
    ValidParameters(f, args);
    CallTypes(f, args);
    ElementLengths(TupleValue(args), Parameters(f));
    UsableArguments(args);
  }

  lemma CallIs(f: Function, args: seq<ABIValue>, hash: string -> Hash)
    requires InMemory(TupleValue(args)) && Callable(f, args) && AllTypesValid(f.parameters) && AllValid(args)
    ensures CallBytes(f, args, hash) == hash(Signature(f))[..4] + Assembled(Parameters(f), Contributions(args))
  {
    hide Callable, EncSeq, Parameters, Contributions, Assembled, Arguments, Signature;
    CallableEncodable(f, args);
    CallTail(f, args);
  }

  lemma UsableArguments(args: seq<ABIValue>)
    ensures Usable(TupleValue(args)) <==> AllUsable(args, |args|)
  {
    assert Elements(TupleValue(args)) == args;
  }

  lemma CallTail(f: Function, args: seq<ABIValue>)
    requires InMemory(TupleValue(args)) && Callable(f, args) && AllTypesValid(f.parameters)
    requires Encodable(Parameters(f), List(Arguments(args))) && AllValid(args)
    ensures Assembled(Parameters(f), Contributions(args)) == EncSeq(Parameters(f), Arguments(args))
  {
    hide EncSeq, Encodable, Usable, Valid, Contributions, Assembled, ValidCall, Arguments, Parameters;
    CallTypes(f, args);
    EncodersAgree.TupleBytes(TupleValue(args));
    ArgumentsAre(args);
  }

  lemma ArgumentsAre(args: seq<ABIValue>)
    requires InMemory(TupleValue(args))
    ensures Arguments(args) == ToValue(TupleValue(args)).elements && ToValue(TupleValue(args)) == List(Arguments(args))
  {}

  /** Whoever decodes what follows the selector gets the arguments, if the decoder can afford them. */
  method CallThenDecode(f: Function, args: seq<ABIValue>, hash: string -> Hash)
    returns (call: Option<seq<u8>>, r: Option<seq<Value>>)
    requires InMemory(TupleValue(args))
    ensures call.Some? <==> Callable(f, args)
    ensures call.Some? ==> call.value == CallBytes(f, args, hash)
    ensures r.Some? ==> call.Some? && List(r.value) == Received(f, args)
    ensures call.Some? && |call.value| <= INT_MAX ==> (r.Some? <==> Receivable(f, args))
  {
    hide Callable, EncSeq, Encodable, Normalize, Parameters, Arguments, Signature, Covers, SequenceCost,
      AbiEncoder.AllAccepted, AbiDecoder.ItemsDecodable, Items;
    var encoder := new ABIEncoder();
    var ok := EncodeCall(encoder, f, args, hash);
    call, r := None, None;
    if !ok { return; }
    assert [] + CallBytes(f, args, hash) == CallBytes(f, args, hash);
    call := Some(encoder.data);
    if |encoder.data| > INT_MAX { return; }
    CallableEncodable(f, args);
    var types, data := Parameters(f).types, encoder.data[4..];
    assert data == EncSeq(Parameters(f), Arguments(args));
    var left;
    r, left := AbiCodec.Decode(types, data);
    ReadBack(types, Arguments(args), data, r.Some?);
  }

  lemma ReadBack(types: seq<Type>, values: seq<Value>, data: seq<u8>, decoded: bool)
    requires Encodable(Tuple(types), List(values)) && data == EncSeq(Tuple(types), values) && |data| <= INT_MAX
    requires decoded <==> AbiDecoder.ItemsDecodable(Tuple(types), data, 0, |types|, 0, INITIAL)
    ensures |types| == |values|
    ensures decoded <==>
      AbiEncoder.AllAccepted(types, 0) && Covers(INITIAL, SequenceCost(Decoding, Tuple(types), values))
    ensures decoded ==> Items(Tuple(types), data, 0, |types|) == Some(Normalize(Tuple(types), List(values)))
  {
    hide EncSeq, Cost, ItemsCost, Encodable, Normalize, Items, HeadTotal, WellFormed, Height, Covers;
    AbiCodec.CountOfTuple(types, values);
    if AbiEncoder.AllAccepted(types, 0) { AbiCodec.SequenceReadBack(types, values, data); }
  }
}
