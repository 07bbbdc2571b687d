/** ABIType and ABIValue, the older ABI's types and values (call-style functions left out), and what
    they are in terms of the newer one. */
module SolidityValues {
  import opened Arith
  import opened ByteStrings
  import opened A = AbiTypes
  import opened AbiSpec

  type Int64 = x: int | -0x8000_0000_0000_0000 <= x < 0x8000_0000_0000_0000

  datatype ABIType =
    | UIntType(bits: Int64)
    | IntType(bits: Int64)
    | AddressType
    | BoolType
    | FixedType(bits: Int64, scale: Int64)
    | UFixedType(bits: Int64, scale: Int64)
    | BytesType(count: Int64)
    | ArrayType(element: ABIType, count: Int64)
    | DynamicBytesType
    | StringType
    | DynamicArrayType(element: ABIType)
    | TupleType(types: seq<ABIType>)

  datatype ABIValue =
    | UIntValue(bits: Int64, n: nat)
    | IntValue(bits: Int64, i: int)
    | AddressValue(raw: seq<u8>)
    | BoolValue(b: bool)
    | FixedValue(bits: Int64, scale: Int64, i: int)
    | UFixedValue(bits: Int64, scale: Int64, n: nat)
    | BytesValue(bytes: seq<u8>)
    | ArrayValue(element: ABIType, values: seq<ABIValue>)
    | DynamicBytesValue(bytes: seq<u8>)
    | StringValue(utf8: seq<u8>)
    | DynamicArrayValue(element: ABIType, values: seq<ABIValue>)
    | TupleValue(values: seq<ABIValue>)

  // ---- the source's own functions ----

  /** ABIType.validate */
  predicate ValidType(t: ABIType)
  {
    match t
    case UIntType(bits) => 8 <= bits <= 256 && bits % 8 == 0
    case IntType(bits) => 8 <= bits <= 256 && bits % 8 == 0
    case FixedType(bits, scale) => 8 <= bits <= 256 && bits % 8 == 0 && 1 <= scale <= 80
    case UFixedType(bits, scale) => 8 <= bits <= 256 && bits % 8 == 0 && 1 <= scale <= 80
    case BytesType(count) => 1 <= count <= 32
    case ArrayType(element, count) => count >= 0 && ValidType(element)
    case DynamicArrayType(element) => ValidType(element)
    case TupleType(types) => forall u :: u in types ==> ValidType(u)
    case _ => true
  }

  /** ABIType.isDynamic */
  predicate DynamicType(t: ABIType)
  {
    match t
    case DynamicBytesType => true
    case StringType => true
    case DynamicArrayType(_) => true
    case ArrayType(element, _) => DynamicType(element)
    case TupleType(types) => exists u :: u in types && DynamicType(u)
    case _ => false
  }

  /** The valid types: widths of whole bytes up to 256 bits, 1 to 80 decimals, 1 to 32 bytes, and valid types inside. */
  lemma ValidExactly(t: ABIType)
    ensures ValidType(t) <==>
      match t
      case UIntType(bits) => bits in WIDTHS
      case IntType(bits) => bits in WIDTHS
      case FixedType(bits, scale) => bits in WIDTHS && 1 <= scale <= 80
      case UFixedType(bits, scale) => bits in WIDTHS && 1 <= scale <= 80
      case BytesType(count) => 1 <= count <= 32
      case ArrayType(element, count) => count >= 0 && ValidType(element)
      case DynamicArrayType(element) => ValidType(element)
      case TupleType(types) => forall i :: 0 <= i < |types| ==> ValidType(types[i])
      case _ => true
  {
    match t
    case UIntType(bits) => if bits > 0 { WidthsExact(bits); }
    case IntType(bits) => if bits > 0 { WidthsExact(bits); }
    case FixedType(bits, _) => if bits > 0 { WidthsExact(bits); }
    case UFixedType(bits, _) => if bits > 0 { WidthsExact(bits); }
    case _ =>
  }

  /** ABIValue.type. Counts of elements and bytes in memory are Ints. */
  function TypeOf(v: ABIValue): ABIType
    requires InMemory(v)
    decreases v
  {
    match v
    case UIntValue(bits, _) => UIntType(bits)
    case IntValue(bits, _) => IntType(bits)
    case AddressValue(_) => AddressType
    case BoolValue(_) => BoolType
    case FixedValue(bits, scale, _) => FixedType(bits, scale)
    case UFixedValue(bits, scale, _) => UFixedType(bits, scale)
    case BytesValue(bytes) => BytesType(|bytes|)
    case ArrayValue(element, values) => ArrayType(element, |values|)
    case DynamicBytesValue(_) => DynamicBytesType
    case StringValue(_) => StringType
    case DynamicArrayValue(element, _) => DynamicArrayType(element)
    case TupleValue(values) => TupleType(seq(|values|, i requires 0 <= i < |values| => TypeOf(values[i])))
  }

  /** The elements of a list value. */
  function Elements(v: ABIValue): seq<ABIValue>
  {
    if v.ArrayValue? || v.DynamicArrayValue? || v.TupleValue? then v.values else []
  }

  predicate IsList(v: ABIValue)
  {
    v.ArrayValue? || v.DynamicArrayValue? || v.TupleValue?
  }

  function Words(n: nat): nat { (n + 31) / 32 * 32 }

  /** ABIValue.length */
  function Length(v: ABIValue): nat
    decreases v, 0
  {
    match v
    case BytesValue(bytes) => Words(|bytes|)
    case DynamicBytesValue(bytes) => 32 + Words(|bytes|)
    case StringValue(utf8) => 32 + Words(|utf8|)
    case ArrayValue(_, values) => TupleLength(values, |values|)
    case DynamicArrayValue(_, values) => 32 + TupleLength(values, |values|)
    case TupleValue(values) => TupleLength(values, |values|)
    case _ => 32
  }

  /** ABIValue.tupleLength, of the first n values. */
  function TupleLength(values: seq<ABIValue>, n: nat): nat
    requires n <= |values|
    decreases values, n
  {
    if n == 0 then 0
    else TupleLength(values, n - 1) + (if IsDynamic(values[n - 1]) then 32 else 0) + Length(values[n - 1])
  }

  /** ABIValue.isDynamic */
  predicate IsDynamic(v: ABIValue)
    decreases v
  {
    match v
    case DynamicBytesValue(_) => true
    case StringValue(_) => true
    case DynamicArrayValue(_, _) => true
    case ArrayValue(element, _) => DynamicType(element)
    case TupleValue(values) => exists i :: 0 <= i < |values| && IsDynamic(values[i])
    case _ => false
  }

  /** Whatever exists in memory has an Int for every count and length. */
  predicate InMemory(v: ABIValue)
    decreases v
  {
    && Length(v) <= INT_MAX
    && (v.BytesValue? ==> |v.bytes| <= INT_MAX)
    && (IsList(v) ==> |Elements(v)| <= INT_MAX && forall i :: 0 <= i < |Elements(v)| ==> InMemory(Elements(v)[i]))
  }

  /** ABIValue.validate */
  predicate Valid(v: ABIValue)
    requires InMemory(v)
    decreases v
  {
    && ValidType(TypeOf(v))
    && match v
       case UIntValue(bits, n) => FitsUnsigned(n, bits)
       case UFixedValue(bits, _, n) => FitsUnsigned(n, bits)
       case IntValue(bits, i) => FitsSigned(i, bits)
       case FixedValue(bits, _, i) => FitsSigned(i, bits)
       case ArrayValue(element, values) =>
         forall i :: 0 <= i < |values| ==> TypeOf(values[i]) == element && Valid(values[i])
       case DynamicArrayValue(element, values) =>
         forall i :: 0 <= i < |values| ==> TypeOf(values[i]) == element && Valid(values[i])
       case TupleValue(values) => forall i :: 0 <= i < |values| ==> Valid(values[i])
       case _ => true
  }

  /** All addresses have one of the accepted forms, and text is text. */
  predicate Usable(v: ABIValue)
    decreases v
  {
    && (v.AddressValue? ==> EvmAddress20(v.raw).Some?)
    && (v.StringValue? ==> ValidUtf8(v.utf8))
    && forall i :: 0 <= i < |Elements(v)| ==> Usable(Elements(v)[i])
  }

  // ---- the same in the newer ABI ----

  /** The same type: a fixed-size array may have no elements, so it is a FixedArray. */
  function ToType(t: ABIType): Type
    requires ValidType(t)
  {
    match t
    case UIntType(bits) => Uint(bits)
    case IntType(bits) => Int(bits)
    case AddressType => Address
    case BoolType => Bool
    case FixedType(bits, scale) => Fixed(bits, scale)
    case UFixedType(bits, scale) => UFixed(bits, scale)
    case BytesType(count) => Bytes(count)
    case ArrayType(element, count) => FixedArray(ToType(element), count)
    case DynamicBytesType => DynamicBytes
    case StringType => String
    case DynamicArrayType(element) => Array(ToType(element), 0)
    case TupleType(types) => Tuple(seq(|types|, i requires 0 <= i < |types| => ToType(types[i])))
  }

  function ToValue(v: ABIValue): Value
    requires InMemory(v)
    decreases v
  {
    match v
    case UIntValue(_, n) => Integer(n)
    case IntValue(_, i) => Integer(i)
    case AddressValue(raw) => AddressBytes(raw)
    case BoolValue(b) => Flag(b)
    case FixedValue(_, scale, i) => FixedPoint(i, if scale < 0 then 0 else scale)
    case UFixedValue(_, scale, n) => FixedPoint(n, if scale < 0 then 0 else scale)
    case BytesValue(bytes) => Octets(bytes)
    case DynamicBytesValue(bytes) => Octets(bytes)
    case StringValue(utf8) => Text(utf8)
    case _ => List(seq(|Elements(v)|, i requires 0 <= i < |Elements(v)| => ToValue(Elements(v)[i])))
  }

  function NewType(v: ABIValue): Type
    requires InMemory(v) && Valid(v)
  {
    ToType(TypeOf(v))
  }

  lemma {:induction false} SameStatic(t: ABIType)
    requires ValidType(t)
    ensures DynamicType(t) <==> !Static(ToType(t))
  {
    match t {
      case ArrayType(element, _) => SameStatic(element);
      case DynamicArrayType(element) => SameStatic(element);
      case TupleType(types) =>
        var us := ToType(t).types;
        forall i | 0 <= i < |types| ensures DynamicType(types[i]) <==> !Static(us[i]) { SameStatic(types[i]); }
        assert forall i :: 0 <= i < |types| ==> types[i] in types && us[i] in us;
      case _ =>
    }
  }

  /** A value is dynamic when its type is. */
  lemma {:induction false} DynamicByType(v: ABIValue)
    requires InMemory(v)
    ensures IsDynamic(v) <==> DynamicType(TypeOf(v))
    decreases v
  {
    if v.TupleValue? {
      var ts := TypeOf(v).types;
      forall i | 0 <= i < |v.values| ensures IsDynamic(v.values[i]) <==> DynamicType(ts[i]) {
        DynamicByType(v.values[i]);
      }
      assert forall i :: 0 <= i < |ts| ==> ts[i] in ts;
    }
  }

  lemma ValidElements(v: ABIValue)
    requires InMemory(v) && Valid(v) && IsList(v)
    ensures HasCount(NewType(v), |Elements(v)|) && IsDynamicArray(NewType(v)) == v.DynamicArrayValue?
    ensures forall i :: 0 <= i < |Elements(v)| ==>
      Valid(Elements(v)[i]) && ElementType(NewType(v), i) == NewType(Elements(v)[i])
  {
    if v.TupleValue? { assert |TypeOf(v).types| == |v.values|; }
  }

  /** Valid values with usable addresses belong to their types in the newer ABI. */
  lemma {:induction false} SameEncodable(v: ABIValue)
    requires InMemory(v) && Valid(v)
    ensures Usable(v) <==> Encodable(NewType(v), ToValue(v))
    decreases v
  {
    if IsList(v) {
      ValidElements(v);
      forall i | 0 <= i < |Elements(v)|
        ensures Usable(Elements(v)[i]) <==> Encodable(NewType(Elements(v)[i]), ToValue(Elements(v)[i]))
      {
        SameEncodable(Elements(v)[i]);
      }
    }
  }

  /** Values that are not lists are valid and usable exactly if the newer ABI can encode them under their type; a list
      is valid exactly if its type and its elements are, and all elements of an array have the type it declares. */
  lemma ValidValueExactly(v: ABIValue)
    requires InMemory(v)
    ensures !IsList(v) ==>
      (Valid(v) && Usable(v) <==> ValidType(TypeOf(v)) && Encodable(ToType(TypeOf(v)), ToValue(v)))
    ensures IsList(v) ==> (Valid(v) <==>
      && ValidType(TypeOf(v))
      && forall i :: 0 <= i < |v.values| ==> Valid(v.values[i]) && (v.TupleValue? || TypeOf(v.values[i]) == v.element))
  {
    hide ValidType, EvmAddress20, FitsUnsigned, HasCount, TupleLength, ValidUtf8, Words;
    if Valid(v) { SameEncodable(v); }
  }
}
