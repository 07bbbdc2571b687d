/** ABIv2Decoder: reads exactly the values of accepted types that are there and that its budgets cover,
    on any input, and takes exactly their cost from the budgets. */
module AbiDecoder {
  import opened Arith
  import opened Digits
  import opened ByteStrings
  import opened AbiTypes
  import opened Options
  import opened AbiSpec
  import opened AbiReading
  import opened AbiCosts
  import opened AbiRoundTrip

  // ---- values that are not lists ----

  /** ABIv2.FixedPoint.init(scaledValue:decimals:) */
  method MakeFixedPoint(scaled: int, decimals: u64) returns (r: Option<Value>)
    requires 1 <= decimals <= 80 && -TWO256 < scaled < TWO256
    ensures r == Some(FixedPoint(scaled, decimals))
  {
    if !(decimals >= 1 && decimals <= 80 && -TWO256 < scaled < TWO256) { return None; }
    return Some(FixedPoint(scaled, decimals));
  }

  lemma BodyOfWord(t: Type, data: seq<u8>, start: nat)
    requires OneWord(t) && start <= |data|
    ensures Body(t, data, start) ==
      var word := Read(data, start, 32); if word.Some? then FromWord(t, word.value) else None
  {}

  /** The branches of decodeValue for types of one word. */
  method DecodeWord(t: Type, data: seq<u8>, start: nat) returns (r: Option<Value>)
    requires WellFormed(t) && OneWord(t) && start <= |data|
    ensures r == Body(t, data, start)
  {
    hide Body, Pow, BigEndian, ToBytes;
    BodyOfWord(t, data, start);
    var word := Read(data, start, 32);
    if word.None? { return None; }
    var w := word.value;
    WordPowers();
    BytesOfNumber(w);
    SignBit(w);
    match t {
      case Uint(bits) =>
        if !(Number(w) < Pow(2, bits)) { return None; }
        return Some(Integer(Number(w)));
      case UFixed(bits, decimals) =>
        if !(Number(w) < Pow(2, bits)) { return None; }
        r := MakeFixedPoint(Number(w), decimals);
      case Int(bits) =>
        var value, limit := Signed(w), Pow(2, bits - 1);
        if !(value >= -(limit as int) && value < limit) { return None; }
        return Some(Integer(value));
      case Fixed(bits, decimals) =>
        var value, limit := Signed(w), Pow(2, bits - 1);
        if !(value >= -(limit as int) && value < limit) { return None; }
        r := MakeFixedPoint(value, decimals);
      case Address =>
        if !AllZero(w[..12]) { return None; }
        return Some(AddressBytes(w[12..]));
      case Bool =>
        if !(Number(w) == 0 || Number(w) == 1) { return None; }
        return Some(Flag(Number(w) == 1));
      case Bytes(length) =>
        if !AllZero(w[length..]) { return None; }
        return Some(Octets(w[..length]));
      case Function =>
        if !AllZero(w[24..]) { return None; }
        return Some(Octets(w[..24]));
    }
  }

  /** The branch of decodeValue for strings and bytes, up to the interpretation of the payload. */
  method DecodePayload(data: seq<u8>, start: nat, payload: nat) returns (r: Option<seq<u8>>)
    requires start <= |data|
    ensures r.Some? <==> Payload(data, start).Some? && |Payload(data, start).value| <= payload
    ensures r.Some? ==> r == Payload(data, start)
  {
    if !(start <= |data| && |data| - start >= 32) { return None; }
    var length := BoundedWord(data, start, |data| - start - 32);
    if length.None? { return None; }
    var n := length.value;
    var padding := (32 - n % 32) % 32;
    if !(padding <= |data| - start - 32 - n && n <= payload) { return None; }
    if padding > 0 {
      var pad := Read(data, start + 32 + n, padding);
      if pad.None? || !AllZero(pad.value) { return None; }
    }
    r := Read(data, start + 32, n);
  }

  // ---- what a result must satisfy ----

  /** A value can be decoded within a budget, at a depth. */
  ghost predicate Decodable(t: Type, v: Option<Value>, depth: nat, b: Budget)
  {
    Accepted(t, depth) && v.Some? && Covers(b, Cost(Decoding, t, v.value))
  }

  /** So can the elements of a container whose heads start at base. */
  ghost predicate ItemsDecodable(t: Type, data: seq<u8>, base: nat, n: nat, depth: nat, b: Budget)
    requires HasCount(t, n)
  {
    && base + HeadTotal(t, n) <= |data|
    && Items(t, data, base, n).Some?
    && (t.Tuple? ==> forall i :: 0 <= i < n ==> Accepted(t.types[i], depth))
    && (IsArray(t) ==> Accepted(t.sub, depth))
    && Covers(b, SequenceCost(Decoding, t, ItemsOf(t, data, base, n)))
  }

  /** The elements of a container. */
  function ItemsOf(t: Type, data: seq<u8>, base: nat, n: nat): (r: seq<Value>)
    requires HasCount(t, n) && Items(t, data, base, n).Some?
    ensures |r| == n && Items(t, data, base, n) == Some(List(r))
    ensures forall i :: 0 <= i < n ==> Item(t, data, base, n, i) == Some(r[i])
  {
    var rs := seq(n, i requires 0 <= i < n => Item(t, data, base, n, i));
    assert forall i :: 0 <= i < n ==> rs[i].Some? && rs[i] == Item(t, data, base, n, i);
    Items(t, data, base, n).value.elements
  }

  /** The first elements have been decoded. */
  ghost predicate Decoded(t: Type, data: seq<u8>, base: nat, n: nat, values: seq<Value>)
    requires HasCount(t, n)
  {
    |values| <= n && forall i :: 0 <= i < |values| ==> Item(t, data, base, n, i) == Some(values[i])
  }

  lemma NothingDecoded(t: Type, data: seq<u8>, base: nat, n: nat)
    requires HasCount(t, n)
    ensures Decoded(t, data, base, n, []) && HeadTotal(t, 0) == 0 && ElementNodes(t, 0) == 0
    ensures ItemsCost(Decoding, t, [], 0) == Budget(0, 0, 0)
  {}

  lemma NextDecoded(t: Type, data: seq<u8>, base: nat, n: nat, values: seq<Value>, v: Value)
    requires HasCount(t, n) && Decoded(t, data, base, n, values) && |values| < n
      && Item(t, data, base, n, |values|) == Some(v)
    ensures Decoded(t, data, base, n, values + [v])
  {
    hide Item;
  }

  lemma NextTotals(t: Type, values: seq<Value>, v: Value)
    requires HasElement(t, |values|)
    ensures HeadTotal(t, |values| + 1) == HeadTotal(t, |values|) + HeadSize(ElementType(t, |values|))
    ensures ElementNodes(t, |values| + 1) == ElementNodes(t, |values|) + Nodes(ElementType(t, |values|))
    ensures ItemsCost(Decoding, t, values + [v], |values| + 1)
      == Plus(ItemsCost(Decoding, t, values, |values|), Cost(Decoding, ElementType(t, |values|), v))
  {
    hide Cost, Static, HeadSize, Nodes;
    ItemsCostPrefix(Decoding, t, values, values + [v], |values|);
  }

  lemma DecodedAll(t: Type, data: seq<u8>, base: nat, n: nat, values: seq<Value>)
    requires HasCount(t, n) && Decoded(t, data, base, n, values) && |values| == n
    ensures Items(t, data, base, n) == Some(List(values)) && ItemsOf(t, data, base, n) == values
  {
    hide Body, Static, HeadSize, HeadTotal, Start;
    Collected(seq(n, i requires 0 <= i < n => Item(t, data, base, n, i)), values);
  }

  /** What the elements before and including i cost, if all can be decoded. */
  lemma ItemDecodable(t: Type, data: seq<u8>, base: nat, n: nat, values: seq<Value>, depth: nat, b: Budget)
    requires HasCount(t, n) && Decoded(t, data, base, n, values) && |values| < n
    requires ItemsDecodable(t, data, base, n, depth, b)
    ensures var i := |values|; var u := ElementType(t, i); var v := Item(t, data, base, n, i);
      && Accepted(u, depth) && v.Some?
      && Covers(b, Plus(Plus(Budget(0, LayoutCost(Decoding, t, n), 0), ItemsCost(Decoding, t, values, i)),
        Cost(Decoding, u, v.value)))
  {
    hide Cost, Body, Static, HeadSize, HeadTotal, WellFormed, Height, Nodes, Start;
    var i, es := |values|, ItemsOf(t, data, base, n);
    assert es[..i] == values[..i];
    ItemsCostPrefix(Decoding, t, es, values, i);
    ItemsCostGrows(Decoding, t, es, i + 1, n);
  }

  // ---- decodeValue, decodeTuple, decodeArray ----

  /** decodeValue: on any data, succeeds exactly if the type is accepted, the value can be read where its
      head says, and the budget covers it; then takes exactly its cost. */
  method DecodeValue(
    t: Type, data: seq<u8>, containerBase: nat, head: nat, minimumTail: nat, depth: nat, budget: Budget)
    returns (r: Option<Value>, left: Budget)
    requires |data| <= INT_MAX && Covers(INITIAL, budget) && containerBase <= head
    ensures r.Some? <==>
      Decodable(t, Announced(t, data, containerBase, head - containerBase, minimumTail), depth, budget)
    ensures r.Some? ==> r == Announced(t, data, containerBase, head - containerBase, minimumTail)
    ensures r.Some? ==> left == Minus(budget, Cost(Decoding, t, r.value))
    decreases t, 3
  {
    hide Static, HeadSize, HeadTotal, WellFormed, Height, Nodes, Cost, Body, BigEndian, Whole;
    left := budget;
    HeadBound(t);
    if !(depth <= MAX_DEPTH && left.nodes > 0 && head <= |data|) { return None, left; }
    var layout, typeNodes := LayoutOf(t, depth, left.typeNodes);
    if layout.None? { return None, left; }
    left := left.(typeNodes := typeNodes);
    if !(layout.value.headSize <= |data| - head) { return None, left; }
    left := left.(nodes := left.nodes - 1);
    var start := head;
    if !layout.value.isStatic {
      var offset := BoundedWord(data, head, |data| - containerBase);
      if offset.None? { return None, left; }
      WholeIsMultiple(offset.value);
      if !(offset.value >= minimumTail && offset.value % 32 == 0) { return None, left; }
      start := containerBase + offset.value;
    }
    r, left := DecodeBody(t, data, start, depth, left);
  }

  lemma HeadBound(t: Type)
    ensures forall v :: Cost(Decoding, t, v).nodes >= 1 && Cost(Decoding, t, v).typeNodes >= Nodes(t)
  {}

  /** The cost of a value beyond its own node and layout. */
  function BodyCost(t: Type, v: Value): Budget
  {
    var c := Cost(Decoding, t, v); Budget(c.nodes - 1, c.typeNodes - Nodes(t), c.payload)
  }

  lemma BodyCosts(t: Type, data: seq<u8>, start: nat)
    requires start <= |data| && Body(t, data, start).Some?
    ensures var v := Body(t, data, start).value;
      && (OneWord(t) ==> BodyCost(t, v) == Budget(0, 0, 0))
      && (t.String? ==>
           Payload(data, start) == Some(v.utf8) && ValidUtf8(v.utf8) && BodyCost(t, v) == Budget(0, 0, |v.utf8|))
      && (t.DynamicBytes? ==> Payload(data, start) == Some(v.bytes) && BodyCost(t, v) == Budget(0, 0, |v.bytes|))
  {
    if OneWord(t) { BodyOfWord(t, data, start); }
  }

  lemma ContainerCost(t: Type, es: seq<Value>)
    requires HasCount(t, |es|)
    ensures BodyCost(t, List(es)) == SequenceCost(Decoding, t, es)
  {}

  /** The switch of decodeValue. */
  method DecodeBody(t: Type, data: seq<u8>, start: nat, depth: nat, budget: Budget)
    returns (r: Option<Value>, left: Budget)
    requires |data| <= INT_MAX && Covers(INITIAL, budget) && start <= |data| && Accepted(t, depth)
    ensures r.Some? <==> Body(t, data, start).Some? && Covers(budget, BodyCost(t, Body(t, data, start).value))
    ensures r.Some? ==> r == Body(t, data, start) && left == Minus(budget, BodyCost(t, r.value))
    decreases t, 2
  {
    left := budget;
    if IsContainer(t) {
      r, left := DecodeContainer(t, data, start, depth, budget);
      return;
    }
    r := DecodeScalar(t, data, start, budget.payload);
    if r.Some? {
      BodyCosts(t, data, start);
      if t.String? { left := left.(payload := left.payload - |r.value.utf8|); }
      if t.DynamicBytes? { left := left.(payload := left.payload - |r.value.bytes|); }
    }
  }

  /** The branches for values that are not lists. */
  method DecodeScalar(t: Type, data: seq<u8>, start: nat, payload: nat) returns (r: Option<Value>)
    requires start <= |data| && WellFormed(t) && !IsContainer(t)
    ensures r.Some? <==> Body(t, data, start).Some? && BodyCost(t, Body(t, data, start).value).payload <= payload
    ensures r.Some? ==> r == Body(t, data, start) && BodyCost(t, r.value) == Budget(0, 0, BodyCost(t, r.value).payload)
  {
    hide Cost, Static, HeadSize, Height, Nodes, BigEndian, ValidUtf8;
    if Body(t, data, start).Some? { BodyCosts(t, data, start); }
    if t.String? || t.DynamicBytes? {
      var bytes := DecodePayload(data, start, payload);
      if bytes.None? { return None; }
      if t.DynamicBytes? { return Some(Octets(bytes.value)); }
      if !ValidUtf8(bytes.value) { return None; }
      return Some(Text(bytes.value));
    }
    r := DecodeWord(t, data, start);
  }

  /** The branches for tuples and both kinds of array. */
  method DecodeContainer(t: Type, data: seq<u8>, start: nat, depth: nat, budget: Budget)
    returns (r: Option<Value>, left: Budget)
    requires |data| <= INT_MAX && Covers(INITIAL, budget) && start <= |data| && Accepted(t, depth) && IsContainer(t)
    ensures r.Some? <==> Body(t, data, start).Some? && Covers(budget, BodyCost(t, Body(t, data, start).value))
    ensures r.Some? ==> r == Body(t, data, start) && left == Minus(budget, BodyCost(t, r.value))
    decreases t, 1
  {
    hide Static, HeadSize, HeadTotal, WellFormed, Height, Nodes, Cost, Body, BigEndian, Start;
    left := budget;
    BodyOfContainer(t, data, start);
    AcceptedContainer(t, depth);
    var base, count := start, if t.Tuple? then |t.types| else t.length;
    if IsDynamicArray(t) {
      if !(start <= |data| && |data| - start >= 32) { return None, left; }
      var word := BoundedWord(data, start, left.nodes);
      if word.None? {
        CountTooLarge(t, data, start, depth, left);
        return None, left;
      }
      base, count := start + 32, word.value;
    }
    ContainerDecodable(t, data, base, count, depth, left);
    var values;
    if t.Tuple? {
      values, left := DecodeTuple(t.types, data, base, depth + 1, left);
    } else {
      values, left := DecodeArray(t.sub, count, data, base, depth + 1, left, t);
    }
    if values.None? { return None, left; }
    ContainerCost(t, values.value);
    return Some(List(values.value)), left;
  }

  lemma AcceptedContainer(t: Type, depth: nat)
    requires Accepted(t, depth) && IsContainer(t)
    ensures depth < MAX_DEPTH
    ensures t.Tuple? ==> forall i :: 0 <= i < |t.types| ==> Accepted(t.types[i], depth + 1)
    ensures IsArray(t) ==> Accepted(t.sub, depth + 1)
  {
    if t.Tuple? {
      forall i | 0 <= i < |t.types| ensures Accepted(t.types[i], depth + 1) {
        WellFormedMember(t.types, |t.types|, i);
        HeightOfMember(t.types, |t.types|, i);
      }
    }
  }

  /** The elements of an accepted container need only be there and be covered. */
  lemma ContainerDecodable(t: Type, data: seq<u8>, base: nat, n: nat, depth: nat, b: Budget)
    requires HasCount(t, n) && Accepted(t, depth)
    ensures ItemsDecodable(t, data, base, n, depth + 1, b) <==>
      && base + HeadTotal(t, n) <= |data| && Items(t, data, base, n).Some?
      && Covers(b, BodyCost(t, Items(t, data, base, n).value))
  {
    AcceptedContainer(t, depth);
    if Items(t, data, base, n).Some? { ContainerCost(t, ItemsOf(t, data, base, n)); }
  }

  /** An array with more elements than nodes left is not covered. */
  lemma CountTooLarge(t: Type, data: seq<u8>, start: nat, depth: nat, b: Budget)
    requires IsDynamicArray(t) && start + 32 <= |data| && BoundedWord(data, start, b.nodes).None? && Covers(INITIAL, b)
    ensures !(Body(t, data, start).Some? && Covers(b, BodyCost(t, Body(t, data, start).value)))
  {
    hide Static, HeadSize, HeadTotal, Cost, Body, BigEndian, Start;
    BodyOfContainer(t, data, start);
    var place := Place(t, data, start);
    if place.Some? && Items(t, data, start + 32, place.value.1).Some? {
      var es := ItemsOf(t, data, start + 32, place.value.1);
      ContainerCost(t, es);
      ItemsCostGrows(Decoding, t, es, 0, |es|);
    }
  }

  lemma TooFew(t: Type, data: seq<u8>, base: nat, n: nat, depth: nat, b: Budget)
    requires HasCount(t, n) && n > b.nodes
    ensures !ItemsDecodable(t, data, base, n, depth, b)
  {
    if Items(t, data, base, n).Some? { ItemsCostGrows(Decoding, t, ItemsOf(t, data, base, n), 0, n); }
  }

  /** The first loop of decodeTuple: the heads fit in the data. */
  method HeadsFit(types: seq<Type>, room: nat, depth: nat, typeNodes: nat) returns (ok: bool, headSize: nat, left: nat)
    ensures ok <==>
      && (forall i :: 0 <= i < |types| ==> Accepted(types[i], depth))
      && ElementNodes(Tuple(types), |types|) <= typeNodes && HeadTotal(Tuple(types), |types|) <= room
    ensures ok ==> headSize == HeadTotal(Tuple(types), |types|)
    ensures ok ==> left == typeNodes - ElementNodes(Tuple(types), |types|)
  {
    hide Static, HeadSize, Nodes, WellFormed, Height;
    ghost var t := Tuple(types);
    headSize, left := 0, typeNodes;
    var i := 0;
    while i < |types|
      invariant 0 <= i <= |types|
      invariant forall j :: 0 <= j < i ==> Accepted(types[j], depth)
      invariant headSize == HeadTotal(t, i) <= room
      invariant ElementNodes(t, i) <= typeNodes && left == typeNodes - ElementNodes(t, i)
    {
      ElementNodesGrow(t, i, |types|);
      HeadTotalGrows(t, i + 1, |types|);
      var layout;
      layout, left := LayoutOf(types[i], depth, left);
      if layout.None? || !(layout.value.headSize <= room - headSize) { return false, headSize, left; }
      headSize := headSize + layout.value.headSize;
      i := i + 1;
    }
    ok := true;
  }

  /** decodeTuple */
  method DecodeTuple(types: seq<Type>, data: seq<u8>, base: nat, depth: nat, budget: Budget)
    returns (r: Option<seq<Value>>, left: Budget)
    requires |data| <= INT_MAX && Covers(INITIAL, budget) && base <= |data| && depth <= MAX_DEPTH
    ensures r.Some? <==> ItemsDecodable(Tuple(types), data, base, |types|, depth, budget)
    ensures r.Some? ==> r.value == ItemsOf(Tuple(types), data, base, |types|)
    ensures r.Some? ==> left == Minus(budget, SequenceCost(Decoding, Tuple(types), r.value))
    decreases Tuple(types), 0
  {
    hide Static, HeadSize, HeadTotal, WellFormed, Height, Nodes, ElementNodes, Cost, ItemsCost, Body, BigEndian,
      Start, Decoded, Product;
    left := budget;
    ghost var t := Tuple(types);
    ghost var n := |types|;
    if !(depth <= MAX_DEPTH && base <= |data| && |types| <= left.nodes) {
      TooFew(t, data, base, n, depth, budget);
      return None, left;
    }
    var ok, headSize, typeNodes := HeadsFit(types, |data| - base, depth, left.typeNodes);
    if !ok { return None, left; }
    left := left.(typeNodes := typeNodes);
    var values: seq<Value>, head, i := [], base, 0;
    NothingDecoded(t, data, base, n);
    while i < |types|
      invariant 0 <= i <= |types| && |values| == i && Decoded(t, data, base, n, values)
      invariant head == base + HeadTotal(t, i)
      invariant Covers(budget, TupleSpent(t, values, i, n)) && left == Minus(budget, TupleSpent(t, values, i, n))
    {
      TupleItem(t, data, base, n, values, depth, budget);
      var layout;
      layout, typeNodes := LayoutOf(types[i], depth, left.typeNodes);
      if layout.None? { return None, left; }
      left := left.(typeNodes := typeNodes);
      var value;
      value, left := DecodeValue(types[i], data, base, head, headSize, depth, left);
      if value.None? { return None, left; }
      NextDecoded(t, data, base, n, values, value.value);
      NextTotals(t, values, value.value);
      values := values + [value.value];
      head := head + layout.value.headSize;
      i := i + 1;
    }
    DecodedAll(t, data, base, n, values);
    return Some(values), left;
  }

  /** What decodeTuple has taken before element i. */
  function TupleSpent(t: Type, values: seq<Value>, i: nat, n: nat): Budget
    requires t.Tuple? && i <= n == |t.types| && i <= |values|
  {
    Plus(Budget(0, ElementNodes(t, n) + ElementNodes(t, i), 0), ItemsCost(Decoding, t, values, i))
  }

  /** If all elements of a tuple can be decoded, the next one can, with what is left. */
  lemma TupleItem(t: Type, data: seq<u8>, base: nat, n: nat, values: seq<Value>, depth: nat, b: Budget)
    requires t.Tuple? && HasCount(t, n) && Decoded(t, data, base, n, values) && |values| < n
    ensures ItemsDecodable(t, data, base, n, depth, b) ==>
      var i := |values|; var u := ElementType(t, i); var v := Item(t, data, base, n, i);
      && Accepted(u, depth) && v.Some?
      && Covers(b, Plus(Plus(TupleSpent(t, values, i, n), Budget(0, Nodes(u), 0)), Cost(Decoding, u, v.value)))
  {
    hide Cost, Body, Static, HeadSize, HeadTotal, WellFormed, Height, Nodes, Start;
    if ItemsDecodable(t, data, base, n, depth, b) {
      ItemDecodable(t, data, base, n, values, depth, b);
      ElementNodesGrow(t, |values|, n);
    }
  }

  /** What must hold before the first element. */
  lemma ArrayHeads(t: Type, data: seq<u8>, base: nat, n: nat, depth: nat, b: Budget)
    requires IsArray(t) && HasCount(t, n)
    ensures ItemsDecodable(t, data, base, n, depth, b) ==>
      Accepted(t.sub, depth) && Nodes(t.sub) <= b.typeNodes && base + HeadTotal(t, n) <= |data| && n <= b.nodes
  {
    hide Body, Static, HeadSize, HeadTotal, WellFormed, Height, Nodes, Cost, Start;
    if n > b.nodes { TooFew(t, data, base, n, depth, b); }
  }

  /** Before the first element. */
  lemma ArrayStart(t: Type, data: seq<u8>, base: nat, n: nat, depth: nat, b: Budget)
    requires IsArray(t) && HasCount(t, n)
    ensures ItemsDecodable(t, data, base, n, depth, b) ==>
      Accepted(t.sub, depth) && Nodes(t.sub) <= b.typeNodes && base + HeadTotal(t, n) <= |data| && n <= b.nodes
    ensures Decoded(t, data, base, n, []) && HeadTotal(t, 0) == 0 && HeadTotal(t, n) == Product(HeadSize(t.sub), n)
    ensures Nodes(t.sub) <= b.typeNodes ==>
      Covers(b, ArraySpent(t, [], 0))
      && Minus(b, ArraySpent(t, [], 0)) == b.(typeNodes := b.typeNodes - Nodes(t.sub))
    ensures (t.Array? || t.FixedArray?) && forall i: nat :: HasElement(t, i)
  {
    hide Static, HeadSize, HeadTotal, Nodes, ItemsDecodable, Decoded, ItemsCost, Product;
    ArrayHeads(t, data, base, n, depth, b);
    NothingDecoded(t, data, base, n);
    HeadTotalOfArray(t, n);
  }

  /** One element: it can be decoded with what is left if all can, and takes its share. */
  lemma ArrayStep(t: Type, data: seq<u8>, base: nat, n: nat, values: seq<Value>, depth: nat, b: Budget, left: Budget)
    requires IsArray(t) && HasCount(t, n) && Decoded(t, data, base, n, values) && |values| < n
    requires Covers(INITIAL, b) && Covers(b, ArraySpent(t, values, |values|))
    requires left == Minus(b, ArraySpent(t, values, |values|))
    ensures Covers(INITIAL, left) && HeadTotal(t, |values| + 1) == HeadTotal(t, |values|) + HeadSize(t.sub)
    ensures var v := Announced(t.sub, data, base, HeadTotal(t, |values|), HeadTotal(t, n));
      && (ItemsDecodable(t, data, base, n, depth, b) ==> Decodable(t.sub, v, depth, left))
      && (Decodable(t.sub, v, depth, left) ==>
            var next, cost := values + [v.value], Cost(Decoding, t.sub, v.value);
            && Decoded(t, data, base, n, next) && Covers(left, cost) && Covers(b, ArraySpent(t, next, |next|))
            && Minus(left, cost) == Minus(b, ArraySpent(t, next, |next|)))
  {
    hide Cost, Static, HeadSize, HeadTotal, Accepted, Nodes, Announced, Decoded, ItemsDecodable, ItemsCost;
    var v := Item(t, data, base, n, |values|);
    ArrayItem(t, data, base, n, values, depth, b);
    NextTotals(t, values, if v.Some? then v.value else Flag(false));
    if v.Some? { NextDecoded(t, data, base, n, values, v.value); }
  }

  lemma ArrayDone(t: Type, data: seq<u8>, base: nat, n: nat, values: seq<Value>, depth: nat, b: Budget)
    requires IsArray(t) && HasCount(t, n) && Decoded(t, data, base, n, values) && |values| == n
    requires Accepted(t.sub, depth) && base + HeadTotal(t, n) <= |data| && Covers(b, ArraySpent(t, values, n))
    ensures ItemsDecodable(t, data, base, n, depth, b) && ItemsOf(t, data, base, n) == values
    ensures SequenceCost(Decoding, t, values) == ArraySpent(t, values, n)
  {
    hide Body, Static, HeadSize, HeadTotal, WellFormed, Height, Nodes, Cost, Start;
    DecodedAll(t, data, base, n, values);
  }

  /** decodeArray, for a container of type t. */
  method DecodeArray(sub: Type, count: nat, data: seq<u8>, base: nat, depth: nat, budget: Budget, ghost t: Type)
    returns (r: Option<seq<Value>>, left: Budget)
    requires |data| <= INT_MAX && Covers(INITIAL, budget) && base <= |data| && depth <= MAX_DEPTH
    requires IsArray(t) && t.sub == sub && HasCount(t, count)
    ensures r.Some? <==> ItemsDecodable(t, data, base, count, depth, budget)
    ensures r.Some? ==> r.value == ItemsOf(t, data, base, count)
    ensures r.Some? ==> left == Minus(budget, SequenceCost(Decoding, t, r.value))
    decreases t, 0
  {
    hide *;
    left := budget;
    ArrayStart(t, data, base, count, depth, budget);
    if !(depth <= MAX_DEPTH && base <= |data| && count <= left.nodes) { return None, left; }
    var layout, typeNodes := LayoutOf(sub, depth, left.typeNodes);
    if layout.None? { return None, left; }
    left := left.(typeNodes := typeNodes);
    var headSize := Product(layout.value.headSize, count);
    if !(headSize <= |data| - base) { return None, left; }
    var values: seq<Value>, head, i := [], base, 0;
    while i < count
      invariant 0 <= i <= count && |values| == i && head == base + HeadTotal(t, i)
      invariant Decoded(t, data, base, count, values)
      invariant Covers(budget, ArraySpent(t, values, i)) && left == Minus(budget, ArraySpent(t, values, i))
    {
      ArrayStep(t, data, base, count, values, depth, budget, left);
      var value;
      value, left := DecodeValue(sub, data, base, head, headSize, depth, left);
      if value.None? { return None, left; }
      values := values + [value.value];
      head := head + layout.value.headSize;
      i := i + 1;
    }
    ArrayDone(t, data, base, count, values, depth, budget);
    return Some(values), left;
  }

  /** What decodeArray has taken before element i. */
  function ArraySpent(t: Type, values: seq<Value>, i: nat): Budget
    requires IsArray(t) && i <= |values|
  {
    Plus(Budget(0, Nodes(t.sub), 0), ItemsCost(Decoding, t, values, i))
  }

  lemma ArrayItem(t: Type, data: seq<u8>, base: nat, n: nat, values: seq<Value>, depth: nat, b: Budget)
    requires IsArray(t) && HasCount(t, n) && Decoded(t, data, base, n, values) && |values| < n
    ensures ItemsDecodable(t, data, base, n, depth, b) ==>
      var i := |values|; var v := Item(t, data, base, n, i);
      && Accepted(t.sub, depth) && v.Some?
      && Covers(b, Plus(ArraySpent(t, values, i), Cost(Decoding, t.sub, v.value)))
  {
    hide Cost, Body, Static, HeadSize, HeadTotal, WellFormed, Height, Nodes, Start;
    if ItemsDecodable(t, data, base, n, depth, b) { ItemDecodable(t, data, base, n, values, depth, b); }
  }
}
