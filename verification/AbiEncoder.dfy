/** ABIv2Encoder: encodes exactly the values of accepted types that its budgets cover, to the bytes of
    the specification. */
module AbiEncoder {
  import opened Arith
  import opened ByteStrings
  import opened AbiTypes
  import opened Options
  import opened AbiSpec
  import opened AbiCosts
  import opened AbiReading
  import opened AbiRoundTrip

  // ---- words ----

  /** unsignedWord */
  method UnsignedBytes(n: nat) returns (r: Option<seq<u8>>)
    ensures r.Some? <==> n < TWO256
    ensures r.Some? ==> r.value == Word(n)
  {
    WordPowers();
    PaddedSerialization(n, 32);
    var bytes := Serialize(n);
    if |bytes| > 32 { return None; }
    return Some(Zeros(32 - |bytes|) + bytes);
  }

  /** signedWord */
  method SignedBytes(i: int, bits: nat) returns (r: Option<seq<u8>>)
    requires 0 < bits <= 256
    ensures r.Some? <==> FitsSigned(i, bits)
    ensures r.Some? ==> r.value == AbiSpec.SignedWord(i)
  {
    var limit := Pow(2, bits - 1);
    WidthBound(bits - 1);
    if i < 0 {
      if !(-i <= limit) { return None; }
      DivModUnique(i, TWO256, -1, TWO256 + i);
      r := UnsignedBytes(TWO256 - (-i));
      return;
    }
    if !(i < limit) { return None; }
    DivModUnique(i, TWO256, 0, i);
    r := UnsignedBytes(i);
  }

  method UnsignedOrNone(i: int, bits: nat) returns (r: Option<seq<u8>>)
    requires 0 < bits <= 256
    ensures r.Some? <==> FitsUnsigned(i, bits)
    ensures r.Some? ==> r.value == AbiSpec.SignedWord(i)
  {
    WidthBound(bits);
    if i < 0 || !(i < Pow(2, bits)) { return None; }
    DivModUnique(i, TWO256, 0, i);
    r := UnsignedBytes(i);
  }

  /** rightPaddedWord */
  method RightPaddedWord(bytes: seq<u8>) returns (r: Option<seq<u8>>)
    ensures r == if |bytes| <= 32 then Some(bytes + Zeros(32 - |bytes|)) else None
  {
    if |bytes| > 32 { return None; }
    return Some(bytes + Zeros(32 - |bytes|));
  }

  /** encodeDynamicBytes */
  method DynamicBytes(bytes: seq<u8>) returns (r: Option<seq<u8>>)
    requires |bytes| <= MAX_PAYLOAD
    ensures r == Some(Word(|bytes|) + PadRight(bytes))
  {
    var padding := Padding(|bytes|);
    if !(|bytes| <= INT_MAX - 32 - padding) { return None; }
    var length := UnsignedBytes(|bytes|);
    if length.None? { return None; }
    assert length.value + bytes + Zeros(padding) == Word(|bytes|) + PadRight(bytes);
    return Some(length.value + bytes + Zeros(padding));
  }

  // ---- values ----

  /** A value that is not a list. */
  method EncodeLeaf(t: Type, v: Value, payload: nat) returns (r: Option<seq<u8>>)
    requires !v.List? && !IsArray(t) && !t.Tuple? && WellFormed(t) && payload <= MAX_PAYLOAD
    ensures r.Some? <==> Encodable(t, v) && Cost(Encoding, t, v).payload <= payload
    ensures r.Some? ==> r.value == Enc(t, v)
  {
    match t {
      case Uint(bits) =>
        if !v.Integer? { return None; }
        r := UnsignedOrNone(v.i, bits);
      case Int(bits) =>
        if !v.Integer? { return None; }
        r := SignedBytes(v.i, bits);
      case Fixed(bits, decimals) =>
        if !v.FixedPoint? || v.decimals != decimals { return None; }
        r := SignedBytes(v.scaled, bits);
      case UFixed(bits, decimals) =>
        if !v.FixedPoint? || v.decimals != decimals { return None; }
        r := UnsignedOrNone(v.scaled, bits);
      case Address =>
        if !v.AddressBytes? { return None; }
        var address := EvmAddress20(v.raw);
        if address.None? { return None; }
        return Some(Zeros(12) + address.value);
      case Bool =>
        if !v.Flag? { return None; }
        r := UnsignedBytes(if v.b then 1 else 0);
      case Bytes(length) =>
        if !v.Octets? || |v.bytes| > length { return None; }
        r := RightPaddedWord(v.bytes);
      case Function =>
        if !v.Octets? || |v.bytes| != 24 { return None; }
        r := RightPaddedWord(v.bytes);
      case String =>
        if !v.Text? || |v.utf8| > payload || !ValidUtf8(v.utf8) { return None; }
        r := DynamicBytes(v.utf8);
      case DynamicBytes =>
        if !v.Octets? || |v.bytes| > payload { return None; }
        r := DynamicBytes(v.bytes);
    }
  }

  ghost predicate AllAccepted(ts: seq<Type>, depth: nat)
  {
    forall i :: 0 <= i < |ts| ==> Accepted(ts[i], depth)
  }

  /** The elements of a container: its own list of types, or its subtype repeated. */
  ghost predicate TypesOf(t: Type, ts: seq<Type>)
  {
    HasCount(t, |ts|) && forall i :: 0 <= i < |ts| ==> ts[i] == ElementType(t, i)
  }

  lemma AcceptedElements(t: Type, depth: nat, ts: seq<Type>)
    requires Accepted(t, depth) && TypesOf(t, ts)
    ensures AllAccepted(ts, depth + 1) && depth < MAX_DEPTH
  {
    forall i | 0 <= i < |ts| ensures Accepted(ts[i], depth + 1) {
      ElementWellFormed(t, i);
      if t.Tuple? { HeightOfMember(t.types, |ts|, i); }
    }
  }

  /** All elements fit their types, and the budget covers them. */
  ghost predicate Affordable(t: Type, es: seq<Value>, b: Budget)
  {
    Encodable(t, List(es)) && Covers(b, ItemsCost(Encoding, t, es, |es|))
  }

  /** Whatever the budgets cover is far too small to overflow. */
  lemma AffordableFits(t: Type, es: seq<Value>, b: Budget)
    requires Affordable(t, es, b) && Covers(INITIAL, b)
    ensures |EncSeq(t, es)| <= 0x4000_0000 && HeadTotal(t, |es|) <= |EncSeq(t, es)|
    ensures |es| <= b.nodes
  {
    SequenceBound(t, es);
    EncItemsSized(t, es);
    SequenceSize(t, EncItems(t, es));
    ItemsCostGrows(Encoding, t, es, 0, |es|);
  }

  /** The first n elements have been encoded. */
  ghost predicate Encoded(t: Type, es: seq<Value>, items: seq<seq<u8>>, n: nat)
  {
    && HasCount(t, |es|) && |items| == |es| && n <= |es|
    && forall i :: 0 <= i < n ==> Encodable(ElementType(t, i), es[i]) && items[i] == Enc(ElementType(t, i), es[i])
  }

  /** Heads and tails only look at elements before them. */
  lemma {:induction false} TailsPrefixOnly(t: Type, items: seq<seq<u8>>, others: seq<seq<u8>>, n: nat)
    requires HasCount(t, |items|) && |items| == |others| && n <= |items| && items[..n] == others[..n]
    ensures Tails(t, items, n) == Tails(t, others, n)
  {
    if n > 0 {
      TailsPrefixOnly(t, items, others, n - 1);
      assert items[n - 1] == items[..n][n - 1] == others[n - 1];
      assert TailOf(t, items, n - 1) == TailOf(t, others, n - 1);
    }
  }

  lemma {:induction false} HeadsPrefixOnly(t: Type, items: seq<seq<u8>>, others: seq<seq<u8>>, n: nat)
    requires HasCount(t, |items|) && |items| == |others| && n <= |items| && items[..n] == others[..n]
    ensures Heads(t, items, n) == Heads(t, others, n)
  {
    if n > 0 {
      HeadsPrefixOnly(t, items, others, n - 1);
      TailsPrefixOnly(t, items, others, n - 1);
      assert items[n - 1] == items[..n][n - 1] == others[n - 1];
      assert HeadOf(t, items, n - 1) == HeadOf(t, others, n - 1);
    }
  }

  lemma {:induction false} PartsGrow(t: Type, items: seq<seq<u8>>, m: nat, n: nat)
    requires HasCount(t, |items|) && m <= n <= |items|
    ensures |Heads(t, items, m)| <= |Heads(t, items, n)| && |Tails(t, items, m)| <= |Tails(t, items, n)|
    decreases n
  {
    hide HasCount, HeadOf, TailOf;
    if m < n { PartsGrow(t, items, m, n - 1); }
  }

  /** What an encoded element adds to the head and to the tail. */
  datatype Parts = Parts(head: seq<u8>, tail: seq<u8>)

  function PartsOf(t: Type, e: seq<u8>, offset: nat): Parts
  {
    if Static(t) then Parts(e, []) else Parts(Word(offset), e)
  }

  /** One more element encoded. */
  lemma NextParts(t: Type, items: seq<seq<u8>>, i: nat, e: seq<u8>, next: seq<seq<u8>>)
    requires HasCount(t, |items|) && i < |items| && next == items[i := e]
    ensures Heads(t, next, i + 1) == Heads(t, items, i) + PartsOf(ElementType(t, i), e, TailStart(t, items, i)).head
    ensures Tails(t, next, i + 1) == Tails(t, items, i) + PartsOf(ElementType(t, i), e, TailStart(t, items, i)).tail
  {
    hide Static, Word;
    HeadsPrefixOnly(t, items, next, i);
    TailsPrefixOnly(t, items, next, i);
    assert next[i] == e;
    assert HeadOf(t, next, i) == PartsOf(ElementType(t, i), e, TailStart(t, items, i)).head;
    assert TailOf(t, next, i) == PartsOf(ElementType(t, i), e, TailStart(t, items, i)).tail;
  }

  lemma NothingEncoded(t: Type, es: seq<Value>, items: seq<seq<u8>>)
    requires HasCount(t, |es|) && |items| == |es|
    ensures Encoded(t, es, items, 0) && Heads(t, items, 0) == [] && Tails(t, items, 0) == []
  {}

  lemma NextEncoded(t: Type, es: seq<Value>, items: seq<seq<u8>>, i: nat, e: seq<u8>, next: seq<seq<u8>>)
    requires Encoded(t, es, items, i) && i < |es| && next == items[i := e]
    requires Encodable(ElementType(t, i), es[i]) && e == Enc(ElementType(t, i), es[i])
    ensures Encoded(t, es, next, i + 1)
    ensures var parts := PartsOf(ElementType(t, i), e, HeadTotal(t, |es|) + |Tails(t, items, i)|);
      Heads(t, next, i + 1) == Heads(t, items, i) + parts.head
        && Tails(t, next, i + 1) == Tails(t, items, i) + parts.tail
  {
    hide Encodable, Enc, Static, HeadSize, HeadTotal, Heads, Tails, Word;
    NextParts(t, items, i, e, next);
  }

  lemma AllEncoded(t: Type, es: seq<Value>, items: seq<seq<u8>>, b: Budget)
    requires Encoded(t, es, items, |es|) && Covers(INITIAL, b) && Covers(b, ItemsCost(Encoding, t, es, |es|))
    ensures Affordable(t, es, b) && items == EncItems(t, es)
    ensures |Heads(t, items, |es|)| == HeadTotal(t, |es|)
    ensures |EncSeq(t, es)| <= 0x4000_0000
  {
    ItemsCostGrows(Encoding, t, es, 0, |es|);
    assert Encodable(t, List(es));
    assert items == EncItems(t, es);
    EncItemsSized(t, es);
    AssembledSize(t, items, |es|);
    AffordableFits(t, es, b);
  }

  /** An element fits its type, what is left of the budget covers it, and no guard against overflow fires. */
  ghost predicate ItemAffordable(t: Type, es: seq<Value>, items: seq<seq<u8>>, i: nat, b: Budget)
    requires HasCount(t, |es|) && |items| == |es| && i < |es|
  {
    var u := ElementType(t, i);
    && Encodable(u, es[i])
    && Covers(b, Plus(ItemsCost(Encoding, t, es, i), Cost(Encoding, u, es[i])))
    && (Static(u) || HeadTotal(t, |es|) + |Tails(t, items, i)| + |Enc(u, es[i])| <= INT_MAX)
  }

  lemma AffordableItem(t: Type, es: seq<Value>, items: seq<seq<u8>>, i: nat, b: Budget)
    requires Encoded(t, es, items, i) && i < |es| && Covers(INITIAL, b) && Affordable(t, es, b)
    ensures ItemAffordable(t, es, items, i, b)
  {
    hide Enc, EncSeq, HeadTotal, HeadSize, Tails, Static, Cost, ItemsCost, Encodable, Encoded;
    AffordableFits(t, es, b);
    ElementEncodable(t, es, i);
    ItemsCostNext(Encoding, t, es, i);
    EncodedCount(t, es, items, i);
    ItemsCostGrows(Encoding, t, es, i + 1, |es|);
    TailFits(t, es, items, i);
  }

  lemma EncodedCount(t: Type, es: seq<Value>, items: seq<seq<u8>>, n: nat)
    requires Encoded(t, es, items, n)
    ensures HasCount(t, |es|) && |items| == |es|
  {}

  lemma TailFits(t: Type, es: seq<Value>, items: seq<seq<u8>>, i: nat)
    requires Encoded(t, es, items, i) && i < |es| && Encodable(t, List(es)) && |EncSeq(t, es)| <= INT_MAX
    ensures Static(ElementType(t, i))
      || HeadTotal(t, |es|) + |Tails(t, items, i)| + |Enc(ElementType(t, i), es[i])| <= INT_MAX
  {
    hide HeadSize, Cost, Word, Encodable, Enc, HeadTotal, ElementType;
    var all := EncItems(t, es);
    TailsPrefixOnly(t, items, all, i);
    PartsGrow(t, all, i + 1, |es|);
    EncItemsSized(t, es);
    AssembledSize(t, all, |es|);
  }

  /** An element that is not affordable makes the sequence unaffordable. */
  lemma UnaffordableItem(t: Type, es: seq<Value>, items: seq<seq<u8>>, i: nat, b: Budget)
    requires Encoded(t, es, items, i) && i < |es| && Covers(INITIAL, b) && !ItemAffordable(t, es, items, i, b)
    ensures !Affordable(t, es, b)
  {
    if Affordable(t, es, b) { AffordableItem(t, es, items, i, b); }
  }

  /** The layouts of the first types, each accepted. */
  ghost predicate LaidOut(ts: seq<Type>, layouts: seq<Layout>, depth: nat)
  {
    && |layouts| <= |ts|
    && forall i :: 0 <= i < |layouts| ==> Accepted(ts[i], depth) && layouts[i] == Layout(Static(ts[i]), HeadSize(ts[i]))
  }

  lemma NoLayouts(t: Type, ts: seq<Type>, depth: nat)
    requires TypesOf(t, ts)
    ensures LaidOut(ts, [], depth) && HeadTotal(t, 0) == 0 <= INT_MAX && ElementNodes(t, 0) == 0
    ensures forall i :: 0 <= i < |ts| ==> HasElement(t, i)
  {}

  lemma NextLayout(t: Type, ts: seq<Type>, layouts: seq<Layout>, depth: nat)
    requires TypesOf(t, ts) && LaidOut(ts, layouts, depth) && |layouts| < |ts|
    ensures var i := |layouts|;
      && HeadTotal(t, i + 1) == HeadTotal(t, i) + HeadSize(ts[i]) <= HeadTotal(t, |ts|)
      && ElementNodes(t, i + 1) == ElementNodes(t, i) + Nodes(ts[i]) <= ElementNodes(t, |ts|)
      && (AllAccepted(ts, depth) ==> Accepted(ts[i], depth))
      && (Accepted(ts[i], depth) ==> LaidOut(ts, layouts + [Layout(Static(ts[i]), HeadSize(ts[i]))], depth))
  {
    hide Static, HeadSize, Nodes, Accepted, HeadTotal, ElementNodes;
    NextLayoutTotals(t, ts, |layouts|);
  }

  lemma NextLayoutTotals(t: Type, ts: seq<Type>, i: nat)
    requires TypesOf(t, ts) && i < |ts|
    ensures HeadTotal(t, i + 1) == HeadTotal(t, i) + HeadSize(ts[i]) <= HeadTotal(t, |ts|)
    ensures ElementNodes(t, i + 1) == ElementNodes(t, i) + Nodes(ts[i]) <= ElementNodes(t, |ts|)
  {
    hide Static, HeadSize, Nodes;
    ElementNodesGrow(t, i + 1, |ts|);
    HeadTotalGrows(t, i + 1, |ts|);
  }

  lemma AllLaidOut(ts: seq<Type>, layouts: seq<Layout>, depth: nat)
    requires LaidOut(ts, layouts, depth) && |layouts| == |ts|
    ensures AllAccepted(ts, depth)
  {
    hide Accepted, Static, HeadSize;
  }

  /** The first loop of encodeSequence: lays out every element. */
  method Layouts(types: seq<Type>, depth: nat, typeNodes: nat, ghost t: Type)
    returns (r: Option<seq<Layout>>, headSize: nat, left: nat)
    requires TypesOf(t, types)
    ensures r.Some? <==>
      AllAccepted(types, depth) && ElementNodes(t, |types|) <= typeNodes && HeadTotal(t, |types|) <= INT_MAX
    ensures r.Some? ==> headSize == HeadTotal(t, |types|) && left == typeNodes - ElementNodes(t, |types|)
    ensures r.Some? ==> LaidOut(types, r.value, depth) && |r.value| == |types|
  {
    hide *;
    var layouts: seq<Layout> := [];
    headSize, left := 0, typeNodes;
    NoLayouts(t, types, depth);
    while |layouts| < |types|
      invariant |layouts| <= |types| && LaidOut(types, layouts, depth)
      invariant headSize == HeadTotal(t, |layouts|) <= INT_MAX
      invariant left == typeNodes - ElementNodes(t, |layouts|)
    {
      NextLayout(t, types, layouts, depth);
      var layout;
      layout, left := LayoutOf(types[|layouts|], depth, left);
      if layout.None? { return None, headSize, left; }
      if headSize + layout.value.headSize > INT_MAX { return None, headSize, left; }
      headSize := headSize + layout.value.headSize;
      layouts := layouts + [layout.value];
    }
    AllLaidOut(types, layouts, depth);
    return Some(layouts), headSize, left;
  }

  // ---- encodeValue and encodeSequence ----

  /** Lists belong to containers, and cost what their elements do. */
  lemma CostOf(t: Type, v: Value)
    ensures Encodable(t, v) ==> (v.List? <==> IsContainer(t))
    ensures Cost(Encoding, t, v).nodes >= 1
    ensures v.List? && Encodable(t, v) ==>
      HasCount(t, |v.elements|)
        && Cost(Encoding, t, v) == Plus(Budget(1, Nodes(t), 0), SequenceCost(Encoding, t, v.elements))
    ensures !v.List? ==> Cost(Encoding, t, v) == Budget(1, Nodes(t), Cost(Encoding, t, v).payload)
    ensures t.Tuple? && v.List? && Encodable(t, v) ==> Enc(t, v) == EncSeq(t, v.elements)
  {
    hide Enc, EncSeq, Nodes, Encodable, SequenceCost;
    if Encodable(t, v) {
      ContainerOfList(t, v);
      if v.List? { EncOfList(t, v.elements); }
    }
  }

  lemma ContainerOfList(t: Type, v: Value)
    requires Encodable(t, v)
    ensures v.List? <==> IsContainer(t)
    ensures v.List? ==> HasCount(t, |v.elements|)
  {
    hide FitsSigned, FitsUnsigned, EvmAddress20, ValidUtf8;
  }

  /** encodeValue: succeeds exactly on the values of accepted types that the budget covers, yields the
      specified encoding, and takes exactly the cost. */
  method EncodeValue(t: Type, v: Value, depth: nat, budget: Budget) returns (r: Option<seq<u8>>, left: Budget)
    requires Covers(INITIAL, budget)
    ensures r.Some? <==> Encodable(t, v) && Accepted(t, depth) && Covers(budget, Cost(Encoding, t, v))
    ensures r.Some? ==> r.value == Enc(t, v) && left == Minus(budget, Cost(Encoding, t, v))
    decreases t, 3
  {
    hide Static, HeadSize, HeadTotal, Heads, Tails, Nodes, Height, Encodable, Enc, Cost, Word, SequenceCost,
      WellFormed;
    CostOf(t, v);
    left := budget;
    if left.nodes == 0 { return None, left; }
    var layout, typeNodes := LayoutOf(t, depth, left.typeNodes);
    if layout.None? { return None, left; }
    left := left.(nodes := left.nodes - 1, typeNodes := typeNodes);
    if !IsContainer(t) {
      if v.List? { return None, left; }
      r := EncodeLeaf(t, v, left.payload);
      if r.None? { return; }
      left := left.(payload := left.payload - Cost(Encoding, t, v).payload);
      return;
    }
    if !v.List? { return None, left; }
    var elements := v.elements;
    if t.Tuple? {
      AcceptedElements(t, depth, t.types);
      r, left := EncodeSequence(t.types, elements, depth + 1, left, t);
      return;
    }
    r, left := EncodeArray(t, elements, depth, left);
  }

  /** The branch of encodeValue for both kinds of array. */
  method EncodeArray(t: Type, elements: seq<Value>, depth: nat, budget: Budget)
    returns (r: Option<seq<u8>>, left: Budget)
    requires Covers(INITIAL, budget) && IsArray(t) && Accepted(t, depth)
    ensures r.Some? <==> Encodable(t, List(elements)) && Covers(budget, SequenceCost(Encoding, t, elements))
    ensures r.Some? ==> r.value == Enc(t, List(elements)) && left == Minus(budget, SequenceCost(Encoding, t, elements))
    decreases t, 2
  {
    hide Static, HeadSize, HeadTotal, Heads, Tails, Nodes, Height, WellFormed, Encodable, Enc, Cost, Word;
    left := budget;
    if !(|elements| <= left.nodes && (IsDynamicArray(t) || t.length == |elements|)) {
      TooMany(t, elements, budget);
      return None, left;
    }
    var types := Repeated(t.sub, |elements|);
    AcceptedElements(t, depth, types);
    r, left := EncodeSequence(types, elements, depth + 1, left, t);
    if r.None? { return; }
    AffordableFits(t, elements, budget);
    EncOfList(t, elements);
    if IsDynamicArray(t) { r := Counted(|elements|, r.value); }
  }

  function Repeated(t: Type, n: nat): seq<Type> { seq(n, _ => t) }

  lemma TooMany(t: Type, es: seq<Value>, b: Budget)
    requires IsArray(t) && !(|es| <= b.nodes && (IsDynamicArray(t) || t.length == |es|))
    ensures Encodable(t, List(es)) ==> HasCount(t, |es|) && !Covers(b, SequenceCost(Encoding, t, es))
  {
    if HasCount(t, |es|) { ItemsCostGrows(Encoding, t, es, 0, |es|); }
  }

  /** The length word in front of a dynamic array. */
  method Counted(n: nat, body: seq<u8>) returns (r: Option<seq<u8>>)
    requires n <= MAX_NODES && |body| <= 0x4000_0000
    ensures r == Some(Word(n) + body)
  {
    if !(|body| <= INT_MAX - 32) { return None; }
    var count := UnsignedBytes(n);
    if count.None? { return None; }
    return Some(count.value + body);
  }

  /** encodeSequence, on the elements of a container of type t. */
  method EncodeSequence(types: seq<Type>, values: seq<Value>, depth: nat, budget: Budget, ghost t: Type)
    returns (r: Option<seq<u8>>, left: Budget)
    requires Covers(INITIAL, budget) && TypesOf(t, types) && depth <= MAX_DEPTH
    ensures r.Some? <==>
      |types| == |values| && Encodable(t, List(values)) && AllAccepted(types, depth)
        && Covers(budget, SequenceCost(Encoding, t, values))
    ensures r.Some? ==> r.value == EncSeq(t, values) && left == Minus(budget, SequenceCost(Encoding, t, values))
    decreases t, 1
  {
    hide Static, HeadSize, HeadTotal, Heads, Tails, Nodes, Height, WellFormed, Encodable, Enc, Cost, Word;
    left := budget;
    if |types| == |values| { ItemsCostGrows(Encoding, t, values, 0, |values|); }
    if !(|types| == |values| && |types| <= left.nodes && depth <= MAX_DEPTH) { return None, left; }
    var layouts, headSize, typeNodes := Layouts(types, depth, left.typeNodes, t);
    if layouts.None? {
      if Affordable(t, values, budget) { AffordableFits(t, values, budget); }
      return None, left;
    }
    left := left.(typeNodes := typeNodes);
    r, left := EncodeItems(types, layouts.value, headSize, values, depth, left, t);
  }

  /** One turn of the second loop of encodeSequence: what the element adds to the head and to the tail. */
  method EncodeItem(t: Type, layout: Layout, v: Value, headSize: nat, tailCount: nat, depth: nat, budget: Budget)
    returns (r: Option<Parts>, left: Budget)
    requires Covers(INITIAL, budget) && layout == Layout(Static(t), HeadSize(t)) && Accepted(t, depth)
    ensures r.Some? <==> && Encodable(t, v) && Covers(budget, Cost(Encoding, t, v))
                         && (Static(t) || headSize + tailCount + |Enc(t, v)| <= INT_MAX)
    ensures r.Some? ==> left == Minus(budget, Cost(Encoding, t, v))
    ensures r.Some? ==> r.value == PartsOf(t, Enc(t, v), headSize + tailCount)
    decreases t, 4
  {
    var encoded;
    encoded, left := EncodeValue(t, v, depth, budget);
    if encoded.None? { return None, left; }
    EncSize(t, v);
    if layout.isStatic {
      if |encoded.value| != layout.headSize { return None, left; }
      return Some(Parts(encoded.value, [])), left;
    }
    var offset := headSize + tailCount;
    if !(offset <= INT_MAX && |encoded.value| <= INT_MAX - offset) { return None, left; }
    var word := UnsignedBytes(offset);
    if word.None? { return None, left; }
    return Some(Parts(word.value, encoded.value)), left;
  }

  lemma FirstItem(t: Type, ts: seq<Type>, es: seq<Value>, items: seq<seq<u8>>, b: Budget)
    requires TypesOf(t, ts) && |ts| == |es| == |items|
    ensures Encoded(t, es, items, 0) && Heads(t, items, 0) == [] && Tails(t, items, 0) == []
    ensures Covers(b, ItemsCost(Encoding, t, es, 0)) && Minus(b, ItemsCost(Encoding, t, es, 0)) == b
    ensures HasCount(t, |es|) && forall i :: 0 <= i < |es| ==> HasElement(t, i)
  {
    NothingEncoded(t, es, items);
  }

  /** One element: if it cannot be encoded with what is left, the sequence is not affordable; otherwise its head, its
      tail and its cost are added. */
  lemma NextItem(
    t: Type, ts: seq<Type>, layouts: seq<Layout>, es: seq<Value>, items: seq<seq<u8>>, i: nat, depth: nat, b: Budget,
    left: Budget)
    requires TypesOf(t, ts) && LaidOut(ts, layouts, depth) && |layouts| == |ts| == |es| && i < |es|
    requires Encoded(t, es, items, i) && Covers(INITIAL, b) && Covers(b, ItemsCost(Encoding, t, es, i))
    requires left == Minus(b, ItemsCost(Encoding, t, es, i))
    ensures Covers(INITIAL, left) && Accepted(ts[i], depth) && layouts[i] == Layout(Static(ts[i]), HeadSize(ts[i]))
    ensures ts[i] < t
    ensures var cost, offset := Cost(Encoding, ts[i], es[i]), HeadTotal(t, |es|) + |Tails(t, items, i)|;
      if && Encodable(ts[i], es[i]) && Covers(left, cost)
         && (Static(ts[i]) || offset + |Enc(ts[i], es[i])| <= INT_MAX)
      then
        var e := Enc(ts[i], es[i]);
        var next, parts := items[i := e], PartsOf(ts[i], e, offset);
        && Encoded(t, es, next, i + 1)
        && Heads(t, next, i + 1) == Heads(t, items, i) + parts.head
        && Tails(t, next, i + 1) == Tails(t, items, i) + parts.tail
        && Covers(b, ItemsCost(Encoding, t, es, i + 1))
        && Minus(left, cost) == Minus(b, ItemsCost(Encoding, t, es, i + 1))
      else
        !Affordable(t, es, b)
  {
    hide Static, HeadSize, HeadTotal, Heads, Tails, Accepted, Encodable, Enc, Cost, ItemsCost, Encoded, Affordable,
      PartsOf;
    EncodedCount(t, es, items, i);
    ItemsCostNext(Encoding, t, es, i);
    if ItemAffordable(t, es, items, i, b) {
      NextEncoded(t, es, items, i, Enc(ts[i], es[i]), items[i := Enc(ts[i], es[i])]);
    } else {
      UnaffordableItem(t, es, items, i, b);
    }
  }

  lemma AllItems(t: Type, es: seq<Value>, items: seq<seq<u8>>, b: Budget)
    requires Encoded(t, es, items, |es|) && Covers(INITIAL, b) && Covers(b, ItemsCost(Encoding, t, es, |es|))
    ensures Affordable(t, es, b) && Encodable(t, List(es))
    ensures EncSeq(t, es) == Heads(t, items, |es|) + Tails(t, items, |es|)
    ensures |Heads(t, items, |es|)| == HeadTotal(t, |es|) && |EncSeq(t, es)| <= INT_MAX
  {
    hide Heads, Tails, HeadTotal, Encoded, ItemsCost, EncItems;
    AllEncoded(t, es, items, b);
  }

  /** The second loop of encodeSequence: static elements go to the head, dynamic ones to the tail, with
      their offset in the head. */
  method EncodeItems(
    types: seq<Type>, layouts: seq<Layout>, headSize: nat, values: seq<Value>, depth: nat, budget: Budget,
                     ghost t: Type)
    returns (r: Option<seq<u8>>, left: Budget)
    requires Covers(INITIAL, budget) && TypesOf(t, types) && |types| == |values| == |layouts|
    requires LaidOut(types, layouts, depth) && headSize == HeadTotal(t, |types|)
    ensures r.Some? <==> Affordable(t, values, budget)
    ensures r.Some? ==> r.value == EncSeq(t, values) && left == Minus(budget, ItemsCost(Encoding, t, values, |values|))
    decreases t, 0
  {
    hide *;
    var head: seq<u8>, tail: seq<u8>, index := [], [], 0;
    left := budget;
    ghost var items: seq<seq<u8>> := seq(|types|, _ => []);
    FirstItem(t, types, values, items, budget);
    while index < |types|
      invariant 0 <= index <= |types| == |items|
      invariant Encoded(t, values, items, index)
      invariant head == Heads(t, items, index) && tail == Tails(t, items, index)
      invariant Covers(budget, ItemsCost(Encoding, t, values, index))
      invariant left == Minus(budget, ItemsCost(Encoding, t, values, index))
    {
      NextItem(t, types, layouts, values, items, index, depth, budget, left);
      var parts;
      parts, left := EncodeItem(types[index], layouts[index], values[index], headSize, |tail|, depth, left);
      if parts.None? { return None, left; }
      items := items[index := Enc(types[index], values[index])];
      head, tail := head + parts.value.head, tail + parts.value.tail;
      index := index + 1;
    }
    AllItems(t, values, items, budget);
    if !(|head| == headSize && |tail| <= INT_MAX - |head|) { return None, left; }
    return Some(head + tail), left;
  }
}
