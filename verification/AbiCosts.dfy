/** What encoding and decoding a value take from the budgets. */
module AbiCosts {
  import opened Arith
  import opened AbiTypes
  import opened AbiSpec

  /** Values, types laid out, and string and bytes payload. */
  datatype Budget = Budget(nodes: nat, typeNodes: nat, payload: nat)

  const INITIAL := Budget(MAX_NODES, MAX_NODES, MAX_PAYLOAD)

  predicate Covers(b: Budget, c: Budget)
  {
    c.nodes <= b.nodes && c.typeNodes <= b.typeNodes && c.payload <= b.payload
  }

  function Minus(b: Budget, c: Budget): Budget
    requires Covers(b, c)
  {
    Budget(b.nodes - c.nodes, b.typeNodes - c.typeNodes, b.payload - c.payload)
  }

  function Plus(b: Budget, c: Budget): Budget
  {
    Budget(b.nodes + c.nodes, b.typeNodes + c.typeNodes, b.payload + c.payload)
  }

  datatype Direction = Encoding | Decoding

  /** One node a value, the payload of its strings and bytes, and its type laid out; then the same for
      its elements, after laying out their types. */
  function Cost(d: Direction, t: Type, v: Value): (c: Budget)
    ensures c.nodes >= 1 && c.typeNodes >= Nodes(t)
    decreases t, 2
  {
    match v
    case Text(b) => Budget(1, Nodes(t), |b|)
    case Octets(b) => Budget(1, Nodes(t), if t.DynamicBytes? then |b| else 0)
    case List(es) =>
      if HasCount(t, |es|) then Plus(Budget(1, Nodes(t), 0), SequenceCost(d, t, es)) else Budget(1, Nodes(t), 0)
    case _ => Budget(1, Nodes(t), 0)
  }

  function SequenceCost(d: Direction, t: Type, es: seq<Value>): Budget
    requires HasCount(t, |es|)
    decreases t, 1
  {
    Plus(Budget(0, LayoutCost(d, t, |es|), 0), ItemsCost(d, t, es, |es|))
  }

  function ItemsCost(d: Direction, t: Type, es: seq<Value>, n: nat): Budget
    requires n <= |es| && (n > 0 ==> HasElement(t, n - 1))
    decreases t, 0, n
  {
    if n == 0 then Budget(0, 0, 0) else Plus(ItemsCost(d, t, es, n - 1), Cost(d, ElementType(t, n - 1), es[n - 1]))
  }

  /** Types laid out before the elements are visited: the encoder lays out every element once, the
      decoder those of a tuple twice and the one of an array once. */
  function LayoutCost(d: Direction, t: Type, n: nat): nat
    requires HasCount(t, n)
  {
    if d.Encoding? then ElementNodes(t, n)
    else if t.Tuple? then ElementNodes(t, n) + ElementNodes(t, n)
    else Nodes(t.sub)
  }

  function ElementNodes(t: Type, n: nat): nat
    requires n > 0 ==> HasElement(t, n - 1)
  {
    if n == 0 then 0 else ElementNodes(t, n - 1) + Nodes(ElementType(t, n - 1))
  }

  // ---- the two directions compared ----

  /** Both directions take one node a value and every payload byte once; decoding lays out at most
      twice as many types as encoding. */
  lemma {:induction false} DirectionsCompared(t: Type, v: Value)
    ensures Compared(Cost(Encoding, t, v), Cost(Decoding, t, v))
    decreases t, 1
  {
    hide ItemsCost, Nodes;
    if v.List? && HasCount(t, |v.elements|) {
      ItemsCompared(t, v.elements, |v.elements|);
      LayoutsCompared(t, |v.elements|);
    }
  }

  predicate Compared(e: Budget, d: Budget)
  {
    d.nodes == e.nodes && d.payload == e.payload && d.typeNodes <= e.typeNodes + e.typeNodes
  }

  lemma LayoutsCompared(t: Type, n: nat)
    requires HasCount(t, n)
    ensures LayoutCost(Decoding, t, n) <= LayoutCost(Encoding, t, n) + LayoutCost(Encoding, t, n) + Nodes(t)
  {
    if IsArray(t) && n > 0 { ElementNodesPositive(t, n); }
  }

  lemma {:induction false} ElementNodesPositive(t: Type, n: nat)
    requires n > 0 && IsArray(t)
    ensures ElementNodes(t, n) >= Nodes(t.sub)
  {
    if n > 1 { ElementNodesPositive(t, n - 1); }
  }

  lemma {:induction false} ItemsCompared(t: Type, es: seq<Value>, n: nat)
    requires HasCount(t, |es|) && n <= |es|
    ensures Compared(ItemsCost(Encoding, t, es, n), ItemsCost(Decoding, t, es, n))
    decreases t, 0, n
  {
    if n > 0 {
      ItemsCompared(t, es, n - 1);
      DirectionsCompared(ElementType(t, n - 1), es[n - 1]);
    }
  }

  /** Every element is paid for. */
  lemma {:induction false} ItemsCostGrows(d: Direction, t: Type, es: seq<Value>, m: nat, n: nat)
    requires HasCount(t, |es|) && m <= n <= |es|
    ensures Covers(ItemsCost(d, t, es, n), ItemsCost(d, t, es, m))
    ensures ItemsCost(d, t, es, n).nodes >= ItemsCost(d, t, es, m).nodes + n - m
    decreases n
  {
    if m < n { ItemsCostGrows(d, t, es, m, n - 1); }
  }

  lemma ItemsCostNext(d: Direction, t: Type, es: seq<Value>, n: nat)
    requires n < |es| && HasElement(t, n)
    ensures ItemsCost(d, t, es, n + 1) == Plus(ItemsCost(d, t, es, n), Cost(d, ElementType(t, n), es[n]))
  {
    hide Cost;
  }

  lemma {:induction false} ItemsCostPrefix(d: Direction, t: Type, es: seq<Value>, fs: seq<Value>, n: nat)
    requires n <= |es| && n <= |fs| && es[..n] == fs[..n] && (n > 0 ==> HasElement(t, n - 1))
    ensures ItemsCost(d, t, es, n) == ItemsCost(d, t, fs, n)
    decreases n
  {
    if n > 0 {
      assert es[n - 1] == es[..n][n - 1] == fs[..n][n - 1] == fs[n - 1];
      assert es[..n - 1] == es[..n][..n - 1] && fs[..n - 1] == fs[..n][..n - 1];
      ItemsCostPrefix(d, t, es, fs, n - 1);
    }
  }

  lemma {:induction false} ElementNodesGrow(t: Type, m: nat, n: nat)
    requires HasCount(t, n) && m <= n
    ensures ElementNodes(t, m) <= ElementNodes(t, n)
    ensures m < n ==> ElementNodes(t, m) + Nodes(ElementType(t, m)) <= ElementNodes(t, n)
  {
    if m < n {
      ElementNodesStep(t, m + 1, n);
    }
  }

  lemma {:induction false} ElementNodesStep(t: Type, m: nat, n: nat)
    requires n > 0 ==> HasElement(t, n - 1)
    requires m <= n
    ensures ElementNodes(t, m) <= ElementNodes(t, n)
    decreases n
  {
    if m < n { ElementNodesStep(t, m, n - 1); }
  }

  // ---- the budgets bound the size of the encoding ----

  lemma {:induction false} SizeBound(t: Type, v: Value)
    requires Encodable(t, v)
    ensures |Enc(t, v)| + 32 <= 128 * Cost(Encoding, t, v).nodes + Cost(Encoding, t, v).payload
    decreases t, 1
  {
    if v.List? { SequenceBound(t, v.elements); }
  }

  lemma {:induction false} SequenceBound(t: Type, es: seq<Value>)
    requires Encodable(t, List(es))
    ensures |EncSeq(t, es)| <= 128 * ItemsCost(Encoding, t, es, |es|).nodes + ItemsCost(Encoding, t, es, |es|).payload
    decreases t, 0, |es| + 1
  {
    PrefixBound(t, es, |es|);
  }

  lemma ListCount(t: Type, es: seq<Value>)
    requires Encodable(t, List(es))
    ensures HasCount(t, |es|)
  {}

  lemma {:induction false} PrefixBound(t: Type, es: seq<Value>, n: nat)
    requires Encodable(t, List(es)) && n <= |es|
    ensures var c, items := ItemsCost(Encoding, t, es, n), EncItems(t, es);
      |Heads(t, items, n)| + |Tails(t, items, n)| <= 128 * c.nodes + c.payload
    decreases t, 0, n
  {
    hide Static, HeadSize, HeadTotal, Heads, Tails, Cost, ElementType, Enc, Encodable;
    ListCount(t, es);
    if n == 0 {
      NoParts(t, EncItems(t, es));
    } else {
      ElementEncodable(t, es, n - 1);
      PrefixBound(t, es, n - 1);
      SizeBound(ElementType(t, n - 1), es[n - 1]);
      PartsBound(t, EncItems(t, es), n);
    }
  }

  lemma NoParts(t: Type, items: seq<seq<u8>>)
    requires HasCount(t, |items|)
    ensures Heads(t, items, 0) == [] && Tails(t, items, 0) == []
  {}

  lemma PartsBound(t: Type, items: seq<seq<u8>>, n: nat)
    requires HasCount(t, |items|) && 0 < n <= |items|
    ensures |Heads(t, items, n)| + |Tails(t, items, n)| <=
      |Heads(t, items, n - 1)| + |Tails(t, items, n - 1)| + |items[n - 1]| + 32
  {}
}
