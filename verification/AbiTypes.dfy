/** ABI types and values, and ABIv2Layout: which types are valid, which are static, and how much room
    they take in the head of the sequence that contains them. */
module AbiTypes {
  import opened Arith
  import opened Options

  const INT_MAX := 0x7FFF_FFFF_FFFF_FFFF
  const MAX_DEPTH := 64
  const MAX_NODES := 1_000_000
  const MAX_PAYLOAD := 64 * 1024 * 1024

  /** ABIv2.Element.ParameterType */
  datatype Type =
    | Uint(bits: u64)
    | Int(bits: u64)
    | Fixed(bits: u64, decimals: u64)
    | UFixed(bits: u64, decimals: u64)
    | Address
    | Function
    | Bool
    | Bytes(length: u64)
    | Array(sub: Type, length: u64)
    | FixedArray(sub: Type, length: u64)
    | DynamicBytes
    | String
    | Tuple(types: seq<Type>)

  /** The typed arguments of the encoder and the results of the decoder. Text is kept as its UTF-8 bytes. */
  datatype Value =
    | Integer(i: int)
    | FixedPoint(scaled: int, decimals: u64)
    | AddressBytes(raw: seq<u8>)
    | Flag(b: bool)
    | Octets(bytes: seq<u8>)
    | Text(utf8: seq<u8>)
    | List(elements: seq<Value>)

  datatype Layout = Layout(isStatic: bool, headSize: nat)

  /** A T[] written the old way; T[0] is a FixedArray. */
  predicate IsDynamicArray(t: Type)
  {
    t.Array? && t.length == 0
  }

  predicate IsArray(t: Type)
  {
    t.Array? || t.FixedArray?
  }

  /** Static types are encoded in place, dynamic ones behind an offset. */
  predicate Static(t: Type)
  {
    match t
    case String | DynamicBytes => false
    case Array(sub, length) => length != 0 && Static(sub)
    case FixedArray(sub, _) => Static(sub)
    case Tuple(types) => forall u | u in types :: Static(u)
    case _ => true
  }

  /** Bytes in the head of the containing sequence. */
  function HeadSize(t: Type): (r: nat)
    decreases t, 0
  {
    if !Static(t) then 32 else
    match t
    case Array(sub, length) => Product(HeadSize(sub), length)
    case FixedArray(sub, length) => Product(HeadSize(sub), length)
    case Tuple(types) => HeadSizes(types, |types|)
    case _ => 32
  }

  function Product(a: nat, b: nat): nat { a * b }

  /** The head of a sequence of n types. */
  function HeadSizes(ts: seq<Type>, n: nat): nat
    requires n <= |ts|
    decreases ts, n
  {
    if n == 0 then 0 else HeadSizes(ts, n - 1) + HeadSize(ts[n - 1])
  }

  /** Levels of nesting, 1 for an elementary type. */
  function Height(t: Type): nat
    decreases t, 0
  {
    match t
    case Array(sub, _) => 1 + Height(sub)
    case FixedArray(sub, _) => 1 + Height(sub)
    case Tuple(types) => 1 + Heights(types, |types|)
    case _ => 1
  }

  function Heights(ts: seq<Type>, n: nat): nat
    requires n <= |ts|
    decreases ts, n
  {
    if n == 0 then 0 else
    var rest, h := Heights(ts, n - 1), Height(ts[n - 1]);
    if h > rest then h else rest
  }

  /** Types visited to lay out this one. */
  function Nodes(t: Type): nat
    decreases t, 0
  {
    match t
    case Array(sub, _) => 1 + Nodes(sub)
    case FixedArray(sub, _) => 1 + Nodes(sub)
    case Tuple(types) => 1 + NodesOf(types, |types|)
    case _ => 1
  }

  function NodesOf(ts: seq<Type>, n: nat): nat
    requires n <= |ts|
    decreases ts, n
  {
    if n == 0 then 0 else NodesOf(ts, n - 1) + Nodes(ts[n - 1])
  }

  /** Solidity's bounds on widths, and heads that fit an Int. */
  predicate WellFormed(t: Type)
    decreases t, 0
  {
    match t
    case Uint(bits) => 0 < bits <= 256 && bits % 8 == 0
    case Int(bits) => 0 < bits <= 256 && bits % 8 == 0
    case Fixed(bits, decimals) => 8 <= bits <= 256 && bits % 8 == 0 && 1 <= decimals <= 80
    case UFixed(bits, decimals) => 8 <= bits <= 256 && bits % 8 == 0 && 1 <= decimals <= 80
    case Bytes(length) => 0 < length <= 32
    case Array(sub, length) => WellFormed(sub) && length <= INT_MAX && Product(HeadSize(sub), length) <= INT_MAX
    case FixedArray(sub, length) => WellFormed(sub) && length <= INT_MAX && Product(HeadSize(sub), length) <= INT_MAX
    case Tuple(types) => AllWellFormed(types, |types|)
    case _ => true
  }

  predicate AllWellFormed(ts: seq<Type>, n: nat)
    requires n <= |ts|
    decreases ts, n
  {
    n == 0 || (AllWellFormed(ts, n - 1) && WellFormed(ts[n - 1]) && HeadSizes(ts, n) <= INT_MAX)
  }

  /** What ABIv2Layout accepts at a depth, given nodes enough. */
  predicate Accepted(t: Type, depth: nat)
  {
    WellFormed(t) && depth + Height(t) <= MAX_DEPTH
  }

  // ---- facts ----

  lemma {:induction false} HeightOfMember(ts: seq<Type>, n: nat, i: nat)
    requires i < n <= |ts|
    ensures Height(ts[i]) <= Heights(ts, n) && Nodes(ts[i]) <= NodesOf(ts, n)
  {
    if i < n - 1 { HeightOfMember(ts, n - 1, i); }
  }

  lemma {:induction false} WellFormedMember(ts: seq<Type>, n: nat, i: nat)
    requires i < n <= |ts| && AllWellFormed(ts, n)
    ensures WellFormed(ts[i])
  {
    if i < n - 1 { WellFormedMember(ts, n - 1, i); }
  }

  lemma {:induction false} NodesPositive(t: Type)
    ensures Nodes(t) >= 1 && Height(t) >= 1
  {}

  lemma {:induction false} HeadSizesMono(ts: seq<Type>, m: nat, n: nat)
    requires m <= n <= |ts|
    ensures HeadSizes(ts, m) <= HeadSizes(ts, n) && NodesOf(ts, m) <= NodesOf(ts, n) && Heights(ts, m) <= Heights(ts, n)
    ensures AllWellFormed(ts, n) ==> AllWellFormed(ts, m)
    decreases n
  {
    if m < n { HeadSizesMono(ts, m, n - 1); }
  }

  // ---- the types visited, and those accepted ----

  /** The type and all types in it, each before those it is made of. */
  function Visited(t: Type): seq<Type>
    decreases t, 0
  {
    match t
    case Array(sub, _) => [t] + Visited(sub)
    case FixedArray(sub, _) => [t] + Visited(sub)
    case Tuple(types) => [t] + VisitedOf(types, |types|)
    case _ => [t]
  }

  function VisitedOf(ts: seq<Type>, n: nat): seq<Type>
    requires n <= |ts|
    decreases ts, n
  {
    if n == 0 then [] else VisitedOf(ts, n - 1) + Visited(ts[n - 1])
  }

  predicate OfAnySize(t: Type)
  {
    t.String? || t.DynamicBytes? || IsDynamicArray(t)
  }

  /** Every type visited is a node, and a type is static if none of them has values of any size. */
  lemma {:induction false} NodesVisited(t: Type)
    ensures Nodes(t) == |Visited(t)|
    ensures Static(t) <==> forall u :: u in Visited(t) ==> !OfAnySize(u)
    decreases t, 0
  {
    assert t in Visited(t);
    match t
    case Array(sub, _) => NodesVisited(sub);
    case FixedArray(sub, _) => NodesVisited(sub);
    case Tuple(types) => NodesVisitedOf(types, |types|);
    case _ => assert Visited(t) == [t];
  }

  lemma {:induction false} NodesVisitedOf(ts: seq<Type>, n: nat)
    requires n <= |ts|
    ensures NodesOf(ts, n) == |VisitedOf(ts, n)|
    ensures (forall i :: 0 <= i < n ==> Static(ts[i])) <==> forall u :: u in VisitedOf(ts, n) ==> !OfAnySize(u)
    decreases ts, n
  {
    if n > 0 {
      NodesVisitedOf(ts, n - 1);
      NodesVisited(ts[n - 1]);
    }
  }

  const WIDTHS: seq<nat> := seq(32, i requires 0 <= i < 32 => 8 * (i + 1))

  lemma WidthsExact(bits: nat)
    ensures bits in WIDTHS <==> 0 < bits <= 256 && bits % 8 == 0
  {
    if 0 < bits <= 256 && bits % 8 == 0 { assert WIDTHS[bits / 8 - 1] == bits; }
  }

  /** What is accepted below the deepest level: widths of whole bytes up to 256 bits, up to 80 decimals, up to 32
      bytes, and accepted types inside whose heads together have a size that fits an Int. */
  lemma {:induction false} AcceptedExactly(t: Type, depth: nat)
    ensures Accepted(t, depth) <==>
      if depth >= MAX_DEPTH then false else
      match t
      case Uint(bits) => bits in WIDTHS
      case Int(bits) => bits in WIDTHS
      case Fixed(bits, decimals) => bits in WIDTHS && 1 <= decimals <= 80
      case UFixed(bits, decimals) => bits in WIDTHS && 1 <= decimals <= 80
      case Bytes(length) => 1 <= length <= 32
      case Array(sub, length) =>
        Accepted(sub, depth + 1) && length <= INT_MAX && Product(HeadSize(sub), length) <= INT_MAX
      case FixedArray(sub, length) =>
        Accepted(sub, depth + 1) && length <= INT_MAX && Product(HeadSize(sub), length) <= INT_MAX
      case Tuple(types) =>
        && (forall i :: 0 <= i < |types| ==> Accepted(types[i], depth + 1))
        && forall n :: 0 <= n <= |types| ==> HeadSizes(types, n) <= INT_MAX
      case _ => true
  {
    hide HeadSize, Product;
    match t
    case Uint(bits) => WidthsExact(bits);
    case Int(bits) => WidthsExact(bits);
    case Fixed(bits, _) => WidthsExact(bits);
    case UFixed(bits, _) => WidthsExact(bits);
    case Tuple(types) => MembersAccepted(types, |types|, depth);
    case _ =>
  }

  lemma {:induction false} MembersAccepted(ts: seq<Type>, n: nat, depth: nat)
    requires n <= |ts|
    ensures AllWellFormed(ts, n) && depth + 1 + Heights(ts, n) <= MAX_DEPTH <==>
      && depth < MAX_DEPTH && (forall i :: 0 <= i < n ==> Accepted(ts[i], depth + 1))
      && forall m :: 0 <= m <= n ==> HeadSizes(ts, m) <= INT_MAX
  {
    hide WellFormed, Height, HeadSize;
    if n > 0 {
      MembersAccepted(ts, n - 1, depth);
      var last := ts[n - 1];
      assert Heights(ts, n) == if Height(last) > Heights(ts, n - 1) then Height(last) else Heights(ts, n - 1);
      assert AllWellFormed(ts, n) <==> AllWellFormed(ts, n - 1) && WellFormed(last) && HeadSizes(ts, n) <= INT_MAX;
      assert (forall i :: 0 <= i < n ==> Accepted(ts[i], depth + 1)) <==>
        Accepted(last, depth + 1) && forall i :: 0 <= i < n - 1 ==> Accepted(ts[i], depth + 1);
      assert (forall m :: 0 <= m <= n ==> HeadSizes(ts, m) <= INT_MAX) <==>
        HeadSizes(ts, n) <= INT_MAX && forall m :: 0 <= m <= n - 1 ==> HeadSizes(ts, m) <= INT_MAX;
    }
  }

  // ---- ABIv2Layout.layout ----

  /** ABIv2Layout.layout: succeeds exactly on the accepted types the node budget covers, reports how they
      lie in a head, and uses up one node for every type visited. */
  method LayoutOf(t: Type, depth: nat, nodes: nat) returns (r: Option<Layout>, left: nat)
    ensures r.Some? <==> Accepted(t, depth) && Nodes(t) <= nodes
    ensures r.Some? ==> r.value == Layout(Static(t), HeadSize(t)) && left == nodes - Nodes(t)
    decreases t, 0
  {
    left := nodes;
    NodesPositive(t);
    if !(depth < MAX_DEPTH && nodes > 0) { return None, left; }
    left := left - 1;
    match t {
      case Uint(bits) =>
        if !(bits > 0 && bits <= 256 && bits % 8 == 0) { return None, left; }
        return Some(Layout(true, 32)), left;
      case Int(bits) =>
        if !(bits > 0 && bits <= 256 && bits % 8 == 0) { return None, left; }
        return Some(Layout(true, 32)), left;
      case Fixed(bits, decimals) =>
        if !(bits >= 8 && bits <= 256 && bits % 8 == 0 && decimals >= 1 && decimals <= 80) { return None, left; }
        return Some(Layout(true, 32)), left;
      case UFixed(bits, decimals) =>
        if !(bits >= 8 && bits <= 256 && bits % 8 == 0 && decimals >= 1 && decimals <= 80) { return None, left; }
        return Some(Layout(true, 32)), left;
      case Bytes(length) =>
        if !(length > 0 && length <= 32) { return None, left; }
        return Some(Layout(true, 32)), left;
      case Address => return Some(Layout(true, 32)), left;
      case Function => return Some(Layout(true, 32)), left;
      case Bool => return Some(Layout(true, 32)), left;
      case String => return Some(Layout(false, 32)), left;
      case DynamicBytes => return Some(Layout(false, 32)), left;
      case Array(sub, length) =>
        r, left := ArrayLayout(t, sub, length, depth, left);
      case FixedArray(sub, length) =>
        r, left := ArrayLayout(t, sub, length, depth, left);
      case Tuple(types) =>
        r, left := TupleLayout(types, depth, left);
    }
  }

  /** The branch of the layout for tuples. */
  method TupleLayout(types: seq<Type>, depth: nat, nodes: nat) returns (r: Option<Layout>, left: nat)
    requires depth < MAX_DEPTH
    ensures r.Some? <==> Accepted(Tuple(types), depth) && NodesOf(types, |types|) <= nodes
    ensures r.Some? ==> r.value == Layout(Static(Tuple(types)), HeadSize(Tuple(types)))
    ensures r.Some? ==> left == nodes - NodesOf(types, |types|)
    decreases types, 1
  {
    var isStatic, size, i := true, 0, 0;
    left := nodes;
    while i < |types|
      invariant 0 <= i <= |types|
      invariant isStatic <==> forall j :: 0 <= j < i ==> Static(types[j])
      invariant size == HeadSizes(types, i) <= INT_MAX
      invariant AllWellFormed(types, i) && depth + 1 + Heights(types, i) <= MAX_DEPTH
      invariant NodesOf(types, i) <= nodes && left == nodes - NodesOf(types, i)
    {
      HeadSizesMono(types, i + 1, |types|);
      var element;
      element, left := LayoutOf(types[i], depth + 1, left);
      if element.None? { return None, left; }
      if size + element.value.headSize > INT_MAX { return None, left; }
      size := size + element.value.headSize;
      isStatic := isStatic && element.value.isStatic;
      i := i + 1;
    }
    return Some(Layout(isStatic, if isStatic then size else 32)), left;
  }

  /** The branch of the layout for both kinds of array. */
  method ArrayLayout(t: Type, sub: Type, length: u64, depth: nat, nodes: nat) returns (r: Option<Layout>, left: nat)
    requires t == Array(sub, length) || t == FixedArray(sub, length)
    requires depth < MAX_DEPTH
    ensures r.Some? <==> Accepted(t, depth) && Nodes(sub) <= nodes
    ensures r.Some? ==> r.value == Layout(Static(t), HeadSize(t)) && left == nodes - Nodes(sub)
    decreases sub, 1
  {
    var element;
    element, left := LayoutOf(sub, depth + 1, nodes);
    if element.None? { return None, left; }
    if length > INT_MAX { return None, left; }
    if t.Array? && length == 0 { return Some(Layout(false, 32)), left; }
    // a product past UInt64 is past Int.max as well
    var size := Product(element.value.headSize, length);
    if size > INT_MAX { return None, left; }
    return Some(Layout(element.value.isStatic, if element.value.isStatic then size else 32)), left;
  }
}
