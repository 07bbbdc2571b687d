/** The formal specification of the encoding, from the Solidity contract ABI specification, on typed
    values: no budgets, no failures. Both encoders are proved to produce it, the decoder to invert it. */
module AbiSpec {
  import opened Arith
  import opened ByteStrings
  import opened AbiTypes
  import opened Options

  function Word(n: nat): (r: seq<u8>)
    ensures |r| == 32
  {
    ToBytes(n, 32)
  }

  /** A number in 256-bit two's complement. */
  function SignedWord(i: int): (r: seq<u8>)
    ensures |r| == 32
  {
    Word(i % TWO256)
  }

  predicate FitsUnsigned(i: int, bits: nat)
  {
    0 <= i < Pow(2, bits)
  }

  predicate FitsSigned(i: int, bits: nat)
  {
    bits >= 1 && -(Pow(2, bits - 1) as int) <= i < Pow(2, bits - 1)
  }

  /** A whole number of words: n % 32 == 0, counted out. */
  predicate Whole(n: nat)
  {
    if n < 32 then n == 0 else Whole(n - 32)
  }

  lemma {:induction false} WholeIsMultiple(n: nat)
    ensures Whole(n) <==> n % 32 == 0
  {
    if n >= 32 { WholeIsMultiple(n - 32); }
  }

  lemma {:induction false} WholeSum(m: nat, n: nat)
    requires Whole(m) && Whole(n)
    ensures Whole(m + n)
  {
    if m >= 32 { WholeSum(m - 32, n); }
  }

  function Padding(n: nat): nat { (32 - n % 32) % 32 }

  lemma PaddedWhole(n: nat)
    ensures Whole(n + Padding(n))
  {
    var q, r := n / 32, n % 32;
    assert n + Padding(n) == if r == 0 then 32 * q else 32 * (q + 1);
    WholeIsMultiple(n + Padding(n));
  }

  function PadRight(b: seq<u8>): (r: seq<u8>)
    ensures Whole(|r|)
  {
    PaddedWhole(|b|);
    b + Zeros(Padding(|b|))
  }

  /** The 20 address bytes in a 20-byte, prefixed 21-byte, or left-padded 32-byte address. */
  function EvmAddress20(raw: seq<u8>): (r: Option<seq<u8>>)
    ensures r.Some? ==> |r.value| == 20
  {
    if |raw| == 20 then Some(raw)
    else if |raw| == 21 && (raw[0] == 0x41 || raw[0] == 0x00) then Some(raw[1..])
    else if |raw| == 32 && AllZero(raw[..12]) then Some(raw[12..])
    else None
  }

  // ---- containers: tuples and both kinds of array ----

  predicate HasCount(t: Type, n: nat)
  {
    || (t.Array? && (t.length == 0 || t.length == n))
    || (t.FixedArray? && t.length == n)
    || (t.Tuple? && |t.types| == n)
  }

  /** Whether the type has an element i, whatever its number of elements. */
  predicate HasElement(t: Type, i: nat)
  {
    IsArray(t) || (t.Tuple? && i < |t.types|)
  }

  function ElementType(t: Type, i: nat): (r: Type)
    requires HasElement(t, i)
    ensures r < t
  {
    match t
    case Array(sub, _) => sub
    case FixedArray(sub, _) => sub
    case Tuple(types) => types[i]
  }

  /** The size of the heads of the first n elements. */
  function HeadTotal(t: Type, n: nat): nat
    requires n > 0 ==> HasElement(t, n - 1)
  {
    if n == 0 then 0 else HeadTotal(t, n - 1) + HeadSize(ElementType(t, n - 1))
  }

  // ---- values of a type ----

  /** The value belongs to the type. Fixed bytes may be short and addresses may carry a prefix. Arrays
      are indexed by an Int. */
  predicate Encodable(t: Type, v: Value)
    decreases t
  {
    || (v.Integer? && ((t.Uint? && FitsUnsigned(v.i, t.bits)) || (t.Int? && FitsSigned(v.i, t.bits))))
    || (v.FixedPoint? && t.Fixed? && t.decimals == v.decimals && FitsSigned(v.scaled, t.bits))
    || (v.FixedPoint? && t.UFixed? && t.decimals == v.decimals && FitsUnsigned(v.scaled, t.bits))
    || (v.AddressBytes? && t.Address? && EvmAddress20(v.raw).Some?)
    || (v.Flag? && t.Bool?)
    || (v.Octets? && ((t.Bytes? && |v.bytes| <= t.length <= 32) || (t.Function? && |v.bytes| == 24) || t.DynamicBytes?))
    || (v.Text? && t.String? && ValidUtf8(v.utf8))
    || (v.List? && HasCount(t, |v.elements|) && (IsDynamicArray(t) ==> |v.elements| <= INT_MAX)
        && forall i :: 0 <= i < |v.elements| ==> Encodable(ElementType(t, i), v.elements[i]))
  }

  /** What decoding gives back: fixed bytes at their full length, addresses as 20 bytes. */
  function Normalize(t: Type, v: Value): Value
    requires Encodable(t, v)
    decreases t
  {
    match v
    case AddressBytes(raw) => AddressBytes(EvmAddress20(raw).value)
    case Octets(b) => if t.Bytes? then Octets(b + Zeros(t.length - |b|)) else v
    case List(es) => List(seq(|es|, i requires 0 <= i < |es| => Normalize(ElementType(t, i), es[i])))
    case _ => v
  }

  // ---- the encoding ----

  /** enc(X): the encoding of a value, without an offset to it. */
  function Enc(t: Type, v: Value): seq<u8>
    requires Encodable(t, v)
    decreases t, 2
  {
    match v
    case Integer(i) => SignedWord(i)
    case FixedPoint(i, _) => SignedWord(i)
    case AddressBytes(raw) => Zeros(12) + EvmAddress20(raw).value
    case Flag(b) => Word(if b then 1 else 0)
    case Octets(b) => if t.DynamicBytes? then Word(|b|) + PadRight(b) else b + Zeros(32 - |b|)
    case Text(b) => Word(|b|) + PadRight(b)
    case List(es) => (if IsDynamicArray(t) then Word(|es|) else []) + EncSeq(t, es)
  }

  /** What stands for an address of 20 bytes: itself, with the prefix of the network or a zero in front,
      or as a word. */
  predicate StandsFor(raw: seq<u8>, a: seq<u8>)
  {
    |a| == 20 && (raw == a || raw == [0x41] + a || raw == [0x00] + a || raw == Zeros(12) + a)
  }

  /** All these forms are encoded as the word of the address, and nothing else can be encoded as an address. */
  lemma AddressWord(raw: seq<u8>, a: seq<u8>)
    ensures StandsFor(raw, a) ==>
      && Encodable(Address, AddressBytes(raw)) && Enc(Address, AddressBytes(raw)) == Zeros(12) + a
      && Normalize(Address, AddressBytes(raw)) == AddressBytes(a)
    ensures Encodable(Address, AddressBytes(raw)) <==> exists b :: StandsFor(raw, b)
  {
    if StandsFor(raw, a) { FormOfAddress(raw, a); }
    if Encodable(Address, AddressBytes(raw)) {
      AddressOfForm(raw);
    } else if b :| StandsFor(raw, b) {
      FormOfAddress(raw, b);
    }
  }

  lemma FormOfAddress(raw: seq<u8>, a: seq<u8>)
    requires StandsFor(raw, a)
    ensures EvmAddress20(raw) == Some(a)
  {
    if |raw| == 21 { assert raw[1..] == a; }
    if |raw| == 32 { assert raw[12..] == a && raw[..12] == Zeros(12); }
  }

  lemma AddressOfForm(raw: seq<u8>)
    requires EvmAddress20(raw).Some?
    ensures StandsFor(raw, EvmAddress20(raw).value)
  {
    if |raw| == 21 { assert raw == [raw[0]] + raw[1..]; }
    if |raw| == 32 { assert raw == raw[..12] + raw[12..] && raw[..12] == Zeros(12); }
  }

  lemma ElementEncodable(t: Type, es: seq<Value>, i: nat)
    requires Encodable(t, List(es)) && i < |es|
    ensures HasElement(t, i) && Encodable(ElementType(t, i), es[i])
  {
    hide FitsSigned, FitsUnsigned, EvmAddress20, ValidUtf8;
  }

  lemma EncOfList(t: Type, es: seq<Value>)
    requires Encodable(t, List(es))
    ensures Enc(t, List(es)) == if IsDynamicArray(t) then Word(|es|) + EncSeq(t, es) else EncSeq(t, es)
  {}

  /** The encodings of the elements. */
  function EncItems(t: Type, es: seq<Value>): (r: seq<seq<u8>>)
    requires Encodable(t, List(es))
    ensures |r| == |es|
    decreases t, 0
  {
    seq(|es|, i requires 0 <= i < |es| => Enc(ElementType(t, i), es[i]))
  }

  /** The encoding of a sequence of elements: all heads, then all tails. */
  function EncSeq(t: Type, es: seq<Value>): seq<u8>
    requires Encodable(t, List(es))
    decreases t, 1
  {
    Assembled(t, EncItems(t, es))
  }

  function Assembled(t: Type, items: seq<seq<u8>>): seq<u8>
    requires HasCount(t, |items|)
  {
    Heads(t, items, |items|) + Tails(t, items, |items|)
  }

  /** Static elements stand in the head themselves; a dynamic one leaves the offset of its tail, counted
      from the start of the sequence. */
  function Heads(t: Type, items: seq<seq<u8>>, n: nat): seq<u8>
    requires HasCount(t, |items|) && n <= |items|
  {
    if n == 0 then [] else Heads(t, items, n - 1) + HeadOf(t, items, n - 1)
  }

  function HeadOf(t: Type, items: seq<seq<u8>>, i: nat): seq<u8>
    requires HasCount(t, |items|) && i < |items|
  {
    if Static(ElementType(t, i)) then items[i] else Word(TailStart(t, items, i))
  }

  /** Where the tail of element i starts. */
  function TailStart(t: Type, items: seq<seq<u8>>, i: nat): nat
    requires HasCount(t, |items|) && i <= |items|
  {
    HeadTotal(t, |items|) + |Tails(t, items, i)|
  }

  function Tails(t: Type, items: seq<seq<u8>>, n: nat): seq<u8>
    requires HasCount(t, |items|) && n <= |items|
  {
    if n == 0 then [] else Tails(t, items, n - 1) + TailOf(t, items, n - 1)
  }

  function TailOf(t: Type, items: seq<seq<u8>>, i: nat): seq<u8>
    requires HasCount(t, |items|) && i < |items|
  {
    if Static(ElementType(t, i)) then [] else items[i]
  }

  // ---- sizes ----

  /** Elements encoded in whole words, the static ones as long as their types announce. */
  ghost predicate Sized(t: Type, items: seq<seq<u8>>)
  {
    && HasCount(t, |items|)
    && forall i :: 0 <= i < |items| ==> ItemSized(ElementType(t, i), items[i])
  }

  predicate ItemSized(t: Type, e: seq<u8>)
  {
    Whole(|e|) && (Static(t) ==> |e| == HeadSize(t))
  }

  lemma {:induction false} HeadTotalOfTuple(ts: seq<Type>, n: nat)
    requires n <= |ts|
    ensures HeadTotal(Tuple(ts), n) == HeadSizes(ts, n)
  {
    if n > 0 { HeadTotalOfTuple(ts, n - 1); }
  }

  lemma {:induction false} HeadTotalOfArray(t: Type, n: nat)
    requires IsArray(t)
    ensures HeadTotal(t, n) == Product(HeadSize(t.sub), n)
  {
    if n > 0 {
      HeadTotalOfArray(t, n - 1);
      assert HeadSize(t.sub) * n == HeadSize(t.sub) * (n - 1) + HeadSize(t.sub);
    }
  }

  lemma StaticHeadTotal(t: Type, n: nat)
    requires HasCount(t, n) && Static(t)
    ensures HeadSize(t) == HeadTotal(t, n)
    ensures forall i :: 0 <= i < n ==> Static(ElementType(t, i))
  {
    if t.Tuple? { HeadTotalOfTuple(t.types, n); } else { HeadTotalOfArray(t, n); }
  }

  lemma {:induction false} AssembledSize(t: Type, items: seq<seq<u8>>, n: nat)
    requires Sized(t, items) && n <= |items|
    ensures |Heads(t, items, n)| == HeadTotal(t, n)
    ensures Whole(HeadTotal(t, n)) && Whole(|Tails(t, items, n)|)
  {
    hide TailStart, Word;
    if n > 0 {
      AssembledSize(t, items, n - 1);
      assert ItemSized(ElementType(t, n - 1), items[n - 1]);
      WholeSum(HeadTotal(t, n - 1), HeadSize(ElementType(t, n - 1)));
      WholeSum(|Tails(t, items, n - 1)|, |TailOf(t, items, n - 1)|);
    }
  }

  lemma {:induction false} NoTails(t: Type, items: seq<seq<u8>>, n: nat)
    requires HasCount(t, |items|) && n <= |items| && forall i :: 0 <= i < n ==> Static(ElementType(t, i))
    ensures Tails(t, items, n) == []
  {
    if n > 0 { NoTails(t, items, n - 1); }
  }

  lemma SequenceSize(t: Type, items: seq<seq<u8>>)
    requires Sized(t, items)
    ensures Whole(|Assembled(t, items)|) && (Static(t) ==> |Assembled(t, items)| == HeadSize(t))
    ensures HeadTotal(t, |items|) <= |Assembled(t, items)|
  {
    var n := |items|;
    AssembledSize(t, items, n);
    WholeSum(HeadTotal(t, n), |Tails(t, items, n)|);
    if Static(t) {
      StaticHeadTotal(t, n);
      NoTails(t, items, n);
    }
  }

  /** Every encoding is a whole number of words; a static one has the size its type announces. */
  lemma {:induction false} EncSize(t: Type, v: Value)
    requires Encodable(t, v)
    ensures ItemSized(t, Enc(t, v))
    decreases t, 1
  {
    if v.List? {
      EncItemsSized(t, v.elements);
      SequenceSize(t, EncItems(t, v.elements));
      WholeSum(32, |EncSeq(t, v.elements)|);
    } else {
      LeafSize(t, v);
    }
  }

  lemma LeafSize(t: Type, v: Value)
    requires Encodable(t, v) && !v.List?
    ensures ItemSized(t, Enc(t, v))
  {
    assert Whole(32);
    match v {
      case Octets(b) => WholeSum(32, |PadRight(b)|);
      case Text(b) => WholeSum(32, |PadRight(b)|);
      case _ =>
    }
  }

  lemma {:induction false} EncItemsSized(t: Type, es: seq<Value>)
    requires Encodable(t, List(es))
    ensures Sized(t, EncItems(t, es))
    decreases t, 0
  {
    forall i | 0 <= i < |es| ensures ItemSized(ElementType(t, i), EncItems(t, es)[i]) {
      EncSize(ElementType(t, i), es[i]);
    }
  }

  // ---- where the parts of an encoding lie ----

  /** s holds e at a position. */
  predicate At(s: seq<u8>, at: nat, e: seq<u8>)
  {
    at + |e| <= |s| && s[at..at + |e|] == e
  }

  lemma AtExtends(s: seq<u8>, at: nat, e: seq<u8>, more: seq<u8>)
    requires At(s, at, e)
    ensures At(s + more, at, e)
  {}

  lemma AtEnd(s: seq<u8>, e: seq<u8>)
    ensures At(s + e, |s|, e)
  {}

  lemma {:induction false} HeadsHold(t: Type, items: seq<seq<u8>>, i: nat, n: nat)
    requires HasCount(t, |items|) && i < n <= |items|
    ensures At(Heads(t, items, n), |Heads(t, items, i)|, HeadOf(t, items, i))
  {
    if i < n - 1 {
      HeadsHold(t, items, i, n - 1);
      AtExtends(Heads(t, items, n - 1), |Heads(t, items, i)|, HeadOf(t, items, i), HeadOf(t, items, n - 1));
    } else {
      AtEnd(Heads(t, items, i), HeadOf(t, items, i));
    }
  }

  lemma {:induction false} TailsHold(t: Type, items: seq<seq<u8>>, i: nat, n: nat)
    requires HasCount(t, |items|) && i < n <= |items|
    ensures At(Tails(t, items, n), |Tails(t, items, i)|, TailOf(t, items, i))
  {
    if i < n - 1 {
      TailsHold(t, items, i, n - 1);
      AtExtends(Tails(t, items, n - 1), |Tails(t, items, i)|, TailOf(t, items, i), TailOf(t, items, n - 1));
    } else {
      AtEnd(Tails(t, items, i), TailOf(t, items, i));
    }
  }

  lemma TailsPlace(h: seq<u8>, l: seq<u8>, from: nat, e: seq<u8>, start: nat)
    requires At(l, from, e) && start == |h| + from
    ensures At(h + l, start, e)
  {
    AtEnd(h, l);
    Within(h + l, |h|, l, from, e);
  }

  /** Where the head and the tail of element i stand. */
  lemma HeadPlace(t: Type, items: seq<seq<u8>>, i: nat)
    requires Sized(t, items) && i < |items|
    ensures At(Assembled(t, items), HeadTotal(t, i), HeadOf(t, items, i))
  {
    AssembledSize(t, items, i);
    HeadsHold(t, items, i, |items|);
    AtExtends(Heads(t, items, |items|), HeadTotal(t, i), HeadOf(t, items, i), Tails(t, items, |items|));
  }

  lemma TailPlace(t: Type, items: seq<seq<u8>>, i: nat)
    requires Sized(t, items) && i < |items|
    ensures At(Assembled(t, items), TailStart(t, items, i), TailOf(t, items, i))
    ensures Whole(TailStart(t, items, i))
  {
    AssembledSize(t, items, |items|);
    AssembledSize(t, items, i);
    TailsHold(t, items, i, |items|);
    WholeSum(HeadTotal(t, |items|), |Tails(t, items, i)|);
    TailsPlace(
      Heads(t, items, |items|), Tails(t, items, |items|), |Tails(t, items, i)|, TailOf(t, items, i),
      TailStart(t, items, i));
  }

  /** A static element stands at its place in the head; a dynamic one is announced there by the offset
      at which its own encoding starts, past all heads. */
  ghost predicate Placed(s: seq<u8>, at: nat, offset: nat, t: Type, e: seq<u8>)
  {
    if Static(t) then At(s, at, e) else At(s, at, Word(offset)) && At(s, offset, e) && Whole(offset)
  }

  lemma ElementPlace(t: Type, items: seq<seq<u8>>, i: nat)
    requires Sized(t, items) && i < |items|
    ensures Placed(Assembled(t, items), HeadTotal(t, i), TailStart(t, items, i), ElementType(t, i), items[i])
  {
    HeadPlace(t, items, i);
    TailPlace(t, items, i);
  }

  /** A part of a part. */
  lemma Within(s: seq<u8>, at: nat, p: seq<u8>, from: nat, e: seq<u8>)
    requires At(s, at, p) && At(p, from, e)
    ensures At(s, at + from, e)
  {
    assert e == s[at..at + |p|][from..from + |e|];
    forall i | 0 <= i < |e| ensures s[at + from + i] == e[i] {
      assert e[i] == p[from + i];
    }
  }
}
