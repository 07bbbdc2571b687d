/** Solidity type names: how they are printed, which types are the same, and how they are parsed. */
module TypeStrings {
  import opened AbiTypes

  // ---- printing ----

  function Digit(d: nat): (c: char)
    requires d < 10
    ensures IsDigit(c) && DigitValue(c) == d
  {
    ('0' as int + d) as char
  }

  predicate IsDigit(c: char) { '0' <= c <= '9' }

  predicate IsLower(c: char) { 'a' <= c <= 'z' }

  function DigitValue(c: char): nat
    requires IsDigit(c)
  {
    c as int - '0' as int
  }

  function Decimal(n: nat): (r: string)
    ensures |r| > 0 && forall i :: 0 <= i < |r| ==> IsDigit(r[i])
    ensures n > 0 ==> r[0] != '0'
    ensures n == 0 ==> r == "0"
  {
    if n < 10 then [Digit(n)] else Decimal(n / 10) + [Digit(n % 10)]
  }

  /** ParameterType.abiRepresentation */
  function Repr(t: Type): string
    decreases t, 0
  {
    match t
    case Uint(bits) => "uint" + Decimal(bits)
    case Int(bits) => "int" + Decimal(bits)
    case Fixed(bits, decimals) => "fixed" + Decimal(bits) + "x" + Decimal(decimals)
    case UFixed(bits, decimals) => "ufixed" + Decimal(bits) + "x" + Decimal(decimals)
    case Address => "address"
    case Bool => "bool"
    case Bytes(length) => "bytes" + Decimal(length)
    case DynamicBytes => "bytes"
    case Function => "function"
    case Array(sub, length) => Repr(sub) + (if length == 0 then "[]" else "[" + Decimal(length) + "]")
    case FixedArray(sub, length) => Repr(sub) + ("[" + Decimal(length) + "]")
    case Tuple(types) => "(" + (if |types| == 0 then ")" else Joined(types, 0))
    case String => "string"
  }

  /** The components from i on, separated by commas, and the closing parenthesis. */
  function Joined(types: seq<Type>, i: nat): string
    requires i < |types|
    decreases types, |types| - i
  {
    Repr(types[i]) + if i == |types| - 1 then ")" else "," + Joined(types, i + 1)
  }

  // ---- which types are the same ----

  /** ParameterType.==: T[n] may be written with either kind of array if n > 0. */
  predicate Same(t: Type, u: Type)
  {
    if IsArray(t) && IsArray(u) then
      t.length == u.length && Same(t.sub, u.sub) && (t.length == 0 ==> t.Array? == u.Array?)
    else if t.Tuple? && u.Tuple? then
      |t.types| == |u.types| && forall i :: 0 <= i < |t.types| ==> Same(t.types[i], u.types[i])
    else !IsArray(t) && !t.Tuple? && t == u
  }

  /** One of all types that are the same: the one the parser chooses. */
  function Canon(t: Type): Type
  {
    match t
    case Array(sub, length) => Array(Canon(sub), length)
    case FixedArray(sub, length) => if length == 0 then FixedArray(Canon(sub), 0) else Array(Canon(sub), length)
    case Tuple(types) => Tuple(seq(|types|, i requires 0 <= i < |types| => Canon(types[i])))
    case _ => t
  }

  /** The custom equality is an equivalence: it holds between types of one canonical form. */
  lemma {:induction false} SameIsEquivalence(t: Type, u: Type)
    ensures Same(t, u) <==> Canon(t) == Canon(u)
  {
    if IsArray(t) && IsArray(u) {
      SameIsEquivalence(t.sub, u.sub);
    } else if t.Tuple? && u.Tuple? {
      var ts, us := Canon(t).types, Canon(u).types;
      if |t.types| == |u.types| {
        forall i | 0 <= i < |ts| ensures Same(t.types[i], u.types[i]) <==> ts[i] == us[i] {
          SameIsEquivalence(t.types[i], u.types[i]);
        }
      }
    }
  }

  lemma {:induction false} CanonIdempotent(t: Type)
    ensures Canon(Canon(t)) == Canon(t)
  {
    match t {
      case Array(sub, _) => CanonIdempotent(sub);
      case FixedArray(sub, _) => CanonIdempotent(sub);
      case Tuple(types) =>
        forall i | 0 <= i < |types| ensures Canon(Canon(types[i])) == Canon(types[i]) { CanonIdempotent(types[i]); }
        assert Canon(Canon(t)).types == Canon(t).types;
      case _ =>
    }
  }

  /** Types that are the same have the same layout. */
  lemma {:induction false} CanonLayout(t: Type)
    ensures Static(Canon(t)) == Static(t) && HeadSize(Canon(t)) == HeadSize(t)
    ensures Height(Canon(t)) == Height(t) && Nodes(Canon(t)) == Nodes(t) && WellFormed(Canon(t)) == WellFormed(t)
    decreases t, 1
  {
    hide AllWellFormed, HeadSizes, Heights, NodesOf;
    match t {
      case Array(sub, _) => CanonLayout(sub);
      case FixedArray(sub, _) => CanonLayout(sub);
      case Tuple(types) => CanonLayouts(types, Canon(t).types, |types|);
      case _ =>
    }
  }

  lemma {:induction false} CanonLayouts(ts: seq<Type>, us: seq<Type>, n: nat)
    requires n <= |ts| == |us| && forall i :: 0 <= i < |ts| ==> us[i] == Canon(ts[i])
    ensures HeadSizes(us, n) == HeadSizes(ts, n) && Heights(us, n) == Heights(ts, n) && NodesOf(us, n) == NodesOf(ts, n)
    ensures AllWellFormed(us, n) == AllWellFormed(ts, n)
    ensures forall i :: 0 <= i < n ==> Static(us[i]) == Static(ts[i])
    decreases ts, 0, n
  {
    if n > 0 {
      CanonLayouts(ts, us, n - 1);
      CanonLayout(ts[n - 1]);
    }
  }

  /** The names of the contract ABI specification. */
  lemma Names()
    ensures Repr(Uint(256)) == "uint256" && Repr(Int(256)) == "int256"
    ensures Repr(Fixed(128, 18)) == "fixed128x18" && Repr(UFixed(128, 18)) == "ufixed128x18"
    ensures Repr(Address) == "address" && Repr(Bool) == "bool" && Repr(Function) == "function"
    ensures Repr(Bytes(32)) == "bytes32" && Repr(DynamicBytes) == "bytes" && Repr(String) == "string"
  {
    hide Decimal;
    Numerals();
    assert "uint" + "256" == "uint256" && "int" + "256" == "int256" && "bytes" + "32" == "bytes32";
    assert "fixed" + "128" + "x" + "18" == "fixed128x18" && "ufixed" + "128" + "x" + "18" == "ufixed128x18";
  }

  lemma Numerals()
    ensures Decimal(256) == "256" && Decimal(128) == "128" && Decimal(18) == "18" && Decimal(32) == "32"
    ensures Decimal(3) == "3"
  {
    assert Decimal(2) == "2" && Decimal(1) == "1";
    assert Decimal(25) == "2" + "5" && Decimal(12) == "1" + "2";
  }

  lemma TupleName()
    ensures Repr(Tuple([Array(Bool, 0), FixedArray(Address, 3)])) == "(bool[],address[3])"
  {
    hide Decimal;
    Numerals();
    var a, b := Array(Bool, 0), FixedArray(Address, 3);
    var ts := [a, b];
    assert Repr(a) == "bool[]" && Repr(b) == "address" + "[3]";
    assert Joined(ts, 1) == "address[3])";
    assert Joined(ts, 0) == "bool[]" + ("," + Joined(ts, 1));
    assert "(" + Joined(ts, 0) == "(bool[],address[3])";
  }
}
