/** ABIv2TypeParser: a recursive-descent parser over a position, and that it inverts the printer. */
module TypeParser {
  import opened Arith
  import opened AbiTypes
  import opened Options
  import opened TypeStrings

  // ---- the grammar, as a function of the string and a position ----

  datatype Parsed = Parsed(type_: Type, position: nat)

  /** Where the characters from a position on that satisfy p end. */
  function Span(s: string, pos: nat, p: char -> bool): (r: nat)
    requires pos <= |s|
    ensures pos <= r <= |s|
    decreases |s| - pos
  {
    if pos < |s| && p(s[pos]) then Span(s, pos + 1, p) else pos
  }

  function Digits(s: string, pos: nat): (r: nat)
    requires pos <= |s|
    ensures pos <= r <= |s|
  {
    Span(s, pos, c => IsDigit(c))
  }

  function Letters(s: string, pos: nat): (r: nat)
    requires pos <= |s|
    ensures pos <= r <= |s|
  {
    Span(s, pos, c => IsLower(c))
  }

  /** UInt64(digits): none if the digits are none or too many. */
  function ToNumber(digits: string): Option<u64>
  {
    if |digits| > 0 && DecimalValue(digits) < 0x1_0000_0000_0000_0000 then Some(DecimalValue(digits)) else None
  }

  function DecimalValue(digits: string): nat
  {
    if |digits| == 0 then 0
    else
      var c := digits[|digits| - 1];
      10 * DecimalValue(digits[..|digits| - 1]) + if IsDigit(c) then DigitValue(c) else 0
  }

  predicate At(s: string, pos: nat, c: char)
  {
    pos < |s| && s[pos] == c
  }

  /** A number without a leading zero. */
  function Positive(s: string, start: nat, end: nat): Option<u64>
    requires start <= end <= |s|
  {
    if start == end || s[start] == '0' then None else ToNumber(s[start..end])
  }

  /** Layouts are checked with a fresh node budget each time. */
  predicate LayoutOk(t: Type, depth: nat)
  {
    Accepted(t, depth) && Nodes(t) <= MAX_NODES
  }

  /** A type without parentheses and array suffixes. */
  function Named(s: string, pos: nat, depth: nat): (r: Option<Parsed>)
    requires pos <= |s|
    ensures r.Some? ==> pos < r.value.position <= |s|
  {
    var numberStart := Letters(s, pos);
    var p := Digits(s, numberStart);
    if p > numberStart && Positive(s, numberStart, p).None? then None else
    var width := if p > numberStart then Positive(s, numberStart, p) else None;
    var name := s[pos..numberStart];
    if name == "uint" then Some(Parsed(Uint(if width.Some? then width.value else 256), p))
    else if name == "int" then Some(Parsed(Int(if width.Some? then width.value else 256), p))
    else if name == "fixed" || name == "ufixed" then
      if width.None? then Some(Parsed(if name == "fixed" then Fixed(128, 18) else UFixed(128, 18), p))
      else if !At(s, p, 'x') then None
      else
        var q := Digits(s, p + 1);
        var decimals := Positive(s, p + 1, q);
        if decimals.None? then None
        else
          var t :=
            if name == "fixed" then Fixed(width.value, decimals.value) else UFixed(width.value, decimals.value);
          Some(Parsed(t, q))
    else if name == "bytes" then Some(Parsed(if width.Some? then Bytes(width.value) else DynamicBytes, p))
    else if width.Some? then None
    else if name == "address" then Some(Parsed(Address, p))
    else if name == "bool" then Some(Parsed(Bool, p))
    else if name == "function" then Some(Parsed(Type.Function, p))
    else if name == "string" then Some(Parsed(String, p))
    else if name == "tuple" && depth == 0 then Some(Parsed(Tuple([]), p))
    else None
  }

  /** One array suffix, after its opening bracket. */
  function Suffix(s: string, pos: nat, sub: Type): (r: Option<Parsed>)
    requires pos <= |s|
    ensures r.Some? ==> pos < r.value.position <= |s|
  {
    if At(s, pos, ']') then Some(Parsed(Array(sub, 0), pos + 1))
    else
      var end := Digits(s, pos);
      if pos == end || (end - pos != 1 && s[pos] == '0') then None else
      var length := ToNumber(s[pos..end]);
      if length.None? || !At(s, end, ']') then None
      else Some(Parsed(if length.value == 0 then FixedArray(sub, 0) else Array(sub, length.value), end + 1))
  }

  /** All array suffixes. */
  function Suffixes(s: string, pos: nat, t: Type, depth: nat): (r: Option<Parsed>)
    requires pos <= |s|
    ensures r.Some? ==> pos <= r.value.position <= |s| && LayoutOk(r.value.type_, depth)
    decreases |s| - pos
  {
    if !LayoutOk(t, depth) then None
    else if !At(s, pos, '[') then Some(Parsed(t, pos))
    else
      var suffix := Suffix(s, pos + 1, t);
      if suffix.None? then None else Suffixes(s, suffix.value.position, suffix.value.type_, depth)
  }

  function TypeAt(s: string, pos: nat, depth: nat): (r: Option<Parsed>)
    requires pos <= |s|
    ensures r.Some? ==> pos < r.value.position <= |s| && LayoutOk(r.value.type_, depth)
    decreases |s| - pos, 1
  {
    if depth >= MAX_DEPTH then None else
    var base :=
      if !At(s, pos, '(') then Named(s, pos, depth)
      else if At(s, pos + 1, ')') then Some(Parsed(Tuple([]), pos + 2))
      else Components(s, pos + 1, depth, []);
    if base.None? then None else Suffixes(s, base.value.position, base.value.type_, depth)
  }

  /** The components of a tuple after the ones found so far, and the closing parenthesis. */
  function Components(s: string, pos: nat, depth: nat, found: seq<Type>): (r: Option<Parsed>)
    requires pos <= |s|
    ensures r.Some? ==> pos < r.value.position <= |s|
    decreases |s| - pos, 2
  {
    var component := TypeAt(s, pos, depth + 1);
    if component.None? then None else
    var types, p := found + [component.value.type_], component.value.position;
    if At(s, p, ')') then Some(Parsed(Tuple(types), p + 1))
    else if At(s, p, ',') then Components(s, p + 1, depth, types)
    else None
  }

  // ---- the parser ----

  class Parser {
    const bytes: string
    var position: nat

    ghost predicate Valid()
      reads this
    {
      position <= |bytes|
    }

    constructor (bytes: string)
      ensures Valid() && this.bytes == bytes && position == 0
    {
      this.bytes := bytes;
      position := 0;
    }

    method Consume(c: char) returns (ok: bool)
      requires Valid()
      modifies `position
      ensures Valid() && ok == At(bytes, old(position), c) && position == old(position) + if ok then 1 else 0
    {
      if !(position < |bytes| && bytes[position] == c) { return false; }
      position := position + 1;
      return true;
    }

    method SkipDigits()
      requires Valid()
      modifies `position
      ensures Valid() && position == Digits(bytes, old(position))
    {
      while position < |bytes| && IsDigit(bytes[position])
        invariant position <= |bytes| && Digits(bytes, position) == Digits(bytes, old(position))
      {
        position := position + 1;
      }
    }

    method SkipLetters()
      requires Valid()
      modifies `position
      ensures Valid() && position == Letters(bytes, old(position))
    {
      while position < |bytes| && IsLower(bytes[position])
        invariant position <= |bytes| && Letters(bytes, position) == Letters(bytes, old(position))
      {
        position := position + 1;
      }
    }

    /** The result is what the grammar says, and the position is past it. */
    ghost predicate Yields(r: Option<Type>, spec: Option<Parsed>)
      reads this
    {
      Valid() && (r.Some? <==> spec.Some?)
        && (r.Some? ==> r.value == spec.value.type_ && position == spec.value.position)
    }

    /** parseType: the type in front of the position, at a depth of nesting. */
    method ParseType(depth: nat) returns (r: Option<Type>)
      requires Valid()
      modifies `position
      ensures Yields(r, TypeAt(bytes, old(position), depth))
      decreases |bytes| - position, 1
    {
      hide Valid, At, Components, LayoutOk, Named, Positive, Suffixes;
      if !(depth < MAX_DEPTH) { return None; }
      var baseType;
      var open := Consume('(');
      if open {
        baseType := ParseComponents(depth);
      } else {
        baseType := ParseName(depth);
      }
      if baseType.None? { return None; }
      r := ParseArrays(baseType.value, depth);
    }

    /** The branch of parseType for a tuple, after its opening parenthesis. */
    method ParseComponents(depth: nat) returns (r: Option<Type>)
      requires Valid()
      modifies `position
      ensures Yields(r, if At(bytes, old(position), ')') then Some(Parsed(Tuple([]), old(position) + 1))
                        else Components(bytes, old(position), depth, []))
      decreases |bytes| - position, 2
    {
      hide TypeAt, Named, Suffixes;
      var components: seq<Type> := [];
      var close := Consume(')');
      if close { return Some(Tuple([])); }
      while true
        invariant old(position) <= position <= |bytes|
        invariant Components(bytes, position, depth, components) == Components(bytes, old(position), depth, [])
        decreases |bytes| - position
      {
        var component := ParseType(depth + 1);
        if component.None? { return None; }
        components := components + [component.value];
        close := Consume(')');
        if close { return Some(Tuple(components)); }
        var comma := Consume(',');
        if !comma { return None; }
      }
    }

    /** The branch of parseType for a name with its widths. */
    method ParseName(depth: nat) returns (r: Option<Type>)
      requires Valid()
      modifies `position
      ensures Yields(r, Named(bytes, old(position), depth))
    {
      var start := position;
      SkipLetters();
      var name := bytes[start..position];
      var numberStart := position;
      SkipDigits();
      var width: Option<u64> := None;
      if numberStart != position {
        if bytes[numberStart] == '0' { return None; }
        width := ToNumber(bytes[numberStart..position]);
        if width.None? { return None; }
      }
      if name == "uint" { return Some(Uint(if width.Some? then width.value else 256)); }
      if name == "int" { return Some(Int(if width.Some? then width.value else 256)); }
      if name == "fixed" || name == "ufixed" {
        var bits, decimals: u64 := 128, 18;
        if width.Some? {
          var x := Consume('x');
          if !x { return None; }
          var decimalsStart := position;
          SkipDigits();
          if !(decimalsStart < position && bytes[decimalsStart] != '0') { return None; }
          var parsed := ToNumber(bytes[decimalsStart..position]);
          if parsed.None? { return None; }
          bits, decimals := width.value, parsed.value;
        }
        return Some(if name == "fixed" then Fixed(bits, decimals) else UFixed(bits, decimals));
      }
      if name == "bytes" { return Some(if width.Some? then Bytes(width.value) else DynamicBytes); }
      if width.Some? { return None; }
      if name == "address" { return Some(Address); }
      if name == "bool" { return Some(Bool); }
      if name == "function" { return Some(Type.Function); }
      if name == "string" { return Some(String); }
      if name == "tuple" && depth == 0 { return Some(Tuple([])); }
      return None;
    }

    /** One turn of parseArrays, after the opening bracket. */
    method ParseSuffix(sub: Type) returns (r: Option<Type>)
      requires Valid()
      modifies `position
      ensures Yields(r, Suffix(bytes, old(position), sub))
    {
      var empty := Consume(']');
      if empty { return Some(Array(sub, 0)); }
      var start := position;
      SkipDigits();
      if !(start < position && (position - start == 1 || bytes[start] != '0')) { return None; }
      var parsed := ToNumber(bytes[start..position]);
      if parsed.None? { return None; }
      var close := Consume(']');
      if !close { return None; }
      return Some(if parsed.value == 0 then FixedArray(sub, 0) else Array(sub, parsed.value));
    }

    /** parseArrays: the array suffixes of a type. */
    method ParseArrays(baseType: Type, depth: nat) returns (r: Option<Type>)
      requires Valid()
      modifies `position
      ensures Yields(r, Suffixes(bytes, old(position), baseType, depth))
    {
      hide Suffix, Accepted, Nodes, WellFormed, Height, Static, HeadSize, At;
      var t := baseType;
      var layout, nodes := LayoutOf(t, depth, MAX_NODES);
      if layout.None? { return None; }
      var more := Consume('[');
      while more
        invariant if more then 0 < position <= |bytes| && At(bytes, position - 1, '[')
                  else position <= |bytes| && !At(bytes, position, '[')
        invariant LayoutOk(t, depth)
        invariant Suffixes(bytes, if more then position - 1 else position, t, depth)
          == Suffixes(bytes, old(position), baseType, depth)
        decreases if more then |bytes| - position + 1 else 0
      {
        var suffixed := ParseSuffix(t);
        if suffixed.None? { return None; }
        t := suffixed.value;
        layout, nodes := LayoutOf(t, depth, MAX_NODES);
        if layout.None? { return None; }
        more := Consume('[');
      }
      return Some(t);
    }
  }

  /** ABIv2TypeParser.parseTypeString: the whole string must be one type. */
  method ParseTypeString(s: string) returns (r: Option<Type>)
    ensures r.Some? <==> TypeAt(s, 0, 0).Some? && TypeAt(s, 0, 0).value.position == |s|
    ensures r.Some? ==> r.value == TypeAt(s, 0, 0).value.type_
  {
    var parser := new Parser(s);
    r := parser.ParseType(0);
    if r.None? || parser.position != |s| { return None; }
  }
}
