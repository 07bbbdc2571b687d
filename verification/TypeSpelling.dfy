/** How types may be written: the parser accepts exactly the spellings of types the layout accepts. */
module TypeSpelling {
  import opened Arith
  import opened AbiTypes
  import opened Options
  import opened TypeStrings
  import opened TypeParser

  predicate Occurs(s: string, pos: nat, e: string)
  {
    pos + |e| <= |s| && s[pos..pos + |e|] == e
  }

  /** The two parts of an occurrence. */
  lemma OccursParts(s: string, pos: nat, a: string, b: string)
    requires Occurs(s, pos, a + b)
    ensures Occurs(s, pos, a) && Occurs(s, pos + |a|, b)
  {
    var e := a + b;
    assert s[pos..pos + |a|] == e[..|a|];
    assert s[pos + |a|..pos + |e|] == e[|a|..];
  }

  lemma OccursWithin(s: string, pos: nat, e: string)
    requires Occurs(s, pos, e)
    ensures pos + |e| <= |s|
  {}

  lemma OccursChar(s: string, pos: nat, e: string, i: nat)
    requires Occurs(s, pos, e) && i < |e|
    ensures At(s, pos + i, e[i])
  {
    assert s[pos..pos + |e|][i] == e[i];
  }

  /** No name or number goes on at a position. */
  predicate Stops(s: string, pos: nat)
  {
    pos == |s| || (pos < |s| && !IsLower(s[pos]) && !IsDigit(s[pos]))
  }

  lemma {:induction false} SpanIs(s: string, pos: nat, p: char -> bool, end: nat)
    requires pos <= end <= |s| && forall i :: pos <= i < end ==> p(s[i])
    requires end == |s| || !p(s[end])
    ensures Span(s, pos, p) == end
    decreases end - pos
  {
    if pos < end { SpanIs(s, pos + 1, p, end); }
  }

  // ---- numbers and names ----

  lemma {:induction false} ValueOfDecimal(n: nat)
    ensures DecimalValue(Decimal(n)) == n
  {
    if n >= 10 {
      ValueOfDecimal(n / 10);
      var r := Decimal(n);
      assert r[..|r| - 1] == Decimal(n / 10);
    } else {
      assert DecimalValue([]) == 0;
      assert Decimal(n)[..0] == [];
    }
  }

  lemma NumberAt(s: string, pos: nat, n: u64)
    requires Occurs(s, pos, Decimal(n))
    requires pos + |Decimal(n)| == |s| || !IsDigit(s[pos + |Decimal(n)|])
    ensures var end := pos + |Decimal(n)|;
      && Digits(s, pos) == end && ToNumber(s[pos..end]) == Some(n)
      && (s[pos] == '0' <==> n == 0) && (n == 0 ==> end == pos + 1)
      && (n > 0 ==> Positive(s, pos, end) == Some(n))
  {
    hide Decimal, IsDigit, DecimalValue, Digit, Span;
    var d := Decimal(n);
    forall i | pos <= i < pos + |d| ensures IsDigit(s[i]) { OccursChar(s, pos, d, i - pos); }
    SpanIs(s, pos, c => IsDigit(c), pos + |d|);
    ValueOfDecimal(n);
    OccursChar(s, pos, d, 0);
  }

  lemma LettersAt(s: string, pos: nat, word: string)
    requires Occurs(s, pos, word) && forall i :: 0 <= i < |word| ==> IsLower(word[i])
    requires pos + |word| == |s| || !IsLower(s[pos + |word|])
    ensures Letters(s, pos) == pos + |word|
  {
    forall i | pos <= i < pos + |word| ensures IsLower(s[i]) { OccursChar(s, pos, word, i - pos); }
    SpanIs(s, pos, c => IsLower(c), pos + |word|);
  }

  /** A name with no number after it. */
  lemma PlainName(s: string, pos: nat, word: string)
    requires Occurs(s, pos, word) && (forall i :: 0 <= i < |word| ==> IsLower(word[i])) && Stops(s, pos + |word|)
    ensures Letters(s, pos) == pos + |word| && Digits(s, pos + |word|) == pos + |word|
  {
    LettersAt(s, pos, word);
    SpanIs(s, pos + |word|, c => IsDigit(c), pos + |word|);
  }

  /** A name with a number after it. */
  lemma NumberedName(s: string, pos: nat, word: string, n: u64)
    requires Occurs(s, pos, word + Decimal(n)) && (forall i :: 0 <= i < |word| ==> IsLower(word[i])) && n > 0
    requires var end := pos + |word| + |Decimal(n)|; end == |s| || !IsDigit(s[end])
    ensures var start := pos + |word|; var end := start + |Decimal(n)|;
      && Letters(s, pos) == start && s[pos..start] == word
      && Digits(s, start) == end && end > start && Positive(s, start, end) == Some(n)
  {
    hide Decimal, DecimalValue, Span;
    OccursParts(s, pos, word, Decimal(n));
    NumberAt(s, pos + |word|, n);
    OccursChar(s, pos + |word|, Decimal(n), 0);
    LettersAt(s, pos, word);
  }

  predicate Elementary(t: Type)
  {
    !IsArray(t) && !t.Tuple?
  }

  /** No width is zero. */
  predicate NonZero(t: Type)
  {
    match t
    case Uint(bits) => bits > 0
    case Int(bits) => bits > 0
    case Fixed(bits, decimals) => bits > 0 && decimals > 0
    case UFixed(bits, decimals) => bits > 0 && decimals > 0
    case Bytes(length) => length > 0
    case _ => true
  }

  lemma FixedName(s: string, pos: nat, word: string, bits: u64, decimals: u64, depth: nat)
    requires word == "fixed" || word == "ufixed"
    requires bits > 0 && decimals > 0
    requires var e := word + Decimal(bits) + "x" + Decimal(decimals); Occurs(s, pos, e) && Stops(s, pos + |e|)
    ensures Named(s, pos, depth)
      == Some(Parsed(if word == "fixed" then Fixed(bits, decimals) else UFixed(bits, decimals),
      pos + |word| + |Decimal(bits)| + 1 + |Decimal(decimals)|))
  {
    hide Decimal, DecimalValue, Span, Positive, Letters, Digits, Occurs, Stops;
    var p := pos + |word| + |Decimal(bits)|;
    StopsNumber(s, p + 1 + |Decimal(decimals)|);
    FixedParts(s, pos, word, bits, decimals);
    NumberedName(s, pos, word, bits);
    NumberAt(s, p + 1, decimals);
  }

  lemma StopsNumber(s: string, p: nat)
    requires Stops(s, p)
    ensures p == |s| || !IsDigit(s[p])
  {}

  lemma FixedParts(s: string, pos: nat, word: string, bits: nat, decimals: nat)
    requires Occurs(s, pos, word + Decimal(bits) + "x" + Decimal(decimals))
    ensures var p := pos + |word| + |Decimal(bits)|;
      Occurs(s, pos, word + Decimal(bits)) && At(s, p, 'x') && Occurs(s, p + 1, Decimal(decimals))
  {
    hide Decimal;
    OccursParts(s, pos, word + Decimal(bits) + "x", Decimal(decimals));
    OccursParts(s, pos, word + Decimal(bits), "x");
    OccursChar(s, pos + |word| + |Decimal(bits)|, "x", 0);
  }

  /** An elementary type is read from its full name. */
  lemma NamedType(t: Type, s: string, pos: nat, depth: nat)
    requires Elementary(t) && NonZero(t) && Occurs(s, pos, Repr(t)) && Stops(s, pos + |Repr(t)|)
    ensures Named(s, pos, depth) == Some(Parsed(t, pos + |Repr(t)|))
  {
    hide Decimal, Span, DecimalValue, Positive, Named;
    match t {
      case Uint(bits) => NumberedType(t, s, pos, depth);
      case Int(bits) => NumberedType(t, s, pos, depth);
      case Bytes(length) => NumberedType(t, s, pos, depth);
      case Fixed(bits, decimals) => FixedName(s, pos, "fixed", bits, decimals, depth);
      case UFixed(bits, decimals) => FixedName(s, pos, "ufixed", bits, decimals, depth);
      case _ => PlainType(t, s, pos, depth);
    }
  }

  lemma NumberedType(t: Type, s: string, pos: nat, depth: nat)
    requires (t.Uint? || t.Int? || t.Bytes?) && NonZero(t) && Occurs(s, pos, Repr(t)) && Stops(s, pos + |Repr(t)|)
    ensures Named(s, pos, depth) == Some(Parsed(t, pos + |Repr(t)|))
  {
    hide Decimal, Span, DecimalValue, Positive;
    if t.Uint? { NumberedName(s, pos, "uint", t.bits); }
    if t.Int? { NumberedName(s, pos, "int", t.bits); }
    if t.Bytes? { NumberedName(s, pos, "bytes", t.length); }
  }

  lemma PlainType(t: Type, s: string, pos: nat, depth: nat)
    requires t.Address? || t.Bool? || t.Function? || t.String? || t.DynamicBytes?
    requires Occurs(s, pos, Repr(t)) && Stops(s, pos + |Repr(t)|)
    ensures Named(s, pos, depth) == Some(Parsed(t, pos + |Repr(t)|))
  {
    hide Span, Positive;
    PlainName(s, pos, Repr(t));
  }

  // ---- spellings ----

  /** The names that may be written without widths. */
  function ShortName(t: Type): Option<string>
  {
    if t == Uint(256) then Some("uint")
    else if t == Int(256) then Some("int")
    else if t == Fixed(128, 18) then Some("fixed")
    else if t == UFixed(128, 18) then Some("ufixed")
    else None
  }

  /** A way to write a type: names in full or short, array suffixes, components in parentheses; at the top, a tuple may
      be the word alone. */
  datatype Spelling =
    | Name(t: Type, short: bool)
    | ArrayOf(sub: Spelling, length: Option<u64>)
    | Group(components: seq<Spelling>)
    | TupleWord

  predicate Proper(w: Spelling, depth: nat)
    decreases w
  {
    match w
    case Name(t, short) => Elementary(t) && NonZero(t) && (short ==> ShortName(t).Some?)
    case ArrayOf(sub, _) => Proper(sub, depth)
    case Group(components) => forall i :: 0 <= i < |components| ==> Proper(components[i], depth + 1)
    case TupleWord => depth == 0
  }

  function Spell(w: Spelling): string
    decreases w, 0
  {
    match w
    case Name(t, short) => if short && ShortName(t).Some? then ShortName(t).value else Repr(t)
    case ArrayOf(sub, length) => Spell(sub) + Brackets(length)
    case Group(components) => "(" + (if |components| == 0 then ")" else Listed(components, 0))
    case TupleWord => "tuple"
  }

  function Brackets(length: Option<u64>): string
  {
    if length.None? then "[]" else "[" + Decimal(length.value) + "]"
  }

  /** The components from i on, separated by commas, and the closing parenthesis. */
  function Listed(ws: seq<Spelling>, i: nat): string
    requires i < |ws|
    decreases ws, |ws| - i
  {
    Spell(ws[i]) + if i == |ws| - 1 then ")" else "," + Listed(ws, i + 1)
  }

  function Meaning(w: Spelling): Type
  {
    match w
    case Name(t, _) => t
    case ArrayOf(sub, length) => WithSuffix(Meaning(sub), length)
    case Group(components) => Tuple(seq(|components|, i requires 0 <= i < |components| => Meaning(components[i])))
    case TupleWord => Tuple([])
  }

  function WithSuffix(t: Type, length: Option<u64>): Type
  {
    if length == Some(0) then FixedArray(t, 0) else Array(t, if length.Some? then length.value else 0)
  }

  // ---- what is spelled is read ----

  lemma LayoutOfParts(t: Type, depth: nat)
    requires LayoutOk(t, depth)
    ensures depth < MAX_DEPTH
    ensures IsArray(t) ==> LayoutOk(t.sub, depth)
    ensures t.Tuple? ==> forall i :: 0 <= i < |t.types| ==> LayoutOk(t.types[i], depth + 1)
    ensures LayoutOk(Canon(t), depth)
  {
    CanonLayout(t);
    if t.Tuple? {
      forall i | 0 <= i < |t.types| ensures LayoutOk(t.types[i], depth + 1) {
        WellFormedMember(t.types, |t.types|, i);
        HeightOfMember(t.types, |t.types|, i);
      }
    }
  }

  lemma {:induction false} SpellStart(w: Spelling)
    ensures |Spell(w)| > 0
    ensures Spell(w)[0] == '(' || IsLower(Spell(w)[0]) || (w.Name? && !Elementary(w.t)) || w.ArrayOf?
    ensures (w.Name? && Elementary(w.t)) || w.TupleWord? ==> IsLower(Spell(w)[0])
    ensures w.Group? ==> Spell(w)[0] == '('
  {
    if w.ArrayOf? { SpellStart(w.sub); }
    if w.Name? && !Elementary(w.t) { ReprStart(w.t); }
  }

  lemma {:induction false} ReprStart(t: Type)
    ensures |Repr(t)| > 0 && (Repr(t)[0] == '(' || IsLower(Repr(t)[0]))
    ensures Elementary(t) ==> IsLower(Repr(t)[0])
  {
    if IsArray(t) { ReprStart(t.sub); }
  }

  /** A spelling in a string is read as its meaning; then its array suffixes, if more follow. */
  lemma {:induction false} Reads(w: Spelling, s: string, pos: nat, depth: nat)
    requires Proper(w, depth) && Occurs(s, pos, Spell(w)) && Stops(s, pos + |Spell(w)|)
    ensures TypeAt(s, pos, depth) == Suffixes(s, pos + |Spell(w)|, Meaning(w), depth)
    decreases w, 1
  {
    hide Decimal, Span, Named, Suffix, Suffixes, TypeAt, Accepted, Repr, LayoutOk, Occurs, Components, Stops, Spell,
      Meaning, Brackets;
    match w {
      case Name(t, short) =>
        NameReads(t, short, s, pos, depth);
        BaseReads(s, pos, depth, Meaning(w), pos + |Spell(w)|);
      case ArrayOf(sub, length) =>
        ArrayReads(w, s, pos);
        ArraySpell(w);
        Reads(sub, s, pos, depth);
        SuffixReads(s, pos + |Spell(sub)|, Meaning(sub), depth, Meaning(w), pos + |Spell(w)|);
      case Group(components) =>
        GroupReads(w, s, pos, depth);
      case TupleWord =>
        WordReads(s, pos);
        BaseReads(s, pos, depth, Meaning(w), pos + |Spell(w)|);
    }
  }

  lemma NoLayout(s: string, pos: nat, t: Type, depth: nat)
    requires pos <= |s|
    ensures !LayoutOk(t, depth) ==> Suffixes(s, pos, t, depth) == None
    ensures LayoutOk(t, depth) && !At(s, pos, '[') ==> Suffixes(s, pos, t, depth) == Some(Parsed(t, pos))
    ensures depth >= MAX_DEPTH ==> Suffixes(s, pos, t, depth) == None
  {
    hide Suffix;
    if LayoutOk(t, depth) { LayoutOfParts(t, depth); }
  }

  lemma BaseReads(s: string, pos: nat, depth: nat, t: Type, p: nat)
    requires pos <= |s| && !At(s, pos, '(') && Named(s, pos, depth) == Some(Parsed(t, p))
    ensures TypeAt(s, pos, depth) == Suffixes(s, p, t, depth)
  {
    hide Named, Suffixes;
    NoLayout(s, p, t, depth);
  }

  lemma NameReads(t: Type, short: bool, s: string, pos: nat, depth: nat)
    requires var w := Name(t, short);
      Proper(w, depth) && Occurs(s, pos, Spell(w)) && Stops(s, pos + |Spell(w)|)
    ensures var w := Name(t, short);
      pos < |s| && !At(s, pos, '(') && Meaning(w) == t && Named(s, pos, depth) == Some(Parsed(t, pos + |Spell(w)|))
  {
    hide Repr, Named, Occurs, Stops;
    var w := Name(t, short);
    SpellStart(w);
    OccursChar(s, pos, Spell(w), 0);
    if short { ShortReads(t, s, pos, depth); } else { NamedType(t, s, pos, depth); }
  }

  lemma ShortReads(t: Type, s: string, pos: nat, depth: nat)
    requires ShortName(t).Some? && Occurs(s, pos, ShortName(t).value) && Stops(s, pos + |ShortName(t).value|)
    ensures Named(s, pos, depth) == Some(Parsed(t, pos + |ShortName(t).value|))
  {
    hide Span, Positive;
    PlainName(s, pos, ShortName(t).value);
  }

  lemma WordReads(s: string, pos: nat)
    requires Occurs(s, pos, Spell(TupleWord)) && Stops(s, pos + |Spell(TupleWord)|)
    ensures pos < |s| && !At(s, pos, '(') && Meaning(TupleWord) == Tuple([])
    ensures Named(s, pos, 0) == Some(Parsed(Tuple([]), pos + |Spell(TupleWord)|))
  {
    hide Span, Positive;
    OccursChar(s, pos, "tuple", 0);
    PlainName(s, pos, "tuple");
  }

  /** The suffix of an array, past its elements. */
  lemma ArrayReads(w: Spelling, s: string, pos: nat)
    requires w.ArrayOf? && Occurs(s, pos, Spell(w))
    ensures var p := pos + |Spell(w.sub)|;
      && Occurs(s, pos, Spell(w.sub)) && At(s, p, '[') && Stops(s, p)
      && Suffix(s, p + 1, Meaning(w.sub)) == Some(Parsed(Meaning(w), pos + |Spell(w)|))
  {
    hide *;
    ArraySpell(w);
    var p := pos + |Spell(w.sub)|;
    OccursParts(s, pos, Spell(w.sub), Brackets(w.length));
    if w.length.None? {
      EmptySuffix(s, p, Meaning(w.sub));
    } else {
      LengthSuffix(s, p, w.length.value, Meaning(w.sub));
    }
    BracketStops(s, p);
  }

  lemma ArraySpell(w: Spelling)
    requires w.ArrayOf?
    ensures Spell(w) == Spell(w.sub) + Brackets(w.length)
    ensures Brackets(w.length) == if w.length.None? then "[]" else "[" + Decimal(w.length.value) + "]"
    ensures Meaning(w) == if w.length == Some(0) then FixedArray(Meaning(w.sub), 0)
                          else Array(Meaning(w.sub), if w.length.Some? then w.length.value else 0)
  {
    hide Decimal;
  }

  lemma SuffixReads(s: string, p: nat, t: Type, depth: nat, u: Type, end: nat)
    requires At(s, p, '[') && Suffix(s, p + 1, t) == Some(Parsed(u, end)) && IsArray(u) && u.sub == t
    ensures Suffixes(s, p, t, depth) == Suffixes(s, end, u, depth)
  {
    hide Suffix, LayoutOk;
    if LayoutOk(u, depth) { LayoutOfParts(u, depth); }
    NoLayout(s, end, u, depth);
  }

  lemma BracketStops(s: string, p: nat)
    requires At(s, p, '[')
    ensures Stops(s, p)
  {}

  lemma EmptySuffix(s: string, p: nat, sub: Type)
    requires Occurs(s, p, "[]")
    ensures At(s, p, '[') && Suffix(s, p + 1, sub) == Some(Parsed(Array(sub, 0), p + 2))
  {
    OccursChar(s, p, "[]", 0);
    OccursChar(s, p, "[]", 1);
  }

  lemma LengthSuffix(s: string, p: nat, length: u64, sub: Type)
    requires Occurs(s, p, "[" + Decimal(length) + "]")
    ensures At(s, p, '[')
    ensures Suffix(s, p + 1, sub) ==
      Some(Parsed(if length == 0 then FixedArray(sub, 0) else Array(sub, length), p + |Decimal(length)| + 2))
  {
    hide Span, DecimalValue, Decimal, Positive, Occurs, Digits, ToNumber;
    var d := Decimal(length);
    OccursParts(s, p, "[" + d, "]");
    OccursParts(s, p, "[", d);
    OccursChar(s, p, "[", 0);
    OccursChar(s, p + 1 + |d|, "]", 0);
    OccursChar(s, p + 1, d, 0);
    NumberAt(s, p + 1, length);
  }

  lemma {:induction false} GroupReads(w: Spelling, s: string, pos: nat, depth: nat)
    requires w.Group? && Proper(w, depth) && Occurs(s, pos, Spell(w))
    ensures TypeAt(s, pos, depth) == Suffixes(s, pos + |Spell(w)|, Meaning(w), depth)
    decreases w, 0
  {
    hide Components, Listed, Spell, Meaning, Occurs, LayoutOk, Suffixes, Named;
    var ws := w.components;
    GroupSpell(w);
    OccursWithin(s, pos, Spell(w));
    OccursChar(s, pos, Spell(w), 0);
    NoLayout(s, pos + |Spell(w)|, Meaning(w), depth);
    if |ws| == 0 {
      OccursChar(s, pos, Spell(w), 1);
    } else {
      OccursParts(s, pos, "(", Listed(ws, 0));
      ListedStart(ws, depth);
      OccursChar(s, pos + 1, Listed(ws, 0), 0);
      ListedReads(ws, 0, s, pos + 1, depth, []);
      if LayoutOk(Meaning(w), depth) { LayoutOfParts(Meaning(w), depth); }
    }
  }

  lemma GroupSpell(w: Spelling)
    requires w.Group?
    ensures Spell(w) == if |w.components| == 0 then "()" else "(" + Listed(w.components, 0)
    ensures Meaning(w) == Tuple(Meanings(w.components))
  {
    hide Listed;
  }

  function Meanings(ws: seq<Spelling>): (r: seq<Type>)
    ensures |r| == |ws| && forall i :: 0 <= i < |ws| ==> r[i] == Meaning(ws[i])
  {
    seq(|ws|, i requires 0 <= i < |ws| => Meaning(ws[i]))
  }

  lemma ListedStart(ws: seq<Spelling>, depth: nat)
    requires |ws| > 0 && Proper(Group(ws), depth)
    ensures |Listed(ws, 0)| > 0 && Listed(ws, 0)[0] != ')'
  {
    hide Spell;
    ProperStart(ws[0], depth + 1);
  }

  lemma {:induction false} ProperStart(w: Spelling, depth: nat)
    requires Proper(w, depth)
    ensures |Spell(w)| > 0 && (Spell(w)[0] == '(' || IsLower(Spell(w)[0]))
  {
    SpellStart(w);
    if w.ArrayOf? { ProperStart(w.sub, depth); }
  }

  lemma ComponentsLast(s: string, pos: nat, depth: nat, found: seq<Type>, t: Type, p: nat)
    requires pos <= |s| && TypeAt(s, pos, depth + 1) == Some(Parsed(t, p)) && At(s, p, ')')
    ensures Components(s, pos, depth, found) == Some(Parsed(Tuple(found + [t]), p + 1))
  {
    hide TypeAt;
  }

  lemma ComponentsNext(s: string, pos: nat, depth: nat, found: seq<Type>, t: Type, p: nat)
    requires pos <= |s| && TypeAt(s, pos, depth + 1) == Some(Parsed(t, p)) && At(s, p, ',')
    ensures Components(s, pos, depth, found) == Components(s, p + 1, depth, found + [t])
  {
    hide TypeAt;
  }

  lemma ComponentsNone(s: string, pos: nat, depth: nat, found: seq<Type>)
    requires pos <= |s| && TypeAt(s, pos, depth + 1) == None
    ensures Components(s, pos, depth, found) == None
  {
    hide TypeAt;
  }

  lemma ListedParts(ws: seq<Spelling>, i: nat)
    requires i < |ws|
    ensures Listed(ws, i) == Spell(ws[i]) + if i == |ws| - 1 then ")" else "," + Listed(ws, i + 1)
  {
    hide Spell;
  }

  ghost predicate AllLaid(ts: seq<Type>, i: nat, depth: nat)
  {
    forall j :: i <= j < |ts| ==> LayoutOk(ts[j], depth)
  }

  /** Components are read one after the other, if the layout accepts them all. */
  lemma {:induction false} ListedReads(
    ws: seq<Spelling>, i: nat, s: string, pos: nat, depth: nat, found: seq<Type>)
    requires i < |ws| && Occurs(s, pos, Listed(ws, i)) && Proper(Group(ws), depth) && found == Meanings(ws)[..i]
    ensures Components(s, pos, depth, found) ==
      if AllLaid(Meanings(ws), i, depth + 1) then Some(Parsed(Tuple(Meanings(ws)), pos + |Listed(ws, i)|)) else None
    decreases ws, 0, |ws| - i
  {
    hide LayoutOk, TypeAt, Components, Listed, Spell, Meaning, Occurs, Suffixes;
    var text, ts := Spell(ws[i]), Meanings(ws);
    var rest := if i == |ws| - 1 then ")" else "," + Listed(ws, i + 1);
    ListedParts(ws, i);
    OccursParts(s, pos, text, rest);
    OccursChar(s, pos + |text|, rest, 0);
    ComponentReads(ws[i], s, pos, depth + 1);
    assert ts[..i] + [ts[i]] == ts[..i + 1];
    if !LayoutOk(ts[i], depth + 1) {
      ComponentsNone(s, pos, depth, found);
    } else if i == |ws| - 1 {
      assert ts[..i + 1] == ts;
      ComponentsLast(s, pos, depth, found, ts[i], pos + |text|);
    } else {
      OccursParts(s, pos + |text|, ",", Listed(ws, i + 1));
      ComponentsNext(s, pos, depth, found, ts[i], pos + |text|);
      ListedReads(ws, i + 1, s, pos + |text| + 1, depth, ts[..i + 1]);
    }
  }

  lemma {:induction false} ComponentReads(w: Spelling, s: string, pos: nat, depth: nat)
    requires Proper(w, depth) && Occurs(s, pos, Spell(w))
    requires At(s, pos + |Spell(w)|, ',') || At(s, pos + |Spell(w)|, ')')
    ensures TypeAt(s, pos, depth) ==
      if LayoutOk(Meaning(w), depth) then Some(Parsed(Meaning(w), pos + |Spell(w)|)) else None
    decreases w, 2
  {
    hide TypeAt, Spell, Meaning, LayoutOk, Suffixes;
    Reads(w, s, pos, depth);
    NoLayout(s, pos + |Spell(w)|, Meaning(w), depth);
  }

  /** A spelling on its own is read as its meaning exactly if the layout accepts that. */
  lemma ReadsAll(w: Spelling)
    requires Proper(w, 0)
    ensures TypeAt(Spell(w), 0, 0) == if LayoutOk(Meaning(w), 0) then Some(Parsed(Meaning(w), |Spell(w)|)) else None
  {
    hide TypeAt, Spell, Meaning, LayoutOk, Suffixes;
    Reads(w, Spell(w), 0, 0);
    NoLayout(Spell(w), |Spell(w)|, Meaning(w), 0);
  }

  // ---- what is read was spelled ----

  /** Digits without a leading zero are the decimal form of their number. */
  lemma {:induction false} DecimalOfValue(d: string)
    requires |d| > 0 && (d[0] != '0' || |d| == 1) && forall i :: 0 <= i < |d| ==> IsDigit(d[i])
    ensures Decimal(DecimalValue(d)) == d && (d[0] != '0' ==> DecimalValue(d) > 0)
  {
    var m := |d| - 1;
    assert d == d[..m] + [d[m]];
    if m == 0 {
      assert DecimalValue(d[..m]) == 0;
    } else {
      DecimalOfValue(d[..m]);
    }
  }

  lemma {:induction false} SpanHolds(s: string, pos: nat, p: char -> bool)
    requires pos <= |s|
    ensures forall i :: pos <= i < Span(s, pos, p) ==> p(s[i])
    decreases |s| - pos
  {
    if pos < |s| && p(s[pos]) { SpanHolds(s, pos + 1, p); }
  }

  lemma WidthSpelled(s: string, start: nat)
    requires start <= |s| && Positive(s, start, Digits(s, start)).Some?
    ensures var end, n := Digits(s, start), Positive(s, start, Digits(s, start)).value;
      start < end && n > 0 && s[start..end] == Decimal(n)
  {
    hide Decimal, Span, DecimalValue;
    SpanHolds(s, start, c => IsDigit(c));
    DecimalOfValue(s[start..Digits(s, start)]);
  }

  lemma NamedSpelled(s: string, pos: nat, depth: nat) returns (w: Spelling)
    requires pos <= |s| && Named(s, pos, depth).Some?
    ensures var r := Named(s, pos, depth).value;
      Proper(w, depth) && Spell(w) == s[pos..r.position] && Meaning(w) == r.type_
  {
    hide Decimal, Positive, Letters, Digits, DecimalValue;
    var start := Letters(s, pos);
    if Digits(s, start) > start { w := WideSpelled(s, pos, depth); } else { w := PlainSpelled(s, pos, depth); }
  }

  lemma WideSpelled(s: string, pos: nat, depth: nat) returns (w: Spelling)
    requires pos <= |s| && Named(s, pos, depth).Some? && Digits(s, Letters(s, pos)) > Letters(s, pos)
    ensures var r := Named(s, pos, depth).value;
      Proper(w, depth) && Spell(w) == s[pos..r.position] && Meaning(w) == r.type_
  {
    hide Decimal, Positive, Letters, Digits, DecimalValue;
    var start := Letters(s, pos);
    var p := Digits(s, start);
    var name := s[pos..start];
    assert s[pos..p] == name + s[start..p];
    WidthSpelled(s, start);
    w := Name(Named(s, pos, depth).value.type_, false);
    if name == "fixed" || name == "ufixed" {
      WidthSpelled(s, p + 1);
      var q := Digits(s, p + 1);
      assert s[pos..q] == name + s[start..p] + "x" + s[p + 1..q];
    }
  }

  lemma PlainSpelled(s: string, pos: nat, depth: nat) returns (w: Spelling)
    requires pos <= |s| && Named(s, pos, depth).Some? && Digits(s, Letters(s, pos)) == Letters(s, pos)
    ensures var r := Named(s, pos, depth).value;
      Proper(w, depth) && Spell(w) == s[pos..r.position] && Meaning(w) == r.type_
  {
    hide Decimal, Positive, Letters, Digits, DecimalValue;
    var t := Named(s, pos, depth).value.type_;
    w := if s[pos..Letters(s, pos)] == "tuple" then TupleWord else Name(t, ShortName(t).Some?);
  }

  lemma SuffixSpelled(s: string, pos: nat, sub: Type) returns (length: Option<u64>)
    requires 0 < pos <= |s| && s[pos - 1] == '[' && Suffix(s, pos, sub).Some?
    ensures var r := Suffix(s, pos, sub).value;
      s[pos - 1..r.position] == Brackets(length) && r.type_ == WithSuffix(sub, length)
  {
    hide Decimal, Digits, DecimalValue;
    if At(s, pos, ']') {
      length := None;
    } else {
      var end := Digits(s, pos);
      length := ToNumber(s[pos..end]);
      DigitsHold(s, pos);
      DecimalOfValue(s[pos..end]);
      assert s[pos - 1..end + 1] == "[" + s[pos..end] + "]";
    }
  }

  lemma DigitsHold(s: string, pos: nat)
    requires pos <= |s|
    ensures forall i :: pos <= i < Digits(s, pos) ==> IsDigit(s[i])
  {
    SpanHolds(s, pos, c => IsDigit(c));
  }

  lemma {:induction false} SuffixesSpelled(s: string, from: nat, pos: nat, w: Spelling, depth: nat)
    returns (v: Spelling)
    requires from <= pos <= |s| && Proper(w, depth) && Spell(w) == s[from..pos]
    requires Suffixes(s, pos, Meaning(w), depth).Some?
    ensures var r := Suffixes(s, pos, Meaning(w), depth).value;
      Proper(v, depth) && Spell(v) == s[from..r.position] && Meaning(v) == r.type_
    decreases |s| - pos
  {
    hide LayoutOk, Suffix, Brackets, WithSuffix;
    if At(s, pos, '[') {
      var length := SuffixSpelled(s, pos + 1, Meaning(w));
      var end := Suffix(s, pos + 1, Meaning(w)).value.position;
      assert s[from..end] == s[from..pos] + s[pos..end];
      v := SuffixesSpelled(s, from, end, ArrayOf(w, length), depth);
    } else {
      v := w;
    }
  }

  /** What stands in front of the array suffixes. */
  function BaseAt(s: string, pos: nat, depth: nat): Option<Parsed>
    requires pos <= |s|
  {
    if !At(s, pos, '(') then Named(s, pos, depth)
    else if At(s, pos + 1, ')') then Some(Parsed(Tuple([]), pos + 2))
    else Components(s, pos + 1, depth, [])
  }

  lemma TypeHasBase(s: string, pos: nat, depth: nat)
    requires pos <= |s| && TypeAt(s, pos, depth).Some?
    ensures BaseAt(s, pos, depth).Some?
    ensures var b := BaseAt(s, pos, depth).value;
      pos < b.position <= |s| && TypeAt(s, pos, depth) == Suffixes(s, b.position, b.type_, depth)
  {
    hide Named, Components, Suffixes;
  }

  lemma {:induction false} TypeSpelled(s: string, pos: nat, depth: nat) returns (w: Spelling)
    requires pos <= |s| && TypeAt(s, pos, depth).Some?
    ensures var r := TypeAt(s, pos, depth).value;
      Proper(w, depth) && Spell(w) == s[pos..r.position] && Meaning(w) == r.type_
    decreases |s| - pos, 2
  {
    hide LayoutOk, Suffixes, BaseAt, Spell, Meaning, TypeAt, Proper;
    TypeHasBase(s, pos, depth);
    var base := BaseSpelled(s, pos, depth);
    w := SuffixesSpelled(s, pos, BaseAt(s, pos, depth).value.position, base, depth);
  }

  lemma {:induction false} BaseSpelled(s: string, pos: nat, depth: nat) returns (w: Spelling)
    requires pos <= |s| && BaseAt(s, pos, depth).Some?
    ensures var r := BaseAt(s, pos, depth).value;
      Proper(w, depth) && Spell(w) == s[pos..r.position] && Meaning(w) == r.type_
    decreases |s| - pos, 1
  {
    hide Named, Components, Spell, Meaning, Listed;
    if !At(s, pos, '(') {
      w := NamedSpelled(s, pos, depth);
    } else if At(s, pos + 1, ')') {
      w := Group([]);
      GroupSpell(w);
      assert s[pos..pos + 2] == "()" && Meanings([]) == [];
    } else {
      var ws := ComponentsSpelled(s, pos + 1, depth, []);
      w := Group(ws);
      GroupSpell(w);
      var end := Components(s, pos + 1, depth, []).value.position;
      assert s[pos..end] == "(" + s[pos + 1..end];
      assert [] + Meanings(ws) == Meanings(ws);
    }
  }

  /** The components from a position on, after those found. */
  lemma {:induction false} ComponentsSpelled(s: string, pos: nat, depth: nat, found: seq<Type>)
    returns (ws: seq<Spelling>)
    requires pos <= |s| && Components(s, pos, depth, found).Some?
    ensures |ws| > 0 && Proper(Group(ws), depth)
    ensures var r := Components(s, pos, depth, found).value;
      Listed(ws, 0) == s[pos..r.position] && r.type_ == Tuple(found + Meanings(ws))
    decreases |s| - pos, 3
  {
    hide LayoutOk, TypeAt, Components, Spell, Meaning, Meanings, Listed, Proper;
    ComponentsFirst(s, pos, depth, found);
    var w := TypeSpelled(s, pos, depth + 1);
    var c := TypeAt(s, pos, depth + 1).value;
    var end := Components(s, pos, depth, found).value.position;
    if At(s, c.position, ')') {
      ws := [w];
      OneSpelled(w, depth);
      assert s[pos..end] == s[pos..c.position] + ")";
    } else {
      var rest := ComponentsSpelled(s, c.position + 1, depth, found + [c.type_]);
      ws := [w] + rest;
      MoreSpelled(w, rest, depth);
      assert s[pos..end] == s[pos..c.position] + ("," + s[c.position + 1..end]);
      assert found + [c.type_] + Meanings(rest) == found + ([c.type_] + Meanings(rest));
    }
  }

  lemma ComponentsFirst(s: string, pos: nat, depth: nat, found: seq<Type>)
    requires pos <= |s| && Components(s, pos, depth, found).Some?
    ensures TypeAt(s, pos, depth + 1).Some?
    ensures var c := TypeAt(s, pos, depth + 1).value;
      var types := found + [c.type_];
      && pos < c.position < |s|
      && if At(s, c.position, ')') then
           Components(s, pos, depth, found) == Some(Parsed(Tuple(types), c.position + 1))
         else
           At(s, c.position, ',') && Components(s, pos, depth, found) == Components(s, c.position + 1, depth, types)
  {
    hide TypeAt;
  }

  lemma OneSpelled(w: Spelling, depth: nat)
    requires Proper(w, depth + 1)
    ensures Proper(Group([w]), depth) && Listed([w], 0) == Spell(w) + ")" && Meanings([w]) == [Meaning(w)]
  {
    hide Spell, Meaning;
  }

  lemma MoreSpelled(w: Spelling, rest: seq<Spelling>, depth: nat)
    requires Proper(w, depth + 1) && |rest| > 0 && Proper(Group(rest), depth)
    ensures Proper(Group([w] + rest), depth) && Listed([w] + rest, 0) == Spell(w) + ("," + Listed(rest, 0))
    ensures Meanings([w] + rest) == [Meaning(w)] + Meanings(rest)
  {
    hide Spell, Meaning, Listed;
    ListedParts([w] + rest, 0);
    ListedTail(w, rest, 0);
  }

  lemma {:induction false} ListedTail(w: Spelling, ws: seq<Spelling>, i: nat)
    requires i < |ws|
    ensures Listed([w] + ws, i + 1) == Listed(ws, i)
    decreases |ws| - i
  {
    hide Spell, Listed;
    ListedParts([w] + ws, i + 1);
    ListedParts(ws, i);
    if i < |ws| - 1 { ListedTail(w, ws, i + 1); }
  }

  /** The parser accepts a text as a type exactly if it spells that type and the layout accepts it. */
  lemma ParsesExactly(s: string, t: Type)
    ensures TypeAt(s, 0, 0) == Some(Parsed(t, |s|)) <==>
      Accepted(t, 0) && Nodes(t) <= MAX_NODES && exists w :: Proper(w, 0) && Spell(w) == s && Meaning(w) == t
  {
    hide TypeAt, Spell, Meaning, Proper, Accepted, Nodes;
    if TypeAt(s, 0, 0) == Some(Parsed(t, |s|)) {
      var w := TypeSpelled(s, 0, 0);
      assert s[0..|s|] == s;
    }
    if w :| Proper(w, 0) && Spell(w) == s && Meaning(w) == t { ReadsAll(w); }
  }

  // ---- short names ----

  /** The same spelling with all names in full. */
  function Long(w: Spelling): Spelling
  {
    match w
    case Name(t, _) => Name(t, false)
    case ArrayOf(sub, length) => ArrayOf(Long(sub), length)
    case Group(components) => Group(seq(|components|, i requires 0 <= i < |components| => Long(components[i])))
    case TupleWord => TupleWord
  }

  lemma {:induction false} LongSame(w: Spelling, depth: nat)
    requires Proper(w, depth)
    ensures Proper(Long(w), depth) && Meaning(Long(w)) == Meaning(w)
    decreases w
  {
    match w {
      case ArrayOf(sub, _) => LongSame(sub, depth);
      case Group(components) =>
        forall i | 0 <= i < |components|
          ensures Proper(Long(components[i]), depth + 1) && Meaning(Long(components[i])) == Meaning(components[i])
        {
          LongSame(components[i], depth + 1);
        }
        assert Meaning(Long(w)).types == Meaning(w).types;
      case _ =>
    }
  }

  /** With its short names written in full, a type is read as the same type or not at all, wherever they stand. */
  lemma ShortAsLong(w: Spelling)
    requires Proper(w, 0)
    ensures TypeAt(Spell(w), 0, 0).Some? <==> TypeAt(Spell(Long(w)), 0, 0).Some?
    ensures TypeAt(Spell(w), 0, 0).Some? ==>
      var t := TypeAt(Spell(w), 0, 0).value.type_;
      && TypeAt(Spell(w), 0, 0) == Some(Parsed(t, |Spell(w)|))
      && TypeAt(Spell(Long(w)), 0, 0) == Some(Parsed(t, |Spell(Long(w))|))
  {
    hide TypeAt, Spell, Meaning, LayoutOk, Proper, Long;
    LongSame(w, 0);
    ReadsAll(w);
    ReadsAll(Long(w));
  }

  /** What was read, and how much of the text is left after it. */
  function Outcome(s: string, r: Option<Parsed>): Option<(Type, int)>
  {
    if r.Some? then Some((r.value.type_, |s| - r.value.position)) else None
  }

  lemma {:induction false} SameSpan(a: string, b: string, u: string, i: nat, p: char -> bool)
    requires i <= |u|
    ensures Span(a + u, |a| + i, p) - |a| == Span(b + u, |b| + i, p) - |b|
    decreases |u| - i
  {
    if i < |u| { SameSpan(a, b, u, i + 1, p); }
  }

  lemma SameSuffix(a: string, b: string, u: string, i: nat, t: Type)
    requires i <= |u|
    ensures Outcome(a + u, Suffix(a + u, |a| + i, t)) == Outcome(b + u, Suffix(b + u, |b| + i, t))
  {
    hide Span, ToNumber;
    SameSpan(a, b, u, i, c => IsDigit(c));
    var m, n := Digits(a + u, |a| + i), Digits(b + u, |b| + i);
    assert (a + u)[|a| + i..m] == u[i..m - |a|] == (b + u)[|b| + i..n];
  }

  lemma {:induction false} SameSuffixes(a: string, b: string, u: string, i: nat, t: Type, depth: nat)
    requires i <= |u|
    ensures Outcome(a + u, Suffixes(a + u, |a| + i, t, depth)) == Outcome(b + u, Suffixes(b + u, |b| + i, t, depth))
    decreases |u| - i
  {
    hide Suffix, LayoutOk;
    if LayoutOk(t, depth) && At(u, i, '[') {
      SameSuffix(a, b, u, i + 1, t);
      var r := Suffix(a + u, |a| + i + 1, t);
      if r.Some? { SameSuffixes(a, b, u, r.value.position - |a|, r.value.type_, depth); }
    }
  }

  /** Whatever follows a short name, if it does not go on with it, is read as after the full one. */
  lemma ShortThenRest(t: Type, rest: string, depth: nat)
    requires ShortName(t).Some? && Stops(rest, 0)
    ensures var a, b := ShortName(t).value + rest, Repr(t) + rest;
      Outcome(a, TypeAt(a, 0, depth)) == Outcome(b, TypeAt(b, 0, depth))
  {
    hide TypeAt, Suffixes, Repr;
    var a, b := ShortName(t).value, Repr(t);
    Reads(Name(t, true), a + rest, 0, depth);
    Reads(Name(t, false), b + rest, 0, depth);
    SameSuffixes(a, b, rest, 0, t, depth);
  }
}
