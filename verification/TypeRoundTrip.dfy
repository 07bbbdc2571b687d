/** Parsing undoes printing, up to the two ways of writing a fixed-size array type. */
module TypeRoundTrip {
  import opened AbiTypes
  import opened Options
  import opened TypeStrings
  import opened TypeParser
  import opened TypeSpelling

  /** The spelling that is printed. */
  function Printed(t: Type): Spelling
  {
    match t
    case Array(sub, length) => ArrayOf(Printed(sub), if length == 0 then None else Some(length))
    case FixedArray(sub, length) => ArrayOf(Printed(sub), Some(length))
    case Tuple(types) => Group(seq(|types|, i requires 0 <= i < |types| => Printed(types[i])))
    case _ => Name(t, false)
  }

  lemma {:induction false} PrintedIs(t: Type)
    ensures Spell(Printed(t)) == Repr(t) && Meaning(Printed(t)) == Canon(t)
    decreases t, 1
  {
    hide Decimal, TypeSpelling.Listed, TypeStrings.Joined;
    match t {
      case Array(sub, _) => PrintedIs(sub);
      case FixedArray(sub, _) => PrintedIs(sub);
      case Tuple(types) => PrintedTuple(types);
      case _ =>
    }
  }

  lemma {:induction false} PrintedTuple(types: seq<Type>)
    ensures Spell(Printed(Tuple(types))) == Repr(Tuple(types)) && Meaning(Printed(Tuple(types))) == Canon(Tuple(types))
    decreases types, 1
  {
    hide Decimal, TypeSpelling.Listed, TypeStrings.Joined;
    var w := Printed(Tuple(types));
    forall i | 0 <= i < |types| ensures Meaning(w.components[i]) == Canon(types[i]) { PrintedIs(types[i]); }
    assert Meaning(w).types == Canon(Tuple(types)).types;
    if |types| > 0 { PrintedJoined(types, 0); }
  }

  lemma {:induction false} PrintedJoined(types: seq<Type>, i: nat)
    requires i < |types|
    ensures TypeSpelling.Listed(Printed(Tuple(types)).components, i) == TypeStrings.Joined(types, i)
    decreases types, 0, |types| - i
  {
    hide Repr, Spell;
    PrintedIs(types[i]);
    if i < |types| - 1 { PrintedJoined(types, i + 1); }
  }

  lemma {:induction false} PrintedProper(t: Type, depth: nat)
    requires LayoutOk(t, depth)
    ensures Proper(Printed(t), depth)
    decreases t
  {
    hide LayoutOk;
    LayoutOfParts(t, depth);
    match t {
      case Array(sub, _) => PrintedProper(sub, depth);
      case FixedArray(sub, _) => PrintedProper(sub, depth);
      case Tuple(types) =>
        forall i | 0 <= i < |types| ensures Proper(Printed(types[i]), depth + 1) { PrintedProper(types[i], depth + 1); }
      case _ => NamesNonZero(t, depth);
    }
  }

  lemma NamesNonZero(t: Type, depth: nat)
    requires LayoutOk(t, depth)
    ensures NonZero(t)
  {}

  /** Every type the layout accepts is read back from its name, in canonical form. */
  lemma ParseOfRepr(t: Type)
    requires LayoutOk(t, 0)
    ensures TypeAt(Repr(t), 0, 0) == Some(Parsed(Canon(t), |Repr(t)|)) && Same(t, Canon(t))
  {
    hide Canon, Repr, LayoutOk, Same, TypeAt, Printed, Spell, Meaning, Proper;
    PrintedIs(t);
    PrintedProper(t, 0);
    LayoutOfParts(t, 0);
    ReadsAll(Printed(t));
    SameIsEquivalence(t, Canon(t));
    CanonIdempotent(t);
  }

  /** Two accepted types have the same name exactly when the custom equality holds between them. */
  lemma NamesIdentifyTypes(t: Type, u: Type)
    requires LayoutOk(t, 0) && LayoutOk(u, 0)
    ensures Repr(t) == Repr(u) <==> Same(t, u)
  {
    ParseOfRepr(t);
    ParseOfRepr(u);
    SameIsEquivalence(t, u);
    CanonRepr(t);
    CanonRepr(u);
  }

  lemma {:induction false} CanonRepr(t: Type)
    ensures Repr(Canon(t)) == Repr(t)
    decreases t, 1
  {
    match t {
      case Array(sub, _) => CanonRepr(sub);
      case FixedArray(sub, _) => CanonRepr(sub);
      case Tuple(types) => if |types| > 0 { CanonJoined(types, Canon(t).types, 0); }
      case _ =>
    }
  }

  lemma {:induction false} CanonJoined(ts: seq<Type>, us: seq<Type>, i: nat)
    requires i < |ts| == |us| && forall j :: 0 <= j < |ts| ==> us[j] == Canon(ts[j])
    ensures Joined(us, i) == Joined(ts, i)
    decreases ts, 0, |ts| - i
  {
    CanonRepr(ts[i]);
    if i < |ts| - 1 { CanonJoined(ts, us, i + 1); }
  }
}
