/** ABIv2.FixedPoint as decimal text: the initializer from text and description. */
module FixedPointText {
  import opened Arith
  import opened Options
  import opened BignumDecimal

  datatype FixedPoint = FixedPoint(scaledValue: int, decimals: nat)

  function Magnitude(x: int): nat
  {
    if x < 0 then -x else x
  }

  /** init(scaledValue:decimals:) */
  function Make(scaledValue: int, decimals: nat): Option<FixedPoint>
  {
    if 1 <= decimals <= 80 && Magnitude(scaledValue) < TWO256 then Some(FixedPoint(scaledValue, decimals)) else None
  }

  predicate Valid(f: FixedPoint)
  {
    Make(f.scaledValue, f.decimals) == Some(f)
  }

  // ---- digits ----

  predicate IsDigit(c: char)
  {
    '0' <= c <= '9'
  }

  predicate AllDigits(s: string)
  {
    forall i :: 0 <= i < |s| ==> IsDigit(s[i])
  }

  predicate AllZeros(s: string)
  {
    forall i :: 0 <= i < |s| ==> s[i] == '0'
  }

  function Zeros(n: nat): (r: string)
    ensures |r| == n && AllZeros(r)
  {
    seq(n, _ => '0')
  }

  /** The number a string of digits stands for. */
  function Number(s: string): nat
  {
    if |s| == 0 then 0 else Number(s[..|s| - 1]) * 10 + DigitValue(s[|s| - 1])
  }

  function DigitValue(c: char): nat { if IsDigit(c) then c as int - 48 else 0 }

  /** BigUInt.description */
  function Text(n: nat): (r: string)
    ensures |r| > 0 && AllDigits(r)
  {
    if n < 10 then [(48 + n) as char] else Text(n / 10) + [(48 + n % 10) as char]
  }

  /** drop(while:) for zeros */
  function Significant(s: string): (r: string)
    ensures |r| <= |s| && r == s[|s| - |r|..] && AllZeros(s[..|s| - |r|])
    ensures |r| > 0 ==> r[0] != '0'
  {
    if |s| > 0 && s[0] == '0' then
      var r := Significant(s[1..]);
      assert s == [s[0]] + s[1..];
      r
    else s
  }

  /** split(separator: ".") with empty parts kept */
  function Parts(s: string): (r: seq<string>)
    ensures |r| > 0
  {
    if |s| == 0 then [""]
    else
      var rest := Parts(s[1..]);
      if s[0] == '.' then [""] + rest else [[s[0]] + rest[0]] + rest[1..]
  }

  lemma {:induction false} PlainParts(s: string)
    requires AllDigits(s)
    ensures Parts(s) == [s]
  {
    if |s| > 0 {
      PlainParts(s[1..]);
      assert s == [s[0]] + s[1..];
    }
  }

  lemma {:induction false} TwoParts(whole: string, fraction: string)
    requires AllDigits(whole) && AllDigits(fraction)
    ensures Parts(whole + "." + fraction) == [whole, fraction]
  {
    var s := whole + "." + fraction;
    if |whole| == 0 {
      assert s[1..] == fraction;
      PlainParts(fraction);
    } else {
      assert s[1..] == whole[1..] + "." + fraction;
      TwoParts(whole[1..], fraction);
      assert whole == [whole[0]] + whole[1..];
    }
  }

  lemma {:induction false} PartsOfTwo(s: string)
    requires |Parts(s)| <= 2
    ensures s == if |Parts(s)| == 1 then Parts(s)[0] else Parts(s)[0] + "." + Parts(s)[1]
  {
    if |s| > 0 {
      PartsOfTwo(s[1..]);
      assert s == [s[0]] + s[1..];
      if s[0] == '.' { assert Parts(s)[0] == "" && Parts(s)[1] == Parts(s[1..])[0]; }
    }
  }

  lemma LastDigit(s: string)
    requires |s| > 0
    ensures Number(s) == Number(s[..|s| - 1]) * 10 + DigitValue(s[|s| - 1])
  {}

  lemma {:induction false} NumberConcat(s: string, t: string)
    ensures Number(s + t) == Number(s) * Pow(10, |t|) + Number(t)
  {
    hide *;
    if |t| == 0 {
      assert s + t == s;
      NoDigits(s, t);
    } else {
      var u, d := t[..|t| - 1], DigitValue(t[|t| - 1]);
      assert (s + t)[..|s + t| - 1] == s + u;
      NumberConcat(s, u);
      LastDigit(s + t);
      LastDigit(t);
      PowerOfTen(|u|);
      AppendDigit(Number(s), Pow(10, |u|), Number(u), d);
    }
  }

  lemma NoDigits(s: string, t: string)
    requires |t| == 0
    ensures Number(s) * Pow(10, |t|) + Number(t) == Number(s)
  {}

  lemma PowerOfTen(k: nat)
    ensures Pow(10, k + 1) == 10 * Pow(10, k)
  {}

  lemma AppendDigit(a: nat, p: nat, b: nat, d: nat)
    ensures (a * p + b) * 10 + d == a * (10 * p) + (b * 10 + d)
  {
    assert (a * p) * 10 == a * (10 * p);
  }

  lemma {:induction false} NumberZeros(s: string)
    requires AllZeros(s)
    ensures Number(s) == 0
  {
    if |s| > 0 { NumberZeros(s[..|s| - 1]); }
  }

  lemma {:induction false} NumberText(n: nat)
    ensures Number(Text(n)) == n
  {
    if n < 10 {
      assert Text(n)[..0] == "";
    } else {
      NumberText(n / 10);
      assert Text(n)[..|Text(n)| - 1] == Text(n / 10);
    }
  }

  lemma ZerosInFront(zeros: string, s: string)
    requires AllZeros(zeros)
    ensures Number(zeros + s) == Number(s)
  {
    NumberConcat(zeros, s);
    NumberZeros(zeros);
  }

  lemma SignificantNumber(s: string)
    ensures Number(Significant(s)) == Number(s)
  {
    var r := Significant(s);
    assert s == s[..|s| - |r|] + r;
    ZerosInFront(s[..|s| - |r|], r);
  }

  /** A digit string without a leading zero is worth at least its first digit. */
  lemma AtLeast(s: string)
    requires |s| > 0 && AllDigits(s) && s[0] != '0'
    ensures Number(s) >= Pow(10, |s| - 1)
  {
    assert s == [s[0]] + s[1..];
    NumberConcat([s[0]], s[1..]);
    assert [s[0]][..0] == "";
    assert Number([s[0]]) >= 1;
    MulMono(1, Number([s[0]]), Pow(10, |s| - 1), Pow(10, |s| - 1));
  }

  // ---- reading and writing ----

  predicate Signed(text: string)
  {
    |text| > 0 && (text[0] == '-' || text[0] == '+')
  }

  function Unsigned(text: string): string
  {
    if Signed(text) then text[1..] else text
  }

  predicate Negative(text: string)
  {
    |text| > 0 && text[0] == '-'
  }

  /** One or two parts, not empty, of digits only. */
  predicate WellFormed(parts: seq<string>)
  {
    1 <= |parts| <= 2 && forall i :: 0 <= i < |parts| ==> |parts[i]| > 0 && AllDigits(parts[i])
  }

  function Fraction(parts: seq<string>): string
  {
    if |parts| == 2 then parts[1] else ""
  }

  function Least(a: nat, b: nat): nat
  {
    if a < b then a else b
  }

  /** The digits of the scaled value: the fraction is cut or filled up to the precision. */
  function ScaledDigits(whole: string, fraction: string, precision: nat): string
  {
    whole + fraction[..Least(precision, |fraction|)] + Zeros(precision - Least(precision, |fraction|))
  }

  /** init(_:decimals:) */
  function Parse(text: string, decimals: nat): Option<FixedPoint>
  {
    if !(1 <= decimals <= 80) then None
    else
      var parts := Parts(Unsigned(text));
      if !WellFormed(parts) then None
      else
        var fraction := Fraction(parts);
        if !AllZeros(fraction[Least(decimals, |fraction|)..]) then None
        else
          var significant := Significant(ScaledDigits(parts[0], fraction, decimals));
          if |significant| > 78 then None
          else
            var magnitude: int := Number(significant);
            Make(if Negative(text) then -magnitude else magnitude, decimals)
  }

  /** description */
  function Description(f: FixedPoint): string
    requires Valid(f)
  {
    var digits := Text(Magnitude(f.scaledValue));
    var padded := Zeros(if |digits| < f.decimals + 1 then f.decimals + 1 - |digits| else 0) + digits;
    var split := |padded| - f.decimals;
    (if f.scaledValue < 0 then "-" else "") + padded[..split] + "." + padded[split..]
  }

  /** Cutting zeros off the fraction or adding some does not change the number: it is exactly the scaled one. */
  lemma ScaledExactly(whole: string, fraction: string, precision: nat)
    requires AllZeros(fraction[Least(precision, |fraction|)..])
    ensures Number(ScaledDigits(whole, fraction, precision)) * Pow(10, |fraction|)
      == Number(whole + fraction) * Pow(10, precision)
  {
    hide Number, Pow, AllZeros;
    var l := Least(precision, |fraction|);
    var kept, cut := whole + fraction[..l], fraction[l..];
    var fill := Zeros(precision - l);
    NumberConcat(kept, fill);
    NumberZeros(fill);
    assert whole + fraction == kept + cut;
    NumberConcat(kept, cut);
    NumberZeros(cut);
    SamePower(Number(kept), |fill|, |fraction|, |cut|, precision);
  }

  lemma SamePower(n: nat, a: nat, b: nat, c: nat, d: nat)
    requires a + b == c + d
    ensures (n * Pow(10, a)) * Pow(10, b) == (n * Pow(10, c)) * Pow(10, d)
  {
    hide Pow;
    PowAdd(10, a, b);
    PowAdd(10, c, d);
    Assoc(n, Pow(10, a), Pow(10, b));
    Assoc(n, Pow(10, c), Pow(10, d));
  }

  /** Text is accepted exactly if it is a signed decimal number with no more nonzero digits after the point than
      declared, and its scaled value has at most 256 bits: the limit of 78 digits turns nothing else away. */
  lemma ParseAccepts(text: string, decimals: nat)
    requires 1 <= decimals <= 80
    ensures var parts := Parts(Unsigned(text));
      var fraction := Fraction(parts);
      Parse(text, decimals).Some? <==>
        && WellFormed(parts) && AllZeros(fraction[Least(decimals, |fraction|)..])
        && Number(ScaledDigits(parts[0], fraction, decimals)) < TWO256
  {
    hide Number, Parts, Unsigned, Negative, Significant, AllZeros;
    var parts := Parts(Unsigned(text));
    if WellFormed(parts) {
      var digits := ScaledDigits(parts[0], Fraction(parts), decimals);
      SignificantNumber(digits);
      if |Significant(digits)| > 78 {
        ScaledDigitsDigits(parts, decimals);
        TooManyDigits(digits);
      }
    }
  }

  lemma ScaledDigitsDigits(parts: seq<string>, precision: nat)
    requires WellFormed(parts)
    ensures AllDigits(ScaledDigits(parts[0], Fraction(parts), precision))
  {}

  /** Accepted text means exactly the number it writes: nothing is rounded or lost. */
  lemma ParseMeans(text: string, decimals: nat)
    requires Parse(text, decimals).Some?
    ensures var parts := Parts(Unsigned(text));
      var fraction := Fraction(parts);
      var f := Parse(text, decimals).value;
      && Valid(f) && f.decimals == decimals
      && Unsigned(text) == parts[0] + (if |parts| == 2 then "." + fraction else "")
      && Magnitude(f.scaledValue) * Pow(10, |fraction|) == Number(parts[0] + fraction) * Pow(10, decimals)
      && (f.scaledValue < 0 ==> Negative(text)) && (f.scaledValue > 0 ==> !Negative(text))
  {
    hide Number, Parts, Unsigned, Negative, Significant, AllZeros, Pow;
    var parts := Parts(Unsigned(text));
    PartsOfTwo(Unsigned(text));
    ScaledExactly(parts[0], Fraction(parts), decimals);
    SignificantNumber(ScaledDigits(parts[0], Fraction(parts), decimals));
  }

  lemma TooManyDigits(digits: string)
    requires AllDigits(digits) && |Significant(digits)| > 78
    ensures Number(digits) >= TWO256
  {
    hide Number, Pow, Significant;
    var s := Significant(digits);
    SignificantNumber(digits);
    assert AllDigits(s);
    AtLeast(s);
    PowersOfTen();
    if |s| - 1 > DIGITS { PowStrict(10, DIGITS, |s| - 1); }
  }

  lemma SignedParts(whole: string, fraction: string, negative: bool)
    requires AllDigits(whole) && AllDigits(fraction) && |whole| > 0
    ensures var text := (if negative then "-" else "") + whole + "." + fraction;
      Negative(text) == negative && Parts(Unsigned(text)) == [whole, fraction]
  {
    hide Parts;
    var text := (if negative then "-" else "") + whole + "." + fraction;
    assert IsDigit(whole[0]);
    assert Unsigned(text) == whole + "." + fraction;
    TwoParts(whole, fraction);
  }

  /** Text with exactly the declared number of decimals is read as its digits. */
  lemma ParseFull(whole: string, fraction: string, negative: bool)
    requires AllDigits(whole) && AllDigits(fraction) && |whole| > 0 && 1 <= |fraction| <= 80
      && Number(whole + fraction) < TWO256
    ensures var n: int := Number(whole + fraction);
      Parse((if negative then "-" else "") + whole + "." + fraction, |fraction|)
        == Make(if negative then -n else n, |fraction|)
  {
    hide Number, Parts, Unsigned, Negative, Significant, ScaledDigits, Pow, AllDigits, AllZeros;
    SignedParts(whole, fraction, negative);
    FullDigits(whole, fraction);
    SignificantNumber(whole + fraction);
    if |Significant(whole + fraction)| > 78 { TooManyDigits(whole + fraction); }
  }

  lemma FullDigits(whole: string, fraction: string)
    ensures Least(|fraction|, |fraction|) == |fraction| && AllZeros(fraction[|fraction|..])
    ensures ScaledDigits(whole, fraction, |fraction|) == whole + fraction
    ensures AllDigits(whole) && AllDigits(fraction) ==> AllDigits(whole + fraction)
  {
    assert fraction[..|fraction|] == fraction && fraction + Zeros(0) == fraction;
  }

  /** Reading a description gives back the value. */
  lemma ParseOfDescription(f: FixedPoint)
    requires Valid(f)
    ensures Parse(Description(f), f.decimals) == Some(f)
  {
    hide Number, Parse, Text;
    var n := Magnitude(f.scaledValue);
    var digits := Text(n);
    var zeros := Zeros(if |digits| < f.decimals + 1 then f.decimals + 1 - |digits| else 0);
    var padded := zeros + digits;
    var split := |padded| - f.decimals;
    assert padded[..split] + padded[split..] == padded;
    NumberText(n);
    ZerosInFront(zeros, digits);
    ParseFull(padded[..split], padded[split..], f.scaledValue < 0);
  }

  /** Different values have different descriptions, at the same number of decimals. */
  lemma DescriptionsDiffer(f: FixedPoint, g: FixedPoint)
    requires Valid(f) && Valid(g) && f.decimals == g.decimals
    ensures Description(f) == Description(g) ==> f == g
  {
    ParseOfDescription(f);
    ParseOfDescription(g);
  }
}
