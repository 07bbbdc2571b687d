/** Division of a 256-bit number by the small divisors of its text forms: bn_divmod58, bn_divmod1000 and
    bn_digitcount. */
module BignumDecimal {
  import opened Arith
  import opened Digits
  import opened Bignum
  import opened Powers

  /** Limbs i and up are divided, with the remainder of what they were. */
  ghost predicate DividedAbove(s: seq<nat>, a: seq<nat>, i: nat, d: nat, rem: nat)
    requires i <= |s| && i <= |a|
  {
    V(s[i..]) == d * V(a[i..]) + rem && rem < d
  }

  /** One turn of the division loops: 2^30 is taken as q * d + e, and rem * e + s[i] divided by d is f. */
  lemma DivideLimb(s: seq<nat>, a: seq<nat>, i: nat, d: nat, q: nat, e: nat, rem: nat, f: nat, rem': nat)
    requires i < |s| == |a| && q * d + e == TWO30 && s[i] < TWO30 && rem' < d
    requires DividedAbove(s, a, i + 1, d, rem)
    requires rem * e + s[i] == f * d + rem' && a[i] == rem * q + f
    ensures DividedAbove(s, a, i, d, rem') && a[i] < TWO30
  {
    assert s[i..][1..] == s[i + 1..] && a[i..][1..] == a[i + 1..];
    QuotientLimb(rem, q, e, d, s[i], f, rem', a[i]);
    Collect(d, V(a[i + 1..]), rem, a[i], s[i], rem');
  }

  lemma QuotientLimb(rem: nat, q: nat, e: nat, d: nat, x: nat, f: nat, rem': nat, limb: nat)
    requires q * d + e == TWO30 && rem < d && x < TWO30 && rem * e + x == f * d + rem' && limb == rem * q + f
    ensures d * limb + rem' == rem * TWO30 + x && limb < TWO30
  {
    assert d * (rem * q + f) == rem * (q * d) + f * d;
    assert rem * (q * d + e) == rem * (q * d) + rem * e;
    if limb >= TWO30 {
      MulMono(d, d, TWO30, limb);
      MulLess(rem, d, TWO30);
    }
  }

  lemma Collect(d: nat, v: nat, rem: nat, limb: nat, x: nat, rem': nat)
    requires d * limb + rem' == rem * TWO30 + x
    ensures x + TWO30 * (d * v + rem) == d * (limb + TWO30 * v) + rem'
  {
    assert d * (limb + TWO30 * v) == d * limb + TWO30 * (d * v);
  }

  lemma DivideTop(s: seq<nat>, a: seq<nat>, d: nat)
    requires |s| == |a| == 9 && d > 0 && a[8] == s[8] / d
    ensures DividedAbove(s, a, 8, d, s[8] % d)
  {
    assert s[8..] == [s[8]] && a[8..] == [a[8]];
    Single(s[8]);
    Single(a[8]);
    DivMod(s[8], d);
  }

  lemma DivideEnd(s: seq<nat>, a: seq<nat>, d: nat, rem: nat)
    requires DividedAbove(s, a, 0, d, rem)
    ensures V(a) == V(s) / d && rem == V(s) % d
  {
    assert s[0..] == s && a[0..] == a;
    DivModUnique(V(s), d, V(a), rem);
  }

  /** bn_divmod58 */
  method DivMod58(a: array<u32>) returns (r: u32)
    requires a.Length == 9 && Normal(TWO30, a[..])
    modifies a
    ensures Normal(TWO30, a[..]) && V(a[..]) == V(old(a[..])) / 58 && r == V(old(a[..])) % 58
  {
    hide DividedAbove;
    ghost var s: seq<nat> := a[..];
    var rem: u32 := a[8] % 58;
    a[8] := a[8] / 58;
    DivideTop(s, a[..], 58);
    var i := 8;
    while i > 0
      invariant 0 <= i <= 8 && rem < 58 && Normal(TWO30, a[..]) && a[..i] == s[..i]
      invariant DividedAbove(s, a[..], i, 58, rem)
    {
      i := i - 1;
      assert a[i] == s[i];
      ghost var was, before := rem, a[..];
      var tmp: u32 := rem * 4 + a[i];
      a[i] := rem * 18512790 + tmp / 58;
      rem := tmp % 58;
      Unchanged(s, before, a[..], i + 1, 58, was);
      DivideLimb(s, a[..], i, 58, 18512790, 4, was, tmp / 58, rem);
    }
    DivideEnd(s, a[..], 58, rem);
    return rem;
  }

  lemma Unchanged(s: seq<nat>, a: seq<nat>, b: seq<nat>, i: nat, d: nat, rem: nat)
    requires i <= |s| == |a| == |b| && a[i..] == b[i..] && DividedAbove(s, a, i, d, rem)
    ensures DividedAbove(s, b, i, d, rem) && rem < d
  {}

  /** bn_divmod1000 */
  method DivMod1000(a: array<u32>) returns (r: u32)
    requires a.Length == 9 && Normal(TWO30, a[..])
    modifies a
    ensures Normal(TWO30, a[..]) && V(a[..]) == V(old(a[..])) / 1000 && r == V(old(a[..])) % 1000
  {
    hide DividedAbove;
    ghost var s: seq<nat> := a[..];
    var rem: u32 := a[8] % 1000;
    a[8] := a[8] / 1000;
    DivideTop(s, a[..], 1000);
    var i := 8;
    while i > 0
      invariant 0 <= i <= 8 && rem < 1000 && Normal(TWO30, a[..]) && a[..i] == s[..i]
      invariant DividedAbove(s, a[..], i, 1000, rem)
    {
      i := i - 1;
      assert a[i] == s[i];
      ghost var was, before := rem, a[..];
      var tmp: u32 := rem * 824 + a[i];
      a[i] := rem * 1073741 + tmp / 1000;
      rem := tmp % 1000;
      Unchanged(s, before, a[..], i + 1, 1000, was);
      DivideLimb(s, a[..], i, 1000, 1073741, 824, was, tmp / 1000, rem);
    }
    DivideEnd(s, a[..], 1000, rem);
    return rem;
  }

  // ---- decimal digits ----

  const DIGITS := 78

  /** v is written with n decimal digits; zero with one. */
  ghost predicate DecimalLength(v: nat, n: nat)
  {
    n > 0 && v < Pow(10, n) && (n > 1 ==> Pow(10, n - 1) <= v)
  }

  lemma LengthUnique(v: nat, m: nat, n: nat)
    requires DecimalLength(v, m) && DecimalLength(v, n)
    ensures m == n
  {
    if m < n && m < n - 1 { PowStrict(10, m, n - 1); }
    if n < m && n < m - 1 { PowStrict(10, n, m - 1); }
  }

  /** v split after its lowest i digits. */
  ghost predicate Split(v: nat, i: nat, rest: nat, low: nat)
  {
    v == rest * Pow(10, i) + low && low < Pow(10, i)
  }

  /** Three more digits above the lowest i: their own length decides, unless they are all zero. */
  lemma ThreeMore(v: nat, i: nat, n: nat, rest: nat, low: nat, three: nat, n': nat)
    requires Split(v, i, rest, low) && DecimalLength(low, n) && three == rest % 1000
    requires n' == if three >= 100 then i + 3 else if three >= 10 then i + 2 else if three >= 1 then i + 1 else n
    ensures Split(v, i + 3, rest / 1000, three * Pow(10, i) + low) && DecimalLength(three * Pow(10, i) + low, n')
  {
    hide Pow;
    var p := Pow(10, i);
    NextPowers(i);
    DivMod(rest, 1000);
    Regrouped(rest / 1000, three, p);
    Leading(three, p, low, 1);
    Leading(three, p, low, 10);
    Leading(three, p, low, 100);
    Leading(three, p, low, 1000);
    if three == 0 { assert three * p == 0; }
  }

  lemma Regrouped(q: nat, three: nat, p: nat)
    ensures ((q * 1000) + three) * p == q * (1000 * p) + three * p
  {}

  lemma Leading(three: nat, p: nat, low: nat, w: nat)
    requires low < p
    ensures three >= w ==> three * p + low >= w * p
    ensures three < w ==> three * p + low < w * p
  {
    if three >= w { MulMono(w, three, p, p); } else { MulLess(three, w, p); }
  }

  lemma NextPowers(i: nat)
    ensures Pow(10, i + 1) == 10 * Pow(10, i) && Pow(10, i + 2) == 100 * Pow(10, i)
      && Pow(10, i + 3) == 1000 * Pow(10, i)
  {
    assert Pow(10, i + 2) == 10 * Pow(10, i + 1);
    assert Pow(10, i + 3) == 10 * Pow(10, i + 2);
  }

  /** bn_digitcount: the length of the lowest 78 digits. */
  method DigitCount(a: array<u32>) returns (digits: nat)
    requires a.Length == 9 && Normal(TWO30, a[..])
    ensures DecimalLength(V(a[..]) % Pow(10, DIGITS), digits)
  {
    hide DecimalLength, Pow, Split, V, Normal;
    var val := Copy(a);
    ghost var v: nat, low: nat := V(a[..]), 0;
    NoDigits(v);
    digits := 1;
    var i := 0;
    while i < DIGITS
      invariant 0 <= i <= DIGITS && (DIGITS - i) % 3 == 0 && Normal(TWO30, val[..])
      invariant Split(v, i, V(val[..]), low) && DecimalLength(low, digits)
      decreases DIGITS - i
    {
      ghost var rest, n := V(val[..]), digits;
      var limb := DivMod1000(val);
      if limb >= 100 {
        digits := i + 3;
      } else if limb >= 10 {
        digits := i + 2;
      } else if limb >= 1 {
        digits := i + 1;
      }
      ThreeMore(v, i, n, rest, low, limb, digits);
      low := limb * Pow(10, i) + low;
      i := i + 3;
    }
    AllDigits(v, V(val[..]), low);
  }

  lemma NoDigits(v: nat)
    ensures Split(v, 0, v, 0) && DecimalLength(0, 1)
  {
    assert Pow(10, 1) == 10 * Pow(10, 0);
  }

  lemma AllDigits(v: nat, rest: nat, low: nat)
    requires Split(v, DIGITS, rest, low)
    ensures low == v % Pow(10, DIGITS)
  {
    DivModUnique(v, Pow(10, DIGITS), rest, low);
  }

  /** The count is right exactly for the numbers below 10^78, which include every number below 2^256. */
  lemma DigitCountExact(v: nat, n: nat)
    requires DecimalLength(v % Pow(10, DIGITS), n)
    ensures DecimalLength(v, n) <==> v < Pow(10, DIGITS)
    ensures forall m: nat :: DecimalLength(v, m) ==> (m == n <==> v < Pow(10, DIGITS))
    ensures TWO256 <= Pow(10, DIGITS)
  {
    PowersOfTen();
    forall m: nat | DecimalLength(v, m) ensures DecimalLength(v, n) <==> m == n {
      if DecimalLength(v, n) { LengthUnique(v, m, n); }
    }
    if v < Pow(10, DIGITS) {
      DivModUnique(v, Pow(10, DIGITS), 0, v);
    } else {
      var low := v % Pow(10, DIGITS);
      if n > DIGITS + 1 { PowStrict(10, DIGITS, n - 1); }
      if n < DIGITS { PowStrict(10, n, DIGITS); }
    }
  }

  lemma Million()
    ensures Pow(10, 6) == 1000000
  {}

  lemma PowersOfTen()
    ensures Pow(10, DIGITS) >= TWO256
  {
    hide Pow;
    Million();
    PowAdd(10, 6, 6);
    PowAdd(10, 12, 12);
    PowAdd(10, 24, 24);
    PowAdd(10, 48, 24);
    PowAdd(10, 72, 6);
  }
}
