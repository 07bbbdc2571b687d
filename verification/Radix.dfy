/** Numbers in any base, most significant digit first, and byte strings with leading zeros kept apart. */
module Radix {
  import opened Arith
  import opened Digits

  lemma Quotient(n: nat, b: nat)
    requires b > 1
    ensures 0 <= n / b && 0 <= n % b < b && n == n / b * b + n % b && (n > 0 ==> n / b < n)
  {
    DivMod(n, b);
    var q, r := n / b, n % b;
    if q < 0 { MulLess(q, 0, b); }
    if q > 0 { MulLess(1, b, q); }
  }

  /** The digits of a number, none for zero. */
  function Minimal(b: nat, n: nat): seq<nat>
    requires b > 1
    decreases n
  {
    if n == 0 then [] else
    Quotient(n, b);
    Minimal(b, n / b) + [n % b]
  }

  lemma {:induction false} MinimalValue(b: nat, n: nat)
    requires b > 1
    ensures BigEndian(b, Minimal(b, n)) == n
    decreases n
  {
    if n > 0 {
      Quotient(n, b);
      MinimalValue(b, n / b);
      AppendDigit(b, Minimal(b, n / b), n % b);
    }
  }

  lemma {:induction false} MinimalDigits(b: nat, n: nat)
    requires b > 1
    ensures Normal(b, Minimal(b, n))
    ensures n > 0 ==> |Minimal(b, n)| > 0 && Minimal(b, n)[0] != 0
    ensures n == 0 ==> Minimal(b, n) == []
    decreases n
  {
    if n > 0 {
      Quotient(n, b);
      MinimalDigits(b, n / b);
    }
  }

  lemma AppendDigit(b: nat, s: seq<nat>, d: nat)
    ensures BigEndian(b, s + [d]) == BigEndian(b, s) * b + d
  {
    assert (s + [d])[..|s + [d]| - 1] == s;
  }

  /** No other digits without a leading zero have that value. */
  lemma {:induction false} MinimalUnique(b: nat, s: seq<nat>)
    requires b > 1 && Normal(b, s) && (|s| > 0 ==> s[0] != 0)
    ensures Minimal(b, BigEndian(b, s)) == s && (|s| > 0 ==> BigEndian(b, s) > 0)
  {
    if |s| > 0 {
      var m := |s| - 1;
      MinimalUnique(b, s[..m]);
      var v := BigEndian(b, s[..m]);
      DivModUnique(v * b + s[m], b, v, s[m]);
      assert s == s[..m] + [s[m]];
      if m > 0 { assert v * b > 0; }
    }
  }

  lemma {:induction false} BigEndianConcat(b: nat, s: seq<nat>, t: seq<nat>)
    ensures BigEndian(b, s + t) == BigEndian(b, s) * Pow(b, |t|) + BigEndian(b, t)
  {
    if |t| == 0 {
      assert s + t == s;
    } else {
      var m := |t| - 1;
      BigEndianConcat(b, s, t[..m]);
      assert (s + t)[..|s + t| - 1] == s + t[..m];
      Assoc(BigEndian(b, s), Pow(b, m), b);
      Step(BigEndian(b, s), Pow(b, m), BigEndian(b, t[..m]), b);
    }
  }

  lemma Step(v: nat, p: nat, w: nat, b: nat)
    ensures (v * p + w) * b == v * (b * p) + w * b
  {
    assert v * p * b == v * (b * p);
  }

  lemma {:induction false} BigEndianBound(b: nat, s: seq<nat>)
    requires b > 0 && Normal(b, s)
    ensures BigEndian(b, s) < Pow(b, |s|)
  {
    if |s| > 0 {
      BigEndianBound(b, s[..|s| - 1]);
      MulMono(BigEndian(b, s[..|s| - 1]) + 1, Pow(b, |s| - 1), b, b);
      assert (BigEndian(b, s[..|s| - 1]) + 1) * b == BigEndian(b, s[..|s| - 1]) * b + b;
      assert Pow(b, |s| - 1) * b == Pow(b, |s|);
    }
  }

  /** How many zeros a sequence starts with. */
  function LeadingZeros(s: seq<nat>): (k: nat)
    ensures k <= |s| && (forall i :: 0 <= i < k ==> s[i] == 0) && (k < |s| ==> s[k] != 0)
  {
    if |s| > 0 && s[0] == 0 then 1 + LeadingZeros(s[1..]) else 0
  }

  lemma {:induction false} LeadingZerosAre(s: seq<nat>, k: nat)
    requires k <= |s| && (forall i :: 0 <= i < k ==> s[i] == 0) && (k < |s| ==> s[k] != 0)
    ensures LeadingZeros(s) == k
  {
    if k > 0 { LeadingZerosAre(s[1..], k - 1); }
  }

  function LeadingPart(k: nat): (r: seq<nat>)
    ensures |r| == k && forall i :: 0 <= i < k ==> r[i] == 0
  {
    seq(k, _ => 0)
  }

  /** Leading zeros do not change the value. */
  lemma DropZeros(b: nat, s: seq<nat>, k: nat)
    requires k <= |s| && forall i :: 0 <= i < k ==> s[i] == 0
    ensures BigEndian(b, s) == BigEndian(b, s[k..])
  {
    assert s == s[..k] + s[k..];
    BigEndianConcat(b, s[..k], s[k..]);
    ZeroValue(b, s[..k]);
  }

  lemma {:induction false} ZeroValue(b: nat, s: seq<nat>)
    requires forall i :: 0 <= i < |s| ==> s[i] == 0
    ensures BigEndian(b, s) == 0
  {
    if |s| > 0 { ZeroValue(b, s[..|s| - 1]); }
  }

  /** The digits in base c of the number with digits s in base b, every leading zero kept. */
  function Convert(b: nat, c: nat, s: seq<nat>): seq<nat>
    requires c > 1
  {
    LeadingPart(LeadingZeros(s)) + Minimal(c, BigEndian(b, s))
  }

  /** The conversion is the only text of digits with the same value and as many leading zeros. */
  lemma ConvertExact(b: nat, c: nat, s: seq<nat>, t: seq<nat>)
    requires b > 1 && c > 1 && Normal(b, s) && Normal(c, t)
    ensures t == Convert(b, c, s) <==> BigEndian(c, t) == BigEndian(b, s) && LeadingZeros(t) == LeadingZeros(s)
  {
    hide BigEndian, Minimal, LeadingZeros;
    ConvertValue(b, c, s);
    if BigEndian(c, t) == BigEndian(b, s) && LeadingZeros(t) == LeadingZeros(s) {
      var k := LeadingZeros(t);
      DropZeros(c, t, k);
      WholeIsZero(c, t);
      MinimalUnique(c, t[k..]);
      assert t == LeadingPart(k) + t[k..];
    }
  }

  lemma ConvertValue(b: nat, c: nat, s: seq<nat>)
    requires b > 1 && c > 1 && Normal(b, s)
    ensures BigEndian(c, Convert(b, c, s)) == BigEndian(b, s) && LeadingZeros(Convert(b, c, s)) == LeadingZeros(s)
  {
    hide BigEndian, Minimal, LeadingZeros;
    var k, n := LeadingZeros(s), BigEndian(b, s);
    var t := Convert(b, c, s);
    MinimalValue(c, n);
    MinimalDigits(c, n);
    DropZeros(b, s, k);
    WholeIsZero(b, s);
    LeadingZerosAre(t, k);
    DropZeros(c, t, k);
    assert t[k..] == Minimal(c, n);
  }

  /** Converting there and back changes nothing: conversion is one to one and onto. */
  lemma ConvertBack(b: nat, c: nat, s: seq<nat>)
    requires b > 1 && c > 1 && Normal(b, s)
    ensures Normal(c, Convert(b, c, s)) && Convert(c, b, Convert(b, c, s)) == s
  {
    hide BigEndian, Minimal, Pow, LeadingZeros;
    var k, n := LeadingZeros(s), BigEndian(b, s);
    var t := Convert(b, c, s);
    MinimalValue(c, n);
    MinimalDigits(c, n);
    DropZeros(b, s, k);
    MinimalUnique(b, s[k..]);
    WholeIsZero(b, s);
    LeadingZerosAre(t, k);
    DropZeros(c, t, k);
    assert t[k..] == Minimal(c, n);
    assert s == LeadingPart(k) + s[k..];
  }

  lemma WholeIsZero(b: nat, s: seq<nat>)
    requires b > 1 && Normal(b, s)
    ensures var k := LeadingZeros(s); k < |s| ==> s[k..][0] != 0 && BigEndian(b, s[k..]) > 0
    ensures var k := LeadingZeros(s); k == |s| ==> s[k..] == [] && Minimal(b, 0) == [] && BigEndian(b, s[k..]) == 0
  {
    var k := LeadingZeros(s);
    MinimalUnique(b, s[k..]);
  }
}
