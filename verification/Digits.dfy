/** The number a sequence of digits stands for. Limb numbers, machine words, bytes and
    Base58 digits are all read with Val, least significant digit first, or with BigEndian. */
module Digits {
  import opened Arith

  /** Least significant digit first. Digits need not be below the base. */
  function Val(b: nat, s: seq<nat>): nat
  {
    if |s| == 0 then 0 else s[0] + b * Val(b, s[1..])
  }

  /** Most significant digit first. */
  function BigEndian(b: nat, s: seq<nat>): nat
  {
    if |s| == 0 then 0 else BigEndian(b, s[..|s| - 1]) * b + s[|s| - 1]
  }

  /** Every digit is below the base. */
  ghost predicate Normal(b: nat, s: seq<nat>)
  {
    forall i :: 0 <= i < |s| ==> s[i] < b
  }

  function Reverse(s: seq<nat>): (r: seq<nat>)
    ensures |r| == |s|
    ensures forall i :: 0 <= i < |s| ==> r[i] == s[|s| - 1 - i]
  {
    seq(|s|, i requires 0 <= i < |s| => s[|s| - 1 - i])
  }

  lemma {:induction false} BigEndianReverse(b: nat, s: seq<nat>)
    ensures BigEndian(b, s) == Val(b, Reverse(s))
  {
    if |s| > 0 {
      BigEndianReverse(b, s[..|s| - 1]);
      assert Reverse(s)[1..] == Reverse(s[..|s| - 1]);
    }
  }

  lemma {:induction false} ValConcat(b: nat, s: seq<nat>, t: seq<nat>)
    ensures Val(b, s + t) == Val(b, s) + Pow(b, |s|) * Val(b, t)
  {
    if |s| == 0 {
      assert s + t == t;
    } else {
      ValConcat(b, s[1..], t);
      assert (s + t)[1..] == s[1..] + t;
      var p, u := Pow(b, |s| - 1), Val(b, t);
      assert Pow(b, |s|) == b * p;
      Assoc(b, p, u);
      assert b * (Val(b, s[1..]) + p * u) == b * Val(b, s[1..]) + b * (p * u);
    }
  }

  lemma ValAppend(b: nat, s: seq<nat>, d: nat)
    ensures Val(b, s + [d]) == Val(b, s) + Pow(b, |s|) * d
  {
    ValConcat(b, s, [d]);
    assert [d][1..] == [];
    assert Val(b, [d]) == d + b * Val(b, []);
  }

  /** The value of one more digit of the same sequence. */
  lemma ValPrefix(b: nat, s: seq<nat>, n: nat)
    requires n < |s|
    ensures Val(b, s[..n + 1]) == Val(b, s[..n]) + Pow(b, n) * s[n]
  {
    assert s[..n + 1] == s[..n] + [s[n]];
    ValAppend(b, s[..n], s[n]);
  }

  lemma ValSplit(b: nat, s: seq<nat>, n: nat)
    requires n <= |s|
    ensures Val(b, s) == Val(b, s[..n]) + Pow(b, n) * Val(b, s[n..])
  {
    assert s == s[..n] + s[n..];
    ValConcat(b, s[..n], s[n..]);
  }

  lemma {:induction false} ValBound(b: nat, s: seq<nat>)
    requires b > 0 && Normal(b, s)
    ensures Val(b, s) < Pow(b, |s|)
  {
    if |s| > 0 {
      ValBound(b, s[1..]);
      assert Val(b, s[1..]) + 1 <= Pow(b, |s| - 1);
      MulMono(b, b, Val(b, s[1..]) + 1, Pow(b, |s| - 1));
      assert b * (Val(b, s[1..]) + 1) == b * Val(b, s[1..]) + b;
    }
  }

  lemma {:induction false} ValZeros(b: nat, s: seq<nat>)
    requires forall i :: 0 <= i < |s| ==> s[i] == 0
    ensures Val(b, s) == 0
  {
    if |s| > 0 { ValZeros(b, s[1..]); }
  }

  /** A normal digit sequence is the only one of its length with its value. */
  lemma {:induction false} ValInjective(b: nat, s: seq<nat>, t: seq<nat>)
    requires b > 0 && |s| == |t| && Normal(b, s) && Normal(b, t) && Val(b, s) == Val(b, t)
    ensures s == t
  {
    if |s| > 0 {
      var u, v := Val(b, s[1..]), Val(b, t[1..]);
      assert u * b == b * u && v * b == b * v;
      EuclidUnique(b, u, s[0], v, t[0]);
      ValInjective(b, s[1..], t[1..]);
      assert s == [s[0]] + s[1..];
      assert t == [t[0]] + t[1..];
    }
  }

  /** A value below b^n leaves only zeros from digit n up. */
  lemma {:induction false} ValHighZero(b: nat, s: seq<nat>, n: nat)
    requires b > 0 && n <= |s| && Normal(b, s) && Val(b, s) < Pow(b, n)
    ensures forall i :: n <= i < |s| ==> s[i] == 0
    ensures Val(b, s) == Val(b, s[..n])
  {
    ValSplit(b, s, n);
    var h := Val(b, s[n..]);
    if h > 0 { MulMono(Pow(b, n), Pow(b, n), 1, h); }
    ZeroDigits(b, s[n..]);
    forall i | n <= i < |s| ensures s[i] == 0 { assert s[i] == s[n..][i - n]; }
  }

  lemma {:induction false} ZeroDigits(b: nat, s: seq<nat>)
    requires b > 0 && Val(b, s) == 0
    ensures forall i :: 0 <= i < |s| ==> s[i] == 0
  {
    if |s| > 0 {
      if Val(b, s[1..]) > 0 { MulMono(b, b, 1, Val(b, s[1..])); }
      ZeroDigits(b, s[1..]);
      assert s == [s[0]] + s[1..];
    }
  }

  /** One step of a carry loop: the accumulator t at weight w gives a digit and a carry. */
  lemma CarryStep(b: nat, w: nat, t: nat)
    requires b > 0
    ensures w * t == w * (t % b) + (b * w) * (t / b)
  {
    DivMod(t, b);
    var d, q := t % b, t / b;
    assert w * (q * b + d) == w * (q * b) + w * d;
    assert w * (q * b) == (b * w) * q;
  }

  /** The digits written so far and the carry q still to be added account for total. */
  ghost predicate Carried(b: nat, out: seq<nat>, q: int, total: int)
  {
    Val(b, out) + Pow(b, |out|) * q == total
  }

  /** One turn of a carry loop: the accumulator t takes in the carry q and the summand c; a surplus
      of surplus * b that keeps t positive is worth surplus after the shift. */
  lemma CarryNext(b: nat, out: seq<nat>, q: int, total: int, c: int, t: nat, surplus: int)
    requires b > 0 && Carried(b, out, q, total)
    requires t == q + c + surplus * b
    ensures Carried(b, out + [t % b], t / b - surplus, total + Pow(b, |out|) * c)
  {
    var w := Pow(b, |out|);
    ValAppend(b, out, t % b);
    CarryStep(b, w, t);
    Spread(w, q, c, surplus * b);
    Regroup(b, w, t / b, surplus);
  }

  lemma CarriedStart(b: nat)
    ensures Val(b, []) == 0 && Carried(b, [], 0, 0)
  {}

  lemma Spread(w: int, x: int, y: int, z: int)
    ensures w * (x + y + z) == w * x + w * y + w * z
  {}

  lemma Regroup(b: int, w: int, d: int, surplus: int)
    ensures (b * w) * (d - surplus) == (b * w) * d - w * (surplus * b)
  {
    assert (b * w) * (d - surplus) == (b * w) * d - (b * w) * surplus;
    assert (b * w) * surplus == w * (surplus * b);
  }
}
