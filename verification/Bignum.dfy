/** The 256-bit numbers of bignum.c: nine 30-bit limbs in uint32 words, least significant
    first, and their partial and full reduction modulo a prime just below 2^256.
    A mask with 2^k - 1 is written % 2^k and a right shift by k is written / 2^k. Every value
    assigned to a u32 or u64 is checked to fit, so where no % 2^32 is written nothing wraps. */
module Bignum {
  import opened Arith
  import opened Digits

  const TWO31 := 0x8000_0000
  const TWO61 := 0x2000_0000_0000_0000
  const TWO224 := 0x1_00000000_00000000_00000000_00000000_00000000_00000000_00000000
  const TWO240 := 0x1_0000_00000000_00000000_00000000_00000000_00000000_00000000_00000000
  const TWO270 := 0x4000_00000000_00000000_00000000_00000000_00000000_00000000_00000000_00000000

  function V(s: seq<nat>): nat { Val(TWO30, s) }

  function W(i: nat): nat { Pow(TWO30, i) }

  /** A modulus the library accepts: nine normalized limbs, between 2^256 - 2^224 and 2^256. */
  ghost predicate Modulus(p: seq<nat>)
  {
    |p| == 9 && Normal(TWO30, p) && TWO256 - TWO224 < V(p) < TWO256
  }

  ghost predicate PartlyReduced(s: seq<nat>, p: seq<nat>)
  {
    |s| == 9 && Normal(TWO30, s) && V(s) < 2 * V(p)
  }

  lemma Weights()
    ensures W(0) == 1 && W(1) == TWO30
    ensures W(8) == TWO240 && W(9) == TWO270
  {
    assert W(2) == TWO30 * W(1);
    assert W(3) == TWO30 * W(2);
    assert W(4) == TWO30 * W(3);
    assert W(5) == TWO30 * W(4);
    assert W(6) == TWO30 * W(5);
    assert W(7) == TWO30 * W(6);
    assert W(8) == TWO30 * W(7);
    assert W(9) == TWO30 * W(8);
  }

  /** Limbs of any 32-bit size stay below five times the next weight. */
  lemma {:induction false} LooseBound(s: seq<nat>)
    requires forall i :: 0 <= i < |s| ==> s[i] < TWO32
    ensures V(s) + 5 <= 5 * W(|s|)
  {
    if |s| > 0 {
      LooseBound(s[1..]);
      assert W(|s|) == TWO30 * W(|s| - 1);
    }
  }

  lemma Distribute(c: int, a: int, d: int)
    ensures c * (a - d) == c * a - c * d
  {}

  lemma CoefBound(pj: nat, coef: nat)
    requires pj < TWO30 && coef < TWO31
    ensures pj * coef <= (TWO30 - 1) * (TWO31 - 1)
  {
    MulMono(pj, TWO30 - 1, coef, TWO31 - 1);
  }

  /** Subtracting the estimated multiple leaves a number in [0, 2 * p). */
  lemma EstimateRange(x: int, coef: nat, p: nat)
    requires TWO256 - TWO224 < p < TWO256 && coef < TWO31
    requires 0 <= x - coef * TWO256 < TWO256 + 5 * TWO240
    ensures 0 <= x - coef * p
    ensures x - coef * p + 1 <= 2 * p
  {
    Distribute(coef, TWO256, TWO256 - p);
    MulMono(coef, TWO31, TWO256 - p, TWO224);
  }

  /** The accumulator neither underflows nor outgrows 64 bits. */
  lemma AccumulatorRange(t: nat, xj: nat, pj: nat, coef: nat)
    requires t < 2 * TWO61 && xj < TWO32 && pj < TWO30 && coef < TWO31
    ensures 0 <= TWO61 + xj - pj * coef < 2 * TWO61
    ensures 0 <= t / TWO30 + (TWO61 - TWO31) + xj - pj * coef < 2 * TWO61
  {
    CoefBound(pj, coef);
  }

  /** x - coef * p up to limb j: out holds its limbs, t is the last accumulator. */
  ghost predicate Subtracted(out: seq<nat>, t: nat, a: seq<nat>, p: seq<nat>, coef: nat)
    requires |out| <= |a| && |out| <= |p|
  {
    Carried(TWO30, out, t / TWO30 - TWO31, V(a[..|out|]) - coef * V(p[..|out|]))
  }

  lemma SubtractedFirst(t: nat, a: seq<nat>, p: seq<nat>, coef: nat)
    requires 0 < |a| && 0 < |p| && t == TWO61 + a[0] - p[0] * coef
    ensures Subtracted([t % TWO30], t, a, p, coef)
  {
    assert a[..1] == [a[0]] && p[..1] == [p[0]];
    Single(a[0]);
    Single(p[0]);
    CarryNext(TWO30, [], 0, 0, a[0] - p[0] * coef, t, TWO31);
    assert [] + [t % TWO30] == [t % TWO30];
  }

  lemma SubtractedNext(out: seq<nat>, t: nat, t': nat, a: seq<nat>, p: seq<nat>, coef: nat)
    requires |out| < |a| && |out| < |p|
    requires Subtracted(out, t, a, p, coef)
    requires t' == t / TWO30 + (TWO61 - TWO31) + a[|out|] - p[|out|] * coef
    ensures Subtracted(out + [t' % TWO30], t', a, p, coef)
  {
    var j := |out|;
    var c := a[j] - p[j] * coef;
    CarryNext(TWO30, out, t / TWO30 - TWO31, V(a[..j]) - coef * V(p[..j]), c, t', TWO31);
    ValPrefix(TWO30, a, j);
    ValPrefix(TWO30, p, j);
    MultipleGrows(W(j), a[j], p[j], coef, V(p[..j]));
  }

  lemma MultipleGrows(w: int, x: int, y: int, coef: int, v: int)
    ensures w * (x - y * coef) == w * x - (coef * (v + w * y) - coef * v)
  {}

  /** bn_fast_mod: subtracts one multiple of the prime from nine arbitrary 32-bit limbs. */
  method FastMod(x: array<u32>, prime: array<u32>)
    requires x.Length == 9 && prime != x && Modulus(prime[..])
    modifies x
    ensures PartlyReduced(x[..], prime[..])
    ensures Cong(V(x[..]), V(old(x[..])), V(prime[..]))
  {
    ghost var a, p := x[..], prime[..];
    var coef: u32 := x[8] / 0x10000;
    AccumulatorRange(0, x[0], prime[0], coef);
    var temp: u64 := TWO61 + x[0] - prime[0] * coef;
    x[0] := temp % TWO30;
    assert x[..1] == [x[0]];
    SubtractedFirst(temp, a, p, coef);
    for j := 1 to 9
      invariant temp < 2 * TWO61
      invariant Normal(TWO30, x[..j])
      invariant x[j..] == a[j..]
      invariant Subtracted(x[..j], temp, a, p, coef)
    {
      ghost var out, t := x[..j], temp;
      assert x[j] == a[j];
      temp := temp / TWO30;
      AccumulatorRange(t, x[j], prime[j], coef);
      temp := temp + (TWO61 - TWO31) + x[j] - prime[j] * coef;
      SubtractedNext(out, t, temp, a, p, coef);
      x[j] := temp % TWO30;
      assert x[..j + 1] == out + [x[j]];
    }
    assert x[..9] == x[..] && a[..9] == a && p[..9] == p;
    FastModRange(a, p);
    NoCarry(V(x[..]), temp / TWO30 - TWO31, V(a) - coef * V(p), x[..]);
    CongBy(V(a), V(x[..]), V(p), coef);
  }

  lemma Single(d: nat)
    ensures V([d]) == d
  {
    assert Val(TWO30, [d]) == d + TWO30 * Val(TWO30, [d][1..]);
  }

  lemma FastModRange(a: seq<nat>, p: seq<nat>)
    requires |a| == 9 && (forall i :: 0 <= i < 9 ==> a[i] < TWO32) && Modulus(p)
    ensures 0 <= V(a) - (a[8] / 0x10000) * V(p) < 2 * V(p)
  {
    var coef := a[8] / 0x10000;
    Weights();
    ValPrefix(TWO30, a, 8);
    assert a[..9] == a;
    LooseBound(a[..8]);
    EstimateRange(V(a), coef, V(p));
  }

  /** Nine normalized limbs hold a number below 2^270 exactly: nothing is carried out. */
  lemma NoCarry(v: nat, carry: int, total: int, s: seq<nat>)
    requires |s| == 9 && Normal(TWO30, s) && v == V(s)
    requires v + W(9) * carry == total && 0 <= total < TWO270
    ensures carry == 0 && v == total
  {
    Weights();
    ValBound(TWO30, s);
  }

  // ---- comparison, subtraction, full reduction ----

  lemma WideEnough()
    ensures Pow(2, 0) == 1 && Pow(2, 10) == 1024
  {}

  lemma Doubles(k: nat)
    requires k > 0
    ensures Pow(2, k) == 2 * Pow(2, k - 1)
  {}

  lemma NoLimbs(a: seq<nat>, b: seq<nat>)
    requires |a| == |b| == 9
    ensures V(a[9..]) == V(b[9..]) == 0
  {}

  /** bn_is_less: res1 and res2 collect, limb by limb from the top, where a and b are smaller. */
  method IsLess(a: array<u32>, b: array<u32>) returns (less: bool)
    requires a.Length == 9 && b.Length == 9
    requires Normal(TWO30, a[..]) && Normal(TWO30, b[..])
    ensures less <==> V(a[..]) < V(b[..])
  {
    hide V, Pow, Or;
    WideEnough();
    NoLimbs(a[..], b[..]);
    var res1: u32, res2: u32 := 0, 0;
    var i := 9;
    while i > 0
      invariant 0 <= i <= 9
      invariant res1 < Pow(2, 9 - i) && res2 < Pow(2, 9 - i)
      invariant res1 > res2 <==> V(a[i..]) < V(b[i..])
      invariant res1 < res2 <==> V(a[i..]) > V(b[i..])
    {
      i := i - 1;
      PowStrict(2, 9 - i, 10);
      Doubles(9 - i);
      TopLimb(a[i..], b[i..]);
      assert a[i..][1..] == a[i + 1..] && b[i..][1..] == b[i + 1..];
      LowBit(res1, if a[i] < b[i] then 1 else 0);
      LowBit(res2, if a[i] > b[i] then 1 else 0);
      res1 := Or(res1 * 2, if a[i] < b[i] then 1 else 0);
      res2 := Or(res2 * 2, if a[i] > b[i] then 1 else 0);
    }
    assert a[0..] == a[..] && b[0..] == b[..];
    less := res1 > res2;
  }

  lemma LowBit(x: nat, bit: nat)
    requires bit < 2
    ensures Or(x * 2, bit) == x * 2 + bit
  {
    assert Pow(2, 1) == 2 * Pow(2, 0);
    OrShifted(bit, x, 1);
  }

  lemma TopLimb(a: seq<nat>, b: seq<nat>)
    requires |a| == |b| > 0 && a[0] < TWO30 && b[0] < TWO30
    ensures V(a[1..]) < V(b[1..]) ==> V(a) < V(b)
    ensures V(a[1..]) > V(b[1..]) ==> V(a) > V(b)
    ensures V(a[1..]) == V(b[1..]) ==> (V(a) < V(b) <==> a[0] < b[0]) && (V(a) > V(b) <==> a[0] > b[0])
  {}

  /** bn_subtract: a - b modulo 2^270. */
  method Subtract(a: array<u32>, b: array<u32>, res: array<u32>)
    requires a.Length == 9 && b.Length == 9 && res.Length == 9
    requires Normal(TWO30, a[..]) && Normal(TWO30, b[..])
    modifies res
    ensures Normal(TWO30, res[..])
    ensures V(res[..]) == (V(old(a[..])) - V(old(b[..]))) % TWO270
  {
    hide Val, Pow, Carried;
    ghost var sa, sb := a[..], b[..];
    CarriedStart(TWO30);
    assert sa[..0] == [] && sb[..0] == [];
    var tmp: u32 := 1;
    for i := 0 to 9
      invariant tmp <= 2
      invariant forall l :: i <= l < 9 ==> a[l] == sa[l] && b[l] == sb[l]
      invariant Normal(TWO30, res[..i])
      invariant Carried(TWO30, res[..i], tmp - 1, V(sa[..i]) - V(sb[..i]))
    {
      ghost var out, t := res[..i], tmp;
      assert a[i] == sa[i] && b[i] == sb[i];
      tmp := tmp + 0x3FFF_FFFF + a[i] - b[i];
      CarryNext(TWO30, out, t as int - 1, V(sa[..i]) - V(sb[..i]), sa[i] as int - sb[i] as int, tmp, 1);
      DifferenceGrows(sa, sb, i);
      res[i] := tmp % TWO30;
      assert res[..i + 1] == out + [res[i]];
      tmp := tmp / TWO30;
    }
    Whole(res[..], sa, sb);
    Truncated(res[..], tmp - 1, V(sa) - V(sb));
  }

  lemma DifferenceGrows(a: seq<nat>, b: seq<nat>, i: nat)
    requires i < |a| && i < |b|
    ensures V(a[..i]) - V(b[..i]) + W(i) * (a[i] as int - b[i] as int) == V(a[..i + 1]) - V(b[..i + 1])
  {
    ValPrefix(TWO30, a, i);
    ValPrefix(TWO30, b, i);
    Distribute(W(i), a[i], b[i]);
  }

  lemma Whole(a: seq<nat>, b: seq<nat>, c: seq<nat>)
    requires |a| == 9 && |b| == 9 && |c| == 9
    ensures a[..9] == a && b[..9] == b && c[..9] == c
  {}

  /** Nine normalized limbs hold the total modulo 2^270. */
  lemma Truncated(s: seq<nat>, q: int, total: int)
    requires |s| == 9 && Normal(TWO30, s) && Carried(TWO30, s, q, total)
    ensures V(s) == total % TWO270
  {
    Weights();
    ValBound(TWO30, s);
    assert total == q * TWO270 + V(s);
    DivModUnique(total, TWO270, q, V(s));
  }

  /** bn_mod: one conditional subtraction takes a partly reduced number to its residue. */
  method Mod(x: array<u32>, prime: array<u32>)
    requires prime != x && x.Length == 9 && Modulus(prime[..]) && PartlyReduced(x[..], prime[..])
    modifies x
    ensures Normal(TWO30, x[..])
    ensures V(x[..]) == V(old(x[..])) % V(prime[..])
  {
    var flag := IsLess(x, prime);
    var temp := new u32[9];
    Subtract(x, prime, temp);
    ghost var v, p := V(x[..]), V(prime[..]);
    if flag {
      DivModUnique(v, p, 0, v);
    } else {
      DivModUnique(v, p, 1, v - p);
      DivModUnique(v - p, TWO270, 0, v - p);
    }
    Cmov(x, flag, x, temp);
  }

  /** bn_cmov: the masks select one of the two numbers. */
  method Cmov(res: array<u32>, cond: bool, truecase: array<u32>, falsecase: array<u32>)
    requires res.Length == 9 && truecase.Length == 9 && falsecase.Length == 9
    modifies res
    ensures res[..] == if cond then old(truecase[..]) else old(falsecase[..])
  {
    for i := 0 to 9
      invariant forall j :: i <= j < 9 ==> truecase[j] == old(truecase[j]) && falsecase[j] == old(falsecase[j])
      invariant forall j :: 0 <= j < i ==> res[j] == if cond then old(truecase[j]) else old(falsecase[j])
    {
      res[i] := if cond then truecase[i] else falsecase[i];
    }
  }

  /** bn_subtractmod: a + 2 * prime - b modulo 2^270, without uint32 overflow. */
  method SubtractMod(a: array<u32>, b: array<u32>, res: array<u32>, prime: array<u32>)
    requires a.Length == 9 && b.Length == 9 && res.Length == 9 && prime != res
    requires Normal(TWO30, a[..]) && Normal(TWO30, b[..]) && Modulus(prime[..])
    modifies res
    ensures Normal(TWO30, res[..])
    ensures V(res[..]) == (V(old(a[..])) + 2 * V(prime[..]) - V(old(b[..]))) % TWO270
  {
    hide Val, Pow, Carried;
    ghost var sa, sb, p := a[..], b[..], prime[..];
    CarriedStart(TWO30);
    assert sa[..0] == [] && sb[..0] == [] && p[..0] == [];
    var temp: u32 := 1;
    for i := 0 to 9
      invariant temp <= 3
      invariant forall l :: i <= l < 9 ==> a[l] == sa[l] && b[l] == sb[l]
      invariant Normal(TWO30, res[..i])
      invariant Carried(TWO30, res[..i], temp - 1, V(sa[..i]) - V(sb[..i]) + 2 * V(p[..i]))
    {
      ghost var out, t := res[..i], temp;
      assert a[i] == sa[i] && b[i] == sb[i] && prime[i] == p[i];
      temp := temp + 0x3FFF_FFFF + a[i] + 2 * prime[i] - b[i];
      SubtractModNext(out, t, sa, sb, p, temp);
      res[i] := temp % TWO30;
      assert res[..i + 1] == out + [res[i]];
      temp := temp / TWO30;
    }
    Whole(res[..], sa, sb);
    assert p[..9] == p;
    Truncated(res[..], temp - 1, V(sa) - V(sb) + 2 * V(p));
  }

  lemma SubtractModNext(out: seq<nat>, t: nat, a: seq<nat>, b: seq<nat>, p: seq<nat>, t': nat)
    requires |out| < |a| && |out| < |b| && |out| < |p|
    requires Carried(TWO30, out, t - 1, V(a[..|out|]) - V(b[..|out|]) + 2 * V(p[..|out|]))
    requires t' == t + 0x3FFF_FFFF + a[|out|] + 2 * p[|out|] - b[|out|]
    ensures Carried(TWO30, out + [t' % TWO30], t' / TWO30 - 1,
                    V(a[..|out| + 1]) - V(b[..|out| + 1]) + 2 * V(p[..|out| + 1]))
  {
    var i := |out|;
    var d: int := a[i] as int - b[i] as int;
    CarryNext(TWO30, out, t - 1, V(a[..i]) - V(b[..i]) + 2 * V(p[..i]), d + 2 * p[i], t', 1);
    DifferenceGrows(a, b, i);
    ValPrefix(TWO30, p, i);
    Spread(W(i), d, p[i], p[i]);
  }

  /** On partly reduced operands bn_subtractmod computes a + 2 * prime - b exactly, so its result is
      below 4 * prime and congruent to a - b. */
  lemma SubtractModExact(a: seq<nat>, b: seq<nat>, p: seq<nat>)
    requires Modulus(p) && PartlyReduced(a, p) && PartlyReduced(b, p)
    ensures (V(a) + 2 * V(p) - V(b)) % TWO270 == V(a) + 2 * V(p) - V(b) < 4 * V(p)
    ensures Cong(V(a) + 2 * V(p) - V(b), V(a) - V(b), V(p))
  {
    var total := V(a) + 2 * V(p) - V(b);
    DivModUnique(total, TWO270, 0, total);
    CongBy(total, V(a) - V(b), V(p), 2);
  }

  /** bn_mult_half: x / 2 modulo an odd modulus. */
  method MultHalf(x: array<u32>, prime: array<u32>)
    requires prime != x && x.Length == 9 && Normal(TWO30, x[..])
    requires Modulus(prime[..]) && prime[0] % 2 == 1
    modifies x
    ensures Normal(TWO30, x[..])
    ensures 2 * V(x[..]) == V(old(x[..])) + (if old(x[0]) % 2 == 1 then V(prime[..]) else 0)
  {
    hide V, Halved, W;
    ghost var a, p := x[..], prime[..];
    var xodd := x[0] % 2 == 1;
    ghost var m := if xodd then 1 else 0;
    var sum: u32 := x[0] + (if xodd then prime[0] else 0);
    var tmp1: u32 := sum / 2;
    HalvedFirst(a, p, m, tmp1);
    for j := 0 to 8
      invariant tmp1 <= TWO30 + 1
      invariant x[j + 1..] == a[j + 1..]
      invariant Normal(TWO30, x[..j])
      invariant Halved(x[..j], tmp1, a, p, m)
    {
      ghost var out, t := x[..j], tmp1;
      assert x[j + 1] == a[j + 1] && prime[j + 1] == p[j + 1];
      var tmp2: u32 := x[j + 1] + (if xodd then prime[j + 1] else 0);
      tmp1 := tmp1 + (tmp2 % 2) * 0x2000_0000;
      HalvedNext(out, t, tmp2, a, p, m);
      x[j] := tmp1 % TWO30;
      assert x[..j + 1] == out + [x[j]];
      tmp1 := tmp1 / TWO30;
      tmp1 := tmp1 + tmp2 / 2;
    }
    HalvedLast(x[..8], tmp1, a, p, m);
    x[8] := tmp1;
    assert x[..] == x[..8] + [tmp1];
  }

  /** Halving by bn_mult_half is division by 2 modulo the prime and keeps a number partly reduced. */
  lemma MultHalfCorrect(a: seq<nat>, h: seq<nat>, p: seq<nat>)
    requires Modulus(p) && |a| == 9 && |h| == 9 && Normal(TWO30, h)
    requires 2 * V(h) == V(a) + (if a[0] % 2 == 1 then V(p) else 0)
    ensures Cong(2 * V(h), V(a), V(p))
    ensures PartlyReduced(a, p) ==> PartlyReduced(h, p)
  {
    CongBy(2 * V(h), V(a), V(p), if a[0] % 2 == 1 then 1 else 0);
  }

  /** Twice the limbs written plus the pending half limb make x + m * p so far. */
  ghost predicate Halved(out: seq<nat>, t: nat, a: seq<nat>, p: seq<nat>, m: nat)
    requires |out| < |a| && |out| < |p|
  {
    2 * (V(out) + W(|out|) * t) == V(a[..|out| + 1]) + m * V(p[..|out| + 1])
  }

  lemma HalvedFirst(a: seq<nat>, p: seq<nat>, m: nat, t: nat)
    requires |a| > 0 && |p| > 0 && m == a[0] % 2 && p[0] % 2 == 1 && t == (a[0] + m * p[0]) / 2
    ensures Halved([], t, a, p, m)
  {
    assert a[..1] == [a[0]] && p[..1] == [p[0]];
    Single(a[0]);
    Single(p[0]);
    assert (a[0] + m * p[0]) % 2 == 0 by {
      if m == 1 { assert a[0] + m * p[0] == a[0] + p[0]; } else { assert m * p[0] == 0; }
    }
  }

  lemma HalvedNext(out: seq<nat>, t: nat, sum: nat, a: seq<nat>, p: seq<nat>, m: nat)
    requires |out| + 1 < |a| && |out| + 1 < |p| && Halved(out, t, a, p, m)
    requires m <= 1 && sum == a[|out| + 1] + m * p[|out| + 1]
    ensures var t' := t + (sum % 2) * 0x2000_0000;
            Halved(out + [t' % TWO30], t' / TWO30 + sum / 2, a, p, m)
  {
    var t' := t + (sum % 2) * 0x2000_0000;
    var j, w := |out|, W(|out|);
    ValAppend(TWO30, out, t' % TWO30);
    CarryStep(TWO30, w, t');
    ValPrefix(TWO30, a, j + 1);
    ValPrefix(TWO30, p, j + 1);
    HalfLimb(w, t, sum);
    Spread2(TWO30 * w, t' / TWO30, sum / 2);
    HalfInputs(TWO30 * w, m, V(p[..j + 1]), a[j + 1], p[j + 1]);
    assert W(j + 1) == TWO30 * w;
  }

  lemma Spread2(w: int, a: int, b: int)
    ensures w * (a + b) == w * a + w * b
  {}

  lemma HalfLimb(w: nat, t: nat, sum: nat)
    ensures 2 * (w * (t + (sum % 2) * 0x2000_0000) + (TWO30 * w) * (sum / 2)) == 2 * (w * t) + (TWO30 * w) * sum
  {
    var h, l := sum / 2, sum % 2;
    Spread2(w, t, l * 0x2000_0000);
    Spread2(TWO30 * w, 2 * h, l);
  }

  lemma HalfInputs(w: nat, m: nat, v: nat, x: nat, y: nat)
    ensures m * (v + w * y) + w * x == m * v + w * (x + m * y)
  {
    Spread2(m, v, w * y);
    Spread2(w, x, m * y);
    assert m * (w * y) == w * (m * y);
  }

  lemma HalvedLast(out: seq<nat>, t: nat, a: seq<nat>, p: seq<nat>, m: nat)
    requires |a| == 9 && Normal(TWO30, a) && Modulus(p)
    requires |out| == 8 && Normal(TWO30, out) && Halved(out, t, a, p, m) && m <= 1
    ensures t < TWO30 && 2 * V(out + [t]) == V(a) + m * V(p)
  {
    assert a[..9] == a && p[..9] == p;
    ValAppend(TWO30, out, t);
    ValBound(TWO30, a);
    Weights();
  }
}
