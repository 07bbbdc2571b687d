/** bn_multiply of bignum.c: a long multiplication into eighteen limbs followed by nine
    reduction steps, each of which clears one limb. */
module Multiplication {
  import opened Arith
  import opened Digits
  import opened Bignum

  const LIMB_SQUARE := 0x3FFF_FFFF * 0x3FFF_FFFF

  const TWO257 := 2 * TWO256

  /** The product of limb j of k with the limb of x that lands in column i. */
  function Term(k: seq<nat>, x: seq<nat>, i: nat, j: nat): nat
  {
    if j < |k| && 0 <= i - j < |x| then k[j] * x[i - j] else 0
  }

  /** Column i of the product, from the first n limbs of k. */
  function Column(k: seq<nat>, x: seq<nat>, i: nat, n: nat): nat
  {
    if n == 0 then 0 else Column(k, x, i, n - 1) + Term(k, x, i, n - 1)
  }

  /** The first m columns at their weights. */
  function Columns(k: seq<nat>, x: seq<nat>, m: nat, n: nat): nat
  {
    if m == 0 then 0 else Columns(k, x, m - 1, n) + W(m - 1) * Column(k, x, m - 1, n)
  }

  /** What limb n of k contributes to the first m columns. */
  function Row(k: seq<nat>, x: seq<nat>, m: nat, n: nat): nat
  {
    if m == 0 then 0 else Row(k, x, m - 1, n) + W(m - 1) * Term(k, x, m - 1, n)
  }

  lemma {:induction false} RowValue(k: seq<nat>, x: seq<nat>, m: nat, n: nat)
    requires n < |k|
    ensures m <= n ==> Row(k, x, m, n) == 0
    ensures n <= m <= n + |x| ==> Row(k, x, m, n) == (k[n] * W(n)) * V(x[..m - n])
  {
    if m == 0 {
      assert x[..0] == [];
    } else {
      RowValue(k, x, m - 1, n);
      if m == n {
        assert x[..0] == [];
      } else if n < m <= n + |x| {
        var l := m - 1 - n;
        ValPrefix(TWO30, x, l);
        PowAdd(TWO30, n, l);
        assert W(m - 1) == W(n) * W(l);
        Rearrange(W(n), W(l), k[n], x[l], V(x[..l]));
      }
    }
  }

  lemma Rearrange(w: nat, u: nat, k: nat, x: nat, v: nat)
    ensures (k * w) * (v + u * x) == (k * w) * v + (w * u) * (k * x)
  {
    Spread2(k * w, v, u * x);
    assert (k * w) * (u * x) == (w * u) * (k * x);
  }

  lemma {:induction false} ColumnsGrow(k: seq<nat>, x: seq<nat>, m: nat, n: nat)
    ensures Columns(k, x, m, n + 1) == Columns(k, x, m, n) + Row(k, x, m, n)
  {
    if m > 0 {
      ColumnsGrow(k, x, m - 1, n);
      Spread2(W(m - 1), Column(k, x, m - 1, n), Term(k, x, m - 1, n));
    }
  }

  lemma {:induction false} ColumnsEmpty(k: seq<nat>, x: seq<nat>, m: nat)
    ensures Columns(k, x, m, 0) == 0
  {
    if m > 0 { ColumnsEmpty(k, x, m - 1); }
  }

  /** The seventeen columns of two nine-limb numbers add up to their product. */
  lemma {:induction false} ColumnsAreProduct(k: seq<nat>, x: seq<nat>, n: nat)
    requires |k| == 9 && |x| == 9 && n <= 9
    ensures Columns(k, x, 17, n) == V(k[..n]) * V(x)
  {
    if n == 0 {
      ColumnsEmpty(k, x, 17);
      assert V([]) * V(x) == 0;
    } else {
      ColumnsAreProduct(k, x, n - 1);
      ColumnsGrow(k, x, 17, n - 1);
      RowWhole(k, x, 17, n - 1);
      ValPrefix(TWO30, k, n - 1);
      AddRow(V(k[..n - 1]), W(n - 1), k[n - 1], V(x));
    }
  }

  lemma AddRow(v: nat, w: nat, k: nat, x: nat)
    ensures (v + w * k) * x == v * x + (k * w) * x
  {
    assert k * w == w * k;
  }

  /** Past its last limb a row adds nothing more. */
  lemma {:induction false} RowWhole(k: seq<nat>, x: seq<nat>, m: nat, n: nat)
    requires n < |k| && m >= n + |x|
    ensures Row(k, x, m, n) == (k[n] * W(n)) * V(x)
  {
    if m == n + |x| {
      RowValue(k, x, m, n);
      assert x[..m - n] == x;
    } else {
      RowWhole(k, x, m - 1, n);
    }
  }

  lemma TermBound(k: seq<nat>, x: seq<nat>, i: nat, j: nat)
    requires Normal(TWO30, k) && Normal(TWO30, x)
    ensures Term(k, x, i, j) <= LIMB_SQUARE
  {
    if j < |k| && 0 <= i - j < |x| {
      MulMono(k[j], TWO30 - 1, x[i - j], TWO30 - 1);
    }
  }

  lemma {:induction false} ColumnBound(k: seq<nat>, x: seq<nat>, i: nat, n: nat)
    requires Normal(TWO30, k) && Normal(TWO30, x)
    ensures Column(k, x, i, n) <= n * LIMB_SQUARE
  {
    if n > 0 {
      ColumnBound(k, x, i, n - 1);
      TermBound(k, x, i, n - 1);
    }
  }

  /** In the lower columns the limbs of k beyond i add nothing ... */
  lemma {:induction false} ColumnTail(k: seq<nat>, x: seq<nat>, i: nat, n: nat)
    requires i < n
    ensures Column(k, x, i, n) == Column(k, x, i, i + 1)
  {
    if n > i + 1 { ColumnTail(k, x, i, n - 1); }
  }

  /** ... and in the upper columns the limbs below i - 8 add nothing. */
  lemma {:induction false} ColumnHead(k: seq<nat>, x: seq<nat>, i: nat, n: nat)
    requires |x| == 9 && n + 8 <= i
    ensures Column(k, x, i, n) == 0
  {
    if n > 0 { ColumnHead(k, x, i, n - 1); }
  }

  /** The loop body shared by the two halves of bn_multiply_long: adds column i to the carry. */
  method AddColumn(k: array<u32>, x: array<u32>, i: nat, from: nat, to: nat, carry: u64) returns (temp: u64)
    requires k.Length == 9 && x.Length == 9 && Normal(TWO30, k[..]) && Normal(TWO30, x[..])
    requires i < 17 && (if i < 9 then from == 0 && to == i + 1 else from == i - 8 && to == 9)
    requires carry < 0x10 * TWO30
    ensures temp == carry + Column(k[..], x[..], i, 9) && temp / TWO30 < 0x10 * TWO30
  {
    temp := carry;
    if i < 9 { ColumnTail(k[..], x[..], i, 9); } else { ColumnHead(k[..], x[..], i, from); }
    for j := from to to
      invariant temp == carry + Column(k[..], x[..], i, j)
    {
      ColumnBound(k[..], x[..], i, j);
      TermBound(k[..], x[..], i, j);
      assert Term(k[..], x[..], i, j) == k[j] as int * x[i - j];
      temp := temp + k[j] as u64 * x[i - j];
    }
    ColumnBound(k[..], x[..], i, 9);
  }

  /** bn_multiply_long: the exact product in eighteen normalized limbs. */
  method MultiplyLong(k: array<u32>, x: array<u32>, res: array<u32>)
    requires k.Length == 9 && x.Length == 9 && res.Length == 18 && res != k && res != x
    requires Normal(TWO30, k[..]) && Normal(TWO30, x[..])
    modifies res
    ensures Normal(TWO30, res[..]) && V(res[..]) == V(k[..]) * V(x[..])
  {
    hide Val, Pow, Carried, Column;
    ghost var sk, sx := k[..], x[..];
    CarriedStart(TWO30);
    assert res[..0] == [];
    var temp: u64 := 0;
    for i := 0 to 9
      invariant k[..] == sk && x[..] == sx && temp < 0x10 * TWO30
      invariant Normal(TWO30, res[..i]) && Carried(TWO30, res[..i], temp, Columns(sk, sx, i, 9))
    {
      ghost var out: seq<nat>, t := res[..i], temp;
      temp := AddColumn(k, x, i, 0, i + 1, temp);
      NextColumn(out, t, sk, sx, temp);
      res[i] := temp % TWO30;
      assert res[..i + 1] == out + [res[i]];
      temp := temp / TWO30;
    }
    for i := 9 to 17
      invariant k[..] == sk && x[..] == sx && temp < 0x10 * TWO30
      invariant Normal(TWO30, res[..i]) && Carried(TWO30, res[..i], temp, Columns(sk, sx, i, 9))
    {
      ghost var out: seq<nat>, t := res[..i], temp;
      temp := AddColumn(k, x, i, i - 8, 9, temp);
      NextColumn(out, t, sk, sx, temp);
      res[i] := temp % TWO30;
      assert res[..i + 1] == out + [res[i]];
      temp := temp / TWO30;
    }
    TopLimbOfProduct(sk, sx, res[..17], temp);
    res[17] := temp;
    assert res[..] == res[..17] + [temp];
  }

  lemma NextColumn(out: seq<nat>, t: nat, k: seq<nat>, x: seq<nat>, t': nat)
    requires Carried(TWO30, out, t, Columns(k, x, |out|, 9)) && t' == t + Column(k, x, |out|, 9)
    ensures Carried(TWO30, out + [t' % TWO30], t' / TWO30, Columns(k, x, |out| + 1, 9))
  {
    CarryNext(TWO30, out, t, Columns(k, x, |out|, 9), Column(k, x, |out|, 9), t', 0);
  }

  lemma TopLimbOfProduct(k: seq<nat>, x: seq<nat>, out: seq<nat>, t: nat)
    requires |k| == 9 && |x| == 9 && |out| == 17 && Normal(TWO30, k) && Normal(TWO30, x)
    requires Carried(TWO30, out, t, Columns(k, x, 17, 9))
    ensures t < TWO30 && V(out + [t]) == V(k) * V(x)
  {
    hide Normal;
    ColumnsAreProduct(k, x, 9);
    assert k[..9] == k;
    ValAppend(TWO30, out, t);
    ValBound(TWO30, k);
    ValBound(TWO30, x);
    StrictProduct(V(k), V(x), W(9));
    PowAdd(TWO30, 9, 9);
    assert W(18) == TWO30 * W(17);
    if t >= TWO30 { MulMono(W(17), W(17), TWO30, t); }
  }

  lemma StrictProduct(a: nat, b: nat, w: nat)
    requires a < w && b < w
    ensures a * b < w * w
  {
    MulMono(a, w - 1, b, w - 1);
    assert (w - 1) * (w - 1) == w * w - w - w + 1;
  }

  // ---- reduction ----

  /** The ten limbs a step works on, as a number of their own. */
  lemma Window(r: seq<nat>, i: nat)
    requires |r| == 18 && Normal(TWO30, r) && 8 <= i <= 16 && V(r) < W(i - 7) * TWO257
    ensures V(r) == V(r[..i - 8]) + W(i - 8) * V(r[i - 8..i + 2])
    ensures V(r[..i - 8]) < W(i - 8) && V(r[i - 8..i + 2]) < TWO30 * TWO257
    ensures forall j :: i + 2 <= j < 18 ==> r[j] == 0
  {
    var y: seq<nat> := r[i - 8..];
    ValSplit(TWO30, r, i - 8);
    ValBound(TWO30, r[..i - 8]);
    WindowBound(W(i - 8), V(y));
    assert Normal(TWO30, y);
    ValHighZero(TWO30, y, 10);
    assert y[..10] == r[i - 8..i + 2];
    forall j | i + 2 <= j < 18 ensures r[j] == 0 { assert r[j] == y[j - (i - 8)]; }
  }

  lemma WindowBound(w: nat, y: nat)
    requires w > 0 && w * y < (TWO30 * w) * TWO257
    ensures y < TWO30 * TWO257 && y < W(10)
  {
    assert (TWO30 * w) * TWO257 == w * (TWO30 * TWO257);
    Cancel(w, y, TWO30 * TWO257);
    Weights();
    assert W(10) == TWO30 * W(9);
  }

  lemma Cancel(w: nat, a: nat, b: nat)
    requires w > 0 && w * a < w * b
    ensures a < b
  {
    if a >= b { MulMono(w, w, b, a); }
  }

  /** The estimate coef = floor(y / 2^256) fits 31 bits and leaves less than 2 * p. */
  lemma Estimate(y: seq<nat>, p: seq<nat>, coef: nat)
    requires |y| == 10 && Normal(TWO30, y) && Modulus(p) && V(y) < TWO30 * TWO257
    requires coef == y[8] / 0x10000 + (y[9] * 0x4000) % TWO32
    ensures coef < TWO31 && y[9] < 0x20000
    ensures 0 <= V(y) - coef * V(p) && V(y) - coef * V(p) + 1 <= 2 * V(p)
  {
    Weights();
    assert y[..10] == y;
    ValPrefix(TWO30, y, 9);
    ValPrefix(TWO30, y, 8);
    ValBound(TWO30, y[..8]);
    EstimateWord(V(y[..8]), y[8], y[9]);
    EstimateRange(V(y), coef, V(p));
  }

  lemma EstimateWord(lo: nat, d8: nat, d9: nat)
    requires lo < TWO240 && d8 < TWO30
    requires lo + TWO240 * d8 + TWO270 * d9 < TWO30 * TWO257
    ensures d9 < 0x20000 && d8 / 0x10000 + (d9 * 0x4000) % TWO32 < TWO31
    ensures 0 <= lo + TWO240 * d8 + TWO270 * d9 - (d8 / 0x10000 + (d9 * 0x4000) % TWO32) * TWO256 < TWO256
  {
    DivMod(d8, 0x10000);
    assert d9 < 0x20000;
    assert (d9 * 0x4000) % TWO32 == d9 * 0x4000;
  }

  /** The estimate of the first step for a product that is not below the bound: either it is not below 2^31, or
      cutting it to 32 bits has left so little of it that the tenth limb does not vanish. */
  lemma ProductTooLarge(r: seq<nat>, p: seq<nat>, coef: nat)
    requires |r| == 18 && Normal(TWO30, r) && Modulus(p) && V(r) >= W(9) * TWO257
    requires coef == r[16] / 0x10000 + (r[17] * 0x4000) % TWO32
    ensures coef >= TWO31 || TWO270 <= V(r[8..]) - coef * V(p) < W(10)
  {
    hide Val, Pow;
    var y := r[8..];
    Weights();
    if r[17] < 0x40000 {
      FirstEstimate(r);
      assert (r[17] * 0x4000) % TWO32 == r[17] * 0x4000;
    } else if coef < TWO31 {
      assert Normal(TWO30, y) && y[..10] == y;
      ValPrefix(TWO30, y, 9);
      ValBound(TWO30, y);
      MulMono(0x40000, y[9], TWO270, TWO270);
      MulMono(coef, TWO31, V(p), TWO256);
    }
  }

  /** bn_multiply_reduce_step: subtracts the estimated multiple of the prime at weight i - 8. It fails if its assertion
      does; the first difference, which may have wrapped around by then, is not used. */
  method ReduceStep(res: array<u32>, prime: array<u32>, i: nat) returns (ok: bool)
    requires res.Length == 18 && prime != res && Modulus(prime[..]) && 8 <= i <= 16 && Normal(TWO30, res[..])
    requires i < 16 ==> V(res[..]) < W(i - 7) * TWO257
    modifies res
    ensures V(old(res[..])) < W(i - 7) * TWO257 ==>
      && ok && Normal(TWO30, res[..]) && V(res[..]) < W(i - 8) * (2 * V(prime[..]))
      && Cong(V(res[..]), V(old(res[..])), V(prime[..]))
    ensures V(old(res[..])) >= W(i - 7) * TWO257 && ok ==> res[i + 1] != 0
  {
    hide Normal, V, W, Subtracted;
    ghost var r: seq<nat>, p: seq<nat> := res[..], prime[..];
    ghost var fits := V(r) < W(i - 7) * TWO257;
    FirstCoefficient(r, p, i);
    var coef: u32 := res[i] / 0x10000 + (res[i + 1] * 0x4000) % TWO32;
    if coef >= TWO31 { return false; }
    var temp: u64 := SubtractMultiple(res, prime, i - 8, coef, r[i - 8..i + 2]);
    ghost var t := temp;
    temp := temp / TWO30;
    temp := temp + (TWO61 - TWO31) + res[i + 1];
    ghost var r1: seq<nat> := res[..];
    res[i + 1] := temp % TWO30;
    if fits { Reduced(r, r1, res[..], i, t, temp, p, coef); } else { NotReduced(r, r1, t, temp, p, coef); }
    ok := true;
  }

  lemma FirstCoefficient(r: seq<nat>, p: seq<nat>, i: nat)
    requires |r| == 18 && Normal(TWO30, r) && Modulus(p) && 8 <= i <= 16
    requires i < 16 ==> V(r) < W(i - 7) * TWO257
    ensures r[i] < TWO30 && r[i + 1] < TWO30 && Normal(TWO30, p) && |p| == 9
    ensures var y, coef := r[i - 8..i + 2], r[i] / 0x10000 + (r[i + 1] * 0x4000) % TWO32;
      if V(r) < W(i - 7) * TWO257
      then coef < TWO31 && 0 <= V(y) - coef * V(p) && V(y) - coef * V(p) + 1 <= 2 * V(p)
      else i == 16 && (coef >= TWO31 || TWO270 <= V(y) - coef * V(p) < W(10))
  {
    hide Pow, Val;
    var y := r[i - 8..i + 2];
    if V(r) < W(i - 7) * TWO257 {
      Window(r, i);
      Estimate(y, p, y[8] / 0x10000 + (y[9] * 0x4000) % TWO32);
    } else {
      ProductTooLarge(r, p, r[16] / 0x10000 + (r[17] * 0x4000) % TWO32);
      assert r[8..] == y;
    }
  }

  /** What is left is not below 2^270, so the last limb is not zero. */
  lemma NotReduced(r: seq<nat>, r1: seq<nat>, t: nat, t': nat, p: seq<nat>, coef: nat)
    requires |r| == 18 && |r1| == 18 && Modulus(p) && r1[17] == r[17]
    requires Normal(TWO30, r1[8..17]) && Subtracted(r1[8..17], t, r[8..18], p, coef)
    requires t' == t / TWO30 + (TWO61 - TWO31) + r[17]
    requires TWO270 <= V(r[8..18]) - coef * V(p) < W(10)
    ensures t' % TWO30 != 0
  {
    hide Val, Pow;
    WindowResult(r[8..18], r1[8..17], t, t', p, coef);
    ValAppend(TWO30, r1[8..17], t' % TWO30);
    ValBound(TWO30, r1[8..17]);
    Weights();
  }

  /** The nine-limb loop of bn_multiply_reduce_step: res[at..at + 9] -= coef * prime. */
  method SubtractMultiple(res: array<u32>, prime: array<u32>, at: nat, coef: u32, ghost y: seq<nat>)
    returns (temp: u64)
    requires res.Length == 18 && prime.Length == 9 && prime != res && at <= 8 && coef < TWO31
    requires Normal(TWO30, prime[..]) && |y| == 10 && y == res[at..at + 10]
    modifies res
    ensures temp < 2 * TWO61
    ensures forall l :: 0 <= l < at || at + 9 <= l < 18 ==> res[l] == old(res[l])
    ensures Normal(TWO30, res[at..at + 9])
    ensures Subtracted(res[at..at + 9], temp, y, prime[..], coef)
  {
    ghost var p: seq<nat> := prime[..];
    assert y[0] == res[at];
    AccumulatorRange(0, res[at], prime[0], coef);
    temp := TWO61 + res[at] - prime[0] * coef;
    SubtractedFirst(temp, y, p, coef);
    res[at] := temp % TWO30;
    assert res[at..at + 1] == [res[at]];
    for j := 1 to 9
      invariant temp < 2 * TWO61
      invariant forall l :: 0 <= l < at || at + j <= l < 18 ==> res[l] == old(res[l])
      invariant Normal(TWO30, res[at..at + j])
      invariant Subtracted(res[at..at + j], temp, y, p, coef)
    {
      ghost var out: seq<nat>, t := res[at..at + j], temp;
      assert y[j] == res[at + j] && p[j] == prime[j];
      temp := temp / TWO30;
      AccumulatorRange(t, y[j], p[j], coef);
      temp := temp + (TWO61 - TWO31) + res[at + j] - prime[j] * coef;
      SubtractedNext(out, t, temp, y, p, coef);
      res[at + j] := temp % TWO30;
      assert res[at..at + (j + 1)] == out + [res[at + j]];
    }
  }

  /** The last limb of a step closes the subtraction. */
  lemma Reduced(r: seq<nat>, r1: seq<nat>, r2: seq<nat>, i: nat, t: nat, t': nat, p: seq<nat>, coef: nat)
    requires |r| == 18 && |r1| == 18 && |r2| == 18 && 8 <= i <= 16 && Modulus(p)
    requires Normal(TWO30, r) && V(r) < W(i - 7) * TWO257
    requires (forall l :: 0 <= l < i - 8 || i + 1 <= l < 18 ==> r1[l] == r[l]) && r2 == r1[i + 1 := t' % TWO30]
    requires Normal(TWO30, r1[i - 8..i + 1]) && Subtracted(r1[i - 8..i + 1], t, r[i - 8..i + 2], p, coef)
    requires t' == t / TWO30 + (TWO61 - TWO31) + r[i + 1]
    requires 0 <= V(r[i - 8..i + 2]) - coef * V(p) && V(r[i - 8..i + 2]) - coef * V(p) + 1 <= 2 * V(p)
    ensures Normal(TWO30, r2) && V(r2) < W(i - 8) * (2 * V(p)) && Cong(V(r2), V(r), V(p))
  {
    var y, out, rest := r[i - 8..i + 2], r1[i - 8..i + 1] + [t' % TWO30], r[i + 2..];
    Window(r, i);
    WindowResult(y, r1[i - 8..i + 1], t, t', p, coef);
    assert r2 == r[..i - 8] + (out + rest);
    WindowValue(r[..i - 8], out, rest);
    WindowShift(V(r[..i - 8]), W(i - 8), V(y), coef, V(p));
  }

  lemma WindowValue(lo: seq<nat>, mid: seq<nat>, hi: seq<nat>)
    requires Normal(TWO30, lo) && Normal(TWO30, mid) && (forall j :: 0 <= j < |hi| ==> hi[j] == 0)
    ensures V(lo + (mid + hi)) == V(lo) + W(|lo|) * V(mid) && Normal(TWO30, lo + (mid + hi))
  {
    ValConcat(TWO30, lo, mid + hi);
    ValConcat(TWO30, mid, hi);
    ValZeros(TWO30, hi);
  }

  lemma WindowShift(lo: nat, w: nat, y: nat, coef: nat, p: nat)
    requires p > 0 && lo < w && 0 <= y - coef * p && y - coef * p + 1 <= 2 * p
    ensures lo + w * (y - coef * p) < w * (2 * p)
    ensures Cong(lo + w * (y - coef * p), lo + w * y, p)
  {
    var z := y - coef * p;
    MulMono(w, w, z + 1, 2 * p);
    Spread2(w, z, 1);
    ShiftedCong(lo, w, y, coef, p, z);
  }

  lemma ShiftedCong(lo: nat, w: nat, y: nat, coef: nat, p: nat, z: nat)
    requires p > 0 && y == z + coef * p
    ensures Cong(lo + w * z, lo + w * y, p)
  {
    Spread2(w, z, coef * p);
    Assoc(w, coef, p);
    CongBy(lo + w * y, lo + w * z, p, w * coef);
  }

  lemma WindowResult(y: seq<nat>, out: seq<nat>, t: nat, t': nat, p: seq<nat>, coef: nat)
    requires |y| == 10 && |out| == 9 && Normal(TWO30, out) && Modulus(p)
    requires Subtracted(out, t, y, p, coef) && t' == t / TWO30 + (TWO61 - TWO31) + y[9]
    requires 0 <= V(y) - coef * V(p) < W(10)
    ensures V(out + [t' % TWO30]) == V(y) - coef * V(p)
  {
    var out' := out + [t' % TWO30];
    assert p[..9] == p && y[..10] == y;
    CarryNext(TWO30, out, t / TWO30 - TWO31, V(y[..9]) - coef * V(p), y[9], t', TWO31);
    ValPrefix(TWO30, y, 9);
    ValBound(TWO30, out');
    Weights();
    assert W(10) == TWO30 * W(9);
    NoCarryAt(W(10), V(out'), t' / TWO30 - TWO31, V(y) - coef * V(p));
  }

  lemma NoCarryAt(w: nat, v: nat, carry: int, total: int)
    requires v < w && v + w * carry == total && 0 <= total < w
    ensures v == total
  {
    EuclidUnique(w, carry, v, 0, total);
  }

  /** Steps 16 to i + 1 have been done. */
  ghost predicate Halfway(r: seq<nat>, s: seq<nat>, p: seq<nat>, i: nat)
    requires 7 <= i <= 16 && V(p) > 0
  {
    && |s| == 18 && Normal(TWO30, s) && V(s) < W(i - 7) * TWO257 && Cong(V(s), V(r), V(p))
    && (i < 16 ==> V(s) < W(i - 7) * (2 * V(p)))
  }

  lemma ReductionStart(r: seq<nat>, p: seq<nat>)
    requires |r| == 18 && Normal(TWO30, r) && V(r) < W(9) * TWO257 && Modulus(p)
    ensures V(p) > 0 && Halfway(r, r, p, 16)
  {}

  lemma HalfwayBound(r: seq<nat>, s: seq<nat>, p: seq<nat>, i: nat)
    requires 8 <= i <= 16 && Modulus(p) && Halfway(r, s, p, i)
    ensures V(s) < W(i - 7) * TWO257
  {}

  lemma ReductionNext(r: seq<nat>, s: seq<nat>, s': seq<nat>, p: seq<nat>, i: nat)
    requires 8 <= i <= 16 && Modulus(p) && Halfway(r, s, p, i) && |s'| == 18 && Normal(TWO30, s')
    requires V(s') < W(i - 8) * (2 * V(p)) && Cong(V(s'), V(s), V(p))
    ensures Halfway(r, s', p, i - 1) && s'[i + 1] == 0
  {
    hide Normal, V, W;
    TopCleared(s', i, p);
    MulMono(W(i - 8), W(i - 8), 2 * V(p), TWO257);
  }

  lemma ReductionEnd(r: seq<nat>, s: seq<nat>, p: seq<nat>)
    requires Modulus(p) && Halfway(r, s, p, 7)
    ensures PartlyReduced(s[..9], p) && Cong(V(s[..9]), V(r), V(p))
  {
    hide V;
    Weights();
    TopCleared(s, 8, p);
  }

  /** bn_multiply_reduce: nine steps take a product below 2^527 to a partly reduced number. The bound the source
      names, 2^270 * 2 * prime, is a little lower. Any other product fails an assertion, and nothing is stored. */
  method Reduce(x: array<u32>, res: array<u32>, prime: array<u32>) returns (ok: bool)
    requires x.Length == 9 && res.Length == 18 && prime != res && prime != x && x != res && Modulus(prime[..])
    requires Normal(TWO30, res[..])
    modifies x, res
    ensures ok <==> V(old(res[..])) < W(9) * TWO257
    ensures ok ==> PartlyReduced(x[..], prime[..])
    ensures if ok then Cong(V(x[..]), V(old(res[..])), V(prime[..])) else x[..] == old(x[..])
  {
    hide Normal, V, W, Cong, Modulus, PartlyReduced, Halfway;
    ghost var r, p := res[..], prime[..];
    ghost var fits := V(r) < W(9) * TWO257;
    if fits { ReductionStart(r, p); }
    var i := 16;
    while i >= 8
      invariant 7 <= i <= 16 && x[..] == old(x[..]) && Normal(TWO30, res[..])
      invariant if i == 16 then res[..] == r else fits
      invariant fits ==> Halfway(r, res[..], p, i)
    {
      ghost var before := res[..];
      if fits { HalfwayBound(r, before, p, i); }
      ok := ReduceStep(res, prime, i);
      if !ok { return false; }
      if fits { ReductionNext(r, before, res[..], p, i); }
      if res[i + 1] != 0 { return false; }
      i := i - 1;
    }
    ReductionEnd(r, res[..], p);
    ghost var done := res[..];
    for j := 0 to 9
      invariant res[..] == done && x[..j] == done[..j]
    {
      x[j] := res[j];
    }
    assert x[..] == res[..9];
    ok := true;
  }

  lemma TopCleared(r: seq<nat>, i: nat, p: seq<nat>)
    requires |r| == 18 && Normal(TWO30, r) && 8 <= i <= 16 && Modulus(p) && V(r) < W(i - 8) * (2 * V(p))
    ensures r[i + 1] == 0
    ensures i == 8 ==> V(r) == V(r[..9])
  {
    Weights();
    MulMono(W(i - 8), W(i - 8), 2 * V(p), W(9));
    PowAdd(TWO30, i - 8, 9);
    ValHighZero(TWO30, r, i + 1);
  }

  /** A product that bn_multiply reduces. */
  predicate Reducible(k: nat, x: nat)
  {
    k * x < W(9) * TWO257
  }

  /** bn_multiply: x := k * x modulo the prime, partly reduced, exactly for products below the bound; all others fail an
      assertion. k and x may be the same number. */
  method Multiply(k: array<u32>, x: array<u32>, prime: array<u32>) returns (ok: bool)
    requires k.Length == 9 && x.Length == 9 && prime != x && Modulus(prime[..])
    requires Normal(TWO30, k[..]) && Normal(TWO30, x[..])
    modifies x
    ensures ok <==> Reducible(V(old(k[..])), V(old(x[..])))
    ensures ok ==> PartlyReduced(x[..], prime[..])
    ensures if ok then Cong(V(x[..]), V(old(k[..])) * V(old(x[..])), V(prime[..])) else x[..] == old(x[..])
  {
    hide V, Normal;
    var res := new u32[18];
    MultiplyLong(k, x, res);
    ok := Reduce(x, res, prime);
  }

  /** The bound the source asks of both operands, 180 * prime, is low enough; and a partly reduced operand goes with
      any normalized one. */
  lemma ProductFits(k: nat, x: nat, p: nat)
    requires 0 < p < TWO256
    ensures k < 180 * p && x < 180 * p ==> Reducible(k, x)
    ensures k < TWO270 && x < 2 * p ==> Reducible(k, x) && Reducible(x, k)
  {
    Weights();
    if k < 180 * p && x < 180 * p {
      StrictProduct(k, x, 180 * p);
      MulMono(p, TWO256, p, TWO256);
      assert (180 * p) * (180 * p) == 32400 * (p * p);
    }
    if k < TWO270 && x < 2 * p {
      MulMono(k, TWO270, x, TWO257 - 1);
      assert k * x == x * k;
    }
  }

  /** Before it is cut to 32 bits, the first estimate is below 2^31, as the source asserts, exactly for products below
      the bound. */
  lemma FirstEstimate(r: seq<nat>)
    requires |r| == 18 && Normal(TWO30, r)
    ensures r[16] / 0x10000 + r[17] * 0x4000 < TWO31 <==> V(r) < W(9) * TWO257
  {
    var lo := V(r[..16]);
    Weights();
    assert r[..18] == r;
    ValPrefix(TWO30, r, 17);
    ValPrefix(TWO30, r, 16);
    ValBound(TWO30, r[..16]);
    PowAdd(TWO30, 8, 8);
    PowAdd(TWO30, 8, 9);
    Factored(lo, r[16], r[17]);
    if r[16] / 0x10000 + r[17] * 0x4000 < TWO31 {
      MulMono(TWO240, TWO240, r[16] + TWO30 * r[17] + 1, 0x20000 * TWO30);
    } else {
      MulMono(TWO240, TWO240, 0x20000 * TWO30, r[16] + TWO30 * r[17]);
    }
  }

  lemma Factored(lo: nat, a: nat, b: nat)
    ensures lo + (TWO240 * TWO240) * a + (TWO240 * TWO270) * b == lo + TWO240 * (TWO240 * (a + TWO30 * b))
  {}

  lemma {:induction false} LargestValue(x: seq<nat>)
    requires forall i :: 0 <= i < |x| ==> x[i] == TWO30 - 1
    ensures V(x) == W(|x|) - 1
  {
    if |x| > 0 { LargestValue(x[1..]); }
  }

  /** A normalized number whose square is not below the bound: with nine limbs of 2^30 - 1 the estimate of the first
      reduction step, cut to 32 bits, is not below 2^31, against the assertion there. */
  lemma SquareTooLarge(x: seq<nat>, r: seq<nat>)
    requires |x| == 9 && forall i :: 0 <= i < 9 ==> x[i] == TWO30 - 1
    requires |r| == 18 && Normal(TWO30, r) && V(r) == V(x) * V(x)
    ensures Normal(TWO30, x) && !Reducible(V(x), V(x)) && r[16] / 0x10000 + (r[17] * 0x4000) % TWO32 >= TWO31
  {
    hide Pow, Val;
    var lo := V(r[..16]);
    Weights();
    LargestValue(x);
    FirstEstimate(r);
    assert r[..18] == r;
    ValPrefix(TWO30, r, 17);
    ValPrefix(TWO30, r, 16);
    ValBound(TWO30, r[..16]);
    PowAdd(TWO30, 8, 8);
    PowAdd(TWO30, 8, 9);
    Factored(lo, r[16], r[17]);
    TopLimbs(lo, r[16], r[17]);
  }

  lemma TopLimbs(lo: nat, a: nat, b: nat)
    requires lo < TWO240 * TWO240 && a < TWO30 && b < TWO30
    requires lo + TWO240 * (TWO240 * (a + TWO30 * b)) == (TWO270 - 1) * (TWO270 - 1)
    ensures a == TWO30 - 1 && b == TWO30 - 1
  {}
}
