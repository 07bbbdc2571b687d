/** The square-and-multiply loops of bignum.c: bn_sqrt and the slow form of bn_inverse. */
module Powers {
  import opened Arith
  import opened Digits
  import opened Bignum
  import opened Multiplication
  import opened Fermat

  /** What the loops know after n exponent bits worth acc: x holds base^(2^n), res holds base^acc. */
  ghost predicate Raised(x: nat, res: nat, p: nat, base: nat, n: nat, acc: nat)
    requires p > 0
  {
    Cong(x, Pow(base, Pow(2, n)), p) && Cong(res, Pow(base, acc), p)
  }

  /** A number that bn_multiply can square. */
  ghost predicate Factor(x: seq<nat>)
  {
    |x| == 9 && Normal(TWO30, x) && Reducible(V(x), V(x))
  }

  lemma PartlyReducedFactor(x: seq<nat>, p: seq<nat>)
    requires Modulus(p) && PartlyReduced(x, p)
    ensures Factor(x)
  {
    ProductFits(V(x), V(x), V(p));
  }

  lemma FactorTimes(x: seq<nat>, res: seq<nat>, p: seq<nat>)
    requires Modulus(p) && |x| == 9 && Normal(TWO30, x) && PartlyReduced(res, p)
    ensures Reducible(V(x), V(res))
  {
    Weights();
    ValBound(TWO30, x);
    ProductFits(V(x), V(res), V(p));
  }

  lemma SquareStep(x: nat, x': nat, base: nat, n: nat, p: nat)
    requires p > 0 && Cong(x, Pow(base, Pow(2, n)), p) && Cong(x', x * x, p)
    ensures Cong(x', Pow(base, Pow(2, n + 1)), p)
  {
    var e := Pow(2, n);
    CongMul(x, Pow(base, e), x, Pow(base, e), p);
    PowAdd(base, e, e);
    assert Pow(2, n + 1) == e + e;
  }

  lemma MultiplyStep(x: nat, res: nat, res': nat, base: nat, e: nat, acc: nat, p: nat)
    requires p > 0 && Cong(x, Pow(base, e), p) && Cong(res, Pow(base, acc), p) && Cong(res', x * res, p)
    ensures Cong(res', Pow(base, acc + e), p)
  {
    CongMul(x, Pow(base, e), res, Pow(base, acc), p);
    PowAdd(base, e, acc);
  }

  /** An exponent acc and a further limb at bit position n. */
  function Exponent(acc: nat, n: nat, limb: nat): nat
  {
    acc + Pow(2, n) * limb
  }

  /** The bits still in the limb, at their weight, are what acc still lacks. */
  lemma BitStep(acc: nat, n: nat, limb: nat)
    ensures Exponent(acc, n, limb) == Exponent(Exponent(acc, n, limb % 2), n + 1, limb / 2)
  {
    DivMod(limb, 2);
    var w, h, l := Pow(2, n), limb / 2, limb % 2;
    assert w * (h * 2 + l) == w * (h * 2) + w * l;
    assert w * (h * 2) == (2 * w) * h;
  }

  /** One turn of the inner loop: multiply if the lowest bit is set, then square. Only squaring can fail. */
  method RaiseByBit(
    x: array<u32>, res: array<u32>, prime: array<u32>, bit: u32, ghost base: nat, ghost n: nat, ghost acc: nat)
    returns (ok: bool)
    requires x.Length == 9 && res.Length == 9 && prime != x && prime != res && x != res && bit <= 1
    requires Modulus(prime[..]) && Normal(TWO30, x[..]) && PartlyReduced(res[..], prime[..])
    requires Raised(V(x[..]), V(res[..]), V(prime[..]), base, n, acc)
    modifies x, res
    ensures ok <==> Factor(old(x[..]))
    ensures ok ==> PartlyReduced(x[..], prime[..]) && PartlyReduced(res[..], prime[..])
    ensures ok ==> Raised(V(x[..]), V(res[..]), V(prime[..]), base, n + 1, Exponent(acc, n, bit))
  {
    hide V, Cong, Normal, Reducible, Pow;
    ghost var vx, vr, vp := V(x[..]), V(res[..]), V(prime[..]);
    if bit == 1 {
      FactorTimes(x[..], res[..], prime[..]);
      ok := Multiply(x, res, prime);
      assert ok;
      MultiplyStep(vx, vr, V(res[..]), base, Pow(2, n), acc, vp);
    }
    ok := Multiply(x, x, prime);
    if ok { SquareStep(vx, V(x[..]), base, n, vp); }
  }

  /** The inner loop of bn_sqrt and bn_inverse for limb number i of the exponent. In the last limb it
      stops as soon as no bit is left. */
  method RaiseByLimb(x: array<u32>, res: array<u32>, prime: array<u32>, e: u32, i: nat, ghost base: nat, ghost acc: nat)
    returns (ok: bool)
    requires x.Length == 9 && res.Length == 9 && prime != x && prime != res && x != res && i <= 8
    requires Modulus(prime[..]) && Normal(TWO30, x[..]) && PartlyReduced(res[..], prime[..])
    requires Raised(V(x[..]), V(res[..]), V(prime[..]), base, 30 * i, acc)
    modifies x, res
    ensures Factor(old(x[..])) ==> ok
    ensures ok && i < 8 ==> Factor(old(x[..])) && Factor(x[..])
    ensures ok ==> Normal(TWO30, x[..]) && PartlyReduced(res[..], prime[..])
    ensures ok ==> Cong(V(res[..]), Pow(base, Exponent(acc, 30 * i, e % TWO30)), V(prime[..]))
    ensures ok && i < 8 ==>
      Raised(V(x[..]), V(res[..]), V(prime[..]), base, 30 * (i + 1), Exponent(acc, 30 * i, e % TWO30))
  {
    hide V, Exponent, Cong, Pow, Normal, W, Factor;
    ghost var total := Exponent(acc, 30 * i, e % TWO30);
    var limb: u32 := e;
    ghost var done := acc;
    TwoTo30();
    var j := 0;
    while j < 30 && !(i == 8 && limb == 0)
      invariant 0 <= j <= 30
      invariant if j == 0 then x[..] == old(x[..]) else Factor(x[..]) && Factor(old(x[..]))
      invariant Normal(TWO30, x[..]) && PartlyReduced(res[..], prime[..])
      invariant Raised(V(x[..]), V(res[..]), V(prime[..]), base, 30 * i + j, done)
      invariant Remaining(done, 30 * i + j, limb, 30 - j, total)
      decreases 30 - j
    {
      RemainingStep(done, 30 * i + j, limb, 30 - j, total);
      ok := RaiseByBit(x, res, prime, limb % 2, base, 30 * i + j, done);
      if !ok { return false; }
      PartlyReducedFactor(x[..], prime[..]);
      done := Exponent(done, 30 * i + j, limb % 2);
      limb := limb / 2;
      j := j + 1;
    }
    RemainingEnd(done, 30 * i + j, limb, 30 - j, total);
    ok := true;
  }

  /** The low k bits of the limb are what done still lacks of the total. */
  ghost predicate Remaining(done: nat, n: nat, limb: nat, k: nat, total: nat)
  {
    Exponent(done, n, limb % Pow(2, k)) == total
  }

  lemma RemainingStep(done: nat, n: nat, limb: nat, k: nat, total: nat)
    requires k > 0 && Remaining(done, n, limb, k, total)
    ensures Remaining(Exponent(done, n, limb % 2), n + 1, limb / 2, k - 1, total)
  {
    BitStep(done, n, limb % Pow(2, k));
    LowBits(limb, k);
  }

  lemma RemainingEnd(done: nat, n: nat, limb: nat, k: nat, total: nat)
    requires (k == 0 || limb == 0) && Remaining(done, n, limb, k, total)
    ensures done == total
  {
    if k > 0 { DivModUnique(0, Pow(2, k), 0, 0); } else { assert Pow(2, 0) == 1; }
  }

  lemma LowBits(limb: nat, n: nat)
    requires n > 0
    ensures (limb % Pow(2, n)) % 2 == limb % 2
    ensures (limb % Pow(2, n)) / 2 == (limb / 2) % Pow(2, n - 1)
  {
    var w := Pow(2, n - 1);
    var q, r := limb / (2 * w), limb % (2 * w);
    DivMod(limb, 2 * w);
    DivMod(r, 2);
    assert limb == (q * w + r / 2) * 2 + r % 2 by { assert q * (2 * w) == (q * w) * 2; }
    DivModUnique(limb, 2, q * w + r / 2, r % 2);
    DivModUnique(limb / 2, w, q, r / 2);
  }

  /** bn_one. */
  method One9() returns (res: array<u32>)
    ensures fresh(res) && res.Length == 9 && Normal(TWO30, res[..]) && V(res[..]) == 1
  {
    res := new u32[9](i => if i == 0 then 1 else 0);
    assert res[..] == [1] + seq(8, _ => 0);
    ValConcat(TWO30, [1], seq(8, _ => 0));
    ValZeros(TWO30, seq(8, _ => 0));
    Single(1);
  }

  /** The carry bn_addi takes into limb i: sums are cut to 32 bits. */
  function CarryInto(s: seq<nat>, b: nat, i: nat): nat
    requires i <= |s|
  {
    if i == 0 then b else (s[i - 1] + CarryInto(s, b, i - 1)) % TWO32 / TWO30
  }

  /** What cutting the sums of the first n limbs loses. */
  function Lost(s: seq<nat>, b: nat, n: nat): nat
    requires n <= |s|
  {
    if n == 0 then 0 else Lost(s, b, n - 1) + W(n - 1) * ((s[n - 1] + CarryInto(s, b, n - 1)) / TWO32 * TWO32)
  }

  /** bn_addi, and bn_normalize with b == 0: adds a machine word and normalizes, modulo 2^270, less what the cut sums
      lose. */
  method AddI(a: array<u32>, b: u32)
    requires a.Length == 9
    modifies a
    ensures Normal(TWO30, a[..]) && V(a[..]) == (V(old(a[..])) + b - Lost(old(a[..]), b, 9)) % TWO270
  {
    hide Val, Pow, Carried, Lost, CarryInto;
    ghost var s: seq<nat> := a[..];
    SumStart(s, b);
    var tmp: u32 := b;
    for i := 0 to 9
      invariant tmp == CarryInto(s, b, i) && a[i..] == s[i..]
      invariant Normal(TWO30, a[..i]) && Carried(TWO30, a[..i], tmp, V(s[..i]) + b - Lost(s, b, i))
    {
      ghost var out: seq<nat>, t, total := a[..i], tmp, V(s[..i]) + b - Lost(s, b, i);
      assert a[i] == s[i] == old(a[..])[i];
      NextSum(out, total, s, b, t);
      tmp := (tmp + a[i]) % TWO32;
      a[i] := tmp % TWO30;
      assert a[..i + 1] == out + [a[i]];
      tmp := tmp / TWO30;
    }
    assert a[..9] == a[..] && s[..9] == s;
    Truncated(a[..], tmp, V(s) + b - Lost(s, b, 9));
  }

  lemma NextSum(out: seq<nat>, total: int, s: seq<nat>, b: nat, t: nat)
    requires |out| < |s| && t == CarryInto(s, b, |out|) && Carried(TWO30, out, t, total)
    requires total == V(s[..|out|]) + b - Lost(s, b, |out|)
    ensures var sum := (t + s[|out|]) % TWO32;
      && sum / TWO30 == CarryInto(s, b, |out| + 1)
      && Carried(TWO30, out + [sum % TWO30], sum / TWO30, V(s[..|out| + 1]) + b - Lost(s, b, |out| + 1))
  {
    hide Val, Pow, Carried, CarryInto, Lost;
    var i := |out|;
    var q := (t + s[i]) / TWO32;
    DivMod(t + s[i], TWO32);
    NextLost(s, b, i);
    CarryNext(TWO30, out, t, total, s[i] - q * TWO32, (t + s[i]) % TWO32, 0);
    ValPrefix(TWO30, s, i);
    LessProduct(W(i), s[i], q * TWO32);
  }

  lemma NextLost(s: seq<nat>, b: nat, i: nat)
    requires i < |s|
    ensures CarryInto(s, b, i + 1) == (s[i] + CarryInto(s, b, i)) % TWO32 / TWO30
    ensures Lost(s, b, i + 1) == Lost(s, b, i) + W(i) * ((s[i] + CarryInto(s, b, i)) / TWO32 * TWO32)
  {}

  lemma LessProduct(w: int, a: int, b: int)
    ensures w * (a - b) == w * a - w * b
  {}

  /** Nothing that matters is lost exactly if no sum outgrows 32 bits, in the lowest eight limbs: what the ninth loses
      is a multiple of 2^270. */
  lemma SumExact(s: seq<nat>, b: nat)
    requires |s| == 9 && Normal(TWO32, s) && b < TWO32
    ensures (V(s) + b - Lost(s, b, 9)) % TWO270 == (V(s) + b) % TWO270
      <==> forall i :: 0 <= i < 8 ==> s[i] + CarryInto(s, b, i) < TWO32
  {
    hide Val, Pow;
    var total, top := V(s) + b, (s[8] + CarryInto(s, b, 8)) / TWO32;
    Weights();
    LostBound(s, b, 7);
    LostStep(s, b, 7);
    LostNothing(s, b, 8);
    NextWeight(7);
    assert W(8) * (top * TWO32) == (4 * top) * TWO270;
    CongBy(total - Lost(s, b, 8), total - Lost(s, b, 9), TWO270, 4 * top);
    SameResidue(total, Lost(s, b, 8), TWO270);
  }

  lemma SameResidue(total: int, lost: nat, m: nat)
    requires lost < m
    ensures (total - lost) % m == total % m <==> lost == 0
  {
    if (total - lost) % m == total % m {
      DivMod(total, m);
      DivMod(total - lost, m);
      assert lost == (total / m - (total - lost) / m) * m;
      if lost > 0 { MulMono(1, total / m - (total - lost) / m, m, m); }
    }
  }

  lemma SumStart(s: seq<nat>, b: nat)
    ensures V(s[..0]) == 0 && CarryInto(s, b, 0) == b
    ensures Carried(TWO30, [], b, V(s[..0]) + b - Lost(s, b, 0))
  {}

  /** A carry is at most 3. */
  lemma CarrySmall(s: seq<nat>, b: nat, i: nat)
    requires 0 < i <= |s|
    ensures CarryInto(s, b, i) <= 3
  {}

  lemma NextWeight(i: nat)
    ensures W(i + 1) == TWO30 * W(i) && W(i) > 0 && W(i) * TWO32 > 0
  {}

  lemma LostStep(s: seq<nat>, b: nat, n: nat)
    requires n < |s| && Normal(TWO32, s) && b < TWO32
    ensures Lost(s, b, n + 1) == Lost(s, b, n) + if s[n] + CarryInto(s, b, n) < TWO32 then 0 else W(n) * TWO32
  {
    if n > 0 { CarrySmall(s, b, n); }
    assert (s[n] + CarryInto(s, b, n)) / TWO32 == if s[n] + CarryInto(s, b, n) < TWO32 then 0 else 1;
  }

  lemma {:induction false} LostBound(s: seq<nat>, b: nat, n: nat)
    requires n <= |s| && Normal(TWO32, s) && b < TWO32
    ensures Lost(s, b, n) < W(n) * TWO32
  {
    if n > 0 {
      LostBound(s, b, n - 1);
      LostStep(s, b, n - 1);
      NextWeight(n - 1);
    }
  }

  lemma {:induction false} LostNothing(s: seq<nat>, b: nat, n: nat)
    requires n <= |s| && Normal(TWO32, s) && b < TWO32
    ensures Lost(s, b, n) == 0 <==> forall i :: 0 <= i < n ==> s[i] + CarryInto(s, b, i) < TWO32
  {
    hide CarryInto, W;
    if n > 0 {
      LostNothing(s, b, n - 1);
      LostStep(s, b, n - 1);
      NextWeight(n - 1);
    }
  }

  /** Normalized limbs have room for a small number. */
  lemma SumOfNormal(s: seq<nat>, b: nat)
    requires |s| == 9 && Normal(TWO30, s) && b < TWO31
    ensures (V(s) + b - Lost(s, b, 9)) % TWO270 == (V(s) + b) % TWO270
  {
    forall i | 0 <= i < 8 ensures s[i] + CarryInto(s, b, i) < TWO32 { if i > 0 { CarrySmall(s, b, i); } }
    SumExact(s, b);
  }

  /** bn_rshift: halves a normalized number, rounding down. */
  method RShift(a: array<u32>)
    requires a.Length == 9 && Normal(TWO30, a[..])
    modifies a
    ensures Normal(TWO30, a[..]) && V(a[..]) == V(old(a[..])) / 2
  {
    ghost var s: seq<nat> := a[..];
    for i := 0 to 8
      invariant a[i..] == s[i..] && Normal(TWO30, a[..])
      invariant 2 * V(a[..i]) + s[0] % 2 == V(s[..i]) + W(i) * (s[i] % 2)
    {
      ghost var out: seq<nat> := a[..i];
      assert a[i] == s[i] && a[i + 1] == s[i + 1];
      HalveLimb(out, s, i);
      TopBit(a[i] / 2, a[i + 1] % 2);
      a[i] := Or(a[i] / 2, (a[i + 1] % 2) * 0x2000_0000);
      assert a[..i + 1] == out + [a[i]];
    }
    ghost var out: seq<nat> := a[..8];
    assert a[8] == s[8];
    HalveTop(out, s);
    a[8] := a[8] / 2;
    assert a[..] == out + [a[8]];
  }

  /** The bit of the next limb goes above the 29 bits left. */
  lemma TopBit(x: nat, bit: nat)
    requires x < 0x2000_0000
    ensures Or(x, bit * 0x2000_0000) == x + bit * 0x2000_0000
  {
    PowMul(2, 29, 1);
    PowAdd(2, 29, 1);
    TwoTo30();
    OrShifted(x, bit, 29);
  }

  lemma HalveTop(out: seq<nat>, s: seq<nat>)
    requires |s| == 9 && |out| == 8 && 2 * V(out) + s[0] % 2 == V(s[..8]) + W(8) * (s[8] % 2)
    ensures V(out + [s[8] / 2]) == V(s) / 2
  {
    ValAppend(TWO30, out, s[8] / 2);
    ValPrefix(TWO30, s, 8);
    assert s[..9] == s;
    Weights();
    assert 2 * V(out + [s[8] / 2]) + s[0] % 2 == V(s);
  }

  lemma HalveLimb(out: seq<nat>, s: seq<nat>, i: nat)
    requires |s| == 9 && i < 8 && |out| == i
    requires 2 * V(out) + s[0] % 2 == V(s[..i]) + W(i) * (s[i] % 2)
    ensures 2 * V(out + [s[i] / 2 + (s[i + 1] % 2) * 0x2000_0000]) + s[0] % 2
         == V(s[..i + 1]) + W(i + 1) * (s[i + 1] % 2)
  {
    var w, h, l, m := W(i), s[i] / 2, s[i] % 2, s[i + 1] % 2;
    ValAppend(TWO30, out, h + m * 0x2000_0000);
    ValPrefix(TWO30, s, i);
    assert s[i] == 2 * h + l;
    HalveWeights(w, h, l, m);
  }

  lemma HalveWeights(w: nat, h: nat, l: nat, m: nat)
    ensures 2 * (w * (h + m * 0x2000_0000)) + w * l == w * (2 * h + l) + (TWO30 * w) * m
  {
    Spread2(w, h, m * 0x2000_0000);
    Spread2(w, 2 * h, l);
  }

  /** The limbs below i, at their weights: the exponent consumed so far. */
  lemma ExponentGrows(s: seq<nat>, i: nat)
    requires i < |s|
    ensures V(s[..i + 1]) == Exponent(V(s[..i]), 30 * i, s[i])
    ensures s[i] < TWO30 ==> s[i] % TWO30 == s[i]
  {
    ValPrefix(TWO30, s, i);
    PowMul(2, 30, i);
    TwoTo30();
  }

  lemma TwoTo30()
    ensures Pow(2, 30) == TWO30
  {
    PowMul(2, 10, 3);
    assert Pow(2, 10) == 1024;
    assert Pow(1024, 3) == 1024 * (1024 * (1024 * Pow(1024, 0)));
  }

  method Copy(a: array<u32>) returns (c: array<u32>)
    requires a.Length == 9
    ensures fresh(c) && c.Length == 9 && c[..] == a[..]
  {
    c := new u32[9](i requires 0 <= i < 9 reads a => a[i]);
  }

  /** memcpy of a result over the number it comes from. */
  method CopyInto(x: array<u32>, res: array<u32>)
    requires x.Length == 9 && res.Length == 9 && x != res
    modifies x
    ensures x[..] == res[..]
  {
    for i := 0 to 9
      invariant x[..i] == res[..i]
    {
      x[i] := res[i];
    }
  }

  /** The exponent of bn_sqrt: (prime + 1) / 4. */
  method RootExponent(prime: array<u32>) returns (p: array<u32>)
    requires Modulus(prime[..])
    ensures fresh(p) && p.Length == 9 && Normal(TWO30, p[..]) && V(p[..]) == (V(prime[..]) + 1) / 4
  {
    p := Copy(prime);
    SumOfNormal(p[..], 1);
    AddI(p, 1);
    DivModUnique(V(prime[..]) + 1, TWO270, 0, V(prime[..]) + 1);
    RShift(p);
    RShift(p);
  }

  /** bn_sqrt: x^((prime + 1) / 4) modulo the prime, fully reduced, exactly for the normalized x that can be squared;
      all others fail an assertion of the first squaring. */
  method Sqrt(x: array<u32>, prime: array<u32>) returns (ok: bool)
    requires x.Length == 9 && prime != x && Modulus(prime[..]) && Normal(TWO30, x[..])
    modifies x
    ensures ok <==> Reducible(V(old(x[..])), V(old(x[..])))
    ensures ok ==> Normal(TWO30, x[..])
    ensures ok ==> V(x[..]) == Pow(V(old(x[..])), (V(prime[..]) + 1) / 4) % V(prime[..])
  {
    hide Pow, Exponent, Reducible;
    ghost var base, q: seq<nat> := V(x[..]), prime[..];
    var res := One9();
    var p := RootExponent(prime);
    ghost var e: seq<nat> := p[..];
    Start(base, V(q));
    for i := 0 to 9
      invariant prime[..] == q && p[..] == e && PartlyReduced(res[..], q) && Normal(TWO30, x[..])
      invariant if i == 0 then x[..] == old(x[..]) else Factor(old(x[..])) && (i < 9 ==> Factor(x[..]))
      invariant Cong(V(res[..]), Pow(base, V(e[..i])), V(q))
      invariant i < 9 ==> Raised(V(x[..]), V(res[..]), V(q), base, 30 * i, V(e[..i]))
    {
      ExponentGrows(e, i);
      ok := RaiseByLimb(x, res, prime, p[i], i, base, V(e[..i]));
      if !ok { return false; }
    }
    assert e[..9] == e;
    Mod(res, prime);
    CopyInto(x, res);
    ok := true;
  }

  lemma Start(base: nat, p: nat)
    requires p > 0
    ensures Cong(base, Pow(base, Pow(2, 0)), p) && Cong(1, Pow(base, 0), p)
  {
    assert Pow(2, 0) == 1;
    assert Pow(base, 1) == base * Pow(base, 0);
  }

  /** The exponent the slow bn_inverse works with. It is prime - 2 when the lowest limb of the prime is
      at least 2; otherwise the subtraction wraps and only 30 of the wrapped bits are read. */
  function InverseExponent(p: seq<nat>): nat
    requires |p| == 9 && V(p) >= 2
  {
    V(p) - 2 + if p[0] < 2 then TWO30 else 0
  }

  lemma InverseLimbs(p: seq<nat>)
    requires Modulus(p)
    ensures V(p[0 := (p[0] + TWO32 - 2) % TWO32 % TWO30]) == InverseExponent(p)
    ensures Normal(TWO30, p[0 := (p[0] + TWO32 - 2) % TWO32 % TWO30])
  {
    var d := (p[0] + TWO32 - 2) % TWO32;
    var q := p[0 := d % TWO30];
    assert q[1..] == p[1..];
    if p[0] < 2 {
      DivModUnique(d, TWO30, 3, d - 3 * TWO30);
    }
  }

  /** The slow bn_inverse: x^(prime - 2) modulo the prime, fully reduced, exactly for the normalized x that can be
      squared. */
  method InverseSlow(x: array<u32>, prime: array<u32>) returns (ok: bool)
    requires x.Length == 9 && prime != x && Modulus(prime[..]) && Normal(TWO30, x[..])
    modifies x
    ensures ok <==> Reducible(V(old(x[..])), V(old(x[..])))
    ensures ok ==> Normal(TWO30, x[..])
    ensures ok ==> V(x[..]) == Pow(V(old(x[..])), InverseExponent(prime[..])) % V(prime[..])
  {
    hide Pow, Exponent, Reducible;
    ghost var base, q: seq<nat> := V(x[..]), prime[..];
    ghost var e: seq<nat> := q[0 := (q[0] + TWO32 - 2) % TWO32 % TWO30];
    InverseLimbs(q);
    var res := One9();
    Start(base, V(q));
    for i := 0 to 9
      invariant prime[..] == q && PartlyReduced(res[..], q) && Normal(TWO30, x[..])
      invariant if i == 0 then x[..] == old(x[..]) else Factor(old(x[..])) && (i < 9 ==> Factor(x[..]))
      invariant Cong(V(res[..]), Pow(base, V(e[..i])), V(q))
      invariant i < 9 ==> Raised(V(x[..]), V(res[..]), V(q), base, 30 * i, V(e[..i]))
    {
      ExponentGrows(e, i);
      var limb: u32 := prime[i];
      if i == 0 { limb := (limb + TWO32 - 2) % TWO32; }
      assert limb % TWO30 == e[i];
      ok := RaiseByLimb(x, res, prime, limb, i, base, V(e[..i]));
      if !ok { return false; }
    }
    assert e[..9] == e;
    Mod(res, prime);
    CopyInto(x, res);
    ok := true;
  }

  /** x^(prime - 2) is the inverse of x modulo a prime. */
  lemma SlowInverseInverts(p: nat, x: nat)
    requires IsPrime(p) && !Divides(p, x)
    ensures Cong(x * (Pow(x, p - 2) % p), 1, p)
  {
    LittleTheorem(p, x);
    CongMod(Pow(x, p - 2), p);
    CongMul(x, x, Pow(x, p - 2), Pow(x, p - 2) % p, p);
    assert Pow(x, p - 1) == x * Pow(x, p - 2);
  }

  /** The slow bn_inverse gives the inverse exactly if the lowest limb of the prime is at least 2, so that taking 2
      from it does not wrap, or if the 2^30 that the wrapped limb adds to the exponent makes no difference to x. */
  lemma SlowInverseExact(p: seq<nat>, x: nat)
    requires Modulus(p) && IsPrime(V(p)) && !Divides(V(p), x)
    ensures Cong(x * (Pow(x, InverseExponent(p)) % V(p)), 1, V(p)) <==> p[0] >= 2 || Cong(Pow(x, TWO30), 1, V(p))
  {
    hide Pow, V, IsPrime;
    var m := V(p);
    var y, z := Pow(x, m - 2), if p[0] < 2 then Pow(x, TWO30) else 1;
    SlowInverseInverts(m, x);
    CongMod(y, m);
    CongMul(x, x, y, y % m, m);
    var r := Pow(x, InverseExponent(p));
    assert r == y * z by { PowAdd(x, m - 2, TWO30); }
    CongMod(r, m);
    CongMul(x, x, r, r % m, m);
    CongMul(x * y, 1, z, z, m);
    Assoc(x, y, z);
  }

  /** x^((prime + 1) / 4) is a square root of every square, for a prime that is 3 modulo 4. */
  lemma SqrtOfSquare(p: nat, y: nat)
    requires IsPrime(p) && p % 4 == 3
    ensures var r := Pow(y * y, (p + 1) / 4) % p; Cong(r * r, y * y, p)
  {
    var e := (p + 1) / 4;
    var r := Pow(y * y, e);
    CongMod(r, p);
    CongMul(r, r % p, r, r % p, p);
    assert Pow(y, 2) == y * (y * Pow(y, 0)) == y * y;
    PowMul(y, 2, e);
    PowAdd(y, 2 * e, 2 * e);
    assert 4 * e == (p - 1) + 2;
    PowAdd(y, p - 1, 2);
    if Divides(p, y) {
      CongMul(y, 0, y, y, p);
      CongMul(Pow(y, p - 1), Pow(y, p - 1), y * y, 0, p);
    } else {
      LittleTheorem(p, y);
      CongMul(Pow(y, p - 1), 1, y * y, y * y, p);
    }
  }

  ghost predicate IsSquare(x: nat, p: nat)
    requires p > 0
  {
    exists y: nat :: Cong(y * y, x, p)
  }

  /** For a prime that is 3 modulo 4, bn_sqrt gives a square root of x exactly if x has one. */
  lemma SqrtExact(p: nat, x: nat)
    requires IsPrime(p) && p % 4 == 3
    ensures var r := Pow(x, (p + 1) / 4) % p; Cong(r * r, x, p) <==> IsSquare(x, p)
  {
    var e := (p + 1) / 4;
    var r: nat := Pow(x, e) % p;
    if IsSquare(x, p) {
      var y: nat :| Cong(y * y, x, p);
      SqrtOfSquare(p, y);
      PowCong(y * y, x, e, p);
    }
    if Cong(r * r, x, p) { assert IsSquare(x, p); }
  }
}
