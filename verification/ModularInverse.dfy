/** The whole fast bn_inverse: reduction, repacking into 32-bit words, the almost inverse, division by
    the power of two it is off by, and repacking into 30-bit limbs. */
module ModularInverse {
  import opened Arith
  import opened Digits
  import opened Bignum
  import opened Register
  import opened FastInverse
  import opened Powers
  import opened Fermat

  // ---- repacking ----

  lemma WordWeight(i: nat)
    ensures X(i) == Pow(2, 32 * i)
  {
    TwoTo32(32);
    assert Pow(2, 0) == 1;
    PowMul(2, 32, i);
  }

  lemma LimbWeight(i: nat)
    ensures W(i) == Pow(2, 30 * i)
  {
    TwoTo30();
    PowMul(2, 30, i);
  }

  lemma WeightsAgree(i: nat)
    requires i <= 15
    ensures X(i) * Pow(2, 30 - 2 * i) == W(i + 1)
    ensures X(i) == W(i) * Pow(2, 2 * i)
  {
    hide *;
    WordWeight(i);
    LimbWeight(i);
    LimbWeight(i + 1);
    PowAdd(2, 32 * i, 30 - 2 * i);
    PowAdd(2, 30 * i, 2 * i);
    assert 32 * i + (30 - 2 * i) == 30 * (i + 1) && 30 * i + 2 * i == 32 * i;
  }

  /** Converts a fully reduced number from nine 30-bit limbs to eight 32-bit words. */
  method ToWords(x: array<u32>, out: array<u32>)
    requires x.Length == 9 && out.Length >= 8 && x != out && Normal(TWO30, x[..]) && V(x[..]) < TWO256
    modifies out
    ensures Val(TWO32, out[..8]) == V(x[..])
    ensures out[8..] == old(out[8..])
  {
    hide V, Or;
    ghost var s: seq<nat> := x[..];
    var temp32: u32 := x[0];
    assert s[..1] == [s[0]];
    Single(s[0]);
    TwoTo30();
    for i := 0 to 8
      invariant temp32 < Pow(2, 30 - 2 * i) && out[8..] == old(out[8..])
      invariant V(s[..i + 1]) == Val(TWO32, out[..i]) + X(i) * temp32
    {
      ghost var w: seq<nat>, t := out[..i], temp32;
      WordFromLimb(w, t, s, i);
      temp32 := Or(temp32, ShiftLeft(x[i + 1], 30 - 2 * i));
      out[i] := temp32;
      assert out[..i + 1] == w + [out[i]];
      temp32 := ShiftRight(x[i + 1], 2 + 2 * i);
    }
    assert s[..9] == s;
    WordsFit(Val(TWO32, out[..8]), temp32, V(s));
  }

  lemma WordsFit(v: nat, t: nat, total: nat)
    requires total == v + X(8) * t && total < TWO256
    ensures t == 0
  {
    TwoTo256();
  }

  lemma TwoTo256()
    ensures X(8) == TWO256
  {
    assert X(1) == TWO32 && X(2) == TWO32 * X(1);
    assert X(4) == TWO32 * (TWO32 * X(2));
    assert X(6) == TWO32 * (TWO32 * X(4));
    assert X(8) == TWO32 * (TWO32 * X(6));
  }

  lemma WordFromLimb(w: seq<nat>, t: nat, s: seq<nat>, i: nat)
    requires |s| == 9 && Normal(TWO30, s) && i < 8 && |w| == i && t < Pow(2, 30 - 2 * i)
    requires V(s[..i + 1]) == Val(TWO32, w) + X(i) * t
    ensures Or(t, ShiftLeft(s[i + 1], 30 - 2 * i)) < TWO32
    ensures ShiftRight(s[i + 1], 2 + 2 * i) < Pow(2, 30 - 2 * (i + 1))
    ensures V(s[..i + 2]) == Val(TWO32, w + [Or(t, ShiftLeft(s[i + 1], 30 - 2 * i))])
      + X(i + 1) * ShiftRight(s[i + 1], 2 + 2 * i)
  {
    hide ShiftRight, Or, ShiftLeft, Val, DroppedBits;
    var v, a, b := s[i + 1], 30 - 2 * i, 2 + 2 * i;
    var q, m := ShiftRight(v, b), DroppedBits(v, b);
    ShiftedWord(v, a);
    OrShifted(t, m, a);
    TwoTo32(a);
    ShiftSplit(v, b);
    MulLess(m, Pow(2, b), Pow(2, a));
    assert Pow(2, b) * Pow(2, a) == Pow(2, a) * Pow(2, b);
    HighBits30(v, b);
    ValAppend(TWO32, w, t + m * Pow(2, a));
    ValPrefix(TWO30, s, i + 1);
    WeightsAgree(i);
    LimbSplit(X(i), Pow(2, a), Pow(2, b), t, q, m);
  }

  lemma HighBits30(v: nat, b: nat)
    requires v < TWO30 && b <= 30
    ensures ShiftRight(v, b) < Pow(2, 30 - b)
  {
    ShiftSplit(v, b);
    TwoTo30();
    PowAdd(2, b, 30 - b);
    QuotientBelow(ShiftRight(v, b), Pow(2, b), Pow(2, 30 - b));
  }

  lemma LimbSplit(x: nat, a: nat, b: nat, t: nat, q: nat, m: nat)
    requires a * b == TWO32
    ensures x * t + (x * a) * (q * b + m) == x * (t + m * a) + (TWO32 * x) * q
  {
    assert x * (t + m * a) == x * t + x * (m * a);
    assert (x * a) * (q * b + m) == (x * a) * (q * b) + (x * a) * m;
    assert (x * a) * m == x * (m * a);
    assert (x * a) * (q * b) == ((a * b) * x) * q;
  }

  /** Word i of a number kept big-endian in limbs 1 to 8 of a register. */
  function Words(a: seq<nat>): (w: seq<nat>)
    requires |a| == 9
    ensures |w| == 8 && forall i :: 0 <= i < 8 ==> w[i] == a[8 - i]
  {
    Reverse(a[1..])
  }

  lemma WordsValue(a: seq<nat>)
    requires |a| == 9
    ensures Hi(a, 1) == Val(TWO32, Words(a))
  {
    BigEndianReverse(TWO32, a[1..]);
  }

  /** Converts eight 32-bit words back to nine 30-bit limbs. */
  method FromWords(a: array<u32>, x: array<u32>)
    requires a.Length == 9 && x.Length == 9 && a != x
    modifies x
    ensures Normal(TWO30, x[..]) && V(x[..]) == Hi(a[..], 1)
  {
    ghost var w: seq<nat> := Words(a[..]);
    WordsValue(a[..]);
    var temp32: u32 := 0;
    assert Pow(2, 0) == 1 && w[..0] == [];
    for i := 0 to 8
      invariant temp32 < Pow(2, 2 * i) && Normal(TWO30, x[..i])
      invariant Val(TWO32, w[..i]) == V(x[..i]) + W(i) * temp32
    {
      ghost var out: seq<nat>, t := x[..i], temp32;
      assert a[8 - i] == w[i];
      LimbFromWord(out, t, w, i);
      x[i] := Or(ShiftLeft(a[8 - i], 2 * i) % TWO30, temp32);
      assert x[..i + 1] == out + [x[i]];
      temp32 := ShiftRight(a[8 - i], 30 - 2 * i);
    }
    ghost var out: seq<nat> := x[..8];
    x[8] := temp32;
    assert x[..] == out + [x[8]];
    ValAppend(TWO30, out, x[8]);
    assert w[..8] == w;
    SixteenBits();
  }

  lemma SixteenBits()
    ensures Pow(2, 16) == 0x10000
  {
    PowMul(2, 8, 2);
    assert Pow(2, 8) == 256;
    assert Pow(256, 2) == 256 * (256 * Pow(256, 0));
  }

  /** The bits a word keeps when it is shifted left and masked to 30 bits. */
  lemma MaskedShift(w: nat, j: nat)
    requires j <= 30
    ensures ShiftLeft(w, j) % TWO30 == DroppedBits(w, 30 - j) * Pow(2, j)
    ensures DroppedBits(w, 30 - j) * Pow(2, j) < TWO30
  {
    hide Pow, DroppedBits, ShiftRight, ShiftLeft;
    var y := w * Pow(2, j);
    ShiftLeftIsProduct(w, j);
    DivMod(y, TWO32);
    assert y == (4 * (y / TWO32)) * TWO30 + y % TWO32;
    CongBy(y, y % TWO32, TWO30, 4 * (y / TWO32));
    TwoTo30();
    PowAdd(2, j, 30 - j);
    ShiftSplit(w, 30 - j);
    KeptBits(ShiftRight(w, 30 - j), DroppedBits(w, 30 - j), Pow(2, j), Pow(2, 30 - j));
    DivModUnique(y, TWO30, ShiftRight(w, 30 - j), DroppedBits(w, 30 - j) * Pow(2, j));
  }

  lemma KeptBits(q: nat, m: nat, w: nat, u: nat)
    requires w * u == TWO30 && m < u
    ensures (q * u + m) * w == q * TWO30 + m * w && m * w < TWO30
  {
    MulLess(m, u, w);
    assert u * w == w * u;
    assert (q * u) * w == q * (w * u);
    assert (q * u + m) * w == (q * u) * w + m * w;
  }

  lemma LimbFromWord(out: seq<nat>, t: nat, w: seq<nat>, i: nat)
    requires |w| == 8 && i < 8 && |out| == i && w[i] < TWO32 && t < Pow(2, 2 * i)
    requires Val(TWO32, w[..i]) == V(out) + W(i) * t
    ensures Or(ShiftLeft(w[i], 2 * i) % TWO30, t) < TWO30
    ensures ShiftRight(w[i], 30 - 2 * i) < Pow(2, 2 * (i + 1))
    ensures Val(TWO32, w[..i + 1])
      == V(out + [Or(ShiftLeft(w[i], 2 * i) % TWO30, t)]) + W(i + 1) * ShiftRight(w[i], 30 - 2 * i)
  {
    hide ShiftRight, Or, Val, DroppedBits;
    var j := 2 * i;
    var q, m := ShiftRight(w[i], 30 - j), DroppedBits(w[i], 30 - j);
    LimbPieces(w[i], t, j);
    HighBits(w[i], 30 - j);
    ValAppend(TWO30, out, t + m * Pow(2, j));
    ValPrefix(TWO32, w, i);
    WeightsAgree(i);
    WordPieces(W(i), Pow(2, j), Pow(2, 30 - j), t, q, m);
  }

  lemma LimbPieces(w: nat, t: nat, j: nat)
    requires j <= 30 && t < Pow(2, j)
    ensures Or(ShiftLeft(w, j) % TWO30, t) == t + DroppedBits(w, 30 - j) * Pow(2, j) < TWO30
    ensures w == ShiftRight(w, 30 - j) * Pow(2, 30 - j) + DroppedBits(w, 30 - j)
    ensures Pow(2, j) * Pow(2, 30 - j) == TWO30
  {
    MaskedShift(w, j);
    OrShifted(t, DroppedBits(w, 30 - j), j);
    ShiftSplit(w, 30 - j);
    TwoTo30();
    PowAdd(2, j, 30 - j);
    RoomBelow(t, DroppedBits(w, 30 - j), Pow(2, j), Pow(2, 30 - j));
  }

  lemma RoomBelow(t: nat, m: nat, w: nat, u: nat)
    requires t < w && m < u && w * u == TWO30
    ensures t + m * w < TWO30
  {
    MulLess(m, u, w);
    assert u * w == w * u;
  }

  lemma WordPieces(x: nat, a: nat, b: nat, t: nat, q: nat, m: nat)
    requires a * b == TWO30
    ensures x * t + (x * a) * (q * b + m) == x * (t + m * a) + (TWO30 * x) * q
  {
    assert x * (t + m * a) == x * t + x * (m * a);
    assert (x * a) * (q * b + m) == (x * a) * (q * b) + (x * a) * m;
    assert (x * a) * m == x * (m * a);
    assert (x * a) * (q * b) == ((a * b) * x) * q;
  }

  // ---- dividing by a power of two ----

  /** What the Newton-like iteration for -1 / prime keeps modulo 2^32. */
  ghost predicate Converging(inverse: nat, amone: nat, a: nat, t: nat)
  {
    Cong(inverse * a, amone * amone - 1, TWO32) && Divides(Pow(2, t), amone)
  }

  lemma ConvergingStart(a: nat)
    requires a % 2 == 1 && a < TWO32
    ensures Converging((a + TWO32 - 2) % TWO32, a - 1, a, 1)
  {
    CongMod(a + TWO32 - 2, TWO32);
    CongMul(a + TWO32 - 2, (a + TWO32 - 2) % TWO32, a, a, TWO32);
    assert (a + TWO32 - 2) * a == ((a - 1) * (a - 1) - 1) + a * TWO32;
    CongBy((a + TWO32 - 2) * a, (a - 1) * (a - 1) - 1, TWO32, a);
    assert Pow(2, 1) == 2;
  }

  lemma ConvergingNext(inverse: nat, amone: nat, a: nat, t: nat)
    requires Converging(inverse, amone, a, t) && 0 < t <= 32
    ensures var amone' := (amone * amone) % TWO32;
            Converging((inverse * ((amone' + 1) % TWO32)) % TWO32, amone', a, if 2 * t <= 32 then 2 * t else 32)
  {
    var sq := amone * amone;
    var m := sq % TWO32;
    CongMod(sq, TWO32);
    CongMod(m + 1, TWO32);
    var inc := (m + 1) % TWO32;
    CongMod(inverse * inc, TWO32);
    NewtonProduct(inverse, inc, m, sq, a);
    CongMul(inverse * inc, (inverse * inc) % TWO32, a, a, TWO32);
    SquareDivides(amone, t);
  }

  lemma NewtonProduct(inverse: nat, inc: nat, m: nat, sq: nat, a: nat)
    requires Cong(inverse * a, sq - 1, TWO32) && Cong(sq, m, TWO32) && Cong(inc, m + 1, TWO32)
    ensures Cong((inverse * inc) * a, m * m - 1, TWO32)
  {
    CongAdd(sq, m, 1, 1, TWO32);
    CongMul(inverse * a, m - 1, inc, m + 1, TWO32);
    assert (inverse * inc) * a == (inverse * a) * inc;
    assert (m - 1) * (m + 1) == m * m - 1;
  }

  lemma SquareDivides(x: nat, t: nat)
    requires Divides(Pow(2, t), x) && 0 < t <= 32
    ensures Divides(Pow(2, if 2 * t <= 32 then 2 * t else 32), (x * x) % TWO32)
  {
    PowAdd(2, t, t);
    SquareMultiple(Pow(2, t), x, Pow(2, 2 * t));
    PowDivides(if 2 * t <= 32 then 2 * t else 32, 2 * t, (x * x) / Pow(2, 2 * t), x * x);
  }

  lemma PowDivides(e: nat, n: nat, c: nat, y: nat)
    requires e <= n && e <= 32 && y == Pow(2, n) * c
    ensures Divides(Pow(2, e), y % TWO32)
  {
    PowAdd(2, e, n - e);
    TwoTo32(e);
    MultipleModMultiple(Pow(2, e), Pow(2, n - e), c, Pow(2, 32 - e), y);
  }

  lemma SquareMultiple(w: nat, x: nat, w2: nat)
    requires w > 0 && Divides(w, x) && w2 == w * w > 0
    ensures x * x == w2 * ((x * x) / w2)
  {
    var q := x / w;
    DivMod(x, w);
    SquareOfProduct(q, w);
    assert w2 * (q * q) == (q * q) * w2;
    DivModUnique(x * x, w2, q * q, 0);
  }

  lemma SquareOfProduct(q: nat, w: nat)
    ensures (q * w) * (q * w) == (w * w) * (q * q)
  {}

  lemma MultipleModMultiple(d: nat, b: nat, c: nat, f: nat, y: nat)
    requires d > 0 && d * f == TWO32 && y == (d * b) * c
    ensures Divides(d, y % TWO32)
  {
    DivMod(y, TWO32);
    Assoc(d, b, c);
    Assoc(d, f, y / TWO32);
    assert y % TWO32 == d * (b * c - f * (y / TWO32));
    DividesBy(d, y % TWO32, b * c - f * (y / TWO32));
  }

  /** The iteration of the source for -1 / a modulo 2^32. */
  method NegativeInverse(a: u32) returns (inverse: u32)
    requires a % 2 == 1
    ensures Cong(inverse * a, -1, TWO32)
  {
    hide Cong;
    var amone: u32 := a - 1;
    inverse := (a + TWO32 - 2) % TWO32;
    ConvergingStart(a);
    ghost var t := 1;
    while amone != 0
      invariant 0 < t <= 32 && Converging(inverse, amone, a, t)
      decreases 32 - t
    {
      if t == 32 {
        TwoTo32(32);
        assert Pow(2, 0) == 1;
        DivModUnique(amone, Pow(2, 32), 0, amone);
      }
      ConvergingNext(inverse, amone, a, t);
      amone := (amone as int * amone) % TWO32;
      inverse := (inverse as int * ((amone + 1) % TWO32)) % TWO32;
      t := if 2 * t <= 32 then 2 * t else 32;
    }
    assert amone * amone - 1 == -1;
  }

  /** The words of (s + factor * p) / 2^j so far: out, and an accumulator t. */
  ghost predicate Divided(out: seq<nat>, t: nat, s: seq<nat>, p: seq<nat>, factor: nat, j: nat)
    requires |out| < |s| && |out| < |p|
  {
    Val(TWO32, s[..|out| + 1]) + factor * Val(TWO32, p[..|out| + 1]) == Pow(2, j) * (Val(TWO32, out) + X(|out|) * t)
  }

  lemma DividedFirst(s: seq<nat>, p: seq<nat>, factor: nat, j: nat, t: nat)
    requires |s| > 0 && |p| > 0 && MulAdd(s[0], p[0], factor) == t * Pow(2, j)
    ensures Divided([], t, s, p, factor, j)
  {
    assert s[..1] == [s[0]] && p[..1] == [p[0]];
    assert Val(TWO32, [s[0]]) == s[0] + TWO32 * Val(TWO32, [s[0]][1..]);
    assert Val(TWO32, [p[0]]) == p[0] + TWO32 * Val(TWO32, [p[0]][1..]);
    assert factor * p[0] == p[0] * factor;
  }

  lemma DividedNext(out: seq<nat>, t: nat, s: seq<nat>, p: seq<nat>, factor: nat, j: nat, t': nat)
    requires j <= 32 && |out| + 1 < |s| && |out| + 1 < |p| && Divided(out, t, s, p, factor, j)
    requires t' == t + Scale(MulAdd(s[|out| + 1], p[|out| + 1], factor), 32 - j)
    ensures Divided(out + [t' % TWO32], t' / TWO32, s, p, factor, j)
  {
    hide Val, Pow;
    var i, x := |out|, X(|out|);
    ValAppend(TWO32, out, t' % TWO32);
    ValPrefix(TWO32, s, i + 1);
    ValPrefix(TWO32, p, i + 1);
    assert X(i + 1) == TWO32 * x by { WeightNext(i); }
    TwoTo32(j);
    DividedWeighed(Pow(2, j), Pow(2, 32 - j), x, t, t', factor, Val(TWO32, s[..i + 1]), Val(TWO32, p[..i + 1]),
      s[i + 1], p[i + 1], Val(TWO32, out));
  }

  lemma WeightNext(i: nat)
    ensures X(i + 1) == TWO32 * X(i)
  {}

  /** One more limb s and p of the number to divide, and one more limb of the quotient. */
  lemma DividedWeighed(w: nat, u: nat, x: nat, t: nat, t': nat, f: nat, ss: nat, ps: nat, s: nat, p: nat, out: nat)
    requires w * u == TWO32 && ss + f * ps == w * (out + x * t) && t' == t + (s + p * f) * u
    ensures ss + TWO32 * x * s + f * (ps + TWO32 * x * p)
      == w * (out + x * (t' % TWO32) + TWO32 * x * (t' / TWO32))
  {
    CarryStep(TWO32, x, t');
    DividedTerm(w, u, x, t, s + p * f);
    FactorTerm(f, ps, TWO32 * x, p, s);
    Spread2(w, out, x * t');
    Spread2(w, out, x * t);
  }

  lemma DividedTerm(w: nat, u: nat, x: nat, t: nat, sum: nat)
    requires w * u == TWO32
    ensures w * (x * (t + sum * u)) == w * (x * t) + (TWO32 * x) * sum
  {
    Spread2(x, t, sum * u);
    Spread2(w, x * t, x * (sum * u));
    assert w * (x * (sum * u)) == ((w * u) * x) * sum;
  }

  lemma FactorTerm(f: nat, v: nat, x: nat, p: nat, s: nat)
    ensures f * (v + x * p) + x * s == f * v + x * (s + p * f)
  {
    Spread2(f, v, x * p);
    Spread2(x, s, p * f);
    assert f * (x * p) == x * (p * f);
  }

  /** The factor that makes s + factor * prime a multiple of 2^j. */
  lemma FactorWorks(s: nat, p: nat, inverse: nat, j: nat, factor: nat)
    requires j <= 32 && Cong(inverse * p, -1, TWO32)
    requires factor == DroppedBits((inverse * s) % TWO32, j)
    ensures DroppedBits(MulAdd(s, p, factor), j) == 0
  {
    var w, y := Pow(2, j), inverse * s;
    TwoTo32(j);
    CongDown(inverse * p, -1, w, Pow(2, 32 - j));
    CongMod(y, TWO32);
    CongDown(y, y % TWO32, w, Pow(2, 32 - j));
    ShiftIsDivision(y % TWO32, j);
    CongMod(y % TWO32, w);
    Annihilates(s, p, inverse, w, factor);
    ShiftIsDivision(MulAdd(s, p, factor), j);
  }

  lemma Annihilates(s: nat, p: nat, inverse: nat, w: nat, f: nat)
    requires w > 0 && Cong(inverse * p, -1, w) && Cong(inverse * s, f, w)
    ensures Divides(w, MulAdd(s, p, f))
  {
    CongMul(p, p, inverse * s, f, w);
    CongMul(inverse * p, -1, s, s, w);
    assert p * (inverse * s) == (inverse * p) * s;
    CongAdd(s, s, p * f, -1 * s, w);
    DivModUnique(0, w, 0, 0);
  }

  /** A congruence modulo 2^32 holds modulo any divisor of it. */
  lemma CongDown(a: int, b: int, w: nat, u: nat)
    requires w > 0 && w * u == TWO32 && Cong(a, b, TWO32)
    ensures Cong(a, b, w)
  {
    var q := CongWitness(a, b, TWO32);
    assert q * TWO32 == (q * u) * w;
    CongBy(a, b, w, q * u);
  }

  /** No sum of the division loop outgrows 64 bits, and no quotient 32 bits. */
  lemma WordSumFits(s: nat, p: nat, factor: nat, j: nat)
    requires s < TWO32 && p < TWO32 && factor < Pow(2, j) && 0 < j <= 32
    ensures MulAdd(s, p, factor) < TWO64 && Scale(MulAdd(s, p, factor), 32 - j) <= (TWO32 - 1) * TWO32
    ensures ShiftRight(MulAdd(s, p, factor), j) < TWO32
  {
    var sum := MulAdd(s, p, factor);
    TwoTo32(j);
    PowUpTo32(j);
    SumBound(s, p, factor, Pow(2, j));
    SumShifted(sum, Pow(2, j), Pow(2, 32 - j));
    ShiftSplit(sum, j);
    QuotientSmall(ShiftRight(sum, j), Pow(2, j), sum);
  }

  lemma SumBound(s: nat, p: nat, f: nat, w: nat)
    requires s < TWO32 && p < TWO32 && f < w
    ensures MulAdd(s, p, f) <= (TWO32 - 1) * w
  {
    MulMono(p, TWO32 - 1, f, w - 1);
  }

  lemma SumShifted(sum: nat, w: nat, u: nat)
    requires sum <= (TWO32 - 1) * w && w * u == TWO32
    ensures sum * u <= (TWO32 - 1) * TWO32
  {
    MulMono(sum, (TWO32 - 1) * w, u, u);
    Assoc(TWO32 - 1, w, u);
  }

  lemma PowUpTo32(j: nat)
    requires j <= 32
    ensures Pow(2, j) <= TWO32
  {
    TwoTo32(32);
    assert Pow(2, 0) == 1;
    if j < 32 { PowStrict(2, j, 32); }
  }

  lemma QuotientSmall(q: nat, w: nat, sum: nat)
    requires q * w <= sum <= (TWO32 - 1) * w && w > 0
    ensures q < TWO32
  {
    if q >= TWO32 { MulLess(TWO32 - 1, q, w); }
  }

  lemma NextWord(out: seq<nat>, t: nat, s: seq<nat>, p: seq<nat>, factor: nat, j: nat)
    requires 0 < j <= 32 && |out| + 1 < |s| && |out| + 1 < |p| && Divided(out, t, s, p, factor, j)
    requires t < TWO32 && factor < Pow(2, j) && Normal(TWO32, s) && Normal(TWO32, p)
    ensures var t' := t + Scale(MulAdd(s[|out| + 1], p[|out| + 1], factor), 32 - j);
            t' < TWO64 && Divided(out + [t' % TWO32], t' / TWO32, s, p, factor, j)
  {
    WordSumFits(s[|out| + 1], p[|out| + 1], factor, j);
    DividedNext(out, t, s, p, factor, j, t + Scale(MulAdd(s[|out| + 1], p[|out| + 1], factor), 32 - j));
  }

  /** The seven-word loop of a division step. */
  method DivideWords(a: array<u32>, pp: array<u32>, factor: u32, j: nat, first: u64, ghost s: seq<nat>)
    returns (temp: u64)
    requires a.Length == 9 && pp.Length == 8 && a != pp && 0 < j <= 32 && factor < Pow(2, j) && first < TWO32
    requires s == Words(a[..]) && Divided([], first, s, pp[..], factor, j)
    modifies a
    ensures temp < TWO32 && Divided(Reverse(a[2..]), temp, s, pp[..], factor, j)
  {
    hide Val, Pow, Divided, Scale, MulAdd;
    ghost var p: seq<nat> := pp[..];
    temp := first;
    ghost var out: seq<nat> := [];
    for i := 0 to 7
      invariant temp < TWO32 && |out| == i
      invariant forall l :: i <= l < 8 ==> a[8 - l] == s[l]
      invariant forall l :: 0 <= l < i ==> a[8 - l] == out[l]
      invariant Divided(out, temp, s, p, factor, j)
    {
      NextWord(out, temp, s, p, factor, j);
      temp := temp + Scale(MulAdd(a[8 - (i + 1)], pp[i + 1], factor), 32 - j);
      a[8 - i] := temp % TWO32;
      out := out + [temp % TWO32];
      temp := temp / TWO32;
    }
    assert Reverse(a[2..]) == out;
  }

  lemma ReversePrepend(d: nat, s: seq<nat>)
    ensures Reverse([d] + s) == Reverse(s) + [d]
  {}

  /** Divides s by 2^j modulo the prime, for 0 < j <= 32: the body of the loop of the source with
      j == 32, and its last step with j < 32. */
  method DivideStep(a: array<u32>, pp: array<u32>, inverse: u32, j: nat)
    requires a.Length == 9 && pp.Length == 8 && a != pp && 0 < j <= 32
    requires Cong(inverse as int * pp[0], -1, TWO32) && Hi(a[..], 1) <= Val(TWO32, pp[..])
    modifies a
    ensures Hi(a[..], 1) <= Val(TWO32, pp[..])
    ensures exists f: nat :: Pow(2, j) * Hi(a[..], 1) == Hi(old(a[..]), 1) + f * Val(TWO32, pp[..])
  {
    hide Hi, Val, DroppedBits, Pow, ShiftRight, Reverse;
    ghost var s: seq<nat>, p: seq<nat> := Words(a[..]), pp[..];
    WordsValue(a[..]);
    var product: u32 := (inverse as int * a[8]) % TWO32;
    ShiftSplit(product, j);
    var factor: u32 := DroppedBits(product, j);
    FactorWorks(s[0], p[0], inverse, j, factor);
    WordSumFits(s[0], p[0], factor, j);
    var sum: u64 := MulAdd(a[8], pp[0], factor);
    assert DroppedBits(sum, j) == 0;
    ShiftSplit(sum, j);
    DividedFirst(s, p, factor, j, ShiftRight(sum, j));
    var temp := DivideWords(a, pp, factor, j, ShiftRight(sum, j), s);
    ghost var out: seq<nat> := a[2..];
    a[1] := temp;
    DividedEnd(Reverse(out), temp, s, p, factor, j);
    ReversePrepend(temp, out);
    assert a[1..] == [temp] + out;
    WordsValue(a[..]);
    QuotientBelowPrime(Pow(2, j), Hi(a[..], 1), Val(TWO32, s), factor, Val(TWO32, p));
  }

  lemma DividedEnd(out: seq<nat>, t: nat, s: seq<nat>, p: seq<nat>, factor: nat, j: nat)
    requires |out| == 7 && |s| == 8 && |p| == 8 && Divided(out, t, s, p, factor, j)
    ensures Pow(2, j) * Val(TWO32, out + [t]) == Val(TWO32, s) + factor * Val(TWO32, p)
  {
    hide Val, Pow;
    assert s[..8] == s && p[..8] == p;
    ValAppend(TWO32, out, t);
  }

  lemma QuotientBelowPrime(w: nat, r: nat, s: nat, f: nat, p: nat)
    requires w * r == s + f * p && s <= p && f < w
    ensures r <= p
  {
    MulMono(f, w - 1, p, p);
    assert (w - 1) * p == w * p - p;
    assert w * r == r * w && w * p == p * w;
    if r > p { MulLess(p, r, w); }
  }

  /** One division step takes an almost inverse for 2^k to one for 2^(k - j). */
  lemma CloserInverse(p: nat, x: int, s: nat, s': nat, f: nat, k: nat, j: nat)
    requires IsPrime(p) && p > TWO32 && 0 < j <= 32 && j <= k
    requires Cong(x * s, Pow(2, k), p) && Pow(2, j) * s' == s + f * p
    ensures Cong(x * s', Pow(2, k - j), p)
  {
    var w := Pow(2, j);
    PowAdd(2, j, k - j);
    PowUpTo32(j);
    DivModUnique(w, p, 0, w);
    assert w * (x * s') == x * s + (x * f) * p by { Regrouped(w, x, s', s, f, p); }
    CongBy(w * (x * s'), x * s, p, x * f);
    CancelFactor(p, w, x * s', Pow(2, k - j));
  }

  lemma Regrouped(w: int, x: int, r: int, s: int, f: int, p: int)
    requires w * r == s + f * p
    ensures w * (x * r) == x * s + (x * f) * p
  {
    assert w * (x * r) == x * (w * r);
    assert x * (s + f * p) == x * s + x * (f * p);
  }

  /** Takes the factor 2^k out of an almost inverse. */
  method DivideOut(a: array<u32>, pp: array<u32>, k: nat, ghost x: int)
    requires a.Length == 9 && pp.Length == 8 && a != pp && pp[0] % 2 == 1
    requires IsPrime(Val(TWO32, pp[..])) && Val(TWO32, pp[..]) > TWO32 && Hi(a[..], 1) <= Val(TWO32, pp[..])
    requires Cong(x * Hi(a[..], 1), Pow(2, k), Val(TWO32, pp[..]))
    modifies a
    ensures Hi(a[..], 1) < Val(TWO32, pp[..])
    ensures Cong(x * Hi(a[..], 1), 1, Val(TWO32, pp[..]))
  {
    ghost var p := Val(TWO32, pp[..]);
    var inverse := NegativeInverse(pp[0]);
    var left := k;
    while left >= 32
      invariant 0 <= left && Hi(a[..], 1) <= p && Cong(x * Hi(a[..], 1), Pow(2, left), p)
    {
      ghost var s := Hi(a[..], 1);
      DivideStep(a, pp, inverse, 32);
      ghost var f: nat :| Pow(2, 32) * Hi(a[..], 1) == s + f * p;
      CloserInverse(p, x, s, Hi(a[..], 1), f, left, 32);
      left := left - 32;
    }
    if left > 0 {
      ghost var s := Hi(a[..], 1);
      DivideStep(a, pp, inverse, left);
      ghost var f: nat :| Pow(2, left) * Hi(a[..], 1) == s + f * p;
      CloserInverse(p, x, s, Hi(a[..], 1), f, left, left);
    }
    assert Pow(2, 0) == 1;
    NotThePrime(p, x, Hi(a[..], 1));
  }

  lemma NotThePrime(p: nat, x: int, r: nat)
    requires p > 1 && r <= p && Cong(x * r, 1, p)
    ensures r < p
  {
    if r == p {
      DivModUnique(x * p, p, x, 0);
      DivModUnique(1, p, 0, 1);
    }
  }

  lemma OddPrime(p: nat)
    requires IsPrime(p) && p > 2
    ensures p % 2 == 1
  {
    assert !Divides(2, p);
  }

  /** Fills the two registers with u = prime, s = 1, v = x and r = 0. */
  method Fill(us: Combo, vr: Combo, pp: array<u32>, x: array<u32>, prime: array<u32>)
    requires us.a.Length == 9 && vr.a.Length == 9 && us.a != vr.a && pp.Length == 8 && pp != us.a && pp != vr.a
    requires us.len1 == 8 && vr.len1 == 8
    requires x.Length == 9 && x != us.a && x != vr.a && x != pp && prime != us.a && prime != vr.a && prime != pp
    requires Normal(TWO30, x[..]) && Modulus(prime[..]) && V(x[..]) < V(prime[..])
    modifies us.a, vr.a, pp
    ensures us.Valid() && vr.Valid() && us.Full() && Val(TWO32, pp[..]) == V(prime[..])
    ensures us.First() == V(prime[..]) && us.Second() == 1 && vr.First() == V(x[..]) && vr.Second() == 0
  {
    ghost var p, v := V(prime[..]), V(x[..]);
    ToWords(prime, pp);
    ghost var words: seq<nat> := pp[..];
    assert words[..8] == words;
    for i := 0 to 8
      modifies us.a
      invariant us.a[..i] == words[..i]
    {
      us.a[i] := pp[i];
    }
    ToWords(x, vr.a);
    us.a[8] := 1;
    vr.a[8] := 0;
    assert us.a[..8] == words && pp[..] == words;
    OneDigit(us.a[..]);
    OneDigit(vr.a[..]);
    TopWord(us.a[..]);
  }

  lemma OneDigit(a: seq<nat>)
    requires |a| == 9
    ensures Hi(a, 8) == a[8]
  {
    assert a[8..] == [a[8]];
    assert [a[8]][..0] == [];
    assert BigEndian(TWO32, [a[8]]) == BigEndian(TWO32, [a[8]][..0]) * TWO32 + a[8];
  }

  lemma TopWord(a: seq<nat>)
    requires |a| == 9 && Normal(TWO32, a) && Lo(a, 8) > TWO256 - TWO224
    ensures a[7] != 0
  {
    ValPrefix(TWO32, a, 7);
    ValBound(TWO32, a[..7]);
    TwoTo256();
    assert X(8) == TWO32 * X(7);
  }

  /** bn_is_zero */
  method IsZero(a: array<u32>) returns (zero: bool)
    requires a.Length == 9
    ensures zero <==> V(a[..]) == 0
  {
    var result: u32 := 0;
    TwoTo32(32);
    for i := 0 to 9
      invariant (result == 0 <==> forall l :: 0 <= l < i ==> a[l] == 0)
    {
      OrZero(result, a[i]);
      OrBelow(result, a[i], 32);
      result := Or(result, a[i]);
    }
    zero := result == 0;
    if zero { ValZeros(TWO30, a[..]); }
    if V(a[..]) == 0 { ZeroDigits(TWO30, a[..]); }
  }

  lemma {:induction false} OrZero(a: nat, b: nat)
    ensures Or(a, b) == 0 <==> a == 0 && b == 0
    decreases a + b
  {
    if a > 0 && b > 0 { OrZero(a / 2, b / 2); }
  }

  /** The fast bn_inverse. A multiple of the prime has no inverse and gives 0; every other number x, in any
      32-bit limbs, gives the r below the prime with x * r == 1 modulo the prime. */
  method Inverse(x: array<u32>, prime: array<u32>)
    requires x.Length == 9 && prime != x && Modulus(prime[..]) && IsPrime(V(prime[..]))
    modifies x
    ensures Normal(TWO30, x[..])
    ensures Divides(V(prime[..]), V(old(x[..]))) ==> V(x[..]) == 0
    ensures !Divides(V(prime[..]), V(old(x[..]))) ==>
              V(x[..]) < V(prime[..]) && Cong(V(old(x[..])) * V(x[..]), 1, V(prime[..]))
  {
    hide V;
    ghost var v, p := V(x[..]), V(prime[..]);
    FastMod(x, prime);
    Mod(x, prime);
    var zero := IsZero(x);
    if zero { return; }
    var us := new Combo();
    var vr := new Combo();
    var pp := new u32[8];
    Fill(us, vr, pp, x, prime);
    InverseOfResidue(us, vr, pp, x, p);
    CongMod(v, p);
    CongMul(v, v % p, V(x[..]), V(x[..]), p);
  }

  /** The part of bn_inverse after the registers are filled. */
  method InverseOfResidue(us: Combo, vr: Combo, pp: array<u32>, x: array<u32>, ghost p: nat)
    requires us != vr && us.a != vr.a && us.Valid() && vr.Valid() && us.Full()
    requires pp.Length == 8 && pp != us.a && pp != vr.a && x.Length == 9 && x != us.a && x != vr.a && x != pp
    requires IsPrime(p) && TWO256 - TWO224 < p < TWO256 && Val(TWO32, pp[..]) == p && 0 < V(x[..]) < p
    requires us.First() == p && us.Second() == 1 && vr.First() == V(x[..]) && vr.Second() == 0
    modifies us, us.a, vr, vr.a, x
    ensures Normal(TWO30, x[..]) && V(x[..]) < p && Cong(V(old(x[..])) * V(x[..]), 1, p)
  {
    hide V, IsPrime, Normal, Divides, Hi, Lo, Pow, X;
    ghost var v := V(x[..]);
    OddPrime(p);
    PrimeRange(p);
    Parity(pp[0], Val(TWO32, pp[..][1..]));
    var k := FindAlmostInverse(us, vr, p, v);
    DivideOut(us.a, pp, k, v);
    FromWords(us.a, x);
  }

  lemma PrimeRange(p: nat)
    requires TWO256 - TWO224 < p < TWO256
    ensures Pow(2, 255) < p < X(8)
  {
    TwoTo256();
    TwoTo32(32);
    assert Pow(2, 0) == 1;
    PowMul(2, 32, 8);
    assert Pow(2, 256) == 2 * Pow(2, 255);
  }

  /** When the two forms of bn_inverse agree: the inverse below the prime, which the fast form computes, is what the
      slow form computes exactly if the lowest limb of the prime is at least 2 or the 2^30 it is off by makes no
      difference. */
  lemma FormsAgree(q: seq<nat>, x: nat, r: nat)
    requires Modulus(q) && IsPrime(V(q)) && !Divides(V(q), x) && r < V(q) && Cong(x * r, 1, V(q))
    ensures r == Pow(x, InverseExponent(q)) % V(q) <==> q[0] >= 2 || Cong(Pow(x, TWO30), 1, V(q))
  {
    hide Pow, V, IsPrime, InverseExponent;
    var slow: nat := Pow(x, InverseExponent(q)) % V(q);
    SlowInverseExact(q, x);
    if Cong(x * slow, 1, V(q)) {
      CancelFactor(V(q), x, r, slow);
      CongSmall(r, slow, V(q));
    }
  }
}
