/** Powers, congruences and primality: the arithmetic the other modules share. */
module Arith {

  const TWO30 := 0x4000_0000
  const TWO32 := 0x1_0000_0000
  const TWO256 := 0x1_00000000_00000000_00000000_00000000_00000000_00000000_00000000_00000000
  const TWO64 := 0x1_0000_0000_0000_0000

  type u8 = x: int | 0 <= x < 0x100
  type u32 = x: int | 0 <= x < 0x1_0000_0000
  type u64 = x: int | 0 <= x < 0x1_0000_0000_0000_0000

  function Pow(b: nat, e: nat): (r: nat)
    ensures b > 0 ==> r > 0
  {
    if e == 0 then 1 else
      var r := Pow(b, e - 1);
      if b > 0 then (assert b * r > 0; b * r) else 0
  }

  lemma {:induction false} PowAdd(b: nat, m: nat, n: nat)
    ensures Pow(b, m + n) == Pow(b, m) * Pow(b, n)
  {
    if m == 0 {
    } else {
      PowAdd(b, m - 1, n);
      assert Pow(b, m + n) == b * Pow(b, m - 1 + n);
      assert Pow(b, m) == b * Pow(b, m - 1);
      Assoc(b, Pow(b, m - 1), Pow(b, n));
    }
  }

  lemma {:induction false} PowMul(b: nat, m: nat, n: nat)
    ensures Pow(b, m * n) == Pow(Pow(b, m), n)
  {
    if n == 0 {
      assert m * n == 0;
    } else {
      PowMul(b, m, n - 1);
      assert m * n == m + m * (n - 1);
      PowAdd(b, m, m * (n - 1));
    }
  }

  lemma {:induction false} PowStrict(b: nat, m: nat, n: nat)
    requires b > 1 && m < n
    ensures Pow(b, m) < Pow(b, n)
  {
    if n == m + 1 {
      Double(b, Pow(b, m));
    } else {
      PowStrict(b, m, n - 1);
      Double(b, Pow(b, n - 1));
    }
  }

  lemma Double(b: nat, x: nat)
    requires b > 1 && x > 0
    ensures b * x >= x + x
  {}

  lemma {:induction false} PowBase(a: nat, b: nat, e: nat)
    requires a <= b
    ensures Pow(a, e) <= Pow(b, e)
  {
    if e == 0 {
    } else {
      PowBase(a, b, e - 1);
      MulMono(a, b, Pow(a, e - 1), Pow(b, e - 1));
    }
  }

  function MulAdd(s: nat, p: nat, f: nat): nat
  {
    s + p * f
  }

  lemma Assoc(a: int, b: int, c: int)
    ensures a * b * c == a * (b * c)
  {}

  lemma MulMono(a: nat, b: nat, c: nat, d: nat)
    requires a <= b && c <= d
    ensures a * c <= b * d
  {
    assert a * c <= b * c;
    assert b * c <= b * d;
  }

  lemma MulLess(a: int, b: int, m: nat)
    requires a < b
    ensures a * m + m <= b * m
  {
    assert (b - a) * m == b * m - a * m;
    assert (b - a - 1) * m >= 0;
  }

  lemma EuclidUnique(m: nat, q: int, r: int, q': int, r': int)
    requires 0 <= r < m && 0 <= r' < m && q * m + r == q' * m + r'
    ensures q == q' && r == r'
  {
    if q < q' { MulLess(q, q', m); }
    if q' < q { MulLess(q', q, m); }
  }

  lemma DivMod(a: int, m: int)
    requires m > 0
    ensures a == (a / m) * m + a % m && 0 <= a % m < m
  {}

  /** Quotient and remainder are the only pair with these bounds. */
  lemma DivModUnique(a: int, m: int, q: int, r: int)
    requires m > 0 && 0 <= r < m && a == q * m + r
    ensures a / m == q && a % m == r
  {
    DivMod(a, m);
    EuclidUnique(m, q, r, a / m, a % m);
  }

  // ---- shifts ----

  /** x << j, without a word size. */
  function Scale(x: nat, j: nat): nat
  {
    x * Pow(2, j)
  }

  /** x >> j */
  function ShiftRight(x: nat, j: nat): (r: nat)
    ensures r <= x
  {
    if j == 0 then x else ShiftRight(x / 2, j - 1)
  }

  /** The j bits that x >> j drops. */
  function DroppedBits(x: nat, j: nat): (r: nat)
    ensures r <= x
  {
    if j == 0 then 0 else x % 2 + 2 * DroppedBits(x / 2, j - 1)
  }

  lemma SplitStep(x: nat, high: nat, low: nat, p: nat)
    requires x / 2 == high * p + low && low < p
    ensures x == high * (2 * p) + (x % 2 + 2 * low) && x % 2 + 2 * low < 2 * p
  {
    assert high * (2 * p) == 2 * (high * p);
  }

  lemma {:induction false} ShiftSplit(x: nat, j: nat)
    ensures x == ShiftRight(x, j) * Pow(2, j) + DroppedBits(x, j) && DroppedBits(x, j) < Pow(2, j)
  {
    if j > 0 {
      ShiftSplit(x / 2, j - 1);
      assert Pow(2, j) == 2 * Pow(2, j - 1);
      hide Pow;
      SplitStep(x, ShiftRight(x / 2, j - 1), DroppedBits(x / 2, j - 1), Pow(2, j - 1));
    }
  }

  lemma ShiftIsDivision(x: nat, j: nat)
    ensures ShiftRight(x, j) == x / Pow(2, j) && DroppedBits(x, j) == x % Pow(2, j)
  {
    ShiftSplit(x, j);
    DivModUnique(x, Pow(2, j), ShiftRight(x, j), DroppedBits(x, j));
  }

  /** x << j in a 32-bit word. */
  function ShiftLeft(x: nat, j: nat): (r: nat)
    ensures r < TWO32
  {
    if j == 0 then x % TWO32 else (2 * ShiftLeft(x, j - 1)) % TWO32
  }

  lemma {:induction false} ShiftLeftIsProduct(x: nat, j: nat)
    ensures ShiftLeft(x, j) == (x * Pow(2, j)) % TWO32
  {
    if j == 0 {
      assert x * Pow(2, 0) == x;
    } else {
      ShiftLeftIsProduct(x, j - 1);
      var y := x * Pow(2, j - 1);
      assert x * Pow(2, j) == 2 * y;
      DivMod(y, TWO32);
      CongBy(2 * y, 2 * (y % TWO32), TWO32, 2 * (y / TWO32));
    }
  }

  /** Bit j of x, as the test x & (1 << j) sees it. */
  predicate BitSet(x: nat, j: nat)
  {
    ShiftRight(x, j) % 2 == 1
  }

  lemma {:induction false} NextBit(x: nat, j: nat)
    ensures ShiftRight(x, j + 1) == ShiftRight(x, j) / 2
    ensures DroppedBits(x, j + 1) == DroppedBits(x, j) + Pow(2, j) * (if BitSet(x, j) then 1 else 0)
  {
    if j > 0 {
      NextBit(x / 2, j - 1);
    } else {
      assert ShiftRight(x, 1) == ShiftRight(x / 2, 0);
      assert DroppedBits(x, 1) == x % 2 + 2 * DroppedBits(x / 2, 0);
    }
  }

  // ---- bitwise or ----

  /** The bitwise or of two machine words. */
  function Or(a: nat, b: nat): nat
    decreases a + b
  {
    if a == 0 then b else if b == 0 then a
    else 2 * Or(a / 2, b / 2) + if a % 2 == 1 || b % 2 == 1 then 1 else 0
  }

  /** Numbers without a common bit: or is addition. */
  lemma {:induction false} OrDisjoint(a: nat, b: nat, k: nat)
    requires a < Pow(2, k) && b % Pow(2, k) == 0
    ensures Or(a, b) == a + b
    decreases k
  {
    if a > 0 && b > 0 {
      assert Pow(2, k) == 2 * Pow(2, k - 1);
      EvenMultiple(b, Pow(2, k - 1));
      OrDisjoint(a / 2, b / 2, k - 1);
    }
  }

  lemma EvenMultiple(b: nat, w: nat)
    requires w > 0 && b % (2 * w) == 0
    ensures b % 2 == 0 && (b / 2) % w == 0
  {
    var q := b / (2 * w);
    DivMod(b, 2 * w);
    assert b == 2 * (q * w);
    DivModUnique(b / 2, w, q, 0);
  }

  /** Or of a low part with a word shifted past it. */
  lemma OrShifted(a: nat, m: nat, k: nat)
    requires a < Pow(2, k)
    ensures Or(a, m * Pow(2, k)) == a + m * Pow(2, k)
    ensures Or(m * Pow(2, k), a) == a + m * Pow(2, k)
  {
    DivModUnique(m * Pow(2, k), Pow(2, k), m, 0);
    OrDisjoint(a, m * Pow(2, k), k);
    OrCommutes(a, m * Pow(2, k));
  }

  lemma {:induction false} OrCommutes(a: nat, b: nat)
    ensures Or(a, b) == Or(b, a)
    decreases a + b
  {
    if a > 0 && b > 0 { OrCommutes(a / 2, b / 2); }
  }

  lemma {:induction false} OrBelow(a: nat, b: nat, k: nat)
    requires a < Pow(2, k) && b < Pow(2, k)
    ensures Or(a, b) < Pow(2, k)
    decreases k
  {
    if a > 0 && b > 0 {
      assert Pow(2, k) == 2 * Pow(2, k - 1);
      OrBelow(a / 2, b / 2, k - 1);
    }
  }

  // ---- bitwise and ----

  function And(a: nat, b: nat): nat
  {
    if a == 0 || b == 0 then 0 else 2 * And(a / 2, b / 2) + if a % 2 == 1 && b % 2 == 1 then 1 else 0
  }

  lemma {:induction false} AndAllOnes(a: nat, n: nat)
    requires a < Pow(2, n)
    ensures And(a, Pow(2, n) - 1) == a
  {
    if n > 0 {
      var p := Pow(2, n - 1);
      assert Pow(2, n) == 2 * p;
      hide Pow;
      assert (2 * p - 1) / 2 == p - 1 && (2 * p - 1) % 2 == 1;
      AndAllOnes(a / 2, n - 1);
    }
  }

  /** A mask of the bits from k up is zero exactly on numbers below 2^k. */
  lemma {:induction false} AndHighBits(a: nat, k: nat, n: nat)
    requires k <= n && a < Pow(2, n)
    ensures Pow(2, k) <= Pow(2, n) && (And(a, Pow(2, n) - Pow(2, k)) == 0 <==> a < Pow(2, k))
  {
    if k == 0 {
      AndAllOnes(a, n);
    } else {
      assert Pow(2, n) == 2 * Pow(2, n - 1) && Pow(2, k) == 2 * Pow(2, k - 1);
      AndHighBits(a / 2, k - 1, n - 1);
    }
  }

  // ---- congruences ----

  predicate Cong(a: int, b: int, m: int)
    requires m > 0
  {
    a % m == b % m
  }

  lemma CongBy(a: int, b: int, m: int, q: int)
    requires m > 0 && a == b + q * m
    ensures Cong(a, b, m)
  {
    var d, e := b / m, b % m;
    assert a == (d + q) * m + e;
    DivModUnique(a, m, d + q, e);
  }

  lemma CongWitness(a: int, b: int, m: int) returns (q: int)
    requires m > 0 && Cong(a, b, m)
    ensures a == b + q * m
  {
    q := a / m - b / m;
    assert a == (a / m) * m + a % m;
    assert b == (b / m) * m + b % m;
    assert (a / m - b / m) * m == (a / m) * m - (b / m) * m;
  }

  lemma CongAdd(a: int, b: int, c: int, d: int, m: int)
    requires m > 0 && Cong(a, b, m) && Cong(c, d, m)
    ensures Cong(a + c, b + d, m) && Cong(a - c, b - d, m)
  {
    var p := CongWitness(a, b, m);
    var q := CongWitness(c, d, m);
    assert (p + q) * m == p * m + q * m;
    assert (p - q) * m == p * m - q * m;
    CongBy(a + c, b + d, m, p + q);
    CongBy(a - c, b - d, m, p - q);
  }

  lemma CongMul(a: int, b: int, c: int, d: int, m: int)
    requires m > 0 && Cong(a, b, m) && Cong(c, d, m)
    ensures Cong(a * c, b * d, m)
  {
    var p := CongWitness(a, b, m);
    var q := CongWitness(c, d, m);
    var k := b * q + p * d + p * (q * m);
    calc {
      a * c;
      (b + p * m) * (d + q * m);
      b * d + b * (q * m) + (p * m) * d + (p * m) * (q * m);
      { Assoc(b, q, m); assert (p * m) * d == (p * d) * m; assert (p * m) * (q * m) == (p * (q * m)) * m; }
      b * d + (b * q) * m + (p * d) * m + (p * (q * m)) * m;
      b * d + k * m;
    }
    CongBy(a * c, b * d, m, k);
  }

  lemma CongSmall(a: int, b: int, m: int)
    requires m > 0 && Cong(a, b, m) && 0 <= a < m && 0 <= b < m
    ensures a == b
  {
    DivModUnique(a, m, 0, a);
    DivModUnique(b, m, 0, b);
  }

  lemma CongMod(a: int, m: int)
    requires m > 0
    ensures Cong(a, a % m, m)
  {
    CongBy(a, a % m, m, a / m);
  }

  predicate Divides(d: nat, n: int)
    requires d > 0
  {
    n % d == 0
  }

  lemma DividesBy(d: nat, n: int, q: int)
    requires d > 0 && n == d * q
    ensures Divides(d, n)
  {
    DivModUnique(n, d, q, 0);
  }

  ghost predicate IsPrime(p: nat)
  {
    p > 1 && forall d: nat :: 1 < d < p ==> !Divides(d, p)
  }

  /** Bitwise exclusive or of two words. */
  function Xor(a: nat, b: nat): nat
    decreases a + b
  {
    if a == 0 then b else if b == 0 then a
    else 2 * Xor(a / 2, b / 2) + if a % 2 != b % 2 then 1 else 0
  }

  lemma {:induction false} XorBound(a: nat, b: nat, k: nat)
    requires a < Pow(2, k) && b < Pow(2, k)
    ensures Xor(a, b) < Pow(2, k)
    decreases k
  {
    if a > 0 && b > 0 { XorBound(a / 2, b / 2, k - 1); }
  }

  lemma XorHalves(a: nat, b: nat)
    ensures Xor(a, b) / 2 == Xor(a / 2, b / 2) && Xor(a, b) % 2 == if a % 2 != b % 2 then 1 else 0
  {}

  /** Every bit is the exclusive or of the two bits. */
  lemma {:induction false} XorBits(a: nat, b: nat, j: nat)
    ensures BitSet(Xor(a, b), j) <==> BitSet(a, j) != BitSet(b, j)
  {
    hide Xor;
    XorHalves(a, b);
    if j > 0 { XorBits(a / 2, b / 2, j - 1); }
  }

  // ---- constants taken from square roots ----

  const FIRST_PRIMES: seq<nat> := [2, 3, 5, 7, 11, 13, 17, 19]

  /** The digits of base m after the point of the square root of p, cut off after the first, are w. */
  ghost predicate RootFraction(p: nat, m: nat, w: nat)
  {
    w < m && exists k: nat :: k * k <= p < (k + 1) * (k + 1) && RootScaled(p, m, k * m + w)
  }

  /** x is the square root of p·m², rounded down. */
  predicate RootScaled(p: nat, m: nat, x: nat)
  {
    x * x <= p * m * m < (x + 1) * (x + 1)
  }

  lemma RootOf(p: nat, m: nat, k: nat, w: nat)
    requires w < m && k * k <= p < (k + 1) * (k + 1) && RootScaled(p, m, k * m + w)
    ensures RootFraction(p, m, w)
  {}
}
