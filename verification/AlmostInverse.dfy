/** The mathematics of the fast bn_inverse: what every step of the "almost modular inverse"
    keeps, apart from how the four numbers are packed into registers. */
module AlmostInverse {
  import opened Arith

  /** One register holds the numbers lo and hi (u and s, or v and r), the other lo' and hi'. For the
      register of u the factor is x, for the register of v it is -x. */
  ghost predicate Inv(p: nat, x: int, lo: nat, hi: nat, lo': nat, hi': nat, k: nat)
  {
    && p > 0 && lo >= 1 && lo' >= 1
    && lo * hi + lo' * hi' == p
    && Cong(x * hi, lo' * Pow(2, k), p)
    && Cong(-x * hi', lo * Pow(2, k), p)
  }

  lemma Flip(p: nat, x: int, lo: nat, hi: nat, lo': nat, hi': nat, k: nat)
    requires Inv(p, x, lo, hi, lo', hi', k)
    ensures Inv(p, -x, lo', hi', lo, hi, k)
  {}

  lemma InvStart(p: nat, x: nat)
    requires 0 < x && 0 < p
    ensures Inv(p, x, p, 1, x, 0, 0)
  {
    assert Pow(2, 0) == 1;
    assert x * 1 == x && p * 1 == p && x * 0 == 0;
    CongBy(p, 0, p, 1);
  }

  /** Moving j factors of two from lo to hi. */
  lemma InvShift(p: nat, x: int, lo: nat, hi: nat, lo': nat, hi': nat, k: nat, j: nat, lo2: nat)
    requires Inv(p, x, lo, hi, lo', hi', k) && lo == lo2 * Pow(2, j)
    ensures Inv(p, x, lo2, hi * Pow(2, j), lo', hi', k + j)
  {
    var w := Pow(2, j);
    PowAdd(2, k, j);
    Swap3(lo2, w, hi);
    CongMul(x * hi, lo' * Pow(2, k), w, w, p);
    Assoc(x, hi, w);
    Assoc(lo', Pow(2, k), w);
    assert lo2 * Pow(2, k + j) == lo * Pow(2, k) by { Swap3(lo2, w, Pow(2, k)); }
    PositiveFactor(lo2, w);
  }

  lemma PositiveFactor(a: nat, w: nat)
    requires a * w > 0
    ensures a > 0
  {}

  lemma Swap3(a: int, b: int, c: int)
    ensures a * (c * b) == (a * b) * c
  {}

  /** Subtracting the smaller low number and adding up the high ones. */
  lemma InvSubtract(p: nat, x: int, lo: nat, hi: nat, lo': nat, hi': nat, k: nat)
    requires Inv(p, x, lo, hi, lo', hi', k) && lo > lo'
    ensures Inv(p, x, lo - lo', hi, lo', hi' + hi, k)
  {
    var w := Pow(2, k);
    CongAdd(-x * hi', lo * w, x * hi, lo' * w, p);
    Exchange(lo, lo', hi, hi');
    MinusSum(x, hi', hi);
    Minus(lo, lo', w);
  }

  lemma Exchange(lo: int, lo': int, hi: int, hi': int)
    ensures (lo - lo') * hi + lo' * (hi' + hi) == lo * hi + lo' * hi'
  {}

  lemma MinusSum(x: int, a: int, b: int)
    ensures -x * (a + b) == -x * a - x * b
  {}

  lemma Minus(a: int, b: int, w: int)
    ensures (a - b) * w == a * w - b * w
  {}

  /** When both low numbers are equal they are 1, and the high number of u is an almost inverse. */
  lemma InvEnd(p: nat, x: int, lo: nat, hi: nat, hi': nat, k: nat)
    requires IsPrime(p) && lo < p && Inv(p, x, lo, hi, lo, hi', k)
    ensures lo == 1 && hi + hi' == p
    ensures Cong(x * hi, Pow(2, k), p) && Cong(-x * hi', Pow(2, k), p)
  {
    assert lo * hi + lo * hi' == lo * (hi + hi');
    DividesBy(lo, p, hi + hi');
    assert !(1 < lo < p);
  }

  // ---- the bounds on k ----

  /** floor(log2(n)) */
  function Lg(n: nat): nat
    requires n > 0
  {
    if n == 1 then 0 else 1 + Lg(n / 2)
  }

  lemma {:induction false} LgMono(a: nat, b: nat)
    requires 0 < a <= b
    ensures Lg(a) <= Lg(b)
  {
    if a > 1 { LgMono(a / 2, b / 2); }
  }

  lemma {:induction false} LgShift(n: nat, j: nat)
    requires n > 0
    ensures n * Pow(2, j) > 0 && Lg(n * Pow(2, j)) == Lg(n) + j
  {
    if j == 0 {
      assert n * Pow(2, 0) == n;
    } else {
      LgShift(n, j - 1);
      assert n * Pow(2, j) == 2 * (n * Pow(2, j - 1));
    }
  }

  lemma {:induction false} LgBelow(n: nat, e: nat)
    requires 0 < n < Pow(2, e)
    ensures Lg(n) < e
  {
    if n > 1 { LgBelow(n / 2, e - 1); }
  }

  /** How large k can be, and how large the high numbers can be for it. The high number of the odd
      register may overshoot by one bit while the even register still has a factor two to give. */
  ghost predicate Sized(lo: nat, hi: nat, lo': nat, hi': nat, k: nat)
  {
    && lo >= 1 && lo' >= 1 && Lg(lo) + Lg(lo') + k <= 510
    && hi <= Pow(2, k) && hi' <= Pow(2, k + 1) && (lo % 2 == 0 || hi' <= Pow(2, k))
  }

  /** The even register once it is odd again. */
  ghost predicate Settled(lo: nat, hi: nat, lo': nat, hi': nat, k: nat)
  {
    && lo >= 1 && lo' >= 1 && Lg(lo) + Lg(lo') + k <= 510
    && hi <= Pow(2, k) && hi' <= Pow(2, k)
  }

  lemma SizedShift(lo: nat, hi: nat, lo': nat, hi': nat, k: nat, j: nat, lo2: nat)
    requires Sized(lo, hi, lo', hi', k) && lo == lo2 * Pow(2, j) && (j == 0 ==> lo2 % 2 == 1)
    ensures Settled(lo2, hi * Pow(2, j), lo', hi', k + j)
  {
    PositiveFactor(lo2, Pow(2, j));
    LgShift(lo2, j);
    PowAdd(2, k, j);
    MulMono(hi, Pow(2, k), Pow(2, j), Pow(2, j));
    if j > 0 {
      PowAdd(2, k + 1, j - 1);
      MulMono(Pow(2, k + 1), Pow(2, k + 1), 1, Pow(2, j - 1));
    } else {
      assert Pow(2, 0) == 1;
      assert lo == lo2;
    }
  }

  /** After the subtraction the register with the larger low number is the even one. */
  lemma SizedSubtract(lo: nat, hi: nat, lo': nat, hi': nat, k: nat)
    requires Settled(lo, hi, lo', hi', k) && lo > lo' && lo % 2 == 1 && lo' % 2 == 1
    ensures Sized(lo - lo', hi, lo', hi' + hi, k)
  {
    LgMono(lo - lo', lo);
    assert Pow(2, k + 1) == 2 * Pow(2, k);
  }

  lemma SettledFlip(lo: nat, hi: nat, lo': nat, hi': nat, k: nat)
    requires Settled(lo, hi, lo', hi', k)
    ensures Settled(lo', hi', lo, hi, k)
  {}

  /** At the end 255 <= k <= 510. */
  lemma KRange(p: nat, hi: nat, hi': nat, k: nat)
    requires Settled(1, hi, 1, hi', k) && hi + hi' == p && p > Pow(2, 255)
    ensures 255 <= k <= 510
  {
    assert Pow(2, k + 1) == 2 * Pow(2, k);
    if k + 1 < 255 { PowStrict(2, k + 1, 255); }
  }
}
