/** The packed registers of the fast bn_inverse: nine 32-bit limbs hold one number in the first len1
    limbs (least significant first) and another in the rest (most significant first). */
module Register {
  import opened Arith
  import opened Digits

  function Lo(a: seq<nat>, n: nat): nat
    requires n <= |a|
  {
    Val(TWO32, a[..n])
  }

  function Hi(a: seq<nat>, n: nat): nat
    requires n <= |a|
  {
    BigEndian(TWO32, a[n..])
  }

  function X(i: nat): nat { Pow(TWO32, i) }

  // ---- big-endian numbers ----

  lemma {:induction false} BigEndianHead(d: nat, t: seq<nat>)
    ensures BigEndian(TWO32, [d] + t) == d * X(|t|) + BigEndian(TWO32, t)
  {
    var s := [d] + t;
    if |t| == 0 {
      assert s[..0] == [];
    } else {
      BigEndianHead(d, t[..|t| - 1]);
      assert s[..|s| - 1] == [d] + t[..|t| - 1];
      assert X(|t|) == TWO32 * X(|t| - 1);
    }
  }

  lemma {:induction false} BigEndianBound(t: seq<nat>)
    requires Normal(TWO32, t)
    ensures BigEndian(TWO32, t) < X(|t|)
  {
    if |t| > 0 { BigEndianBound(t[..|t| - 1]); }
  }

  // ---- moving a zero limb, or a whole limb ----

  /** A zero on top of the first number may as well count as the top of the second. */
  lemma ZeroTop(a: seq<nat>, n: nat)
    requires 0 < n <= |a| && a[n - 1] == 0
    ensures Lo(a, n - 1) == Lo(a, n) && Hi(a, n - 1) == Hi(a, n)
  {
    ValPrefix(TWO32, a, n - 1);
    assert a[n - 1..] == [0] + a[n..];
    BigEndianHead(0, a[n..]);
  }

  lemma NonzeroTop(a: seq<nat>, n: nat)
    requires 0 < n <= |a| && a[n - 1] != 0
    ensures X(n - 1) <= Lo(a, n)
  {
    ValPrefix(TWO32, a, n - 1);
    MulMono(X(n - 1), X(n - 1), 1, a[n - 1]);
  }

  /** Dropping a zero at the bottom of the first number puts one at the bottom of the second. */
  lemma LimbShifted(a: seq<nat>, n: nat)
    requires |a| == 9 && 0 < n <= 9 && a[0] == 0
    ensures Lo(a, n) == TWO32 * Lo(a[1..] + [0], n - 1)
    ensures Hi(a[1..] + [0], n - 1) == Hi(a, n) * TWO32
  {
    var b := a[1..] + [0];
    assert a[..n][1..] == b[..n - 1];
    assert b[n - 1..] == a[n..] + [0];
    assert b[n - 1..][..|b[n - 1..]| - 1] == a[n..];
  }

  // ---- shifting by j bits ----

  /** Limb i of s >> j, least significant limb first. */
  function ShrLimb(s: seq<nat>, j: nat, i: nat): nat
    requires i < |s| && j <= 32
  {
    ShiftRight(s[i], j) + if i + 1 < |s| then DroppedBits(s[i + 1], j) * Pow(2, 32 - j) else 0
  }

  function Shr(s: seq<nat>, j: nat): (r: seq<nat>)
    requires j <= 32
    ensures |r| == |s| && forall i :: 0 <= i < |s| ==> r[i] == ShrLimb(s, j, i)
  {
    seq(|s|, i requires 0 <= i < |s| => ShrLimb(s, j, i))
  }

  lemma TwoTo32(j: nat)
    requires j <= 32
    ensures Pow(2, j) * Pow(2, 32 - j) == TWO32
  {
    PowAdd(2, j, 32 - j);
    PowMul(2, 8, 4);
    assert Pow(2, 8) == 256;
    assert Pow(256, 4) == 256 * (256 * (256 * (256 * Pow(256, 0))));
  }

  lemma {:induction false} ShrValue(s: seq<nat>, j: nat)
    requires |s| > 0 && j <= 32
    ensures Pow(2, j) * Val(TWO32, Shr(s, j)) + DroppedBits(s[0], j) == Val(TWO32, s)
  {
    hide Pow, Shr, DroppedBits, ShiftRight;
    var r := Shr(s, j);
    var next, v, v' := 0, 0, 0;
    if |s| == 1 {
      assert s[1..] == [] && r[1..] == [];
    } else {
      ShrValue(s[1..], j);
      assert r[1..] == Shr(s[1..], j);
      next, v, v' := DroppedBits(s[1], j), Val(TWO32, s[1..]), Val(TWO32, r[1..]);
    }
    ShiftSplit(s[0], j);
    TwoTo32(j);
    ShrDigit(Pow(2, j), Pow(2, 32 - j), ShiftRight(s[0], j), next, v, v');
  }

  lemma ShrDigit(w: nat, u: nat, q: nat, m: nat, v: nat, v': nat)
    requires w * u == TWO32 && w * v' + m == v
    ensures w * ((q + m * u) + TWO32 * v') == q * w + TWO32 * v
  {
    Spread(w, q, m * u, TWO32 * v');
    assert w * (m * u) == m * (w * u);
  }

  /** Limb m of t << j, most significant limb first. */
  function ShlLimb(t: seq<nat>, j: nat, m: nat): nat
    requires m < |t| && j <= 32
  {
    DroppedBits(t[m], 32 - j) * Pow(2, j) + if m + 1 < |t| then ShiftRight(t[m + 1], 32 - j) else 0
  }

  function Shl(t: seq<nat>, j: nat): (r: seq<nat>)
    requires j <= 32
    ensures |r| == |t| && forall i :: 0 <= i < |t| ==> r[i] == ShlLimb(t, j, i)
  {
    seq(|t|, i requires 0 <= i < |t| => ShlLimb(t, j, i))
  }

  lemma ShlHead(t: seq<nat>, j: nat)
    requires |t| > 0 && j <= 32
    ensures t == [t[0]] + t[1..]
    ensures Shl(t, j) == [DroppedBits(t[0], 32 - j) * Pow(2, j) + if |t| > 1 then ShiftRight(t[1], 32 - j) else 0]
      + Shl(t[1..], j)
    ensures |t| == 1 ==> BigEndian(TWO32, t[1..]) == 0 && BigEndian(TWO32, Shl(t[1..], j)) == 0
    ensures X(|t|) == TWO32 * X(|t| - 1)
  {
    hide DroppedBits, ShiftRight;
  }

  lemma {:induction false} ShlValue(t: seq<nat>, j: nat)
    requires |t| > 0 && j <= 32
    ensures BigEndian(TWO32, Shl(t, j)) + X(|t|) * ShiftRight(t[0], 32 - j) == Pow(2, j) * BigEndian(TWO32, t)
  {
    hide Shl, BigEndian, ShiftRight, DroppedBits, Pow, X;
    var t1 := t[1..];
    var next := if |t| > 1 then ShiftRight(t[1], 32 - j) else 0;
    ShlHead(t, j);
    BigEndianHead(t[0], t1);
    BigEndianHead(DroppedBits(t[0], 32 - j) * Pow(2, j) + next, Shl(t1, j));
    if |t| > 1 { ShlValue(t1, j); }
    ShiftSplit(t[0], 32 - j);
    TwoTo32(j);
    ShlDigit(Pow(2, j), Pow(2, 32 - j), X(|t1|), ShiftRight(t[0], 32 - j), DroppedBits(t[0], 32 - j), next,
             BigEndian(TWO32, t1), BigEndian(TWO32, Shl(t1, j)));
  }

  lemma ShlDigit(w: nat, u: nat, b: nat, q: nat, m: nat, next: nat, v: nat, v': nat)
    requires w * u == TWO32 && v' + b * next == w * v
    ensures ((m * w + next) * b + v') + (TWO32 * b) * q == w * ((q * u + m) * b + v)
  {
    assert (m * w + next) * b == (m * w) * b + b * next;
    ShlExpand(w, u, b, q, m, v);
  }

  lemma ShlExpand(w: nat, u: nat, b: nat, q: nat, m: nat, v: nat)
    requires w * u == TWO32
    ensures w * ((q * u + m) * b + v) == (TWO32 * b) * q + (m * w) * b + w * v
  {
    calc {
      w * ((q * u + m) * b + v);
      { Spread(w, (q * u) * b, m * b, v); assert (q * u + m) * b == (q * u) * b + m * b; }
      w * ((q * u) * b) + w * (m * b) + w * v;
      { assert w * ((q * u) * b) == ((w * u) * b) * q; assert w * (m * b) == (m * w) * b; }
      (TWO32 * b) * q + (m * w) * b + w * v;
    }
  }

  /** The whole shift of a register: the first number gives up j factors of two, the second gains
      them. The room is there because the product of the two numbers stays below 2^256. */
  lemma BitsShifted(a: seq<nat>, n: nat, j: nat, mid: seq<nat>, n': nat)
    requires |a| == 9 && 0 < n <= 8 && a[n - 1] != 0 && 0 < j < 32
    requires DroppedBits(a[0], j) == 0 && Lo(a, n) * Hi(a, n) < X(8)
    requires mid == Shr(a[..n], j) + a[n..]
    requires n' == if mid[n - 1] == 0 then n - 1 else n
    ensures n' > 0 && mid[n' - 1] != 0
    ensures Lo(a, n) == Lo(mid[..n'] + Shl(mid[n'..], j), n') * Pow(2, j)
    ensures Hi(mid[..n'] + Shl(mid[n'..], j), n') == Hi(a, n) * Pow(2, j)
  {
    FirstShifted(a, n, j, mid, n');
    SecondShifted(mid, n', j, Lo(a, n), Hi(a, n));
  }

  lemma FirstShifted(a: seq<nat>, n: nat, j: nat, mid: seq<nat>, n': nat)
    requires |a| == 9 && 0 < n <= 8 && a[n - 1] != 0 && 0 < j < 32 && DroppedBits(a[0], j) == 0
    requires mid == Shr(a[..n], j) + a[n..] && n' == if mid[n - 1] == 0 then n - 1 else n
    ensures n' > 0 && mid[n' - 1] != 0
    ensures Pow(2, j) * Lo(mid, n') == Lo(a, n) && Hi(mid, n') == Hi(a, n)
  {
    ShrValue(a[..n], j);
    assert mid[..n] == Shr(a[..n], j) && mid[n..] == a[n..];
    if mid[n - 1] == 0 {
      NewTop(a, n, j, mid);
      ZeroTop(mid, n);
    }
  }

  lemma SecondShifted(mid: seq<nat>, n: nat, j: nat, lo: nat, hi: nat)
    requires |mid| == 9 && 0 < n <= 8 && mid[n - 1] != 0 && 0 < j < 32
    requires Pow(2, j) * Lo(mid, n) == lo && Hi(mid, n) == hi && lo * hi < X(8)
    ensures lo == Lo(mid[..n] + Shl(mid[n..], j), n) * Pow(2, j)
    ensures Hi(mid[..n] + Shl(mid[n..], j), n) == hi * Pow(2, j)
  {
    var b := mid[..n] + Shl(mid[n..], j);
    assert b[..n] == mid[..n] && b[n..] == Shl(mid[n..], j);
    ShlValue(mid[n..], j);
    NonzeroTop(mid, n);
    NoOverflow(n, Lo(b, n), hi, Pow(2, j), lo, Hi(b, n), ShiftRight(mid[n], 32 - j));
  }

  lemma NewTop(a: seq<nat>, n: nat, j: nat, mid: seq<nat>)
    requires |a| == 9 && 0 < n <= 8 && a[n - 1] != 0 && 0 < j < 32
    requires DroppedBits(a[0], j) == 0 && mid == Shr(a[..n], j) + a[n..] && mid[n - 1] == 0
    ensures n > 1 && mid[n - 2] != 0
  {
    ShiftSplit(a[n - 1], j);
    assert mid[n - 1] == ShrLimb(a[..n], j, n - 1) == ShiftRight(a[n - 1], j);
    if n > 1 {
      assert mid[n - 2] == ShrLimb(a[..n], j, n - 2);
      MulMono(1, DroppedBits(a[n - 1], j), 1, Pow(2, 32 - j));
    }
  }

  lemma NoOverflow(n: nat, lo: nat, hi: nat, w: nat, lo0: nat, hi': nat, over: nat)
    requires 0 < n <= 8 && w * lo == lo0 && lo0 * hi < X(8) && X(n - 1) <= lo
    requires hi' + X(9 - n) * over == w * hi
    ensures over == 0 && hi' == hi * w && lo0 == lo * w
  {
    PowAdd(TWO32, n - 1, 9 - n);
    Reorder(lo, w, hi);
    Room(X(n - 1), X(9 - n), lo, w * hi, over, hi');
  }

  lemma Reorder(lo: nat, w: nat, hi: nat)
    ensures lo * (w * hi) == (w * lo) * hi && w * lo == lo * w && w * hi == hi * w
  {}

  lemma Room(a: nat, b: nat, lo: nat, z: nat, over: nat, hi: nat)
    requires a <= lo && lo * z < a * b && hi + b * over == z
    ensures over == 0
  {
    if over > 0 {
      MulMono(b, b, 1, over);
      MulMono(a, lo, b, z);
    }
  }
}
