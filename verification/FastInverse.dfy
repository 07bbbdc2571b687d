/** The fast bn_inverse of bignum.c, on its packed registers. */
module FastInverse {
  import opened Arith
  import opened Digits
  import opened Register
  import opened AlmostInverse

  /** struct combo */
  class Combo {
    const a: array<u32>
    var len1: int

    constructor ()
      ensures fresh(a) && a.Length == 9 && len1 == 8
    {
      a := new u32[9];
      len1 := 8;
    }

    ghost predicate Valid()
      reads this
    {
      a.Length == 9 && 1 <= len1 <= 8
    }

    /** The number in the first len1 limbs: u or v. */
    ghost function First(): nat
      reads this, a
      requires Valid()
    {
      Lo(a[..], len1)
    }

    /** The number in the remaining limbs: s or r. */
    ghost function Second(): nat
      reads this, a
      requires Valid()
    {
      Hi(a[..], len1)
    }

    /** The first number fills its limbs. */
    ghost predicate Full()
      reads this, a
      requires Valid()
    {
      a[len1 - 1] != 0
    }
  }

  lemma Parities(a: seq<nat>, n: nat)
    requires |a| == 9 && 0 < n <= 8
    ensures Lo(a, n) % 2 == a[0] % 2 && Hi(a, n) % 2 == a[8] % 2
  {
    assert a[n..][|a[n..]| - 1] == a[8];
    assert a[..n][0] == a[0];
    Parity(a[0], Val(TWO32, a[..n][1..]));
    Parity(a[8], BigEndian(TWO32, a[n..][..|a[n..]| - 1]));
  }

  lemma Parity(d: nat, v: nat)
    ensures (d + TWO32 * v) % 2 == d % 2
  {
    assert TWO32 * v == 2 * (0x8000_0000 * v);
  }

  /** Drops zero limbs from the top of the first number. Only a zero number would stop the search. */
  method Trim(c: Combo) returns (stop: bool)
    requires c.Valid() && c.First() > 0
    modifies c`len1
    ensures !stop && c.Valid() && c.Full()
    ensures c.First() == old(c.First()) && c.Second() == old(c.Second())
  {
    while c.a[c.len1 - 1] == 0
      invariant c.Valid() && c.First() == old(c.First()) && c.Second() == old(c.Second())
      decreases c.len1
    {
      ZeroTop(c.a[..], c.len1);
      assert c.a[..0] == [];
      c.len1 := c.len1 - 1;
      if c.len1 <= 0 { return true; }
    }
    stop := false;
  }

  /** Moves zero limbs from the bottom of the first number to the bottom of the second. */
  method ShiftLimbs(c: Combo) returns (k: nat)
    requires c.Valid() && c.Full()
    modifies c, c.a
    ensures c.Valid() && c.Full() && c.a[0] != 0
    ensures old(c.First()) == c.First() * Pow(2, k) && c.Second() == old(c.Second()) * Pow(2, k)
    ensures k == 0 ==> c.a[..] == old(c.a[..]) && c.len1 == old(c.len1)
  {
    k := 0;
    assert Pow(2, 0) == 1;
    while c.a[0] == 0
      invariant c.Valid() && c.Full()
      invariant old(c.First()) == c.First() * Pow(2, k) && c.Second() == old(c.Second()) * Pow(2, k)
      invariant k == 0 ==> c.a[..] == old(c.a[..]) && c.len1 == old(c.len1)
      decreases c.len1
    {
      assert c.len1 > 1;
      ghost var lo, hi := c.First(), c.Second();
      ShiftOneLimb(c);
      LimbFactor(c.First(), k);
      LimbFactor(old(c.Second()), k);
      k := k + 32;
    }
  }

  method ShiftOneLimb(c: Combo)
    requires c.Valid() && c.Full() && c.len1 > 1 && c.a[0] == 0
    modifies c, c.a
    ensures c.Valid() && c.Full() && c.len1 < old(c.len1)
    ensures old(c.First()) == TWO32 * c.First() && c.Second() == old(c.Second()) * TWO32
  {
    ghost var s: seq<nat> := c.a[..];
    LimbShifted(s, c.len1);
    for i := 0 to 8
      modifies c.a
      invariant forall l :: 0 <= l < i ==> c.a[l] == s[l + 1]
      invariant forall l :: i <= l < 9 ==> c.a[l] == s[l]
    {
      c.a[i] := c.a[i + 1];
    }
    c.a[8] := 0;
    assert c.a[..] == s[1..] + [0];
    assert c.a[c.len1 - 2] == s[c.len1 - 1];
    c.len1 := c.len1 - 1;
  }

  /** A limb is 32 factors of two. */
  lemma LimbFactor(x: nat, k: nat)
    ensures (TWO32 * x) * Pow(2, k) == x * Pow(2, k + 32)
    ensures (x * Pow(2, k)) * TWO32 == x * Pow(2, k + 32)
  {
    TwoTo32(32);
    assert Pow(2, 0) == 1;
    PowAdd(2, k, 32);
    assert (x * Pow(2, k)) * TWO32 == x * (Pow(2, k) * TWO32);
    assert (TWO32 * x) * Pow(2, k) == x * (Pow(2, k) * TWO32);
  }

  /** Counts the zero bits at the bottom of a nonzero limb. */
  method CountZeros(w: u32) returns (j: nat)
    requires w != 0
    ensures j < 32 && DroppedBits(w, j) == 0 && BitSet(w, j)
  {
    j := 0;
    while !BitSet(w, j)
      invariant j < 32 && DroppedBits(w, j) == 0
      decreases 32 - j
    {
      NextBit(w, j);
      j := j + 1;
      ShiftSplit(w, j);
      TwoTo32(32);
      if j == 32 { BelowWord(w); }
    }
  }

  lemma BelowWord(w: nat)
    requires w < TWO32 && DroppedBits(w, 32) == 0
    ensures w == 0
  {
    TwoTo32(32);
    assert Pow(2, 0) == 1;
    ShiftIsDivision(w, 32);
    DivModUnique(w, Pow(2, 32), 0, w);
  }

  lemma OrShiftRight(x: nat, y: nat, j: nat)
    requires x < TWO32 && j <= 32
    ensures Or(ShiftRight(x, j), ShiftLeft(y, 32 - j)) == ShiftRight(x, j) + DroppedBits(y, j) * Pow(2, 32 - j)
    ensures ShiftRight(x, j) + DroppedBits(y, j) * Pow(2, 32 - j) < TWO32
  {
    ShiftedWord(y, 32 - j);
    HighBits(x, j);
    OrShifted(ShiftRight(x, j), DroppedBits(y, j), 32 - j);
    ShiftSplit(y, j);
    TwoTo32(j);
    MulLess(DroppedBits(y, j), Pow(2, j), Pow(2, 32 - j));
  }

  /** A word shifted left keeps its low bits only. */
  lemma ShiftedWord(y: nat, j: nat)
    requires j <= 32
    ensures ShiftLeft(y, j) == DroppedBits(y, 32 - j) * Pow(2, j)
  {
    hide Pow, DroppedBits, ShiftRight, ShiftLeft;
    ShiftLeftIsProduct(y, j);
    ShiftSplit(y, 32 - j);
    TwoTo32(j);
    WordSplit(ShiftRight(y, 32 - j), DroppedBits(y, 32 - j), Pow(2, j), Pow(2, 32 - j));
    DivModUnique(y * Pow(2, j), TWO32, ShiftRight(y, 32 - j), DroppedBits(y, 32 - j) * Pow(2, j));
  }

  lemma WordSplit(q: nat, m: nat, w: nat, u: nat)
    requires w * u == TWO32 && m < u
    ensures (q * u + m) * w == q * TWO32 + m * w && m * w < TWO32
  {
    MulLess(m, u, w);
    assert u * w == w * u;
    assert (q * u) * w == q * (w * u);
    assert (q * u + m) * w == (q * u) * w + m * w;
  }

  lemma HighBits(x: nat, j: nat)
    requires x < TWO32 && j <= 32
    ensures ShiftRight(x, j) < Pow(2, 32 - j)
  {
    ShiftSplit(x, j);
    TwoTo32(j);
    QuotientBelow(ShiftRight(x, j), Pow(2, j), Pow(2, 32 - j));
  }

  lemma QuotientBelow(q: nat, w: nat, u: nat)
    requires q * w < w * u
    ensures q < u
  {
    assert q * w == w * q;
    if q >= u { MulMono(w, w, u, q); }
  }

  /** The right shift of the first number, up to but not including its top limb. */
  method ShiftFirst(c: Combo, j: nat) returns (i: nat)
    requires c.Valid() && 0 < j < 32
    modifies c.a
    ensures i == c.len1 - 1
    ensures c.a[..] == Shr(old(c.a[..c.len1]), j) + old(c.a[c.len1..])
  {
    ghost var s: seq<nat>, n := c.a[..], c.len1;
    i := 0;
    while i + 1 < c.len1
      invariant 0 <= i < n
      invariant forall l :: 0 <= l < i ==> c.a[l] == ShrLimb(s[..n], j, l)
      invariant forall l :: i <= l < 9 ==> c.a[l] == s[l]
    {
      OrShiftRight(c.a[i], c.a[i + 1], j);
      c.a[i] := Or(ShiftRight(c.a[i], j), ShiftLeft(c.a[i + 1], 32 - j));
      i := i + 1;
    }
    OrShiftRight(c.a[i], 0, j);
    c.a[i] := ShiftRight(c.a[i], j);
    assert c.a[..] == Shr(s[..n], j) + s[n..];
  }

  /** The left shift of the second number, from limb number from on. */
  method ShiftSecond(c: Combo, from: nat, j: nat)
    requires c.Valid() && from <= 8 && 0 < j < 32
    modifies c.a
    ensures c.a[..] == old(c.a[..from]) + Shl(old(c.a[from..]), j)
  {
    hide ShiftLeft, Shl, Or, ShiftRight, DroppedBits, Pow;
    ghost var s: seq<nat> := c.a[..];
    var i := from;
    while i < 8
      invariant from <= i <= 8
      invariant forall l :: 0 <= l < from ==> c.a[l] == s[l]
      invariant forall l :: from <= l < i ==> c.a[l] == ShlLimb(s[from..], j, l - from)
      invariant forall l :: i <= l < 9 ==> c.a[l] == s[l]
    {
      OrShiftLeft(c.a[i], c.a[i + 1], j);
      c.a[i] := Or(ShiftLeft(c.a[i], j), ShiftRight(c.a[i + 1], 32 - j));
      i := i + 1;
    }
    ShiftedWord(c.a[8], j);
    c.a[8] := ShiftLeft(c.a[8], j);
    assert c.a[..] == s[..from] + Shl(s[from..], j);
  }

  lemma OrShiftLeft(x: nat, y: nat, j: nat)
    requires y < TWO32 && j <= 32
    ensures Or(ShiftLeft(x, j), ShiftRight(y, 32 - j)) == DroppedBits(x, 32 - j) * Pow(2, j) + ShiftRight(y, 32 - j)
    ensures DroppedBits(x, 32 - j) * Pow(2, j) + ShiftRight(y, 32 - j) < TWO32
  {
    OrShiftRight(y, x, 32 - j);
    ShiftedWord(x, j);
    HighBits(y, 32 - j);
    OrCommutes(ShiftLeft(x, j), ShiftRight(y, 32 - j));
  }

  /** Shifts the first number right and the second left by fewer bits than a limb. */
  method ShiftBits(c: Combo, j: nat)
    requires c.Valid() && c.Full() && 0 < j < 32 && DroppedBits(c.a[0], j) == 0
    requires c.First() * c.Second() < X(8)
    modifies c, c.a
    ensures c.Valid() && c.Full() && (c.a[0] % 2 == 1 <==> BitSet(old(c.a[0]), j))
    ensures old(c.First()) == c.First() * Pow(2, j) && c.Second() == old(c.Second()) * Pow(2, j)
  {
    hide Pow, DroppedBits, X, Hi, Lo, ShiftRight, Shl, Shr;
    ghost var s: seq<nat>, n := c.a[..], c.len1;
    var i := ShiftFirst(c, j);
    ghost var mid: seq<nat> := c.a[..];
    assert mid[0] == ShrLimb(s[..n], j, 0);
    BottomBit(s[..n], j);
    BitsShifted(s, n, j, mid, if mid[n - 1] == 0 then n - 1 else n);
    if c.a[i] == 0 {
      c.len1 := c.len1 - 1;
    } else {
      i := i + 1;
    }
    ShiftSecond(c, i, j);
  }

  lemma BottomBit(s: seq<nat>, j: nat)
    requires |s| > 0 && 0 < j < 32
    ensures ShrLimb(s, j, 0) % 2 == ShiftRight(s[0], j) % 2
  {
    assert Pow(2, 32 - j) == 2 * Pow(2, 31 - j);
    if |s| > 1 {
      var d := DroppedBits(s[1], j);
      assert d * Pow(2, 32 - j) == 2 * (d * Pow(2, 31 - j));
    }
  }

  /** Makes the first number odd, moving every factor of two to the second. */
  method MakeOdd(c: Combo) returns (k: nat)
    requires c.Valid() && c.Full() && c.First() * c.Second() < X(8)
    modifies c, c.a
    ensures c.Valid() && c.Full() && c.First() % 2 == 1
    ensures old(c.First()) == c.First() * Pow(2, k) && c.Second() == old(c.Second()) * Pow(2, k)
    ensures old(c.First()) % 2 == 0 ==> k > 0
  {
    k := ShiftLimbs(c);
    ghost var lo, hi := c.First(), c.Second();
    var j := CountZeros(c.a[0]);
    Parities(c.a[..], c.len1);
    if j > 0 {
      SameProduct(c.First(), old(c.Second()), Pow(2, k));
      ShiftBits(c, j);
      TwoShifts(old(c.First()), lo, c.First(), k, j);
      TwoShifts(c.Second(), hi, old(c.Second()), j, k);
      k := k + j;
    }
    Parities(c.a[..], c.len1);
  }

  lemma SameProduct(lo: nat, hi: nat, w: nat)
    ensures lo * (hi * w) == (lo * w) * hi
  {}

  lemma TwoShifts(x: nat, y: nat, z: nat, k: nat, j: nat)
    requires x == y * Pow(2, k) && y == z * Pow(2, j)
    ensures x == z * Pow(2, k + j)
  {
    PowAdd(2, j, k);
    Assoc(z, Pow(2, j), Pow(2, k));
  }

  // ---- comparing, subtracting, adding ----

  lemma LengthDecides(a: seq<nat>, n: nat, b: seq<nat>, m: nat)
    requires |a| == 9 && |b| == 9 && m < n <= 8 && a[n - 1] != 0 && Normal(TWO32, b)
    ensures Lo(a, n) > Lo(b, m)
  {
    NonzeroTop(a, n);
    ValBound(TWO32, b[..m]);
    if m < n - 1 { PowStrict(TWO32, m, n - 1); }
  }

  lemma TopDecides(a: seq<nat>, b: seq<nat>, n: nat, i: nat)
    requires |a| == 9 && |b| == 9 && i < n <= 8 && Normal(TWO32, a) && Normal(TWO32, b)
    requires a[i] > b[i] && forall l :: i < l < n ==> a[l] == b[l]
    ensures Lo(a, n) > Lo(b, n)
  {
    ValSplit(TWO32, a[..n], i + 1);
    ValSplit(TWO32, b[..n], i + 1);
    assert a[..n][..i + 1] == a[..i + 1] && b[..n][..i + 1] == b[..i + 1];
    assert a[..n][i + 1..] == b[..n][i + 1..];
    ValPrefix(TWO32, a, i);
    ValPrefix(TWO32, b, i);
    ValBound(TWO32, b[..i]);
    MulLess(b[i], a[i], X(i));
    assert a[i] * X(i) == X(i) * a[i] && b[i] * X(i) == X(i) * b[i];
  }

  /** cmp > 0, = 0 or < 0 as the first number of us is greater than, equal to or less than that of vr. */
  method Compare(us: Combo, vr: Combo) returns (cmp: int)
    requires us.Valid() && vr.Valid() && us.Full() && vr.Full()
    ensures cmp > 0 ==> us.First() > vr.First() && us.len1 >= vr.len1
    ensures cmp == 0 ==> us.First() == vr.First()
    ensures cmp < 0 ==> us.First() < vr.First() && us.len1 <= vr.len1
  {
    cmp := us.len1 - vr.len1;
    if cmp == 0 {
      var i := us.len1 - 1;
      while i >= 0 && us.a[i] == vr.a[i]
        invariant -1 <= i < us.len1
        invariant forall l :: i < l < us.len1 ==> us.a[l] == vr.a[l]
      {
        i := i - 1;
      }
      if i == -1 {
        assert us.a[..us.len1] == vr.a[..us.len1];
        return 0;
      }
      if us.a[i] > vr.a[i] {
        TopDecides(us.a[..], vr.a[..], us.len1, i);
        cmp := 1;
      } else {
        TopDecides(vr.a[..], us.a[..], us.len1, i);
        cmp := -1;
      }
    } else if cmp > 0 {
      LengthDecides(us.a[..], us.len1, vr.a[..], vr.len1);
    } else {
      LengthDecides(vr.a[..], vr.len1, us.a[..], us.len1);
    }
  }

  lemma LimbDifference(out: seq<nat>, t: nat, a: seq<nat>, total: int, d: nat, t': nat)
    requires |out| < |a| && Carried(TWO32, out, t - 1, Val(TWO32, a[..|out|]) - total)
    requires t' == t + 0xFFFF_FFFF + a[|out|] - d
    ensures Carried(TWO32, out + [t' % TWO32], t' / TWO32 - 1, Val(TWO32, a[..|out| + 1]) - (total + X(|out|) * d))
  {
    hide Val, Carried, Pow;
    var i := |out|;
    var x: int := a[i];
    CarryNext(TWO32, out, t - 1, Val(TWO32, a[..i]) - total, x - d, t', 1);
    ValPrefix(TWO32, a, i);
    assert X(i) * (x - d) == X(i) * x - X(i) * d;
  }

  lemma CarriedStart(s: seq<nat>, o: seq<nat>)
    ensures Carried(TWO32, [], 0, Val(TWO32, s[..0]) - Val(TWO32, o[..0]))
  {}

  /** even's first number minus odd's first number, limb by limb. */
  method SubtractFirst(even: Combo, odd: Combo)
    requires even.a != odd.a && even.Valid() && odd.Valid() && even.len1 >= odd.len1 && even.First() >= odd.First()
    modifies even.a
    ensures even.Valid() && even.First() == old(even.First() - odd.First()) && even.Second() == old(even.Second())
  {
    hide Carried, Val, Hi;
    ghost var s: seq<nat>, o: seq<nat> := even.a[..], odd.a[..];
    CarriedStart(s, o);
    var temp: u64 := 1;
    var i := 0;
    while i < odd.len1
      invariant 0 <= i <= odd.len1 && temp <= 1
      invariant forall l :: i <= l < 9 ==> even.a[l] == s[l]
      invariant Carried(TWO32, even.a[..i], temp - 1, Val(TWO32, s[..i]) - Val(TWO32, o[..i]))
    {
      ghost var out: seq<nat>, t := even.a[..i], temp;
      assert odd.a[i] == o[i];
      temp := temp + 0xFFFF_FFFF + even.a[i] - odd.a[i];
      LimbDifference(out, t, s, Val(TWO32, o[..i]), o[i], temp);
      ValPrefix(TWO32, o, i);
      even.a[i] := temp % TWO32;
      assert even.a[..i + 1] == out + [even.a[i]];
      temp := temp / TWO32;
      i := i + 1;
    }
    Borrow(even, i, temp, s, Lo(o, odd.len1));
  }

  /** The second loop of the subtraction takes the borrow through the limbs only even has. */
  method Borrow(even: Combo, from: nat, borrow: u64, ghost s: seq<nat>, ghost less: nat)
    requires even.Valid() && from <= even.len1 && borrow <= 1 && |s| == 9 && Normal(TWO32, s)
    requires less <= Lo(s, even.len1) && forall l :: from <= l < 9 ==> even.a[l] == s[l]
    requires Carried(TWO32, even.a[..from], borrow - 1, Val(TWO32, s[..from]) - less)
    modifies even.a
    ensures even.Valid() && even.First() == Lo(s, even.len1) - less && even.Second() == Hi(s, even.len1)
  {
    hide Carried, Val, Pow, BigEndian;
    var temp: u64, i := borrow, from;
    while i < even.len1
      invariant from <= i <= even.len1 && temp <= 1
      invariant forall l :: i <= l < 9 ==> even.a[l] == s[l]
      invariant Carried(TWO32, even.a[..i], temp - 1, Val(TWO32, s[..i]) - less)
    {
      ghost var out: seq<nat>, t := even.a[..i], temp;
      temp := temp + 0xFFFF_FFFF + even.a[i];
      LimbDifference(out, t, s, less, 0, temp);
      even.a[i] := temp % TWO32;
      assert even.a[..i + 1] == out + [even.a[i]];
      temp := temp / TWO32;
      i := i + 1;
    }
    ValBound(TWO32, s[..even.len1]);
    NothingCarried(even.a[..even.len1], temp - 1, Lo(s, even.len1) - less);
    assert even.a[even.len1..] == s[even.len1..];
  }

  /** A total that fits its limbs leaves no carry. */
  lemma NothingCarried(out: seq<nat>, q: int, total: int)
    requires Normal(TWO32, out) && Carried(TWO32, out, q, total) && 0 <= total < X(|out|)
    ensures Val(TWO32, out) == total
  {
    ValBound(TWO32, out);
    assert X(|out|) * q == q * X(|out|);
    EuclidUnique(X(|out|), q, Val(TWO32, out), 0, total);
  }

  /** The limbs of a sum from limb i up, most significant first, and the carry into limb i - 1. */
  ghost predicate Summed(out: seq<nat>, t: nat, s: seq<nat>, i: int, more: nat)
    requires 0 <= i <= |s|
  {
    |out| == |s| - i && Carried(TWO32, Reverse(out), t, BigEndian(TWO32, s[i..]) + more)
  }

  lemma SummedNext(out: seq<nat>, t: nat, s: seq<nat>, i: nat, more: nat, d: nat, t': nat)
    requires i < |s| && Summed(out, t, s, i + 1, more) && t' == t + s[i] + d
    ensures Summed([t' % TWO32] + out, t' / TWO32, s, i, more + d * X(|s| - 1 - i))
  {
    var r := [t' % TWO32] + out;
    assert Reverse(r) == Reverse(out) + [t' % TWO32];
    assert s[i..] == [s[i]] + s[i + 1..];
    assert |out| == |s[i + 1..]| == |s| - 1 - i;
    BigEndianHead(s[i], s[i + 1..]);
    var total := BigEndian(TWO32, s[i + 1..]) + more;
    CarryNext(TWO32, Reverse(out), t, total, s[i] + d, t', 0);
    Distributed(X(|out|), s[i], d);
    assert total + X(|out|) * (s[i] + d) == BigEndian(TWO32, s[i..]) + (more + d * X(|s| - 1 - i));
  }

  lemma SummedEnd(out: seq<nat>, t: nat, s: seq<nat>, n: nat, more: nat)
    requires n <= |s| && Summed(out, t, s, n, more) && Normal(TWO32, out)
    requires BigEndian(TWO32, s[n..]) + more < X(|s| - n)
    ensures BigEndian(TWO32, out) == BigEndian(TWO32, s[n..]) + more
  {
    NothingCarried(Reverse(out), t, BigEndian(TWO32, s[n..]) + more);
    BigEndianReverse(TWO32, out);
  }

  lemma Distributed(w: nat, a: nat, b: nat)
    ensures w * (a + b) == a * w + b * w
  {}

  lemma SummedStart(s: seq<nat>, e: seq<nat>)
    requires |s| == |e| == 9
    ensures Summed([], 0, s, 9, Hi(e, 9))
  {}

  lemma HiNext(e: seq<nat>, i: nat)
    requires i < |e|
    ensures Hi(e, i) == Hi(e, i + 1) + e[i] * X(|e| - 1 - i)
  {
    assert e[i..] == [e[i]] + e[i + 1..];
    BigEndianHead(e[i], e[i + 1..]);
  }

  /** odd's second number plus even's second number, from the bottom limb 8 upwards. */
  method AddSecond(odd: Combo, even: Combo)
    requires even.a != odd.a && even.Valid() && odd.Valid() && even.len1 >= odd.len1
    requires odd.Second() + even.Second() < X(9 - odd.len1)
    modifies odd.a
    ensures odd.Valid() && odd.Second() == old(odd.Second() + even.Second())
    ensures odd.a[..odd.len1] == old(odd.a[..odd.len1])
  {
    hide Summed, X, BigEndian, Hi;
    ghost var s: seq<nat>, e: seq<nat> := odd.a[..], even.a[..];
    SummedStart(s, e);
    assert odd.a[9..] == [];
    var temp: u64 := 0;
    var i := 8;
    while i >= even.len1
      invariant even.len1 - 1 <= i <= 8 && temp <= 1
      invariant forall l :: 0 <= l <= i ==> odd.a[l] == s[l]
      invariant Summed(odd.a[i + 1..], temp, s, i + 1, Hi(e, i + 1))
    {
      ghost var out: seq<nat>, t := odd.a[i + 1..], temp;
      assert even.a[i] == e[i];
      temp := temp + odd.a[i] + even.a[i];
      SummedNext(out, t, s, i, Hi(e, i + 1), e[i], temp);
      HiNext(e, i);
      odd.a[i] := temp % TWO32;
      assert odd.a[i..] == [odd.a[i]] + out;
      temp := temp / TWO32;
      i := i - 1;
    }
    CarryUp(odd, i, temp, s, Hi(e, even.len1));
  }

  /** The second loop of the addition takes the carry through the limbs only odd has. */
  method CarryUp(odd: Combo, from: int, carry: u64, ghost s: seq<nat>, ghost more: nat)
    requires odd.Valid() && odd.len1 - 1 <= from <= 8 && carry <= 1 && |s| == 9
    requires forall l :: 0 <= l <= from ==> odd.a[l] == s[l]
    requires Summed(odd.a[from + 1..], carry, s, from + 1, more)
    requires Hi(s, odd.len1) + more < X(9 - odd.len1)
    modifies odd.a
    ensures odd.Valid() && odd.Second() == Hi(s, odd.len1) + more
    ensures odd.a[..odd.len1] == s[..odd.len1]
  {
    hide Summed, X, BigEndian, Carried, Normal, Reverse;
    var temp: u64, i := carry, from;
    while i >= odd.len1
      invariant odd.len1 - 1 <= i <= 8 && temp <= 1
      invariant forall l :: 0 <= l <= i ==> odd.a[l] == s[l]
      invariant Summed(odd.a[i + 1..], temp, s, i + 1, more)
    {
      ghost var out: seq<nat>, t := odd.a[i + 1..], temp;
      temp := temp + odd.a[i];
      SummedNext(out, t, s, i, more, 0, temp);
      odd.a[i] := temp % TWO32;
      assert odd.a[i..] == [odd.a[i]] + out;
      temp := temp / TWO32;
      i := i - 1;
    }
    SummedEnd(odd.a[odd.len1..], temp, s, odd.len1, more);
  }

  // ---- the main loop ----

  /** What holds at the top of the main loop, for the numbers of the registers in their roles even and
      odd. x stands for the number to invert, or for its negative when even is the register of v, r. */
  ghost predicate Turn(p: nat, x: int, lo: nat, hi: nat, lo': nat, hi': nat, k: nat)
  {
    && p < X(8) && Inv(p, x, lo, hi, lo', hi', k) && Sized(lo, hi, lo', hi', k)
    && lo' % 2 == 1 && hi' % 2 == 1 && (lo % 2 == 0 || hi % 2 == 0)
  }

  /** The same after the even register has been made odd. */
  ghost predicate HalfTurn(p: nat, x: int, lo: nat, hi: nat, lo': nat, hi': nat, k: nat)
  {
    && p < X(8) && Inv(p, x, lo, hi, lo', hi', k) && Settled(lo, hi, lo', hi', k)
    && lo % 2 == 1 && lo' % 2 == 1 && hi % 2 != hi' % 2
  }

  ghost predicate Loop(even: Combo, odd: Combo, p: nat, x: int, k: nat)
    reads even, even.a, odd, odd.a
  {
    && even.Valid() && odd.Valid() && odd.Full()
    && Turn(p, x, even.First(), even.Second(), odd.First(), odd.Second(), k)
  }

  ghost predicate Ready(even: Combo, odd: Combo, p: nat, x: int, k: nat)
    reads even, even.a, odd, odd.a
  {
    && even.Valid() && odd.Valid() && even.Full() && odd.Full()
    && HalfTurn(p, x, even.First(), even.Second(), odd.First(), odd.Second(), k)
  }

  lemma HalfTurnFromTurn(p: nat, x: int, lo: nat, hi: nat, lo': nat, hi': nat, k: nat, j: nat, lo2: nat, hi2: nat)
    requires Turn(p, x, lo, hi, lo', hi', k)
    requires lo == lo2 * Pow(2, j) && hi2 == hi * Pow(2, j) && lo2 % 2 == 1 && (lo % 2 == 0 ==> j > 0)
    ensures HalfTurn(p, x, lo2, hi2, lo', hi', k + j) && lo2 <= lo
  {
    InvShift(p, x, lo, hi, lo', hi', k, j, lo2);
    SizedShift(lo, hi, lo', hi', k, j, lo2);
    ShiftedParity(hi, j, hi2);
    MulMono(lo2, lo2, 1, Pow(2, j));
  }

  lemma TurnFromHalfTurn(p: nat, x: int, lo: nat, hi: nat, lo': nat, hi': nat, k: nat)
    requires HalfTurn(p, x, lo, hi, lo', hi', k) && lo > lo'
    ensures Turn(p, x, lo - lo', hi, lo', hi' + hi, k)
  {
    InvSubtract(p, x, lo, hi, lo', hi', k);
    SizedSubtract(lo, hi, lo', hi', k);
    OddEven(lo, lo', hi, hi');
  }

  lemma OddEven(lo: nat, lo': nat, hi: nat, hi': nat)
    requires lo % 2 == 1 && lo' % 2 == 1 && hi % 2 != hi' % 2 && lo > lo'
    ensures (lo - lo') % 2 == 0 && (hi' + hi) % 2 == 1
  {}

  lemma HalfTurnFlip(p: nat, x: int, lo: nat, hi: nat, lo': nat, hi': nat, k: nat)
    requires HalfTurn(p, x, lo, hi, lo', hi', k)
    ensures HalfTurn(p, -x, lo', hi', lo, hi, k)
  {
    Flip(p, x, lo, hi, lo', hi', k);
    SettledFlip(lo, hi, lo', hi', k);
  }

  lemma HalfTurnEnd(p: nat, x: int, lo: nat, hi: nat, hi': nat, k: nat)
    requires HalfTurn(p, x, lo, hi, lo, hi', k) && lo < p && IsPrime(p) && p > Pow(2, 255)
    ensures lo == 1 && hi <= p && 255 <= k <= 510
    ensures Cong(x * hi, Pow(2, k), p) && Cong(-x * hi', Pow(2, k), p)
  {
    InvEnd(p, x, lo, hi, hi', k);
    KRange(p, hi, hi', k);
  }

  lemma ProductBelow(a: nat, b: nat, c: nat, d: nat, p: nat)
    requires a * b + c * d == p
    ensures a * b <= p && c * d <= p
  {}

  /** The first half of a turn: reduces even while it is even, and adds the shift to k. */
  method Reduce(even: Combo, odd: Combo, k: nat, ghost p: nat, ghost x: int) returns (stop: bool, k': nat)
    requires even != odd && even.a != odd.a && Loop(even, odd, p, x, k)
    modifies even, even.a
    ensures !stop && Ready(even, odd, p, x, k') && even.First() <= old(even.First())
  {
    hide HalfTurn, Hi, Lg, Lo, Pow, Settled;
    k' := k;
    stop := Trim(even);
    if stop { return; }
    ghost var lo, hi := even.First(), even.Second();
    ProductBelow(lo, hi, odd.First(), odd.Second(), p);
    var j := MakeOdd(even);
    HalfTurnFromTurn(p, x, lo, hi, odd.First(), odd.Second(), k, j, even.First(), even.Second());
    k' := k + j;
    Parities(odd.a[..], odd.len1);
    Parities(even.a[..], even.len1);
    assert odd.a[0] % 2 == 1 && odd.a[8] % 2 == 1 && even.a[0] % 2 == 1 && even.a[8] % 2 == 0;
  }

  lemma ShiftedParity(hi: nat, j: nat, hi': nat)
    requires hi' == hi * Pow(2, j) && (j > 0 || hi % 2 == 0)
    ensures hi' % 2 == 0
  {
    if j > 0 {
      assert hi * Pow(2, j) == 2 * (hi * Pow(2, j - 1));
    } else {
      assert Pow(2, 0) == 1;
    }
  }

  /** The second half of a turn, once the roles are fixed so that even > odd. */
  method Combine(even: Combo, odd: Combo, ghost p: nat, ghost x: int, ghost k: nat)
    requires even != odd && even.a != odd.a && Ready(even, odd, p, x, k)
    requires even.First() > odd.First() && even.len1 >= odd.len1
    modifies even.a, odd.a
    ensures Loop(even, odd, p, x, k)
    ensures even.First() == old(even.First()) - odd.First() && odd.First() == old(odd.First())
  {
    hide BigEndian, Settled, Sized, Val, X;
    ghost var lo, hi, lo', hi' := even.First(), even.Second(), odd.First(), odd.Second();
    TurnFromHalfTurn(p, x, lo, hi, lo', hi', k);
    SubtractFirst(even, odd);
    SumFits(p, lo - lo', hi, lo', hi' + hi, odd.a[..], odd.len1);
    AddSecond(odd, even);
    assert odd.a[odd.len1 - 1] == odd.a[..odd.len1][odd.len1 - 1];
    Parities(odd.a[..], odd.len1);
    Parities(even.a[..], even.len1);
    OddEven(lo, lo', hi, hi');
    assert odd.a[0] % 2 == 1 && odd.a[8] % 2 == 1 && even.a[0] % 2 == 0;
  }

  lemma SumFits(p: nat, lo: nat, hi: nat, lo': nat, hi': nat, a: seq<nat>, n: nat)
    requires p < X(8) && lo * hi + lo' * hi' == p
    requires |a| == 9 && 0 < n <= 8 && a[n - 1] != 0 && lo' == Lo(a, n)
    ensures hi' < X(9 - n)
  {
    ProductBelow(lo, hi, lo', hi', p);
    NonzeroTop(a, n);
    PowAdd(TWO32, n - 1, 9 - n);
    if hi' >= X(9 - n) { MulMono(X(n - 1), lo', X(9 - n), hi'); }
  }

  /** One register is even, the other odd; x is the factor that belongs to the even one. */
  ghost predicate Roles(us: Combo, vr: Combo, even: Combo, odd: Combo, x: int, sx: int)
  {
    us != vr && us.a != vr.a && ((even == us && odd == vr && sx == x) || (even == vr && odd == us && sx == -x))
  }

  /** The first half of a turn, with the roles resolved. */
  method ReduceEven(us: Combo, vr: Combo, even: Combo, odd: Combo, k: nat, ghost p: nat, ghost x: int, ghost sx: int)
    returns (stop: bool, k': nat)
    requires Roles(us, vr, even, odd, x, sx) && Loop(even, odd, p, sx, k)
    modifies even, even.a
    ensures !stop && Ready(us, vr, p, x, k') && Ready(vr, us, p, -x, k') && even.First() <= old(even.First())
  {
    stop, k' := Reduce(even, odd, k, p, sx);
    if stop { return; }
    EitherRole(us, vr, even, odd, p, x, sx, k');
  }

  /** One turn of the main loop. */
  method OneTurn(us: Combo, vr: Combo, even: Combo, odd: Combo, k: nat, ghost p: nat, ghost x: int, ghost sx: int)
    returns (even': Combo, odd': Combo, k': nat, finished: bool, ghost sx': int)
    requires Roles(us, vr, even, odd, x, sx) && Loop(even, odd, p, sx, k) && vr.First() < p
    requires IsPrime(p) && p > Pow(2, 255)
    modifies us, us.a, vr, vr.a
    ensures us.Valid() && vr.Valid()
    ensures finished ==> us.First() == 1 && us.len1 == 1 && us.Second() <= p
    ensures finished ==> Cong(x * us.Second(), Pow(2, k'), p) && 255 <= k' <= 510
    ensures !finished ==> Roles(us, vr, even', odd', x, sx') && Loop(even', odd', p, sx', k') && vr.First() < p
    ensures !finished ==> us.First() + vr.First() < old(us.First() + vr.First())
  {
    hide Inv, Settled, Sized, Cong, Pow, IsPrime, BigEndian, Divides, HalfTurn, Hi, Lo, X;
    even', odd', k', finished, sx' := even, odd, k, true, sx;
    Parities(odd.a[..], odd.len1);
    assert odd.a[0] % 2 == 1;
    assert odd.a[8] % 2 == 1;
    var stop;
    stop, k' := ReduceEven(us, vr, even, odd, k, p, x, sx);
    if stop { return; }
    var cmp := Compare(us, vr);
    if cmp == 0 {
      LoopEnd(us, vr, p, x, k');
      return;
    }
    finished := false;
    if cmp > 0 {
      even', odd', sx' := us, vr, x;
      Combine(us, vr, p, x, k');
      return;
    } else {
      even', odd', sx' := vr, us, -x;
      Combine(vr, us, p, -x, k');
      return;
    }
  }

  /** The main loop: from u = prime, s = 1, v = x, r = 0 to u = v = 1 and x * s == 2^k. */
  method FindAlmostInverse(us: Combo, vr: Combo, ghost p: nat, ghost x: int) returns (k: nat)
    requires us != vr && us.a != vr.a && us.Valid() && vr.Valid() && us.Full()
    requires IsPrime(p) && p % 2 == 1 && Pow(2, 255) < p < X(8) && 0 < x < p
    requires us.First() == p && us.Second() == 1 && vr.First() == x && vr.Second() == 0
    modifies us, us.a, vr, vr.a
    ensures us.Valid() && us.First() == 1 && us.len1 == 1 && us.Second() <= p
    ensures Cong(x * us.Second(), Pow(2, k), p) && 255 <= k <= 510
  {
    var odd, even := us, vr;
    ghost var sx: int := -x;
    k := 0;
    LoopStart(p, x);
    var finished := false;
    while !finished
      invariant us.Valid() && vr.Valid()
      invariant !finished ==> Roles(us, vr, even, odd, x, sx) && Loop(even, odd, p, sx, k) && vr.First() < p
      invariant finished ==> us.First() == 1 && us.len1 == 1 && us.Second() <= p
      invariant finished ==> Cong(x * us.Second(), Pow(2, k), p) && 255 <= k <= 510
      decreases !finished, us.First() + vr.First()
    {
      even, odd, k, finished, sx := OneTurn(us, vr, even, odd, k, p, x, sx);
    }
  }

  lemma LoopStart(p: nat, x: int)
    requires Pow(2, 255) < p < X(8) && 0 < x < p && p % 2 == 1
    ensures Turn(p, -x, x, 0, p, 1, 0)
  {
    InvStart(p, x);
    Flip(p, x, p, 1, x, 0, 0);
    SizedStart(p, x);
  }

  lemma SizedStart(p: nat, x: nat)
    requires 0 < x < p < X(8)
    ensures Sized(x, 0, p, 1, 0)
  {
    TwoTo32(32);
    assert Pow(2, 0) == 1;
    PowMul(2, 32, 8);
    LgBelow(p, 256);
    LgBelow(x, 256);
  }

  lemma EitherRole(us: Combo, vr: Combo, even: Combo, odd: Combo, p: nat, x: int, sx: int, k: nat)
    requires Roles(us, vr, even, odd, x, sx) && Ready(even, odd, p, sx, k)
    ensures Ready(us, vr, p, x, k) && Ready(vr, us, p, -x, k)
  {
    HalfTurnFlip(p, sx, even.First(), even.Second(), odd.First(), odd.Second(), k);
  }

  lemma LoopEnd(us: Combo, vr: Combo, p: nat, x: int, k: nat)
    requires Ready(us, vr, p, x, k) && us.First() == vr.First() < p && IsPrime(p) && p > Pow(2, 255)
    ensures us.First() == 1 && us.len1 == 1 && us.Second() <= p
    ensures Cong(x * us.Second(), Pow(2, k), p) && 255 <= k <= 510
  {
    HalfTurnEnd(p, x, us.First(), us.Second(), vr.Second(), k);
    NonzeroTop(us.a[..], us.len1);
    if us.len1 > 1 { PowStrict(TWO32, 0, us.len1 - 1); }
  }
}
