/** The 32 bytes of a 256-bit number: bn_read_be, bn_write_be and their little-endian counterparts repack between
    bytes, 32-bit words and 30-bit limbs. */
module BignumBytes {
  import opened Arith
  import opened Digits
  import opened Bignum
  import opened Register
  import opened Powers
  import opened FastInverse
  import opened ModularInverse

  // ---- words and bytes ----

  lemma ByteWeights()
    ensures Pow(2, 8) == 0x100 && Pow(2, 16) == 0x1_0000 && Pow(2, 24) == 0x100_0000
    ensures Pow(256, 0) == 1 && Pow(256, 1) == 0x100 && Pow(256, 2) == 0x1_0000 && Pow(256, 3) == 0x100_0000
      && Pow(256, 4) == TWO32
  {
    PowMul(2, 8, 2);
    PowMul(2, 8, 3);
    assert Pow(2, 8) == 256;
    assert Pow(256, 1) == 256 * Pow(256, 0);
    assert Pow(256, 2) == 256 * Pow(256, 1);
    assert Pow(256, 3) == 256 * Pow(256, 2);
    assert Pow(256, 4) == 256 * Pow(256, 3);
  }

  /** Four bytes as a number, most significant first. */
  function FourBytes(a: nat, b: nat, c: nat, d: nat): nat
  {
    0x100_0000 * a + 0x1_0000 * b + 0x100 * c + d
  }

  lemma SmallShift(x: nat, j: nat)
    requires x * Pow(2, j) < TWO32
    ensures ShiftLeft(x, j) == x * Pow(2, j)
  {
    ShiftLeftIsProduct(x, j);
  }

  lemma OrOfBytes(a: nat, b: nat, c: nat, d: nat)
    requires a < 256 && b < 256 && c < 256 && d < 256
    ensures Or(Or(Or(ShiftLeft(a, 24), ShiftLeft(b, 16)), ShiftLeft(c, 8)), d) == FourBytes(a, b, c, d) < TWO32
  {
    hide Or, ShiftLeft, Pow;
    ByteWeights();
    SmallShift(a, 24);
    SmallShift(b, 16);
    SmallShift(c, 8);
    OrShifted(b * 0x1_0000, a, 24);
    OrShifted(c * 0x100, a * 0x100 + b, 16);
    OrShifted(d, a * 0x1_0000 + b * 0x100 + c, 8);
  }

  /** read_be on its four bytes, and read_le on them in the other order. */
  method ReadWord(a: u8, b: u8, c: u8, d: u8) returns (r: u32)
    ensures r == FourBytes(a, b, c, d)
  {
    OrOfBytes(a, b, c, d);
    r := Or(Or(Or(ShiftLeft(a, 24), ShiftLeft(b, 16)), ShiftLeft(c, 8)), d);
  }

  lemma WordBytes(x: nat)
    requires x < TWO32
    ensures FourBytes(x / 0x100_0000, x / 0x1_0000 % 0x100, x / 0x100 % 0x100, x % 0x100) == x
  {
    var q := x / 0x100;
    var r := q / 0x100;
    assert x / 0x1_0000 == r;
    assert x / 0x100_0000 == r / 0x100;
  }

  /** One more word of a little-endian byte string. */
  lemma FourMore(b: seq<nat>, n: nat)
    requires n + 4 <= |b|
    ensures Val(256, b[n..]) == FourBytes(b[n + 3], b[n + 2], b[n + 1], b[n]) + TWO32 * Val(256, b[n + 4..])
  {
    var s := b[n..];
    assert s[1..] == b[n + 1..] && s[1..][1..] == b[n + 2..] && s[1..][1..][1..] == b[n + 3..]
      && s[1..][1..][1..][1..] == b[n + 4..];
    var v := Val(256, b[n + 4..]);
    assert Val(256, b[n + 3..]) == b[n + 3] + 256 * v;
    assert Val(256, b[n + 2..]) == b[n + 2] + 256 * Val(256, b[n + 3..]);
    assert Val(256, b[n + 1..]) == b[n + 1] + 256 * Val(256, b[n + 2..]);
  }

  /** The eight words of 32 little-endian bytes. */
  function WordsOf(b: seq<nat>): (w: seq<nat>)
    requires |b| == 32
    ensures |w| == 8 && forall i :: 0 <= i < 8 ==> w[i] == FourBytes(b[4 * i + 3], b[4 * i + 2], b[4 * i + 1], b[4 * i])
  {
    seq(8, i requires 0 <= i < 8 => FourBytes(b[4 * i + 3], b[4 * i + 2], b[4 * i + 1], b[4 * i]))
  }

  lemma {:induction false} WordsOfValue(b: seq<nat>, i: nat)
    requires |b| == 32 && i <= 8
    ensures Val(TWO32, WordsOf(b)[i..]) == Val(256, b[4 * i..])
    decreases 8 - i
  {
    if i < 8 {
      WordsOfValue(b, i + 1);
      FourMore(b, 4 * i);
      assert WordsOf(b)[i..][1..] == WordsOf(b)[i + 1..];
    }
  }

  // ---- reading ----

  /** The low 30 bits of a shifted word above the bits left over. */
  lemma MaskedOr(t: nat, w: nat, j: nat)
    requires j <= 30 && t < Pow(2, j)
    ensures Or(t, ShiftLeft(w, j)) % TWO30 == Or(ShiftLeft(w, j) % TWO30, t)
    ensures Or(t, ShiftLeft(w, j)) < TWO32
  {
    var x := ShiftLeft(w, j);
    ShiftedWord(w, j);
    OrShifted(t, DroppedBits(w, 32 - j), j);
    ShiftSplit(w, 32 - j);
    TwoTo32(j);
    MulLess(DroppedBits(w, 32 - j), Pow(2, 32 - j), Pow(2, j));
    assert Pow(2, 32 - j) * Pow(2, j) == Pow(2, j) * Pow(2, 32 - j);
    LimbPieces(w, t, j);
    MaskedShift(w, j);
    DivModUnique(t + x, TWO30, x / TWO30, t + x % TWO30);
  }

  lemma NormalAppend(s: seq<nat>, d: nat)
    requires Normal(TWO30, s) && d < TWO30
    ensures Normal(TWO30, s + [d])
  {}

  /** One turn of the reading loops. */
  lemma ReadStep(out: seq<nat>, t: nat, w: seq<nat>, i: nat)
    requires |w| == 8 && i < 8 && |out| == i && w[i] < TWO32 && t < Pow(2, 2 * i)
    requires Val(TWO32, w[..i]) == V(out) + W(i) * t
    ensures Or(t, ShiftLeft(w[i], 2 * i)) < TWO32
    ensures var limb := Or(t, ShiftLeft(w[i], 2 * i)) % TWO30;
      Val(TWO32, w[..i + 1]) == V(out + [limb]) + W(i + 1) * ShiftRight(w[i], 30 - 2 * i)
    ensures ShiftRight(w[i], 30 - 2 * i) < Pow(2, 2 * (i + 1))
  {
    MaskedOr(t, w[i], 2 * i);
    LimbFromWord(out, t, w, i);
  }

  /** bn_read_le */
  method ReadLE(data: array<u8>, x: array<u32>)
    requires data.Length == 32 && x.Length == 9
    modifies x
    ensures Normal(TWO30, x[..]) && V(x[..]) == Val(256, data[..])
  {
    hide Or, ShiftLeft, ShiftRight, DroppedBits, Val, Pow, FourBytes, Normal;
    ghost var w := WordsOf(data[..]);
    ReadStart(data[..]);
    var temp: u32 := 0;
    for i := 0 to 8
      invariant temp < Pow(2, 2 * i) && Normal(TWO30, x[..i])
      invariant Val(TWO32, w[..i]) == V(x[..i]) + W(i) * temp
    {
      ghost var out: seq<nat>, t := x[..i], temp;
      var limb := ReadWord(data[i * 4 + 3], data[i * 4 + 2], data[i * 4 + 1], data[i * 4]);
      assert limb == w[i];
      ReadStep(out, t, w, i);
      temp := Or(temp, ShiftLeft(limb, 2 * i));
      x[i] := temp % TWO30;
      assert x[..i + 1] == out + [x[i]];
      NormalAppend(out, x[i]);
      temp := ShiftRight(limb, 30 - 2 * i);
    }
    ReadEnd(x[..8], temp, w);
    ghost var out: seq<nat> := x[..8];
    x[8] := temp;
    assert x[..] == out + [x[8]];
    NormalAppend(out, x[8]);
  }

  /** bn_read_be */
  method ReadBE(data: array<u8>, x: array<u32>)
    requires data.Length == 32 && x.Length == 9
    modifies x
    ensures Normal(TWO30, x[..]) && V(x[..]) == BigEndian(256, data[..])
  {
    hide Or, ShiftLeft, ShiftRight, DroppedBits, Val, Pow, BigEndian, FourBytes, Normal;
    ghost var w := WordsOf(Reverse(data[..]));
    BigEndianReverse(256, data[..]);
    ReadStart(Reverse(data[..]));
    var temp: u32 := 0;
    for i := 0 to 8
      invariant temp < Pow(2, 2 * i) && Normal(TWO30, x[..i])
      invariant Val(TWO32, w[..i]) == V(x[..i]) + W(i) * temp
    {
      ghost var out: seq<nat>, t := x[..i], temp;
      var at := (7 - i) * 4;
      var limb := ReadWord(data[at], data[at + 1], data[at + 2], data[at + 3]);
      assert limb == w[i];
      ReadStep(out, t, w, i);
      temp := Or(temp, ShiftLeft(limb, 2 * i));
      x[i] := temp % TWO30;
      assert x[..i + 1] == out + [x[i]];
      NormalAppend(out, x[i]);
      temp := ShiftRight(limb, 30 - 2 * i);
    }
    ReadEnd(x[..8], temp, w);
    ghost var out: seq<nat> := x[..8];
    x[8] := temp;
    assert x[..] == out + [x[8]];
    NormalAppend(out, x[8]);
  }

  lemma ReadStart(b: seq<nat>)
    requires |b| == 32
    ensures Pow(2, 0) == 1 && Val(TWO32, WordsOf(b)[..0]) == 0 && V([]) == 0 && Normal(TWO30, [])
    ensures Val(TWO32, WordsOf(b)) == Val(256, b)
  {
    WordsOfValue(b, 0);
    assert WordsOf(b)[0..] == WordsOf(b) && b[0..] == b;
  }

  lemma ReadEnd(out: seq<nat>, t: nat, w: seq<nat>)
    requires |out| == 8 && |w| == 8 && t < Pow(2, 16)
    requires Val(TWO32, w[..8]) == V(out) + W(8) * t
    ensures V(out + [t]) == Val(TWO32, w) && t < TWO30
  {
    ValAppend(TWO30, out, t);
    assert w[..8] == w;
    SixteenBits();
  }

  // ---- writing ----

  /** The words above are complete; n bits of the limb last taken are still to come. */
  ghost predicate WordsAbove(words: nat, temp: nat, n: nat, limbs: seq<nat>)
  {
    V(limbs) == words * Pow(2, n) + DroppedBits(temp, n)
  }

  /** The word made of the low bits of one limb and the high bits of the next. */
  lemma WordFormed(temp: nat, limb: nat, i: nat)
    requires i < 8 && limb < TWO30
    ensures var word := Or(ShiftLeft(temp, 16 + 2 * i), ShiftRight(limb, 14 - 2 * i));
      word == ShiftRight(limb, 14 - 2 * i) + DroppedBits(temp, 16 - 2 * i) * Pow(2, 16 + 2 * i) < TWO32
  {
    hide Or, ShiftLeft, ShiftRight, DroppedBits, Pow;
    var a, b := 16 + 2 * i, 14 - 2 * i;
    ShiftedWord(temp, a);
    HighBits30(limb, b);
    OrShifted(ShiftRight(limb, b), DroppedBits(temp, 16 - 2 * i), a);
    ShiftSplit(temp, 16 - 2 * i);
    TwoTo32(a);
    WordBelow(ShiftRight(limb, b), DroppedBits(temp, 16 - 2 * i), Pow(2, a), Pow(2, 16 - 2 * i));
  }

  lemma WordBelow(t: nat, m: nat, w: nat, u: nat)
    requires t < w && m < u && w * u == TWO32
    ensures t + m * w < TWO32
  {
    MulLess(m, u, w);
    assert u * w == w * u;
  }

  /** One turn of the writing loops. */
  lemma WriteStep(words: nat, temp: nat, i: nat, limbs: seq<nat>)
    requires i < 8 && |limbs| > 0 && limbs[0] < TWO30
    requires WordsAbove(words, temp, 16 - 2 * i, limbs[1..])
    ensures var word := Or(ShiftLeft(temp, 16 + 2 * i), ShiftRight(limbs[0], 14 - 2 * i));
      word < TWO32 && WordsAbove(TWO32 * words + word, limbs[0], 14 - 2 * i, limbs)
  {
    hide Or, ShiftLeft, ShiftRight, DroppedBits, Pow;
    var a, b := 16 + 2 * i, 14 - 2 * i;
    WordFormed(temp, limbs[0], i);
    ShiftSplit(limbs[0], b);
    TwoTo30();
    PowAdd(2, b, a);
    PowAdd(2, b, 2);
    TwoSquared();
    WordGrows(words, Pow(2, b), Pow(2, a), DroppedBits(temp, 16 - 2 * i), ShiftRight(limbs[0], b),
      DroppedBits(limbs[0], b));
  }

  lemma TwoSquared()
    ensures Pow(2, 2) == 4
  {}

  lemma WordGrows(words: nat, b: nat, a: nat, m: nat, q: nat, r: nat)
    requires b * a == TWO30
    ensures (q * b + r) + TWO30 * (words * (b * 4) + m) == (TWO32 * words + (q + m * a)) * b + r
  {
    assert (q + m * a) * b == q * b + m * (b * a);
    assert (TWO32 * words) * b == TWO30 * (words * (b * 4));
    assert (TWO32 * words + (q + m * a)) * b == (TWO32 * words) * b + (q + m * a) * b;
    assert TWO30 * (words * (b * 4) + m) == TWO30 * (words * (b * 4)) + TWO30 * m;
  }

  lemma WriteStart(s: seq<nat>)
    requires |s| == 9 && Normal(TWO30, s) && V(s) < TWO256
    ensures WordsAbove(0, s[8], 16, s[8..])
  {
    hide ShiftRight, DroppedBits, Pow, Normal, Val;
    ValSplit(TWO30, s, 8);
    assert s[8..] == [s[8]];
    Single(s[8]);
    Weights();
    SixteenBits();
    ShiftIsDivision(s[8], 16);
  }

  lemma WriteEnd(words: nat, temp: nat, s: seq<nat>)
    requires WordsAbove(words, temp, 0, s)
    ensures V(s) == words
  {}

  /** write_le */
  method PutLE(out: array<u8>, at: nat, x: u32)
    requires at + 4 <= out.Length
    modifies out
    ensures Val(256, out[at..]) == TWO32 * Val(256, old(out[at + 4..])) + x
    ensures forall j :: 0 <= j < out.Length && !(at <= j < at + 4) ==> out[j] == old(out[j])
  {
    hide Val;
    ghost var after: seq<nat> := out[at + 4..];
    out[at + 3], out[at + 2], out[at + 1], out[at] := x / 0x100_0000, x / 0x1_0000 % 0x100, x / 0x100 % 0x100,
      x % 0x100;
    WordBytes(x);
    FourMore(out[..], at);
    assert out[..][at..] == out[at..] && out[..][at + 4..] == after;
  }

  /** bn_write_le */
  method WriteLE(x: array<u32>, out: array<u8>)
    requires x.Length == 9 && out.Length == 32 && Normal(TWO30, x[..]) && V(x[..]) < TWO256
    modifies out
    ensures Val(256, out[..]) == V(x[..])
  {
    hide Or, ShiftLeft, ShiftRight, DroppedBits, Val, Pow, Normal, WordsAbove;
    ghost var s: seq<nat> := x[..];
    var temp: u32 := x[8];
    WriteStart(s);
    assert out[32..] == [];
    NoBytes();
    for i := 0 to 8
      invariant temp == s[8 - i] && s == x[..]
      invariant WordsAbove(Val(256, out[32 - 4 * i..]), temp, 16 - 2 * i, s[8 - i..])
    {
      var at := (7 - i) * 4;
      assert 32 - 4 * i == at + 4 && 32 - 4 * (i + 1) == at;
      ghost var words := Val(256, out[at + 4..]);
      var limb: u32 := x[7 - i];
      LimbIn(s, 7 - i);
      WriteStep(words, temp, i, s[7 - i..]);
      temp := Or(ShiftLeft(temp, 16 + 2 * i), ShiftRight(limb, 14 - 2 * i));
      PutLE(out, at, temp);
      temp := limb;
    }
    WriteEnd(Val(256, out[..]), temp, s);
    assert out[0..] == out[..] && s[0..] == s;
  }

  lemma NoBytes()
    ensures Val(256, []) == 0 && BigEndian(256, []) == 0
  {}

  lemma LimbIn(s: seq<nat>, i: nat)
    requires i < |s| && Normal(TWO30, s)
    ensures s[i..][0] == s[i] < TWO30 && s[i..][1..] == s[i + 1..]
  {}

  /** Four more bytes at the end of a big-endian byte string. */
  lemma FourAppended(b: seq<nat>, n: nat)
    requires n + 4 <= |b|
    ensures BigEndian(256, b[..n + 4]) == TWO32 * BigEndian(256, b[..n]) + FourBytes(b[n], b[n + 1], b[n + 2], b[n + 3])
  {
    var s := b[..n + 4];
    assert s[..n + 3] == b[..n + 3] && b[..n + 3][..n + 2] == b[..n + 2] && b[..n + 2][..n + 1] == b[..n + 1]
      && b[..n + 1][..n] == b[..n];
    assert BigEndian(256, b[..n + 1]) == BigEndian(256, b[..n]) * 256 + b[n];
    assert BigEndian(256, b[..n + 2]) == BigEndian(256, b[..n + 1]) * 256 + b[n + 1];
    assert BigEndian(256, b[..n + 3]) == BigEndian(256, b[..n + 2]) * 256 + b[n + 2];
  }

  /** write_be */
  method PutBE(out: array<u8>, at: nat, x: u32)
    requires at + 4 <= out.Length
    modifies out
    ensures BigEndian(256, out[..at + 4]) == TWO32 * BigEndian(256, old(out[..at])) + x
    ensures forall j :: 0 <= j < out.Length && !(at <= j < at + 4) ==> out[j] == old(out[j])
  {
    hide BigEndian;
    ghost var before: seq<nat> := out[..at];
    out[at], out[at + 1], out[at + 2], out[at + 3] := x / 0x100_0000, x / 0x1_0000 % 0x100, x / 0x100 % 0x100,
      x % 0x100;
    WordBytes(x);
    FourAppended(out[..], at);
    assert out[..][..at] == before && out[..][..at + 4] == out[..at + 4];
  }

  /** bn_write_be */
  method WriteBE(x: array<u32>, out: array<u8>)
    requires x.Length == 9 && out.Length == 32 && Normal(TWO30, x[..]) && V(x[..]) < TWO256
    modifies out
    ensures BigEndian(256, out[..]) == V(x[..])
  {
    hide Or, ShiftLeft, ShiftRight, DroppedBits, Val, BigEndian, Pow, Normal, WordsAbove;
    ghost var s: seq<nat> := x[..];
    var temp: u32 := x[8];
    WriteStart(s);
    assert out[..0] == [];
    NoBytes();
    for i := 0 to 8
      invariant temp == s[8 - i] && s == x[..]
      invariant WordsAbove(BigEndian(256, out[..4 * i]), temp, 16 - 2 * i, s[8 - i..])
    {
      var at := i * 4;
      assert 4 * i == at && 4 * (i + 1) == at + 4;
      ghost var words := BigEndian(256, out[..at]);
      var limb: u32 := x[7 - i];
      LimbIn(s, 7 - i);
      WriteStep(words, temp, i, s[7 - i..]);
      temp := Or(ShiftLeft(temp, 16 + 2 * i), ShiftRight(limb, 14 - 2 * i));
      PutBE(out, at, temp);
      temp := limb;
    }
    assert out[..32] == out[..] && s[0..] == s;
    WriteEnd(BigEndian(256, out[..]), temp, s);
  }

  // ---- round trips ----

  /** Reading back what was written gives the same limbs. */
  method WriteThenRead(x: array<u32>) returns (y: array<u32>)
    requires x.Length == 9 && Normal(TWO30, x[..]) && V(x[..]) < TWO256
    ensures y[..] == x[..]
  {
    var bytes := new u8[32];
    WriteBE(x, bytes);
    y := new u32[9];
    ReadBE(bytes, y);
    ValInjective(TWO30, y[..], x[..]);
  }

  /** Writing what was read gives the same bytes. */
  method ReadThenWrite(data: array<u8>) returns (bytes: array<u8>)
    requires data.Length == 32
    ensures bytes[..] == data[..]
  {
    var x := new u32[9];
    ReadBE(data, x);
    bytes := new u8[32];
    BytesFit(data[..]);
    WriteBE(x, bytes);
    BytesDetermined(bytes[..], data[..]);
  }

  lemma BytesFit(b: seq<u8>)
    requires |b| == 32
    ensures BigEndian(256, b) < TWO256
  {
    BigEndianReverse(256, b);
    ValBound(256, Reverse(b));
    ByteWeights();
    PowMul(256, 4, 8);
    TwoTo256();
  }

  lemma BytesDetermined(a: seq<u8>, b: seq<u8>)
    requires |a| == |b| && BigEndian(256, a) == BigEndian(256, b)
    ensures a == b
  {
    BigEndianReverse(256, a);
    BigEndianReverse(256, b);
    ValInjective(256, Reverse(a), Reverse(b));
    forall i | 0 <= i < |a| ensures a[i] == b[i] {
      assert Reverse(a)[|a| - 1 - i] == a[i] && Reverse(b)[|b| - 1 - i] == b[i];
    }
  }
}
