/** scryptBlockMix and scryptROMix, sections 4 and 5 of RFC 7914, over an arbitrary Salsa20/8 core. */
module ScryptSpec {
  import opened Arith
  import opened Digits

  /** 64 bytes as 16 little-endian words. */
  type Block = b: seq<u32> | |b| == 16 witness seq(16, _ => 0)

  type Core = Block -> Block

  function XorWord(a: u32, b: u32): u32
  {
    WordPower();
    XorBound(a, b, 32);
    Xor(a, b)
  }

  lemma SmallPower()
    ensures Pow(2, 4) == 16
  {}

  /** Every bit is the exclusive or of the two bits. */
  ghost predicate Differ(c: u32, a: u32, b: u32)
  {
    forall j: nat :: BitSet(c, j) <==> BitSet(a, j) != BitSet(b, j)
  }

  lemma XorWordBits(a: u32, b: u32)
    ensures Differ(XorWord(a, b), a, b)
  {
    forall j: nat ensures BitSet(XorWord(a, b), j) <==> BitSet(a, j) != BitSet(b, j) { XorBits(a, b, j); }
  }

  lemma WordPower()
    ensures Pow(2, 32) == TWO32 && Pow(2, 64) == TWO64
  {
    hide Pow;
    SmallPower();
    PowAdd(2, 4, 4);
    PowAdd(2, 8, 8);
    PowAdd(2, 16, 16);
    PowAdd(2, 32, 32);
  }

  function XorBlock(a: Block, b: Block): Block
  {
    seq(16, i requires 0 <= i < 16 => XorWord(a[i], b[i]))
  }

  function XorBlocks(a: seq<Block>, b: seq<Block>): (r: seq<Block>)
    requires |a| == |b|
    ensures |r| == |a|
  {
    seq(|a|, k requires 0 <= k < |a| => XorBlock(a[k], b[k]))
  }

  /** The block X after step i of scryptBlockMix: X = B[2r - 1], then X = Salsa(X xor B[i]) for every i. */
  function Chain(core: Core, b: seq<Block>, i: nat): Block
    requires i <= |b| && |b| > 0
  {
    if i == 0 then b[|b| - 1] else core(XorBlock(Chain(core, b, i - 1), b[i - 1]))
  }

  /** scryptBlockMix: the blocks of even steps, then those of odd steps. */
  function BlockMix(core: Core, b: seq<Block>): (r: seq<Block>)
    requires |b| > 0 && |b| % 2 == 0
    ensures |r| == |b|
  {
    seq(|b|, q requires 0 <= q < |b| => Chain(core, b, if q < |b| / 2 then 2 * q + 1 else 2 * (q - |b| / 2) + 2))
  }

  /** V[i]: the input mixed i times. */
  function Mixed(core: Core, b: seq<Block>, i: nat): (r: seq<Block>)
    requires |b| > 0 && |b| % 2 == 0
    ensures |r| == |b|
  {
    if i == 0 then b else BlockMix(core, Mixed(core, b, i - 1))
  }

  /** The last 64-byte block as a little-endian integer. */
  function Integerify(b: seq<Block>): nat
    requires |b| > 0
  {
    Val(TWO32, b[|b| - 1])
  }

  /** X after i turns of the second loop of scryptROMix. */
  function Looked(core: Core, b: seq<Block>, n: nat, i: nat): (r: seq<Block>)
    requires |b| > 0 && |b| % 2 == 0 && n > 0
    ensures |r| == |b|
  {
    if i == 0 then Mixed(core, b, n)
    else
      var x := Looked(core, b, n, i - 1);
      BlockMix(core, XorBlocks(x, Mixed(core, b, Integerify(x) % n)))
  }

  /** scryptROMix */
  function ROMix(core: Core, b: seq<Block>, n: nat): (r: seq<Block>)
    requires |b| > 0 && |b| % 2 == 0 && n > 0
    ensures |r| == |b|
  {
    Looked(core, b, n, n)
  }

  // ---- the steps of RFC 7914 ----

  lemma MixedStart(core: Core, b: seq<Block>)
    requires |b| > 0 && |b| % 2 == 0
    ensures Mixed(core, b, 0) == b
  {}

  lemma MixedStep(core: Core, b: seq<Block>, i: nat)
    requires |b| > 0 && |b| % 2 == 0
    ensures Mixed(core, b, i + 1) == BlockMix(core, Mixed(core, b, i))
  {}

  lemma LookedStart(core: Core, b: seq<Block>, n: nat)
    requires |b| > 0 && |b| % 2 == 0 && n > 0
    ensures Looked(core, b, n, 0) == Mixed(core, b, n)
  {}

  lemma LookedStep(core: Core, b: seq<Block>, n: nat, i: nat)
    requires |b| > 0 && |b| % 2 == 0 && n > 0
    ensures var x := Looked(core, b, n, i);
      Looked(core, b, n, i + 1) == BlockMix(core, XorBlocks(x, Mixed(core, b, Integerify(x) % n)))
  {}

  lemma ChainStep(core: Core, b: seq<Block>, i: nat)
    requires i < |b|
    ensures Chain(core, b, i + 1) == core(XorBlock(Chain(core, b, i), b[i]))
  {}

  lemma ChainFirst(core: Core, b: seq<Block>)
    requires |b| > 0
    ensures Chain(core, b, 0) == b[|b| - 1]
  {}

  lemma BlockMixAt(core: Core, b: seq<Block>, q: nat)
    requires q < |b| / 2 && |b| % 2 == 0
    ensures BlockMix(core, b)[q] == Chain(core, b, 2 * q + 1)
    ensures BlockMix(core, b)[|b| / 2 + q] == Chain(core, b, 2 * q + 2)
  {
    hide Chain;
  }

  ghost predicate Xored(c: Block, a: Block, b: Block)
  {
    forall i :: 0 <= i < 16 ==> Differ(c[i], a[i], b[i])
  }

  lemma XorBlockBits(a: Block, b: Block)
    ensures Xored(XorBlock(a, b), a, b)
  {
    hide XorWord, Differ;
    forall i | 0 <= i < 16 ensures Differ(XorBlock(a, b)[i], a[i], b[i]) { XorWordBits(a[i], b[i]); }
  }

  /** Steps 1 and 2 of scryptBlockMix: X is the last block at first and is xored with every block and mixed in turn. */
  ghost predicate MixSteps(core: Core, b: seq<Block>, x: seq<Block>, y: seq<Block>)
  {
    |x| == |y| == |b| && forall i :: 0 <= i < |b| ==> MixStep(core, b, x, y, i)
  }

  ghost predicate MixStep(core: Core, b: seq<Block>, x: seq<Block>, y: seq<Block>, i: nat)
    requires |x| == |y| == |b| && i < |b|
  {
    Xored(x[i], if i == 0 then b[|b| - 1] else y[i - 1], b[i]) && y[i] == core(x[i])
  }

  /** Step 3: the result is Y[0], Y[2], ..., Y[1], Y[3], ... */
  lemma BlockMixSteps(core: Core, b: seq<Block>) returns (x: seq<Block>, y: seq<Block>)
    requires |b| > 0 && |b| % 2 == 0
    ensures MixSteps(core, b, x, y)
    ensures forall q :: 0 <= q < |b| / 2 ==>
      BlockMix(core, b)[q] == y[2 * q] && BlockMix(core, b)[|b| / 2 + q] == y[2 * q + 1]
  {
    hide Xored, XorBlock, Chain, BlockMix;
    x := seq(|b|, i requires 0 <= i < |b| => XorBlock(Chain(core, b, i), b[i]));
    y := seq(|b|, i requires 0 <= i < |b| => Chain(core, b, i + 1));
    forall i | 0 <= i < |b| ensures MixStep(core, b, x, y, i) {
      XorBlockBits(Chain(core, b, i), b[i]);
      ChainStep(core, b, i);
      if i == 0 { ChainFirst(core, b); } else { assert y[i - 1] == Chain(core, b, i); }
    }
    assert MixSteps(core, b, x, y);
    hide MixSteps;
    forall q | 0 <= q < |b| / 2
      ensures BlockMix(core, b)[q] == y[2 * q] && BlockMix(core, b)[|b| / 2 + q] == y[2 * q + 1]
    {
      BlockMixAt(core, b, q);
      assert y[2 * q] == Chain(core, b, 2 * q + 1) && y[2 * q + 1] == Chain(core, b, 2 * q + 2);
    }
  }

  /** scryptROMix: the table V, X after every turn, and what is mixed in that turn. */
  ghost predicate ROMixSteps(
    core: Core, b: seq<Block>, n: nat, v: seq<seq<Block>>, x: seq<seq<Block>>, t: seq<seq<Block>>)
    requires |b| > 0 && |b| % 2 == 0
  {
    && |v| == |t| == n && |x| == n + 1 && Tables(v, |b|) && Tables(x, |b|) && Tables(t, |b|)
    && (forall i :: 0 <= i < n ==> v[i] == if i == 0 then b else BlockMix(core, v[i - 1]))
    && (n > 0 ==> x[0] == BlockMix(core, v[n - 1]))
    && (forall i, k :: 0 <= i < n && 0 <= k < |b| ==> Xored(t[i][k], x[i][k], v[Integerify(x[i]) % n][k]))
    && (forall i :: 0 <= i < n ==> x[i + 1] == BlockMix(core, t[i]))
  }

  predicate Tables(v: seq<seq<Block>>, m: nat)
  {
    forall i :: 0 <= i < |v| ==> |v[i]| == m
  }

  lemma ROMixIsSteps(core: Core, b: seq<Block>, n: nat)
    returns (v: seq<seq<Block>>, x: seq<seq<Block>>, t: seq<seq<Block>>)
    requires |b| > 0 && |b| % 2 == 0 && n > 0
    ensures ROMixSteps(core, b, n, v, x, t) && ROMix(core, b, n) == x[n]
  {
    hide Xored, XorBlock, BlockMix, Integerify, Mixed, Looked;
    v := seq(n, i requires 0 <= i < n => Mixed(core, b, i));
    x := seq(n + 1, i requires 0 <= i <= n => Looked(core, b, n, i));
    t := seq(n, i requires 0 <= i < n =>
      XorBlocks(Looked(core, b, n, i), Mixed(core, b, Integerify(Looked(core, b, n, i)) % n)));
    forall i, k | 0 <= i < n && 0 <= k < |b| ensures Xored(t[i][k], x[i][k], v[Integerify(x[i]) % n][k]) {
      XorBlockBits(x[i][k], v[Integerify(x[i]) % n][k]);
    }
    MixedStart(core, b);
    LookedStart(core, b, n);
    forall i | 0 <= i < n
      ensures (i > 0 ==> v[i] == BlockMix(core, v[i - 1])) && x[i + 1] == BlockMix(core, t[i])
    {
      LookedStep(core, b, n, i);
      if i > 0 { MixedStep(core, b, i - 1); }
    }
    MixedStep(core, b, n - 1);
  }

  // ---- powers of two ----

  ghost predicate PowerOfTwo(n: nat)
  {
    exists k: nat :: n == Pow(2, k)
  }

  lemma {:induction false} AndSelf(a: nat)
    ensures And(a, a) == a
  {
    if a > 0 { AndSelf(a / 2); }
  }

  /** n & (n - 1) is zero exactly on powers of two. */
  lemma {:induction false} PowerTest(n: nat)
    requires n > 0
    ensures And(n, n - 1) == 0 <==> PowerOfTwo(n)
  {
    if n == 1 {
      assert n == Pow(2, 0);
    } else if n % 2 == 1 {
      AndSelf(n / 2);
      assert And(n, n - 1) == 2 * And(n / 2, (n - 1) / 2);
    } else {
      PowerTest(n / 2);
      assert (n - 1) / 2 == n / 2 - 1;
      if PowerOfTwo(n) {
        var k: nat :| n == Pow(2, k);
        assert n / 2 == Pow(2, k - 1);
      }
      if PowerOfTwo(n / 2) {
        var k: nat :| n / 2 == Pow(2, k);
        assert n == Pow(2, k + 1);
      }
    }
  }

  /** A mask of k ones keeps the remainder by 2^k. */
  lemma {:induction false} AndMask(x: nat, k: nat)
    ensures And(x, Pow(2, k) - 1) == x % Pow(2, k)
  {
    AndDropped(x, k);
    ShiftIsDivision(x, k);
  }

  lemma {:induction false} AndDropped(x: nat, k: nat)
    ensures And(x, Pow(2, k) - 1) == DroppedBits(x, k)
  {
    if k > 0 {
      assert Pow(2, k) == 2 * Pow(2, k - 1);
      if x > 0 { AndDropped(x / 2, k - 1); } else { NoBits(k); }
    }
  }

  lemma {:induction false} NoBits(k: nat)
    ensures DroppedBits(0, k) == 0
  {
    if k > 0 { NoBits(k - 1); }
  }

  /** The low 64 bits and a mask give the whole block's remainder, for a power of two of at most 64 bits. */
  lemma IntegerifyMasked(b: Block, n: nat)
    requires PowerOfTwo(n) && n <= TWO64
    ensures n > 0 && And(b[0] + b[1] * TWO32, n - 1) == Val(TWO32, b) % n
  {
    var k: nat :| n == Pow(2, k);
    var low, rest := b[0] + b[1] * TWO32, Val(TWO32, b[2..]);
    AndMask(low, k);
    LowWords(b);
    WordPower();
    if k > 64 { PowStrict(2, 64, k); }
    PowAdd(2, k, 64 - k);
    Remainder(low, rest, Pow(2, 64 - k), n);
  }

  lemma LowWords(b: Block)
    ensures Val(TWO32, b) == b[0] + b[1] * TWO32 + TWO64 * Val(TWO32, b[2..])
  {
    var c: seq<nat> := b[1..];
    assert c[1..] == b[2..];
    assert Val(TWO32, c) == b[1] + TWO32 * Val(TWO32, b[2..]);
    assert Val(TWO32, b) == b[0] + TWO32 * Val(TWO32, c);
  }

  lemma Remainder(low: nat, rest: nat, q: nat, n: nat)
    requires n > 0 && n * q == TWO64
    ensures (low + TWO64 * rest) % n == low % n
  {
    assert TWO64 * rest == (q * rest) * n;
    CongBy(low + TWO64 * rest, low, n, q * rest);
  }
}
