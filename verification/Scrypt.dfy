/** Scrypt.swift: the mixing functions on shared word buffers, addressed by offsets. */
module Scrypt {
  import opened Arith
  import Digits
  import opened ScryptSpec

  // ---- words at an offset ----

  /** A sequence with the words from an offset on replaced. */
  function Put(s: seq<u32>, o: nat, e: seq<u32>): (t: seq<u32>)
    requires o + |e| <= |s|
    ensures |t| == |s| && t[o..o + |e|] == e
  {
    s[..o] + e + s[o + |e|..]
  }

  /** Regions apart from each other. */
  predicate Apart(a: nat, m: nat, b: nat, n: nat)
  {
    a + m <= b || b + n <= a
  }

  lemma PutIs(s: seq<u32>, o: nat, e: seq<u32>, t: seq<u32>)
    requires o + |e| <= |s| == |t|
    requires forall k :: o <= k < o + |e| ==> t[k] == e[k - o]
    requires forall k :: 0 <= k < |t| && !(o <= k < o + |e|) ==> t[k] == s[k]
    ensures t == Put(s, o, e)
  {}

  lemma PutElsewhere(s: seq<u32>, o: nat, e: seq<u32>, a: nat, n: nat)
    requires o + |e| <= |s| && a + n <= |s| && Apart(o, |e|, a, n)
    ensures Put(s, o, e)[a..a + n] == s[a..a + n]
  {
    var t := Put(s, o, e);
    forall k | a <= k < a + n ensures t[k] == s[k] {}
  }

  lemma PutTwice(s: seq<u32>, o: nat, e: seq<u32>, f: seq<u32>)
    requires o + |e| <= |s| && |f| == |e|
    ensures Put(Put(s, o, e), o, f) == Put(s, o, f)
  {}

  /** m blocks from an offset on. */
  function BlocksAt(s: seq<u32>, o: nat, m: nat): (r: seq<Block>)
    requires o + 16 * m <= |s|
    ensures |r| == m
  {
    seq(m, k requires 0 <= k < m => s[o + 16 * k..o + 16 * k + 16])
  }

  lemma BlocksElsewhere(s: seq<u32>, o: nat, e: seq<u32>, a: nat, m: nat)
    requires o + |e| <= |s| && a + 16 * m <= |s| && Apart(o, |e|, a, 16 * m)
    ensures BlocksAt(Put(s, o, e), a, m) == BlocksAt(s, a, m)
  {
    forall k | 0 <= k < m ensures BlocksAt(Put(s, o, e), a, m)[k] == BlocksAt(s, a, m)[k] {
      PutElsewhere(s, o, e, a + 16 * k, 16);
    }
  }

  lemma PutBlock(s: seq<u32>, a: nat, m: nat, k: nat, e: Block)
    requires a + 16 * m <= |s| && k < m
    ensures BlocksAt(Put(s, a + 16 * k, e), a, m) == BlocksAt(s, a, m)[k := e]
  {
    var t := BlocksAt(Put(s, a + 16 * k, e), a, m);
    var u := BlocksAt(s, a, m)[k := e];
    forall q | 0 <= q < m ensures t[q] == u[q] {
      if q != k { PutElsewhere(s, a + 16 * k, e, a + 16 * q, 16); }
    }
  }

  lemma PartOf(s: seq<u32>, a: nat, n: nat, k: nat)
    requires a + n <= |s| && k + 16 <= n
    ensures s[a + k..a + k + 16] == s[a..a + n][k..k + 16]
  {
    var u, v := s[a + k..a + k + 16], s[a..a + n][k..k + 16];
    forall i | 0 <= i < 16 ensures u[i] == v[i] {}
  }

  /** Equal words are equal blocks. */
  lemma SameBlocks(s: seq<u32>, a: nat, t: seq<u32>, b: nat, m: nat)
    requires a + 16 * m <= |s| && b + 16 * m <= |t| && s[a..a + 16 * m] == t[b..b + 16 * m]
    ensures BlocksAt(s, a, m) == BlocksAt(t, b, m)
  {
    forall k | 0 <= k < m ensures BlocksAt(s, a, m)[k] == BlocksAt(t, b, m)[k] {
      PartOf(s, a, 16 * m, 16 * k);
      PartOf(t, b, 16 * m, 16 * k);
    }
  }

  function XorWords(a: seq<u32>, b: seq<u32>): (r: seq<u32>)
    requires |a| == |b|
    ensures |r| == |a|
  {
    seq(|a|, i requires 0 <= i < |a| => XorWord(a[i], b[i]))
  }

  lemma XoredAt(a: seq<u32>, b: seq<u32>, i: nat)
    requires i < |a| == |b|
    ensures XorWords(a, b)[i] == XorWord(a[i], b[i])
  {}

  lemma XorOfBlocks(s: seq<u32>, a: nat, t: seq<u32>, b: nat, m: nat)
    requires a + 16 * m <= |s| && b + 16 * m <= |t|
    ensures BlocksAt(XorWords(s[a..a + 16 * m], t[b..b + 16 * m]), 0, m)
      == XorBlocks(BlocksAt(s, a, m), BlocksAt(t, b, m))
  {
    var x := XorWords(s[a..a + 16 * m], t[b..b + 16 * m]);
    forall k | 0 <= k < m ensures BlocksAt(x, 0, m)[k] == XorBlocks(BlocksAt(s, a, m), BlocksAt(t, b, m))[k] {
      PartOf(s, a, 16 * m, 16 * k);
      PartOf(t, b, 16 * m, 16 * k);
      XorOfParts(s[a..a + 16 * m], t[b..b + 16 * m], 16 * k);
    }
  }

  lemma XoredInPlace(s: seq<u32>, x: nat, v: seq<u32>, o: nat, m: nat, t: seq<u32>)
    requires x + 16 * m <= |s| && o + 16 * m <= |v| && t == Put(s, x, XorWords(s[x..x + 16 * m], v[o..o + 16 * m]))
    ensures BlocksAt(t, x, m) == XorBlocks(BlocksAt(s, x, m), BlocksAt(v, o, m))
  {
    hide BlocksAt, XorWords, XorBlocks, Put;
    var e := XorWords(s[x..x + 16 * m], v[o..o + 16 * m]);
    XorOfBlocks(s, x, v, o, m);
    assert e[0..16 * m] == e;
    SameBlocks(t, x, e, 0, m);
  }

  lemma XorOfParts(u: seq<u32>, v: seq<u32>, k: nat)
    requires |u| == |v| && k + 16 <= |u|
    ensures XorWords(u, v)[k..k + 16] == XorBlock(u[k..k + 16], v[k..k + 16])
  {}

  // ---- the class ----

  /** The first n of the words from d on have been replaced by those of e. */
  ghost predicate Replaced(s: seq<u32>, d: nat, e: seq<u32>, t: seq<u32>, n: nat)
    requires d + |e| <= |s| && n <= |e|
  {
    && |t| == |s|
    && (forall k :: d <= k < d + n ==> t[k] == e[k - d])
    && (forall k :: 0 <= k < |s| && !(d <= k < d + n) ==> t[k] == s[k])
  }

  lemma NothingReplaced(s: seq<u32>, d: nat, e: seq<u32>)
    requires d + |e| <= |s|
    ensures Replaced(s, d, e, s, 0)
  {}

  /** The next two words of both regions are still there; they are replaced by their xor. */
  lemma NextTwo(s: seq<u32>, d: nat, from: seq<u32>, o: nat, w: nat, n: nat, t: seq<u32>, u: seq<u32>)
    requires d + w <= |s| && o + w <= |from| && n + 2 <= w
    requires Replaced(s, d, XorWords(s[d..d + w], from[o..o + w]), t, n)
    requires u == from || (u == t && from == s && Apart(d, w, o, w))
    ensures |t| == |s| && |u| == |from|
    ensures var e: seq<u32> := XorWords(s[d..d + w], from[o..o + w]);
      && XorWord(t[d + n], u[o + n]) == e[n] && XorWord(t[d + n + 1], u[o + n + 1]) == e[n + 1]
      && Replaced(s, d, e, t[d + n := e[n]][d + n + 1 := e[n + 1]], n + 2)
  {
    hide XorWord, XorWords;
    XoredAt(s[d..d + w], from[o..o + w], n);
    XoredAt(s[d..d + w], from[o..o + w], n + 1);
  }

  /** So every bit in the region is the exclusive or of two bits, and nothing else has changed. */
  lemma BitsXored(s: seq<u32>, d: nat, from: seq<u32>, o: nat, w: nat, t: seq<u32>)
    requires d + w <= |s| && o + w <= |from| && Replaced(s, d, XorWords(s[d..d + w], from[o..o + w]), t, w)
    ensures |t| == |s| && forall k :: 0 <= k < |s| && !(d <= k < d + w) ==> t[k] == s[k]
    ensures forall k :: d <= k < d + w ==> Differ(t[k], s[k], from[o + (k - d)])
  {
    hide XorWord, Differ;
    forall k | d <= k < d + w ensures Differ(t[k], s[k], from[o + (k - d)]) {
      XorWordBits(s[k], from[o + (k - d)]);
      XoredAt(s[d..d + w], from[o..o + w], k - d);
    }
  }

  lemma AllReplaced(s: seq<u32>, d: nat, e: seq<u32>, t: seq<u32>)
    requires d + |e| <= |s| && Replaced(s, d, e, t, |e|)
    ensures t == Put(s, d, e)
  {
    PutIs(s, d, e, t);
  }

  class Scrypt {
    const r: nat
    const n: nat
    const core: Core

    constructor (r: nat, n: nat, core: Core)
      ensures this.r == r && this.n == n && this.core == core
    {
      this.r, this.n, this.core := r, n, core;
    }

    /** copyMemory, len bytes, between regions that do not overlap. */
    method CopyMemory(dest: array<u32>, d: nat, src: array<u32>, s: nat, len: nat)
      requires len % 4 == 0 && d + len / 4 <= dest.Length && s + len / 4 <= src.Length
      requires dest == src ==> Apart(d, len / 4, s, len / 4)
      modifies dest
      ensures dest[..] == Put(old(dest[..]), d, old(src[s..s + len / 4]))
    {
      ghost var from := src[s..s + len / 4];
      var i := 0;
      while i < len / 4
        invariant 0 <= i <= len / 4
        invariant dest == src ==> forall k :: s <= k < s + len / 4 ==> dest[k] == old(src[k])
        invariant forall k :: d <= k < d + i ==> dest[k] == from[k - d]
        invariant forall k :: 0 <= k < dest.Length && !(d <= k < d + i) ==> dest[k] == old(dest[k])
      {
        assert src[s + i] == from[i];
        dest[d + i] := src[s + i];
        i := i + 1;
      }
      PutIs(old(dest[..]), d, from, dest[..]);
    }

    /** One 64-bit step of blockXor. */
    method XorTwo(dest: array<u32>, d: nat, src: array<u32>, s: nat, ghost x: u32, ghost y: u32)
      requires d + 2 <= dest.Length && s + 2 <= src.Length
      requires XorWord(dest[d], src[s]) == x && XorWord(dest[d + 1], src[s + 1]) == y
      modifies dest
      ensures dest[..] == old(dest[..])[d := x][d + 1 := y]
    {
      hide XorWord;
      dest[d], dest[d + 1] := XorWord(dest[d], src[s]), XorWord(dest[d + 1], src[s + 1]);
    }

    /** blockXor, 64 bits at a time, between regions that do not overlap. */
    method BlockXor(dest: array<u32>, d: nat, src: array<u32>, s: nat, len: nat)
      requires len % 8 == 0 && d + len / 4 <= dest.Length && s + len / 4 <= src.Length
      requires dest == src ==> Apart(d, len / 4, s, len / 4)
      modifies dest
      ensures dest[..] == Put(old(dest[..]), d, XorWords(old(dest[d..d + len / 4]), old(src[s..s + len / 4])))
      ensures forall k :: d <= k < d + len / 4 ==> Differ(dest[k], old(dest[k]), old(src[s + (k - d)]))
      ensures forall k :: 0 <= k < dest.Length && !(d <= k < d + len / 4) ==> dest[k] == old(dest[k])
    {
      hide XorWord, Put, XorWords, Apart, Replaced, Differ;
      ghost var w := len / 4;
      ghost var s0, from := dest[..], src[..];
      ghost var e: seq<u32> := XorWords(s0[d..d + w], from[s..s + w]);
      NothingReplaced(s0, d, e);
      var i := 0;
      while i < len / 8
        invariant 0 <= i <= len / 8
        invariant Replaced(s0, d, e, dest[..], 2 * i)
        invariant dest != src ==> src[..] == from
      {
        var k := 2 * i;
        NextTwo(s0, d, from, s, w, k, dest[..], src[..]);
        XorTwo(dest, d + k, src, s + k, e[k], e[k + 1]);
        i := i + 1;
      }
      AllReplaced(s0, d, e, dest[..]);
      BitsXored(s0, d, from, s, w, dest[..]);
    }

    /** salsa20_8, in place on the block at an offset. */
    method Salsa(x: array<u32>, o: nat)
      requires o + 16 <= x.Length
      modifies x
      ensures x[..] == Put(old(x[..]), o, core(old(x[o..o + 16])))
    {
      var salsaBlock := core(x[o..o + 16]);
      var i := 0;
      while i < 16
        invariant 0 <= i <= 16
        invariant forall k :: o <= k < o + i ==> x[k] == salsaBlock[k - o]
        invariant forall k :: 0 <= k < x.Length && !(o <= k < o + i) ==> x[k] == old(x[k])
      {
        x[o + i] := salsaBlock[i];
        i := i + 1;
      }
      assert x[..] == Put(old(x[..]), o, salsaBlock);
    }

    /** x is mixed with block i of the input and stored as block q of the output; the input stays as it is. */
    ghost predicate Stepped(s: seq<u32>, t: seq<u32>, bin: nat, bout: nat, x: nat, i: nat, q: nat)
      requires |s| == |t| && i < 2 * r && q < 2 * r && bin + 32 * r <= |s| && bout + 32 * r <= |s| && x + 16 <= |s|
    {
      var e := core(XorBlock(s[x..x + 16], BlocksAt(s, bin, 2 * r)[i]));
      && t[x..x + 16] == e
      && BlocksAt(t, bin, 2 * r) == BlocksAt(s, bin, 2 * r)
      && BlocksAt(t, bout, 2 * r) == BlocksAt(s, bout, 2 * r)[q := e]
      && t[bin..bin + 32 * r] == s[bin..bin + 32 * r]
    }

    /** The block at x becomes the core of its xor with another block. */
    method XorSalsa(xy: array<u32>, x: nat, o: nat)
      requires x + 16 <= xy.Length && o + 16 <= xy.Length && Apart(x, 16, o, 16)
      modifies xy
      ensures xy[..] == Put(old(xy[..]), x, core(XorBlock(old(xy[x..x + 16]), old(xy[o..o + 16]))))
    {
      hide XorWords, Put, XorWord, XorBlock;
      ghost var s0 := xy[..];
      ghost var e := XorBlock(s0[x..x + 16], s0[o..o + 16]);
      XorIsBlock(s0[x..x + 16], s0[o..o + 16]);
      BlockXor(xy, x, xy, o, 64);
      Salsa(xy, x);
      PutTwice(s0, x, e, core(e));
    }

    lemma StepDone(s: seq<u32>, bin: nat, bout: nat, x: nat, i: nat, q: nat)
      requires i < 2 * r && q < 2 * r && bin + 32 * r <= |s| && bout + 32 * r <= |s| && x + 16 <= |s|
      requires Apart(bin, 32 * r, bout, 32 * r) && Apart(bin, 32 * r, x, 16) && Apart(bout, 32 * r, x, 16)
      ensures var e := core(XorBlock(s[x..x + 16], BlocksAt(s, bin, 2 * r)[i]));
        Stepped(s, Put(Put(s, x, e), bout + 16 * q, e), bin, bout, x, i, q)
    {
      hide Apart, BlocksAt, Put, XorBlock;
      MixStepEffect(s, bin, bout, x, 2 * r, q, core(XorBlock(s[x..x + 16], BlocksAt(s, bin, 2 * r)[i])));
    }

    /** One step of blockMixSalsa8: x is mixed with block i of the input and stored as block q of the output. */
    method MixStep(xy: array<u32>, bin: nat, bout: nat, x: nat, i: nat, q: nat)
      requires r > 0 && i < 2 * r && q < 2 * r
      requires bin + 32 * r <= xy.Length && bout + 32 * r <= xy.Length && x + 16 <= xy.Length
      requires Apart(bin, 32 * r, bout, 32 * r) && Apart(bin, 32 * r, x, 16) && Apart(bout, 32 * r, x, 16)
      modifies xy
      ensures Stepped(old(xy[..]), xy[..], bin, bout, x, i, q)
    {
      hide Apart, XorWords, BlocksAt, Put, XorWord, XorBlock, Stepped;
      ghost var s0 := xy[..];
      ghost var m := 2 * r;
      BlockApart(bin, m, i, x);
      BlockApart(bout, m, q, x);
      BlockIs(s0, bin, m, i);
      ghost var e := core(XorBlock(s0[x..x + 16], BlocksAt(s0, bin, m)[i]));
      XorSalsa(xy, x, bin + 16 * i);
      CopyMemory(xy, bout + 16 * q, xy, x, 64);
      StepDone(s0, bin, bout, x, i, q);
    }

    /** blockMixSalsa8: the output region gets scryptBlockMix of the input region. */
    method BlockMixSalsa8(xy: array<u32>, bin: nat, bout: nat, x: nat)
      requires r > 0
      requires bin + 32 * r <= xy.Length && bout + 32 * r <= xy.Length && x + 16 <= xy.Length
      requires Apart(bin, 32 * r, bout, 32 * r) && Apart(bin, 32 * r, x, 16) && Apart(bout, 32 * r, x, 16)
      modifies xy
      ensures BlocksAt(xy[..], bout, 2 * r) == BlockMix(core, old(BlocksAt(xy[..], bin, 2 * r)))
      ensures xy[bin..bin + 32 * r] == old(xy[bin..bin + 32 * r])
    {
      hide BlocksAt, Put, XorWord, XorBlock, XorWords, Chain, Interleaved, BlockMix, Apart;
      ghost var b := BlocksAt(xy[..], bin, 2 * r);
      ApartFromLast(bin, x, r);
      CopyMemory(xy, x, xy, bin + (2 * r - 1) * 16, 64);
      CopiedLast(old(xy[..]), bin, x, 2 * r);
      ChainStart(core, b, BlocksAt(xy[..], bout, 2 * r));
      var i := 0;
      while i < 2 * r
        invariant 0 <= i <= 2 * r && i % 2 == 0
        invariant Halfway(xy[..], bin, bout, x, b, i) && xy[bin..bin + 32 * r] == old(xy[bin..bin + 32 * r])
      {
        MixTwo(xy, bin, bout, x, i, b);
        i := i + 2;
      }
      AllInterleaved(core, b, BlocksAt(xy[..], bout, 2 * r));
    }

    /** After i steps of blockMixSalsa8. */
    ghost predicate Halfway(s: seq<u32>, bin: nat, bout: nat, x: nat, b: seq<Block>, i: nat)
      requires r > 0 && bin + 32 * r <= |s| && bout + 32 * r <= |s| && x + 16 <= |s| && i % 2 == 0 && i <= 2 * r
    {
      && BlocksAt(s, bin, 2 * r) == b && |b| == 2 * r
      && s[x..x + 16] == Chain(core, b, i)
      && Interleaved(core, b, BlocksAt(s, bout, 2 * r), i / 2)
    }

    /** One turn of the loop of blockMixSalsa8: an even step and an odd one. */
    method MixTwo(xy: array<u32>, bin: nat, bout: nat, x: nat, i: nat, ghost b: seq<Block>)
      requires r > 0 && i % 2 == 0 && i < 2 * r
      requires bin + 32 * r <= xy.Length && bout + 32 * r <= xy.Length && x + 16 <= xy.Length
      requires Apart(bin, 32 * r, bout, 32 * r) && Apart(bin, 32 * r, x, 16) && Apart(bout, 32 * r, x, 16)
      requires Halfway(xy[..], bin, bout, x, b, i)
      modifies xy
      ensures Halfway(xy[..], bin, bout, x, b, i + 2)
      ensures xy[bin..bin + 32 * r] == old(xy[bin..bin + 32 * r])
    {
      hide BlocksAt, Put, XorWord, XorBlock, XorWords, Chain, Interleaved, BlockMix, Apart;
      ghost var out := BlocksAt(xy[..], bout, 2 * r);
      MixStep(xy, bin, bout, x, i, i / 2);
      assert xy[bin..bin + 32 * r] == xy[..][bin..bin + 32 * r];
      MixStep(xy, bin, bout, x, i + 1, i / 2 + r);
      assert xy[bin..bin + 32 * r] == xy[..][bin..bin + 32 * r];
      ChainStep(core, b, i);
      ChainStep(core, b, i + 1);
      NextInterleaved(core, b, out, i / 2);
    }

    /** The first loop of smix over the tables: V[i] for every i, two at a time, X and Y taking turns. */
    method FillTable(v: array<u32>, xy: array<u32>, ghost b: seq<Block>)
      requires r > 0 && n % 2 == 0 && v != xy && |b| == 2 * r
      requires Slot(n, r) <= v.Length && 64 * r + 16 <= xy.Length
      requires BlocksAt(xy[..], 0, 2 * r) == b
      modifies v, xy
      ensures Filled(core, b, v[..], r, n)
      ensures BlocksAt(xy[..], 0, 2 * r) == Mixed(core, b, n)
    {
      hide BlocksAt, Put, Mixed, Slot, BlockMix, Apart;
      MixedStart(core, b);
      NoSlots(r);
      var i := 0;
      while i < n
        invariant 0 <= i <= n && i % 2 == 0
        invariant Slot(i, r) <= v.Length && Filled(core, b, v[..], r, i)
        invariant BlocksAt(xy[..], 0, 2 * r) == Mixed(core, b, i)
      {
        FillSlot(v, xy, 0, i, b);
        Regions(r);
        BlockMixSalsa8(xy, 0, 32 * r, 64 * r);
        MixedStep(core, b, i);
        FillSlot(v, xy, 32 * r, i + 1, b);
        BlockMixSalsa8(xy, 32 * r, 0, 64 * r);
        MixedStep(core, b, i + 1);
        i := i + 2;
      }
    }

    /** V[i] <-- X, for X at an offset. */
    method FillSlot(v: array<u32>, xy: array<u32>, x: nat, i: nat, ghost b: seq<Block>)
      requires r > 0 && i < n && v != xy && |b| == 2 * r
      requires Slot(n, r) <= v.Length && x + 32 * r <= xy.Length
      requires Slot(i, r) <= v.Length && Filled(core, b, v[..], r, i)
      requires BlocksAt(xy[..], x, 2 * r) == Mixed(core, b, i)
      modifies v
      ensures Slot(i + 1, r) <= v.Length && Filled(core, b, v[..], r, i + 1)
    {
      hide BlocksAt, Put, Mixed, Slot;
      SlotsGrow(i + 1, n, r);
      SlotNext(i, r);
      ghost var s := v[..];
      CopyMemory(v, Slot(i, r), xy, x, 128 * r);
      SameBlocks(xy[..], x, xy[x..x + 32 * r], 0, 2 * r);
      FilledNext(core, b, s, r, i, xy[x..x + 32 * r]);
    }

    /** integerify, masked: the low 64 bits of the last block. */
    method Index(xy: array<u32>, x: nat) returns (j: nat)
      requires r > 0 && PowerOfTwo(n) && n <= TWO64 && x + 32 * r <= xy.Length
      ensures j == Integerify(BlocksAt(xy[..], x, 2 * r)) % n
    {
      var bi := x + (2 * r - 1) * 16;
      IntegerifyMasked(BlocksAt(xy[..], x, 2 * r)[2 * r - 1], n);
      j := And(xy[bi] + xy[bi + 1] * TWO32, n - 1);
    }

    /** One step of the second loop: X, xored with the table entry it selects, is mixed into Y. */
    method LookUp(v: array<u32>, xy: array<u32>, x: nat, y: nat, ghost b: seq<Block>, ghost i: nat)
      requires r > 0 && PowerOfTwo(n) && 0 < n <= TWO64 && v != xy && |b| == 2 * r
      requires Slot(n, r) <= v.Length && Filled(core, b, v[..], r, n) && 64 * r + 16 <= xy.Length
      requires (x == 0 && y == 32 * r) || (x == 32 * r && y == 0)
      requires BlocksAt(xy[..], x, 2 * r) == Looked(core, b, n, i)
      modifies xy
      ensures BlocksAt(xy[..], y, 2 * r) == Looked(core, b, n, i + 1)
    {
      hide BlocksAt, Put, Mixed, Slot, BlockMix, Integerify, XorWords, XorBlocks, Filled, Looked;
      var j := Index(xy, x);
      SlotsGrow(j + 1, n, r);
      SlotNext(j, r);
      FilledAt(core, b, v[..], r, n, j);
      ghost var s := xy[..];
      BlockXor(xy, x, v, Slot(j, r), 128 * r);
      assert v[..][Slot(j, r)..Slot(j, r) + 32 * r] == v[Slot(j, r)..Slot(j, r) + 32 * r];
      XoredInPlace(s, x, v[..], Slot(j, r), 2 * r, xy[..]);
      Regions(r);
      BlockMixSalsa8(xy, x, y, 64 * r);
      LookedStep(core, b, n, i);
    }

    /** The second loop of smix. */
    method LookUps(v: array<u32>, xy: array<u32>, ghost b: seq<Block>)
      requires r > 0 && PowerOfTwo(n) && 2 <= n <= TWO64 && n % 2 == 0 && v != xy && |b| == 2 * r
      requires Slot(n, r) <= v.Length && Filled(core, b, v[..], r, n) && 64 * r + 16 <= xy.Length
      requires BlocksAt(xy[..], 0, 2 * r) == Mixed(core, b, n)
      modifies xy
      ensures BlocksAt(xy[..], 0, 2 * r) == ROMix(core, b, n)
    {
      hide BlocksAt, Mixed, Slot, Filled, Looked;
      LookedStart(core, b, n);
      var i := 0;
      while i < n
        invariant 0 <= i <= n && i % 2 == 0
        invariant BlocksAt(xy[..], 0, 2 * r) == Looked(core, b, n, i)
      {
        LookUp(v, xy, 0, 32 * r, b, i);
        LookUp(v, xy, 32 * r, 0, b, i + 1);
        i := i + 2;
      }
    }

    /** The first part of smix: X <-- B, as little-endian words. */
    method LoadBlock(block: array<u8>, base: nat, xy: array<u32>)
      requires base + 128 * r <= block.Length && 64 * r + 16 <= xy.Length
      modifies xy
      ensures xy[..32 * r] == Words(block[base..base + 128 * r], 32 * r)
    {
      hide Word;
      ghost var bytes := block[base..base + 128 * r];
      var k := 0;
      while k < 32 * r
        invariant 0 <= k <= 32 * r
        invariant forall q :: 0 <= q < k ==> xy[q] == Word(bytes, 4 * q)
      {
        WordAt(block[..], base, 128 * r, 4 * k);
        xy[k] := Word(block[..], base + 4 * k);
        k := k + 1;
      }
    }

    /** The last part of smix: B <-- X. */
    method StoreBlock(block: array<u8>, base: nat, xy: array<u32>)
      requires base + 128 * r <= block.Length && 64 * r + 16 <= xy.Length
      modifies block
      ensures Words(block[base..base + 128 * r], 32 * r) == xy[..32 * r]
      ensures block[..base] == old(block[..base]) && block[base + 128 * r..] == old(block[base + 128 * r..])
    {
      hide Word;
      var k := 0;
      while k < 32 * r
        invariant 0 <= k <= 32 * r
        invariant forall q :: 0 <= q < k ==> Word(block[..], base + 4 * q) == xy[q]
        invariant block[..base] == old(block[..base]) && block[base + 128 * r..] == old(block[base + 128 * r..])
      {
        StoreWord(block, base + 4 * k, xy[k]);
        k := k + 1;
      }
      forall q | 0 <= q < 32 * r ensures Words(block[base..base + 128 * r], 32 * r)[q] == xy[q] {
        WordAt(block[..], base, 128 * r, 4 * q);
      }
    }

    method StoreWord(block: array<u8>, o: nat, w: u32)
      requires o + 4 <= block.Length
      modifies block
      ensures Word(block[..], o) == w
      ensures block[..o] == old(block[..o]) && block[o + 4..] == old(block[o + 4..])
      ensures forall q :: 0 <= q && q + 4 <= block.Length && (q + 4 <= o || o + 4 <= q) ==>
        Word(block[..], q) == old(Word(block[..], q))
    {
      hide Word;
      block[o] := w % 0x100;
      block[o + 1] := w / 0x100 % 0x100;
      block[o + 2] := w / 0x10000 % 0x100;
      block[o + 3] := w / 0x1000000;
      WordOfBytes(block[..], o, w);
      forall q | 0 <= q && q + 4 <= block.Length && (q + 4 <= o || o + 4 <= q)
        ensures Word(block[..], q) == old(Word(block[..], q)) {
        SameWord(block[..], old(block[..]), q);
      }
    }

    /** smix: replaces 128 * r bytes by their scryptROMix. */
    method Smix(block: array<u8>, base: nat, v: array<u32>, xy: array<u32>)
      requires r > 0 && PowerOfTwo(n) && 2 <= n <= TWO64
      requires base + 128 * r <= block.Length && Slot(n, r) <= v.Length && 64 * r + 16 <= xy.Length && v != xy
      modifies block, v, xy
      ensures Mix(core, n, r, old(block[base..base + 128 * r]), block[base..base + 128 * r])
      ensures block[..base] == old(block[..base]) && block[base + 128 * r..] == old(block[base + 128 * r..])
    {
      hide BlocksAt, Mixed, Slot, Filled, Looked, Words;
      PowerIsEven(n);
      ghost var bytes := block[base..base + 128 * r];
      LoadBlock(block, base, xy);
      ghost var b := BlocksAt(Words(bytes, 32 * r), 0, 2 * r);
      SameBlocks(xy[..], 0, xy[..32 * r], 0, 2 * r);
      FillTable(v, xy, b);
      LookUps(v, xy, b);
      StoreBlock(block, base, xy);
      SameBlocks(xy[..], 0, xy[..32 * r], 0, 2 * r);
    }
  }

  lemma PowerIsEven(n: nat)
    requires PowerOfTwo(n) && n >= 2
    ensures n % 2 == 0
  {
    var k: nat :| n == Pow(2, k);
    assert n == 2 * Pow(2, k - 1);
  }

  /** 128 * r bytes are scryptROMix of others, read as little-endian words. */
  ghost predicate Mix(core: Core, n: nat, r: nat, from: seq<u8>, to: seq<u8>)
    requires r > 0 && n > 0
  {
    && |from| == |to| == 128 * r
    && BlocksAt(Words(to, 32 * r), 0, 2 * r) == ROMix(core, BlocksAt(Words(from, 32 * r), 0, 2 * r), n)
  }

  // ---- bytes and words ----

  /** Four bytes at an offset as a little-endian word. */
  function Word(s: seq<u8>, o: nat): u32
    requires o + 4 <= |s|
  {
    var b0: nat, b1: nat, b2: nat, b3: nat := s[o], s[o + 1], s[o + 2], s[o + 3];
    b0 + b1 * 0x100 + b2 * 0x10000 + b3 * 0x1000000
  }

  lemma WordOfBytes(s: seq<u8>, o: nat, w: u32)
    requires o + 4 <= |s| && s[o] == w % 0x100 && s[o + 1] == w / 0x100 % 0x100 && s[o + 2] == w / 0x10000 % 0x100
    requires s[o + 3] == w / 0x1000000
    ensures Word(s, o) == w
  {
    var q := w / 0x100;
    var r := q / 0x100;
    assert w / 0x10000 == r;
    assert w / 0x1000000 == r / 0x100;
  }

  lemma SameWord(s: seq<u8>, t: seq<u8>, o: nat)
    requires o + 4 <= |s| && o + 4 <= |t| && forall k :: o <= k < o + 4 ==> s[k] == t[k]
    ensures Word(s, o) == Word(t, o)
  {}

  /** The word is the number of its bytes, least significant byte first. */
  lemma WordIsValue(s: seq<u8>, o: nat)
    requires o + 4 <= |s|
    ensures Word(s, o) == Digits.Val(256, s[o..o + 4])
  {
    var b: seq<nat> := s[o..o + 4];
    assert b[1..][1..][1..] == [b[3]] && b[1..][1..][1..][1..] == [];
    assert Digits.Val(256, b[1..][1..][1..]) == b[3];
    assert Digits.Val(256, b[1..][1..]) == b[2] + 256 * b[3];
    assert Digits.Val(256, b[1..]) == b[1] + 256 * (b[2] + 256 * b[3]);
  }

  function Words(s: seq<u8>, m: nat): (r: seq<u32>)
    requires 4 * m <= |s|
    ensures |r| == m
  {
    seq(m, k requires 0 <= k < m => Word(s, 4 * k))
  }

  lemma WordAt(s: seq<u8>, base: nat, n: nat, o: nat)
    requires base + n <= |s| && o + 4 <= n
    ensures Word(s[base..base + n], o) == Word(s, base + o)
  {}

  // ---- the table V ----

  /** Where entry i of the table starts. */
  function Slot(i: nat, r: nat): nat { i * (32 * r) }

  lemma SlotNext(i: nat, r: nat)
    ensures Slot(i + 1, r) == Slot(i, r) + 32 * r
  {}

  lemma NoSlots(r: nat)
    ensures Slot(0, r) == 0
  {}

  lemma {:induction false} SlotsGrow(i: nat, j: nat, r: nat)
    requires i <= j
    ensures Slot(i, r) <= Slot(j, r)
  {
    MulMono(i, j, 32 * r, 32 * r);
  }

  lemma Regions(r: nat)
    ensures Apart(0, 32 * r, 32 * r, 32 * r) && Apart(0, 32 * r, 64 * r, 16) && Apart(32 * r, 32 * r, 64 * r, 16)
    ensures Apart(32 * r, 32 * r, 0, 32 * r)
  {}

  /** The first n entries hold the input mixed 0, 1, ... times. */
  ghost predicate Filled(core: Core, b: seq<Block>, v: seq<u32>, r: nat, n: nat)
    requires r > 0 && |b| == 2 * r && Slot(n, r) <= |v|
  {
    forall i :: 0 <= i < n ==> Entry(core, b, v, r, i)
  }

  ghost predicate Entry(core: Core, b: seq<Block>, v: seq<u32>, r: nat, i: nat)
    requires r > 0 && |b| == 2 * r
  {
    Slot(i, r) + 32 * r <= |v| && BlocksAt(v, Slot(i, r), 2 * r) == Mixed(core, b, i)
  }

  lemma FilledAt(core: Core, b: seq<Block>, v: seq<u32>, r: nat, n: nat, j: nat)
    requires r > 0 && |b| == 2 * r && Slot(n, r) <= |v| && Filled(core, b, v, r, n) && j < n
    ensures Entry(core, b, v, r, j)
  {}

  lemma FilledNext(core: Core, b: seq<Block>, v: seq<u32>, r: nat, i: nat, e: seq<u32>)
    requires r > 0 && |b| == 2 * r && |e| == 32 * r && Slot(i, r) + 32 * r <= |v| && Filled(core, b, v, r, i)
    requires BlocksAt(e, 0, 2 * r) == Mixed(core, b, i)
    ensures Slot(i + 1, r) <= |v| && Filled(core, b, Put(v, Slot(i, r), e), r, i + 1)
  {
    hide BlocksAt, Put, Mixed, Slot;
    var t := Put(v, Slot(i, r), e);
    SlotNext(i, r);
    forall k | 0 <= k < i + 1 ensures Entry(core, b, t, r, k) {
      if k < i {
        SlotsGrow(k + 1, i, r);
        SlotNext(k, r);
        assert Entry(core, b, v, r, k);
        BlocksElsewhere(v, Slot(i, r), e, Slot(k, r), 2 * r);
      } else {
        SameBlocks(t, Slot(i, r), e, 0, 2 * r);
      }
    }
  }

  lemma BlockApart(a: nat, m: nat, i: nat, x: nat)
    requires Apart(a, 16 * m, x, 16) && i < m
    ensures Apart(x, 16, a + 16 * i, 16) && Apart(a + 16 * i, 16, x, 16) && a + 16 * i + 16 <= a + 16 * m
  {}

  /** A block written to x and to block q of the output, nothing else. */
  lemma MixStepEffect(s: seq<u32>, bin: nat, bout: nat, x: nat, m: nat, q: nat, e: Block)
    requires q < m && bin + 16 * m <= |s| && bout + 16 * m <= |s| && x + 16 <= |s|
    requires Apart(bin, 16 * m, bout, 16 * m) && Apart(bin, 16 * m, x, 16) && Apart(bout, 16 * m, x, 16)
    ensures var t := Put(Put(s, x, e), bout + 16 * q, e);
      && t[x..x + 16] == e && t[bin..bin + 16 * m] == s[bin..bin + 16 * m]
      && BlocksAt(t, bin, m) == BlocksAt(s, bin, m) && BlocksAt(t, bout, m) == BlocksAt(s, bout, m)[q := e]
  {
    hide BlocksAt, Put;
    var u := Put(s, x, e);
    var t := Put(u, bout + 16 * q, e);
    PutElsewhere(u, bout + 16 * q, e, x, 16);
    PutElsewhere(u, bout + 16 * q, e, bin, 16 * m);
    PutElsewhere(s, x, e, bin, 16 * m);
    BlocksElsewhere(s, x, e, bout, m);
    PutBlock(u, bout, m, q, e);
    SameBlocks(s, bin, t, bin, m);
  }

  lemma ApartFromLast(bin: nat, x: nat, r: nat)
    requires r > 0 && Apart(bin, 32 * r, x, 16)
    ensures Apart(x, 16, bin + (2 * r - 1) * 16, 16)
  {}

  lemma ChainStart(core: Core, b: seq<Block>, out: seq<Block>)
    requires |out| == |b| && |b| > 0 && |b| % 2 == 0
    ensures Chain(core, b, 0) == b[|b| - 1] && Interleaved(core, b, out, 0)
  {}

  lemma BlockIs(s: seq<u32>, a: nat, m: nat, k: nat)
    requires a + 16 * m <= |s| && k < m
    ensures BlocksAt(s, a, m)[k] == s[a + 16 * k..a + 16 * k + 16]
  {}

  lemma XorIsBlock(a: Block, b: Block)
    ensures XorWords(a, b) == XorBlock(a, b)
  {}

  lemma CopiedLast(s: seq<u32>, bin: nat, x: nat, m: nat)
    requires m > 0 && bin + 16 * m <= |s| && x + 16 <= |s| && Apart(bin, 16 * m, x, 16)
    ensures var e := s[bin + (m - 1) * 16..bin + (m - 1) * 16 + 16]; var t := Put(s, x, e);
      && e == BlocksAt(s, bin, m)[m - 1] && BlocksAt(t, bin, m) == BlocksAt(s, bin, m)
      && t[bin..bin + 16 * m] == s[bin..bin + 16 * m]
  {
    var e := s[bin + (m - 1) * 16..bin + (m - 1) * 16 + 16];
    BlocksElsewhere(s, x, e, bin, m);
    PutElsewhere(s, x, e, bin, 16 * m);
  }

  /** The outputs of the first 2h steps are in place: even steps in the first half, odd ones in the second. */
  ghost predicate Interleaved(core: Core, b: seq<Block>, out: seq<Block>, h: nat)
    requires |out| == |b| && |b| > 0 && |b| % 2 == 0 && 2 * h <= |b|
  {
    forall q :: 0 <= q < h ==> out[q] == Chain(core, b, 2 * q + 1) && out[|b| / 2 + q] == Chain(core, b, 2 * q + 2)
  }

  lemma NextInterleaved(core: Core, b: seq<Block>, out: seq<Block>, h: nat)
    requires |out| == |b| && |b| > 0 && |b| % 2 == 0 && 2 * h < |b| && Interleaved(core, b, out, h)
    ensures Interleaved(core, b, out[h := Chain(core, b, 2 * h + 1)][h + |b| / 2 := Chain(core, b, 2 * h + 2)], h + 1)
  {}

  lemma AllInterleaved(core: Core, b: seq<Block>, out: seq<Block>)
    requires |out| == |b| && |b| > 0 && |b| % 2 == 0 && Interleaved(core, b, out, |b| / 2)
    ensures out == BlockMix(core, b)
  {
    forall q | 0 <= q < |b| ensures out[q] == BlockMix(core, b)[q] {
      if q >= |b| / 2 { assert out[|b| / 2 + (q - |b| / 2)] == Chain(core, b, 2 * (q - |b| / 2) + 2); }
    }
  }
}
