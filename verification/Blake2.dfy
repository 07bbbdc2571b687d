/** BLAKE2b and BLAKE2s: buffering, counters and the last block, around an arbitrary compression function.
    The two differ in the size of blocks, words and digests only. */
module Blake2 {
  import opened Arith
  import opened Digits
  import opened ByteStrings

  /** Block bytes, the number of values of a word, and the longest digest. */
  datatype Variant = Variant(blockBytes: nat, words: nat, wordBytes: nat, outBytes: nat, keyBytes: nat)

  const BLAKE2B := Variant(128, TWO64, 8, 64, 64)
  const BLAKE2S := Variant(64, TWO32, 4, 32, 32)

  predicate IsVariant(v: Variant)
  {
    v == BLAKE2B || v == BLAKE2S
  }

  type State = h: seq<nat> | |h| == 8 witness seq(8, _ => 0)

  /** Chaining value, block, two counter words, two flag words. */
  type Compression = (State, seq<u8>, nat, nat, nat, nat) -> State

  // ---- the specification: section 3.3 of RFC 7693 ----

  function Low(v: Variant, t: nat): nat
    requires IsVariant(v)
  {
    t % v.words
  }

  function High(v: Variant, t: nat): nat
    requires IsVariant(v)
  {
    t / v.words % v.words
  }

  /** The initialization vectors. */
  function Vector(v: Variant): State
    requires IsVariant(v)
  {
    if v == BLAKE2B then
      [0x6a09e667f3bcc908, 0xbb67ae8584caa73b, 0x3c6ef372fe94f82b, 0xa54ff53a5f1d36f1,
       0x510e527fade682d1, 0x9b05688c2b3e6c1f, 0x1f83d9abfb41bd6b, 0x5be0cd19137e2179]
    else
      [0x6A09E667, 0xBB67AE85, 0x3C6EF372, 0xA54FF53A, 0x510E527F, 0x9B05688C, 0x1F83D9AB, 0x5BE0CD19]
  }

  /** The first chaining value of a hash without salt and personalization: lengths, fanout and depth change the
      first word of the vector. */
  function Initial(v: Variant, outlen: nat, keylen: nat): State
    requires IsVariant(v)
  {
    Vector(v)[0 := Xor(Vector(v)[0], 0x0101_0000 + 0x100 * keylen + outlen)]
  }

  /** The parameter block of sequential hashing: all is zero between the depth and the personalization. */
  function Parameters(v: Variant, outlen: u8, keylen: u8, personal: seq<u8>): (r: seq<u8>)
    requires IsVariant(v) && |personal| == 2 * v.wordBytes
    ensures |r| == 8 * v.wordBytes
  {
    [outlen, keylen, 1, 1] + Zeros(6 * v.wordBytes - 4) + personal
  }

  /** The little-endian words of a parameter block. */
  function WordAt(v: Variant, p: seq<u8>, i: nat): nat
    requires |p| == 8 * v.wordBytes && i < 8
  {
    Val(256, p[v.wordBytes * i..v.wordBytes * (i + 1)])
  }

  function Parameterized(v: Variant, p: seq<u8>): State
    requires IsVariant(v) && |p| == 8 * v.wordBytes
  {
    seq(8, i requires 0 <= i < 8 => Xor(Vector(v)[i], WordAt(v, p, i)))
  }

  lemma {:induction false} ValZeros(k: nat)
    ensures Val(256, Zeros(k)) == 0
  {
    if k > 0 {
      assert Zeros(k)[1..] == Zeros(k - 1);
      ValZeros(k - 1);
    }
  }

  /** The parameter block of the lengths alone is a single number in the first word. */
  lemma InitialIsParameterized(v: Variant, outlen: u8, keylen: u8)
    requires IsVariant(v)
    ensures Parameterized(v, Parameters(v, outlen, keylen, Zeros(2 * v.wordBytes))) == Initial(v, outlen, keylen)
  {
    hide Vector, Xor, Val, Pow;
    var w, p := v.wordBytes, Parameters(v, outlen, keylen, Zeros(2 * v.wordBytes));
    var lengths: seq<nat> := [outlen, keylen, 1, 1];
    assert p == lengths + Zeros(8 * w - 4);
    assert p[..w] == lengths + Zeros(w - 4);
    ValZeros(w - 4);
    ValConcat(256, lengths, Zeros(w - 4));
    FourBytes(outlen, keylen);
    forall i | 1 <= i < 8 ensures WordAt(v, p, i) == 0 {
      assert p[w * i..w * (i + 1)] == Zeros(w);
      ValZeros(w);
    }
    forall n: nat ensures Xor(n, 0) == n { XorZero(n); }
  }

  lemma XorZero(n: nat)
    ensures Xor(n, 0) == n
  {}

  lemma FourBytes(outlen: u8, keylen: u8)
    ensures Val(256, [outlen, keylen, 1, 1]) == 0x0101_0000 + 0x100 * keylen + outlen
  {
    var s: seq<nat> := [outlen, keylen, 1, 1];
    var u, tail: seq<nat> := s[1..], [1, 1];
    assert u == [keylen, 1, 1] && u[1..] == tail && tail[1..] == [1] && tail[1..][1..] == [];
    assert Val(256, tail[1..]) == 1;
    assert Val(256, tail) == 0x101;
    assert Val(256, u) == keylen + 256 * 0x101;
    assert Val(256, s) == outlen + 256 * Val(256, u);
  }

  /** The chaining value, the bytes counted so far, and those not compressed yet. */
  datatype Progress = Progress(h: State, counted: nat, rest: seq<u8>)

  /** Every block but the last is compressed with the bytes up to its end as counter. */
  function Blocks(v: Variant, f: Compression, p: Progress): (r: Progress)
    requires IsVariant(v)
    ensures |r.rest| <= v.blockBytes && (|p.rest| > 0 ==> |r.rest| > 0)
    ensures r.counted + |r.rest| == p.counted + |p.rest|
    decreases |p.rest|
  {
    if |p.rest| <= v.blockBytes then p else Blocks(v, f, NextBlock(v, f, p))
  }

  function NextBlock(v: Variant, f: Compression, p: Progress): Progress
    requires IsVariant(v) && |p.rest| > v.blockBytes
  {
    var t := p.counted + v.blockBytes;
    Progress(f(p.h, p.rest[..v.blockBytes], Low(v, t), High(v, t), 0, 0), t, p.rest[v.blockBytes..])
  }

  /** The last block is filled up with zeros, counted without them, and flagged. */
  function LastBlock(v: Variant, f: Compression, p: Progress, lastNode: bool): State
    requires IsVariant(v) && |p.rest| <= v.blockBytes
  {
    var t := p.counted + |p.rest|;
    f(p.h, p.rest + Zeros(v.blockBytes - |p.rest|), Low(v, t), High(v, t), v.words - 1,
      if lastNode then v.words - 1 else 0)
  }

  /** The hash of a message, from an initial chaining value. */
  function HashState(v: Variant, f: Compression, h0: State, message: seq<u8>, lastNode: bool): State
    requires IsVariant(v)
  {
    LastBlock(v, f, Blocks(v, f, Progress(h0, 0, message)), lastNode)
  }

  /** A word as bytes, lowest first. */
  function WordBytes(w: nat, k: nat): (r: seq<u8>)
    ensures |r| == k
  {
    if k == 0 then [] else [w % 0x100] + WordBytes(w / 0x100, k - 1)
  }

  function StateBytes(h: seq<nat>, k: nat): (r: seq<u8>)
    ensures |r| == AllBytes(|h|, k)
  {
    if |h| == 0 then [] else StateBytes(h[..|h| - 1], k) + WordBytes(h[|h| - 1], k)
  }

  function AllBytes(n: nat, k: nat): nat { if n == 0 then 0 else AllBytes(n - 1, k) + k }

  /** Words are stored least significant byte first. */
  lemma {:induction false} WordBytesValue(w: nat, k: nat)
    ensures Val(256, WordBytes(w, k)) == w % Pow(256, k)
  {
    hide WordBytes, Val, Pow;
    if k == 0 {
      NoWordBytes(w);
    } else {
      WordBytesValue(w / 0x100, k - 1);
      FirstWordByte(w, k);
      DivMod(w, 0x100);
      ModOfParts(w / 0x100, w % 0x100, Pow(256, k - 1));
    }
  }

  lemma NoWordBytes(w: nat)
    ensures Val(256, WordBytes(w, 0)) == w % Pow(256, 0)
  {}

  lemma FirstWordByte(w: nat, k: nat)
    requires k > 0
    ensures WordBytes(w, k)[0] == w % 0x100 && WordBytes(w, k)[1..] == WordBytes(w / 0x100, k - 1)
    ensures Val(256, WordBytes(w, k)) == w % 0x100 + 0x100 * Val(256, WordBytes(w / 0x100, k - 1))
    ensures Pow(256, k) == 0x100 * Pow(256, k - 1) && Pow(256, k - 1) > 0
  {
    var b: seq<nat> := WordBytes(w, k);
    assert b[1..] == WordBytes(w / 0x100, k - 1);
  }

  lemma {:induction false} WordBytesAt(w: nat, k: nat, q: nat)
    requires q < k
    ensures WordBytes(w, k)[q] == w / Pow(256, q) % 0x100
  {
    hide WordBytes, Val;
    FirstWordByte(w, k);
    if q > 0 {
      WordBytesAt(w / 0x100, k - 1, q - 1);
      assert WordBytes(w, k)[q] == WordBytes(w, k)[1..][q - 1];
      assert Pow(256, q) == 0x100 * Pow(256, q - 1);
      DivOfParts(w, Pow(256, q - 1));
    }
  }

  lemma ModOfParts(high: nat, low: nat, p: nat)
    requires low < 0x100 && p > 0
    ensures (high * 0x100 + low) % (0x100 * p) == low + 0x100 * (high % p)
  {
    DivMod(high, p);
    var q, r := high / p, high % p;
    assert (q * p + r) * 0x100 + low == q * (0x100 * p) + (0x100 * r + low);
    DivModUnique(high * 0x100 + low, 0x100 * p, q, 0x100 * r + low);
  }

  lemma DivOfParts(w: nat, p: nat)
    requires p > 0
    ensures w / (0x100 * p) == w / 0x100 / p
  {
    DivMod(w, 0x100);
    DivMod(w / 0x100, p);
    var q, r, low := w / 0x100 / p, w / 0x100 % p, w % 0x100;
    assert (q * p + r) * 0x100 + low == q * (0x100 * p) + (0x100 * r + low);
    DivModUnique(w, 0x100 * p, q, 0x100 * r + low);
  }

  /** Byte q of words in a row. */
  function ByteOf(h: State, v: Variant, q: nat): nat
    requires IsVariant(v) && q < v.outBytes
  {
    h[q / v.wordBytes] / Pow(256, q % v.wordBytes) % 0x100
  }

  lemma {:induction false} StateBytesAt(h: seq<nat>, k: nat, i: nat, q: nat)
    requires i < |h| && q < k
    ensures AllBytes(i, k) + q < |StateBytes(h, k)| && AllBytes(i, k) == i * k
    ensures StateBytes(h, k)[AllBytes(i, k) + q] == WordBytes(h[i], k)[q]
    decreases |h|
  {
    hide WordBytes;
    AllBytesIs(i, k);
    AllBytesIs(|h|, k);
    AllBytesIs(|h| - 1, k);
    if i < |h| - 1 { StateBytesAt(h[..|h| - 1], k, i, q); }
  }

  lemma {:induction false} AllBytesIs(n: nat, k: nat)
    ensures AllBytes(n, k) == n * k
  {
    if n > 0 {
      AllBytesIs(n - 1, k);
      assert n * k == (n - 1) * k + k;
    }
  }

  /** The bytes of a state, for all its words, and the words as numbers. */
  lemma StateBytesExact(h: State, v: Variant)
    requires IsVariant(v)
    ensures |StateBytes(h, v.wordBytes)| == v.outBytes
    ensures forall q :: 0 <= q < v.outBytes ==> StateBytes(h, v.wordBytes)[q] == ByteOf(h, v, q)
    ensures forall i :: 0 <= i < 8 ==> WordAt(v, StateBytes(h, v.wordBytes), i) == h[i] % Pow(256, v.wordBytes)
  {
    hide StateBytes, WordBytes, Pow, Val;
    var k, out := v.wordBytes, StateBytes(h, v.wordBytes);
    OutLength(v, h);
    forall q | 0 <= q < v.outBytes ensures out[q] == ByteOf(h, v, q) {
      StateBytesAt(h, k, q / k, q % k);
      WordBytesAt(h[q / k], k, q % k);
    }
    forall i | 0 <= i < 8 ensures WordAt(v, out, i) == h[i] % Pow(256, k) {
      WordBytesValue(h[i], k);
      forall q | 0 <= q < k ensures out[k * i + q] == WordBytes(h[i], k)[q] { StateBytesAt(h, k, i, q); }
      assert out[k * i..k * (i + 1)] == WordBytes(h[i], k);
    }
  }

  lemma {:induction false} BlocksMore(v: Variant, f: Compression, p: Progress, data: seq<u8>)
    requires IsVariant(v)
    ensures Blocks(v, f, More(Blocks(v, f, p), data)) == Blocks(v, f, More(p, data))
    decreases |p.rest|
  {
    if |p.rest| > v.blockBytes {
      hide NextBlock;
      MoreThenNext(v, f, p, data);
      BlocksMore(v, f, NextBlock(v, f, p), data);
    }
  }

  lemma MoreThenNext(v: Variant, f: Compression, p: Progress, data: seq<u8>)
    requires IsVariant(v) && |p.rest| > v.blockBytes
    ensures NextBlock(v, f, More(p, data)) == More(NextBlock(v, f, p), data)
  {
    hide Low, High;
    var n := v.blockBytes;
    assert (p.rest + data)[..n] == p.rest[..n] && (p.rest + data)[n..] == p.rest[n..] + data;
  }

  function More(p: Progress, data: seq<u8>): Progress
  {
    p.(rest := p.rest + data)
  }

  // ---- counters ----

  /** The counter words stand for a number of bytes. */
  predicate Counts(v: Variant, t0: nat, t1: nat, n: nat)
    requires IsVariant(v)
  {
    t0 == Low(v, n) && t1 == High(v, n)
  }

  /** A wrapped low word is smaller than what was added to it. */
  lemma CountsNext(v: Variant, t0: nat, t1: nat, n: nat, inc: nat)
    requires IsVariant(v) && Counts(v, t0, t1, n) && inc < v.words
    ensures var low := (t0 + inc) % v.words; Counts(v, low, (t1 + if low < inc then 1 else 0) % v.words, n + inc)
  {
    var w, q := v.words, n / v.words;
    DivMod(n, w);
    if t0 + inc < w {
      DivModUnique(n + inc, w, q, t0 + inc);
    } else {
      DivModUnique(n + inc, w, q + 1, t0 + inc - w);
      DivModUnique(t0 + inc, w, 1, t0 + inc - w);
      DivMod(q, w);
      CongBy(q + 1, q % w + 1, w, q / w);
    }
  }

  // ---- the context ----

  class Hasher {
    const v: Variant
    const f: Compression
    var h: State
    var t0: nat
    var t1: nat
    var f0: nat
    var f1: nat
    var buf: array<u8>
    var buflen: nat
    var outlen: nat
    var lastNode: bool
    ghost var message: seq<u8>
    ghost var h0: State

    ghost predicate Valid()
      reads this, buf
    {
      IsVariant(v) && buf.Length == v.blockBytes && buflen <= v.blockBytes && outlen <= v.outBytes
    }

    /** The blocks compressed so far, after n bytes. */
    ghost predicate At(p: Progress)
      requires Valid()
      reads this, buf
    {
      p.h == h && p.rest == buf[..buflen] && Counts(v, t0, t1, p.counted)
    }

    /** Only the concatenation of all data so far matters. */
    ghost predicate Absorbed()
      requires Valid()
      reads this, buf
    {
      f0 == 0 && f1 == 0 && At(Blocks(v, f, Progress(h0, 0, message)))
    }

    /** A context before initialization. */
    constructor (v: Variant, f: Compression)
      requires IsVariant(v)
      ensures Valid() && fresh(buf) && this.v == v && this.f == f
    {
      this.v, this.f := v, f;
      t0, t1, f0, f1, buflen, outlen, lastNode := 0, 0, 0, 0, 0, 0, false;
      buf := new u8[v.blockBytes](_ => 0);
    }

    /** The loop of init_param. */
    method XorParameters(p: seq<u8>)
      requires IsVariant(v) && |p| == 8 * v.wordBytes && h == Vector(v)
      modifies `h
      ensures h == Parameterized(v, p)
    {
      hide Vector, Xor, WordAt;
      var i := 0;
      while i < 8
        invariant 0 <= i <= 8
        invariant forall j :: 0 <= j < i ==> h[j] == Xor(Vector(v)[j], WordAt(v, p, j))
        invariant forall j :: i <= j < 8 ==> h[j] == Vector(v)[j]
      {
        h := h[i := Xor(h[i], WordAt(v, p, i))];
        i := i + 1;
      }
    }

    /** init_param, with the digest length the parameter block starts with. */
    method InitParam(outlen: nat, p: seq<u8>)
      requires Valid() && outlen <= v.outBytes && |p| == 8 * v.wordBytes
      modifies this
      ensures Valid() && buf == old(buf) && Absorbed() && !lastNode
      ensures message == [] && h0 == Parameterized(v, p) && this.outlen == outlen
    {
      hide Vector, Parameterized, Blocks;
      h, t0, t1, f0, f1, buflen, lastNode := Vector(v), 0, 0, 0, 0, 0, false;
      XorParameters(p);
      this.outlen := outlen;
      message, h0 := [], h;
      NothingCounted(v);
      NoMoreBlocks(v, f, Progress(h0, 0, []));
    }

    /** Init */
    method Init(outlen: nat) returns (r: int)
      requires Valid()
      modifies this
      ensures Valid() && buf == old(buf) && (r == 0 || r == -1)
      ensures r == 0 <==> 1 <= outlen <= v.outBytes
      ensures r == 0 ==> Absorbed() && message == [] && this.outlen == outlen && !lastNode
      ensures r == 0 ==> h0 == Initial(v, outlen, 0)
    {
      hide Blocks, Parameterized, Initial, Parameters;
      if outlen == 0 || outlen > v.outBytes { return -1; }
      InitParam(outlen, Parameters(v, outlen, 0, Zeros(2 * v.wordBytes)));
      InitialIsParameterized(v, outlen, 0);
      return 0;
    }

    /** InitPersonal */
    method InitPersonal(outlen: nat, personal: seq<u8>) returns (r: int)
      requires Valid()
      modifies this
      ensures Valid() && buf == old(buf) && (r == 0 || r == -1)
      ensures r == 0 <==> 1 <= outlen <= v.outBytes && |personal| == 2 * v.wordBytes
      ensures r == 0 ==> Absorbed() && message == [] && this.outlen == outlen && !lastNode
      ensures r == 0 ==> h0 == Parameterized(v, Parameters(v, outlen, 0, personal))
    {
      hide Blocks, Parameterized, Parameters;
      if outlen == 0 || outlen > v.outBytes { return -1; }
      if |personal| != 2 * v.wordBytes { return -1; }
      InitParam(outlen, Parameters(v, outlen, 0, personal));
      return 0;
    }

    /** InitKey: the key, filled up to a block, is the first data. */
    method InitKey(outlen: nat, key: seq<u8>) returns (r: int)
      requires Valid()
      modifies this, buf
      ensures Valid() && buf == old(buf) && (r == 0 || r == -1)
      ensures r == 0 <==> 1 <= outlen <= v.outBytes && 1 <= |key| <= v.keyBytes
      ensures r == 0 ==> Absorbed() && h0 == Initial(v, outlen, |key|) && this.outlen == outlen && !lastNode
      ensures r == 0 ==> message == key + Zeros(v.blockBytes - |key|)
    {
      hide Blocks, Parameterized, Initial, Parameters;
      if outlen == 0 || outlen > v.outBytes { return -1; }
      if |key| == 0 || |key| > v.keyBytes { return -1; }
      InitParam(outlen, Parameters(v, outlen, |key|, Zeros(2 * v.wordBytes)));
      InitialIsParameterized(v, outlen, |key|);
      var block := key + Zeros(v.blockBytes - |key|);
      Update(block);
      assert [] + block == block;
      return 0;
    }

    /** increment_counter */
    method Count(inc: nat, ghost n: nat)
      requires IsVariant(v) && inc < v.words && Counts(v, t0, t1, n)
      modifies `t0, `t1
      ensures Counts(v, t0, t1, n + inc)
    {
      CountsNext(v, t0, t1, n, inc);
      t0 := (t0 + inc) % v.words;
      t1 := (t1 + if t0 < inc then 1 else 0) % v.words;
    }

    /** Counts and compresses a block that is not the last. */
    method CompressNext(block: seq<u8>, ghost p: Progress)
      requires IsVariant(v) && |p.rest| > v.blockBytes && block == p.rest[..v.blockBytes]
      requires f0 == 0 && f1 == 0 && p.h == h && Counts(v, t0, t1, p.counted)
      modifies `h, `t0, `t1
      ensures var q := NextBlock(v, f, p);
        q.h == h && Counts(v, t0, t1, q.counted) && Blocks(v, f, q) == Blocks(v, f, p)
          && q.rest == p.rest[v.blockBytes..]
    {
      Count(v.blockBytes, p.counted);
      h := f(h, block, t0, t1, f0, f1);
    }

    /** memcpy into the buffer. */
    method Store(at: nat, data: seq<u8>)
      requires at + |data| <= buf.Length
      modifies buf
      ensures buf[..at + |data|] == old(buf[..at]) + data
    {
      var i := 0;
      while i < |data|
        invariant 0 <= i <= |data|
        invariant buf[..at + i] == old(buf[..at]) + data[..i]
      {
        buf[at + i] := data[i];
        i := i + 1;
      }
      assert data[..|data|] == data;
    }

    /** Update: whatever the chunks, the context is that of the bytes in a row. */
    method Update(input: seq<u8>)
      requires Valid() && Absorbed()
      modifies this, buf
      ensures Valid() && Absorbed() && buf == old(buf) && message == old(message) + input
      ensures h0 == old(h0) && outlen == old(outlen) && lastNode == old(lastNode)
    {
      BlocksMore(v, f, Progress(h0, 0, message), input);
      Feed(input, Blocks(v, f, Progress(h0, 0, message)));
      message := message + input;
    }

    /** The body of Update. */
    method Feed(input: seq<u8>, ghost p: Progress)
      requires Valid() && At(p) && f0 == 0 && f1 == 0
      modifies `h, `t0, `t1, `buflen, buf
      ensures Valid() && At(Blocks(v, f, More(p, input)))
    {
      hide Counts, Blocks, NextBlock;
      NoMoreBlocks(v, f, p);
      if |input| == 0 {
        assert More(p, input) == p;
        return;
      }
      ghost var target := Blocks(v, f, More(p, input));
      var left, rest := buflen, input;
      var fill := v.blockBytes - left;
      ghost var q := More(p, input);
      if |rest| > fill {
        buflen := 0;
        Store(left, rest[..fill]);
        assert q.rest[..v.blockBytes] == buf[..] && q.rest[v.blockBytes..] == rest[fill..];
        CompressNext(buf[..], q);
        q := NextBlock(v, f, q);
        rest := rest[fill..];
        while |rest| > v.blockBytes
          invariant buflen == 0 && Valid() && |rest| > 0
          invariant q.rest == rest && q.h == h && Counts(v, t0, t1, q.counted) && Blocks(v, f, q) == target
        {
          CompressNext(rest[..v.blockBytes], q);
          q := NextBlock(v, f, q);
          rest := rest[v.blockBytes..];
        }
      }
      Store(buflen, rest);
      buflen := buflen + |rest|;
      assert buf[..buflen] == q.rest;
      NoMoreBlocks(v, f, q);
    }

    /** The compression of the last block, counted and flagged. */
    method CompressLast()
      requires Valid() && Absorbed()
      modifies this, buf
      ensures Valid() && buf == old(buf) && outlen == old(outlen) && f0 != 0
      ensures h == HashState(v, f, old(h0), old(message), old(lastNode))
    {
      hide Blocks, HashState, Counts;
      ghost var p := Blocks(v, f, Progress(h0, 0, message));
      Count(buflen, p.counted);
      if lastNode { f1 := v.words - 1; }
      f0 := v.words - 1;
      Store(buflen, Zeros(v.blockBytes - buflen));
      assert buf[..] == p.rest + Zeros(v.blockBytes - |p.rest|);
      h := f(h, buf[..], t0, t1, f0, f1);
      LastIsHash(v, f, h0, message, lastNode, t0, t1);
    }

    /** Final: the digest of everything absorbed, once. */
    method Final(room: nat) returns (r: int, out: seq<u8>)
      requires Valid() && (Absorbed() || f0 != 0)
      modifies this, buf
      ensures r == 0 || r == -1
      ensures r == 0 <==> room >= old(outlen) && old(f0) == 0 && (v == BLAKE2S ==> old(outlen) > 0)
      ensures r == 0 ==> Valid() && f0 != 0
      ensures r == 0 ==>
        out == StateBytes(HashState(v, f, old(h0), old(message), old(lastNode)), v.wordBytes)[..old(outlen)]
      ensures r == 0 ==> |out| == old(outlen) && forall q :: 0 <= q < |out| ==>
        out[q] == ByteOf(HashState(v, f, old(h0), old(message), old(lastNode)), v, q)
      ensures r != 0 ==> out == [] && unchanged(this) && buf[..] == old(buf[..])
    {
      hide Blocks, HashState, StateBytes, Counts, Absorbed, IsVariant;
      if v == BLAKE2S && (outlen == 0 || outlen > v.outBytes) { return -1, []; }
      if room < outlen { return -1, []; }
      if f0 != 0 { return -1, []; }
      CompressLast();
      StateBytesExact(h, v);
      return 0, StateBytes(h, v.wordBytes)[..outlen];
    }
  }

  lemma OutLength(v: Variant, h: State)
    requires IsVariant(v)
    ensures |StateBytes(h, v.wordBytes)| == v.outBytes
  {}

  /** Compressing what is left, with the counter words of all bytes, yields the hash. */
  lemma LastIsHash(v: Variant, f: Compression, h0: State, message: seq<u8>, lastNode: bool, t0: nat, t1: nat)
    requires IsVariant(v)
    requires var p := Blocks(v, f, Progress(h0, 0, message)); Counts(v, t0, t1, p.counted + |p.rest|)
    ensures var p := Blocks(v, f, Progress(h0, 0, message));
      f(p.h, p.rest + Zeros(v.blockBytes - |p.rest|), t0, t1, v.words - 1, if lastNode then v.words - 1 else 0)
        == HashState(v, f, h0, message, lastNode)
  {
    hide Blocks, Low, High, Zeros;
  }

  lemma NothingCounted(v: Variant)
    requires IsVariant(v)
    ensures Counts(v, 0, 0, 0)
  {}

  lemma NoMoreBlocks(v: Variant, f: Compression, p: Progress)
    requires IsVariant(v)
    ensures |p.rest| <= v.blockBytes ==> Blocks(v, f, p) == p
  {}

  /** All chunks in a row. */
  function Joined(chunks: seq<seq<u8>>): seq<u8>
  {
    if |chunks| == 0 then [] else Joined(chunks[..|chunks| - 1]) + chunks[|chunks| - 1]
  }

  /** One context, any number of updates: the digest is that of all bytes in a row. */
  method HashChunks(v: Variant, f: Compression, outlen: nat, chunks: seq<seq<u8>>)
    returns (r: int, out: seq<u8>)
    requires IsVariant(v)
    ensures r == 0 <==> 1 <= outlen <= v.outBytes
    ensures r == 0 ==>
      out == StateBytes(HashState(v, f, Initial(v, outlen, 0), Joined(chunks), false), v.wordBytes)[..outlen]
    ensures r == 0 ==> |out| == outlen && forall q :: 0 <= q < |out| ==>
      out[q] == ByteOf(HashState(v, f, Initial(v, outlen, 0), Joined(chunks), false), v, q)
  {
    hide HashState, Blocks, Initial, ByteOf, StateBytes;
    var hasher := new Hasher(v, f);
    r := hasher.Init(outlen);
    if r != 0 { return r, []; }
    var i := 0;
    while i < |chunks|
      invariant 0 <= i <= |chunks| && fresh(hasher) && fresh(hasher.buf)
      invariant hasher.Valid() && hasher.Absorbed() && hasher.message == Joined(chunks[..i])
      invariant hasher.h0 == Initial(v, outlen, 0) && hasher.outlen == outlen && !hasher.lastNode
    {
      assert chunks[..i + 1][..i] == chunks[..i];
      hasher.Update(chunks[i]);
      i := i + 1;
    }
    assert chunks[..|chunks|] == chunks;
    r, out := hasher.Final(outlen);
  }

  // ---- the specification in the words of RFC 7693 ----

  lemma VariantSizes(v: Variant)
    requires IsVariant(v)
    ensures v.wordBytes == (if v == BLAKE2B then 8 else 4) && v.words == Pow(256, v.wordBytes)
    ensures v.blockBytes == 16 * v.wordBytes && v.outBytes == v.keyBytes == 8 * v.wordBytes
  {
    hide Pow;
    PowTwo();
    PowAdd(256, 2, 2);
    PowAdd(256, 4, 4);
  }

  lemma PowTwo()
    ensures Pow(256, 2) == 0x10000
  {}

  /** The message filled up with zeros to whole blocks, and to one block if it is empty. */
  ghost predicate Filled(v: Variant, d: seq<u8>, message: seq<u8>)
    requires IsVariant(v)
  {
    var n := |message|;
    && |d| % v.blockBytes == 0 && v.blockBytes <= |d| && n <= |d| && (|d| > v.blockBytes ==> |d| < n + v.blockBytes)
    && d[..n] == message && AllZero(d[n..])
  }

  /** The chaining values, block by block. */
  ghost predicate HashSteps(v: Variant, f: Compression, d: seq<u8>, n: nat, lastNode: bool, hs: seq<State>)
    requires IsVariant(v)
  {
    |hs| > 0 && forall i :: 0 <= i < |hs| - 1 ==> StepHolds(v, f, d, n, lastNode, hs, i)
  }

  predicate StepHolds(v: Variant, f: Compression, d: seq<u8>, n: nat, lastNode: bool, hs: seq<State>, i: nat)
    requires IsVariant(v) && i + 1 < |hs|
  {
    v.blockBytes * (i + 1) <= |d| && hs[i + 1] == HashStep(v, f, d, n, lastNode, i, hs[i])
  }

  /** Block i of the filled message: the last one has all bytes as counter and the flags. */
  function HashStep(v: Variant, f: Compression, d: seq<u8>, n: nat, lastNode: bool, i: nat, h: State): State
    requires IsVariant(v) && v.blockBytes * (i + 1) <= |d|
  {
    var b := v.blockBytes;
    if b * (i + 1) == |d|
    then f(h, d[b * i..], n % v.words, n / v.words % v.words, v.words - 1, if lastNode then v.words - 1 else 0)
    else
      var t := b * (i + 1);
      f(h, d[b * i..t], t % v.words, t / v.words % v.words, 0, 0)
  }

  lemma HashIsSteps(v: Variant, f: Compression, h0: State, message: seq<u8>, lastNode: bool)
    returns (d: seq<u8>, hs: seq<State>)
    requires IsVariant(v)
    ensures Filled(v, d, message) && HashSteps(v, f, d, |message|, lastNode, hs) && v.blockBytes * (|hs| - 1) == |d|
    ensures hs[0] == h0 && hs[|hs| - 1] == HashState(v, f, h0, message, lastNode)
  {
    hide Blocks, NextBlock, LastBlock, HashStep, Filled, HashSteps, InRow, FillLength;
    d := message + Zeros(FillLength(v, |message|));
    FilledExact(v, message);
    var i, p := 0, Progress(h0, 0, message);
    hs := [h0];
    Beginning(v, f, h0, message, d, lastNode);
    while |p.rest| > v.blockBytes
      invariant |hs| == i + 1 && hs[0] == h0 && p.h == hs[i] && InRow(v, message, i, p)
      invariant HashSteps(v, f, d, |message|, lastNode, hs)
      invariant Blocks(v, f, Progress(h0, 0, message)) == Blocks(v, f, p)
      decreases |p.rest|
    {
      StepNext(v, f, message, lastNode, i, p);
      p := NextBlock(v, f, p);
      StepsNext(v, f, d, |message|, lastNode, hs, p.h);
      hs := hs + [p.h];
      i := i + 1;
    }
    StepLast(v, f, message, lastNode, i, p);
    NoMoreBlocks(v, f, p);
    StepsNext(v, f, d, |message|, lastNode, hs, LastBlock(v, f, p, lastNode));
    hs := hs + [LastBlock(v, f, p, lastNode)];
  }

  lemma Beginning(v: Variant, f: Compression, h0: State, message: seq<u8>, d: seq<u8>, lastNode: bool)
    requires IsVariant(v)
    ensures InRow(v, message, 0, Progress(h0, 0, message)) && HashSteps(v, f, d, |message|, lastNode, [h0])
  {}

  lemma StepsNext(v: Variant, f: Compression, d: seq<u8>, n: nat, lastNode: bool, hs: seq<State>, next: State)
    requires IsVariant(v) && HashSteps(v, f, d, n, lastNode, hs) && v.blockBytes * |hs| <= |d|
    requires next == HashStep(v, f, d, n, lastNode, |hs| - 1, hs[|hs| - 1])
    ensures HashSteps(v, f, d, n, lastNode, hs + [next])
  {
    hide HashStep;
    var t := hs + [next];
    forall i | 0 <= i < |t| - 1 ensures StepHolds(v, f, d, n, lastNode, t, i) {
      if i < |hs| - 1 { assert StepHolds(v, f, d, n, lastNode, hs, i); }
    }
  }

  /** What the first i blocks leave of the message. */
  predicate InRow(v: Variant, message: seq<u8>, i: nat, p: Progress)
    requires IsVariant(v)
  {
    var at := v.blockBytes * i;
    at <= |message| && p.counted == at && p.rest == message[at..] && (i > 0 ==> at < |message|)
  }

  /** The zeros that fill up n bytes to whole blocks, and to one block if there are none. */
  function FillLength(v: Variant, n: nat): nat
    requires IsVariant(v)
  {
    if n == 0 then v.blockBytes else v.blockBytes - 1 - (n - 1) % v.blockBytes
  }

  lemma FilledExact(v: Variant, message: seq<u8>)
    requires IsVariant(v)
    ensures var d := message + Zeros(FillLength(v, |message|)); Filled(v, d, message) && |d| % v.blockBytes == 0
  {}

  lemma StepNext(v: Variant, f: Compression, message: seq<u8>, lastNode: bool, i: nat, p: Progress)
    requires IsVariant(v) && InRow(v, message, i, p) && |p.rest| > v.blockBytes
    ensures var d, q := message + Zeros(FillLength(v, |message|)), NextBlock(v, f, p);
      && InRow(v, message, i + 1, q) && v.blockBytes * (i + 1) <= |d|
      && q.h == HashStep(v, f, d, |message|, lastNode, i, p.h)
      && Blocks(v, f, p) == Blocks(v, f, q) && |q.rest| < |p.rest|
  {
    var b := v.blockBytes;
    var d := message + Zeros(FillLength(v, |message|));
    assert b * (i + 1) == b * i + b;
    assert p.rest[..b] == d[b * i..b * (i + 1)] && p.rest[b..] == message[b * (i + 1)..];
  }

  lemma StepLast(v: Variant, f: Compression, message: seq<u8>, lastNode: bool, i: nat, p: Progress)
    requires IsVariant(v) && InRow(v, message, i, p) && |p.rest| <= v.blockBytes
    ensures var d := message + Zeros(FillLength(v, |message|));
      && |d| == v.blockBytes * (i + 1)
      && LastBlock(v, f, p, lastNode) == HashStep(v, f, d, |message|, lastNode, i, p.h)
  {
    var b, n := v.blockBytes, |message|;
    var d := message + Zeros(FillLength(v, n));
    assert b * (i + 1) == b * i + b;
    if n > 0 { DivModUnique(n - 1, b, i, |p.rest| - 1); }
    assert d[b * i..] == p.rest + Zeros(b - |p.rest|);
  }

  /** The vectors: the fractions of the square roots of the first eight primes. */
  lemma VectorRoots(v: Variant, i: nat)
    requires IsVariant(v) && i < 8
    ensures RootFraction(FIRST_PRIMES[i], v.words, Vector(v)[i])
  {
    hide RootFraction;
    if v == BLAKE2B { LongRoots(i); } else { ShortRoots(i); }
  }

  lemma LongRoots(i: nat)
    requires i < 8
    ensures RootFraction(FIRST_PRIMES[i], TWO64, Vector(BLAKE2B)[i])
  {
    hide RootFraction;
    match i
    case 0 => RootOf(2, TWO64, 1, 0x6a09e667f3bcc908);
    case 1 => RootOf(3, TWO64, 1, 0xbb67ae8584caa73b);
    case 2 => RootOf(5, TWO64, 2, 0x3c6ef372fe94f82b);
    case 3 => RootOf(7, TWO64, 2, 0xa54ff53a5f1d36f1);
    case 4 => RootOf(11, TWO64, 3, 0x510e527fade682d1);
    case 5 => RootOf(13, TWO64, 3, 0x9b05688c2b3e6c1f);
    case 6 => RootOf(17, TWO64, 4, 0x1f83d9abfb41bd6b);
    case _ => RootOf(19, TWO64, 4, 0x5be0cd19137e2179);
  }

  lemma ShortRoots(i: nat)
    requires i < 8
    ensures RootFraction(FIRST_PRIMES[i], TWO32, Vector(BLAKE2S)[i])
  {
    hide RootFraction;
    match i
    case 0 => RootOf(2, TWO32, 1, 0x6a09e667);
    case 1 => RootOf(3, TWO32, 1, 0xbb67ae85);
    case 2 => RootOf(5, TWO32, 2, 0x3c6ef372);
    case 3 => RootOf(7, TWO32, 2, 0xa54ff53a);
    case 4 => RootOf(11, TWO32, 3, 0x510e527f);
    case 5 => RootOf(13, TWO32, 3, 0x9b05688c);
    case 6 => RootOf(17, TWO32, 4, 0x1f83d9ab);
    case _ => RootOf(19, TWO32, 4, 0x5be0cd19);
  }
}
