/** BLAKE-256: buffering, counters and padding around an arbitrary compression function. */
module Blake256 {
  import opened Arith
  import opened Digits
  import opened ByteStrings

  type State = h: seq<u32> | |h| == 8 witness seq(8, _ => 0)

  type Block = b: seq<u8> | |b| == 64 witness seq(64, _ => 0)

  /** The compression function on a block with its two counter words. A counter of zero is not mixed in. */
  type Compression = (State, Block, u32, u32) -> State

  const IV: State := [0x6a09e667, 0xbb67ae85, 0x3c6ef372, 0xa54ff53a, 0x510e527f, 0x9b05688c, 0x1f83d9ab, 0x5be0cd19]

  // ---- the specification: section 2.1.3 of the BLAKE proposal ----

  /** Bytes between the message and its length, so that all fills whole blocks. */
  function PaddingLength(n: nat): (p: nat)
    ensures 1 <= p <= 64 && (n + p + 8) % 64 == 0
  {
    (119 - n % 64) % 64 + 1
  }

  /** A one bit, zeros, a one bit. */
  function Padding(p: nat): (r: seq<u8>)
    requires p >= 1
    ensures |r| == p
  {
    if p == 1 then [0x81] else [0x80] + Zeros(p - 2) + [0x01]
  }

  /** The length of the message in bits, in eight bytes. */
  function LengthBytes(n: nat): (r: seq<u8>)
    ensures |r| == 8
  {
    ToBytes(8 * n, 8)
  }

  function Padded(message: seq<u8>): seq<u8>
  {
    message + Suffix(|message|)
  }

  function Suffix(n: nat): (r: seq<u8>)
    ensures (n + |r|) % 64 == 0
  {
    Padding(PaddingLength(n)) + LengthBytes(n)
  }

  /** The counter of the block that starts at a byte: the message bits up to its end, without padding; zero
      if it holds no message bit. */
  function Counter(start: nat, length: nat): nat
  {
    if start >= length then 0 else if start + 64 <= length then 8 * (start + 64) else 8 * length
  }

  function Low(t: nat): u32 { t % TWO32 }

  function High(t: nat): u32 { t / TWO32 % TWO32 }

  /** Compresses the blocks of the padded message from a position on. */
  function HashFrom(f: Compression, h: State, blocks: seq<u8>, start: nat, length: nat): State
    decreases |blocks|
  {
    if |blocks| < 64 then h else
    var t := Counter(start, length);
    HashFrom(f, f(h, blocks[..64], Low(t), High(t)), blocks[64..], start + 64, length)
  }

  function StateBytes(h: State): seq<u8>
  {
    ToBytes(h[0], 4) + ToBytes(h[1], 4) + ToBytes(h[2], 4) + ToBytes(h[3], 4)
      + ToBytes(h[4], 4) + ToBytes(h[5], 4) + ToBytes(h[6], 4) + ToBytes(h[7], 4)
  }

  /** Every word of the state, most significant byte first. */
  ghost predicate HoldsWords(out: seq<u8>, h: State)
  {
    |out| == 32 && forall i :: 0 <= i < 8 ==> Number(out[4 * i..4 * i + 4]) == h[i]
  }

  lemma StateBytesExact(h: State)
    ensures HoldsWords(StateBytes(h), h)
  {
    hide ToBytes, Number;
    var out := StateBytes(h);
    forall i | 0 <= i < 8 ensures Number(out[4 * i..4 * i + 4]) == h[i] {
      assert out[4 * i..4 * i + 4] == ToBytes(h[i], 4);
      FourBytesHold(h[i]);
    }
  }

  lemma FourBytesHold(w: u32)
    ensures Number(ToBytes(w, 4)) == w
  {
    assert Pow(256, 2) == 0x10000 by { assert Pow(256, 1) == 256; }
    PowAdd(256, 2, 2);
    NumberOfBytes(w, 4);
  }

  function Digest(f: Compression, message: seq<u8>): seq<u8>
  {
    StateBytes(HashFrom(f, IV, Padded(message), 0, |message|))
  }

  // ---- the context as a value ----

  /** The chaining value, the counter words and the bytes not yet compressed. */
  datatype Context = Context(h: State, t0: u32, t1: u32, pending: seq<u8>)

  /** A counter word with some bits taken back. */
  function Less(t: u32, bits: nat): u32 { (t - bits) % TWO32 }

  /** One block leaves the pending bytes; the counter grows by 512 with a carry when it comes to zero. */
  function Step(f: Compression, nullt: bool, s: Context): Context
    requires |s.pending| >= 64
  {
    var t0 := (s.t0 + 512) % TWO32;
    var t1 := if t0 == 0 then (s.t1 + 1) % TWO32 else s.t1;
    Context(if nullt then f(s.h, s.pending[..64], 0, 0) else f(s.h, s.pending[..64], t0, t1), t0, t1, s.pending[64..])
  }

  function Drain(f: Compression, nullt: bool, s: Context): (r: Context)
    ensures |r.pending| < 64
    decreases |s.pending|
  {
    if |s.pending| < 64 then s else Drain(f, nullt, Step(f, nullt, s))
  }

  function More(s: Context, data: seq<u8>): Context
  {
    s.(pending := s.pending + data)
  }

  /** What has been compressed stays so when more data arrives. */
  lemma {:induction false} DrainMore(f: Compression, nullt: bool, s: Context, data: seq<u8>)
    ensures Drain(f, nullt, More(Drain(f, nullt, s), data)) == Drain(f, nullt, More(s, data))
    decreases |s.pending|
  {
    if |s.pending| >= 64 {
      assert (s.pending + data)[..64] == s.pending[..64] && (s.pending + data)[64..] == s.pending[64..] + data;
      DrainMore(f, nullt, Step(f, nullt, s), data);
    }
  }

  // ---- the context ----

  class Hasher {
    const f: Compression
    var h: State
    var t0: u32
    var t1: u32
    var nullt: bool
    var buf: array<u8>
    var buflen: nat
    ghost var message: seq<u8>

    ghost predicate Valid()
      reads this, buf
    {
      buf.Length == 64 && buflen < 64
    }

    function Value(): Context
      requires Valid()
      reads this, buf
    {
      Context(h, t0, t1, buf[..buflen])
    }

    /** Only the concatenation of all data so far matters. */
    ghost predicate Absorbed()
      requires Valid()
      reads this, buf
    {
      !nullt && Value() == Drain(f, false, Context(IV, 0, 0, message))
    }

    /** blake256_Init */
    constructor (f: Compression)
      ensures Valid() && fresh(buf) && this.f == f && message == [] && Absorbed()
    {
      this.f := f;
      h, t0, t1, nullt, buflen := IV, 0, 0, false, 0;
      buf := new u8[64](_ => 0);
      message := [];
    }

    /** blake256_compress, on a block at the front of a byte string. */
    method Compress(block: Block)
      modifies `h
      ensures h == if nullt then f(old(h), block, 0, 0) else f(old(h), block, t0, t1)
    {
      if nullt { h := f(h, block, 0, 0); } else { h := f(h, block, t0, t1); }
    }

    /** The counter step in front of every compression. */
    method Count()
      modifies `t0, `t1
      ensures t0 == (old(t0) + 512) % TWO32
      ensures t1 == if t0 == 0 then (old(t1) + 1) % TWO32 else old(t1)
    {
      t0 := (t0 + 512) % TWO32;
      if t0 == 0 { t1 := (t1 + 1) % TWO32; }
    }

    /** Counts and compresses the first block of the pending bytes. */
    method CompressNext(block: Block, ghost pending: seq<u8>)
      requires |pending| >= 64 && block == pending[..64]
      modifies `h, `t0, `t1
      ensures Context(h, t0, t1, pending[64..]) == Step(f, nullt, Context(old(h), old(t0), old(t1), pending))
      ensures Drain(f, nullt, Context(h, t0, t1, pending[64..]))
        == Drain(f, nullt, Context(old(h), old(t0), old(t1), pending))
    {
      Count();
      Compress(block);
    }

    /** memcpy into the buffer. */
    method Store(at: nat, data: seq<u8>)
      requires buf.Length == 64 && at + |data| <= 64
      modifies buf
      ensures buf[..at + |data|] == old(buf[..at]) + data
    {
      var i := 0;
      while i < |data|
        invariant 0 <= i <= |data|
        invariant buf[..at + i] == old(buf[..at]) + data[..i]
      {
        buf[at + i] := data[i];
        i := i + 1;
      }
      assert data[..|data|] == data;
    }

    /** blake256_Update: whatever the chunks, the context is that of the bytes in a row. */
    method Update(input: seq<u8>)
      requires Valid()
      modifies this, buf
      ensures Valid() && buf == old(buf) && nullt == old(nullt) && message == old(message) + input
      ensures Value() == Drain(f, nullt, More(old(Value()), input))
      ensures old(Absorbed()) ==> Absorbed()
    {
      if Absorbed() { DrainMore(f, false, Context(IV, 0, 0, message), input); }
      Feed(input);
      message := message + input;
    }

    /** The body of blake256_Update. */
    method Feed(input: seq<u8>)
      requires Valid()
      modifies `h, `t0, `t1, `buflen, buf
      ensures Valid() && Value() == Drain(f, nullt, More(old(Value()), input))
    {
      hide Drain, Step;
      ghost var target := Drain(f, nullt, More(old(Value()), input));
      var left := buflen;
      var fill := 64 - left;
      var rest := input;
      ghost var pending := old(buf[..buflen]);
      assert More(old(Value()), input) == Context(h, t0, t1, pending + rest);
      if |input| == 0 {
        assert pending + rest == pending;
        DrainedAlready(f, nullt, Value());
        return;
      }
      if left != 0 && |rest| >= fill {
        Store(left, rest[..fill]);
        assert (pending + rest)[..64] == buf[..] && (pending + rest)[64..] == rest[fill..];
        CompressNext(buf[..], pending + rest);
        rest := rest[fill..];
        left := 0;
        pending := [];
        assert pending + rest == rest;
      }
      while |rest| >= 64
        invariant 0 <= left < 64
        invariant buf[..left] == pending && |pending| == left && (left > 0 ==> 0 < |rest| < 64 - left)
        invariant Drain(f, nullt, Context(h, t0, t1, pending + rest)) == target
      {
        assert pending + rest == rest;
        CompressNext(rest[..64], rest);
        rest := rest[64..];
        assert pending + rest == rest;
      }
      if |rest| > 0 {
        Store(left, rest);
        buflen := left + |rest|;
      } else {
        buflen := 0;
      }
      assert buf[..buflen] == pending + rest;
      DrainedAlready(f, nullt, Value());
    }

    /** An update that does not fill the buffer. */
    method Append(input: seq<u8>)
      requires Valid() && buflen + |input| < 64
      modifies this, buf
      ensures Valid() && buf == old(buf) && nullt == old(nullt)
      ensures Value() == More(old(Value()), input) && buflen == old(buflen) + |input|
    {
      DrainedAlready(f, nullt, More(Value(), input));
      Update(input);
    }

    /** An update that fills the buffer exactly. */
    method Fill(input: seq<u8>)
      requires Valid() && buflen + |input| == 64
      modifies this, buf
      ensures Valid() && buf == old(buf) && nullt == old(nullt)
      ensures Value() == Step(f, nullt, More(old(Value()), input)) && buflen == 0
    {
      LastBlock(f, nullt, More(Value(), input));
      Update(input);
      assert |Value().pending| == 0;
    }

    /** The end of blake256_Final for at most 55 buffered bytes: one more block. */
    method FinishOne(msglen: seq<u8>, ghost k: nat, ghost n: nat)
      requires Valid() && !nullt && buflen <= 55 && |msglen| == 8 && msglen == LengthBytes(n)
      requires Counts(Value(), k) && n == k + buflen
      modifies this, buf
      ensures h == HashFrom(f, old(h), old(buf[..buflen]) + Suffix(n), k, n)
    {
      hide HashFrom, Padding, PaddingLength, Zeros, LengthBytes, ToBytes, Step, Counts, Less, Suffix;
      ghost var d := Value();
      ghost var b := buflen;
      AddBuffered(d, k, b);
      SuffixPieces(d.pending, k, n, msglen);
      if buflen == 55 {
        t0 := Less(t0, 8);
        Append([0x81]);
      } else {
        if buflen == 0 { nullt := true; }
        t0 := Less(t0, 440 - buflen * 8);
        Append(PADDING[..55 - buflen]);
        Append([0x01]);
        t0 := Less(t0, 8);
      }
      t0 := Less(t0, 64);
      WrapsBack(d.t0, b);
      OneBlock(f, d, k, n, nullt, More(Value(), msglen));
      Fill(msglen);
    }

    /** The end of blake256_Final for more buffered bytes: two more blocks. */
    method FinishTwo(msglen: seq<u8>, ghost k: nat, ghost n: nat)
      requires Valid() && !nullt && buflen > 55 && |msglen| == 8 && msglen == LengthBytes(n)
      requires Counts(Value(), k) && n == k + buflen
      modifies this, buf
      ensures h == HashFrom(f, old(h), old(buf[..buflen]) + Suffix(n), k, n)
    {
      hide HashFrom, Padding, PaddingLength, LengthBytes, ToBytes, Step, Counts, Less, Suffix, Counter;
      ghost var d := Value();
      ghost var b := buflen;
      AddBuffered(d, k, b);
      SuffixPieces(d.pending, k, n, msglen);
      t0 := Less(t0, 512 - buflen * 8);
      ghost var first := More(Value(), PADDING[..64 - b]);
      WrapsBack(d.t0, b);
      Fill(PADDING[..64 - buflen]);
      FirstOfTwo(f, first, t0, t1, Value());
      TwoBlocks(f, d, k, n, first, t0, h, PADDING[1..56] + [0x01] + msglen);
      FillSecond(msglen);
    }

    /** The second block holds nothing but padding and is compressed with a zero counter. */
    method FillSecond(msglen: seq<u8>)
      requires Valid() && buflen == 0 && |msglen| == 8
      modifies this, buf
      ensures h == f(old(h), PADDING[1..56] + [0x01] + msglen, 0, 0)
    {
      hide Step, Less;
      t0 := Less(t0, 440);
      Append(PADDING[1..56]);
      nullt := true;
      Append([0x01]);
      t0 := Less(t0, 8);
      t0 := Less(t0, 64);
      ghost var second := More(Value(), msglen);
      assert second.pending == PADDING[1..56] + [0x01] + msglen;
      StepOne(f, true, second);
      Fill(msglen);
    }

    /** blake256_Final: the digest of everything absorbed. */
    method Final() returns (out: seq<u8>)
      requires Valid() && Absorbed()
      modifies this, buf
      ensures out == Digest(f, old(message))
      ensures HoldsWords(out, HashFrom(f, IV, Padded(old(message)), 0, |old(message)|))
    {
      hide HashFrom, HoldsWords, StateBytes, Drain, LengthBytes, Counter, ToBytes, PaddingLength, Padding;
      ghost var n := |message|;
      ghost var k := n - buflen;
      NothingCounted();
      DrainIsHash(f, Context(IV, 0, 0, message), 0, n, Suffix(n));
      var lo, hi := (t0 + buflen * 8) % TWO32, t1;
      if lo < buflen * 8 { hi := (hi + 1) % TWO32; }
      LengthWords(Value(), k, buflen);
      var msglen := ToBytes(hi, 4) + ToBytes(lo, 4);
      if buflen <= 55 { FinishOne(msglen, k, n); } else { FinishTwo(msglen, k, n); }
      StateBytesExact(h);
      return StateBytes(h);
    }
  }

  /** All chunks in a row. */
  function Joined(chunks: seq<seq<u8>>): seq<u8>
  {
    if |chunks| == 0 then [] else Joined(chunks[..|chunks| - 1]) + chunks[|chunks| - 1]
  }

  /** blake256, with the input in any number of updates: the digest is that of all bytes in a row. */
  method HashChunks(f: Compression, chunks: seq<seq<u8>>) returns (out: seq<u8>)
    ensures out == Digest(f, Joined(chunks))
    ensures HoldsWords(out, HashFrom(f, IV, Padded(Joined(chunks)), 0, |Joined(chunks)|))
  {
    var hasher := new Hasher(f);
    var i := 0;
    while i < |chunks|
      invariant 0 <= i <= |chunks| && fresh(hasher) && fresh(hasher.buf)
      invariant hasher.Valid() && hasher.Absorbed() && hasher.message == Joined(chunks[..i])
    {
      assert chunks[..i + 1][..i] == chunks[..i];
      hasher.Update(chunks[i]);
      i := i + 1;
    }
    assert chunks[..|chunks|] == chunks;
    out := hasher.Final();
  }

  lemma NothingCounted()
    ensures Counts(Context(IV, 0, 0, []), 0) && forall m: seq<u8> :: Counts(Context(IV, 0, 0, m), 0)
  {}

  lemma BufferedIs(k: nat, b: nat)
    requires k % 64 == 0 && b < 64
    ensures (k + b) % 64 == b
  {}

  lemma LastBlock(f: Compression, nullt: bool, s: Context)
    requires |s.pending| == 64
    ensures Drain(f, nullt, s) == Step(f, nullt, s)
  {
    DrainedAlready(f, nullt, Step(f, nullt, s));
  }

  /** The counter words with some buffered bytes added: the low word never overflows. */
  lemma AddBuffered(s: Context, k: nat, b: nat)
    requires Counts(s, k) && b < 64
    ensures s.t0 + 8 * b < TWO32 && Low(8 * (k + b)) == s.t0 + 8 * b && High(8 * (k + b)) == s.t1 && k % 64 == 0
  {
    var q := 8 * k / TWO32;
    assert 8 * k == q * TWO32 + s.t0 && s.t0 % 512 == 0;
    DivModUnique(8 * (k + b), TWO32, q, s.t0 + 8 * b);
  }

  /** blake256_Final computes the length of the message from the counter. */
  lemma LengthWords(s: Context, k: nat, b: nat)
    requires Counts(s, k) && b < 64
    ensures s.t0 + 8 * b < TWO32 && ToBytes(s.t1, 4) + ToBytes(s.t0 + 8 * b, 4) == LengthBytes(k + b)
  {
    AddBuffered(s, k, b);
    LengthHalves(8 * (k + b));
  }

  /** Subtracting the padding bits first and adding a whole block then counts the buffered bits. */
  lemma WrapsBack(t: u32, b: nat)
    requires b < 64 && t + 8 * b < TWO32
    ensures b == 55 ==> (Less(Less(t, 8), 64) + 512) % TWO32 == t + 8 * b
    ensures b <= 55 ==> (Less(Less(Less(t, 440 - 8 * b), 8), 64) + 512) % TWO32 == t + 8 * b
    ensures (Less(t, 512 - 8 * b) + 512) % TWO32 == t + 8 * b
  {
    var x := t - (440 - 8 * b);
    ModStep(x, -8);
    ModStep(x - 8, -64);
    ModStep(x - 72, 512);
    ModStep(t - 8, -64);
    ModStep(t - 72, 512);
    ModStep(t - (512 - 8 * b), 512);
    DivModUnique(t + 8 * b, TWO32, 0, t + 8 * b);
  }

  lemma ModStep(x: int, c: int)
    ensures ((x % TWO32) + c) % TWO32 == (x + c) % TWO32
  {
    DivMod(x, TWO32);
    CongBy(x + c, x % TWO32 + c, TWO32, x / TWO32);
  }

  /** A step with a single block pending. */
  lemma StepOne(f: Compression, nullt: bool, s: Context)
    requires |s.pending| == 64
    ensures var t0 := (s.t0 + 512) % TWO32;
      Step(f, nullt, s).h
        == if nullt then f(s.h, s.pending, 0, 0)
          else f(s.h, s.pending, t0, if t0 == 0 then (s.t1 + 1) % TWO32 else s.t1)
  {
    assert s.pending[..64] == s.pending;
  }

  /** One block is left: its counter is the message length, or zero if it holds padding only. */
  lemma OneBlock(f: Compression, d: Context, k: nat, n: nat, nullt: bool, s: Context)
    requires Counts(d, k) && |d.pending| <= 55 && n == k + |d.pending|
    requires s.h == d.h && s.t1 == d.t1 && s.pending == d.pending + Suffix(n) && |s.pending| == 64
    requires (s.t0 + 512) % TWO32 == d.t0 + 8 * |d.pending| && nullt == (|d.pending| == 0)
    ensures Step(f, nullt, s).h == HashFrom(f, d.h, d.pending + Suffix(n), k, n)
  {
    hide Suffix, Step, Counts, Low, High;
    var b, block := |d.pending|, s.pending;
    AddBuffered(d, k, b);
    StepOne(f, nullt, s);
    LastHash(f, d.h, block, k, n);
    ZeroCounter();
  }

  lemma ZeroCounter()
    ensures Low(0) == 0 && High(0) == 0
  {}

  lemma LastHash(f: Compression, h: State, block: seq<u8>, k: nat, n: nat)
    requires |block| == 64
    ensures HashFrom(f, h, block, k, n) == f(h, block, Low(Counter(k, n)), High(Counter(k, n)))
  {
    hide Low, High, Counter;
    assert block[..64] == block && block[64..] == [];
  }

  /** The first of two blocks ends the message and counts it. */
  lemma FirstOfTwo(f: Compression, first: Context, t0: u32, t1: u32, after: Context)
    requires |first.pending| == 64 && after == Step(f, false, first) && t0 == after.t0 && t1 == after.t1
    ensures after.h == f(first.h, first.pending, t0, t1) && after.pending == [] && t0 == (first.t0 + 512) % TWO32
    ensures t1 == if t0 == 0 then (first.t1 + 1) % TWO32 else first.t1
  {
    assert first.pending[..64] == first.pending;
  }

  /** Two blocks are left: the first ends the message, the second holds padding only. */
  lemma TwoBlocks(
    f: Compression, d: Context, k: nat, n: nat, first: Context, t0: u32, h: State, block: Block)
    requires Counts(d, k) && 55 < |d.pending| < 64 && n == k + |d.pending| && t0 == d.t0 + 8 * |d.pending|
    requires |first.pending| == 64 && first.pending + block == d.pending + Suffix(n)
    requires first.h == d.h && h == f(first.h, first.pending, t0, d.t1)
    ensures f(h, block, 0, 0) == HashFrom(f, d.h, d.pending + Suffix(n), k, n)
  {
    hide Suffix, Step, Counts, Low, High;
    var all := first.pending + block;
    AddBuffered(d, k, |d.pending|);
    assert all[..64] == first.pending && all[64..] == block;
    LastHash(f, h, block, k + 64, n);
    ZeroCounter();
  }

  // ---- blake256_Final ----

  const PADDING: seq<u8> := [0x80] + Zeros(128)

  /** The pieces of the padding, for b bytes in the buffer. */
  lemma PaddingPieces(n: nat)
    ensures var b := n % 64;
      && (b == 55 ==> Padding(PaddingLength(n)) == [0x81])
      && (b < 55 ==> Padding(PaddingLength(n)) == PADDING[..55 - b] + [0x01])
      && (b > 55 ==> Padding(PaddingLength(n)) == PADDING[..64 - b] + PADDING[1..56] + [0x01])
  {}

  /** What Final appends, in its pieces. */
  lemma SuffixPieces(pending: seq<u8>, k: nat, n: nat, msglen: seq<u8>)
    requires k % 64 == 0 && |pending| < 64 && n == k + |pending| && msglen == LengthBytes(n) && |msglen| == 8
    ensures var b := |pending|;
      && (b == 55 ==> pending + [0x81] + msglen == pending + Suffix(n))
      && (b < 55 ==> pending + PADDING[..55 - b] + [0x01] + msglen == pending + Suffix(n))
      && (b > 55 ==> (pending + PADDING[..64 - b]) + (PADDING[1..56] + [0x01] + msglen) == pending + Suffix(n))
      && |PADDING| == 129
  {
    hide Padding, LengthBytes, Zeros;
    BufferedIs(k, |pending|);
    PaddingPieces(n);
  }

  /** The two halves of the length. */
  lemma LengthHalves(v: nat)
    ensures ToBytes(v, 8) == ToBytes(High(v), 4) + ToBytes(Low(v), 4)
  {
    var q, r := v / TWO32, v % TWO32;
    LowBytes(q, r);
    HighBytes(q);
  }

  lemma LowBytes(q: nat, r: nat)
    requires r < TWO32
    ensures ToBytes(q * TWO32 + r, 8) == ToBytes(q, 4) + ToBytes(r, 4)
  {
    hide ToBytes;
    var a, b, c := r / 0x100, r / 0x10000, r / 0x1000000;
    assert a / 0x100 == b && b / 0x100 == c && c / 0x100 == 0;
    LastByte(q * 0x1000000, r, 7);
    LastByte(q * 0x10000, a, 6);
    LastByte(q * 0x100, b, 5);
    LastByte(q, c, 4);
    FourBytes(r);
  }

  lemma FourBytes(r: nat)
    ensures ToBytes(r, 4) == [r / 0x1000000 % 0x100, r / 0x10000 % 0x100, r / 0x100 % 0x100, r % 0x100]
  {
    hide ToBytes;
    var a, b, c := r / 0x100, r / 0x10000, r / 0x1000000;
    assert a / 0x100 == b && b / 0x100 == c;
    LastByte(0, r, 3);
    LastByte(0, a, 2);
    LastByte(0, b, 1);
    LastByte(0, c, 0);
    NoBytes(c / 0x100);
  }

  lemma NoBytes(n: nat)
    ensures ToBytes(n, 0) == []
  {}

  lemma HighBytes(q: nat)
    ensures ToBytes(q, 4) == ToBytes(q % TWO32, 4)
  {
    hide ToBytes;
    var h, r := q / TWO32, q % TWO32;
    var a, b, c := r / 0x100, r / 0x100 / 0x100, r / 0x100 / 0x100 / 0x100;
    LowBytesOnly(h * 0x1000000, r, 3);
    LowBytesOnly(h * 0x10000, a, 2);
    LowBytesOnly(h * 0x100, b, 1);
    LowBytesOnly(h, c, 0);
    NoBytes(h + c / 0x100);
    NoBytes(c / 0x100);
  }

  /** Both numbers end in the same byte. */
  lemma LowBytesOnly(high: nat, low: nat, k: nat)
    ensures ToBytes(high * 0x100 + low, k + 1) == ToBytes(high + low / 0x100, k) + [low % 0x100]
    ensures ToBytes(low, k + 1) == ToBytes(low / 0x100, k) + [low % 0x100]
  {
    hide ToBytes;
    LastByte(high, low, k);
    LastByte(0, low, k);
  }

  lemma DrainedAlready(f: Compression, nullt: bool, s: Context)
    requires |s.pending| < 64
    ensures Drain(f, nullt, s) == s
  {}

  // ---- what has been compressed, in the terms of the specification ----

  /** The counter words of a number of whole blocks. */
  predicate Counts(s: Context, k: nat)
  {
    k % 64 == 0 && s.t0 == Low(8 * k) && s.t1 == High(8 * k)
  }

  lemma CountsNext(t0: u32, t1: u32, k: nat)
    requires k % 64 == 0 && t0 == Low(8 * k) && t1 == High(8 * k)
    ensures (t0 + 512) % TWO32 == Low(8 * (k + 64))
    ensures High(8 * (k + 64)) == if Low(8 * (k + 64)) == 0 then (t1 + 1) % TWO32 else t1
  {
    var q, n := 8 * k / TWO32, k / 64;
    assert 8 * k == q * TWO32 + t0 && t0 % 512 == 0;
    if t0 + 512 == TWO32 {
      DivModUnique(8 * (k + 64), TWO32, q + 1, 0);
    } else {
      DivModUnique(8 * (k + 64), TWO32, q, t0 + 512);
    }
  }

  /** The blocks taken from the front of the pending bytes are those of the padded message. */
  lemma {:induction false} DrainIsHash(f: Compression, s: Context, k: nat, length: nat, suffix: seq<u8>)
    requires Counts(s, k) && length == k + |s.pending|
    ensures var d := Drain(f, false, s); var k' := length - |d.pending|;
      && Counts(d, k')
      && HashFrom(f, s.h, s.pending + suffix, k, length) == HashFrom(f, d.h, d.pending + suffix, k', length)
    decreases |s.pending|
  {
    hide High, Low;
    if |s.pending| >= 64 {
      var next := Step(f, false, s);
      CountsNext(s.t0, s.t1, k);
      assert (s.pending + suffix)[..64] == s.pending[..64] && (s.pending + suffix)[64..] == next.pending + suffix;
      DrainIsHash(f, next, k + 64, length, suffix);
    }
  }

  // ---- the specification in the words of the proposal ----

  /** The message, then as few bytes as possible so that the length ends a block: a one bit, zeros and a one bit;
      then the length in bits. */
  ghost predicate IsPadded(p: seq<u8>, message: seq<u8>)
  {
    var n := |message|;
    && |p| % 64 == 0 && n + 9 <= |p| < n + 9 + 64 && p[..n] == message
    && Number(p[n..|p| - 8]) == 128 * Pow(256, |p| - n - 9) + 1
    && Number(p[|p| - 8..]) == 8 * n % TWO64
  }

  lemma PaddedExact(message: seq<u8>)
    ensures IsPadded(Padded(message), message)
  {
    hide Padding, LengthBytes, Pow, Number;
    var n := |message|;
    var k := PaddingLength(n);
    var p := Padded(message);
    assert p == message + (Padding(k) + LengthBytes(n));
    assert p[..n] == message && p[n..|p| - 8] == Padding(k) && p[|p| - 8..] == LengthBytes(n);
    PaddingNumber(k);
    LengthNumber(n);
  }

  lemma LengthNumber(n: nat)
    ensures Number(LengthBytes(n)) == 8 * n % TWO64
  {
    hide Pow;
    EightBytes();
    LowestBytes(8 * n, 8);
  }

  lemma EightBytes()
    ensures Pow(256, 8) == TWO64
  {
    hide Pow;
    PowTwo();
    PowAdd(256, 2, 2);
    PowAdd(256, 4, 4);
  }

  lemma PowTwo()
    ensures Pow(256, 2) == 0x10000
  {}

  lemma PaddingNumber(k: nat)
    requires k >= 1
    ensures Number(Padding(k)) == 128 * Pow(256, k - 1) + 1
  {
    if k > 1 {
      hide Pow, Number;
      var front, z: seq<u8> := [0x80], Zeros(k - 2);
      NumberConcat(front + z, [0x01]);
      NumberConcat(front, z);
      NumberOfZeros(k - 2);
      OneByteNumber(0x80);
      OneByteNumber(0x01);
      PowNext(k - 2);
    } else {
      OneByteNumber(0x81);
    }
  }

  lemma OneByteNumber(b: u8)
    ensures Number([b]) == b && Pow(256, 1) == 256 && Pow(256, 0) == 1
  {
    var s: seq<nat> := [b];
    assert s[..0] == [];
    assert BigEndian(256, s) == BigEndian(256, []) * 256 + s[0];
  }

  lemma PowNext(k: nat)
    ensures Pow(256, k + 1) == 256 * Pow(256, k)
  {}

  lemma {:induction false} NumberOfZeros(k: nat)
    ensures Number(Zeros(k)) == 0
  {
    if k > 0 {
      assert Zeros(k)[..k - 1] == Zeros(k - 1);
      NumberOfZeros(k - 1);
    }
  }

  /** The message bits up to the end of block i, or zero if it holds none. */
  function BitsThrough(i: nat, n: nat): nat
  {
    if n <= 64 * i then 0 else if n < 64 * (i + 1) then 8 * n else 512 * (i + 1)
  }

  /** The chaining values from the initial one, block by block. */
  ghost predicate HashSteps(f: Compression, p: seq<u8>, n: nat, hs: seq<State>)
    requires |p| % 64 == 0
  {
    && |hs| == |p| / 64 + 1 && hs[0] == IV
    && forall i :: 0 <= i < |p| / 64 ==> hs[i + 1] == HashStep(f, p, n, i, hs[i])
  }

  function HashStep(f: Compression, p: seq<u8>, n: nat, i: nat, h: State): State
    requires 64 * (i + 1) <= |p|
  {
    var t := BitsThrough(i, n);
    f(h, p[64 * i..64 * (i + 1)], t % TWO32, t / TWO32 % TWO32)
  }

  lemma PaddedWhole(p: seq<u8>, message: seq<u8>)
    requires IsPadded(p, message)
    ensures |p| % 64 == 0
  {}

  lemma HashFromNext(f: Compression, p: seq<u8>, n: nat, i: nat, h: State)
    requires 64 * (i + 1) <= |p|
    ensures HashFrom(f, h, p[64 * i..], 64 * i, n)
      == HashFrom(f, HashStep(f, p, n, i, h), p[64 * (i + 1)..], 64 * (i + 1), n)
  {
    var rest := p[64 * i..];
    assert rest[..64] == p[64 * i..64 * (i + 1)] && rest[64..] == p[64 * (i + 1)..];
  }

  lemma HashFromEnd(f: Compression, h: State, rest: seq<u8>, start: nat, n: nat)
    ensures |rest| < 64 ==> HashFrom(f, h, rest, start, n) == h
  {}

  lemma DigestIsSteps(f: Compression, message: seq<u8>) returns (p: seq<u8>, hs: seq<State>)
    ensures IsPadded(p, message) && HashSteps(f, p, |message|, hs)
    ensures HoldsWords(Digest(f, message), hs[|hs| - 1])
  {
    hide IsPadded, HoldsWords, HashFrom, HashStep, StateBytes, Padded;
    p := Padded(message);
    PaddedExact(message);
    PaddedWhole(p, message);
    hs := [IV];
    assert p[0..] == p;
    var i := 0;
    while i < |p| / 64
      invariant 0 <= i <= |p| / 64 && |hs| == i + 1 && hs[0] == IV
      invariant forall j :: 0 <= j < i ==> hs[j + 1] == HashStep(f, p, |message|, j, hs[j])
      invariant HashFrom(f, IV, p, 0, |message|) == HashFrom(f, hs[i], p[64 * i..], 64 * i, |message|)
    {
      HashFromNext(f, p, |message|, i, hs[i]);
      hs := hs + [HashStep(f, p, |message|, i, hs[i])];
      i := i + 1;
    }
    HashFromEnd(f, hs[i], p[64 * i..], 64 * i, |message|);
    StateBytesExact(hs[i]);
  }

  /** The initial value: the fractions of the square roots of the first eight primes. */
  lemma InitialRoots(i: nat)
    requires i < 8
    ensures RootFraction(FIRST_PRIMES[i], TWO32, IV[i])
  {
    hide RootFraction;
    match i
    case 0 => RootOf(2, TWO32, 1, 0x6a09e667);
    case 1 => RootOf(3, TWO32, 1, 0xbb67ae85);
    case 2 => RootOf(5, TWO32, 2, 0x3c6ef372);
    case 3 => RootOf(7, TWO32, 2, 0xa54ff53a);
    case 4 => RootOf(11, TWO32, 3, 0x510e527f);
    case 5 => RootOf(13, TWO32, 3, 0x9b05688c);
    case 6 => RootOf(17, TWO32, 4, 0x1f83d9ab);
    case _ => RootOf(19, TWO32, 4, 0x5be0cd19);
  }
}
