/** The in-place radix conversions of base58.c, and that they are the big-integer ones. */
module Base58C {
  import opened Arith
  import opened Digits
  import opened ByteStrings
  import opened Radix
  import opened Base58

  // ---- the size of the digit buffer ----

  function BufferSize(n: nat): nat { n * 138 / 100 + 1 }

  lemma Doubled(b: nat, m: nat, n: nat, x: nat, y: nat)
    requires Pow(b, m) == x && Pow(b, n) == y
    ensures Pow(b, m + n) == x * y
  {
    PowAdd(b, m, n);
  }

  lemma SmallPowers()
    ensures Pow(58, 3) == 195112 && Pow(58, 5) == 656356768
    ensures Pow(2, 17) == 0x20000 && Pow(2, 29) == 0x20000000
  {
    assert Pow(58, 1) == 58 && Pow(58, 2) == 3364;
    Doubled(58, 1, 2, 58, 3364);
    Doubled(58, 2, 3, 3364, 195112);
    assert Pow(2, 1) == 2 && Pow(2, 2) == 4 && Pow(2, 3) == 8;
    Doubled(2, 3, 3, 8, 8);
    Doubled(2, 6, 6, 64, 64);
    Doubled(2, 12, 3, 4096, 8);
    Doubled(2, 15, 2, 32768, 4);
    Doubled(2, 12, 12, 4096, 4096);
    Doubled(2, 24, 3, 0x1000000, 8);
    Doubled(2, 27, 2, 0x8000000, 4);
  }

  lemma ByteIsPower()
    ensures Pow(2, 8) == 256
  {
    assert Pow(2, 2) == 4;
    Doubled(2, 2, 2, 4, 4);
    Doubled(2, 4, 4, 16, 16);
  }

  /** 138 digits hold 100 bytes: 58^5 > 2^29 and 58^3 > 2^17, and 138 = 27 * 5 + 3 while 800 = 27 * 29 + 17. */
  lemma HundredBytes()
    ensures Pow(256, 100) <= Pow(58, 138)
  {
    hide Pow;
    SmallPowers();
    ByteIsPower();
    PowMul(58, 5, 27);
    PowMul(2, 29, 27);
    PowBase(0x20000000, 656356768, 27);
    PowAdd(58, 135, 3);
    PowAdd(2, 783, 17);
    MulMono(Pow(2, 783), Pow(58, 135), Pow(2, 17), Pow(58, 3));
    PowMul(2, 8, 100);
  }

  /** The buffer of b58enc is always large enough. */
  lemma BufferSuffices(n: nat)
    ensures Pow(256, n) < Pow(58, BufferSize(n))
  {
    hide Pow;
    var f := BufferSize(n);
    assert 138 * n < 100 * f;
    HundredBytes();
    PowMul(256, 100, n);
    PowMul(58, 138, n);
    PowBase(Pow(256, 100), Pow(58, 138), n);
    PowStrict(58, 138 * n, 100 * f);
    PowMul(58, f, 100);
    PowMul(256, n, 100);
    assert n * 100 == 100 * n && f * 100 == 100 * f;
    if Pow(58, f) <= Pow(256, n) { PowBase(Pow(58, f), Pow(256, n), 100); }
  }

  // ---- b58enc ----

  /** Digits most significant first, without the leading ones. */
  lemma SuffixValue(b: nat, s: seq<nat>, j: nat)
    requires j < |s|
    ensures BigEndian(b, s[j..]) == s[j] * Pow(b, |s| - 1 - j) + BigEndian(b, s[j + 1..])
  {
    assert s[j..] == [s[j]] + s[j + 1..];
    BigEndianConcat(b, [s[j]], s[j + 1..]);
    assert [s[j]][..0] == [];
    assert BigEndian(b, [s[j]]) == s[j];
  }

  /** The digits from j on and the carry left over account for total. */
  ghost predicate Accounts(b: nat, s: seq<nat>, j: nat, carry: nat, total: nat)
    requires j <= |s|
  {
    MulAdd(BigEndian(b, s[j..]), Pow(b, |s| - j), carry) == total
  }

  /** One more digit: the old one times m, plus the carry, leaves a digit and a carry. */
  lemma NextAccounts(b: nat, was: seq<nat>, now: seq<nat>, next: seq<nat>, j: nat, m: nat, c: nat, carry: nat)
    requires b > 0 && j < |was| == |now| == |next|
    requires Accounts(b, now, j + 1, carry, m * BigEndian(b, was[j + 1..]) + c)
    requires next == now[j := (carry + m * was[j]) % b]
    ensures Accounts(b, next, j, (carry + m * was[j]) / b, m * BigEndian(b, was[j..]) + c)
  {
    var t, w := carry + m * was[j], Pow(b, |was| - 1 - j);
    SuffixValue(b, was, j);
    SuffixValue(b, next, j);
    assert next[j + 1..] == now[j + 1..];
    DivMod(t, b);
    Regrouped(b, w, t % b, t / b, carry, m, was[j], BigEndian(b, was[j + 1..]), BigEndian(b, now[j + 1..]), c);
  }

  lemma Regrouped(b: nat, w: nat, d: nat, q: nat, carry: nat, m: nat, x: nat, v: nat, u: nat, c: nat)
    requires u + w * carry == m * v + c && carry + m * x == q * b + d
    ensures (d * w + u) + (b * w) * q == m * (x * w + v) + c
  {
    assert w * (carry + m * x) == w * (q * b + d);
    assert w * (m * x) == m * (x * w);
    assert w * (q * b) == (b * w) * q;
  }

  /** The digits before a position are zero. */
  ghost predicate ZerosUpTo(s: seq<nat>, j: int)
    requires j < |s|
  {
    forall k :: 0 <= k <= j ==> s[k] == 0
  }

  /** The inner loop of b58enc: multiplies by 256 and adds a byte, from the last digit up to the highest one
      in use; returns the new highest one. It never runs past the front. */
  method AddByte(buf: array<u8>, high: int, byte: u8) returns (j: int)
    requires -1 <= high < buf.Length && Normal(58, buf[..]) && ZerosUpTo(buf[..], high)
    requires 256 * BigEndian(58, buf[..]) + byte < Pow(58, buf.Length)
    modifies buf
    ensures -1 <= j < buf.Length && Normal(58, buf[..]) && ZerosUpTo(buf[..], j)
    ensures BigEndian(58, buf[..]) == 256 * BigEndian(58, old(buf[..])) + byte
  {
    hide BigEndian, Pow, MulAdd;
    ghost var was: seq<nat> := buf[..];
    var carry: int := byte;
    j := buf.Length - 1;
    NoDigitsLeft(was, byte);
    while j > high || carry != 0
      invariant -1 <= j < buf.Length && 0 <= carry < 256
      invariant Normal(58, buf[..]) && forall k :: 0 <= k <= j ==> buf[k] == was[k]
      invariant Accounts(58, buf[..], j + 1, carry, 256 * BigEndian(58, was[j + 1..]) + byte)
      decreases j
    {
      if j < 0 {
        NeverPastTheFront(was, buf[..], carry, byte);
      }
      ghost var now: seq<nat> := buf[..];
      ghost var before := carry;
      var digit: int := buf[j];
      carry := carry + 256 * digit;
      buf[j] := carry % 58;
      ghost var next: seq<nat> := buf[..];
      carry := carry / 58;
      NextAccounts(58, was, now, next, j, 256, byte, before);
      j := j - 1;
    }
    AllAccounted(was, buf[..], j, byte);
  }

  lemma NoDigitsLeft(was: seq<nat>, byte: u8)
    ensures Accounts(58, was, |was|, byte, 256 * BigEndian(58, was[|was|..]) + byte)
  {}

  lemma NeverPastTheFront(was: seq<nat>, now: seq<nat>, carry: nat, byte: u8)
    requires |now| == |was| && Accounts(58, now, 0, carry, 256 * BigEndian(58, was[0..]) + byte)
    requires 256 * BigEndian(58, was) + byte < Pow(58, |was|)
    ensures carry == 0
  {
    assert was[0..] == was;
    if carry > 0 { MulMono(Pow(58, |was|), Pow(58, |was|), 1, carry); }
  }

  lemma AllAccounted(was: seq<nat>, now: seq<nat>, j: int, byte: u8)
    requires -1 <= j < |was| == |now| && ZerosUpTo(was, j) && ZerosUpTo(now, j)
    requires Accounts(58, now, j + 1, 0, 256 * BigEndian(58, was[j + 1..]) + byte)
    ensures BigEndian(58, now) == 256 * BigEndian(58, was) + byte
  {
    DropZeros(58, was, j + 1);
    DropZeros(58, now, j + 1);
  }

  /** The outer loop: all bytes from the first nonzero one on. */
  method ToBase58(bin: seq<u8>, zcount: nat) returns (buf: array<u8>)
    requires zcount <= |bin| && forall i :: 0 <= i < zcount ==> bin[i] == 0
    ensures fresh(buf) && Normal(58, buf[..]) && BigEndian(58, buf[..]) == Number(bin)
  {
    hide BigEndian, Pow, Normal;
    var size := BufferSize(|bin| - zcount);
    buf := new u8[size](_ => 0);
    var i, high := zcount, size - 1;
    EmptyBuffer(bin[zcount..], buf[..]);
    assert bin[zcount..i] == bin[zcount..][0..0];
    while i < |bin|
      invariant zcount <= i <= |bin| && -1 <= high < buf.Length == size
      invariant Normal(58, buf[..]) && ZerosUpTo(buf[..], high)
      invariant BigEndian(58, buf[..]) == Number(bin[zcount..i])
      invariant fresh(buf)
    {
      NextByte(bin, zcount, i);
      high := AddByte(buf, high, bin[i]);
      i := i + 1;
    }
    assert bin[zcount..|bin|] == bin[zcount..];
    DropZeros(256, bin, zcount);
  }

  lemma EmptyBuffer(rest: seq<u8>, buf: seq<nat>)
    requires forall k :: 0 <= k < |buf| ==> buf[k] == 0
    ensures Normal(58, buf) && BigEndian(58, buf) == 0 && Number(rest[0..0]) == 0
  {
    ZeroValue(58, buf);
  }

  lemma NextByte(bin: seq<u8>, zcount: nat, i: nat)
    requires zcount <= i < |bin|
    ensures Number(bin[zcount..i + 1]) == 256 * Number(bin[zcount..i]) + bin[i]
    ensures Number(bin[zcount..i + 1]) < Pow(58, BufferSize(|bin| - zcount))
  {
    var s := bin[zcount..i + 1];
    assert s[..|s| - 1] == bin[zcount..i];
    BytesOfNumber(s);
    BufferSuffices(|bin| - zcount);
    if |s| < |bin| - zcount { PowStrict(256, |s|, |bin| - zcount); }
  }

  /** b58enc: writes the text and a final NUL if both fit, else reports the room they need. */
  method Encode(b58: array<u8>, b58sz: nat, bin: seq<u8>) returns (ok: bool, newsz: nat)
    requires b58sz <= b58.Length
    modifies b58
    ensures ValidAlphabet(BITCOIN)
    ensures newsz == |Encoded(BITCOIN, bin)| + 1 && (ok <==> newsz <= b58sz)
    ensures ok ==> b58[..newsz] == Encoded(BITCOIN, bin) + [0] && b58[newsz..] == old(b58[newsz..])
    ensures !ok ==> b58[..] == old(b58[..])
  {
    BitcoinValid();
    hide BigEndian, Minimal, ValidAlphabet;
    var zcount := 0;
    while zcount < |bin| && bin[zcount] == 0
      invariant zcount <= |bin| && forall i :: 0 <= i < zcount ==> bin[i] == 0
    {
      zcount := zcount + 1;
    }
    var buf := ToBase58(bin, zcount);
    var size, j := buf.Length, 0;
    while j < size && buf[j] == 0
      invariant j <= size && forall i :: 0 <= i < j ==> buf[i] == 0
    {
      j := j + 1;
    }
    EncodedIs(bin, zcount, buf[..], j);
    newsz := zcount + size - j + 1;
    if b58sz <= zcount + size - j { return false, newsz; }
    WriteText(b58, zcount, buf, j);
    return true, newsz;
  }

  /** The digits without leading zeros, after a zero for each leading zero byte. */
  lemma EncodedIs(bin: seq<u8>, zcount: nat, buf: seq<nat>, j: nat)
    requires zcount <= |bin| && (forall i :: 0 <= i < zcount ==> bin[i] == 0) && (zcount < |bin| ==> bin[zcount] != 0)
    requires j <= |buf| && (forall i :: 0 <= i < j ==> buf[i] == 0) && (j < |buf| ==> buf[j] != 0)
    requires Normal(58, buf) && BigEndian(58, buf) == Number(bin)
    ensures ToDigits(bin) == LeadingPart(zcount) + buf[j..]
  {
    LeadingZerosAre(bin, zcount);
    DropZeros(58, buf, j);
    MinimalUnique(58, buf[j..]);
  }

  /** The last part of b58enc. */
  method WriteText(b58: array<u8>, zcount: nat, buf: array<u8>, from: nat)
    requires buf != b58 && from <= buf.Length && zcount + buf.Length - from < b58.Length
    requires ValidAlphabet(BITCOIN) && Normal(58, buf[..])
    modifies b58
    ensures var n := zcount + buf.Length - from;
      && Normal(58, LeadingPart(zcount) + buf[from..])
      && b58[..n + 1] == Spell(BITCOIN, LeadingPart(zcount) + buf[from..]) + [0]
      && b58[n + 1..] == old(b58[n + 1..])
  {
    ghost var digits := LeadingPart(zcount) + buf[from..];
    var i, j := 0, from;
    while i < zcount
      invariant 0 <= i <= zcount
      invariant forall k :: 0 <= k < i ==> b58[k] == BITCOIN[digits[k]]
      invariant forall k :: zcount <= k < b58.Length ==> b58[k] == old(b58[k])
    {
      b58[i] := '1' as int;
      i := i + 1;
    }
    while j < buf.Length
      invariant from <= j <= buf.Length && i == zcount + j - from
      invariant forall k :: 0 <= k < i ==> b58[k] == BITCOIN[digits[k]]
      invariant forall k :: i <= k < b58.Length ==> b58[k] == old(b58[k])
    {
      b58[i] := BITCOIN[buf[j]];
      i := i + 1;
      j := j + 1;
    }
    b58[i] := 0;
  }
}
