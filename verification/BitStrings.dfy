/** Byte strings as bits, most significant first, and numbers read from and written to them. */
module BitStrings {
  import opened Arith
  import opened Digits

  /** Bit k of a byte string: s[k / 8] & (1 << (7 - k % 8)). */
  predicate BitAt(s: seq<u8>, k: nat)
    requires k < 8 * |s|
  {
    BitSet(s[k / 8], 7 - k % 8)
  }

  /** Bits from start on, read as a number one at a time. */
  function ReadBits(s: seq<u8>, start: nat, n: nat): (r: nat)
    requires start + n <= 8 * |s|
    ensures r < Pow(2, n)
  {
    if n == 0 then 0 else 2 * ReadBits(s, start, n - 1) + if BitAt(s, start + n - 1) then 1 else 0
  }

  /** Bit t of an n-bit number, most significant first, stands at a place. */
  predicate BitInPlace(s: seq<u8>, start: nat, n: nat, x: nat, t: nat)
    requires start + n <= 8 * |s| && t < n
  {
    BitAt(s, start + t) <==> BitSet(x, n - 1 - t)
  }

  /** A number below 2^n in its n bits. */
  lemma {:induction false} ReadOfBits(s: seq<u8>, start: nat, n: nat, x: nat)
    requires start + n <= 8 * |s| && x < Pow(2, n)
    requires forall t :: 0 <= t < n ==> BitInPlace(s, start, n, x, t)
    ensures ReadBits(s, start, n) == x
  {
    if n > 0 {
      assert Pow(2, n) == 2 * Pow(2, n - 1);
      var m := n - 1;
      forall t | 0 <= t < m ensures BitInPlace(s, start, m, x / 2, t) {
        hide BitAt;
        assert BitInPlace(s, start, n, x, t);
        assert ShiftRight(x, n - 1 - t) == ShiftRight(x / 2, m - 1 - t);
      }
      ReadOfBits(s, start, m, x / 2);
      assert BitInPlace(s, start, n, x, m);
    }
  }

  /** The bits of a number that was read. */
  lemma {:induction false} BitsOfRead(s: seq<u8>, start: nat, n: nat, t: nat)
    requires start + n <= 8 * |s| && t < n
    ensures BitSet(ReadBits(s, start, n), n - 1 - t) <==> BitAt(s, start + t)
  {
    var x := ReadBits(s, start, n);
    if t < n - 1 {
      BitsOfRead(s, start, n - 1, t);
      assert x / 2 == ReadBits(s, start, n - 1);
    }
  }

  // ---- bits as numbers ----

  function Bit(s: seq<u8>, k: nat): nat
    requires k < 8 * |s|
  {
    if BitAt(s, k) then 1 else 0
  }

  lemma ReadNext(s: seq<u8>, start: nat, n: nat)
    requires start + n < 8 * |s|
    ensures ReadBits(s, start, n + 1) == 2 * ReadBits(s, start, n) + Bit(s, start + n)
    ensures Pow(2, n + 1) == 2 * Pow(2, n)
  {
    hide BitAt;
  }

  lemma NoBits(s: seq<u8>)
    ensures forall start :: 0 <= start <= 8 * |s| ==> ReadBits(s, start, 0) == 0
    ensures BigEndian(256, s[..0]) == 0 && Pow(2, 0) == 1
  {}

  /** Bits read in two pieces. */
  lemma {:induction false} ReadOfParts(s: seq<u8>, start: nat, m: nat, n: nat)
    requires start + m + n <= 8 * |s|
    ensures ReadBits(s, start, m + n) == ReadBits(s, start, m) * Pow(2, n) + ReadBits(s, start + m, n)
  {
    hide ReadBits, Bit, Pow, BigEndian;
    if n > 0 {
      ReadOfParts(s, start, m, n - 1);
      ReadNext(s, start, m + n - 1);
      ReadNext(s, start + m, n - 1);
      var x, p := ReadBits(s, start, m), Pow(2, n - 1);
      assert x * (2 * p) == 2 * (x * p);
    } else {
      NoBits(s);
    }
  }

  /** The first of two pieces is what is left of both without the last bits. */
  lemma ReadIsQuotient(s: seq<u8>, m: nat, n: nat)
    requires m + n <= 8 * |s|
    ensures ReadBits(s, 0, m) == ReadBits(s, 0, m + n) / Pow(2, n)
  {
    hide ReadBits, Pow;
    ReadOfParts(s, 0, m, n);
    DivModUnique(ReadBits(s, 0, m + n), Pow(2, n), ReadBits(s, 0, m), ReadBits(s, m, n));
  }

  lemma ReadByte(s: seq<u8>, i: nat)
    requires i < |s|
    ensures ReadBits(s, 8 * i, 8) == s[i]
  {
    EightBits();
    forall t | 0 <= t < 8 ensures BitInPlace(s, 8 * i, 8, s[i], t) {
      assert (8 * i + t) / 8 == i && (8 * i + t) % 8 == t;
    }
    ReadOfBits(s, 8 * i, 8, s[i]);
  }

  /** All bits of some bytes are their number. */
  lemma {:induction false} ReadOfBytes(s: seq<u8>, k: nat)
    requires k <= |s|
    ensures ReadBits(s, 0, 8 * k) == BigEndian(256, s[..k])
  {
    hide ReadBits;
    if k > 0 {
      ReadOfBytes(s, k - 1);
      EightBits();
      ReadOfParts(s, 0, 8 * (k - 1), 8);
      ReadByte(s, k - 1);
      assert s[..k][..k - 1] == s[..k - 1];
    } else {
      NoBits(s);
    }
  }

  // ---- bits of bytes ----

  /** Bytes with the same bits are the same. */
  lemma {:induction false} SameBits(x: nat, y: nat, n: nat)
    requires x < Pow(2, n) && y < Pow(2, n) && forall j :: 0 <= j < n ==> (BitSet(x, j) <==> BitSet(y, j))
    ensures x == y
  {
    if n > 0 {
      assert Pow(2, n) == 2 * Pow(2, n - 1);
      assert BitSet(x, 0) <==> BitSet(y, 0);
      forall j | 0 <= j < n - 1 ensures BitSet(x / 2, j) <==> BitSet(y / 2, j) {
        assert BitSet(x, j + 1) <==> BitSet(y, j + 1);
      }
      SameBits(x / 2, y / 2, n - 1);
    }
  }

  lemma EightBits()
    ensures Pow(2, 8) == 256 && Pow(2, 11) == 2048
  {
    assert Pow(2, 4) == 16;
    PowAdd(2, 4, 4);
    PowAdd(2, 8, 3);
  }

  lemma SameBytes(s: seq<u8>, t: seq<u8>)
    requires |s| == |t| && forall k :: 0 <= k < 8 * |s| ==> (BitAt(s, k) <==> BitAt(t, k))
    ensures s == t
  {
    EightBits();
    forall i | 0 <= i < |s| ensures s[i] == t[i] {
      forall j | 0 <= j < 8 ensures BitSet(s[i], j) <==> BitSet(t[i], j) {
        var k := 8 * i + 7 - j;
        assert k / 8 == i && k % 8 == 7 - j;
        assert BitAt(s, k) <==> BitAt(t, k);
      }
      SameBits(s[i], t[i], 8);
    }
  }

  lemma {:induction false} ZeroBits(j: nat)
    ensures !BitSet(0, j)
  {
    if j > 0 { ZeroBits(j - 1); }
  }

  /** The bits of an or. */
  lemma {:induction false} OrBits(a: nat, b: nat, j: nat)
    ensures BitSet(Or(a, b), j) <==> BitSet(a, j) || BitSet(b, j)
    decreases j
  {
    if a == 0 || b == 0 {
      ZeroBits(j);
    } else if j > 0 {
      OrBits(a / 2, b / 2, j - 1);
    }
  }

  lemma {:induction false} PowerBits(n: nat, j: nat)
    ensures BitSet(Pow(2, n), j) <==> j == n
  {
    if n == 0 {
      if j > 0 { ZeroBits(j - 1); }
    } else {
      assert Pow(2, n) == 2 * Pow(2, n - 1);
      if j > 0 { PowerBits(n - 1, j - 1); }
    }
  }

  lemma {:induction false} OrBound(a: nat, b: nat, n: nat)
    requires a < Pow(2, n) && b < Pow(2, n)
    ensures Or(a, b) < Pow(2, n)
    decreases n
  {
    if a > 0 && b > 0 {
      assert Pow(2, n) == 2 * Pow(2, n - 1);
      OrBound(a / 2, b / 2, n - 1);
    }
  }

  /** Setting a bit of a byte: b | 1 << j. */
  function SetBit(b: u8, j: nat): u8
    requires j < 8
  {
    EightBits();
    PowStrict(2, j, 8);
    OrBound(b, Pow(2, j), 8);
    Or(b, Pow(2, j))
  }

  lemma SetBitSets(b: u8, j: nat, i: nat)
    requires j < 8
    ensures BitSet(SetBit(b, j), i) <==> BitSet(b, i) || i == j
  {
    OrBits(b, Pow(2, j), i);
    PowerBits(j, i);
  }

  /** Equal top bits: what b >> k compares. */
  lemma {:induction false} TopBits(a: u8, b: u8, k: nat)
    requires k <= 8
    ensures ShiftRight(a, k) == ShiftRight(b, k) <==> forall j :: k <= j < 8 ==> (BitSet(a, j) <==> BitSet(b, j))
  {
    EightBits();
    var x, y, n := ShiftRight(a, k), ShiftRight(b, k), 8 - k;
    ShiftedBits(a, k, n);
    ShiftedBits(b, k, n);
    if forall j :: k <= j < 8 ==> (BitSet(a, j) <==> BitSet(b, j)) {
      forall j | 0 <= j < n ensures BitSet(x, j) <==> BitSet(y, j) {
        var i := j + k;
        assert BitSet(a, i) <==> BitSet(b, i);
      }
      SameBits(x, y, n);
    } else {
      var i :| k <= i < 8 && !(BitSet(a, i) <==> BitSet(b, i));
      assert BitSet(x, i - k) <==> BitSet(a, (i - k) + k);
      assert BitSet(y, i - k) <==> BitSet(b, (i - k) + k);
    }
  }

  lemma {:induction false} ShiftedBits(x: nat, k: nat, n: nat)
    requires x < Pow(2, k + n)
    ensures ShiftRight(x, k) < Pow(2, n)
    ensures forall j: nat :: BitSet(ShiftRight(x, k), j) <==> BitSet(x, j + k)
  {
    if k > 0 {
      assert Pow(2, k + n) == 2 * Pow(2, k + n - 1);
      ShiftedBits(x / 2, k - 1, n);
      forall j: nat ensures BitSet(ShiftRight(x, k), j) <==> BitSet(x, j + k) {
        assert BitSet(ShiftRight(x / 2, k - 1), j) <==> BitSet(x / 2, j + (k - 1));
      }
    }
  }
}
