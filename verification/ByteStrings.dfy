/** Numbers as big-endian byte strings, and UTF-8. */
module ByteStrings {
  import opened Arith
  import opened Digits

  /** The number a big-endian byte string stands for. */
  function Number(s: seq<u8>): nat
  {
    BigEndian(256, s)
  }

  /** The k low bytes of n, most significant first. */
  function ToBytes(n: nat, k: nat): (r: seq<u8>)
    ensures |r| == k
  {
    if k == 0 then [] else ToBytes(n / 256, k - 1) + [n % 256]
  }

  /** BigUInt.serialize: the fewest big-endian bytes, none for zero. */
  function Serialize(n: nat): seq<u8>
  {
    if n == 0 then [] else Serialize(n / 256) + [n % 256]
  }

  function Zeros(k: nat): (r: seq<u8>)
    ensures |r| == k && forall i :: 0 <= i < k ==> r[i] == 0
  {
    seq(k, _ => 0)
  }

  predicate AllZero(s: seq<u8>)
  {
    forall i :: 0 <= i < |s| ==> s[i] == 0
  }

  lemma {:induction false} NumberOfBytes(n: nat, k: nat)
    requires n < Pow(256, k)
    ensures Number(ToBytes(n, k)) == n
  {
    if k > 0 {
      NumberOfBytes(n / 256, k - 1);
      var r := ToBytes(n, k);
      assert r[..|r| - 1] == ToBytes(n / 256, k - 1);
    }
  }

  /** Only the lowest k bytes of a number are kept. */
  lemma {:induction false} LowestBytes(n: nat, k: nat)
    ensures Number(ToBytes(n, k)) == n % Pow(256, k)
  {
    if k > 0 {
      LowestBytes(n / 256, k - 1);
      assert ToBytes(n, k)[..k - 1] == ToBytes(n / 256, k - 1);
      var m := Pow(256, k - 1);
      DivMod(n / 256, m);
      assert Pow(256, k) == 256 * m;
      assert n == (n / 256 / m) * (256 * m) + (256 * (n / 256 % m) + n % 256);
      DivModUnique(n, 256 * m, n / 256 / m, 256 * (n / 256 % m) + n % 256);
    }
  }

  lemma {:induction false} BytesOfNumber(s: seq<u8>)
    ensures ToBytes(Number(s), |s|) == s && Number(s) < Pow(256, |s|)
  {
    if |s| > 0 {
      var m := |s| - 1;
      BytesOfNumber(s[..m]);
      assert Number(s) == Number(s[..m]) * 256 + s[m];
      assert s == s[..m] + [s[m]];
    }
  }

  lemma {:induction false} ZeroBytes(k: nat)
    ensures ToBytes(0, k) == Zeros(k)
  {
    if k > 0 { ZeroBytes(k - 1); }
  }

  lemma LowByte(high: nat, low: nat)
    ensures (high * 0x100 + low) % 0x100 == low % 0x100 && (high * 0x100 + low) / 0x100 == high + low / 0x100
  {}

  /** The last byte of a number given in two parts. */
  lemma LastByte(high: nat, low: nat, k: nat)
    ensures ToBytes(high * 0x100 + low, k + 1) == ToBytes(high + low / 0x100, k) + [low % 0x100]
  {
    LowByte(high, low);
  }

  /** A number fits k bytes exactly when its serialization does, which then only lacks zeros in front. */
  lemma {:induction false} PaddedSerialization(n: nat, k: nat)
    ensures n < Pow(256, k) <==> |Serialize(n)| <= k
    ensures n < Pow(256, k) ==> Zeros(k - |Serialize(n)|) + Serialize(n) == ToBytes(n, k)
  {
    if n == 0 {
      ZeroBytes(k);
      assert Zeros(k) + [] == Zeros(k);
    } else if k > 0 {
      PaddedSerialization(n / 256, k - 1);
      if n < Pow(256, k) {
        var z, s := Zeros(k - |Serialize(n)|), Serialize(n / 256);
        assert z + (s + [n % 256]) == (z + s) + [n % 256];
      }
    }
  }

  /** Serializations start with a nonzero byte and invert Number on such byte strings. */
  lemma {:induction false} SerializeNumber(s: seq<u8>)
    requires |s| > 0 ==> s[0] != 0
    ensures Serialize(Number(s)) == s && (|s| > 0 ==> Number(s) > 0)
  {
    if |s| > 0 {
      var m := |s| - 1;
      SerializeNumber(s[..m]);
      assert Number(s) == Number(s[..m]) * 256 + s[m];
      LowByte(Number(s[..m]), s[m]);
      assert s == s[..m] + [s[m]];
    }
  }

  lemma {:induction false} SerializeLeads(n: nat)
    ensures Number(Serialize(n)) == n
    ensures n > 0 ==> |Serialize(n)| > 0 && Serialize(n)[0] != 0
  {
    if n > 0 {
      SerializeLeads(n / 256);
      var s := Serialize(n);
      assert s[..|s| - 1] == Serialize(n / 256);
    }
  }

  lemma {:induction false} NumberConcat(s: seq<u8>, t: seq<u8>)
    ensures Number(s + t) == Number(s) * Pow(256, |t|) + Number(t)
  {
    if |t| == 0 {
      assert s + t == s;
    } else {
      var m := |t| - 1;
      NumberConcat(s, t[..m]);
      assert (s + t)[..|s + t| - 1] == s + t[..m];
      assert Number(s) * Pow(256, |t|) == 256 * (Number(s) * Pow(256, m));
    }
  }

  predicate Continuation(b: u8) { 0x80 <= b <= 0xBF }

  /** Well-formed UTF-8, Table 3-7 of the Unicode Standard. */
  predicate ValidUtf8(s: seq<u8>)
  {
    if |s| == 0 then true
    else if s[0] < 0x80 then ValidUtf8(s[1..])
    else if 0xC2 <= s[0] <= 0xDF then |s| >= 2 && Continuation(s[1]) && ValidUtf8(s[2..])
    else if 0xE0 <= s[0] <= 0xEF then
      && |s| >= 3 && Continuation(s[1]) && Continuation(s[2])
      && (s[0] == 0xE0 ==> s[1] >= 0xA0) && (s[0] == 0xED ==> s[1] <= 0x9F) && ValidUtf8(s[3..])
    else
      && 0xF0 <= s[0] <= 0xF4 && |s| >= 4 && Continuation(s[1]) && Continuation(s[2]) && Continuation(s[3])
      && (s[0] == 0xF0 ==> s[1] >= 0x90) && (s[0] == 0xF4 ==> s[1] <= 0x8F) && ValidUtf8(s[4..])
  }
}
