/** Two's complement numbers as big-endian bytes: NativeTypesEncoding+Extensions.swift. */
module TwosComplement {
  import opened Arith
  import opened Digits
  import opened ByteStrings
  import opened AbiTypes
  import opened Options
  import opened AbiSpec
  import opened AbiRoundTrip

  /** Data.setLengthLeft, for a length of at most Int.max */
  method SetLengthLeft(bytes: seq<u8>, length: nat) returns (r: Option<seq<u8>>)
    ensures r == if |bytes| <= length <= INT_MAX then Some(Zeros(length - |bytes|) + bytes) else None
  {
    if !(length <= INT_MAX && length >= |bytes|) { return None; }
    if |bytes| == length {
      assert Zeros(0) + bytes == bytes;
      return Some(bytes);
    }
    return Some(Zeros(length - |bytes|) + bytes);
  }

  /** BigInt.abiEncode(bits:): the number in two's complement at exactly that width, if it fits. */
  method AbiEncode(i: int, bits: nat) returns (r: Option<seq<u8>>)
    ensures r.Some? <==> bits in WIDTHS && FitsSigned(i, bits)
    ensures r.Some? ==> r.value == ToBytes(if i < 0 then Pow(2, bits) + i else i, bits / 8)
  {
    WidthsExact(bits);
    if !(bits <= 256) { return None; }
    if !(8 <= bits <= 256 && bits % 8 == 0) { return None; }
    var limit := Pow(2, bits - 1);
    if !(if i < 0 then -i <= limit else i < limit) { return None; }
    assert Pow(2, bits) == 2 * limit;
    var encoded: nat := if i < 0 then Pow(2, bits) - (-i) else i;
    WidthInBytes(bits / 8);
    PaddedSerialization(encoded, bits / 8);
    var bytes := Serialize(encoded);
    r := SetLengthLeft(bytes, bits / 8);
  }

  lemma {:induction false} WidthInBytes(k: nat)
    ensures Pow(2, 8 * k) == Pow(256, k)
  {
    if k > 0 {
      WidthInBytes(k - 1);
      PowAdd(2, 8, 8 * (k - 1));
      assert Pow(2, 8) == 256 by { assert Pow(2, 4) == 16; PowAdd(2, 4, 4); }
      assert 8 + 8 * (k - 1) == 8 * k;
    }
  }

  /** BigInt.fromTwosComplement */
  function FromTwosComplement(data: seq<u8>): int
  {
    if |data| == 0 then 0
    else if data[0] < 0x80 then Number(data)
    else -(Pow(2, |data| * 8) - Number(data))
  }

  /** BigInt.toTwosComplement */
  function ToTwosComplement(i: int): seq<u8>
  {
    var magnitude: nat := if i < 0 then -i else i;
    var serialized := Serialize(magnitude);
    if |serialized| == 0 then serialized
    else if i > 0 then (if serialized[0] < 0x80 then serialized else [0] + serialized)
    else
      var bits := |serialized| * 8;
      PaddedSerialization(magnitude, |serialized|);
      WidthInBytes(|serialized|);
      PowAdd(2, bits, 8);
      var width := if magnitude > Pow(2, bits - 1) then bits + 8 else bits;
      assert Pow(2, width) >= magnitude by { if width > bits { PowStrict(2, bits, width); } }
      Serialize(Pow(2, width) - magnitude)
  }

  // ---- inverses ----

  /** The top bit of a byte string, and the values it leaves room for. */
  lemma TopBit(s: seq<u8>)
    requires |s| > 0
    ensures Number(s) < Pow(256, |s|) && Pow(256, |s|) == 2 * Pow(2, 8 * |s| - 1)
    ensures s[0] < 0x80 <==> Number(s) < Pow(2, 8 * |s| - 1)
    ensures Number(s) == s[0] * Pow(256, |s| - 1) + Number(s[1..])
  {
    BytesOfNumber(s);
    BytesOfNumber(s[1..]);
    assert s == s[..1] + s[1..];
    NumberConcat(s[..1], s[1..]);
    NumberOfOne(s[..1]);
    WidthInBytes(|s|);
    WidthInBytes(|s| - 1);
    PowAdd(2, 8 * (|s| - 1), 7);
    assert Pow(2, 7) == 128 by { assert Pow(2, 4) == 16; assert Pow(2, 3) == 8; PowAdd(2, 4, 3); }
    Half(s[0], Number(s[1..]), Pow(256, |s| - 1));
  }

  lemma Half(top: u8, rest: nat, p: nat)
    requires rest < p
    ensures top < 0x80 <==> top * p + rest < p * 128
  {
    if top < 0x80 { MulMono(top + 1, 128, p, p); } else { MulMono(128, top, p, p); }
  }

  /** Every byte string stands for a number that fits its width, and only one of that width does. */
  lemma FromFits(s: seq<u8>)
    requires |s| > 0
    ensures FitsSigned(FromTwosComplement(s), 8 * |s|)
    ensures Number(s) == if FromTwosComplement(s) < 0 then Pow(2, 8 * |s|) + FromTwosComplement(s)
      else FromTwosComplement(s)
  {
    TopBit(s);
    WidthInBytes(|s|);
  }

  /** abiEncode is undone by fromTwosComplement, at every width. */
  lemma AbiEncodeInverse(i: int, k: nat)
    requires k > 0 && FitsSigned(i, 8 * k)
    ensures FromTwosComplement(ToBytes(if i < 0 then Pow(2, 8 * k) + i else i, k)) == i
  {
    WidthInBytes(k);
    assert Pow(2, 8 * k) == 2 * Pow(2, 8 * k - 1);
    var n: nat := if i < 0 then Pow(2, 8 * k) + i else i;
    NumberOfBytes(n, k);
    TopBit(ToBytes(n, k));
  }

  /** A number fits a width exactly if that many bytes can stand for it, in two's complement or without a sign. */
  lemma FitsExactly(i: int, k: nat)
    requires k > 0
    ensures FitsSigned(i, 8 * k) <==> exists s :: |s| == k && FromTwosComplement(s) == i
    ensures FitsUnsigned(i, 8 * k) <==> exists s :: |s| == k && Number(s) == i
  {
    WidthInBytes(k);
    if FitsSigned(i, 8 * k) {
      AbiEncodeInverse(i, k);
    } else if s :| |s| == k && FromTwosComplement(s) == i {
      FromFits(s);
    }
    if FitsUnsigned(i, 8 * k) {
      NumberOfBytes(i, k);
    } else if s :| |s| == k && Number(s) == i {
      BytesOfNumber(s);
    }
  }

  /** The number of bytes of a number: exactly enough. */
  lemma SerializedWidth(n: nat)
    requires n > 0
    ensures var k := |Serialize(n)|; k > 0 && Pow(256, k - 1) <= n < Pow(256, k)
  {
    SerializeLeads(n);
    PaddedSerialization(n, |Serialize(n)|);
    PaddedSerialization(n, |Serialize(n)| - 1);
  }

  lemma SerializeIsBytes(n: nat, k: nat)
    requires |Serialize(n)| == k
    ensures Serialize(n) == ToBytes(n, k)
  {
    PaddedSerialization(n, k);
    assert Zeros(0) + Serialize(n) == Serialize(n);
  }

  lemma WidthOf(n: nat, k: nat)
    requires k > 0 && Pow(256, k - 1) <= n < Pow(256, k)
    ensures |Serialize(n)| == k && Serialize(n) == ToBytes(n, k)
  {
    PaddedSerialization(n, k);
    PaddedSerialization(n, k - 1);
    SerializeIsBytes(n, k);
  }

  lemma FitsMono(i: int, a: nat, b: nat)
    requires FitsSigned(i, a) && a <= b
    ensures FitsSigned(i, b)
  {
    if a < b { PowStrict(2, a - 1, b - 1); }
  }

  /** 2^(8k) in its halves and in bytes. */
  lemma BytePowers(k: nat)
    requires k > 0
    ensures Pow(256, k) == 256 * Pow(256, k - 1) && Pow(256, k) == 2 * Pow(2, 8 * k - 1) && Pow(256, k) == Pow(2, 8 * k)
  {
    WidthInBytes(k);
  }

  /** k is the least number of bytes that i can be written with in two's complement. */
  ghost predicate Least(i: int, k: nat)
  {
    k > 0 && FitsSigned(i, 8 * k) && (k > 1 ==> !FitsSigned(i, 8 * (k - 1)))
  }

  lemma PositiveForm(i: int)
    requires i > 0
    ensures var s := ToTwosComplement(i); Least(i, |s|) && s == ToBytes(i, |s|)
  {
    hide Serialize, Number, Pow;
    var s := Serialize(i);
    var b := |s|;
    SerializedWidth(i);
    SerializeLeads(i);
    SerializeIsBytes(i, b);
    TopBit(s);
    BytePowers(b);
    BytePowers(b + 1);
    if b > 1 { BytePowers(b - 1); }
    if s[0] >= 0x80 {
      PaddedSerialization(i, b + 1);
      assert Zeros(1) == [0];
    }
  }

  lemma NegativeForm(i: int)
    requires i < 0
    ensures var s := ToTwosComplement(i); Least(i, |s|) && s == ToBytes(Pow(2, 8 * |s|) + i, |s|)
  {
    hide Serialize, ToBytes, Pow;
    var m: nat := -i;
    var b := |Serialize(m)|;
    SerializedWidth(m);
    BytePowers(b);
    BytePowers(b + 1);
    if b > 1 { BytePowers(b - 1); }
    if m > Pow(2, 8 * b - 1) {
      assert b * 8 + 8 == 8 * (b + 1);
      WidthOf(Pow(2, 8 * (b + 1)) - m, b + 1);
    } else {
      WidthOf(Pow(2, 8 * b) - m, b);
    }
  }

  /** toTwosComplement is undone by fromTwosComplement and uses the fewest bytes: any byte string for the
      same nonzero number is at least as long, and only it is that short. */
  lemma ToTwosComplementMinimal(i: int, s: seq<u8>)
    requires FromTwosComplement(s) == i
    ensures FromTwosComplement(ToTwosComplement(i)) == i
    ensures |s| >= |ToTwosComplement(i)| && (|s| == |ToTwosComplement(i)| ==> s == ToTwosComplement(i))
  {
    hide BigEndian, FitsSigned, Pow, ToBytes;
    if i == 0 {
      assert ToTwosComplement(i) == [];
    } else {
      var t := ToTwosComplement(i);
      if i > 0 { PositiveForm(i); } else { NegativeForm(i); }
      AbiEncodeInverse(i, |t|);
      FromFits(s);
      BytesOfNumber(s);
      if |s| < |t| { FitsMono(i, 8 * |s|, 8 * (|t| - 1)); }
    }
  }
}
