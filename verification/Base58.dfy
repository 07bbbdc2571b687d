/** Base58 text: the Swift conversions on big integers, and the alphabet with the C lookup table. */
module Base58 {
  import opened Arith
  import opened Digits
  import opened Radix
  import opened Options

  /** Character d of 123456789ABCDEFGHJKLMNPQRSTUVWXYZabcdefghijkmnopqrstuvwxyz: the digits and letters
      without 0, I, O and l. */
  function Character(d: nat): (c: u8)
    requires d < 58
  {
    if d < 9 then '1' as int + d
    else if d < 17 then 'A' as int + d - 9
    else if d < 22 then 'J' as int + d - 17
    else if d < 33 then 'P' as int + d - 22
    else if d < 44 then 'a' as int + d - 33
    else 'm' as int + d - 44
  }

  function Characters(): (a: seq<u8>)
    ensures |a| == 58 && forall d :: 0 <= d < 58 ==> a[d] == Character(d)
  {
    seq(58, d requires 0 <= d < 58 => Character(d))
  }

  const BITCOIN: seq<u8> := Characters()

  /** Entry c of b58digits_map. */
  function DigitOf(c: nat): int
    requires c < 128
  {
    if '1' as int <= c <= '9' as int then c - '1' as int
    else if 'A' as int <= c <= 'H' as int then 9 + c - 'A' as int
    else if 'J' as int <= c <= 'N' as int then 17 + c - 'J' as int
    else if 'P' as int <= c <= 'Z' as int then 22 + c - 'P' as int
    else if 'a' as int <= c <= 'k' as int then 33 + c - 'a' as int
    else if 'm' as int <= c <= 'z' as int then 44 + c - 'm' as int
    else -1
  }

  /** Base58String.isValidAlphabet */
  predicate ValidAlphabet(a: seq<u8>)
  {
    |a| == 58 && (forall i, j :: 0 <= i < j < 58 ==> a[i] != a[j]) && forall i :: 0 <= i < 58 ==> a[i] < 0x80
  }

  lemma ValidAlphabetExactly(a: seq<u8>)
    ensures ValidAlphabet(a) <==> |a| == 58 && forall i :: 0 <= i < 58 ==> a[i] < 0x80 && a[i] !in a[..i]
  {
    if |a| == 58 && forall i :: 0 <= i < 58 ==> a[i] < 0x80 && a[i] !in a[..i] {
      forall i, j | 0 <= i < j < 58 ensures a[i] != a[j] { assert a[..j][i] == a[i]; }
    }
  }

  /** Array.firstIndex(of:) */
  function FirstIndex(a: seq<u8>, c: u8): (r: Option<nat>)
    ensures r.Some? <==> c in a
    ensures r.Some? ==> r.value < |a| && a[r.value] == c && forall j :: 0 <= j < r.value ==> a[j] != c
  {
    if |a| == 0 then None
    else if a[0] == c then Some(0)
    else
      var r := FirstIndex(a[1..], c);
      if r.Some? then Some(r.value + 1) else None
  }

  lemma IndexOf(a: seq<u8>, i: nat)
    requires ValidAlphabet(a) && i < 58
    ensures FirstIndex(a, a[i]) == Some(i)
  {}

  /** The lookup table inverts the alphabet. */
  lemma MapOfAlphabet(d: nat)
    requires d < 58
    ensures BITCOIN[d] < 0x80 && DigitOf(BITCOIN[d]) == d
  {}

  lemma AlphabetOfMap(c: nat)
    requires c < 128 && DigitOf(c) != -1
    ensures 0 <= DigitOf(c) < 58 && BITCOIN[DigitOf(c)] == c
  {}

  lemma BitcoinValid()
    ensures ValidAlphabet(BITCOIN)
  {
    forall i, j | 0 <= i < j < 58 ensures BITCOIN[i] != BITCOIN[j] {
      MapOfAlphabet(i);
      MapOfAlphabet(j);
    }
    forall i | 0 <= i < 58 ensures BITCOIN[i] < 0x80 { MapOfAlphabet(i); }
  }

  /** The alphabet is all digits and letters but 0, I, O and l, in the order of their codes. */
  lemma AlphabetExact(c: char)
    ensures forall i, j :: 0 <= i < j < |BITCOIN| ==> BITCOIN[i] < BITCOIN[j]
    ensures c as int in BITCOIN <==>
      ('0' <= c <= '9' || 'A' <= c <= 'Z' || 'a' <= c <= 'z') && c != '0' && c != 'I' && c != 'O' && c != 'l'
  {
    if c as int < 128 && DigitOf(c as int) != -1 { AlphabetOfMap(c as int); }
  }

  /** The table holds the digit of every byte of the alphabet, and -1 for every other. */
  lemma MapIsIndex(c: u8)
    requires c < 128
    ensures ValidAlphabet(BITCOIN)
    ensures DigitOf(c) == var i := FirstIndex(BITCOIN, c); if i.Some? then i.value else -1
  {
    BitcoinValid();
    if DigitOf(c) != -1 {
      AlphabetOfMap(c);
      IndexOf(BITCOIN, DigitOf(c));
    } else if c in BITCOIN {
      var d :| 0 <= d < 58 && BITCOIN[d] == c;
      MapOfAlphabet(d);
    }
  }

  // ---- digits and text ----

  function Spell(a: seq<u8>, digits: seq<nat>): (r: seq<u8>)
    requires ValidAlphabet(a) && Normal(58, digits)
    ensures |r| == |digits| && forall i :: 0 <= i < |r| ==> r[i] == a[digits[i]]
  {
    seq(|digits|, i requires 0 <= i < |digits| => a[digits[i]])
  }

  predicate InAlphabet(a: seq<u8>, text: seq<u8>)
  {
    forall i :: 0 <= i < |text| ==> text[i] in a
  }

  function TextDigits(a: seq<u8>, text: seq<u8>): (r: seq<nat>)
    requires ValidAlphabet(a) && InAlphabet(a, text)
    ensures |r| == |text| && Normal(58, r) && forall i :: 0 <= i < |r| ==> r[i] == FirstIndex(a, text[i]).value
  {
    seq(|text|, i requires 0 <= i < |text| => FirstIndex(a, text[i]).value)
  }

  lemma TextInverse(a: seq<u8>, digits: seq<nat>)
    requires ValidAlphabet(a) && Normal(58, digits)
    ensures InAlphabet(a, Spell(a, digits)) && TextDigits(a, Spell(a, digits)) == digits
  {
    var t := Spell(a, digits);
    forall i | 0 <= i < |t| ensures t[i] in a && FirstIndex(a, t[i]) == Some(digits[i]) { IndexOf(a, digits[i]); }
  }

  lemma DigitsInverse(a: seq<u8>, text: seq<u8>)
    requires ValidAlphabet(a) && InAlphabet(a, text)
    ensures Spell(a, TextDigits(a, text)) == text
  {}

  // ---- what the conversions mean ----

  /** The base 58 digits of a byte string: a zero for every leading zero byte, then the number. */
  function ToDigits(bytes: seq<u8>): (r: seq<nat>)
    ensures Normal(58, r)
  {
    ConvertBack(256, 58, bytes);
    Convert(256, 58, bytes)
  }

  /** The byte string of base 58 digits. */
  function FromDigits(digits: seq<nat>): (r: seq<nat>)
    requires Normal(58, digits)
    ensures Normal(256, r)
  {
    ConvertBack(58, 256, digits);
    Convert(58, 256, digits)
  }

  /** A byte is below 256. */
  function AsBytes(digits: seq<nat>): (r: seq<u8>)
    requires Normal(256, digits)
    ensures |r| == |digits| && forall i :: 0 <= i < |r| ==> r[i] == digits[i]
  {
    seq(|digits|, i requires 0 <= i < |digits| => digits[i])
  }

  function Encoded(a: seq<u8>, bytes: seq<u8>): seq<u8>
    requires ValidAlphabet(a)
  {
    Spell(a, ToDigits(bytes))
  }

  function Decoded(a: seq<u8>, text: seq<u8>): Option<seq<u8>>
    requires ValidAlphabet(a)
  {
    if InAlphabet(a, text) then Some(AsBytes(FromDigits(TextDigits(a, text)))) else None
  }

  /** The text of some bytes is the only one that stands for the same number with a digit zero for every leading zero
      byte. */
  lemma EncodedExact(a: seq<u8>, bytes: seq<u8>, text: seq<u8>)
    requires ValidAlphabet(a) && InAlphabet(a, text)
    ensures text == Encoded(a, bytes) <==>
      && BigEndian(58, TextDigits(a, text)) == BigEndian(256, bytes)
      && LeadingZeros(TextDigits(a, text)) == LeadingZeros(bytes)
  {
    hide BigEndian, LeadingZeros;
    ConvertBack(256, 58, bytes);
    ConvertExact(256, 58, bytes, TextDigits(a, text));
    DigitsInverse(a, text);
    TextInverse(a, ToDigits(bytes));
  }

  /** Decoding undoes encoding. */
  lemma DecodeOfEncode(a: seq<u8>, bytes: seq<u8>)
    requires ValidAlphabet(a)
    ensures Decoded(a, Encoded(a, bytes)) == Some(bytes)
  {
    ConvertBack(256, 58, bytes);
    TextInverse(a, ToDigits(bytes));
    assert AsBytes(bytes) == bytes;
  }

  /** And encoding undoes decoding: every text in the alphabet encodes exactly one byte string. */
  lemma EncodeOfDecode(a: seq<u8>, text: seq<u8>)
    requires ValidAlphabet(a) && InAlphabet(a, text)
    ensures Encoded(a, Decoded(a, text).value) == text
  {
    var digits := TextDigits(a, text);
    ConvertBack(58, 256, digits);
    DigitsInverse(a, text);
    AsBytesConvert(FromDigits(digits));
  }

  lemma AsBytesConvert(digits: seq<nat>)
    requires Normal(256, digits)
    ensures Convert(256, 58, AsBytes(digits)) == Convert(256, 58, digits)
  {
    var b: seq<nat> := AsBytes(digits);
    assert b == digits;
  }
}
