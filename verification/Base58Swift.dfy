/** The big-integer Base58 conversions of Base58String.swift. */
module Base58Swift {
  import opened Arith
  import opened Digits
  import opened ByteStrings
  import opened Radix
  import opened Options
  import opened Base58

  function Reversed(s: seq<u8>): (r: seq<u8>)
    ensures |r| == |s| && forall i :: 0 <= i < |s| ==> r[i] == s[|s| - 1 - i]
  {
    seq(|s|, i requires 0 <= i < |s| => s[|s| - 1 - i])
  }

  function Repeated(c: u8, n: nat): (r: seq<u8>)
    ensures |r| == n && forall i :: 0 <= i < n ==> r[i] == c
  {
    seq(n, _ => c)
  }

  /** Serialize with its bytes seen as digits. */
  lemma {:induction false} SerializeIsMinimal(n: nat)
    ensures Normal(256, Minimal(256, n)) && AsBytes(Minimal(256, n)) == Serialize(n)
  {
    MinimalDigits(256, n);
    if n > 0 {
      SerializeIsMinimal(n / 256);
      assert AsBytes(Minimal(256, n)) == AsBytes(Minimal(256, n / 256)) + [n % 256];
    }
  }

  /** The decoded bytes: a zero for every leading zero digit, then the serialized number. */
  lemma DecodedBytes(digits: seq<nat>)
    requires Normal(58, digits)
    ensures AsBytes(FromDigits(digits)) == Zeros(LeadingZeros(digits)) + Serialize(BigEndian(58, digits))
  {
    SerializeIsMinimal(BigEndian(58, digits));
  }

  lemma NextCharacter(a: seq<u8>, d: nat, s: seq<nat>)
    requires ValidAlphabet(a) && d < 58 && Normal(58, s)
    ensures Normal(58, [d] + s) && Reversed(Spell(a, [d] + s)) == Reversed(Spell(a, s)) + [a[d]]
  {
    hide ValidAlphabet;
  }

  lemma ZeroCharacters(a: seq<u8>, k: nat, s: seq<nat>)
    requires ValidAlphabet(a) && Normal(58, s) && Normal(58, LeadingPart(k) + s)
    ensures Reversed(Reversed(Spell(a, s)) + Repeated(a[0], k)) == Spell(a, LeadingPart(k) + s)
  {
    hide ValidAlphabet;
  }

  lemma MinimalStep(x: nat, s: seq<nat>)
    requires x > 0
    ensures Minimal(58, x) + s == Minimal(58, x / 58) + ([x % 58] + s)
  {
    assert Minimal(58, x) == Minimal(58, x / 58) + [x % 58];
  }

  /** String.init(base58Encoding:validatingAlphabet:) */
  method Encode(bytes: seq<u8>, alphabet: seq<u8>) returns (r: Option<seq<u8>>)
    ensures r == if ValidAlphabet(alphabet) then Some(Encoded(alphabet, bytes)) else None
  {
    if !ValidAlphabet(alphabet) { return None; }
    hide BigEndian, Spell, Reversed, ValidAlphabet, LeadingZeros, Repeated;
    var x := Number(bytes);
    var answer: seq<u8> := [];
    ghost var digits: seq<nat> := [];
    EmptySpelling(alphabet);
    while x > 0
      invariant Normal(58, digits) && Minimal(58, x) + digits == Minimal(58, Number(bytes))
      invariant answer == Reversed(Spell(alphabet, digits))
    {
      hide Minimal;
      MinimalStep(x, digits);
      NextCharacter(alphabet, x % 58, digits);
      digits := [x % 58] + digits;
      answer := answer + [alphabet[x % 58]];
      x := x / 58;
    }
    assert digits == Minimal(58, Number(bytes));
    hide Minimal;
    var zeros := LeadingZeros(bytes);
    ConvertBack(256, 58, bytes);
    ZeroCharacters(alphabet, zeros, digits);
    answer := answer + Repeated(alphabet[0], zeros);
    return Some(Reversed(answer));
  }

  lemma EmptySpelling(a: seq<u8>)
    requires ValidAlphabet(a)
    ensures Normal(58, []) && Reversed(Spell(a, [])) == [] && |a| == 58
  {}

  /** The characters from k on have been read: answer is their number, j the weight of the next one. */
  ghost predicate ReadFrom(a: seq<u8>, text: seq<u8>, k: nat, answer: nat, j: nat)
    requires ValidAlphabet(a) && k <= |text|
  {
    && InAlphabet(a, text[k..])
    && j == Pow(58, |text| - k)
    && answer == BigEndian(58, TextDigits(a, text[k..]))
  }

  lemma NothingRead(a: seq<u8>, text: seq<u8>)
    requires ValidAlphabet(a)
    ensures |a| == 58 && ReadFrom(a, text, |text|, 0, 1)
  {}

  lemma NextRead(a: seq<u8>, text: seq<u8>, k: nat, answer: nat, j: nat, index: nat)
    requires ValidAlphabet(a) && k < |text| && ReadFrom(a, text, k + 1, answer, j)
    requires FirstIndex(a, text[k]) == Some(index)
    ensures ReadFrom(a, text, k, MulAdd(answer, j, index), j * 58)
  {
    hide ValidAlphabet, BigEndian;
    var rest := TextDigits(a, text[k + 1..]);
    assert text[k..] == [text[k]] + text[k + 1..];
    assert TextDigits(a, text[k..]) == [index] + rest;
    FirstDigit(index, rest);
    assert index * j == j * index;
  }

  lemma AllRead(a: seq<u8>, text: seq<u8>, answer: nat, j: nat)
    requires ValidAlphabet(a) && ReadFrom(a, text, 0, answer, j)
    ensures Decoded(a, text) == Some(Zeros(LeadingCount(text, a[0])) + Serialize(answer))
  {
    hide BigEndian, Pow, Serialize;
    assert text[0..] == text;
    LeadingCharacters(a, text);
    DecodedBytes(TextDigits(a, text));
  }

  /** Data.init(base58Decoding:alphabet:) */
  method Decode(text: seq<u8>, alphabet: seq<u8>) returns (r: Option<seq<u8>>)
    ensures r == if ValidAlphabet(alphabet) then Decoded(alphabet, text) else None
  {
    if !ValidAlphabet(alphabet) { return None; }
    hide ValidAlphabet, ReadFrom, Serialize, MulAdd, AsBytes, FromDigits, TextDigits;
    var answer: nat, j: nat, k := 0, 1, |text|;
    NothingRead(alphabet, text);
    while k > 0
      invariant 0 <= k <= |text| && ReadFrom(alphabet, text, k, answer, j)
      decreases k
    {
      k := k - 1;
      var index := FirstIndex(alphabet, text[k]);
      if index.None? { return None; }
      NextRead(alphabet, text, k, answer, j, index.value);
      answer := MulAdd(answer, j, index.value);
      j := j * 58;
    }
    var bytes := Serialize(answer);
    var leadingZeroCount := LeadingCount(text, alphabet[0]);
    AllRead(alphabet, text, answer, j);
    return Some(Zeros(leadingZeroCount) + bytes);
  }

  /** The leading characters for zero are the leading zero digits. */
  lemma LeadingCharacters(a: seq<u8>, text: seq<u8>)
    requires ValidAlphabet(a) && InAlphabet(a, text)
    ensures LeadingZeros(TextDigits(a, text)) == LeadingCount(text, a[0])
  {
    var digits := TextDigits(a, text);
    assert forall i :: 0 <= i < |text| ==> (digits[i] == 0 <==> text[i] == a[0]);
    LeadingZerosAre(digits, LeadingCount(text, a[0]));
  }

  lemma FirstDigit(d: nat, rest: seq<nat>)
    ensures BigEndian(58, [d] + rest) == d * Pow(58, |rest|) + BigEndian(58, rest)
  {
    BigEndianConcat(58, [d], rest);
    OneDigit(d);
  }

  lemma OneDigit(d: nat)
    ensures BigEndian(58, [d]) == d
  {
    assert [d][..0] == [];
  }

  /** The count of a character at the start of a text. */
  function LeadingCount(text: seq<u8>, c: u8): (k: nat)
    ensures k <= |text| && (forall i :: 0 <= i < k ==> text[i] == c) && (k < |text| ==> text[k] != c)
  {
    if |text| > 0 && text[0] == c then 1 + LeadingCount(text[1..], c) else 0
  }
}
