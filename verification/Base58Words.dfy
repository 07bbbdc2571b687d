/** b58tobin: base 58 text into 32-bit words and from there into bytes. */
module Base58Words {
  import opened Arith
  import opened Digits
  import opened ByteStrings
  import opened Radix
  import opened Base58
  import opened Base58Swift
  import opened Base58C

  // ---- words into bytes ----

  /** Appending a word to a number appends its four bytes. */
  lemma WordBytes(v: nat, w: u32, k: nat)
    ensures ToBytes(v * TWO32 + w, k + 4)
      == ToBytes(v, k) + [w / 0x1000000, w / 0x10000 % 0x100, w / 0x100 % 0x100, w % 0x100]
  {
    hide ToBytes;
    var a, b, c := w / 0x100, w / 0x10000, w / 0x1000000;
    assert a / 0x100 == b && b / 0x100 == c && c / 0x100 == 0 && c % 0x100 == c;
    LastByte(v * 0x1000000, w, k + 3);
    LastByte(v * 0x10000, a, k + 2);
    LastByte(v * 0x100, b, k + 1);
    LastByte(v, c, k);
  }

  /** A mask test on a word that fills only part of its bytes. */
  lemma MaskTest(w: u32, bytes: nat)
    requires bytes < 4
    ensures 0 <= TWO32 - Pow(2, 8 * bytes)
    ensures And(w, TWO32 - Pow(2, 8 * bytes)) == 0 <==> w < Pow(256, bytes)
  {
    SmallPowers();
    assert Pow(2, 32) == TWO32 by {
      assert Pow(2, 1) == 2;
      Doubled(2, 1, 1, 2, 2);
      Doubled(2, 2, 1, 4, 2);
      Doubled(2, 29, 3, 0x20000000, 8);
    }
    AndHighBits(w, 8 * bytes, 32);
    TwosWidth(bytes);
  }

  lemma TwosWidth(bytes: nat)
    ensures Pow(2, 8 * bytes) == Pow(256, bytes)
  {
    PowMul(2, 8, bytes);
    assert Pow(2, 8) == 256 by {
      assert Pow(2, 1) == 2;
      Doubled(2, 1, 1, 2, 2);
      Doubled(2, 2, 2, 4, 4);
      Doubled(2, 4, 4, 16, 16);
    }
  }

  /** The words hold a number of binsz bytes exactly when the first one fills no more than its share. */
  lemma WordsFit(words: seq<nat>, binsz: nat)
    requires binsz > 0 && |words| == (binsz + 3) / 4 && Normal(TWO32, words)
    ensures BigEndian(TWO32, words) < Pow(256, binsz) <==> (binsz % 4 == 0 || words[0] < Pow(256, binsz % 4))
  {
    hide BigEndian, Pow;
    var n, left := |words|, binsz % 4;
    BigEndianBound(TWO32, words);
    WordPower(n);
    if left > 0 {
      SuffixValue(TWO32, words, 0);
      assert words[0..] == words;
      BigEndianBound(TWO32, words[1..]);
      WordPower(n - 1);
      assert binsz == 4 * (n - 1) + left;
      PowAdd(256, left, 4 * (n - 1));
      Leading(words[0], BigEndian(TWO32, words[1..]), Pow(TWO32, n - 1), Pow(256, left));
    }
  }

  lemma Leading(top: nat, rest: nat, p: nat, q: nat)
    requires rest < p
    ensures top * p + rest < q * p <==> top < q
  {
    if top < q { MulMono(top + 1, q, p, p); } else { MulMono(q, top, p, p); }
  }

  lemma WordPower(n: nat)
    ensures Pow(TWO32, n) == Pow(256, 4 * n)
  {
    PowMul(256, 4, n);
    assert Pow(256, 4) == TWO32 by {
      assert Pow(256, 1) == 256;
      Doubled(256, 1, 1, 256, 256);
      Doubled(256, 2, 2, 65536, 65536);
    }
  }

  // ---- the loops ----

  /** The inner loop of b58tobin: multiplies the words by 58 and adds a digit; the carry out is what no
      longer fits. */
  method MultiplyAdd(outi: array<u32>, digit: u32) returns (c: u32)
    requires digit < 58
    modifies outi
    ensures BigEndian(TWO32, outi[..]) + Pow(TWO32, outi.Length) * c == 58 * BigEndian(TWO32, old(outi[..])) + digit
  {
    hide BigEndian, Pow;
    ghost var was: seq<nat> := outi[..];
    c := digit;
    var j := outi.Length;
    NoWordsLeft(was, digit);
    while j > 0
      invariant 0 <= j <= outi.Length && c < 58
      invariant forall k :: 0 <= k < j ==> outi[k] == was[k]
      invariant Accounts(TWO32, outi[..], j, c, 58 * BigEndian(TWO32, was[j..]) + digit)
    {
      j := j - 1;
      ghost var now: seq<nat> := outi[..];
      var word: nat := outi[j];
      var t: u64 := word * 58 + c;
      ghost var before: nat := c;
      c := t / TWO32;
      outi[j] := t % TWO32;
      ghost var next: seq<nat> := outi[..];
      NextAccounts(TWO32, was, now, next, j, 58, digit, before);
    }
    assert outi[0..] == outi[..] && was[0..] == was;
  }

  lemma NoWordsLeft(was: seq<nat>, digit: u32)
    ensures Accounts(TWO32, was, |was|, digit, 58 * BigEndian(TWO32, was[|was|..]) + digit)
  {}

  /** The text up to a position, as a number. */
  function Value(text: seq<u8>): nat
    requires ValidAlphabet(BITCOIN) && InAlphabet(BITCOIN, text)
  {
    BigEndian(58, TextDigits(BITCOIN, text))
  }

  lemma NextCharacterValue(text: seq<u8>, i: nat)
    requires ValidAlphabet(BITCOIN) && i < |text| && InAlphabet(BITCOIN, text[..i]) && text[i] in BITCOIN
    ensures InAlphabet(BITCOIN, text[..i + 1])
    ensures Value(text[..i + 1]) == 58 * Value(text[..i]) + FirstIndex(BITCOIN, text[i]).value
  {
    var digits := TextDigits(BITCOIN, text[..i + 1]);
    assert digits[..i] == TextDigits(BITCOIN, text[..i]);
  }

  /** The value only grows with more characters. */
  lemma {:induction false} ValueGrows(text: seq<u8>, i: nat, n: nat)
    requires i <= n <= |text| && ValidAlphabet(BITCOIN) && InAlphabet(BITCOIN, text[..n])
    ensures InAlphabet(BITCOIN, text[..i]) && Value(text[..i]) <= Value(text[..n])
    decreases n
  {
    hide BigEndian, ValidAlphabet, TextDigits, Value;
    assert forall k :: 0 <= k < i ==> text[..i][k] == text[..n][k];
    if i < n {
      assert text[n - 1] == text[..n][n - 1];
      assert forall k :: 0 <= k < n - 1 ==> text[..n - 1][k] == text[..n][k];
      ValueGrows(text, i, n - 1);
      NextCharacterValue(text, n - 1);
    }
  }

  /** The reading loop: the number in the words, or false if a character is unknown or the number does not
      fit binsz bytes. */
  method ReadWords(text: seq<u8>, binsz: nat, zerocount: nat) returns (ok: bool, outi: array<u32>)
    requires binsz > 0 && ValidAlphabet(BITCOIN)
    requires zerocount <= |text| && forall i :: 0 <= i < zerocount ==> text[i] == BITCOIN[0]
    ensures fresh(outi) && outi.Length == (binsz + 3) / 4
    ensures ok <==> InAlphabet(BITCOIN, text) && Value(text) < Pow(256, binsz)
    ensures ok ==> BigEndian(TWO32, outi[..]) == Value(text)
  {
    hide BigEndian, Pow, ValidAlphabet, Value, DigitOf, InAlphabet, And, FirstIndex;
    var outisz, bytesleft := (binsz + 3) / 4, binsz % 4;
    outi := new u32[outisz](_ => 0);
    var i := zerocount;
    NothingRead(text, zerocount, outi[..], binsz);
    while i < |text|
      invariant zerocount <= i <= |text| && fresh(outi)
      invariant InAlphabet(BITCOIN, text[..i])
      invariant BigEndian(TWO32, outi[..]) == Value(text[..i])
      invariant Value(text[..i]) < Pow(256, binsz)
    {
      if text[i] >= 0x80 {
        NotInAlphabet(text, i);
        return false, outi;
      }
      MapIsIndex(text[i]);
      if DigitOf(text[i]) == -1 {
        NotInAlphabet(text, i);
        return false, outi;
      }
      var c: u32 := DigitOf(text[i]);
      NextCharacterValue(text, i);
      c := MultiplyAdd(outi, c);
      TooLarge(text, i + 1, outi[..], c, binsz);
      if c != 0 { return false, outi; }
      if bytesleft != 0 {
        MaskTest(outi[0], bytesleft);
        if And(outi[0], TWO32 - Pow(2, 8 * bytesleft)) != 0 { return false, outi; }
      }
      i := i + 1;
    }
    assert text[..|text|] == text;
    ok := true;
  }

  lemma NotInAlphabet(text: seq<u8>, i: nat)
    requires i < |text| && text[i] !in BITCOIN
    ensures !InAlphabet(BITCOIN, text)
  {}

  lemma NothingRead(text: seq<u8>, zerocount: nat, words: seq<nat>, binsz: nat)
    requires ValidAlphabet(BITCOIN) && zerocount <= |text| && forall i :: 0 <= i < zerocount ==> text[i] == BITCOIN[0]
    requires forall i :: 0 <= i < |words| ==> words[i] == 0
    ensures InAlphabet(BITCOIN, text[..zerocount])
      && BigEndian(TWO32, words) == Value(text[..zerocount]) == 0 < Pow(256, binsz)
  {
    IndexOf(BITCOIN, 0);
    ZeroValue(58, TextDigits(BITCOIN, text[..zerocount]));
    ZeroValue(TWO32, words);
  }

  /** A carry out, or too much in the first word, means the number is too large now and stays so. */
  lemma TooLarge(text: seq<u8>, i: nat, words: seq<nat>, c: nat, binsz: nat)
    requires binsz > 0 && ValidAlphabet(BITCOIN) && i <= |text| && InAlphabet(BITCOIN, text[..i])
    requires |words| == (binsz + 3) / 4 && Normal(TWO32, words)
    requires BigEndian(TWO32, words) + Pow(TWO32, |words|) * c == Value(text[..i])
    ensures c == 0 ==> BigEndian(TWO32, words) == Value(text[..i])
    ensures Value(text[..i]) < Pow(256, binsz) <==> c == 0 && (binsz % 4 == 0 || words[0] < Pow(256, binsz % 4))
    ensures Value(text[..i]) >= Pow(256, binsz) && InAlphabet(BITCOIN, text) ==> Value(text) >= Pow(256, binsz)
  {
    hide Pow, Value, InAlphabet, BigEndian, ValidAlphabet;
    WordsFit(words, binsz);
    if c > 0 {
      MulMono(Pow(TWO32, |words|), Pow(TWO32, |words|), 1, c);
      WordPower(|words|);
      if binsz < 4 * |words| { PowStrict(256, binsz, 4 * |words|); }
    }
    if InAlphabet(BITCOIN, text) {
      assert text[..|text|] == text;
      ValueGrows(text, i, |text|);
    }
  }

  /** The switch of b58tobin: the share of the first word. */
  method WriteShare(bin: array<u8>, binsz: nat, outi: array<u32>) returns (p: nat, j: nat)
    requires 0 < binsz <= bin.Length && outi.Length == (binsz + 3) / 4
    modifies bin
    ensures j <= outi.Length && p + 4 * (outi.Length - j) == binsz
    ensures bin[..p] == ToBytes(BigEndian(TWO32, outi[..j]), p) && bin[p..] == old(bin[p..])
  {
    hide BigEndian, ToBytes;
    FirstShare(outi[..], binsz);
    var bytesleft := binsz % 4;
    p, j := 0, 0;
    if bytesleft == 3 {
      bin[p] := outi[0] / 0x10000 % 0x100;
      p := p + 1;
    }
    if bytesleft >= 2 {
      bin[p] := outi[0] / 0x100 % 0x100;
      p := p + 1;
    }
    if bytesleft >= 1 {
      bin[p] := outi[0] % 0x100;
      p := p + 1;
      j := j + 1;
    }
    assert outi[..][..j] == outi[..j];
  }

  /** The writing loop: the words as bytes. */
  method WriteBytes(bin: array<u8>, binsz: nat, outi: array<u32>)
    requires 0 < binsz <= bin.Length && outi.Length == (binsz + 3) / 4
    modifies bin
    ensures bin[..binsz] == ToBytes(BigEndian(TWO32, outi[..]), binsz) && bin[binsz..] == old(bin[binsz..])
  {
    hide BigEndian, ToBytes;
    var p, j := WriteShare(bin, binsz, outi);
    while j < outi.Length
      invariant 0 <= j <= outi.Length && p + 4 * (outi.Length - j) == binsz
      invariant bin[..p] == ToBytes(BigEndian(TWO32, outi[..j]), p)
      invariant bin[binsz..] == old(bin[binsz..])
    {
      WriteWord(bin, p, outi[j]);
      NextWord(outi[..], j, p);
      assert outi[..][..j] == outi[..j] && outi[..][..j + 1] == outi[..j + 1];
      p := p + 4;
      j := j + 1;
    }
    assert outi[..outi.Length] == outi[..];
  }

  /** One turn of the writing loop. */
  method WriteWord(bin: array<u8>, p: nat, w: u32)
    requires p + 4 <= bin.Length
    modifies bin
    ensures bin[..p + 4] == old(bin[..p]) + [w / 0x1000000 % 0x100, w / 0x10000 % 0x100, w / 0x100 % 0x100, w % 0x100]
    ensures bin[p + 4..] == old(bin[p + 4..])
  {
    bin[p] := w / 0x1000000 % 0x100;
    bin[p + 1] := w / 0x10000 % 0x100;
    bin[p + 2] := w / 0x100 % 0x100;
    bin[p + 3] := w % 0x100;
  }

  /** The bytes the switch in front of the loop writes. */
  lemma FirstShare(words: seq<u32>, binsz: nat)
    requires binsz > 0 && |words| == (binsz + 3) / 4
    ensures var left := binsz % 4; var w := words[0];
      && (left == 0 ==> BigEndian(TWO32, words[..0]) == 0)
      && (left > 0 ==> BigEndian(TWO32, words[..1]) == w)
      && (left == 3 ==> ToBytes(w, 3) == [w / 0x10000 % 0x100, w / 0x100 % 0x100, w % 0x100])
      && (left == 2 ==> ToBytes(w, 2) == [w / 0x100 % 0x100, w % 0x100])
      && (left == 1 ==> ToBytes(w, 1) == [w % 0x100])
  {
    var w: nat := words[0];
    assert words[..1][..0] == [];
    assert ToBytes(w, 1) == ToBytes(w / 256, 0) + [w % 256];
    assert ToBytes(w, 2) == ToBytes(w / 256, 1) + [w % 256];
    assert ToBytes(w / 256, 1) == ToBytes(w / 256 / 256, 0) + [w / 256 % 256];
    assert ToBytes(w, 3) == ToBytes(w / 256, 2) + [w % 256];
    assert ToBytes(w / 256, 2) == ToBytes(w / 256 / 256, 1) + [w / 256 % 256];
    assert ToBytes(w / 256 / 256, 1) == ToBytes(w / 256 / 256 / 256, 0) + [w / 256 / 256 % 256];
    assert w / 256 / 256 == w / 0x10000;
  }

  lemma NextWord(words: seq<u32>, j: nat, p: nat)
    requires j < |words|
    ensures var w := words[j];
      ToBytes(BigEndian(TWO32, words[..j + 1]), p + 4) == ToBytes(BigEndian(TWO32, words[..j]), p) +
        [w / 0x1000000 % 0x100, w / 0x10000 % 0x100, w / 0x100 % 0x100, w % 0x100]
  {
    var s: seq<nat> := words[..j + 1];
    assert s[..j] == words[..j];
    WordBytes(BigEndian(TWO32, words[..j]), words[j], p);
  }

  /** b58tobin: succeeds exactly when the big-integer decoder does with a result that fits a nonzero
      capacity; the result then stands right-aligned, after zeros. */
  method Decode(bin: array<u8>, binsz: nat, b58: seq<u8>) returns (ok: bool, newsz: nat)
    requires binsz <= bin.Length
    modifies bin
    ensures ValidAlphabet(BITCOIN)
    ensures ok <==> binsz > 0 && Decoded(BITCOIN, b58).Some? && |Decoded(BITCOIN, b58).value| <= binsz
    ensures ok ==> newsz == |Decoded(BITCOIN, b58).value|
    ensures ok ==> bin[..binsz] == Zeros(binsz - newsz) + Decoded(BITCOIN, b58).value
    ensures ok ==> bin[binsz..] == old(bin[binsz..])
  {
    hide BigEndian, Pow, ValidAlphabet, Value, ToBytes, Serialize, Decoded;
    BitcoinValid();
    newsz := binsz;
    if binsz == 0 { return false, newsz; }
    var zerocount := 0;
    ZeroCharacter();
    while zerocount < |b58| && b58[zerocount] == '1' as int
      invariant 0 <= zerocount <= |b58| && forall i :: 0 <= i < zerocount ==> b58[i] == BITCOIN[0]
    {
      zerocount := zerocount + 1;
    }
    var outi;
    ok, outi := ReadWords(b58, binsz, zerocount);
    DecodedForm(b58, zerocount, binsz);
    if !ok { return false, newsz; }
    WriteBytes(bin, binsz, outi);
    var i := 0;
    while i < binsz && bin[i] == 0
      invariant 0 <= i <= binsz && forall k :: 0 <= k < i ==> bin[k] == 0
    {
      i := i + 1;
    }
    ZerosInFront(bin[..binsz], Value(b58), i);
    if zerocount > i { return false, newsz; }
    newsz := binsz - i + zerocount;
    assert Zeros(i) == Zeros(i - zerocount) + Zeros(zerocount);
  }

  lemma ZeroCharacter()
    ensures BITCOIN[0] == '1' as int
  {}

  /** What the big-integer decoder returns, and when it fits. */
  lemma DecodedForm(text: seq<u8>, zerocount: nat, binsz: nat)
    requires ValidAlphabet(BITCOIN) && zerocount <= |text| && forall i :: 0 <= i < zerocount ==> text[i] == BITCOIN[0]
    requires zerocount < |text| ==> text[zerocount] != BITCOIN[0]
    ensures Decoded(BITCOIN, text).Some? <==> InAlphabet(BITCOIN, text)
    ensures InAlphabet(BITCOIN, text) ==> Decoded(BITCOIN, text).value == Zeros(zerocount) + Serialize(Value(text))
    ensures InAlphabet(BITCOIN, text) ==> (Value(text) < Pow(256, binsz) <==> |Serialize(Value(text))| <= binsz)
  {
    if InAlphabet(BITCOIN, text) {
      var digits := TextDigits(BITCOIN, text);
      assert forall i :: 0 <= i < |text| ==> (digits[i] == 0 <==> text[i] == BITCOIN[0]);
      LeadingZerosAre(digits, zerocount);
      DecodedBytes(digits);
      PaddedSerialization(Value(text), binsz);
    }
  }

  /** The zeros in front of a number in a fixed number of bytes. */
  lemma ZerosInFront(s: seq<u8>, v: nat, i: nat)
    requires v < Pow(256, |s|) && s == ToBytes(v, |s|)
    requires i <= |s| && (forall k :: 0 <= k < i ==> s[k] == 0) && (i < |s| ==> s[i] != 0)
    ensures |Serialize(v)| == |s| - i && s == Zeros(i) + Serialize(v)
  {
    hide Pow, ToBytes, BigEndian;
    PaddedSerialization(v, |s|);
    SerializeLeads(v);
    ZeroPrefix(s, Serialize(v), i);
  }

  lemma ZeroPrefix(s: seq<u8>, t: seq<u8>, i: nat)
    requires |t| <= |s| && s == Zeros(|s| - |t|) + t && (|t| > 0 ==> t[0] != 0)
    requires i <= |s| && (forall k :: 0 <= k < i ==> s[k] == 0) && (i < |s| ==> s[i] != 0)
    ensures i == |s| - |t|
  {
    var z := |s| - |t|;
    if z < |s| { assert s[z] == t[0]; }
    LeadingZerosAre(s, z);
    LeadingZerosAre(s, i);
  }

  /** b58tobin of b58enc: the data comes back right-aligned at any capacity that holds it. */
  method EncodeThenDecode(data: seq<u8>, capacity: nat) returns (bin: array<u8>)
    requires capacity > 0 && |data| <= capacity
    ensures bin.Length == capacity && bin[..] == Zeros(capacity - |data|) + data
  {
    hide Encoded, Decoded, ValidAlphabet;
    BitcoinValid();
    DecodeOfEncode(BITCOIN, data);
    var text := new u8[1](_ => 0);
    var ok, size := Base58C.Encode(text, 1, data);
    if !ok {
      text := new u8[size](_ => 0);
      ok, size := Base58C.Encode(text, size, data);
    }
    bin := new u8[capacity](_ => 0);
    var newsz;
    ok, newsz := Decode(bin, capacity, text[..size - 1]);
    assert text[..size - 1] == Encoded(BITCOIN, data);
    assert bin[..capacity] == bin[..];
  }
}
