/** Well-formed UTF-8 is what the characters of a text are encoded to. */
module Utf8 {
  import opened Arith
  import opened ByteStrings

  /** A Unicode scalar value: any code point but the surrogates. */
  predicate Scalar(c: nat)
  {
    c < 0x11_0000 && !(0xD800 <= c <= 0xDFFF)
  }

  /** UTF-8 of one scalar value, section 3 of RFC 3629. */
  function EncodeScalar(c: nat): seq<u8>
    requires Scalar(c)
  {
    if c < 0x80 then [c]
    else if c < 0x800 then [0xC0 + c / 0x40, 0x80 + c % 0x40]
    else if c < 0x1_0000 then [0xE0 + c / 0x1000, 0x80 + c / 0x40 % 0x40, 0x80 + c % 0x40]
    else [0xF0 + c / 0x4_0000, 0x80 + c / 0x1000 % 0x40, 0x80 + c / 0x40 % 0x40, 0x80 + c % 0x40]
  }

  predicate Scalars(text: seq<nat>)
  {
    forall i :: 0 <= i < |text| ==> Scalar(text[i])
  }

  function Encode(text: seq<nat>): seq<u8>
    requires Scalars(text)
  {
    if |text| == 0 then [] else EncodeScalar(text[0]) + Encode(text[1..])
  }

  lemma ScalarValid(c: nat, rest: seq<u8>)
    requires Scalar(c)
    ensures ValidUtf8(EncodeScalar(c) + rest) <==> ValidUtf8(rest)
  {
    var e := EncodeScalar(c);
    var s := e + rest;
    assert s[|e|..] == rest;
  }

  lemma {:induction false} EncodeValid(text: seq<nat>)
    requires Scalars(text)
    ensures ValidUtf8(Encode(text))
  {
    hide EncodeScalar, ValidUtf8;
    if |text| == 0 {
      NothingValid();
    } else {
      EncodeValid(text[1..]);
      ScalarValid(text[0], Encode(text[1..]));
    }
  }

  lemma NothingValid()
    ensures ValidUtf8([])
  {}

  /** Six more bits. */
  lemma SixBits(high: nat, low: nat)
    requires low < 0x40
    ensures (high * 0x40 + low) / 0x40 == high && (high * 0x40 + low) % 0x40 == low
  {}

  lemma TwelveBits(n: nat)
    ensures n / 0x1000 == n / 0x40 / 0x40 && n / 0x4_0000 == n / 0x40 / 0x40 / 0x40
  {}

  lemma Two(a: u8, b: u8) returns (c: nat)
    requires 0xC2 <= a <= 0xDF && Continuation(b)
    ensures Scalar(c) && EncodeScalar(c) == [a, b]
  {
    var x: nat, y: nat := a - 0xC0, b - 0x80;
    c := x * 0x40 + y;
    SixBits(x, y);
  }

  lemma Three(a: u8, b: u8, d: u8) returns (c: nat)
    requires 0xE0 <= a <= 0xEF && Continuation(b) && Continuation(d)
    requires (a == 0xE0 ==> b >= 0xA0) && (a == 0xED ==> b <= 0x9F)
    ensures Scalar(c) && EncodeScalar(c) == [a, b, d]
  {
    var x: nat, y: nat, z: nat := a - 0xE0, b - 0x80, d - 0x80;
    c := (x * 0x40 + y) * 0x40 + z;
    SixBits(x * 0x40 + y, z);
    SixBits(x, y);
    TwelveBits(c);
  }

  lemma Four(a: u8, b: u8, d: u8, e: u8) returns (c: nat)
    requires 0xF0 <= a <= 0xF4 && Continuation(b) && Continuation(d) && Continuation(e)
    requires (a == 0xF0 ==> b >= 0x90) && (a == 0xF4 ==> b <= 0x8F)
    ensures Scalar(c) && EncodeScalar(c) == [a, b, d, e]
  {
    var w: nat, x: nat, y: nat, z: nat := a - 0xF0, b - 0x80, d - 0x80, e - 0x80;
    c := ((w * 0x40 + x) * 0x40 + y) * 0x40 + z;
    SixBits((w * 0x40 + x) * 0x40 + y, z);
    SixBits(w * 0x40 + x, y);
    SixBits(w, x);
    TwelveBits(c);
  }

  /** The first character of well-formed bytes, and how many it takes. */
  lemma FirstScalar(s: seq<u8>) returns (c: nat, n: nat)
    requires |s| > 0 && ValidUtf8(s)
    ensures Scalar(c) && 0 < n <= |s| && s[..n] == EncodeScalar(c) && ValidUtf8(s[n..])
  {
    if s[0] < 0x80 {
      c, n := s[0], 1;
    } else {
      hide EncodeScalar, Scalar;
      n := if s[0] <= 0xDF then 2 else if s[0] <= 0xEF then 3 else 4;
      if n == 2 { c := Two(s[0], s[1]); } else if n == 3 { c := Three(s[0], s[1], s[2]); } else {
        c := Four(s[0], s[1], s[2], s[3]);
      }
    }
  }

  lemma {:induction false} TextOf(s: seq<u8>) returns (text: seq<nat>)
    requires ValidUtf8(s)
    ensures Scalars(text) && Encode(text) == s
  {
    hide EncodeScalar, ValidUtf8;
    if |s| == 0 {
      text := [];
    } else {
      var c, n := FirstScalar(s);
      var rest := TextOf(s[n..]);
      text := [c] + rest;
      assert text[1..] == rest && s == s[..n] + s[n..];
    }
  }

  /** Bytes are well-formed exactly if they are the encoding of some characters. */
  lemma ValidExactly(s: seq<u8>)
    ensures ValidUtf8(s) <==> exists text :: Scalars(text) && Encode(text) == s
  {
    if ValidUtf8(s) {
      var text := TextOf(s);
    } else {
      forall text | Scalars(text) && Encode(text) == s ensures false { EncodeValid(text); }
    }
  }
}
