/** A modulus within the range of bignum.c whose lowest limb is 1: a prime for which the slow bn_inverse is wrong. */
module WrappedPrime {
  import opened Arith
  import opened Bignum
  import opened Fermat
  import opened Powers

  // ---- Proth's theorem ----

  lemma DividesThrough(c: nat, q: nat, p: nat)
    requires c > 0 && q > 0 && Divides(c, q) && Divides(q, p)
    ensures Divides(c, p)
  {
    DivMod(q, c);
    DivMod(p, q);
    Assoc(p / q, q / c, c);
    DividesBy(c, p, (p / q) * (q / c));
  }

  /** The least divisor above 1 that is at least d. */
  lemma LeastDivisor(p: nat, d: nat) returns (q: nat)
    requires 1 < d <= p && forall c: nat :: 1 < c < d ==> !Divides(c, p)
    ensures d <= q <= p && Divides(q, p) && forall c: nat :: 1 < c < q ==> !Divides(c, p)
    decreases p - d
  {
    if Divides(d, p) {
      q := d;
    } else if d < p {
      q := LeastDivisor(p, d + 1);
    } else {
      DividesBy(p, p, 1);
    }
  }

  /** A number that is not prime has a prime divisor up to its root. */
  lemma SmallPrime(p: nat) returns (q: nat)
    requires p > 1 && !IsPrime(p)
    ensures IsPrime(q) && Divides(q, p) && q * q <= p
  {
    var d: nat :| 1 < d < p && Divides(d, p);
    q := LeastDivisor(p, 2);
    forall c: nat | 1 < c < q ensures !Divides(c, q) {
      if Divides(c, q) { DividesThrough(c, q, p); }
    }
    DivMod(p, q);
    var r := p / q;
    Cofactor(p, q, r);
    DividesBy(r, p, q);
    MulMono(q, q, q, r);
  }

  lemma Cofactor(p: nat, q: nat, r: nat)
    requires p == r * q && 1 < q < p
    ensures 1 < r
  {}

  /** n as a power of two times an odd number. */
  lemma OddPart(n: nat) returns (s: nat, m: nat)
    requires n > 0
    ensures n == Pow(2, s) * m && m % 2 == 1
  {
    if n % 2 == 1 {
      s, m := 0, n;
    } else {
      s, m := OddPart(n / 2);
      Assoc(2, Pow(2, s), m);
      s := s + 1;
    }
  }

  /** An odd power of -1. */
  lemma {:induction false} OddPower(y: nat, m: nat, q: nat)
    requires q > 0 && Cong(y, -1, q) && m % 2 == 1
    ensures Cong(Pow(y, m), -1, q)
  {
    CongMul(y, -1, y, -1, q);
    assert Pow(y, 1) == y * Pow(y, 0);
    if m > 1 {
      OddPower(y, m - 2, q);
      assert Pow(y, m) == y * (y * Pow(y, m - 2));
      Assoc(y, y, Pow(y, m - 2));
      CongMul(y * y, 1, Pow(y, m - 2), -1, q);
    }
  }

  lemma NotMinusOne(q: nat)
    requires q > 2
    ensures !Cong(1, -1, q) && !Cong(0, -1, q)
  {
    DivModUnique(0, q, 0, 0);
    DivModUnique(1, q, 0, 1);
    DivModUnique(-1, q, -1, q - 1);
  }

  /** No power of a multiple of q is -1. */
  lemma NoUnit(b: nat, n: nat, q: nat)
    requires q > 2 && n > 0 && Cong(Pow(b, n), -1, q)
    ensures !Divides(q, b)
  {
    NotMinusOne(q);
    if Divides(q, b) {
      DivModUnique(0, q, 0, 0);
      CongMul(b, 0, Pow(b, n - 1), Pow(b, n - 1), q);
    }
  }

  lemma {:induction false} OnePower(n: nat)
    ensures Pow(1, n) == 1
  {
    if n > 0 { OnePower(n - 1); }
  }

  /** 1 to any power is not -1, so the part of two in q - 1 is not below e. */
  lemma PartNotBelow(b: nat, e: nat, q: nat, s: nat, m: nat)
    requires q > 2 && e > s && q - 1 == Pow(2, s) * m && m % 2 == 1
    requires Cong(Pow(b, q - 1), 1, q)
    ensures !Cong(Pow(b, Pow(2, e - 1)), -1, q)
  {
    var half, rest := Pow(2, e - 1), Pow(2, e - 1 - s);
    PowAdd(2, s, e - 1 - s);
    Exponents(Pow(2, s), rest, m);
    PowMul(b, half, m);
    PowMul(b, q - 1, rest);
    PowCong(Pow(b, q - 1), 1, rest, q);
    OnePower(rest);
    NotMinusOne(q);
    if Cong(Pow(b, half), -1, q) { OddPower(Pow(b, half), m, q); }
  }

  lemma Exponents(a: nat, b: nat, m: nat)
    ensures (a * b) * m == (a * m) * b
  {}

  /** If b^(2^(e-1)) is -1 modulo an odd prime, then 2^e divides the prime less 1. */
  lemma OrderDivides(b: nat, e: nat, q: nat)
    requires e > 0 && IsPrime(q) && q > 2 && Cong(Pow(b, Pow(2, e - 1)), -1, q)
    ensures q > Pow(2, e)
  {
    hide IsPrime, Pow, Cong;
    NoUnit(b, Pow(2, e - 1), q);
    LittleTheorem(q, b);
    var s, m := OddPart(q - 1);
    if s < e {
      PartNotBelow(b, e, q, s, m);
    } else {
      if e < s { PowStrict(2, e, s); }
      MulMono(Pow(2, s), Pow(2, s), 1, m);
    }
  }

  lemma CongDivisor(a: int, b: int, q: nat, p: nat)
    requires q > 0 && p > 0 && Divides(q, p) && Cong(a, b, p)
    ensures Cong(a, b, q)
  {
    var c := CongWitness(a, b, p);
    DivMod(p, q);
    Assoc(c, p / q, q);
    CongBy(a, b, q, c * (p / q));
  }

  lemma OddDivisor(q: nat, p: nat)
    requires q > 1 && Divides(q, p) && p % 2 == 1
    ensures q > 2
  {
    DivMod(p, q);
  }

  /** Proth's theorem, for any element of which the power 2^(e-1) is -1. */
  lemma Proth(p: nat, e: nat, b: nat)
    requires p > 1 && p % 2 == 1 && e > 0 && p <= Pow(2, e) * Pow(2, e) && Cong(Pow(b, Pow(2, e - 1)), -1, p)
    ensures IsPrime(p)
  {
    hide Pow, Cong, Divides;
    if !IsPrime(p) {
      var q := SmallPrime(p);
      OddDivisor(q, p);
      CongDivisor(Pow(b, Pow(2, e - 1)), -1, q, p);
      OrderDivides(b, e, q);
      StrictSquare(Pow(2, e), q);
    }
  }

  lemma StrictSquare(w: nat, q: nat)
    requires w < q
    ensures w * w < q * q
  {
    MulMono(w + 1, q, w + 1, q);
    assert (w + 1) * (w + 1) == w * w + w + w + 1;
  }

  // ---- the prime ----

  /** (2^38 - 57) * 2^218 + 1 */
  const PRIME := 0xffffffff1c000000000000000000000000000000000000000000000000000001

  const BASE := 0x4ec9892db19d58aa1c7dfd864073aaf9374e2ed7f126490ae6c96a152f268117

  /** BASE^(2^n) is x modulo the prime. */
  ghost predicate Reaches(n: nat, x: nat)
  {
    Cong(Pow(BASE, Pow(2, n)), x, PRIME)
  }

  lemma Squared(n: nat, x: nat, y: nat)
    requires Reaches(n, x) && (x * x) % PRIME == y
    ensures Reaches(n + 1, y)
  {
    hide Cong;
    var b := Pow(BASE, Pow(2, n));
    PowAdd(BASE, Pow(2, n), Pow(2, n));
    CongMul(b, x, b, x, PRIME);
    CongMod(x * x, PRIME);
    Transitive(b * b, x * x, y, PRIME);
  }

  lemma Transitive(a: int, b: int, c: int, m: int)
    requires m > 0 && Cong(a, b, m) && Cong(b, c, m)
    ensures Cong(a, c, m)
  {}

  lemma From0()
    requires Reaches(0, BASE)
    ensures Reaches(16, 0xea69ff91279890d85ff2dee1d7b8c5b06faa97bd74086b9000b3302d58f7a384)
  {
    hide Reaches;
    var x0 := 0x4ec9892db19d58aa1c7dfd864073aaf9374e2ed7f126490ae6c96a152f268117;
    var x1 := 0x4f859ca656ffc572075b34a59159a42428dfca48caf643cd53717ce729f47170; Squared(0, x0, x1);
    var x2 := 0x2fa282631c36458210e94519bb48866d93f1f7d6a15e9e295f276a6a40145864; Squared(1, x1, x2);
    var x3 := 0x8ea645ff0caf0e5c016238effd909a812ae5c8630b7154181f9da4e4eb06e30e; Squared(2, x2, x3);
    var x4 := 0x513869f8fe92e8ab5caa0b2e7c112b90d09e3880822bdf10ee2ce9070a60a4e7; Squared(3, x3, x4);
    var x5 := 0x62f75b73a78108b3014f5b4b91265ca81af6301e6201030f5038572d1fa69b51; Squared(4, x4, x5);
    var x6 := 0xdaa3b1a1b98a5f43aa1a98dccb73394c1b2a0f1f39878ebde7b4e1e87d6f8282; Squared(5, x5, x6);
    var x7 := 0xa9107ac722458ba5d67e71bbabcceb1ca66fd7b5c8be8ba19f5d1d52acc337f8; Squared(6, x6, x7);
    var x8 := 0x506418edc40e64607c4bb6ba389a1811d8d8506005707f678981cdda6e45bd53; Squared(7, x7, x8);
    var x9 := 0xd1c4965043afe6e9ffd4c45f39dde312fc843c3dd99e196228982dc6c6c28ad; Squared(8, x8, x9);
    var x10 := 0xcc55dee64b4c96f51aa28cbda6e001633d9a982058b624b302e3daaecd2b1420; Squared(9, x9, x10);
    var x11 := 0xae6ebf895b124b1e7a19c96c6fb59730a05ac6b0d657fa117c84c4c9fd7c0b48; Squared(10, x10, x11);
    var x12 := 0x69575c025815ed392dfc3dc96ffeb176e831f31fdf2ff8bb988b01262a331612; Squared(11, x11, x12);
    var x13 := 0xef6fd7d1f02f71a5a8667eb22c1f5db0d3cee3deb740358ac38b67b6a0b9a2d4; Squared(12, x12, x13);
    var x14 := 0xb3f801aaa8c14395c1406a98f686af82118e08edc73e134f19a81211737b52f0; Squared(13, x13, x14);
    var x15 := 0xe47ea821eb0625e91e09ebc781ab11c2a6dd028b11555ad8535b6942ec366227; Squared(14, x14, x15);
    var x16 := 0xea69ff91279890d85ff2dee1d7b8c5b06faa97bd74086b9000b3302d58f7a384; Squared(15, x15, x16);
  }

  lemma From16()
    requires Reaches(16, 0xea69ff91279890d85ff2dee1d7b8c5b06faa97bd74086b9000b3302d58f7a384)
    ensures Reaches(32, 0x1264a2cdc34fca7bb876de3fb91db52e63fa5f2304fa336ed86b67aea0bc10d3)
  {
    hide Reaches;
    var x16 := 0xea69ff91279890d85ff2dee1d7b8c5b06faa97bd74086b9000b3302d58f7a384;
    var x17 := 0x53db4c7cac9e0bce3e30ee7bcf0e259483ce05c7f75ab1c143fc0e87b5660df8; Squared(16, x16, x17);
    var x18 := 0x91f8ae79936d6d3e4d2cd25c36c6a665992d2e7b8c866a05a1543bb9b63705ed; Squared(17, x17, x18);
    var x19 := 0x1d33b892ae129221be0e43edd0cdb641d3f10b3473d34905b37c5672b439974c; Squared(18, x18, x19);
    var x20 := 0x98f61d3669d15ffde05fe9a23618d377bc8651f45d0c1ff6248755c07935c133; Squared(19, x19, x20);
    var x21 := 0xf08b286cb288535d83d24cab0122b8dc52557ebbf735b7fb8b9e644614d3f94c; Squared(20, x20, x21);
    var x22 := 0xd7989ceb3405193de78fba3e6ed702e240efc758045746d6b36a4de3357e1410; Squared(21, x21, x22);
    var x23 := 0xcbe546b848db1e43ab5804bbb767d482920d7463437270bc210d5efeaf26e2d7; Squared(22, x22, x23);
    var x24 := 0x47cc600231100bd10cb7c6626c53900afcf66b646eb37bc7a90b20638c5422d6; Squared(23, x23, x24);
    var x25 := 0x8f2448651bf52bd76d893f0858ed2883c02d08f3915d26cab35673cf869b8689; Squared(24, x24, x25);
    var x26 := 0x60297a44e6e153b09842d3c899582ecb374b2f58602d6e3869b15c4d867d44a; Squared(25, x25, x26);
    var x27 := 0x5081a101bc11ccfe3b6d5cc31395d6363adb04f4d7015780aa046237be898442; Squared(26, x26, x27);
    var x28 := 0x70f8a9ad72325cbc3dbb95e9881bf33b9df1d3231a32923f3b7ca5fe780e24f8; Squared(27, x27, x28);
    var x29 := 0x488f32fa5a575479ab17e642d8d736e2f3b22f9baba2c64fca9b342edb646c78; Squared(28, x28, x29);
    var x30 := 0xd3cea7dbba2a6892fc0f0278aa7578f30d53bff9252d873167a6326f0870d346; Squared(29, x29, x30);
    var x31 := 0x14fccdcd4a2f7559ccf77c4ec28b0e6a5cf99ec4e0133f11b846a0c3f216f58b; Squared(30, x30, x31);
    var x32 := 0x1264a2cdc34fca7bb876de3fb91db52e63fa5f2304fa336ed86b67aea0bc10d3; Squared(31, x31, x32);
  }

  lemma From32()
    requires Reaches(32, 0x1264a2cdc34fca7bb876de3fb91db52e63fa5f2304fa336ed86b67aea0bc10d3)
    ensures Reaches(48, 0xd42047031cb81c1c68ed5fe057a43372a9c0b08974b979288be356300e5ffbc2)
  {
    hide Reaches;
    var x32 := 0x1264a2cdc34fca7bb876de3fb91db52e63fa5f2304fa336ed86b67aea0bc10d3;
    var x33 := 0xde53016ebb7322c5244b0c7be6d034ade659ec947c9e3800f4ed7de681aa80be; Squared(32, x32, x33);
    var x34 := 0x5142922e8c09dbda0ab091719bc8fcab31bd7c1bfacb431c8b2176a85ddd23e2; Squared(33, x33, x34);
    var x35 := 0xd7946f622de211d3a063564169b96f3454d2895cf278c38ba962e9c7808ed4a5; Squared(34, x34, x35);
    var x36 := 0x5ae7554a4756ca999eb282bb3266c414e8306e8ff3fc3f66ac68624258e7883b; Squared(35, x35, x36);
    var x37 := 0xd913ad861dec7bd3d47d46f3e5ad85a0ac0d824e2049a4cc76f0409a55f33a8c; Squared(36, x36, x37);
    var x38 := 0x14708b2425b7531ea5459815291174f66eb7e96915378b58e925bc5e90470e27; Squared(37, x37, x38);
    var x39 := 0xdeb6b5317ca12013dadc8a1711e37377518d57ae1db4ebe8e569ef8181f0e56b; Squared(38, x38, x39);
    var x40 := 0x349dd36f15cbab579b97feecd5a1f7d0c2a3d65ad053117e918dc890b0bd6402; Squared(39, x39, x40);
    var x41 := 0x19ecf3b7b948bffb4ab84c89488cd6201f504632026dbc5eed61b8dbb7f266c9; Squared(40, x40, x41);
    var x42 := 0x4d92cb7c0fd57ed90bedc7f43305d6889e88a4109d7f06182e1d720dbb14a7ed; Squared(41, x41, x42);
    var x43 := 0xe1fdf933579ed65f0883e05108d854d75f45de0315cf84d925ece4b60a55c8ab; Squared(42, x42, x43);
    var x44 := 0xb9f5bca1fa85f4d2906dce3c8d57b6ed28deba50247fd47401a248f122b2447a; Squared(43, x43, x44);
    var x45 := 0x95b32fe737990f1da606c80f434008ab57d1f38265a6ebf6384974781da7ed33; Squared(44, x44, x45);
    var x46 := 0xd26027f96720ff569b621b74970c1194d60f1c005e41e029cd17d3b50d2b088; Squared(45, x45, x46);
    var x47 := 0x28e1375be31cb1ae1f688b30a78a142612c11be688425e7541a11e0da4606d8a; Squared(46, x46, x47);
    var x48 := 0xd42047031cb81c1c68ed5fe057a43372a9c0b08974b979288be356300e5ffbc2; Squared(47, x47, x48);
  }

  lemma From48()
    requires Reaches(48, 0xd42047031cb81c1c68ed5fe057a43372a9c0b08974b979288be356300e5ffbc2)
    ensures Reaches(64, 0xa01bf0fe22d259badb0188eb0d4f67457d4f18472d8c92d997bb1b8975a3b374)
  {
    hide Reaches;
    var x48 := 0xd42047031cb81c1c68ed5fe057a43372a9c0b08974b979288be356300e5ffbc2;
    var x49 := 0x31bd7b084158f6ba941b545b130d03cb6d2feac5d15416f326b7a0f515cd84f9; Squared(48, x48, x49);
    var x50 := 0x68ef15ed9e124c9ffbdbbd99ac06bc4048b605b42b4e76019bee1a9de1b75b95; Squared(49, x49, x50);
    var x51 := 0x49628031ce46212cdd5dd9cfd70d33c9a6394c0ab74190d05952a3e9b65ff837; Squared(50, x50, x51);
    var x52 := 0x4b319aac93723a8f7f11c618c99e300f4de6b5cd4116a32d1f6ad3ce4838d7a5; Squared(51, x51, x52);
    var x53 := 0x466d00241d445e13336d0207add246cd46706019b920cad284fd71a7901c6a4f; Squared(52, x52, x53);
    var x54 := 0x6a6465710c60f0f19ac0c1f6250ec24a4a7f06e30eb223bf402662bcf361131d; Squared(53, x53, x54);
    var x55 := 0xb9227d5f3b2ef4084b82dd4a63d2a841a7253db2bebc85f7db8e726d1a0074d; Squared(54, x54, x55);
    var x56 := 0xe66b48b8599b58b91d297b8a6d5b35f5c296311df6ee8b7c34ffb5e09a4778ff; Squared(55, x55, x56);
    var x57 := 0x37576be02ab8cb2f15cabeda099743f56ea39a4ffe1c73b58250fe79b3f1406c; Squared(56, x56, x57);
    var x58 := 0x84722add50018aba3f1fe362792bdfd6d6b2a7789d1da8c3c6d2477bcd80984c; Squared(57, x57, x58);
    var x59 := 0x5276549558048feb2ccafab1fed0ea158d15eb3f77a9653383a6a19949e7f2fa; Squared(58, x58, x59);
    var x60 := 0xbb1ea8b668f51c81058d8311a51335821e173ebc4d009b58b4c2a903015ff4b1; Squared(59, x59, x60);
    var x61 := 0x3b637d043c7f510b359ec4f09e9a249a15056bb9e04c95ff4146358407f14e9f; Squared(60, x60, x61);
    var x62 := 0xcbba774a610370d6a75bce56e7b875db06b109fce4cd59cc13b713439c923aa5; Squared(61, x61, x62);
    var x63 := 0x855dbae95544ad4a083873e1f35807b44966db39bced8398474f555e782ec8b7; Squared(62, x62, x63);
    var x64 := 0xa01bf0fe22d259badb0188eb0d4f67457d4f18472d8c92d997bb1b8975a3b374; Squared(63, x63, x64);
  }

  lemma From64()
    requires Reaches(64, 0xa01bf0fe22d259badb0188eb0d4f67457d4f18472d8c92d997bb1b8975a3b374)
    ensures Reaches(80, 0x9be9b8ec69acced8d3b2927795ae79c38c7093b602e85016010ebc7812bc70e9)
  {
    hide Reaches;
    var x64 := 0xa01bf0fe22d259badb0188eb0d4f67457d4f18472d8c92d997bb1b8975a3b374;
    var x65 := 0x758588cbc745dc4849f3e8953aab616dd481c086f1efde184bfa862e93d6f8ea; Squared(64, x64, x65);
    var x66 := 0xa730998ef85fabf17000dacf4aa710e4053549fbdccc20e1f25780e20d309459; Squared(65, x65, x66);
    var x67 := 0x414b256718236a45d9de7f7570ac3c1e493f6c41e7c79c7d24fa23ae386c5216; Squared(66, x66, x67);
    var x68 := 0xcd2caaa32e58e2c90f1719cf8d82a4fcbb525bd01c04fb96da4fa28d689f9763; Squared(67, x67, x68);
    var x69 := 0x62761a3db8afbaefb8e36ff7a89f70ca61bd7689747c9046bde17f6057e8e2df; Squared(68, x68, x69);
    var x70 := 0xa1760089a58ad0e0f3ee5628d19813531d7131caccec969e24a7d77cdcd5ef16; Squared(69, x69, x70);
    var x71 := 0x3ccaf641e402dcdccaf658a82a3e2ea746a763271aca777ba7495fcba08eb098; Squared(70, x70, x71);
    var x72 := 0xbb09260b0161365748716d11da8205a4f25b843e840836283428c1c01babdf70; Squared(71, x71, x72);
    var x73 := 0x2c6abea9d20f4273b5852f0f0efcc351ab7ae7e3459273d1f703ad130ee553e8; Squared(72, x72, x73);
    var x74 := 0x2d3be8101abf065baa6543dd8a34c93ebc5ddc86171a7aa9d0ef1046215e6bcb; Squared(73, x73, x74);
    var x75 := 0xa077ecf080bacec0730be9e5b864cbec66d28a9275dbb2d4d463d075307d8dce; Squared(74, x74, x75);
    var x76 := 0x61355ad03da799964d55331704d8d8e6285bce1ea7d3a7719e1a5992c3644503; Squared(75, x75, x76);
    var x77 := 0xec65b0c6870a937e0199f795c858526b510310a023408c9d1db27bca107cdf6a; Squared(76, x76, x77);
    var x78 := 0x9f34aa5cf98eede3e44b6e3af219ebde562264f7aefb38ba8ff309d656cbc3ce; Squared(77, x77, x78);
    var x79 := 0xc969d3142b86a0086c149ae19286bd22327fab2a50890736bf2091e88e7c731f; Squared(78, x78, x79);
    var x80 := 0x9be9b8ec69acced8d3b2927795ae79c38c7093b602e85016010ebc7812bc70e9; Squared(79, x79, x80);
  }

  lemma From80()
    requires Reaches(80, 0x9be9b8ec69acced8d3b2927795ae79c38c7093b602e85016010ebc7812bc70e9)
    ensures Reaches(96, 0x661bd75f7412e247b5bda8b7eba49f0928a32018874e71f66cafe3d4bdd84dc8)
  {
    hide Reaches;
    var x80 := 0x9be9b8ec69acced8d3b2927795ae79c38c7093b602e85016010ebc7812bc70e9;
    var x81 := 0x7385e8039b4e8f519e5784033593eefff5143c99719e1298b663ca58fe7fa669; Squared(80, x80, x81);
    var x82 := 0xcb9f5c1fbe83a83e9dbcae4db811540e9ebde70b1035683ccafde7f8c2fb1b5c; Squared(81, x81, x82);
    var x83 := 0x8a35f984924eaad0207cb7efd8d04ffd74ee9b1f0cdade2f8f45665d45f54184; Squared(82, x82, x83);
    var x84 := 0xfe8aebf1e9a72c740ca23ad86e5c73ba9ec809ab4588ff44a71e88734a7e2367; Squared(83, x83, x84);
    var x85 := 0x3e83f98532f74bd38daa7a635fa21d70ecef8b49307d4fbcbd48a50f9a292034; Squared(84, x84, x85);
    var x86 := 0xc50d559352293a0cceb34365e8263655ad4213c658a0c1a48bffddd1e4f8a7c1; Squared(85, x85, x86);
    var x87 := 0x8a83025b6eb24c7c4ff5cd06b7cc46ee9a439a01835ec55f88f2b3f3eedd9437; Squared(86, x86, x87);
    var x88 := 0xaf386d660b103be065690bbf0b5c2ce703b0803caf9a17830157aaade2fb2d06; Squared(87, x87, x88);
    var x89 := 0x9f61c954ab321c6d040916ef46dc6cde4fb963cbf794e6efe954259e2beb7e06; Squared(88, x88, x89);
    var x90 := 0x83e67fa8ae8d620e3eff6ff24197b59ffc303cbda37e935943e59c14cc68d0f7; Squared(89, x89, x90);
    var x91 := 0xf2df443b444b025455945f30e841a77b76cc6f72340547ca1cafdc5de0f759e6; Squared(90, x90, x91);
    var x92 := 0x9e6c2f563c03c37ce531143a735d5c9c111cbf97b3a079b3fdd9bb87fc82d7c4; Squared(91, x91, x92);
    var x93 := 0x7b81c9157b3ff32e69a1ebc4f3b590a655fc356a278db1f49674dcedb6054292; Squared(92, x92, x93);
    var x94 := 0xa09baacf5c0c1447a9bc1d1fadf1e41dbf043bd0cb464d28023ca40ba4f6f91; Squared(93, x93, x94);
    var x95 := 0xa1bc092011cfd739423b61eb0626e0e5dcf09aa322062490e1c6eb0cb6430671; Squared(94, x94, x95);
    var x96 := 0x661bd75f7412e247b5bda8b7eba49f0928a32018874e71f66cafe3d4bdd84dc8; Squared(95, x95, x96);
  }

  lemma From96()
    requires Reaches(96, 0x661bd75f7412e247b5bda8b7eba49f0928a32018874e71f66cafe3d4bdd84dc8)
    ensures Reaches(112, 0x7d0adf3784d8e82418ce942a73ce06af747abbb4abb7b68f9923cdda8b271ad4)
  {
    hide Reaches;
    var x96 := 0x661bd75f7412e247b5bda8b7eba49f0928a32018874e71f66cafe3d4bdd84dc8;
    var x97 := 0xf94af0b8a84fd354007d6b7a70cdf25b384f8deea7cab86fa266facc38ea1f5d; Squared(96, x96, x97);
    var x98 := 0x15817e66e059b9dbe3b4b46fbdb87fd548d9227da0df3571fe998c10653082ce; Squared(97, x97, x98);
    var x99 := 0x4099949c59c8da8946d9064b501b31465afd8df742c28131b0b1c303cff475df; Squared(98, x98, x99);
    var x100 := 0xf57b61aeb0e4188345ae33f092a910083006fdc53366b0f8a2a6a944902d69f0; Squared(99, x99, x100);
    var x101 := 0xe79c9d1d13bf25529ed598a53f81433c8c274d0fa149ad4ba6993f29605548a4; Squared(100, x100, x101);
    var x102 := 0x933fe0aed463f5b7a29105c9b08157f94ca17da1edc056f6da89f8baf4342636; Squared(101, x101, x102);
    var x103 := 0xaf0ebbb4b9218d1628702fe46dc6d7ea8ad40f2107f9571ae595a21e471eabe0; Squared(102, x102, x103);
    var x104 := 0xcf87f440ef74e980b7aadabeeec80f614e117cd49f878ada495bae100baa18d7; Squared(103, x103, x104);
    var x105 := 0x2c0c39d7d6d901c7b17bbcd65ddd391f44d664f8d3b435bc6aac3f94dfd38a0d; Squared(104, x104, x105);
    var x106 := 0x7bdc911580b5fe80fab7b90766c6b7a0811d55bf47ba58d7552bf93dc6718d98; Squared(105, x105, x106);
    var x107 := 0x915d93271706cbf1acc884b9e80312eeec9fbcfa03957f2509d9882ab820db2e; Squared(106, x106, x107);
    var x108 := 0xd60310b153467257433dbd2e62f55893decfa1782d3a40caf6e9c527955ddff2; Squared(107, x107, x108);
    var x109 := 0xd2f23b44a39173d68ae9b4585dad3695385fefa1bd65be1e49acc8b0d5460a8a; Squared(108, x108, x109);
    var x110 := 0x73599e2e4d65c68f4d69744c91bf437613c57447ef4944666602cd60a276155b; Squared(109, x109, x110);
    var x111 := 0x61242171148a23ead7929f8e70d4b2c3517d676138898c3225676a03d64ed64f; Squared(110, x110, x111);
    var x112 := 0x7d0adf3784d8e82418ce942a73ce06af747abbb4abb7b68f9923cdda8b271ad4; Squared(111, x111, x112);
  }

  lemma From112()
    requires Reaches(112, 0x7d0adf3784d8e82418ce942a73ce06af747abbb4abb7b68f9923cdda8b271ad4)
    ensures Reaches(127, PRIME - 1)
  {
    hide Reaches;
    var x112 := 0x7d0adf3784d8e82418ce942a73ce06af747abbb4abb7b68f9923cdda8b271ad4;
    var x113 := 0x8476617ee1b86cf13b2b2f7dde51e688039f6d99fadaac0bf6058348bc95e665; Squared(112, x112, x113);
    var x114 := 0x8a47e510f0ac4980aab6fe849bc0c5703b118893a1c9ceebf0d74ae03a4122b3; Squared(113, x113, x114);
    var x115 := 0xf79f99329896b586aef6d6ef860aa04f06ddcfd519d9377b364cd1d449fa8b5; Squared(114, x114, x115);
    var x116 := 0x3eeccb7a64cf4bd44c70c8bcf8ce40c47d5e4b7bf9f3a00fab1a411379bacb53; Squared(115, x115, x116);
    var x117 := 0xc5ef0524e1813e9ceee06bcb0cb8f533c68c80522d8d1f2b49c42051573494da; Squared(116, x116, x117);
    var x118 := 0x290350686bcda00f284ffc8205324b4042bf34bf9e86bf68db99fff376f982ab; Squared(117, x117, x118);
    var x119 := 0x578a279f19b735170c75005d673c81b7b24ceaf82e9ab63d183b133eafa671a3; Squared(118, x118, x119);
    var x120 := 0x6797d34131b56343bff4e1522b1acb32b422d66ef75e857b063697e395d7fdf4; Squared(119, x119, x120);
    var x121 := 0x31313d5e2ff93c52cf37d8873d7da7bc2eb10d2865da239751577479858a313d; Squared(120, x120, x121);
    var x122 := 0xa1782987b83113e251197d365464ef667fc0f4ff58ebadf80f0a1ac2f8141c01; Squared(121, x121, x122);
    var x123 := 0x9480407ab52bc0fdd1b61dcd28786e12936c2bbd1284f3e85ea1d8332ab9d6e9; Squared(122, x122, x123);
    var x124 := 0xeb11d5292d8318d5a83896d37afa885d35936a0db7b59432e2645bdd49b00169; Squared(123, x123, x124);
    var x125 := 0xae2c9f339ac6eb726866b5ea8682b02acd0dd17b61d98a3be4d1f3f406a20616; Squared(124, x124, x125);
    var x126 := 0x2eeea1ce0df15abc77cd51b430552acc41df54b19b2d334b685c42b37acdbf7d; Squared(125, x125, x126);
    var x127 := 0xffffffff1c000000000000000000000000000000000000000000000000000000; Squared(126, x126, x127);
  }

  lemma FirstPower()
    ensures Reaches(0, BASE)
  {
    hide Cong;
    assert Pow(2, 0) == 1;
    assert Pow(BASE, 1) == BASE * Pow(BASE, 0);
    CongBy(Pow(BASE, 1), BASE, PRIME, 0);
  }

  lemma LastPower()
    requires Reaches(127, PRIME - 1)
    ensures Cong(Pow(BASE, Pow(2, 127)), -1, PRIME)
  {
    hide Pow, Cong;
    CongBy(PRIME - 1, -1, PRIME, 1);
    Transitive(Pow(BASE, Pow(2, 127)), PRIME - 1, -1, PRIME);
  }

  lemma RootBound()
    ensures PRIME <= Pow(2, 128) * Pow(2, 128)
  {
    PowMul(2, 8, 16);
    assert Pow(2, 8) == 256;
    assert Pow(256, 4) == TWO32;
    PowAdd(256, 4, 4);
    PowAdd(256, 8, 8);
  }

  lemma PrimeIsPrime()
    ensures IsPrime(PRIME) && Cong(Pow(BASE, Pow(2, 127)), -1, PRIME)
  {
    hide Reaches, Pow, Cong, IsPrime;
    FirstPower();
    From0();
    From16();
    From32();
    From48();
    From64();
    From80();
    From96();
    From112();
    LastPower();
    RootBound();
    Proth(PRIME, 128, BASE);
  }

  // ---- the slow inverse modulo this prime ----

  const LIMBS: seq<nat> :=
    [0x1, 0x0, 0x0, 0x0, 0x0,
     0x0, 0x0, 0x3fffc700, 0xffff]

  lemma LimbsValue()
    ensures Modulus(LIMBS) && V(LIMBS) == PRIME && LIMBS[0] == 1
  {
    assert V(LIMBS[9..]) == 0;
    assert LIMBS[8..][1..] == LIMBS[9..];
    assert V(LIMBS[8..]) == 0xffff;
    assert LIMBS[7..][1..] == LIMBS[8..];
    assert V(LIMBS[7..]) == 0x3fffffffc700;
    assert LIMBS[6..][1..] == LIMBS[7..];
    assert V(LIMBS[6..]) == 0xffffffff1c000000000;
    assert LIMBS[5..][1..] == LIMBS[6..];
    assert V(LIMBS[5..]) == 0x3fffffffc700000000000000000;
    assert LIMBS[4..][1..] == LIMBS[5..];
    assert V(LIMBS[4..]) == 0xffffffff1c000000000000000000000000;
    assert LIMBS[3..][1..] == LIMBS[4..];
    assert V(LIMBS[3..]) == 0x3fffffffc700000000000000000000000000000000;
    assert LIMBS[2..][1..] == LIMBS[3..];
    assert V(LIMBS[2..]) == 0xffffffff1c000000000000000000000000000000000000000;
    assert LIMBS[1..][1..] == LIMBS[2..];
    assert V(LIMBS[1..]) == 0x3fffffffc700000000000000000000000000000000000000000000000;
    assert LIMBS[0..][1..] == LIMBS[1..];
    assert V(LIMBS[0..]) == 0xffffffff1c000000000000000000000000000000000000000000000000000001;
    assert LIMBS[0..] == LIMBS;
  }

  lemma NotOne()
    requires Cong(Pow(BASE, Pow(2, 127)), -1, PRIME)
    ensures !Cong(Pow(BASE, TWO30), 1, PRIME)
  {
    hide Pow, Cong;
    TwoTo30();
    PowAdd(2, 30, 97);
    NotMinusOne(PRIME);
    if Cong(Pow(BASE, TWO30), 1, PRIME) {
      PowMul(BASE, TWO30, Pow(2, 97));
      PowCong(Pow(BASE, TWO30), 1, Pow(2, 97), PRIME);
      OnePower(Pow(2, 97));
      Contradicts(Pow(BASE, Pow(2, 127)));
    }
  }

  lemma Contradicts(y: nat)
    requires Cong(y, -1, PRIME)
    ensures !Cong(y, 1, PRIME)
  {}

  /** There is a modulus in range, and a number, for which the slow bn_inverse does not give the inverse. */
  lemma SlowInverseWrong()
    ensures Modulus(LIMBS) && IsPrime(V(LIMBS)) && !Divides(V(LIMBS), BASE)
    ensures !Cong(BASE * (Pow(BASE, InverseExponent(LIMBS)) % V(LIMBS)), 1, V(LIMBS))
  {
    hide Pow, IsPrime, V, InverseExponent, Cong;
    PrimeIsPrime();
    LimbsValue();
    DivModUnique(BASE, PRIME, 0, BASE);
    SlowInverseExact(LIMBS, BASE);
    NotOne();
  }
}
