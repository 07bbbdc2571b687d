/** The key derivation around the mixing, and the parameter check in front of it. */
module ScryptKey {
  import opened Arith
  import opened Options
  import opened ScryptSpec
  import opened Scrypt

  const MAX_MEMORY := 512 * 1024 * 1024
  const MAX_N := 0x10_0000
  const MAX_R := 64
  const MAX_P := 16
  const MIN_KEY := 32
  const MAX_KEY := 1024

  datatype ValidationError =
    | DesiredKeyLengthTooLarge
    | BlockSizeTooLarge
    | InvalidCostFactor
    | Overflow
    | NonPositiveParameter
    | DesiredKeyLengthTooSmall
    | EmptySalt

  datatype ScryptParams = ScryptParams(salt: seq<u8>, desiredKeyLength: int, n: int, p: int, r: int) {

    /** validate: the first rule that fails, if any. */
    function Validate(): Option<ValidationError>
    {
      if !(n > 1 && r > 0 && p > 0) then Some(NonPositiveParameter)
      else if |salt| == 0 then Some(EmptySalt)
      else if desiredKeyLength < MIN_KEY then Some(DesiredKeyLengthTooSmall)
      else if desiredKeyLength > MAX_KEY then Some(DesiredKeyLengthTooLarge)
      else if And(n, n - 1) != 0 || n > MAX_N then Some(InvalidCostFactor)
      else if r > MAX_R || p > MAX_P then Some(BlockSizeTooLarge)
      else if n > MAX_MEMORY / 128 / r then Some(Overflow)
      else None
    }
  }

  /** validate accepts exactly the parameters with a power of two as cost factor, within the limits, whose
      table fits the memory limit. */
  lemma ValidParams(q: ScryptParams)
    ensures q.Validate().None? <==>
      && q.n > 1 && PowerOfTwo(q.n) && q.n <= MAX_N && 1 <= q.r <= MAX_R && 1 <= q.p <= MAX_P
      && |q.salt| > 0 && MIN_KEY <= q.desiredKeyLength <= MAX_KEY && 128 * (q.r * q.n) <= MAX_MEMORY
  {
    if q.n > 1 {
      PowerTest(q.n);
      if q.r > 0 { MemoryRule(q.n, q.r); }
    }
  }

  lemma MemoryRule(n: nat, r: nat)
    requires r > 0
    ensures n <= MAX_MEMORY / 128 / r <==> 128 * (r * n) <= MAX_MEMORY
  {
    var m := MAX_MEMORY / 128;
    DivMod(m, r);
    var d := m / r;
    if n <= d { MulMono(n, d, r, r); } else { MulLess(d, n, r); }
    assert r * n == n * r;
  }

  /** PBKDF2 with one iteration of HMAC-SHA256: password, salt, key length. */
  type Kdf = (seq<u8>, seq<u8>, nat) -> seq<u8>

  ghost predicate KeysHaveLength(kdf: Kdf)
  {
    forall password, salt, length :: |kdf(password, salt, length)| == length
  }

  /** Part i of p parts of equal length. */
  function Part(s: seq<u8>, length: nat, i: nat): seq<u8>
    requires PartEnd(length, i) <= |s|
  {
    PartGrows(length, i);
    s[PartStart(length, i)..PartEnd(length, i)]
  }

  function PartStart(length: nat, i: nat): nat { i * length }

  function PartEnd(length: nat, i: nat): nat { PartStart(length, i + 1) }

  lemma PartGrows(length: nat, i: nat)
    ensures PartEnd(length, i) == PartStart(length, i) + length
  {}

  lemma PartsGrow(length: nat, i: nat, j: nat)
    requires i <= j
    ensures PartStart(length, i) <= PartStart(length, j)
  {
    MulMono(i, j, length, length);
  }

  /** The first k parts have been mixed, the others not. */
  ghost predicate MixedParts(core: Core, n: nat, r: nat, p: nat, from: seq<u8>, to: seq<u8>, k: nat)
    requires r > 0 && n > 0 && k <= p && |from| == |to| == PartStart(128 * r, p)
  {
    forall i :: 0 <= i < p ==> PartMixed(core, n, r, from, to, i, k)
  }

  ghost predicate PartMixed(core: Core, n: nat, r: nat, from: seq<u8>, to: seq<u8>, i: nat, k: nat)
    requires r > 0 && n > 0
  {
    && PartEnd(128 * r, i) <= |from| && PartEnd(128 * r, i) <= |to|
    && if i < k
       then Mix(core, n, r, Part(from, 128 * r, i), Part(to, 128 * r, i))
       else Part(from, 128 * r, i) == Part(to, 128 * r, i)
  }

  /** scrypt: the key of the mixed parts of a first key. */
  method Derive(password: seq<u8>, q: ScryptParams, core: Core, kdf: Kdf)
    returns (r: Option<seq<u8>>, error: Option<ValidationError>, ghost mixed: seq<u8>)
    requires KeysHaveLength(kdf)
    ensures error == q.Validate() && (r.Some? <==> error.None?)
    ensures r.Some? ==>
      && q.r > 0 && q.n > 0 && q.p > 0 && q.desiredKeyLength > 0
      && |mixed| == PartStart(128 * q.r, q.p)
      && MixedParts(core, q.n, q.r, q.p, kdf(password, q.salt, PartStart(128 * q.r, q.p)), mixed, q.p)
      && r.value == kdf(password, mixed, q.desiredKeyLength)
  {
    mixed := [];
    ValidParams(q);
    error := q.Validate();
    if error.Some? { return None, error, mixed; }
    var length := 128 * q.r;
    var first := kdf(password, q.salt, PartStart(length, q.p));
    var b := new u8[PartStart(length, q.p)](i requires 0 <= i < |first| => first[i]);
    assert b[..] == first;
    var xy := new u32[64 * q.r + 16](_ => 0);
    var v := new u32[Slot(q.n, q.r)](_ => 0);
    var scrypt := new Scrypt(q.r, q.n, core);
    MixParts(scrypt, b, v, xy, q.p);
    mixed := b[..];
    return Some(kdf(password, b[..], q.desiredKeyLength)), error, mixed;
  }

  /** The loop of scrypt over the parts of B. */
  method MixParts(scrypt: Scrypt, b: array<u8>, v: array<u32>, xy: array<u32>, p: nat)
    requires scrypt.r > 0 && PowerOfTwo(scrypt.n) && 2 <= scrypt.n <= TWO64
    requires b.Length == PartStart(128 * scrypt.r, p) && Slot(scrypt.n, scrypt.r) <= v.Length
    requires 64 * scrypt.r + 16 <= xy.Length && v != xy
    modifies b, v, xy
    ensures MixedParts(scrypt.core, scrypt.n, scrypt.r, p, old(b[..]), b[..], p)
  {
    hide Mix, PartStart, Slot;
    var length := 128 * scrypt.r;
    var i := 0;
    NoParts(scrypt.core, scrypt.n, scrypt.r, p, b[..]);
    while i < p
      invariant 0 <= i <= p
      invariant MixedParts(scrypt.core, scrypt.n, scrypt.r, p, old(b[..]), b[..], i)
    {
      ghost var s := b[..];
      PartGrows(length, i);
      PartsGrow(length, i + 1, p);
      scrypt.Smix(b, PartStart(length, i), v, xy);
      NextPart(scrypt.core, scrypt.n, scrypt.r, p, old(b[..]), s, b[..], i);
      i := i + 1;
    }
  }

  lemma NoParts(core: Core, n: nat, r: nat, p: nat, s: seq<u8>)
    requires r > 0 && n > 0 && |s| == PartStart(128 * r, p)
    ensures MixedParts(core, n, r, p, s, s, 0)
  {
    forall i | 0 <= i < p ensures PartMixed(core, n, r, s, s, i, 0) { PartsGrow(128 * r, i + 1, p); }
  }

  lemma NextPart(core: Core, n: nat, r: nat, p: nat, from: seq<u8>, s: seq<u8>, t: seq<u8>, i: nat)
    requires r > 0 && n > 0 && i < p && |from| == |s| == |t| == PartStart(128 * r, p)
    requires MixedParts(core, n, r, p, from, s, i)
    requires PartEnd(128 * r, i) <= |s| && Mix(core, n, r, Part(s, 128 * r, i), Part(t, 128 * r, i))
    requires t[..PartStart(128 * r, i)] == s[..PartStart(128 * r, i)]
    requires PartStart(128 * r, i) <= PartEnd(128 * r, i) && t[PartEnd(128 * r, i)..] == s[PartEnd(128 * r, i)..]
    ensures MixedParts(core, n, r, p, from, t, i + 1)
  {
    hide Mix, PartStart;
    assert PartMixed(core, n, r, from, s, i, i);
    var next := i + 1;
    forall k | 0 <= k < p ensures PartMixed(core, n, r, from, t, k, next) {
      assert PartMixed(core, n, r, from, s, k, i);
      PartsGrow(128 * r, k + 1, p);
      if k < i {
        PartsGrow(128 * r, k + 1, i);
        PartOfPrefix(s, t, 128 * r, k, PartStart(128 * r, i));
      } else if k > i {
        PartsGrow(128 * r, i + 1, k);
        PartOfSuffix(s, t, 128 * r, k, PartEnd(128 * r, i));
      }
    }
  }

  lemma PartOfPrefix(s: seq<u8>, t: seq<u8>, length: nat, k: nat, o: nat)
    requires PartEnd(length, k) <= o <= |s| == |t| && s[..o] == t[..o]
    ensures Part(s, length, k) == Part(t, length, k)
  {
    PartGrows(length, k);
    var a, b := PartStart(length, k), PartEnd(length, k);
    assert s[a..b] == s[..o][a..b] && t[a..b] == t[..o][a..b];
  }

  lemma PartOfSuffix(s: seq<u8>, t: seq<u8>, length: nat, k: nat, o: nat)
    requires o <= PartStart(length, k) && PartEnd(length, k) <= |s| == |t| && o <= |s| && s[o..] == t[o..]
    ensures Part(s, length, k) == Part(t, length, k)
  {
    PartGrows(length, k);
    SliceOfSuffix(s, t, o, PartStart(length, k), PartEnd(length, k));
  }

  lemma SliceOfSuffix(s: seq<u8>, t: seq<u8>, o: nat, a: nat, b: nat)
    requires o <= a <= b <= |s| == |t| && s[o..] == t[o..]
    ensures s[a..b] == t[a..b]
  {
    forall i | a <= i < b ensures s[i] == t[i] { assert s[i] == s[o..][i - o] && t[i] == t[o..][i - o]; }
  }

  // ---- the mixed bytes are determined ----

  lemma LowByteUnique(a: u8, b: nat, c: u8, d: nat)
    requires a + 0x100 * b == c + 0x100 * d
    ensures a == c && b == d
  {}

  lemma WordInjective(s: seq<u8>, t: seq<u8>, o: nat)
    requires o + 4 <= |s| && o + 4 <= |t| && Word(s, o) == Word(t, o)
    ensures s[o] == t[o] && s[o + 1] == t[o + 1] && s[o + 2] == t[o + 2] && s[o + 3] == t[o + 3]
  {
    var a1: nat, a2: nat, a3: nat := s[o + 1], s[o + 2], s[o + 3];
    var b1: nat, b2: nat, b3: nat := t[o + 1], t[o + 2], t[o + 3];
    LowByteUnique(s[o], a1 + 0x100 * (a2 + 0x100 * a3), t[o], b1 + 0x100 * (b2 + 0x100 * b3));
    LowByteUnique(s[o + 1], a2 + 0x100 * a3, t[o + 1], b2 + 0x100 * b3);
    LowByteUnique(s[o + 2], a3, t[o + 2], b3);
  }

  /** There is only one result of the mixing. */
  lemma MixUnique(core: Core, n: nat, r: nat, from: seq<u8>, s: seq<u8>, t: seq<u8>)
    requires r > 0 && n > 0 && Mix(core, n, r, from, s) && Mix(core, n, r, from, t)
    ensures s == t
  {
    hide Word, ROMix;
    var u, v := Words(s, 32 * r), Words(t, 32 * r);
    forall i | 0 <= i < 128 * r ensures s[i] == t[i] {
      var k := i / 4;
      assert BlocksAt(u, 0, 2 * r)[k / 16][k % 16] == BlocksAt(v, 0, 2 * r)[k / 16][k % 16];
      assert u[k] == v[k];
      WordInjective(s, t, 4 * k);
    }
  }
}
