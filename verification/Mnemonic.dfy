/** BIP-39: sentences of words for entropy with a checksum, and back. */
module Mnemonic {
  import opened Arith
  import opened Digits
  import opened Options
  import opened BitStrings

  const SPACE: u8 := 0x20
  const MAX_WORDS := 24
  const MAX_WORD_LENGTH := 9

  type Hash = h: seq<u8> | |h| == 32 witness seq(32, _ => 0)

  // ---- words and sentences ----

  /** 2048 different words without spaces, short enough. */
  ghost predicate WordList(words: seq<seq<u8>>)
  {
    && |words| == 2048
    && (forall i :: 0 <= i < 2048 ==> 0 < |words[i]| <= MAX_WORD_LENGTH && SPACE !in words[i])
    && forall i, j :: 0 <= i < j < 2048 ==> words[i] != words[j]
  }

  /** Where the word at a position ends. */
  function WordEnd(m: seq<u8>, i: nat): (e: nat)
    requires i <= |m|
    ensures i <= e <= |m| && SPACE !in m[i..e] && (e < |m| ==> m[e] == SPACE)
    decreases |m| - i
  {
    if i == |m| || m[i] == SPACE then i else
    var e := WordEnd(m, i + 1);
    assert m[i..e] == [m[i]] + m[i + 1..e];
    e
  }

  /** The parts between spaces, empty ones included. */
  function Pieces(m: seq<u8>): (r: seq<seq<u8>>)
    ensures |r| > 0
    decreases |m|
  {
    var e := WordEnd(m, 0);
    if e == |m| then [m] else [m[..e]] + Pieces(m[e + 1..])
  }

  /** Words with single spaces between them. */
  function Join(ws: seq<seq<u8>>): seq<u8>
    requires |ws| > 0
  {
    if |ws| == 1 then ws[0] else ws[0] + [SPACE] + Join(ws[1..])
  }

  lemma {:induction false} JoinOfPieces(m: seq<u8>)
    ensures Join(Pieces(m)) == m
    decreases |m|
  {
    var e := WordEnd(m, 0);
    if e < |m| {
      JoinOfPieces(m[e + 1..]);
      assert Pieces(m)[1..] == Pieces(m[e + 1..]);
      assert m == m[..e] + [SPACE] + m[e + 1..];
    }
  }

  lemma {:induction false} WordEndIs(m: seq<u8>, i: nat, e: nat)
    requires i <= e <= |m| && SPACE !in m[i..e] && (e < |m| ==> m[e] == SPACE)
    ensures WordEnd(m, i) == e
    decreases e - i
  {
    if i < e {
      assert m[i] == m[i..e][0];
      assert m[i + 1..e] == m[i..e][1..];
      WordEndIs(m, i + 1, e);
    }
  }

  lemma {:induction false} PiecesOfJoin(ws: seq<seq<u8>>)
    requires |ws| > 0 && forall i :: 0 <= i < |ws| ==> SPACE !in ws[i]
    ensures Pieces(Join(ws)) == ws
  {
    hide WordEnd;
    var m, e := Join(ws), |ws[0]|;
    assert m[0..e] == ws[0];
    WordEndIs(m, 0, e);
    if |ws| > 1 {
      PiecesOfJoin(ws[1..]);
      assert m[e + 1..] == Join(ws[1..]);
      assert m[..e] == ws[0];
    }
  }

  function Spaces(m: seq<u8>): nat
  {
    if |m| == 0 then 0 else Spaces(m[..|m| - 1]) + if m[|m| - 1] == SPACE then 1 else 0
  }

  lemma {:induction false} SpacesConcat(a: seq<u8>, b: seq<u8>)
    ensures Spaces(a + b) == Spaces(a) + Spaces(b)
  {
    if |b| == 0 {
      assert a + b == a;
    } else {
      SpacesConcat(a, b[..|b| - 1]);
      assert (a + b)[..|a + b| - 1] == a + b[..|b| - 1];
    }
  }

  lemma {:induction false} NoSpaces(m: seq<u8>)
    requires SPACE !in m
    ensures Spaces(m) == 0
  {
    if |m| > 0 { NoSpaces(m[..|m| - 1]); }
  }

  lemma {:induction false} PieceCount(m: seq<u8>)
    ensures |Pieces(m)| == Spaces(m) + 1
    decreases |m|
  {
    var e := WordEnd(m, 0);
    assert m[0..e] == m[..e];
    NoSpaces(m[..e]);
    if e < |m| {
      PieceCount(m[e + 1..]);
      assert m == m[..e] + ([SPACE] + m[e + 1..]);
      SpacesConcat(m[..e], [SPACE] + m[e + 1..]);
      SpacesConcat([SPACE], m[e + 1..]);
      assert Spaces([SPACE]) == 1 by { assert [SPACE][..0] == []; }
    } else {
      assert m[..e] == m;
    }
  }

  // ---- looking words up ----

  /** The index of a word, from k on. */
  function Find(words: seq<seq<u8>>, w: seq<u8>, k: nat): (r: Option<nat>)
    requires k <= |words|
    ensures r.Some? ==> k <= r.value < |words| && words[r.value] == w
    ensures r.None? ==> forall i :: k <= i < |words| ==> words[i] != w
    decreases |words| - k
  {
    if k == |words| then None else if words[k] == w then Some(k) else Find(words, w, k + 1)
  }

  lemma {:induction false} FindIs(words: seq<seq<u8>>, k: nat, i: nat)
    requires WordList(words) && k <= i < 2048
    ensures Find(words, words[i], k) == Some(i)
    decreases i - k
  {
    if k < i { FindIs(words, k + 1, i); }
  }

  function FindAll(words: seq<seq<u8>>, ws: seq<seq<u8>>): (r: Option<seq<nat>>)
    ensures r.Some? ==> |r.value| == |ws| && forall i :: 0 <= i < |ws| ==> Find(words, ws[i], 0) == Some(r.value[i])
    ensures r.None? ==> exists i :: 0 <= i < |ws| && Find(words, ws[i], 0).None?
  {
    if forall i :: 0 <= i < |ws| ==> Find(words, ws[i], 0).Some?
    then Some(seq(|ws|, i requires 0 <= i < |ws| => Find(words, ws[i], 0).value)) else None
  }

  // ---- sentences for entropy ----

  /** 16, 20, 24, 28 or 32 bytes. */
  predicate ValidLength(n: nat)
  {
    n % 4 == 0 && 16 <= n <= 32
  }

  /** The entropy and the first byte of its hash. */
  function WithChecksum(sha: seq<u8> -> Hash, data: seq<u8>): (b: seq<u8>)
    ensures |b| == |data| + 1
  {
    data + [sha(data)[0]]
  }

  function WordIndex(sha: seq<u8> -> Hash, data: seq<u8>, i: nat): (k: nat)
    requires ValidLength(|data|) && i < |data| * 3 / 4
    ensures k < 2048
  {
    EightBits();
    ReadBits(WithChecksum(sha, data), 11 * i, 11)
  }

  function Words(words: seq<seq<u8>>, sha: seq<u8> -> Hash, data: seq<u8>): (ws: seq<seq<u8>>)
    requires |words| == 2048 && ValidLength(|data|)
    ensures |ws| == |data| * 3 / 4
  {
    seq(|data| * 3 / 4, i requires 0 <= i < |data| * 3 / 4 => words[WordIndex(sha, data, i)])
  }

  /** The sentence: eleven bits a word. */
  function Sentence(words: seq<seq<u8>>, sha: seq<u8> -> Hash, data: seq<u8>): seq<u8>
    requires |words| == 2048 && ValidLength(|data|)
  {
    Join(Words(words, sha, data))
  }

  // ---- entropy of sentences ----

  predicate ValidCount(n: nat)
  {
    12 <= n <= 24 && n % 3 == 0
  }

  /** The word indexes of a sentence of known words. */
  function Indexes(words: seq<seq<u8>>, m: seq<u8>): Option<seq<nat>>
  {
    if ValidCount(|Pieces(m)|) then FindAll(words, Pieces(m)) else None
  }

  /** Bit k of the indexes written in eleven bits each. */
  predicate PackedBit(indexes: seq<nat>, k: nat)
  {
    k < 11 * |indexes| && BitSet(indexes[k / 11], 10 - k % 11)
  }

  /** 33 bytes with the bits of the indexes, then zeros. */
  ghost predicate Packs(e: seq<u8>, indexes: seq<nat>)
  {
    |e| == 33 && forall k :: 0 <= k < 264 ==> (BitAt(e, k) <==> PackedBit(indexes, k))
  }

  /** The first k indexes of a sentence. */
  function FirstIndexes(sha: seq<u8> -> Hash, data: seq<u8>, k: nat): (r: seq<nat>)
    requires ValidLength(|data|) && k <= |data| * 3 / 4
    ensures |r| == k && forall i :: 0 <= i < k ==> r[i] == WordIndex(sha, data, i)
  {
    seq(k, i requires 0 <= i < k => WordIndex(sha, data, i))
  }

  /** The indexes of a sentence are the digits, in base 2048, of the number its entropy and the first bits of the
      checksum stand for. */
  lemma SentenceNumber(sha: seq<u8> -> Hash, data: seq<u8>)
    requires ValidLength(|data|)
    ensures var count, spare := |data| * 3 / 4, Pow(2, 8 - |data| / 4);
      BigEndian(2048, FirstIndexes(sha, data, count)) == BigEndian(256, WithChecksum(sha, data)) / spare
  {
    hide *;
    var q, b := |data| / 4, WithChecksum(sha, data);
    Quarters(data);
    IndexesRead(sha, data, 3 * q);
    ReadIsQuotient(b, 33 * q, 8 - q);
    ReadOfBytes(b, |b|);
    assert b[..|b|] == b;
  }

  lemma Quarters(data: seq<u8>)
    requires ValidLength(|data|)
    ensures var q := |data| / 4; |data| == 4 * q && 4 <= q <= 8 && |data| * 3 / 4 == 3 * q
  {}

  lemma {:induction false} IndexesRead(sha: seq<u8> -> Hash, data: seq<u8>, k: nat)
    requires ValidLength(|data|) && k <= |data| * 3 / 4
    ensures BigEndian(2048, FirstIndexes(sha, data, k)) == ReadBits(WithChecksum(sha, data), 0, 11 * k)
  {
    hide ReadBits;
    var b := WithChecksum(sha, data);
    if k > 0 {
      IndexesRead(sha, data, k - 1);
      EightBits();
      ReadOfParts(b, 0, 11 * (k - 1), 11);
      assert FirstIndexes(sha, data, k)[..k - 1] == FirstIndexes(sha, data, k - 1);
    } else {
      NoBits(b);
    }
  }

  /** The sentence of entropy data consists of its words. */
  lemma IndexesOfSentence(words: seq<seq<u8>>, sha: seq<u8> -> Hash, data: seq<u8>)
    requires WordList(words) && ValidLength(|data|)
    ensures Indexes(words, Sentence(words, sha, data)).Some?
    ensures |Indexes(words, Sentence(words, sha, data)).value| == |data| * 3 / 4
    ensures forall i :: 0 <= i < |data| * 3 / 4 ==>
      Indexes(words, Sentence(words, sha, data)).value[i] == WordIndex(sha, data, i)
  {
    hide WordIndex;
    var ws := Words(words, sha, data);
    PiecesOfJoin(ws);
    forall i | 0 <= i < |ws| ensures Find(words, ws[i], 0) == Some(WordIndex(sha, data, i)) {
      FindIs(words, 0, WordIndex(sha, data, i));
    }
  }

  /** Read as digits of base 2048, the places of a sentence's words in the list are the entropy and its checksum. */
  lemma SentenceExact(words: seq<seq<u8>>, sha: seq<u8> -> Hash, data: seq<u8>) returns (indexes: seq<nat>)
    requires WordList(words) && |data| in {16, 20, 24, 28, 32}
    ensures var ws := Pieces(Sentence(words, sha, data));
      && |indexes| == |ws| == |data| * 3 / 4
      && (forall i :: 0 <= i < |ws| ==> indexes[i] < 2048 && ws[i] == words[indexes[i]])
      && BigEndian(2048, indexes) == BigEndian(256, data + [sha(data)[0]]) / Pow(2, 8 - |data| / 4)
  {
    hide *;
    SentenceOfWords(words, sha, data);
    indexes := FirstIndexes(sha, data, |data| * 3 / 4);
    SentenceNumber(sha, data);
    Checksummed(sha, data);
  }

  lemma Checksummed(sha: seq<u8> -> Hash, data: seq<u8>)
    ensures WithChecksum(sha, data) == data + [sha(data)[0]]
  {}

  lemma SentenceOfWords(words: seq<seq<u8>>, sha: seq<u8> -> Hash, data: seq<u8>)
    requires WordList(words) && |data| in {16, 20, 24, 28, 32}
    ensures ValidLength(|data|) && Pieces(Sentence(words, sha, data)) == Words(words, sha, data)
    ensures forall i :: 0 <= i < |data| * 3 / 4 ==>
      Words(words, sha, data)[i] == words[FirstIndexes(sha, data, |data| * 3 / 4)[i]]
  {
    hide WordIndex;
    PiecesOfJoin(Words(words, sha, data));
  }

  /** The bits of the entropy are those of its word indexes. */
  lemma PackedIndexes(sha: seq<u8> -> Hash, data: seq<u8>, indexes: seq<nat>, k: nat)
    requires ValidLength(|data|) && |indexes| == |data| * 3 / 4
    requires forall i :: 0 <= i < |indexes| ==> indexes[i] == WordIndex(sha, data, i)
    requires k < 11 * |indexes|
    ensures k < 8 * (|data| + 1) && (PackedBit(indexes, k) <==> BitAt(WithChecksum(sha, data), k))
  {
    hide BitAt, ReadBits, WithChecksum;
    var b, i, t := WithChecksum(sha, data), k / 11, k % 11;
    BitsOfRead(b, 11 * i, 11, t);
    assert indexes[i] == WordIndex(sha, data, i) == ReadBits(b, 11 * i, 11);
    assert 11 * i + t == k;
  }

  /** Unpacking the indexes of a sentence gives back the entropy as its leading bytes. */
  lemma Recovered(words: seq<seq<u8>>, sha: seq<u8> -> Hash, data: seq<u8>, e: seq<u8>)
    requires WordList(words) && ValidLength(|data|)
    requires Indexes(words, Sentence(words, sha, data)).Some?
      && Packs(e, Indexes(words, Sentence(words, sha, data)).value)
    ensures e[..|data|] == data
  {
    hide BitSet, Sentence, Indexes, WordIndex;
    IndexesOfSentence(words, sha, data);
    var indexes := Indexes(words, Sentence(words, sha, data)).value;
    forall k | 0 <= k < 8 * |data| ensures BitAt(e[..|data|], k) <==> BitAt(data, k) {
      PackedIndexes(sha, data, indexes, k);
      assert BitAt(e, k) <==> PackedBit(indexes, k);
    }
    SameBytes(e[..|data|], data);
  }

  /** The top bits of the byte after the entropy agree with those of the hash. */
  predicate ChecksumHolds(sha: seq<u8> -> Hash, e: seq<u8>, n: nat)
    requires n < |e| && n % 4 == 0 && n <= 32
  {
    forall j :: 8 - n / 4 <= j < 8 ==> (BitSet(e[n], j) <==> BitSet(sha(e[..n])[0], j))
  }

  /** With the checksum, the unpacked bits are those of the entropy with its hash. */
  lemma SameAsWithChecksum(sha: seq<u8> -> Hash, e: seq<u8>, n: nat, k: nat)
    requires |e| == 33 && ValidLength(n) && ChecksumHolds(sha, e, n) && k < 8 * n + n / 4
    ensures BitAt(e, k) <==> BitAt(WithChecksum(sha, e[..n]), k)
  {
    hide BitSet;
    if k >= 8 * n {
      assert k / 8 == n;
      var j := 7 - k % 8;
      assert BitSet(e[n], j) <==> BitSet(sha(e[..n])[0], j);
    }
  }

  /** Indexes with a checksum that holds are those of the entropy. */
  lemma ChecksumGivesSentence(words: seq<seq<u8>>, sha: seq<u8> -> Hash, m: seq<u8>, e: seq<u8>)
    requires WordList(words) && Indexes(words, m).Some? && Packs(e, Indexes(words, m).value)
    ensures var n := |Pieces(m)| * 4 / 3;
      ValidLength(n) && (ChecksumHolds(sha, e, n) ==> m == Sentence(words, sha, e[..n]))
  {
    var indexes, n := Indexes(words, m).value, |Pieces(m)| * 4 / 3;
    if ChecksumHolds(sha, e, n) {
      var data := e[..n];
      var ws := Words(words, sha, data);
      forall i | 0 <= i < |ws| ensures ws[i] == Pieces(m)[i] {
        IndexIs(sha, e, n, indexes, i);
      }
      assert ws == Pieces(m);
      JoinOfPieces(m);
    }
  }

  lemma IndexIs(sha: seq<u8> -> Hash, e: seq<u8>, n: nat, indexes: seq<nat>, i: nat)
    requires |e| == 33 && ValidLength(n) && ChecksumHolds(sha, e, n) && |indexes| == n * 3 / 4 && i < |indexes|
    requires Packs(e, indexes) && indexes[i] < 2048
    ensures WordIndex(sha, e[..n], i) == indexes[i]
  {
    hide BitSet, BitAt, ReadBits, ChecksumHolds, WithChecksum;
    var b := WithChecksum(sha, e[..n]);
    forall t | 0 <= t < 11 ensures BitInPlace(b, 11 * i, 11, indexes[i], t) {
      var k := 11 * i + t;
      assert k / 11 == i && k % 11 == t;
      SameAsWithChecksum(sha, e, n, k);
      assert BitAt(e, k) <==> PackedBit(indexes, k);
    }
    EightBits();
    ReadOfBits(b, 11 * i, 11, indexes[i]);
  }

  /** The sentence of entropy has a checksum that holds. */
  lemma SentenceHasChecksum(words: seq<seq<u8>>, sha: seq<u8> -> Hash, data: seq<u8>, e: seq<u8>)
    requires WordList(words) && ValidLength(|data|)
    requires Indexes(words, Sentence(words, sha, data)).Some?
      && Packs(e, Indexes(words, Sentence(words, sha, data)).value)
    ensures |Pieces(Sentence(words, sha, data))| * 4 / 3 == |data| && ChecksumHolds(sha, e, |data|)
  {
    hide BitSet, Sentence, WordIndex;
    IndexesOfSentence(words, sha, data);
    Recovered(words, sha, data, e);
    var n, indexes := |data|, Indexes(words, Sentence(words, sha, data)).value;
    forall j | 8 - n / 4 <= j < 8 ensures BitSet(e[n], j) <==> BitSet(sha(e[..n])[0], j) {
      var k := 8 * n + 7 - j;
      assert k / 8 == n && k % 8 == 7 - j;
      PackedIndexes(sha, data, indexes, k);
      assert BitAt(e, k) <==> PackedBit(indexes, k);
    }
  }
}
