/** bip39.c: packing entropy into words and unpacking it, bit by bit. */
module Bip39 {
  import opened Arith
  import opened Options
  import opened BitStrings
  import opened Mnemonic

  class Codec {
    const words: seq<seq<u8>>
    const sha: seq<u8> -> Hash

    ghost predicate Valid()
    {
      WordList(words)
    }

    constructor (words: seq<seq<u8>>, sha: seq<u8> -> Hash)
      requires WordList(words)
      ensures Valid() && this.words == words && this.sha == sha
    {
      this.words, this.sha := words, sha;
    }

    /** The inner loop of mnemonic_from_data: eleven bits as an index. */
    method NextIndex(bits: seq<u8>, i: nat) returns (idx: nat)
      requires 11 * i + 11 <= 8 * |bits|
      ensures idx == ReadBits(bits, 11 * i, 11)
    {
      idx := 0;
      var j := 0;
      while j < 11
        invariant 0 <= j <= 11 && idx == ReadBits(bits, 11 * i, j)
      {
        idx := 2 * idx;
        idx := idx + if BitAt(bits, i * 11 + j) then 1 else 0;
        j := j + 1;
      }
    }

    /** mnemonic_from_data: the sentence, which fits the buffer with its final NUL, or 0 for a wrong length
        or too small a buffer. */
    method FromData(data: seq<u8>, buflen: int) returns (r: Option<seq<u8>>)
      requires Valid()
      ensures r == if ValidLength(|data|) && buflen >= MAX_WORDS * (MAX_WORD_LENGTH + 1)
                   then Some(Sentence(words, sha, data)) else None
      ensures r.Some? <==> |data| in {16, 20, 24, 28, 32} && buflen >= 240
      ensures r.Some? ==> |r.value| + 1 <= buflen
    {
      var len := |data|;
      if len % 4 != 0 || len < 16 || len > 32 { return None; }
      if buflen < MAX_WORDS * (MAX_WORD_LENGTH + 1) { return None; }
      var bits := data + [sha(data)[0]];
      ghost var ws := Words(words, sha, data);
      var p := Compose(bits, len * 3 / 4, ws);
      return Some(p);
    }

    /** The outer loop of mnemonic_from_data. */
    method Compose(bits: seq<u8>, mlen: nat, ghost ws: seq<seq<u8>>) returns (p: seq<u8>)
      requires Valid() && 0 < mlen == |ws| && 11 * mlen <= 8 * |bits|
      requires forall i :: 0 <= i < mlen ==> WordOf(bits, ws, i)
      ensures p == Join(ws) && |p| + 1 <= mlen * (MAX_WORD_LENGTH + 1)
    {
      hide ReadBits, Join, BitAt;
      p := [];
      var i := 0;
      assert ws[0..] == ws;
      while i < mlen
        invariant 0 <= i <= mlen
        invariant i < mlen ==> |p| <= i * (MAX_WORD_LENGTH + 1) && p + Join(ws[i..]) == Join(ws)
        invariant i == mlen ==> p == Join(ws) && |p| + 1 <= i * (MAX_WORD_LENGTH + 1)
      {
        assert WordOf(bits, ws, i);
        var idx := NextIndex(bits, i);
        NextWord(ws, i);
        ghost var before := p;
        p := p + words[idx];
        if i < mlen - 1 {
          p := p + [SPACE];
          assert before + (ws[i] + [SPACE] + Join(ws[i + 1..])) == p + Join(ws[i + 1..]);
        }
        i := i + 1;
      }
    }

    /** Word i is the one its eleven bits select. */
    ghost predicate WordOf(bits: seq<u8>, ws: seq<seq<u8>>, i: nat)
      requires i < |ws| && 11 * |ws| <= 8 * |bits|
    {
      ReadBits(bits, 11 * i, 11) < |words| && ws[i] == words[ReadBits(bits, 11 * i, 11)]
    }

    /** The first loop of mnemonic_to_entropy: the number of words. */
    method CountWords(mnemonic: seq<u8>) returns (n: nat)
      ensures n == |Pieces(mnemonic)|
    {
      var i := 0;
      n := 0;
      while i < |mnemonic|
        invariant 0 <= i <= |mnemonic| && n == Spaces(mnemonic[..i])
      {
        assert mnemonic[..i + 1][..i] == mnemonic[..i];
        if mnemonic[i] == SPACE { n := n + 1; }
        i := i + 1;
      }
      assert mnemonic[..|mnemonic|] == mnemonic;
      PieceCount(mnemonic);
      n := n + 1;
    }

    /** The lookup loop: the index of a word. */
    method LookUp(word: seq<u8>) returns (k: Option<nat>)
      requires Valid()
      ensures k == Find(words, word, 0)
    {
      var i := 0;
      while i < |words|
        invariant 0 <= i <= |words| && Find(words, word, i) == Find(words, word, 0)
      {
        if word == words[i] { return Some(i); }
        i := i + 1;
      }
      return None;
    }

    /** The writing loop: eleven bits of an index, from bit bi on. */
    method WriteBits(bits: array<u8>, k: nat, start: nat)
      requires bits.Length == 33 && start + 11 <= 264
      requires forall i :: start <= i < 264 ==> !BitAt(bits[..], i)
      modifies bits
      ensures forall i :: 0 <= i < start ==> (BitAt(bits[..], i) <==> old(BitAt(bits[..], i)))
      ensures forall i :: start <= i < start + 11 ==> (BitAt(bits[..], i) <==> BitSet(k, 10 - (i - start)))
      ensures forall i :: start + 11 <= i < 264 ==> !BitAt(bits[..], i)
    {
      hide BitAt, BitSet;
      var ki := 0;
      while ki < 11
        invariant 0 <= ki <= 11
        invariant forall i :: 0 <= i < start ==> (BitAt(bits[..], i) <==> old(BitAt(bits[..], i)))
        invariant forall i :: start <= i < start + ki ==> (BitAt(bits[..], i) <==> BitSet(k, 10 - (i - start)))
        invariant forall i :: start + ki <= i < 264 ==> !BitAt(bits[..], i)
      {
        var bi := start + ki;
        if BitSet(k, 10 - ki) {
          SetBitAt(bits[..], bi);
          ghost var was := bits[..];
          bits[bi / 8] := SetBit(bits[bi / 8], 7 - bi % 8);
          assert bits[..] == was[bi / 8 := SetBit(was[bi / 8], 7 - bi % 8)];
        }
        ki := ki + 1;
      }
    }

    /** mnemonic_to_entropy: the bits of all words, for 12 to 24 known words with single spaces between them;
        0 for any other text. */
    method ToEntropy(mnemonic: seq<u8>) returns (bitCount: nat, entropy: seq<u8>)
      requires Valid()
      ensures bitCount != 0 <==> Indexes(words, mnemonic).Some?
      ensures bitCount != 0 ==> bitCount == 11 * |Pieces(mnemonic)| && Packs(entropy, Indexes(words, mnemonic).value)
    {
      hide Pieces, Find, WordEnd, BitAt, BitSet, FindAll, WordList;
      var n := CountWords(mnemonic);
      if n < 12 || n > 24 || n % 3 != 0 { return 0, []; }
      hide BitAt, BitSet, Find, Pieces, WordEnd, Packs, PackedBit;
      ghost var ps := Pieces(mnemonic);
      var bits := new u8[33](_ => 0);
      var i, bi := 0, 0;
      ghost var indexes: seq<nat>, finished := [], false;
      NothingPacked(bits[..]);
      assert mnemonic[0..] == mnemonic;
      while i < |mnemonic|
        invariant 0 <= i <= |mnemonic| && bits.Length == 33 && fresh(bits)
        invariant |indexes| <= |ps| && bi == 11 * |indexes|
        invariant if finished then i == |mnemonic| && |indexes| == |ps|
                  else |indexes| < |ps| && ps[|indexes|..] == Pieces(mnemonic[i..])
        invariant forall q :: 0 <= q < |indexes| ==> Find(words, ps[q], 0) == Some(indexes[q])
        invariant Packs(bits[..], indexes)
      {
        NextPiece(mnemonic, ps, i, |indexes|);
        var word, next := ReadWord(mnemonic, i);
        if word.None? {
          TooLong(words, ps[|indexes|]);
          return 0, [];
        }
        var k := LookUp(word.value);
        if k.None? { return 0, []; }
        ghost var was := bits[..];
        RestUnset(was, indexes);
        WriteBits(bits, k.value, bi);
        MorePacked(was, bits[..], indexes, k.value);
        finished := WordEnd(mnemonic, i) == |mnemonic|;
        indexes := indexes + [k.value];
        bi := bi + 11;
        i := next;
      }
      if bi != n * 11 {
        LastEmpty(words, mnemonic, ps, |indexes|);
        return 0, [];
      }
      return n * 11, bits[..];
    }

    /** The word loop: the word at a position, if it is short enough, and where the next one starts. */
    method ReadWord(mnemonic: seq<u8>, start: nat) returns (word: Option<seq<u8>>, next: nat)
      requires start < |mnemonic|
      ensures var end := WordEnd(mnemonic, start);
        word == (if end - start <= MAX_WORD_LENGTH then Some(mnemonic[start..end]) else None)
      ensures var end := WordEnd(mnemonic, start);
        word.Some? ==> next == if end < |mnemonic| then end + 1 else |mnemonic|
    {
      var i, currentWord: seq<u8> := start, [];
      while i < |mnemonic| && mnemonic[i] != SPACE
        invariant start <= i <= |mnemonic| && currentWord == mnemonic[start..i] && |currentWord| <= MAX_WORD_LENGTH
        invariant SPACE !in currentWord && WordEnd(mnemonic, i) == WordEnd(mnemonic, start)
      {
        if |currentWord| >= MAX_WORD_LENGTH { return None, i; }
        assert mnemonic[start..i + 1] == currentWord + [mnemonic[i]];
        currentWord := currentWord + [mnemonic[i]];
        i := i + 1;
      }
      return Some(currentWord), if i < |mnemonic| then i + 1 else i;
    }

    /** mnemonic_check: accepts exactly the sentences of some entropy. */
    method Check(mnemonic: seq<u8>) returns (ok: bool)
      requires Valid()
      ensures ok <==> IsSentence(words, sha, mnemonic)
    {
      hide Sentence, Indexes, BitAt, Packs, ShiftRight, Pieces;
      var seedLen, bits := ToEntropy(mnemonic);
      if seedLen == 0 {
        SentencesAreKnown(words, sha, mnemonic);
        return false;
      }
      CheckedMeans(words, sha, mnemonic, bits);
      var count := seedLen / 11;
      var checksum := bits[count * 4 / 3];
      var hash := sha(bits[..count * 4 / 3]);
      var checksumBits := count / 3;
      return ShiftRight(hash[0], 8 - checksumBits) == ShiftRight(checksum, 8 - checksumBits);
    }
  }

  lemma SentencesAreKnown(words: seq<seq<u8>>, sha: seq<u8> -> Hash, m: seq<u8>)
    requires WordList(words)
    ensures IsSentence(words, sha, m) ==> Indexes(words, m).Some?
  {
    forall data | ValidLength(|data|) && m == Sentence(words, sha, data) ensures Indexes(words, m).Some? {
      IndexesOfSentence(words, sha, data);
    }
  }

  /** The comparison of mnemonic_check holds exactly on sentences of entropy. */
  lemma CheckedMeans(words: seq<seq<u8>>, sha: seq<u8> -> Hash, m: seq<u8>, e: seq<u8>)
    requires WordList(words) && Indexes(words, m).Some? && Packs(e, Indexes(words, m).value)
    ensures var count := |Pieces(m)|; var n := count * 4 / 3;
      && count / 3 <= 8 && n < |e| == 33
      && (ShiftRight(sha(e[..n])[0], 8 - count / 3) == ShiftRight(e[n], 8 - count / 3) <==> IsSentence(words, sha, m))
  {
    hide BitAt, BitSet, ShiftRight, Sentence, Pieces, WordIndex;
    ChecksumGivesSentence(words, sha, m, e);
    var count, n := |Pieces(m)|, |Pieces(m)| * 4 / 3;
    TopBits(sha(e[..n])[0], e[n], 8 - count / 3);
    assert n / 4 == count / 3;
    forall data | ValidLength(|data|) && m == Sentence(words, sha, data) ensures ChecksumHolds(sha, e, n) {
      SentenceHasChecksum(words, sha, data, e);
    }
  }

  ghost predicate IsSentence(words: seq<seq<u8>>, sha: seq<u8> -> Hash, m: seq<u8>)
    requires |words| == 2048
  {
    exists data :: ValidLength(|data|) && m == Sentence(words, sha, data)
  }

  // ---- facts about the parsing loop ----

  lemma NothingPacked(bits: seq<u8>)
    requires |bits| == 33 && forall i :: 0 <= i < 33 ==> bits[i] == 0
    ensures Packs(bits, [])
  {
    forall k | 0 <= k < 264 ensures !BitAt(bits, k) { ZeroBits(7 - k % 8); }
  }

  lemma RestUnset(bits: seq<u8>, indexes: seq<nat>)
    requires Packs(bits, indexes)
    ensures |bits| == 33 && forall i :: 11 * |indexes| <= i < 264 ==> !BitAt(bits, i)
  {
    hide BitAt;
    forall i | 11 * |indexes| <= i < 264 ensures !BitAt(bits, i) { assert !PackedBit(indexes, i); }
  }

  lemma MorePacked(was: seq<u8>, now: seq<u8>, indexes: seq<nat>, k: nat)
    requires Packs(was, indexes) && |now| == 33 && 11 * |indexes| + 11 <= 264
    requires forall i :: 0 <= i < 11 * |indexes| ==> (BitAt(now, i) <==> BitAt(was, i))
    requires forall i :: 11 * |indexes| <= i < 11 * |indexes| + 11 ==>
      (BitAt(now, i) <==> BitSet(k, 10 - (i - 11 * |indexes|)))
    requires forall i :: 11 * |indexes| + 11 <= i < 264 ==> !BitAt(now, i)
    ensures Packs(now, indexes + [k])
  {
    hide BitAt, BitSet;
    var more := indexes + [k];
    forall i | 0 <= i < 264 ensures BitAt(now, i) <==> PackedBit(more, i) {
      assert BitAt(was, i) <==> PackedBit(indexes, i);
      if i < 11 * |indexes| {
        assert more[i / 11] == indexes[i / 11];
      } else if i < 11 * |indexes| + 11 {
        assert i / 11 == |indexes| && i % 11 == i - 11 * |indexes|;
      }
    }
  }

  /** The piece at a position is the word there. */
  lemma NextPiece(m: seq<u8>, ps: seq<seq<u8>>, i: nat, c: nat)
    requires i < |m| && c < |ps| && ps[c..] == Pieces(m[i..])
    ensures var e := WordEnd(m, i);
      && ps[c] == m[i..e] && (e == |m| ==> |ps| == c + 1)
      && (e < |m| ==> c + 1 < |ps| && ps[c + 1..] == Pieces(m[e + 1..]))
  {
    var e, r := WordEnd(m, i), m[i..];
    assert r[0..e - i] == m[i..e];
    WordEndIs(r, 0, e - i);
    assert ps[c..][0] == ps[c] && ps[c..][1..] == ps[c + 1..];
    assert r[..e - i] == m[i..e];
    if e < |m| { assert r[e - i + 1..] == m[e + 1..]; }
  }

  lemma TooLong(words: seq<seq<u8>>, w: seq<u8>)
    requires WordList(words) && |w| > MAX_WORD_LENGTH
    ensures Find(words, w, 0).None?
  {}

  /** After a space at the very end, one empty piece is left, which is no word. */
  lemma LastEmpty(words: seq<seq<u8>>, m: seq<u8>, ps: seq<seq<u8>>, c: nat)
    requires WordList(words) && c < |ps| && ps[c..] == Pieces(m[|m|..])
    ensures Find(words, ps[c], 0).None?
  {
    assert ps[c..][0] == ps[c];
  }

  /** One more word written. */
  lemma NextWord(ws: seq<seq<u8>>, i: nat)
    requires i < |ws|
    ensures Join(ws[i..]) == if i == |ws| - 1 then ws[i] else ws[i] + [SPACE] + Join(ws[i + 1..])
  {
    assert ws[i..][1..] == ws[i + 1..];
  }

  lemma SetBitAt(s: seq<u8>, bi: nat)
    requires bi < 8 * |s|
    ensures var t := s[bi / 8 := SetBit(s[bi / 8], 7 - bi % 8)];
      forall i :: 0 <= i < 8 * |s| ==> (BitAt(t, i) <==> i == bi || BitAt(s, i))
  {
    hide BitSet;
    var t := s[bi / 8 := SetBit(s[bi / 8], 7 - bi % 8)];
    forall i | 0 <= i < 8 * |s| ensures BitAt(t, i) <==> i == bi || BitAt(s, i) {
      SetBitSets(s[bi / 8], 7 - bi % 8, 7 - i % 8);
    }
  }
}
