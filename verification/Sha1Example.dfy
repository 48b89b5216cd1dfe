// The digest of "abc", worked out: what pins the functions, constants and rotations
// of section 6.1 of FIPS 180-4 that the code and its specification have in common.
module Sha1Example {
  import opened Bytes
  import opened Sha1
  import opened Sha1Core

  const ABC: seq<Octet> := [0x61, 0x62, 0x63]

  function Pick(k: int, a: Word, b: Word, c: Word, d: Word, e: Word, f: Word): Word {
    if k == 0 then a else if k == 1 then b else if k == 2 then c else if k == 3 then d else if k == 4 then e else f
  }

  // The words of the padded message and of its schedule.
  function WordNo(t: int): Word {
    if t < 6 then Pick(t, 0x61626380, 0x00000000, 0x00000000, 0x00000000, 0x00000000, 0x00000000)
    else if t < 12 then Pick(t - 6, 0x00000000, 0x00000000, 0x00000000, 0x00000000, 0x00000000, 0x00000000)
    else if t < 18 then Pick(t - 12, 0x00000000, 0x00000000, 0x00000000, 0x00000018, 0xc2c4c700, 0x00000000)
    else if t < 24 then Pick(t - 18, 0x00000030, 0x85898e01, 0x00000000, 0x00000060, 0x0b131c03, 0x00000030)
    else if t < 30 then Pick(t - 24, 0x85898ec1, 0x16263806, 0x00000000, 0x00000180, 0x2c4c700c, 0x000000f0)
    else if t < 36 then Pick(t - 30, 0x93afb507, 0x5898e048, 0x8e9a9202, 0x00000600, 0xb131c0f0, 0x16263bc6)
    else if t < 42 then Pick(t - 36, 0x4ebed41e, 0x626380a1, 0x16263806, 0x000018c0, 0xd2e138c4, 0x00000f00)
    else if t < 48 then Pick(t - 42, 0x3afb5079, 0x898e04e5, 0xe2ba3c2b, 0x000060c0, 0x053a37cd, 0x74458547)
    else if t < 54 then Pick(t - 48, 0xda9415ed, 0x26380a16, 0x626383a1, 0x4ebf54de, 0x3835b44b, 0x0000f600)
    else if t < 60 then Pick(t - 54, 0x1e84c7a3, 0x98e04d98, 0x651d16a0, 0x62658ca1, 0x458544d6, 0x44584cb7)
    else if t < 66 then Pick(t - 60, 0x7ba06619, 0x6380aea2, 0x0ae55269, 0x627b49a1, 0x7cd45c9d, 0x000f0000)
    else if t < 72 then Pick(t - 66, 0xfb50753a, 0xec6765e8, 0xba3c2be2, 0x0060c000, 0x3a37cd05, 0x458546f4)
    else if t < 78 then Pick(t - 72, 0xb8599dd6, 0x380a1a26, 0x01e02203, 0xe7cc3456, 0xe6e60b69, 0x00f60a00)
    else Pick(t - 78, 0x5795ef4f, 0x822e0879, 0x00000000, 0x00000000, 0x00000000, 0x00000000)
  }

  // The first of the working words after each round, and four that stand for the
  // others at the start.
  function First(t: int): Word {
    if t < 6 then Pick(t, 0x0f4b87c3, 0x40c951d8, 0x62eb73fa, 0xefcdab89, 0x67452301, 0x0116fc33)
    else if t < 12 then Pick(t - 6, 0x8990536d, 0xa1390f08, 0xcdd8e11b, 0xcfd499de, 0x3fc7ca40, 0x993e30c1)
    else if t < 18 then Pick(t - 12, 0x9e8c07d4, 0x4b6ae328, 0x8351f929, 0xfbda9e89, 0x63188fe4, 0x4607b664)
    else if t < 24 then Pick(t - 18, 0x9128f695, 0x196bee77, 0x20bdd62f, 0x4e925823, 0x82aa6728, 0xdc64901d)
    else if t < 30 then Pick(t - 24, 0xfd9e1d7d, 0x1a37b0ca, 0x33a23bfc, 0x21283486, 0xd541f12d, 0xc7567dc6)
    else if t < 36 then Pick(t - 30, 0x48413ba4, 0xbe35fbd5, 0x4aa84d97, 0x8370b52e, 0xc5fbaf5d, 0x1267b407)
    else if t < 42 then Pick(t - 36, 0x3b845d33, 0x046faa0a, 0x2c0ebc11, 0x21796ad4, 0xdcbbb0cb, 0x0f511fd8)
    else if t < 48 then Pick(t - 42, 0xdc63973f, 0x4c986405, 0x32de1cba, 0xfc87dedf, 0x970a0d5c, 0x7f193dc5)
    else if t < 54 then Pick(t - 48, 0xee1b1aaf, 0x40f28e09, 0x1c51e1f2, 0xa01b846c, 0xbead02ca, 0xbaf39337)
    else if t < 60 then Pick(t - 54, 0x120731c5, 0x641db2ce, 0x3847ad66, 0xe490436d, 0x27e9f1d8, 0x7b71f76d)
    else if t < 66 then Pick(t - 60, 0x5e6456af, 0xc846093f, 0xd262ff50, 0x09d785fd, 0x3f52de5a, 0xd756c147)
    else if t < 72 then Pick(t - 66, 0x548c9cb2, 0xb66c020b, 0x6b61c9e1, 0x19dfa7ac, 0x101655f9, 0x0c3df2b4)
    else if t < 78 then Pick(t - 72, 0x78dd4d2b, 0x497093c0, 0x3f2588c2, 0xc199f8c7, 0x39859de7, 0xedb42de4)
    else if t < 84 then Pick(t - 78, 0x11793f6f, 0x5ee76897, 0x63f7dab7, 0xa079b7d9, 0x860d21cc, 0x5738d5e1)
    else Pick(t - 84, 0x42541b35, 0x00000000, 0x00000000, 0x00000000, 0x00000000, 0x00000000)
  }

  // All of them after t rounds.
  function StateNo(t: int): Vars<Word> {
    Vars(First(t + 4), First(t + 3), Rotl(First(t + 2), 30), Rotl(First(t + 1), 30), Rotl(First(t), 30))
  }

  predicate WordOk(t: int) {
    WordNo(t) == Rotl(WordNo(t - 3) ^ WordNo(t - 8) ^ WordNo(t - 14) ^ WordNo(t - 16), 1)
  }

  predicate RoundOk(t: int) { t < 0 || StateNo(t + 1) == Round(SHA, StateNo(t), t, WordNo(t)) }

  lemma Eight(p: int -> bool, lo: int, t: int)
    requires p(lo) && p(lo + 1) && p(lo + 2) && p(lo + 3) && p(lo + 4) && p(lo + 5) && p(lo + 6) && p(lo + 7)
    requires lo <= t < lo + 8
    ensures p(t)
  {
  }

  lemma Words16(t: int)
    requires 16 <= t < 24
    ensures WordOk(t)
  {
    Eight(WordOk, 16, t);
  }

  lemma Words24(t: int)
    requires 24 <= t < 32
    ensures WordOk(t)
  {
    Eight(WordOk, 24, t);
  }

  lemma Words32(t: int)
    requires 32 <= t < 40
    ensures WordOk(t)
  {
    Eight(WordOk, 32, t);
  }

  lemma Words40(t: int)
    requires 40 <= t < 48
    ensures WordOk(t)
  {
    Eight(WordOk, 40, t);
  }

  lemma Words48(t: int)
    requires 48 <= t < 56
    ensures WordOk(t)
  {
    Eight(WordOk, 48, t);
  }

  lemma Words56(t: int)
    requires 56 <= t < 64
    ensures WordOk(t)
  {
    Eight(WordOk, 56, t);
  }

  lemma Words64(t: int)
    requires 64 <= t < 72
    ensures WordOk(t)
  {
    Eight(WordOk, 64, t);
  }

  lemma Words72(t: int)
    requires 72 <= t < 80
    ensures WordOk(t)
  {
    Eight(WordOk, 72, t);
  }

  lemma Rounds0(t: int)
    requires 0 <= t < 8
    ensures RoundOk(t)
  {
    Eight(RoundOk, 0, t);
  }

  lemma Rounds8(t: int)
    requires 8 <= t < 16
    ensures RoundOk(t)
  {
    Eight(RoundOk, 8, t);
  }

  lemma Rounds16(t: int)
    requires 16 <= t < 24
    ensures RoundOk(t)
  {
    Eight(RoundOk, 16, t);
  }

  lemma Rounds24(t: int)
    requires 24 <= t < 32
    ensures RoundOk(t)
  {
    Eight(RoundOk, 24, t);
  }

  lemma Rounds32(t: int)
    requires 32 <= t < 40
    ensures RoundOk(t)
  {
    Eight(RoundOk, 32, t);
  }

  lemma Rounds40(t: int)
    requires 40 <= t < 48
    ensures RoundOk(t)
  {
    Eight(RoundOk, 40, t);
  }

  lemma Rounds48(t: int)
    requires 48 <= t < 56
    ensures RoundOk(t)
  {
    Eight(RoundOk, 48, t);
  }

  lemma Rounds56(t: int)
    requires 56 <= t < 64
    ensures RoundOk(t)
  {
    Eight(RoundOk, 56, t);
  }

  lemma Rounds64(t: int)
    requires 64 <= t < 72
    ensures RoundOk(t)
  {
    Eight(RoundOk, 64, t);
  }

  lemma Rounds72(t: int)
    requires 72 <= t < 80
    ensures RoundOk(t)
  {
    Eight(RoundOk, 72, t);
  }

  lemma AllWords(t: int)
    requires 16 <= t < 80
    ensures WordOk(t)
  {
    if t < 24 { Words16(t); }
    else if t < 32 { Words24(t); }
    else if t < 40 { Words32(t); }
    else if t < 48 { Words40(t); }
    else if t < 56 { Words48(t); }
    else if t < 64 { Words56(t); }
    else if t < 72 { Words64(t); }
    else { Words72(t); }
  }

  lemma AllRounds(t: int)
    requires 0 <= t < 80
    ensures RoundOk(t)
  {
    if t < 8 { Rounds0(t); }
    else if t < 16 { Rounds8(t); }
    else if t < 24 { Rounds16(t); }
    else if t < 32 { Rounds24(t); }
    else if t < 40 { Rounds32(t); }
    else if t < 48 { Rounds40(t); }
    else if t < 56 { Rounds48(t); }
    else if t < 64 { Rounds56(t); }
    else if t < 72 { Rounds64(t); }
    else { Rounds72(t); }
  }

  // The schedule and the rounds of this block are those of the tables.
  ghost predicate IsAbc(block: seq<Word>) { |block| == 16 && forall t :: 0 <= t < 16 ==> block[t] == WordNo(t) }

  lemma {:induction false} WordsAre(block: seq<Word>, t: nat)
    requires IsAbc(block) && t < 80
    ensures W(SHA, block, t) == WordNo(t)
  {
    if t >= 16 {
      WordsAre(block, t - 3);
      WordsAre(block, t - 8);
      WordsAre(block, t - 14);
      WordsAre(block, t - 16);
      AllWords(t);
    }
  }

  lemma {:induction false} StatesAre(block: seq<Word>, t: nat)
    requires IsAbc(block) && t <= 80
    ensures Rounds(SHA, IV, block, t) == StateNo(t)
  {
    if t > 0 {
      StatesAre(block, t - 1);
      WordsAre(block, t - 1);
      AllRounds(t - 1);
    }
  }

  lemma BytesOf24()
    ensures Be(24, 8) == [0, 0, 0, 0, 0, 0, 0, 24]
  {
    assert Be(0, 7) == [0, 0, 0, 0, 0, 0, 0] by { assert Be(0, 4) == [0, 0, 0, 0]; }
  }

  lemma PaddedAbc()
    ensures Pad(ABC) == ABC + [0x80] + Zeros(59) + [24]
  {
    BytesOf24();
    assert (55 - |ABC|) % 64 == 52;
    assert BitLength(24) == Zeros(7) + [24];
  }

  lemma BlockOfAbc()
    ensures |Pad(ABC)| == 64 && IsAbc(LoadAll(Pad(ABC)))
  {
    PaddedAbc();
    var p := Pad(ABC);
    assert p[..4] == [0x61, 0x62, 0x63, 0x80] && p[60..] == [0, 0, 0, 24];
    assert forall t :: 0 < t < 15 ==> p[4 * t..4 * t + 4] == [0, 0, 0, 0];
    assert Load([0, 0, 0, 0]) == 0 && Load([0, 0, 0, 24]) == 24 && Load([0x61, 0x62, 0x63, 0x80]) == 0x61626380;
    forall t | 0 <= t < 16
      ensures LoadAll(p)[t] == WordNo(t)
    {
    }
  }

  // The known digest.
  lemma DigestOfAbc()
    ensures Digest(ABC) == [0xa9, 0x99, 0x3e, 0x36, 0x47, 0x06, 0x81, 0x6a, 0xba, 0x3e,
                            0x25, 0x71, 0x78, 0x50, 0xc2, 0x6c, 0x9c, 0xd0, 0xd8, 0x9d]
  {
    BlockOfAbc();
    OneBlock(IV, Pad(ABC));
    StatesAre(LoadAll(Pad(ABC)), 80);
  }
}
