/**
 Published examples: appendix A of FIPS PUB 180-1 (the digest of "abc") and section 1.3 of RFC 6455 (a
 key and its accept value). They fix every constant and function of the digest independently of the code
 that shares them.
 */
module Sha1Vectors {
  import opened Bytes
  import opened Sha1Spec
  import opened Wire
  import opened Generator
  import Handshake

  lemma FirstWords(block: seq<Word>)
    requires |block| == 16
    ensures Schedule(block, 0) == block[0] && Schedule(block, 1) == block[1]
    ensures Schedule(block, 2) == block[2] && Schedule(block, 3) == block[3]
    ensures Schedule(block, 4) == block[4] && Schedule(block, 5) == block[5]
    ensures Schedule(block, 6) == block[6] && Schedule(block, 7) == block[7]
    ensures Schedule(block, 8) == block[8] && Schedule(block, 9) == block[9]
    ensures Schedule(block, 10) == block[10] && Schedule(block, 11) == block[11]
    ensures Schedule(block, 12) == block[12] && Schedule(block, 13) == block[13]
    ensures Schedule(block, 14) == block[14] && Schedule(block, 15) == block[15]
  {
  }

  lemma OneMoreWord(block: seq<Word>, t: nat)
    requires |block| == 16 && t >= 16
    ensures Follows(block, t)
  {
    hide Mix;
  }

  /** The recurrence for sixteen words in a row. */
  lemma MoreWords(block: seq<Word>, t: nat)
    requires |block| == 16 && t >= 16
    ensures Follows(block, t) && Follows(block, t + 1) && Follows(block, t + 2) && Follows(block, t + 3)
    ensures Follows(block, t + 4) && Follows(block, t + 5) && Follows(block, t + 6) && Follows(block, t + 7)
    ensures Follows(block, t + 8) && Follows(block, t + 9) && Follows(block, t + 10) && Follows(block, t + 11)
    ensures Follows(block, t + 12) && Follows(block, t + 13) && Follows(block, t + 14) && Follows(block, t + 15)
  {
    hide Follows;
    OneMoreWord(block, t);
    OneMoreWord(block, t + 1);
    OneMoreWord(block, t + 2);
    OneMoreWord(block, t + 3);
    OneMoreWord(block, t + 4);
    OneMoreWord(block, t + 5);
    OneMoreWord(block, t + 6);
    OneMoreWord(block, t + 7);
    OneMoreWord(block, t + 8);
    OneMoreWord(block, t + 9);
    OneMoreWord(block, t + 10);
    OneMoreWord(block, t + 11);
    OneMoreWord(block, t + 12);
    OneMoreWord(block, t + 13);
    OneMoreWord(block, t + 14);
    OneMoreWord(block, t + 15);
  }

  ghost predicate Follows(block: seq<Word>, t: nat)
    requires |block| == 16 && t >= 16
  {
    Schedule(block, t)
    == Mix(Schedule(block, t - 3), Schedule(block, t - 8), Schedule(block, t - 14), Schedule(block, t - 16))
  }

  lemma OneMoreRound(h: Chain, block: seq<Word>, t: nat)
    requires |block| == 16
    ensures Advances(h, block, t)
  {
    hide Round, Schedule;
  }

  ghost predicate Advances(h: Chain, block: seq<Word>, t: nat)
    requires |block| == 16
  {
    Rounds(h, block, t + 1) == Round(t, Rounds(h, block, t), Schedule(block, t))
  }

  /** Twenty rounds in a row. */
  lemma TwentyRounds(h: Chain, block: seq<Word>, t: nat)
    requires |block| == 16
    ensures Advances(h, block, t) && Advances(h, block, t + 1) && Advances(h, block, t + 2) && Advances(h, block, t + 3)
    ensures Advances(h, block, t + 4) && Advances(h, block, t + 5) && Advances(h, block, t + 6) && Advances(h, block, t + 7)
    ensures Advances(h, block, t + 8) && Advances(h, block, t + 9) && Advances(h, block, t + 10) && Advances(h, block, t + 11)
    ensures Advances(h, block, t + 12) && Advances(h, block, t + 13) && Advances(h, block, t + 14) && Advances(h, block, t + 15)
    ensures Advances(h, block, t + 16) && Advances(h, block, t + 17) && Advances(h, block, t + 18) && Advances(h, block, t + 19)
  {
    hide Advances;
    OneMoreRound(h, block, t);
    OneMoreRound(h, block, t + 1);
    OneMoreRound(h, block, t + 2);
    OneMoreRound(h, block, t + 3);
    OneMoreRound(h, block, t + 4);
    OneMoreRound(h, block, t + 5);
    OneMoreRound(h, block, t + 6);
    OneMoreRound(h, block, t + 7);
    OneMoreRound(h, block, t + 8);
    OneMoreRound(h, block, t + 9);
    OneMoreRound(h, block, t + 10);
    OneMoreRound(h, block, t + 11);
    OneMoreRound(h, block, t + 12);
    OneMoreRound(h, block, t + 13);
    OneMoreRound(h, block, t + 14);
    OneMoreRound(h, block, t + 15);
    OneMoreRound(h, block, t + 16);
    OneMoreRound(h, block, t + 17);
    OneMoreRound(h, block, t + 18);
    OneMoreRound(h, block, t + 19);
  }

  lemma NoRounds(h: Chain, block: seq<Word>)
    requires |block| == 16
    ensures Rounds(h, block, 0) == h
  {
  }

  // ------------------------------------------------------------------
  // Appendix A of FIPS PUB 180-1: the block of "abc"
  // ------------------------------------------------------------------

  predicate IsAbc(block: seq<Word>)
  {
    |block| == 16
    && block[0] == Word(0x61626380) && block[1] == Word(0x00000000) && block[2] == Word(0x00000000) && block[3] == Word(0x00000000)
    && block[4] == Word(0x00000000) && block[5] == Word(0x00000000) && block[6] == Word(0x00000000) && block[7] == Word(0x00000000)
    && block[8] == Word(0x00000000) && block[9] == Word(0x00000000) && block[10] == Word(0x00000000) && block[11] == Word(0x00000000)
    && block[12] == Word(0x00000000) && block[13] == Word(0x00000000) && block[14] == Word(0x00000000) && block[15] == Word(0x00000018)
  }

  lemma AbcWords0(block: seq<Word>)
    requires IsAbc(block)
    ensures |block| == 16
    ensures Schedule(block, 0) == Word(0x61626380) && Schedule(block, 1) == Word(0x00000000)
    ensures Schedule(block, 2) == Word(0x00000000) && Schedule(block, 3) == Word(0x00000000)
    ensures Schedule(block, 4) == Word(0x00000000) && Schedule(block, 5) == Word(0x00000000)
    ensures Schedule(block, 6) == Word(0x00000000) && Schedule(block, 7) == Word(0x00000000)
    ensures Schedule(block, 8) == Word(0x00000000) && Schedule(block, 9) == Word(0x00000000)
    ensures Schedule(block, 10) == Word(0x00000000) && Schedule(block, 11) == Word(0x00000000)
    ensures Schedule(block, 12) == Word(0x00000000) && Schedule(block, 13) == Word(0x00000000)
    ensures Schedule(block, 14) == Word(0x00000000) && Schedule(block, 15) == Word(0x00000018)
  {
    hide Schedule;
    FirstWords(block);
  }

  lemma AbcWords16(block: seq<Word>)
    requires IsAbc(block)
    ensures Schedule(block, 16) == Word(0xc2c4c700) && Schedule(block, 17) == Word(0x00000000)
    ensures Schedule(block, 18) == Word(0x00000030) && Schedule(block, 19) == Word(0x85898e01)
    ensures Schedule(block, 20) == Word(0x00000000) && Schedule(block, 21) == Word(0x00000060)
    ensures Schedule(block, 22) == Word(0x0b131c03) && Schedule(block, 23) == Word(0x00000030)
    ensures Schedule(block, 24) == Word(0x85898ec1) && Schedule(block, 25) == Word(0x16263806)
    ensures Schedule(block, 26) == Word(0x00000000) && Schedule(block, 27) == Word(0x00000180)
    ensures Schedule(block, 28) == Word(0x2c4c700c) && Schedule(block, 29) == Word(0x000000f0)
    ensures Schedule(block, 30) == Word(0x93afb507) && Schedule(block, 31) == Word(0x5898e048)
  {
    hide Schedule;
    AbcWords0(block);
    MoreWords(block, 16);
  }

  lemma AbcWords32(block: seq<Word>)
    requires IsAbc(block)
    ensures Schedule(block, 32) == Word(0x8e9a9202) && Schedule(block, 33) == Word(0x00000600)
    ensures Schedule(block, 34) == Word(0xb131c0f0) && Schedule(block, 35) == Word(0x16263bc6)
    ensures Schedule(block, 36) == Word(0x4ebed41e) && Schedule(block, 37) == Word(0x626380a1)
    ensures Schedule(block, 38) == Word(0x16263806) && Schedule(block, 39) == Word(0x000018c0)
    ensures Schedule(block, 40) == Word(0xd2e138c4) && Schedule(block, 41) == Word(0x00000f00)
    ensures Schedule(block, 42) == Word(0x3afb5079) && Schedule(block, 43) == Word(0x898e04e5)
    ensures Schedule(block, 44) == Word(0xe2ba3c2b) && Schedule(block, 45) == Word(0x000060c0)
    ensures Schedule(block, 46) == Word(0x053a37cd) && Schedule(block, 47) == Word(0x74458547)
  {
    hide Schedule;
    AbcWords16(block);
    MoreWords(block, 32);
  }

  lemma AbcWords48(block: seq<Word>)
    requires IsAbc(block)
    ensures Schedule(block, 48) == Word(0xda9415ed) && Schedule(block, 49) == Word(0x26380a16)
    ensures Schedule(block, 50) == Word(0x626383a1) && Schedule(block, 51) == Word(0x4ebf54de)
    ensures Schedule(block, 52) == Word(0x3835b44b) && Schedule(block, 53) == Word(0x0000f600)
    ensures Schedule(block, 54) == Word(0x1e84c7a3) && Schedule(block, 55) == Word(0x98e04d98)
    ensures Schedule(block, 56) == Word(0x651d16a0) && Schedule(block, 57) == Word(0x62658ca1)
    ensures Schedule(block, 58) == Word(0x458544d6) && Schedule(block, 59) == Word(0x44584cb7)
    ensures Schedule(block, 60) == Word(0x7ba06619) && Schedule(block, 61) == Word(0x6380aea2)
    ensures Schedule(block, 62) == Word(0x0ae55269) && Schedule(block, 63) == Word(0x627b49a1)
  {
    hide Schedule;
    AbcWords32(block);
    MoreWords(block, 48);
  }

  lemma AbcWords64(block: seq<Word>)
    requires IsAbc(block)
    ensures Schedule(block, 64) == Word(0x7cd45c9d) && Schedule(block, 65) == Word(0x000f0000)
    ensures Schedule(block, 66) == Word(0xfb50753a) && Schedule(block, 67) == Word(0xec6765e8)
    ensures Schedule(block, 68) == Word(0xba3c2be2) && Schedule(block, 69) == Word(0x0060c000)
    ensures Schedule(block, 70) == Word(0x3a37cd05) && Schedule(block, 71) == Word(0x458546f4)
    ensures Schedule(block, 72) == Word(0xb8599dd6) && Schedule(block, 73) == Word(0x380a1a26)
    ensures Schedule(block, 74) == Word(0x01e02203) && Schedule(block, 75) == Word(0xe7cc3456)
    ensures Schedule(block, 76) == Word(0xe6e60b69) && Schedule(block, 77) == Word(0x00f60a00)
    ensures Schedule(block, 78) == Word(0x5795ef4f) && Schedule(block, 79) == Word(0x822e0879)
  {
    hide Schedule;
    AbcWords48(block);
    MoreWords(block, 64);
  }

  lemma AbcRounds20(block: seq<Word>)
    requires IsAbc(block)
    ensures Rounds(INITIAL, block, 20)
         == Chain(Word(0xfd9e1d7d), Word(0xdc64901d), Word(0x20aa99ca), Word(0xd3a49608), Word(0xc82f758b))
  {
    hide Schedule, Rounds, IsAbc;
    AbcWords0(block);
    AbcWords16(block);
    NoRounds(INITIAL, block);
    TwentyRounds(INITIAL, block, 0);
  }

  lemma AbcRounds40(block: seq<Word>)
    requires IsAbc(block)
    ensures Rounds(INITIAL, block, 40)
         == Chain(Word(0x32de1cba), Word(0x4c986405), Word(0xf718e5cf), Word(0x03d447f6), Word(0xf72eec32))
  {
    hide Schedule, Rounds, IsAbc;
    AbcWords0(block);
    AbcWords16(block);
    AbcWords32(block);
    AbcRounds20(block);
    TwentyRounds(INITIAL, block, 20);
  }

  lemma AbcRounds60(block: seq<Word>)
    requires IsAbc(block)
    ensures Rounds(INITIAL, block, 60)
         == Chain(Word(0x3f52de5a), Word(0x09d785fd), Word(0x3498bfd4), Word(0xf211824f), Word(0xd79915ab))
  {
    hide Schedule, Rounds, IsAbc;
    AbcWords0(block);
    AbcWords32(block);
    AbcWords48(block);
    AbcRounds40(block);
    TwentyRounds(INITIAL, block, 40);
  }

  lemma AbcRounds80(block: seq<Word>)
    requires IsAbc(block)
    ensures Rounds(INITIAL, block, 80)
         == Chain(Word(0x42541b35), Word(0x5738d5e1), Word(0x21834873), Word(0x681e6df6), Word(0xd8fdf6ad))
  {
    hide Schedule, Rounds, IsAbc;
    AbcWords0(block);
    AbcWords48(block);
    AbcWords64(block);
    AbcRounds60(block);
    TwentyRounds(INITIAL, block, 60);
  }

  lemma AbcIsCompressed(block: seq<Word>)
    requires IsAbc(block)
    ensures Compress(INITIAL, block)
         == Chain(Word(0xa9993e36), Word(0x4706816a), Word(0xba3e2571), Word(0x7850c26c), Word(0x9cd0d89d))
  {
    hide Rounds, Schedule;
    AbcRounds80(block);
  }

  // ------------------------------------------------------------------
  // Section 1.3 of RFC 6455: the first block of the key and the GUID
  // ------------------------------------------------------------------

  predicate IsSample(block: seq<Word>)
  {
    |block| == 16
    && block[0] == Word(0x6447686c) && block[1] == Word(0x49484e68) && block[2] == Word(0x62584273) && block[3] == Word(0x5a534275)
    && block[4] == Word(0x6232356a) && block[5] == Word(0x5a513d3d) && block[6] == Word(0x32353845) && block[7] == Word(0x41464135)
    && block[8] == Word(0x2d453931) && block[9] == Word(0x342d3437) && block[10] == Word(0x44412d39) && block[11] == Word(0x3543412d)
    && block[12] == Word(0x43354142) && block[13] == Word(0x30444338) && block[14] == Word(0x35423131) && block[15] == Word(0x80000000)
  }

  lemma SampleWords0(block: seq<Word>)
    requires IsSample(block)
    ensures |block| == 16
    ensures Schedule(block, 0) == Word(0x6447686c) && Schedule(block, 1) == Word(0x49484e68)
    ensures Schedule(block, 2) == Word(0x62584273) && Schedule(block, 3) == Word(0x5a534275)
    ensures Schedule(block, 4) == Word(0x6232356a) && Schedule(block, 5) == Word(0x5a513d3d)
    ensures Schedule(block, 6) == Word(0x32353845) && Schedule(block, 7) == Word(0x41464135)
    ensures Schedule(block, 8) == Word(0x2d453931) && Schedule(block, 9) == Word(0x342d3437)
    ensures Schedule(block, 10) == Word(0x44412d39) && Schedule(block, 11) == Word(0x3543412d)
    ensures Schedule(block, 12) == Word(0x43354142) && Schedule(block, 13) == Word(0x30444338)
    ensures Schedule(block, 14) == Word(0x35423131) && Schedule(block, 15) == Word(0x80000000)
  {
    hide Schedule;
    FirstWords(block);
  }

  lemma SampleWords16(block: seq<Word>)
    requires IsSample(block)
    ensures Schedule(block, 16) == Word(0x363ca02c) && Schedule(block, 17) == Word(0x24e81236)
    ensures Schedule(block, 18) == Word(0x8856b441) && Schedule(block, 19) == Word(0x06fb3c92)
    ensures Schedule(block, 20) == Word(0x6fb4bcb6) && Schedule(block, 21) == Word(0x460b16e3)
    ensures Schedule(block, 22) == Word(0x599219ae) && Schedule(block, 23) == Word(0x35bf9369)
    ensures Schedule(block, 24) == Word(0x3267458e) && Schedule(block, 25) == Word(0xf828fd04)
    ensures Schedule(block, 26) == Word(0x753a96a7) && Schedule(block, 27) == Word(0x6336f612)
    ensures Schedule(block, 28) == Word(0xc3d66383) && Schedule(block, 29) == Word(0x06eb86f9)
    ensures Schedule(block, 30) == Word(0x73b4fd42) && Schedule(block, 31) == Word(0xa503c5b8)
  {
    hide Schedule;
    SampleWords0(block);
    MoreWords(block, 16);
  }

  lemma SampleWords32(block: seq<Word>)
    requires IsSample(block)
    ensures Schedule(block, 32) == Word(0x15cdae35) && Schedule(block, 33) == Word(0x531e5dc5)
    ensures Schedule(block, 34) == Word(0x6fb6b7d0) && Schedule(block, 35) == Word(0x6c16e4ac)
    ensures Schedule(block, 36) == Word(0x4ddd36bd) && Schedule(block, 37) == Word(0x35d36946)
    ensures Schedule(block, 38) == Word(0xe8ae8b9c) && Schedule(block, 39) == Word(0x4a933ad0)
    ensures Schedule(block, 40) == Word(0xce8628b4) && Schedule(block, 41) == Word(0x415dba9e)
    ensures Schedule(block, 42) == Word(0x2792f049) && Schedule(block, 43) == Word(0x8e9b79e7)
    ensures Schedule(block, 44) == Word(0x79c425c5) && Schedule(block, 45) == Word(0x6353b49d)
    ensures Schedule(block, 46) == Word(0x00994218) && Schedule(block, 47) == Word(0x8a950ed1)
  {
    hide Schedule;
    SampleWords16(block);
    MoreWords(block, 32);
  }

  lemma SampleWords48(block: seq<Word>)
    requires IsSample(block)
    ensures Schedule(block, 48) == Word(0xaf5d0b99) && Schedule(block, 49) == Word(0xfd9883de)
    ensures Schedule(block, 50) == Word(0x1ed8ffeb) && Schedule(block, 51) == Word(0xf007ff28)
    ensures Schedule(block, 52) == Word(0x425e3674) && Schedule(block, 53) == Word(0x059631c0)
    ensures Schedule(block, 54) == Word(0xad6c3c31) && Schedule(block, 55) == Word(0x860b71d7)
    ensures Schedule(block, 56) == Word(0x87bfc548) && Schedule(block, 57) == Word(0x3e64f92d)
    ensures Schedule(block, 58) == Word(0x8d0ab761) && Schedule(block, 59) == Word(0x34e1ee35)
    ensures Schedule(block, 60) == Word(0x0acf5108) && Schedule(block, 61) == Word(0xc2b479da)
    ensures Schedule(block, 62) == Word(0x6c93370a) && Schedule(block, 63) == Word(0xf7935ba1)
  {
    hide Schedule;
    SampleWords32(block);
    MoreWords(block, 48);
  }

  lemma SampleWords64(block: seq<Word>)
    requires IsSample(block)
    ensures Schedule(block, 64) == Word(0xe91c91c1) && Schedule(block, 65) == Word(0xbed165a2)
    ensures Schedule(block, 66) == Word(0x4c3e4abe) && Schedule(block, 67) == Word(0x50d96238)
    ensures Schedule(block, 68) == Word(0xb6587dde) && Schedule(block, 69) == Word(0x1a2ee6e6)
    ensures Schedule(block, 70) == Word(0x2d335896) && Schedule(block, 71) == Word(0xf3495d0b)
    ensures Schedule(block, 72) == Word(0xf30e0a1d) && Schedule(block, 73) == Word(0x32ce5459)
    ensures Schedule(block, 74) == Word(0x7165e3b8) && Schedule(block, 75) == Word(0xab05ff94)
    ensures Schedule(block, 76) == Word(0xc5949f0b) && Schedule(block, 77) == Word(0xbcd84e4a)
    ensures Schedule(block, 78) == Word(0x07720392) && Schedule(block, 79) == Word(0xff3ff806)
  {
    hide Schedule;
    SampleWords48(block);
    MoreWords(block, 64);
  }

  lemma SampleRounds20(block: seq<Word>)
    requires IsSample(block)
    ensures Rounds(INITIAL, block, 20)
         == Chain(Word(0x091ab97c), Word(0x8dc510b6), Word(0xdfaeca5a), Word(0x75f6bd5d), Word(0x2801311a))
  {
    hide Schedule, Rounds, IsSample;
    SampleWords0(block);
    SampleWords16(block);
    NoRounds(INITIAL, block);
    TwentyRounds(INITIAL, block, 0);
  }

  lemma SampleRounds40(block: seq<Word>)
    requires IsSample(block)
    ensures Rounds(INITIAL, block, 40)
         == Chain(Word(0x2ba2c83e), Word(0xd0869081), Word(0x1a1d8209), Word(0xd3334889), Word(0x2779e4f2))
  {
    hide Schedule, Rounds, IsSample;
    SampleWords0(block);
    SampleWords16(block);
    SampleWords32(block);
    SampleRounds20(block);
    TwentyRounds(INITIAL, block, 20);
  }

  lemma SampleRounds60(block: seq<Word>)
    requires IsSample(block)
    ensures Rounds(INITIAL, block, 60)
         == Chain(Word(0x4872d85a), Word(0xd284f163), Word(0x83091f0b), Word(0x1bbdbfbd), Word(0x9f8490bc))
  {
    hide Schedule, Rounds, IsSample;
    SampleWords0(block);
    SampleWords32(block);
    SampleWords48(block);
    SampleRounds40(block);
    TwentyRounds(INITIAL, block, 40);
  }

  lemma SampleRounds80(block: seq<Word>)
    requires IsSample(block)
    ensures Rounds(INITIAL, block, 80)
         == Chain(Word(0xf48a5426), Word(0x835995e1), Word(0x25c11efb), Word(0x4a45c402), Word(0x9a73c2f2))
  {
    hide Schedule, Rounds, IsSample;
    SampleWords0(block);
    SampleWords48(block);
    SampleWords64(block);
    SampleRounds60(block);
    TwentyRounds(INITIAL, block, 60);
  }

  lemma SampleIsCompressed(block: seq<Word>)
    requires IsSample(block)
    ensures Compress(INITIAL, block)
         == SAMPLE_CHAIN
  {
    hide Rounds, Schedule;
    SampleRounds80(block);
  }

  const SAMPLE_CHAIN :=
    Chain(Word(0x5bcf7727), Word(0x7327416a), Word(0xbe7bfbf9), Word(0x5a781878), Word(0x5e46a4e2))

  // ------------------------------------------------------------------
  // The second block: padding and the length
  // ------------------------------------------------------------------

  predicate IsLength(block: seq<Word>)
  {
    |block| == 16
    && block[0] == Word(0x00000000) && block[1] == Word(0x00000000) && block[2] == Word(0x00000000) && block[3] == Word(0x00000000)
    && block[4] == Word(0x00000000) && block[5] == Word(0x00000000) && block[6] == Word(0x00000000) && block[7] == Word(0x00000000)
    && block[8] == Word(0x00000000) && block[9] == Word(0x00000000) && block[10] == Word(0x00000000) && block[11] == Word(0x00000000)
    && block[12] == Word(0x00000000) && block[13] == Word(0x00000000) && block[14] == Word(0x00000000) && block[15] == Word(0x000001e0)
  }

  lemma LengthWords0(block: seq<Word>)
    requires IsLength(block)
    ensures |block| == 16
    ensures Schedule(block, 0) == Word(0x00000000) && Schedule(block, 1) == Word(0x00000000)
    ensures Schedule(block, 2) == Word(0x00000000) && Schedule(block, 3) == Word(0x00000000)
    ensures Schedule(block, 4) == Word(0x00000000) && Schedule(block, 5) == Word(0x00000000)
    ensures Schedule(block, 6) == Word(0x00000000) && Schedule(block, 7) == Word(0x00000000)
    ensures Schedule(block, 8) == Word(0x00000000) && Schedule(block, 9) == Word(0x00000000)
    ensures Schedule(block, 10) == Word(0x00000000) && Schedule(block, 11) == Word(0x00000000)
    ensures Schedule(block, 12) == Word(0x00000000) && Schedule(block, 13) == Word(0x00000000)
    ensures Schedule(block, 14) == Word(0x00000000) && Schedule(block, 15) == Word(0x000001e0)
  {
    hide Schedule;
    FirstWords(block);
  }

  lemma LengthWords16(block: seq<Word>)
    requires IsLength(block)
    ensures Schedule(block, 16) == Word(0x00000000) && Schedule(block, 17) == Word(0x00000000)
    ensures Schedule(block, 18) == Word(0x000003c0) && Schedule(block, 19) == Word(0x00000000)
    ensures Schedule(block, 20) == Word(0x00000000) && Schedule(block, 21) == Word(0x00000780)
    ensures Schedule(block, 22) == Word(0x00000000) && Schedule(block, 23) == Word(0x000003c0)
    ensures Schedule(block, 24) == Word(0x00000f00) && Schedule(block, 25) == Word(0x00000000)
    ensures Schedule(block, 26) == Word(0x00000000) && Schedule(block, 27) == Word(0x00001e00)
    ensures Schedule(block, 28) == Word(0x00000000) && Schedule(block, 29) == Word(0x00000cc0)
    ensures Schedule(block, 30) == Word(0x00003c00) && Schedule(block, 31) == Word(0x00000440)
  {
    hide Schedule;
    LengthWords0(block);
    MoreWords(block, 16);
  }

  lemma LengthWords32(block: seq<Word>)
    requires IsLength(block)
    ensures Schedule(block, 32) == Word(0x00000000) && Schedule(block, 33) == Word(0x00007800)
    ensures Schedule(block, 34) == Word(0x00000f00) && Schedule(block, 35) == Word(0x00003300)
    ensures Schedule(block, 36) == Word(0x0000f000) && Schedule(block, 37) == Word(0x00000f00)
    ensures Schedule(block, 38) == Word(0x00000000) && Schedule(block, 39) == Word(0x0001ef00)
    ensures Schedule(block, 40) == Word(0x00000000) && Schedule(block, 41) == Word(0x0000cc00)
    ensures Schedule(block, 42) == Word(0x0003c000) && Schedule(block, 43) == Word(0x00004380)
    ensures Schedule(block, 44) == Word(0x00000000) && Schedule(block, 45) == Word(0x00078f00)
    ensures Schedule(block, 46) == Word(0x0000ff00) && Schedule(block, 47) == Word(0x00032680)
  {
    hide Schedule;
    LengthWords16(block);
    MoreWords(block, 32);
  }

  lemma LengthWords48(block: seq<Word>)
    requires IsLength(block)
    ensures Schedule(block, 48) == Word(0x000f0000) && Schedule(block, 49) == Word(0x0000f000)
    ensures Schedule(block, 50) == Word(0x00003300) && Schedule(block, 51) == Word(0x001eff00)
    ensures Schedule(block, 52) == Word(0x00000000) && Schedule(block, 53) == Word(0x000cb800)
    ensures Schedule(block, 54) == Word(0x003c0000) && Schedule(block, 55) == Word(0x00040b00)
    ensures Schedule(block, 56) == Word(0x0000f000) && Schedule(block, 57) == Word(0x0078ff00)
    ensures Schedule(block, 58) == Word(0x000ff000) && Schedule(block, 59) == Word(0x00338700)
    ensures Schedule(block, 60) == Word(0x00f00000) && Schedule(block, 61) == Word(0x000fc300)
    ensures Schedule(block, 62) == Word(0x0000f000) && Schedule(block, 63) == Word(0x01efbb00)
  {
    hide Schedule;
    LengthWords32(block);
    MoreWords(block, 48);
  }

  lemma LengthWords64(block: seq<Word>)
    requires IsLength(block)
    ensures Schedule(block, 64) == Word(0x00000000) && Schedule(block, 65) == Word(0x00cc0000)
    ensures Schedule(block, 66) == Word(0x03c0f000) && Schedule(block, 67) == Word(0x00438000)
    ensures Schedule(block, 68) == Word(0x00000000) && Schedule(block, 69) == Word(0x078f0000)
    ensures Schedule(block, 70) == Word(0x00ff0000) && Schedule(block, 71) == Word(0x03269e00)
    ensures Schedule(block, 72) == Word(0x0f000000) && Schedule(block, 73) == Word(0x00f0f000)
    ensures Schedule(block, 74) == Word(0x00333c00) && Schedule(block, 75) == Word(0x1eff8800)
    ensures Schedule(block, 76) == Word(0x00000000) && Schedule(block, 77) == Word(0x0cb88800)
    ensures Schedule(block, 78) == Word(0x3c00f000) && Schedule(block, 79) == Word(0x040a4a00)
  {
    hide Schedule;
    LengthWords48(block);
    MoreWords(block, 64);
  }

  lemma LengthRounds20(block: seq<Word>)
    requires IsLength(block)
    ensures Rounds(SAMPLE_CHAIN, block, 20)
         == Chain(Word(0x2a008b51), Word(0x2f193a09), Word(0x9c8663c1), Word(0x8eb5d103), Word(0x261b7c9a))
  {
    hide Schedule, Rounds, IsLength;
    LengthWords0(block);
    LengthWords16(block);
    NoRounds(SAMPLE_CHAIN, block);
    TwentyRounds(SAMPLE_CHAIN, block, 0);
  }

  lemma LengthRounds40(block: seq<Word>)
    requires IsLength(block)
    ensures Rounds(SAMPLE_CHAIN, block, 40)
         == Chain(Word(0x6f698f1a), Word(0xc6ff0cd3), Word(0xde5ab7bc), Word(0x5f6f3cbb), Word(0x1da48a85))
  {
    hide Schedule, Rounds, IsLength;
    LengthWords0(block);
    LengthWords16(block);
    LengthWords32(block);
    LengthRounds20(block);
    TwentyRounds(SAMPLE_CHAIN, block, 20);
  }

  lemma LengthRounds60(block: seq<Word>)
    requires IsLength(block)
    ensures Rounds(SAMPLE_CHAIN, block, 60)
         == Chain(Word(0x56119f19), Word(0x085eb2fe), Word(0x484a25c5), Word(0xc140cfe8), Word(0x686da050))
  {
    hide Schedule, Rounds, IsLength;
    LengthWords0(block);
    LengthWords32(block);
    LengthWords48(block);
    LengthRounds40(block);
    TwentyRounds(SAMPLE_CHAIN, block, 40);
  }

  lemma LengthRounds80(block: seq<Word>)
    requires IsLength(block)
    ensures Rounds(SAMPLE_CHAIN, block, 80)
         == Chain(Word(0x57aad805), Word(0x4d3b0dac), Word(0xd27a4a0d), Word(0x74c040cd), Word(0x54782008))
  {
    hide Schedule, Rounds, IsLength;
    LengthWords0(block);
    LengthWords48(block);
    LengthWords64(block);
    LengthRounds60(block);
    TwentyRounds(SAMPLE_CHAIN, block, 60);
  }

  lemma LengthIsCompressed(block: seq<Word>)
    requires IsLength(block)
    ensures Compress(SAMPLE_CHAIN, block)
         == Chain(Word(0xb37a4f2c), Word(0xc0624f16), Word(0x90f64606), Word(0xcf385945), Word(0xb2bec4ea))
  {
    hide Rounds, Schedule;
    LengthRounds80(block);
  }

  // ------------------------------------------------------------------
  // Messages and digests
  // ------------------------------------------------------------------

  /** One word of a block from its four octets. */
  lemma WordAt(s: seq<Byte>, i: nat, w: bv32)
    requires |s| == 64 && i < 16
    requires Word32(s[4 * i], s[4 * i + 1], s[4 * i + 2], s[4 * i + 3]) == w as int
    ensures WordsOf(s)[i] == Word(w)
  {
    ExtractHalf(s[4 * i..4 * i + 4]);
    assert (w as int) as bv32 == w;
  }

  lemma ZeroWord(s: seq<Byte>, i: nat)
    requires |s| == 64 && i < 16 && s[4 * i] == s[4 * i + 1] == s[4 * i + 2] == s[4 * i + 3] == 0
    ensures WordsOf(s)[i] == Word(0)
  {
    ExtractHalf(s[4 * i..4 * i + 4]);
  }

  lemma WordOctets(w: Word, n: nat)
    requires w.bits as int == n
    ensures WordBytes(w) == [n / 0x100_0000 % 256, n / 0x1_0000 % 256, n / 0x100 % 256, n % 256]
  {
    Octets(n);
  }

  lemma OneBlock(h: Chain, s: seq<Byte>)
    requires |s| == 64
    ensures HashBlocks(h, s) == Compress(h, WordsOf(s))
  {
    hide Compress, WordsOf;
    assert s[..64] == s && s[64..] == [];
  }

  lemma AbcPadded()
    ensures Padded(Ascii("abc")) == [0x61, 0x62, 0x63, 0x80] + Zeros(52) + [0, 0, 0, 0, 0, 0, 0, 24]
  {
    hide BigEndian;
    assert Ascii("abc") == [0x61, 0x62, 0x63] && ZeroCount(3) == 52;
    SmallLength(24);
  }

  lemma AbcBlock(s: seq<Byte>)
    requires s == [0x61, 0x62, 0x63, 0x80] + Zeros(52) + [0, 0, 0, 0, 0, 0, 0, 24]
    ensures IsAbc(WordsOf(s))
  {
    hide WordsOf;
    forall i | 1 <= i < 15
      ensures WordsOf(s)[i] == Word(0)
    {
      ZeroWord(s, i);
    }
    assert WordsOf(s)[0] == Word(0x61626380) by { WordAt(s, 0, 0x61626380); }
    assert WordsOf(s)[15] == Word(24) by { WordAt(s, 15, 24); }
  }

  lemma SmallLength(n: nat)
    requires n < 0x1_0000
    ensures BigEndian(n, 8) == [0, 0, 0, 0, 0, 0, n / 256, n % 256]
  {
    hide BigEndian;
    BigEndianSplit(n, 4, 4);
    Sizes();
    Octets(n);
    Octets(0);
  }

  /** FIPS PUB 180-1, appendix A. */
  lemma AbcDigest()
    ensures Digest(Ascii("abc"))
         == [0xa9, 0x99, 0x3e, 0x36, 0x47, 0x06, 0x81, 0x6a, 0xba, 0x3e,
             0x25, 0x71, 0x78, 0x50, 0xc2, 0x6c, 0x9c, 0xd0, 0xd8, 0x9d]
  {
    hide Padded, HashBlocks, Compress, WordsOf, WordBytes, IsAbc;
    AbcPadded();
    var s := Padded(Ascii("abc"));
    AbcBlock(s);
    OneBlock(INITIAL, s);
    AbcIsCompressed(WordsOf(s));
    WordOctets(Word(0xa9993e36), 0xa9993e36);
    WordOctets(Word(0x4706816a), 0x4706816a);
    WordOctets(Word(0xba3e2571), 0xba3e2571);
    WordOctets(Word(0x7850c26c), 0x7850c26c);
    WordOctets(Word(0x9cd0d89d), 0x9cd0d89d);
  }

  function SampleA(): seq<Byte>
  {
    [0x64, 0x47, 0x68, 0x6c, 0x49, 0x48, 0x4e, 0x68, 0x62, 0x58, 0x42, 0x73]
  }

  lemma SampleWordsA(s: seq<Byte>)
    requires |s| == 64 && s[0..12] == SampleA()
    ensures WordsOf(s)[0] == Word(0x6447686c)
    ensures WordsOf(s)[1] == Word(0x49484e68)
    ensures WordsOf(s)[2] == Word(0x62584273)
  {
    hide WordsOf;
    assert forall i :: 0 <= i < 12 ==> s[i] == s[0..12][i - 0];
    assert WordsOf(s)[0] == Word(0x6447686c) by { WordAt(s, 0, 0x6447686c); }
    assert WordsOf(s)[1] == Word(0x49484e68) by { WordAt(s, 1, 0x49484e68); }
    assert WordsOf(s)[2] == Word(0x62584273) by { WordAt(s, 2, 0x62584273); }
  }

  function SampleB(): seq<Byte>
  {
    [0x5a, 0x53, 0x42, 0x75, 0x62, 0x32, 0x35, 0x6a, 0x5a, 0x51, 0x3d, 0x3d]
  }

  lemma SampleWordsB(s: seq<Byte>)
    requires |s| == 64 && s[12..24] == SampleB()
    ensures WordsOf(s)[3] == Word(0x5a534275)
    ensures WordsOf(s)[4] == Word(0x6232356a)
    ensures WordsOf(s)[5] == Word(0x5a513d3d)
  {
    hide WordsOf;
    assert forall i :: 12 <= i < 24 ==> s[i] == s[12..24][i - 12];
    assert WordsOf(s)[3] == Word(0x5a534275) by { WordAt(s, 3, 0x5a534275); }
    assert WordsOf(s)[4] == Word(0x6232356a) by { WordAt(s, 4, 0x6232356a); }
    assert WordsOf(s)[5] == Word(0x5a513d3d) by { WordAt(s, 5, 0x5a513d3d); }
  }

  function SampleC(): seq<Byte>
  {
    [0x32, 0x35, 0x38, 0x45, 0x41, 0x46, 0x41, 0x35, 0x2d, 0x45, 0x39, 0x31]
  }

  lemma SampleWordsC(s: seq<Byte>)
    requires |s| == 64 && s[24..36] == SampleC()
    ensures WordsOf(s)[6] == Word(0x32353845)
    ensures WordsOf(s)[7] == Word(0x41464135)
    ensures WordsOf(s)[8] == Word(0x2d453931)
  {
    hide WordsOf;
    assert forall i :: 24 <= i < 36 ==> s[i] == s[24..36][i - 24];
    assert WordsOf(s)[6] == Word(0x32353845) by { WordAt(s, 6, 0x32353845); }
    assert WordsOf(s)[7] == Word(0x41464135) by { WordAt(s, 7, 0x41464135); }
    assert WordsOf(s)[8] == Word(0x2d453931) by { WordAt(s, 8, 0x2d453931); }
  }

  function SampleD(): seq<Byte>
  {
    [0x34, 0x2d, 0x34, 0x37, 0x44, 0x41, 0x2d, 0x39, 0x35, 0x43, 0x41, 0x2d]
  }

  lemma SampleWordsD(s: seq<Byte>)
    requires |s| == 64 && s[36..48] == SampleD()
    ensures WordsOf(s)[9] == Word(0x342d3437)
    ensures WordsOf(s)[10] == Word(0x44412d39)
    ensures WordsOf(s)[11] == Word(0x3543412d)
  {
    hide WordsOf;
    assert forall i :: 36 <= i < 48 ==> s[i] == s[36..48][i - 36];
    assert WordsOf(s)[9] == Word(0x342d3437) by { WordAt(s, 9, 0x342d3437); }
    assert WordsOf(s)[10] == Word(0x44412d39) by { WordAt(s, 10, 0x44412d39); }
    assert WordsOf(s)[11] == Word(0x3543412d) by { WordAt(s, 11, 0x3543412d); }
  }

  function SampleE(): seq<Byte>
  {
    [0x43, 0x35, 0x41, 0x42, 0x30, 0x44, 0x43, 0x38, 0x35, 0x42, 0x31, 0x31]
  }

  lemma SampleWordsE(s: seq<Byte>)
    requires |s| == 64 && s[48..60] == SampleE()
    ensures WordsOf(s)[12] == Word(0x43354142)
    ensures WordsOf(s)[13] == Word(0x30444338)
    ensures WordsOf(s)[14] == Word(0x35423131)
  {
    hide WordsOf;
    assert forall i :: 48 <= i < 60 ==> s[i] == s[48..60][i - 48];
    assert WordsOf(s)[12] == Word(0x43354142) by { WordAt(s, 12, 0x43354142); }
    assert WordsOf(s)[13] == Word(0x30444338) by { WordAt(s, 13, 0x30444338); }
    assert WordsOf(s)[14] == Word(0x35423131) by { WordAt(s, 14, 0x35423131); }
  }

  lemma KeyOctets()
    ensures Ascii("dGhlIHNhbXBsZSBub25jZQ==") == SampleA() + SampleB()
  {
  }

  lemma GuidOctets()
    ensures Handshake.GUID == SampleC() + SampleD() + SampleE()
  {
  }

  lemma Pieces(a: seq<Byte>, b: seq<Byte>, c: seq<Byte>, d: seq<Byte>, e: seq<Byte>, f: seq<Byte>)
    requires |a| == |b| == |c| == |d| == |e| == 12 && |f| == 4
    ensures var s := (a + b) + (c + d + e) + f;
            && |s| == 64 && s[0..12] == a && s[12..24] == b && s[24..36] == c && s[36..48] == d
            && s[48..60] == e && s[60..64] == f
  {
  }

  lemma SampleSizes()
    ensures |SampleA()| == |SampleB()| == |SampleC()| == |SampleD()| == |SampleE()| == 12
  {
  }

  lemma SamplePadded()
    ensures var s := Padded(Ascii("dGhlIHNhbXBsZSBub25jZQ==") + Handshake.GUID);
            && |s| == 128
            && s[..64] == Ascii("dGhlIHNhbXBsZSBub25jZQ==") + Handshake.GUID + [0x80, 0, 0, 0]
            && s[64..] == Zeros(56) + [0, 0, 0, 0, 0, 0, 1, 0xe0]
  {
    hide BigEndian, Ascii;
    SmallLength(480);
    assert ZeroCount(60) == 59;
  }

  lemma SampleBlock(s: seq<Byte>)
    requires s == Ascii("dGhlIHNhbXBsZSBub25jZQ==") + Handshake.GUID + [0x80, 0, 0, 0]
    ensures IsSample(WordsOf(s))
  {
    hide WordsOf, Ascii;
    KeyOctets();
    GuidOctets();
    SampleSizes();
    hide SampleA, SampleB, SampleC, SampleD, SampleE;
    Pieces(SampleA(), SampleB(), SampleC(), SampleD(), SampleE(), [0x80, 0, 0, 0]);
    SampleWordsA(s);
    SampleWordsB(s);
    SampleWordsC(s);
    SampleWordsD(s);
    SampleWordsE(s);
    LastSampleWord(s);
  }

  lemma LastSampleWord(s: seq<Byte>)
    requires |s| == 64 && s[60..64] == [0x80, 0, 0, 0]
    ensures WordsOf(s)[15] == Word(0x80000000)
  {
    hide WordsOf;
    assert forall i :: 60 <= i < 64 ==> s[i] == s[60..64][i - 60];
    WordAt(s, 15, 0x80000000);
  }

  lemma LengthBlock(s: seq<Byte>)
    requires s == Zeros(56) + [0, 0, 0, 0, 0, 0, 1, 0xe0]
    ensures IsLength(WordsOf(s))
  {
    hide WordsOf;
    forall i | 0 <= i < 15
      ensures WordsOf(s)[i] == Word(0)
    {
      ZeroWord(s, i);
    }
    assert WordsOf(s)[15] == Word(0x1e0) by { WordAt(s, 15, 0x1e0); }
  }

  lemma TwoBlocks(h: Chain, s: seq<Byte>)
    requires |s| == 128
    ensures HashBlocks(h, s) == Compress(Compress(h, WordsOf(s[..64])), WordsOf(s[64..]))
  {
    hide Compress, WordsOf;
    OneBlock(Compress(h, WordsOf(s[..64])), s[64..]);
  }

  lemma SampleDigest()
    ensures Digest(Ascii("dGhlIHNhbXBsZSBub25jZQ==") + Handshake.GUID)
         == [0xb3, 0x7a, 0x4f, 0x2c, 0xc0, 0x62, 0x4f, 0x16, 0x90, 0xf6,
             0x46, 0x06, 0xcf, 0x38, 0x59, 0x45, 0xb2, 0xbe, 0xc4, 0xea]
  {
    hide Padded, HashBlocks, Compress, WordsOf, WordBytes, IsSample, IsLength, Ascii, Zeros;
    var s := Padded(Ascii("dGhlIHNhbXBsZSBub25jZQ==") + Handshake.GUID);
    SamplePadded();
    SampleBlock(s[..64]);
    LengthBlock(s[64..]);
    TwoBlocks(INITIAL, s);
    SampleIsCompressed(WordsOf(s[..64]));
    LengthIsCompressed(WordsOf(s[64..]));
    WordOctets(Word(0xb37a4f2c), 0xb37a4f2c);
    WordOctets(Word(0xc0624f16), 0xc0624f16);
    WordOctets(Word(0x90f64606), 0x90f64606);
    WordOctets(Word(0xcf385945), 0xcf385945);
    WordOctets(Word(0xb2bec4ea), 0xb2bec4ea);
  }
}
