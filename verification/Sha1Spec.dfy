/**
 The secure hash standard, FIPS PUB 180-1: message padding (section 4), round functions and
 constants (sections 5 and 6) and the 80-word form of the digest (section 7), over messages
 made of whole octets.
 */
module Sha1Spec {
  import opened Bytes

  /** A 32-bit word; `Sum` is addition modulo 2^32. */
  datatype Word = Word(bits: bv32)

  function Sum(x: Word, y: Word): Word { Word(x.bits + y.bits) }

  /** The five chaining (or working) words. */
  datatype Chain = Chain(a: Word, b: Word, c: Word, d: Word, e: Word)

  const INITIAL := Chain(Word(0x67452301), Word(0xefcdab89), Word(0x98badcfe), Word(0x10325476), Word(0xc3d2e1f0))

  // Circular left shifts.

  function S1(x: Word): Word { Word((x.bits << 1) | (x.bits >> 31)) }

  function S5(x: Word): Word { Word((x.bits << 5) | (x.bits >> 27)) }

  function S30(x: Word): Word { Word((x.bits << 30) | (x.bits >> 2)) }

  // Round functions.

  function Choose(b: Word, c: Word, d: Word): Word { Word((b.bits & c.bits) | ((!b.bits) & d.bits)) }

  function Parity(b: Word, c: Word, d: Word): Word { Word((b.bits ^ c.bits) ^ d.bits) }

  function Majority(b: Word, c: Word, d: Word): Word { Word((b.bits & c.bits) | (b.bits & d.bits) | (c.bits & d.bits)) }

  /** The function used in round `t`. */
  function F(t: nat, b: Word, c: Word, d: Word): Word
  {
    if t < 20 then Choose(b, c, d)
    else if t < 40 then Parity(b, c, d)
    else if t < 60 then Majority(b, c, d)
    else Parity(b, c, d)
  }

  const K1 := Word(0x5a827999)
  const K2 := Word(0x6ed9eba1)
  const K3 := Word(0x8f1bbcdc)
  const K4 := Word(0xca62c1d6)

  /** The constant used in round `t`. */
  function K(t: nat): Word
  {
    if t < 20 then K1 else if t < 40 then K2 else if t < 60 then K3 else K4
  }

  function Mix(w3: Word, w8: Word, w14: Word, w16: Word): Word 
  {
    S1(Word(w3.bits ^ w8.bits ^ w14.bits ^ w16.bits))
  }

  /** The expanded message schedule W(0), W(1), ... of section 7, one word per round. */
  function Schedule(block: seq<Word>, t: nat): Word
    requires |block| == 16
  {
    if t < 16 then block[t]
    else Mix(Schedule(block, t - 3), Schedule(block, t - 8), Schedule(block, t - 14), Schedule(block, t - 16))
  }

  function Round(t: nat, s: Chain, w: Word): Chain
  {
    Chain(Sum(Sum(Sum(Sum(S5(s.a), F(t, s.b, s.c, s.d)), s.e), w), K(t)), s.a, S30(s.b), s.c, s.d)
  }

  /** The working words after the first `t` rounds. */
  function Rounds(h: Chain, block: seq<Word>, t: nat): Chain
    requires |block| == 16
  {
    if t == 0 then h
    else Round(t - 1, Rounds(h, block, t - 1), Schedule(block, t - 1))
  }

  function AddChain(h: Chain, s: Chain): Chain
  {
    Chain(Sum(h.a, s.a), Sum(h.b, s.b), Sum(h.c, s.c), Sum(h.d, s.d), Sum(h.e, s.e))
  }

  function Compress(h: Chain, block: seq<Word>): Chain
    requires |block| == 16
  {
    AddChain(h, Rounds(h, block, 80))
  }

  /** Four octets as a word, most significant first. */
  function WordOf(s: seq<Byte>): Word
    requires |s| == 4
  {
    BigEndianBound(s);
    Sizes();
    Word(BigEndianValue(s) as bv32)
  }

  function WordsOf(s: seq<Byte>): (block: seq<Word>)
    requires |s| == 64
    ensures |block| == 16
    ensures forall i :: 0 <= i < 16 ==> block[i] == WordOf(s[4 * i..4 * i + 4])
  {
    seq(16, i requires 0 <= i < 16 => WordOf(s[4 * i..4 * i + 4]))
  }

  /** Process whole 64-octet blocks in order. */
  function HashBlocks(h: Chain, s: seq<Byte>): Chain
    requires |s| % 64 == 0
    decreases |s|
  {
    if s == [] then h
    else HashBlocks(Compress(h, WordsOf(s[..64])), s[64..])
  }

  /** The fewest zero octets that bring the message plus the octet 0x80 to 56 modulo 64. */
  function ZeroCount(n: nat): (k: nat)
    ensures k < 64 && (n + 1 + k) % 64 == 56
  {
    if n % 64 <= 55 then 55 - n % 64 else 119 - n % 64
  }

  lemma WholeBlocks(n: nat)
    ensures (n + 1 + ZeroCount(n) + 8) % 64 == 0
  {
  }

  /** Section 4: a one bit, zero bits, and the length in bits as a 64-bit big-endian number. */
  function Padding(n: nat): (s: seq<Byte>)
    ensures |s| == 1 + ZeroCount(n) + 8
  {
    [0x80] + Zeros(ZeroCount(n)) + BigEndian(8 * n, 8)
  }

  function Padded(msg: seq<Byte>): (s: seq<Byte>)
    ensures |s| % 64 == 0
  {
    WholeBlocks(|msg|);
    msg + Padding(|msg|)
  }

  function WordBytes(w: Word): (s: seq<Byte>)
    ensures |s| == 4
  {
    BigEndian(w.bits as int, 4)
  }

  function ChainBytes(h: Chain): (s: seq<Byte>)
    ensures |s| == 20
  {
    WordBytes(h.a) + WordBytes(h.b) + WordBytes(h.c) + WordBytes(h.d) + WordBytes(h.e)
  }

  /** The message digest of section 7. */
  function Digest(msg: seq<Byte>): (s: seq<Byte>)
    ensures |s| == 20
  {
    ChainBytes(HashBlocks(INITIAL, Padded(msg)))
  }
}
