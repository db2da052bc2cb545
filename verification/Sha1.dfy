/**
 The buffered hash of server/core/sha1.cpp: a context holding the chaining words, a 64-octet
 block buffer with a cursor, and a 64-bit length counter, all updated in place.
 */
module Sha1 {
  import opened Bytes
  import opened Sha1Spec

  const COUNTER_LIMIT := 0x1_0000_0000_0000_0000

  // ------------------------------------------------------------------
  // The context as a value, and its reference behaviour: one octet at a time
  // ------------------------------------------------------------------

  datatype Context = Context(h: Chain, c: nat, m: seq<Byte>, count: nat) {
    ghost predicate Ok() {
      |m| == 64 && count < 64 && c < COUNTER_LIMIT
    }
  }

  const FRESH := Context(INITIAL, 0, Zeros(64), 0)

  /** Store one octet at the cursor; a full block is compressed and the buffer cleared. */
  function Push(ctx: Context, b: Byte): (r: Context)
    requires ctx.Ok()
    ensures r.Ok() && r.c == ctx.c && r.count == (ctx.count + 1) % 64
  {
    var m := ctx.m[ctx.count := b];
    if ctx.count == 63 then ctx.(h := Compress(ctx.h, WordsOf(m)), m := Zeros(64), count := 0)
    else ctx.(m := m, count := ctx.count + 1)
  }

  function PushAll(ctx: Context, s: seq<Byte>): (r: Context)
    requires ctx.Ok()
    ensures r.Ok() && r.c == ctx.c && r.count == (ctx.count + |s|) % 64
    decreases |s|
  {
    if s == [] then ctx else PushAll(Push(ctx, s[0]), s[1..])
  }

  /** Hash message octets: push them and advance the bit counter. */
  function Absorb(ctx: Context, s: seq<Byte>): (r: Context)
    requires ctx.Ok()
    ensures r.Ok() && r.count == (ctx.count + |s|) % 64
  {
    PushAll(ctx, s).(c := (ctx.c + 8 * |s|) % COUNTER_LIMIT)
  }

  /** What padding appends to a context: 0x80, zeros up to offset 56, and the counter. */
  function Tail(ctx: Context): seq<Byte>
  {
    [0x80] + Zeros(ZeroCount(ctx.count)) + BigEndian(ctx.c, 8)
  }

  lemma {:induction false} PushAllAppends(ctx: Context, s: seq<Byte>, t: seq<Byte>)
    requires ctx.Ok()
    ensures PushAll(ctx, s + t) == PushAll(PushAll(ctx, s), t)
    decreases |s|
  {
    if s == [] {
      assert s + t == t;
    } else {
      assert (s + t)[1..] == s[1..] + t;
      PushAllAppends(Push(ctx, s[0]), s[1..], t);
    }
  }

  /** The counter rides along: it never influences the block buffer. */
  lemma {:induction false} PushAllIgnoresCounter(ctx: Context, c: nat, s: seq<Byte>)
    requires ctx.Ok() && c < COUNTER_LIMIT
    ensures PushAll(ctx.(c := c), s) == PushAll(ctx, s).(c := c)
    decreases |s|
  {
    if s != [] {
      PushAllIgnoresCounter(Push(ctx, s[0]), c, s[1..]);
    }
  }

  lemma PushNothing(ctx: Context)
    requires ctx.Ok()
    ensures PushAll(ctx, []) == ctx
  {
  }

  lemma PushOneMore(ctx: Context, s: seq<Byte>, b: Byte)
    requires ctx.Ok()
    ensures PushAll(ctx, s + [b]) == Push(PushAll(ctx, s), b)
  {
    PushAllAppends(ctx, s, [b]);
    assert PushAll(PushAll(ctx, s), [b]) == Push(PushAll(ctx, s), b) by {
      PushNothing(Push(PushAll(ctx, s), b));
    }
  }

  lemma PushZeros(ctx: Context, a: nat, b: nat)
    requires ctx.Ok()
    ensures PushAll(PushAll(ctx, Zeros(a)), Zeros(b)) == PushAll(ctx, Zeros(a + b))
  {
    PushAllAppends(ctx, Zeros(a), Zeros(b));
    assert Zeros(a) + Zeros(b) == Zeros(a + b);
  }

  /** The three parts of the padding pushed one after the other. */
  lemma TailInSteps(ctx: Context, zeros: nat)
    requires ctx.Ok() && zeros == ZeroCount(ctx.count)
    ensures PushAll(PushAll(Push(ctx, 0x80), Zeros(zeros)), BigEndian(ctx.c, 8)) == PushAll(ctx, Tail(ctx))
  {
    hide Push, BigEndian, PushAll;
    PushNothing(ctx);
    PushOneMore(ctx, [], 0x80);
    assert [] + [0x80] == [0x80];
    PushAllAppends(ctx, [0x80], Zeros(zeros));
    PushAllAppends(ctx, [0x80] + Zeros(zeros), BigEndian(ctx.c, 8));
  }

  lemma AbsorbNothing(ctx: Context)
    requires ctx.Ok()
    ensures Absorb(ctx, []) == ctx
  {
  }

  /** Splitting the message anywhere, in any reachable context, changes nothing. */
  lemma AbsorbIsIndependentOfSplitting(ctx: Context, s: seq<Byte>, t: seq<Byte>)
    requires ctx.Ok()
    ensures Absorb(Absorb(ctx, s), t) == Absorb(ctx, s + t)
  {
    PushAllAppends(ctx, s, t);
    var c := (ctx.c + 8 * |s|) % COUNTER_LIMIT;
    PushAllIgnoresCounter(PushAll(ctx, s), c, t);
    AddModulo(ctx.c + 8 * |s|, 8 * |t|, COUNTER_LIMIT);
  }

  /** The cursor after `n` more octets, which do not go past the end of the block. */
  lemma BlockEnd(count: nat, n: nat)
    requires count < 64 && 0 < n && count + n <= 64
    ensures count % 64 == count
    ensures (count + n) % 64 == if count + n == 64 then 0 else count + n
    ensures (count + n) % 64 % 64 == 0 <==> count + n == 64
  {
  }

  lemma NothingBehind(s: seq<Byte>, m: seq<Byte>)
    ensures s + m[|m|..] == s
  {
  }

  /** A copy that stays inside the block is the same as pushing its octets one by one. */
  lemma {:induction false} PushWithinBlock(ctx: Context, s: seq<Byte>)
    requires ctx.Ok() && ctx.count + |s| < 64
    ensures PushAll(ctx, s) == ctx.(m := ctx.m[..ctx.count] + s + ctx.m[ctx.count + |s|..], count := ctx.count + |s|)
    decreases |s|
  {
    if s == [] {
      assert ctx.m == ctx.m[..ctx.count] + s + ctx.m[ctx.count + |s|..];
    } else {
      var next := Push(ctx, s[0]);
      PushWithinBlock(next, s[1..]);
      assert next.m[..next.count] + s[1..] + next.m[next.count + |s[1..]|..]
          == ctx.m[..ctx.count] + s + ctx.m[ctx.count + |s|..];
    }
  }

  /** A copy that fills the block compresses exactly that block. */
  lemma PushToBlockEnd(ctx: Context, s: seq<Byte>)
    requires ctx.Ok() && s != [] && ctx.count + |s| == 64
    ensures PushAll(ctx, s) == ctx.(h := Compress(ctx.h, WordsOf(ctx.m[..ctx.count] + s)), m := Zeros(64), count := 0)
  {
    hide Push, PushAll, Compress, WordsOf, Zeros;
    var most, last := s[..|s| - 1], s[|s| - 1];
    assert s == most + [last];
    PushOneMore(ctx, most, last);
    PushWithinBlock(ctx, most);
    var mid := PushAll(ctx, most);
    assert mid.m[63 := last] == ctx.m[..ctx.count] + s;
    PushLast(mid, last);
  }

  /** The octet that completes a block. */
  lemma PushLast(ctx: Context, b: Byte)
    requires ctx.Ok() && ctx.count == 63
    ensures Push(ctx, b) == ctx.(h := Compress(ctx.h, WordsOf(ctx.m[63 := b])), m := Zeros(64), count := 0)
  {
    hide Compress, WordsOf, Zeros;
  }

  /** Pushing whole blocks from an empty buffer is the block-by-block hash of the standard. */
  lemma {:induction false} PushBlocks(ctx: Context, s: seq<Byte>)
    requires ctx.Ok() && ctx.count == 0 && |s| % 64 == 0
    ensures PushAll(ctx, s).h == HashBlocks(ctx.h, s)
    decreases |s|
  {
    if s != [] {
      var first, rest := s[..64], s[64..];
      assert s == first + rest;
      PushAllAppends(ctx, first, rest);
      PushToBlockEnd(ctx, first);
      assert ctx.m[..0] + first == first;
      PushBlocks(PushAll(ctx, first), rest);
    }
  }

  /** Hashing and then padding is the digest, for every message whose bit length fits 64 bits. */
  lemma PaddedPushIsDigest(msg: seq<Byte>)
    requires |msg| < 0x2000_0000_0000_0000
    ensures PushAll(Absorb(FRESH, msg), Tail(Absorb(FRESH, msg))).h == HashBlocks(INITIAL, Padded(msg))
  {
    hide BigEndian, HashBlocks, WordsOf, Push;
    var ctx := Absorb(FRESH, msg);
    assert ctx.c == 8 * |msg|;
    assert Tail(ctx) == Padding(|msg|);
    PushAllIgnoresCounter(PushAll(FRESH, msg), ctx.c, Padding(|msg|));
    PushAllAppends(FRESH, msg, Padding(|msg|));
    PushBlocks(FRESH, Padded(msg));
  }

  // ------------------------------------------------------------------
  // The context as the source keeps it
  // ------------------------------------------------------------------

  /** Four octets of memory read as a little-endian word. */
  function HostWord(s: seq<Byte>): Word
    requires |s| == 4
  {
    LittleEndianBound(s);
    Sizes();
    Word(LittleEndianValue(s) as bv32)
  }

  lemma HostWordOfSwapped(s: seq<Byte>)
    requires |s| == 4
    ensures HostWord([s[3], s[2], s[1], s[0]]) == WordOf(s)
  {
    hide LittleEndianValue, BigEndianValue, Pow256;
    var swapped: seq<Byte> := [s[3], s[2], s[1], s[0]];
    assert forall k :: 0 <= k < |s| ==> swapped[k] == s[|s| - 1 - k];
    EndianMirrorValue(s, swapped);
  }

  class Sha1Context {
    var h: Chain
    var c: nat
    const m: array<Byte>
    var count: nat

    ghost predicate Valid()
      reads this, m
    {
      m.Length == 64 && State().Ok()
    }

    ghost function State(): Context
      reads this, m
    {
      Context(h, c, m[..], count)
    }

    /** sha1_init */
    constructor ()
      ensures Valid() && State() == FRESH
      ensures fresh(m)
    {
      h := INITIAL;
      c := 0;
      count := 0;
      m := new Byte[64](_ => 0);
      new;
      assert m[..] == Zeros(64);
    }

    /** The block as sixteen host words: octets are swapped in place, then read little endian. */
    method LoadWords() returns (w: array<Word>)
      requires m.Length == 64
      ensures fresh(w) && w.Length == 16 && w[..] == WordsOf(m[..])
    {
      hide HostWord, WordOf;
      w := new Word[16](_ => Word(0));
      for i := 0 to 16
        invariant forall j :: 0 <= j < i ==> w[j] == WordOf(m[..][4 * j..4 * j + 4])
      {
        w[i] := HostWord([m[4 * i + 3], m[4 * i + 2], m[4 * i + 1], m[4 * i]]);
        HostWordOfSwapped(m[..][4 * i..4 * i + 4]);
      }
    }

    /** sha1_step: eighty rounds over a sixteen-word circular schedule, overwritten in place. */
    method Step()
      requires m.Length == 64
      modifies this`h, m
      ensures h == Compress(old(h), WordsOf(old(m[..])))
      ensures m[..] == Zeros(64)
    {
      hide Sum, S5, S30, Choose, Parity, Majority, Schedule, Window, Slot, WordOf;
      ghost var block := WordsOf(m[..]);
      var w := LoadWords();
      WindowStarts(block);
      var a, b, c, d, e := h.a, h.b, h.c, h.d, h.e;
      for t := 0 to 20
        invariant h == old(h) && w.Length == 16 && Window(w[..], block, t)
        invariant Chain(a, b, c, d, e) == Rounds(h, block, t)
      {
        if t >= 16 {
          ScheduleStep(w, block, t);
        } else {
          WindowIdle(w[..], block, t);
        }
        var tmp := Sum(Sum(Sum(Sum(S5(a), Choose(b, c, d)), e), w[Slot(t)]), CONSTANTS[t / 20]);
        a, b, c, d, e := tmp, a, S30(b), c, d;
      }
      for t := 20 to 40
        invariant h == old(h) && w.Length == 16 && Window(w[..], block, t)
        invariant Chain(a, b, c, d, e) == Rounds(h, block, t)
      {
        ScheduleStep(w, block, t);
        var tmp := Sum(Sum(Sum(Sum(S5(a), Parity(b, c, d)), e), w[Slot(t)]), CONSTANTS[t / 20]);
        a, b, c, d, e := tmp, a, S30(b), c, d;
      }
      for t := 40 to 60
        invariant h == old(h) && w.Length == 16 && Window(w[..], block, t)
        invariant Chain(a, b, c, d, e) == Rounds(h, block, t)
      {
        ScheduleStep(w, block, t);
        var tmp := Sum(Sum(Sum(Sum(S5(a), Majority(b, c, d)), e), w[Slot(t)]), CONSTANTS[t / 20]);
        a, b, c, d, e := tmp, a, S30(b), c, d;
      }
      for t := 60 to 80
        invariant h == old(h) && w.Length == 16 && Window(w[..], block, t)
        invariant Chain(a, b, c, d, e) == Rounds(h, block, t)
      {
        ScheduleStep(w, block, t);
        var tmp := Sum(Sum(Sum(Sum(S5(a), Parity(b, c, d)), e), w[Slot(t)]), CONSTANTS[t / 20]);
        a, b, c, d, e := tmp, a, S30(b), c, d;
      }
      h := Chain(Sum(h.a, a), Sum(h.b, b), Sum(h.c, c), Sum(h.d, d), Sum(h.e, e));
      forall i | 0 <= i < 64 { m[i] := 0; }
      assert m[..] == Zeros(64);
    }

    /** memcpy (or bzero) of part of the block buffer. */
    method Store(at: nat, s: seq<Byte>)
      requires m.Length == 64 && at + |s| <= 64
      modifies m
      ensures m[..] == old(m[..at]) + s + old(m[at + |s|..])
    {
      forall k | 0 <= k < |s| { m[at + k] := s[k]; }
    }

    /** The PUTPAD macro. */
    method PutPad(x: Byte)
      requires Valid()
      modifies this`h, this`count, m
      ensures Valid() && State() == Push(old(State()), x)
    {
      hide WordsOf, Compress;
      m[count % 64] := x;
      count := count + 1;
      count := count % 64;
      if count % 64 == 0 {
        Step();
      }
    }

    /** Copy a piece that ends at or before the end of the block, and compress a full block. */
    method Fill(s: seq<Byte>)
      requires Valid() && s != [] && count + |s| <= 64
      modifies this`h, this`count, m
      ensures Valid() && State() == PushAll(old(State()), s)
    {
      hide WordsOf, Compress, PushAll, Push, Zeros;
      ghost var before := State();
      BlockEnd(count, |s|);
      Store(count % 64, s);
      count := count + |s|;
      count := count % 64;
      if count % 64 == 0 {
        PushToBlockEnd(before, s);
        NothingBehind(before.m[..before.count] + s, before.m);
        Step();
      } else {
        PushWithinBlock(before, s);
      }
    }

    /** sha1_loop */
    method Loop(input: seq<Byte>)
      requires Valid()
      modifies this, m
      ensures Valid() && State() == Absorb(old(State()), input)
    {
      hide PushAll;
      var off := 0;
      AbsorbNothing(State());
      while off < |input|
        invariant Valid() && off <= |input|
        invariant State() == Absorb(old(State()), input[..off])
      {
        var gaplen := 64 - count % 64;
        var copysiz := if gaplen < |input| - off then gaplen else |input| - off;
        var piece := input[off..off + copysiz];
        ghost var before := State();
        Fill(piece);
        c := (c + copysiz * 8) % COUNTER_LIMIT;
        AbsorbIsIndependentOfSplitting(old(State()), input[..off], piece);
        assert input[..off] + piece == input[..off + copysiz];
        assert State() == Absorb(before, piece);
        off := off + copysiz;
      }
      assert input[..off] == input;
    }

    /** sha1_pad: the octet 0x80, zeros (through one or two blocks), and the eight counter octets. */
    method Pad()
      requires Valid()
      modifies this`h, this`count, m
      ensures Valid() && State() == PushAll(old(State()), Tail(old(State())))
    {
      hide PushAll, Push, BigEndian, Tail;
      ghost var start := State();
      PutPad(0x80);
      ghost var zeros := PadZeros();
      PutCounter();
      TailInSteps(start, zeros);
    }

    /** The zero octets up to offset 56, closing the current block first when fewer than eight remain. */
    method PadZeros() returns (ghost zeros: nat)
      requires Valid()
      modifies this`h, this`count, m
      ensures zeros == if old(count) <= 56 then 56 - old(count) else 120 - old(count)
      ensures Valid() && State() == PushAll(old(State()), Zeros(zeros))
    {
      hide PushAll, Push;
      ghost var marked := State();
      var padstart := count % 64;
      var padlen := 64 - padstart;
      ghost var first := 0;
      if padlen < 8 {
        first := padlen;
        CloseBlock(padstart, padlen);
        padstart := count % 64;
        padlen := 64 - padstart;
      } else {
        PushNothing(marked);
        assert Zeros(0) == [];
      }
      zeros := first + (padlen - 8);
      PushWithinBlock(State(), Zeros(padlen - 8));
      PushZeros(marked, first, padlen - 8);
      Store(padstart, Zeros(padlen - 8));
      count := count + (padlen - 8);
      count := count % 64;
    }

    method CloseBlock(padstart: nat, padlen: nat)
      requires Valid() && padstart == count && padlen == 64 - count
      modifies this`h, this`count, m
      ensures Valid() && State() == PushAll(old(State()), Zeros(padlen))
    {
      hide PushAll, Push, WordsOf, Compress;
      ghost var before := State();
      PushToBlockEnd(before, Zeros(padlen));
      Store(padstart, Zeros(padlen));
      count := count + padlen;
      count := count % 64;
      assert m[..] == before.m[..before.count] + Zeros(padlen);
      Step();
    }

    /** The eight counter octets, read from memory last to first. */
    method PutCounter()
      requires Valid()
      modifies this`h, this`count, m
      ensures Valid() && State() == PushAll(old(State()), BigEndian(c, 8))
    {
      hide PushAll, Push, BigEndian, LittleEndian;
      ghost var octets := BigEndian(c, 8);
      PushNothing(State());
      for i := 0 to 8
        invariant Valid() && c == old(c)
        invariant State() == PushAll(old(State()), octets[..i])
      {
        EndianMirror(c, 8, i);
        PutPad(LittleEndian(c, 8)[7 - i]);
        PushOneMore(old(State()), octets[..i], octets[i]);
        assert octets[..i] + [octets[i]] == octets[..i + 1];
      }
      assert octets[..8] == octets;
    }

    /** sha1_result */
    method Result() returns (digest: seq<Byte>)
      requires Valid()
      modifies this`h, this`count, m
      ensures digest == ChainBytes(PushAll(old(State()), Tail(old(State()))).h)
    {
      hide PushAll, WordBytes;
      Pad();
      digest := DigestWord(h.a) + DigestWord(h.b) + DigestWord(h.c) + DigestWord(h.d) + DigestWord(h.e);
    }
  }

  /** The octets of a word in memory, taken last to first. */
  function DigestWord(w: Word): (s: seq<Byte>)
    ensures s == WordBytes(w)
  {
    hide BigEndian, LittleEndian;
    var host := LittleEndian(w.bits as int, 4);
    EndianMirror(w.bits as int, 4, 0);
    EndianMirror(w.bits as int, 4, 1);
    EndianMirror(w.bits as int, 4, 2);
    EndianMirror(w.bits as int, 4, 3);
    [host[3], host[2], host[1], host[0]]
  }

  /** SHA1: the digest of the standard, for every message whose length in bits fits the counter. */
  method SHA1(d: seq<Byte>) returns (md: seq<Byte>)
    requires |d| < 0x2000_0000_0000_0000
    ensures md == Digest(d)
  {
    hide Absorb, PushAll, Tail, HashBlocks, ChainBytes;
    var ctx := new Sha1Context();
    ctx.Loop(d);
    md := ctx.Result();
    PaddedPushIsDigest(d);
  }

  const CONSTANTS: seq<Word> := [K1, K2, K3, K4]

  /** Overwrite the slot of round `t` with the next word of the expansion. */
  method ScheduleStep(w: array<Word>, ghost block: seq<Word>, t: nat)
    requires |block| == 16 && t >= 16 && w.Length == 16
    requires Window(w[..], block, t)
    modifies w
    ensures Window(w[..], block, t + 1) && w[Slot(t)] == Schedule(block, t)
  {
    hide Schedule, Mix, Slot;
    var s := Slot(t);
    NextWord(w[..], block, t);
    AdvanceWindow(w[..], block, t, Schedule(block, t));
    w[s] := Mix(w[(s + 13) % 16], w[(s + 8) % 16], w[(s + 2) % 16], w[s]);
  }

  /** The place of schedule word `j` in the circular buffer: the four low bits of `j`. */
  function Slot(j: nat): (s: nat)
    ensures s < 16
  {
    j % 16
  }

  /** Before round `t` the sixteen slots hold the sixteen most recent words of the expansion. */
  ghost predicate Window(w: seq<Word>, block: seq<Word>, t: nat)
    requires |block| == 16
  {
    |w| == 16 &&
    forall j :: (if t < 16 then 0 else t - 16) <= j < (if t < 16 then 16 else t) ==> w[Slot(j)] == Schedule(block, j)
  }

  lemma WindowStarts(block: seq<Word>)
    requires |block| == 16
    ensures Window(block, block, 0)
  {
    forall j | 0 <= j < 16
      ensures block[Slot(j)] == Schedule(block, j)
    {
    }
  }

  /** The first sixteen rounds read the block as it was loaded. */
  lemma WindowIdle(w: seq<Word>, block: seq<Word>, t: nat)
    requires |block| == 16 && t < 16 && Window(w, block, t)
    ensures Window(w, block, t + 1) && w[Slot(t)] == Schedule(block, t)
  {
    assert Slot(t) == t;
  }

  /** Slot arithmetic modulo sixteen: the offsets +13, +8, +2 and +0 are t-3, t-8, t-14 and t-16. */
  lemma Slots(t: nat, k: nat)
    requires t >= 16 && k <= 16
    ensures Slot(t - k) == (Slot(t) + 16 - k) % 16
    ensures 0 < k < 16 ==> Slot(t - k) != Slot(t)
  {
  }

  lemma ScheduleUnfolds(block: seq<Word>, t: nat)
    requires |block| == 16 && t >= 16
    ensures Schedule(block, t)
         == Mix(Schedule(block, t - 3), Schedule(block, t - 8), Schedule(block, t - 14), Schedule(block, t - 16))
  {
    hide Mix;
  }

  /** A slot read `k` rounds back still holds the word of that round. */
  lemma SlotHolds(w: seq<Word>, block: seq<Word>, t: nat, k: nat)
    requires |block| == 16 && t >= 16 && 0 < k <= 16 && Window(w, block, t)
    ensures w[(Slot(t) + 16 - k) % 16] == Schedule(block, t - k)
  {
    hide Schedule, Slot;
    Slots(t, k);
  }

  /** The recurrence reads its four inputs from the slots that still hold them. */
  lemma NextWord(w: seq<Word>, block: seq<Word>, t: nat)
    requires |block| == 16 && t >= 16 && Window(w, block, t)
    ensures var s := Slot(t);
            Mix(w[(s + 13) % 16], w[(s + 8) % 16], w[(s + 2) % 16], w[s]) == Schedule(block, t)
  {
    hide Schedule, Mix, Slot, Window;
    SlotHolds(w, block, t, 3);
    SlotHolds(w, block, t, 8);
    SlotHolds(w, block, t, 14);
    SlotHolds(w, block, t, 16);
    ScheduleUnfolds(block, t);
  }

  lemma AdvanceWindow(w: seq<Word>, block: seq<Word>, t: nat, x: Word)
    requires |block| == 16 && t >= 16 && Window(w, block, t)
    requires x == Schedule(block, t)
    ensures Window(w[Slot(t) := x], block, t + 1)
  {
    hide Schedule, Slot;
    var v := w[Slot(t) := x];
    forall j | t - 15 <= j < t + 1
      ensures v[Slot(j)] == Schedule(block, j)
    {
      if j < t {
        Slots(t, t - j);
      }
    }
  }
}
