/** Octets, fixed-width byte orders and bitwise exclusive-or, shared by every wire format. */
module Bytes {

  type Byte = x: int | 0 <= x < 256

  function Zeros(n: nat): (s: seq<Byte>)
    ensures |s| == n
    ensures forall i :: 0 <= i < n ==> s[i] == 0
  {
    seq(n, _ => 0)
  }

  /** 256 to the power `n`: one more than the largest value of `n` octets. */
  function Pow256(n: nat): (p: nat)
    ensures p >= 1
  {
    if n == 0 then 1 else 256 * Pow256(n - 1)
  }

  /** Reducing early does not change a sum modulo `w`. */
  lemma AddModulo(x: nat, y: nat, w: nat)
    requires w > 0
    ensures (x % w + y) % w == (x + y) % w
  {
    var q, r := x / w, x % w;
    var a, rest := (r + y) / w, (r + y) % w;
    assert x + y == w * (q + a) + rest by {
      assert x == w * q + r;
      assert r + y == w * a + rest;
      assert w * (q + a) == w * q + w * a;
    }
    DivUnique(x + y, w, q + a, rest);
  }

  /** Text with one octet per character. */
  function Ascii(text: string): (s: seq<Byte>)
    ensures |s| == |text|
  {
    seq(|text|, i requires 0 <= i < |text| => text[i] as int % 256)
  }

  lemma Sizes()
    ensures Pow256(1) == 0x100 && Pow256(2) == 0x1_0000 && Pow256(4) == 0x1_0000_0000
    ensures Pow256(8) == 0x1_0000_0000_0000_0000
  {
    assert Pow256(6) == 0x1_0000_0000_0000;
  }

  /** The `n` octets that follow the first `i`. */
  lemma SliceAfter(s: seq<Byte>, i: nat, n: nat)
    requires i <= |s|
    ensures i + n <= |s| ==>
              s[i..][..n] == s[i..i + n] && s[i..][n..] == s[i + n..] && s[..i] + s[i..][..n] == s[..i + n]
  {
  }

  // ------------------------------------------------------------------
  // Big endian (network order)
  // ------------------------------------------------------------------

  /** The `n` low octets of `v`, most significant first. `v` may be negative: `/` and `%` by a
      positive number then act as the arithmetic shift and mask of two's complement. */
  function BigEndian(v: int, n: nat): (s: seq<Byte>)
    ensures |s| == n
    decreases n
  {
    if n == 0 then [] else BigEndian(v / 256, n - 1) + [v % 256]
  }

  function BigEndianValue(s: seq<Byte>): (v: nat)
  {
    if s == [] then 0 else 256 * BigEndianValue(s[..|s| - 1]) + s[|s| - 1]
  }

  /** Quotient and remainder of one octet. */
  lemma OctetSplit(v: int, p: nat)
    ensures v == 256 * (v / 256) + v % 256
    ensures 0 <= v < 256 * p ==> 0 <= v / 256 < p
  {
  }

  /** Appending an octet shifts the value by eight bits. */
  lemma BigEndianAppend(s: seq<Byte>, b: Byte)
    ensures BigEndianValue(s + [b]) == 256 * BigEndianValue(s) + b
  {
    assert (s + [b])[..|s|] == s;
  }

  lemma {:induction false} BigEndianConcat(s: seq<Byte>, t: seq<Byte>)
    ensures BigEndianValue(s + t) == BigEndianValue(s) * Pow256(|t|) + BigEndianValue(t)
    decreases |t|
  {
    if t == [] {
      assert s + t == s;
    } else {
      var front, last := t[..|t| - 1], t[|t| - 1];
      assert s + t == s + front + [last];
      BigEndianAppend(s + front, last);
      BigEndianConcat(s, front);
      BigEndianAppend(front, last);
      assert t == front + [last];
      Shuffle(BigEndianValue(s), Pow256(|front|));
    }
  }

  lemma Shuffle(x: int, y: int)
    ensures 256 * (x * y) == x * (256 * y)
  {
  }

  lemma {:induction false} BigEndianRoundTrip(v: nat, n: nat)
    requires v < Pow256(n)
    ensures BigEndianValue(BigEndian(v, n)) == v
    decreases n
  {
    if n > 0 {
      OctetSplit(v, Pow256(n - 1));
      BigEndianAppend(BigEndian(v / 256, n - 1), v % 256);
      BigEndianRoundTrip(v / 256, n - 1);
    }
  }

  lemma {:induction false} BigEndianBound(s: seq<Byte>)
    ensures BigEndianValue(s) < Pow256(|s|)
  {
    if s != [] {
      BigEndianBound(s[..|s| - 1]);
    }
  }

  lemma {:induction false} BigEndianInverse(s: seq<Byte>)
    ensures BigEndian(BigEndianValue(s), |s|) == s
  {
    if s != [] {
      var front, v := s[..|s| - 1], BigEndianValue(s);
      BigEndianInverse(front);
      OctetJoin(BigEndianValue(front), s[|s| - 1]);
    }
  }

  lemma OctetJoin(q: int, r: Byte)
    ensures (256 * q + r) / 256 == q && (256 * q + r) % 256 == r
  {
  }

  /** Adding a multiple of 256^n does not change the `n` low octets. */
  lemma {:induction false} BigEndianWraps(v: int, n: nat)
    ensures BigEndian(v + Pow256(n), n) == BigEndian(v, n)
    decreases n
  {
    if n > 0 {
      assert (v + Pow256(n)) / 256 == v / 256 + Pow256(n - 1);
      BigEndianWraps(v / 256, n - 1);
    }
  }

  /** Only the value modulo 256^n matters. */
  lemma {:induction false} BigEndianModulo(v: int, n: nat)
    ensures BigEndian(v % Pow256(n), n) == BigEndian(v, n)
    decreases n
  {
    hide BigEndian, Pow256;
    if n == 0 {
      NoOctet(v, v % Pow256(n));
    } else {
      OctetsUnfold(v, n);
      OctetsUnfold(v % Pow256(n), n);
      ModuloOctet(v, Pow256(n - 1));
      BigEndianModulo(v / 256, n - 1);
    }
  }

  lemma NoOctet(v: int, w: int)
    ensures BigEndian(v, 0) == BigEndian(w, 0)
  {
  }

  lemma OctetsUnfold(v: int, n: nat)
    requires n > 0
    ensures BigEndian(v, n) == BigEndian(v / 256, n - 1) + [v % 256] && Pow256(n) == 256 * Pow256(n - 1)
  {
  }

  /** The lowest octet, and the octets above it, of a value reduced modulo 256 * p. */
  lemma ModuloOctet(v: int, p: nat)
    requires p > 0
    ensures v % (256 * p) / 256 == v / 256 % p && v % (256 * p) % 256 == v % 256
  {
    var q, r := v / 256 / p, v / 256 % p;
    NestedDivision(v, 256, p, v / 256, v % 256, q, r);
    DivUnique(v, 256 * p, q, 256 * r + v % 256);
    OctetJoin(r, v % 256);
  }

  /** A wide field is its high octets followed by its low octets. */
  lemma {:induction false} BigEndianSplit(v: int, hi: nat, lo: nat)
    ensures BigEndian(v, hi + lo) == BigEndian(v / Pow256(lo), hi) + BigEndian(v, lo)
    decreases lo
  {
    if lo == 0 {
      assert v / Pow256(0) == v;
    } else {
      BigEndianSplit(v / 256, hi, lo - 1);
      DivDiv(v, 256, Pow256(lo - 1));
    }
  }

  /** Each octet is a shift and a mask of the value. */
  lemma {:induction false} BigEndianOctet(v: int, n: nat, k: nat)
    requires k < n
    ensures BigEndian(v, n)[n - 1 - k] == v / Pow256(k) % 256
    decreases n
  {
    if k > 0 {
      BigEndianOctet(v / 256, n - 1, k - 1);
      DivDiv(v, 256, Pow256(k - 1));
    }
  }

  /** Short fields, octet by octet. */
  lemma Octets(v: int)
    ensures BigEndian(v, 1) == [v % 256]
    ensures BigEndian(v, 2) == [v / 0x100 % 256, v % 256]
    ensures BigEndian(v, 4) == [v / 0x100_0000 % 256, v / 0x1_0000 % 256, v / 0x100 % 256, v % 256]
  {
    hide BigEndian;
    assert Pow256(0) == 1 && Pow256(1) == 0x100 && Pow256(2) == 0x1_0000 && Pow256(3) == 0x100_0000;
    BigEndianOctet(v, 1, 0);
    BigEndianOctet(v, 2, 0);
    BigEndianOctet(v, 2, 1);
    BigEndianOctet(v, 4, 0);
    BigEndianOctet(v, 4, 1);
    BigEndianOctet(v, 4, 2);
    BigEndianOctet(v, 4, 3);
  }

  lemma DivDiv(v: int, m: nat, p: nat)
    requires m >= 1 && p >= 1
    ensures v / m / p == v / (m * p)
  {
    var q, r := v / m, v % m;
    var a, b := q / p, q % p;
    NestedDivision(v, m, p, q, r, a, b);
    DivUnique(v, m * p, a, m * b + r);
  }

  lemma NestedDivision(v: int, m: nat, p: nat, q: int, r: int, a: int, b: int)
    requires v == m * q + r && 0 <= r < m && q == p * a + b && 0 <= b < p
    ensures v == m * p * a + (m * b + r) && 0 <= m * b + r < m * p
  {
    Distribute(m, p * a, b);
    Associate(m, p, a);
    Distribute(m, p - 1, 1);
    Monotone(m, b, p - 1);
  }

  lemma Distribute(m: int, x: int, y: int)
    ensures m * (x + y) == m * x + m * y
  {
  }

  lemma Associate(m: int, p: int, a: int)
    ensures m * (p * a) == m * p * a
  {
  }

  lemma Monotone(m: nat, x: int, y: int)
    requires x <= y
    ensures m * x <= m * y
  {
  }

  lemma DivUnique(v: int, w: nat, a: int, rest: int)
    requires v == w * a + rest && 0 <= rest < w
    ensures v / w == a && v % w == rest
  {
    var d := v / w - a;
    assert w * d == rest - v % w by {
      assert w * (v / w) + v % w == v;
      assert w * d == w * (v / w) - w * a;
    }
  }

  // ------------------------------------------------------------------
  // Little endian (host order of the boards and of the client)
  // ------------------------------------------------------------------

  function LittleEndian(v: int, n: nat): (s: seq<Byte>)
    ensures |s| == n
    decreases n
  {
    if n == 0 then [] else [v % 256] + LittleEndian(v / 256, n - 1)
  }

  function LittleEndianValue(s: seq<Byte>): (v: nat)
  {
    if s == [] then 0 else s[0] + 256 * LittleEndianValue(s[1..])
  }

  lemma {:induction false} LittleEndianRoundTrip(v: nat, n: nat)
    requires v < Pow256(n)
    ensures LittleEndianValue(LittleEndian(v, n)) == v
    decreases n
  {
    if n > 0 {
      var s := LittleEndian(v, n);
      assert s[1..] == LittleEndian(v / 256, n - 1);
      OctetSplit(v, Pow256(n - 1));
      LittleEndianRoundTrip(v / 256, n - 1);
    }
  }

  lemma {:induction false} LittleEndianBound(s: seq<Byte>)
    ensures LittleEndianValue(s) < Pow256(|s|)
  {
    if s != [] {
      LittleEndianBound(s[1..]);
    }
  }

  /** Each octet is a shift and a mask of the value. */
  lemma LittleEndianOctet(v: int, n: nat, k: nat)
    requires k < n
    ensures LittleEndian(v, n)[k] == v / Pow256(k) % 256
  {
    EndianMirror(v, n, n - 1 - k);
    BigEndianOctet(v, n, k);
  }

  /** The two byte orders are mirror images. */
  lemma {:induction false} EndianMirror(v: int, n: nat, k: nat)
    requires k < n
    ensures BigEndian(v, n)[k] == LittleEndian(v, n)[n - 1 - k]
    decreases n
  {
    if k < n - 1 {
      EndianMirror(v / 256, n - 1, k);
    }
  }

  lemma {:induction false} EndianMirrorValue(s: seq<Byte>, t: seq<Byte>)
    requires |s| == |t|
    requires forall k :: 0 <= k < |s| ==> t[k] == s[|s| - 1 - k]
    ensures LittleEndianValue(t) == BigEndianValue(s)
  {
    if s != [] {
      EndianMirrorValue(s[..|s| - 1], t[1..]);
    }
  }

  // ------------------------------------------------------------------
  // Exclusive or
  // ------------------------------------------------------------------

  function XorBits(x: nat, y: nat, bits: nat): (z: nat)
  {
    if bits == 0 then 0
    else (x % 2 + y % 2) % 2 + 2 * XorBits(x / 2, y / 2, bits - 1)
  }

  function Pow2(n: nat): (p: nat)
    ensures p >= 1
  {
    if n == 0 then 1 else 2 * Pow2(n - 1)
  }

  lemma {:induction false} XorBitsInvolution(x: nat, y: nat, bits: nat)
    requires x < Pow2(bits)
    ensures XorBits(XorBits(x, y, bits), y, bits) == x
    decreases bits
  {
    if bits > 0 {
      BitSplit(x, y, XorBits(x / 2, y / 2, bits - 1), Pow2(bits - 1));
      XorBitsInvolution(x / 2, y / 2, bits - 1);
    }
  }

  /** One bit of the exclusive or, and how it is undone. */
  lemma BitSplit(x: nat, y: nat, high: nat, p: nat)
    ensures x < 2 * p ==> x / 2 < p
    ensures var z := (x % 2 + y % 2) % 2 + 2 * high;
            z / 2 == high && (z % 2 + y % 2) % 2 == x % 2
  {
  }

  lemma {:induction false} XorBitsBound(x: nat, y: nat, bits: nat)
    ensures XorBits(x, y, bits) < Pow2(bits)
  {
    if bits > 0 {
      XorBitsBound(x / 2, y / 2, bits - 1);
    }
  }

  function Xor(x: Byte, y: Byte): (z: Byte)
  {
    XorBitsBound(x, y, 8);
    EightBits();
    XorBits(x, y, 8)
  }

  lemma {:induction false} XorBitsAt(x: nat, y: nat, bits: nat, k: nat)
    requires k < bits
    ensures XorBits(x, y, bits) / Pow2(k) % 2 == (x / Pow2(k) + y / Pow2(k)) % 2
    decreases bits
  {
    hide XorBits, Pow2;
    XorBitsUnfold(x, y, bits);
    if k == 0 {
      NoShift();
    } else {
      XorBitsAt(x / 2, y / 2, bits - 1, k - 1);
      ShiftOnce(x, k);
      ShiftOnce(y, k);
      ShiftOnce(XorBits(x, y, bits), k);
    }
  }

  lemma XorBitsUnfold(x: nat, y: nat, bits: nat)
    requires bits > 0
    ensures XorBits(x, y, bits) / 2 == XorBits(x / 2, y / 2, bits - 1)
    ensures XorBits(x, y, bits) % 2 == (x + y) % 2
  {
    var high := XorBits(x / 2, y / 2, bits - 1);
    assert XorBits(x, y, bits) == (x % 2 + y % 2) % 2 + 2 * high;
    hide XorBits;
    LowestBit(x, y, high);
  }

  lemma LowestBit(x: nat, y: nat, high: nat)
    ensures ((x % 2 + y % 2) % 2 + 2 * high) / 2 == high
    ensures ((x % 2 + y % 2) % 2 + 2 * high) % 2 == (x + y) % 2
  {
    var low := (x % 2 + y % 2) % 2;
    assert low == (x + y) % 2;
    DivUnique(low + 2 * high, 2, high, low);
  }

  lemma NoShift()
    ensures Pow2(0) == 1
  {
  }

  lemma ShiftOnce(x: nat, k: nat)
    requires k > 0
    ensures x / Pow2(k) == x / 2 / Pow2(k - 1)
  {
    DivDiv(x, 2, Pow2(k - 1));
  }

  /** Every bit is the sum, without carry, of the two bits in its place. */
  lemma XorIsBitwise(x: Byte, y: Byte, k: nat)
    requires k < 8
    ensures Xor(x, y) / Pow2(k) % 2 == (x / Pow2(k) + y / Pow2(k)) % 2
  {
    XorBitsAt(x, y, 8, k);
  }

  lemma EightBits()
    ensures Pow2(8) == 256
  {
    assert Pow2(4) == 16;
  }

  // The machine's exclusive or, on eight-bit vectors.

  function Bits(x: Byte): bv8
  {
    x as bv8
  }

  lemma BitsOfHalf(x: Byte)
    ensures Bits(x / 2) == Bits(x) >> 1
  {
  }

  lemma LowestOfBits(x: Byte)
    ensures Bits(x) & 1 == Bits(x % 2)
  {
  }

  lemma ZeroAndOne()
    ensures Bits(0) == 0 && Bits(1) == 1
  {
  }

  lemma JoinBits(a: bv8, b: bv8, c: bv8)
    requires c >> 1 == (a >> 1) ^ (b >> 1) && c & 1 == (a & 1) ^ (b & 1)
    ensures c == a ^ b
  {
  }

  lemma LowestXor(x: Byte, y: Byte)
    ensures Bits((x + y) % 2) == Bits(x % 2) ^ Bits(y % 2)
  {
    hide Bits;
    ZeroAndOne();
    if x % 2 == 0 {
      assert (x + y) % 2 == y % 2;
    } else if y % 2 == 0 {
      assert (x + y) % 2 == 1;
    } else {
      assert (x + y) % 2 == 0;
    }
  }

  lemma Pow2Unfold(n: nat)
    ensures Pow2(n) == if n == 0 then 1 else 2 * Pow2(n - 1)
    ensures n <= 8 ==> Pow2(n) <= 256
  {
    if n <= 8 {
      assert Pow2(4) == 16;
    }
  }

  lemma OctetHalf(x: Byte, p: nat)
    requires x < 2 * p
    ensures x / 2 < p
  {
  }

  lemma {:induction false} XorBitsVector(x: Byte, y: Byte, n: nat)
    requires n <= 8 && x < Pow2(n) && y < Pow2(n)
    ensures XorBits(x, y, n) < 256 && Bits(XorBits(x, y, n)) == Bits(x) ^ Bits(y)
    decreases n
  {
    hide Bits, Pow2;
    XorBitsBound(x, y, n);
    Pow2Unfold(n);
    if n == 0 {
      ZeroAndOne();
    } else {
      hide XorBits;
      XorBitsUnfold(x, y, n);
      var z: Byte := XorBits(x, y, n);
      OctetHalf(x, Pow2(n - 1));
      OctetHalf(y, Pow2(n - 1));
      XorBitsVector(x / 2, y / 2, n - 1);
      BitsOfHalf(x);
      BitsOfHalf(y);
      BitsOfHalf(z);
      LowestOfBits(x);
      LowestOfBits(y);
      LowestOfBits(z);
      LowestXor(x, y);
      JoinBits(Bits(x), Bits(y), Bits(z));
    }
  }

  lemma XorIsVectorXor(x: Byte, y: Byte)
    ensures Bits(Xor(x, y)) == Bits(x) ^ Bits(y)
  {
    EightBits();
    XorBitsVector(x, y, 8);
  }

  /** Different octets have different bits. */
  lemma {:induction false} BitsAreInjective(x: Byte, y: Byte)
    requires Bits(x) == Bits(y)
    ensures x == y
    decreases x
  {
    hide Bits;
    LowestOfBits(x);
    LowestOfBits(y);
    ZeroAndOne();
    assert x % 2 == y % 2;
    if x == 0 || y == 0 {
      OnlyZero(x);
      OnlyZero(y);
    } else {
      BitsOfHalf(x);
      BitsOfHalf(y);
      BitsAreInjective(x / 2, y / 2);
    }
  }

  lemma {:induction false} OnlyZero(x: Byte)
    ensures Bits(x) == 0 <==> x == 0
    decreases x
  {
    hide Bits;
    ZeroAndOne();
    LowestOfBits(x);
    BitsOfHalf(x);
    if x > 0 {
      OnlyZero(x / 2);
    }
  }

  lemma XorInvolution(x: Byte, y: Byte)
    ensures Xor(Xor(x, y), y) == x
  {
    EightBits();
    XorBitsInvolution(x, y, 8);
  }
}
