/**
 server/core/base64.cpp against section 4 of RFC 4648. Text is a sequence of octets; bit masks and
 shifts on octets are written as `/` and `%` by powers of two.
 */
module Base64 {
  import opened Bytes

  const PAD: Byte := 61  // '='

  /** What the decoder stores for a character outside the alphabet (npos cut to one octet). */
  const NOT_FOUND: Byte := 255

  /** Table 1 of RFC 4648: A-Z, a-z, 0-9, plus and slash. */
  function Alphabet(i: Byte): (c: Byte)
    requires i < 64
  {
    if i < 26 then 65 + i
    else if i < 52 then 97 + (i - 26)
    else if i < 62 then 48 + (i - 52)
    else if i == 62 then 43
    else 47
  }

  predicate IsBase64(c: Byte)
  {
    65 <= c <= 90 || 97 <= c <= 122 || 48 <= c <= 57 || c == 43 || c == 47
  }

  /** Position of a character in the alphabet. */
  function Find(c: Byte): (i: Byte)
    ensures IsBase64(c) ==> i < 64 && Alphabet(i) == c
    ensures !IsBase64(c) ==> i == NOT_FOUND
  {
    if 65 <= c <= 90 then c - 65
    else if 97 <= c <= 122 then c - 97 + 26
    else if 48 <= c <= 57 then c - 48 + 52
    else if c == 43 then 62
    else if c == 47 then 63
    else NOT_FOUND
  }

  lemma AlphabetIsInjective(i: Byte)
    requires i < 64
    ensures IsBase64(Alphabet(i)) && Alphabet(i) != PAD && Find(Alphabet(i)) == i
  {
  }

  // ------------------------------------------------------------------
  // RFC 4648: 24-bit groups
  // ------------------------------------------------------------------

  function Group(x: Byte, y: Byte, z: Byte): (n: nat)
    ensures n < 0x100_0000
  {
    x * 0x1_0000 + y * 0x100 + z
  }

  /** Four characters for a 24-bit group, most significant six bits first. */
  function GroupChars(n: nat): (s: seq<Byte>)
    requires n < 0x100_0000
    ensures |s| == 4
  {
    [Alphabet(n / 0x4_0000), Alphabet(n / 0x1000 % 64), Alphabet(n / 64 % 64), Alphabet(n % 64)]
  }

  /** The standard encoding: a short final group is completed with zero bits and padded. */
  function Rfc4648(x: seq<Byte>): (s: seq<Byte>)
  {
    if |x| == 0 then []
    else if |x| == 1 then GroupChars(Group(x[0], 0, 0))[..2] + [PAD, PAD]
    else if |x| == 2 then GroupChars(Group(x[0], x[1], 0))[..3] + [PAD]
    else GroupChars(Group(x[0], x[1], x[2])) + Rfc4648(x[3..])
  }

  lemma {:induction false} EncodedLength(x: seq<Byte>)
    ensures |Rfc4648(x)| == 4 * ((|x| + 2) / 3)
    decreases |x|
  {
    hide GroupChars, Group;
    if |x| >= 3 {
      EncodedLength(x[3..]);
      assert (|x| + 2) / 3 == 1 + (|x| - 1) / 3;
    }
  }

  lemma {:induction false} Rfc4648Appends(x: seq<Byte>, y: seq<Byte>)
    requires |x| % 3 == 0
    ensures Rfc4648(x + y) == Rfc4648(x) + Rfc4648(y)
    decreases |x|
  {
    hide GroupChars, Group;
    if x == [] {
      assert x + y == y;
    } else {
      assert (x + y)[3..] == x[3..] + y;
      Rfc4648Appends(x[3..], y);
    }
  }

  // ------------------------------------------------------------------
  // The encoder
  // ------------------------------------------------------------------

  /** char_array_4 computed from char_array_3 by masks and shifts. */
  function Sextets(x: Byte, y: Byte, z: Byte): (s: seq<Byte>)
    ensures |s| == 4 && forall i :: 0 <= i < 4 ==> s[i] < 64
  {
    [x / 4, x % 4 * 16 + y / 16, y % 16 * 4 + z / 64, z % 64]
  }

  function Chars(s: seq<Byte>): (r: seq<Byte>)
    requires forall i :: 0 <= i < |s| ==> s[i] < 64
    ensures |r| == |s|
  {
    seq(|s|, i requires 0 <= i < |s| => Alphabet(s[i]))
  }

  lemma SextetsAreGroupBits(x: Byte, y: Byte, z: Byte)
    ensures Chars(Sextets(x, y, z)) == GroupChars(Group(x, y, z))
  {
    var v := Sextets(x, y, z);
    OctetBits(x, 4);
    OctetBits(y, 16);
    OctetBits(z, 64);
    SixBitDigits(v[0], v[1], v[2], v[3]);
    var a: int, b: int, c: int, d: int := v[0], v[1], v[2], v[3];
    assert Group(x, y, z) == a * 0x4_0000 + b * 0x1000 + c * 64 + d;
  }

  lemma OctetBits(x: Byte, p: nat)
    requires p > 0
    ensures x == p * (x / p) + x % p
  {
  }

  /** A 24-bit number given by its four six-bit digits has exactly those digits. */
  lemma SixBitDigits(a: nat, b: nat, c: nat, d: nat)
    requires a < 64 && b < 64 && c < 64 && d < 64
    ensures var n := a * 0x4_0000 + b * 0x1000 + c * 64 + d;
            n / 0x4_0000 == a && n / 0x1000 % 64 == b && n / 64 % 64 == c && n % 64 == d
  {
    var n := a * 0x4_0000 + b * 0x1000 + c * 64 + d;
    DivUnique(n, 0x4_0000, a, b * 0x1000 + c * 64 + d);
    DivUnique(n, 0x1000, a * 64 + b, c * 64 + d);
    DivUnique(a * 64 + b, 64, a, b);
    DivUnique(n, 64, a * 0x1000 + b * 64 + c, d);
    DivUnique(a * 0x1000 + b * 64 + c, 64, a * 64 + b, c);
  }

  method Encode(bytes: seq<Byte>) returns (ret: seq<Byte>)
    ensures ret == Rfc4648(bytes)
  {
    hide GroupChars, Group, Sextets, Alphabet, Rfc4648;
    ret := [];
    EmptyText();
    var i, next := 0, 0;
    ghost var groups := 0;
    var three := new Byte[3](_ => 0);
    while next < |bytes|
      invariant 0 <= i < 3 && next == 3 * groups + i <= |bytes|
      invariant forall k :: 0 <= k < i ==> three[k] == bytes[next - i + k]
      invariant ret == Rfc4648(bytes[..next - i])
    {
      three[i] := bytes[next];
      i, next := i + 1, next + 1;
      if i == 3 {
        ret := ret + Chars(Sextets(three[0], three[1], three[2]));
        groups := groups + 1;
        GroupStep(bytes, groups);
        i := 0;
      }
    }
    assert bytes == bytes[..next - i] + bytes[next - i..];
    assert three[..i] == bytes[next - i..];
    Rfc4648Appends(bytes[..next - i], bytes[next - i..]);
    if i != 0 {
      var tail := EncodeTail(three, i);
      ret := ret + tail;
    }
  }

  /** The last, incomplete group: zero octets are added, then padding characters. */
  method EncodeTail(three: array<Byte>, count: nat) returns (ret: seq<Byte>)
    requires three.Length == 3 && 0 < count < 3
    modifies three
    ensures ret == Rfc4648(old(three[..count]))
  {
    hide GroupChars, Group, Sextets, Alphabet;
    for j := count to 3
      invariant three[..count] == old(three[..count])
      invariant forall k :: count <= k < j ==> three[k] == 0
    {
      three[j] := 0;
    }
    ghost var chars := Chars(Sextets(three[0], three[1], three[2]));
    ret := Chars(Sextets(three[0], three[1], three[2]))[..count + 1];
    for i := count to 3
      invariant ret == chars[..count + 1] + seq(i - count, _ => PAD)
    {
      ret := ret + [PAD];
    }
    SextetsAreGroupBits(three[0], three[1], three[2]);
    TailEncoding(three[..count]);
  }

  lemma EmptyText()
    ensures Rfc4648([]) == [] && DecodeChars([], NOT_FOUND) == []
  {
  }

  lemma GroupStep(bytes: seq<Byte>, groups: nat)
    requires 0 < groups && 3 * groups <= |bytes|
    ensures var next := 3 * groups;
            var last := Chars(Sextets(bytes[next - 3], bytes[next - 2], bytes[next - 1]));
            Rfc4648(bytes[..next]) == Rfc4648(bytes[..next - 3]) + last
  {
    var next := 3 * groups;
    hide GroupChars, Group, Sextets, Alphabet;
    var last := bytes[next - 3..next];
    assert bytes[..next] == bytes[..next - 3] + last;
    Rfc4648Appends(bytes[..next - 3], last);
    SextetsAreGroupBits(last[0], last[1], last[2]);
    assert Rfc4648(last[3..]) == [];
  }

  lemma TailEncoding(t: seq<Byte>)
    requires 0 < |t| < 3
    ensures Rfc4648(t)
         == GroupChars(Group(t[0], if |t| == 2 then t[1] else 0, 0))[..|t| + 1] + seq(3 - |t|, _ => PAD)
  {
    hide GroupChars, Group;
  }

  // ------------------------------------------------------------------
  // The decoder
  // ------------------------------------------------------------------

  /** char_array_3 computed from four alphabet positions, each cut to one octet. */
  function Triple(a: Byte, b: Byte, c: Byte, d: Byte): (s: seq<Byte>)
    ensures |s| == 3
  {
    [(a * 4 + b / 16 % 4) % 256, (b % 16 * 16 + c / 4 % 16) % 256, (c % 4 * 64 + d) % 256]
  }

  /** How many leading characters belong to the alphabet: where decoding stops. */
  function Prefix(s: seq<Byte>): (n: nat)
    ensures n <= |s|
    ensures forall i :: 0 <= i < n ==> IsBase64(s[i])
    ensures n < |s| ==> !IsBase64(s[n])
  {
    if s == [] || !IsBase64(s[0]) then 0 else 1 + Prefix(s[1..])
  }

  /** Decoding of alphabet characters; `fill` stands for the positions a short last group lacks. */
  function DecodeChars(s: seq<Byte>, fill: Byte): (x: seq<Byte>)
  {
    if |s| == 0 then []
    else if |s| == 1 then Triple(Find(s[0]), fill, fill, fill)[..0]
    else if |s| == 2 then Triple(Find(s[0]), Find(s[1]), fill, fill)[..1]
    else if |s| == 3 then Triple(Find(s[0]), Find(s[1]), Find(s[2]), fill)[..2]
    else Triple(Find(s[0]), Find(s[1]), Find(s[2]), Find(s[3])) + DecodeChars(s[4..], fill)
  }

  lemma {:induction false} DecodeAppends(s: seq<Byte>, t: seq<Byte>, fill: Byte)
    requires |s| % 4 == 0
    ensures DecodeChars(s + t, fill) == DecodeChars(s, fill) + DecodeChars(t, fill)
    decreases |s|
  {
    hide Triple, Find;
    if s == [] {
      assert s + t == t;
    } else {
      assert (s + t)[4..] == s[4..] + t;
      DecodeAppends(s[4..], t, fill);
    }
  }

  /** The 0xFF values in missing positions never reach the output: any other filler gives the same. */
  lemma {:induction false} FillerNeverShows(s: seq<Byte>, fill: Byte, other: Byte)
    ensures DecodeChars(s, fill) == DecodeChars(s, other)
    decreases |s|
  {
    hide Triple, Find;
    if |s| == 2 {
      TriplePrefix(Find(s[0]), Find(s[1]), fill, fill, other, other);
    } else if |s| == 3 {
      TriplePrefix(Find(s[0]), Find(s[1]), Find(s[2]), fill, other, other);
    } else if |s| >= 4 {
      FillerNeverShows(s[4..], fill, other);
    }
  }

  method Decode(encoded: seq<Byte>) returns (ret: seq<Byte>)
    ensures ret == DecodeChars(encoded[..Prefix(encoded)], NOT_FOUND)
  {
    hide Triple, Find, DecodeChars;
    ret := [];
    EmptyText();
    var i, next := 0, 0;
    ghost var groups := 0;
    var four := new Byte[4](_ => 0);
    while next < |encoded| && encoded[next] != PAD && IsBase64(encoded[next])
      invariant 0 <= i < 4 && next == 4 * groups + i <= |encoded|
      invariant forall k :: 0 <= k < next ==> IsBase64(encoded[k])
      invariant forall k :: 0 <= k < i ==> four[k] == encoded[next - i + k]
      invariant ret == DecodeChars(encoded[..next - i], NOT_FOUND)
    {
      four[i] := encoded[next];
      i, next := i + 1, next + 1;
      if i == 4 {
        ret := ret + Triple(Find(four[0]), Find(four[1]), Find(four[2]), Find(four[3]));
        groups := groups + 1;
        QuadStep(encoded, groups);
        i := 0;
      }
    }
    PrefixIs(encoded, next);
    assert four[..i] == encoded[next - i..next];
    assert encoded[..next] == encoded[..next - i] + encoded[next - i..next];
    DecodeAppends(encoded[..next - i], encoded[next - i..next], NOT_FOUND);
    if i != 0 {
      var tail := DecodeTail(four, i);
      ret := ret + tail;
    }
  }

  /** The last, incomplete group: missing characters are zero, which the alphabet does not hold. */
  method DecodeTail(four: array<Byte>, count: nat) returns (ret: seq<Byte>)
    requires four.Length == 4 && 0 < count < 4
    modifies four
    ensures ret == DecodeChars(old(four[..count]), NOT_FOUND)
  {
    hide Triple, Find;
    for j := count to 4
      invariant four[..count] == old(four[..count])
      invariant forall k :: count <= k < j ==> four[k] == 0
    {
      four[j] := 0;
    }
    MissingPosition();
    ret := Triple(Find(four[0]), Find(four[1]), Find(four[2]), Find(four[3]))[..count - 1];
  }

  lemma MissingPosition()
    ensures Find(0) == NOT_FOUND
  {
  }

  lemma QuadStep(s: seq<Byte>, groups: nat)
    requires 0 < groups && 4 * groups <= |s|
    ensures var next := 4 * groups;
            var last := Triple(Find(s[next - 4]), Find(s[next - 3]), Find(s[next - 2]), Find(s[next - 1]));
            DecodeChars(s[..next], NOT_FOUND) == DecodeChars(s[..next - 4], NOT_FOUND) + last
  {
    hide Triple, Find;
    var next := 4 * groups;
    var last := s[next - 4..next];
    assert s[..next] == s[..next - 4] + last;
    DecodeAppends(s[..next - 4], last, NOT_FOUND);
    assert DecodeChars(last[4..], NOT_FOUND) == [];
  }

  lemma PrefixIs(s: seq<Byte>, n: nat)
    requires n <= |s| && (forall i :: 0 <= i < n ==> IsBase64(s[i])) && (n < |s| ==> !IsBase64(s[n]))
    ensures Prefix(s) == n
  {
  }

  // ------------------------------------------------------------------
  // Round trip
  // ------------------------------------------------------------------

  lemma GroupRoundTrip(x: Byte, y: Byte, z: Byte)
    ensures var s := GroupChars(Group(x, y, z));
            && (forall i :: 0 <= i < 4 ==> IsBase64(s[i]))
            && Triple(Find(s[0]), Find(s[1]), Find(s[2]), Find(s[3])) == [x, y, z]
  {
    SextetsAreGroupBits(x, y, z);
    var v := Sextets(x, y, z);
    AlphabetIsInjective(v[0]);
    AlphabetIsInjective(v[1]);
    AlphabetIsInjective(v[2]);
    AlphabetIsInjective(v[3]);
    TripleOfSextets(x, y, z);
  }

  lemma TripleOfSextets(x: Byte, y: Byte, z: Byte)
    ensures Triple(x / 4, x % 4 * 16 + y / 16, y % 16 * 4 + z / 64, z % 64) == [x, y, z]
  {
    OctetBits(x, 4);
    OctetBits(y, 16);
    OctetBits(z, 64);
    TripleOfDigits(x / 4, x % 4, y / 16, y % 16, z / 64, z % 64);
  }

  lemma TripleOfDigits(p: Byte, q: Byte, r: Byte, s: Byte, t: Byte, u: Byte)
    requires p < 64 && q < 4 && r < 16 && s < 16 && t < 4 && u < 64
    ensures Triple(p, q * 16 + r, s * 4 + t, u) == [p * 4 + q, r * 16 + s, t * 64 + u]
  {
    DivUnique(q * 16 + r, 16, q, r);
    DivUnique(s * 4 + t, 4, s, t);
    DivUnique(q, 4, 0, q);
    DivUnique(s, 16, 0, s);
    DivUnique(p * 4 + q, 256, 0, p * 4 + q);
    DivUnique(r * 16 + s, 256, 0, r * 16 + s);
    DivUnique(t * 64 + u, 256, 0, t * 64 + u);
  }

  /** The characters of an encoding: alphabet characters, then only padding. */
  ghost predicate Shape(s: seq<Byte>, n: nat)
  {
    n <= |s| && (forall i :: 0 <= i < n ==> IsBase64(s[i])) && (n < |s| ==> s[n] == PAD)
  }

  lemma {:induction false} EncodingRoundTrip(x: seq<Byte>) returns (n: nat)
    ensures Shape(Rfc4648(x), n) && DecodeChars(Rfc4648(x)[..n], NOT_FOUND) == x
    decreases |x|
  {
    hide GroupChars, Group, Triple, Find;
    var s := Rfc4648(x);
    if |x| == 0 {
      n := 0;
    } else if |x| == 1 {
      n := 2;
      GroupRoundTrip(x[0], 0, 0);
      TailTriple(s[..2], GroupChars(Group(x[0], 0, 0)));
    } else if |x| == 2 {
      n := 3;
      GroupRoundTrip(x[0], x[1], 0);
      TailTriple(s[..3], GroupChars(Group(x[0], x[1], 0)));
    } else {
      var k := EncodingRoundTrip(x[3..]);
      n := 4 + k;
      GroupRoundTrip(x[0], x[1], x[2]);
      assert s[..n][4..] == Rfc4648(x[3..])[..k];
      assert x == [x[0], x[1], x[2]] + x[3..];
    }
  }

  /** A short group decodes to the leading octets of the full group it was cut from. */
  lemma TailTriple(t: seq<Byte>, s: seq<Byte>)
    requires |s| == 4 && (|t| == 2 || |t| == 3) && t == s[..|t|]
    ensures DecodeChars(t, NOT_FOUND) == Triple(Find(s[0]), Find(s[1]), Find(s[2]), Find(s[3]))[..|t| - 1]
  {
    hide Find, Triple;
    TriplePrefix(Find(s[0]), Find(s[1]), Find(s[2]), Find(s[3]), NOT_FOUND, NOT_FOUND);
  }

  /** The first octet needs two characters, the second three. */
  lemma TriplePrefix(a: Byte, b: Byte, c: Byte, d: Byte, c': Byte, d': Byte)
    ensures Triple(a, b, c, d)[..1] == Triple(a, b, c', d')[..1]
    ensures Triple(a, b, c, d)[..2] == Triple(a, b, c, d')[..2]
  {
  }

  /** Decoding undoes encoding, for every octet string. */
  lemma DecodeUndoesEncode(x: seq<Byte>)
    ensures DecodeChars(Rfc4648(x)[..Prefix(Rfc4648(x))], NOT_FOUND) == x
  {
    var n := EncodingRoundTrip(x);
    PrefixIs(Rfc4648(x), n);
  }
}
