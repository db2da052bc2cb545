/** Published examples of the formats: they fix the tables and constants that a coder and its decoder share. */
module Examples {
  import opened Bytes
  import opened Sha1Spec
  import opened Sha1Vectors
  import Base64
  import Handshake
  import opened Frames
  import opened Utf8
  import opened Wire
  import opened Serializer

  // ------------------------------------------------------------------
  // The digest's constants: FIPS PUB 180-1, sections 6 and 7
  // ------------------------------------------------------------------

  /** The chaining words are the digits 0 to f counted up, down again, and interleaved. */
  lemma InitialWords()
    ensures INITIAL.c == Word(!INITIAL.a.bits) && INITIAL.d == Word(!INITIAL.b.bits)
    ensures LittleEndian(INITIAL.a.bits as int, 4) == [0x01, 0x23, 0x45, 0x67]
    ensures LittleEndian(INITIAL.b.bits as int, 4) == [0x89, 0xab, 0xcd, 0xef]
    ensures LittleEndian(INITIAL.e.bits as int, 4) == [0xf0, 0xe1, 0xd2, 0xc3]
  {
    assert INITIAL.a.bits as int == 0x67452301 && INITIAL.b.bits as int == 0xefcdab89;
    assert INITIAL.e.bits as int == 0xc3d2e1f0;
    FourOctets(0x67452301);
    FourOctets(0xefcdab89);
    FourOctets(0xc3d2e1f0);
  }

  lemma FourOctets(n: nat)
    ensures LittleEndian(n, 4) == [n % 256, n / 256 % 256, n / 0x1_0000 % 256, n / 0x100_0000 % 256]
  {
    hide LittleEndian;
    assert Pow256(0) == 1 && Pow256(1) == 0x100 && Pow256(2) == 0x1_0000 && Pow256(3) == 0x100_0000;
    LittleEndianOctet(n, 4, 0);
    LittleEndianOctet(n, 4, 1);
    LittleEndianOctet(n, 4, 2);
    LittleEndianOctet(n, 4, 3);
  }

  /** `k` is the integer square root of `n`. */
  predicate IsRoot(k: nat, n: nat)
  {
    k * k <= n < (k + 1) * (k + 1)
  }

  /** The round constants are the square roots of 2, 3, 5 and 10, scaled by 2^30. */
  lemma RoundConstants()
    ensures IsRoot(K1.bits as int, 2 * 0x1000_0000_0000_0000)
    ensures IsRoot(K2.bits as int, 3 * 0x1000_0000_0000_0000)
    ensures IsRoot(K3.bits as int, 5 * 0x1000_0000_0000_0000)
    ensures IsRoot(K4.bits as int, 10 * 0x1000_0000_0000_0000)
  {
    assert K1.bits as int == 0x5a827999 && K2.bits as int == 0x6ed9eba1;
    assert K3.bits as int == 0x8f1bbcdc && K4.bits as int == 0xca62c1d6;
  }

  // ------------------------------------------------------------------
  // Base64: section 10 of RFC 4648
  // ------------------------------------------------------------------

  /** Table 1: three runs of consecutive characters and two symbols. */
  lemma AlphabetTable(i: nat)
    requires i < 64
    ensures Base64.Alphabet(0) == 'A' as int && Base64.Alphabet(25) == 'Z' as int
    ensures Base64.Alphabet(26) == 'a' as int && Base64.Alphabet(51) == 'z' as int
    ensures Base64.Alphabet(52) == '0' as int && Base64.Alphabet(61) == '9' as int
    ensures Base64.Alphabet(62) == '+' as int && Base64.Alphabet(63) == '/' as int
    ensures i !in {0, 26, 52, 62, 63} ==> Base64.Alphabet(i) == Base64.Alphabet(i - 1) + 1
  {
  }

  lemma OneGroup(x: Byte, y: Byte, z: Byte, rest: seq<Byte>)
    ensures Base64.Rfc4648([x, y, z] + rest) == Base64.GroupChars(Base64.Group(x, y, z)) + Base64.Rfc4648(rest)
  {
    hide Base64.GroupChars;
    assert ([x, y, z] + rest)[3..] == rest;
  }

  lemma Foobar()
    ensures Base64.Rfc4648(Ascii("foobar")) == Ascii("Zm9vYmFy")
  {
    hide Base64.Rfc4648, Base64.GroupChars;
    GroupIs(Base64.Group(102, 111, 111), 25, 38, 61, 47);
    GroupIs(Base64.Group(98, 97, 114), 24, 38, 5, 50);
    assert Ascii("foobar") == [102, 111, 111] + ([98, 97, 114] + []);
    OneGroup(102, 111, 111, [98, 97, 114] + []);
    OneGroup(98, 97, 114, []);
    NoGroup();
  }

  lemma NoGroup()
    ensures Base64.Rfc4648([]) == []
  {
  }

  lemma ShortGroups()
    ensures Base64.Rfc4648(Ascii("f")) == Ascii("Zg==")
    ensures Base64.Rfc4648(Ascii("fo")) == Ascii("Zm8=")
  {
    assert Ascii("f") == [102] && Ascii("fo") == [102, 111];
  }

  // ------------------------------------------------------------------
  // The handshake: section 1.3 of RFC 6455
  // ------------------------------------------------------------------

  /** Four characters from their four positions in the table. */
  lemma GroupIs(n: nat, a: Byte, b: Byte, c: Byte, d: Byte)
    requires a < 64 && b < 64 && c < 64 && d < 64 && n == a * 0x4_0000 + b * 0x1000 + c * 64 + d
    ensures n < 0x100_0000
    ensures Base64.GroupChars(n) == [Base64.Alphabet(a), Base64.Alphabet(b), Base64.Alphabet(c), Base64.Alphabet(d)]
  {
    hide Base64.Alphabet;
    DivUnique(n, 64, (a * 64 + b) * 64 + c, d);
    DivUnique(n / 64, 64, a * 64 + b, c);
    DivUnique(n / 64 / 64, 64, a, b);
    DivDiv(n, 64, 64);
    DivDiv(n, 0x1000, 64);
  }

  lemma SampleGroups()
    ensures Base64.GroupChars(Base64.Group(0xb3, 0x7a, 0x4f)) == [115, 51, 112, 80]
    ensures Base64.GroupChars(Base64.Group(0x2c, 0xc0, 0x62)) == [76, 77, 66, 105]
    ensures Base64.GroupChars(Base64.Group(0x4f, 0x16, 0x90)) == [84, 120, 97, 81]
    ensures Base64.GroupChars(Base64.Group(0xf6, 0x46, 0x06)) == [57, 107, 89, 71]
    ensures Base64.GroupChars(Base64.Group(0xcf, 0x38, 0x59)) == [122, 122, 104, 90]
    ensures Base64.GroupChars(Base64.Group(0x45, 0xb2, 0xbe)) == [82, 98, 75, 43]
  {
    hide Base64.GroupChars;
    GroupIs(Base64.Group(0xb3, 0x7a, 0x4f), 44, 55, 41, 15);
    GroupIs(Base64.Group(0x2c, 0xc0, 0x62), 11, 12, 1, 34);
    GroupIs(Base64.Group(0x4f, 0x16, 0x90), 19, 49, 26, 16);
    GroupIs(Base64.Group(0xf6, 0x46, 0x06), 61, 36, 24, 6);
    GroupIs(Base64.Group(0xcf, 0x38, 0x59), 51, 51, 33, 25);
    GroupIs(Base64.Group(0x45, 0xb2, 0xbe), 17, 27, 10, 62);
  }

  lemma AcceptText()
    ensures Ascii("s3pPLMBiTxaQ9kYGzzhZRbK+xOo=")
         == [115, 51, 112, 80] + [76, 77, 66, 105] + [84, 120, 97, 81] + [57, 107, 89, 71]
            + [122, 122, 104, 90] + [82, 98, 75, 43] + [120, 79, 111, 61]
  {
  }

  lemma SampleAccept()
    ensures Base64.Rfc4648(
              [0xb3, 0x7a, 0x4f, 0x2c, 0xc0, 0x62, 0x4f, 0x16, 0x90, 0xf6,
               0x46, 0x06, 0xcf, 0x38, 0x59, 0x45, 0xb2, 0xbe, 0xc4, 0xea])
         == Ascii("s3pPLMBiTxaQ9kYGzzhZRbK+xOo=")
  {
    hide Base64.Rfc4648, Base64.GroupChars, Base64.Group, Ascii;
    var tail := [0xc4, 0xea];
    var s5 := [0x45, 0xb2, 0xbe] + tail;
    OneGroup(0x45, 0xb2, 0xbe, tail);
    var s4 := [0xcf, 0x38, 0x59] + s5;
    OneGroup(0xcf, 0x38, 0x59, s5);
    var s3 := [0xf6, 0x46, 0x06] + s4;
    OneGroup(0xf6, 0x46, 0x06, s4);
    var s2 := [0x4f, 0x16, 0x90] + s3;
    OneGroup(0x4f, 0x16, 0x90, s3);
    var s1 := [0x2c, 0xc0, 0x62] + s2;
    OneGroup(0x2c, 0xc0, 0x62, s2);
    var s0 := [0xb3, 0x7a, 0x4f] + s1;
    OneGroup(0xb3, 0x7a, 0x4f, s1);
    assert s0 == [0xb3, 0x7a, 0x4f, 0x2c, 0xc0, 0x62, 0x4f, 0x16, 0x90, 0xf6,
                  0x46, 0x06, 0xcf, 0x38, 0x59, 0x45, 0xb2, 0xbe, 0xc4, 0xea];
    LastGroup();
    SampleGroups();
    AcceptText();
  }

  lemma LastGroup()
    ensures Base64.Rfc4648([0xc4, 0xea]) == [120, 79, 111, 61]
  {
  }

  /** The request's key field, and the accept value of the response. */
  method SampleHandshake() returns (accept: seq<Byte>)
    ensures accept == Ascii("s3pPLMBiTxaQ9kYGzzhZRbK+xOo=")
  {
    hide Base64.Rfc4648, Digest;
    var field, key := Ascii("Sec-WebSocket-Key: "), Ascii("dGhlIHNhbXBsZSBub25jZQ==");
    assert (field + key)[|field|..] == key;
    accept := Handshake.AcceptValue(field + key, 0);
    SampleDigest();
    SampleAccept();
  }

  // ------------------------------------------------------------------
  // Frames: section 5.7 of RFC 6455
  // ------------------------------------------------------------------

  lemma MaskedHello()
    ensures Encode(Frame(0x81, true, Small, [0x37, 0xfa, 0x21, 0x3d], Ascii("Hello")))
         == [0x81, 0x85, 0x37, 0xfa, 0x21, 0x3d, 0x7f, 0x9f, 0x4d, 0x51, 0x58]
  {
    hide Xor;
    assert Ascii("Hello") == [0x48, 0x65, 0x6c, 0x6c, 0x6f];
    HelloOctets();
  }

  /** One octet of an example. */
  lemma XorIs(x: Byte, y: Byte, z: Byte)
    requires Bits(z) == Bits(x) ^ Bits(y)
    ensures Xor(x, y) == z
  {
    XorIsVectorXor(x, y);
    BitsAreInjective(Xor(x, y), z);
  }

  lemma HelloOctets()
    ensures Xor(0x48, 0x37) == 0x7f && Xor(0x65, 0xfa) == 0x9f && Xor(0x6c, 0x21) == 0x4d
    ensures Xor(0x6c, 0x3d) == 0x51 && Xor(0x6f, 0x37) == 0x58
  {
    hide Xor;
    XorIs(0x48, 0x37, 0x7f);
    XorIs(0x65, 0xfa, 0x9f);
    XorIs(0x6c, 0x21, 0x4d);
    XorIs(0x6c, 0x3d, 0x51);
    XorIs(0x6f, 0x37, 0x58);
  }

  /** A masked message that calls operation 1 of driver 2. */
  lemma MaskedCommand()
    ensures Receive([0x82, 0x88, 1, 2, 3, 4, 1, 2, 3, 4, 1, 0, 3, 5]) == Delivered([0, 0, 0, 0, 0, 2, 0, 1], [])
  {
    hide Receive, Encode, Masked;
    var f := Frame(0x82, true, Small, [1, 2, 3, 4], [0, 0, 0, 0, 0, 2, 0, 1]);
    MaskedCommandFrame();
    FrameIsReceived(f, []);
    assert Encode(f) + [] == Encode(f);
  }

  lemma MaskedCommandFrame()
    ensures Encode(Frame(0x82, true, Small, [1, 2, 3, 4], [0, 0, 0, 0, 0, 2, 0, 1]))
         == [0x82, 0x88, 1, 2, 3, 4, 1, 2, 3, 4, 1, 0, 3, 5]
  {
    hide Xor;
    CommandOctets();
  }

  lemma CommandOctets()
    ensures Xor(0, 1) == 1 && Xor(0, 2) == 2 && Xor(0, 3) == 3 && Xor(0, 4) == 4 && Xor(2, 2) == 0 && Xor(1, 4) == 5
  {
  }

  /** The three length forms, with and without a mask. */
  lemma LengthFields()
    ensures LengthField(Small, 5, 0) == [0x05] && LengthField(Small, 5, 128) == [0x85]
    ensures LengthField(Medium, 256, 0) == [0x7e, 0x01, 0x00]
    ensures LengthField(Big, 0x1_0000, 0) == [0x7f, 0, 0, 0, 0, 0, 1, 0, 0]
    ensures MinimalForm(125) == Small && MinimalForm(126) == MinimalForm(0xffff) == Medium
    ensures MinimalForm(0x1_0000) == Big
  {
    hide BigEndian;
    Octets(256);
    BigEndianSplit(0x1_0000, 4, 4);
    Sizes();
    Octets(0x1_0000);
    Octets(0);
  }

  /** A masked close frame ends the connection. */
  lemma CloseFrame(key: seq<Byte>)
    requires |key| == 4
    ensures Receive([0x88, 0x80] + key) == Closed
  {
    hide Masked;
  }

  /** Text and binary messages from 8 to 262088 octets, except where the whole frame is 16384 octets. */
  lemma AcceptedFrames(f: Frame)
    requires f.Valid()
    ensures Acceptable(f) <==>
              && (f.first % 16 == 1 || f.first % 16 == 2)
              && 8 <= |f.payload| <= 262088 && f.HeaderLength() + |f.payload| != 16384
  {
  }

  // ------------------------------------------------------------------
  // Commands
  // ------------------------------------------------------------------

  /** The ranges of the C++ types. */
  lemma ScalarRanges(v: int)
    ensures U8.Holds(v) <==> 0 <= v <= 255
    ensures I8.Holds(v) <==> -128 <= v <= 127
    ensures U16.Holds(v) <==> 0 <= v <= 65535
    ensures I16.Holds(v) <==> -32768 <= v <= 32767
    ensures U32.Holds(v) <==> 0 <= v <= 4294967295
    ensures I32.Holds(v) <==> -2147483648 <= v <= 2147483647
    ensures U64.Holds(v) <==> 0 <= v <= 18446744073709551615
    ensures I64.Holds(v) <==> -9223372036854775808 <= v <= 9223372036854775807
  {
    Sizes();
  }

  /** A word of memory is the value of its type that agrees with it modulo the width, and a truth octet is
      true if and only if it is one. */
  lemma WordsAsValues(s: Scalar, raw: nat)
    requires raw < Pow256(s.Size())
    ensures !s.Bool? ==> s.Holds(Interpret(s, raw)) && (Interpret(s, raw) - raw) % Pow256(s.Size()) == 0
    ensures s.Bool? ==> Interpret(s, raw) == if raw == 1 then 1 else 0
  {
    Sizes();
  }

  /** Driver 2, operation 1, with a short, a vector of two 32-bit words and a string. */
  lemma SampleCommand()
    ensures var ts := [ScalarArg(I16), VectorArg(U32), StringArg];
            var vs := [Number(-2), Items([1, 0x0a0b0c0d]), Text([0x68, 0x69])];
            && AllMatch(ts, vs)
            && CommandHeader(2, 1) + EncodeArgs(ts, vs)
               == [0, 0, 0, 0, 0, 2, 0, 1,
                   0xff, 0xfe,
                   0, 0, 0, 8, 1, 0, 0, 0, 0x0d, 0x0c, 0x0b, 0x0a,
                   0, 0, 0, 2, 0x68, 0x69]
  {
    hide CommandHeader, EncodeArgs, EncodeArg;
    SampleValuesMatch();
    SampleHeader();
    SampleShort();
    SampleVector();
    SampleString();
    ThreeArgs([ScalarArg(I16), VectorArg(U32), StringArg], [Number(-2), Items([1, 0x0a0b0c0d]), Text([0x68, 0x69])]);
  }

  lemma SampleHeader()
    ensures CommandHeader(2, 1) == [0, 0, 0, 0, 0, 2, 0, 1]
  {
    hide BigEndian;
    Octets(0);
    Octets(2);
    Octets(1);
  }

  lemma SampleShort()
    ensures EncodeArg(ScalarArg(I16), Number(-2)) == [0xff, 0xfe]
  {
    hide BigEndian;
    Octets(-2);
  }

  lemma SampleVector()
    ensures Matches(VectorArg(U32), Items([1, 0x0a0b0c0d]))
    ensures EncodeArg(VectorArg(U32), Items([1, 0x0a0b0c0d])) == [0, 0, 0, 8, 1, 0, 0, 0, 0x0d, 0x0c, 0x0b, 0x0a]
  {
    hide BigEndian, LittleEndian, EncodeItems;
    SampleValuesMatch();
    Octets(8);
    TwoItems(1, 0x0a0b0c0d);
    FourOctets(1);
    FourOctets(0x0a0b0c0d);
  }

  lemma SampleString()
    ensures EncodeArg(StringArg, Text([0x68, 0x69])) == [0, 0, 0, 2, 0x68, 0x69]
  {
    hide BigEndian;
    Octets(2);
  }

  lemma SampleValuesMatch()
    ensures AllMatch([ScalarArg(I16), VectorArg(U32), StringArg], [Number(-2), Items([1, 0x0a0b0c0d]), Text([0x68, 0x69])])
    ensures Matches(VectorArg(U32), Items([1, 0x0a0b0c0d]))
  {
    ScalarRanges(-2);
    ScalarRanges(1);
    ScalarRanges(0x0a0b0c0d);
  }

  lemma TwoItems(v: int, w: int)
    ensures EncodeItems(U32, [v, w]) == LittleEndian(v, 4) + LittleEndian(w, 4)
  {
    hide LittleEndian;
    assert [v, w][1..] == [w] && [w][1..] == [];
    assert EncodeItems(U32, [w]) == LittleEndian(w, 4) + EncodeItems(U32, []);
  }

  lemma ThreeArgs(ts: seq<ArgType>, vs: seq<Value>)
    requires AllMatch(ts, vs) && |ts| == 3
    ensures Matches(ts[0], vs[0]) && Matches(ts[1], vs[1]) && Matches(ts[2], vs[2])
    ensures EncodeArgs(ts, vs) == EncodeArg(ts[0], vs[0]) + EncodeArg(ts[1], vs[1]) + EncodeArg(ts[2], vs[2])
  {
    hide Matches, EncodeArg, EncodeArgs;
    OneMatches(ts, vs);
    OneMatches(ts[1..], vs[1..]);
    assert ts[1..][1..] == [ts[2]] && vs[1..][1..] == [vs[2]];
    OneArg(ts[2], vs[2]);
  }

  // ------------------------------------------------------------------
  // UTF-8: section 7 of RFC 3629
  // ------------------------------------------------------------------

  lemma OneChar(c: CodePoint, rest: seq<CodePoint>)
    ensures EncodeText([c] + rest) == EncodeChar(c) + EncodeText(rest)
  {
    hide EncodeChar;
    assert ([c] + rest)[1..] == rest;
  }

  lemma Utf8Examples()
    ensures EncodeText([0x41] + ([0x2262] + ([0x391] + []))) == [0x41, 0xe2, 0x89, 0xa2, 0xce, 0x91]
    ensures EncodeText([0x65e5] + []) == [0xe6, 0x97, 0xa5]
    ensures EncodeText([0x2_33b4] + []) == [0xf0, 0xa3, 0x8e, 0xb4]
  {
    hide EncodeText;
    OneChar(0x41, [0x2262] + ([0x391] + []));
    OneChar(0x2262, [0x391] + []);
    OneChar(0x391, []);
    OneChar(0x65e5, []);
    OneChar(0x2_33b4, []);
    assert EncodeText([]) == [] by { NoChars(); }
  }

  lemma NoChars()
    ensures EncodeText([]) == []
  {
  }
}
