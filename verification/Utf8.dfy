/** UTF-8, as str.encode() and bytes.decode('utf8') apply it: section 3 of RFC 3629. */
module Utf8 {
  import opened Bytes

  type CodePoint = c: int | 0 <= c < 0xD800 || 0xE000 <= c < 0x11_0000

  function EncodeChar(c: CodePoint): (s: seq<Byte>)
    ensures 1 <= |s| <= 4 && (|s| == 1 <==> c < 128)
  {
    if c < 0x80 then [c]
    else if c < 0x800 then [0xC0 + c / 64, 0x80 + c % 64]
    else if c < 0x1_0000 then [0xE0 + c / 0x1000, 0x80 + c / 64 % 64, 0x80 + c % 64]
    else [0xF0 + c / 0x4_0000, 0x80 + c / 0x1000 % 64, 0x80 + c / 64 % 64, 0x80 + c % 64]
  }

  /** str.encode() */
  function EncodeText(cs: seq<CodePoint>): (s: seq<Byte>)
  {
    if cs == [] then [] else EncodeChar(cs[0]) + EncodeText(cs[1..])
  }

  datatype Decoded = Characters(chars: seq<CodePoint>) | Malformed

  /** The number of octets that a first octet announces; zero when no character starts with it. */
  function CharLength(first: Byte): (n: nat)
    ensures n <= 4
  {
    if first < 0x80 then 1
    else if first < 0xC0 then 0
    else if first < 0xE0 then 2
    else if first < 0xF0 then 3
    else if first < 0xF8 then 4
    else 0
  }

  /** An octet without its marker bits. */
  function Without(b: Byte, marker: int): int
  {
    b - marker
  }

  /** The bits that the octets of one character carry. */
  function CharBits(s: seq<Byte>): int
    requires 1 <= |s| <= 4
  {
    if |s| == 1 then s[0]
    else if |s| == 2 then Without(s[0], 0xC0) * 64 + Without(s[1], 0x80)
    else if |s| == 3 then Without(s[0], 0xE0) * 0x1000 + Without(s[1], 0x80) * 64 + Without(s[2], 0x80)
    else Without(s[0], 0xF0) * 0x4_0000 + Without(s[1], 0x80) * 0x1000 + Without(s[2], 0x80) * 64 + Without(s[3], 0x80)
  }

  /** A character starts here: enough octets, a Unicode scalar value, in its own (shortest) encoding. */
  predicate StartsChar(s: seq<Byte>)
    requires s != []
  {
    var n := CharLength(s[0]);
    && 1 <= n <= |s|
    && var c := CharBits(s[..n]);
       (0 <= c < 0xD800 || 0xE000 <= c < 0x11_0000) && EncodeChar(c) == s[..n]
  }

  /** bytes.decode('utf8'): strict, so the first octet that starts no character is an error. */
  function DecodeText(s: seq<Byte>): (r: Decoded)
    decreases |s|
  {
    if s == [] then Characters([])
    else if !StartsChar(s) then Malformed
    else
      var n := CharLength(s[0]);
      var rest := DecodeText(s[n..]);
      if rest.Malformed? then Malformed else Characters([CharBits(s[..n])] + rest.chars)
  }

  lemma CharRoundTrip(c: CodePoint)
    ensures CharLength(EncodeChar(c)[0]) == |EncodeChar(c)| && CharBits(EncodeChar(c)) == c
  {
    Digits(c);
  }

  lemma Digits(c: int)
    requires c >= 0
    ensures c == c / 64 * 64 + c % 64
    ensures c == c / 0x1000 * 0x1000 + c / 64 % 64 * 64 + c % 64
    ensures c == c / 0x4_0000 * 0x4_0000 + c / 0x1000 % 64 * 0x1000 + c / 64 % 64 * 64 + c % 64
  {
    assert c / 64 / 64 == c / 0x1000 && c / 0x1000 / 64 == c / 0x4_0000;
  }

  lemma {:induction false} DecodeUndoesEncode(cs: seq<CodePoint>)
    ensures DecodeText(EncodeText(cs)) == Characters(cs)
    decreases |cs|
  {
    hide EncodeChar, CharBits, CharLength;
    if cs != [] {
      var s, one := EncodeText(cs), EncodeChar(cs[0]);
      CharRoundTrip(cs[0]);
      assert s[..|one|] == one && s[|one|..] == EncodeText(cs[1..]);
      DecodeUndoesEncode(cs[1..]);
      assert cs == [cs[0]] + cs[1..];
    }
  }

  lemma {:induction false} EncodeUndoesDecode(s: seq<Byte>)
    ensures DecodeText(s).Characters? ==> EncodeText(DecodeText(s).chars) == s
    decreases |s|
  {
    hide EncodeChar, CharBits, CharLength;
    if s != [] && DecodeText(s).Characters? {
      var n, cs := CharLength(s[0]), DecodeText(s).chars;
      EncodeUndoesDecode(s[n..]);
      assert cs[1..] == DecodeText(s[n..]).chars;
      assert s == s[..n] + s[n..];
    }
  }

  /** The decoder accepts exactly the encodings, and each of them has one text. */
  lemma DecodesExactlyEncodings(s: seq<Byte>, cs: seq<CodePoint>)
    ensures DecodeText(s) == Characters(cs) <==> EncodeText(cs) == s
  {
    DecodeUndoesEncode(cs);
    EncodeUndoesDecode(s);
  }

  predicate IsAscii(cs: seq<CodePoint>)
  {
    forall i :: 0 <= i < |cs| ==> cs[i] < 128
  }

  lemma {:induction false} TextLength(cs: seq<CodePoint>)
    ensures |EncodeText(cs)| >= |cs|
    ensures |EncodeText(cs)| == |cs| <==> IsAscii(cs)
    decreases |cs|
  {
    hide EncodeChar;
    if cs != [] {
      TextLength(cs[1..]);
      assert IsAscii(cs) <==> cs[0] < 128 && IsAscii(cs[1..]) by {
        assert IsAscii(cs) ==> forall i :: 0 <= i < |cs[1..]| ==> cs[1..][i] == cs[i + 1];
        assert IsAscii(cs[1..]) ==> forall i :: 1 <= i < |cs| ==> cs[i] == cs[1..][i - 1];
      }
    }
  }

  lemma {:induction false} AsciiText(cs: seq<CodePoint>)
    requires IsAscii(cs)
    ensures |EncodeText(cs)| == |cs| && forall i :: 0 <= i < |cs| ==> EncodeText(cs)[i] == cs[i]
    decreases |cs|
  {
    if cs != [] {
      AsciiText(cs[1..]);
    }
  }
}
