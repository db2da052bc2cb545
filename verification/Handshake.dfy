/** The accept value of the opening handshake, section 4.2.2 of RFC 6455. */
module Handshake {
  import opened Bytes
  import Base64
  import Sha1
  import Sha1Spec

  const GUID := Ascii("258EAFA5-E914-47DA-95CA-C5AB0DC85B11")

  const KEY_FIELD := Ascii("Sec-WebSocket-Key: ")

  const KEY_LENGTH := 24

  /** The characters after the key field name found at `pos`, at most 24 of them. */
  function KeyAt(packet: seq<Byte>, pos: nat): (key: seq<Byte>)
    requires pos + |KEY_FIELD| <= |packet|
    ensures |key| <= KEY_LENGTH
  {
    var text := packet[pos + |KEY_FIELD|..];
    if |text| <= KEY_LENGTH then text else text[..KEY_LENGTH]
  }

  method AcceptValue(packet: seq<Byte>, pos: nat) returns (accept: seq<Byte>)
    requires pos + |KEY_FIELD| <= |packet|
    ensures accept == Base64.Rfc4648(Sha1Spec.Digest(KeyAt(packet, pos) + GUID))
    ensures |accept| == 28
    ensures Base64.DecodeChars(accept[..Base64.Prefix(accept)], Base64.NOT_FOUND)
         == Sha1Spec.Digest(KeyAt(packet, pos) + GUID)
  {
    hide Sha1Spec.Digest, Base64.Rfc4648, Base64.DecodeChars, Base64.Prefix;
    var key := KeyAt(packet, pos) + GUID;
    var digest := Sha1.SHA1(key);
    accept := Base64.Encode(digest);
    Base64.EncodedLength(digest);
    Base64.DecodeUndoesEncode(digest);
  }
}
