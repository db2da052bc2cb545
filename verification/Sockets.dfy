/**
 The operating system's side of a connection. A read may return any non-empty piece of what the peer
 has sent, and nothing only once the peer has closed; a write may take any part of its argument or
 fail. Both pick their sizes arbitrarily, so every result about a caller holds for every chunking.
 */
module Sockets {
  import opened Bytes

  class Socket {
    var incoming: seq<Byte>
    var written: seq<Byte>

    constructor (stream: seq<Byte>)
      ensures incoming == stream && written == []
    {
      incoming, written := stream, [];
    }

    method Read(max: nat) returns (chunk: seq<Byte>)
      requires max > 0
      modifies this`incoming
      ensures chunk + incoming == old(incoming) && |chunk| <= max
      ensures chunk == [] <==> old(incoming) == []
    {
      if incoming == [] {
        chunk := [];
      } else {
        assert 1 <= 1 <= max && 1 <= |incoming|;
        var k: nat :| 1 <= k <= max && k <= |incoming|;
        chunk := incoming[..k];
        incoming := incoming[k..];
      }
    }

    /** The number of octets taken, zero, or a negative error. */
    method Write(data: seq<Byte>) returns (n: int)
      modifies this`written
      ensures n <= |data|
      ensures written == old(written) + (if n > 0 then data[..n] else [])
    {
      assert 0 <= |data|;
      n :| n <= |data|;
      if n > 0 {
        written := written + data[..n];
      }
    }
  }
}
