/** The framing layer of server/core/websocket.cpp and websocket.hpp. */
module WebSockets {
  import opened Bytes
  import opened Commands
  import opened Frames
  import opened Sockets

  const WEBSOCK_SEND_BUF_LEN := 262144

  class WebSocket {
    const sock: Socket
    const readStr: array<Byte>
    var readLen: nat
    const sendBuf: array<Byte>
    var headerSize: nat
    var maskOffset: nat
    var payloadSize: int
    var fin: bool
    var masked: bool
    var opcode: Byte
    var closed: bool

    ghost predicate Valid()
      reads this
    {
      && readStr.Length == WEBSOCK_READ_STR_LEN && readLen <= readStr.Length
      && sendBuf.Length == WEBSOCK_SEND_BUF_LEN && readStr != sendBuf
    }

    /** The fields left by the last header stay inside the read buffer. */
    ghost predicate HeaderInBounds()
      reads this
    {
      maskOffset <= 10 && payloadSize <= MAX_PAYLOAD
    }

    /** The source leaves the header fields unset until a first header has been read; here they may
        hold anything that points into the buffer. */
    constructor (sock: Socket, headerSize: nat, maskOffset: nat, payloadSize: int)
      requires maskOffset <= 10 && payloadSize <= MAX_PAYLOAD
      ensures Valid() && HeaderInBounds() && !closed && readLen == 0 && this.sock == sock
      ensures fresh(readStr) && fresh(sendBuf)
    {
      this.sock := sock;
      readStr := new Byte[WEBSOCK_READ_STR_LEN](_ => 0);
      sendBuf := new Byte[WEBSOCK_SEND_BUF_LEN];
      readLen := 0;
      this.headerSize, this.maskOffset, this.payloadSize := headerSize, maskOffset, payloadSize;
      fin, masked, opcode, closed := false, false, 0, false;
    }

    // ----------------------------------------------------------------
    // Receiving
    // ----------------------------------------------------------------

    method ResetReadBuff()
      requires Valid()
      modifies this`readLen, readStr
      ensures Valid() && readLen == 0
      ensures readStr[..] == Zeros(old(readLen)) + old(readStr[readLen..])
    {
      forall i | 0 <= i < readLen { readStr[i] := 0; }
      readLen := 0;
    }

    /** The inner loop of read_n_bytes: read until `bytes` octets have arrived or the stream ends. */
    method ReadAvailable(bytes: nat) returns (remaining: nat, bytesRead: int)
      requires Valid() && bytes > 0 && readLen + bytes <= readStr.Length
      modifies this`readLen, readStr, sock`incoming
      ensures Valid() && old(readLen) <= readLen <= old(readLen) + bytes
      ensures |old(sock.incoming)| < bytes ==> remaining > 0 && bytesRead == 0 && sock.incoming == []
      ensures |old(sock.incoming)| >= bytes ==>
                && remaining == 0 && bytesRead > 0 && readLen == old(readLen) + bytes
                && readStr[..readLen] == old(readStr[..readLen]) + old(sock.incoming)[..bytes]
                && sock.incoming == old(sock.incoming)[bytes..]
    {
      ghost var stream, start := sock.incoming, readLen;
      ghost var kept := readStr[..readLen];
      remaining, bytesRead := bytes, -1;
      while remaining > 0
        invariant Valid() && remaining <= bytes
        invariant bytes - remaining <= |stream| && readLen == start + (bytes - remaining)
        invariant readStr[..readLen] == kept + stream[..bytes - remaining]
        invariant sock.incoming == stream[bytes - remaining..]
        invariant remaining < bytes ==> bytesRead > 0
        decreases remaining
      {
        var chunk := sock.Read(remaining);
        bytesRead := |chunk|;
        if bytesRead <= 0 {
          break;
        }
        ghost var done := bytes - remaining;
        assert chunk == stream[done..done + bytesRead];
        forall i | 0 <= i < bytesRead { readStr[readLen + i] := chunk[i]; }
        Appended(kept, stream, done, bytesRead);
        assert readStr[..readLen + bytesRead] == kept + stream[..done] + chunk;
        readLen := readLen + bytesRead;
        remaining := remaining - bytesRead;
      }
    }

    /** Append octets to the read buffer: 0 when they all arrived, 1 when the stream ended first, -1 when
        the buffer then holds exactly 16384 octets. */
    method ReadNBytes(bytes: int, toExpect: int) returns (r: int)
      requires Valid() && bytes == toExpect && readLen + bytes <= readStr.Length
      modifies this`readLen, this`closed, readStr, sock`incoming
      ensures Valid() && old(readLen) <= readLen && (bytes > 0 ==> readLen <= old(readLen) + bytes)
      ensures bytes <= 0 ==>
                r == 0 && readLen == old(readLen) && closed == old(closed) && readStr[..] == old(readStr[..])
                && sock.incoming == old(sock.incoming)
      ensures bytes > 0 && |old(sock.incoming)| < bytes ==> r == 1 && closed && sock.incoming == []
      ensures bytes > 0 && |old(sock.incoming)| >= bytes ==>
                && readLen == old(readLen) + bytes && closed == old(closed)
                && readStr[..readLen] == old(readStr[..readLen]) + old(sock.incoming)[..bytes]
                && sock.incoming == old(sock.incoming)[bytes..]
                && r == if readLen == KOHERON_READ_STR_LEN then -1 else 0
    {
      var remaining, expected := bytes, toExpect;
      while expected > 0
        invariant remaining == expected && closed == old(closed) && Valid()
        invariant remaining == bytes || (remaining == 0 && bytes > 0)
        invariant remaining == bytes ==>
                    readLen == old(readLen) && readStr[..] == old(readStr[..]) && sock.incoming == old(sock.incoming)
        invariant remaining == 0 && bytes > 0 ==>
                    && bytes <= |old(sock.incoming)|
                    && readLen == old(readLen) + bytes && readLen != KOHERON_READ_STR_LEN
                    && readStr[..readLen] == old(readStr[..readLen]) + old(sock.incoming)[..bytes]
                    && sock.incoming == old(sock.incoming)[bytes..]
        decreases expected
      {
        assert readStr[..readLen] == old(readStr[..readLen]);
        var left, bytesRead := ReadAvailable(remaining);
        expected := expected - (remaining - left);
        remaining := left;
        if bytesRead == 0 {
          closed := true;
          return 1;
        }
        if readLen == KOHERON_READ_STR_LEN {
          return -1;
        }
      }
      r := 0;
    }

    /** 0 for text and binary frames, 1 for a close frame, -1 for everything else. */
    method CheckOpcode(opcode: Byte) returns (r: int)
      ensures r == if opcode == TEXT_FRAME || opcode == BINARY_FRAME then 0
                   else if opcode == CONNECTION_CLOSE then 1 else -1
    {
      if opcode == TEXT_FRAME || opcode == BINARY_FRAME {
        r := 0;
      } else if opcode == CONNECTION_CLOSE {
        r := 1;
      } else {
        r := -1;
      }
    }

    /** Read a frame header, and the masking key behind it, into an empty read buffer. */
    method ReadHeader() returns (r: int)
      requires Valid() && HeaderInBounds() && readLen == 0 && !closed
      modifies this, readStr, sock`incoming
      ensures Valid()
      ensures readLen <= 14
      ensures match Frames.ReadHeader(old(sock.incoming))
              case HeaderEnded => r == 0 && closed && sock.incoming == [] && HeaderInBounds()
              case HeaderClose => r == 1 && closed && HeaderInBounds()
              case HeaderRefused => r == -1 && !closed
              case HeaderRead(form, length) =>
                && r == 0 && !closed && HeaderInBounds()
                && headerSize == form.Offset() + 4 && maskOffset == form.Offset() && payloadSize == length
                && fin == (old(sock.incoming)[0] >= 128) && masked == (old(sock.incoming)[1] >= 128)
                && opcode == old(sock.incoming)[0] % 16
                && readLen == headerSize && readStr[..readLen] == old(sock.incoming)[..readLen]
                && sock.incoming == old(sock.incoming)[headerSize..]
    {
      hide LengthOf, BigEndianValue;
      ghost var s := sock.incoming;
      r := ReadNBytes(6, 6);
      if r < 0 {
        return -1;
      }
      if closed {
        return 0;
      }
      assert readStr[0] == readStr[..readLen][0] == s[0] && readStr[1] == readStr[..readLen][1] == s[1];
      fin := readStr[0] >= 128;
      masked := readStr[1] >= 128;
      var streamSize := readStr[1] % 128;
      opcode := readStr[0] % 16;
      var opcodeErr := CheckOpcode(opcode);
      if opcodeErr < 0 {
        return -1;
      } else if opcodeErr == 1 {
        closed := true;
        return opcodeErr;
      }
      r := ReadLength(streamSize, s);
    }

    /** The rest of a header, once its first six octets are known: the extended length and the key. */
    method ReadLength(streamSize: Byte, ghost s: seq<Byte>) returns (r: int)
      requires Valid() && HeaderInBounds() && !closed && |s| >= 6 && streamSize == s[1] % 128
      requires readLen == 6 && readStr[..6] == s[..6] && sock.incoming == s[6..]
      modifies this`readLen, this`closed, this`headerSize, this`maskOffset, this`payloadSize, readStr, sock`incoming
      ensures Valid() && readLen <= 14
      ensures var start := FormOf(s[1]).Offset() + 4;
              if |s| < start then r == 0 && closed && sock.incoming == [] && HeaderInBounds()
              else
                var n := LengthOf(s);
                var length := if n < TWO63 then n else n - 2 * TWO63;
                && !closed && r == (if length > MAX_PAYLOAD then -1 else 0)
                && headerSize == start && maskOffset == start - 4 && payloadSize == length
                && readLen == start && readStr[..start] == s[..start] && sock.incoming == s[start..]
    {
      hide LengthOf, BigEndianValue;
      SliceAfter(s, 6, 2);
      SliceAfter(s, 6, 8);
      if streamSize <= SMALL_STREAM {
        headerSize, payloadSize, maskOffset := 6, streamSize, 2;
        SmallLength(s);
      } else if streamSize == MEDIUM_STREAM {
        r := ReadNBytes(2, 2);
        if closed {
          return 0;
        }
        headerSize := 8;
        assert readStr[2..4] == readStr[..8][2..4] == s[..8][2..4] == s[2..4];
        payloadSize := BigEndianValue(readStr[2..4]);
        maskOffset := 4;
        MediumLength(s);
      } else {
        r := ReadNBytes(8, 8);
        if closed {
          return 0;
        }
        headerSize := 14;
        assert readStr[2..10] == readStr[..14][2..10] == s[..14][2..10] == s[2..10];
        payloadSize := BigEndianValue(readStr[2..10]);
        if payloadSize >= TWO63 {
          payloadSize := payloadSize - 2 * TWO63;
        }
        maskOffset := 10;
        BigLength(s);
      }
      if payloadSize > MAX_PAYLOAD {
        return -1;
      }
      r := 0;
    }

    /** Read one frame: 0 when it is complete, 1 when the connection closed, -1 on a refused frame. */
    method ReadStream() returns (r: int)
      requires Valid() && HeaderInBounds() && !closed
      modifies this, readStr, sock`incoming
      ensures Valid()
      ensures match Frames.ReadHeader(old(sock.incoming))
              case HeaderEnded => closed && HeaderInBounds() && r >= 0
              case HeaderClose => closed && HeaderInBounds() && r == 1
              case HeaderRefused => !closed && r == -1
              case HeaderRead(form, length) =>
                var start := form.Offset() + 4;
                && HeaderInBounds()
                && headerSize == start && maskOffset == form.Offset() && payloadSize == length
                && (length <= 0 ==> r == 0 && !closed && readLen == start)
                && (length > 0 && |old(sock.incoming)| < start + length ==> r == 1 && closed)
                && (length > 0 && |old(sock.incoming)| >= start + length ==>
                      && !closed && r == (if start + length == KOHERON_READ_STR_LEN then -1 else 0)
                      && readLen == start + length
                      && readStr[..readLen] == old(sock.incoming)[..readLen]
                      && sock.incoming == old(sock.incoming)[start + length..])
    {
      hide Frames.ReadHeader;
      ghost var s := sock.incoming;
      HeaderLengthOnStream(s);
      ResetReadBuff();
      var headErr := ReadHeader();
      if headErr < 0 {
        return -1;
      }
      if headErr == 1 {
        return headErr;
      }
      ghost var start := readLen;
      r := ReadNBytes(payloadSize, payloadSize);
      if r < 0 {
        if Frames.ReadHeader(s).HeaderRead? && payloadSize > 0 && |s| >= start + payloadSize {
          SliceAfter(s, start, payloadSize);
        }
        return -1;
      }
      if Frames.ReadHeader(s).HeaderRead? && payloadSize > 0 && |s| >= start + payloadSize {
        SliceAfter(s, start, payloadSize);
      }
    }

    /** Unmask the payload into the header and payload buffers of a command. */
    method DecodeRawStreamCmd(cmd: Command) returns (r: int)
      requires Valid() && HeaderInBounds() && cmd.Valid()
      requires readStr != cmd.header.data && readStr != cmd.payload.data
      modifies cmd.header.data, cmd.payload.data
      ensures r == if readLen < headerSize + 1 then -1 else 0
      ensures r == 0 && payloadSize >= COMMAND_HEADER_SIZE ==>
                var start := maskOffset + 4;
                var plain := Masked(readStr[start..start + payloadSize], readStr[maskOffset..start]);
                cmd.header.data[..] == plain[..8] && cmd.payload.data[..payloadSize - 8] == plain[8..]
    {
      hide Masked;
      if readLen < headerSize + 1 {
        return -1;
      }
      var start := maskOffset + 4;
      ghost var size := if payloadSize < COMMAND_HEADER_SIZE then COMMAND_HEADER_SIZE else payloadSize;
      Unmask(cmd.header.data, 0, COMMAND_HEADER_SIZE, size);
      if payloadSize > COMMAND_HEADER_SIZE {
        Unmask(cmd.payload.data, COMMAND_HEADER_SIZE, payloadSize, size);
      }
      r := 0;
    }

    /** Octets `from` to `to` of the unmasked payload, copied to the start of `target`. */
    method Unmask(target: array<Byte>, from: nat, to: nat, ghost size: nat)
      requires Valid() && target != readStr && from <= to <= size && to - from <= target.Length
      requires maskOffset + 4 + size <= readStr.Length
      modifies target
      ensures var start := maskOffset + 4;
              var plain := Masked(readStr[start..start + size], readStr[maskOffset..start]);
              target[..to - from] == plain[from..to]
    {
      hide Xor, Masked;
      var start := maskOffset + 4;
      ghost var kept := readStr[..];
      assert readStr[start..start + size] == kept[start..start + size];
      assert readStr[maskOffset..start] == kept[maskOffset..start];
      ghost var plain := Masked(kept[start..start + size], kept[maskOffset..start]);
      for i := from to to
        invariant readStr[..] == kept && target[..i - from] == plain[from..i]
      {
        MaskedAt(kept, maskOffset, size, i);
        target[i - from] := Xor(readStr[start + i], readStr[maskOffset + i % 4]);
        assert target[..i + 1 - from] == target[..i - from] + [plain[i]];
      }
      assert readStr[start..start + size] == kept[start..start + size];
      assert readStr[maskOffset..start] == kept[maskOffset..start];
    }

    /** Receive one frame and unmask it. The size of its payload, 0 when closed, -1 when refused. */
    method ReceiveCmd(cmd: Command) returns (r: int)
      requires Valid() && HeaderInBounds() && cmd.Valid()
      requires readStr != cmd.header.data && readStr != cmd.payload.data
      modifies this, readStr, sock`incoming, cmd.header.data, cmd.payload.data
      ensures Valid()
      ensures old(closed) ==> r == 0 && closed && HeaderInBounds() && sock.incoming == old(sock.incoming)
      ensures !old(closed) ==>
                match Receive(old(sock.incoming))
                case Ended => closed && HeaderInBounds()
                case Closed => closed && r == 0 && HeaderInBounds()
                case Refused => !closed && (r == -1 || (0 < payloadSize < COMMAND_HEADER_SIZE && HeaderInBounds()))
                case Delivered(command, rest) =>
                  && !closed && r == payloadSize == |command| && HeaderInBounds()
                  && cmd.header.data[..] == command[..8] && cmd.payload.data[..|command| - 8] == command[8..]
                  && sock.incoming == rest
    {
      hide Frames.ReadHeader, Masked;
      ghost var s := sock.incoming;
      HeaderLengthOnStream(s);
      if closed {
        return 0;
      }
      var err := ReadStream();
      if err < 0 {
        return -1;
      } else if err == 1 {
        return 0;
      }
      var decoded := DecodeRawStreamCmd(cmd);
      if decoded < 0 {
        return -1;
      }
      if !closed && payloadSize >= COMMAND_HEADER_SIZE {
        ghost var start := maskOffset + 4;
        assert readStr[..][..readLen] == readStr[..readLen];
        InReadBuffer(readStr[..], readLen, s, start, start + payloadSize);
        InReadBuffer(readStr[..], readLen, s, maskOffset, start);
        assert readStr[start..start + payloadSize] == readStr[..][start..start + payloadSize];
        assert readStr[maskOffset..start] == readStr[..][maskOffset..start];
      }
      r := payloadSize;
    }

    // ----------------------------------------------------------------
    // Sending
    // ----------------------------------------------------------------

    /** Write a frame header with the shortest length form; the mask offset is where the payload goes. */
    method SetSendHeader(dataLen: nat, format: Byte) returns (offset: nat)
      requires Valid() && dataLen + 10 <= sendBuf.Length
      modifies sendBuf
      ensures offset == MinimalForm(dataLen).Offset()
      ensures sendBuf[..offset] == [format] + LengthField(MinimalForm(dataLen), dataLen, 0)
      ensures forall i :: offset <= i < 10 + dataLen ==> sendBuf[i] == 0
    {
      hide BigEndian;
      forall i | 0 <= i < 10 + dataLen { sendBuf[i] := 0; }
      sendBuf[0] := format;
      if dataLen <= SMALL_STREAM {
        sendBuf[1] := dataLen;
        offset := 2;
      } else if dataLen <= 0xFFFF {
        sendBuf[1] := MEDIUM_STREAM;
        sendBuf[2] := dataLen / 0x100 % 256;
        sendBuf[3] := dataLen % 256;
        offset := 4;
        TwoOctets(dataLen);
      } else {
        sendBuf[1] := BIG_STREAM;
        PutBigLength(dataLen);
        offset := 10;
      }
    }

    /** The eight octets of a 64-bit length. */
    method PutBigLength(dataLen: nat)
      requires Valid() && 10 <= sendBuf.Length
      modifies sendBuf
      ensures sendBuf[2..10] == BigEndian(dataLen, 8)
      ensures forall i :: 0 <= i < sendBuf.Length && !(2 <= i < 10) ==> sendBuf[i] == old(sendBuf[i])
    {
      hide BigEndian;
      sendBuf[2] := dataLen / 0x100_0000_0000_0000 % 256;
      sendBuf[3] := dataLen / 0x1_0000_0000_0000 % 256;
      sendBuf[4] := dataLen / 0x100_0000_0000 % 256;
      sendBuf[5] := dataLen / 0x1_0000_0000 % 256;
      sendBuf[6] := dataLen / 0x100_0000 % 256;
      sendBuf[7] := dataLen / 0x1_0000 % 256;
      sendBuf[8] := dataLen / 0x100 % 256;
      sendBuf[9] := dataLen % 256;
      EightOctets(dataLen);
    }

    /** Write `len` octets of the send buffer, in order. `taken` of them go out; the result is positive
        exactly when that is all of them. `last` is what the last `write` returned, zero if there was none:
        an error closes the connection, a write of nothing does not. */
    method SendRequest(len: nat) returns (r: int, ghost taken: nat, ghost last: int)
      requires Valid() && len <= sendBuf.Length
      modifies this`closed, sock`written
      ensures taken <= len && sock.written == old(sock.written) + sendBuf[..taken]
      ensures old(closed) ==> r == 0 && closed && taken == 0
      ensures !old(closed) ==> (closed <==> r < 0) && (r > 0 <==> taken == len && len > 0)
      ensures !old(closed) ==> (closed <==> last < 0) && r == (if last < 0 then -1 else last)
    {
      taken, last := 0, 0;
      if closed {
        return 0, 0, 0;
      }
      var bytesSend, remaining, offset := 0, len, 0;
      while remaining > 0
        invariant 0 <= offset && 0 <= remaining && offset + remaining == len && taken == offset
        invariant !closed && bytesSend >= 0 && (offset > 0 <==> bytesSend > 0)
        invariant sock.written == old(sock.written) + sendBuf[..offset]
        decreases remaining
      {
        bytesSend := sock.Write(sendBuf[offset..len]);
        if bytesSend <= 0 {
          break;
        }
        assert sendBuf[..offset] + sendBuf[offset..len][..bytesSend] == sendBuf[..offset + bytesSend];
        offset := offset + bytesSend;
        remaining := remaining - bytesSend;
        taken := offset;
      }
      last := bytesSend;
      if bytesSend < 0 {
        closed := true;
        return -1, taken, last;
      }
      r := bytesSend;
    }

    /** Send a binary message as one unmasked final frame: `taken` octets of it go out, and a positive
        result means the whole frame. */
    method Send(data: seq<Byte>) returns (r: int, ghost taken: nat)
      requires Valid()
      modifies this`closed, sendBuf, sock`written
      ensures old(closed) ==> r == 0 && closed && sock.written == old(sock.written)
      ensures !old(closed) && |data| + 10 > WEBSOCK_SEND_BUF_LEN ==>
                r == -1 && !closed && sock.written == old(sock.written)
      ensures !old(closed) && |data| + 10 <= WEBSOCK_SEND_BUF_LEN ==>
                && taken <= |ServerFrame(data)| && sock.written == old(sock.written) + ServerFrame(data)[..taken]
                && (r > 0 <==> taken == |ServerFrame(data)|)
    {
      hide LengthField;
      if closed {
        return 0, 0;
      }
      if |data| + 10 > WEBSOCK_SEND_BUF_LEN {
        return -1, 0;
      }
      var offset := SetSendHeader(|data|, 128 + BINARY_FRAME);
      ghost var head := sendBuf[..offset];
      forall i | 0 <= i < |data| { sendBuf[offset + i] := data[i]; }
      assert sendBuf[..offset] == head;
      assert sendBuf[..offset + |data|] == ServerFrame(data);
      ghost var last;
      r, taken, last := SendRequest(offset + |data|);
      assert sendBuf[..taken] == sendBuf[..offset + |data|][..taken];
    }

    /** The close frame sent when a session ends. */
    method Exit() returns (r: int, ghost taken: nat)
      requires Valid()
      modifies this`closed, sendBuf, sock`written
      ensures old(closed) ==> r == 0 && closed && sock.written == old(sock.written)
      ensures taken <= 2 && sock.written == old(sock.written) + [128 + CONNECTION_CLOSE, 0][..taken]
      ensures !old(closed) ==> (r > 0 <==> taken == 2) && (closed <==> r < 0)
    {
      var offset := SetSendHeader(0, 128 + CONNECTION_CLOSE);
      ghost var last;
      r, taken, last := SendRequest(offset);
      assert sendBuf[..taken] == sendBuf[..offset][..taken];
    }
  }

  lemma MaskedAt(a: seq<Byte>, offset: nat, size: nat, i: nat)
    requires offset + 4 + size <= |a| && i < size
    ensures Masked(a[offset + 4..offset + 4 + size], a[offset..offset + 4])[i]
         == Xor(a[offset + 4 + i], a[offset + i % 4])
  {
    hide Xor;
  }

  /** The read buffer holds the front of the stream. */
  lemma InReadBuffer(a: seq<Byte>, len: nat, s: seq<Byte>, i: nat, j: nat)
    requires i <= j <= len <= |a| && len <= |s| && a[..len] == s[..len]
    ensures a[i..j] == s[i..j]
  {
    assert a[i..j] == a[..len][i..j];
    assert s[i..j] == s[..len][i..j];
  }

  lemma TwoOctets(n: nat)
    ensures BigEndian(n, 2) == [n / 0x100 % 256, n % 256]
  {
  }

  lemma EightOctets(n: nat)
    ensures BigEndian(n, 8)
         == [n / 0x100_0000_0000_0000 % 256, n / 0x1_0000_0000_0000 % 256, n / 0x100_0000_0000 % 256,
             n / 0x1_0000_0000 % 256, n / 0x100_0000 % 256, n / 0x1_0000 % 256, n / 0x100 % 256, n % 256]
  {
    hide BigEndian;
    assert Pow256(1) == 0x100 && Pow256(2) == 0x1_0000 && Pow256(3) == 0x100_0000 && Pow256(4) == 0x1_0000_0000;
    assert Pow256(5) == 0x100_0000_0000 && Pow256(6) == 0x1_0000_0000_0000 && Pow256(7) == 0x100_0000_0000_0000;
    BigEndianOctet(n, 8, 0);
    BigEndianOctet(n, 8, 1);
    BigEndianOctet(n, 8, 2);
    BigEndianOctet(n, 8, 3);
    BigEndianOctet(n, 8, 4);
    BigEndianOctet(n, 8, 5);
    BigEndianOctet(n, 8, 6);
    BigEndianOctet(n, 8, 7);
  }

  lemma HeaderLengthOnStream(s: seq<Byte>)
    ensures Frames.ReadHeader(s).HeaderRead? ==> Frames.ReadHeader(s).form.Offset() + 4 <= |s|
  {
  }

  lemma SmallLength(s: seq<Byte>)
    requires |s| >= 6 && s[1] % 128 <= SMALL_STREAM
    ensures FormOf(s[1]) == Small && LengthOf(s) == s[1] % 128
  {
  }

  lemma MediumLength(s: seq<Byte>)
    requires |s| >= 8 && s[1] % 128 == MEDIUM_STREAM
    ensures FormOf(s[1]) == Medium && LengthOf(s) == BigEndianValue(s[2..4]) < 0x1_0000
  {
    hide BigEndianValue;
    Sizes();
    BigEndianBound(s[2..4]);
  }

  lemma BigLength(s: seq<Byte>)
    requires |s| >= 14 && s[1] % 128 == BIG_STREAM
    ensures FormOf(s[1]) == Big && LengthOf(s) == BigEndianValue(s[2..10])
  {
    hide BigEndianValue;
  }

  lemma Appended(kept: seq<Byte>, stream: seq<Byte>, done: nat, n: nat)
    requires done + n <= |stream|
    ensures kept + stream[..done] + stream[done..done + n] == kept + stream[..done + n]
    ensures stream[done..][n..] == stream[done + n..]
  {
  }
}
