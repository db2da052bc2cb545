/** The stream session: server/core/session.cpp and the TCP half of server/core/session.hpp. */
module TcpSessions {
  import opened Bytes
  import opened Wire
  import opened Generator
  import opened Parsing
  import opened Commands
  import opened Calls
  import opened Sockets

  class TcpSession {
    const sock: Socket

    constructor (sock: Socket)
      ensures this.sock == sock
    {
      this.sock := sock;
    }

    /** Read exactly `n` octets. An early end of the stream is reported as zero, not as an error. */
    method RcvNBytes(buffer: array<Byte>, n: nat) returns (r: int)
      requires n <= buffer.Length
      modifies sock`incoming, buffer
      ensures n <= |old(sock.incoming)| ==>
                && r == n
                && buffer[..n] == old(sock.incoming)[..n]
                && sock.incoming == old(sock.incoming)[n..]
      ensures n > |old(sock.incoming)| ==> r == 0 && sock.incoming == []
    {
      ghost var stream := sock.incoming;
      var bytesRead := 0;
      while bytesRead < n
        invariant 0 <= bytesRead <= n && bytesRead <= |stream|
        invariant sock.incoming == stream[bytesRead..]
        invariant buffer[..bytesRead] == stream[..bytesRead]
      {
        var chunk := sock.Read(n - bytesRead);
        if |chunk| == 0 {
          return 0;
        }
        assert chunk == stream[bytesRead..bytesRead + |chunk|];
        forall i | 0 <= i < |chunk| { buffer[bytesRead + i] := chunk[i]; }
        assert forall i :: bytesRead <= i < bytesRead + |chunk| ==> buffer[i] == chunk[i - bytesRead];
        bytesRead := bytesRead + |chunk|;
      }
      r := bytesRead;
    }

    method GetPackLength() returns (length: nat)
      modifies sock`incoming
      ensures |old(sock.incoming)| >= 4 ==>
                && length == BigEndianValue(old(sock.incoming)[..4])
                && sock.incoming == old(sock.incoming)[4..]
      ensures |old(sock.incoming)| < 4 ==> sock.incoming == []
    {
      var buff := new Byte[8];
      var err := RcvNBytes(buff, 4);
      length := ExtractWord(buff[..4]);
    }

    method RecvArray(e: Scalar, n: nat) returns (err: int, v: Value)
      modifies sock`incoming
      ensures Delivers(DecodeArg(ArrayArg(e, n), old(sock.incoming), U32_LIMIT), err, v, sock.incoming)
    {
      var size := n * e.Size();
      var arr := new Byte[size];
      err := RcvNBytes(arr, size);
      v := Items(DecodeItems(e, n, arr[..size]));
    }

    method RecvVector(e: Scalar) returns (err: int, v: Value)
      modifies sock`incoming
      ensures Delivers(DecodeArg(VectorArg(e), old(sock.incoming), U32_LIMIT), err, v, sock.incoming)
    {
      hide BigEndianValue, DecodeItems, DecodeArg, Scalar.Size;
      ghost var s := sock.incoming;
      var bytes := GetPackLength();
      var length := bytes / e.Size();
      var size := length * e.Size();
      var vec := new Byte[size];
      err := RcvNBytes(vec, size);
      v := Items(DecodeItems(e, length, vec[..size]));
      if |s| >= 4 {
        WordIsSmall(s[..4]);
        VectorBehindCount(e, s, U32_LIMIT);
      } else {
        NoCount(VectorArg(e), s, U32_LIMIT);
      }
    }

    method RecvString() returns (err: int, v: Value)
      modifies sock`incoming
      ensures Delivers(DecodeArg(StringArg, old(sock.incoming), U32_LIMIT), err, v, sock.incoming)
    {
      hide BigEndianValue;
      ghost var s := sock.incoming;
      var length := GetPackLength();
      var str := new Byte[length];
      err := RcvNBytes(str, length);
      v := Text(str[..length]);
      if |s| >= 4 {
        WordIsSmall(s[..4]);
        StringBehindCount(s, U32_LIMIT);
      }
    }

    method Deserialize(types: seq<Scalar>) returns (err: int, vs: seq<Value>)
      modifies sock`incoming
      ensures Delivers(DecodePack(ScalarPack(types), old(sock.incoming), U32_LIMIT), err, vs, sock.incoming)
    {
      hide DeserializeAt;
      var packLen := RequiredBufferSize(types);
      var buff := new Byte[packLen];
      err := RcvNBytes(buff, packLen);
      vs := Numbers(DeserializeAt(types, buff[..packLen], 0));
    }

    /** The receive call emitted for one pack. */
    method ReceivePack(p: Pack) returns (err: int, vs: seq<Value>)
      modifies sock`incoming
      ensures Delivers(DecodePack(p, old(sock.incoming), U32_LIMIT), err, vs, sock.incoming)
    {
      hide DecodeArg;
      var v: Value;
      match p {
        case ScalarPack(types) =>
          err, vs := Deserialize(types);
        case ArrayPack(e, n) =>
          err, v := RecvArray(e, n);
          vs := [v];
        case VectorPack(e) =>
          err, v := RecvVector(e);
          vs := [v];
        case StringPack =>
          err, v := RecvString();
          vs := [v];
      }
    }

    /** The emitted parser of an operation. It succeeds even when the stream ends inside the arguments. */
    method ParseArgs(packs: seq<Pack>) returns (err: int, args: seq<Value>)
      modifies sock`incoming
      ensures err == 0 && Delivers(DecodePacks(packs, old(sock.incoming), U32_LIMIT), err, args, sock.incoming)
    {
      hide DecodePack;
      ghost var all := DecodePacks(packs, sock.incoming, U32_LIMIT);
      args := [];
      PrependNothing(all);
      assert packs[0..] == packs;
      for i := 0 to |packs|
        invariant || all == Prepend(args, DecodePacks(packs[i..], sock.incoming, U32_LIMIT))
                  || (!all.Parsed? && sock.incoming == [])
      {
        ghost var before := sock.incoming;
        assert packs[i..][0] == packs[i] && packs[i..][1..] == packs[i + 1..];
        var vs: seq<Value>;
        err, vs := ReceivePack(packs[i]);
        NoMoreThan(packs[i], before);
        if err < 0 {
          return -1, args;
        }
        PrependTwice(args, vs, DecodePacks(packs[i + 1..], sock.incoming, U32_LIMIT));
        args := args + vs;
      }
      err := 0;
      assert packs[|packs|..] == [];
      assert args + [] == args;
    }

    /** Read and decode a command header. */
    method ReadCommand(cmd: Command) returns (r: int)
      requires cmd.Valid() && cmd.header.position == COMMAND_HEADER_START
      modifies sock`incoming, cmd, cmd.header, cmd.header.data
      ensures |old(sock.incoming)| >= 8 ==>
                && r == COMMAND_HEADER_SIZE
                && sock.incoming == old(sock.incoming)[8..]
                && cmd.driver == BigEndianValue(old(sock.incoming)[4..6])
                && cmd.operation == BigEndianValue(old(sock.incoming)[6..8])
      ensures |old(sock.incoming)| < 8 ==> r == 0 && sock.incoming == []
    {
      hide BigEndianValue;
      ghost var s := sock.incoming;
      r := RcvNBytes(cmd.header.data, COMMAND_HEADER_SIZE);
      if r <= 0 {
        return;
      }
      assert cmd.header.data[4..6] == cmd.header.data[..8][4..6] == s[4..6];
      assert cmd.header.data[6..8] == cmd.header.data[..8][6..8] == s[6..8];
      cmd.DecodeHeader();
    }

    /** One turn of the session loop: read a header, then parse the arguments of its operation, unless the
        exit signal came meanwhile. */
    method Serve(sig: Signatures, devices: nat, exit: bool) returns (received: int, err: int, call: Call)
      modifies sock`incoming
      ensures |old(sock.incoming)| < 8 ==> received == 0 && sock.incoming == []
      ensures |old(sock.incoming)| >= 8 && !exit ==>
                && received > 0 && IsFor(call, old(sock.incoming)) && Answered(sig, devices, err, call)
                && Delivers(DecodeCall(sig, old(sock.incoming), U32_LIMIT), 0, call, sock.incoming)
    {
      hide BigEndianValue, DecodePacks, Unhandled;
      err, call := 0, Call(0, 0, []);
      var cmd := new Command();
      received := ReadCommand(cmd);
      if exit || received <= 0 {
        return;
      }
      var args := [];
      if (cmd.driver, cmd.operation) in sig {
        err, args := ParseArgs(PacksOf(sig, cmd.driver, cmd.operation));
      } else {
        NoPacks(sock.incoming, U32_LIMIT);
        err := ExecuteUnknown(cmd.driver, devices);
      }
      call := Call(cmd.driver, cmd.operation, args);
    }

    /** The session loop. It stops early exactly where `ending` says. `log` holds the result of each
        executed command and the command with its decoded arguments. The complete commands come in order,
        and then at most one more: a command whose header arrived but whose arguments were cut off by the
        end of the stream. */
    method Run(sig: Signatures, devices: nat, ending: Ending) returns (log: seq<(int, Call)>, stopped: bool)
      modifies sock`incoming
      ensures (stopped <==> ending.At(|log|)) && forall i :: 0 <= i < |log| ==> !ending.At(i)
      ensures forall i :: 0 <= i < |log| ==> Answered(sig, devices, log[i].0, log[i].1)
      ensures var all, calls := DecodeCalls(sig, old(sock.incoming)), CallsIn(log);
              && (calls <= all.0 || (|all.1| >= 8 && |calls| == |all.0| + 1 && all.0 <= calls))
              && (|calls| == |all.0| + 1 ==> IsFor(calls[|all.0|], all.1))
              && (!stopped ==> |calls| == |all.0| + if |all.1| < 8 then 0 else 1)
              && (!stopped ==> (calls == all.0 <==> |all.1| < 8))
    {
      hide DecodeCall, DecodeCalls, IsFor, Answered, CallsIn;
      ghost var all := DecodeCalls(sig, sock.incoming);
      log, stopped := [], false;
      ghost var whole := true;
      while !ending.exits(2 * |log|)
        invariant !stopped && (|log| > 0 ==> !ending.closes(|log| - 1))
        invariant forall i :: 0 <= i < |log| ==> !ending.At(i)
        invariant forall i :: 0 <= i < |log| ==> Answered(sig, devices, log[i].0, log[i].1)
        invariant whole ==> && CallsIn(log) + DecodeCalls(sig, sock.incoming).0 == all.0
                            && DecodeCalls(sig, sock.incoming).1 == all.1
        invariant !whole ==> && sock.incoming == [] && |all.1| >= 8
                             && |log| == |all.0| + 1 && all.0 <= CallsIn(log)
                             && IsFor(CallsIn(log)[|all.0|], all.1)
        decreases |sock.incoming|
      {
        ghost var s := sock.incoming;
        StreamStep(sig, s);
        var exit := ending.exits(2 * |log| + 1);
        var received, err, call := Serve(sig, devices, exit);
        if exit {
          break;
        }
        if received <= 0 {
          return;
        }
        assert CallsIn(log + [(err, call)]) == CallsIn(log) + [call];
        log := log + [(err, call)];
        whole := DecodeCall(sig, s, U32_LIMIT).Parsed?;
        if ending.closes(|log| - 1) {
          break;
        }
      }
      stopped := true;
    }
  }

  /** The calls of a log, without their results. */
  function CallsIn(log: seq<(int, Call)>): (cs: seq<Call>)
    ensures |cs| == |log| && forall i :: 0 <= i < |log| ==> cs[i] == log[i].1
  {
    seq(|log|, i requires 0 <= i < |log| => log[i].1)
  }

  /** A known operation is handed its arguments, cut off or not; an unknown one is answered without any. */
  ghost predicate Answered(sig: Signatures, devices: nat, err: int, call: Call)
  {
    if (call.driver, call.operation) in sig then err == 0
    else Unhandled(call.driver, devices, err) && call.args == []
  }

  /** A complete item is handed over. One that the end of the stream cut off counts as received too, with
      zero octets and an arbitrary value, and nothing is left to read. */
  ghost predicate Delivers<T(!new)>(p: Parsed<T>, err: int, v: T, rest: seq<Byte>)
  {
    if p.Parsed? then err >= 0 && p == Parsed(v, rest) else err == 0 && rest == []
  }

  /** The call is for the driver and the operation that the header names. */
  ghost predicate IsFor(call: Call, s: seq<Byte>)
    requires |s| >= 8
  {
    call.driver == BigEndianValue(s[4..6]) && call.operation == BigEndianValue(s[6..8])
  }

  /** A loop turn hands over a call that was never complete: a header alone, for an operation with an
      argument. */
  lemma CutOffCommand(driver: nat, operation: nat)
    requires 0 < driver < 0x1_0000 && operation < 0x1_0000
    ensures var sig: Signatures := map[(driver, operation) := [ScalarPack([U32])]];
            var s := CommandHeader(driver, operation);
            |s| == 8 && DecodeCalls(sig, s) == ([], s)
  {
    hide CommandHeader, BigEndianValue;
    var s := CommandHeader(driver, operation);
    HeaderRoundTrip(driver, operation, []);
    assert s + [] == s;
    assert RequiredBufferSize([U32]) == 4 by { assert [U32][1..] == []; }
    assert DecodePacks([ScalarPack([U32])], [], U32_LIMIT) == Short;
  }

  lemma NoMoreThan(p: Pack, s: seq<Byte>)
    ensures DecodePack(p, s, U32_LIMIT).Parsed? ==> |DecodePack(p, s, U32_LIMIT).rest| <= |s|
  {
    if DecodePack(p, s, U32_LIMIT).Parsed? {
      OnePackConsumes(p, s, U32_LIMIT);
    }
  }

  /** Either a command is complete at the front of the stream, or no further command is. */
  lemma StreamStep(sig: Signatures, s: seq<Byte>)
    ensures var one := DecodeCall(sig, s, U32_LIMIT);
            && (one.Parsed? ==> DecodeCalls(sig, s).0 == [one.value] + DecodeCalls(sig, one.rest).0)
            && (one.Parsed? ==> DecodeCalls(sig, s).1 == DecodeCalls(sig, one.rest).1)
            && (!one.Parsed? ==> DecodeCalls(sig, s) == ([], s))
            && (one.Parsed? ==> |s| >= 8 && |one.rest| < |s|)
  {
    hide BigEndianValue, DecodePacks;
    if DecodeCall(sig, s, U32_LIMIT).Parsed? {
      CallConsumes(sig, s, U32_LIMIT);
    }
  }
}
