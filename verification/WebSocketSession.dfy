/** The WebSocket session: its commands arrive whole and are read through the payload cursor. */
module WebSocketSessions {
  import opened Bytes
  import opened Wire
  import opened Generator
  import opened Parsing
  import opened Commands
  import opened Calls
  import opened Frames
  import opened WebSockets

  class WebSocketSession {
    const websock: WebSocket

    constructor (websock: WebSocket)
      ensures this.websock == websock
    {
      this.websock := websock;
    }

    method ReadCommand(cmd: Command) returns (r: int)
      requires websock.Valid() && websock.HeaderInBounds()
      requires cmd.Valid() && cmd.header.position == COMMAND_HEADER_START
      requires websock.readStr != cmd.header.data && websock.readStr != cmd.payload.data
      modifies websock, websock.readStr, websock.sock`incoming, cmd, cmd.header, cmd.header.data, cmd.payload.data
      ensures websock.Valid() && cmd.Valid() && (r > 0 || websock.closed ==> websock.HeaderInBounds())
      ensures old(websock.closed) ==> r == 0 && websock.closed
      ensures !old(websock.closed) ==>
                match Receive(old(websock.sock.incoming))
                case Ended => r <= 0 && websock.closed
                case Closed => r == 0 && websock.closed
                case Refused => r == -1
                case Delivered(command, rest) =>
                  && r == COMMAND_HEADER_SIZE && !websock.closed && websock.sock.incoming == rest
                  && cmd.driver == BigEndianValue(command[4..6]) && cmd.operation == BigEndianValue(command[6..8])
                  && cmd.payload.data[..|command| - 8] == command[8..]
    {
      hide Receive, BigEndianValue;
      ghost var outcome := Receive(websock.sock.incoming);
      DeliveredSize(websock.sock.incoming);
      var err := websock.ReceiveCmd(cmd);
      if err < 0 {
        return -1;
      }
      if websock.closed {
        return 0;
      }
      if websock.payloadSize < COMMAND_HEADER_SIZE {
        return -1;
      }
      assert cmd.header.data[4..6] == cmd.header.data[..][4..6] == outcome.command[4..6];
      assert cmd.header.data[6..8] == cmd.header.data[..][6..8] == outcome.command[6..8];
      cmd.DecodeHeader();
      r := COMMAND_HEADER_SIZE;
    }

    /** Once closed, always closed: whatever is attempted afterwards, no command arrives and no octet is
        written. */
    method UseAfterClose(steps: seq<Attempt>) returns (results: seq<int>)
      requires websock.Valid() && websock.HeaderInBounds() && websock.closed
      modifies websock, websock.readStr, websock.sendBuf, websock.sock
      ensures websock.closed && websock.sock.written == old(websock.sock.written)
      ensures |results| == |steps| && forall i :: 0 <= i < |results| ==> results[i] <= 0
    {
      results := [];
      for i := 0 to |steps|
        invariant websock.Valid() && websock.HeaderInBounds() && websock.closed
        invariant websock.sock.written == old(websock.sock.written)
        invariant |results| == i && forall j :: 0 <= j < i ==> results[j] <= 0
      {
        var r;
        match steps[i] {
          case TryRead =>
            var cmd := new Command();
            r := ReadCommand(cmd);
          case TrySend(data) =>
            ghost var taken;
            r, taken := websock.Send(data);
          case TryExit =>
            ghost var taken;
            r, taken := websock.Exit();
        }
        results := results + [r];
      }
    }

    method RecvLength(cmd: Command) returns (n: nat)
      requires cmd.Valid() && |cmd.payload.Ahead()| >= 4
      modifies cmd.payload`position
      ensures cmd.Valid() && n == BigEndianValue(old(cmd.payload.Ahead())[..4])
      ensures cmd.payload.Ahead() == old(cmd.payload.Ahead())[4..]
    {
      ghost var ahead := cmd.payload.Ahead();
      OneWord(ahead);
      var word := cmd.payload.Deserialize([U32]);
      n := word[0];
    }

    /** Reading on behind the end of the payload buffer is undefined: any result is possible. */
    method ReadPastEnd(cmd: Command) returns (err: int, v: Value)
      requires cmd.Valid()
      modifies cmd.payload`position
      ensures cmd.Valid()
    {
      cmd.payload.position := cmd.payload.data.Length;
      err, v := *, *;
    }

    method RecvArray(cmd: Command, e: Scalar, n: nat) returns (err: int, v: Value)
      requires cmd.Valid()
      modifies cmd.payload`position
      ensures cmd.Valid()
      ensures Took(DecodeArg(ArrayArg(e, n), old(cmd.payload.Ahead()), CMD_PAYLOAD_BUFFER_LEN),
                   err, v, cmd.payload.Ahead())
    {
      hide DecodeItems;
      if n * e.Size() > cmd.payload.data.Length - cmd.payload.position {
        err, v := ReadPastEnd(cmd);
        return;
      }
      var ns := cmd.payload.ExtractArray(e, n);
      return 0, Items(ns);
    }

    /** -1 when the byte count exceeds the payload buffer. */
    method RecvVector(cmd: Command, e: Scalar) returns (err: int, v: Value)
      requires cmd.Valid()
      modifies cmd.payload`position
      ensures cmd.Valid()
      ensures Took(DecodeArg(VectorArg(e), old(cmd.payload.Ahead()), CMD_PAYLOAD_BUFFER_LEN),
                   err, v, cmd.payload.Ahead())
    {
      hide BigEndianValue, DecodeItems, DecodeArg, Scalar.Size;
      ghost var s := cmd.payload.Ahead();
      if 4 > cmd.payload.data.Length - cmd.payload.position {
        NoCount(VectorArg(e), s, CMD_PAYLOAD_BUFFER_LEN);
        err, v := ReadPastEnd(cmd);
        return;
      }
      VectorBehindCount(e, s, CMD_PAYLOAD_BUFFER_LEN);
      var length := RecvLength(cmd);
      if length > CMD_PAYLOAD_BUFFER_LEN {
        return -1, Items([]);
      }
      var size := length / e.Size() * e.Size();
      if size > cmd.payload.data.Length - cmd.payload.position {
        err, v := ReadPastEnd(cmd);
        return;
      }
      var ns := cmd.payload.ToVector(e, length / e.Size());
      return 0, Items(ns);
    }

    method RecvString(cmd: Command) returns (err: int, v: Value)
      requires cmd.Valid()
      modifies cmd.payload`position
      ensures cmd.Valid()
      ensures Took(DecodeArg(StringArg, old(cmd.payload.Ahead()), CMD_PAYLOAD_BUFFER_LEN),
                   err, v, cmd.payload.Ahead())
    {
      hide BigEndianValue, DecodeArg;
      ghost var s := cmd.payload.Ahead();
      if 4 > cmd.payload.data.Length - cmd.payload.position {
        NoCount(StringArg, s, CMD_PAYLOAD_BUFFER_LEN);
        err, v := ReadPastEnd(cmd);
        return;
      }
      StringBehindCount(s, CMD_PAYLOAD_BUFFER_LEN);
      var length := RecvLength(cmd);
      if length > CMD_PAYLOAD_BUFFER_LEN {
        return -1, Text([]);
      }
      if length > cmd.payload.data.Length - cmd.payload.position {
        err, v := ReadPastEnd(cmd);
        return;
      }
      var str := cmd.payload.ToString(length);
      return 0, Text(str);
    }

    method Deserialize(cmd: Command, types: seq<Scalar>) returns (err: int, vs: seq<Value>)
      requires cmd.Valid()
      modifies cmd.payload`position
      ensures cmd.Valid()
      ensures Took(DecodePack(ScalarPack(types), old(cmd.payload.Ahead()), CMD_PAYLOAD_BUFFER_LEN),
                   err, vs, cmd.payload.Ahead())
    {
      hide DeserializeAt;
      ghost var s := cmd.payload.Ahead();
      if RequiredBufferSize(types) > cmd.payload.data.Length - cmd.payload.position {
        var v;
        err, v := ReadPastEnd(cmd);
        vs := *;
        return;
      }
      DeserializePrefix(types, s);
      var ns := cmd.payload.Deserialize(types);
      return 0, Numbers(ns);
    }

    /** The receive call emitted for one pack. */
    method ReceivePack(cmd: Command, p: Pack) returns (err: int, vs: seq<Value>)
      requires cmd.Valid()
      modifies cmd.payload`position
      ensures cmd.Valid()
      ensures Took(DecodePack(p, old(cmd.payload.Ahead()), CMD_PAYLOAD_BUFFER_LEN),
                   err, vs, cmd.payload.Ahead())
    {
      hide DecodeArg;
      var v: Value;
      match p {
        case ScalarPack(types) =>
          err, vs := Deserialize(cmd, types);
        case ArrayPack(e, n) =>
          err, v := RecvArray(cmd, e, n);
          vs := [v];
        case VectorPack(e) =>
          err, v := RecvVector(cmd, e);
          vs := [v];
        case StringPack =>
          err, v := RecvString(cmd);
          vs := [v];
      }
    }

    /** The emitted parser of an operation. */
    method ParseArgs(cmd: Command, packs: seq<Pack>) returns (err: int, args: seq<Value>)
      requires cmd.Valid()
      modifies cmd.payload`position
      ensures cmd.Valid() && Reads(packs, old(cmd.payload.Ahead()), err, args)
    {
      hide DecodePack;
      ghost var all := DecodePacks(packs, cmd.payload.Ahead(), CMD_PAYLOAD_BUFFER_LEN);
      args := [];
      PrependNothing(all);
      assert packs[0..] == packs;
      for i := 0 to |packs|
        invariant cmd.Valid()
        invariant !all.Short? ==>
                    all == Prepend(args, DecodePacks(packs[i..], cmd.payload.Ahead(), CMD_PAYLOAD_BUFFER_LEN))
      {
        assert packs[i..][0] == packs[i] && packs[i..][1..] == packs[i + 1..];
        var vs: seq<Value>;
        err, vs := ReceivePack(cmd, packs[i]);
        if err < 0 {
          return -1, args;
        }
        PrependTwice(args, vs, DecodePacks(packs[i + 1..], cmd.payload.Ahead(), CMD_PAYLOAD_BUFFER_LEN));
        args := args + vs;
      }
      err := 0;
      assert packs[|packs|..] == [];
      assert args + [] == args;
    }

    /** One turn of the session loop: read a command and parse its arguments, unless the exit signal came
        meanwhile. */
    method Serve(sig: Signatures, devices: nat, exit: bool) returns (received: int, err: int, call: Call)
      requires websock.Valid() && websock.HeaderInBounds() && !websock.closed
      modifies websock, websock.readStr, websock.sock`incoming
      ensures received > 0 <==> Receive(old(websock.sock.incoming)).Delivered?
      ensures received > 0 && !exit ==>
                && websock.Valid() && websock.HeaderInBounds() && !websock.closed
                && websock.sock.incoming == Receive(old(websock.sock.incoming)).rest
                && Served(sig, devices, Receive(old(websock.sock.incoming)).command, err, call)
    {
      hide Receive, BigEndianValue, Reads, Served, Unhandled, PacksOf;
      ghost var before := websock.sock.incoming;
      DeliveredSize(before);
      var cmd := new Command();
      received := ReadCommand(cmd);
      if exit || received <= 0 {
        return received, 0, Call(0, 0, []);
      }
      ghost var command := Receive(before).command;
      ghost var stale := cmd.payload.data[|command| - 8..];
      assert cmd.payload.Ahead() == command[8..] + stale;
      if (cmd.driver, cmd.operation) in sig {
        var args;
        err, args := ParseArgs(cmd, PacksOf(sig, cmd.driver, cmd.operation));
        call := Call(cmd.driver, cmd.operation, args);
        ServedFromBuffer(sig, devices, command, stale, err, call);
      } else {
        err := ExecuteUnknown(cmd.driver, devices);
        call := Call(cmd.driver, cmd.operation, []);
        ServedUnknown(sig, devices, command, err, call);
      }
    }

    /** The session loop, as for a stream session. `log` holds the result and the call of every command:
        one entry for each command of the stream, in order, whether or not the command is complete. */
    method Run(sig: Signatures, devices: nat, ending: Ending) returns (log: seq<(int, Call)>, stopped: bool)
      requires websock.Valid() && websock.HeaderInBounds() && !websock.closed
      modifies websock, websock.readStr, websock.sock`incoming
      ensures (stopped <==> ending.At(|log|)) && forall i :: 0 <= i < |log| ==> !ending.At(i)
      ensures var commands := ReceiveAll(old(websock.sock.incoming));
              && |log| <= |commands| && (!stopped ==> |log| == |commands|)
              && forall i :: 0 <= i < |log| ==>
                   && Served(sig, devices, commands[i], log[i].0, log[i].1)
                   && HandedOver(sig, devices, DecodeCall(sig, commands[i], CMD_PAYLOAD_BUFFER_LEN), log[i].0, log[i].1)
    {
      hide Receive, ReceiveAll, DecodeCall, Served, HandedOver;
      ghost var commands := ReceiveAll(websock.sock.incoming);
      log, stopped := [], false;
      while !ending.exits(2 * |log|)
        invariant !stopped && (|log| > 0 ==> !ending.closes(|log| - 1))
        invariant forall i :: 0 <= i < |log| ==> !ending.At(i)
        invariant websock.Valid() && websock.HeaderInBounds() && !websock.closed
        invariant |log| <= |commands| && ReceiveAll(websock.sock.incoming) == commands[|log|..]
        invariant forall i :: 0 <= i < |log| ==>
                    && Served(sig, devices, commands[i], log[i].0, log[i].1)
                    && HandedOver(sig, devices, DecodeCall(sig, commands[i], CMD_PAYLOAD_BUFFER_LEN), log[i].0, log[i].1)
        decreases |websock.sock.incoming|
      {
        ghost var before := websock.sock.incoming;
        ReceiveNext(before);
        var exit := ending.exits(2 * |log| + 1);
        var received, err, call := Serve(sig, devices, exit);
        if exit {
          break;
        }
        if received <= 0 {
          return;
        }
        assert commands[|log|..][1..] == commands[|log| + 1..];
        ServedIsHandedOver(sig, devices, commands[|log|], err, call);
        log := log + [(err, call)];
        if ending.closes(|log| - 1) {
          break;
        }
      }
      stopped := true;
    }
  }

  /** What a session may try to do with its connection. */
  datatype Attempt = TryRead | TrySend(data: seq<Byte>) | TryExit

  /** A complete item was read and passed, or its byte count refused. Nothing is said about one that
      reaches behind the end of the buffer. */
  ghost predicate Took<T(!new)>(p: Parsed<T>, err: int, v: T, rest: seq<Byte>)
  {
    match p
    case TooLong => err == -1
    case Parsed(value, left) => err == 0 && v == value && rest == left
    case Short => true
  }

  /** What the generated parser makes of the octets under the cursor. It is free where it reads on behind
      the end of the buffer. */
  ghost predicate Reads(packs: seq<Pack>, s: seq<Byte>, err: int, args: seq<Value>)
  {
    match DecodePacks(packs, s, CMD_PAYLOAD_BUFFER_LEN)
    case TooLong => err == -1
    case Parsed(vs, _) => err == 0 && args == vs
    case Short => true
  }

  /** The payload buffer holds the command's payload and then whatever was in it. */
  ghost predicate BufferedBehind(command: seq<Byte>, stale: seq<Byte>)
  {
    |command| >= 8 && |command| - 8 + |stale| == CMD_PAYLOAD_BUFFER_LEN
  }

  /** The call is for the command's driver and operation, and its arguments are read from the payload
      buffer, unless nothing has that operation. */
  ghost predicate Served(sig: Signatures, devices: nat, command: seq<Byte>, err: int, call: Call)
  {
    && |command| >= 8
    && call.driver == BigEndianValue(command[4..6]) && call.operation == BigEndianValue(command[6..8])
    && if (call.driver, call.operation) !in sig then Unhandled(call.driver, devices, err) && call.args == []
       else exists stale :: BufferedBehind(command, stale)
              && Reads(PacksOf(sig, call.driver, call.operation), command[8..] + stale, err, call.args)
  }

  /** A complete command of a known operation succeeds with its own call; one with an oversized byte count
      fails, and so does an unknown operation. */
  ghost predicate HandedOver(sig: Signatures, devices: nat, one: Parsed<Call>, err: int, call: Call)
  {
    match one
    case TooLong => err == -1
    case Parsed(c, _) =>
      call == c && if (c.driver, c.operation) in sig then err == 0 else Unhandled(c.driver, devices, err)
    case Short => true
  }

  /** A command holds all the arguments of its operation. */
  ghost predicate Complete(sig: Signatures, command: seq<Byte>)
  {
    DecodeCall(sig, command, CMD_PAYLOAD_BUFFER_LEN).Parsed?
  }

  ghost predicate AllComplete(sig: Signatures, commands: seq<seq<Byte>>)
  {
    forall i :: 0 <= i < |commands| ==> Complete(sig, commands[i])
  }

  /** The calls that complete commands stand for. */
  ghost function CallsOf(sig: Signatures, commands: seq<seq<Byte>>): (cs: seq<Call>)
    requires AllComplete(sig, commands)
    ensures |cs| == |commands|
  {
    if commands == [] then []
    else
      assert Complete(sig, commands[0]);
      [DecodeCall(sig, commands[0], CMD_PAYLOAD_BUFFER_LEN).value] + CallsOf(sig, commands[1..])
  }

  lemma DeliveredSize(s: seq<Byte>)
    ensures Receive(s).Delivered? ==> 8 <= |Receive(s).command| <= MAX_PAYLOAD && |Receive(s).rest| < |s|
  {
    hide Masked, LengthOf;
  }

  lemma OneWord(s: seq<Byte>)
    requires |s| >= 4
    ensures RequiredBufferSize([U32]) == 4 && DeserializeAt([U32], s, 0) == [BigEndianValue(s[..4])]
  {
    hide BigEndianValue;
    assert [U32][1..] == [];
    assert s[0..4] == s[..4];
    assert DeserializeAt([], s, 4) == [];
  }

  /** Extraction looks only at the octets its types take up. */
  lemma {:induction false} DeserializeLocal(types: seq<Scalar>, s: seq<Byte>, n: nat, position: nat)
    requires position + RequiredBufferSize(types) <= n <= |s|
    ensures DeserializeAt(types, s, position) == DeserializeAt(types, s[..n], position)
    decreases |types|
  {
    hide ExtractWord;
    if types != [] {
      assert s[..n][position..position + types[0].Size()] == s[position..position + types[0].Size()];
      DeserializeLocal(types[1..], s, n, position + types[0].Size());
    }
  }

  lemma DeserializePrefix(types: seq<Scalar>, s: seq<Byte>)
    requires RequiredBufferSize(types) <= |s|
    ensures DeserializeAt(types, s, 0) == DeserializeAt(types, s[..RequiredBufferSize(types)], 0)
  {
    DeserializeLocal(types, s, RequiredBufferSize(types), 0);
  }

  lemma ReceiveNext(s: seq<Byte>)
    ensures var r := Receive(s);
            if r.Delivered? then ReceiveAll(s) == [r.command] + ReceiveAll(r.rest) && |r.rest| < |s|
            else ReceiveAll(s) == []
  {
    hide Receive;
    DeliveredSize(s);
  }

  /** What the payload buffer holds behind a command changes neither the arguments of a complete one nor
      the refusal of an oversized count. */
  lemma CursorSeesCommand(sig: Signatures, command: seq<Byte>, stale: seq<Byte>)
    requires |command| >= 8
    ensures var one := DecodeCall(sig, command, CMD_PAYLOAD_BUFFER_LEN);
            var driver, operation := BigEndianValue(command[4..6]), BigEndianValue(command[6..8]);
            var parsed := DecodePacks(PacksOf(sig, driver, operation), command[8..] + stale, CMD_PAYLOAD_BUFFER_LEN);
            && (one.Parsed? ==> parsed.Parsed? && one.value == Call(driver, operation, parsed.value))
            && (one.TooLong? ==> parsed.TooLong?)
  {
    hide BigEndianValue, DecodePacks, DecodeArgs;
    var packs := PacksOf(sig, BigEndianValue(command[4..6]), BigEndianValue(command[6..8]));
    PacksDecodeLikeArgs(packs, command[8..], CMD_PAYLOAD_BUFFER_LEN);
    PacksDecodeLikeArgs(packs, command[8..] + stale, CMD_PAYLOAD_BUFFER_LEN);
    if DecodeArgs(Flatten(packs), command[8..], CMD_PAYLOAD_BUFFER_LEN).Parsed? {
      DecodeExtends(Flatten(packs), command[8..], stale, CMD_PAYLOAD_BUFFER_LEN, CMD_PAYLOAD_BUFFER_LEN);
    } else if DecodeArgs(Flatten(packs), command[8..], CMD_PAYLOAD_BUFFER_LEN).TooLong? {
      RefusalExtends(Flatten(packs), command[8..], stale, CMD_PAYLOAD_BUFFER_LEN);
    }
  }

  lemma ServedFromBuffer(
    sig: Signatures, devices: nat, command: seq<Byte>, stale: seq<Byte>, err: int, call: Call)
    requires BufferedBehind(command, stale) && (call.driver, call.operation) in sig
    requires call.driver == BigEndianValue(command[4..6]) && call.operation == BigEndianValue(command[6..8])
    requires Reads(PacksOf(sig, call.driver, call.operation), command[8..] + stale, err, call.args)
    ensures Served(sig, devices, command, err, call)
  {
  }

  lemma ServedUnknown(sig: Signatures, devices: nat, command: seq<Byte>, err: int, call: Call)
    requires |command| >= 8 && (call.driver, call.operation) !in sig && call.args == []
    requires call.driver == BigEndianValue(command[4..6]) && call.operation == BigEndianValue(command[6..8])
    requires Unhandled(call.driver, devices, err)
    ensures Served(sig, devices, command, err, call)
  {
  }

  lemma ServedIsHandedOver(sig: Signatures, devices: nat, command: seq<Byte>, err: int, call: Call)
    requires Served(sig, devices, command, err, call)
    ensures HandedOver(sig, devices, DecodeCall(sig, command, CMD_PAYLOAD_BUFFER_LEN), err, call)
  {
    hide BigEndianValue, DecodePacks, Unhandled;
    if (call.driver, call.operation) in sig {
      var stale :| BufferedBehind(command, stale)
        && Reads(PacksOf(sig, call.driver, call.operation), command[8..] + stale, err, call.args);
      CursorSeesCommand(sig, command, stale);
    } else {
      NoPacks(command[8..], CMD_PAYLOAD_BUFFER_LEN);
    }
  }
}
