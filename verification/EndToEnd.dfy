/** From the Python client to the driver call, over either transport. */
module EndToEnd {
  import opened Bytes
  import opened Wire
  import opened Generator
  import opened Parsing
  import opened Commands
  import opened Calls
  import opened Client
  import opened Sockets
  import opened Frames
  import opened WebSocketSessions
  import opened TcpSessions

  /** The parser generated for a signature reads exactly what the client builds for it: same values, same
      number of octets, whatever follows. */
  method GeneratedParserReadsClientPayload(ts: seq<ArgType>, args: seq<PyValue>, rest: seq<Byte>)
    returns (packs: seq<Pack>, payload: Payload)
    requires AllSuit(ts, args)
    ensures Flatten(packs) == ts && Maximal(packs) && payload == PayloadOf(ts, args)
    ensures payload.Bytes? && DecodePacks(packs, payload.s + rest, U32_LIMIT) == Parsed(Meanings(ts, args), rest)
  {
    hide PayloadOf, DecodePacks, Meanings;
    var hasVector;
    packs, hasVector := BuildArgsPacks(ts);
    payload := BuildPayload(ts, args);
    PayloadIsWire(ts, args);
    CountsFit(ts, Meanings(ts, args));
    EmittedParserRoundTrip(packs, Meanings(ts, args), rest, U32_LIMIT);
  }

  /** The command that send_command builds is the encoding of the call it means. */
  lemma ClientSendsTheCall(sig: Signatures, driver: nat, operation: nat, args: seq<PyValue>)
    requires driver < 0x1_0000 && operation < 0x1_0000 && (driver, operation) in sig
    requires AllSuit(Flatten(sig[(driver, operation)]), args)
    ensures var ts := Flatten(sig[(driver, operation)]);
            var call := Call(driver, operation, Meanings(ts, args));
            WellFormed(sig, call) && CommandOf(driver, operation, List(ts, args)) == Bytes(EncodeCall(sig, call))
  {
    hide BigEndian;
    PayloadIsWire(Flatten(sig[(driver, operation)]), args);
  }

  /** sock.send may take only a part of the last command. Behind any commands sent whole before it, the
      server finds that command complete if and only if all of it was taken; otherwise it finds the
      commands before it and nothing more. */
  lemma PartlySentCommand(sig: Signatures, cs: seq<Call>, c: Call, taken: nat)
    requires AllWellFormed(sig, cs) && WellFormed(sig, c) && taken <= |EncodeCall(sig, c)|
    ensures var part := EncodeCall(sig, c)[..taken];
            DecodeCalls(sig, EncodeCalls(sig, cs) + part)
            == if taken == |EncodeCall(sig, c)| then (cs + [c], []) else (cs, part)
  {
    hide EncodeCall, EncodeCalls, DecodeCall, DecodeCalls, WellFormed;
    var whole := EncodeCall(sig, c);
    var part := whole[..taken];
    CallsRoundTrip(sig, cs, part);
    StreamedCall(sig, c, []);
    assert whole + [] == whole;
    if taken == |whole| {
      assert part == whole;
      DecodeCallsStep(sig, whole);
      EmptyStreams(sig);
      assert [c] + [] == [c];
    } else {
      assert part + whole[taken..] == whole;
      if DecodeCall(sig, part, U32_LIMIT).Parsed? {
        CallExtends(sig, part, whole[taken..], U32_LIMIT);
      }
      DecodeCallsStops(sig, part);
      assert cs + [] == cs;
    }
  }

  /** send_command on a connection that has carried whole commands so far. */
  method SendCall(sig: Signatures, sock: Socket, sent: seq<Call>, driver: nat, operation: nat, args: seq<PyValue>)
    returns (ok: bool, taken: nat)
    requires driver < 0x1_0000 && operation < 0x1_0000 && (driver, operation) in sig
    requires AllSuit(Flatten(sig[(driver, operation)]), args)
    requires AllWellFormed(sig, sent) && sock.written == EncodeCalls(sig, sent)
    modifies sock`written
    ensures var ts := Flatten(sig[(driver, operation)]);
            var call := Call(driver, operation, Meanings(ts, args));
            && WellFormed(sig, call) && taken <= |EncodeCall(sig, call)| && (ok <==> taken > 0)
            && DecodeCalls(sig, sock.written)
               == if taken == |EncodeCall(sig, call)| then (sent + [call], []) else (sent, EncodeCall(sig, call)[..taken])
  {
    hide EncodeCall, EncodeCalls, DecodeCalls, WellFormed, Meanings, Suits, Takes, CommandOf;
    var ts := Flatten(sig[(driver, operation)]);
    ClientSendsTheCall(sig, driver, operation, args);
    ok, taken := SendCommand(sock, driver, operation, ts, args);
    PartlySentCommand(sig, sent, Call(driver, operation, Meanings(ts, args)), taken);
  }

  lemma DecodeCallsStops(sig: Signatures, s: seq<Byte>)
    requires !DecodeCall(sig, s, U32_LIMIT).Parsed?
    ensures DecodeCalls(sig, s) == ([], s)
  {
    hide DecodeCall;
  }

  /** Every byte count inside an encoding is smaller than the encoding. */
  lemma {:induction false} CountsAreInside(ts: seq<ArgType>, vs: seq<Value>)
    requires AllMatch(ts, vs)
    ensures CountsWithin(ts, vs, |EncodeArgs(ts, vs)|)
    decreases |ts|
  {
    hide Matches, EncodeArg, ByteCount;
    if ts != [] {
      CountsAreInside(ts[1..], vs[1..]);
      OneCountIsInside(ts[0], vs[0]);
      var n := |EncodeArgs(ts, vs)|;
      forall i | 0 <= i < |ts|
        ensures ByteCount(ts[i], vs[i]) <= n
      {
        if i > 0 {
          assert ts[i] == ts[1..][i - 1] && vs[i] == vs[1..][i - 1];
        }
      }
    }
  }

  lemma OneCountIsInside(t: ArgType, v: Value)
    requires Matches(t, v)
    ensures ByteCount(t, v) <= |EncodeArg(t, v)|
  {
    hide BigEndian, EncodeItems;
  }

  /** A call sent as one WebSocket message is complete for the cursor reader. */
  lemma CallIsComplete(sig: Signatures, c: Call)
    requires WellFormed(sig, c) && |EncodeCall(sig, c)| <= MAX_PAYLOAD
    ensures Complete(sig, EncodeCall(sig, c))
    ensures DecodeCall(sig, EncodeCall(sig, c), CMD_PAYLOAD_BUFFER_LEN) == Parsed(c, [])
  {
    hide DecodeCall, CountsWithin, EncodeArgs;
    var ts := Flatten(sig[(c.driver, c.operation)]);
    CountsAreInside(ts, c.args);
    assert CountsWithin(ts, c.args, CMD_PAYLOAD_BUFFER_LEN) by {
      LargerLimit(ts, c.args, |EncodeArgs(ts, c.args)|, CMD_PAYLOAD_BUFFER_LEN);
    }
    CallRoundTrip(sig, c, [], CMD_PAYLOAD_BUFFER_LEN);
    assert EncodeCall(sig, c) + [] == EncodeCall(sig, c);
  }

  lemma LargerLimit(ts: seq<ArgType>, vs: seq<Value>, limit: nat, larger: nat)
    requires AllMatch(ts, vs) && CountsWithin(ts, vs, limit) && limit <= larger
    ensures CountsWithin(ts, vs, larger)
  {
  }

  /** Frames that carry one call each. */
  ghost predicate Carries(sig: Signatures, cs: seq<Call>, fs: seq<Frame>)
    requires AllWellFormed(sig, cs)
  {
    && |fs| == |cs| && AllValid(fs)
    && forall i :: 0 <= i < |fs| ==> Acceptable(fs[i]) && fs[i].payload == EncodeCall(sig, cs[i])
  }

  /** Transport independence: the same calls, sent back to back on a stream or as masked frames, reach
      the drivers as the same sequence, and both streams are consumed to the last octet. */
  lemma SameCallsOverBothTransports(sig: Signatures, cs: seq<Call>, fs: seq<Frame>)
    requires AllWellFormed(sig, cs) && Carries(sig, cs, fs)
    ensures DecodeCalls(sig, EncodeCalls(sig, cs)) == (cs, [])
    ensures ReceiveAll(EncodeAll(fs)) == Payloads(fs)
    ensures AllComplete(sig, Payloads(fs)) && CallsOf(sig, Payloads(fs)) == cs
  {
    hide DecodeCall, EncodeCall, EncodeCalls, Acceptable, ReceiveAll;
    CallsRoundTrip(sig, cs, []);
    assert EncodeCalls(sig, cs) + [] == EncodeCalls(sig, cs);
    EmptyStreams(sig);
    assert cs + [] == cs;
    CommandsAreReceivedInOrder(fs, []);
    assert EncodeAll(fs) + [] == EncodeAll(fs);
    assert Payloads(fs) + [] == Payloads(fs);
    PayloadsAreCalls(sig, cs, fs);
  }

  /** The two session loops on those streams, whatever the chunking. */
  method BothSessionsServe(
    sig: Signatures, cs: seq<Call>, fs: seq<Frame>, devices: nat, tcp: TcpSession, web: WebSocketSession,
    tcpEnding: Ending, webEnding: Ending)
    returns (tcpLog: seq<(int, Call)>, webLog: seq<(int, Call)>)
    requires AllWellFormed(sig, cs) && Carries(sig, cs, fs)
    requires tcp.sock != web.websock.sock && tcp.sock.incoming == EncodeCalls(sig, cs)
    requires web.websock.Valid() && web.websock.HeaderInBounds() && !web.websock.closed
    requires web.websock.sock.incoming == EncodeAll(fs)
    modifies tcp.sock`incoming, web.websock, web.websock.readStr, web.websock.sock`incoming
    ensures ServedUntil(tcpEnding, |tcpLog|, |cs|) && ServedUntil(webEnding, |webLog|, |cs|)
    ensures forall i :: 0 <= i < |tcpLog| ==> tcpLog[i] == (0, cs[i])
    ensures forall i :: 0 <= i < |webLog| ==> webLog[i] == (0, cs[i])
  {
    hide DecodeCall, DecodeCalls, EncodeCall, EncodeCalls, Acceptable, ReceiveAll, Served, IsFor, Flatten, AllMatch;
    SameCallsOverBothTransports(sig, cs, fs);
    var stopped;
    tcpLog, stopped := tcp.Run(sig, devices, tcpEnding);
    forall i | 0 <= i < |tcpLog|
      ensures tcpLog[i] == (0, cs[i])
    {
      assert WellFormed(sig, cs[i]) && CallsIn(tcpLog)[i] == cs[i];
      assert Answered(sig, devices, tcpLog[i].0, tcpLog[i].1);
    }
    webLog, stopped := web.Run(sig, devices, webEnding);
    forall i | 0 <= i < |webLog|
      ensures webLog[i] == (0, cs[i])
    {
      assert Acceptable(fs[i]) && WellFormed(sig, cs[i]);
      FrameSize(fs[i]);
      CallIsComplete(sig, cs[i]);
      assert HandedOver(sig, devices, DecodeCall(sig, Payloads(fs)[i], CMD_PAYLOAD_BUFFER_LEN), webLog[i].0, webLog[i].1);
    }
  }

  /** The first `served` of `all` calls were served: all of them, if nothing ends the session before, and
      otherwise those before the first end. */
  ghost predicate ServedUntil(ending: Ending, served: nat, all: nat)
  {
    && served <= all && (served == all || ending.At(served))
    && forall i :: 0 <= i < served ==> !ending.At(i)
  }

  lemma FrameSize(f: Frame)
    requires Acceptable(f)
    ensures |f.payload| <= MAX_PAYLOAD
  {
  }

  lemma EmptyStreams(sig: Signatures)
    ensures DecodeCalls(sig, []) == ([], []) && ReceiveAll([]) == []
  {
  }

  lemma {:induction false} PayloadsAreCalls(sig: Signatures, cs: seq<Call>, fs: seq<Frame>)
    requires AllWellFormed(sig, cs) && Carries(sig, cs, fs)
    ensures AllComplete(sig, Payloads(fs)) && CallsOf(sig, Payloads(fs)) == cs
    decreases |cs|
  {
    hide DecodeCall, EncodeCall;
    forall i | 0 <= i < |fs|
      ensures Complete(sig, Payloads(fs)[i])
    {
      assert Acceptable(fs[i]);
      CallIsComplete(sig, cs[i]);
    }
    if cs != [] {
      assert Acceptable(fs[0]);
      CallIsComplete(sig, cs[0]);
      assert Carries(sig, cs[1..], fs[1..]);
      PayloadsAreCalls(sig, cs[1..], fs[1..]);
      assert Payloads(fs)[1..] == Payloads(fs[1..]);
      assert cs == [cs[0]] + cs[1..];
    }
  }

  /** A decoded command depends neither on what follows nor on a larger byte-count limit. */
  lemma CallExtends(sig: Signatures, command: seq<Byte>, rest: seq<Byte>, limit: nat)
    requires DecodeCall(sig, command, limit).Parsed? && limit <= U32_LIMIT
    ensures var whole := DecodeCall(sig, command, limit);
            DecodeCall(sig, command + rest, U32_LIMIT) == Parsed(whole.value, whole.rest + rest)
  {
    hide BigEndianValue, DecodePacks, DecodeArgs;
    var s := command + rest;
    assert s[4..6] == command[4..6] && s[6..8] == command[6..8] && s[8..] == command[8..] + rest;
    var packs := PacksOf(sig, BigEndianValue(command[4..6]), BigEndianValue(command[6..8]));
    PacksDecodeLikeArgs(packs, command[8..], limit);
    PacksDecodeLikeArgs(packs, s[8..], U32_LIMIT);
    DecodeExtends(Flatten(packs), command[8..], rest, limit, U32_LIMIT);
  }

  /** Any message the cursor reader can decode, however it was produced, gives the stream reader the same
      call and leaves the same octets. */
  lemma ReadersAgree(sig: Signatures, command: seq<Byte>, rest: seq<Byte>)
    requires Complete(sig, command)
    ensures var whole := DecodeCall(sig, command, CMD_PAYLOAD_BUFFER_LEN);
            DecodeCall(sig, command + rest, U32_LIMIT) == Parsed(whole.value, whole.rest + rest)
  {
    hide DecodeCall;
    CallExtends(sig, command, rest, CMD_PAYLOAD_BUFFER_LEN);
  }

  // ------------------------------------------------------------------
  // Commands without an argument list
  // ------------------------------------------------------------------

  /** The fewest octets that arguments of these types take up. */
  function LeastSize(ts: seq<ArgType>): (n: nat)
  {
    if ts == [] then 0 else LeastArgSize(ts[0]) + LeastSize(ts[1..])
  }

  function LeastArgSize(t: ArgType): (n: nat)
  {
    match t
    case ScalarArg(s) => s.Size()
    case ArrayArg(e, n) => n * e.Size()
    case VectorArg(_) => 4
    case StringArg => 4
  }

  /** What zero octets stand for. */
  function ZeroValue(t: ArgType): Value
  {
    match t
    case ScalarArg(_) => Number(0)
    case ArrayArg(_, n) => Items(seq(n, _ => 0))
    case VectorArg(_) => Items([])
    case StringArg => Text([])
  }

  function ZeroValues(ts: seq<ArgType>): (vs: seq<Value>)
  {
    if ts == [] then [] else [ZeroValue(ts[0])] + ZeroValues(ts[1..])
  }

  lemma ArgTakesAtLeast(t: ArgType, s: seq<Byte>, limit: nat)
    ensures DecodeArg(t, s, limit).Parsed? ==> |DecodeArg(t, s, limit).rest| + LeastArgSize(t) <= |s|
  {
    hide BigEndianValue, DecodeItems;
  }

  lemma {:induction false} DecodingTakesAtLeast(ts: seq<ArgType>, s: seq<Byte>, limit: nat)
    ensures DecodeArgs(ts, s, limit).Parsed? ==> |DecodeArgs(ts, s, limit).rest| + LeastSize(ts) <= |s|
    decreases |ts|
  {
    hide DecodeArg, LeastArgSize;
    if ts != [] {
      ArgTakesAtLeast(ts[0], s, limit);
      var first := DecodeArg(ts[0], s, limit);
      if first.Parsed? {
        DecodingTakesAtLeast(ts[1..], first.rest, limit);
      }
    }
  }

  lemma {:induction false} ZeroIsZero(n: nat)
    ensures BigEndianValue(Zeros(n)) == 0 && LittleEndianValue(Zeros(n)) == 0
  {
    if n > 0 {
      ZeroIsZero(n - 1);
      assert Zeros(n)[..n - 1] == Zeros(n - 1) && Zeros(n)[1..] == Zeros(n - 1);
    }
  }

  lemma ZerosSplit(i: nat, j: nat)
    ensures Zeros(i + j)[..i] == Zeros(i) && Zeros(i + j)[i..] == Zeros(j)
  {
  }

  lemma {:induction false} ZeroItems(e: Scalar, n: nat)
    ensures n * e.Size() >= 0 && DecodeItems(e, n, Zeros(n * e.Size())) == seq(n, _ => 0)
  {
    hide LittleEndianValue, Scalar.Size, Zeros;
    if n > 0 {
      ZeroIsZero(e.Size());
      ZeroItems(e, n - 1);
      ZerosSplit(e.Size(), (n - 1) * e.Size());
      assert e.Size() + (n - 1) * e.Size() == n * e.Size();
    }
  }

  /** One argument read from zero octets. */
  lemma ZeroArg(t: ArgType, n: nat, rest: seq<Byte>, limit: nat)
    requires LeastArgSize(t) <= n
    ensures DecodeArg(t, Zeros(n) + rest, limit) == Parsed(ZeroValue(t), Zeros(n - LeastArgSize(t)) + rest)
  {
    hide BigEndianValue, DecodeItems;
    var s, k := Zeros(n) + rest, LeastArgSize(t);
    assert s[..k] == Zeros(k) && s[k..] == Zeros(n - k) + rest;
    ZeroIsZero(k);
    match t
    case ScalarArg(_) =>
    case ArrayArg(e, m) => ZeroItems(e, m);
    case VectorArg(e) => ZeroItems(e, 0); assert s[4..4] == [];
    case StringArg => assert s[4..4] == [];
  }

  lemma {:induction false} ZeroArgs(ts: seq<ArgType>, n: nat, rest: seq<Byte>, limit: nat)
    requires LeastSize(ts) <= n
    ensures DecodeArgs(ts, Zeros(n) + rest, limit) == Parsed(ZeroValues(ts), Zeros(n - LeastSize(ts)) + rest)
    decreases |ts|
  {
    hide DecodeArg, LeastArgSize, ZeroValue;
    if ts != [] {
      ZeroArg(ts[0], n, rest, limit);
      ZeroArgs(ts[1..], n - LeastArgSize(ts[0]), rest, limit);
    }
  }

  lemma {:induction false} ZeroOctets(n: nat)
    ensures BigEndian(0, n) == Zeros(n)
  {
    if n > 0 {
      ZeroOctets(n - 1);
    }
  }

  /** make_command without an argument list appends eight zero octets. The command is read to its end, and
      to no more than its end, if and only if the arguments of its operation can be exactly those eight
      octets; then they are all zero. */
  lemma BareCommandIsWholeIff(sig: Signatures, driver: nat, operation: nat, rest: seq<Byte>)
    requires driver < 0x1_0000 && operation < 0x1_0000
    ensures var ts := Flatten(PacksOf(sig, driver, operation));
            var one := DecodeCall(sig, CommandOf(driver, operation, NoList).s + rest, U32_LIMIT);
            && (one.Parsed? && one.rest == rest <==> LeastSize(ts) == 8)
            && (LeastSize(ts) == 8 ==> one.value == Call(driver, operation, ZeroValues(ts)))
  {
    hide BigEndian, BigEndianValue, CommandHeader, DecodePacks, DecodeArgs;
    var packs, zeros := PacksOf(sig, driver, operation), Zeros(8) + rest;
    var s := CommandHeader(driver, operation) + zeros;
    ZeroOctets(8);
    assert CommandOf(driver, operation, NoList).s + rest == s;
    HeaderRoundTrip(driver, operation, zeros);
    PacksDecodeLikeArgs(packs, zeros, U32_LIMIT);
    DecodingTakesAtLeast(Flatten(packs), zeros, U32_LIMIT);
    if LeastSize(Flatten(packs)) <= 8 {
      ZeroArgs(Flatten(packs), 8, rest, U32_LIMIT);
      assert LeastSize(Flatten(packs)) == 8 ==> Zeros(0) + rest == rest;
    }
  }

  /** For an operation without arguments the eight octets are a second command, to driver 0, which does
      nothing and takes nothing more. */
  lemma BareCommandIsTwoCommands(sig: Signatures, driver: nat, operation: nat, rest: seq<Byte>)
    requires driver < 0x1_0000 && operation < 0x1_0000 && PacksOf(sig, driver, operation) == []
    ensures var next := DecodeCalls(sig, rest);
            DecodeCalls(sig, CommandOf(driver, operation, NoList).s + rest)
            == ([Call(driver, operation, []), Call(0, 0, [])] + next.0, next.1)
  {
    hide BigEndian, CommandHeader, DecodeCalls, DecodeCall;
    var zeros := BigEndian(0, 8) + rest;
    ZeroHeader();
    HeaderAlone(sig, driver, operation, zeros);
    HeaderAlone(sig, 0, 0, rest);
    assert CommandOf(driver, operation, NoList).s + rest == CommandHeader(driver, operation) + zeros;
    DecodeCallsStep(sig, CommandHeader(driver, operation) + zeros);
    DecodeCallsStep(sig, zeros);
    var next := DecodeCalls(sig, rest).0;
    assert [Call(driver, operation, [])] + ([Call(0, 0, [])] + next) == [Call(driver, operation, []), Call(0, 0, [])] + next;
  }

  lemma ZeroHeader()
    ensures CommandHeader(0, 0) == BigEndian(0, 8)
  {
    hide BigEndian;
    BigEndianSplit(0, 4, 4);
    BigEndianSplit(0, 2, 2);
  }

  /** A header without arguments is a whole command. */
  lemma HeaderAlone(sig: Signatures, driver: nat, operation: nat, rest: seq<Byte>)
    requires driver < 0x1_0000 && operation < 0x1_0000 && PacksOf(sig, driver, operation) == []
    ensures DecodeCall(sig, CommandHeader(driver, operation) + rest, U32_LIMIT)
         == Parsed(Call(driver, operation, []), rest)
  {
    hide CommandHeader, BigEndianValue;
    HeaderRoundTrip(driver, operation, rest);
  }
}
