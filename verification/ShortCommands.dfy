/**
 WebSocket messages that are shorter than the arguments of their operation. The cursor reads on in the
 payload buffer; this module says exactly when a call can come of that, and when it cannot.
 */
module ShortCommands {
  import opened Bytes
  import opened Wire
  import opened Generator
  import opened Parsing
  import opened Commands
  import opened Calls
  import opened WebSocketSessions
  import opened EndToEnd

  // ------------------------------------------------------------------
  // Zeros are the most that can follow
  // ------------------------------------------------------------------

  /** The octets `a` continued with zeros. */
  function Filled(a: seq<Byte>, n: nat): (s: seq<Byte>)
    ensures |s| == |a| + n
  {
    a + Zeros(n)
  }

  lemma FilledParts(a: seq<Byte>, n: nat, k: nat)
    requires |a| <= k <= |a| + n
    ensures Filled(a, n)[k..] == Zeros(|a| + n - k) && Filled(a, n)[..k] == a + Zeros(k - |a|)
  {
  }

  /** Of all octets that may follow, zeros make the smallest number. */
  lemma ZerosAreLeast(a: seq<Byte>, more: seq<Byte>)
    ensures BigEndianValue(a + Zeros(|more|)) <= BigEndianValue(a + more)
  {
    hide BigEndianValue, Pow256;
    BigEndianConcat(a, more);
    BigEndianConcat(a, Zeros(|more|));
    ZeroIsZero(|more|);
  }

  /** A byte count that is cut off, or not: with zeros behind it, it is the least. */
  lemma LeastCount(a: seq<Byte>, stale: seq<Byte>)
    requires |a| + |stale| >= 4
    ensures BigEndianValue(Filled(a, |stale|)[..4]) <= BigEndianValue((a + stale)[..4])
    ensures |a| >= 4 ==> Filled(a, |stale|)[..4] == (a + stale)[..4] == a[..4]
  {
    hide BigEndianValue;
    if |a| < 4 {
      var k := 4 - |a|;
      assert (a + stale)[..4] == a + stale[..k];
      FilledParts(a, |stale|, 4);
      ZerosAreLeast(a, stale[..k]);
    } else {
      assert Filled(a, |stale|)[..4] == a[..4] && (a + stale)[..4] == a[..4];
    }
  }

  lemma FewerWhole(m: nat, n: nat, size: nat)
    requires m <= n && size > 0
    ensures m / size * size <= n / size * size
  {
    var q, r := m / size, n / size;
    assert m == size * q + m % size && n == size * r + n % size;
    if q > r {
      Monotone(size, r + 1, q);
      Distribute(size, r, 1);
    } else {
      Monotone(size, q, r);
    }
  }

  /** An argument that is cut off by the end of `a`. If some continuation completes it, zeros do, with at
      least as much left over, all of it zeros; if zeros make its count too large, everything does. */
  lemma CutArgument(t: ArgType, a: seq<Byte>, stale: seq<Byte>, limit: nat)
    requires DecodeArg(t, a, limit).Short?
    ensures var any, zero := DecodeArg(t, a + stale, limit), DecodeArg(t, Filled(a, |stale|), limit);
            && (any.Parsed? ==> zero.Parsed? && |zero.rest| >= |any.rest|)
            && (zero.Parsed? ==> zero.rest == Zeros(|zero.rest|))
            && (zero.TooLong? ==> any.TooLong?)
  {
    if t.VectorArg? {
      CutVector(t.elem, a, stale, limit);
    } else if t.StringArg? {
      CutString(a, stale, limit);
    } else {
      hide BigEndianValue, DecodeItems, Filled;
      var size := LeastArgSize(t);
      assert |a| < size;
      if size <= |a| + |stale| {
        FilledParts(a, |stale|, size);
      }
    }
  }

  lemma CutVector(e: Scalar, a: seq<Byte>, stale: seq<Byte>, limit: nat)
    requires DecodeArg(VectorArg(e), a, limit).Short?
    ensures var any, zero := DecodeArg(VectorArg(e), a + stale, limit), DecodeArg(VectorArg(e), Filled(a, |stale|), limit);
            && (any.Parsed? ==> zero.Parsed? && |zero.rest| >= |any.rest|)
            && (zero.Parsed? ==> zero.rest == Zeros(|zero.rest|))
            && (zero.TooLong? ==> any.TooLong?)
  {
    hide BigEndianValue, DecodeItems, DecodeArg, Filled, Scalar.Size, Zeros;
    var s, z := a + stale, Filled(a, |stale|);
    if |s| < 4 {
      NoCount(VectorArg(e), s, limit);
      NoCount(VectorArg(e), z, limit);
    } else {
      VectorBehindCount(e, s, limit);
      VectorBehindCount(e, z, limit);
      LeastCount(a, stale);
      var size := BigEndianValue(z[..4]) / e.Size() * e.Size();
      FewerWhole(BigEndianValue(z[..4]), BigEndianValue(s[..4]), e.Size());
      if |a| >= 4 {
        VectorBehindCount(e, a, limit);
      }
      if |z| >= 4 + size {
        SliceAfter(z, 4, size);
        FilledParts(a, |stale|, 4 + size);
      }
    }
  }

  lemma CutString(a: seq<Byte>, stale: seq<Byte>, limit: nat)
    requires DecodeArg(StringArg, a, limit).Short?
    ensures var any, zero := DecodeArg(StringArg, a + stale, limit), DecodeArg(StringArg, Filled(a, |stale|), limit);
            && (any.Parsed? ==> zero.Parsed? && |zero.rest| >= |any.rest|)
            && (zero.Parsed? ==> zero.rest == Zeros(|zero.rest|))
            && (zero.TooLong? ==> any.TooLong?)
  {
    hide BigEndianValue, DecodeArg, Filled, Zeros;
    var s, z := a + stale, Filled(a, |stale|);
    if |s| < 4 {
      NoCount(StringArg, s, limit);
      NoCount(StringArg, z, limit);
    } else {
      StringBehindCount(s, limit);
      StringBehindCount(z, limit);
      LeastCount(a, stale);
      var size := BigEndianValue(z[..4]);
      if |a| >= 4 {
        StringBehindCount(a, limit);
      }
      if |z| >= 4 + size {
        SliceAfter(z, 4, size);
        FilledParts(a, |stale|, 4 + size);
      }
    }
  }

  /** Zeros announce nothing, so they are never refused. */
  lemma {:induction false} ZerosNotRefused(ts: seq<ArgType>, n: nat, limit: nat)
    ensures !DecodeArgs(ts, Zeros(n), limit).TooLong?
    decreases |ts|
  {
    hide DecodeArg, LeastArgSize, ZeroValue;
    if ts != [] {
      if LeastArgSize(ts[0]) <= n {
        ZeroArg(ts[0], n, [], limit);
        assert Zeros(n) + [] == Zeros(n) && Zeros(n - LeastArgSize(ts[0])) + [] == Zeros(n - LeastArgSize(ts[0]));
        ZerosNotRefused(ts[1..], n - LeastArgSize(ts[0]), limit);
      } else {
        TooFewZeros(ts[0], n, limit);
      }
    }
  }

  lemma TooFewZeros(t: ArgType, n: nat, limit: nat)
    requires n < LeastArgSize(t)
    ensures DecodeArg(t, Zeros(n), limit).Short?
  {
    hide BigEndianValue, DecodeItems;
  }

  /** Whatever decodes with some octets behind it decodes with zeros behind it, and whatever is refused
      with zeros behind it is refused with any octets behind it. */
  lemma {:induction false} ZerosSuffice(ts: seq<ArgType>, a: seq<Byte>, stale: seq<Byte>, limit: nat)
    ensures DecodeArgs(ts, a + stale, limit).Parsed? ==> DecodeArgs(ts, Filled(a, |stale|), limit).Parsed?
    ensures DecodeArgs(ts, Filled(a, |stale|), limit).TooLong? ==> DecodeArgs(ts, a + stale, limit).TooLong?
    decreases |ts|
  {
    hide DecodeArg;
    if ts != [] {
      var first := DecodeArg(ts[0], a, limit);
      match first {
        case Parsed(_, rest) =>
          DecodeArgExtends(ts[0], a, stale, limit, limit);
          DecodeArgExtends(ts[0], a, Zeros(|stale|), limit, limit);
          ZerosSuffice(ts[1..], rest, stale, limit);
        case TooLong =>
          ArgRefusalExtends(ts[0], a, stale, limit);
          ArgRefusalExtends(ts[0], a, Zeros(|stale|), limit);
        case Short =>
          CutArgument(ts[0], a, stale, limit);
          if DecodeArg(ts[0], Filled(a, |stale|), limit).Parsed? {
            OnlyZerosLeft(ts, a, stale, limit);
          }
      }
    }
  }

  lemma OnlyZerosLeft(ts: seq<ArgType>, a: seq<Byte>, stale: seq<Byte>, limit: nat)
    requires ts != [] && DecodeArg(ts[0], Filled(a, |stale|), limit).Parsed?
    requires var any, zero := DecodeArg(ts[0], a + stale, limit), DecodeArg(ts[0], Filled(a, |stale|), limit);
             && (any.Parsed? ==> |zero.rest| >= |any.rest|)
             && zero.rest == Zeros(|zero.rest|)
    ensures !DecodeArgs(ts, Filled(a, |stale|), limit).TooLong?
    ensures DecodeArgs(ts, a + stale, limit).Parsed? ==> DecodeArgs(ts, Filled(a, |stale|), limit).Parsed?
  {
    hide DecodeArg, Filled;
    var any, zero := DecodeArg(ts[0], a + stale, limit), DecodeArg(ts[0], Filled(a, |stale|), limit);
    ZerosNotRefused(ts[1..], |zero.rest|, limit);
    if any.Parsed? {
      DecodingTakesAtLeast(ts[1..], any.rest, limit);
      if LeastSize(ts[1..]) <= |zero.rest| {
        ZeroArgs(ts[1..], |zero.rest|, [], limit);
        assert zero.rest + [] == zero.rest;
      }
    }
  }

  // ------------------------------------------------------------------
  // Commands
  // ------------------------------------------------------------------

  function PacksFor(sig: Signatures, command: seq<Byte>): seq<Pack>
    requires |command| >= 8
  {
    PacksOf(sig, BigEndianValue(command[4..6]), BigEndianValue(command[6..8]))
  }

  /** What the cursor reads when the payload buffer was cleared before the message. */
  function ReadWithZeros(sig: Signatures, command: seq<Byte>): Parsed<seq<Value>>
    requires 8 <= |command| <= CMD_PAYLOAD_BUFFER_LEN + 8
  {
    DecodePacks(PacksFor(sig, command), Filled(command[8..], CMD_PAYLOAD_BUFFER_LEN + 8 - |command|), CMD_PAYLOAD_BUFFER_LEN)
  }

  lemma ZerosSufficeForCommand(sig: Signatures, command: seq<Byte>, stale: seq<Byte>)
    requires BufferedBehind(command, stale)
    ensures var any := DecodePacks(PacksFor(sig, command), command[8..] + stale, CMD_PAYLOAD_BUFFER_LEN);
            && (any.Parsed? ==> ReadWithZeros(sig, command).Parsed?)
            && (ReadWithZeros(sig, command).TooLong? ==> any.TooLong?)
  {
    hide DecodePacks, DecodeArgs, Filled, PacksFor, Flatten;
    var packs := PacksFor(sig, command);
    assert |stale| == CMD_PAYLOAD_BUFFER_LEN + 8 - |command|;
    PacksDecodeLikeArgs(packs, command[8..] + stale, CMD_PAYLOAD_BUFFER_LEN);
    PacksDecodeLikeArgs(packs, Filled(command[8..], |stale|), CMD_PAYLOAD_BUFFER_LEN);
    ZerosSuffice(Flatten(packs), command[8..], stale, CMD_PAYLOAD_BUFFER_LEN);
  }

  /** A call comes only of complete commands, whatever the payload buffer held, if and only if the command
      is complete, or zeros behind it would not complete it. */
  lemma CallsOnlyFromCompleteIff(sig: Signatures, command: seq<Byte>)
    requires 8 <= |command| <= CMD_PAYLOAD_BUFFER_LEN + 8
    ensures (forall stale :: BufferedBehind(command, stale)
               && DecodePacks(PacksFor(sig, command), command[8..] + stale, CMD_PAYLOAD_BUFFER_LEN).Parsed?
               ==> Complete(sig, command))
       <==> Complete(sig, command) || !ReadWithZeros(sig, command).Parsed?
  {
    hide DecodePacks, Complete, PacksFor, Zeros;
    var n := CMD_PAYLOAD_BUFFER_LEN + 8 - |command|;
    assert Filled(command[8..], n) == command[8..] + Zeros(n);
    assert BufferedBehind(command, Zeros(n));
    forall stale | BufferedBehind(command, stale)
      ensures DecodePacks(PacksFor(sig, command), command[8..] + stale, CMD_PAYLOAD_BUFFER_LEN).Parsed?
              ==> ReadWithZeros(sig, command).Parsed?
    {
      ZerosSufficeForCommand(sig, command, stale);
    }
  }

  /** A turn of the session loop succeeds only for a complete command if and only if the command is
      complete, or a byte count of it is refused even with zeros behind it. */
  lemma SuccessOnlyWhenCompleteIff(sig: Signatures, devices: nat, command: seq<Byte>)
    requires 8 <= |command| <= CMD_PAYLOAD_BUFFER_LEN + 8
    ensures (forall call :: Served(sig, devices, command, 0, call) ==> Complete(sig, command))
       <==> Complete(sig, command) || ReadWithZeros(sig, command).TooLong?
  {
    hide DecodePacks, Complete, BigEndianValue, Zeros, Served, ReadWithZeros;
    if (BigEndianValue(command[4..6]), BigEndianValue(command[6..8])) !in sig {
      UnknownIsComplete(sig, command);
    } else if ReadWithZeros(sig, command).TooLong? {
      forall call | Served(sig, devices, command, 0, call)
        ensures false
      {
        RefusedWithZeros(sig, devices, command, call);
      }
    } else if !Complete(sig, command) {
      var call := ServedWithZeros(sig, devices, command);
    }
  }

  /** There is nothing to read for an unknown operation. */
  lemma UnknownIsComplete(sig: Signatures, command: seq<Byte>)
    requires |command| >= 8 && (BigEndianValue(command[4..6]), BigEndianValue(command[6..8])) !in sig
    ensures Complete(sig, command)
  {
    hide BigEndianValue, DecodePacks;
    NoPacks(command[8..], CMD_PAYLOAD_BUFFER_LEN);
  }

  lemma RefusedWithZeros(sig: Signatures, devices: nat, command: seq<Byte>, call: Call)
    requires 8 <= |command| <= CMD_PAYLOAD_BUFFER_LEN + 8 && ReadWithZeros(sig, command).TooLong?
    requires (BigEndianValue(command[4..6]), BigEndianValue(command[6..8])) in sig
    ensures !Served(sig, devices, command, 0, call)
  {
    hide DecodePacks, BigEndianValue, ReadWithZeros;
    if Served(sig, devices, command, 0, call) {
      var stale :| BufferedBehind(command, stale)
        && Reads(PacksOf(sig, call.driver, call.operation), command[8..] + stale, 0, call.args);
      ZerosSufficeForCommand(sig, command, stale);
    }
  }

  lemma ServedWithZeros(sig: Signatures, devices: nat, command: seq<Byte>) returns (call: Call)
    requires 8 <= |command| <= CMD_PAYLOAD_BUFFER_LEN + 8 && !ReadWithZeros(sig, command).TooLong?
    requires (BigEndianValue(command[4..6]), BigEndianValue(command[6..8])) in sig
    ensures Served(sig, devices, command, 0, call)
  {
    hide DecodePacks, BigEndianValue, Zeros, Served;
    var n, zero := CMD_PAYLOAD_BUFFER_LEN + 8 - |command|, ReadWithZeros(sig, command);
    var args := if zero.Parsed? then zero.value else [];
    call := Call(BigEndianValue(command[4..6]), BigEndianValue(command[6..8]), args);
    ServedFromBuffer(sig, devices, command, Zeros(n), 0, call);
  }

  /** A message of eight octets, for an operation with one argument, is not complete, and yet the driver may
      be handed any value whatever. */
  lemma ShortCommandTakesAnyValue(driver: nat, operation: nat, devices: nat, v: nat)
    requires 0 < driver < 0x1_0000 && operation < 0x1_0000 && v < U32_LIMIT
    ensures var sig: Signatures := map[(driver, operation) := [ScalarPack([U32])]];
            var command := CommandHeader(driver, operation);
            && !Complete(sig, command)
            && Served(sig, devices, command, 0, Call(driver, operation, [Number(v)]))
  {
    hide CommandHeader, BigEndianValue, BigEndian, Zeros, DecodePacks, Served;
    var sig: Signatures := map[(driver, operation) := [ScalarPack([U32])]];
    var command := CommandHeader(driver, operation);
    var stale := BigEndian(v, 4) + Zeros(CMD_PAYLOAD_BUFFER_LEN - 4);
    HeaderRoundTrip(driver, operation, []);
    assert command + [] == command && [] + stale == stale;
    OneScalarPack(v, Zeros(CMD_PAYLOAD_BUFFER_LEN - 4));
    ServedFromBuffer(sig, devices, command, stale, 0, Call(driver, operation, [Number(v)]));
  }

  lemma OneScalarPack(v: nat, rest: seq<Byte>)
    requires v < U32_LIMIT
    ensures DecodePacks([ScalarPack([U32])], BigEndian(v, 4) + rest, CMD_PAYLOAD_BUFFER_LEN) == Parsed([Number(v)], rest)
    ensures DecodePacks([ScalarPack([U32])], [], CMD_PAYLOAD_BUFFER_LEN) == Short
  {
    hide BigEndian, BigEndianValue;
    var packs, limit := [ScalarPack([U32])], CMD_PAYLOAD_BUFFER_LEN;
    Sizes();
    FlattenOne(packs[0]);
    assert Flatten(packs) == [ScalarArg(U32)];
    PacksDecodeLikeArgs(packs, BigEndian(v, 4) + rest, limit);
    PacksDecodeLikeArgs(packs, [], limit);
    ScalarRoundTrip(U32, v, rest);
    assert Flatten(packs)[1..] == [];
    assert DecodeArgs([], rest, limit) == Parsed([], rest);
    assert [Number(v)] + [] == [Number(v)];
  }
}
