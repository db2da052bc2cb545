/** Commands as a client means them, and their sequence on a stream. */
module Calls {
  import opened Bytes
  import opened Wire
  import opened Generator
  import opened Parsing
  import opened Commands

  datatype Call = Call(driver: nat, operation: nat, args: seq<Value>)

  /** What ends a session loop from outside: the commands whose reply could not be written any more, which
      closes the session, and the tests that find the exit signal set. Before command `n` the loop tests
      the signal twice, in tests 2n and 2n + 1: before and after reading it. */
  datatype Ending = Ending(closes: nat -> bool, exits: nat -> bool) {
    /** The loop ends when `n` commands have been executed. */
    predicate At(n: nat) {
      (n > 0 && closes(n - 1)) || exits(2 * n) || exits(2 * n + 1)
    }
  }

  /** The packs emitted for each known operation. Driver 0 is no driver and has none. */
  type Signatures = m: map<(nat, nat), seq<Pack>> | forall operation: nat :: (0, operation) !in m

  /** A command for an unknown operation is answered before anything is read. */
  function PacksOf(sig: Signatures, driver: nat, operation: nat): seq<Pack>
  {
    if (driver, operation) in sig then sig[(driver, operation)] else []
  }

  /** The answer to a command for an operation that no driver has: nothing happens for driver 0, and any
      other driver refuses it. Behind the last of the `devices` drivers the source reads past its tables,
      and any answer is possible. */
  ghost predicate Unhandled(driver: nat, devices: nat, err: int)
  {
    (driver == 0 ==> err == 0) && (0 < driver < devices ==> err == -1)
  }

  /** DriverManager::execute and the generated dispatch, for an operation that is not in the signatures. */
  method ExecuteUnknown(driver: nat, devices: nat) returns (err: int)
    ensures Unhandled(driver, devices, err)
  {
    if driver == 0 {
      return 0;
    }
    if driver < devices {
      return -1;
    }
    err := *;
  }

  predicate WellFormed(sig: Signatures, c: Call)
  {
    && c.driver < 0x1_0000 && c.operation < 0x1_0000
    && (c.driver, c.operation) in sig
    && AllMatch(Flatten(sig[(c.driver, c.operation)]), c.args)
  }

  /** make_command: the header, then the payload. */
  function EncodeCall(sig: Signatures, c: Call): (s: seq<Byte>)
    requires WellFormed(sig, c)
    ensures |s| >= 8
  {
    CommandHeader(c.driver, c.operation) + EncodeArgs(Flatten(sig[(c.driver, c.operation)]), c.args)
  }

  /** One command from a stream. */
  function DecodeCall(sig: Signatures, s: seq<Byte>, limit: nat): Parsed<Call>
  {
    if |s| < COMMAND_HEADER_SIZE then Short
    else
      var driver, operation := BigEndianValue(s[4..6]), BigEndianValue(s[6..8]);
      match DecodePacks(PacksOf(sig, driver, operation), s[8..], limit)
      case Short => Short
      case TooLong => TooLong
      case Parsed(args, rest) => Parsed(Call(driver, operation, args), rest)
  }

  lemma HeaderRoundTrip(driver: nat, operation: nat, rest: seq<Byte>)
    requires driver < 0x1_0000 && operation < 0x1_0000
    ensures var s := CommandHeader(driver, operation) + rest;
            BigEndianValue(s[4..6]) == driver && BigEndianValue(s[6..8]) == operation && s[8..] == rest
  {
    hide BigEndian, BigEndianValue;
    Sizes();
    BigEndianRoundTrip(driver, 2);
    BigEndianRoundTrip(operation, 2);
    var s := CommandHeader(driver, operation) + rest;
    assert s[4..6] == BigEndian(driver, 2) && s[6..8] == BigEndian(operation, 2);
  }

  /** A command delimits itself: decoding it never touches what follows. */
  lemma CallRoundTrip(sig: Signatures, c: Call, rest: seq<Byte>, limit: nat)
    requires WellFormed(sig, c) && CountsWithin(Flatten(sig[(c.driver, c.operation)]), c.args, limit)
    ensures DecodeCall(sig, EncodeCall(sig, c) + rest, limit) == Parsed(c, rest)
  {
    hide CommandHeader, BigEndianValue, EncodeArgs, DecodePacks, Flatten, AllMatch, CountsWithin;
    var packs := sig[(c.driver, c.operation)];
    var body := EncodeArgs(Flatten(packs), c.args);
    HeaderRoundTrip(c.driver, c.operation, body + rest);
    assert EncodeCall(sig, c) + rest == CommandHeader(c.driver, c.operation) + (body + rest);
    EmittedParserRoundTrip(packs, c.args, rest, limit);
  }

  lemma StreamedCall(sig: Signatures, c: Call, rest: seq<Byte>)
    requires WellFormed(sig, c)
    ensures DecodeCall(sig, EncodeCall(sig, c) + rest, U32_LIMIT) == Parsed(c, rest)
  {
    hide EncodeCall, DecodeCall;
    CountsFit(Flatten(sig[(c.driver, c.operation)]), c.args);
    CallRoundTrip(sig, c, rest, U32_LIMIT);
  }

  predicate AllWellFormed(sig: Signatures, cs: seq<Call>)
  {
    forall i :: 0 <= i < |cs| ==> WellFormed(sig, cs[i])
  }

  function EncodeCalls(sig: Signatures, cs: seq<Call>): (s: seq<Byte>)
    requires AllWellFormed(sig, cs)
  {
    if cs == [] then [] else EncodeCall(sig, cs[0]) + EncodeCalls(sig, cs[1..])
  }

  lemma {:induction false} DecodingConsumes(packs: seq<Pack>, s: seq<Byte>, limit: nat)
    requires DecodePacks(packs, s, limit).Parsed?
    ensures |DecodePacks(packs, s, limit).rest| <= |s|
    decreases |packs|
  {
    hide DecodeArg;
    if packs != [] {
      var first := DecodePack(packs[0], s, limit);
      OnePackConsumes(packs[0], s, limit);
      DecodingConsumes(packs[1..], first.rest, limit);
    }
  }

  lemma OnePackConsumes(p: Pack, s: seq<Byte>, limit: nat)
    requires DecodePack(p, s, limit).Parsed?
    ensures |DecodePack(p, s, limit).rest| <= |s|
  {
  }

  /** Every complete command of a stream, in order, and the octets after the last one. */
  function DecodeCalls(sig: Signatures, s: seq<Byte>): (r: (seq<Call>, seq<Byte>))
    decreases |s|
  {
    var one := DecodeCall(sig, s, U32_LIMIT);
    if !one.Parsed? then ([], s)
    else
      CallConsumes(sig, s, U32_LIMIT);
      var (cs, left) := DecodeCalls(sig, one.rest);
      ([one.value] + cs, left)
  }

  lemma CallConsumes(sig: Signatures, s: seq<Byte>, limit: nat)
    requires DecodeCall(sig, s, limit).Parsed?
    ensures |DecodeCall(sig, s, limit).rest| < |s|
  {
    hide DecodePacks;
    DecodingConsumes(PacksOf(sig, BigEndianValue(s[4..6]), BigEndianValue(s[6..8])), s[8..], limit);
  }

  lemma DecodeCallsStep(sig: Signatures, s: seq<Byte>)
    requires DecodeCall(sig, s, U32_LIMIT).Parsed?
    ensures var one := DecodeCall(sig, s, U32_LIMIT);
            var next := DecodeCalls(sig, one.rest);
            DecodeCalls(sig, s) == ([one.value] + next.0, next.1)
  {
    hide DecodeCall;
  }

  /** Back-to-back commands never lose framing: each is decoded as it was sent, whatever follows. */
  lemma {:induction false} CallsRoundTrip(sig: Signatures, cs: seq<Call>, tail: seq<Byte>)
    requires AllWellFormed(sig, cs)
    ensures DecodeCalls(sig, EncodeCalls(sig, cs) + tail)
         == (cs + DecodeCalls(sig, tail).0, DecodeCalls(sig, tail).1)
    decreases |cs|
  {
    hide EncodeCall, DecodeCall, DecodeCalls, WellFormed;
    if cs == [] {
      assert EncodeCalls(sig, cs) + tail == tail;
      assert cs + DecodeCalls(sig, tail).0 == DecodeCalls(sig, tail).0;
    } else {
      var rest := EncodeCalls(sig, cs[1..]) + tail;
      assert EncodeCalls(sig, cs) + tail == EncodeCall(sig, cs[0]) + rest;
      StreamedCall(sig, cs[0], rest);
      DecodeCallsStep(sig, EncodeCall(sig, cs[0]) + rest);
      CallsRoundTrip(sig, cs[1..], tail);
      assert cs + DecodeCalls(sig, tail).0 == [cs[0]] + (cs[1..] + DecodeCalls(sig, tail).0);
    }
  }
}
