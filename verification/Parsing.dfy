/**
 The receive calls emitted for a list of packs, as functions of the octets they consume, and the
 proof that they decode the signature argument by argument.
 */
module Parsing {
  import opened Bytes
  import opened Wire
  import opened Generator

  /** detail::deserialize<position, Tp...>: each scalar is extracted at its own offset. */
  function DeserializeAt(types: seq<Scalar>, buff: seq<Byte>, position: nat): (vs: seq<int>)
    requires position + RequiredBufferSize(types) <= |buff|
    ensures |vs| == |types|
    decreases |types|
  {
    if types == [] then []
    else
      var t := types[0];
      [Interpret(t, ExtractWord(buff[position..position + t.Size()]))]
      + DeserializeAt(types[1..], buff, position + t.Size())
  }

  function Numbers(vs: seq<int>): (r: seq<Value>)
    ensures |r| == |vs| && forall i :: 0 <= i < |vs| ==> r[i] == Number(vs[i])
  {
    seq(|vs|, i requires 0 <= i < |vs| => Number(vs[i]))
  }

  /** One receive call: a scalar pack takes all its octets at once. */
  function DecodePack(p: Pack, s: seq<Byte>, limit: nat): Parsed<seq<Value>>
  {
    match p
    case ScalarPack(types) =>
      var size := RequiredBufferSize(types);
      if |s| < size then Short
      else Parsed(Numbers(DeserializeAt(types, s[..size], 0)), s[size..])
    case ArrayPack(e, n) => Single(DecodeArg(ArrayArg(e, n), s, limit))
    case VectorPack(e) => Single(DecodeArg(VectorArg(e), s, limit))
    case StringPack => Single(DecodeArg(StringArg, s, limit))
  }

  function Single(p: Parsed<Value>): Parsed<seq<Value>>
  {
    match p
    case Short => Short
    case TooLong => TooLong
    case Parsed(v, rest) => Parsed([v], rest)
  }

  /** The emitted parser: pack after pack. */
  function DecodePacks(packs: seq<Pack>, s: seq<Byte>, limit: nat): Parsed<seq<Value>>
    decreases |packs|
  {
    if packs == [] then Parsed([], s)
    else
      match DecodePack(packs[0], s, limit)
      case Short => Short
      case TooLong => TooLong
      case Parsed(v, rest) => Prepend(v, DecodePacks(packs[1..], rest, limit))
  }

  lemma NoPacks(s: seq<Byte>, limit: nat)
    ensures DecodePacks([], s, limit) == Parsed([], s)
  {
  }

  lemma SliceSlides(buff: seq<Byte>, shift: nat, position: nat, n: nat)
    requires shift + position + n <= |buff|
    ensures buff[shift..][position..position + n] == buff[shift + position..shift + position + n]
  {
  }

  lemma DeserializeNothing(buff: seq<Byte>, position: nat)
    requires position <= |buff|
    ensures DeserializeAt([], buff, position) == []
  {
  }

  lemma DeserializeUnfolds(types: seq<Scalar>, buff: seq<Byte>, position: nat)
    requires types != [] && position + RequiredBufferSize(types) <= |buff|
    ensures var n := types[0].Size();
            DeserializeAt(types, buff, position)
            == [Interpret(types[0], BigEndianValue(buff[position..position + n]))]
               + DeserializeAt(types[1..], buff, position + n)
  {
    hide Interpret, BigEndianValue, Scalar.Size;
  }

  /** Offsets count from wherever the buffer starts. */
  lemma {:induction false} DeserializeSlides(types: seq<Scalar>, buff: seq<Byte>, shift: nat, position: nat)
    requires shift + position + RequiredBufferSize(types) <= |buff|
    ensures DeserializeAt(types, buff, shift + position) == DeserializeAt(types, buff[shift..], position)
    decreases |types|
  {
    hide Interpret, Scalar.Size, DeserializeAt;
    if types == [] {
      DeserializeNothing(buff, shift + position);
      DeserializeNothing(buff[shift..], position);
    } else {
      var n := types[0].Size();
      DeserializeUnfolds(types, buff, shift + position);
      DeserializeUnfolds(types, buff[shift..], position);
      SliceSlides(buff, shift, position, n);
      DeserializeSlides(types[1..], buff, shift, position + n);
    }
  }

  /** One scalar off the front of a pack. */
  lemma DeserializeStep(types: seq<Scalar>, s: seq<Byte>)
    requires types != [] && RequiredBufferSize(types) <= |s|
    ensures var n, size := types[0].Size(), RequiredBufferSize(types);
            && n <= size <= |s| && s[size..] == s[n..][size - n..]
            && Numbers(DeserializeAt(types, s[..size], 0))
               == [Number(Interpret(types[0], BigEndianValue(s[..n])))]
                  + Numbers(DeserializeAt(types[1..], s[n..][..size - n], 0))
  {
    hide Interpret, BigEndianValue, Scalar.Size, DeserializeAt, RequiredBufferSize, Numbers;
    RequiredUnfolds(types);
    var n, size := types[0].Size(), RequiredBufferSize(types);
    var buff := s[..size];
    FrontSlices(s, n, size);
    DeserializeUnfolds(types, buff, 0);
    DeserializeSlides(types[1..], buff, n, 0);
    NumbersOf(Interpret(types[0], BigEndianValue(s[..n])), DeserializeAt(types[1..], s[n..][..size - n], 0));
  }

  lemma RequiredUnfolds(types: seq<Scalar>)
    requires types != []
    ensures RequiredBufferSize(types) == types[0].Size() + RequiredBufferSize(types[1..])
  {
  }

  /** The first `size` octets, seen from behind the first `n` of them. */
  lemma FrontSlices(s: seq<Byte>, n: nat, size: nat)
    requires n <= size <= |s|
    ensures s[..size][n..] == s[n..][..size - n] && s[..size][0..n] == s[..n] && s[size..] == s[n..][size - n..]
  {
  }

  lemma NumbersOf(v: int, vs: seq<int>)
    ensures Numbers([v] + vs) == [Number(v)] + Numbers(vs)
  {
  }

  /** A scalar pack decodes like its scalars one by one. */
  lemma {:induction false} ScalarPackIsItsScalars(types: seq<Scalar>, s: seq<Byte>, limit: nat)
    ensures DecodePack(ScalarPack(types), s, limit) == DecodeArgs(ScalarArgs(types), s, limit)
    decreases |types|
  {
    hide Interpret, ExtractWord, BigEndianValue, DeserializeAt, Scalar.Size;
    if types == [] {
      NoScalars(s);
    } else {
      var n := types[0].Size();
      assert ScalarArgs(types)[1..] == ScalarArgs(types[1..]);
      if n <= |s| {
        ScalarPackIsItsScalars(types[1..], s[n..], limit);
        if RequiredBufferSize(types) <= |s| {
          DeserializeStep(types, s);
        }
      }
    }
  }

  lemma NoScalars(s: seq<Byte>)
    ensures Numbers(DeserializeAt([], s[..0], 0)) == [] && s[0..] == s
  {
  }

  lemma {:induction false} DecodeArgsAppends(ts: seq<ArgType>, us: seq<ArgType>, s: seq<Byte>, limit: nat)
    ensures DecodeArgs(ts + us, s, limit)
         == match DecodeArgs(ts, s, limit)
            case Short => Short
            case TooLong => TooLong
            case Parsed(vs, rest) => Prepend(vs, DecodeArgs(us, rest, limit))
    decreases |ts|
  {
    hide DecodeArg;
    if ts == [] {
      assert ts + us == us;
      PrependNothing(DecodeArgs(us, s, limit));
    } else {
      assert (ts + us)[1..] == ts[1..] + us;
      var first := DecodeArg(ts[0], s, limit);
      if first.Parsed? {
        DecodeArgsAppends(ts[1..], us, first.rest, limit);
        var second := DecodeArgs(ts[1..], first.rest, limit);
        if second.Parsed? {
          PrependTwice([first.value], second.value, DecodeArgs(us, second.rest, limit));
        }
      }
    }
  }

  lemma PackDecodesLikeArgs(p: Pack, s: seq<Byte>, limit: nat)
    ensures DecodePack(p, s, limit) == DecodeArgs(PackArgs(p), s, limit)
  {
    if p.ScalarPack? {
      ScalarPackIsItsScalars(p.types, s, limit);
    } else {
      hide DecodeArg;
      assert PackArgs(p)[1..] == [];
      var first := DecodeArg(PackArgs(p)[0], s, limit);
      if first.Parsed? {
        assert DecodeArgs([], first.rest, limit) == Parsed([], first.rest);
        assert [first.value] + [] == [first.value];
      }
    }
  }

  /** However adjacent scalars are grouped, the parser decodes exactly the signature. */
  lemma {:induction false} PacksDecodeLikeArgs(packs: seq<Pack>, s: seq<Byte>, limit: nat)
    ensures DecodePacks(packs, s, limit) == DecodeArgs(Flatten(packs), s, limit)
    decreases |packs|
  {
    hide DecodePack, PackArgs;
    if packs != [] {
      PackDecodesLikeArgs(packs[0], s, limit);
      DecodeArgsAppends(PackArgs(packs[0]), Flatten(packs[1..]), s, limit);
      var first := DecodePack(packs[0], s, limit);
      if first.Parsed? {
        PacksDecodeLikeArgs(packs[1..], first.rest, limit);
      }
    }
  }

  /** The parser emitted for a signature recovers the encoded values and consumes exactly their octets. */
  lemma EmittedParserRoundTrip(packs: seq<Pack>, vs: seq<Value>, rest: seq<Byte>, limit: nat)
    requires AllMatch(Flatten(packs), vs) && CountsWithin(Flatten(packs), vs, limit)
    ensures DecodePacks(packs, EncodeArgs(Flatten(packs), vs) + rest, limit) == Parsed(vs, rest)
  {
    PacksDecodeLikeArgs(packs, EncodeArgs(Flatten(packs), vs) + rest, limit);
    ArgsRoundTrip(Flatten(packs), vs, rest, limit);
  }
}
