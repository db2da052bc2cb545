/** Replies: DynamicSerializer of server/core/serializer_deserializer.hpp and the Python receive functions. */
module Serializer {
  import opened Bytes
  import opened Wire
  import opened Generator
  import opened Sockets
  import opened Utf8

  const SCALAR_PACK_LEN := 1024

  /** Starting with `n` octets already in the scalar pack, no run of scalars overflows it. */
  predicate RunsFit(n: nat, ts: seq<ArgType>)
    decreases |ts|
  {
    n <= SCALAR_PACK_LEN &&
    (ts == [] ||
     if ts[0].ScalarArg? then RunsFit(n + ts[0].scalar.Size(), ts[1..]) else RunsFit(0, ts[1..]))
  }

  function Reply(classId: nat, funcId: nat, ts: seq<ArgType>, vs: seq<Value>): seq<Byte>
    requires AllMatch(ts, vs)
  {
    CommandHeader(classId, funcId) + EncodeArgs(ts, vs)
  }

  class DynamicSerializer {
    const scalData: array<Byte>
    var scalSize: nat

    ghost predicate Valid()
      reads this
    {
      scalData.Length == SCALAR_PACK_LEN && scalSize <= SCALAR_PACK_LEN
    }

    constructor ()
      ensures Valid() && fresh(scalData) && scalSize == 0
    {
      scalData := new Byte[SCALAR_PACK_LEN];
      scalSize := 0;
    }

    /** Scalars waiting to be flushed. */
    ghost function Pending(): (s: seq<Byte>)
      requires Valid()
      reads this, scalData
    {
      scalData[..scalSize]
    }

    /** append<uint32_t> and narrower: one store per octet. */
    method StoreWord(at: nat, v: int, n: nat)
      requires (n == 1 || n == 2 || n == 4) && at + n <= scalData.Length
      modifies scalData
      ensures scalData[..at] == old(scalData[..at]) && scalData[at..at + n] == BigEndian(v, n)
    {
      hide BigEndian;
      Octets(v);
      if n == 1 {
        scalData[at] := v % 256;
      } else if n == 2 {
        scalData[at] := v / 0x100 % 256;
        scalData[at + 1] := v % 256;
      } else {
        scalData[at] := v / 0x100_0000 % 256;
        scalData[at + 1] := v / 0x1_0000 % 256;
        scalData[at + 2] := v / 0x100 % 256;
        scalData[at + 3] := v % 256;
      }
    }

    /** Put a scalar behind the ones already waiting; 64 bits are two 32-bit halves. */
    method Append(t: Scalar, v: int)
      requires Valid() && t.Holds(v) && scalSize + t.Size() <= SCALAR_PACK_LEN
      modifies this`scalSize, scalData
      ensures Valid() && scalSize == old(scalSize) + t.Size()
      ensures Pending() == old(Pending()) + BigEndian(v, t.Size())
    {
      hide BigEndian;
      if t.Size() == 8 {
        Sizes();
        BigEndianSplit(v, 4, 4);
        StoreWord(scalSize, v / U32_LIMIT, 4);
        ghost var high := scalData[..scalSize + 4];
        StoreWord(scalSize + 4, v, 4);
        assert scalData[..scalSize + 4] == high;
        assert scalData[..scalSize + 8] == high + scalData[scalSize + 4..scalSize + 8];
      } else {
        StoreWord(scalSize, v, t.Size());
        assert scalData[..scalSize + t.Size()] == scalData[..scalSize] + scalData[scalSize..scalSize + t.Size()];
      }
      scalSize := scalSize + t.Size();
    }

    method DumpScalarPack(buffer: seq<Byte>) returns (r: seq<Byte>)
      requires Valid()
      modifies this`scalSize
      ensures Valid() && scalSize == 0 && r == buffer + old(Pending())
    {
      r := buffer;
      if scalSize > 0 {
        r := r + scalData[..scalSize];
        scalSize := 0;
      }
    }

    /** Container and array arguments: raw elements, behind a byte count when the length is dynamic. */
    method DumpArg(buffer: seq<Byte>, t: ArgType, v: Value) returns (r: seq<Byte>)
      requires !t.ScalarArg? && Matches(t, v)
      ensures r == buffer + EncodeArg(t, v)
    {
      hide BigEndian, EncodeItems;
      match t {
        case ArrayArg(e, n) =>
          r := buffer + EncodeItems(e, v.vs);
        case VectorArg(e) =>
          r := buffer + BigEndian(|v.vs| * e.Size(), 4);
          if |v.vs| * e.Size() > 0 {
            r := r + EncodeItems(e, v.vs);
          } else {
            assert EncodeItems(e, v.vs) == [];
          }
        case StringArg =>
          r := buffer + BigEndian(|v.s|, 4);
          if |v.s| > 0 {
            r := r + v.s;
          }
      }
    }

    /** Scalars are only collected; anything else flushes them first. */
    method CommandSerializer(buffer: seq<Byte>, ts: seq<ArgType>, vs: seq<Value>) returns (r: seq<Byte>)
      requires Valid() && AllMatch(ts, vs) && RunsFit(scalSize, ts)
      modifies this`scalSize, scalData
      ensures Valid() && r + Pending() == buffer + old(Pending()) + EncodeArgs(ts, vs)
      decreases |ts|
    {
      hide BigEndian, EncodeArg, Matches;
      if ts == [] {
        return buffer;
      }
      OneMatches(ts, vs);
      if ts[0].ScalarArg? {
        ghost var before := Pending();
        Append(ts[0].scalar, vs[0].v);
        ScalarEncoding(ts[0].scalar, vs[0]);
        r := CommandSerializer(buffer, ts[1..], vs[1..]);
        assert buffer + (before + EncodeArg(ts[0], vs[0])) + EncodeArgs(ts[1..], vs[1..])
            == buffer + before + EncodeArgs(ts, vs);
      } else {
        ghost var before := Pending();
        RunRestarts(scalSize, ts);
        r := DumpScalarPack(buffer);
        r := DumpArg(r, ts[0], vs[0]);
        ghost var mid := r;
        assert Pending() == [];
        r := CommandSerializer(r, ts[1..], vs[1..]);
        assert mid + [] + EncodeArgs(ts[1..], vs[1..]) == buffer + before + EncodeArgs(ts, vs);
      }
    }

    /** Whatever the buffer and the scalar pack held before, the result is the header and then each
        argument's encoding in order. */
    method BuildCommand(buffer: seq<Byte>, classId: nat, funcId: nat, ts: seq<ArgType>, vs: seq<Value>)
      returns (r: seq<Byte>)
      requires Valid() && AllMatch(ts, vs) && RunsFit(0, ts)
      modifies this`scalSize, scalData
      ensures Valid() && r == Reply(classId, funcId, ts, vs)
    {
      hide BigEndian, EncodeArgs;
      // resize to eight octets, then overwrite them all
      r := if |buffer| >= 8 then buffer[..8] else buffer + Zeros(8 - |buffer|);
      r := CommandHeader(classId, funcId) + r[8..];
      if ts == [] {
        NoArgs(ts, vs);
        return;
      }
      scalSize := 0;
      assert Pending() == [];
      r := CommandSerializer(r, ts, vs);
      r := DumpScalarPack(r);
    }
  }

  lemma OneMatches(ts: seq<ArgType>, vs: seq<Value>)
    requires AllMatch(ts, vs) && ts != []
    ensures Matches(ts[0], vs[0]) && AllMatch(ts[1..], vs[1..])
    ensures ts[0].ScalarArg? ==> vs[0].Number? && ts[0].scalar.Holds(vs[0].v)
    ensures EncodeArgs(ts, vs) == EncodeArg(ts[0], vs[0]) + EncodeArgs(ts[1..], vs[1..])
  {
    assert Matches(ts[0], vs[0]);
  }

  lemma ScalarEncoding(t: Scalar, v: Value)
    requires Matches(ScalarArg(t), v)
    ensures EncodeArg(ScalarArg(t), v) == BigEndian(v.v, t.Size())
  {
    hide BigEndian;
  }

  lemma RunRestarts(n: nat, ts: seq<ArgType>)
    requires RunsFit(n, ts) && ts != [] && !ts[0].ScalarArg?
    ensures RunsFit(0, ts[1..])
  {
  }

  lemma NoArgs(ts: seq<ArgType>, vs: seq<Value>)
    requires AllMatch(ts, vs) && ts == []
    ensures EncodeArgs(ts, vs) == []
  {
  }

  // ------------------------------------------------------------------
  // The client's side
  // ------------------------------------------------------------------

  /** A value, or the exception raised instead. */
  datatype Received<+T> = Got(value: T) | Raised

  class Receiver {
    const sock: Socket

    constructor (sock: Socket)
      ensures this.sock == sock
    {
      this.sock := sock;
    }

    /** recv_all: exactly `n` octets, in pieces of at most 65535. */
    method RecvAll(n: nat) returns (data: seq<Byte>)
      requires n <= |sock.incoming|
      modifies sock`incoming
      ensures data == old(sock.incoming)[..n] && sock.incoming == old(sock.incoming)[n..]
    {
      ghost var stream := sock.incoming;
      data := [];
      while |data| < n
        invariant |data| <= n && data == stream[..|data|] && sock.incoming == stream[|data|..]
        decreases n - |data|
      {
        var left := n - |data|;
        var chunk := sock.Read(if left < 65535 then left else 65535);
        assert stream[..|data|] + chunk == stream[..|data| + |chunk|];
        data := data + chunk;
      }
    }

    /** recv with a format of big-endian scalars. */
    method Recv(types: seq<Scalar>) returns (vs: seq<Value>)
      requires |sock.incoming| >= 8 + RequiredBufferSize(types)
      modifies sock`incoming
      ensures var end := 8 + RequiredBufferSize(types);
              vs == Unpack(types, old(sock.incoming)[8..end]) && sock.incoming == old(sock.incoming)[end..]
    {
      var data := RecvAll(8 + RequiredBufferSize(types));
      vs := Unpack(types, data[8..]);
    }

    /** recv_tuple: a single value is not a tuple, and tuple() of it raises. */
    method RecvTuple(types: seq<Scalar>) returns (r: Received<seq<Value>>)
      requires |sock.incoming| >= 8 + RequiredBufferSize(types)
      modifies sock`incoming
      ensures r.Got? <==> |types| != 1
      ensures var end := 8 + RequiredBufferSize(types);
              && sock.incoming == old(sock.incoming)[end..]
              && (r.Got? ==> r.value == Unpack(types, old(sock.incoming)[8..end]))
    {
      var vs := Recv(types);
      r := if |vs| == 1 then Raised else Got(vs);
    }

    /** The body of a reply with a dynamic length, or an exception when the reserved word is not zero. */
    method RecvDynamicPayload() returns (ok: bool, payload: seq<Byte>)
      requires |sock.incoming| >= 12 && |sock.incoming| >= 12 + BigEndianValue(sock.incoming[8..12])
      modifies sock`incoming
      ensures ok <==> BigEndianValue(old(sock.incoming)[..4]) == 0
      ensures var n := BigEndianValue(old(sock.incoming)[8..12]);
              if ok then payload == old(sock.incoming)[12..12 + n] && sock.incoming == old(sock.incoming)[12 + n..]
              else sock.incoming == old(sock.incoming)[12..]
    {
      hide BigEndianValue;
      ghost var s := sock.incoming;
      var head := RecvAll(12);
      assert head[..4] == s[..4] && head[8..12] == s[8..12];
      if BigEndianValue(head[..4]) != 0 {
        return false, [];
      }
      payload := RecvAll(BigEndianValue(head[8..12]));
      ok := true;
    }

    /** The text of the reply; an exception when its octets are not UTF-8. */
    method RecvString() returns (r: Received<seq<CodePoint>>)
      requires |sock.incoming| >= 12 && |sock.incoming| >= 12 + BigEndianValue(sock.incoming[8..12])
      modifies sock`incoming
      ensures var s, n := old(sock.incoming), BigEndianValue(old(sock.incoming)[8..12]);
              && (r.Got? <==> BigEndianValue(s[..4]) == 0 && DecodeText(s[12..12 + n]).Characters?)
              && (r.Got? ==> EncodeText(r.value) == s[12..12 + n])
              && sock.incoming == if BigEndianValue(s[..4]) == 0 then s[12 + n..] else s[12..]
    {
      hide BigEndianValue, DecodeText, EncodeText;
      var ok, payload := RecvDynamicPayload();
      if !ok {
        return Raised;
      }
      EncodeUndoesDecode(payload);
      var text := DecodeText(payload);
      r := if text.Malformed? then Raised else Got(text.chars);
    }

    /** numpy.frombuffer raises when the payload is not a whole number of elements. */
    method RecvVector(e: Scalar) returns (r: Received<Value>)
      requires |sock.incoming| >= 12 && |sock.incoming| >= 12 + BigEndianValue(sock.incoming[8..12])
      modifies sock`incoming
      ensures r.Got? <==>
              BigEndianValue(old(sock.incoming)[..4]) == 0 && BigEndianValue(old(sock.incoming)[8..12]) % e.Size() == 0
      ensures r.Got? ==> DecodeArg(VectorArg(e), old(sock.incoming)[8..], U32_LIMIT) == Parsed(r.value, sock.incoming)
    {
      hide BigEndianValue, DecodeItems, DecodeArg, Scalar.Size;
      ghost var s := sock.incoming;
      var ok, payload := RecvDynamicPayload();
      if !ok || |payload| % e.Size() != 0 {
        return Raised;
      }
      WholeVector(|payload|, e.Size());
      VectorBehindHeader(e, s);
      r := Got(Items(DecodeItems(e, |payload| / e.Size(), payload)));
    }

    method RecvArray(e: Scalar, n: nat) returns (v: Value)
      requires |sock.incoming| >= 8 + n * e.Size()
      modifies sock`incoming
      ensures DecodeArg(ArrayArg(e, n), old(sock.incoming)[8..], U32_LIMIT) == Parsed(v, sock.incoming)
    {
      hide DecodeItems;
      ghost var s := sock.incoming;
      Behind(s, 8, 0, n * e.Size());
      var head := RecvAll(8);
      var buff := RecvAll(n * e.Size());
      v := Items(DecodeItems(e, n, buff));
    }
  }

  lemma WholeVector(n: nat, size: nat)
    requires size > 0 && n % size == 0
    ensures n / size * size == n
  {
    assert n == size * (n / size) + n % size;
  }

  lemma VectorBehindHeader(e: Scalar, s: seq<Byte>)
    requires |s| >= 12 && |s| >= 12 + BigEndianValue(s[8..12]) && BigEndianValue(s[8..12]) % e.Size() == 0
    ensures var n := BigEndianValue(s[8..12]);
            && n / e.Size() * e.Size() == n
            && DecodeArg(VectorArg(e), s[8..], U32_LIMIT)
               == Parsed(Items(DecodeItems(e, n / e.Size(), s[12..12 + n])), s[12 + n..])
  {
    hide BigEndianValue, DecodeItems, Scalar.Size;
    var n := BigEndianValue(s[8..12]);
    WholeVector(n, e.Size());
    WordIsSmall(s[8..12]);
    Behind(s, 8, 4, n);
  }

  /** Positions in a stream seen from behind its first `i` octets. */
  lemma Behind(s: seq<Byte>, i: nat, j: nat, n: nat)
    requires i + j + n <= |s|
    ensures s[i..][..j] == s[i..i + j]
    ensures s[i..][j..j + n] == s[i + j..i + j + n] && s[i..][j + n..] == s[i + j + n..]
    ensures s[i..][..j + n][j..] == s[i + j..i + j + n]
  {
  }

  // ------------------------------------------------------------------
  // Replies reach the caller
  // ------------------------------------------------------------------

  /** struct.unpack: as the server reads its scalars, except that any octet but zero is true. */
  function Unpack(types: seq<Scalar>, s: seq<Byte>): (vs: seq<Value>)
    requires |s| == RequiredBufferSize(types)
    ensures |vs| == |types|
    decreases |types|
  {
    if types == [] then []
    else
      var n := types[0].Size();
      [Number(UnpackWord(types[0], BigEndianValue(s[..n])))] + Unpack(types[1..], s[n..])
  }

  function UnpackWord(t: Scalar, raw: nat): int
  {
    if t.Bool? then (if raw != 0 then 1 else 0) else Interpret(t, raw)
  }

  lemma WordRoundTrip(t: Scalar, v: int)
    requires t.Holds(v)
    ensures UnpackWord(t, BigEndianValue(BigEndian(v, t.Size()))) == v
  {
    hide BigEndian, BigEndianValue;
    if t.Bool? {
      Sizes();
      BigEndianRoundTrip(v, 1);
    } else {
      ScalarRoundTrip(t, v, []);
      assert (BigEndian(v, t.Size()) + [])[..t.Size()] == BigEndian(v, t.Size());
    }
  }

  lemma NothingToUnpack(types: seq<Scalar>, s: seq<Byte>)
    requires types == [] && s == []
    ensures Unpack(types, s) == []
  {
  }

  lemma UnpackStep(types: seq<Scalar>, one: seq<Byte>, tail: seq<Byte>)
    requires types != [] && |one| == types[0].Size() && |tail| == RequiredBufferSize(types[1..])
    ensures Unpack(types, one + tail)
         == [Number(UnpackWord(types[0], BigEndianValue(one)))] + Unpack(types[1..], tail)
  {
    hide BigEndianValue, UnpackWord, Scalar.Size;
    assert (one + tail)[..|one|] == one && (one + tail)[|one|..] == tail;
  }

  /** Unpacking recovers every list of scalars that the server serializes. */
  lemma {:induction false} UnpackRoundTrip(types: seq<Scalar>, vs: seq<Value>)
    requires AllMatch(ScalarArgs(types), vs)
    ensures |EncodeArgs(ScalarArgs(types), vs)| == RequiredBufferSize(types)
    ensures Unpack(types, EncodeArgs(ScalarArgs(types), vs)) == vs
    decreases |types|
  {
    hide BigEndian, BigEndianValue, UnpackWord, Unpack, Matches, Scalar.Size, EncodeArg;
    if types == [] {
      NothingToUnpack(types, EncodeArgs(ScalarArgs(types), vs));
    } else {
      var ts := ScalarArgs(types);
      OneMatches(ts, vs);
      ScalarEncoding(types[0], vs[0]);
      WordRoundTrip(types[0], vs[0].v);
      assert ts[1..] == ScalarArgs(types[1..]);
      UnpackRoundTrip(types[1..], vs[1..]);
      UnpackStep(types, BigEndian(vs[0].v, types[0].Size()), EncodeArgs(ts[1..], vs[1..]));
      assert vs == [vs[0]] + vs[1..];
    }
  }

  /** A reply behind its eight header octets. */
  lemma ReplyParts(classId: nat, funcId: nat, ts: seq<ArgType>, vs: seq<Value>, rest: seq<Byte>)
    requires AllMatch(ts, vs)
    ensures var s := Reply(classId, funcId, ts, vs) + rest;
            && |s| == 8 + |EncodeArgs(ts, vs)| + |rest|
            && BigEndianValue(s[..4]) == 0 && s[8..] == EncodeArgs(ts, vs) + rest
  {
    hide BigEndian, BigEndianValue, EncodeArgs;
    var s := Reply(classId, funcId, ts, vs) + rest;
    assert s[..4] == BigEndian(0, 4);
    Sizes();
    BigEndianRoundTrip(0, 4);
  }

  /** A reply that holds one counted value. */
  lemma CountedReply(classId: nat, funcId: nat, t: ArgType, v: Value, body: seq<Byte>, rest: seq<Byte>)
    requires Matches(t, v) && EncodeArg(t, v) == BigEndian(|body|, 4) + body && |body| < U32_LIMIT
    ensures var s := Reply(classId, funcId, [t], [v]) + rest;
            && |s| == 12 + |body| + |rest| && BigEndianValue(s[..4]) == 0 && BigEndianValue(s[8..12]) == |body|
            && s[12..12 + |body|] == body && s[12 + |body|..] == rest
  {
    hide BigEndian, BigEndianValue, EncodeArg, Matches, Reply;
    var s := Reply(classId, funcId, [t], [v]) + rest;
    OneArg(t, v);
    ReplyParts(classId, funcId, [t], [v], rest);
    CountedRoundTrip(|body|, body, rest);
    Behind(s, 8, 4, |body|);
  }

  lemma OneArg(t: ArgType, v: Value)
    requires Matches(t, v)
    ensures EncodeArgs([t], [v]) == EncodeArg(t, v)
  {
    hide Matches, EncodeArg;
    assert [t][1..] == [] && [v][1..] == [];
  }

  lemma {:induction false} EncodingHolds(ts: seq<ArgType>, vs: seq<Value>, j: nat)
    requires AllMatch(ts, vs) && j < |ts|
    ensures AllMatch(ts[..j], vs[..j]) && Matches(ts[j], vs[j])
    ensures EncodeArgs(ts[..j], vs[..j]) + EncodeArg(ts[j], vs[j]) <= EncodeArgs(ts, vs)
    decreases |ts|
  {
    hide Matches, EncodeArg;
    assert Matches(ts[j], vs[j]);
    if j > 0 {
      EncodingHolds(ts[1..], vs[1..], j - 1);
      assert ts[..j][1..] == ts[1..][..j - 1] && vs[..j][1..] == vs[1..][..j - 1];
    }
  }

  /** The elements of an array or vector, anywhere in a reply: lowest octet first. */
  lemma ReplyItemOctet(classId: nat, funcId: nat, ts: seq<ArgType>, vs: seq<Value>, j: nat, i: nat, k: nat)
    requires AllMatch(ts, vs) && j < |ts| && (ts[j].ArrayArg? || ts[j].VectorArg?)
    requires vs[j].Items? && i < |vs[j].vs| && k < ts[j].elem.Size()
    ensures AllMatch(ts[..j], vs[..j])
    ensures var at := 8 + |EncodeArgs(ts[..j], vs[..j])| + ItemPlace(ts[j], i, k);
            && at < |Reply(classId, funcId, ts, vs)|
            && Reply(classId, funcId, ts, vs)[at] == vs[j].vs[i] / Pow256(k) % 256
  {
    hide EncodeArgs, EncodeArg, Matches, CommandHeader, ItemPlace, Pow256;
    EncodingHolds(ts, vs, j);
    ArgItemOctet(ts[j], vs[j], i, k);
    var p, one := EncodeArgs(ts[..j], vs[..j]), EncodeArg(ts[j], vs[j]);
    assert EncodeArgs(ts, vs)[|p| + ItemPlace(ts[j], i, k)] == (p + one)[|p| + ItemPlace(ts[j], i, k)];
  }

  /** A string reply arrives as the text it encodes, or as an exception if it encodes none. Either way the
      stream is at the next reply. */
  method StringReplyIsReceived(
    ser: DynamicSerializer, buffer: seq<Byte>, classId: nat, funcId: nat,
    text: seq<Byte>, rest: seq<Byte>)
    returns (reply: seq<Byte>, r: Received<seq<CodePoint>>, left: seq<Byte>)
    requires ser.Valid() && |text| < U32_LIMIT
    modifies ser`scalSize, ser.scalData
    ensures reply == Reply(classId, funcId, [StringArg], [Text(text)]) && left == rest
    ensures forall cs :: r == Got(cs) <==> EncodeText(cs) == text
  {
    hide BigEndian, BigEndianValue, EncodeArgs, DecodeText, EncodeText, Reply;
    reply := ser.BuildCommand(buffer, classId, funcId, [StringArg], [Text(text)]);
    CountedReply(classId, funcId, StringArg, Text(text), text, rest);
    var sock := new Socket(reply + rest);
    var receiver := new Receiver(sock);
    r := receiver.RecvString();
    left := sock.incoming;
    forall cs
      ensures r == Got(cs) <==> EncodeText(cs) == text
    {
      DecodesExactlyEncodings(text, cs);
      if r.Got? {
        DecodesExactlyEncodings(text, r.value);
      }
    }
  }

  method VectorReplyIsReceived(
    ser: DynamicSerializer, buffer: seq<Byte>, classId: nat, funcId: nat,
    e: Scalar, vs: seq<int>, rest: seq<Byte>)
    returns (reply: seq<Byte>, r: Received<Value>, left: seq<Byte>)
    requires ser.Valid() && Matches(VectorArg(e), Items(vs))
    modifies ser`scalSize, ser.scalData
    ensures reply == Reply(classId, funcId, [VectorArg(e)], [Items(vs)])
    ensures r == Got(Items(vs)) && left == rest
  {
    hide BigEndian, BigEndianValue, EncodeArgs, EncodeItems, DecodeArg, Reply;
    reply := ser.BuildCommand(buffer, classId, funcId, [VectorArg(e)], [Items(vs)]);
    CountedReply(classId, funcId, VectorArg(e), Items(vs), EncodeItems(e, vs), rest);
    WholeElements(|vs|, e.Size());
    ReplyIsDecoded(classId, funcId, VectorArg(e), Items(vs), rest);
    var sock := new Socket(reply + rest);
    var receiver := new Receiver(sock);
    r := receiver.RecvVector(e);
    left := sock.incoming;
  }

  method ArrayReplyIsReceived(
    ser: DynamicSerializer, buffer: seq<Byte>, classId: nat, funcId: nat,
    e: Scalar, vs: seq<int>, rest: seq<Byte>)
    returns (reply: seq<Byte>, v: Value, left: seq<Byte>)
    requires ser.Valid() && AllHold(e, vs)
    modifies ser`scalSize, ser.scalData
    ensures reply == Reply(classId, funcId, [ArrayArg(e, |vs|)], [Items(vs)])
    ensures v == Items(vs) && left == rest
  {
    hide BigEndian, BigEndianValue, EncodeArgs, EncodeItems, DecodeArg, Reply;
    var t := ArrayArg(e, |vs|);
    reply := ser.BuildCommand(buffer, classId, funcId, [t], [Items(vs)]);
    OneArg(t, Items(vs));
    ReplyParts(classId, funcId, [t], [Items(vs)], rest);
    ReplyIsDecoded(classId, funcId, t, Items(vs), rest);
    var sock := new Socket(reply + rest);
    var receiver := new Receiver(sock);
    v := receiver.RecvArray(e, |vs|);
    left := sock.incoming;
  }

  /** A reply of scalars, received by recv and by recv_tuple. A tuple of one value raises. */
  method TupleReplyIsReceived(
    ser: DynamicSerializer, buffer: seq<Byte>, classId: nat, funcId: nat,
    types: seq<Scalar>, vs: seq<Value>, rest: seq<Byte>)
    returns (reply: seq<Byte>, scalars: seq<Value>, tuple: Received<seq<Value>>, left: seq<Byte>)
    requires ser.Valid() && AllMatch(ScalarArgs(types), vs) && RunsFit(0, ScalarArgs(types))
    modifies ser`scalSize, ser.scalData
    ensures reply == Reply(classId, funcId, ScalarArgs(types), vs)
    ensures scalars == vs && tuple == (if |types| == 1 then Raised else Got(vs)) && left == rest
  {
    hide BigEndianValue, EncodeArgs, Unpack, Reply, Matches, RequiredBufferSize;
    reply := ser.BuildCommand(buffer, classId, funcId, ScalarArgs(types), vs);
    ghost var s, end := reply + rest, 8 + RequiredBufferSize(types);
    ReplyParts(classId, funcId, ScalarArgs(types), vs, rest);
    UnpackRoundTrip(types, vs);
    Behind(s, 8, 0, RequiredBufferSize(types));
    assert s[8..end] == EncodeArgs(ScalarArgs(types), vs) && s[end..] == rest;
    var sock := new Socket(reply + rest);
    var receiver := new Receiver(sock);
    scalars := receiver.Recv(types);
    left := sock.incoming;
    sock := new Socket(reply + rest);
    receiver := new Receiver(sock);
    tuple := receiver.RecvTuple(types);
  }

  /** The reference decoder recovers a reply of one value, up to the first octet that follows it. */
  lemma ReplyIsDecoded(classId: nat, funcId: nat, t: ArgType, v: Value, rest: seq<Byte>)
    requires Matches(t, v)
    ensures var s := Reply(classId, funcId, [t], [v]) + rest;
            |s| >= 8 && DecodeArg(t, s[8..], U32_LIMIT) == Parsed(v, rest)
  {
    hide EncodeArg, DecodeArg, Reply;
    OneArg(t, v);
    ReplyParts(classId, funcId, [t], [v], rest);
    ArgRoundTrip(t, v, rest, U32_LIMIT);
  }
}
