/**
 The command wire format: argument types as data, the encoding of a typed argument list, and its
 argument-by-argument decoding. Scalars travel big endian, array and vector elements as raw
 little-endian memory, vectors and strings behind a 32-bit byte count.
 */
module Wire {
  import opened Bytes

  /** Fixed-width C++ scalars. A float or double is its bit pattern. */
  datatype Scalar = U8 | I8 | U16 | I16 | U32 | I32 | U64 | I64 | F32 | F64 | Bool {
    function Size(): (n: nat)
      ensures n == 1 || n == 2 || n == 4 || n == 8
    {
      match this
      case U8 | I8 | Bool => 1
      case U16 | I16 => 2
      case U32 | I32 | F32 => 4
      case U64 | I64 | F64 => 8
    }

    predicate Signed() {
      this in {I8, I16, I32, I64}
    }

    predicate Holds(v: int) {
      if Bool? then v == 0 || v == 1
      else if Signed() then 0 <= 2 * v + Pow256(Size()) < 2 * Pow256(Size())
      else 0 <= v < Pow256(Size())
    }
  }

  datatype ArgType =
    | ScalarArg(scalar: Scalar)
    | ArrayArg(elem: Scalar, n: nat)
    | VectorArg(elem: Scalar)
    | StringArg

  datatype Value =
    | Number(v: int)
    | Items(vs: seq<int>)
    | Text(s: seq<Byte>)

  const U32_LIMIT := 0x1_0000_0000

  predicate Matches(t: ArgType, v: Value)
  {
    match t
    case ScalarArg(s) => v.Number? && s.Holds(v.v)
    case ArrayArg(e, n) => v.Items? && |v.vs| == n && AllHold(e, v.vs)
    case VectorArg(e) => v.Items? && |v.vs| * e.Size() < U32_LIMIT && AllHold(e, v.vs)
    case StringArg => v.Text? && |v.s| < U32_LIMIT
  }

  predicate AllHold(e: Scalar, vs: seq<int>)
  {
    forall i :: 0 <= i < |vs| ==> e.Holds(vs[i])
  }

  predicate AllMatch(ts: seq<ArgType>, vs: seq<Value>)
  {
    |ts| == |vs| && forall i :: 0 <= i < |ts| ==> Matches(ts[i], vs[i])
  }

  // ------------------------------------------------------------------
  // Encoding
  // ------------------------------------------------------------------

  function EncodeItems(e: Scalar, vs: seq<int>): (s: seq<Byte>)
    ensures |s| == |vs| * e.Size()
  {
    if vs == [] then [] else LittleEndian(vs[0], e.Size()) + EncodeItems(e, vs[1..])
  }

  function EncodeArg(t: ArgType, v: Value): (s: seq<Byte>)
    requires Matches(t, v)
  {
    match t
    case ScalarArg(s) => BigEndian(v.v, s.Size())
    case ArrayArg(e, n) => EncodeItems(e, v.vs)
    case VectorArg(e) => BigEndian(|v.vs| * e.Size(), 4) + EncodeItems(e, v.vs)
    case StringArg => BigEndian(|v.s|, 4) + v.s
  }

  function EncodeArgs(ts: seq<ArgType>, vs: seq<Value>): (s: seq<Byte>)
    requires AllMatch(ts, vs)
  {
    if ts == [] then [] else EncodeArg(ts[0], vs[0]) + EncodeArgs(ts[1..], vs[1..])
  }

  /** The eight octets before a command's payload and before a reply: a reserved word, the driver (or
      class) and the operation (or function). */
  function CommandHeader(driver: int, operation: int): (s: seq<Byte>)
    ensures |s| == 8
  {
    BigEndian(0, 4) + BigEndian(driver, 2) + BigEndian(operation, 2)
  }

  /** Octet `k` of element `i`, lowest first: elements travel as they lie in little-endian memory. */
  lemma {:induction false} ItemOctet(e: Scalar, vs: seq<int>, i: nat, k: nat)
    requires i < |vs| && k < e.Size()
    ensures i * e.Size() + k < |EncodeItems(e, vs)|
    ensures EncodeItems(e, vs)[i * e.Size() + k] == vs[i] / Pow256(k) % 256
    decreases |vs|
  {
    hide LittleEndian, Pow256, Scalar.Size;
    ElementInside(i, |vs|, k, e.Size());
    if i == 0 {
      LittleEndianOctet(vs[0], e.Size(), k);
    } else {
      ItemOctet(e, vs[1..], i - 1, k);
      assert i * e.Size() + k == e.Size() + ((i - 1) * e.Size() + k);
    }
  }

  lemma ElementInside(i: nat, n: nat, k: nat, size: nat)
    requires i < n && k < size
    ensures i * size + k < n * size
  {
    Monotone(size, i + 1, n);
    Distribute(size, i, 1);
  }

  /** Where octet `k` of element `i` lies in an argument: a vector has four octets before its elements. */
  function ItemPlace(t: ArgType, i: nat, k: nat): (n: nat)
    requires t.ArrayArg? || t.VectorArg?
  {
    (if t.VectorArg? then 4 else 0) + i * t.elem.Size() + k
  }

  lemma ArgItemOctet(t: ArgType, v: Value, i: nat, k: nat)
    requires Matches(t, v) && (t.ArrayArg? || t.VectorArg?) && i < |v.vs| && k < t.elem.Size()
    ensures ItemPlace(t, i, k) < |EncodeArg(t, v)|
    ensures EncodeArg(t, v)[ItemPlace(t, i, k)] == v.vs[i] / Pow256(k) % 256
  {
    hide BigEndian, EncodeItems, Pow256;
    ItemOctet(t.elem, v.vs, i, k);
  }

  // ------------------------------------------------------------------
  // Decoding
  // ------------------------------------------------------------------

  /** The stream is too short, a byte count exceeds what the transport accepts, or a value and the rest. */
  datatype Parsed<+T> = Short | TooLong | Parsed(value: T, rest: seq<Byte>)

  /** A word of memory as a value of the scalar type. */
  function Interpret(s: Scalar, raw: nat): int
  {
    if s.Bool? then (if raw == 1 then 1 else 0)
    else if s.Signed() && 2 * raw >= Pow256(s.Size()) then raw - Pow256(s.Size())
    else raw
  }

  function DecodeScalar(t: Scalar, s: seq<Byte>): Parsed<int>
  {
    if |s| < t.Size() then Short
    else Parsed(Interpret(t, BigEndianValue(s[..t.Size()])), s[t.Size()..])
  }

  function DecodeItems(e: Scalar, n: nat, s: seq<Byte>): (vs: seq<int>)
    requires |s| == n * e.Size()
    ensures |vs| == n
  {
    if n == 0 then []
    else [Interpret(e, LittleEndianValue(s[..e.Size()]))] + DecodeItems(e, n - 1, s[e.Size()..])
  }

  /** `limit` is the largest byte count the receiving side accepts for a vector or a string. */
  function DecodeArg(t: ArgType, s: seq<Byte>, limit: nat): Parsed<Value>
  {
    match t
    case ScalarArg(sc) =>
      (match DecodeScalar(sc, s)
       case Parsed(v, rest) => Parsed(Number(v), rest)
       case _ => Short)
    case ArrayArg(e, n) =>
      var size := n * e.Size();
      if |s| < size then Short else Parsed(Items(DecodeItems(e, n, s[..size])), s[size..])
    case VectorArg(e) =>
      if |s| < 4 then Short
      else
        var bytes := BigEndianValue(s[..4]);
        var n := bytes / e.Size();
        var size := n * e.Size();
        if bytes > limit then TooLong
        else if |s| < 4 + size then Short
        else Parsed(Items(DecodeItems(e, n, s[4..4 + size])), s[4 + size..])
    case StringArg =>
      if |s| < 4 then Short
      else
        var bytes := BigEndianValue(s[..4]);
        if bytes > limit then TooLong
        else if |s| < 4 + bytes then Short
        else Parsed(Text(s[4..4 + bytes]), s[4 + bytes..])
  }

  lemma WordIsSmall(s: seq<Byte>)
    requires |s| == 4
    ensures BigEndianValue(s) < U32_LIMIT
  {
    Sizes();
    BigEndianBound(s);
  }

  lemma NoCount(t: ArgType, s: seq<Byte>, limit: nat)
    requires (t.VectorArg? || t.StringArg?) && |s| < 4
    ensures DecodeArg(t, s, limit) == Short
  {
  }

  /** A vector, seen from behind its byte count. */
  lemma VectorBehindCount(e: Scalar, s: seq<Byte>, limit: nat)
    requires |s| >= 4
    ensures var bytes := BigEndianValue(s[..4]);
            var n := bytes / e.Size();
            var size := n * e.Size();
            DecodeArg(VectorArg(e), s, limit)
            == if bytes > limit then TooLong
               else if |s| < 4 + size then Short
               else Parsed(Items(DecodeItems(e, n, s[4..][..size])), s[4..][size..])
  {
    hide BigEndianValue, DecodeItems, Scalar.Size;
    SliceAfter(s, 4, BigEndianValue(s[..4]) / e.Size() * e.Size());
  }

  /** A string, seen from behind its byte count. */
  lemma StringBehindCount(s: seq<Byte>, limit: nat)
    requires |s| >= 4
    ensures var n := BigEndianValue(s[..4]);
            DecodeArg(StringArg, s, limit)
            == if n > limit then TooLong
               else if |s| < 4 + n then Short
               else Parsed(Text(s[4..][..n]), s[4..][n..])
  {
    hide BigEndianValue;
    SliceAfter(s, 4, BigEndianValue(s[..4]));
  }

  /** The reference decoder: one argument after the other. */
  function DecodeArgs(ts: seq<ArgType>, s: seq<Byte>, limit: nat): Parsed<seq<Value>>
  {
    if ts == [] then Parsed([], s)
    else
      match DecodeArg(ts[0], s, limit)
      case Short => Short
      case TooLong => TooLong
      case Parsed(v, rest) => Prepend([v], DecodeArgs(ts[1..], rest, limit))
  }

  function Prepend(v: seq<Value>, p: Parsed<seq<Value>>): Parsed<seq<Value>>
  {
    match p
    case Short => Short
    case TooLong => TooLong
    case Parsed(vs, rest) => Parsed(v + vs, rest)
  }

  lemma PrependNothing(p: Parsed<seq<Value>>)
    ensures Prepend([], p) == p
  {
    if p.Parsed? {
      assert [] + p.value == p.value;
    }
  }

  lemma PrependTwice(v: seq<Value>, w: seq<Value>, p: Parsed<seq<Value>>)
    ensures Prepend(v, Prepend(w, p)) == Prepend(v + w, p)
  {
    if p.Parsed? {
      assert v + (w + p.value) == v + w + p.value;
    }
  }

  // ------------------------------------------------------------------
  // Round trip
  // ------------------------------------------------------------------

  /** The unsigned word that two's complement uses for a value. */
  function Raw(s: Scalar, v: int): (raw: nat)
    requires s.Holds(v)
    ensures raw < Pow256(s.Size()) && Interpret(s, raw) == v
  {
    Sizes();
    if v < 0 then v + Pow256(s.Size()) else v
  }

  lemma ScalarRoundTrip(t: Scalar, v: int, rest: seq<Byte>)
    requires t.Holds(v)
    ensures DecodeScalar(t, BigEndian(v, t.Size()) + rest) == Parsed(v, rest)
  {
    hide BigEndian, BigEndianValue, Interpret;
    var s, raw := BigEndian(v, t.Size()), Raw(t, v);
    BigEndianWraps(v, t.Size());
    assert s == BigEndian(raw, t.Size());
    BigEndianRoundTrip(raw, t.Size());
    assert (s + rest)[..t.Size()] == s && (s + rest)[t.Size()..] == rest;
  }

  lemma {:induction false} LittleEndianWraps(v: int, n: nat)
    ensures LittleEndian(v + Pow256(n), n) == LittleEndian(v, n)
    decreases n
  {
    if n > 0 {
      assert (v + Pow256(n)) / 256 == v / 256 + Pow256(n - 1);
      LittleEndianWraps(v / 256, n - 1);
    }
  }

  /** One element of an array in memory. */
  lemma ItemRoundTrip(e: Scalar, v: int)
    requires e.Holds(v)
    ensures Interpret(e, LittleEndianValue(LittleEndian(v, e.Size()))) == v
  {
    hide LittleEndian, LittleEndianValue, Interpret;
    var raw := Raw(e, v);
    LittleEndianWraps(v, e.Size());
    LittleEndianRoundTrip(raw, e.Size());
  }

  lemma {:induction false} ItemsRoundTrip(e: Scalar, vs: seq<int>)
    requires AllHold(e, vs)
    ensures DecodeItems(e, |vs|, EncodeItems(e, vs)) == vs
    decreases |vs|
  {
    hide LittleEndian, LittleEndianValue, Interpret, Scalar.Holds, Scalar.Size;
    if vs != [] {
      var s := EncodeItems(e, vs);
      ItemRoundTrip(e, vs[0]);
      assert s[..e.Size()] == LittleEndian(vs[0], e.Size());
      assert s[e.Size()..] == EncodeItems(e, vs[1..]);
      ItemsRoundTrip(e, vs[1..]);
    }
  }

  /** The largest byte count a value announces. */
  function ByteCount(t: ArgType, v: Value): nat
    requires Matches(t, v)
  {
    match t
    case VectorArg(e) => |v.vs| * e.Size()
    case StringArg => |v.s|
    case _ => 0
  }

  predicate CountsWithin(ts: seq<ArgType>, vs: seq<Value>, limit: nat)
    requires AllMatch(ts, vs)
  {
    forall i :: 0 <= i < |ts| ==> ByteCount(ts[i], vs[i]) <= limit
  }

  /** Byte counts are 32-bit, so the largest limit refuses nothing. */
  lemma CountsFit(ts: seq<ArgType>, vs: seq<Value>)
    requires AllMatch(ts, vs)
    ensures CountsWithin(ts, vs, U32_LIMIT)
  {
    forall i | 0 <= i < |ts|
      ensures ByteCount(ts[i], vs[i]) <= U32_LIMIT
    {
      assert Matches(ts[i], vs[i]);
    }
  }

  lemma ArgRoundTrip(t: ArgType, v: Value, rest: seq<Byte>, limit: nat)
    requires Matches(t, v) && ByteCount(t, v) <= limit
    ensures DecodeArg(t, EncodeArg(t, v) + rest, limit) == Parsed(v, rest)
  {
    hide BigEndian, BigEndianValue, DecodeScalar, EncodeItems, DecodeItems, Scalar.Holds;
    var s := EncodeArg(t, v) + rest;
    match t
    case ScalarArg(sc) =>
      ScalarRoundTrip(sc, v.v, rest);
    case ArrayArg(e, n) =>
      ItemsRoundTrip(e, v.vs);
      assert s[..n * e.Size()] == EncodeItems(e, v.vs);
      assert s[n * e.Size()..] == rest;
    case VectorArg(e) =>
      CountedRoundTrip(|v.vs| * e.Size(), EncodeItems(e, v.vs), rest);
      ItemsRoundTrip(e, v.vs);
      WholeElements(|v.vs|, e.Size());
    case StringArg =>
      CountedRoundTrip(|v.s|, v.s, rest);
  }

  lemma WholeElements(n: nat, size: nat)
    requires size > 0
    ensures n * size / size == n
  {
    DivUnique(n * size, size, n, 0);
  }

  lemma CountedRoundTrip(n: nat, body: seq<Byte>, rest: seq<Byte>)
    requires n == |body| < U32_LIMIT
    ensures var s := BigEndian(n, 4) + body + rest;
            BigEndianValue(s[..4]) == n && s[4..4 + n] == body && s[4 + n..] == rest
  {
    hide BigEndian, BigEndianValue;
    Sizes();
    BigEndianRoundTrip(n, 4);
    assert (BigEndian(n, 4) + body + rest)[..4] == BigEndian(n, 4);
  }

  /** Decoding recovers every value and stops exactly at the end of the encoding. */
  lemma {:induction false} ArgsRoundTrip(ts: seq<ArgType>, vs: seq<Value>, rest: seq<Byte>, limit: nat)
    requires AllMatch(ts, vs) && CountsWithin(ts, vs, limit)
    ensures DecodeArgs(ts, EncodeArgs(ts, vs) + rest, limit) == Parsed(vs, rest)
    decreases |ts|
  {
    hide EncodeArg, DecodeArg, ByteCount, Matches;
    if ts == [] {
      assert EncodeArgs(ts, vs) + rest == rest;
    } else {
      var tail := EncodeArgs(ts[1..], vs[1..]) + rest;
      assert EncodeArgs(ts, vs) + rest == EncodeArg(ts[0], vs[0]) + tail;
      ArgRoundTrip(ts[0], vs[0], tail, limit);
      ArgsRoundTrip(ts[1..], vs[1..], rest, limit);
      assert vs == [vs[0]] + vs[1..];
    }
  }

  // ------------------------------------------------------------------
  // What a decoder looks at
  // ------------------------------------------------------------------

  /** A successful decoding does not depend on what follows, nor on a larger byte-count limit. */
  lemma {:induction false} DecodeExtends(ts: seq<ArgType>, s: seq<Byte>, more: seq<Byte>, limit: nat, larger: nat)
    requires DecodeArgs(ts, s, limit).Parsed? && limit <= larger
    ensures DecodeArgs(ts, s + more, larger)
         == Parsed(DecodeArgs(ts, s, limit).value, DecodeArgs(ts, s, limit).rest + more)
    decreases |ts|
  {
    hide DecodeArg;
    if ts != [] {
      DecodeArgExtends(ts[0], s, more, limit, larger);
      DecodeExtends(ts[1..], DecodeArg(ts[0], s, limit).rest, more, limit, larger);
    }
  }

  /** A byte count above the limit is refused whatever follows it. */
  lemma {:induction false} RefusalExtends(ts: seq<ArgType>, s: seq<Byte>, more: seq<Byte>, limit: nat)
    requires DecodeArgs(ts, s, limit).TooLong?
    ensures DecodeArgs(ts, s + more, limit).TooLong?
    decreases |ts|
  {
    hide DecodeArg;
    if DecodeArg(ts[0], s, limit).Parsed? {
      DecodeArgExtends(ts[0], s, more, limit, limit);
      RefusalExtends(ts[1..], DecodeArg(ts[0], s, limit).rest, more, limit);
    } else {
      ArgRefusalExtends(ts[0], s, more, limit);
    }
  }

  lemma ArgRefusalExtends(t: ArgType, s: seq<Byte>, more: seq<Byte>, limit: nat)
    requires DecodeArg(t, s, limit).TooLong?
    ensures DecodeArg(t, s + more, limit).TooLong?
  {
    hide BigEndianValue, DecodeItems;
    assert (s + more)[..4] == s[..4];
  }

  lemma DecodeArgExtends(t: ArgType, s: seq<Byte>, more: seq<Byte>, limit: nat, larger: nat)
    requires DecodeArg(t, s, limit).Parsed? && limit <= larger
    ensures DecodeArg(t, s + more, larger)
         == Parsed(DecodeArg(t, s, limit).value, DecodeArg(t, s, limit).rest + more)
  {
    hide BigEndianValue, DecodeItems;
    match t
    case ScalarArg(sc) =>
      PrefixKept(s, more, 0, sc.Size());
    case ArrayArg(e, n) =>
      PrefixKept(s, more, 0, n * e.Size());
    case VectorArg(e) =>
      PrefixKept(s, more, 0, 4);
      PrefixKept(s, more, 4, 4 + BigEndianValue(s[..4]) / e.Size() * e.Size());
    case StringArg =>
      PrefixKept(s, more, 0, 4);
      PrefixKept(s, more, 4, 4 + BigEndianValue(s[..4]));
  }

  lemma PrefixKept(s: seq<Byte>, more: seq<Byte>, i: nat, j: nat)
    requires i <= j <= |s|
    ensures (s + more)[i..j] == s[i..j] && (s + more)[j..] == s[j..] + more
  {
  }
}
