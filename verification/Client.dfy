/** The Python client's side of a command: python/koheron/koheron.py. */
module Client {
  import opened Bytes
  import opened Wire
  import opened Utf8
  import opened Sockets

  type Word32 = n: nat | n < 0x1_0000_0000
  type Word64 = n: nat | n < 0x1_0000_0000_0000_0000

  /** What an argument gives when it is asked for something: a value, or an exception. */
  datatype Asked<+T> = Gives(value: T) | Refuses

  /** A numpy array: its elements in memory order, all of its element type. `length` is len(array), which
      is the first dimension only. */
  datatype Array = Array(dtype: Scalar, length: nat, items: seq<int>)
  type Memory = m: Array | AllHold(m.dtype, m.items) witness Array(U8, 0, [])

  /** What a caller passes, through all that build_payload asks of it: an integer to shift, the bit
      patterns that struct.pack makes of it as a float and as a double, its truth, its memory, its text.
      An int gives the first four, unless it is too large for a float; a str gives its truth and text. */
  datatype PyValue = PyValue(
    number: Asked<int>,
    single: Asked<Word32>,
    double: Asked<Word64>,
    truth: Asked<bool>,
    memory: Asked<Memory>,
    text: Asked<seq<CodePoint>>)

  /** A byte string, or the exception that the client raises instead. */
  datatype Payload = Bytes(s: seq<Byte>) | Raised

  // ------------------------------------------------------------------
  // Appending integers
  // ------------------------------------------------------------------

  method Append(buff: seq<Byte>, value: int, size: nat) returns (r: seq<Byte>)
    requires size == 1 || size == 2 || size == 4 || size == 8
    ensures r == buff + BigEndian(value, size)
    decreases size
  {
    hide BigEndian, Shifted;
    if size <= 4 {
      r := buff;
      var i := size;
      NoOctets(value, size);
      while i > 0
        invariant 0 <= i <= size
        invariant r == buff + BigEndian(Shifted(value, i), size - i)
      {
        i := i - 1;
        NextOctet(value, i, size - i - 1);
        r := r + [Shifted(value, i) % 256];
      }
    } else {
      r := Append(buff, value / U32_LIMIT, 4);
      r := Append(r, value, 4);
      Halves(value);
    }
  }

  lemma {:induction false} Halves(v: int)
    ensures BigEndian(v, 8) == BigEndian(v / U32_LIMIT, 4) + BigEndian(v, 4)
  {
    hide BigEndian;
    Sizes();
    BigEndianSplit(v, 4, 4);
  }

  /** value >> 8 * i */
  function Shifted(v: int, i: nat): int
  {
    v / Pow256(i)
  }

  lemma {:induction false} NoOctets(v: int, size: nat)
    ensures BigEndian(Shifted(v, size), 0) == [] && Shifted(v, 0) == v
  {
  }

  lemma {:induction false} NextOctet(v: int, i: nat, k: nat)
    ensures BigEndian(Shifted(v, i), k + 1) == BigEndian(Shifted(v, i + 1), k) + [Shifted(v, i) % 256]
  {
    DivDiv(v, Pow256(i), 256);
  }

  /** struct.unpack('>l', struct.pack('>f', f)): the bit pattern read as a signed integer. */
  function FloatToBits(bits: nat, size: nat): int
  {
    if 2 * bits >= Pow256(size) then bits - Pow256(size) else bits
  }

  // ------------------------------------------------------------------
  // Text
  // ------------------------------------------------------------------

  /** A body behind a 32-bit count. */
  function Counted(n: nat, body: seq<Byte>): (s: seq<Byte>)
  {
    BigEndian(n, 4) + body
  }

  /** What the decoder makes of a body behind a count that may be wrong. */
  lemma {:induction false} CountRead(n: nat, body: seq<Byte>, rest: seq<Byte>)
    ensures var s := Counted(n, body) + rest;
            && |s| >= 4 && BigEndianValue(s[..4]) == n % U32_LIMIT
            && s[4..] == body + rest
  {
    hide BigEndian, BigEndianValue;
    Sizes();
    BigEndianModulo(n, 4);
    BigEndianRoundTrip(n % U32_LIMIT, 4);
    assert (Counted(n, body) + rest)[..4] == BigEndian(n, 4);
  }

  /** The length prefix counts characters and the body holds octets: the server recovers the string,
      and stops where it ends, exactly for ASCII strings whose length fits the prefix. */
  lemma {:induction false} StringSurvivesIffAscii(cs: seq<CodePoint>, rest: seq<Byte>)
    ensures DecodeArg(StringArg, Counted(|cs|, EncodeText(cs)) + rest, U32_LIMIT) == Parsed(Text(EncodeText(cs)), rest)
       <==> IsAscii(cs) && |cs| < U32_LIMIT
  {
    hide BigEndianValue, EncodeText, Counted, DecodeArg, IsAscii;
    var body := EncodeText(cs);
    TextLength(cs);
    CountRead(|cs|, body, rest);
    StringBehindCount(Counted(|cs|, body) + rest, U32_LIMIT);
    if |cs| % U32_LIMIT == |body| {
      assert (body + rest)[..|body|] == body && (body + rest)[|body|..] == rest;
    }
  }

  // ------------------------------------------------------------------
  // Payloads
  // ------------------------------------------------------------------

  /** The client can encode the argument for this parameter: everything asked of it is answered, and an
      array has the right length and element type. */
  predicate Takes(t: ArgType, a: PyValue)
  {
    match t
    case ScalarArg(Bool) => a.truth.Gives?
    case ScalarArg(F32) => a.single.Gives?
    case ScalarArg(F64) => a.double.Gives?
    case ScalarArg(_) => a.number.Gives?
    case ArrayArg(e, n) => a.memory.Gives? && a.memory.value.length == n && a.memory.value.dtype == e
    case VectorArg(e) => a.memory.Gives? && a.memory.value.dtype == e
    case StringArg => a.text.Gives?
  }

  /** The value of the type that an integer wraps around to. */
  function Wrapped(s: Scalar, v: int): (w: int)
  {
    Interpret(s, v % Pow256(s.Size()))
  }

  /** The typed value an argument stands for. */
  function Meaning(t: ArgType, a: PyValue): Value
    requires Takes(t, a)
  {
    match t
    case ScalarArg(Bool) => Number(if a.truth.value then 1 else 0)
    case ScalarArg(F32) => Number(a.single.value)
    case ScalarArg(F64) => Number(a.double.value)
    case ScalarArg(s) => Number(Wrapped(s, a.number.value))
    case StringArg => Text(EncodeText(a.text.value))
    case _ => Items(a.memory.value.items)
  }

  /** The octets of one argument, or an exception. A scalar is the wire encoding of its meaning. The count
      before a vector is its octets, the count before a string is its characters. */
  function ArgBytes(t: ArgType, a: PyValue): Payload
  {
    if !Takes(t, a) then Raised
    else match t
      case ScalarArg(s) => ScalarSuits(s, a); Bytes(EncodeArg(t, Meaning(t, a)))
      case ArrayArg(e, n) => Bytes(EncodeItems(e, a.memory.value.items))
      case VectorArg(e) => Bytes(Counted(|a.memory.value.items| * e.Size(), EncodeItems(e, a.memory.value.items)))
      case StringArg => Bytes(Counted(|a.text.value|, EncodeText(a.text.value)))
  }

  lemma {:induction false} ScalarSuits(s: Scalar, a: PyValue)
    requires Takes(ScalarArg(s), a)
    ensures Matches(ScalarArg(s), Meaning(ScalarArg(s), a))
  {
    Sizes();
    if a.number.Gives? {
      WrappedHolds(s, a.number.value);
    }
  }

  lemma {:induction false} WrappedHolds(s: Scalar, v: int)
    ensures s.Holds(Wrapped(s, v))
    ensures !s.Bool? ==> BigEndian(Wrapped(s, v), s.Size()) == BigEndian(v, s.Size())
  {
    hide BigEndian;
    var n := s.Size();
    BigEndianModulo(v, n);
    BigEndianWraps(v % Pow256(n) - Pow256(n), n);
  }

  function PayloadOf(ts: seq<ArgType>, args: seq<PyValue>): Payload
    requires |ts| == |args|
  {
    if ts == [] then Bytes([])
    else
      var rest := PayloadOf(ts[..|ts| - 1], args[..|ts| - 1]);
      var last := ArgBytes(ts[|ts| - 1], args[|ts| - 1]);
      if rest.Bytes? && last.Bytes? then Bytes(rest.s + last.s) else Raised
  }

  method BuildPayload(ts: seq<ArgType>, args: seq<PyValue>) returns (r: Payload)
    ensures r == if |ts| == |args| then PayloadOf(ts, args) else Raised
    ensures r.Bytes? <==> AllTake(ts, args)
  {
    hide BigEndian, EncodeText, EncodeItems, FloatToBits;
    if |ts| != |args| {
      return Raised;
    }
    var payload: seq<Byte> := [];
    for i := 0 to |ts|
      invariant PayloadOf(ts[..i], args[..i]) == Bytes(payload)
    {
      assert ts[..i + 1][..i] == ts[..i] && args[..i + 1][..i] == args[..i];
      var one := AppendArg(ts[i], args[i]);
      if one.Raised? {
        RaisedOnce(ts, args);
        return Raised;
      }
      payload := payload + one.s;
    }
    assert ts[..|ts|] == ts && args[..|ts|] == args;
    RaisedOnce(ts, args);
    r := Bytes(payload);
  }

  /** An exception in one argument is the result of the whole call. */
  lemma {:induction false} RaisedOnce(ts: seq<ArgType>, args: seq<PyValue>)
    requires |ts| == |args|
    ensures PayloadOf(ts, args).Bytes? <==> AllTake(ts, args)
    decreases |ts|
  {
    hide Takes, EncodeArg, EncodeItems, EncodeText;
    if ts != [] {
      var k := |ts| - 1;
      RaisedOnce(ts[..k], args[..k]);
      assert AllTake(ts, args) <==> AllTake(ts[..k], args[..k]) && Takes(ts[k], args[k]);
    }
  }

  /** The branch of build_payload taken for one argument: an exception exactly when the argument does not
      fit the parameter, and for a suitable argument the wire encoding of the value it stands for. */
  method AppendArg(t: ArgType, a: PyValue) returns (r: Payload)
    ensures r == ArgBytes(t, a)
    ensures r.Raised? <==> !Takes(t, a)
    ensures Suits(t, a) ==> r == Bytes(EncodeArg(t, Meaning(t, a)))
  {
    hide BigEndian, EncodeText, EncodeItems, FloatToBits, Wrapped;
    if Suits(t, a) {
      ArgBytesAreWire(t, a);
    }
    match t {
      case ScalarArg(s) =>
        r := AppendScalar(s, a);
      case ArrayArg(e, n) =>
        if a.memory.Refuses? || n != a.memory.value.length {
          return Raised;
        }
        r := if a.memory.value.dtype != e then Raised else Bytes(EncodeItems(e, a.memory.value.items));
      case VectorArg(e) =>
        if a.memory.Refuses? || a.memory.value.dtype != e {
          return Raised;
        }
        var body := EncodeItems(e, a.memory.value.items);
        var count := Append([], |body|, 4);
        r := Bytes(count + body);
      case StringArg =>
        if a.text.Refuses? {
          return Raised;
        }
        var count := Append([], |a.text.value|, 4);
        r := Bytes(count + EncodeText(a.text.value));
    }
  }

  method AppendScalar(s: Scalar, a: PyValue) returns (r: Payload)
    ensures r.Raised? <==> !Takes(ScalarArg(s), a)
    ensures r.Bytes? ==>
              && Matches(ScalarArg(s), Meaning(ScalarArg(s), a))
              && r.s == EncodeArg(ScalarArg(s), Meaning(ScalarArg(s), a))
  {
    hide BigEndian, FloatToBits, Wrapped;
    var octets;
    if s == Bool {
      if a.truth.Refuses? {
        return Raised;
      }
      if a.truth.value {
        octets := Append([], 1, 1);
      } else {
        octets := Append([], 0, 1);
      }
    } else if s == F32 {
      if a.single.Refuses? {
        return Raised;
      }
      PatternIsKept(a.single.value, 4);
      octets := Append([], FloatToBits(a.single.value, 4), 4);
    } else if s == F64 {
      if a.double.Refuses? {
        return Raised;
      }
      PatternIsKept(a.double.value, 8);
      octets := Append([], FloatToBits(a.double.value, 8), 8);
    } else {
      if a.number.Refuses? {
        return Raised;
      }
      WrappedHolds(s, a.number.value);
      octets := Append([], a.number.value, s.Size());
    }
    ScalarSuits(s, a);
    r := Bytes(octets);
  }

  /** Reading the bit pattern as a signed number does not change its octets. */
  lemma {:induction false} PatternIsKept(bits: nat, n: nat)
    ensures BigEndian(FloatToBits(bits, n), n) == BigEndian(bits, n)
  {
    BigEndianWraps(bits - Pow256(n), n);
  }

  // ------------------------------------------------------------------
  // The client speaks the wire format
  // ------------------------------------------------------------------

  /** Arguments that fit the parameter, and for arrays and strings whose length the client counts right. */
  predicate Suits(t: ArgType, a: PyValue)
  {
    && Takes(t, a) && Matches(t, Meaning(t, a))
    && (t.StringArg? ==> IsAscii(a.text.value))
  }

  predicate AllTake(ts: seq<ArgType>, args: seq<PyValue>)
  {
    |ts| == |args| && forall i :: 0 <= i < |ts| ==> Takes(ts[i], args[i])
  }

  function Meanings(ts: seq<ArgType>, args: seq<PyValue>): (vs: seq<Value>)
    requires AllTake(ts, args)
    ensures |vs| == |ts| && forall i :: 0 <= i < |ts| ==> vs[i] == Meaning(ts[i], args[i])
  {
    seq(|ts|, i requires 0 <= i < |ts| => Meaning(ts[i], args[i]))
  }

  predicate AllSuit(ts: seq<ArgType>, args: seq<PyValue>)
  {
    AllTake(ts, args) && forall i :: 0 <= i < |ts| ==> Suits(ts[i], args[i])
  }

  lemma {:induction false} ArgBytesAreWire(t: ArgType, a: PyValue)
    requires Suits(t, a)
    ensures ArgBytes(t, a) == Bytes(EncodeArg(t, Meaning(t, a)))
  {
    hide BigEndian, EncodeText, EncodeItems;
    if t.StringArg? {
      TextLength(a.text.value);
    }
  }

  lemma {:induction false} EncodeArgsAppends(ts: seq<ArgType>, vs: seq<Value>, t: ArgType, v: Value)
    requires AllMatch(ts, vs) && Matches(t, v)
    ensures AllMatch(ts + [t], vs + [v])
    ensures EncodeArgs(ts + [t], vs + [v]) == EncodeArgs(ts, vs) + EncodeArg(t, v)
    decreases |ts|
  {
    hide Matches, EncodeArg;
    if ts == [] {
      assert ts + [t] == [t] && vs + [v] == [v];
      assert EncodeArgs([t][1..], [v][1..]) == [];
    } else {
      assert (ts + [t])[1..] == ts[1..] + [t] && (vs + [v])[1..] == vs[1..] + [v];
      EncodeArgsAppends(ts[1..], vs[1..], t, v);
    }
  }

  /** For every signature and every suitable argument list the client emits the wire encoding. */
  lemma {:induction false} PayloadIsWire(ts: seq<ArgType>, args: seq<PyValue>)
    requires AllSuit(ts, args)
    ensures AllMatch(ts, Meanings(ts, args))
    ensures PayloadOf(ts, args) == Bytes(EncodeArgs(ts, Meanings(ts, args)))
    decreases |ts|
  {
    hide ArgBytes, Matches, EncodeArg, Meaning, Takes, IsAscii;
    if ts != [] {
      var k := |ts| - 1;
      PayloadIsWire(ts[..k], args[..k]);
      ArgBytesAreWire(ts[k], args[k]);
      var vs := Meanings(ts[..k], args[..k]);
      EncodeArgsAppends(ts[..k], vs, ts[k], Meaning(ts[k], args[k]));
      assert ts == ts[..k] + [ts[k]];
      assert Meanings(ts, args) == vs + [Meaning(ts[k], args[k])];
    }
  }

  lemma {:induction false} PayloadFromFront(ts: seq<ArgType>, args: seq<PyValue>)
    requires AllTake(ts, args) && ts != []
    ensures ArgBytes(ts[0], args[0]).Bytes? && AllTake(ts[1..], args[1..])
    ensures PayloadOf(ts, args).Bytes? && PayloadOf(ts[1..], args[1..]).Bytes?
    ensures PayloadOf(ts, args).s == ArgBytes(ts[0], args[0]).s + PayloadOf(ts[1..], args[1..]).s
    decreases |ts|
  {
    hide Takes, ArgBytes, PayloadOf;
    var k := |ts| - 1;
    PayloadStep(ts, args);
    FirstTakes(ts, args);
    RaisedOnce(ts[1..], args[1..]);
    if k == 0 {
      NoPayload(ts[..0], args[..0]);
      NoPayload(ts[1..], args[1..]);
    } else {
      PayloadFromFront(ts[..k], args[..k]);
      PayloadStep(ts[1..], args[1..]);
      assert ts[..k][1..] == ts[1..][..k - 1] && args[..k][1..] == args[1..][..k - 1];
    }
  }

  lemma {:induction false} NoPayload(ts: seq<ArgType>, args: seq<PyValue>)
    requires |ts| == |args| == 0
    ensures PayloadOf(ts, args) == Bytes([])
  {
  }

  lemma {:induction false} FirstTakes(ts: seq<ArgType>, args: seq<PyValue>)
    requires AllTake(ts, args) && ts != []
    ensures ArgBytes(ts[0], args[0]).Bytes? && AllTake(ts[1..], args[1..])
  {
    hide Takes, EncodeArg, EncodeItems, EncodeText;
    assert Takes(ts[0], args[0]);
  }

  /** The last argument's octets come last. */
  lemma {:induction false} PayloadStep(ts: seq<ArgType>, args: seq<PyValue>)
    requires AllTake(ts, args) && ts != []
    ensures var k := |ts| - 1;
            && AllTake(ts[..k], args[..k]) && PayloadOf(ts, args).Bytes? && PayloadOf(ts[..k], args[..k]).Bytes?
            && ArgBytes(ts[k], args[k]).Bytes?
            && PayloadOf(ts, args).s == PayloadOf(ts[..k], args[..k]).s + ArgBytes(ts[k], args[k]).s
  {
    hide Takes, EncodeArg, EncodeItems, EncodeText;
    RaisedOnce(ts, args);
  }

  /** Each argument's octets lie behind those of the arguments before it. */
  lemma {:induction false} PayloadHolds(ts: seq<ArgType>, args: seq<PyValue>, j: nat)
    requires AllTake(ts, args) && j < |ts|
    ensures PayloadOf(ts, args).Bytes? && PayloadOf(ts[..j], args[..j]).Bytes? && ArgBytes(ts[j], args[j]).Bytes?
    ensures PayloadOf(ts[..j], args[..j]).s + ArgBytes(ts[j], args[j]).s <= PayloadOf(ts, args).s
    decreases |ts|
  {
    hide Takes, ArgBytes, PayloadOf;
    var k := |ts| - 1;
    PayloadStep(ts, args);
    if j < k {
      PayloadHolds(ts[..k], args[..k], j);
      assert ts[..k][..j] == ts[..j] && args[..k][..j] == args[..j];
    }
  }

  /** The elements of an array or vector argument, anywhere in the payload: lowest octet first. */
  lemma {:induction false} PayloadItemOctet(ts: seq<ArgType>, args: seq<PyValue>, j: nat, i: nat, k: nat)
    requires AllTake(ts, args) && j < |ts| && (ts[j].ArrayArg? || ts[j].VectorArg?)
    requires args[j].memory.Gives? && i < |args[j].memory.value.items| && k < ts[j].elem.Size()
    ensures PayloadOf(ts, args).Bytes? && PayloadOf(ts[..j], args[..j]).Bytes?
    ensures var at := |PayloadOf(ts[..j], args[..j]).s| + ItemPlace(ts[j], i, k);
            at < |PayloadOf(ts, args).s| && PayloadOf(ts, args).s[at] == args[j].memory.value.items[i] / Pow256(k) % 256
  {
    hide PayloadOf, ArgBytes, Takes, ItemPlace, Pow256;
    assert Takes(ts[j], args[j]);
    PayloadHolds(ts, args, j);
    ArgBytesItemOctet(ts[j], args[j], i, k);
    var p, one := PayloadOf(ts[..j], args[..j]).s, ArgBytes(ts[j], args[j]).s;
    assert PayloadOf(ts, args).s[|p| + ItemPlace(ts[j], i, k)] == (p + one)[|p| + ItemPlace(ts[j], i, k)];
  }

  lemma {:induction false} ArgBytesItemOctet(t: ArgType, a: PyValue, i: nat, k: nat)
    requires Takes(t, a) && (t.ArrayArg? || t.VectorArg?)
    requires i < |a.memory.value.items| && k < t.elem.Size()
    ensures ArgBytes(t, a).Bytes? && ItemPlace(t, i, k) < |ArgBytes(t, a).s|
    ensures ArgBytes(t, a).s[ItemPlace(t, i, k)] == a.memory.value.items[i] / Pow256(k) % 256
  {
    hide EncodeItems, BigEndian, Pow256;
    ItemOctet(t.elem, a.memory.value.items, i, k);
  }

  /** An unsuitable argument is never read back as what it stands for. */
  lemma {:induction false} UnsuitableIsMisread(t: ArgType, a: PyValue, rest: seq<Byte>)
    requires Takes(t, a) && !Suits(t, a)
    ensures var one := DecodeArg(t, ArgBytes(t, a).s + rest, U32_LIMIT);
            one.Parsed? ==> one.value != Meaning(t, a)
  {
    hide BigEndian, BigEndianValue, EncodeText, EncodeItems, DecodeItems, Counted;
    match t
    case ScalarArg(s) => ScalarSuits(s, a);
    case ArrayArg(e, n) =>
    case VectorArg(e) =>
      var items := a.memory.value.items;
      CountRead(|items| * e.Size(), EncodeItems(e, items), rest);
      FewerElements(|items|, e.Size());
    case StringArg =>
      TextLength(a.text.value);
      CountRead(|a.text.value|, EncodeText(a.text.value), rest);
  }

  lemma {:induction false} FewerElements(n: nat, size: nat)
    requires size > 0 && n * size >= U32_LIMIT
    ensures n * size % U32_LIMIT / size < n
  {
    var count := n * size % U32_LIMIT;
    assert count / size * size <= count;
    if count / size >= n {
      Monotone(size, n, count / size);
    }
  }

  /** Exactly the suitable argument lists survive: the decoder recovers what the caller meant, and the end
      of the payload, if and only if no array has a second dimension, no byte count needs more than 32
      bits and every string is ASCII. */
  lemma {:induction false} PayloadSurvivesIffSuitable(ts: seq<ArgType>, args: seq<PyValue>, rest: seq<Byte>)
    requires AllTake(ts, args)
    ensures PayloadOf(ts, args).Bytes?
    ensures DecodeArgs(ts, PayloadOf(ts, args).s + rest, U32_LIMIT) == Parsed(Meanings(ts, args), rest)
       <==> AllSuit(ts, args)
    decreases |ts|
  {
    hide Takes, Suits, ArgBytes, Meaning, DecodeArg, PayloadOf;
    RaisedOnce(ts, args);
    if AllSuit(ts, args) {
      PayloadIsWire(ts, args);
      CountsFit(ts, Meanings(ts, args));
      ArgsRoundTrip(ts, Meanings(ts, args), rest, U32_LIMIT);
    } else {
      PayloadFromFront(ts, args);
      var tail := PayloadOf(ts[1..], args[1..]).s + rest;
      assert PayloadOf(ts, args).s + rest == ArgBytes(ts[0], args[0]).s + tail;
      if Suits(ts[0], args[0]) {
        SuitableIsRead(ts[0], args[0], tail);
        SuitRest(ts, args);
        PayloadSurvivesIffSuitable(ts[1..], args[1..], rest);
        assert Meanings(ts, args) == [Meaning(ts[0], args[0])] + Meanings(ts[1..], args[1..]);
        var others := DecodeArgs(ts[1..], tail, U32_LIMIT);
        if Prepend([Meaning(ts[0], args[0])], others) == Parsed(Meanings(ts, args), rest) {
          PrependCancels(Meaning(ts[0], args[0]), others, Meanings(ts[1..], args[1..]), rest);
        }
      } else {
        UnsuitableIsMisread(ts[0], args[0], tail);
        assert Meanings(ts, args)[0] == Meaning(ts[0], args[0]);
      }
    }
  }

  lemma {:induction false} PrependCancels(v: Value, p: Parsed<seq<Value>>, vs: seq<Value>, rest: seq<Byte>)
    requires Prepend([v], p) == Parsed([v] + vs, rest)
    ensures p == Parsed(vs, rest)
  {
    assert p.value == ([v] + p.value)[1..] && vs == ([v] + vs)[1..];
  }

  lemma {:induction false} SuitRest(ts: seq<ArgType>, args: seq<PyValue>)
    requires AllTake(ts, args) && ts != [] && Suits(ts[0], args[0])
    ensures AllSuit(ts, args) <==> AllSuit(ts[1..], args[1..])
  {
    hide Suits, Takes;
    if AllSuit(ts[1..], args[1..]) {
      forall i | 0 <= i < |ts|
        ensures Suits(ts[i], args[i])
      {
        if i > 0 {
          assert Suits(ts[1..][i - 1], args[1..][i - 1]);
        }
      }
    }
  }

  lemma {:induction false} SuitableIsRead(t: ArgType, a: PyValue, rest: seq<Byte>)
    requires Suits(t, a)
    ensures ArgBytes(t, a).Bytes?
    ensures DecodeArg(t, ArgBytes(t, a).s + rest, U32_LIMIT) == Parsed(Meaning(t, a), rest)
  {
    hide DecodeArg, EncodeArg;
    ArgBytesAreWire(t, a);
    ArgRoundTrip(t, Meaning(t, a), rest, U32_LIMIT);
  }

  /** The argument list of a command, unless it is left out altogether. */
  datatype Arguments = NoList | List(ts: seq<ArgType>, args: seq<PyValue>)

  /** Reserved word, driver, operation, and the payload, or eight zero octets without an argument list. */
  function CommandOf(driver: int, operation: int, arguments: Arguments): Payload
  {
    match arguments
    case NoList => Bytes(CommandHeader(driver, operation) + BigEndian(0, 8))
    case List(ts, args) =>
      if |ts| == |args| && PayloadOf(ts, args).Bytes? then Bytes(CommandHeader(driver, operation) + PayloadOf(ts, args).s)
      else Raised
  }

  method MakeCommand(driver: int, operation: int, arguments: Arguments) returns (r: Payload)
    ensures r == CommandOf(driver, operation, arguments)
  {
    hide BigEndian, PayloadOf;
    var buff := Append([], 0, 4);
    buff := Append(buff, driver, 2);
    buff := Append(buff, operation, 2);
    match arguments {
      case List(ts, args) =>
        var payload := BuildPayload(ts, args);
        r := if payload.Raised? then Raised else Bytes(buff + payload.s);
      case NoList =>
        buff := Append(buff, 0, 8);
        r := Bytes(buff);
    }
  }

  /** One call of sock.send: it may take only a part of the command, and only a result of zero, or an
      exception of its own, is noticed. */
  method SendCommand(sock: Socket, driver: int, operation: int, ts: seq<ArgType>, args: seq<PyValue>)
    returns (ok: bool, taken: nat)
    modifies sock`written
    ensures var cmd := CommandOf(driver, operation, List(ts, args));
            && (cmd.Raised? ==> !ok && taken == 0 && sock.written == old(sock.written))
            && (cmd.Bytes? ==> taken <= |cmd.s| && sock.written == old(sock.written) + cmd.s[..taken])
            && (ok <==> taken > 0)
  {
    hide CommandOf;
    ok, taken := false, 0;
    var cmd := MakeCommand(driver, operation, List(ts, args));
    if cmd.Raised? {
      return;
    }
    var n := sock.Write(cmd.s);
    if n > 0 {
      ok, taken := true, n;
    }
  }
}
