/**
 WebSocket frames: the layout of sections 5.2 and 5.3 of RFC 6455, and which frames the server takes
 from a stream.
 */
module Frames {
  import opened Bytes
  import opened Commands

  const SMALL_STREAM := 125
  const MEDIUM_STREAM := 126
  const BIG_STREAM := 127

  const TEXT_FRAME := 1
  const BINARY_FRAME := 2
  const CONNECTION_CLOSE := 8

  const WEBSOCK_READ_STR_LEN := 262144
  const KOHERON_READ_STR_LEN := 16384
  const MAX_PAYLOAD := WEBSOCK_READ_STR_LEN - 56

  const TWO63 := 0x8000_0000_0000_0000

  // ------------------------------------------------------------------
  // Layout
  // ------------------------------------------------------------------

  datatype LengthForm = Small | Medium | Big {
    /** Octets before the masking key. */
    function Offset(): nat {
      match this case Small => 2 case Medium => 4 case Big => 10
    }

    predicate Fits(n: nat) {
      match this case Small => n <= SMALL_STREAM case Medium => n < 0x1_0000 case Big => n < TWO63
    }
  }

  /** The shortest form that holds a length. */
  function MinimalForm(n: nat): LengthForm
  {
    if n <= SMALL_STREAM then Small else if n < 0x1_0000 then Medium else Big
  }

  /** The seven length bits and the extended length. */
  function LengthField(form: LengthForm, n: nat, high: Byte): (s: seq<Byte>)
    requires form.Fits(n) && high in {0, 128}
    ensures |s| == form.Offset() - 1
  {
    match form
    case Small => [high + n]
    case Medium => [high + MEDIUM_STREAM] + BigEndian(n, 2)
    case Big => [high + BIG_STREAM] + BigEndian(n, 8)
  }

  /** The length form announced by the second octet of a frame. */
  function FormOf(second: Byte): LengthForm
  {
    var code := second % 128;
    if code <= SMALL_STREAM then Small else if code == MEDIUM_STREAM then Medium else Big
  }

  /** The payload length announced by a frame header. */
  function LengthOf(s: seq<Byte>): nat
    requires |s| >= 2 && |s| >= FormOf(s[1]).Offset()
  {
    match FormOf(s[1])
    case Small => s[1] % 128
    case Medium => BigEndianValue(s[2..4])
    case Big => BigEndianValue(s[2..10])
  }

  /** Reading a length field back gives the length and the place where it ends. */
  lemma LengthRoundTrip(form: LengthForm, n: nat, first: Byte, high: Byte, rest: seq<Byte>)
    requires form.Fits(n) && high in {0, 128}
    ensures var s := [first] + LengthField(form, n, high) + rest;
            FormOf(s[1]) == form && LengthOf(s) == n
  {
    hide BigEndian, BigEndianValue;
    var s := [first] + LengthField(form, n, high) + rest;
    match form
    case Small =>
    case Medium =>
      Sizes();
      BigEndianRoundTrip(n, 2);
      assert s[2..4] == BigEndian(n, 2);
    case Big =>
      Sizes();
      BigEndianRoundTrip(n, 8);
      assert s[2..10] == BigEndian(n, 8);
  }

  /** Section 5.3: octet `i` is combined with octet `i` modulo 4 of the key, both to mask and to unmask. */
  function Masked(data: seq<Byte>, key: seq<Byte>): (s: seq<Byte>)
    requires |key| == 4
    ensures |s| == |data|
    ensures forall i :: 0 <= i < |s| ==> s[i] == Xor(data[i], key[i % 4])
  {
    seq(|data|, i requires 0 <= i < |data| => Xor(data[i], key[i % 4]))
  }

  /** Bit `k` of a masked octet differs from the data exactly where the key has a one. */
  lemma MaskedBit(data: seq<Byte>, key: seq<Byte>, i: nat, k: nat)
    requires |key| == 4 && i < |data| && k < 8
    ensures Masked(data, key)[i] / Pow2(k) % 2 == (data[i] / Pow2(k) + key[i % 4] / Pow2(k)) % 2
  {
    hide Xor;
    XorIsBitwise(data[i], key[i % 4], k);
  }

  lemma UnmaskingUndoesMasking(data: seq<Byte>, key: seq<Byte>)
    requires |key| == 4
    ensures Masked(Masked(data, key), key) == data
  {
    hide Xor;
    var s := Masked(Masked(data, key), key);
    forall i | 0 <= i < |data|
      ensures s[i] == data[i]
    {
      XorInvolution(data[i], key[i % 4]);
    }
  }

  /** A frame from a client. The server ignores the FIN, reserved and MASK bits, so they are free. */
  datatype Frame = Frame(first: Byte, maskBit: bool, form: LengthForm, key: seq<Byte>, payload: seq<Byte>) {
    predicate Valid() {
      |key| == 4 && form.Fits(|payload|)
    }

    function HeaderLength(): nat {
      form.Offset() + 4
    }
  }

  function Encode(f: Frame): (s: seq<Byte>)
    requires f.Valid()
    ensures |s| == f.HeaderLength() + |f.payload|
  {
    [f.first] + LengthField(f.form, |f.payload|, if f.maskBit then 128 else 0) + f.key + Masked(f.payload, f.key)
  }

  /** An unmasked, final, binary frame with the minimal length form: what the server sends. */
  function ServerFrame(payload: seq<Byte>): (s: seq<Byte>)
    requires |payload| < TWO63
    ensures |s| == MinimalForm(|payload|).Offset() + |payload|
  {
    [128 + BINARY_FRAME] + LengthField(MinimalForm(|payload|), |payload|, 0) + payload
  }

  /** A reader of the standard finds the sent payload, at the offset and with the length announced, and
      no shorter length form would hold it. */
  lemma ServerFrameIsReadable(payload: seq<Byte>, rest: seq<Byte>, other: LengthForm)
    requires |payload| < TWO63
    ensures var s := ServerFrame(payload) + rest;
            var offset := FormOf(s[1]).Offset();
            && s[0] == 0x82 && s[1] < 128 && LengthOf(s) == |payload|
            && s[offset..offset + |payload|] == payload && s[offset + |payload|..] == rest
            && (other.Fits(|payload|) ==> offset <= other.Offset())
  {
    hide LengthOf;
    var form := MinimalForm(|payload|);
    var field := LengthField(form, |payload|, 0);
    LengthRoundTrip(form, |payload|, 0x82, 0, payload + rest);
    assert ServerFrame(payload) + rest == [0x82] + field + (payload + rest);
    assert field[0] < 128;
  }

  // ------------------------------------------------------------------
  // What the server takes from a stream
  // ------------------------------------------------------------------

  /** Reading a frame header: the stream may end first, the peer may close, or the header may be refused. */
  datatype HeaderOutcome =
    | HeaderEnded
    | HeaderClose
    | HeaderRefused
    | HeaderRead(form: LengthForm, length: int)

  function ReadHeader(s: seq<Byte>): HeaderOutcome
  {
    if |s| < 6 then HeaderEnded
    else if s[0] % 16 == CONNECTION_CLOSE then HeaderClose
    else if s[0] % 16 != TEXT_FRAME && s[0] % 16 != BINARY_FRAME then HeaderRefused
    else if |s| < FormOf(s[1]).Offset() + 4 then HeaderEnded
    else
      // A 64-bit length is stored in a signed integer.
      var n := LengthOf(s);
      var length := if n < TWO63 then n else n - 2 * TWO63;
      if length > MAX_PAYLOAD then HeaderRefused
      else HeaderRead(FormOf(s[1]), length)
  }

  datatype Outcome =
    | Ended
    | Closed
    | Refused
    | Delivered(command: seq<Byte>, rest: seq<Byte>)

  /** One command from a stream. */
  function Receive(s: seq<Byte>): Outcome
  {
    match ReadHeader(s)
    case HeaderEnded => Ended
    case HeaderClose => Closed
    case HeaderRefused => Refused
    case HeaderRead(form, length) =>
      var start := form.Offset() + 4;
      if length <= 0 then Refused
      else if |s| < start + length then Ended
      else if start + length == KOHERON_READ_STR_LEN then Refused
      else if length < COMMAND_HEADER_SIZE then Refused
      else Delivered(Masked(s[start..start + length], s[start - 4..start]), s[start + length..])
  }

  /** The frames the server turns into a command. */
  predicate Acceptable(f: Frame)
  {
    && f.Valid()
    && (f.first % 16 == TEXT_FRAME || f.first % 16 == BINARY_FRAME)
    && COMMAND_HEADER_SIZE <= |f.payload| <= MAX_PAYLOAD
    && f.HeaderLength() + |f.payload| != KOHERON_READ_STR_LEN
  }

  lemma FrameHeader(f: Frame, s: seq<Byte>)
    requires f.Valid() && f.HeaderLength() <= |s| && s[..f.HeaderLength()] == Encode(f)[..f.HeaderLength()]
    ensures s[0] == f.first && FormOf(s[1]) == f.form && LengthOf(s) == |f.payload|
    ensures s[f.form.Offset()..f.HeaderLength()] == f.key
  {
    hide LengthField, FormOf, LengthOf;
    var field := LengthField(f.form, |f.payload|, if f.maskBit then 128 else 0);
    var e := Encode(f);
    var k := f.form.Offset();
    assert e[..k] == [f.first] + field;
    assert s[..k] == s[..f.HeaderLength()][..k] == e[..f.HeaderLength()][..k] == e[..k];
    assert s == [f.first] + field + s[k..] by {
      assert s == s[..k] + s[k..];
    }
    LengthRoundTrip(f.form, |f.payload|, f.first, if f.maskBit then 128 else 0, s[k..]);
    forall i | k <= i < k + 4
      ensures s[i] == f.key[i - k]
    {
      assert s[i] == s[..k + 4][i] == e[..k + 4][i] == e[i];
    }
  }

  /** A complete frame is delivered exactly when it is acceptable; then the command is its unmasked
      payload and reading stops at the first octet of whatever follows. */
  lemma FrameIsReceived(f: Frame, rest: seq<Byte>)
    requires f.Valid()
    ensures Receive(Encode(f) + rest).Delivered? <==> Acceptable(f)
    ensures Acceptable(f) ==> Receive(Encode(f) + rest) == Delivered(f.payload, rest)
  {
    hide Masked, LengthOf, FormOf, LengthField;
    var s := Encode(f) + rest;
    var start, n := f.HeaderLength(), |f.payload|;
    FrameHeader(f, s);
    assert s[start..start + n] == Masked(f.payload, f.key);
    assert s[start + n..] == rest;
    UnmaskingUndoesMasking(f.payload, f.key);
  }

  /** A stream that ends anywhere inside a frame yields no command, and is reported as ended if the frame
      was acceptable. */
  lemma TruncatedFrameEnds(f: Frame, k: nat)
    requires f.Valid() && k < |Encode(f)|
    ensures !Receive(Encode(f)[..k]).Delivered?
    ensures Acceptable(f) ==> Receive(Encode(f)[..k]) == Ended
  {
    hide Masked, LengthOf, LengthField;
    var s := Encode(f)[..k];
    if f.HeaderLength() <= k {
      FrameHeader(f, s);
    } else if k >= 6 {
      FrameHeader(f, Encode(f));
    }
  }

  /** Whatever is delivered was a complete acceptable frame at the front of the stream. */
  lemma DeliveredWasAFrame(s: seq<Byte>) returns (f: Frame)
    requires Receive(s).Delivered?
    ensures Acceptable(f) && s == Encode(f) + Receive(s).rest && f.payload == Receive(s).command
  {
    hide Masked, BigEndian, BigEndianValue, LengthField;
    var form := FormOf(s[1]);
    var start, n := form.Offset() + 4, LengthOf(s);
    LengthBound(s);
    FormFits(s);
    LengthFieldOf(s);
    var key, data := s[start - 4..start], s[start..start + n];
    f := Frame(s[0], s[1] >= 128, form, key, Masked(data, key));
    UnmaskingUndoesMasking(data, key);
    SlicesJoin(s, start - 4, start, start + n);
  }

  lemma SlicesJoin(s: seq<Byte>, i: nat, j: nat, k: nat)
    requires 1 <= i <= j <= k <= |s|
    ensures s == [s[0]] + s[1..i] + s[i..j] + s[j..k] + s[k..]
  {
  }

  lemma LengthBound(s: seq<Byte>)
    requires |s| >= 2 && |s| >= FormOf(s[1]).Offset()
    ensures LengthOf(s) < 2 * TWO63
  {
    hide BigEndianValue;
    Sizes();
    match FormOf(s[1])
    case Small =>
    case Medium => BigEndianBound(s[2..4]);
    case Big => BigEndianBound(s[2..10]);
  }

  lemma FormFits(s: seq<Byte>)
    requires |s| >= 2 && |s| >= FormOf(s[1]).Offset() && LengthOf(s) < TWO63
    ensures FormOf(s[1]).Fits(LengthOf(s))
  {
    hide BigEndianValue;
    Sizes();
    if FormOf(s[1]).Medium? {
      BigEndianBound(s[2..4]);
    }
  }

  lemma LengthFieldOf(s: seq<Byte>)
    requires |s| >= 2 && |s| >= FormOf(s[1]).Offset() && FormOf(s[1]).Fits(LengthOf(s))
    ensures LengthField(FormOf(s[1]), LengthOf(s), if s[1] >= 128 then 128 else 0) == s[1..FormOf(s[1]).Offset()]
  {
    hide BigEndian, BigEndianValue;
    var n := FormOf(s[1]).Offset();
    assert s[1..n] == [s[1]] + s[2..n];
    match FormOf(s[1])
    case Small =>
    case Medium => BigEndianInverse(s[2..4]);
    case Big => BigEndianInverse(s[2..10]);
  }

  // ------------------------------------------------------------------
  // Whole streams
  // ------------------------------------------------------------------

  predicate AllValid(fs: seq<Frame>)
  {
    forall i :: 0 <= i < |fs| ==> fs[i].Valid()
  }

  function EncodeAll(fs: seq<Frame>): (s: seq<Byte>)
    requires AllValid(fs)
  {
    if fs == [] then [] else Encode(fs[0]) + EncodeAll(fs[1..])
  }

  function Payloads(fs: seq<Frame>): (ps: seq<seq<Byte>>)
    ensures |ps| == |fs| && forall i :: 0 <= i < |fs| ==> ps[i] == fs[i].payload
  {
    seq(|fs|, i requires 0 <= i < |fs| => fs[i].payload)
  }

  lemma DeliveryConsumes(s: seq<Byte>)
    requires Receive(s).Delivered?
    ensures |Receive(s).rest| < |s|
  {
  }

  /** Every command of a stream, up to the first octet that does not start one. */
  function ReceiveAll(s: seq<Byte>): (cs: seq<seq<Byte>>)
    decreases |s|
  {
    var r := Receive(s);
    if r.Delivered? then DeliveryConsumes(s); [r.command] + ReceiveAll(r.rest) else []
  }

  /** Commands sent one frame each come out unmasked, complete and in order, whatever follows them. */
  lemma {:induction false} CommandsAreReceivedInOrder(fs: seq<Frame>, tail: seq<Byte>)
    requires AllValid(fs) && forall i :: 0 <= i < |fs| ==> Acceptable(fs[i])
    ensures ReceiveAll(EncodeAll(fs) + tail) == Payloads(fs) + ReceiveAll(tail)
    decreases |fs|
  {
    hide Receive, Encode, Acceptable, ReceiveAll;
    if fs == [] {
      assert EncodeAll(fs) + tail == tail;
    } else {
      var rest := EncodeAll(fs[1..]) + tail;
      assert EncodeAll(fs) + tail == Encode(fs[0]) + rest;
      FrameIsReceived(fs[0], rest);
      ReceiveAllStep(Encode(fs[0]) + rest);
      CommandsAreReceivedInOrder(fs[1..], tail);
      assert Payloads(fs) == [fs[0].payload] + Payloads(fs[1..]);
    }
  }

  lemma ReceiveAllStep(s: seq<Byte>)
    requires Receive(s).Delivered?
    ensures ReceiveAll(s) == [Receive(s).command] + ReceiveAll(Receive(s).rest)
  {
    hide Receive;
  }

  /** A stream cut off inside its last frame yields the commands before it and nothing for that frame. */
  lemma CutStreamDeliversOnlyWholeFrames(fs: seq<Frame>, last: Frame, k: nat)
    requires AllValid(fs) && forall i :: 0 <= i < |fs| ==> Acceptable(fs[i])
    requires last.Valid() && k < |Encode(last)|
    ensures ReceiveAll(EncodeAll(fs) + Encode(last)[..k]) == Payloads(fs)
  {
    hide Receive, Encode;
    CommandsAreReceivedInOrder(fs, Encode(last)[..k]);
    TruncatedFrameEnds(last, k);
  }

  /** A text or binary frame of exactly 16384 octets is refused, although larger ones are accepted. */
  lemma FullReadBufferIsRefused(f: Frame, rest: seq<Byte>)
    requires f.Valid() && (f.first % 16 == TEXT_FRAME || f.first % 16 == BINARY_FRAME)
    requires f.HeaderLength() + |f.payload| == 16384
    ensures Receive(Encode(f) + rest) == Refused
  {
    hide Masked, LengthOf, FormOf, LengthField;
    FrameHeader(f, Encode(f) + rest);
  }
}
