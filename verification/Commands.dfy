/** Commands and the cursor buffers that hold them: server/core/commands.hpp. */
module Commands {
  import opened Bytes
  import opened Wire
  import opened Generator
  import opened Parsing

  const COMMAND_HEADER_SIZE := 8
  const COMMAND_HEADER_START := 4
  const CMD_PAYLOAD_BUFFER_LEN := 262144

  /** A fixed-size buffer read through a cursor. Reading past its end is undefined in the source. */
  class Buffer {
    const data: array<Byte>
    var position: nat

    constructor (len: nat, start: nat)
      ensures data.Length == len && position == start && fresh(data)
    {
      data := new Byte[len];
      position := start;
    }

    /** What the cursor has not passed yet. */
    ghost function Ahead(): (s: seq<Byte>)
      requires position <= data.Length
      reads this, data
    {
      data[position..]
    }

    method Deserialize(types: seq<Scalar>) returns (vs: seq<int>)
      requires position <= data.Length && RequiredBufferSize(types) <= |Ahead()|
      modifies this`position
      ensures vs == DeserializeAt(types, old(Ahead()), 0)
      ensures position <= data.Length && Ahead() == old(Ahead())[RequiredBufferSize(types)..]
    {
      vs := DeserializeAt(types, data[position..], 0);
      position := position + RequiredBufferSize(types);
    }

    method ExtractArray(e: Scalar, n: nat) returns (vs: seq<int>)
      requires position <= data.Length && n * e.Size() <= |Ahead()|
      modifies this`position
      ensures vs == DecodeItems(e, n, old(Ahead())[..n * e.Size()])
      ensures position <= data.Length && Ahead() == old(Ahead())[n * e.Size()..]
    {
      var size := n * e.Size();
      assert data[position..][..size] == data[position..position + size];
      vs := DecodeItems(e, n, data[position..position + size]);
      position := position + size;
    }

    method ToVector(e: Scalar, length: nat) returns (vs: seq<int>)
      requires position <= data.Length && length * e.Size() <= |Ahead()|
      modifies this`position
      ensures vs == DecodeItems(e, length, old(Ahead())[..length * e.Size()])
      ensures position <= data.Length && Ahead() == old(Ahead())[length * e.Size()..]
    {
      var size := length * e.Size();
      assert data[position..][..size] == data[position..position + size];
      vs := DecodeItems(e, length, data[position..position + size]);
      position := position + length * e.Size();
    }

    method ToString(length: nat) returns (s: seq<Byte>)
      requires position <= data.Length && length <= |Ahead()|
      modifies this`position
      ensures s == old(Ahead())[..length]
      ensures position <= data.Length && Ahead() == old(Ahead())[length..]
    {
      s := data[position..position + length];
      position := position + length;
    }
  }

  class Command {
    var driver: nat
    var operation: nat
    const header: Buffer
    const payload: Buffer

    ghost predicate Valid()
      reads this, header, payload
    {
      && header != payload && header.data != payload.data
      && header.data.Length == COMMAND_HEADER_SIZE && header.position <= COMMAND_HEADER_SIZE
      && payload.data.Length == CMD_PAYLOAD_BUFFER_LEN && payload.position <= CMD_PAYLOAD_BUFFER_LEN
    }

    ghost function Footprint(): set<object>
    {
      {this, header, header.data, payload, payload.data}
    }

    constructor ()
      ensures Valid() && fresh(Footprint())
      ensures header.position == COMMAND_HEADER_START && payload.position == 0
    {
      driver, operation := 0, 0;
      header := new Buffer(COMMAND_HEADER_SIZE, COMMAND_HEADER_START);
      payload := new Buffer(CMD_PAYLOAD_BUFFER_LEN, 0);
    }

    /** Driver and operation from the header, whose first four octets are reserved. */
    method DecodeHeader()
      requires Valid() && header.position == COMMAND_HEADER_START
      modifies this`driver, this`operation, header`position
      ensures Valid()
      ensures driver == BigEndianValue(header.data[4..6]) && operation == BigEndianValue(header.data[6..8])
    {
      ghost var ahead := header.Ahead();
      assert ahead[0..2] == header.data[4..6] && ahead[2..4] == header.data[6..8];
      PairSize();
      var ids := header.Deserialize([U16, U16]);
      PairIsTwoWords(ahead);
      BigEndianBound(ahead[0..2]);
      BigEndianBound(ahead[2..4]);
      driver, operation := ids[0], ids[1];
    }
  }

  lemma PairSize()
    ensures RequiredBufferSize([U16, U16]) == 4
  {
    assert [U16, U16][1..] == [U16];
    assert [U16][1..] == [];
  }

  lemma PairIsTwoWords(s: seq<Byte>)
    requires |s| == 4 && RequiredBufferSize([U16, U16]) == 4
    ensures DeserializeAt([U16, U16], s, 0) == [BigEndianValue(s[0..2]), BigEndianValue(s[2..4])]
  {
    hide BigEndianValue;
    assert [U16, U16][1..] == [U16];
    assert [U16][1..] == [];
    assert RequiredBufferSize([U16]) == 2;
    assert DeserializeAt([], s, 4) == [];
    assert DeserializeAt([U16], s, 2) == [BigEndianValue(s[2..4])];
  }
}
