/** The binary header in front of every service request and reply
    (src/service/service.cpp:51-141). */
module ServiceHeader {
  import opened Bytes

  import opened Options

  type Word32 = x: int | 0 <= x < 0x1_0000_0000
  type Word64 = x: int | 0 <= x < 0x1_0000_0000_0000_0000
  type Int64 = x: int | -0x8000_0000_0000_0000 <= x < 0x8000_0000_0000_0000

  /** core::StatusCode, from OK to INTERNAL. */
  type StatusCode = x: int | 0 <= x <= INTERNAL

  const OK: int := 0
  const CANCELLED: int := 1
  const UNAVAILABLE: int := 11
  const DEADLINE_EXCEEDED: int := 12
  const INTERNAL: int := 14

  const REQUEST_MAGIC: Word32 := 0x51524d50
  const REPLY_MAGIC: Word32 := 0x50524d50
  const HEADER_VERSION: nat := 2
  const HEADER_SIZE: nat := 32

  datatype Header = Header(magic: Word32, status: StatusCode, clientId: Word64, requestId: Word64, budget: Int64)

  // ---- the format ----------------------------------------------------------------

  /** The 32 bytes of a header. */
  function HeaderBytes(h: Header): (bytes: seq<Byte>)
    ensures |bytes| == HEADER_SIZE
  {
    RangeOfWidths();
    Little(h.magic, 4) + Little(HEADER_VERSION, 2) + Little(h.status, 2)
    + Little(h.clientId, 8) + Little(h.requestId, 8) + Little(Unsigned(h.budget, 8), 8)
  }

  function Encoded(h: Header, payload: seq<Byte>): (message: seq<Byte>)
    ensures |message| == HEADER_SIZE + |payload|
  {
    HeaderBytes(h) + payload
  }

  /** The value of the field of `width` bytes at offset `at`. */
  function Field(message: seq<Byte>, at: nat, width: nat): (bits: nat)
    requires at + width <= |message|
    ensures bits < Range(width)
  {
    Value(message[at..at + width])
  }

  /** A message of this kind and version, with a status code that exists. */
  predicate Accepted(message: seq<Byte>, magic: Word32) {
    && |message| >= HEADER_SIZE
    && Field(message, 0, 4) == magic
    && Field(message, 4, 2) == HEADER_VERSION
    && Field(message, 6, 2) <= INTERNAL
  }

  /** The header and the payload of an accepted message. */
  function Decoded(message: seq<Byte>, magic: Word32): (r: Option<(Header, seq<Byte>)>)
    ensures r.Some? <==> Accepted(message, magic)
  {
    RangeOfWidths();
    if !Accepted(message, magic) then None
    else Some((
      Header(magic, Field(message, 6, 2), Field(message, 8, 8), Field(message, 16, 8),
             Signed(Field(message, 24, 8), 8)),
      message[HEADER_SIZE..]))
  }

  // ---- the two undo each other ---------------------------------------------------

  lemma FieldsOfHeader(h: Header, payload: seq<Byte>)
    ensures var m := Encoded(h, payload);
      && m[0..4] == Little(h.magic, 4) && m[4..6] == Little(HEADER_VERSION, 2) && m[6..8] == Little(h.status, 2)
      && m[8..16] == Little(h.clientId, 8) && m[16..24] == Little(h.requestId, 8)
      && Unsigned(h.budget, 8) >= 0 && m[24..32] == Little(Unsigned(h.budget, 8), 8)
      && m[32..] == payload
  {
    RangeOfWidths();
  }

  lemma SignedOfUnsigned(value: Int64)
    ensures Range(8) == 0x1_0000_0000_0000_0000
    ensures Signed(Unsigned(value, 8), 8) == value
  {
    RangeOfWidths();
  }

  /** Every header and payload survives the wire; a message of the other kind is refused. */
  lemma DecodeUndoesEncode(h: Header, payload: seq<Byte>, magic: Word32)
    ensures Decoded(Encoded(h, payload), magic) == if h.magic == magic then Some((h, payload)) else None
  {
    RangeOfWidths();
    FieldsOfHeader(h, payload);
    ValueOfLittle(h.magic, 4);
    ValueOfLittle(HEADER_VERSION, 2);
    ValueOfLittle(h.status, 2);
    ValueOfLittle(h.clientId, 8);
    ValueOfLittle(h.requestId, 8);
    ValueOfLittle(Unsigned(h.budget, 8), 8);
    SignedOfUnsigned(h.budget);
  }

  /** Splitting a header at its field boundaries and joining it again. */
  lemma HeaderParts(m: seq<Byte>)
    requires |m| >= 32
    ensures m == m[0..4] + m[4..6] + m[6..8] + m[8..16] + m[16..24] + m[24..32] + m[32..]
  {
  }

  /** An accepted message is the encoding of what it decodes to, so the wire form is unique. */
  lemma EncodeUndoesDecode(message: seq<Byte>, magic: Word32)
    requires Accepted(message, magic)
    ensures var (h, payload) := Decoded(message, magic).value;
      h.magic == magic && Encoded(h, payload) == message
  {
    RangeOfWidths();
    var (h, payload) := Decoded(message, magic).value;
    LittleOfValue(message[0..4]);
    LittleOfValue(message[4..6]);
    LittleOfValue(message[6..8]);
    LittleOfValue(message[8..16]);
    LittleOfValue(message[16..24]);
    LittleOfValue(message[24..32]);
    HeaderParts(message);
  }

  // ---- the code ------------------------------------------------------------------

  method Encode(h: Header, payload: seq<Byte>) returns (buffer: array<Byte>)
    ensures fresh(buffer) && buffer[..] == Encoded(h, payload)
  {
    RangeOfWidths();
    buffer := new Byte[HEADER_SIZE + |payload|](_ => 0);
    PutLittle(buffer, 0, h.magic, 4);
    PutLittle(buffer, 4, HEADER_VERSION, 2);
    PutLittle(buffer, 6, h.status, 2);
    assert buffer[..8] == Little(h.magic, 4) + Little(HEADER_VERSION, 2) + Little(h.status, 2);
    PutLittle(buffer, 8, h.clientId, 8);
    PutLittle(buffer, 16, h.requestId, 8);
    PutLittle(buffer, 24, Unsigned(h.budget, 8), 8);
    assert buffer[..HEADER_SIZE] == HeaderBytes(h);
    CopyPayload(buffer, payload);
  }

  /** The memcpy behind the header. */
  method CopyPayload(buffer: array<Byte>, payload: seq<Byte>)
    requires buffer.Length == HEADER_SIZE + |payload|
    modifies buffer
    ensures buffer[..] == old(buffer[..HEADER_SIZE]) + payload
  {
    for i := 0 to |payload|
      invariant buffer[..HEADER_SIZE] == old(buffer[..HEADER_SIZE])
      invariant buffer[HEADER_SIZE..HEADER_SIZE + i] == payload[..i]
    {
      buffer[HEADER_SIZE + i] := payload[i];
      assert buffer[HEADER_SIZE..HEADER_SIZE + i + 1] == buffer[HEADER_SIZE..HEADER_SIZE + i] + [payload[i]];
    }
    assert buffer[..] == buffer[..HEADER_SIZE] + buffer[HEADER_SIZE..HEADER_SIZE + |payload|];
  }

  method Decode(message: seq<Byte>, magic: Word32) returns (r: Option<(Header, seq<Byte>)>)
    ensures r == Decoded(message, magic)
  {
    RangeOfWidths();
    if |message| < HEADER_SIZE { return None; }
    var kind := GetLittle(message, 0, 4);
    if kind != magic { return None; }
    var version := GetLittle(message, 4, 2);
    if version != HEADER_VERSION { return None; }
    var status := GetLittle(message, 6, 2);
    if status > INTERNAL { return None; }
    var clientId := GetLittle(message, 8, 8);
    var requestId := GetLittle(message, 16, 8);
    var budget := GetLittle(message, 24, 8);
    return Some((Header(magic, status, clientId, requestId, Signed(budget, 8)), message[HEADER_SIZE..]));
  }
}
