/** The datagram message format of section 3 of RFC 7252. */
module MessageCodec {
  import opened Bytes
  import opened Options
  import opened OptionCodec

  const CONFIRMABLE: byte := 0
  const NON_CONFIRMABLE: byte := 1
  const ACKNOWLEDGEMENT: byte := 2
  const RESET: byte := 3
  const CODE_EMPTY: byte := 0

  const HEADER_LENGTH: nat := 4
  const TOKEN_MAX_LENGTH: nat := 8
  const RESERVED_MID: uint16 := 0

  datatype Message = Message(
    kind: byte, code: byte, id: uint16, token: seq<byte>, options: seq<CoapOption>, payload: seq<byte>)

  // ---------- encoding ----------

  /** The four header bytes: version 1, the type, the token length as declared. */
  function EncodeHeader(m: Message, declared: byte): (b: seq<byte>)
    ensures |b| == HEADER_LENGTH
  {
    [(0x40 + 0x10 * m.kind + declared) % 0x100, m.code, m.id / 0x100, m.id % 0x100]
  }

  function EncodePayload(payload: seq<byte>): (b: seq<byte>) {
    if payload == [] then [] else [PAYLOAD_MARKER] + payload
  }

  /** The header may declare a token length the token does not have. */
  function EncodeDeclaring(m: Message, declared: byte): (b: seq<byte>)
    requires AllWellFormed(m.options)
  {
    EncodeHeader(m, declared) + m.token + EncodeOptions(0, m.options) + EncodePayload(m.payload)
  }

  predicate Sendable(m: Message) {
    m.kind <= RESET && |m.token| <= TOKEN_MAX_LENGTH && AllWellFormed(m.options)
  }

  function EncodeMessage(m: Message): (b: seq<byte>)
    requires Sendable(m)
  {
    EncodeDeclaring(m, |m.token|)
  }

  // ---------- decoding ----------

  datatype MessageParse = Refused(status: byte) | Decoded(message: Message, fields: seq<Field>, end: nat)

  /** The length of header and token, or 0 if the header is not acceptable. */
  function ParseHeader(b: seq<byte>): (n: nat)
    ensures n == 0 || HEADER_LENGTH <= n <= HEADER_LENGTH + TOKEN_MAX_LENGTH
    ensures n <= |b|
  {
    if |b| < HEADER_LENGTH then 0
    else if b[0] / 0x40 != 1 then 0
    else if b[0] % 0x10 > TOKEN_MAX_LENGTH then 0
    else if HEADER_LENGTH + b[0] % 0x10 > |b| then 0
    else HEADER_LENGTH + b[0] % 0x10
  }

  function ParseMessage(b: seq<byte>): (r: MessageParse)
    ensures r.Refused? ==> r.status != NO_ERROR
  {
    var n := ParseHeader(b);
    if n == 0 then Refused(BAD_REQUEST)
    else
      match ParseFrom(b, n, 0)
      case Failed(status) => Refused(status)
      case Parsed(fields, end) =>
        if end < |b| && b[end] != PAYLOAD_MARKER then Refused(BAD_REQUEST)
        else
          var payload := if end < |b| then b[end + 1..] else [];
          Decoded(Message((b[0] / 0x10) % 4, b[1], Word(b[2], b[3]), b[HEADER_LENGTH..n],
                          OptionsOf(fields), payload),
                  fields, end)
  }
}
