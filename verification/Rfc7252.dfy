/** The formats of RFC 7252 with every number written out, independently of the definitions the
    other modules work with, and the proof that they agree. */
module Rfc7252 {
  import opened Bytes
  import opened Options
  import opened OptionCodec
  import opened OptionTheorems
  import opened OptionWriter
  import opened MessageCodec
  import opened Responses
  import opened UdpReceive
  import opened Acknowledgements

  // ---------- options (sections 3.1, 3.2 and 5.10) ----------

  /** Numbers of the options whose value is an integer: Observe, Uri-Port, Content-Format, Max-Age,
      Accept, Block2, Block1, Size2, Size1, No-Response. */
  const INTEGER_NUMBERS: set<int> := {6, 7, 12, 14, 17, 23, 27, 28, 60, 258}

  /** How many bytes extend a delta or a length. */
  function ExtensionBytes(nibble: int): (n: nat) {
    if nibble == 14 then 2 else if nibble == 13 then 1 else 0
  }

  /** The delta or length that a nibble and its extension at i stand for. */
  function ExtendedValue(b: seq<byte>, nibble: byte, i: nat): (v: nat)
    requires i + ExtensionBytes(nibble) <= |b|
  {
    if nibble == 14 then 269 + 256 * b[i] + b[i + 1] else if nibble == 13 then 13 + b[i] else nibble
  }

  /** What becomes of the option whose header byte is at i: 4.00 for a nibble of 15, 4.13 for an
      option that does not fit, 5.00 for an integer of more than 4 bytes, or the option. Deltas,
      lengths and numbers are cut to 16 bits. */
  function OptionStep(b: seq<byte>, i: nat, prev: uint16): (r: Step)
    requires i < |b|
  {
    var high, low := b[i] / 16, b[i] % 16;
    if high == 15 then Reject(0x80)
    else if i + 1 + ExtensionBytes(high) > |b| then Reject(0x8D)
    else if low == 15 then Reject(0x80)
    else
      var start := i + 1 + ExtensionBytes(high) + ExtensionBytes(low);
      if start > |b| then Reject(0x8D)
      else
        var number := (prev + ExtendedValue(b, high, i + 1)) % 65536;
        var length := ExtendedValue(b, low, i + 1 + ExtensionBytes(high)) % 65536;
        if start + length > |b| then Reject(0x8D)
        else if number !in INTEGER_NUMBERS then
          Accept(Field(i, start, length, CoapOption(number, Buffer(b[start..start + length]))))
        else if length > 4 then Reject(0xA0)
        else
          BigEndianBound(b[start..start + length]);
          Accept(Field(i, start, length, CoapOption(number, Integer(BigEndian(b[start..start + length])))))
  }

  lemma IntegerNumbers(n: uint16)
    ensures IsInteger(n) <==> n in INTEGER_NUMBERS
  {
  }

  lemma ExtensionByNumbers(b: seq<byte>, nibble: byte, i: nat)
    requires nibble < 16 && i <= |b|
    ensures ReadExtended(b, nibble, i) ==
            if nibble == 15 then Forbidden
            else if i + ExtensionBytes(nibble) > |b| then Truncated
            else Extended(ExtendedValue(b, nibble, i) % 65536, i + ExtensionBytes(nibble))
  {
  }

  /** The parser decides on an option as the numbers say. */
  lemma StepByNumbers(b: seq<byte>, i: nat, prev: uint16)
    requires i < |b|
    ensures ParseStep(b, i, prev) == OptionStep(b, i, prev)
  {
    hide IsInteger, ReadExtended, ExtendedValue, BigEndian;
    var high, low := b[i] / 16, b[i] % 16;
    ExtensionByNumbers(b, high, i + 1);
    if high < 15 && i + 1 + ExtensionBytes(high) <= |b| {
      ExtensionByNumbers(b, low, i + 1 + ExtensionBytes(high));
      if low < 15 && i + 1 + ExtensionBytes(high) + ExtensionBytes(low) <= |b| {
        NumberByNumbers(prev, ExtendedValue(b, high, i + 1));
        IntegerNumbers((prev + ExtendedValue(b, high, i + 1)) % 65536);
      }
    }
  }

  lemma NumberByNumbers(prev: uint16, delta: nat)
    ensures (prev + delta % 65536) % 65536 == (prev + delta) % 65536
  {
  }

  /** Header byte, extended delta and extended length of an option that is written. */
  lemma HeadByNumbers(delta: uint16, length: uint16) returns (high: byte, low: byte)
    ensures high == (if delta < 13 then delta else if delta < 269 then 13 else 14)
    ensures low == (if length < 13 then length else if length < 269 then 13 else 14)
    ensures var e := EncodeHead(delta, length);
            && |e| == 1 + ExtensionBytes(high) + ExtensionBytes(low) && e[0] == 16 * high + low
            && ExtendedValue(e, high, 1) == delta && ExtendedValue(e, low, 1 + ExtensionBytes(high)) == length
  {
    high, low := Nibble(delta), Nibble(length);
  }

  /** An option as it is written: the delta from the number before, cut to 16 bits, the length
      and the value, an integer with its most significant byte first and not zero. */
  lemma OptionByNumbers(prev: uint16, o: CoapOption) returns (high: byte, low: byte, value: seq<byte>)
    requires WellFormed(o)
    ensures o.content.Integer? <==> o.number in INTEGER_NUMBERS
    ensures o.content.Buffer? ==> value == o.content.bytes
    ensures o.content.Integer? ==>
              var v := o.content.value;
              value == (if v >= 0x100_0000 then [v / 0x100_0000] else [])
                       + (if v >= 0x1_0000 then [(v / 0x1_0000) % 0x100] else [])
                       + (if v >= 0x100 then [(v / 0x100) % 0x100] else [])
                       + (if v != 0 then [v % 0x100] else [])
    ensures var e, start := EncodeOption(prev, o), 1 + ExtensionBytes(high) + ExtensionBytes(low);
            && start <= |e| && e[0] == 16 * high + low < 0xFF && e[start..] == value
            && ExtendedValue(e, high, 1) == (o.number - prev) % 65536
            && ExtendedValue(e, low, 1 + ExtensionBytes(high)) == |value|
  {
    hide EncodeHead, IsInteger, MinimalBytes;
    value := ValueBytes(o);
    IntegerNumbers(o.number);
    if o.content.Integer? {
      IntegerBytes(o.content.value);
    }
    high, low := HeadByNumbers(Delta(prev, o.number), |value|);
    var head := EncodeHead(Delta(prev, o.number), |value|);
    HeadInFront(head, value, high, low);
  }

  lemma HeadInFront(head: seq<byte>, value: seq<byte>, high: byte, low: byte)
    requires |head| == 1 + ExtensionBytes(high) + ExtensionBytes(low)
    ensures (head + value)[|head|..] == value && (head + value)[0] == head[0]
    ensures ExtendedValue(head + value, high, 1) == ExtendedValue(head, high, 1)
    ensures ExtendedValue(head + value, low, 1 + ExtensionBytes(high)) == ExtendedValue(head, low, 1 + ExtensionBytes(high))
  {
  }

  /** Every integer is a value for each of the integer options, and for no other. */
  lemma IntegersByNumbers(n: uint16, v: uint32)
    ensures WellFormed(CoapOption(n, Integer(v))) <==> n in INTEGER_NUMBERS
  {
    IntegerNumbers(n);
  }

  // ---------- messages (section 3) ----------

  /** The datagram of a message: version 1, type and token length in the first byte, then code,
      id, token, options, and 0xFF before a payload. The serializer may declare any length. */
  lemma DatagramByNumbers(m: Message, declared: byte)
    requires AllWellFormed(m.options)
    ensures EncodeDeclaring(m, declared) ==
            [(64 + 16 * m.kind + declared) % 256, m.code, m.id / 256, m.id % 256]
            + m.token + EncodeOptions(0, m.options) + if m.payload == [] then [] else [0xFF] + m.payload
    ensures Sendable(m) <==> m.kind <= 3 && |m.token| <= 8
    ensures Sendable(m) ==> EncodeMessage(m) == EncodeDeclaring(m, |m.token|)
  {
  }

  /** Which datagrams have an acceptable header, and what is read from it. */
  lemma HeaderByNumbers(b: seq<byte>)
    ensures ParseHeader(b) ==
            if |b| >= 4 && b[0] / 64 == 1 && b[0] % 16 <= 8 && 4 + b[0] % 16 <= |b| then 4 + b[0] % 16 else 0
    ensures ParseHeader(b) == 0 ==> ParseMessage(b) == Refused(0x80)
    ensures ParseMessage(b).Decoded? ==>
              var m := ParseMessage(b).message;
              && 64 <= b[0] < 128 && m.kind == b[0] / 16 - 4 && m.code == b[1] && m.id == 256 * (b[2] as int) + b[3] as int
              && 4 + b[0] % 16 <= |b| && m.token == b[4..4 + b[0] % 16]
  {
    hide ParseFrom;
  }

  /** The options of a datagram begin behind its token, and a payload behind 0xFF. */
  lemma PayloadByNumbers(b: seq<byte>)
    requires ParseMessage(b).Decoded?
    ensures var r := ParseMessage(b);
            && 4 + b[0] % 16 <= r.end <= |b| && ParseFrom(b, 4 + b[0] % 16, 0) == Parsed(r.fields, r.end)
            && (r.end < |b| ==> b[r.end] == 0xFF)
            && r.message.payload == if r.end < |b| then b[r.end + 1..] else []
  {
    hide ParseFrom;
  }

  // ---------- answers (sections 4.2, 4.3 and 5.2) ----------

  /** The very bytes of the answer to a decoded datagram: ACK with the id of the datagram for CON,
      which an empty answer makes 4 bytes long, NON with an id of its own for NON, and the token of
      the datagram; nothing for ACK and RST. */
  lemma AnswerByNumbers(b: seq<byte>, code: byte, nextId: uint16)
    requires ParseMessage(b).Decoded?
    ensures 4 <= b[0] / 16 <= 7 && 4 + b[0] % 16 <= |b|
    ensures var r, t := SentReply(ParseMessage(b).message, code, nextId), b[0] % 16;
            && (b[0] / 16 <= 5 ==> r.Reply? && Sendable(r.message))
            && (b[0] / 16 == 4 && code != 0 ==> EncodeMessage(r.message) == [0x60 + t, code, b[2], b[3]] + b[4..4 + t])
            && (b[0] / 16 == 4 && code == 0 ==> EncodeMessage(r.message) == [0x60, 0x00, b[2], b[3]])
            && (b[0] / 16 == 5 ==> EncodeMessage(r.message) == [0x50 + t, code, nextId / 256, nextId % 256] + b[4..4 + t])
            && (b[0] / 16 >= 6 ==> r == NoReply)
  {
    hide ParseMessage, EncodeMessage, EncodeDeclaring, Sendable;
    HeaderByNumbers(b);
    var r := SentReply(ParseMessage(b).message, code, nextId);
    if r.Reply? {
      DatagramByNumbers(r.message, |r.message.token|);
      assert EncodeOptions(0, []) == [];
    }
  }

  lemma EmptyAckByNumbers(mid: uint16)
    ensures EmptyAck(mid) == [0x60, 0x00, mid / 256, mid % 256]
  {
    hide EncodeMessage, EncodeDeclaring, Sendable;
    var m := Message(ACKNOWLEDGEMENT, CODE_EMPTY, mid, [], [], []);
    DatagramByNumbers(m, 0);
    assert EncodeOptions(0, []) == [];
  }

  // ---------- reception ----------

  /** What a datagram brings about: one that is found to have a Block1 option, number 27, is
      answered with 4.02, as far as an answer can be; one with a Block2 option, number 23, is
      dropped; any other is handed over with the length of its payload if it filled the buffer. */
  lemma EventsByNumbers(b: seq<byte>, full: bool, connected: bool, nextId: uint16)
    requires ParseMessage(b).Decoded?
    ensures var m, t := ParseMessage(b).message, b[0] % 16;
            var events := Events(b, full, connected, nextId);
            && 4 + t <= |b|
            && (Find(m.options, 27).Found? && connected && b[0] / 16 == 4 ==>
                  && |events| == 1 && events[0].Answered? && Sendable(events[0].reply)
                  && EncodeMessage(events[0].reply) == [0x60 + t, 0x82, b[2], b[3]] + b[4..4 + t])
            && (Find(m.options, 27).Found? && connected && b[0] / 16 == 5 ==>
                  && |events| == 1 && events[0].Answered? && Sendable(events[0].reply)
                  && EncodeMessage(events[0].reply) == [0x50 + t, 0x82, nextId / 256, nextId % 256] + b[4..4 + t])
            && (Find(m.options, 27).Found? && (!connected || b[0] / 16 >= 6) ==> events == [])
            && (Find(m.options, 27) == Missing && Find(m.options, 23).Found? ==> events == [])
            && (Find(m.options, 27) == Missing && Find(m.options, 23) == Missing ==>
                  events == [Handled(full, if full then |m.payload| else 0)])
  {
    hide ParseMessage, EncodeMessage, SentReply, Find, Sendable;
    HeaderByNumbers(b);
    AnswerByNumbers(b, 0x82, nextId);
  }

  /** Without number wrap: a decoded datagram is handed over exactly if it has no option 27 and no
      option 23. */
  lemma FilterByNumbers(b: seq<byte>, full: bool, connected: bool, nextId: uint16)
    requires ParseMessage(b).Decoded? && DeltaSum(b, ParseMessage(b).fields) < 65536
    ensures ReachesHandler(b, full, connected, nextId) <==>
            forall k :: 0 <= k < |ParseMessage(b).message.options| ==> ParseMessage(b).message.options[k].number !in {27, 23}
  {
    hide ParseMessage, Events, DeltaSum;
    BlockFilterComplete(b, full, connected, nextId);
  }
}
