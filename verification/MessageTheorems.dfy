/** How the message serializer and the message parser fit together. */
module MessageTheorems {
  import opened Bytes
  import opened Options
  import opened OptionCodec
  import opened OptionTheorems
  import opened MessageCodec

  ghost predicate DecodesTo(b: seq<byte>, m: Message) {
    ParseMessage(b).Decoded? && ParseMessage(b).message == m
  }

  /** The bytes of an encoded message, part by part. */
  lemma MessageParts(m: Message, declared: byte)
    requires AllWellFormed(m.options)
    ensures var b := EncodeDeclaring(m, declared);
            var n := HEADER_LENGTH + |m.token|;
            var end := n + |EncodeOptions(0, m.options)|;
            && end <= |b|
            && b[..HEADER_LENGTH] == EncodeHeader(m, declared)
            && b[HEADER_LENGTH..n] == m.token
            && At(b, n, EncodeOptions(0, m.options))
            && b[end..] == EncodePayload(m.payload)
  {
    hide EncodeHeader, EncodePayload, At;
    var o, p := EncodeOptions(0, m.options), EncodePayload(m.payload);
    var head := EncodeHeader(m, declared) + m.token;
    var b := EncodeDeclaring(m, declared);
    assert b == head + (o + p);
    assert b[|head|..] == o + p;
    assert b[|head|..|head| + |o|] == o;
    AtSlice(b, |head|, o);
  }

  /** The options of an encoded message parse back, whatever the header says. */
  lemma MessageOptions(m: Message, declared: byte)
    requires AllWellFormed(m.options)
    ensures var b := EncodeDeclaring(m, declared);
            var n := HEADER_LENGTH + |m.token|;
            var end := n + |EncodeOptions(0, m.options)|;
            end <= |b| && ParsesTo(b, n, 0, m.options, end)
  {
    hide At, EncodeDeclaring, ParsesTo;
    MessageParts(m, declared);
    var b := EncodeDeclaring(m, declared);
    var n := HEADER_LENGTH + |m.token|;
    var end := n + |EncodeOptions(0, m.options)|;
    if m.payload != [] {
      assert b[end] == b[end..][0];
    }
    OptionsRoundTrip(b, n, 0, m.options);
  }

  lemma HeaderByte(kind: byte, declared: byte)
    ensures var h := (0x40 + 0x10 * kind + declared) % 0x100;
            && (kind <= RESET && declared <= TOKEN_MAX_LENGTH ==>
                  h / 0x40 == 1 && h % 0x10 == declared && (h / 0x10) % 4 == kind)
            && (h / 0x40 == 1 && (h / 0x10) % 4 == kind && h % 0x10 == 0 ==>
                  kind <= RESET && declared == 0)
            && (kind > RESET ==> (h / 0x10) % 4 != kind)
  {
  }

  /** The message parser, once header and options are known to be readable. */
  lemma ParseMessageFrom(b: seq<byte>, os: seq<CoapOption>, end: nat)
    requires ParseHeader(b) != 0 && end <= |b|
    requires ParsesTo(b, ParseHeader(b), 0, os, end)
    requires end < |b| ==> b[end] == PAYLOAD_MARKER
    ensures DecodesTo(b, Message((b[0] / 0x10) % 4, b[1], Word(b[2], b[3]), b[HEADER_LENGTH..ParseHeader(b)], os,
                                 if end < |b| then b[end + 1..] else []))
  {
  }

  /** Every message within the limits of the format survives the wire. */
  lemma MessageRoundTrip(m: Message)
    requires Sendable(m)
    ensures DecodesTo(EncodeMessage(m), m)
  {
    hide At, EncodeDeclaring, WellFormed, EncodeHeader, EncodePayload, ParsesTo, DecodesTo;
    var b := EncodeMessage(m);
    var end := HEADER_LENGTH + |m.token| + |EncodeOptions(0, m.options)|;
    MessageParts(m, |m.token|);
    MessageOptions(m, |m.token|);
    HeaderByte(m.kind, |m.token|);
    HeaderBytes(b, m, |m.token|);
    PayloadBack(b, end, m.payload);
    assert ParseHeader(b) == HEADER_LENGTH + |m.token|;
    ParseMessageFrom(b, m.options, end);
  }

  /** A serialized message parses back to itself exactly when its type has two bits and its
      declared token length is at most 8 (a longer one is declared, then dropped). */
  lemma MessageRoundTripIff(m: Message, declared: byte)
    requires AllWellFormed(m.options)
    requires declared <= TOKEN_MAX_LENGTH ==> |m.token| == declared
    requires declared > TOKEN_MAX_LENGTH ==> m.token == []
    ensures DecodesTo(EncodeDeclaring(m, declared), m) <==> m.kind <= RESET && declared <= TOKEN_MAX_LENGTH
  {
    hide At, EncodeDeclaring, WellFormed, EncodeHeader, EncodePayload, ParseFrom;
    if m.kind <= RESET && declared <= TOKEN_MAX_LENGTH {
      MessageRoundTrip(m);
    } else {
      MessageParts(m, declared);
      HeaderByte(m.kind, declared);
      HeaderBytes(EncodeDeclaring(m, declared), m, declared);
    }
  }

  lemma HeaderBytes(b: seq<byte>, m: Message, declared: byte)
    requires |b| >= HEADER_LENGTH && b[..HEADER_LENGTH] == EncodeHeader(m, declared)
    ensures b[0] == (0x40 + 0x10 * m.kind + declared) % 0x100
    ensures b[1] == m.code && Word(b[2], b[3]) == m.id
  {
  }

  lemma PayloadBack(b: seq<byte>, end: nat, payload: seq<byte>)
    requires end <= |b| && b[end..] == EncodePayload(payload)
    ensures end == |b| <==> payload == []
    ensures end < |b| ==> b[end] == PAYLOAD_MARKER && b[end + 1..] == payload
  {
  }

  // ---------- decoded messages ----------

  /** What a decoded message says about the bytes it came from: the layout of the datagram. */
  lemma DecodedLayout(b: seq<byte>)
    requires ParseMessage(b).Decoded?
    ensures var r := ParseMessage(b);
            var n := HEADER_LENGTH + |r.message.token|;
            && Sendable(r.message)
            && n == ParseHeader(b) <= r.end <= |b|
            && b[HEADER_LENGTH..n] == r.message.token
            && Tiles(r.fields, n, r.end)
            && (forall k :: 0 <= k < |r.fields| ==> Reads(b, r.fields[k]))
            && OptionsOf(r.fields) == r.message.options
            && (r.end == |b| ==> r.message.payload == [])
            && (r.end < |b| ==> b[r.end] == PAYLOAD_MARKER && b[r.end + 1..] == r.message.payload)
  {
    hide Reads;
    var n := ParseHeader(b);
    ParseLayout(b, n, 0);
    ReadsWellFormed(b, ParseMessage(b).fields);
  }

  lemma ReadsWellFormed(b: seq<byte>, fields: seq<Field>)
    requires forall k :: 0 <= k < |fields| ==> Reads(b, fields[k])
    ensures AllWellFormed(OptionsOf(fields))
  {
    hide WellFormed;
    forall k | 0 <= k < |OptionsOf(fields)| ensures WellFormed(OptionsOf(fields)[k]) {
      OptionsOfAt(fields, k);
      assert Reads(b, fields[k]);
    }
  }

  /** No datagram reaches the parser's last rejection: options end at the end of the
      buffer or at a payload marker. */
  lemma MarkerAlwaysFound(b: seq<byte>)
    requires ParseHeader(b) != 0 && ParseFrom(b, ParseHeader(b), 0).Parsed?
    ensures ParseMessage(b).Decoded?
  {
    ParseLayout(b, ParseHeader(b), 0);
  }

  lemma HeaderCanonical(b: seq<byte>)
    requires ParseMessage(b).Decoded?
    ensures var m := ParseMessage(b).message;
            EncodeHeader(m, |m.token|) == b[..HEADER_LENGTH]
  {
    hide ParseFrom;
    var m := ParseMessage(b).message;
    assert b[..HEADER_LENGTH] == [b[0], b[1], b[2], b[3]];
  }

  /** Any accepted datagram, decoded and serialized again: never longer, decodes to the same
      message, and is the same datagram exactly when every option was canonical and the
      payload marker was not followed by nothing. */
  lemma CanonicalMessage(b: seq<byte>)
    requires ParseMessage(b).Decoded?
    ensures Sendable(ParseMessage(b).message)
    ensures var r := ParseMessage(b);
            var e := EncodeMessage(r.message);
            && |e| <= |b|
            && DecodesTo(e, r.message)
            && (e == b <==> AllCanonical(b, r.fields) && r.end + 1 != |b|)
  {
    hide ParseFrom, EncodeHeader, AllCanonical, Reads;
    var r := ParseMessage(b);
    var m := r.message;
    DecodedLayout(b);
    MessageRoundTrip(m);
    HeaderCanonical(b);
    CanonicalForm(b, ParseHeader(b), 0);
    var o := EncodeOptions(0, m.options);
    var n := ParseHeader(b);
    assert ReEncodes(b, n, r.end, o, AllCanonical(b, r.fields));
    AtSlice(b, n, o);
    MessageParts(m, |m.token|);
    if AllCanonical(b, r.fields) && r.end + 1 != |b| {
      SplitMessage(b, n, r.end, m, o);
    }
  }

  lemma SplitMessage(b: seq<byte>, n: nat, end: nat, m: Message, o: seq<byte>)
    requires HEADER_LENGTH <= n <= end <= |b| && end + 1 != |b|
    requires b[n..end] == o
    requires end == |b| ==> m.payload == []
    requires end < |b| ==> b[end] == PAYLOAD_MARKER && b[end + 1..] == m.payload
    ensures b == b[..HEADER_LENGTH] + b[HEADER_LENGTH..n] + o + EncodePayload(m.payload)
  {
  }

  /** The serializer takes a decoded message back exactly when its option numbers did not
      leave 16 bits while they were decoded. */
  lemma DecodedSorted(b: seq<byte>)
    requires ParseMessage(b).Decoded?
    ensures Sorted(ParseMessage(b).message.options) <==> DeltaSum(b, ParseMessage(b).fields) < 0x1_0000
  {
    SortedUnlessNumbersWrap(b, ParseHeader(b), 0);
    SortedFromSorted(0, ParseMessage(b).message.options);
  }
}
