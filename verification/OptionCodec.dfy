/** The option format of section 3.1 of RFC 7252: what the serializer writes, what the
    parser accepts, and how the two fit together. */
module OptionCodec {
  import opened Bytes
  import opened Options

  const LIMIT_1: nat := 13
  const LIMIT_2: nat := 269
  const EXTEND_1: byte := 13
  const EXTEND_2: byte := 14
  const FORBIDDEN: byte := 15
  const PAYLOAD_MARKER: byte := 0xFF
  const HEADER_CONSERVATIVE_LENGTH: nat := 3

  // ---------- encoding ----------

  function Nibble(v: uint16): (n: byte) {
    if v < LIMIT_1 then v else if v < LIMIT_2 then EXTEND_1 else EXTEND_2
  }

  function Extension(v: uint16): (b: seq<byte>) {
    if v < LIMIT_1 then []
    else if v < LIMIT_2 then [v - LIMIT_1]
    else [(v - LIMIT_2) / 0x100, (v - LIMIT_2) % 0x100]
  }

  function ValueBytes(o: CoapOption): (b: seq<byte>)
    requires WellFormed(o)
    ensures |b| < 0x1_0000
  {
    match o.content
    case Integer(v) => MinimalBytesLength(v); MinimalBytes(v)
    case Buffer(bytes) => bytes
  }

  /** Option numbers are delta-encoded in 16-bit arithmetic. */
  function Delta(prev: uint16, number: uint16): (d: uint16) {
    (number - prev) % 0x1_0000
  }

  /** The header byte and the extensions, delta first. */
  function EncodeHead(delta: uint16, length: uint16): (b: seq<byte>) {
    [0x10 * Nibble(delta) + Nibble(length)] + Extension(delta) + Extension(length)
  }

  function EncodeOption(prev: uint16, o: CoapOption): (b: seq<byte>)
    requires WellFormed(o)
    ensures b != []
  {
    EncodeHead(Delta(prev, o.number), |ValueBytes(o)|) + ValueBytes(o)
  }

  function EncodeOptions(prev: uint16, os: seq<CoapOption>): (b: seq<byte>)
    requires AllWellFormed(os)
    decreases os
  {
    if os == [] then [] else EncodeOption(prev, os[0]) + EncodeOptions(os[0].number, os[1..])
  }

  function LastNumber(prev: uint16, os: seq<CoapOption>): uint16 {
    if os == [] then prev else os[|os| - 1].number
  }

  // ---------- decoding ----------

  datatype Extended = Forbidden | Truncated | Extended(value: uint16, next: nat)

  /** The value of a two-byte extension before it is cut to 16 bits. */
  function RawExtension(b: seq<byte>, i: nat): (v: nat)
    requires i + 2 <= |b|
  {
    LIMIT_2 + Word(b[i], b[i + 1])
  }

  /** A delta or length whose nibble has been read; i is where its extension starts.
      The result is kept in 16 bits. */
  function ReadExtended(b: seq<byte>, nibble: byte, i: nat): (r: Extended)
    ensures r.Extended? ==> i <= r.next && (i <= |b| ==> r.next <= |b|)
  {
    if nibble == FORBIDDEN then Forbidden
    else if nibble == EXTEND_1 then
      if i + 1 > |b| then Truncated else Extended(LIMIT_1 + b[i], i + 1)
    else if nibble == EXTEND_2 then
      if i + 2 > |b| then Truncated else Extended(RawExtension(b, i) % 0x1_0000, i + 2)
    else Extended(nibble, i)
  }

  /** A decoded option with the place it was found: its header byte and its value slice. */
  datatype Field = Field(header: nat, start: nat, length: uint16, option: CoapOption)

  datatype Step = Reject(status: byte) | Accept(field: Field)

  datatype Head = BadHead(status: byte) | Head(delta: uint16, length: uint16, start: nat)

  /** Header byte and extensions, delta first; start is where the value begins. */
  function ReadHead(b: seq<byte>, i: nat): (r: Head)
    requires i < |b|
    ensures r.Head? ==> i < r.start <= |b|
    ensures r.BadHead? ==> r.status == BAD_REQUEST || r.status == REQUEST_ENTITY_TOO_LARGE
  {
    match ReadExtended(b, b[i] / 0x10, i + 1)
    case Forbidden => BadHead(BAD_REQUEST)
    case Truncated => BadHead(REQUEST_ENTITY_TOO_LARGE)
    case Extended(delta, j) =>
      match ReadExtended(b, b[i] % 0x10, j)
      case Forbidden => BadHead(BAD_REQUEST)
      case Truncated => BadHead(REQUEST_ENTITY_TOO_LARGE)
      case Extended(length, k) => Head(delta, length, k)
  }

  function ParseStep(b: seq<byte>, i: nat, prev: uint16): (r: Step)
    requires i < |b|
    ensures r.Accept? ==> i == r.field.header < r.field.start
    ensures r.Accept? ==> r.field.start + r.field.length <= |b|
    ensures r.Accept? ==> WellFormed(r.field.option)
    ensures r.Reject? ==> r.status != NO_ERROR
  {
    match ReadHead(b, i)
    case BadHead(status) => Reject(status)
    case Head(delta, length, k) =>
      if k + length > |b| then Reject(REQUEST_ENTITY_TOO_LARGE)
      else
        var number := (prev + delta) % 0x1_0000;
        var value := b[k..k + length];
        if !IsInteger(number) then Accept(Field(i, k, length, CoapOption(number, Buffer(value))))
        else if length > 4 then Reject(INTERNAL_SERVER_ERROR)
        else
          BigEndianBound(value);
          Accept(Field(i, k, length, CoapOption(number, Integer(BigEndian(value)))))
  }

  datatype Parse = Failed(status: byte) | Parsed(fields: seq<Field>, end: nat)

  /** Options are read up to the end of the buffer or a payload marker. */
  function ParseFrom(b: seq<byte>, i: nat, prev: uint16): (r: Parse)
    requires i <= |b|
    ensures r.Parsed? ==> i <= r.end <= |b|
    ensures r.Failed? ==> r.status != NO_ERROR
    decreases |b| - i
  {
    if i == |b| || b[i] == PAYLOAD_MARKER then Parsed([], i)
    else
      match ParseStep(b, i, prev)
      case Reject(status) => Failed(status)
      case Accept(f) => Prepend(f, ParseFrom(b, f.start + f.length, f.option.number))
  }

  function Prepend(f: Field, rest: Parse): (r: Parse) {
    match rest
    case Failed(status) => Failed(status)
    case Parsed(fields, end) => Parsed([f] + fields, end)
  }

  function OptionsOf(fields: seq<Field>): (os: seq<CoapOption>) {
    if fields == [] then [] else [fields[0].option] + OptionsOf(fields[1..])
  }

  // ---------- round trip ----------

  lemma {:induction false} OptionsOfAt(fields: seq<Field>, k: nat)
    ensures |OptionsOf(fields)| == |fields|
    ensures k < |fields| ==> OptionsOf(fields)[k] == fields[k].option
    decreases fields
  {
    if fields == [] {
    } else {
      OptionsOfAt(fields[1..], if k > 0 then k - 1 else 0);
    }
  }

  /** The bytes s stand at position i of b. */
  predicate At(b: seq<byte>, i: nat, s: seq<byte>)
    ensures At(b, i, s) ==> i + |s| <= |b|
    decreases s
  {
    if s == [] then i <= |b| else i < |b| && b[i] == s[0] && At(b, i + 1, s[1..])
  }

  lemma {:induction false} AtSlice(b: seq<byte>, i: nat, s: seq<byte>)
    ensures At(b, i, s) <==> i + |s| <= |b| && b[i..i + |s|] == s
    decreases s
  {
    if s == [] {
    } else {
      AtSlice(b, i + 1, s[1..]);
      if i + |s| <= |b| {
        assert b[i..i + |s|] == [b[i]] + b[i + 1..i + |s|];
        assert s == [s[0]] + s[1..];
      }
    }
  }

  lemma {:induction false} AtConcat(b: seq<byte>, i: nat, s: seq<byte>, t: seq<byte>)
    ensures At(b, i, s + t) <==> At(b, i, s) && At(b, i + |s|, t)
    decreases s
  {
    if s == [] {
      assert s + t == t;
    } else {
      AtConcat(b, i + 1, s[1..], t);
      assert (s + t)[1..] == s[1..] + t;
    }
  }

  lemma ReadsExtension(b: seq<byte>, v: uint16, i: nat)
    requires At(b, i, Extension(v))
    ensures ReadExtended(b, Nibble(v), i) == Extended(v, i + |Extension(v)|)
  {
  }

  lemma ReadsHead(b: seq<byte>, i: nat, delta: uint16, length: uint16)
    requires At(b, i, EncodeHead(delta, length))
    ensures i < |b| && b[i] != PAYLOAD_MARKER
    ensures ReadHead(b, i) == Head(delta, length, i + |EncodeHead(delta, length)|)
  {
    var header := [0x10 * Nibble(delta) + Nibble(length)];
    AtConcat(b, i, header + Extension(delta), Extension(length));
    AtConcat(b, i, header, Extension(delta));
    assert b[i] / 0x10 == Nibble(delta) && b[i] % 0x10 == Nibble(length);
    ReadsExtension(b, delta, i + 1);
    ReadsExtension(b, length, i + 1 + |Extension(delta)|);
  }

  lemma DeltaInverse(prev: uint16, number: uint16)
    ensures (prev + Delta(prev, number)) % 0x1_0000 == number
  {
  }

  /** One encoded option, anywhere in a buffer, is read back exactly. */
  lemma ReadsOption(b: seq<byte>, i: nat, prev: uint16, o: CoapOption)
    requires WellFormed(o)
    requires At(b, i, EncodeOption(prev, o))
    ensures i < |b| && b[i] != PAYLOAD_MARKER
    ensures ParseStep(b, i, prev) ==
            Accept(Field(i, i + |EncodeOption(prev, o)| - |ValueBytes(o)|, |ValueBytes(o)|, o))
  {
    hide EncodeHead, ReadHead, ParseStep, Delta, WellFormed, ValueBytes, At;
    var delta, value := Delta(prev, o.number), ValueBytes(o);
    AtConcat(b, i, EncodeHead(delta, |value|), value);
    AtSlice(b, i + |EncodeHead(delta, |value|)|, value);
    ReadsHead(b, i, delta, |value|);
    DeltaInverse(prev, o.number);
    AcceptsValue(b, i, prev, delta, i + |EncodeHead(delta, |value|)|, o);
  }

  /** A head that has been read, followed by the value of the option it announces. */
  lemma AcceptsValue(b: seq<byte>, i: nat, prev: uint16, delta: uint16, k: nat, o: CoapOption)
    requires WellFormed(o) && i < k && i < |b| && k + |ValueBytes(o)| <= |b|
    requires ReadHead(b, i) == Head(delta, |ValueBytes(o)|, k)
    requires (prev + delta) % 0x1_0000 == o.number && b[k..k + |ValueBytes(o)|] == ValueBytes(o)
    ensures ParseStep(b, i, prev) == Accept(Field(i, k, |ValueBytes(o)|, o))
  {
    hide ReadHead, MinimalBytes, BigEndian, IsInteger;
    if o.content.Integer? {
      MinimalBytesIsMinimal(o.content.value);
      MinimalBytesLength(o.content.value);
    }
  }

  lemma OptionsOfCons(f: Field, fields: seq<Field>)
    ensures OptionsOf([f] + fields) == [f.option] + OptionsOf(fields)
  {
    assert ([f] + fields)[1..] == fields;
  }

  lemma ParsePrepend(b: seq<byte>, i: nat, prev: uint16, f: Field)
    requires i < |b| && b[i] != PAYLOAD_MARKER && ParseStep(b, i, prev) == Accept(f)
    ensures var rest := ParseFrom(b, f.start + f.length, f.option.number);
            var all := ParseFrom(b, i, prev);
            && (rest.Failed? ==> all == rest)
            && (rest.Parsed? ==> all == Parsed([f] + rest.fields, rest.end)
                                 && OptionsOf(all.fields) == [f.option] + OptionsOf(rest.fields))
  {
    hide ParseStep, OptionsOf;
    var rest := ParseFrom(b, f.start + f.length, f.option.number);
    if rest.Parsed? {
      OptionsOfCons(f, rest.fields);
    }
  }

  predicate OptionsEndAt(b: seq<byte>, end: nat) {
    end == |b| || (end < |b| && b[end] == PAYLOAD_MARKER)
  }

  ghost predicate ParsesTo(b: seq<byte>, i: nat, prev: uint16, os: seq<CoapOption>, end: nat)
    requires i <= |b|
  {
    var r := ParseFrom(b, i, prev);
    r.Parsed? && OptionsOf(r.fields) == os && r.end == end
  }

  lemma ParsesToNothing(b: seq<byte>, i: nat, prev: uint16)
    requires OptionsEndAt(b, i)
    ensures ParsesTo(b, i, prev, [], i)
  {
  }

  lemma ParsesToCons(b: seq<byte>, i: nat, prev: uint16, o: CoapOption, os: seq<CoapOption>, end: nat)
    requires WellFormed(o) && At(b, i, EncodeOption(prev, o))
    requires ParsesTo(b, i + |EncodeOption(prev, o)|, o.number, os, end)
    ensures ParsesTo(b, i, prev, [o] + os, end)
  {
    hide ParseStep, EncodeOption;
    ReadsOption(b, i, prev, o);
    ParsePrepend(b, i, prev, ParseStep(b, i, prev).field);
  }

  /** A serialized list, anywhere in a buffer where it is followed by nothing or by a
      payload marker, parses back to the same options and to its own end. */
  lemma {:induction false} OptionsRoundTrip(b: seq<byte>, i: nat, prev: uint16, os: seq<CoapOption>)
    requires AllWellFormed(os)
    requires At(b, i, EncodeOptions(prev, os)) && OptionsEndAt(b, i + |EncodeOptions(prev, os)|)
    ensures ParsesTo(b, i, prev, os, i + |EncodeOptions(prev, os)|)
    decreases os
  {
    hide At, ParsesTo, EncodeOption;
    if os == [] {
      ParsesToNothing(b, i, prev);
    } else {
      var e, rest := EncodeOption(prev, os[0]), EncodeOptions(os[0].number, os[1..]);
      AtConcat(b, i, e, rest);
      OptionsRoundTrip(b, i + |e|, os[0].number, os[1..]);
      ParsesToCons(b, i, prev, os[0], os[1..], i + |e| + |rest|);
      assert [os[0]] + os[1..] == os;
    }
  }
}
