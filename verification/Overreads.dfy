/** When the option parser fetches bytes from beyond the memory that holds the datagram: it
    fetches an extension before it tests whether the datagram goes on that far. */
module Overreads {
  import opened Bytes
  import opened OptionCodec
  import opened MessageCodec

  /** The header at i announces an extension that the memory does not hold in full. The length
      is looked at only if the delta ended inside the datagram, the first limit bytes. */
  predicate HeadOverreads(memory: seq<byte>, limit: nat, i: nat)
    requires i < limit <= |memory|
  {
    match ReadExtended(memory, memory[i] / 0x10, i + 1)
    case Forbidden => false
    case Truncated => true
    case Extended(_, j) => j <= limit && ReadExtended(memory, memory[i] % 0x10, j) == Truncated
  }

  /** Where parsing ends, or the header byte of the option it gives up at. */
  function StopsAt(b: seq<byte>, i: nat, prev: uint16): (h: nat)
    requires i <= |b|
    ensures i <= h <= |b|
    decreases |b| - i
  {
    if i == |b| || b[i] == PAYLOAD_MARKER then i
    else
      match ParseStep(b, i, prev)
      case Reject(_) => i
      case Accept(f) => StopsAt(b, f.start + f.length, f.option.number)
  }

  /** Options parsed from i on make the parser leave the memory. */
  predicate OptionsOverread(memory: seq<byte>, limit: nat, i: nat)
    requires i <= limit <= |memory|
  {
    var b := memory[..limit];
    var h := StopsAt(b, i, 0);
    h < limit && b[h] != PAYLOAD_MARKER && HeadOverreads(memory, limit, h)
  }

  /** Parsing gives up exactly if it stops before the end and not at a payload marker. */
  lemma {:induction false} StopsWhereItFails(b: seq<byte>, i: nat, prev: uint16)
    requires i <= |b|
    ensures ParseFrom(b, i, prev).Failed? <==> StopsAt(b, i, prev) < |b| && b[StopsAt(b, i, prev)] != PAYLOAD_MARKER
    decreases |b| - i
  {
    hide ParseStep;
    if i == |b| || b[i] == PAYLOAD_MARKER || ParseStep(b, i, prev).Reject? {
    } else {
      var f := ParseStep(b, i, prev).field;
      StopsWhereItFails(b, f.start + f.length, f.option.number);
    }
  }

  /** The option it stops at says with which status. */
  lemma {:induction false} StopReason(b: seq<byte>, i: nat, prev: uint16) returns (p: uint16)
    requires i <= |b| && ParseFrom(b, i, prev).Failed?
    ensures var h := StopsAt(b, i, prev);
            h < |b| && ParseStep(b, h, p) == Reject(ParseFrom(b, i, prev).status)
    decreases |b| - i
  {
    hide ParseStep;
    match ParseStep(b, i, prev)
    case Reject(_) => p := prev;
    case Accept(f) => p := StopReason(b, f.start + f.length, f.option.number);
  }

  /** What sticks out of the memory sticks out of the datagram. */
  lemma HeadOverreadIsTruncated(memory: seq<byte>, limit: nat, i: nat)
    requires i < limit <= |memory| && HeadOverreads(memory, limit, i)
    ensures ReadHead(memory[..limit], i) == BadHead(REQUEST_ENTITY_TOO_LARGE)
  {
  }

  /** A datagram that is read beyond is always rejected as truncated. */
  lemma OverreadIsRejected(memory: seq<byte>, limit: nat, i: nat)
    requires i <= limit <= |memory| && OptionsOverread(memory, limit, i)
    ensures ParseFrom(memory[..limit], i, 0) == Failed(REQUEST_ENTITY_TOO_LARGE)
  {
    hide ReadHead, HeadOverreads, ParseFrom, StopsAt;
    var b := memory[..limit];
    var h := StopsAt(b, i, 0);
    StopsWhereItFails(b, i, 0);
    HeadOverreadIsTruncated(memory, limit, h);
    var p := StopReason(b, i, 0);
  }

  /** Two bytes behind the datagram are enough. */
  lemma TwoBytesSuffice(memory: seq<byte>, limit: nat, i: nat)
    requires i <= limit && limit + 2 <= |memory|
    ensures !OptionsOverread(memory, limit, i)
  {
    hide StopsAt;
  }

  /** Without any byte behind the datagram, the parser leaves the memory exactly if it stops at
      an option whose header and extensions are cut off. */
  lemma OverreadsFullMemory(b: seq<byte>, i: nat)
    requires i <= |b|
    ensures var h := StopsAt(b, i, 0);
            OptionsOverread(b, |b|, i) <==>
            h < |b| && b[h] != PAYLOAD_MARKER && ReadHead(b, h) == BadHead(REQUEST_ENTITY_TOO_LARGE)
  {
    hide StopsAt;
    assert b[..|b|] == b;
  }

  /** Parsing the datagram in the first limit bytes leaves the memory. */
  predicate DatagramOverread(memory: seq<byte>, limit: nat)
    requires limit <= |memory|
  {
    var n := ParseHeader(memory[..limit]);
    n != 0 && OptionsOverread(memory, limit, n)
  }

  lemma DatagramOverreadIsRejected(memory: seq<byte>, limit: nat)
    requires limit <= |memory| && DatagramOverread(memory, limit)
    ensures ParseMessage(memory[..limit]) == Refused(REQUEST_ENTITY_TOO_LARGE)
  {
    hide OptionsOverread, ParseFrom, ParseHeader;
    OverreadIsRejected(memory, limit, ParseHeader(memory[..limit]));
  }

  /** A datagram that ends with an option header byte which announces an extended delta, and
      fills its memory, is read beyond; one more byte of memory prevents it. */
  lemma CutExtensionOverreads(x: byte)
    ensures var b := [0x40, 0x01, 0x00, 0x01, 0xD0];
            DatagramOverread(b, |b|) && !DatagramOverread(b + [x], |b|)
  {
    var b: seq<byte> := [0x40, 0x01, 0x00, 0x01, 0xD0];
    var memory := b + [x];
    assert b[..|b|] == b == memory[..|b|];
    assert ReadExtended(b, 0xD, 5) == Truncated;
    assert ReadExtended(memory, 0xD, 5) == Extended(LIMIT_1 + x, 6);
    assert StopsAt(b, 4, 0) == 4;
  }
}
