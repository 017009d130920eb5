/** Parsing a datagram into a message, with every allocation accounted for. */
module MessageReader {
  import opened Bytes
  import opened Options
  import opened OptionCodec
  import opened OptionNodes
  import opened OptionReader
  import opened Overreads
  import opened MessageCodec
  import opened MessageTheorems
  import opened Messages

  /** A zeroed message, or null when memory runs out. */
  method NewMessage(alloc: Allocator) returns (message: CoapMessage?)
    modifies alloc
    ensures alloc.messageFailures - old(alloc.messageFailures) == alloc.failures - old(alloc.failures)
    ensures message == null ==> alloc.live == old(alloc.live) && alloc.failures == old(alloc.failures) + 1
    ensures message != null ==>
              && fresh(message) && message.Valid() && message.nodes == []
              && alloc.live == old(alloc.live) + {message} && alloc.failures == old(alloc.failures)
              && message.kind == 0 && message.code == 0 && message.id == 0
              && message.tokenLength == 0 && message.payload == []
  {
    if * {
      message := null;
      alloc.failures := alloc.failures + 1;
      alloc.messageFailures := alloc.messageFailures + 1;
    } else {
      message := new CoapMessage();
      alloc.live := alloc.live + {message};
    }
  }

  /** Frees a message and its options. */
  method FreeMessage(alloc: Allocator, message: CoapMessage?)
    requires message != null ==> message.Valid() && message in alloc.live && NodeSet(message.nodes) <= alloc.live
    modifies alloc`live
    ensures message == null ==> alloc.live == old(alloc.live)
    ensures message != null ==> alloc.live == old(alloc.live) - NodeSet(message.nodes) - {message}
  {
    if message != null {
      alloc.FreeOptions(message.optionList, message.nodes);
      alloc.Free(message);
    }
  }

  /** Header and token. Returns 0 and no message if they are not acceptable. */
  method ParseDatagramHeader(alloc: Allocator, buffer: array<byte>, bufferLength: nat)
    returns (index: nat, message: CoapMessage?)
    requires bufferLength <= buffer.Length
    modifies alloc
    ensures index == 0 <==> message == null
    ensures alloc.failures >= old(alloc.failures)
    ensures alloc.messageFailures - old(alloc.messageFailures) == alloc.failures - old(alloc.failures)
    ensures alloc.failures > old(alloc.failures) ==> ParseHeader(buffer[..bufferLength]) != 0
    ensures alloc.failures == old(alloc.failures) ==> index == ParseHeader(buffer[..bufferLength])
    ensures message == null ==> alloc.live == old(alloc.live)
    ensures message != null ==>
              && alloc.failures == old(alloc.failures)
              && alloc.live == old(alloc.live) + {message}
              && fresh(message) && message.Valid() && message.nodes == []
              && var b := buffer[..bufferLength];
              && message.kind == (b[0] / 0x10) % 4 && message.code == b[1] && message.id == Word(b[2], b[3])
              && message.Token() == b[HEADER_LENGTH..index] && message.payload == []
              && message.tokenLength <= TOKEN_MAX_LENGTH
  {
    index, message := 0, null;
    if bufferLength < HEADER_LENGTH {
      return;
    }
    if buffer[0] / 0x40 != 1 {
      return;
    }
    var tokenLen: byte := buffer[0] % 0x10;
    if tokenLen > TOKEN_MAX_LENGTH {
      return;
    }
    if HEADER_LENGTH + tokenLen > bufferLength {
      return;
    }
    message := NewMessage(alloc);
    if message == null {
      return;
    }
    message.kind := (buffer[0] / 0x10) % 4;
    message.code := buffer[1];
    message.id := Word(buffer[2], buffer[3]);
    if tokenLen > 0 {
      message.tokenLength := tokenLen;
      message.token := buffer[HEADER_LENGTH..HEADER_LENGTH + tokenLen] + message.token[tokenLen..];
      assert message.token[..tokenLen] == buffer[HEADER_LENGTH..HEADER_LENGTH + tokenLen];
    }
    index := HEADER_LENGTH + tokenLen;
    assert buffer[..bufferLength][HEADER_LENGTH..index] == buffer[HEADER_LENGTH..index];
    assert message.Token() == buffer[HEADER_LENGTH..index];
  }

  /** A whole datagram. On success the message is what the format says; on any error nothing
      that was allocated remains. Running out of memory is reported as an internal error,
      except for the message itself, whose refusal makes an acceptable header a bad request. */
  method ParseDatagram(alloc: Allocator, buffer: array<byte>, bufferLength: nat)
    returns (status: byte, message: CoapMessage?, past: bool)
    requires bufferLength <= buffer.Length
    modifies alloc
    ensures status == NO_ERROR <==> message != null
    ensures alloc.failures >= old(alloc.failures) && alloc.messageFailures >= old(alloc.messageFailures)
    ensures message == null ==> alloc.live == old(alloc.live)
    ensures message != null ==>
              && fresh(message) && message.Valid() && (forall i :: 0 <= i < |message.nodes| ==> fresh(message.nodes[i]))
              && alloc.live == old(alloc.live) + {message} + NodeSet(message.nodes)
              && DecodesTo(buffer[..bufferLength], message.Model()) && message.tokenLength <= TOKEN_MAX_LENGTH
    ensures alloc.failures == old(alloc.failures) && message == null ==>
              ParseMessage(buffer[..bufferLength]) == Refused(status)
    ensures alloc.messageFailures > old(alloc.messageFailures) ==>
              status == BAD_REQUEST && ParseHeader(buffer[..bufferLength]) != 0
    ensures alloc.failures > old(alloc.failures) && alloc.messageFailures == old(alloc.messageFailures) ==>
              status == INTERNAL_SERVER_ERROR
    ensures past ==> DatagramOverread(buffer[..], bufferLength)
    ensures alloc.failures == old(alloc.failures) && DatagramOverread(buffer[..], bufferLength) ==> past
  {
    hide IsList, Values, NodeSet, ParseMessage, DecodesTo, ParseHeader, OptionsOverread, Word, CoapMessage.Model, CoapMessage.Valid;
    past := false;
    var index;
    index, message := ParseDatagramHeader(alloc, buffer, bufferLength);
    if index == 0 {
      HeaderRefused(buffer[..bufferLength]);
      return BAD_REQUEST, null, past;
    }
    status, past := ParseBody(alloc, buffer, bufferLength, index, message);
    if status != NO_ERROR {
      FreeMessage(alloc, message);
      NodesOutside(message.nodes, old(alloc.live));
      message := null;
    }
  }

  /** What follows the token; the message gets its options and its payload. */
  method ParseBody(alloc: Allocator, buffer: array<byte>, bufferLength: nat, start: nat, message: CoapMessage)
    returns (status: byte, past: bool)
    requires start <= bufferLength <= buffer.Length && start == ParseHeader(buffer[..bufferLength]) != 0
    requires message.Valid() && message.nodes == [] && message.payload == [] && message.tokenLength <= TOKEN_MAX_LENGTH
    requires var b := buffer[..bufferLength];
             && message.kind == (b[0] / 0x10) % 4 && message.code == b[1] && message.id == Word(b[2], b[3])
             && message.Token() == b[HEADER_LENGTH..start]
    modifies alloc, message`optionList, message`nodes, message`payload
    ensures message.Valid() && (forall i :: 0 <= i < |message.nodes| ==> fresh(message.nodes[i]))
    ensures alloc.live == old(alloc.live) + NodeSet(message.nodes)
    ensures alloc.failures >= old(alloc.failures) && alloc.messageFailures == old(alloc.messageFailures)
    ensures status == NO_ERROR ==> DecodesTo(buffer[..bufferLength], message.Model())
    ensures alloc.failures == old(alloc.failures) && status != NO_ERROR ==>
              ParseMessage(buffer[..bufferLength]) == Refused(status)
    ensures alloc.failures > old(alloc.failures) ==> status == INTERNAL_SERVER_ERROR
    ensures past ==> DatagramOverread(buffer[..], bufferLength)
    ensures alloc.failures == old(alloc.failures) && DatagramOverread(buffer[..], bufferLength) ==> past
  {
    hide ParseFrom, IsList, Values, NodeSet, ParseMessage, DecodesTo, ParseHeader, OptionsOf, OptionsOverread, Word,
         CoapMessage.Model;
    ghost var b := buffer[..bufferLength];
    var head, length;
    ghost var nodes;
    status, head, length, past, nodes := ParseOptions(alloc, buffer, start, bufferLength);
    message.optionList, message.nodes := head, nodes;
    if status != NO_ERROR {
      OptionsRefused(b, status);
      return;
    }
    var index := start + length;
    if index < bufferLength {
      if buffer[index] == PAYLOAD_MARKER {
        index := index + 1;
        message.payload := buffer[index..bufferLength];
      } else {
        MarkerRefused(b);
        return BAD_REQUEST, past;
      }
    }
    assert b[index..] == buffer[index..bufferLength];
    WholeDatagram(b, message, start + length);
  }

  lemma HeaderRefused(b: seq<byte>)
    ensures ParseHeader(b) == 0 ==> ParseMessage(b) == Refused(BAD_REQUEST)
  {
  }

  lemma OptionsRefused(b: seq<byte>, status: byte)
    ensures ParseHeader(b) != 0 && ParseFrom(b, ParseHeader(b), 0) == Failed(status) ==>
              ParseMessage(b) == Refused(status)
  {
  }

  lemma MarkerRefused(b: seq<byte>)
    requires ParseHeader(b) != 0
    ensures var r := ParseFrom(b, ParseHeader(b), 0);
            (r.Parsed? && r.end < |b| && b[r.end] != PAYLOAD_MARKER) ==> ParseMessage(b) == Refused(BAD_REQUEST)
  {
  }

  /** Header, options and payload together make the message. */
  lemma WholeDatagram(b: seq<byte>, message: CoapMessage, end: nat)
    requires message.Valid() && message.tokenLength <= TOKEN_MAX_LENGTH
    requires var n := ParseHeader(b);
             && n != 0 && n <= end <= |b| && (end < |b| ==> b[end] == PAYLOAD_MARKER)
             && message.kind == (b[0] / 0x10) % 4 && message.code == b[1] && message.id == Word(b[2], b[3])
             && message.Token() == b[HEADER_LENGTH..n]
             && var r := ParseFrom(b, n, 0);
             && r.Parsed? && r.end == end && Values(message.nodes) == OptionsOf(r.fields)
    requires message.payload == if end < |b| then b[end + 1..] else []
    ensures DecodesTo(b, message.Model())
  {
    hide ParseFrom, IsList, Values, ParseMessage, DecodesTo, ParseHeader, OptionsOf, ParsesTo;
    var n := ParseHeader(b);
    ParsesToIntro(b, n, 0, Values(message.nodes), end);
    ParseMessageFrom(b, Values(message.nodes), end);
  }

  lemma ParsesToIntro(b: seq<byte>, i: nat, prev: uint16, os: seq<CoapOption>, end: nat)
    requires i <= |b| && ParseFrom(b, i, prev).Parsed?
    requires OptionsOf(ParseFrom(b, i, prev).fields) == os && ParseFrom(b, i, prev).end == end
    ensures ParsesTo(b, i, prev, os, end)
  {
  }
}
