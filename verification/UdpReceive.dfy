/** The datagram receive path: parse, refuse block-wise messages, hand over. */
module UdpReceive {
  import opened Bytes
  import opened Options
  import opened OptionTheorems
  import opened OptionNodes
  import opened OptionReader
  import opened Overreads
  import opened MessageCodec
  import opened MessageTheorems
  import opened Messages
  import opened MessageReader
  import opened Responses

  /** What the receive path does with a message: answers it, or hands it to the
      transaction layer. */
  datatype Event = Answered(reply: Message) | Handled(truncated: bool, maxPayloadSize: nat)

  /** The events of one datagram, memory permitting; full says the receive buffer was filled. */
  function Events(b: seq<byte>, full: bool, connected: bool, nextId: uint16): (e: seq<Event>) {
    match ParseMessage(b)
    case Refused(_) => []
    case Decoded(m, _, _) =>
      if Find(m.options, BLOCK_1).Found? then
        if connected && SentReply(m, BAD_OPTION, nextId).Reply?
        then [Answered(SentReply(m, BAD_OPTION, nextId).message)] else []
      else if Find(m.options, BLOCK_2).Found? then []
      else [Handled(full, if full then |m.payload| else 0)]
  }

  predicate ReachesHandler(b: seq<byte>, full: bool, connected: bool, nextId: uint16) {
    exists e :: e in Events(b, full, connected, nextId) && e.Handled?
  }

  predicate HasOption(os: seq<CoapOption>, n: uint16) {
    exists k :: 0 <= k < |os| && os[k].number == n
  }

  /** A greater number stands before every option of the number. */
  predicate Shadowed(os: seq<CoapOption>, n: uint16) {
    exists k :: 0 <= k < |os| && os[k].number > n && forall j :: 0 <= j < k ==> os[j].number != n
  }

  /** The lookup misses a number that is there exactly when it is shadowed. */
  lemma {:induction false} FindMisses(os: seq<CoapOption>, n: uint16)
    ensures Find(os, n) == Missing <==> !HasOption(os, n) || Shadowed(os, n)
  {
    if os == [] {
    } else {
      var rest := os[1..];
      FindMisses(rest, n);
      if os[0].number == n {
        assert HasOption(os, n);
        assert !Shadowed(os, n);
      } else if os[0].number > n {
        assert Shadowed(os, n);
      } else {
        HasOptionCons(os, n);
        ShadowedCons(os, n);
      }
    }
  }

  lemma HasOptionCons(os: seq<CoapOption>, n: uint16)
    requires os != [] && os[0].number != n
    ensures HasOption(os, n) <==> HasOption(os[1..], n)
  {
  }

  lemma ShadowedCons(os: seq<CoapOption>, n: uint16)
    requires os != [] && os[0].number < n
    ensures Shadowed(os, n) <==> Shadowed(os[1..], n)
  {
  }

  /** Exactly which datagrams get through: the decodable ones in which each block option,
      if there is one, stands behind a greater number. */
  lemma BlockFilterExact(b: seq<byte>, full: bool, connected: bool, nextId: uint16)
    requires ParseMessage(b).Decoded?
    ensures var m := ParseMessage(b).message;
            ReachesHandler(b, full, connected, nextId) <==>
            && (HasOption(m.options, BLOCK_1) ==> Shadowed(m.options, BLOCK_1))
            && (HasOption(m.options, BLOCK_2) ==> Shadowed(m.options, BLOCK_2))
  {
    hide ParseMessage, SentReply;
    var m := ParseMessage(b).message;
    FindMisses(m.options, BLOCK_1);
    FindMisses(m.options, BLOCK_2);
    if Find(m.options, BLOCK_1) == Missing && Find(m.options, BLOCK_2) == Missing {
      assert Handled(full, if full then |m.payload| else 0) in Events(b, full, connected, nextId);
    }
  }

  lemma NothingShadowed(os: seq<CoapOption>, n: uint16)
    requires Sorted(os) && HasOption(os, n)
    ensures !Shadowed(os, n)
  {
  }

  /** As long as option numbers stay within 16 bits while they are decoded, no block-wise
      message is handed over, and every other decodable message is. */
  lemma BlockFilterComplete(b: seq<byte>, full: bool, connected: bool, nextId: uint16)
    requires ParseMessage(b).Decoded? && DeltaSum(b, ParseMessage(b).fields) < 0x1_0000
    ensures var m := ParseMessage(b).message;
            ReachesHandler(b, full, connected, nextId) <==>
            !HasOption(m.options, BLOCK_1) && !HasOption(m.options, BLOCK_2)
  {
    hide ParseMessage, Events, DeltaSum, Sorted;
    var m := ParseMessage(b).message;
    DecodedSorted(b);
    BlockFilterExact(b, full, connected, nextId);
    if HasOption(m.options, BLOCK_1) {
      NothingShadowed(m.options, BLOCK_1);
    }
    if HasOption(m.options, BLOCK_2) {
      NothingShadowed(m.options, BLOCK_2);
    }
  }

  /** One datagram, received into a buffer that it may fill; handled is the message that was
      handed over, if any, and past says that a byte from behind the buffer was fetched. Whatever
      happens, the parsed message and the response are freed again, each once. */
  method ReceiveDatagram(alloc: Allocator, buffer: array<byte>, bufferLength: int, connected: bool, nextId: uint16)
    returns (events: seq<Event>, handled: CoapMessage?, past: bool)
    requires bufferLength <= buffer.Length
    modifies alloc
    ensures alloc.live == old(alloc.live) && alloc.failures >= old(alloc.failures)
    ensures bufferLength <= 0 ==> events == [] && alloc.failures == old(alloc.failures)
    ensures bufferLength > 0 && alloc.failures == old(alloc.failures) ==>
              events == Events(buffer[..bufferLength], bufferLength == buffer.Length, connected, nextId)
    ensures bufferLength > 0 && events != [] ==>
              events == Events(buffer[..bufferLength], bufferLength == buffer.Length, connected, nextId)
    ensures handled != null <==> exists e :: e in events && e.Handled?
    ensures handled != null ==>
              bufferLength > 0 && handled.Valid() && DecodesTo(buffer[..bufferLength], handled.Model())
    ensures past ==> bufferLength > 0 && DatagramOverread(buffer[..], bufferLength) && events == []
    ensures bufferLength > 0 && alloc.failures == old(alloc.failures) && DatagramOverread(buffer[..], bufferLength) ==> past
  {
    hide ParseMessage, SentReply, IsList, Values, NodeSet, Find, Events, DecodesTo, DatagramOverread, CoapMessage.Model, CoapMessage.Valid;
    events, handled, past := [], null, false;
    if bufferLength <= 0 {
      return;
    }
    ghost var b, full := buffer[..bufferLength], bufferLength >= buffer.Length;
    var maxPayloadSize := 0;
    var truncated;
    var status, message;
    status, message, past := ParseDatagram(alloc, buffer, bufferLength);
    if status != NO_ERROR {
      RefusedEvents(b, full, connected, nextId);
      return;
    }
    NodesOutside(message.nodes, old(alloc.live));
    DecodedEvents(b, message, full, connected, nextId);
    NotOverread(buffer[..], bufferLength);
    if bufferLength >= buffer.Length {
      maxPayloadSize := |message.payload|;
      truncated := true;
    } else {
      truncated := false;
    }
    var block := message.FindOption(BLOCK_1);
    if block != null {
      var sent := SendResponse(alloc, connected, message, BAD_OPTION, nextId);
      if sent.Reply? {
        events := [Answered(sent.message)];
      }
      FreeMessage(alloc, message);
      return;
    }
    block := message.FindOption(BLOCK_2);
    if block != null {
      FreeMessage(alloc, message);
      return;
    }
    events, handled := [Handled(truncated, maxPayloadSize)], message;
    assert events[0].Handled?;
    FreeMessage(alloc, message);
  }

  lemma NotOverread(memory: seq<byte>, limit: nat)
    requires limit <= |memory| && ParseMessage(memory[..limit]).Decoded?
    ensures !DatagramOverread(memory, limit)
  {
    hide ParseMessage, DatagramOverread;
    if DatagramOverread(memory, limit) {
      DatagramOverreadIsRejected(memory, limit);
    }
  }

  lemma RefusedEvents(b: seq<byte>, full: bool, connected: bool, nextId: uint16)
    ensures ParseMessage(b).Refused? ==> Events(b, full, connected, nextId) == []
  {
  }

  lemma DecodedEvents(b: seq<byte>, message: CoapMessage, full: bool, connected: bool, nextId: uint16)
    requires message.Valid() && DecodesTo(b, message.Model())
    ensures ParseMessage(b).Decoded?
    ensures var os, reply := Values(message.nodes), SentReply(message.Model(), BAD_OPTION, nextId);
            Events(b, full, connected, nextId) ==
              if Find(os, BLOCK_1).Found? then if connected && reply.Reply? then [Answered(reply.message)] else []
              else if Find(os, BLOCK_2).Found? then []
              else [Handled(full, if full then |message.payload| else 0)]
  {
  }
}
