/** The response to a received message, and what it looks like on the wire
    (sections 4.2 and 5.3 of RFC 7252). */
module Responses {
  import opened Bytes
  import opened OptionNodes
  import opened OptionReader
  import opened MessageCodec
  import opened MessageTheorems
  import opened Messages
  import opened MessageReader

  datatype Reply = NoReply | Reply(message: Message)

  /** A confirmable request is answered by an acknowledgement with its id, a
      non-confirmable one by a non-confirmable message whose id is still to be set. */
  function PreparedReply(m: Message, code: byte): (r: Reply) {
    if m.kind == CONFIRMABLE then Reply(Message(ACKNOWLEDGEMENT, code, m.id, m.token, [], []))
    else if m.kind == NON_CONFIRMABLE then Reply(Message(NON_CONFIRMABLE, code, RESERVED_MID, m.token, [], []))
    else NoReply
  }

  /** The message that leaves the peer: an empty acknowledgement loses its token, and a
      confirmable or non-confirmable message gets the next message id. */
  function SentReply(m: Message, code: byte, nextId: uint16): (r: Reply) {
    match PreparedReply(m, code)
    case NoReply => NoReply
    case Reply(p) =>
      if p.kind == ACKNOWLEDGEMENT then Reply(if code == CODE_EMPTY then p.(token := []) else p)
      else Reply(p.(id := nextId))
  }

  /** Any decoded confirmable or non-confirmable request gets an answer that the other side
      decodes to a message that matches the request. */
  lemma ReplyMatchesRequest(b: seq<byte>, code: byte, nextId: uint16)
    requires ParseMessage(b).Decoded?
    ensures var m := ParseMessage(b).message;
            var r := SentReply(m, code, nextId);
            && (r == NoReply <==> m.kind == ACKNOWLEDGEMENT || m.kind == RESET)
            && (r.Reply? ==>
                  && Sendable(r.message)
                  && var answer := ParseMessage(EncodeMessage(r.message));
                  && answer.Decoded?
                  && answer.message.code == code
                  && answer.message.options == [] && answer.message.payload == []
                  && (m.kind == CONFIRMABLE ==>
                        answer.message.kind == ACKNOWLEDGEMENT && answer.message.id == m.id)
                  && (m.kind == NON_CONFIRMABLE ==>
                        answer.message.kind == NON_CONFIRMABLE && answer.message.id == nextId)
                  && (code != CODE_EMPTY || m.kind == NON_CONFIRMABLE ==> answer.message.token == m.token)
                  && (code == CODE_EMPTY && m.kind == CONFIRMABLE ==> |EncodeMessage(r.message)| == HEADER_LENGTH))
  {
    hide ParseMessage;
    DecodedLayout(b);
    var r := SentReply(ParseMessage(b).message, code, nextId);
    if r.Reply? {
      MessageRoundTrip(r.message);
      EmptyMessageLength(r.message);
    }
  }

  lemma EmptyMessageLength(m: Message)
    requires Sendable(m) && m.options == [] && m.payload == []
    ensures |EncodeMessage(m)| == HEADER_LENGTH + |m.token|
  {
  }

  /** Builds the response to a message; none for an acknowledgement, a reset, or a message
      whose token is too long, or when memory runs out. */
  method PrepareResponse(alloc: Allocator, message: CoapMessage, code: byte) returns (response: CoapMessage?)
    requires message.Valid()
    modifies alloc
    ensures alloc.failures >= old(alloc.failures)
    ensures response == null ==> alloc.live == old(alloc.live)
    ensures response != null ==>
              && fresh(response) && response.Valid() && response.nodes == []
              && alloc.live == old(alloc.live) + {response} && alloc.failures == old(alloc.failures)
              && response.tokenLength == message.tokenLength <= TOKEN_MAX_LENGTH
              && PreparedReply(message.Model(), code) == Reply(response.Model())
    ensures response == null && alloc.failures == old(alloc.failures) ==>
              message.tokenLength > TOKEN_MAX_LENGTH || PreparedReply(message.Model(), code) == NoReply
  {
    response := null;
    if message.kind == CONFIRMABLE {
      response := InitMessage(alloc, ACKNOWLEDGEMENT, code, message.tokenLength, message.token);
      if response != null {
        response.id := message.id;
      }
    } else if message.kind == NON_CONFIRMABLE {
      response := InitMessage(alloc, NON_CONFIRMABLE, code, message.tokenLength, message.token);
    }
  }

  /** A new message with a token; refused if the token is too long. */
  method InitMessage(alloc: Allocator, kind: byte, code: byte, tokenLength: byte, token: seq<byte>)
    returns (message: CoapMessage?)
    requires |token| == TOKEN_MAX_LENGTH
    modifies alloc
    ensures alloc.failures >= old(alloc.failures)
    ensures message == null ==> alloc.live == old(alloc.live)
    ensures message == null && alloc.failures == old(alloc.failures) ==> tokenLength > TOKEN_MAX_LENGTH
    ensures message != null ==>
              && tokenLength <= TOKEN_MAX_LENGTH
              && fresh(message) && message.Valid() && message.nodes == []
              && alloc.live == old(alloc.live) + {message} && alloc.failures == old(alloc.failures)
              && message.kind == kind && message.code == code && message.id == RESERVED_MID
              && message.tokenLength == tokenLength && message.Token() == token[..tokenLength]
              && message.payload == []
  {
    message := null;
    if tokenLength > TOKEN_MAX_LENGTH {
      return;
    }
    message := NewMessage(alloc);
    if message == null {
      return;
    }
    message.id := RESERVED_MID;
    message.kind := kind;
    message.code := code;
    if tokenLength != 0 {
      message.tokenLength := tokenLength;
      message.token := token[..tokenLength] + message.token[tokenLength..];
    }
  }

  /** Answers a message over a peer, unless the peer is not connected. The reply that is
      handed to the transport is recorded in sent. */
  method SendResponse(alloc: Allocator, connected: bool, message: CoapMessage, code: byte, nextId: uint16)
    returns (sent: Reply)
    requires message.Valid()
    modifies alloc
    ensures alloc.live == old(alloc.live) && alloc.failures >= old(alloc.failures)
    ensures sent.Reply? ==> connected && sent == SentReply(message.Model(), code, nextId)
    ensures sent == NoReply ==>
              || !connected || alloc.failures > old(alloc.failures) || message.tokenLength > TOKEN_MAX_LENGTH
              || SentReply(message.Model(), code, nextId) == NoReply
  {
    hide IsList, Values, NodeSet;
    sent := NoReply;
    if !connected {
      return;
    }
    var response := PrepareResponse(alloc, message, code);
    if response != null {
      if response.kind == ACKNOWLEDGEMENT && code == CODE_EMPTY {
        response.tokenLength := 0;
      }
      if response.kind == CONFIRMABLE || response.kind == NON_CONFIRMABLE {
        response.id := nextId;
      }
      assert response.Token() == if response.kind == ACKNOWLEDGEMENT && code == CODE_EMPTY then [] else message.Token();
      sent := Reply(Message(response.kind, response.code, response.id,
                            response.token[..response.tokenLength], [], response.payload));
      EmptyList();
      FreeMessage(alloc, response);
    }
  }
}
