/** Results that go through all the parts: building, serializing, parsing, looking up and
    comparing. */
module EndToEnd {
  import opened Bytes
  import opened Options
  import opened OptionCodec
  import opened MessageCodec
  import opened MessageTheorems
  import opened Paths
  import opened PathTheorems
  import opened Responses
  import opened Rfc7252
  import opened Transactions
  import opened UdpReceive

  lemma InsertWellFormed(os: seq<CoapOption>, chain: seq<CoapOption>)
    requires AllWellFormed(os) && AllWellFormed(chain)
    ensures AllWellFormed(Insert(os, chain))
  {
  }

  lemma {:induction false} BuildWellFormed(chains: seq<seq<CoapOption>>)
    requires forall i :: 0 <= i < |chains| ==> AllWellFormed(chains[i])
    ensures AllWellFormed(Build(chains))
  {
    hide AllWellFormed, Insert;
    if chains == [] {
      NothingWellFormed();
    } else {
      BuildWellFormed(chains[..|chains| - 1]);
      InsertWellFormed(Build(chains[..|chains| - 1]), chains[|chains| - 1]);
    }
  }

  lemma NothingWellFormed()
    ensures AllWellFormed([])
  {
  }

  /** A message whose options were added in any order, chain by chain, goes over the wire
      unharmed, and the receiver finds under each number the option that was added first. */
  lemma BuiltMessageSurvives(m: Message, chains: seq<seq<CoapOption>>, n: uint16)
    requires m.kind <= RESET && |m.token| <= TOKEN_MAX_LENGTH && m.options == Build(chains)
    requires forall i :: 0 <= i < |chains| ==> Uniform(chains[i]) && AllWellFormed(chains[i])
    ensures Sorted(m.options) && Sendable(m)
    ensures var r := ParseMessage(EncodeMessage(m));
            && r.Decoded? && r.message == m
            && (Find(r.message.options, n) == Missing <==> WithNumber(Flatten(chains), n) == [])
            && (Find(r.message.options, n).Found? ==>
                  r.message.options[Find(r.message.options, n).index] == WithNumber(Flatten(chains), n)[0])
  {
    hide Uniform, AllWellFormed, Sorted, ParseMessage, EncodeMessage, Build, Find;
    BuildWellFormed(chains);
    FindAfterBuild(chains, n);
    MessageRoundTrip(m);
  }

  /** The options from a found one on are a sorted list that begins with its whole run. */
  lemma RunFromFound(os: seq<CoapOption>, n: uint16)
    requires Sorted(os) && Find(os, n).Found?
    ensures var rest := os[Find(os, n).index..];
            rest != [] && Sorted(rest) && rest[0].number == n && WithNumber(rest, n) == WithNumber(os, n)
  {
    var k := Find(os, n).index;
    assert os == os[..k] + os[k..];
    SortedConcat(os[..k], os[k..]);
    WithNumberConcat(os[..k], os[k..], n);
    WithNumberEmpty(os[..k], n);
  }

  /** A path, added as options of a number for buffers (Uri-Path, say) to any sorted message that
      has none of that number, serialized, parsed and looked up again, compares equal to itself.
      Where plain char is signed this holds exactly for the paths without a byte above 0x7F. */
  lemma PathSurvivesTheWire(m: Message, number: uint16, path: seq<byte>, d: byte, signedChar: bool)
    requires !IsInteger(number) && Sendable(m) && Sorted(m.options) && WithNumber(m.options, number) == []
    requires Fits(Split(DropDelimiter(path, d), d))
    ensures var segments := Split(DropDelimiter(path, d), d);
            var sent := m.(options := Insert(m.options, OptionsFor(number, segments)));
            && Sendable(sent) && Sorted(sent.options)
            && var r := ParseMessage(EncodeMessage(sent));
            && r.Decoded? && r.message == sent
            && var found := Find(r.message.options, number);
            && found.Found?
            && (CompareToPath(r.message.options[found.index..], path, d, signedChar) <==> Readable(segments, signedChar))
  {
    hide ParseMessage, EncodeMessage, CompareToPath, Split, DropDelimiter, Readable, Sorted, Insert;
    var segments := Split(DropDelimiter(path, d), d);
    var chain := OptionsFor(number, segments);
    var sent := m.(options := Insert(m.options, chain));
    PathChain(number, segments);
    InsertWellFormed(m.options, chain);
    InsertIsStable(m.options, chain);
    InsertKeepsRun(m.options, chain, number);
    assert WithNumber(sent.options, number) == chain;
    MessageRoundTrip(sent);
    FindOnSorted(sent.options, number);
    RunFromFound(sent.options, number);
    CompareAcceptsItself(sent.options[Find(sent.options, number).index..], path, d, signedChar);
  }

  lemma PathChain(number: uint16, segments: seq<seq<byte>>)
    requires !IsInteger(number) && segments != [] && Fits(segments)
    ensures var chain := OptionsFor(number, segments);
            chain != [] && AllWellFormed(chain) && Uniform(chain) && WithNumber(chain, number) == chain
  {
  }

  const SHADOWING := Message(CONFIRMABLE, 1, 1, [], [CoapOption(SIZE_1, Integer(0)), CoapOption(BLOCK_1, Integer(0))], [])

  lemma ShadowingBytes()
    ensures Sendable(SHADOWING)
    ensures EncodeMessage(SHADOWING) == [0x40, 0x01, 0x00, 0x01, 0xD0, 0x2F, 0xE0, 0xFE, 0xD2]
  {
    var os := SHADOWING.options;
    assert AllWellFormed(os);
    assert EncodeOption(0, os[0]) == [0xD0, 0x2F];
    assert EncodeOption(SIZE_1, os[1]) == [0xE0, 0xFE, 0xD2];
    assert os[1..] == [os[1]] && os[1..][1..] == [];
    assert EncodeOptions(SIZE_1, os[1..]) == [0xE0, 0xFE, 0xD2];
    assert EncodeOptions(0, os) == [0xD0, 0x2F] + [0xE0, 0xFE, 0xD2];
  }

  /** The filter of the receive path is not complete without the condition on the deltas: this
      datagram decodes to a Size1 option followed by a Block1 option, and is handed over. */
  lemma WrappedNumberPassesFilter(full: bool, connected: bool, nextId: uint16)
    ensures var b := [0x40, 0x01, 0x00, 0x01, 0xD0, 0x2F, 0xE0, 0xFE, 0xD2];
            && ParseMessage(b).Decoded?
            && HasOption(ParseMessage(b).message.options, BLOCK_1)
            && ReachesHandler(b, full, connected, nextId)
  {
    hide ParseMessage, EncodeMessage, Events;
    ShadowingBytes();
    MessageRoundTrip(SHADOWING);
    var os := SHADOWING.options;
    assert os[0].number == SIZE_1 && os[1].number == BLOCK_1;
    assert Shadowed(os, BLOCK_1);
    BlockFilterExact(EncodeMessage(SHADOWING), full, connected, nextId);
  }

  // ---------- a request and its acknowledgement ----------

  /** What the other side answers to a confirmable message, once it went over the wire, is an
      acknowledgement with its id, and the receive path hands it over. */
  lemma AnswerOnTheWire(m: Message, code: byte, remoteId: uint16)
    requires Sendable(m) && m.kind == CONFIRMABLE
    ensures var request := ParseMessage(EncodeMessage(m));
            && request.Decoded?
            && var reply := SentReply(request.message, code, remoteId);
            && reply.Reply? && Sendable(reply.message)
            && var answer := ParseMessage(EncodeMessage(reply.message));
            && answer.Decoded? && answer.message.kind == ACKNOWLEDGEMENT && answer.message.id == m.id
            && forall full, connected, nextId :: ReachesHandler(EncodeMessage(reply.message), full, connected, nextId)
  {
    hide ParseMessage, EncodeMessage, SentReply, ReachesHandler;
    MessageRoundTrip(m);
    ReplyMatchesRequest(EncodeMessage(m), code, remoteId);
    var wire := EncodeMessage(SentReply(m, code, remoteId).message);
    forall full: bool, connected: bool, nextId: uint16 ensures ReachesHandler(wire, full, connected, nextId) {
      BlockFilterExact(wire, full, connected, nextId);
    }
  }

  /** A reply whose id is that of a pending message completes it, once, and no other. */
  lemma ReplyEndsOne(q: Peer, s: nat, mid: uint16, now: int)
    requires Safe(q) && Waiting(q.pending, s) > 0 && mid == MidAt(q.firstMid, s)
    requires forall k :: 0 <= k < |q.pending| ==> q.pending[k].serial + 65535 >= |q.drawn|
    ensures var after := ReceiveReply(q, mid, false, now);
            && after.log == q.log + [Completed(s, Acknowledged, now)]
            && Waiting(after.pending, s) == 0 && Ends(after.log, s) == 1
            && forall t: nat :: t != s ==> Waiting(after.pending, t) == Waiting(q.pending, t)
  {
    hide Sends, Waiting, ReceiveReply, MidAt, Bounded, Patient;
    var j := WaitingWitness(q.pending, s);
    assert OnSchedule(q, q.pending[j]);
    ReplyCompletesItsMessage(q, j, false, now);
    SafeAfterReceive(q, mid, false, now);
    var after, event := ReceiveReply(q, mid, false, now), [Completed(s, Acknowledged, now)];
    assert event[..0] == [];
    RunKeepsDraws(q, mid, now);
    forall t: nat ensures Ends(after.log, t) == Ends(q.log, t) + if t == s then 1 else 0 {
      EndsConcat(q.log, event, t);
    }
    forall t: nat | t != s ensures Waiting(after.pending, t) == Waiting(q.pending, t) {
      ReceiveCounts(q, mid, false, now, t);
    }
  }

  lemma RunKeepsDraws(q: Peer, mid: uint16, now: int)
    ensures ReceiveReply(q, mid, false, now).drawn == q.drawn
  {
  }

  /** Between two peers: a confirmable message that was sent during a run, that is still pending
      at the end of it, and that is not overtaken by 65535 later ids. When the other side has
      decoded and answered it, the decoded answer completes that very message, whatever the
      code, and leaves all others pending. */
  lemma AnswerCompletesItsRequest(ackTimeout: nat, maxRetransmit: nat, firstMid: uint16, early: seq<Input>, late: seq<Input>,
                                  m: Message, sentAt: int, code: byte, remoteId: uint16, now: int)
    requires Sendable(m) && m.kind == CONFIRMABLE
    requires m.id == Run(NewPeer(ackTimeout, maxRetransmit, firstMid), early).nextMid
    requires var s := |Run(NewPeer(ackTimeout, maxRetransmit, firstMid), early).drawn|;
             var q := Run(NewPeer(ackTimeout, maxRetransmit, firstMid), early + [Send(true, Taken, sentAt)] + late);
             && Waiting(q.pending, s) > 0
             && forall k :: 0 <= k < |q.pending| ==> q.pending[k].serial + 65535 >= |q.drawn|
    ensures var request := ParseMessage(EncodeMessage(m));
            && request.Decoded?
            && var reply := SentReply(request.message, code, remoteId);
            && reply.Reply? && Sendable(reply.message)
            && var answer := ParseMessage(EncodeMessage(reply.message));
            && answer.Decoded?
            && var s := |Run(NewPeer(ackTimeout, maxRetransmit, firstMid), early).drawn|;
            && var q := Run(NewPeer(ackTimeout, maxRetransmit, firstMid), early + [Send(true, Taken, sentAt)] + late);
            && var after := ReceiveMessage(q, answer.message, now);
            && after.log == q.log + [Completed(s, Acknowledged, now)]
            && Waiting(after.pending, s) == 0 && Ends(after.log, s) == 1
            && forall t: nat :: t != s ==> Waiting(after.pending, t) == Waiting(q.pending, t)
  {
    hide ParseMessage, EncodeMessage, SentReply, Run, Waiting, Ends, ReceiveReply, MidAt, Sendable;
    var start, inputs := NewPeer(ackTimeout, maxRetransmit, firstMid), early + [Send(true, Taken, sentAt)] + late;
    var s, q := |Run(start, early).drawn|, Run(start, inputs);
    RunIsSafe(ackTimeout, maxRetransmit, firstMid, early);
    RunIsSafe(ackTimeout, maxRetransmit, firstMid, inputs);
    RunKeepsSettings(start, early);
    RunKeepsSettings(start, inputs);
    AnswerOnTheWire(m, code, remoteId);
    ReplyEndsOne(q, s, m.id, now);
  }

  // ---------- the type decides what a message completes ----------

  /** Types 0 and 1, and ids that no pending message has, change nothing. */
  lemma DispatchNothing(p: Peer, kind: byte, mid: uint16, now: int)
    requires kind <= 1 || forall k :: 0 <= k < |p.pending| ==> p.pending[k].mid != mid
    ensures Dispatch(p, kind, mid, now) == p
  {
  }

  /** Types 2 and 3 complete the first pending message with the id. */
  lemma DispatchFirst(p: Peer, kind: byte, mid: uint16, now: int, i: nat)
    requires 2 <= kind <= 3 && i < |p.pending| && p.pending[i].mid == mid
    requires forall k :: 0 <= k < i ==> p.pending[k].mid != mid
    ensures Dispatch(p, kind, mid, now)
            == p.(pending := p.pending[..i] + p.pending[i + 1..],
                  log := p.log + [Completed(p.pending[i].serial, if kind == 2 then Acknowledged else WasReset, now)])
  {
    hide FindMid;
    assert FindMid(p.pending, mid) == i;
  }

  /** After any run: a decoded datagram completes a pending message exactly if it begins with 0x6
      (an acknowledgement) or 0x7 (a reset) and bears the id of one; it completes the first such. Any
      other changes nothing. */
  lemma DatagramDispatch(ackTimeout: nat, maxRetransmit: nat, firstMid: uint16, inputs: seq<Input>, b: seq<byte>, now: int)
    requires ParseMessage(b).Decoded?
    ensures |b| >= 4
    ensures var q := Run(NewPeer(ackTimeout, maxRetransmit, firstMid), inputs);
            var after, mid := ReceiveMessage(q, ParseMessage(b).message, now), 256 * (b[2] as int) + b[3] as int;
            && (b[0] / 16 == 4 || b[0] / 16 == 5 || (forall k :: 0 <= k < |q.pending| ==> q.pending[k].mid != mid)
                ==> after == q)
            && forall i :: 0 <= i < |q.pending| && b[0] / 16 >= 6 && q.pending[i].mid == mid
                           && (forall k :: 0 <= k < i ==> q.pending[k].mid != mid) ==>
                 var outcome := if b[0] / 16 == 6 then Acknowledged else WasReset;
                 after == q.(pending := q.pending[..i] + q.pending[i + 1..],
                             log := q.log + [Completed(q.pending[i].serial, outcome, now)])
  {
    hide ParseMessage, Run, Dispatch, ParseHeader;
    HeaderByNumbers(b);
    var q, m := Run(NewPeer(ackTimeout, maxRetransmit, firstMid), inputs), ParseMessage(b).message;
    if m.kind <= 1 || forall k :: 0 <= k < |q.pending| ==> q.pending[k].mid != m.id {
      DispatchNothing(q, m.kind, m.id, now);
    }
    forall i | 0 <= i < |q.pending| && m.kind >= 2 && q.pending[i].mid == m.id
               && (forall k :: 0 <= k < i ==> q.pending[k].mid != m.id)
      ensures ReceiveMessage(q, m, now)
              == q.(pending := q.pending[..i] + q.pending[i + 1..],
                    log := q.log + [Completed(q.pending[i].serial, if m.kind == 2 then Acknowledged else WasReset, now)])
    {
      DispatchFirst(q, m.kind, m.id, now, i);
    }
  }

  /** After any run, within 65535 draws: a decoded reset with the id of a pending message removes
      exactly that message, as reset; a decoded acknowledgement does so as acknowledged. */
  lemma ReplyDatagramCompletes(ackTimeout: nat, maxRetransmit: nat, firstMid: uint16, inputs: seq<Input>, b: seq<byte>,
                               i: nat, now: int)
    requires ParseMessage(b).Decoded? && |b| >= 4 && b[0] / 16 >= 6
    requires var q := Run(NewPeer(ackTimeout, maxRetransmit, firstMid), inputs);
             && i < |q.pending| && q.pending[i].mid == 256 * (b[2] as int) + b[3] as int
             && forall k :: 0 <= k < |q.pending| ==> q.pending[k].serial + 65535 >= |q.drawn|
    ensures var q := Run(NewPeer(ackTimeout, maxRetransmit, firstMid), inputs);
            ReceiveMessage(q, ParseMessage(b).message, now)
            == q.(pending := q.pending[..i] + q.pending[i + 1..],
                  log := q.log + [Completed(q.pending[i].serial, if b[0] / 16 == 7 then WasReset else Acknowledged, now)])
  {
    hide ParseMessage, Run, Safe;
    var q := Run(NewPeer(ackTimeout, maxRetransmit, firstMid), inputs);
    RunIsSafe(ackTimeout, maxRetransmit, firstMid, inputs);
    HeaderByNumbers(b);
    ReplyCompletesItsMessage(q, i, b[0] / 16 == 7, now);
  }
}
