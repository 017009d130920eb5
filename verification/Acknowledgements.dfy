/** Repeated confirmable messages (section 4.2 of RFC 7252): an acknowledgement or reset that was
    sent is kept for a while, and sent again when its message comes again. */
module Acknowledgements {
  import opened Bytes
  import opened MessageCodec
  import opened MessageTheorems
  import opened Responses

  /** A datagram that was sent in answer to a message id, and until when it is kept. */
  datatype Ack = Ack(mid: uint16, datagram: seq<byte>, validity: int)

  /** What happens to a confirmable message that comes in. */
  datatype Reaction = Resent(mid: uint16, datagram: seq<byte>, at: int) | HandedUp(mid: uint16, at: int)

  /** What happens to the cache. */
  datatype Change = Kept(ack: Ack) | Stepped(at: int)

  /** Nothing is cached for a peer without acknowledgement timeout. */
  datatype Cache = Cache(caching: bool, wait: nat, acks: seq<Ack>, history: seq<Change>, reactions: seq<Reaction>)

  /** Answer: an acknowledgement or reset that went out. Receive: a confirmable message and its
      code; acknowledged says whether an empty acknowledgement can go out at once. */
  datatype Input =
    | Answer(mid: uint16, datagram: seq<byte>, at: int)
    | Receive(mid: uint16, code: byte, acknowledged: bool, at: int)
    | Step(at: int)

  function NewCache(caching: bool, wait: nat): (c: Cache) {
    Cache(caching, wait, [], [], [])
  }

  /** The first answer with a message id, or the number of answers. */
  function FindAck(acks: seq<Ack>, mid: uint16): (k: nat)
    ensures k <= |acks|
    ensures k < |acks| ==> acks[k].mid == mid
    ensures forall i :: 0 <= i < k ==> acks[i].mid != mid
  {
    if acks == [] || acks[0].mid == mid then 0 else 1 + FindAck(acks[1..], mid)
  }

  function Keep(c: Cache, mid: uint16, datagram: seq<byte>, now: int): (d: Cache) {
    if !c.caching then c
    else
      var ack := Ack(mid, datagram, now + c.wait);
      c.(acks := [ack] + c.acks, history := c.history + [Kept(ack)])
  }

  /** The code is of the class of requests, which the empty code shares. */
  predicate IsRequest(code: byte) {
    code / 0x20 == 0
  }

  function EmptyAck(mid: uint16): (datagram: seq<byte>) {
    EncodeMessage(Message(ACKNOWLEDGEMENT, CODE_EMPTY, mid, [], [], []))
  }

  /** A message that was answered already is answered the same way. Any other goes up, if it is
      not a request after an empty acknowledgement. */
  function ReceiveConfirmable(c: Cache, mid: uint16, code: byte, acknowledged: bool, now: int): (d: Cache) {
    var k := FindAck(c.acks, mid);
    if k < |c.acks| then c.(reactions := c.reactions + [Resent(mid, c.acks[k].datagram, now)])
    else
      var kept := if !IsRequest(code) && acknowledged then Keep(c, mid, EmptyAck(mid), now) else c;
      kept.(reactions := kept.reactions + [HandedUp(mid, now)])
  }

  function Purge(acks: seq<Ack>, now: int): (r: seq<Ack>) {
    if acks == [] then [] else (if acks[0].validity <= now then [] else [acks[0]]) + Purge(acks[1..], now)
  }

  function StepCache(c: Cache, now: int): (d: Cache) {
    c.(acks := Purge(c.acks, now), history := c.history + [Stepped(now)])
  }

  function Apply(c: Cache, input: Input): (d: Cache) {
    match input
    case Answer(mid, datagram, now) => Keep(c, mid, datagram, now)
    case Receive(mid, code, acknowledged, now) => ReceiveConfirmable(c, mid, code, acknowledged, now)
    case Step(now) => StepCache(c, now)
  }

  function Run(c: Cache, inputs: seq<Input>): (d: Cache) {
    if inputs == [] then c else Apply(Run(c, inputs[..|inputs| - 1]), inputs[|inputs| - 1])
  }

  /** The empty acknowledgement is the reply that every decoded confirmable message gets. */
  lemma EmptyAckIsTheReply(m: Message, nextId: uint16)
    requires m.kind == CONFIRMABLE
    ensures SentReply(m, CODE_EMPTY, nextId) == Reply(Message(ACKNOWLEDGEMENT, CODE_EMPTY, m.id, [], [], []))
    ensures |EmptyAck(m.id)| == HEADER_LENGTH
    ensures DecodesTo(EmptyAck(m.id), Message(ACKNOWLEDGEMENT, CODE_EMPTY, m.id, [], [], []))
  {
    hide DecodesTo, ParseMessage;
    var reply := Message(ACKNOWLEDGEMENT, CODE_EMPTY, m.id, [], [], []);
    MessageRoundTrip(reply);
    EmptyMessageLength(reply);
  }

  // ---------- what the cache holds ----------

  /** No step since then came too late for the answer that was kept at k. */
  ghost predicate Unexpired(history: seq<Change>, k: nat)
    requires k < |history| && history[k].Kept?
  {
    forall j :: k < j < |history| && history[j].Stepped? ==> history[j].at < history[k].ack.validity
  }

  ghost predicate KeptAndUnexpired(history: seq<Change>, ack: Ack) {
    exists k :: 0 <= k < |history| && history[k] == Kept(ack) && Unexpired(history, k)
  }

  ghost predicate HoldsTheUnexpired(c: Cache) {
    forall ack :: ack in c.acks <==> KeptAndUnexpired(c.history, ack)
  }

  lemma {:induction false} PurgeMembers(acks: seq<Ack>, now: int, ack: Ack)
    ensures ack in Purge(acks, now) <==> ack in acks && now < ack.validity
  {
    if acks == [] {
    } else {
      PurgeMembers(acks[1..], now, ack);
      assert acks == [acks[0]] + acks[1..];
    }
  }

  lemma KeptAppend(history: seq<Change>, change: Change, ack: Ack)
    ensures KeptAndUnexpired(history + [change], ack) <==>
            || change == Kept(ack)
            || (KeptAndUnexpired(history, ack) && (change.Stepped? ==> change.at < ack.validity))
  {
    var all := history + [change];
    assert all[|history|] == change;
    if KeptAndUnexpired(history, ack) && (change.Stepped? ==> change.at < ack.validity) {
      var k :| 0 <= k < |history| && history[k] == Kept(ack) && Unexpired(history, k);
      assert all[k] == Kept(ack) && Unexpired(all, k);
    }
    if change == Kept(ack) {
      assert Unexpired(all, |history|);
    }
    if KeptAndUnexpired(all, ack) && change != Kept(ack) {
      var k :| 0 <= k < |all| && all[k] == Kept(ack) && Unexpired(all, k);
      assert history[k] == Kept(ack);
      assert forall j :: k < j < |history| ==> history[j] == all[j];
      assert Unexpired(history, k);
    }
  }

  lemma KeepHolds(c: Cache, mid: uint16, datagram: seq<byte>, now: int)
    requires HoldsTheUnexpired(c)
    ensures HoldsTheUnexpired(Keep(c, mid, datagram, now))
  {
    hide KeptAndUnexpired;
    forall ack ensures ack in Keep(c, mid, datagram, now).acks <==> KeptAndUnexpired(Keep(c, mid, datagram, now).history, ack) {
      KeptAppend(c.history, Kept(Ack(mid, datagram, now + c.wait)), ack);
    }
  }

  lemma StepHolds(c: Cache, now: int)
    requires HoldsTheUnexpired(c)
    ensures HoldsTheUnexpired(StepCache(c, now))
  {
    hide KeptAndUnexpired, Purge;
    forall ack ensures ack in StepCache(c, now).acks <==> KeptAndUnexpired(StepCache(c, now).history, ack) {
      KeptAppend(c.history, Stepped(now), ack);
      PurgeMembers(c.acks, now, ack);
    }
  }

  /** After any run the cache holds exactly the answers that were kept and have not expired. */
  lemma {:induction false} RunHoldsTheUnexpired(caching: bool, wait: nat, inputs: seq<Input>)
    ensures HoldsTheUnexpired(Run(NewCache(caching, wait), inputs))
  {
    hide HoldsTheUnexpired, Keep, StepCache, FindAck, EmptyAck;
    if inputs == [] {
      NothingHeld(caching, wait);
    } else {
      var c := Run(NewCache(caching, wait), inputs[..|inputs| - 1]);
      RunHoldsTheUnexpired(caching, wait, inputs[..|inputs| - 1]);
      match inputs[|inputs| - 1] {
        case Answer(mid, datagram, now) => KeepHolds(c, mid, datagram, now);
        case Receive(mid, code, acknowledged, now) =>
          KeepHolds(c, mid, EmptyAck(mid), now);
          ReactionsDoNotCount(c, Run(NewCache(caching, wait), inputs), mid, now);
        case Step(now) => StepHolds(c, now);
      }
    }
  }

  lemma NothingHeld(caching: bool, wait: nat)
    ensures HoldsTheUnexpired(NewCache(caching, wait))
  {
  }

  lemma ReactionsDoNotCount(c: Cache, d: Cache, mid: uint16, now: int)
    requires HoldsTheUnexpired(c) && HoldsTheUnexpired(Keep(c, mid, EmptyAck(mid), now))
    requires var kept := Keep(c, mid, EmptyAck(mid), now);
             (d.acks == c.acks && d.history == c.history) || (d.acks == kept.acks && d.history == kept.history)
    ensures HoldsTheUnexpired(d)
  {
    hide KeptAndUnexpired, EmptyAck;
  }

  /** After any run, a confirmable message is handed up exactly if no unexpired answer to its id
      is kept; otherwise one of these is sent again and nothing else happens. */
  lemma HandedUpIff(caching: bool, wait: nat, inputs: seq<Input>, mid: uint16, code: byte, acknowledged: bool, now: int)
    ensures var c := Run(NewCache(caching, wait), inputs);
            var d := ReceiveConfirmable(c, mid, code, acknowledged, now);
            var answered := exists ack :: KeptAndUnexpired(c.history, ack) && ack.mid == mid;
            && (d.reactions == c.reactions + [HandedUp(mid, now)] <==> !answered)
            && (answered ==> exists ack :: KeptAndUnexpired(c.history, ack) && ack.mid == mid
                                           && d == c.(reactions := c.reactions + [Resent(mid, ack.datagram, now)]))
  {
    hide Run, KeptAndUnexpired, EmptyAck, Keep;
    var c := Run(NewCache(caching, wait), inputs);
    RunHoldsTheUnexpired(caching, wait, inputs);
    var k := FindAck(c.acks, mid);
    var d := ReceiveConfirmable(c, mid, code, acknowledged, now);
    if k < |c.acks| {
      assert c.acks[k] in c.acks && KeptAndUnexpired(c.history, c.acks[k]);
      assert d.reactions[|c.reactions|] == Resent(mid, c.acks[k].datagram, now);
    } else {
      forall ack | KeptAndUnexpired(c.history, ack) ensures ack.mid != mid {
        assert ack in c.acks;
      }
      KeepReactions(c, mid, now);
    }
  }

  lemma KeepReactions(c: Cache, mid: uint16, now: int)
    ensures Keep(c, mid, EmptyAck(mid), now).reactions == c.reactions
  {
    hide EmptyAck;
  }

  // ---------- a repeated message ----------

  /** The cache answers a message id with this. */
  predicate Answers(c: Cache, ack: Ack) {
    var k := FindAck(c.acks, ack.mid);
    k < |c.acks| && c.acks[k] == ack
  }

  lemma {:induction false} PurgeKeepsFirst(acks: seq<Ack>, mid: uint16, now: int)
    requires var k := FindAck(acks, mid); k < |acks| && now < acks[k].validity
    ensures var j := FindAck(Purge(acks, now), mid);
            j < |Purge(acks, now)| && Purge(acks, now)[j] == acks[FindAck(acks, mid)]
  {
    hide FindAck, Purge;
    var rest := acks[1..];
    assert acks == [acks[0]] + rest;
    FindAckCons(acks[0], rest, mid);
    PurgeCons(acks[0], rest, now);
    if acks[0].mid == mid {
      FindAckCons(acks[0], Purge(rest, now), mid);
    } else {
      PurgeKeepsFirst(rest, mid, now);
      FindAckCons(acks[0], Purge(rest, now), mid);
    }
  }

  lemma FindAckCons(first: Ack, rest: seq<Ack>, mid: uint16)
    ensures FindAck([first] + rest, mid) == if first.mid == mid then 0 else 1 + FindAck(rest, mid)
  {
    assert ([first] + rest)[1..] == rest;
  }

  lemma PurgeCons(first: Ack, rest: seq<Ack>, now: int)
    ensures Purge([first] + rest, now) == if first.validity <= now then Purge(rest, now) else [first] + Purge(rest, now)
  {
    assert ([first] + rest)[1..] == rest;
  }

  /** Inputs that neither answer a message id anew nor outlast an answer to it. */
  predicate Undisturbed(inputs: seq<Input>, mid: uint16, validity: int) {
    forall k :: 0 <= k < |inputs| ==>
      && (inputs[k].Answer? ==> inputs[k].mid != mid)
      && (inputs[k].Step? ==> inputs[k].at < validity)
  }

  /** Only resent, with the same bytes. */
  ghost predicate OnlyResent(reactions: seq<Reaction>, ack: Ack) {
    forall k :: 0 <= k < |reactions| && reactions[k].mid == ack.mid ==>
      reactions[k].Resent? && reactions[k].datagram == ack.datagram
  }

  lemma StillAnswers(c: Cache, input: Input, ack: Ack)
    requires Answers(c, ack) && Undisturbed([input], ack.mid, ack.validity)
    ensures Answers(Apply(c, input), ack)
    ensures c.reactions <= Apply(c, input).reactions
    ensures OnlyResent(Apply(c, input).reactions[|c.reactions|..], ack)
  {
    hide EmptyAck, Purge, Keep, FindAck, Answers, ReceiveConfirmable, StepCache;
    assert [input][0] == input;
    match input {
      case Answer(mid, datagram, now) => NewestFirst(c, mid, datagram, now, ack);
      case Receive(mid, code, acknowledged, now) => ReceiveStillAnswers(c, mid, code, acknowledged, now, ack);
      case Step(now) => StepStillAnswers(c, now, ack);
    }
  }

  lemma ReceiveStillAnswers(c: Cache, mid: uint16, code: byte, acknowledged: bool, now: int, ack: Ack)
    requires Answers(c, ack)
    ensures var d := ReceiveConfirmable(c, mid, code, acknowledged, now);
            Answers(d, ack) && c.reactions <= d.reactions && OnlyResent(d.reactions[|c.reactions|..], ack)
  {
    hide EmptyAck, Keep, FindAck;
    KeepReactions(c, mid, now);
    if mid != ack.mid {
      NewestFirst(c, mid, EmptyAck(mid), now, ack);
    }
  }

  lemma StepStillAnswers(c: Cache, now: int, ack: Ack)
    requires Answers(c, ack) && now < ack.validity
    ensures Answers(StepCache(c, now), ack) && StepCache(c, now).reactions == c.reactions
  {
    hide FindAck, Purge;
    PurgeKeepsFirst(c.acks, ack.mid, now);
  }

  lemma NewestFirst(c: Cache, mid: uint16, datagram: seq<byte>, now: int, ack: Ack)
    requires Answers(c, ack) && mid != ack.mid
    ensures Answers(Keep(c, mid, datagram, now), ack) && Keep(c, mid, datagram, now).reactions == c.reactions
  {
    var d := Keep(c, mid, datagram, now);
    if c.caching {
      assert d.acks[1..] == c.acks;
    }
  }

  /** As long as an answer is valid, every repetition of its message is answered with the same
      bytes, however often it comes and whatever else happens, and none is handed up. */
  lemma {:induction false} RepeatIsAnsweredAlike(c: Cache, ack: Ack, inputs: seq<Input>)
    requires Answers(c, ack) && Undisturbed(inputs, ack.mid, ack.validity)
    ensures Answers(Run(c, inputs), ack)
    ensures c.reactions <= Run(c, inputs).reactions
    ensures OnlyResent(Run(c, inputs).reactions[|c.reactions|..], ack)
  {
    hide Answers, Apply;
    if inputs == [] {
    } else {
      var front, last := inputs[..|inputs| - 1], inputs[|inputs| - 1];
      var d := Run(c, front);
      RepeatIsAnsweredAlike(c, ack, front);
      StillAnswers(d, last, ack);
      var n, all := |c.reactions|, Apply(d, last).reactions;
      assert all == d.reactions + all[|d.reactions|..];
      assert all[n..] == d.reactions[n..] + all[|d.reactions|..];
    }
  }

  /** So once a message was answered, nothing hands it up again before a step at the end of the
      answer's validity. */
  lemma AnsweredOnce(c: Cache, mid: uint16, datagram: seq<byte>, sentAt: int, late: seq<Input>,
                     code: byte, acknowledged: bool, now: int)
    requires c.caching && Undisturbed(late, mid, sentAt + c.wait)
    ensures var d := Run(Keep(c, mid, datagram, sentAt), late);
            && ReceiveConfirmable(d, mid, code, acknowledged, now)
               == d.(reactions := d.reactions + [Resent(mid, datagram, now)])
            && c.reactions <= d.reactions
            && forall k :: |c.reactions| <= k < |d.reactions| && d.reactions[k].mid == mid ==>
                 d.reactions[k].Resent? && d.reactions[k].datagram == datagram
  {
    hide Run;
    var ack, kept := Ack(mid, datagram, sentAt + c.wait), Keep(c, mid, datagram, sentAt);
    assert Answers(kept, ack);
    RepeatIsAnsweredAlike(kept, ack, late);
    var d := Run(kept, late);
    forall k | |c.reactions| <= k < |d.reactions| && d.reactions[k].mid == mid
      ensures d.reactions[k].Resent? && d.reactions[k].datagram == datagram
    {
      assert d.reactions[k] == d.reactions[|c.reactions|..][k - |c.reactions|];
    }
  }

  // ---------- what a message leaves behind ----------

  /** A message that is not answered yet is handed up. It leaves the empty acknowledgement behind
      if its code is not of class 0, the acknowledgement can go out and answers are kept; otherwise,
      like a message that is answered already, it leaves the cache as it was. */
  lemma WhatIsLeftBehind(c: Cache, mid: uint16, code: byte, acknowledged: bool, now: int)
    ensures var d := ReceiveConfirmable(c, mid, code, acknowledged, now);
            var unanswered := forall k :: 0 <= k < |c.acks| ==> c.acks[k].mid != mid;
            && (unanswered <==> d.reactions == c.reactions + [HandedUp(mid, now)])
            && (unanswered && code >= 0x20 && acknowledged && c.caching ==>
                  var ack := Ack(mid, EmptyAck(mid), now + c.wait);
                  Answers(d, ack) && d.acks == [ack] + c.acks && d.history == c.history + [Kept(ack)])
            && (!unanswered || code < 0x20 || !acknowledged || !c.caching ==> d.acks == c.acks && d.history == c.history)
  {
    hide EmptyAck;
    var k := FindAck(c.acks, mid);
    if k < |c.acks| {
      var d := ReceiveConfirmable(c, mid, code, acknowledged, now);
      assert d.reactions[|c.reactions|] == Resent(mid, c.acks[k].datagram, now);
    }
  }

  /** So a message that is no request and was acknowledged on reception is handed up once: while
      the acknowledgement is valid, its repetitions get these bytes again, in any run. */
  lemma AcknowledgedOnce(c: Cache, mid: uint16, code: byte, receivedAt: int, late: seq<Input>,
                         again: byte, acknowledged: bool, now: int)
    requires c.caching && code >= 0x20 && forall k :: 0 <= k < |c.acks| ==> c.acks[k].mid != mid
    requires Undisturbed(late, mid, receivedAt + c.wait)
    ensures var first := ReceiveConfirmable(c, mid, code, true, receivedAt);
            var d := Run(first, late);
            && first.reactions == c.reactions + [HandedUp(mid, receivedAt)]
            && ReceiveConfirmable(d, mid, again, acknowledged, now)
               == d.(reactions := d.reactions + [Resent(mid, EmptyAck(mid), now)])
            && first.reactions <= d.reactions
            && OnlyResent(d.reactions[|first.reactions|..], Ack(mid, EmptyAck(mid), receivedAt + c.wait))
  {
    hide Run, EmptyAck, OnlyResent;
    var first, ack := ReceiveConfirmable(c, mid, code, true, receivedAt), Ack(mid, EmptyAck(mid), receivedAt + c.wait);
    WhatIsLeftBehind(c, mid, code, true, receivedAt);
    RepeatIsAnsweredAlike(first, ack, late);
  }

  /** Inputs that have nothing to do with a message id. */
  predicate Elsewhere(inputs: seq<Input>, mid: uint16) {
    forall k :: 0 <= k < |inputs| && !inputs[k].Step? ==> inputs[k].mid != mid
  }

  predicate Outlasted(inputs: seq<Input>, validity: int) {
    exists k :: 0 <= k < |inputs| && inputs[k].Step? && inputs[k].at >= validity
  }

  /** The only answer to its id that can be in the cache, and whether it is. */
  predicate OnlyAnswer(c: Cache, ack: Ack, present: bool) {
    (forall a :: a in c.acks && a.mid == ack.mid ==> a == ack) && (ack in c.acks <==> present)
  }

  lemma OnlyAnswerStep(c: Cache, input: Input, ack: Ack, present: bool)
    requires OnlyAnswer(c, ack, present) && Elsewhere([input], ack.mid)
    ensures OnlyAnswer(Apply(c, input), ack, present && !Outlasted([input], ack.validity))
  {
    hide EmptyAck, Purge, FindAck;
    assert [input][0] == input;
    if input.Step? {
      forall a ensures a in Purge(c.acks, input.at) <==> a in c.acks && input.at < a.validity {
        PurgeMembers(c.acks, input.at, a);
      }
    }
  }

  lemma {:induction false} OnlyAnswerRun(c: Cache, inputs: seq<Input>, ack: Ack)
    requires OnlyAnswer(c, ack, true) && Elsewhere(inputs, ack.mid)
    ensures OnlyAnswer(Run(c, inputs), ack, !Outlasted(inputs, ack.validity))
  {
    hide OnlyAnswer, Apply;
    if inputs == [] {
    } else {
      var front, last := inputs[..|inputs| - 1], inputs[|inputs| - 1];
      assert inputs == front + [last];
      OnlyAnswerRun(c, front, ack);
      OnlyAnswerStep(Run(c, front), last, ack, !Outlasted(front, ack.validity));
      OutlastedConcat(front, last, ack.validity);
    }
  }

  lemma OutlastedConcat(front: seq<Input>, last: Input, validity: int)
    ensures Outlasted(front + [last], validity) <==> Outlasted(front, validity) || Outlasted([last], validity)
  {
    var all := front + [last];
    assert all[|front|] == last == [last][0];
    if Outlasted(front, validity) {
      var k :| 0 <= k < |front| && front[k].Step? && front[k].at >= validity;
      assert all[k] == front[k];
    }
  }

  /** The first answer to a message is valid for exactly the time of the peer: its message, when it
      comes again for the first time, is handed up again exactly if a step came at the end of the
      validity or later. */
  lemma HandedUpAgainIff(c: Cache, mid: uint16, datagram: seq<byte>, sentAt: int, late: seq<Input>,
                         code: byte, acknowledged: bool, now: int)
    requires c.caching && (forall k :: 0 <= k < |c.acks| ==> c.acks[k].mid != mid) && Elsewhere(late, mid)
    ensures var d := Run(Keep(c, mid, datagram, sentAt), late);
            ReceiveConfirmable(d, mid, code, acknowledged, now).reactions == d.reactions + [HandedUp(mid, now)]
            <==> exists k :: 0 <= k < |late| && late[k].Step? && late[k].at >= sentAt + c.wait
  {
    hide Run, EmptyAck, Keep, ReceiveConfirmable, OnlyAnswer, Elsewhere;
    var kept, ack := Keep(c, mid, datagram, sentAt), Ack(mid, datagram, sentAt + c.wait);
    OnlyAnswerStarts(c, mid, datagram, sentAt);
    OnlyAnswerRun(kept, late, ack);
    OnlyAnswerMeans(Run(kept, late), ack, !Outlasted(late, ack.validity));
    WhatIsLeftBehind(Run(kept, late), mid, code, acknowledged, now);
  }

  lemma OnlyAnswerStarts(c: Cache, mid: uint16, datagram: seq<byte>, sentAt: int)
    requires c.caching && forall k :: 0 <= k < |c.acks| ==> c.acks[k].mid != mid
    ensures OnlyAnswer(Keep(c, mid, datagram, sentAt), Ack(mid, datagram, sentAt + c.wait), true)
  {
  }

  lemma OnlyAnswerMeans(c: Cache, ack: Ack, present: bool)
    requires OnlyAnswer(c, ack, present)
    ensures (forall k :: 0 <= k < |c.acks| ==> c.acks[k].mid != ack.mid) <==> !present
  {
    assert forall k :: 0 <= k < |c.acks| ==> c.acks[k] in c.acks;
  }

  /** A peer without acknowledgement timeout hands every message up. */
  lemma {:induction false} NothingIsKept(wait: nat, inputs: seq<Input>, mid: uint16, code: byte, acknowledged: bool, now: int)
    ensures var c := Run(NewCache(false, wait), inputs);
            && c.acks == [] && !c.caching
            && ReceiveConfirmable(c, mid, code, acknowledged, now).reactions == c.reactions + [HandedUp(mid, now)]
  {
    hide EmptyAck;
    if inputs == [] {
    } else {
      NothingIsKept(wait, inputs[..|inputs| - 1], mid, code, acknowledged, now);
    }
  }

  // ---------- the peer's list of answers ----------

  lemma PurgeNothing(now: int)
    ensures Purge([], now) == []
  {
  }

  lemma ListStep(kept: seq<Ack>, rest: seq<Ack>, purged: seq<Ack>)
    requires rest != []
    ensures kept + rest == (kept + [rest[0]]) + rest[1..]
    ensures (kept + rest)[..|kept|] + (kept + rest)[|kept| + 1..] == kept + rest[1..]
    ensures kept + ([rest[0]] + purged) == (kept + [rest[0]]) + purged
  {
  }

  class AckList {
    const caching: bool
    const wait: nat
    var acks: seq<Ack>
    // what happened to the list and to the messages that came in
    var history: seq<Change>
    var reactions: seq<Reaction>

    constructor (ackTimeout: nat, transmitWait: nat)
      ensures State() == NewCache(ackTimeout != 0, transmitWait)
    {
      caching, wait := ackTimeout != 0, transmitWait;
      acks, history, reactions := [], [], [];
    }

    ghost function State(): (c: Cache)
      reads this
    {
      Cache(caching, wait, acks, history, reactions)
    }

    /** Keeps an answer that went out, if answers are kept at all. */
    method Record(mid: uint16, datagram: seq<byte>, now: int)
      modifies this
      ensures State() == Keep(old(State()), mid, datagram, now)
    {
      if caching {
        var ack := Ack(mid, datagram, now + wait);
        acks := [ack] + acks;
        history := history + [Kept(ack)];
      }
    }

    /** Takes every answer off the list whose time has come. */
    method Step(now: int)
      modifies this
      ensures State() == StepCache(old(State()), now)
    {
      hide Purge;
      var i := 0;
      ghost var kept, rest: seq<Ack> := [], acks;
      while i < |acks|
        invariant i == |kept| && acks == kept + rest
        invariant Purge(old(acks), now) == kept + Purge(rest, now)
        invariant history == old(history) && reactions == old(reactions)
        decreases |rest|
      {
        assert acks[i] == rest[0] && rest == [rest[0]] + rest[1..];
        PurgeCons(rest[0], rest[1..], now);
        ListStep(kept, rest, Purge(rest[1..], now));
        if acks[i].validity <= now {
          acks := acks[..i] + acks[i + 1..];
        } else {
          kept := kept + [acks[i]];
          i := i + 1;
        }
        rest := rest[1..];
      }
      PurgeNothing(now);
      history := history + [Stepped(now)];
    }

    /** A confirmable message that comes in. */
    method Receive(mid: uint16, code: byte, acknowledged: bool, now: int) returns (handedUp: bool)
      modifies this
      ensures State() == ReceiveConfirmable(old(State()), mid, code, acknowledged, now)
      ensures handedUp <==> forall k :: 0 <= k < |old(acks)| ==> old(acks)[k].mid != mid
    {
      var k := 0;
      while k < |acks| && acks[k].mid != mid
        invariant k <= |acks|
        invariant forall j :: 0 <= j < k ==> acks[j].mid != mid
      {
        k := k + 1;
      }
      handedUp := k == |acks|;
      if !handedUp {
        reactions := reactions + [Resent(mid, acks[k].datagram, now)];
      } else {
        if !IsRequest(code) && acknowledged {
          Record(mid, EmptyAck(mid), now);
        }
        reactions := reactions + [HandedUp(mid, now)];
      }
    }
  }
}
