/** Confirmable messages of a datagram peer: transmission, retransmission with a doubling
    timeout, and completion (section 4.2 of RFC 7252), over whole runs. */
module Transactions {
  import opened Bytes
  import opened MessageCodec

  /** A message waiting for its acknowledgement. The serial number counts the message ids
      drawn before its own and stands for the identity of the message. */
  datatype Transaction = Transaction(serial: nat, mid: uint16, counter: nat, retransTime: int)

  datatype Outcome = Acknowledged | WasReset | TimedOut | PeerClosed

  /** What the outside sees: a buffer handed to the transport, a result given to the caller. */
  datatype Event = Transmitted(serial: nat, at: int) | Completed(serial: nat, outcome: Outcome, at: int)

  /** One drawn message id: when, and whether a transaction waits for the answer. */
  datatype Draw = Draw(tracked: bool, at: int)

  datatype Peer = Peer(
    ackTimeout: nat, maxRetransmit: nat, firstMid: uint16, nextMid: uint16,
    pending: seq<Transaction>, drawn: seq<Draw>, log: seq<Event>)

  /** What became of a new message: it could not be serialized, it was transmitted but not
      taken whole or memory was short, or it is on its way. */
  datatype Handover = NotSerialized | NotTaken | Taken

  datatype Input =
    | Send(confirmable: bool, handover: Handover, at: int)
    | Tick(at: int)
    | Receive(kind: byte, mid: uint16, at: int)
    | Close(at: int)

  function Pow2(n: nat): (p: nat)
    ensures p >= 1
  {
    if n == 0 then 1 else 2 * Pow2(n - 1)
  }

  /** Message ids count up through 16 bits and skip the reserved id 0. */
  function NextMid(mid: uint16): (r: uint16) {
    var next := (mid + 1) % 0x1_0000;
    if next == RESERVED_MID then next + 1 else next
  }

  function SendMessage(p: Peer, confirmable: bool, handover: Handover, now: int): (q: Peer) {
    var serial := |p.drawn|;
    p.(nextMid := NextMid(p.nextMid),
       drawn := p.drawn + [Draw(confirmable && handover.Taken?, now)],
       log := p.log + if handover.NotSerialized? then [] else [Transmitted(serial, now)],
       pending := if confirmable && handover.Taken? then [Transaction(serial, p.nextMid, 0, now + p.ackTimeout)] + p.pending
                  else p.pending)
  }

  datatype Ticked = Ticked(kept: seq<Transaction>, events: seq<Event>)

  /** One pending message when the clock says now. */
  function TickOne(t: Transaction, ackTimeout: nat, maxRetransmit: nat, now: int): (r: Ticked) {
    if t.retransTime > now then Ticked([t], [])
    else if t.counter < maxRetransmit then
      Ticked([t.(counter := t.counter + 1, retransTime := now + ackTimeout * Pow2(t.counter + 1))],
             [Transmitted(t.serial, now)])
    else Ticked([], [Completed(t.serial, TimedOut, now)])
  }

  function TickAll(pending: seq<Transaction>, ackTimeout: nat, maxRetransmit: nat, now: int): (r: Ticked) {
    if pending == [] then Ticked([], [])
    else
      var first := TickOne(pending[0], ackTimeout, maxRetransmit, now);
      var rest := TickAll(pending[1..], ackTimeout, maxRetransmit, now);
      Ticked(first.kept + rest.kept, first.events + rest.events)
  }

  function TickPeer(p: Peer, now: int): (q: Peer) {
    var r := TickAll(p.pending, p.ackTimeout, p.maxRetransmit, now);
    p.(pending := r.kept, log := p.log + r.events)
  }

  /** The first pending message with a message id, or the number of pending messages. */
  function FindMid(pending: seq<Transaction>, mid: uint16): (k: nat)
    ensures k <= |pending|
    ensures k < |pending| ==> pending[k].mid == mid
    ensures forall i :: 0 <= i < k ==> pending[i].mid != mid
  {
    if pending == [] || pending[0].mid == mid then 0 else 1 + FindMid(pending[1..], mid)
  }

  /** An acknowledgement or a reset completes the message it names. */
  function ReceiveReply(p: Peer, mid: uint16, reset: bool, now: int): (q: Peer) {
    var k := FindMid(p.pending, mid);
    if k == |p.pending| then p
    else
      p.(pending := p.pending[..k] + p.pending[k + 1..],
         log := p.log + [Completed(p.pending[k].serial, if reset then WasReset else Acknowledged, now)])
  }

  /** Only acknowledgements and resets complete a message. */
  function Dispatch(p: Peer, kind: byte, mid: uint16, now: int): (q: Peer) {
    if kind == ACKNOWLEDGEMENT then ReceiveReply(p, mid, false, now)
    else if kind == RESET then ReceiveReply(p, mid, true, now)
    else p
  }

  /** Of a decoded message, the type and the id decide what it completes. */
  function ReceiveMessage(p: Peer, m: Message, now: int): (q: Peer) {
    Dispatch(p, m.kind, m.id, now)
  }

  function CloseAll(pending: seq<Transaction>, now: int): (events: seq<Event>) {
    if pending == [] then [] else [Completed(pending[0].serial, PeerClosed, now)] + CloseAll(pending[1..], now)
  }

  /** Deleting the peer completes all that is pending. */
  function ClosePeer(p: Peer, now: int): (q: Peer) {
    p.(pending := [], log := p.log + CloseAll(p.pending, now))
  }

  function Apply(p: Peer, input: Input): (q: Peer) {
    match input
    case Send(confirmable, handover, now) => SendMessage(p, confirmable, handover, now)
    case Tick(now) => TickPeer(p, now)
    case Receive(kind, mid, now) => Dispatch(p, kind, mid, now)
    case Close(now) => ClosePeer(p, now)
  }

  function NewPeer(ackTimeout: nat, maxRetransmit: nat, firstMid: uint16): (p: Peer) {
    Peer(ackTimeout, maxRetransmit, firstMid, firstMid, [], [], [])
  }

  function Run(p: Peer, inputs: seq<Input>): (q: Peer) {
    if inputs == [] then p else Apply(Run(p, inputs[..|inputs| - 1]), inputs[|inputs| - 1])
  }

  // ---------- message ids ----------

  /** The message id with a given serial number, in closed form. */
  function MidAt(firstMid: uint16, serial: nat): (mid: uint16) {
    if serial == 0 then firstMid
    else if firstMid == RESERVED_MID then (serial - 1) % 65535 + 1
    else (firstMid - 1 + serial) % 65535 + 1
  }

  lemma NextMidInClosedForm(firstMid: uint16, serial: nat)
    ensures NextMid(MidAt(firstMid, serial)) == MidAt(firstMid, serial + 1)
  {
    var n := if firstMid == RESERVED_MID then serial - 1 else firstMid - 1 + serial;
    if n >= 0 {
      assert (n + 1) % 65535 == if n % 65535 == 65534 then 0 else n % 65535 + 1;
    }
  }

  /** The reserved id 0 is drawn only by the first message, when the random first id is 0. */
  lemma ReservedMidOnlyFirst(firstMid: uint16, serial: nat)
    ensures MidAt(firstMid, serial) == 0 <==> serial == 0 && firstMid == 0
  {
  }

  lemma SameResidue(a: nat, b: nat)
    requires a <= b
    ensures a % 65535 == b % 65535 <==> (b - a) % 65535 == 0
  {
  }

  /** Two messages share an id exactly when they lie a multiple of 65535 draws apart. */
  lemma MidsCollide(firstMid: uint16, i: nat, j: nat)
    requires i < j
    ensures MidAt(firstMid, i) == MidAt(firstMid, j)
            <==> (j - i) % 65535 == 0 && !(i == 0 && firstMid == RESERVED_MID)
  {
    var base := if firstMid == RESERVED_MID then -1 else firstMid - 1;
    if i > 0 || firstMid != RESERVED_MID {
      SameResidue(base + i, base + j);
    }
  }

  // ---------- the life of one message ----------

  function Sends(log: seq<Event>, s: nat): (n: nat) {
    if log == [] then 0
    else Sends(log[..|log| - 1], s) + if log[|log| - 1].Transmitted? && log[|log| - 1].serial == s then 1 else 0
  }

  function Ends(log: seq<Event>, s: nat): (n: nat) {
    if log == [] then 0
    else Ends(log[..|log| - 1], s) + if log[|log| - 1].Completed? && log[|log| - 1].serial == s then 1 else 0
  }

  function Waiting(pending: seq<Transaction>, s: nat): (n: nat) {
    if pending == [] then 0 else (if pending[0].serial == s then 1 else 0) + Waiting(pending[1..], s)
  }

  /** The time a message is given at least: ackTimeout, doubled after each transmission. */
  function Patience(ackTimeout: nat, transmissions: nat): (d: nat) {
    ackTimeout * (Pow2(transmissions) - 1)
  }

  /** A pending message has been transmitted once more than its counter says, and its next
      deadline leaves room for every doubled timeout so far. */
  ghost predicate OnSchedule(p: Peer, t: Transaction) {
    && t.serial < |p.drawn| && p.drawn[t.serial].tracked
    && t.counter <= p.maxRetransmit
    && t.mid == MidAt(p.firstMid, t.serial)
    && Sends(p.log, t.serial) == t.counter + 1
    && t.retransTime >= p.drawn[t.serial].at + Patience(p.ackTimeout, t.counter + 1)
  }

  /** Each confirmable message is either pending or completed, exactly once in all. */
  ghost predicate Conserved(p: Peer) {
    && (forall s :: 0 <= s < |p.drawn| ==>
          Waiting(p.pending, s) + Ends(p.log, s) == if p.drawn[s].tracked then 1 else 0)
    && (forall s :: s >= |p.drawn| ==> Waiting(p.pending, s) == Ends(p.log, s) == Sends(p.log, s) == 0)
  }

  ghost predicate Bounded(p: Peer) {
    forall s :: 0 <= s < |p.drawn| ==>
      Sends(p.log, s) <= p.maxRetransmit + 1 && (p.drawn[s].tracked ==> 1 <= Sends(p.log, s))
  }

  /** No message is given up before all its transmissions and the whole patience. */
  ghost predicate Patient(p: Peer) {
    forall k :: 0 <= k < |p.log| ==> PatientEvent(p, p.log[k])
  }

  ghost predicate PatientEvent(p: Peer, e: Event) {
    e.Completed? && e.outcome == TimedOut ==>
      && e.serial < |p.drawn|
      && Sends(p.log, e.serial) == p.maxRetransmit + 1
      && e.at >= p.drawn[e.serial].at + Patience(p.ackTimeout, p.maxRetransmit + 1)
  }

  ghost predicate Safe(p: Peer) {
    && Conserved(p) && Bounded(p) && Patient(p)
    && p.nextMid == MidAt(p.firstMid, |p.drawn|)
    && forall i :: 0 <= i < |p.pending| ==> OnSchedule(p, p.pending[i])
  }

  // ---------- counting ----------

  lemma {:induction false} SendsConcat(a: seq<Event>, b: seq<Event>, s: nat)
    ensures Sends(a + b, s) == Sends(a, s) + Sends(b, s)
  {
    if b == [] {
      assert a + b == a;
    } else {
      SendsConcat(a, b[..|b| - 1], s);
      assert (a + b)[..|a + b| - 1] == a + b[..|b| - 1];
    }
  }

  lemma {:induction false} EndsConcat(a: seq<Event>, b: seq<Event>, s: nat)
    ensures Ends(a + b, s) == Ends(a, s) + Ends(b, s)
  {
    if b == [] {
      assert a + b == a;
    } else {
      EndsConcat(a, b[..|b| - 1], s);
      assert (a + b)[..|a + b| - 1] == a + b[..|b| - 1];
    }
  }

  lemma {:induction false} WaitingConcat(a: seq<Transaction>, b: seq<Transaction>, s: nat)
    ensures Waiting(a + b, s) == Waiting(a, s) + Waiting(b, s)
  {
    if a == [] {
      assert a + b == b;
    } else {
      WaitingConcat(a[1..], b, s);
      assert (a + b)[1..] == a[1..] + b;
    }
  }

  lemma {:induction false} WaitingMember(a: seq<Transaction>, i: nat)
    requires i < |a|
    ensures Waiting(a, a[i].serial) >= 1
  {
    if i == 0 {
    } else {
      WaitingMember(a[1..], i - 1);
    }
  }

  lemma {:induction false} EndsMember(log: seq<Event>, k: nat)
    requires k < |log| && log[k].Completed?
    ensures Ends(log, log[k].serial) >= 1
  {
    if k == |log| - 1 {
    } else {
      EndsMember(log[..|log| - 1], k);
    }
  }

  /** One tick, seen from one message: it stays or ends, and other messages do not count. */
  lemma {:induction false} TickAllConserves(pending: seq<Transaction>, a: nat, m: nat, now: int, s: nat)
    ensures var r := TickAll(pending, a, m, now);
            && Waiting(r.kept, s) + Ends(r.events, s) == Waiting(pending, s)
            && (Waiting(pending, s) == 0 ==> Sends(r.events, s) == 0)
  {
    if pending == [] {
    } else {
      TickAllConserves(pending[1..], a, m, now, s);
      TickOneConserves(pending[0], a, m, now, s);
      TickConcat(pending, a, m, now, s);
    }
  }

  lemma TickOneConserves(t: Transaction, a: nat, m: nat, now: int, s: nat)
    ensures var r := TickOne(t, a, m, now);
            && Waiting(r.kept, s) + Ends(r.events, s) == (if t.serial == s then 1 else 0)
            && (t.serial != s ==> Sends(r.events, s) == 0)
            && (t.serial == s ==> Sends(r.events, s) == if t.retransTime <= now && t.counter < m then 1 else 0)
  {
  }

  lemma TickConcat(pending: seq<Transaction>, a: nat, m: nat, now: int, s: nat)
    requires pending != []
    ensures var r, first, rest := TickAll(pending, a, m, now), TickOne(pending[0], a, m, now), TickAll(pending[1..], a, m, now);
            && Sends(r.events, s) == Sends(first.events, s) + Sends(rest.events, s)
            && Ends(r.events, s) == Ends(first.events, s) + Ends(rest.events, s)
            && Waiting(r.kept, s) == Waiting(first.kept, s) + Waiting(rest.kept, s)
  {
    var first, rest := TickOne(pending[0], a, m, now), TickAll(pending[1..], a, m, now);
    SendsConcat(first.events, rest.events, s);
    EndsConcat(first.events, rest.events, s);
    WaitingConcat(first.kept, rest.kept, s);
  }

  /** A message that waits once is ticked once. */
  lemma {:induction false} TickAllAlone(pending: seq<Transaction>, a: nat, m: nat, now: int, j: nat)
    requires j < |pending| && Waiting(pending, pending[j].serial) == 1
    ensures Sends(TickAll(pending, a, m, now).events, pending[j].serial)
            == if pending[j].retransTime <= now && pending[j].counter < m then 1 else 0
  {
    var s := pending[j].serial;
    TickConcat(pending, a, m, now, s);
    TickOneConserves(pending[0], a, m, now, s);
    if j == 0 {
      TickAllConserves(pending[1..], a, m, now, s);
    } else {
      WaitingMember(pending[1..], j - 1);
      TickAllAlone(pending[1..], a, m, now, j - 1);
    }
  }

  /** Where a kept message and an event of a tick come from. */
  lemma {:induction false} KeptFrom(pending: seq<Transaction>, a: nat, m: nat, now: int, i: nat) returns (j: nat)
    requires i < |TickAll(pending, a, m, now).kept|
    ensures j < |pending| && TickOne(pending[j], a, m, now).kept == [TickAll(pending, a, m, now).kept[i]]
  {
    var first := TickOne(pending[0], a, m, now);
    if i < |first.kept| {
      j := 0;
    } else {
      j := KeptFrom(pending[1..], a, m, now, i - |first.kept|);
      j := j + 1;
    }
  }

  lemma {:induction false} EventFrom(pending: seq<Transaction>, a: nat, m: nat, now: int, i: nat) returns (j: nat)
    requires i < |TickAll(pending, a, m, now).events|
    ensures j < |pending| && TickOne(pending[j], a, m, now).events == [TickAll(pending, a, m, now).events[i]]
  {
    var first := TickOne(pending[0], a, m, now);
    if i < |first.events| {
      j := 0;
    } else {
      j := EventFrom(pending[1..], a, m, now, i - |first.events|);
      j := j + 1;
    }
  }

  lemma {:induction false} WaitingWitness(pending: seq<Transaction>, s: nat) returns (j: nat)
    requires Waiting(pending, s) > 0
    ensures j < |pending| && pending[j].serial == s
  {
    if pending[0].serial == s {
      j := 0;
    } else {
      j := WaitingWitness(pending[1..], s);
      j := j + 1;
    }
  }

  lemma PatienceDoubles(a: nat, k: nat)
    ensures Patience(a, k + 1) == Patience(a, k) + a * Pow2(k)
  {
  }

  // ---------- every step keeps every message safe ----------

  /** What is known of a pending message before and during a tick. */
  lemma PendingFacts(p: Peer, now: int, j: nat)
    requires Safe(p) && j < |p.pending|
    ensures var t := p.pending[j];
            && OnSchedule(p, t)
            && Waiting(p.pending, t.serial) == 1 && Ends(p.log, t.serial) == 0
            && Sends(TickPeer(p, now).log, t.serial)
               == t.counter + 1 + if t.retransTime <= now && t.counter < p.maxRetransmit then 1 else 0
  {
    hide Sends, Ends, TickAll, Waiting;
    var t := p.pending[j];
    assert OnSchedule(p, t);
    WaitingMember(p.pending, j);
    TickAllAlone(p.pending, p.ackTimeout, p.maxRetransmit, now, j);
    SendsConcat(p.log, TickAll(p.pending, p.ackTimeout, p.maxRetransmit, now).events, t.serial);
  }

  lemma TickCounts(p: Peer, now: int, s: nat)
    ensures var q := TickPeer(p, now);
            && Waiting(q.pending, s) + Ends(q.log, s) == Waiting(p.pending, s) + Ends(p.log, s)
            && (Waiting(p.pending, s) == 0 ==> Sends(q.log, s) == Sends(p.log, s))
  {
    hide Sends, Ends, Waiting, TickAll;
    var r := TickAll(p.pending, p.ackTimeout, p.maxRetransmit, now);
    TickAllConserves(p.pending, p.ackTimeout, p.maxRetransmit, now, s);
    SendsConcat(p.log, r.events, s);
    EndsConcat(p.log, r.events, s);
  }

  lemma TickConserves(p: Peer, now: int)
    requires Safe(p)
    ensures Conserved(TickPeer(p, now))
  {
    hide Sends, Ends, Waiting, TickAll, Patient, Bounded, OnSchedule;
    forall s: nat
      ensures Waiting(TickPeer(p, now).pending, s) + Ends(TickPeer(p, now).log, s) == Waiting(p.pending, s) + Ends(p.log, s)
      ensures Waiting(p.pending, s) == 0 ==> Sends(TickPeer(p, now).log, s) == Sends(p.log, s)
    {
      TickCounts(p, now, s);
    }
  }

  lemma TickBounds(p: Peer, now: int)
    requires Safe(p)
    ensures Bounded(TickPeer(p, now))
  {
    hide Sends, Ends, Waiting, TickAll, Patient, Conserved;
    forall s | 0 <= s < |p.drawn|
      ensures Sends(TickPeer(p, now).log, s) <= p.maxRetransmit + 1
      ensures p.drawn[s].tracked ==> 1 <= Sends(TickPeer(p, now).log, s)
    {
      if Waiting(p.pending, s) == 0 {
        TickCounts(p, now, s);
      } else {
        var j := WaitingWitness(p.pending, s);
        PendingFacts(p, now, j);
      }
    }
  }

  lemma TickIsPatient(p: Peer, now: int)
    requires Safe(p)
    ensures Patient(TickPeer(p, now))
  {
    hide Sends, Ends, Waiting, TickAll, Bounded, OnSchedule;
    var q := TickPeer(p, now);
    var r := TickAll(p.pending, p.ackTimeout, p.maxRetransmit, now);
    forall k | 0 <= k < |q.log| ensures PatientEvent(q, q.log[k]) {
      var e := q.log[k];
      if e.Completed? && e.outcome == TimedOut {
        if k < |p.log| {
          OldEventStaysPatient(p, now, k);
        } else {
          assert e == r.events[k - |p.log|];
          var j := EventFrom(p.pending, p.ackTimeout, p.maxRetransmit, now, k - |p.log|);
          GivenUpAfterPatience(p, now, j, e);
        }
      }
    }
  }

  lemma OldEventStaysPatient(p: Peer, now: int, k: nat)
    requires Safe(p) && k < |p.log| && p.log[k].Completed?
    ensures PatientEvent(TickPeer(p, now), p.log[k])
  {
    hide Sends, Ends, Waiting, TickAll, Bounded, OnSchedule;
    EndsMember(p.log, k);
    TickCounts(p, now, p.log[k].serial);
    assert PatientEvent(p, p.log[k]);
  }

  lemma GivenUpAfterPatience(p: Peer, now: int, j: nat, e: Event)
    requires Safe(p) && j < |p.pending|
    requires TickOne(p.pending[j], p.ackTimeout, p.maxRetransmit, now).events == [e] && e.Completed?
    ensures PatientEvent(TickPeer(p, now), e)
  {
    hide Sends, Ends, Waiting, TickAll, Bounded, Conserved, Patient, Patience;
    PendingFacts(p, now, j);
    assert [e][0] == Completed(p.pending[j].serial, TimedOut, now);
  }

  lemma KeptOnSchedule(p: Peer, now: int, t: Transaction, j: nat)
    requires Safe(p) && j < |p.pending|
    requires TickOne(p.pending[j], p.ackTimeout, p.maxRetransmit, now).kept == [t]
    ensures OnSchedule(TickPeer(p, now), t)
  {
    hide Sends, Ends, Waiting, TickAll, Bounded, Conserved, Patient, Patience, MidAt;
    PendingFacts(p, now, j);
    assert t == [t][0];
    PatienceDoubles(p.ackTimeout, p.pending[j].counter + 1);
  }

  lemma SafeAfterTick(p: Peer, now: int)
    requires Safe(p)
    ensures Safe(TickPeer(p, now))
  {
    hide TickAll, Bounded, Conserved, Patient, OnSchedule, MidAt;
    var q := TickPeer(p, now);
    TickConserves(p, now);
    TickBounds(p, now);
    TickIsPatient(p, now);
    forall i | 0 <= i < |q.pending| ensures OnSchedule(q, q.pending[i]) {
      var j := KeptFrom(p.pending, p.ackTimeout, p.maxRetransmit, now, i);
      KeptOnSchedule(p, now, q.pending[i], j);
    }
  }

  lemma SendCounts(p: Peer, confirmable: bool, handover: Handover, now: int, s: nat)
    ensures var q := SendMessage(p, confirmable, handover, now);
            && Sends(q.log, s) == Sends(p.log, s) + (if s == |p.drawn| && !handover.NotSerialized? then 1 else 0)
            && Ends(q.log, s) == Ends(p.log, s)
            && Waiting(q.pending, s) == Waiting(p.pending, s) + if s == |p.drawn| && confirmable && handover.Taken? then 1 else 0
  {
    var q := SendMessage(p, confirmable, handover, now);
    if handover.NotSerialized? {
      assert q.log == p.log;
    } else {
      assert q.log[..|q.log| - 1] == p.log;
    }
    if confirmable && handover.Taken? {
      assert q.pending[1..] == p.pending;
    }
  }

  lemma SafeAfterSend(p: Peer, confirmable: bool, handover: Handover, now: int)
    requires Safe(p)
    ensures Safe(SendMessage(p, confirmable, handover, now))
  {
    hide Sends, Ends, Waiting, Patience, MidAt, OnSchedule;
    var q := SendMessage(p, confirmable, handover, now);
    forall s: nat
      ensures Sends(q.log, s) == Sends(p.log, s) + (if s == |p.drawn| && !handover.NotSerialized? then 1 else 0)
      ensures Ends(q.log, s) == Ends(p.log, s)
      ensures Waiting(q.pending, s) == Waiting(p.pending, s) + if s == |p.drawn| && confirmable && handover.Taken? then 1 else 0
    {
      SendCounts(p, confirmable, handover, now, s);
    }
    forall k | 0 <= k < |q.log| ensures PatientEvent(q, q.log[k]) {
      if k < |p.log| {
        assert PatientEvent(p, p.log[k]);
      }
    }
    NextMidInClosedForm(p.firstMid, |p.drawn|);
    forall i | 0 <= i < |q.pending| ensures OnSchedule(q, q.pending[i]) {
      SendKeepsSchedule(p, confirmable, handover, now, i);
    }
  }

  lemma SendKeepsSchedule(p: Peer, confirmable: bool, handover: Handover, now: int, i: nat)
    requires Safe(p) && i < |SendMessage(p, confirmable, handover, now).pending|
    ensures var q := SendMessage(p, confirmable, handover, now); OnSchedule(q, q.pending[i])
  {
    hide Sends, Ends, Waiting, Patience, MidAt, Bounded, Patient;
    var q := SendMessage(p, confirmable, handover, now);
    SendCounts(p, confirmable, handover, now, q.pending[i].serial);
    var k := if confirmable && handover.Taken? then i - 1 else i;
    if k >= 0 {
      assert q.pending[i] == p.pending[k];
      assert OnSchedule(p, p.pending[k]);
    } else {
      PatienceDoubles(p.ackTimeout, 0);
      PatienceAtOnce(p.ackTimeout);
    }
  }

  lemma PatienceAtOnce(a: nat)
    ensures Patience(a, 0) == 0 && Pow2(0) == 1
  {
  }

  lemma ReceiveCounts(p: Peer, mid: uint16, reset: bool, now: int, s: nat)
    ensures var q := ReceiveReply(p, mid, reset, now);
            && Sends(q.log, s) == Sends(p.log, s)
            && Waiting(q.pending, s) + Ends(q.log, s) == Waiting(p.pending, s) + Ends(p.log, s)
  {
    var q := ReceiveReply(p, mid, reset, now);
    var k := FindMid(p.pending, mid);
    if k < |p.pending| {
      assert q.log[..|q.log| - 1] == p.log;
      assert p.pending == p.pending[..k] + ([p.pending[k]] + p.pending[k + 1..]);
      WaitingConcat(p.pending[..k], [p.pending[k]] + p.pending[k + 1..], s);
      assert ([p.pending[k]] + p.pending[k + 1..])[1..] == p.pending[k + 1..];
      WaitingConcat(p.pending[..k], p.pending[k + 1..], s);
    }
  }

  lemma SafeAfterReceive(p: Peer, mid: uint16, reset: bool, now: int)
    requires Safe(p)
    ensures Safe(ReceiveReply(p, mid, reset, now))
  {
    hide Sends, Ends, Waiting, Patience, MidAt;
    var q := ReceiveReply(p, mid, reset, now);
    var k := FindMid(p.pending, mid);
    forall s: nat
      ensures Sends(q.log, s) == Sends(p.log, s)
      ensures Waiting(q.pending, s) + Ends(q.log, s) == Waiting(p.pending, s) + Ends(p.log, s)
    {
      ReceiveCounts(p, mid, reset, now, s);
    }
    forall i | 0 <= i < |q.log| ensures PatientEvent(q, q.log[i]) {
      if i < |p.log| {
        assert PatientEvent(p, p.log[i]);
      }
    }
    forall i | 0 <= i < |q.pending| ensures OnSchedule(q, q.pending[i]) {
      var j := if i < k then i else i + 1;
      if k < |p.pending| {
        assert q.pending[i] == p.pending[j];
        assert OnSchedule(p, p.pending[j]);
      }
    }
  }

  lemma {:induction false} CloseCounts(pending: seq<Transaction>, now: int, s: nat)
    ensures var events := CloseAll(pending, now);
            Sends(events, s) == 0 && Ends(events, s) == Waiting(pending, s)
  {
    if pending == [] {
    } else {
      var first, rest := [Completed(pending[0].serial, PeerClosed, now)], CloseAll(pending[1..], now);
      CloseCounts(pending[1..], now, s);
      SendsConcat(first, rest, s);
      EndsConcat(first, rest, s);
    }
  }

  lemma {:induction false} CloseOutcome(pending: seq<Transaction>, now: int, k: nat)
    requires k < |CloseAll(pending, now)|
    ensures CloseAll(pending, now)[k].Completed? && CloseAll(pending, now)[k].outcome == PeerClosed
  {
    if k == 0 {
    } else {
      CloseOutcome(pending[1..], now, k - 1);
    }
  }

  lemma SafeAfterClose(p: Peer, now: int)
    requires Safe(p)
    ensures Safe(ClosePeer(p, now)) && ClosePeer(p, now).pending == []
  {
    hide Sends, Ends, CloseAll, Patience, MidAt;
    var q, events := ClosePeer(p, now), CloseAll(p.pending, now);
    forall s: nat
      ensures Sends(q.log, s) == Sends(p.log, s)
      ensures Waiting(q.pending, s) + Ends(q.log, s) == Waiting(p.pending, s) + Ends(p.log, s)
    {
      CloseCounts(p.pending, now, s);
      SendsConcat(p.log, events, s);
      EndsConcat(p.log, events, s);
    }
    forall k | 0 <= k < |q.log| ensures PatientEvent(q, q.log[k]) {
      if k < |p.log| {
        assert PatientEvent(p, p.log[k]);
      } else {
        CloseOutcome(p.pending, now, k - |p.log|);
      }
    }
  }

  /** Over any run of sends, clock ticks, replies and closing, every confirmable message is pending or
      completed exactly once, sent at most maxRetransmit + 1 times, and given up only after
      all its transmissions and the sum of the doubled timeouts. */
  lemma {:induction false} RunIsSafe(ackTimeout: nat, maxRetransmit: nat, firstMid: uint16, inputs: seq<Input>)
    ensures Safe(Run(NewPeer(ackTimeout, maxRetransmit, firstMid), inputs))
  {
    hide Safe;
    var start := NewPeer(ackTimeout, maxRetransmit, firstMid);
    if inputs == [] {
      NewPeerIsSafe(ackTimeout, maxRetransmit, firstMid);
    } else {
      var before := Run(start, inputs[..|inputs| - 1]);
      RunIsSafe(ackTimeout, maxRetransmit, firstMid, inputs[..|inputs| - 1]);
      match inputs[|inputs| - 1] {
        case Send(confirmable, handover, now) => SafeAfterSend(before, confirmable, handover, now);
        case Tick(now) => SafeAfterTick(before, now);
        case Receive(kind, mid, now) =>
          SafeAfterReceive(before, mid, false, now);
          SafeAfterReceive(before, mid, true, now);
        case Close(now) => SafeAfterClose(before, now);
      }
    }
  }

  lemma NewPeerIsSafe(ackTimeout: nat, maxRetransmit: nat, firstMid: uint16)
    ensures Safe(NewPeer(ackTimeout, maxRetransmit, firstMid))
  {
  }

  // ---------- what each input of a run does ----------

  /** The outcome that each way to complete a message has. */
  lemma {:induction false} TickOutcome(pending: seq<Transaction>, a: nat, m: nat, now: int, k: nat)
    requires k < |TickAll(pending, a, m, now).events|
    ensures var e := TickAll(pending, a, m, now).events[k];
            e.at == now && (e.Completed? ==> e.outcome == TimedOut)
  {
    var j := EventFrom(pending, a, m, now, k);
    assert [TickAll(pending, a, m, now).events[k]][0] == TickAll(pending, a, m, now).events[k];
  }

  /** The timeouts double: the first retransmission gets twice ackTimeout, and each later one
      twice the timeout of the one before. */
  lemma TimeoutsDouble(t: Transaction, a: nat, m: nat, first: int, second: int)
    requires t.retransTime <= first && t.counter + 2 <= m
    ensures var kept := TickOne(t, a, m, first).kept;
            && |kept| == 1 && kept[0].serial == t.serial && (t.counter == 0 ==> kept[0].retransTime == first + 2 * a)
            && (kept[0].retransTime <= second ==>
                  var next := TickOne(kept[0], a, m, second).kept;
                  |next| == 1 && next[0].retransTime - second == 2 * (kept[0].retransTime - first))
  {
    var p := Pow2(t.counter + 1);
    assert a * (2 * p) == 2 * (a * p);
    assert Pow2(0) == 1;
  }

  /** The sends of a run, in order. */
  function SendsOf(inputs: seq<Input>): (sends: seq<Input>)
    ensures forall k :: 0 <= k < |sends| ==> sends[k].Send?
  {
    if inputs == [] then []
    else SendsOf(inputs[..|inputs| - 1]) + if inputs[|inputs| - 1].Send? then [inputs[|inputs| - 1]] else []
  }

  /** Every send draws an id, and makes a message wait exactly if it is confirmable and taken. */
  lemma {:induction false} RunDraws(p: Peer, inputs: seq<Input>)
    requires p.drawn == []
    ensures var drawn, sends := Run(p, inputs).drawn, SendsOf(inputs);
            && |drawn| == |sends|
            && forall k :: 0 <= k < |drawn| ==>
                 drawn[k] == Draw(sends[k].confirmable && sends[k].handover.Taken?, sends[k].at)
  {
    hide TickAll, FindMid, CloseAll, MidAt;
    if inputs == [] {
    } else {
      RunDraws(p, inputs[..|inputs| - 1]);
    }
  }

  /** A message that is not tracked was transmitted once, or never if it could not be serialized. */
  lemma {:induction false} RunTransmits(a: nat, m: nat, firstMid: uint16, inputs: seq<Input>, s: nat)
    requires s < |SendsOf(inputs)| && !(SendsOf(inputs)[s].confirmable && SendsOf(inputs)[s].handover.Taken?)
    ensures Sends(Run(NewPeer(a, m, firstMid), inputs).log, s) == if SendsOf(inputs)[s].handover.NotSerialized? then 0 else 1
  {
    hide Sends, TickAll, FindMid, CloseAll, Waiting, Safe;
    var start, front, last := NewPeer(a, m, firstMid), inputs[..|inputs| - 1], inputs[|inputs| - 1];
    var before := Run(start, front);
    RunDraws(start, front);
    RunDraws(start, inputs);
    RunIsSafe(a, m, firstMid, front);
    if s < |SendsOf(front)| {
      RunTransmits(a, m, firstMid, front, s);
      UntrackedCounts(before, s);
    } else {
      UndrawnCounts(before, s);
    }
    match last {
      case Send(confirmable, handover, now) => SendCounts(before, confirmable, handover, now, s);
      case Tick(now) => TickCounts(before, now, s);
      case Receive(kind, mid, now) =>
        ReceiveCounts(before, mid, false, now, s);
        ReceiveCounts(before, mid, true, now, s);
      case Close(now) =>
        CloseCounts(before.pending, now, s);
        SendsConcat(before.log, CloseAll(before.pending, now), s);
    }
  }

  lemma UntrackedCounts(p: Peer, s: nat)
    requires Safe(p) && s < |p.drawn| && !p.drawn[s].tracked
    ensures Waiting(p.pending, s) == 0
  {
    hide Sends, Ends, Waiting, Patient, Bounded, OnSchedule;
  }

  lemma UndrawnCounts(p: Peer, s: nat)
    requires Safe(p) && s >= |p.drawn|
    ensures Waiting(p.pending, s) == 0 && Sends(p.log, s) == 0
  {
    hide Sends, Ends, Waiting, Patient, Bounded, OnSchedule;
  }

  /** The account of a run, send by send: a confirmable message that was taken is pending or
      completed, exactly once, after at most maxRetransmit + 1 transmissions; any other message
      is neither, and was transmitted once unless it could not be serialized. */
  lemma EverySendAccounted(a: nat, m: nat, firstMid: uint16, inputs: seq<Input>, s: nat)
    requires s < |SendsOf(inputs)|
    ensures var q, sent := Run(NewPeer(a, m, firstMid), inputs), SendsOf(inputs)[s];
            if sent.confirmable && sent.handover.Taken? then
              Waiting(q.pending, s) + Ends(q.log, s) == 1 && 1 <= Sends(q.log, s) <= m + 1
            else
              && Waiting(q.pending, s) == Ends(q.log, s) == 0
              && Sends(q.log, s) == if sent.handover.NotSerialized? then 0 else 1
  {
    hide Sends, Ends, Waiting, Run, Patient, OnSchedule, SendsOf;
    RunDraws(NewPeer(a, m, firstMid), inputs);
    RunIsSafe(a, m, firstMid, inputs);
    RunKeepsSettings(NewPeer(a, m, firstMid), inputs);
    if !(SendsOf(inputs)[s].confirmable && SendsOf(inputs)[s].handover.Taken?) {
      RunTransmits(a, m, firstMid, inputs, s);
    }
  }

  // ---------- replies find their message, and nobody waits for ever ----------

  /** Two different messages of one peer carry the same id. */
  predicate Collide(firstMid: uint16, i: nat, j: nat) {
    (i - j) % 65535 == 0 && !(firstMid == RESERVED_MID && (i == 0 || j == 0))
  }

  lemma SameMidIffCollide(firstMid: uint16, i: nat, j: nat)
    requires i != j
    ensures MidAt(firstMid, i) == MidAt(firstMid, j) <==> Collide(firstMid, i, j)
  {
    hide MidAt;
    MidsCollide(firstMid, if i < j then i else j, if i < j then j else i);
    assert (i - j) % 65535 == 0 <==> (j - i) % 65535 == 0;
    if firstMid == RESERVED_MID && (i == 0 || j == 0) {
      ReservedMidOnlyFirst(firstMid, i);
      ReservedMidOnlyFirst(firstMid, j);
    }
  }

  /** A reply finds the very message whose id it carries exactly when no message before it
      in the list lies a multiple of 65535 ids away. */
  lemma ReplyFindsItsMessage(p: Peer, i: nat)
    requires Safe(p) && i < |p.pending|
    ensures FindMid(p.pending, p.pending[i].mid) == i <==>
            forall k :: 0 <= k < i ==> !Collide(p.firstMid, p.pending[k].serial, p.pending[i].serial)
  {
    hide Sends, Ends, Waiting, MidAt, Bounded, Patient, Collide;
    var t := p.pending[i];
    assert OnSchedule(p, t);
    forall k | 0 <= k < i
      ensures p.pending[k].mid == t.mid <==> Collide(p.firstMid, p.pending[k].serial, t.serial)
    {
      assert OnSchedule(p, p.pending[k]);
      if p.pending[k].serial == t.serial {
        WaitingTwice(p.pending, k, i);
      }
      SameMidIffCollide(p.firstMid, p.pending[k].serial, t.serial);
    }
  }

  /** So a reply completes its message as long as no pending message is overtaken by 65535
      later ids. */
  lemma ReplyCompletesItsMessage(p: Peer, i: nat, reset: bool, now: int)
    requires Safe(p) && i < |p.pending|
    requires forall k :: 0 <= k < |p.pending| ==> p.pending[k].serial + 65535 >= |p.drawn|
    ensures var q := ReceiveReply(p, p.pending[i].mid, reset, now);
            && q.pending == p.pending[..i] + p.pending[i + 1..]
            && q.log == p.log + [Completed(p.pending[i].serial, if reset then WasReset else Acknowledged, now)]
  {
    hide Sends, Ends, Waiting, MidAt, Bounded, Patient;
    forall k | 0 <= k < i
      ensures !Collide(p.firstMid, p.pending[k].serial, p.pending[i].serial)
    {
      assert OnSchedule(p, p.pending[k]) && OnSchedule(p, p.pending[i]);
      if p.pending[k].serial == p.pending[i].serial {
        WaitingTwice(p.pending, k, i);
      }
    }
    ReplyFindsItsMessage(p, i);
  }

  /** The list is newest first. */
  predicate NewestFirst(pending: seq<Transaction>) {
    forall i, j :: 0 <= i < j < |pending| ==> pending[i].serial > pending[j].serial
  }

  lemma {:induction false} TickKeepsOrder(pending: seq<Transaction>, a: nat, m: nat, now: int)
    requires NewestFirst(pending)
    ensures NewestFirst(TickAll(pending, a, m, now).kept)
  {
    if pending == [] {
    } else {
      assert forall j :: 1 <= j < |pending| ==> pending[j] == pending[1..][j - 1];
      TickKeepsOrder(pending[1..], a, m, now);
      var first, rest := TickOne(pending[0], a, m, now).kept, TickAll(pending[1..], a, m, now).kept;
      hide TickAll, TickOne;
      forall i | 0 <= i < |rest| ensures rest[i].serial < pending[0].serial {
        var j := KeptSerial(pending[1..], a, m, now, i);
      }
      TickOneSerial(pending[0], a, m, now);
      TickUnfold(pending, a, m, now);
      OlderBehind(first, rest);
    }
  }

  lemma TickUnfold(pending: seq<Transaction>, a: nat, m: nat, now: int)
    requires pending != []
    ensures TickAll(pending, a, m, now).kept
            == TickOne(pending[0], a, m, now).kept + TickAll(pending[1..], a, m, now).kept
  {
  }

  lemma TickOneSerial(t: Transaction, a: nat, m: nat, now: int)
    ensures var kept := TickOne(t, a, m, now).kept;
            |kept| <= 1 && forall i :: 0 <= i < |kept| ==> kept[i].serial == t.serial
  {
  }

  lemma KeptSerial(pending: seq<Transaction>, a: nat, m: nat, now: int, i: nat) returns (j: nat)
    requires i < |TickAll(pending, a, m, now).kept|
    ensures j < |pending| && pending[j].serial == TickAll(pending, a, m, now).kept[i].serial
  {
    hide TickAll;
    j := KeptFrom(pending, a, m, now, i);
    assert TickOne(pending[j], a, m, now).kept[0] == TickAll(pending, a, m, now).kept[i];
  }

  lemma OlderBehind(first: seq<Transaction>, rest: seq<Transaction>)
    requires |first| <= 1 && NewestFirst(rest)
    requires first != [] ==> forall i :: 0 <= i < |rest| ==> rest[i].serial < first[0].serial
    ensures NewestFirst(first + rest)
  {
  }

  lemma NothingToOrder()
    ensures NewestFirst([])
  {
  }

  lemma {:induction false} RunIsNewestFirst(a: nat, m: nat, firstMid: uint16, inputs: seq<Input>)
    ensures NewestFirst(Run(NewPeer(a, m, firstMid), inputs).pending)
  {
    hide TickAll, FindMid, CloseAll, NewestFirst, Safe;
    if inputs == [] {
      NothingToOrder();
    } else {
      var front, last := inputs[..|inputs| - 1], inputs[|inputs| - 1];
      var before := Run(NewPeer(a, m, firstMid), front);
      RunIsNewestFirst(a, m, firstMid, front);
      RunIsSafe(a, m, firstMid, front);
      match last {
        case Send(confirmable, handover, now) => SendKeepsOrder(before, confirmable, handover, now);
        case Tick(now) => TickKeepsOrder(before.pending, before.ackTimeout, before.maxRetransmit, now);
        case Receive(kind, mid, now) => DispatchKeepsOrder(before, kind, mid, now);
        case Close(now) => NothingToOrder();
      }
    }
  }

  lemma SendKeepsOrder(p: Peer, confirmable: bool, handover: Handover, now: int)
    requires Safe(p) && NewestFirst(p.pending)
    ensures NewestFirst(SendMessage(p, confirmable, handover, now).pending)
  {
    hide Conserved, Bounded, Patient, Sends, MidAt, Patience, NewestFirst;
    forall i | 0 <= i < |p.pending| ensures p.pending[i].serial < |p.drawn| {
      assert OnSchedule(p, p.pending[i]);
    }
    OlderBehind([Transaction(|p.drawn|, p.nextMid, 0, now + p.ackTimeout)], p.pending);
  }

  lemma DispatchKeepsOrder(p: Peer, kind: byte, mid: uint16, now: int)
    requires NewestFirst(p.pending)
    ensures NewestFirst(Dispatch(p, kind, mid, now).pending)
  {
    hide FindMid;
    var k := FindMid(p.pending, mid);
    if k < |p.pending| {
      var rest := p.pending[..k] + p.pending[k + 1..];
      assert forall i :: 0 <= i < |rest| ==> rest[i] == p.pending[if i < k then i else i + 1];
    }
  }

  /** After any run, even when ids have wrapped around: an acknowledgement or a reset completes,
      of all pending messages with its id, the one that was sent last. */
  lemma ReplyNamesTheNewest(a: nat, m: nat, firstMid: uint16, inputs: seq<Input>, i: nat, reset: bool, now: int)
    requires i < |Run(NewPeer(a, m, firstMid), inputs).pending|
    requires var pending := Run(NewPeer(a, m, firstMid), inputs).pending;
             forall k :: 0 <= k < |pending| && pending[k].mid == pending[i].mid ==> pending[k].serial <= pending[i].serial
    ensures var p := Run(NewPeer(a, m, firstMid), inputs);
            ReceiveReply(p, p.pending[i].mid, reset, now)
            == p.(pending := p.pending[..i] + p.pending[i + 1..],
                  log := p.log + [Completed(p.pending[i].serial, if reset then WasReset else Acknowledged, now)])
  {
    hide Run, FindMid;
    RunIsNewestFirst(a, m, firstMid, inputs);
    var pending := Run(NewPeer(a, m, firstMid), inputs).pending;
    var k := FindMid(pending, pending[i].mid);
    assert k <= i;
  }

  lemma {:induction false} WaitingTwice(a: seq<Transaction>, i: nat, j: nat)
    requires i < j < |a| && a[i].serial == a[j].serial
    ensures Waiting(a, a[i].serial) >= 2
  {
    if i == 0 {
      WaitingMember(a[1..], j - 1);
    } else {
      WaitingTwice(a[1..], i - 1, j - 1);
    }
  }

  function TickMany(p: Peer, times: seq<int>): (q: Peer)
    decreases |times|
  {
    if times == [] then p else TickMany(TickPeer(p, times[0]), times[1..])
  }

  lemma {:induction false} Pow2Monotone(i: nat, j: nat)
    requires i <= j
    ensures Pow2(i) <= Pow2(j)
  {
    if i == j {
    } else {
      Pow2Monotone(i, j - 1);
    }
  }

  lemma TimeoutMonotone(a: nat, i: nat, j: nat)
    requires i <= j
    ensures a * Pow2(i) <= a * Pow2(j)
  {
    Pow2Monotone(i, j);
  }

  /** Every message is completed by maxRetransmit + 1 ticks that are each as late as the
      longest timeout. */
  lemma {:induction false} EveryMessageEnds(p: Peer, times: seq<int>)
    requires |times| > 0 || p.pending == []
    requires forall i :: 0 <= i < |p.pending| ==>
      p.pending[i].retransTime <= times[0] && p.maxRetransmit < p.pending[i].counter + |times|
    requires forall k :: 0 <= k < |times| - 1 ==> times[k] + p.ackTimeout * Pow2(p.maxRetransmit) <= times[k + 1]
    ensures TickMany(p, times).pending == []
    decreases |times|
  {
    if times == [] {
    } else {
      var q := TickPeer(p, times[0]);
      forall i | 0 <= i < |q.pending|
        ensures |times| > 1 && q.pending[i].retransTime <= times[1] && p.maxRetransmit < q.pending[i].counter + |times| - 1
      {
        var j := KeptFrom(p.pending, p.ackTimeout, p.maxRetransmit, times[0], i);
        LateTick(p.pending[j], p.ackTimeout, p.maxRetransmit, times[0], q.pending[i]);
      }
      assert q.pending != [] ==> q.pending[0].retransTime <= times[1];
      EveryMessageEnds(q, times[1..]);
    }
  }

  lemma LateTick(t: Transaction, a: nat, m: nat, now: int, kept: Transaction)
    requires t.retransTime <= now && TickOne(t, a, m, now).kept == [kept]
    ensures t.counter < m && kept.counter == t.counter + 1 && kept.retransTime <= now + a * Pow2(m)
  {
    hide Pow2;
    assert kept == [kept][0];
    TimeoutMonotone(a, t.counter + 1, m);
  }

  // ---------- the width of the clock ----------

  /** One more than the greatest 32-bit signed time. */
  const TIME_LIMIT: int := 0x8000_0000

  predicate Within(inputs: seq<Input>, latest: int) {
    forall k :: 0 <= k < |inputs| ==> 0 <= inputs[k].at <= latest
  }

  /** No deadline leaves 32 bits. A deadline is never earlier than the timeout it was made of is
      long, so that timeouts fit as well. */
  ghost predicate FitsTheClock(p: Peer) {
    forall i {:trigger p.pending[i]} :: 0 <= i < |p.pending| ==> 0 <= p.pending[i].retransTime < TIME_LIMIT
  }

  /** Every message was drawn at some time, and is due at most its last timeout after latest. */
  ghost predicate DueBefore(p: Peer, latest: int) {
    && (forall s :: 0 <= s < |p.drawn| ==> p.drawn[s].at >= 0)
    && forall i :: 0 <= i < |p.pending| ==>
         0 <= p.pending[i].retransTime <= latest + p.ackTimeout * Pow2(p.pending[i].counter)
  }

  lemma DueAfterTick(p: Peer, now: int, latest: int)
    requires DueBefore(p, latest) && 0 <= now <= latest
    ensures DueBefore(TickPeer(p, now), latest)
  {
    hide TickAll, Pow2;
    var q := TickPeer(p, now);
    forall i | 0 <= i < |q.pending|
      ensures 0 <= q.pending[i].retransTime <= latest + p.ackTimeout * Pow2(q.pending[i].counter)
    {
      var j := KeptFrom(p.pending, p.ackTimeout, p.maxRetransmit, now, i);
      assert q.pending[i] == [q.pending[i]][0];
      TimeoutPositive(p.ackTimeout, p.pending[j].counter + 1);
    }
  }

  lemma TimeoutPositive(a: nat, k: nat)
    ensures a * Pow2(k) >= 0
  {
  }

  lemma RunKeepsSettings(p: Peer, inputs: seq<Input>)
    ensures var q := Run(p, inputs);
            q.ackTimeout == p.ackTimeout && q.maxRetransmit == p.maxRetransmit && q.firstMid == p.firstMid
  {
    hide TickAll, FindMid, CloseAll;
  }

  lemma {:induction false} RunIsDueBefore(ackTimeout: nat, maxRetransmit: nat, firstMid: uint16, inputs: seq<Input>, latest: int)
    requires Within(inputs, latest)
    ensures DueBefore(Run(NewPeer(ackTimeout, maxRetransmit, firstMid), inputs), latest)
  {
    hide TickAll, FindMid, CloseAll;
    if inputs == [] {
    } else {
      var start, front := NewPeer(ackTimeout, maxRetransmit, firstMid), inputs[..|inputs| - 1];
      var before, last := Run(start, front), inputs[|inputs| - 1];
      assert Within(front, latest);
      RunIsDueBefore(ackTimeout, maxRetransmit, firstMid, front, latest);
      if last.Tick? {
        DueAfterTick(before, last.at, latest);
      } else if last.Send? {
        DueAfterSend(before, last.confirmable, last.handover, last.at, latest);
      }
    }
  }

  lemma DueAfterSend(p: Peer, confirmable: bool, handover: Handover, now: int, latest: int)
    requires DueBefore(p, latest) && 0 <= now <= latest
    ensures DueBefore(SendMessage(p, confirmable, handover, now), latest)
  {
    hide Pow2, NextMid;
    PatienceAtOnce(p.ackTimeout);
    var q := SendMessage(p, confirmable, handover, now);
    forall i | 0 <= i < |q.pending|
      ensures 0 <= q.pending[i].retransTime <= latest + p.ackTimeout * Pow2(q.pending[i].counter)
    {
      if |q.pending| == |p.pending| {
        assert q.pending[i] == p.pending[i];
      } else if i > 0 {
        assert q.pending[i] == p.pending[i - 1];
      }
    }
  }

  /** How often a message can have been retransmitted when the clock says latest. */
  function MostRetransmissions(a: nat, m: nat, latest: nat): (k: nat)
    ensures k <= m && Patience(a, k) <= latest
    ensures forall i :: k < i <= m ==> Patience(a, i) > latest
  {
    if Patience(a, m) <= latest then m
    else
      PatienceAtOnce(a);
      MostRetransmissions(a, m - 1, latest)
  }

  /** The run that waits for every deadline, the clock starting at 0. */
  function Retransmissions(ackTimeout: nat, k: nat): (inputs: seq<Input>) {
    if k == 0 then [Send(true, Taken, 0)] else Retransmissions(ackTimeout, k - 1) + [Tick(Patience(ackTimeout, k))]
  }

  lemma {:induction false} RetransmissionsState(a: nat, m: nat, firstMid: uint16, k: nat)
    requires k <= m
    ensures Run(NewPeer(a, m, firstMid), Retransmissions(a, k)).pending == [Transaction(0, firstMid, k, Patience(a, k + 1))]
    ensures Within(Retransmissions(a, k), Patience(a, k))
  {
    hide Run, Patience;
    PatienceDoubles(a, k);
    if k == 0 {
      OneSend(a, m, firstMid, 0);
      PatienceAtOnce(a);
    } else {
      RetransmissionsState(a, m, firstMid, k - 1);
      OneMoreTick(NewPeer(a, m, firstMid), Retransmissions(a, k - 1), Patience(a, k));
      PatienceDoubles(a, k - 1);
    }
  }

  lemma OnlyOneTicks(p: Peer, now: int)
    requires |p.pending| == 1 && p.pending[0].retransTime <= now && p.pending[0].counter < p.maxRetransmit
    ensures var t := p.pending[0];
            TickPeer(p, now).pending == [t.(counter := t.counter + 1, retransTime := now + p.ackTimeout * Pow2(t.counter + 1))]
  {
    var first := TickOne(p.pending[0], p.ackTimeout, p.maxRetransmit, now);
    assert p.pending[1..] == [];
    assert TickAll([], p.ackTimeout, p.maxRetransmit, now) == Ticked([], []);
    assert first.kept + [] == first.kept;
  }

  lemma RunExtend(p: Peer, front: seq<Input>, last: Input)
    ensures Run(p, front + [last]) == Apply(Run(p, front), last)
  {
    hide Apply;
    assert (front + [last])[..|front|] == front;
  }

  lemma OneSend(a: nat, m: nat, firstMid: uint16, now: int)
    ensures Run(NewPeer(a, m, firstMid), [Send(true, Taken, now)]).pending == [Transaction(0, firstMid, 0, now + a)]
  {
    var p0 := NewPeer(a, m, firstMid);
    assert [] + [Send(true, Taken, now)] == [Send(true, Taken, now)];
    RunExtend(p0, [], Send(true, Taken, now));
  }

  /** One more retransmission of the only message. */
  lemma OneMoreTick(p0: Peer, front: seq<Input>, now: int)
    requires var p := Run(p0, front);
             |p.pending| == 1 && p.pending[0].retransTime <= now && p.pending[0].counter < p0.maxRetransmit
    ensures var t := Run(p0, front).pending[0];
            Run(p0, front + [Tick(now)]).pending
            == [t.(counter := t.counter + 1, retransTime := now + p0.ackTimeout * Pow2(t.counter + 1))]
  {
    hide Run, TickAll;
    RunExtend(p0, front, Tick(now));
    RunKeepsSettings(p0, front);
    OnlyOneTicks(Run(p0, front), now);
  }

  /** A run that reaches a deadline after k retransmissions, the last of them as late as can be. */
  lemma LatestDeadline(a: nat, m: nat, firstMid: uint16, k: nat, latest: int) returns (inputs: seq<Input>)
    requires k <= m && latest >= Patience(a, k)
    ensures Within(inputs, latest)
    ensures var p := Run(NewPeer(a, m, firstMid), inputs);
            |p.pending| == 1 && p.pending[0].retransTime == latest + a * Pow2(k)
  {
    hide Run, Patience, Retransmissions;
    PatienceAtOnce(a);
    if k == 0 {
      inputs := [Send(true, Taken, latest)];
      OneSend(a, m, firstMid, latest);
    } else {
      RetransmissionsState(a, m, firstMid, k - 1);
      OneMoreTick(NewPeer(a, m, firstMid), Retransmissions(a, k - 1), latest);
      PatienceDoubles(a, k - 1);
      inputs := Retransmissions(a, k - 1) + [Tick(latest)];
    }
  }

  /** With clocks up to latest, no run ever leaves 32 bits exactly if the deadline after the most
      retransmissions there can have been does not. */
  lemma RunFitsTheClockIff(a: nat, m: nat, firstMid: uint16, latest: nat)
    ensures (forall inputs: seq<Input> :: Within(inputs, latest) ==> FitsTheClock(Run(NewPeer(a, m, firstMid), inputs)))
            <==> latest + a * Pow2(MostRetransmissions(a, m, latest)) < TIME_LIMIT
  {
    hide Run, Within, Patience, MostRetransmissions, Pow2;
    var k := MostRetransmissions(a, m, latest);
    if latest + a * Pow2(k) < TIME_LIMIT {
      forall inputs: seq<Input> | Within(inputs, latest)
        ensures FitsTheClock(Run(NewPeer(a, m, firstMid), inputs))
      {
        FitsWhenDue(a, m, firstMid, inputs, latest);
      }
    } else {
      var inputs := LatestDeadline(a, m, firstMid, k, latest);
      assert !FitsTheClock(Run(NewPeer(a, m, firstMid), inputs));
    }
  }

  lemma FitsWhenDue(a: nat, m: nat, firstMid: uint16, inputs: seq<Input>, latest: nat)
    requires Within(inputs, latest) && latest + a * Pow2(MostRetransmissions(a, m, latest)) < TIME_LIMIT
    ensures FitsTheClock(Run(NewPeer(a, m, firstMid), inputs))
  {
    hide Run, Within, Pow2, MostRetransmissions, Safe;
    var p := Run(NewPeer(a, m, firstMid), inputs);
    RunIsDueBefore(a, m, firstMid, inputs, latest);
    RunIsSafe(a, m, firstMid, inputs);
    RunKeepsSettings(NewPeer(a, m, firstMid), inputs);
    forall i | 0 <= i < |p.pending|
      ensures a * Pow2(p.pending[i].counter) <= a * Pow2(MostRetransmissions(a, m, latest))
    {
      SafeSchedule(p, i);
      PatienceWithin(p, i, latest);
      TimeoutMonotone(a, p.pending[i].counter, MostRetransmissions(a, m, latest));
    }
  }

  lemma SafeSchedule(p: Peer, i: nat)
    requires Safe(p) && i < |p.pending|
    ensures OnSchedule(p, p.pending[i])
  {
  }

  /** A pending message has waited for all its timeouts but the last. */
  lemma PatienceWithin(p: Peer, i: nat, latest: int)
    requires i < |p.pending| && OnSchedule(p, p.pending[i]) && DueBefore(p, latest)
    ensures p.pending[i].counter <= p.maxRetransmit && Patience(p.ackTimeout, p.pending[i].counter) <= latest
  {
    hide Patience, Pow2, Sends, MidAt;
    PatienceDoubles(p.ackTimeout, p.pending[i].counter);
  }
}
