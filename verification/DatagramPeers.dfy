/** The datagram peer object: its transaction list is updated in place by sending, by the
    periodic step and by incoming replies. */
module DatagramPeers {
  import opened Bytes
  import opened MessageCodec
  import opened Transactions

  function Then(a: Ticked, b: Ticked): (r: Ticked) {
    Ticked(a.kept + b.kept, a.events + b.events)
  }

  lemma ThenAssociates(a: Ticked, b: Ticked, c: Ticked)
    ensures Then(a, Then(b, c)) == Then(Then(a, b), c)
  {
  }

  lemma {:induction false} TickAllConcat(a: seq<Transaction>, b: seq<Transaction>, ackTimeout: nat, m: nat, now: int)
    ensures TickAll(a + b, ackTimeout, m, now)
            == Ticked(TickAll(a, ackTimeout, m, now).kept + TickAll(b, ackTimeout, m, now).kept,
                      TickAll(a, ackTimeout, m, now).events + TickAll(b, ackTimeout, m, now).events)
  {
    hide TickOne;
    if a == [] {
      assert a + b == b;
    } else {
      TickAllConcat(a[1..], b, ackTimeout, m, now);
      assert (a + b)[1..] == a[1..] + b;
      var first := TickOne(a[0], ackTimeout, m, now);
      var ra, rb := TickAll(a[1..], ackTimeout, m, now), TickAll(b, ackTimeout, m, now);
      assert TickAll(a + b, ackTimeout, m, now) == Then(first, Then(ra, rb));
      assert TickAll(a, ackTimeout, m, now) == Then(first, ra);
      ThenAssociates(first, ra, rb);
    }
  }

  lemma TickAllExtend(pending: seq<Transaction>, i: nat, ackTimeout: nat, m: nat, now: int)
    requires i < |pending|
    ensures TickAll(pending[..i + 1], ackTimeout, m, now)
            == Ticked(TickAll(pending[..i], ackTimeout, m, now).kept + TickOne(pending[i], ackTimeout, m, now).kept,
                      TickAll(pending[..i], ackTimeout, m, now).events + TickOne(pending[i], ackTimeout, m, now).events)
  {
    assert pending[..i + 1] == pending[..i] + [pending[i]];
    TickAllConcat(pending[..i], [pending[i]], ackTimeout, m, now);
  }

  /** The wait until the next step: no longer than asked, in time for every pending message,
      and no shorter than one of these demands. */
  ghost predicate WakesInTime(timeout: int, remaining: int, pending: seq<Transaction>, now: int) {
    && remaining <= timeout
    && (forall i :: 0 <= i < |pending| ==> remaining <= pending[i].retransTime - now)
    && (remaining == timeout || exists i :: 0 <= i < |pending| && remaining == pending[i].retransTime - now)
  }

  lemma WakesWithOneMore(timeout: int, remaining: int, pending: seq<Transaction>, t: Transaction, now: int)
    requires WakesInTime(timeout, remaining, pending, now)
    ensures WakesInTime(timeout, if remaining > t.retransTime - now then t.retransTime - now else remaining, pending + [t], now)
  {
    var all := pending + [t];
    assert all[|pending|] == t;
    if remaining != timeout && remaining <= t.retransTime - now {
      var i :| 0 <= i < |pending| && remaining == pending[i].retransTime - now;
      assert all[i] == pending[i];
    }
  }

  /** The list while a step is under way: the part already visited, then the untouched rest. */
  ghost predicate Visited(all: seq<Transaction>, kept: seq<Transaction>, rest: seq<Transaction>) {
    all == kept + rest
  }

  lemma VisitNext(all: seq<Transaction>, kept: seq<Transaction>, rest: seq<Transaction>, u: Transaction)
    requires Visited(all, kept, rest) && rest != []
    ensures |kept| < |all| && all[|kept|] == rest[0] && all[..|kept|] == kept
    ensures Visited(all[|kept| := u], kept + [u], rest[1..])
    ensures Visited(all[..|kept|] + all[|kept| + 1..], kept, rest[1..])
  {
  }

  lemma StepStart(pending: seq<Transaction>, timeout: int, ackTimeout: nat, m: nat, now: int)
    ensures TickAll(pending[..0], ackTimeout, m, now) == Ticked([], [])
    ensures WakesInTime(timeout, timeout, [], now)
    ensures Visited(pending, [], pending[0..])
  {
  }

  lemma StepDone(all: seq<Transaction>, kept: seq<Transaction>, before: seq<Transaction>, n: nat)
    requires n == |before| && Visited(all, kept, before[n..])
    ensures all == kept && before[..n] == before
  {
  }

  /** A pending message after a step that keeps it. */
  function TickedOnce(t: Transaction, ackTimeout: nat, now: int): (r: Transaction) {
    if t.retransTime > now then t
    else t.(counter := t.counter + 1, retransTime := now + ackTimeout * Pow2(t.counter + 1))
  }

  class DatagramPeer {
    const ackTimeout: nat
    const maxRetransmit: nat
    const firstMid: uint16
    var nextMid: uint16
    var transactions: seq<Transaction>
    // the history of the peer: the ids drawn and what the outside saw
    var drawn: seq<Draw>
    var log: seq<Event>

    constructor (ackTimeout: nat, maxRetransmit: nat, firstMid: uint16)
      ensures State() == NewPeer(ackTimeout, maxRetransmit, firstMid)
    {
      this.ackTimeout, this.maxRetransmit, this.firstMid := ackTimeout, maxRetransmit, firstMid;
      nextMid, transactions := firstMid, [];
      drawn, log := [], [];
    }

    ghost function State(): (p: Peer)
      reads this
    {
      Peer(ackTimeout, maxRetransmit, firstMid, nextMid, transactions, drawn, log)
    }

    /** Draws an id, hands the message to the transport and waits for the answer of a
        confirmable message that went out. */
    method Send(confirmable: bool, handover: Handover, now: int) returns (id: uint16)
      modifies this
      ensures State() == SendMessage(old(State()), confirmable, handover, now)
      ensures id == old(nextMid)
    {
      id := nextMid;
      nextMid := (nextMid + 1) % 0x1_0000;
      if nextMid == RESERVED_MID {
        nextMid := nextMid + 1;
      }
      var serial := |drawn|;
      drawn := drawn + [Draw(confirmable && handover.Taken?, now)];
      if handover.NotSerialized? {
        return;
      }
      log := log + [Transmitted(serial, now)];
      if handover.Taken? {
        if confirmable {
          transactions := [Transaction(serial, id, 0, now + ackTimeout)] + transactions;
        }
      }
    }

    /** Retransmits or gives up every message whose time has come; remaining is how long the
        caller may sleep before the next step. */
    method Step(now: int, timeout: int) returns (remaining: int)
      modifies this
      ensures State() == TickPeer(old(State()), now)
      ensures WakesInTime(timeout, remaining, transactions, now)
    {
      hide TickAll, WakesInTime, Visited;
      remaining := timeout;
      var i := 0;
      ghost var before, past, n := transactions, log, 0;
      ghost var done := TickAll(before[..0], ackTimeout, maxRetransmit, now);
      StepStart(before, timeout, ackTimeout, maxRetransmit, now);
      while i < |transactions|
        invariant drawn == old(drawn) && nextMid == old(nextMid)
        invariant n <= |before| && i == |done.kept|
        invariant done == TickAll(before[..n], ackTimeout, maxRetransmit, now)
        invariant Visited(transactions, done.kept, before[n..]) && |transactions| == i + |before| - n
        invariant log == past + done.events
        invariant WakesInTime(timeout, remaining, done.kept, now)
        decreases |before| - n
      {
        var t := transactions[i];
        TickAllExtend(before, n, ackTimeout, maxRetransmit, now);
        VisitNext(transactions, done.kept, before[n..], TickedOnce(t, ackTimeout, now));
        assert t == before[n] && before[n..][1..] == before[n + 1..];
        WakesWithOneMore(timeout, remaining, done.kept, t, now);
        WakesWithOneMore(timeout, remaining, done.kept, TickedOnce(t, ackTimeout, now), now);
        ghost var next := TickAll(before[..n + 1], ackTimeout, maxRetransmit, now);
        if t.retransTime <= now {
          if t.counter < maxRetransmit {
            log := log + [Transmitted(t.serial, now)];
            var wait := ackTimeout * Pow2(t.counter + 1);
            transactions := transactions[i := t.(counter := t.counter + 1, retransTime := now + wait)];
            if remaining > wait {
              remaining := wait;
            }
            assert next.kept == done.kept + [TickedOnce(t, ackTimeout, now)];
            i := i + 1;
          } else {
            assert next.kept == done.kept;
            transactions := transactions[..i] + transactions[i + 1..];
            log := log + [Completed(t.serial, TimedOut, now)];
          }
        } else {
          assert transactions[i := t] == transactions && next.kept == done.kept + [t] && next.events == done.events;
          if remaining > t.retransTime - now {
            remaining := t.retransTime - now;
          }
          i := i + 1;
        }
        n, done := n + 1, next;
      }
      StepDone(transactions, done.kept, before, n);
    }

    /** An acknowledgement or a reset removes the transaction whose id it carries, if any, and
        tells its caller the code. Handed over to the upper layer are the acknowledgements that
        were waited for, and the resets that were not. */
    method HandleReply(mid: uint16, reset: bool, code: byte, truncated: bool, now: int)
      returns (found: bool, result: byte, handedOver: bool)
      modifies this
      ensures State() == ReceiveReply(old(State()), mid, reset, now)
      ensures found <==> exists k :: 0 <= k < |old(transactions)| && old(transactions)[k].mid == mid
      ensures handedOver <==> found != reset
      ensures result == if truncated && !reset then 0x8D else code
    {
      result := code;
      if !reset && truncated {
        result := REQUEST_ENTITY_TOO_LARGE;
      }
      var k := 0;
      while k < |transactions| && transactions[k].mid != mid
        invariant k <= |transactions|
        invariant forall j :: 0 <= j < k ==> transactions[j].mid != mid
      {
        k := k + 1;
      }
      found := k < |transactions|;
      if found {
        log := log + [Completed(transactions[k].serial, if reset then WasReset else Acknowledged, now)];
        transactions := transactions[..k] + transactions[k + 1..];
      }
      handedOver := if reset then !found else found;
    }

    /** What a message that comes in does here, by its type: one that needs no acknowledgement is
        handed over at once, an acknowledgement or a reset is a reply, and one that needs an
        acknowledgement goes to the list of answers first. */
    method HandleMessage(kind: byte, mid: uint16, code: byte, truncated: bool, now: int)
      returns (result: byte, handedOver: bool)
      modifies this
      ensures State() == Dispatch(old(State()), kind, mid, now)
      ensures kind == 1 ==> handedOver
      ensures kind == 2 ==>
                && result == (if truncated then 0x8D else code)
                && (handedOver <==> exists k :: 0 <= k < |old(transactions)| && old(transactions)[k].mid == mid)
      ensures kind == 3 ==>
                && result == code
                && (handedOver <==> forall k :: 0 <= k < |old(transactions)| ==> old(transactions)[k].mid != mid)
    {
      result, handedOver := code, false;
      var found;
      if kind == NON_CONFIRMABLE {
        handedOver := true;
      } else if kind == ACKNOWLEDGEMENT {
        found, result, handedOver := HandleReply(mid, false, code, truncated, now);
      } else if kind == RESET {
        found, result, handedOver := HandleReply(mid, true, code, truncated, now);
      }
    }

    /** Deleting the peer takes every transaction off the list and completes it. */
    method Close(now: int)
      modifies this
      ensures State() == ClosePeer(old(State()), now)
    {
      ghost var past := log;
      while transactions != []
        invariant drawn == old(drawn) && nextMid == old(nextMid)
        invariant log + CloseAll(transactions, now) == past + CloseAll(old(transactions), now)
        decreases |transactions|
      {
        var t := transactions[0];
        transactions := transactions[1..];
        log := log + [Completed(t.serial, PeerClosed, now)];
      }
      assert log + [] == log;
    }
  }
}
