/** Parsing an option list out of a byte buffer, node by node. */
module OptionReader {
  import opened Bytes
  import opened Options
  import opened OptionCodec
  import opened OptionNodes
  import opened Overreads

  /** Fetches a byte; what lies behind the array may be any byte. */
  method FetchByte(buffer: array<byte>, index: nat) returns (x: byte, past: bool)
    ensures past <==> index >= buffer.Length
    ensures !past ==> x == buffer[index]
  {
    past := index >= buffer.Length;
    if past {
      x := *;
    } else {
      x := buffer[index];
    }
  }

  /** The extension of a delta or length. Its bytes are fetched before anybody checks that
      they lie inside the datagram, or even inside the array: past says that one did not. A value
      that was fetched from beyond the limit leaves next beyond the limit too. */
  method FetchExtension(buffer: array<byte>, limit: nat, nibble: byte, index: nat)
    returns (forbidden: bool, value: uint16, next: nat, past: bool)
    requires index <= limit <= buffer.Length && nibble < 0x10
    ensures past <==> ReadExtended(buffer[..], nibble, index) == Truncated
    ensures past ==> ReadExtended(buffer[..limit], nibble, index) == Truncated && !forbidden && next > limit
    ensures forbidden <==> ReadExtended(buffer[..limit], nibble, index) == Forbidden
    ensures forbidden <==> ReadExtended(buffer[..], nibble, index) == Forbidden
    ensures !forbidden && next > limit ==> ReadExtended(buffer[..limit], nibble, index) == Truncated
    ensures !forbidden && next <= limit ==>
              && ReadExtended(buffer[..limit], nibble, index) == Extended(value, next)
              && ReadExtended(buffer[..], nibble, index) == Extended(value, next)
    ensures !forbidden && !past ==> exists v :: ReadExtended(buffer[..], nibble, index) == Extended(v, next)
  {
    forbidden, value, next, past := false, nibble, index, false;
    if nibble == FORBIDDEN {
      forbidden := true;
    } else if nibble == EXTEND_1 {
      var x;
      x, past := FetchByte(buffer, index);
      value := LIMIT_1 + x;
      next := index + 1;
    } else if nibble == EXTEND_2 {
      var high, low, lowPast;
      high, past := FetchByte(buffer, index);
      low, lowPast := FetchByte(buffer, index + 1);
      past := past || lowPast;
      value := (LIMIT_2 + Word(high, low)) % 0x1_0000;
      next := index + 2;
    }
  }

  /** Header byte, extensions and the bounds of the value. */
  method FetchHead(buffer: array<byte>, limit: nat, start: nat)
    returns (status: byte, delta: uint16, length: uint16, index: nat, past: bool)
    requires start < limit <= buffer.Length
    ensures past <==> HeadOverreads(buffer[..], limit, start)
    ensures past ==> status != NO_ERROR
    ensures status != NO_ERROR ==>
              && (status == BAD_REQUEST || status == REQUEST_ENTITY_TOO_LARGE)
              && forall prev :: ParseStep(buffer[..limit], start, prev) == Reject(status)
    ensures status == NO_ERROR ==>
              && ReadHead(buffer[..limit], start) == Head(delta, length, index)
              && index + length <= limit
  {
    hide ReadExtended;
    delta, length := buffer[start] / 0x10, buffer[start] % 0x10;
    index := start + 1;
    if index > limit {
      return REQUEST_ENTITY_TOO_LARGE, delta, length, index, false;
    }
    var forbidden;
    forbidden, delta, index, past := FetchExtension(buffer, limit, delta, index);
    if forbidden {
      return BAD_REQUEST, delta, length, index, past;
    }
    if index > limit {
      return REQUEST_ENTITY_TOO_LARGE, delta, length, index, past;
    }
    forbidden, length, index, past := FetchExtension(buffer, limit, length, index);
    if forbidden {
      return BAD_REQUEST, delta, length, index, past;
    }
    if index > limit || index + length > limit {
      return REQUEST_ENTITY_TOO_LARGE, delta, length, index, past;
    }
    status := NO_ERROR;
  }

  /** The option that a number and a value slice make. */
  function OptionAt(b: seq<byte>, number: uint16, index: nat, length: uint16): (o: CoapOption)
    requires index + length <= |b| && (IsInteger(number) ==> length <= 4)
  {
    if IsInteger(number) then
      BigEndianBound(b[index..index + length]);
      CoapOption(number, Integer(BigEndian(b[index..index + length])))
    else CoapOption(number, Buffer(b[index..index + length]))
  }

  /** Shifts the bytes of an integer value into a zeroed node. */
  method FetchInteger(node: OptionNode, buffer: array<byte>, limit: nat, start: nat, valueLength: uint16)
    returns (index: nat)
    requires start + valueLength <= limit <= buffer.Length && valueLength <= 4
    requires node.asInteger == 0
    modifies node`asInteger
    ensures index == start + valueLength
    ensures node.asInteger == BigEndian(buffer[..limit][start..start + valueLength])
  {
    ghost var b := buffer[..limit];
    var length: uint16 := valueLength;
    index := start;
    while length > 0
      invariant index + length == start + valueLength && length <= valueLength
      invariant node.asInteger == BigEndian(b[start..index])
      decreases length
    {
      BigEndianBound(b[start..index]);
      BigEndianAppend(b[start..index], buffer[index]);
      assert b[index] == buffer[index];
      assert b[start..index + 1] == b[start..index] + [b[index]];
      node.asInteger := (0x100 * node.asInteger + buffer[index]) % 0x1_0000_0000;
      index := index + 1;
      length := length - 1;
    }
  }

  /** Fills the value of a zeroed node from the datagram. */
  method FetchValue(node: OptionNode, buffer: array<byte>, limit: nat, start: nat, length: uint16)
    returns (status: byte, index: nat)
    requires start + length <= limit <= buffer.Length
    requires node.length == 0 && node.asInteger == 0 && node.asBuffer == []
    modifies node`length, node`asInteger, node`asBuffer
    ensures status == if IsInteger(node.number) && length > 4 then INTERNAL_SERVER_ERROR else NO_ERROR
    ensures node.Valid()
    ensures status == NO_ERROR ==>
              index == start + length && node.Value() == OptionAt(buffer[..limit], node.number, start, length)
  {
    hide IsInteger;
    status := NO_ERROR;
    index := start;
    if length > 0 {
      if IsInteger(node.number) {
        if length > 4 {
          return INTERNAL_SERVER_ERROR, index;
        }
        index := FetchInteger(node, buffer, limit, start, length);
      } else {
        node.length := length;
        node.asBuffer := buffer[index..index + length];
        assert buffer[index..index + length] == buffer[..limit][index..index + length];
        index := index + length;
      }
    }
  }

  lemma StepOption(b: seq<byte>, i: nat, prev: uint16)
    requires i < |b| && ReadHead(b, i).Head?
    requires ReadHead(b, i).start + ReadHead(b, i).length <= |b|
    ensures var r := ReadHead(b, i);
            var number := (prev + r.delta) % 0x1_0000;
            ParseStep(b, i, prev) ==
              if IsInteger(number) && r.length > 4 then Reject(INTERNAL_SERVER_ERROR)
              else Accept(Field(i, r.start, r.length, OptionAt(b, number, r.start, r.length)))
  {
  }

  lemma LinkedNodes(nodes: seq<OptionNode>, node: OptionNode)
    requires Distinct(nodes) && node !in nodes
    requires forall i :: 0 <= i < |nodes| ==> nodes[i].Valid()
    requires forall i :: 0 <= i < |nodes| - 1 ==> nodes[i].next == nodes[i + 1]
    requires nodes != [] ==> nodes[|nodes| - 1].next == node
    requires node.Valid() && node.next == null
    ensures IsList(NodeAt(nodes + [node], 0), nodes + [node])
  {
  }

  lemma ValuesAppend(nodes: seq<OptionNode>, node: OptionNode, before: seq<CoapOption>)
    requires |before| == |nodes| && forall i :: 0 <= i < |nodes| ==> nodes[i].Value() == before[i]
    ensures Values(nodes + [node]) == before + [node.Value()]
  {
  }

  /** Links one more node behind the last. */
  method Link(head: OptionNode?, current: OptionNode?, node: OptionNode, ghost nodes: seq<OptionNode>)
    returns (newHead: OptionNode?)
    requires IsList(head, nodes) && current == if nodes == [] then null else nodes[|nodes| - 1]
    requires node !in nodes && node.next == null && node.Valid()
    modifies nodes
    ensures IsList(newHead, nodes + [node])
    ensures Values(nodes + [node]) == old(Values(nodes)) + [node.Value()]
    ensures forall i {:trigger nodes[i]} :: 0 <= i < |nodes| ==>
              && nodes[i].number == old(nodes[i].number) && nodes[i].length == old(nodes[i].length)
              && nodes[i].asBuffer == old(nodes[i].asBuffer)
  {
    newHead := head;
    ghost var before := Values(nodes);
    if current != null {
      current.next := node;
    } else {
      newHead := node;
    }
    LinkedNodes(nodes, node);
    ValuesAppend(nodes, node, before);
  }

  /** Giving the last node its value keeps the list a list. */
  lemma FilledLast(head: OptionNode?, nodes: seq<OptionNode>, node: OptionNode, before: seq<CoapOption>)
    requires Distinct(nodes + [node]) && head == NodeAt(nodes + [node], 0)
    requires forall i :: 0 <= i < |nodes| ==> nodes[i].next == NodeAt(nodes + [node], i + 1) && nodes[i].Valid()
    requires node.next == null && node.Valid()
    requires |before| == |nodes| && forall i :: 0 <= i < |nodes| ==> nodes[i].Value() == before[i]
    ensures IsList(head, nodes + [node])
    ensures Values(nodes + [node]) == before + [node.Value()]
  {
    ValuesAppend(nodes, node, before);
    assert forall i :: 0 <= i < |nodes| ==> (nodes + [node])[i] == nodes[i];
  }

  /** One more node at the end of the list, for a value whose bounds are known. */
  method NextOption(alloc: Allocator, head: OptionNode?, current: OptionNode?, number: uint16,
                    buffer: array<byte>, limit: nat, start: nat, length: uint16, ghost nodes: seq<OptionNode>)
    returns (status: byte, newHead: OptionNode?, last: OptionNode?, index: nat, ghost all: seq<OptionNode>)
    requires IsList(head, nodes) && current == if nodes == [] then null else nodes[|nodes| - 1]
    requires start + length <= limit <= buffer.Length
    modifies alloc, nodes
    ensures IsList(newHead, all) && last == if all == [] then null else all[|all| - 1]
    ensures if all == nodes then alloc.live == old(alloc.live)
            else last != null && fresh(last) && all == nodes + [last] && alloc.live == old(alloc.live) + {last}
    ensures alloc.failures >= old(alloc.failures) && alloc.messageFailures == old(alloc.messageFailures)
    ensures alloc.failures > old(alloc.failures) ==> status == INTERNAL_SERVER_ERROR
    ensures alloc.failures == old(alloc.failures) ==>
              status == if IsInteger(number) && length > 4 then INTERNAL_SERVER_ERROR else NO_ERROR
    ensures status == NO_ERROR ==>
              && index == start + length && all != [] && last.number == number
              && Values(all) == old(Values(nodes)) + [OptionAt(buffer[..limit], number, start, length)]
  {
    hide IsList, Values, Distinct, IsInteger, OptionAt, OptionNode.Value;
    newHead, last, index, all := head, current, start, nodes;
    var node := alloc.NewOption(number);
    if node == null {
      status := INTERNAL_SERVER_ERROR;
      return;
    }
    ghost var before := Values(nodes);
    newHead := Link(head, current, node, nodes);
    last, all := node, nodes + [node];
    ListBeforeLast(newHead, nodes, node);
    status, index := FetchValue(node, buffer, limit, start, length);
    FilledLast(newHead, nodes, node, before);
  }

  lemma ListBeforeLast(head: OptionNode?, nodes: seq<OptionNode>, node: OptionNode)
    requires IsList(head, nodes + [node])
    ensures Distinct(nodes + [node]) && head == NodeAt(nodes + [node], 0) && node.next == null
    ensures forall i :: 0 <= i < |nodes| ==> nodes[i].next == NodeAt(nodes + [node], i + 1) && nodes[i].Valid()
    ensures forall i :: 0 <= i < |nodes| ==> nodes[i].Value() == Values(nodes + [node])[i] && nodes[i] != node
  {
    var all := nodes + [node];
    assert all[|nodes|] == node;
    forall i | 0 <= i < |nodes|
      ensures nodes[i].next == NodeAt(all, i + 1) && nodes[i].Valid()
      ensures nodes[i].Value() == Values(all)[i] && nodes[i] != node
    {
      assert all[i] == nodes[i] && all[i] != all[|nodes|];
    }
  }

  /** Fields read so far, put before the outcome of the rest. */
  function Extend(done: seq<Field>, rest: Parse): (r: Parse) {
    match rest
    case Failed(status) => Failed(status)
    case Parsed(fields, end) => Parsed(done + fields, end)
  }

  lemma ExtendStep(b: seq<byte>, i: nat, prev: uint16, done: seq<Field>)
    requires i < |b| && b[i] != PAYLOAD_MARKER
    ensures match ParseStep(b, i, prev)
            case Reject(status) => Extend(done, ParseFrom(b, i, prev)) == Failed(status)
            case Accept(f) =>
              && Extend(done, ParseFrom(b, i, prev))
                 == Extend(done + [f], ParseFrom(b, f.start + f.length, f.option.number))
              && OptionsOf(done + [f]) == OptionsOf(done) + [f.option]
  {
    hide ParseStep, OptionsOf;
    if ParseStep(b, i, prev).Accept? {
      var f := ParseStep(b, i, prev).field;
      ParsePrepend(b, i, prev, f);
      OptionsOfAppend(done, f);
      var rest := ParseFrom(b, f.start + f.length, f.option.number);
      if rest.Parsed? {
        assert done + ([f] + rest.fields) == done + [f] + rest.fields;
      }
    }
  }

  lemma {:induction false} OptionsOfAppend(done: seq<Field>, f: Field)
    ensures OptionsOf(done + [f]) == OptionsOf(done) + [f.option]
    decreases done
  {
    if done != [] {
      OptionsOfAppend(done[1..], f);
      assert (done + [f])[1..] == done[1..] + [f];
    } else {
      assert done + [f] == [f];
    }
  }

  /** The state of the parsing loop: what was read so far, put before what is still to be read
      from index on, is what there is to read. */
  ghost predicate Reading(b: seq<byte>, start: nat, done: seq<Field>, index: nat, prev: uint16) {
    && start <= index <= |b|
    && ParseFrom(b, start, 0) == Extend(done, ParseFrom(b, index, prev))
    && StopsAt(b, start, 0) == StopsAt(b, index, prev)
  }

  lemma ReadingStarts(b: seq<byte>, start: nat)
    requires start <= |b|
    ensures Reading(b, start, [], start, 0) && OptionsOf([]) == []
  {
    ExtendNothing(ParseFrom(b, start, 0));
  }

  lemma ReadingStep(b: seq<byte>, start: nat, done: seq<Field>, index: nat, prev: uint16)
    requires Reading(b, start, done, index, prev) && index < |b| && b[index] != PAYLOAD_MARKER
    ensures var r := ParseStep(b, index, prev);
            && (r.Reject? ==> ParseFrom(b, start, 0) == Failed(r.status) && StopsAt(b, start, 0) == index)
            && (r.Accept? ==>
                  && Reading(b, start, done + [r.field], r.field.start + r.field.length, r.field.option.number)
                  && OptionsOf(done + [r.field]) == OptionsOf(done) + [r.field.option])
  {
    hide ParseStep, OptionsOf, Extend;
    ExtendStep(b, index, prev, done);
  }

  lemma ReadingEnds(b: seq<byte>, start: nat, done: seq<Field>, index: nat, prev: uint16)
    requires Reading(b, start, done, index, prev) && OptionsEndAt(b, index)
    ensures ParseFrom(b, start, 0) == Parsed(done, index) && StopsAt(b, start, 0) == index
  {
    ExtendEnd(b, index, prev, done);
  }

  /** One option: header and value are fetched and its node is linked behind the others. */
  method ReadOption(alloc: Allocator, head: OptionNode?, current: OptionNode?, buffer: array<byte>, limit: nat,
                    start: nat, ghost nodes: seq<OptionNode>)
    returns (status: byte, newHead: OptionNode?, last: OptionNode?, index: nat, past: bool, ghost all: seq<OptionNode>)
    requires IsList(head, nodes) && current == if nodes == [] then null else nodes[|nodes| - 1]
    requires start < limit <= buffer.Length
    modifies alloc, nodes
    ensures IsList(newHead, all) && last == if all == [] then null else all[|all| - 1]
    ensures if all == nodes then alloc.live == old(alloc.live)
            else last != null && fresh(last) && all == nodes + [last] && alloc.live == old(alloc.live) + {last}
    ensures alloc.failures >= old(alloc.failures) && alloc.messageFailures == old(alloc.messageFailures)
    ensures past <==> HeadOverreads(buffer[..], limit, start)
    ensures past ==> status != NO_ERROR && alloc.failures == old(alloc.failures)
    ensures alloc.failures > old(alloc.failures) ==> status == INTERNAL_SERVER_ERROR
    ensures var r := ParseStep(buffer[..limit], start, if current == null then 0 else old(current.number));
            && (status == NO_ERROR ==>
                  && r.Accept? && last != null && last.number == r.field.option.number
                  && index == r.field.start + r.field.length
                  && Values(all) == old(Values(nodes)) + [r.field.option])
            && (status != NO_ERROR && alloc.failures == old(alloc.failures) ==> r == Reject(status))
  {
    hide ParseStep, ReadHead, IsList, Values, OptionAt, IsInteger, Distinct, HeadOverreads;
    var delta, length, valueStart;
    newHead, last, all := head, current, nodes;
    status, delta, length, valueStart, past := FetchHead(buffer, limit, start);
    index := valueStart;
    if status != NO_ERROR {
      return;
    }
    StepOption(buffer[..limit], start, if current == null then 0 else current.number);
    var number := if current != null then (current.number + delta) % 0x1_0000 else delta;
    status, newHead, last, index, all :=
      NextOption(alloc, head, current, number, buffer, limit, valueStart, length, nodes);
  }

  /** Parses the options found between start and limit. On success the list is exactly what
      the format says is there; on any error nothing that was allocated remains. The outcome
      depends on the bytes below the limit only, even when, as past says, others are fetched. */
  method ParseOptions(alloc: Allocator, buffer: array<byte>, start: nat, limit: nat)
    returns (status: byte, head: OptionNode?, length: nat, past: bool, ghost nodes: seq<OptionNode>)
    requires start <= limit <= buffer.Length
    modifies alloc
    ensures IsList(head, nodes) && (forall i :: 0 <= i < |nodes| ==> fresh(nodes[i]))
    ensures alloc.live == old(alloc.live) + NodeSet(nodes)
    ensures status != NO_ERROR ==> nodes == []
    ensures alloc.failures >= old(alloc.failures) && alloc.messageFailures == old(alloc.messageFailures)
    ensures past ==> OptionsOverread(buffer[..], limit, start)
    ensures alloc.failures == old(alloc.failures) && OptionsOverread(buffer[..], limit, start) ==> past
    ensures alloc.failures > old(alloc.failures) ==> status == INTERNAL_SERVER_ERROR && !past
    ensures alloc.failures == old(alloc.failures) && status != NO_ERROR ==>
              ParseFrom(buffer[..limit], start, 0) == Failed(status)
    ensures status == NO_ERROR ==>
              && alloc.failures == old(alloc.failures)
              && var r := ParseFrom(buffer[..limit], start, 0);
              && r.Parsed? && start + length == r.end && Values(nodes) == OptionsOf(r.fields)
  {
    hide ParseStep, ParseFrom, IsList, Values, OptionsOf, NodeSet, Reading, StopsAt, HeadOverreads;
    ghost var b, live := buffer[..limit], alloc.live;
    ghost var done: seq<Field> := [];
    ghost var prev: uint16 := 0;
    var index: nat := start;
    var current: OptionNode? := null;
    status, head, nodes, length, past := NO_ERROR, null, [], 0, false;
    EmptyList();
    ReadingStarts(b, start);
    while index < limit && buffer[index] != PAYLOAD_MARKER
      invariant index <= limit && status == NO_ERROR && !past
      invariant IsList(head, nodes) && Values(nodes) == OptionsOf(done)
      invariant current == if nodes == [] then null else nodes[|nodes| - 1]
      invariant prev == if current == null then 0 else current.number
      invariant (forall i :: 0 <= i < |nodes| ==> fresh(nodes[i]))
      invariant alloc.live == live + NodeSet(nodes)
      invariant alloc.failures == old(alloc.failures) && alloc.messageFailures == old(alloc.messageFailures)
      invariant Reading(b, start, done, index, prev)
      decreases limit - index
    {
      ReadingStep(b, start, done, index, prev);
      ghost var before, step := nodes, ParseStep(b, index, prev);
      status, head, current, index, past, nodes := ReadOption(alloc, head, current, buffer, limit, index, nodes);
      if nodes != before {
        NodeSetAppend(before, current);
      }
      if status != NO_ERROR {
        alloc.FreeOptions(head, nodes);
        NodesOutside(nodes, live);
        head, nodes := null, [];
        return;
      }
      prev := step.field.option.number;
      done := done + [step.field];
    }
    length := index - start;
    ReadingEnds(b, start, done, index, prev);
  }

  lemma ExtendEnd(b: seq<byte>, i: nat, prev: uint16, done: seq<Field>)
    requires OptionsEndAt(b, i)
    ensures Extend(done, ParseFrom(b, i, prev)) == Parsed(done, i)
  {
  }

  lemma NodesOutside(nodes: seq<OptionNode>, s: set<object>)
    requires forall i :: 0 <= i < |nodes| ==> nodes[i] !in s
    ensures NodeSet(nodes) !! s
  {
  }

  lemma EmptyList()
    ensures IsList(null, []) && Values([]) == OptionsOf([]) == [] && NodeSet([]) == {}
  {
  }

  lemma ExtendNothing(r: Parse)
    ensures Extend([], r) == r
  {
  }
}
