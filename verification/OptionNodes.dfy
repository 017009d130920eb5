/** The linked option list in memory, and the allocator its nodes come from. */
module OptionNodes {
  import opened Bytes
  import opened Options

  class OptionNode {
    var next: OptionNode?
    var number: uint16
    var length: uint16
    var asInteger: uint32
    // The bytes that the value pointer designates.
    var asBuffer: seq<byte>

    constructor (number: uint16)
      ensures this.number == number && next == null
      ensures length == 0 && asInteger == 0 && asBuffer == []
    {
      this.number, next := number, null;
      length, asInteger, asBuffer := 0, 0, [];
    }

    ghost predicate Valid()
      reads this
    {
      !IsInteger(number) ==> length == |asBuffer|
    }

    /** The option a node stands for; the length of an integer option is not used. */
    ghost function Value(): (o: CoapOption)
      reads this
      ensures Valid() ==> WellFormed(o)
    {
      CoapOption(number, if IsInteger(number) then Integer(asInteger) else Buffer(asBuffer))
    }
  }

  /** The nodes of a null-terminated list, in order and without repetition. */
  ghost predicate IsList(head: OptionNode?, nodes: seq<OptionNode>)
    reads nodes
  {
    && head == NodeAt(nodes, 0)
    && (forall i {:trigger nodes[i]} :: 0 <= i < |nodes| ==> nodes[i].next == NodeAt(nodes, i + 1) && nodes[i].Valid())
    && Distinct(nodes)
  }

  ghost function NodeAt(nodes: seq<OptionNode>, i: nat): OptionNode? {
    if i < |nodes| then nodes[i] else null
  }

  ghost predicate Distinct(nodes: seq<OptionNode>) {
    forall i, j :: 0 <= i < j < |nodes| ==> nodes[i] != nodes[j]
  }

  ghost function NodeSet(nodes: seq<OptionNode>): set<OptionNode> {
    set n | n in nodes
  }

  ghost function Values(nodes: seq<OptionNode>): (os: seq<CoapOption>)
    reads nodes
    ensures |os| == |nodes|
    ensures forall i :: 0 <= i < |nodes| ==> os[i] == nodes[i].Value()
  {
    if nodes == [] then [] else Values(nodes[..|nodes| - 1]) + [nodes[|nodes| - 1].Value()]
  }

  lemma NodeSetAppend(nodes: seq<OptionNode>, n: OptionNode)
    ensures NodeSet(nodes + [n]) == NodeSet(nodes) + {n}
  {
  }

  lemma ListHead(head: OptionNode?, nodes: seq<OptionNode>)
    requires IsList(head, nodes)
    ensures head == NodeAt(nodes, 0)
  {
  }

  lemma ListFacts(head: OptionNode?, nodes: seq<OptionNode>)
    requires IsList(head, nodes)
    ensures head == NodeAt(nodes, 0) && Distinct(nodes)
    ensures forall i :: 0 <= i < |nodes| ==> nodes[i].next == NodeAt(nodes, i + 1)
    ensures forall i :: 0 <= i < |nodes| ==> nodes[i].Valid()
    ensures forall i :: 0 <= i < |nodes| ==> nodes[i].Value() == Values(nodes)[i]
  {
  }

  /** One step of a walk along a list. */
  lemma ListStep(head: OptionNode?, nodes: seq<OptionNode>, k: nat)
    requires IsList(head, nodes) && k < |nodes|
    ensures nodes[k].next == NodeAt(nodes, k + 1) && nodes[k].Valid()
    ensures Values(nodes)[k] == nodes[k].Value() && Values(nodes)[k].number == nodes[k].number
  {
  }

  lemma ValuesWellFormed(head: OptionNode?, nodes: seq<OptionNode>)
    requires IsList(head, nodes)
    ensures AllWellFormed(Values(nodes))
  {
  }

  /** Tracks which blocks are allocated and how many requests have been refused. */
  class Allocator {
    ghost var live: set<object>
    ghost var failures: nat
    // How many of the refused requests were for a message.
    ghost var messageFailures: nat

    constructor ()
      ensures live == {} && failures == messageFailures == 0
    {
      live, failures, messageFailures := {}, 0, 0;
    }

    /** A zeroed option node, or null when memory runs out. */
    method NewOption(number: uint16) returns (node: OptionNode?)
      modifies this`live, this`failures
      ensures node == null ==> live == old(live) && failures == old(failures) + 1
      ensures node != null ==>
                && fresh(node) && live == old(live) + {node} && failures == old(failures)
                && node.number == number && node.next == null
                && node.length == 0 && node.asInteger == 0 && node.asBuffer == []
    {
      if * {
        node := null;
        failures := failures + 1;
      } else {
        node := new OptionNode(number);
        live := live + {node};
      }
    }

    /** A zeroed buffer, or null when memory runs out. */
    method NewBuffer(length: nat) returns (buffer: array?<byte>)
      modifies this`live, this`failures
      ensures buffer == null ==> live == old(live) && failures == old(failures) + 1
      ensures buffer != null ==>
                && fresh(buffer) && live == old(live) + {buffer} && failures == old(failures)
                && buffer.Length == length && buffer[..] == seq(length, _ => 0)
    {
      if * {
        buffer := null;
        failures := failures + 1;
      } else {
        buffer := new byte[length](_ => 0);
        live := live + {buffer};
      }
    }

    /** Only an allocated block may be freed, and it is then no longer allocated. */
    method Free(block: object)
      requires block in live
      modifies this`live
      ensures live == old(live) - {block}
    {
      live := live - {block};
    }

    /** Frees every node of a list, each once, reading its link before it goes. */
    method FreeOptions(head: OptionNode?, ghost nodes: seq<OptionNode>)
      requires IsList(head, nodes) && NodeSet(nodes) <= live
      modifies this`live
      ensures live == old(live) - NodeSet(nodes)
    {
      var current := head;
      ghost var k := 0;
      while current != null
        invariant k <= |nodes| && current == NodeAt(nodes, k)
        invariant live == old(live) - NodeSet(nodes[..k])
        decreases |nodes| - k
      {
        var following := current.next;
        assert nodes[k] in nodes;
        assert nodes[..k + 1] == nodes[..k] + [nodes[k]];
        NodeSetAppend(nodes[..k], nodes[k]);
        Free(current);
        current := following;
        k := k + 1;
      }
      assert nodes[..k] == nodes;
    }
  }
}
