/** CoAP messages in memory: the ordered option list and the datagram serializer and parser. */
module Messages {
  import opened Bytes
  import opened Options
  import opened OptionCodec
  import opened OptionTheorems
  import opened OptionNodes
  import opened OptionWriter
  import opened OptionReader
  import opened MessageCodec

  class CoapMessage {
    var kind: byte
    var code: byte
    var id: uint16
    var tokenLength: byte
    // Eight bytes of storage, of which the first tokenLength are the token.
    var token: seq<byte>
    var optionList: OptionNode?
    var payload: seq<byte>
    ghost var nodes: seq<OptionNode>

    constructor ()
      ensures kind == 0 && code == 0 && id == 0 && tokenLength == 0 && payload == []
      ensures optionList == null && nodes == [] && Valid()
    {
      kind, code, id, tokenLength := 0, 0, 0, 0;
      token := [0, 0, 0, 0, 0, 0, 0, 0];
      optionList, payload, nodes := null, [], [];
      new;
      EmptyList();
    }

    ghost predicate Valid()
      reads this, nodes
    {
      |token| == TOKEN_MAX_LENGTH && IsList(optionList, nodes)
    }

    /** The bytes the token length stands for; a length above 8 stands for none. */
    ghost function Token(): (t: seq<byte>)
      reads this
      requires |token| == TOKEN_MAX_LENGTH
    {
      if tokenLength <= TOKEN_MAX_LENGTH then token[..tokenLength] else []
    }

    /** The message as a value. */
    ghost function Model(): (m: Message)
      reads this, nodes
      requires |token| == TOKEN_MAX_LENGTH
    {
      Message(kind, code, id, Token(), Values(nodes), payload)
    }

    /** The first option of a number, walking up to the first number that is not below it. */
    method FindOption(number: uint16) returns (option: OptionNode?)
      requires Valid()
      ensures match Find(Values(nodes), number)
              case Missing => option == null
              case Found(k) => k < |nodes| && option == nodes[k]
    {
      hide IsList, Values, Distinct;
      option := optionList;
      ghost var k, os := 0, Values(nodes);
      ListHead(optionList, nodes);
      FindSuffix(os, number, 0);
      while option != null && option.number < number
        invariant k <= |nodes| && option == NodeAt(nodes, k)
        invariant Find(os, number) == Shift(Find(os[k..], number), k)
        decreases |nodes| - k
      {
        ListStep(optionList, nodes, k);
        FindSuffix(os, number, k);
        option := option.next;
        k := k + 1;
      }
      if option != null {
        ListStep(optionList, nodes, k);
        FindSuffix(os, number, k);
        if option.number == number {
          return option;
        }
      }
      option := null;
    }
  
    /** Links a chain of options in, after every option whose number is not above that of
        the chain's first. */
    method AddOption(option: OptionNode?, ghost chain: seq<OptionNode>)
      requires Valid() && IsList(option, chain)
      requires Apart(nodes, chain)
      modifies this`optionList, this`nodes, nodes, chain
      ensures Valid()
      ensures Values(nodes) == Insert(old(Values(nodes)), old(Values(chain)))
      ensures NodeSet(nodes) == NodeSet(old(nodes)) + NodeSet(chain)
    {
      hide IsList, Values, Insert, Apart, NodeSet;
      optionList, nodes := InsertChain(optionList, option, nodes, chain);
    }
  
    /** The space to reserve for the options, or a refusal if they are out of order. */
    method EstimateOptions() returns (ordered: bool, total: nat)
      requires Valid()
      ensures ordered <==> Sorted(Values(nodes))
      ensures ordered ==> total == EstimatedTotal(Values(nodes))
    {
      hide IsList, Values, EstimatedLength, Sorted;
      ghost var os, k := Values(nodes), 0;
      var prevNumber: uint16 := 0;
      var option := optionList;
      ordered, total := true, 0;
      ListHead(optionList, nodes);
      SortedStart(os);
      while option != null
        invariant k <= |nodes| == |os| && option == NodeAt(nodes, k)
        invariant Sorted(os[..k]) && prevNumber == LastNumber(0, os[..k])
        invariant total == EstimatedTotal(os[..k])
        decreases |nodes| - k
      {
        ListStep(optionList, nodes, k);
        SortedStep(os, k);
        if option.number < prevNumber {
          return false, 0;
        }
        var length := GetSerializedLength(option);
        total := total + length;
        prevNumber := option.number;
        option := option.next;
        k := k + 1;
      }
      assert os[..k] == os;
    }

    /** Serializes the message into a buffer of its own. Nothing is produced if the options
        are out of order or memory runs out. A token length above 8 is written to the header, then dropped. */
    method SerializeDatagram(alloc: Allocator) returns (buffer: array?<byte>, index: nat)
      requires Valid()
      modifies this`tokenLength, alloc`live, alloc`failures
      ensures buffer == null <==> !Sorted(Values(nodes)) || alloc.failures > old(alloc.failures)
      ensures alloc.failures >= old(alloc.failures)
      ensures !Sorted(Values(nodes)) ==> alloc.failures == old(alloc.failures)
      ensures buffer == null ==> index == 0 && tokenLength == old(tokenLength) && alloc.live == old(alloc.live)
      ensures buffer != null ==>
                && fresh(buffer) && alloc.live == old(alloc.live) + {buffer} && AllWellFormed(Values(nodes))
                && index <= buffer.Length
                && buffer[..index] == EncodeDeclaring(old(Model()), old(tokenLength))
                && buffer.Length <= index + 3 * |nodes|
                                    + (if old(tokenLength) > TOKEN_MAX_LENGTH then old(tokenLength) as int else 0)
                && tokenLength == |old(Token())| && Model() == old(Model())
    {
      hide IsList, Values, EncodeOptions, EstimatedTotal, Sorted, AllWellFormed, EncodeDeclaring;
      DeclaredLength(Model(), tokenLength);
      ghost var m := Model();
      ValuesWellFormed(optionList, nodes);
      var bufferLength: nat := HEADER_LENGTH + tokenLength + |payload|;
      if |payload| != 0 {
        bufferLength := bufferLength + 1;
      }
      var ordered, total := EstimateOptions();
      if !ordered {
        return null, 0;
      }
      bufferLength := bufferLength + total;
      EstimateAll(m.options);
      buffer := alloc.NewBuffer(bufferLength);
      if buffer == null {
        return null, 0;
      }
      index := WriteMessage(buffer, this);
    }
  }

  /** Header, token, options and payload, into a buffer that is large enough. */
  method WriteMessage(buffer: array<byte>, message: CoapMessage) returns (index: nat)
    requires message.Valid() && AllWellFormed(Values(message.nodes))
    requires |EncodeDeclaring(message.Model(), message.tokenLength)| <= buffer.Length
    modifies buffer, message`tokenLength
    ensures buffer[..][..|old(EncodeDeclaring(message.Model(), message.tokenLength))|]
            == old(EncodeDeclaring(message.Model(), message.tokenLength))
    ensures index == |old(EncodeDeclaring(message.Model(), message.tokenLength))| <= buffer.Length
    ensures message.tokenLength == |old(message.Token())| && message.Model() == old(message.Model())
  {
    hide IsList, Values, EncodeOptions, Wrote, AllWellFormed, EncodeHeader, EncodeDeclaring;
    ghost var m := message.Model();
    DeclaredLength(m, message.tokenLength);
    WriteHeader(buffer, message, m, message.tokenLength);
    ghost var s0 := buffer[..];
    index := WriteToken(buffer, message);
    ghost var s1 := buffer[..];
    var written := SerializeOptions(message.optionList, buffer, index, message.nodes);
    index := index + written;
    ghost var s2 := buffer[..];
    index := WritePayload(buffer, index, message.payload);
    MessageWritten(s0, s1, s2, buffer[..], m, old(message.tokenLength));
  }

  lemma DeclaredLength(m: Message, declared: byte)
    ensures AllWellFormed(m.options) ==>
              |EncodeDeclaring(m, declared)|
              == HEADER_LENGTH + |m.token| + |EncodeOptions(0, m.options)| + |EncodePayload(m.payload)|
  {
  }

  lemma NothingWritten(s: seq<byte>, at: nat)
    requires at <= |s|
    ensures Wrote(s, s, at, [])
  {
  }

  lemma SortedStart(os: seq<CoapOption>)
    ensures Sorted(os[..0]) && LastNumber(0, os[..0]) == 0 && EstimatedTotal(os[..0]) == 0
  {
  }

  lemma SortedStep(os: seq<CoapOption>, k: nat)
    requires k < |os| && Sorted(os[..k])
    ensures Sorted(os[..k + 1]) <==> LastNumber(0, os[..k]) <= os[k].number
    ensures !Sorted(os[..k + 1]) ==> !Sorted(os)
    ensures LastNumber(0, os[..k + 1]) == os[k].number
    ensures EstimatedTotal(os[..k + 1]) == EstimatedTotal(os[..k]) + EstimatedLength(os[k])
  {
    hide EstimatedLength;
    assert os[..k + 1] == os[..k] + [os[k]];
    SortedConcat(os[..k], [os[k]]);
    SortedConcat(os[..k + 1], os[k + 1..]);
    assert os[..k + 1] + os[k + 1..] == os;
    assert os[..k + 1][..k] == os[..k];
  }

  /** Version, type and declared token length, then code and message id. */
  method WriteHeader(buffer: array<byte>, message: CoapMessage, ghost m: Message, tokenLength: byte)
    requires buffer.Length >= HEADER_LENGTH
    requires m.kind == message.kind && m.code == message.code && m.id == message.id
    modifies buffer
    ensures buffer[..HEADER_LENGTH] == EncodeHeader(m, tokenLength)
  {
    buffer[0] := (0x40 + 0x10 * message.kind + tokenLength) % 0x100;
    buffer[1] := message.code;
    buffer[2] := message.id / 0x100;
    buffer[3] := message.id % 0x100;
  }

  /** The token, if its length is acceptable; otherwise the length is set to zero. */
  method WriteToken(buffer: array<byte>, message: CoapMessage) returns (index: nat)
    requires |message.token| == TOKEN_MAX_LENGTH
    requires HEADER_LENGTH + |message.Token()| <= buffer.Length
    modifies buffer, message`tokenLength
    ensures message.tokenLength == |old(message.Token())| && message.Token() == old(message.Token())
    ensures index == HEADER_LENGTH + message.tokenLength
    ensures Wrote(old(buffer[..]), buffer[..], HEADER_LENGTH, old(message.Token()))
  {
    if 0 < message.tokenLength <= TOKEN_MAX_LENGTH {
      CopyBytes(buffer, HEADER_LENGTH, message.token[..message.tokenLength]);
    } else {
      message.tokenLength := 0;
      NothingWritten(buffer[..], HEADER_LENGTH);
    }
    index := HEADER_LENGTH + message.tokenLength;
  }

  method WritePayload(buffer: array<byte>, at: nat, payload: seq<byte>) returns (index: nat)
    requires at + |EncodePayload(payload)| <= buffer.Length
    modifies buffer
    ensures index == at + |EncodePayload(payload)|
    ensures Wrote(old(buffer[..]), buffer[..], at, EncodePayload(payload))
  {
    index := at;
    if |payload| != 0 {
      ghost var s := buffer[..];
      buffer[index] := PAYLOAD_MARKER;
      index := index + 1;
      ghost var s1 := buffer[..];
      CopyBytes(buffer, index, payload);
      index := index + |payload|;
      WroteTwice(s, s1, buffer[..], at, [PAYLOAD_MARKER], payload);
    }
  }

  lemma MessageWritten(s0: seq<byte>, s1: seq<byte>, s2: seq<byte>, s3: seq<byte>, m: Message, declared: byte)
    requires AllWellFormed(m.options)
    requires HEADER_LENGTH <= |s0| && s0[..HEADER_LENGTH] == EncodeHeader(m, declared)
    requires Wrote(s0, s1, HEADER_LENGTH, m.token)
    requires Wrote(s1, s2, HEADER_LENGTH + |m.token|, EncodeOptions(0, m.options))
    requires Wrote(s2, s3, HEADER_LENGTH + |m.token| + |EncodeOptions(0, m.options)|, EncodePayload(m.payload))
    ensures |EncodeDeclaring(m, declared)| <= |s3|
    ensures s3[..|EncodeDeclaring(m, declared)|] == EncodeDeclaring(m, declared)
  {
    hide EncodeHeader, EncodePayload, EncodeOptions, AllWellFormed, Wrote;
    var h, o, p := EncodeHeader(m, declared), EncodeOptions(0, m.options), EncodePayload(m.payload);
    WroteTwice(s0, s1, s2, HEADER_LENGTH, m.token, o);
    WroteTwice(s0, s2, s3, HEADER_LENGTH, m.token + o, p);
    WrotePrefix(s0, s3, h, m.token + o + p);
    FourParts(h, m.token, o, p);
  }

  lemma WrotePrefix(s0: seq<byte>, s1: seq<byte>, h: seq<byte>, s: seq<byte>)
    requires |h| <= |s0| && s0[..|h|] == h && Wrote(s0, s1, |h|, s)
    ensures |h + s| <= |s1| && s1[..|h + s|] == h + s
  {
    assert s1[..|h|] == s0[..|h|];
    assert s1[..|h + s|] == s1[..|h|] + s1[|h|..|h| + |s|];
  }

  lemma FourParts(a: seq<byte>, b: seq<byte>, c: seq<byte>, d: seq<byte>)
    ensures a + (b + c + d) == a + b + c + d
  {
  }

  /** Where a chain goes in a list, and the links it needs there. */
  method InsertChain(head: OptionNode?, option: OptionNode?, ghost nodes: seq<OptionNode>, ghost chain: seq<OptionNode>)
    returns (newHead: OptionNode?, ghost all: seq<OptionNode>)
    requires IsList(head, nodes) && IsList(option, chain) && Apart(nodes, chain)
    modifies nodes, chain
    ensures IsList(newHead, all)
    ensures Values(all) == Insert(old(Values(nodes)), old(Values(chain)))
    ensures NodeSet(all) == NodeSet(nodes) + NodeSet(chain)
  {
    hide IsList, Values, Insert, Splice, Apart, NodeSet, UpperBound, Distinct, OptionNode.Value, OptionNode.Valid;
    ListHead(head, nodes);
    ListHead(option, chain);
    ghost var os, cs := Values(nodes), Values(chain);
    newHead, all := head, nodes;
    if option == null {
      InsertNothing(nodes, chain);
      return;
    }
    ListStep(option, chain, 0);
    var final := LastOption(option, chain);
    if head == null {
      InsertIntoNothing(nodes, chain);
      return option, chain;
    }
    ListStep(head, nodes, 0);
    ghost var k := UpperBound(os, option.number);
    var parent: OptionNode? := null;
    if head.number <= option.number {
      parent := FindParent(head, option.number, nodes);
    } else {
      UpperBoundIs(os, option.number, 0);
    }
    newHead := LinkChain(head, parent, option, final, nodes, chain, k);
    InsertSplits(os, cs, k);
    SpliceMembers(nodes, chain, k);
    all := Splice(nodes, chain, k);
  }

  lemma InsertNothing(nodes: seq<OptionNode>, chain: seq<OptionNode>)
    requires chain == []
    ensures Insert(Values(nodes), Values(chain)) == Values(nodes)
    ensures NodeSet(nodes) == NodeSet(nodes) + NodeSet(chain)
  {
  }

  lemma InsertIntoNothing(nodes: seq<OptionNode>, chain: seq<OptionNode>)
    requires nodes == []
    ensures Insert(Values(nodes), Values(chain)) == Values(chain)
    ensures NodeSet(chain) == NodeSet(nodes) + NodeSet(chain)
  {
  }

  lemma InsertSplits(os: seq<CoapOption>, cs: seq<CoapOption>, k: nat)
    requires cs != [] && k == UpperBound(os, cs[0].number)
    ensures Insert(os, cs) == os[..k] + cs + os[k..]
  {
  }

  ghost function Splice(nodes: seq<OptionNode>, chain: seq<OptionNode>, k: nat): seq<OptionNode>
    requires k <= |nodes|
  {
    nodes[..k] + chain + nodes[k..]
  }

  /** The last node of a chain. */
  method LastOption(option: OptionNode, ghost chain: seq<OptionNode>) returns (final: OptionNode)
    requires IsList(option, chain)
    ensures chain != [] && final == chain[|chain| - 1]
  {
    final := option;
    ghost var k := 0;
    while final.next != null
      invariant k < |chain| && final == chain[k]
      decreases |chain| - k
    {
      final := final.next;
      k := k + 1;
    }
  }

  /** The last node that a chain with the given number must follow. */
  method FindParent(head: OptionNode, number: uint16, ghost nodes: seq<OptionNode>) returns (parent: OptionNode)
    requires IsList(head, nodes) && head.number <= number
    ensures var k := UpperBound(Values(nodes), number); 0 < k <= |nodes| && parent == nodes[k - 1]
  {
    hide IsList, Values;
    parent := head;
    ghost var k := 0;
    ListHead(head, nodes);
    ListStep(head, nodes, 0);
    NextNumber(head, nodes, 1);
    while parent.next != null && parent.next.number <= number
      invariant k < |nodes| && parent == nodes[k]
      invariant parent.next == NodeAt(nodes, k + 1)
      invariant k + 1 < |nodes| ==> nodes[k + 1].number == Values(nodes)[k + 1].number
      invariant forall i :: 0 <= i <= k ==> Values(nodes)[i].number <= number
      decreases |nodes| - k
    {
      parent := parent.next;
      k := k + 1;
      ListStep(head, nodes, k);
      NextNumber(head, nodes, k + 1);
    }
    UpperBoundIs(Values(nodes), number, k + 1);
  }

  lemma NextNumber(head: OptionNode?, nodes: seq<OptionNode>, k: nat)
    requires IsList(head, nodes)
    ensures k < |nodes| ==> nodes[k].number == Values(nodes)[k].number
  {
  }

  lemma {:induction false} UpperBoundIs(os: seq<CoapOption>, n: uint16, k: nat)
    requires k <= |os| && (forall i :: 0 <= i < k ==> os[i].number <= n)
    requires k < |os| ==> os[k].number > n
    ensures UpperBound(os, n) == k
  {
  }

  lemma SplicedValues(nodes: seq<OptionNode>, chain: seq<OptionNode>, k: nat, os: seq<CoapOption>, cs: seq<CoapOption>)
    requires k <= |nodes| == |os| && |cs| == |chain|
    requires forall i :: 0 <= i < |nodes| ==> nodes[i].Value() == os[i]
    requires forall i :: 0 <= i < |chain| ==> chain[i].Value() == cs[i]
    ensures Values(Splice(nodes, chain, k)) == os[..k] + cs + os[k..]
  {
  }

  lemma SpliceIndex(nodes: seq<OptionNode>, chain: seq<OptionNode>, k: nat)
    requires k <= |nodes|
    ensures var all := Splice(nodes, chain, k);
            && |all| == |nodes| + |chain|
            && (forall i :: 0 <= i < k ==> all[i] == nodes[i])
            && (forall i :: k <= i < k + |chain| ==> all[i] == chain[i - k])
            && (forall i :: k + |chain| <= i < |all| ==> all[i] == nodes[i - |chain|])
  {
  }

  lemma SpliceMembers(nodes: seq<OptionNode>, chain: seq<OptionNode>, k: nat)
    requires k <= |nodes|
    ensures NodeSet(Splice(nodes, chain, k)) == NodeSet(nodes) + NodeSet(chain)
  {
  }

  lemma SpliceDistinct(nodes: seq<OptionNode>, chain: seq<OptionNode>, k: nat)
    requires k <= |nodes| && Distinct(nodes) && Distinct(chain) && Apart(nodes, chain)
    ensures Distinct(Splice(nodes, chain, k))
  {
  }

  ghost predicate Apart(nodes: seq<OptionNode>, chain: seq<OptionNode>) {
    forall i, j :: 0 <= i < |nodes| && 0 <= j < |chain| ==> nodes[i] != chain[j]
  }

  lemma SplicedList(nodes: seq<OptionNode>, chain: seq<OptionNode>, k: nat)
    requires k <= |nodes| && chain != [] && Distinct(Splice(nodes, chain, k))
    requires forall i :: 0 <= i < |nodes| ==> nodes[i].Valid()
    requires forall i :: 0 <= i < |chain| ==> chain[i].Valid()
    requires forall i :: 0 <= i < |nodes| && i != k - 1 ==> nodes[i].next == NodeAt(nodes, i + 1)
    requires k > 0 ==> nodes[k - 1].next == chain[0]
    requires forall i :: 0 <= i < |chain| - 1 ==> chain[i].next == chain[i + 1]
    requires chain[|chain| - 1].next == NodeAt(nodes, k)
    ensures IsList(NodeAt(Splice(nodes, chain, k), 0), Splice(nodes, chain, k))
  {
  }

  /** The two pointer updates that put a chain behind its parent, or first if there is none. */
  method LinkChain(head: OptionNode?, parent: OptionNode?, option: OptionNode, final: OptionNode,
                   ghost nodes: seq<OptionNode>, ghost chain: seq<OptionNode>, ghost k: nat)
    returns (newHead: OptionNode?)
    requires IsList(head, nodes) && IsList(option, chain) && chain != [] && final == chain[|chain| - 1]
    requires k <= |nodes| && parent == (if k == 0 then null else nodes[k - 1])
    requires Apart(nodes, chain)
    modifies nodes, chain
    ensures IsList(newHead, Splice(nodes, chain, k))
    ensures Values(Splice(nodes, chain, k)) == old(Values(nodes)[..k] + Values(chain) + Values(nodes)[k..])
  {
    hide IsList, Values, Splice, IsInteger;
    ghost var os, cs := Values(nodes), Values(chain);
    ListFacts(head, nodes);
    ListFacts(option, chain);
    if parent == null {
      final.next := head;
      newHead := option;
    } else {
      final.next := parent.next;
      parent.next := option;
      newHead := head;
    }
    SpliceIndex(nodes, chain, k);
    SpliceDistinct(nodes, chain, k);
    SplicedValues(nodes, chain, k, os, cs);
    SplicedList(nodes, chain, k);
  }

  function Shift(r: Lookup, k: nat): Lookup {
    match r
    case Missing => Missing
    case Found(i) => Found(i + k)
  }

  lemma FindSuffix(os: seq<CoapOption>, n: uint16, k: nat)
    requires k <= |os|
    ensures os[k..] == [] ==> Find(os[k..], n) == Missing
    ensures k < |os| && os[k].number < n ==> Shift(Find(os[k..], n), k) == Shift(Find(os[k + 1..], n), k + 1)
    ensures k < |os| && os[k].number == n ==> Find(os[k..], n) == Found(0)
    ensures k < |os| && os[k].number > n ==> Find(os[k..], n) == Missing
    ensures k == 0 ==> Find(os, n) == Shift(Find(os[k..], n), k)
  {
  }
}
