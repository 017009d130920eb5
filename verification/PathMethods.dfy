/** Turning a path into a chain of option nodes, and comparing option nodes to a path. */
module PathMethods {
  import opened Bytes
  import opened Options
  import opened OptionNodes
  import opened OptionReader
  import opened Paths

  lemma {:induction false} SplitFirst(p: seq<byte>, d: byte, k: nat)
    requires k <= |p| && d !in p[..k] && (k < |p| ==> p[k] == d)
    ensures Split(p, d) == [p[..k]] + if k < |p| then Split(p[k + 1..], d) else []
  {
    if k == 0 {
    } else {
      assert p[0] == p[..k][0];
      assert p[1..][..k - 1] == p[..k][1..];
      SplitFirst(p[1..], d, k - 1);
      assert [p[0]] + p[..k][1..] == p[..k];
      if k < |p| {
        assert p[1..][k..] == p[k + 1..];
      }
    }
  }

  /** The end of the segment that begins at i. */
  method SegmentEnd(path: seq<byte>, i: nat, d: byte) returns (end: nat)
    requires i <= |path|
    ensures i <= end <= |path| && d !in path[i..end] && (end < |path| ==> path[end] == d)
  {
    end := i;
    while end < |path| && path[end] != d
      invariant i <= end <= |path| && d !in path[i..end]
      decreases |path| - end
    {
      assert path[i..end + 1] == path[i..end] + [path[end]];
      end := end + 1;
    }
  }

  lemma SliceOfTail(s: seq<byte>, i: nat, j: nat)
    requires i <= j <= |s|
    ensures s[i..][..j - i] == s[i..j]
    ensures j < |s| ==> s[i..][j - i] == s[j] && s[i..][j - i + 1..] == s[j + 1..]
    ensures j < |s| ==> s[j..][0] == s[j] && s[j..][1..] == s[j + 1..]
  {
  }

  lemma DropsOne(path: seq<byte>, i: nat, d: byte)
    requires i < |path|
    ensures DropDelimiter(path[i..], d) == path[if path[i] == d then i + 1 else i..]
  {
  }

  /** What is left to split after one more segment. */
  lemma SplitStep(path: seq<byte>, i: nat, d: byte, end: nat)
    requires i < |path|
    requires var j := if path[i] == d then i + 1 else i;
             j <= end <= |path| && d !in path[j..end] && (end < |path| ==> path[end] == d)
    ensures var j := if path[i] == d then i + 1 else i;
            Split(DropDelimiter(path[i..], d), d)
            == [path[j..end]] + if end < |path| then Split(DropDelimiter(path[end..], d), d) else []
  {
    hide Split, DropDelimiter;
    DropsOne(path, i, d);
    SplitSegment(path, if path[i] == d then i + 1 else i, d, end);
    if end < |path| {
      DropsOne(path, end, d);
    }
  }

  lemma SplitSegment(path: seq<byte>, j: nat, d: byte, end: nat)
    requires j <= end <= |path| && d !in path[j..end] && (end < |path| ==> path[end] == d)
    ensures Split(path[j..], d) == [path[j..end]] + if end < |path| then Split(path[end + 1..], d) else []
  {
    hide Split;
    SliceOfTail(path, j, end);
    SplitFirst(path[j..], d, end - j);
  }

  /** The nodes designate the segments, in order, under one number. */
  ghost predicate HoldAll(nodes: seq<OptionNode>, number: uint16, segments: seq<seq<byte>>)
    reads nodes
  {
    && |nodes| == |segments|
    && forall k {:trigger nodes[k]} {:trigger segments[k]} :: 0 <= k < |nodes| ==>
         nodes[k].number == number && nodes[k].length == |segments[k]| && nodes[k].asBuffer == segments[k]
  }

  /** Unless the number says that the value is an integer, these are the options of the path. */
  lemma HoldAllValues(nodes: seq<OptionNode>, number: uint16, segments: seq<seq<byte>>)
    requires HoldAll(nodes, number, segments) && !IsInteger(number)
    ensures Values(nodes) == OptionsFor(number, segments)
  {
    hide IsInteger, Values;
    OptionsForSegments(number, segments);
    assert forall k :: 0 <= k < |nodes| ==> Values(nodes)[k] == CoapOption(number, Buffer(segments[k]));
  }

  /** The state of the splitting loop at position i: the segments in done have their nodes;
      if more are to come, one zeroed node stands ready for the next. */
  ghost predicate Splitting(option: OptionNode?, nodes: seq<OptionNode>, number: uint16,
                            path: seq<byte>, i: nat, d: byte, done: seq<seq<byte>>)
    reads nodes
  {
    var segments := Split(DropDelimiter(path, d), d);
    && i <= |path| && IsList(option, nodes) && Fits(done)
    && (i < |path| ==> segments == done + Split(DropDelimiter(path[i..], d), d))
    && (i == |path| && path != [] ==> segments == done)
    && HoldAll(nodes, number, if i < |path| || path == [] then done + [[]] else done)
  }

  lemma SplittingStarts(option: OptionNode, number: uint16, path: seq<byte>, d: byte)
    requires option.next == null && option.number == number && option.length == 0 && option.asBuffer == []
    ensures Splitting(option, [option], number, path, 0, d, []) && NodeSet([option]) == {option}
  {
    hide Split, DropDelimiter;
    assert path[0..] == path;
    assert [] + Split(DropDelimiter(path, d), d) == Split(DropDelimiter(path, d), d);
  }

  lemma SplittingEnds(option: OptionNode?, nodes: seq<OptionNode>, number: uint16, path: seq<byte>, d: byte, done: seq<seq<byte>>)
    requires Splitting(option, nodes, number, path, |path|, d, done) && (path == [] ==> done == [])
    ensures IsList(option, nodes) && Fits(Split(DropDelimiter(path, d), d))
    ensures HoldAll(nodes, number, Split(DropDelimiter(path, d), d))
  {
    hide IsList, HoldAll;
    if path == [] {
      assert done + [[]] == Split(DropDelimiter(path, d), d);
    }
  }

  lemma SplittingList(option: OptionNode?, nodes: seq<OptionNode>, number: uint16, path: seq<byte>, i: nat, d: byte, done: seq<seq<byte>>)
    requires Splitting(option, nodes, number, path, i, d, done) && i < |path|
    ensures IsList(option, nodes) && HoldAll(nodes, number, done + [[]])
  {
    hide IsList, HoldAll, Split, DropDelimiter;
  }

  /** Splitting once more, once the node of the segment is set. */
  lemma SplittingAdvances(option: OptionNode?, nodes: seq<OptionNode>, number: uint16, path: seq<byte>,
                          i: nat, j: nat, end: nat, d: byte, done: seq<seq<byte>>)
    requires i < |path| && Fits(done)
    requires Split(DropDelimiter(path, d), d) == done + Split(DropDelimiter(path[i..], d), d)
    requires j == (if path[i] == d then i + 1 else i)
    requires j <= end <= |path| && d !in path[j..end] && (end < |path| ==> path[end] == d) && end - j <= 0xFFFF
    requires IsList(option, nodes)
    requires HoldAll(nodes, number, if end < |path| then done + [path[j..end]] + [[]] else done + [path[j..end]])
    ensures Splitting(option, nodes, number, path, end, d, done + [path[j..end]])
  {
    hide IsList, HoldAll, Split, DropDelimiter, Fits;
    SplitStep(path, i, d, end);
    FitsAppend(done, path[j..end]);
  }

  /** The node of one more segment is set, and a zeroed one linked behind it if the path
      goes on. Returns false when memory runs out. */
  method SplitOne(alloc: Allocator, head: OptionNode?, current: OptionNode, number: uint16, path: seq<byte>,
                  ghost i: nat, j: nat, end: nat, d: byte, ghost nodes: seq<OptionNode>, ghost done: seq<seq<byte>>)
    returns (ok: bool, option: OptionNode?, last: OptionNode, ghost all: seq<OptionNode>)
    requires i < |path| && Splitting(head, nodes, number, path, i, d, done)
    requires nodes != [] && current == nodes[|nodes| - 1]
    requires j == (if path[i] == d then i + 1 else i)
    requires j <= end <= |path| && d !in path[j..end] && (end < |path| ==> path[end] == d)
    requires end - j <= 0xFFFF
    modifies alloc, nodes
    ensures IsList(option, all) && all != [] && last == all[|all| - 1]
    ensures alloc.failures == old(alloc.failures) + if ok then 0 else 1
    ensures NodeSet(all) >= NodeSet(nodes)
    ensures NodeSet(nodes) <= old(alloc.live) ==> alloc.live == old(alloc.live) + NodeSet(all)
    ensures forall k :: 0 <= k < |all| ==> all[k] in nodes || fresh(all[k])
    ensures ok ==> Splitting(option, all, number, path, end, d, done + [path[j..end]])
  {
    hide IsList, HoldAll, Split, DropDelimiter, Fits, NodeSet;
    ok, option, last, all := true, head, current, nodes;
    ghost var s := path[j..end];
    SplittingList(head, nodes, number, path, i, d, done);
    SetSegment(option, current, number, path[j..end], nodes, done);
    if end < |path| {
      ok, option, last, all := AppendBlank(alloc, option, current, number, nodes, done + [s]);
    }
    if ok {
      SplittingAdvances(option, all, number, path, i, j, end, d, done);
    }
  }

  /** One option per segment; null if a segment is too long for an option, or when memory
      runs out, and then nothing that was allocated remains. */
  method PathToOption(alloc: Allocator, number: uint16, path: seq<byte>, d: byte)
    returns (option: OptionNode?, ghost nodes: seq<OptionNode>)
    modifies alloc
    ensures IsList(option, nodes) && (forall k :: 0 <= k < |nodes| ==> fresh(nodes[k]))
    ensures alloc.live == old(alloc.live) + NodeSet(nodes) && alloc.failures >= old(alloc.failures)
    ensures alloc.failures > old(alloc.failures) ==> option == null
    ensures alloc.failures == old(alloc.failures) ==>
              (option == null <==>
               exists k :: 0 <= k < |Split(DropDelimiter(path, d), d)| && |Split(DropDelimiter(path, d), d)[k]| > 65535)
    ensures option != null ==> HoldAll(nodes, number, Split(DropDelimiter(path, d), d))
    ensures option != null && !IsInteger(number) ==> Values(nodes) == OptionsFor(number, Split(DropDelimiter(path, d), d))
  {
    hide IsList, Values, Split, OptionsFor, IsInteger, DropDelimiter, Fits, NodeSet, Distinct, Splitting, HoldAll;
    ghost var live := alloc.live;
    nodes := [];
    ListOfNothing();
    FitsMeans(Split(DropDelimiter(path, d), d));
    option := alloc.NewOption(number);
    if option == null {
      return;
    }
    ghost var done: seq<seq<byte>> := [];
    var current := option;
    nodes := [current];
    SplittingStarts(option, number, path, d);
    var i: nat := 0;
    while i < |path|
      invariant Splitting(option, nodes, number, path, i, d, done) && (path == [] ==> done == [])
      invariant i <= |path| && (forall k :: 0 <= k < |nodes| ==> fresh(nodes[k]))
      invariant nodes != [] && current == nodes[|nodes| - 1]
      invariant alloc.live == live + NodeSet(nodes) && alloc.failures == old(alloc.failures)
      decreases |path| - i
    {
      ghost var i0 := i;
      if path[i] == d {
        i := i + 1;
      }
      var end := SegmentEnd(path, i, d);
      if end - i > 0xFFFF {
        TooLong(option, nodes, number, path, i0, i, end, d, done);
        alloc.FreeOptions(option, nodes);
        ReleaseAll(live, nodes);
        option, nodes := null, [];
        return;
      }
      var ok;
      ok, option, current, nodes := SplitOne(alloc, option, current, number, path, i0, i, end, d, nodes, done);
      if !ok {
        alloc.FreeOptions(option, nodes);
        ReleaseAll(live, nodes);
        option, nodes := null, [];
        return;
      }
      done := done + [path[i..end]];
      i := end;
    }
    SplittingEnds(option, nodes, number, path, d, done);
    ListHead(option, nodes);
    if !IsInteger(number) {
      HoldAllValues(nodes, number, Split(DropDelimiter(path, d), d));
    }
  }

  /** A zeroed node behind the last; the list is as before when memory runs out. */
  method AppendBlank(alloc: Allocator, option: OptionNode?, current: OptionNode, number: uint16,
                     ghost nodes: seq<OptionNode>, ghost segments: seq<seq<byte>>)
    returns (ok: bool, head: OptionNode?, last: OptionNode, ghost all: seq<OptionNode>)
    requires IsList(option, nodes) && nodes != [] && current == nodes[|nodes| - 1]
    requires HoldAll(nodes, number, segments)
    modifies alloc, nodes
    ensures IsList(head, all) && all != [] && last == all[|all| - 1]
    ensures alloc.failures == old(alloc.failures) + if ok then 0 else 1
    ensures !ok ==> all == nodes && alloc.live == old(alloc.live)
    ensures ok ==>
              && fresh(last) && all == nodes + [last] && alloc.live == old(alloc.live) + {last}
              && NodeSet(all) == NodeSet(nodes) + {last}
              && HoldAll(all, number, segments + [[]])
  {
    hide IsList, Values, IsInteger, NodeSet, Distinct;
    ok, head, last, all := true, option, current, nodes;
    var following := alloc.NewOption(number);
    if following == null {
      ok := false;
      return;
    }
    head := Link(option, current, following, nodes);
    last, all := following, nodes + [following];
    NodeSetAppend(nodes, following);
  }

  lemma ListFromFacts(head: OptionNode?, nodes: seq<OptionNode>)
    requires head == NodeAt(nodes, 0) && Distinct(nodes)
    requires forall i :: 0 <= i < |nodes| ==> nodes[i].next == NodeAt(nodes, i + 1)
    requires forall i :: 0 <= i < |nodes| ==> nodes[i].Valid()
    ensures IsList(head, nodes)
  {
  }

  lemma HoldingFront(nodes: seq<OptionNode>, number: uint16, done: seq<seq<byte>>)
    requires HoldAll(nodes, number, done + [[]])
    ensures |nodes| == |done| + 1 && nodes[|done|].number == number
    ensures forall i :: 0 <= i < |done| ==>
              nodes[i].number == number && nodes[i].length == |done[i]| && nodes[i].asBuffer == done[i]
  {
    var all := done + [[]];
    assert all[|done|] == [];
    assert forall i :: 0 <= i < |done| ==> all[i] == done[i];
  }

  lemma HoldAllWithLast(nodes: seq<OptionNode>, number: uint16, done: seq<seq<byte>>, segment: seq<byte>)
    requires |nodes| == |done| + 1
    requires forall i :: 0 <= i < |done| ==>
               nodes[i].number == number && nodes[i].length == |done[i]| && nodes[i].asBuffer == done[i]
    requires var last := nodes[|done|];
             last.number == number && last.length == |segment| && last.asBuffer == segment
    ensures HoldAll(nodes, number, done + [segment])
  {
  }

  lemma OthersDiffer(nodes: seq<OptionNode>)
    requires Distinct(nodes) && nodes != []
    ensures forall i :: 0 <= i < |nodes| - 1 ==> nodes[i] != nodes[|nodes| - 1]
  {
  }

  /** Points the last node at its segment. */
  method SetSegment(head: OptionNode?, current: OptionNode, number: uint16, segment: seq<byte>,
                    ghost nodes: seq<OptionNode>, ghost done: seq<seq<byte>>)
    requires IsList(head, nodes) && nodes != [] && current == nodes[|nodes| - 1]
    requires |segment| <= 0xFFFF && HoldAll(nodes, number, done + [[]])
    modifies current`length, current`asBuffer
    ensures IsList(head, nodes)
    ensures HoldAll(nodes, number, done + [segment])
  {
    hide IsList, IsInteger, Values, Distinct, HoldAll;
    HoldingFront(nodes, number, done);
    ListFacts(head, nodes);
    OthersDiffer(nodes);
    current.length := |segment|;
    current.asBuffer := segment;
    ListFromFacts(head, nodes);
    HoldAllWithLast(nodes, number, done, segment);
  }

  lemma ListOfNothing()
    ensures IsList(null, []) && Values([]) == [] && NodeSet([]) == {}
  {
  }

  lemma TooLong(option: OptionNode?, nodes: seq<OptionNode>, number: uint16, path: seq<byte>,
                i: nat, j: nat, end: nat, d: byte, done: seq<seq<byte>>)
    requires i < |path| && Splitting(option, nodes, number, path, i, d, done)
    requires j == (if path[i] == d then i + 1 else i)
    requires j <= end <= |path| && d !in path[j..end] && (end < |path| ==> path[end] == d)
    requires end - j > 0xFFFF
    ensures IsList(option, nodes) && !Fits(Split(DropDelimiter(path, d), d))
  {
    hide IsList, HoldAll, Split, DropDelimiter;
    SplitStep(path, i, d, end);
    var segments := Split(DropDelimiter(path, d), d);
    assert segments[|done|] == path[j..end];
  }

  lemma FitsMeans(segments: seq<seq<byte>>)
    ensures Fits(segments) <==> !exists k :: 0 <= k < |segments| && |segments[k]| > 65535
  {
  }

  lemma FitsAppend(done: seq<seq<byte>>, s: seq<byte>)
    requires Fits(done) && |s| <= 0xFFFF
    ensures Fits(done + [s])
  {
  }

  lemma ReleaseAll(live: set<object>, nodes: seq<OptionNode>)
    requires forall k :: 0 <= k < |nodes| ==> nodes[k] !in live
    ensures live + NodeSet(nodes) - NodeSet(nodes) == live + NodeSet([]) == live
  {
  }

  // ---------- comparison ----------

  /** An integer option has no segment, as long as its unused length is zero. */
  ghost predicate BufferOrEmpty(node: OptionNode)
    reads node
  {
    IsInteger(node.number) ==> node.length == 0
  }

  /** Compares one segment to the path from start on; i is where it ends if it matches. */
  method CompareSegment(option: OptionNode, path: seq<byte>, start: nat, d: byte, signedChar: bool)
    returns (matches: bool, i: nat)
    requires option.Valid() && BufferOrEmpty(option) && start <= |path|
    ensures matches == SegmentAt(SegmentOf(option.Value()), path, start, d, signedChar)
    ensures matches ==> i == start + |SegmentOf(option.Value())| <= |path|
  {
    i := start;
    ghost var segment := SegmentOf(option.Value());
    NodeSegment(option);
    var j: nat := 0;
    while j < option.length
      invariant j <= |segment| && i == start + j <= |path|
      invariant SegmentAt(segment, path, start, d, signedChar) == SegmentAt(segment[j..], path, i, d, signedChar)
      decreases |segment| - j
    {
      if i == |path|
         || option.asBuffer[j] == CharValue(d, signedChar)
         || option.asBuffer[j] != CharValue(path[i], signedChar)
      {
        return false, i;
      }
      assert segment[j..][1..] == segment[j + 1..];
      i := i + 1;
      j := j + 1;
    }
    matches := true;
  }

  lemma CompareUnfold(os: seq<CoapOption>, n: uint16, path: seq<byte>, i: nat, d: byte, signedChar: bool, k: nat)
    requires i < |path| && k < |os| && os[k].number == n
    ensures match SkipDelimiter(path, i, d)
            case Stop => !CompareFrom(os[k..], n, path, i, d, signedChar)
            case From(j) =>
              var s := SegmentOf(os[k]);
              CompareFrom(os[k..], n, path, i, d, signedChar) <==>
              (SegmentAt(s, path, j, d, signedChar) && j + |s| <= |path|
               && CompareFrom(os[k + 1..], n, path, j + |s|, d, signedChar))
  {
  }

  lemma CompareFinishes(os: seq<CoapOption>, n: uint16, path: seq<byte>, i: nat, d: byte, signedChar: bool, k: nat)
    requires i <= |path| && k <= |os|
    requires i == |path| || k == |os| || os[k].number != n
    ensures CompareFrom(os[k..], n, path, i, d, signedChar) <==>
            i == |path| && !(k + 1 < |os| && os[k + 1].number == n)
  {
  }

  /** Whether a path spells the run of options that begins at a node. */
  method ComparePath(option: OptionNode, path: seq<byte>, d: byte, signedChar: bool, ghost nodes: seq<OptionNode>)
    returns (r: bool)
    requires IsList(option, nodes)
    requires forall k :: 0 <= k < |nodes| && nodes[k].number == option.number ==> BufferOrEmpty(nodes[k])
    ensures nodes != [] && r == CompareToPath(Values(nodes), path, d, signedChar)
  {
    hide IsList, Values, IsInteger, CompareFrom, SegmentAt, SegmentOf, OptionNode.Valid, OptionNode.Value;
    ghost var os, k := Values(nodes), 0;
    var optionNumber := option.number;
    var current: OptionNode? := option;
    var i: nat := 0;
    ListHead(option, nodes);
    ListStep(option, nodes, 0);
    assert os[0..] == os;
    while i < |path| && current != null && current.number == optionNumber
      invariant i <= |path| && k <= |nodes| && current == NodeAt(nodes, k)
      invariant CompareToPath(os, path, d, signedChar) == CompareFrom(os[k..], optionNumber, path, i, d, signedChar)
      decreases |nodes| - k
    {
      ListStep(option, nodes, k);
      CompareUnfold(os, optionNumber, path, i, d, signedChar, k);
      if i == 0 {
        if path[i] == d {
          i := i + 1;
        }
      } else {
        if path[i] != d {
          return false;
        }
        i := i + 1;
      }
      var matches;
      matches, i := CompareSegment(current, path, i, d, signedChar);
      if !matches {
        return false;
      }
      current := current.next;
      k := k + 1;
    }
    if current != null {
      ListStep(option, nodes, k);
      if k + 1 < |nodes| {
        ListStep(option, nodes, k + 1);
      }
    }
    CompareFinishes(os, optionNumber, path, i, d, signedChar, k);
    if i < |path| || (current != null && current.next != null && current.next.number == optionNumber) {
      return false;
    }
    r := true;
  }

  lemma NodeSegment(node: OptionNode)
    requires node.Valid() && BufferOrEmpty(node)
    ensures var segment := SegmentOf(node.Value());
            |segment| == node.length && (segment != [] ==> segment == node.asBuffer)
  {
  }
}
