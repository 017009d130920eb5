/** Paths as option segments: splitting a path into options and comparing options to a path.
    A path is a C string, given here by its bytes up to the terminator. */
module Paths {
  import opened Bytes
  import opened Options

  /** Drop one leading delimiter, if there is one. */
  function DropDelimiter(path: seq<byte>, d: byte): (p: seq<byte>) {
    if path != [] && path[0] == d then path[1..] else path
  }

  /** n delimiters separate n + 1 segments. */
  function Split(p: seq<byte>, d: byte): (segments: seq<seq<byte>>)
    ensures segments != []
  {
    if p == [] then [[]]
    else if p[0] == d then [[]] + Split(p[1..], d)
    else
      var rest := Split(p[1..], d);
      [[p[0]] + rest[0]] + rest[1..]
  }

  /** Each segment with a delimiter before it. */
  function Tail(segments: seq<seq<byte>>, d: byte): (p: seq<byte>) {
    if segments == [] then [] else [d] + segments[0] + Tail(segments[1..], d)
  }

  function Join(segments: seq<seq<byte>>, d: byte): (p: seq<byte>) {
    if segments == [] then [] else segments[0] + Tail(segments[1..], d)
  }

  predicate DelimiterFree(segments: seq<seq<byte>>, d: byte) {
    forall k :: 0 <= k < |segments| ==> d !in segments[k]
  }

  /** Joining the segments of a path gives the path back. */
  lemma {:induction false} JoinSplit(p: seq<byte>, d: byte)
    ensures Join(Split(p, d), d) == p
  {
    if p == [] {
    } else {
      JoinSplit(p[1..], d);
      SplitStepsOnce(p, d);
      JoinConsumes(Split(p[1..], d), p[0], d);
    }
  }

  lemma SplitStepsOnce(p: seq<byte>, d: byte)
    requires p != []
    ensures Split(p, d) == (var rest := Split(p[1..], d);
                            if p[0] == d then [[]] + rest else [[p[0]] + rest[0]] + rest[1..])
    ensures p == [p[0]] + p[1..]
  {
  }

  lemma JoinUnfold(segments: seq<seq<byte>>, d: byte)
    requires segments != []
    ensures Join(segments, d) == segments[0] + Tail(segments[1..], d)
  {
    hide Tail;
  }

  lemma Associate(a: seq<byte>, b: seq<byte>, c: seq<byte>)
    ensures a + b + c == a + (b + c)
  {
  }

  lemma TailIsJoin(segments: seq<seq<byte>>, d: byte)
    requires segments != []
    ensures Tail(segments, d) == [d] + Join(segments, d)
  {
    JoinUnfold(segments, d);
    Associate([d], segments[0], Tail(segments[1..], d));
  }

  lemma JoinConsumes(rest: seq<seq<byte>>, c: byte, d: byte)
    requires rest != []
    ensures Join([[]] + rest, d) == [d] + Join(rest, d)
    ensures Join([[c] + rest[0]] + rest[1..], d) == [c] + Join(rest, d)
  {
    hide Join, Tail;
    var all, longer := [[]] + rest, [[c] + rest[0]] + rest[1..];
    assert all[0] == [] && all[1..] == rest;
    assert longer[0] == [c] + rest[0] && longer[1..] == rest[1..];
    JoinUnfold(all, d);
    JoinUnfold(longer, d);
    JoinUnfold(rest, d);
    TailIsJoin(rest, d);
    assert [] + Tail(rest, d) == Tail(rest, d);
    Associate([c], rest[0], Tail(rest[1..], d));
    assert ([[]] + rest)[1..] == rest;
    assert ([[c] + rest[0]] + rest[1..])[1..] == rest[1..];
  }

  lemma {:induction false} SplitIsDelimiterFree(p: seq<byte>, d: byte)
    ensures DelimiterFree(Split(p, d), d)
  {
    if p == [] {
    } else {
      SplitIsDelimiterFree(p[1..], d);
      SplitStepsOnce(p, d);
      var rest, all := Split(p[1..], d), Split(p, d);
      assert d !in rest[0];
      forall k | 0 <= k < |all| ensures d !in all[k] {
        if k > 0 {
          assert all[k] == if p[0] == d then rest[k - 1] else rest[k];
        }
      }
    }
  }

  /** The split is the only way to write a path as delimiter-free segments. */
  lemma {:induction false} SplitJoin(segments: seq<seq<byte>>, d: byte)
    requires segments != [] && DelimiterFree(segments, d)
    ensures Split(Join(segments, d), d) == segments
    decreases |Join(segments, d)|
  {
    hide Split, Join;
    var p := Join(segments, d);
    if segments[0] != [] {
      var c, shorter := segments[0][0], [segments[0][1..]] + segments[1..];
      assert c in segments[0];
      assert segments[0] == [c] + shorter[0] && segments == [[c] + shorter[0]] + shorter[1..];
      JoinConsumes(shorter, c, d);
      SplitJoin(shorter, d);
      SplitStepsOnce(p, d);
    } else if |segments| > 1 {
      assert segments == [[]] + segments[1..];
      JoinConsumes(segments[1..], d, d);
      SplitJoin(segments[1..], d);
      SplitStepsOnce(p, d);
    } else {
      assert segments == [[]];
      JoinNothing(d);
    }
  }

  lemma JoinNothing(d: byte)
    ensures Join([[]], d) == [] && Split([], d) == [[]]
  {
  }

  /** A path with a delimiter in front, and one that neither is empty nor begins with the
      delimiter, is split into the segments it was joined from. */
  lemma SegmentsComeBack(segments: seq<seq<byte>>, d: byte)
    requires segments != [] && DelimiterFree(segments, d)
    ensures Split(DropDelimiter([d] + Join(segments, d), d), d) == segments
    ensures segments[0] != [] ==> Split(DropDelimiter(Join(segments, d), d), d) == segments
  {
    hide Split, Join;
    var p := Join(segments, d);
    assert ([d] + p)[1..] == p;
    SplitJoin(segments, d);
    if segments[0] != [] {
      JoinUnfold(segments, d);
      assert p[0] == segments[0][0] && segments[0][0] in segments[0];
    }
  }

  function SegmentOf(o: CoapOption): (s: seq<byte>) {
    match o.content
    case Buffer(bytes) => bytes
    case Integer(_) => []
  }

  function SegmentsOf(os: seq<CoapOption>): (r: seq<seq<byte>>) {
    if os == [] then [] else [SegmentOf(os[0])] + SegmentsOf(os[1..])
  }

  function OptionsFor(number: uint16, segments: seq<seq<byte>>): (os: seq<CoapOption>) {
    if segments == [] then [] else [CoapOption(number, Buffer(segments[0]))] + OptionsFor(number, segments[1..])
  }

  /** No segment is too long for a 16-bit option length. */
  predicate Fits(segments: seq<seq<byte>>) {
    forall k :: 0 <= k < |segments| ==> |segments[k]| <= 0xFFFF
  }

  lemma {:induction false} OptionsForSegments(number: uint16, segments: seq<seq<byte>>)
    ensures SegmentsOf(OptionsFor(number, segments)) == segments
    ensures |OptionsFor(number, segments)| == |segments|
    ensures forall k :: 0 <= k < |segments| ==> OptionsFor(number, segments)[k] == CoapOption(number, Buffer(segments[k]))
  {
    if segments == [] {
    } else {
      OptionsForSegments(number, segments[1..]);
      var rest := OptionsFor(number, segments[1..]);
      assert OptionsFor(number, segments)[1..] == rest;
      assert segments == [segments[0]] + segments[1..];
    }
  }

  // ---------- comparison ----------

  /** A path character as the comparison sees it: plain char may be signed. */
  function CharValue(c: byte, signedChar: bool): int {
    if signedChar && c >= 0x80 then c - 0x100 else c
  }

  /** The bytes of a segment against the path from i on, byte by byte. */
  predicate SegmentAt(segment: seq<byte>, path: seq<byte>, i: nat, d: byte, signedChar: bool)
    decreases segment
  {
    segment == []
    || (&& i < |path|
        && segment[0] != CharValue(d, signedChar)
        && segment[0] == CharValue(path[i], signedChar)
        && SegmentAt(segment[1..], path, i + 1, d, signedChar))
  }

  datatype Skip = Stop | From(i: nat)

  /** Where the next segment must begin: the first delimiter is optional. */
  function SkipDelimiter(path: seq<byte>, i: nat, d: byte): Skip
    requires i < |path|
  {
    if i == 0 then From(if path[0] == d then 1 else 0)
    else if path[i] != d then Stop
    else From(i + 1)
  }

  /** Options os against the path from i on; n is the number of the first option. */
  predicate CompareFrom(os: seq<CoapOption>, n: uint16, path: seq<byte>, i: nat, d: byte, signedChar: bool)
    requires i <= |path|
    decreases os
  {
    if i < |path| && os != [] && os[0].number == n then
      match SkipDelimiter(path, i, d)
      case Stop => false
      case From(j) =>
        && SegmentAt(SegmentOf(os[0]), path, j, d, signedChar)
        && j + |SegmentOf(os[0])| <= |path|
        && CompareFrom(os[1..], n, path, j + |SegmentOf(os[0])|, d, signedChar)
    else
      i == |path| && !(|os| >= 2 && os[1].number == n)
  }

  predicate CompareToPath(os: seq<CoapOption>, path: seq<byte>, d: byte, signedChar: bool)
    requires os != []
  {
    CompareFrom(os, os[0].number, path, 0, d, signedChar)
  }
}
