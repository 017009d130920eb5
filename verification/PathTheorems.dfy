/** What the path comparison decides. */
module PathTheorems {
  import opened Bytes
  import opened Options
  import opened Paths

  /** Where plain char is signed, only bytes below 0x80 ever compare equal. */
  predicate Readable(segments: seq<seq<byte>>, signedChar: bool) {
    signedChar ==> forall k :: 0 <= k < |segments| ==> Ascii(segments[k])
  }

  predicate Ascii(s: seq<byte>) {
    forall k :: 0 <= k < |s| ==> s[k] < 0x80
  }

  /** A segment that can compare equal at all: no delimiter inside, readable bytes only. */
  predicate Legible(s: seq<byte>, d: byte, signedChar: bool) {
    d !in s && (signedChar ==> Ascii(s))
  }

  predicate AllLegible(segments: seq<seq<byte>>, d: byte, signedChar: bool) {
    forall k :: 0 <= k < |segments| ==> Legible(segments[k], d, signedChar)
  }

  lemma LegibleIffReadable(segments: seq<seq<byte>>, d: byte, signedChar: bool)
    requires DelimiterFree(segments, d)
    ensures AllLegible(segments, d, signedChar) <==> Readable(segments, signedChar)
  {
    hide Ascii;
  }

  function ButLast(segments: seq<seq<byte>>): seq<seq<byte>>
    requires segments != []
  {
    segments[..|segments| - 1]
  }

  lemma {:induction false} SegmentAtIff(segment: seq<byte>, path: seq<byte>, i: nat, d: byte, signedChar: bool)
    requires i <= |path|
    ensures SegmentAt(segment, path, i, d, signedChar) <==>
            && i + |segment| <= |path|
            && path[i..i + |segment|] == segment
            && Legible(segment, d, signedChar)
    decreases segment
  {
    if segment == [] || i == |path| {
    } else {
      var rest := segment[1..];
      SegmentAtIff(rest, path, i + 1, d, signedChar);
      assert segment == [segment[0]] + rest;
      assert d in segment <==> d == segment[0] || d in rest;
      assert Ascii(segment) <==> segment[0] < 0x80 && Ascii(rest) by {
        assert forall k :: 1 <= k < |segment| ==> segment[k] == rest[k - 1];
        assert forall k :: 0 <= k < |rest| ==> rest[k] == segment[k + 1];
      }
      if i + |segment| <= |path| {
        assert path[i..i + |segment|] == [path[i]] + path[i + 1..i + 1 + |rest|];
      }
    }
  }

  /** q is the delimited segments, all of them if that is allowed, or all but the last. */
  predicate TailMatches(q: seq<byte>, segments: seq<seq<byte>>, d: byte, signedChar: bool, whole: bool) {
    || (whole && q == Tail(segments, d) && AllLegible(segments, d, signedChar))
    || (segments != [] && q == Tail(ButLast(segments), d) && AllLegible(ButLast(segments), d, signedChar))
  }

  lemma TailCons(s: seq<byte>, segments: seq<seq<byte>>, d: byte)
    ensures Tail([s] + segments, d) == [d] + s + Tail(segments, d)
    ensures segments != [] ==> ButLast([s] + segments) == [s] + ButLast(segments)
    ensures ButLast([s]) == []
  {
  }

  lemma LegibleCons(s: seq<byte>, segments: seq<seq<byte>>, d: byte, signedChar: bool)
    ensures AllLegible([s] + segments, d, signedChar) <==> Legible(s, d, signedChar) && AllLegible(segments, d, signedChar)
  {
    hide Legible;
    var all := [s] + segments;
    assert all[0] == s;
    assert forall k :: 1 <= k < |all| ==> all[k] == segments[k - 1];
    assert forall k :: 0 <= k < |segments| ==> segments[k] == all[k + 1];
  }

  lemma SplitOff(q: seq<byte>, s: seq<byte>, t: seq<byte>)
    ensures q == s + t <==> |s| <= |q| && q[..|s|] == s && q[|s|..] == t
  {
  }

  /** Peeling one segment off the front. */
  lemma TailMatchesCons(q: seq<byte>, s: seq<byte>, segments: seq<seq<byte>>, d: byte, signedChar: bool, whole: bool)
    requires q != [] && q[0] == d
    ensures TailMatches(q, [s] + segments, d, signedChar, whole) <==>
            && |s| <= |q[1..]| && q[1..][..|s|] == s
            && Legible(s, d, signedChar)
            && TailMatches(q[1..][|s|..], segments, d, signedChar, whole)
  {
    hide AllLegible, Legible;
    TailCons(s, segments, d);
    LegibleCons(s, segments, d, signedChar);
    assert q == [d] + q[1..];
    PeelTail(q, s, Tail(segments, d), d);
    if segments != [] {
      TailCons(s, ButLast(segments), d);
      LegibleCons(s, ButLast(segments), d, signedChar);
      PeelTail(q, s, Tail(ButLast(segments), d), d);
    } else {
      assert [s] + segments == [s];
    }
  }

  lemma PeelTail(q: seq<byte>, s: seq<byte>, t: seq<byte>, d: byte)
    requires q != [] && q[0] == d
    ensures q == [d] + s + t <==> |s| <= |q[1..]| && q[1..][..|s|] == s && q[1..][|s|..] == t
  {
  }

  lemma CompareStep(os: seq<CoapOption>, n: uint16, path: seq<byte>, i: nat, d: byte, signedChar: bool)
    requires 1 <= i < |path| && path[i] == d
    requires os != [] && os[0].number == n
    ensures var s := SegmentOf(os[0]);
            CompareFrom(os, n, path, i, d, signedChar) <==>
            && i + 1 + |s| <= |path|
            && path[i + 1..i + 1 + |s|] == s
            && Legible(s, d, signedChar)
            && CompareFrom(os[1..], n, path, i + 1 + |s|, d, signedChar)
  {
    hide Legible, SegmentAt;
    SegmentAtIff(SegmentOf(os[0]), path, i + 1, d, signedChar);
  }

  lemma SliceTwice(path: seq<byte>, i: nat, k: nat)
    requires i < |path|
    ensures |path[i..][1..]| == |path| - i - 1
    ensures i + 1 + k <= |path| ==>
              path[i..][1..][..k] == path[i + 1..i + 1 + k] && path[i..][1..][k..] == path[i + 1 + k..]
  {
  }

  ghost predicate RunThenRest(run: seq<CoapOption>, rest: seq<CoapOption>, n: uint16) {
    && (forall k :: 0 <= k < |run| ==> run[k].number == n)
    && (rest != [] ==> rest[0].number != n)
  }

  /** The test after the walk looks at the option after the next. */
  predicate Resumes(rest: seq<CoapOption>, n: uint16) {
    |rest| >= 2 && rest[1].number == n
  }

  /** The walk past the first segment: it accepts the rest of the run, unless the number comes
      up again in the second place behind it, or the rest of the run without its last segment. */
  lemma {:induction false} CompareTail(run: seq<CoapOption>, rest: seq<CoapOption>, n: uint16,
                                       path: seq<byte>, i: nat, d: byte, signedChar: bool)
    requires 1 <= i <= |path|
    requires RunThenRest(run, rest, n)
    ensures CompareFrom(run + rest, n, path, i, d, signedChar) <==>
            TailMatches(path[i..], SegmentsOf(run), d, signedChar, !Resumes(rest, n))
    decreases run
  {
    hide Legible, TailMatches, CompareFrom, SegmentsOf, SegmentOf, Resumes;
    var whole := !Resumes(rest, n);
    if run == [] {
      assert run + rest == rest && SegmentsOf(run) == [] by {
        SegmentsOfAt(run, 0);
      }
      CompareRestOnly(rest, n, path, i, d, signedChar);
      TailMatchesNothing(path[i..], d, signedChar, whole);
    } else if i == |path| {
      CompareEnds(run + rest, n, path, d, signedChar);
      CompareAtEnd(run, rest, n, d, signedChar, whole);
      assert path[i..] == [];
    } else if path[i] != d {
      CompareStops(run + rest, n, path, i, d, signedChar);
      TailMatchesOther(path[i..], SegmentsOf(run), d, signedChar, whole);
    } else {
      var s := SegmentOf(run[0]);
      SegmentsOfCons(run);
      assert (run + rest)[1..] == run[1..] + rest;
      CompareStep(run + rest, n, path, i, d, signedChar);
      TailMatchesCons(path[i..], s, SegmentsOf(run[1..]), d, signedChar, whole);
      SliceTwice(path, i, |s|);
      if i + 1 + |s| <= |path| {
        CompareTail(run[1..], rest, n, path, i + 1 + |s|, d, signedChar);
      }
    }
  }

  lemma SegmentsOfCons(os: seq<CoapOption>)
    requires os != []
    ensures SegmentsOf(os) == [SegmentOf(os[0])] + SegmentsOf(os[1..])
  {
  }

  lemma CompareRestOnly(rest: seq<CoapOption>, n: uint16, path: seq<byte>, i: nat, d: byte, signedChar: bool)
    requires i <= |path| && (rest != [] ==> rest[0].number != n)
    ensures CompareFrom(rest, n, path, i, d, signedChar) <==> i == |path| && !Resumes(rest, n)
  {
  }

  lemma CompareEnds(os: seq<CoapOption>, n: uint16, path: seq<byte>, d: byte, signedChar: bool)
    ensures CompareFrom(os, n, path, |path|, d, signedChar) <==> !(|os| >= 2 && os[1].number == n)
  {
  }

  lemma CompareStops(os: seq<CoapOption>, n: uint16, path: seq<byte>, i: nat, d: byte, signedChar: bool)
    requires 0 < i < |path| && path[i] != d && os != [] && os[0].number == n
    ensures !CompareFrom(os, n, path, i, d, signedChar)
  {
  }

  lemma TailMatchesNothing(q: seq<byte>, d: byte, signedChar: bool, whole: bool)
    ensures TailMatches(q, [], d, signedChar, whole) <==> whole && q == []
  {
  }

  lemma TailMatchesOther(q: seq<byte>, segments: seq<seq<byte>>, d: byte, signedChar: bool, whole: bool)
    requires q != [] && q[0] != d
    ensures !TailMatches(q, segments, d, signedChar, whole)
  {
  }

  lemma CompareAtEnd(run: seq<CoapOption>, rest: seq<CoapOption>, n: uint16, d: byte, signedChar: bool, whole: bool)
    requires run != [] && RunThenRest(run, rest, n)
    ensures !(|run + rest| >= 2 && (run + rest)[1].number == n) <==>
            TailMatches([], SegmentsOf(run), d, signedChar, whole)
  {
  }

  lemma {:induction false} SegmentsOfAt(os: seq<CoapOption>, k: nat)
    ensures |SegmentsOf(os)| == |os|
    ensures k < |os| ==> SegmentsOf(os)[k] == SegmentOf(os[k])
  {
    if os == [] {
    } else {
      SegmentsOfAt(os[1..], if k > 0 then k - 1 else 0);
    }
  }

  /** The options at the front that have the given number. */
  function RunOf(os: seq<CoapOption>, n: uint16): (r: seq<CoapOption>)
    ensures r <= os
  {
    if os != [] && os[0].number == n then [os[0]] + RunOf(os[1..], n) else []
  }

  function RestOf(os: seq<CoapOption>, n: uint16): (r: seq<CoapOption>)
    ensures os == RunOf(os, n) + r
  {
    os[|RunOf(os, n)|..]
  }

  lemma {:induction false} RunAndRest(os: seq<CoapOption>, n: uint16)
    ensures RunThenRest(RunOf(os, n), RestOf(os, n), n)
  {
    if os == [] || os[0].number != n {
      assert RunOf(os, n) == [] && RestOf(os, n) == os;
    } else {
      RunAndRest(os[1..], n);
      assert RunOf(os, n) == [os[0]] + RunOf(os[1..], n);
      assert RestOf(os, n) == RestOf(os[1..], n);
    }
  }

  /** The run of a list that begins with its number. */
  lemma RunOfCons(os: seq<CoapOption>, n: uint16)
    requires os != [] && os[0].number == n
    ensures RunOf(os, n) == [os[0]] + RunOf(os[1..], n) && RestOf(os, n) == RestOf(os[1..], n)
    ensures RunOf(os[1..], n) == [] <==> os[1..] == [] || os[1].number != n
  {
  }

  /** On a sorted list, the run holds all options of the number, and it never comes up again. */
  lemma RunOfSorted(os: seq<CoapOption>)
    requires Sorted(os) && os != []
    ensures var n := os[0].number;
            RunOf(os, n) == WithNumber(os, n) && !Resumes(RestOf(os, n), n)
  {
    hide Sorted, RunOf, WithNumber;
    var n := os[0].number;
    var run, rest := RunOf(os, n), RestOf(os, n);
    RunAndRest(os, n);
    SortedConcat(run, rest);
    RestIsAbove(os, run, rest);
    WithNumberConcat(run, rest, n);
    WithNumberAll(run, n);
    WithNumberEmpty(rest, n);
  }

  lemma RestIsAbove(os: seq<CoapOption>, run: seq<CoapOption>, rest: seq<CoapOption>)
    requires Sorted(os) && os != [] && os == run + rest && (rest != [] ==> rest[0].number != os[0].number)
    ensures forall k :: 0 <= k < |rest| ==> rest[k].number > os[0].number
  {
    forall k | 0 <= k < |rest| ensures rest[k].number > os[0].number {
      assert rest[0] == os[|run|] && rest[k] == os[|run| + k];
    }
  }

  /** The path spells all the segments, if that is allowed, or all but the last. */
  predicate JoinMatches(p: seq<byte>, segments: seq<seq<byte>>, d: byte, signedChar: bool, whole: bool) {
    || (whole && p == Join(segments, d) && AllLegible(segments, d, signedChar))
    || (|segments| >= 2 && p == Join(ButLast(segments), d) && AllLegible(ButLast(segments), d, signedChar))
  }

  lemma JoinMatchesCons(p: seq<byte>, s: seq<byte>, segments: seq<seq<byte>>, d: byte, signedChar: bool, whole: bool)
    ensures JoinMatches(p, [s] + segments, d, signedChar, whole) <==>
            && |s| <= |p| && p[..|s|] == s
            && Legible(s, d, signedChar)
            && TailMatches(p[|s|..], segments, d, signedChar, whole)
  {
    hide AllLegible, Legible;
    assert ([s] + segments)[1..] == segments;
    SplitOff(p, s, Tail(segments, d));
    LegibleCons(s, segments, d, signedChar);
    if segments != [] {
      TailCons(s, segments, d);
      assert ([s] + ButLast(segments))[1..] == ButLast(segments);
      SplitOff(p, s, Tail(ButLast(segments), d));
      LegibleCons(s, ButLast(segments), d, signedChar);
    }
  }

  /** The comparison once a first segment is there to be compared. */
  lemma CompareFirst(os: seq<CoapOption>, path: seq<byte>, d: byte, signedChar: bool)
    requires os != [] && path != []
    requires path[0] == d || SegmentOf(os[0]) != []
    ensures var n := os[0].number;
            CompareToPath(os, path, d, signedChar) <==>
            JoinMatches(DropDelimiter(path, d), SegmentsOf(RunOf(os, n)), d, signedChar, !Resumes(RestOf(os, n), n))
  {
    hide Legible, TailMatches, JoinMatches, SegmentAt, RunThenRest, RunOf, Resumes;
    var n := os[0].number;
    var run, rest := RunOf(os, n), RestOf(os, n);
    RunOfCons(os, n);
    RunAndRest(os, n);
    var s, j := SegmentOf(os[0]), if path[0] == d then 1 else 0;
    RunTail(run, rest, n);
    SegmentAtIff(s, path, j, d, signedChar);
    assert SegmentsOf(run) == [s] + SegmentsOf(run[1..]);
    JoinMatchesCons(path[j..], s, SegmentsOf(run[1..]), d, signedChar, !Resumes(rest, n));
    assert os[1..] == run[1..] + rest;
    if j + |s| <= |path| {
      assert path[j..][..|s|] == path[j..j + |s|] && path[j..][|s|..] == path[j + |s|..];
      CompareTail(run[1..], rest, n, path, j + |s|, d, signedChar);
    }
  }

  lemma RunTail(run: seq<CoapOption>, rest: seq<CoapOption>, n: uint16)
    requires run != [] && RunThenRest(run, rest, n)
    ensures RunThenRest(run[1..], rest, n)
  {
  }

  /** As long as nothing of the path is consumed, empty segments leave no trace. */
  function DropEmpty(segments: seq<seq<byte>>): (r: seq<seq<byte>>) {
    if segments != [] && segments[0] == [] then DropEmpty(segments[1..]) else segments
  }

  /** The segments a path is compared to: without a leading delimiter, none of its bytes stands
      for the empty segments in front, and they are passed over. */
  function Compared(path: seq<byte>, segments: seq<seq<byte>>, d: byte): (r: seq<seq<byte>>) {
    if path != [] && path[0] == d then segments else DropEmpty(segments)
  }

  /** An empty first segment, nothing consumed yet: the walk goes on to the next option. */
  lemma SkipEmpty(os: seq<CoapOption>, path: seq<byte>, d: byte, signedChar: bool)
    requires os != [] && path != [] && path[0] != d && SegmentOf(os[0]) == []
    ensures var n := os[0].number;
            && DropEmpty(SegmentsOf(RunOf(os, n))) == DropEmpty(SegmentsOf(RunOf(os[1..], n)))
            && RestOf(os, n) == RestOf(os[1..], n)
            && (RunOf(os[1..], n) == [] ==> !CompareToPath(os, path, d, signedChar))
            && (RunOf(os[1..], n) != [] ==>
                  && os[1..] != [] && os[1].number == n
                  && CompareToPath(os, path, d, signedChar) == CompareToPath(os[1..], path, d, signedChar))
  {
    hide CompareFrom, CompareToPath, SegmentOf, SegmentsOf, RunOf;
    var n := os[0].number;
    RunOfCons(os, n);
    SegmentsOfCons(RunOf(os, n));
    var rest := RunOf(os[1..], n);
    assert RunOf(os, n)[1..] == rest;
    assert ([[]] + SegmentsOf(rest))[1..] == SegmentsOf(rest);
    SkipStep(os, path, d, signedChar);
  }

  lemma SkipStep(os: seq<CoapOption>, path: seq<byte>, d: byte, signedChar: bool)
    requires os != [] && path != [] && path[0] != d && SegmentOf(os[0]) == []
    ensures os[1..] == [] || os[1].number != os[0].number ==> !CompareToPath(os, path, d, signedChar)
    ensures os[1..] != [] && os[1].number == os[0].number ==>
              CompareToPath(os, path, d, signedChar) == CompareToPath(os[1..], path, d, signedChar)
  {
    assert CompareToPath(os, path, d, signedChar) == CompareFrom(os[1..], os[0].number, path, 0, d, signedChar);
  }

  /** The exact meaning of the comparison, on any list: the path spells the segments it is
      compared to, unless their number comes up again in the second place behind them, or all but
      the last of them, whose absence goes unnoticed. Only the segments it spells need be free of
      the delimiter. */
  lemma {:induction false} CompareExact(os: seq<CoapOption>, path: seq<byte>, d: byte, signedChar: bool)
    requires os != [] && path != []
    ensures var n := os[0].number;
            CompareToPath(os, path, d, signedChar) <==>
            JoinMatches(DropDelimiter(path, d), Compared(path, SegmentsOf(RunOf(os, n)), d), d, signedChar,
                        !Resumes(RestOf(os, n), n))
    decreases os
  {
    hide CompareToPath, SegmentOf, AllLegible, SegmentsOf, RunOf, Resumes;
    var n := os[0].number;
    RunOfCons(os, n);
    SegmentsOfCons(RunOf(os, n));
    if path[0] == d || SegmentOf(os[0]) != [] {
      CompareFirst(os, path, d, signedChar);
      assert Compared(path, SegmentsOf(RunOf(os, n)), d) == SegmentsOf(RunOf(os, n));
    } else {
      SkipEmpty(os, path, d, signedChar);
      var run := RunOf(os[1..], n);
      if run == [] {
        SegmentsOfAt(run, 0);
        assert SegmentsOf(run) == [];
      } else {
        CompareExact(os[1..], path, d, signedChar);
      }
    }
  }

  // ---------- what the documentation promises ----------

  /** A non-empty path compares equal exactly if it spells the options of the run. */
  ghost predicate MeetsPromise(os: seq<CoapOption>, d: byte, signedChar: bool)
    requires os != []
  {
    forall path: seq<byte> :: path != [] ==>
      (CompareToPath(os, path, d, signedChar) <==>
       DropDelimiter(path, d) == Join(SegmentsOf(RunOf(os, os[0].number)), d))
  }

  /** The promise is kept exactly for a single segment that can compare equal at all and whose
      number does not come up again in the second place behind it. */
  lemma PromiseIffOneSegment(os: seq<CoapOption>, d: byte, signedChar: bool)
    requires os != []
    ensures var n := os[0].number;
            MeetsPromise(os, d, signedChar) <==>
            && |RunOf(os, n)| == 1 && AllLegible(SegmentsOf(RunOf(os, n)), d, signedChar)
            && !Resumes(RestOf(os, n), n)
  {
    hide MeetsPromise, AllLegible, SegmentsOf, RunOf, Resumes;
    var n := os[0].number;
    RunOfCons(os, n);
    SegmentsOfAt(RunOf(os, n), 0);
    if !AllLegible(SegmentsOf(RunOf(os, n)), d, signedChar) || Resumes(RestOf(os, n), n) {
      SpelledButRefused(os, d, signedChar);
    } else if |RunOf(os, n)| == 1 {
      OneIsSpelled(os, d, signedChar);
    } else {
      AcceptedButNotSpelled(os, d, signedChar);
    }
  }

  lemma SpelledButRefused(os: seq<CoapOption>, d: byte, signedChar: bool)
    requires os != []
    requires var n := os[0].number;
             !AllLegible(SegmentsOf(RunOf(os, n)), d, signedChar) || Resumes(RestOf(os, n), n)
    ensures !MeetsPromise(os, d, signedChar)
  {
    hide CompareToPath, AllLegible, SegmentsOf, RunOf, Join, Resumes;
    var segments := SegmentsOf(RunOf(os, os[0].number));
    var path := [d] + Join(segments, d);
    assert DropDelimiter(path, d) == Join(segments, d);
    CompareExact(os, path, d, signedChar);
    if |segments| >= 2 {
      JoinLength(segments, d);
    }
    assert !CompareToPath(os, path, d, signedChar);
  }

  lemma AcceptedButNotSpelled(os: seq<CoapOption>, d: byte, signedChar: bool)
    requires os != []
    requires var segments := SegmentsOf(RunOf(os, os[0].number));
             |segments| >= 2 && AllLegible(segments, d, signedChar)
    ensures !MeetsPromise(os, d, signedChar)
  {
    hide CompareToPath, AllLegible, SegmentsOf, RunOf, Join, Resumes;
    var segments := SegmentsOf(RunOf(os, os[0].number));
    var path := [d] + Join(ButLast(segments), d);
    assert DropDelimiter(path, d) == Join(ButLast(segments), d);
    CompareExact(os, path, d, signedChar);
    LegiblePrefix(segments, d, signedChar);
    JoinLength(segments, d);
    assert CompareToPath(os, path, d, signedChar);
  }

  lemma OneIsSpelled(os: seq<CoapOption>, d: byte, signedChar: bool)
    requires os != []
    requires var segments := SegmentsOf(RunOf(os, os[0].number));
             |segments| == 1 && AllLegible(segments, d, signedChar)
    requires !Resumes(RestOf(os, os[0].number), os[0].number)
    ensures MeetsPromise(os, d, signedChar)
  {
    hide CompareToPath, AllLegible, SegmentsOf, RunOf, Join, Resumes;
    var segments := SegmentsOf(RunOf(os, os[0].number));
    forall path: seq<byte> | path != []
      ensures CompareToPath(os, path, d, signedChar) <==> DropDelimiter(path, d) == Join(segments, d)
    {
      CompareExact(os, path, d, signedChar);
      OneSegment(path, segments, d);
    }
  }

  lemma OneSegment(path: seq<byte>, segments: seq<seq<byte>>, d: byte)
    requires path != [] && |segments| == 1
    ensures Join(segments, d) == segments[0] && Join([], d) == []
    ensures Compared(path, segments, d) == if path[0] != d && segments[0] == [] then [] else segments
  {
    assert segments[1..] == [] && DropEmpty(segments[1..]) == [];
    if segments[0] == [] {
      assert DropEmpty(segments) == DropEmpty(segments[1..]);
    }
  }

  lemma LegiblePrefix(segments: seq<seq<byte>>, d: byte, signedChar: bool)
    requires segments != [] && AllLegible(segments, d, signedChar)
    ensures AllLegible(ButLast(segments), d, signedChar)
  {
    hide Legible;
  }

  /** An empty path is equal to any single segment. */
  lemma CompareEmptyPath(os: seq<CoapOption>, d: byte, signedChar: bool)
    requires os != []
    ensures CompareToPath(os, [], d, signedChar) <==> |RunOf(os, os[0].number)| == 1
  {
    hide RunOf;
    RunOfCons(os, os[0].number);
  }

  /** The documentation promises a match; the comparison also accepts a proper prefix. */
  lemma CompareAcceptsShorterPath(a: byte, b: byte, d: byte, signedChar: bool)
    requires 0 < a < 0x80 && b < 0x80 && d < 0x80 && a != d && b != d
    ensures CompareToPath([CoapOption(URI_PATH, Buffer([a])), CoapOption(URI_PATH, Buffer([b]))], [a], d, signedChar)
  {
  }

  /** It also passes over empty segments in front of a path without leading delimiter. */
  lemma CompareSkipsEmptySegment(a: byte, d: byte, signedChar: bool)
    requires 0 < a < 0x80 && d < 0x80 && a != d
    ensures var os := [CoapOption(URI_PATH, Buffer([])), CoapOption(URI_PATH, Buffer([a]))];
            && CompareToPath(os, [a], d, signedChar)
            && SegmentsOf(RunOf(os, URI_PATH)) == [[], [a]]
            && Join([[], [a]], d) == [d, a] != [a] && Join([[]], d) == [] != [a]
  {
    var os := [CoapOption(URI_PATH, Buffer([])), CoapOption(URI_PATH, Buffer([a]))];
    assert os[1..] == [os[1]] && os[1..][1..] == [];
    RunOfCons(os, URI_PATH);
    RunOfCons(os[1..], URI_PATH);
    SegmentsOfCons(os);
    SegmentsOfCons(os[1..]);
    assert SegmentsOf([]) == [];
    JoinConsumes([[a]], a, d);
    assert [[]] + [[a]] == [[], [a]] && Join([[a]], d) == [a];
    assert SegmentAt([a], [a], 0, d, signedChar);
  }

  /** And on a list out of order it can refuse the path that the options spell. */
  lemma CompareRefusesSpelledPath(a: byte, d: byte, signedChar: bool)
    requires 0 < a && a != d
    ensures var os := [CoapOption(URI_PATH, Buffer([a])), CoapOption(OBSERVE, Integer(0)), CoapOption(URI_PATH, Buffer([a]))];
            && !CompareToPath(os, [a], d, signedChar)
            && SegmentsOf(RunOf(os, URI_PATH)) == [[a]] && Join([[a]], d) == [a]
  {
    var os := [CoapOption(URI_PATH, Buffer([a])), CoapOption(OBSERVE, Integer(0)), CoapOption(URI_PATH, Buffer([a]))];
    RunOfCons(os, URI_PATH);
    assert os[1..][0] == os[1] && os[1..][1] == os[2];
    assert RunOf(os[1..], URI_PATH) == [];
    assert SegmentsOf([os[0]]) == [[a]] + SegmentsOf([]);
    assert [[a]][1..] == [];
    assert RunOf(os, URI_PATH) == [os[0]] && RestOf(os, URI_PATH) == os[1..];
    CompareFirst(os, [a], d, signedChar);
  }

  lemma {:induction false} JoinLength(segments: seq<seq<byte>>, d: byte)
    requires |segments| >= 2
    ensures |Join(ButLast(segments), d)| < |Join(segments, d)|
  {
    TailLength(segments[1..], d);
    assert ButLast(segments)[1..] == ButLast(segments[1..]);
  }

  lemma {:induction false} TailLength(segments: seq<seq<byte>>, d: byte)
    requires segments != []
    ensures |Tail(ButLast(segments), d)| < |Tail(segments, d)|
  {
    if |segments| <= 1 {
    } else {
      TailLength(segments[1..], d);
      assert ButLast(segments)[1..] == ButLast(segments[1..]);
    }
  }

  /** Options made from a path compare equal to that path, whatever follows them in the list;
      where plain char is signed, exactly when the path has no byte above 0x7F. */
  lemma CompareAcceptsItself(os: seq<CoapOption>, path: seq<byte>, d: byte, signedChar: bool)
    requires Sorted(os) && os != []
    requires WithNumber(os, os[0].number) == OptionsFor(os[0].number, Split(DropDelimiter(path, d), d))
    ensures CompareToPath(os, path, d, signedChar) <==> Readable(Split(DropDelimiter(path, d), d), signedChar)
  {
    var p := DropDelimiter(path, d);
    var segments := Split(p, d);
    JoinSplit(p, d);
    SplitIsDelimiterFree(p, d);
    OptionsForSegments(os[0].number, segments);
    RunOfSorted(os);
    if path == [] {
      CompareEmptyPath(os, d, signedChar);
      assert segments == [[]];
    } else {
      hide CompareToPath, Ascii, AllLegible, RunOf, Resumes;
      assert SegmentOf(os[0]) == segments[0];
      CompareFirst(os, path, d, signedChar);
      LegibleIffReadable(segments, d, signedChar);
      if |segments| >= 2 {
        JoinLength(segments, d);
      }
    }
  }
}
