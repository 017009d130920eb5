/** What holds of every option list the parser accepts, and of every list the serializer
    writes, beyond the round trip. */
module OptionTheorems {
  import opened Bytes
  import opened Options
  import opened OptionCodec

  // ---------- where the options stand ----------

  /** Headers and values fill the bytes from lo to end without gap or overlap, in list order. */
  ghost predicate Tiles(fields: seq<Field>, lo: nat, end: nat)
    decreases fields
  {
    if fields == [] then lo == end
    else
      && fields[0].header == lo
      && lo < fields[0].start
      && Tiles(fields[1..], fields[0].start + fields[0].length, end)
  }

  /** The option found at a field carries the bytes of its value slice. */
  ghost predicate Reads(b: seq<byte>, f: Field) {
    && WellFormed(f.option)
    && f.start + f.length <= |b|
    && match f.option.content
       case Integer(v) => f.length <= 4 && v == BigEndian(b[f.start..f.start + f.length])
       case Buffer(bytes) => bytes == b[f.start..f.start + f.length]
  }

  lemma StepReads(b: seq<byte>, i: nat, prev: uint16)
    requires i < |b| && ParseStep(b, i, prev).Accept?
    ensures Reads(b, ParseStep(b, i, prev).field)
  {
  }

  lemma {:induction false} ParseLayout(b: seq<byte>, i: nat, prev: uint16)
    requires i <= |b|
    ensures var r := ParseFrom(b, i, prev);
            r.Parsed? ==>
              && Tiles(r.fields, i, r.end)
              && (forall k :: 0 <= k < |r.fields| ==> Reads(b, r.fields[k]))
              && OptionsEndAt(b, r.end)
    decreases |b| - i
  {
    hide ParseStep, Reads;
    if i == |b| || b[i] == PAYLOAD_MARKER || ParseStep(b, i, prev).Reject? {
    } else {
      var f := ParseStep(b, i, prev).field;
      ParseLayout(b, f.start + f.length, f.option.number);
      ParsePrepend(b, i, prev, f);
      StepReads(b, i, prev);
    }
  }

  lemma {:induction false} TilesAreDisjoint(fields: seq<Field>, lo: nat, end: nat, p: nat, q: nat)
    requires Tiles(fields, lo, end) && p < q < |fields|
    ensures lo <= fields[p].start <= fields[p].start + fields[p].length <= fields[q].header < fields[q].start
    ensures fields[q].start + fields[q].length <= end
    decreases fields
  {
    if p == 0 {
      TilesFrom(fields[1..], fields[0].start + fields[0].length, end, q - 1);
    } else {
      TilesAreDisjoint(fields[1..], fields[0].start + fields[0].length, end, p - 1, q - 1);
    }
  }

  lemma {:induction false} TilesFrom(fields: seq<Field>, lo: nat, end: nat, q: nat)
    requires Tiles(fields, lo, end) && q < |fields|
    ensures lo <= fields[q].header < fields[q].start
    ensures fields[q].start + fields[q].length <= end
    decreases fields
  {
    if q > 0 {
      TilesFrom(fields[1..], fields[0].start + fields[0].length, end, q - 1);
    } else {
      TilesGrow(fields[1..], fields[0].start + fields[0].length, end);
    }
  }

  lemma {:induction false} TilesGrow(fields: seq<Field>, lo: nat, end: nat)
    requires Tiles(fields, lo, end)
    ensures lo + |fields| <= end
    decreases fields
  {
    if fields == [] {
    } else {
      TilesGrow(fields[1..], fields[0].start + fields[0].length, end);
    }
  }

  // ---------- canonical form ----------

  function ExtensionSize(nibble: byte): nat {
    if nibble == EXTEND_1 then 1 else if nibble == EXTEND_2 then 2 else 0
  }

  /** A two-byte extension whose value does not fit in 16 bits. */
  predicate Wraps(b: seq<byte>, nibble: byte, i: nat) {
    nibble == EXTEND_2 && i + 2 <= |b| && RawExtension(b, i) >= 0x1_0000
  }

  /** Neither extension wraps and an integer value has no leading zero byte. */
  predicate Canonical(b: seq<byte>, f: Field)
    requires f.header < |b| && f.start + f.length <= |b|
  {
    var h := b[f.header];
    && !Wraps(b, h / 0x10, f.header + 1)
    && !Wraps(b, h % 0x10, f.header + 1 + ExtensionSize(h / 0x10))
    && (f.option.content.Integer? ==> NoLeadingZero(b[f.start..f.start + f.length]))
  }

  /** One extended field: re-encoding never grows it, and reproduces it unless it wrapped. */
  lemma ExtensionCanonical(b: seq<byte>, nibble: byte, i: nat)
    requires ReadExtended(b, nibble, i).Extended? && nibble < 0x10 && i <= |b|
    ensures var r := ReadExtended(b, nibble, i);
            && r.next == i + ExtensionSize(nibble)
            && (!Wraps(b, nibble, i) ==> Nibble(r.value) == nibble && At(b, i, Extension(r.value))
                                         && |Extension(r.value)| == ExtensionSize(nibble))
            && (Wraps(b, nibble, i) ==> |Extension(r.value)| < ExtensionSize(nibble))
  {
    hide Extension, At, Word;
    AtSlice(b, i, Extension(ReadExtended(b, nibble, i).value));
    if nibble == EXTEND_2 {
      LongExtension(b[i], b[i + 1]);
    } else {
      ShortValue(ReadExtended(b, nibble, i).value);
    }
  }

  lemma ShortValue(v: uint16)
    requires v < LIMIT_2
    ensures v < LIMIT_1 ==> Extension(v) == [] && Nibble(v) == v
    ensures v >= LIMIT_1 ==> Extension(v) == [v - LIMIT_1] && Nibble(v) == EXTEND_1
  {
  }

  lemma LongExtension(high: byte, low: byte)
    ensures var raw := LIMIT_2 + Word(high, low);
            && (raw < 0x1_0000 ==> Extension(raw) == [high, low] && Nibble(raw) == EXTEND_2)
            && (raw >= 0x1_0000 ==> |Extension(raw % 0x1_0000)| < 2)
  {
    var raw := LIMIT_2 + Word(high, low);
    if raw >= 0x1_0000 {
      assert raw % 0x1_0000 == raw - 0x1_0000 < LIMIT_2;
    }
  }

  lemma AtOne(b: seq<byte>, i: nat, x: byte)
    ensures At(b, i, [x]) <==> i < |b| && b[i] == x
  {
    assert At(b, i + 1, [x][1..]) <==> i + 1 <= |b|;
  }

  lemma HeadCanonical(b: seq<byte>, i: nat)
    requires i < |b| && ReadHead(b, i).Head?
    ensures var r := ReadHead(b, i);
            var wraps := Wraps(b, b[i] / 0x10, i + 1)
                         || Wraps(b, b[i] % 0x10, i + 1 + ExtensionSize(b[i] / 0x10));
            var e := EncodeHead(r.delta, r.length);
            && (!wraps ==> At(b, i, e) && i + |e| == r.start)
            && (wraps ==> i + |e| < r.start)
  {
    hide Extension, Nibble, At, Wraps, ReadExtended, ReadHead, ExtensionSize;
    var r := ReadHead(b, i);
    var hi, lo := b[i] / 0x10, b[i] % 0x10;
    HeadParts(b, i);
    ExtensionCanonical(b, hi, i + 1);
    ExtensionCanonical(b, lo, i + 1 + ExtensionSize(hi));
    SmallNibbles(r.delta, r.length);
    var header: seq<byte> := [0x10 * Nibble(r.delta) + Nibble(r.length)];
    AtConcat(b, i, header + Extension(r.delta), Extension(r.length));
    AtConcat(b, i, header, Extension(r.delta));
    AtOne(b, i, header[0]);
  }

  lemma HeadParts(b: seq<byte>, i: nat)
    requires i < |b| && ReadHead(b, i).Head?
    ensures var r, first := ReadHead(b, i), ReadExtended(b, b[i] / 0x10, i + 1);
            && first.Extended? && first.value == r.delta
            && ReadExtended(b, b[i] % 0x10, first.next) == Extended(r.length, r.start)
  {
    hide ReadExtended;
  }

  lemma SmallNibbles(v: uint16, w: uint16)
    ensures 0x10 * Nibble(v) + Nibble(w) < 0x100
  {
  }

  /** Re-encoding a value never grows it, and reproduces it unless it is an integer with
      leading zeros. */
  lemma ValueCanonical(b: seq<byte>, f: Field)
    requires Reads(b, f)
    ensures var value, again := b[f.start..f.start + f.length], ValueBytes(f.option);
            && (f.option.content.Integer? && !NoLeadingZero(value) ==> |again| < f.length < LIMIT_1)
            && ((f.option.content.Integer? ==> NoLeadingZero(value)) ==> again == value)
  {
    if f.option.content.Integer? {
      MinimalBytesOfBigEndian(b[f.start..f.start + f.length]);
    }
  }

  lemma StepHead(b: seq<byte>, i: nat, prev: uint16)
    requires i < |b| && ParseStep(b, i, prev).Accept?
    ensures ReadHead(b, i).Head?
    ensures var r, f := ReadHead(b, i), ParseStep(b, i, prev).field;
            f.header == i && r.start == f.start && r.length == f.length && Delta(prev, f.option.number) == r.delta
  {
    hide ReadHead;
  }

  lemma StepCanonical(b: seq<byte>, i: nat, prev: uint16)
    requires i < |b| && ParseStep(b, i, prev).Accept?
    ensures var f := ParseStep(b, i, prev).field;
            var e := EncodeOption(prev, f.option);
            && (Canonical(b, f) ==> At(b, i, e) && i + |e| == f.start + f.length)
            && (!Canonical(b, f) ==> i + |e| < f.start + f.length)
  {
    hide ReadHead, ParseStep, EncodeHead, Wraps, At, WellFormed, Reads, ValueBytes;
    var f := ParseStep(b, i, prev).field;
    var delta, again := Delta(prev, f.option.number), ValueBytes(f.option);
    StepHead(b, i, prev);
    StepReads(b, i, prev);
    HeadCanonical(b, i);
    ValueCanonical(b, f);
    if |again| < f.length < LIMIT_1 {
      ShortHead(delta, |again|, f.length);
    }
    if Canonical(b, f) {
      AtSlice(b, f.start, again);
      AtConcat(b, i, EncodeHead(delta, |again|), again);
    }
  }

  lemma ShortHead(delta: uint16, m: uint16, n: uint16)
    requires m < LIMIT_1 && n < LIMIT_1
    ensures |EncodeHead(delta, m)| == |EncodeHead(delta, n)|
  {
  }

  ghost predicate AllCanonical(b: seq<byte>, fields: seq<Field>) {
    forall k :: 0 <= k < |fields| ==>
      && fields[k].header < |b|
      && fields[k].start + fields[k].length <= |b|
      && Canonical(b, fields[k])
  }

  /** e is no longer than the bytes lo to hi of b, and is those bytes exactly if same. */
  ghost predicate ReEncodes(b: seq<byte>, lo: nat, hi: nat, e: seq<byte>, same: bool) {
    && lo + |e| <= hi <= |b|
    && (same ==> lo + |e| == hi && At(b, lo, e))
    && (!same ==> lo + |e| < hi)
  }

  lemma ReEncodesConcat(b: seq<byte>, lo: nat, mid: nat, hi: nat, e: seq<byte>, f: seq<byte>, same: bool, same': bool)
    requires ReEncodes(b, lo, mid, e, same) && ReEncodes(b, mid, hi, f, same')
    ensures ReEncodes(b, lo, hi, e + f, same && same')
  {
    AtConcat(b, lo, e, f);
  }

  /** What the parser accepts, serialized again: never longer than what was read, and the
      very same bytes exactly when every option was in canonical form. */
  lemma {:induction false} CanonicalForm(b: seq<byte>, i: nat, prev: uint16)
    requires i <= |b| && ParseFrom(b, i, prev).Parsed?
    ensures var r := ParseFrom(b, i, prev);
            && AllWellFormed(OptionsOf(r.fields))
            && ReEncodes(b, i, r.end, EncodeOptions(prev, OptionsOf(r.fields)), AllCanonical(b, r.fields))
    decreases |b| - i
  {
    hide ParseStep, ParseFrom, EncodeOption, Canonical, WellFormed, AllCanonical, At, AllWellFormed, ReEncodes;
    if i == |b| || b[i] == PAYLOAD_MARKER {
      NothingReEncodes(b, i, prev);
    } else {
      FirstField(b, i, prev);
      var f := ParseStep(b, i, prev).field;
      var next := f.start + f.length;
      var rest := ParseFrom(b, next, f.option.number);
      CanonicalForm(b, next, f.option.number);
      StepReEncodes(b, i, prev);
      CanonicalCons(b, f, rest.fields);
      EncodeCons(prev, f.option, OptionsOf(rest.fields));
      ReEncodesConcat(b, i, next, rest.end, EncodeOption(prev, f.option),
                      EncodeOptions(f.option.number, OptionsOf(rest.fields)),
                      Canonical(b, f), AllCanonical(b, rest.fields));
      ParsePrepend(b, i, prev, f);
    }
  }

  lemma NothingReEncodes(b: seq<byte>, i: nat, prev: uint16)
    requires OptionsEndAt(b, i)
    ensures ParseFrom(b, i, prev) == Parsed([], i) && AllWellFormed(OptionsOf([]))
    ensures ReEncodes(b, i, i, EncodeOptions(prev, OptionsOf([])), AllCanonical(b, []))
  {
  }

  /** Where options are parsed with success, the first one is accepted. */
  lemma FirstField(b: seq<byte>, i: nat, prev: uint16)
    requires i < |b| && b[i] != PAYLOAD_MARKER && ParseFrom(b, i, prev).Parsed?
    ensures ParseStep(b, i, prev).Accept?
    ensures var f := ParseStep(b, i, prev).field;
            && i < f.start && f.start + f.length <= |b| && WellFormed(f.option) && f.header == i
            && ParseFrom(b, f.start + f.length, f.option.number).Parsed?
  {
    hide ParseStep;
  }

  lemma StepReEncodes(b: seq<byte>, i: nat, prev: uint16)
    requires i < |b| && ParseStep(b, i, prev).Accept?
    ensures var f := ParseStep(b, i, prev).field;
            ReEncodes(b, i, f.start + f.length, EncodeOption(prev, f.option), Canonical(b, f))
  {
    hide ParseStep, EncodeOption, Canonical, WellFormed, At;
    StepCanonical(b, i, prev);
  }

  lemma CanonicalCons(b: seq<byte>, f: Field, fields: seq<Field>)
    requires f.header < |b| && f.start + f.length <= |b|
    ensures AllCanonical(b, [f] + fields) <==> Canonical(b, f) && AllCanonical(b, fields)
  {
    hide Canonical;
    var all := [f] + fields;
    assert all[0] == f;
    assert forall k :: 1 <= k < |all| ==> all[k] == fields[k - 1];
    assert forall k :: 0 <= k < |fields| ==> fields[k] == all[k + 1];
  }

  lemma EncodeCons(prev: uint16, o: CoapOption, os: seq<CoapOption>)
    requires WellFormed(o) && AllWellFormed(os)
    ensures AllWellFormed([o] + os)
    ensures EncodeOptions(prev, [o] + os) == EncodeOption(prev, o) + EncodeOptions(o.number, os)
  {
  }

  // ---------- order of decoded options ----------

  function DeltaOf(b: seq<byte>, f: Field): uint16 {
    if f.header < |b| && ReadHead(b, f.header).Head? then ReadHead(b, f.header).delta else 0
  }

  /** The sum of the deltas of a list of decoded options, not cut to 16 bits. */
  function DeltaSum(b: seq<byte>, fields: seq<Field>): nat
    decreases fields
  {
    if fields == [] then 0 else DeltaOf(b, fields[0]) + DeltaSum(b, fields[1..])
  }

  predicate SortedFrom(prev: uint16, os: seq<CoapOption>)
    decreases os
  {
    os == [] || (prev <= os[0].number && SortedFrom(os[0].number, os[1..]))
  }

  lemma {:induction false} SortedFromSorted(prev: uint16, os: seq<CoapOption>)
    ensures SortedFrom(prev, os) <==> Sorted(os) && (os != [] ==> prev <= os[0].number)
    decreases os
  {
    if os == [] {
    } else {
      SortedFromSorted(os[0].number, os[1..]);
      SortedConcat([os[0]], os[1..]);
      assert [os[0]] + os[1..] == os;
    }
  }

  /** The option number is kept in 16 bits, so decoded options are in order exactly when
      their deltas add up without leaving 16 bits. */
  lemma {:induction false} SortedUnlessNumbersWrap(b: seq<byte>, i: nat, prev: uint16)
    requires i <= |b| && ParseFrom(b, i, prev).Parsed?
    ensures var fields := ParseFrom(b, i, prev).fields;
            SortedFrom(prev, OptionsOf(fields)) <==> prev + DeltaSum(b, fields) < 0x1_0000
    decreases |b| - i
  {
    hide ParseStep, DeltaOf;
    if i == |b| || b[i] == PAYLOAD_MARKER {
      assert ParseFrom(b, i, prev).fields == [];
    } else {
      var f := ParseStep(b, i, prev).field;
      var next := f.start + f.length;
      var rest := ParseFrom(b, next, f.option.number).fields;
      SortedUnlessNumbersWrap(b, next, f.option.number);
      StepNumber(b, i, prev);
      SortedFromCons(prev, f.option, OptionsOf(rest), DeltaOf(b, f), DeltaSum(b, rest));
      ParsePrepend(b, i, prev, f);
      var all := ParseFrom(b, i, prev).fields;
      assert all[0] == f && all[1..] == rest;
      assert DeltaSum(b, all) == DeltaOf(b, f) + DeltaSum(b, rest);
    }
  }

  lemma SortedFromCons(prev: uint16, o: CoapOption, os: seq<CoapOption>, delta: uint16, sum: nat)
    requires o.number == (prev + delta) % 0x1_0000
    requires SortedFrom(o.number, os) <==> o.number + sum < 0x1_0000
    ensures SortedFrom(prev, [o] + os) <==> prev + (delta + sum) < 0x1_0000
  {
  }

  lemma StepNumber(b: seq<byte>, i: nat, prev: uint16)
    requires i < |b| && ParseStep(b, i, prev).Accept?
    ensures var f := ParseStep(b, i, prev).field;
            f.option.number == (prev + DeltaOf(b, f)) % 0x1_0000
  {
  }

  // ---------- truncation ----------

  /** How many options stand whole in the first k bytes of a serialized list. */
  function WholeOptions(prev: uint16, os: seq<CoapOption>, k: nat): (n: nat)
    requires AllWellFormed(os)
    ensures n <= |os|
    decreases os
  {
    if os == [] then 0
    else
      var size := |EncodeOption(prev, os[0])|;
      if size > k then 0 else 1 + WholeOptions(os[0].number, os[1..], k - size)
  }

  /** A buffer that stops inside an option is rejected as truncated. */
  lemma CutOption(b: seq<byte>, i: nat, prev: uint16, o: CoapOption, tail: seq<byte>)
    requires WellFormed(o) && i < |b|
    requires tail != [] && At(b + tail, i, EncodeOption(prev, o)) && i + |EncodeOption(prev, o)| == |b + tail|
    ensures b[i] != PAYLOAD_MARKER && ParseStep(b, i, prev) == Reject(REQUEST_ENTITY_TOO_LARGE)
  {
    hide EncodeOption, IsInteger, At, ValueBytes;
    ReadsOption(b + tail, i, prev, o);
    assert (b + tail)[i] == b[i];
    var whole := b + tail;
    CutExtension(b, tail, b[i] / 0x10, i + 1);
    match ReadExtended(b, b[i] / 0x10, i + 1)
    case Extended(_, j) => CutExtension(b, tail, b[i] % 0x10, j);
    case _ =>
  }

  lemma CutExtension(b: seq<byte>, tail: seq<byte>, nibble: byte, i: nat)
    requires i <= |b|
    requires ReadExtended(b + tail, nibble, i).Extended?
    ensures var r := ReadExtended(b, nibble, i);
            r == Truncated || r == ReadExtended(b + tail, nibble, i)
  {
  }

  lemma AtPrefix(b: seq<byte>, tail: seq<byte>, i: nat, s: seq<byte>)
    requires i + |s| <= |b|
    ensures At(b, i, s) <==> At(b + tail, i, s)
  {
    AtSlice(b, i, s);
    AtSlice(b + tail, i, s);
    assert (b + tail)[i..i + |s|] == b[i..i + |s|];
  }

  /** Every prefix b of a serialized list, the rest being tail: it is either cut at an
      option boundary and parses to just the options before the cut, or it is rejected. */
  lemma {:induction false} TruncationSafe(b: seq<byte>, tail: seq<byte>, i: nat, prev: uint16, os: seq<CoapOption>)
    requires AllWellFormed(os) && i <= |b|
    requires At(b + tail, i, EncodeOptions(prev, os)) && i + |EncodeOptions(prev, os)| == |b + tail|
    ensures var n := WholeOptions(prev, os, |b| - i);
            if i + |EncodeOptions(prev, os[..n])| == |b|
            then ParsesTo(b, i, prev, os[..n], |b|)
            else ParseFrom(b, i, prev) == Failed(REQUEST_ENTITY_TOO_LARGE)
    decreases os
  {
    hide ParsesTo, ParseStep, EncodeOption, At, WellFormed;
    if os == [] || i == |b| {
      ParsesToNothing(b, i, prev);
      var n := WholeOptions(prev, os, |b| - i);
      assert os[..n] == [];
    } else {
      var o, e, rest := os[0], EncodeOption(prev, os[0]), EncodeOptions(os[0].number, os[1..]);
      AtConcat(b + tail, i, e, rest);
      if i + |e| > |b| {
        var cut := tail[..i + |e| - |b|];
        assert (b + cut) + tail[|cut|..] == b + tail;
        AtPrefix(b + cut, tail[|cut|..], i, e);
        CutOption(b, i, prev, o, cut);
      } else {
        AtPrefix(b, tail, i, e);
        TruncationSafe(b, tail, i + |e|, o.number, os[1..]);
        TruncationStep(b, i, prev, os);
      }
    }
  }

  lemma TruncationStep(b: seq<byte>, i: nat, prev: uint16, os: seq<CoapOption>)
    requires AllWellFormed(os) && os != []
    requires At(b, i, EncodeOption(prev, os[0]))
    requires var next := i + |EncodeOption(prev, os[0])|;
             var n := WholeOptions(os[0].number, os[1..], |b| - next);
             if next + |EncodeOptions(os[0].number, os[1..][..n])| == |b|
             then ParsesTo(b, next, os[0].number, os[1..][..n], |b|)
             else ParseFrom(b, next, os[0].number) == Failed(REQUEST_ENTITY_TOO_LARGE)
    ensures var n := WholeOptions(prev, os, |b| - i);
            if i + |EncodeOptions(prev, os[..n])| == |b|
            then ParsesTo(b, i, prev, os[..n], |b|)
            else ParseFrom(b, i, prev) == Failed(REQUEST_ENTITY_TOO_LARGE)
  {
    hide ParsesTo, ParseStep, ParseFrom, EncodeOption, EncodeOptions, At, WellFormed, OptionsOf;
    var next := i + |EncodeOption(prev, os[0])|;
    var n := WholeOptions(os[0].number, os[1..], |b| - next);
    assert WholeOptions(prev, os, |b| - i) == n + 1;
    assert os[..n + 1] == [os[0]] + os[1..][..n];
    EncodeCons(prev, os[0], os[1..][..n]);
    if next + |EncodeOptions(os[0].number, os[1..][..n])| == |b| {
      ParsesToCons(b, i, prev, os[0], os[1..][..n], |b|);
    } else {
      ReadsOption(b, i, prev, os[0]);
      ParsePrepend(b, i, prev, ParseStep(b, i, prev).field);
    }
  }

  // ---------- space ----------

  /** What the size estimator reserves for one option. */
  function EstimatedLength(o: CoapOption): (n: nat) {
    var value :=
      match o.content
      case Integer(v) => if v > 0xFFFF then 4 else if v > 0xFF then 2 else 1
      case Buffer(bytes) => |bytes|;
    HEADER_CONSERVATIVE_LENGTH + value
    + (if value >= LIMIT_2 then 2 else if value >= LIMIT_1 then 1 else 0)
  }

  function EstimatedTotal(os: seq<CoapOption>): (n: nat) {
    if os == [] then 0 else EstimatedTotal(os[..|os| - 1]) + EstimatedLength(os[|os| - 1])
  }

  /** How far the reserved space exceeds what is written: always room for a delta extension of two
      bytes, and one byte for an integer of 0 or of three bytes. */
  lemma EstimateOne(prev: uint16, o: CoapOption)
    requires WellFormed(o)
    ensures var delta := (o.number - prev) % 65536;
            EstimatedLength(o) ==
            |EncodeOption(prev, o)|
            + (if delta < 13 then 2 else if delta < 269 then 1 else 0)
            + match o.content
              case Buffer(_) => 0
              case Integer(v) => if v == 0 || 0x1_0000 <= v < 0x100_0000 then 1 else 0
  {
    if o.content.Integer? {
      MinimalBytesLength(o.content.value);
    }
  }

  lemma {:induction false} EncodeAppend(prev: uint16, os: seq<CoapOption>, o: CoapOption)
    requires AllWellFormed(os) && WellFormed(o)
    ensures AllWellFormed(os + [o])
    ensures EncodeOptions(prev, os + [o]) == EncodeOptions(prev, os) + EncodeOption(LastNumber(prev, os), o)
    decreases os
  {
    hide EncodeOption, WellFormed;
    if os == [] {
      assert os + [o] == [o];
      EncodeCons(prev, o, []);
    } else {
      EncodeAppend(os[0].number, os[1..], o);
      assert (os + [o])[1..] == os[1..] + [o];
    }
  }

  lemma {:induction false} EstimateAll(os: seq<CoapOption>)
    requires AllWellFormed(os)
    ensures |EncodeOptions(0, os)| <= EstimatedTotal(os) <= |EncodeOptions(0, os)| + 3 * |os|
  {
    hide EncodeOption, EstimatedLength;
    if os == [] {
    } else {
      var front, last := os[..|os| - 1], os[|os| - 1];
      assert front + [last] == os;
      EstimateAll(front);
      EncodeAppend(0, front, last);
      EstimateOne(LastNumber(0, front), last);
    }
  }

  /** Both bounds are reached: a long jump leaves no slack, a zero integer leaves 3. */
  lemma EstimateIsTight()
    ensures EstimatedLength(CoapOption(SIZE_1, Integer(0)))
            == |EncodeOption(SIZE_1, CoapOption(SIZE_1, Integer(0)))| + 3
    ensures EstimatedLength(CoapOption(0x1000, Buffer([]))) == |EncodeOption(0, CoapOption(0x1000, Buffer([])))|
  {
  }
}
