/** Serializing an option list into a byte buffer, in place. */
module OptionWriter {
  import opened Bytes
  import opened Options
  import opened OptionCodec
  import opened OptionTheorems
  import opened OptionNodes

  /** Sets the low four bits of a byte that has them clear. */
  function SetLowBits(high: byte, low: byte): (r: byte)
    requires high % 0x10 == 0 && low < 0x10
    ensures r / 0x10 == high / 0x10 && r % 0x10 == low
  {
    high + low
  }

  /** The buffer holds exactly new bytes from at on, and is otherwise as before. */
  ghost predicate Wrote(before: seq<byte>, after: seq<byte>, at: nat, s: seq<byte>) {
    && at + |s| <= |before| == |after|
    && after[at..at + |s|] == s
    && (forall j :: 0 <= j < |before| && !(at <= j < at + |s|) ==> after[j] == before[j])
  }

  lemma WroteTwice(s0: seq<byte>, s1: seq<byte>, s2: seq<byte>, at: nat, s: seq<byte>, t: seq<byte>)
    requires Wrote(s0, s1, at, s) && Wrote(s1, s2, at + |s|, t)
    ensures Wrote(s0, s2, at, s + t)
  {
  }

  method GetSerializedLength(option: OptionNode?) returns (length: nat)
    requires option != null ==> option.Valid()
    ensures option == null ==> length == 0
    ensures option != null ==> length == EstimatedLength(option.Value())
  {
    if option == null {
      return 0;
    }
    length := HEADER_CONSERVATIVE_LENGTH;
    if IsInteger(option.number) {
      if option.asInteger > 0xFFFF {
        length := length + 4;
      } else if option.asInteger > 0xFF {
        length := length + 2;
      } else {
        length := length + 1;
      }
    } else {
      length := length + option.length;
    }
    if length >= HEADER_CONSERVATIVE_LENGTH + LIMIT_2 {
      length := length + 2;
    } else if length >= HEADER_CONSERVATIVE_LENGTH + LIMIT_1 {
      length := length + 1;
    }
  }

  /** The header byte with the delta nibble, and the delta extension. */
  method WriteDelta(buffer: array<byte>, at: nat, number: uint16, prev: uint16) returns (hdrLen: nat)
    requires at + 1 + |Extension(Delta(prev, number))| <= buffer.Length
    modifies buffer
    ensures hdrLen == 1 + |Extension(Delta(prev, number))|
    ensures Wrote(old(buffer[..]), buffer[..], at,
                  [0x10 * Nibble(Delta(prev, number))] + Extension(Delta(prev, number)))
  {
    var delta: uint16 := (number - prev) % 0x1_0000;
    if delta >= LIMIT_2 {
      buffer[at] := EXTEND_2 * 0x10;
      delta := delta - LIMIT_2;
      buffer[at + 1] := delta / 0x100;
      buffer[at + 2] := delta % 0x100;
      hdrLen := 3;
    } else if delta >= LIMIT_1 {
      buffer[at] := EXTEND_1 * 0x10;
      delta := delta - LIMIT_1;
      buffer[at + 1] := delta;
      hdrLen := 2;
    } else {
      buffer[at] := delta * 0x10;
      hdrLen := 1;
    }
  }

  /** The integer value, most significant non-zero byte first. */
  method WriteInteger(buffer: array<byte>, at: nat, v: uint32) returns (valueLen: nat)
    requires at + |MinimalBytes(v)| <= buffer.Length
    modifies buffer
    ensures valueLen == |MinimalBytes(v)| <= 4
    ensures Wrote(old(buffer[..]), buffer[..], at, MinimalBytes(v))
  {
    IntegerBytes(v);
    valueLen := 0;
    if v >= 0x100_0000 {
      buffer[at + valueLen] := v / 0x100_0000;
      valueLen := valueLen + 1;
    }
    if v >= 0x1_0000 {
      buffer[at + valueLen] := (v / 0x1_0000) % 0x100;
      valueLen := valueLen + 1;
    }
    if v >= 0x100 {
      buffer[at + valueLen] := (v / 0x100) % 0x100;
      valueLen := valueLen + 1;
    }
    if v != 0 {
      buffer[at + valueLen] := v % 0x100;
      valueLen := valueLen + 1;
    }
  }

  lemma IntegerBytes(v: uint32)
    ensures MinimalBytes(v) ==
            (if v >= 0x100_0000 then [v / 0x100_0000] else [])
            + (if v >= 0x1_0000 then [(v / 0x1_0000) % 0x100] else [])
            + (if v >= 0x100 then [(v / 0x100) % 0x100] else [])
            + (if v != 0 then [v % 0x100] else [])
  {
    var v1 := v / 0x100;
    var v2 := v1 / 0x100;
    var v3 := v2 / 0x100;
    assert v2 == v / 0x1_0000 && v3 == v / 0x100_0000;
    assert MinimalBytes(v3) == if v3 != 0 then [v3] else [];
    assert MinimalBytes(v2) == if v2 != 0 then MinimalBytes(v3) + [v2 % 0x100] else [];
    assert MinimalBytes(v1) == if v1 != 0 then MinimalBytes(v2) + [v1 % 0x100] else [];
  }

  lemma WroteHeader(s0: seq<byte>, s1: seq<byte>, s2: seq<byte>, at: nat, x: byte, y: byte, rest: seq<byte>)
    requires Wrote(s0, s1, at, [x] + rest) && s2 == s1[at := y]
    ensures Wrote(s0, s2, at, [y] + rest)
  {
  }

  method CopyBytes(buffer: array<byte>, at: nat, bytes: seq<byte>)
    requires at + |bytes| <= buffer.Length
    modifies buffer
    ensures Wrote(old(buffer[..]), buffer[..], at, bytes)
  {
    forall j | 0 <= j < |bytes| {
      buffer[at + j] := bytes[j];
    }
  }

  /** The length nibble, set in the header byte, and the length extension. */
  method WriteLength(buffer: array<byte>, at: nat, hdrLen: nat, length: uint16) returns (newHdrLen: nat)
    requires 1 <= hdrLen && at + hdrLen + |Extension(length)| <= buffer.Length
    requires buffer[at] % 0x10 == 0
    modifies buffer
    ensures newHdrLen == hdrLen + |Extension(length)|
    ensures Wrote(old(buffer[..][at := buffer[at] + Nibble(length)]), buffer[..], at + hdrLen, Extension(length))
  {
    var valueLen: uint16 := length;
    if valueLen >= LIMIT_2 {
      buffer[at] := SetLowBits(buffer[at], EXTEND_2);
      valueLen := valueLen - LIMIT_2;
      buffer[at + hdrLen] := valueLen / 0x100;
      buffer[at + hdrLen + 1] := valueLen % 0x100;
      newHdrLen := hdrLen + 2;
    } else if valueLen >= LIMIT_1 {
      buffer[at] := SetLowBits(buffer[at], EXTEND_1);
      valueLen := valueLen - LIMIT_1;
      buffer[at + hdrLen] := valueLen;
      newHdrLen := hdrLen + 1;
    } else {
      buffer[at] := SetLowBits(buffer[at], valueLen);
      newHdrLen := hdrLen;
    }
  }

  /** An integer option: delta, then value, then the length nibble. */
  lemma IntegerOptionWritten(s0: seq<byte>, s1: seq<byte>, s2: seq<byte>, at: nat, prev: uint16, o: CoapOption)
    requires WellFormed(o) && o.content.Integer?
    requires var delta := Delta(prev, o.number);
             Wrote(s0, s1, at, [0x10 * Nibble(delta)] + Extension(delta))
             && Wrote(s1, s2, at + 1 + |Extension(delta)|, ValueBytes(o))
    ensures at < |s2| && s2[at] == 0x10 * Nibble(Delta(prev, o.number))
    ensures |ValueBytes(o)| <= 4
    ensures Wrote(s0, s2[at := 0x10 * Nibble(Delta(prev, o.number)) + |ValueBytes(o)|], at, EncodeOption(prev, o))
  {
    hide Extension, MinimalBytes, ValueBytes, Nibble, Delta, WellFormed, Wrote, EncodeOption, EncodeHead;
    var delta, value := Delta(prev, o.number), ValueBytes(o);
    IntegerValueLength(o);
    SmallNibble(delta);
    ShortExtension(|value|);
    HeaderSetLast(s0, s1, s2, at, 0x10 * Nibble(delta), 0x10 * Nibble(delta) + |value|, Extension(delta), value);
    IntegerHead(prev, o);
  }

  lemma IntegerValueLength(o: CoapOption)
    requires WellFormed(o) && o.content.Integer?
    ensures |ValueBytes(o)| <= 4
  {
    MinimalBytesLength(o.content.value);
  }

  lemma IntegerHead(prev: uint16, o: CoapOption)
    requires WellFormed(o) && o.content.Integer?
    ensures var delta, value := Delta(prev, o.number), ValueBytes(o);
            |value| <= 4 && EncodeOption(prev, o) == [0x10 * Nibble(delta) + |value|] + Extension(delta) + value
  {
    hide ValueBytes, WellFormed, Delta, MinimalBytes;
    var delta, value := Delta(prev, o.number), ValueBytes(o);
    IntegerValueLength(o);
    var head := [0x10 * Nibble(delta) + |value|] + Extension(delta);
    assert Extension(|value|) == [] && head + [] == head;
  }

  lemma HeaderSetLast(s0: seq<byte>, s1: seq<byte>, s2: seq<byte>, at: nat, x: byte, y: byte, ext: seq<byte>, value: seq<byte>)
    requires Wrote(s0, s1, at, [x] + ext) && Wrote(s1, s2, at + 1 + |ext|, value)
    ensures at < |s2| && s2[at] == x
    ensures Wrote(s0, s2[at := y], at, [y] + ext + value)
  {
    WroteTwice(s0, s1, s2, at, [x] + ext, value);
    assert [x] + ext + value == [x] + (ext + value);
    assert [y] + ext + value == [y] + (ext + value);
    assert s2[at] == s2[at..at + 1 + |ext + value|][0];
    WroteHeader(s0, s2, s2[at := y], at, x, y, ext + value);
  }

  lemma SmallNibble(v: uint16)
    ensures Nibble(v) <= 14
  {
  }

  lemma ShortExtension(n: uint16)
    requires n < LIMIT_1
    ensures Nibble(n) == n && Extension(n) == []
  {
  }

  /** A buffer option: delta, then the length, then the value. */
  lemma BufferOptionWritten(s0: seq<byte>, s1: seq<byte>, s2: seq<byte>, s3: seq<byte>, at: nat, prev: uint16, o: CoapOption)
    requires WellFormed(o)
    requires var delta, n := Delta(prev, o.number), |ValueBytes(o)|;
             var x := 0x10 * Nibble(delta);
             && Wrote(s0, s1, at, [x] + Extension(delta))
             && Wrote(s1[at := x + Nibble(n)], s2, at + 1 + |Extension(delta)|, Extension(n))
             && Wrote(s2, s3, at + 1 + |Extension(delta)| + |Extension(n)|, ValueBytes(o))
    ensures Wrote(s0, s3, at, EncodeOption(prev, o))
  {
    hide Extension, ValueBytes;
    var delta, value := Delta(prev, o.number), ValueBytes(o);
    var x, y := 0x10 * Nibble(delta), 0x10 * Nibble(delta) + Nibble(|value|);
    WroteHeader(s0, s1, s1[at := y], at, x, y, Extension(delta));
    WroteTwice(s0, s1[at := y], s2, at, [y] + Extension(delta), Extension(|value|));
    WroteTwice(s0, s2, s3, at, [y] + Extension(delta) + Extension(|value|), value);
  }

  /** One option, from its header byte to the end of its value. */
  method WriteOption(buffer: array<byte>, at: nat, option: OptionNode, prev: uint16, ghost o: CoapOption)
    returns (n: nat)
    requires option.Valid() && o == option.Value()
    requires at + |EncodeOption(prev, o)| <= buffer.Length
    modifies buffer
    ensures n == |EncodeOption(prev, o)|
    ensures Wrote(old(buffer[..]), buffer[..], at, EncodeOption(prev, o))
  {
    hide Extension, MinimalBytes, Nibble, EncodeOption, EncodeHead, Delta, IsInteger, Wrote, WellFormed, ValueBytes,
         OptionNode.Value;
    ghost var s0 := buffer[..];
    NodeValueBytes(option);
    OptionSize(prev, o);
    var hdrLen := WriteDelta(buffer, at, option.number, prev);
    ghost var s1 := buffer[..];
    SmallNibble(Delta(prev, option.number));
    WroteFirst(s0, s1, at, 0x10 * Nibble(Delta(prev, option.number)), Extension(Delta(prev, option.number)));
    var valueLen: uint16;
    if IsInteger(option.number) {
      valueLen := WriteInteger(buffer, at + hdrLen, option.asInteger);
      IntegerOptionWritten(s0, s1, buffer[..], at, prev, o);
      buffer[at] := SetLowBits(buffer[at], valueLen);
    } else {
      valueLen := option.length;
      hdrLen := WriteLength(buffer, at, hdrLen, option.length);
      ghost var s2 := buffer[..];
      CopyBytes(buffer, at + hdrLen, option.asBuffer);
      BufferOptionWritten(s0, s1, s2, buffer[..], at, prev, o);
    }
    n := hdrLen + valueLen;
  }

  lemma NodeValueBytes(option: OptionNode)
    requires option.Valid()
    ensures WellFormed(option.Value()) && option.Value().number == option.number
    ensures option.Value().content.Integer? <==> IsInteger(option.number)
    ensures ValueBytes(option.Value()) == if IsInteger(option.number) then MinimalBytes(option.asInteger) else option.asBuffer
  {
    hide IsInteger;
  }

  lemma WroteFirst(s0: seq<byte>, s1: seq<byte>, at: nat, x: byte, rest: seq<byte>)
    requires Wrote(s0, s1, at, [x] + rest)
    ensures |s1| == |s0| && at < |s1| && s1[at] == x
  {
    assert s1[at] == s1[at..at + 1 + |rest|][0];
  }

  lemma OptionSize(prev: uint16, o: CoapOption)
    requires WellFormed(o)
    ensures var delta, n := Delta(prev, o.number), |ValueBytes(o)|;
            |EncodeOption(prev, o)| == 1 + |Extension(delta)| + |Extension(n)| + n
    ensures o.content.Integer? ==> Extension(|ValueBytes(o)|) == []
  {
    if o.content.Integer? {
      MinimalBytesLength(o.content.value);
    }
  }

  /** A whole list, delta-encoded from option number 0. The caller must have reserved the space. */
  method SerializeOptions(head: OptionNode?, buffer: array<byte>, start: nat, ghost nodes: seq<OptionNode>)
    returns (index: nat)
    requires IsList(head, nodes) && AllWellFormed(Values(nodes))
    requires start + |EncodeOptions(0, Values(nodes))| <= buffer.Length
    modifies buffer
    ensures index == |EncodeOptions(0, Values(nodes))|
    ensures Wrote(old(buffer[..]), buffer[..], start, EncodeOptions(0, Values(nodes)))
  {
    hide EncodeOption, EncodeOptions, LastNumber, WellFormed, Wrote, AllWellFormed, IsList, Values, OptionNode.Value, OptionNode.Valid;
    assert head == NodeAt(nodes, 0) by { ListHead(head, nodes); }
    ghost var os, s0, k := Values(nodes), buffer[..], 0;
    var prevNumber: uint16 := 0;
    var option := head;
    index := 0;
    SerializeNothing(os, s0, start);
    while option != null
      invariant k <= |nodes| && option == NodeAt(nodes, k) && Values(nodes) == os
      invariant AllWellFormed(os[..k])
      invariant prevNumber == LastNumber(0, os[..k]) && index == |EncodeOptions(0, os[..k])|
      invariant Wrote(s0, buffer[..], start, EncodeOptions(0, os[..k]))
      decreases |nodes| - k
    {
      ghost var s1 := buffer[..];
      ListStep(head, nodes, k);
      SerializeStep(os, k);
      var n := WriteOption(buffer, start + index, option, prevNumber, os[k]);
      WroteTwice(s0, s1, buffer[..], start, EncodeOptions(0, os[..k]), EncodeOption(prevNumber, os[k]));
      index := index + n;
      prevNumber := option.number;
      option := option.next;
      k := k + 1;
    }
    assert os[..k] == os;
  }

  lemma SerializeNothing(os: seq<CoapOption>, s: seq<byte>, start: nat)
    requires start <= |s|
    ensures AllWellFormed(os[..0]) && EncodeOptions(0, os[..0]) == [] && LastNumber(0, os[..0]) == 0
    ensures Wrote(s, s, start, [])
  {
  }

  lemma SerializeStep(os: seq<CoapOption>, k: nat)
    requires AllWellFormed(os) && k < |os|
    ensures AllWellFormed(os[..k]) && AllWellFormed(os[..k + 1]) && WellFormed(os[k])
    ensures LastNumber(0, os[..k + 1]) == os[k].number
    ensures EncodeOptions(0, os[..k + 1]) == EncodeOptions(0, os[..k]) + EncodeOption(LastNumber(0, os[..k]), os[k])
    ensures |EncodeOptions(0, os[..k + 1])| <= |EncodeOptions(0, os)|
  {
    hide EncodeOption, WellFormed;
    assert os[..k + 1] == os[..k] + [os[k]];
    EncodeAppend(0, os[..k], os[k]);
    EncodePrefix(0, os, k + 1);
  }

  lemma {:induction false} EncodePrefix(prev: uint16, os: seq<CoapOption>, k: nat)
    requires AllWellFormed(os) && k <= |os|
    ensures |EncodeOptions(prev, os[..k])| <= |EncodeOptions(prev, os)|
    decreases os
  {
    hide EncodeOption, WellFormed;
    if k == 0 {
    } else {
      EncodePrefix(os[0].number, os[1..], k - 1);
      assert os[..k][1..] == os[1..][..k - 1];
    }
  }
}
