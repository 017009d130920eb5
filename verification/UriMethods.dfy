/** The URI parser, offset by offset. */
module UriMethods {
  import opened Bytes
  import opened Uri
  import opened UriTheorems

  /** The first c from position i on, if any. */
  method FindChar(s: string, c: char, i: nat) returns (found: bool, k: nat)
    requires i <= |s|
    ensures k == IndexFrom(s, c, i)
    ensures found <==> k < |s|
  {
    k := i;
    while k < |s| && s[k] != c
      invariant i <= k <= |s| && IndexFrom(s, c, i) == IndexFrom(s, c, k)
      decreases |s| - k
    {
      k := k + 1;
    }
    found := k < |s|;
  }

  /** Tries the schemes one after the other. */
  method SchemeOf(uri: string) returns (known: bool, connection: Connection, secure: bool, hostOffset: nat)
    ensures known <==> PickScheme(uri).Some?
    ensures hostOffset <= |uri|
    ensures known ==> PickScheme(uri) == Some(Scheme(uri[..hostOffset], connection, secure))
  {
    known, connection, secure, hostOffset := true, Datagram, false, 0;
    if SCHEMES[0].text <= uri {
      connection, secure, hostOffset := Datagram, false, |SCHEMES[0].text|;
    } else if SCHEMES[1].text <= uri {
      connection, secure, hostOffset := Datagram, true, |SCHEMES[1].text|;
    } else if SCHEMES[2].text <= uri {
      connection, secure, hostOffset := Stream, false, |SCHEMES[2].text|;
    } else if SCHEMES[3].text <= uri {
      connection, secure, hostOffset := Stream, true, |SCHEMES[3].text|;
    } else if SCHEMES[4].text <= uri {
      connection, secure, hostOffset := WebSocket, false, |SCHEMES[4].text|;
    } else if SCHEMES[5].text <= uri {
      connection, secure, hostOffset := WebSocket, true, |SCHEMES[5].text|;
    } else if SCHEMES[6].text <= uri {
      connection, secure, hostOffset := Sms, false, |SCHEMES[6].text|;
    } else if SCHEMES[7].text <= uri {
      connection, secure, hostOffset := Sms, false, |SCHEMES[7].text|;
    } else if SCHEMES[8].text <= uri {
      connection, secure, hostOffset := LoRaWan, false, |SCHEMES[8].text|;
    } else {
      known := false;
    }
    assert known ==> uri[..hostOffset] == PickScheme(uri).value.text;
  }

  /** The offset of the port separator, or 0; fails on a bracket that is never closed. */
  method FindPort(uri: string, hostOffset: nat) returns (ok: bool, portOffset: nat)
    requires hostOffset <= |uri|
    ensures ok <==> FindOffsets(uri, hostOffset).Offsets?
    ensures ok ==> portOffset == FindOffsets(uri, hostOffset).port
  {
    ok, portOffset := true, 0;
    if !(hostOffset < |uri| && uri[hostOffset] == '[') {
      var found, sep := FindChar(uri, ':', hostOffset);
      if found {
        portOffset := sep;
      }
    } else {
      var closed, i := FindChar(uri, ']', hostOffset + 1);
      if !closed {
        return false, 0;
      }
      i := i + 1;
      if i < |uri| && uri[i] == ':' {
        portOffset := i;
      }
    }
  }

  /** Finds and checks the offsets of a URI of a known scheme. A LoRaWAN URI has its FPort
      where others have a host, so its port separator is put just before it. */
  method CheckOffsets(uri: string, connection: Connection, hostOffset: nat, ghost s: Scheme)
    returns (ok: bool, portOffset: nat, pathOffset: nat, queryOffset: nat)
    requires 0 < hostOffset <= |uri| && hostOffset == |s.text| && connection == s.connection
    ensures ok <==> FindOffsets(uri, hostOffset).Offsets? && GoodOffsets(uri, s, FindOffsets(uri, hostOffset))
    ensures ok ==> FindOffsets(uri, hostOffset) == Offsets(if connection == LoRaWan then 0 else portOffset, pathOffset, queryOffset)
    ensures ok && connection == LoRaWan ==> portOffset == hostOffset - 1
  {
    hide FindOffsets;
    var uriLen := |uri|;
    pathOffset, queryOffset := 0, 0;
    FoundOffsets(uri, hostOffset);
    ok, portOffset := FindPort(uri, hostOffset);
    if !ok {
      return;
    }
    ok := false;
    var found, sep := FindChar(uri, '/', hostOffset);
    if found {
      pathOffset := sep;
      if pathOffset < portOffset {
        return;
      }
    }
    found, sep := FindChar(uri, '?', hostOffset);
    if found {
      queryOffset := sep;
      if queryOffset < portOffset {
        return;
      }
    }
    if connection == LoRaWan {
      if portOffset != 0 {
        return;
      }
      if hostOffset == uriLen || hostOffset == pathOffset || hostOffset == queryOffset {
        return;
      }
      portOffset := hostOffset - 1;
    } else {
      if hostOffset == uriLen
         || (portOffset != 0 && portOffset <= hostOffset)
         || (pathOffset != 0 && pathOffset <= hostOffset)
         || (queryOffset != 0 && queryOffset <= hostOffset)
      {
        return;
      }
    }
    ok := true;
  }

  /** Where a part that begins before the path ends. */
  method PartEnd(uri: string, pathOffset: nat, queryOffset: nat) returns (len: nat)
    ensures len == EndBefore(uri, pathOffset, queryOffset)
  {
    if pathOffset != 0 {
      len := pathOffset;
    } else if queryOffset != 0 {
      len := queryOffset;
    } else {
      len := |uri|;
    }
  }

  /** A copy of length characters from position i on, with a terminator. Sizes wrap around at
      sizeLimit, and a request for half of all memory or more is refused. A length of -1 makes a
      request for no memory at all: if that is granted, the copy overruns it. Any other request
      can run into a shortage. */
  method BufferToString(s: string, i: nat, length: int, sizeLimit: nat, zeroIsNull: bool)
    returns (copied: Option<string>, overrun: bool, shortage: bool)
    requires i <= |s| && -|s| <= length && (length >= 0 ==> i + length <= |s|)
    requires |s| + 1 < sizeLimit / 2
    ensures overrun <==> length == -1 && !zeroIsNull
    ensures shortage ==> length >= 0 && copied == None
    ensures length >= 0 && !shortage ==> copied == Some(s[i..i + length])
    ensures length < 0 ==> copied == None
  {
    copied, overrun, shortage := None, false, false;
    var size := if length < 0 then sizeLimit + length else length;
    var request := if size + 1 == sizeLimit then 0 else size + 1;
    if request == 0 {
      overrun := !zeroIsNull;
    } else if request < sizeLimit / 2 {
      if * {
        shortage := true;
      } else {
        copied := Some(s[i..i + size]);
      }
    }
  }

  /** Splits a URI into the parts that are wanted. Once overrun says that memory was overrun,
      nothing more is known; shortage says that a request was refused that could be granted. */
  method UriParse(uri: string, wanted: Wanted, sizeLimit: nat, zeroIsNull: bool)
    returns (status: byte, connection: Connection, secure: bool,
             hostname: Option<string>, port: Option<string>, path: Option<string>, query: Option<string>,
             overrun: bool, shortage: bool)
    requires |uri| + 1 < sizeLimit / 2
    ensures shortage ==> status == 0xA0 && !overrun && !ParseUri(uri).Rejected?
    ensures !shortage ==>
              match ParseUri(uri)
              case Rejected => status == 0x86 && !overrun
              case NegativePath(length, others) =>
                if !wanted.path then
                  && status == 0x00 && !overrun && connection == others.connection && secure == others.secure
                  && hostname == (if wanted.host then others.host else None)
                  && port == (if wanted.port then others.port else None) && path == None
                  && query == (if wanted.query then others.query else None)
                else if length == -1 && !zeroIsNull then overrun
                else status == 0xA0 && !overrun
              case Accepted(parts) =>
                && status == 0x00 && !overrun && connection == parts.connection && secure == parts.secure
                && hostname == (if wanted.host then parts.host else None)
                && port == (if wanted.port then parts.port else None)
                && path == (if wanted.path then parts.path else None)
                && query == (if wanted.query then parts.query else None)
  {
    hide PickScheme, FindOffsets, GoodOffsets, SplitAt;
    hostname, port, path, query, overrun, shortage := None, None, None, None, false, false;
    status := NOT_ACCEPTABLE;
    var known, hostOffset;
    known, connection, secure, hostOffset := SchemeOf(uri);
    if !known {
      return;
    }
    ghost var s := PickScheme(uri).value;
    var ok, portOffset, pathOffset, queryOffset := CheckOffsets(uri, connection, hostOffset, s);
    if !ok {
      return;
    }
    GoodOffsetsInside(uri, s);
    status, hostname, port, path, query, overrun, shortage :=
      CopyParts(uri, hostOffset, portOffset, pathOffset, queryOffset, wanted, sizeLimit, zeroIsNull,
                Scheme(uri[..hostOffset], connection, secure));
  }

  /** Copies the wanted parts from between the offsets. */
  method CopyParts(uri: string, hostOffset: nat, portStart: nat, pathOffset: nat, queryStart: nat,
                   wanted: Wanted, sizeLimit: nat, zeroIsNull: bool, s: Scheme)
    returns (status: byte, hostname: Option<string>, port: Option<string>, path: Option<string>, query: Option<string>,
             overrun: bool, shortage: bool)
    requires |uri| + 1 < sizeLimit / 2 && hostOffset == |s.text| > 1
    requires s.connection == LoRaWan ==> portStart == hostOffset - 1
    requires var end := EndBefore(uri, pathOffset, queryStart);
             && hostOffset < end <= |uri| && pathOffset <= |uri| && queryStart < |uri|
             && (s.connection != LoRaWan && portStart != 0 ==> hostOffset < portStart < end)
    ensures shortage ==> status == INTERNAL_SERVER_ERROR && !overrun
    ensures !shortage ==>
              var o := Offsets(if s.connection == LoRaWan then 0 else portStart, pathOffset, queryStart);
              if wanted.path && pathOffset != 0 && queryStart != 0 && queryStart < pathOffset then
                if queryStart - pathOffset == -1 && !zeroIsNull then overrun
                else status == INTERNAL_SERVER_ERROR && !overrun
              else
                && status == NO_ERROR && !overrun
                && Parts(s.connection, s.secure, hostname, port, path, query) == Keep(SplitAt(uri, s, o), wanted)
  {
    hide DefaultPort;
    hostname, port, path, query, overrun, shortage := None, None, None, None, false, false;
    var connection, secure, portOffset := s.connection, s.secure, portStart;
    status := INTERNAL_SERVER_ERROR;
    var len := PartEnd(uri, pathOffset, queryStart);
    if wanted.host && connection != LoRaWan {
      var end := if portOffset != 0 then portOffset else len;
      hostname, overrun, shortage := BufferToString(uri, hostOffset, end - hostOffset, sizeLimit, zeroIsNull);
      if hostname == None {
        return;
      }
    }
    if wanted.port {
      if portOffset == 0 {
        port, shortage := PortByDefault(connection, secure);
        if shortage {
          return;
        }
      } else {
        portOffset := portOffset + 1;
        port, overrun, shortage := BufferToString(uri, portOffset, len - portOffset, sizeLimit, zeroIsNull);
        if port == None {
          return;
        }
      }
    }
    var ok;
    ok, path, query, overrun, shortage := CopyTail(uri, pathOffset, queryStart, wanted, sizeLimit, zeroIsNull);
    if ok {
      status := NO_ERROR;
    }
  }

  /** Copies path and query, as far as wanted; ok says that nothing went wrong. */
  method CopyTail(uri: string, pathOffset: nat, queryStart: nat, wanted: Wanted, sizeLimit: nat, zeroIsNull: bool)
    returns (ok: bool, path: Option<string>, query: Option<string>, overrun: bool, shortage: bool)
    requires |uri| + 1 < sizeLimit / 2 && pathOffset <= |uri| && queryStart < |uri|
    ensures overrun || shortage ==> !ok && !(overrun && shortage)
    ensures wanted.path && pathOffset != 0 && queryStart != 0 && queryStart < pathOffset ==>
              !ok && !shortage && (overrun <==> queryStart - pathOffset == -1 && !zeroIsNull)
    ensures !(wanted.path && pathOffset != 0 && queryStart != 0 && queryStart < pathOffset) ==>
              && !overrun && (ok <==> !shortage)
              && (ok ==>
                    && path == (if wanted.path && pathOffset != 0
                                then Some(Slice(uri, pathOffset, if queryStart != 0 then queryStart else |uri|)) else None)
                    && query == if wanted.query && queryStart != 0 then Some(Slice(uri, queryStart + 1, |uri|)) else None)
  {
    ok, path, query, overrun, shortage := false, None, None, false, false;
    var queryOffset := queryStart;
    if wanted.path && pathOffset != 0 {
      var end := if queryOffset != 0 then queryOffset else |uri|;
      path, overrun, shortage := BufferToString(uri, pathOffset, end - pathOffset, sizeLimit, zeroIsNull);
      if overrun || path == None {
        return;
      }
    }
    if wanted.query && queryOffset != 0 {
      queryOffset := queryOffset + 1;
      query, overrun, shortage := BufferToString(uri, queryOffset, |uri| - queryOffset, sizeLimit, zeroIsNull);
      if query == None {
        return;
      }
    }
    ok := true;
  }

  method PortByDefault(connection: Connection, secure: bool) returns (port: Option<string>, shortage: bool)
    ensures shortage ==> DefaultPort(connection, secure).Some?
    ensures !shortage ==> port == DefaultPort(connection, secure)
  {
    port, shortage := None, false;
    if connection == Datagram || connection == Stream {
      port := Some(if secure then DEFAULT_PORT_SEC else DEFAULT_PORT);
    } else if connection == WebSocket {
      port := Some(if secure then DEFAULT_PORT_WS_SEC else DEFAULT_PORT_WS);
    }
    if port.Some? {
      if * {
        port, shortage := None, true;
      }
    }
  }
}
