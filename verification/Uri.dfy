/** Splitting a CoAP URI into its parts by first-occurrence offsets (section 6 of RFC 7252).
    A URI is a C string, given here by its characters up to the terminator. */
module Uri {

  datatype Option<+T> = None | Some(value: T)

  datatype Connection = Datagram | Stream | LoRaWan | Sms | WebSocket

  datatype Scheme = Scheme(text: string, connection: Connection, secure: bool)

  const SCHEMES: seq<Scheme> := [
    Scheme("coap://", Datagram, false),
    Scheme("coaps://", Datagram, true),
    Scheme("coap+tcp://", Stream, false),
    Scheme("coaps+tcp://", Stream, true),
    Scheme("coap+ws://", WebSocket, false),
    Scheme("coaps+ws://", WebSocket, true),
    Scheme("coap+sms://", Sms, false),
    Scheme("sms://", Sms, false),
    Scheme("lorawan://", LoRaWan, false)]

  const DEFAULT_PORT := "5683"
  const DEFAULT_PORT_SEC := "5684"
  const DEFAULT_PORT_WS := "80"
  const DEFAULT_PORT_WS_SEC := "443"

  datatype Parts = Parts(
    connection: Connection, secure: bool,
    host: Option<string>, port: Option<string>, path: Option<string>, query: Option<string>)

  /** The length of the path can come out negative; the other parts are what they are. */
  datatype UriResult = Rejected | NegativePath(length: int, others: Parts) | Accepted(parts: Parts)

  /** The parts the caller asks for. */
  datatype Wanted = Wanted(host: bool, port: bool, path: bool, query: bool)

  function Keep(parts: Parts, wanted: Wanted): (r: Parts) {
    parts.(host := if wanted.host then parts.host else None,
           port := if wanted.port then parts.port else None,
           path := if wanted.path then parts.path else None,
           query := if wanted.query then parts.query else None)
  }

  /** The first scheme of the table that begins the URI. */
  function PickScheme(uri: string): (s: Option<Scheme>)
    ensures s.Some? ==> s.value in SCHEMES && s.value.text <= uri && |s.value.text| >= 6
    ensures s.None? ==> forall k :: 0 <= k < |SCHEMES| ==> !(SCHEMES[k].text <= uri)
  {
    if SCHEMES[0].text <= uri then Some(SCHEMES[0])
    else if SCHEMES[1].text <= uri then Some(SCHEMES[1])
    else if SCHEMES[2].text <= uri then Some(SCHEMES[2])
    else if SCHEMES[3].text <= uri then Some(SCHEMES[3])
    else if SCHEMES[4].text <= uri then Some(SCHEMES[4])
    else if SCHEMES[5].text <= uri then Some(SCHEMES[5])
    else if SCHEMES[6].text <= uri then Some(SCHEMES[6])
    else if SCHEMES[7].text <= uri then Some(SCHEMES[7])
    else if SCHEMES[8].text <= uri then Some(SCHEMES[8])
    else None
  }

  /** The first position from i on that holds c, or the length. */
  function IndexFrom(s: string, c: char, i: nat): (k: nat)
    requires i <= |s|
    ensures i <= k <= |s|
    ensures forall j :: i <= j < k ==> s[j] != c
    ensures k < |s| ==> s[k] == c
    decreases |s| - i
  {
    if i == |s| || s[i] == c then i else IndexFrom(s, c, i + 1)
  }

  /** Offsets use 0 for an absent part. */
  function Locate(s: string, c: char, i: nat): (k: nat)
    requires i <= |s|
  {
    var k := IndexFrom(s, c, i);
    if k == |s| then 0 else k
  }

  datatype Offsets = Unclosed | Offsets(port: nat, path: nat, query: nat)

  /** A bracketed host may contain colons; its port separator follows the bracket at once. */
  function FindOffsets(uri: string, host: nat): (o: Offsets)
    requires host <= |uri|
  {
    var path, query := Locate(uri, '/', host), Locate(uri, '?', host);
    if host < |uri| && uri[host] == '[' then
      var close := IndexFrom(uri, ']', host + 1);
      if close == |uri| then Unclosed
      else Offsets(if close + 1 < |uri| && uri[close + 1] == ':' then close + 1 else 0, path, query)
    else Offsets(Locate(uri, ':', host), path, query)
  }

  /** If both occur after the scheme, the first '/' precedes the first '?', so that it is not
      part of the query. */
  predicate SlashBeforeQuery(uri: string) {
    match PickScheme(uri)
    case None => true
    case Some(s) =>
      var path, query := Locate(uri, '/', |s.text|), Locate(uri, '?', |s.text|);
      path != 0 && query != 0 ==> path < query
  }

  /** No ':' separator after the path or the query has begun, and a host (for LoRaWAN, an
      FPort) that is there at all. */
  predicate GoodOffsets(uri: string, s: Scheme, o: Offsets)
    requires o.Offsets? && |s.text| <= |uri|
  {
    var host := |s.text|;
    && (o.path != 0 ==> o.port <= o.path)
    && (o.query != 0 ==> o.port <= o.query)
    && host != |uri|
    && host != o.path && host != o.query
    && (if s.connection.LoRaWan? then o.port == 0 else host != o.port)
  }

  function DefaultPort(connection: Connection, secure: bool): Option<string> {
    match connection
    case Datagram => Some(if secure then DEFAULT_PORT_SEC else DEFAULT_PORT)
    case Stream => Some(if secure then DEFAULT_PORT_SEC else DEFAULT_PORT)
    case WebSocket => Some(if secure then DEFAULT_PORT_WS_SEC else DEFAULT_PORT_WS)
    case _ => None
  }

  /** Where a part that begins before the path ends. */
  function EndBefore(uri: string, path: nat, query: nat): nat {
    if path != 0 then path else if query != 0 then query else |uri|
  }

  function Slice(uri: string, i: nat, j: nat): string {
    if i <= j <= |uri| then uri[i..j] else ""
  }

  /** The parts between the offsets. */
  function SplitAt(uri: string, s: Scheme, o: Offsets): (r: Parts)
    requires o.Offsets?
  {
    var host := |s.text|;
    var end := EndBefore(uri, o.path, o.query);
    Parts(
      s.connection, s.secure,
      if s.connection.LoRaWan? then None
      else Some(Slice(uri, host, if o.port != 0 then o.port else end)),
      if s.connection.LoRaWan? then Some(Slice(uri, host, end))
      else if o.port == 0 then DefaultPort(s.connection, s.secure)
      else Some(Slice(uri, o.port + 1, end)),
      if o.path != 0 then Some(Slice(uri, o.path, if o.query != 0 then o.query else |uri|)) else None,
      if o.query != 0 then Some(Slice(uri, o.query + 1, |uri|)) else None)
  }

  function ParseUri(uri: string): (r: UriResult) {
    match PickScheme(uri)
    case None => Rejected
    case Some(s) =>
      var o := FindOffsets(uri, |s.text|);
      if o.Unclosed? || !GoodOffsets(uri, s, o) then Rejected
      else if o.path != 0 && o.query != 0 && o.query < o.path then
        NegativePath(o.query - o.path, SplitAt(uri, s, o).(path := None))
      else Accepted(SplitAt(uri, s, o))
  }
}
