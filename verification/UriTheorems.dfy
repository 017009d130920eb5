/** What splitting a URI keeps, and which URIs split back into the parts they were made of. */
module UriTheorems {
  import opened Uri

  /** No scheme of the table begins another: at most one can match, so the order in which
      they are tried does not matter. */
  lemma SchemesArePrefixFree(uri: string, j: nat, k: nat)
    requires j < |SCHEMES| && k < |SCHEMES|
    requires SCHEMES[j].text <= uri && SCHEMES[k].text <= uri
    ensures j == k
  {
    var s, t := SCHEMES[j].text, SCHEMES[k].text;
    assert s[0] == uri[0] == t[0];
    assert s[4] == uri[4] == t[4];
    assert s[5] == uri[5] == t[5];
    if |s| > 6 && |t| > 6 {
      assert s[6] == uri[6] == t[6];
    }
  }

  /** Every URI that begins with a scheme of the table is taken as that scheme. */
  lemma PickedScheme(uri: string, k: nat)
    requires k < |SCHEMES| && SCHEMES[k].text <= uri
    ensures PickScheme(uri) == Some(SCHEMES[k])
  {
    var s := PickScheme(uri).value;
    var j :| 0 <= j < |SCHEMES| && SCHEMES[j] == s;
    SchemesArePrefixFree(uri, j, k);
  }

  function OrEmpty(s: Option<string>): string {
    if s.Some? then s.value else ""
  }

  function PortText(explicit: bool, port: Option<string>): string {
    if explicit then ":" + OrEmpty(port) else ""
  }

  function QueryText(query: Option<string>): string {
    if query.Some? then "?" + query.value else ""
  }

  /** The text a separator stands before, up to the end of its part. */
  predicate Separates(uri: string, h: nat, k: nat, c: char) {
    k != 0 ==> h < k < |uri| && uri[k] == c
  }

  /** Offsets that point at their separators, in the order of the parts. */
  predicate Ordered(uri: string, h: nat, o: Offsets) {
    && o.Offsets? && h < |uri|
    && Separates(uri, h, o.port, ':') && Separates(uri, h, o.path, '/') && Separates(uri, h, o.query, '?')
    && (o.port != 0 && o.path != 0 ==> o.port < o.path)
    && (o.port != 0 && o.query != 0 ==> o.port < o.query)
    && (o.path != 0 && o.query != 0 ==> o.path < o.query)
  }

  lemma GoodOffsetsAreOrdered(uri: string, s: Scheme)
    requires PickScheme(uri) == Some(s) && ParseUri(uri).Accepted?
    ensures Ordered(uri, |s.text|, FindOffsets(uri, |s.text|))
  {
    hide PickScheme, FindOffsets, Locate;
    var host := |s.text|;
    LocateFacts(uri, '/', host);
    LocateFacts(uri, '?', host);
    FoundOffsets(uri, host);
  }

  lemma LocateFacts(uri: string, c: char, host: nat)
    requires 0 < host <= |uri|
    ensures Locate(uri, c, host) != 0 ==> host <= Locate(uri, c, host) < |uri| && uri[Locate(uri, c, host)] == c
  {
  }

  lemma FoundOffsets(uri: string, host: nat)
    requires host <= |uri|
    ensures var o := FindOffsets(uri, host);
            o.Offsets? ==>
              && o.path == Locate(uri, '/', host) && o.query == Locate(uri, '?', host)
              && (o.port != 0 ==> host <= o.port < |uri| && uri[o.port] == ':')
  {
  }

  /** The length of the path is negative exactly for the URIs that pass all checks although
      their first '/' stands in the query. */
  lemma NegativePathIff(uri: string)
    ensures ParseUri(uri).NegativePath? <==>
            && PickScheme(uri).Some?
            && var s := PickScheme(uri).value;
            && FindOffsets(uri, |s.text|).Offsets? && GoodOffsets(uri, s, FindOffsets(uri, |s.text|))
            && !SlashBeforeQuery(uri)
  {
    hide PickScheme, GoodOffsets, Locate, SplitAt;
    if PickScheme(uri).Some? {
      FoundOffsets(uri, |PickScheme(uri).value.text|);
      DistinctOffsets(uri, |PickScheme(uri).value.text|);
    }
  }

  lemma DistinctOffsets(uri: string, host: nat)
    requires host <= |uri|
    ensures var path, query := Locate(uri, '/', host), Locate(uri, '?', host);
            path != 0 && query != 0 ==> path != query
  {
  }

  /** The negative length is -1 exactly if a '/' follows the first '?' at once. */
  lemma LengthMinusOneIff(uri: string)
    requires ParseUri(uri).NegativePath?
    ensures PickScheme(uri).Some? && ParseUri(uri).length <= -1
    ensures var query := Locate(uri, '?', |PickScheme(uri).value.text|);
            && query < |uri|
            && (ParseUri(uri).length == -1 <==> query + 1 < |uri| && uri[query + 1] == '/')
  {
    hide PickScheme, GoodOffsets, SplitAt, FindOffsets, Locate;
    var host := |PickScheme(uri).value.text|;
    FoundOffsets(uri, host);
    LocateFacts(uri, '/', host);
    LocateFacts(uri, '?', host);
    NoneBefore(uri, '/', host, Locate(uri, '?', host) + 1);
  }

  lemma NoneBefore(uri: string, c: char, host: nat, j: nat)
    requires host <= j <= |uri|
    ensures j < |uri| && uri[j] == c ==> Locate(uri, c, host) <= j
  {
  }

  /** A URI whose path has the length -1. */
  lemma MinusOneExample()
    ensures ParseUri("coap://h?/") == NegativePath(-1, Parts(Datagram, false, Some("h?"), Some("5683"), None, Some("/")))
  {
    hide ParseUri;
    NegativePathOf("coap://h?/", 9);
    assert "coap://h?/"[7..9] == "h?" && "coap://h?/"[9..10] == "/";
  }

  /** A URI whose path has a smaller length. */
  lemma MinusTwoExample()
    ensures ParseUri("coap://h?a/") == NegativePath(-2, Parts(Datagram, false, Some("h?a"), Some("5683"), None, Some("a/")))
  {
    hide ParseUri;
    NegativePathOf("coap://h?a/", 10);
    assert "coap://h?a/"[7..10] == "h?a" && "coap://h?a/"[9..11] == "a/";
  }

  lemma NegativePathOf(uri: string, path: nat)
    requires "coap://h?" <= uri && 9 <= path < |uri| && uri[path] == '/'
    requires forall j :: 9 <= j < |uri| && j != path ==> uri[j] != '/' && uri[j] != ':'
    ensures ParseUri(uri) == NegativePath(8 - path, Parts(Datagram, false, Some(uri[7..path]), Some("5683"), None, Some(uri[9..|uri|])))
  {
    hide PickScheme;
    assert SCHEMES[0].text <= "coap://h?";
    PickedScheme(uri, 0);
    assert uri[7] == "coap://h?"[7] == 'h' && uri[8] == "coap://h?"[8] == '?';
    LocateAt(uri, '/', 7, path);
    LocateAt(uri, '?', 7, 8);
    LocateNone(uri, ':', 7);
  }

  /** Good offsets of any URI, whatever their order: host and port end inside the URI. */
  lemma GoodOffsetsInside(uri: string, s: Scheme)
    requires PickScheme(uri) == Some(s)
    requires FindOffsets(uri, |s.text|).Offsets? && GoodOffsets(uri, s, FindOffsets(uri, |s.text|))
    ensures var o := FindOffsets(uri, |s.text|);
            var end := EndBefore(uri, o.path, o.query);
            && |s.text| < end <= |uri| && o.path <= |uri| && o.query < |uri|
            && (o.port != 0 ==> |s.text| < o.port < end)
  {
    hide PickScheme, FindOffsets, Locate;
    var host := |s.text|;
    LocateFacts(uri, '/', host);
    LocateFacts(uri, '?', host);
    FoundOffsets(uri, host);
  }

  function BeforeEnd(s: Scheme, r: Parts, explicit: bool): string {
    if s.connection.LoRaWan? then OrEmpty(r.port) else OrEmpty(r.host) + PortText(explicit, r.port)
  }

  lemma SplitHead(uri: string, s: Scheme, o: Offsets)
    requires s.text <= uri && Ordered(uri, |s.text|, o)
    requires s.connection.LoRaWan? ==> o.port == 0
    ensures var e := EndBefore(uri, o.path, o.query);
            && |s.text| < e <= |uri|
            && uri[|s.text|..e] == BeforeEnd(s, SplitAt(uri, s, o), o.port != 0)
  {
    hide DefaultPort;
    var h, e := |s.text|, EndBefore(uri, o.path, o.query);
    if o.port != 0 {
      PortCut(uri, h, o.port, e);
    } else {
      assert uri[h..e] + "" == uri[h..e];
    }
  }

  lemma PortCut(uri: string, h: nat, port: nat, e: nat)
    requires h <= port < e <= |uri| && uri[port] == ':'
    ensures uri[h..e] == uri[h..port] + (":" + uri[port + 1..e])
  {
    Cut(uri, h, port, e);
    assert uri[port..e] == [':'] + uri[port + 1..e];
  }

  function AfterEnd(r: Parts): string {
    OrEmpty(r.path) + QueryText(r.query)
  }

  lemma SplitTail(uri: string, s: Scheme, o: Offsets)
    requires Ordered(uri, |s.text|, o)
    ensures var e := EndBefore(uri, o.path, o.query);
            e <= |uri| && uri[e..] == AfterEnd(SplitAt(uri, s, o))
  {
    var r := SplitAt(uri, s, o);
    var e := EndBefore(uri, o.path, o.query);
    var q := if o.query != 0 then o.query else |uri|;
    assert OrEmpty(r.path) == uri[e..q];
    assert QueryText(r.query) == uri[q..] by {
      if o.query != 0 {
        assert uri[q..] == ['?'] + uri[q + 1..];
      }
    }
    Cut(uri, e, q, |uri|);
  }

  /** The whole URI, as its parts spell it. */
  function Assemble(s: Scheme, r: Parts, explicitPort: bool): string {
    s.text + BeforeEnd(s, r, explicitPort) + AfterEnd(r)
  }

  lemma SplitAssembles(uri: string, s: Scheme, o: Offsets)
    requires s.text <= uri && o.Offsets? && Ordered(uri, |s.text|, o)
    requires s.connection.LoRaWan? ==> o.port == 0
    ensures uri == Assemble(s, SplitAt(uri, s, o), o.port != 0)
  {
    hide Ordered, SplitAt, BeforeEnd, AfterEnd;
    SplitHead(uri, s, o);
    SplitTail(uri, s, o);
    var h, e := |s.text|, EndBefore(uri, o.path, o.query);
    assert uri == uri[..h] + uri[h..e] + uri[e..];
  }

  lemma HostNotEmpty(uri: string, s: Scheme, o: Offsets)
    requires Ordered(uri, |s.text|, o)
    requires s.connection.LoRaWan? ==> o.port == 0
    ensures var r := SplitAt(uri, s, o);
            if s.connection.LoRaWan? then r.host.None? && OrEmpty(r.port) != "" else OrEmpty(r.host) != ""
  {
  }

  /** An accepted URI is the concatenation of its parts; the host is never empty. The port
      counts if the URI spelled it out. A LoRaWAN URI has an FPort in place of the host. */
  lemma Reassembly(uri: string)
    requires ParseUri(uri).Accepted?
    ensures PickScheme(uri).Some?
    ensures var s, r := PickScheme(uri).value, ParseUri(uri).parts;
            var o := FindOffsets(uri, |s.text|);
            && o.Offsets?
            && uri == Assemble(s, r, o.port != 0)
            && (if s.connection.LoRaWan? then r.host.None? && OrEmpty(r.port) != "" else OrEmpty(r.host) != "")
  {
    hide PickScheme, FindOffsets, SplitAt, Assemble, Ordered;
    var s := PickScheme(uri).value;
    var o := FindOffsets(uri, |s.text|);
    GoodOffsetsAreOrdered(uri, s);
    SplitAssembles(uri, s, o);
    HostNotEmpty(uri, s, o);
  }

  lemma Cut(s: string, i: nat, j: nat, k: nat)
    requires i <= j <= k <= |s|
    ensures s[i..k] == s[i..j] + s[j..k]
  {
  }

  // ---------- composing, then splitting ----------

  predicate Plain(host: string) {
    host != "" && host[0] != '[' && ':' !in host
  }

  predicate Bracketed(host: string) {
    |host| >= 2 && host[0] == '[' && host[|host| - 1] == ']' && ']' !in host[1..|host| - 1]
  }

  predicate Clean(part: string) {
    '/' !in part && '?' !in part
  }

  /** Parts a URI can be composed of; explicit says that the port is to be spelled out. */
  predicate Composable(s: Scheme, r: Parts, explicit: bool) {
    && s in SCHEMES && r.connection == s.connection && r.secure == s.secure
    && (if s.connection.LoRaWan? then
          && r.host.None? && !explicit
          && r.port.Some? && Plain(r.port.value) && Clean(r.port.value)
        else
          && r.host.Some? && (Plain(r.host.value) || Bracketed(r.host.value)) && Clean(r.host.value)
          && (if explicit then r.port.Some? && Clean(r.port.value)
              else r.port == DefaultPort(s.connection, s.secure)))
    && (r.path.Some? ==> r.path.value != "" && r.path.value[0] == '/' && '?' !in r.path.value)
    && (r.path.None? && r.query.Some? ==> '/' !in r.query.value)
  }

  /** A ':' in the path or query is taken for the port separator unless the host is
      bracketed or a port comes first. */
  predicate ColonSafe(s: Scheme, r: Parts, explicit: bool) {
    explicit || (r.host.Some? && Bracketed(r.host.value)) || ':' !in AfterEnd(r)
  }

  /** uri is a prefix of length h, then head, then tail. */
  predicate Layered(uri: string, h: nat, head: string, tail: string) {
    && |uri| == h + |head| + |tail|
    && (forall j :: 0 <= j < |head| ==> uri[h + j] == head[j])
    && (forall j :: 0 <= j < |tail| ==> uri[h + |head| + j] == tail[j])
  }

  lemma AssembleLayered(s: Scheme, r: Parts, explicit: bool)
    ensures Layered(Assemble(s, r, explicit), |s.text|, BeforeEnd(s, r, explicit), AfterEnd(r))
    ensures s.text <= Assemble(s, r, explicit)
  {
  }

  /** A separator that stands nowhere before position k. */
  lemma LocateAt(uri: string, c: char, h: nat, k: nat)
    requires h <= k < |uri| && uri[k] == c && forall j :: h <= j < k ==> uri[j] != c
    ensures IndexFrom(uri, c, h) == k && Locate(uri, c, h) == k
  {
  }

  lemma LocateNone(uri: string, c: char, h: nat)
    requires h <= |uri| && forall j :: h <= j < |uri| ==> uri[j] != c
    ensures Locate(uri, c, h) == 0
  {
  }

  lemma LocateInTail(uri: string, h: nat, head: string, tail: string, c: char, k: nat)
    requires Layered(uri, h, head, tail) && c !in head
    requires k <= |tail| && c !in tail[..k] && (k < |tail| ==> tail[k] == c)
    ensures Locate(uri, c, h) == if k < |tail| then h + |head| + k else 0
  {
    var e := h + |head|;
    forall j | h <= j < e + k ensures uri[j] != c {
      if j < e {
        assert uri[h + (j - h)] == head[j - h];
      } else {
        assert uri[e + (j - e)] == tail[j - e] == tail[..k][j - e];
      }
    }
    if k < |tail| {
      LocateAt(uri, c, h, e + k);
    } else {
      LocateNone(uri, c, h);
    }
  }

  lemma HeadIsClean(s: Scheme, r: Parts, explicit: bool)
    requires Composable(s, r, explicit)
    ensures Clean(BeforeEnd(s, r, explicit)) && BeforeEnd(s, r, explicit) != ""
  {
  }

  lemma PathAndQueryOffsets(uri: string, s: Scheme, r: Parts, explicit: bool)
    requires Composable(s, r, explicit) && uri == Assemble(s, r, explicit)
    ensures var e := |s.text| + |BeforeEnd(s, r, explicit)|;
            && |s.text| <= |uri|
            && Locate(uri, '/', |s.text|) == (if r.path.Some? then e else 0)
            && Locate(uri, '?', |s.text|) == (if r.query.Some? then e + |OrEmpty(r.path)| else 0)
  {
    hide Layered, BeforeEnd;
    var head, tail := BeforeEnd(s, r, explicit), AfterEnd(r);
    AssembleLayered(s, r, explicit);
    HeadIsClean(s, r, explicit);
    assert '/' !in head && '?' !in head;
    LocateInTail(uri, |s.text|, head, tail, '/', if r.path.Some? then 0 else |tail|);
    assert tail[..|OrEmpty(r.path)|] == OrEmpty(r.path);
    LocateInTail(uri, |s.text|, head, tail, '?', |OrEmpty(r.path)|);
  }

  function FirstColon(s: string): (k: nat)
    ensures k <= |s| && ':' !in s[..k] && (k < |s| ==> s[k] == ':')
  {
    Uri.IndexFrom(s, ':', 0)
  }

  /** Where the port separator is found: the spelled-out one, or a colon further on. */
  function PortOffset(s: Scheme, r: Parts, explicit: bool): nat {
    if explicit then |s.text| + |OrEmpty(r.host)|
    else if ColonSafe(s, r, explicit) then 0
    else |s.text| + |BeforeEnd(s, r, explicit)| + FirstColon(AfterEnd(r))
  }

  lemma LocateInHead(uri: string, h: nat, head: string, tail: string, c: char, k: nat)
    requires Layered(uri, h, head, tail)
    requires k < |head| && head[k] == c && forall j :: 0 <= j < k ==> head[j] != c
    ensures Locate(uri, c, h) == h + k
  {
    forall j | h <= j < h + k ensures uri[j] != c {
      assert uri[h + (j - h)] == head[j - h];
    }
    assert uri[h + k] == head[k];
    LocateAt(uri, c, h, h + k);
  }

  /** What precedes the path when the host has no brackets. */
  lemma PlainHead(s: Scheme, r: Parts, explicit: bool)
    requires Composable(s, r, explicit)
    requires r.host.Some? ==> Plain(r.host.value)
    ensures var head, k := BeforeEnd(s, r, explicit), |OrEmpty(r.host)|;
            && head != "" && head[0] != '['
            && (explicit ==> k < |head| && head[k] == ':' && forall j :: 0 <= j < k ==> head[j] != ':')
            && (!explicit ==> ':' !in head && (ColonSafe(s, r, explicit) <==> ':' !in AfterEnd(r)))
  {
  }

  /** What precedes the path when the host has brackets. */
  lemma BracketedHead(s: Scheme, r: Parts, explicit: bool)
    requires Composable(s, r, explicit)
    requires r.host.Some? && Bracketed(r.host.value)
    ensures var head, tail, n := BeforeEnd(s, r, explicit), AfterEnd(r), |r.host.value|;
            && 2 <= n <= |head| && head[0] == '[' && head[n - 1] == ']'
            && (forall j :: 1 <= j < n - 1 ==> head[j] != ']')
            && (explicit ==> n < |head| && head[n] == ':')
            && (!explicit ==> n == |head| && (tail != [] ==> tail[0] == '/' || tail[0] == '?'))
  {
    hide Clean, DefaultPort;
    var host, head := r.host.value, BeforeEnd(s, r, explicit);
    assert head == host + PortText(explicit, r.port);
    forall j | 1 <= j < |host| - 1 ensures head[j] != ']' {
      assert head[j] == host[1..|host| - 1][j - 1];
    }
  }

  lemma PlainPort(uri: string, s: Scheme, r: Parts, explicit: bool)
    requires Composable(s, r, explicit) && uri == Assemble(s, r, explicit)
    requires r.host.Some? ==> Plain(r.host.value)
    ensures |s.text| < |uri| && uri[|s.text|] != '['
    ensures Locate(uri, ':', |s.text|) == PortOffset(s, r, explicit)
  {
    hide Composable, Assemble, BeforeEnd, AfterEnd, Plain, ColonSafe;
    var h, head, tail := |s.text|, BeforeEnd(s, r, explicit), AfterEnd(r);
    AssembleLayered(s, r, explicit);
    PlainHead(s, r, explicit);
    assert uri[h + 0] == head[0];
    if explicit {
      LocateInHead(uri, h, head, tail, ':', |OrEmpty(r.host)|);
    } else {
      LocateInTail(uri, h, head, tail, ':', FirstColon(tail));
    }
  }

  lemma BracketedPort(uri: string, s: Scheme, r: Parts, explicit: bool)
    requires Composable(s, r, explicit) && uri == Assemble(s, r, explicit)
    requires r.host.Some? && Bracketed(r.host.value)
    ensures |s.text| < |uri| && uri[|s.text|] == '['
    ensures FindOffsets(uri, |s.text|) ==
            Offsets(PortOffset(s, r, explicit), Locate(uri, '/', |s.text|), Locate(uri, '?', |s.text|))
  {
    hide Composable, Assemble, BeforeEnd, AfterEnd, Locate;
    var h, head, tail := |s.text|, BeforeEnd(s, r, explicit), AfterEnd(r);
    var n := |r.host.value|;
    AssembleLayered(s, r, explicit);
    BracketedHead(s, r, explicit);
    assert uri[h + 0] == head[0];
    forall j | h + 1 <= j < h + n - 1 ensures uri[j] != ']' {
      assert uri[h + (j - h)] == head[j - h];
    }
    assert uri[h + (n - 1)] == head[n - 1];
    LocateAt(uri, ']', h + 1, h + n - 1);
    if explicit {
      assert uri[h + n] == head[n];
    } else if tail != [] {
      assert uri[h + |head| + 0] == tail[0];
    }
  }

  lemma ComposedOffsets(uri: string, s: Scheme, r: Parts, explicit: bool)
    requires Composable(s, r, explicit) && uri == Assemble(s, r, explicit)
    ensures var e := |s.text| + |BeforeEnd(s, r, explicit)|;
            && |s.text| < e <= |uri|
            && FindOffsets(uri, |s.text|) ==
               Offsets(PortOffset(s, r, explicit), if r.path.Some? then e else 0,
                       if r.query.Some? then e + |OrEmpty(r.path)| else 0)
  {
    hide Assemble, AfterEnd, BeforeEnd, PortOffset, Clean;
    AssembleLayered(s, r, explicit);
    HeadIsClean(s, r, explicit);
    PathAndQueryOffsets(uri, s, r, explicit);
    if r.host.Some? && Bracketed(r.host.value) {
      BracketedPort(uri, s, r, explicit);
    } else {
      PlainPort(uri, s, r, explicit);
    }
  }

  lemma LayeredSlices(uri: string, h: nat, head: string, tail: string)
    requires Layered(uri, h, head, tail)
    ensures uri[h..h + |head|] == head && uri[h + |head|..] == tail
  {
  }

  lemma HeadSlices(uri: string, h: nat, host: string, port: string)
    requires h + |host| + 1 + |port| <= |uri|
    requires uri[h..h + |host| + 1 + |port|] == host + ":" + port
    ensures uri[h..h + |host|] == host
    ensures uri[h + |host| + 1..h + |host| + 1 + |port|] == port
  {
    var head := host + ":" + port;
    assert uri[h..h + |host|] == uri[h..h + |head|][..|host|] == head[..|host|] == host;
    assert uri[h + |host| + 1..h + |head|] == uri[h..h + |head|][|host| + 1..] == head[|host| + 1..] == port;
  }

  /** The host and port parts of a composed URI, given where they end. */
  lemma ComposedHead(uri: string, s: Scheme, r: Parts, explicit: bool, o: Offsets)
    requires Composable(s, r, explicit) && ColonSafe(s, r, explicit)
    requires var head := BeforeEnd(s, r, explicit);
             |s.text| + |head| <= |uri| && uri[|s.text|..|s.text| + |head|] == head
    requires o.Offsets? && o.port == PortOffset(s, r, explicit)
    requires EndBefore(uri, o.path, o.query) == |s.text| + |BeforeEnd(s, r, explicit)|
    ensures SplitAt(uri, s, o).host == r.host && SplitAt(uri, s, o).port == r.port
  {
    hide ColonSafe, Clean, Plain, Bracketed, DefaultPort, EndBefore;
    var h, head := |s.text|, BeforeEnd(s, r, explicit);
    if explicit {
      HeadSlices(uri, h, r.host.value, r.port.value);
    } else if r.host.Some? {
      assert head == r.host.value;
    }
  }

  /** The path and query parts of a composed URI, given where they begin. */
  lemma ComposedTail(uri: string, s: Scheme, r: Parts, e: nat, o: Offsets)
    requires 0 < e <= |uri| && uri[e..] == AfterEnd(r) && o.Offsets?
    requires o.path == (if r.path.Some? then e else 0)
    requires o.query == (if r.query.Some? then e + |OrEmpty(r.path)| else 0)
    ensures SplitAt(uri, s, o).path == r.path && SplitAt(uri, s, o).query == r.query
  {
    hide AfterEnd;
    var q := e + |OrEmpty(r.path)|;
    TailSlices(uri, e, r);
    if r.query.Some? {
      assert uri[q..] == "?" + r.query.value;
      assert uri[q..][1..] == r.query.value;
      assert uri[q + 1..|uri|] == uri[q..][1..];
    }
  }

  lemma TailSlices(uri: string, e: nat, r: Parts)
    requires e <= |uri| && uri[e..] == AfterEnd(r)
    ensures var q := e + |OrEmpty(r.path)|;
            q <= |uri| && uri[e..q] == OrEmpty(r.path) && uri[q..] == QueryText(r.query)
  {
  }

  /** Once the offsets are known, the parts are the ones the URI was composed of. */
  lemma ComposedSplit(uri: string, s: Scheme, r: Parts, explicit: bool)
    requires Composable(s, r, explicit) && uri == Assemble(s, r, explicit) && ColonSafe(s, r, explicit)
    ensures |s.text| <= |uri| && FindOffsets(uri, |s.text|).Offsets?
    ensures SplitAt(uri, s, FindOffsets(uri, |s.text|)) == r
  {
    hide Assemble, FindOffsets, ColonSafe, Composable, Layered, PortOffset, BeforeEnd, AfterEnd, SplitAt, EndBefore;
    var h, head, tail := |s.text|, BeforeEnd(s, r, explicit), AfterEnd(r);
    ComposedOffsets(uri, s, r, explicit);
    AssembleLayered(s, r, explicit);
    LayeredLength(uri, h, head, tail);
    LayeredSlices(uri, h, head, tail);
    var o := FindOffsets(uri, h);
    ComposedEnd(uri, s, r, explicit, h + |head|, o);
    ComposedHead(uri, s, r, explicit, o);
    ComposedTail(uri, s, r, h + |head|, o);
  }

  lemma ComposedEnd(uri: string, s: Scheme, r: Parts, explicit: bool, e: nat, o: Offsets)
    requires Composable(s, r, explicit)
    requires 0 < e <= |uri| && |uri| == e + |AfterEnd(r)| && o.Offsets?
    requires o.path == (if r.path.Some? then e else 0)
    requires o.query == (if r.query.Some? then e + |OrEmpty(r.path)| else 0)
    ensures EndBefore(uri, o.path, o.query) == e
    ensures SplitAt(uri, s, o).connection == r.connection && SplitAt(uri, s, o).secure == r.secure
  {
    hide Clean, Plain, Bracketed, DefaultPort, Slice;
  }

  lemma LayeredLength(uri: string, h: nat, head: string, tail: string)
    requires Layered(uri, h, head, tail)
    ensures |uri| == h + |head| + |tail|
  {
  }

  /** Composing a URI and splitting it gives the same parts back, with the connection type,
      security and default port of the scheme; it is rejected exactly when a colon of its
      path or query would be taken for the port separator. */
  lemma UriRoundTrip(s: Scheme, r: Parts, explicit: bool)
    requires Composable(s, r, explicit)
    ensures ParseUri(Assemble(s, r, explicit)) ==
            if ColonSafe(s, r, explicit) then Accepted(r) else Rejected
  {
    hide Assemble, FindOffsets, Clean, SplitAt, PickScheme, Plain, Bracketed, BeforeEnd;
    var uri := Assemble(s, r, explicit);
    AssembleLayered(s, r, explicit);
    var k :| 0 <= k < |SCHEMES| && SCHEMES[k] == s;
    PickedScheme(uri, k);
    ComposedOffsets(uri, s, r, explicit);
    if ColonSafe(s, r, explicit) {
      ComposedSplit(uri, s, r, explicit);
      if explicit {
        ExplicitPortInside(s, r);
      }
    } else {
      LateColon(r);
    }
  }

  /** Ports by scheme (sections 6.1 and 6.2 of RFC 7252 for the first two); SMS has none. */
  function WellKnownPort(scheme: string): (port: Option<string>) {
    match scheme
    case "coap://" => Some("5683")
    case "coaps://" => Some("5684")
    case "coap+tcp://" => Some("5683")
    case "coaps+tcp://" => Some("5684")
    case "coap+ws://" => Some("80")
    case "coaps+ws://" => Some("443")
    case _ => None
  }

  lemma SchemePort(s: Scheme)
    requires s in SCHEMES
    ensures DefaultPort(s.connection, s.secure) == WellKnownPort(s.text)
  {
  }

  /** The port of a URI that spells out neither port, path nor query. */
  lemma WellKnownPorts(s: Scheme, host: string)
    requires s in SCHEMES && !s.connection.LoRaWan? && Plain(host) && Clean(host)
    ensures ParseUri(s.text + host) ==
            Accepted(Parts(s.connection, s.secure, Some(host), WellKnownPort(s.text), None, None))
  {
    hide ParseUri, Plain, Clean, ColonSafe, DefaultPort, WellKnownPort;
    SchemePort(s);
    var r := Parts(s.connection, s.secure, Some(host), DefaultPort(s.connection, s.secure), None, None);
    UriRoundTrip(s, r, false);
    NothingAfterHost(s, r);
    assert Assemble(s, r, false) == s.text + host;
  }

  /** Connection and security by scheme. */
  function SchemeKind(scheme: string): (kind: (Connection, bool)) {
    match scheme
    case "coap://" => (Datagram, false)
    case "coaps://" => (Datagram, true)
    case "coap+tcp://" => (Stream, false)
    case "coaps+tcp://" => (Stream, true)
    case "coap+ws://" => (WebSocket, false)
    case "coaps+ws://" => (WebSocket, true)
    case "coap+sms://" => (Sms, false)
    case "sms://" => (Sms, false)
    case _ => (LoRaWan, false)
  }

  lemma SchemeKinds(k: nat)
    requires k < |SCHEMES|
    ensures (SCHEMES[k].connection, SCHEMES[k].secure) == SchemeKind(SCHEMES[k].text)
  {
  }

  /** A URI of one of the nine schemes and a host. */
  lemma HostUri(k: nat, text: string, host: string)
    requires k < |SCHEMES| && SCHEMES[k].text == text && Plain(host) && Clean(host)
    ensures var (connection, secure) := SchemeKind(text);
            ParseUri(text + host) ==
              Accepted(if text == "lorawan://" then Parts(LoRaWan, false, None, Some(host), None, None)
                       else Parts(connection, secure, Some(host), WellKnownPort(text), None, None))
  {
    hide ParseUri, Plain, Clean, ColonSafe;
    var s := SCHEMES[k];
    SchemeKinds(k);
    OnlyLoRaWan(k);
    if s.connection.LoRaWan? {
      var r := Parts(LoRaWan, false, None, Some(host), None, None);
      UriRoundTrip(s, r, false);
      NothingAfterHost(s, r);
      assert Assemble(s, r, false) == s.text + host;
    } else {
      WellKnownPorts(s, host);
    }
  }

  lemma OnlyLoRaWan(k: nat)
    requires k < |SCHEMES|
    ensures SCHEMES[k].connection.LoRaWan? <==> SCHEMES[k].text == "lorawan://"
  {
  }

  lemma PlainHost(host: string)
    requires host != "" && host[0] != '[' && ':' !in host && '/' !in host && '?' !in host
    ensures Plain(host) && Clean(host)
  {
  }

  /** Type, security and port of every scheme there is, for any host without colon, bracket or
      separator. */
  lemma NineSchemes(host: string)
    requires host != "" && host[0] != '[' && ':' !in host && '/' !in host && '?' !in host
    ensures ParseUri("coap://" + host) == Accepted(Parts(Datagram, false, Some(host), Some("5683"), None, None))
    ensures ParseUri("coaps://" + host) == Accepted(Parts(Datagram, true, Some(host), Some("5684"), None, None))
    ensures ParseUri("coap+tcp://" + host) == Accepted(Parts(Stream, false, Some(host), Some("5683"), None, None))
    ensures ParseUri("coaps+tcp://" + host) == Accepted(Parts(Stream, true, Some(host), Some("5684"), None, None))
    ensures ParseUri("coap+ws://" + host) == Accepted(Parts(WebSocket, false, Some(host), Some("80"), None, None))
    ensures ParseUri("coaps+ws://" + host) == Accepted(Parts(WebSocket, true, Some(host), Some("443"), None, None))
    ensures ParseUri("coap+sms://" + host) == Accepted(Parts(Sms, false, Some(host), None, None, None))
    ensures ParseUri("sms://" + host) == Accepted(Parts(Sms, false, Some(host), None, None, None))
    ensures ParseUri("lorawan://" + host) == Accepted(Parts(LoRaWan, false, None, Some(host), None, None))
  {
    hide ParseUri, Plain, Clean;
    PlainHost(host);
    HostUri(0, "coap://", host);
    HostUri(1, "coaps://", host);
    HostUri(2, "coap+tcp://", host);
    HostUri(3, "coaps+tcp://", host);
    HostUri(4, "coap+ws://", host);
    HostUri(5, "coaps+ws://", host);
    HostUri(6, "coap+sms://", host);
    HostUri(7, "sms://", host);
    HostUri(8, "lorawan://", host);
  }

  // ---------- which URIs are rejected ----------

  /** The ':' at k is the first one of the text behind the scheme. */
  predicate FirstColonAt(text: string, k: nat) {
    k < |text| && text[k] == ':' && forall j :: 0 <= j < k ==> text[j] != ':'
  }

  /** The ']' at k is the first one. */
  predicate FirstBracketAt(text: string, k: nat) {
    k < |text| && text[k] == ']' && forall j :: 0 <= j < k ==> text[j] != ']'
  }

  /** A '/' or a '?' stands before position k. */
  predicate SeparatorBefore(text: string, k: nat) {
    exists j :: 0 <= j < k && j < |text| && (text[j] == '/' || text[j] == '?')
  }

  /** The ':' at k separates a port: behind the bracket of a bracketed host, otherwise the first. */
  predicate PortColonAt(text: string, k: nat) {
    if text != "" && text[0] == '[' then k > 0 && k < |text| && text[k] == ':' && FirstBracketAt(text, k - 1)
    else FirstColonAt(text, k)
  }

  /** Why the text behind a scheme is refused: there is no host, its bracket is never closed, or its
      port separator stands first, behind a '/' or '?', or in a LoRaWAN URI. */
  ghost predicate Refusable(text: string, lorawan: bool) {
    || text == "" || text[0] == '/' || text[0] == '?'
    || (text[0] == '[' && ']' !in text)
    || exists k :: 0 <= k < |text| && PortColonAt(text, k) && (k == 0 || lorawan || SeparatorBefore(text, k))
  }

  /** A URI is rejected exactly if it has none of the nine schemes or what follows is refused. */
  lemma RejectedIff(uri: string)
    ensures ParseUri(uri).Rejected? <==>
            || (forall k :: 0 <= k < |SCHEMES| ==> !(SCHEMES[k].text <= uri))
            || exists k :: 0 <= k < |SCHEMES| && SCHEMES[k].text <= uri
                           && Refusable(uri[|SCHEMES[k].text|..], SCHEMES[k].text == "lorawan://")
  {
    hide Refusable, FindOffsets, GoodOffsets, SplitAt;
    if PickScheme(uri).Some? {
      var s := PickScheme(uri).value;
      var k :| 0 <= k < |SCHEMES| && SCHEMES[k] == s;
      OnlyLoRaWan(k);
      RefusableIff(uri, s);
      forall i | 0 <= i < |SCHEMES| && SCHEMES[i].text <= uri ensures i == k {
        SchemesArePrefixFree(uri, i, k);
      }
    }
  }

  lemma UniquePortColon(text: string, i: nat, k: nat)
    requires i < |text| && k < |text| && PortColonAt(text, i) && PortColonAt(text, k)
    ensures i == k
  {
  }

  lemma BracketOffset(uri: string, host: nat)
    requires 0 < host < |uri| && uri[host] == '['
    ensures var text, o := uri[host..], FindOffsets(uri, host);
            && (o.Unclosed? <==> ']' !in text)
            && (o.Offsets? ==>
                  && (o.port == 0 ==> forall k :: 0 <= k < |text| ==> !PortColonAt(text, k))
                  && (o.port != 0 ==> host < o.port < |uri| && PortColonAt(text, o.port - host)))
  {
    hide Locate;
    var text, close := uri[host..], IndexFrom(uri, ']', host + 1);
    assert forall j :: 0 <= j < |text| ==> text[j] == uri[host + j];
    if close < |uri| {
      assert FirstBracketAt(text, close - host);
      forall k | 0 <= k < |text| && PortColonAt(text, k) ensures k == close - host + 1 {
        assert FirstBracketAt(text, k - 1);
      }
    } else {
      assert forall j :: 0 <= j < |text| ==> text[j] != ']';
    }
  }

  lemma ColonOffset(uri: string, host: nat)
    requires 0 < host <= |uri| && (host < |uri| ==> uri[host] != '[')
    ensures var text, o := uri[host..], FindOffsets(uri, host);
            && o.Offsets?
            && (o.port == 0 ==> forall k :: 0 <= k < |text| ==> !PortColonAt(text, k))
            && (o.port != 0 ==> host <= o.port < |uri| && PortColonAt(text, o.port - host))
  {
    var text, colon := uri[host..], IndexFrom(uri, ':', host);
    assert forall j :: 0 <= j < |text| ==> text[j] == uri[host + j];
    if colon < |uri| {
      assert FirstColonAt(text, colon - host);
    }
  }

  lemma SeparatorOffsets(uri: string, host: nat, k: nat)
    requires 0 < host && host + k <= |uri|
    ensures var path, query := Locate(uri, '/', host), Locate(uri, '?', host);
            SeparatorBefore(uri[host..], k) <==> (path != 0 && path < host + k) || (query != 0 && query < host + k)
  {
    hide Locate;
    var text, path, query := uri[host..], Locate(uri, '/', host), Locate(uri, '?', host);
    assert forall j :: 0 <= j < |text| ==> text[j] == uri[host + j];
    LocateFacts(uri, '/', host);
    LocateFacts(uri, '?', host);
    if SeparatorBefore(text, k) {
      var j :| 0 <= j < k && j < |text| && (text[j] == '/' || text[j] == '?');
      LocateFirst(uri, text[j], host, host + j);
    }
    if path != 0 && path < host + k {
      assert text[path - host] == '/';
    }
    if query != 0 && query < host + k {
      assert text[query - host] == '?';
    }
  }

  lemma LocateFirst(uri: string, c: char, host: nat, j: nat)
    requires 0 < host <= j < |uri| && uri[j] == c
    ensures 0 < Locate(uri, c, host) <= j
  {
  }

  lemma RefusableIff(uri: string, s: Scheme)
    requires s.text <= uri && |s.text| > 0
    ensures var o, text := FindOffsets(uri, |s.text|), uri[|s.text|..];
            o.Unclosed? || !GoodOffsets(uri, s, o) <==> Refusable(text, s.connection.LoRaWan?)
  {
    hide FindOffsets, Locate, PortColonAt, SeparatorBefore;
    var host, text := |s.text|, uri[|s.text|..];
    var o := FindOffsets(uri, host);
    if host < |uri| && uri[host] == '[' {
      BracketOffset(uri, host);
    } else {
      ColonOffset(uri, host);
    }
    if o.Offsets? && text != "" {
      FoundOffsets(uri, host);
      AtOnce(uri, '/', host);
      AtOnce(uri, '?', host);
      if o.port != 0 {
        var k := o.port - host;
        SeparatorOffsets(uri, host, k);
        PortIsNoSeparator(uri, host);
        forall i | 0 <= i < |text| && PortColonAt(text, i) ensures i == k {
          UniquePortColon(text, i, k);
        }
      }
    }
  }

  lemma AtOnce(uri: string, c: char, host: nat)
    requires 0 < host < |uri|
    ensures Locate(uri, c, host) == host <==> uri[host] == c
  {
  }

  lemma PortIsNoSeparator(uri: string, host: nat)
    requires 0 < host <= |uri| && FindOffsets(uri, host).Offsets? && FindOffsets(uri, host).port != 0
    ensures var o := FindOffsets(uri, host);
            o.port != o.path && o.port != o.query
  {
    hide FindOffsets, Locate;
    FoundOffsets(uri, host);
    LocateFacts(uri, '/', host);
    LocateFacts(uri, '?', host);
  }

  lemma NothingAfterHost(s: Scheme, r: Parts)
    requires r.path.None? && r.query.None?
    ensures AfterEnd(r) == "" && ColonSafe(s, r, false)
  {
  }

  lemma ExplicitPortInside(s: Scheme, r: Parts)
    requires Composable(s, r, true)
    ensures 0 < |OrEmpty(r.host)| < |BeforeEnd(s, r, true)|
  {
  }

  /** The first colon after the host comes after the separator that starts the path or query. */
  lemma LateColon(r: Parts)
    requires r.path.Some? ==> r.path.value != "" && r.path.value[0] == '/'
    requires ':' in AfterEnd(r)
    ensures 0 < FirstColon(AfterEnd(r)) < |AfterEnd(r)|
    ensures r.path.Some? || r.query.Some?
  {
  }
}
