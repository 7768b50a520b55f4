/** What a printed Shadowsocks link parses back to. */
module SsRoundTrip {
  import opened Wrappers
  import opened ByteText
  import opened Ascii
  import opened Routing
  import opened Model
  import opened Percent
  import opened UriParsing
  import opened ShareLink
  import opened LinkRoundTrip

  /** The credentials come back from Base64. */
  lemma UserinfoRoundTrip(creds: string)
    requires IsByteText(creds) && ':' in creds
    ensures var u := Base64.EncodeStandard(BytesOf(creds));
            DecodeUserinfo(u) == Ok(creds) && '#' !in u && '?' !in u && '@' !in u
  {
    Base64.Base64RoundTrip(BytesOf(creds));
    Base64.EncodeIsPrintable(BytesOf(creds));
    TextRoundTrip(creds);
  }

  lemma EndpointRoundTrip(creds: string, host: string, port: Port)
    requires PlainHost(host) && '/' !in host && ':' in creds
    ensures var (cipher, password) := Cut(creds, ':');
            password.Some? && SsFromParts(creds, HostPort(host, port)) ==
              Ok(SsEndpoint(cipher, password.value, host, port))
  {
    DecimalIsDigits(port, '/');
    FindNone(HostPort(host, port), '/');
    HostPortSplits(host, port);
  }

  lemma BodyRoundTrip(userinfo: string, creds: string, host: string, port: Port)
    requires PlainHost(host) && '/' !in host && DecodeUserinfo(userinfo) == Ok(creds) && ':' in creds
    ensures var (cipher, password) := Cut(creds, ':');
            && password.Some?
            && SsBody(Prefix(Some(userinfo), '@') + HostPort(host, port))
               == Ok(SsEndpoint(cipher, password.value, host, port))
  {
    SafeHostPort(host, port);
    CutLastAt(Some(userinfo), '@', HostPort(host, port));
    EndpointRoundTrip(creds, host, port);
  }

  // ----- transport parameters -----

  lemma TransportPiece(key: string, value: string, base: Params)
    requires PlainKey(key) && IsByteText(value) && value != ""
    ensures AddTransport(key + ['='] + Pct(value), base) ==
            (match TransportKey(key) case Some(name) => base[name := value] case None => base)
  {
    PieceParts(key, value);
    PctRoundTrip(value);
  }

  lemma {:induction false} TransportLookup(params: Params, keys: seq<string>, base: Params, k: string)
    requires forall x :: x in params ==> IsByteText(params[x])
    requires forall i :: 0 <= i < |keys| ==> PlainKey(keys[i]) && keys[i] != "allowInsecure"
    ensures var m := AddTransports(QueryPieces(params, keys), base);
            if Shown(params, k) && k in keys && TransportKey(k) == Some(k) then k in m && m[k] == params[k]
            else (k in m <==> k in base) && (k in base ==> m[k] == base[k])
    decreases |keys|
  {
    if keys != [] {
      var rest := QueryPieces(params, keys[1..]);
      var key := keys[0];
      assert TransportKey(key) == Some(key) || TransportKey(key) == None;
      if Shown(params, key) {
        var piece := key + ['='] + Pct(params[key]);
        TransportPiece(key, params[key], base);
        assert ([piece] + rest)[1..] == rest;
        TransportLookup(params, keys[1..], AddTransport(piece, base), k);
      } else {
        assert [] + rest == rest;
        TransportLookup(params, keys[1..], base, k);
      }
    }
  }

  /** The keys the printer writes and the parser keeps; it writes `type` too, which the parser drops. */
  const SS_KEPT := ["security", "sni", "alpn", "fp"]

  lemma PrintedKeys()
    ensures forall i :: 0 <= i < |SS_KEYS| ==> PlainKey(SS_KEYS[i]) && SS_KEYS[i] != "allowInsecure"
    ensures forall k :: k in SS_KEYS && TransportKey(k) == Some(k) <==> k in SS_KEPT
  {
    forall i | 0 <= i < |SS_KEYS| ensures PlainKey(SS_KEYS[i]) && SS_KEYS[i] != "allowInsecure" {
      UnreservedKeyIsPlain(SS_KEYS[i]);
    }
    assert TransportKey("type") == None;
  }

  lemma SplitOfPrinted(params: Params, keys: seq<string>, base: Params)
    requires forall k :: k in params ==> IsByteText(params[k])
    requires forall i :: 0 <= i < |keys| ==> PlainKey(keys[i])
    ensures var q := JoinedQuery(QueryPieces(params, keys));
            AddTransports(Split(if q.Some? then q.value else "", '&'), base) ==
              AddTransports(QueryPieces(params, keys), base)
  {
    var pieces := QueryPieces(params, keys);
    PiecesAreSeparable(params, keys);
    if pieces == [] {
      assert Split("", '&') == [""];
    } else {
      SplitJoin(pieces);
    }
  }

  function KeptParams(params: Params): Params {
    map k | k in params && k in SS_KEPT && params[k] != "" :: params[k]
  }

  lemma KeptLookup(params: Params, base: Params, k: string)
    requires forall x :: x in params ==> IsByteText(params[x])
    ensures var m, want := AddTransports(QueryPieces(params, SS_KEYS), base), base + KeptParams(params);
            (k in m <==> k in want) && (k in want ==> m[k] == want[k])
  {
    PrintedKeys();
    TransportLookup(params, SS_KEYS, base, k);
  }

  lemma KeptMap(params: Params, base: Params)
    requires forall k :: k in params ==> IsByteText(params[k])
    ensures AddTransports(QueryPieces(params, SS_KEYS), base) == base + KeptParams(params)
  {
    var m, want := AddTransports(QueryPieces(params, SS_KEYS), base), base + KeptParams(params);
    forall k ensures (k in m <==> k in want) && (k in want ==> m[k] == want[k]) {
      KeptLookup(params, base, k);
    }
    assert m == want;
  }

  lemma TransportRoundTrip(params: Params, base: Params)
    requires forall k :: k in params ==> IsByteText(params[k])
    ensures var q := JoinedQuery(QueryPieces(params, SS_KEYS));
            AddTransports(Split(if q.Some? then q.value else "", '&'), base) == base + KeptParams(params)
  {
    PrintedKeys();
    SplitOfPrinted(params, SS_KEYS, base);
    KeptMap(params, base);
  }

  // ----- the whole link -----

  function Creds(p: ServerProfile): string
    requires "method" in p.params && "password" in p.params
  {
    p.params["method"] + ":" + p.params["password"]
  }

  /** What a Shadowsocks link carries: the method ends at the first colon of the credentials. */
  function SsCarried(p: ServerProfile): ServerProfile
    requires "method" in p.params && "password" in p.params
  {
    var (cipher, password) := Cut(Creds(p), ':');
    p.(name := if p.name == "" then HostPort(p.address, p.port) else p.name,
       params := map["method" := cipher, "password" := if password.Some? then password.value else ""] +
         KeptParams(p.params),
       tags := [])
  }

  lemma SsOfParts(rest: string, before: string, body: string, query: Option<string>, fragment: Option<string>,
                  e: SsEndpoint)
    requires Cut(rest, '#') == (before, fragment) && Cut(before, '?') == (body, query) && SsBody(body) == Ok(e)
    ensures ParseSsRest(rest) == Ok(SsProfile(e, query, fragment))
  {
  }

  lemma SsProfileOf(e: SsEndpoint, params: Params, name: string)
    requires IsByteText(name) && forall k :: k in params ==> IsByteText(params[k])
    ensures SsProfile(e, JoinedQuery(QueryPieces(params, SS_KEYS)), NameFragment(name)) ==
            MakeProfile(Shadowsocks, e.host, e.port, map["method" := e.cipher, "password" := e.password] +
                        KeptParams(params), Some(name))
  {
    TransportRoundTrip(params, map["method" := e.cipher, "password" := e.password]);
    NameComesBack(name);
  }

  lemma SsParts(userinfo: string, creds: string, host: string, port: Port, params: Params, name: string)
    returns (e: SsEndpoint)
    requires DecodeUserinfo(userinfo) == Ok(creds) && ':' in creds && '#' !in userinfo && '?' !in userinfo
    requires IsByteText(name) && PlainHost(host) && '/' !in host
    requires forall k :: k in params ==> IsByteText(params[k])
    ensures e.host == host && e.port == port && Cut(creds, ':') == (e.cipher, Some(e.password))
    ensures var query := JoinedQuery(QueryPieces(params, SS_KEYS));
            ParseShadowsocks(Link("ss", Some(userinfo), host, port, query, NameFragment(name))) ==
              Ok(SsProfile(e, query, NameFragment(name)))
  {
    var query := JoinedQuery(QueryPieces(params, SS_KEYS));
    var s := Link("ss", Some(userinfo), host, port, query, NameFragment(name));
    var authority := Prefix(Some(userinfo), '@') + HostPort(host, port);
    BodyRoundTrip(userinfo, creds, host, port);
    e := SsBody(authority).value;
    PrintedKeys();
    QueryRoundTrip(params, SS_KEYS);
    LinkDissected("ss", Some(userinfo), host, port, query, NameFragment(name));
    SsOfParts(s[5..], authority + Suffix('?', query), authority, query, NameFragment(name), e);
  }

  lemma CredsHoldColon(p: ServerProfile)
    requires BytesOnly(p) && "method" in p.params && "password" in p.params
    ensures ':' in Creds(p) && IsByteText(Creds(p))
  {
    assert Creds(p)[|p.params["method"]|] == ':';
  }

  lemma SsReaches(p: ServerProfile)
    requires BytesOnly(p) && p.protocol == Shadowsocks && "method" in p.params && "password" in p.params
    ensures SsLink(p).Some? && ParseLink(SsLink(p).value) == ParseShadowsocks(SsLink(p).value)
  {
    CredsHoldColon(p);
    UserinfoRoundTrip(Creds(p));
    PrintedKeys();
    LinkReaches("ss", Some(Base64.EncodeStandard(BytesOf(Creds(p)))), p.address, p.port, p.params, SS_KEYS, p.name);
    SchemeKinds();
  }

  /** Parsing the printed ss link gives back everything the link carries. */
  lemma SsLinkRoundTrip(p: ServerProfile)
    requires BytesOnly(p) && p.protocol == Shadowsocks && "method" in p.params && "password" in p.params
    requires PlainHost(p.address) && '/' !in p.address
    ensures SsLink(p).Some?
    ensures ParseLink(SsLink(p).value) == Ok(SsCarried(p))
  {
    SsReaches(p);
    CredsHoldColon(p);
    UserinfoRoundTrip(Creds(p));
    var userinfo := Base64.EncodeStandard(BytesOf(Creds(p)));
    var e := SsParts(userinfo, Creds(p), p.address, p.port, p.params, p.name);
    SsProfileOf(e, p.params, p.name);
  }

  /** The credentials come back exactly when the method holds no colon. */
  lemma SsCredentials(p: ServerProfile)
    requires "method" in p.params && "password" in p.params
    ensures var back := SsCarried(p).params;
            && "method" in back && "password" in back
            && (back["method"] == p.params["method"] <==> ':' !in p.params["method"])
            && (back["method"] == p.params["method"] ==> back["password"] == p.params["password"])
  {
    var cipher, password := p.params["method"], p.params["password"];
    var creds := Creds(p);
    assert creds[|cipher|] == ':';
    assert "method" !in SS_KEPT && "password" !in SS_KEPT;
    var i := Find(creds, ':').value;
    if ':' !in cipher {
      FindFirst(cipher, ':', password);
      assert creds == cipher + [':'] + password;
      assert creds[..|cipher|] == cipher && creds[|cipher| + 1..] == password;
    } else {
      var j :| 0 <= j < |cipher| && cipher[j] == ':';
      assert creds[j] == ':';
    }
  }

  predicate SsNothingDropped(p: ServerProfile)
    requires "method" in p.params
  {
    && p.name != "" && p.tags == [] && ':' !in p.params["method"]
    && forall k :: k in p.params ==> k == "method" || k == "password" || (k in SS_KEPT && p.params[k] != "")
  }

  lemma SsCarriedIsAll(p: ServerProfile)
    requires "method" in p.params && "password" in p.params
    ensures SsCarried(p) == p <==> SsNothingDropped(p)
  {
    SsCredentials(p);
    assert "method" !in SS_KEPT && "password" !in SS_KEPT;
    assert HostPort(p.address, p.port) != "";
    var back := SsCarried(p).params;
    if SsNothingDropped(p) {
      forall k ensures (k in back <==> k in p.params) && (k in p.params ==> back[k] == p.params[k]) {
      }
      assert back == p.params;
    } else if back == p.params {
      assert forall k :: k in p.params ==> k in back;
    }
  }

  // ----- which hosts come back -----

  /** A host without a slash that the printers and the parser agree on. */
  predicate SsHost(host: string) {
    PlainHost(host) && '/' !in host
  }

  lemma BodyHoldsAt(userinfo: string, tail: string)
    requires '#' !in userinfo && '?' !in userinfo
    ensures CutLast(Cut(Cut(userinfo + (['@'] + tail), '#').0, '?').0, '@').0.Some?
  {
    var rest, n := userinfo + (['@'] + tail), |userinfo|;
    assert forall i :: 0 <= i <= n ==> rest[i] != '#' && rest[i] != '?';
    assert rest[n] == '@';
    var before := Cut(rest, '#').0;
    assert |before| > n && before[n] == '@' && forall i :: 0 <= i <= n ==> before[i] == rest[i];
    var body := Cut(before, '?').0;
    assert |body| > n && body[n] == '@';
  }

  lemma SsBodyHost(body: string)
    requires CutLast(body, '@').0.Some?
    ensures SsBody(body).Ok? ==>
              var hostPort := Cut(CutLast(body, '@').1, '/').0;
              SplitHostPort(hostPort).Ok? && SplitHostPort(hostPort).value.0 == SsBody(body).value.host
  {
  }

  lemma SlashEndsHost(hostPort: string)
    requires SafeHost(hostPort)
    ensures var r := SplitHostPort(Cut(hostPort, '/').0); r.Ok? ==> SafeHost(r.value.0) && '/' !in r.value.0
  {
    var first := Cut(hostPort, '/').0;
    assert '/' !in first && first <= hostPort;
    SplitHostIsPart(first);
  }

  /** Whatever the parser takes for the host of a printed link holds none of # ? @ and /. */
  lemma SsHostIsSafe(userinfo: string, tail: string)
    requires '#' !in userinfo && '?' !in userinfo
    ensures var body := Cut(Cut(userinfo + (['@'] + tail), '#').0, '?').0;
            SsBody(body).Ok? ==> SafeHost(SsBody(body).value.host) && '/' !in SsBody(body).value.host
  {
    var rest := userinfo + (['@'] + tail);
    var body := Cut(Cut(rest, '#').0, '?').0;
    BodyHoldsAt(userinfo, tail);
    SsBodyHost(body);
    AuthorityIsSafe(rest);
    SlashEndsHost(CutLast(body, '@').1);
  }

  /** An empty or bracketed host is not what the parser finds either. */
  lemma SsOddBody(userinfo: string, host: string, port: Port)
    requires SafeHost(host) && '/' !in host && !PlainHost(host) && '@' !in userinfo
    ensures var body := Prefix(Some(userinfo), '@') + HostPort(host, port);
            SsBody(body).Ok? ==> SsBody(body).value.host != host
  {
    SafeHostPort(host, port);
    CutLastAt(Some(userinfo), '@', HostPort(host, port));
    DecimalIsDigits(port, '/');
    FindNone(HostPort(host, port), '/');
    OddHostIsLost(host, port);
    SsBodyHost(Prefix(Some(userinfo), '@') + HostPort(host, port));
  }

  lemma SsAddress(rest: string)
    ensures var body := Cut(Cut(rest, '#').0, '?').0;
            ParseSsRest(rest).Ok? ==> SsBody(body).Ok? && ParseSsRest(rest).value.address == SsBody(body).value.host
  {
  }

  lemma SsLinkAddress(userinfo: string, tail: string)
    ensures var rest := userinfo + (['@'] + tail);
            var body := Cut(Cut(rest, '#').0, '?').0;
            var r := ParseShadowsocks("ss" + "://" + rest);
            r.Ok? ==> SsBody(body).Ok? && r.value.address == SsBody(body).value.host
  {
    var rest := userinfo + (['@'] + tail);
    LinkOpens("ss", rest);
    SsAddress(rest);
  }

  lemma SsLinkShape(userinfo: string, host: string, port: Port, query: Option<string>, fragment: Option<string>)
    ensures var tail := HostPort(host, port) + Suffix('?', query) + Suffix('#', fragment);
            Link("ss", Some(userinfo), host, port, query, fragment) == "ss" + "://" + (userinfo + (['@'] + tail))
  {
    var tail := HostPort(host, port) + Suffix('?', query) + Suffix('#', fragment);
    assert Prefix(Some(userinfo), '@') + HostPort(host, port) + Suffix('?', query) + Suffix('#', fragment) ==
      userinfo + (['@'] + tail);
  }

  lemma SsBodyOfLink(userinfo: string, host: string, port: Port, query: Option<string>, fragment: Option<string>)
    requires SafeHost(host) && '#' !in userinfo && '?' !in userinfo && (query.Some? ==> '#' !in query.value)
    ensures var rest := userinfo + (['@'] + (HostPort(host, port) + Suffix('?', query) + Suffix('#', fragment)));
            Cut(Cut(rest, '#').0, '?').0 == Prefix(Some(userinfo), '@') + HostPort(host, port)
  {
    LinkDissected("ss", Some(userinfo), host, port, query, fragment);
    SsLinkShape(userinfo, host, port, query, fragment);
    LinkOpens("ss", userinfo + (['@'] + (HostPort(host, port) + Suffix('?', query) + Suffix('#', fragment))));
  }

  lemma SsOddHostLost(userinfo: string, host: string, port: Port, query: Option<string>, fragment: Option<string>)
    requires '#' !in userinfo && '?' !in userinfo && '@' !in userinfo && !SsHost(host)
    requires query.Some? ==> '#' !in query.value
    ensures var r := ParseShadowsocks(Link("ss", Some(userinfo), host, port, query, fragment));
            r.Ok? ==> r.value.address != host
  {
    var tail := HostPort(host, port) + Suffix('?', query) + Suffix('#', fragment);
    SsLinkShape(userinfo, host, port, query, fragment);
    SsLinkAddress(userinfo, tail);
    if SafeHost(host) && '/' !in host {
      SsBodyOfLink(userinfo, host, port, query, fragment);
      SsOddBody(userinfo, host, port);
    } else {
      SsHostIsSafe(userinfo, tail);
    }
  }

  /** Which hosts come back: exactly the plain ones without a slash. */
  lemma SsHostIff(p: ServerProfile)
    requires BytesOnly(p) && p.protocol == Shadowsocks && "method" in p.params && "password" in p.params
    ensures SsLink(p).Some?
    ensures var r := ParseLink(SsLink(p).value);
            (r.Ok? && r.value.address == p.address) <==> SsHost(p.address)
  {
    if SsHost(p.address) {
      SsLinkRoundTrip(p);
    } else {
      SsReaches(p);
      CredsHoldColon(p);
      UserinfoRoundTrip(Creds(p));
      PrintedKeys();
      QueryRoundTrip(p.params, SS_KEYS);
      SsOddHostLost(Base64.EncodeStandard(BytesOf(Creds(p))), p.address, p.port,
                    JoinedQuery(QueryPieces(p.params, SS_KEYS)), NameFragment(p.name));
    }
  }

  /** The ss link loses nothing exactly when the profile holds only what the link can carry. */
  lemma SsLinkIsExact(p: ServerProfile)
    requires BytesOnly(p) && p.protocol == Shadowsocks && "method" in p.params && "password" in p.params
    ensures SsLink(p).Some?
    ensures ParseLink(SsLink(p).value) == Ok(p) <==> SsNothingDropped(p) && SsHost(p.address)
  {
    SsHostIff(p);
    if SsHost(p.address) {
      SsLinkRoundTrip(p);
      SsCarriedIsAll(p);
    }
  }
}
