/** The links no printer writes, as their parsers in `crates/core/src/parse/link.rs` read them. */
module LinkForms {
  import opened Wrappers
  import opened ByteText
  import opened Ascii
  import opened Routing
  import opened Model
  import opened Percent
  import opened UriParsing
  import opened ShareLink
  import opened LinkRoundTrip
  import opened SsRoundTrip

  // ----- white space and schemes -----

  /** White space around a link does not matter, and white space alone is no input. */
  lemma LinkIsTrimmedFirst(before: string, s: string, after: string)
    requires Blank(before) && Blank(after)
    ensures ParseLink(before + s + after) == ParseLink(s)
    ensures Blank(s) ==> ParseLink(s) == Err(EmptyInput)
  {
    TrimPadded(before, s, after);
    if Blank(s) { TrimOfBlank(s); }
  }

  predicate PlainChar(c: char) {
    'a' <= c <= 'z' || '0' <= c <= '9'
  }

  /** A scheme as the parser compares it: lower-case letters and digits. */
  predicate PlainScheme(t: string) {
    t != "" && forall i :: 0 <= i < |t| ==> PlainChar(t[i])
  }

  lemma LowerNotMark(c: char)
    requires PlainChar(LowerChar(c))
    ensures c != ':' && !IsSpace(c)
  {
  }

  lemma {:induction false} SchemeIsPlain(scheme: string)
    requires PlainScheme(Lower(scheme))
    ensures scheme != "" && ':' !in scheme && !IsSpace(scheme[0])
  {
    forall i | 0 <= i < |scheme| ensures scheme[i] != ':' && !IsSpace(scheme[i]) {
      assert PlainChar(Lower(scheme)[i]);
      LowerNotMark(scheme[i]);
    }
  }

  // ----- trojan, tuic, socks and http -----

  function NameOr(name: string, host: string, port: Port): string {
    if name == "" then HostPort(host, port) else name
  }

  /** Everything a link of this shape gives its parser. */
  lemma {:induction false} LinkGives(scheme: string, userinfo: Option<string>, host: string, port: Port,
                                     params: Params, keys: seq<string>, name: string)
    requires PlainScheme(Lower(scheme)) && IsByteText(name) && PlainHost(host)
    requires userinfo.Some? ==> '#' !in userinfo.value && '?' !in userinfo.value
    requires forall k :: k in params ==> IsByteText(params[k])
    requires forall i :: 0 <= i < |keys| ==> PlainKey(keys[i])
    ensures var s := Link(scheme, userinfo, host, port, JoinedQuery(QueryPieces(params, keys)), NameFragment(name));
            && ParseLink(s) == ParseScheme(Lower(scheme), s)
            && ParseUri(s) == Ok(Uri(Lower(scheme), userinfo, host, Some(port), ShownPairs(params, keys),
                                     if name == "" then None else Some(name)))
            && PairsMap(ShownPairs(params, keys), map[]) == KnownParams(params, keys)
  {
    SchemeIsPlain(scheme);
    LinkReaches(scheme, userinfo, host, port, params, keys, name);
    PrintedUri(scheme, userinfo, host, port, params, keys, name);
    QueryIsKnown(params, keys);
  }

  lemma {:induction false} OneCredential(credential: string)
    requires IsByteText(credential)
    ensures var u := Pct(credential); PercentDecode(u) == credential && '#' !in u && '?' !in u && ':' !in u
    ensures Pct(credential) == "" <==> credential == ""
  {
    PctRoundTrip(credential);
    PctIsInert(credential);
  }

  function TwoParts(first: string, second: string): string
    requires IsByteText(first) && IsByteText(second)
  {
    Pct(first) + [':'] + Pct(second)
  }

  lemma {:induction false} TwoCredentials(first: string, second: string)
    requires IsByteText(first) && IsByteText(second)
    ensures var u := TwoParts(first, second);
            u != "" && '#' !in u && '?' !in u && Cut(u, ':') == (Pct(first), Some(Pct(second)))
  {
    OneCredential(first);
    OneCredential(second);
    FindFirst(Pct(first), ':', Pct(second));
    var u := TwoParts(first, second);
    assert u[..|Pct(first)|] == Pct(first) && u[|Pct(first)| + 1..] == Pct(second);
  }

  lemma {:induction false} TrojanScheme(t: string)
    requires t == "trojan"
    ensures PlainScheme(t) && KindOf(t) == Some(Trojan)
  {
    assert |t| == 6;
  }

  lemma {:induction false} TuicScheme(t: string)
    requires t == "tuic"
    ensures PlainScheme(t) && KindOf(t) == Some(Tuic)
  {
    assert |t| == 4 && t[0] == 't';
    assert "http"[0] == 'h';
  }

  lemma {:induction false} SocksScheme(t: string)
    requires t == "socks" || t == "socks5"
    ensures PlainScheme(t) && KindOf(t) == Some(Socks5)
  {
    assert |t| >= 5 && t[0] == 's';
    assert "vless"[0] == 'v' && "trojan"[0] == 't';
  }

  lemma {:induction false} Hysteria2Scheme(t: string)
    requires t == "hysteria2" || t == "hy2"
    ensures PlainScheme(t) && KindOf(t) == Some(Hysteria2)
  {
    assert |t| >= 3 && t[0] == 'h' && t[1] == 'y';
    assert "vless"[0] == 'v' && "http"[1] == 't' && "https"[1] == 't';
  }

  lemma {:induction false} HttpScheme(t: string)
    requires t == "http" || t == "https"
    ensures PlainScheme(t) && KindOf(t) == Some(Http)
  {
    assert |t| >= 4 && t[0] == 'h';
    assert "vless"[0] == 'v' && "socks"[0] == 's';
  }

  /** Which kind of link a scheme names, in any case. */
  ghost predicate NamesKind(scheme: string, kind: ProtocolKind) {
    var t := Lower(scheme);
    match kind
    case Trojan => t == "trojan"
    case Tuic => t == "tuic"
    case Socks5 => t == "socks" || t == "socks5"
    case Http => t == "http" || t == "https"
    case Hysteria2 => t == "hysteria2" || t == "hy2"
    case _ => false
  }

  lemma {:induction false} KindIsNamed(scheme: string, kind: ProtocolKind)
    requires NamesKind(scheme, kind)
    ensures PlainScheme(Lower(scheme)) && KindOf(Lower(scheme)) == Some(kind)
  {
    match kind
    case Trojan => TrojanScheme(Lower(scheme));
    case Tuic => TuicScheme(Lower(scheme));
    case Socks5 => SocksScheme(Lower(scheme));
    case Http => HttpScheme(Lower(scheme));
    case Hysteria2 => Hysteria2Scheme(Lower(scheme));
  }

  lemma {:induction false} Dispatched(t: string, kind: ProtocolKind, s: string)
    requires KindOf(t) == Some(kind)
    ensures ParseScheme(t, s) == ParseAs(Some(kind), t, s)
  {
  }

  /** A scheme of one of these kinds leads to its parser. */
  lemma {:induction false} KindParses(scheme: string, kind: ProtocolKind, s: string)
    requires NamesKind(scheme, kind)
    ensures PlainScheme(Lower(scheme))
    ensures kind == Trojan ==> ParseScheme(Lower(scheme), s) == ParseCredential(s, Trojan, "password")
    ensures kind == Tuic ==> ParseScheme(Lower(scheme), s) == ParseTuic(s)
    ensures kind == Socks5 || kind == Http ==> ParseScheme(Lower(scheme), s) == ParseProxy(s, kind)
    ensures kind == Hysteria2 ==> ParseScheme(Lower(scheme), s) == ParseHysteria2(s)
  {
    KindIsNamed(scheme, kind);
    Dispatched(Lower(scheme), kind, s);
  }

  lemma {:induction false} TrojanOf(s: string, uri: Uri, userinfo: string, password: string, name: string)
    requires ParseUri(s) == Ok(uri) && uri.port.Some? && uri.userinfo == Some(userinfo)
    requires PercentDecode(userinfo) == password && uri.fragment == if name == "" then None else Some(name)
    ensures ParseCredential(s, Trojan, "password") ==
              Ok(ServerProfile(NameOr(name, uri.host, uri.port.value), Trojan, uri.host, uri.port.value,
                               PairsMap(uri.query, map[])["password" := password], []))
  {
  }

  lemma {:induction false} TuicOf(s: string, uri: Uri, userinfo: string, first: string, second: string, name: string)
    requires ParseUri(s) == Ok(uri) && uri.port.Some? && uri.userinfo == Some(userinfo)
    requires Cut(userinfo, ':') == (first, Some(second)) && uri.fragment == if name == "" then None else Some(name)
    ensures ParseTuic(s) ==
              Ok(ServerProfile(NameOr(name, uri.host, uri.port.value), Tuic, uri.host, uri.port.value,
                               PairsMap(uri.query, map[])["uuid" := PercentDecode(first)]
                                                         ["password" := PercentDecode(second)], []))
  {
  }

  lemma ProxyOf(s: string, kind: ProtocolKind, uri: Uri, userinfo: string, first: string, second: string, name: string)
    requires ParseUri(s) == Ok(uri) && uri.port.Some? && uri.userinfo == Some(userinfo) && userinfo != ""
    requires Cut(userinfo, ':') == (first, Some(second)) && uri.fragment == if name == "" then None else Some(name)
    ensures ParseProxy(s, kind) ==
              Ok(ServerProfile(NameOr(name, uri.host, uri.port.value), kind, uri.host, uri.port.value,
                               PairsMap(uri.query, map[])["username" := PercentDecode(first)]
                                                         ["password" := PercentDecode(second)], []))
  {
  }

  lemma OpenProxyOf(s: string, kind: ProtocolKind, uri: Uri, name: string)
    requires ParseUri(s) == Ok(uri) && uri.port.Some? && uri.userinfo.None?
    requires uri.fragment == if name == "" then None else Some(name)
    ensures ParseProxy(s, kind) ==
              Ok(ServerProfile(NameOr(name, uri.host, uri.port.value), kind, uri.host, uri.port.value,
                               PairsMap(uri.query, map[]), []))
  {
  }

  /** What is missing is reported: the credential first where one is needed, then the port. */
  lemma MissingPartsReported(s: string, uri: Uri, kind: ProtocolKind)
    requires ParseUri(s) == Ok(uri)
    ensures uri.userinfo.None? ==>
              && ParseCredential(s, Vless, "uuid") == Err(MissingField("uuid"))
              && ParseCredential(s, Trojan, "password") == Err(MissingField("password"))
              && ParseTuic(s) == Err(MissingField("uuid"))
    ensures uri.userinfo.Some? && uri.port.None? ==>
              && ParseCredential(s, Vless, "uuid") == ParseCredential(s, Trojan, "password") == Err(MissingPort)
              && ParseTuic(s) == Err(MissingPort)
    ensures uri.port.None? ==> ParseProxy(s, kind) == ParseHysteria2(s) == Err(MissingPort)
  {
  }

  /** A trojan link, its scheme in any case: password, endpoint, name, and the other non-empty parameters. */
  lemma {:induction false} TrojanLink(scheme: string, password: string, host: string, port: Port, params: Params,
                                      keys: seq<string>, name: string)
    requires NamesKind(scheme, Trojan) && IsByteText(password) && IsByteText(name) && PlainHost(host)
    requires forall k :: k in params ==> IsByteText(params[k])
    requires forall i :: 0 <= i < |keys| ==> PlainKey(keys[i])
    ensures var s := Link(scheme, Some(Pct(password)), host, port, JoinedQuery(QueryPieces(params, keys)),
                          NameFragment(name));
            ParseLink(s) == Ok(ServerProfile(NameOr(name, host, port), Trojan, host, port,
                                             KnownParams(params, keys)["password" := password], []))
  {
    var s := Link(scheme, Some(Pct(password)), host, port, JoinedQuery(QueryPieces(params, keys)), NameFragment(name));
    KindParses(scheme, Trojan, s);
    OneCredential(password);
    LinkGives(scheme, Some(Pct(password)), host, port, params, keys, name);
    TrojanOf(s, ParseUri(s).value, Pct(password), password, name);
  }

  /** A tuic link: user and password around the first colon. */
  lemma {:induction false} TuicLink(scheme: string, uuid: string, password: string, host: string, port: Port,
                                    params: Params, keys: seq<string>, name: string)
    requires NamesKind(scheme, Tuic) && IsByteText(uuid) && IsByteText(password) && IsByteText(name) && PlainHost(host)
    requires forall k :: k in params ==> IsByteText(params[k])
    requires forall i :: 0 <= i < |keys| ==> PlainKey(keys[i])
    ensures var s := Link(scheme, Some(TwoParts(uuid, password)), host, port, JoinedQuery(QueryPieces(params, keys)),
                          NameFragment(name));
            ParseLink(s) == Ok(ServerProfile(NameOr(name, host, port), Tuic, host, port,
                                             KnownParams(params, keys)["uuid" := uuid]["password" := password], []))
  {
    var userinfo := TwoParts(uuid, password);
    var s := Link(scheme, Some(userinfo), host, port, JoinedQuery(QueryPieces(params, keys)), NameFragment(name));
    KindParses(scheme, Tuic, s);
    TwoCredentials(uuid, password);
    PctRoundTrip(uuid);
    PctRoundTrip(password);
    LinkGives(scheme, Some(userinfo), host, port, params, keys, name);
    TuicOf(s, ParseUri(s).value, userinfo, Pct(uuid), Pct(password), name);
  }

  /** A socks or http link: user name and password around the first colon. */
  lemma {:induction false} ProxyLink(scheme: string, kind: ProtocolKind, user: string, password: string, host: string,
                                     port: Port, params: Params, keys: seq<string>, name: string)
    requires NamesKind(scheme, kind) && (kind == Socks5 || kind == Http)
    requires IsByteText(user) && IsByteText(password) && IsByteText(name) && PlainHost(host)
    requires forall k :: k in params ==> IsByteText(params[k])
    requires forall i :: 0 <= i < |keys| ==> PlainKey(keys[i])
    ensures var s := Link(scheme, Some(TwoParts(user, password)), host, port, JoinedQuery(QueryPieces(params, keys)),
                          NameFragment(name));
            ParseLink(s) == Ok(ServerProfile(NameOr(name, host, port), kind, host, port,
                                             KnownParams(params, keys)["username" := user]["password" := password], []))
  {
    var userinfo := TwoParts(user, password);
    var s := Link(scheme, Some(userinfo), host, port, JoinedQuery(QueryPieces(params, keys)), NameFragment(name));
    KindParses(scheme, kind, s);
    TwoCredentials(user, password);
    PctRoundTrip(user);
    PctRoundTrip(password);
    LinkGives(scheme, Some(userinfo), host, port, params, keys, name);
    ProxyOf(s, kind, ParseUri(s).value, userinfo, Pct(user), Pct(password), name);
  }

  /** Without user info it holds no credentials. */
  lemma {:induction false} OpenProxyLink(scheme: string, kind: ProtocolKind, host: string, port: Port, params: Params,
                                         keys: seq<string>, name: string)
    requires NamesKind(scheme, kind) && (kind == Socks5 || kind == Http) && IsByteText(name) && PlainHost(host)
    requires forall k :: k in params ==> IsByteText(params[k])
    requires forall i :: 0 <= i < |keys| ==> PlainKey(keys[i])
    ensures var s := Link(scheme, None, host, port, JoinedQuery(QueryPieces(params, keys)), NameFragment(name));
            ParseLink(s) ==
              Ok(ServerProfile(NameOr(name, host, port), kind, host, port, KnownParams(params, keys), []))
  {
    var s := Link(scheme, None, host, port, JoinedQuery(QueryPieces(params, keys)), NameFragment(name));
    KindParses(scheme, kind, s);
    LinkGives(scheme, None, host, port, params, keys, name);
    OpenProxyOf(s, kind, ParseUri(s).value, name);
  }

  lemma EitherHysteria2Of(uri: Uri, auth: string, name: string)
    requires uri.port.Some? && uri.fragment == if name == "" then None else Some(name)
    requires match uri.userinfo
             case Some(u) => u != "" && PercentDecode(u) == auth && auth != ""
             case None => auth == ""
    ensures var query := PairsMap(uri.query, map[]);
            Hysteria2Of(uri) ==
              Ok(ServerProfile(NameOr(name, uri.host, uri.port.value), Hysteria2, uri.host, uri.port.value,
                               if auth == "" then query else query["auth" := auth], []))
  {
  }

  /** A hysteria2 link under either of its schemes: authentication, if any, and the rest likewise. */
  lemma {:induction false} EitherHysteria2Link(scheme: string, auth: string, host: string, port: Port, params: Params,
                                               keys: seq<string>, name: string)
    requires NamesKind(scheme, Hysteria2) && IsByteText(auth) && IsByteText(name) && PlainHost(host)
    requires forall k :: k in params ==> IsByteText(params[k])
    requires forall i :: 0 <= i < |keys| ==> PlainKey(keys[i])
    ensures var s := Link(scheme, AuthInfo(auth), host, port, JoinedQuery(QueryPieces(params, keys)),
                          NameFragment(name));
            var known := KnownParams(params, keys);
            ParseLink(s) == Ok(ServerProfile(NameOr(name, host, port), Hysteria2, host, port,
                                             if auth == "" then known else known["auth" := auth], []))
  {
    var s := Link(scheme, AuthInfo(auth), host, port, JoinedQuery(QueryPieces(params, keys)), NameFragment(name));
    KindParses(scheme, Hysteria2, s);
    AuthComesBack(auth);
    LinkGives(scheme, AuthInfo(auth), host, port, params, keys, name);
    EitherHysteria2Of(ParseUri(s).value, auth, name);
  }

  /** Any other scheme is reported, in lower case. */
  lemma {:induction false} OtherSchemeReported(scheme: string, rest: string)
    requires ':' !in scheme && Trim(scheme + "://" + rest) == scheme + "://" + rest
    requires Lower(scheme) !in {"vless", "trojan", "ss", "socks", "socks5", "http", "https", "hysteria2", "hy2", "tuic"}
    ensures ParseLink(scheme + "://" + rest) == Err(UnknownScheme(Lower(scheme)))
  {
    LinkOpens(scheme, rest);
    NoKind(Lower(scheme));
  }

  lemma {:induction false} NoKind(t: string)
    requires t !in {"vless", "trojan", "ss", "socks", "socks5", "http", "https", "hysteria2", "hy2", "tuic"}
    ensures KindOf(t) == None
  {
  }

  // ----- the other forms of a Shadowsocks link -----

  lemma {:induction false} ColonIsNoBase64(u: string)
    requires ':' in u
    ensures DecodeToText(u) == None
  {
    var i :| 0 <= i < |u| && u[i] == ':';
    assert !Base64.Decodable(u[i]);
    Base64.DecodesIff(u, 0, 0);
  }

  lemma {:induction false} DecodedTwoParts(a: string, b: string)
    ensures PercentDecode(a + [':'] + b) == PercentDecode(a) + [':'] + PercentDecode(b)
  {
    DecodeAround(a, ':', b);
    assert a + [':'] + b == a + ([':'] + b);
    assert PercentDecode(a) + [':'] + PercentDecode(b) == PercentDecode(a) + ([':'] + PercentDecode(b));
  }

  lemma {:induction false} PercentUserinfo(cipher: string, password: string)
    requires IsByteText(cipher) && IsByteText(password)
    ensures DecodeUserinfo(TwoParts(cipher, password)) == Ok(cipher + ":" + password)
  {
    var u := TwoParts(cipher, password);
    assert u[|Pct(cipher)|] == ':' == (cipher + [':'] + password)[|cipher|];
    ColonIsNoBase64(u);
    PctRoundTrip(cipher);
    PctRoundTrip(password);
    DecodedTwoParts(Pct(cipher), Pct(password));
  }

  /** Credentials that are percent-encoded in place of Base64 come out the same. */
  lemma PercentSsLink(p: ServerProfile)
    requires BytesOnly(p) && p.protocol == Shadowsocks && "method" in p.params && "password" in p.params
    requires PlainHost(p.address) && '/' !in p.address
    ensures var userinfo := TwoParts(p.params["method"], p.params["password"]);
            ParseLink(Link("ss", Some(userinfo), p.address, p.port, JoinedQuery(QueryPieces(p.params, SS_KEYS)),
                           NameFragment(p.name))) == Ok(SsCarried(p))
  {
    var userinfo := TwoParts(p.params["method"], p.params["password"]);
    LinkReaches("ss", Some(userinfo), p.address, p.port, p.params, SS_KEYS, p.name);
    SchemeKinds();
    PercentUserinfo(p.params["method"], p.params["password"]);
    TwoCredentials(p.params["method"], p.params["password"]);
    CredsHoldColon(p);
    var e := SsParts(userinfo, Creds(p), p.address, p.port, p.params, p.name);
    SsProfileOf(e, p.params, p.name);
  }

  lemma {:induction false} DecodedBody(whole: string)
    requires IsByteText(whole)
    ensures var body := Base64.EncodeStandard(BytesOf(whole));
            && DecodeToText(body) == Some(whole) && '@' !in body && '#' !in body && '?' !in body
            && (whole != "" ==> body != "") && (body != "" ==> !IsSpace(body[|body| - 1]))
  {
    Base64.Base64RoundTrip(BytesOf(whole));
    Base64.EncodeIsPrintable(BytesOf(whole));
    TextRoundTrip(whole);
  }

  lemma {:induction false} BodyOfWhole(body: string, creds: string, hostPort: string)
    requires '@' !in body && DecodeToText(body) == Some(creds + "@" + hostPort) && '@' !in hostPort
    ensures SsBody(body) == SsFromParts(creds, hostPort)
  {
    FindNone(body, '@');
    CutLastAt(Some(creds), '@', hostPort);
    assert creds + "@" + hostPort == Prefix(Some(creds), '@') + hostPort;
  }

  lemma {:induction false} WholeBody(creds: string, host: string, port: Port)
    requires IsByteText(creds + "@" + HostPort(host, port)) && ':' in creds && PlainHost(host) && '/' !in host
    ensures var body := Base64.EncodeStandard(BytesOf(creds + "@" + HostPort(host, port)));
            var (cipher, password) := Cut(creds, ':');
            && '@' !in body && '#' !in body && '?' !in body && password.Some?
            && body != "" && !IsSpace(body[|body| - 1])
            && SsBody(body) == Ok(SsEndpoint(cipher, password.value, host, port))
  {
    var whole := creds + "@" + HostPort(host, port);
    DecodedBody(whole);
    SafeHostPort(host, port);
    BodyOfWhole(Base64.EncodeStandard(BytesOf(whole)), creds, HostPort(host, port));
    EndpointRoundTrip(creds, host, port);
  }

  /** The old form, Base64 around credentials and endpoint together. */
  lemma {:induction false} WholeSsLink(creds: string, host: string, port: Port, name: string)
    requires ':' in creds && IsByteText(name) && PlainHost(host) && '/' !in host
    requires IsByteText(creds + "@" + HostPort(host, port))
    ensures var body := Base64.EncodeStandard(BytesOf(creds + "@" + HostPort(host, port)));
            var (cipher, password) := Cut(creds, ':');
            && password.Some?
            && ParseLink("ss" + "://" + (body + Suffix('#', NameFragment(name)))) ==
                 Ok(ServerProfile(NameOr(name, host, port), Shadowsocks, host, port,
                                  map["method" := cipher, "password" := password.value], []))
  {
    var body := Base64.EncodeStandard(BytesOf(creds + "@" + HostPort(host, port)));
    var (cipher, password) := Cut(creds, ':');
    WholeBody(creds, host, port);
    var e := SsEndpoint(cipher, password.value, host, port);
    LinkOpens("ss", body + Suffix('#', NameFragment(name)));
    CutAt(body, '#', NameFragment(name));
    CutAt(body, '?', None);
    assert body + Suffix('?', None) == body;
    SsOfParts(body + Suffix('#', NameFragment(name)), body, body, None, NameFragment(name), e);
    BareSsProfile(e, name);
    WholeReaches(body, name);
  }

  lemma {:induction false} WholeReaches(body: string, name: string)
    requires body != "" && !IsSpace(body[|body| - 1]) && IsByteText(name)
    ensures var s := "ss" + "://" + (body + Suffix('#', NameFragment(name)));
            ParseLink(s) == ParseShadowsocks(s)
  {
    var rest := body + Suffix('#', NameFragment(name));
    PctIsInert(name);
    assert !IsSpace(rest[|rest| - 1]);
    TrimIsIdle("ss" + "://" + rest);
    LinkOpens("ss", rest);
    LinkReachesParser("ss" + "://" + rest, "ss");
    SchemeKinds();
  }

  lemma {:induction false} BareSsProfile(e: SsEndpoint, name: string)
    requires IsByteText(name)
    ensures SsProfile(e, None, NameFragment(name)) ==
            ServerProfile(NameOr(name, e.host, e.port), Shadowsocks, e.host, e.port,
                          map["method" := e.cipher, "password" := e.password], [])
  {
    NameComesBack(name);
    var base := map["method" := e.cipher, "password" := e.password];
    assert Split("", '&') == [""];
    assert [""][1..] == [] && AddTransport("", base) == base && AddTransports([""][1..], base) == base;
    assert AddTransports([""], base) == base;
  }

  /** Which query keys a Shadowsocks link keeps, and the one that is renamed. */
  lemma KeptTransport(key: string, value: string, base: Params)
    requires PlainKey(key) && IsByteText(value) && value != ""
    ensures AddTransport(key + ['='] + Pct(value), base) ==
              if key == "allowInsecure" then base["allow_insecure" := value]
              else if key == "security" || key == "sni" || key == "alpn" || key == "fp" || key == "insecure"
                      || key == "allow_insecure" then base[key := value]
              else base
  {
    TransportPiece(key, value, base);
    assert key in TRANSPORT_KEYS <==> exists i :: 0 <= i < |TRANSPORT_KEYS| && TRANSPORT_KEYS[i] == key;
  }
}
