/** Share links: the parsers of `crates/core/src/parse/link.rs`, the printers of `crates/cli/src/lib.rs`. */
module ShareLink {
  import opened Wrappers
  import opened ByteText
  import opened Ascii
  import opened Routing
  import opened Model
  import opened Percent
  import opened UriParsing
  import Base64

  type Params = map<string, string>

  // ----- parsing -----

  /** `query_to_params`: the last pair of a key wins. */
  function PairsMap(pairs: seq<(string, string)>, base: Params): Params {
    if pairs == [] then base else PairsMap(pairs[1..], base[pairs[0].0 := pairs[0].1])
  }

  /** `make_profile`: a missing or empty fragment gives the endpoint as the name. */
  function MakeProfile(protocol: ProtocolKind, host: string, port: Port, params: Params,
                       fragment: Option<string>): ServerProfile {
    var name := if fragment.Some? && fragment.value != "" then fragment.value else HostPort(host, port);
    ServerProfile(name, protocol, host, port, params, [])
  }

  function Require<T>(o: Option<T>, e: ParseError): Result<T, ParseError> {
    match o
    case Some(v) => Ok(v)
    case None => Err(e)
  }

  /** `parse_vless` and `parse_trojan`: the user info is one mandatory credential. */
  function ParseCredential(s: string, kind: ProtocolKind, key: string): Result<ServerProfile, ParseError> {
    var uri :- ParseUri(s);
    CredentialOf(uri, kind, key)
  }

  function CredentialOf(uri: Uri, kind: ProtocolKind, key: string): (r: Result<ServerProfile, ParseError>)
    ensures r.Ok? ==> r.value.address == uri.host
    ensures r.Ok? ==>
              && uri.userinfo.Some?
              && key in r.value.params
              && r.value.params[key] == PercentDecode(uri.userinfo.value)
  {
    var credential :- Require(uri.userinfo, MissingField(key));
    var port :- Require(uri.port, MissingPort);
    Ok(MakeProfile(kind, uri.host, port, PairsMap(uri.query, map[])[key := PercentDecode(credential)], uri.fragment))
  }

  /** `parse_hysteria2`. */
  function ParseHysteria2(s: string): Result<ServerProfile, ParseError> {
    var uri :- ParseUri(s);
    Hysteria2Of(uri)
  }

  function Hysteria2Of(uri: Uri): (r: Result<ServerProfile, ParseError>)
    ensures r.Ok? ==> r.value.address == uri.host
  {
    var port :- Require(uri.port, MissingPort);
    var query := PairsMap(uri.query, map[]);
    var params := if uri.userinfo.Some?
      && uri.userinfo.value != "" then query["auth" := PercentDecode(uri.userinfo.value)] else query;
    Ok(MakeProfile(Hysteria2, uri.host, port, params, uri.fragment))
  }

  /** One or two credentials around the first colon of the user info. */
  function Credentials(params: Params, userinfo: string, first: string): Params {
    var (user, secret) := Cut(userinfo, ':');
    var named := params[first := PercentDecode(user)];
    match secret
    case Some(password) => named["password" := PercentDecode(password)]
    case None => named
  }

  /** `parse_tuic`. */
  function ParseTuic(s: string): Result<ServerProfile, ParseError> {
    var uri :- ParseUri(s);
    var userinfo :- Require(uri.userinfo, MissingField("uuid"));
    var port :- Require(uri.port, MissingPort);
    Ok(MakeProfile(Tuic, uri.host, port, Credentials(PairsMap(uri.query, map[]), userinfo, "uuid"), uri.fragment))
  }

  /** `proxy_profile`. */
  function ParseProxy(s: string, kind: ProtocolKind): Result<ServerProfile, ParseError> {
    var uri :- ParseUri(s);
    var port :- Require(uri.port, MissingPort);
    var query := PairsMap(uri.query, map[]);
    var params := if uri.userinfo.Some?
      && uri.userinfo.value != "" then Credentials(query, uri.userinfo.value, "username") else query;
    Ok(MakeProfile(kind, uri.host, port, params, uri.fragment))
  }

  /** `decode_to_string`, on byte text. */
  function DecodeToText(s: string): Option<string> {
    match Base64.DecodeLoose(s)
    case Some(bytes) => Some(TextOf(bytes))
    case None => None
  }

  /** `decode_userinfo`: Base64 first, percent-encoding when that gives no colon. */
  function DecodeUserinfo(u: string): Result<string, ParseError> {
    var decoded := DecodeToText(u);
    if decoded.Some? && ':' in decoded.value then Ok(decoded.value)
    else if ':' in PercentDecode(u) then Ok(PercentDecode(u))
    else Err(MissingField("method:password"))
  }

  datatype SsEndpoint = SsEndpoint(cipher: string, password: string, host: string, port: Port)

  /** `ss_from_parts`: a path after the endpoint is dropped. */
  function SsFromParts(creds: string, hostPort: string): Result<SsEndpoint, ParseError> {
    var (cipher, secret) := Cut(creds, ':');
    var password :- Require(secret, MissingField("method:password"));
    var hp :- SplitHostPort(Cut(hostPort, '/').0);
    var port :- Require(hp.1, MissingPort);
    Ok(SsEndpoint(cipher, password, hp.0, port))
  }

  const TRANSPORT_KEYS := ["security", "sni", "alpn", "fp", "insecure", "allow_insecure"]

  /** The transport parameters kept from the query; one of them is renamed. */
  function TransportKey(key: string): Option<string> {
    if key == "allowInsecure" then Some("allow_insecure")
    else if key in TRANSPORT_KEYS then Some(key)
    else None
  }

  function AddTransport(piece: string, params: Params): Params {
    if piece == "" then params
    else
      var (key, value) := Cut(piece, '=');
      match TransportKey(key)
      case None => params
      case Some(name) => params[name := match value case Some(v) => PercentDecode(v) case None => ""]
  }

  function AddTransports(pieces: seq<string>, params: Params): Params {
    if pieces == [] then params else AddTransports(pieces[1..], AddTransport(pieces[0], params))
  }

  /** Credentials and endpoint: `base64(method:password)@host:port`, or everything in one Base64 text. */
  function SsBody(body: string): Result<SsEndpoint, ParseError> {
    match CutLast(body, '@')
    case (Some(userinfo), hostPort) =>
      var creds :- DecodeUserinfo(userinfo);
      SsFromParts(creds, hostPort)
    case (None, _) =>
      var decoded :- Require(DecodeToText(body), BadBase64);
      var (creds, hostPort) := CutLast(decoded, '@');
      var c :- Require(creds, MalformedUrl(decoded));
      SsFromParts(c, hostPort)
  }

  /** `parse_shadowsocks`. */
  function ParseShadowsocks(s: string): Result<ServerProfile, ParseError> {
    var i :- Require(FindScheme(s), MalformedUrl(s));
    ParseSsRest(s[i + 3..])
  }

  function ParseSsRest(rest: string): Result<ServerProfile, ParseError> {
    var (beforeFragment, fragment) := Cut(rest, '#');
    var (body, query) := Cut(beforeFragment, '?');
    var e :- SsBody(body);
    Ok(SsProfile(e, query, fragment))
  }

  function SsProfile(e: SsEndpoint, query: Option<string>, fragment: Option<string>): ServerProfile {
    var params := AddTransports(Split(if query.Some? then query.value else "", '&'),
                                map["method" := e.cipher, "password" := e.password]);
    MakeProfile(Shadowsocks, e.host, e.port, params,
                match fragment case Some(f) => Some(PercentDecode(f)) case None => None)
  }

  function KindOf(scheme: string): Option<ProtocolKind> {
    if scheme == "vless" then Some(Vless)
    else if scheme == "trojan" then Some(Trojan)
    else if scheme == "ss" then Some(Shadowsocks)
    else if scheme == "socks" || scheme == "socks5" then Some(Socks5)
    else if scheme == "http" || scheme == "https" then Some(Http)
    else if scheme == "hysteria2" || scheme == "hy2" then Some(Hysteria2)
    else if scheme == "tuic" then Some(Tuic)
    else None
  }

  function ParseScheme(scheme: string, s: string): Result<ServerProfile, ParseError> {
    ParseAs(KindOf(scheme), scheme, s)
  }

  function ParseAs(kind: Option<ProtocolKind>, scheme: string, s: string): Result<ServerProfile, ParseError> {
    match kind
    case Some(Vless) => ParseCredential(s, Vless, "uuid")
    case Some(Trojan) => ParseCredential(s, Trojan, "password")
    case Some(Shadowsocks) => ParseShadowsocks(s)
    case Some(Socks5) => ParseProxy(s, Socks5)
    case Some(Http) => ParseProxy(s, Http)
    case Some(Hysteria2) => ParseHysteria2(s)
    case Some(Tuic) => ParseTuic(s)
    case _ => Err(UnknownScheme(scheme))
  }

  /** `parse_link`. */
  function ParseLink(input: string): Result<ServerProfile, ParseError> {
    var s := Trim(input);
    if s == "" then Err(EmptyInput)
    else
      var i :- Require(FindScheme(s), MalformedUrl(s));
      ParseScheme(Lower(s[..i]), s)
  }

  /** The transport parameters as the source collects them: a loop that inserts into the map. */
  method CollectTransports(query: string, base: Params) returns (params: Params)
    ensures params == AddTransports(Split(query, '&'), base)
  {
    params := base;
    var pieces := Split(query, '&');
    var n := 0;
    assert pieces[0..] == pieces;
    while n < |pieces|
      invariant 0 <= n <= |pieces|
      invariant AddTransports(pieces[n..], params) == AddTransports(pieces, base)
    {
      assert pieces[n..][0] == pieces[n] && pieces[n..][1..] == pieces[n + 1..];
      if pieces[n] != "" {
        var (key, value) := Cut(pieces[n], '=');
        var name := TransportKey(key);
        if name.Some? {
          params := params[name.value := if value.Some? then PercentDecode(value.value) else ""];
        }
      }
      n := n + 1;
    }
    assert pieces[n..] == [];
  }

  // ----- printing -----

  predicate Shown(params: Params, key: string) {
    key in params && params[key] != ""
  }

  ghost predicate BytesOnly(p: ServerProfile) {
    IsByteText(p.name) && forall k :: k in p.params ==> IsByteText(p.params[k])
  }

  /** The `key=value` pieces of a query, for the keys with a value. */
  function QueryPieces(params: Params, keys: seq<string>): seq<string>
    requires forall k :: k in params ==> IsByteText(params[k])
  {
    if keys == [] then []
    else
      (if Shown(params, keys[0]) then [keys[0] + ['='] + Pct(params[keys[0]])] else [])
      + QueryPieces(params, keys[1..])
  }

  function JoinedQuery(pieces: seq<string>): Option<string> {
    if pieces == [] then None else Some(Join(pieces))
  }

  function NameFragment(name: string): Option<string>
    requires IsByteText(name)
  {
    if name == "" then None else Some(Pct(name))
  }

  /** `node_to_hysteria2_link`; `keys` lists the parameters in the order the sorted map yields them. */
  function Hysteria2Link(p: ServerProfile, keys: seq<string>): Option<string>
    requires BytesOnly(p)
  {
    if p.protocol != Hysteria2 then None
    else
      var auth := if "auth" in p.params then p.params["auth"] else "";
      Some(Link("hysteria2", if auth == "" then None else Some(Pct(auth)), p.address, p.port,
                JoinedQuery(QueryPieces(p.params - {"auth"}, keys)), NameFragment(p.name)))
  }

  const SS_KEYS := ["security", "sni", "alpn", "fp", "type"]

  /** `node_to_ss_link`. */
  function SsLink(p: ServerProfile): Option<string>
    requires BytesOnly(p)
  {
    if p.protocol != Shadowsocks || "method" !in p.params || "password" !in p.params then None
    else
      var creds := p.params["method"] + ":" + p.params["password"];
      Some(Link("ss", Some(Base64.EncodeStandard(BytesOf(creds))), p.address, p.port,
                JoinedQuery(QueryPieces(p.params, SS_KEYS)), NameFragment(p.name)))
  }
}
