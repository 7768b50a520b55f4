/** What a printed share link parses back to. */
module LinkRoundTrip {
  import opened Wrappers
  import opened ByteText
  import opened Ascii
  import opened Numerals
  import opened Routing
  import opened Model
  import opened Percent
  import opened UriParsing
  import opened ShareLink

  // ----- queries -----

  /** A key that the query syntax leaves alone. */
  predicate PlainKey(key: string) {
    '&' !in key && '=' !in key && '#' !in key && PercentDecode(key) == key
  }

  lemma UnreservedKeyIsPlain(key: string)
    requires forall i :: 0 <= i < |key| ==> Unreserved(key[i])
    ensures PlainKey(key)
  {
    DecodePlain(key);
  }

  function ShownPairs(params: Params, keys: seq<string>): seq<(string, string)> {
    if keys == [] then []
    else (if Shown(params, keys[0]) then [(keys[0], params[keys[0]])] else []) + ShownPairs(params, keys[1..])
  }

  lemma PieceParts(key: string, value: string)
    requires '=' !in key && '&' !in key && '#' !in key && IsByteText(value) && value != ""
    ensures var piece := key + ['='] + Pct(value);
            piece != "" && '&' !in piece && '#' !in piece && Cut(piece, '=') == (key, Some(Pct(value)))
  {
    var piece := key + ['='] + Pct(value);
    PctIsInert(value);
    FindFirst(key, '=', Pct(value));
    assert piece[..|key|] == key && piece[|key| + 1..] == Pct(value);
  }

  lemma {:induction false} PiecesAreSeparable(params: Params, keys: seq<string>)
    requires forall k :: k in params ==> IsByteText(params[k])
    requires forall i :: 0 <= i < |keys| ==> PlainKey(keys[i])
    ensures forall i :: 0 <= i < |QueryPieces(params, keys)| ==>
              '&' !in QueryPieces(params, keys)[i] && '#' !in QueryPieces(params, keys)[i]
  {
    if keys != [] {
      PiecesAreSeparable(params, keys[1..]);
      if Shown(params, keys[0]) { PieceParts(keys[0], params[keys[0]]); }
    }
  }

  lemma {:induction false} PiecesParse(params: Params, keys: seq<string>)
    requires forall k :: k in params ==> IsByteText(params[k])
    requires forall i :: 0 <= i < |keys| ==> PlainKey(keys[i])
    ensures QueryPairs(QueryPieces(params, keys)) == ShownPairs(params, keys)
  {
    if keys != [] {
      PiecesParse(params, keys[1..]);
      var rest := QueryPieces(params, keys[1..]);
      if Shown(params, keys[0]) {
        var piece := keys[0] + ['='] + Pct(params[keys[0]]);
        PieceParts(keys[0], params[keys[0]]);
        PctRoundTrip(params[keys[0]]);
        assert ([piece] + rest)[1..] == rest;
      } else {
        assert [] + rest == rest;
      }
    }
  }

  /** A printed query parses to the parameters shown in it. */
  lemma QueryRoundTrip(params: Params, keys: seq<string>)
    requires forall k :: k in params ==> IsByteText(params[k])
    requires forall i :: 0 <= i < |keys| ==> PlainKey(keys[i])
    ensures var q := JoinedQuery(QueryPieces(params, keys));
            && (q.Some? ==> '#' !in q.value)
            && ShownPairs(params, keys) == (match q case Some(text) => ParseQuery(text) case None => [])
  {
    var pieces := QueryPieces(params, keys);
    PiecesAreSeparable(params, keys);
    PiecesParse(params, keys);
    if pieces != [] {
      SplitJoin(pieces);
      JoinHoldsNo(pieces, '#');
    }
  }

  lemma {:induction false} PairsMapLookup(params: Params, keys: seq<string>, base: Params, k: string)
    ensures var m := PairsMap(ShownPairs(params, keys), base);
            if Shown(params, k) && k in keys then k in m && m[k] == params[k]
            else (k in m <==> k in base) && (k in base ==> m[k] == base[k])
    decreases |keys|
  {
    if keys != [] {
      var rest := ShownPairs(params, keys[1..]);
      if Shown(params, keys[0]) {
        var pair := (keys[0], params[keys[0]]);
        assert ([pair] + rest)[1..] == rest;
        PairsMapLookup(params, keys[1..], base[keys[0] := params[keys[0]]], k);
      } else {
        assert [] + rest == rest;
        PairsMapLookup(params, keys[1..], base, k);
      }
    }
  }

  /** The parameters a query with these keys shows. */
  function KnownParams(params: Params, keys: seq<string>): Params {
    map k | k in params && k in keys && params[k] != "" :: params[k]
  }

  lemma QueryIsKnown(params: Params, keys: seq<string>)
    ensures PairsMap(ShownPairs(params, keys), map[]) == KnownParams(params, keys)
  {
    var m, known := PairsMap(ShownPairs(params, keys), map[]), KnownParams(params, keys);
    forall k ensures (k in m <==> k in known) && (k in known ==> m[k] == known[k]) {
      PairsMapLookup(params, keys, map[], k);
    }
    assert m == known;
  }

  // ----- the whole link -----

  lemma TrimIsIdle(s: string)
    requires s != [] && !IsSpace(s[0]) && !IsSpace(s[|s| - 1])
    ensures Trim(s) == s
  {
  }

  lemma {:induction false} JoinEnd(pieces: seq<string>)
    requires pieces != [] && pieces[|pieces| - 1] != []
    ensures Join(pieces) != [] && Join(pieces)[|Join(pieces)| - 1] == pieces[|pieces| - 1][|pieces[|pieces| - 1]| - 1]
  {
    if |pieces| > 1 { JoinEnd(pieces[1..]); }
  }

  lemma {:induction false} PiecesEnd(params: Params, keys: seq<string>)
    requires forall k :: k in params ==> IsByteText(params[k])
    ensures forall i :: 0 <= i < |QueryPieces(params, keys)| ==>
              QueryPieces(params, keys)[i] != []
                && !IsSpace(QueryPieces(params, keys)[i][|QueryPieces(params, keys)[i]| - 1])
  {
    if keys != [] {
      PiecesEnd(params, keys[1..]);
      if Shown(params, keys[0]) { PctIsInert(params[keys[0]]); }
    }
  }

  lemma QueryEnd(params: Params, keys: seq<string>)
    requires forall k :: k in params ==> IsByteText(params[k])
    ensures var q := JoinedQuery(QueryPieces(params, keys));
            q.Some? ==> q.value != [] && !IsSpace(q.value[|q.value| - 1])
  {
    var pieces := QueryPieces(params, keys);
    PiecesEnd(params, keys);
    if pieces != [] { JoinEnd(pieces); }
  }

  /** A printed link has no white space at its ends, so trimming keeps it. */
  lemma LinkIsTrimmed(scheme: string, userinfo: Option<string>, host: string, port: Port, query: Option<string>,
                      name: string)
    requires scheme != "" && !IsSpace(scheme[0]) && IsByteText(name)
    requires query.Some? ==> query.value != [] && !IsSpace(query.value[|query.value| - 1])
    ensures Trim(Link(scheme, userinfo, host, port, query, NameFragment(name))) ==
              Link(scheme, userinfo, host, port, query, NameFragment(name))
  {
    var s := Link(scheme, userinfo, host, port, query, NameFragment(name));
    PctIsInert(name);
    var last := s[|s| - 1];
    if name != "" {
      assert last == Pct(name)[|Pct(name)| - 1];
    } else if query.Some? {
      assert last == query.value[|query.value| - 1];
    } else {
      assert last == Decimal(port)[|Decimal(port)| - 1];
    }
    TrimIsIdle(s);
  }

  lemma NameComesBack(name: string)
    requires IsByteText(name)
    ensures match NameFragment(name)
            case Some(f) => PercentDecode(f) == name && name != ""
            case None => name == ""
  {
    PctRoundTrip(name);
  }

  /** The profile without what a link does not carry: empty parameters, tags, and an empty name. */
  function Carried(p: ServerProfile): ServerProfile {
    p.(name := if p.name == "" then HostPort(p.address, p.port) else p.name,
       params := map k | k in p.params && p.params[k] != "" :: p.params[k],
       tags := [])
  }

  /** The parameter map rebuilt from query and user info. */
  lemma Hysteria2Params(params: Params, keys: seq<string>)
    requires forall k :: k in params ==> k in keys
    ensures var query := PairsMap(ShownPairs(params - {"auth"}, keys), map[]);
            (if Shown(params, "auth") then query["auth" := params["auth"]] else query)
            == map k | k in params && params[k] != "" :: params[k]
  {
    var shown := map k | k in params && params[k] != "" :: params[k];
    var query := PairsMap(ShownPairs(params - {"auth"}, keys), map[]);
    var all := if Shown(params, "auth") then query["auth" := params["auth"]] else query;
    forall k ensures k in all <==> k in shown
             ensures k in shown ==> all[k] == shown[k] {
      PairsMapLookup(params - {"auth"}, keys, map[], k);
    }
    assert all == shown;
  }

  lemma LinkReachesParser(s: string, scheme: string)
    requires scheme != "" && Trim(s) == s && FindScheme(s) == Some(|scheme|) && s[..|scheme|] == scheme
    ensures ParseLink(s) == ParseScheme(Lower(scheme), s)
  {
  }

  lemma SchemeKinds()
    ensures KindOf(Lower("hysteria2")) == Some(Hysteria2)
    ensures KindOf(Lower("ss")) == Some(Shadowsocks)
  {
    assert Lower("hysteria2") == "hysteria2";
    assert Lower("ss") == "ss";
  }

  lemma Hysteria2OfParts(uri: Uri, auth: string, name: string)
    requires uri.port.Some?
    requires match uri.userinfo case Some(u) => u != "" && PercentDecode(u) == auth
               && auth != "" case None => auth == ""
    requires match uri.fragment case Some(f) => f == name case None => name == ""
    ensures var query := PairsMap(uri.query, map[]);
            Hysteria2Of(uri) == Ok(MakeProfile(Hysteria2, uri.host, uri.port.value,
                                               if auth == "" then query else query["auth" := auth], Some(name)))
  {
  }

  function AuthInfo(auth: string): Option<string>
    requires IsByteText(auth)
  {
    if auth == "" then None else Some(Pct(auth))
  }

  lemma AuthComesBack(auth: string)
    requires IsByteText(auth)
    ensures match AuthInfo(auth)
            case Some(u) => u != "" && PercentDecode(u) == auth && auth != "" && '#' !in u && '?' !in u
            case None => auth == ""
  {
    PctIsInert(auth);
    PctRoundTrip(auth);
  }

  /** A printed link parses to the user info, endpoint, shown parameters and name it was printed from. */
  lemma PrintedUri(scheme: string, userinfo: Option<string>, host: string, port: Port, params: Params,
                   keys: seq<string>, name: string)
    requires ':' !in scheme && PlainHost(host) && IsByteText(name)
    requires userinfo.Some? ==> '#' !in userinfo.value && '?' !in userinfo.value
    requires forall k :: k in params ==> IsByteText(params[k])
    requires forall i :: 0 <= i < |keys| ==> PlainKey(keys[i])
    ensures ParseUri(Link(scheme, userinfo, host, port, JoinedQuery(QueryPieces(params, keys)), NameFragment(name))) ==
            Ok(Uri(Lower(scheme), userinfo, host, Some(port), ShownPairs(params, keys),
                   if name == "" then None else Some(name)))
  {
    QueryRoundTrip(params, keys);
    NameComesBack(name);
    UriRoundTrip(scheme, userinfo, host, port, JoinedQuery(QueryPieces(params, keys)), NameFragment(name));
  }

  lemma Hysteria2Uri(auth: string, host: string, port: Port, params: Params, keys: seq<string>, name: string)
    requires IsByteText(auth) && IsByteText(name) && PlainHost(host)
    requires forall k :: k in params ==> IsByteText(params[k])
    requires forall i :: 0 <= i < |keys| ==> PlainKey(keys[i])
    ensures ParseUri(Link("hysteria2", AuthInfo(auth), host, port, JoinedQuery(QueryPieces(params, keys)),
                          NameFragment(name))) ==
            Ok(Uri(Lower("hysteria2"), AuthInfo(auth), host, Some(port), ShownPairs(params, keys), if name == "" then
                   None else Some(name)))
  {
    AuthComesBack(auth);
    PrintedUri("hysteria2", AuthInfo(auth), host, port, params, keys, name);
  }

  /** What the parser builds from the parts of the link. */
  lemma Hysteria2Parts(auth: string, host: string, port: Port, params: Params, keys: seq<string>, name: string)
    requires IsByteText(auth) && IsByteText(name) && PlainHost(host)
    requires forall k :: k in params ==> IsByteText(params[k])
    requires forall i :: 0 <= i < |keys| ==> PlainKey(keys[i])
    ensures var s := Link("hysteria2", AuthInfo(auth), host, port, JoinedQuery(QueryPieces(params, keys)),
                          NameFragment(name));
            var query := PairsMap(ShownPairs(params, keys), map[]);
            ParseHysteria2(s) ==
              Ok(MakeProfile(Hysteria2, host, port, if auth == "" then query else query["auth" := auth], Some(name)))
  {
    Hysteria2Uri(auth, host, port, params, keys, name);
    AuthComesBack(auth);
    Hysteria2OfParts(Uri(Lower("hysteria2"), AuthInfo(auth), host, Some(port), ShownPairs(params, keys), if name ==
                         "" then None else Some(name)), auth, name);
  }

  lemma LinkStarts(scheme: string, userinfo: Option<string>, host: string, port: Port, query: Option<string>,
                   fragment: Option<string>)
    requires ':' !in scheme
    ensures var s := Link(scheme, userinfo, host, port, query, fragment);
            FindScheme(s) == Some(|scheme|) && s[..|scheme|] == scheme
  {
    LinkOpens(scheme, Prefix(userinfo, '@') + HostPort(host, port) + Suffix('?', query) + Suffix('#', fragment));
  }

  /** A printed link reaches the parser of its scheme, whatever the host. */
  lemma {:induction false} LinkReaches(scheme: string, userinfo: Option<string>, host: string, port: Port,
                                       params: Params, keys: seq<string>, name: string)
    requires scheme != "" && ':' !in scheme && !IsSpace(scheme[0]) && IsByteText(name)
    requires forall k :: k in params ==> IsByteText(params[k])
    ensures var s := Link(scheme, userinfo, host, port, JoinedQuery(QueryPieces(params, keys)), NameFragment(name));
            ParseLink(s) == ParseScheme(Lower(scheme), s)
  {
    var query := JoinedQuery(QueryPieces(params, keys));
    var s := Link(scheme, userinfo, host, port, query, NameFragment(name));
    QueryEnd(params, keys);
    LinkIsTrimmed(scheme, userinfo, host, port, query, name);
    LinkStarts(scheme, userinfo, host, port, query, NameFragment(name));
    LinkReachesParser(s, scheme);
  }

  function AuthOf(params: Params): string {
    if "auth" in params then params["auth"] else ""
  }

  lemma Hysteria2Profile(p: ServerProfile, keys: seq<string>)
    requires p.protocol == Hysteria2 && forall k :: k in p.params ==> k in keys
    ensures var query := PairsMap(ShownPairs(p.params - {"auth"}, keys), map[]);
            MakeProfile(Hysteria2, p.address, p.port, if AuthOf(p.params) == "" then query
                        else query["auth" := AuthOf(p.params)], Some(p.name))
            == Carried(p)
  {
    Hysteria2Params(p.params, keys);
  }

  /** Parsing the printed hysteria2 link gives back everything the link carries. */
  lemma Hysteria2RoundTrip(p: ServerProfile, keys: seq<string>)
    requires BytesOnly(p) && p.protocol == Hysteria2 && PlainHost(p.address)
    requires forall k :: k in p.params ==> k in keys
    requires forall i :: 0 <= i < |keys| ==> PlainKey(keys[i])
    ensures Hysteria2Link(p, keys).Some?
    ensures ParseLink(Hysteria2Link(p, keys).value) == Ok(Carried(p))
  {
    var params, auth := p.params - {"auth"}, AuthOf(p.params);
    LinkReaches("hysteria2", AuthInfo(auth), p.address, p.port, params, keys, p.name);
    SchemeKinds();
    Hysteria2Parts(auth, p.address, p.port, params, keys, p.name);
    Hysteria2Profile(p, keys);
  }

  predicate NothingDropped(p: ServerProfile) {
    p.name != "" && p.tags == [] && forall k :: k in p.params ==> p.params[k] != ""
  }

  lemma CarriedIsAll(p: ServerProfile)
    ensures Carried(p) == p <==> NothingDropped(p)
  {
    assert HostPort(p.address, p.port) != "";
    var shown := map k | k in p.params && p.params[k] != "" :: p.params[k];
    if forall k :: k in p.params ==> p.params[k] != "" {
      assert shown == p.params;
    } else {
      var k :| k in p.params && p.params[k] == "";
      assert k !in shown;
    }
  }

  lemma OddHostFails(auth: string, host: string, port: Port, params: Params, keys: seq<string>,
                     fragment: Option<string>)
    requires IsByteText(auth) && !PlainHost(host)
    requires forall k :: k in params ==> IsByteText(params[k])
    requires forall i :: 0 <= i < |keys| ==> PlainKey(keys[i])
    ensures var r := ParseUri(Link("hysteria2", AuthInfo(auth), host, port, JoinedQuery(QueryPieces(params, keys)),
                                   fragment));
            r.Ok? ==> r.value.host != host
  {
    var query := JoinedQuery(QueryPieces(params, keys));
    AuthComesBack(auth);
    QueryRoundTrip(params, keys);
    OddHostUri("hysteria2", AuthInfo(auth), host, port, query, fragment);
  }

  lemma OddHostLost(p: ServerProfile, keys: seq<string>)
    requires BytesOnly(p) && p.protocol == Hysteria2 && !PlainHost(p.address)
    requires forall i :: 0 <= i < |keys| ==> PlainKey(keys[i])
    ensures var r := ParseLink(Hysteria2Link(p, keys).value); r.Ok? ==> r.value.address != p.address
  {
    var params, auth := p.params - {"auth"}, AuthOf(p.params);
    LinkReaches("hysteria2", AuthInfo(auth), p.address, p.port, params, keys, p.name);
    SchemeKinds();
    OddHostFails(auth, p.address, p.port, params, keys, NameFragment(p.name));
  }

  /** Which hosts come back: exactly the plain ones. */
  lemma Hysteria2HostIff(p: ServerProfile, keys: seq<string>)
    requires BytesOnly(p) && p.protocol == Hysteria2
    requires forall k :: k in p.params ==> k in keys
    requires forall i :: 0 <= i < |keys| ==> PlainKey(keys[i])
    ensures Hysteria2Link(p, keys).Some?
    ensures var r := ParseLink(Hysteria2Link(p, keys).value);
            (r.Ok? && r.value.address == p.address) <==> PlainHost(p.address)
  {
    if PlainHost(p.address) {
      Hysteria2RoundTrip(p, keys);
    } else {
      OddHostLost(p, keys);
    }
  }

  /** The link loses nothing exactly when there is nothing it cannot carry. */
  lemma Hysteria2LinkIsExact(p: ServerProfile, keys: seq<string>)
    requires BytesOnly(p) && p.protocol == Hysteria2
    requires forall k :: k in p.params ==> k in keys
    requires forall i :: 0 <= i < |keys| ==> PlainKey(keys[i])
    ensures Hysteria2Link(p, keys).Some?
    ensures ParseLink(Hysteria2Link(p, keys).value) == Ok(p) <==> NothingDropped(p) && PlainHost(p.address)
  {
    Hysteria2HostIff(p, keys);
    if PlainHost(p.address) {
      Hysteria2RoundTrip(p, keys);
      CarriedIsAll(p);
    }
  }
}
