/** What a printed VLESS link parses back to: `node_to_vless_link` in `crates/cli/src/lib.rs`. */
module VlessLink {
  import opened Wrappers
  import opened ByteText
  import opened Ascii
  import opened Routing
  import opened Model
  import opened Percent
  import opened UriParsing
  import opened ShareLink
  import opened LinkRoundTrip

  const VLESS_KEYS := ["type", "security", "encryption", "flow", "sni", "pbk", "sid", "fp", "host", "path", "alpn",
                       "serviceName"]

  /** `node_to_vless_link`: the one printer that writes its credential unencoded. */
  function Print(p: ServerProfile): Option<string>
    requires BytesOnly(p)
  {
    if p.protocol != Vless || "uuid" !in p.params then None
    else
      Some(Link("vless", Some(p.params["uuid"]), p.address, p.port,
                JoinedQuery(QueryPieces(p.params, VLESS_KEYS)), NameFragment(p.name)))
  }

  lemma KeysArePlain()
    ensures forall i :: 0 <= i < |VLESS_KEYS| ==> PlainKey(VLESS_KEYS[i])
    ensures "uuid" !in VLESS_KEYS
  {
    forall i | 0 <= i < |VLESS_KEYS| ensures PlainKey(VLESS_KEYS[i]) {
      UnreservedKeyIsPlain(VLESS_KEYS[i]);
    }
  }

  /** The profile as its link tells it. */
  function Told(p: ServerProfile): ServerProfile
    requires "uuid" in p.params
  {
    p.(name := if p.name == "" then HostPort(p.address, p.port) else p.name,
       params := KnownParams(p.params, VLESS_KEYS)["uuid" := PercentDecode(p.params["uuid"])],
       tags := [])
  }

  lemma OfUri(s: string, uri: Uri, uuid: string, name: string)
    requires ParseUri(s) == Ok(uri) && uri.port.Some? && uri.userinfo == Some(uuid)
    requires match uri.fragment case Some(f) => f == name case None => name == ""
    ensures ParseCredential(s, Vless, "uuid") ==
            Ok(MakeProfile(Vless, uri.host, uri.port.value, PairsMap(uri.query, map[])["uuid" := PercentDecode(uuid)],
                           Some(name)))
  {
  }

  lemma UriOf(uuid: string, host: string, port: Port, params: Params, keys: seq<string>, name: string)
    requires '#' !in uuid && '?' !in uuid && IsByteText(name) && PlainHost(host)
    requires forall k :: k in params ==> IsByteText(params[k])
    requires forall i :: 0 <= i < |keys| ==> PlainKey(keys[i])
    ensures ParseUri(Link("vless", Some(uuid), host, port, JoinedQuery(QueryPieces(params, keys)),
                          NameFragment(name))) ==
            Ok(Uri(Lower("vless"), Some(uuid), host, Some(port), ShownPairs(params, keys), if name == "" then None
                   else Some(name)))
  {
    PrintedUri("vless", Some(uuid), host, port, params, keys, name);
  }

  lemma Scheme()
    ensures KindOf(Lower("vless")) == Some(Vless)
  {
    assert Lower("vless") == "vless";
  }

  lemma Parts(uuid: string, host: string, port: Port, params: Params, keys: seq<string>, name: string)
    requires '#' !in uuid && '?' !in uuid && IsByteText(name) && PlainHost(host)
    requires forall k :: k in params ==> IsByteText(params[k])
    requires forall i :: 0 <= i < |keys| ==> PlainKey(keys[i])
    ensures ParseCredential(Link("vless", Some(uuid), host, port, JoinedQuery(QueryPieces(params, keys)),
                                 NameFragment(name)), Vless, "uuid") ==
            Ok(MakeProfile(Vless, host, port, KnownParams(params, keys)["uuid" := PercentDecode(uuid)], Some(name)))
  {
    var s := Link("vless", Some(uuid), host, port, JoinedQuery(QueryPieces(params, keys)), NameFragment(name));
    UriOf(uuid, host, port, params, keys, name);
    QueryIsKnown(params, keys);
    OfUri(s, Uri(Lower("vless"), Some(uuid), host, Some(port), ShownPairs(params, keys), if name == "" then None
                 else Some(name)), uuid, name);
  }

  // ----- a bare uuid can end the authority -----

  /** The user info that ends before the last @ in the part of `uuid` that comes before a # or ?. */
  lemma UuidIsCut(uuid: string, tail: string)
    requires '#' in uuid || '?' in uuid
    ensures var u := CutLast(Cut(Cut(uuid + tail, '#').0, '?').0, '@').0;
            u.Some? ==> |u.value| < |uuid| && u.value == uuid[..|u.value|] && uuid[|u.value|] == '@'
  {
    var rest := uuid + tail;
    var authority := Cut(Cut(rest, '#').0, '?').0;
    DelimitersEndIt(rest);
    var j :| 0 <= j < |uuid| && (uuid[j] == '#' || uuid[j] == '?');
    assert rest[j] == uuid[j];
    assert |authority| <= j;
    assert authority == uuid[..|authority|];
  }

  lemma DelimitersEndIt(rest: string)
    ensures var authority := Cut(Cut(rest, '#').0, '?').0;
            authority <= rest && forall i :: 0 <= i < |authority| ==> rest[i] != '#' && rest[i] != '?'
  {
    var before := Cut(rest, '#').0;
    var authority := Cut(before, '?').0;
    assert before <= rest && authority <= before;
    assert '#' !in before && '?' !in authority;
    assert forall i :: 0 <= i < |authority| ==> rest[i] == before[i] == authority[i];
  }

  /** A proper piece of the uuid before an @ decodes neither to the uuid nor to what the uuid decodes to. */
  lemma PieceDecodesDifferently(uuid: string, n: nat)
    requires n < |uuid| && uuid[n] == '@'
    ensures PercentDecode(uuid[..n]) != uuid && PercentDecode(uuid[..n]) != PercentDecode(uuid)
  {
    DecodeIsNoLonger(uuid[..n]);
    DecodedPieceIsShorter(uuid[..n], uuid[n + 1..]);
    SplitsAt(uuid, n);
  }

  lemma SplitsAt(s: string, n: nat)
    requires n < |s|
    ensures s == s[..n] + ([s[n]] + s[n + 1..])
  {
  }

  lemma DecodedPieceIsShorter(piece: string, rest: string)
    ensures |PercentDecode(piece)| < |PercentDecode(piece + (['@'] + rest))|
  {
    DecodeAround(piece, '@', rest);
  }

  lemma UserinfoOfUri(scheme: string, rest: string)
    requires ':' !in scheme
    ensures var r := ParseUri(scheme + "://" + rest);
            r.Ok? ==> r.value.userinfo == CutLast(Cut(Cut(rest, '#').0, '?').0, '@').0
  {
    LinkOpens(scheme, rest);
  }

  lemma CutUuidIsLost(uuid: string, host: string, port: Port, query: Option<string>, fragment: Option<string>)
    requires '#' in uuid || '?' in uuid
    ensures var r := ParseCredential(Link("vless", Some(uuid), host, port, query, fragment), Vless, "uuid");
            r.Ok? ==> && "uuid" in r.value.params && r.value.params["uuid"] != uuid
                      && r.value.params["uuid"] != PercentDecode(uuid)
  {
    var s := Link("vless", Some(uuid), host, port, query, fragment);
    var tail := ['@'] + HostPort(host, port) + Suffix('?', query) + Suffix('#', fragment);
    assert s == "vless" + "://" + (uuid + tail);
    UserinfoOfUri("vless", uuid + tail);
    UuidIsCut(uuid, tail);
    var u := CutLast(Cut(Cut(uuid + tail, '#').0, '?').0, '@').0;
    if u.Some? { PieceDecodesDifferently(uuid, |u.value|); }
  }

  // ----- the whole link -----

  lemma VlessReaches(p: ServerProfile)
    requires BytesOnly(p) && p.protocol == Vless && "uuid" in p.params
    ensures Print(p).Some? && ParseLink(Print(p).value) == ParseCredential(Print(p).value, Vless, "uuid")
  {
    LinkReaches("vless", Some(p.params["uuid"]), p.address, p.port, p.params, VLESS_KEYS, p.name);
    Scheme();
  }

  /** The printed link gives back what it tells exactly when the bare uuid does not end the authority. */
  lemma VlessRoundTrip(p: ServerProfile)
    requires BytesOnly(p) && p.protocol == Vless && "uuid" in p.params && PlainHost(p.address)
    ensures Print(p).Some?
    ensures ParseLink(Print(p).value) == Ok(Told(p)) <==> '#' !in p.params["uuid"] && '?' !in p.params["uuid"]
  {
    var uuid := p.params["uuid"];
    VlessReaches(p);
    KeysArePlain();
    if '#' !in uuid && '?' !in uuid {
      Parts(uuid, p.address, p.port, p.params, VLESS_KEYS, p.name);
    } else {
      CutUuidIsLost(uuid, p.address, p.port, JoinedQuery(QueryPieces(p.params, VLESS_KEYS)), NameFragment(p.name));
    }
  }

  predicate VlessNothingDropped(p: ServerProfile)
    requires "uuid" in p.params
  {
    && p.name != "" && p.tags == [] && PercentDecode(p.params["uuid"]) == p.params["uuid"]
    && forall k :: k in p.params ==> k == "uuid" || (k in VLESS_KEYS && p.params[k] != "")
  }

  lemma OddHostUriOf(uuid: string, host: string, port: Port, params: Params, keys: seq<string>,
                     fragment: Option<string>)
    requires '#' !in uuid && '?' !in uuid && !PlainHost(host)
    requires forall k :: k in params ==> IsByteText(params[k])
    requires forall i :: 0 <= i < |keys| ==> PlainKey(keys[i])
    ensures var r := ParseUri(Link("vless", Some(uuid), host, port, JoinedQuery(QueryPieces(params, keys)), fragment));
            r.Ok? ==> r.value.host != host
  {
    QueryRoundTrip(params, keys);
    OddHostUri("vless", Some(uuid), host, port, JoinedQuery(QueryPieces(params, keys)), fragment);
  }

  lemma VlessOddHostLost(p: ServerProfile)
    requires BytesOnly(p) && p.protocol == Vless && "uuid" in p.params && !PlainHost(p.address)
    requires '#' !in p.params["uuid"] && '?' !in p.params["uuid"]
    ensures var r := ParseLink(Print(p).value); r.Ok? ==> r.value.address != p.address
  {
    VlessReaches(p);
    KeysArePlain();
    OddHostUriOf(p.params["uuid"], p.address, p.port, p.params, VLESS_KEYS, NameFragment(p.name));
  }

  /**
   The link loses nothing exactly when it tells everything, its host is plain, and its bare uuid
   holds no escape and no # or ?.
   */
  lemma VlessLinkIsExact(p: ServerProfile)
    requires BytesOnly(p) && p.protocol == Vless && "uuid" in p.params
    ensures Print(p).Some?
    ensures ParseLink(Print(p).value) == Ok(p) <==>
              VlessNothingDropped(p) && PlainHost(p.address) && '#' !in p.params["uuid"] && '?' !in p.params["uuid"]
  {
    var uuid := p.params["uuid"];
    VlessReaches(p);
    if '#' in uuid || '?' in uuid {
      CutUuidIsLost(uuid, p.address, p.port, JoinedQuery(QueryPieces(p.params, VLESS_KEYS)), NameFragment(p.name));
    } else if PlainHost(p.address) {
      VlessRoundTrip(p);
      ToldIsAll(p);
    } else {
      VlessOddHostLost(p);
    }
  }

  lemma ToldIsAll(p: ServerProfile)
    requires "uuid" in p.params
    ensures Told(p) == p <==> VlessNothingDropped(p)
  {
    KeysArePlain();
    assert HostPort(p.address, p.port) != "";
    var told := Told(p).params;
    forall k ensures k in told <==> k == "uuid" || (k in p.params && k in VLESS_KEYS && p.params[k] != "")
             ensures k in told && k != "uuid" ==> told[k] == p.params[k] {
    }
    assert told["uuid"] == PercentDecode(p.params["uuid"]);
    if Told(p) == p {
      assert forall k :: k in p.params ==> k in told;
    } else if p.name != "" && p.tags == [] {
      assert told != p.params;
    }
  }
}
