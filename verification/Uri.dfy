/** URIs of the form `scheme://[userinfo@]host[:port][?query][#fragment]`: `crates/core/src/parse/uri.rs`. */
module UriParsing {
  import opened Wrappers
  import opened Sequences
  import opened Ascii
  import opened Numerals
  import opened Routing
  import opened Percent

  datatype ParseError =
    | EmptyInput
    | MalformedUrl(text: string)
    | UnknownScheme(scheme: string)
    | MissingHost
    | MissingPort
    | InvalidPort(text: string)
    | MissingField(name: string)
    | BadBase64

  datatype Uri = Uri(
    scheme: string,
    userinfo: Option<string>,
    host: string,
    port: Option<Port>,
    query: seq<(string, string)>,
    fragment: Option<string>
  )

  predicate SchemeEndsAt(s: string, i: int) {
    0 <= i && i + 2 < |s| && s[i] == ':' && s[i + 1] == '/' && s[i + 2] == '/'
  }

  /** `find("://")`. */
  function FindScheme(s: string): (r: Option<nat>)
    ensures r.Some? ==> SchemeEndsAt(s, r.value)
    ensures r.Some? ==> forall i :: 0 <= i < r.value ==> !SchemeEndsAt(s, i)
    ensures r.None? ==> forall i :: !SchemeEndsAt(s, i)
  {
    if s == [] then None
    else if SchemeEndsAt(s, 0) then Some(0)
    else
      assert forall i :: SchemeEndsAt(s, i) <==> i != 0 && SchemeEndsAt(s[1..], i - 1);
      match FindScheme(s[1..])
      case None => None
      case Some(i) => Some(i + 1)
  }

  /** The text before the first `c`, and the text after it if there is one. */
  function Cut(s: string, c: char): (string, Option<string>) {
    match Find(s, c)
    case None => (s, None)
    case Some(i) => (s[..i], Some(s[i + 1..]))
  }

  /** The text before the last `c`, if there is one, and the rest. */
  function CutLast(s: string, c: char): (Option<string>, string) {
    match RFind(s, c)
    case None => (None, s)
    case Some(i) => (Some(s[..i]), s[i + 1..])
  }

  function ParsePort(s: string): Result<Port, ParseError> {
    match ParseUint(s, 65535)
    case Some(n) => Ok(n)
    case None => Err(InvalidPort(s))
  }

  /** `split_host_port`. */
  function SplitHostPort(s: string): Result<(string, Option<Port>), ParseError> {
    if s != [] && s[0] == '[' then
      match Find(s[1..], ']')
      case None => Err(MalformedUrl(s))
      case Some(end) =>
        var tail := s[end + 2..];
        if tail != [] && tail[0] == ':' then
          var port :- ParsePort(tail[1..]);
          Ok((s[1..end + 1], Some(port)))
        else Ok((s[1..end + 1], None))
    else
      match RFind(s, ':')
      case None => Ok((s, None))
      case Some(0) => Err(MissingHost)
      case Some(i) =>
        var port :- ParsePort(s[i + 1..]);
        Ok((s[..i], Some(port)))
  }

  /** `split(c)`: never empty, the pieces around each `c`. */
  function Split(s: string, c: char): (pieces: seq<string>)
    ensures pieces != []
    decreases |s|
  {
    match Find(s, c)
    case None => [s]
    case Some(i) => [s[..i]] + Split(s[i + 1..], c)
  }

  function QueryPair(piece: string): (string, string) {
    var (key, value) := Cut(piece, '=');
    (PercentDecode(key), match value case Some(v) => PercentDecode(v) case None => "")
  }

  function QueryPairs(pieces: seq<string>): seq<(string, string)> {
    if pieces == [] then []
    else (if pieces[0] == "" then [] else [QueryPair(pieces[0])]) + QueryPairs(pieces[1..])
  }

  /** `parse_query`. */
  function ParseQuery(q: string): seq<(string, string)> {
    QueryPairs(Split(q, '&'))
  }

  /** `Uri::parse`. */
  function ParseUri(input: string): Result<Uri, ParseError> {
    match FindScheme(input)
    case None => Err(MalformedUrl(input))
    case Some(i) =>
      var (beforeFragment, fragment) := Cut(input[i + 3..], '#');
      var (authority, query) := Cut(beforeFragment, '?');
      var (userinfo, hostPort) := CutLast(authority, '@');
      if hostPort == "" then Err(MissingHost)
      else
        var hp :- SplitHostPort(hostPort);
        Ok(Uri(Lower(input[..i]), userinfo, hp.0, hp.1,
               match query case Some(q) => ParseQuery(q) case None => [],
               match fragment case Some(f) => Some(PercentDecode(f)) case None => None))
  }

  // ----- printing -----

  function Suffix(c: char, text: Option<string>): string {
    match text
    case None => ""
    case Some(t) => [c] + t
  }

  function Prefix(text: Option<string>, c: char): string {
    match text
    case None => ""
    case Some(t) => t + [c]
  }

  function HostPort(host: string, port: Port): string {
    host + [':'] + Decimal(port)
  }

  /** The shape the share-link printers format. */
  function Link(scheme: string, userinfo: Option<string>, host: string, port: Port,
                query: Option<string>, fragment: Option<string>): string {
    scheme + "://" + (Prefix(userinfo, '@') + HostPort(host, port) + Suffix('?', query) + Suffix('#', fragment))
  }

  /** `join("&")`. */
  function Join(pieces: seq<string>): string
    requires pieces != []
  {
    if |pieces| == 1 then pieces[0] else pieces[0] + ['&'] + Join(pieces[1..])
  }

  /** Free of the characters that end an authority or start its host. */
  predicate SafeHost(host: string) {
    '#' !in host && '?' !in host && '@' !in host
  }

  /** A host the printers and the parser agree on. */
  predicate PlainHost(host: string) {
    host != "" && host[0] != '[' && SafeHost(host)
  }

  lemma {:induction false} SchemeFound(scheme: string, rest: string)
    requires ':' !in scheme
    ensures FindScheme(scheme + "://" + rest) == Some(|scheme|)
  {
    var s := scheme + "://" + rest;
    if scheme == [] {
      assert SchemeEndsAt(s, 0);
    } else {
      assert ':' !in scheme[1..];
      SchemeFound(scheme[1..], rest);
      assert s[1..] == scheme[1..] + "://" + rest;
      assert s[0] == scheme[0];
    }
  }

  lemma CutAt(a: string, c: char, tail: Option<string>)
    requires c !in a
    ensures Cut(a + Suffix(c, tail), c) == (a, tail)
  {
    match tail
    case None =>
      assert a + Suffix(c, tail) == a;
    case Some(t) =>
      FindFirst(a, c, t);
      assert a + Suffix(c, tail) == a + [c] + t;
      assert (a + [c] + t)[..|a|] == a && (a + [c] + t)[|a| + 1..] == t;
  }

  lemma CutLastAt(head: Option<string>, c: char, b: string)
    requires c !in b
    ensures CutLast(Prefix(head, c) + b, c) == (head, b)
  {
    match head
    case None =>
      assert Prefix(head, c) + b == b;
    case Some(h) =>
      FindLast(h, c, b);
      assert Prefix(head, c) + b == h + [c] + b;
      assert (h + [c] + b)[..|h|] == h && (h + [c] + b)[|h| + 1..] == b;
  }

  lemma DecimalIsDigits(port: Port, c: char)
    requires !IsDigit(c)
    ensures c !in Decimal(port)
  {
  }

  lemma HostPortSplits(host: string, port: Port)
    requires PlainHost(host)
    ensures SplitHostPort(HostPort(host, port)) == Ok((host, Some(port)))
  {
    DecimalIsDigits(port, ':');
    FindLast(host, ':', Decimal(port));
    ParseDecimal(port, 65535);
    var s := HostPort(host, port);
    assert s[..|host|] == host && s[|host| + 1..] == Decimal(port);
  }

  lemma SafeHostPort(host: string, port: Port)
    requires SafeHost(host)
    ensures HostPort(host, port) != "" && SafeHost(HostPort(host, port))
  {
    DecimalIsDigits(port, '#');
    DecimalIsDigits(port, '?');
    DecimalIsDigits(port, '@');
  }

  lemma LinkOpens(scheme: string, rest: string)
    requires ':' !in scheme
    ensures var s := scheme + "://" + rest;
            FindScheme(s) == Some(|scheme|) && s[..|scheme|] == scheme && s[|scheme| + 3..] == rest
  {
    SchemeFound(scheme, rest);
  }

  /** A link with any text for its endpoint. */
  function LinkTo(scheme: string, userinfo: Option<string>, endpoint: string, query: Option<string>,
                  fragment: Option<string>): string {
    scheme + "://" + (Prefix(userinfo, '@') + endpoint + Suffix('?', query) + Suffix('#', fragment))
  }

  /** What every parser of such a link finds before it looks at the parts. */
  lemma PartsDissected(scheme: string, userinfo: Option<string>, endpoint: string, query: Option<string>,
                       fragment: Option<string>)
    requires ':' !in scheme && SafeHost(endpoint)
    requires userinfo.Some? ==> '#' !in userinfo.value && '?' !in userinfo.value
    requires query.Some? ==> '#' !in query.value
    ensures var s := LinkTo(scheme, userinfo, endpoint, query, fragment);
            var authority := Prefix(userinfo, '@') + endpoint;
            && FindScheme(s) == Some(|scheme|)
            && s[..|scheme|] == scheme
            && Cut(s[|scheme| + 3..], '#') == (authority + Suffix('?', query), fragment)
            && Cut(authority + Suffix('?', query), '?') == (authority, query)
            && CutLast(authority, '@') == (userinfo, endpoint)
  {
    var authority := Prefix(userinfo, '@') + endpoint;
    LinkOpens(scheme, authority + Suffix('?', query) + Suffix('#', fragment));
    CutAt(authority + Suffix('?', query), '#', fragment);
    CutAt(authority, '?', query);
    CutLastAt(userinfo, '@', endpoint);
  }

  lemma LinkDissected(scheme: string, userinfo: Option<string>, host: string, port: Port,
                      query: Option<string>, fragment: Option<string>)
    requires ':' !in scheme && SafeHost(host)
    requires userinfo.Some? ==> '#' !in userinfo.value && '?' !in userinfo.value
    requires query.Some? ==> '#' !in query.value
    ensures var s := Link(scheme, userinfo, host, port, query, fragment);
            var authority := Prefix(userinfo, '@') + HostPort(host, port);
            && FindScheme(s) == Some(|scheme|)
            && s[..|scheme|] == scheme
            && Cut(s[|scheme| + 3..], '#') == (authority + Suffix('?', query), fragment)
            && Cut(authority + Suffix('?', query), '?') == (authority, query)
            && CutLast(authority, '@') == (userinfo, HostPort(host, port))
  {
    SafeHostPort(host, port);
    PartsDissected(scheme, userinfo, HostPort(host, port), query, fragment);
  }

  /** A printed link parses back to its parts. */
  lemma UriRoundTrip(scheme: string, userinfo: Option<string>, host: string, port: Port,
                     query: Option<string>, fragment: Option<string>)
    requires ':' !in scheme && PlainHost(host)
    requires userinfo.Some? ==> '#' !in userinfo.value && '?' !in userinfo.value
    requires query.Some? ==> '#' !in query.value
    ensures ParseUri(Link(scheme, userinfo, host, port, query, fragment)) ==
            Ok(Uri(Lower(scheme), userinfo, host, Some(port),
                   match query case Some(q) => ParseQuery(q) case None => [],
                   match fragment case Some(f) => Some(PercentDecode(f)) case None => None))
  {
    LinkDissected(scheme, userinfo, host, port, query, fragment);
    SafeHostPort(host, port);
    HostPortSplits(host, port);
  }

  /** Any link parses to its parts, with the host and port its endpoint splits into, or fails as that does. */
  lemma UriOfParts(scheme: string, userinfo: Option<string>, endpoint: string, query: Option<string>,
                   fragment: Option<string>)
    requires ':' !in scheme && SafeHost(endpoint)
    requires userinfo.Some? ==> '#' !in userinfo.value && '?' !in userinfo.value
    requires query.Some? ==> '#' !in query.value
    ensures ParseUri(LinkTo(scheme, userinfo, endpoint, query, fragment)) ==
            if endpoint == "" then Err(MissingHost)
            else
              match SplitHostPort(endpoint)
              case Err(e) => Err(e)
              case Ok((host, port)) =>
                Ok(Uri(Lower(scheme), userinfo, host, port,
                       match query case Some(q) => ParseQuery(q) case None => [],
                       match fragment case Some(f) => Some(PercentDecode(f)) case None => None))
  {
    PartsDissected(scheme, userinfo, endpoint, query, fragment);
  }

  /** Hosts in brackets may hold colons, ports may be missing, and an endpoint cannot be only a port. */
  lemma EndpointForms(host: string, port: Port)
    ensures ']' !in host ==>
              && SplitHostPort("[" + host + "]:" + Decimal(port)) == Ok((host, Some(port)))
              && SplitHostPort("[" + host + "]") == Ok((host, None))
    ensures ']' !in host ==> SplitHostPort("[" + host) == Err(MalformedUrl("[" + host))
    ensures ':' !in host && (host == "" || host[0] != '[') ==>
              && SplitHostPort(host) == Ok((host, None))
              && SplitHostPort(":" + host) == Err(MissingHost)
  {
    if ']' !in host { BracketForms(host, port); }
    if ':' !in host {
      FindNone(host, ':');
      assert ":" + host == [] + [':'] + host;
      FindLast([], ':', host);
    }
  }

  lemma {:induction false} BracketForms(host: string, port: Port)
    requires ']' !in host
    ensures SplitHostPort("[" + host + "]:" + Decimal(port)) == Ok((host, Some(port)))
    ensures SplitHostPort("[" + host + "]") == Ok((host, None))
    ensures SplitHostPort("[" + host) == Err(MalformedUrl("[" + host))
  {
    var bare, tail := "[" + host + "]", [':'] + Decimal(port);
    ParseDecimal(port, 65535);
    InBrackets(host, tail);
    InBrackets(host, "");
    assert bare + tail == "[" + host + "]:" + Decimal(port) && bare + "" == bare;
    assert tail[1..] == Decimal(port);
    assert ("[" + host)[1..] == host;
    FindNone(host, ']');
  }

  lemma {:induction false} InBrackets(host: string, tail: string)
    requires ']' !in host
    ensures var s := "[" + host + "]" + tail;
            Find(s[1..], ']') == Some(|host|) && s[1..|host| + 1] == host && s[|host| + 2..] == tail
  {
    var s := "[" + host + "]" + tail;
    FindFirst(host, ']', tail);
    assert s[1..] == host + [']'] + tail;
  }

  /** A port that is no numeral below 2^16 fails the endpoint, and is reported. */
  lemma BadPortRejected(host: string, text: string)
    requires host != "" && host[0] != '[' && ':' !in text && ParseUint(text, 65535).None?
    ensures SplitHostPort(host + ":" + text) == Err(InvalidPort(text))
  {
    FindLast(host, ':', text);
    var s := host + ":" + text;
    assert s == host + [':'] + text && s[..|host|] == host && s[|host| + 1..] == text;
  }

  lemma AuthorityIsSafe(rest: string)
    ensures var hostPort := CutLast(Cut(Cut(rest, '#').0, '?').0, '@').1;
            forall c :: c in hostPort ==> c != '#' && c != '?' && c != '@'
  {
    var before := Cut(rest, '#').0;
    var authority := Cut(before, '?').0;
    assert '#' !in before && authority <= before;
  }

  lemma HostOfUriIsSafe(s: string)
    ensures ParseUri(s).Ok? ==> SafeHost(ParseUri(s).value.host)
  {
    var i := FindScheme(s);
    if i.Some? {
      var rest := s[i.value + 3..];
      AuthorityIsSafe(rest);
      SplitHostIsPart(CutLast(Cut(Cut(rest, '#').0, '?').0, '@').1);
    }
  }

  lemma SplitHostIsPart(hostPort: string)
    ensures SplitHostPort(hostPort).Ok? ==> forall c :: c in SplitHostPort(hostPort).value.0 ==> c in hostPort
  {
  }

  /** An empty or bracketed host never comes back from a printed endpoint. */
  lemma OddHostIsLost(host: string, port: Port)
    requires host == "" || host[0] == '['
    ensures SplitHostPort(HostPort(host, port)).Ok? ==> SplitHostPort(HostPort(host, port)).value.0 != host
  {
    var s := HostPort(host, port);
    if host == "" {
      DecimalIsDigits(port, ':');
      FindLast("", ':', Decimal(port));
      assert s == [] + [':'] + Decimal(port);
    } else if Find(s[1..], ']').Some? {
      var end := Find(s[1..], ']').value;
      assert s[1..][end] == s[end + 1] == ']';
      assert s[|host| + 1] == Decimal(port)[0];
      assert |s[1..end + 1]| == end;
    }
  }

  lemma OddHostUri(scheme: string, userinfo: Option<string>, host: string, port: Port,
                   query: Option<string>, fragment: Option<string>)
    requires ':' !in scheme && !PlainHost(host)
    requires userinfo.Some? ==> '#' !in userinfo.value && '?' !in userinfo.value
    requires query.Some? ==> '#' !in query.value
    ensures var r := ParseUri(Link(scheme, userinfo, host, port, query, fragment)); r.Ok? ==> r.value.host != host
  {
    if SafeHost(host) {
      LinkDissected(scheme, userinfo, host, port, query, fragment);
      OddHostIsLost(host, port);
    } else {
      HostOfUriIsSafe(Link(scheme, userinfo, host, port, query, fragment));
    }
  }

  /** Splitting undoes joining when no piece holds the separator. */
  lemma {:induction false} SplitJoin(pieces: seq<string>)
    requires pieces != [] && forall i :: 0 <= i < |pieces| ==> '&' !in pieces[i]
    ensures Split(Join(pieces), '&') == pieces
  {
    if |pieces| == 1 {
      FindNone(pieces[0], '&');
    } else {
      SplitJoin(pieces[1..]);
      FindFirst(pieces[0], '&', Join(pieces[1..]));
      var s := Join(pieces);
      assert s[|pieces[0]| + 1..] == Join(pieces[1..]);
      assert s[..|pieces[0]|] == pieces[0];
    }
  }

  lemma {:induction false} SplitFirst(head: string, c: char, rest: string)
    requires c !in head
    ensures Split(head + [c] + rest, c) == [head] + Split(rest, c)
  {
    FindFirst(head, c, rest);
    var s := head + [c] + rest;
    assert s[..|head|] == head && s[|head| + 1..] == rest;
  }

  lemma {:induction false} SplitConcat(a: string, b: string, c: char)
    ensures Split(a + [c] + b, c) == Split(a, c) + Split(b, c)
    decreases |a|
  {
    if c !in a {
      FindNone(a, c);
      SplitFirst(a, c, b);
    } else {
      var i := Find(a, c).value;
      var head, tail := a[..i], a[i + 1..];
      assert a == head + [c] + tail;
      assert a + [c] + b == head + [c] + (tail + [c] + b);
      SplitConcat(tail, b, c);
      SplitFirst(head, c, tail);
      SplitFirst(head, c, tail + [c] + b);
      Regroup([head], Split(tail, c), Split(b, c));
    }
  }

  lemma {:induction false} PairsNext(piece: string, rest: seq<string>)
    ensures QueryPairs([piece] + rest) == (if piece == "" then [] else [QueryPair(piece)]) + QueryPairs(rest)
  {
    assert ([piece] + rest)[1..] == rest;
  }

  lemma {:induction false} PairsStep(piece: string, rest: seq<string>, more: seq<string>)
    requires QueryPairs(rest + more) == QueryPairs(rest) + QueryPairs(more)
    ensures QueryPairs([piece] + (rest + more)) == QueryPairs([piece] + rest) + QueryPairs(more)
  {
    var first := if piece == "" then [] else [QueryPair(piece)];
    PairsNext(piece, rest);
    PairsNext(piece, rest + more);
    Regroup(first, QueryPairs(rest), QueryPairs(more));
  }

  lemma {:induction false} NoPairs(b: seq<string>)
    ensures QueryPairs([] + b) == QueryPairs([]) + QueryPairs(b)
  {
    assert [] + b == b && QueryPairs([]) == [];
  }

  lemma {:induction false} PairsConcat(a: seq<string>, b: seq<string>)
    ensures QueryPairs(a + b) == QueryPairs(a) + QueryPairs(b)
  {
    if a == [] {
      NoPairs(b);
    } else {
      PairsConcat(a[1..], b);
      PairsStep(a[0], a[1..], b);
      ConsConcat(a, b);
    }
  }

  lemma OnePiece(piece: string)
    requires '&' !in piece
    ensures ParseQuery(piece) == if piece == "" then [] else [QueryPair(piece)]
  {
    FindNone(piece, '&');
    assert [piece][1..] == [] && QueryPairs([]) == [];
  }

  lemma {:induction false} PieceAlone(key: string)
    requires '=' !in key
    ensures QueryPair(key) == (PercentDecode(key), "")
  {
    FindNone(key, '=');
  }

  lemma {:induction false} PieceWithValue(key: string, value: string)
    requires '=' !in key
    ensures QueryPair(key + ['='] + value) == (PercentDecode(key), PercentDecode(value))
  {
    var piece := key + ['='] + value;
    FindFirst(key, '=', value);
    assert piece[..|key|] == key && piece[|key| + 1..] == value;
  }

  /** A query is read piece by piece: an empty piece gives nothing, and one without an equals sign an empty value. */
  lemma {:induction false} QueryByPieces(a: string, b: string, key: string, value: string)
    ensures ParseQuery(a + ['&'] + b) == ParseQuery(a) + ParseQuery(b)
    ensures ParseQuery("") == []
    ensures key != "" && '&' !in key && '=' !in key ==> ParseQuery(key) == [(PercentDecode(key), "")]
    ensures '&' !in key && '=' !in key && '&' !in value ==>
              ParseQuery(key + ['='] + value) == [(PercentDecode(key), PercentDecode(value))]
  {
    SplitConcat(a, b, '&');
    PairsConcat(Split(a, '&'), Split(b, '&'));
    OnePiece("");
    if '&' !in key && '=' !in key {
      OnePiece(key);
      PieceAlone(key);
      if '&' !in value {
        OnePiece(key + ['='] + value);
        PieceWithValue(key, value);
      }
    }
  }

  lemma {:induction false} JoinHoldsNo(pieces: seq<string>, c: char)
    requires pieces != [] && c != '&' && forall i :: 0 <= i < |pieces| ==> c !in pieces[i]
    ensures c !in Join(pieces)
  {
    if |pieces| > 1 { JoinHoldsNo(pieces[1..], c); }
  }
}
