/** Routing rules and their native evaluation: `crates/core/src/routing/{rule,engine}.rs`. */
module Routing {
  import opened Wrappers
  import opened Cidr
  import opened DomainRules
  import opened SplitConfiguration

  type Port = n: int | 0 <= n < 0x1_0000

  datatype RouteAction = Direct | Proxy(tag: Option<string>) | Block

  datatype Rule = Rule(
    domains: seq<DomainRule>,
    ipCidrs: seq<IpCidr>,
    processes: seq<AppMatcher>,
    ports: seq<Port>,
    geosite: seq<string>,
    geoip: seq<string>,
    action: RouteAction
  ) {
    predicate GeoFree() {
      geosite == [] && geoip == []
    }

    predicate AnyDomain(host: string) {
      exists i :: 0 <= i < |domains| && domains[i].Matches(host)
    }

    /** `matches`: the native matcher, which never confirms a geo criterion. */
    predicate Matches(req: RouteRequest) {
      && GeoFree()
      && (domains != [] ==> req.domain.Some? && AnyDomain(req.domain.value))
      && (ipCidrs != [] ==> req.ip.Some? && AnyContains(ipCidrs, req.ip.value))
      && (processes != [] ==> AnyAppMatches(processes, req.app))
      && (ports != [] ==> req.port in ports)
    }

    predicate MatchesSansIp(req: RouteRequest) {
      && GeoFree()
      && (domains != [] ==> req.domain.Some? && AnyDomain(req.domain.value))
      && (processes != [] ==> AnyAppMatches(processes, req.app))
      && (ports != [] ==> req.port in ports)
    }
  }

  datatype RouteRequest = RouteRequest(domain: Option<string>, ip: Option<IpAddr>, port: Port, app: ConnApp)

  /** `evaluate`: the action of the first rule that matches, else the default. */
  function Evaluate(rules: seq<Rule>, req: RouteRequest, default: RouteAction): RouteAction {
    if rules == [] then default
    else if rules[0].Matches(req) then rules[0].action
    else Evaluate(rules[1..], req, default)
  }

  /** Rule `i` is the first that matches. */
  predicate FirstMatch(rules: seq<Rule>, req: RouteRequest, i: int) {
    && 0 <= i < |rules| && rules[i].Matches(req)
    && (forall j :: 0 <= j < i ==> !rules[j].Matches(req))
  }

  lemma {:induction false} EvaluateIsFirstMatch(rules: seq<Rule>, req: RouteRequest, default: RouteAction)
    ensures forall i :: FirstMatch(rules, req, i) ==> Evaluate(rules, req, default) == rules[i].action
    ensures (forall i :: 0 <= i < |rules| ==> !rules[i].Matches(req)) ==> Evaluate(rules, req, default) == default
  {
    if rules != [] && !rules[0].Matches(req) {
      var rest := rules[1..];
      EvaluateIsFirstMatch(rest, req, default);
      assert forall i :: 0 < i < |rules| ==> rules[i] == rest[i - 1];
      forall i | FirstMatch(rules, req, i) ensures FirstMatch(rest, req, i - 1) {
        assert forall j :: 0 <= j < i - 1 ==> rest[j] == rules[j + 1];
      }
    }
  }
}
