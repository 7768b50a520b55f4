/**
 The routing engine of `crates/net/src/engine.rs`: first match over rules, with FakeIP reversal,
 at most one lazy DNS resolve, and fail-closed blocking.
 */
module RoutingEngine {
  import opened Wrappers
  import opened Cidr
  import opened SplitConfiguration
  import opened Routing
  import opened GeoData
  import FakeIp

  datatype Target = Domain(host: string, dport: Port) | Socket(ip: IpAddr, sport: Port) {
    function Port(): Port {
      if Domain? then dport else sport
    }
  }

  /** The protocol settings of a node; opaque to routing. */
  type NodeConfig = string

  datatype Outbound = DirectOut | Node(config: NodeConfig)

  datatype Decision = Connect(outbound: Outbound) | Refuse

  datatype Routed = Routed(
    decision: Decision,
    target: Target,
    chosenNode: Option<string>,
    fallback: Option<Outbound>,
    fallbackName: Option<string>
  )

  /** The outcome of a DNS resolve for one name: addresses, or `None` for a failure. */
  type Resolver = string -> Option<seq<IpAddr>>

  /** `parseIp` is the standard library's textual address parser. */
  datatype Engine = Engine(
    outbounds: map<string, Outbound>,
    defaultProxy: Option<string>,
    rules: seq<Rule>,
    defaultAction: RouteAction,
    resolver: Option<Resolver>,
    fakeip: Option<FakeIp.State>,
    geosite: Option<GeoSiteDb>,
    geoip: Option<GeoIpDb>,
    parseIp: string -> Option<IpAddr>
  ) {
    /** `literal_ip`: one trailing dot and enclosing brackets are dropped before parsing. */
    function LiteralIp(host: string): Option<IpAddr> {
      var h := if host != [] && host[|host| - 1] == '.' then host[..|host| - 1] else host;
      var h' := if |h| >= 2 && h[0] == '[' && h[|h| - 1] == ']' then h[1..|h| - 1] else h;
      parseIp(h')
    }

    predicate DomainInRule(rule: Rule, host: string) {
      || rule.AnyDomain(host)
      || (exists i :: 0 <= i < |rule.geosite| && geosite.Some? && SiteMatches(geosite.value, rule.geosite[i], host))
    }

    predicate IpInRule(rule: Rule, ip: IpAddr) {
      || AnyContains(rule.ipCidrs, ip)
      || (exists i :: 0 <= i < |rule.geoip| && geoip.Some? && IpMatches(geoip.value, rule.geoip[i], ip))
    }

    predicate AnyIpInRule(rule: Rule, ips: seq<IpAddr>) {
      exists i :: 0 <= i < |ips| && IpInRule(rule, ips[i])
    }

    predicate NonIpOk(rule: Rule, domain: Option<string>, port: Port, app: ConnApp) {
      && (rule.domains != [] || rule.geosite != [] ==> domain.Some? && DomainInRule(rule, domain.value))
      && (rule.ports != [] ==> port in rule.ports)
      && (rule.processes != [] ==> AnyAppMatches(rule.processes, app))
    }

    /** `act_full`, as the parts of `Routed` it decides. */
    function ActFull(action: RouteAction, target: Target): Routed {
      match action
      case Direct => Routed(Connect(DirectOut), target, None, None, None)
      case Block => Routed(Refuse, target, None, None, None)
      case Proxy(tag) =>
        var key := if tag.Some? then tag else defaultProxy;
        var decision :=
          if key.Some? && key.value in outbounds then Connect(outbounds[key.value]) else Refuse;
        if tag.Some? && defaultProxy.Some? && tag != defaultProxy then
          Routed(decision, target, tag,
                 if defaultProxy.value in outbounds then Some(outbounds[defaultProxy.value]) else None,
                 defaultProxy)
        else Routed(decision, target, None, None, None)
    }

    /** The domain, address and effective target a connection is routed by, after FakeIP reversal. */
    function Identify(target: Target): (Option<string>, Option<IpAddr>, Target) {
      var domain := if target.Domain? then Some(target.host) else None;
      var ip := if target.Domain? then LiteralIp(target.host) else Some(target.ip);
      if fakeip.Some? && ip.Some? && fakeip.value.DomainOf(ip.value).Some? then
        var d := fakeip.value.DomainOf(ip.value).value;
        (Some(d), None, Domain(d, target.Port()))
      else (domain, ip, target)
    }
  }

  // ----- what an action comes to -----

  predicate NoFallback(r: Routed) {
    r.chosenNode.None? && r.fallback.None? && r.fallbackName.None?
  }

  /** The outbound stored under a name, or a refusal. */
  predicate UsesNode(e: Engine, name: string, r: Routed) {
    r.decision == if name in e.outbounds then Connect(e.outbounds[name]) else Refuse
  }

  /** The default node stands by, under its name, with its outbound if there is one. */
  predicate FallsBackTo(e: Engine, default: string, r: Routed) {
    && r.fallbackName == Some(default)
    && r.fallback == if default in e.outbounds then Some(e.outbounds[default]) else None
  }

  /** `r` does what the action says: a rule's own node comes first, the default only stands by for it. */
  predicate DoesAction(e: Engine, action: RouteAction, r: Routed) {
    match action
    case Direct => r.decision == Connect(DirectOut) && NoFallback(r)
    case Block => r.decision == Refuse && NoFallback(r)
    case Proxy(None) =>
      && NoFallback(r)
      && (match e.defaultProxy case Some(d) => UsesNode(e, d, r) case None => r.decision == Refuse)
    case Proxy(Some(t)) =>
      && UsesNode(e, t, r)
      && (match e.defaultProxy
          case Some(d) => if d == t then NoFallback(r) else r.chosenNode == Some(t) && FallsBackTo(e, d, r)
          case None => NoFallback(r))
  }

  predicate HasIpCrit(rule: Rule) {
    rule.ipCidrs != [] || rule.geoip != []
  }

  // ----- the declarative outcome -----

  /** What is known about the destination's addresses when IP criteria are checked. */
  datatype Addresses = Known(ip: IpAddr) | NotResolved | Answered(ips: seq<IpAddr>) | Failed

  function Lookup(e: Engine, domain: Option<string>, ip: Option<IpAddr>): Addresses {
    if ip.Some? then Known(ip.value)
    else if e.resolver.None? then NotResolved
    else
      match e.resolver.value(if domain.Some? then domain.value else "")
      case Some(ips) => Answered(ips)
      case None => Failed
  }

  predicate IpCritHolds(e: Engine, rule: Rule, a: Addresses) {
    match a
    case Known(ip) => e.IpInRule(rule, ip)
    case Answered(ips) => e.AnyIpInRule(rule, ips)
    case _ => false
  }

  predicate Fires(e: Engine, rule: Rule, domain: Option<string>, port: Port, a: Addresses) {
    e.NonIpOk(rule, domain, port, UNKNOWN_APP) && (HasIpCrit(rule) ==> IpCritHolds(e, rule, a))
  }

  /** A Block rule that only an address could confirm, and DNS failed. */
  predicate Unconfirmed(e: Engine, rule: Rule, domain: Option<string>, port: Port, a: Addresses) {
    a.Failed? && HasIpCrit(rule) && rule.action == Block && e.NonIpOk(rule, domain, port, UNKNOWN_APP)
  }

  ghost predicate SomeUnconfirmed(e: Engine, rules: seq<Rule>, domain: Option<string>, port: Port, a: Addresses) {
    exists i :: 0 <= i < |rules| && Unconfirmed(e, rules[i], domain, port, a)
  }

  /** `k` is the first rule that fires, or the number of rules when none does. */
  ghost predicate FirstFiring(e: Engine, rules: seq<Rule>, domain: Option<string>, port: Port, a: Addresses, k: nat) {
    && k <= |rules|
    && (forall j :: 0 <= j < k ==> !Fires(e, rules[j], domain, port, a))
    && (k < |rules| ==> Fires(e, rules[k], domain, port, a))
  }

  /** The action of the first rule that fires; else Block if one stayed unconfirmed; else the default. */
  ghost predicate IsOutcome(e: Engine, domain: Option<string>, port: Port, a: Addresses, action: RouteAction) {
    exists k: nat :: FirstFiring(e, e.rules, domain, port, a, k) &&
                action == (if k < |e.rules| then e.rules[k].action
                           else if SomeUnconfirmed(e, e.rules, domain, port, a) then Block
                           else e.defaultAction)
  }

  lemma FirstFiringUnique(e: Engine, rules: seq<Rule>, domain: Option<string>, port: Port, a: Addresses, k: nat, m: nat)
    requires FirstFiring(e, rules, domain, port, a, k) && FirstFiring(e, rules, domain, port, a, m)
    ensures k == m
  {
  }

  /** The outcome is unique. */
  lemma OutcomeUnique(e: Engine, domain: Option<string>, port: Port, a: Addresses, x: RouteAction, y: RouteAction)
    requires IsOutcome(e, domain, port, a, x) && IsOutcome(e, domain, port, a, y)
    ensures x == y
  {
    var k: nat :| FirstFiring(e, e.rules, domain, port, a, k);
    forall m: nat | FirstFiring(e, e.rules, domain, port, a, m) ensures m == k {
      FirstFiringUnique(e, e.rules, domain, port, a, k, m);
    }
  }

  /** Rule `i` passes its other criteria, has IP criteria, and no earlier rule has fired. */
  ghost predicate NeededAt(e: Engine, rules: seq<Rule>, domain: Option<string>, port: Port, a: Addresses, i: nat)
    requires i < |rules|
  {
    && HasIpCrit(rules[i]) && e.NonIpOk(rules[i], domain, port, UNKNOWN_APP)
    && (forall j :: 0 <= j < i ==> !Fires(e, rules[j], domain, port, a))
  }

  /** The scan needs an address: a rule with IP criteria passes its other criteria before any match. */
  ghost predicate AddressNeeded(e: Engine, rules: seq<Rule>, domain: Option<string>, port: Port, a: Addresses) {
    exists i: nat :: i < |rules| && NeededAt(e, rules, domain, port, a, i)
  }

  // ----- the scan, rule by rule -----

  function Scan(e: Engine, rules: seq<Rule>, domain: Option<string>, port: Port, a: Addresses,
                pending: bool): RouteAction {
    if rules == [] then (if pending then Block else e.defaultAction)
    else if Fires(e, rules[0], domain, port, a) then rules[0].action
    else Scan(e, rules[1..], domain, port, a, pending || Unconfirmed(e, rules[0], domain, port, a))
  }

  predicate Reaches(e: Engine, rules: seq<Rule>, domain: Option<string>, port: Port, a: Addresses) {
    && rules != []
    && (|| (HasIpCrit(rules[0]) && e.NonIpOk(rules[0], domain, port, UNKNOWN_APP))
        || (!Fires(e, rules[0], domain, port, a) && Reaches(e, rules[1..], domain, port, a)))
  }

  lemma {:induction false} ScanFindsFirst(e: Engine, rules: seq<Rule>, domain: Option<string>, port: Port,
                                          a: Addresses, pending: bool)
    returns (k: nat)
    ensures FirstFiring(e, rules, domain, port, a, k)
    ensures Scan(e, rules, domain, port, a, pending) ==
            if k < |rules| then rules[k].action
            else if pending || SomeUnconfirmed(e, rules, domain, port, a) then Block
            else e.defaultAction
  {
    if rules == [] || Fires(e, rules[0], domain, port, a) {
      k := 0;
    } else {
      var rest := rules[1..];
      k := ScanFindsFirst(e, rest, domain, port, a, pending || Unconfirmed(e, rules[0], domain, port, a));
      k := k + 1;
      UnconfirmedTail(e, rules, domain, port, a);
      assert forall j :: 0 < j < |rules| ==> rules[j] == rest[j - 1];
    }
  }

  lemma UnconfirmedTail(e: Engine, rules: seq<Rule>, domain: Option<string>, port: Port, a: Addresses)
    requires rules != []
    ensures SomeUnconfirmed(e, rules, domain, port, a) <==>
              Unconfirmed(e, rules[0], domain, port, a) || SomeUnconfirmed(e, rules[1..], domain, port, a)
  {
    assert forall j :: 0 <= j < |rules[1..]| ==> rules[1..][j] == rules[j + 1];
    if SomeUnconfirmed(e, rules, domain, port, a) {
      var i :| 0 <= i < |rules| && Unconfirmed(e, rules[i], domain, port, a);
      if i > 0 { assert rules[1..][i - 1] == rules[i]; }
    }
  }

  /** The scan yields the declarative outcome. */
  lemma ScanIsOutcome(e: Engine, domain: Option<string>, port: Port, a: Addresses)
    ensures IsOutcome(e, domain, port, a, Scan(e, e.rules, domain, port, a, false))
  {
    var k := ScanFindsFirst(e, e.rules, domain, port, a, false);
  }

  lemma {:induction false} ReachesMeansNeeded(e: Engine, rules: seq<Rule>, domain: Option<string>, port: Port,
                                              a: Addresses)
    ensures Reaches(e, rules, domain, port, a) <==> AddressNeeded(e, rules, domain, port, a)
  {
    if rules != [] {
      var rest := rules[1..];
      ReachesMeansNeeded(e, rest, domain, port, a);
      NeededTail(e, rules, domain, port, a);
    }
  }

  lemma NeededShift(e: Engine, rules: seq<Rule>, domain: Option<string>, port: Port, a: Addresses, i: nat)
    requires 0 < i < |rules|
    ensures NeededAt(e, rules, domain, port, a, i) <==>
              !Fires(e, rules[0], domain, port, a) && NeededAt(e, rules[1..], domain, port, a, i - 1)
  {
    var rest := rules[1..];
    assert rest[i - 1] == rules[i];
    assert forall j :: 0 < j < i ==> rules[j] == rest[j - 1];
    assert forall j :: 0 <= j < i - 1 ==> rest[j] == rules[j + 1];
  }

  lemma NeededTail(e: Engine, rules: seq<Rule>, domain: Option<string>, port: Port, a: Addresses)
    requires rules != []
    ensures AddressNeeded(e, rules, domain, port, a) <==>
              || NeededAt(e, rules, domain, port, a, 0)
              || (!Fires(e, rules[0], domain, port, a) && AddressNeeded(e, rules[1..], domain, port, a))
  {
    if AddressNeeded(e, rules, domain, port, a) {
      var i: nat :| i < |rules| && NeededAt(e, rules, domain, port, a, i);
      if i > 0 { NeededShift(e, rules, domain, port, a, i); }
    }
    if !Fires(e, rules[0], domain, port, a) && AddressNeeded(e, rules[1..], domain, port, a) {
      var i: nat :| i < |rules[1..]| && NeededAt(e, rules[1..], domain, port, a, i);
      NeededShift(e, rules, domain, port, a, i + 1);
    }
  }

  // ----- the two scans of the source -----

  /** The rule loop of `route`; `queries` records the names handed to the resolver. */
  method ScanRules(e: Engine, domain: Option<string>, ip: Option<IpAddr>, port: Port)
    returns (action: RouteAction, queries: seq<string>)
    ensures var a := Lookup(e, domain, ip);
            && action == Scan(e, e.rules, domain, port, a, false)
            && queries == (if ip.None? && e.resolver.Some? && Reaches(e, e.rules, domain, port, a)
                           then [if domain.Some? then domain.value else ""] else [])
  {
    ghost var a := Lookup(e, domain, ip);
    var name := if domain.Some? then domain.value else "";
    queries := [];
    var resolved: Option<Option<seq<IpAddr>>> := None;
    var pendingBlock := false;
    var i := 0;
    assert e.rules[0..] == e.rules;
    while i < |e.rules|
      invariant 0 <= i <= |e.rules|
      invariant Scan(e, e.rules, domain, port, a, false) == Scan(e, e.rules[i..], domain, port, a, pendingBlock)
      invariant ip.None? && e.resolver.Some? ==>
                  (Reaches(e, e.rules, domain, port, a) <==>
                   resolved.Some? || Reaches(e, e.rules[i..], domain, port, a))
      invariant resolved.Some? ==> ip.None? && e.resolver.Some? && resolved.value == e.resolver.value(name)
      invariant queries == if resolved.Some? then [name] else []
    {
      var rule := e.rules[i];
      assert e.rules[i..][0] == rule && e.rules[i..][1..] == e.rules[i + 1..];
      if e.NonIpOk(rule, domain, port, UNKNOWN_APP) {
        if !HasIpCrit(rule) {
          return rule.action, queries;
        } else if ip.Some? {
          if e.IpInRule(rule, ip.value) {
            return rule.action, queries;
          }
        } else if e.resolver.Some? {
          if resolved.None? {
            resolved := Some(e.resolver.value(name));
            queries := queries + [name];
          }
          match resolved.value {
            case Some(ips) =>
              if e.AnyIpInRule(rule, ips) {
                return rule.action, queries;
              }
            case None =>
              if rule.action == Block { pendingBlock := true; }
          }
        }
      }
      i := i + 1;
    }
    action := if pendingBlock then Block else e.defaultAction;
  }

  function RouteAs(e: Engine, target: Target): Routed {
    var (domain, ip, effective) := e.Identify(target);
    e.ActFull(Scan(e, e.rules, domain, target.Port(), Lookup(e, domain, ip), false), effective)
  }

  /** The first rule that fires for a target, and some rule does. */
  ghost predicate MatchedRule(e: Engine, target: Target, k: nat) {
    var (domain, ip, _) := e.Identify(target);
    k < |e.rules| && FirstFiring(e, e.rules, domain, target.Port(), Lookup(e, domain, ip), k)
  }

  /** A matched rule's action is carried out, and nothing else is. */
  lemma MatchedRuleDecides(e: Engine, target: Target, k: nat)
    requires MatchedRule(e, target, k)
    ensures DoesAction(e, e.rules[k].action, RouteAs(e, target))
  {
    var (domain, ip, _) := e.Identify(target);
    var a := Lookup(e, domain, ip);
    var m := ScanFindsFirst(e, e.rules, domain, target.Port(), a, false);
    FirstFiringUnique(e, e.rules, domain, target.Port(), a, k, m);
  }

  lemma ActFullDoesAction(e: Engine, action: RouteAction, target: Target)
    ensures DoesAction(e, action, e.ActFull(action, target)) && e.ActFull(action, target).target == target
  {
  }

  /** `r` carries out the action of the declarative outcome. */
  ghost predicate FollowsOutcome(e: Engine, domain: Option<string>, port: Port, a: Addresses, r: Routed) {
    exists action :: IsOutcome(e, domain, port, a, action) && DoesAction(e, action, r)
  }

  lemma RouteFollowsOutcome(e: Engine, target: Target)
    ensures var (domain, ip, effective) := e.Identify(target);
            && RouteAs(e, target).target == effective
            && FollowsOutcome(e, domain, target.Port(), Lookup(e, domain, ip), RouteAs(e, target))
  {
    var (domain, ip, effective) := e.Identify(target);
    var a := Lookup(e, domain, ip);
    ScanIsOutcome(e, domain, target.Port(), a);
    ActFullDoesAction(e, Scan(e, e.rules, domain, target.Port(), a, false), effective);
  }

  /**
   `route`: the declarative outcome for the destination after FakeIP reversal. The resolver is asked
   at most once, for the destination's name, only if its address is unknown and a rule needs it.
   */
  method Route(e: Engine, target: Target) returns (routed: Routed, queries: seq<string>)
    ensures routed == RouteAs(e, target)
    ensures var (domain, ip, effective) := e.Identify(target);
            var a := Lookup(e, domain, ip);
            && routed.target == effective
            && FollowsOutcome(e, domain, target.Port(), a, routed)
            && queries == (if ip.None? && e.resolver.Some? && AddressNeeded(e, e.rules, domain, target.Port(), a)
                           then [if domain.Some? then domain.value else ""] else [])
  {
    var domain := if target.Domain? then Some(target.host) else None;
    var ip := if target.Domain? then e.LiteralIp(target.host) else Some(target.ip);
    var effective := target;
    if e.fakeip.Some? && ip.Some? {
      var d := e.fakeip.value.DomainOf(ip.value);
      if d.Some? {
        effective := Domain(d.value, target.Port());
        domain := d;
        ip := None;
      }
    }
    assert (domain, ip, effective) == e.Identify(target);
    var action;
    action, queries := ScanRules(e, domain, ip, target.Port());
    routed := e.ActFull(action, effective);
    RouteFollowsOutcome(e, target);
    ReachesMeansNeeded(e, e.rules, domain, target.Port(), Lookup(e, domain, ip));
  }
}
