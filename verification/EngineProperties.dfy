/** What routing guarantees across runs, across FakeIP, and across its three implementations. */
module EngineProperties {
  import opened Wrappers
  import opened Cidr
  import opened Ascii
  import opened SplitConfiguration
  import opened Routing
  import opened GeoData
  import opened RoutingEngine

  /** The action `route` settles on. */
  function ActionFor(e: Engine, target: Target): RouteAction {
    var (domain, ip, _) := e.Identify(target);
    Scan(e, e.rules, domain, target.Port(), Lookup(e, domain, ip), false)
  }

  // ----- the criteria of a rule -----

  /** An explicit domain rule holds for the host, or a category of the loaded geosite file lists it. */
  ghost predicate NameListed(e: Engine, rule: Rule, host: string) {
    || (exists i :: 0 <= i < |rule.domains| && rule.domains[i].Matches(host))
    || (e.geosite.Some? && exists i :: 0 <= i < |rule.geosite| && CategoryLists(e.geosite.value, rule.geosite[i], host))
  }

  predicate CategoryLists(db: GeoSiteDb, category: string, host: string) {
    Lower(category) in db && db[Lower(category)].Matches(host)
  }

  /** An explicit subnet holds the address, or a country of the loaded geoip file does. */
  ghost predicate AddressListed(e: Engine, rule: Rule, ip: IpAddr) {
    || (exists i :: 0 <= i < |rule.ipCidrs| && Cidr.Contains(rule.ipCidrs[i], ip))
    || (e.geoip.Some? && exists i, j :: 0 <= i < |rule.geoip| && CountryHolds(e.geoip.value, rule.geoip[i], j, ip))
  }

  predicate CountryHolds(db: GeoIpDb, country: string, j: int, ip: IpAddr) {
    var code := Lower(country);
    code in db && 0 <= j < |db[code]| && Cidr.Contains(db[code][j], ip)
  }

  /** The addresses a destination is known by. */
  function KnownAddresses(a: Addresses): seq<IpAddr> {
    match a
    case Known(ip) => [ip]
    case Answered(ips) => ips
    case _ => []
  }

  /**
   A rule fires exactly when each kind of criterion it has holds: one of its names for the host, one of
   its ports, one of its subnets for some known address; and it names no process, since none is known.
   */
  lemma FiresIff(e: Engine, rule: Rule, domain: Option<string>, port: Port, a: Addresses)
    ensures Fires(e, rule, domain, port, a) <==>
              && rule.processes == []
              && (rule.ports == [] || port in rule.ports)
              && ((rule.domains == [] && rule.geosite == []) || (domain.Some? && NameListed(e, rule, domain.value)))
              && ((rule.ipCidrs == [] && rule.geoip == [])
                  || exists ip :: ip in KnownAddresses(a) && AddressListed(e, rule, ip))
  {
    forall ip ensures e.IpInRule(rule, ip) <==> AddressListed(e, rule, ip) {
      AddressListedIff(e, rule, ip);
    }
    if IpCritHolds(e, rule, a) && a.Answered? {
      var i :| 0 <= i < |a.ips| && e.IpInRule(rule, a.ips[i]);
      assert a.ips[i] in KnownAddresses(a);
    }
  }

  lemma AddressListedIff(e: Engine, rule: Rule, ip: IpAddr)
    ensures e.IpInRule(rule, ip) <==> AddressListed(e, rule, ip)
  {
    if e.geoip.Some? {
      forall i | 0 <= i < |rule.geoip|
        ensures IpMatches(e.geoip.value, rule.geoip[i], ip) <==>
                  exists j :: CountryHolds(e.geoip.value, rule.geoip[i], j, ip)
      {
        CountryHoldsIff(e.geoip.value, rule.geoip[i], ip);
      }
    }
  }

  lemma CountryHoldsIff(db: GeoIpDb, country: string, ip: IpAddr)
    ensures IpMatches(db, country, ip) <==> exists j :: CountryHolds(db, country, j, ip)
  {
    if IpMatches(db, country, ip) {
      var j :| 0 <= j < |db[Lower(country)]| && Cidr.Contains(db[Lower(country)][j], ip);
      assert CountryHolds(db, country, j, ip);
    }
  }

  /** One trailing dot and enclosing brackets do not hide a literal address from the IP criteria. */
  lemma LiteralForms(e: Engine, text: string)
    requires text == "" || (text[0] != '[' && text[|text| - 1] != '.')
    ensures e.LiteralIp(text) == e.parseIp(text)
    ensures e.LiteralIp(text + ".") == e.parseIp(text)
    ensures e.LiteralIp("[" + text + "]") == e.parseIp(text)
    ensures e.LiteralIp("[" + text + "].") == e.parseIp(text)
  {
    var bracketed := "[" + text + "]";
    assert (text + ".")[..|text|] == text;
    assert bracketed[1..|bracketed| - 1] == text;
    assert (bracketed + ".")[..|bracketed|] == bracketed && "[" + text + "]." == bracketed + ".";
  }

  // ----- DNS failure never opens a block -----

  /** A rule whose only criteria are ones DNS cannot influence. */
  predicate FiresByName(e: Engine, rule: Rule, target: Target) {
    target.Domain? && !HasIpCrit(rule) && e.NonIpOk(rule, Some(target.host), target.dport, UNKNOWN_APP)
  }

  function WithResolver(e: Engine, r: Resolver): Engine {
    e.(resolver := Some(r))
  }

  lemma FailureOnlyRemovesMatches(e: Engine, failing: Resolver, rule: Rule, target: Target, a: Addresses)
    requires target.Domain?
    requires Fires(WithResolver(e, failing), rule, Some(target.host), target.dport, Failed)
    ensures Fires(e, rule, Some(target.host), target.dport, a) && FiresByName(e, rule, target)
  {
  }

  lemma FailureKeepsBlockPending(e: Engine, failing: Resolver, rule: Rule, target: Target, a: Addresses)
    requires target.Domain? && rule.action == Block
    requires Fires(e, rule, Some(target.host), target.dport, a)
    ensures || Fires(WithResolver(e, failing), rule, Some(target.host), target.dport, Failed)
            || Unconfirmed(WithResolver(e, failing), rule, Some(target.host), target.dport, Failed)
  {
  }

  lemma NamedLookups(e: Engine, target: Target)
    requires target.Domain? && e.LiteralIp(target.host).None? && e.resolver.Some?
    ensures var answer := e.resolver.value(target.host);
            ActionFor(e, target) ==
            Scan(e, e.rules, Some(target.host), target.dport, if answer.Some? then Answered(answer.value)
                 else Failed, false)
  {
  }

  /**
   Two runs on one name: where some DNS answer leads to Block, a failing resolver leads to Block too,
   or to a rule further down that fires by name alone; it never falls through to another default.
   */
  lemma DnsFailureNeverOpensBlock(e: Engine, failing: Resolver, target: Target)
    requires target.Domain? && e.LiteralIp(target.host).None?
    requires e.resolver.Some? && e.resolver.value(target.host).Some?
    requires failing(target.host).None?
    requires ActionFor(e, target) == Block
    ensures var blocked := ActionFor(WithResolver(e, failing), target);
            || blocked == Block
            || exists k: nat, j: nat ::
                 && FirstFiring(e, e.rules, Some(target.host), target.dport,
                                Answered(e.resolver.value(target.host).value), k)
                 && k < j < |e.rules| && FiresByName(e, e.rules[j], target) && blocked == e.rules[j].action
  {
    var f := WithResolver(e, failing);
    var name, port := Some(target.host), target.dport;
    var answered := Answered(e.resolver.value(target.host).value);
    NamedLookups(e, target);
    NamedLookups(f, target);
    var k := ScanFindsFirst(e, e.rules, name, port, answered, false);
    var j := ScanFindsFirst(f, f.rules, name, port, Failed, false);
    if j < |f.rules| {
      FailureOnlyRemovesMatches(e, failing, f.rules[j], target, answered);
    }
    if k < |e.rules| {
      FailureKeepsBlockPending(e, failing, e.rules[k], target, answered);
    }
  }

  // ----- FakeIP is transparent -----

  /**
   A fake address routes exactly like the domain it was issued for, as long as fewer than
   `count - 1` fresh allocations followed.
   */
  lemma FakeAddressRoutesAsDomain(e: Engine, issued: seq<string>, k: nat, port: Port)
    requires e.fakeip.Some? && FakeIp.Refines(e.fakeip.value, issued)
    requires k < |issued| && |issued| - (k + 1) < e.fakeip.value.count - 1
    requires e.LiteralIp(issued[k]).None?
    ensures var s := e.fakeip.value;
            var fake := Socket(V4(FakeIp.Slot(s.base, s.count, k)), port);
            && RouteAs(e, fake) == RouteAs(e, Domain(issued[k], port))
            && RouteAs(e, fake).target == Domain(issued[k], port)
            && forall text :: e.LiteralIp(text) == Some(fake.ip) ==> RouteAs(e, Domain(text, port)) == RouteAs(e, fake)
  {
    FakeIp.BindingSurvives(e.fakeip.value, issued, k);
  }

  /** Past that, the same address routes like one domain allocated later, by name whatever the name is. */
  lemma StaleFakeAddressRoutesAsSuccessor(e: Engine, issued: seq<string>, k: nat, port: Port)
    requires e.fakeip.Some? && FakeIp.Refines(e.fakeip.value, issued)
    requires k < |issued| && |issued| - (k + 1) >= e.fakeip.value.count - 1
    ensures var s := e.fakeip.value;
            var stale := RouteAs(e, Socket(V4(FakeIp.Slot(s.base, s.count, k)), port));
            exists j :: k < j < |issued| && stale.target == Domain(issued[j], port)
                        && (e.LiteralIp(issued[j]).None? ==> stale == RouteAs(e, Domain(issued[j], port)))
  {
    FakeIp.BindingEvicted(e.fakeip.value, issued, k);
    var s := e.fakeip.value;
    var ip := FakeIp.Slot(s.base, s.count, k);
    var j :| k < j < |issued| && s.ipToDom[ip] == issued[j];
    assert s.DomainOf(V4(ip)) == Some(issued[j]);
  }

  function WithoutFakeIp(e: Engine): Engine {
    e.(fakeip := None)
  }

  lemma {:induction false} ScanIgnoresFakeIp(e: Engine, rules: seq<Rule>, domain: Option<string>, port: Port,
                                             a: Addresses, pending: bool)
    ensures Scan(WithoutFakeIp(e), rules, domain, port, a, pending) == Scan(e, rules, domain, port, a, pending)
  {
    if rules != [] {
      FiresIff(e, rules[0], domain, port, a);
      FiresIff(WithoutFakeIp(e), rules[0], domain, port, a);
      ScanIgnoresFakeIp(e, rules[1..], domain, port, a, pending || Unconfirmed(e, rules[0], domain, port, a));
    }
  }

  /** The address a target is known by before any lookup is one that the allocator has bound. */
  predicate TargetIsFake(e: Engine, target: Target) {
    && e.fakeip.Some?
    && (match target
        case Domain(host, _) => e.LiteralIp(host).Some? && e.fakeip.value.DomainOf(e.LiteralIp(host).value).Some?
        case Socket(ip, _) => e.fakeip.value.DomainOf(ip).Some?)
  }

  /** Every other destination is routed as if there were no FakeIP. */
  lemma OtherTargetsUnaffected(e: Engine, target: Target)
    requires !TargetIsFake(e, target)
    ensures RouteAs(e, target) == RouteAs(WithoutFakeIp(e), target)
    ensures RouteAs(e, target).target == target
  {
    var domain := if target.Domain? then Some(target.host) else None;
    var ip := if target.Domain? then e.LiteralIp(target.host) else Some(target.ip);
    assert e.Identify(target) == WithoutFakeIp(e).Identify(target) == (domain, ip, target);
    var a := Lookup(e, domain, ip);
    assert Lookup(WithoutFakeIp(e), domain, ip) == a;
    ScanIgnoresFakeIp(e, e.rules, domain, target.Port(), a, false);
  }

  // ----- the three implementations -----

  /** What `resolve_target` knows: the name and the literal address, never a resolved one. */
  function SyncAction(e: Engine, target: Target): RouteAction {
    var domain := if target.Domain? then Some(target.host) else None;
    var ip := if target.Domain? then e.LiteralIp(target.host) else Some(target.ip);
    Scan(e, e.rules, domain, target.Port(), if ip.Some? then Known(ip.value) else NotResolved, false)
  }

  method ResolveTarget(e: Engine, target: Target) returns (decision: Decision)
    ensures decision == e.ActFull(SyncAction(e, target), target).decision
  {
    var domain := if target.Domain? then Some(target.host) else None;
    var ip := if target.Domain? then e.LiteralIp(target.host) else Some(target.ip);
    ghost var a := if ip.Some? then Known(ip.value) else NotResolved;
    var port := target.Port();
    var action := e.defaultAction;
    var i := 0;
    assert e.rules[0..] == e.rules;
    while i < |e.rules|
      invariant 0 <= i <= |e.rules|
      invariant Scan(e, e.rules, domain, port, a, false) == Scan(e, e.rules[i..], domain, port, a, false)
    {
      var rule := e.rules[i];
      assert e.rules[i..][0] == rule && e.rules[i..][1..] == e.rules[i + 1..];
      if e.NonIpOk(rule, domain, port, UNKNOWN_APP) {
        if !HasIpCrit(rule) || (ip.Some? && e.IpInRule(rule, ip.value)) {
          return e.ActFull(rule.action, target).decision;
        }
      }
      i := i + 1;
    }
    decision := e.ActFull(action, target).decision;
  }

  /** Without FakeIP, `route` and `resolve_target` agree where no DNS answer can matter. */
  lemma SyncAgreesWithRoute(e: Engine, target: Target)
    requires e.fakeip.None?
    requires e.resolver.None? || target.Socket? || e.LiteralIp(target.host).Some?
    ensures RouteAs(e, target).decision == e.ActFull(SyncAction(e, target), target).decision
  {
  }

  ghost predicate SomeFiresByName(e: Engine, target: Target) {
    exists j :: 0 <= j < |e.rules| && FiresByName(e, e.rules[j], target)
  }

  /** Neither failed DNS nor missing DNS lets a rule fire that its other criteria do not. */
  lemma FiresWithoutDns(e: Engine, target: Target, rule: Rule)
    requires target.Domain?
    ensures Fires(e, rule, Some(target.host), target.dport, Failed) <==> FiresByName(e, rule, target)
    ensures Fires(e, rule, Some(target.host), target.dport, NotResolved) <==> FiresByName(e, rule, target)
  {
  }

  /**
   With DNS down they agree exactly when some rule fires by name alone, or no address-only Block
   stays unconfirmed, or the default refuses anyway.
   */
  lemma SyncAgreesIffDnsDown(e: Engine, target: Target)
    requires e.fakeip.None? && target.Domain? && e.LiteralIp(target.host).None?
    requires e.resolver.Some? && e.resolver.value(target.host).None?
    ensures RouteAs(e, target).decision == e.ActFull(SyncAction(e, target), target).decision <==>
              || SomeFiresByName(e, target)
              || !SomeUnconfirmed(e, e.rules, Some(target.host), target.dport, Failed)
              || e.ActFull(e.defaultAction, target).decision == Refuse
  {
    var name, port := Some(target.host), target.dport;
    var k := ScanFindsFirst(e, e.rules, name, port, Failed, false);
    var j := ScanFindsFirst(e, e.rules, name, port, NotResolved, false);
    forall i | 0 <= i < |e.rules|
      ensures Fires(e, e.rules[i], name, port, Failed) <==> FiresByName(e, e.rules[i], target)
      ensures Fires(e, e.rules[i], name, port, NotResolved) <==> FiresByName(e, e.rules[i], target)
    {
      FiresWithoutDns(e, target, e.rules[i]);
    }
    assert k == j;
    assert !SomeUnconfirmed(e, e.rules, name, port, NotResolved);
  }

  /** So they can part: with DNS down, an address-only Block is kept by one and lost by the other. */
  lemma SyncFailsOpen(e: Engine, rule: Rule, target: Target)
    requires e.fakeip.None? && target.Domain? && e.LiteralIp(target.host).None?
    requires e.resolver.Some? && e.resolver.value(target.host).None?
    requires e.rules == [rule] && rule.action == Block && HasIpCrit(rule)
    requires e.NonIpOk(rule, Some(target.host), target.dport, UNKNOWN_APP) && e.defaultAction == Direct
    ensures RouteAs(e, target).decision == Refuse
    ensures e.ActFull(SyncAction(e, target), target).decision == Connect(DirectOut)
  {
    var name, port := Some(target.host), target.dport;
    var failed := ScanFindsFirst(e, e.rules, name, port, Failed, false);
    assert Unconfirmed(e, e.rules[0], name, port, Failed);
    var unresolved := ScanFindsFirst(e, e.rules, name, port, NotResolved, false);
    assert !Fires(e, e.rules[0], name, port, NotResolved) && !Fires(e, e.rules[0], name, port, Failed);
  }

  /** The native matcher is the address-blind one plus the address check. */
  lemma MatchesSplits(rule: Rule, req: RouteRequest)
    ensures rule.Matches(req) <==>
              rule.MatchesSansIp(req)
                && (rule.ipCidrs != [] ==> req.ip.Some? && AnyContains(rule.ipCidrs, req.ip.value))
  {
  }

  lemma GeoFreeFires(e: Engine, rule: Rule, domain: Option<string>, ip: Option<IpAddr>, port: Port)
    requires rule.GeoFree()
    ensures Fires(e, rule, domain, port, if ip.Some? then Known(ip.value) else NotResolved) <==>
              rule.Matches(RouteRequest(domain, ip, port, UNKNOWN_APP))
  {
  }

  lemma {:induction false} GeoFreeScan(e: Engine, rules: seq<Rule>, domain: Option<string>, ip: Option<IpAddr>,
                                       port: Port)
    requires forall i :: 0 <= i < |rules| ==> rules[i].GeoFree()
    ensures Scan(e, rules, domain, port, if ip.Some? then Known(ip.value) else NotResolved, false) ==
            Evaluate(rules, RouteRequest(domain, ip, port, UNKNOWN_APP), e.defaultAction)
  {
    if rules != [] {
      GeoFreeFires(e, rules[0], domain, ip, port);
      GeoFreeScan(e, rules[1..], domain, ip, port);
    }
  }

  /** On geo-free rules both engine scans act on what the native `evaluate` returns. */
  lemma EvaluateAgreesWithRoute(e: Engine, target: Target)
    requires e.fakeip.None?
    requires e.resolver.None? || target.Socket? || e.LiteralIp(target.host).Some?
    requires forall i :: 0 <= i < |e.rules| ==> e.rules[i].GeoFree()
    ensures var (domain, ip, effective) := e.Identify(target);
            var native := Evaluate(e.rules, RouteRequest(domain, ip, target.Port(), UNKNOWN_APP), e.defaultAction);
            ActionFor(e, target) == native == SyncAction(e, target)
  {
    var (domain, ip, effective) := e.Identify(target);
    GeoFreeScan(e, e.rules, domain, ip, target.Port());
  }
}
