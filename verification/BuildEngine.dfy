/**
 From a config to an engine: `build_engine` in `crates/cli/src/lib.rs` over `Engine::from_config`
 in `crates/net/src/engine.rs`.
 */
module BuildEngine {
  import opened Wrappers
  import opened Cidr
  import opened Routing
  import opened GeoData
  import opened RoutingEngine
  import opened Model

  /**
   What loading finds outside the config: the outbound each profile yields (never a direct one),
   the resolver, the FakeIP allocator, and the geo databases.
   */
  datatype Environment = Environment(
    outboundOf: ServerProfile -> Option<NodeConfig>,
    resolver: Option<Resolver>,
    fakeip: Option<FakeIp.State>,
    geosite: Option<GeoSiteDb>,
    geoip: Option<GeoIpDb>,
    parseIp: string -> Option<IpAddr>
  )

  datatype BuildError = NodeNotFound(name: string) | DefaultNotFound(name: string) | GeoNotLoaded

  /** One outbound per convertible profile, under its name; a later profile of the same name wins. */
  function Outbounds(env: Environment, servers: seq<ServerProfile>): map<string, Outbound> {
    if servers == [] then map[]
    else
      var last := servers[|servers| - 1];
      var before := Outbounds(env, servers[..|servers| - 1]);
      match env.outboundOf(last)
      case Some(config) => before[last.name := Node(config)]
      case None => before
  }

  function EngineOf(env: Environment, servers: seq<ServerProfile>, rules: seq<Rule>, settings: Settings): Engine {
    Engine(Outbounds(env, servers), settings.defaultProxy, rules,
           if settings.defaultToProxy then Proxy(None) else Direct,
           env.resolver, env.fakeip, env.geosite, env.geoip, env.parseIp)
  }

  method FromConfig(env: Environment, servers: seq<ServerProfile>, rules: seq<Rule>,
                    settings: Settings) returns (e: Engine)
    ensures e == EngineOf(env, servers, rules, settings)
  {
    var outbounds: map<string, Outbound> := map[];
    var i := 0;
    while i < |servers|
      invariant 0 <= i <= |servers|
      invariant outbounds == Outbounds(env, servers[..i])
    {
      assert servers[..i + 1][..i] == servers[..i];
      var made := env.outboundOf(servers[i]);
      if made.Some? {
        outbounds := outbounds[servers[i].name := Node(made.value)];
      }
      i := i + 1;
    }
    assert servers[..i] == servers;
    e := Engine(outbounds, settings.defaultProxy, rules, if settings.defaultToProxy then Proxy(None) else Direct,
                env.resolver, env.fakeip, env.geosite, env.geoip, env.parseIp);
  }

  predicate HasServer(servers: seq<ServerProfile>, name: string) {
    exists i :: 0 <= i < |servers| && servers[i].name == name
  }

  /** `missing_geo_refs` is not empty. */
  predicate MissingGeo(e: Engine) {
    exists i :: 0 <= i < |e.rules|
      && ((e.rules[i].geosite != [] && e.geosite.None?) || (e.rules[i].geoip != [] && e.geoip.None?))
  }

  function Build(env: Environment, servers: seq<ServerProfile>, rules: seq<Rule>, settings: Settings,
                 server: Option<string>)
    : Result<Engine, BuildError>
  {
    var default := if server.Some? then server
                   else if settings.defaultProxy.Some? then settings.defaultProxy
                   else settings.proxyNode;
    if server.Some? && !HasServer(servers, server.value) then Err(NodeNotFound(server.value))
    else if default.Some? && !HasServer(servers, default.value) then Err(DefaultNotFound(default.value))
    else
      var eff := settings.(defaultProxy := default, defaultToProxy := settings.defaultToProxy || server.Some?);
      var engine := EngineOf(env, servers, rules, eff);
      if MissingGeo(engine) then Err(GeoNotLoaded) else Ok(engine)
  }

  // ----- what is built -----

  /** The node named first: the selected one, the configured default, the proxy node. */
  ghost predicate IsDefaultNode(server: Option<string>, settings: Settings, name: string) {
    || server == Some(name)
    || (server.None? && settings.defaultProxy == Some(name))
    || (server.None? && settings.defaultProxy.None? && settings.proxyNode == Some(name))
  }

  ghost predicate GeoLoaded(env: Environment, rules: seq<Rule>) {
    forall i :: 0 <= i < |rules| ==>
      && (rules[i].geosite == [] || env.geosite.Some?)
      && (rules[i].geoip == [] || env.geoip.Some?)
  }

  /** An engine is built exactly when the default node, if one is named, exists and no rule misses its geo file. */
  lemma BuildSucceedsIff(env: Environment, servers: seq<ServerProfile>, rules: seq<Rule>, settings: Settings,
                         server: Option<string>)
    ensures Build(env, servers, rules, settings, server).Ok? <==>
              (forall name :: IsDefaultNode(server, settings, name) ==>
                 exists i :: 0 <= i < |servers| && servers[i].name == name) && GeoLoaded(env, rules)
  {
    var r := Build(env, servers, rules, settings, server);
    var default := if server.Some? then server
                   else if settings.defaultProxy.Some? then settings.defaultProxy
                   else settings.proxyNode;
    assert forall name :: IsDefaultNode(server, settings, name) <==> default == Some(name);
    var engine := EngineOf(env, servers, rules, settings.(defaultProxy := default));
    assert MissingGeo(engine) <==> !GeoLoaded(env, rules);
  }

  /** It then holds the rules, databases and services it was given, and that default. */
  lemma BuiltEngineHolds(env: Environment, servers: seq<ServerProfile>, rules: seq<Rule>, settings: Settings,
                         server: Option<string>)
    requires Build(env, servers, rules, settings, server).Ok?
    ensures var e := Build(env, servers, rules, settings, server).value;
            && (forall name :: e.defaultProxy == Some(name) <==> IsDefaultNode(server, settings, name))
            && e.defaultAction == (if server.Some? || settings.defaultToProxy then Proxy(None) else Direct)
            && e.rules == rules && e.resolver == env.resolver && e.fakeip == env.fakeip
            && e.geosite == env.geosite && e.geoip == env.geoip && e.parseIp == env.parseIp
  {
  }

  /** Profile `i` is the last convertible one of its name. */
  ghost predicate LastConvertible(env: Environment, servers: seq<ServerProfile>, name: string, i: int) {
    && 0 <= i < |servers| && servers[i].name == name && env.outboundOf(servers[i]).Some?
    && (forall j :: i < j < |servers| && servers[j].name == name ==> env.outboundOf(servers[j]).None?)
  }

  /** Under each name stands the outbound of the last convertible profile with that name, and nothing else. */
  lemma {:induction false} LastConvertibleWins(env: Environment, servers: seq<ServerProfile>, name: string)
    ensures name in Outbounds(env, servers) <==> exists i :: LastConvertible(env, servers, name, i)
    ensures forall i :: LastConvertible(env, servers, name, i) ==>
              Outbounds(env, servers)[name] == Node(env.outboundOf(servers[i]).value)
  {
    if servers != [] {
      var n := |servers| - 1;
      var before := servers[..n];
      LastConvertibleWins(env, before, name);
      if servers[n].name == name && env.outboundOf(servers[n]).Some? {
        assert LastConvertible(env, servers, name, n);
        assert forall i :: LastConvertible(env, servers, name, i) ==> i == n;
      } else {
        forall i ensures LastConvertible(env, servers, name, i) <==> LastConvertible(env, before, name, i) {
        }
      }
    }
  }

  // ----- no silent Direct -----

  lemma {:induction false} OutboundsAreNodes(env: Environment, servers: seq<ServerProfile>)
    ensures forall tag :: tag in Outbounds(env, servers) ==> Outbounds(env, servers)[tag].Node?
  {
    if servers != [] { OutboundsAreNodes(env, servers[..|servers| - 1]); }
  }

  /** With distinct names, what is stored under a profile's name is that profile's own outbound. */
  lemma {:induction false} OutboundOfProfile(env: Environment, servers: seq<ServerProfile>, i: nat)
    requires DistinctNames(servers) && i < |servers|
    ensures servers[i].name in Outbounds(env, servers) <==> env.outboundOf(servers[i]).Some?
    ensures env.outboundOf(servers[i]).Some? ==>
              Outbounds(env, servers)[servers[i].name] == Node(env.outboundOf(servers[i]).value)
  {
    var n := |servers| - 1;
    if i < n {
      OutboundOfProfile(env, servers[..n], i);
    } else {
      NoOtherName(env, servers[..n], servers[n].name);
    }
  }

  lemma {:induction false} NoOtherName(env: Environment, servers: seq<ServerProfile>, name: string)
    requires !HasServer(servers, name)
    ensures name !in Outbounds(env, servers)
  {
    if servers != [] {
      var n := |servers| - 1;
      assert forall i :: 0 <= i < n ==> servers[..n][i] == servers[i];
      NoOtherName(env, servers[..n], name);
    }
  }

  /**
   With a node selected, a connection goes out directly only because the first matching rule says
   Direct; what no rule matches uses the selected node's outbound or is refused, and no fallback
   is direct.
   */
  lemma SelectedNodeNoSilentDirect(env: Environment, servers: seq<ServerProfile>, rules: seq<Rule>,
                                   settings: Settings, name: string, target: Target)
    requires Build(env, servers, rules, settings, Some(name)).Ok?
    ensures var e := Build(env, servers, rules, settings, Some(name)).value;
            var routed := RouteAs(e, target);
            && (routed.decision == Connect(DirectOut) <==>
                exists k: nat :: MatchedRule(e, target, k) && e.rules[k].action == Direct)
            && ((forall k: nat :: !MatchedRule(e, target, k)) ==>
                  routed.decision == Refuse || (name in e.outbounds && routed.decision == Connect(e.outbounds[name])))
            && routed.fallback != Some(DirectOut)
  {
    var e := Build(env, servers, rules, settings, Some(name)).value;
    OutboundsAreNodes(env, servers);
    var (domain, ip, _) := e.Identify(target);
    var a := Lookup(e, domain, ip);
    var k := ScanFindsFirst(e, e.rules, domain, target.Port(), a, false);
    if k < |e.rules| {
      assert MatchedRule(e, target, k);
    }
    forall m: nat | MatchedRule(e, target, m) ensures m == k {
      FirstFiringUnique(e, e.rules, domain, target.Port(), a, k, m);
    }
  }

  /** Profile `i` bears the name, and what the engine stores under the name is made from it. */
  ghost predicate OutboundIsOf(env: Environment, servers: seq<ServerProfile>, e: Engine, name: string, i: int) {
    && 0 <= i < |servers| && servers[i].name == name
    && (name in e.outbounds <==> env.outboundOf(servers[i]).Some?)
    && (name in e.outbounds ==> e.outbounds[name] == Node(env.outboundOf(servers[i]).value))
  }

  /** ... and with distinct names that outbound is the one made from the selected profile itself. */
  lemma SelectedNodeIsItsProfile(env: Environment, servers: seq<ServerProfile>, rules: seq<Rule>, settings: Settings,
                                 name: string)
    requires Build(env, servers, rules, settings, Some(name)).Ok? && DistinctNames(servers)
    ensures var e := Build(env, servers, rules, settings, Some(name)).value;
            exists i :: OutboundIsOf(env, servers, e, name, i)
  {
    var i :| 0 <= i < |servers| && servers[i].name == name;
    OutboundOfProfile(env, servers, i);
    assert OutboundIsOf(env, servers, Build(env, servers, rules, settings, Some(name)).value, name, i);
  }

  /** Without a selected node, unmatched traffic is direct exactly when the settings say so and no Block is pending. */
  lemma UnmatchedFollowsSettings(env: Environment, servers: seq<ServerProfile>, rules: seq<Rule>, settings: Settings,
                                 target: Target)
    requires Build(env, servers, rules, settings, None).Ok?
    requires forall k: nat :: !MatchedRule(Build(env, servers, rules, settings, None).value, target, k)
    ensures var e := Build(env, servers, rules, settings, None).value;
            var (domain, ip, _) := e.Identify(target);
            RouteAs(e, target).decision == Connect(DirectOut) <==>
              !settings.defaultToProxy && !SomeUnconfirmed(e, e.rules, domain, target.Port(), Lookup(e, domain, ip))
  {
    var e := Build(env, servers, rules, settings, None).value;
    OutboundsAreNodes(env, servers);
    var (domain, ip, _) := e.Identify(target);
    var k := ScanFindsFirst(e, e.rules, domain, target.Port(), Lookup(e, domain, ip), false);
    assert !MatchedRule(e, target, k);
  }
}
