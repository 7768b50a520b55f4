/** From loading a config to routing with it: renaming makes the engine's outbounds the profiles' own. */
module LoadedConfig {
  import opened Wrappers
  import opened Routing
  import opened Model
  import opened BuildEngine
  import opened UniqueNames

  /**
   After `ensure_distinct_node_names`, whatever names the config came with, the outbound of the
   selected node is made from the one profile that bears the name, and that profile is the loaded
   one but for its name.
   */
  lemma LoadedNodeIsItsProfile(env: Environment, servers: seq<ServerProfile>, rules: seq<Rule>, settings: Settings,
                               name: string)
    requires Build(env, DistinctServers(servers, {}), rules, settings, Some(name)).Ok?
    ensures var loaded := DistinctServers(servers, {});
            var e := Build(env, loaded, rules, settings, Some(name)).value;
            exists i :: OutboundIsOf(env, loaded, e, name, i) && i < |servers| && loaded[i] == servers[i].(name := name)
  {
    var loaded := DistinctServers(servers, {});
    NamesAreDistinct(servers, {});
    SelectedNodeIsItsProfile(env, loaded, rules, settings, name);
    var e := Build(env, loaded, rules, settings, Some(name)).value;
    var i :| OutboundIsOf(env, loaded, e, name, i);
    KeepsNameIff(servers, i);
  }
}
