/** Server profiles and the application config: `crates/core/src/model`, `crates/core/src/config.rs`. */
module Model {
  import opened Wrappers
  import opened Routing

  datatype ProtocolKind = Shadowsocks | Vless | Trojan | Socks5 | Http | WireGuard | Tuic | Hysteria2

  datatype ServerProfile = ServerProfile(
    name: string,
    protocol: ProtocolKind,
    address: string,
    port: Port,
    params: map<string, string>,
    tags: seq<string>
  )

  datatype Settings = Settings(defaultProxy: Option<string>, defaultToProxy: bool, proxyNode: Option<string>)

  datatype Subscription = Subscription(url: string, tag: Option<string>, updateIntervalHours: nat)

  /** The local WireGuard server: three secrets among its settings. */
  datatype LocalWg = LocalWg(
    serverPrivate: string,
    serverPublic: string,
    clientPrivate: string,
    clientPublic: string,
    presharedKey: string,
    port: Port,
    serverIp: string,
    clientIp: string,
    prefix: nat,
    upstreamNode: Option<string>,
    dns: string
  )

  /** The parts of the application config that the source changes in place. */
  class AppConfig {
    var servers: seq<ServerProfile>
    var subscriptions: seq<Subscription>
    var localWg: Option<LocalWg>

    constructor (servers: seq<ServerProfile>, subscriptions: seq<Subscription>, localWg: Option<LocalWg>)
      ensures this.servers == servers && this.subscriptions == subscriptions && this.localWg == localWg
    {
      this.servers := servers;
      this.subscriptions := subscriptions;
      this.localWg := localWg;
    }
  }

  predicate DistinctNames(servers: seq<ServerProfile>) {
    forall i, j :: 0 <= i < j < |servers| ==> servers[i].name != servers[j].name
  }
}
