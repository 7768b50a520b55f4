/** The split decision ladder in user mode: `crates/core/src/split/engine.rs`. */
module SplitDecision {
  import opened Wrappers
  import opened Ascii
  import opened Numerals
  import opened Cidr
  import opened SplitConfiguration

  /** The standard library's textual address parser. */
  type IpParser = string -> Option<IpAddr>

  datatype SplitConfig = SplitConfig(
    mode: SplitMode,
    apps: seq<AppMatcher>,
    killSwitch: bool,
    forceDirect: seq<string>,
    forceTunnel: seq<string>,
    serverEndpoints: seq<string>
  )

  datatype Action = GoDirect | GoTunnel | GoBlock

  /** `IpCidr::parse`. */
  function ParseCidr(parseIp: IpParser, s: string): (r: Option<IpCidr>)
    ensures r.Some? ==> r.value.Valid()
  {
    var slash := Find(s, '/');
    var prefix := if slash.Some? then ParseUint(s[slash.value + 1..], 255) else None;
    if slash.Some? && prefix.None? then None
    else
      match parseIp(if slash.Some? then s[..slash.value] else s)
      case None => None
      case Some(base) =>
        if slash.None? then Some(IpCidr(base, base.Width()))
        else if prefix.value > base.Width() then None
        else Some(IpCidr(base, prefix.value))
  }

  /** `endpoint_ip`: an address, or an address and a port. */
  function EndpointIp(parseIp: IpParser, e: string): Option<IpAddr> {
    if parseIp(e).Some? then parseIp(e)
    else
      match RFind(e, ':')
      case Some(i) => parseIp(e[..i])
      case None => None
  }

  /** `ALWAYS_BYPASS_CIDRS`, parsed: LAN, loopback, link-local, multicast, broadcast, ULA. */
  const ALWAYS_BYPASS: seq<IpCidr> := [
    IpCidr(V4(0x0A00_0000), 8),
    IpCidr(V4(0xAC10_0000), 12),
    IpCidr(V4(0xC0A8_0000), 16),
    IpCidr(V4(0x7F00_0000), 8),
    IpCidr(V4(0xA9FE_0000), 16),
    IpCidr(V4(0xE000_0000), 4),
    IpCidr(V4(0xFFFF_FFFF), 32),
    IpCidr(V6(1), 128),
    IpCidr(V6(0xFE80_0000_0000_0000_0000_0000_0000_0000), 10),
    IpCidr(V6(0xFC00_0000_0000_0000_0000_0000_0000_0000), 7),
    IpCidr(V6(0xFF00_0000_0000_0000_0000_0000_0000_0000), 8)
  ]

  /** `cidrs_contain`: entries that do not parse are skipped. */
  predicate CidrsContain(parseIp: IpParser, list: seq<string>, ip: IpAddr) {
    exists i :: 0 <= i < |list| && ParseCidr(parseIp, list[i]).Some?
      && Cidr.Contains(ParseCidr(parseIp, list[i]).value, ip)
  }

  predicate IsEndpoint(parseIp: IpParser, endpoints: seq<string>, ip: IpAddr) {
    exists i :: 0 <= i < |endpoints| && EndpointIp(parseIp, endpoints[i]) == Some(ip)
  }

  function Decide(parseIp: IpParser, app: ConnApp, ip: IpAddr, cfg: SplitConfig, tunnelUp: bool): Action {
    if IsEndpoint(parseIp, cfg.serverEndpoints, ip) then GoDirect
    else if AnyContains(ALWAYS_BYPASS, ip) then GoDirect
    else if CidrsContain(parseIp, cfg.forceDirect, ip) then GoDirect
    else
      var selected := AnyAppMatches(cfg.apps, app);
      var tunnel := CidrsContain(parseIp, cfg.forceTunnel, ip) || (if cfg.mode.Inclusive? then selected else !selected);
      if !tunnel then GoDirect
      else if tunnelUp then GoTunnel
      else if cfg.killSwitch then GoBlock
      else GoDirect
  }
}
