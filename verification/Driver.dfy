/**
 The decision ladder in the kernel: `wfp-driver/src/driver.c`, fed by the driver config that
 `crates/platform-windows/src/wfp/ipc.rs` builds.
 */
module Driver {
  import opened Bits
  import opened Ascii
  import opened SplitConfiguration

  /** `JAMM_IP`: an IPv4 address fills the first four bytes, the rest are zero. */
  datatype JammIp = JammIp(family: byte, addr: seq<byte>)
  datatype JammCidr = JammCidr(ip: JammIp, prefix: byte)
  datatype JammApp = JammApp(byName: bool, value: string)
  datatype JammDecision = JammDirect | JammTunnel | JammBlock

  datatype JammConfig = JammConfig(
    mode: byte,
    killSwitch: bool,
    apps: seq<JammApp>,
    bypass: seq<JammCidr>,
    forceDirect: seq<JammCidr>,
    forceTunnel: seq<JammCidr>,
    endpoints: seq<JammIp>
  )

  predicate WellFormed(ip: JammIp) {
    |ip.addr| == 16
  }

  predicate WellFormedList(list: seq<JammCidr>) {
    forall i :: 0 <= i < |list| ==> WellFormed(list[i].ip)
  }

  // ----- matching -----

  predicate CidrHit(c: JammCidr, ip: JammIp)
    requires WellFormed(c.ip) && WellFormed(ip)
  {
    if c.ip.family != ip.family then false
    else
      var maxBits := if ip.family == 4 then 32 else 128;
      var prefix := if c.prefix > maxBits then maxBits else c.prefix;
      var fullBytes, remBits := prefix / 8, prefix % 8;
      && (fullBytes != 0 ==> c.ip.addr[..fullBytes] == ip.addr[..fullBytes])
      && (remBits != 0 ==>
            var mask := MaxShl(8, 8 - remBits);
            And(c.ip.addr[fullBytes], mask) == And(ip.addr[fullBytes], mask))
  }

  predicate ListHit(list: seq<JammCidr>, ip: JammIp)
    requires WellFormedList(list) && WellFormed(ip)
  {
    exists i :: 0 <= i < |list| && CidrHit(list[i], ip)
  }

  predicate EndsWithCi(hay: string, suffix: string) {
    suffix != [] && EndsWith(hay, suffix)
  }

  /** One iteration of `JammAppSelected`: by name the value or a separator and the value; by path its tail. */
  predicate AppHit(a: JammApp, app: string) {
    var v := a.value;
    if a.byName then
      || app == v
      || (|v| + 1 <= |app| && IsSeparator(app[|app| - |v| - 1]) && EndsWithCi(app, v))
    else
      EndsWithCi(app, if |v| >= 2 && v[1] == ':' then v[2..] else v)
  }

  method JammIpInList(list: seq<JammCidr>, ip: JammIp) returns (hit: bool)
    requires WellFormedList(list) && WellFormed(ip)
    ensures hit <==> ListHit(list, ip)
  {
    var i := 0;
    while i < |list|
      invariant 0 <= i <= |list|
      invariant forall j :: 0 <= j < i ==> !CidrHit(list[j], ip)
    {
      if CidrHit(list[i], ip) { return true; }
      i := i + 1;
    }
    return false;
  }

  method JammIpInEndpoints(list: seq<JammIp>, ip: JammIp) returns (hit: bool)
    ensures hit <==> ip in list
  {
    var i := 0;
    while i < |list|
      invariant 0 <= i <= |list|
      invariant forall j :: 0 <= j < i ==> list[j] != ip
    {
      if list[i].family == ip.family && list[i].addr == ip.addr { return true; }
      i := i + 1;
    }
    return false;
  }

  method JammAppSelected(apps: seq<JammApp>, app: string) returns (selected: bool)
    ensures selected <==> exists i :: 0 <= i < |apps| && AppHit(apps[i], app)
  {
    var i := 0;
    while i < |apps|
      invariant 0 <= i <= |apps|
      invariant forall j :: 0 <= j < i ==> !AppHit(apps[j], app)
    {
      if AppHit(apps[i], app) { return true; }
      i := i + 1;
    }
    return false;
  }

  function Zeros(n: nat): (z: seq<byte>)
    ensures |z| == n
  {
    seq(n, _ => 0)
  }

  const BUILTIN_BYPASS: seq<JammCidr> := [
    JammCidr(JammIp(4, [10] + Zeros(15)), 8),
    JammCidr(JammIp(4, [172, 16] + Zeros(14)), 12),
    JammCidr(JammIp(4, [192, 168] + Zeros(14)), 16),
    JammCidr(JammIp(4, [127] + Zeros(15)), 8),
    JammCidr(JammIp(4, [169, 254] + Zeros(14)), 16),
    JammCidr(JammIp(4, [224] + Zeros(15)), 4),
    JammCidr(JammIp(4, [255, 255, 255, 255] + Zeros(12)), 32),
    JammCidr(JammIp(6, Zeros(15) + [1]), 128),
    JammCidr(JammIp(6, [0xFE, 0x80] + Zeros(14)), 10),
    JammCidr(JammIp(6, [0xFC] + Zeros(15)), 7),
    JammCidr(JammIp(6, [0xFF] + Zeros(15)), 8)
  ]

  predicate Loaded(cfg: JammConfig) {
    WellFormedList(cfg.bypass) && WellFormedList(cfg.forceDirect) && WellFormedList(cfg.forceTunnel)
  }

  function Ladder(cfg: JammConfig, app: string, remote: JammIp): JammDecision
    requires Loaded(cfg) && WellFormed(remote)
  {
    if remote in cfg.endpoints then JammDirect
    else if ListHit(BUILTIN_BYPASS, remote) then JammDirect
    else if ListHit(cfg.bypass, remote) then JammDirect
    else if ListHit(cfg.forceDirect, remote) then JammDirect
    else if ListHit(cfg.forceTunnel, remote) then JammTunnel
    else
      var selected := exists i :: 0 <= i < |cfg.apps| && AppHit(cfg.apps[i], app);
      if cfg.mode == 0 then (if selected then JammTunnel else JammDirect)
      else (if selected then JammDirect else JammTunnel)
  }

  method JammDecide(cfg: JammConfig, app: string, remote: JammIp) returns (decision: JammDecision)
    requires Loaded(cfg) && WellFormed(remote)
    ensures decision == Ladder(cfg, app, remote)
  {
    var hit := JammIpInEndpoints(cfg.endpoints, remote);
    if hit { return JammDirect; }
    hit := JammIpInList(BUILTIN_BYPASS, remote);
    if hit { return JammDirect; }
    hit := JammIpInList(cfg.bypass, remote);
    if hit { return JammDirect; }
    hit := JammIpInList(cfg.forceDirect, remote);
    if hit { return JammDirect; }
    hit := JammIpInList(cfg.forceTunnel, remote);
    if hit { return JammTunnel; }
    var selected := JammAppSelected(cfg.apps, app);
    if cfg.mode == 0 {
      return if selected then JammTunnel else JammDirect;
    } else {
      return if selected then JammDirect else JammTunnel;
    }
  }
}
